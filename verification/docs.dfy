/** The retrieved-passage record the query path passes between search,
    reranking, evaluation and prompt building: the dict with keys `text`,
    `title`, `url` and `vector_score`. */
module Docs {

  datatype Doc = Doc(text: string, title: string, url: string, vectorScore: real)

  /** `[doc['text'] for doc in docs]`. */
  function Texts(docs: seq<Doc>): seq<string>
  {
    seq(|docs|, k requires 0 <= k < |docs| => docs[k].text)
  }

  /** `[doc['title'] for doc in docs]`. */
  function Titles(docs: seq<Doc>): seq<string>
  {
    seq(|docs|, k requires 0 <= k < |docs| => docs[k].title)
  }
}
