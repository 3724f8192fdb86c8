# Newton-LLM retrieval pipeline in Dafny

This project models the pure logic of the Newton-LLM question-answering
system, a retrieval-augmented generator over Wikipedia material about Isaac
Newton. It proves properties of that logic. The modelled parts:

- **Ingestion text shaping** (`NewtonDataPipeline`):
  - the regex cleaner `clean_text`;
  - the greedy, sentence-aligned chunker `chunk_text`;
  - the chunk/embedding pairing that `store_in_qdrant` sends to the vector index.
- **Reranking** (`NewtonReranker.rerank_documents`): passages are truncated to 512 characters, scored by a cross-encoder, stable-sorted by score descending and cut to `top_k`.
- **Evaluation** (`RAGEvaluator`):
  - mean and max retrieval similarity;
  - the 2000-character grounding window and the judge prompt;
  - the 0.5 fallback when the judge or the parse fails;
  - answer relevance.
- **Orchestration** (`EnhancedNewtonRAG.answer_question`): embed, search 20 hits, rerank to 5, optional retrieval evaluation, prompt, generate, optional answer evaluation, result record.
- **Page processing** (`TextProcessor`):
  - the whitespace tail of `clean_html_content`;
  - `process_single_page`, including the division by zero on an empty page;
  - `process_multiple_pages`, which skips failing pages;
  - `get_processing_summary`;
  - `update_config`, which leaves the settings alone when validation raises.

External services are parameters of the functions that call them:

- the embedding service;
- vector search;
- the cross-encoder;
- the chat model used for generation and judging;
- cosine similarity;
- `float()` parsing;
- BeautifulSoup's element removal and `get_text`;
- configuration validation.

A service that can raise is a function returning `Option`, where `None` means the call raised. These are the embedding service, vector search, the cross-encoder, the chat model, `float()` parsing, the HTML-to-text step and configuration validation. Cosine similarity is a plain function to a real number. An exception that ends a pipeline is a `Failure` carrying the stage it came from.

Files, one module each:

| file | module | models |
|---|---|---|
| wrappers.dfy | `Wrappers` | `Option` and `Result` |
| text.dfy | `Text` | Python `str.isspace`, `strip()`, `sep.join`, `s[:k]`, `re.sub(r'\s+', ' ', s)` |
| docs.dfy | `Docs` | the retrieved-document dict (`text`, `title`, `url`, `vector_score`) |
| data_pipeline.dfy | `DataPipeline` | `clean_text`, `text.split('. ')`, `chunk_text`, the `store_in_qdrant` payload |
| reranker.dfy | `Reranker` | `rerank_documents` |
| evaluator.dfy | `Evaluator` | `evaluate_retrieval_relevance`, `check_factual_grounding`, `evaluate_answer_quality` |
| newton_rag.dfy | `NewtonRag` | `answer_question` and its context and prompt |
| text_processors.dfy | `TextProcessors` | `TextProcessor` |

Four behaviours of the code that the model keeps:

- **Empty text.** `chunk_text("")` returns one chunk with text `"."`. `"".split('. ')` is `[""]`, so the buffer becomes `". "`, and its strip `"."` is emitted.
- **Grounding score.** It is the judge's parsed reply and is not clamped to [0, 1]. A judge answering `7` gives 7.0.
- **Reranker ties.** Equal cross-encoder scores keep their input order, because Python's sort is stable also with `reverse=True`. `vector_score` plays no part in the order.
- **Reranker output.** The reranked documents are the input dicts, unchanged. No relevance score is added to them.

## Model

| member | source | states |
|---|---|---|
| Text.Strip | src/rag/data_pipeline.py:35 | `strip()` returns a contiguous slice of the input. The slice neither starts nor ends with whitespace, and everything outside it is whitespace. |
| Text.StripEmptyIffAllSpace | src/rag/data_pipeline.py:48 | `s.strip()` is empty exactly when `s` is all whitespace. This is the emptiness test `chunk_text` applies to its buffer. |
| Text.StripVisible | src/rag/data_pipeline.py:35 | `strip()` removes only whitespace: the non-space characters are unchanged and in order. |
| Text.CollapseSpaces | src/data_ingestion/processors/text_processors.py:40 | `re.sub(r'\s+', ' ', s)`: the only whitespace left is `' '`, no two whitespace characters are adjacent, and the non-space characters are unchanged. |
| Text.CollapseShape | src/data_ingestion/processors/text_processors.py:40 | The same facts for the collapse started inside or outside a run, and the output starts with a space exactly when the input does and no run is open. |
| Text.CollapseWords | src/data_ingestion/processors/text_processors.py:40 | The collapse is `' '.join(s.split())` with at most one `' '` kept at each end: every whitespace run between two words becomes exactly one space. |
| Text.StripCollapseWords | src/data_ingestion/processors/text_processors.py:40-41 | `re.sub(r'\s+', ' ', s).strip()` equals `' '.join(s.split())`. |
| Text.CollapseSplits | src/data_ingestion/processors/text_processors.py:40 | Text on the two sides of a whitespace character stays apart after the collapse: there is a space with exactly the left side's visible characters before it and the right side's after it. |
| Text.CollapseKeepsChars | src/data_ingestion/processors/text_processors.py:40 | The collapse writes no character other than `' '` that was not in its input. |
| Text.SliceTo | src/rag/evaluator.py:41 | Python's `s[:k]`: a prefix of length `min(k, len(s))`, or `len(s)+k` clipped at 0 for negative `k`. |
| Text.Join | src/rag/newton_rag.py:55 | `sep.join(parts)` is as long as its parts plus one separator between each adjacent pair. |
| Text.JoinPlaces | src/rag/newton_rag.py:55 | Each part of a join appears unchanged at its offset: the lengths of the parts before it plus one separator for each. |
| Text.JoinSeps | src/rag/newton_rag.py:55 | A separator sits right before every part but the first. |
| DataPipeline.DropDisallowed | src/rag/data_pipeline.py:33 | Every character left belongs to `[\w\s.,;:!?()-]` and occurs in the input. |
| DataPipeline.DropDisallowedVisible | src/rag/data_pipeline.py:33 | Looking only at non-space characters, the output is exactly the input's non-space characters of the kept class, in order. |
| DataPipeline.DropDisallowedAppend | src/rag/data_pipeline.py:33 | The filter works character by character: filtering a concatenation gives the concatenation of the filtered parts. |
| DataPipeline.SpaceAfterMarksShape | src/rag/data_pipeline.py:34 | After `re.sub(r'([.!?])\s*', r'\1 ', s)`, every `.`, `!` or `?` is followed by exactly one space and then a non-space character or the end. The only characters added are spaces. |
| DataPipeline.SpaceAfterMarksVisible | src/rag/data_pipeline.py:34 | The mark-spacing substitution changes only whitespace. |
| DataPipeline.CleanText | src/rag/data_pipeline.py:30-35 | The output holds only `\w`, `' '` and `. , ; : ! ? ( ) -`. It neither starts nor ends with whitespace. Every `.`, `!` or `?` that is not the last character is followed by one space and then a non-space character. |
| DataPipeline.CleanTextVisible | src/rag/data_pipeline.py:30-35 | The visible characters of `clean_text(s)` are exactly the visible characters of `s` that the character class keeps, in order. |
| DataPipeline.SpaceAfterMarksAppend | src/rag/data_pipeline.py:34 | The mark spacing works left to right: on a concatenation it spaces the first part, then the second part starting from the state the first part left. |
| DataPipeline.CleanTextSeparates | src/rag/data_pipeline.py:30-35 | Kept text on the two sides of a whitespace character stays apart: the cleaned text has a space with exactly the left side's kept visible characters before it and the right side's after it. |
| DataPipeline.CleanTextPlain | src/rag/data_pipeline.py:30-35 | On text with only kept characters and no sentence mark, `clean_text` is `' '.join(text.split())`: every whitespace run between words becomes one space. |
| DataPipeline.SplitSentences | src/rag/data_pipeline.py:39 | `text.split('. ')` gives at least one piece. No piece contains `". "`, and joining the pieces with `". "` gives back the text. |
| DataPipeline.Runs | src/rag/data_pipeline.py:44-66 | The grouping emits at least one run when there is any sentence, and never more runs than sentences (counting those already in the buffer). |
| DataPipeline.RunsStep | src/rag/data_pipeline.py:44-57 | One iteration of the loop. If buffer plus sentence fits in `chunk_size`, the sentence joins the buffer. Otherwise a non-empty buffer is emitted and the sentence starts a new one. |
| DataPipeline.RunsPartition | src/rag/data_pipeline.py:44-66 | The emitted runs are non-empty. Concatenated, they are the initial buffer followed by the sentences: contiguous, in order, none lost or repeated. |
| DataPipeline.SentenceRunsPartition | src/rag/data_pipeline.py:39-66 | The chunks' sentence runs partition `text.split('. ')` into contiguous, in-order, non-empty runs. There is at least one run. |
| DataPipeline.RunsGreedy | src/rag/data_pipeline.py:44-57 | Each emitted buffer but the last was closed because the next run's first sentence did not fit after it. |
| DataPipeline.RunsSizeBound | src/rag/data_pipeline.py:45-46 | Every emitted run of two or more sentences renders to at most `chunk_size + 2` characters. |
| DataPipeline.SentenceRunsGreedy | src/rag/data_pipeline.py:45-57 | Greedy maximality: each emitted buffer plus the next chunk's first sentence is longer than `chunk_size`. |
| DataPipeline.ChunksBounded | src/rag/data_pipeline.py:45-46 | A chunk built from two or more sentences has at most `chunk_size + 1` characters. Only a single-sentence chunk can be longer. |
| DataPipeline.RenderStripEmpty | src/rag/data_pipeline.py:48 | The buffer strips to the empty string exactly when it holds no sentence. So the final flush always emits. |
| DataPipeline.ChunksOfEmptyText | src/rag/data_pipeline.py:39-66 | Empty text gives exactly one chunk, `"."`, with index 0. |
| DataPipeline.ChunkText | src/rag/data_pipeline.py:37-68 | The loop emits one chunk per greedy run of sentences, in order, whose text is the stripped `"sentence. "` buffer. It emits at least one chunk. Chunk indices are 0..n-1, title and url are the caller's, the source type is `wikipedia`, and each text is non-empty and stripped. |
| DataPipeline.ChunkStep | src/rag/data_pipeline.py:45-57 | One loop iteration keeps the loop invariant. The buffer is the rendering of the open run, and the chunks are those of the closed runs. Earlier chunks are never changed. |
| DataPipeline.EmitBuffer | src/rag/data_pipeline.py:48-56 | A non-empty buffer is appended as a chunk, with the next index and the stripped text. An empty buffer adds nothing. |
| DataPipeline.ChunkTextShape | src/rag/data_pipeline.py:42-66 | The chunk list is non-empty and well formed, and it is `["."]` for empty text. |
| DataPipeline.ChunksOfWellFormed | src/rag/data_pipeline.py:49-55 | Each record carries its position as `chunk_index`, the caller's title and url, and source type `wikipedia`. |
| DataPipeline.StorePoints | src/rag/data_pipeline.py:91-104 | `zip(chunks, embeddings)`: one point per pair, up to the shorter list. Each point carries its chunk as payload and its embedding as vector. |
| Reranker.ScoringPairs | src/rag/reranker.py:18 | One pair per document. Each pair holds the query unchanged and a prefix of the text of length `min(512, len(text))`. |
| Reranker.Attach | src/rag/reranker.py:24 | `zip(documents, scores)`: each document paired with its own score and input position, up to the shorter list. |
| Reranker.Insert | src/rag/reranker.py:25 | Inserting a later element keeps the order (score descending, earlier input first on ties) and adds exactly that element. |
| Reranker.SortByScore | src/rag/reranker.py:25 | The stable descending sort returns a permutation of its input that is ranked. |
| Reranker.TopScored | src/rag/reranker.py:25-27 | `scored_docs[:top_k]` is a prefix of the sorted list and is itself ranked. |
| Reranker.Ranking | src/rag/reranker.py:24-25 | The sorted list is a permutation of the zipped documents and scores, ranked by score with ties in input order. |
| Reranker.RerankDocuments | src/rag/reranker.py:12-29 | No documents gives `[]` whatever the model does. Otherwise the call fails exactly when the model fails, and the result is the documents of the first `top_k` ranked pairs. |
| Reranker.RerankEmptySkipsModel | src/rag/reranker.py:14-15 | For an empty list the result is `[]` and does not depend on the score model. |
| Reranker.RerankLength | src/rag/reranker.py:24-27 | The output has `min(top_k, len(documents))` elements when there is one score per document and `top_k >= 0`. Python's negative-slice length applies otherwise. |
| Reranker.RerankOrdered | src/rag/reranker.py:25-27 | The kept documents are in non-increasing score order. Equal scores keep their input order. |
| Reranker.RerankFromInput | src/rag/reranker.py:24-27 | Each kept entry is the input document and score at its recorded position. No position is kept twice. |
| Reranker.RerankDropsLowest | src/rag/reranker.py:25-27 | Every dropped document scores no higher than every kept one. |
| Reranker.RerankPicksInputs | src/rag/reranker.py:24-29 | Every reranked document is an input document, returned unmodified, and none is returned twice. |
| Evaluator.Mean | src/rag/evaluator.py:34 | 0.0 on no input. Otherwise the mean times the count is the sum. |
| Evaluator.Max | src/rag/evaluator.py:35 | 0.0 on no input. Otherwise it is one of the values and at least every value. |
| Evaluator.MeanAtMostMax | src/rag/evaluator.py:34-35 | The average similarity never exceeds the maximum. |
| Evaluator.Similarities | src/rag/evaluator.py:28-31 | One similarity per document, in document order, against the query vector. The list fails exactly when some document embedding fails. |
| Evaluator.EvaluateRetrieval | src/rag/evaluator.py:25-37 | The call fails exactly when the query or a document embedding fails. The metrics are the mean and max similarity, 0.0 and 0.0 for no documents. The average is at most the maximum, and `num_retrieved_docs == len(docs)`. |
| Evaluator.GroundingContext | src/rag/evaluator.py:41 | The judge's context is the prefix of `"\n".join(texts)` of length `min(2000, len)`. |
| Evaluator.GroundingPrompt | src/rag/evaluator.py:43-55 | The judge prompt has the fixed text before, between and after the context and the answer, which sit in their slots unchanged. |
| Evaluator.CheckGrounding | src/rag/evaluator.py:39-67 | When the judge replies and its stripped reply parses, the score is the parsed value. When the call or the parse fails, the score is exactly 0.5. |
| Evaluator.GroundingOutcome | src/rag/evaluator.py:57-67 | A score other than 0.5 is always the parse of the judge's stripped reply. |
| Evaluator.GroundingSeesOnlyWindow | src/rag/evaluator.py:41 | Two document lists whose joined texts agree on the first 2000 characters get the same grounding score. |
| Evaluator.GroundingNotClamped | src/rag/evaluator.py:64 | A judge replying `7` yields a grounding score of 7.0: the score is not kept in [0, 1]. |
| Evaluator.EvaluateAnswer | src/rag/evaluator.py:69-81 | Fails exactly when the query or answer embedding fails. Otherwise it returns the grounding score and the cosine similarity of the two embeddings. |
| Evaluator.RelevanceIgnoresDocs | src/rag/evaluator.py:74-76 | Answer relevance is the same whatever documents were retrieved. |
| Evaluator.GroundingIgnoresQuery | src/rag/evaluator.py:71 | The grounding score is the same whatever the query. |
| NewtonRag.InitialDocs | src/rag/newton_rag.py:33-40 | One document per search hit, in hit order. Text, title and url come from the payload, and `vector_score` from the hit's score. |
| NewtonRag.BuildContext | src/rag/newton_rag.py:55 | The context holds each reranked text unchanged at its offset, in order, with a blank line before every text but the first. Its length is the texts plus two characters per gap. |
| NewtonRag.BuildPrompt | src/rag/newton_rag.py:57-69 | The fixed instructions come before, between and after the context and the question, which sit in their slots unchanged. |
| NewtonRag.Retrieve | src/rag/newton_rag.py:30-45 | A failed embedding fails with stage `Embedding`, a failed search with `Search`. Otherwise it succeeds exactly when reranking the initial documents to 5 succeeds, with that result, and fails with `Rerank` when it does not. No hits give no documents. A success has at most 5 documents. |
| NewtonRag.RerankedAtMostTopK | src/rag/newton_rag.py:45 | Reranking with `top_k=5` returns at most five documents. |
| NewtonRag.RerankedFromHits | src/rag/newton_rag.py:33-45 | The reranked documents are distinct initial documents built from the search hits. |
| NewtonRag.AnswerQuestion | src/rag/newton_rag.py:26-100 | A successful result has an evaluation exactly when `evaluate` is set. Its reranked documents are the retrieval's, and its answer is the generator's reply to the prompt built from question and reranked documents. `sources` are their titles in order, and `num_docs_used == len(sources) <= 5`. |
| NewtonRag.AnswerQuestionStages | src/rag/newton_rag.py:26-100 | A retrieval failure keeps its stage. After it, a failed retrieval evaluation (when on), a failed generation and a failed answer evaluation (when on) each end the run with their stage, in that order. The run succeeds exactly when none of them fails. |
| NewtonRag.EvaluationContents | src/rag/newton_rag.py:47-98 | With evaluation on, a successful result carries the retrieval metrics of its reranked documents and the quality metrics of its answer over them. |
| NewtonRag.AnswerIndependentOfEvaluate | src/rag/newton_rag.py:55-77 | Turning evaluation off leaves the answer, sources, count and documents unchanged and drops only the evaluation, whatever evaluator is used. |
| NewtonRag.EvaluateOnlyAddsFailures | src/rag/newton_rag.py:48-52 | A question that fails without evaluation also fails with it. |
| NewtonRag.NoEvaluateIgnoresEvaluator | src/rag/newton_rag.py:94-98 | Without evaluation the result does not depend on the evaluator services and has no `evaluation` entry. |
| TextProcessors.CapNewlinesFrom | src/data_ingestion/processors/text_processors.py:33-38 | Capping newline runs never lengthens the text and changes only whitespace. |
| TextProcessors.CollapseAfterCap | src/data_ingestion/processors/text_processors.py:33-40 | Collapsing whitespace after the newline cap gives the same text as collapsing without it. |
| TextProcessors.NormalizeWhitespace | src/data_ingestion/processors/text_processors.py:33-41 | The cleaned text uses `' '` as its only whitespace, never has two whitespace characters side by side, is stripped, and keeps every non-space character in order. |
| TextProcessors.NormalizeWhitespaceWords | src/data_ingestion/processors/text_processors.py:33-41 | The cleaned text is `' '.join(text.split())`: the words of the text, in order, separated by exactly one space. |
| TextProcessors.PreserveStructureIrrelevant | src/data_ingestion/processors/text_processors.py:33-41 | The result is the same with `preserve_structure` on or off: it is `re.sub(r'\s+', ' ', text).strip()`. |
| TextProcessors.CleanHtmlContent | src/data_ingestion/processors/text_processors.py:19-47 | Raises exactly when the HTML-to-text step raises. Otherwise it returns that text with whitespace normalised under the configured flag. |
| TextProcessors.ProcessSinglePage | src/data_ingestion/processors/text_processors.py:49-81 | Succeeds exactly when cleaning succeeds and the page has HTML. The record carries the page's identifiers, the clean text, `text_length == len(clean_text)`, the HTML length, the config and the reduction ratio. |
| TextProcessors.ReductionRatio | src/data_ingestion/processors/text_processors.py:73 | `1 - clean/html`: the ratio times the HTML length is the number of characters removed. |
| TextProcessors.EmptyHtmlFails | src/data_ingestion/processors/text_processors.py:73 | A page with empty HTML always fails: the ratio divides by zero. |
| TextProcessors.MinLengthOnlyWarns | src/data_ingestion/processors/text_processors.py:55-57 | `min_text_length` changes neither whether a page succeeds nor its text. |
| TextProcessors.ProcessMultiplePages | src/data_ingestion/processors/text_processors.py:83-110 | Processed plus failed pages make up the whole batch. Each returned record is the successful result of some input page. |
| TextProcessors.KeepSuccessesFrom | src/data_ingestion/processors/text_processors.py:89-94 | Every kept result is the success of some input element. |
| TextProcessors.ProcessMultipleAppend | src/data_ingestion/processors/text_processors.py:89-102 | Processing a batch in two parts gives the concatenation of the two results: pages are handled one by one, in order. |
| TextProcessors.FailedPageSkipped | src/data_ingestion/processors/text_processors.py:96-102 | A failing page is skipped, and the pages before and after it are processed as if it were absent. |
| TextProcessors.SucceededPageKept | src/data_ingestion/processors/text_processors.py:89-94 | A successful page contributes its record in its place between the results of the pages before and after it. |
| TextProcessors.GetProcessingSummary | src/data_ingestion/processors/text_processors.py:117-138 | Counts the whole batch, and successful plus failed equals the total. The successes and the character total come from the processed pages. The average is total/successes, or 0.0 with no success. The elapsed time is passed through. |
| TextProcessors.Average | src/data_ingestion/processors/text_processors.py:127 | The average times the count is the total. |
| TextProcessors.UpdateConfig | src/data_ingestion/processors/text_processors.py:140-147 | Raises exactly when validation fails. When it raises, the processor is unchanged. Otherwise the new settings are the validated ones. |

## Left out

- External services are parameters with no behaviour of their own: the embedding and chat models, the vector index, the cross-encoder, BeautifulSoup, and configuration validation. `answer_question` relating runs with and without evaluation therefore assumes the same generator reply for the same prompt. The real chat model samples at temperature 0.3.
- Element removal by CSS selector and `get_text` in `clean_html_content` are part of the abstract HTML-to-text step.
- `create_embeddings`, `setup_qdrant_collection`, `process_mongodb_to_qdrant` and `create_embedding` are service calls and driver loops. They are not modelled.
- `store_in_qdrant`: the random `uuid4` point ids and the `upsert` call are left out. Only the payload pairing is modelled.
- Floating point: similarities, scores and ratios are mathematical reals. NaN from zero-norm vectors, rounding, and numpy's `mean` summation order are not modelled. `cosine_similarity` and `float()` are parameters.
- `\w` is modelled over ASCII only (`[A-Za-z0-9_]`). Python's Unicode word characters outside ASCII are removed by the model but kept by the code.
- Dict access with a missing key (for example a page without `title`) raises a `KeyError` in the code. Records in the model always have their fields.
- The pydantic records `ProcessedPageData`, `ProcessingConfig` and `ProcessingSummary` are not defined in the repository. They are plain records with the fields the code uses, and constructing `ProcessedPageData` is taken to always validate. The default `ProcessingConfig()` and the constructor `__init__` are not modelled.
- `get_processed_as_dict` only re-encodes the processed records as dicts. It is not modelled.
- Logging and the wall-clock time in `process_multiple_pages` and `get_processing_summary` are not modelled. The elapsed time of the summary is a parameter.
- Default arguments are not modelled. The callers pass `chunk_size` (800 in `chunk_text`, src/rag/data_pipeline.py:37), `top_k` (5 in `rerank_documents`, src/rag/reranker.py:12) and `evaluate` (True in `answer_question`, src/rag/newton_rag.py:26) explicitly. `answer_question` itself calls the reranker with 5, which is `RerankTopK`.
- The `rouge_scorer` built in `RAGEvaluator.__init__` is never used. It is not modelled.
- DataPipeline.ChunkText: the fact that empty text yields the single chunk `"."` is stated by `DataPipeline.ChunkTextShape` and `DataPipeline.ChunksOfEmptyText` rather than in the method's own contract.
- DataPipeline.CleanText: `re.sub(r'([.!?])\s*', r'\1 ', ...)` runs after spaces were collapsed, so a removed character between two spaces can leave a double space. The contract does not promise single spacing outside the marks. `DataPipeline.CleanTextPlain` states it for text with nothing to remove, and `DataPipeline.CleanTextSeparates` states that separated text stays separated.
