/** `NewtonReranker.rerank_documents`: score every (query, passage) pair with
    a cross-encoder, sort the documents by score, highest first, and keep the
    first `top_k`.  The cross-encoder is a parameter: `predict` returns the
    scores of a batch of pairs, or `None` when the call raises. */
module Reranker {
  import opened Wrappers
  import opened Text
  import opened Docs

  /** Only the first 512 characters of a passage are scored. */
  const PassageLength := 512

  /** A (query, passage) pair handed to the cross-encoder. */
  datatype Pair = Pair(query: string, passage: string)

  /** `[(query, doc['text'][:512]) for doc in documents]`. */
  function ScoringPairs(query: string, documents: seq<Doc>): (pairs: seq<Pair>)
    ensures |pairs| == |documents|
    ensures forall k :: 0 <= k < |pairs| ==>
              && pairs[k].query == query
              && |pairs[k].passage| == Min(PassageLength, |documents[k].text|)
              && pairs[k].passage == documents[k].text[..|pairs[k].passage|]
  {
    seq(|documents|, k requires 0 <= k < |documents| => Pair(query, SliceTo(documents[k].text, PassageLength)))
  }

  /** A document with its score and its position in the input list. */
  datatype Scored = Scored(pos: nat, doc: Doc, score: real)

  /** `zip(documents, scores)`, each pair tagged with its input position. */
  function Attach(documents: seq<Doc>, scores: seq<real>): (s: seq<Scored>)
    ensures |s| == Min(|documents|, |scores|)
    ensures forall k :: 0 <= k < |s| ==> s[k] == Scored(k, documents[k], scores[k])
  {
    seq(Min(|documents|, |scores|), k requires 0 <= k < Min(|documents|, |scores|) => Scored(k, documents[k], scores[k]))
  }

  /** `a` comes before `b` in a stable descending sort by score: a higher
      score first, and on equal scores the earlier input first. */
  predicate Before(a: Scored, b: Scored) {
    a.score > b.score || (a.score == b.score && a.pos < b.pos)
  }

  /** Every element comes before every later one. */
  predicate Ranked(s: seq<Scored>) {
    forall i, j :: 0 <= i < j < |s| ==> Before(s[i], s[j])
  }

  /** Every element's position is smaller than every later one's. */
  predicate InInputOrder(s: seq<Scored>) {
    forall i, j :: 0 <= i < j < |s| ==> s[i].pos < s[j].pos
  }

  /** Insert `x`, which comes later in the input than everything in `r`,
      after every element scoring at least as high. */
  function Insert(x: Scored, r: seq<Scored>): (t: seq<Scored>)
    requires Ranked(r)
    requires forall k :: 0 <= k < |r| ==> r[k].pos < x.pos
    ensures Ranked(t)
    ensures multiset(t) == multiset(r) + multiset{x}
    decreases |r|
  {
    if r == [] then [x]
    else if r[0].score < x.score then
      InsertFront(x, r);
      [x] + r
    else
      var rest := Insert(x, r[1..]);
      InsertBehind(r[0], rest, r[1..], x);
      assert r == [r[0]] + r[1..];
      [r[0]] + rest
  }

  lemma {:induction false} InsertFront(x: Scored, r: seq<Scored>)
    requires Ranked(r) && r != [] && r[0].score < x.score
    ensures Ranked([x] + r)
  {
    var t := [x] + r;
    forall i, j | 0 <= i < j < |t|
      ensures Before(t[i], t[j])
    {
      if i == 0 {
        assert t[j] == r[j - 1];
        if j > 1 {
          assert Before(r[0], r[j - 1]);
        }
      } else {
        assert t[i] == r[i - 1] && t[j] == r[j - 1];
      }
    }
  }

  lemma {:induction false} InsertBehind(h: Scored, rest: seq<Scored>, tail: seq<Scored>, x: Scored)
    requires Ranked([h] + tail) && Ranked(rest)
    requires multiset(rest) == multiset(tail) + multiset{x}
    requires x.score <= h.score && h.pos < x.pos
    ensures Ranked([h] + rest)
  {
    var t := [h] + rest;
    forall i, j | 0 <= i < j < |t|
      ensures Before(t[i], t[j])
    {
      if i == 0 {
        var e := rest[j - 1];
        assert e in multiset(rest);
        if e != x {
          assert multiset(rest)[e] == multiset(tail)[e];
          var m :| 0 <= m < |tail| && tail[m] == e;
          var u := [h] + tail;
          assert u[0] == h && u[m + 1] == e;
          assert Before(u[0], u[m + 1]);
        }
      } else {
        assert t[i] == rest[i - 1] && t[j] == rest[j - 1];
      }
    }
  }

  /** `sorted(s, key=score, reverse=True)` for a list in input order:
      Python's sort is stable, also with `reverse=True`. */
  function SortByScore(s: seq<Scored>): (r: seq<Scored>)
    requires InInputOrder(s)
    ensures Ranked(r)
    ensures multiset(r) == multiset(s)
    decreases |s|
  {
    if s == [] then []
    else
      var init := s[..|s| - 1];
      var last := s[|s| - 1];
      var sorted := SortByScore(init);
      forall k | 0 <= k < |sorted|
        ensures sorted[k].pos < last.pos
      {
        assert sorted[k] in multiset(init);
        var m :| 0 <= m < |init| && init[m] == sorted[k];
      }
      assert s == init + [last];
      Insert(last, sorted)
  }

  /** The scored documents in the order `scored_docs.sort(...)` leaves them. */
  function Ranking(documents: seq<Doc>, scores: seq<real>): (r: seq<Scored>)
    ensures Ranked(r)
    ensures multiset(r) == multiset(Attach(documents, scores))
  {
    var s := Attach(documents, scores);
    assert InInputOrder(s);
    SortByScore(s)
  }

  /** `scored_docs[:top_k]`, before the scores are dropped. */
  function TopScored(documents: seq<Doc>, scores: seq<real>, topK: int): (r: seq<Scored>)
    ensures |r| <= |Ranking(documents, scores)| && r == Ranking(documents, scores)[..|r|]
    ensures Ranked(r)
  {
    SliceTo(Ranking(documents, scores), topK)
  }

  function DocsOf(s: seq<Scored>): seq<Doc>
  {
    seq(|s|, k requires 0 <= k < |s| => s[k].doc)
  }

  /** `NewtonReranker.rerank_documents`.  An empty list is returned as is
      without consulting the model; otherwise a failing model call fails the
      whole rerank. */
  function RerankDocuments(query: string, documents: seq<Doc>, topK: int,
                           predict: seq<Pair> -> Option<seq<real>>): (r: Option<seq<Doc>>)
    ensures documents == [] ==> r == Some([])
    ensures documents != [] ==> (r.None? <==> predict(ScoringPairs(query, documents)).None?)
    ensures r.Some? && documents != [] ==>
              r.value == DocsOf(TopScored(documents, predict(ScoringPairs(query, documents)).value, topK))
  {
    if documents == [] then Some([])
    else
      match predict(ScoringPairs(query, documents))
      case None => None
      case Some(scores) => Some(DocsOf(TopScored(documents, scores, topK)))
  }

  // ---------------------------------------------------------------------
  // Properties of the rerank
  // ---------------------------------------------------------------------

  /** With no documents the result is `[]` whatever the model would answer:
      the model is not consulted. */
  lemma {:induction false} RerankEmptySkipsModel(query: string, topK: int, p1: seq<Pair> -> Option<seq<real>>, p2: seq<Pair> -> Option<seq<real>>)
    ensures RerankDocuments(query, [], topK, p1) == RerankDocuments(query, [], topK, p2) == Some([])
  {
  }

  /** The output has `min(top_k, len(documents))` entries when the model
      returns one score per pair and `top_k` is not negative; a short score
      list truncates the input first, as `zip` does, and a negative `top_k`
      drops that many entries from the end, as a Python slice does. */
  lemma {:induction false} RerankLength(documents: seq<Doc>, scores: seq<real>, topK: int)
    ensures var n := Min(|documents|, |scores|);
            |TopScored(documents, scores, topK)| == if topK >= 0 then Min(topK, n) else if n + topK >= 0 then n + topK else 0
    ensures topK >= 0 && |scores| == |documents| ==> |TopScored(documents, scores, topK)| == Min(topK, |documents|)
  {
    var r := Ranking(documents, scores);
    assert |r| == |multiset(r)| == |multiset(Attach(documents, scores))|;
  }

  /** The kept documents are ranked: scores never increase, and equal scores
      keep their input order. */
  lemma {:induction false} RerankOrdered(documents: seq<Doc>, scores: seq<real>, topK: int)
    ensures var t := TopScored(documents, scores, topK);
            forall i, j :: 0 <= i < j < |t| ==>
              t[i].score >= t[j].score && (t[i].score == t[j].score ==> t[i].pos < t[j].pos)
  {
    var r := Ranking(documents, scores);
    var t := TopScored(documents, scores, topK);
    forall i, j | 0 <= i < j < |t|
      ensures t[i].score >= t[j].score && (t[i].score == t[j].score ==> t[i].pos < t[j].pos)
    {
      assert t[i] == r[i] && t[j] == r[j];
      assert Before(r[i], r[j]);
    }
  }

  /** Every kept entry is the input document at its position, unmodified,
      with that document's score, and no input position is kept twice. */
  lemma {:induction false} RerankFromInput(documents: seq<Doc>, scores: seq<real>, topK: int)
    ensures var t := TopScored(documents, scores, topK);
            && (forall k :: 0 <= k < |t| ==>
                  t[k].pos < |documents| && t[k].pos < |scores|
                  && t[k].doc == documents[t[k].pos] && t[k].score == scores[t[k].pos])
            && (forall i, j :: 0 <= i < j < |t| ==> t[i].pos != t[j].pos)
  {
    var a := Attach(documents, scores);
    var r := Ranking(documents, scores);
    var t := TopScored(documents, scores, topK);
    forall k | 0 <= k < |t|
      ensures t[k].pos < |documents| && t[k].pos < |scores|
      ensures t[k].doc == documents[t[k].pos] && t[k].score == scores[t[k].pos]
    {
      assert t[k] == r[k];
      assert r[k] in multiset(a);
      var m :| 0 <= m < |a| && a[m] == r[k];
    }
    forall i, j | 0 <= i < j < |t|
      ensures t[i].pos != t[j].pos
    {
      assert t[i] == r[i] && t[j] == r[j];
      assert Before(r[i], r[j]);
    }
  }

  /** Whatever is dropped scores no higher than anything kept. */
  lemma {:induction false} RerankDropsLowest(documents: seq<Doc>, scores: seq<real>, topK: int)
    ensures var t := TopScored(documents, scores, topK);
            forall d, k :: d in Attach(documents, scores) && d !in t && 0 <= k < |t| ==> d.score <= t[k].score
  {
    var a := Attach(documents, scores);
    var r := Ranking(documents, scores);
    var t := TopScored(documents, scores, topK);
    var dropped := r[|t|..];
    assert r == t + dropped;
    assert multiset(r) == multiset(t) + multiset(dropped);
    forall d, k | d in a && d !in t && 0 <= k < |t|
      ensures d.score <= t[k].score
    {
      assert d in multiset(a);
      assert d in multiset(dropped);
      assert t[k] == r[k];
      RankedTailBelow(r, |t|, d, k);
    }
  }

  /** In a ranked list, an entry past position `n` scores no higher than
      any entry before it. */
  lemma {:induction false} RankedTailBelow(r: seq<Scored>, n: nat, d: Scored, k: nat)
    requires Ranked(r) && n <= |r| && d in r[n..] && k < n
    ensures d.score <= r[k].score
  {
    var m :| n <= m < |r| && r[m] == d;
    assert Before(r[k], r[m]);
  }

  /** `out` lists entries of `documents` at distinct positions. */
  ghost predicate PicksFrom(out: seq<Doc>, documents: seq<Doc>) {
    exists positions: seq<nat> ::
      && |positions| == |out|
      && (forall k :: 0 <= k < |positions| ==> positions[k] < |documents| && out[k] == documents[positions[k]])
      && (forall i, j :: 0 <= i < j < |positions| ==> positions[i] != positions[j])
  }

  /** Every reranked document is an input document, returned unmodified,
      and none is returned twice. */
  lemma {:induction false} RerankPicksInputs(query: string, documents: seq<Doc>, topK: int, predict: seq<Pair> -> Option<seq<real>>)
    requires RerankDocuments(query, documents, topK, predict).Some?
    ensures PicksFrom(RerankDocuments(query, documents, topK, predict).value, documents)
  {
    var out := RerankDocuments(query, documents, topK, predict).value;
    if documents == [] {
      var positions: seq<nat> := [];
      assert |positions| == |out|;
    } else {
      var scores := predict(ScoringPairs(query, documents)).value;
      var t := TopScored(documents, scores, topK);
      RerankFromInput(documents, scores, topK);
      ScoredPicks(documents, t);
    }
  }

  /** Scored entries that carry the input document at their position, at
      distinct positions, pick their documents from the input. */
  lemma {:induction false} ScoredPicks(documents: seq<Doc>, t: seq<Scored>)
    requires forall k :: 0 <= k < |t| ==> t[k].pos < |documents| && t[k].doc == documents[t[k].pos]
    requires forall i, j :: 0 <= i < j < |t| ==> t[i].pos != t[j].pos
    ensures PicksFrom(DocsOf(t), documents)
  {
    var out := DocsOf(t);
    var positions: seq<nat> := seq(|t|, k requires 0 <= k < |t| => t[k].pos);
    assert forall k :: 0 <= k < |positions| ==> positions[k] < |documents| && out[k] == documents[positions[k]];
    assert forall i, j :: 0 <= i < j < |positions| ==> positions[i] != positions[j];
  }
}
