/** `RAGEvaluator`: retrieval relevance as mean and maximum similarity,
    grounding judged by a language model with a fixed fallback, and answer
    relevance as query/answer similarity.  The embedding service, the
    similarity of two vectors, the judge model and the numeric parse of its
    reply are parameters; a call that raises is `None`. */
module Evaluator {
  import opened Wrappers
  import opened Text
  import opened Docs

  datatype EvalServices = EvalServices(
    embed: string -> Option<seq<real>>,
    cosine: (seq<real>, seq<real>) -> real,
    judge: string -> Option<string>,
    parseFloat: string -> Option<real>)

  // ---------------------------------------------------------------------
  // Aggregation
  // ---------------------------------------------------------------------

  function Sum(xs: seq<real>): real
  {
    if xs == [] then 0.0 else xs[0] + Sum(xs[1..])
  }

  /** `np.mean(xs) if xs else 0.0`. */
  function Mean(xs: seq<real>): (m: real)
    ensures xs == [] ==> m == 0.0
    ensures xs != [] ==> m * (|xs| as real) == Sum(xs)
  {
    if xs == [] then 0.0 else Sum(xs) / (|xs| as real)
  }

  /** `max(xs) if xs else 0.0`. */
  function Max(xs: seq<real>): (m: real)
    ensures xs == [] ==> m == 0.0
    ensures xs != [] ==> m in xs
    ensures forall k :: 0 <= k < |xs| ==> xs[k] <= m
  {
    if xs == [] then 0.0
    else if |xs| == 1 then xs[0]
    else
      var rest := Max(xs[1..]);
      assert forall k :: 1 <= k < |xs| ==> xs[k] == xs[1..][k - 1];
      if xs[0] >= rest then xs[0] else rest
  }

  lemma {:induction false} SumAtMost(xs: seq<real>, bound: real)
    requires forall k :: 0 <= k < |xs| ==> xs[k] <= bound
    ensures Sum(xs) <= (|xs| as real) * bound
    decreases |xs|
  {
    if xs != [] {
      assert forall k :: 0 <= k < |xs| - 1 ==> xs[1..][k] == xs[k + 1];
      SumAtMost(xs[1..], bound);
    }
  }

  /** The average never exceeds the maximum (both are 0.0 on no input). */
  lemma {:induction false} MeanAtMostMax(xs: seq<real>)
    ensures Mean(xs) <= Max(xs)
  {
    if xs != [] {
      SumAtMost(xs, Max(xs));
      var n := |xs| as real;
      ScaleBack(Mean(xs), Max(xs), n);
    }
  }

  lemma {:induction false} ScaleBack(a: real, b: real, n: real)
    requires n > 0.0 && a * n <= n * b
    ensures a <= b
  {
  }

  // ---------------------------------------------------------------------
  // evaluate_retrieval_relevance
  // ---------------------------------------------------------------------

  datatype RetrievalMetrics = RetrievalMetrics(avgSimilarity: real, maxSimilarity: real, numRetrievedDocs: int)

  /** The similarity of the query vector to each document's embedding, in
      document order; `None` when any document embedding fails. */
  function Similarities(queryEmbedding: seq<real>, docs: seq<Doc>, svc: EvalServices): (r: Option<seq<real>>)
    ensures r.None? <==> exists k :: 0 <= k < |docs| && svc.embed(docs[k].text).None?
    ensures r.Some? ==> |r.value| == |docs|
    ensures r.Some? ==> forall k :: 0 <= k < |docs| ==>
              svc.embed(docs[k].text).Some? && r.value[k] == svc.cosine(queryEmbedding, svc.embed(docs[k].text).value)
    decreases |docs|
  {
    if docs == [] then Some([])
    else
      match svc.embed(docs[0].text)
      case None => None
      case Some(e) =>
        var rest := Similarities(queryEmbedding, docs[1..], svc);
        assert forall k :: 1 <= k < |docs| ==> docs[k] == docs[1..][k - 1];
        if rest.None? then
          var k :| 0 <= k < |docs[1..]| && svc.embed(docs[1..][k].text).None?;
          assert docs[k + 1] == docs[1..][k];
          None
        else
          Some([svc.cosine(queryEmbedding, e)] + rest.value)
  }

  /** `RAGEvaluator.evaluate_retrieval_relevance`.  The query is embedded
      even when there are no documents. */
  function EvaluateRetrieval(query: string, docs: seq<Doc>, svc: EvalServices): (r: Option<RetrievalMetrics>)
    ensures r.None? <==> svc.embed(query).None? || exists k :: 0 <= k < |docs| && svc.embed(docs[k].text).None?
    ensures r.Some? ==> r.value.numRetrievedDocs == |docs|
    ensures r.Some? && docs == [] ==> r.value.avgSimilarity == 0.0 && r.value.maxSimilarity == 0.0
    ensures r.Some? ==> r.value.avgSimilarity <= r.value.maxSimilarity
    ensures r.Some? ==> var sims := Similarities(svc.embed(query).value, docs, svc).value;
              r.value.avgSimilarity == Mean(sims) && r.value.maxSimilarity == Max(sims)
  {
    match svc.embed(query)
    case None => None
    case Some(qe) =>
      match Similarities(qe, docs, svc)
      case None => None
      case Some(sims) =>
        MeanAtMostMax(sims);
        Some(RetrievalMetrics(Mean(sims), Max(sims), |docs|))
  }

  // ---------------------------------------------------------------------
  // check_factual_grounding
  // ---------------------------------------------------------------------

  /** At most this many characters of the joined passages go to the judge. */
  const GroundingWindow := 2000

  /** `"\n".join(texts)[:2000]`. */
  function GroundingContext(docs: seq<Doc>): (ctx: string)
    ensures |ctx| == Min(GroundingWindow, |Join(Texts(docs), "\n")|)
    ensures ctx == Join(Texts(docs), "\n")[..|ctx|]
  {
    SliceTo(Join(Texts(docs), "\n"), GroundingWindow)
  }

  const GroundingHead := "\n        Evaluate if the answer is factually grounded in the context.\n        \n        Context: "
  const GroundingMid := "\n        Answer: "
  const GroundingTail := "\n        \n        Rate from 0.0 to 1.0 how well supported the answer is:\n        - 1.0: Fully supported\n        - 0.5: Partially supported  \n        - 0.0: Not supported\n        \n        Return only the numeric score:\n        "

  /** The judge prompt: the fixed instructions with the context and the
      answer in their two slots. */
  function GroundingPrompt(context: string, answer: string): (p: string)
    ensures |p| == |GroundingHead| + |context| + |GroundingMid| + |answer| + |GroundingTail|
    ensures p[..|GroundingHead|] == GroundingHead
    ensures p[|GroundingHead|..|GroundingHead| + |context|] == context
    ensures p[|GroundingHead| + |context| + |GroundingMid|..|p| - |GroundingTail|] == answer
    ensures p[|p| - |GroundingTail|..] == GroundingTail
  {
    FillLayout(GroundingHead, context, GroundingMid, answer, GroundingTail);
    GroundingHead + context + GroundingMid + answer + GroundingTail
  }

  /** Returned when the judge call or the parse of its reply fails. */
  const GroundingFallback: real := 0.5

  /** `RAGEvaluator.check_factual_grounding`: the judge's reply, stripped and
      parsed as a number, or 0.5 when either step raises.  The parsed value
      is returned as is, not clamped to [0, 1]. */
  function CheckGrounding(answer: string, docs: seq<Doc>, svc: EvalServices): (g: real)
    ensures var reply := svc.judge(GroundingPrompt(GroundingContext(docs), answer));
            reply.Some? && svc.parseFloat(Strip(reply.value)).Some? ==> g == svc.parseFloat(Strip(reply.value)).value
    ensures var reply := svc.judge(GroundingPrompt(GroundingContext(docs), answer));
            reply.None? || svc.parseFloat(Strip(reply.value)).None? ==> g == GroundingFallback
  {
    match svc.judge(GroundingPrompt(GroundingContext(docs), answer))
    case None => GroundingFallback
    case Some(reply) =>
      match svc.parseFloat(Strip(reply))
      case None => GroundingFallback
      case Some(v) => v
  }

  /** A score other than the fallback is always the judge's own answer:
      the parse of its stripped reply. */
  lemma {:induction false} GroundingOutcome(answer: string, docs: seq<Doc>, svc: EvalServices)
    ensures var reply := svc.judge(GroundingPrompt(GroundingContext(docs), answer));
            var g := CheckGrounding(answer, docs, svc);
            g != GroundingFallback ==> reply.Some? && svc.parseFloat(Strip(reply.value)) == Some(g)
  {
  }

  /** Only the first 2000 characters of the joined passages reach the judge:
      two passage lists that agree there get the same score. */
  lemma {:induction false} GroundingSeesOnlyWindow(answer: string, d1: seq<Doc>, d2: seq<Doc>, svc: EvalServices)
    requires |Join(Texts(d1), "\n")| >= GroundingWindow && |Join(Texts(d2), "\n")| >= GroundingWindow
    requires Join(Texts(d1), "\n")[..GroundingWindow] == Join(Texts(d2), "\n")[..GroundingWindow]
    ensures CheckGrounding(answer, d1, svc) == CheckGrounding(answer, d2, svc)
  {
    assert GroundingContext(d1) == GroundingContext(d2);
  }

  /** A judge that answers "7" gets a grounding score of 7.0: nothing keeps
      the score inside [0, 1]. */
  lemma {:induction false} GroundingNotClamped(answer: string, docs: seq<Doc>, svc: EvalServices)
    requires forall p :: svc.judge(p) == Some("7")
    requires svc.parseFloat("7") == Some(7.0)
    ensures CheckGrounding(answer, docs, svc) == 7.0 > 1.0
  {
    assert !IsSpace('7');
    assert StripOffset("7") == 0;
    assert "7"[0..1] == "7";
  }

  // ---------------------------------------------------------------------
  // evaluate_answer_quality
  // ---------------------------------------------------------------------

  datatype AnswerMetrics = AnswerMetrics(groundingScore: real, answerRelevance: real)

  /** `RAGEvaluator.evaluate_answer_quality`: grounding first (it never
      raises), then the query and answer embeddings and their similarity. */
  function EvaluateAnswer(query: string, answer: string, docs: seq<Doc>, svc: EvalServices): (r: Option<AnswerMetrics>)
    ensures r.None? <==> svc.embed(query).None? || svc.embed(answer).None?
    ensures r.Some? ==> r.value.groundingScore == CheckGrounding(answer, docs, svc)
    ensures r.Some? ==> r.value.answerRelevance == svc.cosine(svc.embed(query).value, svc.embed(answer).value)
  {
    var grounding := CheckGrounding(answer, docs, svc);
    match svc.embed(query)
    case None => None
    case Some(qe) =>
      match svc.embed(answer)
      case None => None
      case Some(ae) => Some(AnswerMetrics(grounding, svc.cosine(qe, ae)))
  }

  /** Answer relevance never looks at the retrieved documents. */
  lemma {:induction false} RelevanceIgnoresDocs(query: string, answer: string, d1: seq<Doc>, d2: seq<Doc>, svc: EvalServices)
    ensures EvaluateAnswer(query, answer, d1, svc).Some? == EvaluateAnswer(query, answer, d2, svc).Some?
    ensures EvaluateAnswer(query, answer, d1, svc).Some? ==>
              EvaluateAnswer(query, answer, d1, svc).value.answerRelevance
              == EvaluateAnswer(query, answer, d2, svc).value.answerRelevance
  {
  }

  /** The grounding score never looks at the query. */
  lemma {:induction false} GroundingIgnoresQuery(q1: string, q2: string, answer: string, docs: seq<Doc>, svc: EvalServices)
    requires EvaluateAnswer(q1, answer, docs, svc).Some? && EvaluateAnswer(q2, answer, docs, svc).Some?
    ensures EvaluateAnswer(q1, answer, docs, svc).value.groundingScore
            == EvaluateAnswer(q2, answer, docs, svc).value.groundingScore
  {
  }
}
