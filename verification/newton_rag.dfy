/** `EnhancedNewtonRAG.answer_question`: embed the question, search the
    vector index, rerank, optionally evaluate the retrieval, build the prompt,
    generate the answer, optionally evaluate it, and compile the result.  The
    embedding, search, cross-encoder and chat services are parameters; a call
    that raises is `None` and ends the pipeline with the stage it failed in. */
module NewtonRag {
  import opened Wrappers
  import opened Text
  import opened Docs
  import opened Reranker
  import opened Evaluator
  import DataPipeline

  /** A search hit: the stored chunk payload and its similarity score. */
  datatype Hit = Hit(payload: DataPipeline.Chunk, score: real)

  datatype RagServices = RagServices(
    embed: string -> Option<seq<real>>,
    search: (seq<real>, int) -> Option<seq<Hit>>,
    predict: seq<Pair> -> Option<seq<real>>,
    generate: string -> Option<string>)

  /** How many hits the vector search is asked for. */
  const SearchLimit := 20
  /** How many documents the reranker keeps. */
  const RerankTopK := 5

  /** The step whose service call raised. */
  datatype Stage = Embedding | Search | Rerank | RetrievalEvaluation | Generation | AnswerEvaluation

  datatype Evaluation = Evaluation(retrievalMetrics: RetrievalMetrics, answerMetrics: AnswerMetrics)

  /** The result dict; `evaluation` is the optional `'evaluation'` key. */
  datatype AnswerRecord = AnswerRecord(
    answer: string,
    sources: seq<string>,
    numDocsUsed: int,
    rerankedDocs: seq<Doc>,
    evaluation: Option<Evaluation>)

  /** The `initial_docs` list built from the search results. */
  function InitialDocs(hits: seq<Hit>): (docs: seq<Doc>)
    ensures |docs| == |hits|
    ensures forall k :: 0 <= k < |hits| ==>
              && docs[k].text == hits[k].payload.text
              && docs[k].title == hits[k].payload.title
              && docs[k].url == hits[k].payload.url
              && docs[k].vectorScore == hits[k].score
  {
    seq(|hits|, k requires 0 <= k < |hits| =>
      Doc(hits[k].payload.text, hits[k].payload.title, hits[k].payload.url, hits[k].score))
  }

  /** `"\n\n".join(texts)`: the passages in reranked order, each unchanged
      at its offset (the texts before it plus a blank line for each), with a
      blank line right before every passage but the first. */
  function BuildContext(docs: seq<Doc>): (ctx: string)
    ensures |ctx| == TotalLength(Texts(docs)) + (if docs == [] then 0 else 2 * (|docs| - 1))
    ensures forall k :: 0 <= k < |docs| ==>
              && PartOffset(Texts(docs), "\n\n", k) + |Texts(docs)[k]| <= |ctx|
              && ctx[PartOffset(Texts(docs), "\n\n", k)..PartOffset(Texts(docs), "\n\n", k) + |Texts(docs)[k]|] == Texts(docs)[k]
    ensures forall k :: 0 < k < |docs| ==>
              && 2 <= PartOffset(Texts(docs), "\n\n", k) <= |ctx|
              && ctx[PartOffset(Texts(docs), "\n\n", k) - 2..PartOffset(Texts(docs), "\n\n", k)] == "\n\n"
  {
    var ctx := Join(Texts(docs), "\n\n");
    JoinPlaces(Texts(docs), "\n\n");
    JoinSeps(Texts(docs), "\n\n");
    ctx
  }

  const PromptHead := "Based on this information about Isaac Newton, answer the question accurately.\n\nContext: "
  const PromptMid := "\n\nQuestion: "
  const PromptTail := "\n\nInstructions:\n- Answer based only on the provided context\n- Be specific and cite Newton's actual work when possible\n- If the context doesn't contain enough information, say so\n- Keep your answer informative but concise\n\nAnswer:"

  /** The generation prompt: fixed instructions with the context and the
      question in their two slots. */
  function BuildPrompt(context: string, question: string): (p: string)
    ensures |p| == |PromptHead| + |context| + |PromptMid| + |question| + |PromptTail|
    ensures p[..|PromptHead|] == PromptHead
    ensures p[|PromptHead|..|PromptHead| + |context|] == context
    ensures p[|PromptHead| + |context| + |PromptMid|..|p| - |PromptTail|] == question
    ensures p[|p| - |PromptTail|..] == PromptTail
  {
    FillLayout(PromptHead, context, PromptMid, question, PromptTail);
    PromptHead + context + PromptMid + question + PromptTail
  }

  /** The prompt for a question over the reranked documents. */
  function PromptFor(question: string, reranked: seq<Doc>): string
  {
    BuildPrompt(BuildContext(reranked), question)
  }

  /** The documents the pipeline reranks and answers from: steps 1 and 2. */
  function Retrieve(question: string, svc: RagServices): (r: Result<seq<Doc>, Stage>)
    ensures r.Success? ==> |r.value| <= RerankTopK
    ensures svc.embed(question).None? ==> r == Failure(Embedding)
    ensures svc.embed(question).Some? && svc.search(svc.embed(question).value, SearchLimit).None? ==> r == Failure(Search)
    ensures svc.embed(question).Some? && svc.search(svc.embed(question).value, SearchLimit).Some? ==>
              var reranked := RerankDocuments(question, InitialDocs(svc.search(svc.embed(question).value, SearchLimit).value), RerankTopK, svc.predict);
              && (reranked.None? ==> r == Failure(Rerank))
              && (reranked.Some? ==> r == Success(reranked.value))
    ensures svc.embed(question).Some? && svc.search(svc.embed(question).value, SearchLimit) == Some([]) ==> r == Success([])
  {
    match svc.embed(question)
    case None => Failure(Embedding)
    case Some(qe) =>
      match svc.search(qe, SearchLimit)
      case None => Failure(Search)
      case Some(hits) =>
        var initial := InitialDocs(hits);
        match RerankDocuments(question, initial, RerankTopK, svc.predict)
        case None => Failure(Rerank)
        case Some(reranked) =>
          RerankedAtMostTopK(question, initial, svc.predict);
          Success(reranked)
  }

  lemma {:induction false} RerankedAtMostTopK(question: string, docs: seq<Doc>, predict: seq<Pair> -> Option<seq<real>>)
    requires RerankDocuments(question, docs, RerankTopK, predict).Some?
    ensures |RerankDocuments(question, docs, RerankTopK, predict).value| <= RerankTopK
  {
    if docs != [] {
      RerankLength(docs, predict(ScoringPairs(question, docs)).value, RerankTopK);
    }
  }

  /** `EnhancedNewtonRAG.answer_question`. */
  function AnswerQuestion(question: string, evaluate: bool, svc: RagServices, ev: EvalServices): (r: Result<AnswerRecord, Stage>)
    ensures r.Success? ==> (r.value.evaluation.Some? <==> evaluate)
    ensures r.Success? ==> Retrieve(question, svc) == Success(r.value.rerankedDocs)
    ensures r.Success? ==> svc.generate(PromptFor(question, r.value.rerankedDocs)) == Some(r.value.answer)
    ensures r.Success? ==>
              && r.value.sources == Titles(r.value.rerankedDocs)
              && r.value.numDocsUsed == |r.value.sources| <= RerankTopK
  {
    match Retrieve(question, svc)
    case Failure(stage) => Failure(stage)
    case Success(reranked) =>
      var retrieval := if evaluate then EvaluateRetrieval(question, reranked, ev) else None;
      if evaluate && retrieval.None? then Failure(RetrievalEvaluation)
      else
        match svc.generate(PromptFor(question, reranked))
        case None => Failure(Generation)
        case Some(answer) =>
          var quality := if evaluate then EvaluateAnswer(question, answer, reranked, ev) else None;
          if evaluate && quality.None? then Failure(AnswerEvaluation)
          else
            var evaluation := if evaluate then Some(Evaluation(retrieval.value, quality.value)) else None;
            Success(AnswerRecord(answer, Titles(reranked), |reranked|, reranked, evaluation))
  }

  /** Which stage ends a run: a retrieval failure keeps its own stage; after
      it, the retrieval evaluation (when on), the generation and the answer
      evaluation (when on) fail in that order, and the run succeeds exactly
      when none of them does. */
  lemma {:induction false} AnswerQuestionStages(question: string, evaluate: bool, svc: RagServices, ev: EvalServices)
    ensures Retrieve(question, svc).Failure? ==>
              AnswerQuestion(question, evaluate, svc, ev) == Failure(Retrieve(question, svc).error)
    ensures Retrieve(question, svc).Success? ==>
              var docs := Retrieve(question, svc).value;
              var retrievalFails := evaluate && EvaluateRetrieval(question, docs, ev).None?;
              var reply := svc.generate(PromptFor(question, docs));
              var answerFails := evaluate && reply.Some? && EvaluateAnswer(question, reply.value, docs, ev).None?;
              var r := AnswerQuestion(question, evaluate, svc, ev);
              && (retrievalFails ==> r == Failure(RetrievalEvaluation))
              && (!retrievalFails && reply.None? ==> r == Failure(Generation))
              && (!retrievalFails && answerFails ==> r == Failure(AnswerEvaluation))
              && (r.Success? <==> !retrievalFails && reply.Some? && !answerFails)
  {
  }

  /** With evaluation on, a successful run carries the retrieval metrics of
      the reranked documents and the quality metrics of the answer over them. */
  lemma {:induction false} EvaluationContents(question: string, svc: RagServices, ev: EvalServices)
    requires AnswerQuestion(question, true, svc, ev).Success?
    ensures var rec := AnswerQuestion(question, true, svc, ev).value;
            && EvaluateRetrieval(question, rec.rerankedDocs, ev).Some?
            && EvaluateAnswer(question, rec.answer, rec.rerankedDocs, ev).Some?
            && rec.evaluation == Some(Evaluation(EvaluateRetrieval(question, rec.rerankedDocs, ev).value,
                                                 EvaluateAnswer(question, rec.answer, rec.rerankedDocs, ev).value))
  {
  }

  // ---------------------------------------------------------------------
  // How the evaluate flag shapes the result
  // ---------------------------------------------------------------------

  /** Turning evaluation off never changes the answer, the sources or the
      documents: a run with evaluation that succeeds has a run without it
      that succeeds with the same fields and no evaluation. */
  lemma {:induction false} AnswerIndependentOfEvaluate(question: string, svc: RagServices, ev: EvalServices, ev2: EvalServices)
    requires AnswerQuestion(question, true, svc, ev).Success?
    ensures var withEval := AnswerQuestion(question, true, svc, ev).value;
            var without := AnswerQuestion(question, false, svc, ev2);
            && without.Success?
            && without.value == withEval.(evaluation := None)
  {
  }

  /** A run without evaluation that fails also fails with evaluation on: the
      evaluator only adds ways to fail. */
  lemma {:induction false} EvaluateOnlyAddsFailures(question: string, svc: RagServices, ev: EvalServices)
    requires AnswerQuestion(question, false, svc, ev).Failure?
    ensures AnswerQuestion(question, true, svc, ev).Failure?
  {
  }

  /** Without evaluation the evaluator services are never consulted: the
      result is the same whatever they would answer. */
  lemma {:induction false} NoEvaluateIgnoresEvaluator(question: string, svc: RagServices, ev1: EvalServices, ev2: EvalServices)
    ensures AnswerQuestion(question, false, svc, ev1) == AnswerQuestion(question, false, svc, ev2)
    ensures AnswerQuestion(question, false, svc, ev1).Success? ==> AnswerQuestion(question, false, svc, ev1).value.evaluation.None?
  {
  }

  /** The reranked documents come from the search hits: each is the initial
      document built from a distinct hit, in the reranker's order. */
  lemma {:induction false} RerankedFromHits(question: string, svc: RagServices)
    requires Retrieve(question, svc).Success?
    ensures var hits := svc.search(svc.embed(question).value, SearchLimit).value;
            PicksFrom(Retrieve(question, svc).value, InitialDocs(hits))
  {
    var hits := svc.search(svc.embed(question).value, SearchLimit).value;
    RerankPicksInputs(question, InitialDocs(hits), RerankTopK, svc.predict);
  }
}
