/** `TextProcessor` of the ingestion stage: HTML pages become clean text
    records, a failing page is skipped without stopping the batch, and a
    summary counts the outcome.  The HTML parser (element removal and
    `get_text`) is a parameter returning `None` when it raises. */
module TextProcessors {
  import opened Wrappers
  import opened Text

  /** The processing options the code reads. */
  datatype ProcessingConfig = ProcessingConfig(removeElements: seq<string>, preserveStructure: bool, minTextLength: int)

  datatype TextProcessor = TextProcessor(config: ProcessingConfig)

  /** The HTML-to-text step: parse, drop the elements matching the
      selectors, and take the text; `None` when it raises. */
  type GetText = (string, seq<string>) -> Option<string>

  // ---------------------------------------------------------------------
  // clean_html_content
  // ---------------------------------------------------------------------

  /** Newline runs capped at `cap` newlines: `re.sub(r'\n{3,}', '\n\n', s)`
      for `cap == 2`, `re.sub(r'\n+', '\n', s)` for `cap == 1`.  `run`
      counts the newlines of the current run already read. */
  function CapNewlinesFrom(s: string, run: nat, cap: nat): (r: string)
    ensures |r| <= |s|
    ensures NonSpace(r) == NonSpace(s)
    decreases |s|
  {
    if s == [] then []
    else if s[0] == '\n' then
      var rest := CapNewlinesFrom(s[1..], run + 1, cap);
      var head: string := if run < cap then ['\n'] else [];
      NonSpaceAppend(head, rest);
      head + rest
    else
      var rest := CapNewlinesFrom(s[1..], 0, cap);
      NonSpaceAppend([s[0]], rest);
      [s[0]] + rest
  }

  /** The newline step of `clean_html_content`, chosen by `preserve_structure`. */
  function CapNewlines(s: string, preserveStructure: bool): string
  {
    CapNewlinesFrom(s, 0, if preserveStructure then 2 else 1)
  }

  /** Capping newline runs is invisible to the later `\s+` collapse: a
      shortened run is still one run of whitespace. */
  lemma {:induction false} CollapseAfterCap(s: string, run: nat, cap: nat, inRun: bool)
    requires cap >= 1
    requires run > 0 ==> inRun
    ensures CollapseFrom(CapNewlinesFrom(s, run, cap), inRun) == CollapseFrom(s, inRun)
    decreases |s|
  {
    if s != [] {
      var c := CapNewlinesFrom(s, run, cap);
      if s[0] == '\n' {
        var rest := CapNewlinesFrom(s[1..], run + 1, cap);
        CollapseAfterCap(s[1..], run + 1, cap, true);
        if run < cap {
          assert c == ['\n'] + rest;
          assert c[1..] == rest;
        } else {
          assert c == rest;
        }
      } else {
        var rest := CapNewlinesFrom(s[1..], 0, cap);
        assert c == [s[0]] + rest;
        assert c[1..] == rest;
        CollapseAfterCap(s[1..], 0, cap, true);
        CollapseAfterCap(s[1..], 0, cap, false);
      }
    }
  }

  /** The whitespace tail of `clean_html_content`: cap newline runs, turn
      every whitespace run into one space, strip. */
  function NormalizeWhitespace(text: string, preserveStructure: bool): (r: string)
    ensures forall i :: 0 <= i < |r| && IsSpace(r[i]) ==> r[i] == ' '
    ensures forall i :: 0 <= i < |r| - 1 ==> !(IsSpace(r[i]) && IsSpace(r[i + 1]))
    ensures Trimmed(r)
    ensures NonSpace(r) == NonSpace(text)
  {
    var capped := CapNewlines(text, preserveStructure);
    var collapsed := CollapseSpaces(capped);
    StripCollapsed(collapsed);
    StripVisible(collapsed);
    Strip(collapsed)
  }

  /** Stripping a collapsed text keeps it collapsed. */
  lemma {:induction false} StripCollapsed(c: string)
    requires forall i :: 0 <= i < |c| && IsSpace(c[i]) ==> c[i] == ' '
    requires forall i :: 0 <= i < |c| - 1 ==> !(IsSpace(c[i]) && IsSpace(c[i + 1]))
    ensures var r := Strip(c);
            && (forall i :: 0 <= i < |r| && IsSpace(r[i]) ==> r[i] == ' ')
            && (forall i :: 0 <= i < |r| - 1 ==> !(IsSpace(r[i]) && IsSpace(r[i + 1])))
            && Trimmed(r)
  {
    var r := Strip(c);
    var o := StripOffset(c);
    forall i | 0 <= i < |r|
      ensures r[i] == c[o + i]
    {
    }
  }

  /** `preserve_structure` has no effect on the cleaned text: the `\s+`
      collapse that follows erases the difference between the two newline
      rules. */
  lemma {:induction false} PreserveStructureIrrelevant(text: string)
    ensures NormalizeWhitespace(text, true) == NormalizeWhitespace(text, false)
    ensures NormalizeWhitespace(text, true) == Strip(CollapseSpaces(text))
  {
    CollapseAfterCap(text, 0, 2, false);
    CollapseAfterCap(text, 0, 1, false);
  }

  /** The cleaned text is the page's words, in order, each pair separated
      by exactly one space, whichever newline rule is configured. */
  lemma {:induction false} NormalizeWhitespaceWords(text: string, preserveStructure: bool)
    ensures NormalizeWhitespace(text, preserveStructure) == Join(Words(text), " ")
  {
    PreserveStructureIrrelevant(text);
    StripCollapseWords(text);
  }

  /** `TextProcessor.clean_html_content`. */
  function CleanHtmlContent(p: TextProcessor, html: string, getText: GetText): (r: Option<string>)
    ensures r.None? <==> getText(html, p.config.removeElements).None?
    ensures r.Some? ==> r.value == NormalizeWhitespace(getText(html, p.config.removeElements).value, p.config.preserveStructure)
  {
    match getText(html, p.config.removeElements)
    case None => None
    case Some(text) => Some(NormalizeWhitespace(text, p.config.preserveStructure))
  }

  // ---------------------------------------------------------------------
  // process_single_page
  // ---------------------------------------------------------------------

  /** The fields of an extracted page the processor reads. */
  datatype PageData = PageData(
    htmlContent: string, title: string, sourceType: string, sourceId: string,
    pageId: int, revisionId: int, sourceUrl: string, extractedAt: string)

  datatype PageMetadata = PageMetadata(
    extractedAt: string, originalHtmlLength: int, processingConfig: ProcessingConfig, textReductionRatio: real)

  datatype ProcessedPage = ProcessedPage(
    sourceType: string, sourceId: string, pageTitle: string, pageId: int, revisionId: int,
    cleanText: string, textLength: int, sourceUrl: string, metadata: PageMetadata)

  /** Why a page was not processed: the parser raised, or the page had no
      HTML and the reduction ratio divided by zero. */
  datatype PageError = ExtractionFailed | EmptyHtml

  /** `TextProcessor.process_single_page`.  A text shorter than
      `min_text_length` is only logged; the page is returned all the same. */
  function ProcessSinglePage(p: TextProcessor, page: PageData, getText: GetText): (r: Result<ProcessedPage, PageError>)
    ensures r.Success? <==> CleanHtmlContent(p, page.htmlContent, getText).Some? && page.htmlContent != []
    ensures r.Success? ==>
              var q := r.value;
              var html := page.htmlContent;
              && q.cleanText == CleanHtmlContent(p, html, getText).value
              && q.textLength == |q.cleanText|
              && q.metadata.originalHtmlLength == |html|
              && q.metadata.textReductionRatio == ReductionRatio(|q.cleanText|, |html|)
              && q.metadata.processingConfig == p.config
              && q.metadata.extractedAt == page.extractedAt
              && q.pageTitle == page.title && q.sourceType == page.sourceType && q.sourceId == page.sourceId
              && q.pageId == page.pageId && q.revisionId == page.revisionId && q.sourceUrl == page.sourceUrl
  {
    match CleanHtmlContent(p, page.htmlContent, getText)
    case None => Failure(ExtractionFailed)
    case Some(clean) =>
      var htmlLength := |page.htmlContent|;
      if htmlLength == 0 then Failure(EmptyHtml)
      else
        var ratio := ReductionRatio(|clean|, htmlLength);
        Success(ProcessedPage(
          page.sourceType, page.sourceId, page.title, page.pageId, page.revisionId,
          clean, |clean|, page.sourceUrl,
          PageMetadata(page.extractedAt, htmlLength, p.config, ratio)))
  }

  /** `1 - clean_length / html_length`: the share of the HTML the cleaning removed. */
  function ReductionRatio(cleanLength: nat, htmlLength: nat): (ratio: real)
    requires htmlLength > 0
    ensures ratio * (htmlLength as real) == (htmlLength - cleanLength) as real
  {
    var h := htmlLength as real;
    var q := (cleanLength as real) / h;
    assert q * h == cleanLength as real;
    assert (1.0 - q) * h == h - q * h;
    1.0 - q
  }

  /** A page without HTML always fails, whatever the parser returns. */
  lemma {:induction false} EmptyHtmlFails(p: TextProcessor, page: PageData, getText: GetText)
    requires page.htmlContent == []
    ensures ProcessSinglePage(p, page, getText).Failure?
  {
  }

  /** `min_text_length` decides nothing: changing it changes neither whether
      a page is processed nor its text. */
  lemma {:induction false} MinLengthOnlyWarns(p: TextProcessor, minLength: int, page: PageData, getText: GetText)
    ensures var p2 := TextProcessor(p.config.(minTextLength := minLength));
            && ProcessSinglePage(p, page, getText).Success? == ProcessSinglePage(p2, page, getText).Success?
            && (ProcessSinglePage(p, page, getText).Success? ==>
                  ProcessSinglePage(p, page, getText).value.cleanText == ProcessSinglePage(p2, page, getText).value.cleanText)
  {
  }

  // ---------------------------------------------------------------------
  // process_multiple_pages
  // ---------------------------------------------------------------------

  /** The successes of `f` over `xs`, in order; a failure is skipped and the
      loop goes on with the next element. */
  function KeepSuccesses<A, B, E>(xs: seq<A>, f: A -> Result<B, E>): (r: seq<B>)
    ensures |r| + Failures(xs, f) == |xs|
    decreases |xs|
  {
    if xs == [] then []
    else
      var rest := KeepSuccesses(xs[1..], f);
      match f(xs[0])
      case Success(q) => [q] + rest
      case Failure(_) => rest
  }

  /** Every kept result is the success of some element. */
  lemma {:induction false} KeepSuccessesFrom<A, B, E>(xs: seq<A>, f: A -> Result<B, E>)
    ensures forall q :: q in KeepSuccesses(xs, f) ==> exists x :: x in xs && f(x) == Success(q)
    decreases |xs|
  {
    if xs != [] {
      KeepSuccessesFrom(xs[1..], f);
      assert forall x :: x in xs[1..] ==> x in xs;
    }
  }

  /** How many elements of `xs` fail under `f`. */
  function Failures<A, B, E>(xs: seq<A>, f: A -> Result<B, E>): nat
    decreases |xs|
  {
    if xs == [] then 0
    else (if f(xs[0]).Failure? then 1 else 0) + Failures(xs[1..], f)
  }

  lemma {:induction false} KeepSuccessesAppend<A, B, E>(xs: seq<A>, ys: seq<A>, f: A -> Result<B, E>)
    ensures KeepSuccesses(xs + ys, f) == KeepSuccesses(xs, f) + KeepSuccesses(ys, f)
    decreases |xs|
  {
    if xs == [] {
      assert xs + ys == ys;
    } else {
      assert (xs + ys)[0] == xs[0];
      assert (xs + ys)[1..] == xs[1..] + ys;
      KeepSuccessesAppend(xs[1..], ys, f);
    }
  }

  lemma {:induction false} KeepSuccessesSkip<A, B, E>(before: seq<A>, x: A, after: seq<A>, f: A -> Result<B, E>)
    requires f(x).Failure?
    ensures KeepSuccesses(before + [x] + after, f) == KeepSuccesses(before, f) + KeepSuccesses(after, f)
  {
    KeepSuccessesAppend(before + [x], after, f);
    KeepSuccessesAppend(before, [x], f);
    assert KeepSuccesses([x], f) == [];
  }

  lemma {:induction false} KeepSuccessesKeep<A, B, E>(before: seq<A>, x: A, after: seq<A>, f: A -> Result<B, E>)
    requires f(x).Success?
    ensures KeepSuccesses(before + [x] + after, f) == KeepSuccesses(before, f) + [f(x).value] + KeepSuccesses(after, f)
  {
    KeepSuccessesAppend(before + [x], after, f);
    KeepSuccessesAppend(before, [x], f);
    assert [x][1..] == [];
    assert KeepSuccesses([x], f) == [f(x).value];
  }

  /** `TextProcessor.process_multiple_pages`: the processed pages, in input
      order, of the pages that did not fail. */
  function ProcessMultiplePages(p: TextProcessor, pages: seq<PageData>, getText: GetText): (r: seq<ProcessedPage>)
    ensures |r| + FailedCount(p, pages, getText) == |pages|
    ensures forall q :: q in r ==> exists page :: page in pages && ProcessSinglePage(p, page, getText) == Success(q)
  {
    KeepSuccessesFrom(pages, PageStep(p, getText));
    KeepSuccesses(pages, PageStep(p, getText))
  }

  /** `process_single_page` as a function of the page alone. */
  function PageStep(p: TextProcessor, getText: GetText): PageData -> Result<ProcessedPage, PageError>
  {
    page => ProcessSinglePage(p, page, getText)
  }

  /** How many pages of the batch fail. */
  function FailedCount(p: TextProcessor, pages: seq<PageData>, getText: GetText): nat
  {
    Failures(pages, PageStep(p, getText))
  }

  /** Processing a batch is processing its parts one after the other. */
  lemma {:induction false} ProcessMultipleAppend(p: TextProcessor, a: seq<PageData>, b: seq<PageData>, getText: GetText)
    ensures ProcessMultiplePages(p, a + b, getText) == ProcessMultiplePages(p, a, getText) + ProcessMultiplePages(p, b, getText)
  {
    KeepSuccessesAppend(a, b, PageStep(p, getText));
  }

  /** A failing page is skipped and the loop goes on with the next one. */
  lemma {:induction false} FailedPageSkipped(p: TextProcessor, before: seq<PageData>, page: PageData, after: seq<PageData>, getText: GetText)
    requires ProcessSinglePage(p, page, getText).Failure?
    ensures ProcessMultiplePages(p, before + [page] + after, getText)
            == ProcessMultiplePages(p, before, getText) + ProcessMultiplePages(p, after, getText)
  {
    var f := PageStep(p, getText);
    assert f(page).Failure?;
    KeepSuccessesSkip(before, page, after, f);
  }

  /** A page that succeeds keeps its place among the results. */
  lemma {:induction false} SucceededPageKept(p: TextProcessor, before: seq<PageData>, page: PageData, after: seq<PageData>, getText: GetText)
    requires ProcessSinglePage(p, page, getText).Success?
    ensures ProcessMultiplePages(p, before + [page] + after, getText)
            == ProcessMultiplePages(p, before, getText) + [ProcessSinglePage(p, page, getText).value]
               + ProcessMultiplePages(p, after, getText)
  {
    var f := PageStep(p, getText);
    assert f(page) == ProcessSinglePage(p, page, getText);
    KeepSuccessesKeep(before, page, after, f);
  }

  // ---------------------------------------------------------------------
  // get_processing_summary and update_config
  // ---------------------------------------------------------------------

  datatype ProcessingSummary = ProcessingSummary(
    totalPagesProcessed: int, successfulPages: int, failedPages: int,
    totalCharactersProcessed: int, averageTextLength: real, processingTimeSeconds: real)

  function TotalTextLength(pages: seq<ProcessedPage>): nat
  {
    if pages == [] then 0 else |pages[0].cleanText| + TotalTextLength(pages[1..])
  }

  /** `TextProcessor.get_processing_summary`; the elapsed wall-clock time is
      a parameter. */
  function GetProcessingSummary(p: TextProcessor, pages: seq<PageData>, getText: GetText, elapsed: real): (s: ProcessingSummary)
    ensures s.totalPagesProcessed == |pages|
    ensures s.successfulPages + s.failedPages == s.totalPagesProcessed
    ensures s.failedPages == FailedCount(p, pages, getText)
    ensures s.successfulPages == |ProcessMultiplePages(p, pages, getText)|
    ensures s.totalCharactersProcessed == TotalTextLength(ProcessMultiplePages(p, pages, getText))
    ensures s.successfulPages == 0 ==> s.averageTextLength == 0.0
    ensures s.successfulPages > 0 ==> s.averageTextLength == Average(s.totalCharactersProcessed, s.successfulPages)
    ensures s.processingTimeSeconds == elapsed
  {
    var processed := ProcessMultiplePages(p, pages, getText);
    var successful := |processed|;
    var total := TotalTextLength(processed);
    var average := if successful > 0 then Average(total, successful) else 0.0;
    ProcessingSummary(|pages|, successful, |pages| - successful, total, average, elapsed)
  }

  /** `total / count` as a float. */
  function Average(total: nat, count: nat): (a: real)
    requires count > 0
    ensures a * (count as real) == total as real
  {
    var q := (total as real) / (count as real);
    assert q * (count as real) == total as real;
    q
  }

  /** The processor after `update_config`, and whether the call raised. */
  datatype ConfigUpdate = ConfigUpdate(processor: TextProcessor, raised: bool)

  /** `TextProcessor.update_config`: the new settings replace the old ones
      when they validate; otherwise the call raises and the processor keeps
      its settings.  `validate` is the record's constructor. */
  function UpdateConfig<Raw>(p: TextProcessor, raw: Raw, validate: Raw -> Option<ProcessingConfig>): (u: ConfigUpdate)
    ensures u.raised <==> validate(raw).None?
    ensures u.raised ==> u.processor == p
    ensures !u.raised ==> u.processor.config == validate(raw).value
  {
    match validate(raw)
    case None => ConfigUpdate(p, true)
    case Some(c) => ConfigUpdate(TextProcessor(c), false)
  }
}
