/** The state of the `SlangAnalyzer` component
    (src/components/slang-analyzer.tsx, lines 97-129) and the two parts of
    the page that depend on it: the error alert and the results card
    (lines 182-219). Each `useState` hook is a field and each setter call an
    assignment to it. The `await` on line 122 splits a submit in two:
    `BeginAnalysis` runs before it and `Settle` after it, and the page may
    be drawn in between. */
module SlangAnalyzerState {
  import opened SlangTypes
  import opened AnalyzedText
  import opened Highlighting
  import opened RenderCorrectness

  /** How `await analyzeSlang({ text })` settles: it resolves to a list or to
      nothing (`null`/`undefined`), or it rejects with a thrown value. */
  datatype AnalyzeOutcome = Resolved(list: Option<seq<Item>>) | Rejected(thrown: Thrown)

  class SlangAnalyzer {
    var result: Option<seq<Item>>
    var isLoading: bool
    var error: Option<string>
    var inputText: string
    var isDetectionEnabled: bool

    /** The page never holds both a result and an error: a submit that runs
        the analysis clears both before either is set again. */
    predicate AtMostOneOutcome()
      reads this
    {
      result.None? || error.None?
    }

    /** The initial values of the hooks, lines 98-102. */
    constructor ()
      ensures result == None && !isLoading && error == None
      ensures inputText == [] && isDetectionEnabled
      ensures AtMostOneOutcome()
    {
      result := None;
      isLoading := false;
      error := None;
      inputText := [];
      isDetectionEnabled := true;
    }

    /** The switch's `onCheckedChange={setIsDetectionEnabled}` (line 141). */
    method SetDetectionEnabled(enabled: bool)
      modifies this
      ensures isDetectionEnabled == enabled
      ensures result == old(result) && isLoading == old(isLoading)
      ensures error == old(error) && inputText == old(inputText)
    {
      isDetectionEnabled := enabled;
    }

    /** Lines 116-119: what a submit does before the request goes out. */
    method BeginAnalysis(text: string)
      modifies this
      ensures isLoading && error == None && result == None && inputText == text
      ensures isDetectionEnabled == old(isDetectionEnabled)
      ensures AtMostOneOutcome()
    {
      isLoading := true;
      error := None;
      result := None;
      inputText := text;
    }

    /** Lines 121-128: a resolved list, or `[]` in place of nothing, becomes
        the result; a rejection becomes the error message; either way the
        `finally` block ends the loading state. */
    method Settle(outcome: AnalyzeOutcome)
      modifies this
      ensures !isLoading
      ensures outcome.Resolved? ==> result == Some(outcome.list.GetOr([])) && error == old(error)
      ensures outcome.Rejected? ==> result == old(result) && error == Some(MessageOf(outcome.thrown))
      ensures inputText == old(inputText) && isDetectionEnabled == old(isDetectionEnabled)
      ensures old(result).None? && old(error).None? ==> AtMostOneOutcome()
    {
      match outcome {
        case Resolved(list) =>
          result := Some(list.GetOr([]));
        case Rejected(thrown) =>
          error := Some(MessageOf(thrown));
      }
      isLoading := false;
    }

    /** `onSubmit` (lines 109-129). With detection switched off it only
        clears the result and records the text; otherwise it runs the
        analysis and settles with its outcome. */
    method OnSubmit(text: string, outcome: AnalyzeOutcome)
      modifies this
      ensures inputText == text && isDetectionEnabled == old(isDetectionEnabled)
      ensures !old(isDetectionEnabled) ==>
                result == None && error == old(error) && isLoading == old(isLoading)
      ensures old(isDetectionEnabled) ==> !isLoading
      ensures old(isDetectionEnabled) && outcome.Resolved? ==>
                result == Some(outcome.list.GetOr([])) && error == None
                && ResultsCard() == Some(RenderAnalyzedText(text, outcome.list.GetOr([])))
      ensures old(isDetectionEnabled) && outcome.Rejected? ==>
                result == None && error == Some(MessageOf(outcome.thrown)) && ResultsCard() == None
      ensures !old(isDetectionEnabled) ==> ErrorAlert() == old(ErrorAlert())
      ensures old(isDetectionEnabled) && outcome.Resolved? ==> ErrorAlert() == None
      ensures old(isDetectionEnabled) && outcome.Rejected? ==>
                (ErrorAlert() == Some(MessageOf(outcome.thrown)) <==> MessageOf(outcome.thrown) != [])
      ensures old(isDetectionEnabled) && outcome.Rejected? && outcome.thrown.ThrownValue? ==>
                ErrorAlert() == Some(UnknownError)
      ensures AtMostOneOutcome()
    {
      if !isDetectionEnabled {
        result := None;
        inputText := text;
        return;
      }
      BeginAnalysis(text);
      Settle(outcome);
    }

    /** The error alert (lines 182-187), drawn when `error` is truthy: a
        non-empty message. */
    function ErrorAlert(): (shown: Option<string>)
      reads this
      ensures shown.Some? <==> error.Some? && error.value != []
      ensures shown.Some? ==> shown == error
    {
      if error.Some? && error.value != [] then error else None
    }

    /** The results card (lines 189-196), drawn when `result` is non-null and
        nothing is loading; an empty list is truthy and is drawn as the plain
        text. */
    function ResultsCard(): (card: Option<View>)
      reads this
      ensures card.Some? <==> result.Some? && !isLoading
    {
      if result.Some? && !isLoading then Some(RenderAnalyzedText(inputText, result.value)) else None
    }
  }

  /** While a request is in flight the results card is hidden. */
  lemma LoadingHidesResults(a: SlangAnalyzer)
    ensures a.isLoading ==> a.ResultsCard() == None
  {
  }

  /** The results card shows exactly the submitted text: nothing of it is
      lost or repeated, and no segment is empty. When every term is
      non-empty, it highlights that text as `Highlights` describes. */
  lemma ResultsCardShowsInput(a: SlangAnalyzer)
    ensures a.ResultsCard().Some? ==> ViewText(a.ResultsCard().value) == a.inputText
    ensures a.ResultsCard().Some? && a.result.value == [] ==> a.ResultsCard() == Some(Paragraph(a.inputText))
    ensures a.ResultsCard().Some? && a.result.value != []
            && (forall k :: 0 <= k < |a.result.value| ==> a.result.value[k].term != []) ==>
              a.ResultsCard().value.Highlighted?
              && Highlights(a.result.value, a.inputText, 0, a.ResultsCard().value.segments)
  {
    if a.ResultsCard().Some? {
      var analysis := a.result.value;
      RenderRoundTrip(a.inputText, analysis);
      if analysis != [] && forall k :: 0 <= k < |analysis| ==> analysis[k].term != [] {
        RenderHighlights(a.inputText, analysis);
      }
    }
  }
}
