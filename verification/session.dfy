/**
 * The page state of src/App.jsx and the `analyzeResume` lifecycle: a guarded
 * dispatch that clears the previous outcome, then one completion per
 * dispatch that stores either the normalised analysis or an error message.
 *
 * The model call is not part of this model: a dispatch yields the prompt it
 * would send, and a completion receives the call's outcome, `Ok(text)` for
 * the response text or `Err(message)` for a rejected call. `pending` counts
 * dispatched calls whose completion has not arrived yet.
 */
module Session {
  import opened Wrappers
  import opened Json
  import opened Text
  import Prompt
  import Extractor
  import Normalizer
  import AnalysisResults

  datatype State = State(
    resumeText: string,
    jobDescription: string,
    analysis: Option<seq<Member>>,
    loading: bool,
    apiError: string,
    originalResumeText: string,
    pending: nat)

  /** The state the page starts in. */
  const Initial: State := State([], [], None, false, [], [], 0)

  /** Both inputs are non-empty: `!!resumeText && !!jobDescription`. */
  predicate HasData(st: State) {
    st.resumeText != [] && st.jobDescription != []
  }

  /** The Analyze button is enabled: not loading and both inputs given. */
  predicate ButtonEnabled(st: State) {
    !st.loading && HasData(st)
  }

  // ---------------------------------------------------------------------------
  // Dispatch

  /**
   * The synchronous part of `analyzeResume`: with an input missing nothing
   * happens; otherwise loading starts, the previous outcome is cleared and the
   * résumé is snapshotted.
   */
  function Start(st: State): (r: State)
    ensures !HasData(st) ==> r == st
    ensures HasData(st) ==>
              && r.loading && r.analysis.None? && r.apiError == []
              && r.originalResumeText == st.resumeText
              && r.resumeText == st.resumeText && r.jobDescription == st.jobDescription
              && r.pending == st.pending + 1
  {
    if !HasData(st) then st
    else
      st.(loading := true, analysis := None, apiError := [],
          originalResumeText := st.resumeText, pending := st.pending + 1)
  }

  /**
   * The prompt `analyzeResume` sends when it gets past its guard: the prompt
   * of the résumé and job excerpts as they stand at the call, whichever path
   * (the button or a direct call) invoked it; its layout is stated by
   * `Prompt.BuildPrompt`.
   */
  function Request(st: State): (r: Option<string>)
    ensures r.Some? <==> HasData(st)
    ensures r.Some? ==> r.value == Prompt.BuildPrompt(Take(st.resumeText, Prompt.ResumeLimit),
                                                      Take(st.jobDescription, Prompt.JobLimit))
  {
    if HasData(st) then
      Prompt.PromptSeesOnlyExcerpts(st.resumeText, st.jobDescription,
                                    Take(st.resumeText, Prompt.ResumeLimit), Take(st.jobDescription, Prompt.JobLimit));
      Some(Prompt.BuildPrompt(st.resumeText, st.jobDescription))
    else None
  }

  /**
   * The request sent on a click depends only on the excerpts: two pages whose
   * inputs agree on their first 10000 and 5000 characters send the same text.
   */
  lemma RequestSeesOnlyExcerpts(st1: State, st2: State)
    requires HasData(st1) && HasData(st2)
    requires Take(st1.resumeText, Prompt.ResumeLimit) == Take(st2.resumeText, Prompt.ResumeLimit)
    requires Take(st1.jobDescription, Prompt.JobLimit) == Take(st2.jobDescription, Prompt.JobLimit)
    ensures Request(st1) == Request(st2)
  {
    Prompt.PromptSeesOnlyExcerpts(st1.resumeText, st1.jobDescription, st2.resumeText, st2.jobDescription);
  }

  lemma ClickDispatches(st: State)
    requires ButtonEnabled(st)
    ensures Step(st, ClickAnalyze) == Start(st) && Start(st).pending == st.pending + 1
  {
  }

  // ---------------------------------------------------------------------------
  // Completion

  const FailurePrefix := "Analysis failed: "
  const FailureSuffix := ". Please try again with different content."

  /** The message shown for any failure of the analysis: the reason between a fixed prefix and suffix. */
  function FailureText(message: string): (r: string)
    ensures |r| == |FailurePrefix| + |message| + |FailureSuffix|
    ensures r[..|FailurePrefix|] == FailurePrefix
    ensures r[|FailurePrefix|..|FailurePrefix| + |message|] == message
    ensures r[|FailurePrefix| + |message|..] == FailureSuffix
  {
    var r := FailurePrefix + message + FailureSuffix;
    assert r[..|FailurePrefix|] == FailurePrefix;
    assert r[|FailurePrefix|..|FailurePrefix| + |message|] == message;
    assert r[|FailurePrefix| + |message|..] == FailureSuffix;
    r
  }

  /** The reason inside a shown failure message, when the text has that form. */
  function FailureReason(shown: string): (r: Option<string>)
    ensures r.Some? ==> FailureText(r.value) == shown
  {
    var p, q := |FailurePrefix|, |FailureSuffix|;
    if |shown| >= p + q && shown[..p] == FailurePrefix && shown[|shown| - q..] == FailureSuffix then
      var reason := shown[p..|shown| - q];
      assert FailureText(reason) == shown by {
        assert shown == shown[..p] + reason + shown[|shown| - q..];
      }
      Some(reason)
    else None
  }

  /** The shown message loses nothing: the reason can be read back from it. */
  lemma FailureTextRoundTrip(message: string)
    ensures FailureReason(FailureText(message)) == Some(message)
  {
    var r := FailureText(message);
    assert r[|r| - |FailureSuffix|..] == FailureSuffix;
  }

  /**
   * The response text to an analysis: the value `extractJSON` recovers,
   * checked for a numeric `matchPercentage` and laid over the defaults.
   */
  function Process(text: string): (r: Result<seq<Member>, string>)
    ensures r.Ok? <==> Extractor.ExtractJson(text).Ok? && Normalizer.HasNumericMatch(Extractor.ExtractJson(text).value)
    ensures Extractor.ExtractJson(text).Ok? ==> r == Normalizer.Normalize(Extractor.ExtractJson(text).value)
    ensures Extractor.ExtractJson(text).Err? ==> r == Err(Extractor.ExtractJson(text).error)
    ensures r.Ok? ==> UniqueKeys(r.value) && IsNumber(Get(r.value, "matchPercentage"))
    ensures r.Ok? ==> forall k :: k in Keys(Normalizer.DefaultAnalysis) ==> k in Keys(r.value)
    ensures r.Err? ==> || r.error == Normalizer.MissingMatchPercentage
                       || r.error == Extractor.FailureMessage(Extractor.NoStructureReason, text)
                       || r.error == Extractor.FailureMessage(Extractor.ParseFailureReason, text)
  {
    match Extractor.ExtractJson(text)
    case Ok(parsed) => Normalizer.Normalize(parsed)
    case Err(message) => Err(message)
  }

  /**
   * The asynchronous end of `analyzeResume`: the outcome of the model call,
   * processed, becomes the analysis or the error message, and loading stops.
   */
  function Complete(st: State, outcome: Result<string, string>): (r: State)
    requires st.pending > 0
    ensures !r.loading && r.pending == st.pending - 1
    ensures r.resumeText == st.resumeText && r.jobDescription == st.jobDescription
    ensures r.originalResumeText == st.originalResumeText
    ensures outcome.Err? ==> r.apiError == FailureText(outcome.error) && r.analysis == st.analysis
    ensures outcome.Ok? && Process(outcome.value).Ok? ==>
              r.analysis == Some(Process(outcome.value).value) && r.apiError == st.apiError
    ensures outcome.Ok? && Process(outcome.value).Err? ==>
              r.apiError == FailureText(Process(outcome.value).error) && r.analysis == st.analysis
  {
    var result := match outcome
      case Ok(text) => Process(text)
      case Err(message) => Err(message);
    var next := match result
      case Ok(a) => st.(analysis := Some(a))
      case Err(message) => st.(apiError := FailureText(message));
    next.(loading := false, pending := st.pending - 1)
  }

  /** After a dispatch, the completion sets exactly one of analysis and error. */
  lemma OneOutcome(st: State, outcome: Result<string, string>)
    requires HasData(st)
    ensures var r := Complete(Start(st), outcome);
            && !r.loading
            && (r.analysis.Some? <==> r.apiError == [])
  {
  }

  // ---------------------------------------------------------------------------
  // The page as a sequence of events

  datatype Event =
    | ClickAnalyze                     // the Analyze button
    | CallAnalyze                      // `analyzeResume()` called without the button
    | Upload(text: string)             // `onTextExtracted`: a PDF's text, or "" when it is removed
    | EditJob(text: string)            // the job description textarea
    | Respond(outcome: Result<string, string>)  // a model call returns

  /**
   * One event. Only `Upload` changes the résumé, setting both its text and
   * the original text and nothing else; only `EditJob` changes the job
   * description, and nothing else; a click does something only on the
   * enabled button; each event dispatches at most one call.
   */
  function Step(st: State, ev: Event): (r: State)
    ensures r.pending <= st.pending + 1
    ensures ev.Upload? ==> r == st.(resumeText := ev.text, originalResumeText := ev.text)
    ensures ev.EditJob? ==> r == st.(jobDescription := ev.text)
    ensures !ev.Upload? ==> r.resumeText == st.resumeText
    ensures !ev.EditJob? ==> r.jobDescription == st.jobDescription
    ensures ev.ClickAnalyze? && !ButtonEnabled(st) ==> r == st
    ensures ev.ClickAnalyze? && ButtonEnabled(st) ==> r.loading && r.pending == st.pending + 1
    ensures ev.Respond? ==> r.pending == st.pending - 1 || r == st
  {
    match ev
    case ClickAnalyze => if ButtonEnabled(st) then Start(st) else st
    case CallAnalyze => Start(st)
    case Upload(t) => st.(resumeText := t, originalResumeText := t)
    case EditJob(t) => st.(jobDescription := t)
    case Respond(outcome) => if st.pending > 0 then Complete(st, outcome) else st
  }

  /**
   * A sequence of events, in order. It dispatches at most one call per event,
   * and each input ends as it started or as the text of one of its own events.
   */
  function Run(st: State, evs: seq<Event>): (r: State)
    ensures r.pending <= st.pending + |evs|
    ensures r.resumeText == st.resumeText || exists i :: 0 <= i < |evs| && evs[i] == Upload(r.resumeText)
    ensures r.jobDescription == st.jobDescription || exists i :: 0 <= i < |evs| && evs[i] == EditJob(r.jobDescription)
    decreases |evs|
  {
    if |evs| == 0 then st else Run(Step(st, evs[0]), evs[1..])
  }

  /** At most one call in flight, and loading exactly while it is. */
  predicate SingleFlight(st: State) {
    st.pending <= 1 && (st.loading <==> st.pending == 1)
  }

  /** Events that go through the page's controls. */
  predicate ThroughControls(evs: seq<Event>) {
    forall i :: 0 <= i < |evs| ==> !evs[i].CallAnalyze?
  }

  /** While loading, the button does nothing. */
  lemma NoDispatchWhileLoading(st: State)
    requires st.loading
    ensures Step(st, ClickAnalyze) == st
  {
  }

  /** A missing input makes `analyzeResume` return at once, whoever calls it. */
  lemma GuardLeavesStateUnchanged(st: State)
    requires !HasData(st)
    ensures Step(st, ClickAnalyze) == st
    ensures Step(st, CallAnalyze) == st
  {
  }

  /** Through the controls, there is never more than one call in flight. */
  lemma {:induction false} ControlsKeepSingleFlight(st: State, evs: seq<Event>)
    requires SingleFlight(st)
    requires ThroughControls(evs)
    ensures SingleFlight(Run(st, evs))
    decreases |evs|
  {
    if |evs| > 0 {
      assert !evs[0].CallAnalyze?;
      ControlsKeepSingleFlight(Step(st, evs[0]), evs[1..]);
    }
  }

  /** Every session of the page starts single-flight and so stays. */
  lemma PageIsSingleFlight(evs: seq<Event>)
    requires ThroughControls(evs)
    ensures SingleFlight(Run(Initial, evs))
  {
    ControlsKeepSingleFlight(Initial, evs);
  }

  /**
   * `analyzeResume` itself has no loading check: two direct calls put two
   * requests in flight, and the first response ends loading while the second
   * is still outstanding.
   */
  lemma DirectCallsOverlap(st: State, outcome: Result<string, string>)
    requires HasData(st) && st.pending == 0
    ensures Run(st, [CallAnalyze, CallAnalyze]).pending == 2
    ensures var r := Run(st, [CallAnalyze, CallAnalyze, Respond(outcome)]);
            !r.loading && r.pending == 1
  {
    var s1 := Step(st, CallAnalyze);
    var s2 := Step(s1, CallAnalyze);
    assert Run(st, [CallAnalyze, CallAnalyze]) == Run(s1, [CallAnalyze]) == Run(s2, []);
    var s3 := Step(s2, Respond(outcome));
    assert Run(st, [CallAnalyze, CallAnalyze, Respond(outcome)]) == Run(s1, [CallAnalyze, Respond(outcome)]);
    assert Run(s1, [CallAnalyze, Respond(outcome)]) == Run(s2, [Respond(outcome)]) == Run(s3, []);
  }

  // ---------------------------------------------------------------------------
  // What the results panel shows

  function Screen(st: State): AnalysisResults.View {
    AnalysisResults.Render(st.analysis, st.loading, HasData(st))
  }

  /**
   * A dispatch shows the loading skeleton; its completion shows the report,
   * or a failed render when the analysis has a value the panel cannot show,
   * or the placeholder.
   */
  lemma ScreenFollowsLifecycle(st: State, outcome: Result<string, string>)
    requires HasData(st)
    ensures Screen(Start(st)) == AnalysisResults.Skeleton
    ensures var r := Complete(Start(st), outcome);
            && (r.analysis.Some? && !AnalysisResults.Throws(r.analysis.value) ==>
                  Screen(r) == AnalysisResults.Results(AnalysisResults.ReportOf(r.analysis.value)))
            && (r.analysis.Some? && AnalysisResults.Throws(r.analysis.value) ==> Screen(r) == AnalysisResults.Crashed)
            && (r.analysis.None? ==> Screen(r) == AnalysisResults.Placeholder && r.apiError != [])
  {
  }
}
