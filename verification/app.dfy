/** The page component (App.tsx): its state slots, the submission handler
    with its cosmetic stage sequencer, the predicates that lock the controls
    and reveal results, and the replace/append actions on the input. */
module App {
  import opened Types
  import opened JsString
  import PipelineVisualizer
  import ResultCard

  /** The page's `useState` slots. */
  datatype AppState = AppState(
    input: string,
    style: PromptStyle,
    complexity: ComplexityLevel,
    status: PipelineStage,
    result: Option<OptimizationResult>,
    error: Option<string>)

  /** The state on first render. */
  const Initial: AppState := AppState("", Professional, Moderate, IDLE, None, None)

  /** Shown when the thrown error carries no message. */
  const FallbackMessage: string := "Kutilmagan xatolik yuz berdi."

  /** The stages `runPipelineSimulation` sets, one per timer. */
  const SimulatedStages: seq<PipelineStage> := [PREPROCESSING, OPTIMIZING, GENERATING, FORMATTING]

  // ---------------------------------------------------------------------
  // Predicates the page renders from
  // ---------------------------------------------------------------------

  /** A submission is under way: neither idle nor settled. The page and the
      progress strip share one notion of a run in progress. */
  predicate Busy(status: PipelineStage) {
    PipelineVisualizer.InProgress(status)
  }

  /** The prompt text area is disabled. */
  predicate InputLocked(st: AppState) {
    Busy(st.status)
  }

  /** The optimise button is disabled. */
  predicate OptimizeDisabled(st: AppState) {
    Busy(st.status) || Trim(st.input) == []
  }

  /** The results section (analysis bar and variant cards) is rendered. */
  predicate ResultsVisible(st: AppState) {
    st.result.Some? && st.status == COMPLETE
  }

  /** The error banner is rendered: the message is a non-empty string. */
  predicate ErrorVisible(st: AppState) {
    st.error.Some? && st.error.value != ""
  }

  /** The controls lock exactly while the stage is none of IDLE, COMPLETE
      and ERROR, and the button additionally stays disabled while the prompt
      is blank. */
  lemma LockingMatchesRun(st: AppState)
    ensures InputLocked(st) <==> st.status !in {IDLE, COMPLETE, ERROR}
    ensures OptimizeDisabled(st) <==> InputLocked(st) || AllWhitespace(st.input)
  {
  }

  // ---------------------------------------------------------------------
  // State updates and commits
  // ---------------------------------------------------------------------

  /** One call of a state setter. */
  datatype Update =
    | SetInput(text: string)
    | SetStatus(stage: PipelineStage)
    | SetResult(result: Option<OptimizationResult>)
    | SetError(error: Option<string>)

  /** The effect of one setter call. */
  function Apply(st: AppState, u: Update): AppState {
    match u
    case SetInput(text) => st.(input := text)
    case SetStatus(stage) => st.(status := stage)
    case SetResult(r) => st.(result := r)
    case SetError(e) => st.(error := e)
  }

  /** Setter calls made in one synchronous stretch, applied in order. */
  function ApplyAll(st: AppState, us: seq<Update>): AppState
    decreases |us|
  {
    if us == [] then st else ApplyAll(Apply(st, us[0]), us[1..])
  }

  /** The states rendered after each batch of setter calls; React commits the
      calls made between two suspension points together. */
  function Commits(st: AppState, batches: seq<seq<Update>>): (cs: seq<AppState>)
    ensures |cs| == |batches|
    decreases |batches|
  {
    if batches == [] then []
    else
      var next := ApplyAll(st, batches[0]);
      [next] + Commits(next, batches[1..])
  }

  /** All setter calls of a sequence of batches, in program order. */
  function Flatten(batches: seq<seq<Update>>): seq<Update>
    decreases |batches|
  {
    if batches == [] then [] else batches[0] + Flatten(batches[1..])
  }

  /** The stages set by a sequence of setter calls, in order. */
  function StatusTrail(us: seq<Update>): seq<PipelineStage>
    decreases |us|
  {
    if us == [] then []
    else if us[0].SetStatus? then [us[0].stage] + StatusTrail(us[1..])
    else StatusTrail(us[1..])
  }

  /** Applying a single setter call. */
  lemma ApplyAllOne(st: AppState, u: Update)
    ensures ApplyAll(st, [u]) == Apply(st, u)
  {
    assert [u][1..] == [];
  }

  /** Applying two stretches of setter calls is applying their
      concatenation. */
  lemma {:induction false} ApplyAllAppend(st: AppState, xs: seq<Update>, ys: seq<Update>)
    ensures ApplyAll(st, xs + ys) == ApplyAll(ApplyAll(st, xs), ys)
    decreases |xs|
  {
    if xs == [] {
      assert xs + ys == ys;
    } else {
      assert (xs + ys)[1..] == xs[1..] + ys;
      ApplyAllAppend(Apply(st, xs[0]), xs[1..], ys);
    }
  }

  /** The state batch `i` starts from, when `states` lists the states
      after each batch. */
  function Before(st: AppState, states: seq<AppState>, i: nat): AppState
    requires i <= |states|
  {
    if i == 0 then st else states[i - 1]
  }

  /** Commits are determined batch by batch: if each listed state is what
      its batch makes of the previous one, those are the commits. */
  lemma {:induction false} CommitsChain(st: AppState, batches: seq<seq<Update>>, states: seq<AppState>)
    requires |states| == |batches|
    requires forall i :: 0 <= i < |batches| ==> states[i] == ApplyAll(Before(st, states, i), batches[i])
    ensures Commits(st, batches) == states
    decreases |batches|
  {
    if batches != [] {
      var rest := states[1..];
      forall i | 0 <= i < |rest|
        ensures rest[i] == ApplyAll(Before(states[0], rest, i), batches[1..][i])
      {
        assert rest[i] == states[i + 1] && batches[1..][i] == batches[i + 1];
        assert Before(states[0], rest, i) == Before(st, states, i + 1);
      }
      CommitsChain(states[0], batches[1..], rest);
      assert states[0] == ApplyAll(Before(st, states, 0), batches[0]);
      assert states == [states[0]] + rest;
    }
  }

  /** Flattening two runs of batches is flattening each and joining. */
  lemma {:induction false} FlattenAppend(xs: seq<seq<Update>>, ys: seq<seq<Update>>)
    ensures Flatten(xs + ys) == Flatten(xs) + Flatten(ys)
    decreases |xs|
  {
    if xs == [] {
      assert xs + ys == ys;
    } else {
      assert (xs + ys)[1..] == xs[1..] + ys;
      FlattenAppend(xs[1..], ys);
    }
  }

  /** Flattening keeps the first batch's calls in front. */
  lemma FlattenCons(b: seq<Update>, bs: seq<seq<Update>>)
    ensures Flatten([b] + bs) == b + Flatten(bs)
  {
    assert ([b] + bs)[1..] == bs;
  }

  /** The stages set by two stretches of calls are those of the first, then
      those of the second. */
  lemma {:induction false} StatusTrailAppend(xs: seq<Update>, ys: seq<Update>)
    ensures StatusTrail(xs + ys) == StatusTrail(xs) + StatusTrail(ys)
    decreases |xs|
  {
    if xs == [] {
      assert xs + ys == ys;
    } else {
      assert (xs + ys)[1..] == xs[1..] + ys;
      StatusTrailAppend(xs[1..], ys);
    }
  }

  /** Only a stage setter contributes to the trail. */
  lemma StatusTrailOne(u: Update)
    ensures StatusTrail([u]) == if u.SetStatus? then [u.stage] else []
  {
    assert [u][1..] == [];
  }

  // ---------------------------------------------------------------------
  // Submission
  // ---------------------------------------------------------------------

  /** `e.message || fallback`: a message that is empty (or missing) falls
      back to the fixed text. */
  function ErrorMessage(message: string): (m: string)
    ensures m != ""
    ensures message != "" ==> m == message
  {
    if message != "" then message else FallbackMessage
  }

  /** The setter calls made once the remote call has been awaited. */
  function SettleUpdates(outcome: Outcome): seq<Update> {
    match outcome
    case Success(data) => [SetResult(Some(data)), SetStatus(COMPLETE)]
    case Failure(message) => [SetError(Some(ErrorMessage(message))), SetStatus(ERROR)]
  }

  /** The stage a submission ends in. */
  function Terminal(outcome: Outcome): PipelineStage {
    if outcome.Success? then COMPLETE else ERROR
  }

  /** The batches of one real submission. The first batch runs before the
      first timer: it clears the error and result, fires the remote call
      (no state change) and sets the first simulated stage. Each timer then
      sets the next stage. The outcome is applied only after the last timer
      has elapsed and the remote call has been awaited, so the moment the
      call settles never shows. */
  function SubmissionBatches(outcome: Outcome): seq<seq<Update>> {
    SequencerBatches + [SettleUpdates(outcome)]
  }

  /** The batches made before the remote call is awaited. */
  const SequencerBatches: seq<seq<Update>> :=
    [ [SetError(None), SetResult(None), SetStatus(PREPROCESSING)],
      [SetStatus(OPTIMIZING)],
      [SetStatus(GENERATING)],
      [SetStatus(FORMATTING)] ]

  /** What pressing the optimise button sets off: the request sent to the
      remote model, if any, and the batches of state updates. */
  datatype Submission = Submission(request: Option<OptimizationRequest>, batches: seq<seq<Update>>)

  /** `handleOptimize`, given how the remote call settles. A blank prompt is
      ignored: no request and no state change. Otherwise exactly one request
      goes out, carrying the prompt as typed (untrimmed) and the current style
      and complexity. */
  function HandleOptimize(st: AppState, outcome: Outcome): (sub: Submission)
    ensures sub.request.None? <==> AllWhitespace(st.input)
    ensures sub.request.None? ==> sub.batches == []
    ensures sub.request.Some? ==>
      sub.request.value == OptimizationRequest(st.input, st.style, st.complexity)
  {
    if Trim(st.input) == [] then Submission(None, [])
    else
      Submission(
        Some(OptimizationRequest(st.input, st.style, st.complexity)),
        SubmissionBatches(outcome))
  }

  /** The calls made before the remote call is awaited, in program order. */
  const SequencerUpdates: seq<Update> := Flatten(SequencerBatches)

  /** The sequencer's calls: clear the error, clear the result, then set the
      four simulated stages one after another. */
  lemma SequencerCalls()
    ensures SequencerUpdates ==
      [SetError(None), SetResult(None), SetStatus(PREPROCESSING), SetStatus(OPTIMIZING),
       SetStatus(GENERATING), SetStatus(FORMATTING)]
  {
    var bs := SequencerBatches;
    assert bs == [bs[0]] + ([bs[1]] + ([bs[2]] + ([bs[3]] + [])));
    FlattenCons(bs[0], [bs[1]] + ([bs[2]] + ([bs[3]] + [])));
    FlattenCons(bs[1], [bs[2]] + ([bs[3]] + []));
    FlattenCons(bs[2], [bs[3]] + []);
    FlattenCons(bs[3], []);
  }

  /** The setter calls of a real submission, in program order: the
      sequencer's, then the settling ones. */
  lemma SubmissionUpdates(outcome: Outcome)
    ensures Flatten(SubmissionBatches(outcome)) == SequencerUpdates + SettleUpdates(outcome)
  {
    var settle := SettleUpdates(outcome);
    FlattenAppend(SequencerBatches, [settle]);
    FlattenCons(settle, []);
    assert settle + [] == settle;
  }

  /** A real submission clears the error and the result before it sets any
      stage. */
  lemma ClearsBeforeAnyStage(st: AppState, outcome: Outcome)
    requires !AllWhitespace(st.input)
    ensures var us := Flatten(HandleOptimize(st, outcome).batches);
      |us| >= 3 && us[0] == SetError(None) && us[1] == SetResult(None) && us[2].SetStatus?
  {
    assert HandleOptimize(st, outcome).batches == SubmissionBatches(outcome);
    SubmissionUpdates(outcome);
    SequencerCalls();
    var us := SequencerUpdates + SettleUpdates(outcome);
    assert us[0] == SetError(None) && us[1] == SetResult(None) && us[2] == SetStatus(PREPROCESSING);
  }

  /** The sequencer sets the simulated stages and nothing else. */
  lemma SequencerTrail()
    ensures StatusTrail(SequencerUpdates) == SimulatedStages
  {
    SequencerCalls();
    var us := SequencerUpdates;
    assert us == [us[0]] + ([us[1]] + ([us[2]] + ([us[3]] + ([us[4]] + [us[5]]))));
    StatusTrailAppend([us[0]], [us[1]] + ([us[2]] + ([us[3]] + ([us[4]] + [us[5]]))));
    StatusTrailAppend([us[1]], [us[2]] + ([us[3]] + ([us[4]] + [us[5]])));
    StatusTrailAppend([us[2]], [us[3]] + ([us[4]] + [us[5]]));
    StatusTrailAppend([us[3]], [us[4]] + [us[5]]);
    StatusTrailAppend([us[4]], [us[5]]);
    StatusTrailOne(us[0]);
    StatusTrailOne(us[1]);
    StatusTrailOne(us[2]);
    StatusTrailOne(us[3]);
    StatusTrailOne(us[4]);
    StatusTrailOne(us[5]);
  }

  /** Settling sets the terminal stage and nothing else. */
  lemma SettleTrail(outcome: Outcome)
    ensures StatusTrail(SettleUpdates(outcome)) == [Terminal(outcome)]
  {
    var settle := SettleUpdates(outcome);
    assert settle == [settle[0]] + [settle[1]];
    StatusTrailAppend([settle[0]], [settle[1]]);
    StatusTrailOne(settle[0]);
    StatusTrailOne(settle[1]);
  }

  /** The stages a real submission sets are the simulated ones, in order,
      followed by exactly one terminal stage. */
  lemma StagesInOrder(st: AppState, outcome: Outcome)
    requires !AllWhitespace(st.input)
    ensures StatusTrail(Flatten(HandleOptimize(st, outcome).batches))
         == SimulatedStages + [Terminal(outcome)]
  {
    SubmissionUpdates(outcome);
    StatusTrailAppend(SequencerUpdates, SettleUpdates(outcome));
    SequencerTrail();
    SettleTrail(outcome);
  }

  /** No stage is set twice in a run, and the simulated order is the order
      the progress strip compares against. */
  lemma StagesOnceEach(st: AppState, outcome: Outcome)
    ensures SimulatedStages == PipelineVisualizer.StageOrder
    ensures PipelineVisualizer.Distinct(SimulatedStages + [Terminal(outcome)])
    ensures !AllWhitespace(st.input) ==>
      PipelineVisualizer.Distinct(StatusTrail(Flatten(HandleOptimize(st, outcome).batches)))
  {
    var t := SimulatedStages + [Terminal(outcome)];
    assert PipelineVisualizer.Distinct(t) by {
      assert t == [PREPROCESSING, OPTIMIZING, GENERATING, FORMATTING, Terminal(outcome)];
    }
    if !AllWhitespace(st.input) {
      StagesInOrder(st, outcome);
      assert StatusTrail(Flatten(HandleOptimize(st, outcome).batches)) == t;
    }
  }

  /** Every state rendered while the sequencer runs: the stage is the i-th
      simulated one, result and error are cleared, and everything the user
      chose is kept. */
  function RunningState(st: AppState, i: nat): AppState
    requires i < |SimulatedStages|
  {
    st.(status := SimulatedStages[i], result := None, error := None)
  }

  /** The state a submission settles in. */
  function SettledState(st: AppState, outcome: Outcome): AppState {
    match outcome
    case Success(data) => st.(status := COMPLETE, result := Some(data), error := None)
    case Failure(message) => st.(status := ERROR, result := None, error := Some(ErrorMessage(message)))
  }

  /** Applying the outcome to the last running state settles the page. */
  lemma SettleFromRunning(st: AppState, outcome: Outcome)
    ensures ApplyAll(RunningState(st, 3), SettleUpdates(outcome)) == SettledState(st, outcome)
  {
    var u := SettleUpdates(outcome);
    assert u == [u[0]] + [u[1]];
    ApplyAllAppend(RunningState(st, 3), [u[0]], [u[1]]);
    ApplyAllOne(RunningState(st, 3), u[0]);
    ApplyAllOne(Apply(RunningState(st, 3), u[0]), u[1]);
  }

  /** The first batch clears the page and enters the first stage. */
  lemma FirstBatch(st: AppState)
    ensures ApplyAll(st, [SetError(None), SetResult(None), SetStatus(PREPROCESSING)]) == RunningState(st, 0)
  {
    var s1 := Apply(st, SetError(None));
    var s2 := Apply(s1, SetResult(None));
    assert [SetError(None), SetResult(None), SetStatus(PREPROCESSING)][1..] == [SetResult(None), SetStatus(PREPROCESSING)];
    assert [SetResult(None), SetStatus(PREPROCESSING)][1..] == [SetStatus(PREPROCESSING)];
    ApplyAllOne(s2, SetStatus(PREPROCESSING));
  }

  /** Each timer moves the page on to the next stage. */
  lemma TimerBatch(st: AppState, i: nat)
    requires i + 1 < |SimulatedStages|
    ensures ApplyAll(RunningState(st, i), [SetStatus(SimulatedStages[i + 1])]) == RunningState(st, i + 1)
  {
    ApplyAllOne(RunningState(st, i), SetStatus(SimulatedStages[i + 1]));
  }

  /** A real submission renders four running states, one per simulated
      stage, then the settled state; when the remote call settled plays no
      part. */
  lemma SubmissionTrace(st: AppState, outcome: Outcome)
    requires !AllWhitespace(st.input)
    ensures Commits(st, HandleOptimize(st, outcome).batches) == Trace(st, outcome)
  {
    var bs := SubmissionBatches(outcome);
    var states := Trace(st, outcome);
    forall i | 0 <= i < |bs|
      ensures states[i] == ApplyAll(Before(st, states, i), bs[i])
    {
      TraceStep(st, outcome, i);
    }
    CommitsChain(st, bs, states);
  }

  /** The states of a real submission, in render order. */
  function Trace(st: AppState, outcome: Outcome): seq<AppState> {
    [RunningState(st, 0), RunningState(st, 1), RunningState(st, 2), RunningState(st, 3),
     SettledState(st, outcome)]
  }

  /** Each batch of a real submission turns one traced state into the next. */
  lemma TraceStep(st: AppState, outcome: Outcome, i: nat)
    requires i < 5
    ensures var states := Trace(st, outcome);
      states[i] == ApplyAll(if i == 0 then st else states[i - 1], SubmissionBatches(outcome)[i])
  {
    var bs := SubmissionBatches(outcome);
    var states := Trace(st, outcome);
    if i == 0 {
      assert bs[0] == [SetError(None), SetResult(None), SetStatus(PREPROCESSING)];
      FirstBatch(st);
    } else if i < 4 {
      assert bs[i] == [SetStatus(SimulatedStages[i])];
      assert states[i - 1] == RunningState(st, i - 1) && states[i] == RunningState(st, i);
      TimerBatch(st, i - 1);
    } else {
      assert bs[4] == SettleUpdates(outcome);
      assert states[3] == RunningState(st, 3) && states[4] == SettledState(st, outcome);
      SettleFromRunning(st, outcome);
    }
  }

  /** While the sequencer runs the controls are locked and no result is
      visible. */
  lemma RunningStatesAreLocked(st: AppState, i: nat)
    requires i < |SimulatedStages|
    ensures InputLocked(RunningState(st, i)) && !ResultsVisible(RunningState(st, i))
  {
  }

  /** A successful run ends in COMPLETE with the returned data as the result
      and no error: the results section appears and the error banner does
      not. */
  lemma SuccessShowsData(st: AppState, data: OptimizationResult)
    requires !AllWhitespace(st.input)
    ensures var cs := Commits(st, HandleOptimize(st, Success(data)).batches);
      && cs[|cs| - 1] == st.(status := COMPLETE, result := Some(data), error := None)
      && ResultsVisible(cs[|cs| - 1]) && !ErrorVisible(cs[|cs| - 1])
  {
    SubmissionTrace(st, Success(data));
  }

  /** A failed run ends in ERROR with the thrown message (or the fallback
      when it is empty) and no result, so the banner shows and no stale or
      partial result does. */
  lemma FailureShowsMessage(st: AppState, message: string)
    requires !AllWhitespace(st.input)
    ensures var cs := Commits(st, HandleOptimize(st, Failure(message)).batches);
      && cs[|cs| - 1] == st.(status := ERROR, result := None,
                             error := Some(if message == "" then FallbackMessage else message))
      && ErrorVisible(cs[|cs| - 1]) && !ResultsVisible(cs[|cs| - 1])
  {
    SubmissionTrace(st, Failure(message));
  }

  // ---------------------------------------------------------------------
  // Replace and append
  // ---------------------------------------------------------------------

  /** `handleReplaceVariant`: the input becomes exactly the given text. */
  function HandleReplaceVariant(st: AppState, content: string): AppState {
    st.(input := content)
  }

  /** The text `handleAppendVariant` leaves in the input: the given text when
      the prior input is blank, else the trimmed prior input, a blank line,
      and the given text untouched. */
  function AppendVariant(prev: string, content: string): string {
    var trimmedPrev := Trim(prev);
    if trimmedPrev == [] then content else trimmedPrev + "\n\n" + content
  }

  /** `handleAppendVariant`. */
  function HandleAppendVariant(st: AppState, content: string): AppState {
    st.(input := AppendVariant(st.input, content))
  }

  /** Replacing sets the input to the text as given, untrimmed, discards
      whatever was there (two replaces are the last one) and touches nothing
      else. */
  lemma ReplaceDiscardsPrior(st: AppState, first: string, second: string)
    ensures HandleReplaceVariant(st, first).input == first
    ensures HandleReplaceVariant(HandleReplaceVariant(st, first), second)
         == HandleReplaceVariant(st, second)
    ensures HandleReplaceVariant(st, first).(input := st.input) == st
  {
  }

  /** Appending onto a blank input yields the appended text alone. */
  lemma AppendOntoBlank(prev: string, content: string)
    requires AllWhitespace(prev)
    ensures AppendVariant(prev, content) == content
  {
  }

  /** Appending onto text `a` that has no surrounding whitespace yields
      `a`, a blank line, then the appended text. */
  lemma AppendOntoText(a: string, content: string)
    requires a != [] && Trimmed(a)
    ensures AppendVariant(a, content) == a + "\n\n" + content
  {
    TrimOfTrimmed(a);
  }

  /** Appending onto a non-blank input cuts the input's surrounding
      whitespace, keeps its core, and adds a blank line and the appended text
      verbatim; nothing else is lost or added. */
  lemma AppendKeepsCore(prev: string, content: string)
    requires !AllWhitespace(prev)
    ensures exists i, j :: (IsCore(prev, i, j) && i < j &&
      AppendVariant(prev, content) == prev[i..j] + "\n\n" + content)
  {
    var i, j := TrimIsCoreSlice(prev);
  }

  // ---------------------------------------------------------------------
  // The results section
  // ---------------------------------------------------------------------

  /** The grammar-issue panel as written: shown unless the list is empty or
      starts with the English sentinel. */
  predicate ShowsGrammarIssuesAsWritten(a: Analysis) {
    |a.grammarIssues| > 0 && a.grammarIssues[0] != "None"
  }

  /** The replies that mean "no issues": the English sentinel the panel tests
      for and the Uzbek one the response schema asks the model to send. */
  const NoIssuesReplies: set<string> := {"None", "Yo'q"}

  /** The grammar-issue panel, shown unless the list is empty or starts with
      a no-issues reply. */
  predicate ShowsGrammarIssues(a: Analysis) {
    |a.grammarIssues| > 0 && a.grammarIssues[0] !in NoIssuesReplies
  }

  /** `grammarIssues.slice(0, 2)`. */
  function ShownGrammarIssues(a: Analysis): (r: seq<string>)
    ensures r <= a.grammarIssues
    ensures |r| == if |a.grammarIssues| < 2 then |a.grammarIssues| else 2
  {
    if |a.grammarIssues| < 2 then a.grammarIssues else a.grammarIssues[..2]
  }

  /** The reply the model is told to give when there are no issues opens the
      panel as written, which then lists that reply as a fixed issue. */
  lemma UzbekNoIssuesReplyShownAsWritten()
    ensures var a := Analysis(["Yo'q"], 0, "");
      ShowsGrammarIssuesAsWritten(a) && ShownGrammarIssues(a) == ["Yo'q"]
  {
    var a := Analysis(["Yo'q"], 0, "");
    assert "Yo'q"[0] != "None"[0];
  }

  /** The corrected panel never opens on a list that starts with a no-issues
      reply, opens whenever the panel as written would on a list that does
      not, and then lists one or two entries, the first of which is not a
      no-issues reply (later entries are not examined). */
  lemma GrammarPanelHidesNoIssuesReplies(a: Analysis)
    ensures |a.grammarIssues| == 0 || a.grammarIssues[0] in NoIssuesReplies ==> !ShowsGrammarIssues(a)
    ensures ShowsGrammarIssues(a) ==> ShowsGrammarIssuesAsWritten(a)
    ensures ShowsGrammarIssuesAsWritten(a) && a.grammarIssues[0] !in NoIssuesReplies ==> ShowsGrammarIssues(a)
    ensures ShowsGrammarIssues(a) ==>
      1 <= |ShownGrammarIssues(a)| <= 2 && ShownGrammarIssues(a)[0] !in NoIssuesReplies
  {
  }

  /** What the results section shows. `variants` are the props the page
      hands to its cards, one card per entry, keyed by position; each card's
      own text and editing flag live in the card (module `ResultCard`) and
      survive re-renders of the page. */
  datatype ResultsView = ResultsView(
    intent: string,
    clarityScore: int,
    grammarIssues: seq<string>,
    variants: seq<OptimizedVariant>)

  /** The results section, if rendered, as the page draws it: the intent and
      clarity score, the grammar panel under the test as written, and the
      returned variants handed to the cards, however many arrived. */
  function View(st: AppState): Option<ResultsView> {
    ViewWith(st, ShowsGrammarIssuesAsWritten(if st.result.Some? then st.result.value.originalAnalysis else Analysis([], 0, "")))
  }

  /** The results section with the corrected grammar-panel test. */
  function ViewCorrected(st: AppState): Option<ResultsView> {
    ViewWith(st, ShowsGrammarIssues(if st.result.Some? then st.result.value.originalAnalysis else Analysis([], 0, "")))
  }

  /** The results section, given whether the grammar panel opens. */
  function ViewWith(st: AppState, panelOpen: bool): Option<ResultsView> {
    if !ResultsVisible(st) then None
    else
      var data := st.result.value;
      var a := data.originalAnalysis;
      Some(ResultsView(
        a.intentDetected,
        a.clarityScore,
        if panelOpen then ShownGrammarIssues(a) else [],
        data.variants))
  }

  /** The corrected page differs from the page as written in the grammar
      panel only: both draw the results section or neither does, everything
      else drawn is the same, and the corrected panel either lists what the
      panel as written lists or is closed. */
  lemma CorrectedDiffersOnlyInGrammar(st: AppState)
    ensures View(st).Some? <==> ViewCorrected(st).Some?
    ensures View(st).Some? ==>
      View(st).value.(grammarIssues := []) == ViewCorrected(st).value.(grammarIssues := [])
    ensures View(st).Some? ==>
      ViewCorrected(st).value.grammarIssues == View(st).value.grammarIssues
      || ViewCorrected(st).value.grammarIssues == []
  {
    if st.result.Some? {
      GrammarPanelHidesNoIssuesReplies(st.result.value.originalAnalysis);
    }
  }

  /** On a page whose analysis carries the no-issues reply "Yo'q", the page as
      written lists that reply as a fixed issue, while the corrected page
      shows no grammar panel. */
  lemma NoIssuesReplyOnThePage(st: AppState, data: OptimizationResult)
    requires st.status == COMPLETE && st.result == Some(data)
    requires data.originalAnalysis.grammarIssues == ["Yo'q"]
    ensures View(st).Some? && View(st).value.grammarIssues == ["Yo'q"]
    ensures ViewCorrected(st).Some? && ViewCorrected(st).value.grammarIssues == []
  {
    UzbekNoIssuesReplyShownAsWritten();
    var a := data.originalAnalysis;
    assert ShowsGrammarIssuesAsWritten(a) && ShownGrammarIssues(a) == ["Yo'q"] by {
      assert a.grammarIssues[0] == "Yo'q";
      assert "Yo'q"[0] != "None"[0];
    }
    assert !ShowsGrammarIssues(a) by {
      assert a.grammarIssues[0] in NoIssuesReplies;
    }
  }

  /** After a successful run the page hands its cards exactly the returned
      variants. The section was not drawn on the render before, so every card
      mounts afresh: it holds its variant's text and is not in editing mode. */
  lemma SuccessMountsOneCardPerVariant(st: AppState, data: OptimizationResult)
    requires !AllWhitespace(st.input)
    ensures var cs := Commits(st, HandleOptimize(st, Success(data)).batches);
      var v := View(cs[|cs| - 1]);
      && |cs| >= 2
      && View(cs[|cs| - 2]).None?
      && v.Some?
      && v.value.variants == data.variants
      && forall i :: 0 <= i < |data.variants| ==>
           var card := ResultCard.Mount(v.value.variants[i]);
           card.content == data.variants[i].content && !card.isEditing
  {
    SuccessShowsData(st, data);
    SubmissionTrace(st, Success(data));
  }

  /** While results are shown, any action other than a new submission keeps
      them shown and hands every card the same variant, so no card's reset
      effect fires and a card's local edits survive the page's re-render. */
  lemma CardsKeepTheirVariants(st: AppState, a: Action, i: nat, m: ResultCard.Mounted)
    requires ResultsVisible(st) && !a.Optimize?
    requires i < |st.result.value.variants| && m.variant == st.result.value.variants[i]
    ensures forall s :: s in Step(st, a) ==>
      && View(s).Some? && View(s).value.variants == View(st).value.variants
      && ResultCard.Handle(m, ResultCard.NewVariant(View(s).value.variants[i])).card == m.card
  {
    ResultCard.SameTextKeepsEdits(m, m.variant);
  }

  // ---------------------------------------------------------------------
  // A session of user actions
  // ---------------------------------------------------------------------

  /** What the user can do. A submission is taken as one action covering the
      whole run: while it runs the text area is locked, the button disabled
      and the cards unmounted, and the style and complexity the user may
      still pick are neither read nor written by the run. */
  datatype Action =
    | TypeInput(text: string)
    | ChooseStyle(style: PromptStyle)
    | ChooseComplexity(complexity: ComplexityLevel)
    | Optimize(outcome: Outcome)
    | ReplaceFromCard(content: string)
    | AppendFromCard(content: string)

  /** The states an action renders, none when it cannot happen. Typing needs
      an enabled text area, a click an enabled button, and replace and append
      a rendered card. */
  function Step(st: AppState, a: Action): seq<AppState> {
    match a
    case TypeInput(text) => if InputLocked(st) then [] else [Apply(st, SetInput(text))]
    case ChooseStyle(s) => [st.(style := s)]
    case ChooseComplexity(c) => [st.(complexity := c)]
    case Optimize(outcome) =>
      if OptimizeDisabled(st) then [] else Commits(st, HandleOptimize(st, outcome).batches)
    case ReplaceFromCard(content) =>
      if ResultsVisible(st) then [HandleReplaceVariant(st, content)] else []
    case AppendFromCard(content) =>
      if ResultsVisible(st) then [HandleAppendVariant(st, content)] else []
  }

  /** The state a trace leaves the page in. */
  function Last(st: AppState, trace: seq<AppState>): AppState {
    if trace == [] then st else trace[|trace| - 1]
  }

  /** Every state rendered by a sequence of actions. */
  function Run(st: AppState, actions: seq<Action>): seq<AppState>
    decreases |actions|
  {
    if actions == [] then []
    else
      var trace := Step(st, actions[0]);
      trace + Run(Last(st, trace), actions[1..])
  }

  /** The state after a sequence of actions. */
  function After(st: AppState, actions: seq<Action>): AppState
    decreases |actions|
  {
    if actions == [] then st else After(Last(st, Step(st, actions[0])), actions[1..])
  }

  /** A result is stored exactly while the stage is COMPLETE and a non-empty
      error exactly while it is ERROR; so the results section shows whenever
      a result is stored, and an errored page never shows one. */
  predicate Consistent(st: AppState) {
    && (st.result.Some? <==> st.status == COMPLETE)
    && (st.error.Some? <==> st.status == ERROR)
    && (st.error.Some? ==> st.error.value != "")
  }

  /** Every state a real submission renders is consistent, whatever state
      it started from, and the last one is settled. */
  lemma SubmissionKeepsConsistent(st: AppState, outcome: Outcome)
    requires !AllWhitespace(st.input)
    ensures var cs := Commits(st, HandleOptimize(st, outcome).batches);
      && (forall s :: s in cs ==> Consistent(s))
      && !Busy(cs[|cs| - 1].status)
  {
    SubmissionTrace(st, outcome);
    TraceIsConsistent(st, outcome);
  }

  /** The running states and the settled state are all consistent, and the
      settled one is not busy. */
  lemma TraceIsConsistent(st: AppState, outcome: Outcome)
    ensures var cs := Trace(st, outcome);
      && (forall s :: s in cs ==> Consistent(s))
      && !Busy(cs[|cs| - 1].status)
  {
  }

  /** Every state a single action renders is consistent, and the page is
      never left mid-run between actions. */
  lemma StepKeepsConsistent(st: AppState, a: Action)
    requires Consistent(st) && !Busy(st.status)
    ensures forall s :: s in Step(st, a) ==> Consistent(s)
    ensures !Busy(Last(st, Step(st, a)).status)
  {
    match a
    case Optimize(outcome) =>
      if !OptimizeDisabled(st) {
        SubmissionKeepsConsistent(st, outcome);
      }
    case TypeInput(text) =>
    case ChooseStyle(_) =>
    case ChooseComplexity(_) =>
    case ReplaceFromCard(content) =>
      assert Step(st, a) == [] || Step(st, a) == [st.(input := content)];
    case AppendFromCard(content) =>
      assert Step(st, a) == [] || Step(st, a) == [st.(input := AppendVariant(st.input, content))];
  }

  /** From the first render on, every rendered state is consistent and every
      action leaves the page idle or settled. */
  lemma {:induction false} RunKeepsConsistent(st: AppState, actions: seq<Action>)
    requires Consistent(st) && !Busy(st.status)
    ensures forall s :: s in Run(st, actions) ==> Consistent(s)
    ensures Consistent(After(st, actions)) && !Busy(After(st, actions).status)
    decreases |actions|
  {
    if actions != [] {
      var trace := Step(st, actions[0]);
      StepKeepsConsistent(st, actions[0]);
      var next := Last(st, trace);
      assert Consistent(next);
      RunKeepsConsistent(next, actions[1..]);
    }
  }

  /** Over any session, every rendered page draws the results section exactly
      when a result is stored, and the error banner exactly when the stage is
      ERROR; the two are never drawn together. */
  lemma RenderedViewMatchesStore(st: AppState, actions: seq<Action>)
    requires Consistent(st) && !Busy(st.status)
    ensures forall s :: s in Run(st, actions) ==> (View(s).Some? <==> s.result.Some?)
    ensures forall s :: s in Run(st, actions) ==> (ErrorVisible(s) <==> s.status == ERROR)
    ensures forall s :: s in Run(st, actions) ==> !(ErrorVisible(s) && ResultsVisible(s))
  {
    RunKeepsConsistent(st, actions);
  }

  /** The initial page is consistent and idle. */
  lemma InitialIsConsistent()
    ensures Consistent(Initial) && !Busy(Initial.status) && !ResultsVisible(Initial)
  {
  }

  /** Text typed into an opened card is what a replace puts into the input,
      not the variant's original text. */
  lemma EditedCardTextReplacesInput(st: AppState, v: OptimizedVariant, text: string)
    requires ResultsVisible(st)
    ensures var card := ResultCard.Replay(ResultCard.Mounted(ResultCard.Mount(v), v),
                                          [ResultCard.Toggle, ResultCard.Type(text)]).card;
      Step(st, ReplaceFromCard(ResultCard.Payload(card))) == [st.(input := text)]
  {
    ResultCard.EditReachesPayload(v, text);
  }
}
