# PromptTune page logic in Dafny

PromptTune is a single-page React app. The user types a rough prompt, picks a
style and a complexity, and presses the optimise button. The page sends one
request to a remote language model. While the request is pending, a cosmetic
four-step progress strip (preprocessing, optimising, generating, formatting)
runs. At the end the page shows the model's analysis of the prompt and a set
of rewritten variants as cards. Each card can be edited locally. A card's text
can replace the prompt or be appended to it.

This project models the logic that sits behind that page:

- `types.dfy` (module `Types`): the data shapes of `types.ts`. The outcome of
  the remote call is an abstract `Success(data) | Failure(message)`.
- `js_string.dfy` (module `JsString`): JavaScript's `String.prototype.trim`.
  It is defined over the fixed ECMAScript whitespace and line-terminator set.
  The module proves that trimming returns the unique "core" slice of its
  input and that trimming is idempotent.
- `pipeline_visualizer.dfy` (module `PipelineVisualizer`): `getStepStatus`,
  the four rendered steps, and how a status is drawn. The module proves the
  shape of the strip: settled stages paint it uniformly; during a run it is a
  completed prefix, one active step and a pending suffix; advancing never
  moves a step backwards.
- `result_card.dfy` (module `ResultCard`): the local state of a variant card.
  This covers its text and editing flag, the reset effect keyed on the
  variant text, the edit toggle, and the payload handed to replace and
  append.
- `app.dfy` (module `App`): the page state and the submission handler with
  its stage sequencer.
  - React commits the setter calls made between two `await`s together. The
    model therefore describes a submission as a list of update batches and
    the states rendered after each batch.
  - It also covers the predicates that lock the controls and reveal
    results, the replace/append actions, the grammar-issue panel, and whole
    sessions of user actions.
  - Its main invariant is that a stored result goes with COMPLETE and a
    non-empty error with ERROR, and that this holds in every rendered state.

## Model

| member | source | states |
|---|---|---|
| App.SubmissionBatches | App.tsx:20-63 | Computes the update batches of a real submission: clear the error and result and enter the first stage, one batch per timer for the next three stages, then the settling batch. Characterised by App.SubmissionTrace, App.StagesInOrder and App.ClearsBeforeAnyStage. |
| App.SettleUpdates | App.tsx:57-63 | Computes the settling batch: on success store the data and set COMPLETE; on failure store the message (or the fallback) and set ERROR. Characterised by App.SettleTrail, App.SuccessShowsData and App.FailureShowsMessage. |
| App.SequencerCalls | App.tsx:20-38 | The calls made before the remote call is awaited are: clear the error, clear the result, then set the four simulated stages in order. |
| App.HandleOptimize | App.tsx:34-48 | A submission goes ahead exactly when the prompt is not all whitespace. A blank prompt produces no request and no state change. Otherwise one request carries the untrimmed prompt with the current style and complexity. |
| App.ClearsBeforeAnyStage | App.tsx:37-50 | The first two setter calls of a real submission clear the error and the result, before any stage is set. |
| App.StagesInOrder | App.tsx:20-63 | The stages a real submission sets are PREPROCESSING, OPTIMIZING, GENERATING, FORMATTING in that order, followed by exactly one terminal stage (COMPLETE on success, ERROR on failure). |
| App.StagesOnceEach | App.tsx:20-63 | The sequencer's stage list is the progress strip's comparison order. The stages a real submission sets repeat none. |
| App.SubmissionTrace | App.tsx:34-64 | A real submission renders four running states (stage i, result and error cleared, the user's choices kept), then the settled state. The outcome cannot show before the sequencer has finished. |
| App.RunningStatesAreLocked | App.tsx:125-134 | Every state rendered while the sequencer runs has the controls locked and no result visible. |
| App.SuccessShowsData | App.tsx:57-60 | After a successful run the last state is COMPLETE, holds the returned data and no error, and shows the results. |
| App.FailureShowsMessage | App.tsx:61-63 | After a failed run the last state is ERROR, holds no result, and shows the error banner. The message is the thrown message, or the fixed fallback when that message is empty. |
| App.ErrorMessage | App.tsx:62 | The shown error message is never empty, and it is the thrown message whenever that message is non-empty. |
| App.InputLocked | App.tsx:125 | Computes the text area's `disabled` test: a run in progress. Characterised by App.LockingMatchesRun and App.RunningStatesAreLocked. |
| App.ErrorVisible | App.tsx:212-217 | Computes the error banner's test: a non-empty message is stored. Characterised by App.FailureShowsMessage, App.SuccessShowsData and App.RenderedViewMatchesStore. |
| App.OptimizeDisabled | App.tsx:134 | Computes the button's `disabled` test: a run in progress, or a prompt that trims to nothing. Characterised by App.LockingMatchesRun. |
| App.ResultsVisible | App.tsx:220 | Computes the results-section test: a result is stored and the stage is COMPLETE. Characterised by App.RunKeepsConsistent, App.SuccessShowsData and App.RunningStatesAreLocked. |
| App.LockingMatchesRun | App.tsx:125-134 | The text area is locked exactly while the stage is none of IDLE, COMPLETE and ERROR. The button is disabled exactly when the page is locked or the prompt is all whitespace. |
| App.SubmissionKeepsConsistent | App.tsx:37-63 | From any starting state, every state a real submission renders pairs a stored result with COMPLETE and a non-empty error with ERROR, and the run ends settled. |
| App.StepKeepsConsistent | App.tsx:34-79 | Every user action (typing, choosing, optimising, replacing, appending) renders only consistent states and leaves the page idle or settled. |
| App.Step | App.tsx:122-261 | Computes the states one user action renders. Typing needs the text area enabled, optimising needs the button enabled, and replace or append needs a rendered card; style and complexity can always be chosen. Characterised by App.StepKeepsConsistent and App.RunKeepsConsistent. |
| App.RunKeepsConsistent | App.tsx:9-79 | Across any sequence of user actions every rendered state is consistent, so results show exactly when a result is stored, and an errored page never shows a result. |
| App.RenderedViewMatchesStore | App.tsx:212-264 | On every page a session renders, the results section is drawn exactly when a result is stored. The error banner is drawn exactly when the stage is ERROR. The two are never drawn together. |
| App.InitialIsConsistent | App.tsx:9-15 | The first render is consistent, idle, and shows no results. |
| App.HandleReplaceVariant | App.tsx:67-70 | Computes `handleReplaceVariant`: the input becomes the given text. Characterised by App.ReplaceDiscardsPrior. |
| App.AppendVariant | App.tsx:72-77 | Computes the new input of `handleAppendVariant` from the prior input and the given text. Characterised by App.AppendOntoBlank, App.AppendOntoText and App.AppendKeepsCore. |
| App.HandleAppendVariant | App.tsx:72-77 | Computes `handleAppendVariant` on the page state: only the input changes, to App.AppendVariant of the prior input. Characterised by the same three lemmas. |
| App.ReplaceDiscardsPrior | App.tsx:67-70 | Replacing sets the input to the given text as is. Two replaces equal the last one. Nothing but the input changes. |
| App.AppendOntoBlank | App.tsx:72-77 | Appending onto an input that is all whitespace yields exactly the appended text. |
| App.AppendOntoText | App.tsx:72-77 | Appending onto non-empty text with no surrounding whitespace yields that text, a blank line, then the appended text. |
| App.AppendKeepsCore | App.tsx:72-77 | Appending onto a non-blank input yields the input's core slice, a blank line, and the appended text, which is not trimmed. |
| App.ShownGrammarIssues | App.tsx:245 | At most the first two issues are listed: a prefix of the list whose length is the smaller of two and the list's length. |
| App.GrammarPanelHidesNoIssuesReplies | App.tsx:241-245 | The corrected panel never opens on an empty list or on a no-issues reply ("None" or "Yo'q"). Otherwise it agrees with the panel as written. When open it lists one or two entries, and the first listed entry is not a no-issues reply; a later entry is not examined. |
| App.ShowsGrammarIssuesAsWritten | App.tsx:241 | Computes the grammar panel's test as written: the list is non-empty and its first entry is not "None". Characterised by App.UzbekNoIssuesReplyShownAsWritten and App.GrammarPanelHidesNoIssuesReplies. |
| App.UzbekNoIssuesReplyShownAsWritten | App.tsx:241 | The panel as written opens on the list ["Yo'q"] and lists that reply as an issue. |
| App.ViewWith | App.tsx:220-264 | Computes the results section, given whether the grammar panel opens. The cards are drawn as the variants the page hands them, since their text and editing flag are card-local state. Characterised by App.CorrectedDiffersOnlyInGrammar, App.RenderedViewMatchesStore, App.SuccessMountsOneCardPerVariant and App.CardsKeepTheirVariants. |
| App.View | App.tsx:220-264 | Computes the results section as the page draws it, with the grammar panel under the test as written. Characterised by App.RenderedViewMatchesStore, App.SuccessMountsOneCardPerVariant and App.NoIssuesReplyOnThePage. |
| App.ViewCorrected | App.tsx:220-264 | Computes the results section with the corrected grammar-panel test. Characterised by App.CorrectedDiffersOnlyInGrammar and App.NoIssuesReplyOnThePage. |
| App.CorrectedDiffersOnlyInGrammar | App.tsx:220-264 | The corrected page and the page as written draw the results section on the same pages. Apart from the grammar entries they draw the same intent, score and card variants. The corrected panel lists what the panel as written lists, or nothing. |
| App.NoIssuesReplyOnThePage | App.tsx:241-250 | On a completed page whose analysis is ["Yo'q"], the page as written lists "Yo'q" as a fixed issue. The corrected page shows no grammar entries. |
| App.SuccessMountsOneCardPerVariant | App.tsx:220-264 | After a successful run the page hands its cards exactly the returned variants. The section was not drawn on the render before, so each card mounts afresh, showing its variant's text and not in editing mode. |
| App.CardsKeepTheirVariants | App.tsx:255-262 | While results are shown, typing, choosing, replacing and appending keep the section drawn and hand every card the same variant. So a card's reset effect (components/ResultCard.tsx:17-19) leaves its edited text and editing flag alone. |
| App.EditedCardTextReplacesInput | components/ResultCard.tsx:64-66 | Text typed into an opened card, not the variant's original text, is what a replace puts into the input. |
| JsString.Trim | App.tsx:35 | The trimmed text is empty exactly when the input is all whitespace. It is never longer than the input and has no whitespace at either end. |
| JsString.TrimIsCoreSlice | App.tsx:74 | Trimming cuts its input at two positions: everything outside the returned slice is whitespace, and the slice has no whitespace at its ends. |
| JsString.TrimUnique | App.tsx:74 | Any slice with whitespace outside it and none at its ends is exactly what trimming returns. |
| JsString.TrimIdempotent | App.tsx:74 | Trimming twice is the same as trimming once. |
| PipelineVisualizer.IndexOf | components/PipelineVisualizer.tsx:31-32 | `indexOf` returns -1 exactly when the value is absent. Otherwise it returns a position holding the value with no earlier occurrence. |
| PipelineVisualizer.StatusRow | components/PipelineVisualizer.tsx:46-47 | Computes the status of each rendered step, in the order the steps are drawn. Characterised by PipelineVisualizer.SettledStagesAreUniform, InProgressRowShape, ExactlyOneActive and CompletedPrefixPendingSuffix. |
| PipelineVisualizer.GetStepStatus | components/PipelineVisualizer.tsx:25-37 | Computes `getStepStatus`. Characterised by PipelineVisualizer.SettledStagesAreUniform, InProgressRowShape, ActiveStepIsCurrent, CompletedPrefixPendingSuffix and StatusByProgression. |
| PipelineVisualizer.StepsFollowStageOrder | components/PipelineVisualizer.tsx:17-30 | The rendered steps carry the four ids of the comparison order, in the same order. |
| PipelineVisualizer.SettledStagesAreUniform | components/PipelineVisualizer.tsx:26-28 | IDLE makes every step pending, COMPLETE makes every step completed, and ERROR makes every step failed. |
| PipelineVisualizer.InProgressRowShape | components/PipelineVisualizer.tsx:30-36 | During a run the row of statuses is a block of completed steps, one active step at the current stage's position, then a block of pending steps. |
| PipelineVisualizer.ActiveStepIsCurrent | components/PipelineVisualizer.tsx:30-36 | During a run a step is active exactly when its id is the current stage. |
| PipelineVisualizer.ExactlyOneActive | components/PipelineVisualizer.tsx:30-36 | During a run the set of active positions has exactly one element. |
| PipelineVisualizer.CompletedPrefixPendingSuffix | components/PipelineVisualizer.tsx:30-36 | During a run a step is completed exactly when it lies before the current stage, and pending exactly when it lies after. |
| PipelineVisualizer.StatusByProgression | components/PipelineVisualizer.tsx:25-36 | Along IDLE, the four stages, then COMPLETE, a step's status is decided by comparing its position with the current stage's place on that progression. |
| PipelineVisualizer.AdvanceIsMonotone | components/PipelineVisualizer.tsx:25-36 | Moving forward along the successful progression never turns a completed step back, and never turns an active step back to pending. |
| PipelineVisualizer.StyleOf | components/PipelineVisualizer.tsx:50-71 | Computes how a step is drawn from its status: circle and text colour, glow, and check mark or pulsing icon. Characterised by PipelineVisualizer.OnlyActiveAndCompletedRestyle. |
| PipelineVisualizer.OnlyActiveAndCompletedRestyle | components/PipelineVisualizer.tsx:50-61 | A failed step is drawn like a pending one. Only active and completed steps differ from the default drawing, and they differ from each other. |
| ResultCard.Mount | components/ResultCard.tsx:14-15 | Computes the state of a newly mounted card: the variant's text, not editing. Characterised by ResultCard.FreshCardShowsVariant. |
| ResultCard.ReceiveVariant | components/ResultCard.tsx:17-19 | Computes the reset effect: a variant with different text replaces the card's text; the same text leaves the card alone. Characterised by ResultCard.NewTextDiscardsEdits and ResultCard.SameTextKeepsEdits. |
| ResultCard.ToggleEdit | components/ResultCard.tsx:27-29 | Computes `toggleEdit`. Characterised by ResultCard.ToggleFlipsOnlyEditing and ResultCard.ToggleTwiceIsIdentity. |
| ResultCard.EditText | components/ResultCard.tsx:52-59 | Computes a change event of the read-only-unless-editing text area. Characterised by ResultCard.ReadOnlyIgnoresTyping and ResultCard.EditReachesPayload. |
| ResultCard.Payload | components/ResultCard.tsx:64-74 | Computes what replace and append hand on: the card's current text. Characterised by ResultCard.EditReachesPayload and App.EditedCardTextReplacesInput. |
| ResultCard.FreshCardShowsVariant | components/ResultCard.tsx:14-15 | A freshly mounted card shows the variant's text, read-only. Typing before editing is switched on does not change it, and it is the card's payload. |
| ResultCard.ToggleFlipsOnlyEditing | components/ResultCard.tsx:27-29 | The edit button flips the editing flag and keeps the card's text. |
| ResultCard.ToggleTwiceIsIdentity | components/ResultCard.tsx:27-29 | Toggling twice restores the card. |
| ResultCard.NewTextDiscardsEdits | components/ResultCard.tsx:17-19 | A variant with different text resets the card's text to it, even while the card is being edited. The editing flag is untouched. |
| ResultCard.SameTextKeepsEdits | components/ResultCard.tsx:17-19 | Re-rendering with a variant of the same text leaves the card as it is, local edits included. |
| ResultCard.UntouchedCardShowsVariant | components/ResultCard.tsx:14-19 | A card nobody has typed into always shows its current variant's text, whatever toggling and re-rendering happened. |
| ResultCard.ReadOnlyIgnoresTyping | components/ResultCard.tsx:52-59 | While the card is read-only, any run of typing leaves it unchanged. |
| ResultCard.EditReachesPayload | components/ResultCard.tsx:59-74 | Opening the editor and typing puts the typed text into what replace and append hand on. |

## Left out

- App.View: the page model draws the props each card receives, not the card's local text and editing flag. That state is modelled per card in `ResultCard`. App.CardsKeepTheirVariants links the two: a card at a fixed position keeps its state while results stay shown.
- services/geminiService.ts is not part of this model. It covers the network call, the reading of the API key from the environment, `JSON.parse` of the reply, and the prompt templates. Its effect is an abstract `Outcome`. A successful reply is assumed to be a non-null object with every field of the response schema present (services/geminiService.ts:44-81), because the schema is what the model is told to return. The client itself checks nothing after `JSON.parse` (services/geminiService.ts:90). A `null` reply would commit COMPLETE with no result, and a reply without `originalAnalysis` would crash the results section; neither is modelled. Any number of variants is allowed.
- Timer durations and the interleaving of the timers with the remote call are left out. The sequencer is a fixed list of update batches. The outcome is applied after the last timer, which is the order the code's two `await`s impose.
- React batching is an assumption of the model. The setter calls made in one synchronous stretch form one rendered state. This is React 18's automatic batching.
- The session model treats a submission as one atomic action. During a run the text area is locked, the button is disabled and the cards are unmounted, so only the style and complexity pickers remain usable. A submission neither reads nor writes them after it has started.
- The clipboard copy, the two-second "copied" flag and `window.scrollTo` are left out. They are browser I/O and timers with no effect on the modelled state.
- JSX layout, CSS classes and icons are left out, except the step-status-to-drawing mapping.
- `clarityScore` is an integer, not a JavaScript number. It is only displayed. The width-percentage rendering and the character counter under the text area are left out.
- `getStepStatus` takes its step id as a `PipelineStage`, not an arbitrary string. Every call site passes one of the four rendered ids.
- A missing `e.message` (`undefined`) is modelled as the empty string. Both are falsy, so both fall back to the fixed message.
- JsString.Trim: has no Unicode database. It uses the fixed list of ECMAScript whitespace and line-terminator code points. Under the current Unicode version that list is the category Zs characters plus the listed controls.

## Findings

| source | as written | input that shows it | evidently intended | confidence | as-written member | corrected member |
|---|---|---|---|---|---|---|
| App.tsx:241 | The grammar panel is hidden only when the first issue is the English string "None". | `grammarIssues = ["Yo'q"]`, the reply the response schema in services/geminiService.ts:53 tells the model to give when there are no issues. | Hide the panel for the no-issues reply, whichever language it comes in. | medium, not executed | App.UzbekNoIssuesReplyShownAsWritten (panel predicate App.ShowsGrammarIssuesAsWritten, used by App.View) | App.GrammarPanelHidesNoIssuesReplies and App.NoIssuesReplyOnThePage (panel predicate App.ShowsGrammarIssues, used by App.ViewCorrected) |
