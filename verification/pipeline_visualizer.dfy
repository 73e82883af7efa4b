/** The four-step progress strip (components/PipelineVisualizer.tsx): which
    status each step shows for the current stage, and how a status is drawn. */
module PipelineVisualizer {
  import opened Types

  /** What a step of the strip shows. */
  datatype StepStatus = Pending | Active | Completed | Error

  /** One rendered step: its id is the stage it stands for. */
  datatype Step = Step(id: PipelineStage, caption: string, desc: string)

  /** The rendered steps, in display order. */
  const Steps: seq<Step> := [
    Step(PREPROCESSING, "Qayta ishlash", "Imlo tekshirish va Normalizatsiya"),
    Step(OPTIMIZING, "Asosiy Optimizator", "Takomillashtirish va Uslub"),
    Step(GENERATING, "Versiya Yaratish", "Variantlar Yaratish"),
    Step(FORMATTING, "Formatlovchi", "Tuzilgan Natija")
  ]

  /** The order `getStepStatus` compares positions in; a separate literal in
      the source from the rendered steps. */
  const StageOrder: seq<PipelineStage> := [PREPROCESSING, OPTIMIZING, GENERATING, FORMATTING]

  /** JavaScript's `Array.prototype.indexOf`: the first position holding `x`,
      or -1 when there is none. */
  function IndexOf(xs: seq<PipelineStage>, x: PipelineStage): (i: int)
    ensures -1 <= i < |xs|
    ensures i == -1 <==> x !in xs
    ensures 0 <= i ==> xs[i] == x && x !in xs[..i]
  {
    if |xs| == 0 then -1
    else if xs[0] == x then 0
    else
      var k := IndexOf(xs[1..], x);
      assert xs[1..] == xs[1..][..|xs| - 1];
      if k == -1 then -1
      else
        assert xs[..k + 1] == [xs[0]] + xs[1..][..k];
        k + 1
  }

  /** A stage during which the sequencer is still running. */
  predicate InProgress(stage: PipelineStage) {
    stage != IDLE && stage != COMPLETE && stage != ERROR
  }

  /** `getStepStatus`: the status of the step `stepId` while the app is in
      `currentStage`. Settled stages paint every step alike; otherwise the
      step's position is compared with the current stage's. */
  function GetStepStatus(currentStage: PipelineStage, stepId: PipelineStage): StepStatus {
    if currentStage == IDLE then Pending
    else if currentStage == COMPLETE then Completed
    else if currentStage == ERROR then Error
    else
      var currentIndex := IndexOf(StageOrder, currentStage);
      var stepIndex := IndexOf(StageOrder, stepId);
      if stepIndex < currentIndex then Completed
      else if stepIndex == currentIndex then Active
      else Pending
  }

  /** The statuses of the rendered steps, left to right. */
  function StatusRow(currentStage: PipelineStage): seq<StepStatus> {
    seq(|Steps|, i requires 0 <= i < |Steps| => GetStepStatus(currentStage, Steps[i].id))
  }

  /** `n` copies of `s`. */
  function Repeat(s: StepStatus, n: nat): seq<StepStatus> {
    seq(n, _ => s)
  }

  /** The rendered steps carry the ids of `StageOrder`, in that order, so a
      step's display position is its position in the comparison order. */
  lemma StepsFollowStageOrder()
    ensures |Steps| == |StageOrder|
    ensures forall i :: 0 <= i < |Steps| ==> Steps[i].id == StageOrder[i]
  {
  }

  /** Outside a run the strip is uniform: all pending before the first
      submission, all completed after success, all failed after an error. */
  lemma SettledStagesAreUniform()
    ensures StatusRow(IDLE) == Repeat(Pending, |Steps|)
    ensures StatusRow(COMPLETE) == Repeat(Completed, |Steps|)
    ensures StatusRow(ERROR) == Repeat(Error, |Steps|)
  {
  }

  /** No value occurs twice in `xs`. */
  predicate Distinct(xs: seq<PipelineStage>) {
    forall a, b :: 0 <= a < b < |xs| ==> xs[a] != xs[b]
  }

  /** In a sequence without repeats, `indexOf` finds an element at its own
      position. */
  lemma {:induction false} IndexOfDistinct(xs: seq<PipelineStage>, p: nat)
    requires Distinct(xs) && p < |xs|
    ensures IndexOf(xs, xs[p]) == p
  {
    if p > 0 {
      assert xs[0] != xs[p];
      assert Distinct(xs[1..]) by {
        forall a, b | 0 <= a < b < |xs| - 1
          ensures xs[1..][a] != xs[1..][b]
        {
          assert xs[1..][a] == xs[a + 1] && xs[1..][b] == xs[b + 1];
        }
      }
      assert xs[1..][p - 1] == xs[p];
      IndexOfDistinct(xs[1..], p - 1);
    }
  }

  /** Position of a stage within `StageOrder`, for an in-progress stage. */
  lemma InProgressPosition(stage: PipelineStage) returns (k: nat)
    requires InProgress(stage)
    ensures k < |StageOrder| && StageOrder[k] == stage && IndexOf(StageOrder, stage) == k
  {
    assert stage in StageOrder;
    k := IndexOf(StageOrder, stage);
  }

  /** During a run a step's status is decided by its position relative to
      the current stage's position. */
  lemma StatusByPosition(stage: PipelineStage, i: nat)
    requires InProgress(stage) && i < |StageOrder|
    ensures var k := IndexOf(StageOrder, stage);
      GetStepStatus(stage, StageOrder[i]) == (if i < k then Completed else if i == k then Active else Pending)
  {
    IndexOfDistinct(StageOrder, i);
  }

  /** The same, read off the rendered row: the step at display position
      `i` is completed, active or pending as `i` lies before, at or after the
      current stage's position. */
  lemma RowAt(stage: PipelineStage, i: nat)
    requires InProgress(stage) && i < |Steps|
    ensures var k := IndexOf(StageOrder, stage);
      StatusRow(stage)[i] == (if i < k then Completed else if i == k then Active else Pending)
  {
    StepsFollowStageOrder();
    assert StatusRow(stage)[i] == GetStepStatus(stage, StageOrder[i]);
    StatusByPosition(stage, i);
  }

  /** During a run the strip is a block of completed steps (those before the
      current stage), the current stage's step active, and a block of pending
      steps after it. */
  lemma InProgressRowShape(stage: PipelineStage)
    requires InProgress(stage)
    ensures var k := IndexOf(StageOrder, stage);
      0 <= k < |Steps| &&
      StatusRow(stage) == Repeat(Completed, k) + [Active] + Repeat(Pending, |Steps| - 1 - k)
  {
    var k := InProgressPosition(stage);
    var row := StatusRow(stage);
    var shape := Repeat(Completed, k) + [Active] + Repeat(Pending, |Steps| - 1 - k);
    forall i | 0 <= i < |Steps|
      ensures row[i] == shape[i]
    {
      RowAt(stage, i);
    }
  }

  /** During a run the active step is the one whose id is the current
      stage, and no other. */
  lemma ActiveStepIsCurrent(stage: PipelineStage)
    requires InProgress(stage)
    ensures forall i :: 0 <= i < |Steps| ==> (StatusRow(stage)[i] == Active <==> Steps[i].id == stage)
  {
    forall i | 0 <= i < |Steps|
      ensures StatusRow(stage)[i] == Active <==> Steps[i].id == stage
    {
      StepsFollowStageOrder();
      RowAt(stage, i);
      PositionOfStage(stage, i);
    }
  }

  /** An in-progress stage sits at exactly one position of `StageOrder`. */
  lemma PositionOfStage(stage: PipelineStage, i: nat)
    requires InProgress(stage) && i < |StageOrder|
    ensures StageOrder[i] == stage <==> i == IndexOf(StageOrder, stage)
  {
    var k := InProgressPosition(stage);
    IndexOfDistinct(StageOrder, i);
  }

  /** During a run exactly one step is active. */
  lemma ExactlyOneActive(stage: PipelineStage)
    requires InProgress(stage)
    ensures |ActivePositions(stage)| == 1
  {
    var k := InProgressPosition(stage);
    var row := StatusRow(stage);
    forall i | 0 <= i < |Steps|
      ensures row[i] == Active <==> i == k
    {
      RowAt(stage, i);
    }
    SingletonPositions(row, k);
  }

  /** During a run the completed steps are exactly those before the current
      stage (a prefix of the strip) and the pending steps exactly those after
      it (a suffix). */
  lemma CompletedPrefixPendingSuffix(stage: PipelineStage)
    requires InProgress(stage)
    ensures forall i :: 0 <= i < |Steps| ==>
      (StatusRow(stage)[i] == Completed <==> i < IndexOf(StageOrder, stage))
    ensures forall i :: 0 <= i < |Steps| ==>
      (StatusRow(stage)[i] == Pending <==> i > IndexOf(StageOrder, stage))
  {
    forall i | 0 <= i < |Steps|
      ensures StatusRow(stage)[i] == Completed <==> i < IndexOf(StageOrder, stage)
      ensures StatusRow(stage)[i] == Pending <==> i > IndexOf(StageOrder, stage)
    {
      RowAt(stage, i);
    }
  }

  /** The positions of the rendered steps that are active. */
  function ActivePositions(stage: PipelineStage): set<nat> {
    set i: nat | i < |Steps| && StatusRow(stage)[i] == Active
  }

  lemma SingletonPositions(row: seq<StepStatus>, k: nat)
    requires k < |row|
    requires forall i :: 0 <= i < |row| ==> (row[i] == Active <==> i == k)
    ensures (set i: nat | i < |row| && row[i] == Active) == {k}
  {
  }

  /** The stages a successful run passes through, in order. */
  const Progression: seq<PipelineStage> := [IDLE] + StageOrder + [COMPLETE]

  /** The successful progression visits no stage twice. */
  lemma ProgressionDistinct()
    ensures Distinct(Progression)
  {
  }

  /** A stage's place on the successful progression is one past its place
      in `StageOrder`; the settled ends sit at the two extremes. */
  lemma ProgressionPositions(stage: PipelineStage)
    requires stage in Progression
    ensures stage == IDLE ==> IndexOf(Progression, stage) == 0
    ensures stage == COMPLETE ==> IndexOf(Progression, stage) == |Progression| - 1
    ensures InProgress(stage) ==> IndexOf(Progression, stage) == IndexOf(StageOrder, stage) + 1
  {
    ProgressionDistinct();
    if InProgress(stage) {
      var k := InProgressPosition(stage);
      assert Progression[k + 1] == stage;
      IndexOfDistinct(Progression, k + 1);
    } else if stage == IDLE {
      IndexOfDistinct(Progression, 0);
    } else {
      IndexOfDistinct(Progression, |Progression| - 1);
    }
  }

  /** Along the successful progression a step's status is its position
      against the current stage's place on the progression: completed once
      the progression has moved past it, active while it is there, pending
      before. */
  lemma StatusByProgression(stage: PipelineStage, stepId: PipelineStage)
    requires stage in Progression && stepId in StageOrder
    ensures var p := IndexOf(Progression, stage);
      var q := IndexOf(StageOrder, stepId) + 1;
      GetStepStatus(stage, stepId) == (if q < p then Completed else if q == p then Active else Pending)
  {
    ProgressionPositions(stage);
    var p := IndexOf(Progression, stage);
    var q := IndexOf(StageOrder, stepId);
    assert 0 <= q < |StageOrder| && StageOrder[q] == stepId;
    if stage == IDLE {
      assert p == 0;
    } else if stage == COMPLETE {
      assert p == |StageOrder| + 1;
    } else {
      var k := IndexOf(StageOrder, stage);
      assert InProgress(stage) && p == k + 1;
      assert GetStepStatus(stage, stepId) == (if q < k then Completed else if q == k then Active else Pending) by {
        StatusByPosition(stage, q);
      }
    }
  }

  /** Moving the current stage forward along the successful progression
      never takes a step backwards: a completed step stays completed, and an
      active step never goes back to pending. */
  lemma AdvanceIsMonotone(before: PipelineStage, after: PipelineStage, stepId: PipelineStage)
    requires before in Progression && after in Progression
    requires IndexOf(Progression, before) <= IndexOf(Progression, after)
    requires stepId in StageOrder
    ensures GetStepStatus(before, stepId) == Completed ==> GetStepStatus(after, stepId) == Completed
    ensures GetStepStatus(before, stepId) == Active ==> GetStepStatus(after, stepId) != Pending
  {
    StatusByProgression(before, stepId);
    StatusByProgression(after, stepId);
  }

  /** Colour of a circle or label. */
  datatype Tone = Slate | Indigo | Emerald

  /** What the circle holds: a check mark, or the step's own icon. */
  datatype Badge = CheckMark | StageIcon(pulsing: bool)

  /** How a step is drawn. */
  datatype StepStyle = StepStyle(circle: Tone, text: Tone, glow: bool, badge: Badge)

  /** The drawing of a step: slate by default, indigo with a glow when
      active, emerald with a check mark when completed. */
  function StyleOf(status: StepStatus): StepStyle {
    if status == Active then StepStyle(Indigo, Indigo, true, StageIcon(true))
    else if status == Completed then StepStyle(Emerald, Emerald, false, CheckMark)
    else StepStyle(Slate, Slate, false, StageIcon(false))
  }

  /** A failed step is drawn exactly like a pending one; only active and
      completed steps change from the default drawing, and they differ from
      each other. */
  lemma OnlyActiveAndCompletedRestyle(status: StepStatus)
    ensures StyleOf(Error) == StyleOf(Pending)
    ensures StyleOf(status) != StyleOf(Pending) <==> status == Active || status == Completed
    ensures StyleOf(Active) != StyleOf(Completed)
  {
  }
}
