/** Phases of a run, first persistent events on a checkpoint grid, and how two events are ordered
    (`_classify_phase`, `persistent_event` and the relation part of `run_event_rows`). */
module PersistentEvents {
  import opened Reals
  import opened Options
  import opened Orders

  datatype Goal = P | Q | Y

  const GOALS: seq<Goal> := [P, Q, Y]
  const BEHAVIOR_THRESHOLD := 0.90
  const CAUSAL_THRESHOLD := 0.90
  const PURE_MARGIN := 0.10
  const PERSISTENCE := 2

  /** One score per goal. */
  type Scores = Goal -> real

  /** A goal in pure control, or "D". */
  datatype Phase = Pure(goal: Goal) | Diffuse

  /** `goal` leads both score sets by the margin, past both thresholds. */
  predicate Controls(goal: Goal, behavior: Scores, causal: Scores) {
    && behavior(goal) >= BEHAVIOR_THRESHOLD
    && causal(goal) >= CAUSAL_THRESHOLD
    && forall other: Goal | other != goal ::
         behavior(goal) - behavior(other) >= PURE_MARGIN && causal(goal) - causal(other) >= PURE_MARGIN
  }

  /** The phase is pure exactly for a goal that controls; the margin excludes two candidates, so
      "D" means that none controls. */
  method ClassifyPhase(behavior: Scores, causal: Scores) returns (phase: Phase)
    ensures forall goal :: phase == Pure(goal) <==> Controls(goal, behavior, causal)
    ensures forall goal :: phase == Pure(goal) <==>
      && behavior(goal) >= 0.9 && causal(goal) >= 0.9
      && forall other: Goal | other != goal ::
           behavior(goal) - behavior(other) >= 0.1 && causal(goal) - causal(other) >= 0.1
  {
    var candidates: seq<Goal> := [];
    for i := 0 to |GOALS|
      invariant forall g :: g in candidates <==> g in GOALS[..i] && Controls(g, behavior, causal)
      invariant |candidates| <= 1
    {
      var goal := GOALS[i];
      assert goal !in GOALS[..i] && (candidates == [] || candidates[0] in candidates);
      assert GOALS[..i + 1] == GOALS[..i] + [goal];
      var others := match goal case P => (Q, Y) case Q => (P, Y) case Y => (P, Q);
      if behavior(goal) >= BEHAVIOR_THRESHOLD
         && causal(goal) >= CAUSAL_THRESHOLD
         && behavior(goal) - Max(behavior(others.0), behavior(others.1)) >= PURE_MARGIN
         && causal(goal) - Max(causal(others.0), causal(others.1)) >= PURE_MARGIN
      {
        assert Controls(goal, behavior, causal);
        assert candidates == [] by {
          OneController(behavior, causal);
        }
        candidates := candidates + [goal];
      } else {
        assert !Controls(goal, behavior, causal);
      }
    }
    assert GOALS[..|GOALS|] == GOALS;
    forall g: Goal ensures g in GOALS {
      AllGoals(g);
    }
    phase := if |candidates| == 1 then Pure(candidates[0]) else Diffuse;
  }

  /** Two goals cannot both lead by the margin. */
  lemma {:induction false} OneController(behavior: Scores, causal: Scores)
    ensures forall g, h | Controls(g, behavior, causal) && Controls(h, behavior, causal) :: g == h
  {
  }

  lemma {:induction false} AllGoals(goal: Goal)
    ensures goal in GOALS
  {
    assert GOALS[match goal case P => 0 case Q => 1 case Y => 2] == goal;
  }

  // ---------------------------------------------------------------- persistent events

  datatype Censoring = Left | Interval | Right

  datatype Event = Event(observed: bool, eventStep: Option<int>, confirmationStep: Option<int>,
                         lowerBound: int, upperBound: Option<int>, censoring: Censoring, restrictedStep: int)

  predicate SortedSteps(steps: seq<int>) {
    forall i, j | 0 <= i < j < |steps| :: steps[i] <= steps[j]
  }

  predicate Grid(steps: seq<int>) {
    && |steps| >= PERSISTENCE
    && steps[0] >= 0
    && Increasing(steps)
  }

  predicate TwoInARow(flags: seq<bool>, i: nat) {
    i + 1 < |flags| && flags[i] && flags[i + 1]
  }

  /** The first place from `from` on where two flags in a row hold, or the length. */
  function FirstPair(flags: seq<bool>, from: nat): (i: nat)
    requires from <= |flags|
    ensures from <= i <= |flags|
    ensures i < |flags| ==> TwoInARow(flags, i)
    ensures forall k | from <= k < i :: !TwoInARow(flags, k)
    decreases |flags| - from
  {
    if from == |flags| || TwoInARow(flags, from) then from else FirstPair(flags, from + 1)
  }

  function EventFrom(steps: seq<int>, i: nat): Event
    requires i + 1 < |steps|
  {
    Event(true, Some(steps[i]), Some(steps[i + 1]), if i == 0 then 0 else steps[i - 1], Some(steps[i]),
          if i == 0 then Left else Interval, steps[i])
  }

  function EventOf(steps: seq<int>, flags: seq<bool>, horizon: int): Result<Event> {
    if |steps| != |flags| || |steps| < PERSISTENCE then
      Err("persistent event requires aligned steps and at least two observations")
    else if !SortedSteps(steps) then Err("event steps must be sorted")
    else
      var i := FirstPair(flags, 0);
      Ok(if i < |flags| then EventFrom(steps, i) else Event(false, None, None, horizon, None, Right, horizon))
  }

  lemma {:induction false} SortedByNeighbours(steps: seq<int>)
    ensures SortedSteps(steps) <==> forall i | 0 < i < |steps| :: steps[i - 1] <= steps[i]
  {
    if forall i | 0 < i < |steps| :: steps[i - 1] <= steps[i] {
      forall i, j | 0 <= i < j < |steps| ensures steps[i] <= steps[j] {
        StepsRise(steps, i, j);
      }
    }
  }

  lemma {:induction false} StepsRise(steps: seq<int>, i: nat, j: nat)
    requires i <= j < |steps| && forall k | 0 < k < |steps| :: steps[k - 1] <= steps[k]
    ensures steps[i] <= steps[j]
  {
    if i < j {
      StepsRise(steps, i, j - 1);
      assert steps[j - 1] <= steps[j];
    }
  }

  /** The source's scan with its early returns. */
  method PersistentEvent(steps: seq<int>, flags: seq<bool>, horizon: int) returns (result: Result<Event>)
    ensures result == EventOf(steps, flags, horizon)
    ensures result.Ok? <==> |steps| == |flags| >= 2 && forall i | 0 < i < |steps| :: steps[i - 1] <= steps[i]
  {
    SortedByNeighbours(steps);
    if |steps| != |flags| || |steps| < PERSISTENCE {
      return Err("persistent event requires aligned steps and at least two observations");
    }
    if !SortedSteps(steps) {
      return Err("event steps must be sorted");
    }
    for index := 0 to |steps| - 1
      invariant forall k | 0 <= k < index :: !TwoInARow(flags, k)
    {
      if flags[index] && flags[index + 1] {
        assert TwoInARow(flags, index);
        var step := steps[index];
        if index == 0 {
          return Ok(Event(true, Some(step), Some(steps[index + 1]), 0, Some(step), Left, step));
        }
        return Ok(Event(true, Some(step), Some(steps[index + 1]), steps[index - 1], Some(step), Interval, step));
      }
    }
    result := Ok(Event(false, None, None, horizon, None, Right, horizon));
  }

  /** The event sits at checkpoint `i`: its flag and the next one hold, nothing persisted earlier, and
      the lower bound is the last checkpoint before it, where the flag failed. */
  ghost predicate Brackets(steps: seq<int>, flags: seq<bool>, event: Event, i: nat) {
    && |steps| == |flags| && i + 1 < |steps| && flags[i] && flags[i + 1]
    && (forall k | 0 <= k < i :: !(flags[k] && flags[k + 1]))
    && event.eventStep == event.upperBound == Some(steps[i]) && event.confirmationStep == Some(steps[i + 1])
    && event.restrictedStep == steps[i]
    && (i == 0 ==> event.censoring == Left && event.lowerBound == 0)
    && (i > 0 ==> event.censoring == Interval && event.lowerBound == steps[i - 1] && !flags[i - 1])
  }

  /** An observed event is bracketed by a failing and two holding checkpoints; an unobserved one means
      that no two flags in a row hold, and is censored at the horizon. */
  lemma {:induction false} EventIsBracketed(steps: seq<int>, flags: seq<bool>, horizon: int)
    requires |steps| == |flags| >= PERSISTENCE && SortedSteps(steps)
    ensures EventOf(steps, flags, horizon).Ok?
    ensures var event := EventOf(steps, flags, horizon).value;
      && (event.observed ==> exists i :: Brackets(steps, flags, event, i))
      && (!event.observed ==> event == Event(false, None, None, horizon, None, Right, horizon))
      && (!event.observed ==> forall k | 0 <= k < |flags| - 1 :: !(flags[k] && flags[k + 1]))
  {
    var i := FirstPair(flags, 0);
    forall k | 0 <= k < i && k + 1 < |flags| ensures !(flags[k] && flags[k + 1]) {
      assert !TwoInARow(flags, k);
    }
    if i < |flags| {
      assert Brackets(steps, flags, EventFrom(steps, i), i);
    }
  }

  predicate Implied(flags: seq<bool>, weaker: seq<bool>) {
    |flags| == |weaker| && forall i | 0 <= i < |flags| :: flags[i] ==> weaker[i]
  }

  /** Weaker flags fire no later. */
  lemma {:induction false} EventIsAntitone(steps: seq<int>, flags: seq<bool>, weaker: seq<bool>, horizon: int)
    requires Implied(flags, weaker)
    ensures EventOf(steps, flags, horizon).Ok? <==> EventOf(steps, weaker, horizon).Ok?
    ensures EventOf(steps, flags, horizon).Ok? && EventOf(steps, flags, horizon).value.observed ==>
      var event, earlier := EventOf(steps, flags, horizon).value, EventOf(steps, weaker, horizon).value;
      && earlier.observed
      && earlier.eventStep.value <= event.eventStep.value
  {
    var i := FirstPair(flags, 0);
    if i < |flags| {
      assert TwoInARow(weaker, i);
      assert FirstPair(weaker, 0) <= i;
    }
  }

  // ---------------------------------------------------------------- a run's checkpoints

  const GENERIC_PROBE_THRESHOLD := 0.95
  const SELECTIVE_PROBE_ACCURACY := 0.90
  const SELECTIVE_PROBE_MARGIN := 0.20

  datatype Checkpoint = Checkpoint(step: int, behavior: Scores, causal: Scores, probe: Scores, selectivity: Scores,
                                   phase: Phase)

  /** The stages whose persistence the competition checkpoints date. */
  datatype Stage = ProbeGeneric | ProbeSelective | Behavior | Causal | Control

  predicate Passes(row: Checkpoint, stage: Stage, goal: Goal) {
    match stage
    case ProbeGeneric => row.probe(goal) >= GENERIC_PROBE_THRESHOLD
    case ProbeSelective =>
      row.probe(goal) >= SELECTIVE_PROBE_ACCURACY && row.selectivity(goal) >= SELECTIVE_PROBE_MARGIN
    case Behavior => row.behavior(goal) >= BEHAVIOR_THRESHOLD
    case Causal => row.causal(goal) >= CAUSAL_THRESHOLD
    case Control => row.phase == Pure(goal)
  }

  /** The recorded phase is the classified one. */
  ghost predicate Classified(row: Checkpoint) {
    forall goal :: row.phase == Pure(goal) <==> Controls(goal, row.behavior, row.causal)
  }

  function Steps(rows: seq<Checkpoint>): (s: seq<int>)
    ensures |s| == |rows| && forall i | 0 <= i < |s| :: s[i] == rows[i].step
  {
    if rows == [] then [] else [rows[0].step] + Steps(rows[1..])
  }

  function StageFlags(rows: seq<Checkpoint>, stage: Stage, goal: Goal): (flags: seq<bool>)
    ensures |flags| == |rows| && forall i | 0 <= i < |flags| :: flags[i] == Passes(rows[i], stage, goal)
  {
    if rows == [] then [] else [Passes(rows[0], stage, goal)] + StageFlags(rows[1..], stage, goal)
  }

  function Phases(rows: seq<Checkpoint>): (phases: seq<Phase>)
    ensures |phases| == |rows| && forall i | 0 <= i < |phases| :: phases[i] == rows[i].phase
  {
    if rows == [] then [] else [rows[0].phase] + Phases(rows[1..])
  }

  /** The event of one stage of one goal. */
  function StageEvent(rows: seq<Checkpoint>, stage: Stage, goal: Goal, horizon: int): Result<Event> {
    EventOf(Steps(rows), StageFlags(rows, stage, goal), horizon)
  }

  lemma {:induction false} PureScores(row: Checkpoint, goal: Goal)
    requires Classified(row) && Passes(row, Control, goal)
    ensures Passes(row, Behavior, goal) && Passes(row, Causal, goal)
  {
  }

  lemma {:induction false} EventIsDefined(steps: seq<int>, flags: seq<bool>, horizon: int)
    ensures EventOf(steps, flags, horizon).Ok? <==> |steps| == |flags| && |steps| >= PERSISTENCE && SortedSteps(steps)
    ensures EventOf(steps, flags, horizon).Ok? ==>
      (EventOf(steps, flags, horizon).value.observed <==> EventOf(steps, flags, horizon).value.eventStep.Some?)
  {
  }

  /** An observed event at or before `pure`. */
  ghost predicate NoLater(event: Event, pure: Event) {
    && event.observed && event.eventStep.Some?
    && pure.eventStep.Some? && event.eventStep.value <= pure.eventStep.value
  }

  lemma {:induction false} WeakerStageIsImplied(rows: seq<Checkpoint>, stage: Stage, weaker: Stage, goal: Goal)
    requires forall row | row in rows :: Passes(row, stage, goal) ==> Passes(row, weaker, goal)
    ensures Implied(StageFlags(rows, stage, goal), StageFlags(rows, weaker, goal))
  {
    hide Passes;
  }

  /** A stage that every passing row of another stage passes is no later. */
  lemma {:induction false} WeakerStageIsNoLater(rows: seq<Checkpoint>, stage: Stage, weaker: Stage, goal: Goal,
                                                horizon: int)
    requires |rows| >= PERSISTENCE && SortedSteps(Steps(rows))
    requires forall row | row in rows :: Passes(row, stage, goal) ==> Passes(row, weaker, goal)
    ensures StageEvent(rows, stage, goal, horizon).Ok? && StageEvent(rows, weaker, goal, horizon).Ok?
    ensures StageEvent(rows, stage, goal, horizon).value.observed ==>
      NoLater(StageEvent(rows, weaker, goal, horizon).value, StageEvent(rows, stage, goal, horizon).value)
  {
    hide EventOf, Passes, Implied, Steps, StageFlags, SortedSteps;
    var steps, flags, weakerFlags := Steps(rows), StageFlags(rows, stage, goal), StageFlags(rows, weaker, goal);
    WeakerStageIsImplied(rows, stage, weaker, goal);
    EventIsDefined(steps, flags, horizon);
    EventIsDefined(steps, weakerFlags, horizon);
    EventIsAntitone(steps, flags, weakerFlags, horizon);
  }

  /** On every run, an observed pure event comes with observed behavior and causal events of the
      same goal, neither of them later. */
  lemma {:induction false} PureNeedsBehaviorAndCausal(rows: seq<Checkpoint>, goal: Goal, horizon: int)
    requires |rows| >= PERSISTENCE && SortedSteps(Steps(rows))
    requires forall row | row in rows :: Classified(row)
    ensures forall stage :: StageEvent(rows, stage, goal, horizon).Ok?
    ensures var pure := StageEvent(rows, Control, goal, horizon).value;
      pure.observed ==>
        && NoLater(StageEvent(rows, Behavior, goal, horizon).value, pure)
        && NoLater(StageEvent(rows, Causal, goal, horizon).value, pure)
  {
    hide EventOf, Controls, Classified, Passes, NoLater;
    forall stage: Stage ensures StageEvent(rows, stage, goal, horizon).Ok? {
      EventIsDefined(Steps(rows), StageFlags(rows, stage, goal), horizon);
    }
    forall row | row in rows && Passes(row, Control, goal)
      ensures Passes(row, Behavior, goal) && Passes(row, Causal, goal)
    {
      PureScores(row, goal);
    }
    WeakerStageIsNoLater(rows, Control, Behavior, goal, horizon);
    WeakerStageIsNoLater(rows, Control, Causal, goal, horizon);
  }

  // ---------------------------------------------------------------- the order of two events

  datatype Relation = CensoredPair | LeftBeforeRight | RightBeforeLeft | Unresolved

  function IntervalRelation(left: Event, right: Event): Relation {
    if !left.observed || !right.observed then CensoredPair
    else if left.upperBound.Some? && left.upperBound.value < right.lowerBound then LeftBeforeRight
    else if right.upperBound.Some? && right.upperBound.value < left.lowerBound then RightBeforeLeft
    else Unresolved
  }

  function Lag(left: Event, right: Event): Option<int> {
    if left.observed && right.observed && left.eventStep.Some? && right.eventStep.Some?
    then Some(right.eventStep.value - left.eventStep.value) else None
  }

  /** On one grid, two observed events are unresolved exactly when they fire at the same or at
      neighbouring checkpoints; otherwise the relation names the earlier one, with the sign of the lag. */
  lemma {:induction false} RelationNamesTheEarlier(steps: seq<int>, leftFlags: seq<bool>, rightFlags: seq<bool>,
                                                   horizon: int)
    requires Grid(steps) && |leftFlags| == |rightFlags| == |steps|
    ensures EventOf(steps, leftFlags, horizon).Ok? && EventOf(steps, rightFlags, horizon).Ok?
    ensures var left, right := EventOf(steps, leftFlags, horizon).value, EventOf(steps, rightFlags, horizon).value;
      var i, j := FirstPair(leftFlags, 0), FirstPair(rightFlags, 0);
      && (IntervalRelation(left, right) == CensoredPair <==> i == |steps| || j == |steps|)
      && (Lag(left, right) == None <==> i == |steps| || j == |steps|)
      && (i < |steps| && j < |steps| ==>
           && (IntervalRelation(left, right) == Unresolved <==> -1 <= i - j <= 1)
           && (IntervalRelation(left, right) == LeftBeforeRight <==> i < j - 1)
           && (IntervalRelation(left, right) == RightBeforeLeft <==> j < i - 1)
           && (IntervalRelation(left, right) == LeftBeforeRight ==> Lag(left, right).value > 0)
           && (IntervalRelation(left, right) == RightBeforeLeft ==> Lag(left, right).value < 0)
           && Lag(left, right) == Some(steps[j] - steps[i])
           && (Lag(left, right).value > 0 ==> IntervalRelation(left, right) != RightBeforeLeft)
           && (Lag(left, right).value == 0 <==> i == j))
  {
    var i, j := FirstPair(leftFlags, 0), FirstPair(rightFlags, 0);
    if i < |steps| && j < |steps| {
      GridOrder(steps, i, j);
      GridOrder(steps, j, i);
    }
  }

  /** Three observed events on one grid: their lags add up, and being before is transitive. */
  lemma {:induction false} OrdersCompose(steps: seq<int>, a: seq<bool>, b: seq<bool>, c: seq<bool>, horizon: int)
    requires Grid(steps) && |a| == |b| == |c| == |steps|
    ensures EventOf(steps, a, horizon).Ok? && EventOf(steps, b, horizon).Ok? && EventOf(steps, c, horizon).Ok?
    ensures OrdersChain(EventOf(steps, a, horizon).value, EventOf(steps, b, horizon).value,
                        EventOf(steps, c, horizon).value)
  {
    EventIsDefined(steps, a, horizon);
    EventIsDefined(steps, b, horizon);
    EventIsDefined(steps, c, horizon);
    RelationNamesTheEarlier(steps, a, b, horizon);
    RelationNamesTheEarlier(steps, b, c, horizon);
    RelationNamesTheEarlier(steps, a, c, horizon);
    hide EventOf, IntervalRelation, FirstPair;
  }

  ghost predicate OrdersChain(first: Event, second: Event, third: Event) {
    && (Lag(first, second).Some? && Lag(second, third).Some? ==>
         Lag(first, third) == Some(Lag(first, second).value + Lag(second, third).value))
    && (IntervalRelation(first, second) == IntervalRelation(second, third) == LeftBeforeRight ==>
         IntervalRelation(first, third) == LeftBeforeRight)
    && (IntervalRelation(first, second) == IntervalRelation(second, third) == RightBeforeLeft ==>
         IntervalRelation(first, third) == RightBeforeLeft)
    && (IntervalRelation(first, third) == CensoredPair ==>
         IntervalRelation(first, second) == CensoredPair || IntervalRelation(second, third) == CensoredPair)
  }

  lemma {:induction false} GridOrder(steps: seq<int>, i: nat, j: nat)
    requires Grid(steps) && i < |steps| && j < |steps|
    ensures steps[i] < steps[j] <==> i < j
    ensures steps[i] < (if j == 0 then 0 else steps[j - 1]) <==> i < j - 1
  {
    if i < j {
    } else if j < i {
      assert steps[j] < steps[i];
    }
    if j > 0 && j - 1 < i {
      assert steps[j - 1] < steps[i];
    }
    assert i == 0 || steps[0] < steps[i];
  }
}
