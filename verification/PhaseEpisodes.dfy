/** Persistent goal episodes of a run and how they agree with its persistent events (`_compress`,
    `_persistent_goal_episodes` and the sequence part of `run_event_rows`). */
module PhaseEpisodes {
  import opened FiniteSets
  import opened Options
  import opened Orders
  import opened PersistentEvents

  /** Adjacent duplicates dropped. */
  function Compressed<T(==)>(values: seq<T>): (r: seq<T>)
    ensures values != [] ==> r != [] && r[|r| - 1] == values[|values| - 1]
  {
    if values == [] then []
    else
      var r := Compressed(values[..|values| - 1]);
      var last := values[|values| - 1];
      if r == [] || r[|r| - 1] != last then r + [last] else r
  }

  method Compress<T(==)>(values: seq<T>) returns (result: seq<T>)
    ensures result == Compressed(values)
  {
    result := [];
    for i := 0 to |values|
      invariant result == Compressed(values[..i])
    {
      assert values[..i + 1][..i] == values[..i];
      if result == [] || result[|result| - 1] != values[i] {
        result := result + [values[i]];
      }
    }
    assert values[..|values|] == values;
  }

  /** One past the maximal run of equal phases that contains `from`. */
  function RunEnd(phases: seq<Phase>, from: nat): (end: nat)
    requires from < |phases|
    ensures from < end <= |phases|
    ensures forall k | from <= k < end :: phases[k] == phases[from]
    ensures end < |phases| ==> phases[end] != phases[from]
    decreases |phases| - from
  {
    if from + 1 < |phases| && phases[from + 1] == phases[from] then RunEnd(phases, from + 1) else from + 1
  }

  /** The goals of the maximal runs from `start` on that persist. */
  function Episodes(phases: seq<Phase>, start: nat): seq<Goal>
    requires start <= |phases|
    decreases |phases| - start
  {
    if start == |phases| then []
    else
      var end := RunEnd(phases, start);
      (if phases[start].Pure? && end - start >= PERSISTENCE then [phases[start].goal] else []) + Episodes(phases, end)
  }

  /** The source's two nested scans. */
  method PersistentGoalEpisodes(phases: seq<Phase>) returns (compressedAll: seq<Phase>, goalSequence: seq<Goal>)
    ensures compressedAll == Compressed(phases)
    ensures goalSequence == Compressed(Episodes(phases, 0))
  {
    compressedAll := Compress(phases);
    var episodes: seq<Goal> := [];
    var start := 0;
    while start < |phases|
      invariant 0 <= start <= |phases|
      invariant episodes + Episodes(phases, start) == Episodes(phases, 0)
    {
      var end := start + 1;
      while end < |phases| && phases[end] == phases[start]
        invariant start < end <= |phases|
        invariant phases[end - 1] == phases[start]
        invariant RunEnd(phases, end - 1) == RunEnd(phases, start)
      {
        end := end + 1;
      }
      assert end == RunEnd(phases, start);
      EpisodesStep(phases, start, episodes);
      if phases[start].Pure? && end - start >= PERSISTENCE {
        episodes := episodes + [phases[start].goal];
      }
      start := end;
    }
    assert episodes + [] == episodes;
    goalSequence := Compress(episodes);
  }

  lemma {:induction false} EpisodesStep(phases: seq<Phase>, start: nat, episodes: seq<Goal>)
    requires start < |phases|
    ensures var end := RunEnd(phases, start);
      episodes + Episodes(phases, start) ==
        (if phases[start].Pure? && end - start >= PERSISTENCE then episodes + [phases[start].goal] else episodes)
        + Episodes(phases, end)
  {
    var end := RunEnd(phases, start);
    var rest := Episodes(phases, end);
    if phases[start].Pure? && end - start >= PERSISTENCE {
      assert episodes + ([phases[start].goal] + rest) == episodes + [phases[start].goal] + rest;
    } else {
      assert [] + rest == rest;
    }
  }

  // ---------------------------------------------------------------- compression

  predicate NoRepeats<T(==)>(s: seq<T>) {
    forall i | 0 < i < |s| :: s[i - 1] != s[i]
  }

  /** `g` occurs before any `h`. */
  predicate Before<T(==)>(s: seq<T>, g: T, h: T) {
    s != [] && (s[0] == g || (s[0] != h && Before(s[1..], g, h)))
  }

  lemma {:induction false} BeforeAppend<T>(s: seq<T>, t: seq<T>, g: T, h: T)
    requires g != h
    ensures Before(s + t, g, h) <==> Before(s, g, h) || (g !in s && h !in s && Before(t, g, h))
  {
    if s == [] {
      assert s + t == t;
    } else {
      assert (s + t)[1..] == s[1..] + t;
      BeforeAppend(s[1..], t, g, h);
      assert s == [s[0]] + s[1..];
    }
  }

  /** Compression keeps what occurs and the order of first occurrences, and leaves no neighbours equal. */
  lemma {:induction false} CompressedKeeps<T>(values: seq<T>, g: T, h: T)
    requires g != h
    ensures NoRepeats(Compressed(values))
    ensures g in Compressed(values) <==> g in values
    ensures Before(Compressed(values), g, h) <==> Before(values, g, h)
  {
    if values != [] {
      var init, last := values[..|values| - 1], values[|values| - 1];
      var r := Compressed(init);
      assert values == init + [last];
      CompressedKeeps(init, g, h);
      CompressedKeeps(init, h, g);
      BeforeAppend(init, [last], g, h);
      BeforeAppend(r, [last], g, h);
      CompressedHolds(init, last);
    }
  }

  lemma {:induction false} CompressedHolds<T>(values: seq<T>, g: T)
    ensures g in Compressed(values) <==> g in values
  {
    if values != [] {
      CompressedHolds(values[..|values| - 1], g);
      assert values == values[..|values| - 1] + [values[|values| - 1]];
    }
  }

  lemma {:induction false} FixedByCompression<T>(values: seq<T>)
    requires NoRepeats(values)
    ensures Compressed(values) == values
  {
    if values != [] {
      var init := values[..|values| - 1];
      FixedByCompression(init);
      assert values == init + [values[|values| - 1]];
    }
  }

  lemma {:induction false} CompressedHasNoRepeats<T>(values: seq<T>)
    ensures NoRepeats(Compressed(values))
  {
    if values != [] {
      CompressedHasNoRepeats(values[..|values| - 1]);
    }
  }

  /** Compression leaves a sequence unchanged exactly when no neighbours are equal, so compressing
      twice is compressing once. */
  lemma {:induction false} CompressedFixed<T>(values: seq<T>)
    ensures Compressed(values) == values <==> NoRepeats(values)
    ensures Compressed(Compressed(values)) == Compressed(values)
  {
    CompressedHasNoRepeats(values);
    if NoRepeats(values) {
      FixedByCompression(values);
    }
    FixedByCompression(Compressed(values));
  }

  /** `result` reads `values` at `places`, which are in order. */
  ghost predicate ReadsAt<T>(values: seq<T>, places: seq<int>, result: seq<T>) {
    && Increasing(places) && |result| == |places|
    && forall k | 0 <= k < |places| :: 0 <= places[k] < |values| && result[k] == values[places[k]]
  }

  /** The places that differ from their predecessor. */
  ghost predicate Changes<T>(values: seq<T>, i: int) {
    0 <= i < |values| && (i == 0 || values[i - 1] != values[i])
  }

  lemma {:induction false} ReadsLonger<T>(values: seq<T>, last: T, places: seq<int>, result: seq<T>)
    requires ReadsAt(values, places, result)
    ensures ReadsAt(values + [last], places, result)
    ensures ReadsAt(values + [last], places + [|values|], result + [last])
  {
    forall k | 0 <= k < |places| ensures (values + [last])[places[k]] == result[k] {
    }
    var longer := places + [|values|];
    forall i, j | 0 <= i < j < |longer| ensures longer[i] < longer[j] {
      assert 0 <= places[i] < |values|;
    }
  }

  /** Compression keeps exactly the places that differ from their predecessor, in order. */
  lemma {:induction false} CompressedPlaces<T>(values: seq<T>) returns (places: seq<int>)
    ensures forall i :: i in places <==> Changes(values, i)
    ensures ReadsAt(values, places, Compressed(values))
  {
    hide ReadsAt, Compressed, Changes;
    if values == [] {
      places := [];
      NothingRead<T>();
    } else {
      var n := |values| - 1;
      var init, last := values[..n], values[n];
      var before := CompressedPlaces(init);
      assert values == init + [last];
      ReadsLonger(init, last, before, Compressed(init));
      CompressedStep(values);
      ChangesLocal(values, before);
      places := if Changes(values, n) then before + [n] else before;
    }
  }

  lemma {:induction false} NothingRead<T>()
    ensures ReadsAt<T>([], [], Compressed([])) && forall i :: !Changes<T>([], i)
  {
  }

  lemma {:induction false} ChangesLocal<T>(values: seq<T>, before: seq<int>)
    requires values != [] && forall i :: i in before <==> Changes(values[..|values| - 1], i)
    ensures var n := |values| - 1;
      forall i :: i in (if Changes(values, n) then before + [n] else before) <==> Changes(values, i)
  {
    var n := |values| - 1;
    forall i ensures Changes(values, i) <==> (i == n && Changes(values, n)) || Changes(values[..n], i) {
    }
  }

  lemma {:induction false} CompressedStep<T>(values: seq<T>)
    requires values != []
    ensures var n := |values| - 1;
      Compressed(values) ==
        if Changes(values, n) then Compressed(values[..n]) + [values[n]] else Compressed(values[..n])
  {
    CompressedHolds(values[..|values| - 1], values[|values| - 1]);
  }

  /** A maximal run of one goal that persists starts at `i`. */
  ghost predicate EpisodeStarts(phases: seq<Phase>, i: int) {
    Changes(phases, i) && phases[i].Pure? && i + 1 < |phases| && phases[i + 1] == phases[i]
  }

  /** The goals at `places`, which are the starts of persistent runs from `start` on, in order. */
  ghost predicate ListsEpisodes(phases: seq<Phase>, start: nat, places: seq<int>, goals: seq<Goal>) {
    && Increasing(places) && |goals| == |places|
    && (forall i :: i in places <==> start <= i && EpisodeStarts(phases, i))
    && forall k | 0 <= k < |places| ::
         start <= places[k] && EpisodeStarts(phases, places[k]) && goals[k] == phases[places[k]].goal
  }

  /** The episodes are the goals of exactly those runs, in order. */
  lemma {:induction false} EpisodesPlaces(phases: seq<Phase>, start: nat) returns (places: seq<int>)
    requires start <= |phases| && (start < |phases| ==> Changes(phases, start))
    ensures ListsEpisodes(phases, start, places, Episodes(phases, start))
    decreases |phases| - start
  {
    hide ListsEpisodes, Episodes, EpisodeStarts, Changes;
    if start == |phases| {
      places := [];
      NoEpisodes(phases);
    } else {
      var end := RunEnd(phases, start);
      RunStarts(phases, start);
      var rest := EpisodesPlaces(phases, end);
      var goals := Episodes(phases, end);
      EpisodesFirst(phases, start);
      if EpisodeStarts(phases, start) {
        places := [start] + rest;
        ListsFirst(phases, start, end, rest, goals);
      } else {
        places := rest;
        ListsLater(phases, start, end, rest, goals);
      }
    }
  }

  lemma {:induction false} NoEpisodes(phases: seq<Phase>)
    ensures ListsEpisodes(phases, |phases|, [], Episodes(phases, |phases|))
  {
  }

  lemma {:induction false} EpisodesFirst(phases: seq<Phase>, start: nat)
    requires start < |phases|
    ensures var end := RunEnd(phases, start);
      Episodes(phases, start) ==
        if phases[start].Pure? && end - start >= PERSISTENCE
        then [phases[start].goal] + Episodes(phases, end) else Episodes(phases, end)
  {
    var rest := Episodes(phases, RunEnd(phases, start));
    assert [] + rest == rest;
  }

  lemma {:induction false} RunStarts(phases: seq<Phase>, start: nat)
    requires start < |phases| && Changes(phases, start)
    ensures var end := RunEnd(phases, start);
      && (EpisodeStarts(phases, start) <==> phases[start].Pure? && end - start >= PERSISTENCE)
      && (forall i | start < i < end :: !EpisodeStarts(phases, i))
      && (end < |phases| ==> Changes(phases, end))
  {
    var end := RunEnd(phases, start);
    assert end - start >= PERSISTENCE <==> start + 1 < |phases| && phases[start + 1] == phases[start];
  }

  lemma {:induction false} ListsLater(phases: seq<Phase>, start: nat, end: nat, places: seq<int>, goals: seq<Goal>)
    requires start < end && ListsEpisodes(phases, end, places, goals)
    requires forall i | start <= i < end :: !EpisodeStarts(phases, i)
    ensures ListsEpisodes(phases, start, places, goals)
  {
    hide EpisodeStarts;
  }

  lemma {:induction false} ListsFirst(phases: seq<Phase>, start: nat, end: nat, places: seq<int>, goals: seq<Goal>)
    requires start < end && ListsEpisodes(phases, end, places, goals)
    requires EpisodeStarts(phases, start) && forall i | start < i < end :: !EpisodeStarts(phases, i)
    ensures ListsEpisodes(phases, start, [start] + places, [phases[start].goal] + goals)
  {
    var longer := [start] + places;
    forall k | 0 < k < |longer| ensures longer[k] == places[k - 1] && start < longer[k] {
      assert end <= places[k - 1];
    }
    forall i ensures i in longer <==> start <= i && EpisodeStarts(phases, i) {
      assert i in longer <==> i == start || i in places;
    }
  }

  // ---------------------------------------------------------------- episodes and events

  function PhaseFlags(phases: seq<Phase>, goal: Goal): (flags: seq<bool>)
    ensures |flags| == |phases| && forall i | 0 <= i < |flags| :: flags[i] == (phases[i] == Pure(goal))
  {
    if phases == [] then [] else [phases[0] == Pure(goal)] + PhaseFlags(phases[1..], goal)
  }

  /** The first persistent pair of `goal` from `from` on, or the length. */
  function FirstPure(phases: seq<Phase>, goal: Goal, from: nat): nat
    requires from <= |phases|
  {
    FirstPair(PhaseFlags(phases, goal), from)
  }

  lemma {:induction false} PairFromLater(flags: seq<bool>, from: nat, later: nat)
    requires from <= later <= |flags|
    requires forall k | from <= k < later :: !TwoInARow(flags, k)
    ensures FirstPair(flags, from) == FirstPair(flags, later)
    decreases later - from
  {
    if from < later {
      PairFromLater(flags, from + 1, later);
    }
  }

  /** A maximal run holds its goal's first pair when it persists, and no other pair. */
  lemma {:induction false} PairsOfRun(phases: seq<Phase>, start: nat, goal: Goal)
    requires start < |phases|
    ensures var end := RunEnd(phases, start);
      FirstPure(phases, goal, start) ==
        if phases[start] == Pure(goal) && end - start >= PERSISTENCE then start else FirstPure(phases, goal, end)
  {
    var end, flags := RunEnd(phases, start), PhaseFlags(phases, goal);
    if phases[start] == Pure(goal) && end - start >= PERSISTENCE {
      assert phases[start + 1] == phases[start];
      assert TwoInARow(flags, start);
    } else {
      forall k | start <= k < end ensures !TwoInARow(flags, k) {
      }
      PairFromLater(flags, start, end);
    }
  }

  /** The episode scan and the event scan agree: the goals that persist are the goals with a pure
      event, and they first persist in the order of those events. */
  lemma {:induction false} EpisodesAgree(phases: seq<Phase>, start: nat, g: Goal, h: Goal)
    requires start <= |phases| && g != h
    ensures g in Episodes(phases, start) <==> FirstPure(phases, g, start) < |phases|
    ensures Before(Episodes(phases, start), g, h) <==> FirstPure(phases, g, start) < FirstPure(phases, h, start)
    decreases |phases| - start
  {
    if start < |phases| {
      var end := RunEnd(phases, start);
      EpisodesAgree(phases, end, g, h);
      PairsOfRun(phases, start, g);
      PairsOfRun(phases, start, h);
      EpisodeFirst(phases, start, g, h);
    }
  }

  /** A run's episode comes before all later ones, in the sequence as in the pairs. */
  lemma {:induction false} EpisodeFirst(phases: seq<Phase>, start: nat, g: Goal, h: Goal)
    requires start < |phases| && g != h
    ensures var end := RunEnd(phases, start);
      var rest := Episodes(phases, end);
      var found := phases[start].Pure? && end - start >= PERSISTENCE;
      && (g in Episodes(phases, start) <==> (found && phases[start].goal == g) || g in rest)
      && (Before(Episodes(phases, start), g, h) <==>
           if found && phases[start].goal == g then true
           else if found && phases[start].goal == h then false
           else Before(rest, g, h))
  {
    var end := RunEnd(phases, start);
    var rest := Episodes(phases, end);
    if phases[start].Pure? && end - start >= PERSISTENCE {
      assert ([phases[start].goal] + rest)[1..] == rest;
    } else {
      assert [] + rest == rest;
    }
  }

  // ---------------------------------------------------------------- cycles

  function Distinct<T(==)>(s: seq<T>): set<T> {
    set x | x in s
  }

  /** The source's scan: some goal returns after another one. */
  predicate Cycles(goalSequence: seq<Goal>) {
    exists index | 2 <= index < |goalSequence| :: goalSequence[index] in goalSequence[..index - 1]
  }

  lemma {:induction false} DistinctSize<T>(s: seq<T>)
    ensures |Distinct(s)| <= |s|
    ensures |Distinct(s)| == |s| <==> forall i, j | 0 <= i < j < |s| :: s[i] != s[j]
  {
    if s != [] {
      var init, last := s[..|s| - 1], s[|s| - 1];
      DistinctSize(init);
      assert s == init + [last];
      assert Distinct(s) == Distinct(init) + {last};
      if last in init {
        assert Distinct(s) == Distinct(init);
        var i :| 0 <= i < |init| && init[i] == last;
        assert s[i] == s[|s| - 1];
      } else {
        assert forall i | 0 <= i < |init| :: s[i] == init[i];
      }
    }
  }

  /** A compressed goal sequence cycles exactly when it is longer than its number of distinct goals. */
  lemma {:induction false} CycleIsRepetition(goalSequence: seq<Goal>)
    requires NoRepeats(goalSequence)
    ensures Cycles(goalSequence) <==> |goalSequence| > |Distinct(goalSequence)|
    ensures |goalSequence| > |GOALS| ==> Cycles(goalSequence)
  {
    var s := goalSequence;
    DistinctSize(s);
    if Cycles(s) {
      var j :| 2 <= j < |s| && s[j] in s[..j - 1];
      var i :| 0 <= i < j - 1 && s[..j - 1][i] == s[j];
      assert s[i] == s[j];
    } else {
      forall i, j | 0 <= i < j < |s| ensures s[i] != s[j] {
        if i < j - 1 {
          assert s[i] == s[..j - 1][i];
        }
      }
    }
    DistinctIsSmall(Distinct(s));
  }

  lemma {:induction false} DistinctIsSmall(goals: set<Goal>)
    ensures |goals| <= 3
  {
    forall g | g in goals ensures g in {P, Q, Y} {
      match g case P => case Q => case Y =>
    }
    SubsetSize(goals, {P, Q, Y});
  }

  // ---------------------------------------------------------------- a run's row

  const SOLO_THRESHOLD := 0.95

  /** How two events are ordered, and by how many steps. */
  datatype Order = Order(relation: Relation, lag: Option<int>)

  function OrderOf(left: Event, right: Event): Order {
    Order(IntervalRelation(left, right), Lag(left, right))
  }

  /** The entries of one goal: its six events, and the order of its selective probe, causal and
      behavior events. */
  datatype GoalEntry = GoalEntry(solo: Event, probeGeneric: Event, probeSelective: Event, behavior: Event,
                                 causal: Event, pure: Event,
                                 probeToCausal: Order, probeToBehavior: Order, causalToBehavior: Order)

  datatype RunRow = RunRow(entries: map<Goal, GoalEntry>, compressed: seq<Phase>, goalSequence: seq<Goal>,
                           transitions: nat, distinctGoals: nat, cycle: bool)

  /** One run: its checkpoints, and its calibration accuracy of each goal by step. */
  datatype Run = Run(rows: seq<Checkpoint>, calibration: map<Goal, map<int, real>>)

  /** The frozen grids, each with its horizon. */
  datatype Frozen = Frozen(grid: seq<int>, horizon: int, calibrationGrid: seq<int>, soloHorizon: int)

  predicate Calibrated(frozen: Frozen, run: Run, goal: Goal) {
    && goal in run.calibration
    && forall i | 0 <= i < |frozen.calibrationGrid| :: frozen.calibrationGrid[i] in run.calibration[goal]
  }

  function SoloFlags(steps: seq<int>, accuracy: map<int, real>): (flags: seq<bool>)
    requires forall i | 0 <= i < |steps| :: steps[i] in accuracy
    ensures |flags| == |steps| && forall i | 0 <= i < |flags| :: flags[i] == (accuracy[steps[i]] >= SOLO_THRESHOLD)
  {
    if steps == [] then [] else [accuracy[steps[0]] >= SOLO_THRESHOLD] + SoloFlags(steps[1..], accuracy)
  }

  /** The entries of a goal, from its event scans. */
  ghost predicate EntryOf(frozen: Frozen, run: Run, g: Goal, entry: GoalEntry) {
    && Calibrated(frozen, run, g)
    && EventOf(frozen.calibrationGrid, SoloFlags(frozen.calibrationGrid, run.calibration[g]), frozen.soloHorizon)
         == Ok(entry.solo)
    && StageEvent(run.rows, ProbeGeneric, g, frozen.horizon) == Ok(entry.probeGeneric)
    && StageEvent(run.rows, ProbeSelective, g, frozen.horizon) == Ok(entry.probeSelective)
    && StageEvent(run.rows, Behavior, g, frozen.horizon) == Ok(entry.behavior)
    && StageEvent(run.rows, Causal, g, frozen.horizon) == Ok(entry.causal)
    && StageEvent(run.rows, Control, g, frozen.horizon) == Ok(entry.pure)
    && entry.probeToCausal == OrderOf(entry.probeSelective, entry.causal)
    && entry.probeToBehavior == OrderOf(entry.probeSelective, entry.behavior)
    && entry.causalToBehavior == OrderOf(entry.causal, entry.behavior)
  }

  /** A goal appears in the sequence exactly when its pure event is observed, and then its behavior
      and causal events are observed no later. The lags from the probe to the other two add up, and
      the orders are transitive. */
  ghost predicate GoalAgrees(g: Goal, entry: GoalEntry, goalSequence: seq<Goal>) {
    && (g in goalSequence <==> entry.pure.observed)
    && (g in goalSequence ==> NoLater(entry.behavior, entry.pure) && NoLater(entry.causal, entry.pure))
    && OrdersChain(entry.probeSelective, entry.causal, entry.behavior)
  }

  /** Two goals of the sequence first appear in the order of their pure events. */
  ghost predicate OrderAgrees(g: Goal, first: GoalEntry, h: Goal, second: GoalEntry, goalSequence: seq<Goal>) {
    g != h && g in goalSequence && h in goalSequence ==>
      && first.pure.eventStep.Some? && second.pure.eventStep.Some?
      && (Before(goalSequence, g, h) <==> first.pure.eventStep.value < second.pure.eventStep.value)
  }

  /** What the row promises across its event scans, its episode scan and its compression. */
  ghost predicate RowAgrees(row: RunRow) {
    && (forall g: Goal :: g in row.entries)
    && (forall g: Goal :: GoalAgrees(g, row.entries[g], row.goalSequence))
    && (forall g: Goal, h: Goal :: OrderAgrees(g, row.entries[g], h, row.entries[h], row.goalSequence))
    && NoRepeats(row.goalSequence) && NoRepeats(row.compressed)
    && row.distinctGoals == |Distinct(row.goalSequence)|
    && row.transitions == (if row.goalSequence == [] then 0 else |row.goalSequence| - 1)
    && (row.cycle <==> |row.goalSequence| > row.distinctGoals)
  }

  /** Two flags in a row hold at place `i`. */
  predicate PairAt(steps: seq<int>, holds: nat -> bool, i: nat) {
    i + 1 < |steps| && holds(i) && holds(i + 1)
  }

  /** The event is observed exactly when some pair holds, and is then at the first one. */
  ghost predicate FiresFirst(steps: seq<int>, holds: nat -> bool, event: Event) {
    && (event.observed <==> exists i: nat :: PairAt(steps, holds, i))
    && (event.observed ==> exists i: nat ::
         && PairAt(steps, holds, i) && event.eventStep == Some(steps[i])
         && forall k | 0 <= k < i :: !PairAt(steps, holds, k))
  }

  /** The order of two events whose first pairs are at places `i` and `j` of `n` checkpoints. */
  ghost predicate OrderReads(order: Order, left: Event, right: Event, i: nat, j: nat, n: nat) {
    && (order.lag.Some? <==> left.observed && right.observed)
    && (order.lag.Some? ==> left.eventStep.Some? && right.eventStep.Some?)
    && (order.lag.Some? ==> order.lag.value == right.eventStep.value - left.eventStep.value)
    && (order.relation == CensoredPair <==> i == n || j == n)
    && (order.relation == LeftBeforeRight <==> i < n && j < n && i + 1 < j)
    && (order.relation == RightBeforeLeft <==> i < n && j < n && j + 1 < i)
    && (order.relation == Unresolved <==> i < n && j < n && -1 <= i - j <= 1)
  }

  /** Where the first pair of a stage is. */
  function StagePlace(run: Run, stage: Stage, g: Goal): nat {
    FirstPair(StageFlags(run.rows, stage, g), 0)
  }

  /** A goal's entries in terms of its scores: where its events fire, and how they are ordered. */
  ghost predicate EntryReads(frozen: Frozen, run: Run, g: Goal, entry: GoalEntry)
    requires |run.rows| == |frozen.grid| && Calibrated(frozen, run, g)
  {
    var rows, n := run.rows, |frozen.grid|;
    var steps, accuracy := frozen.calibrationGrid, run.calibration[g];
    && FiresFirst(steps, (i: nat) => i < |steps| && steps[i] in accuracy && accuracy[steps[i]] >= 0.95, entry.solo)
    && FiresFirst(frozen.grid, (i: nat) => i < |rows| && rows[i].probe(g) >= 0.95, entry.probeGeneric)
    && FiresFirst(frozen.grid, (i: nat) => i < |rows| && rows[i].probe(g) >= 0.90 && rows[i].selectivity(g) >= 0.20,
         entry.probeSelective)
    && FiresFirst(frozen.grid, (i: nat) => i < |rows| && rows[i].behavior(g) >= 0.90, entry.behavior)
    && FiresFirst(frozen.grid, (i: nat) => i < |rows| && rows[i].causal(g) >= 0.90, entry.causal)
    && FiresFirst(frozen.grid, (i: nat) => i < |rows| && rows[i].phase == Pure(g), entry.pure)
    && OrderReads(entry.probeToCausal, entry.probeSelective, entry.causal,
         StagePlace(run, ProbeSelective, g), StagePlace(run, Causal, g), n)
    && OrderReads(entry.probeToBehavior, entry.probeSelective, entry.behavior,
         StagePlace(run, ProbeSelective, g), StagePlace(run, Behavior, g), n)
    && OrderReads(entry.causalToBehavior, entry.causal, entry.behavior,
         StagePlace(run, Causal, g), StagePlace(run, Behavior, g), n)
  }

  lemma {:induction false} FlagsFire(steps: seq<int>, flags: seq<bool>, horizon: int, holds: nat -> bool)
    requires Grid(steps) && |flags| == |steps|
    requires forall i: nat :: holds(i) == (i < |flags| && flags[i])
    ensures EventOf(steps, flags, horizon).Ok?
    ensures FiresFirst(steps, holds, EventOf(steps, flags, horizon).value)
  {
    EventStepOf(steps, flags, horizon);
    var first := FirstPair(flags, 0);
    forall i: nat ensures PairAt(steps, holds, i) <==> TwoInARow(flags, i) {
    }
    if first < |steps| {
      assert PairAt(steps, holds, first);
    }
  }

  lemma {:induction false} StageFires(frozen: Frozen, run: Run, stage: Stage, g: Goal, holds: nat -> bool)
    requires Grid(frozen.grid) && Steps(run.rows) == frozen.grid
    requires forall i: nat :: holds(i) == (i < |run.rows| && Passes(run.rows[i], stage, g))
    ensures StageEvent(run.rows, stage, g, frozen.horizon).Ok?
    ensures FiresFirst(frozen.grid, holds, StageEvent(run.rows, stage, g, frozen.horizon).value)
  {
    hide FiresFirst, EventOf, Passes;
    FlagsFire(frozen.grid, StageFlags(run.rows, stage, g), frozen.horizon, holds);
  }

  lemma {:induction false} OrderIsRead(steps: seq<int>, left: seq<bool>, right: seq<bool>, horizon: int)
    requires Grid(steps) && |left| == |right| == |steps|
    ensures EventOf(steps, left, horizon).Ok? && EventOf(steps, right, horizon).Ok?
    ensures var first, second := EventOf(steps, left, horizon).value, EventOf(steps, right, horizon).value;
      OrderReads(OrderOf(first, second), first, second, FirstPair(left, 0), FirstPair(right, 0), |steps|)
  {
    hide IntervalRelation, Lag, EventOf;
    EventStepOf(steps, left, horizon);
    EventStepOf(steps, right, horizon);
    RelationNamesTheEarlier(steps, left, right, horizon);
  }

  lemma {:induction false} EntryIsRead(frozen: Frozen, run: Run, g: Goal, entry: GoalEntry)
    requires Grid(frozen.grid) && Steps(run.rows) == frozen.grid && Grid(frozen.calibrationGrid)
    requires EntryOf(frozen, run, g, entry)
    ensures |run.rows| == |frozen.grid| && EntryReads(frozen, run, g, entry)
  {
    hide FiresFirst, OrderReads, EventOf, OrderOf, FirstPair, Grid;
    var rows := run.rows;
    var steps, accuracy := frozen.calibrationGrid, run.calibration[g];
    FlagsFire(steps, SoloFlags(steps, accuracy), frozen.soloHorizon,
      (i: nat) => i < |steps| && steps[i] in accuracy && accuracy[steps[i]] >= 0.95);
    StageFires(frozen, run, ProbeGeneric, g, (i: nat) => i < |rows| && rows[i].probe(g) >= 0.95);
    StageFires(frozen, run, ProbeSelective, g,
      (i: nat) => i < |rows| && rows[i].probe(g) >= 0.90 && rows[i].selectivity(g) >= 0.20);
    StageFires(frozen, run, Behavior, g, (i: nat) => i < |rows| && rows[i].behavior(g) >= 0.90);
    StageFires(frozen, run, Causal, g, (i: nat) => i < |rows| && rows[i].causal(g) >= 0.90);
    StageFires(frozen, run, Control, g, (i: nat) => i < |rows| && rows[i].phase == Pure(g));
    var probe, causal, behavior :=
      StageFlags(rows, ProbeSelective, g), StageFlags(rows, Causal, g), StageFlags(rows, Behavior, g);
    OrderIsRead(frozen.grid, probe, causal, frozen.horizon);
    OrderIsRead(frozen.grid, probe, behavior, frozen.horizon);
    OrderIsRead(frozen.grid, causal, behavior, frozen.horizon);
  }

  /** The row's fields, as the scans compute them. */
  ghost predicate RowOf(frozen: Frozen, run: Run, row: RunRow) {
    && (forall g :: g in row.entries && EntryOf(frozen, run, g, row.entries[g]))
    && row.compressed == Compressed(Phases(run.rows))
    && row.goalSequence == Compressed(Episodes(Phases(run.rows), 0))
    && row.transitions == (if row.goalSequence == [] then 0 else |row.goalSequence| - 1)
    && row.distinctGoals == |Distinct(row.goalSequence)| && row.cycle == Cycles(row.goalSequence)
  }

  /** One event of a run whose checkpoints are the frozen grid. */
  method ScanStage(frozen: Frozen, run: Run, stage: Stage, goal: Goal) returns (event: Event)
    requires Grid(frozen.grid) && Steps(run.rows) == frozen.grid
    ensures StageEvent(run.rows, stage, goal, frozen.horizon) == Ok(event)
  {
    hide EventOf, Passes;
    var flags := StageFlags(run.rows, stage, goal);
    GridEventIsDefined(frozen.grid, flags, frozen.horizon);
    var result := PersistentEvent(frozen.grid, flags, frozen.horizon);
    event := result.value;
  }

  /** The body of the source's loop over goals. */
  method ScanGoal(frozen: Frozen, run: Run, goal: Goal) returns (entry: GoalEntry)
    requires Grid(frozen.grid) && Steps(run.rows) == frozen.grid
    requires Grid(frozen.calibrationGrid) && Calibrated(frozen, run, goal)
    ensures EntryOf(frozen, run, goal, entry)
  {
    hide EventOf, Passes, StageEvent, IntervalRelation, Lag;
    var soloFlags := SoloFlags(frozen.calibrationGrid, run.calibration[goal]);
    GridEventIsDefined(frozen.calibrationGrid, soloFlags, frozen.soloHorizon);
    var solo := PersistentEvent(frozen.calibrationGrid, soloFlags, frozen.soloHorizon);
    var probeGeneric := ScanStage(frozen, run, ProbeGeneric, goal);
    var probeSelective := ScanStage(frozen, run, ProbeSelective, goal);
    var behavior := ScanStage(frozen, run, Behavior, goal);
    var causal := ScanStage(frozen, run, Causal, goal);
    var pure := ScanStage(frozen, run, Control, goal);
    entry := GoalEntry(solo.value, probeGeneric, probeSelective, behavior, causal, pure,
      OrderOf(probeSelective, causal), OrderOf(probeSelective, behavior), OrderOf(causal, behavior));
  }

  /** The source's loop over goals. */
  method ScanGoals(frozen: Frozen, run: Run) returns (entries: Option<map<Goal, GoalEntry>>)
    requires Grid(frozen.grid) && Steps(run.rows) == frozen.grid && Grid(frozen.calibrationGrid)
    ensures entries.Some? <==> forall g :: Calibrated(frozen, run, g)
    ensures entries.Some? ==> forall g ::
      g in entries.value && EntryOf(frozen, run, g, entries.value[g])
  {
    hide EntryOf, Calibrated, Grid, Steps;
    var found: map<Goal, GoalEntry> := map[];
    for i := 0 to |GOALS|
      invariant forall g :: g in found <==> g in GOALS[..i]
      invariant forall g | g in found :: Calibrated(frozen, run, g) && EntryOf(frozen, run, g, found[g])
    {
      var goal := GOALS[i];
      assert GOALS[..i + 1] == GOALS[..i] + [goal];
      if !Calibrated(frozen, run, goal) {
        return None;
      }
      var entry := ScanGoal(frozen, run, goal);
      found := found[goal := entry];
    }
    forall g: Goal ensures g in found {
      AllGoals(g);
    }
    entries := Some(found);
  }

  /** The event, episode and cycle part of one run's output row. */
  method RunEventRow(frozen: Frozen, run: Run) returns (result: Result<RunRow>)
    requires Grid(frozen.grid) && Grid(frozen.calibrationGrid)
    requires forall row | row in run.rows :: Classified(row)
    ensures result.Ok? <==> Steps(run.rows) == frozen.grid && forall g :: Calibrated(frozen, run, g)
    ensures result.Ok? ==> RowOf(frozen, run, result.value) && RowAgrees(result.value)
    ensures result.Ok? ==> forall g ::
      |run.rows| == |frozen.grid| && g in result.value.entries && EntryReads(frozen, run, g, result.value.entries[g])
  {
    hide EntryOf, EntryReads, Calibrated, Grid, Classified, RowAgrees, Episodes, Compressed, Distinct, Cycles;
    if Steps(run.rows) != frozen.grid {
      return Err("checkpoint rows do not match frozen grid");
    }
    var entries := ScanGoals(frozen, run);
    if entries == None {
      return Err("missing calibration step");
    }
    var compressed, goalSequence := PersistentGoalEpisodes(Phases(run.rows));
    var transitions := if |goalSequence| - 1 > 0 then |goalSequence| - 1 else 0;
    var row := RunRow(entries.value, compressed, goalSequence, transitions, |Distinct(goalSequence)|,
      Cycles(goalSequence));
    RowIsConsistent(frozen, run, row);
    forall g: Goal ensures |run.rows| == |frozen.grid| && EntryReads(frozen, run, g, row.entries[g]) {
      EntryIsRead(frozen, run, g, row.entries[g]);
    }
    result := Ok(row);
  }

  lemma {:induction false} GridEventIsDefined(grid: seq<int>, flags: seq<bool>, horizon: int)
    requires Grid(grid) && |flags| == |grid|
    ensures EventOf(grid, flags, horizon).Ok?
  {
  }

  /** The pure event of a goal is at the first persistent pair of its phases. */
  lemma {:induction false} PureStepIsFirstPair(frozen: Frozen, run: Run, g: Goal, entry: GoalEntry)
    requires Grid(frozen.grid) && Steps(run.rows) == frozen.grid && EntryOf(frozen, run, g, entry)
    ensures |Phases(run.rows)| == |frozen.grid|
    ensures entry.pure.observed <==> FirstPure(Phases(run.rows), g, 0) < |frozen.grid|
    ensures entry.pure.eventStep ==
      var i := FirstPure(Phases(run.rows), g, 0); if i < |frozen.grid| then Some(frozen.grid[i]) else None
  {
    hide EventOf, Passes, StageFlags, PhaseFlags, Phases, Steps, FirstPair, Calibrated, OrderOf;
    SameFlags(run.rows, g);
    EventStepOf(frozen.grid, StageFlags(run.rows, Control, g), frozen.horizon);
  }

  lemma {:induction false} SameFlags(rows: seq<Checkpoint>, g: Goal)
    ensures PhaseFlags(Phases(rows), g) == StageFlags(rows, Control, g)
  {
    hide PhaseFlags, Phases, StageFlags;
    var flags, others := PhaseFlags(Phases(rows), g), StageFlags(rows, Control, g);
    forall i | 0 <= i < |rows| ensures flags[i] == others[i] {
      assert Phases(rows)[i] == rows[i].phase;
    }
  }

  lemma {:induction false} EventStepOf(grid: seq<int>, flags: seq<bool>, horizon: int)
    requires Grid(grid) && |flags| == |grid|
    ensures EventOf(grid, flags, horizon).Ok?
    ensures var event, i := EventOf(grid, flags, horizon).value, FirstPair(flags, 0);
      && (event.observed <==> i < |grid|)
      && event.eventStep == if i < |grid| then Some(grid[i]) else None
  {
  }

  lemma {:induction false} GoalIsConsistent(frozen: Frozen, run: Run, g: Goal, entry: GoalEntry)
    requires Grid(frozen.grid) && Steps(run.rows) == frozen.grid && EntryOf(frozen, run, g, entry)
    requires forall row | row in run.rows :: Classified(row)
    ensures GoalAgrees(g, entry, Compressed(Episodes(Phases(run.rows), 0)))
  {
    hide Compressed, Episodes, FirstPure, EventOf, Passes, Classified, NoLater, OrdersChain;
    var rows := run.rows;
    SequenceAgrees(Phases(rows), g, if g == P then Q else P);
    PureStepIsFirstPair(frozen, run, g, entry);
    PureNeedsBehaviorAndCausal(rows, g, frozen.horizon);
    OrdersCompose(frozen.grid, StageFlags(rows, ProbeSelective, g), StageFlags(rows, Causal, g),
      StageFlags(rows, Behavior, g), frozen.horizon);
  }

  /** The compressed episodes: which goals occur, and in which order they first occur. */
  lemma {:induction false} SequenceAgrees(phases: seq<Phase>, g: Goal, h: Goal)
    requires g != h
    ensures g in Compressed(Episodes(phases, 0)) <==> FirstPure(phases, g, 0) < |phases|
    ensures Before(Compressed(Episodes(phases, 0)), g, h) <==> FirstPure(phases, g, 0) < FirstPure(phases, h, 0)
  {
    hide Compressed, Episodes, Before, FirstPure;
    EpisodesAgree(phases, 0, g, h);
    CompressedKeeps(Episodes(phases, 0), g, h);
  }

  lemma {:induction false} OrderIsConsistent(frozen: Frozen, run: Run, g: Goal, first: GoalEntry, h: Goal,
                                             second: GoalEntry)
    requires Grid(frozen.grid) && Steps(run.rows) == frozen.grid
    requires EntryOf(frozen, run, g, first) && EntryOf(frozen, run, h, second)
    ensures OrderAgrees(g, first, h, second, Compressed(Episodes(Phases(run.rows), 0)))
  {
    hide Compressed, Episodes, Before, FirstPure, EntryOf, Grid;
    PureStepIsFirstPair(frozen, run, g, first);
    PureStepIsFirstPair(frozen, run, h, second);
    if g != h {
      var phases := Phases(run.rows);
      SequenceAgrees(phases, g, h);
      SequenceAgrees(phases, h, g);
      var i, j := FirstPure(phases, g, 0), FirstPure(phases, h, 0);
      if i < |phases| && j < |phases| {
        GridOrder(frozen.grid, i, j);
      }
    }
  }

  lemma {:induction false} RowIsConsistent(frozen: Frozen, run: Run, row: RunRow)
    requires Grid(frozen.grid) && Steps(run.rows) == frozen.grid
    requires forall row | row in run.rows :: Classified(row)
    requires RowOf(frozen, run, row)
    ensures RowAgrees(row)
  {
    hide EntryOf, GoalAgrees, OrderAgrees, Episodes, Compressed, NoRepeats, Cycles, Distinct, Grid, Classified;
    forall g: Goal ensures GoalAgrees(g, row.entries[g], row.goalSequence) {
      GoalIsConsistent(frozen, run, g, row.entries[g]);
    }
    forall g: Goal, h: Goal ensures OrderAgrees(g, row.entries[g], h, row.entries[h], row.goalSequence) {
      OrderIsConsistent(frozen, run, g, row.entries[g], h, row.entries[h]);
    }
    CompressedHasNoRepeats(Episodes(Phases(run.rows), 0));
    CompressedHasNoRepeats(Phases(run.rows));
    CycleIsRepetition(row.goalSequence);
  }
}
