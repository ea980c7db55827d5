/** The plotted event CDF (`kaplan_meier_cdf`) against the product-limit estimator, which the
    repository computes in `_kaplan_meier`. */
module KaplanMeier {
  import opened FiniteSets
  import opened Orders
  import opened Reals
  import opened Options
  import opened Counting

  datatype Row = Row(time: int, event: bool)

  function FailsAt(t: int): Row -> bool {
    (row: Row) => row.time == t && row.event
  }

  function CensoredAt(t: int): Row -> bool {
    (row: Row) => row.time == t && !row.event
  }

  function NoEarlierThan(t: int): Row -> bool {
    (row: Row) => row.time >= t
  }

  function Events(rows: seq<Row>, t: int): nat {
    Count(rows, FailsAt(t))
  }

  function Censored(rows: seq<Row>, t: int): nat {
    Count(rows, CensoredAt(t))
  }

  /** The textbook risk set: every row not yet gone at `t`. */
  function AtRisk(rows: seq<Row>, t: int): nat {
    Count(rows, NoEarlierThan(t))
  }

  function InsertTime(t: int, times: seq<int>): (r: seq<int>)
    requires Increasing(times)
    ensures Increasing(r) && forall s :: s in r <==> s == t || s in times
    ensures r != [] && (r[0] == t || (times != [] && r[0] == times[0]))
  {
    if times == [] || t < times[0] then [t] + times
    else if t == times[0] then times
    else
      var r := InsertTime(t, times[1..]);
      assert times == [times[0]] + times[1..];
      [times[0]] + r
  }

  /** The sorted distinct times of the rows, or of the events only. */
  function TimesOf(rows: seq<Row>, eventsOnly: bool): (r: seq<int>)
    ensures Increasing(r)
    ensures forall t :: t in r <==> exists row :: row in rows && row.time == t && (eventsOnly ==> row.event)
  {
    if rows == [] then []
    else
      var rest := TimesOf(rows[1..], eventsOnly);
      assert rows == [rows[0]] + rows[1..];
      if eventsOnly && !rows[0].event then rest else InsertTime(rows[0].time, rest)
  }

  function EventTimes(rows: seq<Row>): (r: seq<int>)
    ensures Increasing(r)
  {
    TimesOf(rows, true)
  }

  /** `risk` when the loop reaches event time `k`. */
  function LoopRisk(rows: seq<Row>, times: seq<int>, k: nat): int
    requires k <= |times|
  {
    if k == 0 then |rows|
    else LoopRisk(rows, times, k - 1) - (Events(rows, times[k - 1]) + Censored(rows, times[k - 1]))
  }

  function Survive(events: nat, risk: int): real {
    if risk > 0 then 1.0 - Quotient(events as real, risk as real) else 1.0
  }

  /** `survival` once the loop has passed `k` event times. */
  function LoopSurvival(rows: seq<Row>, times: seq<int>, k: nat): real
    requires k <= |times|
  {
    if k == 0 then 1.0
    else Product(LoopSurvival(rows, times, k - 1), Survive(Events(rows, times[k - 1]), LoopRisk(rows, times, k - 1)))
  }

  /** The product-limit estimate over the first `k` of `times`. */
  function ProductLimit(rows: seq<Row>, times: seq<int>, k: nat): real
    requires k <= |times|
  {
    if k == 0 then 1.0
    else Product(ProductLimit(rows, times, k - 1), Survive(Events(rows, times[k - 1]), AtRisk(rows, times[k - 1])))
  }

  function Zip(times: seq<int>, observed: seq<bool>): (rows: seq<Row>)
    requires |times| == |observed|
    ensures |rows| == |times| && forall i | 0 <= i < |rows| :: rows[i] == Row(times[i], observed[i])
  {
    if times == [] then [] else [Row(times[0], observed[0])] + Zip(times[1..], observed[1..])
  }

  /** What the plot shows: its points are the loop's survival at the event times; it starts at 0,
      never falls, stays within [0, 1], and never exceeds the product-limit CDF. */
  ghost predicate IsPlot(rows: seq<Row>, horizon: int, xs: seq<real>, ys: seq<real>) {
    var events := EventTimes(rows);
    && |xs| == |ys| == |events| + 2
    && xs[0] == 1.0 && ys[0] == 0.0 && xs[|events| + 1] == horizon as real && ys[|events| + 1] == ys[|events|]
    && (forall k | 0 < k <= |events| :: xs[k] == Max(events[k - 1] as real, 1.0))
    && (forall k | 0 < k <= |events| :: ys[k] == 1.0 - LoopSurvival(rows, events, k))
    && NonDecreasing(ys)
    && (forall k | 0 <= k <= |events| :: 0.0 <= ys[k] <= 1.0 - ProductLimit(rows, events, k) <= 1.0)
  }

  /** The subjects that are not among `gone` times, and those with an event at `t`. */
  function StillIn(times: seq<int>, gone: seq<int>): set<nat> {
    set i: nat | i < |times| && times[i] !in gone
  }

  function FailingAt(times: seq<int>, observed: seq<bool>, t: int): set<nat>
    requires |times| == |observed|
  {
    set i: nat | i < |times| && times[i] == t && observed[i]
  }

  ghost predicate ObservedAt(times: seq<int>, observed: seq<bool>, t: int)
    requires |times| == |observed|
  {
    exists i :: 0 <= i < |times| && observed[i] && times[i] == t
  }

  /** The plot in terms of its inputs: a step at each distinct time of an observed event, where the
      share that has had no event shrinks by the failing subjects over those still in. */
  ghost predicate PlotOf(times: seq<int>, observed: seq<bool>, horizon: int, events: seq<int>,
                         xs: seq<real>, ys: seq<real>)
    requires |times| == |observed|
  {
    && Increasing(events)
    && (forall t :: t in events <==> ObservedAt(times, observed, t))
    && |xs| == |ys| == |events| + 2
    && xs[0] == 1.0 && ys[0] == 0.0 && xs[|events| + 1] == horizon as real && ys[|events| + 1] == ys[|events|]
    && (forall k | 0 <= k < |events| :: xs[k + 1] == Max(events[k] as real, 1.0))
    && forall k | 0 <= k < |events| :: StepOf(times, observed, events, ys, k)
  }

  ghost predicate StepOf(times: seq<int>, observed: seq<bool>, events: seq<int>, ys: seq<real>, k: nat)
    requires |times| == |observed| && k < |events| && |ys| == |events| + 2
  {
    var left, failing := |StillIn(times, events[..k])|, |FailingAt(times, observed, events[k])|;
    && 0 < failing <= left
    && Product(1.0 - ys[k + 1], left as real) == Product(1.0 - ys[k], (left - failing) as real)
  }

  method KaplanMeierCdf(times: seq<int>, observed: seq<bool>, horizon: int)
      returns (result: Result<(seq<real>, seq<real>)>)
    ensures result.Ok? <==> |times| == |observed|
    ensures result.Ok? ==> IsPlot(Zip(times, observed), horizon, result.value.0, result.value.1)
    ensures result.Ok? ==> exists events :: PlotOf(times, observed, horizon, events, result.value.0, result.value.1)
  {
    hide PlotOf, IsPlot;
    if |times| != |observed| {
      return Err("zip() arguments have different lengths");
    }
    var rows := Zip(times, observed);
    var events := EventTimes(rows);
    var risk := |rows|;
    var survival := 1.0;
    var xs, ys := [1.0], [0.0];
    for i := 0 to |events|
      invariant risk == LoopRisk(rows, events, i)
      invariant survival == LoopSurvival(rows, events, i)
      invariant xs == PlotXs(events, i) && ys == PlotYs(rows, events, i)
    {
      var time := events[i];
      var atTime := Count(rows, FailsAt(time));
      var censored := Count(rows, CensoredAt(time));
      LoopSurvivalStep(rows, events, i);
      if risk > 0 {
        survival := Product(survival, 1.0 - Quotient(atTime as real, risk as real));
      }
      xs := xs + [Max(time as real, 1.0)];
      ys := ys + [1.0 - survival];
      risk := risk - (atTime + censored);
    }
    xs := xs + [horizon as real];
    ys := ys + [1.0 - survival];
    PlotIsPlot(rows, horizon);
    PlotReadsInput(times, observed, horizon, xs, ys);
    assert PlotOf(times, observed, horizon, events, xs, ys);
    result := Ok((xs, ys));
  }

  lemma {:induction false} ZipSizes(times: seq<int>, observed: seq<bool>, gone: seq<int>, t: int)
    requires |times| == |observed| && Increasing(gone)
    ensures Events(Zip(times, observed), t) == |FailingAt(times, observed, t)|
    ensures LoopRisk(Zip(times, observed), gone, |gone|) == |StillIn(times, gone)|
  {
    var rows := Zip(times, observed);
    CountIsSize(rows, FailsAt(t));
    assert Places(rows, FailsAt(t)) == FailingAt(times, observed, t);
    LoopRiskCounts(rows, gone, |gone|);
    assert gone[..|gone|] == gone;
    CountIsSize(rows, NotAmong(Prefix(gone, |gone|)));
    assert Places(rows, NotAmong(Prefix(gone, |gone|))) == StillIn(times, gone);
  }

  lemma {:induction false} LoopRiskLocal(rows: seq<Row>, times: seq<int>, k: nat)
    requires k <= |times|
    ensures LoopRisk(rows, times[..k], k) == LoopRisk(rows, times, k)
    decreases k
  {
    if k > 0 {
      assert times[..k][..k - 1] == times[..k - 1];
      LoopRiskLocal(rows, times, k - 1);
      LoopRiskLocal(rows, times[..k], k - 1);
    }
  }

  /** The loop's event times are the times of the observed events. */
  lemma {:induction false} EventTimesOfInput(times: seq<int>, observed: seq<bool>, t: int)
    requires |times| == |observed|
    ensures t in EventTimes(Zip(times, observed)) <==> ObservedAt(times, observed, t)
  {
    var rows := Zip(times, observed);
    if row :| row in rows && row.time == t && row.event {
      var i :| 0 <= i < |rows| && rows[i] == row;
      assert times[i] == t;
    }
    if i :| 0 <= i < |times| && observed[i] && times[i] == t {
      assert rows[i] in rows;
    }
  }

  lemma {:induction false} PlotReadsInput(times: seq<int>, observed: seq<bool>, horizon: int,
                                          xs: seq<real>, ys: seq<real>)
    requires |times| == |observed| && IsPlot(Zip(times, observed), horizon, xs, ys)
    ensures PlotOf(times, observed, horizon, EventTimes(Zip(times, observed)), xs, ys)
  {
    hide StepOf, TimesOf, Zip, LoopSurvival, ProductLimit, NonDecreasing;
    var rows := Zip(times, observed);
    var events := EventTimes(rows);
    forall t ensures t in events <==> ObservedAt(times, observed, t) {
      EventTimesOfInput(times, observed, t);
    }
    forall k | 0 <= k < |events| ensures StepOf(times, observed, events, ys, k) {
      NoSurvivalLost(rows, events);
      StepReadsInput(times, observed, ys, k);
    }
  }

  lemma {:induction false} NoSurvivalLost(rows: seq<Row>, times: seq<int>)
    ensures LoopSurvival(rows, times, 0) == 1.0
  {
  }

  lemma {:induction false} StepReadsInput(times: seq<int>, observed: seq<bool>, ys: seq<real>, k: nat)
    requires |times| == |observed| && |ys| == |EventTimes(Zip(times, observed))| + 2
    requires k < |EventTimes(Zip(times, observed))|
    requires ys[k] == 1.0 - LoopSurvival(Zip(times, observed), EventTimes(Zip(times, observed)), k)
    requires ys[k + 1] == 1.0 - LoopSurvival(Zip(times, observed), EventTimes(Zip(times, observed)), k + 1)
    ensures StepOf(times, observed, EventTimes(Zip(times, observed)), ys, k)
  {
    hide LoopSurvival, EventTimes, Events, Zip, FailingAt, StillIn;
    var rows := Zip(times, observed);
    var events := EventTimes(rows);
    PrefixIncreasing(events, k);
    ZipSizes(times, observed, events[..k], events[k]);
    LoopRiskLocal(rows, events, k);
    RiskAtEvent(rows, k);
    LoopSurvivalStep(rows, events, k);
    ScaledFactor(LoopSurvival(rows, events, k), Events(rows, events[k]) as real, LoopRisk(rows, events, k) as real);
  }

  lemma {:induction false} PrefixIncreasing(s: seq<int>, k: nat)
    requires Increasing(s) && k <= |s|
    ensures Increasing(s[..k])
  {
  }

  lemma {:induction false} ScaledFactor(s: real, d: real, r: real)
    requires r > 0.0
    ensures Product(Product(s, 1.0 - Quotient(d, r)), r) == Product(s, r - d)
  {
    QuotientBounds(d, r, 0.0);
    assert (1.0 - Quotient(d, r)) * r == r - d;
  }

  function UpTo(times: seq<int>, t: int): set<nat> {
    set i: nat | i < |times| && times[i] <= t
  }

  /** When every event is observed, the plot is the empirical distribution: after each time, the
      share of the subjects with a time up to it. */
  lemma {:induction false} PlotOfAllObserved(times: seq<int>, observed: seq<bool>, horizon: int, events: seq<int>,
                          xs: seq<real>, ys: seq<real>, k: nat)
    requires |times| == |observed| && PlotOf(times, observed, horizon, events, xs, ys) && k < |events|
    requires forall i | 0 <= i < |times| :: observed[i]
    ensures Times(ys[k + 1], |times|) == |UpTo(times, events[k])| as real
  {
    LeftOfAllObserved(times, observed, horizon, events, xs, ys, k + 1);
    forall i | 0 <= i < |times| ensures times[i] in events {
      assert observed[i] && ObservedAt(times, observed, times[i]);
    }
    StillInOrUpTo(times, events, k);
    TimesIsProduct(ys[k + 1], |times|);
    ProductOfDifference(1.0, ys[k + 1], |times| as real);
    ProductUnits(|times| as real);
  }

  lemma {:induction false} StillInOrUpTo(times: seq<int>, events: seq<int>, k: nat)
    requires Increasing(events) && k < |events| && forall i | 0 <= i < |times| :: times[i] in events
    ensures |StillIn(times, events[..k + 1])| + |UpTo(times, events[k])| == |times|
  {
    var left, gone := StillIn(times, events[..k + 1]), UpTo(times, events[k]);
    forall i: nat | i < |times| ensures i in left <==> i !in gone {
      PrefixIsUpTo(events, k, times[i]);
    }
    assert left + gone == FirstNats(|times|) && left * gone == {};
    UnionSize(left, gone);
  }

  lemma {:induction false} PrefixIsUpTo(events: seq<int>, k: nat, t: int)
    requires Increasing(events) && k < |events| && t in events
    ensures t in events[..k + 1] <==> t <= events[k]
  {
    var j :| 0 <= j < |events| && events[j] == t;
    if j <= k {
      assert events[..k + 1][j] == t;
    }
  }

  lemma {:induction false} LeftOfAllObserved(times: seq<int>, observed: seq<bool>, horizon: int, events: seq<int>,
                                             xs: seq<real>, ys: seq<real>, k: nat)
    requires |times| == |observed| && PlotOf(times, observed, horizon, events, xs, ys) && k <= |events|
    requires forall i | 0 <= i < |times| :: observed[i]
    ensures Product(1.0 - ys[k], |times| as real) == |StillIn(times, events[..k])| as real
  {
    if k == 0 {
      assert StillIn(times, events[..0]) == FirstNats(|times|);
      ProductUnits(|times| as real);
    } else {
      LeftOfAllObserved(times, observed, horizon, events, xs, ys, k - 1);
      assert StepOf(times, observed, events, ys, k - 1);
      StillInStep(times, observed, events, k);
      ProportionStep(1.0 - ys[k - 1], 1.0 - ys[k], |times| as real, |StillIn(times, events[..k - 1])| as real,
        |StillIn(times, events[..k])| as real);
    }
  }

  lemma {:induction false} StillInStep(times: seq<int>, observed: seq<bool>, events: seq<int>, k: nat)
    requires |times| == |observed| && 0 < k <= |events| && Increasing(events)
    requires forall i | 0 <= i < |times| :: observed[i]
    ensures |StillIn(times, events[..k - 1])|
         == |StillIn(times, events[..k])| + |FailingAt(times, observed, events[k - 1])|
  {
    var before, after := StillIn(times, events[..k - 1]), StillIn(times, events[..k]);
    var failing := FailingAt(times, observed, events[k - 1]);
    assert events[..k] == events[..k - 1] + [events[k - 1]];
    assert events[k - 1] !in events[..k - 1];
    assert before == after + failing && after * failing == {};
    UnionSize(after, failing);
  }

  lemma {:induction false} ProportionStep(s: real, t: real, n: real, r: real, q: real)
    requires Product(s, n) == r && Product(t, r) == Product(s, q) && r > 0.0
    ensures Product(t, n) == q
  {
    // t*n*r == s*q*n == r*q
    assert t * n * r == n * (t * r) == n * (s * q) == q * (s * n) == q * r;
    CancelFactor(t * n, q, r);
  }

  lemma {:induction false} CancelFactor(x: real, y: real, r: real)
    requires r > 0.0 && x * r == y * r
    ensures x == y
  {
  }

  /** The plot stays at zero exactly when no event is observed. */
  lemma {:induction false} PlotStaysZero(times: seq<int>, observed: seq<bool>, horizon: int, events: seq<int>,
                      xs: seq<real>, ys: seq<real>)
    requires |times| == |observed| && PlotOf(times, observed, horizon, events, xs, ys)
    ensures ys[|ys| - 1] == 0.0 <==> forall i | 0 <= i < |times| :: !observed[i]
  {
    if i :| 0 <= i < |times| && observed[i] {
      assert ObservedAt(times, observed, times[i]);
      PlotRises(times, observed, horizon, events, xs, ys, |events|);
    } else {
      assert events != [] ==> events[0] in events && ObservedAt(times, observed, events[0]);
    }
  }

  lemma {:induction false} PlotRises(times: seq<int>, observed: seq<bool>, horizon: int, events: seq<int>,
                                     xs: seq<real>, ys: seq<real>, k: nat)
    requires |times| == |observed| && PlotOf(times, observed, horizon, events, xs, ys) && k <= |events|
    ensures 0.0 <= ys[k] <= 1.0 && (k > 0 ==> ys[k] > 0.0)
  {
    if k > 0 {
      PlotRises(times, observed, horizon, events, xs, ys, k - 1);
      assert StepOf(times, observed, events, ys, k - 1);
      var left := |StillIn(times, events[..k - 1])|;
      ShrinkingStep(1.0 - ys[k - 1], 1.0 - ys[k], left as real,
        (left - |FailingAt(times, observed, events[k - 1])|) as real);
    }
  }

  lemma {:induction false} ShrinkingStep(s: real, t: real, r: real, q: real)
    requires 0.0 <= s <= 1.0 && 0.0 <= q < r && Product(t, r) == Product(s, q)
    ensures 0.0 <= t < 1.0
  {
    hide Product;
    ProductNonNegative(s, q);
    ProductOrder(s, 1.0, q);
    ProductUnits(q);
    ProductUnits(r);
    if t < 0.0 {
      NegativeProduct(t, r);
    }
    if t >= 1.0 {
      ProductOrder(1.0, t, r);
    }
  }

  lemma {:induction false} NegativeProduct(x: real, y: real)
    requires x < 0.0 && y > 0.0
    ensures Product(x, y) < 0.0
  {
    MultiplyStrict(x, 0.0, y);
  }

  /** The first `k` steps of the plot. */
  function PlotXs(events: seq<int>, k: nat): (xs: seq<real>)
    requires k <= |events|
    ensures |xs| == k + 1
  {
    if k == 0 then [1.0] else PlotXs(events, k - 1) + [Max(events[k - 1] as real, 1.0)]
  }

  function PlotYs(rows: seq<Row>, events: seq<int>, k: nat): (ys: seq<real>)
    requires k <= |events|
    ensures |ys| == k + 1
  {
    if k == 0 then [0.0] else PlotYs(rows, events, k - 1) + [1.0 - LoopSurvival(rows, events, k)]
  }

  lemma {:induction false} PlotPoint(rows: seq<Row>, events: seq<int>, k: nat, i: nat)
    requires i <= k <= |events|
    ensures PlotXs(events, k)[i] == if i == 0 then 1.0 else Max(events[i - 1] as real, 1.0)
    ensures PlotYs(rows, events, k)[i] == 1.0 - LoopSurvival(rows, events, i)
    ensures i == 0 ==> PlotYs(rows, events, k)[i] == 0.0
  {
    if i < k {
      PlotPoint(rows, events, k - 1, i);
    }
  }

  lemma {:induction false} PlotIsPlot(rows: seq<Row>, horizon: int)
    ensures var n := |EventTimes(rows)|;
      IsPlot(rows, horizon, PlotXs(EventTimes(rows), n) + [horizon as real],
             PlotYs(rows, EventTimes(rows), n) + [1.0 - LoopSurvival(rows, EventTimes(rows), n)])
  {
    hide LoopSurvival, ProductLimit, PlotXs, PlotYs;
    var events := EventTimes(rows);
    var n := |events|;
    var xs := PlotXs(events, n) + [horizon as real];
    var ys := PlotYs(rows, events, n) + [1.0 - LoopSurvival(rows, events, n)];
    forall k | 0 <= k <= n
      ensures xs[k] == if k == 0 then 1.0 else Max(events[k - 1] as real, 1.0)
      ensures ys[k] == 1.0 - LoopSurvival(rows, events, k)
    {
      PlotPoint(rows, events, n, k);
    }
    PlotPoint(rows, events, n, 0);
    PlottedCdf(rows, ys);
  }

  lemma {:induction false} LoopSurvivalStep(rows: seq<Row>, times: seq<int>, k: nat)
    requires k < |times|
    ensures var risk := LoopRisk(rows, times, k);
      LoopSurvival(rows, times, k + 1) ==
        if risk > 0
        then Product(LoopSurvival(rows, times, k), 1.0 - Quotient(Events(rows, times[k]) as real, risk as real))
        else LoopSurvival(rows, times, k)
  {
    ProductUnits(LoopSurvival(rows, times, k));
  }

  lemma {:induction false} PlottedCdf(rows: seq<Row>, ys: seq<real>)
    requires |ys| == |EventTimes(rows)| + 2 && ys[|ys| - 1] == ys[|ys| - 2]
    requires forall k | 0 <= k <= |EventTimes(rows)| :: ys[k] == 1.0 - LoopSurvival(rows, EventTimes(rows), k)
    ensures NonDecreasing(ys)
    ensures forall k | 0 <= k <= |EventTimes(rows)| ::
      0.0 <= ys[k] <= 1.0 - ProductLimit(rows, EventTimes(rows), k) <= 1.0
  {
    var last := |EventTimes(rows)|;
    forall j, k | 0 <= j < k < |ys| ensures ys[j] <= ys[k] {
      LoopSurvivalFalls(rows, j, if k <= last then k else last);
    }
    forall k | 0 <= k <= last ensures 0.0 <= ys[k] <= 1.0 - ProductLimit(rows, EventTimes(rows), k) <= 1.0 {
      SurvivalBounds(rows, k);
    }
  }

  // ---------------------------------------------------------------- the risk sets

  function NotAmong(times: set<int>): Row -> bool {
    (row: Row) => row.time !in times
  }

  function Prefix(times: seq<int>, k: nat): set<int>
    requires k <= |times|
  {
    set t | t in times[..k]
  }

  /** The loop's risk counts the rows whose time it has not visited. */
  lemma {:induction false} LoopRiskCounts(rows: seq<Row>, times: seq<int>, k: nat)
    requires k <= |times| && Increasing(times)
    ensures LoopRisk(rows, times, k) == Count(rows, NotAmong(Prefix(times, k)))
  {
    if k == 0 {
      CountAll(rows, NotAmong(Prefix(times, 0)));
    } else {
      var t := times[k - 1];
      LoopRiskCounts(rows, times, k - 1);
      assert times[..k] == times[..k - 1] + [t];
      assert t !in Prefix(times, k - 1);
      var atTime: Row -> bool := (row: Row) => row.time == t;
      CountDisjoint(rows, FailsAt(t), CensoredAt(t), atTime);
      CountDisjoint(rows, atTime, NotAmong(Prefix(times, k)), NotAmong(Prefix(times, k - 1)));
    }
  }

  lemma {:induction false} CountAll(rows: seq<Row>, p: Row -> bool)
    requires forall row | row in rows :: p(row)
    ensures Count(rows, p) == |rows|
  {
    if rows != [] {
      CountAll(rows[1..], p);
    }
  }

  /** A row that leaves the sample between event times, before event time `k`. */
  ghost predicate StrayBefore(rows: seq<Row>, k: nat)
    requires k < |EventTimes(rows)|
  {
    exists row :: row in rows && row.time < EventTimes(rows)[k] && row.time !in EventTimes(rows)
  }

  lemma {:induction false} BeforeEvent(rows: seq<Row>, k: nat, t: int)
    requires k < |EventTimes(rows)|
    ensures t < EventTimes(rows)[k] ==> (t in EventTimes(rows) <==> t in Prefix(EventTimes(rows), k))
    ensures t >= EventTimes(rows)[k] ==> t !in Prefix(EventTimes(rows), k)
  {
    var times := EventTimes(rows);
    if t in times {
      var i :| 0 <= i < |times| && times[i] == t;
      if i < k {
        assert times[..k][i] == t;
      }
    }
    if t in times[..k] {
      var i :| 0 <= i < k && times[..k][i] == t;
      assert times[i] == t;
    }
  }

  /** At every event time the loop's risk is at least the textbook risk, which is at least the
      number of events; the two risks differ exactly when some row has strayed. */
  lemma {:induction false} RiskAtEvent(rows: seq<Row>, k: nat)
    requires k < |EventTimes(rows)|
    ensures var t := EventTimes(rows)[k];
      && LoopRisk(rows, EventTimes(rows), k) >= AtRisk(rows, t) >= Events(rows, t) >= 1
      && (LoopRisk(rows, EventTimes(rows), k) == AtRisk(rows, t) <==> !StrayBefore(rows, k))
  {
    var times := EventTimes(rows);
    var t, left := times[k], NotAmong(Prefix(times, k));
    LoopRiskCounts(rows, times, k);
    forall row: Row ensures left(row) <==> row.time >= t || row.time !in times {
      BeforeEvent(rows, k, row.time);
    }
    var stray: Row -> bool := (row: Row) => row.time < t && row.time !in times;
    CountDisjoint(rows, NoEarlierThan(t), stray, left);
    CountPositive(rows, stray);
    CountMonotone(rows, FailsAt(t), NoEarlierThan(t));
    assert t in times;
    var row :| row in rows && row.time == t && row.event;
    assert FailsAt(t)(row);
    CountPositive(rows, FailsAt(t));
  }

  // ---------------------------------------------------------------- the survival functions

  /** A larger risk set never lowers, and strictly raises, the factor. */
  lemma {:induction false} SurviveBounds(events: nat, risk: int, smaller: int)
    requires 1 <= events <= smaller <= risk
    ensures 0.0 <= Survive(events, smaller) <= Survive(events, risk) < 1.0
    ensures smaller < risk ==> Survive(events, smaller) < Survive(events, risk)
    ensures events < smaller ==> Survive(events, smaller) > 0.0
  {
    var e, r, s := events as real, risk as real, smaller as real;
    var q := Quotient(e, s);
    QuotientBounds(e, s, 1.0);
    QuotientBounds(e, s, 0.0);
    QuotientBounds(e, r, 0.0);
    QuotientBounds(e, r, q);
    ProductUnits(r);
    ProductUnits(s);
    ProductUnits(s);
    assert q > 0.0;
    ProductMonotone(q, s, r);
    if smaller < risk {
      MultiplyStrict(s, r, q);
      ProductCommutes(q, s);
      ProductCommutes(q, r);
      assert Quotient(e, r) != q;
    }
  }

  lemma {:induction false} ProductBounds(x: real, y: real, p: real, q: real)
    requires 0.0 <= x <= y <= 1.0 && 0.0 <= p <= q <= 1.0
    ensures 0.0 <= Product(x, p) <= Product(y, q) <= y
    ensures x > 0.0 && p < q ==> Product(x, p) < Product(y, q)
  {
    ProductNonNegative(x, p);
    ProductMonotone(x, p, q);
    MultiplyMonotone(x, y, q);
    ProductMonotone(y, q, 1.0);
    ProductUnits(y);
    if x > 0.0 && p < q {
      ProductStrict(x, p, q);
    }
  }

  lemma {:induction false} ProductStrict(x: real, p: real, q: real)
    requires x > 0.0 && p < q
    ensures Product(x, p) < Product(x, q)
  {
    MultiplyStrict(p, q, x);
  }

  /** The plotted survival is a probability and never below the product-limit survival. */
  lemma {:induction false} SurvivalBounds(rows: seq<Row>, k: nat)
    requires k <= |EventTimes(rows)|
    ensures 0.0 <= ProductLimit(rows, EventTimes(rows), k) <= LoopSurvival(rows, EventTimes(rows), k) <= 1.0
    ensures k > 0 ==> LoopSurvival(rows, EventTimes(rows), k) <= LoopSurvival(rows, EventTimes(rows), k - 1)
  {
    if k > 0 {
      SurvivalStep(rows, k - 1);
    }
  }

  lemma {:induction false} SurvivalStep(rows: seq<Row>, k: nat)
    requires k < |EventTimes(rows)|
    ensures var times := EventTimes(rows);
      && 0.0 <= ProductLimit(rows, times, k) <= LoopSurvival(rows, times, k) <= 1.0
      && 0.0 <= ProductLimit(rows, times, k + 1) <= LoopSurvival(rows, times, k + 1) <= LoopSurvival(rows, times, k)
      && (ProductLimit(rows, times, k) > 0.0 && StrayBefore(rows, k) ==>
           ProductLimit(rows, times, k + 1) < LoopSurvival(rows, times, k + 1))
  {
    var times := EventTimes(rows);
    if k > 0 {
      SurvivalStep(rows, k - 1);
    }
    var events := Events(rows, times[k]);
    RiskAtEvent(rows, k);
    SurviveBounds(events, LoopRisk(rows, times, k), AtRisk(rows, times[k]));
    ProductBounds(ProductLimit(rows, times, k), LoopSurvival(rows, times, k),
      Survive(events, AtRisk(rows, times[k])), Survive(events, LoopRisk(rows, times, k)));
  }

  lemma {:induction false} LoopSurvivalFalls(rows: seq<Row>, j: nat, k: nat)
    requires j <= k <= |EventTimes(rows)|
    ensures LoopSurvival(rows, EventTimes(rows), j) >= LoopSurvival(rows, EventTimes(rows), k)
  {
    if j < k {
      LoopSurvivalFalls(rows, j, k - 1);
      SurvivalBounds(rows, k);
    }
  }

  /** Before the last event time the product-limit survival is positive: the last event is still at risk. */
  lemma {:induction false} ProductLimitPositive(rows: seq<Row>, k: nat)
    requires k < |EventTimes(rows)|
    ensures ProductLimit(rows, EventTimes(rows), k) > 0.0
  {
    if k > 0 {
      var times := EventTimes(rows);
      var t := times[k - 1];
      ProductLimitPositive(rows, k - 1);
      RiskAtEvent(rows, k - 1);
      assert times[k] in times;
      var later :| later in rows && later.time == times[k];
      var after: Row -> bool := (row: Row) => row.time >= t && !FailsAt(t)(row);
      CountDisjoint(rows, FailsAt(t), after, NoEarlierThan(t));
      assert after(later);
      CountPositive(rows, after);
      SurviveBounds(Events(rows, t), AtRisk(rows, t), AtRisk(rows, t));
      ProductSign(ProductLimit(rows, times, k - 1), Survive(Events(rows, t), AtRisk(rows, t)));
    }
  }

  /** The exact agreement theorem: after an event time the plotted survival equals the product-limit
      survival exactly when no row left the sample between event times before it. */
  lemma {:induction false} PlotIsProductLimit(rows: seq<Row>, k: nat)
    requires k < |EventTimes(rows)|
    ensures LoopSurvival(rows, EventTimes(rows), k + 1) == ProductLimit(rows, EventTimes(rows), k + 1)
      <==> !StrayBefore(rows, k)
  {
    var times := EventTimes(rows);
    ProductLimitPositive(rows, k);
    SurvivalStep(rows, k);
    if !StrayBefore(rows, k) {
      RiskAtEvent(rows, k);
      if k > 0 {
        assert times[k - 1] < times[k];
        assert !StrayBefore(rows, k - 1);
        PlotIsProductLimit(rows, k - 1);
      }
    }
  }

  ghost predicate AgreesAfter(rows: seq<Row>, k: nat)
    requires k < |EventTimes(rows)|
  {
    LoopSurvival(rows, EventTimes(rows), k + 1) == ProductLimit(rows, EventTimes(rows), k + 1)
  }

  /** The whole plot is the product-limit curve exactly when no row strays before the last event. */
  lemma {:induction false} WholePlotIsProductLimit(rows: seq<Row>)
    requires EventTimes(rows) != []
    ensures (forall k | 0 <= k < |EventTimes(rows)| :: AgreesAfter(rows, k))
      <==> !StrayBefore(rows, |EventTimes(rows)| - 1)
  {
    hide LoopSurvival, ProductLimit;
    var last := |EventTimes(rows)| - 1;
    forall k | 0 <= k <= last
      ensures AgreesAfter(rows, k) <==> !StrayBefore(rows, k)
      ensures StrayBefore(rows, k) ==> StrayBefore(rows, last)
    {
      PlotIsProductLimit(rows, k);
      assert EventTimes(rows)[k] <= EventTimes(rows)[last];
    }
    assert AgreesAfter(rows, last) <==> !StrayBefore(rows, last);
  }

  /** Two subjects, one censored at 1 and one event at 2: the plot shows one half where the
      product-limit estimate has reached one. */
  lemma {:induction false} StrayExample()
    ensures var rows := [Row(1, false), Row(2, true)];
      && EventTimes(rows) == [2]
      && LoopSurvival(rows, [2], 1) == 0.5
      && ProductLimit(rows, [2], 1) == 0.0
  {
    var rows := [Row(1, false), Row(2, true)];
    assert rows[1..] == [Row(2, true)] && rows[1..][1..] == [];
    assert Events(rows, 2) == 1 && AtRisk(rows, 2) == 1;
    assert LoopRisk(rows, [2], 0) == 2;
    ProductUnits(0.5);
    ProductUnits(0.0);
  }

  // ---------------------------------------------------------------- late censoring

  function EventUpTo(t: int): Row -> bool {
    (row: Row) => row.time <= t && row.event
  }

  /** No row is censored before the last event. */
  ghost predicate CensoredLate(rows: seq<Row>) {
    forall row, t | row in rows && !row.event && t in EventTimes(rows) :: row.time >= t
  }

  /** How many events the loop has passed. */
  function EventsPassed(rows: seq<Row>, times: seq<int>, k: nat): nat
    requires k <= |times|
  {
    if k == 0 then 0 else EventsPassed(rows, times, k - 1) + Events(rows, times[k - 1])
  }

  lemma {:induction false} EventsPassedCounts(rows: seq<Row>, k: nat)
    requires k < |EventTimes(rows)|
    ensures EventsPassed(rows, EventTimes(rows), k + 1) == Count(rows, EventUpTo(EventTimes(rows)[k]))
  {
    var times := EventTimes(rows);
    var t := times[k];
    if k == 0 {
      forall row | row in rows ensures FailsAt(t)(row) == EventUpTo(t)(row) {
        if row.event {
          assert row.time in times;
        }
      }
      CountCongruent(rows, FailsAt(t), EventUpTo(t));
    } else {
      EventsPassedCounts(rows, k - 1);
      forall row | row in rows
        ensures EventUpTo(t)(row) <==> EventUpTo(times[k - 1])(row) || FailsAt(t)(row)
        ensures !(EventUpTo(times[k - 1])(row) && FailsAt(t)(row))
      {
        if row.event {
          assert row.time in times;
          BeforeEvent(rows, k, row.time);
          if row.time < t {
            var i :| 0 <= i < k && times[..k][i] == row.time;
            assert times[i] <= times[k - 1];
          }
        }
      }
      CountDisjoint(rows, EventUpTo(times[k - 1]), FailsAt(t), EventUpTo(t));
    }
  }

  /** Without early censoring the loop's risk is the sample less the events passed. */
  lemma {:induction false} LateRisk(rows: seq<Row>, k: nat)
    requires CensoredLate(rows) && k < |EventTimes(rows)|
    ensures LoopRisk(rows, EventTimes(rows), k) == |rows| - EventsPassed(rows, EventTimes(rows), k)
  {
    if k > 0 {
      var times := EventTimes(rows);
      LateRisk(rows, k - 1);
      assert times[k] in times && times[k - 1] < times[k];
      CountPositive(rows, CensoredAt(times[k - 1]));
    }
  }

  /** With all censoring at or after the last event, the plotted CDF is the empirical one: the
      number of events so far over the sample size. */
  lemma {:induction false} LateCensoringIsEmpirical(rows: seq<Row>, k: nat)
    requires CensoredLate(rows) && k < |EventTimes(rows)|
    ensures |rows| > 0
    ensures 1.0 - LoopSurvival(rows, EventTimes(rows), k + 1)
         == Quotient(Count(rows, EventUpTo(EventTimes(rows)[k])) as real, |rows| as real)
  {
    RiskAtEvent(rows, 0);
    LateSurvival(rows, k + 1);
    EventsPassedCounts(rows, k);
  }

  lemma {:induction false} LateSurvival(rows: seq<Row>, k: nat)
    requires CensoredLate(rows) && |rows| > 0 && k <= |EventTimes(rows)|
    ensures LoopSurvival(rows, EventTimes(rows), k)
         == 1.0 - Quotient(EventsPassed(rows, EventTimes(rows), k) as real, |rows| as real)
  {
    hide EventTimes, Events, AtRisk, CensoredLate;
    var times := EventTimes(rows);
    if k == 0 {
      ZeroQuotient(|rows| as real);
    } else {
      LateSurvival(rows, k - 1);
      LateRisk(rows, k - 1);
      RiskAtEvent(rows, k - 1);
      TelescopedFactor(EventsPassed(rows, times, k - 1) as real, Events(rows, times[k - 1]) as real, |rows| as real);
    }
  }

  lemma {:induction false} ZeroQuotient(n: real)
    requires n > 0.0
    ensures Quotient(0.0, n) == 0.0
  {
  }

  /** (1 - p/n)(1 - d/(n-p)) == 1 - (p+d)/n. */
  lemma {:induction false} TelescopedFactor(p: real, d: real, n: real)
    requires 0.0 < n && 0.0 < n - p
    ensures Product(1.0 - Quotient(p, n), 1.0 - Quotient(d, n - p)) == 1.0 - Quotient(p + d, n)
  {
    var a, b := Quotient(p, n), Quotient(d, n - p);
    QuotientBounds(p, n, 0.0);
    QuotientBounds(d, n - p, 0.0);
    assert (1.0 - a) * n == n - p;
    assert (1.0 - a) * (1.0 - b) * n == (n - p) * (1.0 - b) == n - p - d;
    QuotientIs((1.0 - a) * (1.0 - b), n - p - d, n);
    SplitQuotient(p + d, n);
  }

  lemma {:induction false} SplitQuotient(y: real, n: real)
    requires n > 0.0
    ensures Quotient(n - y, n) == 1.0 - Quotient(y, n)
  {
    QuotientBounds(y, n, 0.0);
    QuotientIs(1.0 - Quotient(y, n), n - y, n);
  }

  // ---------------------------------------------------------------- the other estimator

  datatype Point = Point(time: int, survival: real, events: nat, censored: nat)

  /** The product-limit curve over the first `k` of the distinct times. */
  function CurveTo(rows: seq<Row>, times: seq<int>, k: nat): (curve: seq<Point>)
    requires k <= |times|
    ensures |curve| == k
  {
    if k == 0 then []
    else
      var t := times[k - 1];
      CurveTo(rows, times, k - 1) + [Point(t, ProductLimit(rows, times, k), Events(rows, t), Censored(rows, t))]
  }

  /** A subject with its time, which is absent when it is not finite. */
  datatype Sample = Sample(time: Option<int>, event: bool)

  /** The subjects with finite times. */
  function FiniteRows(samples: seq<Sample>): seq<Row> {
    if samples == [] then []
    else
      var first := samples[0];
      (if first.time.Some? then [Row(first.time.value, first.event)] else []) + FiniteRows(samples[1..])
  }

  const IS_EVENT: Row -> bool := (row: Row) => row.event
  const IS_CENSORED: Row -> bool := (row: Row) => !row.event

  datatype Estimate = Estimate(n: nat, events: nat, censorFraction: real, median: Option<int>, curve: seq<Point>)

  /** The median splits the curve: survival is at most one half exactly from that time on, and no
      median means that it never is. */
  ghost predicate SplitsAtHalf(curve: seq<Point>, median: Option<int>) {
    && (median.Some? ==> exists j :: 0 <= j < |curve| && curve[j].time == median.value)
    && forall j | 0 <= j < |curve| ::
         curve[j].survival <= 0.5 <==> median.Some? && curve[j].time >= median.value
  }

  /** The median the loop has found after `k` times: the first with a survival of at most one half. */
  function MedianTo(rows: seq<Row>, times: seq<int>, k: nat): Option<int>
    requires k <= |times|
  {
    if k == 0 then None
    else
      var before := MedianTo(rows, times, k - 1);
      if before.None? && ProductLimit(rows, times, k) <= 0.5 then Some(times[k - 1]) else before
  }

  function CensoredPassed(rows: seq<Row>, times: seq<int>, k: nat): nat
    requires k <= |times|
  {
    if k == 0 then 0 else CensoredPassed(rows, times, k - 1) + Censored(rows, times[k - 1])
  }

  /** What `_kaplan_meier` reports: the product-limit curve with its median, and counts that the
      points of the curve add up to. */
  ghost predicate IsEstimate(rows: seq<Row>, estimate: Estimate) {
    var times := TimesOf(rows, false);
    && estimate.n == |rows| > 0
    && estimate.curve == CurveTo(rows, times, |times|)
    && SplitsAtHalf(estimate.curve, estimate.median)
    && estimate.events == EventsPassed(rows, times, |times|)
    && estimate.n == estimate.events + CensoredPassed(rows, times, |times|)
    && estimate.censorFraction == 1.0 - Quotient(estimate.events as real, estimate.n as real)
    // at event times the estimate depends on the event times alone
    && forall j, k | 0 <= j < |times| && 0 <= k < |EventTimes(rows)| && times[j] == EventTimes(rows)[k] ::
         estimate.curve[j].survival == ProductLimit(rows, EventTimes(rows), k + 1)
  }

  /** `_kaplan_meier`: without finite times there is no estimate; otherwise its loop visits every
      distinct time, so its risk is the textbook risk and its curve is the product-limit estimate. */
  method KaplanMeierCurve(samples: seq<Sample>) returns (result: Option<Estimate>)
    ensures result.None? <==> FiniteRows(samples) == []
    ensures result.Some? ==> IsEstimate(FiniteRows(samples), result.value)
    ensures result.Some? ==> ReadsSamples(samples, result.value)
  {
    hide IsEstimate, ReadsSamples, TimesOf, ProductLimit, Events, Censored;
    var rows := FiniteRows(samples);
    if rows == [] {
      return None;
    }
    var times := TimesOf(rows, false);
    var atRisk := |rows|;
    var survival := 1.0;
    var curve: seq<Point> := [];
    var median: Option<int> := None;
    NoTimesYet(rows, times);
    for i := 0 to |times|
      invariant atRisk == LoopRisk(rows, times, i)
      invariant survival == ProductLimit(rows, times, i)
      invariant curve == CurveTo(rows, times, i) && median == MedianTo(rows, times, i)
    {
      var eventTime := times[i];
      var events := Events(rows, eventTime);
      var censored := Censored(rows, eventTime);
      CurveStep(rows, i);
      if events > 0 {
        survival := Product(survival, 1.0 - Quotient(events as real, atRisk as real));
      }
      curve := curve + [Point(eventTime, survival, events, censored)];
      if median.None? && survival <= 0.5 {
        median := Some(eventTime);
      }
      atRisk := atRisk - (events + censored);
    }
    var total := Count(rows, IS_EVENT);
    var estimate := Estimate(|rows|, total, Quotient(Count(rows, IS_CENSORED) as real, |rows| as real), median, curve);
    CurveIsEstimate(rows, estimate);
    EstimateReadsSamples(samples, estimate);
    result := Some(estimate);
  }

  /** The subjects with a finite time, with an event or without one at `t`, and with a time of `t` or later. */
  function Finite(samples: seq<Sample>): set<nat> {
    set i: nat | i < |samples| && samples[i].time.Some?
  }

  function LeavingAt(samples: seq<Sample>, t: int, event: bool): set<nat> {
    set i: nat | i < |samples| && samples[i].time == Some(t) && samples[i].event == event
  }

  function LastingTo(samples: seq<Sample>, t: int): set<nat> {
    set i: nat | i < |samples| && samples[i].time.Some? && samples[i].time.value >= t
  }

  ghost predicate PresentAt(samples: seq<Sample>, t: int) {
    exists i :: 0 <= i < |samples| && samples[i].time == Some(t)
  }

  ghost predicate HasPointAt(curve: seq<Point>, t: int) {
    exists j :: 0 <= j < |curve| && curve[j].time == t
  }

  /** The estimate in terms of the samples: one point per distinct finite time, in order, with its
      events and censorings, and a survival that shrinks by its events over the subjects that last. */
  ghost predicate ReadsSamples(samples: seq<Sample>, estimate: Estimate) {
    var curve := estimate.curve;
    && estimate.n == |Finite(samples)|
    && (forall i, j | 0 <= i < j < |curve| :: curve[i].time < curve[j].time)
    && (forall t :: HasPointAt(curve, t) <==> PresentAt(samples, t))
    && forall j | 0 <= j < |curve| :: PointReads(samples, curve, j)
  }

  ghost predicate PointReads(samples: seq<Sample>, curve: seq<Point>, j: nat)
    requires j < |curve|
  {
    var before := if j == 0 then 1.0 else curve[j - 1].survival;
    var lasting := |LastingTo(samples, curve[j].time)|;
    && curve[j].events == |LeavingAt(samples, curve[j].time, true)|
    && curve[j].censored == |LeavingAt(samples, curve[j].time, false)|
    && 0 < lasting
    && Product(curve[j].survival, lasting as real) == Product(before, (lasting - curve[j].events) as real)
  }

  function OnSample(p: Row -> bool): Sample -> bool {
    (sample: Sample) => sample.time.Some? && p(Row(sample.time.value, sample.event))
  }

  lemma {:induction false} FiniteCount(samples: seq<Sample>, p: Row -> bool)
    ensures Count(FiniteRows(samples), p) == Count(samples, OnSample(p))
  {
    if samples != [] {
      var first := samples[0];
      FiniteCount(samples[1..], p);
      if first.time.Some? {
        var row := Row(first.time.value, first.event);
        assert FiniteRows(samples)[1..] == FiniteRows(samples[1..]);
      } else {
        assert [] + FiniteRows(samples[1..]) == FiniteRows(samples[1..]);
      }
    }
  }

  lemma {:induction false} FinitePlaces(samples: seq<Sample>, p: Row -> bool)
    ensures Count(FiniteRows(samples), p) == |Places(samples, OnSample(p))|
  {
    FiniteCount(samples, p);
    CountIsSize(samples, OnSample(p));
  }

  lemma {:induction false} SampleCounts(samples: seq<Sample>, t: int)
    ensures Events(FiniteRows(samples), t) == |LeavingAt(samples, t, true)|
    ensures Censored(FiniteRows(samples), t) == |LeavingAt(samples, t, false)|
    ensures AtRisk(FiniteRows(samples), t) == |LastingTo(samples, t)|
    ensures |FiniteRows(samples)| == |Finite(samples)|
  {
    hide FiniteRows, Count;
    FinitePlaces(samples, FailsAt(t));
    assert Places(samples, OnSample(FailsAt(t))) == LeavingAt(samples, t, true);
    FinitePlaces(samples, CensoredAt(t));
    assert Places(samples, OnSample(CensoredAt(t))) == LeavingAt(samples, t, false);
    FinitePlaces(samples, NoEarlierThan(t));
    assert Places(samples, OnSample(NoEarlierThan(t))) == LastingTo(samples, t);
    var every: Row -> bool := (row: Row) => true;
    CountAll(FiniteRows(samples), every);
    FinitePlaces(samples, every);
    assert Places(samples, OnSample(every)) == Finite(samples);
  }

  lemma {:induction false} RowPresent(samples: seq<Sample>, t: int)
    ensures PresentAt(samples, t) <==> exists row :: row in FiniteRows(samples) && row.time == t
  {
    var here: Row -> bool := (row: Row) => row.time == t;
    CountPositive(FiniteRows(samples), here);
    CountPositive(samples, OnSample(here));
    FiniteCount(samples, here);
    if row :| row in FiniteRows(samples) && row.time == t {
      assert here(row);
      var sample :| sample in samples && OnSample(here)(sample);
      var i :| 0 <= i < |samples| && samples[i] == sample;
    }
    if i :| 0 <= i < |samples| && samples[i].time == Some(t) {
      assert samples[i] in samples && OnSample(here)(samples[i]);
      var row :| row in FiniteRows(samples) && here(row);
    }
  }

  lemma {:induction false} EstimateReadsSamples(samples: seq<Sample>, estimate: Estimate)
    requires IsEstimate(FiniteRows(samples), estimate)
    ensures ReadsSamples(samples, estimate)
  {
    hide FiniteRows, ProductLimit, CurveTo, Finite, LeavingAt, LastingTo, PointReads, Count, SplitsAtHalf;
    var rows := FiniteRows(samples);
    var times, curve := TimesOf(rows, false), estimate.curve;
    SampleCounts(samples, 0);
    forall j | 0 <= j < |times| ensures curve[j].time == times[j] {
      CurvePoint(rows, times, |times|, j);
    }
    forall t ensures HasPointAt(curve, t) <==> PresentAt(samples, t) {
      RowPresent(samples, t);
      if t in times {
        var j :| 0 <= j < |times| && times[j] == t;
        assert curve[j].time == t;
      }
      if j :| 0 <= j < |curve| && curve[j].time == t {
        assert times[j] in times;
      }
    }
    forall j | 0 <= j < |curve| ensures PointReads(samples, curve, j) {
      PointReadsSamples(samples, curve, j);
    }
  }

  lemma {:induction false} PointReadsSamples(samples: seq<Sample>, curve: seq<Point>, j: nat)
    requires var times := TimesOf(FiniteRows(samples), false);
      j < |curve| && curve == CurveTo(FiniteRows(samples), times, |times|)
    ensures PointReads(samples, curve, j)
  {
    hide FiniteRows, TimesOf, CurveTo, Finite, LeavingAt, LastingTo, Count;
    var rows := FiniteRows(samples);
    var times := TimesOf(rows, false);
    CurvePoint(rows, times, |times|, j);
    if j > 0 {
      CurvePoint(rows, times, |times|, j - 1);
    }
    CurveRisk(rows, j);
    SampleCounts(samples, times[j]);
    NoEventFactor(ProductLimit(rows, times, j), AtRisk(rows, times[j]));
    ScaledFactor(ProductLimit(rows, times, j), Events(rows, times[j]) as real, AtRisk(rows, times[j]) as real);
  }

  lemma {:induction false} NoTimesYet(rows: seq<Row>, times: seq<int>)
    ensures ProductLimit(rows, times, 0) == 1.0 && LoopRisk(rows, times, 0) == |rows|
  {
  }

  lemma {:induction false} CurveStep(rows: seq<Row>, k: nat)
    requires k < |TimesOf(rows, false)|
    ensures var times := TimesOf(rows, false);
      var risk, events := LoopRisk(rows, times, k), Events(rows, times[k]);
      var before, after := ProductLimit(rows, times, k), ProductLimit(rows, times, k + 1);
      && risk > 0
      && (events > 0 ==> after == Product(before, 1.0 - Quotient(events as real, risk as real)))
      && (events == 0 ==> after == before)
      && LoopRisk(rows, times, k + 1) == risk - (events + Censored(rows, times[k]))
  {
    hide TimesOf, Events, Censored;
    var times := TimesOf(rows, false);
    CurveRisk(rows, k);
    NoEventFactor(ProductLimit(rows, times, k), AtRisk(rows, times[k]));
  }

  function EventIn(times: set<int>): Row -> bool {
    (row: Row) => row.event && row.time in times
  }

  lemma {:induction false} EventsPassedAmong(rows: seq<Row>, times: seq<int>, k: nat)
    requires k <= |times| && Increasing(times)
    ensures EventsPassed(rows, times, k) == Count(rows, EventIn(Prefix(times, k)))
  {
    if k == 0 {
      CountPositive(rows, EventIn(Prefix(times, 0)));
    } else {
      var t := times[k - 1];
      EventsPassedAmong(rows, times, k - 1);
      assert times[..k] == times[..k - 1] + [t];
      assert t !in Prefix(times, k - 1);
      CountDisjoint(rows, FailsAt(t), EventIn(Prefix(times, k - 1)), EventIn(Prefix(times, k)));
    }
  }

  lemma {:induction false} RiskIsConserved(rows: seq<Row>, times: seq<int>, k: nat)
    requires k <= |times|
    ensures LoopRisk(rows, times, k) + EventsPassed(rows, times, k) + CensoredPassed(rows, times, k) == |rows|
  {
    if k > 0 {
      RiskIsConserved(rows, times, k - 1);
    }
  }

  /** The points of the whole curve account for every subject once. */
  lemma {:induction false} CurveAccounts(rows: seq<Row>)
    ensures var times := TimesOf(rows, false);
      && Count(rows, IS_EVENT) == EventsPassed(rows, times, |times|)
      && |rows| == EventsPassed(rows, times, |times|) + CensoredPassed(rows, times, |times|)
      && Count(rows, IS_CENSORED) == |rows| - Count(rows, IS_EVENT)
  {
    hide Count;
    var times := TimesOf(rows, false);
    var n := |times|;
    assert times[..n] == times;
    EventsPassedAmong(rows, times, n);
    LoopRiskCounts(rows, times, n);
    RiskIsConserved(rows, times, n);
    forall row | row in rows ensures row.time in Prefix(times, n) {
      assert row.time in times;
    }
    CountCongruent(rows, EventIn(Prefix(times, n)), IS_EVENT);
    CountPositive(rows, NotAmong(Prefix(times, n)));
    var every: Row -> bool := (row: Row) => true;
    CountAll(rows, every);
    CountDisjoint(rows, IS_EVENT, IS_CENSORED, every);
  }

  lemma {:induction false} CurveFalls(rows: seq<Row>, j: nat, k: nat)
    requires j <= k <= |TimesOf(rows, false)|
    ensures 0.0 <= ProductLimit(rows, TimesOf(rows, false), k) <= ProductLimit(rows, TimesOf(rows, false), j) <= 1.0
    decreases k
  {
    hide TimesOf, AtRisk, Events;
    var times := TimesOf(rows, false);
    if k > 0 {
      CurveFalls(rows, if j < k then j else k - 1, k - 1);
      CurveRisk(rows, k - 1);
      FactorBounds(Events(rows, times[k - 1]), AtRisk(rows, times[k - 1]));
      var before := ProductLimit(rows, times, k - 1);
      var factor := Survive(Events(rows, times[k - 1]), AtRisk(rows, times[k - 1]));
      ProductBounds(before, before, factor, 1.0);
      ProductUnits(before);
    }
  }

  lemma {:induction false} FactorBounds(events: nat, risk: int)
    requires risk > 0 && risk >= events
    ensures 0.0 <= Survive(events, risk) <= 1.0
  {
    if events > 0 {
      SurviveBounds(events, risk, risk);
    } else {
      ZeroQuotient(risk as real);
    }
  }

  lemma {:induction false} MedianSplits(rows: seq<Row>, k: nat)
    requires k <= |TimesOf(rows, false)|
    ensures var times, median := TimesOf(rows, false), MedianTo(rows, TimesOf(rows, false), k);
      && (median.Some? ==> exists j :: 0 <= j < k && times[j] == median.value)
      && forall j | 0 <= j < k ::
           ProductLimit(rows, times, j + 1) <= 0.5 <==> median.Some? && times[j] >= median.value
  {
    hide TimesOf, ProductLimit;
    if k > 0 {
      MedianSplits(rows, k - 1);
      var times := TimesOf(rows, false);
      forall i | 0 < i <= k ensures ProductLimit(rows, times, k) <= ProductLimit(rows, times, i) {
        CurveFalls(rows, i, k);
      }
    }
  }

  lemma {:induction false} CurveIsEstimate(rows: seq<Row>, estimate: Estimate)
    requires rows != [] && estimate.n == |rows| && estimate.events == Count(rows, IS_EVENT)
    requires estimate.censorFraction == Quotient(Count(rows, IS_CENSORED) as real, |rows| as real)
    requires var times := TimesOf(rows, false);
      estimate.curve == CurveTo(rows, times, |times|) && estimate.median == MedianTo(rows, times, |times|)
    ensures IsEstimate(rows, estimate)
  {
    hide TimesOf, ProductLimit, MedianTo, CurveTo, Count;
    var times := TimesOf(rows, false);
    CurveAccounts(rows);
    SplitQuotient(estimate.events as real, estimate.n as real);
    MedianSplits(rows, |times|);
    forall j | 0 <= j < |times|
      ensures estimate.curve[j].time == times[j] && estimate.curve[j].survival == ProductLimit(rows, times, j + 1)
    {
      CurvePoint(rows, times, |times|, j);
    }
    CurveAtEvents(rows);
  }

  lemma {:induction false} CurvePoint(rows: seq<Row>, times: seq<int>, k: nat, j: nat)
    requires j < k <= |times|
    ensures CurveTo(rows, times, k)[j].time == times[j]
    ensures CurveTo(rows, times, k)[j].survival == ProductLimit(rows, times, j + 1)
    ensures CurveTo(rows, times, k)[j].events == Events(rows, times[j])
    ensures CurveTo(rows, times, k)[j].censored == Censored(rows, times[j])
  {
    if j < k - 1 {
      CurvePoint(rows, times, k - 1, j);
    }
  }

  lemma {:induction false} CurveAtEvents(rows: seq<Row>)
    ensures var curve := CurveTo(rows, TimesOf(rows, false), |TimesOf(rows, false)|);
      forall j, k | 0 <= j < |curve| && 0 <= k < |EventTimes(rows)| && curve[j].time == EventTimes(rows)[k] ::
        curve[j].survival == ProductLimit(rows, EventTimes(rows), k + 1)
  {
    var times := TimesOf(rows, false);
    var curve := CurveTo(rows, times, |times|);
    forall j, k | 0 <= j < |curve| && 0 <= k < |EventTimes(rows)| && curve[j].time == EventTimes(rows)[k]
      ensures curve[j].survival == ProductLimit(rows, EventTimes(rows), k + 1)
    {
      CurvePoint(rows, times, |times|, j);
      CurveAtEvent(rows, j, k);
    }
  }

  lemma {:induction false} NoEventFactor(x: real, risk: int)
    ensures Product(x, Survive(0, risk)) == x
  {
    ProductUnits(x);
    if risk > 0 {
      ZeroQuotient(risk as real);
    }
  }

  lemma {:induction false} CurveRisk(rows: seq<Row>, k: nat)
    requires k < |TimesOf(rows, false)|
    ensures var times := TimesOf(rows, false);
      LoopRisk(rows, times, k) == AtRisk(rows, times[k]) > 0 && AtRisk(rows, times[k]) >= Events(rows, times[k])
  {
    var times := TimesOf(rows, false);
    var t := times[k];
    LoopRiskCounts(rows, times, k);
    forall row | row in rows ensures NotAmong(Prefix(times, k))(row) == NoEarlierThan(t)(row) {
      assert row.time in times;
      PrefixIsBelow(times, k, row.time);
    }
    CountCongruent(rows, NotAmong(Prefix(times, k)), NoEarlierThan(t));
    assert t in times;
    CountPositive(rows, NoEarlierThan(t));
    CountMonotone(rows, FailsAt(t), NoEarlierThan(t));
  }

  lemma {:induction false} PrefixIsBelow(times: seq<int>, k: nat, t: int)
    requires Increasing(times) && k < |times| && t in times
    ensures t in Prefix(times, k) <==> t < times[k]
  {
    var i :| 0 <= i < |times| && times[i] == t;
    if i < k {
      assert times[..k][i] == t;
    }
  }

  /** The first `k` event times are the event times among the first `j` times. */
  ghost predicate EventsAmong(rows: seq<Row>, times: seq<int>, j: nat, events: seq<int>, k: nat)
    requires j <= |times| && k <= |events|
  {
    forall t :: t in events[..k] <==> t in times[..j] && Events(rows, t) > 0
  }

  /** Visiting the times without events changes nothing. */
  lemma {:induction false} SkipsNonEvents(rows: seq<Row>, times: seq<int>, j: nat, events: seq<int>, k: nat)
    requires j <= |times| && k <= |events| && Increasing(times) && Increasing(events)
    requires EventsAmong(rows, times, j, events, k)
    ensures ProductLimit(rows, times, j) == ProductLimit(rows, events, k)
  {
    FirstOfPrefix(events, k);
    if j > 0 {
      var t := times[j - 1];
      assert times[..j] == times[..j - 1] + [t];
      if Events(rows, t) == 0 {
        NoEventFactor(ProductLimit(rows, times, j - 1), AtRisk(rows, t));
        assert t !in events[..k];
        SkipsNonEvents(rows, times, j - 1, events, k);
      } else {
        LastOfPrefix(times, j, events, k);
        ShorterPrefixes(rows, times, j, events, k);
        SkipsNonEvents(rows, times, j - 1, events, k - 1);
      }
    }
  }

  lemma {:induction false} ShorterPrefixes(rows: seq<Row>, times: seq<int>, j: nat, events: seq<int>, k: nat)
    requires 0 < j <= |times| && 0 < k <= |events| && Increasing(times) && Increasing(events)
    requires times[j - 1] == events[k - 1]
    requires EventsAmong(rows, times, j, events, k)
    ensures EventsAmong(rows, times, j - 1, events, k - 1)
  {
    var last := times[j - 1];
    assert times[..j] == times[..j - 1] + [last] && events[..k] == events[..k - 1] + [last];
    assert last !in times[..j - 1] && last !in events[..k - 1];
    forall t ensures t in events[..k - 1] <==> t in times[..j - 1] && Events(rows, t) > 0 {
      assert t in events[..k] <==> t in events[..k - 1] || t == last;
    }
  }

  lemma {:induction false} FirstOfPrefix(times: seq<int>, k: nat)
    requires k <= |times|
    ensures k > 0 ==> times[0] in times[..k]
  {
    if k > 0 {
      assert times[..k][0] in times[..k];
    }
  }

  lemma {:induction false} LastOfPrefix(times: seq<int>, j: nat, events: seq<int>, k: nat)
    requires 0 < j <= |times| && k <= |events| && Increasing(times) && Increasing(events)
    requires times[j - 1] in events[..k] && forall t | t in events[..k] :: t in times[..j]
    ensures k > 0 && events[k - 1] == times[j - 1]
  {
    assert events[k - 1] in events[..k];
    assert events[k - 1] in times[..j];
    var i :| 0 <= i < k && events[..k][i] == times[j - 1];
    assert events[i] <= events[k - 1];
    var l :| 0 <= l < j && times[..j][l] == events[k - 1];
    assert times[l] <= times[j - 1];
  }

  lemma {:induction false} CurveAtEvent(rows: seq<Row>, j: nat, k: nat)
    requires j < |TimesOf(rows, false)| && k < |EventTimes(rows)|
    requires TimesOf(rows, false)[j] == EventTimes(rows)[k]
    ensures ProductLimit(rows, TimesOf(rows, false), j + 1) == ProductLimit(rows, EventTimes(rows), k + 1)
  {
    var times, events := TimesOf(rows, false), EventTimes(rows);
    hide TimesOf, EventTimes, Events;
    var m, n := j + 1, k + 1;
    forall t ensures t in events[..n] <==> t in times[..m] && Events(rows, t) > 0 {
      EventUpToBoth(rows, j, k, t);
    }
    SkipsNonEvents(rows, times, m, events, n);
  }

  lemma {:induction false} EventUpToBoth(rows: seq<Row>, j: nat, k: nat, t: int)
    requires j < |TimesOf(rows, false)| && k < |EventTimes(rows)|
    requires TimesOf(rows, false)[j] == EventTimes(rows)[k]
    ensures t in EventTimes(rows)[..k + 1] <==> t in TimesOf(rows, false)[..j + 1] && Events(rows, t) > 0
  {
    PrefixUpTo(EventTimes(rows), k, t);
    PrefixUpTo(TimesOf(rows, false), j, t);
    CountPositive(rows, FailsAt(t));
    if t in EventTimes(rows) {
      var row :| row in rows && row.time == t && row.event;
      assert FailsAt(t)(row);
      assert t in TimesOf(rows, false);
    }
    assert Events(rows, t) > 0 <==> t in EventTimes(rows);
  }

  lemma {:induction false} PrefixUpTo(times: seq<int>, k: nat, t: int)
    requires Increasing(times) && k < |times|
    ensures t in times[..k + 1] <==> t in times && t <= times[k]
  {
    if t in times && t <= times[k] {
      var i :| 0 <= i < |times| && times[i] == t;
      assert times[..k + 1][i] == t;
    }
  }
}
