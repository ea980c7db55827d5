/** The live-set chain of an episode's queries and its information accounting (`_validate_queries`).
    `math.log2` is any function with the laws of a base-2 logarithm. */
module InquiryChain {
  import opened Reals
  import opened Options

  const TOLERANCE := 0.000000000001

  /** The laws used of `math.log2` on positive reals. */
  ghost predicate IsLog2(log: real -> real) {
    && log(1.0) == 0.0 && log(2.0) == 1.0
    && (forall x, y | x > 0.0 && y > 0.0 :: log(Product(x, y)) == log(x) + log(y))
    && (forall x, y | 0.0 < x < y :: log(x) < log(y))
  }

  /** `_close`. */
  predicate Close(x: real, y: real) {
    IsClose(x, y, TOLERANCE, TOLERANCE)
  }

  /** Close values differ by at most 1e-12, or by that share of the larger one's size. */
  lemma {:induction false} CloseMeans(x: real, y: real)
    ensures Close(x, y)
       <==> (Abs(x - y) <= 0.000000000001 || 1000000000000.0 * Abs(x - y) <= Abs(x)
             || 1000000000000.0 * Abs(x - y) <= Abs(y))
  {
  }

  datatype Observation = Observation(option: string, accepted: bool)

  datatype Turn = Turn(turn: int, option: string, accepted: bool, before: int, after: int,
                       expectedBits: real, bestBits: real, realizedBits: real, regretBits: real)

  datatype Metric = Metric(initialLive: int, finalLive: int, queryCount: int, turns: seq<Turn>,
                           informationFraction: real)

  datatype Inquiry = Inquiry(start: int, end: int, fraction: real, turns: seq<Turn>)

  function Ratio(x: int, y: int): real
    requires y > 0
  {
    Quotient(x as real, y as real)
  }

  /** The live count that turn `k` must start from. */
  function LiveBefore(start: int, turns: seq<Turn>, k: nat): int
    requires k <= |turns|
  {
    if k == 0 then start else turns[k - 1].after
  }

  /** Turn `k` continues the chain, with a new option, its observation and a consistent account. */
  predicate TurnPasses(log: real -> real, start: int, observations: seq<Observation>, turns: seq<Turn>, k: nat)
    requires k < |turns| == |observations|
  {
    var turn := turns[k];
    && turn.option == observations[k].option && turn.accepted == observations[k].accepted && turn.turn == k + 1
    && (forall j | 0 <= j < k :: observations[j].option != observations[k].option)
    && 1 <= turn.before && 1 <= turn.after && turn.before == LiveBefore(start, turns, k) && turn.after <= turn.before
    && Close(turn.realizedBits, log(Ratio(turn.before, turn.after)))
    && -TOLERANCE <= turn.expectedBits && -TOLERANCE <= turn.bestBits && -TOLERANCE <= turn.regretBits
    && Close(turn.bestBits - turn.expectedBits, turn.regretBits)
  }

  ghost predicate TurnsPass(log: real -> real, start: int, observations: seq<Observation>, turns: seq<Turn>, n: nat)
    requires n <= |turns| == |observations|
  {
    forall k | 0 <= k < n :: TurnPasses(log, start, observations, turns, k)
  }

  /** The whole of what the chain part accepts. */
  ghost predicate InquiryAccepted(log: real -> real, expectedStart: int, observations: seq<Observation>,
                                  metric: Metric) {
    var start, end, turns := metric.initialLive, metric.finalLive, metric.turns;
    && start == expectedStart && 1 <= end <= start
    && metric.queryCount <= 2 && |observations| == |turns| == metric.queryCount
    && TurnsPass(log, start, observations, turns, |turns|)
    && LiveBefore(start, turns, |turns|) == end
    && 0.0 <= metric.informationFraction <= 1.0
    && Close(metric.informationFraction, ExpectedFraction(log, start, end))
  }

  /** log2(start/end) / log2(start). */
  function ExpectedFraction(log: real -> real, start: int, end: int): real
    requires end > 0
  {
    if log(start as real) == 0.0 then 0.0 else Quotient(log(Ratio(start, end)), log(start as real))
  }

  /** The source's loop over observations and turns. A design start of at least two keeps the
      fraction's denominator positive. */
  method ValidateQueries(log: real -> real, expectedStart: int, observations: seq<Observation>, metric: Metric)
      returns (result: Result<Inquiry>)
    requires expectedStart >= 2 && IsLog2(log)
    ensures result.Ok? <==> InquiryAccepted(log, expectedStart, observations, metric)
    ensures result.Ok? ==>
      result.value == Inquiry(metric.initialLive, metric.finalLive, metric.informationFraction, metric.turns)
  {
    var start, end := metric.initialLive, metric.finalLive;
    if start < 1 || end < 1 || metric.queryCount < 0 {
      return Err("live counts must be positive");
    }
    if start != expectedStart || !(end <= start) || metric.queryCount > 2 {
      return Err("live-set or query count differs from the design");
    }
    var turns := metric.turns;
    if |observations| != metric.queryCount || |turns| != metric.queryCount {
      return Err("query records disagree with query_count");
    }
    hide Close, IsLog2, Ratio;
    var live := start;
    var seen: set<string> := {};
    var validated: seq<Turn> := [];
    for offset := 0 to |turns|
      invariant live == LiveBefore(start, turns, offset)
      invariant forall option :: option in seen <==> exists j :: 0 <= j < offset && observations[j].option == option
      invariant validated == turns[..offset]
      invariant TurnsPass(log, start, observations, turns, offset)
    {
      var observation, turn := observations[offset], turns[offset];
      if observation.option in seen || turn.option != observation.option {
        assert !TurnPasses(log, start, observations, turns, offset);
        return Err("query option sequence is invalid");
      }
      seen := seen + {observation.option};
      if turn.accepted != observation.accepted || turn.turn != offset + 1 {
        assert !TurnPasses(log, start, observations, turns, offset);
        return Err("query observation and metric differ");
      }
      if turn.before < 1 || turn.after < 1 || turn.before != live || turn.after > turn.before {
        assert !TurnPasses(log, start, observations, turns, offset);
        return Err("query increased the live set");
      }
      if !Close(turn.realizedBits, log(Ratio(turn.before, turn.after))) {
        assert !TurnPasses(log, start, observations, turns, offset);
        return Err("realized query information is inconsistent");
      }
      if Min(turn.expectedBits, Min(turn.bestBits, turn.regretBits)) < -TOLERANCE {
        assert !TurnPasses(log, start, observations, turns, offset);
        return Err("query information is negative");
      }
      if !Close(turn.bestBits - turn.expectedBits, turn.regretBits) {
        assert !TurnPasses(log, start, observations, turns, offset);
        return Err("query regret identity is inconsistent");
      }
      validated := validated + [turn];
      live := turn.after;
    }
    if live != end {
      return Err("query chain does not end at final_live_count");
    }
    StartHasInformation(log, start);
    if !(0.0 <= metric.informationFraction <= 1.0)
       || !Close(metric.informationFraction, Quotient(log(Ratio(start, end)), log(start as real))) {
      return Err("information_fraction is inconsistent");
    }
    result := Ok(Inquiry(start, end, metric.informationFraction, validated));
  }

  lemma {:induction false} StartHasInformation(log: real -> real, start: int)
    requires IsLog2(log) && start >= 2
    ensures log(start as real) >= 1.0
  {
  }

  // ---------------------------------------------------------------- chains of any length

  /** Live counts never rise along a chain, and its options are distinct. */
  lemma {:induction false} LiveNeverRises(log: real -> real, start: int, observations: seq<Observation>,
                                          turns: seq<Turn>, j: nat, k: nat)
    requires j <= k <= |turns| == |observations| && TurnsPass(log, start, observations, turns, k)
    ensures LiveBefore(start, turns, k) <= LiveBefore(start, turns, j)
    ensures forall i, l | 0 <= i < l < k :: turns[i].option != turns[l].option
  {
    forall i, l | 0 <= i < l < k ensures turns[i].option != turns[l].option {
      assert TurnPasses(log, start, observations, turns, i) && TurnPasses(log, start, observations, turns, l);
    }
    if j < k {
      assert TurnPasses(log, start, observations, turns, k - 1);
      LiveNeverRises(log, start, observations, turns, j, k - 1);
    }
  }

  predicate Positive(turns: seq<Turn>, n: nat)
    requires n <= |turns|
  {
    forall k | 0 <= k < n :: turns[k].before > 0 && turns[k].after > 0
  }

  /** The product of the before/after ratios of the first `n` turns. */
  function RatioProduct(turns: seq<Turn>, n: nat): real
    requires n <= |turns| && Positive(turns, n)
  {
    if n == 0 then 1.0 else Product(RatioProduct(turns, n - 1), Ratio(turns[n - 1].before, turns[n - 1].after))
  }

  function ExactBits(log: real -> real, turns: seq<Turn>, n: nat): real
    requires n <= |turns| && Positive(turns, n)
  {
    if n == 0 then 0.0 else ExactBits(log, turns, n - 1) + log(Ratio(turns[n - 1].before, turns[n - 1].after))
  }

  function RealizedBits(turns: seq<Turn>, n: nat): real
    requires n <= |turns|
  {
    if n == 0 then 0.0 else RealizedBits(turns, n - 1) + turns[n - 1].realizedBits
  }

  /** What `_close` tolerates for one pair. */
  function Slack(x: real, y: real): real {
    Max(TOLERANCE * Max(Abs(x), Abs(y)), TOLERANCE)
  }

  function TotalSlack(log: real -> real, turns: seq<Turn>, n: nat): real
    requires n <= |turns| && Positive(turns, n)
  {
    if n == 0 then 0.0
    else
      var turn := turns[n - 1];
      TotalSlack(log, turns, n - 1) + Slack(turn.realizedBits, log(Ratio(turn.before, turn.after)))
  }

  lemma {:induction false} RatioChain(x: int, y: int, z: int)
    requires x > 0 && y > 0 && z > 0
    ensures Product(Ratio(x, y), Ratio(y, z)) == Ratio(x, z)
    ensures Ratio(x, z) > 0.0
  {
  }

  lemma {:induction false} LogOfOne(log: real -> real)
    requires IsLog2(log)
    ensures log(1.0) == 0.0
  {
  }

  lemma {:induction false} RatioOfEqual(x: int)
    requires x > 0
    ensures Ratio(x, x) == 1.0
  {
  }

  /** The ratios telescope to start/live, and the exact information to its logarithm, for a chain of
      any length. */
  lemma {:induction false} ChainTelescopes(log: real -> real, start: int, observations: seq<Observation>,
                                           turns: seq<Turn>, n: nat)
    requires IsLog2(log) && start >= 1
    requires n <= |turns| == |observations| && TurnsPass(log, start, observations, turns, n)
    ensures Positive(turns, n)
    ensures LiveBefore(start, turns, n) >= 1
    ensures RatioProduct(turns, n) == Ratio(start, LiveBefore(start, turns, n))
    ensures ExactBits(log, turns, n) == log(Ratio(start, LiveBefore(start, turns, n)))
    ensures Abs(RealizedBits(turns, n) - ExactBits(log, turns, n)) <= TotalSlack(log, turns, n)
  {
    hide IsLog2, TurnPasses, Ratio, Slack, Close, Product;
    if n == 0 {
      RatioOfEqual(start);
      LogOfOne(log);
    } else {
      hide Abs;
      ChainTelescopes(log, start, observations, turns, n - 1);
      var turn := turns[n - 1];
      TurnFacts(log, start, observations, turns, n - 1);
      RatioChain(start, turn.before, turn.after);
      RatioChain(start, start, turn.before);
      RatioChain(turn.before, turn.before, turn.after);
      LogOfProduct(log, Ratio(start, turn.before), Ratio(turn.before, turn.after));
      SlackAdds(RealizedBits(turns, n - 1), ExactBits(log, turns, n - 1), TotalSlack(log, turns, n - 1),
        turn.realizedBits, log(Ratio(turn.before, turn.after)));
    }
  }

  /** What a passing turn contributes to the chain. */
  lemma {:induction false} TurnFacts(log: real -> real, start: int, observations: seq<Observation>, turns: seq<Turn>,
                                     k: nat)
    requires k < |turns| == |observations| && TurnPasses(log, start, observations, turns, k)
    ensures turns[k].before == LiveBefore(start, turns, k) && 1 <= turns[k].after <= turns[k].before
    ensures Abs(turns[k].realizedBits - log(Ratio(turns[k].before, turns[k].after)))
         <= Slack(turns[k].realizedBits, log(Ratio(turns[k].before, turns[k].after)))
  {
  }

  lemma {:induction false} TurnIsNear(log: real -> real, start: int, observations: seq<Observation>,
                                      turns: seq<Turn>, k: nat)
    requires k < |turns| == |observations| && TurnPasses(log, start, observations, turns, k)
    ensures turns[k].after > 0
    ensures NearTruth(turns[k].realizedBits, log(Ratio(turns[k].before, turns[k].after)))
  {
  }

  lemma {:induction false} LogOfProduct(log: real -> real, x: real, y: real)
    requires IsLog2(log) && x > 0.0 && y > 0.0
    ensures log(Product(x, y)) == log(x) + log(y)
  {
  }

  lemma {:induction false} SlackAdds(realized: real, exact: real, slack: real, x: real, y: real)
    requires Abs(realized - exact) <= slack && Abs(x - y) <= Slack(x, y)
    ensures Abs((realized + x) - (exact + y)) <= slack + Slack(x, y)
  {
    hide Slack;
  }

  /** The expected fraction lies in [0, 1]; it is zero exactly when nothing was eliminated and one
      exactly when a single candidate is left; and it times log2(start) is log2(start/end). */
  lemma {:induction false} FractionMeaning(log: real -> real, start: int, end: int)
    requires IsLog2(log) && start >= 2 && 1 <= end <= start
    ensures 0.0 <= ExpectedFraction(log, start, end) <= 1.0
    ensures ExpectedFraction(log, start, end) == 0.0 <==> end == start
    ensures ExpectedFraction(log, start, end) == 1.0 <==> end == 1
    ensures Product(ExpectedFraction(log, start, end), log(start as real)) == log(Ratio(start, end))
  {
    hide IsLog2;
    var bits, total := log(Ratio(start, end)), log(start as real);
    StartHasInformation(log, start);
    EliminatedBits(log, start, end);
    QuotientBounds(bits, total, 0.0);
    QuotientBounds(bits, total, 1.0);
    ProductSign(0.0, total);
    assert Product(1.0, total) == total;
  }

  lemma {:induction false} EliminatedBits(log: real -> real, start: int, end: int)
    requires IsLog2(log) && start >= 2 && 1 <= end <= start
    ensures 0.0 <= log(Ratio(start, end)) <= log(start as real)
    ensures log(Ratio(start, end)) == 0.0 <==> end == start
    ensures log(Ratio(start, end)) == log(start as real) <==> end == 1
  {
    var r, s, e := Ratio(start, end), start as real, end as real;
    QuotientBounds(s, e, 1.0);
    QuotientBounds(s, e, s);
    assert Product(1.0, e) == e;
    ProductMonotone(s, 1.0, e);
    assert Product(s, 1.0) == s;
    assert 1.0 <= r <= s;
    RatioAtEnds(start, end);
    assert r > 1.0 ==> log(1.0) < log(r);
    assert r < s ==> log(r) < log(s);
  }

  lemma {:induction false} RatioAtEnds(start: int, end: int)
    requires start >= 2 && 1 <= end <= start
    ensures Ratio(start, end) == 1.0 <==> end == start
    ensures Ratio(start, end) == start as real <==> end == 1
  {
    var r, s, e := Ratio(start, end), start as real, end as real;
    QuotientBounds(s, e, 0.0);
    assert Product(r, e) == s;
    if end > 1 {
      QuotientBounds(s, e, s);
      ProductGrows(s, e);
    } else {
      assert Product(r, 1.0) == r;
    }
    if end == start {
      RatioOfEqual(start);
    }
  }

  lemma {:induction false} ProductGrows(x: real, y: real)
    requires x > 0.0 && y > 1.0
    ensures Product(x, y) > x
  {
  }

  /** The reported fraction is within the tolerance of the expected one. */
  lemma {:induction false} FractionIsClose(f: real, g: real)
    requires 0.0 <= f <= 1.0 && 0.0 <= g <= 1.0 && Close(f, g)
    ensures Abs(f - g) <= TOLERANCE
  {
  }

  lemma {:induction false} ScaledError(f: real, g: real, bound: real, total: real)
    requires Abs(f - g) <= bound && total >= 0.0
    ensures Abs(Product(f, total) - Product(g, total)) <= Product(bound, total)
  {
    ProductOfDifference(f, g, total);
    ProductNegated(bound, total);
    ProductOrder(f - g, bound, total);
    ProductOrder(-bound, f - g, total);
  }

  /** Two amounts agree to within 1e-12 of one or of the larger amount. */
  predicate NearTruth(x: real, y: real) {
    Abs(x - y) <= 0.000000000001 || Abs(x - y) <= Product(0.000000000001, Max(Abs(x), Abs(y)))
  }

  /** An accepted episode: distinct options along a falling live count, ratios that multiply to
      start/end, and realized bits that add up to the reported fraction of log2(start), up to the
      tolerances of the comparisons. */
  lemma {:induction false} AcceptedInquiry(log: real -> real, expectedStart: int, observations: seq<Observation>,
                                           metric: Metric)
    requires expectedStart >= 2 && IsLog2(log) && InquiryAccepted(log, expectedStart, observations, metric)
    ensures var turns, n := metric.turns, |metric.turns|;
      && Positive(turns, n)
      && RatioProduct(turns, n) == Ratio(metric.initialLive, metric.finalLive)
      && (forall i, l | 0 <= i < l < n :: turns[i].option != turns[l].option)
      && (forall k | 0 <= k < n :: NearTruth(turns[k].realizedBits, log(Ratio(turns[k].before, turns[k].after))))
      && (forall j, k | 0 <= j <= k <= n ::
           LiveBefore(metric.initialLive, turns, j) >= LiveBefore(metric.initialLive, turns, k))
      && Abs(RealizedBits(turns, n) - Product(metric.informationFraction, log(metric.initialLive as real)))
           <= TotalSlack(log, turns, n) + Product(TOLERANCE, log(metric.initialLive as real))
  {
    hide IsLog2, Close, TurnPasses, ExpectedFraction, Ratio, RealizedBits, TotalSlack, RatioProduct, ExactBits;
    var start, end, turns, n := metric.initialLive, metric.finalLive, metric.turns, |metric.turns|;
    ChainTelescopes(log, start, observations, turns, n);
    LiveNeverRises(log, start, observations, turns, 0, n);
    forall k | 0 <= k < n
      ensures NearTruth(turns[k].realizedBits, log(Ratio(turns[k].before, turns[k].after)))
    {
      assert TurnPasses(log, start, observations, turns, k);
      TurnIsNear(log, start, observations, turns, k);
    }
    forall j, k | 0 <= j <= k <= n ensures LiveBefore(start, turns, j) >= LiveBefore(start, turns, k) {
      LiveNeverRises(log, start, observations, turns, j, k);
    }
    FractionMeaning(log, start, end);
    StartHasInformation(log, start);
    FractionIsClose(metric.informationFraction, ExpectedFraction(log, start, end));
    ScaledError(metric.informationFraction, ExpectedFraction(log, start, end), TOLERANCE, log(start as real));
  }

  /** A truthful turn: it repeats its observation, asks a new option, starts where the last one ended,
      never raises the live count, and reports its information to within 1e-12. */
  ghost predicate TruthfulTurn(log: real -> real, start: int, observations: seq<Observation>, turns: seq<Turn>, k: nat)
    requires k < |turns| == |observations|
  {
    var turn := turns[k];
    && turn.turn == k + 1 && turn.option == observations[k].option && turn.accepted == observations[k].accepted
    && (forall j | 0 <= j < k :: turn.option != observations[j].option)
    && turn.before == (if k == 0 then start else turns[k - 1].after) && 1 <= turn.after <= turn.before
    && -0.000000000001 <= turn.realizedBits - log(turn.before as real / turn.after as real) <= 0.000000000001
    && -0.000000000001 <= turn.bestBits - turn.expectedBits - turn.regretBits <= 0.000000000001
    && turn.expectedBits >= 0.0 && turn.bestBits >= 0.0 && turn.regretBits >= 0.0
  }

  /** Every truthful account is accepted: up to two truthful turns from the designed start to the
      reported end, with log2(start/end) / log2(start) reported to within 1e-12. */
  lemma {:induction false} TruthfulInquiryAccepted(log: real -> real, expectedStart: int,
                                                   observations: seq<Observation>, metric: Metric)
    requires IsLog2(log) && expectedStart >= 2 && metric.initialLive == expectedStart
    requires |observations| == |metric.turns| == metric.queryCount <= 2
    requires forall k | 0 <= k < |metric.turns| ::
      TruthfulTurn(log, expectedStart, observations, metric.turns, k)
    requires 1 <= metric.finalLive
    requires metric.finalLive ==
      if metric.turns == [] then expectedStart else metric.turns[|metric.turns| - 1].after
    requires 0.0 <= metric.informationFraction <= 1.0
    requires var exact := ExactFraction(log, expectedStart, metric.finalLive);
      -0.000000000001 <= metric.informationFraction - exact <= 0.000000000001
    ensures InquiryAccepted(log, expectedStart, observations, metric)
  {
    hide IsLog2, Close;
    var turns := metric.turns;
    StartHasInformation(log, expectedStart);
    forall k | 0 <= k < |turns| ensures TurnPasses(log, expectedStart, observations, turns, k) {
      var turn := turns[k];
      assert TruthfulTurn(log, expectedStart, observations, turns, k);
      NearIsClose(turn.realizedBits, log(Ratio(turn.before, turn.after)));
      NearIsClose(turn.bestBits - turn.expectedBits, turn.regretBits);
    }
    if turns != [] {
      assert TruthfulTurn(log, expectedStart, observations, turns, 0);
      assert TruthfulTurn(log, expectedStart, observations, turns, |turns| - 1);
    }
    NearIsClose(metric.informationFraction, ExpectedFraction(log, expectedStart, metric.finalLive));
  }

  function ExactFraction(log: real -> real, start: int, end: int): real
    requires end >= 1
  {
    if log(start as real) == 0.0 then 0.0 else log(start as real / end as real) / log(start as real)
  }

  lemma {:induction false} NearIsClose(x: real, y: real)
    requires -0.000000000001 <= x - y <= 0.000000000001
    ensures Close(x, y)
  {
  }
}
