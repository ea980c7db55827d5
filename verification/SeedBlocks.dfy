/** The summary of one estimand over the registered seeds, and pooling over strata
    (`_summarize_seed_blocks` and `_pool`). */
module SeedBlocks {
  import opened Reals
  import opened Options
  import opened Counting
  import opened Permutations
  import opened Sorting
  import opened SignFlip
  import opened Bootstrap

  datatype SeedSummary = SeedSummary(perSeed: seq<(int, real)>, mean: real, interval: (real, real), pValue: real)

  predicate Covers(seeds: seq<int>, bySeed: map<int, real>) {
    forall i | 0 <= i < |seeds| :: seeds[i] in bySeed
  }

  function SeedSet(seeds: seq<int>): set<int> {
    set i | 0 <= i < |seeds| :: seeds[i]
  }

  /** The values in the registered order of the seeds. */
  function Values(seeds: seq<int>, bySeed: map<int, real>): (r: seq<real>)
    requires Covers(seeds, bySeed)
    ensures |r| == |seeds| && forall i | 0 <= i < |r| :: r[i] == bySeed[seeds[i]]
  {
    if seeds == [] then []
    else [bySeed[seeds[0]]] + Values(seeds[1..], bySeed)
  }

  function PerSeed(seeds: seq<int>, bySeed: map<int, real>): seq<(int, real)>
    requires Covers(seeds, bySeed)
  {
    if seeds == [] then []
    else [(seeds[0], bySeed[seeds[0]])] + PerSeed(seeds[1..], bySeed)
  }

  lemma {:induction false} SeedSetCovers(seeds: seq<int>, bySeed: map<int, real>)
    requires bySeed.Keys == SeedSet(seeds)
    ensures Covers(seeds, bySeed)
  {
    forall i | 0 <= i < |seeds| ensures seeds[i] in bySeed {
      assert seeds[i] in SeedSet(seeds);
    }
  }

  function SummarizeSeedBlocks(seeds: seq<int>, bySeed: map<int, real>, slack: real): Result<SeedSummary>
    requires seeds != []
  {
    if bySeed.Keys != SeedSet(seeds) then Err("estimand does not have the registered seed blocks")
    else
      SeedSetCovers(seeds, bySeed);
      var values := Values(seeds, bySeed);
      Ok(SeedSummary(PerSeed(seeds, bySeed), Mean(values), BootstrapInterval(|seeds|, values).value,
                 SignFlipPValue(|seeds|, values, slack).value))
  }

  /** There is a summary exactly when the blocks are those of the registered seeds. */
  lemma {:induction false} SummaryNeedsSeeds(seeds: seq<int>, bySeed: map<int, real>, slack: real)
    requires seeds != []
    ensures SummarizeSeedBlocks(seeds, bySeed, slack).Ok? <==> forall seed :: seed in bySeed <==> seed in seeds
  {
    hide BootstrapInterval, SignFlipPValue, Mean;
    assert bySeed.Keys == SeedSet(seeds) ==> forall seed :: seed in bySeed <==> seed in SeedSet(seeds);
    assert (forall seed :: seed in bySeed <==> seed in seeds) ==> bySeed.Keys == SeedSet(seeds);
  }

  /** What a summary reports: every registered seed with its value, the mean of those values, and their
      interval and p-value. */
  lemma {:induction false} SummaryReports(seeds: seq<int>, bySeed: map<int, real>, slack: real)
    requires seeds != [] && bySeed.Keys == SeedSet(seeds)
    ensures Covers(seeds, bySeed) && SummarizeSeedBlocks(seeds, bySeed, slack).Ok?
    ensures var summary := SummarizeSeedBlocks(seeds, bySeed, slack).value;
      && |summary.perSeed| == |seeds|
      && (forall i | 0 <= i < |seeds| :: summary.perSeed[i] == (seeds[i], bySeed[seeds[i]]))
      && Times(summary.mean, |seeds|) == Sum(Values(seeds, bySeed))
      && Ok(summary.interval) == BootstrapInterval(|seeds|, Values(seeds, bySeed))
      && Ok(summary.pValue) == SignFlipPValue(|seeds|, Values(seeds, bySeed), slack)
  {
    hide BootstrapInterval, SignFlipPValue, Mean;
    SeedSetCovers(seeds, bySeed);
    PerSeedReports(seeds, bySeed);
    IntervalIsDefined(Values(seeds, bySeed), slack);
    TimesMean(Values(seeds, bySeed));
  }

  lemma {:induction false} IntervalIsDefined(values: seq<real>, slack: real)
    requires values != []
    ensures BootstrapInterval(|values|, values).Ok? && SignFlipPValue(|values|, values, slack).Ok?
  {
  }

  lemma {:induction false} PerSeedReports(seeds: seq<int>, bySeed: map<int, real>)
    requires Covers(seeds, bySeed)
    ensures |PerSeed(seeds, bySeed)| == |seeds|
    ensures forall i | 0 <= i < |seeds| :: PerSeed(seeds, bySeed)[i] == (seeds[i], bySeed[seeds[i]])
  {
    if seeds != [] {
      PerSeedReports(seeds[1..], bySeed);
    }
  }

  lemma {:induction false} ValuesPermuted(seeds: seq<int>, other: seq<int>, bySeed: map<int, real>)
    requires Covers(seeds, bySeed) && Covers(other, bySeed) && multiset(seeds) == multiset(other)
    ensures multiset(Values(seeds, bySeed)) == multiset(Values(other, bySeed))
  {
    SameLength(seeds, other);
    if seeds != [] {
      var i := FindHead(seeds, other);
      var rest := Without(other, i);
      assert Covers(rest, bySeed);
      ValuesPermuted(seeds[1..], rest, bySeed);
      WithoutOne(Values(other, bySeed), i);
      assert Without(Values(other, bySeed), i) == Values(rest, bySeed);
      assert Values(seeds, bySeed) == [bySeed[seeds[0]]] + Values(seeds[1..], bySeed);
    }
  }

  /** The registered order of the seeds matters for the listing only. */
  lemma {:induction false} SummaryOfReordered(seeds: seq<int>, other: seq<int>, bySeed: map<int, real>, slack: real)
    requires seeds != [] && multiset(seeds) == multiset(other) && bySeed.Keys == SeedSet(seeds)
    ensures other != []
    ensures SummarizeSeedBlocks(seeds, bySeed, slack).Ok? && SummarizeSeedBlocks(other, bySeed, slack).Ok?
    ensures var summary := SummarizeSeedBlocks(seeds, bySeed, slack).value;
      SummarizeSeedBlocks(other, bySeed, slack).value == summary.(perSeed := PerSeedOf(other, bySeed))
  {
    hide BootstrapInterval, SignFlipPValue, Mean, Values, PerSeed;
    SameLength(seeds, other);
    SameSeeds(seeds, other);
    SummaryReports(seeds, bySeed, slack);
    SummaryReports(other, bySeed, slack);
    ValuesPermuted(seeds, other, bySeed);
    var values, others := Values(seeds, bySeed), Values(other, bySeed);
    SumPermuted(values, others);
    SameMean(values, others);
    IntervalOfPermuted(values, others);
    SamePValue(values, others, slack);
  }

  function PerSeedOf(seeds: seq<int>, bySeed: map<int, real>): seq<(int, real)> {
    if Covers(seeds, bySeed) then PerSeed(seeds, bySeed) else []
  }

  lemma {:induction false} SameMean(values: seq<real>, others: seq<real>)
    requires |values| == |others| > 0 && Sum(values) == Sum(others)
    ensures Mean(values) == Mean(others)
  {
  }

  lemma {:induction false} SamePValue(values: seq<real>, others: seq<real>, slack: real)
    requires values != [] && multiset(values) == multiset(others)
    ensures |values| == |others|
    ensures SignFlipPValue(|values|, values, slack) == SignFlipPValue(|others|, others, slack)
  {
    hide Exceedances;
    SameLength(values, others);
    ExceedancesOfPermuted(values, others, slack);
  }

  lemma {:induction false} SameSeeds(seeds: seq<int>, other: seq<int>)
    requires multiset(seeds) == multiset(other)
    ensures SeedSet(seeds) == SeedSet(other)
  {
    forall s ensures s in SeedSet(seeds) <==> s in SeedSet(other) {
      assert s in SeedSet(seeds) <==> s in multiset(seeds);
      assert s in SeedSet(other) <==> s in multiset(other);
    }
  }

  /** Raising one seed's value raises the mean strictly, and neither end of the interval falls. */
  lemma {:induction false} SummaryRises(seeds: seq<int>, bySeed: map<int, real>, slack: real, s: int, value: real)
    requires seeds != [] && bySeed.Keys == SeedSet(seeds) && s in bySeed && bySeed[s] < value
    ensures SummarizeSeedBlocks(seeds, bySeed, slack).Ok?
    ensures SummarizeSeedBlocks(seeds, bySeed[s := value], slack).Ok?
    ensures var summary := SummarizeSeedBlocks(seeds, bySeed, slack).value;
      var raised := SummarizeSeedBlocks(seeds, bySeed[s := value], slack).value;
      && summary.mean < raised.mean
      && summary.interval.0 <= raised.interval.0 && summary.interval.1 <= raised.interval.1
  {
    hide BootstrapInterval, SignFlipPValue, Mean, Values;
    assert bySeed[s := value].Keys == bySeed.Keys;
    SummaryReports(seeds, bySeed, slack);
    SummaryReports(seeds, bySeed[s := value], slack);
    var values, raised := Values(seeds, bySeed), Values(seeds, bySeed[s := value]);
    var i :| 0 <= i < |seeds| && seeds[i] == s;
    SumStrict(values, raised, i);
    if Mean(values) >= Mean(raised) {
      TimesMonotone(Mean(raised), Mean(values), |seeds|);
    }
    IntervalIsMonotone(values, raised);
  }

  lemma {:induction false} SumStrict(s: seq<real>, t: seq<real>, i: nat)
    requires |s| == |t| && i < |s| && s[i] < t[i]
    requires forall j | 0 <= j < |s| :: s[j] <= t[j]
    ensures Sum(s) < Sum(t)
  {
    if i == 0 {
      SumMonotone(s[1..], t[1..]);
    } else {
      SumStrict(s[1..], t[1..], i - 1);
    }
  }

  /** The reported mean and interval stay inside any range that holds the data; the p-value is a
      positive even number of 2^n-ths, at most one. */
  lemma {:induction false} SummaryInRange(seeds: seq<int>, bySeed: map<int, real>, slack: real, lo: real, hi: real)
    requires seeds != [] && slack >= 0.0 && bySeed.Keys == SeedSet(seeds)
    requires forall s | s in bySeed :: lo <= bySeed[s] <= hi
    ensures Covers(seeds, bySeed) && SummarizeSeedBlocks(seeds, bySeed, slack).Ok?
    ensures var summary := SummarizeSeedBlocks(seeds, bySeed, slack).value;
      && lo <= summary.mean <= hi
      && lo <= summary.interval.0 <= summary.interval.1 <= hi
      && summary.pValue == Quotient((2 * HalfCount(Values(seeds, bySeed), slack)) as real, Pow2(|seeds|) as real)
      && 1 <= HalfCount(Values(seeds, bySeed), slack) && 0.0 < summary.pValue <= 1.0
  {
    hide Tails, Mean, Exceedances, HalfCount, Quotient, Estimates, Pow2;
    ValuesInRange(seeds, bySeed, lo, hi);
    var values := Values(seeds, bySeed);
    MeanBounds(values, lo, hi);
    IntervalIsOrdered(values, lo, hi);
    PValueIsEven(values, slack);
  }

  lemma {:induction false} ValuesInRange(seeds: seq<int>, bySeed: map<int, real>, lo: real, hi: real)
    requires bySeed.Keys == SeedSet(seeds) && forall s | s in bySeed :: lo <= bySeed[s] <= hi
    ensures Covers(seeds, bySeed)
    ensures forall i | 0 <= i < |seeds| :: lo <= Values(seeds, bySeed)[i] <= hi
    ensures forall x | x in Values(seeds, bySeed) :: lo <= x <= hi
  {
    SeedSetCovers(seeds, bySeed);
    forall i | 0 <= i < |seeds| ensures lo <= Values(seeds, bySeed)[i] <= hi {
      var s := seeds[i];
      assert s in bySeed;
    }
  }

  lemma {:induction false} PValueIsEven(values: seq<real>, slack: real)
    requires values != [] && slack >= 0.0
    ensures var p := SignFlipPValue(|values|, values, slack).value;
      && p == Quotient((2 * HalfCount(values, slack)) as real, Pow2(|values|) as real)
      && 1 <= HalfCount(values, slack) && 0.0 < p <= 1.0
  {
    hide Exceedances, HalfCount, Quotient;
    ExceedancesAreEven(values, slack);
    ExceedancesAtMostAll(values, slack);
    QuotientInUnit(Exceedances(values, slack) as real, Pow2(|values|) as real);
  }

  lemma {:induction false} ExceedancesAtMostAll(values: seq<real>, slack: real)
    requires values != []
    ensures Exceedances(values, slack) <= Pow2(|values|)
  {
    EnumerationLength(|values|);
    CountAtMostAll(SignVectors(|values|), Exceeding(values, slack));
  }

  lemma {:induction false} QuotientInUnit(x: real, y: real)
    requires 0.0 < x <= y
    ensures 0.0 < Quotient(x, y) <= 1.0
  {
    QuotientBounds(x, y, 1.0);
    QuotientBounds(x, y, 0.0);
    ProductSign(0.0, y);
    assert Product(1.0, y) == y;
  }

  function NegatedBySeed(bySeed: map<int, real>): map<int, real> {
    map s | s in bySeed :: -bySeed[s]
  }

  /** Reversing the direction of a contrast negates the mean, mirrors the interval and keeps the
      p-value. */
  lemma {:induction false} NegatedSummary(seeds: seq<int>, bySeed: map<int, real>, slack: real)
    requires seeds != [] && bySeed.Keys == SeedSet(seeds)
    ensures Covers(seeds, bySeed) && SummarizeSeedBlocks(seeds, bySeed, slack).Ok?
    ensures SummarizeSeedBlocks(seeds, NegatedBySeed(bySeed), slack).Ok?
    ensures var summary := SummarizeSeedBlocks(seeds, bySeed, slack).value;
      var negated := SummarizeSeedBlocks(seeds, NegatedBySeed(bySeed), slack).value;
      && negated.mean == -summary.mean
      && negated.interval == (-summary.interval.1, -summary.interval.0)
      && negated.pValue == summary.pValue
  {
    hide Tails, Mean, Exceedances, Quotient, Estimates, Sorted, Map;
    SeedSetCovers(seeds, bySeed);
    var values := Values(seeds, bySeed);
    NegatedElements(values);
    assert Values(seeds, NegatedBySeed(bySeed)) == Negated(values);
    NegationIsAffine(values);
    MeanAffine(-1.0, 0.0, values);
    IntervalIsEquivariant(-1.0, 0.0, values);
    ExceedancesOfNegated(values, slack);
  }

  lemma {:induction false} NegationIsAffine(values: seq<real>)
    ensures Affine(-1.0, 0.0, values) == Negated(values)
  {
    NegatedElements(values);
    forall i | 0 <= i < |values| ensures Affine(-1.0, 0.0, values)[i] == -values[i] {
    }
  }

  // ---------------------------------------------------------------- pooling

  /** One seed's values across the strata. */
  function Column(strata: seq<map<int, real>>, seed: int): (r: seq<real>)
    requires forall i | 0 <= i < |strata| :: seed in strata[i]
    ensures |r| == |strata| && forall i | 0 <= i < |r| :: r[i] == strata[i][seed]
  {
    if strata == [] then [] else [strata[0][seed]] + Column(strata[1..], seed)
  }

  predicate Registered(seeds: seq<int>, strata: seq<map<int, real>>) {
    forall i, j | 0 <= i < |strata| && 0 <= j < |seeds| :: seeds[j] in strata[i]
  }

  /** `_pool`: within each seed, the equal-weight mean over the strata. */
  function Pool(seeds: seq<int>, strata: seq<map<int, real>>): map<int, real>
    requires strata != [] && Registered(seeds, strata)
  {
    map s | s in SeedSet(seeds) :: Mean(Column(strata, s))
  }

  /** Pooling registers the same seeds, and gives each the mean of its values in the strata. */
  lemma {:induction false} PoolReports(seeds: seq<int>, strata: seq<map<int, real>>, s: int)
    requires strata != [] && Registered(seeds, strata) && s in SeedSet(seeds)
    ensures Pool(seeds, strata).Keys == SeedSet(seeds)
    ensures forall i | 0 <= i < |strata| :: s in strata[i]
    ensures Times(Pool(seeds, strata)[s], |strata|) == Sum(Column(strata, s))
  {
    var j :| 0 <= j < |seeds| && seeds[j] == s;
    TimesMean(Column(strata, s));
  }

  function StratumMeans(seeds: seq<int>, strata: seq<map<int, real>>): (r: seq<real>)
    requires seeds != [] && Registered(seeds, strata)
    ensures |r| == |strata|
  {
    if strata == [] then []
    else [Mean(Values(seeds, strata[0]))] + StratumMeans(seeds, strata[1..])
  }

  function ColumnMeans(seeds: seq<int>, strata: seq<map<int, real>>): (r: seq<real>)
    requires strata != [] && Registered(seeds, strata)
    ensures |r| == |seeds|
  {
    if seeds == [] then []
    else [Mean(Column(strata, seeds[0]))] + ColumnMeans(seeds[1..], strata)
  }

  function ColumnTotal(seeds: seq<int>, strata: seq<map<int, real>>): real
    requires Registered(seeds, strata)
  {
    if seeds == [] then 0.0
    else Sum(Column(strata, seeds[0])) + ColumnTotal(seeds[1..], strata)
  }

  lemma {:induction false} ColumnTotalStep(seeds: seq<int>, strata: seq<map<int, real>>)
    requires strata != [] && Registered(seeds, strata)
    ensures ColumnTotal(seeds, strata) == Sum(Values(seeds, strata[0])) + ColumnTotal(seeds, strata[1..])
  {
    if seeds != [] {
      ColumnTotalStep(seeds[1..], strata);
      assert Column(strata, seeds[0])[1..] == Column(strata[1..], seeds[0]);
      assert Values(seeds, strata[0])[1..] == Values(seeds[1..], strata[0]);
    }
  }

  /** Summing by seed or by stratum gives the same total. */
  lemma {:induction false} TotalsByStratum(seeds: seq<int>, strata: seq<map<int, real>>)
    requires seeds != [] && Registered(seeds, strata)
    ensures Times(Sum(StratumMeans(seeds, strata)), |seeds|) == ColumnTotal(seeds, strata)
  {
    if strata == [] {
      EmptyColumns(seeds);
      TimesIsProduct(0.0, |seeds|);
    } else {
      TotalsByStratum(seeds, strata[1..]);
      ColumnTotalStep(seeds, strata);
      TimesMean(Values(seeds, strata[0]));
      assert StratumMeans(seeds, strata)[1..] == StratumMeans(seeds, strata[1..]);
      TimesAdds(Mean(Values(seeds, strata[0])), Sum(StratumMeans(seeds, strata[1..])), |seeds|);
    }
  }

  lemma {:induction false} EmptyColumns(seeds: seq<int>)
    ensures ColumnTotal(seeds, []) == 0.0
  {
    if seeds != [] {
      EmptyColumns(seeds[1..]);
    }
  }

  lemma {:induction false} TotalsBySeed(seeds: seq<int>, strata: seq<map<int, real>>)
    requires strata != [] && Registered(seeds, strata)
    ensures Times(Sum(ColumnMeans(seeds, strata)), |strata|) == ColumnTotal(seeds, strata)
  {
    if seeds == [] {
      TimesIsProduct(0.0, |strata|);
    } else {
      TotalsBySeed(seeds[1..], strata);
      TimesMean(Column(strata, seeds[0]));
      assert ColumnMeans(seeds, strata)[1..] == ColumnMeans(seeds[1..], strata);
      TimesAdds(Mean(Column(strata, seeds[0])), Sum(ColumnMeans(seeds[1..], strata)), |strata|);
    }
  }

  lemma {:induction false} PooledValues(seeds: seq<int>, rest: seq<int>, strata: seq<map<int, real>>)
    requires strata != [] && Registered(seeds, strata) && SeedSet(rest) <= SeedSet(seeds)
    ensures Registered(rest, strata) && Covers(rest, Pool(seeds, strata))
    ensures Values(rest, Pool(seeds, strata)) == ColumnMeans(rest, strata)
  {
    RegisteredRest(seeds, rest, strata);
    if rest != [] {
      assert rest[0] in SeedSet(rest);
      forall i | 0 <= i < |rest| - 1 ensures rest[1..][i] in SeedSet(rest) {
        assert rest[i + 1] in SeedSet(rest);
      }
      PooledValues(seeds, rest[1..], strata);
    }
  }

  lemma {:induction false} RegisteredRest(seeds: seq<int>, rest: seq<int>, strata: seq<map<int, real>>)
    requires strata != [] && Registered(seeds, strata) && SeedSet(rest) <= SeedSet(seeds)
    ensures Registered(rest, strata) && Covers(rest, Pool(seeds, strata))
  {
    forall i, j | 0 <= i < |strata| && 0 <= j < |rest| ensures rest[j] in strata[i] && rest[j] in Pool(seeds, strata) {
      assert rest[j] in SeedSet(rest);
      var k :| 0 <= k < |seeds| && seeds[k] == rest[j];
    }
    forall j | 0 <= j < |rest| ensures rest[j] in Pool(seeds, strata) {
      assert rest[j] in SeedSet(rest);
    }
  }

  /** The mean of the pooled seed values is the mean of the stratum means. */
  lemma {:induction false} PooledMeanIsMeanOfStrata(seeds: seq<int>, strata: seq<map<int, real>>)
    requires seeds != [] && strata != [] && Registered(seeds, strata)
    ensures Covers(seeds, Pool(seeds, strata))
    ensures Mean(Values(seeds, Pool(seeds, strata))) == Mean(StratumMeans(seeds, strata))
  {
    PooledValues(seeds, seeds, strata);
    TotalsByStratum(seeds, strata);
    TotalsBySeed(seeds, strata);
    MeansAgree(Sum(ColumnMeans(seeds, strata)), |seeds|, Sum(StratumMeans(seeds, strata)), |strata|);
  }
}
