/** The exhaustive seed bootstrap and its percentile interval (`_bootstrap_interval`). */
module Bootstrap {
  import opened Counting
  import opened Reals
  import opened Options
  import opened Permutations
  import opened Sorting

  const LOWER_TAIL := 0.025
  const UPPER_TAIL := 0.975

  function PrefixEach<T>(x: T, tuples: seq<seq<T>>): (r: seq<seq<T>>)
    ensures |r| == |tuples|
  {
    if tuples == [] then [] else [[x] + tuples[0]] + PrefixEach(x, tuples[1..])
  }

  function ExtendEach<T>(xs: seq<T>, tuples: seq<seq<T>>): seq<seq<T>> {
    if xs == [] then [] else PrefixEach(xs[0], tuples) + ExtendEach(xs[1..], tuples)
  }

  /** The values read through `product(range(n), repeat=m)`, in the order of the enumeration. */
  function Resamples<T>(values: seq<T>, m: nat): seq<seq<T>> {
    if m == 0 then [[]] else ExtendEach(values, Resamples(values, m - 1))
  }

  function Means(tuples: seq<seq<real>>): (r: seq<real>)
    requires forall i | 0 <= i < |tuples| :: tuples[i] != []
    ensures |r| == |tuples| && forall i | 0 <= i < |r| :: r[i] == Mean(tuples[i])
  {
    if tuples == [] then [] else [Mean(tuples[0])] + Means(tuples[1..])
  }

  predicate Drawn(values: seq<real>, t: seq<real>) {
    forall i | 0 <= i < |t| :: t[i] in values
  }

  lemma {:induction false} PrefixedFrom<T>(x: T, tuples: seq<seq<T>>, t: seq<T>)
    requires t in PrefixEach(x, tuples)
    ensures t != [] && t[0] == x && t[1..] in tuples
  {
    if t != [x] + tuples[0] {
      PrefixedFrom(x, tuples[1..], t);
    }
  }

  lemma {:induction false} ExtendedFrom<T>(xs: seq<T>, tuples: seq<seq<T>>, t: seq<T>)
    requires t in ExtendEach(xs, tuples)
    ensures t != [] && t[0] in xs && t[1..] in tuples
  {
    if t in PrefixEach(xs[0], tuples) {
      PrefixedFrom(xs[0], tuples, t);
    } else {
      ExtendedFrom(xs[1..], tuples, t);
    }
  }

  /** Every resample has the requested length and draws from the values. */
  lemma {:induction false} ResamplesAreDrawn(values: seq<real>, m: nat)
    ensures forall t | t in Resamples(values, m) :: |t| == m && Drawn(values, t)
  {
    if m > 0 {
      ResamplesAreDrawn(values, m - 1);
      forall t | t in Resamples(values, m) ensures |t| == m && Drawn(values, t) {
        ExtendedFrom(values, Resamples(values, m - 1), t);
        assert t == [t[0]] + t[1..];
      }
    }
  }

  // ---------------------------------------------------------------- the enumeration

  predicate NoRepeats<T(==)>(xs: seq<T>) {
    forall i, j | 0 <= i < j < |xs| :: xs[i] != xs[j]
  }

  lemma {:induction false} CountPrefixEach<T>(x: T, tuples: seq<seq<T>>, t: seq<T>)
    ensures Count(PrefixEach(x, tuples), Only(t))
         == if t != [] && t[0] == x then Count(tuples, Only(t[1..])) else 0
  {
    if tuples != [] {
      CountPrefixEach(x, tuples[1..], t);
      var rest := PrefixEach(x, tuples[1..]);
      assert ([[x] + tuples[0]] + rest)[1..] == rest;
      if t != [] && t[0] == x {
        assert t == [x] + t[1..];
        assert [x] + tuples[0] == t <==> tuples[0] == t[1..] by {
          assert ([x] + tuples[0])[1..] == tuples[0];
        }
      }
    }
  }

  lemma {:induction false} CountExtendEach<T>(xs: seq<T>, tuples: seq<seq<T>>, t: seq<T>)
    requires NoRepeats(xs)
    ensures Count(ExtendEach(xs, tuples), Only(t))
         == if t != [] && t[0] in xs then Count(tuples, Only(t[1..])) else 0
  {
    if xs != [] {
      hide PrefixEach, Only;
      CountConcat(PrefixEach(xs[0], tuples), ExtendEach(xs[1..], tuples), Only(t));
      CountPrefixEach(xs[0], tuples, t);
      CountExtendEach(xs[1..], tuples, t);
      assert xs == [xs[0]] + xs[1..];
    }
  }

  /** `product` of distinct values lists every tuple of them once, and nothing else. */
  lemma {:induction false} TuplesAreExact<T>(xs: seq<T>, m: nat, t: seq<T>)
    requires NoRepeats(xs)
    ensures Count(Resamples(xs, m), Only(t))
         == if |t| == m && forall i | 0 <= i < |t| :: t[i] in xs then 1 else 0
  {
    if m == 0 {
      assert Resamples(xs, 0)[1..] == [];
    } else {
      CountExtendEach(xs, Resamples(xs, m - 1), t);
      if t != [] {
        TuplesAreExact(xs, m - 1, t[1..]);
        assert t == [t[0]] + t[1..];
        assert (forall i | 0 <= i < |t| :: t[i] in xs) <==>
          (t[0] in xs && forall i | 0 <= i < |t[1..]| :: t[1..][i] in xs) by {
          assert forall i | 0 < i < |t| :: t[i] == t[1..][i - 1];
        }
      }
    }
  }

  /** `range(n)`. */
  function Range(n: nat): (r: seq<int>)
    ensures |r| == n && forall i | 0 <= i < n :: r[i] == i
  {
    if n == 0 then [] else Range(n - 1) + [n - 1]
  }

  function ValueAt(values: seq<real>): int -> real {
    (i: int) => if 0 <= i < |values| then values[i] else 0.0
  }

  predicate IndexTuple(t: seq<int>, n: nat, m: nat) {
    |t| == m && forall j | 0 <= j < m :: 0 <= t[j] < n
  }

  /** `tuple(values[index] for index in t)`. */
  predicate Reads(values: seq<real>, t: seq<int>, resample: seq<real>) {
    |resample| == |t| && forall j | 0 <= j < |t| :: 0 <= t[j] < |values| && resample[j] == values[t[j]]
  }

  /** The resamples read the values through every index tuple, each exactly once, in the order of
      `product(range(n), repeat=m)`. */
  lemma {:induction false} ResamplesReadIndices(values: seq<real>, m: nat, t: seq<int>)
    ensures var tuples := Resamples(Range(|values|), m);
      && Count(tuples, Only(t)) == (if IndexTuple(t, |values|, m) then 1 else 0)
      && |Resamples(values, m)| == |tuples|
      && forall i | 0 <= i < |tuples| :: Reads(values, tuples[i], Resamples(values, m)[i])
  {
    var n, f := |values|, ValueAt(values);
    var tuples := Resamples(Range(n), m);
    TuplesAreExact(Range(n), m, t);
    InRange(n);
    MapResamples(f, Range(n), m);
    assert Map(f, Range(n)) == values;
    forall i | 0 <= i < |tuples| ensures Reads(values, tuples[i], Resamples(values, m)[i]) {
      DrawnFrom(Range(n), m, i);
      assert Resamples(values, m)[i] == Map(f, tuples[i]);
    }
  }

  lemma {:induction false} InRange(n: nat)
    ensures forall i: int :: i in Range(n) <==> 0 <= i < n
  {
    forall i: int | 0 <= i < n ensures i in Range(n) {
      assert Range(n)[i] == i;
    }
  }

  lemma {:induction false} DrawnFrom(xs: seq<int>, m: nat, i: nat)
    requires i < |Resamples(xs, m)|
    ensures forall j | 0 <= j < |Resamples(xs, m)[i]| :: Resamples(xs, m)[i][j] in xs
  {
    if m > 0 {
      var t := Resamples(xs, m)[i];
      ExtendedFrom(xs, Resamples(xs, m - 1), t);
      var k :| 0 <= k < |Resamples(xs, m - 1)| && Resamples(xs, m - 1)[k] == t[1..];
      DrawnFrom(xs, m - 1, k);
      assert t == [t[0]] + t[1..];
    }
  }

  /** The resampled means, one per index tuple. */
  function Estimates(values: seq<real>): (r: seq<real>)
    requires values != []
    ensures |r| == |Resamples(values, |values|)|
  {
    ResamplesAreDrawn(values, |values|);
    Means(Resamples(values, |values|))
  }

  function Power(n: nat, m: nat): nat {
    if m == 0 then 1 else n * Power(n, m - 1)
  }

  lemma {:induction false} ExtendedLength(xs: seq<real>, tuples: seq<seq<real>>)
    ensures |ExtendEach(xs, tuples)| == |xs| * |tuples|
  {
    if xs != [] {
      ExtendedLength(xs[1..], tuples);
    }
  }

  /** The enumeration has n^m entries, so the source's completeness check never fires. */
  lemma {:induction false} ResamplesLength(values: seq<real>, m: nat)
    ensures |Resamples(values, m)| == Power(|values|, m)
  {
    if m > 0 {
      ResamplesLength(values, m - 1);
      ExtendedLength(values, Resamples(values, m - 1));
    }
  }

  lemma {:induction false} PowerPositive(n: nat, m: nat)
    requires n > 0
    ensures Power(n, m) > 0
  {
    if m > 0 {
      PowerPositive(n, m - 1);
    }
  }

  lemma {:induction false} EstimatesNonEmpty(values: seq<real>)
    requires values != []
    ensures Estimates(values) != []
  {
    ResamplesLength(values, |values|);
    PowerPositive(|values|, |values|);
  }

  /** `_bootstrap_interval` for a registered number of seeds. */
  function BootstrapInterval(seeds: nat, values: seq<real>): Result<(real, real)>
    requires seeds > 0
  {
    if |values| != seeds then Err("bootstrap requires exactly the registered seed-block values")
    else
      EstimatesNonEmpty(values);
      var estimates := Sorted(Estimates(values));
      Ok(Tails(estimates))
  }

  function Tails(sorted: seq<real>): (tails: (real, real))
    requires sorted != []
  {
    (LinearPercentile(sorted, LOWER_TAIL), LinearPercentile(sorted, UPPER_TAIL))
  }

  // ---------------------------------------------------------------- the average estimate

  function TotalSum(tuples: seq<seq<real>>): real {
    if tuples == [] then 0.0 else Sum(tuples[0]) + TotalSum(tuples[1..])
  }

  lemma {:induction false} TotalSumConcat(a: seq<seq<real>>, b: seq<seq<real>>)
    ensures TotalSum(a + b) == TotalSum(a) + TotalSum(b)
  {
    if a == [] {
      assert a + b == b;
    } else {
      assert (a + b)[1..] == a[1..] + b;
      TotalSumConcat(a[1..], b);
    }
  }

  lemma {:induction false} TotalSumPrefixed(x: real, tuples: seq<seq<real>>)
    ensures TotalSum(PrefixEach(x, tuples)) == Times(x, |tuples|) + TotalSum(tuples)
  {
    if tuples != [] {
      TotalSumPrefixed(x, tuples[1..]);
      assert PrefixEach(x, tuples)[1..] == PrefixEach(x, tuples[1..]);
      assert ([x] + tuples[0])[1..] == tuples[0];
    }
  }

  lemma {:induction false} TotalSumExtended(xs: seq<real>, tuples: seq<seq<real>>)
    ensures TotalSum(ExtendEach(xs, tuples)) == Times(Sum(xs), |tuples|) + Times(TotalSum(tuples), |xs|)
  {
    if xs == [] {
      TimesIsProduct(0.0, |tuples|);
    } else {
      TotalSumExtended(xs[1..], tuples);
      TotalSumConcat(PrefixEach(xs[0], tuples), ExtendEach(xs[1..], tuples));
      TotalSumPrefixed(xs[0], tuples);
      TimesAdds(xs[0], Sum(xs[1..]), |tuples|);
    }
  }

  /** All resamples of length `m` together draw every value equally often: n times their total is
      m * n^m times the sum of the values. */
  lemma {:induction false} TotalSumResampled(values: seq<real>, m: nat)
    ensures Times(TotalSum(Resamples(values, m)), |values|) == Times(Times(Sum(values), Power(|values|, m)), m)
  {
    hide TotalSum;
    if m == 0 {
      EmptyTotal(|values|);
    } else {
      TotalSumResampled(values, m - 1);
      TotalSumStep(values, m);
      DrawStep(TotalSum(Resamples(values, m - 1)), TotalSum(Resamples(values, m)), Sum(values), |values|,
        Power(|values|, m - 1), Power(|values|, m), m);
    }
  }

  lemma {:induction false} EmptyTotal(n: nat)
    ensures Times(TotalSum([[]]), n) == 0.0
  {
    TimesIsProduct(0.0, n);
  }

  lemma {:induction false} TotalSumStep(values: seq<real>, m: nat)
    requires m > 0
    ensures TotalSum(Resamples(values, m))
         == Times(Sum(values), Power(|values|, m - 1)) + Times(TotalSum(Resamples(values, m - 1)), |values|)
  {
    ResamplesLength(values, m - 1);
    TotalSumExtended(values, Resamples(values, m - 1));
  }

  lemma {:induction false} DrawStep(total: real, next: real, s: real, n: nat, k: nat, nk: nat, m: nat)
    requires m > 0 && Times(total, n) == Times(Times(s, k), m - 1)
    requires next == Times(s, k) + Times(total, n) && nk == n * k
    ensures Times(next, n) == Times(Times(s, nk), m)
  {
    var sk := Times(s, k);
    // n * (sk + (m - 1) * sk) == m * (n * sk)
    assert next == Times(sk, m);
    TimesCommute(sk, m, n);
    TimesIsProduct(s, k);
    TimesIsProduct(s, nk);
    TimesIsProduct(sk, n);
    ProductAssociates(s, k as real, n as real);
    assert Times(sk, n) == Times(s, nk);
  }

  lemma {:induction false} ProductAssociates(x: real, y: real, z: real)
    ensures x * y * z == x * (z * y)
  {
  }

  lemma {:induction false} TimesCommute(x: real, m: nat, n: nat)
    ensures Times(Times(x, m), n) == Times(Times(x, n), m)
  {
    if n == 0 {
      TimesIsProduct(0.0, m);
    } else {
      TimesCommute(x, m, n - 1);
      TimesAdds(x, Times(x, n - 1), m);
    }
  }

  lemma {:induction false} SumOfMeans(tuples: seq<seq<real>>, n: nat)
    requires n > 0 && forall i | 0 <= i < |tuples| :: |tuples[i]| == n
    ensures Times(Sum(Means(tuples)), n) == TotalSum(tuples)
  {
    if tuples == [] {
      TimesIsProduct(0.0, n);
    } else {
      var rest := tuples[1..];
      SumOfMeans(rest, n);
      assert Means(tuples)[1..] == Means(rest);
      TimesAdds(Mean(tuples[0]), Sum(Means(rest)), n);
      TimesMean(tuples[0]);
    }
  }

  lemma {:induction false} TimesInjective(x: real, y: real, n: nat)
    requires n > 0 && Times(x, n) == Times(y, n)
    ensures x == y
  {
    if x < y {
      TimesStrict(x, y, n);
    } else if y < x {
      TimesStrict(y, x, n);
    }
  }

  lemma {:induction false} TimesStrict(x: real, y: real, n: nat)
    requires x < y && n > 0
    ensures Times(x, n) < Times(y, n)
  {
    if n > 1 {
      TimesStrict(x, y, n - 1);
    }
  }

  /** The bootstrap is centred: the average of the n^n estimates is the sample mean. */
  lemma {:induction false} BootstrapIsCentred(values: seq<real>)
    requires values != []
    ensures |Estimates(values)| == Power(|values|, |values|) > 0
    ensures Mean(Estimates(values)) == Mean(values)
  {
    var n, s := |values|, Sum(values);
    var k, estimates := Power(n, n), Estimates(values);
    ResamplesLength(values, n);
    PowerPositive(n, n);
    ResamplesAreDrawn(values, n);
    SumOfMeans(Resamples(values, n), n);
    TotalSumResampled(values, n);
    // n * (n * sum of estimates) == n * (k * s)
    TimesInjective(Times(Sum(estimates), n), Times(s, k), n);
    MeansAgree(Sum(estimates), k, s, n);
  }

  lemma {:induction false} MeansAgree(x: real, k: nat, y: real, n: nat)
    requires k > 0 && n > 0 && Times(x, n) == Times(y, k)
    ensures Quotient(x, k as real) == Quotient(y, n as real)
  {
    var q := Quotient(y, n as real);
    QuotientBounds(y, n as real, 0.0);
    QuotientBounds(x, k as real, q);
    TimesIsProduct(q, n);
    TimesIsProduct(q, k);
    assert Times(q, n) == y;
    TimesCommute(q, n, k);
    TimesInjective(x, Times(q, k), n);
    assert x == Product(q, k as real);
  }

  // ---------------------------------------------------------------- the interval

  /** The interval is ordered and stays inside any range that holds the data. */
  lemma {:induction false} IntervalIsOrdered(values: seq<real>, lo: real, hi: real)
    requires values != [] && forall x | x in values :: lo <= x <= hi
    ensures var (lower, upper) := BootstrapInterval(|values|, values).value;
      lo <= lower <= upper <= hi
  {
    var n := |values|;
    EstimatesNonEmpty(values);
    ResamplesAreDrawn(values, n);
    var estimates := Estimates(values);
    var sorted := Sorted(estimates);
    forall x | x in multiset(estimates) ensures lo <= x <= hi {
      var i :| 0 <= i < |estimates| && estimates[i] == x;
      var t := Resamples(values, n)[i];
      assert Drawn(values, t);
      MeanBounds(t, lo, hi);
    }
    assert sorted[0] in multiset(sorted) && sorted[|sorted| - 1] in multiset(sorted);
    PercentileIsMonotone(sorted, LOWER_TAIL, UPPER_TAIL);
  }

  /** The interval holds the middle 95% of the n^n estimates: its ends stand at the ranks of the fractions
      0.025 and 0.975, rounded outwards, among the estimates in order. */
  lemma {:induction false} IntervalCovers(values: seq<real>)
    requires values != []
    ensures var (lower, upper) := BootstrapInterval(|values|, values).value;
      var estimates := Estimates(values);
      && estimates != []
      && Count(estimates, Less(lower)) <= Ceiling(Product((|estimates| - 1) as real, 0.025))
      && Count(estimates, NoMore(lower)) >= Product((|estimates| - 1) as real, 0.025).Floor + 1
      && Count(estimates, Less(upper)) <= Ceiling(Product((|estimates| - 1) as real, 0.975))
      && Count(estimates, NoMore(upper)) >= Product((|estimates| - 1) as real, 0.975).Floor + 1
  {
    hide LinearPercentile, Sorted, Estimates, Product;
    EstimatesNonEmpty(values);
    var estimates := Estimates(values);
    var (lower, upper) := BootstrapInterval(|values|, values).value;
    PercentileRanks(Sorted(estimates), LOWER_TAIL);
    PercentileRanks(Sorted(estimates), UPPER_TAIL);
    CountPermuted(Sorted(estimates), estimates, Less(lower));
    CountPermuted(Sorted(estimates), estimates, NoMore(lower));
    CountPermuted(Sorted(estimates), estimates, Less(upper));
    CountPermuted(Sorted(estimates), estimates, NoMore(upper));
  }

  lemma {:induction false} SumAffine(a: real, b: real, s: seq<real>)
    ensures Sum(Affine(a, b, s)) == Product(a, Sum(s)) + Times(b, |s|)
  {
    if s != [] {
      SumAffine(a, b, s[1..]);
      assert Affine(a, b, s)[1..] == Affine(a, b, s[1..]);
      ProductAdds(a, s[0], Sum(s[1..]));
    }
  }

  lemma {:induction false} ProductAdds(a: real, x: real, y: real)
    ensures Product(a, x + y) == Product(a, x) + Product(a, y)
  {
  }

  lemma {:induction false} MeanAffine(a: real, b: real, s: seq<real>)
    requires s != []
    ensures Mean(Affine(a, b, s)) == Product(a, Mean(s)) + b
  {
    hide Product, Quotient, Times;
    SumAffine(a, b, s);
    QuotientAffine(a, b, Sum(s), |s|);
  }

  lemma {:induction false} QuotientAffine(a: real, b: real, x: real, n: nat)
    requires n > 0
    ensures Quotient(Product(a, x) + Times(b, n), n as real) == Product(a, Quotient(x, n as real)) + b
  {
    TimesIsProduct(b, n);
  }

  /** `Map` on each tuple. */
  function MapEach<T>(f: T -> real, tuples: seq<seq<T>>): (r: seq<seq<real>>)
    ensures |r| == |tuples| && forall i | 0 <= i < |r| :: r[i] == Map(f, tuples[i])
  {
    if tuples == [] then [] else [Map(f, tuples[0])] + MapEach(f, tuples[1..])
  }

  lemma {:induction false} MapEachConcat<T>(f: T -> real, a: seq<seq<T>>, b: seq<seq<T>>)
    ensures MapEach(f, a + b) == MapEach(f, a) + MapEach(f, b)
  {
    if a == [] {
      assert a + b == b;
    } else {
      assert (a + b)[1..] == a[1..] + b;
      MapEachConcat(f, a[1..], b);
    }
  }

  lemma {:induction false} MapPrefixed<T>(f: T -> real, x: T, tuples: seq<seq<T>>)
    ensures MapEach(f, PrefixEach(x, tuples)) == PrefixEach(f(x), MapEach(f, tuples))
  {
    if tuples != [] {
      MapPrefixed(f, x, tuples[1..]);
      assert ([x] + tuples[0])[1..] == tuples[0];
    }
  }

  lemma {:induction false} MapExtended<T>(f: T -> real, xs: seq<T>, tuples: seq<seq<T>>)
    ensures MapEach(f, ExtendEach(xs, tuples)) == ExtendEach(Map(f, xs), MapEach(f, tuples))
  {
    if xs != [] {
      MapExtended(f, xs[1..], tuples);
      MapPrefixed(f, xs[0], tuples);
      MapEachConcat(f, PrefixEach(xs[0], tuples), ExtendEach(xs[1..], tuples));
    }
  }

  lemma {:induction false} MapResamples<T>(f: T -> real, values: seq<T>, m: nat)
    ensures MapEach(f, Resamples(values, m)) == Resamples(Map(f, values), m)
  {
    if m > 0 {
      MapResamples(f, values, m - 1);
      MapExtended(f, values, Resamples(values, m - 1));
    }
  }

  lemma {:induction false} MeansAffine(a: real, b: real, tuples: seq<seq<real>>)
    requires forall i | 0 <= i < |tuples| :: tuples[i] != []
    ensures forall i | 0 <= i < |tuples| :: MapEach(AffineOf(a, b), tuples)[i] != []
    ensures Means(MapEach(AffineOf(a, b), tuples)) == Affine(a, b, Means(tuples))
  {
    if tuples != [] {
      MeansAffine(a, b, tuples[1..]);
      MeanAffine(a, b, tuples[0]);
    }
  }

  lemma {:induction false} EstimatesAffine(a: real, b: real, values: seq<real>)
    requires values != []
    ensures Estimates(Affine(a, b, values)) == Affine(a, b, Estimates(values))
  {
    MapResamples(AffineOf(a, b), values, |values|);
    ResamplesAreDrawn(values, |values|);
    MeansAffine(a, b, Resamples(values, |values|));
  }

  /** The interval follows any affine change of the data; a negative slope, such as negation, also
      exchanges its ends. */
  lemma {:induction false} IntervalIsEquivariant(a: real, b: real, values: seq<real>)
    requires values != []
    ensures BootstrapInterval(|values|, values).Ok?
    ensures BootstrapInterval(|values|, Affine(a, b, values))
         == Ok(AffineTails(a, b, BootstrapInterval(|values|, values).value))
  {
    var estimates := Estimates(values);
    EstimatesNonEmpty(values);
    EstimatesAffine(a, b, values);
    SortedAffine(a, b, estimates);
    TailsAffine(a, b, Sorted(estimates));
  }

  /** An interval scaled by `a` and shifted by `b`. */
  function AffineTails(a: real, b: real, tails: (real, real)): (real, real) {
    if a >= 0.0 then (Product(a, tails.0) + b, Product(a, tails.1) + b)
    else (Product(a, tails.1) + b, Product(a, tails.0) + b)
  }

  lemma {:induction false} TailsAffine(a: real, b: real, sorted: seq<real>)
    requires sorted != []
    ensures Tails(if a >= 0.0 then Affine(a, b, sorted) else Reversed(Affine(a, b, sorted)))
         == AffineTails(a, b, Tails(sorted))
  {
    if a >= 0.0 {
      TailsForward(a, b, sorted);
    } else {
      TailsReversed(a, b, sorted);
    }
  }

  lemma {:induction false} TailsForward(a: real, b: real, sorted: seq<real>)
    requires sorted != [] && a >= 0.0
    ensures Tails(Affine(a, b, sorted)) == AffineTails(a, b, Tails(sorted))
  {
    PercentileAffine(a, b, sorted, LOWER_TAIL);
    PercentileAffine(a, b, sorted, UPPER_TAIL);
  }

  lemma {:induction false} TailsReversed(a: real, b: real, sorted: seq<real>)
    requires sorted != [] && a < 0.0
    ensures Tails(Reversed(Affine(a, b, sorted))) == AffineTails(a, b, Tails(sorted))
  {
    hide LinearPercentile;
    TailReversed(a, b, sorted, LOWER_TAIL, UPPER_TAIL);
    TailReversed(a, b, sorted, UPPER_TAIL, LOWER_TAIL);
    ExchangedTails(a, b, LinearPercentile(sorted, LOWER_TAIL), LinearPercentile(sorted, UPPER_TAIL));
  }

  lemma {:induction false} ExchangedTails(a: real, b: real, lower: real, upper: real)
    requires a < 0.0
    ensures AffineTails(a, b, (lower, upper)) == (Product(a, upper) + b, Product(a, lower) + b)
  {
  }

  lemma {:induction false} TailReversed(a: real, b: real, sorted: seq<real>, p: real, opposite: real)
    requires sorted != [] && 0.0 <= p <= 1.0 && opposite == 1.0 - p
    ensures LinearPercentile(Reversed(Affine(a, b, sorted)), p) == Product(a, LinearPercentile(sorted, opposite)) + b
  {
    PercentileAffine(a, b, sorted, opposite);
    PercentileReversed(Affine(a, b, sorted), p);
  }

  // ---------------------------------------------------------------- larger values and other orders

  /** The same shape, with every drawn value at most its counterpart. */
  predicate TuplesBelow(a: seq<seq<real>>, b: seq<seq<real>>) {
    |a| == |b| && forall i | 0 <= i < |a| :: Below(a[i], b[i])
  }

  lemma {:induction false} PrefixBelow(x: real, a: seq<seq<real>>, y: real, b: seq<seq<real>>)
    requires x <= y && TuplesBelow(a, b)
    ensures TuplesBelow(PrefixEach(x, a), PrefixEach(y, b))
  {
    if a != [] {
      hide Below;
      PrefixBelow(x, a[1..], y, b[1..]);
      BelowCons(x, a[0], y, b[0]);
    }
  }

  lemma {:induction false} ExtendBelow(xs: seq<real>, a: seq<seq<real>>, ys: seq<real>, b: seq<seq<real>>)
    requires Below(xs, ys) && TuplesBelow(a, b)
    ensures TuplesBelow(ExtendEach(xs, a), ExtendEach(ys, b))
  {
    if xs != [] {
      BelowTail(xs, ys);
      hide Below;
      ExtendBelow(xs[1..], a, ys[1..], b);
      PrefixBelow(xs[0], a, ys[0], b);
    }
  }

  lemma {:induction false} ResamplesBelow(values: seq<real>, raised: seq<real>, m: nat)
    requires Below(values, raised)
    ensures TuplesBelow(Resamples(values, m), Resamples(raised, m))
  {
    if m > 0 {
      ResamplesBelow(values, raised, m - 1);
      ExtendBelow(values, Resamples(values, m - 1), raised, Resamples(raised, m - 1));
    }
  }

  lemma {:induction false} EstimatesBelow(values: seq<real>, raised: seq<real>)
    requires values != [] && Below(values, raised)
    ensures Below(Estimates(values), Estimates(raised))
  {
    var n := |values|;
    var a, b := Resamples(values, n), Resamples(raised, n);
    ResamplesBelow(values, raised, n);
    ResamplesAreDrawn(values, n);
    ResamplesAreDrawn(raised, n);
    forall i | 0 <= i < |a| ensures Estimates(values)[i] <= Estimates(raised)[i] {
      assert Below(a[i], b[i]);
      SumMonotone(a[i], b[i]);
      MeanOrder(a[i], b[i]);
    }
  }

  /** Raising any seed values raises both ends of the interval. */
  lemma {:induction false} IntervalIsMonotone(values: seq<real>, raised: seq<real>)
    requires values != [] && Below(values, raised)
    ensures var (lower, upper) := BootstrapInterval(|values|, values).value;
      var (higherLower, higherUpper) := BootstrapInterval(|raised|, raised).value;
      lower <= higherLower && upper <= higherUpper
  {
    hide LinearPercentile, Sorted, Estimates, Below;
    SameSize(values, raised);
    EstimatesNonEmpty(values);
    EstimatesBelow(values, raised);
    SortedMonotone(Estimates(values), Estimates(raised));
    PercentileOfLarger(Sorted(Estimates(values)), Sorted(Estimates(raised)), LOWER_TAIL);
    PercentileOfLarger(Sorted(Estimates(values)), Sorted(Estimates(raised)), UPPER_TAIL);
  }

  lemma {:induction false} SameSize(s: seq<real>, t: seq<real>)
    requires Below(s, t)
    ensures |s| == |t|
  {
  }

  /** The same values in another order. */
  predicate Reorders<T(==)>(s: seq<T>, t: seq<T>) {
    multiset(s) == multiset(t)
  }

  lemma {:induction false} PrefixCons(x: real, t: seq<real>, rest: seq<seq<real>>)
    ensures multiset(PrefixEach(x, [t] + rest)) == multiset{[x] + t} + multiset(PrefixEach(x, rest))
  {
    assert ([t] + rest)[1..] == rest;
  }

  lemma {:induction false} PrefixWithout(x: real, tuples: seq<seq<real>>, i: nat)
    requires i < |tuples|
    ensures multiset(PrefixEach(x, tuples))
         == multiset{[x] + tuples[i]} + multiset(PrefixEach(x, Without(tuples, i)))
  {
    hide PrefixEach;
    assert tuples == [tuples[0]] + tuples[1..];
    PrefixCons(x, tuples[0], tuples[1..]);
    if i == 0 {
      assert Without(tuples, 0) == tuples[1..];
    } else {
      var rest := Without(tuples[1..], i - 1);
      assert Without(tuples, i) == [tuples[0]] + rest;
      hide Without;
      PrefixWithout(x, tuples[1..], i - 1);
      PrefixCons(x, tuples[0], rest);
    }
  }

  lemma {:induction false} PrefixPermuted(x: real, tuples: seq<seq<real>>, permuted: seq<seq<real>>)
    requires multiset(tuples) == multiset(permuted)
    ensures multiset(PrefixEach(x, tuples)) == multiset(PrefixEach(x, permuted))
  {
    SameLength(tuples, permuted);
    if tuples != [] {
      var i := FindHead(tuples, permuted);
      PrefixPermuted(x, tuples[1..], Without(permuted, i));
      PrefixWithout(x, permuted, i);
    }
  }

  lemma {:induction false} ExtendCons(x: real, rest: seq<real>, tuples: seq<seq<real>>)
    ensures multiset(ExtendEach([x] + rest, tuples))
         == multiset(PrefixEach(x, tuples)) + multiset(ExtendEach(rest, tuples))
  {
    assert ([x] + rest)[1..] == rest;
  }

  lemma {:induction false} ExtendWithout(xs: seq<real>, i: nat, tuples: seq<seq<real>>)
    requires i < |xs|
    ensures multiset(ExtendEach(xs, tuples))
         == multiset(PrefixEach(xs[i], tuples)) + multiset(ExtendEach(Without(xs, i), tuples))
  {
    hide PrefixEach, ExtendEach;
    assert xs == [xs[0]] + xs[1..];
    ExtendCons(xs[0], xs[1..], tuples);
    if i == 0 {
      assert Without(xs, 0) == xs[1..];
    } else {
      var rest := Without(xs[1..], i - 1);
      assert Without(xs, i) == [xs[0]] + rest;
      hide Without;
      ExtendWithout(xs[1..], i - 1, tuples);
      ExtendCons(xs[0], rest, tuples);
    }
  }

  lemma {:induction false} ExtendPermuted(xs: seq<real>, ys: seq<real>, tuples: seq<seq<real>>,
                                          permuted: seq<seq<real>>)
    requires Reorders(xs, ys) && Reorders(tuples, permuted)
    ensures Reorders(ExtendEach(xs, tuples), ExtendEach(ys, permuted))
  {
    SameLength(xs, ys);
    if xs != [] {
      var i := FindHead(xs, ys);
      ExtendPermuted(xs[1..], Without(ys, i), tuples, permuted);
      ExtendWithout(ys, i, permuted);
      PrefixPermuted(xs[0], tuples, permuted);
    }
  }

  lemma {:induction false} ReordersItself<T>(s: seq<T>)
    ensures Reorders(s, s)
  {
  }

  /** Other orders of the values give the same resamples in another order. */
  lemma {:induction false} ResamplesPermuted(values: seq<real>, permuted: seq<real>, m: nat)
    requires Reorders(values, permuted)
    ensures Reorders(Resamples(values, m), Resamples(permuted, m))
  {
    hide Reorders, ExtendEach;
    if m == 0 {
      ReordersItself(Resamples(values, 0));
    } else {
      ResamplesPermuted(values, permuted, m - 1);
      ExtendPermuted(values, permuted, Resamples(values, m - 1), Resamples(permuted, m - 1));
    }
  }

  lemma {:induction false} MeansCons(t: seq<real>, rest: seq<seq<real>>)
    requires t != [] && forall j | 0 <= j < |rest| :: rest[j] != []
    ensures multiset(Means([t] + rest)) == multiset{Mean(t)} + multiset(Means(rest))
  {
    hide Mean;
    assert ([t] + rest)[1..] == rest;
  }

  lemma {:induction false} MeansWithout(tuples: seq<seq<real>>, i: nat)
    requires i < |tuples| && forall j | 0 <= j < |tuples| :: tuples[j] != []
    ensures forall j | 0 <= j < |Without(tuples, i)| :: Without(tuples, i)[j] != []
    ensures multiset(Means(tuples)) == multiset{Mean(tuples[i])} + multiset(Means(Without(tuples, i)))
  {
    hide Mean, Means;
    assert tuples == [tuples[0]] + tuples[1..];
    MeansCons(tuples[0], tuples[1..]);
    if i == 0 {
      assert Without(tuples, 0) == tuples[1..];
    } else {
      var rest := Without(tuples[1..], i - 1);
      assert Without(tuples, i) == [tuples[0]] + rest;
      hide Without;
      MeansWithout(tuples[1..], i - 1);
      MeansCons(tuples[0], rest);
    }
  }

  lemma {:induction false} MeansPermuted(tuples: seq<seq<real>>, permuted: seq<seq<real>>)
    requires multiset(tuples) == multiset(permuted)
    requires forall j | 0 <= j < |tuples| :: tuples[j] != []
    requires forall j | 0 <= j < |permuted| :: permuted[j] != []
    ensures multiset(Means(tuples)) == multiset(Means(permuted))
  {
    SameLength(tuples, permuted);
    if tuples != [] {
      hide Mean;
      var i := FindHead(tuples, permuted);
      MeansWithout(permuted, i);
      MeansPermuted(tuples[1..], Without(permuted, i));
    }
  }

  /** Reordering the seeds leaves the interval unchanged. */
  lemma {:induction false} IntervalOfPermuted(values: seq<real>, permuted: seq<real>)
    requires values != [] && multiset(values) == multiset(permuted)
    ensures |values| == |permuted| > 0
    ensures BootstrapInterval(|values|, values) == BootstrapInterval(|permuted|, permuted)
  {
    var n := |values|;
    SameLength(values, permuted);
    EstimatesNonEmpty(values);
    EstimatesNonEmpty(permuted);
    ResamplesAreDrawn(values, n);
    ResamplesAreDrawn(permuted, n);
    ResamplesPermuted(values, permuted, n);
    MeansPermuted(Resamples(values, n), Resamples(permuted, n));
    SortedIsUnique(Sorted(Estimates(values)), Sorted(Estimates(permuted)));
  }
}
