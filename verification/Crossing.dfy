/** The interpolated 50% point of an isotonic fit (`_half_crossing` and its use for m50). */
module Crossing {
  import opened Reals
  import opened Options
  import opened Isotonic
  import opened Orders

  const REL_TOL := 0.000000001          // the default of math.isclose
  const ABS_TOL := 0.000000000000001

  /** The first place at or below one half, or the length when there is none. */
  function FirstAtMostHalf(fitted: seq<real>): (k: nat)
    ensures k <= |fitted|
    ensures forall i | 0 <= i < k :: fitted[i] > 0.5
    ensures k < |fitted| ==> fitted[k] <= 0.5
  {
    if fitted == [] || fitted[0] <= 0.5 then 0 else 1 + FirstAtMostHalf(fitted[1..])
  }

  predicate NearTie(left: real, right: real) {
    IsClose(left, right, REL_TOL, ABS_TOL)
  }

  /** Two values tie when they differ by at most 1e-15 or by a billionth of the larger one's size. */
  lemma {:induction false} NearTieMeans(left: real, right: real)
    ensures NearTie(left, right)
       <==> (Abs(left - right) <= 0.000000000000001 || 1000000000.0 * Abs(left - right) <= Abs(left)
             || 1000000000.0 * Abs(left - right) <= Abs(right))
    ensures left > 0.5 >= right && left <= 1.0 ==> (NearTie(left, right) <==> 1000000000.0 * (left - right) <= left)
  {
  }

  function BracketFraction(left: real, right: real): real
    requires left > 0.5 >= right
  {
    (left - 0.5) / (left - right)
  }

  function Interpolate(x0: real, y0: real, x1: real, y1: real): real
    requires y0 > 0.5 >= y1
  {
    x0 + Product(BracketFraction(y0, y1), x1 - x0)
  }

  function HalfPoint(counts: seq<int>, fitted: seq<real>): Option<real>
    requires |fitted| <= |counts|
  {
    var k := FirstAtMostHalf(fitted);
    if k == |fitted| then None
    else if k == 0 then Some(counts[0] as real)
    else if NearTie(fitted[k - 1], fitted[k]) then Some(counts[k] as real)
    else Some(Interpolate(counts[k - 1] as real, fitted[k - 1], counts[k] as real, fitted[k]))
  }

  /** The source's scan with its early returns. */
  method HalfCrossing(counts: seq<int>, fitted: seq<real>) returns (crossing: Option<real>)
    requires |fitted| <= |counts|
    ensures crossing == HalfPoint(counts, fitted)
    ensures crossing == None <==> forall i | 0 <= i < |fitted| :: fitted[i] > 0.5
  {
    for index := 0 to |fitted|
      invariant forall i | 0 <= i < index :: fitted[i] > 0.5
    {
      var value := fitted[index];
      if value > 0.5 {
        continue;
      }
      assert FirstAtMostHalf(fitted) == index;
      if index == 0 {
        return Some(counts[0] as real);
      }
      var leftM, rightM := counts[index - 1] as real, counts[index] as real;
      var leftY, rightY := fitted[index - 1], value;
      if IsClose(leftY, rightY, REL_TOL, ABS_TOL) {
        return Some(rightM);
      }
      var fraction := (leftY - 0.5) / (leftY - rightY);
      return Some(leftM + Product(fraction, rightM - leftM));
    }
    return None;
  }

  /** The line through (x0, y0) and (x1, y1). */
  function LineThrough(x0: real, y0: real, x1: real, y1: real, x: real): real
    requires x0 < x1
  {
    y0 + Product(y1 - y0, (x - x0) / (x1 - x0))
  }

  /** The crossing lies in the bracket that ends at place `k`. In a near tie it is the right end;
      otherwise it is where the line through the bracket's two fitted points is one half. */
  ghost predicate CrossesIn(counts: seq<int>, fitted: seq<real>, k: nat, x: real)
    requires 0 < k < |fitted| <= |counts| && Increasing(counts)
  {
    var left, right := counts[k - 1] as real, counts[k] as real;
    && fitted[k - 1] > 0.5 >= fitted[k]
    && left < x <= right
    && (NearTie(fitted[k - 1], fitted[k]) ==> x == right)
    && (!NearTie(fitted[k - 1], fitted[k]) ==> LineThrough(left, fitted[k - 1], right, fitted[k], x) == 0.5)
  }

  /** m50 of `refinement_results`, stated on the raw prevalences: it is missing exactly when every
      suffix mean is above one half, it is the first count exactly when no prefix mean is, and
      otherwise it lies in the one bracket where the fit passes one half. */
  method M50(counts: seq<int>, prevalence: seq<real>) returns (fitted: seq<real>, crossing: Option<real>)
    requires |counts| == |prevalence| && Increasing(counts)
    ensures fitted == Fit(prevalence) && |fitted| == |counts|
    ensures crossing == HalfPoint(counts, fitted)
    ensures crossing == None <==> forall a | 0 <= a < |prevalence| :: Mean(prevalence[a..]) > 0.5
    ensures counts != [] ==>
      (crossing == Some(counts[0] as real) <==>
        forall b | 0 < b <= |prevalence| :: Mean(prevalence[..b]) <= 0.5)
    ensures crossing.Some? && crossing.value != counts[0] as real ==>
      exists k :: 0 < k < |counts| && CrossesIn(counts, fitted, k, crossing.value)
  {
    ghost var merges: nat;
    fitted, merges := DecreasingIsotonic(prevalence);
    crossing := HalfCrossing(counts, fitted);
    CrossingFromData(counts, prevalence);
  }

  /** No window that starts at `a` and reaches past `i` has a mean above `c`. */
  ghost predicate MeansAtMost(values: seq<real>, a: nat, i: nat, c: real)
    requires a <= i < |values|
  {
    forall b | i < b <= |values| :: Mean(values[a..b]) <= c
  }

  /** A fitted value is at most `c` exactly when some window start keeps every later mean there. */
  lemma {:induction false} FitAtMost(values: seq<real>, i: nat, c: real)
    requires i < |values|
    ensures |Fit(values)| == |values|
    ensures Fit(values)[i] <= c <==> exists a :: 0 <= a <= i && MeansAtMost(values, a, i, c)
  {
    FitIsFit(values);
    if Fit(values)[i] <= c {
      var a := LevelStartBounds(values, Fit(values), i);
      assert MeansAtMost(values, a, i, c);
    }
    if a :| 0 <= a <= i && MeansAtMost(values, a, i, c) {
      LevelEndBounds(values, Fit(values), i, a);
    }
  }

  lemma {:induction false} SuffixMean(values: seq<real>, a: nat, c: real)
    requires a < |values|
    ensures MeansAtMost(values, a, |values| - 1, c) <==> Mean(values[a..]) <= c
  {
    assert values[a..|values|] == values[a..];
  }

  /** The last fitted value is above one half exactly when every suffix mean is. */
  lemma {:induction false} LastAboveHalf(values: seq<real>)
    requires values != []
    ensures |Fit(values)| == |values|
    ensures Fit(values)[|values| - 1] > 0.5 <==> forall a | 0 <= a < |values| :: Mean(values[a..]) > 0.5
  {
    var last := |values| - 1;
    FitAtMost(values, last, 0.5);
    if Fit(values)[last] <= 0.5 {
      var a :| 0 <= a <= last && MeansAtMost(values, a, last, 0.5);
      SuffixMean(values, a, 0.5);
    } else {
      forall a | 0 <= a < |values| ensures Mean(values[a..]) > 0.5 {
        SuffixMean(values, a, 0.5);
      }
    }
  }

  lemma {:induction false} PrefixMeans(values: seq<real>, c: real)
    requires values != []
    ensures MeansAtMost(values, 0, 0, c) <==> forall b | 0 < b <= |values| :: Mean(values[..b]) <= c
  {
    assert forall b | 0 < b <= |values| :: values[0..b] == values[..b];
  }

  /** The first fitted value is at most one half exactly when every prefix mean is. */
  lemma {:induction false} FirstAtMostHalfFromData(values: seq<real>)
    requires values != []
    ensures |Fit(values)| == |values|
    ensures Fit(values)[0] <= 0.5 <==> forall b | 0 < b <= |values| :: Mean(values[..b]) <= 0.5
  {
    FitAtMost(values, 0, 0.5);
    PrefixMeans(values, 0.5);
  }

  lemma {:induction false} CrossingFromData(counts: seq<int>, values: seq<real>)
    requires |counts| == |values| && Increasing(counts)
    ensures |Fit(values)| == |values|
    ensures var crossing := HalfPoint(counts, Fit(values));
      && (crossing == None <==> forall a | 0 <= a < |values| :: Mean(values[a..]) > 0.5)
      && (values != [] ==>
        (crossing == Some(counts[0] as real) <==> forall b | 0 < b <= |values| :: Mean(values[..b]) <= 0.5))
      && (crossing.Some? && crossing.value != counts[0] as real ==>
        exists k :: 0 < k < |counts| && CrossesIn(counts, Fit(values), k, crossing.value))
  {
    var fit := Fit(values);
    FitIsFit(values);
    if values != [] {
      LastAboveHalf(values);
      FirstAtMostHalfFromData(values);
      var k := FirstAtMostHalf(fit);
      if 0 < k < |fit| {
        BracketCrossing(counts, fit);
        assert CrossesIn(counts, fit, k, HalfPoint(counts, fit).value);
      }
    }
  }

  lemma {:induction false} BracketCrossing(counts: seq<int>, fitted: seq<real>)
    requires |fitted| <= |counts| && Increasing(counts)
    requires 0 < FirstAtMostHalf(fitted) < |fitted|
    ensures HalfPoint(counts, fitted).Some?
    ensures CrossesIn(counts, fitted, FirstAtMostHalf(fitted), HalfPoint(counts, fitted).value)
  {
    var k := FirstAtMostHalf(fitted);
    assert counts[k - 1] < counts[k];
    InterpolatedPoint(counts[k - 1] as real, fitted[k - 1], counts[k] as real, fitted[k]);
  }

  lemma {:induction false} InterpolatedPoint(x0: real, y0: real, x1: real, y1: real)
    requires x0 < x1 && y0 > 0.5 >= y1
    ensures var x := Interpolate(x0, y0, x1, y1);
      && x0 < x <= x1
      && (y1 < 0.5 <==> x < x1)
      && LineThrough(x0, y0, x1, y1, x) == 0.5
  {
    var f, d := BracketFraction(y0, y1), x1 - x0;
    DivideBounds(y0 - 0.5, y0 - y1, 1.0);
    DivideBounds(y0 - 0.5, y0 - y1, 0.0);
    ScaleStep(f, d);
    ScaleBack(f, d);
    ProductNegated(y0 - y1, f);
  }

  lemma {:induction false} ScaleBack(f: real, d: real)
    requires d > 0.0
    ensures Product(f, d) / d == f
  {
  }

  lemma {:induction false} ScaleStep(f: real, d: real)
    requires 0.0 < f <= 1.0 && d > 0.0
    ensures 0.0 < Product(f, d) <= d
    ensures f < 1.0 <==> Product(f, d) < d
  {
    MultiplyMonotone(f, 1.0, d);
    ProductSign(f, d);
    if f < 1.0 {
      MultiplyStrict(f, 1.0, d);
    }
  }

  // ---------------------------------------------------------------- raising the data

  /** `second` is no earlier than `first`; a missing crossing is later than every count. */
  predicate NoEarlier(first: Option<real>, second: Option<real>) {
    second == None || (first.Some? && first.value <= second.value)
  }

  /** The lower data crosses in a near tie, and the raised data still crosses strictly inside the
      same bracket without one. */
  ghost predicate TieThenInside(fit: seq<real>, raisedFit: seq<real>) {
    var k := FirstAtMostHalf(fit);
    && 0 < k < |fit| == |raisedFit|
    && FirstAtMostHalf(raisedFit) == k
    && NearTie(fit[k - 1], fit[k])
    && !NearTie(raisedFit[k - 1], raisedFit[k])
    && raisedFit[k] < 0.5
  }

  /** Raising prevalences moves m50 later or leaves it, with exactly one exception: the near-tie
      branch jumps to the right end of the bracket, so leaving the tie can move m50 back. */
  lemma {:induction false} RaisedDataCrossesLater(counts: seq<int>, values: seq<real>, raised: seq<real>)
    requires |counts| == |values| == |raised| && Increasing(counts)
    requires forall i | 0 <= i < |values| :: values[i] <= raised[i]
    ensures |Fit(values)| == |Fit(raised)| == |counts|
    ensures NoEarlier(HalfPoint(counts, Fit(values)), HalfPoint(counts, Fit(raised)))
      <==> !TieThenInside(Fit(values), Fit(raised))
  {
    FitIsMonotone(values, raised);
    var fit, high := Fit(values), Fit(raised);
    var k, l := FirstAtMostHalf(fit), FirstAtMostHalf(high);
    assert l < |high| ==> fit[l] <= 0.5;
    assert k <= l;
    if 0 < l < |high| {
      BracketCrossing(counts, high);
      if 0 < k {
        BracketCrossing(counts, fit);
      }
      if k < l {
        assert k == l - 1 || counts[k] < counts[l - 1];
      } else {
        BracketOrder(counts[k - 1] as real, counts[k] as real, fit[k - 1], fit[k], high[k - 1], high[k]);
      }
    }
  }

  lemma {:induction false} BracketOrder(x0: real, x1: real, y0: real, y1: real, z0: real, z1: real)
    requires x0 < x1
    requires y0 > 0.5 >= y1 && z0 > 0.5 >= z1
    requires y0 <= z0 && y1 <= z1
    ensures Interpolate(x0, y0, x1, y1) <= Interpolate(x0, z0, x1, z1) <= x1
    ensures Interpolate(x0, z0, x1, z1) == x1 <==> z1 == 0.5
  {
    InterpolatedPoint(x0, z0, x1, z1);
    FractionOrder(y0 - 0.5, 0.5 - y1, z0 - 0.5, 0.5 - z1);
    MultiplyMonotone(BracketFraction(y0, y1), BracketFraction(z0, z1), x1 - x0);
  }

  /** a/(a+b) grows with a and falls with b. */
  lemma {:induction false} FractionOrder(a: real, b: real, c: real, d: real)
    requires 0.0 < a <= c && b >= d >= 0.0
    ensures a / (a + b) <= c / (c + d)
  {
    var q := c / (c + d);
    DivideBounds(c, c + d, 1.0);
    DivideBounds(c, c + d, 0.0);
    DivideBounds(a, a + b, q);
    assert q * (c + d) == c;
    // q * d == (1 - q) * c >= (1 - q) * a
    MultiplyMonotone(a, c, 1.0 - q);
    MultiplyMonotone(d, b, q);
    ProductOfSums(q, a, b, c, d);
  }

  lemma {:induction false} ProductOfSums(q: real, a: real, b: real, c: real, d: real)
    requires q * (c + d) == c
    requires a * (1.0 - q) <= c * (1.0 - q)
    requires d * q <= b * q
    ensures a <= q * (a + b)
  {
  }

  lemma {:induction false} HalfPointOfTwo(left: real, right: real)
    requires left > 0.5 >= right
    ensures HalfPoint([2, 4], [left, right])
         == Some(if NearTie(left, right) then 4.0 else Interpolate(2.0, left, 4.0, right))
  {
    hide NearTie, Interpolate;
    assert FirstAtMostHalf([left, right]) == 1;
  }

  /** On arbitrary reals the exception occurs: raising the left point out of a near tie moves the
      half point from 4 to below 4. */
  lemma {:induction false} RaisedDataCrossesEarlier()
    ensures var values, raised := [0.5000000001, 0.4999999999], [0.6, 0.4999999999];
      && Fit(values) == values && Fit(raised) == raised
      && HalfPoint([2, 4], values) == Some(4.0)
      && HalfPoint([2, 4], raised).Some? && HalfPoint([2, 4], raised).value < 4.0
  {
    var values, raised := [0.5000000001, 0.4999999999], [0.6, 0.4999999999];
    FitOfNonIncreasing(values);
    FitOfNonIncreasing(raised);
    hide Fit, HalfPoint, Interpolate, LineThrough;
    HalfPointOfTwo(values[0], values[1]);
    HalfPointOfTwo(raised[0], raised[1]);
    InterpolatedPoint(2.0, 0.6, 4.0, 0.4999999999);
  }

  // ---------------------------------------------------------------- prevalences of gates

  const COARSE := 500000000    // more rows than this leave room for a near tie

  function Indicator(gate: bool): real {
    if gate then 1.0 else 0.0
  }

  /** `np.mean` of the 0/1 gates of one count, one per seed. */
  function Prevalence(gates: seq<bool>): real
    requires gates != []
  {
    Mean(Map(Indicator, gates))
  }

  predicate Equals(x: real, k: int) {
    x == k as real
  }

  ghost predicate IsWhole(x: real) {
    exists k :: Equals(x, k)
  }

  /** `x` is a whole number of n-ths. */
  ghost predicate WholeParts(x: real, n: nat) {
    IsWhole(Times(x, n))
  }

  lemma {:induction false} WholeSum(x: real, y: real)
    requires IsWhole(x) && IsWhole(y)
    ensures IsWhole(x + y)
  {
    var k :| Equals(x, k);
    var l :| Equals(y, l);
    assert Equals(x + y, k + l);
  }

  lemma {:induction false} GatesAreWhole(gates: seq<bool>)
    ensures IsWhole(Sum(Map(Indicator, gates)))
  {
    if gates != [] {
      GatesAreWhole(gates[1..]);
      assert Equals(Indicator(gates[0]), if gates[0] then 1 else 0);
      WholeSum(Indicator(gates[0]), Sum(Map(Indicator, gates[1..])));
    } else {
      assert Equals(0.0, 0);
    }
  }

  lemma {:induction false} SumOfParts(s: seq<real>, n: nat)
    requires forall i | 0 <= i < |s| :: WholeParts(s[i], n)
    ensures WholeParts(Sum(s), n)
  {
    if s == [] {
      TimesIsProduct(0.0, n);
      assert Equals(Times(0.0, n), 0);
    } else {
      SumOfParts(s[1..], n);
      TimesAdds(s[0], Sum(s[1..]), n);
      WholeSum(Times(s[0], n), Times(Sum(s[1..]), n));
    }
  }

  /** Every fitted value is the mean of a window of the data. */
  lemma {:induction false} FitIsWindowMean(values: seq<real>, i: nat) returns (a: nat, b: nat)
    requires i < |values|
    ensures a <= i < b <= |values| == |Fit(values)|
    ensures Fit(values)[i] == Mean(values[a..b])
  {
    FitIsMinMaxMean(values, i);
    a :| 0 <= a <= i && MinMaxMean(values, i) == LargestMean(values, a, i + 1);
    b :| i + 1 <= b <= |values| && Mean(values[a..b]) == LargestMean(values, a, i + 1);
  }

  /** A mean of few coarse values that exceeds one half exceeds it by more than the tolerance. */
  lemma {:induction false} MeanAboveHalf(s: seq<real>, n: nat)
    requires s != [] && n > 0 && n * |s| < COARSE
    requires forall i | 0 <= i < |s| :: WholeParts(s[i], n)
    requires Mean(s) > 0.5
    ensures Mean(s) - 0.5 > REL_TOL
  {
    hide Mean;
    SumOfParts(s, n);
    TimesMean(s);
    TimesIsProduct(Mean(s), |s|);
    TimesIsProduct(Sum(s), n);
    var total :| Equals(Times(Sum(s), n), total);
    WholeAboveHalf(Mean(s), |s|, n, total);
  }

  /** m > 1/2 and m*k*n whole give m - 1/2 >= 1/(2*k*n). */
  lemma {:induction false} WholeAboveHalf(m: real, k: nat, n: nat, total: int)
    requires k > 0 && n > 0 && n * k < COARSE && m > 0.5
    requires m * k as real * n as real == total as real
    ensures m - 0.5 > REL_TOL
  {
    var kn := (n * k) as real;
    ProductOfCounts(m, k, n);
    HalfPart(m, n * k, total);
    hide Product;
    if m - 0.5 <= REL_TOL {
      ProductOrder(m - 0.5, REL_TOL, kn);
      SmallPart(kn);
      assert false;
    }
  }

  lemma {:induction false} HalfPart(m: real, kn: nat, total: int)
    requires kn > 0 && m > 0.5 && m * kn as real == total as real
    ensures Product(m - 0.5, kn as real) >= 0.5
  {
    MultiplyStrict(0.5, m, kn as real);
    assert 2 * total >= kn + 1;
  }

  lemma {:induction false} SmallPart(kn: real)
    requires kn < COARSE as real
    ensures Product(REL_TOL, kn) < 0.5
  {
  }

  lemma {:induction false} ProductOfCounts(m: real, k: nat, n: nat)
    ensures m * k as real * n as real == m * (n * k) as real
    ensures n > 0 && k > 0 ==> n * k > 0
  {
  }

  lemma {:induction false} GapIsNoTie(left: real, right: real)
    requires left - 0.5 > REL_TOL && right <= 0.5
    ensures !NearTie(left, right)
  {
  }

  /** Data of few seeds and counts has no near tie across one half, whatever the data. */
  lemma {:induction false} CoarseFitHasNoTie(values: seq<real>, n: nat, k: nat)
    requires 0 < k < |values| && n > 0 && n * |values| < COARSE
    requires forall i | 0 <= i < |values| :: WholeParts(values[i], n)
    ensures |Fit(values)| == |values|
    ensures Fit(values)[k - 1] > 0.5 >= Fit(values)[k] ==> !NearTie(Fit(values)[k - 1], Fit(values)[k])
  {
    hide Fit, WholeParts, NearTie, Mean;
    var a, b := FitIsWindowMean(values, k - 1);
    if Fit(values)[k - 1] > 0.5 >= Fit(values)[k] {
      FewerRows(n, b - a, |values|);
      MeanAboveHalf(values[a..b], n);
      GapIsNoTie(Fit(values)[k - 1], Fit(values)[k]);
    }
  }

  lemma {:induction false} FewerRows(n: nat, k: nat, m: nat)
    requires k <= m
    ensures n * k <= n * m
  {
  }

  /** The prevalences of one panel: gates by count, then by seed. */
  function Prevalences(gates: seq<seq<bool>>): (r: seq<real>)
    requires forall i | 0 <= i < |gates| :: gates[i] != []
    ensures |r| == |gates| && forall i | 0 <= i < |r| :: r[i] == Prevalence(gates[i])
  {
    if gates == [] then [] else [Prevalence(gates[0])] + Prevalences(gates[1..])
  }

  /** Every count has one gate per seed, and the panel is small. */
  predicate GatePanel(counts: seq<int>, gates: seq<seq<bool>>, seeds: nat) {
    && |counts| == |gates| && Increasing(counts)
    && 0 < seeds && seeds * |counts| < COARSE
    && forall i | 0 <= i < |gates| :: |gates[i]| == seeds
  }

  lemma {:induction false} PrevalencesAreCoarse(counts: seq<int>, gates: seq<seq<bool>>, seeds: nat)
    requires GatePanel(counts, gates, seeds)
    ensures forall i | 0 <= i < |gates| :: WholeParts(Prevalences(gates)[i], seeds)
  {
    forall i | 0 <= i < |gates| ensures WholeParts(Prevalences(gates)[i], seeds) {
      GatesAreWhole(gates[i]);
      TimesMean(Map(Indicator, gates[i]));
    }
  }

  /** The m50 of a panel: no near tie occurs, so past the first count it is exactly where the line
      through its bracket is one half. */
  lemma {:induction false} PanelCrossing(counts: seq<int>, gates: seq<seq<bool>>, seeds: nat)
    requires GatePanel(counts, gates, seeds) && counts != []
    ensures |Fit(Prevalences(gates))| == |counts|
    ensures var fit := Fit(Prevalences(gates));
      var k, crossing := FirstAtMostHalf(fit), HalfPoint(counts, fit);
      && (crossing == None <==> k == |counts|)
      && (crossing == Some(counts[0] as real) <==> k == 0)
      && (0 < k < |counts| ==>
           && counts[k - 1] as real < crossing.value <= counts[k] as real
           && LineThrough(counts[k - 1] as real, fit[k - 1], counts[k] as real, fit[k], crossing.value) == 0.5)
  {
    hide Fit, NearTie, LineThrough;
    var values := Prevalences(gates);
    var fit := Fit(values);
    FitIsFit(values);
    var k := FirstAtMostHalf(fit);
    if 0 < k < |counts| {
      PrevalencesAreCoarse(counts, gates, seeds);
      CoarseFitHasNoTie(values, seeds, k);
      BracketCrossing(counts, fit);
      assert counts[0] <= counts[k - 1];
    }
  }

  /** Gates that open for more seeds: m50 never moves earlier. */
  lemma {:induction false} MoreGatesCrossLater(counts: seq<int>, gates: seq<seq<bool>>, more: seq<seq<bool>>,
                                               seeds: nat)
    requires GatePanel(counts, gates, seeds) && GatePanel(counts, more, seeds)
    requires forall i, j | 0 <= i < |gates| && 0 <= j < seeds :: gates[i][j] ==> more[i][j]
    ensures |Fit(Prevalences(gates))| == |Fit(Prevalences(more))| == |counts|
    ensures NoEarlier(HalfPoint(counts, Fit(Prevalences(gates))), HalfPoint(counts, Fit(Prevalences(more))))
  {
    hide Fit, NearTie, HalfPoint, NoEarlier;
    var values, raised := Prevalences(gates), Prevalences(more);
    forall i | 0 <= i < |gates| ensures values[i] <= raised[i] {
      SumMonotone(Map(Indicator, gates[i]), Map(Indicator, more[i]));
      MeanOrder(Map(Indicator, gates[i]), Map(Indicator, more[i]));
    }
    RaisedDataCrossesLater(counts, values, raised);
    PrevalencesAreCoarse(counts, gates, seeds);
    var k := FirstAtMostHalf(Fit(values));
    if 0 < k < |counts| {
      CoarseFitHasNoTie(values, seeds, k);
    }
  }
}
