/** Finite sums and means over sequences of reals. `math.fsum` rounds once at the end,
    so a mean is modelled as an exact real. */
module Reals {

  function Sum(s: seq<real>): real {
    if s == [] then 0.0 else s[0] + Sum(s[1..])
  }

  /** `_mean`: the exact sum over the number of values. */
  function Mean(s: seq<real>): real
    requires s != []
  {
    Quotient(Sum(s), |s| as real)
  }

  function Abs(x: real): real {
    if x < 0.0 then -x else x
  }

  function Max(x: real, y: real): real {
    if x < y then y else x
  }

  function Min(x: real, y: real): real {
    if y < x then y else x
  }

  /** `[f(x) for x in s]`. */
  function Map<T>(f: T -> real, s: seq<T>): (r: seq<real>)
    ensures |r| == |s| && forall i | 0 <= i < |s| :: r[i] == f(s[i])
  {
    if s == [] then [] else [f(s[0])] + Map(f, s[1..])
  }

  predicate NonIncreasing(s: seq<real>) {
    forall i, j | 0 <= i < j < |s| :: s[i] >= s[j]
  }

  predicate NonDecreasing(s: seq<real>) {
    forall i, j | 0 <= i < j < |s| :: s[i] <= s[j]
  }

  /** `math.isclose` with explicit tolerances. */
  predicate IsClose(x: real, y: real, relTol: real, absTol: real) {
    Abs(x - y) <= Max(relTol * Max(Abs(x), Abs(y)), absTol)
  }

  lemma {:induction false} SumConcat(s: seq<real>, t: seq<real>)
    ensures Sum(s + t) == Sum(s) + Sum(t)
  {
    if s == [] {
      assert s + t == t;
    } else {
      assert (s + t)[1..] == s[1..] + t;
      SumConcat(s[1..], t);
    }
  }

  lemma {:induction false} SumOne(x: real)
    ensures Sum([x]) == x
  {
    assert [x][1..] == [];
  }

  /** The sum of the first `k` values. */
  function PrefixSum(s: seq<real>, k: nat): real
    requires k <= |s|
  {
    if k == 0 then 0.0 else PrefixSum(s, k - 1) + s[k - 1]
  }

  lemma {:induction false} PrefixSumIsSum(s: seq<real>, k: nat)
    requires k <= |s|
    ensures PrefixSum(s, k) == Sum(s[..k])
  {
    if k > 0 {
      PrefixSumIsSum(s, k - 1);
      assert s[..k] == s[..k - 1] + [s[k - 1]];
      SumConcat(s[..k - 1], [s[k - 1]]);
      SumOne(s[k - 1]);
    }
  }

  /** A prefix sum looks only at the prefix. */
  lemma {:induction false} PrefixSumLocal(s: seq<real>, t: seq<real>, k: nat)
    requires k <= |s| && k <= |t|
    requires forall i | 0 <= i < k :: s[i] == t[i]
    ensures PrefixSum(s, k) == PrefixSum(t, k)
  {
    if k > 0 {
      PrefixSumLocal(s, t, k - 1);
    }
  }

  lemma {:induction false} PrefixSumConcat(s: seq<real>, t: seq<real>, j: nat)
    requires j <= |t|
    ensures PrefixSum(s + t, |s| + j) == PrefixSum(s, |s|) + PrefixSum(t, j)
  {
    if j == 0 {
      PrefixSumLocal(s + t, s, |s|);
    } else {
      PrefixSumConcat(s, t, j - 1);
    }
  }

  /** A sum over a window is a difference of prefix sums. */
  lemma {:induction false} SumWindow(s: seq<real>, a: nat, b: nat)
    requires a <= b <= |s|
    ensures Sum(s[a..b]) == PrefixSum(s, b) - PrefixSum(s, a)
  {
    PrefixSumIsSum(s, a);
    PrefixSumIsSum(s, b);
    assert s[..b] == s[..a] + s[a..b];
    SumConcat(s[..a], s[a..b]);
  }

  /** `[x] * n`. */
  function Repeat<T>(x: T, n: nat): (s: seq<T>)
    ensures |s| == n && forall i | 0 <= i < n :: s[i] == x
  {
    if n == 0 then [] else [x] + Repeat(x, n - 1)
  }

  /** `x` added `n` times: the product, in a form that keeps the proofs linear. */
  function Times(x: real, n: nat): real {
    if n == 0 then 0.0 else x + Times(x, n - 1)
  }

  lemma {:induction false} TimesIsProduct(x: real, n: nat)
    ensures Times(x, n) == x * n as real
  {
    if n > 0 {
      TimesIsProduct(x, n - 1);
      assert x + x * (n - 1) as real == x * n as real;
    }
  }

  lemma {:induction false} PrefixSumRepeat(x: real, n: nat, k: nat)
    requires k <= n
    ensures PrefixSum(Repeat(x, n), k) == Times(x, k)
  {
    if k > 0 {
      PrefixSumRepeat(x, n, k - 1);
    }
  }

  lemma {:induction false} SumMonotone(s: seq<real>, t: seq<real>)
    requires |s| == |t|
    requires forall i | 0 <= i < |s| :: s[i] <= t[i]
    ensures Sum(s) <= Sum(t)
  {
    if s != [] {
      SumMonotone(s[1..], t[1..]);
    }
  }

  lemma {:induction false} MeanBounds(s: seq<real>, lo: real, hi: real)
    requires s != []
    requires forall i | 0 <= i < |s| :: lo <= s[i] <= hi
    ensures lo <= Mean(s) <= hi
  {
    MeanBelow(s, s, hi);
    MeanAbove(s, s, lo);
  }

  lemma {:induction false} MeanOrder(s: seq<real>, t: seq<real>)
    requires |s| == |t| > 0 && Sum(s) <= Sum(t)
    ensures Mean(s) <= Mean(t)
  {
    QuotientByTimes(Sum(s), |s|, Mean(t));
    QuotientByTimes(Sum(t), |t|, Mean(t));
  }

  lemma {:induction false} TimesAdds(x: real, y: real, n: nat)
    ensures Times(x + y, n) == Times(x, n) + Times(y, n)
  {
    if n > 0 {
      TimesAdds(x, y, n - 1);
    }
  }

  lemma {:induction false} TimesMonotone(x: real, y: real, n: nat)
    requires x <= y
    ensures Times(x, n) <= Times(y, n)
  {
    if n > 0 {
      TimesMonotone(x, y, n - 1);
    }
  }

  lemma {:induction false} TimesMean(s: seq<real>)
    requires s != []
    ensures Times(Mean(s), |s|) == Sum(s)
  {
    TimesIsProduct(Mean(s), |s|);
    QuotientBounds(Sum(s), |s| as real, 0.0);
  }

  lemma {:induction false} QuotientByTimes(x: real, n: nat, c: real)
    requires n > 0
    ensures Quotient(x, n as real) <= c <==> x <= Times(c, n)
    ensures Quotient(x, n as real) >= c <==> x >= Times(c, n)
  {
    QuotientBounds(x, n as real, c);
    TimesIsProduct(c, n);
  }

  lemma {:induction false} MeanBelow(s: seq<real>, t: seq<real>, c: real)
    requires |s| == |t| > 0 && Sum(s) <= Sum(t)
    requires forall i | 0 <= i < |t| :: t[i] <= c
    ensures Mean(s) <= c
  {
    SumMonotone(t, Repeat(c, |t|));
    SumRepeat(c, |t|);
    QuotientByTimes(Sum(s), |s|, c);
  }

  lemma {:induction false} MeanAbove(s: seq<real>, t: seq<real>, c: real)
    requires |s| == |t| > 0 && Sum(s) >= Sum(t)
    requires forall i | 0 <= i < |t| :: t[i] >= c
    ensures Mean(s) >= c
  {
    SumMonotone(Repeat(c, |t|), t);
    SumRepeat(c, |t|);
    QuotientByTimes(Sum(s), |s|, c);
  }

  lemma {:induction false} SumRepeat(x: real, n: nat)
    ensures Sum(Repeat(x, n)) == Times(x, n)
  {
    if n > 0 {
      assert Repeat(x, n)[1..] == Repeat(x, n - 1);
      SumRepeat(x, n - 1);
    }
  }

  /** Comparing a quotient is comparing products. */
  lemma {:induction false} DivideBounds(x: real, y: real, c: real)
    requires y > 0.0
    ensures x / y <= c <==> x <= c * y
    ensures x / y >= c <==> x >= c * y
    ensures x / y * y == x
  {
    CompareProducts(x / y, c, y);
  }

  lemma {:induction false} CompareProducts(q: real, c: real, y: real)
    requires y > 0.0
    ensures q <= c <==> q * y <= c * y
    ensures q >= c <==> q * y >= c * y
  {
    if q < c {
      MultiplyStrict(q, c, y);
    } else if q > c {
      MultiplyStrict(c, q, y);
    }
  }

  function Product(x: real, y: real): real {
    x * y
  }

  function Quotient(x: real, y: real): real
    requires y != 0.0
  {
    x / y
  }

  lemma {:induction false} QuotientBounds(x: real, y: real, c: real)
    requires y > 0.0
    ensures Quotient(x, y) <= c <==> x <= Product(c, y)
    ensures Quotient(x, y) >= c <==> x >= Product(c, y)
    ensures Product(Quotient(x, y), y) == x
  {
    DivideBounds(x, y, c);
  }

  lemma {:induction false} QuotientIs(q: real, x: real, n: real)
    requires n > 0.0 && q * n == x
    ensures Quotient(x, n) == q
  {
  }

  lemma {:induction false} ProductSign(x: real, y: real)
    ensures (x > 0.0 && y > 0.0) || (x < 0.0 && y < 0.0) ==> Product(x, y) > 0.0
    ensures x == 0.0 || y == 0.0 ==> Product(x, y) == 0.0
  {
    if x < 0.0 && y < 0.0 {
      assert x * y == (-x) * (-y);
    }
  }

  lemma {:induction false} ProductMonotone(z: real, x: real, y: real)
    requires x <= y && z >= 0.0
    ensures Product(z, x) <= Product(z, y)
  {
    MultiplyMonotone(x, y, z);
  }

  lemma {:induction false} ProductOrder(x: real, y: real, z: real)
    requires x <= y && z >= 0.0
    ensures Product(x, z) <= Product(y, z)
  {
  }

  lemma {:induction false} ProductUnits(x: real)
    ensures Product(x, 0.0) == Product(0.0, x) == 0.0
    ensures Product(x, 1.0) == Product(1.0, x) == x
  {
  }

  lemma {:induction false} ProductCommutes(x: real, y: real)
    ensures Product(x, y) == Product(y, x)
  {
  }

  lemma {:induction false} ProductOfDifference(x: real, y: real, z: real)
    ensures Product(x - y, z) == Product(x, z) - Product(y, z)
  {
  }

  lemma {:induction false} ProductNegated(x: real, y: real)
    ensures Product(-x, y) == -Product(x, y)
  {
  }

  lemma {:induction false} ProductNonNegative(x: real, y: real)
    requires x >= 0.0 && y >= 0.0
    ensures Product(x, y) >= 0.0
  {
  }

  lemma {:induction false} MultiplyMonotone(x: real, y: real, z: real)
    requires x <= y && z >= 0.0
    ensures x * z <= y * z
  {
    assert (y - x) * z >= 0.0;
  }

  lemma {:induction false} MultiplyStrict(x: real, y: real, z: real)
    requires x < y && z > 0.0
    ensures x * z < y * z
  {
    assert (y - x) * z > 0.0;
  }
}
