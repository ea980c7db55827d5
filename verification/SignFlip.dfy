/** The exact two-sided sign-flip test (`_sign_flip_p_value`). The known-Law analysis compares with
    no slack and the hidden-Law analysis with a slack of 1e-15; both are instances of `slack`. */
module SignFlip {
  import opened Reals
  import opened Options
  import opened Counting
  import opened Permutations

  datatype Sign = Minus | Plus

  type Signs = seq<Sign>

  /** `sign * value` for a sign of -1.0 or 1.0. */
  function Apply(sign: Sign, value: real): real {
    if sign == Plus then value else -value
  }

  function Signed(signs: Signs, values: seq<real>): (r: seq<real>)
    ensures |r| == |values|
  {
    if values == [] then []
    else if signs == [] then values
    else [Apply(signs[0], values[0])] + Signed(signs[1..], values[1..])
  }

  function Prefixed(sign: Sign, vectors: seq<Signs>): seq<Signs> {
    if vectors == [] then [] else [[sign] + vectors[0]] + Prefixed(sign, vectors[1..])
  }

  /** `product((-1.0, 1.0), repeat=n)`. */
  function SignVectors(n: nat): seq<Signs> {
    if n == 0 then [[]]
    else Prefixed(Minus, SignVectors(n - 1)) + Prefixed(Plus, SignVectors(n - 1))
  }

  predicate Exceeds(values: seq<real>, slack: real, signs: Signs)
    requires values != []
  {
    Abs(Mean(Signed(signs, values))) >= Abs(Mean(values)) - slack
  }

  function Exceeding(values: seq<real>, slack: real): Signs -> bool
    requires values != []
  {
    s => Exceeds(values, slack, s)
  }

  function Exceedances(values: seq<real>, slack: real): nat
    requires values != []
  {
    Count(SignVectors(|values|), Exceeding(values, slack))
  }

  function Pow2(n: nat): (r: nat)
    ensures r >= 1
  {
    if n == 0 then 1 else 2 * Pow2(n - 1)
  }

  /** The p-value for a registered number of seeds. */
  function SignFlipPValue(seeds: nat, values: seq<real>, slack: real): Result<real>
    requires seeds > 0
  {
    if |values| != seeds then Err("sign-flip test requires exactly the registered seed-block values")
    else Ok(Quotient(Exceedances(values, slack) as real, Pow2(seeds) as real))
  }

  // ---------------------------------------------------------------- the enumeration

  lemma {:induction false} InPrefixed(sign: Sign, vectors: seq<Signs>, s: Signs)
    ensures s in Prefixed(sign, vectors) <==> s != [] && s[0] == sign && s[1..] in vectors
  {
    if vectors != [] {
      InPrefixed(sign, vectors[1..], s);
      if s != [] {
        assert s == [sign] + vectors[0] <==> s[0] == sign && s[1..] == vectors[0];
      }
    }
  }

  /** The enumeration holds exactly the vectors of length `n`. */
  lemma {:induction false} InSignVectors(n: nat, s: Signs)
    ensures s in SignVectors(n) <==> |s| == n
  {
    if n > 0 {
      InPrefixed(Minus, SignVectors(n - 1), s);
      InPrefixed(Plus, SignVectors(n - 1), s);
      if s != [] {
        InSignVectors(n - 1, s[1..]);
      }
    }
  }

  /** `p` on the vectors that start with `sign`, as a condition on the remaining signs. */
  function After(sign: Sign, p: Signs -> bool): Signs -> bool {
    s => p([sign] + s)
  }

  lemma {:induction false} CountPrefixed(sign: Sign, vectors: seq<Signs>, p: Signs -> bool)
    ensures Count(Prefixed(sign, vectors), p) == Count(vectors, After(sign, p))
  {
    if vectors != [] {
      var rest := Prefixed(sign, vectors[1..]);
      assert Prefixed(sign, vectors) == [[sign] + vectors[0]] + rest;
      assert Prefixed(sign, vectors)[1..] == rest;
      CountPrefixed(sign, vectors[1..], p);
    }
  }

  /** Counting splits on the first sign. */
  lemma {:induction false} CountSplit(n: nat, p: Signs -> bool)
    requires n > 0
    ensures Count(SignVectors(n), p)
         == Count(SignVectors(n - 1), After(Minus, p)) + Count(SignVectors(n - 1), After(Plus, p))
  {
    var vectors := SignVectors(n - 1);
    CountConcat(Prefixed(Minus, vectors), Prefixed(Plus, vectors), p);
    CountPrefixed(Minus, vectors, p);
    CountPrefixed(Plus, vectors, p);
  }

  /** No vector is enumerated twice. */
  lemma {:induction false} CountOne(n: nat, t: Signs)
    requires |t| == n
    ensures Count(SignVectors(n), Only(t)) == 1
  {
    if n == 0 {
      assert SignVectors(n) == [t];
    } else {
      CountSplit(n, Only(t));
      CountOne(n - 1, t[1..]);
      CountOnlyAfter(n - 1, Minus, t);
      CountOnlyAfter(n - 1, Plus, t);
    }
  }

  lemma {:induction false} CountOnlyAfter(n: nat, sign: Sign, t: Signs)
    requires t != []
    ensures Count(SignVectors(n), After(sign, Only(t)))
         == if sign == t[0] then Count(SignVectors(n), Only(t[1..])) else 0
  {
    if sign == t[0] {
      forall s ensures After(sign, Only(t))(s) == Only(t[1..])(s) {
        assert [sign] + s == t <==> s == t[1..];
      }
      CountCongruent(SignVectors(n), After(sign, Only(t)), Only(t[1..]));
    } else {
      CountPositive(SignVectors(n), After(sign, Only(t)));
    }
  }

  /** The enumeration has 2^n entries: each vector of length `n` once, and no other. */
  lemma {:induction false} EnumerationIsExact(n: nat, t: Signs)
    ensures |SignVectors(n)| == Pow2(n)
    ensures Count(SignVectors(n), Only(t)) == if |t| == n then 1 else 0
  {
    EnumerationLength(n);
    InSignVectors(n, t);
    if |t| == n {
      CountOne(n, t);
    } else {
      CountPositive(SignVectors(n), Only(t));
    }
  }

  lemma {:induction false} EnumerationLength(n: nat)
    ensures |SignVectors(n)| == Pow2(n)
  {
    if n > 0 {
      EnumerationLength(n - 1);
      PrefixedLength(Minus, SignVectors(n - 1));
      PrefixedLength(Plus, SignVectors(n - 1));
    }
  }

  lemma {:induction false} PrefixedLength(sign: Sign, vectors: seq<Signs>)
    ensures |Prefixed(sign, vectors)| == |vectors|
  {
    if vectors != [] {
      PrefixedLength(sign, vectors[1..]);
    }
  }

  // ---------------------------------------------------------------- validity

  /** Two sign changes in a row. */
  function Compose(s: Signs, t: Signs): (r: Signs)
    ensures |r| == |s|
  {
    if s == [] || t == [] then s
    else [if s[0] == t[0] then Plus else Minus] + Compose(s[1..], t[1..])
  }

  lemma {:induction false} SignedCompose(s: Signs, t: Signs, values: seq<real>)
    requires |s| == |t| == |values|
    ensures Signed(Compose(s, t), values) == Signed(s, Signed(t, values))
  {
    if values != [] {
      SignedCompose(s[1..], t[1..], values[1..]);
    }
  }

  /** `p` after the sign changes `t`. */
  function Turned(t: Signs, p: Signs -> bool): Signs -> bool {
    s => p(Compose(s, t))
  }

  /** Composing with a fixed vector only permutes the enumeration. */
  lemma {:induction false} CountFlip(n: nat, t: Signs, p: Signs -> bool)
    requires |t| == n
    ensures Count(SignVectors(n), Turned(t, p)) == Count(SignVectors(n), p)
  {
    if n == 0 {
      assert SignVectors(0) == [[]] && Compose([], t) == [];
    } else {
      hide Count, SignVectors, Turned, Compose, After;
      CountSplit(n, p);
      CountSplit(n, Turned(t, p));
      CountFlip(n - 1, t[1..], After(Minus, p));
      CountFlip(n - 1, t[1..], After(Plus, p));
      CountTurnedAfter(n - 1, Minus, t, p);
      CountTurnedAfter(n - 1, Plus, t, p);
    }
  }

  lemma {:induction false} CountTurnedAfter(n: nat, sign: Sign, t: Signs, p: Signs -> bool)
    requires t != []
    ensures Count(SignVectors(n), After(sign, Turned(t, p)))
         == Count(SignVectors(n), Turned(t[1..], After(if sign == t[0] then Plus else Minus, p)))
  {
    var turned := if sign == t[0] then Plus else Minus;
    forall s ensures After(sign, Turned(t, p))(s) == Turned(t[1..], After(turned, p))(s) {
      assert ([sign] + s)[1..] == s;
      assert Compose([sign] + s, t) == [turned] + Compose(s, t[1..]);
    }
    CountCongruent(SignVectors(n), After(sign, Turned(t, p)), Turned(t[1..], After(turned, p)));
  }

  /** The test statistic of the sign-flipped data. */
  function Statistic(values: seq<real>): Signs -> real
    requires values != []
  {
    s => Abs(Mean(Signed(s, values)))
  }

  /** The exceedance count of a sign-flipped data set is the rank of its statistic among all of them. */
  lemma {:induction false} ExceedancesAreRank(values: seq<real>, t: Signs, slack: real)
    requires |t| == |values| > 0
    ensures Exceedances(Signed(t, values), slack) == Rank(SignVectors(|values|), Statistic(values), slack, t)
  {
    var vectors, flipped := SignVectors(|values|), Signed(t, values);
    var q := AtLeast(Statistic(values), Statistic(values)(t) - slack);
    CountFlip(|values|, t, q);
    forall s | s in vectors ensures Exceeding(flipped, slack)(s) == Turned(t, q)(s) {
      InSignVectors(|values|, s);
      SignedCompose(s, t, values);
    }
    CountCongruent(vectors, Exceeding(flipped, slack), Turned(t, q));
  }

  /** The sign changes under which the test reports a p-value of at most `level`. */
  function PValueAtMost(values: seq<real>, slack: real, level: real): Signs -> bool
    requires values != []
  {
    t => SignFlipPValue(|values|, Signed(t, values), slack).value <= level
  }

  lemma {:induction false} PValueIsRank(values: seq<real>, t: Signs, slack: real, level: real)
    requires |t| == |values| > 0
    ensures PValueAtMost(values, slack, level)(t)
      <==> Rank(SignVectors(|values|), Statistic(values), slack, t) as real <= Product(level, Pow2(|values|) as real)
  {
    ExceedancesAreRank(values, t, slack);
    QuotientBounds(Exceedances(Signed(t, values), slack) as real, Pow2(|values|) as real, level);
  }

  /** Validity: of the 2^n sign-flipped data sets, at most a fraction `level` has a p-value of at
      most `level`, for every data vector, with or without slack. */
  lemma {:induction false} SignFlipTestIsValid(values: seq<real>, slack: real, level: real)
    requires values != [] && slack >= 0.0 && level >= 0.0
    ensures Count(SignVectors(|values|), PValueAtMost(values, slack, level)) as real
         <= Product(level, Pow2(|values|) as real)
  {
    var n, vectors := |values|, SignVectors(|values|);
    var bound := Product(level, Pow2(n) as real);
    ProductNonNegative(level, Pow2(n) as real);
    var low := RankAtMost(vectors, Statistic(values), slack, bound);
    forall t | t in vectors ensures PValueAtMost(values, slack, level)(t) == low(t) {
      InSignVectors(n, t);
      PValueIsRank(values, t, slack, level);
    }
    RankBound(vectors, Statistic(values), slack, bound);
    CountCongruent(vectors, PValueAtMost(values, slack, level), low);
  }

  // ---------------------------------------------------------------- the attainable counts

  function SignedSum(signs: Signs, values: seq<real>): real {
    Sum(Signed(signs, values))
  }

  function Negated(values: seq<real>): (r: seq<real>)
    ensures |r| == |values|
  {
    if values == [] then [] else [-values[0]] + Negated(values[1..])
  }

  lemma {:induction false} SignedSumStep(sign: Sign, s: Signs, values: seq<real>)
    requires |s| + 1 == |values|
    ensures SignedSum([sign] + s, values) == Apply(sign, values[0]) + SignedSum(s, values[1..])
  {
    assert ([sign] + s)[1..] == s;
    assert Signed([sign] + s, values)[1..] == Signed(s, values[1..]);
  }

  /** The opposite signs, or the negated values, give the opposite sum. */
  lemma {:induction false} OppositeSum(s: Signs, values: seq<real>)
    requires |s| == |values|
    ensures SignedSum(Compose(s, Repeat(Minus, |s|)), values) == -SignedSum(s, values)
    ensures SignedSum(s, Negated(values)) == -SignedSum(s, values)
  {
    if s != [] {
      var rest := Compose(s[1..], Repeat(Minus, |s| - 1));
      var turned := if s[0] == Minus then Plus else Minus;
      OppositeSum(s[1..], values[1..]);
      assert s == [s[0]] + s[1..];
      assert Negated(values)[1..] == Negated(values[1..]);
      SignedSumStep(turned, rest, values);
      SignedSumStep(s[0], s[1..], values);
      SignedSumStep(s[0], s[1..], Negated(values));
    }
  }

  lemma {:induction false} SignedByPlus(values: seq<real>)
    ensures Signed(Repeat(Plus, |values|), values) == values
  {
    if values != [] {
      SignedByPlus(values[1..]);
    }
  }

  lemma {:induction false} AbsMean(s: seq<real>)
    requires s != []
    ensures Abs(Mean(s)) == Quotient(Abs(Sum(s)), |s| as real)
  {
    QuotientBounds(Sum(s), |s| as real, 0.0);
    QuotientNegated(Sum(s), |s| as real);
  }

  lemma {:induction false} QuotientNegated(x: real, y: real)
    requires y > 0.0
    ensures Quotient(-x, y) == -Quotient(x, y)
  {
  }

  /** The comparison depends only on the sizes of the two sums. */
  lemma {:induction false} ExceedsBySums(values: seq<real>, s: Signs, other: seq<real>, t: Signs, slack: real)
    requires |values| == |other| > 0
    requires Abs(Sum(values)) == Abs(Sum(other)) && Abs(SignedSum(s, values)) == Abs(SignedSum(t, other))
    ensures Exceeds(values, slack, s) <==> Exceeds(other, slack, t)
  {
    AbsMean(values);
    AbsMean(other);
    AbsMean(Signed(s, values));
    AbsMean(Signed(t, other));
  }

  lemma {:induction false} ExceedsWithoutSlack(values: seq<real>, s: Signs)
    requires values != []
    ensures Exceeds(values, 0.0, s) <==> Abs(SignedSum(s, values)) >= Abs(Sum(values))
  {
    AbsMean(values);
    AbsMean(Signed(s, values));
    QuotientOrder(Abs(SignedSum(s, values)), Abs(Sum(values)), |values| as real);
  }

  lemma {:induction false} QuotientOrder(x: real, y: real, n: real)
    requires n > 0.0
    ensures Quotient(x, n) >= Quotient(y, n) <==> x >= y
  {
    QuotientBounds(x, n, Quotient(y, n));
    QuotientBounds(y, n, Quotient(y, n));
  }

  /** The exceedances with a first sign of +1. */
  function HalfCount(values: seq<real>, slack: real): nat
    requires values != []
  {
    Count(SignVectors(|values| - 1), After(Plus, Exceeding(values, slack)))
  }

  lemma {:induction false} OppositeExceeds(values: seq<real>, slack: real, s: Signs)
    requires |s| + 1 == |values|
    ensures Exceeds(values, slack, [Minus] + s)
      <==> Exceeds(values, slack, [Plus] + Compose(s, Repeat(Minus, |s|)))
  {
    OppositeSum([Minus] + s, values);
    assert ([Minus] + s)[1..] == s;
    assert Compose([Minus] + s, Repeat(Minus, |values|)) == [Plus] + Compose(s, Repeat(Minus, |s|));
    ExceedsBySums(values, [Minus] + s, values, [Plus] + Compose(s, Repeat(Minus, |s|)), slack);
  }

  /** Opposite sign vectors exceed together, and the observed signs always do, so the count is even
      and at least two. */
  lemma {:induction false} ExceedancesAreEven(values: seq<real>, slack: real)
    requires values != [] && slack >= 0.0
    ensures Exceedances(values, slack) == 2 * HalfCount(values, slack)
    ensures HalfCount(values, slack) >= 1
  {
    hide SignVectors, Count;
    var n, e := |values|, Exceeding(values, slack);
    var minuses := Repeat(Minus, n - 1);
    CountSplit(n, e);
    CountFlip(n - 1, minuses, After(Plus, e));
    forall s | s in SignVectors(n - 1) ensures After(Minus, e)(s) == Turned(minuses, After(Plus, e))(s) {
      InSignVectors(n - 1, s);
      OppositeExceeds(values, slack, s);
    }
    CountCongruent(SignVectors(n - 1), After(Minus, e), Turned(minuses, After(Plus, e)));
    SomeHalfExceeds(values, slack);
  }

  /** The data's own signs exceed, so the half count is positive. */
  lemma {:induction false} SomeHalfExceeds(values: seq<real>, slack: real)
    requires values != [] && slack >= 0.0
    ensures HalfCount(values, slack) >= 1
  {
    var n, e := |values|, Exceeding(values, slack);
    var pluses := Repeat(Plus, n - 1);
    InSignVectors(n - 1, pluses);
    SignedByPlus(values);
    assert After(Plus, e)(pluses);
    CountPositive(SignVectors(n - 1), After(Plus, e));
  }

  /** Negating every value leaves the count unchanged. */
  lemma {:induction false} ExceedancesOfNegated(values: seq<real>, slack: real)
    requires values != []
    ensures Exceedances(Negated(values), slack) == Exceedances(values, slack)
  {
    var n := |values|;
    SignedByPlus(values);
    SignedByPlus(Negated(values));
    OppositeSum(Repeat(Plus, n), values);
    forall s | s in SignVectors(n) ensures Exceeding(Negated(values), slack)(s) == Exceeding(values, slack)(s) {
      InSignVectors(n, s);
      OppositeSum(s, values);
      ExceedsBySums(values, s, Negated(values), s, slack);
    }
    CountCongruent(SignVectors(n), Exceeding(Negated(values), slack), Exceeding(values, slack));
  }

  // ---------------------------------------------------------------- the smallest count

  predicate SameStrictSign(values: seq<real>) {
    (forall i | 0 <= i < |values| :: values[i] > 0.0) || (forall i | 0 <= i < |values| :: values[i] < 0.0)
  }

  /** Only the all-plus and the all-minus vectors reach the full sum of positive values. */
  lemma {:induction false} PositiveBound(s: Signs, values: seq<real>)
    requires |s| == |values| && forall i | 0 <= i < |values| :: values[i] > 0.0
    ensures -Sum(values) <= SignedSum(s, values) <= Sum(values)
    ensures SignedSum(s, values) == Sum(values) ==> s == Repeat(Plus, |s|)
    ensures SignedSum(s, values) == -Sum(values) ==> s == Repeat(Minus, |s|)
  {
    if s != [] {
      PositiveBound(s[1..], values[1..]);
      assert s == [s[0]] + s[1..];
      SignedSumStep(s[0], s[1..], values);
    }
  }

  lemma {:induction false} SameSignIsStrict(values: seq<real>, s: Signs)
    requires |s| + 1 == |values| && SameStrictSign(values) && s != Repeat(Plus, |s|)
    ensures !Exceeds(values, 0.0, [Plus] + s)
  {
    var signs := [Plus] + s;
    ExceedsWithoutSlack(values, signs);
    assert signs[1..] == s;
    assert signs != Repeat(Plus, |signs|) && signs != Repeat(Minus, |signs|) by {
      assert Repeat(Plus, |signs|)[1..] == Repeat(Plus, |s|);
      assert Repeat(Minus, |signs|)[0] == Minus;
    }
    if values[0] > 0.0 {
      PositiveBound(signs, values);
    } else {
      NegatedElements(values);
      PositiveBound(signs, Negated(values));
      OppositeSum(signs, values);
      SignedByPlus(values);
      SignedByPlus(Negated(values));
      OppositeSum(Repeat(Plus, |values|), values);
    }
  }

  lemma {:induction false} NegatedElements(values: seq<real>)
    ensures forall i | 0 <= i < |values| :: Negated(values)[i] == -values[i]
  {
    if values != [] {
      NegatedElements(values[1..]);
    }
  }

  function AbsSum(values: seq<real>): (r: real)
    ensures Abs(Sum(values)) <= r
  {
    if values == [] then 0.0 else Abs(values[0]) + AbsSum(values[1..])
  }

  /** The signs that turn every value towards `side`, with zeros turned away. */
  function Aligned(side: Sign, values: seq<real>): (s: Signs)
    ensures |s| == |values|
  {
    if values == [] then []
    else [if Apply(side, values[0]) > 0.0 then Plus else Minus] + Aligned(side, values[1..])
  }

  lemma {:induction false} AlignedSum(side: Sign, values: seq<real>)
    ensures SignedSum(Aligned(side, values), values) == Apply(side, AbsSum(values))
    ensures Aligned(side, values) == Repeat(Plus, |values|) ==>
      forall i | 0 <= i < |values| :: Apply(side, values[i]) > 0.0
  {
    if values != [] {
      var rest := Aligned(side, values[1..]);
      AlignedSum(side, values[1..]);
      SignedSumStep(Aligned(side, values)[0], rest, values);
      assert Repeat(Plus, |values|)[1..] == Repeat(Plus, |values| - 1);
      assert Aligned(side, values)[1..] == rest;
    }
  }

  /** Without a common strict sign some other vector ties with or beats the observed one. */
  lemma {:induction false} MixedSignsTie(values: seq<real>) returns (s: Signs)
    requires |values| >= 2 && !SameStrictSign(values)
    ensures |s| + 1 == |values| && s != Repeat(Plus, |s|)
    ensures Exceeds(values, 0.0, [Plus] + s)
  {
    var rest := values[1..];
    assert values == [values[0]] + rest;
    if values[0] == 0.0 {
      s := Repeat(Minus, |rest|);
      assert s[0] != Repeat(Plus, |rest|)[0];
      OppositeSum(Repeat(Plus, |rest|), rest);
      SignedByPlus(rest);
      ComposedMinus(|rest|);
    } else {
      var side := if values[0] > 0.0 then Plus else Minus;
      s := Aligned(side, rest);
      AlignedSum(side, rest);
      assert AbsSum(values) == Abs(values[0]) + AbsSum(rest);
    }
    SignedSumStep(Plus, s, values);
    ExceedsWithoutSlack(values, [Plus] + s);
  }

  lemma {:induction false} ComposedMinus(n: nat)
    ensures Compose(Repeat(Plus, n), Repeat(Minus, n)) == Repeat(Minus, n)
  {
    if n > 0 {
      ComposedMinus(n - 1);
    }
  }

  function Either(s: Signs, t: Signs): Signs -> bool {
    x => x == s || x == t
  }

  /** Without slack the count is two, its least value, exactly when all values are non-zero with one
      sign, or there is a single value. */
  lemma {:induction false} SmallestExceedances(values: seq<real>)
    requires values != []
    ensures Exceedances(values, 0.0) == 2 <==> SameStrictSign(values) || |values| == 1
  {
    var m := |values| - 1;
    var pluses, half := Repeat(Plus, m), After(Plus, Exceeding(values, 0.0));
    ExceedancesAreEven(values, 0.0);
    CountOne(m, pluses);
    SignedByPlus(values);
    assert half(pluses);
    if SameStrictSign(values) || m == 0 {
      forall s | s in SignVectors(m) ensures half(s) == Only(pluses)(s) {
        InSignVectors(m, s);
        if s != pluses {
          SameSignIsStrict(values, s);
        }
      }
      CountCongruent(SignVectors(m), half, Only(pluses));
    } else {
      var s := MixedSignsTie(values);
      CountOne(m, s);
      CountDisjoint(SignVectors(m), Only(pluses), Only(s), Either(pluses, s));
      CountMonotone(SignVectors(m), Either(pluses, s), half);
    }
  }

  // ---------------------------------------------------------------- the order of the values

  /** Whether the signed sum, added to `c`, satisfies `q`. */
  function SumSatisfies(c: real, values: seq<real>, q: real -> bool): Signs -> bool {
    s => q(c + SignedSum(s, values))
  }

  /** How many sign vectors give a sum that, added to `c`, satisfies `q`. */
  function CountSums(c: real, values: seq<real>, q: real -> bool): nat {
    Count(SignVectors(|values|), SumSatisfies(c, values, q))
  }

  lemma {:induction false} CountSumsStep(c: real, x: real, values: seq<real>, q: real -> bool)
    ensures CountSums(c, [x] + values, q) == CountSums(c - x, values, q) + CountSums(c + x, values, q)
  {
    CountSplit(|values| + 1, SumSatisfies(c, [x] + values, q));
    CountSumsAfter(c, Minus, x, values, q);
    CountSumsAfter(c, Plus, x, values, q);
  }

  lemma {:induction false} CountSumsAfter(c: real, sign: Sign, x: real, values: seq<real>, q: real -> bool)
    ensures Count(SignVectors(|values|), After(sign, SumSatisfies(c, [x] + values, q)))
         == CountSums(c + Apply(sign, x), values, q)
  {
    var before, after := SumSatisfies(c, [x] + values, q), SumSatisfies(c + Apply(sign, x), values, q);
    forall s | s in SignVectors(|values|) ensures After(sign, before)(s) == after(s) {
      InSignVectors(|values|, s);
      SumSatisfiesAfter(c, sign, x, values, q, s);
    }
    CountCongruent(SignVectors(|values|), After(sign, before), after);
  }

  lemma {:induction false} SumSatisfiesAfter(c: real, sign: Sign, x: real, values: seq<real>, q: real -> bool, s: Signs)
    requires |s| == |values|
    ensures After(sign, SumSatisfies(c, [x] + values, q))(s) == SumSatisfies(c + Apply(sign, x), values, q)(s)
  {
    ShiftedSum(c, sign, x, values, s);
  }

  lemma {:induction false} ShiftedSum(c: real, sign: Sign, x: real, values: seq<real>, s: Signs)
    requires |s| == |values|
    ensures c + SignedSum([sign] + s, [x] + values) == c + Apply(sign, x) + SignedSum(s, values)
  {
    assert ([x] + values)[1..] == values;
    SignedSumStep(sign, s, [x] + values);
  }

  lemma {:induction false} CountSumsSwap(c: real, x: real, y: real, values: seq<real>, q: real -> bool)
    ensures CountSums(c, [x] + ([y] + values), q) == CountSums(c, [y] + ([x] + values), q)
  {
    CountSumsStep(c, x, [y] + values, q);
    CountSumsStep(c - x, y, values, q);
    CountSumsStep(c + x, y, values, q);
    CountSumsStep(c, y, [x] + values, q);
    CountSumsStep(c - y, x, values, q);
    CountSumsStep(c + y, x, values, q);
    assert c - x + y == c + y - x && c - x - y == c - y - x;
  }

  lemma {:induction false} SumHead(x: real, values: seq<real>)
    ensures Sum([x] + values) == x + Sum(values)
  {
    assert ([x] + values)[1..] == values;
  }

  /** Moving one value to the front does not change the signed sums. */
  lemma {:induction false} MoveToFront(c: real, values: seq<real>, i: nat, q: real -> bool)
    requires i < |values|
    ensures CountSums(c, values, q) == CountSums(c, [values[i]] + Without(values, i), q)
    decreases i
  {
    var x, y, rest := values[0], values[i], values[1..];
    assert values == [x] + rest;
    if i == 0 {
      assert Without(values, 0) == rest;
    } else {
      var others := Without(rest, i - 1);
      assert Without(values, i) == [x] + others;
      MoveToFront(c - x, rest, i - 1, q);
      MoveToFront(c + x, rest, i - 1, q);
      CountSumsStep(c, x, rest, q);
      CountSumsStep(c, x, [y] + others, q);
      CountSumsSwap(c, x, y, others, q);
    }
  }

  lemma {:induction false} CountSumsSameHead(c: real, values: seq<real>, permuted: seq<real>, i: nat, q: real -> bool)
    requires values != [] && i < |permuted| == |values| && permuted[i] == values[0]
    requires CountSums(c - values[0], values[1..], q) == CountSums(c - values[0], Without(permuted, i), q)
    requires CountSums(c + values[0], values[1..], q) == CountSums(c + values[0], Without(permuted, i), q)
    ensures CountSums(c, values, q) == CountSums(c, permuted, q)
  {
    assert values == [values[0]] + values[1..];
    CountSumsStep(c, values[0], values[1..], q);
    CountSumsStep(c, values[0], Without(permuted, i), q);
    MoveToFront(c, permuted, i, q);
  }

  lemma {:induction false} CountSumsPermuted(c: real, values: seq<real>, permuted: seq<real>, q: real -> bool)
    requires multiset(values) == multiset(permuted)
    ensures CountSums(c, values, q) == CountSums(c, permuted, q)
    decreases |values|
  {
    if values == [] {
      SameLength(values, permuted);
      assert permuted == values;
    } else {
      var i := FindHead(values, permuted);
      CountSumsPermuted(c - values[0], values[1..], Without(permuted, i), q);
      CountSumsPermuted(c + values[0], values[1..], Without(permuted, i), q);
      CountSumsSameHead(c, values, permuted, i, q);
    }
  }

  lemma {:induction false} SumWithout(values: seq<real>, i: nat)
    requires i < |values|
    ensures Sum(values) == values[i] + Sum(Without(values, i))
  {
    if i == 0 {
      assert Without(values, 0) == values[1..];
    } else {
      SumWithout(values[1..], i - 1);
      assert Without(values, i) == [values[0]] + Without(values[1..], i - 1);
      SumHead(values[0], Without(values[1..], i - 1));
    }
  }

  lemma {:induction false} SumPermuted(values: seq<real>, permuted: seq<real>)
    requires multiset(values) == multiset(permuted)
    ensures Sum(values) == Sum(permuted)
    decreases |values|
  {
    if values == [] {
      SameLength(values, permuted);
      assert permuted == values;
    } else {
      var i := FindHead(values, permuted);
      SumPermuted(values[1..], Without(permuted, i));
      SumWithout(permuted, i);
    }
  }

  /** Whether a signed sum of `n` values reaches the observed total, as `Exceeds` compares them. */
  function Reaches(total: real, n: nat, slack: real): real -> bool
    requires n > 0
  {
    x => Quotient(Abs(x), n as real) >= Quotient(Abs(total), n as real) - slack
  }

  /** Reordering the values leaves the count unchanged. */
  lemma {:induction false} ExceedancesOfPermuted(values: seq<real>, permuted: seq<real>, slack: real)
    requires values != [] && multiset(values) == multiset(permuted)
    ensures |permuted| == |values|
    ensures Exceedances(permuted, slack) == Exceedances(values, slack)
  {
    SameLength(values, permuted);
    SumPermuted(values, permuted);
    CountSumsPermuted(0.0, values, permuted, Reaches(Sum(values), |values|, slack));
    ExceedancesAreCountSums(values, slack);
    ExceedancesAreCountSums(permuted, slack);
  }

  lemma {:induction false} ExceedancesAreCountSums(values: seq<real>, slack: real)
    requires values != []
    ensures Exceedances(values, slack) == CountSums(0.0, values, Reaches(Sum(values), |values|, slack))
  {
    var q := Reaches(Sum(values), |values|, slack);
    forall s ensures Exceeding(values, slack)(s) == SumSatisfies(0.0, values, q)(s) {
      AbsMean(values);
      AbsMean(Signed(s, values));
      assert 0.0 + SignedSum(s, values) == SignedSum(s, values);
    }
    CountCongruent(SignVectors(|values|), Exceeding(values, slack), SumSatisfies(0.0, values, q));
  }
}
