/** Python's `sorted` on reals, and linear percentiles of a sorted sequence. */
module Sorting {
  import opened Counting
  import opened FiniteSets
  import opened Reals
  import opened Permutations

  function Insert(x: real, s: seq<real>): seq<real> {
    if s == [] || x <= s[0] then [x] + s else [s[0]] + Insert(x, s[1..])
  }

  lemma {:induction false} InsertKeepsOrder(x: real, s: seq<real>)
    requires NonDecreasing(s)
    ensures NonDecreasing(Insert(x, s))
    ensures Insert(x, s) != [] && (Insert(x, s)[0] == x || (s != [] && Insert(x, s)[0] == s[0]))
  {
    if s != [] && x > s[0] {
      InsertKeepsOrder(x, s[1..]);
    }
  }

  lemma {:induction false} InsertKeepsValues(x: real, s: seq<real>)
    ensures multiset(Insert(x, s)) == multiset(s) + multiset{x}
  {
    if s != [] && x > s[0] {
      InsertKeepsValues(x, s[1..]);
      assert s == [s[0]] + s[1..];
    }
  }

  /** Python's `sorted`. */
  function Sorted(s: seq<real>): (r: seq<real>)
    ensures NonDecreasing(r) && multiset(r) == multiset(s) && |r| == |s|
  {
    if s == [] then []
    else
      InsertKeepsOrder(s[0], Sorted(s[1..]));
      InsertKeepsValues(s[0], Sorted(s[1..]));
      var r := Insert(s[0], Sorted(s[1..]));
      HeadAndTail(s);
      SameLength(s, r);
      r
  }

  lemma {:induction false} HeadAndTail(s: seq<real>)
    requires s != []
    ensures multiset(s[1..]) == multiset(s) - multiset{s[0]}
  {
    assert s == [s[0]] + s[1..];
  }

  lemma {:induction false} HeadIsSmallest(s: seq<real>, x: real)
    requires NonDecreasing(s) && x in multiset(s)
    ensures s != [] && s[0] <= x
  {
    var i :| 0 <= i < |s| && s[i] == x;
  }

  lemma {:induction false} SameHead(s: seq<real>, t: seq<real>)
    requires NonDecreasing(s) && NonDecreasing(t) && multiset(s) == multiset(t) && s != [] && t != []
    ensures s[0] == t[0] && multiset(s[1..]) == multiset(t[1..])
  {
    HeadAndTail(s);
    HeadAndTail(t);
    assert t[0] in multiset(t) && s[0] in multiset(s);
    HeadIsSmallest(s, t[0]);
    HeadIsSmallest(t, s[0]);
  }

  /** A multiset of reals has one non-decreasing arrangement. */
  lemma {:induction false} SortedIsUnique(s: seq<real>, t: seq<real>)
    requires NonDecreasing(s) && NonDecreasing(t) && multiset(s) == multiset(t)
    ensures s == t
  {
    SameLength(s, t);
    if s != [] {
      SameHead(s, t);
      SortedIsUnique(s[1..], t[1..]);
    }
  }

  // ---------------------------------------------------------------- percentiles

  function Ceiling(x: real): int {
    -((-x).Floor)
  }

  /** The weighted mean of two neighbours. */
  function Mix(x: real, y: real, weight: real): real {
    Product(x, 1.0 - weight) + Product(y, weight)
  }

  lemma {:induction false} MixReversed(x: real, y: real, weight: real)
    ensures Mix(x, y, weight) == Mix(y, x, 1.0 - weight)
  {
    assert 1.0 - (1.0 - weight) == weight;
  }

  /** The value at a fractional position, interpolated between its neighbours. */
  function At(s: seq<real>, position: real): real
    requires 0.0 <= position <= (|s| - 1) as real
  {
    var lower, upper := position.Floor, Ceiling(position);
    if lower == upper then s[lower]
    else
      Mix(s[lower], s[upper], position - lower as real)
  }

  /** `_linear_percentile`. */
  function LinearPercentile(sorted: seq<real>, probability: real): real
    requires sorted != [] && 0.0 <= probability <= 1.0
  {
    PositionInRange(|sorted|, probability);
    At(sorted, Product((|sorted| - 1) as real, probability))
  }

  lemma {:induction false} PositionInRange(n: nat, probability: real)
    requires n > 0 && 0.0 <= probability <= 1.0
    ensures 0.0 <= Product((n - 1) as real, probability) <= (n - 1) as real
  {
    ProductNonNegative((n - 1) as real, probability);
    ProductMonotone((n - 1) as real, probability, 1.0);
  }

  /** Interpolation stays between the neighbours and grows with the weight. */
  lemma {:induction false} Interpolated(x: real, y: real, v: real, w: real)
    requires x <= y && 0.0 <= v <= w <= 1.0
    ensures x <= Mix(x, y, v) <= Mix(x, y, w) <= y
  {
    InterpolatedForm(x, y, v);
    InterpolatedForm(x, y, w);
    ProductMonotone(y - x, 0.0, v);
    ProductMonotone(y - x, v, w);
    ProductMonotone(y - x, w, 1.0);
    ProductUnits(y - x);
  }

  lemma {:induction false} InterpolatedForm(x: real, y: real, v: real)
    ensures Mix(x, y, v) == x + Product(y - x, v)
  {
  }

  lemma {:induction false} AtWhole(s: seq<real>, position: real, k: int)
    requires 0 <= k < |s| && position == k as real
    ensures At(s, position) == s[k]
  {
  }

  lemma {:induction false} AtMixed(s: seq<real>, position: real, k: int, weight: real)
    requires 0 <= k < |s| - 1 && position == k as real + weight && 0.0 < weight < 1.0
    ensures At(s, position) == Mix(s[k], s[k + 1], weight)
  {
    assert position.Floor == k && Ceiling(position) == k + 1;
  }

  lemma {:induction false} AtBetween(s: seq<real>, position: real)
    requires NonDecreasing(s) && 0.0 <= position <= (|s| - 1) as real
    ensures 0 <= position.Floor <= Ceiling(position) < |s|
    ensures s[position.Floor] <= At(s, position) <= s[Ceiling(position)]
  {
    var lower, upper := position.Floor, Ceiling(position);
    if lower != upper {
      var weight := position - lower as real;
      Interpolated(s[lower], s[upper], weight, weight);
    }
  }

  /** A higher probability never gives a lower percentile. */
  lemma {:induction false} PercentileIsMonotone(s: seq<real>, p: real, q: real)
    requires s != [] && NonDecreasing(s) && 0.0 <= p <= q <= 1.0
    ensures s[0] <= LinearPercentile(s, p) <= LinearPercentile(s, q) <= s[|s| - 1]
  {
    PositionInRange(|s|, p);
    PositionInRange(|s|, q);
    var m := (|s| - 1) as real;
    ProductMonotone(m, p, q);
    AtIsMonotone(s, Product(m, p), Product(m, q));
    AtBetween(s, Product(m, p));
    AtBetween(s, Product(m, q));
  }

  lemma {:induction false} AtIsMonotone(s: seq<real>, x: real, y: real)
    requires NonDecreasing(s) && 0.0 <= x <= y <= (|s| - 1) as real
    ensures At(s, x) <= At(s, y)
  {
    AtBetween(s, x);
    AtBetween(s, y);
    var k := x.Floor;
    if k < y.Floor {
      assert Ceiling(x) <= y.Floor;
    } else if x != k as real {
      AtMixed(s, x, k, x - k as real);
      AtMixed(s, y, k, y - k as real);
      Interpolated(s[k], s[k + 1], x - k as real, y - k as real);
    }
  }

  /** The percentile at the fraction (k + w)/(n - 1) lies between the values at places k and k + 1, and
      moves linearly from one to the other. */
  lemma {:induction false} PercentileInterpolates(s: seq<real>, p: real, k: nat, w: real)
    requires 0.0 <= p <= 1.0 && k + 1 < |s| && 0.0 <= w <= 1.0
    requires Product((|s| - 1) as real, p) == k as real + w
    ensures LinearPercentile(s, p) == s[k] + Product(w, s[k + 1] - s[k])
  {
    PositionInRange(|s|, p);
    var position := Product((|s| - 1) as real, p);
    ProductUnits(s[k + 1] - s[k]);
    if w == 0.0 {
      AtWhole(s, position, k);
    } else if w == 1.0 {
      AtWhole(s, position, k + 1);
    } else {
      AtMixed(s, position, k, w);
      InterpolatedForm(s[k], s[k + 1], w);
      ProductCommutes(s[k + 1] - s[k], w);
    }
  }

  /** The percentile of a single value is that value. */
  lemma {:induction false} PercentileOfOne(s: seq<real>, p: real)
    requires |s| == 1 && 0.0 <= p <= 1.0
    ensures LinearPercentile(s, p) == s[0]
  {
    ProductUnits(p);
    PositionInRange(1, p);
    AtWhole(s, Product(0.0, p), 0);
  }

  function Less(q: real): real -> bool {
    x => x < q
  }

  function NoMore(q: real): real -> bool {
    x => x <= q
  }

  /** How many values lie below a percentile, and how many at most there. */
  lemma {:induction false} PercentileRanks(s: seq<real>, p: real)
    requires s != [] && NonDecreasing(s) && 0.0 <= p <= 1.0
    ensures var position, q := Product((|s| - 1) as real, p), LinearPercentile(s, p);
      Count(s, Less(q)) <= Ceiling(position) && Count(s, NoMore(q)) >= position.Floor + 1
  {
    hide At, Product;
    PositionInRange(|s|, p);
    var position := Product((|s| - 1) as real, p);
    AtBetween(s, position);
    RanksBetween(s, position.Floor, Ceiling(position), At(s, position));
  }

  lemma {:induction false} RanksBetween(s: seq<real>, lower: nat, upper: nat, q: real)
    requires NonDecreasing(s) && lower <= upper < |s| && s[lower] <= q <= s[upper]
    ensures Count(s, Less(q)) <= upper && Count(s, NoMore(q)) >= lower + 1
  {
    hide Count;
    CountIsSize(s, Less(q));
    CountIsSize(s, NoMore(q));
    assert Places(s, Less(q)) <= FirstNats(upper);
    SubsetSize(Places(s, Less(q)), FirstNats(upper));
    assert FirstNats(lower + 1) <= Places(s, NoMore(q));
    SubsetSize(FirstNats(lower + 1), Places(s, NoMore(q)));
  }

  lemma {:induction false} CountPermuted(s: seq<real>, t: seq<real>, p: real -> bool)
    requires multiset(s) == multiset(t)
    ensures Count(s, p) == Count(t, p)
  {
    SameLength(s, t);
    if s != [] {
      var i := FindHead(s, t);
      CountPermuted(s[1..], Without(t, i), p);
      assert t == t[..i] + ([t[i]] + t[i + 1..]);
      CountConcat(t[..i], [t[i]] + t[i + 1..], p);
      CountConcat([t[i]], t[i + 1..], p);
      CountConcat(t[..i], t[i + 1..], p);
      assert [t[i]][1..] == [];
    }
  }

  // ---------------------------------------------------------------- affine changes

  /** Scaling by `a` and shifting by `b`. */
  function AffineOf(a: real, b: real): real -> real {
    x => Product(a, x) + b
  }

  function Affine(a: real, b: real, s: seq<real>): seq<real> {
    Map(AffineOf(a, b), s)
  }

  function Reversed(s: seq<real>): (r: seq<real>)
    ensures |r| == |s| && forall i | 0 <= i < |s| :: r[i] == s[|s| - 1 - i]
    ensures multiset(r) == multiset(s)
  {
    if s == [] then []
    else
      assert s == [s[0]] + s[1..];
      Reversed(s[1..]) + [s[0]]
  }

  lemma {:induction false} AtAffine(a: real, b: real, s: seq<real>, position: real)
    requires 0.0 <= position <= (|s| - 1) as real
    ensures At(Affine(a, b, s), position) == Product(a, At(s, position)) + b
  {
    hide Product, Mix;
    var lower, upper := position.Floor, Ceiling(position);
    if lower != upper {
      AffineInterpolated(a, b, s[lower], s[upper], position - lower as real);
    }
  }

  lemma {:induction false} AffineInterpolated(a: real, b: real, x: real, y: real, w: real)
    ensures Mix(Product(a, x) + b, Product(a, y) + b, w) == Product(a, Mix(x, y, w)) + b
  {
  }

  lemma {:induction false} AtReversed(s: seq<real>, position: real, mirrored: real)
    requires 0.0 <= position <= (|s| - 1) as real
    requires mirrored == (|s| - 1) as real - position
    ensures At(Reversed(s), position) == At(s, mirrored)
  {
    hide At, Product, Reversed;
    var k := position.Floor;
    var weight := position - k as real;
    if weight == 0.0 {
      AtWhole(Reversed(s), position, k);
      AtWhole(s, mirrored, |s| - 1 - k);
    } else {
      MixedReversed(s, k, weight, position, mirrored);
    }
  }

  /** Between two places, the reversed sequence mixes the same two values with exchanged weights. */
  lemma {:induction false} MixedReversed(s: seq<real>, k: nat, weight: real, position: real, mirrored: real)
    requires k < |s| - 1 && 0.0 < weight < 1.0
    requires position == k as real + weight && mirrored == (|s| - 2 - k) as real + (1.0 - weight)
    ensures At(Reversed(s), position) == At(s, mirrored)
  {
    hide At, Mix, Reversed;
    var r := Reversed(s);
    AtMixed(r, position, k, weight);
    AtMixed(s, mirrored, |s| - 2 - k, 1.0 - weight);
    assert r[k] == s[|s| - 1 - k] && r[k + 1] == s[|s| - 2 - k];
    MixReversed(r[k], r[k + 1], weight);
  }

  lemma {:induction false} PercentileAffine(a: real, b: real, s: seq<real>, p: real)
    requires s != [] && 0.0 <= p <= 1.0
    ensures LinearPercentile(Affine(a, b, s), p) == Product(a, LinearPercentile(s, p)) + b
  {
    PositionInRange(|s|, p);
    AtAffine(a, b, s, Product((|s| - 1) as real, p));
  }

  lemma {:induction false} PercentileReversed(s: seq<real>, p: real)
    requires s != [] && 0.0 <= p <= 1.0
    ensures LinearPercentile(Reversed(s), p) == LinearPercentile(s, 1.0 - p)
  {
    PositionInRange(|s|, p);
    var m := (|s| - 1) as real;
    assert Product(m, 1.0 - p) == m - Product(m, p);
    AtReversed(s, Product(m, p), Product(m, 1.0 - p));
  }

  lemma {:induction false} MapInsert(f: real -> real, x: real, s: seq<real>)
    ensures multiset(Map(f, Insert(x, s))) == multiset(Map(f, s)) + multiset{f(x)}
  {
    if s == [] || x <= s[0] {
      MapHead(f, x, s);
    } else {
      var rest := Insert(x, s[1..]);
      assert Insert(x, s) == [s[0]] + rest && s == [s[0]] + s[1..];
      hide Map, Insert;
      MapInsert(f, x, s[1..]);
      MapHead(f, s[0], rest);
      MapHead(f, s[0], s[1..]);
    }
  }

  lemma {:induction false} MapHead(f: real -> real, x: real, s: seq<real>)
    ensures multiset(Map(f, [x] + s)) == multiset(Map(f, s)) + multiset{f(x)}
  {
    assert ([x] + s)[1..] == s;
    assert Map(f, [x] + s) == [f(x)] + Map(f, s);
  }

  lemma {:induction false} MapSorted(f: real -> real, s: seq<real>)
    ensures multiset(Map(f, Sorted(s))) == multiset(Map(f, s))
  {
    if s != [] {
      MapSorted(f, s[1..]);
      hide Map, Insert;
      MapInsert(f, s[0], Sorted(s[1..]));
      MapHead(f, s[0], s[1..]);
      assert s == [s[0]] + s[1..];
    }
  }

  /** Sorting commutes with an affine change, up to a reversal when the slope is negative. */
  lemma {:induction false} SortedAffine(a: real, b: real, s: seq<real>)
    ensures Sorted(Affine(a, b, s))
         == if a >= 0.0 then Affine(a, b, Sorted(s)) else Reversed(Affine(a, b, Sorted(s)))
  {
    var image := Affine(a, b, Sorted(s));
    MapSorted(AffineOf(a, b), s);
    AffineMonotone(a, b, Sorted(s));
    SortedIsUnique(Sorted(Affine(a, b, s)), if a >= 0.0 then image else Reversed(image));
  }

  lemma {:induction false} AffineMonotone(a: real, b: real, s: seq<real>)
    requires NonDecreasing(s)
    ensures a >= 0.0 ==> NonDecreasing(Affine(a, b, s))
    ensures a < 0.0 ==> NonDecreasing(Reversed(Affine(a, b, s)))
  {
    forall i, j | 0 <= i < j < |s|
      ensures a >= 0.0 ==> AffineOf(a, b)(s[i]) <= AffineOf(a, b)(s[j])
      ensures a < 0.0 ==> AffineOf(a, b)(s[i]) >= AffineOf(a, b)(s[j])
    {
      AffineOrder(a, s[i], s[j]);
    }
  }

  lemma {:induction false} AffineOrder(a: real, x: real, y: real)
    requires x <= y
    ensures a >= 0.0 ==> Product(a, x) <= Product(a, y)
    ensures a < 0.0 ==> Product(a, x) >= Product(a, y)
  {
    if a >= 0.0 {
      ProductMonotone(a, x, y);
    } else {
      ProductMonotone(-a, x, y);
      ProductNegated(a, x);
      ProductNegated(a, y);
    }
  }

  // ---------------------------------------------------------------- larger values

  predicate Below(s: seq<real>, t: seq<real>) {
    |s| == |t| && forall i | 0 <= i < |s| :: s[i] <= t[i]
  }

  lemma {:induction false} BelowTail(s: seq<real>, t: seq<real>)
    requires Below(s, t) && s != []
    ensures s[0] <= t[0] && Below(s[1..], t[1..])
  {
  }

  lemma {:induction false} BelowCons(x: real, s: seq<real>, y: real, t: seq<real>)
    requires x <= y && Below(s, t)
    ensures Below([x] + s, [y] + t)
  {
  }

  lemma {:induction false} SortedTail(s: seq<real>)
    requires NonDecreasing(s) && s != []
    ensures NonDecreasing(s[1..]) && (|s| > 1 ==> s[0] <= s[1..][0])
    ensures s == [s[0]] + s[1..] && Insert(s[0], s[1..]) == s
  {
  }

  /** Inserting a value that is no smaller than the head is no worse than keeping the head. */
  lemma {:induction false} InsertAbove(y: real, t: seq<real>)
    requires NonDecreasing(t) && t != [] && y >= t[0]
    ensures Below(t, Insert(y, t[1..]))
  {
    var rest := t[1..];
    SortedTail(t);
    if rest != [] && y > rest[0] {
      InsertAbove(y, rest);
      BelowCons(t[0], rest, rest[0], Insert(y, rest[1..]));
    }
  }

  lemma {:induction false} InsertMonotone(x: real, s: seq<real>, y: real, t: seq<real>)
    requires x <= y && NonDecreasing(s) && NonDecreasing(t) && Below(s, t)
    ensures Below(Insert(x, s), Insert(y, t))
  {
    if s != [] {
      hide NonDecreasing, Below;
      BelowTail(s, t);
      SortedTail(s);
      SortedTail(t);
      if x <= s[0] {
        if y > t[0] {
          InsertAbove(y, t);
          BelowTrans(s, t, Insert(y, t[1..]));
          BelowCons(x, s, t[0], Insert(y, t[1..]));
        } else {
          BelowCons(x, s, y, t);
        }
      } else if y > t[0] {
        InsertMonotone(x, s[1..], y, t[1..]);
        BelowCons(s[0], Insert(x, s[1..]), t[0], Insert(y, t[1..]));
      } else {
        InsertMonotone(x, s[1..], t[0], t[1..]);
        BelowCons(s[0], Insert(x, s[1..]), y, t);
      }
    } else {
      BelowCons(x, s, y, t);
    }
  }

  lemma {:induction false} BelowTrans(s: seq<real>, t: seq<real>, u: seq<real>)
    requires Below(s, t) && Below(t, u)
    ensures Below(s, u)
  {
  }

  /** Raising values raises every order statistic. */
  lemma {:induction false} SortedMonotone(s: seq<real>, t: seq<real>)
    requires Below(s, t)
    ensures Below(Sorted(s), Sorted(t))
  {
    if s != [] {
      hide Insert;
      SortedMonotone(s[1..], t[1..]);
      InsertMonotone(s[0], Sorted(s[1..]), t[0], Sorted(t[1..]));
    }
  }

  lemma {:induction false} MixMonotone(a: real, b: real, c: real, d: real, w: real)
    requires a <= c && b <= d && 0.0 <= w <= 1.0
    ensures Mix(a, b, w) <= Mix(c, d, w)
  {
    hide Product;
    ProductOrder(a, c, 1.0 - w);
    ProductOrder(b, d, w);
  }

  /** Raising values never lowers a percentile. */
  lemma {:induction false} PercentileOfLarger(s: seq<real>, t: seq<real>, p: real)
    requires s != [] && Below(s, t) && 0.0 <= p <= 1.0
    ensures LinearPercentile(s, p) <= LinearPercentile(t, p)
  {
    PositionInRange(|s|, p);
    AtOfLarger(s, t, Product((|s| - 1) as real, p));
  }

  lemma {:induction false} AtOfLarger(s: seq<real>, t: seq<real>, position: real)
    requires Below(s, t) && 0.0 <= position <= (|s| - 1) as real
    ensures At(s, position) <= At(t, position)
  {
    hide Mix;
    var lower, upper := position.Floor, Ceiling(position);
    if lower != upper {
      MixMonotone(s[lower], s[upper], t[lower], t[upper], position - lower as real);
    }
  }
}
