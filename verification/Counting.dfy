/** Counting the entries of an enumeration that satisfy a condition. */
module Counting {

  /** `sum(condition(x) for x in xs)`. */
  function Count<T>(xs: seq<T>, p: T -> bool): nat {
    if xs == [] then 0 else (if p(xs[0]) then 1 else 0) + Count(xs[1..], p)
  }

  /** The condition of being `t`. */
  function Only<T(==)>(t: T): T -> bool {
    s => s == t
  }

  lemma {:induction false} CountConcat<T>(xs: seq<T>, ys: seq<T>, p: T -> bool)
    ensures Count(xs + ys, p) == Count(xs, p) + Count(ys, p)
  {
    if xs == [] {
      assert xs + ys == ys;
    } else {
      assert (xs + ys)[1..] == xs[1..] + ys;
      CountConcat(xs[1..], ys, p);
    }
  }

  lemma {:induction false} CountMonotone<T>(xs: seq<T>, p: T -> bool, q: T -> bool)
    requires forall x | x in xs :: p(x) ==> q(x)
    ensures Count(xs, p) <= Count(xs, q)
  {
    if xs != [] {
      CountMonotone(xs[1..], p, q);
    }
  }

  lemma {:induction false} CountCongruent<T>(xs: seq<T>, p: T -> bool, q: T -> bool)
    requires forall x | x in xs :: p(x) == q(x)
    ensures Count(xs, p) == Count(xs, q)
  {
    CountMonotone(xs, p, q);
    CountMonotone(xs, q, p);
  }

  lemma {:induction false} CountPositive<T>(xs: seq<T>, p: T -> bool)
    ensures Count(xs, p) > 0 <==> exists x :: x in xs && p(x)
  {
    if xs != [] {
      CountPositive(xs[1..], p);
    }
  }

  lemma {:induction false} CountAtMostAll<T>(xs: seq<T>, p: T -> bool)
    ensures Count(xs, p) <= |xs|
  {
    if xs != [] {
      CountAtMostAll(xs[1..], p);
    }
  }

  lemma {:induction false} CountDisjoint<T>(xs: seq<T>, p: T -> bool, q: T -> bool, either: T -> bool)
    requires forall x | x in xs :: (either(x) <==> p(x) || q(x)) && !(p(x) && q(x))
    ensures Count(xs, either) == Count(xs, p) + Count(xs, q)
  {
    if xs != [] {
      CountDisjoint(xs[1..], p, q, either);
    }
  }

  /** The places of the entries that satisfy `p`. */
  function Places<T>(xs: seq<T>, p: T -> bool): set<nat> {
    set i: nat | i < |xs| && p(xs[i])
  }

  /** Counting is the size of the set of places. */
  lemma {:induction false} CountIsSize<T>(xs: seq<T>, p: T -> bool)
    ensures Count(xs, p) == |Places(xs, p)|
  {
    if xs != [] {
      var n := |xs| - 1;
      var init, last := xs[..n], xs[n];
      CountIsSize(init, p);
      assert xs == init + [last];
      CountConcat(init, [last], p);
      assert [last][1..] == [];
      assert Places(xs, p) == if p(last) then Places(init, p) + {n} else Places(init, p);
    } else {
      assert Places(xs, p) == {};
    }
  }

  /** Among the entries that satisfy `p`, one with the smallest key. */
  lemma {:induction false} SmallestKey<T>(xs: seq<T>, key: T -> real, p: T -> bool) returns (m: T)
    requires exists x :: x in xs && p(x)
    ensures m in xs && p(m)
    ensures forall x | x in xs && p(x) :: key(m) <= key(x)
  {
    if exists x :: x in xs[1..] && p(x) {
      m := SmallestKey(xs[1..], key, p);
      if p(xs[0]) && key(xs[0]) < key(m) {
        m := xs[0];
      }
    } else {
      m := xs[0];
    }
  }

  function AtLeast<T>(key: T -> real, bound: real): T -> bool {
    x => key(x) >= bound
  }

  /** How many entries have a key of at least x's key less the slack: the rank of x. */
  function Rank<T>(xs: seq<T>, key: T -> real, slack: real, x: T): nat {
    Count(xs, AtLeast(key, key(x) - slack))
  }

  function RankAtMost<T>(xs: seq<T>, key: T -> real, slack: real, level: real): T -> bool {
    x => Rank(xs, key, slack, x) as real <= level
  }

  /** However keys tie, at most `level` entries have a rank of at most `level`. */
  lemma {:induction false} RankBound<T>(xs: seq<T>, key: T -> real, slack: real, level: real)
    requires slack >= 0.0 && level >= 0.0
    ensures Count(xs, RankAtMost(xs, key, slack, level)) as real <= level
  {
    var low := RankAtMost(xs, key, slack, level);
    CountPositive(xs, low);
    if Count(xs, low) > 0 {
      var m := SmallestKey(xs, key, low);
      CountMonotone(xs, low, AtLeast(key, key(m) - slack));
    }
  }
}
