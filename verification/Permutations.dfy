/** Two orders of the same values. */
module Permutations {

  function Without<T>(xs: seq<T>, i: nat): seq<T>
    requires i < |xs|
  {
    xs[..i] + xs[i + 1..]
  }

  lemma {:induction false} WithoutOne<T>(xs: seq<T>, i: nat)
    requires i < |xs|
    ensures multiset(xs) == multiset{xs[i]} + multiset(Without(xs, i))
    ensures multiset(Without(xs, i)) == multiset(xs) - multiset{xs[i]}
  {
    assert xs == xs[..i] + ([xs[i]] + xs[i + 1..]);
  }

  /** Where the head of one order sits in another. */
  lemma {:induction false} FindHead<T>(xs: seq<T>, permuted: seq<T>) returns (i: nat)
    requires xs != [] && multiset(xs) == multiset(permuted)
    ensures i < |permuted| == |xs| && permuted[i] == xs[0]
    ensures multiset(xs[1..]) == multiset(Without(permuted, i))
  {
    assert xs[0] in multiset(permuted);
    i :| 0 <= i < |permuted| && permuted[i] == xs[0];
    SameLength(xs, permuted);
    WithoutOne(xs, 0);
    WithoutOne(permuted, i);
    assert Without(xs, 0) == xs[1..];
  }

  lemma {:induction false} SameLength<T>(xs: seq<T>, permuted: seq<T>)
    requires multiset(xs) == multiset(permuted)
    ensures |xs| == |permuted|
  {
    assert |xs| == |multiset(xs)| == |multiset(permuted)| == |permuted|;
  }
}
