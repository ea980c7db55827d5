/** Strict orders of integer sequences: counts, checkpoints and times. */
module Orders {

  predicate Increasing(s: seq<int>) {
    forall i, j | 0 <= i < j < |s| :: s[i] < s[j]
  }
}
