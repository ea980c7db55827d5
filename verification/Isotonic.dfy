/** Non-increasing isotonic regression by pool-adjacent-violators (`_decreasing_isotonic`). */
module Isotonic {
  import opened Reals

  type Weight = w: int | 0 < w witness 1

  /** A stack entry: the pooled mean of `weight` consecutive inputs. */
  datatype Block = Block(value: real, weight: Weight)

  /** The two top entries, pooled into their weighted mean. */
  function Merge(left: Block, right: Block): Block {
    var weight: Weight := left.weight + right.weight;
    Block((left.value * left.weight as real + right.value * right.weight as real) / weight as real, weight)
  }

  /** The inner loop: merge while the top block exceeds the one below it. */
  function Collapse(blocks: seq<Block>): seq<Block>
    decreases |blocks|
  {
    var n := |blocks|;
    if n >= 2 && blocks[n - 2].value < blocks[n - 1].value then
      Collapse(blocks[..n - 2] + [Merge(blocks[n - 2], blocks[n - 1])])
    else
      blocks
  }

  /** The stack once every value has been pushed. */
  function Pooled(values: seq<real>): seq<Block> {
    if values == [] then []
    else Collapse(Pooled(values[..|values| - 1]) + [Block(values[|values| - 1], 1)])
  }

  /** Every block repeated to its weight. */
  function Expand(blocks: seq<Block>): seq<real> {
    if blocks == [] then []
    else Expand(blocks[..|blocks| - 1]) + Repeat(blocks[|blocks| - 1].value, blocks[|blocks| - 1].weight)
  }

  function Fit(values: seq<real>): seq<real> {
    Expand(Pooled(values))
  }

  // ---------------------------------------------------------------- the loop

  /** The source's nested loops over one mutable stack. `merges` counts the pooling steps. */
  method DecreasingIsotonic(values: seq<real>) returns (result: seq<real>, ghost merges: nat)
    ensures result == Fit(values)
    ensures IsFit(values, result)
    ensures forall i | 0 <= i < |values| :: result[i] == MinMaxMean(values, i)
    ensures values != [] ==> merges < |values|
  {
    hide IsFit;
    var blocks: seq<Block> := [];
    merges := 0;
    for i := 0 to |values|
      invariant blocks == Pooled(values[..i])
      invariant merges + |blocks| == i
      invariant i > 0 ==> blocks != []
    {
      blocks := blocks + [Block(values[i], 1)];
      assert values[..i + 1][..i] == values[..i];
      while |blocks| >= 2 && blocks[|blocks| - 2].value < blocks[|blocks| - 1].value
        invariant Collapse(blocks) == Pooled(values[..i + 1])
        invariant merges + |blocks| == i + 1
        invariant blocks != []
        decreases |blocks|
      {
        ghost var before := blocks;
        var right := blocks[|blocks| - 1];
        blocks := blocks[..|blocks| - 1];
        var left := blocks[|blocks| - 1];
        blocks := blocks[..|blocks| - 1];
        blocks := blocks + [Merge(left, right)];
        assert blocks == before[..|before| - 2] + [Merge(before[|before| - 2], before[|before| - 1])];
        merges := merges + 1;
      }
    }
    assert values[..|values|] == values;
    result := [];
    for i := 0 to |blocks|
      invariant result == Expand(blocks[..i])
    {
      assert blocks[..i + 1][..i] == blocks[..i];
      result := result + Repeat(blocks[i].value, blocks[i].weight);
    }
    assert blocks[..|blocks|] == blocks;
    FitIsFit(values);
    FitHasMinMaxForm(values);
  }

  // ---------------------------------------------------------------- what a fit is

  /** The optimality conditions: the prefix sums of `fit` are the least concave majorant of the
      prefix sums of `values`. They never lie below them, agree at the end, and agree wherever
      the fit drops. */
  ghost predicate IsFit(values: seq<real>, fit: seq<real>) {
    var n := |values|;
    && |fit| == n
    && NonIncreasing(fit)
    && (forall k | 0 <= k <= n :: PrefixSum(values, k) <= PrefixSum(fit, k))
    && PrefixSum(values, n) == PrefixSum(fit, n)
    && (forall k | 0 < k < n && fit[k - 1] > fit[k] :: PrefixSum(values, k) == PrefixSum(fit, k))
  }

  /** One block against the inputs it pools: its value is their mean, and no proper prefix of
      them sums to more than that mean would give. */
  ghost predicate Level(block: Block, segment: seq<real>) {
    && |segment| == block.weight
    && PrefixSum(segment, block.weight) == Times(block.value, block.weight)
    && forall j | 0 <= j <= |segment| :: PrefixSum(segment, j) <= Times(block.value, j)
  }

  /** The stack partitions the inputs into levels. */
  ghost predicate Describes(blocks: seq<Block>, values: seq<real>)
    decreases |blocks|
  {
    if blocks == [] then values == []
    else
      var top := blocks[|blocks| - 1];
      && top.weight <= |values|
      && Level(top, values[|values| - top.weight..])
      && Describes(blocks[..|blocks| - 1], values[..|values| - top.weight])
  }

  ghost predicate Descending(blocks: seq<Block>) {
    forall i, j | 0 <= i < j < |blocks| :: blocks[i].value >= blocks[j].value
  }

  /** The merged mean lies between the two pooled means and keeps their total. */
  lemma {:induction false} MergeBetween(left: Block, right: Block)
    requires left.value < right.value
    ensures var m := Merge(left, right);
      && left.value <= m.value <= right.value
      && Times(m.value, m.weight) == Times(left.value, left.weight) + Times(right.value, right.weight)
  {
    var m, l, r := Merge(left, right), left.weight as real, right.weight as real;
    var total := left.value * l + right.value * r;
    MultiplyMonotone(left.value, right.value, r);
    MultiplyMonotone(left.value, right.value, l);
    DivideBounds(total, l + r, left.value);
    DivideBounds(total, l + r, right.value);
    TimesIsProduct(left.value, left.weight);
    TimesIsProduct(right.value, right.weight);
    TimesIsProduct(m.value, m.weight);
  }

  lemma {:induction false} TimesSplit(x: real, m: nat, n: nat)
    ensures Times(x, m + n) == Times(x, m) + Times(x, n)
  {
    if n > 0 {
      TimesSplit(x, m, n - 1);
    }
  }

  lemma {:induction false} MergeKeepsLevel(left: Block, right: Block, s: seq<real>, t: seq<real>)
    requires left.value < right.value
    requires Level(left, s) && Level(right, t)
    ensures Level(Merge(left, right), s + t)
  {
    var m := Merge(left, right);
    MergeBetween(left, right);
    PrefixSumConcat(s, t, |t|);
    forall j | 0 <= j <= |s + t| ensures PrefixSum(s + t, j) <= Times(m.value, j) {
      if j <= |s| {
        PrefixSumLocal(s + t, s, j);
        TimesMonotone(left.value, m.value, j);
      } else {
        var k := j - |s|;
        PrefixSumConcat(s, t, k);
        // What is missing of `t` has a mean of at least the merged one.
        TimesSplit(right.value, k, |t| - k);
        TimesSplit(m.value, j, |t| - k);
        TimesMonotone(m.value, right.value, |t| - k);
      }
    }
  }

  lemma {:induction false} CollapseKeeps(blocks: seq<Block>, values: seq<real>)
    requires blocks != []
    requires Describes(blocks, values) && Descending(blocks[..|blocks| - 1])
    ensures Describes(Collapse(blocks), values) && Descending(Collapse(blocks))
    decreases |blocks|
  {
    var n := |blocks|;
    if n >= 2 && blocks[n - 2].value < blocks[n - 1].value {
      var left, right := blocks[n - 2], blocks[n - 1];
      var rest := blocks[..n - 2];
      var next := rest + [Merge(left, right)];
      var cut := |values| - right.weight;
      var low := cut - left.weight;
      hide Level, Merge, Times, PrefixSum;
      assert blocks[..n - 1][..n - 2] == rest;
      assert values[..cut][low..] + values[cut..] == values[low..];
      assert values[..cut][..low] == values[..low];
      MergeKeepsLevel(left, right, values[..cut][low..], values[cut..]);
      assert next[..n - 2] == rest;
      CollapseKeeps(next, values);
    }
  }

  lemma {:induction false} SingletonLevel(value: real)
    ensures Level(Block(value, 1), [value])
  {
    assert Times(value, 1) == value + Times(value, 0);
    assert PrefixSum([value], 1) == PrefixSum([value], 0) + value;
  }

  /** Every push leaves a partition into levels with non-increasing means. */
  lemma {:induction false} PooledDescribes(values: seq<real>)
    ensures Describes(Pooled(values), values) && Descending(Pooled(values))
  {
    if values != [] {
      var n := |values|;
      var before := Pooled(values[..n - 1]);
      var pushed := before + [Block(values[n - 1], 1)];
      hide Describes, Descending, Collapse;
      PooledDescribes(values[..n - 1]);
      PushDescribes(before, values);
      assert pushed[..|pushed| - 1] == before;
      CollapseKeeps(pushed, values);
    }
  }

  /** A pushed value is a level of its own. */
  lemma {:induction false} PushDescribes(before: seq<Block>, values: seq<real>)
    requires values != [] && Describes(before, values[..|values| - 1])
    ensures Describes(before + [Block(values[|values| - 1], 1)], values)
  {
    hide Level;
    var n := |values|;
    var pushed := before + [Block(values[n - 1], 1)];
    assert pushed[..|pushed| - 1] == before;
    assert values[n - 1..] == [values[n - 1]];
    SingletonLevel(values[n - 1]);
  }

  /** A partition into descending levels expands to a fit. */
  lemma {:induction false} ExpandIsFit(blocks: seq<Block>, values: seq<real>)
    requires Describes(blocks, values) && Descending(blocks)
    ensures IsFit(values, Expand(blocks))
    ensures blocks != [] ==> values != [] && Expand(blocks)[|values| - 1] == blocks[|blocks| - 1].value
    decreases |blocks|
  {
    if blocks != [] {
      var top := blocks[|blocks| - 1];
      var rest := blocks[..|blocks| - 1];
      var cut := |values| - top.weight;
      ExpandIsFit(rest, values[..cut]);
      AppendLevel(values[..cut], Expand(rest), top, values[cut..]);
      assert values[..cut] + values[cut..] == values;
    }
  }

  lemma {:induction false} AppendLevel(values: seq<real>, fit: seq<real>, top: Block, segment: seq<real>)
    requires IsFit(values, fit) && Level(top, segment)
    requires fit != [] ==> fit[|fit| - 1] >= top.value
    ensures IsFit(values + segment, fit + Repeat(top.value, top.weight))
  {
    var flat := Repeat(top.value, top.weight);
    var v, f := values + segment, fit + flat;
    forall k | 0 <= k <= |v|
      ensures PrefixSum(v, k) <= PrefixSum(f, k)
      ensures k == |v| || (0 < k < |v| && f[k - 1] > f[k]) ==> PrefixSum(v, k) == PrefixSum(f, k)
    {
      if k <= |values| {
        PrefixSumLocal(v, values, k);
        PrefixSumLocal(f, fit, k);
      } else {
        AppendedPart(values, fit, top, segment, k - |values|);
      }
    }
  }

  /** Within the appended level the prefix sums of the data stay below, and meet at its end. */
  lemma {:induction false} AppendedPart(values: seq<real>, fit: seq<real>, top: Block, segment: seq<real>, j: nat)
    requires IsFit(values, fit) && Level(top, segment) && j <= |segment|
    ensures var v, f := values + segment, fit + Repeat(top.value, top.weight);
      && PrefixSum(v, |values| + j) <= PrefixSum(f, |values| + j)
      && (j == |segment| ==> PrefixSum(v, |values| + j) == PrefixSum(f, |values| + j))
  {
    hide PrefixSum;
    PrefixSumConcat(values, segment, j);
    PrefixSumConcat(fit, Repeat(top.value, top.weight), j);
    PrefixSumRepeat(top.value, top.weight, j);
  }

  lemma {:induction false} FitIsFit(values: seq<real>)
    ensures IsFit(values, Fit(values))
  {
    PooledDescribes(values);
    ExpandIsFit(Pooled(values), values);
  }

  // ---------------------------------------------------------------- least squares

  /** The squared distance over the first `k` places. */
  function PrefixDistance(s: seq<real>, t: seq<real>, k: nat): real
    requires |s| == |t| && k <= |s|
  {
    if k == 0 then 0.0 else PrefixDistance(s, t, k - 1) + Product(s[k - 1] - t[k - 1], s[k - 1] - t[k - 1])
  }

  function SquaredDistance(s: seq<real>, t: seq<real>): real
    requires |s| == |t|
  {
    PrefixDistance(s, t, |s|)
  }

  /** The inner product of the residual `values - fit` with `fit - g` over the first `k` places. */
  function Cross(values: seq<real>, fit: seq<real>, g: seq<real>, k: nat): real
    requires |values| == |fit| == |g| && k <= |values|
  {
    if k == 0 then 0.0
    else Cross(values, fit, g, k - 1) + Product(values[k - 1] - fit[k - 1], fit[k - 1] - g[k - 1])
  }

  lemma {:induction false} DistanceByCross(values: seq<real>, fit: seq<real>, g: seq<real>, k: nat)
    requires |values| == |fit| == |g| && k <= |values|
    ensures PrefixDistance(values, g, k)
         == PrefixDistance(values, fit, k) + PrefixDistance(fit, g, k) + 2.0 * Cross(values, fit, g, k)
  {
    if k > 0 {
      DistanceByCross(values, fit, g, k - 1);
      SquareOfSum(values[k - 1], fit[k - 1], g[k - 1]);
    }
  }

  lemma {:induction false} SquareOfSum(v: real, f: real, g: real)
    ensures Product(v - g, v - g) == Product(v - f, v - f) + Product(f - g, f - g) + 2.0 * Product(v - f, f - g)
  {
  }

  /** How far the fit's prefix sum lies above the data's. */
  function Gap(values: seq<real>, fit: seq<real>, k: nat): real
    requires k <= |values| == |fit|
  {
    PrefixSum(fit, k) - PrefixSum(values, k)
  }

  /** Abel summation: the inner product up to place `k` is at least minus the gap there times
      the last difference. */
  lemma {:induction false} AbelStep(values: seq<real>, fit: seq<real>, g: seq<real>, k: nat)
    requires IsFit(values, fit) && |g| == |values| && NonIncreasing(g)
    requires 0 < k <= |values|
    ensures Cross(values, fit, g, k) + Product(Gap(values, fit, k), fit[k - 1] - g[k - 1]) >= 0.0
  {
    var v, f, h := values[k - 1], fit[k - 1], fit[k - 1] - g[k - 1];
    var gap, next := Gap(values, fit, k - 1), Gap(values, fit, k);
    // The residual is the drop in the gap.
    assert next == gap - (v - f);
    ProductOfDifference(gap, v - f, h);
    if k == 1 {
      ProductSign(gap, h);
    } else {
      AbelStep(values, fit, g, k - 1);
      GapIsSlack(values, fit, k - 1);
      GapProduct(gap, fit[k - 2] - f, g[k - 2] - g[k - 1], fit[k - 2] - g[k - 2], h);
    }
  }

  /** The gap is never negative, and zero wherever the fit drops. */
  lemma {:induction false} GapIsSlack(values: seq<real>, fit: seq<real>, k: nat)
    requires IsFit(values, fit) && 0 < k < |values|
    ensures Gap(values, fit, k) >= 0.0 && fit[k - 1] >= fit[k]
    ensures fit[k - 1] > fit[k] ==> Gap(values, fit, k) == 0.0
  {
    assert PrefixSum(values, k) <= PrefixSum(fit, k);
  }

  lemma {:induction false} GapProduct(gap: real, fitDrop: real, gDrop: real, before: real, after: real)
    requires before - after == fitDrop - gDrop
    requires gap >= 0.0 && fitDrop >= 0.0 && gDrop >= 0.0
    requires fitDrop > 0.0 ==> gap == 0.0
    ensures Product(gap, before) <= Product(gap, after)
  {
    if fitDrop == 0.0 {
      MultiplyMonotone(before, after, gap);
    } else {
      ProductSign(gap, before);
      ProductSign(gap, after);
    }
  }

  /** A fit is the least-squares projection: any non-increasing `g` of the same length is worse
      by at least its squared distance from the fit. */
  lemma {:induction false} LeastSquares(values: seq<real>, fit: seq<real>, g: seq<real>)
    requires IsFit(values, fit)
    requires |g| == |values| && NonIncreasing(g)
    ensures SquaredDistance(values, g) >= SquaredDistance(values, fit) + SquaredDistance(fit, g)
  {
    var n := |values|;
    DistanceByCross(values, fit, g, n);
    if n > 0 {
      AbelStep(values, fit, g, n);
      ProductSign(Gap(values, fit, n), fit[n - 1] - g[n - 1]);
    }
  }

  lemma {:induction false} ZeroDistance(s: seq<real>, t: seq<real>, k: nat)
    requires |s| == |t| && k <= |s|
    ensures PrefixDistance(s, t, k) >= 0.0
    ensures PrefixDistance(s, t, k) == 0.0 ==> s[..k] == t[..k]
  {
    if k > 0 {
      ZeroDistance(s, t, k - 1);
      ProductSign(s[k - 1] - t[k - 1], s[k - 1] - t[k - 1]);
      assert s[..k] == s[..k - 1] + [s[k - 1]] && t[..k] == t[..k - 1] + [t[k - 1]];
    }
  }

  /** The returned sequence is the one and only best non-increasing approximation. */
  lemma {:induction false} FitIsUniqueBest(values: seq<real>, g: seq<real>)
    requires |g| == |values| && NonIncreasing(g)
    ensures |Fit(values)| == |values|
    ensures SquaredDistance(values, g) >= SquaredDistance(values, Fit(values)) + SquaredDistance(Fit(values), g)
    ensures SquaredDistance(values, g) <= SquaredDistance(values, Fit(values)) ==> g == Fit(values)
  {
    var fit := Fit(values);
    FitIsFit(values);
    LeastSquares(values, fit, g);
    ZeroDistance(fit, g, |g|);
    assert fit[..|g|] == fit && g[..|g|] == g;
  }

  /** The optimality conditions pin the fit down. */
  lemma {:induction false} FitIsUnique(values: seq<real>, g: seq<real>)
    requires IsFit(values, g)
    ensures g == Fit(values)
  {
    FitIsFit(values);
    FitIsUniqueBest(values, g);
    var fit := Fit(values);
    LeastSquares(values, g, fit);
    ZeroDistance(g, fit, |g|);
  }

  /** The fit changes nothing exactly when the input is already non-increasing, so fitting twice
      is fitting once. */
  lemma {:induction false} FitOfNonIncreasing(values: seq<real>)
    ensures Fit(values) == values <==> NonIncreasing(values)
    ensures Fit(Fit(values)) == Fit(values)
  {
    FitIsFit(values);
    if NonIncreasing(values) {
      FitIsUnique(values, values);
    }
    FitIsUnique(Fit(values), Fit(values));
  }

  // ---------------------------------------------------------------- the min-max formula

  /** The largest mean of a window that starts at `a` and ends no earlier than `b`. */
  function LargestMean(values: seq<real>, a: nat, b: nat): (m: real)
    requires a < b <= |values|
    ensures forall c | b <= c <= |values| :: Mean(values[a..c]) <= m
    ensures exists c | b <= c <= |values| :: Mean(values[a..c]) == m
    decreases |values| - b
  {
    var here := Mean(values[a..b]);
    if b == |values| then here else Max(here, LargestMean(values, a, b + 1))
  }

  /** The smallest of those maxima over the starts `0..a`. */
  function SmallestLargestMean(values: seq<real>, a: nat, b: nat): (m: real)
    requires a < b <= |values|
    ensures forall c | 0 <= c <= a :: m <= LargestMean(values, c, b)
    ensures exists c | 0 <= c <= a :: m == LargestMean(values, c, b)
  {
    var here := LargestMean(values, a, b);
    if a == 0 then here else Min(here, SmallestLargestMean(values, a - 1, b))
  }

  /** Over starts a <= i, the least of the largest means of values[a..=b] with b >= i. */
  function MinMaxMean(values: seq<real>, i: nat): real
    requires i < |values|
  {
    SmallestLargestMean(values, i, i + 1)
  }

  /** The first place of the level that contains `i`. */
  lemma {:induction false} LevelStart(values: seq<real>, fit: seq<real>, i: nat) returns (a: nat)
    requires IsFit(values, fit) && i < |values|
    ensures a <= i && fit[a] == fit[i]
    ensures PrefixSum(values, a) == PrefixSum(fit, a)
  {
    if i == 0 {
      a := 0;
    } else if fit[i - 1] == fit[i] {
      a := LevelStart(values, fit, i - 1);
    } else {
      a := i;
    }
  }

  /** One past the last place of the level that contains `i`. */
  lemma {:induction false} LevelEnd(values: seq<real>, fit: seq<real>, i: nat) returns (b: nat)
    requires IsFit(values, fit) && i < |values|
    ensures i < b <= |values| && fit[b - 1] == fit[i]
    ensures PrefixSum(values, b) == PrefixSum(fit, b)
    decreases |values| - i
  {
    if i + 1 == |values| {
      b := i + 1;
    } else if fit[i + 1] == fit[i] {
      b := LevelEnd(values, fit, i + 1);
    } else {
      b := i + 1;
    }
  }

  /** A window from a place where the prefix sums meet has no mean above the fit there. */
  lemma {:induction false} WindowBelow(values: seq<real>, fit: seq<real>, a: nat, b: nat)
    requires IsFit(values, fit) && a < b <= |values|
    requires PrefixSum(values, a) == PrefixSum(fit, a)
    ensures Mean(values[a..b]) <= fit[a]
  {
    SumWindow(values, a, b);
    SumWindow(fit, a, b);
    MeanBelow(values[a..b], fit[a..b], fit[a]);
  }

  /** A window up to a place where the prefix sums meet has no mean below the fit there. */
  lemma {:induction false} WindowAbove(values: seq<real>, fit: seq<real>, a: nat, b: nat)
    requires IsFit(values, fit) && a < b <= |values|
    requires PrefixSum(values, b) == PrefixSum(fit, b)
    ensures Mean(values[a..b]) >= fit[b - 1]
  {
    SumWindow(values, a, b);
    SumWindow(fit, a, b);
    MeanAbove(values[a..b], fit[a..b], fit[b - 1]);
  }

  /** From the start of its level, no window past `i` has a mean above the fitted value. */
  lemma {:induction false} LevelStartBounds(values: seq<real>, fit: seq<real>, i: nat) returns (a: nat)
    requires IsFit(values, fit) && i < |values|
    ensures a <= i && LargestMean(values, a, i + 1) <= fit[i]
  {
    a := LevelStart(values, fit, i);
    var b :| i + 1 <= b <= |values| && Mean(values[a..b]) == LargestMean(values, a, i + 1);
    WindowBelow(values, fit, a, b);
  }

  /** Every start has a window past `i` whose mean reaches the fitted value. */
  lemma {:induction false} LevelEndBounds(values: seq<real>, fit: seq<real>, i: nat, a: nat)
    requires IsFit(values, fit) && a <= i < |values|
    ensures LargestMean(values, a, i + 1) >= fit[i]
  {
    var b := LevelEnd(values, fit, i);
    WindowAbove(values, fit, a, b);
  }

  /** The min-max formula: an independent closed form of every fitted value. */
  lemma {:induction false} FitIsMinMaxMean(values: seq<real>, i: nat)
    requires i < |values|
    ensures |Fit(values)| == |values|
    ensures Fit(values)[i] == MinMaxMean(values, i)
  {
    var fit := Fit(values);
    FitIsFit(values);
    var a := LevelStartBounds(values, fit, i);
    var c :| 0 <= c <= i && MinMaxMean(values, i) == LargestMean(values, c, i + 1);
    LevelEndBounds(values, fit, i, c);
  }

  lemma {:induction false} FitHasMinMaxForm(values: seq<real>)
    ensures |Fit(values)| == |values|
    ensures forall i | 0 <= i < |values| :: Fit(values)[i] == MinMaxMean(values, i)
  {
    FitIsFit(values);
    forall i | 0 <= i < |values| ensures Fit(values)[i] == MinMaxMean(values, i) {
      FitIsMinMaxMean(values, i);
    }
  }

  /** Raising inputs never lowers an output. */
  lemma {:induction false} FitIsMonotone(values: seq<real>, raised: seq<real>)
    requires |values| == |raised|
    requires forall i | 0 <= i < |values| :: values[i] <= raised[i]
    ensures |Fit(values)| == |Fit(raised)| == |values|
    ensures forall i | 0 <= i < |values| :: Fit(values)[i] <= Fit(raised)[i]
  {
    hide Fit;
    FitIsFit(values);
    FitIsFit(raised);
    forall i | 0 <= i < |values| ensures Fit(values)[i] <= Fit(raised)[i] {
      FittedValuesRise(values, Fit(values), raised, Fit(raised), i);
    }
  }

  /** The level start of the raised data has a window that bounds the lower fit from above. */
  lemma {:induction false} FittedValuesRise(values: seq<real>, fit: seq<real>, raised: seq<real>,
                                            raisedFit: seq<real>, i: nat)
    requires IsFit(values, fit) && IsFit(raised, raisedFit) && i < |values| == |raised|
    requires forall k | 0 <= k < |values| :: values[k] <= raised[k]
    ensures fit[i] <= raisedFit[i]
  {
    hide IsFit, Mean;
    var a := LevelStartBounds(raised, raisedFit, i);
    LevelEndBounds(values, fit, i, a);
    var b :| i + 1 <= b <= |values| && Mean(values[a..b]) == LargestMean(values, a, i + 1);
    SumMonotone(values[a..b], raised[a..b]);
    MeanOrder(values[a..b], raised[a..b]);
  }
}
