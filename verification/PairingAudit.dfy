/** The row-level pairing audit of the support-count arms (`dataset_pairing_audit`), and what its
    adjacent and baseline checks imply for every pair of arms. */
module PairingAudit {
  import opened FiniteSets
  import opened Options

  type Arrays = map<string, seq<int>>

  /** One arm: the training arrays that the audit compares, the IID arrays, the generator's metadata
      and the metrics that the arm's run recorded. `fixed` holds every training array that the arms
      must share, such as inputs, targets and the P channel. */
  datatype Arm = Arm(qGoal: seq<int>, qError: seq<bool>, qBit: seq<int>, pError: seq<bool>,
                     bothWrong: seq<bool>, pWrong: seq<bool>, qWrong: seq<bool>, fixed: Arrays, iid: Arrays,
                     errorCounts: map<string, int>, realizedP: real, realizedQ: real, ledger: map<string, real>)

  /** The arms of one seed, and the baseline as the legacy call generates it. */
  datatype Panel = Panel(legacy: Arm, arms: map<int, Arm>)

  /** The frozen design: training rows, the P and Q error totals and the two marginals. */
  datatype Design = Design(rows: nat, pErrors: int, qErrors: int, marginalP: real, marginalQ: real)

  const COUNT_NAMES: seq<string> :=
    ["p_error_count", "q_error_count", "both_error_count", "p_only_error_count", "q_only_error_count",
     "neither_error_count"]

  /** How the generator lays out an arm: equal lengths, overlap masks derived from the two error masks,
      and a count under every name. */
  ghost predicate Generated(design: Design, arm: Arm) {
    && |arm.qGoal| == |arm.qError| == |arm.qBit| == |arm.pError| == design.rows
    && |arm.bothWrong| == |arm.pWrong| == |arm.qWrong| == design.rows
    && (forall i | 0 <= i < design.rows ::
         && arm.bothWrong[i] == (arm.pError[i] && arm.qError[i])
         && arm.pWrong[i] == (arm.pError[i] && !arm.qError[i])
         && arm.qWrong[i] == (!arm.pError[i] && arm.qError[i]))
    && forall i | 0 <= i < |COUNT_NAMES| :: COUNT_NAMES[i] in arm.errorCounts
  }

  /** The expected count of each name, for an arm with `m` Q-only errors. */
  function ExpectedCount(design: Design, m: int, i: nat): int
    requires i < |COUNT_NAMES|
  {
    [design.pErrors, design.qErrors, design.qErrors - m, design.pErrors - design.qErrors + m, m,
     design.rows - design.pErrors - m][i]
  }

  /** The rows of a Boolean mask. */
  function Mask(mask: seq<bool>): set<nat> {
    set i: nat | i < |mask| && mask[i]
  }

  /** The rows where two arrays differ. */
  function Diff<T(==)>(a: seq<T>, b: seq<T>): set<nat> {
    set i: nat | i < |a| && i < |b| && a[i] != b[i]
  }

  datatype Finding =
    | LegacyTrainDiffers
    | LegacyIidDiffers
    | CountDiffers(m: int, name: string)
    | MetricDiffers(m: int, name: string)
    | MarginalPDiffers(m: int)
    | MarginalQDiffers(m: int)
    | FixedArraysDiffer(m: int)
    | ChangeMasksDiffer(m: int)
    | HammingDiffers(m: int)
    | SharedChangesDiffer(m: int)
    | QOnlyChangesDiffer(m: int)
    | SharedNotNested(m: int)
    | QOnlyNotGrowing(m: int)
    | AdjacentHammingDiffers(previous: int, m: int)

  /** Every metric that the audit looks up was recorded. */
  predicate LedgerComplete(arm: Arm) {
    forall i | 0 <= i < |COUNT_NAMES| :: COUNT_NAMES[i] in arm.ledger
  }

  /** Metadata and ledger agree with the design under the name. */
  predicate CountPasses(design: Design, m: int, arm: Arm, i: nat)
    requires i < |COUNT_NAMES|
  {
    var name := COUNT_NAMES[i];
    && name in arm.errorCounts && arm.errorCounts[name] == ExpectedCount(design, m, i)
    && name in arm.ledger && arm.ledger[name] == ExpectedCount(design, m, i) as real
  }

  ghost predicate CountsPass(design: Design, m: int, arm: Arm, n: nat)
    requires n <= |COUNT_NAMES|
  {
    forall i | 0 <= i < n :: CountPasses(design, m, arm, i)
  }

  /** Everything the audit checks of an arm's rows against the baseline and the previous arm. */
  predicate RowsPass(baseline: Arm, previousM: int, previous: Arm, m: int, arm: Arm) {
    var changed := Diff(arm.qGoal, baseline.qGoal);
    && arm.fixed == baseline.fixed && arm.pError == baseline.pError
    && changed == Diff(arm.qError, baseline.qError) == Diff(arm.qBit, baseline.qBit)
    && |changed| == 2 * m
    && |changed * Mask(baseline.bothWrong)| == m
    && |changed * Mask(arm.qWrong)| == m
    && Mask(arm.bothWrong) <= Mask(previous.bothWrong)
    && Mask(previous.qWrong) <= Mask(arm.qWrong)
    && |Diff(arm.qGoal, previous.qGoal)| == 2 * (m - previousM)
  }

  /** Everything the audit checks of arm `m`. */
  ghost predicate ArmPasses(design: Design, baseline: Arm, previousM: int, previous: Arm, m: int, arm: Arm) {
    && CountsPass(design, m, arm, |COUNT_NAMES|)
    && arm.realizedP == design.marginalP && arm.realizedQ == design.marginalQ
    && RowsPass(baseline, previousM, previous, m, arm)
  }

  /** All training arrays of two arms are equal. */
  predicate SameTrain(a: Arm, b: Arm) {
    && a.qGoal == b.qGoal && a.qError == b.qError && a.qBit == b.qBit && a.pError == b.pError
    && a.bothWrong == b.bothWrong && a.pWrong == b.pWrong && a.qWrong == b.qWrong && a.fixed == b.fixed
  }

  function PreviousCount(counts: seq<int>, k: nat): int
    requires k <= |counts|
  {
    if k == 0 then 0 else counts[k - 1]
  }

  /** The first `n` arms pass, each against the baseline and the arm before it. */
  ghost predicate AcceptedTo(design: Design, counts: seq<int>, arms: map<int, Arm>, n: nat)
    requires 0 in arms && n <= |counts| && forall m | m in counts :: m in arms
  {
    forall k | 0 <= k < n ::
      ArmPasses(design, arms[0], PreviousCount(counts, k), arms[PreviousCount(counts, k)], counts[k], arms[counts[k]])
  }

  ghost predicate Accepted(design: Design, counts: seq<int>, arms: map<int, Arm>)
    requires 0 in arms && forall m | m in counts :: m in arms
  {
    AcceptedTo(design, counts, arms, |counts|)
  }

  ghost predicate SeedAccepted(design: Design, counts: seq<int>, panel: Panel)
    requires 0 in panel.arms && forall m | m in counts :: m in panel.arms
  {
    && panel.arms[0].qGoal == panel.legacy.qGoal && panel.arms[0].qError == panel.legacy.qError
    && panel.arms[0].qBit == panel.legacy.qBit && panel.arms[0].pError == panel.legacy.pError
    && panel.arms[0].bothWrong == panel.legacy.bothWrong && panel.arms[0].pWrong == panel.legacy.pWrong
    && panel.arms[0].qWrong == panel.legacy.qWrong && panel.arms[0].fixed == panel.legacy.fixed
    && panel.arms[0].iid == panel.legacy.iid
    && Accepted(design, counts, panel.arms)
  }

  lemma {:induction false} CountsStart(design: Design, m: int, arm: Arm)
    ensures CountsPass(design, m, arm, 0)
  {
  }

  lemma {:induction false} CountsStep(design: Design, m: int, arm: Arm, i: nat)
    requires i < |COUNT_NAMES|
    ensures CountsPass(design, m, arm, i + 1) <==> CountsPass(design, m, arm, i) && CountPasses(design, m, arm, i)
    ensures CountPasses(design, m, arm, i) <==>
      var name := COUNT_NAMES[i];
      && name in arm.errorCounts && arm.errorCounts[name] == ExpectedCount(design, m, i)
      && name in arm.ledger && arm.ledger[name] == ExpectedCount(design, m, i) as real
  {
    hide ExpectedCount;
    if CountsPass(design, m, arm, i + 1) {
      assert CountPasses(design, m, arm, i);
    }
  }

  /** The comparison of the six counts with the metadata and with the run's metrics. */
  method AuditCounts(design: Design, m: int, arm: Arm) returns (result: Result<seq<Finding>>)
    requires Generated(design, arm)
    ensures result.Ok? <==> LedgerComplete(arm)
    ensures result.Ok? ==> (result.value == [] <==> CountsPass(design, m, arm, |COUNT_NAMES|))
  {
    hide ExpectedCount, CountsPass, CountPasses;
    var errors: seq<Finding> := [];
    CountsStart(design, m, arm);
    for i := 0 to |COUNT_NAMES|
      invariant forall j | 0 <= j < i :: COUNT_NAMES[j] in arm.ledger
      invariant errors == [] <==> CountsPass(design, m, arm, i)
    {
      var name, expected := COUNT_NAMES[i], ExpectedCount(design, m, i);
      CountsStep(design, m, arm, i);
      if arm.errorCounts[name] != expected {
        errors := errors + [CountDiffers(m, name)];
      }
      if name !in arm.ledger {
        return Err("missing metric series");
      }
      if arm.ledger[name] != expected as real {
        errors := errors + [MetricDiffers(m, name)];
      }
    }
    result := Ok(errors);
  }

  /** The comparison of the rows, each check appending its finding. */
  method AuditRows(baseline: Arm, previousM: int, previous: Arm, m: int, arm: Arm) returns (errors: seq<Finding>)
    ensures errors == [] <==> RowsPass(baseline, previousM, previous, m, arm)
  {
    hide Mask, Diff;
    errors := [];
    if arm.fixed != baseline.fixed || arm.pError != baseline.pError {
      errors := errors + [FixedArraysDiffer(m)];
    }
    var changed := Diff(arm.qGoal, baseline.qGoal);
    if changed != Diff(arm.qError, baseline.qError) || changed != Diff(arm.qBit, baseline.qBit) {
      errors := errors + [ChangeMasksDiffer(m)];
    }
    if |changed| != 2 * m {
      errors := errors + [HammingDiffers(m)];
    }
    var qOnly, shared := Mask(arm.qWrong), Mask(arm.bothWrong);
    if |changed * Mask(baseline.bothWrong)| != m {
      errors := errors + [SharedChangesDiffer(m)];
    }
    if |changed * qOnly| != m {
      errors := errors + [QOnlyChangesDiffer(m)];
    }
    if !(shared <= Mask(previous.bothWrong)) {
      errors := errors + [SharedNotNested(m)];
    }
    if !(Mask(previous.qWrong) <= qOnly) {
      errors := errors + [QOnlyNotGrowing(m)];
    }
    if |Diff(arm.qGoal, previous.qGoal)| != 2 * (m - previousM) {
      errors := errors + [AdjacentHammingDiffers(previousM, m)];
    }
  }

  /** The checks of one arm. */
  method AuditArm(design: Design, baseline: Arm, previousM: int, previous: Arm, m: int, arm: Arm)
      returns (result: Result<seq<Finding>>)
    requires Generated(design, arm)
    ensures result.Ok? <==> LedgerComplete(arm)
    ensures result.Ok? ==> (result.value == [] <==> ArmPasses(design, baseline, previousM, previous, m, arm))
  {
    hide Generated, LedgerComplete, CountsPass, RowsPass;
    var counted := AuditCounts(design, m, arm);
    if counted.Err? {
      return counted;
    }
    var errors := counted.value;
    if arm.realizedP != design.marginalP {
      errors := errors + [MarginalPDiffers(m)];
    }
    if arm.realizedQ != design.marginalQ {
      errors := errors + [MarginalQDiffers(m)];
    }
    var found := AuditRows(baseline, previousM, previous, m, arm);
    result := Ok(errors + found);
  }

  ghost predicate LedgersComplete(counts: seq<int>, arms: map<int, Arm>, n: nat)
    requires n <= |counts|
  {
    forall k | 0 <= k < n :: counts[k] in arms && LedgerComplete(arms[counts[k]])
  }

  /** The audit of one seed. It accepts exactly when the baseline is the legacy one and every arm
      passes. */
  method AuditSeed(design: Design, counts: seq<int>, panel: Panel) returns (result: Result<seq<Finding>>)
    requires forall m | m in counts :: m in panel.arms && Generated(design, panel.arms[m])
    ensures result.Ok? <==> 0 in counts && LedgersComplete(counts, panel.arms, |counts|)
    ensures result.Ok? ==> (result.value == [] <==> SeedAccepted(design, counts, panel))
  {
    if 0 !in counts {
      return Err("dataset pairing audit requires the m=0 baseline");
    }
    hide ArmPasses, AcceptedTo, Generated, LedgerComplete;
    var arms := panel.arms;
    var errors: seq<Finding> := [];
    if !SameTrain(arms[0], panel.legacy) {
      errors := errors + [LegacyTrainDiffers];
    }
    if arms[0].iid != panel.legacy.iid {
      errors := errors + [LegacyIidDiffers];
    }
    ghost var legacy := errors == [];
    var previousM := 0;
    AcceptedNone(design, counts, arms);
    for k := 0 to |counts|
      invariant previousM == PreviousCount(counts, k) && previousM in arms
      invariant LedgersComplete(counts, arms, k)
      invariant errors == [] <==> legacy && AcceptedTo(design, counts, arms, k)
    {
      assert counts[k] in counts;
      var m := counts[k];
      var found := AuditArm(design, arms[0], previousM, arms[previousM], m, arms[m]);
      if found.Err? {
        return found;
      }
      AcceptedStep(design, counts, arms, k);
      errors := errors + found.value;
      previousM := m;
    }
    result := Ok(errors);
  }

  /** The audit loop over the seeds. It accepts exactly when every seed is accepted, and then the arms
      of each seed are paired: not only neighbours, but all of them. */
  method DatasetPairingAudit(design: Design, counts: seq<int>, panels: seq<Panel>)
      returns (result: Result<seq<Finding>>)
    requires forall i, m | 0 <= i < |panels| && m in counts ::
      m in panels[i].arms && Generated(design, panels[i].arms[m])
    ensures result.Ok? <==> panels == [] || (0 in counts && AllLedgersComplete(counts, panels))
    ensures result.Ok? ==>
      (result.value == [] <==> forall i | 0 <= i < |panels| :: SeedAccepted(design, counts, panels[i]))
    ensures result == Ok([]) ==> forall i | 0 <= i < |panels| :: Paired(design, counts, panels[i].arms)
  {
    hide SeedAccepted, Generated, LedgersComplete, Paired;
    var errors: seq<Finding> := [];
    for i := 0 to |panels|
      invariant i > 0 ==> 0 in counts
      invariant forall j | 0 <= j < i :: LedgersComplete(counts, panels[j].arms, |counts|)
      invariant errors == [] <==> forall j | 0 <= j < i :: SeedAccepted(design, counts, panels[j])
    {
      var found := AuditSeed(design, counts, panels[i]);
      if found.Err? {
        return found;
      }
      errors := errors + found.value;
    }
    if errors == [] {
      forall i | 0 <= i < |panels| ensures Paired(design, counts, panels[i].arms) {
        AcceptedSeedIsPaired(design, counts, panels[i]);
      }
    }
    result := Ok(errors);
  }

  ghost predicate AllLedgersComplete(counts: seq<int>, panels: seq<Panel>) {
    forall i | 0 <= i < |panels| :: LedgersComplete(counts, panels[i].arms, |counts|)
  }

  lemma {:induction false} AcceptedSeedIsPaired(design: Design, counts: seq<int>, panel: Panel)
    requires 0 in counts && forall m | m in counts :: m in panel.arms && Generated(design, panel.arms[m])
    requires SeedAccepted(design, counts, panel)
    ensures Paired(design, counts, panel.arms)
  {
    hide Generated, Accepted, Paired;
    AcceptedArmsArePaired(design, counts, panel.arms);
  }

  lemma {:induction false} AcceptedNone(design: Design, counts: seq<int>, arms: map<int, Arm>)
    requires 0 in arms && forall m | m in counts :: m in arms
    ensures AcceptedTo(design, counts, arms, 0)
  {
  }

  lemma {:induction false} AcceptedStep(design: Design, counts: seq<int>, arms: map<int, Arm>, k: nat)
    requires 0 in arms && k < |counts| && forall m | m in counts :: m in arms
    ensures AcceptedTo(design, counts, arms, k + 1) <==>
      && AcceptedTo(design, counts, arms, k)
      && ArmPasses(design, arms[0], PreviousCount(counts, k), arms[PreviousCount(counts, k)],
                   counts[k], arms[counts[k]])
  {
    hide ArmPasses;
  }

  // ---------------------------------------------------------------- what acceptance means

  /** Two audited arms: their Q goals are exactly twice the count difference apart, and the smaller
      count's changes, shared rows and Q-only rows nest in the larger's. */
  ghost predicate PairAligned(baseline: Arm, m: int, lower: Arm, n: int, upper: Arm) {
    && |Diff(upper.qGoal, lower.qGoal)| == 2 * (n - m)
    && Diff(lower.qGoal, baseline.qGoal) <= Diff(upper.qGoal, baseline.qGoal)
    && Mask(upper.bothWrong) <= Mask(lower.bothWrong)
    && Mask(lower.qWrong) <= Mask(upper.qWrong)
  }

  /** One audited arm: its changed rows are m formerly shared errors, which become P-only errors, and
      m new Q-only errors, and nothing else; its P and Q error totals are the baseline's. */
  ghost predicate ArmSwaps(baseline: Arm, m: int, arm: Arm) {
    var changed := Diff(arm.qGoal, baseline.qGoal);
    var released, added := Mask(baseline.bothWrong) - Mask(arm.bothWrong), Mask(arm.qWrong) - Mask(baseline.qWrong);
    && changed == released + added && released !! added
    && |released| == m && |added| == m
    && Mask(arm.bothWrong) <= Mask(baseline.bothWrong) && Mask(baseline.qWrong) <= Mask(arm.qWrong)
    && Mask(arm.pWrong) == Mask(baseline.pWrong) + released
    && Mask(arm.pError) == Mask(baseline.pError)
    && |Mask(arm.qError)| == |Mask(baseline.qError)|
  }

  ghost predicate Paired(design: Design, counts: seq<int>, arms: map<int, Arm>)
    requires 0 in arms && forall m | m in counts :: m in arms
  {
    && (forall k | 0 <= k < |counts| :: ArmSwaps(arms[0], counts[k], arms[counts[k]]))
    && (forall k, l | 0 <= k <= l < |counts| ::
         0 <= counts[k] <= counts[l] && PairAligned(arms[0], counts[k], arms[counts[k]], counts[l], arms[counts[l]]))
  }

  /** The triangle inequality for Hamming distances, with its equality case. */
  lemma {:induction false} Triangle<T>(a: seq<T>, b: seq<T>, c: seq<T>)
    requires |a| == |b| == |c|
    ensures |Diff(c, a)| <= |Diff(b, a)| + |Diff(c, b)|
    ensures |Diff(c, a)| == |Diff(b, a)| + |Diff(c, b)| ==> Diff(b, a) <= Diff(c, a)
  {
    assert Diff(c, a) <= Diff(b, a) + Diff(c, b);
    SubsetSize(Diff(c, a), Diff(b, a) + Diff(c, b));
    UnionSize(Diff(b, a), Diff(c, b));
  }

  lemma {:induction false} DiffSelf<T>(a: seq<T>)
    ensures Diff(a, a) == {}
  {
  }

  lemma {:induction false} AcceptedNeighbours(design: Design, counts: seq<int>, arms: map<int, Arm>, l: nat)
    requires 0 in counts && forall m | m in counts :: m in arms && Generated(design, arms[m])
    requires Accepted(design, counts, arms) && 0 < l < |counts|
    ensures counts[l - 1] in counts && counts[l] in counts
    ensures var before, last := arms[counts[l - 1]], arms[counts[l]];
      && |Diff(last.qGoal, before.qGoal)| == 2 * (counts[l] - counts[l - 1])
      && Mask(last.bothWrong) <= Mask(before.bothWrong) && Mask(before.qWrong) <= Mask(last.qWrong)
  {
    hide Mask, Diff, CountsPass, Generated;
    assert counts[l] in counts && counts[l - 1] in counts;
    assert PreviousCount(counts, l) == counts[l - 1];
    assert ArmPasses(design, arms[0], PreviousCount(counts, l), arms[PreviousCount(counts, l)],
        counts[l], arms[counts[l]]);
  }

  lemma {:induction false} SameRows(design: Design, a: Arm, b: Arm)
    requires Generated(design, a) && Generated(design, b)
    ensures |a.qGoal| == |b.qGoal| && |a.qError| == |b.qError|
  {
  }

  /** Neighbouring steps add up: the counts never fall, the masks nest, and the distance of two arms
      is at most twice the count difference. */
  lemma {:induction false} ChainBounds(design: Design, counts: seq<int>, arms: map<int, Arm>, k: nat, l: nat)
    requires 0 in counts && forall m | m in counts :: m in arms && Generated(design, arms[m])
    requires Accepted(design, counts, arms) && k <= l < |counts|
    ensures counts[k] <= counts[l]
    ensures |Diff(arms[counts[l]].qGoal, arms[counts[k]].qGoal)| <= 2 * (counts[l] - counts[k])
    ensures Mask(arms[counts[l]].bothWrong) <= Mask(arms[counts[k]].bothWrong)
    ensures Mask(arms[counts[k]].qWrong) <= Mask(arms[counts[l]].qWrong)
    decreases l
  {
    hide Mask, Diff, Accepted;
    var m, n := counts[k], counts[l];
    assert m in counts && n in counts;
    if k == l {
      DiffSelf(arms[m].qGoal);
    } else {
      var between := counts[l - 1];
      assert between in counts;
      ChainBounds(design, counts, arms, k, l - 1);
      AcceptedNeighbours(design, counts, arms, l);
      SameRows(design, arms[m], arms[between]);
      SameRows(design, arms[m], arms[n]);
      Triangle(arms[m].qGoal, arms[between].qGoal, arms[n].qGoal);
    }
  }

  /** Adjacent and baseline checks settle every pair of arms. */
  lemma {:induction false} PairIsAligned(design: Design, counts: seq<int>, arms: map<int, Arm>, k: nat, l: nat)
    requires 0 in counts && forall m | m in counts :: m in arms && Generated(design, arms[m])
    requires Accepted(design, counts, arms) && k <= l < |counts|
    ensures 0 <= counts[k] <= counts[l]
    ensures PairAligned(arms[0], counts[k], arms[counts[k]], counts[l], arms[counts[l]])
  {
    hide Mask, Diff, CountsPass;
    ChainBounds(design, counts, arms, k, l);
    var lower, upper := arms[counts[k]], arms[counts[l]];
    assert ArmPasses(design, arms[0], PreviousCount(counts, k), arms[PreviousCount(counts, k)], counts[k], lower);
    assert ArmPasses(design, arms[0], PreviousCount(counts, l), arms[PreviousCount(counts, l)], counts[l], upper);
    Triangle(arms[0].qGoal, lower.qGoal, upper.qGoal);
  }

  /** Two disjoint parts that are as large as the whole cover it. */
  lemma {:induction false} PartsCover<T>(whole: set<T>, a: set<T>, b: set<T>)
    requires a !! b && |whole| == |whole * a| + |whole * b|
    ensures whole == whole * a + whole * b
  {
    UnionSize(whole * a, whole * b);
    SubsetSize(whole * a + whole * b, whole);
  }

  lemma {:induction false} MasksOfArm(design: Design, arm: Arm)
    requires Generated(design, arm)
    ensures Mask(arm.bothWrong) == Mask(arm.pError) * Mask(arm.qError)
    ensures Mask(arm.pWrong) == Mask(arm.pError) - Mask(arm.qError)
    ensures Mask(arm.qWrong) == Mask(arm.qError) - Mask(arm.pError)
  {
  }

  lemma {:induction false} MaskChange(a: seq<bool>, b: seq<bool>)
    requires |a| == |b|
    ensures Diff(a, b) == (Mask(a) - Mask(b)) + (Mask(b) - Mask(a))
  {
  }

  /** Row by row: with P errors fixed and goal changes equal to error changes, the two overlap
      checks force the exact swap of shared errors for Q-only errors. */
  lemma {:induction false} ArmIsSwap(design: Design, baseline: Arm, previousM: int, previous: Arm, m: int, arm: Arm)
    requires Generated(design, baseline) && Generated(design, arm)
    requires ArmPasses(design, baseline, previousM, previous, m, arm)
    ensures ArmSwaps(baseline, m, arm)
  {
    hide Mask, Diff, CountsPass, Generated;
    var changed := Diff(arm.qGoal, baseline.qGoal);
    SameRows(design, baseline, arm);
    MasksOfArm(design, baseline);
    MasksOfArm(design, arm);
    MaskChange(arm.qError, baseline.qError);
    PartsCover(changed, Mask(baseline.bothWrong), Mask(arm.qWrong));
    SwapSets(Mask(arm.pError), Mask(baseline.qError), Mask(arm.qError), changed, m);
    ReleasedSets(Mask(arm.pError), Mask(baseline.qError), Mask(arm.qError));
  }

  lemma {:induction false} SwapSets(p: set<nat>, q: set<nat>, r: set<nat>, changed: set<nat>, m: int)
    requires changed == (r - q) + (q - r)
    requires changed == changed * (p * q) + changed * (r - p)
    requires |changed * (p * q)| == m && |changed * (r - p)| == m
    ensures var released, added := p * q - p * r, (r - p) - (q - p);
      && changed == released + added && released !! added
      && |released| == m && |added| == m
      && p * r <= p * q && q - p <= r - p
      && |r| == |q|
  {
    var released, added := p * q - p * r, (r - p) - (q - p);
    assert changed * (p * q) == released;
    assert changed * (r - p) == added;
    KeptSets(p, q, r, changed);
    UnionSize(q * r, released);
    UnionSize(q * r, added);
  }

  lemma {:induction false} ReleasedSets(p: set<nat>, q: set<nat>, r: set<nat>)
    requires p * r <= p * q
    ensures p - r == (p - q) + (p * q - p * r)
  {
    forall i | i in p && i in r ensures i in q {
      assert i in p * r;
    }
  }

  lemma {:induction false} KeptSets(p: set<nat>, q: set<nat>, r: set<nat>, changed: set<nat>)
    requires changed == (r - q) + (q - r)
    requires changed == changed * (p * q) + changed * (r - p)
    ensures q == q * r + (p * q - p * r) && r == q * r + ((r - p) - (q - p))
  {
    forall i | i in q && i !in r ensures i in p {
      assert i in changed;
    }
    forall i | i in r && i !in q ensures i !in p {
      assert i in changed;
    }
  }

  lemma {:induction false} AcceptedArmsArePaired(design: Design, counts: seq<int>, arms: map<int, Arm>)
    requires 0 in counts && forall m | m in counts :: m in arms && Generated(design, arms[m])
    requires Accepted(design, counts, arms)
    ensures Paired(design, counts, arms)
  {
    hide ArmPasses, ArmSwaps, PairAligned, Generated;
    forall k | 0 <= k < |counts| ensures ArmSwaps(arms[0], counts[k], arms[counts[k]]) {
      ArmIsSwap(design, arms[0], PreviousCount(counts, k), arms[PreviousCount(counts, k)], counts[k], arms[counts[k]]);
    }
    forall k, l | 0 <= k <= l < |counts|
      ensures 0 <= counts[k] <= counts[l]
      ensures PairAligned(arms[0], counts[k], arms[counts[k]], counts[l], arms[counts[l]])
    {
      PairIsAligned(design, counts, arms, k, l);
    }
  }

  // ---------------------------------------------------------------- which arms pass

  /** Metadata and ledger hold a count under a name. */
  predicate Records(arm: Arm, name: string, count: int) {
    && name in arm.errorCounts && arm.errorCounts[name] == count
    && name in arm.ledger && arm.ledger[name] == count as real
  }

  /** The rows without either error. */
  function Neither(arm: Arm): set<nat> {
    set i: nat | i < |arm.pError| && i < |arm.qError| && !arm.pError[i] && !arm.qError[i]
  }

  /** Every recorded count is the size of the rows it names. */
  predicate Truthful(arm: Arm) {
    && Records(arm, "p_error_count", |Mask(arm.pError)|)
    && Records(arm, "q_error_count", |Mask(arm.qError)|)
    && Records(arm, "both_error_count", |Mask(arm.bothWrong)|)
    && Records(arm, "p_only_error_count", |Mask(arm.pWrong)|)
    && Records(arm, "q_only_error_count", |Mask(arm.qWrong)|)
    && Records(arm, "neither_error_count", |Neither(arm)|)
  }

  /** How the sizes of the masks are related. */
  lemma {:induction false} MaskSizes(design: Design, arm: Arm)
    requires Generated(design, arm)
    ensures |Mask(arm.bothWrong)| == |Mask(arm.qError)| - |Mask(arm.qWrong)|
    ensures |Mask(arm.pWrong)| == |Mask(arm.pError)| - |Mask(arm.bothWrong)|
    ensures |Neither(arm)| == design.rows - |Mask(arm.pError)| - |Mask(arm.qWrong)|
  {
    var p, q := Mask(arm.pError), Mask(arm.qError);
    var both, pOnly, qOnly, neither := Mask(arm.bothWrong), Mask(arm.pWrong), Mask(arm.qWrong), Neither(arm);
    MasksOfArm(design, arm);
    assert q == both + qOnly && both * qOnly == {};
    UnionSize(both, qOnly);
    assert p == both + pOnly && both * pOnly == {};
    UnionSize(both, pOnly);
    assert FirstNats(design.rows) == p + (qOnly + neither) && p * (qOnly + neither) == {} && qOnly * neither == {};
    UnionSize(qOnly, neither);
    UnionSize(p, qOnly + neither);
  }

  /** An arm with the design's error totals and `m` Q-only errors passes the six comparisons exactly
      when its records are true. */
  lemma {:induction false} CountsPassWhenTruthful(design: Design, m: int, arm: Arm)
    requires Generated(design, arm)
    requires design.pErrors == |Mask(arm.pError)| && design.qErrors == |Mask(arm.qError)| && m == |Mask(arm.qWrong)|
    ensures CountsPass(design, m, arm, |COUNT_NAMES|) <==> Truthful(arm)
  {
    hide Mask, Neither, Generated;
    MaskSizes(design, arm);
    assert forall i | 0 <= i < |COUNT_NAMES| ::
      CountPasses(design, m, arm, i) <==> Records(arm, COUNT_NAMES[i], ExpectedCount(design, m, i));
    if CountsPass(design, m, arm, |COUNT_NAMES|) {
      assert CountPasses(design, m, arm, 0) && CountPasses(design, m, arm, 1) && CountPasses(design, m, arm, 2);
      assert CountPasses(design, m, arm, 3) && CountPasses(design, m, arm, 4) && CountPasses(design, m, arm, 5);
    }
  }

  /** An arm differs from the baseline in its Q goals, Q errors and Q bits at the same rows, and in no
      shared array. */
  predicate SameBesidesQ(baseline: Arm, arm: Arm) {
    && arm.fixed == baseline.fixed && arm.pError == baseline.pError
    && Diff(arm.qGoal, baseline.qGoal) == Diff(arm.qError, baseline.qError) == Diff(arm.qBit, baseline.qBit)
  }

  /** The checks of an arm are complete: they accept any arm that swaps `m` shared errors of a truthful
      baseline for Q-only errors, follows its predecessor, and records its own counts. */
  lemma {:induction false} SwappedArmPasses(design: Design, baseline: Arm, previousM: int, previous: Arm,
                                            m: int, arm: Arm)
    requires Generated(design, baseline) && Generated(design, previous) && Generated(design, arm)
    requires CountsPass(design, 0, baseline, |COUNT_NAMES|) && Truthful(baseline)
    requires Truthful(arm) && SameBesidesQ(baseline, arm) && ArmSwaps(baseline, m, arm)
    requires PairAligned(baseline, previousM, previous, m, arm)
    requires arm.realizedP == design.marginalP && arm.realizedQ == design.marginalQ
    ensures ArmPasses(design, baseline, previousM, previous, m, arm)
  {
    hide Mask, Diff, Neither, Generated, CountsPass;
    BaselineSizes(design, baseline);
    var changed := Diff(arm.qGoal, baseline.qGoal);
    var released, added := Mask(baseline.bothWrong) - Mask(arm.bothWrong), Mask(arm.qWrong) - Mask(baseline.qWrong);
    MasksOfArm(design, baseline);
    MasksOfArm(design, arm);
    UnionSize(released, added);
    assert added == Mask(arm.qWrong);
    CountsPassWhenTruthful(design, m, arm);
    assert changed * Mask(baseline.bothWrong) == released by {
      forall i | i in added ensures i !in Mask(baseline.bothWrong) {
      }
    }
    assert changed * Mask(arm.qWrong) == added by {
      forall i | i in released ensures i !in Mask(arm.qWrong) {
      }
    }
  }

  lemma {:induction false} BaselineSizes(design: Design, baseline: Arm)
    requires CountsPass(design, 0, baseline, |COUNT_NAMES|) && Truthful(baseline)
    ensures design.pErrors == |Mask(baseline.pError)| && design.qErrors == |Mask(baseline.qError)|
    ensures Mask(baseline.qWrong) == {}
  {
    hide Mask, Neither;
    assert CountPasses(design, 0, baseline, 0) && CountPasses(design, 0, baseline, 1);
    assert CountPasses(design, 0, baseline, 4);
  }

  /** The arms of a panel are truthful, differ in Q arrays only and keep the marginals. */
  ghost predicate TruthfulPanel(design: Design, counts: seq<int>, arms: map<int, Arm>)
    requires 0 in arms
  {
    && CountsPass(design, 0, arms[0], |COUNT_NAMES|) && Truthful(arms[0])
    && forall k | 0 <= k < |counts| ::
         && counts[k] in arms && Generated(design, arms[counts[k]])
         && Truthful(arms[counts[k]]) && SameBesidesQ(arms[0], arms[counts[k]])
         && arms[counts[k]].realizedP == design.marginalP && arms[counts[k]].realizedQ == design.marginalQ
  }

  /** With true records and only Q arrays changed, the audit accepts a panel exactly when its arms are
      paired. */
  lemma {:induction false} AcceptedWhenPaired(design: Design, counts: seq<int>, arms: map<int, Arm>)
    requires 0 in counts && forall m | m in counts :: m in arms && Generated(design, arms[m])
    requires TruthfulPanel(design, counts, arms)
    ensures Accepted(design, counts, arms) <==> Paired(design, counts, arms)
  {
    hide ArmPasses, ArmSwaps, PairAligned, Generated, TruthfulPanel, Paired;
    if Accepted(design, counts, arms) {
      AcceptedArmsArePaired(design, counts, arms);
    }
    if Paired(design, counts, arms) {
      forall k | 0 <= k < |counts|
        ensures ArmPasses(design, arms[0], PreviousCount(counts, k), arms[PreviousCount(counts, k)],
                  counts[k], arms[counts[k]])
      {
        PairedArmPasses(design, counts, arms, k);
      }
    }
  }

  lemma {:induction false} PairedArmPasses(design: Design, counts: seq<int>, arms: map<int, Arm>, k: nat)
    requires 0 in counts && forall m | m in counts :: m in arms && Generated(design, arms[m])
    requires TruthfulPanel(design, counts, arms) && Paired(design, counts, arms) && k < |counts|
    ensures PreviousCount(counts, k) in arms
    ensures ArmPasses(design, arms[0], PreviousCount(counts, k), arms[PreviousCount(counts, k)],
              counts[k], arms[counts[k]])
  {
    hide ArmPasses, ArmSwaps, PairAligned, Generated, CountsPass, Truthful, SameBesidesQ;
    var j :| 0 <= j < |counts| && counts[j] == 0;
    assert 0 <= counts[0] <= counts[j];
    var i := if k == 0 then 0 else k - 1;
    assert counts[i] == PreviousCount(counts, k);
    assert PairAligned(arms[0], counts[i], arms[counts[i]], counts[k], arms[counts[k]]);
    assert ArmSwaps(arms[0], counts[k], arms[counts[k]]);
    assert 0 in arms && Generated(design, arms[0]);
    SwappedArmPasses(design, arms[0], counts[i], arms[counts[i]], counts[k], arms[counts[k]]);
  }
}
