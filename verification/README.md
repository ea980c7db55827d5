# Verified kernels of the goal-misgeneralization analyses

This project models the mathematical kernels behind the repository's reported numbers and proves what
those numbers mean. Reals are exact, since the sources sum with `math.fsum` and the properties are not
about rounding. Sizes that the analyses freeze (six seeds, twenty seeds, 33 checkpoints, 10,000 rows)
are arbitrary here. An exception of the source is an `Err` result.

* `Isotonic`, `Crossing`: the pool-adjacent-violators stack of the E16 refinement and the 50% point
  (m50) read off its fit. The fit is the unique least-squares projection, has the min-max form, and is
  monotone in the data; m50 is characterised on the raw prevalences.
* `SignFlip`, `Sorting`, `Bootstrap`, `SeedBlocks`: the exact 2^n sign-flip test and the exhaustive n^n
  bootstrap of the Qwen3.5 analyses, and the per-seed summaries and pools that use them.
* `PersistentEvents`, `PhaseEpisodes`: the E15 event scan, episode scan and compression, which read the
  same phase sequence three times and must agree.
* `KaplanMeier`: the plotted event CDF against the product-limit estimator that the repository computes
  elsewhere.
* `PairingAudit`: what the adjacent and baseline checks of the E16 dataset audit imply for all arms.
* `BundleBootstrap`: all-or-nothing extraction of the frozen G00-F archive, over a disk object whose steps
  may fail, and what any number of runs leaves.
* `ChecksumManifest`: the strict checksum parser, as the exact inverse of its printer.
* `InquiryChain`, `EpisodeSummary`: the hidden-Law query chain, episode aggregation and balance.
* `Reals`, `Counting`, `Permutations`, `Orders`, `FiniteSets`, `Texts`, `Options`: shared vocabulary.

Loops and mutable state of the source are methods with loop invariants, proved against specification
functions or predicates; what the source promises is then proved about those. Lemmas switch automatic
induction off, so each one is proved by its body.

## Where the code and its description differ

The model follows the code in each case.

* `kaplan_meier_cdf` calls its result a Kaplan-Meier CDF, but rows censored between event times never
  leave its risk set. `PlotIsProductLimit` and `WholePlotIsProductLimit` give the exact condition for
  agreement with the estimator in `src/forkworld/analysis.py`, and `StrayExample` a two-row difference.
* The near-tie branch (`math.isclose`) of `_half_crossing` jumps to the right end of its bracket, so on
  arbitrary reals raising a value can move the half point earlier (`RaisedDataCrossesLater` has the exact
  exception, `RaisedDataCrossesEarlier` an instance). The 0/1 gates that the analysis feeds it cannot come
  that close to one half: `CoarseFitHasNoTie` shows the branch unreachable and `MoreGatesCrossLater` that
  m50 is monotone on every panel.
* The sign-flip count reaches its least value two not only for data of one strict sign but for any single
  value. `SmallestExceedances` has both cases.
* `prepare` creates its receipt before it writes it, and nothing cleans up after a failure in between. So
  an unfinished receipt, or a whole one that was never reported, can stay, and every retry is refused
  because the output exists (`Disk.Prepare`, `OutputIsFinal`). `shutil.rmtree` ignores its own errors, so
  a failed extraction can leave its temporary directory (`Disk.Extract`).
* `prepare` does not check the manifest row of its own special file. `EveryRowMatches` says exactly when
  a finished tree agrees with every row; by `SpecialRowIgnored` and `WrongSpecialRowAccepted` any accepted
  job that lists the file also passes with a wrong row for it.

## Model

| member | source | states |
|---|---|---|
| Isotonic.DecreasingIsotonic | paper/forkworld-current-results/e16_analysis.py:2428-2445 | the stack loop ends in fewer merges than inputs; its result keeps the length and the total, meets the optimality conditions (prefix sums form the least concave majorant of the data's) and equals, at every place, the min over starts of the max over ends of the window means |
| Isotonic.PooledDescribes | paper/forkworld-current-results/e16_analysis.py:2429-2441 | after every push and its merges, block means are non-increasing, every block's value is the mean of the inputs it pools, and no prefix of those inputs sums to more than that mean gives |
| Isotonic.LeastSquares | paper/forkworld-current-results/e16_analysis.py:2428-2445 | any non-increasing sequence has at least the fit's squared error plus its squared distance from the fit |
| Isotonic.FitIsUniqueBest | paper/forkworld-current-results/e16_analysis.py:2428-2445 | the computed fit is the only best non-increasing approximation |
| Isotonic.FitIsUnique | paper/forkworld-current-results/e16_analysis.py:2428-2445 | the optimality conditions have no other solution |
| Isotonic.FitIsMinMaxMean | paper/forkworld-current-results/e16_analysis.py:2428-2445 | fitted value i is the least, over starts a <= i, of the largest mean of a window from a past i |
| Isotonic.FitIsMonotone | paper/forkworld-current-results/e16_analysis.py:2428-2445 | raising inputs never lowers a fitted value |
| Isotonic.FitOfNonIncreasing | paper/forkworld-current-results/e16_analysis.py:2428-2445 | the fit leaves its input unchanged exactly when the input is non-increasing, and fitting is idempotent |
| Crossing.NearTieMeans | paper/forkworld-current-results/e16_analysis.py:2333 | two values tie exactly when they differ by at most 1e-15 or by at most a billionth of the size of either |
| Crossing.HalfCrossing | paper/forkworld-current-results/e16_analysis.py:2323-2337 | the early-return scan equals the half point of the first place at or below one half, with its near-tie branch, and is missing exactly when every value is above one half |
| Crossing.M50 | paper/forkworld-current-results/e16_analysis.py:2349-2350 | on raw prevalences: missing exactly when every suffix mean exceeds one half; the first count exactly when no prefix mean does; otherwise inside the one bracket where the fit passes one half, where the interpolating line is one half unless the near-tie branch returns the right end |
| Crossing.FitAtMost | paper/forkworld-current-results/e16_analysis.py:2428-2445 | a fitted value is at most c exactly when some window start keeps all later means at most c |
| Crossing.RaisedDataCrossesLater | paper/forkworld-current-results/e16_analysis.py:2323-2337 | for arbitrary reals, raising the data never moves the half point of its fit earlier, except exactly when the lower data is in a near tie and the raised data crosses strictly inside the same bracket without one |
| Crossing.RaisedDataCrossesEarlier | paper/forkworld-current-results/e16_analysis.py:2333-2334 | on arbitrary reals, though not on prevalences of a panel, the exception occurs: the half point drops below 4 after raising a value |
| Crossing.CoarseFitHasNoTie | paper/forkworld-current-results/e16_analysis.py:2333-2334 | when all values are whole n-ths and n times the number of values is below 500 million, the fit has no near tie across one half, so the near-tie branch is unreachable |
| Crossing.PanelCrossing | paper/forkworld-current-results/e16_analysis.py:2344-2350 | m50 of 0/1 gates, for any number of seeds and counts within that bound: missing, the first count, or the point of its bracket where the interpolating line is one half |
| Crossing.MoreGatesCrossLater | paper/forkworld-current-results/e16_analysis.py:2344-2361 | on such panels, resampled ones included, opening gates for more seeds never moves m50 to an earlier count |
| SignFlip.EnumerationIsExact | scripts/analyze_qwen35_known_law.py:277 | the enumeration has 2^n entries, every sign vector once and no other |
| SignFlip.SignFlipTestIsValid | scripts/analyze_qwen35_hidden_law.py:1543-1551 | validity for every data vector, level and slack: at most a fraction `level` of the sign-flipped data sets has a p-value of at most `level` |
| SignFlip.ExceedancesAreRank | scripts/analyze_qwen35_known_law.py:274-278 | the exceedance count of a sign-flipped data set is the rank of its statistic among all sign flips |
| SignFlip.ExceedancesAreEven | scripts/analyze_qwen35_known_law.py:274-278 | the count is twice the count over vectors that start with +1, which is at least one |
| SignFlip.SmallestExceedances | scripts/analyze_qwen35_known_law.py:271-279 | without slack the count is two exactly when all values are non-zero with one sign, or there is one value |
| SignFlip.ExceedancesOfNegated | scripts/analyze_qwen35_known_law.py:271-279 | negating all values leaves the count unchanged |
| SignFlip.ExceedancesOfPermuted | scripts/analyze_qwen35_known_law.py:271-279 | reordering the values leaves the count unchanged, with or without slack |
| Sorting.SortedIsUnique | scripts/analyze_qwen35_known_law.py:262 | sorting is determined: a multiset has one non-decreasing arrangement |
| Sorting.PercentileIsMonotone | scripts/analyze_qwen35_known_law.py:249-256 | linear percentiles grow with the probability and stay between the smallest and the largest value |
| Sorting.PercentileReversed | scripts/analyze_qwen35_known_law.py:249-256 | the percentile of the reversed sequence is the complementary percentile |
| Sorting.PercentileInterpolates | scripts/analyze_qwen35_known_law.py:249-256 | the percentile at the fraction (k + w)/(n - 1) moves linearly from the k-th to the next sorted value as w goes from 0 to 1 |
| Sorting.PercentileOfOne | scripts/analyze_qwen35_known_law.py:249-256 | every percentile of a single value is that value |
| Sorting.PercentileRanks | scripts/analyze_qwen35_known_law.py:249-256 | at most ceil(p(n-1)) values lie below the percentile and at least floor(p(n-1)) + 1 at most there |
| Bootstrap.BootstrapIsCentred | scripts/analyze_qwen35_known_law.py:262-267 | the enumeration yields n^n estimates, and their average is the sample mean |
| Bootstrap.ResamplesReadIndices | scripts/analyze_qwen35_known_law.py:262-265 | the resamples read the values through every index tuple of length n, each exactly once |
| Bootstrap.IntervalCovers | scripts/analyze_qwen35_known_law.py:259-268 | the ends of the interval sit at the 2.5% and 97.5% ranks of the n^n estimates |
| Bootstrap.IntervalIsOrdered | scripts/analyze_qwen35_known_law.py:259-268 | lower and upper are ordered and inside any range that holds the data |
| Bootstrap.IntervalIsEquivariant | scripts/analyze_qwen35_known_law.py:259-268 | scaling and shifting the data scales and shifts the interval; a negative factor, such as negation, also exchanges its ends |
| Bootstrap.IntervalIsMonotone | scripts/analyze_qwen35_known_law.py:259-268 | raising any seed values lowers neither end of the interval |
| Bootstrap.IntervalOfPermuted | scripts/analyze_qwen35_known_law.py:259-268 | reordering the seeds leaves the interval unchanged |
| SeedBlocks.SummaryNeedsSeeds | scripts/analyze_qwen35_known_law.py:282-299 | a summary is made exactly when the seed blocks are those of the registered seeds |
| SeedBlocks.SummaryReports | scripts/analyze_qwen35_known_law.py:290-299 | the summary lists every registered seed with its value, and reports the mean of those values, with their interval and their p-value |
| SeedBlocks.SummaryOfReordered | scripts/analyze_qwen35_known_law.py:282-299 | the registered order of the seeds changes only the listing |
| SeedBlocks.SummaryRises | scripts/analyze_qwen35_known_law.py:282-299 | raising one seed's value raises the mean strictly and lowers neither end of the interval |
| SeedBlocks.SummaryInRange | scripts/analyze_qwen35_known_law.py:282-299 | for the registered seeds the summary exists, its mean and interval stay in the data's range, and its p-value is a positive even number of 2^n-ths, at most one |
| SeedBlocks.NegatedSummary | scripts/analyze_qwen35_known_law.py:282-299 | reversing a contrast negates the mean, mirrors the interval and keeps the p-value |
| SeedBlocks.PoolReports | scripts/analyze_qwen35_known_law.py:330-331 | pooling keeps the registered seeds and gives each the mean of its own values over the strata |
| SeedBlocks.PooledMeanIsMeanOfStrata | scripts/analyze_qwen35_known_law.py:330-331 | the mean of the pooled seed values is the mean of the stratum means |
| PersistentEvents.ClassifyPhase | paper/forkworld-current-results/e15_analysis.py:984-995 | the phase is pure for a goal exactly when that goal passes both thresholds and leads both score sets by the margin |
| PersistentEvents.PersistentEvent | paper/forkworld-current-results/e15_analysis.py:1140-1161 | the scan returns the event of the first two flags in a row, with its bounds and censoring, or the right-censored event, and the source's two refusals |
| PersistentEvents.EventIsBracketed | paper/forkworld-current-results/e15_analysis.py:1147-1161 | an observed event lies at the first checkpoint where two flags in a row hold, and its lower bound is the checkpoint before it, where the flag failed; unobserved means that no two in a row hold |
| PersistentEvents.EventIsAntitone | paper/forkworld-current-results/e15_analysis.py:1140-1161 | flags implied by others fire no later |
| PersistentEvents.PureNeedsBehaviorAndCausal | paper/forkworld-current-results/e15_analysis.py:1250-1264 | on every run an observed pure event forces observed behavior and causal events at or before it |
| PersistentEvents.RelationNamesTheEarlier | paper/forkworld-current-results/e15_analysis.py:1268-1289 | two events on one grid are unresolved exactly when their checkpoints are at most one apart; otherwise the relation names the earlier; the lag is the difference of the two steps, with the matching sign |
| PersistentEvents.OrdersCompose | paper/forkworld-current-results/e15_analysis.py:1268-1289 | of three events on one grid, the lags add up, being before is transitive, and a censored outer pair has a censored inner one |
| PhaseEpisodes.Compress | paper/forkworld-current-results/e15_analysis.py:1164-1169 | the loop computes adjacent-duplicate compression |
| PhaseEpisodes.CompressedKeeps | paper/forkworld-current-results/e15_analysis.py:1164-1169 | compression keeps what occurs and the order of first occurrences and leaves no equal neighbours |
| PhaseEpisodes.CompressedFixed | paper/forkworld-current-results/e15_analysis.py:1164-1169 | compression leaves a sequence unchanged exactly when no neighbours are equal, so compressing twice is compressing once |
| PhaseEpisodes.CompressedPlaces | paper/forkworld-current-results/e15_analysis.py:1164-1169 | compression keeps exactly the places that differ from their predecessor, in order |
| PhaseEpisodes.PersistentGoalEpisodes | paper/forkworld-current-results/e15_analysis.py:1172-1184 | the nested scans return the compressed phases and the compressed goals of the maximal runs that persist |
| PhaseEpisodes.EpisodesPlaces | paper/forkworld-current-results/e15_analysis.py:1174-1182 | the episodes are the goals at exactly the starts of maximal runs of at least two, in order |
| PhaseEpisodes.EpisodesAgree | paper/forkworld-current-results/e15_analysis.py:1172-1184 | a goal has a persistent episode exactly when it has a first persistent pair, and episodes first occur in the order of those pairs |
| PhaseEpisodes.CycleIsRepetition | paper/forkworld-current-results/e15_analysis.py:1297-1299 | the cycle scan fires exactly when the goal sequence is longer than its number of distinct goals, hence on any sequence longer than three |
| PhaseEpisodes.RunEventRow | paper/forkworld-current-results/e15_analysis.py:1214-1299 | the row exists exactly when the checkpoints are the frozen grid and every calibration step is present; each of a goal's six events fires at the first two checkpoints in a row whose scores pass its thresholds; each of the three orders has the relation of the first places and the difference of the steps as lag, with additive lags; a goal is in the sequence exactly when its pure event is observed, with behavior and causal events no later; first appearances follow the pure event steps; the cycle flag and counts agree |
| KaplanMeier.KaplanMeierCdf | paper/forkworld-current-results/analysis_and_plots.py:193-213 | unequal lengths are refused; the plot has one step per distinct time of an observed event, where the share without event shrinks by the failing subjects over those still in, and both end points; the CDF starts at 0, never falls, lies in [0, 1] and never exceeds the product-limit CDF |
| KaplanMeier.PlotOfAllObserved | paper/forkworld-current-results/analysis_and_plots.py:193-213 | when every event is observed, the plot after each time is the share of subjects with a time up to it |
| KaplanMeier.PlotStaysZero | paper/forkworld-current-results/analysis_and_plots.py:193-213 | the last point is zero exactly when no event is observed |
| KaplanMeier.RiskAtEvent | paper/forkworld-current-results/analysis_and_plots.py:203-210 | at every event time the loop's risk is at least the textbook risk and that at least the number of events; the risks are equal exactly when no row was censored between earlier event times |
| KaplanMeier.PlotIsProductLimit | paper/forkworld-current-results/analysis_and_plots.py:193-213 | after each event time the plot equals the product-limit estimate exactly when no row has strayed before it |
| KaplanMeier.WholePlotIsProductLimit | paper/forkworld-current-results/analysis_and_plots.py:193-213 | the whole plot is the product-limit curve exactly when no row strays before the last event |
| KaplanMeier.StrayExample | paper/forkworld-current-results/analysis_and_plots.py:203-210 | one censored and one later event: survival one half in the plot, zero in the estimator |
| KaplanMeier.LateCensoringIsEmpirical | paper/forkworld-current-results/analysis_and_plots.py:193-213 | with all censoring at or after the last event, the CDF is the number of events so far over the sample size |
| KaplanMeier.KaplanMeierCurve | src/forkworld/analysis.py:416-453 | no estimate exactly when no time is finite; otherwise one point per distinct finite time with its numbers of events and censorings, and a survival that shrinks by the events over the subjects that last; at event times it depends on the event times alone; survival is at most one half exactly from the reported median on |
| PairingAudit.AuditArm | paper/forkworld-current-results/e16_analysis.py:1521-1601 | an arm has no finding exactly when its six counts agree in metadata and run metrics, and its marginals, fixed arrays, change masks, overlaps, nesting and both Hamming distances are as designed; a missing metric is refused |
| PairingAudit.AuditSeed | paper/forkworld-current-results/e16_analysis.py:1499-1604 | the audit of a seed refuses a missing baseline, and reports nothing exactly when the baseline is the legacy one in its training and IID arrays and every arm passes against it and its predecessor |
| PairingAudit.DatasetPairingAudit | paper/forkworld-current-results/e16_analysis.py:1498-1604 | the audit of all seeds reports nothing exactly when every seed is accepted, and then all arms of every seed are paired |
| PairingAudit.PairIsAligned | paper/forkworld-current-results/e16_analysis.py:1578-1604 | any two accepted arms, not only neighbours, differ in exactly twice the count difference of Q goals, and the smaller one's changes and Q-only rows nest in the larger's, its shared rows the other way |
| PairingAudit.ArmIsSwap | paper/forkworld-current-results/e16_analysis.py:1565-1590 | an accepted arm's changed rows are the disjoint union of m shared errors that become P-only and m new Q-only errors; P errors and the Q error total stay those of the baseline |
| PairingAudit.CountsPassWhenTruthful | paper/forkworld-current-results/e16_analysis.py:1521-1542 | an arm with the design's error totals passes the six count comparisons exactly when metadata and metrics hold the sizes of its error masks |
| PairingAudit.SwappedArmPasses | paper/forkworld-current-results/e16_analysis.py:1521-1601 | the checks are complete: an arm with true records that swaps errors of a truthful baseline and follows its predecessor passes |
| PairingAudit.AcceptedWhenPaired | paper/forkworld-current-results/e16_analysis.py:1517-1604 | among truthful panels that change Q arrays only, the audit accepts exactly the paired ones |
| PairingAudit.Triangle | paper/forkworld-current-results/e16_analysis.py:1591-1601 | Hamming distances obey the triangle inequality, and equality nests the change sets |
| BundleBootstrap.MatchMembers | runs/goalzendo/g00f_bundle_bootstrap.py:136-145 | the member loop accepts exactly the manifests with safe, distinct, regular members of the two modes |
| BundleBootstrap.CheckNames | runs/goalzendo/g00f_bundle_bootstrap.py:158-161 | the archive's names pass exactly when they are safe, distinct and the manifest's paths plus the special name |
| BundleBootstrap.AcceptsExactly | runs/goalzendo/g00f_bundle_bootstrap.py:136-210 | the rename is reached exactly when the manifest is valid, controllers are bound, no step fails, and the archive records every listed file truthfully and the manifest, once each, under names that are safe and apart |
| BundleBootstrap.Disk.Extract | runs/goalzendo/g00f_bundle_bootstrap.py:166-213 | the guarded block either renames a complete tree into place or leaves no output; it succeeds exactly when every record is valid, no step fails and no two names collide; after a failure its temporary directory is gone, or, exactly when the ignored clean-up fails, left behind with nothing but starts of the archive's payloads |
| BundleBootstrap.Disk.Prepare | runs/goalzendo/g00f_bundle_bootstrap.py:136-245 | an output appears exactly when every check and step up to the rename succeeds, and it is then complete; a receipt file appears exactly when, besides, it can be created, so only beside a complete new output; it stays unfinished exactly when its writing fails; the call succeeds exactly when it is written and synchronised |
| BundleBootstrap.Disk.Record | runs/goalzendo/g00f_bundle_bootstrap.py:236-245 | the receipt is created exclusively, then written, then synchronised, and no failure removes it |
| BundleBootstrap.InstallationIsMadeOnce | runs/goalzendo/g00f_bundle_bootstrap.py:136-245 | after any number of runs from an empty disk, an output or a receipt, whole or unfinished, is the work of one run whose job was accepted and whose tree is complete |
| BundleBootstrap.OutputIsFinal | runs/goalzendo/g00f_bundle_bootstrap.py:163-164 | once a run has left an output, every later run fails and changes neither output nor receipt, so an unfinished receipt stays unfinished |
| BundleBootstrap.OneRunSucceeds | runs/goalzendo/g00f_bundle_bootstrap.py:163-245 | at most one run of any history succeeds, and its tree and receipt are what stays |
| BundleBootstrap.ExtractedIsComplete | runs/goalzendo/g00f_bundle_bootstrap.py:167-210 | the renamed tree maps exactly the listed paths and the payload manifest to the listed sizes, hashes and modes, and each controller's frozen path, unless it is the special file, to its authenticated hash |
| BundleBootstrap.EveryRowMatches | runs/goalzendo/g00f_bundle_bootstrap.py:175-186 | every manifest row is met exactly when the special file is not listed or its row is true of the manifest bytes |
| BundleBootstrap.SpecialRowIgnored | runs/goalzendo/g00f_bundle_bootstrap.py:175-186 | for any job, acceptance does not depend on the special row's size or mode, nor on its hash unless a controller is frozen there |
| BundleBootstrap.WrongSpecialRowAccepted | runs/goalzendo/g00f_bundle_bootstrap.py:175-186 | an accepted job that lists its special file stays accepted with a row that its extracted file contradicts |
| BundleBootstrap.SelfListingAccepted | runs/goalzendo/g00f_bundle_bootstrap.py:136-186 | such jobs exist for any manifest bytes, any hash function and any regular special row |
| Texts.NormalRelativePaths | runs/goalzendo/g00f_bundle_bootstrap.py:71-76 | the safe relative names are "." and the slash-separated paths whose segments are non-empty and neither "." nor ".." |
| ChecksumManifest.AdmittedPaths | scripts/verify_release.py:366-373 | the admitted paths are "." and the backslash-free paths of clean segments |
| ChecksumManifest.DigestsAreHex | scripts/verify_release.py:69-70 | a digest is exactly a text of 64 lower-case hexadecimal digits |
| ChecksumManifest.ManifestEntries | scripts/verify_release.py:1348-1371 | the parser accepts exactly the texts that the printer makes from non-empty lists of valid entries with distinct paths, and returns that list |
| ChecksumManifest.LineIsUnique | scripts/verify_release.py:70 | a line matches as the one entry that prints it, and as nothing else |
| ChecksumManifest.RenderIsInjective | scripts/verify_release.py:1348-1371 | two well-formed lists with the same text are equal |
| InquiryChain.CloseMeans | scripts/analyze_qwen35_hidden_law.py:179-181 | two numbers are consistent exactly when they differ by at most 1e-12, absolutely or as a share of the size of either |
| InquiryChain.ValidateQueries | scripts/analyze_qwen35_hidden_law.py:667-720 | the loop accepts exactly the chains with the designed start, unbroken non-increasing live counts down to the reported end, new options, matching records, consistent information and a close information fraction |
| InquiryChain.TruthfulInquiryAccepted | scripts/analyze_qwen35_hidden_law.py:667-750 | every truthful account is accepted: at most two turns that repeat their observations along one falling chain, with information reported to within 1e-12 |
| InquiryChain.ChainTelescopes | scripts/analyze_qwen35_hidden_law.py:678-718 | for chains of any length the before/after ratios multiply to start over the live count, exact information adds up to its logarithm, and reported bits stay within the tolerances |
| InquiryChain.FractionMeaning | scripts/analyze_qwen35_hidden_law.py:748-750 | the expected fraction lies in [0, 1], is zero exactly when nothing was eliminated and one exactly when one candidate is left |
| InquiryChain.AcceptedInquiry | scripts/analyze_qwen35_hidden_law.py:667-750 | an accepted episode has distinct options and falling live counts, and its realized bits add up to its information fraction times log2(start), up to the tolerances |
| EpisodeSummary.AggregateEpisodes | scripts/analyze_qwen35_hidden_law.py:985-1043 | aggregation refuses empty and mixed collections; otherwise each endpoint's mean is its own total over the episodes, each role's count and rate are those of its episodes, and each turn's rate and bit means are those of the episodes that reach it; the mean query count is the sum of the two reach rates, reach never rises, and the rule counts add up |
| EpisodeSummary.CheckBalance | scripts/analyze_qwen35_hidden_law.py:1418-1433 | the four counter comparisons pass exactly when evidence cells and formulas have n episodes each and families and operators 2n each |
| EpisodeSummary.PanelMeans | scripts/analyze_qwen35_hidden_law.py:1415-1461 | on a panel that passes the comparisons, every reported mean, role rate, reach rate and causal mean of all episodes is the equal-weight mean of those of the four evidence cells, of the two formula strata, of the two operators and of the four formulas |
| EpisodeSummary.BalancedMean | scripts/analyze_qwen35_hidden_law.py:1441-1461 | over cells of one size that cover the rows, the overall mean of any endpoint is the equal-weight mean of the cell means |

## Left out

- Isotonic.DecreasingIsotonic: floating-point rounding of pooled means; the blocks are exact reals.
- KaplanMeier.KaplanMeierCdf: the initial sort of the rows, since the loop only counts them.
- KaplanMeier.KaplanMeierCurve: times are integers, as in the plotted loop; a time that is not finite is an absent one.
- PersistentEvents.RelationNamesTheEarlier: grids that are not strictly increasing from a non-negative step; the frozen checkpoint grid is.
- PhaseEpisodes.RunEventRow: the sort of a run's rows by step, time shares, and the bridge and taxonomy fields, which are copies.
- PairingAudit.DatasetPairingAudit: the IID and diagnostic digests, codeword coverage and exposure of each arm after line 1604; the generator is represented by the layout it gives an arm.
- BundleBootstrap.Disk.Prepare: freeze, digest and controller authentication before line 136, symbolic links and the text of JSON; hashing is an arbitrary function and operating-system failures are an arbitrary predicate on steps.
- BundleBootstrap.ExtractedIsComplete: a controller frozen at the special file, whose hash is compared only with that file's manifest row.
- ChecksumManifest.ManifestEntries: UTF-8 decoding and the numbering inside error messages; an error carries its kind only.
- InquiryChain.ValidateQueries: view and READY-label checks of lines 721 to 747; `math.log2` is any function with the stated laws, whose existence is assumed.
- EpisodeSummary.PanelMeans: the turn-conditioned bit means, which are weighted by how many episodes reach the turn.
- Random bootstraps with NumPy generators, plotting, configuration loading, report assembly and command lines.
- Named Boolean signatures, pilot gates and policy-shape checks: finite tables and conjunctions of equalities.
- scripts/analyze_qwen35_evidence_geometry.py repeats the known-Law kernel, which is modelled once.
