# Verified models of build and rule-learning logic

This project models five algorithmic cores of the xlog repository and proves what their callers rely on.

- **Kernel build** (`crates/xlog-cuda/build.rs`). `KernelPool` is the worker pool as a state machine over
  single atomic actions, with reads of the failure flag that may be stale. `ArtifactCache` is the on-disk
  cache as a state machine over any number of builds, cut off between any two file operations.
  `KernelCompiler` is the class behind it, method by method, and `ArtifactKey` and `DependencyRule` are the
  hash, the key encoding and the Make-rule parser. Of a digest nothing is known but its length, so two or more
  further arguments can be mistaken for dependencies; `ArtifactKey.CountsApartIff` has the exact condition under
  which the encoding tells arguments and dependencies apart.
- **Intervals** (`maritime_convert.py`, `ceiling_probe.py`, `run_maritime_cv.py`). `IntervalAlgebra`,
  `SustainedRelation`, `IntervalCensus`, `SegmentRuns`, `MaritimeRows` and `FpDecomposition` prove that the sweeps,
  searches and run extractions compute what the definitions over single seconds and rows say.
- **Event Calculus** (`caviar_continuous.py`, `caviar_convert.py`, `ec_scorer.py`, the event part of
  `maritime_convert.py`). `EventCalculus` states targets, masks and inertia once for interleaved sequences;
  `PairRows`, `ContinuousEvents`, `WindowEvents` and `KeptFacts` are the pipelines.
- **Rule search** (`relational_search.py`, `theory_loop.py`, `scorer.py`). `PermutationNull` relates the fast
  permutation null to repeated k-fold scoring, `SequentialCovering` has the covering loop's conservation laws,
  `Scorer` the scores both refer to. `Lists` and `Orders` are shared by all.
- **Matching and dealing** (`audit_dump_vs_xml.py`, `run_caviar_cv.py`, `run_maritime_cv.py`). `TrajectoryMatch`,
  `EventAudit`, `SegmentFolds` and `PairFolds`.

Code that updates variables in loops is a method with a loop, proved against a function or predicate that
says what it computes; objects whose fields change are classes, fixed-size buffers written in place are arrays,
and growing or preallocated lists are sequences that the loops reassign. The compiler, SHA-256, path resolution,
the rule search behind `select_once`, random permutations and fold assignments are parameters.

Where the code and what its documentation says differ, the model follows the code:

- `_covers` is not wrong exactly on nested intervals (`examples/maritime_woled/ceiling_probe.py:51-53`):
  nesting with a common start does no harm. `IntervalCensus.CoversFailsIff` has the exact shape.
- With the default flag of `derive_ec_masks_continuous`, firing on a masked row is not always a no-op: a
  sequence that begins by holding is read differently. `EventCalculus.DefaultMasksHarmlessIff` has the condition.
- The fold checks of `stratified_pair_folds` do not keep a fold from staying empty when counts are zero.
  `PairFolds.EveryFoldUsedIff` has the condition.
- `dependency_paths` does not return every printed rule: two spellings of one path collapse, and a final
  newline after a backslash is taken for a continuation. `DependencyRule.ParsingInvertsPrintingIff` has the condition.
- `kfold_scores` adds a body's score once for each time the body is listed, the permutation null does not.
  `PermutationNull.SamplesArePoolMaximaIff` has the condition.

## Model

| member | source | states |
|---|---|---|
| KernelPool.InvariantKept | crates/xlog-cuda/build.rs:799-844 | every atomic step of main, of a worker or of the slot helper keeps the pool's invariant: modules started in order and accounted for once, slots conserved, one holder of the receiver mutex, panics exactly where something failed |
| KernelPool.InvariantStarts | crates/xlog-cuda/build.rs:780-803 | the pool starts in that invariant, with and without a job server, for any NUM_JOBS and any number of modules |
| KernelPool.CompiledAtMostOnce | crates/xlog-cuda/build.rs:819-843 | in every interleaving no index is claimed twice, no two threads compile the same module, and a module being compiled was neither published nor lost before |
| KernelPool.CompilesWithinSlots | crates/xlog-cuda/build.rs:788-835 | at any moment the modules being compiled number at most one (main's implicit slot) plus the Cargo slots held, and never more than NUM_JOBS |
| KernelPool.EveryRunEnds | crates/xlog-cuda/build.rs:799-844 | every run is finite: at most 4 steps per module and 9 per thread, whatever the scheduling, stale reads of `failed` and slot arrivals |
| KernelPool.NeverStuck | crates/xlog-cuda/build.rs:808-844 | until the result is returned some thread of the build itself can step, even if no slot ever arrives; waiting workers are let go once main has dropped the helper |
| KernelPool.MainIsNeverBlocked | crates/xlog-cuda/build.rs:836-843 | the main thread never waits for a slot, so an all-reused build finishes on its own |
| KernelPool.ResultIsComplete | crates/xlog-cuda/build.rs:799-862 | the result is an error exactly when a compilation, a slot acquisition or a thread start failed; otherwise every module was compiled exactly once and the result is, as a multiset, all modules' artifacts |
| KernelPool.SlotsComeBack | crates/xlog-cuda/build.rs:811-835 | when the result is returned every slot Cargo granted has been given back, also those still in the channel |
| KernelPool.CounterKept | crates/xlog-cuda/build.rs:819-823 | the shared counter passes the number of modules by at most one per finished thread, so fetch_add cannot wrap |
| ArtifactCache.InvariantKept | crates/xlog-cuda/build.rs:641-731 | every file operation of `compile_artifact`, every clean-up removal and a crash at any point keep the cache invariant for every artifact at once |
| ArtifactCache.FingerprintsTellTheTruth | crates/xlog-cuda/build.rs:684-730 | over any sequence of builds and crashes, a fingerprint next to an artifact records a key of which the artifact is the compiler's output, and its hash |
| ArtifactCache.ReuseEqualsRecompiling | crates/xlog-cuda/build.rs:686-696 | the reuse branch returns exactly what a recompile with the asked key would |
| ArtifactCache.FinishedIsReused | crates/xlog-cuda/build.rs:684-730 | while a job is finished, what is on disk passes the reuse test for its key |
| ArtifactCache.LaterBuildsReuse | crates/xlog-cuda/build.rs:684-730 | a finished artifact stays reusable through later builds, clean-ups and crashes as long as those builds expect it with the same key and can read it; every check of it in them ends in reuse |
| ArtifactCache.FinishedBuildIsExact | crates/xlog-cuda/build.rs:908-931 | when a build finishes, the artifact files are exactly the expected ones, each current and fingerprinted, and nothing obsolete or partial is left |
| ArtifactCache.OwnsItsFiles | crates/xlog-cuda/build.rs:922-926 | the clean-up's suffix stripping attributes to an artifact exactly its four files, so no two artifacts share one |
| ArtifactCache.MatchesIff | crates/xlog-cuda/build.rs:686-691 | the reuse test holds if and only if the fingerprint file is exactly key and hash of a non-empty artifact |
| ArtifactCache.OneByteCorruptionIsNoticed | crates/xlog-cuda/build.rs:686-691 | an artifact with one byte changed is never reused, under any key |
| ArtifactCache.ModulesShareNothing | crates/xlog-cuda/build.rs:733-760 | different modules have no artifact name in common, so threads never write the same file |
| KernelCompiler.Kernels.CompileArtifact | crates/xlog-cuda/build.rs:684-730 | reuses or recompiles: result, counters and the whole directory afterwards, also after a failed compilation; coherent after each single file operation; other artifacts untouched |
| KernelCompiler.Kernels.InputDigest | crates/xlog-cuda/build.rs:543-553 | a file is read once; the memo grows by its digest only |
| KernelCompiler.Kernels.InputKey | crates/xlog-cuda/build.rs:664-683 | the key is the digest of the length-prefixed fields in order, with the memoised digests of the dependencies; refused iff some path has neither a memoised digest nor a readable file |
| KernelCompiler.Kernels.RemoveObsoleteFiles | crates/xlog-cuda/build.rs:922-931 | whatever order the directory is listed in, exactly the obsolete files are removed |
| KernelCompiler.MemoEqualsReading | crates/xlog-cuda/build.rs:543-553 | as long as files do not change, the memo gives what reading every file would |
| KernelCompiler.EqualKeysMeanEqualInputs | crates/xlog-cuda/build.rs:664-683 | unless two hashed strings collide, equal keys mean equal phase, arguments, PTX version, paths, and contents of every dependency, for argument counts at most one apart or equal dependency counts |
| ArtifactKey.ComputeFnv1a64 | crates/xlog-cuda/build.rs:164-171 | the loop computes the FNV-1a-64 fold of the bytes with 64-bit wrap-around |
| ArtifactKey.StepIsBijection | crates/xlog-cuda/build.rs:164-171 | for every byte, a hash step is a bijection of the 64-bit state |
| ArtifactKey.OneByteChangesHash | crates/xlog-cuda/build.rs:164-171 | equal-length strings that differ in exactly one byte have different hashes |
| ArtifactKey.FieldPrefix | crates/xlog-cuda/build.rs:464-467 | a length-prefixed field can be read off a stream in one way only |
| ArtifactKey.PreimageInjective | crates/xlog-cuda/build.rs:666-682 | for a fixed argument count and portable flag the key preimage determines phase, arguments, PTX version and the dependency list |
| ArtifactKey.SharedPreimageIff | crates/xlog-cuda/build.rs:666-682 | exactly which inputs of a build share a preimage: one has further dependencies in front of the other's, and their bytes read as the other's further arguments |
| ArtifactKey.SameDependencyCount | crates/xlog-cuda/build.rs:660-682 | with equally many dependencies, one for the assembler, equal preimages mean equal inputs whatever the numbers of arguments |
| ArtifactKey.OneMoreArgument | crates/xlog-cuda/build.rs:666-682 | inputs whose numbers of arguments differ by one never share a preimage |
| ArtifactKey.ArgumentCountMatters | crates/xlog-cuda/build.rs:666-682 | two or more further arguments, after any common ones and with or without the portable field: two inputs that a build can come by share a preimage |
| ArtifactKey.CountsApartIff | crates/xlog-cuda/build.rs:666-682 | preimages tell inputs with m arguments from those with n, and determine them, iff m and n differ by at most one |
| DependencyRule.ParseDependencies | crates/xlog-cuda/build.rs:495-525 | the scanning loop collects the set of paths, or returns the error, of the rule's declarative reading |
| DependencyRule.ListDependencies | crates/xlog-cuda/build.rs:502-527 | the paths come strictly ascending by their components, and exactly those of the set |
| DependencyRule.ListIsUnique | crates/xlog-cuda/build.rs:502-527 | so the list is determined by the set, and has each path once |
| DependencyRule.PrintedRuleIsRead | crates/xlog-cuda/build.rs:495-526 | a printed rule is read back as its paths, in every mix of spaces and continuations |
| DependencyRule.ParsingInvertsPrintingIff | crates/xlog-cuda/build.rs:495-526 | parsing returns exactly the printed paths if and only if no two of them are the same path to the standard library and a final newline does not follow a backslash |
| DependencyRule.NewlineAfterBackslashIsRefused | crates/xlog-cuda/build.rs:495-526 | when a final newline follows a path ending in a backslash, the rule is refused |
| DependencyRule.DoubledSlashIsDropped | crates/xlog-cuda/build.rs:495-526 | a printed set of two spellings of one path comes back with one of them |
| IntervalAlgebra.MergeSorted | examples/maritime_woled/maritime_convert.py:237-248 | sorted intervals become the strictly separated intervals with the same seconds, the maximal components |
| IntervalAlgebra.SeparatedIsUnique | examples/maritime_woled/maritime_convert.py:237-248 | a set of seconds has only one strictly separated list |
| IntervalAlgebra.BisectRight | examples/maritime_woled/maritime_convert.py:357-358 | the binary search finds where the starts pass a second |
| IntervalAlgebra.Covers | examples/maritime_woled/maritime_convert.py:351-363 | the answer is whether the last interval starting by then has the second; on disjoint intervals, whether any has it |
| IntervalAlgebra.IntersectSorted | examples/maritime_woled/maritime_convert.py:366-380 | two separated lists intersect to the separated list of the seconds in both |
| IntervalAlgebra.CutOne | examples/maritime_woled/maritime_convert.py:389-402 | cutting one interval appends its parts outside the other list, in order |
| IntervalAlgebra.SubtractSorted | examples/maritime_woled/maritime_convert.py:383-403 | separated lists subtract to the separated list of the seconds in the first only |
| SustainedRelation.MergeUnion | examples/maritime_woled/maritime_convert.py:463-478 | merging two lists covers the seconds of either |
| SustainedRelation.SustainedIntervals | examples/maritime_woled/maritime_convert.py:572-583 | the duration filter on components keeps exactly the seconds of qualifying windows |
| SustainedRelation.LongComponentIsWindow | examples/maritime_woled/maritime_convert.py:572-583 | a second lies in a component of 240 s or more iff it lies in some window of 240 s that qualifies throughout |
| SustainedRelation.SustainedRows | examples/maritime_woled/maritime_convert.py:633-634 | a row is in `sustained_240` iff a window of at least 240 s around its time is covered by proximity and both vessels' low-or-stopped, and free of both vessels' ports and coast |
| IntervalCensus.CensusOneList | examples/maritime_woled/ceiling_probe.py:176-229 | the one-pass heap sweep returns the counts of the quadratic definitions: strictly nested, overlapping, duplicates; the examples are the first nested ones in sweep order |
| IntervalCensus.PopExpired | examples/maritime_woled/ceiling_probe.py:219-220 | the heap keeps exactly the seen intervals that reach past the current start |
| IntervalCensus.MarkOverlaps | examples/maritime_woled/ceiling_probe.py:221-223 | exactly the active intervals and the current one get flagged |
| IntervalCensus.CoversFailsIff | examples/maritime_woled/ceiling_probe.py:48-55 | `_covers` misses a second on an unmerged sorted list iff some interval reaches past the end of a later-starting one with nothing covering the gap |
| IntervalCensus.NoNestingMeansCoversIsExact | examples/maritime_woled/ceiling_probe.py:48-55 | a zero nesting census does bound the impact to zero |
| IntervalCensus.SameStartNestingIsHarmless | examples/maritime_woled/ceiling_probe.py:51-53 | but nesting is not exactly the mishandled shape: nesting with the same start is handled |
| Scorer.Prf1 | examples/caviar_woled/scorer.py:65-119 | precision, recall, F1 and the four counts; the counts add up to the rows; degenerate iff there is no true positive |
| Scorer.F1IsDice | examples/caviar_woled/scorer.py:101-107 | F1 is 2tp/(2tp+fp+fn), within 0 and 1, and 1 exactly for a faultless prediction with a hit |
| Scorer.TheoryPredictions | examples/caviar_woled/scorer.py:130-154 | a pair-time is predicted iff some clause fires on it |
| EventCalculus.InertiaIsClosure | examples/caviar_woled/ec_scorer.py:86-96 | the fluent holds at a row iff an initiation at or before it in its sequence has not been terminated since |
| EventCalculus.UnmaskedAgreementRestoresGold | examples/caviar_woled/caviar_continuous.py:764-783 | with first-observed holding counted, every prediction that agrees with the targets off the masks reconstructs the labels |
| EventCalculus.TargetsRestoreGold | examples/caviar_woled/caviar_continuous.py:617-632 | the targets themselves reconstruct the labels |
| EventCalculus.FlippedInitMatters | examples/caviar_woled/caviar_continuous.py:764-783 | flipping one initiation cell changes the reconstruction iff the cell is not don't-care |
| EventCalculus.FlippedTermMatters | examples/caviar_woled/caviar_continuous.py:764-783 | flipping one termination cell changes it iff the cell is neither don't-care nor at an initiation |
| EventCalculus.DefaultAgreement | examples/caviar_woled/caviar_continuous.py:644-791 | with the default flag, agreement off the masks restores every row but those of a leading holding run that is never initiated |
| EventCalculus.DefaultTargetsDropLeadingRun | examples/caviar_woled/caviar_continuous.py:617-641 | with the default flag, reconstructing from the derived events gives the labels except that each sequence's leading holding run reads False |
| EventCalculus.DefaultMasksHarmlessIff | examples/caviar_woled/caviar_continuous.py:676-733 | with the default flag the masks are harmless to every agreeing prediction iff no sequence begins by holding |
| EventCalculus.FiringOnMaskedRowIsRead | examples/caviar_woled/caviar_continuous.py:717-727 | for one row that holds: its initiation cell is masked, and firing on it changes what is reconstructed |
| EventCalculus.EventsTelescope | examples/caviar_woled/caviar_continuous.py:617-641 | per sequence, real initiations minus terminations is last holds minus first holds |
| PairRows.RowsOrdered | examples/caviar_woled/caviar_continuous.py:274-288 | pair rows come out strictly ascending by segment, time and the two person numbers, the smaller first |
| PairRows.SamePairTimeIncreases | examples/caviar_woled/caviar_continuous.py:274-288 | rows of one pair in one segment have increasing times |
| PairRows.ConvertRows | examples/caviar_woled/caviar_continuous.py:359-475 | the pass with its per-pair memory puts a row in each of the 13 relations iff the comparison with its predecessor in the same segment and pair says so |
| PairRows.ConvertContinuous | examples/caviar_woled/caviar_continuous.py:296-488 | the same for whole segments and a real distance threshold, compared on squares |
| PairRows.EnteredIffBelongs | examples/caviar_woled/caviar_continuous.py:389-462 | one turn of the pass enters exactly the relations the row belongs to |
| PairRows.GroupRows | examples/caviar_woled/caviar_continuous.py:491-523 | groups partition 0..num_pt-1 into ascending lists by segment and pair; any other number of rows is an error |
| ContinuousEvents.DeriveTargets | examples/caviar_woled/caviar_continuous.py:526-641 | the derived lists and counts are the events of each group, for both flag values and any order of groups |
| ContinuousEvents.DeriveMasks | examples/caviar_woled/caviar_continuous.py:644-791 | the derived masks and their counts are those of the don't-care cells, for both flag values |
| ContinuousEvents.ReconstructHolds | examples/caviar_woled/caviar_continuous.py:794-832 | the state machine run group by group computes inertia for the interleaved rows |
| ContinuousEvents.MaskedRoundTrip | examples/caviar_woled/caviar_continuous.py:764-832 | labels to targets and masks, any prediction equal to the targets off the masks, the state machine on it: the labels come back |
| ContinuousEvents.JudgedRestores | examples/caviar_woled/caviar_continuous.py:764-832 | a prediction equals the targets wherever the masks do not hide them iff it agrees on the judged rows, and then it reconstructs the labels |
| KeptFacts.ExcludeDontCare | examples/caviar_woled/run_caviar_cv.py:493-505 | the unflagged facts and labels, in order, up to the shortest list |
| KeptFacts.FaultlessOnKeptRestoresGold | examples/caviar_woled/run_caviar_cv.py:493-505 | theories without an error on the kept facts reconstruct the fluent on all rows |
| WindowEvents.DeriveEcTargets | examples/caviar_woled/caviar_convert.py:273-327 | windowed events of the label sequence, their counts, and exactly the refused inputs |
| WindowEvents.ReconstructWindows | examples/caviar_woled/ec_scorer.py:53-96 | inertia within each window, also in closed form, and exactly the refused lengths |
| WindowEvents.WindowRoundTrip | examples/caviar_woled/caviar_convert.py:310-327 | the windowed targets are the events of the labels, and the state machine on them returns the labels |
| SegmentRuns.RunsAreMaximal | examples/maritime_woled/run_maritime_cv.py:220-236 | the runs of a list are its maximal True runs, left to right |
| SegmentRuns.MaximalRunIsListed | examples/maritime_woled/run_maritime_cv.py:220-236 | no maximal run is missing |
| SegmentRuns.Runs | examples/maritime_woled/run_maritime_cv.py:220-236 | runs are taken segment by segment and never bridge a boundary |
| SegmentRuns.IntervalPrf1 | examples/maritime_woled/run_maritime_cv.py:239-263 | interval counts and ratios; the counts are sums over segments |
| SegmentRuns.MatchedIffTouches | examples/maritime_woled/run_maritime_cv.py:247-254 | an interval has an overlapping partner iff the other list is True somewhere inside it |
| SegmentRuns.FoldPtIndices | examples/maritime_woled/run_maritime_cv.py:201-210 | a fold's test and train rows, ascending and complementary |
| SegmentRuns.TestSegmentBounds | examples/maritime_woled/run_maritime_cv.py:266-277 | each test segment lands at consecutive local positions |
| SegmentRuns.SliceOfSegment | examples/maritime_woled/run_maritime_cv.py:266-277 | the local slice of a test segment is its slice of the corpus |
| SegmentRuns.LocalEqualsGlobal | examples/maritime_woled/run_maritime_cv.py:266-277 | any per-segment measure is the same in local and in corpus coordinates |
| SegmentRuns.FoldScoresAddUp | examples/maritime_woled/run_maritime_cv.py:201-277 | gold, matched gold, predicted and matched predicted interval counts, summed over all folds, are those of the corpus |
| MaritimeRows.SplitEpisodes | examples/maritime_woled/maritime_convert.py:447-454 | the loop returns the episodes that partition the timepoints and are cut exactly at gaps of more than an hour |
| MaritimeRows.EpisodesAreSplit | examples/maritime_woled/maritime_convert.py:447-454 | those episodes do partition the timepoints and start exactly at the long gaps |
| MaritimeRows.EpisodesAreUnique | examples/maritime_woled/maritime_convert.py:447-454 | no other list of episodes does |
| MaritimeRows.RowEvents | examples/maritime_woled/maritime_convert.py:665-694 | one row's init/term labels and masks from the row before it in its episode |
| MaritimeRows.Convert | examples/maritime_woled/maritime_convert.py:590-694 | rows carry their own pair, time and gold flag in pair order; segments are each pair's own episodes shifted to its rows, so they partition the rows within pairs; every row is labelled from its predecessor in the segment |
| MaritimeRows.RowsMakeCorpus | examples/maritime_woled/maritime_convert.py:590-600 | so any fold assignment of pairs makes a valid corpus to cut |
| MaritimeRows.InlineLabelsAreEventTargets | examples/maritime_woled/maritime_convert.py:665-694 | the inline labels and masks are the event targets and masks of the segments |
| MaritimeRows.AgreementRestoresPositives | examples/maritime_woled/maritime_convert.py:665-694 | agreement off the inline masks reconstructs `is_positive` |
| FpDecomposition.DecomposeFalsePositives | examples/maritime_woled/ceiling_probe.py:122-173 | every false positive has exactly one cause, counted in the documented order; the total is the pointwise count; run counts are those of the maximal predicted runs |
| FpDecomposition.RunDurations | examples/maritime_woled/ceiling_probe.py:136-152 | every row of a predicted run is recorded with the duration of its own run |
| FpDecomposition.DurationOfRow | examples/maritime_woled/ceiling_probe.py:157-164 | no predicted row is missing, and it is in a short run iff its own run is short |
| PairFolds.LargestItemBoundsTheGap | examples/maritime_woled/run_maritime_cv.py:166-176 | greedy dealing keeps any two fold loads within the largest count |
| PairFolds.WithinFourThirdsOfAny | examples/maritime_woled/run_maritime_cv.py:164-182 | no fold load exceeds (4/3 - 1/(3n)) times the maximum of any assignment |
| PairFolds.EveryFoldUsedIff | examples/maritime_woled/run_maritime_cv.py:134-136 | with enough pairs every fold gets one iff the first n-1 counts in dealing order are positive |
| PairFolds.ZeroCountsLeaveAFoldEmpty | examples/maritime_woled/run_maritime_cv.py:134-156 | positive counts 5, 0, 0 pass the checks for three folds, whatever the negatives, and every dealing leaves a fold without a positive pair |
| PairFolds.DealtIsWellDealt | examples/maritime_woled/run_maritime_cv.py:164-182 | what the dealing produces is in range, balanced, near-optimal, and uses every fold under that exact condition |
| PairFolds.Deal | examples/maritime_woled/run_maritime_cv.py:166-176 | the in-place dealing writes only its own pairs and is well dealt |
| PairFolds.StratifiedPairFolds | examples/maritime_woled/run_maritime_cv.py:119-182 | both sides are well dealt; exactly the documented inputs are refused |
| SegmentFolds.SlotsDescend | examples/caviar_woled/run_caviar_cv.py:281-288 | round-robin slot loads never increase with the position, and differ by at most the largest count |
| SegmentFolds.RoundRobinIsBalanced | examples/caviar_woled/run_caviar_cv.py:281-288 | for any fold permutation and a partial last round: sizes within one, sums ordered along the permutation and within the largest count |
| SegmentFolds.StratifiedSegmentFolds | examples/caviar_woled/run_caviar_cv.py:219-288 | the function deals so, and refuses exactly the documented inputs |
| PermutationNull.CoverIsMembership | examples/caviar_woled/relational_search.py:98-116 | a fact is in a body's cover iff it is in every named relation |
| PermutationNull.EnumerateBodies | examples/caviar_woled/relational_search.py:58-95 | with the names listed in any order: the pool is exactly the ascending pairs, then the ascending triples, that cover something, in tuple order; those that cover nothing are counted by size |
| PermutationNull.PoolIsUnique | examples/caviar_woled/relational_search.py:58-95 | only one list is such a pool, and it has no body twice |
| PermutationNull.KfoldScores | examples/caviar_woled/relational_search.py:119-255 | a body's score is its mean accuracy over all folds, or its mean F1 over the folds with a positive, times the number of times it is listed; exactly which inputs are refused |
| PermutationNull.NothingIsMoreAccurateIff | examples/caviar_woled/relational_search.py:146-155 | in one fold, predicting nothing has the higher accuracy iff the false positives outnumber the true ones |
| PermutationNull.AccuracyPrefersNothing | examples/caviar_woled/relational_search.py:146-163 | where that is so in every fold of a body that finds something, mean accuracy ranks the empty prediction above the body and mean F1 below it |
| PermutationNull.SkippingKeepsRanking | examples/caviar_woled/relational_search.py:177-187 | counting folds without a positive as 0 instead of skipping them changes no ranking of two bodies |
| PermutationNull.ListF1IsSetF1 | examples/caviar_woled/relational_search.py:246-254 | `prf1` on a fold's lists is the F1 of set sizes |
| PermutationNull.PositivePositions | examples/caviar_woled/relational_search.py:402-417 | the inverse gather gives the positives of the reshuffled labels |
| PermutationNull.CountsFromSizes | examples/caviar_woled/relational_search.py:433-444 | the three counts follow from one intersection size |
| PermutationNull.PoolMaxSample | examples/caviar_woled/relational_search.py:419-448 | the set-size arithmetic gives the pool maximum of the mean F1, 0 when no fold is measurable |
| PermutationNull.SamplesArePoolMaximaIff | examples/caviar_woled/relational_search.py:383-448 | for every labelling, the sample is the maximum of `kfold_scores` on it, iff a body listed twice covers no fact |
| PermutationNull.EnumeratedSample | examples/caviar_woled/relational_search.py:383-448 | so on an enumerated pool every permutation's sample is that maximum |
| PermutationNull.PermutationNullThreshold | examples/caviar_woled/relational_search.py:289-463 | one sample per permutation, the quantiles of the sorted samples, and exactly the documented inputs refused |
| PermutationNull.QuantileSeparates | examples/caviar_woled/relational_search.py:273-286 | the interpolated quantile separates the samples at its index |
| SequentialCovering.InduceTheory | examples/caviar_woled/theory_loop.py:47-191 | every iteration is the search's answer on the residual of the clauses before it; the stop reason is the first that applies; at most `max_clauses` searches |
| SequentialCovering.CoverageIsConserved | examples/caviar_woled/theory_loop.py:148-185 | newly covered positives add up to the true positives of the clause union, residual positives are its false negatives |
| SequentialCovering.NegativesAreKept | examples/caviar_woled/theory_loop.py:174-184 | negatives are all kept, in order |
| SequentialCovering.DropCovered | examples/caviar_woled/theory_loop.py:174-184 | one covering step drops exactly the covered positives |
| SequentialCovering.InduceAndScore | examples/caviar_woled/theory_loop.py:120-191 | the theory is that of the loop and the scores are those of its own predictions; true positives are the newly covered counts in its log, false negatives the residual positives |
| TrajectoryMatch.BuildIndex | examples/caviar_woled/audit_dump_vs_xml.py:168-191 | the trajectory holds the last spot of each frame, the index every frame of each spot; another time base is refused |
| TrajectoryMatch.VotesAreAgreementsIff | examples/caviar_woled/audit_dump_vs_xml.py:210-226 | votes equal exact point agreements, for all points and hypotheses, iff no person is observed twice in one frame |
| TrajectoryMatch.GridHasOnePerFrame | examples/caviar_woled/audit_dump_vs_xml.py:186-190 | which coordinates on the 40 ms grid guarantee |
| TrajectoryMatch.CountVotes | examples/caviar_woled/audit_dump_vs_xml.py:209-212 | the counter holds every hypothesis' votes |
| TrajectoryMatch.MultiMatchPerson | examples/caviar_woled/audit_dump_vs_xml.py:194-231 | each accepted hypothesis has the most votes over what is left and enough points; peeling stops for one of the listed reasons |
| TrajectoryMatch.MatchesAreDisjoint | examples/caviar_woled/audit_dump_vs_xml.py:218-230 | accepted point sets are pairwise disjoint, inside the dump, and large enough |
| TrajectoryMatch.AcceptedIsBest | examples/caviar_woled/audit_dump_vs_xml.py:215-226 | each accepted hypothesis explains as many remaining points as any does |
| TrajectoryMatch.NothingLeftToAccept | examples/caviar_woled/audit_dump_vs_xml.py:205-231 | stopping before the last round means that no hypothesis explains enough of what is left |
| EventAudit.ClassifyEvents | examples/caviar_woled/audit_dump_vs_xml.py:322-341 | the verdicts match their definitions: unmatched, splice artifact, later copy, first claim; claims are listed in order |
| EventAudit.RealEventsCountClaims | examples/caviar_woled/audit_dump_vs_xml.py:327-343 | real events number the claimed ground-truth events, so no transition counts twice |
| EventAudit.AllClaimedIff | examples/caviar_woled/audit_dump_vs_xml.py:345-364 | nothing in the ground truth is unclaimed iff real events number the ground-truth events |

## Left out

- Floating point: ratios, means, quantiles and the distance threshold are real numbers, distances are compared as squared integers.
- The heap of `_census_one_list` is a sorted list; its internal layout beyond the least element is not modelled.
- DependencyRule.ListDependencies: paths are compared by Unix components; Windows path rules and invalid UTF-8 are not modelled.
- KernelPool: the job-server crate's helper thread is taken to exit some time after it is dropped; a slot delivered after `compile_kernels` has returned, poisoning of the result mutex by a failed allocation and the progress messages are not modelled.
- ArtifactCache: loss of written data at power failure, changes to the directory by other processes and to the sources during a build are not modelled; running the compiler and rewriting the PTX version are one phase that may leave any partial file.
- `compile_module`, `compiler_identity`, tool discovery, header staging and generated source text: they only assemble arguments and strings.
- ArtifactKey.CountsApartIff: strings and argument lists of 2^56 or more elements, which no memory holds, are left out.
- PermutationNull.KfoldScores: the drawing of folds and permutations is not part of this model; for an assignment with an empty fold the division by zero is an error.
- `select_body` and `induce_relational_theory`: they wrap `select_rule` and `holdout_fold_assignment`, which are not part of this model.
- SequentialCovering.InduceTheory: the `margin` copied into each log entry is not modelled.
- TrajectoryMatch.MultiMatchPerson: takes a non-negative number of rounds; `match_segments` and the choice of a cluster in `_map_event_to_xml` are not modelled.
- EventAudit.ClassifyEvents: takes the events in the visiting order, already mapped; the sort that produces the order is not modelled.
- PairRows.ConvertContinuous: persons are numbers and activities a data type, as the loader leaves them; coordinates come as integers.
- ContinuousEvents.DeriveTargets: the preallocated lists that the source writes at an index are sequences that the loops reassign, as in the masks and the reconstruction; aliasing is not modelled.
- MaritimeRows.Convert: pair selection, padding of timelines and relations other than `sustained_240` are not part of this model.
- Soft weights, neural initiation, detector probes, archive, XML and JSON parsing, command lines and result files.
