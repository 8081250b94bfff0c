# Bivariate screening (SCREEN_BIVAR.CPP) in Dafny

This project models the computational core of `screen_bivar`. The routine
screens every combination of two predictors and one target. For each
combination it computes mutual information or uncertainty reduction from
binned data. A Monte-Carlo permutation test (MCPT) then estimates how often
that value, or the best value over all combinations, is reached when the
targets are shuffled.

Modules, one file each:

- `Flat`: the flat layout the source uses everywhere. Block `v` of `n`
  entries sits at offset `v*n`. The module also holds sums and histograms,
  the in-place zeroing and increment of a region of counts, and
  "rearranged inside every block".
- `ContingencyTable`: the counting passes of `compute_mi` and
  `uncert_reduc`. The table of `nbins_pred^2 * nbins_target` counts is
  zeroed, then each case is counted into its cell. `uncert_reduc` also takes
  row marginals and their total.
- `Enumerator`: the combination index `icombo` and its triple
  `(ipred1 < ipred2, itarget)`. `Walk` is the source's nested-counter walk;
  `IndexToTriple` and `TripleToIndex` are a closed form. The two are proved
  to agree, and the mapping is proved to be a bijection onto the valid
  triples.
- `Scheduler`: `bivar_threaded` as a sequential state machine over worker
  slots. A worker runs to completion when it is dispatched. The slot each
  wait reports is an input. Ghost bookkeeping proves that every combination
  is harvested exactly once into `crit[icombo]`.
- `Shuffle`: the complete shuffle and the cyclic shuffle of the target bins.
  The random numbers are an input.
- `Marginals`: the integer marginal counts of every predictor and target.
- `Mcpt`: the `solo` / `bestof` counter update.
- `ScreenBivar`: the driver. It holds the ceiling on the number of
  combinations, the partition check, the replication loop and the report's
  reverse walk. It also holds the 32-bit overflow of `n_combo` (see
  Findings).

The C++ in SCREEN_BIVAR.CPP updates buffers in place. The model keeps those
buffers as `array`s, and the loops as `while`/`for` loops with invariants.
Each method is proved against a specification function of its inputs:
`Table`, `Histogram`, `RowSums`, `ShuffleFrom`, `Rotate`, `SoloStep`,
`BestofStep`, `AllCriteria` and `IndexToTriple`. Over all the replications the
counters are `SoloCounts` and `BestofCounts` of the criteria of the targets
each replication evaluated, and the `...Hits` lemmas say what they count.

## Model

| member | source | states |
|---|---|---|
| `Flat.HistogramSnoc` | SCREEN_BIVAR.CPP:61-64 | counting one more case raises exactly its own cell by one |
| `Flat.HistogramTotal` | SCREEN_BIVAR.CPP:61-64 | when every value is in range, the counts add up to the number of values |
| `Flat.ZeroRow` | SCREEN_BIVAR.CPP:53-55 | a run of counts set to zero; every entry outside the run is unchanged |
| `Flat.Increment` | SCREEN_BIVAR.CPP:63 | `++counts[base+cell]`: the region equals its old contents with that one cell raised by one; nothing else changes |
| `Flat.BlocksPermutedWhole` | SCREEN_BIVAR.CPP:724-740 | rearranging inside every target's block rearranges the whole buffer (same multiset) |
| `Flat.BlocksPermutedTrans` | SCREEN_BIVAR.CPP:706-744 | shuffles in successive replications compose: the targets stay a per-block rearrangement of the originals |
| `ContingencyTable.CellInRange` | SCREEN_BIVAR.CPP:62-63 | a case with in-range bins lands inside the table of `nbins_pred^2 * nbins_target` cells |
| `ContingencyTable.CellInjective` | SCREEN_BIVAR.CPP:62-63 | distinct bin triples land in distinct cells |
| `ContingencyTable.TableCell` | SCREEN_BIVAR.CPP:59-64 | cell `(b1*nbins_pred+b2)*nbins_target+bt` holds exactly the number of cases with bins b1, b2, bt |
| `ContingencyTable.TableTotal` | SCREEN_BIVAR.CPP:59-64 | the table's cells add up to `ncases` |
| `ContingencyTable.RowSumsIncrement` | SCREEN_BIVAR.CPP:130-142 | one more count in cell (row, col) adds one to that row's sum and to no other |
| `ContingencyTable.RowSumsSnoc` | SCREEN_BIVAR.CPP:128-140 | counting one more case into its cell keeps "the row sums are the histogram of joint predictor bins" |
| `ContingencyTable.RowSumsOfCells` | SCREEN_BIVAR.CPP:128-140 | the row sums of the counted table are the histogram of the joint predictor bins `b1*nbins_pred+b2` |
| `ContingencyTable.RowMarginal` | SCREEN_BIVAR.CPP:135-142 | `rmarg` is the histogram of joint predictor bins, and `total` equals `ncases` |
| `ContingencyTable.ZeroTable` | SCREEN_BIVAR.CPP:49-56 | the table region is all zeros; nothing outside it changes |
| `ContingencyTable.CountCells` | SCREEN_BIVAR.CPP:59-64 | starting from zeros, the region ends as `Table` of the three bin streams; nothing outside it changes |
| `ContingencyTable.FillTable` | SCREEN_BIVAR.CPP:49-64 | whatever the buffer held, the slot's region ends as `Table`; nothing outside it changes |
| `ContingencyTable.ComputeMi` | SCREEN_BIVAR.CPP:35-89 | the result is the mutual-information numerics applied to the counted table |
| `ContingencyTable.SumRowInto` | SCREEN_BIVAR.CPP:138-140 | `rmarg[r]` is the sum of the row; no other `rmarg` entry changes |
| `ContingencyTable.RowMarginals` | SCREEN_BIVAR.CPP:135-142 | `rmarg` holds every row sum and `total` their sum |
| `ContingencyTable.UncertReduc` | SCREEN_BIVAR.CPP:100-185 | the table is `Table`, `rmarg` is the joint-bin histogram, and the result is the uncertainty-reduction numerics on them |
| `Enumerator.NComboIsPairsTimesTargets` | SCREEN_BIVAR.CPP:307 | `npred*(npred-1)/2*ntarget` equals the number of predictor pairs times `ntarget`, and is never negative |
| `Enumerator.UnrankPairRank` | SCREEN_BIVAR.CPP:356-367 | the pair at position p of the walk's rows is an ordered pair whose rank is p |
| `Enumerator.PairRankInjective` | SCREEN_BIVAR.CPP:356-367 | two ordered pairs with the same rank in the walk are equal |
| `Enumerator.TripleToIndexBound` | SCREEN_BIVAR.CPP:296-297 | every valid triple has an index in `0 .. n_combo-1` |
| `Enumerator.IndexToTripleInverse` | SCREEN_BIVAR.CPP:296-297 | every index below `n_combo` names a valid triple whose index is that index |
| `Enumerator.TripleToIndexInjective` | SCREEN_BIVAR.CPP:296-297 | two valid triples with the same index are equal |
| `Enumerator.IndexToTripleInjective` | SCREEN_BIVAR.CPP:296-297 | distinct indices name distinct triples |
| `Enumerator.EveryTripleExactlyOnce` | SCREEN_BIVAR.CPP:296-297 | every valid triple is named by exactly one index below `n_combo` |
| `Enumerator.AdvanceRank` | SCREEN_BIVAR.CPP:356-367 | one step of the counters moves a valid triple to the next index, unless it is the last |
| `Enumerator.AdvanceAgrees` | SCREEN_BIVAR.CPP:356-367 | advancing the triple of index k gives the triple of k+1 |
| `Enumerator.WalkAgrees` | SCREEN_BIVAR.CPP:305-367 | after k steps the walk, which starts at (0, 1, 0), is at `IndexToTriple(k)`, a valid triple |
| `Scheduler.ComboBlocks` | SCREEN_BIVAR.CPP:339-342 | the blocks handed to a worker lie inside the buffers, hold in-range bins, and give that combination's criterion |
| `Scheduler.EvaluateCombo` | SCREEN_BIVAR.CPP:212-240 | the worker returns `compute_mi` for `which == 1` and otherwise the column-dependent ratio of `uncert_reduc`; it writes only its slot's regions |
| `Scheduler.SlotBase` | SCREEN_BIVAR.CPP:288-289 | slot k's private region starts at `k*size` and fits in `max_threads*size` |
| `Scheduler.StartWorker` | SCREEN_BIVAR.CPP:333-343 | the worker started on combination `icombo` in slot k computes `ComboCriterion(icombo)` |
| `Scheduler.AllCriteriaAt` | SCREEN_BIVAR.CPP:387 | entry k of the wanted `crit` is the criterion of combination k |
| `Scheduler.DispatchStep` | SCREEN_BIVAR.CPP:333-356 | handing the next combination to a free slot keeps the bookkeeping |
| `Scheduler.HarvestStep` | SCREEN_BIVAR.CPP:387 | storing a running slot's result and freeing it keeps the bookkeeping; no combination is harvested twice |
| `Scheduler.AllHarvested` | SCREEN_BIVAR.CPP:413-417 | once everything is dispatched and no slot runs, every combination has been harvested and `crit` is the wanted vector |
| `Scheduler.WaitOneFails` | SCREEN_BIVAR.CPP:380-385 | a wait-for-one that reports no running slot makes the whole run fail |
| `Scheduler.LaunchStep` | SCREEN_BIVAR.CPP:333-367 | dispatching takes the loop from its top to the state after dispatch |
| `Scheduler.NothingToLaunch` | SCREEN_BIVAR.CPP:333-372 | with every combination dispatched, the loop passes dispatch with nothing started |
| `Scheduler.Dispatch` | SCREEN_BIVAR.CPP:333-367 | slot k, the next unused one or the one just emptied, gets the combination and its criterion and is marked running; the counters move to `Walk(icombo+1)` |
| `Scheduler.Launch` | SCREEN_BIVAR.CPP:333-369 | the dispatch step; `icombo` advances exactly when work is left |
| `Scheduler.Harvest` | SCREEN_BIVAR.CPP:387-398 | the reported slot's criterion is stored at its combination's entry and the slot becomes the empty slot |
| `Scheduler.Drain` | SCREEN_BIVAR.CPP:405-418 | the running slots `0 .. n_threads-1` are harvested; `crit` then holds every wanted criterion |
| `Scheduler.Await` | SCREEN_BIVAR.CPP:371-418 | goes back to the top without waiting while an unused slot and work remain; otherwise waits, harvests or drains, freeing only the reported slot; fails exactly when the reported slot is not running |
| `Scheduler.Round` | SCREEN_BIVAR.CPP:310-419 | one pass of the loop: it fails, finishes, or dispatches exactly one more combination with the bookkeeping kept |
| `Scheduler.BivarThreaded` | SCREEN_BIVAR.CPP:300-421 | fails iff some wait reports a slot that is not running; every stored result is its combination's criterion; on success every combination is harvested once and `crit` is `AllCriteria` |
| `Marginals.ZeroBlock` | SCREEN_BIVAR.CPP:639-640 | variable v's block of the marginal is zero; the other blocks are unchanged |
| `Marginals.CountBlock` | SCREEN_BIVAR.CPP:641-642 | variable v's block ends as the histogram of its bins; the other blocks are unchanged |
| `Marginals.CountStep` | SCREEN_BIVAR.CPP:638-643 | finishing variable k extends "counted" from the first k variables to the first k+1 |
| `Marginals.CountMarginals` | SCREEN_BIVAR.CPP:638-655 | every variable's block of the marginal is the histogram of that variable's bins |
| `Marginals.MarginalTotal` | SCREEN_BIVAR.CPP:645-660 | each variable's counts add up to `n_cases`, so dividing by `n_cases` gives a distribution |
| `Marginals.ShuffleKeepsMarginals` | SCREEN_BIVAR.CPP:650-660 | the target marginals counted once stay valid for targets shuffled inside their blocks |
| `Mcpt.MaxOf` | SCREEN_BIVAR.CPP:780-781 | the best criterion is one of the criteria |
| `Mcpt.MaxOfIsUpperBound` | SCREEN_BIVAR.CPP:780-781 | no criterion exceeds the best one |
| `Mcpt.MaxOfSnoc` | SCREEN_BIVAR.CPP:780-781 | the running `best_crit` update computes the maximum of the prefix |
| `Mcpt.McptStart` | SCREEN_BIVAR.CPP:783-787 | after replication 0 (all counters 1) the counter invariant holds with 1 replication |
| `Mcpt.McptStep` | SCREEN_BIVAR.CPP:789-803 | whatever a permuted replication's criteria, the counters keep `1 <= solo <= bestof <= reps`, and `bestof` never grows as the original criterion grows |
| `Mcpt.Record` | SCREEN_BIVAR.CPP:784 | `original_crits` and `sorted_crits` receive the combination's criterion |
| `Mcpt.ResetCounters` | SCREEN_BIVAR.CPP:785-786 | `index[icombo] = icombo`, and both counters set to 1 |
| `Mcpt.RecordOriginal` | SCREEN_BIVAR.CPP:778-787 | replication 0 copies `crit`, makes `index` the identity and both counters 1; the returned best is the maximum |
| `Mcpt.CountSolo` | SCREEN_BIVAR.CPP:778-792 | `solo` is `SoloStep`: raised exactly where the criterion reaches the original; the returned best is the maximum |
| `Mcpt.CountBestof` | SCREEN_BIVAR.CPP:798-803 | `bestof` is `BestofStep`: raised exactly where the best criterion reaches the original |
| `Mcpt.UpdateMcpt` | SCREEN_BIVAR.CPP:778-803 | replication 0 records the originals, leaves `sorted_crits` a rearrangement of them and `index` one of `0 .. n_combo-1`, and sets both counters to 1; later replications apply `SoloStep` / `BestofStep` and leave the originals alone |
| `Mcpt.SoloCountsHits` | SCREEN_BIVAR.CPP:778-792 | after the replications, `mcpt_solo[icombo]` is 1 plus the number of permuted replications whose criterion for the combination reached its original one |
| `Mcpt.BestofCountsHits` | SCREEN_BIVAR.CPP:778-803 | after the replications, `mcpt_bestof[icombo]` is 1 plus the number of permuted replications whose best criterion reached the combination's original one |
| `Mcpt.McptCounts` | SCREEN_BIVAR.CPP:778-803 | the counters after replication 0 and any permuted replications keep `1 <= solo <= bestof <= reps` and the order of `bestof` |
| `Shuffle.Trunc` | SCREEN_BIVAR.CPP:720 | `(int) x` truncates toward zero |
| `Shuffle.DrawIndex` | SCREEN_BIVAR.CPP:720-722 | for a non-negative draw and `i >= 1`, the drawn index lies in `0 .. i-1` |
| `Shuffle.DrawIndexIsIntegerPart` | SCREEN_BIVAR.CPP:720-722 | a draw below 1 needs no clamp: the index is the integer part of `u*i` |
| `Shuffle.Swap` | SCREEN_BIVAR.CPP:725-727 | exchanging two entries keeps the length and the multiset |
| `Shuffle.ShuffleFrom` | SCREEN_BIVAR.CPP:718-729 | the complete shuffle of one block is a rearrangement of it |
| `Shuffle.ShuffleReindex` | SCREEN_BIVAR.CPP:718-729 | shuffling a block read through case numbers p is reading it through the shuffled p |
| `Shuffle.SameRearrangement` | SCREEN_BIVAR.CPP:724-728 | every block is moved by one and the same permutation of case numbers, which depends only on the draws and `n_cases` |
| `Shuffle.SwapInBlock` | SCREEN_BIVAR.CPP:725-727 | swapping inside block v changes that block only |
| `Shuffle.SwapStep` | SCREEN_BIVAR.CPP:724-728 | one more block swapped extends "swapped so far" by one target |
| `Shuffle.SwapEntries` | SCREEN_BIVAR.CPP:725-727 | the array becomes `Swap` of its old contents |
| `Shuffle.SwapInBlocks` | SCREEN_BIVAR.CPP:724-728 | cases i and j are exchanged in every target's block |
| `Shuffle.ShuffleStep` | SCREEN_BIVAR.CPP:719-729 | one draw and one swap in every block keeps "shuffled so far" with one case fewer left |
| `Shuffle.ShuffleRound` | SCREEN_BIVAR.CPP:719-729 | one round of the shuffle loop keeps "shuffled so far" |
| `Shuffle.ShuffleDone` | SCREEN_BIVAR.CPP:719 | with at most one case left, every block is completely shuffled |
| `Shuffle.CompleteShuffle` | SCREEN_BIVAR.CPP:717-730 | every target's block becomes `ShuffleFrom` of its old contents, with the same draws for every target |
| `Shuffle.CompleteShufflePermutes` | SCREEN_BIVAR.CPP:717-730 | the complete shuffle rearranges inside every block and the buffer as a whole |
| `Shuffle.RotateAt` | SCREEN_BIVAR.CPP:738 | entry i of the rotation is entry `(i+j) % n_cases` of the block, as the source indexes it |
| `Shuffle.RotationSplits` | SCREEN_BIVAR.CPP:736-741 | rotation by j moves the first j cases to the end; it is a rearrangement |
| `Shuffle.RotateRoundTrip` | SCREEN_BIVAR.CPP:736-741 | rotating back by `(n-j) % n` restores the block |
| `Shuffle.FillWork` | SCREEN_BIVAR.CPP:737-738 | `work_bin` holds the block rotated by j |
| `Shuffle.CopyBack` | SCREEN_BIVAR.CPP:739-740 | block v becomes `work_bin`; the other blocks are unchanged |
| `Shuffle.RotateBlock` | SCREEN_BIVAR.CPP:736-741 | block v becomes its rotation by j; the other blocks are unchanged |
| `Shuffle.CyclicShuffle` | SCREEN_BIVAR.CPP:732-742 | every target's block is rotated by the one drawn offset `DrawIndex(u, n_cases)` |
| `Shuffle.CyclicShufflePermutes` | SCREEN_BIVAR.CPP:732-742 | the cyclic shuffle rearranges inside every block and the buffer as a whole |
| `ScreenBivar.Wrap32` | SCREEN_BIVAR.CPP:470 | a 32-bit `int` result lies in `-2^31 .. 2^31-1`, is congruent to the exact value modulo `2^32`, and equals it when it fits |
| `ScreenBivar.DivTrunc` | SCREEN_BIVAR.CPP:470 | C's `/` by a positive divisor: Euclidean division for a non-negative dividend, and the negated quotient of the negated dividend for a negative one (truncation toward zero) |
| `ScreenBivar.NComboAsWritten` | SCREEN_BIVAR.CPP:470 | `n_combo` computed in 32-bit `int` lies in the `int` range |
| `ScreenBivar.CeilingBypassed` | SCREEN_BIVAR.CPP:470-510 | two studies far above the ceiling whose 32-bit count passes the test at 506 (`CeilingAsWritten`) but not the test on the real count (`Ceiling`) |
| `ScreenBivar.CeilingExact` | SCREEN_BIVAR.CPP:470 | at or below the ceiling the 32-bit count is exact |
| `ScreenBivar.Ceiling` | SCREEN_BIVAR.CPP:506-510 | `ERROR_INSUFFICIENT_MEMORY` iff there are more than 100,000 combinations; a passing count is exact in 32 bits |
| `ScreenBivar.CheckPartitions` | SCREEN_BIVAR.CPP:575-596 | `ERROR_SYNTAX` iff some predictor or target reached fewer bins than requested, otherwise OK |
| `ScreenBivar.ClampReps` | SCREEN_BIVAR.CPP:703-704 | at least one replication is run; a count of at least 1 is kept |
| `ScreenBivar.PermuteTargets` | SCREEN_BIVAR.CPP:715-744 | `Permuted`: no shuffle in replication 0 or for an unknown type; type 1 is `CompleteShuffle` using `n_cases-1` draws; type 2 is `CyclicShuffle` using one draw; always a per-block rearrangement |
| `ScreenBivar.RecordReplication` | SCREEN_BIVAR.CPP:706-803 | after one more replication the counters are the counts over the history's criteria, within their bounds |
| `ScreenBivar.Replicate` | SCREEN_BIVAR.CPP:713-803 | the targets are shuffled as `Permuted` says and stay a rearrangement of the originals; it fails iff its waits fail; on success replication 0 records `AllCriteria` and sets both counters to 1, and a later one applies `SoloStep` / `BestofStep` with the criteria of its shuffled targets |
| `ScreenBivar.RunReplications` | SCREEN_BIVAR.CPP:706-805 | succeeds iff every replication's waits succeed (a failing one stops the study); the returned history links each replication's targets to the previous ones by `Permuted`, with the draws continuing where the previous shuffle stopped; on success the originals are `AllCriteria` and the counters are `SoloCounts` / `BestofCounts` over the history's criteria |
| `ScreenBivar.Replications` | SCREEN_BIVAR.CPP:517-540 | the work areas allocated, then the replications run, with the same outcome and counters, which keep their bounds |
| `ScreenBivar.ScreenBivar` | SCREEN_BIVAR.CPP:470-805 | the error codes in the source's order (ceiling on the real count, then partitions, then the runs); on success the target marginals, the original criteria of every combination, and the MCPT counters as the counts over the `max(mcpt_reps, 1)` replications' shuffled targets, within their bounds |
| `ScreenBivar.FindCombo` | SCREEN_BIVAR.CPP:849-866 | stepping the counters until `icombo == k` yields `IndexToTriple(k)`, a valid triple |
| `ScreenBivar.ReportOrder` | SCREEN_BIVAR.CPP:838-866 | `min(n_combo, max_printed)` rows, row r naming the triple of `index[n_combo-1-r]` |

## Left out

- The floating-point statistics are left out: the log sums of `compute_mi`
  and the entropies and ratios of `uncert_reduc` (SCREEN_BIVAR.CPP:66-89 and
  144-184). A `Numerics` value supplies them as functions of the integer
  counts. The division of the marginals by `n_cases` (645-648, 657-660)
  happens inside them as well; the model keeps the integer counts.
- Threads are left out: creation, handles and `WaitForMultipleObjects`
  timeouts. A worker runs when it is dispatched. `waitResult(j)` is the slot
  the j-th wait reports. The wait-for-all only has its range check.
- A failed thread creation (344-351) is left out, because thread creation is
  not modelled.
- ESCape handling (317-326, 566-570, 759-765) is left out, because it reads
  the keyboard.
- `partition` (577, 588) is not part of this model. The driver receives the
  bins and the number of bins each variable reached.
- The debug `assert(k == nbins)` at 584 and 595 follows from the check just
  before it and is not modelled.
- `unifrand_fast` is not part of this model. `draw(k)` is the k-th value it
  returns, assumed non-negative.
- `qsortdsi` (796) is not part of this model. The model leaves `index` the
  identity and `sorted_crits` the unsorted copy. `ReportOrder` takes any
  in-range index vector.
- `Mcpt.UpdateMcpt`: for replication 0 it promises only that `sorted_crits`
  is a rearrangement of the criteria and `index` one of `0 .. n_combo-1`,
  because the sort at 796 is not modelled; it does not promise the sorted
  order.
- `MAX_THREADS` is a parameter (`maxThreads >= 1`). The fixed-size
  `threads` and `bivar_params` arrays become arrays of that length.
- Reading the database into `casework` (572-573), `malloc` and its failure
  (517-548), the audit log, the printing of bounds, marginals and results,
  and the progress bar are left out.
- The report prints variable names and p-values (868-877). The model
  returns the triples of the printed rows and the counters; the p-value is
  `counter / mcpt_reps`.
- The error message at 590 indexes `targets[ivar]` instead of
  `targets[ivar-npred]`. It affects only the message text, which is not
  modelled.
- Line 285 copies the global `n_cases` into every slot, not the `ncases`
  parameter. The model uses the one case count the driver passes.
- `ScreenBivar.ScreenBivar` applies the corrected ceiling `Ceiling` to the
  exact combination count. The source tests the 32-bit `n_combo` (470, 506),
  so for a study whose count wraps below 100,001 (npred = 65537, ntarget = 1)
  it goes on with the wrapped count where the model fails with
  `ERROR_INSUFFICIENT_MEMORY`. The as-written test is `CeilingAsWritten`, and
  `CeilingBypassed` exhibits the difference (see Findings).
- `Scheduler.BivarThreaded` uses the exact combination count (line 307
  repeats the 32-bit product of line 470). The driver calls it only after
  `Ceiling` has passed, and then `CeilingExact` shows the two agree.

## Findings

| source | as written | input that shows it | evidently intended | confidence | as-written member | corrected member |
|---|---|---|---|---|---|---|
| SCREEN_BIVAR.CPP:470 and 506 | `n_combo = npred * (npred-1) / 2 * ntarget` is computed in 32-bit `int`, so the 100,000 ceiling at 506 tests a wrapped value | npred = 65537, ntarget = 1 gives 32768 instead of 2,147,516,416; npred = 2000, ntarget = 1200 gives -1,896,167,296 instead of 2,398,800,000; both pass the ceiling | refuse every study with more than 100,000 real combinations | not executed | `ScreenBivar.CeilingBypassed` | `ScreenBivar.Ceiling` |
