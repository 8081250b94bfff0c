/**
  `bivar_threaded` (SCREEN_BIVAR.CPP:255-421) as a sequential state machine.

  The source keeps up to `max_threads` workers running, one per slot. Each slot
  has its own parameter block, remembering which combination it evaluates, and
  its own private region of the `bin_counts` / `bivar_counts` work areas. The
  loop fills the slots in order. Once all are busy it waits for any one to
  finish, stores that worker's criterion in `crit[icombo]` and refills the
  slot that was freed. When every combination has been handed out, it waits
  for all remaining workers and harvests slots `0 .. n_threads-1`.

  Here a worker runs to completion as soon as it is dispatched, which gives
  the same result because it only touches its own slot's work areas. Which
  worker a wait reports is an input: `waitResult(j)` is the value returned by
  the j-th call to WaitForMultipleObjects.
*/
module Scheduler {

  import opened Flat
  import opened Enumerator
  import opened ContingencyTable

  /** `which`: 1 selects mutual information, anything else uncertainty reduction. */
  datatype Statistic = MutualInformation | UncertaintyReduction

  /** Return codes of the screening routines. */
  datatype Status = Ok | InsufficientMemory | SyntaxError

  /**
    What every worker shares: the statistic, the numerics, and the bin streams.
    `predBin` holds `npred` blocks of `ncases` predictor bins, `targetBin` holds
    `ntarget` blocks of target bins, and `targetCounts` holds `ntarget` blocks of
    `nbinsTarget` marginal counts.
  */
  datatype Screening = Screening(stat: Statistic, num: Numerics, ncases: nat,
                                 npred: nat, nbinsPred: nat, predBin: seq<int>,
                                 ntarget: nat, nbinsTarget: nat, targetBin: seq<int>, targetCounts: seq<int>)
  {
    predicate Valid()
    {
      |predBin| == npred * ncases && InRange(predBin, nbinsPred) &&
      |targetBin| == ntarget * ncases && InRange(targetBin, nbinsTarget) &&
      |targetCounts| == ntarget * nbinsTarget
    }
  }

  /**
    The criterion a worker reports for one predictor pair and target. For
    mutual information it is `compute_mi`. For uncertainty reduction it is the
    column-dependent ratio of `uncert_reduc`, the second of its three outputs.
  */
  function Criterion(stat: Statistic, num: Numerics, ncases: nat, nbinsPred: nat, pred1: seq<int>, pred2: seq<int>,
                     nbinsTarget: nat, target: seq<int>, targetCounts: seq<int>): real
    requires |pred1| == ncases && |pred2| == ncases && |target| == ncases
  {
    var table := Table(nbinsPred, nbinsTarget, pred1, pred2, target);
    match stat
    case MutualInformation => num.mi(ncases, nbinsPred, nbinsTarget, table, targetCounts)
    case UncertaintyReduction =>
      num.ur(nbinsPred, nbinsTarget, table, Histogram(JointBins(nbinsPred, pred1, pred2), nbinsPred * nbinsPred),
             ncases, targetCounts).colDep
  }

  /** The criterion of combination `k`: its predictor blocks, its target block and that target's counts. */
  function ComboCriterion(sc: Screening, k: nat): real
    requires sc.Valid() && k < NCombo(sc.npred, sc.ntarget)
  {
    IndexToTripleInverse(sc.npred, sc.ntarget, k);
    var t := IndexToTriple(sc.npred, sc.ntarget, k);
    BlockFits(t.ipred1, sc.npred, sc.ncases);
    BlockFits(t.ipred2, sc.npred, sc.ncases);
    BlockFits(t.itarget, sc.ntarget, sc.ncases);
    BlockFits(t.itarget, sc.ntarget, sc.nbinsTarget);
    Criterion(sc.stat, sc.num, sc.ncases, sc.nbinsPred,
              Column(sc.predBin, t.ipred1, sc.ncases), Column(sc.predBin, t.ipred2, sc.ncases),
              sc.nbinsTarget, Column(sc.targetBin, t.itarget, sc.ncases),
              Column(sc.targetCounts, t.itarget, sc.nbinsTarget))
  }

  /**
    The worker, `bivar_threaded_wrapper` (SCREEN_BIVAR.CPP:213-241). It evaluates
    one combination in the slot's private work areas, `binCounts[base ..]` and
    `bivarCounts[rbase ..]`, and leaves the rest of both buffers alone.
  */
  method EvaluateCombo(stat: Statistic, num: Numerics, ncases: nat, nbinsPred: nat, pred1: seq<int>, pred2: seq<int>,
                       nbinsTarget: nat, target: seq<int>, targetCounts: seq<int>,
                       binCounts: array<int>, base: nat, bivarCounts: array<int>, rbase: nat)
    returns (crit: real)
    requires BinStreams(ncases, nbinsPred, pred1, pred2, nbinsTarget, target)
    requires base + TableSize(nbinsPred, nbinsTarget) <= binCounts.Length
    requires rbase + nbinsPred * nbinsPred <= bivarCounts.Length
    requires binCounts != bivarCounts
    modifies binCounts, bivarCounts
    ensures crit == Criterion(stat, num, ncases, nbinsPred, pred1, pred2, nbinsTarget, target, targetCounts)
    ensures forall c :: 0 <= c < binCounts.Length && !(base <= c < base + TableSize(nbinsPred, nbinsTarget))
                        ==> binCounts[c] == old(binCounts[c])
    ensures forall c :: 0 <= c < bivarCounts.Length && !(rbase <= c < rbase + nbinsPred * nbinsPred)
                        ==> bivarCounts[c] == old(bivarCounts[c])
  {
    if stat == MutualInformation {
      crit := ComputeMi(ncases, nbinsPred, pred1, pred2, nbinsTarget, target, targetCounts, num, binCounts, base);
    } else {
      var ur := UncertReduc(ncases, nbinsPred, pred1, pred2, nbinsTarget, target, targetCounts, num,
                            bivarCounts, rbase, binCounts, base);
      crit := ur.colDep;
    }
  }

  /**
    Starting a worker on combination `icombo` in slot `k` (SCREEN_BIVAR.CPP:333-342):
    its predictor and target blocks, the target's counts and the slot's work
    areas. The worker's result is the criterion of that combination.
  */
  method StartWorker(sc: Screening, icombo: nat, ipred1: nat, ipred2: nat, itarget: nat,
                     maxThreads: nat, k: nat, binCounts: array<int>, bivarCounts: array<int>)
    returns (result: real)
    requires sc.Valid() && icombo < NCombo(sc.npred, sc.ntarget)
    requires Triple(ipred1, ipred2, itarget) == IndexToTriple(sc.npred, sc.ntarget, icombo)
    requires k < maxThreads
    requires maxThreads * TableSize(sc.nbinsPred, sc.nbinsTarget) <= binCounts.Length
    requires maxThreads * (sc.nbinsPred * sc.nbinsPred) <= bivarCounts.Length
    requires binCounts != bivarCounts
    modifies binCounts, bivarCounts
    ensures result == ComboCriterion(sc, icombo)
  {
    ComboBlocks(sc, icombo, ipred1, ipred2, itarget);
    var pred1 := Column(sc.predBin, ipred1, sc.ncases);
    var pred2 := Column(sc.predBin, ipred2, sc.ncases);
    var target := Column(sc.targetBin, itarget, sc.ncases);
    var targetCounts := Column(sc.targetCounts, itarget, sc.nbinsTarget);
    var base, rbase := SlotBase(k, maxThreads, TableSize(sc.nbinsPred, sc.nbinsTarget)), SlotBase(k, maxThreads, sc.nbinsPred * sc.nbinsPred);
    result := EvaluateCombo(sc.stat, sc.num, sc.ncases, sc.nbinsPred, pred1, pred2, sc.nbinsTarget, target, targetCounts,
                            binCounts, base, bivarCounts, rbase);
  }

  /** Where slot `k`'s private region of `size` entries starts. */
  function SlotBase(k: nat, maxThreads: nat, size: nat): (base: nat)
    requires k < maxThreads
    ensures base == k * size && base + size <= maxThreads * size
  {
    BlockFits(k, maxThreads, size);
    k * size
  }

  /** The blocks of combination `icombo` lie inside the buffers, hold in-range bins and give its criterion. */
  lemma ComboBlocks(sc: Screening, icombo: nat, ipred1: nat, ipred2: nat, itarget: nat)
    requires sc.Valid() && icombo < NCombo(sc.npred, sc.ntarget)
    requires Triple(ipred1, ipred2, itarget) == IndexToTriple(sc.npred, sc.ntarget, icombo)
    ensures ipred1 * sc.ncases + sc.ncases <= |sc.predBin| && ipred2 * sc.ncases + sc.ncases <= |sc.predBin|
    ensures itarget * sc.ncases + sc.ncases <= |sc.targetBin|
    ensures itarget * sc.nbinsTarget + sc.nbinsTarget <= |sc.targetCounts|
    ensures BinStreams(sc.ncases, sc.nbinsPred, Column(sc.predBin, ipred1, sc.ncases), Column(sc.predBin, ipred2, sc.ncases),
                       sc.nbinsTarget, Column(sc.targetBin, itarget, sc.ncases))
    ensures ComboCriterion(sc, icombo)
            == Criterion(sc.stat, sc.num, sc.ncases, sc.nbinsPred,
                         Column(sc.predBin, ipred1, sc.ncases), Column(sc.predBin, ipred2, sc.ncases),
                         sc.nbinsTarget, Column(sc.targetBin, itarget, sc.ncases),
                         Column(sc.targetCounts, itarget, sc.nbinsTarget))
  {
    IndexToTripleInverse(sc.npred, sc.ntarget, icombo);
    BlockFits(ipred1, sc.npred, sc.ncases);
    BlockFits(ipred2, sc.npred, sc.ncases);
    BlockFits(itarget, sc.ntarget, sc.ncases);
    BlockFits(itarget, sc.ntarget, sc.nbinsTarget);
    ColumnInRange(sc.predBin, ipred1, sc.ncases, sc.nbinsPred);
    ColumnInRange(sc.predBin, ipred2, sc.ncases, sc.nbinsPred);
    ColumnInRange(sc.targetBin, itarget, sc.ncases, sc.nbinsTarget);
  }

  function Min(a: int, b: int): int
  {
    if a <= b then a else b
  }

  /** Number of wait-for-one calls in a run: one for each combination beyond the first `maxThreads`. */
  function WaitOneCount(maxThreads: nat, nCombo: int): nat
  {
    if nCombo > maxThreads then nCombo - maxThreads else 0
  }

  /** The first `n` wait-for-one calls each report one of the `maxThreads` slots. */
  predicate WaitsOk(waitResult: nat -> int, maxThreads: nat, n: nat)
  {
    n == 0 || (WaitsOk(waitResult, maxThreads, n - 1) && 0 <= waitResult(n - 1) < maxThreads)
  }

  lemma {:induction false} WaitsOkPrefix(waitResult: nat -> int, maxThreads: nat, m: nat, n: nat)
    requires m <= n && WaitsOk(waitResult, maxThreads, n)
    ensures WaitsOk(waitResult, maxThreads, m)
  {
    if m < n {
      WaitsOkPrefix(waitResult, maxThreads, m, n - 1);
    }
  }

  /**
    Every wait in a run reports a slot that was running. Each wait-for-one must
    name one of the `maxThreads` busy slots; the final wait-for-all, which is
    the call after them, must name one of the `Min(nCombo, maxThreads)` slots
    still running.
  */
  predicate WaitsSucceed(waitResult: nat -> int, maxThreads: nat, nCombo: int)
  {
    nCombo <= 0 ||
    (WaitsOk(waitResult, maxThreads, WaitOneCount(maxThreads, nCombo)) &&
     0 <= waitResult(WaitOneCount(maxThreads, nCombo)) < Min(nCombo, maxThreads))
  }

  predicate Distinct(s: seq<nat>)
  {
    forall i, j :: 0 <= i < j < |s| ==> s[i] != s[j]
  }

  /**
    Which slots are running: the first `nThreads` while the slots are being
    filled (`emptySlot < 0`), all but `emptySlot` once they are recycled.
  */
  function Occupancy(maxThreads: nat, nThreads: nat, emptySlot: int): (occ: seq<bool>)
    ensures |occ| == maxThreads
  {
    seq(maxThreads, s => if emptySlot < 0 then s < nThreads else s != emptySlot)
  }

  /** Starting a worker in slot `nThreads` (filling) or `emptySlot` (recycling) leaves the first `nThreads + 1` slots running. */
  lemma DispatchFills(maxThreads: nat, nThreads: nat, emptySlot: int)
    requires emptySlot < 0 ==> nThreads < maxThreads
    requires emptySlot >= 0 ==> emptySlot < maxThreads && nThreads == maxThreads - 1
    ensures var k := if emptySlot < 0 then nThreads else emptySlot;
            Occupancy(maxThreads, nThreads, emptySlot)[k := true] == Occupancy(maxThreads, nThreads + 1, -1)
  {
  }

  /** Freeing slot `r` of a full set of slots leaves every slot but `r` running. */
  lemma HarvestFrees(maxThreads: nat, r: nat)
    requires r < maxThreads
    ensures Occupancy(maxThreads, maxThreads, -1)[r := false] == Occupancy(maxThreads, maxThreads - 1, r)
  {
  }

  /** The criteria of combinations `0 .. n-1`, in combination order. */
  function CriteriaUpTo(sc: Screening, n: nat): (crits: seq<real>)
    requires sc.Valid() && n <= NCombo(sc.npred, sc.ntarget)
    ensures |crits| == n
  {
    if n == 0 then [] else CriteriaUpTo(sc, n - 1) + [ComboCriterion(sc, n - 1)]
  }

  /** The criterion of every combination, in combination order: what one replication leaves in `crit`. */
  function AllCriteria(sc: Screening): (want: seq<real>)
    requires sc.Valid()
    ensures |want| == NCombo(sc.npred, sc.ntarget)
  {
    NComboIsPairsTimesTargets(sc.npred, sc.ntarget);
    CriteriaUpTo(sc, NCombo(sc.npred, sc.ntarget))
  }

  lemma {:induction false} CriteriaUpToAt(sc: Screening, n: nat, k: nat)
    requires sc.Valid() && n <= NCombo(sc.npred, sc.ntarget) && k < n
    ensures CriteriaUpTo(sc, n)[k] == ComboCriterion(sc, k)
  {
    if k < n - 1 {
      CriteriaUpToAt(sc, n - 1, k);
    }
  }

  /** Entry k of `AllCriteria` is the criterion of combination k. */
  lemma AllCriteriaAt(sc: Screening, k: nat)
    requires sc.Valid() && k < NCombo(sc.npred, sc.ntarget)
    ensures AllCriteria(sc)[k] == ComboCriterion(sc, k)
  {
    NComboIsPairsTimesTargets(sc.npred, sc.ntarget);
    CriteriaUpToAt(sc, NCombo(sc.npred, sc.ntarget), k);
  }

  /**
    The bookkeeping of one replication after `icombo` combinations have been
    dispatched. `occ`, `combos` and `crits` are the slots: running or free, the
    combination each one holds, and the criterion it computed. `where[c]` is the
    slot still holding combination c, or -1 once c has been harvested.
    `harvested` lists the harvested combinations, and `critNow` is the `crit`
    array. It holds the wanted criterion at every harvested entry and `crit0`
    everywhere else.
  */
  ghost predicate Bookkeeping(want: seq<real>, maxThreads: nat, icombo: nat, occ: seq<bool>, combos: seq<nat>, crits: seq<real>,
                              where: seq<int>, harvested: seq<nat>, critNow: seq<real>, crit0: seq<real>)
  {
    |occ| == maxThreads && |combos| == maxThreads && |crits| == maxThreads &&
    icombo <= |want| && |where| == icombo && |critNow| == |want| && |crit0| == |want| &&
    (forall c {:trigger where[c]} :: 0 <= c < icombo ==>
       (where[c] == -1 <==> c in harvested) &&
       (where[c] != -1 ==> 0 <= where[c] < maxThreads && occ[where[c]] && combos[where[c]] == c)) &&
    (forall s {:trigger occ[s]} :: 0 <= s < maxThreads && occ[s] ==>
       combos[s] < icombo && where[combos[s]] == s && crits[s] == want[combos[s]]) &&
    Outcome(want, icombo, harvested, critNow, crit0)
  }

  /**
    What a replication has left in `crit` (`critNow`) so far: `harvested`
    lists distinct combinations among the first `dispatched`, each entry of
    which holds its wanted criterion, and every other entry still holds its
    value from before the replication (`crit0`).
  */
  ghost predicate Outcome(want: seq<real>, dispatched: nat, harvested: seq<nat>, critNow: seq<real>, crit0: seq<real>)
  {
    |critNow| == |want| && |crit0| == |want| && dispatched <= |want| &&
    Distinct(harvested) &&
    (forall i {:trigger harvested[i]} :: 0 <= i < |harvested| ==>
       harvested[i] < dispatched && critNow[harvested[i]] == want[harvested[i]]) &&
    (forall c {:trigger critNow[c]} :: 0 <= c < |critNow| && c !in harvested ==> critNow[c] == crit0[c])
  }

  lemma BookkeepingStart(want: seq<real>, maxThreads: nat, crit0: seq<real>)
    requires |crit0| == |want|
    ensures Bookkeeping(want, maxThreads, 0, seq(maxThreads, _ => false), seq(maxThreads, _ => 0), seq(maxThreads, _ => 0.0),
                        [], [], crit0, crit0)
  {
  }

  /** Handing combination `icombo` to the free slot `k` keeps the bookkeeping. */
  lemma DispatchStep(want: seq<real>, maxThreads: nat, icombo: nat, occ: seq<bool>, combos: seq<nat>, crits: seq<real>,
                     where: seq<int>, harvested: seq<nat>, critNow: seq<real>, crit0: seq<real>, k: nat)
    requires Bookkeeping(want, maxThreads, icombo, occ, combos, crits, where, harvested, critNow, crit0)
    requires icombo < |want| && k < maxThreads && !occ[k]
    ensures Bookkeeping(want, maxThreads, icombo + 1, occ[k := true], combos[k := icombo], crits[k := want[icombo]],
                        where + [k], harvested, critNow, crit0)
  {
    assert icombo !in harvested;
  }

  /** Storing the result of the running slot `r` and freeing it keeps the bookkeeping. */
  lemma HarvestStep(want: seq<real>, maxThreads: nat, icombo: nat, occ: seq<bool>, combos: seq<nat>, crits: seq<real>,
                    where: seq<int>, harvested: seq<nat>, critNow: seq<real>, crit0: seq<real>, r: nat)
    requires Bookkeeping(want, maxThreads, icombo, occ, combos, crits, where, harvested, critNow, crit0)
    requires r < maxThreads && occ[r]
    ensures combos[r] < |where| && combos[r] < |critNow|
    ensures Bookkeeping(want, maxThreads, icombo, occ[r := false], combos, crits, where[combos[r] := -1],
                        harvested + [combos[r]], critNow[combos[r] := crits[r]], crit0)
  {
    var c := combos[r];
    assert c !in harvested;
    var harvested' := harvested + [c];
    assert Distinct(harvested');
  }

  /** Once every combination is dispatched and no slot is running, every entry of `crit` holds its criterion. */
  lemma AllHarvested(want: seq<real>, maxThreads: nat, occ: seq<bool>, combos: seq<nat>, crits: seq<real>,
                     where: seq<int>, harvested: seq<nat>, critNow: seq<real>, crit0: seq<real>)
    requires Bookkeeping(want, maxThreads, |want|, occ, combos, crits, where, harvested, critNow, crit0)
    requires forall s :: 0 <= s < maxThreads ==> !occ[s]
    ensures forall c :: 0 <= c < |want| ==> c in harvested
    ensures critNow == want
  {
    forall c | 0 <= c < |want|
      ensures c in harvested && critNow[c] == want[c]
    {
      assert where[c] == -1;
      var i :| 0 <= i < |harvested| && harvested[i] == c;
    }
  }

  /**
    Starting a worker and advancing the counters (SCREEN_BIVAR.CPP:333-367):
    slot `k` receives combination `icombo` and its criterion and is marked
    running, and the counters move on to the triple of the next combination.
  */
  method Dispatch(sc: Screening, maxThreads: nat, k: nat, icombo: nat, ipred1: int, ipred2: int, itarget: int,
                  occupied: array<bool>, slotCombo: array<nat>, slotCrit: array<real>,
                  binCounts: array<int>, bivarCounts: array<int>)
    returns (nextPred1: int, nextPred2: int, nextTarget: int)
    requires sc.Valid() && icombo < NCombo(sc.npred, sc.ntarget)
    requires Triple(ipred1, ipred2, itarget) == Walk(sc.npred, sc.ntarget, icombo)
    requires k < maxThreads && occupied.Length == maxThreads && slotCombo.Length == maxThreads && slotCrit.Length == maxThreads
    requires maxThreads * TableSize(sc.nbinsPred, sc.nbinsTarget) <= binCounts.Length
    requires maxThreads * (sc.nbinsPred * sc.nbinsPred) <= bivarCounts.Length
    requires binCounts != bivarCounts
    modifies occupied, slotCombo, slotCrit, binCounts, bivarCounts
    ensures occupied[..] == old(occupied[..])[k := true]
    ensures slotCombo[..] == old(slotCombo[..])[k := icombo]
    ensures slotCrit[..] == old(slotCrit[..])[k := AllCriteria(sc)[icombo]]
    ensures Triple(nextPred1, nextPred2, nextTarget) == Walk(sc.npred, sc.ntarget, icombo + 1)
  {
    WalkAgrees(sc.npred, sc.ntarget, icombo);
    AllCriteriaAt(sc, icombo);
    var result := StartWorker(sc, icombo, ipred1, ipred2, itarget, maxThreads, k, binCounts, bivarCounts);
    slotCombo[k] := icombo;
    slotCrit[k] := result;
    occupied[k] := true;

    var npred: int, ntarget: int := sc.npred, sc.ntarget;
    nextPred1, nextPred2, nextTarget := ipred1, ipred2, itarget;
    if itarget < ntarget - 1 {
      nextTarget := itarget + 1;
    } else {
      nextTarget := 0;
      if ipred2 < npred - 1 {
        nextPred2 := ipred2 + 1;
      } else {
        nextPred1 := ipred1 + 1;
        nextPred2 := nextPred1 + 1;
      }
    }
  }

  /**
    The state at the top of the dispatch loop. While the slots are being filled
    (`emptySlot < 0`) slots `0 .. nThreads-1` run combinations `0 .. icombo-1`
    and no wait has happened. Once they are recycled, every slot but
    `emptySlot` runs and `icombo - maxThreads + 1` waits for one have
    succeeded. `occ`, `combos`, `crits` and `critNow` are the contents of the
    slot arrays and of `crit`.
  */
  ghost predicate AtTop(want: seq<real>, maxThreads: nat, waitResult: nat -> int, icombo: nat, nThreads: nat,
                        emptySlot: int, nWaits: nat, occ: seq<bool>, combos: seq<nat>, crits: seq<real>,
                        where: seq<int>, harvested: seq<nat>, critNow: seq<real>, crit0: seq<real>)
  {
    icombo <= |want| && occ == Occupancy(maxThreads, nThreads, emptySlot) &&
    (emptySlot < 0 ==> nThreads == icombo < maxThreads && nWaits == 0) &&
    (emptySlot >= 0 ==> emptySlot < maxThreads && nThreads == maxThreads - 1 && maxThreads <= icombo < |want| &&
                        nWaits == icombo - maxThreads + 1) &&
    WaitsOk(waitResult, maxThreads, nWaits) && |harvested| + nThreads == icombo &&
    Bookkeeping(want, maxThreads, icombo, occ, combos, crits, where, harvested, critNow, crit0)
  }

  /**
    The state after the dispatch step of the loop: the first
    `Min(icombo, maxThreads)` slots run, and one wait for one has succeeded
    for each combination dispatched beyond the first `maxThreads`.
  */
  ghost predicate AfterDispatch(want: seq<real>, maxThreads: nat, waitResult: nat -> int, icombo: nat, nThreads: nat,
                                emptySlot: int, nWaits: nat, occ: seq<bool>, combos: seq<nat>, crits: seq<real>,
                                where: seq<int>, harvested: seq<nat>, critNow: seq<real>, crit0: seq<real>)
  {
    icombo <= |want| && occ == Occupancy(maxThreads, nThreads, -1) &&
    nThreads == Min(icombo, maxThreads) && nWaits == WaitOneCount(maxThreads, icombo) &&
    (emptySlot >= 0 ==> maxThreads < icombo) &&
    WaitsOk(waitResult, maxThreads, nWaits) && |harvested| + nThreads == icombo &&
    Bookkeeping(want, maxThreads, icombo, occ, combos, crits, where, harvested, critNow, crit0)
  }

  /** Dispatching combination `icombo` to slot `k` (SCREEN_BIVAR.CPP:305-367) takes the loop from its top to after the dispatch. */
  lemma LaunchStep(want: seq<real>, maxThreads: nat, waitResult: nat -> int, icombo: nat, nThreads: nat,
                   emptySlot: int, nWaits: nat, occ: seq<bool>, combos: seq<nat>, crits: seq<real>,
                   where: seq<int>, harvested: seq<nat>, critNow: seq<real>, crit0: seq<real>, k: nat)
    requires AtTop(want, maxThreads, waitResult, icombo, nThreads, emptySlot, nWaits, occ, combos, crits,
                   where, harvested, critNow, crit0)
    requires icombo < |want| && k == if emptySlot < 0 then nThreads else emptySlot
    ensures k < maxThreads
    ensures AfterDispatch(want, maxThreads, waitResult, icombo + 1, nThreads + 1, emptySlot, nWaits,
                          occ[k := true], combos[k := icombo], crits[k := want[icombo]],
                          where + [k], harvested, critNow, crit0)
  {
    DispatchStep(want, maxThreads, icombo, occ, combos, crits, where, harvested, critNow, crit0, k);
    DispatchFills(maxThreads, nThreads, emptySlot);
  }

  /** With nothing left to dispatch, the top of the loop is already the state after dispatch. */
  lemma NothingToLaunch(want: seq<real>, maxThreads: nat, waitResult: nat -> int, icombo: nat, nThreads: nat,
                        emptySlot: int, nWaits: nat, occ: seq<bool>, combos: seq<nat>, crits: seq<real>,
                        where: seq<int>, harvested: seq<nat>, critNow: seq<real>, crit0: seq<real>)
    requires AtTop(want, maxThreads, waitResult, icombo, nThreads, emptySlot, nWaits, occ, combos, crits,
                   where, harvested, critNow, crit0)
    requires icombo == |want|
    ensures AfterDispatch(want, maxThreads, waitResult, icombo, nThreads, emptySlot, nWaits, occ, combos, crits,
                          where, harvested, critNow, crit0)
  {
    assert occ == Occupancy(maxThreads, nThreads, -1);
  }

  /** While some slot has never been used the loop goes on filling without waiting. */
  lemma KeepFilling(want: seq<real>, maxThreads: nat, waitResult: nat -> int, icombo: nat, nThreads: nat,
                    emptySlot: int, nWaits: nat, occ: seq<bool>, combos: seq<nat>, crits: seq<real>,
                    where: seq<int>, harvested: seq<nat>, critNow: seq<real>, crit0: seq<real>)
    requires AfterDispatch(want, maxThreads, waitResult, icombo, nThreads, emptySlot, nWaits, occ, combos, crits,
                           where, harvested, critNow, crit0)
    requires icombo < |want| && nThreads < maxThreads
    ensures emptySlot < 0
    ensures AtTop(want, maxThreads, waitResult, icombo, nThreads, emptySlot, nWaits, occ, combos, crits,
                  where, harvested, critNow, crit0)
  {
    assert occ == Occupancy(maxThreads, nThreads, emptySlot);
  }

  /**
    A wait for one that reports no running slot makes the run fail: it is one
    of the first `WaitOneCount` waits, all of which a successful run needs.
  */
  lemma WaitOneFails(waitResult: nat -> int, maxThreads: nat, nCombo: int, icombo: nat)
    requires maxThreads < icombo + 1 && icombo < nCombo
    requires !(0 <= waitResult(WaitOneCount(maxThreads, icombo)) < maxThreads)
    ensures !WaitsSucceed(waitResult, maxThreads, nCombo)
  {
    var n := WaitOneCount(maxThreads, icombo);
    if WaitsOk(waitResult, maxThreads, WaitOneCount(maxThreads, nCombo)) {
      WaitsOkPrefix(waitResult, maxThreads, n + 1, WaitOneCount(maxThreads, nCombo));
    }
  }

  /**
    The dispatch step of the loop (SCREEN_BIVAR.CPP:305-367): if combinations
    remain, start the next one in the first unused slot while filling, or in
    the slot just freed while recycling, and advance the triple.
  */
  method Launch(sc: Screening, maxThreads: nat, icombo: nat, nThreads: nat, emptySlot: int,
                ipred1: int, ipred2: int, itarget: int,
                occupied: array<bool>, slotCombo: array<nat>, slotCrit: array<real>,
                binCounts: array<int>, bivarCounts: array<int>, crit: array<real>,
                ghost want: seq<real>, ghost waitResult: nat -> int, ghost nWaits: nat, ghost where: seq<int>,
                ghost harvested: seq<nat>, ghost crit0: seq<real>)
    returns (icombo': nat, nThreads': nat, nextPred1: int, nextPred2: int, nextTarget: int, ghost where': seq<int>)
    requires sc.Valid() && want == AllCriteria(sc)
    requires Triple(ipred1, ipred2, itarget) == Walk(sc.npred, sc.ntarget, icombo)
    requires maxThreads * TableSize(sc.nbinsPred, sc.nbinsTarget) <= binCounts.Length
    requires maxThreads * (sc.nbinsPred * sc.nbinsPred) <= bivarCounts.Length
    requires binCounts != bivarCounts && slotCrit != crit
    requires occupied.Length == maxThreads && slotCombo.Length == maxThreads && slotCrit.Length == maxThreads
    requires AtTop(want, maxThreads, waitResult, icombo, nThreads, emptySlot, nWaits, occupied[..],
                   slotCombo[..], slotCrit[..], where, harvested, crit[..], crit0)
    modifies occupied, slotCombo, slotCrit, binCounts, bivarCounts
    ensures icombo' == if icombo < |want| then icombo + 1 else icombo
    ensures Triple(nextPred1, nextPred2, nextTarget) == Walk(sc.npred, sc.ntarget, icombo')
    ensures AfterDispatch(want, maxThreads, waitResult, icombo', nThreads', emptySlot, nWaits, occupied[..],
                          slotCombo[..], slotCrit[..], where', harvested, crit[..], crit0)
  {
    icombo', nThreads', nextPred1, nextPred2, nextTarget, where' := icombo, nThreads, ipred1, ipred2, itarget, where;
    if icombo < NCombo(sc.npred, sc.ntarget) {
      var k := if emptySlot < 0 then nThreads else emptySlot;
      LaunchStep(want, maxThreads, waitResult, icombo, nThreads, emptySlot, nWaits, occupied[..],
                 slotCombo[..], slotCrit[..], where, harvested, crit[..], crit0, k);
      nextPred1, nextPred2, nextTarget := Dispatch(sc, maxThreads, k, icombo, ipred1, ipred2, itarget,
                                                   occupied, slotCombo, slotCrit, binCounts, bivarCounts);
      nThreads' := nThreads + 1;
      where' := where + [k];
      icombo' := icombo + 1;
    } else {
      NothingToLaunch(want, maxThreads, waitResult, icombo, nThreads, emptySlot, nWaits, occupied[..],
                      slotCombo[..], slotCrit[..], where, harvested, crit[..], crit0);
    }
  }

  /**
    One wait for one and its harvest (SCREEN_BIVAR.CPP:380-401): the finished
    slot `r` stores its criterion at its combination's entry of `crit` and is
    freed, and the loop returns to its top with `r` as the empty slot.
  */
  method Harvest(r: nat, slotCombo: array<nat>, slotCrit: array<real>, occupied: array<bool>, crit: array<real>,
                 ghost want: seq<real>, ghost maxThreads: nat, ghost waitResult: nat -> int, ghost icombo: nat,
                 ghost nWaits: nat, ghost emptySlot: int, ghost where: seq<int>, ghost harvested: seq<nat>,
                 ghost crit0: seq<real>)
    returns (ghost where': seq<int>, ghost harvested': seq<nat>)
    requires slotCrit != crit
    requires AfterDispatch(want, maxThreads, waitResult, icombo, maxThreads, emptySlot, nWaits, occupied[..],
                           slotCombo[..], slotCrit[..], where, harvested, crit[..], crit0)
    requires icombo < |want| && r < maxThreads && waitResult(nWaits) == r
    modifies crit, occupied
    ensures harvested' == harvested + [slotCombo[r]]
    ensures AtTop(want, maxThreads, waitResult, icombo, maxThreads - 1, r, nWaits + 1, occupied[..],
                  slotCombo[..], slotCrit[..], where', harvested', crit[..], crit0)
  {
    ghost var occ, combos, crits, critBefore := occupied[..], slotCombo[..], slotCrit[..], crit[..];
    HarvestStep(want, maxThreads, icombo, occ, combos, crits, where, harvested, critBefore, crit0, r);
    HarvestFrees(maxThreads, r);
    crit[slotCombo[r]] := slotCrit[r];
    assert crit[..] == critBefore[combos[r] := crits[r]];
    occupied[r] := false;
    assert occupied[..] == occ[r := false];
    where', harvested' := where[combos[r] := -1], harvested + [combos[r]];
  }

  /**
    The wait step of the loop (SCREEN_BIVAR.CPP:369-418). With every slot busy
    and work left, wait for one worker and harvest it; with everything
    dispatched, wait for all and drain (`done`); otherwise go on filling. A
    wait that reports no running slot fails the run.
  */
  method Await(maxThreads: nat, nCombo: nat, icombo: nat, nThreads: nat, emptySlot: int, nWaits: nat, waitResult: nat -> int,
               occupied: array<bool>, slotCombo: array<nat>, slotCrit: array<real>, crit: array<real>,
               ghost want: seq<real>, ghost where: seq<int>, ghost harvested: seq<nat>, ghost crit0: seq<real>)
    returns (status: Status, done: bool, nThreads': nat, emptySlot': int, nWaits': nat,
             ghost where': seq<int>, ghost harvested': seq<nat>)
    requires slotCrit != crit && 0 < nThreads && nCombo == |want|
    requires AfterDispatch(want, maxThreads, waitResult, icombo, nThreads, emptySlot, nWaits, occupied[..],
                           slotCombo[..], slotCrit[..], where, harvested, crit[..], crit0)
    modifies crit, occupied
    ensures status == Ok || status == InsufficientMemory
    ensures status == InsufficientMemory ==>
              !WaitsSucceed(waitResult, maxThreads, |want|) && Outcome(want, icombo, harvested', crit[..], crit0)
    ensures status == Ok && done ==>
              icombo == |want| && WaitsSucceed(waitResult, maxThreads, |want|) && crit[..] == want &&
              |harvested'| == |want| && Outcome(want, icombo, harvested', crit[..], crit0) &&
              forall c :: 0 <= c < |want| ==> c in harvested'
    ensures status == Ok && !done ==>
              icombo < |want| &&
              AtTop(want, maxThreads, waitResult, icombo, nThreads', emptySlot', nWaits', occupied[..],
                    slotCombo[..], slotCrit[..], where', harvested', crit[..], crit0)
  {
    status, done, nThreads', emptySlot', nWaits', where', harvested' := Ok, false, nThreads, emptySlot, nWaits, where, harvested;
    if nThreads == maxThreads && icombo < nCombo {
      // Every slot is busy and there is more to do: wait for one worker
      var r := waitResult(nWaits);
      if r < 0 || r >= nThreads {
        WaitOneFails(waitResult, maxThreads, nCombo, icombo);
        status := InsufficientMemory;
        return;
      }
      where', harvested' := Harvest(r, slotCombo, slotCrit, occupied, crit, want, maxThreads, waitResult, icombo,
                                    nWaits, emptySlot, where, harvested, crit0);
      nWaits' := nWaits + 1;
      emptySlot' := r;
      nThreads' := nThreads - 1;
    } else if icombo == nCombo {
      // Everything is dispatched: wait for all and harvest the running slots
      var r := waitResult(nWaits);
      if r < 0 || r >= nThreads {
        status := InsufficientMemory;
        return;
      }
      harvested' := Drain(nThreads, slotCombo, slotCrit, crit, want, maxThreads, where, harvested, crit0);
      done := true;
    } else {
      KeepFilling(want, maxThreads, waitResult, icombo, nThreads, emptySlot, nWaits, occupied[..],
                  slotCombo[..], slotCrit[..], where, harvested, crit[..], crit0);
    }
  }

  /**
    The drain (SCREEN_BIVAR.CPP:405-418): with every combination dispatched and
    exactly slots `0 .. nThreads-1` running, store each running slot's result.
    Afterwards `crit` holds every wanted criterion.
  */
  method Drain(nThreads: nat, slotCombo: array<nat>, slotCrit: array<real>, crit: array<real>,
               ghost want: seq<real>, ghost maxThreads: nat, ghost where: seq<int>, ghost harvested: seq<nat>,
               ghost crit0: seq<real>)
    returns (ghost harvested': seq<nat>)
    requires nThreads <= maxThreads && slotCrit != crit
    requires Bookkeeping(want, maxThreads, |want|, Occupancy(maxThreads, nThreads, -1), slotCombo[..], slotCrit[..],
                         where, harvested, crit[..], crit0)
    modifies crit
    ensures crit[..] == want
    ensures harvested' == harvested + slotCombo[..nThreads]
    ensures Outcome(want, |want|, harvested', crit[..], crit0) && forall c :: 0 <= c < |want| ==> c in harvested'
  {
    ghost var live := Occupancy(maxThreads, nThreads, -1);
    ghost var combos, crits := slotCombo[..], slotCrit[..];
    ghost var where' := where;
    harvested' := harvested;
    var i := 0;
    while i < nThreads
      invariant 0 <= i <= nThreads
      invariant |live| == maxThreads && forall s :: 0 <= s < maxThreads ==> (live[s] <==> i <= s < nThreads)
      invariant slotCombo[..] == combos && slotCrit[..] == crits
      invariant harvested' == harvested + combos[..i]
      invariant Bookkeeping(want, maxThreads, |want|, live, combos, crits, where', harvested', crit[..], crit0)
    {
      HarvestStep(want, maxThreads, |want|, live, combos, crits, where', harvested', crit[..], crit0, i);
      ghost var critBefore := crit[..];
      crit[slotCombo[i]] := slotCrit[i];
      assert crit[..] == critBefore[combos[i] := crits[i]];
      harvested' := harvested' + [slotCombo[i]];
      where' := where'[slotCombo[i] := -1];
      live := live[i := false];
      assert combos[..i + 1] == combos[..i] + [combos[i]];
      i := i + 1;
    }
    AllHarvested(want, maxThreads, live, combos, crits, where', harvested', crit[..], crit0);
  }

  /**
    One pass of the dispatch loop (SCREEN_BIVAR.CPP:305-418): dispatch the next
    combination if any is left, then wait. The pass ends the loop when the run
    fails, when everything has been harvested, or when nothing ran at all;
    otherwise it has dispatched exactly one more combination.
  */
  method Round(sc: Screening, maxThreads: nat, icombo: nat, nThreads: nat, emptySlot: int, nWaits: nat,
               ipred1: int, ipred2: int, itarget: int,
               occupied: array<bool>, slotCombo: array<nat>, slotCrit: array<real>,
               binCounts: array<int>, bivarCounts: array<int>, crit: array<real>,
               ghost want: seq<real>, waitResult: nat -> int, ghost where: seq<int>,
               ghost harvested: seq<nat>, ghost crit0: seq<real>)
    returns (status: Status, done: bool, icombo': nat, nThreads': nat, emptySlot': int, nWaits': nat,
             nextPred1: int, nextPred2: int, nextTarget: int, ghost where': seq<int>, ghost harvested': seq<nat>)
    requires sc.Valid() && want == AllCriteria(sc)
    requires Triple(ipred1, ipred2, itarget) == Walk(sc.npred, sc.ntarget, icombo)
    requires maxThreads * TableSize(sc.nbinsPred, sc.nbinsTarget) <= binCounts.Length
    requires maxThreads * (sc.nbinsPred * sc.nbinsPred) <= bivarCounts.Length
    requires binCounts != bivarCounts && slotCrit != crit
    requires occupied.Length == maxThreads && slotCombo.Length == maxThreads && slotCrit.Length == maxThreads
    requires AtTop(want, maxThreads, waitResult, icombo, nThreads, emptySlot, nWaits, occupied[..],
                   slotCombo[..], slotCrit[..], where, harvested, crit[..], crit0)
    modifies occupied, slotCombo, slotCrit, binCounts, bivarCounts, crit
    ensures status == Ok || status == InsufficientMemory
    ensures status == InsufficientMemory ==>
              !WaitsSucceed(waitResult, maxThreads, |want|) && Outcome(want, icombo', harvested', crit[..], crit0)
    ensures status == Ok && done ==>
              icombo' == |want| && WaitsSucceed(waitResult, maxThreads, |want|) && crit[..] == want &&
              |harvested'| == |want| && Outcome(want, icombo', harvested', crit[..], crit0) &&
              forall c :: 0 <= c < |want| ==> c in harvested'
    ensures status == Ok && !done ==>
              icombo' == icombo + 1 && Triple(nextPred1, nextPred2, nextTarget) == Walk(sc.npred, sc.ntarget, icombo') &&
              AtTop(want, maxThreads, waitResult, icombo', nThreads', emptySlot', nWaits', occupied[..],
                    slotCombo[..], slotCrit[..], where', harvested', crit[..], crit0)
  {
    icombo', nThreads', nextPred1, nextPred2, nextTarget, where' :=
      Launch(sc, maxThreads, icombo, nThreads, emptySlot, ipred1, ipred2, itarget, occupied, slotCombo, slotCrit,
             binCounts, bivarCounts, crit, want, waitResult, nWaits, where, harvested, crit0);
    if nThreads' == 0 {
      // Nothing was dispatched: there are no combinations at all
      status, done, emptySlot', nWaits', harvested' := Ok, true, emptySlot, nWaits, harvested;
      assert crit[..] == want;
      return;
    }
    status, done, nThreads', emptySlot', nWaits', where', harvested' :=
      Await(maxThreads, crit.Length, icombo', nThreads', emptySlot, nWaits, waitResult, occupied, slotCombo, slotCrit, crit,
            want, where', harvested, crit0);
  }

  /**
    One replication: evaluate every combination and store each criterion at its
    combination index (SCREEN_BIVAR.CPP:255-421).

    The run fails with InsufficientMemory exactly when some wait reports a slot
    that is not running. Combinations are handed to slots in index order, and
    `dispatched` counts them. `harvested` lists them in the order their results
    were stored. Every stored result is the criterion of its combination, and
    no entry of `crit` is written twice. On success every combination was
    dispatched once, in index order, and harvested exactly once, and `crit`
    holds the criterion of every combination.

    The loop keeps these facts:
    - `n_threads <= max_threads`.
    - A slot is refilled only after it has been harvested and freed.
    - The drain branch sees exactly slots `0 .. n_threads-1` occupied.
  */
  method BivarThreaded(maxThreads: nat, sc: Screening, crit: array<real>,
                       binCounts: array<int>, bivarCounts: array<int>, waitResult: nat -> int)
    returns (status: Status, ghost dispatched: nat, ghost harvested: seq<nat>)
    requires maxThreads >= 1 && sc.Valid()
    requires crit.Length == NCombo(sc.npred, sc.ntarget)
    requires maxThreads * TableSize(sc.nbinsPred, sc.nbinsTarget) <= binCounts.Length
    requires maxThreads * (sc.nbinsPred * sc.nbinsPred) <= bivarCounts.Length
    requires binCounts != bivarCounts
    modifies crit, binCounts, bivarCounts
    ensures status == Ok || status == InsufficientMemory
    ensures status == Ok <==> WaitsSucceed(waitResult, maxThreads, crit.Length)
    ensures Outcome(AllCriteria(sc), dispatched, harvested, crit[..], old(crit[..]))
    ensures status == Ok ==> dispatched == crit.Length && |harvested| == crit.Length
    ensures status == Ok ==> (forall c :: 0 <= c < crit.Length ==> c in harvested) && crit[..] == AllCriteria(sc)
  {
    var npred, ntarget := sc.npred, sc.ntarget;
    ghost var want := AllCriteria(sc);

    // The slots: threads[k] != NULL, bivar_params[k].icombo and bivar_params[k].crit
    var occupied := new bool[maxThreads](_ => false);
    var slotCombo := new nat[maxThreads](_ => 0);
    var slotCrit := new real[maxThreads](_ => 0.0);

    var nThreads := 0;
    var ipred1, ipred2, itarget, icombo := 0, 1, 0, 0;
    var nCombo := NCombo(npred, ntarget);
    var emptySlot := -1;
    // How many waits have happened: the next wait reports waitResult(nWaits)
    var nWaits := 0;
    // where[c] is the slot running combination c, or -1 once it has been harvested
    ghost var where: seq<int> := [];
    ghost var crit0 := crit[..];
    harvested := [];
    assert occupied[..] == seq(maxThreads, _ => false);
    assert slotCombo[..] == seq(maxThreads, _ => 0);
    assert slotCrit[..] == seq(maxThreads, _ => 0.0);
    BookkeepingStart(want, maxThreads, crit0);
    assert occupied[..] == Occupancy(maxThreads, 0, -1);

    while true
      invariant nCombo == crit.Length == |want|
      invariant Triple(ipred1, ipred2, itarget) == Walk(npred, ntarget, icombo)
      invariant AtTop(want, maxThreads, waitResult, icombo, nThreads, emptySlot, nWaits, occupied[..],
                      slotCombo[..], slotCrit[..], where, harvested, crit[..], crit0)
      decreases nCombo - icombo
    {
      var done;
      status, done, icombo, nThreads, emptySlot, nWaits, ipred1, ipred2, itarget, where, harvested :=
        Round(sc, maxThreads, icombo, nThreads, emptySlot, nWaits, ipred1, ipred2, itarget, occupied, slotCombo, slotCrit,
              binCounts, bivarCounts, crit, want, waitResult, where, harvested, crit0);
      if status != Ok {
        dispatched := icombo;
        return;
      }
      if done {
        break;
      }
    }
    status := Ok;
    dispatched := icombo;
  }
}
