/**
  The driver `screen_bivar` of SCREEN_BIVAR.CPP:433-880, without its input,
  printing and numerics.

  It checks the number of combinations against the ceiling of 100,000,
  rejects a study whose partitions produced fewer bins than requested,
  counts the marginals, and runs the Monte-Carlo permutation test:
  replication 0 on the original targets, every later one on targets
  shuffled in place, each evaluating every combination through
  `bivar_threaded` and updating the counters.  After the replications the
  report walks the combinations from the best down and recovers each one's
  predictors and target from its index.

  The bins are the output of `partition`, which is not part of this model:
  the driver receives them, together with the number of bins each variable
  actually reached.
*/
module ScreenBivar {
  import opened Flat
  import opened Enumerator
  import opened ContingencyTable
  import opened Scheduler
  import opened Shuffle
  import opened Marginals
  import opened Mcpt

  /** At most this many combinations are screened (SCREEN_BIVAR.CPP:506). */
  const MaxCombos := 100000

  // ---------------------------------------------------------------------------
  // The combination count in 32-bit arithmetic

  const TwoTo31: int := 0x8000_0000
  const TwoTo32: int := 0x1_0000_0000

  /** A 32-bit `int` result: `x` reduced into `-2^31 .. 2^31-1` modulo `2^32`. */
  function Wrap32(x: int): (r: int)
    ensures -TwoTo31 <= r < TwoTo31
    ensures -TwoTo31 <= x < TwoTo31 ==> r == x
    ensures (x - r) % TwoTo32 == 0
  {
    (x + TwoTo31) % TwoTo32 - TwoTo31
  }

  /** C's integer division by a positive divisor: the quotient truncated toward zero. */
  function DivTrunc(a: int, b: int): (q: int)
    requires b > 0
    ensures 0 <= a ==> q == a / b
    ensures a < 0 ==> q == -((-a) / b)
  {
    if a >= 0 then a / b else -((-a) / b)
  }

  /**
    `n_combo` as SCREEN_BIVAR.CPP:470 computes it in `int`: the product of the
    predictor counts, halved, times the number of targets, each product
    wrapping modulo `2^32`.
  */
  function NComboAsWritten(npred: nat, ntarget: nat): (n: int)
    ensures -TwoTo31 <= n < TwoTo31
  {
    Wrap32(DivTrunc(Wrap32(npred * (npred - 1)), 2) * ntarget)
  }

  /** The ceiling test of SCREEN_BIVAR.CPP:506-510 applied to the 32-bit count. */
  function CeilingAsWritten(npred: nat, ntarget: nat): Status
  {
    if NComboAsWritten(npred, ntarget) > MaxCombos then InsufficientMemory else Ok
  }

  /**
    Two studies far beyond the ceiling that the 32-bit count lets through:
    65537 predictors and one target wrap to 32768 combinations, and 2000
    predictors with 1200 targets wrap to a negative count.
  */
  lemma CeilingBypassed()
    ensures NCombo(65537, 1) == 2147516416 && NComboAsWritten(65537, 1) == 32768
    ensures NCombo(2000, 1200) == 2398800000 && NComboAsWritten(2000, 1200) == -1896167296
    ensures CeilingAsWritten(65537, 1) == Ok && Ceiling(65537, 1) == InsufficientMemory
    ensures CeilingAsWritten(2000, 1200) == Ok && Ceiling(2000, 1200) == InsufficientMemory
  {
  }

  /** Below the ceiling the 32-bit count is exact. */
  lemma CeilingExact(npred: nat, ntarget: nat)
    requires NCombo(npred, ntarget) <= MaxCombos
    ensures NComboAsWritten(npred, ntarget) == NCombo(npred, ntarget)
  {
    var p := npred * (npred - 1);
    var h := p / 2;
    assert NCombo(npred, ntarget) == h * ntarget;
    if ntarget == 0 {
      assert DivTrunc(Wrap32(p), 2) * ntarget == 0;
    } else {
      if npred > 0 {
        MulLeft(0, npred - 1, npred);
      }
      assert 0 <= p;
      MulLeft(1, ntarget, h);
      assert 0 <= h <= h * ntarget <= MaxCombos;
      assert Wrap32(p) == p;
      assert DivTrunc(Wrap32(p), 2) * ntarget == h * ntarget;
    }
  }

  /**
    The ceiling test on the exact count: a study with more than 100,000
    combinations fails for lack of memory, and one that passes has a count
    that 32-bit arithmetic represents exactly.
  */
  function Ceiling(npred: nat, ntarget: nat): (status: Status)
    ensures status == InsufficientMemory <==> NCombo(npred, ntarget) > MaxCombos
    ensures status == Ok ==> NComboAsWritten(npred, ntarget) == NCombo(npred, ntarget)
    ensures status == Ok || status == InsufficientMemory
  {
    if NCombo(npred, ntarget) > MaxCombos then InsufficientMemory
    else
      CeilingExact(npred, ntarget);
      Ok
  }

  // ---------------------------------------------------------------------------
  // Partitions

  /** Every variable reached the number of bins requested for it. */
  predicate AllBinsReached(achieved: seq<int>, nbins: int)
  {
    forall i :: 0 <= i < |achieved| ==> achieved[i] >= nbins
  }

  /**
    The check after each variable is partitioned (SCREEN_BIVAR.CPP:555-596):
    the predictors first, then the targets; the first one with fewer bins
    than requested ends the study with a syntax error.
  */
  method CheckPartitions(npred: nat, ntarget: nat, nbinsPred: int, nbinsTarget: int,
                         achievedPred: seq<int>, achievedTarget: seq<int>)
    returns (status: Status)
    requires |achievedPred| == npred && |achievedTarget| == ntarget
    ensures status == Ok || status == SyntaxError
    ensures status == Ok <==> AllBinsReached(achievedPred, nbinsPred) && AllBinsReached(achievedTarget, nbinsTarget)
  {
    for ivar := 0 to npred + ntarget
      invariant forall i :: 0 <= i < npred && i < ivar ==> achievedPred[i] >= nbinsPred
      invariant forall i :: 0 <= i < ntarget && npred + i < ivar ==> achievedTarget[i] >= nbinsTarget
    {
      if ivar < npred {
        var k := achievedPred[ivar];
        if k < nbinsPred {
          return SyntaxError;
        }
      } else {
        var k := achievedTarget[ivar - npred];
        if k < nbinsTarget {
          return SyntaxError;
        }
      }
    }
    return Ok;
  }

  // ---------------------------------------------------------------------------
  // Replications

  /** The number of replications actually run: at least the unpermuted one (SCREEN_BIVAR.CPP:703-704). */
  function ClampReps(mcptReps: int): (reps: nat)
    ensures reps >= 1
    ensures mcptReps >= 1 ==> reps == mcptReps
    ensures mcptReps < 1 ==> reps == 1
  {
    if mcptReps < 1 then 1 else mcptReps
  }

  /** Every one of the first `n` replications finds each of its waits answered by a running slot. */
  predicate AllRepsSucceed(waitResults: nat -> nat -> int, maxThreads: nat, nCombo: int, n: nat)
  {
    forall irep: nat :: irep < n ==> WaitsSucceed(waitResults(irep), maxThreads, nCombo)
  }

  lemma AllRepsSucceedStep(waitResults: nat -> nat -> int, maxThreads: nat, nCombo: int, n: nat)
    requires AllRepsSucceed(waitResults, maxThreads, nCombo, n)
    requires WaitsSucceed(waitResults(n), maxThreads, nCombo)
    ensures AllRepsSucceed(waitResults, maxThreads, nCombo, n + 1)
  {
  }

  lemma AllRepsSucceedFails(waitResults: nat -> nat -> int, maxThreads: nat, nCombo: int, irep: nat, n: nat)
    requires irep < n && !WaitsSucceed(waitResults(irep), maxThreads, nCombo)
    ensures !AllRepsSucceed(waitResults, maxThreads, nCombo, n)
  {
  }

  /**
    The shuffle at the top of replication `irep` (SCREEN_BIVAR.CPP:713-744)
    takes the targets `before` to `after` and the draw counter `next` to
    `next'`: no shuffle in replication 0, the complete shuffle for type 1,
    the cyclic one for type 2, and none for any other type.
  */
  ghost predicate Permuted(irep: nat, mcptType: int, before: seq<int>, after: seq<int>,
                           ntarget: nat, ncases: nat, draw: nat -> real, next: nat, next': nat)
    requires |before| == ntarget * ncases && |after| == ntarget * ncases && NonNegative(draw)
  {
    if irep == 0 || (mcptType != 1 && mcptType != 2) then
      after == before && next' == next
    else if mcptType == 1 then
      CompletelyShuffled(before, after, ntarget, ncases, draw, next) && next' == next + DrawsUsed(ncases)
    else
      CyclicallyShifted(before, after, ntarget, ncases, DrawIndex(draw(next), ncases)) && next' == next + 1
  }

  /** The draws used before replication `irep`: none by replication 0, then as many per replication as its shuffle takes. */
  function DrawsBefore(mcptType: int, ncases: nat, irep: nat): nat
  {
    if irep <= 1 then 0
    else DrawsBefore(mcptType, ncases, irep - 1) +
         (if mcptType == 1 then DrawsUsed(ncases) else if mcptType == 2 then 1 else 0)
  }

  /** The shuffle at the top of replication `irep`; `next` counts the draws used so far. */
  method PermuteTargets(irep: nat, mcptType: int, targetBin: array<int>, workBin: array<int>,
                        ntarget: nat, ncases: nat, draw: nat -> real, next: nat)
    returns (next': nat)
    requires targetBin.Length == ntarget * ncases && ncases <= workBin.Length && targetBin != workBin
    requires NonNegative(draw)
    modifies targetBin, workBin
    ensures Permuted(irep, mcptType, old(targetBin[..]), targetBin[..], ntarget, ncases, draw, next, next')
    ensures BlocksPermuted(old(targetBin[..]), targetBin[..], ntarget, ncases)
  {
    next' := next;
    if irep > 0 {
      ghost var before := targetBin[..];
      if mcptType == 1 {
        CompleteShuffle(targetBin, ntarget, ncases, draw, next);
        CompleteShufflePermutes(before, targetBin[..], ntarget, ncases, draw, next);
        next' := next + DrawsUsed(ncases);
      } else if mcptType == 2 {
        CyclicShuffle(targetBin, workBin, ntarget, ncases, draw(next));
        CyclicShufflePermutes(before, targetBin[..], ntarget, ncases, DrawIndex(draw(next), ncases));
        next' := next + 1;
      }
    }
  }

  /** Every entry is a target buffer of the study's shape whose bins are in range. */
  ghost predicate TargetsShaped(sc0: Screening, targets: seq<seq<int>>)
  {
    forall k :: 0 <= k < |targets| ==>
      |targets[k]| == sc0.ntarget * sc0.ncases && InRange(targets[k], sc0.nbinsTarget)
  }

  /**
    The targets each replication evaluated: replication 0 the study's own,
    and every later one the previous replication's targets shuffled by it,
    with the draws that follow those of the replications before it.
  */
  ghost predicate TargetHistory(sc0: Screening, mcptType: int, draw: nat -> real, targets: seq<seq<int>>)
    requires NonNegative(draw)
  {
    TargetsShaped(sc0, targets) &&
    (|targets| > 0 ==> targets[0] == sc0.targetBin) &&
    forall k :: 1 <= k < |targets| ==>
      Permuted(k, mcptType, targets[k - 1], targets[k], sc0.ntarget, sc0.ncases, draw,
               DrawsBefore(mcptType, sc0.ncases, k), DrawsBefore(mcptType, sc0.ncases, k + 1))
  }

  /** The criteria of every permuted replication of the history, in order. */
  ghost function HistoryCriteria(sc0: Screening, targets: seq<seq<int>>): (crits: seq<seq<real>>)
    requires sc0.Valid() && TargetsShaped(sc0, targets)
    ensures |crits| == if |targets| == 0 then 0 else |targets| - 1
    ensures AllOfLength(crits, NCombo(sc0.npred, sc0.ntarget))
  {
    if |targets| <= 1 then []
    else
      var n := |targets| - 1;
      assert forall k :: 0 <= k < n ==> targets[..n][k] == targets[k];
      HistoryCriteria(sc0, targets[..n]) + [AllCriteria(sc0.(targetBin := targets[n]))]
  }

  /** Replication `irep`'s shuffle extends the history by the targets it evaluates. */
  lemma HistorySnoc(sc0: Screening, mcptType: int, draw: nat -> real, targets: seq<seq<int>>, irep: nat,
                    before: seq<int>, after: seq<int>, next: nat, next': nat)
    requires sc0.Valid() && NonNegative(draw)
    requires |targets| == irep && TargetHistory(sc0, mcptType, draw, targets)
    requires irep == 0 ==> before == sc0.targetBin
    requires irep >= 1 ==> before == targets[irep - 1]
    requires next == DrawsBefore(mcptType, sc0.ncases, irep)
    requires |before| == sc0.ntarget * sc0.ncases && |after| == sc0.ntarget * sc0.ncases
    requires InRange(after, sc0.nbinsTarget)
    requires Permuted(irep, mcptType, before, after, sc0.ntarget, sc0.ncases, draw, next, next')
    ensures TargetHistory(sc0, mcptType, draw, targets + [after])
    ensures next' == DrawsBefore(mcptType, sc0.ncases, irep + 1)
  {
    var targets' := targets + [after];
    forall k | 0 <= k < |targets'|
      ensures |targets'[k]| == sc0.ntarget * sc0.ncases && InRange(targets'[k], sc0.nbinsTarget)
    {
      if k < irep {
        assert targets'[k] == targets[k];
      }
    }
    assert TargetsShaped(sc0, targets');
    forall k | 1 <= k < |targets'|
      ensures Permuted(k, mcptType, targets'[k - 1], targets'[k], sc0.ntarget, sc0.ncases, draw,
                       DrawsBefore(mcptType, sc0.ncases, k), DrawsBefore(mcptType, sc0.ncases, k + 1))
    {
      if k < irep {
        assert targets'[k - 1] == targets[k - 1] && targets'[k] == targets[k];
      }
    }
  }

  /** The criteria of the permuted replications grow by those of the targets appended. */
  lemma HistoryCriteriaSnoc(sc0: Screening, targets: seq<seq<int>>, after: seq<int>)
    requires sc0.Valid() && TargetsShaped(sc0, targets) && |targets| >= 1
    requires |after| == sc0.ntarget * sc0.ncases && InRange(after, sc0.nbinsTarget)
    ensures TargetsShaped(sc0, targets + [after])
    ensures HistoryCriteria(sc0, targets + [after]) ==
            HistoryCriteria(sc0, targets) + [AllCriteria(sc0.(targetBin := after))]
  {
  }

  /**
    After the replications whose targets are `targets`, the original
    criteria are those of the study's own targets and the counters are the
    counts over the permuted replications' criteria.
  */
  ghost predicate Counted(sc0: Screening, mcptType: int, draw: nat -> real, targets: seq<seq<int>>,
                          orig: seq<real>, solo: seq<int>, bestof: seq<int>)
    requires sc0.Valid() && NonNegative(draw)
  {
    TargetHistory(sc0, mcptType, draw, targets) &&
    orig == AllCriteria(sc0) &&
    solo == SoloCounts(orig, HistoryCriteria(sc0, targets)) &&
    bestof == BestofCounts(orig, HistoryCriteria(sc0, targets)) &&
    McptInv(solo, bestof, orig, |targets|)
  }

  /** Replication `irep` adds its targets to the history and its counts to the counters. */
  lemma RecordReplication(sc0: Screening, mcptType: int, draw: nat -> real, targets: seq<seq<int>>, irep: nat,
                          after: seq<int>, orig: seq<real>, solo0: seq<int>, bestof0: seq<int>,
                          solo: seq<int>, bestof: seq<int>)
    requires sc0.Valid() && NonNegative(draw)
    requires |targets| == irep && TargetHistory(sc0, mcptType, draw, targets + [after])
    requires irep >= 1 ==> Counted(sc0, mcptType, draw, targets, orig, solo0, bestof0)
    requires orig == AllCriteria(sc0)
    requires irep == 0 ==> solo == Ones(|orig|) && bestof == Ones(|orig|)
    requires irep >= 1 ==> InRange(after, sc0.nbinsTarget) && |after| == sc0.ntarget * sc0.ncases &&
                           solo == SoloStep(solo0, AllCriteria(sc0.(targetBin := after)), orig) &&
                           bestof == BestofStep(bestof0, AllCriteria(sc0.(targetBin := after)), orig)
    ensures Counted(sc0, mcptType, draw, targets + [after], orig, solo, bestof)
  {
    if irep >= 1 {
      HistoryCriteriaSnoc(sc0, targets, after);
      CountsSnoc(orig, HistoryCriteria(sc0, targets), AllCriteria(sc0.(targetBin := after)));
    }
    McptCounts(orig, HistoryCriteria(sc0, targets + [after]));
  }

  /**
    One replication (SCREEN_BIVAR.CPP:713-803): shuffle the targets unless it
    is replication 0, evaluate every combination, and update the counters.
  */
  method Replicate(sc0: Screening, irep: nat, mcptType: int, maxThreads: nat, draw: nat -> real, next: nat,
                   waitResult: nat -> int, targetBin: array<int>, workBin: array<int>, crit: array<real>,
                   binCounts: array<int>, bivarCounts: array<int>, origA: array<real>, sortedA: array<real>,
                   index: array<int>, soloA: array<int>, bestofA: array<int>)
    returns (status: Status, next': nat)
    requires sc0.Valid() && maxThreads >= 1 && NonNegative(draw)
    requires targetBin.Length == sc0.ntarget * sc0.ncases && sc0.ncases <= workBin.Length
    requires crit.Length == origA.Length == sortedA.Length == index.Length == soloA.Length == bestofA.Length
             == NCombo(sc0.npred, sc0.ntarget)
    requires maxThreads * TableSize(sc0.nbinsPred, sc0.nbinsTarget) <= binCounts.Length
    requires maxThreads * (sc0.nbinsPred * sc0.nbinsPred) <= bivarCounts.Length
    requires crit != origA && crit != sortedA && origA != sortedA
    requires targetBin != workBin && targetBin != binCounts && targetBin != bivarCounts
    requires targetBin != index && targetBin != soloA && targetBin != bestofA
    requires workBin != binCounts && workBin != bivarCounts
    requires workBin != index && workBin != soloA && workBin != bestofA
    requires binCounts != bivarCounts && binCounts != index && binCounts != soloA && binCounts != bestofA
    requires bivarCounts != index && bivarCounts != soloA && bivarCounts != bestofA
    requires index != soloA && index != bestofA && soloA != bestofA
    requires irep == 0 ==> targetBin[..] == sc0.targetBin
    requires BlocksPermuted(sc0.targetBin, targetBin[..], sc0.ntarget, sc0.ncases)
    requires irep >= 1 ==> origA[..] == AllCriteria(sc0)
    modifies targetBin, workBin, crit, binCounts, bivarCounts, origA, sortedA, index, soloA, bestofA
    ensures status == Ok || status == InsufficientMemory
    ensures status == Ok <==> WaitsSucceed(waitResult, maxThreads, NCombo(sc0.npred, sc0.ntarget))
    ensures Permuted(irep, mcptType, old(targetBin[..]), targetBin[..], sc0.ntarget, sc0.ncases, draw, next, next')
    ensures BlocksPermuted(sc0.targetBin, targetBin[..], sc0.ntarget, sc0.ncases)
    ensures InRange(targetBin[..], sc0.nbinsTarget)
    ensures status == Ok && irep == 0 ==>
              origA[..] == AllCriteria(sc0) && soloA[..] == Ones(origA.Length) && bestofA[..] == Ones(origA.Length)
    ensures status == Ok && irep >= 1 ==>
              origA[..] == old(origA[..]) &&
              soloA[..] == SoloStep(old(soloA[..]), AllCriteria(sc0.(targetBin := targetBin[..])), origA[..]) &&
              bestofA[..] == BestofStep(old(bestofA[..]), AllCriteria(sc0.(targetBin := targetBin[..])), origA[..])
  {
    var ntarget, ncases := sc0.ntarget, sc0.ncases;
    ghost var before := targetBin[..];
    next' := PermuteTargets(irep, mcptType, targetBin, workBin, ntarget, ncases, draw, next);
    BlocksPermutedTrans(sc0.targetBin, before, targetBin[..], ntarget, ncases);
    BlocksPermutedWhole(sc0.targetBin, targetBin[..], ntarget, ncases);
    InRangePermuted(sc0.targetBin, targetBin[..], sc0.nbinsTarget);

    var sc := sc0.(targetBin := targetBin[..]);
    var st, _, _ := BivarThreaded(maxThreads, sc, crit, binCounts, bivarCounts, waitResult);
    status := st;
    if status != Ok {
      return;
    }
    assert irep == 0 ==> sc == sc0;
    UpdateMcpt(irep, crit, origA, sortedA, index, soloA, bestofA);
  }

  /** A copy of `s` in a new array. */
  method ToArray(s: seq<int>) returns (a: array<int>)
    ensures fresh(a) && a[..] == s
  {
    a := new int[|s|](i requires 0 <= i < |s| => s[i]);
  }

  /**
    The study after partitioning (SCREEN_BIVAR.CPP:470-803).  `predBins` and
    `targetBins` are the bins `partition` assigned, `achievedPred` and
    `achievedTarget` the numbers of bins it reached, `draw` the uniform
    random numbers, and `waitResults(irep)` the slots the waits of
    replication `irep` report.  On success it returns every combination's
    original criterion, the two counters, and the target marginal counts.
  */
  method ScreenBivar(stat: Statistic, num: Numerics, ncases: nat,
                     npred: nat, nbinsPred: nat, predBins: seq<int>, achievedPred: seq<int>,
                     ntarget: nat, nbinsTarget: nat, targetBins: seq<int>, achievedTarget: seq<int>,
                     mcptType: int, mcptReps: int, maxThreads: nat,
                     draw: nat -> real, waitResults: nat -> nat -> int)
    returns (status: Status, originalCrits: seq<real>, solo: seq<int>, bestof: seq<int>, targetCounts: seq<int>,
             ghost targets: seq<seq<int>>)
    requires maxThreads >= 1 && NonNegative(draw)
    requires |predBins| == npred * ncases && InRange(predBins, nbinsPred)
    requires |targetBins| == ntarget * ncases && InRange(targetBins, nbinsTarget)
    requires |achievedPred| == npred && |achievedTarget| == ntarget
    ensures NCombo(npred, ntarget) > MaxCombos ==> status == InsufficientMemory
    ensures NCombo(npred, ntarget) <= MaxCombos ==>
              (status == SyntaxError <==>
               !(AllBinsReached(achievedPred, nbinsPred) && AllBinsReached(achievedTarget, nbinsTarget)))
    ensures status == Ok <==>
              NCombo(npred, ntarget) <= MaxCombos &&
              AllBinsReached(achievedPred, nbinsPred) && AllBinsReached(achievedTarget, nbinsTarget) &&
              AllRepsSucceed(waitResults, maxThreads, NCombo(npred, ntarget), ClampReps(mcptReps))
    ensures status == Ok ==>
              |targetCounts| == ntarget * nbinsTarget &&
              CountsOf(targetCounts, targetBins, ntarget, ncases, nbinsTarget) &&
              var sc := Screening(stat, num, ncases, npred, nbinsPred, predBins,
                                  ntarget, nbinsTarget, targetBins, targetCounts);
              originalCrits == AllCriteria(sc) &&
              |targets| == ClampReps(mcptReps) && TargetHistory(sc, mcptType, draw, targets) &&
              solo == SoloCounts(originalCrits, HistoryCriteria(sc, targets)) &&
              bestof == BestofCounts(originalCrits, HistoryCriteria(sc, targets)) &&
              McptInv(solo, bestof, originalCrits, ClampReps(mcptReps))
  {
    originalCrits, solo, bestof, targetCounts, targets := [], [], [], [], [];
    status := Ceiling(npred, ntarget);
    if status != Ok {
      return;
    }
    status := CheckPartitions(npred, ntarget, nbinsPred, nbinsTarget, achievedPred, achievedTarget);
    if status != Ok {
      return;
    }

    var predBin := ToArray(predBins);
    var predMarginal := new int[npred * nbinsPred];
    CountMarginals(predMarginal, predBin, npred, ncases, nbinsPred);
    var targetBin := ToArray(targetBins);
    var targetMarginal := new int[ntarget * nbinsTarget];
    CountMarginals(targetMarginal, targetBin, ntarget, ncases, nbinsTarget);
    targetCounts := targetMarginal[..];
    var sc0 := Screening(stat, num, ncases, npred, nbinsPred, predBins, ntarget, nbinsTarget, targetBins, targetCounts);
    var ok;
    ok, originalCrits, solo, bestof, targets :=
      Replications(sc0, mcptType, ClampReps(mcptReps), maxThreads, draw, waitResults);
    if !ok {
      status := InsufficientMemory;
    }
  }

  /**
    The work areas (SCREEN_BIVAR.CPP:517-540) and the replications
    (706-805): replication 0 on the targets of `sc0`, the others on targets
    shuffled in place, each evaluating every combination and updating the
    counters.  It stops at the first replication whose evaluation fails.
  */
  method Replications(sc0: Screening, mcptType: int, reps: nat, maxThreads: nat,
                      draw: nat -> real, waitResults: nat -> nat -> int)
    returns (ok: bool, originalCrits: seq<real>, solo: seq<int>, bestof: seq<int>, ghost targets: seq<seq<int>>)
    requires sc0.Valid() && maxThreads >= 1 && reps >= 1 && NonNegative(draw)
    ensures ok <==> AllRepsSucceed(waitResults, maxThreads, NCombo(sc0.npred, sc0.ntarget), reps)
    ensures TargetHistory(sc0, mcptType, draw, targets)
    ensures ok ==> |targets| == reps && originalCrits == AllCriteria(sc0) &&
                   solo == SoloCounts(originalCrits, HistoryCriteria(sc0, targets)) &&
                   bestof == BestofCounts(originalCrits, HistoryCriteria(sc0, targets)) &&
                   McptInv(solo, bestof, originalCrits, reps)
  {
    originalCrits, solo, bestof := [], [], [];
    var npred, ntarget, ncases := sc0.npred, sc0.ntarget, sc0.ncases;
    var nbinsPred, nbinsTarget := sc0.nbinsPred, sc0.nbinsTarget;
    var targetBin := ToArray(sc0.targetBin);
    NComboIsPairsTimesTargets(npred, ntarget);
    var nCombo := NCombo(npred, ntarget);
    var crit := new real[nCombo];
    var origA := new real[nCombo];
    var sortedA := new real[nCombo];
    var index := new int[nCombo];
    var soloA := new int[nCombo];
    var bestofA := new int[nCombo];
    var binCounts := new int[maxThreads * TableSize(nbinsPred, nbinsTarget)];
    var bivarCounts := new int[maxThreads * (nbinsPred * nbinsPred)];
    var workBin := new int[ncases];

    ok, targets := RunReplications(sc0, mcptType, reps, maxThreads, draw, waitResults,
                          targetBin, workBin, crit, binCounts, bivarCounts, origA, sortedA, index, soloA, bestofA);
    if ok {
      originalCrits, solo, bestof := origA[..], soloA[..], bestofA[..];
    }
  }

  /**
    The replication loop (SCREEN_BIVAR.CPP:706-805) over work areas already
    allocated, the targets still unshuffled.  `targets` records the targets
    each replication started evaluated.
  */
  method RunReplications(sc0: Screening, mcptType: int, reps: nat, maxThreads: nat,
                         draw: nat -> real, waitResults: nat -> nat -> int,
                         targetBin: array<int>, workBin: array<int>, crit: array<real>,
                         binCounts: array<int>, bivarCounts: array<int>, origA: array<real>, sortedA: array<real>,
                         index: array<int>, soloA: array<int>, bestofA: array<int>)
    returns (ok: bool, ghost targets: seq<seq<int>>)
    requires sc0.Valid() && maxThreads >= 1 && reps >= 1 && NonNegative(draw)
    requires targetBin.Length == sc0.ntarget * sc0.ncases && sc0.ncases <= workBin.Length
    requires crit.Length == origA.Length == sortedA.Length == index.Length == soloA.Length == bestofA.Length
             == NCombo(sc0.npred, sc0.ntarget)
    requires maxThreads * TableSize(sc0.nbinsPred, sc0.nbinsTarget) <= binCounts.Length
    requires maxThreads * (sc0.nbinsPred * sc0.nbinsPred) <= bivarCounts.Length
    requires crit != origA && crit != sortedA && origA != sortedA
    requires targetBin != workBin && targetBin != binCounts && targetBin != bivarCounts
    requires targetBin != index && targetBin != soloA && targetBin != bestofA
    requires workBin != binCounts && workBin != bivarCounts
    requires workBin != index && workBin != soloA && workBin != bestofA
    requires binCounts != bivarCounts && binCounts != index && binCounts != soloA && binCounts != bestofA
    requires bivarCounts != index && bivarCounts != soloA && bivarCounts != bestofA
    requires index != soloA && index != bestofA && soloA != bestofA
    requires targetBin[..] == sc0.targetBin
    modifies targetBin, workBin, crit, binCounts, bivarCounts, origA, sortedA, index, soloA, bestofA
    ensures ok <==> AllRepsSucceed(waitResults, maxThreads, NCombo(sc0.npred, sc0.ntarget), reps)
    ensures TargetHistory(sc0, mcptType, draw, targets)
    ensures ok ==> |targets| == reps && origA[..] == AllCriteria(sc0) &&
                   soloA[..] == SoloCounts(origA[..], HistoryCriteria(sc0, targets)) &&
                   bestofA[..] == BestofCounts(origA[..], HistoryCriteria(sc0, targets)) &&
                   McptInv(soloA[..], bestofA[..], origA[..], reps)
  {
    var nCombo := crit.Length;
    var next: nat := 0;
    var irep: nat := 0;
    targets := [];
    while irep < reps
      invariant irep <= reps && |targets| == irep
      invariant TargetHistory(sc0, mcptType, draw, targets)
      invariant next == DrawsBefore(mcptType, sc0.ncases, irep)
      invariant irep == 0 ==> targetBin[..] == sc0.targetBin
      invariant irep >= 1 ==> targetBin[..] == targets[irep - 1]
      invariant BlocksPermuted(sc0.targetBin, targetBin[..], sc0.ntarget, sc0.ncases)
      invariant irep >= 1 ==> Counted(sc0, mcptType, draw, targets, origA[..], soloA[..], bestofA[..])
      invariant AllRepsSucceed(waitResults, maxThreads, nCombo, irep)
    {
      ghost var before, solo0, bestof0 := targetBin[..], soloA[..], bestofA[..];
      var st, next' := Replicate(sc0, irep, mcptType, maxThreads, draw, next, waitResults(irep),
                                 targetBin, workBin, crit, binCounts, bivarCounts, origA, sortedA, index, soloA, bestofA);
      HistorySnoc(sc0, mcptType, draw, targets, irep, before, targetBin[..], next, next');
      if st != Ok {
        AllRepsSucceedFails(waitResults, maxThreads, nCombo, irep, reps);
        return false, targets + [targetBin[..]];
      }
      RecordReplication(sc0, mcptType, draw, targets, irep, targetBin[..], origA[..], solo0, bestof0,
                        soloA[..], bestofA[..]);
      targets := targets + [targetBin[..]];
      next := next';
      AllRepsSucceedStep(waitResults, maxThreads, nCombo, irep);
      irep := irep + 1;
    }
    return true, targets;
  }

  // ---------------------------------------------------------------------------
  // The report

  /**
    The combination of index `k`, found by stepping the nested counters from
    the first combination, as the report does (SCREEN_BIVAR.CPP:849-866).
  */
  method FindCombo(npred: nat, ntarget: nat, nCombo: int, k: nat) returns (t: Triple)
    requires nCombo == NCombo(npred, ntarget) && k < nCombo
    ensures t == IndexToTriple(npred, ntarget, k)
    ensures ValidTriple(npred, ntarget, t)
  {
    var ipred1, ipred2, itarget := 0, 1, 0;
    var icombo: nat := 0;
    while icombo < nCombo
      invariant icombo <= k
      invariant Triple(ipred1, ipred2, itarget) == Walk(npred, ntarget, icombo)
      decreases nCombo - icombo
    {
      if icombo == k {
        break;
      }
      if itarget < ntarget - 1 {
        itarget := itarget + 1;
      } else {
        itarget := 0;
        if ipred2 < npred - 1 {
          ipred2 := ipred2 + 1;
        } else {
          ipred1 := ipred1 + 1;
          ipred2 := ipred1 + 1;
        }
      }
      icombo := icombo + 1;
    }
    WalkAgrees(npred, ntarget, k);
    t := Triple(ipred1, ipred2, itarget);
  }

  /**
    The rows the report prints (SCREEN_BIVAR.CPP:840-880): ranks from the
    best down, through the sort index, at most `maxPrinted` of them.
  */
  method ReportOrder(npred: nat, ntarget: nat, nCombo: int, index: seq<int>, maxPrinted: int)
    returns (rows: seq<Triple>)
    requires nCombo == NCombo(npred, ntarget) && |index| == nCombo
    requires InRange(index, nCombo)
    ensures |rows| == Min(nCombo, if maxPrinted < 0 then 0 else maxPrinted)
    ensures forall r :: 0 <= r < |rows| ==>
              rows[r] == IndexToTriple(npred, ntarget, index[nCombo - 1 - r]) && ValidTriple(npred, ntarget, rows[r])
  {
    rows := [];
    var printed := maxPrinted;
    var i := nCombo - 1;
    while i >= 0
      invariant -1 <= i < nCombo
      invariant |rows| == nCombo - 1 - i && printed == maxPrinted - |rows|
      invariant |rows| == 0 || |rows| <= maxPrinted
      invariant forall r :: 0 <= r < |rows| ==>
                  rows[r] == IndexToTriple(npred, ntarget, index[nCombo - 1 - r]) && ValidTriple(npred, ntarget, rows[r])
    {
      if printed <= 0 {
        break;
      }
      printed := printed - 1;
      var t := FindCombo(npred, ntarget, nCombo, index[i]);
      rows := rows + [t];
      i := i - 1;
    }
  }
}
