/**
  The Monte-Carlo permutation test counters of SCREEN_BIVAR.CPP:778-803.

  Replication 0 works on the original data and records every combination's
  criterion; every later replication works on shuffled targets.  For each
  combination, `solo` counts the replications whose criterion for that
  combination reached the original one, and `bestof` counts those whose
  best criterion over all combinations reached it (replication 0 counts
  once in both).  Dividing by the number of replications gives the two
  p-values; the division is not part of this model.
*/
module Mcpt {
  import opened Flat

  /** The best criterion, found the way the source's running `best_crit` finds it. */
  function MaxOf(s: seq<real>): (m: real)
    requires |s| > 0
    ensures m in s
  {
    if |s| == 1 then s[0]
    else
      var m := MaxOf(s[..|s| - 1]);
      if s[|s| - 1] > m then s[|s| - 1] else m
  }

  /** No criterion exceeds the best one. */
  lemma {:induction false} MaxOfIsUpperBound(s: seq<real>, i: nat)
    requires 0 <= i < |s|
    ensures s[i] <= MaxOf(s)
    decreases |s|
  {
    if |s| > 1 && i < |s| - 1 {
      MaxOfIsUpperBound(s[..|s| - 1], i);
    }
  }

  function Ones(n: nat): (s: seq<int>)
    ensures |s| == n
  {
    seq(n, _ => 1)
  }

  /** Solo counts after one permuted replication with criteria `crit`. */
  function SoloStep(solo: seq<int>, crit: seq<real>, orig: seq<real>): (s: seq<int>)
    requires |solo| == |crit| == |orig|
    ensures |s| == |solo|
  {
    seq(|solo|, i requires 0 <= i < |solo| => if crit[i] >= orig[i] then solo[i] + 1 else solo[i])
  }

  /** Best-of counts after one permuted replication with criteria `crit`. */
  function BestofStep(bestof: seq<int>, crit: seq<real>, orig: seq<real>): (s: seq<int>)
    requires |bestof| == |crit| == |orig|
    ensures |s| == |bestof|
  {
    if |crit| == 0 then bestof
    else
      var best := MaxOf(crit);
      seq(|bestof|, i requires 0 <= i < |bestof| => if best >= orig[i] then bestof[i] + 1 else bestof[i])
  }

  /**
    What the counters promise after `reps` replications: every count lies
    between 1 and `reps`, the best-of count is never below the solo count,
    and a combination with a smaller original criterion never has a smaller
    best-of count.
  */
  ghost predicate McptInv(solo: seq<int>, bestof: seq<int>, orig: seq<real>, reps: nat)
  {
    |solo| == |orig| && |bestof| == |orig| &&
    (forall i :: 0 <= i < |orig| ==> 1 <= solo[i] <= bestof[i] <= reps) &&
    (forall a, b :: 0 <= a < |orig| && 0 <= b < |orig| && orig[a] <= orig[b] ==> bestof[a] >= bestof[b])
  }

  /** Replication 0 establishes the counters. */
  lemma McptStart(orig: seq<real>)
    ensures McptInv(Ones(|orig|), Ones(|orig|), orig, 1)
  {
  }

  /** One permuted replication, whatever its criteria, keeps the counters' promise. */
  lemma McptStep(solo: seq<int>, bestof: seq<int>, orig: seq<real>, crit: seq<real>, reps: nat)
    requires McptInv(solo, bestof, orig, reps) && |crit| == |orig|
    ensures McptInv(SoloStep(solo, crit, orig), BestofStep(bestof, crit, orig), orig, reps + 1)
  {
    if |crit| > 0 {
      var best := MaxOf(crit);
      var solo', bestof' := SoloStep(solo, crit, orig), BestofStep(bestof, crit, orig);
      forall i | 0 <= i < |orig|
        ensures 1 <= solo'[i] <= bestof'[i] <= reps + 1
      {
        MaxOfIsUpperBound(crit, i);
      }
      forall a, b | 0 <= a < |orig| && 0 <= b < |orig| && orig[a] <= orig[b]
        ensures bestof'[a] >= bestof'[b]
      {
        assert bestof[a] >= bestof[b];
      }
    }
  }

  /** Every permuted replication evaluated all `n` combinations. */
  predicate AllOfLength(crits: seq<seq<real>>, n: nat)
  {
    forall k :: 0 <= k < |crits| ==> |crits[k]| == n
  }

  /**
    The solo counts after replication 0 and the permuted replications whose
    criteria, in order, are `crits`.
  */
  function SoloCounts(orig: seq<real>, crits: seq<seq<real>>): (solo: seq<int>)
    requires AllOfLength(crits, |orig|)
    ensures |solo| == |orig|
  {
    if |crits| == 0 then Ones(|orig|)
    else SoloStep(SoloCounts(orig, crits[..|crits| - 1]), crits[|crits| - 1], orig)
  }

  /** The best-of counts after replication 0 and the permuted replications whose criteria are `crits`. */
  function BestofCounts(orig: seq<real>, crits: seq<seq<real>>): (bestof: seq<int>)
    requires AllOfLength(crits, |orig|)
    ensures |bestof| == |orig|
  {
    if |crits| == 0 then Ones(|orig|)
    else BestofStep(BestofCounts(orig, crits[..|crits| - 1]), crits[|crits| - 1], orig)
  }

  /** The positions of the flags that are set. */
  ghost function Hits(flags: seq<bool>): set<nat>
  {
    set k: nat | k < |flags| && flags[k]
  }

  /** One more flag adds its own position exactly when it is set. */
  lemma HitsSnoc(flags: seq<bool>, b: bool)
    ensures |Hits(flags + [b])| == |Hits(flags)| + if b then 1 else 0
  {
    var n := |flags|;
    var extra: set<nat> := if b then {n} else {};
    forall k: nat
      ensures k in Hits(flags + [b]) <==> k in Hits(flags) + extra
    {
      if k < n {
        assert (flags + [b])[k] == flags[k];
      }
    }
    assert Hits(flags + [b]) == Hits(flags) + extra;
    assert n !in Hits(flags);
  }

  /** For each permuted replication, whether combination `i`'s own criterion reached `x`. */
  function SoloReached(crits: seq<seq<real>>, i: nat, x: real): (flags: seq<bool>)
    ensures |flags| == |crits|
  {
    seq(|crits|, k requires 0 <= k < |crits| => i < |crits[k]| && crits[k][i] >= x)
  }

  /** For each permuted replication, whether its best criterion reached `x`. */
  function BestofReached(crits: seq<seq<real>>, x: real): (flags: seq<bool>)
    ensures |flags| == |crits|
  {
    seq(|crits|, k requires 0 <= k < |crits| => |crits[k]| > 0 && MaxOf(crits[k]) >= x)
  }

  /**
    What `solo` counts: replication 0, plus every permuted replication whose
    criterion for the combination reached the original one.
  */
  lemma {:induction false} SoloCountsHits(orig: seq<real>, crits: seq<seq<real>>, i: nat)
    requires AllOfLength(crits, |orig|) && i < |orig|
    ensures SoloCounts(orig, crits)[i] == 1 + |Hits(SoloReached(crits, i, orig[i]))|
    decreases |crits|
  {
    if |crits| > 0 {
      var n := |crits| - 1;
      var front := crits[..n];
      SoloCountsHits(orig, front, i);
      var flags := SoloReached(front, i, orig[i]);
      assert SoloReached(crits, i, orig[i]) == flags + [crits[n][i] >= orig[i]];
      HitsSnoc(flags, crits[n][i] >= orig[i]);
    }
  }

  /**
    What `bestof` counts: replication 0, plus every permuted replication whose
    best criterion over all combinations reached the combination's original one.
  */
  lemma {:induction false} BestofCountsHits(orig: seq<real>, crits: seq<seq<real>>, i: nat)
    requires AllOfLength(crits, |orig|) && i < |orig|
    ensures BestofCounts(orig, crits)[i] == 1 + |Hits(BestofReached(crits, orig[i]))|
    decreases |crits|
  {
    if |crits| > 0 {
      var n := |crits| - 1;
      var front := crits[..n];
      BestofCountsHits(orig, front, i);
      var flags := BestofReached(front, orig[i]);
      assert BestofReached(crits, orig[i]) == flags + [MaxOf(crits[n]) >= orig[i]];
      HitsSnoc(flags, MaxOf(crits[n]) >= orig[i]);
    }
  }

  /** After replication 0 and `|crits|` permuted replications, the counters keep their promise. */
  lemma {:induction false} McptCounts(orig: seq<real>, crits: seq<seq<real>>)
    requires AllOfLength(crits, |orig|)
    ensures McptInv(SoloCounts(orig, crits), BestofCounts(orig, crits), orig, |crits| + 1)
    decreases |crits|
  {
    if |crits| == 0 {
      McptStart(orig);
    } else {
      var n := |crits| - 1;
      McptCounts(orig, crits[..n]);
      McptStep(SoloCounts(orig, crits[..n]), BestofCounts(orig, crits[..n]), orig, crits[n], n + 1);
    }
  }

  /** One more permuted replication extends the counters' history by its criteria. */
  lemma CountsSnoc(orig: seq<real>, crits: seq<seq<real>>, c: seq<real>)
    requires AllOfLength(crits, |orig|) && |c| == |orig|
    ensures AllOfLength(crits + [c], |orig|)
    ensures SoloCounts(orig, crits + [c]) == SoloStep(SoloCounts(orig, crits), c, orig)
    ensures BestofCounts(orig, crits + [c]) == BestofStep(BestofCounts(orig, crits), c, orig)
  {
  }

  /** The running best criterion over the first `icombo` criteria. */
  lemma MaxOfSnoc(crit: seq<real>, k: nat)
    requires 0 < k < |crit|
    ensures MaxOf(crit[..k + 1]) == if crit[k] > MaxOf(crit[..k]) then crit[k] else MaxOf(crit[..k])
  {
    assert crit[..k + 1][..k] == crit[..k];
  }

  /** Replication 0: record the original criteria, the identity index, and counts of one. */
  method RecordOriginal(crit: array<real>, originalCrits: array<real>, sortedCrits: array<real>,
                        index: array<int>, solo: array<int>, bestof: array<int>)
    returns (bestCrit: real)
    requires crit.Length == originalCrits.Length == sortedCrits.Length == index.Length == solo.Length == bestof.Length
    requires crit != originalCrits && crit != sortedCrits && originalCrits != sortedCrits
    requires index != solo && index != bestof && solo != bestof
    modifies originalCrits, sortedCrits, index, solo, bestof
    ensures crit.Length > 0 ==> bestCrit == MaxOf(crit[..])
    ensures originalCrits[..] == crit[..] && sortedCrits[..] == crit[..]
    ensures index[..] == Identity(crit.Length)
    ensures solo[..] == Ones(crit.Length) && bestof[..] == Ones(crit.Length)
  {
    var n := crit.Length;
    bestCrit := 0.0;
    ghost var cs := crit[..];
    for icombo := 0 to n
      invariant icombo > 0 ==> bestCrit == MaxOf(cs[..icombo])
      invariant forall c :: 0 <= c < icombo ==> originalCrits[c] == cs[c] && sortedCrits[c] == cs[c]
      invariant forall c :: 0 <= c < icombo ==> index[c] == c && solo[c] == 1 && bestof[c] == 1
    {
      if icombo > 0 {
        MaxOfSnoc(cs, icombo);
      }
      if icombo == 0 || crit[icombo] > bestCrit {
        bestCrit := crit[icombo];
      }
      Record(crit, originalCrits, sortedCrits, icombo);
      ResetCounters(index, solo, bestof, icombo);
    }
    assert cs[..n] == cs;
    assert originalCrits[..] == cs;
    assert sortedCrits[..] == cs;
  }

  /** Combination `icombo`'s original criterion recorded in both copies. */
  method Record(crit: array<real>, originalCrits: array<real>, sortedCrits: array<real>, icombo: nat)
    requires icombo < crit.Length == originalCrits.Length == sortedCrits.Length
    requires crit != originalCrits && crit != sortedCrits && originalCrits != sortedCrits
    modifies originalCrits, sortedCrits
    ensures originalCrits[..] == old(originalCrits[..])[icombo := crit[icombo]]
    ensures sortedCrits[..] == old(sortedCrits[..])[icombo := crit[icombo]]
  {
    originalCrits[icombo] := crit[icombo];
    sortedCrits[icombo] := crit[icombo];
  }

  /** Combination `icombo` indexed by itself, with counts of one. */
  method ResetCounters(index: array<int>, solo: array<int>, bestof: array<int>, icombo: nat)
    requires icombo < index.Length == solo.Length == bestof.Length
    requires index != solo && index != bestof && solo != bestof
    modifies index, solo, bestof
    ensures index[..] == old(index[..])[icombo := icombo]
    ensures solo[..] == old(solo[..])[icombo := 1] && bestof[..] == old(bestof[..])[icombo := 1]
  {
    index[icombo] := icombo;
    solo[icombo] := 1;
    bestof[icombo] := 1;
  }

  /** A permuted replication, first pass: the running best criterion and the solo counts. */
  method CountSolo(crit: array<real>, originalCrits: array<real>, solo: array<int>)
    returns (bestCrit: real)
    requires crit.Length == originalCrits.Length == solo.Length
    modifies solo
    ensures crit.Length > 0 ==> bestCrit == MaxOf(crit[..])
    ensures solo[..] == SoloStep(old(solo[..]), crit[..], originalCrits[..])
  {
    var n := crit.Length;
    bestCrit := 0.0;
    ghost var cs := crit[..];
    ghost var goal := SoloStep(solo[..], cs, originalCrits[..]);
    ghost var solo0 := solo[..];
    for icombo := 0 to n
      invariant icombo > 0 ==> bestCrit == MaxOf(cs[..icombo])
      invariant forall c :: 0 <= c < icombo ==> solo[c] == goal[c]
      invariant forall c :: icombo <= c < n ==> solo[c] == solo0[c]
    {
      if icombo > 0 {
        MaxOfSnoc(cs, icombo);
      }
      if icombo == 0 || crit[icombo] > bestCrit {
        bestCrit := crit[icombo];
      }
      if crit[icombo] >= originalCrits[icombo] {
        solo[icombo] := solo[icombo] + 1;
      }
    }
    assert cs[..n] == cs;
  }

  /** A permuted replication, second pass: every combination the best criterion reached counts once more. */
  method CountBestof(bestCrit: real, crit: array<real>, originalCrits: array<real>, bestof: array<int>)
    requires crit.Length == originalCrits.Length == bestof.Length
    requires crit.Length > 0 ==> bestCrit == MaxOf(crit[..])
    modifies bestof
    ensures bestof[..] == BestofStep(old(bestof[..]), crit[..], originalCrits[..])
  {
    var n := crit.Length;
    ghost var goal := BestofStep(bestof[..], crit[..], originalCrits[..]);
    ghost var bestof0 := bestof[..];
    for icombo := 0 to n
      invariant forall c :: 0 <= c < icombo ==> bestof[c] == goal[c]
      invariant forall c :: icombo <= c < n ==> bestof[c] == bestof0[c]
    {
      if bestCrit >= originalCrits[icombo] {
        bestof[icombo] := bestof[icombo] + 1;
      }
    }
  }

  /**
    The counter update after replication `irep`.  Replication 0 also sorts
    the original criteria and carries `index` along; that sort is not part
    of this model, so the contract promises only what holds after it too:
    `sortedCrits` is a rearrangement of the criteria and `index` one of
    `0 .. n-1`.
  */
  method UpdateMcpt(irep: nat, crit: array<real>, originalCrits: array<real>, sortedCrits: array<real>,
                    index: array<int>, solo: array<int>, bestof: array<int>)
    requires crit.Length == originalCrits.Length == sortedCrits.Length == index.Length == solo.Length == bestof.Length
    requires crit != originalCrits && crit != sortedCrits && originalCrits != sortedCrits
    requires index != solo && index != bestof && solo != bestof
    modifies originalCrits, sortedCrits, index, solo, bestof
    ensures irep == 0 ==> originalCrits[..] == crit[..] && multiset(sortedCrits[..]) == multiset(crit[..])
                          && multiset(index[..]) == multiset(Identity(crit.Length))
                          && solo[..] == Ones(crit.Length) && bestof[..] == Ones(crit.Length)
    ensures irep > 0 ==> unchanged(originalCrits, sortedCrits, index)
                         && solo[..] == SoloStep(old(solo[..]), crit[..], originalCrits[..])
                         && bestof[..] == BestofStep(old(bestof[..]), crit[..], originalCrits[..])
  {
    if irep == 0 {
      var _ := RecordOriginal(crit, originalCrits, sortedCrits, index, solo, bestof);
    } else {
      var bestCrit := CountSolo(crit, originalCrits, solo);
      CountBestof(bestCrit, crit, originalCrits, bestof);
    }
  }
}
