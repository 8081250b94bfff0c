/**
  The combination enumerator of SCREEN_BIVAR.CPP. A combination index
  `icombo` in `0 .. n_combo-1` stands for one triple (ipred1 < ipred2, itarget);
  the source walks the indices with three nested counters (itarget fastest,
  then ipred2, then ipred1, ipred2 restarting at ipred1+1).

  `Advance` is one step of that walk, `IndexToTriple` / `TripleToIndex` give
  the same correspondence in closed form; the lemmas prove that the walk and
  the closed form agree and that the correspondence is a bijection.
*/
module Enumerator {

  import opened Flat

  datatype Triple = Triple(ipred1: int, ipred2: int, itarget: int)

  /** The number of combinations, computed as the source does (exact, unbounded integers). */
  function NCombo(npred: nat, ntarget: nat): int
  {
    npred * (npred - 1) / 2 * ntarget
  }

  /** A triple the screening evaluates: two distinct predictors in order, and a target. */
  predicate ValidTriple(npred: nat, ntarget: nat, t: Triple)
  {
    0 <= t.ipred1 < t.ipred2 < npred && 0 <= t.itarget < ntarget
  }

  /** The first combination, `ipred1 = itarget = 0, ipred2 = 1`. */
  const Start := Triple(0, 1, 0)

  /** One step of the nested-counter walk. */
  function Advance(npred: nat, ntarget: nat, t: Triple): Triple
  {
    if t.itarget < ntarget - 1 then t.(itarget := t.itarget + 1)
    else if t.ipred2 < npred - 1 then Triple(t.ipred1, t.ipred2 + 1, 0)
    else Triple(t.ipred1 + 1, t.ipred1 + 2, 0)
  }

  /** The triple reached from `Start` after `k` steps. */
  function Walk(npred: nat, ntarget: nat, k: nat): Triple
  {
    if k == 0 then Start else Advance(npred, ntarget, Walk(npred, ntarget, k - 1))
  }

  // ---------------------------------------------------------------------------
  // Closed form

  /** Number of predictor pairs whose first member is below `i`. */
  function RowStart(npred: nat, i: nat): int
    requires i <= npred
  {
    if i == 0 then 0 else RowStart(npred, i - 1) + (npred - i)
  }

  function NPairs(npred: nat): int
  {
    RowStart(npred, npred)
  }

  /** Position of the pair (i1, i2) in the walk over pairs. */
  function PairRank(npred: nat, i1: nat, i2: int): int
    requires i1 <= npred
  {
    RowStart(npred, i1) + (i2 - i1 - 1)
  }

  /** The pair at position `p` of the walk, searching rows from `i1` on. */
  function UnrankPair(npred: nat, p: nat, i1: nat): (int, int)
    decreases npred - i1
  {
    if i1 + 1 >= npred then (i1, i1 + 1)
    else if p < npred - 1 - i1 then (i1, i1 + 1 + p)
    else UnrankPair(npred, p - (npred - 1 - i1), i1 + 1)
  }

  function TripleToIndex(npred: nat, ntarget: nat, t: Triple): int
    requires 0 <= t.ipred1 <= npred
  {
    PairRank(npred, t.ipred1, t.ipred2) * ntarget + t.itarget
  }

  function IndexToTriple(npred: nat, ntarget: nat, k: nat): Triple
  {
    if ntarget == 0 then Start
    else
      var pair := UnrankPair(npred, k / ntarget, 0);
      Triple(pair.0, pair.1, k % ntarget)
  }

  // ---------------------------------------------------------------------------
  // Arithmetic about the rows

  lemma {:induction false} RowStartClosed(npred: nat, i: nat)
    requires i <= npred
    ensures 2 * RowStart(npred, i) == i * (2 * npred - i - 1)
  {
    if i > 0 {
      RowStartClosed(npred, i - 1);
      assert i * (2 * npred - i - 1) == (i - 1) * (2 * npred - (i - 1) - 1) + 2 * (npred - i);
    }
  }

  lemma {:induction false} RowStartMonotone(npred: nat, i: nat, j: nat)
    requires i <= j <= npred
    ensures RowStart(npred, i) <= RowStart(npred, j)
    decreases j - i
  {
    if i < j {
      RowStartMonotone(npred, i, j - 1);
    }
  }

  /** The source's formula for n_combo counts pairs times targets; in particular it is never negative. */
  lemma NComboIsPairsTimesTargets(npred: nat, ntarget: nat)
    ensures NPairs(npred) >= 0
    ensures NCombo(npred, ntarget) == NPairs(npred) * ntarget
  {
    RowStartClosed(npred, npred);
    RowStartMonotone(npred, 0, npred);
    assert npred * (npred - 1) == 2 * NPairs(npred);
    assert npred * (npred - 1) / 2 == NPairs(npred);
  }

  lemma {:induction false} UnrankPairRank(npred: nat, p: nat, i1: nat)
    requires i1 <= npred
    requires RowStart(npred, i1) + p < NPairs(npred)
    ensures var (a, b) := UnrankPair(npred, p, i1);
      i1 <= a < b < npred && PairRank(npred, a, b) == RowStart(npred, i1) + p
    decreases npred - i1
  {
    if i1 + 1 >= npred {
      assert false;
    } else if p < npred - 1 - i1 {
    } else {
      UnrankPairRank(npred, p - (npred - 1 - i1), i1 + 1);
    }
  }

  /** A pair's rank lies in its row, which lies below the next row's start. */
  lemma PairRankInRow(npred: nat, i1: nat, i2: int)
    requires 0 <= i1 < i2 < npred
    ensures RowStart(npred, i1) <= PairRank(npred, i1, i2) < RowStart(npred, i1 + 1)
  {
  }

  lemma PairRankInjective(npred: nat, a1: nat, a2: int, b1: nat, b2: int)
    requires a1 < a2 < npred && b1 < b2 < npred
    requires PairRank(npred, a1, a2) == PairRank(npred, b1, b2)
    ensures a1 == b1 && a2 == b2
  {
    PairRankInRow(npred, a1, a2);
    PairRankInRow(npred, b1, b2);
    if a1 < b1 {
      RowStartMonotone(npred, a1 + 1, b1);
    } else if b1 < a1 {
      RowStartMonotone(npred, b1 + 1, a1);
    }
  }

  lemma PairRankBound(npred: nat, i1: nat, i2: int)
    requires 0 <= i1 < i2 < npred
    ensures 0 <= PairRank(npred, i1, i2) < NPairs(npred)
  {
    PairRankInRow(npred, i1, i2);
    RowStartMonotone(npred, 0, i1);
    RowStartMonotone(npred, i1 + 1, npred);
  }

  // ---------------------------------------------------------------------------
  // The bijection

  /** Every valid triple has an index below n_combo. */
  lemma TripleToIndexBound(npred: nat, ntarget: nat, t: Triple)
    requires ValidTriple(npred, ntarget, t)
    ensures 0 <= TripleToIndex(npred, ntarget, t) < NCombo(npred, ntarget)
  {
    var pr := PairRank(npred, t.ipred1, t.ipred2);
    PairRankBound(npred, t.ipred1, t.ipred2);
    NComboIsPairsTimesTargets(npred, ntarget);
    MulLeft(pr + 1, NPairs(npred), ntarget);
    assert (pr + 1) * ntarget == pr * ntarget + ntarget;
    assert 0 <= pr * ntarget;
  }

  /** Every index below n_combo names a valid triple, and the index of that triple is the index itself. */
  lemma IndexToTripleInverse(npred: nat, ntarget: nat, k: nat)
    requires k < NCombo(npred, ntarget)
    ensures ValidTriple(npred, ntarget, IndexToTriple(npred, ntarget, k))
    ensures TripleToIndex(npred, ntarget, IndexToTriple(npred, ntarget, k)) == k
  {
    NComboIsPairsTimesTargets(npred, ntarget);
    if ntarget == 0 {
      assert false;
    }
    var p := k / ntarget;
    assert k == p * ntarget + k % ntarget;
    if p >= NPairs(npred) {
      MulLeft(NPairs(npred), p, ntarget);
      assert false;
    }
    UnrankPairRank(npred, p, 0);
  }

  /** Two valid triples with the same index are the same triple. */
  lemma TripleToIndexInjective(npred: nat, ntarget: nat, a: Triple, b: Triple)
    requires ValidTriple(npred, ntarget, a) && ValidTriple(npred, ntarget, b)
    requires TripleToIndex(npred, ntarget, a) == TripleToIndex(npred, ntarget, b)
    ensures a == b
  {
    PairRankBound(npred, a.ipred1, a.ipred2);
    PairRankBound(npred, b.ipred1, b.ipred2);
    DivModUnique(PairRank(npred, a.ipred1, a.ipred2), a.itarget, ntarget);
    DivModUnique(PairRank(npred, b.ipred1, b.ipred2), b.itarget, ntarget);
    PairRankInjective(npred, a.ipred1, a.ipred2, b.ipred1, b.ipred2);
  }

  /**
    Coverage: every triple with ipred1 < ipred2 < npred and itarget < ntarget is
    named by exactly one combination index below n_combo.
  */
  lemma EveryTripleExactlyOnce(npred: nat, ntarget: nat, t: Triple)
    requires ValidTriple(npred, ntarget, t)
    ensures 0 <= TripleToIndex(npred, ntarget, t) < NCombo(npred, ntarget)
    ensures IndexToTriple(npred, ntarget, TripleToIndex(npred, ntarget, t)) == t
    ensures forall k: nat :: k < NCombo(npred, ntarget) && IndexToTriple(npred, ntarget, k) == t
                             ==> k == TripleToIndex(npred, ntarget, t)
  {
    TripleToIndexBound(npred, ntarget, t);
    var k0 := TripleToIndex(npred, ntarget, t);
    IndexToTripleInverse(npred, ntarget, k0);
    TripleToIndexInjective(npred, ntarget, IndexToTriple(npred, ntarget, k0), t);
    forall k: nat | k < NCombo(npred, ntarget) && IndexToTriple(npred, ntarget, k) == t
      ensures k == k0
    {
      IndexToTripleInverse(npred, ntarget, k);
    }
  }

  /** Distinct indices below n_combo name distinct triples. */
  lemma IndexToTripleInjective(npred: nat, ntarget: nat, j: nat, k: nat)
    requires j < NCombo(npred, ntarget) && k < NCombo(npred, ntarget)
    requires IndexToTriple(npred, ntarget, j) == IndexToTriple(npred, ntarget, k)
    ensures j == k
  {
    IndexToTripleInverse(npred, ntarget, j);
    IndexToTripleInverse(npred, ntarget, k);
  }

  /** One step of the walk moves a valid triple to the next index, unless it was the last one. */
  lemma {:induction false} AdvanceRank(npred: nat, ntarget: nat, t: Triple)
    requires ValidTriple(npred, ntarget, t)
    requires TripleToIndex(npred, ntarget, t) + 1 < NCombo(npred, ntarget)
    ensures ValidTriple(npred, ntarget, Advance(npred, ntarget, t))
    ensures TripleToIndex(npred, ntarget, Advance(npred, ntarget, t)) == TripleToIndex(npred, ntarget, t) + 1
  {
    var pr := PairRank(npred, t.ipred1, t.ipred2);
    if t.itarget < ntarget - 1 {
    } else if t.ipred2 < npred - 1 {
      assert (pr + 1) * ntarget == pr * ntarget + ntarget;
    } else {
      assert RowStart(npred, t.ipred1 + 1) == RowStart(npred, t.ipred1) + (npred - t.ipred1 - 1);
      assert PairRank(npred, t.ipred1 + 1, t.ipred1 + 2) == pr + 1;
      if t.ipred1 + 2 >= npred {
        // t is the last pair: its index is n_combo - 1
        assert t.ipred1 == npred - 2;
        assert RowStart(npred, npred) == RowStart(npred, npred - 1);
        assert pr + 1 == NPairs(npred);
        NComboIsPairsTimesTargets(npred, ntarget);
        assert false;
      }
      assert (pr + 1) * ntarget == pr * ntarget + ntarget;
    }
  }

  /** The walk's step and the closed form agree: advancing the triple of index k gives the triple of k+1. */
  lemma AdvanceAgrees(npred: nat, ntarget: nat, k: nat)
    requires k + 1 < NCombo(npred, ntarget)
    ensures Advance(npred, ntarget, IndexToTriple(npred, ntarget, k)) == IndexToTriple(npred, ntarget, k + 1)
  {
    var t := IndexToTriple(npred, ntarget, k);
    IndexToTripleInverse(npred, ntarget, k);
    AdvanceRank(npred, ntarget, t);
    IndexToTripleInverse(npred, ntarget, k + 1);
    TripleToIndexInjective(npred, ntarget, Advance(npred, ntarget, t), IndexToTriple(npred, ntarget, k + 1));
  }

  /** The walk starts where the closed form starts. */
  lemma StartAgrees(npred: nat, ntarget: nat)
    requires 0 < NCombo(npred, ntarget)
    ensures IndexToTriple(npred, ntarget, 0) == Start
  {
    IndexToTripleInverse(npred, ntarget, 0);
  }

  /** Walking k steps from the start reaches the triple of index k, for every k below n_combo. */
  lemma {:induction false} WalkAgrees(npred: nat, ntarget: nat, k: nat)
    requires k < NCombo(npred, ntarget)
    ensures Walk(npred, ntarget, k) == IndexToTriple(npred, ntarget, k)
    ensures ValidTriple(npred, ntarget, Walk(npred, ntarget, k))
  {
    if k == 0 {
      StartAgrees(npred, ntarget);
    } else {
      WalkAgrees(npred, ntarget, k - 1);
      AdvanceAgrees(npred, ntarget, k - 1);
    }
    IndexToTripleInverse(npred, ntarget, k);
  }
}
