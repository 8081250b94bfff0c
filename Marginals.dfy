/**
  The marginal counts of SCREEN_BIVAR.CPP:638-660: for every variable, how
  many cases fall in each of its bins.  The source counts in a `double`
  array and then divides by the number of cases; the model keeps the
  integer counts, which is what the division is applied to.
*/
module Marginals {
  import opened Flat

  /** The first `k` blocks of `counts` hold the bin counts of the same blocks of `bins`. */
  ghost predicate CountsUpTo(counts: seq<int>, bins: seq<int>, nvars: nat, ncases: nat, nbins: nat, k: nat)
    requires |bins| == nvars * ncases && |counts| == nvars * nbins
  {
    forall v :: 0 <= v < k && v < nvars ==>
      (BlockFits(v, nvars, ncases); BlockFits(v, nvars, nbins);
       Column(counts, v, nbins) == Histogram(Column(bins, v, ncases), nbins))
  }

  /** `counts` holds, block by block, the bin counts of every block of `bins`. */
  ghost predicate CountsOf(counts: seq<int>, bins: seq<int>, nvars: nat, ncases: nat, nbins: nat)
    requires |bins| == nvars * ncases && |counts| == nvars * nbins
  {
    CountsUpTo(counts, bins, nvars, ncases, nbins, nvars)
  }

  /** Block `v` of `marginal` set to zero. */
  method ZeroBlock(marginal: array<int>, nvars: nat, nbins: nat, v: nat)
    requires marginal.Length == nvars * nbins && v < nvars
    modifies marginal
    ensures 0 <= v * nbins && v * nbins + nbins <= marginal.Length
    ensures Column(marginal[..], v, nbins) == Histogram([], nbins)
    ensures OtherBlocksSame(old(marginal[..]), marginal[..], nvars, nbins, v)
  {
    BlockFits(v, nvars, nbins);
    var base := v * nbins;
    ZeroRow(marginal, base, 0, nbins, nbins);
    assert marginal[base .. base + nbins] == Histogram([], nbins);
    OutsideBlockSame(old(marginal[..]), marginal[..], nvars, nbins, v, base);
  }

  /** Block `v` of `marginal`, starting from zero, raised by one for every case of block `v` of `bins`. */
  method CountBlock(marginal: array<int>, bins: array<int>, nvars: nat, ncases: nat, nbins: nat, v: nat)
    requires marginal.Length == nvars * nbins && bins.Length == nvars * ncases && marginal != bins
    requires v < nvars && InRange(bins[..], nbins)
    requires 0 <= v * nbins && v * nbins + nbins <= marginal.Length
    requires Column(marginal[..], v, nbins) == Histogram([], nbins)
    modifies marginal
    ensures 0 <= v * ncases && v * ncases + ncases <= bins.Length
    ensures Column(marginal[..], v, nbins) == Histogram(Column(bins[..], v, ncases), nbins)
    ensures OtherBlocksSame(old(marginal[..]), marginal[..], nvars, nbins, v)
  {
    BlockFits(v, nvars, ncases);
    var base, cbase := v * nbins, v * ncases;
    ghost var col := bins[cbase .. cbase + ncases];
    ColumnInRange(bins[..], v, ncases, nbins);
    for i := 0 to ncases
      invariant marginal[base .. base + nbins] == Histogram(col[..i], nbins)
      invariant forall c :: 0 <= c < marginal.Length && !(base <= c < base + nbins) ==> marginal[c] == old(marginal[c])
    {
      var b := bins[cbase + i];
      assert b == col[i];
      assert col[..i + 1] == col[..i] + [b];
      HistogramSnoc(col[..i], b, nbins);
      Increment(marginal, base, nbins, b);
    }
    assert col[..ncases] == col;
    OutsideBlockSame(old(marginal[..]), marginal[..], nvars, nbins, v, base);
  }

  /** The bin counts of every variable (SCREEN_BIVAR.CPP:638-642 for the predictors, 650-654 for the targets). */
  method CountMarginals(marginal: array<int>, bins: array<int>, nvars: nat, ncases: nat, nbins: nat)
    requires marginal.Length == nvars * nbins && bins.Length == nvars * ncases && marginal != bins
    requires InRange(bins[..], nbins)
    modifies marginal
    ensures CountsOf(marginal[..], bins[..], nvars, ncases, nbins)
  {
    for ivar := 0 to nvars
      invariant CountsUpTo(marginal[..], bins[..], nvars, ncases, nbins, ivar)
    {
      ghost var before := marginal[..];
      ZeroBlock(marginal, nvars, nbins, ivar);
      ghost var zeroed := marginal[..];
      CountBlock(marginal, bins, nvars, ncases, nbins, ivar);
      OtherBlocksTrans(before, zeroed, marginal[..], nvars, nbins, ivar);
      CountStep(before, marginal[..], bins[..], nvars, ncases, nbins, ivar);
    }
  }

  lemma CountStep(before: seq<int>, after: seq<int>, bins: seq<int>, nvars: nat, ncases: nat, nbins: nat, k: nat)
    requires |bins| == nvars * ncases && |before| == nvars * nbins && |after| == nvars * nbins && k < nvars
    requires CountsUpTo(before, bins, nvars, ncases, nbins, k)
    requires OtherBlocksSame(before, after, nvars, nbins, k)
    requires 0 <= k * ncases && k * ncases + ncases <= |bins| && k * nbins + nbins <= |after|
    requires Column(after, k, nbins) == Histogram(Column(bins, k, ncases), nbins)
    ensures CountsUpTo(after, bins, nvars, ncases, nbins, k + 1)
  {
    forall v | 0 <= v < k + 1 && v < nvars
      ensures (BlockFits(v, nvars, ncases); BlockFits(v, nvars, nbins);
               Column(after, v, nbins) == Histogram(Column(bins, v, ncases), nbins))
    {
      BlockFits(v, nvars, ncases);
      BlockFits(v, nvars, nbins);
      if v != k {
        OtherBlock(before, after, nvars, nbins, k, v);
      }
    }
  }

  /** Every marginal accounts for every case once: its counts add up to the number of cases. */
  lemma MarginalTotal(counts: seq<int>, bins: seq<int>, nvars: nat, ncases: nat, nbins: nat, v: nat)
    requires |bins| == nvars * ncases && |counts| == nvars * nbins && v < nvars
    requires CountsOf(counts, bins, nvars, ncases, nbins) && InRange(bins, nbins)
    ensures 0 <= v * nbins && v * nbins + nbins <= |counts|
    ensures Sum(Column(counts, v, nbins)) == ncases
  {
    BlockFits(v, nvars, ncases);
    BlockFits(v, nvars, nbins);
    ColumnInRange(bins, v, ncases, nbins);
    HistogramTotal(Column(bins, v, ncases), nbins);
  }

  /**
    Rearranging the cases inside every block leaves the marginal counts
    valid: the counts computed once before the replications still describe
    the shuffled bins.
  */
  lemma ShuffleKeepsMarginals(counts: seq<int>, s: seq<int>, t: seq<int>, nvars: nat, ncases: nat, nbins: nat)
    requires |s| == nvars * ncases && |t| == nvars * ncases && |counts| == nvars * nbins
    requires CountsOf(counts, s, nvars, ncases, nbins) && BlocksPermuted(s, t, nvars, ncases)
    ensures CountsOf(counts, t, nvars, ncases, nbins)
  {
    forall v | 0 <= v < nvars
      ensures (BlockFits(v, nvars, ncases); BlockFits(v, nvars, nbins);
               Column(counts, v, nbins) == Histogram(Column(t, v, ncases), nbins))
    {
      BlockFits(v, nvars, ncases);
      BlockFits(v, nvars, nbins);
      assert multiset(Column(t, v, ncases)) == multiset(Column(s, v, ncases));
    }
  }
}
