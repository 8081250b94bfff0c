/**
  The two ways SCREEN_BIVAR.CPP rearranges the target bins before a
  Monte-Carlo permutation replication (SCREEN_BIVAR.CPP:717-742).

  `target_bin` holds one block of `ncases` bins per target.  Both shuffles
  apply one and the same rearrangement of the cases to every block, so the
  targets stay aligned case by case, and both only rearrange inside a block,
  so each target keeps its marginal distribution.

  The random numbers are a parameter: `draw(k)` is the value of the k-th
  call of the uniform generator.
*/
module Shuffle {
  import opened Flat

  /** Random draws the generator can produce: never negative. */
  ghost predicate NonNegative(draw: nat -> real)
  {
    forall k :: 0.0 <= draw(k)
  }

  /** C's conversion `(int) x`: truncation toward zero. */
  function Trunc(x: real): (r: int)
    ensures 0.0 <= x ==> r as real <= x < r as real + 1.0
    ensures x < 0.0 ==> r as real - 1.0 < x <= r as real
  {
    if x < 0.0 then -((-x).Floor) else x.Floor
  }

  /** The index drawn with `i` cases left: the integer part of `u * i`, clamped to `i - 1`. */
  function DrawIndex(u: real, i: int): (j: int)
    ensures 0.0 <= u && 1 <= i ==> 0 <= j < i
  {
    ScaledDrawNonNegative(u, i);
    var j := Trunc(u * i as real);
    if j >= i then i - 1 else j
  }

  lemma ScaledDrawNonNegative(u: real, i: int)
    ensures 0.0 <= u && 0 <= i ==> 0.0 <= u * i as real
  {
  }

  /** A draw below one needs no clamping: the index is the integer part of `u * i`. */
  lemma DrawIndexIsIntegerPart(u: real, i: int)
    requires 0.0 <= u < 1.0 && 1 <= i
    ensures DrawIndex(u, i) as real <= u * i as real < DrawIndex(u, i) as real + 1.0
  {
    assert i as real - u * i as real == (1.0 - u) * i as real;
  }

  /** Entries `a` and `b` exchanged, written in the order the source writes them. */
  function Swap(s: seq<int>, a: int, b: int): (t: seq<int>)
    requires 0 <= a < |s| && 0 <= b < |s|
    ensures |t| == |s| && multiset(t) == multiset(s)
  {
    s[a := s[b]][b := s[a]]
  }

  /**
    The complete shuffle of one block with `i` cases still to shuffle, the
    next random number being `draw(next)`: draw `j` among the first `i`
    cases, swap case `i - 1` with case `j`, and go on with `i - 1`.
  */
  function ShuffleFrom(col: seq<int>, i: nat, draw: nat -> real, next: nat): (t: seq<int>)
    requires i <= |col| && NonNegative(draw)
    ensures |t| == |col| && multiset(t) == multiset(col)
    decreases i
  {
    if i <= 1 then col
    else ShuffleFrom(Swap(col, i - 1, DrawIndex(draw(next), i)), i - 1, draw, next + 1)
  }

  /** `col` read through the case numbers `p`. */
  function Reindex(col: seq<int>, p: seq<int>): (t: seq<int>)
    requires InRange(p, |col|)
    ensures |t| == |p|
  {
    seq(|p|, c requires 0 <= c < |p| => col[p[c]])
  }

  lemma SwapReindex(col: seq<int>, p: seq<int>, a: int, b: int)
    requires InRange(p, |col|) && 0 <= a < |p| && 0 <= b < |p|
    ensures InRange(Swap(p, a, b), |col|)
    ensures Swap(Reindex(col, p), a, b) == Reindex(col, Swap(p, a, b))
  {
  }

  /** Shuffling a block read through `p` is reading it through the shuffled `p`. */
  lemma {:induction false} ShuffleReindex(col: seq<int>, p: seq<int>, i: nat, draw: nat -> real, next: nat)
    requires InRange(p, |col|) && i <= |p| && NonNegative(draw)
    ensures InRange(ShuffleFrom(p, i, draw, next), |col|)
    ensures ShuffleFrom(Reindex(col, p), i, draw, next) == Reindex(col, ShuffleFrom(p, i, draw, next))
    decreases i
  {
    if i > 1 {
      var j := DrawIndex(draw(next), i);
      SwapReindex(col, p, i - 1, j);
      ShuffleReindex(col, Swap(p, i - 1, j), i - 1, draw, next + 1);
    }
  }

  /**
    The complete shuffle moves every block the same way: the result is the
    block read through one permutation of the case numbers, and that
    permutation depends on the random numbers and the block length only.
  */
  lemma SameRearrangement(col: seq<int>, draw: nat -> real, next: nat)
    requires NonNegative(draw)
    ensures var p := ShuffleFrom(Identity(|col|), |col|, draw, next);
            multiset(p) == multiset(Identity(|col|)) && InRange(p, |col|)
            && ShuffleFrom(col, |col|, draw, next) == Reindex(col, p)
  {
    var id := Identity(|col|);
    assert Reindex(col, id) == col;
    ShuffleReindex(col, id, |col|, draw, next);
  }

  /** Swapping two entries inside one block swaps them in that block only. */
  lemma SwapInBlock(s: seq<int>, count: nat, n: nat, v: nat, a: nat, b: nat)
    requires |s| == count * n && v < count && a < n && b < n
    ensures 0 <= v * n && v * n + n <= |s|
    ensures Column(Swap(s, v * n + a, v * n + b), v, n) == Swap(Column(s, v, n), a, b)
    ensures OtherBlocksSame(s, Swap(s, v * n + a, v * n + b), count, n, v)
  {
    BlockFits(v, count, n);
    var s1 := s[v * n + a := s[v * n + b]];
    WriteInBlock(s, count, n, v, a, s[v * n + b]);
    WriteInBlock(s1, count, n, v, b, s[v * n + a]);
    OtherBlocksTrans(s, s1, Swap(s, v * n + a, v * n + b), count, n, v);
  }

  /** Cases `a` and `b` exchanged in the first `k` blocks of `orig`, the other blocks as they were. */
  predicate SwappedUpTo(orig: seq<int>, s: seq<int>, count: nat, n: nat, a: nat, b: nat, k: nat)
    requires |orig| == count * n && |s| == count * n && a < n && b < n
  {
    forall v :: 0 <= v < count ==>
      (BlockFits(v, count, n);
       Column(s, v, n) == if v < k then Swap(Column(orig, v, n), a, b) else Column(orig, v, n))
  }

  lemma SwapStep(orig: seq<int>, s: seq<int>, t: seq<int>, count: nat, n: nat, a: nat, b: nat, k: nat)
    requires |orig| == count * n && |s| == count * n && a < n && b < n && k < count
    requires SwappedUpTo(orig, s, count, n, a, b, k)
    requires 0 <= k * n && k * n + n <= count * n && t == Swap(s, k * n + a, k * n + b)
    ensures |t| == count * n && SwappedUpTo(orig, t, count, n, a, b, k + 1)
  {
    SwapInBlock(s, count, n, k, a, b);
    forall w | 0 <= w < count
      ensures (BlockFits(w, count, n);
               Column(t, w, n) == if w < k + 1 then Swap(Column(orig, w, n), a, b) else Column(orig, w, n))
    {
      BlockFits(w, count, n);
      if w != k {
        OtherBlock(s, t, count, n, k, w);
      }
    }
  }

  /** One step of the complete shuffle: cases `a` and `b` exchanged in every target's block. */
  method SwapInBlocks(targetBin: array<int>, ntarget: nat, ncases: nat, a: nat, b: nat)
    requires targetBin.Length == ntarget * ncases && a < ncases && b < ncases
    modifies targetBin
    ensures SwappedUpTo(old(targetBin[..]), targetBin[..], ntarget, ncases, a, b, ntarget)
  {
    ghost var orig := targetBin[..];
    for ivar := 0 to ntarget
      invariant SwappedUpTo(orig, targetBin[..], ntarget, ncases, a, b, ivar)
    {
      BlockFits(ivar, ntarget, ncases);
      ghost var before := targetBin[..];
      SwapEntries(targetBin, ivar * ncases + a, ivar * ncases + b);
      SwapStep(orig, before, targetBin[..], ntarget, ncases, a, b, ivar);
    }
  }

  /** Entries `x` and `y` exchanged through a temporary. */
  method SwapEntries(bins: array<int>, x: int, y: int)
    requires 0 <= x < bins.Length && 0 <= y < bins.Length
    modifies bins
    ensures bins[..] == Swap(old(bins[..]), x, y)
  {
    var k := bins[x];
    bins[x] := bins[y];
    bins[y] := k;
  }

  /**
    With `i` cases of every block of `s` still to shuffle from `draw(next)`
    on, the complete shuffle of `orig` from `draw(start)` is reached.
  */
  ghost predicate ShuffledSoFar(orig: seq<int>, s: seq<int>, count: nat, n: nat, i: nat,
                                draw: nat -> real, next: nat, start: nat)
    requires |orig| == count * n && |s| == count * n && i <= n && NonNegative(draw)
  {
    forall v :: 0 <= v < count ==>
      (BlockFits(v, count, n);
       ShuffleFrom(Column(s, v, n), i, draw, next) == ShuffleFrom(Column(orig, v, n), n, draw, start))
  }

  lemma ShuffleStep(orig: seq<int>, s: seq<int>, t: seq<int>, count: nat, n: nat, i: nat,
                    draw: nat -> real, next: nat, start: nat, j: nat)
    requires |orig| == count * n && |s| == count * n && |t| == count * n && 1 < i <= n && NonNegative(draw)
    requires ShuffledSoFar(orig, s, count, n, i, draw, next, start)
    requires j == DrawIndex(draw(next), i) && SwappedUpTo(s, t, count, n, i - 1, j, count)
    ensures ShuffledSoFar(orig, t, count, n, i - 1, draw, next + 1, start)
  {
    forall v | 0 <= v < count
      ensures (BlockFits(v, count, n);
               ShuffleFrom(Column(t, v, n), i - 1, draw, next + 1) == ShuffleFrom(Column(orig, v, n), n, draw, start))
    {
      BlockFits(v, count, n);
      assert Column(t, v, n) == Swap(Column(s, v, n), i - 1, j);
    }
  }

  /** One round of the complete shuffle with `i` cases left: one draw, one swap in every block. */
  method ShuffleRound(targetBin: array<int>, ntarget: nat, ncases: nat, i: nat, draw: nat -> real, next: nat,
                      ghost orig: seq<int>, ghost start: nat)
    requires targetBin.Length == ntarget * ncases && |orig| == ntarget * ncases && 1 < i <= ncases
    requires NonNegative(draw) && ShuffledSoFar(orig, targetBin[..], ntarget, ncases, i, draw, next, start)
    modifies targetBin
    ensures ShuffledSoFar(orig, targetBin[..], ntarget, ncases, i - 1, draw, next + 1, start)
  {
    var j := DrawIndex(draw(next), i);
    ghost var before := targetBin[..];
    SwapInBlocks(targetBin, ntarget, ncases, i - 1, j);
    ShuffleStep(orig, before, targetBin[..], ntarget, ncases, i, draw, next, start, j);
  }

  /** Every block of `t` is the complete shuffle of the same block of `s`, drawing from `draw(start)` on. */
  ghost predicate CompletelyShuffled(s: seq<int>, t: seq<int>, count: nat, n: nat, draw: nat -> real, start: nat)
    requires |s| == count * n && |t| == count * n && NonNegative(draw)
  {
    forall v :: 0 <= v < count ==>
      (BlockFits(v, count, n); Column(t, v, n) == ShuffleFrom(Column(s, v, n), n, draw, start))
  }

  lemma ShuffleDone(orig: seq<int>, s: seq<int>, count: nat, n: nat, i: nat, draw: nat -> real, next: nat, start: nat)
    requires |orig| == count * n && |s| == count * n && i <= 1 && i <= n && NonNegative(draw)
    requires ShuffledSoFar(orig, s, count, n, i, draw, next, start)
    ensures CompletelyShuffled(orig, s, count, n, draw, start)
  {
    forall v | 0 <= v < count
      ensures (BlockFits(v, count, n); Column(s, v, n) == ShuffleFrom(Column(orig, v, n), n, draw, start))
    {
      BlockFits(v, count, n);
      assert ShuffleFrom(Column(s, v, n), i, draw, next) == Column(s, v, n);
    }
  }

  /** The number of random draws the complete shuffle of `ncases` cases takes. */
  function DrawsUsed(ncases: nat): (k: nat)
    ensures k < ncases || ncases == 0
  {
    if ncases <= 1 then 0 else ncases - 1
  }

  /**
    The complete (Fisher-Yates) shuffle of every target's block, drawing
    `draw(start)`, `draw(start + 1)`, ... (DrawsUsed(ncases) numbers).
  */
  method CompleteShuffle(targetBin: array<int>, ntarget: nat, ncases: nat, draw: nat -> real, start: nat)
    requires targetBin.Length == ntarget * ncases && NonNegative(draw)
    modifies targetBin
    ensures CompletelyShuffled(old(targetBin[..]), targetBin[..], ntarget, ncases, draw, start)
  {
    ghost var orig := targetBin[..];
    var i: nat := ncases;
    var next: int := start;
    while i > 1
      invariant i <= ncases && next == start + (ncases - i)
      invariant ShuffledSoFar(orig, targetBin[..], ntarget, ncases, i, draw, next, start)
    {
      ShuffleRound(targetBin, ntarget, ncases, i, draw, next, orig, start);
      i, next := i - 1, next + 1;
    }
    ShuffleDone(orig, targetBin[..], ntarget, ncases, i, draw, next, start);
  }

  /** Every target's block is rearranged by the complete shuffle. */
  lemma CompleteShufflePermutes(s: seq<int>, t: seq<int>, ntarget: nat, ncases: nat, draw: nat -> real, start: nat)
    requires |s| == ntarget * ncases && |t| == ntarget * ncases && NonNegative(draw)
    requires CompletelyShuffled(s, t, ntarget, ncases, draw, start)
    ensures BlocksPermuted(s, t, ntarget, ncases) && multiset(t) == multiset(s)
  {
    BlocksPermutedWhole(s, t, ntarget, ncases);
  }

  /** The block read from case `j` on, wrapping around past its end to its start. */
  function Rotate(col: seq<int>, j: int): (r: seq<int>)
    requires |col| == 0 || 0 <= j < |col|
    ensures |r| == |col|
  {
    seq(|col|, i requires 0 <= i < |col| => if i + j < |col| then col[i + j] else col[i + j - |col|])
  }

  /** Entry `i` of the rotation is entry `(i + j) mod n` of the block, as the source indexes it. */
  lemma RotateAt(col: seq<int>, j: int, i: int)
    requires 0 <= j < |col| && 0 <= i < |col|
    ensures 0 <= (i + j) % |col| < |col| && Rotate(col, j)[i] == col[(i + j) % |col|]
  {
    if i + j < |col| {
      DivModUnique(0, i + j, |col|);
    } else {
      DivModUnique(1, i + j - |col|, |col|);
    }
  }

  /** Rotating by `j` moves the first `j` entries to the end. */
  lemma RotationSplits(col: seq<int>, j: int)
    requires 0 <= j < |col|
    ensures Rotate(col, j) == col[j..] + col[..j]
    ensures multiset(Rotate(col, j)) == multiset(col)
  {
    assert Rotate(col, j) == col[j..] + col[..j];
    assert col == col[..j] + col[j..];
  }

  /** Rotating back by the complementary offset restores the block. */
  lemma RotateRoundTrip(col: seq<int>, j: int)
    requires 0 <= j < |col|
    ensures var k := (|col| - j) % |col|; Rotate(Rotate(col, j), k) == col
  {
    var n := |col|;
    var k := (n - j) % n;
    if j == 0 {
      DivModUnique(1, 0, n);
    } else {
      DivModUnique(0, n - j, n);
    }
    assert k == if j == 0 then 0 else n - j;
    var r := Rotate(col, j);
    forall i | 0 <= i < n
      ensures Rotate(r, k)[i] == col[i]
    {
    }
  }

  /** First half of one pass of the cyclic shuffle: the rotated block `col` copied into the work area. */
  method FillWork(targetBin: array<int>, workBin: array<int>, ncases: nat, base: nat, j: int, ghost col: seq<int>)
    requires base + ncases <= targetBin.Length && ncases <= workBin.Length && targetBin != workBin
    requires 0 <= j < ncases && col == targetBin[base .. base + ncases]
    modifies workBin
    ensures workBin[..ncases] == Rotate(col, j)
  {
    for i := 0 to ncases
      invariant forall c :: 0 <= c < i ==> workBin[c] == Rotate(col, j)[c]
    {
      RotateAt(col, j, i);
      workBin[i] := targetBin[base + (i + j) % ncases];
    }
  }

  lemma PrefixStep(r: seq<int>, col: seq<int>, i: nat)
    requires |r| == |col| && i < |col|
    ensures (r[..i] + col[i..])[i := r[i]] == r[..i + 1] + col[i + 1..]
  {
  }

  /** Second half of one pass of the cyclic shuffle: the work area copied back over block `v`. */
  method CopyBack(targetBin: array<int>, workBin: array<int>, ntarget: nat, ncases: nat, v: nat)
    requires targetBin.Length == ntarget * ncases && ncases <= workBin.Length && targetBin != workBin
    requires v < ntarget
    modifies targetBin
    ensures 0 <= v * ncases && v * ncases + ncases <= targetBin.Length
    ensures Column(targetBin[..], v, ncases) == workBin[..ncases]
    ensures OtherBlocksSame(old(targetBin[..]), targetBin[..], ntarget, ncases, v)
  {
    BlockFits(v, ntarget, ncases);
    ghost var orig := targetBin[..];
    ghost var col := Column(orig, v, ncases);
    ghost var r := workBin[..ncases];
    for i := 0 to ncases
      invariant Column(targetBin[..], v, ncases) == r[..i] + col[i..]
      invariant OtherBlocksSame(orig, targetBin[..], ntarget, ncases, v)
    {
      ghost var before := targetBin[..];
      WriteInBlock(before, ntarget, ncases, v, i, r[i]);
      PrefixStep(r, col, i);
      targetBin[v * ncases + i] := workBin[i];
      assert targetBin[..] == before[v * ncases + i := r[i]];
      OtherBlocksTrans(orig, before, targetBin[..], ntarget, ncases, v);
      assert Column(targetBin[..], v, ncases) == r[..i + 1] + col[i + 1..];
    }
    assert r[..ncases] + col[ncases..] == r;
  }

  /** One pass of the cyclic shuffle: block `v` rotated by `j` through the work area. */
  method RotateBlock(targetBin: array<int>, workBin: array<int>, ntarget: nat, ncases: nat, v: nat, j: int)
    requires targetBin.Length == ntarget * ncases && ncases <= workBin.Length && targetBin != workBin
    requires v < ntarget && 0 <= j < ncases
    modifies targetBin, workBin
    ensures 0 <= v * ncases && v * ncases + ncases <= targetBin.Length
    ensures Column(targetBin[..], v, ncases) == Rotate(Column(old(targetBin[..]), v, ncases), j)
    ensures OtherBlocksSame(old(targetBin[..]), targetBin[..], ntarget, ncases, v)
  {
    BlockFits(v, ntarget, ncases);
    FillWork(targetBin, workBin, ncases, v * ncases, j, Column(targetBin[..], v, ncases));
    CopyBack(targetBin, workBin, ntarget, ncases, v);
  }

  /** Every block of `t` is the same block of `s` rotated by `j`. */
  ghost predicate CyclicallyShifted(s: seq<int>, t: seq<int>, count: nat, n: nat, j: int)
    requires |s| == count * n && |t| == count * n && (n == 0 || 0 <= j < n)
  {
    forall v :: 0 <= v < count ==>
      (BlockFits(v, count, n); Column(t, v, n) == Rotate(Column(s, v, n), j))
  }

  /**
    The cyclic shuffle: one random offset `j` in `0 .. ncases-1`, and every
    target's block rotated by it, through the work area `workBin`.
  */
  method CyclicShuffle(targetBin: array<int>, workBin: array<int>, ntarget: nat, ncases: nat, u: real)
    requires targetBin.Length == ntarget * ncases && ncases <= workBin.Length && targetBin != workBin
    requires 0.0 <= u
    modifies targetBin, workBin
    ensures CyclicallyShifted(old(targetBin[..]), targetBin[..], ntarget, ncases, DrawIndex(u, ncases))
  {
    var j := DrawIndex(u, ncases);
    ghost var orig := targetBin[..];
    if ncases == 0 {
      forall v | 0 <= v < ntarget
        ensures (BlockFits(v, ntarget, ncases); Column(targetBin[..], v, ncases) == Rotate(Column(orig, v, ncases), j))
      {
        BlockFits(v, ntarget, ncases);
      }
      return;
    }
    for ivar := 0 to ntarget
      invariant forall v :: 0 <= v < ntarget ==>
        (BlockFits(v, ntarget, ncases);
         Column(targetBin[..], v, ncases)
         == if v < ivar then Rotate(Column(orig, v, ncases), j) else Column(orig, v, ncases))
    {
      RotateBlock(targetBin, workBin, ntarget, ncases, ivar, j);
    }
  }

  /** Every target's block is rearranged by the cyclic shuffle. */
  lemma CyclicShufflePermutes(s: seq<int>, t: seq<int>, ntarget: nat, ncases: nat, j: int)
    requires |s| == ntarget * ncases && |t| == ntarget * ncases && (ncases == 0 || 0 <= j < ncases)
    requires CyclicallyShifted(s, t, ntarget, ncases, j)
    ensures BlocksPermuted(s, t, ntarget, ncases) && multiset(t) == multiset(s)
  {
    forall v | 0 <= v < ntarget
      ensures (BlockFits(v, ntarget, ncases); multiset(Column(t, v, ncases)) == multiset(Column(s, v, ncases)))
    {
      BlockFits(v, ntarget, ncases);
      if ncases > 0 {
        RotationSplits(Column(s, v, ncases), j);
      }
    }
    BlocksPermutedWhole(s, t, ntarget, ncases);
  }
}
