/**
  Helpers for the flat layouts SCREEN_BIVAR.CPP uses everywhere: a block of
  `n` entries per variable stored at offset `v*n` of one long buffer, and
  integer sums and histograms over such blocks.
*/
module Flat {

  /** Sum of all elements. */
  function Sum(s: seq<int>): int
  {
    if s == [] then 0 else s[0] + Sum(s[1..])
  }

  lemma {:induction false} SumConcat(a: seq<int>, b: seq<int>)
    ensures Sum(a + b) == Sum(a) + Sum(b)
  {
    if a == [] {
      assert a + b == b;
    } else {
      assert (a + b)[1..] == a[1..] + b;
      SumConcat(a[1..], b);
    }
  }

  /** Extending a prefix by one element adds that element to the sum. */
  lemma SumPrefix(s: seq<int>, k: nat)
    requires k < |s|
    ensures Sum(s[..k + 1]) == Sum(s[..k]) + s[k]
  {
    assert s[..k + 1] == s[..k] + [s[k]];
    SumConcat(s[..k], [s[k]]);
  }

  /** Raising one element by one raises the sum by one. */
  lemma {:induction false} SumIncrement(s: seq<int>, x: int)
    requires 0 <= x < |s|
    ensures Sum(s[x := s[x] + 1]) == Sum(s) + 1
  {
    if x == 0 {
      assert s[x := s[x] + 1][1..] == s[1..];
    } else {
      assert s[x := s[x] + 1][1..] == s[1..][x - 1 := s[x] + 1];
      SumIncrement(s[1..], x - 1);
    }
  }

  /** Histogram of `xs` over the values `0 .. size-1`: entry c counts the occurrences of c. */
  function Histogram(xs: seq<int>, size: nat): (h: seq<int>)
    ensures |h| == size
  {
    seq(size, c => multiset(xs)[c])
  }

  /** Appending one value raises its count by one. */
  lemma HistogramSnoc(xs: seq<int>, x: int, size: nat)
    requires 0 <= x < size
    ensures Histogram(xs + [x], size) == Histogram(xs, size)[x := Histogram(xs, size)[x] + 1]
  {
    assert multiset(xs + [x]) == multiset(xs) + multiset{x};
  }

  predicate InRange(xs: seq<int>, size: int)
  {
    forall i :: 0 <= i < |xs| ==> 0 <= xs[i] < size
  }

  /** When every value is in range, the histogram accounts for every element exactly once. */
  lemma {:induction false} HistogramTotal(xs: seq<int>, size: nat)
    requires InRange(xs, size)
    ensures Sum(Histogram(xs, size)) == |xs|
  {
    if xs == [] {
      assert Histogram(xs, size) == seq(size, c => 0);
      ZeroSum(size);
    } else {
      var init, x := xs[..|xs| - 1], xs[|xs| - 1];
      assert xs == init + [x];
      assert InRange(init, size);
      HistogramTotal(init, size);
      HistogramSnoc(init, x, size);
      SumIncrement(Histogram(init, size), x);
    }
  }

  lemma {:induction false} ZeroSum(size: nat)
    ensures Sum(seq(size, c => 0)) == 0
  {
    if size > 0 {
      assert seq(size, c => 0)[1..] == seq(size - 1, c => 0);
      ZeroSum(size - 1);
    }
  }

  /** The numbers `0 .. n-1` in order. */
  function Identity(n: nat): (p: seq<int>)
    ensures |p| == n && InRange(p, n)
  {
    seq(n, c => c)
  }

  /** Block `v` of a buffer holding consecutive blocks of `n` entries fits inside `count` blocks. */
  lemma BlockFits(v: nat, count: nat, n: nat)
    requires v < count
    ensures 0 <= v * n && v * n + n <= count * n
  {
    assert (count - v - 1) * n >= 0;
    assert count * n == v * n + n + (count - v - 1) * n;
  }

  /** Block `v` (entries `v*n .. v*n+n-1`) of a flat buffer. */
  function Column(s: seq<int>, v: nat, n: nat): (c: seq<int>)
    requires v * n + n <= |s|
    ensures |c| == n
  {
    s[v * n .. v * n + n]
  }

  /** A block of a buffer whose values are all in range has all its values in range. */
  lemma ColumnInRange(s: seq<int>, v: nat, n: nat, size: int)
    requires v * n + n <= |s| && InRange(s, size)
    ensures InRange(Column(s, v, n), size)
  {
    forall i | 0 <= i < n
      ensures 0 <= Column(s, v, n)[i] < size
    {
      assert Column(s, v, n)[i] == s[v * n + i];
    }
  }

  lemma MulNonNegative(a: nat, b: nat)
    ensures 0 <= a * b
  {
  }

  /**
    Writing entry `k` of the slice from `b` changes the slice from `a` only if
    the two are the same slice, and then only entry `k`.
  */
  lemma SliceAfterWrite(s: seq<int>, a: nat, b: nat, n: nat, k: nat, x: int)
    requires a + n <= |s| && b + n <= |s| && k < n && (a == b || a + n <= b || b + n <= a)
    ensures s[b + k := x][a .. a + n] == if a == b then s[b .. b + n][k := x] else s[a .. a + n]
  {
  }

  /** Writing entry `k` of block `v` changes block `v` only, and there only entry `k`. */
  lemma ColumnAfterWrite(s: seq<int>, v: nat, n: nat, k: nat, x: int, w: nat)
    requires k < n && v * n + n <= |s| && w * n + n <= |s|
    ensures Column(s[v * n + k := x], w, n)
            == if w == v then Column(s, v, n)[k := x] else Column(s, w, n)
  {
    MulNonNegative(w, n);
    MulNonNegative(v, n);
    var a, b := w * n, v * n;
    if w < v {
      BlockFits(w, v, n);
    } else if v < w {
      BlockFits(v, w, n);
    }
    assert (w == v) == (a == b);
    SliceAfterWrite(s, a, b, n, k, x);
  }

  /** `t` agrees with `s` on every block except block `v`. */
  predicate OtherBlocksSame(s: seq<int>, t: seq<int>, count: nat, n: nat, v: nat)
    requires |s| == count * n && |t| == count * n
  {
    forall w :: 0 <= w < count && w != v ==>
      (BlockFits(w, count, n); Column(t, w, n) == Column(s, w, n))
  }

  /** Writing entry `k` of block `v` changes that one entry of that one block. */
  lemma WriteInBlock(s: seq<int>, count: nat, n: nat, v: nat, k: nat, x: int)
    requires |s| == count * n && v < count && k < n
    ensures 0 <= v * n && v * n + n <= |s|
    ensures Column(s[v * n + k := x], v, n) == Column(s, v, n)[k := x]
    ensures OtherBlocksSame(s, s[v * n + k := x], count, n, v)
  {
    BlockFits(v, count, n);
    forall w | 0 <= w < count && w != v
      ensures (BlockFits(w, count, n); Column(s[v * n + k := x], w, n) == Column(s, w, n))
    {
      BlockFits(w, count, n);
      ColumnAfterWrite(s, v, n, k, x, w);
    }
    ColumnAfterWrite(s, v, n, k, x, v);
  }

  lemma OtherBlock(s: seq<int>, t: seq<int>, count: nat, n: nat, v: nat, w: nat)
    requires |s| == count * n && |t| == count * n && OtherBlocksSame(s, t, count, n, v)
    requires w < count && w != v
    ensures w * n + n <= count * n && Column(t, w, n) == Column(s, w, n)
  {
    BlockFits(w, count, n);
  }

  lemma OtherBlocksTrans(a: seq<int>, b: seq<int>, c: seq<int>, count: nat, n: nat, v: nat)
    requires |a| == count * n && |b| == count * n && |c| == count * n
    requires OtherBlocksSame(a, b, count, n, v) && OtherBlocksSame(b, c, count, n, v)
    ensures OtherBlocksSame(a, c, count, n, v)
  {
  }

  /** A buffer that changed only inside block `v` (which starts at `base`) keeps every other block. */
  lemma OutsideBlockSame(s: seq<int>, t: seq<int>, count: nat, n: nat, v: nat, base: nat)
    requires |s| == count * n && |t| == count * n && v < count && base == v * n
    requires forall c :: 0 <= c < |t| && !(base <= c < base + n) ==> t[c] == s[c]
    ensures OtherBlocksSame(s, t, count, n, v)
  {
    forall w | 0 <= w < count && w != v
      ensures (BlockFits(w, count, n); Column(t, w, n) == Column(s, w, n))
    {
      BlockFits(w, count, n);
      if w < v {
        BlockFits(w, v, n);
      } else {
        BlockFits(v, w, n);
      }
    }
  }

  /** A run of `ncols` counts from `base + start`, inside a region of `size` counts from `base`, set to zero. */
  method ZeroRow(binCounts: array<int>, base: nat, start: nat, ncols: nat, ghost size: nat)
    requires start + ncols <= size && base + size <= binCounts.Length
    requires forall c :: base <= c < base + start ==> binCounts[c] == 0
    modifies binCounts
    ensures forall c :: base <= c < base + start + ncols ==> binCounts[c] == 0
    ensures forall c :: 0 <= c < binCounts.Length && !(base + start <= c < base + start + ncols) ==> binCounts[c] == old(binCounts[c])
  {
    var j := 0;
    while j < ncols
      invariant 0 <= j <= ncols
      invariant forall c :: base <= c < base + start + j ==> binCounts[c] == 0
      invariant forall c :: 0 <= c < binCounts.Length && !(base + start <= c < base + start + ncols) ==> binCounts[c] == old(binCounts[c])
    {
      binCounts[base + start + j] := 0;
      j := j + 1;
    }
  }

  /** One more count in entry `cell` of the region of `size` counts from `base`. */
  method Increment(binCounts: array<int>, base: nat, ghost size: nat, cell: int)
    requires 0 <= cell < size && base + size <= binCounts.Length
    modifies binCounts
    ensures binCounts[base .. base + size] == old(binCounts[base .. base + size])[cell := old(binCounts[base + cell]) + 1]
    ensures forall c :: 0 <= c < binCounts.Length && c != base + cell ==> binCounts[c] == old(binCounts[c])
  {
    ghost var before := binCounts[..];
    binCounts[base + cell] := binCounts[base + cell] + 1;
    assert binCounts[..] == before[base + cell := before[base + cell] + 1];
    SliceAfterWrite(before, base, base, size, cell, before[base + cell] + 1);
    assert binCounts[base .. base + size] == binCounts[..][base .. base + size];
    assert old(binCounts[base .. base + size]) == before[base .. base + size];
  }

  /** Every block of `t` holds the values of the same block of `s`, in some order. */
  predicate BlocksPermuted(s: seq<int>, t: seq<int>, count: nat, n: nat)
    requires |s| == count * n && |t| == count * n
  {
    forall v :: 0 <= v < count ==>
      (BlockFits(v, count, n); multiset(Column(t, v, n)) == multiset(Column(s, v, n)))
  }

  /** Rearranging inside every block rearranges the whole buffer. */
  lemma {:induction false} BlocksPermutedWhole(s: seq<int>, t: seq<int>, count: nat, n: nat)
    requires |s| == count * n && |t| == count * n && BlocksPermuted(s, t, count, n)
    ensures multiset(t) == multiset(s)
    decreases count
  {
    if count > 0 {
      var m := LastBlockStart(count, n);
      BlockFits(count - 1, count, n);
      BlocksPermutedPrefix(s, t, count, n);
      BlocksPermutedWhole(s[..m], t[..m], count - 1, n);
      SplitLastBlock(s, count, n);
      SplitLastBlock(t, count, n);
    }
  }

  /** Where the last of `count` blocks of length `n` starts. */
  function LastBlockStart(count: nat, n: nat): (m: nat)
    requires count > 0
    ensures m + n == count * n && m == (count - 1) * n
  {
    MulNonNegative(count - 1, n);
    (count - 1) * n
  }

  /** A buffer of `count` blocks is its first `count - 1` blocks followed by the last one. */
  lemma SplitLastBlock(s: seq<int>, count: nat, n: nat)
    requires count > 0 && |s| == count * n
    ensures 0 <= (count - 1) * n && (count - 1) * n + n <= |s|
    ensures s == s[..LastBlockStart(count, n)] + Column(s, count - 1, n)
  {
    var m := LastBlockStart(count, n);
    assert s == s[..m] + s[m..];
  }

  /** Rearranging inside every block of a buffer rearranges inside every block of its prefix. */
  lemma BlocksPermutedPrefix(s: seq<int>, t: seq<int>, count: nat, n: nat)
    requires count > 0 && |s| == count * n && |t| == count * n && BlocksPermuted(s, t, count, n)
    ensures |s[..LastBlockStart(count, n)]| == (count - 1) * n
    ensures BlocksPermuted(s[..LastBlockStart(count, n)], t[..LastBlockStart(count, n)], count - 1, n)
  {
    var m := LastBlockStart(count, n);
    var s', t' := s[..m], t[..m];
    forall v | 0 <= v < count - 1
      ensures (BlockFits(v, count - 1, n); multiset(Column(t', v, n)) == multiset(Column(s', v, n)))
    {
      BlockFits(v, count - 1, n);
      BlockFits(v, count, n);
      assert Column(t', v, n) == Column(t, v, n);
      assert Column(s', v, n) == Column(s, v, n);
    }
  }

  /** Two rearrangements inside every block make one. */
  lemma BlocksPermutedTrans(r: seq<int>, s: seq<int>, t: seq<int>, count: nat, n: nat)
    requires |r| == count * n && |s| == count * n && |t| == count * n
    requires BlocksPermuted(r, s, count, n) && BlocksPermuted(s, t, count, n)
    ensures BlocksPermuted(r, t, count, n)
  {
    forall v | 0 <= v < count
      ensures (BlockFits(v, count, n); multiset(Column(t, v, n)) == multiset(Column(r, v, n)))
    {
      BlockFits(v, count, n);
    }
  }

  /** A rearrangement of values that are all in range has all its values in range. */
  lemma InRangePermuted(a: seq<int>, b: seq<int>, size: int)
    requires multiset(b) == multiset(a) && InRange(a, size)
    ensures InRange(b, size)
  {
    forall i | 0 <= i < |b|
      ensures 0 <= b[i] < size
    {
      assert b[i] in multiset(a);
      var j :| 0 <= j < |a| && a[j] == b[i];
    }
  }

  lemma MulLeft(a: int, b: int, n: nat)
    requires a <= b
    ensures a * n <= b * n
  {
    assert b * n - a * n == (b - a) * n;
  }

  /** Quotient and remainder are unique. */
  lemma DivModUnique(q: int, r: int, n: int)
    requires 0 <= q && 0 <= r < n
    ensures (q * n + r) / n == q && (q * n + r) % n == r
  {
    var k := q * n + r;
    var q', r' := k / n, k % n;
    assert k == q' * n + r';
    if q' < q {
      MulLeft(q' + 1, q, n);
    } else if q < q' {
      MulLeft(q + 1, q', n);
    }
  }
}
