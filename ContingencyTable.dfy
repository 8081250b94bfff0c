/**
  The counting passes of `compute_mi` and `uncert_reduc` (SCREEN_BIVAR.CPP).
  Both zero a scratch table of nbins_pred^2 * nbins_target integers and count
  every case into the cell of its joint predictor bin (pred1*nbins_pred+pred2)
  and its target bin; `uncert_reduc` also sums each row into `rmarg` and the
  rows into `total`.

  The floating-point statistics computed from these counts (log sums,
  entropies, their ratios) are not modelled: a `Numerics` value supplies them
  as functions of the integer counts.
*/
module ContingencyTable {

  import opened Flat

  /** The three uncertainty-reduction ratios: row dependent, column dependent, symmetric. */
  datatype UrResult = UrResult(rowDep: real, colDep: real, sym: real)

  /**
    The statistics proper, as functions of the counts they read:
    `mi(ncases, nbins_pred, nbins_target, table, target_counts)` and
    `ur(nbins_pred, nbins_target, table, rmarg, total, target_counts)`.
  */
  datatype Numerics = Numerics(
    mi: (nat, nat, nat, seq<int>, seq<int>) -> real,
    ur: (nat, nat, seq<int>, seq<int>, int, seq<int>) -> UrResult)

  function TableSize(nbinsPred: nat, nbinsTarget: nat): nat
  {
    nbinsPred * nbinsPred * nbinsTarget
  }

  /** What the callers guarantee: `ncases` bins per stream, each below its bin count. */
  predicate BinStreams(ncases: nat, nbinsPred: nat, pred1: seq<int>, pred2: seq<int>,
                       nbinsTarget: nat, target: seq<int>)
  {
    |pred1| == ncases && |pred2| == ncases && |target| == ncases &&
    InRange(pred1, nbinsPred) && InRange(pred2, nbinsPred) && InRange(target, nbinsTarget)
  }

  /** Joint predictor bin of every case. */
  function JointBins(nbinsPred: nat, pred1: seq<int>, pred2: seq<int>): (j: seq<int>)
    requires |pred2| == |pred1|
    ensures |j| == |pred1|
  {
    seq(|pred1|, i requires 0 <= i < |pred1| => pred1[i] * nbinsPred + pred2[i])
  }

  /** Table cell of every case: joint predictor bin times nbins_target plus the target bin. */
  function Cells(nbinsPred: nat, nbinsTarget: nat, pred1: seq<int>, pred2: seq<int>, target: seq<int>): (c: seq<int>)
    requires |pred2| == |pred1| && |target| == |pred1|
    ensures |c| == |pred1|
  {
    var joint := JointBins(nbinsPred, pred1, pred2);
    seq(|pred1|, i requires 0 <= i < |pred1| => joint[i] * nbinsTarget + target[i])
  }

  /** The contingency table the counting pass produces: cell c holds the number of cases in c. */
  function Table(nbinsPred: nat, nbinsTarget: nat, pred1: seq<int>, pred2: seq<int>, target: seq<int>): seq<int>
    requires |pred2| == |pred1| && |target| == |pred1|
  {
    Histogram(Cells(nbinsPred, nbinsTarget, pred1, pred2, target), TableSize(nbinsPred, nbinsTarget))
  }

  /** The sum of each row of an nrows x ncols table stored row after row. */
  function RowSums(table: seq<int>, nrows: nat, ncols: nat): (r: seq<int>)
    requires |table| == nrows * ncols
    ensures |r| == nrows
  {
    seq(nrows, i requires 0 <= i < nrows => BlockFits(i, nrows, ncols); Sum(Column(table, i, ncols)))
  }

  /** Number of the first `n` cases falling in predictor bins (b1, b2) and target bin bt. */
  function CountCases(pred1: seq<int>, pred2: seq<int>, target: seq<int>, n: nat, b1: int, b2: int, bt: int): nat
    requires n <= |pred1| && n <= |pred2| && n <= |target|
  {
    if n == 0 then 0
    else CountCases(pred1, pred2, target, n - 1, b1, b2, bt)
         + (if pred1[n - 1] == b1 && pred2[n - 1] == b2 && target[n - 1] == bt then 1 else 0)
  }

  // ---------------------------------------------------------------------------
  // Index arithmetic

  /** Every in-range case lands inside the table. */
  lemma CellInRange(nbinsPred: nat, nbinsTarget: nat, b1: int, b2: int, bt: int)
    requires 0 <= b1 < nbinsPred && 0 <= b2 < nbinsPred && 0 <= bt < nbinsTarget
    ensures 0 <= b1 * nbinsPred + b2 < nbinsPred * nbinsPred
    ensures 0 <= (b1 * nbinsPred + b2) * nbinsTarget + bt < TableSize(nbinsPred, nbinsTarget)
  {
    BlockFits(b1, nbinsPred, nbinsPred);
    BlockFits(b1 * nbinsPred + b2, nbinsPred * nbinsPred, nbinsTarget);
  }

  /** Distinct in-range bin combinations land in distinct cells. */
  lemma CellInjective(nbinsPred: nat, nbinsTarget: nat, b1: int, b2: int, bt: int, c1: int, c2: int, ct: int)
    requires 0 <= b1 < nbinsPred && 0 <= b2 < nbinsPred && 0 <= bt < nbinsTarget
    requires 0 <= c1 < nbinsPred && 0 <= c2 < nbinsPred && 0 <= ct < nbinsTarget
    requires (b1 * nbinsPred + b2) * nbinsTarget + bt == (c1 * nbinsPred + c2) * nbinsTarget + ct
    ensures b1 == c1 && b2 == c2 && bt == ct
  {
    DivModUnique(b1 * nbinsPred + b2, bt, nbinsTarget);
    DivModUnique(c1 * nbinsPred + c2, ct, nbinsTarget);
    DivModUnique(b1, b2, nbinsPred);
    DivModUnique(c1, c2, nbinsPred);
  }

  lemma CellsInRange(ncases: nat, nbinsPred: nat, pred1: seq<int>, pred2: seq<int>, nbinsTarget: nat, target: seq<int>)
    requires BinStreams(ncases, nbinsPred, pred1, pred2, nbinsTarget, target)
    ensures InRange(Cells(nbinsPred, nbinsTarget, pred1, pred2, target), TableSize(nbinsPred, nbinsTarget))
    ensures InRange(JointBins(nbinsPred, pred1, pred2), nbinsPred * nbinsPred)
  {
    forall i | 0 <= i < ncases
      ensures 0 <= Cells(nbinsPred, nbinsTarget, pred1, pred2, target)[i] < TableSize(nbinsPred, nbinsTarget)
      ensures 0 <= JointBins(nbinsPred, pred1, pred2)[i] < nbinsPred * nbinsPred
    {
      CellInRange(nbinsPred, nbinsTarget, pred1[i], pred2[i], target[i]);
    }
  }

  // ---------------------------------------------------------------------------
  // What the table means

  /** The cell of predictor bins (b1, b2) and target bin bt holds the number of cases with exactly those bins. */
  lemma TableCell(ncases: nat, nbinsPred: nat, pred1: seq<int>, pred2: seq<int>, nbinsTarget: nat, target: seq<int>,
                  b1: int, b2: int, bt: int)
    requires BinStreams(ncases, nbinsPred, pred1, pred2, nbinsTarget, target)
    requires 0 <= b1 < nbinsPred && 0 <= b2 < nbinsPred && 0 <= bt < nbinsTarget
    ensures 0 <= (b1 * nbinsPred + b2) * nbinsTarget + bt < TableSize(nbinsPred, nbinsTarget)
    ensures Table(nbinsPred, nbinsTarget, pred1, pred2, target)[(b1 * nbinsPred + b2) * nbinsTarget + bt]
            == CountCases(pred1, pred2, target, ncases, b1, b2, bt)
  {
    CellInRange(nbinsPred, nbinsTarget, b1, b2, bt);
    var cells := Cells(nbinsPred, nbinsTarget, pred1, pred2, target);
    PrefixCount(ncases, nbinsPred, pred1, pred2, nbinsTarget, target, b1, b2, bt, ncases);
    assert cells[..ncases] == cells;
  }

  lemma {:induction false} PrefixCount(ncases: nat, nbinsPred: nat, pred1: seq<int>, pred2: seq<int>,
                                       nbinsTarget: nat, target: seq<int>, b1: int, b2: int, bt: int, n: nat)
    requires BinStreams(ncases, nbinsPred, pred1, pred2, nbinsTarget, target)
    requires 0 <= b1 < nbinsPred && 0 <= b2 < nbinsPred && 0 <= bt < nbinsTarget
    requires n <= ncases
    ensures multiset(Cells(nbinsPred, nbinsTarget, pred1, pred2, target)[..n])[(b1 * nbinsPred + b2) * nbinsTarget + bt]
            == CountCases(pred1, pred2, target, n, b1, b2, bt)
  {
    var cells := Cells(nbinsPred, nbinsTarget, pred1, pred2, target);
    var c := (b1 * nbinsPred + b2) * nbinsTarget + bt;
    if n > 0 {
      PrefixCount(ncases, nbinsPred, pred1, pred2, nbinsTarget, target, b1, b2, bt, n - 1);
      assert cells[..n] == cells[..n - 1] + [cells[n - 1]];
      if cells[n - 1] == c {
        CellInjective(nbinsPred, nbinsTarget, pred1[n - 1], pred2[n - 1], target[n - 1], b1, b2, bt);
      }
    }
  }

  /** The cells add up to the number of cases. */
  lemma TableTotal(ncases: nat, nbinsPred: nat, pred1: seq<int>, pred2: seq<int>, nbinsTarget: nat, target: seq<int>)
    requires BinStreams(ncases, nbinsPred, pred1, pred2, nbinsTarget, target)
    ensures |Table(nbinsPred, nbinsTarget, pred1, pred2, target)| == TableSize(nbinsPred, nbinsTarget)
    ensures Sum(Table(nbinsPred, nbinsTarget, pred1, pred2, target)) == ncases
  {
    CellsInRange(ncases, nbinsPred, pred1, pred2, nbinsTarget, target);
    HistogramTotal(Cells(nbinsPred, nbinsTarget, pred1, pred2, target), TableSize(nbinsPred, nbinsTarget));
  }

  /** Row `i`'s sum after one count is added to cell (row, col). */
  lemma RowSumAfterIncrement(table: seq<int>, nrows: nat, ncols: nat, row: nat, col: nat, i: nat)
    requires |table| == nrows * ncols && row < nrows && col < ncols && i < nrows
    ensures row * ncols + col < |table|
    ensures RowSums(table[row * ncols + col := table[row * ncols + col] + 1], nrows, ncols)[i]
            == if i == row then RowSums(table, nrows, ncols)[i] + 1 else RowSums(table, nrows, ncols)[i]
  {
    BlockFits(row, nrows, ncols);
    BlockFits(i, nrows, ncols);
    var x := row * ncols + col;
    ColumnAfterWrite(table, row, ncols, col, table[x] + 1, i);
    if i == row {
      assert Column(table, row, ncols)[col] == table[x];
      SumIncrement(Column(table, row, ncols), col);
    }
  }

  /** Adding one count to cell (row, col) adds one to that row's sum and to no other. */
  lemma RowSumsIncrement(table: seq<int>, nrows: nat, ncols: nat, row: nat, col: nat)
    requires |table| == nrows * ncols && row < nrows && col < ncols
    ensures row * ncols + col < |table|
    ensures RowSums(table[row * ncols + col := table[row * ncols + col] + 1], nrows, ncols)
            == RowSums(table, nrows, ncols)[row := RowSums(table, nrows, ncols)[row] + 1]
  {
    BlockFits(row, nrows, ncols);
    var x := row * ncols + col;
    var r := RowSums(table, nrows, ncols);
    var r' := RowSums(table[x := table[x] + 1], nrows, ncols);
    forall i | 0 <= i < nrows
      ensures r'[i] == r[row := r[row] + 1][i]
    {
      RowSumAfterIncrement(table, nrows, ncols, row, col, i);
    }
  }

  /** One more case, in joint bin `b` and target bin `t`, adds one to row `b` of the row sums. */
  lemma RowSumsSnoc(cells: seq<int>, joint: seq<int>, b: int, t: int, nrows: nat, ncols: nat)
    requires 0 <= b < nrows && 0 <= t < ncols
    requires RowSums(Histogram(cells, nrows * ncols), nrows, ncols) == Histogram(joint, nrows)
    ensures 0 <= b * ncols + t < nrows * ncols
    ensures RowSums(Histogram(cells + [b * ncols + t], nrows * ncols), nrows, ncols) == Histogram(joint + [b], nrows)
  {
    BlockFits(b, nrows, ncols);
    HistogramSnoc(cells, b * ncols + t, nrows * ncols);
    HistogramSnoc(joint, b, nrows);
    RowSumsIncrement(Histogram(cells, nrows * ncols), nrows, ncols, b, t);
  }

  /**
    Row sums of a histogram of cells `joint*ncols + t` are the histogram of the
    joint values: the row marginal counts the cases of each joint predictor bin.
  */
  lemma {:induction false} RowSumsOfCells(joint: seq<int>, ts: seq<int>, cells: seq<int>, nrows: nat, ncols: nat)
    requires |ts| == |joint| && |cells| == |joint|
    requires InRange(joint, nrows) && InRange(ts, ncols)
    requires forall i :: 0 <= i < |cells| ==> cells[i] == joint[i] * ncols + ts[i]
    ensures RowSums(Histogram(cells, nrows * ncols), nrows, ncols) == Histogram(joint, nrows)
  {
    if joint == [] {
      RowSumsOfEmpty(nrows, ncols);
    } else {
      var n := |joint| - 1;
      var b, t := joint[n], ts[n];
      assert InRange(joint[..n], nrows) && InRange(ts[..n], ncols);
      RowSumsOfCells(joint[..n], ts[..n], cells[..n], nrows, ncols);
      assert cells == cells[..n] + [b * ncols + t];
      assert joint == joint[..n] + [b];
      RowSumsSnoc(cells[..n], joint[..n], b, t, nrows, ncols);
    }
  }

  lemma RowSumsOfEmpty(nrows: nat, ncols: nat)
    ensures RowSums(Histogram([], nrows * ncols), nrows, ncols) == Histogram([], nrows)
  {
    forall i | 0 <= i < nrows
      ensures RowSums(Histogram([], nrows * ncols), nrows, ncols)[i] == 0
    {
      BlockFits(i, nrows, ncols);
      assert Column(Histogram([], nrows * ncols), i, ncols) == seq(ncols, c => 0);
      ZeroSum(ncols);
    }
  }

  /** The row marginal of the table is the histogram of joint predictor bins, and its total is the case count. */
  lemma RowMarginal(ncases: nat, nbinsPred: nat, pred1: seq<int>, pred2: seq<int>, nbinsTarget: nat, target: seq<int>)
    requires BinStreams(ncases, nbinsPred, pred1, pred2, nbinsTarget, target)
    ensures |Table(nbinsPred, nbinsTarget, pred1, pred2, target)| == nbinsPred * nbinsPred * nbinsTarget
    ensures RowSums(Table(nbinsPred, nbinsTarget, pred1, pred2, target), nbinsPred * nbinsPred, nbinsTarget)
            == Histogram(JointBins(nbinsPred, pred1, pred2), nbinsPred * nbinsPred)
    ensures Sum(Histogram(JointBins(nbinsPred, pred1, pred2), nbinsPred * nbinsPred)) == ncases
  {
    CellsInRange(ncases, nbinsPred, pred1, pred2, nbinsTarget, target);
    RowSumsOfCells(JointBins(nbinsPred, pred1, pred2), target, Cells(nbinsPred, nbinsTarget, pred1, pred2, target),
                   nbinsPred * nbinsPred, nbinsTarget);
    HistogramTotal(JointBins(nbinsPred, pred1, pred2), nbinsPred * nbinsPred);
  }

  // ---------------------------------------------------------------------------
  // The counting passes

  /**
    Zero `binCounts[base ..]` for one table, then count every case into its cell
    (SCREEN_BIVAR.CPP:49-64, repeated at 118-133). The result depends only on the
    bin streams, whatever the buffer held before; nothing outside the table changes.
  */
  method FillTable(ncases: nat, nbinsPred: nat, pred1: seq<int>, pred2: seq<int>, nbinsTarget: nat, target: seq<int>,
                   binCounts: array<int>, base: nat)
    requires BinStreams(ncases, nbinsPred, pred1, pred2, nbinsTarget, target)
    requires base + TableSize(nbinsPred, nbinsTarget) <= binCounts.Length
    modifies binCounts
    ensures binCounts[base .. base + TableSize(nbinsPred, nbinsTarget)] == Table(nbinsPred, nbinsTarget, pred1, pred2, target)
    ensures forall c :: 0 <= c < binCounts.Length && !(base <= c < base + TableSize(nbinsPred, nbinsTarget))
                        ==> binCounts[c] == old(binCounts[c])
  {
    ZeroTable(binCounts, base, nbinsPred * nbinsPred, nbinsTarget);
    CountCells(ncases, nbinsPred, pred1, pred2, nbinsTarget, target, binCounts, base);
  }

  /** The zeroing loop: `nrows` rows of `ncols` counts from `base` set to zero, nothing else changed. */
  method ZeroTable(binCounts: array<int>, base: nat, nrows: nat, ncols: nat)
    requires base + nrows * ncols <= binCounts.Length
    modifies binCounts
    ensures binCounts[base .. base + nrows * ncols] == Histogram([], nrows * ncols)
    ensures forall c :: 0 <= c < binCounts.Length && !(base <= c < base + nrows * ncols) ==> binCounts[c] == old(binCounts[c])
  {
    ghost var size := nrows * ncols;
    var i := 0;
    while i < nrows
      invariant 0 <= i <= nrows
      invariant i * ncols <= size
      invariant forall c :: base <= c < base + i * ncols ==> binCounts[c] == 0
      invariant forall c :: 0 <= c < binCounts.Length && !(base <= c < base + size) ==> binCounts[c] == old(binCounts[c])
    {
      BlockFits(i, nrows, ncols);
      ZeroRow(binCounts, base, i * ncols, ncols, size);
      i := i + 1;
    }
    assert binCounts[base .. base + size] == Histogram([], size);
  }

  /** The counting loop: every case adds one to its cell of the zeroed table. */
  method CountCells(ncases: nat, nbinsPred: nat, pred1: seq<int>, pred2: seq<int>, nbinsTarget: nat, target: seq<int>,
                    binCounts: array<int>, base: nat)
    requires BinStreams(ncases, nbinsPred, pred1, pred2, nbinsTarget, target)
    requires base + TableSize(nbinsPred, nbinsTarget) <= binCounts.Length
    requires binCounts[base .. base + TableSize(nbinsPred, nbinsTarget)] == Histogram([], TableSize(nbinsPred, nbinsTarget))
    modifies binCounts
    ensures binCounts[base .. base + TableSize(nbinsPred, nbinsTarget)] == Table(nbinsPred, nbinsTarget, pred1, pred2, target)
    ensures forall c :: 0 <= c < binCounts.Length && !(base <= c < base + TableSize(nbinsPred, nbinsTarget))
                        ==> binCounts[c] == old(binCounts[c])
  {
    ghost var size := TableSize(nbinsPred, nbinsTarget);
    ghost var cells := Cells(nbinsPred, nbinsTarget, pred1, pred2, target);
    var i := 0;
    while i < ncases
      invariant 0 <= i <= ncases
      invariant binCounts[base .. base + size] == Histogram(cells[..i], size)
      invariant forall c :: 0 <= c < binCounts.Length && !(base <= c < base + size) ==> binCounts[c] == old(binCounts[c])
    {
      var k := pred1[i] * nbinsPred + pred2[i];
      CellInRange(nbinsPred, nbinsTarget, pred1[i], pred2[i], target[i]);
      var cell := k * nbinsTarget + target[i];
      assert cell == cells[i];
      Increment(binCounts, base, size, cell);
      assert cells[..i + 1] == cells[..i] + [cell];
      HistogramSnoc(cells[..i], cell, size);
      i := i + 1;
    }
    assert cells[..ncases] == cells;
  }

  /**
    `compute_mi`: count the table, then evaluate mutual information on it
    (SCREEN_BIVAR.CPP:35-89). The log sum itself is `num.mi`.
  */
  method ComputeMi(ncases: nat, nbinsPred: nat, pred1: seq<int>, pred2: seq<int>, nbinsTarget: nat, target: seq<int>,
                   targetCounts: seq<int>, num: Numerics, binCounts: array<int>, base: nat)
    returns (mi: real)
    requires BinStreams(ncases, nbinsPred, pred1, pred2, nbinsTarget, target)
    requires base + TableSize(nbinsPred, nbinsTarget) <= binCounts.Length
    modifies binCounts
    ensures binCounts[base .. base + TableSize(nbinsPred, nbinsTarget)] == Table(nbinsPred, nbinsTarget, pred1, pred2, target)
    ensures forall c :: 0 <= c < binCounts.Length && !(base <= c < base + TableSize(nbinsPred, nbinsTarget))
                        ==> binCounts[c] == old(binCounts[c])
    ensures mi == num.mi(ncases, nbinsPred, nbinsTarget, Table(nbinsPred, nbinsTarget, pred1, pred2, target), targetCounts)
  {
    FillTable(ncases, nbinsPred, pred1, pred2, nbinsTarget, target, binCounts, base);
    mi := num.mi(ncases, nbinsPred, nbinsTarget, binCounts[base .. base + TableSize(nbinsPred, nbinsTarget)], targetCounts);
  }

  /** One row of the marginal loop: `rmarg[r]` is zeroed, then the `ncols` entries from `start` are added to it. */
  method SumRowInto(binCounts: array<int>, start: nat, ncols: nat, rmarg: array<int>, r: nat)
    requires start + ncols <= binCounts.Length && r < rmarg.Length
    requires rmarg != binCounts
    modifies rmarg
    ensures rmarg[r] == Sum(binCounts[start .. start + ncols])
    ensures forall c :: 0 <= c < rmarg.Length && c != r ==> rmarg[c] == old(rmarg[c])
  {
    ghost var row := binCounts[start .. start + ncols];
    rmarg[r] := 0;
    var icol := 0;
    while icol < ncols
      invariant 0 <= icol <= ncols
      invariant rmarg[r] == Sum(row[..icol])
      invariant forall c :: 0 <= c < rmarg.Length && c != r ==> rmarg[c] == old(rmarg[c])
    {
      SumPrefix(row, icol);
      rmarg[r] := rmarg[r] + binCounts[start + icol];
      icol := icol + 1;
    }
    assert row[..ncols] == row;
  }

  /**
    The marginal loop of `uncert_reduc` (SCREEN_BIVAR.CPP:135-142): row `irow` of the
    table is summed into `rmarg[irow]` and every row sum into `total`.
  */
  method RowMarginals(nrows: nat, ncols: nat, binCounts: array<int>, base: nat, rmarg: array<int>, rbase: nat)
    returns (total: int)
    requires base + nrows * ncols <= binCounts.Length
    requires rbase + nrows <= rmarg.Length
    requires rmarg != binCounts
    modifies rmarg
    ensures rmarg[rbase .. rbase + nrows] == RowSums(binCounts[base .. base + nrows * ncols], nrows, ncols)
    ensures total == Sum(RowSums(binCounts[base .. base + nrows * ncols], nrows, ncols))
    ensures forall c :: 0 <= c < rmarg.Length && !(rbase <= c < rbase + nrows) ==> rmarg[c] == old(rmarg[c])
  {
    ghost var table := binCounts[base .. base + nrows * ncols];
    ghost var rows := RowSums(table, nrows, ncols);
    total := 0;
    var irow := 0;
    while irow < nrows
      invariant 0 <= irow <= nrows
      invariant forall r :: rbase <= r < rbase + irow ==> rmarg[r] == rows[r - rbase]
      invariant total == Sum(rows[..irow])
      invariant forall c :: 0 <= c < rmarg.Length && !(rbase <= c < rbase + nrows) ==> rmarg[c] == old(rmarg[c])
    {
      BlockFits(irow, nrows, ncols);
      var start := base + irow * ncols;
      assert forall j :: 0 <= j < ncols ==> binCounts[start + j] == Column(table, irow, ncols)[j];
      assert binCounts[start .. start + ncols] == Column(table, irow, ncols);
      SumRowInto(binCounts, start, ncols, rmarg, rbase + irow);
      SumPrefix(rows, irow);
      total := total + rmarg[rbase + irow];
      irow := irow + 1;
    }
    assert rows[..nrows] == rows;
  }

  /**
    `uncert_reduc`: count the table, sum its rows into `rmarg` and the rows into
    `total` (SCREEN_BIVAR.CPP:118-142), then evaluate the three ratios on them.
    `rmarg` ends as the histogram of joint predictor bins and `total` as the
    number of cases.
  */
  method UncertReduc(ncases: nat, nbinsPred: nat, pred1: seq<int>, pred2: seq<int>, nbinsTarget: nat, target: seq<int>,
                     targetCounts: seq<int>, num: Numerics, rmarg: array<int>, rbase: nat, binCounts: array<int>, base: nat)
    returns (result: UrResult)
    requires BinStreams(ncases, nbinsPred, pred1, pred2, nbinsTarget, target)
    requires base + TableSize(nbinsPred, nbinsTarget) <= binCounts.Length
    requires rbase + nbinsPred * nbinsPred <= rmarg.Length
    requires rmarg != binCounts
    modifies binCounts, rmarg
    ensures binCounts[base .. base + TableSize(nbinsPred, nbinsTarget)] == Table(nbinsPred, nbinsTarget, pred1, pred2, target)
    ensures forall c :: 0 <= c < binCounts.Length && !(base <= c < base + TableSize(nbinsPred, nbinsTarget))
                        ==> binCounts[c] == old(binCounts[c])
    ensures rmarg[rbase .. rbase + nbinsPred * nbinsPred] == Histogram(JointBins(nbinsPred, pred1, pred2), nbinsPred * nbinsPred)
    ensures forall c :: 0 <= c < rmarg.Length && !(rbase <= c < rbase + nbinsPred * nbinsPred) ==> rmarg[c] == old(rmarg[c])
    ensures result == num.ur(nbinsPred, nbinsTarget, Table(nbinsPred, nbinsTarget, pred1, pred2, target),
                             Histogram(JointBins(nbinsPred, pred1, pred2), nbinsPred * nbinsPred), ncases, targetCounts)
  {
    FillTable(ncases, nbinsPred, pred1, pred2, nbinsTarget, target, binCounts, base);
    var nbinsPredSquared := nbinsPred * nbinsPred;
    var total := RowMarginals(nbinsPredSquared, nbinsTarget, binCounts, base, rmarg, rbase);
    RowMarginal(ncases, nbinsPred, pred1, pred2, nbinsTarget, target);
    result := num.ur(nbinsPred, nbinsTarget, binCounts[base .. base + TableSize(nbinsPred, nbinsTarget)],
                     rmarg[rbase .. rbase + nbinsPredSquared], total, targetCounts);
  }
}
