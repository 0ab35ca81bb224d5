/**
 Where the warp-level operator keeps the accumulator sub-fragment of each
 grid cell, and what the accumulation loop leaves in the output fragment.

 With accumulators in row-major order, cell (m, n) lives in slot
 `n + m * cols` and reads B sub-fragment `n`. Otherwise (column-major, the
 default) it lives in slot `m + (n + nOff) * rows` and reads B sub-fragment
 `n + nOff`, where `nOff` selects the N-partition this call is responsible
 for. The slots a call can touch form its active slice.
 */
module Accumulators {
  import opened Wrappers
  import opened Serpentine
  import Arith

  /** The shape of one call: accumulator order, MmaIterations grid and
      N-partition offset (not read in row-major order). */
  datatype Layout = Layout(rowMajor: bool, rows: nat, cols: nat, nOff: nat)

  /** The accumulator slot of grid cell (m, n); every grid cell's slot lies
      in the active slice. */
  function Slot(l: Layout, m: nat, n: nat): (j: nat)
    ensures m < l.rows && n < l.cols ==> InSlice(l, j)
  {
    if l.rowMajor then
      (if m < l.rows then Arith.BlockFits(m, l.rows, l.cols); n + m * l.cols else n + m * l.cols)
    else
      (if n < l.cols then
         Arith.BlockFits(n + l.nOff, l.nOff + l.cols, l.rows);
         Arith.MulMonotone(l.nOff, n + l.nOff, l.rows);
         m + (n + l.nOff) * l.rows
       else m + (n + l.nOff) * l.rows)
  }

  /** The B sub-fragment read for grid column `n`. It is the column the
      cell's accumulator sits in: in column-major order every cell of grid
      column `n` has its slot in the block of `rows` slots numbered like the
      B sub-fragment; in row-major order the slot's remainder modulo `cols`
      is the B sub-fragment. */
  function OperandB(l: Layout, n: nat): (k: nat)
    ensures n < l.cols && !l.rowMajor ==>
              forall m :: 0 <= m < l.rows ==> k * l.rows <= Slot(l, m, n) < k * l.rows + l.rows
    ensures n < l.cols && l.rowMajor ==>
              forall m :: 0 <= m < l.rows ==> Slot(l, m, n) % l.cols == k
  {
    SlotColumn(l, n);
    if l.rowMajor then n else n + l.nOff
  }

  /** The slots of grid column `n`, in both accumulator orders. */
  lemma SlotColumn(l: Layout, n: nat)
    ensures n < l.cols && !l.rowMajor ==>
              forall m :: 0 <= m < l.rows ==>
                (n + l.nOff) * l.rows <= Slot(l, m, n) < (n + l.nOff) * l.rows + l.rows
    ensures n < l.cols && l.rowMajor ==>
              forall m :: 0 <= m < l.rows ==> Slot(l, m, n) % l.cols == n
  {
    if n < l.cols && l.rowMajor {
      forall m | 0 <= m < l.rows
        ensures Slot(l, m, n) % l.cols == n
      {
        Arith.DivModUnique(Slot(l, m, n), m, n, l.cols);
      }
    }
  }

  /** First slot of the active slice. */
  function SliceStart(l: Layout): nat
  {
    if l.rowMajor then 0 else l.nOff * l.rows
  }

  /** One past the last slot of the active slice. */
  function SliceEnd(l: Layout): nat
  {
    if l.rowMajor then l.rows * l.cols else (l.nOff + l.cols) * l.rows
  }

  predicate InSlice(l: Layout, j: nat)
  {
    SliceStart(l) <= j < SliceEnd(l)
  }

  /** The grid cell stored in slot `j`, if any: the inverse of `Slot`,
      decoded with division and remainder. */
  function CellOf(l: Layout, j: nat): Option<Cell>
  {
    if !InSlice(l, j) then None
    else if l.rowMajor then
      if l.cols == 0 then None else Some(Cell(j / l.cols, j % l.cols))
    else
      if l.rows == 0 || j / l.rows < l.nOff then None else Some(Cell(j % l.rows, j / l.rows - l.nOff))
  }

  /** `Slot`'s range fact as a lemma, to hand the solver inside quantifiers. */
  lemma SlotInSlice(l: Layout, m: nat, n: nat)
    requires InGrid(l.rows, l.cols, Cell(m, n))
    ensures InSlice(l, Slot(l, m, n))
  {
  }

  /** Decoding the slot of a grid cell gives the cell back. */
  lemma CellOfSlot(l: Layout, m: nat, n: nat)
    requires InGrid(l.rows, l.cols, Cell(m, n))
    ensures CellOf(l, Slot(l, m, n)) == Some(Cell(m, n))
  {
    SlotInSlice(l, m, n);
    if l.rowMajor {
      Arith.DivModUnique(Slot(l, m, n), m, n, l.cols);
    } else {
      Arith.DivModUnique(Slot(l, m, n), n + l.nOff, m, l.rows);
    }
  }

  /** Every slot of the active slice decodes to a grid cell whose slot it is. */
  lemma SlotOfCell(l: Layout, j: nat)
    requires InSlice(l, j)
    ensures CellOf(l, j).Some?
    ensures InGrid(l.rows, l.cols, CellOf(l, j).value)
    ensures Slot(l, CellOf(l, j).value.m, CellOf(l, j).value.n) == j
  {
    if l.rowMajor {
      var q := j / l.cols;
      assert j == q * l.cols + j % l.cols;
      if q >= l.rows {
        Arith.MulMonotone(l.rows, q, l.cols);
      }
    } else {
      var q := j / l.rows;
      assert j == q * l.rows + j % l.rows;
      if q < l.nOff {
        Arith.BlockFits(q, l.nOff, l.rows);
      }
      if q >= l.nOff + l.cols {
        Arith.MulMonotone(l.nOff + l.cols, q, l.rows);
      }
    }
  }

  /** The slot map is a bijection from the grid onto the active slice:
      distinct cells get distinct slots, and every slot of the slice belongs
      to some cell. */
  lemma SlotBijection(l: Layout)
    ensures forall c1, c2 :: InGrid(l.rows, l.cols, c1) && InGrid(l.rows, l.cols, c2) && c1 != c2 ==>
              Slot(l, c1.m, c1.n) != Slot(l, c2.m, c2.n)
    ensures forall j :: InSlice(l, j) ==>
              exists c :: InGrid(l.rows, l.cols, c) && Slot(l, c.m, c.n) == j
  {
    forall c1, c2 | InGrid(l.rows, l.cols, c1) && InGrid(l.rows, l.cols, c2) && c1 != c2
      ensures Slot(l, c1.m, c1.n) != Slot(l, c2.m, c2.n)
    {
      CellOfSlot(l, c1.m, c1.n);
      CellOfSlot(l, c2.m, c2.n);
    }
    forall j | InSlice(l, j)
      ensures exists c :: InGrid(l.rows, l.cols, c) && Slot(l, c.m, c.n) == j
    {
      SlotOfCell(l, j);
      var c := CellOf(l, j).value;
      assert InGrid(l.rows, l.cols, c) && Slot(l, c.m, c.n) == j;
    }
  }

  /** The fragments are long enough for every access of a call: A holds
      `rows` sub-fragments, B reaches the last B sub-fragment read, and the
      accumulator fragment reaches the end of the active slice. */
  predicate Fits(l: Layout, lengthA: nat, lengthB: nat, lengthC: nat)
  {
    l.rows == 0 || (l.rows <= lengthA && OperandB(l, l.cols) <= lengthB && SliceEnd(l) <= lengthC)
  }

  /** What one call leaves in the output fragment `d`: the slot of every grid
      cell (m, n) holds the instruction applied once to A sub-fragment `m`,
      the B sub-fragment of column `n` and the incoming accumulator of that
      slot; every slot outside the active slice still holds its incoming
      value. */
  ghost predicate Accumulates<A, B, C>(l: Layout, mma: (A, B, C) -> C, a: seq<A>, b: seq<B>, c: seq<C>, d: seq<C>)
    requires Fits(l, |a|, |b|, |c|)
  {
    && |d| == |c|
    && (forall m, n {:trigger Slot(l, m, n)} :: 0 <= m < l.rows && 0 <= n < l.cols ==>
          (SlotInSlice(l, m, n);
           d[Slot(l, m, n)] == mma(a[m], b[OperandB(l, n)], c[Slot(l, m, n)])))
    && (forall j :: 0 <= j < |c| && !InSlice(l, j) ==> d[j] == c[j])
  }

  /** In row-major order the N-partition offset plays no part: the slots,
      the B sub-fragments read and the active slice are the same for every
      offset, so a call meets `Accumulates` for one offset exactly when it
      meets it for any other. */
  lemma RowMajorIgnoresOffset<A, B, C>(l: Layout, k: nat, mma: (A, B, C) -> C, a: seq<A>, b: seq<B>,
                                       c: seq<C>, d: seq<C>)
    requires l.rowMajor && Fits(l, |a|, |b|, |c|)
    ensures Fits(l.(nOff := k), |a|, |b|, |c|)
    ensures Accumulates(l, mma, a, b, c, d) <==> Accumulates(l.(nOff := k), mma, a, b, c, d)
  {
    var l' := l.(nOff := k);
    forall m, n
      ensures Slot(l, m, n) == Slot(l', m, n) && OperandB(l, n) == OperandB(l', n)
    {
    }
    forall j
      ensures InSlice(l, j) == InSlice(l', j)
    {
    }
  }

  /** One call's result is determined by its inputs: two outputs that both
      meet `Accumulates` for the same inputs are equal. So the operator has
      no hidden state, and calling it again with the same inputs gives the
      same output. */
  lemma AccumulatesDeterministic<A, B, C>(l: Layout, mma: (A, B, C) -> C, a: seq<A>, b: seq<B>, c: seq<C>,
                                          d1: seq<C>, d2: seq<C>)
    requires Fits(l, |a|, |b|, |c|)
    requires Accumulates(l, mma, a, b, c, d1) && Accumulates(l, mma, a, b, c, d2)
    ensures d1 == d2
  {
    forall j | 0 <= j < |c|
      ensures d1[j] == d2[j]
    {
      if InSlice(l, j) {
        SlotOfCell(l, j);
        var cell := CellOf(l, j).value;
        assert Slot(l, cell.m, cell.n) == j;
      }
    }
  }

  /** Row-major and column-major accumulator order (without N-partition
      offset) compute the same value for every grid cell: only where the
      value is stored differs. */
  lemma RowAndColumnMajorAgree<A, B, C>(rows: nat, cols: nat, mma: (A, B, C) -> C, a: seq<A>, b: seq<B>,
                                        cRow: seq<C>, dRow: seq<C>, cColumn: seq<C>, dColumn: seq<C>)
    requires Fits(Layout(true, rows, cols, 0), |a|, |b|, |cRow|)
    requires Fits(Layout(false, rows, cols, 0), |a|, |b|, |cColumn|)
    requires Accumulates(Layout(true, rows, cols, 0), mma, a, b, cRow, dRow)
    requires Accumulates(Layout(false, rows, cols, 0), mma, a, b, cColumn, dColumn)
    requires forall m, n :: 0 <= m < rows && 0 <= n < cols ==>
               Slot(Layout(true, rows, cols, 0), m, n) < |cRow| &&
               Slot(Layout(false, rows, cols, 0), m, n) < |cColumn| &&
               cColumn[Slot(Layout(false, rows, cols, 0), m, n)] == cRow[Slot(Layout(true, rows, cols, 0), m, n)]
    ensures forall m, n :: 0 <= m < rows && 0 <= n < cols ==>
               Slot(Layout(true, rows, cols, 0), m, n) < |dRow| &&
               Slot(Layout(false, rows, cols, 0), m, n) < |dColumn| &&
               dColumn[Slot(Layout(false, rows, cols, 0), m, n)] == dRow[Slot(Layout(true, rows, cols, 0), m, n)]
  {
  }

  /** Two column-major calls on adjacent N-partition slices, the second
      starting from the output of the first, leave the same output as one
      call over both slices: splitting N across partitions loses and repeats
      nothing. */
  lemma PartitionsCompose<A, B, C>(rows: nat, k1: nat, k2: nat, nOff: nat, mma: (A, B, C) -> C,
                                   a: seq<A>, b: seq<B>, c: seq<C>, d1: seq<C>, d2: seq<C>)
    requires Fits(Layout(false, rows, k1 + k2, nOff), |a|, |b|, |c|)
    requires Fits(Layout(false, rows, k1, nOff), |a|, |b|, |c|)
    requires Accumulates(Layout(false, rows, k1, nOff), mma, a, b, c, d1)
    requires Accumulates(Layout(false, rows, k2, nOff + k1), mma, a, b, d1, d2)
    ensures Accumulates(Layout(false, rows, k1 + k2, nOff), mma, a, b, c, d2)
  {
    var l := Layout(false, rows, k1 + k2, nOff);
    forall m, n | 0 <= m < rows && 0 <= n < k1 + k2
      ensures Slot(l, m, n) < |c| && d2[Slot(l, m, n)] == mma(a[m], b[OperandB(l, n)], c[Slot(l, m, n)])
    {
      ComposeCell(rows, k1, k2, nOff, mma, a, b, c, d1, d2, m, n);
    }
    forall j | 0 <= j < |c| && !InSlice(l, j)
      ensures d2[j] == c[j]
    {
      SplitSlices(rows, k1, k2, nOff, j);
    }
  }

  /** One grid cell of `PartitionsCompose`: its slot ends up holding the
      instruction result whichever of the two calls it belongs to. */
  lemma ComposeCell<A, B, C>(rows: nat, k1: nat, k2: nat, nOff: nat, mma: (A, B, C) -> C,
                             a: seq<A>, b: seq<B>, c: seq<C>, d1: seq<C>, d2: seq<C>, m: nat, n: nat)
    requires Fits(Layout(false, rows, k1 + k2, nOff), |a|, |b|, |c|)
    requires Fits(Layout(false, rows, k1, nOff), |a|, |b|, |c|)
    requires Accumulates(Layout(false, rows, k1, nOff), mma, a, b, c, d1)
    requires Accumulates(Layout(false, rows, k2, nOff + k1), mma, a, b, d1, d2)
    requires m < rows && n < k1 + k2
    ensures var l := Layout(false, rows, k1 + k2, nOff);
            Slot(l, m, n) < |c| && d2[Slot(l, m, n)] == mma(a[m], b[OperandB(l, n)], c[Slot(l, m, n)])
  {
    var l, l1, l2 := Layout(false, rows, k1 + k2, nOff), Layout(false, rows, k1, nOff), Layout(false, rows, k2, nOff + k1);
    SlotInSlice(l, m, n);
    if n < k1 {
      SlotInSlice(l1, m, n);
      SplitSlices(rows, k1, k2, nOff, Slot(l1, m, n));
    } else {
      var n2 := n - k1;
      SlotInSlice(l2, m, n2);
      SplitSlot(rows, k1, k2, nOff, m, n);
      SplitSlices(rows, k1, k2, nOff, Slot(l2, m, n2));
    }
  }

  /** `count` column-major calls on consecutive slices of `cols` columns
      each, call `p` starting at column `p * cols` from the output of call
      `p - 1`, leave the output of one call over all `count * cols` columns. */
  lemma {:induction false} PartitionsCover<A, B, C>(rows: nat, cols: nat, count: nat, mma: (A, B, C) -> C,
                                                    a: seq<A>, b: seq<B>, c: seq<C>, ds: seq<seq<C>>)
    requires Fits(Layout(false, rows, count * cols, 0), |a|, |b|, |c|)
    requires |ds| == count + 1 && ds[0] == c
    requires forall p :: 0 <= p < count ==>
               && Fits(Layout(false, rows, cols, p * cols), |a|, |b|, |ds[p]|)
               && Accumulates(Layout(false, rows, cols, p * cols), mma, a, b, ds[p], ds[p + 1])
    ensures Accumulates(Layout(false, rows, count * cols, 0), mma, a, b, c, ds[count])
    decreases count
  {
    if count != 0 {
      var k := count - 1;
      Arith.MulSucc(k, cols);
      assert k * cols + cols == count * cols;
      assert Fits(Layout(false, rows, k * cols, 0), |a|, |b|, |c|) by {
        Arith.MulMonotone(k * cols, count * cols, rows);
      }
      PartitionsCover(rows, cols, k, mma, a, b, c, ds[..count]);
      PartitionsCompose(rows, k * cols, cols, 0, mma, a, b, c, ds[k], ds[count]);
    }
  }

  /** The slice of `k1 + k2` columns is the slice of the first `k1` columns
      followed by the slice of the next `k2`. */
  lemma SplitSlices(rows: nat, k1: nat, k2: nat, nOff: nat, j: nat)
    ensures InSlice(Layout(false, rows, k1, nOff), j) ==> !InSlice(Layout(false, rows, k2, nOff + k1), j)
    ensures InSlice(Layout(false, rows, k1 + k2, nOff), j) <==>
              InSlice(Layout(false, rows, k1, nOff), j) || InSlice(Layout(false, rows, k2, nOff + k1), j)
  {
    Arith.MulMonotone(nOff, nOff + k1, rows);
    Arith.MulMonotone(nOff + k1, nOff + k1 + k2, rows);
  }

  /** Column `n >= k1` of the combined slice is column `n - k1` of the second. */
  lemma SplitSlot(rows: nat, k1: nat, k2: nat, nOff: nat, m: nat, n: nat)
    requires k1 <= n
    ensures Slot(Layout(false, rows, k1 + k2, nOff), m, n) == Slot(Layout(false, rows, k2, nOff + k1), m, n - k1)
    ensures OperandB(Layout(false, rows, k1 + k2, nOff), n) == OperandB(Layout(false, rows, k2, nOff + k1), n - k1)
  {
    assert n - k1 + (nOff + k1) == n + nOff;
  }
}
