/**
 The warp-level tensor-core operator (MmaTensorOp): its compile-time
 configuration, the MmaIterations grid derived from it, the operand
 transformation (`transform`) and the multiply-accumulate call
 (`operator()`), which invokes the instruction once per grid cell in
 serpentine order.

 Fragments are sequences of instruction-sized sub-fragments; the
 instruction itself is the opaque function `mma`, taking the A, B and
 incoming accumulator sub-fragments and giving the outgoing accumulator
 sub-fragment.
 */
module MmaTensorOp {
  import opened Wrappers
  import opened Serpentine
  import opened Accumulators
  import Arith
  import Fragments
  import ConvertAndPack

  /** A GEMM extent M x N x K. The C++ template arguments are `int`; only
      non-negative extents are meaningful, so they are natural numbers. */
  datatype GemmShape = GemmShape(m: nat, n: nat, k: nat)

  /** A two-dimensional extent: rows by columns. */
  datatype MatrixShape = MatrixShape(row: nat, column: nat)

  /** The instruction policy: the instruction's own shape and element types. */
  datatype Policy = Policy(instructionShape: GemmShape,
                           instructionElementA: ConvertAndPack.NumericType,
                           instructionElementB: ConvertAndPack.NumericType)

  /** The template arguments of the operator that its behaviour depends on. */
  datatype Config = Config(shape: GemmShape,
                           elementA: ConvertAndPack.NumericType,
                           elementB: ConvertAndPack.NumericType,
                           policy: Policy,
                           accumulatorsInRowMajor: bool,
                           partitionsN: nat)

  /** Why an instantiation is rejected at compile time. */
  datatype BuildError =
    | ShapeNotDivisible   // the static assertion on the warp shape fails
    | ZeroDivisor         // a constant expression divides by zero
    | PartitionsDoNotTile // only from CheckedIterations: see PartitionsTileN

  /** The MmaIterations grid: warp rows per instruction row, and warp
      columns per instruction column per N-partition, at least one. */
  function MmaIterations(cfg: Config): (r: Result<MatrixShape, BuildError>)
    ensures r.Success? <==>
              && 0 < cfg.policy.instructionShape.m && 0 < cfg.policy.instructionShape.n
              && cfg.shape.m % cfg.policy.instructionShape.m == 0
              && cfg.shape.n % cfg.policy.instructionShape.n == 0
              && 0 < cfg.partitionsN
    ensures r == Failure(ShapeNotDivisible) <==>
              && 0 < cfg.policy.instructionShape.m && 0 < cfg.policy.instructionShape.n
              && (cfg.shape.m % cfg.policy.instructionShape.m != 0 || cfg.shape.n % cfg.policy.instructionShape.n != 0)
    ensures r.Success? ==>
              var stride := cfg.policy.instructionShape.n * cfg.partitionsN;
              && r.value.row * cfg.policy.instructionShape.m == cfg.shape.m
              && 1 <= r.value.column
              && (stride <= cfg.shape.n ==> r.value.column * stride <= cfg.shape.n < r.value.column * stride + stride)
              && (cfg.shape.n < stride ==> r.value.column == 1)
  {
    var op := cfg.policy.instructionShape;
    if op.m == 0 || op.n == 0 then Failure(ZeroDivisor)
    else if cfg.shape.m % op.m != 0 || cfg.shape.n % op.n != 0 then Failure(ShapeNotDivisible)
    else if cfg.partitionsN == 0 then Failure(ZeroDivisor)
    else
      var perPartition := cfg.shape.n / op.n / cfg.partitionsN;
      Arith.DivModUnique(cfg.shape.m, cfg.shape.m / op.m, 0, op.m);
      NestedQuotientBounds(cfg.shape.n, op.n, cfg.partitionsN);
      Success(MatrixShape(cfg.shape.m / op.m, if perPartition > 0 then perPartition else 1))
  }

  /** A left-to-right quotient `n / opN / partitions`, as in the column
      count before the floor at one and in `n_off`, is the number of whole
      `opN * partitions` blocks in `n`. */
  lemma NestedQuotientBounds(n: nat, opN: nat, partitions: nat)
    requires 0 < opN && 0 < partitions
    ensures var q, stride := n / opN / partitions, opN * partitions;
            && 0 < stride
            && q * stride <= n < q * stride + stride
            && (0 < q <==> stride <= n)
  {
    Arith.NestedDiv(n, opN, partitions);
    var q, stride := n / opN / partitions, opN * partitions;
    assert n == q * stride + n % stride;
    if 0 < q {
      Arith.MulMonotone(1, q, stride);
    }
  }

  /** Splitting the N extent across `partitions` partitions divides the
      column count by `partitions` when the instruction columns split evenly. */
  lemma PartitionedIterations(cfg: Config)
    requires MmaIterations(cfg).Success?
    requires var columns := cfg.shape.n / cfg.policy.instructionShape.n;
             columns % cfg.partitionsN == 0 && cfg.partitionsN <= columns
    ensures MmaIterations(cfg.(partitionsN := 1)).Success?
    ensures MmaIterations(cfg.(partitionsN := 1)).value.row == MmaIterations(cfg).value.row
    ensures MmaIterations(cfg.(partitionsN := 1)).value.column
         == cfg.partitionsN * MmaIterations(cfg).value.column
  {
    var columns, p := cfg.shape.n / cfg.policy.instructionShape.n, cfg.partitionsN;
    var q := columns / p;
    assert columns == q * p;
    assert columns / 1 == columns;
  }

  /** Whether the partition calls tile N: the instruction columns of N split
      evenly over the N-partitions, each partition getting at least one, and,
      because the row-major branch never reads `n_off`, there is only one
      partition when accumulators are in row-major order. The static
      assertion checks none of this. */
  predicate PartitionsTileN(cfg: Config)
    requires 0 < cfg.policy.instructionShape.n && 0 < cfg.partitionsN
  {
    var columns := cfg.shape.n / cfg.policy.instructionShape.n;
    && columns % cfg.partitionsN == 0 && cfg.partitionsN <= columns
    && (!cfg.accumulatorsInRowMajor || cfg.partitionsN == 1)
  }

  /** `MmaIterations` with the missing check added: an instantiation whose
      N-partition calls do not tile N (see `PartitionsTileN`) is rejected
      too. */
  function CheckedIterations(cfg: Config): (r: Result<MatrixShape, BuildError>)
    ensures r.Success? <==> MmaIterations(cfg).Success? && PartitionsTileN(cfg)
    ensures r.Success? ==> r == MmaIterations(cfg)
    ensures r.Success? ==>
              r.value.column * cfg.partitionsN == cfg.shape.n / cfg.policy.instructionShape.n
  {
    var it := MmaIterations(cfg);
    if it.Failure? then it
    else if !PartitionsTileN(cfg) then Failure(PartitionsDoNotTile)
    else
      PartitionedIterations(cfg);
      assert cfg.shape.n / cfg.policy.instructionShape.n / 1 == cfg.shape.n / cfg.policy.instructionShape.n;
      it
  }

  /** In row-major order the partitions overlap even when they split N
      evenly: with two instruction columns and two partitions both partitions
      write slot 0 from B sub-fragment 0, so slot 0 is accumulated twice and
      B sub-fragment 1 is never read. With the instruction `x + y + z`,
      A = [1], B = [10, 20] and C = [100, 200], the two chained partition
      calls leave [122, 200], while one call with a single partition leaves
      [111, 221]. */
  lemma RowMajorPartitionCounterexample()
    ensures var cfg := Config(GemmShape(16, 16, 16), ConvertAndPack.Half, ConvertAndPack.Half,
                              Policy(GemmShape(16, 8, 16), ConvertAndPack.Half, ConvertAndPack.Half), true, 2);
            var add := (x: int, y: int, z: int) => x + y + z;
            var l0, l1 := CallLayout(cfg, 0, 2, 4), CallLayout(cfg, 1, 2, 4);
            var whole := CallLayout(cfg.(partitionsN := 1), 0, 2, 4);
            && MmaIterations(cfg) == Success(MatrixShape(1, 1))
            && cfg.shape.n / cfg.policy.instructionShape.n % cfg.partitionsN == 0
            && CheckedIterations(cfg) == Failure(PartitionsDoNotTile)
            && Slot(l0, 0, 0) == Slot(l1, 0, 0) == 0 && OperandB(l0, 0) == OperandB(l1, 0) == 0
            && Fits(l0, 1, 2, 2) && Fits(l1, 1, 2, 2) && Fits(whole, 1, 2, 2)
            && Accumulates(l0, add, [1], [10, 20], [100, 200], [111, 200])
            && Accumulates(l1, add, [1], [10, 20], [111, 200], [122, 200])
            && Accumulates(whole, add, [1], [10, 20], [100, 200], [111, 221])
  {
  }

  /** A configuration with six instruction columns in N and `partitions`
      N-partitions (half-precision operands, 16x8x16 instruction). */
  function SixColumns(partitions: nat): Config
  {
    Config(GemmShape(16, 48, 16), ConvertAndPack.Half, ConvertAndPack.Half,
           Policy(GemmShape(16, 8, 16), ConvertAndPack.Half, ConvertAndPack.Half), false, partitions)
  }

  /** The unchecked build leaves columns out: with six instruction columns
      and four partitions every partition computes one column, at B offsets
      0, 1, 3 and 4, so columns 2 and 5 are computed by no partition. */
  lemma PartitionGapCounterexample()
    ensures MmaIterations(SixColumns(4)) == Success(MatrixShape(1, 1))
    ensures CheckedIterations(SixColumns(4)) == Failure(PartitionsDoNotTile)
    ensures [CallLayout(SixColumns(4), 0, 6, 4).nOff, CallLayout(SixColumns(4), 1, 6, 4).nOff,
             CallLayout(SixColumns(4), 2, 6, 4).nOff, CallLayout(SixColumns(4), 3, 6, 4).nOff]
            == [0, 1, 3, 4]
    ensures forall p :: 0 <= p < 4 ==>
              var l := CallLayout(SixColumns(4), p, 6, 4);
              !(l.nOff <= 2 < l.nOff + l.cols) && !(l.nOff <= 5 < l.nOff + l.cols)
  {
  }

  /** The unchecked build computes a column twice: with one instruction
      column and two partitions, both partitions compute column 0. */
  lemma PartitionOverlapCounterexample()
    ensures var cfg := Config(GemmShape(16, 8, 16), ConvertAndPack.Half, ConvertAndPack.Half,
                              Policy(GemmShape(16, 8, 16), ConvertAndPack.Half, ConvertAndPack.Half), false, 2);
            && MmaIterations(cfg) == Success(MatrixShape(1, 1))
            && CheckedIterations(cfg) == Failure(PartitionsDoNotTile)
            && CallLayout(cfg, 0, 1, 4) == CallLayout(cfg, 1, 1, 4) == Layout(false, 1, 1, 0)
  {
  }

  /** The B sub-fragment offset of N-partition `partitionNIdx`: the partition
      index times the element count of the B fragment, divided left to right
      by the element count of one B sub-fragment and by the partition count. */
  function NOffset(partitionNIdx: nat, fragmentBElements: nat, operandBElements: nat, partitionsN: nat): (off: nat)
    requires 0 < operandBElements && 0 < partitionsN
    ensures var start, stride := partitionNIdx * fragmentBElements, operandBElements * partitionsN;
            off * stride <= start < off * stride + stride
  {
    NestedQuotientBounds(partitionNIdx * fragmentBElements, operandBElements, partitionsN);
    partitionNIdx * fragmentBElements / operandBElements / partitionsN
  }

  /** When the B fragment holds whole sub-fragments, `partitionsN * cols` of
      them, partition `p` starts at B sub-fragment `p * cols`: the partitions
      tile the B fragment and partition 0 starts at the beginning. */
  lemma PartitionOffset(partitionNIdx: nat, operandBElements: nat, partitionsN: nat, cols: nat)
    requires 0 < operandBElements && 0 < partitionsN
    ensures NOffset(partitionNIdx, partitionsN * cols * operandBElements, operandBElements, partitionsN)
         == partitionNIdx * cols
  {
    var p := partitionNIdx;
    assert p * (partitionsN * cols * operandBElements) == (p * partitionsN * cols) * operandBElements;
    Arith.DivMultiple(p * partitionsN * cols, operandBElements);
    assert p * partitionsN * cols == (p * cols) * partitionsN;
    Arith.DivMultiple(p * cols, partitionsN);
  }

  /** The accumulator layout of one call: the grid of the configuration and
      the B offset of the call's N-partition. The B fragment is `|b|` whole
      sub-fragments of `operandBElements` elements each. */
  function CallLayout(cfg: Config, partitionNIdx: nat, bCount: nat, operandBElements: nat): (l: Layout)
    requires MmaIterations(cfg).Success? && 0 < operandBElements
    ensures l.rowMajor == cfg.accumulatorsInRowMajor
    ensures l.rows == MmaIterations(cfg).value.row && l.cols == MmaIterations(cfg).value.column
    ensures l.nOff * cfg.partitionsN <= partitionNIdx * bCount < l.nOff * cfg.partitionsN + cfg.partitionsN
  {
    var it := MmaIterations(cfg).value;
    var start := partitionNIdx * bCount;
    assert partitionNIdx * (bCount * operandBElements) == start * operandBElements;
    Arith.DivMultiple(start, operandBElements);
    assert start == start / cfg.partitionsN * cfg.partitionsN + start % cfg.partitionsN;
    Layout(cfg.accumulatorsInRowMajor, it.row, it.column,
           NOffset(partitionNIdx, bCount * operandBElements, operandBElements, cfg.partitionsN))
  }

  /** The grid cells already visited when the inner loop is at step `m` of
      column `n`: all earlier columns, and in column `n` the rows passed so
      far in this column's direction. */
  predicate Visited(rows: nat, n: nat, m: nat, cell: Cell)
  {
    cell.n < n || (cell.n == n && (if n % 2 == 0 then cell.m < m else rows - m <= cell.m))
  }

  /** The state of the output fragment part way through the loop: visited
      cells hold their instruction result, unvisited ones and everything
      outside the active slice their incoming value. */
  ghost predicate AccumulatedSoFar<A, B, C>(l: Layout, mma: (A, B, C) -> C, a: seq<A>, b: seq<B>, c: seq<C>,
                                            d: seq<C>, n: nat, m: nat)
    requires Fits(l, |a|, |b|, |c|)
  {
    && |d| == |c|
    && (forall mm, nn {:trigger Slot(l, mm, nn)} :: 0 <= mm < l.rows && 0 <= nn < l.cols ==>
          (SlotInSlice(l, mm, nn);
           d[Slot(l, mm, nn)] == if Visited(l.rows, n, m, Cell(mm, nn))
                                 then mma(a[mm], b[OperandB(l, nn)], c[Slot(l, mm, nn)])
                                 else c[Slot(l, mm, nn)]))
    && (forall j :: 0 <= j < |c| && !InSlice(l, j) ==> d[j] == c[j])
  }

  /** One instruction call at inner step `m` of column `n` extends the
      visited cells by exactly the cell it updates. */
  lemma AccumulateStep<A, B, C>(l: Layout, mma: (A, B, C) -> C, a: seq<A>, b: seq<B>, c: seq<C>,
                                d: seq<C>, n: nat, m: nat)
    requires Fits(l, |a|, |b|, |c|)
    requires n < l.cols && m < l.rows
    requires AccumulatedSoFar(l, mma, a, b, c, d, n, m)
    ensures var ms := SerpentineRow(l.rows, n, m);
            var slot := Slot(l, ms, n);
            && ms < |a| && OperandB(l, n) < |b| && slot < |d|
            && AccumulatedSoFar(l, mma, a, b, c, d[slot := mma(a[ms], b[OperandB(l, n)], d[slot])], n, m + 1)
  {
    var ms := SerpentineRow(l.rows, n, m);
    SlotInSlice(l, ms, n);
    var slot := Slot(l, ms, n);
    var d' := d[slot := mma(a[ms], b[OperandB(l, n)], d[slot])];
    assert !Visited(l.rows, n, m, Cell(ms, n));
    forall mm, nn | 0 <= mm < l.rows && 0 <= nn < l.cols
      ensures Slot(l, mm, nn) < |c|
      ensures d'[Slot(l, mm, nn)] == if Visited(l.rows, n, m + 1, Cell(mm, nn))
                                     then mma(a[mm], b[OperandB(l, nn)], c[Slot(l, mm, nn)])
                                     else c[Slot(l, mm, nn)]
    {
      SlotInSlice(l, mm, nn);
      if Cell(mm, nn) != Cell(ms, n) {
        CellOfSlot(l, mm, nn);
        CellOfSlot(l, ms, n);
        assert Visited(l.rows, n, m + 1, Cell(mm, nn)) == Visited(l.rows, n, m, Cell(mm, nn));
      }
    }
  }

  /** After the last inner step of column `n` the loop state is that before
      the first inner step of column `n + 1`. */
  lemma AccumulateColumn<A, B, C>(l: Layout, mma: (A, B, C) -> C, a: seq<A>, b: seq<B>, c: seq<C>,
                                  d: seq<C>, n: nat)
    requires Fits(l, |a|, |b|, |c|)
    requires AccumulatedSoFar(l, mma, a, b, c, d, n, l.rows)
    ensures AccumulatedSoFar(l, mma, a, b, c, d, n + 1, 0)
  {
    forall mm, nn | 0 <= mm < l.rows && 0 <= nn < l.cols
      ensures Visited(l.rows, n, l.rows, Cell(mm, nn)) == Visited(l.rows, n + 1, 0, Cell(mm, nn))
    {
    }
  }

  /** One step of the serpentine loop: the instruction applied to A
      sub-fragment `ms`, the B sub-fragment of column `n` and one
      accumulator, written back in place. The row-major and column-major
      branches index the accumulator differently. Either way the slot written
      belongs to cell (ms, n) and to no other grid cell, so the accumulator of
      every other cell, and every slot outside the active slice, is left as
      it was. */
  method AccumulateCell<A, B, C>(l: Layout, mma: (A, B, C) -> C, a: seq<A>, b: seq<B>, d: seq<C>,
                                 ms: nat, n: nat)
    returns (e: seq<C>)
    requires ms < l.rows && n < l.cols
    requires ms < |a| && OperandB(l, n) < |b| && Slot(l, ms, n) < |d|
    ensures e == d[Slot(l, ms, n) := mma(a[ms], b[OperandB(l, n)], d[Slot(l, ms, n)])]
    ensures CellOf(l, Slot(l, ms, n)) == Some(Cell(ms, n))
    ensures forall cell :: InGrid(l.rows, l.cols, cell) && cell != Cell(ms, n) && Slot(l, cell.m, cell.n) < |d| ==>
              e[Slot(l, cell.m, cell.n)] == d[Slot(l, cell.m, cell.n)]
    ensures forall j :: 0 <= j < |d| && !InSlice(l, j) ==> e[j] == d[j]
  {
    CellOfSlot(l, ms, n);
    SlotBijection(l);
    if l.rowMajor {
      e := d[n + ms * l.cols := mma(a[ms], b[n], d[n + ms * l.cols])];
    } else {
      e := d[ms + (n + l.nOff) * l.rows := mma(a[ms], b[n + l.nOff], d[ms + (n + l.nOff) * l.rows])];
    }
  }

  /** The inner loop over one grid column: the rows of column `n` in
      serpentine order, one instruction call each. Entered with the columns
      before `n` done, it leaves column `n` done too, and lists the cells in
      the order the instruction was invoked on them. */
  method VisitColumn<A, B, C>(l: Layout, mma: (A, B, C) -> C, a: seq<A>, b: seq<B>, c: seq<C>,
                              d0: seq<C>, n: nat)
    returns (d: seq<C>, visits: seq<Cell>)
    requires Fits(l, |a|, |b|, |c|) && n < l.cols
    requires AccumulatedSoFar(l, mma, a, b, c, d0, n, 0)
    ensures AccumulatedSoFar(l, mma, a, b, c, d, n + 1, 0)
    ensures visits == ColumnVisits(l.rows, n)
  {
    d := d0;
    visits := [];
    var m := 0;
    while m < l.rows
      invariant m <= l.rows
      invariant AccumulatedSoFar(l, mma, a, b, c, d, n, m)
      invariant visits == ColumnVisits(l.rows, n)[..m]
    {
      var ms := if n % 2 == 1 then l.rows - 1 - m else m;
      assert ms == SerpentineRow(l.rows, n, m);
      AccumulateStep(l, mma, a, b, c, d, n, m);
      d := AccumulateCell(l, mma, a, b, d, ms, n);
      assert ColumnVisits(l.rows, n)[..m + 1] == ColumnVisits(l.rows, n)[..m] + [Cell(ms, n)];
      visits := visits + [Cell(ms, n)];
      m := m + 1;
    }
    AccumulateColumn(l, mma, a, b, c, d, n);
    assert ColumnVisits(l.rows, n)[..l.rows] == ColumnVisits(l.rows, n);
  }

  /** The multiply-accumulate call. The output starts as a copy of the
      accumulator input `c`; then the outer loop walks the grid columns, the
      inner loop the rows in serpentine order, and each step applies the
      instruction to the A sub-fragment of the row, the B sub-fragment of the
      column and the accumulator slot of the cell, in place. `visits` lists
      the grid cells in the order the instruction was invoked on them. */
  method Mma<A, B, C>(cfg: Config, mma: (A, B, C) -> C, a: seq<A>, b: seq<B>, c: seq<C>,
                      partitionNIdx: nat, operandBElements: nat)
    returns (d: seq<C>, visits: seq<Cell>)
    requires MmaIterations(cfg).Success? && 0 < operandBElements
    requires Fits(CallLayout(cfg, partitionNIdx, |b|, operandBElements), |a|, |b|, |c|)
    ensures visits == VisitOrder(MmaIterations(cfg).value.row, MmaIterations(cfg).value.column)
    ensures Accumulates(CallLayout(cfg, partitionNIdx, |b|, operandBElements), mma, a, b, c, d)
  {
    var it := MmaIterations(cfg).value;
    var rows, cols := it.row, it.column;
    var nOff := NOffset(partitionNIdx, |b| * operandBElements, operandBElements, cfg.partitionsN);
    var l := Layout(cfg.accumulatorsInRowMajor, rows, cols, nOff);
    assert l == CallLayout(cfg, partitionNIdx, |b|, operandBElements);
    d := c;
    visits := [];
    var n := 0;
    while n < cols
      invariant n <= cols
      invariant AccumulatedSoFar(l, mma, a, b, c, d, n, 0)
      invariant visits == VisitOrder(rows, n)
    {
      var column;
      d, column := VisitColumn(l, mma, a, b, c, d, n);
      visits := visits + column;
      n := n + 1;
    }
  }

  /** Whether the operand types differ from the instruction's: computed by
      `transform` and not used by it. It is off exactly when A's adapter is
      the identity specialisation and B (which only goes through the plain
      array converter) already has the instruction's element type;
      `TransformWithoutDepstage` states what that means for `Transform`. */
  function MidwayDepstage(cfg: Config): (r: bool)
    ensures !r <==>
              && ConvertAndPack.Select(cfg.policy.instructionElementA, cfg.elementA) == ConvertAndPack.Identity
              && cfg.policy.instructionElementB == cfg.elementB
  {
    !(cfg.policy.instructionElementA == cfg.elementA && cfg.policy.instructionElementB == cfg.elementB)
  }

  /** The operands in the instruction's element types. */
  datatype Transformed<VA, VB> = Transformed(a: seq<VA>, b: seq<VB>)

  /** B as the operator converts it: viewed as two halves, each converted
      element-wise on its own, the converted halves written back to back.
      The result is the element-wise conversion of the whole of B. */
  function ConvertInHalves<V>(convert: V -> V, b: seq<V>): (dst: seq<V>)
    requires |b| % 2 == 0
    ensures dst == Fragments.ConvertArray(convert, b)
  {
    var h := |b| / 2;
    var halves := Fragments.View(b, h, 2);
    Fragments.ViewHalves(b);
    var dst := [Fragments.ConvertArray(convert, halves[0]), Fragments.ConvertArray(convert, halves[1])];
    Fragments.FlattenPair(dst[0], dst[1]);
    Fragments.ConvertArrayAppend(convert, b[..h], b[h..]);
    assert b[..h] + b[h..] == b;
    Fragments.Flatten(dst)
  }

  /** The operand transformation: A goes through the operand adapter for its
      pair of element types, B through the converter half by half.
      `convertA` and `convertB` are the scalar conversions to the
      instruction's element types. */
  function Transform<VA, VB>(cfg: Config, convertA: VA -> VA, convertB: VB -> VB, a: seq<VA>, b: seq<VB>)
    : (t: Transformed<VA, VB>)
    requires ConvertAndPack.Admissible(cfg.policy.instructionElementA, cfg.elementA, |a|)
    requires |b| % 2 == 0
    ensures |t.a| == |a| && |t.b| == |b|
    ensures cfg.policy.instructionElementA == cfg.elementA ==> t.a == a
    ensures ConvertAndPack.Select(cfg.policy.instructionElementA, cfg.elementA) == ConvertAndPack.Convert ==>
              forall i :: 0 <= i < |a| ==> t.a[i] == convertA(a[i])
    ensures ConvertAndPack.Select(cfg.policy.instructionElementA, cfg.elementA) == ConvertAndPack.PermuteThenConvert ==>
              forall i :: 0 <= i < |a| ==>
                ConvertAndPack.Partner(i) < |a| && t.a[i] == convertA(a[ConvertAndPack.Partner(i)])
    ensures forall i :: 0 <= i < |b| ==> t.b[i] == convertB(b[i])
  {
    Transformed(ConvertAndPack.Pack(cfg.policy.instructionElementA, cfg.elementA, convertA, a),
                ConvertInHalves(convertB, b))
  }

  /** When the operand types already are the instruction's types and the
      B conversion is the identity (as converting a type to itself is), the
      transformation returns the operands unchanged. */
  lemma TransformWithoutDepstage<VA, VB>(cfg: Config, convertA: VA -> VA, convertB: VB -> VB,
                                         a: seq<VA>, b: seq<VB>)
    requires ConvertAndPack.Admissible(cfg.policy.instructionElementA, cfg.elementA, |a|)
    requires |b| % 2 == 0
    requires !MidwayDepstage(cfg)
    requires forall x :: convertB(x) == x
    ensures Transform(cfg, convertA, convertB, a, b) == Transformed(a, b)
  {
  }

  /** With `partitionsN` column-major calls, partition `p` starting from the
      output of partition `p - 1`, the last output is the output of a single
      call over the whole N extent with one partition. */
  lemma NPartitioningReproducesFullCall<A, B, C>(cfg: Config, mma: (A, B, C) -> C, a: seq<A>, b: seq<B>,
                                                 c: seq<C>, operandBElements: nat, ds: seq<seq<C>>)
    requires !cfg.accumulatorsInRowMajor && 0 < operandBElements
    requires CheckedIterations(cfg).Success?
    requires |b| == cfg.shape.n / cfg.policy.instructionShape.n
    requires Fits(CallLayout(cfg.(partitionsN := 1), 0, |b|, operandBElements), |a|, |b|, |c|)
    requires |ds| == cfg.partitionsN + 1 && ds[0] == c
    requires forall p :: 0 <= p < cfg.partitionsN ==>
               && Fits(CallLayout(cfg, p, |b|, operandBElements), |a|, |b|, |ds[p]|)
               && Accumulates(CallLayout(cfg, p, |b|, operandBElements), mma, a, b, ds[p], ds[p + 1])
    ensures Accumulates(CallLayout(cfg.(partitionsN := 1), 0, |b|, operandBElements), mma, a, b, c,
                        ds[cfg.partitionsN])
  {
    PartitionedIterations(cfg);
    var it := MmaIterations(cfg).value;
    var rows, cols, count := it.row, it.column, cfg.partitionsN;
    assert CallLayout(cfg.(partitionsN := 1), 0, |b|, operandBElements) == Layout(false, rows, count * cols, 0);
    assert |b| == count * cols;
    forall p | 0 <= p < count
      ensures CallLayout(cfg, p, |b|, operandBElements) == Layout(false, rows, cols, p * cols)
    {
      PartitionOffset(p, operandBElements, count, cols);
    }
    PartitionsCover(rows, cols, count, mma, a, b, c, ds);
  }
}
