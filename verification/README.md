# Warp-level tensor-core MMA operator of CUTLASS, modelled in Dafny

This project models the warp-level matrix multiply-accumulate operator
`MmaTensorOp` of CUTLASS (`include/cutlass/gemm/warp/mma_tensor_op.h`) and
its operand adapter `detail::ConvertAndPack`, and proves what they promise.

- **Operand adapter** (`ConvertAndPack`, file `convert_and_pack.dfy`). The
  partial specialisation is picked from the pair (instruction element type,
  operand element type): the same type gives the array back; half from float
  first reorders the array (inside each group of four, local positions 1 and
  2 trade places, computed with the index expression
  `((i << 1) & 2) | ((i >> 1) & 1) | (i & 0xfffffffc)`), then converts; any
  other pair converts element by element. The C++ bit operators are modelled
  on 32-bit patterns in `Bits` (`bits.dfy`). The index expression is proved
  equal to a plain pairing `Partner`, which is an involution. The reorder is a
  permutation, and it reads inside the array exactly when `N % 4 != 2`.
- **MmaIterations** (`MmaTensorOp.MmaIterations`). The grid has
  `M / opM` rows and `max(1, N / opN / PartitionsN)` columns. A shape the
  instruction does not divide is a build error; so is a zero divisor.
- **The multiply-accumulate call** (`MmaTensorOp.Mma`). It copies C to D.
  It walks the grid columns, and inside each column the rows in serpentine
  order (`Serpentine`). It applies the instruction in place to the
  accumulator slot of every cell. Row-major and column-major accumulator
  slots, and the N-partition offset `n_off`, are defined in `Accumulators`.
  The call is proved to invoke the instruction exactly once per grid cell,
  in serpentine order. Each cell's slot ends up holding the instruction
  result. Every slot outside the call's slice is left as it was.
  In column-major order, when PartitionsN divides `N / opN` and is at most
  `N / opN`, the partition calls over consecutive slices compose to one
  call over the whole N extent. Otherwise they do not tile N. In row-major
  order `n_off` is never read, so with more than one partition every
  partition writes the same slots (see Findings).
- **The operand transformation** (`MmaTensorOp.Transform`). A goes through
  the adapter. B is viewed as two halves (`Fragments.View`), each converted
  on its own, and the two results equal one element-wise conversion of all
  of B.

Fragments are sequences of instruction-sized sub-fragments. Element values
are an opaque type. The numeric conversion, with its rounding style, is an
opaque element function, and so is the tensor-core instruction
`(A, B, C) -> C`.

## Model

| member | source | states |
|---|---|---|
| ConvertAndPack.Select | include/cutlass/gemm/warp/mma_tensor_op.h:58-81 | the identity specialisation is chosen exactly when the two element types are the same, and the reorder-then-convert one exactly for half from float; every other pair gets plain conversion |
| ConvertAndPack.Pack | include/cutlass/gemm/warp/mma_tensor_op.h:58-99 | the adapter keeps the length; for the same type it returns the source; for half from float element i is the conversion of the source element at i's partner position; for other pairs element i is the conversion of source element i |
| ConvertAndPack.PackIndex | include/cutlass/gemm/warp/mma_tensor_op.h:93 | the bit expression computing the read position equals the partner position: local positions 1 and 2 of each group of four swap, 0 and 3 stay |
| ConvertAndPack.PackIndexValue | include/cutlass/gemm/warp/mma_tensor_op.h:93 | the three masked terms are bit 0 moved to bit 1 (`2 * (i % 2)`), bit 1 moved to bit 0 (`i / 2 % 2`), and the group base (`4 * (i / 4)`); OR-ing them gives the partner position |
| ConvertAndPack.PartnerGroup | include/cutlass/gemm/warp/mma_tensor_op.h:93 | the read position stays in the same group of four, and is fixed exactly at local positions 0 and 3 |
| ConvertAndPack.PackIndexInvolution | include/cutlass/gemm/warp/mma_tensor_op.h:93 | applying the index map twice gives the position back, so the map is a bijection |
| ConvertAndPack.PackIndexInRange | include/cutlass/gemm/warp/mma_tensor_op.h:91-95 | all reads of the reorder loop stay inside an array of N elements if and only if N % 4 != 2 |
| ConvertAndPack.PartnerInRange | include/cutlass/gemm/warp/mma_tensor_op.h:91-95 | the same if-and-only-if, stated on the pairing itself |
| ConvertAndPack.Reorder | include/cutlass/gemm/warp/mma_tensor_op.h:89-95 | the temporary array has the source's length, and element i is the source element at i's partner position |
| ConvertAndPack.ReorderInvolution | include/cutlass/gemm/warp/mma_tensor_op.h:89-95 | reordering twice gives the source back |
| ConvertAndPack.ReorderIsPermutation | include/cutlass/gemm/warp/mma_tensor_op.h:89-95 | the temporary array holds the same elements as the source, each as often (equal multisets) |
| ConvertAndPack.ReorderFirstGroup | include/cutlass/gemm/warp/mma_tensor_op.h:91-95 | the reorder of an array of four or more elements is the first group with its middle pair swapped, followed by the reorder of the rest |
| ConvertAndPack.ReorderThree | include/cutlass/gemm/warp/mma_tensor_op.h:91-95 | on three elements the reorder swaps the last two |
| ConvertAndPack.ReorderEight | include/cutlass/gemm/warp/mma_tensor_op.h:91-95 | eight elements a0..a7 come out as a0 a2 a1 a3 a4 a6 a5 a7 |
| ConvertAndPack.PackHalfFromFloat | include/cutlass/gemm/warp/mma_tensor_op.h:80-99 | half from float converts a permutation of the source, and reordering its result gives the plain element-wise conversion of the source |
| Bits.ShiftLeftOne | include/cutlass/gemm/warp/mma_tensor_op.h:93 | `i << 1` doubles a pattern below 2^31 (higher bits are lost on 32 bits) |
| Bits.ShiftRightOne | include/cutlass/gemm/warp/mma_tensor_op.h:93 | `i >> 1` of a non-negative value is its half rounded down |
| Bits.AndClearLowTwo | include/cutlass/gemm/warp/mma_tensor_op.h:93 | `i & 0xfffffffc` clears the two low bits, giving the start of i's group of four |
| Fragments.View | include/cutlass/gemm/warp/mma_tensor_op.h:323-327 | reinterpreting a flat fragment as sub-fragments of `stride` elements: sub-fragment k is elements k*stride up to (k+1)*stride |
| Fragments.FlattenView | include/cutlass/gemm/warp/mma_tensor_op.h:323-327 | the sub-fragments laid back end to end are the flat fragment again: the reinterpretation loses and adds nothing |
| Fragments.ViewHalves | include/cutlass/gemm/warp/mma_tensor_op.h:323-327 | B viewed as two halves is its first half and its second half |
| Serpentine.SerpentineRow | include/cutlass/gemm/warp/mma_tensor_op.h:279 | the serpentine row of inner step m stays in the grid |
| Serpentine.SerpentineDirection | include/cutlass/gemm/warp/mma_tensor_op.h:274-279 | rows are visited in increasing order in even columns and in decreasing order in odd columns |
| Serpentine.SerpentineInverse | include/cutlass/gemm/warp/mma_tensor_op.h:279 | the serpentine row map is its own inverse, so every row is reached by exactly one inner step |
| Serpentine.ColumnVisitsOrdered | include/cutlass/gemm/warp/mma_tensor_op.h:277-279 | the inner loop stays in its column, with rows strictly increasing (even column) or strictly decreasing (odd column) |
| Serpentine.VisitOrder | include/cutlass/gemm/warp/mma_tensor_op.h:274-279 | the nested loop makes rows*columns visits, each a cell inside the grid |
| Serpentine.VisitOrderExactlyOnce | include/cutlass/gemm/warp/mma_tensor_op.h:274-279 | the nested loop makes rows*columns visits, each inside the grid, no cell twice, and every grid cell is visited |
| Serpentine.VisitOrderIndex | include/cutlass/gemm/warp/mma_tensor_op.h:274-279 | visit number n*rows+m is row `serpentine(m)` of column n |
| Accumulators.Slot | include/cutlass/gemm/warp/mma_tensor_op.h:281-293 | the accumulator index of a grid cell, `n + m*kColumn` (row-major, line 283) or `m + (n + n_off)*kRow` (column-major, line 289), lies in the call's active slice |
| Accumulators.OperandB | include/cutlass/gemm/warp/mma_tensor_op.h:285-291 | the B sub-fragment `ptr_B[n]` (row-major) or `ptr_B[n + n_off]` (column-major) is the one whose column the cell's accumulator belongs to: in column-major order every slot of column n lies in block `n + n_off` of kRow slots; in row-major order every slot of column n is n modulo kColumn |
| Accumulators.CellOfSlot | include/cutlass/gemm/warp/mma_tensor_op.h:281-293 | decoding a cell's accumulator slot gives the cell back |
| Accumulators.SlotOfCell | include/cutlass/gemm/warp/mma_tensor_op.h:281-293 | every slot of the active slice belongs to a grid cell |
| Accumulators.SlotBijection | include/cutlass/gemm/warp/mma_tensor_op.h:281-293 | distinct grid cells get distinct accumulator slots, and every slot of the slice is some cell's, in both accumulator orders |
| Accumulators.AccumulatesDeterministic | include/cutlass/gemm/warp/mma_tensor_op.h:253-296 | the call's output is determined by its inputs: two outputs meeting the accumulation property for the same inputs are equal |
| Accumulators.RowMajorIgnoresOffset | include/cutlass/gemm/warp/mma_tensor_op.h:271-286 | in row-major order the N-partition offset has no effect: a call meets the accumulation property for one offset exactly when it meets it for any other, so `partitionN_idx` does not matter in that branch |
| Accumulators.RowAndColumnMajorAgree | include/cutlass/gemm/warp/mma_tensor_op.h:281-293 | without partition offset, row-major and column-major order compute the same value for every cell and differ only in where it is stored |
| Accumulators.PartitionsCompose | include/cutlass/gemm/warp/mma_tensor_op.h:271-293 | two column-major calls on adjacent slices, the second starting from the first's output, equal one call over both slices |
| Accumulators.PartitionsCover | include/cutlass/gemm/warp/mma_tensor_op.h:271-293 | a chain of column-major calls on consecutive equal slices equals one call over all of them |
| MmaTensorOp.MmaIterations | include/cutlass/gemm/warp/mma_tensor_op.h:223-234 | the instantiation builds exactly when the instruction shape divides the warp shape and no divisor is zero, and fails with the static assertion exactly when a nonzero instruction shape does not divide; rows times opM is M; columns is at least 1, and is the number of whole opN*PartitionsN blocks in N when there is one, otherwise 1 |
| MmaTensorOp.NestedQuotientBounds | include/cutlass/gemm/warp/mma_tensor_op.h:229-233 | the left-to-right quotient N / opN / PartitionsN is the number of whole opN*PartitionsN blocks in N, and it is positive exactly when N holds one |
| MmaTensorOp.NOffset | include/cutlass/gemm/warp/mma_tensor_op.h:271 | n_off, computed by dividing left to right, is the number of whole (MmaOperandB::kElements * PartitionsN) blocks in partitionN_idx * FragmentB::kElements |
| MmaTensorOp.PartitionedIterations | include/cutlass/gemm/warp/mma_tensor_op.h:229-234 | when the instruction columns split evenly over the partitions, one partition has PartitionsN times the columns of the partitioned grid, and the same rows |
| MmaTensorOp.PartitionOffset | include/cutlass/gemm/warp/mma_tensor_op.h:271 | when B holds PartitionsN*columns whole sub-fragments, partition p's offset n_off is p*columns; partition 0 starts at 0 |
| MmaTensorOp.CallLayout | include/cutlass/gemm/warp/mma_tensor_op.h:271-293 | the call's accumulator layout has the grid of `MmaIterations`, the configured accumulator order, and an offset n_off whose PartitionsN-wide block holds `partitionN_idx * FragmentB::kElements / MmaOperandB::kElements` |
| MmaTensorOp.CheckedIterations | include/cutlass/gemm/warp/mma_tensor_op.h:223-234 | the build with the partition check added succeeds exactly when `MmaIterations` does and the partition calls tile N (PartitionsN divides `N / opN` and is at most it, and is 1 in row-major order); then it agrees with `MmaIterations`, and columns times PartitionsN is `N / opN` |
| MmaTensorOp.PartitionGapCounterexample | include/cutlass/gemm/warp/mma_tensor_op.h:229-271 | for N/opN = 6 and PartitionsN = 4 the unchecked build gives one column per partition, at offsets 0, 1, 3 and 4, so columns 2 and 5 are computed by no partition; the checked build rejects it |
| MmaTensorOp.RowMajorPartitionCounterexample | include/cutlass/gemm/warp/mma_tensor_op.h:271-286 | in row-major order two partitions over two instruction columns (which divide evenly) both write slot 0 from B sub-fragment 0: with the instruction x+y+z, A=[1], B=[10,20], C=[100,200] the chained calls leave [122,200] where one single-partition call leaves [111,221]; the checked build rejects it |
| MmaTensorOp.PartitionOverlapCounterexample | include/cutlass/gemm/warp/mma_tensor_op.h:229-271 | for N/opN = 1 and PartitionsN = 2 the unchecked build gives both partitions column 0 at offset 0, so it is accumulated twice; the checked build rejects it |
| MmaTensorOp.AccumulateStep | include/cutlass/gemm/warp/mma_tensor_op.h:279-293 | one instruction call updates exactly the slot of the current cell and extends the visited cells by that cell |
| MmaTensorOp.AccumulateColumn | include/cutlass/gemm/warp/mma_tensor_op.h:274-279 | after the last inner step of a column, the visited cells are exactly the cells of the columns so far |
| MmaTensorOp.VisitColumn | include/cutlass/gemm/warp/mma_tensor_op.h:277-293 | the inner loop over one column invokes the instruction on the column's cells in serpentine order, and afterwards every cell of that column and of the earlier columns holds its result while all other slots keep their incoming values |
| MmaTensorOp.AccumulateCell | include/cutlass/gemm/warp/mma_tensor_op.h:281-293 | one step writes the instruction result into a slot that decodes back to the current cell and to no other; every other grid cell's accumulator and every slot outside the active slice keep their values |
| MmaTensorOp.Mma | include/cutlass/gemm/warp/mma_tensor_op.h:253-296 | the instruction is invoked in serpentine order on every grid cell exactly once; every cell's slot holds the instruction applied to A[row], the B sub-fragment of the column (offset by n_off in column-major order) and the incoming accumulator; every slot outside the active slice equals C |
| MmaTensorOp.MidwayDepstage | include/cutlass/gemm/warp/mma_tensor_op.h:302-306 | the flag is false exactly when both operand element types are the instruction's: for A that is exactly when the adapter picks its identity specialisation, and B (converted by the plain array converter at 320-332) needs equal types; `MmaTensorOp.TransformWithoutDepstage` states what the flag being false means for the transformation |
| MmaTensorOp.ConvertInHalves | include/cutlass/gemm/warp/mma_tensor_op.h:320-332 | converting the two halves of B separately and writing them back to back equals converting all of B element by element |
| MmaTensorOp.Transform | include/cutlass/gemm/warp/mma_tensor_op.h:300-334 | A is returned unchanged for the same type, converted element-wise for a plain pair, and converted from partner positions for half from float; B is converted element-wise and never reordered |
| MmaTensorOp.TransformWithoutDepstage | include/cutlass/gemm/warp/mma_tensor_op.h:302-334 | when the operand types already are the instruction's types (no midway conversion stage) and the B conversion is the identity, the operands come out unchanged |
| MmaTensorOp.NPartitioningReproducesFullCall | include/cutlass/gemm/warp/mma_tensor_op.h:229-293 | when the partitions tile N (PartitionsN divides `N / opN` and is at most `N / opN`), PartitionsN column-major calls, one per partition index and each starting from the previous output, leave what one call with a single partition leaves |

## Left out

- Numeric conversion and rounding styles (`NumericArrayConverter`, `PreferredRoundingMode`): the scalar conversion is an opaque element function given as a parameter. Floating point is not modelled.
- The tensor-core instruction (`Policy::Operator`) is an opaque function of the A, B and incoming accumulator sub-fragments.
- Tile iterators and fragment sizing (`IteratorA/B/C`, `FragmentA/B/C`, `MmaOperandA/B/C`): fragments are sequences of whole sub-fragments, and their lengths are inputs constrained by `Accumulators.Fits`.
- `reinterpret_cast`: in `transform` (lines 323-327) it is modelled as the views of `Fragments`; `Mma` (lines 266-268) takes A, B and C already as sequences of instruction sub-fragments, so its casts are not modelled separately. Element storage layout and bit packing of narrow types are not modelled.
- Lanes and `kThreadCount`: the model is one lane's view; all lanes run the same code.
- `ArchTag`, `OperatorClass`, `kTransformA/kTransformB` (always `kNone`) and the layout template parameters: they do not change the operator's behaviour.
- `PartitionsK`: it only sizes the tile iterators, which are not part of this model.
- `midway_depstage` is computed and never used; the model has it as `MidwayDepstage` and one lemma about the case where it is false.
- MmaTensorOp.Mma: `partitionN_idx` is a natural number. The product `partitionN_idx * FragmentB::kElements` mixes `int` with the integer type of `kElements` from `cutlass/array.h`, which is not part of this model, so a negative index and fixed-width overflow are not modelled.
- MmaTensorOp.MmaIterations: the warp shape, the instruction shape and `PartitionsN_` are C++ `int` template arguments; the model takes them as natural numbers. A negative extent is a meaningless configuration (a negative `PartitionsN_` would pass the static assertion and give `kColumn = 1`), so it is not modelled.
- MmaTensorOp.Mma: the B fragment is taken to hold whole B sub-fragments, so `FragmentB::kElements` is `|b| * MmaOperandB::kElements`.
- MmaTensorOp.Transform: requires an even B length; with an odd `FragmentB::kElements` the source leaves the last element of `dst_B` unwritten. It also carries the requirement of ConvertAndPack.Pack on the length of A.
- ConvertAndPack.Pack: requires N % 4 != 2 in the half-from-float case, because a length with N % 4 == 2 makes the loop at line 94 read `source[N]`; it also requires N to fit in an `int`.

## Findings

| source | as written | input that shows it | evidently intended | confidence | as-written member | corrected member |
|---|---|---|---|---|---|---|
| include/cutlass/gemm/warp/mma_tensor_op.h:229-286 | `kColumn` is `max(1, N / opN / PartitionsN)` and nothing checks that PartitionsN divides `N / opN` or is at most `N / opN`, so the partition slices need not tile N; the row-major branch never reads `n_off`, so with more than one partition all partitions write the same slots | N/opN = 6, PartitionsN = 4: one column per partition at offsets 0, 1, 3, 4, so columns 2 and 5 are never computed; N/opN = 1, PartitionsN = 2: both partitions compute column 0; row-major, N/opN = 2, PartitionsN = 2: both partitions accumulate slot 0 from B sub-fragment 0 and B sub-fragment 1 is never read | a static assertion that PartitionsN divides `N / opN` (and so is at most it), and that PartitionsN is 1 when accumulators are in row-major order | medium (not executed) | MmaTensorOp.MmaIterations, MmaTensorOp.PartitionGapCounterexample, MmaTensorOp.PartitionOverlapCounterexample, MmaTensorOp.RowMajorPartitionCounterexample | MmaTensorOp.CheckedIterations, MmaTensorOp.NPartitioningReproducesFullCall |

The composition lemma `MmaTensorOp.NPartitioningReproducesFullCall` is stated for the checked build, in column-major order.
