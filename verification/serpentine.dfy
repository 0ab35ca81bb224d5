/**
 The serpentine (boustrophedon) visiting order of the warp-level operator:
 the outer loop walks the columns `n` of the MmaIterations grid, the inner
 loop its rows, forwards in even columns and backwards in odd ones, so that
 two consecutive instruction calls share the B sub-fragment whenever they
 can.
 */
module Serpentine {

  /** A position of the MmaIterations grid: row `m` (the A sub-fragment)
      and column `n` (the B sub-fragment). */
  datatype Cell = Cell(m: nat, n: nat)

  predicate InGrid(rows: nat, cols: nat, c: Cell)
  {
    c.m < rows && c.n < cols
  }

  /** The row visited at inner step `m` of column `n`:
      `(n % 2) ? (rows - 1 - m) : m`. */
  function SerpentineRow(rows: nat, n: nat, m: nat): (ms: nat)
    requires m < rows
    ensures ms < rows
  {
    if n % 2 == 1 then rows - 1 - m else m
  }

  /** Rows are visited in increasing order in even columns and in decreasing
      order in odd columns. */
  lemma SerpentineDirection(rows: nat, n: nat, m1: nat, m2: nat)
    requires m1 < m2 < rows
    ensures n % 2 == 0 ==> SerpentineRow(rows, n, m1) < SerpentineRow(rows, n, m2)
    ensures n % 2 == 1 ==> SerpentineRow(rows, n, m1) > SerpentineRow(rows, n, m2)
  {
  }

  /** The inner step that visits row `ms` of column `n`: the serpentine row
      map is its own inverse. */
  lemma SerpentineInverse(rows: nat, n: nat, ms: nat)
    requires ms < rows
    ensures SerpentineRow(rows, n, SerpentineRow(rows, n, ms)) == ms
  {
  }

  /** The cells visited by the inner loop for column `n`, in order. */
  function ColumnVisits(rows: nat, n: nat): (visits: seq<Cell>)
    ensures |visits| == rows
  {
    seq(rows, m requires 0 <= m < rows => Cell(SerpentineRow(rows, n, m), n))
  }

  /** The cells visited by the nested loop over the first `cols` columns,
      in visiting order. */
  function VisitOrder(rows: nat, cols: nat): (order: seq<Cell>)
    ensures |order| == rows * cols
    ensures forall k :: 0 <= k < |order| ==> InGrid(rows, cols, order[k])
    decreases cols
  {
    if cols == 0 then []
    else
      assert rows * cols == rows * (cols - 1) + rows;
      VisitOrder(rows, cols - 1) + ColumnVisits(rows, cols - 1)
  }

  /** Within one column the rows appear in increasing order when the column is
      even and in decreasing order when it is odd, and all in that column. */
  lemma ColumnVisitsOrdered(rows: nat, n: nat)
    ensures forall k :: 0 <= k < rows ==> ColumnVisits(rows, n)[k].n == n
    ensures forall k1, k2 :: 0 <= k1 < k2 < rows && n % 2 == 0 ==>
              ColumnVisits(rows, n)[k1].m < ColumnVisits(rows, n)[k2].m
    ensures forall k1, k2 :: 0 <= k1 < k2 < rows && n % 2 == 1 ==>
              ColumnVisits(rows, n)[k1].m > ColumnVisits(rows, n)[k2].m
  {
  }

  /** The nested loop visits every cell of the grid exactly once: every cell
      it visits is in the grid, no cell is visited twice, and every cell of the
      grid is visited. */
  lemma {:induction false} VisitOrderExactlyOnce(rows: nat, cols: nat)
    ensures |VisitOrder(rows, cols)| == rows * cols
    ensures forall k :: 0 <= k < |VisitOrder(rows, cols)| ==> InGrid(rows, cols, VisitOrder(rows, cols)[k])
    ensures forall k1, k2 :: 0 <= k1 < k2 < |VisitOrder(rows, cols)| ==>
              VisitOrder(rows, cols)[k1] != VisitOrder(rows, cols)[k2]
    ensures forall c :: InGrid(rows, cols, c) ==> c in VisitOrder(rows, cols)
    decreases cols
  {
    if cols != 0 {
      var n := cols - 1;
      var before, column := VisitOrder(rows, n), ColumnVisits(rows, n);
      var order := VisitOrder(rows, cols);
      VisitOrderExactlyOnce(rows, n);
      assert order == before + column;
      assert |order| == rows * cols by {
        assert rows * cols == rows * n + rows;
      }
      forall k1, k2 | 0 <= k1 < k2 < |order|
        ensures order[k1] != order[k2]
      {
        if k1 >= |before| {
          var m1, m2 := k1 - |before|, k2 - |before|;
          if n % 2 == 0 {
            assert column[m1].m < column[m2].m;
          } else {
            assert column[m1].m > column[m2].m;
          }
        } else if k2 >= |before| {
          assert order[k1].n < n == order[k2].n;
        }
      }
      forall c | InGrid(rows, cols, c)
        ensures c in order
      {
        if c.n == n {
          var m := SerpentineRow(rows, n, c.m);
          SerpentineInverse(rows, n, c.m);
          assert column[m] == c;
        } else {
          assert c in before;
        }
      }
    }
  }

  /** Inner step `m` of column `n` is visit number `n * rows + m`. */
  lemma {:induction false} VisitOrderIndex(rows: nat, cols: nat, n: nat, m: nat)
    requires n < cols && m < rows
    ensures n * rows + m < |VisitOrder(rows, cols)|
    ensures VisitOrder(rows, cols)[n * rows + m] == Cell(SerpentineRow(rows, n, m), n)
    decreases cols
  {
    VisitOrderExactlyOnce(rows, cols);
    VisitOrderExactlyOnce(rows, cols - 1);
    if n < cols - 1 {
      VisitOrderIndex(rows, cols - 1, n, m);
    } else {
      assert |VisitOrder(rows, cols - 1)| == n * rows;
    }
  }
}
