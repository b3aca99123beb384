/** The position arithmetic of `GridEnumerator`: one `MoveNext` step as a
    function of the current index and the grid's dimensions, and what a run
    of steps from the initial position visits. */
module Traversal {
  import opened GridIndices

  /** The enumerator's position when created and after `Reset`. */
  const BeforeFirst: GridIndex := GridIndex(0, -1)

  /** The index after one `MoveNext`, and what that call returns. */
  datatype Step = Step(index: GridIndex, moved: bool)

  /** `MoveNext`: step one column right; past the last column, wrap to column
      0 of the next row, and report `false` when that row is past the last.
      The `false` answer leaves the index on the wrapped position. */
  function Advance(i: GridIndex, numRows: int, numCols: int): (s: Step)
    // one column right, or column 0 of the next row once the last column is passed
    ensures s.index == GridIndex(i.row, i.col + 1) <==> i.col + 1 < numCols
    ensures s.index == GridIndex(i.row + 1, 0) <==> i.col + 1 >= numCols
    // `false` only on wrapping past the last row
    ensures !s.moved <==> s.index == GridIndex(i.row + 1, 0) && i.row + 1 >= numRows
  {
    var col := i.col + 1;
    if col >= numCols then Step(GridIndex(i.row + 1, 0), i.row + 1 < numRows)
    else Step(GridIndex(i.row, col), true)
  }

  /** The index after `n` calls of `MoveNext` starting at `i`. */
  function Iterate(i: GridIndex, n: nat, numRows: int, numCols: int): GridIndex
  {
    if n == 0 then i else Advance(Iterate(i, n - 1, numRows, numCols), numRows, numCols).index
  }

  /** The `k`-th cell, counting from 0, of a row-major order with `numCols`
      columns. */
  function RowMajor(k: int, numCols: int): GridIndex
    requires numCols > 0
  {
    GridIndex(k / numCols, k % numCols)
  }

  /** Quotient and remainder are determined by `n == q * d + m, 0 <= m < d`. */
  lemma DivModUnique(n: int, d: int, q: int, m: int)
    requires d > 0 && 0 <= m < d && n == q * d + m
    ensures n / d == q && n % d == m
  {
    var q', m' := n / d, n % d;
    assert (q - q') * d == m' - m;
    if q > q' {
      MulAtLeast(q - q', d);
    } else if q < q' {
      MulAtLeast(q' - q, d);
    }
  }

  lemma MulAtLeast(a: int, d: int)
    requires a >= 1 && d > 0
    ensures a * d >= d
  {
  }

  /** Every position below `numRows * numCols` names a cell of the grid. */
  lemma RowMajorInBounds(k: int, numRows: int, numCols: int)
    requires numCols > 0 && 0 <= k < numRows * numCols
    ensures InBounds(RowMajor(k, numCols), numRows, numCols)
  {
    var q := k / numCols;
    if q >= numRows {
      MulMonotone(numRows, q, numCols);
    }
  }

  lemma MulMonotone(a: int, b: int, d: int)
    requires a <= b && d > 0
    ensures a * d <= b * d
  {
  }

  /** Every cell of the grid has exactly one position in the order, namely
      `row * numCols + col`. */
  lemma RowMajorPosition(j: GridIndex, numRows: int, numCols: int, k: int)
    requires InBounds(j, numRows, numCols)
    requires 0 <= k
    ensures RowMajor(k, numCols) == j <==> k == j.row * numCols + j.col
    ensures j.row * numCols + j.col < numRows * numCols
  {
    DivModUnique(j.row * numCols + j.col, numCols, j.row, j.col);
    MulMonotone(j.row + 1, numRows, numCols);
    if RowMajor(k, numCols) == j {
      assert k == (k / numCols) * numCols + k % numCols;
    }
  }

  /** Starting before the first cell, the `k+1`-th call of `MoveNext` returns
      `true` and stops at the `k`-th cell in row-major order, for every `k`
      below `numRows * numCols`. */
  lemma {:induction false} TraversalVisitsRowMajor(numRows: int, numCols: int, k: nat)
    requires numRows > 0 && numCols > 0 && k < numRows * numCols
    ensures Advance(Iterate(BeforeFirst, k, numRows, numCols), numRows, numCols).moved
    ensures Iterate(BeforeFirst, k + 1, numRows, numCols) == RowMajor(k, numCols)
  {
    if k == 0 {
      DivModUnique(0, numCols, 0, 0);
    } else {
      TraversalVisitsRowMajor(numRows, numCols, k - 1);
      RowMajorSuccessor(numRows, numCols, k);
    }
  }

  /** One step from the `(k-1)`-th cell reaches the `k`-th and returns `true`. */
  lemma RowMajorSuccessor(numRows: int, numCols: int, k: int)
    requires numCols > 0 && 0 < k < numRows * numCols
    ensures Advance(RowMajor(k - 1, numCols), numRows, numCols) == Step(RowMajor(k, numCols), true)
  {
    var C := numCols;
    var q, m := (k - 1) / C, (k - 1) % C;
    assert k == q * C + m + 1;
    if m + 1 == C {
      assert k == (q + 1) * C;
      DivModUnique(k, C, q + 1, 0);
      RowMajorInBounds(k, numRows, numCols);
    } else {
      DivModUnique(k, C, q, m + 1);
    }
  }

  /** After the `numRows * numCols`-th call the enumerator is on the last
      cell, and the next call returns `false`, leaving the index on column 0
      of the row past the last. */
  lemma TraversalStopsAfterLastCell(numRows: int, numCols: int)
    requires numRows > 0 && numCols > 0
    ensures numRows * numCols > 0
    ensures Iterate(BeforeFirst, numRows * numCols, numRows, numCols) == GridIndex(numRows - 1, numCols - 1)
    ensures Advance(Iterate(BeforeFirst, numRows * numCols, numRows, numCols), numRows, numCols)
         == Step(GridIndex(numRows, 0), false)
  {
    var n := numRows * numCols;
    LastPosition(numRows, numCols);
    TraversalVisitsRowMajor(numRows, numCols, n - 1);
    var last := Iterate(BeforeFirst, n, numRows, numCols);
    assert last == GridIndex(numRows - 1, numCols - 1);
    assert Advance(last, numRows, numCols) == Step(GridIndex(numRows, 0), false);
  }

  /** The last position of the order names the bottom-right cell. */
  lemma LastPosition(numRows: int, numCols: int)
    requires numRows > 0 && numCols > 0
    ensures numRows * numCols > 0
    ensures RowMajor(numRows * numCols - 1, numCols) == GridIndex(numRows - 1, numCols - 1)
  {
    var n := numRows * numCols;
    MulAtLeast(numRows, numCols);
    assert n - 1 == (numRows - 1) * numCols + (numCols - 1);
    DivModUnique(n - 1, numCols, numRows - 1, numCols - 1);
  }

  /** While a traversal is in progress (before the first cell or on a cell),
      `MoveNext` returns `true` exactly when it lands on a cell of the grid. */
  lemma AdvanceReportsLanding(i: GridIndex, numRows: int, numCols: int)
    requires numRows > 0 && numCols > 0
    requires i == BeforeFirst || InBounds(i, numRows, numCols)
    ensures Advance(i, numRows, numCols).moved <==> InBounds(Advance(i, numRows, numCols).index, numRows, numCols)
  {
  }

  /** Exhaustion is not absorbing: with two or more columns, a `MoveNext`
      after the `false` answer moves on along the row past the last and
      returns `true`. */
  lemma ExhaustionNotAbsorbing(numRows: int, numCols: int)
    requires numCols >= 2
    ensures Advance(GridIndex(numRows, 0), numRows, numCols) == Step(GridIndex(numRows, 1), true)
    ensures !InBounds(GridIndex(numRows, 1), numRows, numCols)
  {
  }
}
