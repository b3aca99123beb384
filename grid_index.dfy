/** Lattice coordinates: the `GridIndex` value type of Grid.cs. */
module GridIndices {

  /** A (row, col) pair. Rows grow downwards, columns to the right; an index
      carries no validity of its own, only relative to a grid's bounds. */
  datatype GridIndex = GridIndex(row: int, col: int)

  /** The shared `GridIndex.zero` value. */
  const Zero: GridIndex := GridIndex(0, 0)

  /** `GridIndex.Equals`: field-wise comparison, which is exactly structural
      equality of the value. */
  function SameIndex(a: GridIndex, b: GridIndex): (same: bool)
    ensures same <==> a == b
  {
    a.row == b.row && a.col == b.col
  }

  /** `index` lies in the rectangle [0, numRows) x [0, numCols). */
  predicate InBounds(index: GridIndex, numRows: int, numCols: int)
  {
    0 <= index.row < numRows && 0 <= index.col < numCols
  }
}
