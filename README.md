# Grid: a verified model of a dense 2-D game grid

This project models the generic lattice of `Assets/Grid.cs`. That file defines
three classes:

- `Grid<DataType>` is a row-major two-dimensional array of `GridPoint` cells. Each cell knows its own
  `(row, col)` index and carries a mutable payload. The grid is placed in world space by a top-left anchor and a
  spacing vector.
- `GridPoint` is one cell.
- `GridEnumerator` is a cursor that walks the cells in row-major order.

The model covers:

- construction;
- index validation and the unchecked lookup;
- the neighbour list;
- the world-space transforms;
- the enumerator's state machine.

Modules:

- `GridIndices` (`grid_index.dfy`): the `GridIndex` value, its `Equals`, and the in-bounds predicate.
- `Geometry` (`geometry.dfy`): `Vector2`/`Vector3` over `real`, the magnitude test, and `Math.Round`
  (round half to even).
- `Neighborhood` (`neighborhood.dfy`): the neighbour list of `GetNeightbors` as a function of the index and the
  grid's dimensions. It is compared against two reference definitions: the in-bounds compass slots, and the
  corrected Moore neighbourhood.
- `Traversal` (`traversal.dfy`): one `MoveNext` step as a function (`Advance`), `n` steps (`Iterate`), and the
  row-major order.
- `Grids` (`grid.dfy`): the classes `GridPoint`, `Grid` and `GridEnumerator`, with their methods, and the lemmas
  about the transforms and the cursor.
  - The constructors fill a `array2` with nested loops.
  - `GetNeighbors` builds its list block by block. It is proved equal to `Neighborhood.NeighborsAsCoded`.
  - `MoveNext` updates the cursor's `index` field. It is proved equal to `Traversal.Advance`.

Behaviour of `Grid.cs` that one might not expect, all of which the model keeps:

- An empty grid has no `-1` sentinel. When a constructor gets a non-positive dimension, it leaves `points` null.
  `NumRows`, `NumCols`, `IsValidIndex`, `GetNeightbors` and the enumerator then dereference null.
  - The model keeps `points` nullable, and these operations require `points != null`.
  - `SentinelUnreachable` shows that on every constructed grid with an array, the `-1` branch is never taken.
- The neighbour list never contains the cell to the left. It contains the cell above twice (see Findings).
- With a nonzero spacing, `GetWorldPosition` returns z = 0, not `topLeft.z`. With the zero spacing it returns
  `topLeft` itself.
- The `sorted` flag of `GetNeightbors` has no effect.
- A `MoveNext` after the `false` answer is not absorbed. With two or more columns, it moves along the row past the
  last one and returns `true`.

## Model

| member | source | states |
|---|---|---|
| `GridIndices.SameIndex` | Assets/Grid.cs:21-25 | field-wise `Equals` holds exactly when the two indices are equal values |
| `Grids.GridPoint.constructor` | Assets/Grid.cs:39-42 | the new cell's `Index` is the given index |
| `Grids.GridPoint.FromRowCol` | Assets/Grid.cs:44-48 | the new cell's `Index` is `(row, col)` |
| `Grids.Grid.NumRows` | Assets/Grid.cs:64 | the row count is either the sentinel -1 or positive |
| `Grids.Grid.NumCols` | Assets/Grid.cs:65 | the column count is either the sentinel -1 or positive |
| `Grids.SentinelUnreachable` | Assets/Grid.cs:64-65 | on a constructed grid with an array, `NumRows`/`NumCols` are the positive array dimensions, never -1 |
| `Grids.Grid.constructor` | Assets/Grid.cs:71-87 | positive dimensions give an array of exactly those dimensions, whose every position holds a fresh cell indexed by that position; otherwise there is no array; zero spacing and anchor |
| `Grids.Grid.WithDefault` | Assets/Grid.cs:89-108 | as the two-argument constructor, and every cell's payload is `defaultData` |
| `Grids.CellsAreDistinct` | Assets/Grid.cs:71-108 | two valid positions of a constructed grid hold the same cell only if they are the same position |
| `Grids.Grid.IsValidIndex` | Assets/Grid.cs:110-117 | an index is valid exactly when `0 <= row < NumRows` and `0 <= col < NumCols` |
| `Grids.Grid.GetPoint` | Assets/Grid.cs:119-122 | for a valid index (the unchecked precondition), the returned cell's `Index` is that index |
| `Grids.Grid.GetNeighbors` | Assets/Grid.cs:124-178 | the list built block by block is `NeighborsAsCoded` of the index and dimensions, whatever `sorted` is; for a valid index it has at most 8 entries, all valid, none equal to the index |
| `Neighborhood.NeighborsAsCodedFiltersSlots` | Assets/Grid.cs:128-175 | for an in-bounds index, the list is the in-bounds part of the slots up-left, up, up-right, right, down-right, down, down-left, up, in that order |
| `Neighborhood.BlocksKeepInBoundsSlots` | Assets/Grid.cs:133-175 | each guarded block (row above, right column, row below, "left" block) admits a slot exactly when that slot is in bounds |
| `Neighborhood.KeepInBoundsMembers` | Assets/Grid.cs:128-175 | the filter used as reference keeps exactly the in-bounds entries and keeps distinct entries distinct |
| `Neighborhood.CompassSlotsAreTheAdjacentCells` | Assets/Grid.cs:133-175 | the eight compass slots are exactly the cells adjacent by edge or corner |
| `Neighborhood.NeighborsAsCodedMembers` | Assets/Grid.cs:128-175 | for an in-bounds index, a cell is listed exactly when it is an in-bounds adjacent cell other than the one to the left |
| `Neighborhood.NeighborsAsCodedInBounds` | Assets/Grid.cs:128-175 | for an in-bounds index, at most 8 entries, each in bounds and different from the index |
| `Neighborhood.NeighborsAsCoded` | Assets/Grid.cs:128-175 | the four blocks together list at most 8 cells |
| `Neighborhood.EmittedSlotsMembers` | Assets/Grid.cs:133-175 | the emitted slots are the compass slots other than the cell to the left |
| `Neighborhood.LeftNeverReported` | Assets/Grid.cs:171-175 | `(row, col-1)` is never listed, for any index |
| `Neighborhood.NeighborsOfOrigin` | Assets/Grid.cs:128-175 | on a grid of at least 2x2, the neighbours of `(0,0)` are exactly `[(0,1), (1,1), (1,0)]` |
| `Neighborhood.NeighborsOfSingleCell` | Assets/Grid.cs:128-175 | on a 1x1 grid, `(0,0)` has no neighbours |
| `Neighborhood.NeighborsOfInteriorCell` | Assets/Grid.cs:128-175 | an interior index gets all eight emitted slots, with `(row-1, col)` second and last |
| `Neighborhood.AsCodedMissesLeft` | Assets/Grid.cs:171-175 | in the middle of a 3x3 grid the list lacks `(1,0)` and holds `(0,1)` twice, while the corrected neighbourhood has `(1,0)` |
| `Neighborhood.MooreNeighborsExact` | Assets/Grid.cs:171-175 | the corrected list (last block emits the cell to the left) holds exactly the in-bounds adjacent cells, each once |
| `Neighborhood.FixedNeighborsAreMoore` | Assets/Grid.cs:128-175 | for an in-bounds index, the three blocks as written followed by the fixed last block give exactly the corrected list |
| `Neighborhood.FixedBlocksKeepCompassSlots` | Assets/Grid.cs:133-175 | each block, with the last one fixed, admits a compass slot exactly when that slot is in bounds |
| `Grids.Grid.GetWorldPosition` | Assets/Grid.cs:180-190 | with nonzero spacing the position has z = 0; with zero spacing it is `topLeft` |
| `Grids.WorldPositionSteps` | Assets/Grid.cs:180-190 | `(0,0)` maps to the anchor's x and y; one column right adds the horizontal spacing; one row down subtracts the vertical spacing |
| `Grids.Grid.GetCellWorldCorners` | Assets/Grid.cs:192-201 | four corners of an axis-aligned rectangle exactly one spacing wide and one spacing high, whose diagonal from corner 0 to corner 2 has the cell centre as its midpoint, all at the centre's z; with positive spacing corner 0 is the top-left one (left of corner 1, above corner 3) |
| `Grids.CornersTile` | Assets/Grid.cs:192-201 | the right neighbour's left corners are this cell's right corners, and the lower neighbour's top corners are this cell's bottom corners |
| `Grids.GridContainsCornersAndCentres` | Assets/Grid.cs:203-207 | with non-negative spacing, `topLeft`, `BottomRight` and every valid cell centre are in the grid |
| `Grids.Grid.BottomRight` | Assets/Grid.cs:66 | x and y are the centre position of the index `(NumRows, NumCols)`, one past the last row and column; z is the anchor's; with zero spacing it is the anchor |
| `Grids.OutsideGridOnOneAxis` | Assets/Grid.cs:203-207 | a point left of the anchor, right of `BottomRight`, above the anchor or below `BottomRight` is not in the grid |
| `Grids.Grid.IsWorldPositionInCell` | Assets/Grid.cs:209-215 | for every spacing, true exactly inside the box spanned by corners 0 and 2 of the cell `(NumRows, NumCols)`, which is not a valid index |
| `Grids.Grid.IsWorldPositionInGrid` | Assets/Grid.cs:203-207 | true exactly inside the closed box from the anchor to the centre of the cell `(NumRows, NumCols)`; with zero spacing, only at the anchor's x and y (the one-axis cases are `Grids.OutsideGridOnOneAxis`, the points inside are `Grids.GridContainsCornersAndCentres`) |
| `Grids.CellTestMissesEveryCentre` | Assets/Grid.cs:209-215 | with positive spacing, the cell test rejects the centre of every valid cell |
| `Grids.BottomRightMapsPastLastCell` | Assets/Grid.cs:203-225 | with positive spacing `BottomRight` is in the grid, but it maps back to `(NumRows, NumCols)`, which is not a valid index |
| `Geometry.RoundHalfEven` | Assets/Grid.cs:222-223 | the rounded value is within 1/2 of the input, and even when exactly 1/2 away |
| `Geometry.RoundOfInteger` | Assets/Grid.cs:222-223 | rounding leaves integers unchanged |
| `Geometry.RoundIsNearest` | Assets/Grid.cs:222-223 | no integer is nearer to the input than its rounded value |
| `Grids.CellCentreRoundTrip` | Assets/Grid.cs:217-225 | with both spacings nonzero, `GetPointFromWorldPosition(GetWorldPosition(i)) == i`, and mapping back again gives the same position |
| `Grids.Grid.GetPointFromWorldPosition` | Assets/Grid.cs:217-225 | the offset from the anchor is within half a spacing of the found cell's offset, on both axes |
| `Grids.RoundedQuotientIsNear` | Assets/Grid.cs:222-223 | rounding `a / s` gives an `n` with `s * n` within `abs(s)/2` of `a` |
| `Grids.RoundedMultiple` | Assets/Grid.cs:222-223 | rounding `(s * n) / s` gives back `n` |
| `Grids.PointFromWorldPositionIsNearestCell` | Assets/Grid.cs:217-225 | the cell found for a position has its centre within half a spacing of it on both axes |
| `Grids.Grid.GetEnumerator` | Assets/Grid.cs:270-273 | a fresh cursor over this grid, before the first cell |
| `Grids.GridEnumerator.constructor` | Assets/Grid.cs:284-289 | the cursor starts at `(0, -1)` on the given grid |
| `Grids.GridEnumerator.Current` | Assets/Grid.cs:293-306 | succeeds exactly when the cursor's index is valid, returning the cell with that index; otherwise `InvalidOperation` |
| `Grids.CurrentOutsideTraversal` | Assets/Grid.cs:293-306 | reading before the first `MoveNext` or at the position the `false` answer leaves fails with `InvalidOperation` |
| `Grids.GridEnumerator.MoveNext` | Assets/Grid.cs:308-322 | the new index and result are one `Advance` step; during a traversal, `true` exactly when the new index is valid |
| `Grids.GridEnumerator.Reset` | Assets/Grid.cs:324-327 | the cursor is back at `(0, -1)` |
| `Traversal.Advance` | Assets/Grid.cs:308-322 | a step moves one column right while the column stays below `NumCols`, otherwise it moves to column 0 of the next row; it returns false exactly when that wrap passes the last row |
| `Traversal.LastPosition` | Assets/Grid.cs:308-322 | the last row-major position `NumRows*NumCols - 1` names the bottom-right cell |
| `Traversal.TraversalVisitsRowMajor` | Assets/Grid.cs:308-322 | from `(0,-1)`, the `k+1`-th `MoveNext` returns true and stops at the `k`-th cell in row-major order, for every `k < NumRows*NumCols` |
| `Traversal.RowMajorSuccessor` | Assets/Grid.cs:308-322 | one step from the `(k-1)`-th cell in row-major order reaches the `k`-th and returns true, for `0 < k < NumRows*NumCols` |
| `Traversal.TraversalStopsAfterLastCell` | Assets/Grid.cs:308-322 | after `NumRows*NumCols` calls the cursor is on the last cell; the next call returns false and leaves `(NumRows, 0)` |
| `Traversal.RowMajorPosition` | Assets/Grid.cs:308-322 | every cell has exactly one position `row*NumCols + col` in the row-major order, below `NumRows*NumCols` |
| `Traversal.RowMajorInBounds` | Assets/Grid.cs:308-322 | every row-major position below `NumRows*NumCols` names a cell of the grid |
| `Traversal.AdvanceReportsLanding` | Assets/Grid.cs:308-322 | before the first cell or on a cell, a step returns true exactly when it lands on a cell |
| `Traversal.ExhaustionNotAbsorbing` | Assets/Grid.cs:308-322 | with two or more columns, a step from `(NumRows, 0)` goes to the invalid `(NumRows, 1)` and returns true |

## Findings

| source | as written | input that shows it | evidently intended | confidence | as-written member | corrected member |
|---|---|---|---|---|---|---|
| Assets/Grid.cs:171-175 | the block commented "directly to the left of the point" tests `!firstRow` and adds `(row-1, col)` | index `(1,1)` on a 3x3 grid: `(0,1)` is listed twice, `(1,0)` never | test `!firstCol` and add `(row, col-1)`, so that the list is the full in-bounds Moore neighbourhood ending with "left" | high (not executed) | `Neighborhood.AsCodedMissesLeft` | `Neighborhood.MooreNeighborsExact` |

`Grids.Grid.GetNeighbors` keeps the behaviour as written. `Neighborhood.MooreNeighbors` is the corrected
neighbourhood, and nothing else in the model depends on the neighbour list. `Neighborhood.FixedNeighborsAreMoore`
shows that changing only the last block (`Neighborhood.LeftBlockFixed`) turns the code's list into the corrected
one.

## Left out

- `DrawDebugCells` and `DrawDebugGrid` (Assets/Grid.cs:227-268): they only issue line-drawing calls to the renderer.
- `Assets/TestingScript.cs`: per-frame engine glue (camera, mouse input, logging) around the grid.
- The non-generic `IEnumerable.GetEnumerator`, `IEnumerator.Current` and `Dispose`: interface plumbing with no
  behaviour.
- `GridIndex.ToString`, the cast in `Equals` that throws on a non-`GridIndex` argument, and the missing
  `GetHashCode`: the index is a Dafny datatype with structural equality.
- Floating point: the transforms are computed over `real`.
  - Single-precision rounding is not modelled.
  - The square root in `Vector2.magnitude` is replaced by "some component is nonzero", which is exact over
    the reals.
  - Magnitude underflow to zero is not modelled.
- `Grids.Grid.GetPointFromWorldPosition`: requires both spacings to be nonzero. A zero spacing divides by zero,
  which gives NaN or infinity in floating point; the model does not describe that result. The overflow of the
  `(int)` cast is not modelled either.
- `GridIndex` fields are 32-bit `int` in the source. The model uses unbounded integers. For valid indices the
  `±1` neighbour arithmetic and the enumerator's increments cannot overflow. For indices near `int.MaxValue` the
  wrap-around is not modelled.
- `GridPoint(GridIndex)` leaves the payload at `default(DataType)`. The model leaves it at Dafny's initial value
  for the type, and states nothing about it.
- `points` is modelled as a field assigned only by the constructors, as in this file. A subclass could reassign the
  protected field, but no subclass is part of this model.
- Operations on an empty grid throw a null dereference in the source. In the model, they require `points != null`.
- `Grids.Grid.GetPoint`: the source throws `IndexOutOfRangeException` for an index outside the array. The model
  states this as `requires IsValidIndex(index)` and does not model the exception.
