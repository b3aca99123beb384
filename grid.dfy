/** The grid itself: `GridPoint`, `Grid` and `GridEnumerator` of Grid.cs. */
module Grids {
  import opened GridIndices
  import opened Geometry
  import opened Neighborhood
  import opened Traversal

  /** Errors the grid reports to its caller. */
  datatype GridError = InvalidOperation

  datatype Result<T> = Ok(value: T) | Err(error: GridError)

  /** A cell: a fixed index and a freely mutable payload. */
  class GridPoint<DataType(0)> {
    /** Set by the constructors and never changed afterwards. */
    const Index: GridIndex
    var data: DataType

    /** `GridPoint(GridIndex)`: the payload keeps its default value. */
    constructor (pointIndex: GridIndex)
      ensures Index == pointIndex
    {
      Index := pointIndex;
    }

    /** `GridPoint(int, int)`. */
    constructor FromRowCol(row: int, col: int)
      ensures Index == GridIndex(row, col)
    {
      Index := GridIndex(row, col);
    }
  }

  /** A dense row-major grid of cells, with a spacing and a top-left anchor
      that place it in world space. */
  class Grid<DataType(0)> {
    var pointSpacing: Vec2
    var topLeft: Vec3

    /** The cells, or `null` when the grid was constructed with a
        non-positive dimension. Assigned only by the constructors. */
    const points: array2?<GridPoint?<DataType>>

    /** Every constructed grid is either empty (no array) or holds a cell at
        every (row, col) of a non-empty array, whose index is its position. */
    ghost predicate Valid()
      reads points
    {
      points != null ==>
        points.Length0 > 0 && points.Length1 > 0 &&
        forall r, c :: 0 <= r < points.Length0 && 0 <= c < points.Length1 ==>
          points[r, c] != null && points[r, c].Index == GridIndex(r, c)
    }

    /** `NumRows`: the first dimension of a non-empty array, else -1. */
    function NumRows(): (n: int)
      requires points != null
      ensures n == -1 || n > 0
    {
      if points.Length0 * points.Length1 > 0 then points.Length0 else -1
    }

    /** `NumCols`: the second dimension of a non-empty array, else -1. */
    function NumCols(): (n: int)
      requires points != null
      ensures n == -1 || n > 0
    {
      if points.Length0 * points.Length1 > 0 then points.Length1 else -1
    }

    /** `Grid(numRows, numCols)`: allocates one fresh cell per (row, col) when
        both dimensions are positive, and no array otherwise. */
    constructor (numRows: int, numCols: int)
      ensures Valid()
      ensures pointSpacing == Zero2 && topLeft == Zero3
      ensures numRows > 0 && numCols > 0 <==> points != null
      ensures points != null ==> fresh(points) && NumRows() == numRows && NumCols() == numCols
      ensures points != null ==>
        forall r, c :: 0 <= r < numRows && 0 <= c < numCols ==> fresh(points[r, c])
    {
      pointSpacing, topLeft := Zero2, Zero3;
      if numRows > 0 && numCols > 0 {
        var cells := new GridPoint?<DataType>[numRows, numCols];
        for row := 0 to numRows
          invariant forall r, c :: 0 <= r < row && 0 <= c < numCols ==>
            cells[r, c] != null && fresh(cells[r, c]) && cells[r, c].Index == GridIndex(r, c)
        {
          for col := 0 to numCols
            invariant forall r, c :: 0 <= r < row && 0 <= c < numCols ==>
              cells[r, c] != null && fresh(cells[r, c]) && cells[r, c].Index == GridIndex(r, c)
            invariant forall c :: 0 <= c < col ==>
              cells[row, c] != null && fresh(cells[row, c]) && cells[row, c].Index == GridIndex(row, c)
          {
            cells[row, col] := new GridPoint(GridIndex(row, col));
          }
        }
        points := cells;
      } else {
        points := null;
      }
    }

    /** `Grid(numRows, numCols, defaultData)`: as the two-argument constructor,
        and every cell's payload is `defaultData`. */
    constructor WithDefault(numRows: int, numCols: int, defaultData: DataType)
      ensures Valid()
      ensures pointSpacing == Zero2 && topLeft == Zero3
      ensures numRows > 0 && numCols > 0 <==> points != null
      ensures points != null ==> fresh(points) && NumRows() == numRows && NumCols() == numCols
      ensures points != null ==>
        forall r, c :: 0 <= r < numRows && 0 <= c < numCols ==>
          fresh(points[r, c]) && points[r, c].data == defaultData
    {
      pointSpacing, topLeft := Zero2, Zero3;
      if numRows > 0 && numCols > 0 {
        var cells := new GridPoint?<DataType>[numRows, numCols];
        for row := 0 to numRows
          invariant forall r, c :: 0 <= r < row && 0 <= c < numCols ==>
            cells[r, c] != null && fresh(cells[r, c]) && cells[r, c].Index == GridIndex(r, c)
            && cells[r, c].data == defaultData
        {
          for col := 0 to numCols
            invariant forall r, c :: 0 <= r < row && 0 <= c < numCols ==>
              cells[r, c] != null && fresh(cells[r, c]) && cells[r, c].Index == GridIndex(r, c)
              && cells[r, c].data == defaultData
            invariant forall c :: 0 <= c < col ==>
              cells[row, c] != null && fresh(cells[row, c]) && cells[row, c].Index == GridIndex(row, c)
              && cells[row, c].data == defaultData
          {
            var gridPoint := new GridPoint(GridIndex(row, col));
            gridPoint.data := defaultData;
            cells[row, col] := gridPoint;
          }
        }
        points := cells;
      } else {
        points := null;
      }
    }

    /** `IsValidIndex`: the index lies inside the grid's dimensions. */
    function IsValidIndex(index: GridIndex): (valid: bool)
      requires points != null
      ensures valid <==> InBounds(index, NumRows(), NumCols())
    {
      points.Length0 * points.Length1 > 0
      && index.row >= 0 && index.row < points.Length0
      && index.col >= 0 && index.col < points.Length1
    }

    /** `GetPoint`: unchecked lookup; callers must pass a valid index. */
    function GetPoint(index: GridIndex): (point: GridPoint<DataType>)
      reads points
      requires points != null && Valid() && IsValidIndex(index)
      ensures point.Index == index
    {
      points[index.row, index.col]
    }

    /** `GetNeightbors`: builds the neighbour list block by block. The
        `sorted` flag is accepted and ignored. */
    method GetNeighbors(index: GridIndex, sorted: bool) returns (output: seq<GridIndex>)
      requires points != null
      ensures output == NeighborsAsCoded(index, NumRows(), NumCols())
      ensures IsValidIndex(index) ==>
        |output| <= 8 && forall j :: j in output ==> IsValidIndex(j) && j != index
    {
      output := [];
      var firstRow := index.row == 0;
      var lastRow := index.row == NumRows() - 1;
      var firstCol := index.col == 0;
      var lastCol := index.col == NumCols() - 1;

      // row above the index
      if !firstRow {
        if !firstCol {
          output := output + [GridIndex(index.row - 1, index.col - 1)];
        }
        output := output + [GridIndex(index.row - 1, index.col)];
        if !lastCol {
          output := output + [GridIndex(index.row - 1, index.col + 1)];
        }
      }

      assert output == RowAboveBlock(index, NumCols());

      // column to the right
      if !lastCol {
        output := output + [GridIndex(index.row, index.col + 1)];
        if !lastRow {
          output := output + [GridIndex(index.row + 1, index.col + 1)];
        }
      }

      assert output == RowAboveBlock(index, NumCols()) + RightColumnBlock(index, NumRows(), NumCols());

      // row below
      if !lastRow {
        output := output + [GridIndex(index.row + 1, index.col)];
        if !firstCol {
          output := output + [GridIndex(index.row + 1, index.col - 1)];
        }
      }

      assert output == RowAboveBlock(index, NumCols()) + RightColumnBlock(index, NumRows(), NumCols())
        + RowBelowBlock(index, NumRows());

      // the block meant for the cell to the left, which adds the one above
      if !firstRow {
        output := output + [GridIndex(index.row - 1, index.col)];
      }

      if IsValidIndex(index) {
        NeighborsAsCodedInBounds(index, NumRows(), NumCols());
      }
    }

    /** `BottomRight`: the top-left anchor moved by the whole grid extent. */
    function BottomRight(): (bottomRight: Vec3)
      reads this
      requires points != null
      ensures HasMagnitude(pointSpacing) ==>
        var past := GetWorldPosition(GridIndex(NumRows(), NumCols()));
        bottomRight.x == past.x && bottomRight.y == past.y
      ensures bottomRight.z == topLeft.z
      ensures !HasMagnitude(pointSpacing) ==> bottomRight == topLeft
    {
      Add(topLeft, Vec3(pointSpacing.x * NumCols() as real, -pointSpacing.y * NumRows() as real, 0.0))
    }

    /** `GetWorldPosition`: the centre of a cell, or `topLeft` when the spacing
        is the zero vector. The computed position has z = 0, not `topLeft.z`. */
    function GetWorldPosition(index: GridIndex): (p: Vec3)
      reads this
      ensures HasMagnitude(pointSpacing) ==> p.z == 0.0
      ensures !HasMagnitude(pointSpacing) ==> p == topLeft
    {
      if HasMagnitude(pointSpacing) then
        Vec3(topLeft.x + pointSpacing.x * index.col as real, topLeft.y - pointSpacing.y * index.row as real, 0.0)
      else topLeft
    }

    /** `GetCellWorldCorners`: the corners of the cell's rectangle in the
        order top-left, top-right, bottom-right, bottom-left. */
    function GetCellWorldCorners(index: GridIndex): (corners: seq<Vec3>)
      reads this
      ensures |corners| == 4
      // an axis-aligned rectangle one spacing wide and high, centred on the cell
      ensures var centre := GetWorldPosition(index);
        corners[0].y == corners[1].y && corners[2].y == corners[3].y &&
        corners[0].x == corners[3].x && corners[1].x == corners[2].x &&
        corners[1].x - corners[0].x == pointSpacing.x && corners[0].y - corners[3].y == pointSpacing.y &&
        (corners[0].x + corners[2].x) / 2.0 == centre.x && (corners[0].y + corners[2].y) / 2.0 == centre.y &&
        forall k :: 0 <= k < 4 ==> corners[k].z == centre.z
      // with positive spacing the first corner is the left one of the top edge
      ensures pointSpacing.x > 0.0 && pointSpacing.y > 0.0 ==>
        corners[0].x < corners[1].x && corners[0].y > corners[3].y
    {
      var cellCenter := GetWorldPosition(index);
      var hx, hy := pointSpacing.x / 2.0, pointSpacing.y / 2.0;
      [Add(cellCenter, Vec3(-hx, hy, 0.0)),
       Add(cellCenter, Vec3(hx, hy, 0.0)),
       Add(cellCenter, Vec3(hx, -hy, 0.0)),
       Add(cellCenter, Vec3(-hx, -hy, 0.0))]
    }

    /** `IsWorldPositionInGrid`: x between the anchor and `BottomRight`, y
        between `BottomRight` and the anchor, both ends included. */
    predicate IsWorldPositionInGrid(worldPosition: Vec3): (inside: bool)
      reads this
      requires points != null
      // the closed box from the anchor to the centre of the cell one past the last row and column
      ensures var far := GetWorldPosition(GridIndex(NumRows(), NumCols()));
        HasMagnitude(pointSpacing) ==>
          (inside <==> topLeft.x <= worldPosition.x <= far.x && far.y <= worldPosition.y <= topLeft.y)
      // with zero spacing, only the anchor's x and y
      ensures !HasMagnitude(pointSpacing) ==>
        (inside <==> worldPosition.x == topLeft.x && worldPosition.y == topLeft.y)
    {
      worldPosition.x >= topLeft.x && worldPosition.x <= BottomRight().x
      && worldPosition.y <= topLeft.y && worldPosition.y >= BottomRight().y
    }

    /** `IsWorldPositionInCell`: membership of the one cell-sized rectangle
        centred on `BottomRight`; it takes no target cell. */
    predicate IsWorldPositionInCell(worldPosition: Vec3): (inside: bool)
      reads this
      requires points != null
      // the box spanned by corners 0 and 2 of the cell one past the last row and column
      ensures var corners := GetCellWorldCorners(GridIndex(NumRows(), NumCols()));
        inside <==> corners[0].x <= worldPosition.x <= corners[2].x
                    && corners[2].y <= worldPosition.y <= corners[0].y
    {
      var cellTopLeft := Add(BottomRight(), Vec3(-0.5 * pointSpacing.x, 0.5 * pointSpacing.y, 0.0));
      var cellBottomRight := Add(BottomRight(), Vec3(0.5 * pointSpacing.x, -0.5 * pointSpacing.y, 0.0));
      worldPosition.x >= cellTopLeft.x && worldPosition.x <= cellBottomRight.x
      && worldPosition.y <= cellTopLeft.y && worldPosition.y >= cellBottomRight.y
    }

    /** `GetPointFromWorldPosition`: the nearest cell, by rounding the offset
        from the anchor in spacing units. */
    function GetPointFromWorldPosition(worldPosition: Vec3): (index: GridIndex)
      reads this
      requires pointSpacing.x != 0.0 && pointSpacing.y != 0.0
      // the cell whose centre is within half a spacing of the position on both axes
      ensures var adjusted := Sub(worldPosition, topLeft);
        Abs(adjusted.x - pointSpacing.x * index.col as real) <= Abs(pointSpacing.x) / 2.0 &&
        Abs(-adjusted.y - pointSpacing.y * index.row as real) <= Abs(pointSpacing.y) / 2.0
    {
      var adjustedPosition := Sub(worldPosition, topLeft);
      var row := RoundHalfEven(-adjustedPosition.y / pointSpacing.y);
      var col := RoundHalfEven(adjustedPosition.x / pointSpacing.x);
      RoundedQuotientIsNear(-adjustedPosition.y, pointSpacing.y, row);
      RoundedQuotientIsNear(adjustedPosition.x, pointSpacing.x, col);
      GridIndex(row, col)
    }

    /** `GetEnumerator`: a fresh enumerator positioned before the first cell. */
    method GetEnumerator() returns (e: GridEnumerator<DataType>)
      ensures fresh(e) && e.grid == this && e.index == BeforeFirst
    {
      e := new GridEnumerator(this);
    }
  }

  /** A row-major cursor over a grid's cells. */
  class GridEnumerator<DataType(0)> {
    const grid: Grid<DataType>
    var index: GridIndex

    constructor (targetGrid: Grid<DataType>)
      ensures grid == targetGrid && index == BeforeFirst
    {
      grid := targetGrid;
      index := BeforeFirst;
    }

    /** `Current`: the cell under the cursor; reading it off the grid fails
        with `InvalidOperation`. */
    function Current(): (current: Result<GridPoint<DataType>>)
      reads this, grid.points
      requires grid.points != null && grid.Valid()
      ensures current.Ok? <==> grid.IsValidIndex(index)
      ensures current.Ok? ==> current.value.Index == index
    {
      if grid.IsValidIndex(index) then Ok(grid.GetPoint(index)) else Err(InvalidOperation)
    }

    /** `MoveNext`: one step of `Advance` over the grid's dimensions. */
    method MoveNext() returns (moved: bool)
      requires grid.points != null && grid.Valid()
      modifies this
      ensures Step(index, moved) == Advance(old(index), grid.NumRows(), grid.NumCols())
      ensures old(index) == BeforeFirst || grid.IsValidIndex(old(index)) ==>
        (moved <==> grid.IsValidIndex(index))
    {
      SentinelUnreachable(grid);
      if index == BeforeFirst || grid.IsValidIndex(index) {
        AdvanceReportsLanding(index, grid.NumRows(), grid.NumCols());
      }
      index := GridIndex(index.row, index.col + 1);
      if index.col >= grid.NumCols() {
        index := GridIndex(index.row + 1, 0);
        if index.row >= grid.NumRows() {
          return false;
        }
      }
      return true;
    }

    /** `Reset`: back to the position before the first cell. */
    method Reset()
      modifies this
      ensures index == BeforeFirst
    {
      index := BeforeFirst;
    }
  }

  /** On a constructed grid with an array, `NumRows` and `NumCols` are the
      array's dimensions: their `-1` branch is never taken. */
  lemma SentinelUnreachable<D(0)>(g: Grid<D>)
    requires g.Valid() && g.points != null
    ensures g.NumRows() == g.points.Length0 > 0 && g.NumCols() == g.points.Length1 > 0
  {
    MulAtLeast(g.points.Length0, g.points.Length1);
  }

  /** Distinct positions of a constructed grid hold distinct cells. */
  lemma CellsAreDistinct<D(0)>(g: Grid<D>, i: GridIndex, j: GridIndex)
    requires g.points != null && g.Valid() && g.IsValidIndex(i) && g.IsValidIndex(j)
    ensures g.GetPoint(i) == g.GetPoint(j) <==> i == j
  {
  }

  /** Moving one column right moves the cell centre by the horizontal spacing;
      moving one row down moves it down by the vertical spacing. */
  lemma WorldPositionSteps<D(0)>(g: Grid<D>, i: GridIndex)
    requires HasMagnitude(g.pointSpacing)
    ensures g.GetWorldPosition(GridIndex(i.row, i.col + 1))
         == Add(g.GetWorldPosition(i), Vec3(g.pointSpacing.x, 0.0, 0.0))
    ensures g.GetWorldPosition(GridIndex(i.row + 1, i.col))
         == Add(g.GetWorldPosition(i), Vec3(0.0, -g.pointSpacing.y, 0.0))
    ensures g.GetWorldPosition(Zero) == Vec3(g.topLeft.x, g.topLeft.y, 0.0)
  {
    var sx, sy := g.pointSpacing.x, g.pointSpacing.y;
    assert sx * (i.col + 1) as real == sx * i.col as real + sx;
    assert sy * (i.row + 1) as real == sy * i.row as real + sy;
  }

  /** Cell-centre round trip: with both spacings nonzero, the world position
      of a cell maps back to that cell, so mapping back and forth again gives
      the same position. */
  lemma CellCentreRoundTrip<D(0)>(g: Grid<D>, i: GridIndex)
    requires g.pointSpacing.x != 0.0 && g.pointSpacing.y != 0.0
    ensures g.GetPointFromWorldPosition(g.GetWorldPosition(i)) == i
    ensures g.GetWorldPosition(g.GetPointFromWorldPosition(g.GetWorldPosition(i))) == g.GetWorldPosition(i)
  {
    var sx, sy := g.pointSpacing.x, g.pointSpacing.y;
    var p := g.GetWorldPosition(i);
    var adjusted := Sub(p, g.topLeft);
    assert adjusted.x == sx * i.col as real;
    assert -adjusted.y == sy * i.row as real;
    RoundedMultiple(-adjusted.y, sy, i.row);
    RoundedMultiple(adjusted.x, sx, i.col);
    assert g.GetPointFromWorldPosition(p)
        == GridIndex(RoundHalfEven(-adjusted.y / sy), RoundHalfEven(adjusted.x / sx));
  }

  /** Neighbouring cells share corners: the rectangles of `GetCellWorldCorners`
      tile the plane without gaps or overlaps along rows and columns. */
  lemma CornersTile<D(0)>(g: Grid<D>, i: GridIndex)
    requires HasMagnitude(g.pointSpacing)
    ensures var here := g.GetCellWorldCorners(i);
      var right := g.GetCellWorldCorners(GridIndex(i.row, i.col + 1));
      var below := g.GetCellWorldCorners(GridIndex(i.row + 1, i.col));
      right[0] == here[1] && right[3] == here[2] && below[0] == here[3] && below[1] == here[2]
  {
    WorldPositionSteps(g, i);
  }

  /** Every position maps to a cell whose centre is within half a spacing of
      it on both axes. */
  lemma PointFromWorldPositionIsNearestCell<D(0)>(g: Grid<D>, p: Vec3)
    requires g.pointSpacing.x != 0.0 && g.pointSpacing.y != 0.0
    ensures var centre := g.GetWorldPosition(g.GetPointFromWorldPosition(p));
      Abs(p.x - centre.x) <= Abs(g.pointSpacing.x) / 2.0 &&
      Abs(p.y - centre.y) <= Abs(g.pointSpacing.y) / 2.0
  {
    var i := g.GetPointFromWorldPosition(p);
    var centre := g.GetWorldPosition(i);
    assert p.x - centre.x == (p.x - g.topLeft.x) - g.pointSpacing.x * i.col as real;
    assert p.y - centre.y == -((g.topLeft.y - p.y) - g.pointSpacing.y * i.row as real);
  }

  /** Rounding `a / s` to `n` leaves `s * n` within half of `|s|` of `a`. */
  lemma RoundedQuotientIsNear(a: real, s: real, n: int)
    requires s != 0.0 && n == RoundHalfEven(a / s)
    ensures Abs(a - s * n as real) <= Abs(s) / 2.0
  {
    var u := a / s;
    assert a - s * n as real == s * (u - n as real);
    AbsScale(s, u - n as real);
  }

  /** Dividing a whole number of spacings by the spacing and rounding gives
      that number back. */
  lemma RoundedMultiple(a: real, s: real, n: int)
    requires s != 0.0 && a == s * n as real
    ensures RoundHalfEven(a / s) == n
  {
    assert a / s == n as real;
    RoundOfInteger(n);
  }

  lemma AbsScale(a: real, t: real)
    requires Abs(t) <= 0.5
    ensures Abs(a * t) <= Abs(a) / 2.0
  {
    var b, u := Abs(a), Abs(t);
    assert Abs(a * t) == b * u by {
      if a < 0.0 && t < 0.0 { assert a * t == (-a) * (-t); }
      else if a < 0.0 { assert Abs(a * t) == (-a) * t; }
      else if t < 0.0 { assert Abs(a * t) == a * (-t); }
    }
    assert b * u <= b * 0.5 by {
      assert b * (0.5 - u) >= 0.0;
    }
  }

  /** With non-negative spacing, the anchor, the bottom-right corner and every
      cell centre lie in the grid. */
  lemma GridContainsCornersAndCentres<D(0)>(g: Grid<D>, i: GridIndex)
    requires g.points != null && g.Valid()
    requires g.pointSpacing.x >= 0.0 && g.pointSpacing.y >= 0.0
    ensures g.IsWorldPositionInGrid(g.topLeft)
    ensures g.IsWorldPositionInGrid(g.BottomRight())
    ensures g.IsValidIndex(i) ==> g.IsWorldPositionInGrid(g.GetWorldPosition(i))
  {
    SentinelUnreachable(g);
    var sx, sy := g.pointSpacing.x, g.pointSpacing.y;
    var R, C := g.NumRows() as real, g.NumCols() as real;
    var t, b := g.topLeft, g.BottomRight();
    assert b.x == t.x + sx * C && b.y == t.y - sy * R;
    ScaleMono(sx, 0.0, C);
    ScaleMono(sy, 0.0, R);
    if g.IsValidIndex(i) {
      var col, row := i.col as real, i.row as real;
      var w := g.GetWorldPosition(i);
      if HasMagnitude(g.pointSpacing) {
        assert w.x == t.x + sx * col && w.y == t.y - sy * row;
        ScaleMono(sx, 0.0, col);
        ScaleMono(sx, col, C);
        ScaleMono(sy, 0.0, row);
        ScaleMono(sy, row, R);
      } else {
        assert w == t;
      }
    }
  }

  /** Scaling by a non-negative factor keeps the order. */
  lemma ScaleMono(a: real, x: real, y: real)
    requires a >= 0.0 && x <= y
    ensures a * x <= a * y
  {
    assert a * y - a * x == a * (y - x);
  }

  /** A centre at least one column before the end lies left of the half
      cell before the end. */
  lemma LeftOfLastHalfCell(origin: real, s: real, col: real, end: real, centre: real, last: real)
    requires s > 0.0 && col + 1.0 <= end
    requires centre == origin + s * col && last == origin + s * end
    ensures centre < last - 0.5 * s
  {
    ScaleMono(s, col + 1.0, end);
    assert s * (col + 1.0) == s * col + s;
    assert centre + s <= last;
  }

  /** A point beyond the grid's extent on any one axis is not in the grid. */
  lemma OutsideGridOnOneAxis<D(0)>(g: Grid<D>, p: Vec3)
    requires g.points != null
    ensures p.x < g.topLeft.x ==> !g.IsWorldPositionInGrid(p)
    ensures p.x > g.BottomRight().x ==> !g.IsWorldPositionInGrid(p)
    ensures p.y > g.topLeft.y ==> !g.IsWorldPositionInGrid(p)
    ensures p.y < g.BottomRight().y ==> !g.IsWorldPositionInGrid(p)
  {
  }

  /** `BottomRight` lies in the grid, yet it is the centre of the cell one
      past the last row and column: mapping it back gives an index that is
      not valid, so `IsWorldPositionInGrid` does not make the result of
      `GetPointFromWorldPosition` safe to look up. */
  lemma BottomRightMapsPastLastCell<D(0)>(g: Grid<D>)
    requires g.points != null && g.Valid()
    requires g.pointSpacing.x > 0.0 && g.pointSpacing.y > 0.0
    ensures g.IsWorldPositionInGrid(g.BottomRight())
    ensures g.GetPointFromWorldPosition(g.BottomRight()) == GridIndex(g.NumRows(), g.NumCols())
    ensures !g.IsValidIndex(GridIndex(g.NumRows(), g.NumCols()))
  {
    var past := GridIndex(g.NumRows(), g.NumCols());
    GridContainsCornersAndCentres(g, past);
    CellCentreRoundTrip(g, past);
    var b, w := g.BottomRight(), g.GetWorldPosition(past);
    assert Sub(b, g.topLeft).x == Sub(w, g.topLeft).x && Sub(b, g.topLeft).y == Sub(w, g.topLeft).y;
  }

  /** With positive spacing, the cell test accepts no cell centre of the
      grid: its rectangle lies wholly past the last row and column. */
  lemma CellTestMissesEveryCentre<D(0)>(g: Grid<D>, i: GridIndex)
    requires g.points != null && g.Valid() && g.IsValidIndex(i)
    requires g.pointSpacing.x > 0.0 && g.pointSpacing.y > 0.0
    ensures !g.IsWorldPositionInCell(g.GetWorldPosition(i))
  {
    var sx, C := g.pointSpacing.x, g.NumCols() as real;
    var col := i.col as real;
    var t, w, b := g.topLeft, g.GetWorldPosition(i), g.BottomRight();
    LeftOfLastHalfCell(t.x, sx, col, C, w.x, b.x);
    var cellTopLeft := Add(b, Vec3(-0.5 * sx, 0.5 * g.pointSpacing.y, 0.0));
    assert w.x < cellTopLeft.x;
  }

  /** Reading the cursor before the first `MoveNext`, or once a traversal has
      returned `false`, fails. */
  lemma CurrentOutsideTraversal<D(0)>(e: GridEnumerator<D>)
    requires e.grid.points != null && e.grid.Valid()
    requires e.index == BeforeFirst || e.index == GridIndex(e.grid.NumRows(), 0)
    ensures e.Current() == Err(InvalidOperation)
  {
  }
}
