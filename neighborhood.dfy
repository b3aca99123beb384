/** The neighbour list of `Grid.GetNeightbors`, as a function of the index and
    the grid's dimensions, with the reference definitions it is compared to. */
module Neighborhood {
  import opened GridIndices

  /** What `GetNeightbors` returns: four guarded blocks (row above, column to
      the right, row below, and a last block that is commented "left" but adds
      the index above once more). The `sorted` flag plays no part. */
  function NeighborsAsCoded(index: GridIndex, numRows: int, numCols: int): (neighbors: seq<GridIndex>)
    ensures |neighbors| <= 8
  {
    RowAboveBlock(index, numCols) + RightColumnBlock(index, numRows, numCols)
    + RowBelowBlock(index, numRows) + LeftBlock(index)
  }

  /** Up-left (unless in the first column), up, up-right (unless in the last
      column); nothing in the first row. */
  function RowAboveBlock(index: GridIndex, numCols: int): (b: seq<GridIndex>)
  {
    var r, c := index.row, index.col;
    if r != 0 then
      (if c != 0 then [GridIndex(r - 1, c - 1)] else [])
      + [GridIndex(r - 1, c)]
      + (if c != numCols - 1 then [GridIndex(r - 1, c + 1)] else [])
    else []
  }

  /** Right, then down-right unless in the last row; nothing in the last
      column. */
  function RightColumnBlock(index: GridIndex, numRows: int, numCols: int): (b: seq<GridIndex>)
  {
    var r, c := index.row, index.col;
    if c != numCols - 1 then
      [GridIndex(r, c + 1)] + (if r != numRows - 1 then [GridIndex(r + 1, c + 1)] else [])
    else []
  }

  /** Down, then down-left unless in the first column; nothing in the last
      row. */
  function RowBelowBlock(index: GridIndex, numRows: int): (b: seq<GridIndex>)
  {
    var r, c := index.row, index.col;
    if r != numRows - 1 then
      [GridIndex(r + 1, c)] + (if c != 0 then [GridIndex(r + 1, c - 1)] else [])
    else []
  }

  /** The block commented "left": guarded by "not the first row", it adds the
      cell above, not the cell to the left. */
  function LeftBlock(index: GridIndex): (b: seq<GridIndex>)
  {
    if index.row != 0 then [GridIndex(index.row - 1, index.col)] else []
  }

  /** The eight cells around `index` in compass order: up-left, up, up-right,
      right, down-right, down, down-left, left. */
  function CompassSlots(index: GridIndex): (s: seq<GridIndex>)
    ensures |s| == 8
  {
    var r, c := index.row, index.col;
    [GridIndex(r - 1, c - 1), GridIndex(r - 1, c), GridIndex(r - 1, c + 1), GridIndex(r, c + 1),
     GridIndex(r + 1, c + 1), GridIndex(r + 1, c), GridIndex(r + 1, c - 1), GridIndex(r, c - 1)]
  }

  /** The slots the code actually visits: compass order, except that the last
      ("left") slot repeats the "up" slot. */
  function EmittedSlots(index: GridIndex): (s: seq<GridIndex>)
    ensures |s| == 8
  {
    CompassSlots(index)[..7] + [CompassSlots(index)[1]]
  }

  /** `j` is one of the eight cells that touch `i` by an edge or a corner. */
  predicate Adjacent(i: GridIndex, j: GridIndex)
  {
    j != i && -1 <= j.row - i.row <= 1 && -1 <= j.col - i.col <= 1
  }

  function LeftOf(i: GridIndex): GridIndex
  {
    GridIndex(i.row, i.col - 1)
  }

  predicate NoDuplicates(s: seq<GridIndex>)
  {
    forall a, b :: 0 <= a < b < |s| ==> s[a] != s[b]
  }

  function KeepOne(j: GridIndex, numRows: int, numCols: int): seq<GridIndex>
  {
    if InBounds(j, numRows, numCols) then [j] else []
  }

  /** The in-bounds entries of `s`, in their original order. */
  function KeepInBounds(s: seq<GridIndex>, numRows: int, numCols: int): (kept: seq<GridIndex>)
    ensures |kept| <= |s|
  {
    if s == [] then [] else KeepOne(s[0], numRows, numCols) + KeepInBounds(s[1..], numRows, numCols)
  }

  /** Filtering keeps exactly the in-bounds entries, and keeps distinct
      entries distinct. */
  lemma {:induction false} KeepInBoundsMembers(s: seq<GridIndex>, numRows: int, numCols: int)
    ensures forall j :: j in KeepInBounds(s, numRows, numCols) <==> j in s && InBounds(j, numRows, numCols)
    ensures NoDuplicates(s) ==> NoDuplicates(KeepInBounds(s, numRows, numCols))
  {
    if s != [] {
      KeepInBoundsMembers(s[1..], numRows, numCols);
      assert forall j :: j in s <==> j == s[0] || j in s[1..];
      if NoDuplicates(s) {
        assert s[0] !in s[1..];
      }
    }
  }

  /** The corrected neighbourhood: the in-bounds compass slots, ending with
      the cell to the left. */
  function MooreNeighbors(index: GridIndex, numRows: int, numCols: int): seq<GridIndex>
  {
    KeepInBounds(CompassSlots(index), numRows, numCols)
  }

  lemma CompassSlotsAreTheAdjacentCells(i: GridIndex, j: GridIndex)
    ensures j in CompassSlots(i) <==> Adjacent(i, j)
  {
    if Adjacent(i, j) {
      var s := CompassSlots(i);
      var dr, dc := j.row - i.row, j.col - i.col;
      if dr == -1 && dc == -1 { assert j == s[0]; }
      else if dr == -1 && dc == 0 { assert j == s[1]; }
      else if dr == -1 && dc == 1 { assert j == s[2]; }
      else if dr == 0 && dc == 1 { assert j == s[3]; }
      else if dr == 1 && dc == 1 { assert j == s[4]; }
      else if dr == 1 && dc == 0 { assert j == s[5]; }
      else if dr == 1 && dc == -1 { assert j == s[6]; }
      else { assert j == s[7]; }
    }
  }

  /** For an index inside the grid, the flag guards of the code select exactly
      the in-bounds slots: the result is the in-bounds part of the emitted
      slots, in the same order. */
  lemma NeighborsAsCodedFiltersSlots(i: GridIndex, numRows: int, numCols: int)
    requires InBounds(i, numRows, numCols)
    ensures NeighborsAsCoded(i, numRows, numCols) == KeepInBounds(EmittedSlots(i), numRows, numCols)
  {
    var s := EmittedSlots(i);
    var R, C := numRows, numCols;
    KeepInBoundsOfEight(s, R, C);
    var k0, k1, k2, k3 := KeepOne(s[0], R, C), KeepOne(s[1], R, C), KeepOne(s[2], R, C), KeepOne(s[3], R, C);
    var k4, k5, k6, k7 := KeepOne(s[4], R, C), KeepOne(s[5], R, C), KeepOne(s[6], R, C), KeepOne(s[7], R, C);
    BlocksKeepInBoundsSlots(i, R, C);
    Regroup(k0, k1, k2, k3, k4, k5, k6, k7);
  }

  /** The eight one-slot pieces, grouped as the four blocks group them. */
  lemma Regroup<T>(k0: seq<T>, k1: seq<T>, k2: seq<T>, k3: seq<T>, k4: seq<T>, k5: seq<T>, k6: seq<T>, k7: seq<T>)
    ensures k0 + (k1 + (k2 + (k3 + (k4 + (k5 + (k6 + k7))))))
         == (k0 + k1 + k2) + (k3 + k4) + (k5 + k6) + k7
  {
    assert k0 + (k1 + (k2 + (k3 + (k4 + (k5 + (k6 + k7))))))
        == (k0 + k1 + k2) + ((k3 + k4) + ((k5 + k6) + k7));
  }

  /** Block by block, each flag guard admits a slot exactly when it is in
      bounds. */
  lemma BlocksKeepInBoundsSlots(i: GridIndex, numRows: int, numCols: int)
    requires InBounds(i, numRows, numCols)
    ensures var s, R, C := EmittedSlots(i), numRows, numCols;
      RowAboveBlock(i, C) == KeepOne(s[0], R, C) + KeepOne(s[1], R, C) + KeepOne(s[2], R, C) &&
      RightColumnBlock(i, R, C) == KeepOne(s[3], R, C) + KeepOne(s[4], R, C) &&
      RowBelowBlock(i, R) == KeepOne(s[5], R, C) + KeepOne(s[6], R, C) &&
      LeftBlock(i) == KeepOne(s[7], R, C)
  {
    var r, c := i.row, i.col;
    assert EmittedSlots(i) == [GridIndex(r - 1, c - 1), GridIndex(r - 1, c), GridIndex(r - 1, c + 1),
      GridIndex(r, c + 1), GridIndex(r + 1, c + 1), GridIndex(r + 1, c), GridIndex(r + 1, c - 1), GridIndex(r - 1, c)];
  }

  /** Filtering an eight-entry sequence, spelled out entry by entry. */
  lemma KeepInBoundsOfEight(s: seq<GridIndex>, numRows: int, numCols: int)
    requires |s| == 8
    ensures KeepInBounds(s, numRows, numCols)
         == KeepOne(s[0], numRows, numCols) + (KeepOne(s[1], numRows, numCols) + (KeepOne(s[2], numRows, numCols)
          + (KeepOne(s[3], numRows, numCols) + (KeepOne(s[4], numRows, numCols) + (KeepOne(s[5], numRows, numCols)
          + (KeepOne(s[6], numRows, numCols) + KeepOne(s[7], numRows, numCols)))))))
  {
    var R, C := numRows, numCols;
    assert s[8..] == [];
    var t7 := KeepOne(s[7], R, C);
    KeepInBoundsUnfold(s, R, C, 7);
    assert KeepInBounds(s[7..], R, C) == t7;
    var t6 := KeepOne(s[6], R, C) + t7;
    KeepInBoundsUnfold(s, R, C, 6);
    assert KeepInBounds(s[6..], R, C) == t6;
    var t5 := KeepOne(s[5], R, C) + t6;
    KeepInBoundsUnfold(s, R, C, 5);
    assert KeepInBounds(s[5..], R, C) == t5;
    var t4 := KeepOne(s[4], R, C) + t5;
    KeepInBoundsUnfold(s, R, C, 4);
    assert KeepInBounds(s[4..], R, C) == t4;
    var t3 := KeepOne(s[3], R, C) + t4;
    KeepInBoundsUnfold(s, R, C, 3);
    assert KeepInBounds(s[3..], R, C) == t3;
    var t2 := KeepOne(s[2], R, C) + t3;
    KeepInBoundsUnfold(s, R, C, 2);
    assert KeepInBounds(s[2..], R, C) == t2;
    var t1 := KeepOne(s[1], R, C) + t2;
    KeepInBoundsUnfold(s, R, C, 1);
    assert KeepInBounds(s[1..], R, C) == t1;
    var t0 := KeepOne(s[0], R, C) + t1;
    KeepInBoundsUnfold(s, R, C, 0);
    assert KeepInBounds(s[0..], R, C) == t0;
    assert s[0..] == s;
  }

  /** One step of `KeepInBounds` at position `k` of `s`. */
  lemma KeepInBoundsUnfold(s: seq<GridIndex>, numRows: int, numCols: int, k: nat)
    requires k < |s|
    ensures KeepInBounds(s[k..], numRows, numCols)
         == KeepOne(s[k], numRows, numCols) + KeepInBounds(s[k + 1..], numRows, numCols)
  {
    assert s[k..][1..] == s[k + 1..];
  }

  /** For an index inside the grid, a cell is reported exactly when it is an
      in-bounds neighbour other than the cell to the left. */
  lemma NeighborsAsCodedMembers(i: GridIndex, numRows: int, numCols: int, j: GridIndex)
    requires InBounds(i, numRows, numCols)
    ensures j in NeighborsAsCoded(i, numRows, numCols)
        <==> InBounds(j, numRows, numCols) && Adjacent(i, j) && j != LeftOf(i)
  {
    NeighborsAsCodedFiltersSlots(i, numRows, numCols);
    KeepInBoundsMembers(EmittedSlots(i), numRows, numCols);
    CompassSlotsAreTheAdjacentCells(i, j);
    EmittedSlotsMembers(i, j);
  }

  /** The emitted slots are the compass slots without the cell to the left. */
  lemma EmittedSlotsMembers(i: GridIndex, j: GridIndex)
    ensures j in EmittedSlots(i) <==> j in CompassSlots(i) && j != LeftOf(i)
  {
    var c, e := CompassSlots(i), EmittedSlots(i);
    assert c[7] == LeftOf(i);
    assert forall k :: 0 <= k < 7 ==> c[k] != LeftOf(i);
    if j in c && j != LeftOf(i) {
      var k :| 0 <= k < 8 && c[k] == j;
      assert e[k] == j;
    }
  }

  /** Every reported cell is in the grid, differs from the index, and at most
      eight are reported. */
  lemma NeighborsAsCodedInBounds(i: GridIndex, numRows: int, numCols: int)
    requires InBounds(i, numRows, numCols)
    ensures |NeighborsAsCoded(i, numRows, numCols)| <= 8
    ensures forall j :: j in NeighborsAsCoded(i, numRows, numCols) ==> InBounds(j, numRows, numCols) && j != i
  {
    NeighborsAsCodedFiltersSlots(i, numRows, numCols);
    forall j | j in NeighborsAsCoded(i, numRows, numCols)
      ensures InBounds(j, numRows, numCols) && j != i
    {
      NeighborsAsCodedMembers(i, numRows, numCols, j);
    }
  }

  /** The cell to the left is never reported, whatever the index. */
  lemma LeftNeverReported(i: GridIndex, numRows: int, numCols: int)
    ensures LeftOf(i) !in NeighborsAsCoded(i, numRows, numCols)
  {
  }

  /** The top-left cell of a grid of at least 2x2 has exactly three neighbours:
      right, down-right and down. */
  lemma NeighborsOfOrigin(numRows: int, numCols: int)
    requires numRows >= 2 && numCols >= 2
    ensures NeighborsAsCoded(Zero, numRows, numCols) == [GridIndex(0, 1), GridIndex(1, 1), GridIndex(1, 0)]
  {
  }

  /** The only cell of a 1x1 grid has no neighbours. */
  lemma NeighborsOfSingleCell()
    ensures NeighborsAsCoded(Zero, 1, 1) == []
  {
  }

  /** An interior cell reports eight entries, the cell above twice (second and
      last), and the cell to the left not at all. */
  lemma NeighborsOfInteriorCell(i: GridIndex, numRows: int, numCols: int)
    requires 0 < i.row < numRows - 1 && 0 < i.col < numCols - 1
    ensures var n := NeighborsAsCoded(i, numRows, numCols);
      |n| == 8 && n == EmittedSlots(i) && n[1] == n[7] == GridIndex(i.row - 1, i.col)
  {
  }

  /** The corrected neighbourhood reports every in-bounds adjacent cell and
      nothing else, each once. */
  lemma MooreNeighborsExact(i: GridIndex, numRows: int, numCols: int, j: GridIndex)
    ensures j in MooreNeighbors(i, numRows, numCols) <==> InBounds(j, numRows, numCols) && Adjacent(i, j)
    ensures NoDuplicates(MooreNeighbors(i, numRows, numCols))
  {
    CompassSlotsAreTheAdjacentCells(i, j);
    KeepInBoundsMembers(CompassSlots(i), numRows, numCols);
    var c := CompassSlots(i);
    assert NoDuplicates(c);
  }

  /** The code as written differs from the corrected neighbourhood: in the
      middle of a 3x3 grid it reports the cell above twice and misses the cell
      to the left. */
  lemma AsCodedMissesLeft()
    ensures var n := NeighborsAsCoded(GridIndex(1, 1), 3, 3);
      GridIndex(1, 0) !in n && n[1] == n[7] == GridIndex(0, 1)
    ensures GridIndex(1, 0) in MooreNeighbors(GridIndex(1, 1), 3, 3)
  {
    var i := GridIndex(1, 1);
    NeighborsOfInteriorCell(i, 3, 3);
    LeftNeverReported(i, 3, 3);
    assert LeftOf(i) == GridIndex(1, 0);
    MooreNeighborsExact(i, 3, 3, GridIndex(1, 0));
  }

  /** The evident fix of the last block: guarded by "not the first column",
      it adds the cell to the left. */
  function LeftBlockFixed(index: GridIndex): seq<GridIndex>
  {
    if index.col != 0 then [LeftOf(index)] else []
  }

  /** With the last block fixed, the code's list is exactly the corrected
      neighbourhood, for every index inside the grid. */
  lemma FixedNeighborsAreMoore(i: GridIndex, numRows: int, numCols: int)
    requires InBounds(i, numRows, numCols)
    ensures RowAboveBlock(i, numCols) + RightColumnBlock(i, numRows, numCols)
          + RowBelowBlock(i, numRows) + LeftBlockFixed(i)
         == MooreNeighbors(i, numRows, numCols)
  {
    var s := CompassSlots(i);
    var R, C := numRows, numCols;
    KeepInBoundsOfEight(s, R, C);
    FixedBlocksKeepCompassSlots(i, R, C);
    var k0, k1, k2, k3 := KeepOne(s[0], R, C), KeepOne(s[1], R, C), KeepOne(s[2], R, C), KeepOne(s[3], R, C);
    var k4, k5, k6, k7 := KeepOne(s[4], R, C), KeepOne(s[5], R, C), KeepOne(s[6], R, C), KeepOne(s[7], R, C);
    Regroup(k0, k1, k2, k3, k4, k5, k6, k7);
  }

  /** With the last block fixed, each block admits a compass slot exactly
      when that slot is in bounds. */
  lemma FixedBlocksKeepCompassSlots(i: GridIndex, numRows: int, numCols: int)
    requires InBounds(i, numRows, numCols)
    ensures var s, R, C := CompassSlots(i), numRows, numCols;
      RowAboveBlock(i, C) == KeepOne(s[0], R, C) + KeepOne(s[1], R, C) + KeepOne(s[2], R, C) &&
      RightColumnBlock(i, R, C) == KeepOne(s[3], R, C) + KeepOne(s[4], R, C) &&
      RowBelowBlock(i, R) == KeepOne(s[5], R, C) + KeepOne(s[6], R, C) &&
      LeftBlockFixed(i) == KeepOne(s[7], R, C)
  {
  }
}
