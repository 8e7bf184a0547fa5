/**
 * The occupancy state of functions.js: the three parallel maps `Grid`,
 * `colorGrid` and `GridToShape`, keyed by board cell, and the operations
 * `initGrid`, `place` and `unplace` that change them.
 *
 * functions.js keys its maps by the string SKey(q, r); Keys.SKeyInjective
 * shows that this string determines the cell, so here the maps are keyed by
 * the cell itself.
 */
module Packer {
  import opened Hex

  type Color = string

  /** The colour of a free cell. */
  const Gray: Color := "hsl(0,0%,50%)"

  /** Grid: cell -> occupied; colorGrid: cell -> colour; GridToShape: cell -> owner name. */
  datatype Occupancy = Occupancy(
    grid: map<Cell, bool>,
    colorGrid: map<Cell, Color>,
    gridToShape: map<Cell, string>)

  // ---------------------------------------------------------------------
  // The board built by initGrid

  /** Row x holds the columns -floor(x/2) .. cols-floor(x/2)-1 (x >= 0, so x / 2 is the floor). */
  predicate InBoard(rows: int, cols: int, c: Cell)
  {
    0 <= c.0 < rows && -(c.0 / 2) <= c.1 < cols - c.0 / 2
  }

  function BoardCells(rows: int, cols: int): set<Cell>
  {
    set x: int, y: int | 0 <= x < rows && -(x / 2) <= y < cols - x / 2 :: (x, y)
  }

  /** The state initGrid leaves: every board cell free, gray and unowned, nothing else. */
  function BlankOcc(rows: int, cols: int): Occupancy
  {
    var cells := BoardCells(rows, cols);
    Occupancy(map c | c in cells :: false, map c | c in cells :: Gray, map c | c in cells :: "")
  }

  // ---------------------------------------------------------------------
  // place and unplace on values

  /** shape.map(pos => [pos[0] + offsetx, pos[1] + offsety]) */
  function Translate(shape: Shape, dx: int, dy: int): (cells: seq<Cell>)
    ensures |cells| == |shape|
  {
    seq(|shape|, i requires 0 <= i < |shape| => (shape[i].0 + dx, shape[i].1 + dy))
  }

  /** Every target cell is a key of Grid and is not occupied. */
  predicate CanPlace(grid: map<Cell, bool>, cells: seq<Cell>)
  {
    forall c :: c in cells ==> c in grid && !grid[c]
  }

  /** Set every key of `cells` to `v` (adding the key where it is missing). */
  function Stamp<K, V>(m: map<K, V>, cells: seq<K>, v: V): map<K, V>
  {
    map c | c in m.Keys + (set d | d in cells) :: if c in cells then v else m[c]
  }

  /** The state after a successful place. */
  function PlaceOcc(occ: Occupancy, cells: seq<Cell>, color: Color, name: string): Occupancy
  {
    Occupancy(Stamp(occ.grid, cells, true), Stamp(occ.colorGrid, cells, color),
              Stamp(occ.gridToShape, cells, name))
  }

  /** The state after unplace: every target cell free, gray and unowned. */
  function UnplaceOcc(occ: Occupancy, cells: seq<Cell>): Occupancy
  {
    Occupancy(Stamp(occ.grid, cells, false), Stamp(occ.colorGrid, cells, Gray),
              Stamp(occ.gridToShape, cells, ""))
  }

  /**
   * The cells unplace reports as "already False", in visiting order: a cell
   * is reported when Grid holds false for it at the time it is visited, that
   * is, when it was free before the call or was visited earlier in the same
   * call. A cell missing from Grid is not reported (`undefined == false` is
   * false).
   */
  function AlreadyFree(grid: map<Cell, bool>, cells: seq<Cell>): seq<Cell>
    decreases |cells|
  {
    if cells == [] then []
    else
      var prior := cells[..|cells| - 1];
      var c := cells[|cells| - 1];
      AlreadyFree(grid, prior) + (if c in prior || (c in grid && !grid[c]) then [c] else [])
  }

  /** The three maps have the same keys, and a free cell is gray and unowned. */
  predicate Consistent(occ: Occupancy)
  {
    && occ.colorGrid.Keys == occ.grid.Keys
    && occ.gridToShape.Keys == occ.grid.Keys
    && forall c :: c in occ.grid && !occ.grid[c] ==> occ.colorGrid[c] == Gray && occ.gridToShape[c] == ""
  }

  // ---------------------------------------------------------------------
  // The mutable board

  class Board {
    var rows: int
    var cols: int
    var grid: map<Cell, bool>
    var colorGrid: map<Cell, Color>
    var gridToShape: map<Cell, string>

    function Occ(): Occupancy
      reads this
    {
      Occupancy(grid, colorGrid, gridToShape)
    }

    /** The module's initial state: a 7 x 7 board not yet built. */
    constructor ()
      ensures rows == 7 && cols == 7
      ensures Occ() == Occupancy(map[], map[], map[])
    {
      rows, cols := 7, 7;
      grid, colorGrid, gridToShape := map[], map[], map[];
    }

    /** initGrid, with the two input fields' values as parameters. */
    method InitGrid(newRows: int, newCols: int)
      modifies this
      ensures rows == newRows && cols == newCols
      ensures Occ() == BlankOcc(newRows, newCols)
    {
      var g: map<Cell, bool>, cg: map<Cell, Color>, gs: map<Cell, string> := map[], map[], map[];
      var x := 0;
      while x < newRows
        invariant 0 <= x && (newRows >= 0 ==> x <= newRows)
        invariant FilledUpTo(Occupancy(g, cg, gs), newRows, newCols, x, -(x / 2))
      {
        var qOffset := x / 2;
        var y := -qOffset;
        while y < newCols - qOffset
          invariant -qOffset <= y && (newCols >= 0 ==> y <= newCols - qOffset)
          invariant FilledUpTo(Occupancy(g, cg, gs), newRows, newCols, x, y)
        {
          FillStep(Occupancy(g, cg, gs), newRows, newCols, x, y);
          g, cg, gs := g[(x, y) := false], cg[(x, y) := Gray], gs[(x, y) := ""];
          y := y + 1;
        }
        FillNextRow(Occupancy(g, cg, gs), newRows, newCols, x, y);
        x := x + 1;
      }
      FillDone(Occupancy(g, cg, gs), newRows, newCols, x);
      rows, cols := newRows, newCols;
      grid, colorGrid, gridToShape := g, cg, gs;
    }

    /** place(shape, offsetx, offsety, colors, shape_name) */
    method Place(shape: Shape, offsetx: int, offsety: int, colors: seq<Color>, shapeName: string)
      returns (placed: bool)
      requires |colors| > 0
      modifies this
      ensures rows == old(rows) && cols == old(cols)
      ensures placed == CanPlace(old(grid), Translate(shape, offsetx, offsety))
      ensures Occ() == if placed then PlaceOcc(old(Occ()), Translate(shape, offsetx, offsety), colors[0], shapeName)
                       else old(Occ())
    {
      var newShape := Translate(shape, offsetx, offsety);
      var valid := forall i | 0 <= i < |newShape| :: newShape[i] in grid && !grid[newShape[i]];
      if !valid {
        return false;
      }
      var occ := PlaceCells(Occ(), newShape, colors[0], shapeName);
      grid, colorGrid, gridToShape := occ.grid, occ.colorGrid, occ.gridToShape;
      return true;
    }

    /** unplace(shape, offsetx, offsety); the console.error reports are returned. */
    method Unplace(shape: Shape, offsetx: int, offsety: int) returns (reported: seq<Cell>)
      modifies this
      ensures rows == old(rows) && cols == old(cols)
      ensures Occ() == UnplaceOcc(old(Occ()), Translate(shape, offsetx, offsety))
      ensures reported == AlreadyFree(old(grid), Translate(shape, offsetx, offsety))
    {
      var newShape := Translate(shape, offsetx, offsety);
      var occ;
      occ, reported := UnplaceCells(Occ(), newShape);
      grid, colorGrid, gridToShape := occ.grid, occ.colorGrid, occ.gridToShape;
    }
  }

  /** The loop of place: mark each cell occupied, colored and owned by the shape. */
  method PlaceCells(start: Occupancy, cells: seq<Cell>, color: Color, name: string) returns (occ: Occupancy)
    ensures occ == PlaceOcc(start, cells, color, name)
  {
    PlaceNothing(start, cells, color, name);
    occ := start;
    for i := 0 to |cells|
      invariant occ == PlaceOcc(start, cells[..i], color, name)
    {
      PlaceLoopStep(start, cells, i, color, name, occ);
      var pos := cells[i];
      occ := Occupancy(occ.grid[pos := true], occ.colorGrid[pos := color], occ.gridToShape[pos := name]);
    }
    assert cells[..|cells|] == cells;
  }

  /**
   * The loop of unplace: visit the cells in order, report a cell whose Grid
   * entry is false at the time of the visit, then set it free, gray and
   * unowned.
   */
  method UnplaceCells(start: Occupancy, cells: seq<Cell>) returns (occ: Occupancy, reported: seq<Cell>)
    ensures occ == UnplaceOcc(start, cells)
    ensures reported == AlreadyFree(start.grid, cells)
  {
    occ := start;
    reported := [];
    var i := 0;
    UnplaceNothing(start, cells);
    while i < |cells|
      invariant 0 <= i <= |cells|
      invariant occ == UnplaceOcc(start, cells[..i])
      invariant reported == AlreadyFree(start.grid, cells[..i])
    {
      UnplaceLoopStep(start, cells, i, occ, reported);
      var pos := cells[i];
      reported := reported + (if pos in occ.grid && !occ.grid[pos] then [pos] else []);
      occ := Occupancy(occ.grid[pos := false], occ.colorGrid[pos := Gray], occ.gridToShape[pos := ""]);
      i := i + 1;
    }
    assert cells[..i] == cells;
  }

  // ---------------------------------------------------------------------
  // Properties of the board operations

  /** initGrid builds rows * cols cells: one row of cols cells per x. */
  lemma {:induction false} BoardSize(rows: nat, cols: nat)
    ensures |BoardCells(rows, cols)| == rows * cols
  {
    if rows > 0 {
      var x := rows - 1;
      var above, row := BoardCells(x, cols), RowCells(x, -(x / 2), cols);
      BoardCellsLastRow(x, cols);
      BoardSize(x, cols);
      RowCellsSize(x, -(x / 2), cols);
      DisjointUnionSize(above, row);
      assert rows * cols == x * cols + cols;
    }
  }

  lemma DisjointUnionSize(a: set<Cell>, b: set<Cell>)
    requires a !! b
    ensures |a + b| == |a| + |b|
  {
    assert a * b == {};
  }

  lemma BoardCellsLastRow(x: nat, cols: nat)
    ensures BoardCells(x + 1, cols) == BoardCells(x, cols) + RowCells(x, -(x / 2), cols)
    ensures BoardCells(x, cols) !! RowCells(x, -(x / 2), cols)
  {
    var row := RowCells(x, -(x / 2), cols);
    forall c ensures c in BoardCells(x + 1, cols) <==> c in BoardCells(x, cols) || c in row {
      BoardCellsMembership(x + 1, cols, c);
      BoardCellsMembership(x, cols, c);
      RowCellsMembership(x, -(x / 2), cols, c);
    }
    forall c | c in row ensures c !in BoardCells(x, cols) {
      BoardCellsMembership(x, cols, c);
      RowCellsMembership(x, -(x / 2), cols, c);
    }
  }

  /** The blank board satisfies the board invariant. */
  lemma BlankConsistent(rows: int, cols: int)
    ensures Consistent(BlankOcc(rows, cols))
  {
  }

  lemma PlacePreservesConsistent(occ: Occupancy, cells: seq<Cell>, color: Color, name: string)
    requires Consistent(occ)
    ensures Consistent(PlaceOcc(occ, cells, color, name))
  {
  }

  lemma UnplacePreservesConsistent(occ: Occupancy, cells: seq<Cell>)
    requires Consistent(occ)
    ensures Consistent(UnplaceOcc(occ, cells))
  {
  }

  /** A successful place followed by unplace of the same cells restores all three maps. */
  lemma PlaceThenUnplaceRestores(occ: Occupancy, cells: seq<Cell>, color: Color, name: string)
    requires Consistent(occ) && CanPlace(occ.grid, cells)
    ensures UnplaceOcc(PlaceOcc(occ, cells, color, name), cells) == occ
  {
    StampBack(occ.grid, cells, true, false);
    StampBack(occ.colorGrid, cells, color, Gray);
    StampBack(occ.gridToShape, cells, name, "");
  }

  /** Stamping keys that all held `w` and then stamping them back to `w` changes nothing. */
  lemma StampBack<K, V>(m: map<K, V>, cells: seq<K>, v: V, w: V)
    requires forall c | c in cells :: c in m && m[c] == w
    ensures Stamp(Stamp(m, cells, v), cells, w) == m
  {
    assert Stamp(Stamp(m, cells, v), cells, w).Keys == m.Keys;
  }

  /** After a successful place of distinct cells, unplace reports nothing. */
  lemma {:induction false} UnplaceAfterPlaceReportsNothing(grid: map<Cell, bool>, cells: seq<Cell>)
    requires CanPlace(grid, cells)
    requires forall i, j | 0 <= i < j < |cells| :: cells[i] != cells[j]
    ensures AlreadyFree(Stamp(grid, cells, true), cells) == []
  {
    AllOccupiedReportsNothing(Stamp(grid, cells, true), cells);
  }

  lemma {:induction false} AllOccupiedReportsNothing(grid: map<Cell, bool>, cells: seq<Cell>)
    requires forall c | c in cells :: c in grid && grid[c]
    requires forall i, j | 0 <= i < j < |cells| :: cells[i] != cells[j]
    ensures AlreadyFree(grid, cells) == []
  {
    if cells != [] {
      var prior := cells[..|cells| - 1];
      assert cells[|cells| - 1] !in prior;
      AllOccupiedReportsNothing(grid, prior);
    }
  }

  /** unplace on cells that are already free reports every one of them... */
  lemma {:induction false} UnplaceOfFreeCellsReportsAll(grid: map<Cell, bool>, cells: seq<Cell>)
    requires forall c | c in cells :: c in grid && !grid[c]
    ensures AlreadyFree(grid, cells) == cells
  {
    if cells != [] {
      var prior := cells[..|cells| - 1];
      UnplaceOfFreeCellsReportsAll(grid, prior);
      assert prior + [cells[|cells| - 1]] == cells;
    }
  }

  /** ... and still resets them: they were free, so Grid is unchanged. */
  lemma UnplaceOfFreeCellsKeepsGrid(grid: map<Cell, bool>, cells: seq<Cell>)
    requires forall c | c in cells :: c in grid && !grid[c]
    ensures Stamp(grid, cells, false) == grid
  {
    assert Stamp(grid, cells, false).Keys == grid.Keys;
  }

  // ---------------------------------------------------------------------
  // Helpers for the loops

  /** Cell c comes before (x, y) in initGrid's row-by-row order. */
  predicate Before(c: Cell, x: int, y: int)
  {
    c.0 < x || (c.0 == x && c.1 < y)
  }

  /** The maps hold exactly the board cells before (x, y), each free, gray and unowned. */
  ghost predicate FilledUpTo(occ: Occupancy, rows: int, cols: int, x: int, y: int)
  {
    && (forall c :: c in occ.grid <==> c in BoardCells(rows, cols) && Before(c, x, y))
    && occ.colorGrid.Keys == occ.grid.Keys
    && occ.gridToShape.Keys == occ.grid.Keys
    && forall c | c in occ.grid :: !occ.grid[c] && occ.colorGrid[c] == Gray && occ.gridToShape[c] == ""
  }

  lemma BoardCellsMembership(rows: int, cols: int, c: Cell)
    ensures c in BoardCells(rows, cols) <==> InBoard(rows, cols, c)
  {
    if InBoard(rows, cols, c) {
      var (x, y) := c;
      assert 0 <= x < rows && -(x / 2) <= y < cols - x / 2;
    }
  }

  /** The cells (x, lo), ..., (x, lo + n - 1). */
  function RowCells(x: int, lo: int, n: nat): set<Cell>
  {
    set y | lo <= y < lo + n :: (x, y)
  }

  lemma RowCellsMembership(x: int, lo: int, n: nat, c: Cell)
    ensures c in RowCells(x, lo, n) <==> c.0 == x && lo <= c.1 < lo + n
  {
    if c.0 == x && lo <= c.1 < lo + n {
      assert c == (x, c.1);
    }
  }

  lemma {:induction false} RowCellsSize(x: int, lo: int, n: nat)
    ensures |RowCells(x, lo, n)| == n
  {
    if n > 0 {
      assert RowCells(x, lo, n) == RowCells(x, lo, n - 1) + {(x, lo + n - 1)};
      RowCellsSize(x, lo, n - 1);
    }
  }

  /** One more iteration of initGrid's inner loop adds cell (x, y), free, gray and unowned. */
  lemma FillStep(occ: Occupancy, rows: int, cols: int, x: int, y: int)
    requires 0 <= x < rows && -(x / 2) <= y < cols - x / 2
    requires FilledUpTo(occ, rows, cols, x, y)
    ensures FilledUpTo(Occupancy(occ.grid[(x, y) := false], occ.colorGrid[(x, y) := Gray], occ.gridToShape[(x, y) := ""]),
                       rows, cols, x, y + 1)
  {
    BoardCellsMembership(rows, cols, (x, y));
    var next := Occupancy(occ.grid[(x, y) := false], occ.colorGrid[(x, y) := Gray], occ.gridToShape[(x, y) := ""]);
    forall c ensures c in next.grid <==> c in BoardCells(rows, cols) && Before(c, x, y + 1) {
      BoardCellsMembership(rows, cols, c);
    }
  }

  /** Row x is complete when its inner loop ends: the maps hold every cell before row x + 1. */
  lemma FillNextRow(occ: Occupancy, rows: int, cols: int, x: int, y: int)
    requires 0 <= x && y >= cols - x / 2
    requires FilledUpTo(occ, rows, cols, x, y)
    ensures FilledUpTo(occ, rows, cols, x + 1, -((x + 1) / 2))
  {
    forall c | c in BoardCells(rows, cols)
      ensures Before(c, x, y) <==> Before(c, x + 1, -((x + 1) / 2))
    {
      BoardCellsMembership(rows, cols, c);
    }
  }

  /** When the outer loop ends the maps are the blank board. */
  lemma FillDone(occ: Occupancy, rows: int, cols: int, x: int)
    requires x >= 0 && x >= rows
    requires FilledUpTo(occ, rows, cols, x, -(x / 2))
    ensures occ == BlankOcc(rows, cols)
  {
    forall c | c in BoardCells(rows, cols) ensures Before(c, x, -(x / 2)) {
      BoardCellsMembership(rows, cols, c);
    }
    var blank := BlankOcc(rows, cols);
    assert occ.grid.Keys == blank.grid.Keys;
    assert occ.grid == blank.grid;
    assert occ.colorGrid == blank.colorGrid;
    assert occ.gridToShape == blank.gridToShape;
  }

  lemma PlaceNothing(occ: Occupancy, cells: seq<Cell>, color: Color, name: string)
    ensures PlaceOcc(occ, cells[..0], color, name) == occ
  {
    assert PlaceOcc(occ, cells[..0], color, name).grid == occ.grid;
    assert PlaceOcc(occ, cells[..0], color, name).colorGrid == occ.colorGrid;
    assert PlaceOcc(occ, cells[..0], color, name).gridToShape == occ.gridToShape;
  }

  lemma UnplaceNothing(occ: Occupancy, cells: seq<Cell>)
    ensures UnplaceOcc(occ, cells[..0]) == occ
  {
    assert UnplaceOcc(occ, cells[..0]).grid == occ.grid;
    assert UnplaceOcc(occ, cells[..0]).colorGrid == occ.colorGrid;
    assert UnplaceOcc(occ, cells[..0]).gridToShape == occ.gridToShape;
  }

  lemma PlaceLoopStep(start: Occupancy, cells: seq<Cell>, i: int, color: Color, name: string, occ: Occupancy)
    requires 0 <= i < |cells| && occ == PlaceOcc(start, cells[..i], color, name)
    ensures var c := cells[i];
      Occupancy(occ.grid[c := true], occ.colorGrid[c := color], occ.gridToShape[c := name])
      == PlaceOcc(start, cells[..i + 1], color, name)
  {
    PlaceOccStep(start, cells, i, color, name);
  }

  lemma PlaceOccStep(occ: Occupancy, cells: seq<Cell>, i: int, color: Color, name: string)
    requires 0 <= i < |cells|
    ensures var p := PlaceOcc(occ, cells[..i], color, name);
      PlaceOcc(occ, cells[..i + 1], color, name)
      == Occupancy(p.grid[cells[i] := true], p.colorGrid[cells[i] := color], p.gridToShape[cells[i] := name])
  {
    StampStep(occ.grid, cells, i, true);
    StampStep(occ.colorGrid, cells, i, color);
    StampStep(occ.gridToShape, cells, i, name);
  }

  /** One iteration of unplace's loop keeps its invariant. */
  lemma UnplaceLoopStep(start: Occupancy, cells: seq<Cell>, i: int, occ: Occupancy, reported: seq<Cell>)
    requires 0 <= i < |cells|
    requires occ == UnplaceOcc(start, cells[..i]) && reported == AlreadyFree(start.grid, cells[..i])
    ensures var c := cells[i];
      && Occupancy(occ.grid[c := false], occ.colorGrid[c := Gray], occ.gridToShape[c := ""]) == UnplaceOcc(start, cells[..i + 1])
      && reported + (if c in occ.grid && !occ.grid[c] then [c] else []) == AlreadyFree(start.grid, cells[..i + 1])
  {
    UnplaceOccStep(start, cells, i);
    AlreadyFreeStep(start.grid, cells, i);
  }

  lemma UnplaceOccStep(occ: Occupancy, cells: seq<Cell>, i: int)
    requires 0 <= i < |cells|
    ensures var p := UnplaceOcc(occ, cells[..i]);
      UnplaceOcc(occ, cells[..i + 1])
      == Occupancy(p.grid[cells[i] := false], p.colorGrid[cells[i] := Gray], p.gridToShape[cells[i] := ""])
  {
    StampStep(occ.grid, cells, i, false);
    StampStep(occ.colorGrid, cells, i, Gray);
    StampStep(occ.gridToShape, cells, i, "");
  }

  lemma AlreadyFreeStep(grid: map<Cell, bool>, cells: seq<Cell>, i: int)
    requires 0 <= i < |cells|
    ensures var g := Stamp(grid, cells[..i], false);
      AlreadyFree(grid, cells[..i + 1])
      == AlreadyFree(grid, cells[..i]) + (if cells[i] in g && !g[cells[i]] then [cells[i]] else [])
  {
    assert cells[..i + 1][..i] == cells[..i];
  }

  lemma StampStep<K, V>(m: map<K, V>, cells: seq<K>, i: int, v: V)
    requires 0 <= i < |cells|
    ensures Stamp(m, cells[..i + 1], v) == Stamp(m, cells[..i], v)[cells[i] := v]
  {
    assert cells[..i + 1] == cells[..i] + [cells[i]];
    StampAppend(m, cells[..i], cells[i], v);
  }

  lemma StampAppend<K, V>(m: map<K, V>, cells: seq<K>, k: K, v: V)
    ensures Stamp(m, cells + [k], v) == Stamp(m, cells, v)[k := v]
  {
  }
}
