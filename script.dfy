/**
 * script.js, the earlier variant of the packer: a fixed 10 x 10 rectangular
 * board, the two maps `Grid` and `colorGrid` keyed by the string SKey(x, y),
 * a search over translations only, and an `unplace` whose comma expression
 * turns every translated cell into a single number, so that it only ever
 * writes the key "undefined,undefined".
 */
module Script {
  import opened Keys
  import opened Hex
  import opened Packer

  /** script.js fixes the board size. */
  const Rows: int := 10
  const Cols: int := 10

  /** Grid: key -> occupied; colorGrid: key -> colour. */
  datatype Tiles = Tiles(grid: map<string, bool>, colorGrid: map<string, Color>)

  /** The keys SKey(pos[0], pos[1]) of the shape translated by (dx, dy). */
  function KeysAt(shape: Shape, dx: int, dy: int): (keys: seq<string>)
    ensures |keys| == |shape|
  {
    seq(|shape|, i requires 0 <= i < |shape| => SKey(shape[i].0 + dx, shape[i].1 + dy))
  }

  /** Every key is present in Grid and holds false. */
  predicate AllFree(grid: map<string, bool>, keys: seq<string>)
  {
    forall k :: k in keys ==> k in grid && !grid[k]
  }

  /** The state after a successful place. */
  function PlaceTiles(t: Tiles, keys: seq<string>, color: Color): Tiles
  {
    Tiles(Stamp(t.grid, keys, true), Stamp(t.colorGrid, keys, color))
  }

  /**
   * The state after unplace as written: each `pos` is the number
   * pos[1] + offsety, so SKey(pos[0], pos[1]) is "undefined,undefined" for
   * every cell, and only that key is set (once per cell, to the same values).
   */
  function UnplaceAsWritten(t: Tiles, shape: Shape): Tiles
  {
    if shape == [] then t
    else Tiles(t.grid[UndefinedKey := false], t.colorGrid[UndefinedKey := Gray])
  }

  /**
   * How many times unplace as written logs "hex is already False": at the
   * first cell when the key is present and false, at every later cell
   * because the first one set it to false.
   */
  function ReportsAsWritten(grid: map<string, bool>, n: nat): nat
  {
    if n == 0 then 0
    else if UndefinedKey in grid && !grid[UndefinedKey] then n
    else n - 1
  }

  /**
   * Every key of `keys` set to free and gray: what initGrid does to the board
   * keys, and the state unplace was evidently meant to leave.
   */
  function Cleared(t: Tiles, keys: seq<string>): Tiles
  {
    Tiles(Stamp(t.grid, keys, false), Stamp(t.colorGrid, keys, Gray))
  }

  // ---------------------------------------------------------------------
  // The keys initGrid writes

  /** SKey(x, 0), ..., SKey(x, n - 1). */
  function RowKeys(x: int, n: nat): seq<string>
  {
    seq(n, y requires 0 <= y < n => SKey(x, y))
  }

  /** The keys initGrid writes for rows 0 .. x - 1, in the order it writes them. */
  function GridKeys(x: nat, cols: nat): seq<string>
    decreases x
  {
    if x == 0 then [] else GridKeys(x - 1, cols) + RowKeys(x - 1, cols)
  }

  ghost predicate IsBoardKey(rows: int, cols: int, k: string)
  {
    exists x, y :: 0 <= x < rows && 0 <= y < cols && k == SKey(x, y)
  }

  /** The keys initGrid writes are exactly SKey(x, y) for 0 <= x < rows, 0 <= y < cols. */
  lemma {:induction false} GridKeysAreBoardKeys(rows: nat, cols: nat, k: string)
    ensures k in GridKeys(rows, cols) <==> IsBoardKey(rows, cols, k)
  {
    if rows > 0 {
      GridKeysAreBoardKeys(rows - 1, cols, k);
      assert k in GridKeys(rows, cols) <==> k in GridKeys(rows - 1, cols) || k in RowKeys(rows - 1, cols);
      if k in RowKeys(rows - 1, cols) {
        LastRowKeyIsBoardKey(rows, cols, k);
      }
      if IsBoardKey(rows - 1, cols, k) {
        EarlierRowKeyIsBoardKey(rows, cols, k);
      }
      if IsBoardKey(rows, cols, k) {
        BoardKeyByRow(rows, cols, k);
      }
    }
  }

  lemma LastRowKeyIsBoardKey(rows: nat, cols: nat, k: string)
    requires rows > 0 && k in RowKeys(rows - 1, cols)
    ensures IsBoardKey(rows, cols, k)
  {
    var y :| 0 <= y < cols && RowKeys(rows - 1, cols)[y] == k;
    assert k == SKey(rows - 1, y);
  }

  lemma EarlierRowKeyIsBoardKey(rows: nat, cols: nat, k: string)
    requires rows > 0 && IsBoardKey(rows - 1, cols, k)
    ensures IsBoardKey(rows, cols, k)
  {
    var x, y :| 0 <= x < rows - 1 && 0 <= y < cols && k == SKey(x, y);
    assert 0 <= x < rows;
  }

  lemma BoardKeyByRow(rows: nat, cols: nat, k: string)
    requires rows > 0 && IsBoardKey(rows, cols, k)
    ensures IsBoardKey(rows - 1, cols, k) || k in RowKeys(rows - 1, cols)
  {
    var x, y :| 0 <= x < rows && 0 <= y < cols && k == SKey(x, y);
    if x == rows - 1 {
      assert RowKeys(rows - 1, cols)[y] == k;
    }
  }

  /**
   * initGrid sets every board key to false and gray; every other key keeps
   * its presence and its value (nothing is cleared).
   */
  lemma InitGridSetsBoardKeys(m: map<string, bool>, k: string)
    ensures var g := Stamp(m, GridKeys(Rows, Cols), false);
      && (k in g <==> k in m || IsBoardKey(Rows, Cols, k))
      && (IsBoardKey(Rows, Cols, k) ==> !g[k])
      && (k in m && !IsBoardKey(Rows, Cols, k) ==> g[k] == m[k])
  {
    GridKeysAreBoardKeys(Rows, Cols, k);
  }

  lemma InitGridStep(t: Tiles, x: nat, y: nat, cols: nat)
    ensures var u := Cleared(t, GridKeys(x, cols) + RowKeys(x, y));
      Cleared(t, GridKeys(x, cols) + RowKeys(x, y + 1))
        == Tiles(u.grid[SKey(x, y) := false], u.colorGrid[SKey(x, y) := Gray])
  {
    var keys := GridKeys(x, cols) + RowKeys(x, y);
    assert GridKeys(x, cols) + RowKeys(x, y + 1) == keys + [SKey(x, y)];
    StampAppend(t.grid, keys, SKey(x, y), false);
    StampAppend(t.colorGrid, keys, SKey(x, y), Gray);
  }

  lemma InitGridRowStart(t: Tiles, x: nat, cols: nat)
    ensures Cleared(t, GridKeys(x, cols) + RowKeys(x, 0)) == Cleared(t, GridKeys(x, cols))
  {
    assert GridKeys(x, cols) + RowKeys(x, 0) == GridKeys(x, cols);
  }

  lemma InitGridRowEnd(t: Tiles, x: nat, cols: nat)
    ensures Cleared(t, GridKeys(x, cols) + RowKeys(x, cols)) == Cleared(t, GridKeys(x + 1, cols))
  {
  }

  // ---------------------------------------------------------------------
  // The search

  datatype Attempt = Attempt(solved: bool, tiles: Tiles)

  /** place_shapes(shapes, colors, show_steps) on the maps `t`. */
  function Solve(t: Tiles, shapes: seq<Shape>, colors: seq<Color>, showSteps: bool): Attempt
    requires |colors| >= |shapes|
    decreases |shapes|, 1, 0, 0, 0
  {
    if |shapes| == 0 then Attempt(true, t)
    else Sweep(t, shapes, colors, showSteps, -Cols, -Rows)
  }

  /** The rest of the two loops from offsetx == ox, offsety == oy. */
  function Sweep(t: Tiles, shapes: seq<Shape>, colors: seq<Color>, showSteps: bool, ox: int, oy: int): Attempt
    requires shapes != [] && |colors| >= |shapes|
    decreases |shapes|, 0, Cols - ox, Rows - oy, 1
  {
    if ox >= Cols then Attempt(false, t)
    else if oy >= Rows then Sweep(t, shapes, colors, showSteps, ox + 1, -Rows)
    else TryAt(t, shapes, colors, showSteps, ox, oy)
  }

  /**
   * The body of the inner loop: with show_steps, the first successful place
   * ends the search with false and the placement left in; otherwise recurse
   * (with show_steps defaulted to false), and after a failure unplace as
   * written and go on.
   */
  function TryAt(t: Tiles, shapes: seq<Shape>, colors: seq<Color>, showSteps: bool, ox: int, oy: int): Attempt
    requires shapes != [] && |colors| >= |shapes|
    requires ox < Cols && oy < Rows
    decreases |shapes|, 0, Cols - ox, Rows - oy, 0
  {
    var keys := KeysAt(shapes[0], ox, oy);
    if AllFree(t.grid, keys) then
      var placed := PlaceTiles(t, keys, colors[0]);
      if showSteps then Attempt(false, placed)
      else
        var sub := Solve(placed, shapes[1..], colors[1..], false);
        if sub.solved then sub
        else Sweep(UnplaceAsWritten(sub.tiles, shapes[0]), shapes, colors, showSteps, ox, oy + 1)
    else Sweep(t, shapes, colors, showSteps, ox, oy + 1)
  }

  // ---------------------------------------------------------------------
  // The mutable page state

  class Page {
    var grid: map<string, bool>
    var colorGrid: map<string, Color>

    function State(): Tiles
      reads this
    {
      Tiles(grid, colorGrid)
    }

    /** The module's initial state: both maps empty. */
    constructor ()
      ensures State() == Tiles(map[], map[])
    {
      grid, colorGrid := map[], map[];
    }

    /** initGrid: set SKey(x, y) to false and gray row by row, without clearing. */
    method InitGrid()
      modifies this
      ensures State() == Cleared(old(State()), GridKeys(Rows, Cols))
    {
      var rows, cols: nat := Rows, Cols;
      ghost var start := State();
      var t := State();
      var x := 0;
      assert GridKeys(0, cols) == [];
      while x < rows
        invariant 0 <= x <= rows
        invariant t == Cleared(start, GridKeys(x, cols))
        modifies {}
      {
        var y := 0;
        InitGridRowStart(start, x, cols);
        while y < cols
          invariant 0 <= y <= cols
          invariant t == Cleared(start, GridKeys(x, cols) + RowKeys(x, y))
          modifies {}
        {
          InitGridStep(start, x, y, cols);
          t := Tiles(t.grid[SKey(x, y) := false], t.colorGrid[SKey(x, y) := Gray]);
          y := y + 1;
        }
        InitGridRowEnd(start, x, cols);
        x := x + 1;
      }
      grid, colorGrid := t.grid, t.colorGrid;
    }

    /** place(shape, offsetx, offsety, colors) */
    method Place(shape: Shape, offsetx: int, offsety: int, colors: seq<Color>) returns (placed: bool)
      requires |colors| > 0
      modifies this
      ensures placed == AllFree(old(grid), KeysAt(shape, offsetx, offsety))
      ensures State() == if placed then PlaceTiles(old(State()), KeysAt(shape, offsetx, offsety), colors[0])
                         else old(State())
    {
      var keys := KeysAt(shape, offsetx, offsety);
      var valid := forall i | 0 <= i < |keys| :: keys[i] in grid && !grid[keys[i]];
      if !valid {
        return false;
      }
      var i := 0;
      while i < |keys|
        invariant 0 <= i <= |keys|
        invariant grid == Stamp(old(grid), keys[..i], true)
        invariant colorGrid == Stamp(old(colorGrid), keys[..i], colors[0])
      {
        StampStep(old(grid), keys, i, true);
        StampStep(old(colorGrid), keys, i, colors[0]);
        grid := grid[keys[i] := true];
        colorGrid := colorGrid[keys[i] := colors[0]];
        i := i + 1;
      }
      assert keys[..i] == keys;
      return true;
    }

    /**
     * unplace(shape, offsetx, offsety) as written; the number of
     * "already False" reports is returned.
     */
    method Unplace(shape: Shape, offsetx: int, offsety: int) returns (reported: nat)
      modifies this
      ensures State() == UnplaceAsWritten(old(State()), shape)
      ensures reported == ReportsAsWritten(old(grid), |shape|)
    {
      // (pos[0] + offsetx, pos[1] + offsety) evaluates to its last operand
      var newShape := seq(|shape|, i requires 0 <= i < |shape| => shape[i].1 + offsety);
      reported := 0;
      var i := 0;
      while i < |newShape|
        invariant 0 <= i <= |newShape|
        invariant State() == UnplaceAsWritten(old(State()), shape[..i])
        invariant reported == ReportsAsWritten(old(grid), i)
      {
        // a number has no elements: pos[0] and pos[1] are undefined
        var key := UndefinedKey;
        if key in grid && !grid[key] {
          reported := reported + 1;
        }
        grid := grid[key := false];
        colorGrid := colorGrid[key := Gray];
        i := i + 1;
      }
      assert shape[..i] == shape;
    }

    /** place_shapes(shapes, colors, show_steps) */
    method PlaceShapes(shapes: seq<Shape>, colors: seq<Color>, showSteps: bool) returns (solved: bool)
      requires |colors| >= |shapes|
      modifies this
      decreases |shapes|, 1
      ensures solved == Solve(old(State()), shapes, colors, showSteps).solved
      ensures State() == Solve(old(State()), shapes, colors, showSteps).tiles
    {
      if |shapes| == 0 {
        return true;
      }
      ghost var goal := Solve(State(), shapes, colors, showSteps);
      var offsetx := -Cols;
      while offsetx < Cols
        invariant goal == Sweep(State(), shapes, colors, showSteps, offsetx, -Rows)
      {
        var stop;
        stop, solved := SweepColumn(shapes, colors, showSteps, offsetx);
        if stop {
          return;
        }
        offsetx := offsetx + 1;
      }
      return false;
    }

    /**
     * The inner loop of place_shapes for one offsetx; `stop` says that
     * place_shapes returns `solved` from inside it.
     */
    method SweepColumn(shapes: seq<Shape>, colors: seq<Color>, showSteps: bool, offsetx: int)
      returns (stop: bool, solved: bool)
      requires shapes != [] && |colors| >= |shapes| && offsetx < Cols
      modifies this
      decreases |shapes|, 0
      ensures var r := Sweep(old(State()), shapes, colors, showSteps, offsetx, -Rows);
        if stop then solved == r.solved && State() == r.tiles
        else r == Sweep(State(), shapes, colors, showSteps, offsetx + 1, -Rows)
    {
      ghost var goal := Sweep(State(), shapes, colors, showSteps, offsetx, -Rows);
      var offsety := -Rows;
      while offsety < Rows
        invariant goal == Sweep(State(), shapes, colors, showSteps, offsetx, offsety)
      {
        ghost var t := State();
        SweepAt(t, shapes, colors, showSteps, offsetx, offsety);
        var placed := Place(shapes[0], offsetx, offsety, colors);
        if placed {
          if showSteps {
            return true, false;
          }
          ghost var sub := Solve(State(), shapes[1..], colors[1..], false);
          var res := PlaceShapes(shapes[1..], colors[1..], false);
          assert res == sub.solved && State() == sub.tiles;
          if res {
            return true, true;
          }
          var reported := Unplace(shapes[0], offsetx, offsety);
        }
        offsety := offsety + 1;
      }
      return false, false;
    }
  }

  /** One step of the inner loop: Sweep at a cursor inside the window is TryAt there. */
  lemma SweepAt(t: Tiles, shapes: seq<Shape>, colors: seq<Color>, showSteps: bool, ox: int, oy: int)
    requires shapes != [] && |colors| >= |shapes| && ox < Cols && oy < Rows
    ensures Sweep(t, shapes, colors, showSteps, ox, oy) == TryAt(t, shapes, colors, showSteps, ox, oy)
  {
  }

  // ---------------------------------------------------------------------
  // show_steps: the first fitting translation is placed and false returned

  /** place would succeed for `shape` at (ox, oy), a translation the loops try. */
  predicate FitsAt(t: Tiles, shape: Shape, ox: int, oy: int)
  {
    -Cols <= ox < Cols && -Rows <= oy < Rows && AllFree(t.grid, KeysAt(shape, ox, oy))
  }

  /** (x1, y1) comes before (x2, y2) in the loops' order: offsetx outer, offsety inner, both ascending. */
  predicate TriedBefore(x1: int, y1: int, x2: int, y2: int)
  {
    x1 < x2 || (x1 == x2 && y1 < y2)
  }

  /**
   * With show_steps, place_shapes leaves the first shape at the first
   * translation, in loop order, where it fits, and returns false.
   */
  lemma ShowStepsPlacesFirstFit(t: Tiles, shapes: seq<Shape>, colors: seq<Color>, ox: int, oy: int)
    requires shapes != [] && |colors| >= |shapes|
    requires FitsAt(t, shapes[0], ox, oy)
    requires forall ex, ey | TriedBefore(ex, ey, ox, oy) :: !FitsAt(t, shapes[0], ex, ey)
    ensures Solve(t, shapes, colors, true) == Attempt(false, PlaceTiles(t, KeysAt(shapes[0], ox, oy), colors[0]))
  {
    SweepShowStepsFirstFit(t, shapes, colors, -Cols, -Rows, ox, oy);
  }

  lemma {:induction false} SweepShowStepsFirstFit(t: Tiles, shapes: seq<Shape>, colors: seq<Color>,
                                                  cx: int, cy: int, ox: int, oy: int)
    requires shapes != [] && |colors| >= |shapes|
    requires -Cols <= cx && -Rows <= cy && !TriedBefore(ox, oy, cx, cy)
    requires FitsAt(t, shapes[0], ox, oy)
    requires forall ex, ey | TriedBefore(ex, ey, ox, oy) :: !FitsAt(t, shapes[0], ex, ey)
    ensures Sweep(t, shapes, colors, true, cx, cy) == Attempt(false, PlaceTiles(t, KeysAt(shapes[0], ox, oy), colors[0]))
    decreases Cols - cx, Rows - cy
  {
    if cy >= Rows {
      SweepShowStepsFirstFit(t, shapes, colors, cx + 1, -Rows, ox, oy);
    } else if cx != ox || cy != oy {
      assert !FitsAt(t, shapes[0], cx, cy);
      SweepShowStepsFirstFit(t, shapes, colors, cx, cy + 1, ox, oy);
    }
  }

  /** With show_steps, when the first shape fits nowhere, place_shapes returns false and changes nothing. */
  lemma ShowStepsWithoutFit(t: Tiles, shapes: seq<Shape>, colors: seq<Color>)
    requires shapes != [] && |colors| >= |shapes|
    requires forall ex, ey :: !FitsAt(t, shapes[0], ex, ey)
    ensures Solve(t, shapes, colors, true) == Attempt(false, t)
  {
    SweepShowStepsWithoutFit(t, shapes, colors, -Cols, -Rows);
  }

  lemma {:induction false} SweepShowStepsWithoutFit(t: Tiles, shapes: seq<Shape>, colors: seq<Color>, cx: int, cy: int)
    requires shapes != [] && |colors| >= |shapes|
    requires -Cols <= cx && -Rows <= cy
    requires forall ex, ey :: !FitsAt(t, shapes[0], ex, ey)
    ensures Sweep(t, shapes, colors, true, cx, cy) == Attempt(false, t)
    decreases Cols - cx, Rows - cy
  {
    if cx >= Cols {
    } else if cy >= Rows {
      SweepShowStepsWithoutFit(t, shapes, colors, cx + 1, -Rows);
    } else {
      assert !FitsAt(t, shapes[0], cx, cy);
      SweepShowStepsWithoutFit(t, shapes, colors, cx, cy + 1);
    }
  }

  // ---------------------------------------------------------------------
  // Nothing is ever freed

  /**
   * place_shapes never removes a key, and a cell key that is occupied stays
   * occupied, whatever the outcome: unplace as written frees nothing.
   */
  lemma {:induction false} SolveKeepsOccupied(t: Tiles, shapes: seq<Shape>, colors: seq<Color>, showSteps: bool, k: string)
    requires |colors| >= |shapes| && k in t.grid
    ensures var r := Solve(t, shapes, colors, showSteps);
      k in r.tiles.grid && (t.grid[k] && k != UndefinedKey ==> r.tiles.grid[k])
    decreases |shapes|, 1, 0, 0, 0
  {
    if |shapes| > 0 {
      SweepKeepsOccupied(t, shapes, colors, showSteps, -Cols, -Rows, k);
    }
  }

  lemma {:induction false} SweepKeepsOccupied(t: Tiles, shapes: seq<Shape>, colors: seq<Color>, showSteps: bool,
                                              ox: int, oy: int, k: string)
    requires shapes != [] && |colors| >= |shapes| && k in t.grid
    ensures var r := Sweep(t, shapes, colors, showSteps, ox, oy);
      k in r.tiles.grid && (t.grid[k] && k != UndefinedKey ==> r.tiles.grid[k])
    decreases |shapes|, 0, Cols - ox, Rows - oy, 1
  {
    if ox >= Cols {
    } else if oy >= Rows {
      SweepKeepsOccupied(t, shapes, colors, showSteps, ox + 1, -Rows, k);
    } else {
      TryAtKeepsOccupied(t, shapes, colors, showSteps, ox, oy, k);
    }
  }

  lemma {:induction false} TryAtKeepsOccupied(t: Tiles, shapes: seq<Shape>, colors: seq<Color>, showSteps: bool,
                                              ox: int, oy: int, k: string)
    requires shapes != [] && |colors| >= |shapes| && k in t.grid
    requires ox < Cols && oy < Rows
    ensures var r := TryAt(t, shapes, colors, showSteps, ox, oy);
      k in r.tiles.grid && (t.grid[k] && k != UndefinedKey ==> r.tiles.grid[k])
    decreases |shapes|, 0, Cols - ox, Rows - oy, 0
  {
    var keys := KeysAt(shapes[0], ox, oy);
    if AllFree(t.grid, keys) {
      var placed := PlaceTiles(t, keys, colors[0]);
      if !showSteps {
        var sub := Solve(placed, shapes[1..], colors[1..], false);
        SolveKeepsOccupied(placed, shapes[1..], colors[1..], false, k);
        if !sub.solved {
          var next := UnplaceAsWritten(sub.tiles, shapes[0]);
          SweepKeepsOccupied(next, shapes, colors, showSteps, ox, oy + 1, k);
        }
      }
    } else {
      SweepKeepsOccupied(t, shapes, colors, showSteps, ox, oy + 1, k);
    }
  }

  // ---------------------------------------------------------------------
  // unplace as written, and as intended

  /** Every key of a translated cell differs from "undefined,undefined". */
  lemma CellKeysAreDefined(shape: Shape, dx: int, dy: int)
    ensures UndefinedKey !in KeysAt(shape, dx, dy)
  {
    forall i | 0 <= i < |shape| ensures KeysAt(shape, dx, dy)[i] != UndefinedKey {
      UndefinedKeyIsNoCellKey(shape[i].0 + dx, shape[i].1 + dy);
    }
  }

  /**
   * place followed by unplace as written leaves every cell of the shape
   * occupied, so the maps are not restored.
   */
  lemma UnplaceLeavesShapeOccupied(t: Tiles, shape: Shape, ox: int, oy: int, color: Color)
    requires shape != [] && AllFree(t.grid, KeysAt(shape, ox, oy))
    ensures var after := UnplaceAsWritten(PlaceTiles(t, KeysAt(shape, ox, oy), color), shape);
      && (forall k | k in KeysAt(shape, ox, oy) :: k in after.grid && after.grid[k])
      && after != t
  {
    var keys := KeysAt(shape, ox, oy);
    CellKeysAreDefined(shape, ox, oy);
    assert keys[0] in keys;
  }

  /**
   * A failed place_shapes (show_steps false) leaves the maps changed as soon
   * as the first shape fits somewhere: the cells of the first placement it
   * tried are never freed.
   */
  lemma FailedSearchLeavesPlacement(t: Tiles, shapes: seq<Shape>, colors: seq<Color>, ox: int, oy: int)
    requires |colors| >= |shapes| && shapes != [] && shapes[0] != []
    requires FitsAt(t, shapes[0], ox, oy)
    ensures var r := Solve(t, shapes, colors, false); r.solved || r.tiles != t
  {
    SweepLeavesPlacement(t, shapes, colors, -Cols, -Rows, ox, oy);
  }

  lemma {:induction false} SweepLeavesPlacement(t: Tiles, shapes: seq<Shape>, colors: seq<Color>,
                                                cx: int, cy: int, ox: int, oy: int)
    requires |colors| >= |shapes| && shapes != [] && shapes[0] != []
    requires FitsAt(t, shapes[0], ox, oy) && !TriedBefore(ox, oy, cx, cy)
    ensures var r := Sweep(t, shapes, colors, false, cx, cy); r.solved || r.tiles != t
    decreases Cols - cx, Rows - cy
  {
    if cy >= Rows {
      SweepLeavesPlacement(t, shapes, colors, cx + 1, -Rows, ox, oy);
    } else {
      var keys := KeysAt(shapes[0], cx, cy);
      if AllFree(t.grid, keys) {
        var placed := PlaceTiles(t, keys, colors[0]);
        var sub := Solve(placed, shapes[1..], colors[1..], false);
        if !sub.solved {
          var k := keys[0];
          CellKeysAreDefined(shapes[0], cx, cy);
          assert k in keys && k != UndefinedKey;
          SolveKeepsOccupied(placed, shapes[1..], colors[1..], false, k);
          var next := UnplaceAsWritten(sub.tiles, shapes[0]);
          SweepKeepsOccupied(next, shapes, colors, false, cx, cy + 1, k);
          assert !t.grid[k];
        }
      } else {
        SweepLeavesPlacement(t, shapes, colors, cx, cy + 1, ox, oy);
      }
    }
  }

  /** Every key has a colour, and a free key is gray. */
  predicate Tidy(t: Tiles)
  {
    && t.colorGrid.Keys == t.grid.Keys
    && forall k | k in t.grid && !t.grid[k] :: t.colorGrid[k] == Gray
  }

  /** The intended unplace undoes a successful place exactly. */
  lemma PlaceThenIntendedUnplaceRestores(t: Tiles, keys: seq<string>, color: Color)
    requires Tidy(t) && AllFree(t.grid, keys)
    ensures Cleared(PlaceTiles(t, keys, color), keys) == t
  {
    var after := Cleared(PlaceTiles(t, keys, color), keys);
    assert after.grid == t.grid;
    assert after.colorGrid == t.colorGrid;
  }

  /** initGrid keeps the maps tidy. */
  lemma InitGridKeepsTidy(t: Tiles)
    requires Tidy(t)
    ensures Tidy(Tiles(Stamp(t.grid, GridKeys(Rows, Cols), false), Stamp(t.colorGrid, GridKeys(Rows, Cols), Gray)))
  {
  }
}
