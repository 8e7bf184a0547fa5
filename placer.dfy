/**
 * The backtracking placer `place_shapes` of functions.js (with show_steps
 * false): rotation count 0..5 outermost, then offsetx over [-cols, cols),
 * then offsety over [-rows, rows), committing with `place`, recursing on the
 * remaining shapes and undoing with `unplace` when the recursion fails.
 *
 * `SolveFrom` and `Search` are the search as recursive functions over the
 * loop cursor (i, offsetx, offsety); `PlaceShapes` is the loop program on a
 * Board, proved to compute exactly what they describe. The lemmas state what
 * the search guarantees: failure leaves the board as it was, success leaves
 * every shape placed on free cells and owned by its name, and the placement
 * chosen for the first shape is the first one in search order from which the
 * rest can be packed.
 */
module Placer {
  import opened Hex
  import opened Packer

  /** A committed placement of one shape: how often it was rotated, and its offsets. */
  datatype Choice = Choice(rotation: nat, offsetX: int, offsetY: int)

  /** What place_shapes returns, the maps it leaves, and the placements it kept (one per shape). */
  datatype Outcome = Outcome(solved: bool, occ: Occupancy, choices: seq<Choice>)

  /** Every shape has its colour and its name (place reads colors[0] and shape_names[0]). */
  predicate Supplied(shapes: seq<Shape>, colors: seq<Color>, names: seq<string>)
  {
    |colors| >= |shapes| && |names| >= |shapes|
  }

  // ---------------------------------------------------------------------
  // The search

  /** place_shapes(shapes, colors, shape_names) on the maps `occ` of a rows x cols board. */
  function SolveFrom(occ: Occupancy, shapes: seq<Shape>, colors: seq<Color>, names: seq<string>,
                     rows: int, cols: int): Outcome
    requires Supplied(shapes, colors, names)
    decreases |shapes|, 1, 0, 0, 0, 0
  {
    if |shapes| == 0 then Outcome(true, occ, [])
    else Search(occ, shapes, colors, names, rows, cols, shapes[0], 0, -cols, -rows)
  }

  /**
   * The rest of place_shapes' loops, from rotation count i (with `current`
   * the shape rotated that often), offsetx == ox and offsety == oy: the
   * cursor moves on when a loop bound is reached.
   */
  function Search(occ: Occupancy, shapes: seq<Shape>, colors: seq<Color>, names: seq<string>,
                  rows: int, cols: int, current: Shape, i: nat, ox: int, oy: int): Outcome
    requires shapes != [] && Supplied(shapes, colors, names)
    decreases |shapes|, 0, 6 - i, cols - ox, rows - oy, 1
  {
    if i >= 6 then Outcome(false, occ, [])
    else if ox >= cols then Search(occ, shapes, colors, names, rows, cols, RotatedShape(current), i + 1, -cols, -rows)
    else if oy >= rows then Search(occ, shapes, colors, names, rows, cols, current, i, ox + 1, -rows)
    else TryAt(occ, shapes, colors, names, rows, cols, current, i, ox, oy)
  }

  /**
   * The body of the innermost loop: try to place `current` at (ox, oy); on
   * success recurse on the remaining shapes, and if they cannot be placed,
   * unplace and go on with the next offsety.
   */
  function TryAt(occ: Occupancy, shapes: seq<Shape>, colors: seq<Color>, names: seq<string>,
                 rows: int, cols: int, current: Shape, i: nat, ox: int, oy: int): Outcome
    requires shapes != [] && Supplied(shapes, colors, names)
    requires i < 6 && ox < cols && oy < rows
    decreases |shapes|, 0, 6 - i, cols - ox, rows - oy, 0
  {
    var cells := Translate(current, ox, oy);
    if CanPlace(occ.grid, cells) then
      var sub := SolveFrom(PlaceOcc(occ, cells, colors[0], names[0]), shapes[1..], colors[1..], names[1..], rows, cols);
      if sub.solved then Outcome(true, sub.occ, [Choice(i, ox, oy)] + sub.choices)
      else Search(UnplaceOcc(sub.occ, cells), shapes, colors, names, rows, cols, current, i, ox, oy + 1)
    else Search(occ, shapes, colors, names, rows, cols, current, i, ox, oy + 1)
  }

  // ---------------------------------------------------------------------
  // The loop program

  /** place_shapes with show_steps false, on the board's maps and its rows and cols. */
  method PlaceShapes(board: Board, shapes: seq<Shape>, colors: seq<Color>, names: seq<string>)
    returns (solved: bool)
    requires Supplied(shapes, colors, names)
    modifies board
    decreases |shapes|, 1
    ensures board.rows == old(board.rows) && board.cols == old(board.cols)
    ensures solved == SolveFrom(old(board.Occ()), shapes, colors, names, board.rows, board.cols).solved
    ensures board.Occ() == SolveFrom(old(board.Occ()), shapes, colors, names, board.rows, board.cols).occ
  {
    if |shapes| == 0 {
      return true;
    }
    var rows, cols := board.rows, board.cols;
    ghost var goal := SolveFrom(board.Occ(), shapes, colors, names, rows, cols);
    var current := shapes[0];
    var i := 0;
    while i < 6
      invariant 0 <= i <= 6
      invariant board.rows == rows && board.cols == cols
      invariant goal == Search(board.Occ(), shapes, colors, names, rows, cols, current, i, -cols, -rows)
    {
      var offsetx := -cols;
      while offsetx < cols
        invariant board.rows == rows && board.cols == cols
        invariant goal == Search(board.Occ(), shapes, colors, names, rows, cols, current, i, offsetx, -rows)
      {
        var res := SweepOffsetY(board, shapes, colors, names, current, i, offsetx);
        if res {
          return true;
        }
        offsetx := offsetx + 1;
      }
      SearchStepsRotation(board.Occ(), shapes, colors, names, rows, cols, current, i, offsetx, -rows);
      current := RotateShapeAroundCenter(current);
      i := i + 1;
    }
    SearchExhausted(board.Occ(), shapes, colors, names, rows, cols, current, i, -cols, -rows);
    return false;
  }

  /**
   * The innermost loop of place_shapes, over offsety for rotation count i and
   * one offsetx: a success ends the whole search; otherwise the search goes
   * on from the next offsetx with the maps the loop leaves.
   */
  method SweepOffsetY(board: Board, shapes: seq<Shape>, colors: seq<Color>, names: seq<string>,
                      current: Shape, i: nat, offsetx: int)
    returns (solved: bool)
    requires shapes != [] && Supplied(shapes, colors, names)
    requires i < 6 && offsetx < board.cols
    modifies board
    decreases |shapes|, 0
    ensures board.rows == old(board.rows) && board.cols == old(board.cols)
    ensures var r := Search(old(board.Occ()), shapes, colors, names, board.rows, board.cols, current, i, offsetx, -board.rows);
      if solved then r.solved && board.Occ() == r.occ
      else r == Search(board.Occ(), shapes, colors, names, board.rows, board.cols, current, i, offsetx + 1, -board.rows)
  {
    var rows, cols := board.rows, board.cols;
    ghost var goal := Search(board.Occ(), shapes, colors, names, rows, cols, current, i, offsetx, -rows);
    var offsety := -rows;
    while offsety < rows
      invariant board.rows == rows && board.cols == cols
      invariant goal == Search(board.Occ(), shapes, colors, names, rows, cols, current, i, offsetx, offsety)
    {
      ghost var occ := board.Occ();
      ghost var cells := Translate(current, offsetx, offsety);
      var placed := board.Place(current, offsetx, offsety, colors, names[0]);
      if placed {
        SearchAtPlaceable(occ, shapes, colors, names, rows, cols, current, i, offsetx, offsety);
        ghost var sub := SolveFrom(board.Occ(), shapes[1..], colors[1..], names[1..], rows, cols);
        var res := PlaceShapes(board, shapes[1..], colors[1..], names[1..]);
        assert res == sub.solved && board.Occ() == sub.occ;
        if res {
          return true;
        }
        var reported := board.Unplace(current, offsetx, offsety);
        assert board.Occ() == UnplaceOcc(sub.occ, cells);
      } else {
        SearchAtUnplaceable(occ, shapes, colors, names, rows, cols, current, i, offsetx, offsety);
      }
      offsety := offsety + 1;
    }
    SearchStepsColumn(board.Occ(), shapes, colors, names, rows, cols, current, i, offsetx, offsety);
    return false;
  }

  /** Where the shape fits, the search commits to it and either keeps the recursive call's success or undoes it and moves on. */
  lemma SearchAtPlaceable(occ: Occupancy, shapes: seq<Shape>, colors: seq<Color>, names: seq<string>,
                          rows: int, cols: int, current: Shape, i: nat, ox: int, oy: int)
    requires shapes != [] && Supplied(shapes, colors, names)
    requires i < 6 && ox < cols && oy < rows
    requires CanPlace(occ.grid, Translate(current, ox, oy))
    ensures var cells := Translate(current, ox, oy);
      var sub := SolveFrom(PlaceOcc(occ, cells, colors[0], names[0]), shapes[1..], colors[1..], names[1..], rows, cols);
      Search(occ, shapes, colors, names, rows, cols, current, i, ox, oy)
        == if sub.solved then Outcome(true, sub.occ, [Choice(i, ox, oy)] + sub.choices)
           else Search(UnplaceOcc(sub.occ, cells), shapes, colors, names, rows, cols, current, i, ox, oy + 1)
  {
  }

  /** Where the shape does not fit, the search moves on to the next offsety with the maps untouched. */
  lemma SearchAtUnplaceable(occ: Occupancy, shapes: seq<Shape>, colors: seq<Color>, names: seq<string>,
                            rows: int, cols: int, current: Shape, i: nat, ox: int, oy: int)
    requires shapes != [] && Supplied(shapes, colors, names)
    requires i < 6 && ox < cols && oy < rows
    requires !CanPlace(occ.grid, Translate(current, ox, oy))
    ensures Search(occ, shapes, colors, names, rows, cols, current, i, ox, oy)
         == Search(occ, shapes, colors, names, rows, cols, current, i, ox, oy + 1)
  {
  }

  /** At the end of the offsety loop the search goes on with the next offsetx. */
  lemma SearchStepsColumn(occ: Occupancy, shapes: seq<Shape>, colors: seq<Color>, names: seq<string>,
                          rows: int, cols: int, current: Shape, i: nat, ox: int, oy: int)
    requires shapes != [] && Supplied(shapes, colors, names)
    requires i < 6 && ox < cols && oy >= rows
    ensures Search(occ, shapes, colors, names, rows, cols, current, i, ox, oy)
         == Search(occ, shapes, colors, names, rows, cols, current, i, ox + 1, -rows)
  {
  }

  /** At the end of the offsetx loop the search goes on with the shape rotated once more. */
  lemma SearchStepsRotation(occ: Occupancy, shapes: seq<Shape>, colors: seq<Color>, names: seq<string>,
                            rows: int, cols: int, current: Shape, i: nat, ox: int, oy: int)
    requires shapes != [] && Supplied(shapes, colors, names)
    requires i < 6 && ox >= cols
    ensures Search(occ, shapes, colors, names, rows, cols, current, i, ox, oy)
         == Search(occ, shapes, colors, names, rows, cols, RotatedShape(current), i + 1, -cols, -rows)
  {
  }

  /** After the sixth rotation the search fails with the maps unchanged. */
  lemma SearchExhausted(occ: Occupancy, shapes: seq<Shape>, colors: seq<Color>, names: seq<string>,
                        rows: int, cols: int, current: Shape, i: nat, ox: int, oy: int)
    requires shapes != [] && Supplied(shapes, colors, names) && i >= 6
    ensures Search(occ, shapes, colors, names, rows, cols, current, i, ox, oy) == Outcome(false, occ, [])
  {
  }

  // ---------------------------------------------------------------------
  // Failure leaves the maps as they were

  /** A false result leaves the maps exactly as they were on entry; the board invariant is kept. */
  lemma {:induction false} SolveFromRestoresOnFailure(occ: Occupancy, shapes: seq<Shape>, colors: seq<Color>,
                                                       names: seq<string>, rows: int, cols: int)
    requires Supplied(shapes, colors, names) && Consistent(occ)
    ensures Consistent(SolveFrom(occ, shapes, colors, names, rows, cols).occ)
    ensures !SolveFrom(occ, shapes, colors, names, rows, cols).solved ==> SolveFrom(occ, shapes, colors, names, rows, cols).occ == occ
    decreases |shapes|, 1, 0, 0, 0, 0
  {
    if |shapes| > 0 {
      SearchRestoresOnFailure(occ, shapes, colors, names, rows, cols, shapes[0], 0, -cols, -rows);
    }
  }

  lemma {:induction false} SearchRestoresOnFailure(occ: Occupancy, shapes: seq<Shape>, colors: seq<Color>,
                                                    names: seq<string>, rows: int, cols: int,
                                                    current: Shape, i: nat, ox: int, oy: int)
    requires shapes != [] && Supplied(shapes, colors, names) && Consistent(occ)
    ensures var r := Search(occ, shapes, colors, names, rows, cols, current, i, ox, oy);
      Consistent(r.occ) && (!r.solved ==> r.occ == occ)
    decreases |shapes|, 0, 6 - i, cols - ox, rows - oy, 1
  {
    if i >= 6 {
    } else if ox >= cols {
      assert Search(occ, shapes, colors, names, rows, cols, current, i, ox, oy)
          == Search(occ, shapes, colors, names, rows, cols, RotatedShape(current), i + 1, -cols, -rows);
      SearchRestoresOnFailure(occ, shapes, colors, names, rows, cols, RotatedShape(current), i + 1, -cols, -rows);
    } else if oy >= rows {
      assert Search(occ, shapes, colors, names, rows, cols, current, i, ox, oy)
          == Search(occ, shapes, colors, names, rows, cols, current, i, ox + 1, -rows);
      SearchRestoresOnFailure(occ, shapes, colors, names, rows, cols, current, i, ox + 1, -rows);
    } else {
      assert Search(occ, shapes, colors, names, rows, cols, current, i, ox, oy)
          == TryAt(occ, shapes, colors, names, rows, cols, current, i, ox, oy);
      TryAtRestoresOnFailure(occ, shapes, colors, names, rows, cols, current, i, ox, oy);
    }
  }

  lemma {:induction false} TryAtRestoresOnFailure(occ: Occupancy, shapes: seq<Shape>, colors: seq<Color>,
                                                   names: seq<string>, rows: int, cols: int,
                                                   current: Shape, i: nat, ox: int, oy: int)
    requires shapes != [] && Supplied(shapes, colors, names) && Consistent(occ)
    requires i < 6 && ox < cols && oy < rows
    ensures var r := TryAt(occ, shapes, colors, names, rows, cols, current, i, ox, oy);
      Consistent(r.occ) && (!r.solved ==> r.occ == occ)
    decreases |shapes|, 0, 6 - i, cols - ox, rows - oy, 0
  {
    var cells := Translate(current, ox, oy);
    if CanPlace(occ.grid, cells) {
      var placed := PlaceOcc(occ, cells, colors[0], names[0]);
      PlacePreservesConsistent(occ, cells, colors[0], names[0]);
      SolveFromRestoresOnFailure(placed, shapes[1..], colors[1..], names[1..], rows, cols);
      var sub := SolveFrom(placed, shapes[1..], colors[1..], names[1..], rows, cols);
      if !sub.solved {
        PlaceThenUnplaceRestores(occ, cells, colors[0], names[0]);
        SearchRestoresOnFailure(occ, shapes, colors, names, rows, cols, current, i, ox, oy + 1);
      }
    } else {
      SearchRestoresOnFailure(occ, shapes, colors, names, rows, cols, current, i, ox, oy + 1);
    }
  }

  // ---------------------------------------------------------------------
  // Success is a packing

  /** The cells a shape covers when rotated ch.rotation times and translated by ch's offsets. */
  function Footprint(shape: Shape, ch: Choice): seq<Cell>
  {
    Translate(Rotations(shape, ch.rotation), ch.offsetX, ch.offsetY)
  }

  /** The candidates place_shapes tries: 6 rotations, offsetx in [-cols, cols), offsety in [-rows, rows). */
  predicate InWindow(ch: Choice, rows: int, cols: int)
  {
    ch.rotation < 6 && -cols <= ch.offsetX < cols && -rows <= ch.offsetY < rows
  }

  /**
   * Placing shapes[k] at choices[k], one after the other, each time on cells
   * that are on the board and free, turns `occ` into `final`.
   */
  predicate Packs(occ: Occupancy, shapes: seq<Shape>, colors: seq<Color>, names: seq<string>,
                  rows: int, cols: int, choices: seq<Choice>, final: Occupancy)
    requires Supplied(shapes, colors, names)
    decreases |shapes|
  {
    if shapes == [] then choices == [] && final == occ
    else
      && choices != []
      && InWindow(choices[0], rows, cols)
      && CanPlace(occ.grid, Footprint(shapes[0], choices[0]))
      && Packs(PlaceOcc(occ, Footprint(shapes[0], choices[0]), colors[0], names[0]),
               shapes[1..], colors[1..], names[1..], rows, cols, choices[1..], final)
  }

  /** A true result comes with a packing that produces the final maps. */
  lemma {:induction false} SolveFromIsPacking(occ: Occupancy, shapes: seq<Shape>, colors: seq<Color>,
                                               names: seq<string>, rows: int, cols: int)
    requires Supplied(shapes, colors, names) && Consistent(occ)
    ensures var r := SolveFrom(occ, shapes, colors, names, rows, cols);
      r.solved ==> Packs(occ, shapes, colors, names, rows, cols, r.choices, r.occ)
    decreases |shapes|, 1, 0, 0, 0, 0
  {
    if |shapes| > 0 {
      SearchIsPacking(occ, shapes, colors, names, rows, cols, shapes[0], 0, -cols, -rows);
    }
  }

  lemma {:induction false} SearchIsPacking(occ: Occupancy, shapes: seq<Shape>, colors: seq<Color>,
                                            names: seq<string>, rows: int, cols: int,
                                            current: Shape, i: nat, ox: int, oy: int)
    requires shapes != [] && Supplied(shapes, colors, names) && Consistent(occ)
    requires current == Rotations(shapes[0], i) && -cols <= ox && -rows <= oy
    ensures var r := Search(occ, shapes, colors, names, rows, cols, current, i, ox, oy);
      r.solved ==> Packs(occ, shapes, colors, names, rows, cols, r.choices, r.occ)
    decreases |shapes|, 0, 6 - i, cols - ox, rows - oy, 3
  {
    if i < 6 && ox >= cols {
      NextRotationIsPacking(occ, shapes, colors, names, rows, cols, current, i, ox, oy);
    } else if i < 6 && oy >= rows {
      NextColumnIsPacking(occ, shapes, colors, names, rows, cols, current, i, ox, oy);
    } else if i < 6 {
      CursorIsPacking(occ, shapes, colors, names, rows, cols, current, i, ox, oy);
    }
  }

  /** The offsetx loop is done: the search goes on with the next rotation. */
  lemma {:induction false} NextRotationIsPacking(occ: Occupancy, shapes: seq<Shape>, colors: seq<Color>,
                                                  names: seq<string>, rows: int, cols: int,
                                                  current: Shape, i: nat, ox: int, oy: int)
    requires shapes != [] && Supplied(shapes, colors, names) && Consistent(occ)
    requires current == Rotations(shapes[0], i) && i < 6 && ox >= cols
    ensures var r := Search(occ, shapes, colors, names, rows, cols, current, i, ox, oy);
      r.solved ==> Packs(occ, shapes, colors, names, rows, cols, r.choices, r.occ)
    decreases |shapes|, 0, 6 - i, cols - ox, rows - oy, 2
  {
    var r := Search(occ, shapes, colors, names, rows, cols, RotatedShape(current), i + 1, -cols, -rows);
    assert Search(occ, shapes, colors, names, rows, cols, current, i, ox, oy) == r;
    SearchIsPacking(occ, shapes, colors, names, rows, cols, RotatedShape(current), i + 1, -cols, -rows);
  }

  /** The offsety loop is done: the search goes on with the next offsetx. */
  lemma {:induction false} NextColumnIsPacking(occ: Occupancy, shapes: seq<Shape>, colors: seq<Color>,
                                                names: seq<string>, rows: int, cols: int,
                                                current: Shape, i: nat, ox: int, oy: int)
    requires shapes != [] && Supplied(shapes, colors, names) && Consistent(occ)
    requires current == Rotations(shapes[0], i) && -cols <= ox < cols
    requires i < 6 && oy >= rows
    ensures var r := Search(occ, shapes, colors, names, rows, cols, current, i, ox, oy);
      r.solved ==> Packs(occ, shapes, colors, names, rows, cols, r.choices, r.occ)
    decreases |shapes|, 0, 6 - i, cols - ox, rows - oy, 2
  {
    var r := Search(occ, shapes, colors, names, rows, cols, current, i, ox + 1, -rows);
    assert Search(occ, shapes, colors, names, rows, cols, current, i, ox, oy) == r;
    SearchIsPacking(occ, shapes, colors, names, rows, cols, current, i, ox + 1, -rows);
  }

  /** Inside all three loops the search runs the innermost loop body. */
  lemma {:induction false} CursorIsPacking(occ: Occupancy, shapes: seq<Shape>, colors: seq<Color>,
                                            names: seq<string>, rows: int, cols: int,
                                            current: Shape, i: nat, ox: int, oy: int)
    requires shapes != [] && Supplied(shapes, colors, names) && Consistent(occ)
    requires current == Rotations(shapes[0], i) && -cols <= ox && -rows <= oy
    requires i < 6 && ox < cols && oy < rows
    ensures var r := Search(occ, shapes, colors, names, rows, cols, current, i, ox, oy);
      r.solved ==> Packs(occ, shapes, colors, names, rows, cols, r.choices, r.occ)
    decreases |shapes|, 0, 6 - i, cols - ox, rows - oy, 2
  {
    assert Search(occ, shapes, colors, names, rows, cols, current, i, ox, oy)
        == TryAt(occ, shapes, colors, names, rows, cols, current, i, ox, oy);
    TryAtIsPacking(occ, shapes, colors, names, rows, cols, current, i, ox, oy);
  }

  lemma {:induction false} TryAtIsPacking(occ: Occupancy, shapes: seq<Shape>, colors: seq<Color>,
                                           names: seq<string>, rows: int, cols: int,
                                           current: Shape, i: nat, ox: int, oy: int)
    requires shapes != [] && Supplied(shapes, colors, names) && Consistent(occ)
    requires current == Rotations(shapes[0], i) && -cols <= ox && -rows <= oy
    requires i < 6 && ox < cols && oy < rows
    ensures var r := TryAt(occ, shapes, colors, names, rows, cols, current, i, ox, oy);
      r.solved ==> Packs(occ, shapes, colors, names, rows, cols, r.choices, r.occ)
    decreases |shapes|, 0, 6 - i, cols - ox, rows - oy, 1
  {
    var ch0 := Choice(i, ox, oy);
    var cells := Footprint(shapes[0], ch0);
    assert cells == Translate(current, ox, oy);
    if Works(occ, shapes, colors, names, rows, cols, ch0) {
      TryAtTakesWorking(occ, shapes, colors, names, rows, cols, current, i, ox, oy);
      WorkingChoiceIsPacking(occ, shapes, colors, names, rows, cols, ch0);
    } else {
      NextRowIsPacking(occ, shapes, colors, names, rows, cols, current, i, ox, oy);
    }
  }

  /** The candidate at the cursor does not work: the search goes on with the next offsety. */
  lemma {:induction false} NextRowIsPacking(occ: Occupancy, shapes: seq<Shape>, colors: seq<Color>,
                                             names: seq<string>, rows: int, cols: int,
                                             current: Shape, i: nat, ox: int, oy: int)
    requires shapes != [] && Supplied(shapes, colors, names) && Consistent(occ)
    requires current == Rotations(shapes[0], i) && -cols <= ox && -rows <= oy
    requires i < 6 && ox < cols && oy < rows
    requires !Works(occ, shapes, colors, names, rows, cols, Choice(i, ox, oy))
    ensures var r := TryAt(occ, shapes, colors, names, rows, cols, current, i, ox, oy);
      r.solved ==> Packs(occ, shapes, colors, names, rows, cols, r.choices, r.occ)
    decreases |shapes|, 0, 6 - i, cols - ox, rows - oy, 0
  {
    assert Footprint(shapes[0], Choice(i, ox, oy)) == Translate(current, ox, oy);
    TryAtSkipsFailing(occ, shapes, colors, names, rows, cols, current, i, ox, oy);
    SearchIsPacking(occ, shapes, colors, names, rows, cols, current, i, ox, oy + 1);
  }

  /** A candidate that works, followed by the packing the recursive call finds, packs all the shapes. */
  lemma {:induction false} WorkingChoiceIsPacking(occ: Occupancy, shapes: seq<Shape>, colors: seq<Color>,
                                                   names: seq<string>, rows: int, cols: int, ch: Choice)
    requires shapes != [] && Supplied(shapes, colors, names) && Consistent(occ)
    requires Works(occ, shapes, colors, names, rows, cols, ch)
    ensures var sub := Continue(occ, shapes, colors, names, rows, cols, ch);
      Packs(occ, shapes, colors, names, rows, cols, [ch] + sub.choices, sub.occ)
    decreases |shapes|, 0, 0, 0, 0, 0
  {
    var cells := Footprint(shapes[0], ch);
    var placed := PlaceOcc(occ, cells, colors[0], names[0]);
    PlacePreservesConsistent(occ, cells, colors[0], names[0]);
    SolveFromIsPacking(placed, shapes[1..], colors[1..], names[1..], rows, cols);
    var sub := SolveFrom(placed, shapes[1..], colors[1..], names[1..], rows, cols);
    assert ([ch] + sub.choices)[1..] == sub.choices;
  }

  lemma StampedFreeWasFree(grid: map<Cell, bool>, cells: seq<Cell>, c: Cell)
    requires c in Stamp(grid, cells, true) && !Stamp(grid, cells, true)[c]
    ensures c !in cells && c in grid && !grid[c]
  {
  }

  lemma PlaceAgreesOutside(occ: Occupancy, cells: seq<Cell>, color: Color, name: string, c: Cell)
    requires c !in cells
    ensures AgreeAt(PlaceOcc(occ, cells, color, name), occ, c)
  {
  }

  lemma CanPlaceKeepsKeys(grid: map<Cell, bool>, cells: seq<Cell>)
    requires CanPlace(grid, cells)
    ensures Stamp(grid, cells, true).Keys == grid.Keys
  {
  }

  /** The three maps agree at cell c (same presence, same value). */
  predicate AgreeAt(a: Occupancy, b: Occupancy, c: Cell)
  {
    && (c in a.grid <==> c in b.grid) && (c in a.grid ==> a.grid[c] == b.grid[c])
    && (c in a.colorGrid <==> c in b.colorGrid) && (c in a.colorGrid ==> a.colorGrid[c] == b.colorGrid[c])
    && (c in a.gridToShape <==> c in b.gridToShape) && (c in a.gridToShape ==> a.gridToShape[c] == b.gridToShape[c])
  }

  /** One in-window placement per shape. */
  lemma {:induction false} PacksChoices(occ: Occupancy, shapes: seq<Shape>, colors: seq<Color>, names: seq<string>,
                                        rows: int, cols: int, choices: seq<Choice>, final: Occupancy)
    requires Supplied(shapes, colors, names)
    requires Packs(occ, shapes, colors, names, rows, cols, choices, final)
    ensures |choices| == |shapes|
    ensures forall k | 0 <= k < |shapes| :: InWindow(choices[k], rows, cols)
    decreases |shapes|
  {
    if shapes != [] {
      var occ1 := PlaceOcc(occ, Footprint(shapes[0], choices[0]), colors[0], names[0]);
      PacksChoices(occ1, shapes[1..], colors[1..], names[1..], rows, cols, choices[1..], final);
      forall k | 0 <= k < |shapes| ensures InWindow(choices[k], rows, cols) {
        if k > 0 { assert choices[k] == choices[1..][k - 1]; }
      }
    }
  }

  /** Every footprint lies on cells that were on the board and free on entry. */
  lemma {:induction false} PacksOnFreeCells(occ: Occupancy, shapes: seq<Shape>, colors: seq<Color>, names: seq<string>,
                                            rows: int, cols: int, choices: seq<Choice>, final: Occupancy)
    requires Supplied(shapes, colors, names)
    requires Packs(occ, shapes, colors, names, rows, cols, choices, final)
    ensures forall k, c | 0 <= k < |shapes| && k < |choices| && c in Footprint(shapes[k], choices[k]) ::
      c in occ.grid && !occ.grid[c]
    decreases |shapes|
  {
    if shapes != [] {
      var occ1 := PlaceOcc(occ, Footprint(shapes[0], choices[0]), colors[0], names[0]);
      PacksOnFreeCells(occ1, shapes[1..], colors[1..], names[1..], rows, cols, choices[1..], final);
      forall k, c | 0 <= k < |shapes| && k < |choices| && c in Footprint(shapes[k], choices[k])
        ensures c in occ.grid && !occ.grid[c]
      {
        if k > 0 {
          assert shapes[k] == shapes[1..][k - 1] && choices[k] == choices[1..][k - 1];
          StampedFreeWasFree(occ.grid, Footprint(shapes[0], choices[0]), c);
        }
      }
    }
  }

  /** No cell is covered by two footprints. */
  lemma {:induction false} PacksDisjoint(occ: Occupancy, shapes: seq<Shape>, colors: seq<Color>, names: seq<string>,
                                         rows: int, cols: int, choices: seq<Choice>, final: Occupancy)
    requires Supplied(shapes, colors, names)
    requires Packs(occ, shapes, colors, names, rows, cols, choices, final)
    ensures forall j, k, c | 0 <= j < k < |shapes| && k < |choices| && c in Footprint(shapes[j], choices[j]) ::
      c !in Footprint(shapes[k], choices[k])
    decreases |shapes|
  {
    if shapes != [] {
      var occ1 := PlaceOcc(occ, Footprint(shapes[0], choices[0]), colors[0], names[0]);
      PacksDisjoint(occ1, shapes[1..], colors[1..], names[1..], rows, cols, choices[1..], final);
      PacksOnFreeCells(occ1, shapes[1..], colors[1..], names[1..], rows, cols, choices[1..], final);
      forall j, k, c | 0 <= j < k < |shapes| && k < |choices| && c in Footprint(shapes[j], choices[j])
        ensures c !in Footprint(shapes[k], choices[k])
      {
        assert shapes[k] == shapes[1..][k - 1] && choices[k] == choices[1..][k - 1];
        if j > 0 {
          assert shapes[j] == shapes[1..][j - 1] && choices[j] == choices[1..][j - 1];
        } else {
          assert occ1.grid[c];
        }
      }
    }
  }

  /** Cell c lies in none of the footprints. */
  predicate OutsideAll(c: Cell, shapes: seq<Shape>, choices: seq<Choice>)
  {
    forall k | 0 <= k < |shapes| && k < |choices| :: c !in Footprint(shapes[k], choices[k])
  }

  lemma OutsideAllTail(c: Cell, shapes: seq<Shape>, choices: seq<Choice>)
    requires shapes != [] && choices != [] && OutsideAll(c, shapes, choices)
    ensures c !in Footprint(shapes[0], choices[0]) && OutsideAll(c, shapes[1..], choices[1..])
  {
    forall k | 0 <= k < |shapes| - 1 && k < |choices| - 1 ensures c !in Footprint(shapes[1..][k], choices[1..][k]) {
      assert shapes[1..][k] == shapes[k + 1] && choices[1..][k] == choices[k + 1];
    }
  }

  /** The board keeps its cells. */
  lemma {:induction false} PacksKeepsKeys(occ: Occupancy, shapes: seq<Shape>, colors: seq<Color>, names: seq<string>,
                                          rows: int, cols: int, choices: seq<Choice>, final: Occupancy)
    requires Supplied(shapes, colors, names)
    requires Packs(occ, shapes, colors, names, rows, cols, choices, final)
    ensures final.grid.Keys == occ.grid.Keys
    decreases |shapes|
  {
    if shapes != [] {
      var f0 := Footprint(shapes[0], choices[0]);
      PacksKeepsKeys(PlaceOcc(occ, f0, colors[0], names[0]), shapes[1..], colors[1..], names[1..], rows, cols, choices[1..], final);
      CanPlaceKeepsKeys(occ.grid, f0);
    }
  }

  /** A cell outside every footprint keeps all three values. */
  lemma {:induction false} PacksFrame(occ: Occupancy, shapes: seq<Shape>, colors: seq<Color>, names: seq<string>,
                                      rows: int, cols: int, choices: seq<Choice>, final: Occupancy, c: Cell)
    requires Supplied(shapes, colors, names)
    requires Packs(occ, shapes, colors, names, rows, cols, choices, final)
    requires OutsideAll(c, shapes, choices)
    ensures AgreeAt(final, occ, c)
    decreases |shapes|
  {
    if shapes != [] {
      var f0 := Footprint(shapes[0], choices[0]);
      OutsideAllTail(c, shapes, choices);
      PacksFrame(PlaceOcc(occ, f0, colors[0], names[0]), shapes[1..], colors[1..], names[1..], rows, cols, choices[1..], final, c);
      PlaceAgreesOutside(occ, f0, colors[0], names[0], c);
    }
  }

  /** Each footprint ends up occupied, in its shape's colour, and owned by its shape's name. */
  lemma {:induction false} PacksOwned(occ: Occupancy, shapes: seq<Shape>, colors: seq<Color>, names: seq<string>,
                                      rows: int, cols: int, choices: seq<Choice>, final: Occupancy)
    requires Supplied(shapes, colors, names)
    requires Packs(occ, shapes, colors, names, rows, cols, choices, final)
    ensures forall k, c | 0 <= k < |shapes| && k < |choices| && c in Footprint(shapes[k], choices[k]) ::
      && c in final.grid && final.grid[c]
      && c in final.colorGrid && final.colorGrid[c] == colors[k]
      && c in final.gridToShape && final.gridToShape[c] == names[k]
    decreases |shapes|
  {
    if shapes != [] {
      var occ1 := PlaceOcc(occ, Footprint(shapes[0], choices[0]), colors[0], names[0]);
      var shapes', colors', names', choices' := shapes[1..], colors[1..], names[1..], choices[1..];
      PacksOwned(occ1, shapes', colors', names', rows, cols, choices', final);
      forall k, c | 0 <= k < |shapes| && k < |choices| && c in Footprint(shapes[k], choices[k])
        ensures && c in final.grid && final.grid[c]
                && c in final.colorGrid && final.colorGrid[c] == colors[k]
                && c in final.gridToShape && final.gridToShape[c] == names[k]
      {
        if k > 0 {
          assert shapes[k] == shapes'[k - 1] && choices[k] == choices'[k - 1];
          assert colors[k] == colors'[k - 1] && names[k] == names'[k - 1];
        } else {
          FirstShapeOwned(occ, shapes, colors, names, rows, cols, choices, final, c);
        }
      }
    }
  }

  /** A cell of the first footprint keeps the first shape's colour and name to the end: later footprints avoid it. */
  lemma FirstShapeOwned(occ: Occupancy, shapes: seq<Shape>, colors: seq<Color>, names: seq<string>,
                        rows: int, cols: int, choices: seq<Choice>, final: Occupancy, c: Cell)
    requires shapes != [] && Supplied(shapes, colors, names)
    requires Packs(occ, shapes, colors, names, rows, cols, choices, final)
    requires c in Footprint(shapes[0], choices[0])
    ensures && c in final.grid && final.grid[c]
            && c in final.colorGrid && final.colorGrid[c] == colors[0]
            && c in final.gridToShape && final.gridToShape[c] == names[0]
  {
    var occ1 := PlaceOcc(occ, Footprint(shapes[0], choices[0]), colors[0], names[0]);
    var shapes', colors', names', choices' := shapes[1..], colors[1..], names[1..], choices[1..];
    PacksOnFreeCells(occ1, shapes', colors', names', rows, cols, choices', final);
    assert c in occ1.grid && occ1.grid[c];
    PacksFrame(occ1, shapes', colors', names', rows, cols, choices', final, c);
  }

  // ---------------------------------------------------------------------
  // Search order: the first placement that works is the one kept

  /** a is tried before b: rotation count first, then offsetx, then offsety, all ascending. */
  predicate Earlier(a: Choice, b: Choice)
  {
    a.rotation < b.rotation
    || (a.rotation == b.rotation && (a.offsetX < b.offsetX || (a.offsetX == b.offsetX && a.offsetY < b.offsetY)))
  }

  /** ch is not tried before the loop cursor (i, ox, oy). */
  predicate NotBefore(ch: Choice, i: int, ox: int, oy: int)
  {
    ch.rotation > i || (ch.rotation == i && (ch.offsetX > ox || (ch.offsetX == ox && ch.offsetY >= oy)))
  }

  /** The recursive place_shapes call after placing the first shape at ch. */
  function Continue(occ: Occupancy, shapes: seq<Shape>, colors: seq<Color>, names: seq<string>,
                    rows: int, cols: int, ch: Choice): Outcome
    requires shapes != [] && Supplied(shapes, colors, names)
  {
    SolveFrom(PlaceOcc(occ, Footprint(shapes[0], ch), colors[0], names[0]),
              shapes[1..], colors[1..], names[1..], rows, cols)
  }

  /** ch is a candidate, the first shape fits there, and the remaining shapes can then be placed. */
  predicate Works(occ: Occupancy, shapes: seq<Shape>, colors: seq<Color>, names: seq<string>,
                  rows: int, cols: int, ch: Choice)
    requires shapes != [] && Supplied(shapes, colors, names)
  {
    && InWindow(ch, rows, cols)
    && CanPlace(occ.grid, Footprint(shapes[0], ch))
    && Continue(occ, shapes, colors, names, rows, cols, ch).solved
  }

  /**
   * r is the outcome of trying the candidates from the cursor (i, ox, oy)
   * on: if it is a success, its first placement works and is the first one
   * at or after the cursor that does; if it is a failure, none there works.
   */
  ghost predicate FirstFit(occ: Occupancy, shapes: seq<Shape>, colors: seq<Color>, names: seq<string>,
                     rows: int, cols: int, r: Outcome, i: int, ox: int, oy: int)
    requires shapes != [] && Supplied(shapes, colors, names)
  {
    && (r.solved ==>
          && r.choices != []
          && NotBefore(r.choices[0], i, ox, oy)
          && Works(occ, shapes, colors, names, rows, cols, r.choices[0])
          && r.occ == Continue(occ, shapes, colors, names, rows, cols, r.choices[0]).occ
          && r.choices[1..] == Continue(occ, shapes, colors, names, rows, cols, r.choices[0]).choices)
    && (forall ch | NotBefore(ch, i, ox, oy) && (r.solved ==> r.choices != [] && Earlier(ch, r.choices[0])) ::
          !Works(occ, shapes, colors, names, rows, cols, ch))
  }

  /** Moving the cursor over candidates that do not work keeps FirstFit. */
  lemma FirstFitFromLaterCursor(occ: Occupancy, shapes: seq<Shape>, colors: seq<Color>, names: seq<string>,
                                rows: int, cols: int, r: Outcome, i: int, ox: int, oy: int, i': int, ox': int, oy': int)
    requires shapes != [] && Supplied(shapes, colors, names)
    requires FirstFit(occ, shapes, colors, names, rows, cols, r, i', ox', oy')
    requires forall ch | NotBefore(ch, i', ox', oy') :: NotBefore(ch, i, ox, oy)
    requires forall ch | NotBefore(ch, i, ox, oy) && Works(occ, shapes, colors, names, rows, cols, ch) :: NotBefore(ch, i', ox', oy')
    ensures FirstFit(occ, shapes, colors, names, rows, cols, r, i, ox, oy)
  {
  }

  lemma {:induction false} SearchFirstFit(occ: Occupancy, shapes: seq<Shape>, colors: seq<Color>,
                                           names: seq<string>, rows: int, cols: int,
                                           current: Shape, i: nat, ox: int, oy: int)
    requires shapes != [] && Supplied(shapes, colors, names) && Consistent(occ)
    requires current == Rotations(shapes[0], i) && -cols <= ox && -rows <= oy
    ensures FirstFit(occ, shapes, colors, names, rows, cols, Search(occ, shapes, colors, names, rows, cols, current, i, ox, oy), i, ox, oy)
    decreases 6 - i, cols - ox, rows - oy, 2
  {
    if i >= 6 {
      FirstFitPastLastRotation(occ, shapes, colors, names, rows, cols, i, ox, oy);
    } else if ox >= cols {
      SearchNextRotationFirstFit(occ, shapes, colors, names, rows, cols, current, i, ox, oy);
    } else if oy >= rows {
      SearchNextColumnFirstFit(occ, shapes, colors, names, rows, cols, current, i, ox, oy);
    } else {
      assert Search(occ, shapes, colors, names, rows, cols, current, i, ox, oy)
          == TryAt(occ, shapes, colors, names, rows, cols, current, i, ox, oy);
      TryAtFirstFit(occ, shapes, colors, names, rows, cols, current, i, ox, oy);
    }
  }

  lemma {:induction false} SearchNextRotationFirstFit(occ: Occupancy, shapes: seq<Shape>, colors: seq<Color>,
                                                       names: seq<string>, rows: int, cols: int,
                                                       current: Shape, i: nat, ox: int, oy: int)
    requires shapes != [] && Supplied(shapes, colors, names) && Consistent(occ)
    requires current == Rotations(shapes[0], i) && i < 6 && ox >= cols
    ensures FirstFit(occ, shapes, colors, names, rows, cols, Search(occ, shapes, colors, names, rows, cols, current, i, ox, oy), i, ox, oy)
    decreases 6 - i, cols - ox, rows - oy, 1
  {
    var r := Search(occ, shapes, colors, names, rows, cols, RotatedShape(current), i + 1, -cols, -rows);
    assert Search(occ, shapes, colors, names, rows, cols, current, i, ox, oy) == r;
    SearchFirstFit(occ, shapes, colors, names, rows, cols, RotatedShape(current), i + 1, -cols, -rows);
    FirstFitNextRotation(occ, shapes, colors, names, rows, cols, r, i, ox, oy);
  }

  lemma {:induction false} SearchNextColumnFirstFit(occ: Occupancy, shapes: seq<Shape>, colors: seq<Color>,
                                                     names: seq<string>, rows: int, cols: int,
                                                     current: Shape, i: nat, ox: int, oy: int)
    requires shapes != [] && Supplied(shapes, colors, names) && Consistent(occ)
    requires current == Rotations(shapes[0], i) && -cols <= ox < cols
    requires i < 6 && oy >= rows
    ensures FirstFit(occ, shapes, colors, names, rows, cols, Search(occ, shapes, colors, names, rows, cols, current, i, ox, oy), i, ox, oy)
    decreases 6 - i, cols - ox, rows - oy, 1
  {
    var r := Search(occ, shapes, colors, names, rows, cols, current, i, ox + 1, -rows);
    assert Search(occ, shapes, colors, names, rows, cols, current, i, ox, oy) == r;
    SearchFirstFit(occ, shapes, colors, names, rows, cols, current, i, ox + 1, -rows);
    FirstFitNextColumn(occ, shapes, colors, names, rows, cols, r, i, ox, oy);
  }

  /** Past the sixth rotation nothing is left to try, and nothing there works. */
  lemma FirstFitPastLastRotation(occ: Occupancy, shapes: seq<Shape>, colors: seq<Color>, names: seq<string>,
                                 rows: int, cols: int, i: int, ox: int, oy: int)
    requires shapes != [] && Supplied(shapes, colors, names) && i >= 6
    ensures FirstFit(occ, shapes, colors, names, rows, cols, Outcome(false, occ, []), i, ox, oy)
  {
    forall ch | NotBefore(ch, i, ox, oy) ensures !Works(occ, shapes, colors, names, rows, cols, ch) {
      assert !InWindow(ch, rows, cols);
    }
  }

  /** Leaving the offsetx loop moves the cursor to the next rotation without skipping a working candidate. */
  lemma FirstFitNextRotation(occ: Occupancy, shapes: seq<Shape>, colors: seq<Color>, names: seq<string>,
                             rows: int, cols: int, r: Outcome, i: int, ox: int, oy: int)
    requires shapes != [] && Supplied(shapes, colors, names) && ox >= cols
    requires FirstFit(occ, shapes, colors, names, rows, cols, r, i + 1, -cols, -rows)
    ensures FirstFit(occ, shapes, colors, names, rows, cols, r, i, ox, oy)
  {
    forall ch | NotBefore(ch, i, ox, oy) && Works(occ, shapes, colors, names, rows, cols, ch)
      ensures NotBefore(ch, i + 1, -cols, -rows)
    {
      assert InWindow(ch, rows, cols);
    }
    FirstFitFromLaterCursor(occ, shapes, colors, names, rows, cols, r, i, ox, oy, i + 1, -cols, -rows);
  }

  /** Leaving the offsety loop moves the cursor to the next offsetx without skipping a working candidate. */
  lemma FirstFitNextColumn(occ: Occupancy, shapes: seq<Shape>, colors: seq<Color>, names: seq<string>,
                           rows: int, cols: int, r: Outcome, i: int, ox: int, oy: int)
    requires shapes != [] && Supplied(shapes, colors, names) && oy >= rows
    requires FirstFit(occ, shapes, colors, names, rows, cols, r, i, ox + 1, -rows)
    ensures FirstFit(occ, shapes, colors, names, rows, cols, r, i, ox, oy)
  {
    forall ch | NotBefore(ch, i, ox, oy) && Works(occ, shapes, colors, names, rows, cols, ch)
      ensures NotBefore(ch, i, ox + 1, -rows)
    {
      assert InWindow(ch, rows, cols);
    }
    FirstFitFromLaterCursor(occ, shapes, colors, names, rows, cols, r, i, ox, oy, i, ox + 1, -rows);
  }

  lemma {:induction false} TryAtFirstFit(occ: Occupancy, shapes: seq<Shape>, colors: seq<Color>,
                                          names: seq<string>, rows: int, cols: int,
                                          current: Shape, i: nat, ox: int, oy: int)
    requires shapes != [] && Supplied(shapes, colors, names) && Consistent(occ)
    requires current == Rotations(shapes[0], i) && -cols <= ox && -rows <= oy
    requires i < 6 && ox < cols && oy < rows
    ensures FirstFit(occ, shapes, colors, names, rows, cols, TryAt(occ, shapes, colors, names, rows, cols, current, i, ox, oy), i, ox, oy)
    decreases 6 - i, cols - ox, rows - oy, 0
  {
    var ch0 := Choice(i, ox, oy);
    assert Footprint(shapes[0], ch0) == Translate(current, ox, oy);
    if Works(occ, shapes, colors, names, rows, cols, ch0) {
      TryAtTakesWorking(occ, shapes, colors, names, rows, cols, current, i, ox, oy);
      FirstFitAtCursor(occ, shapes, colors, names, rows, cols, ch0);
    } else {
      TryAtSkipsFailing(occ, shapes, colors, names, rows, cols, current, i, ox, oy);
      SearchFirstFit(occ, shapes, colors, names, rows, cols, current, i, ox, oy + 1);
      FirstFitNextRow(occ, shapes, colors, names, rows, cols,
                      Search(occ, shapes, colors, names, rows, cols, current, i, ox, oy + 1), i, ox, oy);
    }
  }

  /** When the candidate at the cursor works, the innermost loop body keeps it and the recursive call's outcome. */
  lemma TryAtTakesWorking(occ: Occupancy, shapes: seq<Shape>, colors: seq<Color>,
                          names: seq<string>, rows: int, cols: int,
                          current: Shape, i: nat, ox: int, oy: int)
    requires shapes != [] && Supplied(shapes, colors, names)
    requires i < 6 && ox < cols && oy < rows
    requires Footprint(shapes[0], Choice(i, ox, oy)) == Translate(current, ox, oy)
    requires Works(occ, shapes, colors, names, rows, cols, Choice(i, ox, oy))
    ensures var sub := Continue(occ, shapes, colors, names, rows, cols, Choice(i, ox, oy));
      TryAt(occ, shapes, colors, names, rows, cols, current, i, ox, oy) == Outcome(true, sub.occ, [Choice(i, ox, oy)] + sub.choices)
  {
  }

  /** When the candidate at the cursor does not work, the innermost loop body moves on with the maps unchanged. */
  lemma TryAtSkipsFailing(occ: Occupancy, shapes: seq<Shape>, colors: seq<Color>,
                          names: seq<string>, rows: int, cols: int,
                          current: Shape, i: nat, ox: int, oy: int)
    requires shapes != [] && Supplied(shapes, colors, names) && Consistent(occ)
    requires i < 6 && -cols <= ox < cols && -rows <= oy < rows
    requires Footprint(shapes[0], Choice(i, ox, oy)) == Translate(current, ox, oy)
    requires !Works(occ, shapes, colors, names, rows, cols, Choice(i, ox, oy))
    ensures TryAt(occ, shapes, colors, names, rows, cols, current, i, ox, oy)
         == Search(occ, shapes, colors, names, rows, cols, current, i, ox, oy + 1)
  {
    var cells := Translate(current, ox, oy);
    if CanPlace(occ.grid, cells) {
      var placed := PlaceOcc(occ, cells, colors[0], names[0]);
      PlacePreservesConsistent(occ, cells, colors[0], names[0]);
      SolveFromRestoresOnFailure(placed, shapes[1..], colors[1..], names[1..], rows, cols);
      PlaceThenUnplaceRestores(occ, cells, colors[0], names[0]);
    }
  }

  /** A working candidate at the cursor, kept with the recursive call's outcome, is the first fit from the cursor. */
  lemma FirstFitAtCursor(occ: Occupancy, shapes: seq<Shape>, colors: seq<Color>, names: seq<string>,
                         rows: int, cols: int, ch: Choice)
    requires shapes != [] && Supplied(shapes, colors, names)
    requires Works(occ, shapes, colors, names, rows, cols, ch)
    ensures var sub := Continue(occ, shapes, colors, names, rows, cols, ch);
      FirstFit(occ, shapes, colors, names, rows, cols, Outcome(true, sub.occ, [ch] + sub.choices),
               ch.rotation, ch.offsetX, ch.offsetY)
  {
    var sub := Continue(occ, shapes, colors, names, rows, cols, ch);
    assert ([ch] + sub.choices)[1..] == sub.choices;
  }

  /** Stepping offsety past a candidate that does not work keeps FirstFit. */
  lemma FirstFitNextRow(occ: Occupancy, shapes: seq<Shape>, colors: seq<Color>, names: seq<string>,
                        rows: int, cols: int, r: Outcome, i: nat, ox: int, oy: int)
    requires shapes != [] && Supplied(shapes, colors, names)
    requires !Works(occ, shapes, colors, names, rows, cols, Choice(i, ox, oy))
    requires FirstFit(occ, shapes, colors, names, rows, cols, r, i, ox, oy + 1)
    ensures FirstFit(occ, shapes, colors, names, rows, cols, r, i, ox, oy)
  {
    forall ch | NotBefore(ch, i, ox, oy) && Works(occ, shapes, colors, names, rows, cols, ch)
      ensures NotBefore(ch, i, ox, oy + 1)
    {
      assert ch != Choice(i, ox, oy);
    }
    FirstFitFromLaterCursor(occ, shapes, colors, names, rows, cols, r, i, ox, oy, i, ox, oy + 1);
  }

  /**
   * place_shapes succeeds exactly when some candidate placement of the first
   * shape works, and then it keeps the first such candidate in search order,
   * with the outcome of the recursive call made from there.
   */
  lemma SolveFromFirstFit(occ: Occupancy, shapes: seq<Shape>, colors: seq<Color>, names: seq<string>,
                          rows: int, cols: int)
    requires shapes != [] && Supplied(shapes, colors, names) && Consistent(occ)
    ensures SolveFrom(occ, shapes, colors, names, rows, cols).solved
            <==> exists ch :: Works(occ, shapes, colors, names, rows, cols, ch)
    ensures var r := SolveFrom(occ, shapes, colors, names, rows, cols);
      r.solved ==>
        && r.choices != []
        && Works(occ, shapes, colors, names, rows, cols, r.choices[0])
        && (forall ch | Earlier(ch, r.choices[0]) :: !Works(occ, shapes, colors, names, rows, cols, ch))
        && r.occ == Continue(occ, shapes, colors, names, rows, cols, r.choices[0]).occ
        && r.choices[1..] == Continue(occ, shapes, colors, names, rows, cols, r.choices[0]).choices
  {
    SearchFirstFit(occ, shapes, colors, names, rows, cols, shapes[0], 0, -cols, -rows);
    var r := SolveFrom(occ, shapes, colors, names, rows, cols);
    if r.solved {
      FirstFitFromStartSolved(occ, shapes, colors, names, rows, cols, r);
    } else {
      FirstFitFromStartFailed(occ, shapes, colors, names, rows, cols, r);
    }
  }

  /** Every candidate comes at or after the loops' starting cursor. */
  lemma CandidateNotBeforeStart(ch: Choice, rows: int, cols: int)
    requires InWindow(ch, rows, cols)
    ensures NotBefore(ch, 0, -cols, -rows)
  {
  }

  lemma FirstFitFromStartSolved(occ: Occupancy, shapes: seq<Shape>, colors: seq<Color>, names: seq<string>,
                                rows: int, cols: int, r: Outcome)
    requires shapes != [] && Supplied(shapes, colors, names)
    requires r.solved && FirstFit(occ, shapes, colors, names, rows, cols, r, 0, -cols, -rows)
    ensures r.choices != [] && Works(occ, shapes, colors, names, rows, cols, r.choices[0])
    ensures forall ch | Earlier(ch, r.choices[0]) :: !Works(occ, shapes, colors, names, rows, cols, ch)
  {
    forall ch | Earlier(ch, r.choices[0]) ensures !Works(occ, shapes, colors, names, rows, cols, ch) {
      if Works(occ, shapes, colors, names, rows, cols, ch) {
        CandidateNotBeforeStart(ch, rows, cols);
      }
    }
  }

  lemma FirstFitFromStartFailed(occ: Occupancy, shapes: seq<Shape>, colors: seq<Color>, names: seq<string>,
                                rows: int, cols: int, r: Outcome)
    requires shapes != [] && Supplied(shapes, colors, names)
    requires !r.solved && FirstFit(occ, shapes, colors, names, rows, cols, r, 0, -cols, -rows)
    ensures forall ch :: !Works(occ, shapes, colors, names, rows, cols, ch)
  {
    forall ch ensures !Works(occ, shapes, colors, names, rows, cols, ch) {
      if Works(occ, shapes, colors, names, rows, cols, ch) {
        CandidateNotBeforeStart(ch, rows, cols);
      }
    }
  }

  /**
   * The search misses no packing: whenever the shapes can be placed one
   * after the other at in-window candidates, place_shapes returns true.
   */
  lemma {:induction false} PackingImpliesSolved(occ: Occupancy, shapes: seq<Shape>, colors: seq<Color>,
                                                 names: seq<string>, rows: int, cols: int,
                                                 choices: seq<Choice>, final: Occupancy)
    requires Supplied(shapes, colors, names) && Consistent(occ)
    requires Packs(occ, shapes, colors, names, rows, cols, choices, final)
    ensures SolveFrom(occ, shapes, colors, names, rows, cols).solved
    decreases |shapes|
  {
    if shapes != [] {
      var cells := Footprint(shapes[0], choices[0]);
      PlacePreservesConsistent(occ, cells, colors[0], names[0]);
      PackingImpliesSolved(PlaceOcc(occ, cells, colors[0], names[0]), shapes[1..], colors[1..], names[1..],
                           rows, cols, choices[1..], final);
      assert Works(occ, shapes, colors, names, rows, cols, choices[0]);
      SolveFromFirstFit(occ, shapes, colors, names, rows, cols);
    }
  }

  /**
   * place_shapes decides packability on a consistent board: it returns true
   * exactly when the shapes can be packed at in-window candidates, and a
   * true result comes with such a packing.
   */
  lemma SolveFromDecidesPacking(occ: Occupancy, shapes: seq<Shape>, colors: seq<Color>,
                                names: seq<string>, rows: int, cols: int)
    requires Supplied(shapes, colors, names) && Consistent(occ)
    ensures SolveFrom(occ, shapes, colors, names, rows, cols).solved
            <==> exists choices, final :: Packs(occ, shapes, colors, names, rows, cols, choices, final)
  {
    var r := SolveFrom(occ, shapes, colors, names, rows, cols);
    if r.solved {
      SolveFromIsPacking(occ, shapes, colors, names, rows, cols);
      assert Packs(occ, shapes, colors, names, rows, cols, r.choices, r.occ);
      assert exists choices, final :: Packs(occ, shapes, colors, names, rows, cols, choices, final);
    } else {
      forall choices, final | Packs(occ, shapes, colors, names, rows, cols, choices, final)
        ensures false
      {
        PackingImpliesSolved(occ, shapes, colors, names, rows, cols, choices, final);
      }
      assert !exists choices, final :: Packs(occ, shapes, colors, names, rows, cols, choices, final);
    }
  }

  /** An empty list of shapes is placed at once, with nothing changed. */
  lemma EmptyListSolves(occ: Occupancy, rows: int, cols: int)
    ensures SolveFrom(occ, [], [], [], rows, cols) == Outcome(true, occ, [])
  {
  }

  /**
   * offsetx, which moves the row coordinate, only runs over [-cols, cols),
   * and offsety over [-rows, rows). On a board one row high and at least two
   * cells wide, a one-cell shape can only reach the cell (0, 0): two such
   * shapes are reported unplaceable although the board has room for both.
   */
  lemma NarrowWindowMissesFreeCells(rows: nat, cols: nat, shapes: seq<Shape>, colors: seq<Color>, names: seq<string>)
    requires rows == 1 && cols >= 2
    requires |shapes| == 2 && shapes[0] == [(0, 0)] && shapes[1] == [(0, 0)] && Supplied(shapes, colors, names)
    ensures |BoardCells(rows, cols)| >= |shapes|
    ensures !SolveFrom(BlankOcc(rows, cols), shapes, colors, names, rows, cols).solved
  {
    BoardSize(rows, cols);
    var occ := BlankOcc(rows, cols);
    BlankConsistent(rows, cols);
    var r := SolveFrom(occ, shapes, colors, names, rows, cols);
    if r.solved {
      SolveFromIsPacking(occ, shapes, colors, names, rows, cols);
      OneRowFirstPlacement(occ, shapes, colors, names, rows, cols, r.choices, r.occ);
      var cells := Footprint(shapes[0], r.choices[0]);
      var occ1 := PlaceOcc(occ, cells, colors[0], names[0]);
      assert CanPlace(occ.grid, cells);
      CanPlaceKeepsKeys(occ.grid, cells);
      assert Packs(occ1, shapes[1..], colors[1..], names[1..], rows, cols, r.choices[1..], r.occ);
      assert shapes[1..][0] == [(0, 0)];
      assert (0, 0) in occ1.grid && occ1.grid[(0, 0)];
      assert CanPlace(occ1.grid, Footprint(shapes[1..][0], r.choices[1..][0]));
      OneRowFirstPlacement(occ1, shapes[1..], colors[1..], names[1..], rows, cols, r.choices[1..], r.occ);
      assert false;
    }
  }

  /** In a one-row window, a packing puts a one-cell shape at (0, 0) on the cell (0, 0). */
  lemma OneRowFirstPlacement(occ: Occupancy, shapes: seq<Shape>, colors: seq<Color>, names: seq<string>,
                             rows: int, cols: int, choices: seq<Choice>, final: Occupancy)
    requires rows == 1 && occ.grid.Keys <= BoardCells(rows, cols)
    requires shapes != [] && shapes[0] == [(0, 0)] && Supplied(shapes, colors, names)
    requires Packs(occ, shapes, colors, names, rows, cols, choices, final)
    ensures choices != [] && Footprint(shapes[0], choices[0]) == [(0, 0)]
  {
    var ch := choices[0];
    var p := (ch.offsetX, ch.offsetY);
    SingleCellFootprint(shapes[0], ch);
    assert p in Footprint(shapes[0], ch);
    OneRowCell(rows, cols, p);
  }

  /** A one-cell shape at (0, 0) covers exactly the cell its offsets name, whatever the rotation. */
  lemma SingleCellFootprint(shape: Shape, ch: Choice)
    requires shape == [(0, 0)]
    ensures Footprint(shape, ch) == [(ch.offsetX, ch.offsetY)]
  {
    SingleCellRotations(0, 0, ch.rotation);
  }

  /** The only cell of a one-row board with a second coordinate below 1 is (0, 0). */
  lemma OneRowCell(rows: int, cols: int, p: Cell)
    requires rows == 1 && p in BoardCells(rows, cols) && p.1 < 1
    ensures p == (0, 0)
  {
    BoardCellsMembership(rows, cols, p);
  }
}
