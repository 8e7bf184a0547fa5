/**
 * The shape editor of shapemaker.js: clicking a hex toggles it on the
 * functions.js board, and "add shape" collects the occupied cells, sorts
 * them and normalises them so that their smallest coordinates are 0.
 */
module ShapeMaker {
  import opened Wrappers
  import opened Hex
  import opened Packer

  /** The colour of a selected cell. */
  const Red: Color := "hsl(0, 100.00%, 50.00%)"

  // ---------------------------------------------------------------------
  // The click toggle

  /** The maps after clicking cell c: an occupied cell is freed, any other cell (even a missing one) is set. */
  function Toggled(occ: Occupancy, c: Cell): Occupancy
  {
    if c in occ.grid && occ.grid[c] then
      Occupancy(occ.grid[c := false], occ.colorGrid[c := Gray], occ.gridToShape)
    else
      Occupancy(occ.grid[c := true], occ.colorGrid[c := Red], occ.gridToShape)
  }

  /** The click handler once the hex under the mouse has been found at cell c. */
  method ToggleCell(board: Board, c: Cell)
    modifies board
    ensures board.rows == old(board.rows) && board.cols == old(board.cols)
    ensures board.Occ() == Toggled(old(board.Occ()), c)
  {
    if c in board.grid && board.grid[c] {
      board.colorGrid := board.colorGrid[c := Gray];
      board.grid := board.grid[c := false];
    } else {
      board.colorGrid := board.colorGrid[c := Red];
      board.grid := board.grid[c := true];
    }
  }

  /** A click flips exactly one cell and leaves every other cell alone. */
  lemma ToggleFlipsOneCell(occ: Occupancy, c: Cell, d: Cell)
    ensures var t := Toggled(occ, c);
      && c in t.grid
      && (t.grid[c] <==> !(c in occ.grid && occ.grid[c]))
      && t.colorGrid[c] == (if t.grid[c] then Red else Gray)
      && (d != c ==> AgreeOn(t, occ, d))
  {
  }

  /** Presence and value agree at d in all three maps. */
  predicate AgreeOn(a: Occupancy, b: Occupancy, d: Cell)
  {
    && (d in a.grid <==> d in b.grid) && (d in a.grid ==> a.grid[d] == b.grid[d])
    && (d in a.colorGrid <==> d in b.colorGrid) && (d in a.colorGrid ==> a.colorGrid[d] == b.colorGrid[d])
    && a.gridToShape == b.gridToShape
  }

  /**
   * Clicking a board cell twice restores Grid; a free cell of a consistent
   * board gets all of its maps back.
   */
  lemma ToggleTwice(occ: Occupancy, c: Cell)
    requires c in occ.grid
    ensures Toggled(Toggled(occ, c), c).grid == occ.grid
    ensures Consistent(occ) && !occ.grid[c] ==> Toggled(Toggled(occ, c), c) == occ
  {
    var t2 := Toggled(Toggled(occ, c), c);
    assert t2.grid == occ.grid;
    if Consistent(occ) && !occ.grid[c] {
      assert t2.colorGrid == occ.colorGrid;
    }
  }

  // ---------------------------------------------------------------------
  // normalizeShape

  /** The smallest first coordinate of a non-empty shape. */
  function MinCol(shape: Shape): (m: int)
    requires shape != []
    ensures forall c | c in shape :: m <= c.0
    decreases |shape|
  {
    if |shape| == 1 then shape[0].0
    else
      var rest := MinCol(shape[..|shape| - 1]);
      assert shape == shape[..|shape| - 1] + [shape[|shape| - 1]];
      if shape[|shape| - 1].0 < rest then shape[|shape| - 1].0 else rest
  }

  /** The smallest second coordinate of a non-empty shape. */
  function MinRow(shape: Shape): (m: int)
    requires shape != []
    ensures forall c | c in shape :: m <= c.1
    decreases |shape|
  {
    if |shape| == 1 then shape[0].1
    else
      var rest := MinRow(shape[..|shape| - 1]);
      assert shape == shape[..|shape| - 1] + [shape[|shape| - 1]];
      if shape[|shape| - 1].1 < rest then shape[|shape| - 1].1 else rest
  }

  /** The minima are attained: some cell has the smallest column, some cell the smallest row. */
  lemma {:induction false} MinimaAttained(shape: Shape)
    requires shape != []
    ensures exists i | 0 <= i < |shape| :: shape[i].0 == MinCol(shape)
    ensures exists j | 0 <= j < |shape| :: shape[j].1 == MinRow(shape)
    decreases |shape|
  {
    var last := |shape| - 1;
    if last > 0 {
      var init := shape[..last];
      MinimaAttained(init);
      var i :| 0 <= i < |init| && init[i].0 == MinCol(init);
      var j :| 0 <= j < |init| && init[j].1 == MinRow(init);
      assert shape[i] == init[i] && shape[j] == init[j];
      if shape[last].0 < MinCol(init) {
        assert shape[last].0 == MinCol(shape);
      } else {
        assert shape[i].0 == MinCol(shape);
      }
      if shape[last].1 < MinRow(init) {
        assert shape[last].1 == MinRow(shape);
      } else {
        assert shape[j].1 == MinRow(shape);
      }
    } else {
      assert shape[0].0 == MinCol(shape) && shape[0].1 == MinRow(shape);
    }
  }

  /** normalizeShape(shape): shift so that both smallest coordinates become 0. */
  function Normalized(shape: Shape): Shape
  {
    if shape == [] then [] else Translate(shape, -MinCol(shape), -MinRow(shape))
  }

  /** normalizeShape: find the minima, then shift every cell by them. */
  method NormalizeShape(shape: Shape) returns (result: Shape)
    ensures result == Normalized(shape)
  {
    var minCol, minRow := ShapeMinima(shape);
    if shape == [] {
      return [];
    }
    var dx, dy := -minCol.value, -minRow.value;
    result := Translate(shape, dx, dy);
    assert dx == -MinCol(shape) && dy == -MinRow(shape);
  }

  /**
   * The minimum-finding loop of normalizeShape; the minima start at
   * Infinity, here None, which only an empty shape leaves in place.
   */
  method ShapeMinima(shape: Shape) returns (minCol: Option<int>, minRow: Option<int>)
    ensures shape == [] ==> minCol == None && minRow == None
    ensures shape != [] ==> minCol == Some(MinCol(shape)) && minRow == Some(MinRow(shape))
  {
    minCol, minRow := None, None;
    for i := 0 to |shape|
      invariant i == 0 ==> minCol == None && minRow == None
      invariant i > 0 ==> minCol == Some(MinCol(shape[..i])) && minRow == Some(MinRow(shape[..i]))
    {
      var (col, row) := shape[i];
      MinimaOfLonger(shape, i);
      if minCol == None || col < minCol.value {
        minCol := Some(col);
      }
      if minRow == None || row < minRow.value {
        minRow := Some(row);
      }
    }
    assert shape[..|shape|] == shape;
  }

  /** One more cell of the loop: the prefix minima are updated by the next cell alone. */
  lemma MinimaOfLonger(shape: Shape, i: int)
    requires 0 <= i < |shape|
    ensures i == 0 ==> MinCol(shape[..i + 1]) == shape[i].0 && MinRow(shape[..i + 1]) == shape[i].1
    ensures i > 0 ==> MinCol(shape[..i + 1]) == (if shape[i].0 < MinCol(shape[..i]) then shape[i].0 else MinCol(shape[..i]))
    ensures i > 0 ==> MinRow(shape[..i + 1]) == (if shape[i].1 < MinRow(shape[..i]) then shape[i].1 else MinRow(shape[..i]))
  {
    var p := shape[..i + 1];
    assert |p| == i + 1 && p[i] == shape[i];
    if i > 0 {
      assert p[..i] == shape[..i];
    }
  }

  /**
   * The normalised shape has the same length and order, every coordinate is
   * non-negative, and each coordinate's minimum is 0.
   */
  lemma NormalizedIsAnchored(shape: Shape)
    requires shape != []
    ensures var r := Normalized(shape);
      && |r| == |shape|
      && (forall c | c in r :: c.0 >= 0 && c.1 >= 0)
      && (exists c | c in r :: c.0 == 0)
      && (exists c | c in r :: c.1 == 0)
  {
    var r := Normalized(shape);
    MinimaAttained(shape);
    var i :| 0 <= i < |shape| && shape[i].0 == MinCol(shape);
    var j :| 0 <= j < |shape| && shape[j].1 == MinRow(shape);
    assert r[i] in r && r[i].0 == 0;
    assert r[j] in r && r[j].1 == 0;
    forall c | c in r ensures c.0 >= 0 && c.1 >= 0 {
      var k :| 0 <= k < |r| && r[k] == c;
      assert shape[k] in shape;
    }
  }

  /** One vector is subtracted from every point, so differences between points are kept. */
  lemma NormalizedKeepsDifferences(shape: Shape, i: int, j: int)
    requires 0 <= i < |shape| && 0 <= j < |shape|
    ensures var r := Normalized(shape);
      r[i].0 - r[j].0 == shape[i].0 - shape[j].0 && r[i].1 - r[j].1 == shape[i].1 - shape[j].1
  {
  }

  lemma MinColTranslate(shape: Shape, dx: int, dy: int)
    requires shape != []
    ensures MinCol(Translate(shape, dx, dy)) == MinCol(shape) + dx
    ensures MinRow(Translate(shape, dx, dy)) == MinRow(shape) + dy
  {
    var t := Translate(shape, dx, dy);
    MinimaAttained(shape);
    MinimaAttained(t);
    var i :| 0 <= i < |t| && t[i].0 == MinCol(t);
    var j :| 0 <= j < |t| && t[j].1 == MinRow(t);
    var i' :| 0 <= i' < |shape| && shape[i'].0 == MinCol(shape);
    var j' :| 0 <= j' < |shape| && shape[j'].1 == MinRow(shape);
    assert shape[i] in shape && shape[j] in shape;
    assert t[i'] in t && t[j'] in t;
  }

  lemma TranslateByZero(shape: Shape)
    ensures Translate(shape, 0, 0) == shape
  {
    var t := Translate(shape, 0, 0);
    assert forall i | 0 <= i < |shape| :: t[i] == shape[i];
  }

  /** Normalising twice is normalising once. */
  lemma NormalizeIdempotent(shape: Shape)
    ensures Normalized(Normalized(shape)) == Normalized(shape)
  {
    if shape != [] {
      NormalizedMinimaAreZero(shape);
      AnchoredIsNormalized(Normalized(shape));
    }
  }

  lemma NormalizedMinimaAreZero(shape: Shape)
    requires shape != []
    ensures var n := Normalized(shape); n != [] && MinCol(n) == 0 && MinRow(n) == 0
  {
    var dx, dy := -MinCol(shape), -MinRow(shape);
    assert Normalized(shape) == Translate(shape, dx, dy);
    MinColTranslate(shape, dx, dy);
  }

  /** A shape whose minima are already 0 is its own normal form. */
  lemma AnchoredIsNormalized(shape: Shape)
    requires shape != [] && MinCol(shape) == 0 && MinRow(shape) == 0
    ensures Normalized(shape) == shape
  {
    TranslateByZero(shape);
  }

  // ---------------------------------------------------------------------
  // The add_shape pipeline

  /** The comparator of add_shape: first component, then second. */
  predicate Less(a: Cell, b: Cell)
  {
    a.0 < b.0 || (a.0 == b.0 && a.1 < b.1)
  }

  predicate Sorted(s: seq<Cell>)
  {
    forall i, j | 0 <= i < j < |s| :: !Less(s[j], s[i])
  }

  predicate StrictlySorted(s: seq<Cell>)
  {
    forall i, j | 0 <= i < j < |s| :: Less(s[i], s[j])
  }

  predicate Distinct(s: seq<Cell>)
  {
    forall i, j | 0 <= i < j < |s| :: s[i] != s[j]
  }

  /** The cells whose Grid value is true. */
  function TrueCells(grid: map<Cell, bool>): set<Cell>
  {
    set c | c in grid && grid[c]
  }

  /** Push parseKey(pos) for every entry of Grid whose value is true (the entry order is left open). */
  method CollectTrue(grid: map<Cell, bool>) returns (shape: seq<Cell>)
    ensures Distinct(shape)
    ensures forall c :: c in shape <==> c in TrueCells(grid)
  {
    shape := [];
    var rest := grid.Keys;
    while rest != {}
      invariant rest <= grid.Keys
      invariant Distinct(shape)
      invariant forall c | c in shape :: c in grid && grid[c] && c !in rest
      invariant forall c | c in grid && grid[c] && c !in rest :: c in shape
      decreases |rest|
    {
      var k :| k in rest;
      if grid[k] {
        shape := shape + [k];
      }
      rest := rest - {k};
    }
  }

  /** Insert x after the points that come before it. */
  function Insert(x: Cell, s: seq<Cell>): (r: seq<Cell>)
    requires Sorted(s)
    ensures Sorted(r) && multiset(r) == multiset(s) + multiset{x}
  {
    if s == [] || !Less(s[0], x) then [x] + s
    else
      var rest := Insert(x, s[1..]);
      SortedCons(s[0], x, s[1..], rest);
      assert s == [s[0]] + s[1..];
      [s[0]] + rest
  }

  /** Putting h in front of a sorted list of points that do not come before h keeps it sorted. */
  lemma SortedCons(h: Cell, x: Cell, tail: seq<Cell>, rest: seq<Cell>)
    requires Sorted([h] + tail) && Less(h, x)
    requires Sorted(rest) && multiset(rest) == multiset(tail) + multiset{x}
    ensures Sorted([h] + rest)
  {
    forall j | 0 <= j < |rest| ensures !Less(rest[j], h) {
      assert rest[j] in multiset(rest);
      if rest[j] != x {
        assert rest[j] in multiset(tail);
        assert rest[j] in tail;
        var k :| 0 <= k < |tail| && tail[k] == rest[j];
        assert ([h] + tail)[k + 1] == rest[j] && ([h] + tail)[0] == h;
      }
    }
  }

  /** shape.sort with the add_shape comparator: sorted, and a permutation of its input. */
  function SortPoints(s: seq<Cell>): (r: seq<Cell>)
    ensures Sorted(r) && multiset(r) == multiset(s)
  {
    if s == [] then []
    else
      assert s == [s[0]] + s[1..];
      Insert(s[0], SortPoints(s[1..]))
  }

  /** Sorting distinct points gives a strictly sorted list of the same points. */
  lemma SortDistinct(s: seq<Cell>)
    requires Distinct(s)
    ensures StrictlySorted(SortPoints(s))
    ensures forall c :: c in SortPoints(s) <==> c in s
  {
    var r := SortPoints(s);
    forall c ensures c in r <==> c in s {
      assert c in r <==> c in multiset(r);
      assert c in s <==> c in multiset(s);
    }
    forall i, j | 0 <= i < j < |r| ensures Less(r[i], r[j]) {
      if r[i] == r[j] {
        MultiplicityOfDuplicate(r, i, j);
        DistinctMultiplicity(s, r[i]);
        assert false;
      }
    }
  }

  lemma {:induction false} MultiplicityOfDuplicate(s: seq<Cell>, i: int, j: int)
    requires 0 <= i < j < |s| && s[i] == s[j]
    ensures multiset(s)[s[i]] >= 2
  {
    var x := s[i];
    assert s == s[..i] + [x] + s[i + 1..j] + [x] + s[j + 1..];
    assert multiset(s) == multiset(s[..i]) + multiset{x} + multiset(s[i + 1..j]) + multiset{x} + multiset(s[j + 1..]);
  }

  lemma {:induction false} DistinctMultiplicity(s: seq<Cell>, x: Cell)
    requires Distinct(s)
    ensures multiset(s)[x] <= 1
    decreases |s|
  {
    if s != [] {
      assert s == [s[0]] + s[1..];
      assert Distinct(s[1..]);
      DistinctMultiplicity(s[1..], x);
      if s[0] == x {
        assert x !in s[1..];
      }
    }
  }

  /**
   * Two strictly sorted lists of the same points are equal: the sorted
   * shape does not depend on the order in which Grid's entries are visited.
   */
  lemma {:induction false} StrictlySortedUnique(a: seq<Cell>, b: seq<Cell>)
    requires StrictlySorted(a) && StrictlySorted(b)
    requires forall c :: c in a <==> c in b
    ensures a == b
    decreases |a|
  {
    SameElementsEmpty(a, b);
    if a != [] {
      assert b[0] in b && a[0] in a;
      HeadIsLeast(a, b[0]);
      HeadIsLeast(b, a[0]);
      forall c ensures c in a[1..] <==> c in b[1..] {
        if c in a[1..] {
          var i :| 0 <= i < |a[1..]| && a[1..][i] == c;
          assert Less(a[0], a[i + 1]) && c in a;
          var n :| 0 <= n < |b| && b[n] == c;
          assert n != 0 && b[1..][n - 1] == c;
        }
        if c in b[1..] {
          var i :| 0 <= i < |b[1..]| && b[1..][i] == c;
          assert Less(b[0], b[i + 1]) && c in b;
          var n :| 0 <= n < |a| && a[n] == c;
          assert n != 0 && a[1..][n - 1] == c;
        }
      }
      StrictlySortedUnique(a[1..], b[1..]);
      assert a == [a[0]] + a[1..] && b == [b[0]] + b[1..];
    }
  }

  lemma HeadIsLeast(s: seq<Cell>, x: Cell)
    requires StrictlySorted(s) && x in s
    ensures x == s[0] || Less(s[0], x)
  {
    var k :| 0 <= k < |s| && s[k] == x;
    if k > 0 {
      assert Less(s[0], s[k]);
    }
  }

  lemma SameElementsEmpty(a: seq<Cell>, b: seq<Cell>)
    requires forall c :: c in a <==> c in b
    ensures a == [] <==> b == []
  {
    if a != [] {
      assert a[0] in b;
    }
    if b != [] {
      assert b[0] in a;
    }
  }

  /** Normalising a sorted list keeps it sorted. */
  lemma NormalizedKeepsOrder(s: seq<Cell>)
    requires StrictlySorted(s)
    ensures StrictlySorted(Normalized(s))
  {
  }

  /**
   * The add_shape handler: nothing when the name field is empty or no cell
   * is set; otherwise the set cells, sorted and normalised.
   */
  method AddShape(board: Board, nameField: string) returns (out: Option<Shape>)
    ensures out.None? <==> nameField == "" || TrueCells(board.grid) == {}
    ensures out.Some? ==> exists pts ::
      && StrictlySorted(pts)
      && (forall c :: c in pts <==> c in TrueCells(board.grid))
      && out.value == Normalized(pts)
  {
    if nameField == "" {
      return None;
    }
    var shape := CollectTrue(board.grid);
    if |shape| == 0 {
      return None;
    }
    assert shape[0] in TrueCells(board.grid);
    var sorted := SortPoints(shape);
    SortDistinct(shape);
    var result := NormalizeShape(sorted);
    return Some(result);
  }
}
