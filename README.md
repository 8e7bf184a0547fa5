# Hex polyomino packer, modelled in Dafny

The project is a browser tool. It packs hexagonal polyominoes ("shapes") onto
a board of hexagons, and it lets a user draw new shapes. This model covers
the part of the tool that does the work:

- **Cell keys** (`keys.dfy`, module `Keys`). The packer stores every board
  cell in a `Map` under the string key `"q,r"` (`SKey`) and reads keys back
  with `parseKey`. The model writes out only the parts of JavaScript's
  integer formatting, `split` and `parseInt` that act on the decimal
  strings `SKey` produces. Exponent forms such as `1e+21` and `parseInt`'s
  `0x` prefix are not modelled. It proves that a key parses back
  to its cell, and so distinct cells have distinct keys. The packer's maps
  are therefore modelled as maps keyed by the cell itself.
- **Hex rotation** (`hex.dfy`, module `Hex`). This covers axial and cube
  coordinates, the 60-degree cube rotation, the centroid and
  `rotateShapeAroundCenter`. The source computes the centroid as a
  floating-point quotient and rounds with `Math.round`. The model keeps the
  sums and the count and rounds exactly, with ties going up. It proves:
  - six cube rotations are the identity;
  - when the centroid is a lattice point, six shape rotations give back the
    original list, cell for cell;
  - when it is not, the rounding drifts. The two-cell shape
    `[(a, b), (a + 1, b)]` comes back moved by (2, 2).
- **The board** (`board.dfy`, module `Packer`). The hex board of
  `functions.js`:
  - the three maps `Grid`, `colorGrid` and `GridToShape`, held as fields of
    a `Board` class with `rows` and `cols`;
  - `initGrid`, which builds the skewed rows of a hex board;
  - `place`, which checks every cell and then stamps all of them;
  - `unplace`, which frees the cells and reports the cells that were already
    free.

  Proved: the board invariant is kept, and on a consistent board (as
  `initGrid` leaves it) unplace undoes a successful place exactly.
- **The search** (`placer.dfy`, module `Placer`). `place_shapes` of
  `functions.js` with `show_steps` false. It is a recursive depth-first
  search over six rotations, then `offsetx` in `[-cols, cols)`, then
  `offsety` in `[-rows, rows)`. `PlaceShapes` keeps the three loops as
  methods over the `Board`. They are proved against the recursive function
  `SolveFrom`, which in turn is proved to have these properties:
  - A true result comes with a packing. Every shape lies on free board
    cells, no two shapes overlap, each cell carries its shape's colour and
    name, and every other cell is untouched.
  - On a consistent board (as `initGrid` leaves it), a false result leaves
    the maps exactly as they were.
  - On a consistent board the search decides packability. It returns true
    exactly when the shapes can be placed one after the other at candidates
    in the window, each on free board cells. So a false result means no such
    packing exists.
  - When it succeeds, it keeps the first candidate for the first shape, in
    loop order, from which the remaining shapes can be packed.

  The search is complete only within the window that the loops of
  `place_shapes` scan (functions.js:223-226). That window pairs `offsetx`, which moves a cell's first coordinate
  (the row index `x` of `initGrid`), with `cols`. It pairs `offsety`, which
  moves the second coordinate, with `rows`. On a board one row high and at
  least two cells wide, two one-cell shapes are therefore reported
  unplaceable although there is room for both
  (`NarrowWindowMissesFreeCells`). This is the window the source's loops
  scan, and the completeness results above are stated relative to it.
- **The earlier variant** (`script.dfy`, module `Script`). It has a fixed
  10 x 10 rectangular board keyed by strings, a search over translations
  only, and a `show_steps` flag that makes the search stop with `false` at
  the first placement. Its `unplace` builds each translated cell with the
  comma expression `(pos[0] + offsetx, pos[1] + offsety)`, which yields one
  number. Both coordinates read from it are `undefined`, so it only ever
  writes the key `"undefined,undefined"` (see Findings).
- **The shape maker** (`shapemaker.dfy`, module `ShapeMaker`). This covers:
  - the click handler that toggles one board cell;
  - `normalizeShape`, which shifts a shape so that both smallest
    coordinates are 0;
  - the `add_shape` handler, which collects the set cells, sorts them by
    first and then second coordinate, and normalises them.

`wrappers.dfy` holds the `Option` type.

## Model

| member | source | states |
|---|---|---|
| Keys.SKey | functions.js:31-33 | the key of a cell: both coordinates in decimal, separated by a comma; KeyRoundTrip and SKeyInjective state what it guarantees |
| Keys.ParseKey | functions.js:46-50 | split at every comma, then parseInt of each part; KeyRoundTrip proves it inverts SKey |
| Keys.ParseInt | functions.js:48 | parseInt on a decimal string: skip leading white space, read an optional sign and the longest run of digits; no digit gives NaN (None) |
| Keys.KeyRoundTrip | functions.js:31-50 | parseKey of SKey(x, y) is exactly [x, y]: the key keeps both coordinates and adds no part |
| Keys.SKeyInjective | functions.js:31-33 | two cells with the same key are the same cell, so the string-keyed maps behave as maps keyed by cells |
| Keys.ParseIntOfIntToString | functions.js:46-50 | parseInt reads back the integer that template formatting wrote, for negative numbers too |
| Keys.UndefinedKeyIsNoCellKey | script.js:116-121 | no cell's key equals "undefined,undefined", the key unplace in script.js writes |
| Keys.SplitAtSeparator | functions.js:47 | split at ',' cuts a string at its first separator: the part before it, then the split of the rest |
| Keys.SplitWithoutSeparator | functions.js:47 | a string without the separator splits into itself alone |
| Keys.DigitsValueOfDigits | functions.js:48 | the digits of a natural number are read back as that number |
| Hex.AxialToCube | functions.js:108-113 | every cube coordinate produced lies on the plane x + y + z = 0 |
| Hex.CubeToAxial | functions.js:115-117 | drops the middle cube coordinate, keeping (x, z); CubeRoundTrip proves it inverts AxialToCube |
| Hex.CubeRoundTrip | functions.js:108-117 | cubeToAxial inverts axialToCube |
| Hex.RotateCubeClockwise | functions.js:130-132 | the rotation negates the coordinate sum, so it keeps x + y + z = 0 |
| Hex.RotateCubeSixTimes | functions.js:130-132 | six 60-degree rotations give back the original cube coordinate |
| Hex.CubeSum | functions.js:119-126 | the summed cube coordinates of any shape still sum to 0 |
| Hex.GetCubeCenter | functions.js:119-129 | the accumulation loop yields the centroid of the shape; its three sums add up to 0 and equal the summed cube coordinates |
| Hex.MathRound | functions.js:153 | Math.round of the exact quotient a / n, that is floor(a / n + 1/2); MathRoundIsNearest proves it is the nearest integer |
| Hex.MathRoundIsNearest | functions.js:153 | Math.round(a / n) is the integer nearest to a / n, halves rounded up |
| Hex.MathRoundOfMultiple | functions.js:153 | rounding an exact quotient changes nothing |
| Hex.RotateShapeAroundCenter | functions.js:134-154 | returns every cell rotated 60 degrees about the shape's centroid and rounded, in input order, with the length unchanged |
| Hex.RotatedShapeAt | functions.js:134-154 | closed form of output cell k in terms of the coordinate sums and the length |
| Hex.SingleCellIsFixed | functions.js:134-154 | a one-cell shape is its own centroid and does not move |
| Hex.SingleCellRotations | functions.js:134-154 | any number of rotations leaves a one-cell shape where it is |
| Hex.RotatedShapeOfCentered | functions.js:134-154 | with a lattice centroid the rounding is exact: the result is the exact rotation about the centroid, and the centroid stays put |
| Hex.SixRotationsOfCenteredShape | functions.js:134-154 | when the centroid is a lattice point, six rotations return the original list cell for cell |
| Hex.RotationsOfCentered | functions.js:134-154 | k rotations of a shape centred on a lattice point are k exact rotations, keeping length and centroid |
| Hex.LatticeRotateCellSixTimes | functions.js:130-132 | six exact rotations about a lattice point give back the cell |
| Hex.LatticeRotateOffsetSum | functions.js:142-150 | the exact rotation rotates the summed offsets from the centre like a single offset |
| Hex.DominoDriftsUnderSixRotations | functions.js:134-154 | when the centroid is not a lattice point, six rotations need not return the shape: the two-cell shape moves by (2, 2) |
| Hex.RotatedPair | functions.js:134-154 | closed form of the rotation of any two-cell shape |
| Packer.Translate | functions.js:188 | the translated shape has one cell per input cell |
| Packer.Board.constructor | functions.js:13-25 | a new board is 7 x 7 with all three maps empty |
| Packer.Board.InitGrid | functions.js:171-185 | the maps become exactly the blank board: row x holds the cols cells from -floor(x/2), each free, gray and unowned; rows and cols take the given values |
| Packer.BoardSize | functions.js:177-184 | initGrid builds rows * cols distinct cells |
| Packer.BlankConsistent | functions.js:171-185 | the blank board satisfies the board invariant (same keys in all three maps, free cells gray and unowned) |
| Packer.Board.Place | functions.js:187-202 | succeeds exactly when every translated cell is on the board and free; on success exactly those cells become occupied with colors[0] and the name, otherwise nothing changes |
| Packer.PlaceCells | functions.js:196-200 | the stamping loop leaves every target cell occupied, coloured and owned, and nothing else changed |
| Packer.PlacePreservesConsistent | functions.js:196-200 | a place keeps the board invariant |
| Packer.AlreadyFree | functions.js:208-210 | the cells unplace logs as already free, in visiting order: those whose Grid entry is false when visited, so a cell missing from Grid is not logged on its first visit, and a cell visited again in the same call is logged |
| Packer.Board.Unplace | functions.js:204-215 | every translated cell becomes free, gray and unowned; the reported cells are those free when visited |
| Packer.UnplaceCells | functions.js:208-214 | the loop frees every target cell and reports, in order, the cells whose Grid entry is false when visited |
| Packer.UnplacePreservesConsistent | functions.js:208-214 | an unplace keeps the board invariant |
| Packer.PlaceThenUnplaceRestores | functions.js:187-215 | on a consistent board, unplace after a successful place of the same cells restores all three maps exactly |
| Packer.UnplaceAfterPlaceReportsNothing | functions.js:204-215 | after a successful place of distinct cells, unplace reports no cell as already free |
| Packer.UnplaceOfFreeCellsReportsAll | functions.js:209-210 | unplace of cells that are all free reports every one of them, in order |
| Packer.UnplaceOfFreeCellsKeepsGrid | functions.js:211 | unplace of free cells leaves Grid unchanged |
| Placer.SolveFrom | functions.js:217-249 | place_shapes as a recursive function: true at once for no shapes, otherwise the search over rotations and offsets from rotation 0, offsetx -cols, offsety -rows |
| Placer.Search | functions.js:222-245 | the three loops from a cursor: offsety moves on until rows, then offsetx until cols, then the shape is rotated, and after six rotations the result is false with the maps as they are |
| Placer.TryAt | functions.js:227-237 | the loop body: if place succeeds, recurse on the remaining shapes and keep a success together with this placement; if the recursion fails, unplace and go on with the next offsety; if place fails, go on with the maps untouched |
| Placer.PlaceShapes | functions.js:217-249 | the three loops over the board leave the result and the maps that the recursive search specification SolveFrom gives; rows and cols are unchanged |
| Placer.SweepOffsetY | functions.js:226-240 | the offsety loop either ends the whole search with its success, or leaves the maps from which the search goes on at the next offsetx |
| Placer.SearchAtPlaceable | functions.js:227-236 | where the shape fits, the search keeps the recursive success or unplaces and moves to the next offsety |
| Placer.SearchAtUnplaceable | functions.js:227-239 | where the shape does not fit, the search moves to the next offsety with the maps untouched |
| Placer.SearchStepsRotation | functions.js:241-244 | after the offsetx loop the search goes on with the shape rotated once more, from (-cols, -rows) |
| Placer.SearchExhausted | functions.js:222-248 | after six rotations the search returns false with the maps unchanged |
| Placer.EmptyListSolves | functions.js:218-219 | an empty list of shapes succeeds at once with nothing changed |
| Placer.SolveFromRestoresOnFailure | functions.js:217-249 | a false result leaves all three maps as they were on entry, and any result keeps the board invariant |
| Placer.SolveFromIsPacking | functions.js:217-249 | a true result comes with one in-window placement per shape, each on free board cells, that turns the entry maps into the final maps |
| Placer.PacksChoices | functions.js:222-226 | a packing has one choice per shape, each with rotation < 6, offsetx in [-cols, cols) and offsety in [-rows, rows) |
| Placer.PacksOnFreeCells | functions.js:190 | every shape of a packing lies on cells that were on the board and free on entry |
| Placer.PacksDisjoint | functions.js:190-200 | no cell is covered by two shapes of a packing |
| Placer.PacksOwned | functions.js:196-200 | each shape's cells end up occupied, in its colour and owned by its name |
| Placer.PacksFrame | functions.js:196-200 | a cell covered by no shape keeps all three values |
| Placer.PacksKeepsKeys | functions.js:190-197 | a packing adds no cell to the board |
| Placer.SolveFromFirstFit | functions.js:222-248 | the search succeeds exactly when some in-window candidate for the first shape fits and the recursive call from there succeeds; it then keeps the first such candidate in loop order (rotation, then offsetx, then offsety) with the recursive call's outcome; a false result means no candidate passed that test |
| Placer.PackingImpliesSolved | functions.js:217-249 | the search misses no packing: if the shapes can be placed one after the other at in-window candidates on free board cells, the result is true |
| Placer.SolveFromDecidesPacking | functions.js:217-249 | on a consistent board the result is true exactly when such a packing exists, so a false result means there is none in the window |
| Placer.NarrowWindowMissesFreeCells | functions.js:223-226 | on a board 1 row by at least 2 cells, two one-cell shapes fit on the board but the search returns false |
| Script.KeysAt | script.js:101 | one key per cell of the shape |
| Script.Page.constructor | script.js:19-20 | the maps start empty |
| Script.Page.InitGrid | script.js:90-98 | every key SKey(x, y) for 0 <= x < 10 and 0 <= y < 10 is set free and gray, in row order, and no key is removed |
| Script.GridKeysAreBoardKeys | script.js:91-93 | the keys initGrid writes are exactly those of the 10 x 10 rectangle |
| Script.InitGridSetsBoardKeys | script.js:90-98 | after initGrid every board key is present and free, and every other key keeps its presence and value |
| Script.InitGridKeepsTidy | script.js:90-98 | initGrid keeps every key coloured and every free key gray |
| Script.Page.Place | script.js:100-113 | succeeds exactly when every translated key is present and free; on success exactly those keys become occupied in colors[0], otherwise nothing changes |
| Script.UnplaceAsWritten | script.js:115-124 | the state after unplace as written: for a non-empty shape only the key "undefined,undefined" is set free and gray, and the shape's own keys are untouched |
| Script.Page.Unplace | script.js:115-124 | as written: only the key "undefined,undefined" is set free and gray; the number of "already False" reports is as the source logs them |
| Script.CellKeysAreDefined | script.js:116-119 | the key that unplace writes is none of the shape's cell keys |
| Script.UnplaceLeavesShapeOccupied | script.js:100-124 | place followed by unplace as written leaves every cell of the shape occupied, so the maps are not restored |
| Script.PlaceThenIntendedUnplaceRestores | script.js:115-124 | the evidently intended unplace, which clears the translated keys, restores tidy maps exactly after a successful place |
| Script.Solve | script.js:126-152 | place_shapes as a recursive function: true at once for no shapes, otherwise the sweep over translations from (-10, -10) |
| Script.Sweep | script.js:129-148 | the two loops from a cursor: offsety moves on until Rows, then offsetx until Cols, and then the result is false |
| Script.TryAt | script.js:133-144 | the loop body: with show_steps the first successful place ends the search with false; otherwise recurse without show_steps, keep a success, or unplace as written and go on |
| Script.Page.PlaceShapes | script.js:126-152 | the two loops leave the result and the maps that the recursive specification Solve gives |
| Script.Page.SweepColumn | script.js:131-146 | the offsety loop either ends place_shapes with its result, or leaves the maps from which the search goes on at the next offsetx |
| Script.SweepAt | script.js:132-145 | inside the window the search runs the loop body at the cursor |
| Script.ShowStepsPlacesFirstFit | script.js:133-138 | with show_steps, the search returns false leaving the first shape placed at the first translation in loop order where it fits |
| Script.ShowStepsWithoutFit | script.js:126-152 | with show_steps, when the first shape fits nowhere, the search returns false and changes nothing |
| Script.SolveKeepsOccupied | script.js:126-152 | place_shapes removes no key, and an occupied cell key stays occupied whatever the outcome |
| Script.FailedSearchLeavesPlacement | script.js:139-143 | without show_steps, once the first shape fits somewhere a failed search does not leave the maps as it found them |
| ShapeMaker.ToggleCell | shapemaker.js:30-39 | an occupied cell becomes free and gray; any other cell becomes occupied and red; nothing else changes |
| ShapeMaker.ToggleFlipsOneCell | shapemaker.js:31-39 | a click flips exactly the clicked cell, colours it to match, and leaves every other cell alone |
| ShapeMaker.ToggleTwice | shapemaker.js:31-39 | clicking a board cell twice restores Grid, and all maps for a free cell of a consistent board |
| ShapeMaker.MinCol | shapemaker.js:49-52 | the smallest first coordinate is a lower bound of every cell's |
| ShapeMaker.MinRow | shapemaker.js:49-52 | the smallest second coordinate is a lower bound of every cell's |
| ShapeMaker.MinimaAttained | shapemaker.js:49-52 | both minima are attained by some cell |
| ShapeMaker.ShapeMinima | shapemaker.js:46-52 | the loop leaves the two minima, or the Infinity start values (None) for an empty shape |
| ShapeMaker.NormalizeShape | shapemaker.js:45-55 | the result is the shape shifted so that its smallest coordinates are 0; the empty shape stays empty |
| ShapeMaker.NormalizedIsAnchored | shapemaker.js:45-55 | the normalised shape keeps the length, has only non-negative coordinates, and both minima are 0 (the relative positions, index by index, are kept by NormalizedKeepsDifferences) |
| ShapeMaker.NormalizedKeepsDifferences | shapemaker.js:54 | the differences between any two cells are kept |
| ShapeMaker.NormalizeIdempotent | shapemaker.js:45-55 | normalising twice is normalising once |
| ShapeMaker.CollectTrue | shapemaker.js:68-73 | the collected list holds every set cell exactly once and nothing else |
| ShapeMaker.SortPoints | shapemaker.js:81-84 | the sorted list is ordered by first then second coordinate and is a permutation of the input |
| ShapeMaker.Insert | shapemaker.js:81-84 | inserting into a sorted list keeps it sorted and adds exactly that point |
| ShapeMaker.SortDistinct | shapemaker.js:81-84 | sorting distinct cells gives a strictly increasing list of the same cells |
| ShapeMaker.StrictlySortedUnique | shapemaker.js:69-84 | two strictly sorted lists of the same cells are equal, so the result does not depend on Grid's entry order |
| ShapeMaker.NormalizedKeepsOrder | shapemaker.js:81-86 | normalising a sorted list keeps it sorted |
| ShapeMaker.AddShape | shapemaker.js:61-90 | nothing comes out exactly when the name field is empty or no cell is set; otherwise the output is the set cells, sorted and normalised |

## Left out

- Drawing, the canvas, pixel geometry, `neighbors`, `redrawGrid` and the debugging overlay are left out. They do not affect the maps.
- Loading shapes (`fetch`, `GetLines`, the shape index) and `downloadCustomShape` are left out. They are I/O.
- Console output is left out, except for `unplace`'s "already False" reports. Those are returned as values: the cells in `functions.js`, a count in `script.js`.
- `waitForClick` and the `show_steps` pause of `functions.js` are left out. `Placer` models `place_shapes` with `show_steps` false.
- The search methods are not `async`. Awaiting a promise does not change the order in which the maps are updated.
- Packer.Board.InitGrid: the two input fields' values are parameters. A non-numeric field (`parseInt` giving NaN) is not modelled. With NaN the loops run zero times.
- Hex.RotateShapeAroundCenter: the floating-point division and `Math.round` are modelled as exact rational rounding. When the centroid is not exact in binary (n = 3 or 6, say), an exact .5 tie can round the other way even for small shapes. For the 6-cell shape [(0,0),(0,1),(0,2),(0,3),(1,2),(2,3)], the first cell's exact second coordinate is -0.5 and rounds to 0, while the double computation gives -0.5000000000000002 and rounds to -1. The one- and two-cell results and the lattice-centroid results are unaffected, because their floating-point arithmetic is exact.
- Packer.Board.Place and Packer.Board.Unplace: each loop updates local copies of the maps, which are assigned to the fields once the loop ends. The source writes the global maps one cell at a time. No other code runs in between, so the final state is the same.
- ShapeMaker.CollectTrue: `Map.entries()` visits keys in insertion order. The model leaves that order open. The result after sorting does not depend on it (`ShapeMaker.StrictlySortedUnique`).
- ShapeMaker.AddShape: the shape's name is read from `form.ariaValueMax` and only passed to the download, so it is not modelled. The empty-name check is on `form.value` (`nameField`).
- ShapeMaker.ToggleCell: finding the hex under the mouse (floating-point distance) is left out. The method takes the cell that was found.
- Keys.ParseInt: only radix-10 parsing of sign-and-digit strings is modelled, and only ASCII white space is skipped; `parseInt` also skips Unicode spaces such as U+00A0 and U+FEFF, which `SKey` keys never contain. The `0x` prefix that `parseInt`'s default radix also accepts is not, and neither is the exponent form (`1e+21` and above) that JavaScript's number formatting produces. `SKey` keys of integer cells never contain either.
- ShapeMaker.SortPoints: `Array.prototype.sort` is modelled by its result (a sorted permutation). The comparator gives a total order on distinct points, so with no duplicates the result is unique.
- The script.js board size is fixed at 10 x 10, as that file declares it.

## Findings

| source | as written | input that shows it | evidently intended | confidence | as-written member | corrected member |
|---|---|---|---|---|---|---|
| script.js:116 | `shape.map(pos => (pos[0] + offsetx, pos[1] + offsety))` is a comma expression, so each `pos` is a number; `SKey(pos[0], pos[1])` is `"undefined,undefined"` and unplace never frees a cell of the shape | place `[[0, 0]]` at (0, 0) on the initialised board, then unplace it: key "0,0" stays true | an array literal `[pos[0] + offsetx, pos[1] + offsety]`, so that unplace frees the cells place set | not executed | Script.UnplaceLeavesShapeOccupied, Script.FailedSearchLeavesPlacement | Script.PlaceThenIntendedUnplaceRestores, Packer.PlaceThenUnplaceRestores |
