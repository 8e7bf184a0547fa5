/**
 * Hex coordinate arithmetic of functions.js: axial and cube coordinates, the
 * 60-degree cube rotation, the centroid of a shape, and the rotation of a
 * whole shape about its centroid followed by `Math.round`.
 *
 * JavaScript computes the centroid and the rotated coordinates in floating
 * point. The model computes them exactly: every coordinate is scaled by the
 * shape's cell count n, so the centroid sum/n becomes the integer sum, and
 * `Math.round(a / n)` is computed from the scaled value a.
 */
module Hex {

  /** An axial hex coordinate [q, r]. */
  type Cell = (int, int)

  /** A shape: cell offsets relative to the shape's own origin, in file order. */
  type Shape = seq<Cell>

  datatype Cube = Cube(x: int, y: int, z: int)

  function AxialToCube(q: int, r: int): (c: Cube)
    ensures c.x + c.y + c.z == 0
  {
    Cube(q, -q - r, r)
  }

  function CubeToAxial(c: Cube): Cell
  {
    (c.x, c.z)
  }

  /** axialToCube loses nothing: converting back gives the same cell. */
  lemma CubeRoundTrip(q: int, r: int)
    ensures CubeToAxial(AxialToCube(q, r)) == (q, r)
  {
  }

  function RotateCubeClockwise(c: Cube): (r: Cube)
    ensures r.x + r.y + r.z == -(c.x + c.y + c.z)
    ensures c.x + c.y + c.z == 0 ==> r.x + r.y + r.z == 0
  {
    Cube(-c.z, -c.x, -c.y)
  }

  function RotateCubeTimes(c: Cube, k: nat): Cube
  {
    if k == 0 then c else RotateCubeClockwise(RotateCubeTimes(c, k - 1))
  }

  /** Six 60-degree rotations are the identity. */
  lemma RotateCubeSixTimes(c: Cube)
    ensures RotateCubeTimes(c, 6) == c
  {
    assert RotateCubeTimes(c, 1) == Cube(-c.z, -c.x, -c.y);
    assert RotateCubeTimes(c, 2) == Cube(c.y, c.z, c.x);
    assert RotateCubeTimes(c, 3) == Cube(-c.x, -c.y, -c.z);
    assert RotateCubeTimes(c, 4) == Cube(c.z, c.x, c.y);
    assert RotateCubeTimes(c, 5) == Cube(-c.y, -c.z, -c.x);
  }

  function CubeAdd(a: Cube, b: Cube): Cube
  {
    Cube(a.x + b.x, a.y + b.y, a.z + b.z)
  }

  /** Componentwise sum of the cube coordinates of a shape. */
  function CubeSum(shape: Shape): (s: Cube)
    ensures s.x + s.y + s.z == 0
  {
    if shape == [] then Cube(0, 0, 0)
    else CubeAdd(AxialToCube(shape[0].0, shape[0].1), CubeSum(shape[1..]))
  }

  /** The centroid (sumX / n, sumY / n, sumZ / n), kept as the sums and n. */
  datatype CubeCenter = CubeCenter(sumX: int, sumY: int, sumZ: int, n: nat)

  function CenterOf(shape: Shape): CubeCenter
  {
    var s := CubeSum(shape);
    CubeCenter(s.x, s.y, s.z, |shape|)
  }

  /** getCubeCenter: accumulate the cube coordinates of every cell. */
  method GetCubeCenter(shape: Shape) returns (center: CubeCenter)
    ensures center == CenterOf(shape)
    ensures center.sumX + center.sumY + center.sumZ == 0
    ensures center.sumX == CubeSum(shape).x && center.sumZ == CubeSum(shape).z
  {
    var sumX, sumY, sumZ := 0, 0, 0;
    var i := 0;
    while i < |shape|
      invariant 0 <= i <= |shape|
      invariant CubeAdd(Cube(sumX, sumY, sumZ), CubeSum(shape[i..])) == CubeSum(shape)
    {
      assert shape[i..][1..] == shape[i + 1..];
      var c := AxialToCube(shape[i].0, shape[i].1);
      sumX, sumY, sumZ := sumX + c.x, sumY + c.y, sumZ + c.z;
      i := i + 1;
    }
    center := CubeCenter(sumX, sumY, sumZ, |shape|);
  }

  /**
   * Math.round(a / n): the nearest integer, halves rounded up, that is
   * floor(a / n + 1/2); Dafny's `/` floors for a positive divisor.
   */
  function MathRound(a: int, n: int): int
    requires n > 0
  {
    (2 * a + n) / (2 * n)
  }

  /** MathRound gives the nearest integer to a / n, halves rounded up. */
  lemma MathRoundIsNearest(a: int, n: int)
    requires n > 0
    ensures var r := MathRound(a, n); (2 * n) * r - n <= 2 * a < (2 * n) * r + n
  {
  }

  /** Exact quotients are not changed by rounding. */
  lemma MathRoundOfMultiple(k: int, n: int)
    requires n > 0
    ensures MathRound(n * k, n) == k
  {
    assert 2 * (n * k) + n == k * (2 * n) + n;
    DivOfMultiplePlus(k, 2 * n, n);
  }

  lemma DivOfMultiplePlus(q: int, d: int, r: int)
    requires d > 0 && 0 <= r < d
    ensures (q * d + r) / d == q
  {
    var a := q * d + r;
    var quotient := a / d;
    assert d * quotient + a % d == a;
    if quotient > q {
      MulMonotone(q + 1, quotient, d);
      assert false;
    } else if quotient < q {
      MulMonotone(quotient + 1, q, d);
      assert false;
    }
  }

  lemma MulMonotone(x: int, y: int, d: int)
    requires d > 0 && x <= y
    ensures x * d <= y * d
  {
    assert y * d == x * d + (y - x) * d;
  }

  /**
   * One cell of rotateShapeAroundCenter, every quantity multiplied by n:
   * translate to the centroid, rotate, translate back, convert to axial,
   * and round each coordinate.
   */
  function RotateCellAbout(cell: Cell, c: CubeCenter): Cell
    requires c.n > 0
  {
    var n := c.n as int;
    var cube := AxialToCube(cell.0, cell.1);
    var t := Cube(n * cube.x - c.sumX, n * cube.y - c.sumY, n * cube.z - c.sumZ);
    var rt := RotateCubeClockwise(t);
    var back := CubeToAxial(CubeAdd(rt, Cube(c.sumX, c.sumY, c.sumZ)));
    (MathRound(back.0, n), MathRound(back.1, n))
  }

  /** The `shape.map` of rotateShapeAroundCenter: every cell rotated about c. */
  function RotateAbout(shape: Shape, c: CubeCenter): Shape
    requires shape != [] ==> c.n > 0
  {
    seq(|shape|, i requires 0 <= i < |shape| => RotateCellAbout(shape[i], c))
  }

  /** The shape that rotateShapeAroundCenter returns. */
  function RotatedShape(shape: Shape): Shape
  {
    RotateAbout(shape, CenterOf(shape))
  }

  /** rotateShapeAroundCenter(shape). */
  method RotateShapeAroundCenter(shape: Shape) returns (rotated: Shape)
    ensures rotated == RotatedShape(shape)
    ensures |rotated| == |shape|
  {
    var center := GetCubeCenter(shape);
    rotated := RotateAbout(shape, center);
  }

  /** The shape after k successive rotations. */
  function Rotations(shape: Shape, k: nat): Shape
  {
    if k == 0 then shape else RotatedShape(Rotations(shape, k - 1))
  }

  // ---------------------------------------------------------------------
  // Closed form of the rotation

  lemma RotateCellClosedForm(cell: Cell, sx: int, sy: int, sz: int, n: nat)
    requires n > 0 && sx + sy + sz == 0
    ensures RotateCellAbout(cell, CubeCenter(sx, sy, sz, n))
         == (MathRound(sx + sz - n * cell.1, n), MathRound(n * (cell.0 + cell.1) - sx, n))
  {
    var c := CubeCenter(sx, sy, sz, n);
    var cube := AxialToCube(cell.0, cell.1);
    var t := Cube(n * cube.x - sx, n * cube.y - sy, n * cube.z - sz);
    var back := CubeToAxial(CubeAdd(RotateCubeClockwise(t), Cube(sx, sy, sz)));
    assert n * cube.y == -(n * (cell.0 + cell.1));
    assert back.0 == sx + sz - n * cell.1;
    assert back.1 == n * (cell.0 + cell.1) - sx;
    assert RotateCellAbout(cell, c) == (MathRound(back.0, n), MathRound(back.1, n));
  }

  /** A one-cell shape is its own centroid, so rotating it changes nothing. */
  lemma SingleCellIsFixed(a: int, b: int)
    ensures RotatedShape([(a, b)]) == [(a, b)]
  {
    var c := CenterOf([(a, b)]);
    var shape: Shape := [(a, b)];
    assert shape[1..] == [];
    assert AxialToCube(a, b) == Cube(a, -a - b, b);
    assert CubeSum(shape) == Cube(a, -a - b, b);
    assert c == CubeCenter(a, -a - b, b, 1);
    RotateCellClosedForm((a, b), a, -a - b, b, 1);
    MathRoundOfMultiple(a, 1);
    MathRoundOfMultiple(b, 1);
  }

  lemma {:induction false} SingleCellRotations(a: int, b: int, k: nat)
    ensures Rotations([(a, b)], k) == [(a, b)]
  {
    if k > 0 {
      SingleCellRotations(a, b, k - 1);
      SingleCellIsFixed(a, b);
    }
  }

  /** Every output cell is (round(-r + (SQ + SR)/n), round(q + r - SQ/n)). */
  lemma {:induction false} RotatedShapeAt(shape: Shape, k: int)
    requires 0 <= k < |shape|
    ensures RotatedShape(shape)[k]
         == (MathRound(CubeSum(shape).x + CubeSum(shape).z - |shape| * shape[k].1, |shape|),
             MathRound(|shape| * (shape[k].0 + shape[k].1) - CubeSum(shape).x, |shape|))
  {
    var sum := CubeSum(shape);
    var c := CubeCenter(sum.x, sum.y, sum.z, |shape|);
    assert CenterOf(shape) == c;
    assert RotatedShape(shape)[k] == RotateCellAbout(shape[k], c);
    RotateCellClosedForm(shape[k], sum.x, sum.y, sum.z, |shape|);
  }

  // ---------------------------------------------------------------------
  // Shapes whose centroid is a lattice point

  /** The exact 60-degree rotation of a cell about the lattice point (a, b). */
  function LatticeRotateCell(cell: Cell, a: int, b: int): Cell
  {
    (-cell.1 + a + b, cell.0 + cell.1 - a)
  }

  function LatticeRotate(shape: Shape, a: int, b: int): Shape
  {
    seq(|shape|, i requires 0 <= i < |shape| => LatticeRotateCell(shape[i], a, b))
  }

  /** The centroid is the lattice point (a, b): the sums are n*a and n*b. */
  predicate CenteredAt(shape: Shape, a: int, b: int)
  {
    var s := CubeSum(shape);
    s.x == |shape| * a && s.z == |shape| * b
  }

  lemma LatticeRotateCellSixTimes(cell: Cell, a: int, b: int)
    ensures var f := (c: Cell) => LatticeRotateCell(c, a, b);
            f(f(f(f(f(f(cell)))))) == cell
  {
  }

  lemma RotateAboutLattice(shape: Shape, c: CubeCenter, a: int, b: int)
    requires c.n > 0 && c.sumX + c.sumY + c.sumZ == 0
    requires c.sumX == c.n * a && c.sumZ == c.n * b
    ensures RotateAbout(shape, c) == LatticeRotate(shape, a, b)
  {
    forall i | 0 <= i < |shape|
      ensures RotateAbout(shape, c)[i] == LatticeRotate(shape, a, b)[i]
    {
      RotateCellAboutLattice(shape[i], c, a, b);
    }
  }

  /** One cell of RotateAboutLattice: with a lattice centroid the rounding is exact. */
  lemma RotateCellAboutLattice(cell: Cell, c: CubeCenter, a: int, b: int)
    requires c.n > 0 && c.sumX + c.sumY + c.sumZ == 0
    requires c.sumX == c.n * a && c.sumZ == c.n * b
    ensures RotateCellAbout(cell, c) == LatticeRotateCell(cell, a, b)
  {
    RotateCellClosedForm(cell, c.sumX, c.sumY, c.sumZ, c.n);
    assert c == CubeCenter(c.sumX, c.sumY, c.sumZ, c.n);
    var n := c.n;
    var k0, k1 := -cell.1 + a + b, cell.0 + cell.1 - a;
    assert n * k0 == n * a + n * b - n * cell.1;
    assert n * (cell.0 + cell.1) == n * k1 + n * a;
    MathRoundOfMultiple(k0, n);
    MathRoundOfMultiple(k1, n);
    assert MathRound(c.sumX + c.sumZ - n * cell.1, n) == k0;
    assert MathRound(n * (cell.0 + cell.1) - c.sumX, n) == k1;
  }

  /** The summed offsets of the cells from the point (a, b). */
  function OffsetSum(shape: Shape, a: int, b: int): Cell
  {
    if shape == [] then (0, 0)
    else var rest := OffsetSum(shape[1..], a, b);
      (shape[0].0 - a + rest.0, shape[0].1 - b + rest.1)
  }

  /** The offset sum is the cube sum less n copies of (a, b). */
  lemma {:induction false} OffsetSumOfCubeSum(shape: Shape, a: int, b: int)
    ensures OffsetSum(shape, a, b) == (CubeSum(shape).x - |shape| * a, CubeSum(shape).z - |shape| * b)
  {
    if shape != [] {
      var rest := shape[1..];
      OffsetSumOfCubeSum(rest, a, b);
      var m := |rest|;
      assert |shape| == m + 1;
      assert |shape| * a == m * a + a && |shape| * b == m * b + b;
    }
  }

  /** The exact rotation about (a, b) rotates the offset sum as it rotates one offset. */
  lemma {:induction false} LatticeRotateOffsetSum(shape: Shape, a: int, b: int)
    ensures var o := OffsetSum(shape, a, b);
            OffsetSum(LatticeRotate(shape, a, b), a, b) == (-o.1, o.0 + o.1)
  {
    if shape != [] {
      LatticeRotateOffsetSum(shape[1..], a, b);
      assert LatticeRotate(shape, a, b)[1..] == LatticeRotate(shape[1..], a, b);
    }
  }

  /**
   * When the centroid is a lattice point, rounding changes nothing: the
   * rotation is the exact one about the centroid, and the centroid stays put.
   */
  lemma RotatedShapeOfCentered(shape: Shape, a: int, b: int)
    requires shape != [] && CenteredAt(shape, a, b)
    ensures RotatedShape(shape) == LatticeRotate(shape, a, b)
    ensures CenteredAt(RotatedShape(shape), a, b)
  {
    var c := CenterOf(shape);
    RotateAboutLattice(shape, c, a, b);
    var rotated := LatticeRotate(shape, a, b);
    OffsetSumOfCubeSum(shape, a, b);
    LatticeRotateOffsetSum(shape, a, b);
    OffsetSumOfCubeSum(rotated, a, b);
  }

  lemma LatticeRotateSixTimes(shape: Shape, a: int, b: int)
    ensures LatticeRotate(LatticeRotate(LatticeRotate(LatticeRotate(LatticeRotate(LatticeRotate(
              shape, a, b), a, b), a, b), a, b), a, b), a, b) == shape
  {
    forall i | 0 <= i < |shape|
      ensures LatticeRotate(LatticeRotate(LatticeRotate(LatticeRotate(LatticeRotate(LatticeRotate(
                shape, a, b), a, b), a, b), a, b), a, b), a, b)[i] == shape[i]
    {
      LatticeRotateCellSixTimes(shape[i], a, b);
    }
  }

  /**
   * rotateShapeAroundCenter applied six times returns the original list,
   * cell for cell, whenever n divides both coordinate sums.
   */
  lemma SixRotationsOfCenteredShape(shape: Shape)
    requires shape != []
    requires CubeSum(shape).x % |shape| == 0 && CubeSum(shape).z % |shape| == 0
    ensures Rotations(shape, 6) == shape
  {
    var n := |shape|;
    var sx, sz := CubeSum(shape).x, CubeSum(shape).z;
    var a, b := sx / n, sz / n;
    assert sx == n * a + sx % n && sz == n * b + sz % n;
    assert CenteredAt(shape, a, b);
    RotationsOfCentered(shape, a, b, 6);
    LatticeRotateNSixTimes(shape, a, b);
  }

  lemma LatticeRotateNSixTimes(shape: Shape, a: int, b: int)
    ensures LatticeRotateN(shape, a, b, 6) == shape
  {
    var s1 := LatticeRotate(shape, a, b);
    var s2 := LatticeRotate(s1, a, b);
    var s3 := LatticeRotate(s2, a, b);
    var s4 := LatticeRotate(s3, a, b);
    var s5 := LatticeRotate(s4, a, b);
    assert LatticeRotateN(shape, a, b, 1) == s1;
    assert LatticeRotateN(shape, a, b, 2) == s2;
    assert LatticeRotateN(shape, a, b, 3) == s3;
    assert LatticeRotateN(shape, a, b, 4) == s4;
    assert LatticeRotateN(shape, a, b, 5) == s5;
    LatticeRotateSixTimes(shape, a, b);
  }

  function LatticeRotateN(shape: Shape, a: int, b: int, k: nat): Shape
  {
    if k == 0 then shape else LatticeRotate(LatticeRotateN(shape, a, b, k - 1), a, b)
  }

  lemma {:induction false} RotationsOfCentered(shape: Shape, a: int, b: int, k: nat)
    requires shape != [] && CenteredAt(shape, a, b)
    ensures Rotations(shape, k) == LatticeRotateN(shape, a, b, k)
    ensures |Rotations(shape, k)| == |shape| && CenteredAt(Rotations(shape, k), a, b)
  {
    if k > 0 {
      RotationsOfCentered(shape, a, b, k - 1);
      RotatedShapeOfCentered(Rotations(shape, k - 1), a, b);
    }
  }

  /**
   * Rounding does drift when the centroid is not a lattice point: six
   * rotations of the two-cell shape [(a, b), (a + 1, b)] move it by (2, 2).
   */
  lemma DominoDriftsUnderSixRotations(a: int, b: int)
    ensures Rotations([(a, b), (a + 1, b)], 6) == [(a + 2, b + 2), (a + 3, b + 2)]
  {
    DominoStep1(a, b);
    DominoStep2(a, b);
    DominoStep3(a, b);
    DominoStep4(a, b);
    DominoStep5(a, b);
    DominoStep6(a, b);
    SixRotations([(a, b), (a + 1, b)], [(a + 1, b), (a + 1, b + 1)],
                 [(a + 2, b), (a + 1, b + 1)], [(a + 2, b + 1), (a + 1, b + 1)],
                 [(a + 2, b + 2), (a + 2, b + 1)], [(a + 2, b + 2), (a + 3, b + 1)],
                 [(a + 2, b + 2), (a + 3, b + 2)]);
  }

  /** The six single rotations of the domino, one lemma each. */
  lemma DominoStep1(a: int, b: int)
    ensures RotatedShape([(a, b), (a + 1, b)]) == [(a + 1, b), (a + 1, b + 1)]
  {
    RotatedPairHalves(a, b, a + 1, b);
    assert (a + (a + 1) + b - b + 1) / 2 == a + 1;
    assert (a + 2 * b - (a + 1) + 1) / 2 == b;
    assert ((a + 1) + 2 * b - a + 1) / 2 == b + 1;
  }

  lemma DominoStep2(a: int, b: int)
    ensures RotatedShape([(a + 1, b), (a + 1, b + 1)]) == [(a + 2, b), (a + 1, b + 1)]
  {
    RotatedPairHalves(a + 1, b, a + 1, b + 1);
    assert ((a + 1) + (a + 1) + (b + 1) - b + 1) / 2 == a + 2;
    assert ((a + 1) + 2 * b - (a + 1) + 1) / 2 == b;
    assert ((a + 1) + (a + 1) + b - (b + 1) + 1) / 2 == a + 1;
    assert ((a + 1) + 2 * (b + 1) - (a + 1) + 1) / 2 == b + 1;
  }

  lemma DominoStep3(a: int, b: int)
    ensures RotatedShape([(a + 2, b), (a + 1, b + 1)]) == [(a + 2, b + 1), (a + 1, b + 1)]
  {
    RotatedPairHalves(a + 2, b, a + 1, b + 1);
    assert ((a + 2) + (a + 1) + (b + 1) - b + 1) / 2 == a + 2;
    assert ((a + 2) + 2 * b - (a + 1) + 1) / 2 == b + 1;
    assert ((a + 2) + (a + 1) + b - (b + 1) + 1) / 2 == a + 1;
    assert ((a + 1) + 2 * (b + 1) - (a + 2) + 1) / 2 == b + 1;
  }

  lemma DominoStep4(a: int, b: int)
    ensures RotatedShape([(a + 2, b + 1), (a + 1, b + 1)]) == [(a + 2, b + 2), (a + 2, b + 1)]
  {
    RotatedPairHalves(a + 2, b + 1, a + 1, b + 1);
    assert ((a + 2) + (a + 1) + (b + 1) - (b + 1) + 1) / 2 == a + 2;
    assert ((a + 2) + 2 * (b + 1) - (a + 1) + 1) / 2 == b + 2;
    assert ((a + 1) + 2 * (b + 1) - (a + 2) + 1) / 2 == b + 1;
  }

  lemma DominoStep5(a: int, b: int)
    ensures RotatedShape([(a + 2, b + 2), (a + 2, b + 1)]) == [(a + 2, b + 2), (a + 3, b + 1)]
  {
    RotatedPairHalves(a + 2, b + 2, a + 2, b + 1);
    assert ((a + 2) + (a + 2) + (b + 1) - (b + 2) + 1) / 2 == a + 2;
    assert ((a + 2) + 2 * (b + 2) - (a + 2) + 1) / 2 == b + 2;
    assert ((a + 2) + (a + 2) + (b + 2) - (b + 1) + 1) / 2 == a + 3;
    assert ((a + 2) + 2 * (b + 1) - (a + 2) + 1) / 2 == b + 1;
  }

  lemma DominoStep6(a: int, b: int)
    ensures RotatedShape([(a + 2, b + 2), (a + 3, b + 1)]) == [(a + 2, b + 2), (a + 3, b + 2)]
  {
    RotatedPairHalves(a + 2, b + 2, a + 3, b + 1);
    assert ((a + 2) + (a + 3) + (b + 1) - (b + 2) + 1) / 2 == a + 2;
    assert ((a + 2) + 2 * (b + 2) - (a + 3) + 1) / 2 == b + 2;
    assert ((a + 2) + (a + 3) + (b + 2) - (b + 1) + 1) / 2 == a + 3;
    assert ((a + 3) + 2 * (b + 1) - (a + 2) + 1) / 2 == b + 2;
  }

  /** Rotations along a chain of six known single rotations. */
  lemma SixRotations(s0: Shape, s1: Shape, s2: Shape, s3: Shape, s4: Shape, s5: Shape, s6: Shape)
    requires RotatedShape(s0) == s1 && RotatedShape(s1) == s2 && RotatedShape(s2) == s3
    requires RotatedShape(s3) == s4 && RotatedShape(s4) == s5 && RotatedShape(s5) == s6
    ensures Rotations(s0, 6) == s6
  {
    assert Rotations(s0, 1) == s1;
    assert Rotations(s0, 2) == s2;
    assert Rotations(s0, 3) == s3;
    assert Rotations(s0, 4) == s4;
    assert Rotations(s0, 5) == s5;
  }

  /** The rotation of a two-cell shape with Math.round(m / 2) written (m + 1) / 2. */
  lemma RotatedPairHalves(q0: int, r0: int, q1: int, r1: int)
    ensures RotatedShape([(q0, r0), (q1, r1)])
         == [((q0 + q1 + r1 - r0 + 1) / 2, (q0 + 2 * r0 - q1 + 1) / 2),
             ((q0 + q1 + r0 - r1 + 1) / 2, (q1 + 2 * r1 - q0 + 1) / 2)]
  {
    MathRoundByTwo(q0 + q1 + r1 - r0);
    MathRoundByTwo(q0 + 2 * r0 - q1);
    MathRoundByTwo(q0 + q1 + r0 - r1);
    MathRoundByTwo(q1 + 2 * r1 - q0);
    RotatedPairAt(q0, r0, q1, r1, (q0 + q1 + r1 - r0 + 1) / 2, (q0 + 2 * r0 - q1 + 1) / 2,
                  (q0 + q1 + r0 - r1 + 1) / 2, (q1 + 2 * r1 - q0 + 1) / 2);
  }

  /** RotatedPair with the four rounded coordinates given in any equal form. */
  lemma RotatedPairAt(q0: int, r0: int, q1: int, r1: int, a: int, b: int, c: int, d: int)
    requires a == MathRound(q0 + q1 + r1 - r0, 2) && b == MathRound(q0 + 2 * r0 - q1, 2)
    requires c == MathRound(q0 + q1 + r0 - r1, 2) && d == MathRound(q1 + 2 * r1 - q0, 2)
    ensures RotatedShape([(q0, r0), (q1, r1)]) == [(a, b), (c, d)]
  {
    RotatedPair(q0, r0, q1, r1);
  }

  /** Math.round(m / 2) is (m + 1) / 2 in floor division. */
  lemma MathRoundByTwo(m: int)
    ensures MathRound(m, 2) == (m + 1) / 2
  {
  }

  /** The rotation of a two-cell shape, in closed form. */
  lemma RotatedPair(q0: int, r0: int, q1: int, r1: int)
    ensures RotatedShape([(q0, r0), (q1, r1)])
         == [(MathRound(q0 + q1 + r1 - r0, 2), MathRound(q0 + 2 * r0 - q1, 2)),
             (MathRound(q0 + q1 + r0 - r1, 2), MathRound(q1 + 2 * r1 - q0, 2))]
  {
    var shape: Shape := [(q0, r0), (q1, r1)];
    assert shape[1..] == [(q1, r1)] && shape[1..][1..] == [];
    assert CubeSum(shape[1..]) == Cube(q1, -q1 - r1, r1);
    assert CubeSum(shape) == Cube(q0 + q1, -(q0 + q1) - (r0 + r1), r0 + r1);
    var c := CenterOf(shape);
    assert c == CubeCenter(q0 + q1, -(q0 + q1) - (r0 + r1), r0 + r1, 2);
    PairCellsClosedForm(q0, r0, q1, r1);
    var r := RotatedShape(shape);
    assert r[0] == RotateCellAbout((q0, r0), c);
    assert r[1] == RotateCellAbout((q1, r1), c);
    assert r == [r[0], r[1]];
  }

  /** Both cells of a two-cell shape rotated about its centroid. */
  lemma PairCellsClosedForm(q0: int, r0: int, q1: int, r1: int)
    ensures var c := CubeCenter(q0 + q1, -(q0 + q1) - (r0 + r1), r0 + r1, 2);
            && RotateCellAbout((q0, r0), c) == (MathRound(q0 + q1 + r1 - r0, 2), MathRound(q0 + 2 * r0 - q1, 2))
            && RotateCellAbout((q1, r1), c) == (MathRound(q0 + q1 + r0 - r1, 2), MathRound(q1 + 2 * r1 - q0, 2))
  {
    var sx, sy, sz := q0 + q1, -(q0 + q1) - (r0 + r1), r0 + r1;
    RotateCellClosedFormAt((q0, r0), sx, sy, sz, 2, q0 + q1 + r1 - r0, q0 + 2 * r0 - q1);
    RotateCellClosedFormAt((q1, r1), sx, sy, sz, 2, q0 + q1 + r0 - r1, q1 + 2 * r1 - q0);
  }

  /** RotateCellClosedForm with the two rounded numerators given in any equal form. */
  lemma RotateCellClosedFormAt(cell: Cell, sx: int, sy: int, sz: int, n: nat, a: int, b: int)
    requires n > 0 && sx + sy + sz == 0
    requires a == sx + sz - n * cell.1 && b == n * (cell.0 + cell.1) - sx
    ensures RotateCellAbout(cell, CubeCenter(sx, sy, sz, n)) == (MathRound(a, n), MathRound(b, n))
  {
    RotateCellClosedForm(cell, sx, sy, sz, n);
  }
}
