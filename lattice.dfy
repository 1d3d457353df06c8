/**
 Coordinate model of a Chimera lattice of shape (M, N, T): M rows and N columns
 of unit cells, each cell two shores of T nodes. A node is the coordinate
 (i, j, u, k) -- row, column, shore and index within the shore -- and is
 numbered by the linear index ((i * N + j) * 2 + u) * T + k.

 The same formula, with the tile shape in place of the native one, gives the
 local index of a node inside a tile (see module Tiles).
 */
module Lattice {

  datatype Shape = Shape(m: nat, n: nat, t: nat)

  datatype Coord = Coord(i: nat, j: nat, u: nat, k: nat)

  /** The coordinate names a node of a lattice of shape s. */
  predicate InShape(s: Shape, c: Coord)
  {
    c.i < s.m && c.j < s.n && c.u < 2 && c.k < s.t
  }

  /** Number of nodes of a lattice of shape s. */
  function Size(s: Shape): nat
  {
    s.m * s.n * 2 * s.t
  }

  /** Every coordinate of a lattice of shape s. */
  function AllCoords(s: Shape): (cs: set<Coord>)
    ensures forall c :: c in cs <==> InShape(s, c)
  {
    set i: nat, j: nat, u: nat, k: nat | i < s.m && j < s.n && u < 2 && k < s.t :: Coord(i, j, u, k)
  }

  /** The linear index of a coordinate. */
  function LinearIndex(s: Shape, c: Coord): nat
  {
    ((c.i * s.n + c.j) * 2 + c.u) * s.t + c.k
  }

  /** The coordinate of a linear index: the inverse of LinearIndex. */
  function Coordinate(s: Shape, idx: nat): Coord
    requires s.n > 0 && s.t > 0
  {
    var cell := idx / s.t / 2;
    Coord(cell / s.n, cell % s.n, idx / s.t % 2, idx % s.t)
  }

  // ---------------------------------------------------------------------
  // Arithmetic helpers (Euclidean division on naturals)

  lemma MulMonotone(a: int, b: int, d: int)
    requires a <= b && d >= 0
    ensures a * d <= b * d
  {
    assert b * d - a * d == (b - a) * d;
  }

  /** q and r are the quotient and remainder of q * d + r by d. */
  lemma DivModUnique(x: int, d: int, q: int, r: int)
    requires d > 0 && 0 <= r < d && x == q * d + r
    ensures x / d == q && x % d == r
  {
    var q', r' := x / d, x % d;
    assert x == q' * d + r';
    if q' < q {
      assert (q' + 1) * d == q' * d + d;
      MulMonotone(q' + 1, q, d);
      assert false;
    } else if q < q' {
      assert (q + 1) * d == q * d + d;
      MulMonotone(q + 1, q', d);
      assert false;
    }
  }

  /** A mixed-radix digit step stays below the product of the radices. */
  lemma StepBound(q: nat, r: nat, d: nat, bound: nat)
    requires q < bound && r < d
    ensures q * d + r < bound * d
  {
    MulMonotone(q + 1, bound, d);
    assert (q + 1) * d == q * d + d;
  }

  /** The quotient of a number below bound * d is below bound. */
  lemma DivBound(x: nat, d: nat, bound: nat)
    requires d > 0 && x < bound * d
    ensures x / d < bound
  {
    assert x == (x / d) * d + x % d;
    if x / d >= bound {
      MulMonotone(bound, x / d, d);
      assert false;
    }
  }

  // ---------------------------------------------------------------------
  // The linear index is a bijection between the coordinates of a shape and
  // the range [0, Size(s)).

  lemma LinearIndexBound(s: Shape, c: Coord)
    requires InShape(s, c)
    ensures LinearIndex(s, c) < Size(s)
  {
    StepBound(c.i, c.j, s.n, s.m);
    StepBound(c.i * s.n + c.j, c.u, 2, s.m * s.n);
    StepBound((c.i * s.n + c.j) * 2 + c.u, c.k, s.t, s.m * s.n * 2);
  }

  lemma CoordinateOfLinearIndex(s: Shape, c: Coord)
    requires InShape(s, c)
    ensures Coordinate(s, LinearIndex(s, c)) == c
  {
    var cell := c.i * s.n + c.j;
    var half := cell * 2 + c.u;
    DivModUnique(LinearIndex(s, c), s.t, half, c.k);
    DivModUnique(half, 2, cell, c.u);
    DivModUnique(cell, s.n, c.i, c.j);
  }

  lemma LinearIndexOfCoordinate(s: Shape, idx: nat)
    requires s.n > 0 && s.t > 0 && idx < Size(s)
    ensures InShape(s, Coordinate(s, idx))
    ensures LinearIndex(s, Coordinate(s, idx)) == idx
  {
    var half := idx / s.t;
    var cell := half / 2;
    assert idx == half * s.t + idx % s.t;
    assert half == cell * 2 + half % 2;
    assert cell == (cell / s.n) * s.n + cell % s.n;
    DivBound(idx, s.t, s.m * s.n * 2);
    DivBound(half, 2, s.m * s.n);
    DivBound(cell, s.n, s.m);
  }
}
