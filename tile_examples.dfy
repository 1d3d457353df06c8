/**
 The tiler on the lattices of the unit tests: C(4) = (4, 4, 4) cut into
 1 x 1 x 4 and 2 x 2 x 4 tiles, (3, 3, 4) cut into 2 x 2 x 3 tiles (which do
 not divide it), and (2, 2, 3) with one-letter labels cut into 1 x 1 x 4 tiles.
 */
module TileExamples {
  import opened Wrappers
  import opened Lattice
  import opened Tiles

  /** The one-letter label of node l: "a", "b", ... */
  function Letter(l: nat): (x: string)
    requires l < 26
    ensures |x| == 1 && x[0] as int == 'a' as int + l
  {
    [('a' as int + l) as char]
  }

  /** The labels of the first n nodes. */
  function Letters(n: nat): set<string>
    requires n <= 26
  {
    set l | l in Range(n) :: Letter(l)
  }

  /** The coordinate of a one-letter label, from the letter's position in the alphabet. */
  function LetterCoord(s: Shape): string -> Option<Coord>
  {
    (x: string) =>
      if |x| == 1 && 'a' <= x[0] && s.n > 0 && s.t > 0
      then Some(Coordinate(s, x[0] as int - 'a' as int))
      else None
  }

  /** The first Size(s) letters name every node of a lattice of at most 26 nodes once. */
  lemma LetterLabelsCoverLattice(s: Shape)
    requires s.n > 0 && s.t > 0 && Size(s) <= 26
    ensures AllResolve(Letters(Size(s)), LetterCoord(s), s)
    ensures CoordsOf(Letters(Size(s)), LetterCoord(s)) == AllCoords(s)
  {
    var vars, coordOf := Letters(Size(s)), LetterCoord(s);
    forall x | x in vars ensures Resolves(coordOf, s, x) {
      var l :| l in Range(Size(s)) && x == Letter(l);
      LinearIndexOfCoordinate(s, l);
    }
    forall c | c in AllCoords(s) ensures c in CoordsOf(vars, coordOf) {
      var l := LinearIndex(s, c);
      LinearIndexBound(s, c);
      CoordinateOfLinearIndex(s, c);
      assert Letter(l) in vars;
      assert coordOf(Letter(l)) == Some(c);
    }
  }

  /**
   Tiling an integer-labelled lattice: every node is placed, the tiles are
   the grid of tiles, local indices stay in range, and when the tile shape
   divides the lattice every tile is full.
   */
  method TileIndexLattice(s: Shape, ts: Shape) returns (tiles: map<TileKey, map<nat, seq<nat>>>)
    requires s.n > 0 && s.t > 0 && PositiveShape(ts)
    ensures Placed(tiles) == Range(Size(s))
    ensures |tiles| == CeilDiv(s.m, ts.m) * CeilDiv(s.n, ts.n) * CeilDiv(s.t, ts.t)
    ensures forall key :: key in tiles ==> LocalIndices(tiles[key]) <= Range(Size(ts))
    ensures s.m % ts.m == 0 && s.n % ts.n == 0 && s.t % ts.t == 0 ==>
              forall key :: key in tiles ==> LocalIndices(tiles[key]) == Range(Size(ts))
  {
    var vars, coordOf := Range(Size(s)), IndexCoord(s);
    IndexLabelsCoverLattice(s);
    var r := ChimeraTiles(vars, coordOf, s, ts.m, ts.n, ts.t);
    tiles := r.value;
    TilingPartitions(vars, coordOf, s, ts, tiles);
    WholeLatticeTileCount(vars, coordOf, s, ts, tiles);
    LocalIndicesInRange(vars, coordOf, s, ts, tiles);
    if s.m % ts.m == 0 && s.n % ts.n == 0 && s.t % ts.t == 0 {
      EvenTilesAreFull(vars, coordOf, s, ts, tiles);
    }
  }

  /** C(4) in 1 x 1 x 4 tiles: 16 tiles, all 128 nodes, each tile's local indices 0 .. 7. */
  method SingleTarget() returns (tiles: map<TileKey, map<nat, seq<nat>>>)
    ensures |tiles| == 16
    ensures Placed(tiles) == Range(128)
    ensures forall key :: key in tiles ==> LocalIndices(tiles[key]) == Range(8)
  {
    tiles := TileIndexLattice(Shape(4, 4, 4), Shape(1, 1, 4));
  }

  /** C(4) in 2 x 2 x 4 tiles: 4 tiles, all 128 nodes, each tile's local indices 0 .. 31. */
  method EvenDivisor() returns (tiles: map<TileKey, map<nat, seq<nat>>>)
    ensures |tiles| == 4
    ensures Placed(tiles) == Range(128)
    ensures forall key :: key in tiles ==> LocalIndices(tiles[key]) == Range(32)
  {
    tiles := TileIndexLattice(Shape(4, 4, 4), Shape(2, 2, 4));
  }

  /** (3, 3, 4) in 2 x 2 x 3 tiles: 2 * 2 * 2 = 8 tiles, all 72 nodes, local indices below 24. */
  method UnevenDivisor() returns (tiles: map<TileKey, map<nat, seq<nat>>>)
    ensures |tiles| == 8
    ensures Placed(tiles) == Range(72)
    ensures forall key :: key in tiles ==> LocalIndices(tiles[key]) <= Range(24)
  {
    tiles := TileIndexLattice(Shape(3, 3, 4), Shape(2, 2, 3));
  }

  /** (2, 2, 3) labelled "a" .. "x" in 1 x 1 x 4 tiles: 4 tiles, all 24 labels, local indices below 8. */
  method StringLabels() returns (tiles: map<TileKey, map<string, seq<nat>>>)
    ensures |tiles| == 4
    ensures Placed(tiles) == Letters(24)
    ensures forall key :: key in tiles ==> LocalIndices(tiles[key]) <= Range(8)
  {
    var s, ts := Shape(2, 2, 3), Shape(1, 1, 4);
    LetterLabelsCoverLattice(s);
    var r := ChimeraTiles(Letters(24), LetterCoord(s), s, 1, 1, 4);
    tiles := r.value;
    TilingPartitions(Letters(24), LetterCoord(s), s, ts, tiles);
    WholeLatticeTileCount(Letters(24), LetterCoord(s), s, ts, tiles);
    LocalIndicesInRange(Letters(24), LetterCoord(s), s, ts, tiles);
  }
}
