/**
 Chimera tiler (chimera_tiles).

 A model whose variables sit on the nodes of a Chimera lattice of shape
 (M, N, T) is cut into tiles of shape (ti, tj, tt): the node (i, j, u, k)
 belongs to the tile (i div ti, j div tj, k div tt) and, inside it, to the
 local node (i mod ti, j mod tj, u, k mod tt), numbered with the lattice's
 linear index for the tile shape. The result maps each tile that holds a
 variable to an embedding: each variable of the tile mapped to the chain
 [local index].

 How a variable's lattice coordinate is found is a parameter (coordOf): for
 integer labels it decodes the linear index; for other labels it stands for
 a topology-matching step that this model does not describe.
 */
module Tiles {
  import opened Wrappers
  import opened Lattice

  /** A tile: its row group, column group and shore window. */
  datatype TileKey = TileKey(row: nat, col: nat, window: nat)

  datatype TileError = ConfigurationError | TopologyError

  /** The tiler's outcome: the tile map, or why there is none. */
  type TileResult<T> = Result<T, TileError>

  /** A tile shape (ti, tj, tt) with every dimension positive. */
  predicate PositiveShape(ts: Shape)
  {
    ts.m > 0 && ts.n > 0 && ts.t > 0
  }

  /** The tile that holds the node c. */
  function TileOf(ts: Shape, c: Coord): TileKey
    requires PositiveShape(ts)
  {
    TileKey(c.i / ts.m, c.j / ts.n, c.k / ts.t)
  }

  /** The position of c inside its tile. */
  function LocalCoord(ts: Shape, c: Coord): (l: Coord)
    requires PositiveShape(ts)
    ensures c.u < 2 ==> InShape(ts, l)
  {
    Coord(c.i % ts.m, c.j % ts.n, c.u, c.k % ts.t)
  }

  /** The local index of c in its tile. */
  function LocalIndex(ts: Shape, c: Coord): nat
    requires PositiveShape(ts)
  {
    LinearIndex(ts, LocalCoord(ts, c))
  }

  /** The node at local index l of the tile key. */
  function NodeAt(ts: Shape, key: TileKey, l: nat): Coord
    requires PositiveShape(ts)
  {
    var lc := Coordinate(ts, l);
    Coord(key.row * ts.m + lc.i, key.col * ts.n + lc.j, lc.u, key.window * ts.t + lc.k)
  }

  // ---------------------------------------------------------------------
  // The per-node placement

  /** Every local index lies in [0, ti * tj * 2 * tt). */
  lemma LocalIndexBound(ts: Shape, c: Coord)
    requires PositiveShape(ts) && c.u < 2
    ensures LocalIndex(ts, c) < Size(ts)
  {
    LinearIndexBound(ts, LocalCoord(ts, c));
  }

  /** Tile and local index together determine the node: no two nodes collide. */
  lemma PlacementInjective(ts: Shape, c1: Coord, c2: Coord)
    requires PositiveShape(ts) && c1.u < 2 && c2.u < 2
    requires TileOf(ts, c1) == TileOf(ts, c2) && LocalIndex(ts, c1) == LocalIndex(ts, c2)
    ensures c1 == c2
  {
    CoordinateOfLinearIndex(ts, LocalCoord(ts, c1));
    CoordinateOfLinearIndex(ts, LocalCoord(ts, c2));
    assert c1.i == (c1.i / ts.m) * ts.m + c1.i % ts.m;
    assert c2.i == (c2.i / ts.m) * ts.m + c2.i % ts.m;
    assert c1.j == (c1.j / ts.n) * ts.n + c1.j % ts.n;
    assert c2.j == (c2.j / ts.n) * ts.n + c2.j % ts.n;
    assert c1.k == (c1.k / ts.t) * ts.t + c1.k % ts.t;
    assert c2.k == (c2.k / ts.t) * ts.t + c2.k % ts.t;
  }

  /** NodeAt inverts the placement: the node at (key, l) is placed at key with local index l. */
  lemma NodeAtPlaced(ts: Shape, key: TileKey, l: nat)
    requires PositiveShape(ts) && l < Size(ts)
    ensures TileOf(ts, NodeAt(ts, key, l)) == key
    ensures LocalIndex(ts, NodeAt(ts, key, l)) == l
  {
    var lc := Coordinate(ts, l);
    LinearIndexOfCoordinate(ts, l);
    DivModUnique(key.row * ts.m + lc.i, ts.m, key.row, lc.i);
    DivModUnique(key.col * ts.n + lc.j, ts.n, key.col, lc.j);
    DivModUnique(key.window * ts.t + lc.k, ts.t, key.window, lc.k);
  }

  // ---------------------------------------------------------------------
  // The tiling

  /** coordOf gives v a coordinate of the lattice of shape s. */
  predicate Resolves<V>(coordOf: V -> Option<Coord>, s: Shape, v: V)
  {
    coordOf(v).Some? && InShape(s, coordOf(v).value)
  }

  predicate AllResolve<V>(vars: set<V>, coordOf: V -> Option<Coord>, s: Shape)
  {
    forall v :: v in vars ==> Resolves(coordOf, s, v)
  }

  /**
   tiles is the tiling of vars: every variable sits in the tile of its node,
   mapped to the one-element chain of its local index; nothing else is in
   any tile, and no tile is empty.
   */
  predicate IsTiling<V>(vars: set<V>, coordOf: V -> Option<Coord>, s: Shape, ts: Shape,
                        tiles: map<TileKey, map<V, seq<nat>>>)
    requires PositiveShape(ts)
  {
    && AllResolve(vars, coordOf, s)
    && (forall v :: v in vars ==>
          var c := coordOf(v).value;
          TileOf(ts, c) in tiles && v in tiles[TileOf(ts, c)])
    && (forall key, v :: key in tiles && v in tiles[key] ==>
          v in vars && TileOf(ts, coordOf(v).value) == key
          && tiles[key][v] == [LocalIndex(ts, coordOf(v).value)])
    && (forall key :: key in tiles ==> tiles[key] != map[])
  }

  /**
   chimera_tiles: a configuration error unless ti, tj and tt are positive; a
   topology error when some variable has no node of the lattice; otherwise
   the tiling, built by placing one variable at a time.
   */
  method ChimeraTiles<V>(vars: set<V>, coordOf: V -> Option<Coord>, s: Shape, ti: int, tj: int, tt: int)
    returns (r: TileResult<map<TileKey, map<V, seq<nat>>>>)
    ensures ti <= 0 || tj <= 0 || tt <= 0 ==> r == Err(ConfigurationError)
    ensures ti > 0 && tj > 0 && tt > 0 ==> (r.Err? <==> !AllResolve(vars, coordOf, s))
    ensures ti > 0 && tj > 0 && tt > 0 && r.Err? ==> r.error == TopologyError
    ensures r.Ok? ==> ti > 0 && tj > 0 && tt > 0
    ensures r.Ok? ==> IsTiling(vars, coordOf, s, Shape(ti, tj, tt), r.value)
  {
    if ti <= 0 || tj <= 0 || tt <= 0 {
      return Err(ConfigurationError);
    }
    var ts := Shape(ti, tj, tt);
    var tiles: map<TileKey, map<V, seq<nat>>> := map[];
    var todo := vars;
    ghost var done: set<V> := {};
    while todo != {}
      invariant done == vars - todo && todo <= vars
      invariant IsTiling(done, coordOf, s, ts, tiles)
      decreases todo
    {
      var v :| v in todo;
      var found := coordOf(v);
      if found.None? || !InShape(s, found.value) {
        return Err(TopologyError);
      }
      var c := found.value;
      var key := TileOf(ts, c);
      var embedding := if key in tiles then tiles[key] else map[];
      PlacingKeepsTiling(done, coordOf, s, ts, tiles, v);
      tiles := tiles[key := embedding[v := [LocalIndex(ts, c)]]];
      todo := todo - {v};
      done := done + {v};
    }
    assert done == vars;
    return Ok(tiles);
  }

  /** Placing one more variable in the tile of its node extends a tiling. */
  lemma PlacingKeepsTiling<V>(done: set<V>, coordOf: V -> Option<Coord>, s: Shape, ts: Shape,
                              tiles: map<TileKey, map<V, seq<nat>>>, v: V)
    requires PositiveShape(ts) && IsTiling(done, coordOf, s, ts, tiles) && Resolves(coordOf, s, v)
    ensures var c := coordOf(v).value;
            var key := TileOf(ts, c);
            var embedding := if key in tiles then tiles[key] else map[];
            IsTiling(done + {v}, coordOf, s, ts, tiles[key := embedding[v := [LocalIndex(ts, c)]]])
  {
    var c := coordOf(v).value;
    var key := TileOf(ts, c);
    var embedding := if key in tiles then tiles[key] else map[];
    var tiles' := tiles[key := embedding[v := [LocalIndex(ts, c)]]];
    forall w | w in done + {v} ensures TileOf(ts, coordOf(w).value) in tiles' && w in tiles'[TileOf(ts, coordOf(w).value)] {
      if w != v {
        assert w in tiles[TileOf(ts, coordOf(w).value)];
      }
    }
    forall k, w | k in tiles' && w in tiles'[k]
      ensures w in done + {v} && TileOf(ts, coordOf(w).value) == k && tiles'[k][w] == [LocalIndex(ts, coordOf(w).value)]
    {
      if k != key || w != v {
        assert k in tiles && w in tiles[k];
      }
    }
    forall k | k in tiles' ensures tiles'[k] != map[] {
      if k == key {
        assert v in tiles'[k];
      }
    }
  }

  // ---------------------------------------------------------------------
  // Properties of a tiling

  /** Two tilings of the same variables are equal: the order of placement does not matter. */
  lemma TilingUnique<V>(vars: set<V>, coordOf: V -> Option<Coord>, s: Shape, ts: Shape,
                        t1: map<TileKey, map<V, seq<nat>>>, t2: map<TileKey, map<V, seq<nat>>>)
    requires PositiveShape(ts)
    requires IsTiling(vars, coordOf, s, ts, t1) && IsTiling(vars, coordOf, s, ts, t2)
    ensures t1 == t2
  {
    forall key | key in t1 ensures key in t2 && t1[key] == t2[key] {
      SameTile(vars, coordOf, s, ts, t1, t2, key);
    }
    forall key | key in t2 ensures key in t1 {
      SameTile(vars, coordOf, s, ts, t2, t1, key);
    }
  }

  lemma SameTile<V>(vars: set<V>, coordOf: V -> Option<Coord>, s: Shape, ts: Shape,
                    t1: map<TileKey, map<V, seq<nat>>>, t2: map<TileKey, map<V, seq<nat>>>, key: TileKey)
    requires PositiveShape(ts)
    requires IsTiling(vars, coordOf, s, ts, t1) && IsTiling(vars, coordOf, s, ts, t2)
    requires key in t1
    ensures key in t2 && t1[key] == t2[key]
  {
    var v := SomeMember(t1[key]);
    assert v in vars && TileOf(ts, coordOf(v).value) == key;
    forall w | w in t1[key] ensures w in t2[key] && t1[key][w] == t2[key][w] {
      assert w in vars && TileOf(ts, coordOf(w).value) == key;
    }
    forall w | w in t2[key] ensures w in t1[key] {
      assert w in vars && TileOf(ts, coordOf(w).value) == key;
    }
    assert t1[key].Keys == t2[key].Keys;
  }

  /** A variable of a non-empty map. */
  lemma SomeMember<K, T>(mp: map<K, T>) returns (k: K)
    requires mp != map[]
    ensures k in mp
  {
    k :| k in mp.Keys;
  }

  /** The variables placed in some tile. */
  function Placed<V>(tiles: map<TileKey, map<V, seq<nat>>>): set<V>
  {
    set key, v | key in tiles && v in tiles[key] :: v
  }

  /** The tiles partition the variables: together they hold exactly vars, and no variable is in two tiles. */
  lemma TilingPartitions<V>(vars: set<V>, coordOf: V -> Option<Coord>, s: Shape, ts: Shape,
                            tiles: map<TileKey, map<V, seq<nat>>>)
    requires PositiveShape(ts) && IsTiling(vars, coordOf, s, ts, tiles)
    ensures Placed(tiles) == vars
    ensures forall k1, k2, v :: k1 in tiles && k2 in tiles && v in tiles[k1] && v in tiles[k2] ==> k1 == k2
  {
    forall v | v in vars ensures v in Placed(tiles) {
      var key := TileOf(ts, coordOf(v).value);
      assert key in tiles && v in tiles[key];
    }
    forall k1, k2, v | k1 in tiles && k2 in tiles && v in tiles[k1] && v in tiles[k2] ensures k1 == k2 {
      assert TileOf(ts, coordOf(v).value) == k1;
    }
  }

  /** The first elements of the chains of an embedding. */
  function LocalIndices<V>(embedding: map<V, seq<nat>>): set<nat>
  {
    set ch | ch in embedding.Values && |ch| > 0 :: ch[0]
  }

  /** The naturals below n. */
  function Range(n: nat): (r: set<nat>)
    ensures forall l: nat :: l in r <==> l < n
  {
    NaturalsMembers(n);
    set l | l in Naturals(n)
  }

  /** The naturals below n, in increasing order. */
  function Naturals(n: nat): (r: seq<nat>)
    ensures |r| == n && forall i :: 0 <= i < n ==> r[i] == i
  {
    seq(n, i => i)
  }

  lemma NaturalsMembers(n: nat)
    ensures forall l: nat :: l in Naturals(n) <==> l < n
  {
    forall l: nat | l < n ensures l in Naturals(n) {
      assert Naturals(n)[l] == l;
    }
  }

  /** Every local index of every tile is below ti * tj * 2 * tt. */
  lemma LocalIndicesInRange<V>(vars: set<V>, coordOf: V -> Option<Coord>, s: Shape, ts: Shape,
                               tiles: map<TileKey, map<V, seq<nat>>>)
    requires PositiveShape(ts) && IsTiling(vars, coordOf, s, ts, tiles)
    ensures forall key :: key in tiles ==> LocalIndices(tiles[key]) <= Range(Size(ts))
  {
    forall key, l | key in tiles && l in LocalIndices(tiles[key]) ensures l < Size(ts) {
      var emb := tiles[key];
      var ch :| ch in emb.Values && |ch| > 0 && ch[0] == l;
      var v :| v in emb && emb[v] == ch;
      LocalIndexBound(ts, coordOf(v).value);
    }
  }

  /** coordOf gives distinct variables of vars distinct coordinates. */
  predicate Injective<V>(vars: set<V>, coordOf: V -> Option<Coord>)
  {
    forall v, w :: v in vars && w in vars && coordOf(v) == coordOf(w) ==> v == w
  }

  /** Inside one tile, distinct variables get distinct local indices. */
  lemma ChainsDistinctInTile<V>(vars: set<V>, coordOf: V -> Option<Coord>, s: Shape, ts: Shape,
                                tiles: map<TileKey, map<V, seq<nat>>>)
    requires PositiveShape(ts) && IsTiling(vars, coordOf, s, ts, tiles) && Injective(vars, coordOf)
    ensures forall key, v, w ::
              key in tiles && v in tiles[key] && w in tiles[key] && tiles[key][v] == tiles[key][w] ==> v == w
  {
    forall key, v, w | key in tiles && v in tiles[key] && w in tiles[key] && tiles[key][v] == tiles[key][w]
      ensures v == w
    {
      var cv, cw := coordOf(v).value, coordOf(w).value;
      assert [LocalIndex(ts, cv)][0] == [LocalIndex(ts, cw)][0];
      PlacementInjective(ts, cv, cw);
    }
  }

  // ---------------------------------------------------------------------
  // Tiling a whole lattice

  /** Division rounded up. */
  function CeilDiv(a: nat, d: nat): nat
    requires d > 0
  {
    (a + d - 1) / d
  }

  lemma FloorBound(k: nat, y: nat, d: nat)
    requires d > 0
    ensures k * d <= y <==> k <= y / d
  {
    assert y == (y / d) * d + y % d;
    if k <= y / d {
      MulMonotone(k, y / d, d);
    } else {
      MulMonotone(y / d + 1, k, d);
      assert (y / d + 1) * d == (y / d) * d + d;
    }
  }

  /** x is below a rounded-up quotient exactly when x * d is below the dividend. */
  lemma BelowCeil(x: nat, a: nat, d: nat)
    requires d > 0
    ensures x < CeilDiv(a, d) <==> x * d < a
  {
    FloorBound(x + 1, a + d - 1, d);
    assert (x + 1) * d == x * d + d;
  }

  /** When d divides a, rounding up changes nothing. */
  lemma CeilOfMultiple(a: nat, d: nat)
    requires d > 0 && a % d == 0
    ensures CeilDiv(a, d) == a / d && (a / d) * d == a
  {
    assert a == (a / d) * d + a % d;
    DivModUnique(a + d - 1, d, a / d, d - 1);
  }

  /** The tile keys of an a by b by w grid of tiles. */
  function Grid(a: nat, b: nat, w: nat): (g: set<TileKey>)
    ensures forall key :: key in g <==> key.row < a && key.col < b && key.window < w
  {
    set r: nat, c: nat, x: nat | r < a && c < b && x < w :: TileKey(r, c, x)
  }

  function Slab(r: nat, b: nat, w: nat): (g: set<TileKey>)
    ensures forall key :: key in g <==> key.row == r && key.col < b && key.window < w
  {
    set c: nat, x: nat | c < b && x < w :: TileKey(r, c, x)
  }

  function Line(r: nat, c: nat, w: nat): (g: set<TileKey>)
    ensures forall key :: key in g <==> key.row == r && key.col == c && key.window < w
  {
    set x: nat | x < w :: TileKey(r, c, x)
  }

  lemma {:induction false} LineSize(r: nat, c: nat, w: nat)
    ensures |Line(r, c, w)| == w
  {
    if w > 0 {
      LineSize(r, c, w - 1);
      assert Line(r, c, w) == Line(r, c, w - 1) + {TileKey(r, c, w - 1)};
    } else {
      assert Line(r, c, w) == {};
    }
  }

  lemma {:induction false} SlabSize(r: nat, b: nat, w: nat)
    ensures |Slab(r, b, w)| == b * w
  {
    if b > 0 {
      SlabSize(r, b - 1, w);
      LineSize(r, b - 1, w);
      SlabSplit(r, b, w);
      assert b * w == (b - 1) * w + w;
    } else {
      assert Slab(r, b, w) == {};
    }
  }

  lemma SlabSplit(r: nat, b: nat, w: nat)
    requires b > 0
    ensures Slab(r, b, w) == Slab(r, b - 1, w) + Line(r, b - 1, w)
    ensures Slab(r, b - 1, w) !! Line(r, b - 1, w)
  {
  }

  lemma GridSplit(a: nat, b: nat, w: nat)
    requires a > 0
    ensures Grid(a, b, w) == Grid(a - 1, b, w) + Slab(a - 1, b, w)
    ensures Grid(a - 1, b, w) !! Slab(a - 1, b, w)
  {
  }

  lemma ProductStep(a: nat, b: nat, w: nat)
    requires a > 0
    ensures a * b * w == (a - 1) * b * w + b * w
  {
    assert a * b == (a - 1) * b + b;
    assert ((a - 1) * b + b) * w == (a - 1) * b * w + b * w;
  }

  /** An a by b by w grid has a * b * w tiles. */
  lemma {:induction false} GridSize(a: nat, b: nat, w: nat)
    ensures |Grid(a, b, w)| == a * b * w
  {
    if a > 0 {
      GridSize(a - 1, b, w);
      SlabSize(a - 1, b, w);
      GridSplit(a, b, w);
      ProductStep(a, b, w);
    } else {
      assert Grid(a, b, w) == {};
    }
  }

  /** The coordinates coordOf gives the variables of vars. */
  function CoordsOf<V>(vars: set<V>, coordOf: V -> Option<Coord>): set<Coord>
  {
    set v | v in vars && coordOf(v).Some? :: coordOf(v).value
  }

  /** The grid of tiles over a lattice of shape s. */
  function TileGrid(s: Shape, ts: Shape): set<TileKey>
    requires PositiveShape(ts)
  {
    Grid(CeilDiv(s.m, ts.m), CeilDiv(s.n, ts.n), CeilDiv(s.t, ts.t))
  }

  lemma TileOfInGrid(s: Shape, ts: Shape, c: Coord)
    requires PositiveShape(ts) && InShape(s, c)
    ensures TileOf(ts, c) in TileGrid(s, ts)
  {
    assert c.i == (c.i / ts.m) * ts.m + c.i % ts.m;
    assert c.j == (c.j / ts.n) * ts.n + c.j % ts.n;
    assert c.k == (c.k / ts.t) * ts.t + c.k % ts.t;
    BelowCeil(c.i / ts.m, s.m, ts.m);
    BelowCeil(c.j / ts.n, s.n, ts.n);
    BelowCeil(c.k / ts.t, s.t, ts.t);
  }

  /** The first node of every tile of the grid is a node of the lattice. */
  lemma GridCornerInShape(s: Shape, ts: Shape, key: TileKey)
    requires PositiveShape(ts) && key in TileGrid(s, ts)
    ensures InShape(s, NodeAt(ts, key, 0))
    ensures TileOf(ts, NodeAt(ts, key, 0)) == key
  {
    assert Coordinate(ts, 0) == Coord(0, 0, 0, 0);
    BelowCeil(key.row, s.m, ts.m);
    BelowCeil(key.col, s.n, ts.n);
    BelowCeil(key.window, s.t, ts.t);
    assert Size(ts) > 0 by {
      assert ts.m * ts.n > 0;
      assert ts.m * ts.n * 2 > 0;
    }
    NodeAtPlaced(ts, key, 0);
  }

  /**
   When the variables cover the whole lattice, the tiles are exactly the
   ceil(M / ti) * ceil(N / tj) * ceil(T / tt) tiles of the grid.
   */
  lemma WholeLatticeTileCount<V>(vars: set<V>, coordOf: V -> Option<Coord>, s: Shape, ts: Shape,
                                 tiles: map<TileKey, map<V, seq<nat>>>)
    requires PositiveShape(ts) && IsTiling(vars, coordOf, s, ts, tiles)
    requires CoordsOf(vars, coordOf) == AllCoords(s)
    ensures tiles.Keys == TileGrid(s, ts)
    ensures |tiles| == CeilDiv(s.m, ts.m) * CeilDiv(s.n, ts.n) * CeilDiv(s.t, ts.t)
  {
    forall key | key in tiles ensures key in TileGrid(s, ts) {
      var v := SomeMember(tiles[key]);
      TileOfInGrid(s, ts, coordOf(v).value);
    }
    forall key | key in TileGrid(s, ts) ensures key in tiles {
      GridCornerInShape(s, ts, key);
      var c := NodeAt(ts, key, 0);
      assert c in CoordsOf(vars, coordOf);
      var v :| v in vars && coordOf(v).Some? && coordOf(v).value == c;
    }
    assert tiles.Keys == TileGrid(s, ts);
    GridSize(CeilDiv(s.m, ts.m), CeilDiv(s.n, ts.n), CeilDiv(s.t, ts.t));
  }

  /**
   When the tile shape divides the lattice shape, every tile is full: its
   local indices are the whole range [0, ti * tj * 2 * tt), one per node.
   */
  lemma EvenTilesAreFull<V>(vars: set<V>, coordOf: V -> Option<Coord>, s: Shape, ts: Shape,
                            tiles: map<TileKey, map<V, seq<nat>>>)
    requires PositiveShape(ts) && IsTiling(vars, coordOf, s, ts, tiles)
    requires CoordsOf(vars, coordOf) == AllCoords(s)
    requires s.m % ts.m == 0 && s.n % ts.n == 0 && s.t % ts.t == 0
    ensures forall key :: key in tiles ==> LocalIndices(tiles[key]) == Range(Size(ts))
  {
    WholeLatticeTileCount(vars, coordOf, s, ts, tiles);
    LocalIndicesInRange(vars, coordOf, s, ts, tiles);
    forall key, l: nat | key in tiles && l < Size(ts) ensures l in LocalIndices(tiles[key]) {
      NodeInTile(vars, coordOf, s, ts, tiles, key, l);
    }
  }

  lemma NodeInTile<V>(vars: set<V>, coordOf: V -> Option<Coord>, s: Shape, ts: Shape,
                      tiles: map<TileKey, map<V, seq<nat>>>, key: TileKey, l: nat)
    requires PositiveShape(ts) && IsTiling(vars, coordOf, s, ts, tiles)
    requires CoordsOf(vars, coordOf) == AllCoords(s)
    requires s.m % ts.m == 0 && s.n % ts.n == 0 && s.t % ts.t == 0
    requires key in TileGrid(s, ts) && l < Size(ts)
    ensures key in tiles && l in LocalIndices(tiles[key])
  {
    var lc := Coordinate(ts, l);
    LinearIndexOfCoordinate(ts, l);
    CeilOfMultiple(s.m, ts.m);
    CeilOfMultiple(s.n, ts.n);
    CeilOfMultiple(s.t, ts.t);
    StepBound(key.row, lc.i, ts.m, s.m / ts.m);
    StepBound(key.col, lc.j, ts.n, s.n / ts.n);
    StepBound(key.window, lc.k, ts.t, s.t / ts.t);
    var c := NodeAt(ts, key, l);
    assert InShape(s, c);
    NodeAtPlaced(ts, key, l);
    assert c in CoordsOf(vars, coordOf);
    var v :| v in vars && coordOf(v).Some? && coordOf(v).value == c;
    assert tiles[key][v] == [l];
    assert [l] in tiles[key].Values;
  }

  // ---------------------------------------------------------------------
  // Integer labels: the label is the node's linear index

  /** The coordinate of an integer label, decoded from the linear index. */
  function IndexCoord(s: Shape): nat -> Option<Coord>
  {
    (idx: nat) => if s.n > 0 && s.t > 0 then Some(Coordinate(s, idx)) else None
  }

  /** The labels 0 .. Size(s) - 1 name every node of the lattice once. */
  lemma IndexLabelsCoverLattice(s: Shape)
    requires s.n > 0 && s.t > 0
    ensures AllResolve(Range(Size(s)), IndexCoord(s), s)
    ensures CoordsOf(Range(Size(s)), IndexCoord(s)) == AllCoords(s)
    ensures Injective(Range(Size(s)), IndexCoord(s))
  {
    var vars, coordOf := Range(Size(s)), IndexCoord(s);
    forall idx | idx in vars ensures Resolves(coordOf, s, idx) && LinearIndex(s, coordOf(idx).value) == idx {
      LinearIndexOfCoordinate(s, idx);
    }
    forall c | c in AllCoords(s) ensures c in CoordsOf(vars, coordOf) {
      LinearIndexBound(s, c);
      CoordinateOfLinearIndex(s, c);
      assert coordOf(LinearIndex(s, c)) == Some(c);
    }
  }
}
