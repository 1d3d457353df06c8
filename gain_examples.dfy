/**
 The ranker on the two three-variable spin models of the unit tests:
 "notall" (every pair +1, lowest energy when the variables differ) and
 "notb" (ab and bc +1, ca -1, lowest energy when b differs from a and c).
 Neither has linear biases or an offset.
 */
module GainExamples {
  import opened Wrappers
  import opened Gains
  import opened Labels

  function Triangle(ca: int): (m: Model)
    ensures WellFormed(m)
  {
    Model(["a", "b", "c"], map["a" := 0, "b" := 0, "c" := 0],
          [Interaction("a", "b", 1), Interaction("b", "c", 1), Interaction("c", "a", ca)],
          0, Spin)
  }

  function NotAll(): Model { Triangle(1) }

  function NotB(): Model { Triangle(-1) }

  function Spins(a: int, b: int, c: int): Sample
  {
    map["a" := a, "b" := b, "c" := c]
  }

  lemma NeighbourSumOfThree(e1: Interaction, e2: Interaction, e3: Interaction, s: Sample, x: Var)
    ensures NeighbourSum([e1, e2, e3], s, x)
         == NeighbourTerm(e1, s, x) + NeighbourTerm(e2, s, x) + NeighbourTerm(e3, s, x)
  {
    assert [e1, e2, e3][1..] == [e2, e3];
    assert [e2, e3][1..] == [e3];
    assert [e3][1..] == [];
    assert NeighbourSum([e3], s, x) == NeighbourTerm(e3, s, x);
    assert NeighbourSum([e2, e3], s, x) == NeighbourTerm(e2, s, x) + NeighbourSum([e3], s, x);
  }

  /** The local field of each variable of the triangle, both orientations of each pair counted. */
  lemma TriangleFields(ca: int, a: int, b: int, c: int)
    ensures var m, s := Triangle(ca), Spins(a, b, c);
      && LocalField(m, s, "a") == b + ca * c
      && LocalField(m, s, "b") == a + c
      && LocalField(m, s, "c") == b + ca * a
  {
    var m, s := Triangle(ca), Spins(a, b, c);
    var e1, e2, e3 := Interaction("a", "b", 1), Interaction("b", "c", 1), Interaction("c", "a", ca);
    assert "a" != "b" && "a" != "c" && "b" != "c" by {
      assert "a"[0] != "b"[0] && "a"[0] != "c"[0] && "b"[0] != "c"[0];
    }
    assert Val(s, "a") == a && Val(s, "b") == b && Val(s, "c") == c;
    NeighbourSumOfThree(e1, e2, e3, s, "a");
    NeighbourSumOfThree(e1, e2, e3, s, "b");
    NeighbourSumOfThree(e1, e2, e3, s, "c");
  }

  /** The (gain, variable) pairs of a, b and c: the spin gain -2 * s_v * (local field of v). */
  function TriangleEntries(ca: int, a: int, b: int, c: int): seq<GainEntry>
  {
    [GainEntry(-2 * a * (b + ca * c), "a"), GainEntry(-2 * b * (a + c), "b"), GainEntry(-2 * c * (b + ca * a), "c")]
  }

  lemma TriangleGains(ca: int, a: int, b: int, c: int)
    ensures GainList(Triangle(ca), Spins(a, b, c), ["a", "b", "c"]) == TriangleEntries(ca, a, b, c)
  {
    TriangleFields(ca, a, b, c);
    var s := Spins(a, b, c);
    assert Val(s, "a") == a && Val(s, "b") == b && Val(s, "c") == c;
  }

  lemma TriangleValid(ca: int, a: int, b: int, c: int)
    requires InDomain(Spin, a) && InDomain(Spin, b) && InDomain(Spin, c)
    ensures ValidSample(Triangle(ca), Spins(a, b, c))
  {
    var s := Spins(a, b, c);
    assert s["a"] == a && s["b"] == b && s["c"] == c;
  }

  lemma ReverseThree<T>(x: T, y: T, z: T)
    ensures multiset([z, y, x]) == multiset([x, y, z])
  {
  }

  lemma RotateThree<T>(x: T, y: T, z: T)
    ensures multiset([z, x, y]) == multiset([x, y, z])
  {
  }

  /** The ranking of the triangle at a spin sample is the descending arrangement of the three gains. */
  lemma TriangleRanking(ca: int, a: int, b: int, c: int, r: seq<GainEntry>)
    requires InDomain(Spin, a) && InDomain(Spin, b) && InDomain(Spin, c)
    requires Descending(r)
    requires multiset(r) == multiset(TriangleEntries(ca, a, b, c))
    ensures FlipEnergyGains(Triangle(ca), Spins(a, b, c)) == Ok(r)
  {
    var m, s := Triangle(ca), Spins(a, b, c);
    TriangleValid(ca, a, b, c);
    TriangleGains(ca, a, b, c);
    RankingIsTheDescendingArrangement(m, s, r);
  }

  /** When the gains rank c, b, a, the ranking is c, b, a. */
  lemma RankedCBA(ca: int, a: int, b: int, c: int)
    requires InDomain(Spin, a) && InDomain(Spin, b) && InDomain(Spin, c)
    requires var g := TriangleEntries(ca, a, b, c); RanksBefore(g[2], g[1]) && RanksBefore(g[1], g[0])
    ensures var g := TriangleEntries(ca, a, b, c);
            FlipEnergyGains(Triangle(ca), Spins(a, b, c)) == Ok([g[2], g[1], g[0]])
  {
    var g := TriangleEntries(ca, a, b, c);
    RanksBeforeTransitive(g[2], g[1], g[0]);
    ReverseThree(g[0], g[1], g[2]);
    assert g == [g[0], g[1], g[2]];
    TriangleRanking(ca, a, b, c, [g[2], g[1], g[0]]);
  }

  /** When the gains rank c, a, b, the ranking is c, a, b. */
  lemma RankedCAB(ca: int, a: int, b: int, c: int)
    requires InDomain(Spin, a) && InDomain(Spin, b) && InDomain(Spin, c)
    requires var g := TriangleEntries(ca, a, b, c); RanksBefore(g[2], g[0]) && RanksBefore(g[0], g[1])
    ensures var g := TriangleEntries(ca, a, b, c);
            FlipEnergyGains(Triangle(ca), Spins(a, b, c)) == Ok([g[2], g[0], g[1]])
  {
    var g := TriangleEntries(ca, a, b, c);
    RanksBeforeTransitive(g[2], g[0], g[1]);
    RotateThree(g[0], g[1], g[2]);
    assert g == [g[0], g[1], g[2]];
    TriangleRanking(ca, a, b, c, [g[2], g[0], g[1]]);
  }

  /** Flipping c of notall at (1, 1, -1) raises the energy by 4; a and b by 0. */
  lemma NotAllFlipC()
    ensures FlipEnergyGains(NotAll(), Spins(1, 1, -1))
         == Ok([GainEntry(4, "c"), GainEntry(0, "b"), GainEntry(0, "a")])
  {
    assert StrLess("a", "b");
    RankedCBA(1, 1, 1, -1);
  }

  lemma NegatedSpins(a: int, b: int, c: int)
    ensures Negated(Spins(a, b, c)) == Spins(-a, -b, -c)
  {
    var n, t := Negated(Spins(a, b, c)), Spins(-a, -b, -c);
    assert n.Keys == t.Keys;
    forall x | x in n ensures n[x] == t[x] {
    }
  }

  /** Negating every spin of a triangle sample leaves its ranking as it is. */
  lemma TriangleNegated(ca: int, a: int, b: int, c: int)
    ensures FlipEnergyGains(Triangle(ca), Spins(-a, -b, -c)) == FlipEnergyGains(Triangle(ca), Spins(a, b, c))
  {
    NegationKeepsRanking(Triangle(ca), Spins(a, b, c));
    NegatedSpins(a, b, c);
  }

  /** The same ranking at the negated sample (-1, -1, 1). */
  lemma NotAllFlipCNegated()
    ensures FlipEnergyGains(NotAll(), Spins(-1, -1, 1))
         == Ok([GainEntry(4, "c"), GainEntry(0, "b"), GainEntry(0, "a")])
  {
    NotAllFlipC();
    TriangleNegated(1, 1, 1, -1);
  }

  /** At (1, -1, 1), every flip of notb raises the energy by 4. */
  lemma NotBAllEquallyBad()
    ensures FlipEnergyGains(NotB(), Spins(1, -1, 1))
         == Ok([GainEntry(4, "c"), GainEntry(4, "b"), GainEntry(4, "a")])
  {
    assert StrLess("a", "b") && StrLess("b", "c");
    RankedCBA(-1, 1, -1, 1);
  }

  /** At all-ones, every flip of notall lowers the energy by 4. */
  lemma NotAllAllEquallyGood()
    ensures FlipEnergyGains(NotAll(), Spins(1, 1, 1))
         == Ok([GainEntry(-4, "c"), GainEntry(-4, "b"), GainEntry(-4, "a")])
  {
    assert StrLess("a", "b") && StrLess("b", "c");
    RankedCBA(1, 1, 1, 1);
  }

  /** At all-ones, flipping b of notb is the worst move: c and a (ties, larger label first) before b. */
  lemma NotBFlipBWorst()
    ensures FlipEnergyGains(NotB(), Spins(1, 1, 1))
         == Ok([GainEntry(0, "c"), GainEntry(0, "a"), GainEntry(-4, "b")])
  {
    assert StrLess("a", "c");
    RankedCAB(-1, 1, 1, 1);
  }

  /** A sample of the triangle that leaves c out is refused, naming c. */
  lemma TriangleMissingC(ca: int, a: int, b: int)
    requires InDomain(Spin, a) && InDomain(Spin, b)
    ensures FlipEnergyGains(Triangle(ca), map["a" := a, "b" := b]) == Err(MissingVariable("c"))
  {
    var s: Sample := map["a" := a, "b" := b];
    assert "c" != "a" && "c" != "b" by {
      assert "c"[0] != "a"[0] && "c"[0] != "b"[0];
    }
    assert s["a"] == a && s["b"] == b && "c" !in s;
    var vs: seq<Var> := ["a", "b", "c"];
    assert vs[1..] == ["b", "c"] && vs[1..][1..] == ["c"];
    assert FirstInvalid(["c"], Spin, s) == Some(MissingVariable("c"));
  }

  /** A sample that leaves c out is refused, naming c. */
  lemma MissingVariableRefused()
    ensures FlipEnergyGains(NotAll(), map["a" := 1, "b" := 1]) == Err(MissingVariable("c"))
  {
    TriangleMissingC(1, 1, 1);
  }

  /** A sample that sets b to 2 is refused, naming b. */
  lemma OutOfDomainRefused()
    ensures FlipEnergyGains(NotAll(), Spins(1, 2, 1)) == Err(ValueOutOfDomain("b"))
  {
    assert Spins(1, 2, 1)["a"] == 1 && Spins(1, 2, 1)["b"] == 2;
  }
}
