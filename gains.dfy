/**
 Single-flip energy-gain ranker (flip_energy_gains).

 A binary quadratic model has an ordered list of variables, a linear bias per
 variable, quadratic biases on unordered pairs of distinct variables, an
 offset and a domain: spin (values -1 and +1) or binary (values 0 and 1).
 For a full assignment, the gain of a variable is the change of energy that
 flipping that variable alone causes. The ranking lists one (gain, variable)
 pair per variable, in descending order of the pair: larger gains first, and
 among equal gains the larger label first.
 */
module Gains {
  import opened Wrappers
  import opened Labels

  type Var = string

  datatype Vartype = Spin | Binary

  /** A quadratic bias on the unordered pair {u, v}. */
  datatype Interaction = Interaction(u: Var, v: Var, bias: int)

  datatype Model = Model(
    variables: seq<Var>,
    linear: map<Var, int>,
    quadratic: seq<Interaction>,
    offset: int,
    vartype: Vartype)

  type Sample = map<Var, int>

  datatype GainEntry = GainEntry(gain: int, v: Var)

  datatype RankError = MissingVariable(v: Var) | ValueOutOfDomain(v: Var)

  /** The ranker's outcome: the ranking, or the variable that made the sample invalid. */
  type RankResult<T> = Result<T, RankError>

  predicate SamePair(a: Interaction, b: Interaction)
  {
    (a.u == b.u && a.v == b.v) || (a.u == b.v && a.v == b.u)
  }

  predicate Distinct(vs: seq<Var>)
  {
    forall i, j :: 0 <= i < j < |vs| ==> vs[i] != vs[j]
  }

  /**
   What the model container guarantees: distinct variables, each with a linear
   bias, every interaction between two distinct variables of the model, and
   at most one interaction per unordered pair.
   */
  predicate WellFormed(m: Model)
  {
    && Distinct(m.variables)
    && m.linear.Keys == (set x | x in m.variables)
    && (forall e :: e in m.quadratic ==> e.u != e.v && e.u in m.linear && e.v in m.linear)
    && (forall i, j :: 0 <= i < j < |m.quadratic| ==> !SamePair(m.quadratic[i], m.quadratic[j]))
  }

  // ---------------------------------------------------------------------
  // Domains

  predicate InDomain(vt: Vartype, x: int)
  {
    match vt
    case Spin => x == -1 || x == 1
    case Binary => x == 0 || x == 1
  }

  /** The other value of the domain. */
  function Flip(vt: Vartype, x: int): (y: int)
    ensures InDomain(vt, x) ==> InDomain(vt, y) && y != x
  {
    match vt
    case Spin => -x
    case Binary => 1 - x
  }

  /** How much the value of a variable changes when it is flipped. */
  function FlipDelta(vt: Vartype, x: int): (d: int)
    ensures d == Flip(vt, x) - x
    ensures InDomain(vt, x) ==> d != 0
  {
    match vt
    case Spin => -2 * x
    case Binary => 1 - 2 * x
  }

  // ---------------------------------------------------------------------
  // Samples

  /** The sample gives every variable of the model a value of its domain. */
  predicate ValidSample(m: Model, s: Sample)
  {
    forall x :: x in m.variables ==> x in s && InDomain(m.vartype, s[x])
  }

  /** The first variable of vs that the sample leaves out or sets outside the domain. */
  function FirstInvalid(vs: seq<Var>, vt: Vartype, s: Sample): (r: Option<RankError>)
    ensures r.None? <==> forall x :: x in vs ==> x in s && InDomain(vt, s[x])
    ensures r.Some? ==> r.value.v in vs
    ensures r.Some? && r.value.MissingVariable? ==> r.value.v !in s
    ensures r.Some? && r.value.ValueOutOfDomain? ==> r.value.v in s && !InDomain(vt, s[r.value.v])
  {
    if vs == [] then None
    else if vs[0] !in s then Some(MissingVariable(vs[0]))
    else if !InDomain(vt, s[vs[0]]) then Some(ValueOutOfDomain(vs[0]))
    else FirstInvalid(vs[1..], vt, s)
  }

  // ---------------------------------------------------------------------
  // Local field and gain
  //
  // These are evaluated only on samples that FlipEnergyGains has validated;
  // Val and Bias read 0 outside the sample and the model so that the
  // arithmetic below needs no preconditions of its own.

  function Val(s: Sample, x: Var): int
  {
    if x in s then s[x] else 0
  }

  function Bias(m: Model, x: Var): int
  {
    if x in m.linear then m.linear[x] else 0
  }

  /** The contribution of one interaction to the local field of x. */
  function NeighbourTerm(e: Interaction, s: Sample, x: Var): int
  {
    if e.u == x then e.bias * Val(s, e.v)
    else if e.v == x then e.bias * Val(s, e.u)
    else 0
  }

  /** Sum of bias * value over the neighbours of x, both orientations of each pair counted. */
  function NeighbourSum(q: seq<Interaction>, s: Sample, x: Var): int
  {
    if q == [] then 0 else NeighbourTerm(q[0], s, x) + NeighbourSum(q[1..], s, x)
  }

  /** The linear bias of x plus the weighted values of its neighbours. */
  function LocalField(m: Model, s: Sample, x: Var): int
  {
    Bias(m, x) + NeighbourSum(m.quadratic, s, x)
  }

  function Gain(m: Model, s: Sample, x: Var): int
  {
    FlipDelta(m.vartype, Val(s, x)) * LocalField(m, s, x)
  }

  // ---------------------------------------------------------------------
  // Energy: the independent reference for the gain

  function LinearEnergy(vs: seq<Var>, m: Model, s: Sample): int
  {
    if vs == [] then 0 else Bias(m, vs[0]) * Val(s, vs[0]) + LinearEnergy(vs[1..], m, s)
  }

  function QuadraticEnergy(q: seq<Interaction>, s: Sample): int
  {
    if q == [] then 0 else q[0].bias * Val(s, q[0].u) * Val(s, q[0].v) + QuadraticEnergy(q[1..], s)
  }

  /** offset + sum of linear bias * value + sum over pairs of bias * value * value. */
  function Energy(m: Model, s: Sample): int
  {
    m.offset + LinearEnergy(m.variables, m, s) + QuadraticEnergy(m.quadratic, s)
  }

  /** The sample with x flipped and every other variable kept. */
  function FlipAt(m: Model, s: Sample, x: Var): (s': Sample)
    requires x in s
    ensures s'.Keys == s.Keys && s'[x] == Flip(m.vartype, s[x])
    ensures forall y :: y in s && y != x ==> s'[y] == s[y]
  {
    s[x := Flip(m.vartype, s[x])]
  }

  lemma {:induction false} LinearEnergyDelta(vs: seq<Var>, m: Model, s: Sample, x: Var, y: int)
    requires Distinct(vs) && x in s
    ensures LinearEnergy(vs, m, s[x := y]) - LinearEnergy(vs, m, s)
         == (if x in vs then Bias(m, x) * (y - s[x]) else 0)
  {
    if vs != [] {
      assert Distinct(vs[1..]);
      LinearEnergyDelta(vs[1..], m, s, x, y);
      if vs[0] == x {
        assert x !in vs[1..];
        assert Bias(m, x) * y - Bias(m, x) * s[x] == Bias(m, x) * (y - s[x]);
      } else {
        assert x in vs <==> x in vs[1..];
      }
    }
  }

  lemma TermDelta(c: int, a: int, y: int, w: int)
    ensures c * y * w - c * a * w == (y - a) * (c * w)
    ensures c * w * y - c * w * a == (y - a) * (c * w)
  {
  }

  lemma Distribute(d: int, a: int, b: int)
    ensures d * (a + b) == d * a + d * b
  {
  }

  /** Setting x to y changes the energy term of one interaction by (y - s[x]) times its share of the local field of x. */
  lemma InteractionDelta(e: Interaction, s: Sample, x: Var, y: int)
    requires x in s && e.u != e.v
    ensures e.bias * Val(s[x := y], e.u) * Val(s[x := y], e.v) - e.bias * Val(s, e.u) * Val(s, e.v)
         == (y - s[x]) * NeighbourTerm(e, s, x)
  {
    if e.u == x {
      TermDelta(e.bias, s[x], y, Val(s, e.v));
    } else if e.v == x {
      TermDelta(e.bias, s[x], y, Val(s, e.u));
    }
  }

  lemma {:induction false} QuadraticEnergyDelta(q: seq<Interaction>, s: Sample, x: Var, y: int)
    requires x in s
    requires forall e :: e in q ==> e.u != e.v
    ensures QuadraticEnergy(q, s[x := y]) - QuadraticEnergy(q, s) == (y - s[x]) * NeighbourSum(q, s, x)
  {
    if q != [] {
      InteractionDelta(q[0], s, x, y);
      QuadraticEnergyDelta(q[1..], s, x, y);
      Distribute(y - s[x], NeighbourTerm(q[0], s, x), NeighbourSum(q[1..], s, x));
    }
  }

  /** The gain of x is the energy after flipping x alone minus the energy before. */
  lemma GainIsEnergyDelta(m: Model, s: Sample, x: Var)
    requires WellFormed(m) && ValidSample(m, s) && x in m.variables
    ensures ValidSample(m, FlipAt(m, s, x))
    ensures Gain(m, s, x) == Energy(m, FlipAt(m, s, x)) - Energy(m, s)
  {
    var y := Flip(m.vartype, s[x]);
    var d := FlipDelta(m.vartype, s[x]);
    assert d == y - s[x];
    LinearEnergyDelta(m.variables, m, s, x, y);
    QuadraticEnergyDelta(m.quadratic, s, x, y);
    Distribute(d, Bias(m, x), NeighbourSum(m.quadratic, s, x));
    assert Bias(m, x) * d == d * Bias(m, x);
  }

  // ---------------------------------------------------------------------
  // Ranking order: Python's tuple order on (gain, label), descending

  /** p may stand before q in the ranking: (p.gain, p.v) >= (q.gain, q.v). */
  predicate RanksBefore(p: GainEntry, q: GainEntry)
  {
    p.gain > q.gain || (p.gain == q.gain && (p.v == q.v || StrLess(q.v, p.v)))
  }

  lemma RanksBeforeTotal(p: GainEntry, q: GainEntry)
    ensures RanksBefore(p, q) || RanksBefore(q, p)
  {
    if p.v != q.v {
      StrLessTotal(p.v, q.v);
    }
  }

  lemma RanksBeforeTransitive(p: GainEntry, q: GainEntry, r: GainEntry)
    requires RanksBefore(p, q) && RanksBefore(q, r)
    ensures RanksBefore(p, r)
  {
    if p.gain == q.gain == r.gain && p.v != q.v && q.v != r.v {
      StrLessTransitive(r.v, q.v, p.v);
    }
  }

  lemma RanksBeforeAntisymmetric(p: GainEntry, q: GainEntry)
    requires RanksBefore(p, q) && RanksBefore(q, p)
    ensures p == q
  {
    if p.v != q.v {
      StrLessAsymmetric(q.v, p.v);
    }
  }

  predicate Descending(r: seq<GainEntry>)
  {
    forall i, j :: 0 <= i < j < |r| ==> RanksBefore(r[i], r[j])
  }

  function Insert(p: GainEntry, r: seq<GainEntry>): (r': seq<GainEntry>)
    ensures multiset(r') == multiset(r) + multiset{p}
  {
    if r == [] then [p]
    else if RanksBefore(p, r[0]) then [p] + r
    else
      assert r == [r[0]] + r[1..];
      [r[0]] + Insert(p, r[1..])
  }

  lemma {:induction false} InsertKeepsDescending(p: GainEntry, r: seq<GainEntry>)
    requires Descending(r)
    ensures Descending(Insert(p, r))
  {
    if r == [] {
    } else if RanksBefore(p, r[0]) {
      forall j | 0 < j < |r| ensures RanksBefore(p, r[j]) {
        RanksBeforeTransitive(p, r[0], r[j]);
      }
    } else {
      RanksBeforeTotal(p, r[0]);
      InsertKeepsDescending(p, r[1..]);
      var tail := Insert(p, r[1..]);
      forall j | 0 <= j < |tail| ensures RanksBefore(r[0], tail[j]) {
        assert tail[j] in multiset(tail);
        if tail[j] != p {
          assert tail[j] in multiset(r[1..]);
          var k :| 0 <= k < |r[1..]| && r[1..][k] == tail[j];
          assert r[k + 1] == tail[j];
        }
      }
    }
  }

  /** Insertion sort into the ranking order. */
  function Sort(xs: seq<GainEntry>): (r: seq<GainEntry>)
    ensures multiset(r) == multiset(xs)
    ensures Descending(r)
  {
    if xs == [] then []
    else
      var rest := Sort(xs[1..]);
      InsertKeepsDescending(xs[0], rest);
      assert xs == [xs[0]] + xs[1..];
      Insert(xs[0], rest)
  }

  /** The head of a descending sequence ranks before each of its entries. */
  lemma HeadRanksFirst(a: seq<GainEntry>, x: GainEntry)
    requires Descending(a) && x in multiset(a)
    ensures RanksBefore(a[0], x)
  {
    var i :| 0 <= i < |a| && a[i] == x;
    if i == 0 {
      RanksBeforeTotal(x, x);
    }
  }

  /** Two descending orderings of the same entries are the same sequence. */
  lemma SameHeadSameTail(a: seq<GainEntry>, b: seq<GainEntry>)
    requires a != [] && b != [] && a[0] == b[0] && multiset(a) == multiset(b)
    ensures multiset(a[1..]) == multiset(b[1..])
  {
    assert a == [a[0]] + a[1..] && b == [b[0]] + b[1..];
    assert multiset(a) == multiset{a[0]} + multiset(a[1..]);
    assert multiset(b) == multiset{a[0]} + multiset(b[1..]);
    forall y ensures multiset(a[1..])[y] == multiset(b[1..])[y] {
      assert multiset(a)[y] == multiset(b)[y];
    }
  }

  lemma {:induction false} DescendingUnique(a: seq<GainEntry>, b: seq<GainEntry>)
    requires Descending(a) && Descending(b) && multiset(a) == multiset(b)
    ensures a == b
  {
    if a != [] && b != [] {
      HeadRanksFirst(a, b[0]);
      HeadRanksFirst(b, a[0]);
      RanksBeforeAntisymmetric(a[0], b[0]);
      SameHeadSameTail(a, b);
      DescendingUnique(a[1..], b[1..]);
    } else {
      assert |a| == |multiset(a)| == |multiset(b)| == |b|;
    }
  }

  // ---------------------------------------------------------------------
  // The ranker

  /** The (gain, variable) pair of each variable, in the order of vs. */
  function GainList(m: Model, s: Sample, vs: seq<Var>): (r: seq<GainEntry>)
    ensures |r| == |vs|
    ensures forall i :: 0 <= i < |vs| ==> r[i] == GainEntry(Gain(m, s, vs[i]), vs[i])
  {
    MapSeq(x => GainEntry(Gain(m, s, x), x), vs)
  }

  function MapSeq<A, B>(f: A -> B, xs: seq<A>): (r: seq<B>)
    ensures |r| == |xs|
    ensures forall i :: 0 <= i < |xs| ==> r[i] == f(xs[i])
  {
    if xs == [] then [] else [f(xs[0])] + MapSeq(f, xs[1..])
  }

  /**
   flip_energy_gains: the gain of every variable, ranked in descending
   (gain, label) order; a domain error when the sample leaves a variable out
   or gives it a value outside the model's domain.
   */
  function FlipEnergyGains(m: Model, s: Sample): (r: RankResult<seq<GainEntry>>)
    ensures r.Err? <==> !ValidSample(m, s)
    ensures r.Err? ==> r.error.v in m.variables
    ensures r.Err? && r.error.MissingVariable? ==> r.error.v !in s
    ensures r.Err? && r.error.ValueOutOfDomain? ==> r.error.v in s && !InDomain(m.vartype, s[r.error.v])
    ensures r.Ok? ==> Descending(r.value)
    ensures r.Ok? ==> multiset(r.value) == multiset(GainList(m, s, m.variables))
  {
    match FirstInvalid(m.variables, m.vartype, s)
    case Some(e) => Err(e)
    case None => Ok(Sort(GainList(m, s, m.variables)))
  }

  // ---------------------------------------------------------------------
  // What the ranking promises

  lemma {:induction false} DistinctEntriesCountOnce(xs: seq<GainEntry>, e: GainEntry)
    requires forall i, j :: 0 <= i < j < |xs| ==> xs[i] != xs[j]
    ensures multiset(xs)[e] <= 1
  {
    if xs != [] {
      assert xs == [xs[0]] + xs[1..];
      DistinctEntriesCountOnce(xs[1..], e);
      if xs[0] == e {
        assert e !in xs[1..];
      }
    }
  }

  lemma RepeatCountsTwice(r: seq<GainEntry>, i: nat, j: nat)
    requires i < j < |r| && r[i] == r[j]
    ensures multiset(r)[r[i]] >= 2
  {
    assert r == r[..j] + r[j..];
    assert r[i] in r[..j] && r[j] in r[j..];
  }

  /** An entry of a permutation of the gain list is the gain pair of a model variable. */
  lemma PermutedEntry(m: Model, s: Sample, r: seq<GainEntry>, i: nat)
    requires multiset(r) == multiset(GainList(m, s, m.variables)) && i < |r|
    ensures r[i].v in m.variables && r[i].gain == Gain(m, s, r[i].v)
  {
    var gl := GainList(m, s, m.variables);
    assert r[i] in multiset(gl);
    var k :| 0 <= k < |gl| && gl[k] == r[i];
  }

  /** Each model variable has an entry in a permutation of the gain list. */
  lemma PermutedCovers(m: Model, s: Sample, r: seq<GainEntry>, x: Var)
    requires multiset(r) == multiset(GainList(m, s, m.variables)) && x in m.variables
    ensures exists i :: 0 <= i < |r| && r[i].v == x
  {
    var gl := GainList(m, s, m.variables);
    var k :| 0 <= k < |m.variables| && m.variables[k] == x;
    assert gl[k] in multiset(r);
    var i :| 0 <= i < |r| && r[i] == gl[k];
  }

  /** No two entries of a permutation of the gain list name the same variable. */
  lemma PermutedNoRepeat(m: Model, s: Sample, r: seq<GainEntry>, i: nat, j: nat)
    requires WellFormed(m)
    requires multiset(r) == multiset(GainList(m, s, m.variables)) && i < j < |r|
    ensures r[i].v != r[j].v
  {
    var gl := GainList(m, s, m.variables);
    if r[i].v == r[j].v {
      PermutedEntry(m, s, r, i);
      PermutedEntry(m, s, r, j);
      RepeatCountsTwice(r, i, j);
      DistinctEntriesCountOnce(gl, r[i]);
      assert false;
    }
  }

  /**
   The ranking holds exactly one (gain, variable) pair per model variable,
   with no omissions or repeats, and each pair carries that variable's gain,
   which is the energy change of flipping the variable alone.
   */
  lemma RankingCoversEachVariableOnce(m: Model, s: Sample)
    requires WellFormed(m) && FlipEnergyGains(m, s).Ok?
    ensures var r := FlipEnergyGains(m, s).value;
      && |r| == |m.variables|
      && (forall i :: 0 <= i < |r| ==> r[i].v in m.variables && r[i].gain == Gain(m, s, r[i].v))
      && (forall i :: 0 <= i < |r| ==> r[i].gain == Energy(m, FlipAt(m, s, r[i].v)) - Energy(m, s))
      && (forall x :: x in m.variables ==> exists i :: 0 <= i < |r| && r[i].v == x)
      && (forall i, j :: 0 <= i < j < |r| ==> r[i].v != r[j].v)
  {
    var r := FlipEnergyGains(m, s).value;
    var gl := GainList(m, s, m.variables);
    assert multiset(r) == multiset(gl);
    assert |r| == |multiset(r)| == |multiset(gl)| == |gl|;
    forall i | 0 <= i < |r|
      ensures r[i].v in m.variables && r[i].gain == Gain(m, s, r[i].v)
      ensures r[i].gain == Energy(m, FlipAt(m, s, r[i].v)) - Energy(m, s)
    {
      PermutedEntry(m, s, r, i);
      GainIsEnergyDelta(m, s, r[i].v);
    }
    forall x | x in m.variables ensures exists i :: 0 <= i < |r| && r[i].v == x {
      PermutedCovers(m, s, r, x);
    }
    forall i, j | 0 <= i < j < |r| ensures r[i].v != r[j].v {
      PermutedNoRepeat(m, s, r, i, j);
    }
  }

  /**
   The tie-break makes the ranking the only descending arrangement of the
   gain pairs: the result does not depend on how the sort proceeds.
   */
  lemma RankingIsTheDescendingArrangement(m: Model, s: Sample, r: seq<GainEntry>)
    requires ValidSample(m, s)
    ensures FlipEnergyGains(m, s) == Ok(r)
        <==> Descending(r) && multiset(r) == multiset(GainList(m, s, m.variables))
  {
    if Descending(r) && multiset(r) == multiset(GainList(m, s, m.variables)) {
      DescendingUnique(r, FlipEnergyGains(m, s).value);
    }
  }

  lemma MapSeqAppend<A, B>(f: A -> B, a: seq<A>, b: seq<A>)
    ensures MapSeq(f, a + b) == MapSeq(f, a) + MapSeq(f, b)
  {
    var g, ga, gb := MapSeq(f, a + b), MapSeq(f, a), MapSeq(f, b);
    assert |g| == |ga + gb|;
    forall i | 0 <= i < |g| ensures g[i] == (ga + gb)[i] {
      if i < |a| {
        assert (a + b)[i] == a[i];
        assert g[i] == f(a[i]) == ga[i] == (ga + gb)[i];
      } else {
        assert (a + b)[i] == b[i - |a|];
        assert g[i] == f(b[i - |a|]) == gb[i - |a|] == (ga + gb)[i];
      }
    }
  }

  /** Taking the same element out of two permutations leaves permutations. */
  lemma PermutationRemove<A>(vs: seq<A>, ws: seq<A>, k: nat)
    requires multiset(vs) == multiset(ws) && vs != [] && k < |ws| && ws[k] == vs[0]
    ensures multiset(vs[1..]) == multiset(ws[..k] + ws[k + 1..])
  {
    assert ws == ws[..k] + [ws[k]] + ws[k + 1..];
    assert vs == [vs[0]] + vs[1..];
    forall y ensures multiset(vs[1..])[y] == multiset(ws[..k] + ws[k + 1..])[y] {
      assert multiset(vs)[y] == multiset(ws)[y];
    }
  }

  /** Removing the k-th element removes its image from the mapped sequence. */
  lemma SplitAt<A>(ws: seq<A>, k: nat)
    requires k < |ws|
    ensures ws == ws[..k] + ([ws[k]] + ws[k + 1..])
  {
    assert ws == ws[..k] + ws[k..];
    assert ws[k..] == [ws[k]] + ws[k + 1..];
  }

  lemma MapSeqSplice<A, B>(f: A -> B, ws: seq<A>, k: nat)
    requires k < |ws|
    ensures multiset(MapSeq(f, ws)) == multiset(MapSeq(f, ws[..k] + ws[k + 1..])) + multiset{f(ws[k])}
  {
    var pre, post := ws[..k], ws[k + 1..];
    var m1, m2, fk := MapSeq(f, pre), MapSeq(f, post), f(ws[k]);
    SplitAt(ws, k);
    MapSeqAppend(f, pre, [ws[k]] + post);
    MapSeqAppend(f, [ws[k]], post);
    assert MapSeq(f, [ws[k]]) == [fk];
    assert MapSeq(f, ws) == m1 + ([fk] + m2);
    assert multiset(MapSeq(f, ws)) == multiset(m1) + multiset{fk} + multiset(m2);
    MapSeqAppend(f, pre, post);
    assert multiset(MapSeq(f, pre + post)) == multiset(m1) + multiset(m2);
  }

  /** Mapping a permutation gives a permutation. */
  lemma {:induction false} MapSeqPermutation<A, B>(f: A -> B, vs: seq<A>, ws: seq<A>)
    requires multiset(vs) == multiset(ws)
    ensures multiset(MapSeq(f, vs)) == multiset(MapSeq(f, ws))
  {
    if vs == [] {
      assert |ws| == |multiset(ws)| == 0;
    } else {
      assert vs[0] in multiset(ws);
      var k :| 0 <= k < |ws| && ws[k] == vs[0];
      var rest := ws[..k] + ws[k + 1..];
      PermutationRemove(vs, ws, k);
      MapSeqPermutation(f, vs[1..], rest);
      MapSeqSplice(f, ws, k);
      assert MapSeq(f, vs) == [f(vs[0])] + MapSeq(f, vs[1..]);
      var fv := multiset{f(vs[0])};
      assert multiset(MapSeq(f, vs)) == fv + multiset(MapSeq(f, vs[1..]));
      assert multiset(MapSeq(f, ws)) == multiset(MapSeq(f, rest)) + fv;
    }
  }

  /**
   The ranking depends on the model's variables as a set, not on the order in
   which the model lists them.
   */
  lemma RankingIgnoresVariableOrder(m: Model, vs: seq<Var>, s: Sample)
    requires multiset(vs) == multiset(m.variables)
    ensures FlipEnergyGains(m.(variables := vs), s).Ok? <==> FlipEnergyGains(m, s).Ok?
    ensures FlipEnergyGains(m, s).Ok? ==> FlipEnergyGains(m.(variables := vs), s) == FlipEnergyGains(m, s)
  {
    var m' := m.(variables := vs);
    SameVariablesSameValidity(m, vs, s);
    if ValidSample(m, s) {
      var r, r' := FlipEnergyGains(m, s).value, FlipEnergyGains(m', s).value;
      GainListPermutation(m, s, m.variables, vs);
      GainListIgnoresVariableList(m, m', s, vs);
      assert multiset(r') == multiset(r);
      DescendingUnique(r', r);
    }
  }

  lemma GainListIgnoresVariableList(m: Model, m': Model, s: Sample, vs: seq<Var>)
    requires m' == m.(variables := m'.variables)
    ensures GainList(m', s, vs) == GainList(m, s, vs)
  {
    var g', g := GainList(m', s, vs), GainList(m, s, vs);
    forall i | 0 <= i < |vs| ensures g'[i] == g[i] {
      assert LocalField(m', s, vs[i]) == LocalField(m, s, vs[i]);
    }
  }

  lemma SameVariablesSameValidity(m: Model, vs: seq<Var>, s: Sample)
    requires multiset(vs) == multiset(m.variables)
    ensures ValidSample(m.(variables := vs), s) <==> ValidSample(m, s)
  {
    assert forall x :: x in vs <==> x in multiset(vs);
    assert forall x :: x in m.variables <==> x in multiset(m.variables);
  }

  lemma GainListPermutation(m: Model, s: Sample, vs: seq<Var>, ws: seq<Var>)
    requires multiset(vs) == multiset(ws)
    ensures multiset(GainList(m, s, vs)) == multiset(GainList(m, s, ws))
  {
    var f := x => GainEntry(Gain(m, s, x), x);
    MapSeqPermutation(f, vs, ws);
    assert GainList(m, s, vs) == MapSeq(f, vs);
    assert GainList(m, s, ws) == MapSeq(f, ws);
  }

  /** Every spin negated. */
  function Negated(s: Sample): (ns: Sample)
    ensures ns.Keys == s.Keys
    ensures forall x :: x in s ==> ns[x] == -s[x]
  {
    map x | x in s :: -s[x]
  }

  lemma TermNegated(e: Interaction, s: Sample, x: Var)
    ensures NeighbourTerm(e, Negated(s), x) == -NeighbourTerm(e, s, x)
  {
    var ns := Negated(s);
    assert Val(ns, e.u) == -Val(s, e.u) && Val(ns, e.v) == -Val(s, e.v);
    assert e.bias * -Val(s, e.u) == -(e.bias * Val(s, e.u));
    assert e.bias * -Val(s, e.v) == -(e.bias * Val(s, e.v));
  }

  lemma {:induction false} NeighbourSumNegated(q: seq<Interaction>, s: Sample, x: Var)
    ensures NeighbourSum(q, Negated(s), x) == -NeighbourSum(q, s, x)
  {
    if q != [] {
      TermNegated(q[0], s, x);
      NeighbourSumNegated(q[1..], s, x);
    }
  }

  lemma GainNegated(m: Model, s: Sample, x: Var)
    requires m.vartype == Spin && Bias(m, x) == 0
    ensures Gain(m, Negated(s), x) == Gain(m, s, x)
  {
    NeighbourSumNegated(m.quadratic, s, x);
    var v, f := Val(s, x), NeighbourSum(m.quadratic, s, x);
    assert Val(Negated(s), x) == -v;
    assert FlipDelta(Spin, -v) == 2 * v && FlipDelta(Spin, v) == -2 * v;
    assert (2 * v) * -f == (-2 * v) * f;
  }

  /**
   With no linear biases, a spin model's gains are unchanged when every spin
   is negated, and so is the ranking.
   */
  lemma NegationKeepsRanking(m: Model, s: Sample)
    requires m.vartype == Spin
    requires forall x :: x in m.linear ==> m.linear[x] == 0
    ensures FlipEnergyGains(m, Negated(s)) == FlipEnergyGains(m, s)
  {
    NegatedFirstInvalid(m.variables, s);
    if ValidSample(m, s) {
      NegatedGainList(m, s, m.variables);
    }
  }

  lemma NegatedGainList(m: Model, s: Sample, vs: seq<Var>)
    requires m.vartype == Spin
    requires forall x :: x in m.linear ==> m.linear[x] == 0
    ensures GainList(m, Negated(s), vs) == GainList(m, s, vs)
  {
    var g, g' := GainList(m, Negated(s), vs), GainList(m, s, vs);
    forall i | 0 <= i < |vs| ensures g[i] == g'[i] {
      GainNegated(m, s, vs[i]);
    }
  }

  lemma {:induction false} NegatedFirstInvalid(vs: seq<Var>, s: Sample)
    ensures FirstInvalid(vs, Spin, Negated(s)) == FirstInvalid(vs, Spin, s)
  {
    if vs != [] {
      NegatedFirstInvalid(vs[1..], s);
    }
  }
}
