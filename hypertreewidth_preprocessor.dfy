/** Clique-separator decomposition of a hypergraph before the generalized
    hypertree-width search: the primal graph is split into atoms, each atom
    takes the hyperedges restricted to its vertices, and the pieces that
    cannot be split further are kept as instances. */
module HypertreewidthPreprocessing {
  import opened GraphTheory
  import opened Graphs
  import opened HyperGraphs
  import opened Utils
  import opened Wrappers
  import opened McsOrders

  /** A stored copy of a hypergraph: its primal graph and its hyperedges. */
  datatype HyperSnapshot = HyperSnapshot(adjList: Adj, vertexMap: seq<int>, edges: seq<seq<int>>)

  function Snapshot(h: HyperGraph): (s: HyperSnapshot)
    reads h, h.primal
    ensures s.edges == h.edges && s.adjList == h.primal.adjList && s.vertexMap == h.primal.vertexMap
  {
    HyperSnapshot(h.primal.adjList, h.primal.vertexMap, h.edges)
  }

  /** A non-empty hypergraph with more than one hyperedge, each hyperedge an
      increasing list of primal vertices that form a clique. */
  ghost predicate KeptInstance(s: HyperSnapshot) {
    WellFormed(s.adjList) && |s.vertexMap| == |s.adjList| > 0 && |s.edges| > 1 &&
    forall k | 0 <= k < |s.edges| ::
      StrictlyIncreasing(s.edges[k]) && Below(s.edges[k], |s.adjList|) && CliqueList(s.adjList, s.edges[k])
  }

  /** The snapshot of a valid hypergraph with vertices and several hyperedges is kept. */
  lemma {:induction false} SnapshotKept(h: HyperGraph)
    requires h.Valid() && h.primal.n > 0 && |h.edges| > 1
    ensures KeptInstance(Snapshot(h))
  {
  }

  /** Restricting increasing hyperedges keeps them free of repeats, and every
      entry of a restricted hyperedge lies in one with at least two entries. */
  lemma {:induction false} RestrictedHyperedges(hes: seq<seq<int>>, vs: seq<int>)
    requires forall k | 0 <= k < |hes| :: StrictlyIncreasing(hes[k])
    ensures forall k | 0 <= k < |Restricted(hes, vs)| :: NoRepeats(Restricted(hes, vs)[k])
    ensures forall k, i | 0 <= k < |Restricted(hes, vs)| && 0 <= i < |Restricted(hes, vs)[k]| ::
      Covered(Restricted(hes, vs), Restricted(hes, vs)[k][i])
  {
    var r := Restricted(hes, vs);
    forall k | 0 <= k < |r| ensures NoRepeats(r[k]) {
      RestrictedMembers(hes, vs, r[k]);
      var j :| 0 <= j < |hes| && r[k] == Keep(hes[j], vs);
      KeepIncreasing(hes[j], vs);
    }
    forall k, i | 0 <= k < |r| && 0 <= i < |r[k]| ensures Covered(r, r[k][i]) {
      assert |r[k]| >= 2 && r[k][i] in r[k];
    }
  }

  /** Hyperedge k of s, read through the labels m, is the part of he that
      lies among the labels of m. */
  ghost predicate LabelledAs(s: HyperSnapshot, k: int, m: seq<int>, he: seq<int>)
    requires 0 <= k < |s.edges|
  {
    forall v | 0 <= v < |m| :: v in s.edges[k] <==> m[v] in he
  }

  /** Hyperedge k of s, read through m, is the restriction of some hyperedge of hes. */
  ghost predicate RestrictionOfSome(hes: seq<seq<int>>, s: HyperSnapshot, k: int, m: seq<int>)
    requires 0 <= k < |s.edges|
  {
    exists j | 0 <= j < |hes| :: LabelledAs(s, k, m, hes[j])
  }

  /** Some hyperedge of s, read through m, is the restriction of he. */
  ghost predicate RestrictionListed(s: HyperSnapshot, m: seq<int>, he: seq<int>) {
    exists k | 0 <= k < |s.edges| :: LabelledAs(s, k, m, he)
  }

  /** Through the labels m, vertices below n, s is the hypergraph that hes
      induces on those labels: each hyperedge of s is a hyperedge of hes
      restricted to them, and each hyperedge of hes holding two distinct of
      them appears so restricted. */
  ghost predicate InducedPart(hes: seq<seq<int>>, n: int, s: HyperSnapshot, m: seq<int>) {
    |m| == |s.adjList| && Below(m, n) &&
    (forall k | 0 <= k < |s.edges| :: RestrictionOfSome(hes, s, k, m)) &&
    (forall j, a, b | 0 <= j < |hes| && 0 <= a < |m| && 0 <= b < |m| && m[a] != m[b] && m[a] in hes[j] && m[b] in hes[j] ::
      RestrictionListed(s, m, hes[j]))
  }

  /** The labels m1 read through the labels m2. */
  ghost function Compose(m2: seq<int>, m1: seq<int>): (m: seq<int>)
    requires Below(m1, |m2|)
    ensures |m| == |m1| && forall v | 0 <= v < |m1| :: m[v] == m2[m1[v]]
  {
    seq(|m1|, v requires 0 <= v < |m1| => m2[m1[v]])
  }

  /** A valid hypergraph is the part its own hyperedges induce on all its vertices. */
  lemma {:induction false} SnapshotInduced(h: HyperGraph)
    requires h.Valid()
    ensures InducedPart(h.edges, h.primal.n, Snapshot(h), seq(h.primal.n, v => v))
  {
    var s, m := Snapshot(h), seq(h.primal.n, v => v);
    forall k | 0 <= k < |s.edges| ensures RestrictionOfSome(h.edges, s, k, m) {
      assert LabelledAs(s, k, m, h.edges[k]);
    }
    forall j, a, b | 0 <= j < |h.edges| && 0 <= a < |m| && 0 <= b < |m| && m[a] != m[b] && m[a] in h.edges[j] && m[b] in h.edges[j]
      ensures RestrictionListed(s, m, h.edges[j])
    {
      assert LabelledAs(s, j, m, h.edges[j]);
    }
  }

  /** The hypergraph built from the hyperedges restricted to vs, on labels
      among vs, is the part the hyperedges induce on its labels. */
  lemma {:induction false} RestrictedInduced(hes: seq<seq<int>>, n: int, vs: seq<int>, s: HyperSnapshot)
    requires Below(vs, n) && |s.vertexMap| == |s.adjList|
    requires |s.edges| == |Restricted(hes, vs)|
    requires forall k | 0 <= k < |s.edges| :: forall v ::
      v in s.edges[k] <==> 0 <= v < |s.adjList| && s.vertexMap[v] in Restricted(hes, vs)[k]
    requires forall x :: x in s.vertexMap <==> Covered(Restricted(hes, vs), x)
    ensures InducedPart(hes, n, s, s.vertexMap)
  {
    var m, rs := s.vertexMap, Restricted(hes, vs);
    forall v | 0 <= v < |m| ensures m[v] in vs {
      assert m[v] in m && Covered(rs, m[v]);
      var k :| 0 <= k < |rs| && |rs[k]| >= 2 && m[v] in rs[k];
    }
    forall k | 0 <= k < |s.edges| ensures RestrictionOfSome(hes, s, k, m) {
      RestrictedMembers(hes, vs, rs[k]);
      var j :| 0 <= j < |hes| && rs[k] == Keep(hes[j], vs);
      assert LabelledAs(s, k, m, hes[j]);
    }
    forall j, a, b | 0 <= j < |hes| && 0 <= a < |m| && 0 <= b < |m| && m[a] != m[b] && m[a] in hes[j] && m[b] in hes[j]
      ensures RestrictionListed(s, m, hes[j])
    {
      var e := Keep(hes[j], vs);
      assert m[a] in e && m[b] in e;
      assert |e| >= 2;
      RestrictedMembers(hes, vs, e);
      var k :| 0 <= k < |rs| && rs[k] == e;
      assert LabelledAs(s, k, m, hes[j]);
    }
  }

  /** A part induced through m1 on a part p that is itself induced through m2
      is induced through the composed labels. */
  lemma {:induction false} ComposeInduced(hes: seq<seq<int>>, n: int, p: HyperSnapshot, m2: seq<int>, s: HyperSnapshot, m1: seq<int>)
    requires InducedPart(hes, n, p, m2) && InducedPart(p.edges, |p.adjList|, s, m1)
    ensures InducedPart(hes, n, s, Compose(m2, m1))
  {
    var m := Compose(m2, m1);
    forall k | 0 <= k < |s.edges| ensures RestrictionOfSome(hes, s, k, m) {
      assert RestrictionOfSome(p.edges, s, k, m1);
      var j1 :| 0 <= j1 < |p.edges| && LabelledAs(s, k, m1, p.edges[j1]);
      assert RestrictionOfSome(hes, p, j1, m2);
      var j :| 0 <= j < |hes| && LabelledAs(p, j1, m2, hes[j]);
      forall v | 0 <= v < |m| ensures v in s.edges[k] <==> m[v] in hes[j] {
        assert 0 <= m1[v] < |m2|;
      }
    }
    forall j, a, b | 0 <= j < |hes| && 0 <= a < |m| && 0 <= b < |m| && m[a] != m[b] && m[a] in hes[j] && m[b] in hes[j]
      ensures RestrictionListed(s, m, hes[j])
    {
      var j1 :| 0 <= j1 < |p.edges| && LabelledAs(p, j1, m2, hes[j]);
      assert m1[a] in p.edges[j1] && m1[b] in p.edges[j1];
      var k :| 0 <= k < |s.edges| && LabelledAs(s, k, m1, p.edges[j1]);
      assert LabelledAs(s, k, m, hes[j]);
    }
  }

  /** The entries of inst from o on are, one for one, parts that hes induces
      through the labels in ms. */
  ghost predicate AllInduced(hes: seq<seq<int>>, n: int, inst: seq<HyperSnapshot>, o: int, ms: seq<seq<int>>) {
    0 <= o && o + |ms| == |inst| && forall t | 0 <= t < |ms| :: InducedPart(hes, n, inst[o + t], ms[t])
  }

  /** Parts induced on p through ms become parts induced on hes once their
      labels are read through the labels m2 that induce p. */
  lemma {:induction false} ComposeAll(hes: seq<seq<int>>, n: int, p: HyperSnapshot, m2: seq<int>, inst: seq<HyperSnapshot>, o: int, ms: seq<seq<int>>)
    returns (lifted: seq<seq<int>>)
    requires InducedPart(hes, n, p, m2) && AllInduced(p.edges, |p.adjList|, inst, o, ms)
    ensures AllInduced(hes, n, inst, o, lifted)
  {
    lifted := seq(|ms|, t requires 0 <= t < |ms| => Compose(m2, ms[t]));
    forall t | 0 <= t < |ms| ensures InducedPart(hes, n, inst[o + t], lifted[t]) {
      ComposeInduced(hes, n, p, m2, inst[o + t], ms[t]);
    }
  }

  /** Appending induced parts keeps the whole list induced. */
  lemma {:induction false} AppendInduced(hes: seq<seq<int>>, n: int, before: seq<HyperSnapshot>, inst: seq<HyperSnapshot>, o: int, maps: seq<seq<int>>, more: seq<seq<int>>)
    requires AllInduced(hes, n, before, o, maps) && before <= inst && AllInduced(hes, n, inst, |before|, more)
    ensures AllInduced(hes, n, inst, o, maps + more)
  {
    forall t | 0 <= t < |maps + more| ensures InducedPart(hes, n, inst[o + t], (maps + more)[t]) {
      if t < |maps| {
        assert inst[o + t] == before[o + t];
      } else {
        assert inst[o + t] == inst[|before| + (t - |maps|)];
      }
    }
  }

  /** The concatenation of a list of lists, in order. */
  ghost function Flatten<T>(ss: seq<seq<T>>): (r: seq<T>)
    ensures ss == [] ==> r == []
  {
    if ss == [] then [] else Flatten(ss[..|ss| - 1]) + ss[|ss| - 1]
  }

  /** c is the hypergraph of one atom of p whose vertices carry the labels vs:
      one hyperedge for each hyperedge of p restricted to vs that keeps at
      least two entries, holding exactly the vertices whose labels it keeps,
      over exactly the labels such hyperedges cover. */
  ghost predicate AtomPart(p: HyperSnapshot, vs: seq<int>, c: HyperSnapshot) {
    Below(vs, |p.adjList|) && |c.vertexMap| == |c.adjList| &&
    |c.edges| == |Restricted(p.edges, vs)| &&
    (forall k | 0 <= k < |c.edges| :: forall v ::
      v in c.edges[k] <==> 0 <= v < |c.adjList| && c.vertexMap[v] in Restricted(p.edges, vs)[k]) &&
    (forall x :: x in c.vertexMap <==> Covered(Restricted(p.edges, vs), x))
  }

  /** Every two vertices of the graph are joined by a path. */
  ghost predicate PrimalConnected(adj: Adj) {
    forall u, v | 0 <= u < |adj| && 0 <= v < |adj| :: v in Comp(adj, {}, u)
  }

  /** When the clique-separator decomposition of a graph returns a single
      atom, no separator was used, nothing was blocked, and the one remaining
      component holds every vertex: the graph is connected. */
  lemma {:induction false} OneAtomConnected(adj: Adj, comps: seq<seq<int>>, seps: seq<seq<int>>, blocked: set<int>)
    requires WellFormed(adj) && |seps| == 0 && |comps| == 1
    requires ComponentList(adj, blocked, comps[|seps|..])
    requires forall v | v in blocked :: Listed(comps[..|seps|], v)
    requires forall v | 0 <= v < |adj| :: Listed(comps, v)
    ensures PrimalConnected(adj)
  {
    assert forall v :: !Listed(comps[..|seps|], v) by {
      assert comps[..|seps|] == [];
    }
    assert forall v :: v !in blocked;
    assert blocked == {};
    assert comps[|seps|..] == comps;
    var r := comps[0][0];
    forall u, v | 0 <= u < |adj| && 0 <= v < |adj| ensures v in Comp(adj, {}, u) {
      assert Listed(comps, u) && Listed(comps, v);
      assert u in Elems(comps[0]) && v in Elems(comps[0]);
      CompSame(adj, {}, r, u);
    }
  }

  /** The recursion of the preprocessor on one hypergraph: the hypergraph, the
      number of atoms of its primal graph (0 when it has no vertices), the
      labels of each atom's vertices and, one per atom, the recursion on the
      atom's hypergraph. */
  datatype Trace = Trace(snap: HyperSnapshot, atomCount: int, labels: seq<seq<int>>, children: seq<Trace>)

  /** The instances a recursion appends: none for a hypergraph without
      vertices, the hypergraph itself when it is one atom with more than one
      hyperedge, and otherwise the instances of every atom in turn. */
  ghost function Emitted(t: Trace): seq<HyperSnapshot>
    decreases t
  {
    if |t.snap.adjList| == 0 then []
    else if t.atomCount == 1 then (if |t.snap.edges| > 1 then [t.snap] else [])
    else Flatten(seq(|t.children|, i requires 0 <= i < |t.children| => Emitted(t.children[i])))
  }

  /** The instances of a list of recursions, one after the other. */
  ghost function EmittedOf(cs: seq<Trace>): seq<HyperSnapshot> {
    Flatten(seq(|cs|, i requires 0 <= i < |cs| => Emitted(cs[i])))
  }

  /** A trace follows the atom recursion: a hypergraph with vertices that
      is one atom has a connected primal graph; one that is not one atom
      splits into at least two atoms, and each atom's hypergraph is recursed
      on with a trace of its own. */
  ghost predicate Traced(t: Trace)
    decreases t
  {
    (|t.snap.adjList| > 0 && t.atomCount == 1 ==> PrimalConnected(t.snap.adjList)) &&
    (|t.snap.adjList| > 0 && t.atomCount != 1 ==>
      t.atomCount > 1 && |t.labels| == |t.children| == t.atomCount &&
      forall i | 0 <= i < |t.children| :: AtomPart(t.snap, t.labels[i], t.children[i].snap) && Traced(t.children[i]))
  }

  /** Every trace in cs recurses on the hypergraph of the atom of p labelled
      by the matching entry of labs. */
  ghost predicate AtomTraces(p: HyperSnapshot, labs: seq<seq<int>>, cs: seq<Trace>) {
    |labs| == |cs| && forall i | 0 <= i < |cs| :: AtomPart(p, labs[i], cs[i].snap) && Traced(cs[i])
  }

  /** A split into the traces of its atoms is a trace, and appends what those traces append. */
  lemma {:induction false} SplitTraced(p: HyperSnapshot, labs: seq<seq<int>>, cs: seq<Trace>)
    requires |p.adjList| > 0 && |cs| > 1 && AtomTraces(p, labs, cs)
    ensures Traced(Trace(p, |cs|, labs, cs))
    ensures Emitted(Trace(p, |cs|, labs, cs)) == EmittedOf(cs)
  {
    var t := Trace(p, |cs|, labs, cs);
    assert seq(|t.children|, i requires 0 <= i < |t.children| => Emitted(t.children[i]))
        == seq(|cs|, i requires 0 <= i < |cs| => Emitted(cs[i]));
  }

  /** One more atom's trace extends the traces of the earlier atoms, and what
      it appends follows what they appended. */
  lemma {:induction false} TraceSnoc(p: HyperSnapshot, labs: seq<seq<int>>, cs: seq<Trace>, vs: seq<int>, c: Trace,
                                     start: seq<HyperSnapshot>, before: seq<HyperSnapshot>, after: seq<HyperSnapshot>)
    requires AtomTraces(p, labs, cs) && AtomPart(p, vs, c.snap) && Traced(c)
    requires before == start + EmittedOf(cs) && after == before + Emitted(c)
    ensures AtomTraces(p, labs + [vs], cs + [c])
    ensures after == start + EmittedOf(cs + [c])
  {
    EmittedSnoc(cs, c);
    forall i | 0 <= i < |cs| + 1 ensures AtomPart(p, (labs + [vs])[i], (cs + [c])[i].snap) && Traced((cs + [c])[i]) {
      if i < |cs| {
        assert (labs + [vs])[i] == labs[i] && (cs + [c])[i] == cs[i];
      }
    }
  }

  /** One more trace appends its instances after those of the earlier ones. */
  lemma {:induction false} EmittedSnoc(cs: seq<Trace>, c: Trace)
    ensures EmittedOf(cs + [c]) == EmittedOf(cs) + Emitted(c)
  {
    var xs := seq(|cs + [c]|, i requires 0 <= i < |cs + [c]| => Emitted((cs + [c])[i]));
    assert xs[..|cs|] == seq(|cs|, i requires 0 <= i < |cs| => Emitted(cs[i]));
  }

  /** The labels of an atom's vertices, in vertex order. */
  method AtomLabels(atom: Graph) returns (vss: seq<int>)
    requires atom.Valid()
    ensures vss == atom.vertexMap
  {
    vss := [];
    for i := 0 to atom.n
      invariant vss == atom.vertexMap[..i]
    {
      vss := vss + [atom.MapBack(i)];
    }
  }

  /** The hypergraph of one atom of h's primal graph: the hyperedges of h
      restricted to the atom's vertices, keeping those with at least two
      entries. Its labels are vertices of h. */
  method AtomHyperGraph(h: HyperGraph, atom: Graph, ghost comp: seq<int>) returns (ha: HyperGraph)
    requires h.Valid() && InducedOn(h.primal.adjList, atom, comp)
    ensures fresh(ha) && fresh(ha.primal) && ha.Valid()
    ensures |ha.edges| == |Restricted(h.edges, atom.vertexMap)|
    ensures forall k | 0 <= k < |ha.edges| :: forall v ::
      v in ha.edges[k] <==> 0 <= v < ha.primal.n && ha.primal.vertexMap[v] in Restricted(h.edges, atom.vertexMap)[k]
    ensures forall x :: x in ha.primal.vertexMap <==> Covered(Restricted(h.edges, atom.vertexMap), x)
    ensures InducedPart(h.edges, h.primal.n, Snapshot(ha), ha.primal.vertexMap)
    ensures AtomPart(Snapshot(h), atom.vertexMap, Snapshot(ha))
  {
    var vss := AtomLabels(atom);
    var hes := h.EdgesIn(vss);
    RestrictedHyperedges(h.edges, vss);
    ha := new HyperGraph.FromEdges(hes);
    RestrictedInduced(h.edges, h.primal.n, vss, Snapshot(ha));
  }

  class HypertreewidthPreprocessor {
    var instances: seq<HyperSnapshot>

    constructor()
      ensures instances == []
    {
      instances := [];
    }

    /** The instances of h, after forgetting those of earlier calls; each
        comes with the labels that carry its vertices to vertices of h. fuel
        bounds the depth of the atom recursion. */
    method Preprocess(h: HyperGraph, fuel: nat)
      returns (r: Outcome<seq<HyperSnapshot>>, ghost atoms: seq<Graph>, ghost maps: seq<seq<int>>, ghost trace: Trace)
      requires h.Valid()
      modifies this
      ensures r.Done? ==> r.value == instances
      ensures forall k | 0 <= k < |instances| :: KeptInstance(instances[k])
      ensures h.primal.n == 0 ==> r == Done([])
      ensures r.Done? && |atoms| == 1 ==> r.value == if |h.edges| > 1 then [Snapshot(h)] else []
      ensures r.Done? && h.primal.n > 0 ==> trace.atomCount == |atoms|
      ensures r.Done? && |atoms| == 1 ==> PrimalConnected(h.primal.adjList)
      ensures r.Done? ==> AllInduced(h.edges, h.primal.n, r.value, 0, maps)
      ensures r.Done? ==> trace.snap == Snapshot(h) && Traced(trace) && r.value == Emitted(trace)
      ensures r.Done? && |atoms| > 1 ==>
        trace.atomCount == |trace.labels| == |atoms| && forall i | 0 <= i < |atoms| :: trace.labels[i] == atoms[i].vertexMap
    {
      instances := [];
      var r1;
      r1, atoms, maps, trace := Preprocess1(h, fuel);
      if r1.Abort? {
        return Abort, atoms, maps, trace;
      }
      r := Done(instances);
    }

    /** Appends the instances of h: nothing for an empty hypergraph; h itself
        when its primal graph is one atom and it has more than one hyperedge;
        otherwise the instances of each atom's hypergraph. Every appended
        instance is, through the labels in maps, the hypergraph that the
        hyperedges of h induce on some of its vertices. */
    method Preprocess1(h: HyperGraph, fuel: nat)
      returns (r: Outcome<()>, ghost atoms: seq<Graph>, ghost maps: seq<seq<int>>, ghost trace: Trace)
      requires h.Valid()
      requires forall k | 0 <= k < |instances| :: KeptInstance(instances[k])
      modifies this
      decreases fuel, 2
      ensures forall k | 0 <= k < |instances| :: KeptInstance(instances[k])
      ensures old(instances) <= instances
      ensures AllInduced(h.edges, h.primal.n, instances, |old(instances)|, maps)
      ensures h.primal.n == 0 ==> r == Done(()) && instances == old(instances)
      ensures h.primal.n > 0 && r.Done? ==> |atoms| >= 1
      ensures r.Done? && |atoms| == 1 ==>
        instances == old(instances) + if |h.edges| > 1 then [Snapshot(h)] else []
      ensures r.Done? ==> trace.snap == Snapshot(h) && Traced(trace) && instances == old(instances) + Emitted(trace)
      ensures r.Done? && h.primal.n > 0 ==> trace.atomCount == |atoms|
      ensures r.Done? && |atoms| == 1 ==> PrimalConnected(h.primal.adjList)
      ensures r.Done? && |atoms| > 1 ==>
        trace.atomCount == |trace.labels| == |atoms| && forall i | 0 <= i < |atoms| :: trace.labels[i] == atoms[i].vertexMap
    {
      atoms, maps := [], [];
      trace := Trace(Snapshot(h), 0, [], []);
      if h.primal.n == 0 {
        return Done(()), atoms, maps, trace;
      }
      var mo := McsM(h.primal);
      McsMOutputShape(h.primal.adjList, mo);
      var ra, comps, seps, blocked := Atoms(h.primal, mo);
      if ra.Abort? {
        return Abort, atoms, maps, trace;
      }
      var parts := ra.value;
      atoms := parts;
      if |parts| == 1 {
        OneAtomConnected(h.primal.adjList, comps, seps, blocked);
        trace := Trace(Snapshot(h), 1, [], []);
        if |h.edges| > 1 {
          SnapshotKept(h);
          SnapshotInduced(h);
          instances := instances + [Snapshot(h)];
          maps := [seq(h.primal.n, v => v)];
          assert instances[|old(instances)| + 0] == Snapshot(h);
        }
        return Done(()), atoms, maps, trace;
      }
      if fuel == 0 {
        return Abort, atoms, maps, trace;
      }
      ghost var labs, children;
      r, maps, labs, children := PreprocessAtoms(h, parts, comps, fuel);
      trace := Trace(Snapshot(h), |parts|, labs, children);
      if r.Done? {
        SplitTraced(Snapshot(h), labs, children);
      }
    }

    /** Appends the instances of the hypergraph of each atom in parts, atom by
        atom, stopping at the first abort. */
    method PreprocessAtoms(h: HyperGraph, parts: seq<Graph>, ghost comps: seq<seq<int>>, fuel: nat)
      returns (r: Outcome<()>, ghost maps: seq<seq<int>>, ghost labs: seq<seq<int>>, ghost children: seq<Trace>)
      requires h.Valid() && fuel > 0 && |comps| == |parts|
      requires forall t | 0 <= t < |parts| :: InducedOn(h.primal.adjList, parts[t], comps[t])
      requires forall k | 0 <= k < |instances| :: KeptInstance(instances[k])
      modifies this
      decreases fuel, 1
      ensures forall k | 0 <= k < |instances| :: KeptInstance(instances[k])
      ensures old(instances) <= instances
      ensures AllInduced(h.edges, h.primal.n, instances, |old(instances)|, maps)
      ensures r.Done? ==> |children| == |parts| && AtomTraces(Snapshot(h), labs, children)
      ensures r.Done? ==> forall i | 0 <= i < |parts| :: labs[i] == parts[i].vertexMap
      ensures r.Done? ==> instances == old(instances) + EmittedOf(children)
    {
      maps, labs, children := [], [], [];
      for k := 0 to |parts|
        invariant forall t | 0 <= t < |instances| :: KeptInstance(instances[t])
        invariant old(instances) <= instances
        invariant AllInduced(h.edges, h.primal.n, instances, |old(instances)|, maps)
        invariant |children| == k && AtomTraces(Snapshot(h), labs, children)
        invariant forall i | 0 <= i < k :: labs[i] == parts[i].vertexMap
        invariant instances == old(instances) + EmittedOf(children)
      {
        var ha := AtomHyperGraph(h, parts[k], comps[k]);
        ghost var before, hs := instances, Snapshot(ha);
        var rk, _, mk, tk := Preprocess1(ha, fuel - 1);
        ghost var lifted := ComposeAll(h.edges, h.primal.n, hs, hs.vertexMap, instances, |before|, mk);
        AppendInduced(h.edges, h.primal.n, before, instances, |old(instances)|, maps, lifted);
        maps := maps + lifted;
        if rk.Abort? {
          return Abort, maps, labs, children;
        }
        TraceSnoc(Snapshot(h), labs, children, parts[k].vertexMap, tk, old(instances), before, instances);
        labs, children := labs + [parts[k].vertexMap], children + [tk];
      }
      r := Done(());
    }
  }
}
