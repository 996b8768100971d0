/** Hypergraphs: a list of hyperedges over the vertices of a primal graph, in
    which every hyperedge is a clique. */
module HyperGraphs {
  import opened GraphTheory
  import opened Graphs
  import opened Utils

  /** p is a pair (e[i], e[j]), i < j, of one of the hyperedges. */
  ghost predicate PairOf(hes: seq<seq<int>>, p: Edge) {
    exists k, i, j | 0 <= k < |hes| && 0 <= i < j < |hes[k]| :: p == (hes[k][i], hes[k][j])
  }

  /** Every pair (e[i], e[j]) with i < j of every hyperedge e, hyperedge by hyperedge. */
  method PrimalEdges(hes: seq<seq<int>>) returns (es: seq<Edge>)
    ensures forall p :: p in es <==> PairOf(hes, p)
  {
    es := [];
    for k := 0 to |hes|
      invariant forall p :: p in es <==> PairOf(hes[..k], p)
    {
      var e := hes[k];
      for i := 0 to |e|
        invariant forall p :: p in es <==> PairOf(hes[..k], p) || exists a, b | 0 <= a < b < |e| && a < i :: p == (e[a], e[b])
      {
        for ii := i + 1 to |e|
          invariant forall p :: p in es <==>
            PairOf(hes[..k], p) || (exists a, b | 0 <= a < b < |e| && a < i :: p == (e[a], e[b])) ||
            exists b | i < b < ii :: p == (e[i], e[b])
        {
          es := es + [(e[i], e[ii])];
        }
      }
      PairOfStep(hes, k);
    }
    assert hes[..|hes|] == hes;
  }

  lemma {:induction false} PairOfStep(hes: seq<seq<int>>, k: nat)
    requires k < |hes|
    ensures forall p :: PairOf(hes[..k+1], p) <==>
      PairOf(hes[..k], p) || exists a, b | 0 <= a < b < |hes[k]| :: p == (hes[k][a], hes[k][b])
  {
    forall p | PairOf(hes[..k+1], p) ensures PairOf(hes[..k], p) || exists a, b | 0 <= a < b < |hes[k]| :: p == (hes[k][a], hes[k][b]) {
      var kk, i, j :| 0 <= kk < k + 1 && 0 <= i < j < |hes[..k+1][kk]| && p == (hes[..k+1][kk][i], hes[..k+1][kk][j]);
      if kk < k {
        assert hes[..k][kk] == hes[kk];
      }
    }
    forall p | PairOf(hes[..k], p) ensures PairOf(hes[..k+1], p) {
      var kk, i, j :| 0 <= kk < k && 0 <= i < j < |hes[..k][kk]| && p == (hes[..k][kk][i], hes[..k][kk][j]);
      assert hes[..k+1][kk] == hes[kk];
    }
    forall a, b | 0 <= a < b < |hes[k]| ensures PairOf(hes[..k+1], (hes[k][a], hes[k][b])) {
      assert hes[..k+1][k] == hes[k];
    }
  }

  /** A label of a hyperedge with at least two entries is an endpoint of a primal pair. */
  ghost predicate Covered(hes: seq<seq<int>>, x: int) {
    exists k | 0 <= k < |hes| :: |hes[k]| >= 2 && x in hes[k]
  }

  /** The entries of e that lie in vs, in order. */
  function Keep(e: seq<int>, vs: seq<int>): (r: seq<int>)
    ensures forall x :: x in r <==> x in e && x in vs
    ensures |r| <= |e|
  {
    if e == [] then []
    else
      var rest := Keep(e[..|e|-1], vs);
      assert forall x :: x in e <==> x in e[..|e|-1] || x == e[|e|-1] by { assert e == e[..|e|-1] + [e[|e|-1]]; }
      if e[|e|-1] in vs then rest + [e[|e|-1]] else rest
  }

  lemma {:induction false} KeepIncreasing(e: seq<int>, vs: seq<int>)
    requires StrictlyIncreasing(e)
    ensures StrictlyIncreasing(Keep(e, vs))
  {
    if e != [] {
      var t := e[..|e|-1];
      KeepIncreasing(t, vs);
      var rest := Keep(t, vs);
      forall y | y in rest ensures y < e[|e|-1] {
        var i :| 0 <= i < |t| && t[i] == y;
      }
      if e[|e|-1] in vs {
        var r := rest + [e[|e|-1]];
        forall i, j | 0 <= i < j < |r| ensures r[i] < r[j] {
          if j == |r| - 1 {
            assert r[i] in rest;
          }
        }
      }
    }
  }

  /** The restriction of each hyperedge to vs, keeping those with at least two entries. */
  function Restricted(hes: seq<seq<int>>, vs: seq<int>): (r: seq<seq<int>>)
    ensures |r| <= |hes|
    ensures forall k | 0 <= k < |r| :: |r[k]| >= 2 && forall x | x in r[k] :: x in vs
  {
    if hes == [] then []
    else
      var rest := Restricted(hes[..|hes|-1], vs);
      var e := Keep(hes[|hes|-1], vs);
      if |e| >= 2 then rest + [e] else rest
  }

  /** Every restricted hyperedge is the restriction of some hyperedge, and the
      restriction of every hyperedge with at least two entries in vs is listed. */
  lemma {:induction false} RestrictedMembers(hes: seq<seq<int>>, vs: seq<int>, e: seq<int>)
    ensures e in Restricted(hes, vs) <==> |e| >= 2 && exists k | 0 <= k < |hes| :: e == Keep(hes[k], vs)
  {
    if hes != [] {
      var t := hes[..|hes|-1];
      RestrictedMembers(t, vs, e);
      if k :| 0 <= k < |hes| && e == Keep(hes[k], vs) {
        if k < |t| {
          assert t[k] == hes[k];
        }
      }
      if k :| 0 <= k < |t| && e == Keep(t[k], vs) {
        assert t[k] == hes[k];
      }
    }
  }

  /** Restricting a clique hyperedge keeps it sorted and a clique. */
  lemma {:induction false} KeepClique(adj: Adj, e: seq<int>, vs: seq<int>)
    requires WellFormed(adj) && StrictlyIncreasing(e) && CliqueList(adj, e)
    ensures StrictlyIncreasing(Keep(e, vs)) && CliqueList(adj, Keep(e, vs))
  {
    KeepIncreasing(e, vs);
    CliqueListDistinct(adj, e);
    var r := Keep(e, vs);
    forall i, j | 0 <= i < j < |r| ensures Adjacent(adj, r[i], r[j]) {
      assert r[i] in e && r[j] in e && r[i] < r[j];
    }
  }

  class HyperGraph {
    var primal: Graph
    var edges: seq<seq<int>>

    ghost predicate Valid()
      reads this, primal
    {
      primal.Valid() &&
      forall k | 0 <= k < |edges| ::
        StrictlyIncreasing(edges[k]) && Below(edges[k], primal.n) && CliqueList(primal.adjList, edges[k])
    }

    /** n vertices and no hyperedges. */
    constructor(n: nat)
      ensures Valid() && fresh(this) && fresh(primal)
      ensures primal.n == n && primal.adjList == NoEdges(n) && edges == []
    {
      primal := new Graph(n);
      edges := [];
    }

    /** The hypergraph on the labels of the hyperedges: the primal graph is
        built from all pairs inside hyperedges, and each hyperedge is mapped to
        primal vertices, sorted and deduplicated. */
    constructor FromEdges(hes: seq<seq<int>>)
      requires forall k | 0 <= k < |hes| :: NoRepeats(hes[k])
      requires forall k, i | 0 <= k < |hes| && 0 <= i < |hes[k]| :: Covered(hes, hes[k][i])
      ensures Valid() && fresh(this) && fresh(primal)
      ensures forall x :: x in primal.vertexMap <==> Covered(hes, x)
      ensures forall a, b | 0 <= a < primal.n && 0 <= b < primal.n ::
        Adjacent(primal.adjList, a, b) <==> JoinedInSome(hes, primal.vertexMap[a], primal.vertexMap[b])
      ensures |edges| == |hes|
      ensures forall k | 0 <= k < |hes| :: forall v ::
        v in edges[k] <==> 0 <= v < primal.n && primal.vertexMap[v] in hes[k]
    {
      var pe := PrimalEdges(hes);
      PairEndpoints(hes, pe);
      var g := new Graph.FromEdges(pe);
      JoinedInSomeIff(hes, pe);
      var mapped := MapEdges(g, hes);
      primal := g;
      edges := mapped;
      new;
      forall k | 0 <= k < |edges| ensures CliqueList(primal.adjList, edges[k]) {
        MappedClique(hes, primal.adjList, primal.vertexMap, edges[k], k);
      }
    }

    /** A copy of the primal graph. */
    method PrimalGraph() returns (g: Graph)
      requires Valid()
      ensures fresh(g) && g.Valid() && g.n == primal.n && g.adjList == primal.adjList && g.vertexMap == primal.vertexMap
    {
      g := primal.Clone();
    }

    /** Stores the hyperedge sorted and deduplicated and joins every two of its vertices in the primal graph. */
    method AddEdge(edge: seq<int>)
      requires Valid() && forall k | 0 <= k < |edge| :: 0 <= edge[k] < primal.n
      modifies this, primal
      ensures Valid() && primal == old(primal) && primal.vertexMap == old(primal.vertexMap)
      ensures edges == old(edges) + [SortAndDedupInts(edge)]
      ensures forall a, b | 0 <= a < primal.n && 0 <= b < primal.n ::
        Adjacent(primal.adjList, a, b) <==> old(Adjacent(primal.adjList, a, b)) || (a in edge && b in edge && a != b)
    {
      var e := SortAndDedupInts(edge);
      assert Below(e, primal.n) by {
        forall t | 0 <= t < |e| ensures 0 <= e[t] < primal.n {
          assert e[t] in edge;
        }
      }
      JoinClique(primal, e);
      edges := edges + [e];
      assert CliqueList(primal.adjList, e) by {
        forall i, j | 0 <= i < j < |e| ensures Adjacent(primal.adjList, e[i], e[j]) {
          assert e[i] in edge && e[j] in edge && e[i] < e[j];
        }
      }
    }

    /** Each hyperedge restricted to vs, kept when at least two of its vertices remain. */
    method EdgesIn(vs: seq<int>) returns (r: seq<seq<int>>)
      requires Valid() && forall k | 0 <= k < |vs| :: 0 <= vs[k] < primal.n
      ensures r == Restricted(edges, vs)
    {
      var inVs := primal.MarkMembers(vs);
      r := [];
      for k := 0 to |edges|
        invariant forall x | 0 <= x < primal.n :: inVs[x] == (x in vs)
        invariant r == Restricted(edges[..k], vs)
      {
        var newEdge := KeepMarked(edges[k], vs, inVs);
        assert forall t | 0 <= t < |edges[k]| :: edges[k][t] in edges[k];
        assert edges[..k+1][..k] == edges[..k];
        if |newEdge| >= 2 {
          r := r + [newEdge];
        }
      }
      assert edges[..|edges|] == edges;
    }
  }

  /** Every hyperedge mapped to graph vertices, sorted and deduplicated. */
  method MapEdges(g: Graph, hes: seq<seq<int>>) returns (mapped: seq<seq<int>>)
    requires g.Valid() && forall k, i | 0 <= k < |hes| && 0 <= i < |hes[k]| :: hes[k][i] in g.vertexMap
    ensures |mapped| == |hes|
    ensures forall j | 0 <= j < |hes| ::
      StrictlyIncreasing(mapped[j]) && Below(mapped[j], g.n) &&
      (forall v :: v in mapped[j] <==> 0 <= v < g.n && g.vertexMap[v] in hes[j])
  {
    ChainIncreasingStrict(g.vertexMap);
    mapped := hes;
    for k := 0 to |hes|
      invariant |mapped| == |hes|
      invariant forall j | k <= j < |hes| :: mapped[j] == hes[j]
      invariant forall j | 0 <= j < k ::
        StrictlyIncreasing(mapped[j]) && Below(mapped[j], g.n) &&
        (forall v :: v in mapped[j] <==> 0 <= v < g.n && g.vertexMap[v] in hes[j])
    {
      var e := g.MapIntoVertices(mapped[k]);
      var sorted := SortAndDedupInts(e);
      forall v ensures v in sorted <==> 0 <= v < g.n && g.vertexMap[v] in hes[k] {
        if 0 <= v < g.n && g.vertexMap[v] in hes[k] {
          var i :| 0 <= i < |hes[k]| && hes[k][i] == g.vertexMap[v];
          assert g.vertexMap[e[i]] == g.vertexMap[v];
        }
      }
      assert Below(sorted, g.n) by {
        forall t | 0 <= t < |sorted| ensures 0 <= sorted[t] < g.n {
          assert sorted[t] in sorted;
        }
      }
      mapped := mapped[k := sorted];
    }
  }

  /** The entries of e whose mark is set, in order. */
  method KeepMarked(e: seq<int>, vs: seq<int>, marks: array<bool>) returns (kept: seq<int>)
    requires forall t | 0 <= t < |e| :: 0 <= e[t] < marks.Length && marks[e[t]] == (e[t] in vs)
    ensures kept == Keep(e, vs)
  {
    kept := [];
    for t := 0 to |e|
      invariant kept == Keep(e[..t], vs)
    {
      assert e[..t+1][..t] == e[..t];
      if marks[e[t]] {
        kept := kept + [e[t]];
      }
    }
    assert e[..|e|] == e;
  }

  /** Joins x to every vertex of rest. */
  method JoinRow(g: Graph, x: int, rest: seq<int>)
    requires g.Valid() && 0 <= x < g.n && forall t | 0 <= t < |rest| :: 0 <= rest[t] < g.n && rest[t] != x
    modifies g
    ensures g.Valid() && g.vertexMap == old(g.vertexMap)
    ensures forall a, b | 0 <= a < g.n && 0 <= b < g.n ::
      Adjacent(g.adjList, a, b) <==> old(Adjacent(g.adjList, a, b)) || (a == x && b in rest) || (b == x && a in rest)
  {
    for t := 0 to |rest|
      invariant g.Valid() && g.vertexMap == old(g.vertexMap)
      invariant forall a, b | 0 <= a < g.n && 0 <= b < g.n ::
        Adjacent(g.adjList, a, b) <==> old(Adjacent(g.adjList, a, b)) || (a == x && b in rest[..t]) || (b == x && a in rest[..t])
    {
      g.AddEdge(x, rest[t]);
      assert rest[..t+1] == rest[..t] + [rest[t]];
    }
    assert rest[..|rest|] == rest;
  }

  /** Joins every two vertices of the sorted list e. */
  method JoinClique(g: Graph, e: seq<int>)
    requires g.Valid() && StrictlyIncreasing(e) && Below(e, g.n)
    modifies g
    ensures g.Valid() && g.vertexMap == old(g.vertexMap)
    ensures forall a, b | 0 <= a < g.n && 0 <= b < g.n ::
      Adjacent(g.adjList, a, b) <==> old(Adjacent(g.adjList, a, b)) || (a in e && b in e && a != b)
  {
    for i := 0 to |e|
      invariant g.Valid() && g.vertexMap == old(g.vertexMap)
      invariant forall a, b | 0 <= a < g.n && 0 <= b < g.n ::
        Adjacent(g.adjList, a, b) <==> old(Adjacent(g.adjList, a, b)) || JoinedUpTo(e, i, a, b)
    {
      var rest := e[i+1..];
      assert forall t | 0 <= t < |rest| :: rest[t] == e[i + 1 + t];
      JoinRow(g, e[i], rest);
      forall a, b {
        JoinedUpToStep(e, i, a, b);
      }
    }
    assert e[..|e|] == e;
  }

  /** a and b are distinct members of e, one of them among its first i entries. */
  ghost predicate JoinedUpTo(e: seq<int>, i: int, a: int, b: int)
    requires 0 <= i <= |e|
  {
    a in e && b in e && a != b && (a in e[..i] || b in e[..i])
  }

  lemma {:induction false} JoinedUpToStep(e: seq<int>, i: int, a: int, b: int)
    requires StrictlyIncreasing(e) && 0 <= i < |e|
    ensures JoinedUpTo(e, i + 1, a, b) <==>
      JoinedUpTo(e, i, a, b) || (a == e[i] && b in e[i+1..]) || (b == e[i] && a in e[i+1..])
  {
    SplitAt(e, i, a);
    SplitAt(e, i, b);
  }

  /** Where x sits relative to entry i of a sorted list. */
  lemma {:induction false} SplitAt(e: seq<int>, i: int, x: int)
    requires StrictlyIncreasing(e) && 0 <= i < |e|
    ensures x in e[..i+1] <==> x in e[..i] || x == e[i]
    ensures x in e <==> x in e[..i] || x == e[i] || x in e[i+1..]
    ensures x in e[..i] ==> x < e[i]
    ensures x in e[i+1..] ==> x > e[i]
  {
    assert e[..i+1] == e[..i] + [e[i]];
    assert e == e[..i] + [e[i]] + e[i+1..];
    if x in e[i+1..] {
      var t :| 0 <= t < |e[i+1..]| && e[i+1..][t] == x;
      assert x == e[i + 1 + t];
    }
  }

  /** a and b are two entries of one hyperedge. */
  ghost predicate JoinedInSome(hes: seq<seq<int>>, a: int, b: int) {
    exists k, i, j | 0 <= k < |hes| && 0 <= i < |hes[k]| && 0 <= j < |hes[k]| && i != j :: a == hes[k][i] && b == hes[k][j]
  }

  lemma {:induction false} PairEndpoints(hes: seq<seq<int>>, pe: seq<Edge>)
    requires forall k | 0 <= k < |hes| :: NoRepeats(hes[k])
    requires forall p :: p in pe <==> PairOf(hes, p)
    ensures forall t | 0 <= t < |pe| :: pe[t].0 != pe[t].1
    ensures forall x :: x in Endpoints(pe) <==> Covered(hes, x)
  {
    forall t | 0 <= t < |pe| ensures pe[t].0 != pe[t].1 {
      assert PairOf(hes, pe[t]);
    }
    forall x | x in Endpoints(pe) ensures Covered(hes, x) {
      var t :| 0 <= t < |pe| && (pe[t].0 == x || pe[t].1 == x);
      assert PairOf(hes, pe[t]);
      var k, i, j :| 0 <= k < |hes| && 0 <= i < j < |hes[k]| && pe[t] == (hes[k][i], hes[k][j]);
    }
    forall x | Covered(hes, x) ensures x in Endpoints(pe) {
      var k :| 0 <= k < |hes| && |hes[k]| >= 2 && x in hes[k];
      var i :| 0 <= i < |hes[k]| && hes[k][i] == x;
      var p := if i == 0 then (hes[k][0], hes[k][1]) else (hes[k][0], hes[k][i]);
      assert PairOf(hes, p);
      var t :| 0 <= t < |pe| && pe[t] == p;
    }
  }

  lemma {:induction false} JoinedInSomeIff(hes: seq<seq<int>>, pe: seq<Edge>)
    requires forall p :: p in pe <==> PairOf(hes, p)
    ensures forall a, b :: JoinedBy(pe, a, b) <==> JoinedInSome(hes, a, b)
  {
    forall a, b | JoinedBy(pe, a, b) ensures JoinedInSome(hes, a, b) {
      var t :| 0 <= t < |pe| && ((pe[t].0 == a && pe[t].1 == b) || (pe[t].0 == b && pe[t].1 == a));
      assert PairOf(hes, pe[t]);
      var k, i, j :| 0 <= k < |hes| && 0 <= i < j < |hes[k]| && pe[t] == (hes[k][i], hes[k][j]);
      if pe[t].0 == a && pe[t].1 == b {
        assert a == hes[k][i] && b == hes[k][j];
      } else {
        assert a == hes[k][j] && b == hes[k][i];
      }
    }
    forall a, b | JoinedInSome(hes, a, b) ensures JoinedBy(pe, a, b) {
      var k, i, j :| 0 <= k < |hes| && 0 <= i < |hes[k]| && 0 <= j < |hes[k]| && i != j && a == hes[k][i] && b == hes[k][j];
      var p := if i < j then (hes[k][i], hes[k][j]) else (hes[k][j], hes[k][i]);
      assert PairOf(hes, p);
      var t :| 0 <= t < |pe| && pe[t] == p;
    }
  }

  /** A mapped hyperedge is a clique of the primal graph. */
  lemma {:induction false} MappedClique(hes: seq<seq<int>>, adj: Adj, vm: seq<int>, e: seq<int>, k: int)
    requires 0 <= k < |hes| && |vm| == |adj| && ChainIncreasing(vm)
    requires forall a, b | 0 <= a < |adj| && 0 <= b < |adj| :: Adjacent(adj, a, b) <==> JoinedInSome(hes, vm[a], vm[b])
    requires StrictlyIncreasing(e) && forall v :: v in e <==> 0 <= v < |adj| && vm[v] in hes[k]
    ensures CliqueList(adj, e)
  {
    ChainIncreasingStrict(vm);
    forall i, j | 0 <= i < j < |e| ensures Adjacent(adj, e[i], e[j]) {
      var a, b := e[i], e[j];
      assert a in e && b in e && a < b;
      var p :| 0 <= p < |hes[k]| && hes[k][p] == vm[a];
      var q :| 0 <= q < |hes[k]| && hes[k][q] == vm[b];
      assert vm[a] < vm[b];
      assert JoinedInSome(hes, vm[a], vm[b]);
    }
  }

}
