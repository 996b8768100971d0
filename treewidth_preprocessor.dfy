/** Safe reductions before the exact treewidth search: clique-separator
    atoms, degree-2 elimination, the one-missing-edge neighbourhood fill,
    and the bookkeeping that maps instance solutions back to the input. */
module TreewidthPreprocessing {
  import opened GraphTheory
  import opened Graphs
  import opened Utils
  import opened Wrappers
  import opened McsOrders

  // Degree-2 elimination

  lemma {:induction false} DegreeSumToNonnegative(adj: Adj, k: nat)
    requires k <= |adj|
    ensures DegreeSumTo(adj, k) >= 0
  {
    if k > 0 {
      DegreeSumToNonnegative(adj, k - 1);
    }
  }

  /** Removes both edges of the degree-2 vertex x, returning its two
      neighbours in adjacency-list order. */
  method DetachDegree2(g: Graph, x: int) returns (nb1: int, nb2: int)
    requires g.Valid() && 0 <= x < g.n && |g.adjList[x]| == 2
    modifies g
    ensures g.Valid() && g.vertexMap == old(g.vertexMap) && g.m == old(g.m) - 2
    ensures nb1 == old(g.adjList[x][0]) && nb2 == old(g.adjList[x][1]) && nb1 != nb2 && nb1 != x && nb2 != x
    ensures 0 <= nb1 < g.n && 0 <= nb2 < g.n
    ensures |g.adjList[x]| == 0
    ensures |g.adjList[nb1]| == old(|g.adjList[nb1]|) - 1 && |g.adjList[nb2]| == old(|g.adjList[nb2]|) - 1
    ensures forall v | 0 <= v < g.n && v != x && v != nb1 && v != nb2 :: g.adjList[v] == old(g.adjList[v])
    ensures forall a, b | 0 <= a < g.n && 0 <= b < g.n ::
      Adjacent(g.adjList, a, b) <==> old(Adjacent(g.adjList, a, b)) && a != x && b != x
  {
    ghost var adj0 := g.adjList;
    nb1 := g.adjList[x][0];
    nb2 := g.adjList[x][1];
    assert Adjacent(adj0, x, nb1) && Adjacent(adj0, x, nb2) && Adjacent(adj0, nb1, x) && Adjacent(adj0, nb2, x);
    SwapRemoveElems(adj0[x], nb1);
    SwapRemoveElems(adj0[nb1], x);
    g.RemoveEdge(x, nb1);
    ghost var adj1 := g.adjList;
    assert nb2 in adj1[x];
    SwapRemoveElems(adj1[x], nb2);
    SwapRemoveElems(adj1[nb2], x);
    g.RemoveEdge(x, nb2);
  }

  /** Removes both edges of the degree-2 vertex x and joins its two
      neighbours unless they are adjacent already; added tells whether the
      joining edge is new. */
  method EliminateDegree2(g: Graph, x: int) returns (nb1: int, nb2: int, added: bool)
    requires g.Valid() && 0 <= x < g.n && |g.adjList[x]| == 2
    modifies g
    ensures g.Valid() && g.vertexMap == old(g.vertexMap) && g.m < old(g.m)
    ensures nb1 == old(g.adjList[x][0]) && nb2 == old(g.adjList[x][1]) && nb1 != nb2
    ensures added <==> !old(Adjacent(g.adjList, nb1, nb2))
    ensures |g.adjList[x]| == 0
    ensures forall v | 0 <= v < g.n :: |g.adjList[v]| <= old(|g.adjList[v]|)
    ensures forall a, b | 0 <= a < g.n && 0 <= b < g.n ::
      Adjacent(g.adjList, a, b) <==>
        (old(Adjacent(g.adjList, a, b)) && a != x && b != x) ||
        (added && ((a == nb1 && b == nb2) || (a == nb2 && b == nb1)))
  {
    ghost var adj0 := g.adjList;
    nb1, nb2 := DetachDegree2(g, x);
    ghost var adj2 := g.adjList;
    var has := g.HasEdge(nb1, nb2);
    if !has {
      g.AddEdge(nb1, nb2);
    }
    added := !has;
    assert forall v | 0 <= v < g.n && v != nb1 && v != nb2 :: g.adjList[v] == adj2[v];
  }

  /** The state of the degree-2 loop against the input adjacency adj0:
      queued vertices have degree at most 2, eliminated vertices (gone) are
      isolated, every lost input edge touches one of them, every present
      edge is an input or fill edge, fill edges are new, and no degree grew. */
  ghost predicate Degree2Inv(adj0: Adj, adj: Adj, fill: seq<Edge>, gone: set<int>, queue: seq<int>) {
    |adj| == |adj0| &&
    (forall k | 0 <= k < |queue| :: 0 <= queue[k] < |adj| && |adj[queue[k]]| <= 2) &&
    (forall v | v in gone :: 0 <= v < |adj| && |adj[v]| == 0) &&
    (forall a, b | 0 <= a < |adj| && 0 <= b < |adj| && Adjacent(adj0, a, b) && !Adjacent(adj, a, b) ::
      a in gone || b in gone) &&
    (forall a, b | 0 <= a < |adj| && 0 <= b < |adj| && Adjacent(adj, a, b) ::
      Adjacent(adj0, a, b) || JoinedBy(fill, a, b)) &&
    NewFill(adj0, fill) &&
    (forall v | 0 <= v < |adj| :: |adj[v]| <= |adj0[v]|)
  }

  /** Fill edges join two distinct vertices that are not adjacent in adj0. */
  ghost predicate NewFill(adj0: Adj, fill: seq<Edge>) {
    forall k | 0 <= k < |fill| ::
      0 <= fill[k].0 < |adj0| && 0 <= fill[k].1 < |adj0| && fill[k].0 != fill[k].1 &&
      !Adjacent(adj0, fill[k].0, fill[k].1)
  }

  /** A degree-1 elimination keeps the invariant, x joining the eliminated. */
  lemma {:induction false} Degree1Step(adj0: Adj, adj: Adj, adj': Adj, fill: seq<Edge>, gone: set<int>, queue: seq<int>, x: int, nb: int)
    requires WellFormed(adj) && Degree2Inv(adj0, adj, fill, gone, [x] + queue)
    requires |adj'| == |adj| && 0 <= x < |adj| && Adjacent(adj, x, nb) && |adj'[x]| == 0
    requires forall v | 0 <= v < |adj| :: |adj'[v]| <= |adj[v]|
    requires forall a, b | 0 <= a < |adj| && 0 <= b < |adj| ::
      Adjacent(adj', a, b) <==> Adjacent(adj, a, b) && !(a == x && b == nb) && !(a == nb && b == x)
    ensures Degree2Inv(adj0, adj', fill, gone + {x}, queue)
  {
    forall k | 0 <= k < |queue| ensures 0 <= queue[k] < |adj'| && |adj'[queue[k]]| <= 2 {
      assert queue[k] == ([x] + queue)[k + 1];
    }
  }

  /** A degree-2 elimination keeps the invariant, x joining the eliminated
      and the joining edge, when new, joining the fill. */
  lemma {:induction false} Degree2Step(adj0: Adj, adj: Adj, adj': Adj, fill: seq<Edge>, gone: set<int>, queue: seq<int>,
                    x: int, nb1: int, nb2: int, added: bool, fill': seq<Edge>, queue': seq<int>)
    requires WellFormed(adj) && Degree2Inv(adj0, adj, fill, gone, [x] + queue)
    requires |adj'| == |adj| && 0 <= x < |adj| && Adjacent(adj, x, nb1) && Adjacent(adj, x, nb2) && nb1 != nb2
    requires |adj'[x]| == 0 && forall v | 0 <= v < |adj| :: |adj'[v]| <= |adj[v]|
    requires added <==> !Adjacent(adj, nb1, nb2)
    requires forall a, b | 0 <= a < |adj| && 0 <= b < |adj| ::
      Adjacent(adj', a, b) <==>
        (Adjacent(adj, a, b) && a != x && b != x) || (added && ((a == nb1 && b == nb2) || (a == nb2 && b == nb1)))
    requires fill' == fill + (if added then [(nb1, nb2)] else [])
    requires queue' == queue + (if |adj'[nb1]| <= 2 then [nb1] else []) + (if |adj'[nb2]| <= 2 then [nb2] else [])
    ensures Degree2Inv(adj0, adj', fill', gone + {x}, queue')
  {
    assert nb1 !in gone && nb2 !in gone by {
      assert Adjacent(adj, nb1, x) && Adjacent(adj, nb2, x);
    }
    forall k | 0 <= k < |queue'| ensures 0 <= queue'[k] < |adj'| && |adj'[queue'[k]]| <= 2 {
      if k < |queue| {
        assert queue'[k] == queue[k] == ([x] + queue)[k + 1];
      }
    }
    forall a, b | 0 <= a < |adj| && 0 <= b < |adj| && Adjacent(adj', a, b)
      ensures Adjacent(adj0, a, b) || JoinedBy(fill', a, b)
    {
      if !Adjacent(adj, a, b) {
        assert fill'[|fill|] == (nb1, nb2);
      } else if JoinedBy(fill, a, b) {
        var k :| 0 <= k < |fill| && ((fill[k].0 == a && fill[k].1 == b) || (fill[k].0 == b && fill[k].1 == a));
        assert fill'[k] == fill[k];
      }
    }
    forall k | 0 <= k < |fill'|
      ensures 0 <= fill'[k].0 < |adj0| && 0 <= fill'[k].1 < |adj0| && fill'[k].0 != fill'[k].1 &&
        !Adjacent(adj0, fill'[k].0, fill'[k].1)
    {
      if k < |fill| {
        assert fill'[k] == fill[k];
      }
    }
  }

  /** One pop of the degree-2 loop: a vertex x of degree 1 loses its edge;
      one of degree 2 is eliminated, the joining edge joins the fill when it
      is new, and each neighbour whose degree is now at most 2 is queued; a
      vertex of any other degree has degree 0 and nothing changes. */
  method Degree2Round(g: Graph, x: int, queue: seq<int>, fill: seq<Edge>, ghost adj0: Adj, ghost gone: set<int>)
    returns (queue': seq<int>, fill': seq<Edge>, ghost gone': set<int>)
    requires g.Valid() && Degree2Inv(adj0, g.adjList, fill, gone, [x] + queue)
    modifies g
    ensures g.Valid() && g.vertexMap == old(g.vertexMap)
    ensures Degree2Inv(adj0, g.adjList, fill', gone', queue')
    ensures g.m < old(g.m) || (g.m == old(g.m) && queue' == queue)
  {
    assert ([x] + queue)[0] == x;
    ghost var adj := g.adjList;
    queue', fill', gone' := queue, fill, gone;
    if |g.adjList[x]| == 1 {
      var nb := g.adjList[x][0];
      assert Adjacent(adj, x, nb) && Adjacent(adj, nb, x);
      SwapRemoveElems(adj[x], nb);
      SwapRemoveElems(adj[nb], x);
      g.RemoveEdge(x, nb);
      Degree1Step(adj0, adj, g.adjList, fill, gone, queue, x, nb);
      gone' := gone + {x};
    } else if |g.adjList[x]| == 2 {
      var nb1, nb2, added := EliminateDegree2(g, x);
      if added {
        fill' := fill + [(nb1, nb2)];
      }
      if |g.adjList[nb1]| <= 2 {
        queue' := queue' + [nb1];
      }
      if |g.adjList[nb2]| <= 2 {
        queue' := queue' + [nb2];
      }
      assert Adjacent(adj, x, nb1) && Adjacent(adj, x, nb2);
      Degree2Step(adj0, adj, g.adjList, fill, gone, queue, x, nb1, nb2, added, fill', queue');
      gone' := gone + {x};
    } else {
      forall k | 0 <= k < |queue| ensures 0 <= queue[k] < g.n && |g.adjList[queue[k]]| <= 2 {
        assert queue[k] == ([x] + queue)[k + 1];
      }
    }
  }

  /** Eliminates degree-2 vertices greedily from a queue seeded with the
      vertices of degree 2 (Degree2Round is one pop). Returns the joining
      edges that were new. */
  method GreedyDegree2(g: Graph) returns (fill: seq<Edge>)
    requires g.Valid() && forall v | 0 <= v < g.n :: |g.adjList[v]| >= 2
    modifies g
    ensures g.Valid() && g.vertexMap == old(g.vertexMap)
    ensures forall v | 0 <= v < g.n :: |g.adjList[v]| <= old(|g.adjList[v]|)
    ensures NewFill(old(g.adjList), fill)
    ensures forall a, b | 0 <= a < g.n && 0 <= b < g.n && Adjacent(g.adjList, a, b) ::
      old(Adjacent(g.adjList, a, b)) || JoinedBy(fill, a, b)
  {
    var queue: seq<int> := [];
    for i := 0 to g.n
      invariant forall k | 0 <= k < |queue| :: 0 <= queue[k] < g.n && |g.adjList[queue[k]]| <= 2
    {
      if |g.adjList[i]| == 2 {
        queue := queue + [i];
      }
    }
    fill := [];
    ghost var adj0 := g.adjList;
    ghost var gone: set<int> := {};
    DegreeSumToNonnegative(g.adjList, g.n);
    while queue != []
      invariant g.Valid() && g.vertexMap == old(g.vertexMap) && g.m >= 0
      invariant Degree2Inv(adj0, g.adjList, fill, gone, queue)
      decreases g.m, |queue|
    {
      var x := queue[0];
      assert [x] + queue[1..] == queue;
      queue, fill, gone := Degree2Round(g, x, queue[1..], fill, adj0, gone);
      DegreeSumToNonnegative(g.adjList, g.n);
    }
  }

  // Neighbourhood with one missing edge

  /** Positions i < j of x's neighbour list whose vertices are not adjacent. */
  ghost predicate MissingPair(adj: Adj, x: int, i: int, j: int)
    requires 0 <= x < |adj|
  {
    0 <= i < j < |adj[x]| && !Adjacent(adj, adj[x][i], adj[x][j])
  }

  /** x's neighbourhood is a clique. */
  ghost predicate NoMissing(adj: Adj, x: int)
    requires 0 <= x < |adj|
  {
    forall i, j :: !MissingPair(adj, x, i, j)
  }

  /** x's neighbourhood misses at least two edges. */
  ghost predicate TwoMissing(adj: Adj, x: int)
    requires 0 <= x < |adj|
  {
    exists i, j, i', j' :: MissingPair(adj, x, i, j) && MissingPair(adj, x, i', j') && (i != i' || j != j')
  }

  /** The pair (i, j) is the only missing edge of x's neighbourhood. */
  ghost predicate OnlyMissing(adj: Adj, x: int, i: int, j: int)
    requires 0 <= x < |adj|
  {
    MissingPair(adj, x, i, j) && forall i', j' :: MissingPair(adj, x, i', j') ==> i' == i && j' == j
  }

  /** (p, q) comes before (i, j) in the row-by-row scan. */
  predicate ScannedBefore(p: int, q: int, i: int, j: int) {
    p < i || (p == i && q < j)
  }

  /** What the scan of x's neighbour pairs knows once every pair before
      (i, j) is seen: fo is (-1, -1) when none of them is missing, and
      otherwise the single missing pair among them. */
  ghost predicate ScanState(adj: Adj, x: int, i: int, j: int, fo: Edge)
    requires 0 <= x < |adj|
  {
    (fo == (-1, -1) && forall p, q | ScannedBefore(p, q, i, j) :: !MissingPair(adj, x, p, q)) ||
    (exists p, q | ScannedBefore(p, q, i, j) && MissingPair(adj, x, p, q) ::
      fo == (adj[x][p], adj[x][q]) &&
      forall p', q' | ScannedBefore(p', q', i, j) && MissingPair(adj, x, p', q') :: p' == p && q' == q)
  }

  /** Scans the neighbour pairs of x in row order and stops at the second
      missing edge: fail tells that there are two; otherwise fo is the only
      missing edge, or (-1, -1) when the neighbourhood is a clique. */
  method ScanNeighbourhood(g: Graph, x: int) returns (fo: Edge, fail: bool)
    requires g.Valid() && 0 <= x < g.n
    ensures fail <==> TwoMissing(g.adjList, x)
    ensures !fail && fo == (-1, -1) <==> NoMissing(g.adjList, x)
    ensures !fail && fo != (-1, -1) ==>
      exists i, j :: OnlyMissing(g.adjList, x, i, j) && fo == (g.adjList[x][i], g.adjList[x][j])
  {
    var adj := g.adjList;
    var d := |adj[x]|;
    fo := (-1, -1);
    fail := false;
    var i := 0;
    while i < d && !fail
      invariant 0 <= i <= d
      invariant fail ==> TwoMissing(adj, x)
      invariant !fail ==> ScanState(adj, x, i, i + 1, fo)
    {
      var ii := i + 1;
      while ii < d && !fail
        invariant i + 1 <= ii <= d
        invariant fail ==> TwoMissing(adj, x)
        invariant !fail ==> ScanState(adj, x, i, ii, fo)
      {
        var u := adj[x][i];
        var v := adj[x][ii];
        assert Adjacent(adj, x, u) && Adjacent(adj, x, v);
        var has := g.HasEdge(u, v);
        if !has {
          if fo.0 == -1 {
            ScanFirst(adj, x, i, ii, fo);
            fo := (u, v);
          } else {
            ScanSecond(adj, x, i, ii, fo);
            fail := true;
          }
        } else {
          ScanSkip(adj, x, i, ii, fo);
        }
        ii := ii + 1;
      }
      if !fail {
        ScanRow(adj, x, i, fo);
      }
      i := i + 1;
    }
    if !fail {
      ScanDone(adj, x, i, fo);
    }
  }

  lemma {:induction false} ScanFirst(adj: Adj, x: int, i: int, ii: int, fo: Edge)
    requires WellFormed(adj) && 0 <= x < |adj| && fo.0 == -1 && ScanState(adj, x, i, ii, fo)
    requires MissingPair(adj, x, i, ii)
    ensures ScanState(adj, x, i, ii + 1, (adj[x][i], adj[x][ii]))
  {
    assert adj[x][i] in adj[x];
  }

  lemma {:induction false} ScanSecond(adj: Adj, x: int, i: int, ii: int, fo: Edge)
    requires WellFormed(adj) && 0 <= x < |adj| && fo.0 != -1 && ScanState(adj, x, i, ii, fo)
    requires MissingPair(adj, x, i, ii)
    ensures TwoMissing(adj, x)
  {
    var p, q :| ScannedBefore(p, q, i, ii) && MissingPair(adj, x, p, q);
    assert MissingPair(adj, x, p, q) && MissingPair(adj, x, i, ii) && (p != i || q != ii);
  }

  lemma {:induction false} ScanSkip(adj: Adj, x: int, i: int, ii: int, fo: Edge)
    requires 0 <= x < |adj| && ScanState(adj, x, i, ii, fo)
    requires !MissingPair(adj, x, i, ii)
    ensures ScanState(adj, x, i, ii + 1, fo)
  {
  }

  /** The end of row i is the start of row i + 1. */
  lemma {:induction false} ScanRow(adj: Adj, x: int, i: int, fo: Edge)
    requires 0 <= x < |adj| && 0 <= i && ScanState(adj, x, i, |adj[x]|, fo)
    ensures ScanState(adj, x, i + 1, i + 2, fo)
  {
  }

  lemma {:induction false} ScanDone(adj: Adj, x: int, i: int, fo: Edge)
    requires WellFormed(adj) && 0 <= x < |adj| && i >= |adj[x]| && ScanState(adj, x, i, i + 1, fo)
    ensures fo == (-1, -1) <==> NoMissing(adj, x)
    ensures !TwoMissing(adj, x)
    ensures fo != (-1, -1) ==> exists p, q :: OnlyMissing(adj, x, p, q) && fo == (adj[x][p], adj[x][q])
  {
    if fo != (-1, -1) {
      var p, q :| ScannedBefore(p, q, i, i + 1) && MissingPair(adj, x, p, q) && fo == (adj[x][p], adj[x][q]);
      assert adj[x][p] in adj[x];
      assert OnlyMissing(adj, x, p, q);
    }
  }

  /** x is passed over by NeighborClique: its degree exceeds 2 and its
      neighbourhood misses two or more edges. */
  ghost predicate PassedOver(adj: Adj, x: int)
    requires 0 <= x < |adj|
  {
    |adj[x]| > 2 && TwoMissing(adj, x)
  }

  /** x is the first vertex not passed over, and its neighbourhood misses
      exactly the edge e. */
  ghost predicate FirstOneMissing(adj: Adj, x: int, e: Edge)
    requires 0 <= x < |adj|
  {
    (forall y | 0 <= y < x :: PassedOver(adj, y)) && |adj[x]| > 2 &&
    exists i, j :: OnlyMissing(adj, x, i, j) && e == (adj[x][i], adj[x][j])
  }

  /** x is the first vertex not passed over, and it has degree at most 2 or
      a clique neighbourhood. */
  ghost predicate StuckAt(adj: Adj, x: int)
    requires 0 <= x < |adj|
  {
    (forall y | 0 <= y < x :: PassedOver(adj, y)) && (|adj[x]| <= 2 || NoMissing(adj, x))
  }

  /** Finds the first vertex whose neighbourhood misses exactly one edge,
      adds that edge and returns it; returns (-1, -1), leaving the graph
      alone, when every vertex is passed over. A vertex of degree at most 2,
      or one whose neighbourhood is a clique, met before that, stops the
      program. */
  method NeighborClique(g: Graph) returns (r: Outcome<Edge>)
    requires g.Valid()
    modifies g
    ensures g.Valid() && g.vertexMap == old(g.vertexMap)
    ensures r.Abort? || r == Done((-1, -1)) ==> g.adjList == old(g.adjList) && g.m == old(g.m)
    ensures r == Done((-1, -1)) ==> forall x | 0 <= x < g.n :: PassedOver(g.adjList, x)
    ensures r.Abort? ==> exists x | 0 <= x < g.n :: StuckAt(g.adjList, x)
    ensures r.Done? && r.value != (-1, -1) ==>
      0 <= r.value.0 < g.n && 0 <= r.value.1 < g.n && r.value.0 != r.value.1
    ensures r.Done? && r.value != (-1, -1) ==>
      (exists x | 0 <= x < g.n :: FirstOneMissing(old(g.adjList), x, r.value)) &&
      !old(Adjacent(g.adjList, r.value.0, r.value.1)) && g.m == old(g.m) + 1 &&
      forall a, b | 0 <= a < g.n && 0 <= b < g.n ::
        Adjacent(g.adjList, a, b) <==>
          old(Adjacent(g.adjList, a, b)) || (a, b) == r.value || (b, a) == r.value
  {
    for x := 0 to g.n
      invariant g.Valid() && g.adjList == old(g.adjList) && g.m == old(g.m) && g.vertexMap == old(g.vertexMap)
      invariant forall y | 0 <= y < x :: PassedOver(g.adjList, y)
    {
      if |g.adjList[x]| <= 2 {
        assert StuckAt(g.adjList, x);
        return Abort;
      }
      var fo, fail := ScanNeighbourhood(g, x);
      if !fail {
        if fo == (-1, -1) {
          assert StuckAt(g.adjList, x);
          return Abort;
        }
        assert FirstOneMissing(g.adjList, x, fo);
        AddMissingEdge(g, x, fo);
        return Done(fo);
      }
    }
    return Done((-1, -1));
  }

  /** Adds the one missing edge fo of x's neighbourhood. */
  method AddMissingEdge(g: Graph, x: int, fo: Edge)
    requires g.Valid() && 0 <= x < g.n
    requires exists i, j :: OnlyMissing(g.adjList, x, i, j) && fo == (g.adjList[x][i], g.adjList[x][j])
    modifies g
    ensures g.Valid() && g.vertexMap == old(g.vertexMap)
    ensures 0 <= fo.0 < g.n && 0 <= fo.1 < g.n && fo.0 != fo.1
    ensures !old(Adjacent(g.adjList, fo.0, fo.1)) && g.m == old(g.m) + 1
    ensures forall a, b | 0 <= a < g.n && 0 <= b < g.n ::
      Adjacent(g.adjList, a, b) <==> old(Adjacent(g.adjList, a, b)) || (a, b) == fo || (b, a) == fo
  {
    ghost var adj := g.adjList;
    ghost var i, j :| OnlyMissing(adj, x, i, j) && fo == (adj[x][i], adj[x][j]);
    assert Adjacent(adj, x, fo.0) && Adjacent(adj, x, fo.1);
    g.AddEdge(fo.0, fo.1);
  }

  // Instances, solutions and their labels

  /** An instance holds its graph by value: the adjacency lists and the
      labels the graph had when the instance was made. */
  datatype GraphSnapshot = GraphSnapshot(adjList: Adj, vertexMap: seq<int>)

  /** A graph left for the exact search, with a known width bound and the
      fill (in the graph's own vertices) that achieves it. */
  datatype TreewidthInstance = TreewidthInstance(graph: GraphSnapshot, upperBound: int, upperBoundFill: seq<Edge>)

  datatype TreewidthSolution = TreewidthSolution(fillEdges: seq<Edge>, treewidth: int)

  /** The upper bound of the unpreprocessed instance, (int)1e9. */
  const NoUpperBound: int := 1000000000

  function Snapshot(g: Graph): (s: GraphSnapshot)
    reads g
    ensures s.adjList == g.adjList && s.vertexMap == g.vertexMap
  {
    GraphSnapshot(g.adjList, g.vertexMap)
  }

  /** Every label of vm is one of labels. */
  ghost predicate LabelsIn(vm: seq<int>, labels: seq<int>) {
    forall k | 0 <= k < |vm| :: vm[k] in labels
  }

  /** An edge between two distinct labels of the input graph. */
  ghost predicate LabelEdge(labels: seq<int>, e: Edge) {
    e.0 in labels && e.1 in labels && e.0 != e.1
  }

  /** The edges carry no loops. */
  ghost predicate LoopFree(es: seq<Edge>) {
    forall k | 0 <= k < |es| :: es[k].0 != es[k].1
  }

  /** A well-formed instance whose labels are labels of the input graph and
      whose bound fill has no loops. */
  ghost predicate InstanceOf(labels: seq<int>, inst: TreewidthInstance) {
    WellFormed(inst.graph.adjList) && |inst.graph.vertexMap| == |inst.graph.adjList| &&
    StrictlyIncreasing(inst.graph.vertexMap) && LabelsIn(inst.graph.vertexMap, labels) &&
    LoopFree(inst.upperBoundFill)
  }

  /** The labels of both ends of every edge under vm, or None when an end is
      not a vertex (the label lookup stops the program there). */
  function MapBackLabels(vm: seq<int>, es: seq<Edge>): (r: Option<seq<Edge>>)
    ensures r.Some? <==> forall k | 0 <= k < |es| :: 0 <= es[k].0 < |vm| && 0 <= es[k].1 < |vm|
    ensures r.Some? ==> |r.value| == |es|
    ensures r.Some? ==> forall k | 0 <= k < |es| :: r.value[k] == (vm[es[k].0], vm[es[k].1])
  {
    if es == [] then Some([])
    else
      var rest := MapBackLabels(vm, es[..|es| - 1]);
      var e := es[|es| - 1];
      if rest.None? || !(0 <= e.0 < |vm| && 0 <= e.1 < |vm|) then None
      else Some(rest.value + [(vm[e.0], vm[e.1])])
  }

  /** Mapped through increasing labels from the input graph, loop-free edges
      become edges between distinct input labels. */
  lemma {:induction false} MapBackLabelEdges(vm: seq<int>, es: seq<Edge>, labels: seq<int>)
    requires StrictlyIncreasing(vm) && LabelsIn(vm, labels) && LoopFree(es)
    requires MapBackLabels(vm, es).Some?
    ensures forall k | 0 <= k < |es| :: LabelEdge(labels, MapBackLabels(vm, es).value[k])
  {
    forall k | 0 <= k < |es| ensures LabelEdge(labels, MapBackLabels(vm, es).value[k]) {
      var e := es[k];
      assert e.0 < e.1 || e.1 < e.0;
      if e.0 < e.1 {
        assert vm[e.0] < vm[e.1];
      } else {
        assert vm[e.1] < vm[e.0];
      }
    }
  }

  /** The instances whose upper bound exceeds the lower bound, in order. */
  function Unsettled(insts: seq<TreewidthInstance>, lb: int): (r: seq<TreewidthInstance>)
    ensures |r| <= |insts|
    ensures forall x :: x in r <==> x in insts && lb < x.upperBound
  {
    if insts == [] then []
    else
      var x := insts[|insts| - 1];
      assert insts == insts[..|insts| - 1] + [x];
      Unsettled(insts[..|insts| - 1], lb) + (if lb < x.upperBound then [x] else [])
  }

  /** The bound fills, in input labels, of the instances whose upper bound
      does not exceed the lower bound; None when one of them cannot be
      mapped back. */
  function SettledFill(insts: seq<TreewidthInstance>, lb: int): (r: Option<seq<Edge>>)
    ensures r.None? <==> exists k | 0 <= k < |insts| ::
      insts[k].upperBound <= lb && MapBackLabels(insts[k].graph.vertexMap, insts[k].upperBoundFill).None?
    ensures r.Some? ==> forall e :: e in r.value <==> exists k | 0 <= k < |insts| ::
      insts[k].upperBound <= lb && e in MapBackLabels(insts[k].graph.vertexMap, insts[k].upperBoundFill).value
  {
    if insts == [] then Some([])
    else
      var n := |insts| - 1;
      var x := insts[n];
      var rest := SettledFill(insts[..n], lb);
      assert forall k | 0 <= k < n :: insts[..n][k] == insts[k];
      if lb < x.upperBound then rest
      else
        var m := MapBackLabels(x.graph.vertexMap, x.upperBoundFill);
        if rest.None? || m.None? then None else Some(rest.value + m.value)
  }

  /** Every edge of the settled fill joins two distinct input labels. */
  lemma {:induction false} SettledFillLabels(labels: seq<int>, insts: seq<TreewidthInstance>, lb: int)
    requires forall k | 0 <= k < |insts| :: InstanceOf(labels, insts[k])
    requires SettledFill(insts, lb).Some?
    ensures forall e | e in SettledFill(insts, lb).value :: LabelEdge(labels, e)
  {
    forall e | e in SettledFill(insts, lb).value ensures LabelEdge(labels, e) {
      var k :| 0 <= k < |insts| && insts[k].upperBound <= lb &&
        e in MapBackLabels(insts[k].graph.vertexMap, insts[k].upperBoundFill).value;
      var x := insts[k];
      MapBackLabelEdges(x.graph.vertexMap, x.upperBoundFill, labels);
      var j :| 0 <= j < |x.upperBoundFill| && MapBackLabels(x.graph.vertexMap, x.upperBoundFill).value[j] == e;
    }
  }

  /** The filter after preprocessing: keeps the instances whose upper bound
      exceeds the lower bound and collects the bound fill of the others. */
  method DropSettled(insts: seq<TreewidthInstance>, lb: int) returns (kept: seq<TreewidthInstance>, fill: Option<seq<Edge>>)
    ensures fill == SettledFill(insts, lb)
    ensures fill.Some? ==> kept == Unsettled(insts, lb)
  {
    kept := [];
    var acc: seq<Edge> := [];
    for i := 0 to |insts|
      invariant kept == Unsettled(insts[..i], lb) && Some(acc) == SettledFill(insts[..i], lb)
    {
      var x := insts[i];
      assert insts[..i + 1] == insts[..i] + [x];
      assert insts[..i + 1][..i] == insts[..i];
      if lb >= x.upperBound {
        var m := MapBackLabels(x.graph.vertexMap, x.upperBoundFill);
        if m.None? {
          SettledFillPrefix(insts, lb, i + 1);
          return kept, None;
        }
        acc := acc + m.value;
      } else {
        kept := kept + [x];
      }
    }
    assert insts[..|insts|] == insts;
    fill := Some(acc);
  }

  /** A failure in a prefix is a failure of the whole list. */
  lemma {:induction false} SettledFillPrefix(insts: seq<TreewidthInstance>, lb: int, i: nat)
    requires i <= |insts| && SettledFill(insts[..i], lb).None?
    ensures SettledFill(insts, lb).None?
  {
    var k :| 0 <= k < i && insts[..i][k].upperBound <= lb &&
      MapBackLabels(insts[..i][k].graph.vertexMap, insts[..i][k].upperBoundFill).None?;
    assert insts[..i][k] == insts[k];
  }

  /** A single instance above the lower bound is kept as it is. */
  lemma {:induction false} OneUnsettled(x: TreewidthInstance, lb: int)
    requires lb < x.upperBound
    ensures Unsettled([x], lb) == [x] && SettledFill([x], lb) == Some([])
  {
    assert [x][..0] == [];
  }

  /** The outcome of the treewidth bound on a graph with adjacency adj and m
      edges: 0 without edges, otherwise the width of an MCS order that is a
      perfect elimination order. */
  ghost predicate TreewidthResult(adj: Adj, m: int, w: int) {
    (m == 0 ==> w == 0) &&
    (m != 0 ==> exists order :: (IsMcsOrder(adj, order) && PerfectElimination(adj, order) &&
      w == WidthUpTo(adj, order, |order|)))
  }

  /** The treewidth bound on the graph refutes width w: the graph has edges
      while w is not 0, or some MCS order of it is no perfect elimination
      order or has another width. */
  ghost predicate WidthRefuted(adj: Adj, m: int, w: int) {
    (m == 0 && w != 0) ||
    (m != 0 && exists order :: (IsMcsOrder(adj, order) &&
      (!PerfectElimination(adj, order) || w != WidthUpTo(adj, order, |order|))))
  }

  /** Labels of a graph's vertices whose labels come from the input graph:
      mapped loop-free edges in range join distinct input labels. */
  lemma {:induction false} MappedLabelEdges(vm: seq<int>, labels: seq<int>, es: seq<Edge>, mapped: seq<Edge>)
    requires ChainIncreasing(vm) && LabelsIn(vm, labels) && LoopFree(es)
    requires forall k | 0 <= k < |es| :: 0 <= es[k].0 < |vm| && 0 <= es[k].1 < |vm|
    requires |mapped| == |es| && forall k | 0 <= k < |es| :: mapped[k] == (vm[es[k].0], vm[es[k].1])
    ensures forall k | 0 <= k < |mapped| :: LabelEdge(labels, mapped[k])
  {
    ChainIncreasingStrict(vm);
    forall k | 0 <= k < |mapped| ensures LabelEdge(labels, mapped[k]) {
      var e := es[k];
      if e.0 < e.1 {
        assert vm[e.0] < vm[e.1];
      } else {
        assert vm[e.1] < vm[e.0];
      }
    }
  }

  // Mapping solutions back

  /** The largest of the lower bound and the solutions' widths. */
  function MaxWidth(lb: int, sols: seq<TreewidthSolution>): (w: int)
    ensures lb <= w && forall k | 0 <= k < |sols| :: sols[k].treewidth <= w
    ensures w == lb || exists k | 0 <= k < |sols| :: w == sols[k].treewidth
  {
    if sols == [] then lb
    else
      var w0 := MaxWidth(lb, sols[..|sols| - 1]);
      var t := sols[|sols| - 1].treewidth;
      assert forall k | 0 <= k < |sols| - 1 :: sols[..|sols| - 1][k] == sols[k];
      if t > w0 then t else w0
  }

  /** The solutions' fill edges in input labels, instance by instance; None
      when one of them cannot be mapped back. */
  function CollectFill(insts: seq<TreewidthInstance>, sols: seq<TreewidthSolution>): (r: Option<seq<Edge>>)
    requires |insts| == |sols|
    ensures r.None? <==> exists k | 0 <= k < |sols| ::
      MapBackLabels(insts[k].graph.vertexMap, sols[k].fillEdges).None?
    ensures r.Some? ==> forall e :: e in r.value <==> exists k | 0 <= k < |sols| ::
      MapBackLabels(insts[k].graph.vertexMap, sols[k].fillEdges).Some? &&
      e in MapBackLabels(insts[k].graph.vertexMap, sols[k].fillEdges).value
  {
    if sols == [] then Some([])
    else
      var n := |sols| - 1;
      var rest := CollectFill(insts[..n], sols[..n]);
      var m := MapBackLabels(insts[n].graph.vertexMap, sols[n].fillEdges);
      assert forall k | 0 <= k < n :: insts[..n][k] == insts[k] && sols[..n][k] == sols[k];
      if rest.None? || m.None? then None else Some(rest.value + m.value)
  }

  /** The loop over the instances in MapBack: the width is the maximum of
      the lower bound and the solutions' widths, and the fill is theirs in
      input labels. */
  method CollectSolutions(insts: seq<TreewidthInstance>, sols: seq<TreewidthSolution>, lb: int)
    returns (width: int, fill: Option<seq<Edge>>)
    requires |insts| == |sols|
    ensures width == MaxWidth(lb, sols)
    ensures fill == CollectFill(insts, sols)
  {
    width := lb;
    var acc: seq<Edge> := [];
    var failed := false;
    for i := 0 to |sols|
      invariant width == MaxWidth(lb, sols[..i])
      invariant failed ==> CollectFill(insts[..i], sols[..i]).None?
      invariant !failed ==> CollectFill(insts[..i], sols[..i]) == Some(acc)
    {
      assert sols[..i + 1][..i] == sols[..i] && insts[..i + 1][..i] == insts[..i];
      assert sols[..i + 1][i] == sols[i] && insts[..i + 1][i] == insts[i];
      if sols[i].treewidth > width {
        width := sols[i].treewidth;
      }
      var m := MapBackLabels(insts[i].graph.vertexMap, sols[i].fillEdges);
      if m.None? {
        failed := true;
      } else if !failed {
        acc := acc + m.value;
      }
    }
    assert sols[..|sols|] == sols && insts[..|insts|] == insts;
    fill := if failed then None else Some(acc);
  }

  /** An edge with its smaller end first. */
  function Normalized(e: Edge): (r: Edge)
    ensures r.0 <= r.1 && (r == e || r == (e.1, e.0))
  {
    if e.0 > e.1 then (e.1, e.0) else e
  }

  ghost function NormalizeAll(es: seq<Edge>): (r: seq<Edge>)
    ensures |r| == |es|
  {
    seq(|es|, k requires 0 <= k < |es| => Normalized(es[k]))
  }

  /** The swap loop of MapBack: each edge gets its smaller end first. */
  method NormalizeEdges(es: seq<Edge>) returns (r: seq<Edge>)
    ensures r == NormalizeAll(es)
    ensures forall k | 0 <= k < |r| :: r[k].0 <= r[k].1
  {
    r := es;
    for k := 0 to |es|
      invariant |r| == |es|
      invariant forall j | 0 <= j < |es| :: r[j] == if j < k then Normalized(es[j]) else es[j]
    {
      if r[k].0 > r[k].1 {
        r := r[k := (r[k].1, r[k].0)];
      }
    }
  }

  /** Lexicographic order on edges, as the standard library orders pairs. */
  predicate EdgeLess(a: Edge, b: Edge) {
    a.0 < b.0 || (a.0 == b.0 && a.1 < b.1)
  }

  lemma {:induction false} EdgeLessOrder()
    ensures StrictTotalOrder(EdgeLess)
  {
  }

  /** Whether some edge occurs twice. The source sorts first and compares
      neighbours, which finds a repeat exactly when there is one. */
  method HasRepeat(es: seq<Edge>) returns (r: bool)
    ensures r <==> !Distinct(es)
  {
    for i := 0 to |es|
      invariant forall p, q | 0 <= p < i && p < q < |es| :: es[p] != es[q]
    {
      for j := i + 1 to |es|
        invariant forall q | i < q < j :: es[i] != es[q]
      {
        if es[i] == es[j] {
          return true;
        }
      }
    }
    return false;
  }

  /** Edge k of fill is checked when it is added: both ends are vertices,
      it is no loop, and neither the graph adj0 nor an earlier fill edge
      has it. */
  ghost predicate FreshAt(adj0: Adj, fill: seq<Edge>, k: int)
    requires 0 <= k < |fill|
  {
    0 <= fill[k].0 < |adj0| && 0 <= fill[k].1 < |adj0| && fill[k].0 != fill[k].1 &&
    !Adjacent(adj0, fill[k].0, fill[k].1) && !JoinedBy(fill[..k], fill[k].0, fill[k].1)
  }

  ghost predicate FreshFill(adj0: Adj, fill: seq<Edge>) {
    forall k | 0 <= k < |fill| :: FreshAt(adj0, fill, k)
  }

  lemma {:induction false} FreshFillStep(adj0: Adj, fill: seq<Edge>, k: int)
    requires 0 <= k < |fill| && FreshFill(adj0, fill[..k]) && FreshAt(adj0, fill, k)
    ensures FreshFill(adj0, fill[..k + 1])
  {
    var f := fill[..k + 1];
    forall j | 0 <= j < k + 1 ensures FreshAt(adj0, f, j) {
      assert f[..j] == fill[..j];
      if j < k {
        assert fill[..k][..j] == fill[..j];
        assert FreshAt(adj0, fill[..k], j);
      }
    }
  }

  /** The final loop of MapBack: adds each fill edge to g after checking it;
      ok tells whether every check passed. */
  method AddFillChecked(g: Graph, fill: seq<Edge>) returns (ok: bool)
    requires g.Valid()
    modifies g
    ensures g.Valid() && g.vertexMap == old(g.vertexMap)
    ensures ok <==> FreshFill(old(g.adjList), fill)
    ensures ok ==> forall a, b | 0 <= a < g.n && 0 <= b < g.n ::
      Adjacent(g.adjList, a, b) <==> old(Adjacent(g.adjList, a, b)) || JoinedBy(fill, a, b)
  {
    ghost var adj0 := g.adjList;
    for k := 0 to |fill|
      invariant g.Valid() && g.vertexMap == old(g.vertexMap)
      invariant FreshFill(adj0, fill[..k])
      invariant forall a, b | 0 <= a < g.n && 0 <= b < g.n ::
        Adjacent(g.adjList, a, b) <==> Adjacent(adj0, a, b) || JoinedBy(fill[..k], a, b)
    {
      var e := fill[k];
      if !(0 <= e.0 < g.n && 0 <= e.1 < g.n) || e.0 == e.1 {
        assert !FreshAt(adj0, fill, k);
        return false;
      }
      var has := g.HasEdge(e.0, e.1);
      if has {
        assert !FreshAt(adj0, fill, k);
        return false;
      }
      ghost var before := g.adjList;
      g.AddEdge(e.0, e.1);
      FreshFillStep(adj0, fill, k);
      forall a, b | 0 <= a < g.n && 0 <= b < g.n
        ensures Adjacent(g.adjList, a, b) <==> Adjacent(adj0, a, b) || JoinedBy(fill[..k + 1], a, b)
      {
        JoinedByStep(fill, k, a, b);
      }
    }
    assert fill[..|fill|] == fill;
    ok := true;
  }

  /** adj is adj0 with the fill edges added, and m counts its edges. */
  ghost predicate FilledWith(adj0: Adj, fill: seq<Edge>, adj: Adj, m: int) {
    |adj| == |adj0| && WellFormed(adj) && 2 * m == DegreeSum(adj) &&
    forall a, b | 0 <= a < |adj| && 0 <= b < |adj| :: Adjacent(adj, a, b) <==> Adjacent(adj0, a, b) || JoinedBy(fill, a, b)
  }

  /** Splits the input graph into instances for the exact search, keeping
      the fill edges and the lower bound that the reductions settle. */
  class TreewidthPreprocessor {
    var instances: seq<TreewidthInstance>
    /** Fill edges decided by the reductions, in input labels. */
    var fillEdges: seq<Edge>
    var lowerBound: int
    const origGraph: Graph

    /** Every kept fill edge joins two distinct input labels and every
        instance is labelled from the input graph. */
    ghost predicate Valid()
      reads this, origGraph
    {
      origGraph.Valid() &&
      (forall k | 0 <= k < |fillEdges| :: LabelEdge(origGraph.vertexMap, fillEdges[k])) &&
      (forall k | 0 <= k < |instances| :: InstanceOf(origGraph.vertexMap, instances[k]))
    }

    /** Keeps its own copy of the input graph. */
    constructor(graph: Graph)
      requires graph.Valid()
      ensures Valid() && fresh(origGraph)
      ensures origGraph.n == graph.n && origGraph.adjList == graph.adjList && origGraph.vertexMap == graph.vertexMap
      ensures instances == [] && fillEdges == [] && lowerBound == 0
    {
      var copy := graph.Clone();
      origGraph := copy;
      instances := [];
      fillEdges := [];
      lowerBound := 0;
    }

    /** With pp, runs the reductions from the input graph; without, the
        input graph is the single instance, with upper bound 1e9 and no
        fill. Either way the instances whose upper bound does not exceed
        the lower bound are dropped and their bound fill is kept. fuel
        bounds the depth of the reductions. */
    method Preprocess(pp: bool, fuel: nat) returns (r: Outcome<seq<TreewidthInstance>>)
      requires Valid()
      modifies this
      ensures Valid()
      ensures r.Done? ==> r.value == instances && forall k | 0 <= k < |instances| :: lowerBound < instances[k].upperBound
      ensures !pp ==> r == Done([TreewidthInstance(Snapshot(origGraph), NoUpperBound, [])])
      ensures !pp ==> fillEdges == [] && lowerBound == 0
    {
      lowerBound := 0;
      instances := [];
      fillEdges := [];
      if pp {
        var copy := origGraph.Clone();
        var r1 := Preprocess1(copy, fuel);
        if r1.Abort? {
          return Abort;
        }
      } else {
        var only := TreewidthInstance(Snapshot(origGraph), NoUpperBound, []);
        instances := [only];
        ChainIncreasingStrict(origGraph.vertexMap);
        OneUnsettled(only, lowerBound);
      }
      var ok := SettleInstances();
      if !ok {
        return Abort;
      }
      r := Done(instances);
    }

    /** Drops the instances whose upper bound does not exceed the lower
        bound, appending their bound fill in input labels. */
    method SettleInstances() returns (ok: bool)
      requires Valid()
      modifies this
      ensures Valid() && lowerBound == old(lowerBound)
      ensures ok <==> SettledFill(old(instances), lowerBound).Some?
      ensures ok ==> instances == Unsettled(old(instances), lowerBound)
      ensures ok ==> fillEdges == old(fillEdges) + SettledFill(old(instances), lowerBound).value
    {
      var kept, fill := DropSettled(instances, lowerBound);
      if fill.None? {
        return false;
      }
      SettledFillLabels(origGraph.vertexMap, instances, lowerBound);
      fillEdges := fillEdges + fill.value;
      instances := kept;
      return true;
    }

    /** One graph: an MCS-M triangulation with at most one fill edge settles
        it, raising the lower bound to the width of the filled graph and
        keeping the fill; otherwise it is split into atoms at clique
        separators. A single atom goes on to the degree reductions with the
        triangulation's width as its upper bound and its fill as the bound
        fill; several atoms are each preprocessed again. */
    method Preprocess1(g: Graph, fuel: nat) returns (r: Outcome<()>)
      requires Valid() && g.Valid() && LabelsIn(g.vertexMap, origGraph.vertexMap)
      modifies this
      decreases fuel, 2
      ensures Valid() && lowerBound >= old(lowerBound)
      ensures old(instances) <= instances && old(fillEdges) <= fillEdges
    {
      var mo := McsM(g);
      McsMOutputShape(g.adjList, mo);
      var filled := g.Clone();
      filled.AddEdges(mo.fillEdges);
      if |mo.fillEdges| <= 1 {
        r := SettleBranch(g, filled, mo.fillEdges);
        return;
      }
      var atoms, comps, seps, blocked := Atoms(g, mo);
      if atoms.Abort? {
        return Abort;
      }
      if |atoms.value| == 1 {
        r := PreprocessAtom(g, filled, mo.fillEdges, atoms.value[0], comps[0], fuel);
        return;
      }
      r := PreprocessAtoms(g, atoms.value, comps, fuel);
    }

    /** Each of several atoms of g, labelled from g, is preprocessed again. */
    method PreprocessAtoms(g: Graph, atoms: seq<Graph>, ghost comps: seq<seq<int>>, fuel: nat) returns (r: Outcome<()>)
      requires Valid() && g.Valid() && LabelsIn(g.vertexMap, origGraph.vertexMap)
      requires |comps| == |atoms| && forall k | 0 <= k < |atoms| :: InducedOn(g.adjList, atoms[k], comps[k])
      modifies this
      decreases fuel, 1
      ensures Valid() && lowerBound >= old(lowerBound)
      ensures old(instances) <= instances && old(fillEdges) <= fillEdges
    {
      if fuel == 0 {
        return Abort;
      }
      for k := 0 to |atoms|
        modifies this
        invariant Valid() && lowerBound >= old(lowerBound)
        invariant old(instances) <= instances && old(fillEdges) <= fillEdges
      {
        assert InducedOn(g.adjList, atoms[k], comps[k]);
        var atom := LabelledCopy(atoms[k], g, origGraph.vertexMap);
        var rk := Preprocess1(atom, fuel - 1);
        if rk.Abort? {
          return Abort;
        }
      }
      r := Done(());
    }

    /** Appends the fill edges es of h, mapped to input labels. */
    method KeepFill(h: Graph, es: seq<Edge>)
      requires Valid() && h.Valid() && LabelsIn(h.vertexMap, origGraph.vertexMap)
      requires LoopFree(es) && forall k | 0 <= k < |es| :: 0 <= es[k].0 < h.n && 0 <= es[k].1 < h.n
      modifies this
      ensures Valid() && instances == old(instances) && lowerBound == old(lowerBound)
      ensures |fillEdges| == |old(fillEdges)| + |es| && fillEdges[..|old(fillEdges)|] == old(fillEdges)
      ensures forall k | 0 <= k < |es| :: fillEdges[|old(fillEdges)| + k] == (h.vertexMap[es[k].0], h.vertexMap[es[k].1])
    {
      var mapped := h.MapBackEdges(es);
      MappedLabelEdges(h.vertexMap, origGraph.vertexMap, es, mapped);
      fillEdges := fillEdges + mapped;
    }

    /** Settles a graph whose triangulation has at most one fill edge: the
        lower bound rises to the width of the filled graph and the fill is
        kept in input labels. */
    method SettleBranch(g: Graph, filled: Graph, fill: seq<Edge>) returns (r: Outcome<()>)
      requires Valid() && g.Valid() && filled.Valid() && LabelsIn(g.vertexMap, origGraph.vertexMap)
      requires LoopFree(fill) && forall k | 0 <= k < |fill| :: 0 <= fill[k].0 < g.n && 0 <= fill[k].1 < g.n
      modifies this
      ensures Valid() && instances == old(instances) && lowerBound >= old(lowerBound)
      ensures r.Done? ==> exists w :: (TreewidthResult(filled.adjList, filled.m, w) &&
        lowerBound == (if w > old(lowerBound) then w else old(lowerBound)))
      ensures r.Done? ==> |fillEdges| == |old(fillEdges)| + |fill| && fillEdges[..|old(fillEdges)|] == old(fillEdges)
      ensures r.Done? ==> forall k | 0 <= k < |fill| ::
        fillEdges[|old(fillEdges)| + k] == (g.vertexMap[fill[k].0], g.vertexMap[fill[k].1])
      ensures r.Abort? ==> fillEdges == old(fillEdges)
    {
      var t := Treewidth(filled);
      if t.Abort? {
        return Abort;
      }
      assert TreewidthResult(filled.adjList, filled.m, t.value);
      RaiseLowerBound(t.value);
      KeepFill(g, fill);
      r := Done(());
    }

    /** The single atom of g: its minimum degree, which must be at least 2,
        raises the lower bound, and a copy labelled from g goes on to the
        degree reductions with the width of the filled graph as its upper
        bound and the triangulation's fill as the bound fill. */
    method PreprocessAtom(g: Graph, filled: Graph, fill: seq<Edge>, atom: Graph, ghost comp: seq<int>, fuel: nat)
      returns (r: Outcome<()>)
      requires Valid() && g.Valid() && filled.Valid() && LabelsIn(g.vertexMap, origGraph.vertexMap)
      requires InducedOn(g.adjList, atom, comp) && LoopFree(fill)
      modifies this
      decreases fuel, 1
      ensures Valid() && lowerBound >= old(lowerBound)
      ensures old(instances) <= instances && old(fillEdges) <= fillEdges
      ensures r.Done? ==> atom.n >= 3 && forall v | 0 <= v < atom.n :: |atom.adjList[v]| >= 2
      ensures r.Done? ==> lowerBound >= atom.n - 1 || exists v | 0 <= v < atom.n :: lowerBound >= |atom.adjList[v]|
    {
      var minDegree := atom.MinDegree();
      if minDegree < 2 {
        return Abort;
      }
      RaiseLowerBound(minDegree);
      var copy := LabelledCopy(atom, g, origGraph.vertexMap);
      var t := Treewidth(filled);
      if t.Abort? {
        return Abort;
      }
      r := Preprocess2(copy, t.value, fill, fuel);
    }

    /** lowerBound := max(lowerBound, b). */
    method RaiseLowerBound(b: int)
      requires Valid()
      modifies this
      ensures Valid() && instances == old(instances) && fillEdges == old(fillEdges)
      ensures lowerBound == if b > old(lowerBound) then b else old(lowerBound)
    {
      if b > lowerBound {
        lowerBound := b;
      }
    }

    /** The degree reductions on an instance: degree-2 elimination that adds
        fill, or else a one-missing-edge neighbourhood, keeps the new fill
        and preprocesses the reduced graph again; when neither applies the
        instance is kept for the exact search. */
    method Preprocess2(h: Graph, upperBound: int, upperBoundFill: seq<Edge>, fuel: nat) returns (r: Outcome<()>)
      requires Valid() && h.Valid() && h != origGraph && LabelsIn(h.vertexMap, origGraph.vertexMap)
      requires LoopFree(upperBoundFill) && forall v | 0 <= v < h.n :: |h.adjList[v]| >= 2
      modifies this, h
      decreases fuel, 0
      ensures Valid() && lowerBound >= old(lowerBound)
      ensures old(instances) <= instances && old(fillEdges) <= fillEdges
      ensures h.Valid()
      ensures r.Done? && fillEdges == old(fillEdges) ==>
        instances == old(instances) + [TreewidthInstance(Snapshot(h), upperBound, upperBoundFill)] &&
        lowerBound == old(lowerBound) && forall x | 0 <= x < h.n :: PassedOver(h.adjList, x)
    {
      var fillD2 := GreedyDegree2(h);
      if |fillD2| > 0 {
        KeepFill(h, fillD2);
        if fuel == 0 {
          return Abort;
        }
        r := Preprocess1(h, fuel - 1);
        return;
      }
      var nbFill := NeighborClique(h);
      if nbFill.Abort? {
        return Abort;
      }
      if nbFill.value.0 != -1 {
        KeepFill(h, [nbFill.value]);
        if fuel == 0 {
          return Abort;
        }
        r := Preprocess1(h, fuel - 1);
        return;
      }
      instances := instances + [TreewidthInstance(Snapshot(h), upperBound, upperBoundFill)];
      ChainIncreasingStrict(h.vertexMap);
      r := Done(());
    }

    /** Combines the solutions of the instances, in order, into one for the
        input graph: the width is the largest of the lower bound and the
        solutions' widths; the fill is the kept fill followed by each
        solution's fill in input labels, every edge with its smaller end
        first, sorted. The program stops when an edge repeats, when an edge
        is not new to the input graph, or when the treewidth bound of the
        filled input graph is not the width. */
    method MapBack(solutions: seq<TreewidthSolution>) returns (r: Outcome<TreewidthSolution>)
      requires Valid() && |solutions| == |instances|
      ensures CollectFill(instances, solutions).None? ==> r.Abort?
      ensures (CollectFill(instances, solutions).Some? &&
        !Distinct(NormalizeAll(fillEdges + CollectFill(instances, solutions).value))) ==> r.Abort?
      ensures (CollectFill(instances, solutions).Some? &&
        Distinct(NormalizeAll(fillEdges + CollectFill(instances, solutions).value)) &&
        !FreshFill(origGraph.adjList, SortAndDedup(NormalizeAll(fillEdges + CollectFill(instances, solutions).value), EdgeLess))) ==>
        r.Abort?
      ensures (r.Abort? && CollectFill(instances, solutions).Some? &&
        Distinct(NormalizeAll(fillEdges + CollectFill(instances, solutions).value)) &&
        FreshFill(origGraph.adjList, SortAndDedup(NormalizeAll(fillEdges + CollectFill(instances, solutions).value), EdgeLess))) ==>
        exists adj, m :: (FilledWith(origGraph.adjList, SortAndDedup(NormalizeAll(fillEdges + CollectFill(instances, solutions).value), EdgeLess), adj, m) &&
          WidthRefuted(adj, m, MaxWidth(lowerBound, solutions)))
      ensures r.Done? ==> r.value.treewidth == MaxWidth(lowerBound, solutions)
      ensures r.Done? ==> CollectFill(instances, solutions).Some?
      ensures r.Done? ==> StrictlySorted(r.value.fillEdges, EdgeLess)
      ensures r.Done? ==> forall e ::
        e in r.value.fillEdges <==> e in NormalizeAll(fillEdges + CollectFill(instances, solutions).value)
      ensures r.Done? ==> forall k | 0 <= k < |r.value.fillEdges| ::
        0 <= r.value.fillEdges[k].0 < r.value.fillEdges[k].1 < origGraph.n &&
        !Adjacent(origGraph.adjList, r.value.fillEdges[k].0, r.value.fillEdges[k].1)
      ensures r.Done? ==> exists adj, m ::
        (FilledWith(origGraph.adjList, r.value.fillEdges, adj, m) && TreewidthResult(adj, m, r.value.treewidth))
    {
      var width, collected := CollectSolutions(instances, solutions, lowerBound);
      if collected.None? {
        return Abort;
      }
      var normalized := NormalizeEdges(fillEdges + collected.value);
      var repeat := HasRepeat(normalized);
      if repeat {
        return Abort;
      }
      EdgeLessOrder();
      var sorted := SortAndDedup(normalized, EdgeLess);
      var final := origGraph.Clone();
      var ok := AddFillChecked(final, sorted);
      if !ok {
        return Abort;
      }
      var t := Treewidth(final);
      assert FilledWith(origGraph.adjList, sorted, final.adjList, final.m);
      if t.Abort? || t.value != width {
        assert WidthRefuted(final.adjList, final.m, width);
        return Abort;
      }
      assert FilledWith(origGraph.adjList, sorted, final.adjList, final.m);
      assert TreewidthResult(final.adjList, final.m, width);
      forall k | 0 <= k < |sorted|
        ensures 0 <= sorted[k].0 < sorted[k].1 < origGraph.n && !Adjacent(origGraph.adjList, sorted[k].0, sorted[k].1)
      {
        assert FreshAt(origGraph.adjList, sorted, k);
        assert sorted[k] in normalized;
      }
      r := Done(TreewidthSolution(sorted, width));
    }

    /** A copy of an atom of g, relabelled with g's labels (the source
        relabels the atom itself); its labels stay input labels. */
    static method LabelledCopy(atom: Graph, g: Graph, labels: seq<int>) returns (copy: Graph)
      requires atom.Valid() && g.Valid() && LabelsIn(g.vertexMap, labels)
      requires forall k | 0 <= k < atom.n :: 0 <= atom.vertexMap[k] < g.n
      ensures fresh(copy) && copy.Valid() && copy.n == atom.n && copy.adjList == atom.adjList
      ensures |copy.vertexMap| == atom.n && forall k | 0 <= k < atom.n :: copy.vertexMap[k] == g.vertexMap[atom.vertexMap[k]]
      ensures LabelsIn(copy.vertexMap, labels)
    {
      copy := atom.Clone();
      copy.InheritMap(g);
    }
  }
}
