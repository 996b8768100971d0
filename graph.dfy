/** The graph: an adjacency list, an adjacency matrix and an edge counter that
    are kept consistent, the vertex map back to the caller's labels, and the
    component, neighbourhood and PMC queries built on a depth-first search. */
module Graphs {
  import opened GraphTheory
  import opened Matrices
  import opened Utils

  type Edge = (int, int)

  /** The sum of the list lengths of the first k vertices. */
  ghost function DegreeSumTo(adj: Adj, k: nat): int
    requires k <= |adj|
  {
    if k == 0 then 0 else DegreeSumTo(adj, k - 1) + |adj[k-1]|
  }

  /** Twice the number of edges of a simple undirected graph. */
  ghost function DegreeSum(adj: Adj): int {
    DegreeSumTo(adj, |adj|)
  }

  lemma {:induction false} DegreeSumToUpdate(adj: Adj, k: nat, v: nat, x: seq<int>)
    requires v < |adj| && k <= |adj|
    ensures DegreeSumTo(adj[v := x], k) == DegreeSumTo(adj, k) - (if v < k then |adj[v]| - |x| else 0)
  {
    if k > 0 {
      DegreeSumToUpdate(adj, k - 1, v, x);
    }
  }

  lemma {:induction false} DegreeSumUpdate(adj: Adj, v: nat, x: seq<int>)
    requires v < |adj|
    ensures DegreeSum(adj[v := x]) == DegreeSum(adj) - |adj[v]| + |x|
  {
    DegreeSumToUpdate(adj, |adj|, v, x);
  }

  /** n vertices and no edges. */
  function NoEdges(n: nat): Adj {
    seq(n, _ => [])
  }

  /** The indices of the unmarked entries. */
  ghost function Free(block: seq<bool>): set<int> {
    set i | 0 <= i < |block| && !block[i]
  }

  ghost function Marked(block: seq<bool>): set<int> {
    set i | 0 <= i < |block| && block[i]
  }

  lemma {:induction false} FreeShrinks(b1: seq<bool>, b2: seq<bool>, v: int)
    requires |b1| == |b2| && 0 <= v < |b1| && !b1[v] && b2[v]
    requires forall i | 0 <= i < |b1| :: b1[i] ==> b2[i]
    ensures |Free(b2)| < |Free(b1)|
  {
    assert Free(b2) <= Free(b1) - {v};
    CardSubset(Free(b2), Free(b1) - {v});
  }

  /** The vertex pairs joined by one of the given edges, in either orientation. */
  ghost predicate JoinedBy(edges: seq<Edge>, a: int, b: int) {
    exists k | 0 <= k < |edges| :: (edges[k].0 == a && edges[k].1 == b) || (edges[k].0 == b && edges[k].1 == a)
  }

  lemma {:induction false} JoinedByStep(edges: seq<Edge>, i: nat, a: int, b: int)
    requires i < |edges|
    ensures JoinedBy(edges[..i+1], a, b) <==>
      JoinedBy(edges[..i], a, b) || (edges[i].0 == a && edges[i].1 == b) || (edges[i].0 == b && edges[i].1 == a)
  {
    assert edges[..i+1][i] == edges[i];
    assert forall k | 0 <= k < i :: edges[..i+1][k] == edges[..i][k];
  }

  function Endpoints(edges: seq<Edge>): (r: seq<int>)
    ensures forall x :: x in r <==> exists k | 0 <= k < |edges| :: edges[k].0 == x || edges[k].1 == x
  {
    if edges == [] then []
    else
      var r := Endpoints(edges[..|edges|-1]) + [edges[|edges|-1].0, edges[|edges|-1].1];
      assert forall k | 0 <= k < |edges| - 1 :: edges[..|edges|-1][k] == edges[k];
      r
  }

  class Graph {
    const n: nat
    var m: int
    var adjList: seq<seq<int>>
    /** The adjacency matrix, held by value: adjMat[v][u] iff {v, u} is an edge. */
    var adjMat: seq<seq<bool>>
    /** The sorted labels of the vertices in the graph this one was built from. */
    var vertexMap: seq<int>

    ghost predicate Valid()
      reads this
    {
      |adjList| == n && WellFormed(adjList) &&
      |adjMat| == n && (forall v | 0 <= v < n :: |adjMat[v]| == n) &&
      (forall v, u | 0 <= v < n && 0 <= u < n :: adjMat[v][u] <==> u in adjList[v]) &&
      2 * m == DegreeSum(adjList) &&
      |vertexMap| == n && ChainIncreasing(vertexMap)
    }

    /** Valid() assembled from its parts, so that each method proves them one by one. */
    lemma {:induction false} ValidFromParts()
      requires |adjList| == n && WellFormed(adjList) && 2 * m == DegreeSum(adjList)
      requires |adjMat| == n && forall v | 0 <= v < n :: |adjMat[v]| == n
      requires forall v, u | 0 <= v < n && 0 <= u < n :: adjMat[v][u] <==> u in adjList[v]
      requires |vertexMap| == n && ChainIncreasing(vertexMap)
      ensures Valid()
    {
    }

    /** n isolated vertices, labelled by themselves. */
    constructor(n: nat)
      ensures Valid() && fresh(this)
      ensures this.n == n && m == 0 && adjList == NoEdges(n)
      ensures vertexMap == seq(n, i => i)
    {
      this.n := n;
      m := 0;
      adjList := NoEdges(n);
      adjMat := seq(n, _ => seq(n, _ => false));
      vertexMap := seq(n, i => i);
      new;
      ZeroDegreeSum(n);
    }

    static lemma {:induction false} ZeroDegreeSum(n: nat)
      ensures DegreeSum(NoEdges(n)) == 0
    {
      ZeroDegreeSumTo(n, n);
    }

    static lemma {:induction false} ZeroDegreeSumTo(n: nat, k: nat)
      requires k <= n
      ensures DegreeSumTo(NoEdges(n), k) == 0
    {
      if k > 0 {
        ZeroDegreeSumTo(n, k - 1);
      }
    }

    /** The graph on the endpoints of the edges, numbered in sorted label order. */
    constructor FromEdges(edges: seq<Edge>)
      requires forall k | 0 <= k < |edges| :: edges[k].0 != edges[k].1
      ensures Valid() && fresh(this)
      ensures vertexMap == SortAndDedupInts(Endpoints(edges))
      ensures forall a, b | 0 <= a < n && 0 <= b < n ::
        Adjacent(adjList, a, b) <==> JoinedBy(edges, vertexMap[a], vertexMap[b])
    {
      var vm := SortAndDedupInts(Endpoints(edges));
      n := |vm|;
      m := 0;
      adjList := NoEdges(|vm|);
      adjMat := seq(|vm|, _ => seq(|vm|, _ => false));
      vertexMap := vm;
      new;
      ZeroDegreeSum(n);
      AddLabelledEdges(edges);
    }

    /** The edge loop of FromEdges: each edge is added between the ranks of its endpoints. */
    method AddLabelledEdges(edges: seq<Edge>)
      requires Valid() && adjList == NoEdges(n)
      requires forall k | 0 <= k < |edges| :: edges[k].0 != edges[k].1 && edges[k].0 in vertexMap && edges[k].1 in vertexMap
      modifies this
      ensures Valid() && vertexMap == old(vertexMap)
      ensures forall a, b | 0 <= a < n && 0 <= b < n ::
        Adjacent(adjList, a, b) <==> JoinedBy(edges, vertexMap[a], vertexMap[b])
    {
      ChainIncreasingStrict(vertexMap);
      for i := 0 to |edges|
        invariant Valid() && vertexMap == old(vertexMap)
        invariant forall a, b | 0 <= a < n && 0 <= b < n ::
          Adjacent(adjList, a, b) <==> JoinedBy(edges[..i], vertexMap[a], vertexMap[b])
      {
        var a := RankInts(vertexMap, edges[i].0);
        var b := RankInts(vertexMap, edges[i].1);
        ghost var before := adjList;
        AddEdge(a, b);
        RelabelStep(before, adjList, edges, i, vertexMap, a, b);
      }
      assert edges[..|edges|] == edges;
    }

    /** One edge of FromEdges: the labelled edge set grows by edges[i]. */
    static lemma {:induction false} RelabelStep(before: Adj, after: Adj, edges: seq<Edge>, i: nat, vm: seq<int>, a: nat, b: nat)
      requires i < |edges| && |before| == |after| == |vm| && StrictlyIncreasing(vm)
      requires a < |vm| && b < |vm| && vm[a] == edges[i].0 && vm[b] == edges[i].1
      requires forall x, y | 0 <= x < |vm| && 0 <= y < |vm| ::
        Adjacent(before, x, y) <==> JoinedBy(edges[..i], vm[x], vm[y])
      requires forall x, y | 0 <= x < |vm| && 0 <= y < |vm| ::
        Adjacent(after, x, y) <==> Adjacent(before, x, y) || (x == a && y == b) || (x == b && y == a)
      ensures forall x, y | 0 <= x < |vm| && 0 <= y < |vm| ::
        Adjacent(after, x, y) <==> JoinedBy(edges[..i+1], vm[x], vm[y])
    {
      forall x, y | 0 <= x < |vm| && 0 <= y < |vm|
        ensures Adjacent(after, x, y) <==> JoinedBy(edges[..i+1], vm[x], vm[y])
      {
        JoinedByStep(edges, i, vm[x], vm[y]);
        Injective(vm, x, a);
        Injective(vm, y, b);
        Injective(vm, x, b);
        Injective(vm, y, a);
      }
    }

    static lemma {:induction false} Injective(s: seq<int>, i: int, j: int)
      requires StrictlyIncreasing(s) && 0 <= i < |s| && 0 <= j < |s|
      ensures s[i] == s[j] <==> i == j
    {
    }

    /** A copy with its own matrix. */
    method Clone() returns (g: Graph)
      requires Valid()
      ensures fresh(g) && g.Valid()
      ensures g.n == n && g.m == m && g.adjList == adjList && g.vertexMap == vertexMap
    {
      g := new Graph.Copy(n, m, adjList, adjMat, vertexMap);
    }

    constructor Copy(n: nat, m: int, adjList: seq<seq<int>>, adjMat: seq<seq<bool>>, vertexMap: seq<int>)
      ensures this.n == n && this.m == m && this.adjList == adjList && this.adjMat == adjMat
      ensures this.vertexMap == vertexMap
    {
      this.n := n;
      this.m := m;
      this.adjList := adjList;
      this.adjMat := adjMat;
      this.vertexMap := vertexMap;
    }

    method HasEdge(v: int, u: int) returns (r: bool)
      requires Valid() && 0 <= v < n && 0 <= u < n
      ensures r <==> Adjacent(adjList, v, u)
    {
      r := adjMat[v][u];
    }

    /** Adds the edge {v, u} unless it is already present. A loop is refused. */
    method AddEdge(v: int, u: int)
      requires Valid() && 0 <= v < n && 0 <= u < n && v != u
      modifies this
      ensures Valid() && vertexMap == old(vertexMap)
      ensures old(Adjacent(adjList, v, u)) ==> adjList == old(adjList) && m == old(m)
      ensures !old(Adjacent(adjList, v, u)) ==>
        adjList == old(adjList)[v := old(adjList[v]) + [u]][u := old(adjList[u]) + [v]] &&
        m == old(m) + 1
      ensures forall a, b | 0 <= a < n && 0 <= b < n ::
        Adjacent(adjList, a, b) <==> old(Adjacent(adjList, a, b)) || (a == v && b == u) || (a == u && b == v)
    {
      var present := adjMat[v][u];
      if present {
        return;
      }
      m := m + 1;
      adjMat := adjMat[v := adjMat[v][u := true]];
      adjMat := adjMat[u := adjMat[u][v := true]];
      var a0 := adjList;
      AddEdgeWellFormed(a0, v, u);
      adjList := adjList[v := adjList[v] + [u]];
      DegreeSumUpdate(a0, v, a0[v] + [u]);
      var a1 := adjList;
      adjList := adjList[u := adjList[u] + [v]];
      DegreeSumUpdate(a1, u, a1[u] + [v]);
      ValidFromParts();
      forall a, b | 0 <= a < n && 0 <= b < n
        ensures Adjacent(adjList, a, b) <==> old(Adjacent(adjList, a, b)) || (a == v && b == u) || (a == u && b == v)
      {
        assert b in adjList[a] <==> b in a0[a] || (a == v && b == u) || (a == u && b == v);
      }
    }

    method AddEdges(edges: seq<Edge>)
      requires Valid()
      requires forall k | 0 <= k < |edges| :: 0 <= edges[k].0 < n && 0 <= edges[k].1 < n && edges[k].0 != edges[k].1
      modifies this
      ensures Valid() && vertexMap == old(vertexMap)
      ensures forall a, b | 0 <= a < n && 0 <= b < n ::
        Adjacent(adjList, a, b) <==> old(Adjacent(adjList, a, b)) || JoinedBy(edges, a, b)
    {
      for i := 0 to |edges|
        invariant Valid() && vertexMap == old(vertexMap)
        invariant forall a, b | 0 <= a < n && 0 <= b < n ::
          Adjacent(adjList, a, b) <==> old(Adjacent(adjList, a, b)) || JoinedBy(edges[..i], a, b)
      {
        label Before:
        AddEdge(edges[i].0, edges[i].1);
        forall a, b | 0 <= a < n && 0 <= b < n
          ensures Adjacent(adjList, a, b) <==> old(Adjacent(adjList, a, b)) || JoinedBy(edges[..i+1], a, b)
        {
          JoinedByStep(edges, i, a, b);
          assert Adjacent(adjList, a, b) <==>
            old@Before(Adjacent(adjList, a, b)) || (edges[i].0 == a && edges[i].1 == b) || (edges[i].0 == b && edges[i].1 == a);
        }
      }
      assert edges[..|edges|] == edges;
    }

    /** Removes the edge {v, u}, which must be present: each endpoint's list
        loses the other endpoint by swapping it with the last entry. */
    method RemoveEdge(v: int, u: int)
      requires Valid() && 0 <= v < n && 0 <= u < n && Adjacent(adjList, v, u)
      modifies this
      ensures Valid() && vertexMap == old(vertexMap) && m == old(m) - 1
      ensures adjList == old(adjList)[v := SwapRemove(old(adjList[v]), u)][u := SwapRemove(old(adjList[u]), v)]
      ensures forall a, b | 0 <= a < n && 0 <= b < n ::
        Adjacent(adjList, a, b) <==> old(Adjacent(adjList, a, b)) && !(a == v && b == u) && !(a == u && b == v)
    {
      m := m - 1;
      adjMat := adjMat[v := adjMat[v][u := false]];
      adjMat := adjMat[u := adjMat[u][v := false]];
      var a0 := adjList;
      RemoveEdgeWellFormed(a0, v, u);
      var lv := RemoveFirst(adjList[v], u);
      adjList := adjList[v := lv];
      DegreeSumUpdate(a0, v, lv);
      var a1 := adjList;
      var lu := RemoveFirst(adjList[u], v);
      adjList := adjList[u := lu];
      DegreeSumUpdate(a1, u, lu);
      ValidFromParts();
      forall a, b | 0 <= a < n && 0 <= b < n
        ensures Adjacent(adjList, a, b) <==> old(Adjacent(adjList, a, b)) && !(a == v && b == u) && !(a == u && b == v)
      {
        assert b in adjList[a] <==> b in a0[a] && !(a == v && b == u) && !(a == u && b == v);
      }
    }

    /** One list's loop of RemoveEdge: finds the entry, swaps it with the last
        one and drops the last. */
    static method RemoveFirst(list: seq<int>, x: int) returns (r: seq<int>)
      requires x in list
      ensures r == SwapRemove(list, x)
    {
      r := list;
      var i := 0;
      while i < |r|
        invariant 0 <= i <= |r| && r == list && x !in list[..i]
      {
        if r[i] == x {
          r := r[i := r[|r|-1]];
          r := r[..|r|-1];
          assert IndexOf(list, x) == i;
          return;
        }
        i := i + 1;
      }
    }

    /** n - 1, or the smallest degree if that is smaller. */
    method MinDegree() returns (r: int)
      requires Valid()
      ensures r <= n - 1 && forall v | 0 <= v < n :: r <= |adjList[v]|
      ensures r == n - 1 || exists v | 0 <= v < n :: r == |adjList[v]|
    {
      r := n - 1;
      for i := 0 to n
        invariant r <= n - 1 && forall v | 0 <= v < i :: r <= |adjList[v]|
        invariant r == n - 1 || exists v | 0 <= v < i :: r == |adjList[v]|
      {
        if |adjList[i]| < r {
          r := |adjList[i]|;
        }
      }
    }

    /** Every edge once, as (a, b) with a < b, in order of a. */
    method Edges() returns (r: seq<Edge>)
      requires Valid()
      ensures forall e :: e in r <==> e.0 < e.1 && Adjacent(adjList, e.0, e.1)
      ensures forall i, j | 0 <= i < j < |r| :: r[i] != r[j]
    {
      r := [];
      for i := 0 to n
        invariant forall e :: e in r <==> e.0 < e.1 && 0 <= e.0 < i && Adjacent(adjList, e.0, e.1)
        invariant forall e | e in r :: e.0 < i
        invariant forall a, b | 0 <= a < b < |r| :: r[a] != r[b]
      {
        var r0 := r;
        for j := 0 to |adjList[i]|
          invariant forall e :: e in r <==> e in r0 || (e.0 == i && e.1 > i && e.1 in adjList[i][..j])
          invariant forall e | e in r :: e.0 <= i
          invariant forall a, b | 0 <= a < b < |r| :: r[a] != r[b]
        {
          var a := adjList[i][j];
          if a > i {
            assert (i, a) !in r;
            r := r + [(i, a)];
          }
        }
        assert adjList[i][..|adjList[i]|] == adjList[i];
      }
    }

    /** Depth-first search from the unmarked vertex v: marks and appends to
        the list every vertex reachable from v through unmarked vertices. */
    method Dfs(v: int, block: array<bool>, component: seq<int>) returns (comp: seq<int>)
      requires Valid() && block.Length == n && 0 <= v < n && !block[v]
      modifies block
      ensures |comp| > |component| && comp[..|component|] == component && comp[|component|] == v
      ensures Grows(old(block[..]), block[..], comp[|component|..])
      ensures ClosedMarks(adjList, comp[|component|..], block[..])
      ensures ReachedFrom(adjList, Free(old(block[..])), v, comp[|component|..])
      decreases |Free(block[..])|, 0
    {
      ghost var b0 := block[..];
      block[v] := true;
      comp := component + [v];
      ghost var added := [v];
      DfsStart(adjList, b0, block[..], v);
      var i := 0;
      while i < |adjList[v]|
        invariant comp == component + added
        invariant DfsInv(adjList, b0, block[..], v, i, added)
      {
        DfsNext(adjList, b0, block[..], v, i, added);
        comp, added := DfsChild(v, i, block, comp, b0, added, component);
        i := i + 1;
      }
      DfsEnd(adjList, b0, block[..], v, added);
      assert comp[|component|..] == added;
    }

    /** One neighbour of v in Dfs: searched from when still unmarked,
        skipped otherwise. */
    method DfsChild(v: int, i: int, block: array<bool>, comp: seq<int>, ghost b0: seq<bool>, ghost added: seq<int>,
                    ghost component: seq<int>) returns (comp': seq<int>, ghost added': seq<int>)
      requires Valid() && block.Length == n && 0 <= v < n && i < |adjList[v]|
      requires DfsInv(adjList, b0, block[..], v, i, added) && comp == component + added
      modifies block
      ensures DfsInv(adjList, b0, block[..], v, i + 1, added') && comp' == component + added'
      decreases |Free(block[..])|, 1
    {
      var nv := adjList[v][i];
      DfsNext(adjList, b0, block[..], v, i, added);
      if !block[nv] {
        ghost var mid := block[..];
        comp' := Dfs(nv, block, comp);
        ghost var added2 := comp'[|comp|..];
        assert comp' == comp + added2 by {
          assert comp'[..|comp|] == comp;
        }
        DfsAfter(adjList, b0, mid, block[..], v, i, added, added2);
        added' := added + added2;
      } else {
        DfsSkip(adjList, b0, block[..], v, i, added);
        comp', added' := comp, added;
      }
    }

    /** Runs Dfs from v with an empty list and returns what it collected. */
    method FindComponentAndMark(v: int, block: array<bool>) returns (comp: seq<int>)
      requires Valid() && block.Length == n && 0 <= v < n && !block[v]
      modifies block
      ensures |comp| > 0 && comp[0] == v
      ensures Grows(old(block[..]), block[..], comp)
      ensures ClosedMarks(adjList, comp, block[..])
      ensures ReachedFrom(adjList, Free(old(block[..])), v, comp)
    {
      comp := Dfs(v, block, []);
      assert comp[0..] == comp;
    }

    /** FindComponentAndMark on marks that hold the separator S and whole
        components of G - S: the list is the component of v, and the marks
        then hold it too. */
    method MarkComponent(v: int, block: array<bool>, ghost S: set<int>) returns (comp: seq<int>)
      requires Valid() && block.Length == n && 0 <= v < n && !block[v]
      requires S <= Marked(block[..]) && ClosedIn(adjList, S, Marked(block[..]))
      modifies block
      ensures |comp| > 0 && comp[0] == v && NoRepeats(comp) && Elems(comp) == Comp(adjList, S, v)
      ensures forall k | 0 <= k < |comp| :: 0 <= comp[k] < n
      ensures Marked(block[..]) == Marked(old(block[..])) + Elems(comp)
      ensures ClosedIn(adjList, S, Marked(block[..]))
    {
      ghost var b0 := block[..];
      comp := FindComponentAndMark(v, block);
      MarkedGrows(b0, block[..], comp);
      ClosedStep(adjList, S, b0, block[..], comp);
      FoundIsComponent(adjList, S, b0, block[..], comp, v);
    }

    /** The components of G - separator, each listed from its least vertex,
        in increasing order of that vertex. */
    method Components(separator: seq<int>) returns (comps: seq<seq<int>>)
      requires Valid() && forall k | 0 <= k < |separator| :: 0 <= separator[k] < n
      ensures ComponentList(adjList, Elems(separator), comps)
      ensures forall x | 0 <= x < n && x !in separator :: exists k | 0 <= k < |comps| :: x in comps[k]
    {
      var blocked := new bool[n](_ => false);
      for j := 0 to |separator|
        invariant forall x | 0 <= x < n :: blocked[x] == (x in separator[..j])
      {
        blocked[separator[j]] := true;
        assert separator[..j+1] == separator[..j] + [separator[j]];
      }
      assert separator[..|separator|] == separator;
      ghost var S := Elems(separator);
      assert ClosedIn(adjList, S, Marked(blocked[..]));
      comps := [];
      for i := 0 to n
        invariant CompsInv(adjList, S, blocked[..], comps, i)
      {
        if !blocked[i] {
          ghost var b0 := blocked[..];
          var c := FindComponentAndMark(i, blocked);
          ComponentsStep(adjList, S, b0, blocked[..], comps, c, i);
          comps := comps + [c];
        } else {
          assert blocked[..][i];
        }
      }
      forall x | 0 <= x < n && x !in separator ensures exists k | 0 <= k < |comps| :: x in comps[k] {
        assert blocked[..][x];
      }
    }

    /** Whether at most one component of G has more than one vertex. */
    method IsConnectedOrIsolated() returns (r: bool)
      requires Valid()
      ensures r <==> ConnectedOrIsolated(adjList)
    {
      var cs := Components([]);
      assert Elems([]) == {};
      var f := 0;
      ghost var big1, big2 := 0, 0;
      for k := 0 to |cs|
        invariant f == 0 ==> forall j | 0 <= j < k :: |cs[j]| <= 1
        invariant f >= 1 ==> 0 <= big1 < k && |cs[big1]| > 1
        invariant f == 1 ==> forall j | 0 <= j < k && |cs[j]| > 1 :: j == big1
        invariant f >= 2 ==> big1 < big2 < k && |cs[big2]| > 1
      {
        if |cs[k]| > 1 {
          if f == 0 {
            big1 := k;
          } else if f == 1 {
            big2 := k;
          }
          f := f + 1;
        }
      }
      r := f <= 1;
      BigComponents(adjList, cs);
    }

    /** The vertices adjacent to some vertex of vs and not in vs, in increasing
        order. Both strategies of the source compute the same list. */
    method Neighbors(vs: seq<int>) returns (r: seq<int>)
      requires Valid() && forall k | 0 <= k < |vs| :: 0 <= vs[k] < n
      ensures StrictlyIncreasing(r) && Elems(r) == Nbh(adjList, Elems(vs))
    {
      var sum := 0;
      for k := 0 to |vs| {
        sum := sum + |adjList[vs[k]]|;
      }
      if sum >= n / 4 {
        r := NeighborsByMarks(vs);
      } else {
        r := NeighborsBySet(vs);
      }
    }

    /** Neighbors for large degree sums: a mark per vertex, then a scan. */
    method NeighborsByMarks(vs: seq<int>) returns (r: seq<int>)
      requires Valid() && forall k | 0 <= k < |vs| :: 0 <= vs[k] < n
      ensures StrictlyIncreasing(r) && Elems(r) == Nbh(adjList, Elems(vs))
    {
      var nbs := new bool[n](_ => false);
      for k := 0 to |vs|
        invariant forall x | 0 <= x < n :: nbs[x] == AdjToSome(adjList, vs, k, x)
      {
        var v := vs[k];
        assert Below(adjList[v], n);
        for t := 0 to |adjList[v]|
          invariant forall x | 0 <= x < n :: nbs[x] == (AdjToSome(adjList, vs, k, x) || x in adjList[v][..t])
        {
          nbs[adjList[v][t]] := true;
          assert adjList[v][..t+1] == adjList[v][..t] + [adjList[v][t]];
        }
        assert adjList[v][..|adjList[v]|] == adjList[v];
        AdjToSomeStep(adjList, vs, k);
      }
      for k := 0 to |vs|
        invariant forall x | 0 <= x < n :: nbs[x] == (AdjToSome(adjList, vs, |vs|, x) && x !in vs[..k])
      {
        nbs[vs[k]] := false;
        assert vs[..k+1] == vs[..k] + [vs[k]];
      }
      assert vs[..|vs|] == vs;
      r := [];
      for i := 0 to n
        invariant StrictlyIncreasing(r) && forall k | 0 <= k < |r| :: r[k] < i
        invariant forall x :: x in r <==> 0 <= x < i && nbs[x]
      {
        if nbs[i] {
          r := r + [i];
        }
      }
      NbhOfList(adjList, vs);
    }

    /** Neighbors for small degree sums: an ordered set, read in increasing order. */
    method NeighborsBySet(vs: seq<int>) returns (r: seq<int>)
      requires Valid() && forall k | 0 <= k < |vs| :: 0 <= vs[k] < n
      ensures StrictlyIncreasing(r) && Elems(r) == Nbh(adjList, Elems(vs))
    {
      var nbs: seq<int> := [];
      for k := 0 to |vs|
        invariant StrictlyIncreasing(nbs) && forall x :: x in nbs <==> AdjToSome(adjList, vs, k, x)
      {
        var v := vs[k];
        for t := 0 to |adjList[v]|
          invariant StrictlyIncreasing(nbs)
          invariant forall x :: x in nbs <==> AdjToSome(adjList, vs, k, x) || x in adjList[v][..t]
        {
          nbs := InsertInts(adjList[v][t], nbs);
          assert adjList[v][..t+1] == adjList[v][..t] + [adjList[v][t]];
        }
        assert adjList[v][..|adjList[v]|] == adjList[v];
        AdjToSomeStep(adjList, vs, k);
      }
      for k := 0 to |vs|
        invariant StrictlyIncreasing(nbs)
        invariant forall x :: x in nbs <==> AdjToSome(adjList, vs, |vs|, x) && x !in vs[..k]
      {
        EraseIntsIncreasing(nbs, vs[k]);
        nbs := EraseInts(nbs, vs[k]);
        assert vs[..k+1] == vs[..k] + [vs[k]];
      }
      assert vs[..|vs|] == vs;
      r := nbs;
      NbhOfList(adjList, vs);
    }

    /** The edges with both ends in vs, each as (a, b) with a < b. */
    method EdgesIn(vs: seq<int>) returns (edges: seq<Edge>)
      requires Valid() && forall k | 0 <= k < |vs| :: 0 <= vs[k] < n
      ensures forall e :: e in edges <==> e.0 in vs && e.1 in vs && e.0 < e.1 && Adjacent(adjList, e.0, e.1)
    {
      var inVs := MarkMembers(vs);
      edges := [];
      for k := 0 to |vs|
        invariant forall e :: e in edges <==> EdgeFrom(adjList, vs, vs[..k], e)
      {
        var v := vs[k];
        assert Below(adjList[v], n);
        if |adjList[v]| <= |vs| {
          for t := 0 to |adjList[v]|
            invariant forall e :: e in edges <==>
              EdgeFrom(adjList, vs, vs[..k], e) || (e.0 == v && e.1 in adjList[v][..t] && e.1 in vs && v < e.1)
          {
            var nv := adjList[v][t];
            if inVs[nv] && nv > v {
              edges := edges + [(v, nv)];
            }
            assert adjList[v][..t+1] == adjList[v][..t] + [nv];
          }
          assert adjList[v][..|adjList[v]|] == adjList[v];
        } else {
          for t := 0 to |vs|
            invariant forall e :: e in edges <==>
              EdgeFrom(adjList, vs, vs[..k], e) || (e.0 == v && e.1 in vs[..t] && Adjacent(adjList, v, e.1) && v < e.1)
          {
            var nv := vs[t];
            if adjMat[v][nv] && nv > v {
              edges := edges + [(v, nv)];
            }
            assert vs[..t+1] == vs[..t] + [nv];
          }
        }
        assert vs[..k+1] == vs[..k] + [v];
      }
      assert vs[..|vs|] == vs;
    }

    /** Whether every two entries of the list, at distinct positions, are adjacent. */
    method IsClique(clique: seq<int>) returns (r: bool)
      requires Valid() && forall k | 0 <= k < |clique| :: 0 <= clique[k] < n
      ensures r <==> CliqueList(adjList, clique)
    {
      for i := 0 to |clique|
        invariant forall a, b | 0 <= a < b < |clique| && a < i :: Adjacent(adjList, clique[a], clique[b])
      {
        for j := i + 1 to |clique|
          invariant forall a, b | 0 <= a < b < |clique| && (a < i || (a == i && b < j)) :: Adjacent(adjList, clique[a], clique[b])
        {
          if !adjMat[clique[i]][clique[j]] {
            return false;
          }
        }
      }
      return true;
    }

    /** The caller's label of vertex v. */
    function MapBack(v: int): int
      reads this
      requires Valid() && 0 <= v < n
    {
      vertexMap[v]
    }

    /** The vertex whose label is x. */
    function MapInto(x: int): (v: int)
      reads this
      requires Valid() && x in vertexMap
      ensures 0 <= v < n && vertexMap[v] == x
    {
      ChainIncreasingStrict(vertexMap);
      RankInts(vertexMap, x)
    }

    /** Labels of a list of vertices; an increasing list keeps increasing. */
    method MapBackVertices(vs: seq<int>) returns (r: seq<int>)
      requires Valid() && forall k | 0 <= k < |vs| :: 0 <= vs[k] < n
      ensures |r| == |vs| && forall k | 0 <= k < |vs| :: r[k] == vertexMap[vs[k]]
      ensures StrictlyIncreasing(vs) ==> StrictlyIncreasing(r)
    {
      r := vs;
      for k := 0 to |vs|
        invariant |r| == |vs|
        invariant forall j | 0 <= j < |vs| :: r[j] == if j < k then vertexMap[vs[j]] else vs[j]
      {
        r := r[k := MapBack(r[k])];
      }
      ChainIncreasingStrict(vertexMap);
    }

    /** The vertices of a list of labels: mapping them back gives the labels again. */
    method MapIntoVertices(xs: seq<int>) returns (r: seq<int>)
      requires Valid() && forall k | 0 <= k < |xs| :: xs[k] in vertexMap
      ensures |r| == |xs| && forall k | 0 <= k < |xs| :: 0 <= r[k] < n && vertexMap[r[k]] == xs[k]
    {
      r := xs;
      for k := 0 to |xs|
        invariant |r| == |xs|
        invariant forall j | 0 <= j < |xs| :: if j < k then 0 <= r[j] < n && vertexMap[r[j]] == xs[j] else r[j] == xs[j]
      {
        r := r[k := MapInto(r[k])];
      }
    }

    /** Labels of both ends of each edge; an edge (a, b) with a < b keeps a < b. */
    method MapBackEdges(es: seq<Edge>) returns (r: seq<Edge>)
      requires Valid() && forall k | 0 <= k < |es| :: 0 <= es[k].0 < n && 0 <= es[k].1 < n
      ensures |r| == |es| && forall k | 0 <= k < |es| :: r[k] == (vertexMap[es[k].0], vertexMap[es[k].1])
      ensures forall k | 0 <= k < |es| :: es[k].0 < es[k].1 ==> r[k].0 < r[k].1
    {
      r := es;
      for k := 0 to |es|
        invariant |r| == |es|
        invariant forall j | 0 <= j < |es| :: r[j] == if j < k then (vertexMap[es[j].0], vertexMap[es[j].1]) else es[j]
      {
        r := r[k := (MapBack(r[k].0), MapBack(r[k].1))];
      }
      ChainIncreasingStrict(vertexMap);
    }

    /** Relabels this graph, whose labels are vertices of parent, with parent's labels. */
    method InheritMap(parent: Graph)
      requires Valid() && parent.Valid() && forall k | 0 <= k < |vertexMap| :: 0 <= vertexMap[k] < parent.n
      modifies this
      ensures Valid() && adjList == old(adjList) && adjMat == old(adjMat) && m == old(m)
      ensures |vertexMap| == |old(vertexMap)|
      ensures forall k | 0 <= k < |vertexMap| :: vertexMap[k] == old(parent.vertexMap[vertexMap[k]])
    {
      ChainIncreasingStrict(vertexMap);
      var mapped := parent.MapBackVertices(vertexMap);
      vertexMap := SortAndDedupInts(mapped);
      StrictlyIncreasingUnique(vertexMap, mapped);
      ValidFromParts();
    }

    /** A fresh n x n matrix holding the adjacency matrix. */
    method AdjacencyMatrix() returns (mat: Matrix<bool>)
      requires Valid()
      ensures fresh(mat) && fresh(mat.data) && mat.Valid() && mat.rows == n && mat.columns == n
      ensures forall v, u | 0 <= v < n && 0 <= u < n :: mat.cells[v][u] == Adjacent(adjList, v, u)
    {
      mat := new Matrix(n, n, false);
      for v := 0 to n
        invariant mat.Valid() && mat.rows == n && mat.columns == n && fresh(mat) && fresh(mat.data)
        invariant forall a, b | 0 <= a < n && 0 <= b < n :: mat.cells[a][b] == (a < v && Adjacent(adjList, a, b))
      {
        for u := 0 to n
          invariant mat.Valid() && mat.rows == n && mat.columns == n && fresh(mat) && fresh(mat.data)
          invariant forall a, b | 0 <= a < n && 0 <= b < n ::
            mat.cells[a][b] == ((a < v || (a == v && b < u)) && Adjacent(adjList, a, b))
        {
          mat.Set(v, u, adjMat[v][u]);
        }
      }
    }

    /** connected[v][u] holds iff v and u are adjacent or lie together in
        C + N(C) for a component C of G - separator. */
    method ConnectedMatrix(separator: seq<int>) returns (connected: Matrix<bool>)
      requires Valid() && forall k | 0 <= k < |separator| :: 0 <= separator[k] < n
      ensures fresh(connected) && fresh(connected.data) && connected.Valid()
      ensures connected.rows == n && connected.columns == n
      ensures forall v, u | 0 <= v < n && 0 <= u < n ::
        connected.cells[v][u] == ConnectedWrt(adjList, Elems(separator), v, u)
    {
      connected := AdjacencyMatrix();
      var comps := Components(separator);
      ghost var S := Elems(separator);
      for k := 0 to |comps|
        invariant connected.Valid() && connected.rows == n && connected.columns == n
        invariant fresh(connected) && fresh(connected.data)
        invariant forall v, u | 0 <= v < n && 0 <= u < n ::
          connected.cells[v][u] == (Adjacent(adjList, v, u) || JoinedInListed(adjList, S, comps, k, v, u))
      {
        ListedInRange(adjList, S, comps, k);
        var nb := Neighbors(comps[k]);
        var component := comps[k] + nb;
        ComponentWithNeighbors(adjList, S, comps, k, nb);
        MarkPairs(connected, component);
        JoinedInListedStep(adjList, S, comps, k);
      }
      ListedConnected(adjList, separator, comps);
    }

    /** The exact test of the source for a potential maximal clique. */
    method IsPmc(pmc: seq<int>) returns (r: bool)
      requires Valid() && forall k | 0 <= k < |pmc| :: 0 <= pmc[k] < n
      ensures r <==> PmcTest(adjList, pmc)
      ensures NoRepeats(pmc) ==> (r <==> IsPotentialMaximalClique(adjList, Elems(pmc)))
    {
      if NoRepeats(pmc) {
        PmcTestIsPmc(adjList, pmc);
      }
      var connected := ConnectedMatrix(pmc);
      var inPmc := MarkMembers(pmc);
      PmcTestByRows(adjList, pmc);
      r := CheckRows(pmc, connected, inPmc);
    }

    /** The row-by-row scan of IsPmc, given the connectivity matrix and the membership marks. */
    method CheckRows(pmc: seq<int>, connected: Matrix<bool>, inPmc: array<bool>) returns (r: bool)
      requires Valid() && forall k | 0 <= k < |pmc| :: 0 <= pmc[k] < n
      requires connected.Valid() && connected.rows == n && connected.columns == n
      requires forall v, u | 0 <= v < n && 0 <= u < n :: connected.cells[v][u] == ConnectedWrt(adjList, Elems(pmc), v, u)
      requires inPmc.Length == n && forall x | 0 <= x < n :: inPmc[x] == (x in pmc)
      ensures r <==> forall x | 0 <= x < n :: PmcRow(adjList, pmc, x)
    {
      for i := 0 to n
        invariant forall x | 0 <= x < i :: PmcRow(adjList, pmc, x)
      {
        var ok := CheckRow(pmc, connected, inPmc, i);
        if !ok {
          return false;
        }
      }
      return true;
    }

    /** The test of IsPmc on vertex i. */
    method CheckRow(pmc: seq<int>, connected: Matrix<bool>, inPmc: array<bool>, i: int) returns (ok: bool)
      requires Valid() && forall k | 0 <= k < |pmc| :: 0 <= pmc[k] < n
      requires connected.Valid() && connected.rows == n && connected.columns == n
      requires forall v, u | 0 <= v < n && 0 <= u < n :: connected.cells[v][u] == ConnectedWrt(adjList, Elems(pmc), v, u)
      requires inPmc.Length == n && forall x | 0 <= x < n :: inPmc[x] == (x in pmc)
      requires 0 <= i < n
      ensures ok == PmcRow(adjList, pmc, i)
    {
      if inPmc[i] {
        ok := ConnectedToAll(connected, pmc, i);
        if !ok {
          ghost var y :| y in pmc && y != i && !connected.cells[i][y] && !Adjacent(adjList, i, y);
          assert !ConnectedWrt(adjList, Elems(pmc), i, y);
        }
      } else {
        var connectedTo := CountConnected(connected, inPmc, i);
        NbhCount(adjList, pmc, connected.cells[i], inPmc[..], i);
        assert connectedTo <= |pmc|;
        ok := connectedTo != |pmc|;
      }
    }

    /** A fresh array marking the entries of vs. */
    method MarkMembers(vs: seq<int>) returns (marks: array<bool>)
      requires Valid() && forall k | 0 <= k < |vs| :: 0 <= vs[k] < n
      ensures fresh(marks) && marks.Length == n && forall x | 0 <= x < n :: marks[x] == (x in vs)
    {
      marks := new bool[n](_ => false);
      for k := 0 to |vs|
        invariant forall x | 0 <= x < n :: marks[x] == (x in vs[..k])
      {
        marks[vs[k]] := true;
        assert vs[..k+1] == vs[..k] + [vs[k]];
      }
      assert vs[..|vs|] == vs;
    }

    /** Whether row i of connected (or the adjacency matrix) holds every other entry of pmc. */
    method ConnectedToAll(connected: Matrix<bool>, pmc: seq<int>, i: int) returns (ok: bool)
      requires Valid() && connected.Valid() && connected.rows == n && connected.columns == n
      requires 0 <= i < n && forall k | 0 <= k < |pmc| :: 0 <= pmc[k] < n
      ensures ok <==> forall y | y in pmc && y != i :: connected.cells[i][y] || Adjacent(adjList, i, y)
    {
      for t := 0 to |pmc|
        invariant forall y | y in pmc[..t] && y != i :: connected.cells[i][y] || Adjacent(adjList, i, y)
      {
        var v := pmc[t];
        if i != v && !connected.Get(i, v) && !adjMat[i][v] {
          return false;
        }
        assert pmc[..t+1] == pmc[..t] + [v];
      }
      assert pmc[..|pmc|] == pmc;
      return true;
    }

    /** The number of columns j of row i with connected[i][j] and inPmc[j]. */
    method CountConnected(connected: Matrix<bool>, inPmc: array<bool>, i: int) returns (c: int)
      requires Valid() && connected.Valid() && connected.rows == n && connected.columns == n
      requires inPmc.Length == n && 0 <= i < n
      ensures c == |Hits(connected.cells[i], inPmc[..], n)|
    {
      c := 0;
      for j := 0 to n
        invariant c == |Hits(connected.cells[i], inPmc[..], j)|
      {
        HitsStep(connected.cells[i], inPmc[..], j);
        if connected.Get(i, j) && inPmc[j] {
          c := c + 1;
        }
      }
    }

  }

  /** b1 marks what b0 marked plus the distinct, previously unmarked vertices of added. */
  ghost predicate Grows(b0: seq<bool>, b1: seq<bool>, added: seq<int>) {
    |b0| == |b1| &&
    (forall x | 0 <= x < |b0| :: b1[x] == (b0[x] || x in added)) &&
    (forall k | 0 <= k < |added| :: 0 <= added[k] < |b0| && !b0[added[k]]) &&
    NoRepeats(added)
  }

  /** Every neighbour of a vertex of added is marked. */
  ghost predicate ClosedMarks(adj: Adj, added: seq<int>, b: seq<bool>) {
    forall k, u {:trigger Adjacent(adj, added[k], u)} | 0 <= k < |added| && Adjacent(adj, added[k], u) ::
      0 <= u < |b| && b[u]
  }

  /** Every vertex of added is reachable from v inside A. */
  ghost predicate ReachedFrom(adj: Adj, A: set<int>, v: int, added: seq<int>) {
    forall k | 0 <= k < |added| :: Reachable(adj, A, v, added[k])
  }

  lemma {:induction false} FreeMono(b0: seq<bool>, b1: seq<bool>, b2: seq<bool>, v: int)
    requires Grows(b0, b1, [v]) && |b2| == |b1|
    requires forall x | 0 <= x < |b1| :: b1[x] ==> b2[x]
    ensures Free(b2) <= Free(b1) < Free(b0) && 0 <= v < |b0| && b1[v]
  {
    assert [v][0] == v;
    assert 0 <= v < |b0| && !b0[v] && b1[v];
    assert v in Free(b0) && v !in Free(b1);
    assert Free(b1) <= Free(b0);
  }

  /** The state of the neighbour loop of Dfs from v before neighbour i. */
  ghost predicate DfsInv(adj: Adj, b0: seq<bool>, b: seq<bool>, v: int, i: int, added: seq<int>) {
    |b0| == |adj| && 0 <= v < |adj| && 0 <= i <= |adj[v]| && |added| > 0 && added[0] == v &&
    Grows(b0, b, added) && ClosedMarks(adj, added[1..], b) &&
    (forall j | 0 <= j < i :: 0 <= adj[v][j] < |b| && b[adj[v][j]]) &&
    ReachedFrom(adj, Free(b0), v, added)
  }

  lemma {:induction false} DfsStart(adj: Adj, b0: seq<bool>, b1: seq<bool>, v: int)
    requires |b0| == |adj| && 0 <= v < |adj| && !b0[v] && b1 == b0[v := true]
    ensures DfsInv(adj, b0, b1, v, 0, [v])
  {
    ReachRefl(adj, Free(b0), v);
    assert [v][1..] == [];
  }

  /** The next neighbour is a vertex, and a recursive call on it is on fewer free vertices. */
  lemma {:induction false} DfsNext(adj: Adj, b0: seq<bool>, b: seq<bool>, v: int, i: int, added: seq<int>)
    requires WellFormed(adj) && DfsInv(adj, b0, b, v, i, added) && i < |adj[v]|
    ensures 0 <= adj[v][i] < |b| && |Free(b)| < |Free(b0)|
  {
    assert Below(adj[v], |adj|);
    assert added[0] == v && b[v] && !b0[v];
    assert Free(b) <= Free(b0) - {v};
    CardSubset(Free(b), Free(b0) - {v});
  }

  lemma {:induction false} DfsSkip(adj: Adj, b0: seq<bool>, b: seq<bool>, v: int, i: int, added: seq<int>)
    requires DfsInv(adj, b0, b, v, i, added) && i < |adj[v]| && 0 <= adj[v][i] < |b| && b[adj[v][i]]
    ensures DfsInv(adj, b0, b, v, i + 1, added)
  {
  }

  lemma {:induction false} DfsAfter(adj: Adj, b0: seq<bool>, mid: seq<bool>, b2: seq<bool>, v: int, i: int,
                 added: seq<int>, added2: seq<int>)
    requires WellFormed(adj) && DfsInv(adj, b0, mid, v, i, added) && i < |adj[v]|
    requires 0 <= adj[v][i] < |mid| && !mid[adj[v][i]]
    requires |added2| > 0 && added2[0] == adj[v][i]
    requires Grows(mid, b2, added2) && ClosedMarks(adj, added2, b2)
    requires ReachedFrom(adj, Free(mid), adj[v][i], added2)
    ensures DfsInv(adj, b0, b2, v, i + 1, added + added2)
  {
    DfsStep(adj, b0, mid, b2, v, adj[v][i], added, added2);
  }

  lemma {:induction false} DfsEnd(adj: Adj, b0: seq<bool>, b: seq<bool>, v: int, added: seq<int>)
    requires 0 <= v < |adj| && DfsInv(adj, b0, b, v, |adj[v]|, added)
    ensures Grows(b0, b, added) && ClosedMarks(adj, added, b) && ReachedFrom(adj, Free(b0), v, added)
  {
    ClosedMarksCons(adj, added, b);
  }

  /** One iteration of the neighbour loop in Dfs that recursed into nv. */
  lemma {:induction false} DfsStep(adj: Adj, b0: seq<bool>, mid: seq<bool>, b2: seq<bool>, v: int, nv: int,
                added: seq<int>, added2: seq<int>)
    requires WellFormed(adj) && |b0| == |adj|
    requires Grows(b0, mid, added) && Grows(mid, b2, added2) && |added| > 0 && added[0] == v
    requires ClosedMarks(adj, added[1..], mid) && ClosedMarks(adj, added2, b2)
    requires ReachedFrom(adj, Free(b0), v, added) && ReachedFrom(adj, Free(mid), nv, added2)
    requires Adjacent(adj, v, nv) && 0 <= v < |adj| && !b0[v]
    ensures Grows(b0, b2, added + added2)
    ensures ClosedMarks(adj, (added + added2)[1..], b2)
    ensures ReachedFrom(adj, Free(b0), v, added + added2)
    ensures forall x | 0 <= x < |mid| :: mid[x] ==> b2[x]
  {
    var all := added + added2;
    assert Free(mid) <= Free(b0);
    assert v in Free(b0);
    forall k | 0 <= k < |all| ensures Reachable(adj, Free(b0), v, all[k]) {
      if k >= |added| {
        assert all[k] == added2[k - |added|];
        ReachMono(adj, Free(mid), Free(b0), nv, all[k]);
        ReachPrepend(adj, Free(b0), v, nv, all[k]);
      }
    }
    forall i, j | 0 <= i < j < |all| ensures all[i] != all[j] {
      if j >= |added| && i < |added| {
        assert mid[all[i]];
        assert !mid[all[j]];
      }
    }
    assert all[1..] == added[1..] + added2;
  }

  lemma {:induction false} ClosedMarksCons(adj: Adj, added: seq<int>, b: seq<bool>)
    requires |added| > 0 && 0 <= added[0] < |adj| && ClosedMarks(adj, added[1..], b)
    requires forall j | 0 <= j < |adj[added[0]]| :: 0 <= adj[added[0]][j] < |b| && b[adj[added[0]][j]]
    ensures ClosedMarks(adj, added, b)
  {
    forall k, u | 0 <= k < |added| && Adjacent(adj, added[k], u) ensures 0 <= u < |b| && b[u] {
      if k > 0 {
        assert added[k] == added[1..][k-1];
        assert Adjacent(adj, added[1..][k-1], u);
      } else {
        var j :| 0 <= j < |adj[added[0]]| && adj[added[0]][j] == u;
      }
    }
  }

  /** Each list is the component of G - S containing its first vertex, which
      is the least vertex of that component; the first vertices increase and
      the lists are pairwise disjoint. */
  ghost predicate ComponentList(adj: Adj, S: set<int>, comps: seq<seq<int>>) {
    (forall k | 0 <= k < |comps| ::
      |comps[k]| > 0 && NoRepeats(comps[k]) && Elems(comps[k]) == Comp(adj, S, comps[k][0]) &&
      forall x | x in comps[k] :: comps[k][0] <= x) &&
    (forall k, l | 0 <= k < l < |comps| :: comps[k][0] < comps[l][0] && Elems(comps[k]) !! Elems(comps[l]))
  }

  /** Two listed vertices in different components of G - S make two
      entries of the list. */
  lemma {:induction false} ApartListsTwo(adj: Adj, S: set<int>, comps: seq<seq<int>>, v: int, u: int, k: int, l: int)
    requires WellFormed(adj) && ComponentList(adj, S, comps)
    requires 0 <= k < |comps| && v in comps[k] && 0 <= l < |comps| && u in comps[l]
    requires u !in Comp(adj, S, v)
    ensures |comps| >= 2
  {
    CompSame(adj, S, comps[k][0], v);
    assert u in Elems(comps[l]);
  }

  /** The state of the scan in Components before vertex i. */
  ghost predicate CompsInv(adj: Adj, S: set<int>, b: seq<bool>, comps: seq<seq<int>>, i: int) {
    |b| == |adj| && 0 <= i <= |adj| &&
    (forall x | x in S :: 0 <= x < |adj|) &&
    (forall x | 0 <= x < |b| :: b[x] <==> x in S || exists k | 0 <= k < |comps| :: x in comps[k]) &&
    (forall x | 0 <= x < i :: b[x]) &&
    ClosedIn(adj, S, Marked(b)) &&
    ComponentList(adj, S, comps) &&
    (forall k | 0 <= k < |comps| :: comps[k][0] < i)
  }

  /** One found component in Components. */
  lemma {:induction false} ComponentsStep(adj: Adj, S: set<int>, b0: seq<bool>, b1: seq<bool>, comps: seq<seq<int>>, c: seq<int>, i: int)
    requires WellFormed(adj) && CompsInv(adj, S, b0, comps, i) && i < |adj| && !b0[i]
    requires |c| > 0 && c[0] == i && Grows(b0, b1, c)
    requires ClosedMarks(adj, c, b1) && ReachedFrom(adj, Free(b0), i, c)
    ensures CompsInv(adj, S, b1, comps + [c], i + 1)
  {
    MarkedGrows(b0, b1, c);
    assert S <= Marked(b0);
    ClosedStep(adj, S, b0, b1, c);
    FoundIsComponent(adj, S, b0, b1, c, i);
    ListStep(adj, S, b0, comps, c, i);
    MarksStep(adj, S, b0, b1, comps, c);
  }

  lemma {:induction false} MarkedGrows(b0: seq<bool>, b1: seq<bool>, c: seq<int>)
    requires Grows(b0, b1, c)
    ensures Marked(b1) == Marked(b0) + Elems(c)
  {
  }

  lemma {:induction false} ClosedStep(adj: Adj, S: set<int>, b0: seq<bool>, b1: seq<bool>, c: seq<int>)
    requires Grows(b0, b1, c) && ClosedIn(adj, S, Marked(b0)) && ClosedMarks(adj, c, b1)
    requires Marked(b1) == Marked(b0) + Elems(c)
    ensures ClosedIn(adj, S, Marked(b1))
  {
    var B0, B1 := Marked(b0), Marked(b1);
    forall w, u | w in B1 && w !in S && Adjacent(adj, w, u) ensures u in B1 {
      if w in B0 {
        assert u in B0;
      } else {
        var k :| 0 <= k < |c| && c[k] == w;
        assert Adjacent(adj, c[k], u);
      }
    }
  }

  lemma {:induction false} FoundIsComponent(adj: Adj, S: set<int>, b0: seq<bool>, b1: seq<bool>, c: seq<int>, i: int)
    requires WellFormed(adj) && |b0| == |adj| && S <= Marked(b0) && 0 <= i < |adj| && !b0[i]
    requires |c| > 0 && c[0] == i && Grows(b0, b1, c) && Marked(b1) == Marked(b0) + Elems(c)
    requires ClosedIn(adj, S, Marked(b0)) && ClosedIn(adj, S, Marked(b1))
    requires ReachedFrom(adj, Free(b0), i, c)
    ensures Elems(c) == Comp(adj, S, i)
  {
    var B0, B1 := Marked(b0), Marked(b1);
    assert Free(b0) <= Allowed(adj, S);
    forall w | w in B1 - B0 ensures 0 <= w < |adj| && Reachable(adj, Allowed(adj, S), i, w) {
      var k :| 0 <= k < |c| && c[k] == w;
      ReachMono(adj, Free(b0), Allowed(adj, S), i, w);
    }
    assert i in B1 && i !in B0;
    NewBlockIsComponent(adj, S, B0, B1, i);
    assert B1 - B0 == Elems(c);
  }

  lemma {:induction false} ListStep(adj: Adj, S: set<int>, b0: seq<bool>, comps: seq<seq<int>>, c: seq<int>, i: int)
    requires CompsInv(adj, S, b0, comps, i) && i < |adj|
    requires |c| > 0 && c[0] == i && NoRepeats(c) && Elems(c) == Comp(adj, S, i)
    requires forall k | 0 <= k < |c| :: 0 <= c[k] < |b0| && !b0[c[k]]
    ensures ComponentList(adj, S, comps + [c])
    ensures forall k | 0 <= k < |comps + [c]| :: (comps + [c])[k][0] < i + 1
  {
    var all := comps + [c];
    forall x | x in c ensures i <= x {
      var k :| 0 <= k < |c| && c[k] == x;
      assert !b0[x];
    }
    forall k | 0 <= k < |comps| ensures Elems(comps[k]) !! Elems(c) {
      forall x | x in comps[k] ensures x !in c {
        assert x in Elems(comps[k]);
        CompMember(adj, S, comps[k][0], x);
        assert b0[x];
      }
    }
    forall k | 0 <= k < |all| ensures |all[k]| > 0 && NoRepeats(all[k]) && Elems(all[k]) == Comp(adj, S, all[k][0]) &&
      forall x | x in all[k] :: all[k][0] <= x
    {
      if k < |comps| { assert all[k] == comps[k]; }
    }
  }

  lemma {:induction false} MarksStep(adj: Adj, S: set<int>, b0: seq<bool>, b1: seq<bool>, comps: seq<seq<int>>, c: seq<int>)
    requires |b0| == |adj| && Grows(b0, b1, c)
    requires forall x | 0 <= x < |b0| :: b0[x] <==> x in S || exists k | 0 <= k < |comps| :: x in comps[k]
    ensures forall x | 0 <= x < |b1| :: b1[x] <==> x in S || exists k | 0 <= k < |comps + [c]| :: x in (comps + [c])[k]
  {
    var all := comps + [c];
    forall x | 0 <= x < |b1| ensures b1[x] <==> x in S || exists k | 0 <= k < |all| :: x in all[k] {
      if x in c {
        assert all[|comps|] == c;
      }
      if exists k | 0 <= k < |all| :: x in all[k] {
        var k :| 0 <= k < |all| && x in all[k];
        if k < |comps| { assert all[k] == comps[k]; }
      }
      if exists k | 0 <= k < |comps| :: x in comps[k] {
        var k :| 0 <= k < |comps| && x in comps[k];
        assert all[k] == comps[k];
      }
    }
  }

  /** Some vertex among the first k entries of vs is adjacent to x. */
  ghost predicate AdjToSome(adj: Adj, vs: seq<int>, k: int, x: int)
    requires 0 <= k <= |vs|
  {
    exists j | 0 <= j < k :: Adjacent(adj, vs[j], x)
  }

  lemma {:induction false} AdjToSomeStep(adj: Adj, vs: seq<int>, k: int)
    requires 0 <= k < |vs| && 0 <= vs[k] < |adj|
    ensures forall x :: AdjToSome(adj, vs, k + 1, x) <==> AdjToSome(adj, vs, k, x) || x in adj[vs[k]]
  {
    forall x | AdjToSome(adj, vs, k + 1, x) && !AdjToSome(adj, vs, k, x) ensures x in adj[vs[k]] {
      var j :| 0 <= j < k + 1 && Adjacent(adj, vs[j], x);
    }
    forall x | x in adj[vs[k]] ensures AdjToSome(adj, vs, k + 1, x) {
      assert Adjacent(adj, vs[k], x);
    }
  }

  /** N(vs) is what some entry of vs is adjacent to, minus vs itself. */
  lemma {:induction false} NbhOfList(adj: Adj, vs: seq<int>)
    requires InRange(adj)
    ensures forall x :: x in Nbh(adj, Elems(vs)) <==> AdjToSome(adj, vs, |vs|, x) && x !in vs
  {
    forall x | AdjToSome(adj, vs, |vs|, x) && x !in vs ensures x in Nbh(adj, Elems(vs)) {
      var j :| 0 <= j < |vs| && Adjacent(adj, vs[j], x);
      assert Below(adj[vs[j]], |adj|);
      assert vs[j] in Elems(vs);
    }
    forall x | x in Nbh(adj, Elems(vs)) ensures AdjToSome(adj, vs, |vs|, x) {
      var w :| w in Elems(vs) && Adjacent(adj, w, x);
      var j :| 0 <= j < |vs| && vs[j] == w;
    }
  }

  /** e is an edge (a, b), a < b, from an entry of done to an entry of vs. */
  ghost predicate EdgeFrom(adj: Adj, vs: seq<int>, done: seq<int>, e: Edge) {
    e.0 in done && e.1 in vs && e.0 < e.1 && Adjacent(adj, e.0, e.1)
  }

  /** The component of a listed vertex is its list. */
  lemma {:induction false} CompOfListed(adj: Adj, S: set<int>, cs: seq<seq<int>>, k: int, a: int)
    requires WellFormed(adj) && ComponentList(adj, S, cs) && 0 <= k < |cs| && a in cs[k]
    ensures Comp(adj, S, a) == Elems(cs[k]) && |Comp(adj, S, a)| == |cs[k]|
  {
    assert a in Elems(cs[k]);
    CompSame(adj, S, cs[k][0], a);
    NoRepeatsCard(cs[k]);
  }

  /** G is connected apart from isolated vertices iff at most one of its
      listed components has more than one vertex. */
  lemma {:induction false} BigComponents(adj: Adj, cs: seq<seq<int>>)
    requires WellFormed(adj) && ComponentList(adj, {}, cs)
    requires forall x | 0 <= x < |adj| && x !in [] :: exists k | 0 <= k < |cs| :: x in cs[k]
    ensures ConnectedOrIsolated(adj) <==> forall j1, j2 | 0 <= j1 < j2 < |cs| :: |cs[j1]| <= 1 || |cs[j2]| <= 1
  {
    if forall j1, j2 | 0 <= j1 < j2 < |cs| :: |cs[j1]| <= 1 || |cs[j2]| <= 1 {
      forall a, b | 0 <= a < |adj| && 0 <= b < |adj| && |Comp(adj, {}, a)| > 1 && |Comp(adj, {}, b)| > 1
        ensures b in Comp(adj, {}, a)
      {
        assert a !in [] && b !in [];
        var ka :| 0 <= ka < |cs| && a in cs[ka];
        var kb :| 0 <= kb < |cs| && b in cs[kb];
        CompOfListed(adj, {}, cs, ka, a);
        CompOfListed(adj, {}, cs, kb, b);
        assert ka == kb;
        assert b in Elems(cs[kb]);
      }
    } else {
      var j1, j2 :| 0 <= j1 < j2 < |cs| && |cs[j1]| > 1 && |cs[j2]| > 1;
      var a, b := cs[j1][0], cs[j2][0];
      CompOfListed(adj, {}, cs, j1, a);
      CompOfListed(adj, {}, cs, j2, b);
      assert b in Elems(cs[j2]);
      assert b !in Comp(adj, {}, a);
      assert 0 <= a < |adj| && 0 <= b < |adj| by {
        CompMember(adj, {}, a, a);
        CompMember(adj, {}, b, b);
      }
    }
  }

  /** Sets every cell (v, u) with v and u entries of vs. */
  method MarkPairs(mat: Matrix<bool>, vs: seq<int>)
    requires mat.Valid() && forall k | 0 <= k < |vs| :: 0 <= vs[k] < mat.rows && vs[k] < mat.columns
    modifies mat, mat.data
    ensures mat.Valid() && mat.rows == old(mat.rows) && mat.columns == old(mat.columns) && mat.data == old(mat.data)
    ensures forall v, u {:trigger mat.cells[v][u]} | 0 <= v < mat.rows && 0 <= u < mat.columns ::
      mat.cells[v][u] == (old(mat.cells[v][u]) || (v in vs && u in vs))
  {
    ghost var c0 := mat.cells;
    for i := 0 to |vs|
      invariant mat.Valid() && mat.rows == old(mat.rows) && mat.columns == old(mat.columns) && mat.data == old(mat.data)
      invariant forall v, u {:trigger mat.cells[v][u]} | 0 <= v < mat.rows && 0 <= u < mat.columns ::
        mat.cells[v][u] == (c0[v][u] || (v in vs[..i] && u in vs))
    {
      for j := 0 to |vs|
        invariant mat.Valid() && mat.rows == old(mat.rows) && mat.columns == old(mat.columns) && mat.data == old(mat.data)
        invariant forall v, u {:trigger mat.cells[v][u]} | 0 <= v < mat.rows && 0 <= u < mat.columns ::
          mat.cells[v][u] == (c0[v][u] || (v in vs[..i] && u in vs) || (v == vs[i] && u in vs[..j]))
      {
        mat.Set(vs[i], vs[j], true);
        assert vs[..j+1] == vs[..j] + [vs[j]];
      }
      assert vs[..|vs|] == vs;
      assert vs[..i+1] == vs[..i] + [vs[i]];
    }
    assert vs[..|vs|] == vs;
  }

  /** v and u lie together in C + N(C) for one of the first k listed components. */
  ghost predicate JoinedInListed(adj: Adj, S: set<int>, comps: seq<seq<int>>, k: int, v: int, u: int)
    requires 0 <= k <= |comps|
  {
    exists j | 0 <= j < k && |comps[j]| > 0 ::
      v in CompWithNbh(adj, S, comps[j][0]) && u in CompWithNbh(adj, S, comps[j][0])
  }

  lemma {:induction false} JoinedInListedStep(adj: Adj, S: set<int>, comps: seq<seq<int>>, k: int)
    requires 0 <= k < |comps| && |comps[k]| > 0
    ensures forall v, u :: JoinedInListed(adj, S, comps, k + 1, v, u) <==>
      JoinedInListed(adj, S, comps, k, v, u) ||
      (v in CompWithNbh(adj, S, comps[k][0]) && u in CompWithNbh(adj, S, comps[k][0]))
  {
  }

  lemma {:induction false} CompWithNbhInRange(adj: Adj, S: set<int>, r: int)
    ensures forall x | x in CompWithNbh(adj, S, r) :: 0 <= x < |adj|
  {
  }

  /** A listed component followed by its neighbours lists C + N(C). */
  lemma {:induction false} ComponentWithNeighbors(adj: Adj, S: set<int>, comps: seq<seq<int>>, k: int, nb: seq<int>)
    requires ComponentList(adj, S, comps) && 0 <= k < |comps| && Elems(nb) == Nbh(adj, Elems(comps[k]))
    ensures |comps[k]| > 0 && Elems(comps[k] + nb) == CompWithNbh(adj, S, comps[k][0])
    ensures forall x :: x in comps[k] + nb <==> x in CompWithNbh(adj, S, comps[k][0])
    ensures forall t | 0 <= t < |comps[k] + nb| :: 0 <= (comps[k] + nb)[t] < |adj|
  {
    assert Elems(comps[k] + nb) == Elems(comps[k]) + Elems(nb);
    forall t | 0 <= t < |comps[k] + nb| ensures 0 <= (comps[k] + nb)[t] < |adj| {
      assert (comps[k] + nb)[t] in CompWithNbh(adj, S, comps[k][0]);
    }
  }

  /** The entries of a listed component are vertices. */
  lemma {:induction false} ListedInRange(adj: Adj, S: set<int>, comps: seq<seq<int>>, k: int)
    requires ComponentList(adj, S, comps) && 0 <= k < |comps|
    ensures forall t | 0 <= t < |comps[k]| :: 0 <= comps[k][t] < |adj|
  {
    forall t | 0 <= t < |comps[k]| ensures 0 <= comps[k][t] < |adj| {
      assert comps[k][t] in Elems(comps[k]);
    }
  }

  /** Joining through some listed component is joining through some component. */
  lemma {:induction false} ListedConnected(adj: Adj, separator: seq<int>, comps: seq<seq<int>>)
    requires WellFormed(adj) && ComponentList(adj, Elems(separator), comps)
    requires forall x | 0 <= x < |adj| && x !in separator :: exists k | 0 <= k < |comps| :: x in comps[k]
    ensures forall v, u ::
      ((Adjacent(adj, v, u) || JoinedInListed(adj, Elems(separator), comps, |comps|, v, u)) ==
       ConnectedWrt(adj, Elems(separator), v, u))
  {
    var S := Elems(separator);
    forall v, u | JoinedInListed(adj, S, comps, |comps|, v, u) ensures ConnectedWrt(adj, S, v, u) {
      JoinedConnected(adj, S, comps, v, u);
    }
    forall v, u | ConnectedWrt(adj, S, v, u) && !Adjacent(adj, v, u)
      ensures JoinedInListed(adj, S, comps, |comps|, v, u)
    {
      ConnectedJoined(adj, separator, comps, v, u);
    }
  }

  /** Two vertices by one listed component are connected around the separator. */
  lemma {:induction false} JoinedConnected(adj: Adj, S: set<int>, comps: seq<seq<int>>, v: int, u: int)
    requires WellFormed(adj) && ComponentList(adj, S, comps) && JoinedInListed(adj, S, comps, |comps|, v, u)
    ensures ConnectedWrt(adj, S, v, u)
  {
    var j :| 0 <= j < |comps| && |comps[j]| > 0 &&
      v in CompWithNbh(adj, S, comps[j][0]) && u in CompWithNbh(adj, S, comps[j][0]);
    assert comps[j][0] in Elems(comps[j]);
    CompMember(adj, S, comps[j][0], comps[j][0]);
  }

  /** Two non-adjacent vertices connected around the separator lie by one listed component. */
  lemma {:induction false} ConnectedJoined(adj: Adj, separator: seq<int>, comps: seq<seq<int>>, v: int, u: int)
    requires WellFormed(adj) && ComponentList(adj, Elems(separator), comps)
    requires forall x | 0 <= x < |adj| && x !in separator :: exists k | 0 <= k < |comps| :: x in comps[k]
    requires ConnectedWrt(adj, Elems(separator), v, u) && !Adjacent(adj, v, u)
    ensures JoinedInListed(adj, Elems(separator), comps, |comps|, v, u)
  {
    var S := Elems(separator);
    var r :| r in Allowed(adj, S) && v in CompWithNbh(adj, S, r) && u in CompWithNbh(adj, S, r);
    assert r !in separator;
    var k :| 0 <= k < |comps| && r in comps[k];
    CompOfListed(adj, S, comps, k, r);
    CompOfListed(adj, S, comps, k, comps[k][0]);
    JoinedByRoot(adj, S, comps, k, r, v, u);
  }

  lemma {:induction false} JoinedByRoot(adj: Adj, S: set<int>, comps: seq<seq<int>>, k: int, r: int, v: int, u: int)
    requires 0 <= k < |comps| && |comps[k]| > 0 && Comp(adj, S, r) == Comp(adj, S, comps[k][0])
    requires v in CompWithNbh(adj, S, r) && u in CompWithNbh(adj, S, r)
    ensures JoinedInListed(adj, S, comps, |comps|, v, u)
  {
    assert CompWithNbh(adj, S, r) == CompWithNbh(adj, S, comps[k][0]);
  }


  /** The columns j below k with row[j] and mark[j]. */
  ghost function Hits(row: seq<bool>, mark: seq<bool>, k: int): set<int> {
    set j | 0 <= j < k && j < |row| && j < |mark| && row[j] && mark[j]
  }

  lemma {:induction false} HitsStep(row: seq<bool>, mark: seq<bool>, k: nat)
    requires k < |row| && k < |mark|
    ensures |Hits(row, mark, k + 1)| == |Hits(row, mark, k)| + (if row[k] && mark[k] then 1 else 0)
  {
    if row[k] && mark[k] {
      assert Hits(row, mark, k + 1) == Hits(row, mark, k) + {k};
    } else {
      assert Hits(row, mark, k + 1) == Hits(row, mark, k);
    }
  }

  /** The row of a vertex i outside P counts exactly N(C) for the component C of i. */
  lemma {:induction false} NbhCount(adj: Adj, P: seq<int>, row: seq<bool>, mark: seq<bool>, i: int)
    requires WellFormed(adj) && 0 <= i < |adj| && |row| == |adj| && |mark| == |adj|
    requires forall x | 0 <= x < |adj| :: mark[x] == (x in P)
    requires forall y | 0 <= y < |adj| :: row[y] == ConnectedWrt(adj, Elems(P), i, y)
    requires !mark[i]
    ensures |Hits(row, mark, |adj|)| == |Nbh(adj, Comp(adj, Elems(P), i))| <= |P|
  {
    var S := Elems(P);
    forall y ensures y in Hits(row, mark, |adj|) <==> y in Nbh(adj, Comp(adj, S, i)) {
      if y in S {
        ConnectedToNbh(adj, S, i, y);
      }
      if y in Nbh(adj, Comp(adj, S, i)) {
        NbhOfCompInSeparator(adj, S, i);
      }
    }
    assert Hits(row, mark, |adj|) == Nbh(adj, Comp(adj, S, i));
    NbhOfCompInSeparator(adj, S, i);
    CardSubset(Nbh(adj, Comp(adj, S, i)), S);
    ElemsCard(P);
  }

  /** The test IsPmc performs on vertex x. */
  ghost predicate PmcRow(adj: Adj, P: seq<int>, x: int) {
    (x in P ==> forall y | y in P && y != x :: ConnectedWrt(adj, Elems(P), x, y)) &&
    (0 <= x < |adj| && x !in P ==> |Nbh(adj, Comp(adj, Elems(P), x))| != |P|)
  }

  lemma {:induction false} PmcTestByRows(adj: Adj, P: seq<int>)
    requires forall k | 0 <= k < |P| :: 0 <= P[k] < |adj|
    ensures PmcTest(adj, P) <==> forall x | 0 <= x < |adj| :: PmcRow(adj, P, x)
  {
    forall x | x in P ensures 0 <= x < |adj| {
      var k :| 0 <= k < |P| && P[k] == x;
    }
    if forall x | 0 <= x < |adj| :: PmcRow(adj, P, x) {
      forall x, y | x in P && y in P && x != y ensures ConnectedWrt(adj, Elems(P), x, y) {
        assert PmcRow(adj, P, x);
      }
      forall r | 0 <= r < |adj| && r !in P ensures |Nbh(adj, Comp(adj, Elems(P), r))| != |P| {
        assert PmcRow(adj, P, r);
      }
    }
  }

  /** Adding a missing edge to both lists keeps the lists a simple undirected graph. */
  lemma {:induction false} AddEdgeWellFormed(adj: Adj, v: int, u: int)
    requires WellFormed(adj) && 0 <= v < |adj| && 0 <= u < |adj| && v != u && u !in adj[v]
    ensures var adj' := adj[v := adj[v] + [u]][u := adj[u] + [v]];
      WellFormed(adj') &&
      forall x, y | 0 <= x < |adj| :: y in adj'[x] <==> y in adj[x] || (x == v && y == u) || (x == u && y == v)
  {
    var adj' := adj[v := adj[v] + [u]][u := adj[u] + [v]];
    assert forall x, y | 0 <= x < |adj| :: y in adj'[x] <==> y in adj[x] || (x == v && y == u) || (x == u && y == v);
    assert !Adjacent(adj, u, v);
    forall x | 0 <= x < |adj| ensures NoRepeats(adj'[x]) && !Adjacent(adj', x, x) && Below(adj'[x], |adj|) {
      if x != v && x != u {
        assert adj'[x] == adj[x];
      } else {
        assert Below(adj[x], |adj|) && NoRepeats(adj[x]);
      }
    }
    forall x, y | Adjacent(adj', x, y) ensures Adjacent(adj', y, x) {
      if y in adj[x] {
        assert Adjacent(adj, x, y);
      }
    }
  }

  /** Taking an edge out of both lists keeps the lists a simple undirected graph. */
  lemma {:induction false} RemoveEdgeWellFormed(adj: Adj, v: int, u: int)
    requires WellFormed(adj) && 0 <= v < |adj| && 0 <= u < |adj| && u in adj[v]
    ensures v in adj[u]
    ensures var adj' := adj[v := SwapRemove(adj[v], u)][u := SwapRemove(adj[u], v)];
      WellFormed(adj') &&
      forall x, y | 0 <= x < |adj| :: y in adj'[x] <==> y in adj[x] && !(x == v && y == u) && !(x == u && y == v)
  {
    assert Adjacent(adj, v, u);
    assert !Adjacent(adj, v, v);
    SwapRemoveElems(adj[v], u);
    SwapRemoveElems(adj[u], v);
    var adj' := adj[v := SwapRemove(adj[v], u)][u := SwapRemove(adj[u], v)];
    assert forall x, y | 0 <= x < |adj| :: y in adj'[x] <==> y in adj[x] && !(x == v && y == u) && !(x == u && y == v);
    forall x | 0 <= x < |adj| ensures NoRepeats(adj'[x]) && !Adjacent(adj', x, x) && Below(adj'[x], |adj|) {
      assert Below(adj[x], |adj|);
    }
    forall x, y | Adjacent(adj', x, y) ensures Adjacent(adj', y, x) {
      assert Adjacent(adj, x, y);
    }
  }

  /** The list with the first occurrence of x overwritten by the last entry and the last entry dropped. */
  function SwapRemove(list: seq<int>, x: int): seq<int>
    requires x in list
  {
    var i := IndexOf(list, x);
    list[i := list[|list|-1]][..|list|-1]
  }

  lemma {:induction false} SwapRemoveElems(list: seq<int>, x: int)
    requires x in list && NoRepeats(list)
    ensures |SwapRemove(list, x)| == |list| - 1
    ensures forall y :: y in SwapRemove(list, x) <==> y in list && y != x
    ensures NoRepeats(SwapRemove(list, x))
  {
    var i := IndexOf(list, x);
    var r := SwapRemove(list, x);
    forall y ensures y in r <==> y in list && y != x {
      if y in list && y != x {
        var k :| 0 <= k < |list| && list[k] == y;
        if k == |list| - 1 {
          assert i != k;
          if i < |list| - 1 { assert r[i] == y; }
        } else {
          assert r[k] == y || k == i;
        }
      }
    }
  }
}
