/** The combinatorial PMC enumerator: a vertex-by-vertex growth of the
    potential maximal cliques along a reversed MCS order, using the closure
    of minimal separators of each grown graph. The depth-first searches work
    on an integer marker array: 0 is unvisited, 1 visited, and larger values
    are separator vertices that a search may raise when it touches them. */
module CombEnum {
  import opened GraphTheory
  import opened Graphs
  import opened Utils
  import opened Wrappers
  import opened McsOrders

  // ---------------------------------------------------------------------
  // Marker arrays

  /** The vertices a marker array has touched: its non-zero entries. */
  ghost function Touched(u: seq<int>): (b: seq<bool>)
    ensures |b| == |u| && forall v | 0 <= v < |u| :: b[v] == (u[v] != 0)
  {
    seq(|u|, v requires 0 <= v < |u| => u[v] != 0)
  }

  /** Some vertex of A is adjacent to v. */
  ghost predicate Near(adj: Adj, A: seq<int>, v: int) {
    exists w | w in A :: Adjacent(adj, w, v)
  }

  /** What a search does to one marker: an unvisited vertex becomes 1 when
      visited; a separator marker strictly between 1 and it becomes it when
      the vertex is next to a visited one; everything else stays. */
  function Rule(before: int, it: int, visited: bool, near: bool): (r: int)
    ensures before != 0 ==> r != 0
    ensures before == it && before != 0 ==> r == it
    ensures before == 0 ==> (r == 1 <==> visited) && (r == 0 <==> !visited)
  {
    if before == 0 then (if visited then 1 else 0)
    else if 1 < before < it && near then it
    else before
  }

  /** The markers seen from x after the first i neighbours of x: added are
      the visited vertices, x first. */
  ghost predicate MarksInv(adj: Adj, u0: seq<int>, u: seq<int>, added: seq<int>, x: int, i: int, it: int) {
    |u0| == |adj| && |u| == |u0| && 0 <= x < |adj| && 0 <= i <= |adj[x]| &&
    |added| > 0 && added[0] == x && it >= 2 &&
    forall v | 0 <= v < |u0| :: u[v] == Rule(u0[v], it, v in added, Near(adj, added[1..], v) || v in adj[x][..i])
  }

  lemma {:induction false} MarksStart(adj: Adj, u0: seq<int>, u1: seq<int>, x: int, it: int)
    requires |u0| == |adj| && 0 <= x < |adj| && u0[x] == 0 && u1 == u0[x := 1] && it >= 2
    ensures MarksInv(adj, u0, u1, [x], x, 0, it)
    ensures Touched(u1) == Touched(u0)[x := true]
  {
    assert [x][1..] == [];
  }

  lemma {:induction false} MarksRecurse(adj: Adj, u0: seq<int>, mid: seq<int>, u2: seq<int>, added: seq<int>, added2: seq<int>,
                     x: int, i: int, it: int)
    requires MarksInv(adj, u0, mid, added, x, i, it) && i < |adj[x]|
    requires 0 <= adj[x][i] < |mid| && mid[adj[x][i]] == 0
    requires |added2| > 0 && added2[0] == adj[x][i] && |u2| == |mid|
    requires forall v | 0 <= v < |mid| :: u2[v] == Rule(mid[v], it, v in added2, Near(adj, added2, v))
    ensures MarksInv(adj, u0, u2, added + added2, x, i + 1, it)
  {
    var nx := adj[x][i];
    var all := added + added2;
    assert all[1..] == added[1..] + added2;
    assert adj[x][..i + 1] == adj[x][..i] + [nx];
    forall v | 0 <= v < |u0|
      ensures u2[v] == Rule(u0[v], it, v in all, Near(adj, all[1..], v) || v in adj[x][..i + 1])
    {
      if Near(adj, added2, v) {
        var w :| w in added2 && Adjacent(adj, w, v);
        assert w in all[1..];
      }
      if Near(adj, added[1..], v) {
        var w :| w in added[1..] && Adjacent(adj, w, v);
        assert w in all[1..];
      }
      if v == nx {
        assert u0[v] == 0;
      }
    }
  }

  lemma {:induction false} MarksSkip(adj: Adj, u0: seq<int>, mid: seq<int>, u2: seq<int>, added: seq<int>, x: int, i: int, it: int)
    requires MarksInv(adj, u0, mid, added, x, i, it) && i < |adj[x]|
    requires 0 <= adj[x][i] < |mid| && mid[adj[x][i]] != 0
    requires u2 == if 1 < mid[adj[x][i]] < it then mid[adj[x][i] := it] else mid
    ensures MarksInv(adj, u0, u2, added, x, i + 1, it)
    ensures Touched(u2) == Touched(mid)
  {
    var nx := adj[x][i];
    assert adj[x][..i + 1] == adj[x][..i] + [nx];
  }

  lemma {:induction false} MarksEnd(adj: Adj, u0: seq<int>, u: seq<int>, added: seq<int>, x: int, it: int)
    requires 0 <= x < |adj| && MarksInv(adj, u0, u, added, x, |adj[x]|, it)
    ensures forall v | 0 <= v < |u0| :: u[v] == Rule(u0[v], it, v in added, Near(adj, added, v))
  {
    assert adj[x][..|adj[x]|] == adj[x];
    forall v | 0 <= v < |u0| ensures Near(adj, added, v) <==> Near(adj, added[1..], v) || v in adj[x] {
      if Near(adj, added, v) {
        var w :| w in added && Adjacent(adj, w, v);
        if w != x {
          var k :| 0 <= k < |added| && added[k] == w;
          assert added[1..][k - 1] == w;
        }
      }
      if v in adj[x] {
        assert added[0] in added;
      }
    }
  }

  /** The vertices whose marker a search raised to it. */
  ghost function Raised(u0: seq<int>, u1: seq<int>, it: int): set<int> {
    set v | 0 <= v < |u0| && v < |u1| && u0[v] != it && u1[v] == it
  }

  lemma {:induction false} RaisedSplit(u0: seq<int>, mid: seq<int>, u2: seq<int>, it: int)
    requires |u0| == |mid| == |u2|
    requires forall v | 0 <= v < |u0| :: (u0[v] == it ==> mid[v] == it) && (mid[v] == it ==> u2[v] == it)
    ensures |Raised(u0, u2, it)| == |Raised(u0, mid, it)| + |Raised(mid, u2, it)|
  {
    assert Raised(u0, u2, it) == Raised(u0, mid, it) + Raised(mid, u2, it);
    assert Raised(u0, mid, it) !! Raised(mid, u2, it);
  }

  lemma {:induction false} RaisedOne(u0: seq<int>, mid: seq<int>, u2: seq<int>, it: int, nx: int)
    requires |u0| == |mid| && 0 <= nx < |mid| && u0[nx] != it && mid[nx] != it && u2 == mid[nx := it]
    ensures |Raised(u0, u2, it)| == |Raised(u0, mid, it)| + 1
  {
    assert Raised(u0, u2, it) == Raised(u0, mid, it) + {nx};
  }

  // ---------------------------------------------------------------------
  // The two searches

  /** The state of the search from x before its neighbour i. */
  ghost predicate SearchInv(adj: Adj, u0: seq<int>, u: seq<int>, added: seq<int>, x: int, i: int, it: int) {
    DfsInv(adj, Touched(u0), Touched(u), x, i, added) && MarksInv(adj, u0, u, added, x, i, it)
  }

  lemma {:induction false} SearchStart(adj: Adj, u0: seq<int>, u1: seq<int>, x: int, it: int)
    requires |u0| == |adj| && 0 <= x < |adj| && u0[x] == 0 && u1 == u0[x := 1] && it >= 2
    ensures SearchInv(adj, u0, u1, [x], x, 0, it) && Raised(u0, u1, it) == {}
  {
    MarksStart(adj, u0, u1, x, it);
    DfsStart(adj, Touched(u0), Touched(u1), x);
  }

  /** What a search from x that started on markers u0 and ended on u has
      done: added lists the newly visited vertices, x first, all reachable
      from x through vertices unvisited in u0, with every neighbour of
      theirs visited; each unvisited vertex of added is marked 1, and each
      marker strictly between 1 and it next to added is raised to it. */
  ghost predicate SearchDone(adj: Adj, u0: seq<int>, u: seq<int>, added: seq<int>, x: int, it: int) {
    |added| > 0 && added[0] == x &&
    Grows(Touched(u0), Touched(u), added) &&
    ClosedMarks(adj, added, Touched(u)) &&
    ReachedFrom(adj, Free(Touched(u0)), x, added) &&
    |u| == |u0| &&
    forall v | 0 <= v < |u0| :: u[v] == Rule(u0[v], it, v in added, Near(adj, added, v))
  }

  lemma {:induction false} SearchEnd(adj: Adj, u0: seq<int>, u: seq<int>, added: seq<int>, x: int, it: int)
    requires 0 <= x < |adj| && SearchInv(adj, u0, u, added, x, |adj[x]|, it)
    ensures SearchDone(adj, u0, u, added, x, it)
  {
    DfsEnd(adj, Touched(u0), Touched(u), x, added);
    MarksEnd(adj, u0, u, added, x, it);
  }

  lemma {:induction false} SearchNext(adj: Adj, u0: seq<int>, u: seq<int>, added: seq<int>, x: int, i: int, it: int)
    requires WellFormed(adj) && 0 <= x < |adj| && i < |adj[x]| && SearchInv(adj, u0, u, added, x, i, it)
    ensures 0 <= adj[x][i] < |u| && |Free(Touched(u))| < |Free(Touched(u0))|
  {
    DfsNext(adj, Touched(u0), Touched(u), x, i, added);
  }

  /** Neighbour i of x was unvisited and a search from it has run. */
  lemma {:induction false} SearchRecurse(adj: Adj, u0: seq<int>, mid: seq<int>, u2: seq<int>, added: seq<int>, added2: seq<int>,
                      x: int, i: int, it: int)
    requires WellFormed(adj) && 0 <= x < |adj| && i < |adj[x]| && SearchInv(adj, u0, mid, added, x, i, it)
    requires 0 <= adj[x][i] < |mid| && mid[adj[x][i]] == 0
    requires SearchDone(adj, mid, u2, added2, adj[x][i], it)
    ensures SearchInv(adj, u0, u2, added + added2, x, i + 1, it)
    ensures |Raised(u0, u2, it)| == |Raised(u0, mid, it)| + |Raised(mid, u2, it)|
  {
    DfsAfter(adj, Touched(u0), Touched(mid), Touched(u2), x, i, added, added2);
    MarksRecurse(adj, u0, mid, u2, added, added2, x, i, it);
    RaisedSplit(u0, mid, u2, it);
  }

  /** Neighbour i of x was visited already; its marker is raised to it when
      strictly between 1 and it. */
  lemma {:induction false} SearchSkip(adj: Adj, u0: seq<int>, mid: seq<int>, u2: seq<int>, added: seq<int>, x: int, i: int, it: int)
    requires 0 <= x < |adj| && i < |adj[x]| && SearchInv(adj, u0, mid, added, x, i, it)
    requires 0 <= adj[x][i] < |mid| && mid[adj[x][i]] != 0
    requires u2 == if 1 < mid[adj[x][i]] < it then mid[adj[x][i] := it] else mid
    ensures SearchInv(adj, u0, u2, added, x, i + 1, it)
    ensures |Raised(u0, u2, it)| == |Raised(u0, mid, it)| + if 1 < mid[adj[x][i]] < it then 1 else 0
  {
    MarksSkip(adj, u0, mid, u2, added, x, i, it);
    DfsSkip(adj, Touched(u0), Touched(u2), x, i, added);
    if 1 < mid[adj[x][i]] < it {
      assert u0[adj[x][i]] != it by {
        assert mid[adj[x][i]] == Rule(u0[adj[x][i]], it, adj[x][i] in added, Near(adj, added[1..], adj[x][i]) || adj[x][i] in adj[x][..i]);
      }
      RaisedOne(u0, mid, u2, it, adj[x][i]);
    }
  }

  /** Depth-first search from the unvisited vertex x that raises every
      separator marker 2 it touches to 3. */
  method Dfs2(g: Graph, x: int, u: array<int>) returns (ghost added: seq<int>)
    requires g.Valid() && u.Length == g.n && 0 <= x < g.n && u[x] == 0
    modifies u
    decreases |Free(Touched(u[..]))|, 1
    ensures SearchDone(g.adjList, old(u[..]), u[..], added, x, 3)
  {
    ghost var u0 := u[..];
    u[x] := 1;
    added := [x];
    SearchStart(g.adjList, u0, u[..], x, 3);
    for i := 0 to |g.adjList[x]|
      invariant SearchInv(g.adjList, u0, u[..], added, x, i, 3)
    {
      added := Dfs2Neighbour(g, x, u, i, u0, added);
    }
    SearchEnd(g.adjList, u0, u[..], added, x, 3);
  }

  /** Neighbour i of x in Dfs2: searched from when unvisited, raised from 2
      to 3 otherwise. */
  method Dfs2Neighbour(g: Graph, x: int, u: array<int>, i: int, ghost u0: seq<int>, ghost added: seq<int>)
    returns (ghost added': seq<int>)
    requires g.Valid() && u.Length == g.n && 0 <= x < g.n && i < |g.adjList[x]|
    requires SearchInv(g.adjList, u0, u[..], added, x, i, 3)
    modifies u
    decreases |Free(Touched(u0))|, 0
    ensures SearchInv(g.adjList, u0, u[..], added', x, i + 1, 3)
  {
    SearchNext(g.adjList, u0, u[..], added, x, i, 3);
    var nx := g.adjList[x][i];
    ghost var mid := u[..];
    if u[nx] == 0 {
      ghost var added2 := Dfs2(g, nx, u);
      SearchRecurse(g.adjList, u0, mid, u[..], added, added2, x, i, 3);
      added' := added + added2;
    } else {
      if u[nx] == 2 {
        u[nx] := 3;
      }
      SearchSkip(g.adjList, u0, mid, u[..], added, x, i, 3);
      added' := added;
    }
  }

  /** Depth-first search from the unvisited vertex x that raises every
      separator marker strictly between 1 and it that it touches to it, and
      returns how many it raised. */
  method Dfs1(g: Graph, x: int, u: array<int>, it: int) returns (r: int, ghost added: seq<int>)
    requires g.Valid() && u.Length == g.n && 0 <= x < g.n && u[x] == 0 && it >= 2
    modifies u
    decreases |Free(Touched(u[..]))|, 1
    ensures SearchDone(g.adjList, old(u[..]), u[..], added, x, it)
    ensures r == |Raised(old(u[..]), u[..], it)|
  {
    ghost var u0 := u[..];
    u[x] := 1;
    added := [x];
    r := 0;
    SearchStart(g.adjList, u0, u[..], x, it);
    for i := 0 to |g.adjList[x]|
      invariant SearchInv(g.adjList, u0, u[..], added, x, i, it)
      invariant r == |Raised(u0, u[..], it)|
    {
      r, added := Dfs1Neighbour(g, x, u, it, i, u0, added, r);
    }
    SearchEnd(g.adjList, u0, u[..], added, x, it);
  }

  /** Neighbour i of x in Dfs1: searched from when unvisited, raised to it
      and counted when its marker is strictly between 1 and it. */
  method Dfs1Neighbour(g: Graph, x: int, u: array<int>, it: int, i: int, ghost u0: seq<int>, ghost added: seq<int>, r: int)
    returns (r': int, ghost added': seq<int>)
    requires g.Valid() && u.Length == g.n && 0 <= x < g.n && i < |g.adjList[x]|
    requires SearchInv(g.adjList, u0, u[..], added, x, i, it) && r == |Raised(u0, u[..], it)|
    modifies u
    decreases |Free(Touched(u0))|, 0
    ensures SearchInv(g.adjList, u0, u[..], added', x, i + 1, it) && r' == |Raised(u0, u[..], it)|
  {
    SearchNext(g.adjList, u0, u[..], added, x, i, it);
    var nx := g.adjList[x][i];
    ghost var mid := u[..];
    if u[nx] == 0 {
      var r2, added2 := Dfs1(g, nx, u, it);
      SearchRecurse(g.adjList, u0, mid, u[..], added, added2, x, i, it);
      added', r' := added + added2, r + r2;
    } else {
      r' := r;
      if u[nx] > 1 && u[nx] < it {
        u[nx] := it;
        r' := r + 1;
      }
      SearchSkip(g.adjList, u0, mid, u[..], added, x, i, it);
      added' := added;
    }
  }

  // ---------------------------------------------------------------------
  // What a search finds

  /** A search from an unvisited x, started when the visited vertices
      contained the separator S and were closed outside it, visits exactly
      the component of G - S that contains x. */
  lemma {:induction false} SearchFindsComponent(adj: Adj, S: set<int>, u0: seq<int>, u1: seq<int>, added: seq<int>, x: int, it: int)
    requires WellFormed(adj) && |u0| == |adj| && 0 <= x < |adj| && u0[x] == 0
    requires S <= Marked(Touched(u0)) && ClosedIn(adj, S, Marked(Touched(u0)))
    requires SearchDone(adj, u0, u1, added, x, it)
    ensures Elems(added) == Comp(adj, S, x)
    ensures Marked(Touched(u1)) == Marked(Touched(u0)) + Elems(added)
    ensures ClosedIn(adj, S, Marked(Touched(u1)))
  {
    var b0, b1 := Touched(u0), Touched(u1);
    MarkedGrows(b0, b1, added);
    ClosedStep(adj, S, b0, b1, added);
    FoundIsComponent(adj, S, b0, b1, added, x);
  }

  /** A vertex outside the visited list is near it iff it neighbours it. */
  lemma {:induction false} NearIsNbh(adj: Adj, added: seq<int>, v: int)
    requires 0 <= v < |adj| && v !in added
    ensures Near(adj, added, v) <==> v in Nbh(adj, Elems(added))
  {
  }

  /** The markers before a search from x with separator markers 2: 2 on
      the members of sep, 0 elsewhere. */
  ghost predicate SeparatorMarks(u: seq<int>, sep: seq<int>) {
    forall v | 0 <= v < |u| :: u[v] == if v in sep then 2 else 0
  }

  /** The markers before a search from x: 2 on the members of sep other
      than x, 0 elsewhere. */
  ghost predicate OtherMarks(u: seq<int>, sep: seq<int>, x: int) {
    forall v | 0 <= v < |u| :: u[v] == if v in sep && v != x then 2 else 0
  }

  /** With markers 2 on the other members of sep, a search from x raises to
      3 exactly the members of sep other than x that neighbour x's
      component of G - (sep - {x}). */
  lemma {:induction false} Dfs2Meaning(adj: Adj, sep: seq<int>, u0: seq<int>, u1: seq<int>, added: seq<int>, x: int)
    requires WellFormed(adj) && |u0| == |adj| && Below(sep, |adj|) && 0 <= x < |adj|
    requires OtherMarks(u0, sep, x) && SearchDone(adj, u0, u1, added, x, 3)
    ensures (forall v | v in sep && v != x :: u1[v] == 3) <==>
      Elems(sep) - {x} <= Nbh(adj, Comp(adj, Elems(sep) - {x}, x))
  {
    var S := Elems(sep) - {x};
    assert Marked(Touched(u0)) == S;
    SearchFindsComponent(adj, S, u0, u1, added, x, 3);
    forall v | v in sep && v != x ensures u1[v] == 3 <==> v in Nbh(adj, Comp(adj, S, x)) {
      assert v !in added;
      NearIsNbh(adj, added, v);
    }
  }

  /** Whether every vertex of vs other than x has marker 3. */
  method AllRaised(u: array<int>, vs: seq<int>, x: int) returns (r: bool)
    requires Below(vs, u.Length)
    ensures r <==> forall v | v in vs && v != x :: u[v] == 3
  {
    for k := 0 to |vs|
      invariant forall j | 0 <= j < k && vs[j] != x :: u[vs[j]] == 3
    {
      if vs[k] != x && u[vs[k]] != 3 {
        return false;
      }
    }
    return true;
  }

  // ---------------------------------------------------------------------
  // extend2

  /** Every vertex of pmc neighbours the component of G - pmc containing x. */
  ghost predicate Extends(adj: Adj, pmc: seq<int>, x: int) {
    Elems(pmc) <= Nbh(adj, Comp(adj, Elems(pmc), x))
  }

  /** The markers 2 on the members of sep, 0 elsewhere. */
  method MarkSeparator(g: Graph, sep: seq<int>) returns (u: array<int>)
    requires g.Valid() && Below(sep, g.n)
    ensures fresh(u) && u.Length == g.n && SeparatorMarks(u[..], sep)
  {
    u := new int[g.n](_ => 0);
    for k := 0 to |sep|
      invariant forall v | 0 <= v < u.Length :: u[v] == if v in sep[..k] then 2 else 0
    {
      u[sep[k]] := 2;
      assert sep[..k + 1] == sep[..k] + [sep[k]];
    }
    assert sep[..|sep|] == sep;
  }

  /** Whether x, a vertex outside pmc, can be added to pmc: every vertex of
      pmc neighbours the component of G - pmc containing x. */
  method Extend2(g: Graph, pmc: seq<int>, x: int) returns (r: bool)
    requires g.Valid() && Below(pmc, g.n) && 0 <= x < g.n && x !in pmc
    ensures r <==> Extends(g.adjList, pmc, x)
  {
    var u := MarkSeparator(g, pmc);
    ghost var u0 := u[..];
    ghost var added := Dfs2(g, x, u);
    ghost var u1 := u[..];
    Dfs2Meaning(g.adjList, pmc, u0, u1, added, x);
    assert Elems(pmc) - {x} == Elems(pmc);
    r := AllRaised(u, pmc, x);
  }

  // ---------------------------------------------------------------------
  // HasFullComponent

  /** A list with as many distinct elements as entries has no repeats. */
  lemma {:induction false} ElemsCardNoRepeats(s: seq<int>)
    requires |Elems(s)| == |s|
    ensures NoRepeats(s)
  {
    if |s| > 0 {
      var t := s[..|s| - 1];
      ElemsCard(t);
      assert Elems(s) == Elems(t) + {s[|s| - 1]};
      assert s[|s| - 1] !in t;
      ElemsCardNoRepeats(t);
      forall i, j | 0 <= i < j < |s| ensures s[i] != s[j] {
        if j < |s| - 1 {
          assert s[i] == t[i] && s[j] == t[j];
        } else {
          assert s[i] in t;
        }
      }
    }
  }

  /** The markers while scanning for a full component of G - sep, before
      vertex i, with it the last marker used: separator vertices carry
      markers from 2 to it, the others 0 (unvisited) or 1 (visited); the
      visited vertices are closed outside the separator and include every
      vertex before i; and when sep has no repeats, no visited vertex
      outside it lies in a full component. */
  ghost predicate FullScan(adj: Adj, sep: seq<int>, u: seq<int>, it: int, i: int) {
    |u| == |adj| && 2 <= it && 0 <= i <= |adj| && Below(sep, |adj|) &&
    (forall v | 0 <= v < |u| :: if v in sep then 2 <= u[v] <= it else 0 <= u[v] <= 1) &&
    ClosedIn(adj, Elems(sep), Marked(Touched(u))) &&
    (forall j | 0 <= j < i :: u[j] != 0) &&
    (NoRepeats(sep) ==>
      forall v | 0 <= v < |u| && v !in sep && u[v] != 0 :: !(Elems(sep) <= Nbh(adj, Comp(adj, Elems(sep), v))))
  }

  lemma {:induction false} FullScanStart(adj: Adj, sep: seq<int>, u: seq<int>)
    requires Below(sep, |adj|) && |u| == |adj| && SeparatorMarks(u, sep)
    ensures FullScan(adj, sep, u, 2, 0)
  {
    assert Marked(Touched(u)) == Elems(sep);
  }

  /** The count of a search is the size of the neighbourhood of the
      component it visits. */
  lemma {:induction false} RaisedIsNbh(adj: Adj, sep: seq<int>, u0: seq<int>, u1: seq<int>, added: seq<int>, i: int, it: int)
    requires WellFormed(adj) && FullScan(adj, sep, u0, it - 1, i) && 0 <= i < |adj| && u0[i] == 0
    requires SearchDone(adj, u0, u1, added, i, it)
    requires Elems(added) == Comp(adj, Elems(sep), i)
    ensures Raised(u0, u1, it) == Nbh(adj, Comp(adj, Elems(sep), i))
  {
    var C := Comp(adj, Elems(sep), i);
    NbhOfCompInSeparator(adj, Elems(sep), i);
    forall v | 0 <= v < |u0| ensures v in Raised(u0, u1, it) <==> v in Nbh(adj, C) {
      if v in sep {
        assert v !in added;
        NearIsNbh(adj, added, v);
      }
    }
  }

  /** One step of the scan: the search from the unvisited vertex i with the
      new marker it counts the neighbourhood of i's component; a count of
      |sep| means a full component, any other count keeps the scan going. */
  lemma {:induction false} FullStep(adj: Adj, sep: seq<int>, u0: seq<int>, u1: seq<int>, added: seq<int>, i: int, it: int)
    requires WellFormed(adj) && FullScan(adj, sep, u0, it - 1, i) && 0 <= i < |adj| && u0[i] == 0
    requires SearchDone(adj, u0, u1, added, i, it)
    ensures |Raised(u0, u1, it)| == |Nbh(adj, Comp(adj, Elems(sep), i))| <= |sep|
    ensures |Raised(u0, u1, it)| == |sep| ==> NoRepeats(sep) && HasFullComponent(adj, Elems(sep))
    ensures |Raised(u0, u1, it)| != |sep| ==> FullScan(adj, sep, u1, it, i + 1)
  {
    var S := Elems(sep);
    var C := Comp(adj, S, i);
    assert S <= Marked(Touched(u0));
    SearchFindsComponent(adj, S, u0, u1, added, i, it);
    RaisedIsNbh(adj, sep, u0, u1, added, i, it);
    NbhOfCompInSeparator(adj, S, i);
    CardSubset(Nbh(adj, C), S);
    ElemsCard(sep);
    if |Nbh(adj, C)| == |sep| {
      ElemsCardNoRepeats(sep);
      CompHasRoot(adj, S, i);
      assert i in Allowed(adj, S) && S <= Nbh(adj, C);
    } else {
      FullScanNext(adj, sep, u0, u1, added, i, it);
    }
  }

  /** A step whose component is not full keeps the scan going. */
  lemma {:induction false} FullScanNext(adj: Adj, sep: seq<int>, u0: seq<int>, u1: seq<int>, added: seq<int>, i: int, it: int)
    requires WellFormed(adj) && FullScan(adj, sep, u0, it - 1, i) && 0 <= i < |adj| && u0[i] == 0
    requires SearchDone(adj, u0, u1, added, i, it)
    requires Elems(added) == Comp(adj, Elems(sep), i)
    requires ClosedIn(adj, Elems(sep), Marked(Touched(u1)))
    requires |Nbh(adj, Comp(adj, Elems(sep), i))| != |sep|
    ensures FullScan(adj, sep, u1, it, i + 1)
  {
    var S := Elems(sep);
    assert u1[i] != 0 by {
      assert added[0] == i;
    }
    forall v | 0 <= v < |u1| && v !in sep && u1[v] != 0 && NoRepeats(sep)
      ensures !(S <= Nbh(adj, Comp(adj, S, v)))
    {
      if u0[v] == 0 {
        assert v in Elems(added);
        CompSame(adj, S, i, v);
        NoRepeatsCard(sep);
        NotFull(adj, S, i);
      } else {
        assert Touched(u0)[v];
      }
    }
  }

  /** A component with fewer neighbours than the separator is not full. */
  lemma {:induction false} NotFull(adj: Adj, S: set<int>, i: int)
    requires InRange(adj) && |Nbh(adj, Comp(adj, S, i))| != |S|
    ensures !(S <= Nbh(adj, Comp(adj, S, i)))
  {
    var N := Nbh(adj, Comp(adj, S, i));
    NbhOfCompInSeparator(adj, S, i);
    CardSubset(N, S);
    assert N != S && N <= S;
    assert exists y :: y in S && y !in N;
  }

  /** At the end of the scan no vertex outside the separator lies in a full
      component. */
  lemma {:induction false} FullScanEnd(adj: Adj, sep: seq<int>, u: seq<int>, it: int)
    requires FullScan(adj, sep, u, it, |adj|)
    ensures !(NoRepeats(sep) && HasFullComponent(adj, Elems(sep)))
  {
  }

  /** Whether some component of G - sep has every vertex of sep as a
      neighbour. A list with a repeated vertex never counts as having one,
      since no component can have as many neighbours as it has entries. */
  method FullComponentExists(g: Graph, sep: seq<int>) returns (r: bool)
    requires g.Valid() && Below(sep, g.n)
    ensures r <==> NoRepeats(sep) && HasFullComponent(g.adjList, Elems(sep))
  {
    var u := MarkSeparator(g, sep);
    var it := 2;
    FullScanStart(g.adjList, sep, u[..]);
    for i := 0 to g.n
      invariant FullScan(g.adjList, sep, u[..], it, i)
    {
      if u[i] == 0 {
        it := it + 1;
        ghost var u0 := u[..];
        var c, _ := FullSearch(g, sep, u, i, it);
        if c == |sep| {
          return true;
        }
      }
    }
    FullScanEnd(g.adjList, sep, u[..], it);
    return false;
  }

  /** The search of one step of the scan, with the count it returns. */
  method FullSearch(g: Graph, sep: seq<int>, u: array<int>, i: int, it: int) returns (c: int, ghost added: seq<int>)
    requires g.Valid() && FullScan(g.adjList, sep, u[..], it - 1, i) && 0 <= i < g.n && u[i] == 0
    modifies u
    ensures c == |Nbh(g.adjList, Comp(g.adjList, Elems(sep), i))| <= |sep|
    ensures c == |sep| ==> NoRepeats(sep) && HasFullComponent(g.adjList, Elems(sep))
    ensures c != |sep| ==> FullScan(g.adjList, sep, u[..], it, i + 1)
  {
    ghost var u0 := u[..];
    c, added := Dfs1(g, i, u, it);
    FullStep(g.adjList, sep, u0, u[..], added, i, it);
  }

  // ---------------------------------------------------------------------
  // IsPmc

  /** y neighbours the component containing x of G minus the other members
      of P: a path from x reaches a neighbour of y through vertices outside P. */
  ghost predicate Linked(adj: Adj, P: set<int>, x: int, y: int) {
    y in Nbh(adj, Comp(adj, P - {x}, x))
  }

  /** x is linked to every other member of pmc. */
  ghost predicate LinkedToAll(adj: Adj, pmc: seq<int>, x: int) {
    forall y | y in pmc && y != x :: Linked(adj, Elems(pmc), x, y)
  }

  /** Clears the markers and puts 2 on the members of pmc other than x. */
  method MarkOthers(g: Graph, pmc: seq<int>, x: int, u: array<int>)
    requires g.Valid() && Below(pmc, g.n) && u.Length == g.n
    modifies u
    ensures OtherMarks(u[..], pmc, x)
  {
    for v := 0 to u.Length
      invariant forall w | 0 <= w < v :: u[w] == 0
    {
      u[v] := 0;
    }
    for k := 0 to |pmc|
      invariant forall v | 0 <= v < u.Length :: u[v] == if v in pmc[..k] && v != x then 2 else 0
    {
      if pmc[k] != x {
        u[pmc[k]] := 2;
      }
      assert pmc[..k + 1] == pmc[..k] + [pmc[k]];
    }
    assert pmc[..|pmc|] == pmc;
  }

  /** Whether the member x of pmc is linked to every other member. */
  method LinkFrom(g: Graph, pmc: seq<int>, x: int, u: array<int>) returns (ok: bool)
    requires g.Valid() && Below(pmc, g.n) && u.Length == g.n && 0 <= x < g.n
    modifies u
    ensures ok <==> LinkedToAll(g.adjList, pmc, x)
  {
    MarkOthers(g, pmc, x, u);
    ghost var u0 := u[..];
    ghost var added := Dfs2(g, x, u);
    Dfs2Meaning(g.adjList, pmc, u0, u[..], added, x);
    ok := AllRaised(u, pmc, x);
  }

  /** The test of a candidate potential maximal clique: no full component
      of G - pmc, and every two distinct members linked through vertices
      outside pmc. */
  method IsPmc(g: Graph, pmc: seq<int>) returns (r: bool)
    requires g.Valid() && Below(pmc, g.n)
    ensures r <==> !(NoRepeats(pmc) && HasFullComponent(g.adjList, Elems(pmc))) &&
                   forall x | x in pmc :: LinkedToAll(g.adjList, pmc, x)
  {
    var full := FullComponentExists(g, pmc);
    if full {
      return false;
    }
    var u := new int[g.n];
    for k := 0 to |pmc|
      invariant forall j | 0 <= j < k :: LinkedToAll(g.adjList, pmc, pmc[j])
    {
      var ok := LinkFrom(g, pmc, pmc[k], u);
      if !ok {
        return false;
      }
    }
    return true;
  }

  /** A path that starts at x and ends elsewhere leaves x for the last
      time at some position k. */
  lemma {:induction false} LastVisit(p: seq<int>, x: int)
    requires |p| > 0 && p[0] == x && p[|p| - 1] != x
    ensures exists k | 0 <= k < |p| - 1 :: p[k] == x && x !in p[k + 1..]
    decreases |p|
  {
    if x in p[1..] {
      var j :| 0 <= j < |p| - 1 && p[1..][j] == x;
      var q := p[j + 1..];
      LastVisit(q, x);
      var k :| 0 <= k < |q| - 1 && q[k] == x && x !in q[k + 1..];
      assert p[j + 1 + k] == x && p[j + 1 + k + 1..] == q[k + 1..];
    } else {
      assert p[0] == x && x !in p[0 + 1..];
    }
  }

  /** Linking from x to another member y of P is the connection of the
      potential-maximal-clique characterisation: x and y are adjacent or
      both neighbour one component of G - P. */
  lemma {:induction false} LinkedIsConnected(adj: Adj, P: set<int>, x: int, y: int)
    requires WellFormed(adj) && 0 <= x < |adj| && x in P && y in P && x != y
    ensures Linked(adj, P, x, y) <==>
      Adjacent(adj, x, y) ||
      exists r | r in Allowed(adj, P) :: x in Nbh(adj, Comp(adj, P, r)) && y in Nbh(adj, Comp(adj, P, r))
  {
    if Linked(adj, P, x, y) {
      LinkedGivesConnected(adj, P, x, y);
    }
    if Adjacent(adj, x, y) {
      CompHasRoot(adj, P - {x}, x);
      CompMemberNotIn(adj, P - {x}, x, y);
    }
    if r :| r in Allowed(adj, P) && x in Nbh(adj, Comp(adj, P, r)) && y in Nbh(adj, Comp(adj, P, r)) {
      SharedGivesLinked(adj, P, x, y, r);
    }
  }

  lemma {:induction false} SharedGivesLinked(adj: Adj, P: set<int>, x: int, y: int, r: int)
    requires WellFormed(adj) && 0 <= x < |adj| && x in P && y in P && x != y
    requires x in Nbh(adj, Comp(adj, P, r)) && y in Nbh(adj, Comp(adj, P, r))
    ensures Linked(adj, P, x, y)
  {
    var A, A' := Allowed(adj, P), Allowed(adj, P - {x});
    var a :| a in Comp(adj, P, r) && Adjacent(adj, a, x);
    var b :| b in Comp(adj, P, r) && Adjacent(adj, b, y);
    CompSame(adj, P, r, a);
    CompMember(adj, P, a, b);
    ReachMono(adj, A, A', a, b);
    assert Adjacent(adj, x, a);
    ReachPrepend(adj, A', x, a, b);
    assert b in Comp(adj, P - {x}, x);
    CompMemberNotIn(adj, P - {x}, x, y);
  }

  lemma {:induction false} LinkedGivesConnected(adj: Adj, P: set<int>, x: int, y: int)
    requires WellFormed(adj) && 0 <= x < |adj| && x in P && y in P && x != y
    requires Linked(adj, P, x, y)
    ensures Adjacent(adj, x, y) ||
      exists r | r in Allowed(adj, P) :: x in Nbh(adj, Comp(adj, P, r)) && y in Nbh(adj, Comp(adj, P, r))
  {
    var w :| w in Comp(adj, P - {x}, x) && Adjacent(adj, w, y);
    if w == x {
      return;
    }
    var rr := LastEntry(adj, P, x, w);
    assert x in Nbh(adj, Comp(adj, P, rr)) by {
      CompHasRoot(adj, P, rr);
      CompMemberNotIn(adj, P, rr, x);
    }
    assert y in Nbh(adj, Comp(adj, P, rr)) by {
      CompMemberNotIn(adj, P, rr, y);
    }
  }

  /** A vertex w reached from x outside P - {x} is reached, after the last
      visit to x, from a neighbour rr of x outside P. */
  lemma {:induction false} LastEntry(adj: Adj, P: set<int>, x: int, w: int) returns (rr: int)
    requires WellFormed(adj) && 0 <= x < |adj| && x in P
    requires w in Comp(adj, P - {x}, x) && w != x
    ensures rr in Allowed(adj, P) && Adjacent(adj, rr, x) && w in Comp(adj, P, rr)
  {
    CompMember(adj, P - {x}, x, w);
    var p :| IsPath(adj, p, Allowed(adj, P - {x})) && p[0] == x && p[|p| - 1] == w;
    LastVisit(p, x);
    var k :| 0 <= k < |p| - 1 && p[k] == x && x !in p[k + 1..];
    SuffixAvoiding(adj, P, x, p, k);
    var q := p[k + 1..];
    rr := q[0];
    assert Adjacent(adj, p[k], p[k + 1]);
    assert Reachable(adj, Allowed(adj, P), rr, w) by {
      assert q[|q| - 1] == w;
    }
  }

  /** The part of a path outside P - {x} after its last visit to x lies
      outside P. */
  lemma {:induction false} SuffixAvoiding(adj: Adj, P: set<int>, x: int, p: seq<int>, k: int)
    requires IsPath(adj, p, Allowed(adj, P - {x}))
    requires 0 <= k < |p| - 1 && x !in p[k + 1..]
    ensures IsPath(adj, p[k + 1..], Allowed(adj, P))
  {
    var q := p[k + 1..];
    forall j | 0 <= j < |q| ensures q[j] in Allowed(adj, P) {
      assert q[j] in Allowed(adj, P - {x}) && q[j] != x;
    }
    forall j | 0 <= j < |q| - 1 ensures Adjacent(adj, q[j], q[j + 1]) {
      assert q[j] == p[k + 1 + j] && q[j + 1] == p[k + 1 + j + 1];
    }
  }

  /** For a list without repeats the test is exactly the characterisation
      of potential maximal cliques by Bouchitte and Todinca. */
  lemma {:induction false} IsPmcCharacterised(adj: Adj, pmc: seq<int>)
    requires WellFormed(adj) && Below(pmc, |adj|) && NoRepeats(pmc)
    ensures (!(NoRepeats(pmc) && HasFullComponent(adj, Elems(pmc))) &&
             forall x | x in pmc :: LinkedToAll(adj, pmc, x))
            <==> IsPotentialMaximalClique(adj, Elems(pmc))
  {
    var P := Elems(pmc);
    forall x, y | x in P && y in P && x != y
      ensures Linked(adj, P, x, y) <==>
        Adjacent(adj, x, y) ||
        exists r | r in Allowed(adj, P) :: x in Nbh(adj, Comp(adj, P, r)) && y in Nbh(adj, Comp(adj, P, r))
    {
      LinkedIsConnected(adj, P, x, y);
    }
  }

  // ---------------------------------------------------------------------
  // OneMoreVertex: the old potential maximal cliques

  /** p has no repeats and G - p has a full component. */
  ghost predicate Full(adj: Adj, p: seq<int>) {
    NoRepeats(p) && HasFullComponent(adj, Elems(p))
  }

  /** What becomes of one old potential maximal clique p when x joins the
      graph: p itself when it has no full component, p extended by x when it
      has one and x can extend it, nothing otherwise. */
  ghost function KeptOne(adj: Adj, p: seq<int>, x: int): seq<seq<int>> {
    if !Full(adj, p) then [p] else if Extends(adj, p, x) then [p + [x]] else []
  }

  ghost function Kept(adj: Adj, pmcs: seq<seq<int>>, x: int): seq<seq<int>>
    decreases |pmcs|
  {
    if pmcs == [] then [] else Kept(adj, pmcs[..|pmcs| - 1], x) + KeptOne(adj, pmcs[|pmcs| - 1], x)
  }

  /** The old potential maximal cliques that survive are exactly those
      without a full component, unchanged, and those with one that x
      extends, extended by x; there are at most as many as before. */
  lemma {:induction false} KeptMembers(adj: Adj, pmcs: seq<seq<int>>, x: int)
    ensures |Kept(adj, pmcs, x)| <= |pmcs|
    ensures forall q :: q in Kept(adj, pmcs, x) <==>
      exists p | p in pmcs :: (q == p && !Full(adj, p)) || (q == p + [x] && Full(adj, p) && Extends(adj, p, x))
    decreases |pmcs|
  {
    if pmcs != [] {
      var init, last := pmcs[..|pmcs| - 1], pmcs[|pmcs| - 1];
      KeptMembers(adj, init, x);
      assert pmcs == init + [last];
      forall q ensures q in Kept(adj, pmcs, x) <==>
        exists p | p in pmcs :: (q == p && !Full(adj, p)) || (q == p + [x] && Full(adj, p) && Extends(adj, p, x))
      {
        if q in Kept(adj, pmcs, x) && q !in Kept(adj, init, x) {
          assert q in KeptOne(adj, last, x);
        }
      }
    }
  }

  /** The first loop: each old potential maximal clique kept, extended or
      dropped in turn. */
  method KeepOld(g: Graph, pmcs: seq<seq<int>>, x: int) returns (out: seq<seq<int>>)
    requires g.Valid() && 0 <= x < g.n
    requires forall k | 0 <= k < |pmcs| :: Below(pmcs[k], g.n) && x !in pmcs[k]
    ensures out == Kept(g.adjList, pmcs, x)
  {
    out := [];
    for k := 0 to |pmcs|
      invariant out == Kept(g.adjList, pmcs[..k], x)
    {
      var pmc := pmcs[k];
      var full := FullComponentExists(g, pmc);
      if !full {
        out := out + [pmc];
      } else {
        var ext := Extend2(g, pmc, x);
        if ext {
          out := out + [pmc + [x]];
        }
      }
      assert pmcs[..k + 1][..k] == pmcs[..k];
    }
    assert pmcs[..|pmcs|] == pmcs;
  }

  // ---------------------------------------------------------------------
  // OneMoreVertex: the merge pointer into the old separators

  /** Both separator lists are strictly increasing in lexicographic order. */
  ghost predicate Merged(minseps: seq<seq<int>>, newMinseps: seq<seq<int>>) {
    StrictlySorted(minseps, LexLess) && StrictlySorted(newMinseps, LexLess)
  }

  /** Before new separator m, when both lists are sorted, the old separators
      before i2 all come before it. */
  ghost predicate PointerInv(minseps: seq<seq<int>>, newMinseps: seq<seq<int>>, m: int, i2: int) {
    0 <= i2 <= |minseps| &&
    (Merged(minseps, newMinseps) && 0 <= m < |newMinseps| ==>
      forall t | 0 <= t < i2 :: LexLess(minseps[t], newMinseps[m]))
  }

  /** Moves i2 past the old separators that come before minsep. */
  method Advance(minseps: seq<seq<int>>, minsep: seq<int>, i2: int) returns (j: int)
    requires 0 <= i2 <= |minseps|
    ensures i2 <= j <= |minseps|
    ensures forall t | i2 <= t < j :: LexLess(minseps[t], minsep)
    ensures j < |minseps| ==> !LexLess(minseps[j], minsep)
  {
    j := i2;
    while j < |minseps| && LexLess(minseps[j], minsep)
      invariant i2 <= j <= |minseps|
      invariant forall t | i2 <= t < j :: LexLess(minseps[t], minsep)
    {
      j := j + 1;
    }
  }

  lemma {:induction false} PointerSkip(minseps: seq<seq<int>>, newMinseps: seq<seq<int>>, m: int, i2: int)
    requires PointerInv(minseps, newMinseps, m, i2) && 0 <= m < |newMinseps|
    ensures PointerInv(minseps, newMinseps, m + 1, i2)
  {
    if Merged(minseps, newMinseps) && m + 1 < |newMinseps| {
      LexLessOrder();
      assert LexLess(newMinseps[m], newMinseps[m + 1]);
    }
  }

  /** With both lists sorted, the pointer test after advancing is exactly
      membership of the new separator among the old ones. */
  lemma {:induction false} PointerFound(minseps: seq<seq<int>>, newMinseps: seq<seq<int>>, m: int, i2: int, j: int)
    requires PointerInv(minseps, newMinseps, m, i2) && 0 <= m < |newMinseps|
    requires i2 <= j <= |minseps|
    requires forall t | i2 <= t < j :: LexLess(minseps[t], newMinseps[m])
    requires j < |minseps| ==> !LexLess(minseps[j], newMinseps[m])
    ensures Merged(minseps, newMinseps) ==>
      ((j < |minseps| && minseps[j] == newMinseps[m]) <==> newMinseps[m] in minseps)
    ensures PointerInv(minseps, newMinseps, m + 1, j)
  {
    if Merged(minseps, newMinseps) {
      LexLessOrder();
      var s := newMinseps[m];
      if t :| 0 <= t < |minseps| && minseps[t] == s {
        assert !LexLess(s, s);
        assert j <= t;
      }
      if m + 1 < |newMinseps| {
        assert LexLess(s, newMinseps[m + 1]);
      }
    }
  }

  // ---------------------------------------------------------------------
  // OneMoreVertex: new candidates

  /** x can join the new separator s: it is not in s, every vertex of s
      neighbours x's component, and s + [x] has no full component. */
  ghost predicate GrowsAt(adj: Adj, s: seq<int>, x: int) {
    x !in s && Extends(adj, s, x) && !Full(adj, s + [x])
  }

  /** q is a new separator grown by x. */
  ghost predicate Grown(adj: Adj, newMinseps: seq<seq<int>>, x: int, q: seq<int>) {
    exists s | s in newMinseps :: GrowsAt(adj, s, x) && q == s + [x]
  }

  /** The entries of s2, in order, that lie in C and not in s. */
  ghost function Picked(s2: seq<int>, C: set<int>, s: seq<int>): (r: seq<int>)
    ensures forall y :: y in r <==> y in s2 && y in C && y !in s
    ensures NoRepeats(s2) ==> NoRepeats(r)
    decreases |s2|
  {
    if s2 == [] then []
    else
      var init, y := s2[..|s2| - 1], s2[|s2| - 1];
      assert forall z :: z in s2 <==> z in init || z == y by {
        assert s2 == init + [y];
      }
      Picked(init, C, s) + if y in C && y !in s then [y] else []
  }

  /** The candidate built from separator s, separator s2 and the component
      of G - s containing r: s together with the vertices of s2 in that
      component, sorted. */
  ghost function CandidateOf(adj: Adj, s: seq<int>, s2: seq<int>, r: int): seq<int> {
    SortAndDedupInts(s + Picked(s2, Comp(adj, Elems(s), r), s))
  }

  /** The candidate adds at least one vertex to s. */
  ghost predicate Proper(adj: Adj, s: seq<int>, s2: seq<int>, r: int) {
    |Picked(s2, Comp(adj, Elems(s), r), s)| > 0
  }

  /** q was built from a new separator s that does not contain x (and, when
      both separator lists are sorted, is not an old separator), a new
      separator s2 and a component of G - s. */
  ghost predicate Candidate(adj: Adj, minseps: seq<seq<int>>, newMinseps: seq<seq<int>>, x: int, q: seq<int>) {
    exists s, s2, r | s in newMinseps && s2 in newMinseps && x !in s &&
                      (Merged(minseps, newMinseps) ==> s !in minseps) &&
                      r in Allowed(adj, Elems(s)) && Proper(adj, s, s2, r) ::
      q == CandidateOf(adj, s, s2, r)
  }

  /** q passes the test of IsPmc. */
  ghost predicate PassesTest(adj: Adj, q: seq<int>) {
    !Full(adj, q) && forall v | v in q :: LinkedToAll(adj, q, v)
  }

  /** The output so far: the kept old cliques K first; after them only grown
      separators and tested candidates that passed; every tested candidate
      that passed is there; no candidate was tested twice, and tried holds
      exactly the tested ones. */
  ghost predicate TrialInv(adj: Adj, minseps: seq<seq<int>>, newMinseps: seq<seq<int>>, x: int, K: seq<seq<int>>,
                           out: seq<seq<int>>, tried: set<seq<int>>, tested: seq<seq<int>>) {
    |out| >= |K| && out[..|K|] == K &&
    (forall q | q in out[|K|..] :: Grown(adj, newMinseps, x, q) || (q in tested && PassesTest(adj, q))) &&
    (forall q | q in tested :: Candidate(adj, minseps, newMinseps, x, q)) &&
    (forall q | q in tested && PassesTest(adj, q) :: q in out) &&
    Distinct(tested) &&
    (forall q :: q in tried <==> q in tested)
  }

  /** The separators of newMinseps are increasing lists of vertices. */
  ghost predicate SeparatorsIn(newMinseps: seq<seq<int>>, n: int) {
    forall k | 0 <= k < |newMinseps| :: StrictlyIncreasing(newMinseps[k]) && Below(newMinseps[k], n)
  }

  /** Picking from one more element of s2 appends it when it qualifies. */
  lemma {:induction false} PickedSnoc(s2: seq<int>, k: int, C: set<int>, s: seq<int>)
    requires 0 <= k < |s2|
    ensures Picked(s2[..k + 1], C, s) ==
      Picked(s2[..k], C, s) + (if s2[k] in C && s2[k] !in s then [s2[k]] else [])
  {
    assert s2[..k + 1][..k] == s2[..k];
  }

  /** One step of Pick: the list built from the first k elements of s2
      grows by s2[k] exactly when s2[k] is in c and not in s. */
  lemma {:induction false} PickStep(s: seq<int>, s2: seq<int>, c: seq<int>, k: int, acc: seq<int>)
    requires 0 <= k < |s2| && acc == s + Picked(s2[..k], Elems(c), s)
    ensures (if s2[k] in c && s2[k] !in s then acc + [s2[k]] else acc) == s + Picked(s2[..k + 1], Elems(c), s)
  {
    PickedSnoc(s2, k, Elems(c), s);
    assert (s2[k] in Elems(c)) == (s2[k] in c);
  }

  /** minsep together with the vertices of minsep2 in c that are not in
      minsep, in the order of minsep2. */
  method Pick(minsep: seq<int>, minsep2: seq<int>, c: seq<int>) returns (npmc: seq<int>)
    ensures npmc == minsep + Picked(minsep2, Elems(c), minsep)
  {
    npmc := minsep;
    for k := 0 to |minsep2|
      invariant npmc == minsep + Picked(minsep2[..k], Elems(c), minsep)
    {
      PickStep(minsep, minsep2, c, k, npmc);
      if minsep2[k] in c && minsep2[k] !in minsep {
        npmc := npmc + [minsep2[k]];
      }
    }
    assert minsep2[..|minsep2|] == minsep2;
  }

  /** A candidate built from two separators has no repeats and lies in the
      graph's vertex range. */
  lemma {:induction false} CandidateShape(s: seq<int>, s2: seq<int>, C: set<int>, n: int)
    requires StrictlyIncreasing(s) && StrictlyIncreasing(s2) && Below(s, n) && Below(s2, n)
    ensures NoRepeats(s + Picked(s2, C, s))
    ensures Below(SortAndDedupInts(s + Picked(s2, C, s)), n)
  {
    var p := Picked(s2, C, s);
    assert NoRepeats(s2);
    forall i, j | 0 <= i < j < |s + p| ensures (s + p)[i] != (s + p)[j] {
      if j >= |s| && i < |s| {
        assert (s + p)[j] in p;
      } else if i >= |s| {
        assert (s + p)[i] == p[i - |s|] && (s + p)[j] == p[j - |s|];
      }
    }
    var q := SortAndDedupInts(s + p);
    forall k | 0 <= k < |q| ensures 0 <= q[k] < n {
      assert q[k] in s + p;
    }
  }

  /** Tries the candidate built from minsep, minsep2 and the component c of
      G - minsep: when it adds a vertex to minsep and was not tried before,
      it is recorded as tried and kept when it passes IsPmc. The list is
      duplicate-free, so sorting it leaves exactly its sorted set. */
  method TryComponent(g: Graph, ghost minseps: seq<seq<int>>, ghost newMinseps: seq<seq<int>>, x: int,
                      ghost K: seq<seq<int>>, minsep: seq<int>, minsep2: seq<int>, c: seq<int>,
                      out: seq<seq<int>>, tried: set<seq<int>>, ghost tested: seq<seq<int>>)
    returns (out': seq<seq<int>>, tried': set<seq<int>>, ghost tested': seq<seq<int>>)
    requires g.Valid() && SeparatorsIn(newMinseps, g.n)
    requires TrialInv(g.adjList, minseps, newMinseps, x, K, out, tried, tested)
    requires minsep in newMinseps && minsep2 in newMinseps && x !in minsep
    requires Merged(minseps, newMinseps) ==> minsep !in minseps
    requires |c| > 0 && Elems(c) == Comp(g.adjList, Elems(minsep), c[0])
    ensures TrialInv(g.adjList, minseps, newMinseps, x, K, out', tried', tested')
    ensures out <= out' && tried <= tried'
    ensures Proper(g.adjList, minsep, minsep2, c[0]) ==> CandidateOf(g.adjList, minsep, minsep2, c[0]) in tried'
  {
    out', tried', tested' := out, tried, tested;
    var npmc := Pick(minsep, minsep2, c);
    if |npmc| > |minsep| {
      CandidateShape(minsep, minsep2, Elems(c), g.n);
      npmc := SortAndDedupInts(npmc);
      if npmc !in tried {
        assert c[0] in c;
        CompMember(g.adjList, Elems(minsep), c[0], c[0]);
        assert Candidate(g.adjList, minseps, newMinseps, x, npmc) by {
          assert npmc == CandidateOf(g.adjList, minsep, minsep2, c[0]);
        }
        tried' := tried + {npmc};
        tested' := tested + [npmc];
        var ok := IsPmc(g, npmc);
        if ok {
          out' := out + [npmc];
        }
        TrialAdd(g.adjList, minseps, newMinseps, x, K, out, tried, tested, npmc, ok, out', tried', tested');
      }
    }
  }

  lemma {:induction false} TrialAdd(adj: Adj, minseps: seq<seq<int>>, newMinseps: seq<seq<int>>, x: int, K: seq<seq<int>>,
                 out: seq<seq<int>>, tried: set<seq<int>>, tested: seq<seq<int>>, q: seq<int>, ok: bool,
                 out': seq<seq<int>>, tried': set<seq<int>>, tested': seq<seq<int>>)
    requires TrialInv(adj, minseps, newMinseps, x, K, out, tried, tested)
    requires q !in tried && Candidate(adj, minseps, newMinseps, x, q) && (ok <==> PassesTest(adj, q))
    requires tried' == tried + {q} && tested' == tested + [q] && out' == if ok then out + [q] else out
    ensures TrialInv(adj, minseps, newMinseps, x, K, out', tried', tested')
  {
    AppendAfterPrefix(K, out, q, ok, out');
  }

  /** Appending to a list that starts with K keeps K in front and adds at
      most q after it. */
  lemma {:induction false} AppendAfterPrefix(K: seq<seq<int>>, out: seq<seq<int>>, q: seq<int>, ok: bool, out': seq<seq<int>>)
    requires |out| >= |K| && out[..|K|] == K && out' == if ok then out + [q] else out
    ensures |out'| >= |K| && out'[..|K|] == K
    ensures forall y | y in out'[|K|..] :: y in out[|K|..] || (ok && y == q)
    ensures forall y | y in out :: y in out'
    ensures ok ==> q in out'
  {
    assert out'[..|K|] == K by {
      assert out'[..|out|] == out;
    }
    assert out'[|K|..] == if ok then out[|K|..] + [q] else out[|K|..];
  }

  /** Every listed component has tried its candidate with minsep2. */
  ghost predicate TriedComponents(adj: Adj, minsep: seq<int>, minsep2: seq<int>, cs: seq<seq<int>>, k: int,
                                  tried: set<seq<int>>) {
    forall l | 0 <= l < k && l < |cs| && |cs[l]| > 0 && Proper(adj, minsep, minsep2, cs[l][0]) ::
      CandidateOf(adj, minsep, minsep2, cs[l][0]) in tried
  }

  /** The candidates of minsep2 with each component of G - minsep. */
  method TryComponents(g: Graph, ghost minseps: seq<seq<int>>, ghost newMinseps: seq<seq<int>>, x: int,
                       ghost K: seq<seq<int>>, minsep: seq<int>, minsep2: seq<int>, cs: seq<seq<int>>,
                       out: seq<seq<int>>, tried: set<seq<int>>, ghost tested: seq<seq<int>>)
    returns (out': seq<seq<int>>, tried': set<seq<int>>, ghost tested': seq<seq<int>>)
    requires g.Valid() && SeparatorsIn(newMinseps, g.n)
    requires TrialInv(g.adjList, minseps, newMinseps, x, K, out, tried, tested)
    requires minsep in newMinseps && minsep2 in newMinseps && x !in minsep
    requires Merged(minseps, newMinseps) ==> minsep !in minseps
    requires ComponentList(g.adjList, Elems(minsep), cs)
    ensures TrialInv(g.adjList, minseps, newMinseps, x, K, out', tried', tested')
    ensures out <= out' && tried <= tried'
    ensures TriedComponents(g.adjList, minsep, minsep2, cs, |cs|, tried')
  {
    out', tried', tested' := out, tried, tested;
    for k := 0 to |cs|
      invariant TrialInv(g.adjList, minseps, newMinseps, x, K, out', tried', tested')
      invariant out <= out' && tried <= tried'
      invariant TriedComponents(g.adjList, minsep, minsep2, cs, k, tried')
    {
      ghost var triedBefore := tried';
      ghost var outBefore := out';
      assert |cs[k]| > 0 && Elems(cs[k]) == Comp(g.adjList, Elems(minsep), cs[k][0]);
      out', tried', tested' := TryComponent(g, minseps, newMinseps, x, K, minsep, minsep2, cs[k], out', tried', tested');
      assert out <= out' by {
        assert out' [..|outBefore|] == outBefore;
      }
      TriedComponentsGrow(g.adjList, minsep, minsep2, cs, k, triedBefore, tried');
    }
  }

  lemma {:induction false} TriedComponentsGrow(adj: Adj, minsep: seq<int>, minsep2: seq<int>, cs: seq<seq<int>>, k: int,
                            tried: set<seq<int>>, tried': set<seq<int>>)
    requires 0 <= k < |cs| && |cs[k]| > 0 && tried <= tried'
    requires TriedComponents(adj, minsep, minsep2, cs, k, tried)
    requires Proper(adj, minsep, minsep2, cs[k][0]) ==> CandidateOf(adj, minsep, minsep2, cs[k][0]) in tried'
    ensures TriedComponents(adj, minsep, minsep2, cs, k + 1, tried')
  {
  }

  /** Every pair of a new separator and a listed component has tried its
      candidate. */
  ghost predicate TriedPairs(adj: Adj, minsep: seq<int>, newMinseps: seq<seq<int>>, cs: seq<seq<int>>, m2: int,
                             tried: set<seq<int>>) {
    forall j | 0 <= j < m2 && j < |newMinseps| :: TriedComponents(adj, minsep, newMinseps[j], cs, |cs|, tried)
  }

  /** The candidates of minsep with every new separator and every component
      of G - minsep. */
  method TryCandidates(g: Graph, ghost minseps: seq<seq<int>>, newMinseps: seq<seq<int>>, x: int,
                       ghost K: seq<seq<int>>, minsep: seq<int>, cs: seq<seq<int>>,
                       out: seq<seq<int>>, tried: set<seq<int>>, ghost tested: seq<seq<int>>)
    returns (out': seq<seq<int>>, tried': set<seq<int>>, ghost tested': seq<seq<int>>)
    requires g.Valid() && SeparatorsIn(newMinseps, g.n)
    requires TrialInv(g.adjList, minseps, newMinseps, x, K, out, tried, tested)
    requires minsep in newMinseps && x !in minsep
    requires Merged(minseps, newMinseps) ==> minsep !in minseps
    requires ComponentList(g.adjList, Elems(minsep), cs)
    ensures TrialInv(g.adjList, minseps, newMinseps, x, K, out', tried', tested')
    ensures out <= out' && tried <= tried'
    ensures TriedPairs(g.adjList, minsep, newMinseps, cs, |newMinseps|, tried')
  {
    out', tried', tested' := out, tried, tested;
    for m2 := 0 to |newMinseps|
      invariant TrialInv(g.adjList, minseps, newMinseps, x, K, out', tried', tested')
      invariant out <= out' && tried <= tried'
      invariant TriedPairs(g.adjList, minsep, newMinseps, cs, m2, tried')
    {
      ghost var triedBefore := tried';
      ghost var outBefore := out';
      out', tried', tested' := TryComponents(g, minseps, newMinseps, x, K, minsep, newMinseps[m2], cs, out', tried', tested');
      assert out <= out' by {
        assert out' [..|outBefore|] == outBefore;
      }
      TriedPairsGrow(g.adjList, minsep, newMinseps, cs, m2, triedBefore, tried');
    }
  }

  lemma {:induction false} TriedPairsGrow(adj: Adj, minsep: seq<int>, newMinseps: seq<seq<int>>, cs: seq<seq<int>>, m2: int,
                       tried: set<seq<int>>, tried': set<seq<int>>)
    requires 0 <= m2 < |newMinseps| && tried <= tried'
    requires TriedPairs(adj, minsep, newMinseps, cs, m2, tried)
    requires TriedComponents(adj, minsep, newMinseps[m2], cs, |cs|, tried')
    ensures TriedPairs(adj, minsep, newMinseps, cs, m2 + 1, tried')
  {
    forall j | 0 <= j < m2 + 1 && j < |newMinseps| ensures TriedComponents(adj, minsep, newMinseps[j], cs, |cs|, tried') {
      if j < m2 {
        TriedComponentsMono(adj, minsep, newMinseps[j], cs, |cs|, tried, tried');
      }
    }
  }

  lemma {:induction false} TriedComponentsMono(adj: Adj, minsep: seq<int>, minsep2: seq<int>, cs: seq<seq<int>>, k: int,
                            tried: set<seq<int>>, tried': set<seq<int>>)
    requires tried <= tried' && TriedComponents(adj, minsep, minsep2, cs, k, tried)
    ensures TriedComponents(adj, minsep, minsep2, cs, k, tried')
  {
  }

  /** Trying every listed component tries every component: each candidate
      of minsep with a new separator and any component of G - minsep. */
  ghost predicate TriedAll(adj: Adj, s: seq<int>, newMinseps: seq<seq<int>>, tried: set<seq<int>>) {
    forall s2, r | s2 in newMinseps && r in Allowed(adj, Elems(s)) && Proper(adj, s, s2, r) ::
      CandidateOf(adj, s, s2, r) in tried
  }

  lemma {:induction false} TriedEveryComponent(adj: Adj, minsep: seq<int>, newMinseps: seq<seq<int>>, cs: seq<seq<int>>,
                            tried: set<seq<int>>)
    requires WellFormed(adj) && ComponentList(adj, Elems(minsep), cs)
    requires forall v | 0 <= v < |adj| && v !in minsep :: exists k | 0 <= k < |cs| :: v in cs[k]
    requires TriedPairs(adj, minsep, newMinseps, cs, |newMinseps|, tried)
    ensures TriedAll(adj, minsep, newMinseps, tried)
  {
    forall s2, r | s2 in newMinseps && r in Allowed(adj, Elems(minsep)) && Proper(adj, minsep, s2, r)
      ensures CandidateOf(adj, minsep, s2, r) in tried
    {
      var j :| 0 <= j < |newMinseps| && newMinseps[j] == s2;
      var k :| 0 <= k < |cs| && r in cs[k];
      assert r in Comp(adj, Elems(minsep), cs[k][0]);
      CompSame(adj, Elems(minsep), cs[k][0], r);
      assert TriedComponents(adj, minsep, s2, cs, |cs|, tried);
    }
  }

  // ---------------------------------------------------------------------
  // OneMoreVertex

  /** Appends minsep + [x] when x extends minsep, and takes it back off when
      it has a full component. */
  method GrowStep(g: Graph, minsep: seq<int>, x: int, out: seq<seq<int>>) returns (out': seq<seq<int>>)
    requires g.Valid() && Below(minsep, g.n) && 0 <= x < g.n && x !in minsep
    ensures out' == if GrowsAt(g.adjList, minsep, x) then out + [minsep + [x]] else out
  {
    out' := out;
    var ext := Extend2(g, minsep, x);
    if ext {
      out' := out' + [minsep + [x]];
      var full := FullComponentExists(g, out'[|out'| - 1]);
      if full {
        out' := out'[..|out'| - 1];
      }
    }
  }

  lemma {:induction false} TrialGrow(adj: Adj, minseps: seq<seq<int>>, newMinseps: seq<seq<int>>, x: int, K: seq<seq<int>>,
                  out: seq<seq<int>>, tried: set<seq<int>>, tested: seq<seq<int>>, s: seq<int>)
    requires TrialInv(adj, minseps, newMinseps, x, K, out, tried, tested)
    requires s in newMinseps && GrowsAt(adj, s, x)
    ensures TrialInv(adj, minseps, newMinseps, x, K, out + [s + [x]], tried, tested)
  {
    var out' := out + [s + [x]];
    assert out'[..|K|] == K by {
      assert out'[..|out|] == out;
    }
    assert out'[|K|..] == out[|K|..] + [s + [x]];
  }

  /** G - S has at most one component. */
  ghost predicate AtMostOneComponent(adj: Adj, S: set<int>) {
    forall r1, r2 | r1 in Allowed(adj, S) && r2 in Allowed(adj, S) :: Comp(adj, S, r1) == Comp(adj, S, r2)
  }

  lemma {:induction false} FewComponents(adj: Adj, minsep: seq<int>, cs: seq<seq<int>>)
    requires WellFormed(adj) && ComponentList(adj, Elems(minsep), cs) && |cs| < 2
    requires forall v | 0 <= v < |adj| && v !in minsep :: exists k | 0 <= k < |cs| :: v in cs[k]
    ensures AtMostOneComponent(adj, Elems(minsep))
  {
    var S := Elems(minsep);
    forall r1, r2 | r1 in Allowed(adj, S) && r2 in Allowed(adj, S) ensures Comp(adj, S, r1) == Comp(adj, S, r2) {
      assert r1 in cs[0] && r2 in cs[0];
      CompSame(adj, S, cs[0][0], r1);
      CompSame(adj, S, cs[0][0], r2);
    }
  }

  /** The body of the second loop for new separator m: skip it when it
      contains x; grow it by x; skip it when it is an old separator;
      otherwise try its candidates. Aborts when G - minsep has fewer than
      two components. */
  method ExpandSeparator(g: Graph, minseps: seq<seq<int>>, newMinseps: seq<seq<int>>, x: int, ghost K: seq<seq<int>>,
                         m: int, i2: int, out: seq<seq<int>>, tried: set<seq<int>>, ghost tested: seq<seq<int>>)
    returns (r: Outcome<()>, i2': int, out': seq<seq<int>>, tried': set<seq<int>>, ghost tested': seq<seq<int>>)
    requires g.Valid() && 0 <= x < g.n && SeparatorsIn(newMinseps, g.n) && 0 <= m < |newMinseps|
    requires PointerInv(minseps, newMinseps, m, i2)
    requires TrialInv(g.adjList, minseps, newMinseps, x, K, out, tried, tested)
    ensures r.Done? ==>
      PointerInv(minseps, newMinseps, m + 1, i2') &&
      TrialInv(g.adjList, minseps, newMinseps, x, K, out', tried', tested') &&
      out <= out' && tried <= tried' &&
      (GrowsAt(g.adjList, newMinseps[m], x) ==> newMinseps[m] + [x] in out') &&
      (x !in newMinseps[m] && newMinseps[m] !in minseps ==> TriedAll(g.adjList, newMinseps[m], newMinseps, tried'))
    ensures r.Abort? ==> x !in newMinseps[m] && AtMostOneComponent(g.adjList, Elems(newMinseps[m]))
  {
    i2', out', tried', tested' := i2, out, tried, tested;
    var minsep := newMinseps[m];
    if x in minsep {
      PointerSkip(minseps, newMinseps, m, i2);
      return Done(()), i2', out', tried', tested';
    }
    out' := GrowStep(g, minsep, x, out);
    if GrowsAt(g.adjList, minsep, x) {
      TrialGrow(g.adjList, minseps, newMinseps, x, K, out, tried, tested, minsep);
    }
    assert out <= out';
    i2' := Advance(minseps, minsep, i2);
    PointerFound(minseps, newMinseps, m, i2, i2');
    if i2' < |minseps| && minseps[i2'] == minsep {
      return Done(()), i2', out', tried', tested';
    }
    var cs := g.Components(minsep);
    if |cs| < 2 {
      FewComponents(g.adjList, minsep, cs);
      return Abort, i2', out', tried', tested';
    }
    ghost var outGrown := out';
    out', tried', tested' := TryCandidates(g, minseps, newMinseps, x, K, minsep, cs, out', tried', tested');
    TriedEveryComponent(g.adjList, minsep, newMinseps, cs, tried');
    assert out <= out' by {
      assert out'[..|outGrown|] == outGrown;
      assert outGrown[..|out|] == out;
    }
    r := Done(());
  }

  /** Every new separator before m that x grows has its grown copy in out. */
  ghost predicate GrownUpTo(adj: Adj, newMinseps: seq<seq<int>>, x: int, m: int, out: seq<seq<int>>) {
    forall j | 0 <= j < m && j < |newMinseps| :: GrowsAt(adj, newMinseps[j], x) ==> newMinseps[j] + [x] in out
  }

  /** Every new separator before m that is not old and avoids x has tried all
      its candidates. */
  ghost predicate TriedUpTo(adj: Adj, minseps: seq<seq<int>>, newMinseps: seq<seq<int>>, x: int, m: int,
                            tried: set<seq<int>>) {
    forall j | 0 <= j < m && j < |newMinseps| && x !in newMinseps[j] && newMinseps[j] !in minseps ::
      TriedAll(adj, newMinseps[j], newMinseps, tried)
  }

  lemma {:induction false} GrownStep(adj: Adj, newMinseps: seq<seq<int>>, x: int, m: int, out: seq<seq<int>>, out': seq<seq<int>>)
    requires 0 <= m < |newMinseps| && out <= out' && GrownUpTo(adj, newMinseps, x, m, out)
    requires GrowsAt(adj, newMinseps[m], x) ==> newMinseps[m] + [x] in out'
    ensures GrownUpTo(adj, newMinseps, x, m + 1, out')
  {
    forall j | 0 <= j < m && GrowsAt(adj, newMinseps[j], x) ensures newMinseps[j] + [x] in out' {
      var q := newMinseps[j] + [x];
      var i :| 0 <= i < |out| && out[i] == q;
      assert out'[i] == q;
    }
  }

  lemma {:induction false} TriedStep(adj: Adj, minseps: seq<seq<int>>, newMinseps: seq<seq<int>>, x: int, m: int,
                  tried: set<seq<int>>, tried': set<seq<int>>)
    requires 0 <= m < |newMinseps| && tried <= tried' && TriedUpTo(adj, minseps, newMinseps, x, m, tried)
    requires x !in newMinseps[m] && newMinseps[m] !in minseps ==> TriedAll(adj, newMinseps[m], newMinseps, tried')
    ensures TriedUpTo(adj, minseps, newMinseps, x, m + 1, tried')
  {
    forall j | 0 <= j < m && x !in newMinseps[j] && newMinseps[j] !in minseps
      ensures TriedAll(adj, newMinseps[j], newMinseps, tried')
    {
      TriedAllMono(adj, newMinseps[j], newMinseps, tried, tried');
    }
  }

  lemma {:induction false} TriedAllMono(adj: Adj, s: seq<int>, newMinseps: seq<seq<int>>, tried: set<seq<int>>, tried': set<seq<int>>)
    requires TriedAll(adj, s, newMinseps, tried) && tried <= tried'
    ensures TriedAll(adj, s, newMinseps, tried')
  {
  }

  /** The potential maximal cliques of the graph grown by x, from those of
      the graph before (pmcs), its minimal separators (minseps) and those of
      the grown graph (newMinseps). The result starts with the old cliques
      that survive; after them come only new separators grown by x and
      candidates that passed IsPmc. Every new separator that x grows is
      there grown, every candidate of every new separator that avoids x and
      is not old was tested, none twice, and every tested candidate that
      passed is in the result. The run aborts only when some new separator
      avoiding x leaves fewer than two components. */
  method OneMoreVertex(g: Graph, pmcs: seq<seq<int>>, minseps: seq<seq<int>>, newMinseps: seq<seq<int>>, x: int)
    returns (r: Outcome<seq<seq<int>>>, ghost tested: seq<seq<int>>)
    requires g.Valid() && 0 <= x < g.n
    requires forall k | 0 <= k < |pmcs| :: Below(pmcs[k], g.n) && x !in pmcs[k]
    requires SeparatorsIn(newMinseps, g.n)
    ensures r.Done? ==>
      var K := Kept(g.adjList, pmcs, x);
      |r.value| >= |K| && r.value[..|K|] == K &&
      (forall q | q in r.value[|K|..] :: Grown(g.adjList, newMinseps, x, q) || (q in tested && PassesTest(g.adjList, q))) &&
      (forall q | q in tested :: Candidate(g.adjList, minseps, newMinseps, x, q)) &&
      (forall q | q in tested && PassesTest(g.adjList, q) :: q in r.value) &&
      Distinct(tested) &&
      (forall s | s in newMinseps && GrowsAt(g.adjList, s, x) :: s + [x] in r.value) &&
      (forall s, s2, c | s in newMinseps && s2 in newMinseps && x !in s && s !in minseps &&
                         c in Allowed(g.adjList, Elems(s)) && Proper(g.adjList, s, s2, c) ::
         CandidateOf(g.adjList, s, s2, c) in tested)
    ensures r.Abort? ==> exists s | s in newMinseps :: x !in s && AtMostOneComponent(g.adjList, Elems(s))
  {
    var out := KeepOld(g, pmcs, x);
    ghost var K := out;
    var i2 := 0;
    var tried: set<seq<int>> := {};
    tested := [];
    for m := 0 to |newMinseps|
      invariant PointerInv(minseps, newMinseps, m, i2)
      invariant TrialInv(g.adjList, minseps, newMinseps, x, K, out, tried, tested)
      invariant GrownUpTo(g.adjList, newMinseps, x, m, out)
      invariant TriedUpTo(g.adjList, minseps, newMinseps, x, m, tried)
    {
      ghost var outBefore, triedBefore := out, tried;
      var rm;
      rm, i2, out, tried, tested := ExpandSeparator(g, minseps, newMinseps, x, K, m, i2, out, tried, tested);
      if rm.Abort? {
        return Abort, tested;
      }
      GrownStep(g.adjList, newMinseps, x, m, outBefore, out);
      TriedStep(g.adjList, minseps, newMinseps, x, m, triedBefore, tried);
    }
    OneMoreVertexDone(g.adjList, minseps, newMinseps, x, K, out, tried, tested);
    r := Done(out);
  }

  lemma {:induction false} OneMoreVertexDone(adj: Adj, minseps: seq<seq<int>>, newMinseps: seq<seq<int>>, x: int, K: seq<seq<int>>,
                          out: seq<seq<int>>, tried: set<seq<int>>, tested: seq<seq<int>>)
    requires TrialInv(adj, minseps, newMinseps, x, K, out, tried, tested)
    requires GrownUpTo(adj, newMinseps, x, |newMinseps|, out)
    requires TriedUpTo(adj, minseps, newMinseps, x, |newMinseps|, tried)
    ensures forall s | s in newMinseps && GrowsAt(adj, s, x) :: s + [x] in out
    ensures forall s, s2, c | s in newMinseps && s2 in newMinseps && x !in s && s !in minseps &&
                              c in Allowed(adj, Elems(s)) && Proper(adj, s, s2, c) ::
      CandidateOf(adj, s, s2, c) in tested
  {
    forall s, s2, c | s in newMinseps && s2 in newMinseps && x !in s && s !in minseps &&
                      c in Allowed(adj, Elems(s)) && Proper(adj, s, s2, c)
      ensures CandidateOf(adj, s, s2, c) in tested
    {
      var j :| 0 <= j < |newMinseps| && newMinseps[j] == s;
      assert TriedAll(adj, s, newMinseps, tried);
    }
  }

  // ---------------------------------------------------------------------
  // FindMinSeps

  /** The strictly increasing lists of vertices below n. */
  ghost function Lists(n: nat): set<seq<int>> {
    if n == 0 then {[]} else Lists(n - 1) + Appended(Lists(n - 1), n - 1)
  }

  ghost function Appended(L: set<seq<int>>, v: int): set<seq<int>> {
    set s | s in L :: Snoc(s, v)
  }

  function Snoc(s: seq<int>, v: int): seq<int> {
    s + [v]
  }

  lemma {:induction false} InLists(s: seq<int>, n: nat)
    requires StrictlyIncreasing(s) && Below(s, n)
    ensures s in Lists(n)
    decreases n
  {
    if n > 0 {
      if |s| > 0 && s[|s| - 1] == n - 1 {
        var p := s[..|s| - 1];
        assert Below(p, n - 1) by {
          forall k | 0 <= k < |p| ensures 0 <= p[k] < n - 1 {
            assert p[k] == s[k] < s[|s| - 1];
          }
        }
        InLists(p, n - 1);
        assert s == Snoc(p, n - 1);
      } else {
        assert Below(s, n - 1) by {
          forall k | 0 <= k < |s| ensures 0 <= s[k] < n - 1 {
            if k < |s| - 1 {
              assert s[k] < s[|s| - 1];
            }
          }
        }
        InLists(s, n - 1);
      }
    }
  }

  lemma {:induction false} CardDrop(L: set<seq<int>>, ff: set<seq<int>>, ff': set<seq<int>>)
    requires ff <= ff' <= L && ff != ff'
    ensures |L - ff'| < |L - ff|
  {
    var y :| y in ff' && y !in ff;
    var A, B := L - ff', (L - ff) - {y};
    assert A <= B;
    assert B == A + (B - A);
    assert |B| == |A| + |B - A|;
    assert |B| < |L - ff|;
  }

  /** The vertex set of s is the neighbourhood of a component of G - B for
      some B. */
  ghost predicate IsCompNbh(adj: Adj, s: seq<int>) {
    exists B: set<int>, r | r in Allowed(adj, B) :: Elems(s) == Nbh(adj, Comp(adj, B, r))
  }

  /** Some entry of L has the vertex set A. */
  ghost predicate Listed(L: seq<seq<int>>, A: set<int>) {
    exists t | t in L :: Elems(t) == A
  }

  /** The separators found so far: increasing lists of vertices, each the
      neighbourhood of a component and a minimal separator, pairwise
      distinct, and ff holds exactly them. */
  ghost predicate SepInv(adj: Adj, minseps: seq<seq<int>>, ff: set<seq<int>>) {
    (forall k | 0 <= k < |minseps| ::
      StrictlyIncreasing(minseps[k]) && Below(minseps[k], |adj|) && IsCompNbh(adj, minseps[k]) &&
      IsMinimalSeparator(adj, Elems(minseps[k]))) &&
    Distinct(minseps) &&
    (forall q :: q in ff <==> q in minseps)
  }

  /** The neighbourhood of every component of G - B is a minimal
      separator. */
  ghost predicate MinimalBlock(adj: Adj, B: set<int>) {
    forall r | r in Allowed(adj, B) :: IsMinimalSeparator(adj, Nbh(adj, Comp(adj, B, r)))
  }

  /** Every component of G - B has its neighbourhood listed. */
  ghost predicate AllListed(adj: Adj, B: set<int>, L: seq<seq<int>>) {
    forall r | r in Allowed(adj, B) :: Listed(L, Nbh(adj, Comp(adj, B, r)))
  }

  /** The neighbourhoods of the components of G - block, each appended when
      not seen before. */
  method AddSeparators(g: Graph, block: seq<int>, minseps: seq<seq<int>>, ff: set<seq<int>>)
    returns (minseps': seq<seq<int>>, ff': set<seq<int>>)
    requires g.Valid() && Below(block, g.n) && SepInv(g.adjList, minseps, ff)
    requires MinimalBlock(g.adjList, Elems(block))
    ensures SepInv(g.adjList, minseps', ff') && minseps <= minseps' && ff <= ff'
    ensures ff' == ff ==> minseps' == minseps
    ensures AllListed(g.adjList, Elems(block), minseps')
  {
    var cs := g.Components(block);
    minseps', ff' := minseps, ff;
    for k := 0 to |cs|
      invariant SepInv(g.adjList, minseps', ff') && minseps <= minseps' && ff <= ff'
      invariant ff' == ff ==> minseps' == minseps
      invariant forall l | 0 <= l < k :: Listed(minseps', Nbh(g.adjList, Elems(cs[l])))
    {
      ComponentBelow(g.adjList, Elems(block), cs, k);
      var nbs := g.Neighbors(cs[k]);
      NbhBelow(g.adjList, nbs, Elems(cs[k]));
      ghost var before := minseps';
      if nbs !in ff' {
        minseps', ff' := minseps' + [nbs], ff' + {nbs};
        SepAdd(g.adjList, before, ff' - {nbs}, nbs, Elems(block), cs[k][0]);
      }
      assert nbs in minseps';
      ListedGrow(before, minseps', g.adjList, cs, k);
    }
    EveryComponentListed(g.adjList, Elems(block), cs, minseps');
  }

  lemma {:induction false} ComponentBelow(adj: Adj, B: set<int>, cs: seq<seq<int>>, k: int)
    requires ComponentList(adj, B, cs) && 0 <= k < |cs|
    ensures Below(cs[k], |adj|) && cs[k][0] in Allowed(adj, B)
    ensures Elems(cs[k]) == Comp(adj, B, cs[k][0])
  {
    forall j | 0 <= j < |cs[k]| ensures 0 <= cs[k][j] < |adj| {
      CompMember(adj, B, cs[k][0], cs[k][j]);
    }
    CompMember(adj, B, cs[k][0], cs[k][0]);
  }

  lemma {:induction false} NbhBelow(adj: Adj, s: seq<int>, C: set<int>)
    requires Elems(s) == Nbh(adj, C)
    ensures Below(s, |adj|)
  {
    forall i | 0 <= i < |s| ensures 0 <= s[i] < |adj| {
      assert s[i] in Elems(s);
    }
  }

  lemma {:induction false} SepAdd(adj: Adj, minseps: seq<seq<int>>, ff: set<seq<int>>, nbs: seq<int>, B: set<int>, r: int)
    requires SepInv(adj, minseps, ff) && nbs !in ff
    requires StrictlyIncreasing(nbs) && Below(nbs, |adj|)
    requires r in Allowed(adj, B) && Elems(nbs) == Nbh(adj, Comp(adj, B, r)) && MinimalBlock(adj, B)
    ensures SepInv(adj, minseps + [nbs], ff + {nbs})
  {
    assert IsCompNbh(adj, nbs);
    assert IsMinimalSeparator(adj, Elems(nbs));
  }

  /** The block N[v] of a seed gives minimal separators. */
  lemma {:induction false} SeedBlock(adj: Adj, v: int)
    requires WellFormed(adj) && 0 <= v < |adj|
    ensures MinimalBlock(adj, Elems(adj[v] + [v]))
  {
    var B := Elems(adj[v] + [v]);
    assert B == Elems(adj[v]) + {v};
    forall r | r in Allowed(adj, B) ensures IsMinimalSeparator(adj, Nbh(adj, Comp(adj, B, r))) {
      SeedIsMinimal(adj, v, B, r);
    }
  }

  /** The block S + N(x) of the closure step, for a minimal separator S and
      x in S, gives minimal separators. */
  lemma {:induction false} CloseBlock(adj: Adj, s: seq<int>, x: int)
    requires WellFormed(adj) && IsMinimalSeparator(adj, Elems(s)) && x in s && 0 <= x < |adj|
    ensures MinimalBlock(adj, Elems(s + adj[x]))
  {
    var B := Elems(s + adj[x]);
    assert B == Elems(s) + Elems(adj[x]);
    forall r | r in Allowed(adj, B) ensures IsMinimalSeparator(adj, Nbh(adj, Comp(adj, B, r))) {
      CloseIsMinimal(adj, Elems(s), x, B, r);
    }
  }

  lemma {:induction false} ListedGrow(L: seq<seq<int>>, L': seq<seq<int>>, adj: Adj, cs: seq<seq<int>>, k: int)
    requires L <= L' && 0 <= k < |cs|
    requires forall l | 0 <= l < k :: Listed(L, Nbh(adj, Elems(cs[l])))
    requires exists t | t in L' :: Elems(t) == Nbh(adj, Elems(cs[k]))
    ensures forall l | 0 <= l < k + 1 :: Listed(L', Nbh(adj, Elems(cs[l])))
  {
    forall l | 0 <= l < k ensures Listed(L', Nbh(adj, Elems(cs[l]))) {
      var t :| t in L && Elems(t) == Nbh(adj, Elems(cs[l]));
      var i :| 0 <= i < |L| && L[i] == t;
      assert L'[i] == t;
    }
  }

  lemma {:induction false} EveryComponentListed(adj: Adj, B: set<int>, cs: seq<seq<int>>, L: seq<seq<int>>)
    requires WellFormed(adj) && ComponentList(adj, B, cs)
    requires forall x | 0 <= x < |adj| && x !in B :: exists k | 0 <= k < |cs| :: x in cs[k]
    requires forall l | 0 <= l < |cs| :: Listed(L, Nbh(adj, Elems(cs[l])))
    ensures AllListed(adj, B, L)
  {
    forall r | r in Allowed(adj, B) ensures Listed(L, Nbh(adj, Comp(adj, B, r))) {
      var k :| 0 <= k < |cs| && r in cs[k];
      CompSame(adj, B, cs[k][0], r);
      assert Listed(L, Nbh(adj, Elems(cs[k])));
    }
  }

  lemma {:induction false} ListedMono(L: seq<seq<int>>, L': seq<seq<int>>, A: set<int>)
    requires L <= L' && Listed(L, A)
    ensures Listed(L', A)
  {
    var t :| t in L && Elems(t) == A;
    var i :| 0 <= i < |L| && L[i] == t;
    assert L'[i] == t;
  }

  lemma {:induction false} AllListedMono(adj: Adj, B: set<int>, L: seq<seq<int>>, L': seq<seq<int>>)
    requires L <= L' && AllListed(adj, B, L)
    ensures AllListed(adj, B, L')
  {
    forall r | r in Allowed(adj, B) ensures Listed(L', Nbh(adj, Comp(adj, B, r))) {
      ListedMono(L, L', Nbh(adj, Comp(adj, B, r)));
    }
  }

  /** For every vertex v up to i with a neighbour, the components of
      G - N[v] have their neighbourhoods listed. */
  ghost predicate SeedsListed(adj: Adj, i: int, L: seq<seq<int>>) {
    forall v | 0 <= v < i && v < |adj| && |adj[v]| > 0 :: AllListed(adj, Elems(adj[v] + [v]), L)
  }

  /** For every x in s, the components of G - (s + N(x)) have their
      neighbourhoods listed. */
  ghost predicate ClosedAt(adj: Adj, s: seq<int>, L: seq<seq<int>>) {
    forall x | x in s && 0 <= x < |adj| :: AllListed(adj, Elems(s + adj[x]), L)
  }

  lemma {:induction false} SeedsMono(adj: Adj, i: int, L: seq<seq<int>>, L': seq<seq<int>>)
    requires L <= L' && SeedsListed(adj, i, L)
    ensures SeedsListed(adj, i, L')
  {
    forall v | 0 <= v < i && v < |adj| && |adj[v]| > 0 ensures AllListed(adj, Elems(adj[v] + [v]), L') {
      AllListedMono(adj, Elems(adj[v] + [v]), L, L');
    }
  }

  lemma {:induction false} SepsInLists(adj: Adj, minseps: seq<seq<int>>, ff: set<seq<int>>)
    requires SepInv(adj, minseps, ff)
    ensures ff <= Lists(|adj|)
  {
    forall q | q in ff ensures q in Lists(|adj|) {
      var k :| 0 <= k < |minseps| && minseps[k] == q;
      InLists(q, |adj|);
    }
  }

  /** Sorting a list without repeats keeps its length. */
  lemma {:induction false} SortedLength(s: seq<seq<int>>, r: seq<seq<int>>)
    requires Distinct(s) && StrictlySorted(r, LexLess) && (forall y :: y in r <==> y in s)
    ensures |r| == |s|
  {
    LexLessOrder();
    assert Distinct(r);
    DistinctCard(s);
    DistinctCard(r);
    assert (set x | x in s) == (set x | x in r);
  }

  /** Closes the first entry of the list not closed yet: the separators
      reachable from minseps[i] through each of its vertices. */
  method CloseSeparator(g: Graph, minseps: seq<seq<int>>, ff: set<seq<int>>, i: int)
    returns (minseps': seq<seq<int>>, ff': set<seq<int>>)
    requires g.Valid() && SepInv(g.adjList, minseps, ff) && 0 <= i < |minseps|
    ensures SepInv(g.adjList, minseps', ff') && minseps <= minseps' && ff <= ff'
    ensures ff' == ff ==> minseps' == minseps
    ensures ClosedAt(g.adjList, minseps[i], minseps')
  {
    var minsep := minseps[i];
    minseps', ff' := minseps, ff;
    for t := 0 to |minsep|
      invariant SepInv(g.adjList, minseps', ff') && minseps <= minseps' && ff <= ff'
      invariant ff' == ff ==> minseps' == minseps
      invariant ClosedUpTo(g.adjList, minsep, t, minseps')
    {
      var x := minsep[t];
      var block := minsep + g.adjList[x];
      assert Below(g.adjList[x], g.n);
      CloseBlock(g.adjList, minsep, x);
      ghost var before := minseps';
      minseps', ff' := AddSeparators(g, block, minseps', ff');
      ClosedUpToStep(g.adjList, minsep, t, before, minseps');
    }
    ClosedUpToAll(g.adjList, minsep, minseps');
  }

  /** The first t vertices of s have been tried. */
  ghost predicate ClosedUpTo(adj: Adj, s: seq<int>, t: int, L: seq<seq<int>>) {
    forall k | 0 <= k < t && k < |s| && 0 <= s[k] < |adj| :: AllListed(adj, Elems(s + adj[s[k]]), L)
  }

  lemma {:induction false} ClosedUpToStep(adj: Adj, s: seq<int>, t: int, L: seq<seq<int>>, L': seq<seq<int>>)
    requires 0 <= t < |s| && 0 <= s[t] < |adj| && L <= L'
    requires ClosedUpTo(adj, s, t, L) && AllListed(adj, Elems(s + adj[s[t]]), L')
    ensures ClosedUpTo(adj, s, t + 1, L')
  {
    forall k | 0 <= k < t && 0 <= s[k] < |adj| ensures AllListed(adj, Elems(s + adj[s[k]]), L') {
      AllListedMono(adj, Elems(s + adj[s[k]]), L, L');
    }
  }

  lemma {:induction false} ClosedUpToAll(adj: Adj, s: seq<int>, L: seq<seq<int>>)
    requires ClosedUpTo(adj, s, |s|, L)
    ensures ClosedAt(adj, s, L)
  {
    forall x | x in s && 0 <= x < |adj| ensures AllListed(adj, Elems(s + adj[x]), L) {
      var k :| 0 <= k < |s| && s[k] == x;
    }
  }

  /** The separators found from every vertex with a neighbour: those of
      the components of G - N[v]. */
  method SeedSeparators(g: Graph) returns (minseps: seq<seq<int>>, ff: set<seq<int>>)
    requires g.Valid()
    ensures SepInv(g.adjList, minseps, ff) && SeedsListed(g.adjList, g.n, minseps)
  {
    minseps, ff := [], {};
    for i := 0 to g.n
      invariant SepInv(g.adjList, minseps, ff) && SeedsListed(g.adjList, i, minseps)
    {
      if |g.adjList[i]| == 0 {
        continue;
      }
      var block := g.adjList[i] + [i];
      assert Below(g.adjList[i], g.n);
      SeedBlock(g.adjList, i);
      ghost var before := minseps;
      minseps, ff := AddSeparators(g, block, minseps, ff);
      SeedsMono(g.adjList, i, before, minseps);
    }
  }

  /** The separators of g found by closing the seeds under the step from a
      separator S and one of its vertices x to the neighbourhoods of the
      components of G - (S + N(x)), lexicographically sorted. Closing stops
      once ub != -1 entries are found; the list is then complete only up to
      that point. */
  method FindMinSeps(g: Graph, ub: int) returns (r: seq<seq<int>>)
    requires g.Valid()
    ensures StrictlySorted(r, LexLess)
    ensures forall k | 0 <= k < |r| ::
      StrictlyIncreasing(r[k]) && Below(r[k], g.n) && IsCompNbh(g.adjList, r[k]) &&
      IsMinimalSeparator(g.adjList, Elems(r[k]))
    ensures SeedsListed(g.adjList, g.n, r)
    ensures ub == -1 || |r| < ub ==> forall s | s in r :: ClosedAt(g.adjList, s, r)
  {
    var minseps, ff := SeedSeparators(g);
    var i := 0;
    while i < |minseps| && !(ub != -1 && |minseps| >= ub)
      invariant CloseInv(g.adjList, minseps, ff, i)
      decreases |Lists(g.n) - ff|, |minseps| - i
    {
      ghost var (m0, f0) := (minseps, ff);
      minseps, ff := CloseSeparator(g, minseps, ff, i);
      CloseStep(g.adjList, m0, f0, minseps, ff, i);
      if ff != f0 {
        FewerUnseen(g.adjList, minseps, f0, ff);
      }
      i := i + 1;
    }
    LexLessOrder();
    r := SortAndDedup(minseps, LexLess);
    SortedLength(minseps, r);
    FoundSeparators(g.adjList, minseps, ff, r, i, ub);
  }

  /** The closing loop's invariant: the entries before i are closed. */
  ghost predicate CloseInv(adj: Adj, minseps: seq<seq<int>>, ff: set<seq<int>>, i: int) {
    SepInv(adj, minseps, ff) && SeedsListed(adj, |adj|, minseps) && 0 <= i <= |minseps| &&
    forall j | 0 <= j < i :: ClosedAt(adj, minseps[j], minseps)
  }

  lemma {:induction false} CloseStep(adj: Adj, m0: seq<seq<int>>, f0: set<seq<int>>, m1: seq<seq<int>>, f1: set<seq<int>>, i: int)
    requires CloseInv(adj, m0, f0, i) && i < |m0|
    requires SepInv(adj, m1, f1) && m0 <= m1
    requires ClosedAt(adj, m0[i], m1)
    ensures CloseInv(adj, m1, f1, i + 1)
  {
    SeedsMono(adj, |adj|, m0, m1);
    ClosedPrefixGrows(adj, m0, m1, i);
  }

  /** The entries closed in m0, and the entry i closed in m1, are closed in
      the extension m1. */
  lemma {:induction false} ClosedPrefixGrows(adj: Adj, m0: seq<seq<int>>, m1: seq<seq<int>>, i: int)
    requires m0 <= m1 && 0 <= i < |m0|
    requires forall j | 0 <= j < i :: ClosedAt(adj, m0[j], m0)
    requires ClosedAt(adj, m0[i], m1)
    ensures forall j | 0 <= j < i + 1 :: ClosedAt(adj, m1[j], m1)
  {
    forall j | 0 <= j < i + 1 ensures ClosedAt(adj, m1[j], m1) {
      assert m1[j] == m0[j];
      if j < i {
        ClosedAtMono(adj, m0[j], m0, m1);
      }
    }
  }

  lemma {:induction false} ClosedAtMono(adj: Adj, s: seq<int>, L: seq<seq<int>>, L': seq<seq<int>>)
    requires L <= L' && ClosedAt(adj, s, L)
    ensures ClosedAt(adj, s, L')
  {
    forall x | x in s && 0 <= x < |adj| ensures AllListed(adj, Elems(s + adj[x]), L') {
      AllListedMono(adj, Elems(s + adj[x]), L, L');
    }
  }

  /** Adding a separator not seen before leaves fewer lists unseen. */
  lemma {:induction false} FewerUnseen(adj: Adj, m1: seq<seq<int>>, f0: set<seq<int>>, f1: set<seq<int>>)
    requires SepInv(adj, m1, f1) && f0 <= f1 && f1 != f0
    ensures |Lists(|adj|) - f1| < |Lists(|adj|) - f0|
  {
    SepsInLists(adj, m1, f1);
    CardDrop(Lists(|adj|), f0, f1);
  }

  lemma {:induction false} FoundSeparators(adj: Adj, minseps: seq<seq<int>>, ff: set<seq<int>>, r: seq<seq<int>>, i: int, ub: int)
    requires CloseInv(adj, minseps, ff, i) && (forall y :: y in r <==> y in minseps) && |r| == |minseps|
    requires !(i < |minseps| && !(ub != -1 && |minseps| >= ub))
    ensures forall k | 0 <= k < |r| ::
      StrictlyIncreasing(r[k]) && Below(r[k], |adj|) && IsCompNbh(adj, r[k]) &&
      IsMinimalSeparator(adj, Elems(r[k]))
    ensures SeedsListed(adj, |adj|, r)
    ensures ub == -1 || |r| < ub ==> forall s | s in r :: ClosedAt(adj, s, r)
  {
    forall k | 0 <= k < |r|
      ensures StrictlyIncreasing(r[k]) && Below(r[k], |adj|) && IsCompNbh(adj, r[k]) &&
              IsMinimalSeparator(adj, Elems(r[k]))
    {
      assert r[k] in minseps;
    }
    forall A | Listed(minseps, A) ensures Listed(r, A) {
      var t :| t in minseps && Elems(t) == A;
      assert t in r;
    }
    if ub == -1 || |r| < ub {
      forall s | s in r ensures ClosedAt(adj, s, r) {
        var j :| 0 <= j < |minseps| && minseps[j] == s;
        assert ClosedAt(adj, s, minseps);
      }
    }
  }

  // ---------------------------------------------------------------------
  // Pmcs

  /** nadj holds exactly the edges of adj between vertices at positions at
      most i of the order whose inverse is ord. */
  ghost predicate PrefixGraph(adj: Adj, nadj: Adj, ord: seq<int>, i: int) {
    |nadj| == |adj| == |ord| &&
    forall a, b | 0 <= a < |adj| && 0 <= b < |adj| ::
      Adjacent(nadj, a, b) <==> Adjacent(adj, a, b) && ord[a] <= i && ord[b] <= i
  }

  /** The edges from x to its first k neighbours that come earlier in the
      order have been added to those between earlier vertices. */
  ghost predicate AddedUpTo(adj: Adj, nadj: Adj, ord: seq<int>, x: int, k: int) {
    |nadj| == |adj| == |ord| && 0 <= x < |adj| && 0 <= k <= |adj[x]| &&
    forall a, b | 0 <= a < |adj| && 0 <= b < |adj| ::
      Adjacent(nadj, a, b) <==> (Adjacent(adj, a, b) &&
        ((ord[a] < ord[x] && ord[b] < ord[x]) ||
         (a == x && b in adj[x][..k] && ord[b] < ord[x]) ||
         (b == x && a in adj[x][..k] && ord[a] < ord[x])))
  }

  lemma {:induction false} AddedStart(adj: Adj, nadj: Adj, ord: seq<int>, x: int)
    requires 0 <= x < |adj| == |ord| && PrefixGraph(adj, nadj, ord, ord[x] - 1)
    ensures AddedUpTo(adj, nadj, ord, x, 0)
  {
  }

  lemma {:induction false} AddedStep(adj: Adj, n0: Adj, n1: Adj, ord: seq<int>, x: int, k: int)
    requires WellFormed(adj) && AddedUpTo(adj, n0, ord, x, k) && k < |adj[x]| && |n1| == |adj|
    requires forall a, b | 0 <= a < |adj| && 0 <= b < |adj| ::
      Adjacent(n1, a, b) <==> (Adjacent(n0, a, b) ||
        (ord[adj[x][k]] < ord[x] && ((a == adj[x][k] && b == x) || (a == x && b == adj[x][k]))))
    ensures AddedUpTo(adj, n1, ord, x, k + 1)
  {
    var nx := adj[x][k];
    assert adj[x][..k + 1] == adj[x][..k] + [nx];
    assert Adjacent(adj, x, nx) && Adjacent(adj, nx, x);
  }

  lemma {:induction false} AddedEnd(adj: Adj, nadj: Adj, ord: seq<int>, x: int)
    requires WellFormed(adj) && IsPermutation(ord) && 0 <= x < |adj| == |ord|
    requires AddedUpTo(adj, nadj, ord, x, |adj[x]|)
    ensures PrefixGraph(adj, nadj, ord, ord[x])
  {
    assert adj[x][..|adj[x]|] == adj[x];
    forall a, b | 0 <= a < |adj| && 0 <= b < |adj| && Adjacent(adj, a, b) && ord[a] <= ord[x] && ord[b] <= ord[x]
      ensures Adjacent(nadj, a, b)
    {
      assert a != x ==> ord[a] != ord[x];
      assert b != x ==> ord[b] != ord[x];
      assert Adjacent(adj, b, a);
    }
  }

  /** Adds to ng the edges of g from x to the vertices before it in the
      order, so that ng becomes the graph of g on the order's prefix up to
      x. */
  method AddPrefixEdges(g: Graph, ng: Graph, ord: seq<int>, x: int)
    requires g.Valid() && ng.Valid() && ng != g && IsPermutation(ord) && 0 <= x < g.n == |ord|
    requires PrefixGraph(g.adjList, ng.adjList, ord, ord[x] - 1)
    modifies ng
    ensures ng.Valid() && ng.vertexMap == old(ng.vertexMap)
    ensures PrefixGraph(g.adjList, ng.adjList, ord, ord[x])
  {
    AddedStart(g.adjList, ng.adjList, ord, x);
    var nbs := g.adjList[x];
    for k := 0 to |nbs|
      invariant ng.Valid() && ng.vertexMap == old(ng.vertexMap)
      invariant AddedUpTo(g.adjList, ng.adjList, ord, x, k)
    {
      var nx := nbs[k];
      assert Below(nbs, g.n) && Adjacent(g.adjList, x, nx);
      ghost var before := ng.adjList;
      if ord[nx] < ord[x] {
        ng.AddEdge(nx, x);
      }
      AddedStep(g.adjList, before, ng.adjList, ord, x, k);
    }
    AddedEnd(g.adjList, ng.adjList, ord, x);
  }

  /** Every vertex of q lies at a position at most i of the order. */
  ghost predicate Settled(q: seq<int>, ord: seq<int>, i: int) {
    forall v | v in q :: 0 <= v < |ord| && ord[v] <= i
  }

  /** The vertices of a separator of the prefix graph have edges there, so
      they lie in the prefix. */
  lemma {:induction false} SeparatorSettled(adj: Adj, nadj: Adj, ord: seq<int>, i: int, s: seq<int>)
    requires PrefixGraph(adj, nadj, ord, i) && IsCompNbh(nadj, s)
    ensures Settled(s, ord, i)
  {
    var B, r :| r in Allowed(nadj, B) && Elems(s) == Nbh(nadj, Comp(nadj, B, r));
    forall v | v in s ensures 0 <= v < |ord| && ord[v] <= i {
      assert v in Nbh(nadj, Comp(nadj, B, r));
      var w :| w in Comp(nadj, B, r) && Adjacent(nadj, w, v);
    }
  }

  /** The cliques one step puts out: those kept, grown or tested. */
  ghost predicate StepOutput(adj: Adj, pmcs: seq<seq<int>>, minseps: seq<seq<int>>, newMinseps: seq<seq<int>>,
                             x: int, out: seq<seq<int>>, tested: seq<seq<int>>) {
    var K := Kept(adj, pmcs, x);
    |out| >= |K| && out[..|K|] == K &&
    (forall q | q in out[|K|..] :: Grown(adj, newMinseps, x, q) || (q in tested && PassesTest(adj, q))) &&
    (forall q | q in tested :: Candidate(adj, minseps, newMinseps, x, q))
  }

  /** Every clique the step puts out is made of earlier cliques, x and
      separators of the prefix graph, so it lies in the prefix up to x, and
      has no repeated vertex. */
  lemma {:induction false} StepSettled(adj: Adj, nadj: Adj, ord: seq<int>, pmcs: seq<seq<int>>, minseps: seq<seq<int>>,
                    newMinseps: seq<seq<int>>, x: int, out: seq<seq<int>>, tested: seq<seq<int>>)
    requires 0 <= x < |ord| && PrefixGraph(adj, nadj, ord, ord[x])
    requires forall p | p in pmcs :: StrictlyIncreasing(p) && Settled(p, ord, ord[x] - 1)
    requires forall s | s in newMinseps :: StrictlyIncreasing(s) && IsCompNbh(nadj, s)
    requires StepOutput(nadj, pmcs, minseps, newMinseps, x, out, tested)
    ensures forall q | q in out :: NoRepeats(q) && Settled(q, ord, ord[x])
  {
    var K := Kept(nadj, pmcs, x);
    KeptMembers(nadj, pmcs, x);
    forall q | q in out ensures NoRepeats(q) && Settled(q, ord, ord[x]) {
      var j :| 0 <= j < |out| && out[j] == q;
      if j < |K| {
        assert q == out[..|K|][j] && q in K;
        var p :| p in pmcs && ((q == p && !Full(nadj, p)) || (q == p + [x] && Full(nadj, p) && Extends(nadj, p, x)));
        assert x !in p;
      } else {
        assert q == out[|K|..][j - |K|];
        if Grown(nadj, newMinseps, x, q) {
          var s :| s in newMinseps && GrowsAt(nadj, s, x) && q == s + [x];
          SeparatorSettled(adj, nadj, ord, ord[x], s);
        } else {
          var s, s2, r :| s in newMinseps && s2 in newMinseps && x !in s &&
                          (Merged(minseps, newMinseps) ==> s !in minseps) &&
                          r in Allowed(nadj, Elems(s)) && Proper(nadj, s, s2, r) &&
                          q == CandidateOf(nadj, s, s2, r);
          SeparatorSettled(adj, nadj, ord, ord[x], s);
          SeparatorSettled(adj, nadj, ord, ord[x], s2);
        }
      }
    }
  }

  /** u and v are adjacent or share a component neighbourhood of G - P:
      the condition on each pair of a potential maximal clique. */
  ghost predicate PairCovered(adj: Adj, P: set<int>, u: int, v: int) {
    Adjacent(adj, u, v) ||
    exists r | r in Allowed(adj, P) :: u in Nbh(adj, Comp(adj, P, r)) && v in Nbh(adj, Comp(adj, P, r))
  }

  /** A set without full component whose pairs are covered is a potential
      maximal clique. */
  lemma {:induction false} CoveredIsPmc(adj: Adj, P: set<int>)
    requires !HasFullComponent(adj, P)
    requires forall u, v | u in P && v in P && u != v :: PairCovered(adj, P, u, v)
    ensures IsPotentialMaximalClique(adj, P)
  {
    forall u, v | u in P && v in P && u != v
      ensures Adjacent(adj, u, v) ||
        exists r | r in Allowed(adj, P) :: u in Nbh(adj, Comp(adj, P, r)) && v in Nbh(adj, Comp(adj, P, r))
    {
      assert PairCovered(adj, P, u, v);
    }
  }

  /** x and a member u of P that neighbours x's component of G - P are
      covered in P + x. */
  lemma {:induction false} NewVertexPair(adj: Adj, P: set<int>, x: int, u: int)
    requires WellFormed(adj) && 0 <= x < |adj| && x !in P && u in P
    requires u in Nbh(adj, Comp(adj, P, x))
    ensures PairCovered(adj, P + {x}, x, u) && PairCovered(adj, P + {x}, u, x)
  {
    var Q := P + {x};
    assert Q - {x} == P;
    assert Linked(adj, Q, x, u);
    LinkedGivesConnected(adj, Q, x, u);
    if Adjacent(adj, x, u) {
      assert Adjacent(adj, u, x);
    }
  }

  /** The pairs of P + x that involve x are covered when x extends P. */
  lemma {:induction false} NewVertexPairs(adj: Adj, P: set<int>, x: int)
    requires WellFormed(adj) && 0 <= x < |adj| && x !in P && P <= Nbh(adj, Comp(adj, P, x))
    ensures forall u | u in P :: PairCovered(adj, P + {x}, x, u) && PairCovered(adj, P + {x}, u, x)
  {
    forall u | u in P ensures PairCovered(adj, P + {x}, x, u) && PairCovered(adj, P + {x}, u, x) {
      NewVertexPair(adj, P, x, u);
    }
  }

  /** The pairs of an old potential maximal clique P stay covered in P + x. */
  lemma {:induction false} OldPairs(a0: Adj, a1: Adj, x: int, P: set<int>)
    requires WellFormed(a0) && AddsEdgesAt(a0, a1, x) && IsPotentialMaximalClique(a0, P)
    ensures forall u, v | u in P && v in P && u != v :: PairCovered(a1, P + {x}, u, v)
  {
    forall u, v | u in P && v in P && u != v ensures PairCovered(a1, P + {x}, u, v) {
      if !Adjacent(a0, u, v) {
        var r :| r in Allowed(a0, P) && u in Nbh(a0, Comp(a0, P, r)) && v in Nbh(a0, Comp(a0, P, r));
        SharedWithNew(a0, a1, x, P, u, v, r);
      }
    }
  }

  /** An old potential maximal clique P that x extends gives the potential
      maximal clique P + x of the grown graph. */
  lemma {:induction false} ExtendedPmc(a0: Adj, a1: Adj, x: int, P: set<int>)
    requires WellFormed(a0) && WellFormed(a1) && AddsEdgesAt(a0, a1, x) && x !in P
    requires IsPotentialMaximalClique(a0, P) && P <= Nbh(a1, Comp(a1, P, x))
    ensures IsPotentialMaximalClique(a1, P + {x})
  {
    if HasFullComponent(a1, P + {x}) {
      FullWithNew(a0, a1, x, P);
    }
    NewVertexPairs(a1, P, x);
    OldPairs(a0, a1, x, P);
    CoveredIsPmc(a1, P + {x});
  }

  /** A minimal separator S that x extends, and that gains no full component
      with x, gives the potential maximal clique S + x. */
  lemma {:induction false} GrownPmc(adj: Adj, x: int, S: set<int>)
    requires WellFormed(adj) && 0 <= x < |adj| && x !in S && IsMinimalSeparator(adj, S)
    requires S <= Nbh(adj, Comp(adj, S, x)) && !HasFullComponent(adj, S + {x})
    ensures IsPotentialMaximalClique(adj, S + {x})
  {
    NewVertexPairs(adj, S, x);
    SeparatorPairs(adj, x, S);
    CoveredIsPmc(adj, S + {x});
  }

  /** The pairs of a minimal separator S are covered in S + x, through a
      full component of G - S that does not hold x. */
  lemma {:induction false} SeparatorPairs(adj: Adj, x: int, S: set<int>)
    requires WellFormed(adj) && 0 <= x < |adj| && x !in S && IsMinimalSeparator(adj, S)
    ensures forall u, v | u in S && v in S && u != v :: PairCovered(adj, S + {x}, u, v)
  {
    var f := FullAvoiding(adj, S, x);
    CompAvoiding(adj, S, f, x);
    CompHasRoot(adj, S, f);
    assert f in Allowed(adj, S + {x});
    var F, F' := Comp(adj, S, f), Comp(adj, S + {x}, f);
    assert EdgeSub(adj, adj);
    forall u | u in S ensures u in Nbh(adj, F') {
      CompMemberNotIn(adj, S + {x}, f, u);
      NbhGrow(adj, adj, F, F', u);
    }
  }

  /** One kept clique of the step is a potential maximal clique of the
      grown graph. */
  lemma {:induction false} KeptPmc(a0: Adj, a1: Adj, x: int, p: seq<int>, q: seq<int>)
    requires WellFormed(a0) && WellFormed(a1) && AddsEdgesAt(a0, a1, x)
    requires NoRepeats(p) && x !in p && IsPotentialMaximalClique(a0, Elems(p))
    requires (q == p && !Full(a1, p)) || (q == p + [x] && Full(a1, p) && Extends(a1, p, x))
    ensures IsPotentialMaximalClique(a1, Elems(q))
  {
    if q == p && !Full(a1, p) {
      PmcLift(a0, a1, Elems(p));
    } else {
      assert Elems(q) == Elems(p) + {x};
      ExtendedPmc(a0, a1, x, Elems(p));
    }
  }

  /** Every clique one step puts out is a potential maximal clique of the
      grown graph: the kept ones by PmcLift and ExtendedPmc, the grown
      separators by GrownPmc, and the tested candidates by the test. */
  lemma {:induction false} StepSound(a0: Adj, a1: Adj, x: int, pmcs: seq<seq<int>>, minseps: seq<seq<int>>,
                    newMinseps: seq<seq<int>>, out: seq<seq<int>>, tested: seq<seq<int>>)
    requires WellFormed(a0) && WellFormed(a1) && AddsEdgesAt(a0, a1, x)
    requires forall p | p in pmcs :: NoRepeats(p) && x !in p && IsPotentialMaximalClique(a0, Elems(p))
    requires forall s | s in newMinseps :: NoRepeats(s) && IsMinimalSeparator(a1, Elems(s))
    requires StepOutput(a1, pmcs, minseps, newMinseps, x, out, tested)
    requires forall q | q in out :: NoRepeats(q) && Below(q, |a1|)
    ensures forall q | q in out :: IsPotentialMaximalClique(a1, Elems(q))
  {
    var K := Kept(a1, pmcs, x);
    forall q | q in out ensures IsPotentialMaximalClique(a1, Elems(q)) {
      InHeadOrTail(out, |K|, q);
      if q in out[..|K|] {
        KeptIsPmc(a0, a1, x, pmcs, q);
      } else {
        NewIsPmc(a1, x, newMinseps, q);
      }
    }
  }

  /** A member of a sequence lies in its first k elements or in the rest. */
  lemma {:induction false} InHeadOrTail(s: seq<seq<int>>, k: int, q: seq<int>)
    requires 0 <= k <= |s| && q in s
    ensures q in s[..k] || q in s[k..]
  {
    var j :| 0 <= j < |s| && s[j] == q;
    if j < k {
      assert s[..k][j] == q;
    } else {
      assert s[k..][j - k] == q;
    }
  }

  /** A kept clique of the step is a potential maximal clique of the grown
      graph. */
  lemma {:induction false} KeptIsPmc(a0: Adj, a1: Adj, x: int, pmcs: seq<seq<int>>, q: seq<int>)
    requires WellFormed(a0) && WellFormed(a1) && AddsEdgesAt(a0, a1, x)
    requires forall p | p in pmcs :: NoRepeats(p) && x !in p && IsPotentialMaximalClique(a0, Elems(p))
    requires q in Kept(a1, pmcs, x)
    ensures IsPotentialMaximalClique(a1, Elems(q))
  {
    KeptMembers(a1, pmcs, x);
    var p :| p in pmcs && ((q == p && !Full(a1, p)) || (q == p + [x] && Full(a1, p) && Extends(a1, p, x)));
    KeptPmc(a0, a1, x, p, q);
  }

  /** A grown separator or a candidate that passes the test is a potential
      maximal clique of the grown graph. */
  lemma {:induction false} NewIsPmc(adj: Adj, x: int, newMinseps: seq<seq<int>>, q: seq<int>)
    requires WellFormed(adj) && NoRepeats(q) && Below(q, |adj|)
    requires forall s | s in newMinseps :: NoRepeats(s) && IsMinimalSeparator(adj, Elems(s))
    requires Grown(adj, newMinseps, x, q) || PassesTest(adj, q)
    ensures IsPotentialMaximalClique(adj, Elems(q))
  {
    if Grown(adj, newMinseps, x, q) {
      var s :| s in newMinseps && GrowsAt(adj, s, x) && q == s + [x];
      assert Elems(q) == Elems(s) + {x};
      GrownPmc(adj, x, Elems(s));
    } else {
      IsPmcCharacterised(adj, q);
    }
  }

  /** Going from the prefix graph before x to the one with x adds edges at
      x only. */
  lemma {:induction false} PrefixAddsEdges(adj: Adj, n0: Adj, n1: Adj, ord: seq<int>, x: int)
    requires WellFormed(n0) && WellFormed(n1) && IsPermutation(ord) && 0 <= x < |ord|
    requires PrefixGraph(adj, n0, ord, ord[x] - 1) && PrefixGraph(adj, n1, ord, ord[x])
    ensures AddsEdgesAt(n0, n1, x)
  {
    forall v, u | Adjacent(n0, v, u) ensures Adjacent(n1, v, u) {
      assert 0 <= u < |n0|;
    }
    assert Below(n0[x], |n0|);
    forall v ensures !Adjacent(n0, x, v) && !Adjacent(n0, v, x) {
    }
    forall v, u | v != x && u != x && Adjacent(n1, v, u) ensures Adjacent(n0, v, u) {
      assert 0 <= u < |n1|;
      assert ord[v] != ord[x] && ord[u] != ord[x];
    }
  }

  /** The cliques of one round are potential maximal cliques of the grown
      prefix graph when those of the previous round were ones of the
      previous prefix graph. */
  lemma {:induction false} RoundSound(adj: Adj, n0: Adj, n1: Adj, ord: seq<int>, x: int, pmcs: seq<seq<int>>,
                     minseps: seq<seq<int>>, newMinseps: seq<seq<int>>, out: seq<seq<int>>, tested: seq<seq<int>>)
    requires WellFormed(n0) && WellFormed(n1) && IsPermutation(ord) && 0 <= x < |ord|
    requires PrefixGraph(adj, n0, ord, ord[x] - 1) && PrefixGraph(adj, n1, ord, ord[x])
    requires forall p | p in pmcs :: StrictlyIncreasing(p) && Settled(p, ord, ord[x] - 1) && IsPotentialMaximalClique(n0, Elems(p))
    requires forall k | 0 <= k < |newMinseps| :: StrictlyIncreasing(newMinseps[k]) && IsMinimalSeparator(n1, Elems(newMinseps[k]))
    requires StepOutput(n1, pmcs, minseps, newMinseps, x, out, tested)
    requires forall q | q in out :: NoRepeats(q) && Settled(q, ord, ord[x])
    ensures forall q | q in out :: IsPotentialMaximalClique(n1, Elems(q))
  {
    PrefixAddsEdges(adj, n0, n1, ord, x);
    forall p | p in pmcs ensures NoRepeats(p) && x !in p {
      assert Settled(p, ord, ord[x] - 1);
    }
    forall s | s in newMinseps ensures NoRepeats(s) && IsMinimalSeparator(n1, Elems(s)) {
      var k :| 0 <= k < |newMinseps| && newMinseps[k] == s;
    }
    forall q | q in out ensures Below(q, |n1|) {
      forall j | 0 <= j < |q| ensures 0 <= q[j] < |n1| {
        assert q[j] in q;
      }
    }
    StepSound(n0, n1, x, pmcs, minseps, newMinseps, out, tested);
  }

  /** Sorting a clique without repeated vertices keeps every vertex and the
      length, so it is a permutation of the clique. */
  lemma {:induction false} SortKeepsClique(q: seq<int>)
    requires NoRepeats(q)
    ensures |SortAndDedupInts(q)| == |q| && Elems(SortAndDedupInts(q)) == Elems(q)
  {
    var r := SortAndDedupInts(q);
    assert Elems(r) == Elems(q);
    NoRepeatsCard(q);
    NoRepeatsCard(r);
  }

  /** Each clique sorted. */
  method SortEach(qs: seq<seq<int>>) returns (out: seq<seq<int>>)
    requires forall q | q in qs :: NoRepeats(q)
    ensures |out| == |qs|
    ensures forall k | 0 <= k < |qs| ::
      StrictlyIncreasing(out[k]) && |out[k]| == |qs[k]| && Elems(out[k]) == Elems(qs[k])
  {
    out := qs;
    for k := 0 to |qs|
      invariant |out| == |qs|
      invariant forall j | 0 <= j < |qs| :: Elems(out[j]) == Elems(qs[j]) && |out[j]| == |qs[j]|
      invariant forall j | 0 <= j < k :: StrictlyIncreasing(out[j])
    {
      SortKeepsClique(qs[k]);
      out := out[k := SortAndDedupInts(qs[k])];
    }
  }

  /** The order reversed. */
  function Reversed(s: seq<int>): (r: seq<int>)
    ensures |r| == |s| && forall k | 0 <= k < |s| :: r[k] == s[|s| - 1 - k]
    ensures IsPermutation(s) ==> IsPermutation(r)
  {
    seq(|s|, k requires 0 <= k < |s| => s[|s| - 1 - k])
  }

  lemma {:induction false} OneVertexConnected(adj: Adj)
    requires WellFormed(adj) && |adj| == 1
    ensures ConnectedOrIsolated(adj)
  {
    forall a | 0 <= a < 1 ensures |Comp(adj, {}, a)| <= 1 {
      forall u | u in Comp(adj, {}, a) ensures u in {0} {
        CompMember(adj, {}, a, u);
      }
      CardSubset(Comp(adj, {}, a), {0});
    }
  }

  /** The loop's invariant before handling position i of the order: ng is
      the graph of g on the positions before i, and the cliques found, each
      increasing, lie in that prefix, are potential maximal cliques of ng
      and are sorted. */
  ghost predicate PmcsInv(adj: Adj, nadj: Adj, ord: seq<int>, i: int, pmcs: seq<seq<int>>) {
    PrefixGraph(adj, nadj, ord, i - 1) && StrictlySorted(pmcs, LexLess) &&
    forall p | p in pmcs ::
      StrictlyIncreasing(p) && Settled(p, ord, i - 1) && IsPotentialMaximalClique(nadj, Elems(p))
  }

  /** One round: adds order[i] to the prefix graph ng and replaces the
      cliques of the smaller prefix by those of the grown one, sorted, with
      the separators of the grown graph kept for the next round. */
  method AddVertex(g: Graph, ng: Graph, order: seq<int>, ord: seq<int>, i: int,
                   pmcs: seq<seq<int>>, minseps: seq<seq<int>>)
    returns (r: Outcome<seq<seq<int>>>, minseps': seq<seq<int>>)
    requires g.Valid() && ng.Valid() && ng.n == g.n && ng != g && 0 < i < g.n
    requires |order| == |ord| == g.n && IsPermutation(order) && IsPermutation(ord)
    requires forall k | 0 <= k < |order| :: ord[order[k]] == k
    requires PmcsInv(g.adjList, ng.adjList, ord, i, pmcs)
    modifies ng
    ensures ng.Valid() && ng.vertexMap == old(ng.vertexMap)
    ensures r.Done? ==> PmcsInv(g.adjList, ng.adjList, ord, i + 1, r.value)
    ensures r.Abort? ==> PrefixGraph(g.adjList, ng.adjList, ord, i) && !ConnectedOrIsolated(ng.adjList)
  {
    var x := order[i];
    ghost var n0 := ng.adjList;
    AddPrefixEdges(g, ng, ord, x);
    var ok := ng.IsConnectedOrIsolated();
    if !ok {
      return Abort, minseps;
    }
    var newMinseps := FindMinSeps(ng, -1);
    StepReady(ord, pmcs, x, i, g.n);
    var res, tested := OneMoreVertex(ng, pmcs, minseps, newMinseps, x);
    SeparatorsSplit(ng.adjList, newMinseps, x);
    StepSettled(g.adjList, ng.adjList, ord, pmcs, minseps, newMinseps, x, res.value, tested);
    RoundSound(g.adjList, n0, ng.adjList, ord, x, pmcs, minseps, newMinseps, res.value, tested);
    minseps' := newMinseps;
    var sorted := SortEach(res.value);
    LexLessOrder();
    var next := SortAndDedup(sorted, LexLess);
    PmcsStep(ng.adjList, ord, x, res.value, sorted, next);
    r := Done(next);
  }

  // Why no round aborts

  /** A minimal separator leaves at least two components. */
  lemma {:induction false} MinimalNotFew(adj: Adj, S: set<int>)
    requires WellFormed(adj) && IsMinimalSeparator(adj, S)
    ensures !AtMostOneComponent(adj, S)
  {
    var r1, r2 :| r1 in Allowed(adj, S) && r2 in Allowed(adj, S) && r2 !in Comp(adj, S, r1) &&
      S <= Nbh(adj, Comp(adj, S, r1)) && S <= Nbh(adj, Comp(adj, S, r2));
    CompHasRoot(adj, S, r2);
    assert Comp(adj, S, r1) != Comp(adj, S, r2);
  }

  /** No separator of a list of minimal separators leaves fewer than two
      components, so a round over them never stops early. */
  lemma {:induction false} SeparatorsSplit(adj: Adj, seps: seq<seq<int>>, x: int)
    requires WellFormed(adj) && forall k | 0 <= k < |seps| :: IsMinimalSeparator(adj, Elems(seps[k]))
    ensures !exists s | s in seps :: x !in s && AtMostOneComponent(adj, Elems(s))
  {
    forall s | s in seps ensures !AtMostOneComponent(adj, Elems(s)) {
      var k :| 0 <= k < |seps| && seps[k] == s;
      MinimalNotFew(adj, Elems(s));
    }
  }

  /** v has a neighbour. */
  ghost predicate HasNeighbour(adj: Adj, v: int) {
    exists w :: Adjacent(adj, v, w)
  }

  /** The vertices at positions 0..i of the order whose positions ord gives. */
  ghost function Prefix(ord: seq<int>, i: int): set<int> {
    set v | 0 <= v < |ord| && ord[v] <= i
  }

  /** A vertex with a neighbour is in a component of more than one vertex. */
  lemma {:induction false} NeighbourComp(adj: Adj, a: int)
    requires WellFormed(adj) && HasNeighbour(adj, a)
    ensures 0 <= a < |adj| && |Comp(adj, {}, a)| > 1
  {
    var w :| Adjacent(adj, a, w);
    assert 0 <= w < |adj| && w != a;
    CompHasRoot(adj, {}, a);
    ReachRefl(adj, Allowed(adj, {}), a);
    ReachStep(adj, Allowed(adj, {}), a, a, w);
    assert {a, w} <= Comp(adj, {}, a);
    CardSubset({a, w}, Comp(adj, {}, a));
  }

  /** A vertex in a component of more than one vertex has a neighbour. */
  lemma {:induction false} CompNeighbour(adj: Adj, a: int)
    requires WellFormed(adj) && 0 <= a < |adj| && |Comp(adj, {}, a)| > 1
    ensures HasNeighbour(adj, a)
  {
    var C := Comp(adj, {}, a);
    assert |C - {a}| > 0;
    var u :| u in C - {a};
    var p :| IsPath(adj, p, Allowed(adj, {})) && p[0] == a && p[|p|-1] == u;
    assert Adjacent(adj, p[0], p[1]);
  }

  /** When a set of vertices is closed under adjacency and some vertex in it
      has a neighbour, a graph that is connected apart from isolated vertices
      puts every vertex with a neighbour in that set. */
  lemma {:induction false} ClosedHoldsNeighbours(adj: Adj, P: set<int>, x: int)
    requires WellFormed(adj) && ConnectedOrIsolated(adj) && ClosedIn(adj, {}, P) && HasNeighbour(adj, x)
    ensures forall a | a in P && HasNeighbour(adj, a) :: x in P
  {
    forall a | a in P && HasNeighbour(adj, a) ensures x in P {
      NeighbourComp(adj, a);
      NeighbourComp(adj, x);
      CompMember(adj, {}, a, x);
      var p :| IsPath(adj, p, Allowed(adj, {})) && p[0] == a && p[|p|-1] == x;
      PathStaysInside(adj, {}, P, p);
    }
  }

  /** Read backwards, an MCS order puts the vertex at MCS position t at position n - 1 - t. */
  lemma {:induction false} ReversedPositions(mcs: seq<int>, order: seq<int>, ord: seq<int>)
    requires IsPermutation(mcs) && order == Reversed(mcs) && |ord| == |order|
    requires forall k | 0 <= k < |order| :: ord[order[k]] == k
    ensures forall t | 0 <= t < |mcs| :: ord[mcs[t]] == |mcs| - 1 - t
  {
    forall t | 0 <= t < |mcs| ensures ord[mcs[t]] == |mcs| - 1 - t {
      assert order[|mcs| - 1 - t] == mcs[t];
    }
  }

  /** When order[i] has no earlier neighbour, no vertex after it has one:
      MCS numbered order[i] while the earlier vertices were numbered, with a
      count no smaller than any vertex left. */
  lemma {:induction false} LaterUnattached(adj: Adj, mcs: seq<int>, order: seq<int>, ord: seq<int>, i: int)
    requires WellFormed(adj) && IsMcsOrder(adj, mcs) && order == Reversed(mcs) && |ord| == |order|
    requires forall k | 0 <= k < |order| :: ord[order[k]] == k
    requires forall v | 0 <= v < |ord| :: 0 <= ord[v] < |ord| && order[ord[v]] == v
    requires 0 <= i < |order|
    requires forall u | 0 <= u < |ord| && Adjacent(adj, order[i], u) :: ord[u] >= i
    ensures forall v, w | 0 <= v < |ord| && ord[v] > i && 0 <= w < |ord| && ord[w] < i :: w !in adj[v]
  {
    var n := |mcs|;
    var m := n - 1 - i;
    var S := mcs[m+1..];
    ReversedPositions(mcs, order, ord);
    assert CountIn(S, adj[mcs[m]]) == 0 by {
      assert mcs[m] == order[i];
      forall k | 0 <= k < |S| ensures S[k] !in adj[mcs[m]] {
        assert S[k] == mcs[m + 1 + k] && ord[S[k]] < i && 0 <= S[k] < n;
      }
    }
    forall v | 0 <= v < n && ord[v] > i ensures forall k | 0 <= k < |S| :: S[k] !in adj[v] {
      assert v !in mcs[m..] by {
        forall t | m <= t < n ensures mcs[t] != v {
        }
      }
      assert ChoiceAt(adj, mcs, m);
    }
    forall v, w | 0 <= v < n && ord[v] > i && 0 <= w < n && ord[w] < i ensures w !in adj[v] {
      assert order[ord[w]] == w;
      assert S[i - 1 - ord[w]] == w;
    }
  }

  /** In an MCS order read backwards, a vertex with no earlier neighbour
      comes only after a set of vertices closed under adjacency. */
  lemma {:induction false} McsRestart(adj: Adj, mcs: seq<int>, order: seq<int>, ord: seq<int>, i: int)
    requires WellFormed(adj) && IsMcsOrder(adj, mcs) && order == Reversed(mcs) && |ord| == |order|
    requires forall k | 0 <= k < |order| :: ord[order[k]] == k
    requires forall v | 0 <= v < |ord| :: 0 <= ord[v] < |ord| && order[ord[v]] == v
    requires 0 <= i < |order|
    requires forall u | 0 <= u < |ord| && Adjacent(adj, order[i], u) :: ord[u] >= i
    ensures ClosedIn(adj, {}, Prefix(ord, i - 1))
  {
    LaterUnattached(adj, mcs, order, ord, i);
    forall w, u | w in Prefix(ord, i - 1) && w !in {} && Adjacent(adj, w, u) ensures u in Prefix(ord, i - 1) {
      assert Adjacent(adj, u, w) && 0 <= u < |ord|;
      assert order[ord[u]] == u;
    }
  }

  /** Any two of the vertices at positions 0..i that have neighbours are
      joined by a path through those positions. */
  ghost predicate JoinedUpTo(adj: Adj, ord: seq<int>, i: int) {
    forall a, b | 0 <= a < |adj| && 0 <= b < |adj| && a < |ord| && b < |ord| && ord[a] <= i && ord[b] <= i &&
      HasNeighbour(adj, a) && HasNeighbour(adj, b) :: Reachable(adj, Prefix(ord, i), a, b)
  }

  /** Positions ord and order are inverse permutations of the vertices. */
  ghost predicate Inverse(adj: Adj, order: seq<int>, ord: seq<int>) {
    |ord| == |order| == |adj| &&
    (forall k | 0 <= k < |order| :: 0 <= order[k] < |adj| && ord[order[k]] == k) &&
    (forall v | 0 <= v < |ord| :: 0 <= ord[v] < |ord| && order[ord[v]] == v)
  }

  /** The first vertex alone is joined to itself. */
  lemma {:induction false} JoinedStart(adj: Adj, order: seq<int>, ord: seq<int>)
    requires Inverse(adj, order, ord) && |order| > 0
    ensures JoinedUpTo(adj, ord, 0)
  {
    var x := order[0];
    assert x in Prefix(ord, 0);
    ReachRefl(adj, Prefix(ord, 0), x);
    forall a, b | 0 <= a < |adj| && 0 <= b < |adj| && a < |ord| && b < |ord| && ord[a] <= 0 && ord[b] <= 0 &&
      HasNeighbour(adj, a) && HasNeighbour(adj, b)
      ensures Reachable(adj, Prefix(ord, 0), a, b)
    {
      assert order[ord[a]] == a && order[ord[b]] == b;
    }
  }

  /** A vertex x = order[i] with an earlier neighbour y joins the earlier
      vertices with neighbours. */
  lemma {:induction false} JoinedThrough(adj: Adj, order: seq<int>, ord: seq<int>, i: int, y: int)
    requires WellFormed(adj) && Inverse(adj, order, ord) && 0 < i < |order|
    requires 0 <= y < |adj| && Adjacent(adj, order[i], y) && ord[y] < i
    requires JoinedUpTo(adj, ord, i - 1)
    ensures JoinedUpTo(adj, ord, i)
  {
    var x := order[i];
    assert Adjacent(adj, y, x) && HasNeighbour(adj, y);
    forall a, b | 0 <= a < |adj| && 0 <= b < |adj| && a < |ord| && b < |ord| && ord[a] <= i && ord[b] <= i &&
      HasNeighbour(adj, a) && HasNeighbour(adj, b)
      ensures Reachable(adj, Prefix(ord, i), a, b)
    {
      assert order[ord[a]] == a && order[ord[b]] == b;
      YoungerJoined(adj, ord, i, x, y, a);
      YoungerJoined(adj, ord, i, x, y, b);
      ReachSym(adj, Prefix(ord, i), b, x);
      ReachTrans(adj, Prefix(ord, i), a, x, b);
    }
  }

  /** When no earlier vertex has a neighbour, the only vertex with a
      neighbour among the first i + 1 is order[i], joined to itself. */
  lemma {:induction false} JoinedRestart(adj: Adj, order: seq<int>, ord: seq<int>, i: int)
    requires Inverse(adj, order, ord) && 0 < i < |order|
    requires forall a | a in Prefix(ord, i - 1) && HasNeighbour(adj, a) :: order[i] in Prefix(ord, i - 1)
    ensures JoinedUpTo(adj, ord, i)
  {
    var x := order[i];
    assert x in Prefix(ord, i) && x !in Prefix(ord, i - 1);
    ReachRefl(adj, Prefix(ord, i), x);
    forall a, b | 0 <= a < |adj| && 0 <= b < |adj| && a < |ord| && b < |ord| && ord[a] <= i && ord[b] <= i &&
      HasNeighbour(adj, a) && HasNeighbour(adj, b)
      ensures Reachable(adj, Prefix(ord, i), a, b)
    {
      assert order[ord[a]] == a && order[ord[b]] == b;
      assert a !in Prefix(ord, i - 1) && b !in Prefix(ord, i - 1);
    }
  }

  /** A vertex without neighbours joins nothing and changes no path. */
  lemma {:induction false} JoinedIsolated(adj: Adj, order: seq<int>, ord: seq<int>, i: int)
    requires Inverse(adj, order, ord) && 0 < i < |order| && !HasNeighbour(adj, order[i])
    requires JoinedUpTo(adj, ord, i - 1)
    ensures JoinedUpTo(adj, ord, i)
  {
    assert Prefix(ord, i - 1) <= Prefix(ord, i);
    forall a, b | 0 <= a < |adj| && 0 <= b < |adj| && a < |ord| && b < |ord| && ord[a] <= i && ord[b] <= i &&
      HasNeighbour(adj, a) && HasNeighbour(adj, b)
      ensures Reachable(adj, Prefix(ord, i), a, b)
    {
      assert order[ord[a]] == a && order[ord[b]] == b;
      ReachMono(adj, Prefix(ord, i - 1), Prefix(ord, i), a, b);
    }
  }

  /** With an earlier neighbour y of x = order[i] and the earlier vertices
      with neighbours joined, x is joined to every one of the first i + 1
      vertices that has a neighbour. */
  lemma {:induction false} YoungerJoined(adj: Adj, ord: seq<int>, i: int, x: int, y: int, a: int)
    requires WellFormed(adj) && 0 < i && 0 <= x < |ord| == |adj| && ord[x] == i && 0 <= y < |adj|
    requires Adjacent(adj, y, x) && ord[y] < i && HasNeighbour(adj, y)
    requires JoinedUpTo(adj, ord, i - 1)
    requires 0 <= a < |adj| && ord[a] <= i && HasNeighbour(adj, a) && (ord[a] == i ==> a == x)
    ensures Reachable(adj, Prefix(ord, i), a, x)
  {
    var Q := Prefix(ord, i);
    assert Prefix(ord, i - 1) <= Q && x in Q;
    if a == x {
      ReachRefl(adj, Q, x);
    } else {
      ReachMono(adj, Prefix(ord, i - 1), Q, a, y);
      ReachStep(adj, Q, a, y, x);
    }
  }

  /** In the reversed MCS order of a graph that is connected apart from
      isolated vertices, any two of the first i + 1 vertices that have
      neighbours are joined by a path through the first i + 1 vertices. */
  lemma {:induction false} PrefixReach(adj: Adj, mcs: seq<int>, order: seq<int>, ord: seq<int>, i: int)
    requires McsReversal(adj, mcs, order, ord) && 0 <= i < |order|
    decreases i
    ensures JoinedUpTo(adj, ord, i)
  {
    if i == 0 {
      JoinedStart(adj, order, ord);
    } else {
      PrefixReach(adj, mcs, order, ord, i - 1);
      JoinedStep(adj, mcs, order, ord, i);
    }
  }

  /** The reversed MCS order of a graph that is connected apart from
      isolated vertices, with ord its inverse. */
  ghost predicate McsReversal(adj: Adj, mcs: seq<int>, order: seq<int>, ord: seq<int>) {
    WellFormed(adj) && ConnectedOrIsolated(adj) && IsMcsOrder(adj, mcs) && order == Reversed(mcs) &&
    Inverse(adj, order, ord)
  }

  /** Adding order[i] keeps the earlier vertices with neighbours joined,
      whether or not it has an earlier neighbour. */
  lemma {:induction false} JoinedStep(adj: Adj, mcs: seq<int>, order: seq<int>, ord: seq<int>, i: int)
    requires McsReversal(adj, mcs, order, ord) && 0 < i < |order|
    requires JoinedUpTo(adj, ord, i - 1)
    ensures JoinedUpTo(adj, ord, i)
  {
    if y :| 0 <= y < |ord| && Adjacent(adj, order[i], y) && ord[y] < i {
      JoinedThrough(adj, order, ord, i, y);
    } else {
      JoinedUnattached(adj, mcs, order, ord, i);
    }
  }

  /** A vertex x = order[i] with no earlier neighbour keeps the first i + 1
      vertices with neighbours joined: either x has no neighbour, or MCS
      restarted after a closed prefix that holds no vertex with a neighbour. */
  lemma {:induction false} JoinedUnattached(adj: Adj, mcs: seq<int>, order: seq<int>, ord: seq<int>, i: int)
    requires WellFormed(adj) && ConnectedOrIsolated(adj) && IsMcsOrder(adj, mcs) && order == Reversed(mcs)
    requires Inverse(adj, order, ord) && 0 < i < |order|
    requires forall u | 0 <= u < |ord| && Adjacent(adj, order[i], u) :: ord[u] >= i
    requires JoinedUpTo(adj, ord, i - 1)
    ensures JoinedUpTo(adj, ord, i)
  {
    var x := order[i];
    McsRestart(adj, mcs, order, ord, i);
    if HasNeighbour(adj, x) {
      ClosedHoldsNeighbours(adj, Prefix(ord, i - 1), x);
      JoinedRestart(adj, order, ord, i);
    } else {
      JoinedIsolated(adj, order, ord, i);
    }
  }

  /** A path of g through the first i + 1 vertices is a path of the prefix graph. */
  lemma {:induction false} PrefixPath(adj: Adj, nadj: Adj, ord: seq<int>, i: int, a: int, b: int)
    requires PrefixGraph(adj, nadj, ord, i) && Reachable(adj, Prefix(ord, i), a, b)
    ensures Reachable(nadj, Allowed(nadj, {}), a, b)
  {
    var p :| IsPath(adj, p, Prefix(ord, i)) && p[0] == a && p[|p|-1] == b;
    forall k | 0 <= k < |p| - 1 ensures Adjacent(nadj, p[k], p[k+1]) {
      assert p[k] in Prefix(ord, i) && p[k+1] in Prefix(ord, i);
      assert Adjacent(adj, p[k], p[k+1]);
    }
    assert IsPath(nadj, p, Allowed(nadj, {}));
  }

  /** Two vertices in non-trivial components of the prefix graph are in one. */
  lemma {:induction false} PrefixPair(adj: Adj, nadj: Adj, ord: seq<int>, i: int, a: int, b: int)
    requires WellFormed(nadj) && PrefixGraph(adj, nadj, ord, i) && JoinedUpTo(adj, ord, i)
    requires 0 <= a < |nadj| && 0 <= b < |nadj| && |Comp(nadj, {}, a)| > 1 && |Comp(nadj, {}, b)| > 1
    ensures b in Comp(nadj, {}, a)
  {
    CompNeighbour(nadj, a);
    CompNeighbour(nadj, b);
    var wa :| Adjacent(nadj, a, wa);
    var wb :| Adjacent(nadj, b, wb);
    assert 0 <= wa < |adj| && 0 <= wb < |adj|;
    assert Adjacent(adj, a, wa) && Adjacent(adj, b, wb);
    PrefixPath(adj, nadj, ord, i, a, b);
  }

  /** Every prefix graph of the reversed MCS order of a graph that is
      connected apart from isolated vertices is itself connected apart from
      isolated vertices, so no round of Pmcs aborts. */
  lemma {:induction false} PrefixConnected(adj: Adj, nadj: Adj, mcs: seq<int>, order: seq<int>, ord: seq<int>, i: int)
    requires WellFormed(adj) && ConnectedOrIsolated(adj) && IsMcsOrder(adj, mcs) && order == Reversed(mcs)
    requires Inverse(adj, order, ord) && 0 <= i < |order| && PrefixGraph(adj, nadj, ord, i) && WellFormed(nadj)
    ensures ConnectedOrIsolated(nadj)
  {
    PrefixReach(adj, mcs, order, ord, i);
    forall a, b | 0 <= a < |nadj| && 0 <= b < |nadj| && |Comp(nadj, {}, a)| > 1 && |Comp(nadj, {}, b)| > 1
      ensures b in Comp(nadj, {}, a)
    {
      PrefixPair(adj, nadj, ord, i, a, b);
    }
  }

  /** The potential maximal cliques of g, by adding the vertices one by one
      in reverse MCS order: each step adds the edges to the earlier
      vertices, finds the separators of the grown graph and extends the
      cliques of the previous step by the new vertex. */
  method Pmcs(g: Graph) returns (r: Outcome<seq<seq<int>>>)
    requires g.Valid()
    ensures g.n == 0 ==> r == Done([])
    ensures g.n > 0 && !ConnectedOrIsolated(g.adjList) ==> r == Abort
    ensures g.n == 1 ==> r == Done([[0]])
    ensures r.Done? ==> (StrictlySorted(r.value, LexLess) &&
      forall q | q in r.value :: StrictlyIncreasing(q) && Below(q, g.n))
    ensures r.Done? ==> forall q | q in r.value :: IsPotentialMaximalClique(g.adjList, Elems(q))
    ensures ConnectedOrIsolated(g.adjList) ==> r.Done?
  {
    if g.n == 0 {
      return Done([]);
    }
    var connected := g.IsConnectedOrIsolated();
    if !connected {
      return Abort;
    }
    var mcsOrder := Mcs(g);
    var order := Reversed(mcsOrder);
    var ord := PermInverse(order);
    var ng := new Graph(g.n);
    var pmcs := [[order[0]]];
    var minseps: seq<seq<int>> := [];
    PmcsStart(g.adjList, ng.adjList, order, ord);
    assert Inverse(g.adjList, order, ord);
    for i := 1 to g.n
      invariant ng.Valid() && ng.n == g.n && ng != g
      invariant PmcsInv(g.adjList, ng.adjList, ord, i, pmcs)
      invariant g.n == 1 ==> pmcs == [[order[0]]]
    {
      var res;
      res, minseps := AddVertex(g, ng, order, ord, i, pmcs, minseps);
      PrefixConnected(g.adjList, ng.adjList, mcsOrder, order, ord, i);
      pmcs := res.value;
    }
    PmcsEnd(g.adjList, ng.adjList, ord, pmcs);
    if g.n == 1 {
      OneVertexConnected(g.adjList);
    }
    r := Done(pmcs);
  }

  lemma {:induction false} PmcsStart(adj: Adj, nadj: Adj, order: seq<int>, ord: seq<int>)
    requires WellFormed(adj) && nadj == NoEdges(|adj|) && |adj| > 0
    requires |order| == |ord| == |adj| && IsPermutation(order) && IsPermutation(ord)
    requires forall k | 0 <= k < |order| :: ord[order[k]] == k
    ensures PmcsInv(adj, nadj, ord, 1, [[order[0]]])
  {
    forall a, b | 0 <= a < |adj| && 0 <= b < |adj| && Adjacent(adj, a, b) && ord[a] <= 0 && ord[b] <= 0
      ensures false
    {
    }
    var v := order[0];
    forall r | r in Allowed(nadj, {v}) ensures v !in Nbh(nadj, Comp(nadj, {v}, r)) {
      assert forall w :: !Adjacent(nadj, w, v);
    }
    assert Elems([v]) == {v};
    assert !HasFullComponent(nadj, {v});
    assert IsPotentialMaximalClique(nadj, Elems([v]));
  }

  lemma {:induction false} StepReady(ord: seq<int>, pmcs: seq<seq<int>>, x: int, i: int, n: int)
    requires |ord| == n && 0 <= x < n && ord[x] == i
    requires forall p | p in pmcs :: Settled(p, ord, i - 1)
    ensures forall k | 0 <= k < |pmcs| :: Below(pmcs[k], n) && x !in pmcs[k]
  {
    forall k | 0 <= k < |pmcs| ensures Below(pmcs[k], n) && x !in pmcs[k] {
      assert pmcs[k] in pmcs;
      forall j | 0 <= j < |pmcs[k]| ensures 0 <= pmcs[k][j] < n {
        assert pmcs[k][j] in pmcs[k];
      }
    }
  }

  lemma {:induction false} PmcsStep(nadj: Adj, ord: seq<int>, x: int, out: seq<seq<int>>, sorted: seq<seq<int>>, pmcs: seq<seq<int>>)
    requires 0 <= x < |ord|
    requires forall q | q in out :: Settled(q, ord, ord[x]) && IsPotentialMaximalClique(nadj, Elems(q))
    requires |sorted| == |out| && forall k | 0 <= k < |out| :: StrictlyIncreasing(sorted[k]) && Elems(sorted[k]) == Elems(out[k])
    requires forall p :: p in pmcs <==> p in sorted
    ensures forall p | p in pmcs ::
      StrictlyIncreasing(p) && Settled(p, ord, ord[x]) && IsPotentialMaximalClique(nadj, Elems(p))
  {
    forall p | p in pmcs
      ensures StrictlyIncreasing(p) && Settled(p, ord, ord[x]) && IsPotentialMaximalClique(nadj, Elems(p))
    {
      var k :| 0 <= k < |sorted| && sorted[k] == p;
      assert out[k] in out;
      forall v | v in p ensures 0 <= v < |ord| && ord[v] <= ord[x] {
        assert v in Elems(out[k]);
      }
    }
  }

  lemma {:induction false} PmcsEnd(adj: Adj, nadj: Adj, ord: seq<int>, pmcs: seq<seq<int>>)
    requires WellFormed(adj) && WellFormed(nadj) && IsPermutation(ord)
    requires PmcsInv(adj, nadj, ord, |adj|, pmcs)
    ensures StrictlySorted(pmcs, LexLess) && forall q | q in pmcs :: StrictlyIncreasing(q) && Below(q, |adj|)
    ensures forall q | q in pmcs :: IsPotentialMaximalClique(adj, Elems(q))
  {
    forall q, j | q in pmcs && 0 <= j < |q| ensures 0 <= q[j] < |adj| {
      assert q[j] in q;
    }
    assert EdgeSub(nadj, adj) by {
      forall v, u | Adjacent(nadj, v, u) ensures Adjacent(adj, v, u) {
        assert 0 <= u < |nadj|;
      }
    }
    assert EdgeSub(adj, nadj) by {
      forall v, u | Adjacent(adj, v, u) ensures Adjacent(nadj, v, u) {
        assert 0 <= u < |adj|;
      }
    }
    forall q | q in pmcs ensures IsPotentialMaximalClique(adj, Elems(q)) {
      SameEdgesPmc(nadj, adj, Elems(q));
    }
  }
}
