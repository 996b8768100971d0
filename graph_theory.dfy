/** Definitions about undirected graphs given by adjacency lists, against which
    the graph algorithms are specified: paths, reachability inside a vertex set,
    the components left when a separator is removed, neighbourhoods, full
    components and potential maximal cliques. */
module GraphTheory {

  /** adj[v] lists the neighbours of vertex v; the vertices are 0 .. |adj|-1. */
  type Adj = seq<seq<int>>

  /** Every entry of the list is a vertex index below bound. */
  ghost predicate Below(s: seq<int>, bound: int) {
    forall i | 0 <= i < |s| :: 0 <= s[i] < bound
  }

  ghost predicate NoRepeats(s: seq<int>) {
    forall i, j | 0 <= i < j < |s| :: s[i] != s[j]
  }

  ghost predicate InRange(adj: Adj) {
    forall v | 0 <= v < |adj| :: Below(adj[v], |adj|)
  }

  ghost predicate Simple(adj: Adj) {
    forall v | 0 <= v < |adj| :: !Adjacent(adj, v, v) && NoRepeats(adj[v])
  }

  ghost predicate Symmetric(adj: Adj) {
    forall v, u :: Adjacent(adj, v, u) ==> Adjacent(adj, u, v)
  }

  /** A simple undirected graph: lists in range, no loops, no repeats, symmetric. */
  ghost predicate WellFormed(adj: Adj) {
    InRange(adj) && Simple(adj) && Symmetric(adj)
  }

  predicate Adjacent(adj: Adj, v: int, u: int) {
    0 <= v < |adj| && u in adj[v]
  }

  function Elems(s: seq<int>): set<int> {
    set x | x in s
  }

  /** The vertices outside the separator S. */
  ghost function Allowed(adj: Adj, S: set<int>): set<int> {
    set v | 0 <= v < |adj| && v !in S
  }

  ghost predicate IsPath(adj: Adj, p: seq<int>, A: set<int>) {
    |p| > 0 &&
    (forall k | 0 <= k < |p| :: p[k] in A) &&
    (forall k | 0 <= k < |p| - 1 :: Adjacent(adj, p[k], p[k+1]))
  }

  /** u and v are joined by a path all of whose vertices lie in A. */
  ghost predicate Reachable(adj: Adj, A: set<int>, u: int, v: int) {
    exists p :: IsPath(adj, p, A) && p[0] == u && p[|p|-1] == v
  }

  /** The component of G - S that contains r. */
  ghost function Comp(adj: Adj, S: set<int>, r: int): set<int> {
    set u | 0 <= u < |adj| && Reachable(adj, Allowed(adj, S), r, u)
  }

  /** N(C): the vertices outside C adjacent to some vertex of C. */
  ghost function Nbh(adj: Adj, C: set<int>): set<int> {
    set u | 0 <= u < |adj| && u !in C && exists w | w in C :: Adjacent(adj, w, u)
  }

  /** Every vertex outside S that is in B has all its neighbours in B. */
  ghost predicate ClosedIn(adj: Adj, S: set<int>, B: set<int>) {
    forall w, u | w in B && w !in S && Adjacent(adj, w, u) :: u in B
  }

  // ---------------------------------------------------------------------
  // Reachability

  lemma {:induction false} ReachRefl(adj: Adj, A: set<int>, u: int)
    requires u in A
    ensures Reachable(adj, A, u, u)
  {
    assert IsPath(adj, [u], A);
  }

  lemma {:induction false} ReachStep(adj: Adj, A: set<int>, u: int, v: int, w: int)
    requires Reachable(adj, A, u, v) && Adjacent(adj, v, w) && w in A
    ensures Reachable(adj, A, u, w)
  {
    var p :| IsPath(adj, p, A) && p[0] == u && p[|p|-1] == v;
    var q := p + [w];
    assert IsPath(adj, q, A);
  }

  lemma {:induction false} ReachPrepend(adj: Adj, A: set<int>, u: int, v: int, w: int)
    requires Adjacent(adj, u, v) && u in A && Reachable(adj, A, v, w)
    ensures Reachable(adj, A, u, w)
  {
    var p :| IsPath(adj, p, A) && p[0] == v && p[|p|-1] == w;
    var q := [u] + p;
    assert IsPath(adj, q, A);
  }

  lemma {:induction false} ReachMono(adj: Adj, A: set<int>, B: set<int>, u: int, v: int)
    requires Reachable(adj, A, u, v) && A <= B
    ensures Reachable(adj, B, u, v)
  {
    var p :| IsPath(adj, p, A) && p[0] == u && p[|p|-1] == v;
    assert IsPath(adj, p, B);
  }

  lemma {:induction false} ReachTrans(adj: Adj, A: set<int>, u: int, v: int, w: int)
    requires Reachable(adj, A, u, v) && Reachable(adj, A, v, w)
    ensures Reachable(adj, A, u, w)
  {
    var p :| IsPath(adj, p, A) && p[0] == u && p[|p|-1] == v;
    var q :| IsPath(adj, q, A) && q[0] == v && q[|q|-1] == w;
    var r := p + q[1..];
    assert IsPath(adj, r, A) by {
      forall k | 0 <= k < |r| - 1 ensures Adjacent(adj, r[k], r[k+1]) {
        if k < |p| - 1 {
        } else {
          assert r[k] == q[k - |p| + 1] && r[k+1] == q[k - |p| + 2];
        }
      }
    }
  }

  lemma {:induction false} ReachSym(adj: Adj, A: set<int>, u: int, v: int)
    requires Symmetric(adj) && InRange(adj) && Reachable(adj, A, u, v)
    ensures Reachable(adj, A, v, u)
  {
    var p :| IsPath(adj, p, A) && p[0] == u && p[|p|-1] == v;
    var q := seq(|p|, k requires 0 <= k < |p| => p[|p| - 1 - k]);
    assert IsPath(adj, q, A) by {
      forall k | 0 <= k < |q| - 1 ensures Adjacent(adj, q[k], q[k+1]) {
        var j := |p| - 2 - k;
        assert Adjacent(adj, p[j], p[j+1]);
        assert 0 <= p[j] < |adj| && 0 <= p[j+1] < |adj|;
      }
    }
  }

  /** Reachability inside A stays inside the set of vertices reachable from u. */
  lemma {:induction false} PathInsideReach(adj: Adj, A: set<int>, p: seq<int>)
    requires IsPath(adj, p, A) && InRange(adj)
    ensures forall k | 0 <= k < |p| :: Reachable(adj, A, p[0], p[k])
  {
    forall k | 0 <= k < |p| ensures Reachable(adj, A, p[0], p[k]) {
      assert IsPath(adj, p[..k+1], A);
    }
  }

  // ---------------------------------------------------------------------
  // Components

  lemma {:induction false} CompMember(adj: Adj, S: set<int>, r: int, u: int)
    requires u in Comp(adj, S, r)
    ensures 0 <= u < |adj| && u !in S && Reachable(adj, Allowed(adj, S), r, u)
    ensures r in Allowed(adj, S)
  {
    var p :| IsPath(adj, p, Allowed(adj, S)) && p[0] == r && p[|p|-1] == u;
    assert p[0] in Allowed(adj, S) && p[|p|-1] in Allowed(adj, S);
  }

  lemma {:induction false} CompHasRoot(adj: Adj, S: set<int>, r: int)
    requires 0 <= r < |adj| && r !in S
    ensures r in Comp(adj, S, r)
  {
    ReachRefl(adj, Allowed(adj, S), r);
  }

  /** A component is closed: a neighbour of one of its vertices is in the
      separator or in the component. */
  lemma {:induction false} CompClosed(adj: Adj, S: set<int>, r: int, w: int, u: int)
    requires InRange(adj) && w in Comp(adj, S, r) && Adjacent(adj, w, u)
    ensures u in S || u in Comp(adj, S, r)
  {
    if u !in S {
      assert 0 <= u < |adj|;
      ReachStep(adj, Allowed(adj, S), r, w, u);
    }
  }

  /** Two vertices of one component have the same component. */
  lemma {:induction false} CompSame(adj: Adj, S: set<int>, r: int, u: int)
    requires WellFormed(adj) && u in Comp(adj, S, r)
    ensures Comp(adj, S, u) == Comp(adj, S, r)
  {
    var A := Allowed(adj, S);
    CompMember(adj, S, r, u);
    ReachSym(adj, A, r, u);
    forall x | x in Comp(adj, S, u) ensures x in Comp(adj, S, r) {
      ReachTrans(adj, A, r, u, x);
    }
    forall x | x in Comp(adj, S, r) ensures x in Comp(adj, S, u) {
      ReachTrans(adj, A, u, r, x);
    }
  }

  /** The components of two vertices are equal or disjoint. */
  lemma {:induction false} CompDisjointOrEqual(adj: Adj, S: set<int>, r1: int, r2: int)
    requires WellFormed(adj)
    ensures Comp(adj, S, r1) == Comp(adj, S, r2) || Comp(adj, S, r1) !! Comp(adj, S, r2)
  {
    if x :| x in Comp(adj, S, r1) && x in Comp(adj, S, r2) {
      CompSame(adj, S, r1, x);
      CompSame(adj, S, r2, x);
    }
  }

  /** A component is connected through its own vertices. */
  lemma {:induction false} CompConnected(adj: Adj, S: set<int>, r: int, u: int, v: int)
    requires WellFormed(adj) && u in Comp(adj, S, r) && v in Comp(adj, S, r)
    ensures Reachable(adj, Comp(adj, S, r), u, v)
  {
    var A := Allowed(adj, S);
    CompSame(adj, S, r, u);
    CompMember(adj, S, u, v);
    var p :| IsPath(adj, p, A) && p[0] == u && p[|p|-1] == v;
    PathInsideReach(adj, A, p);
    forall k | 0 <= k < |p| ensures p[k] in Comp(adj, S, u) {
      assert p[k] in A;
    }
    assert IsPath(adj, p, Comp(adj, S, u));
  }

  /** The neighbourhood of a component lies inside the separator. */
  lemma {:induction false} NbhOfCompInSeparator(adj: Adj, S: set<int>, r: int)
    requires InRange(adj)
    ensures Nbh(adj, Comp(adj, S, r)) <= S
  {
    forall u | u in Nbh(adj, Comp(adj, S, r)) ensures u in S {
      var w :| w in Comp(adj, S, r) && Adjacent(adj, w, u);
      CompClosed(adj, S, r, w, u);
    }
  }

  /** A path through vertices outside S that starts outside a closed set B stays outside B. */
  lemma {:induction false} PathStaysOutside(adj: Adj, S: set<int>, B: set<int>, p: seq<int>)
    requires WellFormed(adj) && ClosedIn(adj, S, B)
    requires IsPath(adj, p, Allowed(adj, S)) && p[0] !in B
    ensures forall k | 0 <= k < |p| :: p[k] !in B
  {
    var k := 0;
    while k < |p| - 1
      invariant 0 <= k < |p| && forall j | 0 <= j <= k :: p[j] !in B
    {
      assert Adjacent(adj, p[k], p[k+1]);
      assert p[k+1] in Allowed(adj, S) && p[k] in Allowed(adj, S);
      assert Adjacent(adj, p[k+1], p[k]);
      k := k + 1;
    }
  }

  /** A path through vertices outside S that starts inside a closed set B stays inside B. */
  lemma {:induction false} PathStaysInside(adj: Adj, S: set<int>, B: set<int>, p: seq<int>)
    requires ClosedIn(adj, S, B)
    requires IsPath(adj, p, Allowed(adj, S)) && p[0] in B
    ensures forall k | 0 <= k < |p| :: p[k] in B
  {
    var k := 0;
    while k < |p| - 1
      invariant 0 <= k < |p| && forall j | 0 <= j <= k :: p[j] in B
    {
      assert p[k] in Allowed(adj, S);
      assert Adjacent(adj, p[k], p[k+1]);
      k := k + 1;
    }
  }

  /** The vertices added to a closed set, when the old part was closed and the
      new part is reachable from r, are exactly the component of r. */
  lemma {:induction false} NewBlockIsComponent(adj: Adj, S: set<int>, Bold: set<int>, Bnew: set<int>, r: int)
    requires WellFormed(adj)
    requires S <= Bold <= Bnew && ClosedIn(adj, S, Bold) && ClosedIn(adj, S, Bnew)
    requires 0 <= r < |adj| && r !in Bold && r in Bnew
    requires forall w | w in Bnew - Bold :: 0 <= w < |adj| && Reachable(adj, Allowed(adj, S), r, w)
    ensures Bnew - Bold == Comp(adj, S, r)
  {
    var A := Allowed(adj, S);
    forall u | u in Comp(adj, S, r) ensures u in Bnew - Bold {
      var p :| IsPath(adj, p, A) && p[0] == r && p[|p|-1] == u;
      PathStaysOutside(adj, S, Bold, p);
      PathStaysInside(adj, S, Bnew, p);
    }
  }

  // ---------------------------------------------------------------------
  // Connectivity with respect to a separator, full components and PMCs

  /** Every vertex not in S belongs to the component it roots. */
  ghost function CompWithNbh(adj: Adj, S: set<int>, r: int): set<int> {
    Comp(adj, S, r) + Nbh(adj, Comp(adj, S, r))
  }

  /** v and u are adjacent, or both lie in C + N(C) for a component C of G - S:
      they are joined by a path whose inner vertices avoid S. */
  ghost predicate ConnectedWrt(adj: Adj, S: set<int>, v: int, u: int) {
    Adjacent(adj, v, u) ||
    exists r | r in Allowed(adj, S) :: v in CompWithNbh(adj, S, r) && u in CompWithNbh(adj, S, r)
  }

  /** A larger separator has smaller components with their neighbourhoods. */
  lemma {:induction false} CompWithNbhMono(adj: Adj, S: set<int>, T: set<int>, r: int)
    requires InRange(adj) && S <= T
    ensures CompWithNbh(adj, T, r) <= CompWithNbh(adj, S, r)
  {
    var CT, CS := Comp(adj, T, r), Comp(adj, S, r);
    assert Allowed(adj, T) <= Allowed(adj, S);
    forall x | x in CT ensures x in CS {
      ReachMono(adj, Allowed(adj, T), Allowed(adj, S), r, x);
    }
    forall x | x in Nbh(adj, CT) ensures x in CS + Nbh(adj, CS) {
      var w :| w in CT && Adjacent(adj, w, x);
      assert w in CS;
    }
  }

  /** Connectivity with respect to a separator survives shrinking it. */
  lemma {:induction false} ConnectedWrtMono(adj: Adj, S: set<int>, T: set<int>, v: int, u: int)
    requires InRange(adj) && S <= T && ConnectedWrt(adj, T, v, u)
    ensures ConnectedWrt(adj, S, v, u)
  {
    if !Adjacent(adj, v, u) {
      var r :| r in Allowed(adj, T) && v in CompWithNbh(adj, T, r) && u in CompWithNbh(adj, T, r);
      CompWithNbhMono(adj, S, T, r);
      assert r in Allowed(adj, S);
    }
  }

  lemma {:induction false} ConnectedWrtSym(adj: Adj, S: set<int>, v: int, u: int)
    requires Symmetric(adj) && ConnectedWrt(adj, S, v, u)
    ensures ConnectedWrt(adj, S, u, v)
  {
  }

  /** Two vertices outside S that are not connected with respect to S lie
      in different components of G - S. */
  lemma {:induction false} UnconnectedApart(adj: Adj, S: set<int>, v: int, u: int)
    requires v in Allowed(adj, S) && !ConnectedWrt(adj, S, v, u)
    ensures u !in Comp(adj, S, v)
  {
    CompHasRoot(adj, S, v);
  }

  /** Vertex a of S is not connected to b with respect to S, but is once a
      leaves S: then G - S has two vertices in different components. */
  lemma {:induction false} DroppedVertexSplits(adj: Adj, S: set<int>, a: int, b: int)
    requires WellFormed(adj) && a in S && a != b
    requires !ConnectedWrt(adj, S, a, b) && ConnectedWrt(adj, S - {a}, a, b)
    ensures exists v, u | v in Allowed(adj, S) && u in Allowed(adj, S) :: u !in Comp(adj, S, v)
  {
    var S0 := S - {a};
    var r :| r in Allowed(adj, S0) && a in CompWithNbh(adj, S0, r) && b in CompWithNbh(adj, S0, r);
    var C := Comp(adj, S0, r);
    if a !in C {
      var w :| w in C && Adjacent(adj, w, a);
      CompClosed(adj, S0, r, w, a);
    }
    var d := b;
    if b !in C {
      var w :| w in C && Adjacent(adj, w, b);
      d := w;
    }
    CompMember(adj, S0, r, d);
    assert d in Allowed(adj, S);
    CompConnected(adj, S0, r, a, d);
    var p :| IsPath(adj, p, C) && p[0] == a && p[|p|-1] == d;
    var w1 := p[1];
    assert Adjacent(adj, a, w1);
    CompMember(adj, S0, r, w1);
    assert w1 in Allowed(adj, S);
    if forall v, u | v in Allowed(adj, S) && u in Allowed(adj, S) :: u in Comp(adj, S, v) {
      CompMemberNotIn(adj, S, d, a);
      CompHasRoot(adj, S, d);
      assert false;
    }
  }

  /** The exact test the program performs on a candidate potential maximal
      clique P (a list, possibly with repeats): every two distinct members are
      connected with respect to P, and no component of G - P has as many
      neighbours as P has entries. */
  ghost predicate PmcTest(adj: Adj, P: seq<int>) {
    (forall x, y | x in P && y in P && x != y :: ConnectedWrt(adj, Elems(P), x, y)) &&
    (forall r | 0 <= r < |adj| && r !in P :: |Nbh(adj, Comp(adj, Elems(P), r))| != |P|)
  }

  /** A full component of G - S has every vertex of S as a neighbour. */
  ghost predicate HasFullComponent(adj: Adj, S: set<int>) {
    exists r | r in Allowed(adj, S) :: S <= Nbh(adj, Comp(adj, S, r))
  }

  /** The characterisation of potential maximal cliques by Bouchitte and
      Todinca: P is a PMC iff G - P has no full component and every two
      vertices of P are adjacent or share a component of G - P in whose
      neighbourhood they both lie. */
  ghost predicate IsPotentialMaximalClique(adj: Adj, P: set<int>) {
    !HasFullComponent(adj, P) &&
    forall x, y | x in P && y in P && x != y ::
      Adjacent(adj, x, y) ||
      exists r | r in Allowed(adj, P) :: x in Nbh(adj, Comp(adj, P, r)) && y in Nbh(adj, Comp(adj, P, r))
  }

  lemma {:induction false} CardSubset(A: set<int>, B: set<int>)
    requires A <= B
    ensures |A| <= |B| && (|A| == |B| ==> A == B)
  {
    assert B == A + (B - A);
    assert |B| == |A| + |B - A|;
  }

  lemma {:induction false} NoRepeatsCard(s: seq<int>)
    requires NoRepeats(s)
    ensures |Elems(s)| == |s|
  {
    if |s| > 0 {
      var t := s[..|s|-1];
      NoRepeatsCard(t);
      assert Elems(s) == Elems(t) + {s[|s|-1]};
      assert s[|s|-1] !in Elems(t);
    }
  }

  /** For a list without repeats the program's test is exactly the
      potential-maximal-clique characterisation. */
  lemma {:induction false} PmcTestIsPmc(adj: Adj, P: seq<int>)
    requires WellFormed(adj) && NoRepeats(P)
    requires forall x | x in P :: 0 <= x < |adj|
    ensures PmcTest(adj, P) <==> IsPotentialMaximalClique(adj, Elems(P))
  {
    var S := Elems(P);
    NoRepeatsCard(P);
    forall r | 0 <= r < |adj| && r !in P
      ensures |Nbh(adj, Comp(adj, S, r))| != |P| <==> !(S <= Nbh(adj, Comp(adj, S, r)))
    {
      NbhOfCompInSeparator(adj, S, r);
      CardSubset(Nbh(adj, Comp(adj, S, r)), S);
    }
    forall x, y | x in P && y in P && x != y
      ensures ConnectedWrt(adj, S, x, y) <==>
        (Adjacent(adj, x, y) ||
         exists r | r in Allowed(adj, S) :: x in Nbh(adj, Comp(adj, S, r)) && y in Nbh(adj, Comp(adj, S, r)))
    {
      forall r | r in Allowed(adj, S) && x in CompWithNbh(adj, S, r) && y in CompWithNbh(adj, S, r)
        ensures x in Nbh(adj, Comp(adj, S, r)) && y in Nbh(adj, Comp(adj, S, r))
      {
        assert x !in Comp(adj, S, r) by { CompMemberNotIn(adj, S, r, x); }
        assert y !in Comp(adj, S, r) by { CompMemberNotIn(adj, S, r, y); }
      }
    }
  }

  lemma {:induction false} CompMemberNotIn(adj: Adj, S: set<int>, r: int, x: int)
    requires x in S
    ensures x !in Comp(adj, S, r)
  {
    if x in Comp(adj, S, r) {
      CompMember(adj, S, r, x);
    }
  }

  /** For a vertex i outside S, the members of S connected to i with respect
      to S are exactly the neighbours of i's component. */
  lemma {:induction false} ConnectedToNbh(adj: Adj, S: set<int>, i: int, j: int)
    requires WellFormed(adj) && 0 <= i < |adj| && i !in S && j in S
    ensures ConnectedWrt(adj, S, i, j) <==> j in Nbh(adj, Comp(adj, S, i))
  {
    CompHasRoot(adj, S, i);
    CompMemberNotIn(adj, S, i, j);
    if Adjacent(adj, i, j) {
      assert j in Nbh(adj, Comp(adj, S, i));
    }
    if r :| r in Allowed(adj, S) && i in CompWithNbh(adj, S, r) && j in CompWithNbh(adj, S, r) {
      NbhOfCompInSeparator(adj, S, r);
      assert i in Comp(adj, S, r);
      CompSame(adj, S, r, i);
      CompMemberNotIn(adj, S, r, j);
    }
    if j in Nbh(adj, Comp(adj, S, i)) {
      assert i in Allowed(adj, S) && i in CompWithNbh(adj, S, i);
    }
  }

  /** All vertices whose component in G has more than one vertex lie in one
      component: the graph is connected apart from isolated vertices. */
  ghost predicate ConnectedOrIsolated(adj: Adj) {
    forall a, b | 0 <= a < |adj| && 0 <= b < |adj| && |Comp(adj, {}, a)| > 1 && |Comp(adj, {}, b)| > 1 ::
      b in Comp(adj, {}, a)
  }

  /** Every two entries of the list, at distinct positions, are adjacent. */
  ghost predicate CliqueList(adj: Adj, c: seq<int>) {
    forall i, j | 0 <= i < j < |c| :: Adjacent(adj, c[i], c[j])
  }

  /** In a graph without self-loops a clique list has no repeated vertex, and
      any two of its distinct members are adjacent. */
  lemma {:induction false} CliqueListDistinct(adj: Adj, c: seq<int>)
    requires WellFormed(adj) && CliqueList(adj, c)
    ensures NoRepeats(c)
    ensures forall x, y | x in c && y in c && x != y :: Adjacent(adj, x, y)
  {
    forall i, j | 0 <= i < j < |c| ensures c[i] != c[j] {
      assert Adjacent(adj, c[i], c[j]);
    }
    forall x, y | x in c && y in c && x != y ensures Adjacent(adj, x, y) {
      var i :| 0 <= i < |c| && c[i] == x;
      var j :| 0 <= j < |c| && c[j] == y;
      if i < j {
        assert Adjacent(adj, c[i], c[j]);
      } else {
        assert Adjacent(adj, c[j], c[i]);
      }
    }
  }

  /** A list has at least as many entries as distinct elements. */
  lemma {:induction false} ElemsCard(s: seq<int>)
    ensures |Elems(s)| <= |s|
  {
    if |s| > 0 {
      var t := s[..|s|-1];
      ElemsCard(t);
      assert Elems(s) == Elems(t) + {s[|s|-1]};
    }
  }

  // ---------------------------------------------------------------------
  // Adding edges

  /** Every edge of a0 is an edge of a1, on the same vertices. */
  ghost predicate EdgeSub(a0: Adj, a1: Adj) {
    |a0| == |a1| && forall v, u :: Adjacent(a0, v, u) ==> Adjacent(a1, v, u)
  }

  /** a1 is a0 with edges at x added: x has no edge in a0, and the edges of
      a1 that avoid x are those of a0. */
  ghost predicate AddsEdgesAt(a0: Adj, a1: Adj, x: int) {
    EdgeSub(a0, a1) && 0 <= x < |a0| &&
    (forall v :: !Adjacent(a0, x, v) && !Adjacent(a0, v, x)) &&
    (forall v, u | v != x && u != x && Adjacent(a1, v, u) :: Adjacent(a0, v, u))
  }

  /** More edges give larger components. */
  lemma {:induction false} CompLift(a0: Adj, a1: Adj, S: set<int>, r: int)
    requires EdgeSub(a0, a1)
    ensures Comp(a0, S, r) <= Comp(a1, S, r)
  {
    assert Allowed(a0, S) == Allowed(a1, S);
    forall u | u in Comp(a0, S, r) ensures u in Comp(a1, S, r) {
      CompMember(a0, S, r, u);
      var p :| IsPath(a0, p, Allowed(a0, S)) && p[0] == r && p[|p| - 1] == u;
      assert IsPath(a1, p, Allowed(a1, S));
    }
  }

  /** A neighbour of C0 in a0 is a neighbour in a1 of any larger set C1 that
      does not contain it. */
  lemma {:induction false} NbhGrow(a0: Adj, a1: Adj, C0: set<int>, C1: set<int>, u: int)
    requires EdgeSub(a0, a1) && C0 <= C1 && u !in C1 && u in Nbh(a0, C0)
    ensures u in Nbh(a1, C1)
  {
    var w :| w in C0 && Adjacent(a0, w, u);
    assert Adjacent(a1, w, u);
  }

  /** A full component stays full when edges are added. */
  lemma {:induction false} FullLift(a0: Adj, a1: Adj, P: set<int>)
    requires EdgeSub(a0, a1) && HasFullComponent(a0, P)
    ensures HasFullComponent(a1, P)
  {
    var r :| r in Allowed(a0, P) && P <= Nbh(a0, Comp(a0, P, r));
    CompLift(a0, a1, P, r);
    forall u | u in P ensures u in Nbh(a1, Comp(a1, P, r)) {
      CompMemberNotIn(a1, P, r, u);
      NbhGrow(a0, a1, Comp(a0, P, r), Comp(a1, P, r), u);
    }
    assert r in Allowed(a1, P);
  }

  /** A potential maximal clique of a0 stays one in a1 as long as a1 gives
      it no full component: every pair keeps its edge or shared component. */
  lemma {:induction false} PmcLift(a0: Adj, a1: Adj, P: set<int>)
    requires EdgeSub(a0, a1) && IsPotentialMaximalClique(a0, P) && !HasFullComponent(a1, P)
    ensures IsPotentialMaximalClique(a1, P)
  {
    forall x, y | x in P && y in P && x != y && !Adjacent(a1, x, y)
      ensures exists r | r in Allowed(a1, P) :: x in Nbh(a1, Comp(a1, P, r)) && y in Nbh(a1, Comp(a1, P, r))
    {
      var r :| r in Allowed(a0, P) && x in Nbh(a0, Comp(a0, P, r)) && y in Nbh(a0, Comp(a0, P, r));
      CompLift(a0, a1, P, r);
      CompMemberNotIn(a1, P, r, x);
      CompMemberNotIn(a1, P, r, y);
      NbhGrow(a0, a1, Comp(a0, P, r), Comp(a1, P, r), x);
      NbhGrow(a0, a1, Comp(a0, P, r), Comp(a1, P, r), y);
      assert r in Allowed(a1, P);
    }
  }

  /** Graphs with the same edges have the same potential maximal cliques. */
  lemma {:induction false} SameEdgesPmc(a0: Adj, a1: Adj, P: set<int>)
    requires EdgeSub(a0, a1) && EdgeSub(a1, a0) && IsPotentialMaximalClique(a0, P)
    ensures IsPotentialMaximalClique(a1, P)
  {
    if HasFullComponent(a1, P) {
      FullLift(a1, a0, P);
    }
    PmcLift(a0, a1, P);
  }

  /** A path of a0 from a vertex other than x never meets x, which has no
      edge there, so the component of r in a0 - S lies in a1 - (S + x). */
  lemma {:induction false} AvoidingLift(a0: Adj, a1: Adj, x: int, S: set<int>, r: int)
    requires AddsEdgesAt(a0, a1, x) && r != x
    ensures Comp(a0, S, r) <= Comp(a1, S + {x}, r)
  {
    forall u | u in Comp(a0, S, r) ensures u in Comp(a1, S + {x}, r) {
      CompMember(a0, S, r, u);
      var p :| IsPath(a0, p, Allowed(a0, S)) && p[0] == r && p[|p| - 1] == u;
      forall k | 0 <= k < |p| ensures p[k] in Allowed(a1, S + {x}) {
        if k < |p| - 1 {
          assert Adjacent(a0, p[k], p[k + 1]);
        } else if k > 0 {
          assert Adjacent(a0, p[k - 1], p[k]);
        }
      }
      assert IsPath(a1, p, Allowed(a1, S + {x}));
    }
  }

  /** The components of a1 - (S + x) avoid x, so they use only edges of a0. */
  lemma {:induction false} AvoidingDrop(a0: Adj, a1: Adj, x: int, S: set<int>, r: int)
    requires AddsEdgesAt(a0, a1, x)
    ensures Comp(a1, S + {x}, r) <= Comp(a0, S, r)
  {
    forall u | u in Comp(a1, S + {x}, r) ensures u in Comp(a0, S, r) {
      CompMember(a1, S + {x}, r, u);
      var p :| IsPath(a1, p, Allowed(a1, S + {x})) && p[0] == r && p[|p| - 1] == u;
      forall k | 0 <= k < |p| - 1 ensures Adjacent(a0, p[k], p[k + 1]) {
        assert p[k] in Allowed(a1, S + {x}) && p[k + 1] in Allowed(a1, S + {x});
      }
      assert IsPath(a0, p, Allowed(a0, S));
    }
  }

  /** When x joins with its edges, a full component of G - (P + x) gives a
      full component of the old G - P. */
  lemma {:induction false} FullWithNew(a0: Adj, a1: Adj, x: int, P: set<int>)
    requires AddsEdgesAt(a0, a1, x) && x !in P && HasFullComponent(a1, P + {x})
    ensures HasFullComponent(a0, P)
  {
    var r :| r in Allowed(a1, P + {x}) && P + {x} <= Nbh(a1, Comp(a1, P + {x}, r));
    AvoidingDrop(a0, a1, x, P, r);
    forall u | u in P ensures u in Nbh(a0, Comp(a0, P, r)) {
      var w :| w in Comp(a1, P + {x}, r) && Adjacent(a1, w, u);
      CompMemberNotIn(a1, P + {x}, r, x);
      assert Adjacent(a0, w, u);
      CompMemberNotIn(a0, P, r, u);
    }
    assert r in Allowed(a0, P);
  }

  /** Two members of P that share a component neighbourhood in the old
      G - P share one in G - (P + x). */
  lemma {:induction false} SharedWithNew(a0: Adj, a1: Adj, x: int, P: set<int>, u: int, v: int, r: int)
    requires WellFormed(a0) && AddsEdgesAt(a0, a1, x) && u in P && v in P
    requires r in Allowed(a0, P) && u in Nbh(a0, Comp(a0, P, r)) && v in Nbh(a0, Comp(a0, P, r))
    ensures exists r' | r' in Allowed(a1, P + {x}) ::
      u in Nbh(a1, Comp(a1, P + {x}, r')) && v in Nbh(a1, Comp(a1, P + {x}, r'))
  {
    var w :| w in Comp(a0, P, r) && Adjacent(a0, w, u);
    assert w != x;
    CompSame(a0, P, r, w);
    AvoidingLift(a0, a1, x, P, w);
    var C0, C1 := Comp(a0, P, w), Comp(a1, P + {x}, w);
    CompMemberNotIn(a1, P + {x}, w, u);
    CompMemberNotIn(a1, P + {x}, w, v);
    NbhGrow(a0, a1, C0, C1, u);
    NbhGrow(a0, a1, C0, C1, v);
    CompHasRoot(a1, P + {x}, w);
    CompMember(a1, P + {x}, w, w);
  }

  // ---------------------------------------------------------------------
  // Minimal separators

  /** S is a minimal separator: G - S has two different full components. */
  ghost predicate IsMinimalSeparator(adj: Adj, S: set<int>) {
    exists r1, r2 | r1 in Allowed(adj, S) && r2 in Allowed(adj, S) && r2 !in Comp(adj, S, r1) ::
      S <= Nbh(adj, Comp(adj, S, r1)) && S <= Nbh(adj, Comp(adj, S, r2))
  }

  /** The neighbourhood t of a component C of G - B lies in B, and C is a
      full component of G - t. */
  lemma {:induction false} BlockComponent(adj: Adj, B: set<int>, r: int)
    requires WellFormed(adj) && r in Allowed(adj, B)
    ensures Nbh(adj, Comp(adj, B, r)) <= B
    ensures r in Allowed(adj, Nbh(adj, Comp(adj, B, r)))
    ensures Comp(adj, Nbh(adj, Comp(adj, B, r)), r) == Comp(adj, B, r)
  {
    var C := Comp(adj, B, r);
    var t := Nbh(adj, C);
    NbhOfCompInSeparator(adj, B, r);
    ReachRefl(adj, Allowed(adj, B), r);
    assert r in C;
    assert Allowed(adj, B) <= Allowed(adj, t);
    forall u | u in C ensures u in Comp(adj, t, r) {
      CompMember(adj, B, r, u);
      ReachMono(adj, Allowed(adj, B), Allowed(adj, t), r, u);
    }
    assert ClosedIn(adj, t, C + t) by {
      forall w, u | w in C + t && w !in t && Adjacent(adj, w, u) ensures u in C + t {
        CompClosed(adj, B, r, w, u);
      }
    }
    forall u | u in Comp(adj, t, r) ensures u in C {
      CompMember(adj, t, r, u);
      var p :| IsPath(adj, p, Allowed(adj, t)) && p[0] == r && p[|p| - 1] == u;
      PathStaysInside(adj, t, C + t, p);
    }
  }

  /** A vertex of the block whose neighbours all lie in the block is not a
      neighbour of a component of G - B. */
  lemma {:induction false} CentreOutside(adj: Adj, B: set<int>, r: int, v: int)
    requires WellFormed(adj) && 0 <= v < |adj| && v in B && Elems(adj[v]) <= B
    ensures v !in Nbh(adj, Comp(adj, B, r))
  {
    forall w | w in Comp(adj, B, r) ensures !Adjacent(adj, w, v) {
      CompMember(adj, B, r, w);
    }
  }

  /** The neighbourhood of a component of G - N[v] is a minimal separator:
      that component and the component of v are both full. */
  lemma {:induction false} SeedIsMinimal(adj: Adj, v: int, B: set<int>, r: int)
    requires WellFormed(adj) && 0 <= v < |adj| && B == Elems(adj[v]) + {v} && r in Allowed(adj, B)
    ensures IsMinimalSeparator(adj, Nbh(adj, Comp(adj, B, r)))
  {
    var t := Nbh(adj, Comp(adj, B, r));
    BlockComponent(adj, B, r);
    CentreOutside(adj, B, r, v);
    CompHasRoot(adj, t, v);
    forall u | u in t ensures u in Nbh(adj, Comp(adj, t, v)) {
      assert Adjacent(adj, v, u);
      CompMemberNotIn(adj, t, v, u);
    }
    assert v !in Comp(adj, t, r);
    assert v in Allowed(adj, t);
  }

  /** Two different full components of G - S: one of them does not hold r. */
  lemma {:induction false} FullAvoiding(adj: Adj, S: set<int>, r: int) returns (f: int)
    requires WellFormed(adj) && IsMinimalSeparator(adj, S)
    ensures f in Allowed(adj, S) && S <= Nbh(adj, Comp(adj, S, f)) && r !in Comp(adj, S, f)
  {
    var r1, r2 :| r1 in Allowed(adj, S) && r2 in Allowed(adj, S) && r2 !in Comp(adj, S, r1) &&
                  S <= Nbh(adj, Comp(adj, S, r1)) && S <= Nbh(adj, Comp(adj, S, r2));
    if r in Comp(adj, S, r1) && r in Comp(adj, S, r2) {
      CompSame(adj, S, r1, r);
      CompSame(adj, S, r2, r);
      CompHasRoot(adj, S, r2);
      assert false;
    }
    f := if r in Comp(adj, S, r1) then r2 else r1;
  }

  /** A full component F of G - S other than the one holding the component
      C of G - B, for S <= B, meets neither C nor its neighbourhood. */
  lemma {:induction false} FullApart(adj: Adj, S: set<int>, B: set<int>, r: int, f: int)
    requires WellFormed(adj) && S <= B && r in Allowed(adj, B) && r !in Comp(adj, S, f)
    ensures Comp(adj, S, f) !! (Comp(adj, B, r) + Nbh(adj, Comp(adj, B, r)))
  {
    var C, F := Comp(adj, B, r), Comp(adj, S, f);
    forall y | y in F && y in C ensures false {
      CompMember(adj, B, r, y);
      ReachMono(adj, Allowed(adj, B), Allowed(adj, S), r, y);
      assert y in Comp(adj, S, r);
      CompSame(adj, S, r, y);
      CompSame(adj, S, f, y);
      CompHasRoot(adj, S, r);
    }
    forall y | y in F && y in Nbh(adj, C) ensures false {
      var w :| w in C && Adjacent(adj, w, y);
      assert Adjacent(adj, y, w);
      CompMember(adj, B, r, w);
      CompClosed(adj, S, f, y, w);
    }
  }

  /** The step of the closure: for a minimal separator S and x in S, the
      neighbourhood of a component of G - (S + N(x)) is a minimal separator,
      with that component and the component of x as full components. */
  lemma {:induction false} CloseIsMinimal(adj: Adj, S: set<int>, x: int, B: set<int>, r: int)
    requires WellFormed(adj) && IsMinimalSeparator(adj, S) && x in S && 0 <= x < |adj|
    requires B == S + Elems(adj[x]) && r in Allowed(adj, B)
    ensures IsMinimalSeparator(adj, Nbh(adj, Comp(adj, B, r)))
  {
    var t := Nbh(adj, Comp(adj, B, r));
    BlockComponent(adj, B, r);
    CentreOutside(adj, B, r, x);
    CompHasRoot(adj, t, x);
    var f := FullAvoiding(adj, S, r);
    FullApart(adj, S, B, r, f);
    var F := Comp(adj, S, f);
    var z :| z in F && Adjacent(adj, z, x);
    forall u | u in t ensures u in Nbh(adj, Comp(adj, t, x)) {
      CompMemberNotIn(adj, t, x, u);
      if !Adjacent(adj, x, u) {
        assert u in S;
        var z' :| z' in F && Adjacent(adj, z', u);
        CompConnected(adj, S, f, z, z');
        forall y | y in F ensures y in Allowed(adj, t) {
          CompMember(adj, S, f, y);
        }
        ReachMono(adj, F, Allowed(adj, t), z, z');
        assert Adjacent(adj, x, z);
        ReachPrepend(adj, Allowed(adj, t), x, z, z');
      }
    }
    assert x !in Comp(adj, t, r);
    assert x in Allowed(adj, t);
  }

  /** A component of G - S that does not hold x is also a component of
      G - (S + x). */
  lemma {:induction false} CompAvoiding(adj: Adj, S: set<int>, f: int, x: int)
    requires InRange(adj) && x !in Comp(adj, S, f)
    ensures Comp(adj, S, f) <= Comp(adj, S + {x}, f)
  {
    forall u | u in Comp(adj, S, f) ensures u in Comp(adj, S + {x}, f) {
      CompMember(adj, S, f, u);
      var p :| IsPath(adj, p, Allowed(adj, S)) && p[0] == f && p[|p| - 1] == u;
      PathInsideReach(adj, Allowed(adj, S), p);
      forall k | 0 <= k < |p| ensures p[k] in Allowed(adj, S + {x}) {
        assert p[k] in Comp(adj, S, f);
      }
      assert IsPath(adj, p, Allowed(adj, S + {x}));
    }
  }
}
