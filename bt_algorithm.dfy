/** The dynamic program of Bouchitte and Todinca over potential maximal
    cliques (PMCs). Its states are pairs (S, C) of a separator S and a
    component C of G - S; a PMC P inside S + C realises the state, at the
    cost of the larger of |P| - 1 and the costs of the states of the
    components of G - P inside C. The root state is (no separator, all
    vertices); its cost is the width, and the bags chosen below it give the
    fill edges of a triangulation. */
module BtAlgorithm {
  import opened GraphTheory
  import opened Graphs
  import opened Utils
  import opened Wrappers

  /** A separator and a component of the graph without it, as increasing
      lists. Each list stands for the id it is interned under. */
  datatype State = State(sep: seq<int>, comp: seq<int>)

  /** A PMC, by its position in the input list, and a state it realises. */
  datatype Triplet = Triplet(pmc: int, sep: seq<int>, comp: seq<int>)

  /** The width, or -1 when the root state is never reached, and the fill edges. */
  datatype BtResult = BtResult(width: int, fill: seq<Edge>)

  /** The cost of combining two costs. */
  function MergeCost(c1: int, c2: int): (r: int)
    ensures r >= c1 && r >= c2 && (r == c1 || r == c2)
  {
    if c1 < c2 then c2 else c1
  }

  /** The cost of a bag; the graph and the parent separator do not enter. */
  function CliqueCost(pmc: seq<int>): int {
    |pmc| - 1
  }

  /** The members of S below n, in increasing order: the sorted vector a
      set of vertices is interned as. */
  ghost function InOrder(S: set<int>, n: nat): (r: seq<int>)
    ensures StrictlyIncreasing(r)
    ensures forall x :: x in r <==> x in S && 0 <= x < n
  {
    if n == 0 then []
    else
      var rest := InOrder(S, n - 1);
      assert forall i | 0 <= i < |rest| :: rest[i] in rest && rest[i] < n - 1;
      rest + if n - 1 in S then [n - 1] else []
  }

  /** A sorted list of the vertices of S is InOrder(S). */
  lemma {:induction false} ListedInOrder(l: seq<int>, S: set<int>, n: nat)
    requires StrictlyIncreasing(l) && Elems(l) == S && forall x | x in S :: 0 <= x < n
    ensures l == InOrder(S, n)
  {
    StrictlyIncreasingUnique(l, InOrder(S, n));
  }

  function AllVertices(n: nat): (r: seq<int>)
    ensures |r| == n && forall i | 0 <= i < n :: r[i] == i
  {
    seq(n, i => i)
  }

  /** The root state: no separator, every vertex. */
  function RootState(n: nat): State {
    State([], AllVertices(n))
  }

  function Size(t: Triplet): nat {
    |t.sep| + |t.comp|
  }

  // ---------------------------------------------------------------------
  // Child states

  /** The state below a bag P for the component of G - P that contains v:
      that component's neighbourhood and the component itself. */
  ghost function ChildOf(adj: Adj, pmc: seq<int>, v: int): State {
    var C := Comp(adj, Elems(pmc), v);
    State(InOrder(Nbh(adj, C), |adj|), InOrder(C, |adj|))
  }

  /** Each listed state is the child state of a vertex of comp outside pmc. */
  ghost predicate ChildrenFrom(adj: Adj, pmc: seq<int>, comp: seq<int>, children: seq<State>) {
    forall k | 0 <= k < |children| :: exists v | v in comp && v !in pmc :: children[k] == ChildOf(adj, pmc, v)
  }

  /** The child state of every marked vertex outside pmc is listed. */
  ghost predicate MarkedListed(adj: Adj, pmc: seq<int>, marked: set<int>, children: seq<State>) {
    forall x | x in marked && x !in pmc :: ChildOf(adj, pmc, x) in children
  }

  /** The states of the components of G - pmc that meet comp, each once per
      component, in the order their first vertex appears in comp. */
  method ChildStates(g: Graph, pmc: seq<int>, comp: seq<int>) returns (children: seq<State>)
    requires g.Valid() && Below(pmc, g.n) && Below(comp, g.n)
    ensures ChildrenFrom(g.adjList, pmc, comp, children)
    ensures forall v | v in comp && v !in pmc :: ChildOf(g.adjList, pmc, v) in children
  {
    var inPmc := g.MarkMembers(pmc);
    ghost var P := Elems(pmc);
    assert Marked(inPmc[..]) == P;
    children := [];
    for k := 0 to |comp|
      invariant ChildScan(g.adjList, pmc, comp, k, inPmc[..], children)
    {
      children := ChildStep(g, pmc, comp, k, inPmc, children);
    }
    forall v | v in comp && v !in pmc ensures ChildOf(g.adjList, pmc, v) in children {
      var j :| 0 <= j < |comp| && comp[j] == v;
      assert v in Marked(inPmc[..]);
    }
  }

  /** The scan of ChildStates before position k of comp: the marks hold pmc
      and whole components of G - pmc, among them those of comp[..k]. */
  ghost predicate ChildScan(adj: Adj, pmc: seq<int>, comp: seq<int>, k: int, marks: seq<bool>, children: seq<State>) {
    0 <= k <= |comp| &&
    Elems(pmc) <= Marked(marks) && ClosedIn(adj, Elems(pmc), Marked(marks)) &&
    MarkedListed(adj, pmc, Marked(marks), children) &&
    (forall j | 0 <= j < k :: comp[j] in Marked(marks)) &&
    ChildrenFrom(adj, pmc, comp, children)
  }

  /** One vertex of the scan: an unmarked one adds the state of its component. */
  method ChildStep(g: Graph, pmc: seq<int>, comp: seq<int>, k: int, inPmc: array<bool>, children: seq<State>)
    returns (children': seq<State>)
    requires g.Valid() && inPmc.Length == g.n && Below(pmc, g.n) && Below(comp, g.n)
    requires ChildScan(g.adjList, pmc, comp, k, inPmc[..], children) && k < |comp|
    modifies inPmc
    ensures ChildScan(g.adjList, pmc, comp, k + 1, inPmc[..], children')
  {
    var v := comp[k];
    children' := children;
    ghost var b0 := inPmc[..];
    if !inPmc[v] {
      assert v !in Marked(b0);
      var c := g.MarkComponent(v, inPmc, Elems(pmc));
      var child := ChildState(g, c, pmc, v);
      ChildScanStep(g.adjList, pmc, comp, k, b0, inPmc[..], children);
      children' := children + [child];
    } else {
      assert v in Marked(b0);
    }
  }

  /** Marking the component of an unmarked comp[k] and listing its state keeps the scan. */
  lemma {:induction false} ChildScanStep(adj: Adj, pmc: seq<int>, comp: seq<int>, k: int, b0: seq<bool>, b1: seq<bool>, children: seq<State>)
    requires WellFormed(adj) && ChildScan(adj, pmc, comp, k, b0, children) && k < |comp|
    requires 0 <= comp[k] < |adj| && comp[k] !in Marked(b0) && |b1| == |b0|
    requires Marked(b1) == Marked(b0) + Comp(adj, Elems(pmc), comp[k])
    requires ClosedIn(adj, Elems(pmc), Marked(b1))
    ensures ChildScan(adj, pmc, comp, k + 1, b1, children + [ChildOf(adj, pmc, comp[k])])
  {
    var v := comp[k];
    assert v !in Elems(pmc);
    CompHasRoot(adj, Elems(pmc), v);
    NewChildListed(adj, pmc, comp, Marked(b0), Marked(b1), children, v, k);
  }

  /** The state of a component c of G - pmc found from v. */
  method ChildState(g: Graph, c: seq<int>, pmc: seq<int>, v: int) returns (child: State)
    requires g.Valid() && 0 <= v < g.n && Elems(c) == Comp(g.adjList, Elems(pmc), v)
    requires forall k | 0 <= k < |c| :: 0 <= c[k] < g.n
    ensures child == ChildOf(g.adjList, pmc, v)
  {
    var childSep := g.Neighbors(c);
    var childComp := SortAndDedupInts(c);
    ListedInOrder(childComp, Comp(g.adjList, Elems(pmc), v), g.n);
    ListedInOrder(childSep, Nbh(g.adjList, Comp(g.adjList, Elems(pmc), v)), g.n);
    child := State(childSep, childComp);
  }

  /** Adding the state of the component of v keeps the listing invariants. */
  lemma {:induction false} NewChildListed(adj: Adj, pmc: seq<int>, comp: seq<int>, before: set<int>, after: set<int>,
                       children: seq<State>, v: int, k: int)
    requires WellFormed(adj) && 0 <= k < |comp| && comp[k] == v && v !in pmc
    requires after == before + Comp(adj, Elems(pmc), v)
    requires MarkedListed(adj, pmc, before, children) && ChildrenFrom(adj, pmc, comp, children)
    ensures MarkedListed(adj, pmc, after, children + [ChildOf(adj, pmc, v)])
    ensures ChildrenFrom(adj, pmc, comp, children + [ChildOf(adj, pmc, v)])
  {
    var all := children + [ChildOf(adj, pmc, v)];
    forall x | x in after && x !in pmc ensures ChildOf(adj, pmc, x) in all {
      if x !in before {
        CompSame(adj, Elems(pmc), v, x);
      }
    }
    forall j | 0 <= j < |all| ensures exists u | u in comp && u !in pmc :: all[j] == ChildOf(adj, pmc, u) {
      if j < |children| {
        assert all[j] == children[j];
      } else {
        assert all[j] == ChildOf(adj, pmc, comp[k]);
      }
    }
  }

  /** cost is the cost of the bag pmc over comp given the stored costs dp:
      the larger of |pmc| - 1 and the stored costs of its child states,
      all of which are stored. */
  ghost predicate IsBagCost(adj: Adj, pmc: seq<int>, comp: seq<int>, dp: map<State, int>, cost: int) {
    cost >= |pmc| - 1 &&
    (forall v | v in comp && v !in pmc :: ChildOf(adj, pmc, v) in dp && dp[ChildOf(adj, pmc, v)] <= cost) &&
    (cost == |pmc| - 1 || exists v | v in comp && v !in pmc :: ChildOf(adj, pmc, v) in dp && cost == dp[ChildOf(adj, pmc, v)])
  }

  /** Some child state of the bag pmc over comp is not stored yet. */
  ghost predicate ChildMissing(adj: Adj, pmc: seq<int>, comp: seq<int>, dp: map<State, int>) {
    exists v | v in comp && v !in pmc :: ChildOf(adj, pmc, v) !in dp
  }

  /** Folds MergeCost from acc over the stored costs of the child states of
      the vertices of comp outside pmc, in order; None at the first child
      state that is not stored. */
  ghost function FoldCost(adj: Adj, pmc: seq<int>, comp: seq<int>, dp: map<State, int>, acc: int): (r: Option<int>)
    decreases |comp|
    ensures r.None? <==> exists v | v in comp && v !in pmc :: ChildOf(adj, pmc, v) !in dp
    ensures r.Some? ==> r.value >= acc
    ensures r.Some? ==>
      forall v | v in comp && v !in pmc :: ChildOf(adj, pmc, v) in dp && dp[ChildOf(adj, pmc, v)] <= r.value
    ensures r.Some? ==>
      (r.value == acc || exists v | v in comp && v !in pmc :: ChildOf(adj, pmc, v) in dp && r.value == dp[ChildOf(adj, pmc, v)])
  {
    if comp == [] then Some(acc)
    else
      assert forall v :: v in comp <==> v == comp[0] || v in comp[1..];
      var v := comp[0];
      if v in pmc then FoldCost(adj, pmc, comp[1..], dp, acc)
      else if ChildOf(adj, pmc, v) !in dp then None
      else FoldCost(adj, pmc, comp[1..], dp, MergeCost(acc, dp[ChildOf(adj, pmc, v)]))
  }

  /** The cost of the bag pmc over comp given the stored costs dp: None
      when a child state is missing, otherwise the bag cost. */
  ghost function BagCostOf(adj: Adj, pmc: seq<int>, comp: seq<int>, dp: map<State, int>): (r: Option<int>)
    ensures r.None? <==> ChildMissing(adj, pmc, comp, dp)
    ensures r.Some? ==> IsBagCost(adj, pmc, comp, dp, r.value)
  {
    FoldCost(adj, pmc, comp, dp, |pmc| - 1)
  }

  /** The bag cost is unique: it is the largest of |pmc| - 1 and the stored
      costs of the child states. */
  lemma {:induction false} BagCostUnique(adj: Adj, pmc: seq<int>, comp: seq<int>, dp: map<State, int>, c1: int, c2: int)
    requires IsBagCost(adj, pmc, comp, dp, c1) && IsBagCost(adj, pmc, comp, dp, c2)
    ensures c1 == c2
  {
    if c1 != |pmc| - 1 {
      var v :| v in comp && v !in pmc && ChildOf(adj, pmc, v) in dp && c1 == dp[ChildOf(adj, pmc, v)];
      assert c1 <= c2;
    }
    if c2 != |pmc| - 1 {
      var v :| v in comp && v !in pmc && ChildOf(adj, pmc, v) in dp && c2 == dp[ChildOf(adj, pmc, v)];
      assert c2 <= c1;
    }
  }

  /** The cost of the bag pmc over comp, or None as soon as a child state
      is not stored. */
  method BagCost(g: Graph, pmc: seq<int>, comp: seq<int>, dp: map<State, int>) returns (r: Option<int>)
    requires g.Valid() && Below(pmc, g.n) && Below(comp, g.n)
    ensures r.None? <==> ChildMissing(g.adjList, pmc, comp, dp)
    ensures r.Some? ==> IsBagCost(g.adjList, pmc, comp, dp, r.value)
    ensures r == BagCostOf(g.adjList, pmc, comp, dp)
  {
    var children := ChildStates(g, pmc, comp);
    r := MaxStored(children, dp, CliqueCost(pmc));
    if r.None? {
      var j :| 0 <= j < |children| && children[j] !in dp;
      assert ChildrenFrom(g.adjList, pmc, comp, children);
    } else {
      BagCostOfChildren(g.adjList, pmc, comp, dp, children, r.value);
      BagCostUnique(g.adjList, pmc, comp, dp, r.value, BagCostOf(g.adjList, pmc, comp, dp).value);
    }
  }

  /** Folds MergeCost over the stored costs of the states, starting from
      base; None at the first state that is not stored. */
  method MaxStored(states: seq<State>, dp: map<State, int>, base: int) returns (r: Option<int>)
    ensures r.None? <==> exists j | 0 <= j < |states| :: states[j] !in dp
    ensures r.Some? ==> r.value >= base && forall j | 0 <= j < |states| :: states[j] in dp && dp[states[j]] <= r.value
    ensures r.Some? ==> r.value == base || exists j | 0 <= j < |states| :: states[j] in dp && r.value == dp[states[j]]
  {
    var cost := base;
    for k := 0 to |states|
      invariant cost >= base
      invariant forall j | 0 <= j < k :: states[j] in dp && dp[states[j]] <= cost
      invariant cost == base || exists j | 0 <= j < k :: states[j] in dp && cost == dp[states[j]]
    {
      if states[k] in dp {
        cost := MergeCost(cost, dp[states[k]]);
      } else {
        return None;
      }
    }
    r := Some(cost);
  }

  /** The fold over the listed child states is the bag cost. */
  lemma {:induction false} BagCostOfChildren(adj: Adj, pmc: seq<int>, comp: seq<int>, dp: map<State, int>, children: seq<State>, cost: int)
    requires ChildrenFrom(adj, pmc, comp, children)
    requires forall v | v in comp && v !in pmc :: ChildOf(adj, pmc, v) in children
    requires cost >= |pmc| - 1 && forall j | 0 <= j < |children| :: children[j] in dp && dp[children[j]] <= cost
    requires cost == |pmc| - 1 || exists j | 0 <= j < |children| :: children[j] in dp && cost == dp[children[j]]
    ensures IsBagCost(adj, pmc, comp, dp, cost)
  {
    forall v | v in comp && v !in pmc ensures ChildOf(adj, pmc, v) in dp && dp[ChildOf(adj, pmc, v)] <= cost {
      var j :| 0 <= j < |children| && children[j] == ChildOf(adj, pmc, v);
    }
    if cost != |pmc| - 1 {
      var j :| 0 <= j < |children| && children[j] in dp && cost == dp[children[j]];
    }
  }

  // ---------------------------------------------------------------------
  // The table

  /** The stored cost of st is at least the bag cost of its chosen PMC:
      the bag fits, and every child state of the bag is stored at no more. */
  ghost predicate Achieves(adj: Adj, pmcs: seq<seq<int>>, dp: map<State, int>, opt: map<State, int>, st: State)
    requires st in dp && st in opt
  {
    0 <= opt[st] < |pmcs| && |pmcs[opt[st]]| - 1 <= dp[st] &&
    forall v | v in st.comp && v !in pmcs[opt[st]] ::
      ChildOf(adj, pmcs[opt[st]], v) in dp && dp[ChildOf(adj, pmcs[opt[st]], v)] <= dp[st]
  }

  /** Every stored state has a choice, which is a triplet of ts and achieves the stored cost. */
  ghost predicate Table(adj: Adj, pmcs: seq<seq<int>>, ts: seq<Triplet>, dp: map<State, int>, opt: map<State, int>) {
    dp.Keys == opt.Keys &&
    forall st | st in dp :: Achieves(adj, pmcs, dp, opt, st) && Triplet(opt[st], st.sep, st.comp) in ts
  }

  /** The table after the step of triplet t from (dp, opt): when every
      child state of its bag is stored and its state is new or the bag cost
      is lower than the stored one, the state takes the bag cost and the
      triplet's PMC; otherwise nothing changes. */
  ghost function DpStep(adj: Adj, pmcs: seq<seq<int>>, t: Triplet, dp: map<State, int>, opt: map<State, int>)
    : (r: (map<State, int>, map<State, int>))
    requires 0 <= t.pmc < |pmcs|
    ensures forall st | st in dp :: st in r.0 && r.0[st] <= dp[st]
    ensures BagCostOf(adj, pmcs[t.pmc], t.comp, dp).Some? ==>
      State(t.sep, t.comp) in r.0 && r.0[State(t.sep, t.comp)] <= BagCostOf(adj, pmcs[t.pmc], t.comp, dp).value
    ensures forall st | st in r.0 :: st in dp || st == State(t.sep, t.comp)
  {
    var c := BagCostOf(adj, pmcs[t.pmc], t.comp, dp);
    var st := State(t.sep, t.comp);
    if c.Some? && (st !in dp || c.value < dp[st]) then (dp[st := c.value], opt[st := t.pmc]) else (dp, opt)
  }

  /** Every triplet names a PMC of the list. */
  ghost predicate NamesPmcs(pmcs: seq<seq<int>>, ts: seq<Triplet>) {
    forall j | 0 <= j < |ts| :: 0 <= ts[j].pmc < |pmcs|
  }

  /** The table the loop builds from the triplets ts, in order, from the
      empty table. */
  ghost function DpTable(adj: Adj, pmcs: seq<seq<int>>, ts: seq<Triplet>): (r: (map<State, int>, map<State, int>))
    requires NamesPmcs(pmcs, ts)
    decreases |ts|
    ensures forall st | st in r.0 :: exists j | 0 <= j < |ts| :: State(ts[j].sep, ts[j].comp) == st
  {
    if ts == [] then (map[], map[])
    else
      var prev := DpTable(adj, pmcs, ts[..|ts| - 1]);
      var t := ts[|ts| - 1];
      assert forall j | 0 <= j < |ts| - 1 :: ts[..|ts| - 1][j] == ts[j];
      DpStep(adj, pmcs, t, prev.0, prev.1)
  }

  /** One triplet of the table loop: skipped when a child state is missing;
      otherwise its state takes the bag cost and the triplet's PMC when the
      state is new or the cost is lower than the stored one. */
  method ProcessTriplet(g: Graph, pmcs: seq<seq<int>>, ts: seq<Triplet>, t: Triplet, dp: map<State, int>, opt: map<State, int>)
    returns (cost: Option<int>, dp': map<State, int>, opt': map<State, int>)
    requires g.Valid() && 0 <= t.pmc < |pmcs| && Below(pmcs[t.pmc], g.n) && Below(t.comp, g.n)
    requires t in ts && Table(g.adjList, pmcs, ts, dp, opt)
    ensures cost.None? <==> ChildMissing(g.adjList, pmcs[t.pmc], t.comp, dp)
    ensures cost.Some? ==> IsBagCost(g.adjList, pmcs[t.pmc], t.comp, dp, cost.value)
    ensures cost.Some? && (State(t.sep, t.comp) !in dp || cost.value < dp[State(t.sep, t.comp)]) ==>
      dp' == dp[State(t.sep, t.comp) := cost.value] && opt' == opt[State(t.sep, t.comp) := t.pmc]
    ensures cost.None? || (State(t.sep, t.comp) in dp && dp[State(t.sep, t.comp)] <= cost.value) ==>
      dp' == dp && opt' == opt
    ensures forall st | st in dp :: st in dp' && dp'[st] <= dp[st]
    ensures Table(g.adjList, pmcs, ts, dp', opt')
    ensures cost == BagCostOf(g.adjList, pmcs[t.pmc], t.comp, dp) && (dp', opt') == DpStep(g.adjList, pmcs, t, dp, opt)
  {
    cost := BagCost(g, pmcs[t.pmc], t.comp, dp);
    dp', opt' := dp, opt;
    var st := State(t.sep, t.comp);
    if cost.Some? && (st !in dp || cost.value < dp[st]) {
      dp', opt' := dp[st := cost.value], opt[st := t.pmc];
      TableUpdate(g.adjList, pmcs, ts, dp, opt, t, cost.value);
    }
  }

  /** Storing a bag cost keeps the table. */
  lemma {:induction false} TableUpdate(adj: Adj, pmcs: seq<seq<int>>, ts: seq<Triplet>, dp: map<State, int>, opt: map<State, int>, t: Triplet, c: int)
    requires Table(adj, pmcs, ts, dp, opt) && t in ts && 0 <= t.pmc < |pmcs|
    requires IsBagCost(adj, pmcs[t.pmc], t.comp, dp, c)
    requires State(t.sep, t.comp) !in dp || c < dp[State(t.sep, t.comp)]
    ensures Table(adj, pmcs, ts, dp[State(t.sep, t.comp) := c], opt[State(t.sep, t.comp) := t.pmc])
  {
    var st := State(t.sep, t.comp);
    var dp', opt' := dp[st := c], opt[st := t.pmc];
    forall s | s in dp' ensures Achieves(adj, pmcs, dp', opt', s) && Triplet(opt'[s], s.sep, s.comp) in ts {
      if s == st {
        assert Triplet(opt'[s], s.sep, s.comp) == t;
      } else {
        assert Achieves(adj, pmcs, dp, opt, s);
      }
    }
  }

  // ---------------------------------------------------------------------
  // Triplets

  /** P outside S is non-empty and lies inside one component of G - S. */
  ghost predicate OneSide(adj: Adj, pmc: seq<int>, S: set<int>) {
    (exists x | x in pmc :: x !in S) &&
    forall x, y | x in pmc && x !in S && y in pmc && y !in S :: y in Comp(adj, S, x)
  }

  /** The component of G - P containing x breaks the two checks made when
      its triplet is built: its neighbourhood S is at least as large as P,
      or P outside S does not lie in exactly one component of G - S. */
  ghost predicate BadSplit(adj: Adj, pmc: seq<int>, x: int) {
    var S := Nbh(adj, Comp(adj, Elems(pmc), x));
    |InOrder(S, |adj|)| >= |pmc| || !OneSide(adj, pmc, S)
  }

  /** t is the triplet of pmc for the component of G - pmc containing x:
      its separator is the neighbourhood S of that component, smaller than
      pmc, and its component is the one of G - S that holds pmc outside S. */
  ghost predicate SideTriplet(adj: Adj, pmc: seq<int>, x: int, t: Triplet) {
    var S := Nbh(adj, Comp(adj, Elems(pmc), x));
    t.sep == InOrder(S, |adj|) && |t.sep| < |pmc| && OneSide(adj, pmc, S) &&
    exists y | y in pmc && y !in S :: t.comp == InOrder(Comp(adj, S, y), |adj|)
  }

  /** t names a PMC of the list and is its root triplet or one of its side triplets. */
  ghost predicate Realises(adj: Adj, pmcs: seq<seq<int>>, t: Triplet) {
    0 <= t.pmc < |pmcs| && Below(t.comp, |adj|) &&
    (t == Triplet(t.pmc, [], AllVertices(|adj|)) ||
     exists x | x in Allowed(adj, Elems(pmcs[t.pmc])) :: SideTriplet(adj, pmcs[t.pmc], x, t))
  }

  /** The state of the side scan in SideComponent before position k of pmc:
      found components have been met, the first from first and, when
      there are two or more, the second from second, outside the first. */
  ghost predicate SideScan(adj: Adj, pmc: seq<int>, S: set<int>, k: int, marks: seq<bool>,
                           found: int, first: int, second: int, component: seq<int>) {
    0 <= k <= |pmc| && |marks| == |adj| && 0 <= found &&
    S <= Marked(marks) && ClosedIn(adj, S, Marked(marks)) &&
    (forall j | 0 <= j < k :: pmc[j] in Marked(marks)) &&
    (found == 0 ==> Marked(marks) == S) &&
    (found >= 1 ==> first in pmc && 0 <= first < |adj| && first !in S) &&
    (found == 1 ==>
      Marked(marks) == S + Comp(adj, S, first) && Elems(component) == Comp(adj, S, first) &&
      forall j | 0 <= j < |component| :: 0 <= component[j] < |adj|) &&
    (found >= 2 ==> second in pmc && second !in S && second !in Comp(adj, S, first))
  }

  /** The component of G - sep that holds every vertex of pmc outside sep,
      or None when there is no such vertex or they lie in several
      components (the source counts them and asserts exactly one). */
  method SideComponent(g: Graph, pmc: seq<int>, sep: seq<int>) returns (r: Option<seq<int>>)
    requires g.Valid() && Below(pmc, g.n) && Below(sep, g.n)
    ensures r.Some? <==> OneSide(g.adjList, pmc, Elems(sep))
    ensures r.Some? ==> forall j | 0 <= j < |r.value| :: 0 <= r.value[j] < g.n
    ensures r.Some? ==> exists x | x in pmc && x !in sep :: Elems(r.value) == Comp(g.adjList, Elems(sep), x)
  {
    var inSep := g.MarkMembers(sep);
    ghost var S := Elems(sep);
    assert Marked(inSep[..]) == S;
    var component: seq<int> := [];
    var found := 0;
    ghost var first, second := -1, -1;
    for k := 0 to |pmc|
      invariant SideScan(g.adjList, pmc, S, k, inSep[..], found, first, second, component)
    {
      found, component, first, second := SideStep(g, pmc, S, k, inSep, found, first, second, component);
    }
    SideScanEnd(g.adjList, pmc, S, inSep[..], found, first, second, component);
    r := if found == 1 then Some(component) else None;
  }

  /** One vertex of the side scan: an unmarked one is counted and its
      component marked. */
  method SideStep(g: Graph, pmc: seq<int>, ghost S: set<int>, k: int, inSep: array<bool>,
                  found: int, ghost first: int, ghost second: int, component: seq<int>)
    returns (found': int, component': seq<int>, ghost first': int, ghost second': int)
    requires g.Valid() && inSep.Length == g.n && Below(pmc, g.n) && k < |pmc|
    requires SideScan(g.adjList, pmc, S, k, inSep[..], found, first, second, component)
    modifies inSep
    ensures SideScan(g.adjList, pmc, S, k + 1, inSep[..], found', first', second', component')
  {
    found', component', first', second' := found, component, first, second;
    var v := pmc[k];
    ghost var b0 := inSep[..];
    if !inSep[v] {
      assert v !in Marked(b0);
      component' := g.MarkComponent(v, inSep, S);
      found' := found + 1;
      if found == 0 {
        first' := v;
      } else if found == 1 {
        second' := v;
      }
      SideScanStep(g.adjList, pmc, S, k, b0, inSep[..], found, first, second, component, component', first', second');
    } else {
      assert v in Marked(b0);
    }
  }

  lemma {:induction false} SideScanStep(adj: Adj, pmc: seq<int>, S: set<int>, k: int, b0: seq<bool>, b1: seq<bool>,
                     found: int, first: int, second: int, component: seq<int>,
                     c: seq<int>, first': int, second': int)
    requires SideScan(adj, pmc, S, k, b0, found, first, second, component) && k < |pmc|
    requires 0 <= pmc[k] < |adj| && pmc[k] !in Marked(b0) && |b1| == |b0|
    requires Marked(b1) == Marked(b0) + Comp(adj, S, pmc[k]) && ClosedIn(adj, S, Marked(b1))
    requires Elems(c) == Comp(adj, S, pmc[k]) && forall j | 0 <= j < |c| :: 0 <= c[j] < |adj|
    requires first' == (if found == 0 then pmc[k] else first)
    requires second' == (if found == 1 then pmc[k] else second)
    ensures SideScan(adj, pmc, S, k + 1, b1, found + 1, first', second', c)
  {
    var v := pmc[k];
    assert v !in S;
    CompHasRoot(adj, S, v);
  }

  /** What the count of the side scan says about pmc. */
  lemma {:induction false} SideScanEnd(adj: Adj, pmc: seq<int>, S: set<int>, marks: seq<bool>,
                    found: int, first: int, second: int, component: seq<int>)
    requires WellFormed(adj) && SideScan(adj, pmc, S, |pmc|, marks, found, first, second, component)
    ensures found == 1 <==> OneSide(adj, pmc, S)
    ensures found == 1 ==> first in pmc && first !in S && Elems(component) == Comp(adj, S, first)
    ensures found == 1 ==> forall j | 0 <= j < |component| :: 0 <= component[j] < |adj|
  {
    if found == 1 {
      forall x, y | x in pmc && x !in S && y in pmc && y !in S ensures y in Comp(adj, S, x) {
        var i :| 0 <= i < |pmc| && pmc[i] == x;
        var j :| 0 <= j < |pmc| && pmc[j] == y;
        assert x in Marked(marks) && y in Marked(marks);
        CompSame(adj, S, first, x);
      }
    } else if found == 0 {
      forall x | x in pmc ensures x in S {
        var i :| 0 <= i < |pmc| && pmc[i] == x;
        assert x in Marked(marks);
      }
    }
  }

  /** The triplet of pmc (position i) for the component c of G - pmc: its
      neighbourhood and the sorted component of G minus that neighbourhood
      holding pmc; Abort when one of the two checks fails. */
  method ComponentTriplet(g: Graph, pmc: seq<int>, i: int, c: seq<int>) returns (r: Outcome<Triplet>)
    requires g.Valid() && Below(pmc, g.n) && |c| > 0 && Elems(c) == Comp(g.adjList, Elems(pmc), c[0])
    requires forall j | 0 <= j < |c| :: 0 <= c[j] < g.n
    ensures r.Abort? <==> BadSplit(g.adjList, pmc, c[0])
    ensures r.Done? ==> r.value.pmc == i && Below(r.value.comp, g.n) && SideTriplet(g.adjList, pmc, c[0], r.value)
  {
    var sep := g.Neighbors(c);
    SeparatorListed(g.adjList, pmc, c, sep);
    if |sep| >= |pmc| {
      return Abort;
    }
    var side := SideComponent(g, pmc, sep);
    if side.None? {
      return Abort;
    }
    var comp := SortAndDedupInts(side.value);
    SideListed(g.adjList, pmc, sep, side.value, comp);
    r := Done(Triplet(i, sep, comp));
  }

  lemma {:induction false} SeparatorListed(adj: Adj, pmc: seq<int>, c: seq<int>, sep: seq<int>)
    requires |c| > 0 && Elems(c) == Comp(adj, Elems(pmc), c[0])
    requires StrictlyIncreasing(sep) && Elems(sep) == Nbh(adj, Elems(c))
    ensures sep == InOrder(Nbh(adj, Comp(adj, Elems(pmc), c[0])), |adj|) && Below(sep, |adj|)
  {
    ListedInOrder(sep, Elems(sep), |adj|);
    assert forall j | 0 <= j < |sep| :: sep[j] in Elems(sep);
  }

  lemma {:induction false} SideListed(adj: Adj, pmc: seq<int>, sep: seq<int>, side: seq<int>, comp: seq<int>)
    requires exists x | x in pmc && x !in sep :: Elems(side) == Comp(adj, Elems(sep), x)
    requires StrictlyIncreasing(comp) && Elems(comp) == Elems(side)
    ensures Below(comp, |adj|)
    ensures exists y | y in pmc && y !in Elems(sep) :: comp == InOrder(Comp(adj, Elems(sep), y), |adj|)
  {
    var y :| y in pmc && y !in sep && Elems(side) == Comp(adj, Elems(sep), y);
    ListedInOrder(comp, Comp(adj, Elems(sep), y), |adj|);
    assert forall j | 0 <= j < |comp| :: comp[j] in Elems(comp);
  }

  /** The triplets of one PMC, at position i of the list: one per component
      of G - pmc, in the order Components lists them, then the root triplet. */
  method PmcTriplets(g: Graph, pmc: seq<int>, i: int) returns (r: Outcome<seq<Triplet>>)
    requires g.Valid() && Below(pmc, g.n)
    ensures r.Abort? <==> exists x | x in Allowed(g.adjList, Elems(pmc)) :: BadSplit(g.adjList, pmc, x)
    ensures r.Done? ==> Triplet(i, [], AllVertices(g.n)) in r.value
    ensures r.Done? ==> forall t | t in r.value ::
      t.pmc == i && Below(t.comp, g.n) &&
      (t == Triplet(i, [], AllVertices(g.n)) || exists x | x in Allowed(g.adjList, Elems(pmc)) :: SideTriplet(g.adjList, pmc, x, t))
    ensures r.Done? ==> forall x | x in Allowed(g.adjList, Elems(pmc)) ::
      exists t | t in r.value :: t.pmc == i && SideTriplet(g.adjList, pmc, x, t)
  {
    ghost var P := Elems(pmc);
    var comps := g.Components(pmc);
    var ts: seq<Triplet> := [];
    for j := 0 to |comps|
      invariant |ts| == j && TripletsFor(g.adjList, pmc, i, comps, ts)
    {
      ComponentRoot(g.adjList, P, comps, j);
      var tr := ComponentTriplet(g, pmc, i, comps[j]);
      if tr.Abort? {
        return Abort;
      }
      TripletsForSnoc(g.adjList, pmc, i, comps, ts, tr.value);
      ts := ts + [tr.value];
    }
    TripletsDone(g.adjList, pmc, i, comps, ts);
    r := Done(ts + [Triplet(i, [], AllVertices(g.n))]);
  }

  /** The finished list of PMCTriplets: no component splits badly, and the
      side triplets then the root triplet are what its contract names. */
  lemma {:induction false} TripletsDone(adj: Adj, pmc: seq<int>, i: int, comps: seq<seq<int>>, ts: seq<Triplet>)
    requires WellFormed(adj) && ComponentList(adj, Elems(pmc), comps)
    requires |ts| == |comps| && TripletsFor(adj, pmc, i, comps, ts)
    requires forall x | 0 <= x < |adj| && x !in pmc :: exists l | 0 <= l < |comps| :: x in comps[l]
    ensures forall x | x in Allowed(adj, Elems(pmc)) :: !BadSplit(adj, pmc, x)
    ensures forall t | t in ts + [Triplet(i, [], AllVertices(|adj|))] ::
      t.pmc == i && Below(t.comp, |adj|) &&
      (t == Triplet(i, [], AllVertices(|adj|)) || exists x | x in Allowed(adj, Elems(pmc)) :: SideTriplet(adj, pmc, x, t))
    ensures forall x | x in Allowed(adj, Elems(pmc)) ::
      exists t | t in ts + [Triplet(i, [], AllVertices(|adj|))] :: t.pmc == i && SideTriplet(adj, pmc, x, t)
  {
    forall x | x in Allowed(adj, Elems(pmc)) ensures !BadSplit(adj, pmc, x) {
      ListedNotBad(adj, pmc, i, comps, ts, x);
    }
    TripletsCover(adj, pmc, i, comps, ts);
    var root := Triplet(i, [], AllVertices(|adj|));
    assert Below(root.comp, |adj|);
  }

  /** A vertex outside pmc lies in a listed component, whose triplet passes. */
  lemma {:induction false} ListedNotBad(adj: Adj, pmc: seq<int>, i: int, comps: seq<seq<int>>, ts: seq<Triplet>, x: int)
    requires WellFormed(adj) && ComponentList(adj, Elems(pmc), comps)
    requires |ts| == |comps| && TripletsFor(adj, pmc, i, comps, ts)
    requires forall x | 0 <= x < |adj| && x !in pmc :: exists l | 0 <= l < |comps| :: x in comps[l]
    requires x in Allowed(adj, Elems(pmc))
    ensures !BadSplit(adj, pmc, x)
  {
    assert 0 <= x < |adj| && x !in pmc;
    var l :| 0 <= l < |comps| && x in comps[l];
    CoveredSide(adj, pmc, i, comps, ts, l, x);
    SideNotBad(adj, pmc, x, ts[l]);
  }

  /** ts holds, in order, the triplets of pmc for the first |ts| listed components. */
  ghost predicate TripletsFor(adj: Adj, pmc: seq<int>, i: int, comps: seq<seq<int>>, ts: seq<Triplet>) {
    |ts| <= |comps| &&
    forall l | 0 <= l < |ts| ::
      |comps[l]| > 0 && ts[l].pmc == i && Below(ts[l].comp, |adj|) && SideTriplet(adj, pmc, comps[l][0], ts[l])
  }

  lemma {:induction false} TripletsForSnoc(adj: Adj, pmc: seq<int>, i: int, comps: seq<seq<int>>, ts: seq<Triplet>, t: Triplet)
    requires TripletsFor(adj, pmc, i, comps, ts) && |ts| < |comps| && |comps[|ts|]| > 0
    requires t.pmc == i && Below(t.comp, |adj|) && SideTriplet(adj, pmc, comps[|ts|][0], t)
    ensures TripletsFor(adj, pmc, i, comps, ts + [t])
  {
    var ts' := ts + [t];
    forall l | 0 <= l < |ts'|
      ensures |comps[l]| > 0 && ts'[l].pmc == i && Below(ts'[l].comp, |adj|) && SideTriplet(adj, pmc, comps[l][0], ts'[l])
    {
      if l < |ts| {
        assert ts'[l] == ts[l];
      } else {
        assert l == |ts| && ts'[l] == t;
      }
    }
  }

  /** Triplets for all listed components cover every vertex outside pmc. */
  lemma {:induction false} TripletsCover(adj: Adj, pmc: seq<int>, i: int, comps: seq<seq<int>>, ts: seq<Triplet>)
    requires WellFormed(adj) && ComponentList(adj, Elems(pmc), comps)
    requires |ts| == |comps| && TripletsFor(adj, pmc, i, comps, ts)
    requires forall x | 0 <= x < |adj| && x !in pmc :: exists l | 0 <= l < |comps| :: x in comps[l]
    ensures forall t | t in ts ::
      t.pmc == i && Below(t.comp, |adj|) && exists x | x in Allowed(adj, Elems(pmc)) :: SideTriplet(adj, pmc, x, t)
    ensures forall x | x in Allowed(adj, Elems(pmc)) :: exists t | t in ts :: t.pmc == i && SideTriplet(adj, pmc, x, t)
  {
    var P := Elems(pmc);
    forall t | t in ts
      ensures exists x | x in Allowed(adj, P) :: SideTriplet(adj, pmc, x, t)
    {
      var l :| 0 <= l < |ts| && ts[l] == t;
      ComponentRoot(adj, P, comps, l);
    }
    forall x | x in Allowed(adj, P) ensures exists t | t in ts :: t.pmc == i && SideTriplet(adj, pmc, x, t) {
      var l :| 0 <= l < |comps| && x in comps[l];
      CoveredSide(adj, pmc, i, comps, ts, l, x);
      assert ts[l] in ts;
    }
  }

  /** The triplet of a listed component serves every vertex of it. */
  lemma {:induction false} CoveredSide(adj: Adj, pmc: seq<int>, i: int, comps: seq<seq<int>>, ts: seq<Triplet>, l: int, x: int)
    requires WellFormed(adj) && ComponentList(adj, Elems(pmc), comps)
    requires |ts| == |comps| && TripletsFor(adj, pmc, i, comps, ts)
    requires 0 <= l < |comps| && x in comps[l]
    ensures ts[l].pmc == i && SideTriplet(adj, pmc, x, ts[l])
  {
    var P := Elems(pmc);
    ComponentRoot(adj, P, comps, l);
    CompSame(adj, P, comps[l][0], x);
    assert Comp(adj, P, x) == Comp(adj, P, comps[l][0]);
  }

  /** The first vertex of a listed component roots it, outside the separator. */
  lemma {:induction false} ComponentRoot(adj: Adj, S: set<int>, comps: seq<seq<int>>, j: int)
    requires ComponentList(adj, S, comps) && 0 <= j < |comps|
    ensures |comps[j]| > 0 && comps[j][0] in Allowed(adj, S) && Elems(comps[j]) == Comp(adj, S, comps[j][0])
    ensures forall k | 0 <= k < |comps[j]| :: 0 <= comps[j][k] < |adj|
  {
    assert comps[j][0] in Elems(comps[j]);
    CompMember(adj, S, comps[j][0], comps[j][0]);
    forall k | 0 <= k < |comps[j]| ensures 0 <= comps[j][k] < |adj| {
      assert comps[j][k] in Elems(comps[j]);
    }
  }

  /** A side triplet passes both checks. */
  lemma {:induction false} SideNotBad(adj: Adj, pmc: seq<int>, x: int, t: Triplet)
    requires SideTriplet(adj, pmc, x, t)
    ensures !BadSplit(adj, pmc, x)
  {
  }

  ghost predicate AllBelow(pmcs: seq<seq<int>>, n: int) {
    forall i | 0 <= i < |pmcs| :: Below(pmcs[i], n)
  }

  /** ts holds exactly what the triplet loop makes of the first k PMCs:
      triplets of those PMCs only, the root triplet of each and a side
      triplet for every vertex outside each. */
  ghost predicate TripletsOf(adj: Adj, pmcs: seq<seq<int>>, k: int, ts: seq<Triplet>) {
    0 <= k <= |pmcs| &&
    (forall t | t in ts :: Realises(adj, pmcs, t) && t.pmc < k) &&
    (forall i | 0 <= i < k :: Triplet(i, [], AllVertices(|adj|)) in ts) &&
    (forall i, x | 0 <= i < k && x in Allowed(adj, Elems(pmcs[i])) ::
      exists t | t in ts :: t.pmc == i && SideTriplet(adj, pmcs[i], x, t))
  }

  /** Some PMC of the list has a component that fails a check. */
  ghost predicate AnyBadSplit(adj: Adj, pmcs: seq<seq<int>>) {
    exists i, x | 0 <= i < |pmcs| && x in Allowed(adj, Elems(pmcs[i])) :: BadSplit(adj, pmcs[i], x)
  }

  /** The triplets of all PMCs, in list order; Abort when a check fails. */
  method BuildTriplets(g: Graph, pmcs: seq<seq<int>>) returns (r: Outcome<seq<Triplet>>)
    requires g.Valid() && AllBelow(pmcs, g.n)
    ensures r.Abort? <==> AnyBadSplit(g.adjList, pmcs)
    ensures r.Done? ==> TripletsOf(g.adjList, pmcs, |pmcs|, r.value)
  {
    var ts: seq<Triplet> := [];
    for i := 0 to |pmcs|
      invariant TripletsOf(g.adjList, pmcs, i, ts)
    {
      var ri := PmcTriplets(g, pmcs[i], i);
      if ri.Abort? {
        return Abort;
      }
      TripletsOfAppend(g.adjList, pmcs, i, ts, ri.value);
      ts := ts + ri.value;
    }
    NoBadSplit(g.adjList, pmcs, ts);
    r := Done(ts);
  }

  lemma {:induction false} TripletsOfAppend(adj: Adj, pmcs: seq<seq<int>>, i: int, ts: seq<Triplet>, us: seq<Triplet>)
    requires TripletsOf(adj, pmcs, i, ts) && i < |pmcs|
    requires Triplet(i, [], AllVertices(|adj|)) in us
    requires forall t | t in us ::
      t.pmc == i && Below(t.comp, |adj|) &&
      (t == Triplet(i, [], AllVertices(|adj|)) || exists x | x in Allowed(adj, Elems(pmcs[i])) :: SideTriplet(adj, pmcs[i], x, t))
    requires forall x | x in Allowed(adj, Elems(pmcs[i])) :: exists t | t in us :: t.pmc == i && SideTriplet(adj, pmcs[i], x, t)
    ensures TripletsOf(adj, pmcs, i + 1, ts + us)
  {
    forall j, x | 0 <= j < i + 1 && x in Allowed(adj, Elems(pmcs[j]))
      ensures exists t | t in ts + us :: t.pmc == j && SideTriplet(adj, pmcs[j], x, t)
    {
      var t :| t in (if j < i then ts else us) && t.pmc == j && SideTriplet(adj, pmcs[j], x, t);
      assert t in ts + us;
    }
  }

  /** Triplets for every PMC and every vertex outside it rule out a bad split. */
  lemma {:induction false} NoBadSplit(adj: Adj, pmcs: seq<seq<int>>, ts: seq<Triplet>)
    requires TripletsOf(adj, pmcs, |pmcs|, ts)
    ensures !AnyBadSplit(adj, pmcs)
  {
    forall i, x | 0 <= i < |pmcs| && x in Allowed(adj, Elems(pmcs[i])) ensures !BadSplit(adj, pmcs[i], x) {
      var t :| t in ts && t.pmc == i && SideTriplet(adj, pmcs[i], x, t);
      SideNotBad(adj, pmcs[i], x, t);
    }
  }

  // ---------------------------------------------------------------------
  // Ordering the triplets

  /** Sizes never decrease along ts. */
  ghost predicate BySize(ts: seq<Triplet>) {
    forall j, k | 0 <= j < k < |ts| :: Size(ts[j]) <= Size(ts[k])
  }

  /** A triplet no larger than the first of an ordered list keeps it
      ordered when put in front. */
  lemma {:induction false} BySizeCons(t: Triplet, ts: seq<Triplet>)
    requires BySize(ts) && (ts == [] || Size(t) <= Size(ts[0]))
    ensures BySize([t] + ts)
  {
    var r := [t] + ts;
    forall j, k | 0 <= j < k < |r| ensures Size(r[j]) <= Size(r[k]) {
      if j == 0 && k > 1 {
        assert r[k] == ts[k - 1] && Size(ts[0]) <= Size(ts[k - 1]);
      }
    }
  }

  /** t placed before the first triplet of ts larger than it. */
  function InsertBySize(t: Triplet, ts: seq<Triplet>): (r: seq<Triplet>)
    requires BySize(ts)
    ensures BySize(r) && multiset(r) == multiset(ts) + multiset{t}
    ensures |r| == |ts| + 1 && (r[0] == t || (|ts| > 0 && r[0] == ts[0]))
  {
    if ts == [] || Size(t) <= Size(ts[0]) then
      BySizeCons(t, ts);
      [t] + ts
    else
      assert BySize(ts[1..]);
      var rest := InsertBySize(t, ts[1..]);
      assert ts == [ts[0]] + ts[1..];
      assert Size(ts[0]) <= Size(rest[0]);
      BySizeCons(ts[0], rest);
      [ts[0]] + rest
  }

  /** The triplets ordered by the size of their state, smallest first. */
  function SortBySize(ts: seq<Triplet>): (r: seq<Triplet>)
    ensures BySize(r) && multiset(r) == multiset(ts)
  {
    if ts == [] then []
    else
      assert ts == [ts[0]] + ts[1..];
      InsertBySize(ts[0], SortBySize(ts[1..]))
  }

  /** Reordering keeps what TripletsOf says, which is about membership only. */
  lemma {:induction false} TripletsOfReordered(adj: Adj, pmcs: seq<seq<int>>, ts: seq<Triplet>, us: seq<Triplet>)
    requires TripletsOf(adj, pmcs, |pmcs|, ts) && multiset(us) == multiset(ts)
    ensures TripletsOf(adj, pmcs, |pmcs|, us)
  {
    forall t ensures t in us <==> t in ts {
      assert t in us <==> t in multiset(us);
    }
  }

  // ---------------------------------------------------------------------
  // The table

  /** Every evaluated triplet of the first k bounds the stored cost of its state. */
  ghost predicate Bounded(ts: seq<Triplet>, costs: seq<Option<int>>, dp: map<State, int>) {
    |costs| <= |ts| &&
    forall j | 0 <= j < |costs| && costs[j].Some? ::
      State(ts[j].sep, ts[j].comp) in dp && dp[State(ts[j].sep, ts[j].comp)] <= costs[j].value
  }

  /** Every stored cost is the cost some triplet of its state was
      evaluated to; with Bounded, the stored cost of a state is the least
      cost evaluated for it. */
  ghost predicate Attained(ts: seq<Triplet>, costs: seq<Option<int>>, dp: map<State, int>) {
    |costs| <= |ts| &&
    forall st | st in dp :: exists j | 0 <= j < |costs| :: State(ts[j].sep, ts[j].comp) == st && costs[j] == Some(dp[st])
  }

  /** costs[j] is the bag cost of the j-th triplet over the table the
      triplets before it build. */
  ghost predicate Evaluated(adj: Adj, pmcs: seq<seq<int>>, ts: seq<Triplet>, costs: seq<Option<int>>) {
    NamesPmcs(pmcs, ts) && |costs| <= |ts| &&
    forall j | 0 <= j < |costs| :: costs[j] == CostWhenReached(adj, pmcs, ts, j)
  }

  /** The bag cost of triplet j over the table of the triplets before it. */
  ghost function CostWhenReached(adj: Adj, pmcs: seq<seq<int>>, ts: seq<Triplet>, j: int): Option<int>
    requires NamesPmcs(pmcs, ts) && 0 <= j < |ts|
  {
    BagCostOf(adj, pmcs[ts[j].pmc], ts[j].comp, DpTable(adj, pmcs, ts[..j]).0)
  }

  /** The table loop over the ordered triplets: the table is the fold of
      the step over ts, and costs records what each triplet's bag cost was
      when it was evaluated (None when skipped). */
  method RunDp(g: Graph, pmcs: seq<seq<int>>, ts: seq<Triplet>)
    returns (dp: map<State, int>, opt: map<State, int>, ghost costs: seq<Option<int>>)
    requires g.Valid() && AllBelow(pmcs, g.n) && forall t | t in ts :: Realises(g.adjList, pmcs, t)
    ensures NamesPmcs(pmcs, ts) && (dp, opt) == DpTable(g.adjList, pmcs, ts)
    ensures Table(g.adjList, pmcs, ts, dp, opt)
    ensures |costs| == |ts| && Evaluated(g.adjList, pmcs, ts, costs)
    ensures Bounded(ts, costs, dp) && Attained(ts, costs, dp)
  {
    assert NamesPmcs(pmcs, ts) by {
      forall j | 0 <= j < |ts| ensures 0 <= ts[j].pmc < |pmcs| {
        assert ts[j] in ts;
      }
    }
    dp, opt, costs := map[], map[], [];
    for k := 0 to |ts|
      invariant DpLoop(g.adjList, pmcs, ts, k, dp, opt, costs)
    {
      dp, opt, costs := DpNext(g, pmcs, ts, k, dp, opt, costs);
    }
    assert ts[..|ts|] == ts;
  }

  /** The table loop after the first k triplets. */
  ghost predicate DpLoop(adj: Adj, pmcs: seq<seq<int>>, ts: seq<Triplet>, k: int,
                         dp: map<State, int>, opt: map<State, int>, costs: seq<Option<int>>) {
    0 <= k <= |ts| && NamesPmcs(pmcs, ts) && Table(adj, pmcs, ts, dp, opt) &&
    |costs| == k && (dp, opt) == DpTable(adj, pmcs, ts[..k]) &&
    Evaluated(adj, pmcs, ts, costs) && Bounded(ts, costs, dp) && Attained(ts, costs, dp)
  }

  /** One round of the table loop: processes the k-th triplet. */
  method DpNext(g: Graph, pmcs: seq<seq<int>>, ts: seq<Triplet>, k: int,
                dp: map<State, int>, opt: map<State, int>, ghost costs: seq<Option<int>>)
    returns (dp': map<State, int>, opt': map<State, int>, ghost costs': seq<Option<int>>)
    requires g.Valid() && AllBelow(pmcs, g.n) && forall t | t in ts :: Realises(g.adjList, pmcs, t)
    requires DpLoop(g.adjList, pmcs, ts, k, dp, opt, costs) && k < |ts|
    ensures DpLoop(g.adjList, pmcs, ts, k + 1, dp', opt', costs')
  {
    var t := ts[k];
    assert t in ts;
    var cost;
    cost, dp', opt' := ProcessTriplet(g, pmcs, ts, t, dp, opt);
    BoundedStep(ts, costs, dp, dp', cost);
    AttainedStep(ts, costs, dp, dp', cost);
    EvaluatedStep(g.adjList, pmcs, ts, costs, cost);
    DpTableSnoc(g.adjList, pmcs, ts, k);
    costs' := costs + [cost];
  }

  /** The table after k + 1 triplets is one step past the table after k. */
  lemma {:induction false} DpTableSnoc(adj: Adj, pmcs: seq<seq<int>>, ts: seq<Triplet>, k: int)
    requires NamesPmcs(pmcs, ts) && 0 <= k < |ts|
    ensures NamesPmcs(pmcs, ts[..k]) && NamesPmcs(pmcs, ts[..k + 1])
    ensures DpTable(adj, pmcs, ts[..k + 1]) ==
      DpStep(adj, pmcs, ts[k], DpTable(adj, pmcs, ts[..k]).0, DpTable(adj, pmcs, ts[..k]).1)
  {
    var s := ts[..k + 1];
    assert s[..k] == ts[..k];
    assert s[k] == ts[k] && s != [];
  }

  /** Recording the cost of the next triplet, evaluated over the table of
      the triplets before it, keeps Evaluated. */
  lemma {:induction false} EvaluatedStep(adj: Adj, pmcs: seq<seq<int>>, ts: seq<Triplet>, costs: seq<Option<int>>, cost: Option<int>)
    requires Evaluated(adj, pmcs, ts, costs) && |costs| < |ts|
    requires cost == BagCostOf(adj, pmcs[ts[|costs|].pmc], ts[|costs|].comp, DpTable(adj, pmcs, ts[..|costs|]).0)
    ensures Evaluated(adj, pmcs, ts, costs + [cost])
  {
    var cs := costs + [cost];
    assert cost == CostWhenReached(adj, pmcs, ts, |costs|);
    forall j | 0 <= j < |cs| ensures cs[j] == CostWhenReached(adj, pmcs, ts, j) {
      if j < |costs| {
        assert cs[j] == costs[j];
      } else {
        assert j == |costs| && cs[j] == cost;
      }
    }
  }

  /** A step that stores the evaluated cost for the next triplet's state, or
      leaves the table alone, keeps every stored cost attained. */
  lemma {:induction false} AttainedStep(ts: seq<Triplet>, costs: seq<Option<int>>, dp: map<State, int>, dp': map<State, int>, cost: Option<int>)
    requires Attained(ts, costs, dp) && |costs| < |ts|
    requires dp' == dp ||
      (cost.Some? && dp' == dp[State(ts[|costs|].sep, ts[|costs|].comp) := cost.value])
    ensures Attained(ts, costs + [cost], dp')
  {
    var cs := costs + [cost];
    var st0 := State(ts[|costs|].sep, ts[|costs|].comp);
    forall st | st in dp' ensures exists j | 0 <= j < |cs| :: State(ts[j].sep, ts[j].comp) == st && cs[j] == Some(dp'[st]) {
      if dp' != dp && st == st0 {
        assert cs[|costs|] == cost;
      } else {
        var j :| 0 <= j < |costs| && State(ts[j].sep, ts[j].comp) == st && costs[j] == Some(dp[st]);
        assert cs[j] == costs[j];
      }
    }
  }

  lemma {:induction false} BoundedStep(ts: seq<Triplet>, costs: seq<Option<int>>, dp: map<State, int>, dp': map<State, int>, cost: Option<int>)
    requires Bounded(ts, costs, dp) && |costs| < |ts|
    requires forall st | st in dp :: st in dp' && dp'[st] <= dp[st]
    requires cost.Some? ==>
      State(ts[|costs|].sep, ts[|costs|].comp) in dp' && dp'[State(ts[|costs|].sep, ts[|costs|].comp)] <= cost.value
    ensures Bounded(ts, costs + [cost], dp')
  {
    var cs := costs + [cost];
    forall j | 0 <= j < |cs| && cs[j].Some?
      ensures State(ts[j].sep, ts[j].comp) in dp' && dp'[State(ts[j].sep, ts[j].comp)] <= cs[j].value
    {
      if j < |costs| {
        assert cs[j] == costs[j];
      }
    }
  }

  // ---------------------------------------------------------------------
  // Reconstruction

  /** e is a pair of bag vertices that the bag turns into an edge: not
      already an edge of G, and not with both ends in the separator. */
  ghost predicate FillPair(adj: Adj, sep: seq<int>, e: Edge) {
    !Adjacent(adj, e.0, e.1) && !(e.0 in sep && e.1 in sep)
  }

  /** The pairs of es that FillPair keeps, in order. */
  ghost function Select(adj: Adj, sep: seq<int>, es: seq<Edge>): (r: seq<Edge>)
    ensures forall e :: e in r <==> e in es && FillPair(adj, sep, e)
  {
    if es == [] then []
    else Select(adj, sep, es[..|es| - 1]) + if FillPair(adj, sep, es[|es| - 1]) then [es[|es| - 1]] else []
  }

  /** The fill edges of the bag pmc below separator sep: its pairs in index
      order that are not edges of G and not both in sep. */
  method BagFill(g: Graph, pmc: seq<int>, sep: seq<int>) returns (fill: seq<Edge>)
    requires g.Valid() && Below(pmc, g.n)
    ensures forall e :: e in fill <==> exists a, b | 0 <= a < b < |pmc| :: e == (pmc[a], pmc[b]) && FillPair(g.adjList, sep, e)
    ensures |pmc| >= 2 ==> fill == Select(g.adjList, sep, PairsBefore(pmc, |pmc|))
  {
    var pairs := CompleteEdges(pmc);
    fill := [];
    for k := 0 to |pairs|
      invariant fill == Select(g.adjList, sep, pairs[..k])
    {
      var (u, v) := pairs[k];
      assert pairs[k] in pairs;
      var a, b :| 0 <= a < b < |pmc| && pairs[k] == (pmc[a], pmc[b]);
      var adjacent := g.HasEdge(u, v);
      if !adjacent && (u !in sep || v !in sep) {
        fill := fill + [(u, v)];
      }
      assert pairs[..k + 1][..k] == pairs[..k];
    }
    assert pairs[..|pairs|] == pairs;
  }

  /** e is a fill pair of the bag chosen for a stored state of cost at most w. */
  ghost predicate FillEdge(adj: Adj, pmcs: seq<seq<int>>, dp: map<State, int>, opt: map<State, int>, w: int, e: Edge) {
    exists st | st in dp && st in opt && dp[st] <= w && 0 <= opt[st] < |pmcs| ::
      exists a, b | 0 <= a < b < |pmcs[opt[st]]| ::
        e == (pmcs[opt[st]][a], pmcs[opt[st]][b]) && FillPair(adj, st.sep, e)
  }

  /** The fill pairs of the bag chosen for st: its pairs in index order
      that FillPair keeps. */
  ghost function StatePairs(adj: Adj, pmcs: seq<seq<int>>, opt: map<State, int>, st: State): seq<Edge> {
    if st in opt && 0 <= opt[st] < |pmcs| && |pmcs[opt[st]]| >= 2 then
      Select(adj, st.sep, PairsBefore(pmcs[opt[st]], |pmcs[opt[st]]|))
    else []
  }

  /** c is the state of a component of G minus the bag chosen for st that
      meets st's component. */
  ghost predicate IsChildState(adj: Adj, pmcs: seq<seq<int>>, opt: map<State, int>, st: State, c: State) {
    st in opt && 0 <= opt[st] < |pmcs| &&
    exists v | v in st.comp && v !in pmcs[opt[st]] :: c == ChildOf(adj, pmcs[opt[st]], v)
  }

  /** Each state of path is a child state of the one before. */
  ghost predicate ChildPath(adj: Adj, pmcs: seq<seq<int>>, opt: map<State, int>, path: seq<State>) {
    |path| > 0 && forall k | 0 <= k < |path| - 1 :: IsChildState(adj, pmcs, opt, path[k], path[k + 1])
  }

  /** st is reached from root through child states: a node of the
      decomposition that the chosen bags build below root. */
  ghost predicate Reached(adj: Adj, pmcs: seq<seq<int>>, opt: map<State, int>, root: State, st: State) {
    exists path | ChildPath(adj, pmcs, opt, path) :: path[0] == root && path[|path| - 1] == st
  }

  lemma {:induction false} ReachedRoot(adj: Adj, pmcs: seq<seq<int>>, opt: map<State, int>, root: State)
    ensures Reached(adj, pmcs, opt, root, root)
  {
    assert ChildPath(adj, pmcs, opt, [root]);
  }

  /** A child state of a reached state is reached. */
  lemma {:induction false} ReachedChild(adj: Adj, pmcs: seq<seq<int>>, opt: map<State, int>, root: State, st: State, c: State)
    requires Reached(adj, pmcs, opt, root, st) && IsChildState(adj, pmcs, opt, st, c)
    ensures Reached(adj, pmcs, opt, root, c)
  {
    var path :| ChildPath(adj, pmcs, opt, path) && path[0] == root && path[|path| - 1] == st;
    var path' := path + [c];
    assert ChildPath(adj, pmcs, opt, path') by {
      forall k | 0 <= k < |path'| - 1 ensures IsChildState(adj, pmcs, opt, path'[k], path'[k + 1]) {
        if k < |path| - 1 {
          assert path'[k] == path[k] && path'[k + 1] == path[k + 1];
        }
      }
    }
    assert path'[0] == root && path'[|path'| - 1] == c;
  }

  /** A set of states that holds root and the child states of its members
      holds every reached state. */
  lemma {:induction false} ReachedInClosed(adj: Adj, pmcs: seq<seq<int>>, opt: map<State, int>, root: State, done: set<State>, st: State)
    requires root in done && Reached(adj, pmcs, opt, root, st)
    requires forall a, c | a in done && IsChildState(adj, pmcs, opt, a, c) :: c in done
    ensures st in done
  {
    var path :| ChildPath(adj, pmcs, opt, path) && path[0] == root && path[|path| - 1] == st;
    PathInClosed(adj, pmcs, opt, done, path, |path| - 1);
  }

  lemma {:induction false} PathInClosed(adj: Adj, pmcs: seq<seq<int>>, opt: map<State, int>, done: set<State>, path: seq<State>, k: nat)
    requires ChildPath(adj, pmcs, opt, path) && path[0] in done && k < |path|
    requires forall a, c | a in done && IsChildState(adj, pmcs, opt, a, c) :: c in done
    ensures path[k] in done
    decreases k
  {
    if k > 0 {
      PathInClosed(adj, pmcs, opt, done, path, k - 1);
      assert IsChildState(adj, pmcs, opt, path[k - 1], path[k]);
    }
  }

  /** The breadth-first loop's invariant: the states taken from the queue
      (done) and those in it are reached; every child state of a done state
      is done or queued; root is done or queued; the fill holds exactly the
      fill pairs of the done states. */
  ghost predicate ReconstructInv(adj: Adj, pmcs: seq<seq<int>>, opt: map<State, int>, root: State,
                                 done: set<State>, queue: seq<State>, fill: seq<Edge>) {
    (forall st | st in done :: Reached(adj, pmcs, opt, root, st)) &&
    (forall j | 0 <= j < |queue| :: Reached(adj, pmcs, opt, root, queue[j])) &&
    (root in done || root in queue) &&
    (forall a, c | a in done && IsChildState(adj, pmcs, opt, a, c) :: c in done || c in queue) &&
    (forall e :: e in fill <==> exists st | st in done :: e in StatePairs(adj, pmcs, opt, st))
  }

  lemma {:induction false} ReconstructStart(adj: Adj, pmcs: seq<seq<int>>, opt: map<State, int>, root: State)
    ensures ReconstructInv(adj, pmcs, opt, root, {}, [root], [])
  {
    ReachedRoot(adj, pmcs, opt, root);
  }

  lemma {:induction false} ReconstructStep(adj: Adj, pmcs: seq<seq<int>>, opt: map<State, int>, root: State,
                          done: set<State>, queue: seq<State>, fill: seq<Edge>, pairs: seq<Edge>, children: seq<State>)
    requires ReconstructInv(adj, pmcs, opt, root, done, queue, fill) && queue != []
    requires pairs == StatePairs(adj, pmcs, opt, queue[0])
    requires forall c :: c in children <==> IsChildState(adj, pmcs, opt, queue[0], c)
    ensures ReconstructInv(adj, pmcs, opt, root, done + {queue[0]}, queue[1..] + children, fill + pairs)
  {
    var st := queue[0];
    var done', queue' := done + {st}, queue[1..] + children;
    forall j | 0 <= j < |queue'| ensures Reached(adj, pmcs, opt, root, queue'[j]) {
      if j < |queue| - 1 {
        assert queue'[j] == queue[j + 1];
      } else {
        assert queue'[j] in children;
        ReachedChild(adj, pmcs, opt, root, st, queue'[j]);
      }
    }
    forall a, c | a in done' && IsChildState(adj, pmcs, opt, a, c) ensures c in done' || c in queue' {
      if a != st && c !in done && c != st {
        var j :| 0 <= j < |queue| && queue[j] == c;
        assert queue'[j - 1] == c;
      }
    }
    if root !in done' {
      var j :| 0 <= j < |queue| && queue[j] == root;
      assert queue'[j - 1] == root;
    }
  }

  /** The fill edges of the decomposition rooted at the root state, in
      breadth-first order of the chosen bags; fuel bounds the number of
      states taken from the queue. With enough fuel the fill holds exactly
      the fill pairs of the bags of the states reached from the root. */
  method Reconstruct(g: Graph, pmcs: seq<seq<int>>, ts: seq<Triplet>, dp: map<State, int>, opt: map<State, int>, fuel: nat)
    returns (r: Outcome<seq<Edge>>)
    requires g.Valid() && AllBelow(pmcs, g.n) && forall t | t in ts :: Realises(g.adjList, pmcs, t)
    requires Table(g.adjList, pmcs, ts, dp, opt) && RootState(g.n) in dp
    ensures r.Done? ==> forall e | e in r.value :: FillEdge(g.adjList, pmcs, dp, opt, dp[RootState(g.n)], e)
    ensures r.Done? ==> forall e :: e in r.value <==>
      exists st | Reached(g.adjList, pmcs, opt, RootState(g.n), st) :: e in StatePairs(g.adjList, pmcs, opt, st)
  {
    var root := RootState(g.n);
    var queue := [root];
    var fill: seq<Edge> := [];
    var steps := fuel;
    ghost var done: set<State> := {};
    ReconstructStart(g.adjList, pmcs, opt, root);
    while queue != [] && steps > 0
      decreases steps
      invariant forall j | 0 <= j < |queue| :: queue[j] in dp && dp[queue[j]] <= dp[root]
      invariant forall e | e in fill :: FillEdge(g.adjList, pmcs, dp, opt, dp[root], e)
      invariant ReconstructInv(g.adjList, pmcs, opt, root, done, queue, fill)
    {
      var st := queue[0];
      var pairs, children := ExpandState(g, pmcs, ts, dp, opt, st, dp[root]);
      ReconstructStep(g.adjList, pmcs, opt, root, done, queue, fill, pairs, children);
      QueueStored(dp, queue, children, dp[root]);
      fill := fill + pairs;
      queue := queue[1..] + children;
      done := done + {st};
      steps := steps - 1;
    }
    if queue != [] {
      return Abort;
    }
    ReconstructEnd(g.adjList, pmcs, opt, root, done, fill);
    r := Done(fill);
  }

  /** The queued states stay stored at no more than the bound. */
  lemma {:induction false} QueueStored(dp: map<State, int>, queue: seq<State>, children: seq<State>, bound: int)
    requires queue != [] && forall j | 0 <= j < |queue| :: queue[j] in dp && dp[queue[j]] <= bound
    requires forall j | 0 <= j < |children| :: children[j] in dp && dp[children[j]] <= bound
    ensures forall j | 0 <= j < |queue[1..] + children| ::
      (queue[1..] + children)[j] in dp && dp[(queue[1..] + children)[j]] <= bound
  {
    var q' := queue[1..] + children;
    forall j | 0 <= j < |q'| ensures q'[j] in dp && dp[q'[j]] <= bound {
      if j < |queue| - 1 {
        assert q'[j] == queue[j + 1];
      } else {
        assert q'[j] == children[j - |queue| + 1];
      }
    }
  }

  /** With the queue empty the done states are exactly the reached ones. */
  lemma {:induction false} ReconstructEnd(adj: Adj, pmcs: seq<seq<int>>, opt: map<State, int>, root: State,
                         done: set<State>, fill: seq<Edge>)
    requires ReconstructInv(adj, pmcs, opt, root, done, [], fill)
    ensures forall e :: e in fill <==> exists st | Reached(adj, pmcs, opt, root, st) :: e in StatePairs(adj, pmcs, opt, st)
  {
    forall e | e in fill ensures exists st | Reached(adj, pmcs, opt, root, st) :: e in StatePairs(adj, pmcs, opt, st) {
      var st :| st in done && e in StatePairs(adj, pmcs, opt, st);
    }
    forall e, st | Reached(adj, pmcs, opt, root, st) && e in StatePairs(adj, pmcs, opt, st) ensures e in fill {
      ReachedInClosed(adj, pmcs, opt, root, done, st);
    }
  }

  /** The fill pairs of the bag chosen for the stored state st, and the
      child states of that bag within st's component. */
  method ExpandState(g: Graph, pmcs: seq<seq<int>>, ts: seq<Triplet>, dp: map<State, int>, opt: map<State, int>,
                     st: State, ghost w: int)
    returns (pairs: seq<Edge>, children: seq<State>)
    requires g.Valid() && AllBelow(pmcs, g.n) && forall t | t in ts :: Realises(g.adjList, pmcs, t)
    requires Table(g.adjList, pmcs, ts, dp, opt) && st in dp && dp[st] <= w
    ensures pairs == StatePairs(g.adjList, pmcs, opt, st)
    ensures forall e | e in pairs :: FillEdge(g.adjList, pmcs, dp, opt, w, e)
    ensures forall c :: c in children <==> IsChildState(g.adjList, pmcs, opt, st, c)
    ensures forall j | 0 <= j < |children| :: children[j] in dp && dp[children[j]] <= w
  {
    assert Achieves(g.adjList, pmcs, dp, opt, st);
    var pmc := pmcs[opt[st]];
    StoredBelow(g.adjList, pmcs, ts, dp, opt, st);
    pairs := BagFill(g, pmc, st.sep);
    assert |pairs| > 0 ==> pairs[0] in pairs;
    forall e | e in pairs ensures FillEdge(g.adjList, pmcs, dp, opt, w, e) {
      var a, b :| 0 <= a < b < |pmc| && e == (pmc[a], pmc[b]) && FillPair(g.adjList, st.sep, e);
    }
    children := ChildStates(g, pmc, st.comp);
    ChildrenStored(g.adjList, pmcs, dp, opt, st, children);
    forall c | c in children ensures IsChildState(g.adjList, pmcs, opt, st, c) {
      var j :| 0 <= j < |children| && children[j] == c;
    }
  }

  /** The children of the bag chosen for a stored state are stored, at no
      higher cost. */
  lemma {:induction false} ChildrenStored(adj: Adj, pmcs: seq<seq<int>>, dp: map<State, int>, opt: map<State, int>, st: State, children: seq<State>)
    requires st in dp && st in opt && Achieves(adj, pmcs, dp, opt, st)
    requires ChildrenFrom(adj, pmcs[opt[st]], st.comp, children)
    ensures forall j | 0 <= j < |children| :: children[j] in dp && dp[children[j]] <= dp[st]
  {
    var pmc := pmcs[opt[st]];
    forall j | 0 <= j < |children| ensures children[j] in dp && dp[children[j]] <= dp[st] {
      assert exists v | v in st.comp && v !in pmc :: children[j] == ChildOf(adj, pmc, v);
      var v :| v in st.comp && v !in pmc && children[j] == ChildOf(adj, pmc, v);
    }
  }

  /** The component of a stored state lists vertices of G. */
  lemma {:induction false} StoredBelow(adj: Adj, pmcs: seq<seq<int>>, ts: seq<Triplet>, dp: map<State, int>, opt: map<State, int>, st: State)
    requires Table(adj, pmcs, ts, dp, opt) && st in dp && forall t | t in ts :: Realises(adj, pmcs, t)
    ensures Below(st.comp, |adj|)
  {
    assert Realises(adj, pmcs, Triplet(opt[st], st.sep, st.comp));
  }

  /** The width of the best decomposition the PMCs allow and its fill
      edges, or (-1, []) when the root state is never stored. Abort when a
      component fails a check or the reconstruction runs out of fuel. */
  method Solve(g: Graph, pmcs: seq<seq<int>>, fuel: nat)
    returns (r: Outcome<BtResult>, ghost ts: seq<Triplet>, ghost dp: map<State, int>, ghost opt: map<State, int>,
             ghost costs: seq<Option<int>>)
    requires g.Valid() && AllBelow(pmcs, g.n)
    ensures AnyBadSplit(g.adjList, pmcs) ==> r.Abort?
    ensures r.Done? ==> !AnyBadSplit(g.adjList, pmcs)
    ensures r.Done? ==> TripletsOf(g.adjList, pmcs, |pmcs|, ts) && BySize(ts)
    ensures r.Done? ==> Table(g.adjList, pmcs, ts, dp, opt) && NamesPmcs(pmcs, ts) && (dp, opt) == DpTable(g.adjList, pmcs, ts)
    ensures r.Done? ==> |costs| == |ts| && Evaluated(g.adjList, pmcs, ts, costs)
    ensures r.Done? ==> Bounded(ts, costs, dp) && Attained(ts, costs, dp)
    ensures r.Done? && RootState(g.n) !in dp ==> r.value == BtResult(-1, [])
    ensures r.Done? && RootState(g.n) in dp ==>
      r.value.width == dp[RootState(g.n)] &&
      forall e | e in r.value.fill :: FillEdge(g.adjList, pmcs, dp, opt, r.value.width, e)
    ensures r.Done? && RootState(g.n) in dp ==>
      forall e :: e in r.value.fill <==>
        exists st | Reached(g.adjList, pmcs, opt, RootState(g.n), st) :: e in StatePairs(g.adjList, pmcs, opt, st)
  {
    ts, dp, opt, costs := [], map[], map[], [];
    var built := BuildTriplets(g, pmcs);
    if built.Abort? {
      return Abort, ts, dp, opt, costs;
    }
    var sorted := SortBySize(built.value);
    ts := sorted;
    TripletsOfReordered(g.adjList, pmcs, built.value, ts);
    var dp', opt', costs' := RunDp(g, pmcs, sorted);
    dp, opt, costs := dp', opt', costs';
    var root := RootState(g.n);
    if root !in dp' {
      return Done(BtResult(-1, [])), ts, dp, opt, costs;
    }
    var fill := Reconstruct(g, pmcs, sorted, dp', opt', fuel);
    if fill.Abort? {
      return Abort, ts, dp, opt, costs;
    }
    r := Done(BtResult(dp'[root], fill.value));
  }
}
