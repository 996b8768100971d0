/** The fixed-size enumerator for hypergraphs: the PMC enumerator of the
    primal graph, with one variable per hyperedge, a clause per vertex that
    puts every selected vertex in a chosen hyperedge, and a cardinality
    constraint over the hyperedge variables, so that one call lists the
    PMCs that `k` hyperedges cover. */
module FixedSizeHyperEnumerators {
  import opened Wrappers
  import opened SatInterface
  import opened GraphTheory
  import opened Utils
  import opened Cardinality
  import opened Graphs
  import opened HyperGraphs
  import opened PmcEncoding
  import opened Enumerators
  import opened FixedSizeEnumerators

  // ---------------------------------------------------------------------
  // Hyperedge variables and the cover clauses

  /** `inEdge[v]` lists the hyperedges that hold vertex `v`, for every `v`
      below `n`. */
  ghost predicate Incidence(inEdge: seq<seq<int>>, edges: seq<seq<int>>, n: int) {
    |inEdge| == n &&
    forall v | 0 <= v < n :: forall e :: e in inEdge[v] <==> 0 <= e < |edges| && v in edges[e]
  }

  /** A fresh variable per hyperedge, and for each vertex the hyperedges
      holding it. */
  method EdgeVars(solver: SatSolver, edges: seq<seq<int>>, n: nat) returns (edgeVars: seq<Lit>, inEdge: seq<seq<int>>)
    requires forall e | 0 <= e < |edges| :: Below(edges[e], n)
    modifies solver`numVars
    ensures solver.numVars == old(solver.numVars) + |edges|
    ensures |edgeVars| == |edges| && forall e | 0 <= e < |edges| :: edgeVars[e] == Lit(old(solver.numVars) + e + 1)
    ensures Incidence(inEdge, edges, n)
  {
    edgeVars := [];
    inEdge := seq(n, _ => []);
    for i := 0 to |edges|
      invariant solver.numVars == old(solver.numVars) + i
      invariant |edgeVars| == i && forall e | 0 <= e < i :: edgeVars[e] == Lit(old(solver.numVars) + e + 1)
      invariant |inEdge| == n
      invariant forall v | 0 <= v < n :: forall e :: e in inEdge[v] <==> 0 <= e < i && v in edges[e]
    {
      var nv := solver.NewVar();
      edgeVars := edgeVars + [nv];
      var edge := edges[i];
      for j := 0 to |edge|
        invariant |inEdge| == n
        invariant forall v | 0 <= v < n :: forall e :: e in inEdge[v] <==> (0 <= e < i && v in edges[e]) || (e == i && v in edge[..j])
      {
        var v := edge[j];
        assert edge[..j + 1] == edge[..j] + [v];
        inEdge := inEdge[v := inEdge[v] + [i]];
      }
      assert edge[..|edge|] == edge;
    }
  }

  /** The variables of the hyperedges `inV`, in that order. */
  function EdgeLits(edgeVars: seq<Lit>, inV: seq<int>): (r: seq<Lit>)
    requires forall j | 0 <= j < |inV| :: 0 <= inV[j] < |edgeVars|
    ensures |r| == |inV| && forall j | 0 <= j < |inV| :: r[j] == edgeVars[inV[j]]
  {
    seq(|inV|, j requires 0 <= j < |inV| => edgeVars[inV[j]])
  }

  /** The clause of a vertex with selection literal `xv` held by the
      hyperedges `inV`: the vertex is not selected, or one of those
      hyperedges is chosen. */
  function CoverClause(xv: Lit, edgeVars: seq<Lit>, inV: seq<int>): (c: seq<Lit>)
    requires forall j | 0 <= j < |inV| :: 0 <= inV[j] < |edgeVars|
    ensures |c| == |inV| + 1
  {
    [xv.Neg()] + EdgeLits(edgeVars, inV)
  }

  /** A selected vertex satisfies its cover clause exactly when one of the
      hyperedges holding it is chosen; an unselected one always does. */
  lemma {:induction false} CoverClauseMeans(xv: Lit, edgeVars: seq<Lit>, inV: seq<int>, t: set<int>)
    requires xv.IsDef() && forall j | 0 <= j < |inV| :: 0 <= inV[j] < |edgeVars|
    ensures !Holds(xv, t) ==> Satisfies(t, CoverClause(xv, edgeVars, inV))
    ensures Holds(xv, t) ==>
      (Satisfies(t, CoverClause(xv, edgeVars, inV)) <==> exists j | 0 <= j < |inV| :: Holds(edgeVars[inV[j]], t))
  {
    var c := CoverClause(xv, edgeVars, inV);
    var tail := EdgeLits(edgeVars, inV);
    assert c[0] == xv.Neg();
    assert forall i | 1 <= i < |c| :: c[i] == tail[i - 1];
    NegFlipsTruth(xv, t);
    if !Holds(xv, t) {
      assert Holds(c[0], t);
    } else {
      if Satisfies(t, c) {
        var i :| 0 <= i < |c| && Holds(c[i], t);
        assert Holds(tail[i - 1], t);
      }
      if exists j | 0 <= j < |inV| :: Holds(edgeVars[inV[j]], t) {
        var j :| 0 <= j < |inV| && Holds(edgeVars[inV[j]], t);
        assert Holds(c[j + 1], t);
      }
    }
  }

  /** The cover clause of one vertex, built literal by literal. */
  method BuildCoverClause(xv: Lit, edgeVars: seq<Lit>, inV: seq<int>, nv: int) returns (clause: seq<Lit>)
    requires VarIn(xv, nv) && AllVars(edgeVars, nv)
    requires forall j | 0 <= j < |inV| :: 0 <= inV[j] < |edgeVars|
    ensures clause == CoverClause(xv, edgeVars, inV)
    ensures forall q | 0 <= q < |clause| :: KnownIn(clause[q], nv)
  {
    clause := [xv.Neg()];
    for j := 0 to |inV|
      invariant |clause| == j + 1 && clause[0] == xv.Neg()
      invariant forall q | 0 <= q < j :: clause[q + 1] == edgeVars[inV[q]]
    {
      clause := clause + [edgeVars[inV[j]]];
    }
    forall q | 0 <= q < |clause| ensures KnownIn(clause[q], nv) {
      if 0 < q {
        assert VarIn(edgeVars[inV[q - 1]], nv);
      }
    }
  }

  /** One cover clause per vertex, each built literal by literal. */
  method AddCoverClauses(solver: SatSolver, x: seq<Lit>, edgeVars: seq<Lit>, inEdge: seq<seq<int>>)
    requires AllVars(x, solver.numVars) && AllVars(edgeVars, solver.numVars) && |inEdge| == |x|
    requires forall v, j | 0 <= v < |x| && 0 <= j < |inEdge[v]| :: 0 <= inEdge[v][j] < |edgeVars|
    modifies solver`added, solver`clauses
    ensures old(solver.added) <= solver.added
    ensures forall v | 0 <= v < |x| :: Logged(solver.added, CoverClause(x[v], edgeVars, inEdge[v]))
  {
    for i := 0 to |x|
      invariant old(solver.added) <= solver.added
      invariant forall v | 0 <= v < i :: Logged(solver.added, CoverClause(x[v], edgeVars, inEdge[v]))
    {
      var clause := BuildCoverClause(x[i], edgeVars, inEdge[i], solver.numVars);
      ghost var before := solver.added;
      solver.AddClause(clause);
      forall v | 0 <= v <= i ensures Logged(solver.added, CoverClause(x[v], edgeVars, inEdge[v])) {
        if v < i {
          LoggedGrows(before, solver.added, CoverClause(x[v], edgeVars, inEdge[v]));
        } else {
          assert solver.added[|before|] == clause;
        }
      }
    }
  }

  /** In every model of `cl` each selected vertex lies in a hyperedge whose
      variable is true. */
  ghost predicate Covering(cl: seq<seq<Lit>>, x: seq<Lit>, edgeVars: seq<Lit>, edges: seq<seq<int>>) {
    |edgeVars| == |edges| &&
    forall t, v | Models(t, cl) && 0 <= v < |x| && Holds(x[v], t) ::
      exists e | 0 <= e < |edges| :: v in edges[e] && Holds(edgeVars[e], t)
  }

  /** The cover clauses of all vertices put every selected vertex in a
      chosen hyperedge. */
  lemma {:induction false} CoverClausesCover(cl: seq<seq<Lit>>, x: seq<Lit>, edgeVars: seq<Lit>, edges: seq<seq<int>>, inEdge: seq<seq<int>>)
    requires forall v | 0 <= v < |x| :: x[v].IsDef()
    requires Incidence(inEdge, edges, |x|) && |edgeVars| == |edges|
    requires forall v, j | 0 <= v < |x| && 0 <= j < |inEdge[v]| :: 0 <= inEdge[v][j] < |edgeVars|
    requires forall v | 0 <= v < |x| :: Logged(cl, CoverClause(x[v], edgeVars, inEdge[v]))
    ensures Covering(cl, x, edgeVars, edges)
  {
    forall t, v | Models(t, cl) && 0 <= v < |x| && Holds(x[v], t)
      ensures exists e | 0 <= e < |edges| :: v in edges[e] && Holds(edgeVars[e], t)
    {
      LoggedHolds(cl, CoverClause(x[v], edgeVars, inEdge[v]), t);
      CoverClauseMeans(x[v], edgeVars, inEdge[v], t);
      var j :| 0 <= j < |inEdge[v]| && Holds(edgeVars[inEdge[v][j]], t);
      var e := inEdge[v][j];
      assert e in inEdge[v];
    }
  }

  /** The cover promise carries over to a longer clause log. */
  lemma {:induction false} CoveringGrows(cl1: seq<seq<Lit>>, cl2: seq<seq<Lit>>, x: seq<Lit>, edgeVars: seq<Lit>, edges: seq<seq<int>>)
    requires cl1 <= cl2 && Covering(cl1, x, edgeVars, edges)
    ensures Covering(cl2, x, edgeVars, edges)
  {
    forall t, v | Models(t, cl2) && 0 <= v < |x| && Holds(x[v], t)
      ensures exists e | 0 <= e < |edges| :: v in edges[e] && Holds(edgeVars[e], t)
    {
      ModelsPrefix(t, cl1, cl2);
    }
  }

  /** A variable per hyperedge and the cover clause of every vertex, as
      the constructor adds them after the enumerator's own encoding. */
  method AddCoverage(solver: SatSolver, x: seq<Lit>, edges: seq<seq<int>>, n: nat) returns (edgeVars: seq<Lit>)
    requires |x| == n && forall v | 0 <= v < n :: solver.IsVarLit(x[v])
    requires forall e | 0 <= e < |edges| :: Below(edges[e], n)
    modifies solver`numVars, solver`added, solver`clauses
    ensures old(solver.added) <= solver.added && old(solver.numVars) <= solver.numVars
    ensures |edgeVars| == |edges| && AllVars(edgeVars, solver.numVars)
    ensures Covering(solver.added, x, edgeVars, edges)
  {
    var inEdge;
    edgeVars, inEdge := EdgeVars(solver, edges, n);
    forall v | 0 <= v < n ensures VarIn(x[v], solver.numVars) {
      assert old(solver.IsVarLit(x[v]));
    }
    forall v, j | 0 <= v < n && 0 <= j < |inEdge[v]| ensures 0 <= inEdge[v][j] < |edgeVars| {
      assert inEdge[v][j] in inEdge[v];
    }
    AddCoverClauses(solver, x, edgeVars, inEdge);
    CoverClausesCover(solver.added, x, edgeVars, edges, inEdge);
  }

  // ---------------------------------------------------------------------
  // What a listed PMC is covered by

  /** `c` is a set of hyperedges whose union holds every vertex of `vs`. */
  ghost predicate CoverOf(edges: seq<seq<int>>, vs: set<int>, c: set<int>) {
    (forall e | e in c :: 0 <= e < |edges|) &&
    forall v | v in vs :: exists e | e in c :: v in edges[e]
  }

  /** `vs` is covered by exactly SizeFor(k, m) hyperedges when `exact`,
      otherwise by at most `k`. */
  ghost predicate CoverableBy(edges: seq<seq<int>>, vs: set<int>, k: int, exact: bool) {
    exists c :: CoverOf(edges, vs, c) && if exact then |c| == SizeFor(k, |edges|) else |c| <= k
  }

  /** The hyperedges chosen in the model of each listed PMC cover it, and
      the constraint bounds their number. */
  lemma {:induction false} CoversFound(adj: Adj, x: seq<Lit>, edgeVars: seq<Lit>, edges: seq<seq<int>>, cl: seq<seq<Lit>>,
                                       assumptions: seq<Lit>, k: int, exact: bool, pmcs: seq<seq<int>>, models: seq<set<int>>)
    requires |edgeVars| == |edges| && |x| == |adj|
    requires SizeBounded(cl, edgeVars, assumptions, k, exact) && Covering(cl, x, edgeVars, edges) && |models| == |pmcs|
    requires forall i | 0 <= i < |pmcs| :: FoundUnder(adj, x, cl, assumptions, pmcs[i], models[i])
    ensures forall i | 0 <= i < |pmcs| :: CoverableBy(edges, Elems(pmcs[i]), k, exact)
  {
    forall i | 0 <= i < |pmcs| ensures CoverableBy(edges, Elems(pmcs[i]), k, exact) {
      var t := models[i];
      var c := Selected(edgeVars, t);
      CountSelected(edgeVars, t);
      forall v | v in Elems(pmcs[i]) ensures exists e | e in c :: v in edges[e] {
        assert v in Selected(x, t);
        var e :| 0 <= e < |edges| && v in edges[e] && Holds(edgeVars[e], t);
        assert e in c;
      }
      assert CoverOf(edges, Elems(pmcs[i]), c);
    }
  }

  // ---------------------------------------------------------------------
  // The state of the enumerator

  /** The enumerator `base` is in place; `edgeVars` has a variable per
      hyperedge; in every model of the log `log` each selected vertex lies in
      a chosen hyperedge; and `net` counts the chosen hyperedges, as a
      sorting network (encoding 0) or as the outputs of the totalizer `tb`
      (encoding 1). */
  ghost predicate Encoded(base: Enumerator, tb: TotalizerBuilder, cardEncoding: int, edgeVars: seq<Lit>, hyperEdges: seq<seq<int>>,
                          net: seq<Lit>, log: seq<seq<Lit>>)
    reads base, base.graph, base.solver, tb, tb.solver
  {
    base.Valid() && tb.solver == base.solver && (cardEncoding == 0 || cardEncoding == 1) &&
    |edgeVars| == |hyperEdges| && (forall e | 0 <= e < |hyperEdges| :: Below(hyperEdges[e], base.graph.n)) &&
    OutputVars(net, edgeVars, base.solver.numVars) &&
    log <= base.solver.added && Covering(log, base.xVar, edgeVars, hyperEdges) &&
    (cardEncoding == 0 ==> Counting(log, net, edgeVars)) &&
    (cardEncoding == 1 ==> tb.Valid() && tb.input == edgeVars && tb.Outputs() == net)
  }

  /** What the constructor adds after the enumerator's own encoding: the
      hyperedge variables, the cover clauses, the cardinality constraint
      over the hyperedge variables, and the freezing of its outputs. */
  method EncodeCover(e: Enumerator, t: TotalizerBuilder, edges: seq<seq<int>>, cardEncoding: int)
    returns (ev: seq<Lit>, net: seq<Lit>, ghost log: seq<seq<Lit>>)
    requires e.Valid() && (cardEncoding == 0 || cardEncoding == 1)
    requires t.solver == e.solver && t.curSize == -1 && t.nLits == [] && t.input == []
    requires forall k | 0 <= k < |edges| :: Below(edges[k], e.graph.n)
    modifies e.solver, t
    ensures Encoded(e, t, cardEncoding, ev, edges, net, log)
    ensures forall q | 0 <= q < |net| :: Abs(net[q].value) in e.solver.frozen
  {
    var solver := e.solver;
    var x := e.XVars();
    ev := AddCoverage(solver, x, edges, e.graph.n);
    ghost var coverLog := solver.added;
    net, log := BuildConstraint(solver, t, ev, cardEncoding);
    CoveringGrows(coverLog, log, x, ev, edges);
    FreezeAll(solver, net);
    e.ValidGrows();
  }

  // ---------------------------------------------------------------------
  // The enumerator

  class FixedSizeHyperEnumerator {
    const base: Enumerator
    /** 0: the sorting network; 1: the totalizer. */
    const cardEncoding: int
    const tb: TotalizerBuilder
    /** Output `i` stands for "more than `i` hyperedges are chosen". */
    var cardinalityNetwork: seq<Lit>
    /** The hyperedges, over the vertices of the primal graph. */
    ghost const hyperEdges: seq<seq<int>>
    /** Variable `e` stands for "hyperedge `e` is chosen". */
    ghost const edgeVars: seq<Lit>
    /** The clause log right after the cover clauses and the constraint. */
    ghost var networkLog: seq<seq<Lit>>

    ghost predicate Valid()
      reads this, base, base.graph, base.solver, tb, tb.solver
    {
      Encoded(base, tb, cardEncoding, edgeVars, hyperEdges, cardinalityNetwork, networkLog)
    }

    /** The enumerator stays valid while the solver gains clauses and
        variables and its own state stays put. */
    twostate lemma ValidGrows()
      requires old(Valid()) && unchanged(this, tb) && base.Valid() && base.xVar == old(base.xVar)
      requires old(base.solver.added) <= base.solver.added && old(base.solver.numVars) <= base.solver.numVars
      ensures Valid()
    {
      if cardEncoding == 1 {
        tb.ValidGrows();
      }
    }

    /** Builds the enumerator of the primal graph, a variable per hyperedge,
        the cover clause of every vertex, the cardinality constraint over
        the hyperedge variables, and freezes its outputs. */
    constructor(h: HyperGraph, solver: SatSolver, minsepEncoding: int, cardEncoding: int)
      requires h.Valid() && (cardEncoding == 0 || cardEncoding == 1)
      modifies solver
      ensures Valid() && base.solver == solver && this.cardEncoding == cardEncoding && hyperEdges == h.edges
      ensures base.graph.n == h.primal.n && base.graph.adjList == h.primal.adjList && base.minsepEncoding == minsepEncoding
      ensures base.stats == EnumeratorStats(0, 0, 0) && base.minsepVars == map[]
      ensures forall q | 0 <= q < |cardinalityNetwork| :: Abs(cardinalityNetwork[q].value) in solver.frozen
    {
      var g := h.PrimalGraph();
      var e := new Enumerator(g, solver, minsepEncoding);
      var t := new TotalizerBuilder(solver);
      var ev, net;
      ghost var log;
      ev, net, log := EncodeCover(e, t, h.edges, cardEncoding);
      base, tb, cardinalityNetwork, networkLog := e, t, net, log;
      hyperEdges, edgeVars := h.edges, ev;
      this.cardEncoding := cardEncoding;
    }

    /** Under the totalizer, the tree is built far enough for output `k`
        to be linked. This is the corrected step BuildForSize: for k at
        least the number of hyperedges there is no output `k` and nothing
        is built, where the program's unconditional build aborts. */
    method Prepare(k: int) returns (r: Outcome<()>)
      requires Valid()
      modifies tb`curSize, tb`nLits, base.solver
      ensures Valid() && unchanged(base) && cardinalityNetwork == old(cardinalityNetwork)
      ensures old(base.solver.added) <= base.solver.added
      ensures r.Abort? <==> cardEncoding == 1 && k < |hyperEdges| && !(0 <= k && old(tb.curSize) <= k + 1)
      ensures r.Done? && cardEncoding == 1 ==> 0 <= k && (k < |tb.input| ==> |tb.input| <= 1 || k + 1 <= tb.curSize)
    {
      r := Done(());
      if cardEncoding == 1 {
        r := BuildForSize(tb, k);
        base.ValidGrows();
      }
    }

    /** Under the assumptions for size `k` the constraint bounds the number
        of chosen hyperedges: exactly SizeFor(k, m) under the sorting
        network, at most `k` under a totalizer built for `k`. */
    lemma {:induction false} SizeBound(assumptions: seq<Lit>, k: int)
      requires Valid() && |assumptions| == |cardinalityNetwork|
      requires forall i | 0 <= i < |cardinalityNetwork| ::
        assumptions[i] == if i < k then cardinalityNetwork[i] else cardinalityNetwork[i].Neg()
      requires cardEncoding == 1 ==> 0 <= k && (k < |tb.input| ==> |tb.input| <= 1 || k + 1 <= tb.curSize)
      ensures SizeBounded(base.solver.added, edgeVars, assumptions, k, cardEncoding == 0)
    {
      if cardEncoding == 0 {
        NetworkBounds(networkLog, cardinalityNetwork, edgeVars, assumptions, k, base.solver.numVars);
        BoundedGrows(networkLog, base.solver.added, edgeVars, assumptions, k, true);
      } else {
        TotalizerBounds(tb, assumptions, k);
      }
    }

    /** All PMCs of the primal graph that `k` hyperedges cover (exactly
        SizeFor(k, m) chosen hyperedges under the sorting network) and that
        an earlier call did not list: the assumptions fix the outputs of the
        constraint, and the enumeration loop runs until the enumerator
        returns the empty list. */
    method AllPmcs(k: int, fuel: nat) returns (res: Outcome<seq<seq<int>>>)
      requires Valid()
      modifies base`minsepVars, base`stats, base.solver, tb`curSize, tb`nLits
      ensures Valid()
      ensures cardEncoding == 1 && k < |hyperEdges| && !(0 <= k && old(tb.curSize) <= k + 1) ==> res.Abort?
      ensures res.Done? ==> Distinct(res.value)
      ensures res.Done? ==> forall i | 0 <= i < |res.value| ::
        0 < |res.value[i]| && StrictlyIncreasing(res.value[i]) && Below(res.value[i], base.graph.n) &&
        IsPotentialMaximalClique(base.graph.adjList, Elems(res.value[i]))
      ensures res.Done? ==> forall i | 0 <= i < |res.value| ::
        CoverableBy(hyperEdges, Elems(res.value[i]), k, cardEncoding == 0)
    {
      var r := Prepare(k);
      if r.Abort? {
        return Abort;
      }
      label ready:
      var assumptions := SizeAssumptions(cardinalityNetwork, k);
      SizeBound(assumptions, k);
      ghost var cl0 := base.solver.added;
      CoveringGrows(networkLog, cl0, base.xVar, edgeVars, hyperEdges);
      var pmcs, models := CollectPmcs(base, assumptions, fuel);
      ValidGrows@ready();
      if pmcs.Abort? {
        return Abort;
      }
      CoversFound(base.graph.adjList, base.xVar, edgeVars, hyperEdges, cl0, assumptions, k, cardEncoding == 0, pmcs.value, models);
      return pmcs;
    }
  }

  /** The constructor behind its guard on the encoding: an encoding other
      than 0 (sorting network) and 1 (totalizer) stops the program. */
  method NewFixedSizeHyperEnumerator(h: HyperGraph, solver: SatSolver, minsepEncoding: int, cardEncoding: int)
    returns (r: Outcome<FixedSizeHyperEnumerator>)
    requires h.Valid()
    modifies solver
    ensures r.Abort? <==> !(cardEncoding == 0 || cardEncoding == 1)
    ensures r.Done? ==> r.value.Valid() && r.value.base.solver == solver && r.value.cardEncoding == cardEncoding
    ensures r.Done? ==> r.value.hyperEdges == h.edges && r.value.base.graph.adjList == h.primal.adjList
  {
    if cardEncoding == 0 || cardEncoding == 1 {
      var f := new FixedSizeHyperEnumerator(h, solver, minsepEncoding, cardEncoding);
      r := Done(f);
    } else {
      r := Abort;
    }
  }
}
