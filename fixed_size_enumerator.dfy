/** The fixed-size enumerator: the PMC enumerator of `Enumerators` with a
    cardinality constraint over the selection variables, so that one call
    lists the PMCs with a given number of vertices. The constraint is the
    sorting network (`EqualNetwork`) or the incremental totalizer; its
    outputs are assumed true below the size and false from it on. */
module FixedSizeEnumerators {
  import opened Wrappers
  import opened SatInterface
  import opened GraphTheory
  import opened Utils
  import opened Cardinality
  import opened CardinalityNetwork
  import opened NetworkValues
  import opened Graphs
  import opened PmcEncoding
  import opened Enumerators
  import opened CombEnum

  // ---------------------------------------------------------------------
  // What the assumptions mean

  /** The number of selected vertices a call for size `k` asks for when the
      constraint counts exactly: `k` kept within 0..n. */
  function SizeFor(k: int, n: int): (r: int)
    requires 0 <= n
    ensures 0 <= r <= n && (0 <= k <= n ==> r == k)
    ensures k < 0 ==> r == 0
    ensures n < k ==> r == n
  {
    if k < 0 then 0 else if n < k then n else k
  }

  /** Output `i` is true under `t` exactly when `i < k`. */
  ghost predicate Assumed(net: seq<Lit>, k: int, t: set<int>) {
    forall i | 0 <= i < |net| :: Holds(net[i], t) == (i < k)
  }

  /** Every literal of the list is true under `t`. */
  ghost predicate AllHold(ls: seq<Lit>, t: set<int>) {
    forall i | 0 <= i < |ls| :: Holds(ls[i], t)
  }

  /** The assumptions of a call for size `k`: the first `k` outputs of the
      constraint, and the negations of the others. */
  method SizeAssumptions(net: seq<Lit>, k: int) returns (assumptions: seq<Lit>)
    ensures |assumptions| == |net|
    ensures forall i | 0 <= i < |net| :: assumptions[i] == if i < k then net[i] else net[i].Neg()
  {
    assumptions := [];
    for i := 0 to |net|
      invariant |assumptions| == i
      invariant forall j | 0 <= j < i :: assumptions[j] == if j < k then net[j] else net[j].Neg()
    {
      if i < k {
        assumptions := assumptions + [net[i]];
      } else {
        assumptions := assumptions + [net[i].Neg()];
      }
    }
  }

  /** The assumptions hold under `t` exactly when the outputs below `k`
      are true and the others false. */
  lemma {:induction false} AssumptionsMean(net: seq<Lit>, assumptions: seq<Lit>, k: int, t: set<int>)
    requires forall i | 0 <= i < |net| :: net[i].IsDef()
    requires |assumptions| == |net|
    requires forall i | 0 <= i < |net| :: assumptions[i] == if i < k then net[i] else net[i].Neg()
    ensures AllHold(assumptions, t) <==> Assumed(net, k, t)
  {
    forall i | 0 <= i < |net| ensures Holds(assumptions[i], t) == (Holds(net[i], t) == (i < k)) {
      NegFlipsTruth(net[i], t);
    }
  }

  /** Outputs that read "more than i inputs are true" for a count `c` agree
      with the assumptions for size `k` exactly when the count is `k` kept
      within 0..n. */
  lemma {:induction false} CountedIffAssumed(net: seq<Lit>, k: int, t: set<int>, c: int)
    requires 0 <= c <= |net| && Vals(net, t) == Ones(|net|, c)
    ensures Assumed(net, k, t) <==> c == SizeFor(k, |net|)
  {
    var n := |net|;
    forall i | 0 <= i < n ensures Holds(net[i], t) == (i < c) {
      ValsAt(net, t, i);
    }
    if Assumed(net, k, t) {
      if c < n {
        assert Holds(net[c], t) == (c < k);
      }
      if 0 < c {
        assert Holds(net[c - 1], t) == (c - 1 < k);
      }
    }
    if c == SizeFor(k, n) {
      forall i | 0 <= i < n ensures Holds(net[i], t) == (i < k) {
      }
    }
  }

  /** The number of true literals is the number of positions selected. */
  lemma {:induction false} CountSelected(x: seq<Lit>, t: set<int>)
    ensures Count(x, t) == |Selected(x, t)|
    decreases |x|
  {
    if x != [] {
      var p := x[..|x| - 1];
      CountSelected(p, t);
      if Holds(x[|x| - 1], t) {
        assert Selected(x, t) == Selected(p, t) + {|x| - 1};
      } else {
        assert Selected(x, t) == Selected(p, t);
      }
    }
  }

  /** A strictly increasing list has as many elements as entries. */
  lemma {:induction false} IncreasingCard(s: seq<int>)
    requires StrictlyIncreasing(s)
    ensures |Elems(s)| == |s|
  {
    assert Distinct(s);
    DistinctCard(s);
  }

  /** A model of a longer clause log is a model of its prefix. */
  lemma {:induction false} ModelsPrefix(t: set<int>, cl1: seq<seq<Lit>>, cl2: seq<seq<Lit>>)
    requires cl1 <= cl2 && Models(t, cl2)
    ensures Models(t, cl1)
  {
    forall q | 0 <= q < |cl1| ensures Satisfies(t, cl1[q]) {
      assert cl1[q] == cl2[q];
    }
  }

  // ---------------------------------------------------------------------
  // The constraint over the selection

  /** The outputs are solver variables, one per input. */
  ghost predicate OutputVars(net: seq<Lit>, inputs: seq<Lit>, nv: int) {
    |net| == |inputs| && AllVars(net, nv)
  }

  /** In every model of the clause log `cl` output `i` of the network is
      true exactly when more than `i` inputs are. */
  ghost predicate Counting(cl: seq<seq<Lit>>, net: seq<Lit>, inputs: seq<Lit>) {
    forall t | Models(t, cl) :: Vals(net, t) == Ones(|inputs|, Count(inputs, t))
  }

  /** Every model of `cl` that satisfies the assumptions for size `k`
      selects exactly SizeFor(k, n) inputs when `exact`, and otherwise at
      most `k`. */
  ghost predicate SizeBounded(cl: seq<seq<Lit>>, inputs: seq<Lit>, assumptions: seq<Lit>, k: int, exact: bool) {
    forall t | Models(t, cl) && AllHold(assumptions, t) ::
      if exact then Count(inputs, t) == SizeFor(k, |inputs|) else Count(inputs, t) <= k
  }

  /** Under an exact network the assumptions pin the count. */
  lemma {:induction false} NetworkBounds(cl: seq<seq<Lit>>, net: seq<Lit>, inputs: seq<Lit>, assumptions: seq<Lit>, k: int, nv: int)
    requires OutputVars(net, inputs, nv) && Counting(cl, net, inputs)
    requires |assumptions| == |net|
    requires forall i | 0 <= i < |net| :: assumptions[i] == if i < k then net[i] else net[i].Neg()
    ensures SizeBounded(cl, inputs, assumptions, k, true)
  {
    forall t | Models(t, cl) && AllHold(assumptions, t)
      ensures Count(inputs, t) == SizeFor(k, |inputs|)
    {
      AssumptionsMean(net, assumptions, k, t);
      CountedIffAssumed(net, k, t, Count(inputs, t));
    }
  }

  /** Under a totalizer built past output `k` (or with no output `k`), the
      assumptions bound the count by `k`. */
  lemma {:induction false} TotalizerBounds(tb: TotalizerBuilder, assumptions: seq<Lit>, k: int)
    requires tb.Valid() && 0 <= k && (k < |tb.input| ==> |tb.input| <= 1 || k + 1 <= tb.curSize)
    requires |tb.Outputs()| == |tb.input| && forall i | 0 <= i < |tb.input| :: tb.Outputs()[i].IsDef()
    requires |assumptions| == |tb.input|
    requires forall i | 0 <= i < |tb.input| :: assumptions[i] == if i < k then tb.Outputs()[i] else tb.Outputs()[i].Neg()
    ensures SizeBounded(tb.solver.added, tb.input, assumptions, k, false)
  {
    forall t | Models(t, tb.solver.added) && AllHold(assumptions, t) ensures Count(tb.input, t) <= k {
      if k < |tb.input| {
        AssumptionsMean(tb.Outputs(), assumptions, k, t);
        TotalizerBound(tb, t, k);
      }
    }
  }

  /** The bound carries over to a longer clause log. */
  lemma {:induction false} BoundedGrows(cl1: seq<seq<Lit>>, cl2: seq<seq<Lit>>, inputs: seq<Lit>, assumptions: seq<Lit>, k: int, exact: bool)
    requires cl1 <= cl2 && SizeBounded(cl1, inputs, assumptions, k, exact)
    ensures SizeBounded(cl2, inputs, assumptions, k, exact)
  {
    forall t | Models(t, cl2) && AllHold(assumptions, t)
      ensures if exact then Count(inputs, t) == SizeFor(k, |inputs|) else Count(inputs, t) <= k
    {
      ModelsPrefix(t, cl1, cl2);
    }
  }

  /** The counting promise carries over to a longer clause log. */
  lemma {:induction false} CountingGrows(cl1: seq<seq<Lit>>, cl2: seq<seq<Lit>>, net: seq<Lit>, inputs: seq<Lit>)
    requires cl1 <= cl2 && Counting(cl1, net, inputs)
    ensures Counting(cl2, net, inputs)
  {
    forall t | Models(t, cl2) ensures Vals(net, t) == Ones(|inputs|, Count(inputs, t)) {
      ModelsPrefix(t, cl1, cl2);
    }
  }

  // ---------------------------------------------------------------------
  // Building the totalizer for a call

  /** The first step of a call for size `k` under the totalizer, as
      written: the tree is built up to k + 1, which the totalizer refuses
      (and the program stops) when k + 1 exceeds its number of inputs,
      which the size loop reaches at its last size k == n. */
  method BuildForSizeAsWritten(tb: TotalizerBuilder, k: int) returns (r: Outcome<()>)
    requires tb.Valid()
    modifies tb`curSize, tb`nLits, tb.solver
    ensures tb.Valid() && tb.input == old(tb.input) && tb.Outputs() == old(tb.Outputs())
    ensures r.Abort? <==> !(0 <= k && k + 1 <= |tb.input| && old(tb.curSize) <= k + 1)
    ensures |tb.input| <= k ==> r.Abort?
    ensures old(tb.solver.added) <= tb.solver.added && old(tb.solver.numVars) <= tb.solver.numVars
    ensures old(tb.solver.frozen) <= tb.solver.frozen
  {
    r := tb.BuildToSize(k + 1);
  }

  /** The same step as intended: output `k` exists only when k < n, and
      only then is the tree built up to k + 1; afterwards output `k` is
      linked, so assuming it false bounds the count. */
  method BuildForSize(tb: TotalizerBuilder, k: int) returns (r: Outcome<()>)
    requires tb.Valid()
    modifies tb`curSize, tb`nLits, tb.solver
    ensures tb.Valid() && tb.input == old(tb.input) && tb.Outputs() == old(tb.Outputs())
    ensures r.Abort? <==> k < |tb.input| && !(0 <= k && old(tb.curSize) <= k + 1)
    ensures r.Done? && k < |tb.input| ==> |tb.input| <= 1 || k + 1 <= tb.curSize
    ensures old(tb.solver.added) <= tb.solver.added && old(tb.solver.numVars) <= tb.solver.numVars
    ensures old(tb.solver.frozen) <= tb.solver.frozen
  {
    if k < |tb.input| {
      r := tb.BuildToSize(k + 1);
    } else {
      r := Done(());
    }
  }

  // ---------------------------------------------------------------------
  // The enumeration loop

  /** What a listed PMC stands for: a non-empty strictly increasing list of
      vertices that is a PMC of the graph, and exactly the selection of a
      model `t` of the clause log `cl` that satisfies the assumptions. */
  ghost predicate FoundUnder(adj: Adj, x: seq<Lit>, cl: seq<seq<Lit>>, assumptions: seq<Lit>, pmc: seq<int>, t: set<int>) {
    0 < |pmc| && StrictlyIncreasing(pmc) && Below(pmc, |adj|) &&
    IsPotentialMaximalClique(adj, Elems(pmc)) &&
    Elems(pmc) == Selected(x, t) && Models(t, cl) && AllHold(assumptions, t)
  }

  /** The loop of AllPmcs: PMCs are asked for under the assumptions until
      the enumerator returns the empty list; the first request lets the
      solver simplify. Each PMC found is listed once: its selection is
      blocked before the next request. */
  method CollectPmcs(e: Enumerator, assumptions: seq<Lit>, fuel: nat) returns (res: Outcome<seq<seq<int>>>, ghost models: seq<set<int>>)
    requires e.Valid() && forall i | 0 <= i < |assumptions| :: e.solver.IsVarLit(assumptions[i])
    modifies e`minsepVars, e`stats, e.solver
    ensures e.Valid() && old(e.solver.added) <= e.solver.added && old(e.solver.numVars) <= e.solver.numVars
    ensures res.Done? ==> |models| == |res.value| && Distinct(res.value)
    ensures res.Done? ==> forall i | 0 <= i < |res.value| ::
      FoundUnder(e.graph.adjList, e.xVar, old(e.solver.added), assumptions, res.value[i], models[i])
  {
    ghost var cl0 := e.solver.added;
    ghost var adj, x := e.graph.adjList, e.xVar;
    var pmcs: seq<seq<int>> := [];
    models := [];
    ghost var found: set<seq<int>> := {};
    var firstCall := true;
    while true
      invariant e.Valid() && cl0 <= e.solver.added && old(e.solver.numVars) <= e.solver.numVars
      invariant Collected(adj, x, cl0, e.solver.added, assumptions, pmcs, models, found)
      decreases |Lists(|adj|) - found|
    {
      ghost var cl1 := e.solver.added;
      ghost var t: set<int>;
      var r: Outcome<seq<int>>;
      r, t := NextPmc(e, assumptions, firstCall, fuel);
      firstCall := false;
      if r.Abort? {
        return Abort, models;
      }
      if |r.value| == 0 {
        return Done(pmcs), models;
      }
      CollectedStep(adj, x, cl0, cl1, e.solver.added, assumptions, pmcs, models, found, r.value, t);
      pmcs, models, found := pmcs + [r.value], models + [t], found + {r.value};
    }
  }

  /** One request of the loop: a non-empty result is a PMC read from the
      model `t` of the log before its last clause, which blocks the
      selection of `t`. */
  method NextPmc(e: Enumerator, assumptions: seq<Lit>, firstCall: bool, fuel: nat) returns (r: Outcome<seq<int>>, ghost t: set<int>)
    requires e.Valid() && forall i | 0 <= i < |assumptions| :: e.solver.IsVarLit(assumptions[i])
    modifies e`minsepVars, e`stats, e.solver
    ensures e.Valid() && old(e.solver.added) <= e.solver.added && old(e.solver.numVars) <= e.solver.numVars
    ensures forall i | 0 <= i < |assumptions| :: e.solver.IsVarLit(assumptions[i])
    ensures r.Done? && 0 < |r.value| ==> FreshPmc(e.graph.adjList, e.xVar, old(e.solver.added), e.solver.added, assumptions, r.value, t)
  {
    ghost var found: bool;
    r, found := e.GetPmc(assumptions, firstCall, fuel);
    t := e.solver.model;
  }

  /** `p` was read from the model `t` of the log `cl2` minus its last
      clause, which extends `cl1` and blocks the selection of `t`. */
  ghost predicate FreshPmc(adj: Adj, x: seq<Lit>, cl1: seq<seq<Lit>>, cl2: seq<seq<Lit>>, assumptions: seq<Lit>, p: seq<int>, t: set<int>) {
    cl1 <= cl2 && |cl1| < |cl2| &&
    0 < |p| && StrictlyIncreasing(p) && Below(p, |adj|) && IsPotentialMaximalClique(adj, Elems(p)) &&
    Elems(p) == Selected(x, t) && AllHold(assumptions, t) &&
    Models(t, cl2[..|cl2| - 1]) && cl2[|cl2| - 1] == BlockClause(x, t)
  }

  /** The invariant of the loop: the PMCs listed so far, each with the
      model it was read from, differ from one another, each one's
      selection is blocked in the log `cl`, and `found` is the set of them,
      a subset of the finite set of strictly increasing lists. */
  ghost predicate Collected(adj: Adj, x: seq<Lit>, cl0: seq<seq<Lit>>, cl: seq<seq<Lit>>, assumptions: seq<Lit>,
                            pmcs: seq<seq<int>>, models: seq<set<int>>, found: set<seq<int>>) {
    |models| == |pmcs| && Distinct(pmcs) &&
    (forall i | 0 <= i < |pmcs| :: FoundUnder(adj, x, cl0, assumptions, pmcs[i], models[i])) &&
    (forall i | 0 <= i < |pmcs| :: Logged(cl, BlockClause(x, models[i]))) &&
    found == Listed(pmcs) && found <= Lists(|adj|)
  }

  /** The set of the entries of a list. */
  ghost function Listed(s: seq<seq<int>>): set<seq<int>>
    decreases |s|
  {
    if s == [] then {} else Listed(s[..|s| - 1]) + {s[|s| - 1]}
  }

  /** The entries of a list are its elements; appending a new one adds it. */
  lemma {:induction false} ListedSnoc(s: seq<seq<int>>, p: seq<int>)
    requires forall i | 0 <= i < |s| :: s[i] != p
    ensures Listed(s + [p]) == Listed(s) + {p} && p !in Listed(s)
    decreases |s|
  {
    assert (s + [p])[..|s|] == s;
    if s != [] {
      ListedSnoc(s[..|s| - 1], p);
    }
  }

  /** One more PMC `p`, found in the model `t` of the log `cl2` minus its
      last clause, which blocks the selection of `t`: the invariant holds
      with `p` appended, and the set of lists not yet found shrinks. */
  lemma {:induction false} CollectedStep(adj: Adj, x: seq<Lit>, cl0: seq<seq<Lit>>, cl1: seq<seq<Lit>>, cl2: seq<seq<Lit>>,
                                         assumptions: seq<Lit>, pmcs: seq<seq<int>>, models: seq<set<int>>, found: set<seq<int>>,
                                         p: seq<int>, t: set<int>)
    requires forall k | 0 <= k < |x| :: x[k].IsDef()
    requires Collected(adj, x, cl0, cl1, assumptions, pmcs, models, found)
    requires cl0 <= cl1 && FreshPmc(adj, x, cl1, cl2, assumptions, p, t)
    ensures Collected(adj, x, cl0, cl2, assumptions, pmcs + [p], models + [t], found + {p})
    ensures |Lists(|adj|) - (found + {p})| < |Lists(|adj|) - found|
  {
    var before := cl2[..|cl2| - 1];
    assert cl1 <= before;
    ModelsPrefix(t, cl0, before);
    forall i | 0 <= i < |pmcs| ensures pmcs[i] != p {
      PmcsDiffer(x, before, models[i], t, pmcs[i], p);
    }
    forall i | 0 <= i < |pmcs| ensures Logged(cl2, BlockClause(x, models[i])) {
      LoggedGrows(cl1, cl2, BlockClause(x, models[i]));
    }
    forall i | 0 <= i < |pmcs + [p]|
      ensures FoundUnder(adj, x, cl0, assumptions, (pmcs + [p])[i], (models + [t])[i])
      ensures Logged(cl2, BlockClause(x, (models + [t])[i]))
    {
      if i < |pmcs| {
        assert (pmcs + [p])[i] == pmcs[i] && (models + [t])[i] == models[i];
      } else {
        assert (pmcs + [p])[i] == p && (models + [t])[i] == t;
        assert cl2[|cl2| - 1] in cl2;
      }
    }
    InLists(p, |adj|);
    ListedSnoc(pmcs, p);
    CardDrop(Lists(|adj|), found, found + {p});
  }

  /** A model of a log holding the blocking clause of an earlier model
      selects differently, so the two lists of vertices differ. */
  lemma {:induction false} PmcsDiffer(x: seq<Lit>, cl: seq<seq<Lit>>, t0: set<int>, t: set<int>, p0: seq<int>, p: seq<int>)
    requires forall k | 0 <= k < |x| :: x[k].IsDef()
    requires Logged(cl, BlockClause(x, t0)) && Models(t, cl)
    requires Elems(p0) == Selected(x, t0) && Elems(p) == Selected(x, t)
    ensures p0 != p
  {
    LoggedHolds(cl, BlockClause(x, t0), t);
    BlockClauseExcludes(x, t0, t);
  }

  /** A listed PMC has as many vertices as the model selects. */
  lemma {:induction false} FoundSize(adj: Adj, x: seq<Lit>, cl: seq<seq<Lit>>, assumptions: seq<Lit>, pmc: seq<int>, t: set<int>)
    requires FoundUnder(adj, x, cl, assumptions, pmc, t)
    ensures |pmc| == Count(x, t)
  {
    IncreasingCard(pmc);
    CountSelected(x, t);
  }

  // ---------------------------------------------------------------------
  // The enumerator

  class FixedSizeEnumerator {
    const base: Enumerator
    /** 0: the sorting network; 1: the totalizer. */
    const cardEncoding: int
    const tb: TotalizerBuilder
    /** Output `i` stands for "more than `i` vertices are selected". */
    var cardinalityNetwork: seq<Lit>
    /** The clause log right after the sorting network was built. */
    ghost var networkLog: seq<seq<Lit>>

    ghost predicate Valid()
      reads this, base, base.graph, base.solver, tb, tb.solver
    {
      base.Valid() && tb.solver == base.solver && (cardEncoding == 0 || cardEncoding == 1) &&
      OutputVars(cardinalityNetwork, base.xVar, base.solver.numVars) &&
      (cardEncoding == 0 ==> networkLog <= base.solver.added && Counting(networkLog, cardinalityNetwork, base.xVar)) &&
      (cardEncoding == 1 ==> tb.Valid() && tb.input == base.xVar && tb.Outputs() == cardinalityNetwork)
    }

    /** The enumerator stays valid while the solver gains clauses and
        variables and its own state stays put. */
    twostate lemma ValidGrows()
      requires old(Valid()) && unchanged(this, tb) && base.Valid() && base.xVar == old(base.xVar)
      requires old(base.solver.added) <= base.solver.added && old(base.solver.numVars) <= base.solver.numVars
      ensures Valid()
    {
      if cardEncoding == 1 {
        tb.ValidGrows();
      }
    }

    /** Builds the enumerator of the graph, then the cardinality constraint
        over its selection variables, and freezes the outputs. */
    constructor(g: Graph, solver: SatSolver, minsepEncoding: int, cardEncoding: int)
      requires g.Valid() && (cardEncoding == 0 || cardEncoding == 1)
      modifies solver
      ensures Valid() && base.solver == solver && this.cardEncoding == cardEncoding
      ensures base.graph.n == g.n && base.graph.adjList == g.adjList && base.minsepEncoding == minsepEncoding
      ensures base.stats == EnumeratorStats(0, 0, 0) && base.minsepVars == map[]
      ensures forall q | 0 <= q < |cardinalityNetwork| :: Abs(cardinalityNetwork[q].value) in solver.frozen
    {
      var e := new Enumerator(g, solver, minsepEncoding);
      var t := new TotalizerBuilder(solver);
      var x := e.XVars();
      label built:
      var net: seq<Lit>;
      ghost var log: seq<seq<Lit>>;
      net, log := BuildConstraint(solver, t, x, cardEncoding);
      FreezeAll(solver, net);
      e.ValidGrows@built();
      base, tb, cardinalityNetwork, networkLog := e, t, net, log;
      this.cardEncoding := cardEncoding;
    }

    /** Under the totalizer, the tree is built far enough for output `k`
        to be linked. This is the corrected step BuildForSize: for k at
        least the number of vertices nothing is built, where the program's
        unconditional build aborts. */
    method Prepare(k: int) returns (r: Outcome<()>)
      requires Valid()
      modifies tb`curSize, tb`nLits, base.solver
      ensures Valid() && unchanged(base) && cardinalityNetwork == old(cardinalityNetwork)
      ensures old(base.solver.added) <= base.solver.added
      ensures r.Abort? <==> cardEncoding == 1 && k < base.graph.n && !(0 <= k && old(tb.curSize) <= k + 1)
      ensures r.Done? && cardEncoding == 1 ==> 0 <= k && (k < |tb.input| ==> |tb.input| <= 1 || k + 1 <= tb.curSize)
    {
      r := Done(());
      if cardEncoding == 1 {
        r := BuildForSize(tb, k);
        base.ValidGrows();
      }
    }

    /** Under the assumptions for size `k` the constraint bounds the number
        of selected vertices: exactly SizeFor(k, n) under the sorting
        network, at most `k` under a totalizer built for `k`. */
    lemma {:induction false} SizeBound(assumptions: seq<Lit>, k: int)
      requires Valid() && |assumptions| == |cardinalityNetwork|
      requires forall i | 0 <= i < |cardinalityNetwork| ::
        assumptions[i] == if i < k then cardinalityNetwork[i] else cardinalityNetwork[i].Neg()
      requires cardEncoding == 1 ==> 0 <= k && (k < |tb.input| ==> |tb.input| <= 1 || k + 1 <= tb.curSize)
      ensures SizeBounded(base.solver.added, base.xVar, assumptions, k, cardEncoding == 0)
    {
      if cardEncoding == 0 {
        NetworkBounds(networkLog, cardinalityNetwork, base.xVar, assumptions, k, base.solver.numVars);
        BoundedGrows(networkLog, base.solver.added, base.xVar, assumptions, k, true);
      } else {
        TotalizerBounds(tb, assumptions, k);
      }
    }

    /** All PMCs with `k` vertices (under the totalizer: at most `k`) not
        listed by an earlier call: the assumptions fix the outputs of the
        constraint, and the enumeration loop runs until the enumerator
        returns the empty list. Only the first request lets the solver
        simplify. */
    method AllPmcs(k: int, fuel: nat) returns (res: Outcome<seq<seq<int>>>)
      requires Valid()
      modifies base`minsepVars, base`stats, base.solver, tb`curSize, tb`nLits
      ensures Valid()
      ensures cardEncoding == 1 && k < base.graph.n && !(0 <= k && old(tb.curSize) <= k + 1) ==> res.Abort?
      ensures res.Done? ==> Distinct(res.value)
      ensures res.Done? ==> forall i | 0 <= i < |res.value| ::
        0 < |res.value[i]| <= k && StrictlyIncreasing(res.value[i]) && Below(res.value[i], base.graph.n) &&
        IsPotentialMaximalClique(base.graph.adjList, Elems(res.value[i]))
      ensures res.Done? && cardEncoding == 0 ==> forall i | 0 <= i < |res.value| ::
        |res.value[i]| == SizeFor(k, base.graph.n)
    {
      var r := Prepare(k);
      if r.Abort? {
        return Abort;
      }
      label ready:
      var assumptions := SizeAssumptions(cardinalityNetwork, k);
      SizeBound(assumptions, k);
      ghost var cl0 := base.solver.added;
      var pmcs, models := CollectPmcs(base, assumptions, fuel);
      ValidGrows@ready();
      if pmcs.Abort? {
        return Abort;
      }
      SizesFound(base.graph.adjList, base.xVar, cl0, assumptions, k, cardEncoding == 0, pmcs.value, models);
      return pmcs;
    }
  }

  /** The constructor behind its guard on the encoding: an encoding other
      than 0 (sorting network) and 1 (totalizer) stops the program. */
  method NewFixedSizeEnumerator(g: Graph, solver: SatSolver, minsepEncoding: int, cardEncoding: int)
    returns (r: Outcome<FixedSizeEnumerator>)
    requires g.Valid()
    modifies solver
    ensures r.Abort? <==> !(cardEncoding == 0 || cardEncoding == 1)
    ensures r.Done? ==> r.value.Valid() && r.value.base.solver == solver && r.value.cardEncoding == cardEncoding
    ensures r.Done? ==> r.value.base.graph.adjList == g.adjList && r.value.base.minsepEncoding == minsepEncoding
  {
    if cardEncoding == 0 || cardEncoding == 1 {
      var f := new FixedSizeEnumerator(g, solver, minsepEncoding, cardEncoding);
      r := Done(f);
    } else {
      r := Abort;
    }
  }

  /** The sizes the constraint allows carry over to the PMCs listed. */
  lemma {:induction false} SizesFound(adj: Adj, x: seq<Lit>, cl: seq<seq<Lit>>, assumptions: seq<Lit>, k: int, exact: bool,
                                      pmcs: seq<seq<int>>, models: seq<set<int>>)
    requires |x| == |adj| && SizeBounded(cl, x, assumptions, k, exact) && |models| == |pmcs|
    requires forall i | 0 <= i < |pmcs| :: FoundUnder(adj, x, cl, assumptions, pmcs[i], models[i])
    ensures forall i | 0 <= i < |pmcs| :: |pmcs[i]| <= k && (exact ==> |pmcs[i]| == SizeFor(k, |adj|))
  {
    forall i | 0 <= i < |pmcs| ensures |pmcs[i]| <= k && (exact ==> |pmcs[i]| == SizeFor(k, |adj|)) {
      FoundSize(adj, x, cl, assumptions, pmcs[i], models[i]);
    }
  }

  /** The cardinality constraint of the constructor: the sorting network
      over the given variables (encoding 0) or the totalizer's outputs
      (encoding 1); `log` is the clause log right after. */
  method BuildConstraint(solver: SatSolver, tb: TotalizerBuilder, x: seq<Lit>, cardEncoding: int) returns (net: seq<Lit>, ghost log: seq<seq<Lit>>)
    requires cardEncoding == 0 || cardEncoding == 1
    requires AllVars(x, solver.numVars) && tb.solver == solver && tb.curSize == -1 && tb.nLits == [] && tb.input == []
    modifies solver`numVars, solver`added, solver`clauses, tb
    ensures old(solver.added) <= solver.added && old(solver.numVars) <= solver.numVars && log == solver.added
    ensures OutputVars(net, x, solver.numVars)
    ensures cardEncoding == 0 ==> Counting(log, net, x)
    ensures cardEncoding == 1 ==> tb.Valid() && tb.input == x && tb.Outputs() == net
  {
    if cardEncoding == 0 {
      var ccb := new CardinalityNetworkBuilder(solver);
      ghost var pads, full;
      net, pads, full := ccb.EqualNetwork(x);
    } else {
      net := tb.Init(x);
    }
    log := solver.added;
  }

  /** Freezes every output of the constraint. */
  method FreezeAll(solver: SatSolver, net: seq<Lit>)
    requires AllVars(net, solver.numVars)
    modifies solver`frozen
    ensures forall q | 0 <= q < |net| :: Abs(net[q].value) in solver.frozen
    ensures old(solver.frozen) <= solver.frozen
  {
    for i := 0 to |net|
      invariant forall q | 0 <= q < i :: Abs(net[q].value) in solver.frozen
      invariant old(solver.frozen) <= solver.frozen
    {
      solver.FreezeVar(net[i]);
    }
  }
}
