/** The SAT encoding behind PMC enumeration and its counterexample loop.
    A selection variable x[v] per vertex says that v is in the candidate
    PMC; a connectivity literal c[v][u] per pair says that v and u are
    connected with respect to the candidate. The base encoding makes every
    model select a vertex set with no full component whose vertices are
    pairwise c-connected; the counterexample loop then checks each model
    with the exact PMC test and either returns it (blocking exactly that
    selection) or finds a minimal bad separator and forbids connectivity
    across it. */
module Enumerators {
  import opened Wrappers
  import opened SatInterface
  import opened GraphTheory
  import opened Utils
  import opened Cardinality
  import opened Graphs
  import opened PmcEncoding

  /** The enumerator's counters. */
  datatype EnumeratorStats = EnumeratorStats(pmcsFound: int, minsepsFound: int, satCalls: int)
  {
    function PmcFound(): EnumeratorStats { this.(pmcsFound := pmcsFound + 1) }
    function MinsepFound(): EnumeratorStats { this.(minsepsFound := minsepsFound + 1) }
    function SatCalled(): EnumeratorStats { this.(satCalls := satCalls + 1) }
  }

  class Enumerator {
    const graph: Graph
    const solver: SatSolver
    const minsepEncoding: int
    /** The selection variable of each vertex. */
    var xVar: seq<Lit>
    /** The connectivity literal of each pair, as n rows of n. */
    var cVar: seq<seq<Lit>>
    /** The auxiliary variables of the no-full-component clauses. */
    ghost var fullVars: seq<seq<Lit>>
    /** The literal of each minimal separator found so far. */
    var minsepVars: map<seq<int>, Lit>
    var stats: EnumeratorStats
    /** The path literals and free-endpoint literals of the path-length
        encoding, layer by layer (encoding 4 only). */
    ghost var clVars: seq<seq<seq<Lit>>>
    ghost var fVars: seq<seq<seq<Lit>>>

    ghost predicate Valid()
      reads this`xVar, this`cVar, this`fullVars, this`minsepVars, this`clVars, this`fVars, graph, solver`numVars, solver`added, solver`frozen
    {
      BaseValid() &&
      (minsepEncoding == 4 ==> PathEncoded(solver.added, graph.adjList, xVar, cVar, clVars, fVars, solver.numVars))
    }

    /** The base encoding and the minimal-separator cache are in place. */
    ghost predicate BaseValid()
      reads this`xVar, this`cVar, this`fullVars, this`minsepVars, graph, solver`numVars, solver`added, solver`frozen
    {
      graph.Valid() &&
      SelectionVars(xVar, graph.n, solver.numVars) &&
      (forall k | 0 <= k < |xVar| :: xVar[k].value in solver.frozen) &&
      Square(cVar, graph.n) && ConnShape(graph.adjList, cVar) && KnownOff(cVar, solver.numVars) &&
      Square(fullVars, graph.n) &&
      BasicEncoded(solver.added, graph.adjList, xVar, cVar, fullVars, minsepEncoding) &&
      CacheLogged(solver.added, xVar, minsepVars, solver.numVars)
    }

    /** The encoding stays in place when other code adds clauses, variables
        and frozen variables to the solver. */
    twostate lemma ValidGrows()
      requires old(Valid()) && unchanged(this, graph)
      requires old(solver.added) <= solver.added && old(solver.numVars) <= solver.numVars
      requires old(solver.frozen) <= solver.frozen
      ensures Valid()
    {
      BasicGrows(old(solver.added), solver.added, graph.adjList, xVar, cVar, fullVars, minsepEncoding);
      CacheGrows(old(solver.added), solver.added, xVar, minsepVars, old(solver.numVars), solver.numVars);
      if minsepEncoding == 4 {
        PathGrows(old(solver.added), solver.added, graph.adjList, xVar, cVar, clVars, fVars, old(solver.numVars), solver.numVars);
      }
    }

    /** Copies the graph and emits the base encoding (and, for encoding 4,
        the path-length encoding). */
    constructor(g: Graph, solver: SatSolver, minsepEncoding: int)
      requires g.Valid()
      modifies solver
      ensures Valid() && fresh(graph) && this.solver == solver && this.minsepEncoding == minsepEncoding
      ensures graph.n == g.n && graph.adjList == g.adjList
      ensures minsepVars == map[] && stats == EnumeratorStats(0, 0, 0)
      ensures forall k | 0 <= k < graph.n :: xVar[k] == Lit(old(solver.numVars) + k + 1)
      ensures old(solver.added) <= solver.added && old(solver.numVars) <= solver.numVars
    {
      var gc := g.Clone();
      graph := gc;
      this.solver := solver;
      this.minsepEncoding := minsepEncoding;
      xVar, cVar, fullVars := [], [], [];
      minsepVars := map[];
      stats := EnumeratorStats(0, 0, 0);
      clVars, fVars := [], [];
      new;
      BuildBasicEncoding();
      if minsepEncoding == 4 {
        BuildPathLengthEncoding();
      }
    }

    /** The selection variables, the connectivity literals and the three
        families of clauses of the base encoding. */
    method BuildBasicEncoding()
      requires graph.Valid() && minsepVars == map[]
      modifies this`xVar, this`cVar, this`fullVars, solver
      ensures BaseValid()
      ensures forall k | 0 <= k < graph.n :: xVar[k] == Lit(old(solver.numVars) + k + 1)
      ensures old(solver.added) <= solver.added && old(solver.numVars) <= solver.numVars
    {
      MakeSelectionVars();
      MakeConnectivityVars();
      ghost var cl0 := solver.added;
      AddPropagationClauses();
      ghost var cl1 := solver.added;
      AddCliqueClauses();
      ghost var cl2 := solver.added;
      AddFullComponentClauses();
      ghost var adj := graph.adjList;
      forall i | 0 <= i < graph.n ensures PropagationRow(solver.added, adj, xVar, cVar, i) && CliqueRow(solver.added, xVar, cVar, i) {
        PropagationGrows(cl1, solver.added, adj, xVar, cVar, i);
        CliqueGrows(cl2, solver.added, xVar, cVar, i);
      }
    }

    method MakeSelectionVars()
      requires graph.Valid()
      modifies this`xVar, solver
      ensures SelectionVars(xVar, graph.n, solver.numVars)
      ensures forall k | 0 <= k < graph.n :: xVar[k] == Lit(old(solver.numVars) + k + 1) && xVar[k].value in solver.frozen
      ensures solver.numVars == old(solver.numVars) + graph.n && solver.added == old(solver.added)
    {
      var n := graph.n;
      xVar := seq(n, _ => Undef);
      for i := 0 to n
        invariant |xVar| == n && solver.numVars == old(solver.numVars) + i && solver.added == old(solver.added)
        invariant forall k | 0 <= k < i :: xVar[k] == Lit(old(solver.numVars) + k + 1) && xVar[k].value in solver.frozen
      {
        var l := solver.NewVar();
        solver.FreezeVar(l);
        xVar := xVar[i := l];
      }
    }

    method MakeConnectivityVars()
      requires graph.Valid()
      modifies this`cVar, solver
      ensures Square(cVar, graph.n) && ConnShape(graph.adjList, cVar) && KnownOff(cVar, solver.numVars)
      ensures forall a, b | 0 <= a < b < graph.n && !Adjacent(graph.adjList, a, b) :: old(solver.numVars) < cVar[a][b].value
      ensures old(solver.numVars) <= solver.numVars && solver.added == old(solver.added) && solver.frozen == old(solver.frozen)
    {
      var n := graph.n;
      ghost var nv0 := solver.numVars;
      var c: seq<seq<Lit>> := seq(n, _ => seq(n, _ => Undef));
      for i := 0 to n
        invariant Square(c, n) && ConnFilled(graph.adjList, c, i, nv0, solver.numVars)
        invariant nv0 <= solver.numVars && solver.added == old(solver.added) && solver.frozen == old(solver.frozen)
      {
        var row := ConnectivityRow(c, i, nv0);
        c := c[i := row];
      }
      cVar := c;
      ConnFilledShape(graph.adjList, c, nv0, solver.numVars);
      forall a, b | 0 <= a < b < n && !Adjacent(graph.adjList, a, b) ensures nv0 < c[a][b].value {
        assert ConnEntry(graph.adjList, c, a, b, nv0);
      }
    }

    /** Row i: for j > i the constant true on an edge and a fresh variable
        otherwise; for j < i the literal already chosen for (j, i). */
    method ConnectivityRow(c: seq<seq<Lit>>, i: int, ghost nv0: int) returns (row: seq<Lit>)
      requires graph.Valid() && Square(c, graph.n) && 0 <= i < graph.n && nv0 <= solver.numVars
      requires ConnFilled(graph.adjList, c, i, nv0, solver.numVars)
      modifies solver
      ensures |row| == graph.n && ConnFilled(graph.adjList, c[i := row], i + 1, nv0, solver.numVars)
      ensures old(solver.numVars) <= solver.numVars && solver.added == old(solver.added) && solver.frozen == old(solver.frozen)
    {
      var n := graph.n;
      row := c[i];
      for ii := 0 to n
        invariant |row| == n && old(solver.numVars) <= solver.numVars
        invariant solver.added == old(solver.added) && solver.frozen == old(solver.frozen)
        invariant forall b | 0 <= b < ii && b != i :: RowEntry(graph.adjList, c, row, i, b, nv0) && KnownIn(row[b], solver.numVars)
      {
        if i == ii {
          continue;
        }
        if i < ii {
          var e := graph.HasEdge(i, ii);
          if e {
            row := row[ii := TrueLit];
          } else {
            var l := solver.NewVar();
            row := row[ii := l];
          }
        } else {
          assert ConnEntry(graph.adjList, c, ii, i, nv0);
          assert c[ii][i].IsDef();
          row := row[ii := c[ii][i]];
        }
      }
      RowInstalled(graph.adjList, c, row, i, nv0, solver.numVars);
    }

    method AddPropagationClauses()
      requires graph.Valid() && |xVar| == graph.n && Square(cVar, graph.n)
      requires AllKnown(xVar, solver.numVars) && KnownOff(cVar, solver.numVars)
      modifies solver
      ensures PropagationLogged(solver.added, graph.adjList, xVar, cVar)
      ensures old(solver.added) <= solver.added && solver.numVars == old(solver.numVars) && solver.frozen == old(solver.frozen)
    {
      for i := 0 to graph.n
        invariant forall a | 0 <= a < i :: PropagationRow(solver.added, graph.adjList, xVar, cVar, a)
        invariant old(solver.added) <= solver.added && solver.numVars == old(solver.numVars) && solver.frozen == old(solver.frozen)
      {
        ghost var cl0 := solver.added;
        PropagationFrom(i);
        forall a | 0 <= a < i ensures PropagationRow(solver.added, graph.adjList, xVar, cVar, a) {
          PropagationGrows(cl0, solver.added, graph.adjList, xVar, cVar, a);
        }
      }
    }

    method PropagationFrom(i: int)
      requires graph.Valid() && |xVar| == graph.n && Square(cVar, graph.n) && 0 <= i < graph.n
      requires AllKnown(xVar, solver.numVars) && KnownOff(cVar, solver.numVars)
      modifies solver
      ensures PropagationRow(solver.added, graph.adjList, xVar, cVar, i)
      ensures old(solver.added) <= solver.added && solver.numVars == old(solver.numVars) && solver.frozen == old(solver.frozen)
    {
      for ii := 0 to graph.n
        invariant forall b | 0 <= b < ii && b != i :: PropagationCell(solver.added, graph.adjList, xVar, cVar, i, b)
        invariant old(solver.added) <= solver.added && solver.numVars == old(solver.numVars) && solver.frozen == old(solver.frozen)
      {
        if i == ii {
          continue;
        }
        ghost var cl0 := solver.added;
        PropagationAt(i, ii);
        forall b | 0 <= b < ii && b != i ensures PropagationCell(solver.added, graph.adjList, xVar, cVar, i, b) {
          CellGrows(cl0, solver.added, graph.adjList, xVar, cVar, i, b);
        }
      }
    }

    method PropagationAt(i: int, ii: int)
      requires graph.Valid() && |xVar| == graph.n && Square(cVar, graph.n)
      requires 0 <= i < graph.n && 0 <= ii < graph.n && i != ii
      requires AllKnown(xVar, solver.numVars) && KnownOff(cVar, solver.numVars)
      modifies solver
      ensures PropagationCell(solver.added, graph.adjList, xVar, cVar, i, ii)
      ensures old(solver.added) <= solver.added && solver.numVars == old(solver.numVars) && solver.frozen == old(solver.frozen)
    {
      var nbs := graph.adjList[ii];
      var left, mid := cVar[i][ii].Neg(), xVar[ii];
      for k := 0 to |nbs|
        invariant forall iii | iii in nbs[..k] && iii != i :: Logged(solver.added, [left, mid, cVar[i][iii]])
        invariant old(solver.added) <= solver.added && solver.numVars == old(solver.numVars) && solver.frozen == old(solver.frozen)
      {
        var iii := nbs[k];
        if iii != i {
          Emit(solver, [left, mid, cVar[i][iii]]);
        }
        assert nbs[..k + 1] == nbs[..k] + [iii];
      }
      assert nbs[..|nbs|] == nbs;
    }

    method AddCliqueClauses()
      requires graph.Valid() && |xVar| == graph.n && Square(cVar, graph.n)
      requires AllKnown(xVar, solver.numVars) && KnownOff(cVar, solver.numVars)
      modifies solver
      ensures CliqueLogged(solver.added, xVar, cVar)
      ensures old(solver.added) <= solver.added && solver.numVars == old(solver.numVars) && solver.frozen == old(solver.frozen)
    {
      var n := graph.n;
      for i := 0 to n
        invariant forall a | 0 <= a < i :: CliqueRow(solver.added, xVar, cVar, a)
        invariant old(solver.added) <= solver.added && solver.numVars == old(solver.numVars) && solver.frozen == old(solver.frozen)
      {
        ghost var cl0 := solver.added;
        for ii := i + 1 to n
          invariant forall j | i < j < ii :: Logged(solver.added, [xVar[i].Neg(), xVar[j].Neg(), cVar[i][j]])
          invariant cl0 <= solver.added && solver.numVars == old(solver.numVars) && solver.frozen == old(solver.frozen)
        {
          Emit(solver, [xVar[i].Neg(), xVar[ii].Neg(), cVar[i][ii]]);
        }
        forall a | 0 <= a < i ensures CliqueRow(solver.added, xVar, cVar, a) {
          CliqueGrows(cl0, solver.added, xVar, cVar, a);
        }
      }
    }

    method AddFullComponentClauses()
      requires graph.Valid() && |xVar| == graph.n && Square(cVar, graph.n)
      requires AllKnown(xVar, solver.numVars) && KnownOff(cVar, solver.numVars)
      modifies this`fullVars, solver
      ensures Square(fullVars, graph.n) && FullLogged(solver.added, xVar, cVar, fullVars, minsepEncoding)
      ensures old(solver.added) <= solver.added && old(solver.numVars) <= solver.numVars && solver.frozen == old(solver.frozen)
    {
      var n := graph.n;
      fullVars := [];
      for i := 0 to n
        invariant |fullVars| == i && forall a | 0 <= a < i :: |fullVars[a]| == n && FullRow(solver.added, xVar, cVar, fullVars[a], a, minsepEncoding)
        invariant AllKnown(xVar, solver.numVars) && KnownOff(cVar, solver.numVars)
        invariant old(solver.added) <= solver.added && old(solver.numVars) <= solver.numVars && solver.frozen == old(solver.frozen)
      {
        ghost var cl0 := solver.added;
        ghost var y := FullComponentRow(i);
        forall a | 0 <= a < i ensures FullRow(solver.added, xVar, cVar, fullVars[a], a, minsepEncoding) {
          FullRowGrows(cl0, solver.added, xVar, cVar, fullVars[a], a, minsepEncoding);
        }
        fullVars := fullVars + [y];
      }
    }

    /** For each j != i a fresh y[j] with y[j] -> x[j] and y[j] -> not c[i][j]
        (encoding 5: also x[j] and not c[i][j] -> y[j]), then x[i] or some y[j]. */
    method FullComponentRow(i: int) returns (ghost y: seq<Lit>)
      requires |xVar| == graph.n && Square(cVar, graph.n) && 0 <= i < graph.n
      requires AllKnown(xVar, solver.numVars) && KnownOff(cVar, solver.numVars)
      modifies solver
      ensures |y| == graph.n && FullRow(solver.added, xVar, cVar, y, i, minsepEncoding)
      ensures old(solver.added) <= solver.added && old(solver.numVars) <= solver.numVars && solver.frozen == old(solver.frozen)
    {
      var n := graph.n;
      var clause := [xVar[i]];
      y := [];
      for ii := 0 to n
        invariant |y| == ii && clause == [xVar[i]] + Others(y, i)
        invariant AllKnown(xVar, solver.numVars) && KnownOff(cVar, solver.numVars)
        invariant forall j | 0 <= j < ii && j != i :: VarIn(y[j], solver.numVars)
        invariant FullCellsBelow(solver.added, xVar, cVar, y, i, ii, minsepEncoding)
        invariant old(solver.added) <= solver.added && old(solver.numVars) <= solver.numVars && solver.frozen == old(solver.frozen)
      {
        ghost var y1 := y;
        if i == ii {
          y := y + [Undef];
          assert y[..ii] == y1;
          continue;
        }
        ghost var cl0 := solver.added;
        var v := FullComponentCell(i, ii);
        FullCellsBelowGrows(cl0, solver.added, xVar, cVar, y, i, ii, minsepEncoding);
        clause := clause + [v];
        y := y + [v];
        assert y[..ii] == y1;
      }
      OthersSpec(y, i);
      assert forall l | l in Others(y, i) :: KnownIn(l, solver.numVars);
      ghost var cl1 := solver.added;
      Emit(solver, clause);
      FullCellsBelowGrows(cl1, solver.added, xVar, cVar, y, i, n, minsepEncoding);
    }

    /** The fresh variable y for the pair (i, ii) and its two (encoding 5:
        three) clauses. */
    method FullComponentCell(i: int, ii: int) returns (v: Lit)
      requires |xVar| == graph.n && Square(cVar, graph.n) && 0 <= i < graph.n && 0 <= ii < graph.n && i != ii
      requires AllKnown(xVar, solver.numVars) && KnownOff(cVar, solver.numVars)
      modifies solver
      ensures VarIn(v, solver.numVars) && FullCell(solver.added, xVar, cVar, v, i, ii, minsepEncoding)
      ensures AllKnown(xVar, solver.numVars) && KnownOff(cVar, solver.numVars)
      ensures old(solver.added) <= solver.added && old(solver.numVars) <= solver.numVars && solver.frozen == old(solver.frozen)
    {
      v := EmitFullCell(solver, xVar[ii], cVar[i][ii], minsepEncoding);
    }

    // -------------------------------------------------------------------
    // The path-length encoding (encoding 4)

    /** Layers 1 .. n - 1 of path and free-endpoint literals, the clauses
        from each layer to the next, the step clauses, and c[i][ii] implies
        a path of at most n - 1 edges. */
    method BuildPathLengthEncoding()
      requires BaseValid()
      modifies this`clVars, this`fVars, solver
      ensures BaseValid() && PathEncoded(solver.added, graph.adjList, xVar, cVar, clVars, fVars, solver.numVars)
      ensures old(solver.added) <= solver.added && old(solver.numVars) <= solver.numVars
    {
      ghost var cl0, nv0 := solver.added, solver.numVars;
      var clv, fv := PathLayers();
      ghost var cl1 := solver.added;
      PathLiteralsKnown(cl1, graph.adjList, xVar, clv, fv, solver.numVars);
      MonotoneClauses(clv, fv);
      ghost var cl2 := solver.added;
      StepClauses(clv, fv);
      ghost var cl3 := solver.added;
      FinalClauses(clv, fv);
      clVars, fVars := clv, fv;
      ghost var adj, cl := graph.adjList, solver.added;
      LayersGrow(cl1, cl, adj, xVar, clv, fv, solver.numVars, solver.numVars);
      MonoLayersGrow(cl2, cl, clv, fv, graph.n - 1);
      StepLayersGrow(cl3, cl, adj, clv, fv, graph.n);
      BasicGrows(cl0, cl, adj, xVar, cVar, fullVars, minsepEncoding);
      CacheGrows(cl0, cl, xVar, minsepVars, nv0, solver.numVars);
    }

    method PathLayers() returns (clv: seq<seq<seq<Lit>>>, fv: seq<seq<seq<Lit>>>)
      requires graph.Valid() && |xVar| == graph.n && AllKnown(xVar, solver.numVars)
      modifies solver
      ensures PathLiterals(solver.added, graph.adjList, xVar, clv, fv, solver.numVars)
      ensures old(solver.added) <= solver.added && old(solver.numVars) <= solver.numVars && solver.frozen == old(solver.frozen)
    {
      var n := graph.n;
      var blank := seq(n, _ => seq(n, _ => Undef));
      clv := seq(n, _ => blank);
      fv := clv;
      var j := 1;
      while j < n
        invariant 1 <= j && (j <= n || j == 1)
        invariant Cube(clv, n) && Cube(fv, n) && AllKnown(xVar, solver.numVars)
        invariant forall q | 1 <= q < j :: LayerDone(solver.added, graph.adjList, xVar, clv[q], fv[q], q, solver.numVars)
        invariant old(solver.added) <= solver.added && old(solver.numVars) <= solver.numVars && solver.frozen == old(solver.frozen)
      {
        ghost var cl0, nv0 := solver.added, solver.numVars;
        var L, F := PathLayer(j);
        forall q | 1 <= q < j ensures LayerDone(solver.added, graph.adjList, xVar, clv[q], fv[q], q, solver.numVars) {
          LayerDoneGrows(cl0, solver.added, graph.adjList, xVar, clv[q], fv[q], q, nv0, solver.numVars);
        }
        clv, fv := clv[j := L], fv[j := F];
        j := j + 1;
      }
    }

    /** Layer j, row by row. */
    method PathLayer(j: int) returns (L: seq<seq<Lit>>, F: seq<seq<Lit>>)
      requires graph.Valid() && |xVar| == graph.n && AllKnown(xVar, solver.numVars) && 1 <= j
      modifies solver
      ensures Square(L, graph.n) && Square(F, graph.n) && LayerDone(solver.added, graph.adjList, xVar, L, F, j, solver.numVars)
      ensures AllKnown(xVar, solver.numVars)
      ensures old(solver.added) <= solver.added && old(solver.numVars) <= solver.numVars && solver.frozen == old(solver.frozen)
    {
      var n := graph.n;
      L := seq(n, _ => seq(n, _ => Undef));
      F := L;
      for i := 0 to n
        invariant Square(L, n) && Square(F, n) && AllKnown(xVar, solver.numVars)
        invariant LayerFilled(graph.adjList, L, i, j, solver.numVars)
        invariant forall a | 0 <= a < i :: FreeRow(solver.added, xVar, L[a], F[a], a, solver.numVars)
        invariant old(solver.added) <= solver.added && old(solver.numVars) <= solver.numVars && solver.frozen == old(solver.frozen)
      {
        ghost var cl0, nv0 := solver.added, solver.numVars;
        var row, frow := PathRow(L, i, j);
        forall a | 0 <= a < i ensures FreeRow(solver.added, xVar, L[a], F[a], a, solver.numVars) {
          FreeRowGrows(cl0, solver.added, xVar, L[a], F[a], a, nv0, solver.numVars);
        }
        L, F := L[i := row], F[i := frow];
      }
    }

    /** Row i of layer j: the path literal of each pair (true on an edge,
        false in layer 1 otherwise, else fresh; below the diagonal the
        entry of the mirrored pair) and a fresh free-endpoint literal with
        its two clauses. */
    method PathRow(L: seq<seq<Lit>>, i: int, j: int) returns (row: seq<Lit>, frow: seq<Lit>)
      requires graph.Valid() && |xVar| == graph.n && AllKnown(xVar, solver.numVars)
      requires Square(L, graph.n) && 0 <= i < graph.n && 1 <= j && LayerFilled(graph.adjList, L, i, j, solver.numVars)
      modifies solver
      ensures |row| == graph.n && |frow| == graph.n && LayerFilled(graph.adjList, L[i := row], i + 1, j, solver.numVars)
      ensures FreeRow(solver.added, xVar, row, frow, i, solver.numVars) && AllKnown(xVar, solver.numVars)
      ensures old(solver.added) <= solver.added && old(solver.numVars) <= solver.numVars && solver.frozen == old(solver.frozen)
    {
      var n := graph.n;
      row, frow := L[i], L[i];
      for ii := 0 to n
        invariant |row| == n && |frow| == n && AllKnown(xVar, solver.numVars)
        invariant LayerFilled(graph.adjList, L, i, j, solver.numVars)
        invariant forall b | 0 <= b < ii && b != i :: LayerRowEntry(graph.adjList, L, row, i, b, j) && KnownIn(row[b], solver.numVars)
        invariant forall b | 0 <= b < ii && b != i :: FreeCell(solver.added, xVar, row[b], frow[b], b) && KnownIn(frow[b], solver.numVars)
        invariant old(solver.added) <= solver.added && old(solver.numVars) <= solver.numVars && solver.frozen == old(solver.frozen)
      {
        if i == ii {
          continue;
        }
        if i < ii {
          var e := graph.HasEdge(i, ii);
          if e {
            row := row[ii := TrueLit];
          } else if j == 1 {
            row := row[ii := FalseLit];
          } else {
            var l := solver.NewVar();
            row := row[ii := l];
          }
        } else {
          assert LayerEntry(graph.adjList, L, ii, i, j);
          row := row[ii := L[ii][i]];
        }
        ghost var cl0 := solver.added;
        var f := FreeLiteral(row[ii], ii);
        forall b | 0 <= b < ii && b != i ensures FreeCell(solver.added, xVar, row[b], frow[b], b) {
          FreeCellGrows(cl0, solver.added, xVar, row[b], frow[b], b);
        }
        frow := frow[ii := f];
      }
      LayerRowInstalled(graph.adjList, L, row, i, j, solver.numVars);
    }

    /** A fresh f with f -> l and f -> not x[b]. */
    method FreeLiteral(l: Lit, b: int) returns (f: Lit)
      requires |xVar| == graph.n && 0 <= b < graph.n && AllKnown(xVar, solver.numVars) && KnownIn(l, solver.numVars)
      modifies solver
      ensures VarIn(f, solver.numVars) && FreeCell(solver.added, xVar, l, f, b)
      ensures AllKnown(xVar, solver.numVars) && KnownIn(l, solver.numVars)
      ensures old(solver.added) <= solver.added && old(solver.numVars) <= solver.numVars && solver.frozen == old(solver.frozen)
    {
      f := solver.NewVar();
      Emit(solver, [f.Neg(), l]);
      Emit(solver, [f.Neg(), xVar[b].Neg()]);
    }

    /** For each layer j with j + 1 < n, the clauses carrying its path and
        free literals over to layer j + 1. */
    method MonotoneClauses(clv: seq<seq<seq<Lit>>>, fv: seq<seq<seq<Lit>>>)
      requires graph.Valid() && Cube(clv, graph.n) && Cube(fv, graph.n) && PathKnown(clv, fv, solver.numVars)
      modifies solver
      ensures forall j | 1 <= j && j + 1 < graph.n :: MonoLayer(solver.added, clv, fv, j)
      ensures old(solver.added) <= solver.added && solver.numVars == old(solver.numVars) && solver.frozen == old(solver.frozen)
    {
      var n := graph.n;
      var j := 1;
      while j + 1 < n
        invariant 1 <= j && (j + 1 <= n || j == 1)
        invariant forall q | 1 <= q < j :: MonoLayer(solver.added, clv, fv, q)
        invariant old(solver.added) <= solver.added && solver.numVars == old(solver.numVars) && solver.frozen == old(solver.frozen)
      {
        ghost var cl0 := solver.added;
        MonoLayerClauses(clv, fv, j);
        MonoLayersGrow(cl0, solver.added, clv, fv, j);
        j := j + 1;
      }
    }

    method MonoLayerClauses(clv: seq<seq<seq<Lit>>>, fv: seq<seq<seq<Lit>>>, j: int)
      requires graph.Valid() && Cube(clv, graph.n) && Cube(fv, graph.n) && PathKnown(clv, fv, solver.numVars)
      requires 1 <= j && j + 1 < graph.n
      modifies solver
      ensures MonoLayer(solver.added, clv, fv, j)
      ensures old(solver.added) <= solver.added && solver.numVars == old(solver.numVars) && solver.frozen == old(solver.frozen)
    {
      var n := graph.n;
      for i := 0 to n
        invariant forall a, b | 0 <= a < i && 0 <= b < n && a != b :: MonoCell(solver.added, clv, fv, j, a, b)
        invariant old(solver.added) <= solver.added && solver.numVars == old(solver.numVars) && solver.frozen == old(solver.frozen)
      {
        ghost var cl0 := solver.added;
        MonoRow(clv, fv, j, i);
        forall a, b | 0 <= a < i && 0 <= b < n && a != b ensures MonoCell(solver.added, clv, fv, j, a, b) {
          MonoCellGrows(cl0, solver.added, clv, fv, j, a, b);
        }
      }
    }

    method MonoRow(clv: seq<seq<seq<Lit>>>, fv: seq<seq<seq<Lit>>>, j: int, i: int)
      requires graph.Valid() && Cube(clv, graph.n) && Cube(fv, graph.n) && PathKnown(clv, fv, solver.numVars)
      requires 1 <= j && j + 1 < graph.n && 0 <= i < graph.n
      modifies solver
      ensures forall b | 0 <= b < graph.n && b != i :: MonoCell(solver.added, clv, fv, j, i, b)
      ensures old(solver.added) <= solver.added && solver.numVars == old(solver.numVars) && solver.frozen == old(solver.frozen)
    {
      var n := graph.n;
      for ii := 0 to n
        invariant forall b | 0 <= b < ii && b != i :: MonoCell(solver.added, clv, fv, j, i, b)
        invariant old(solver.added) <= solver.added && solver.numVars == old(solver.numVars) && solver.frozen == old(solver.frozen)
      {
        if i == ii {
          continue;
        }
        ghost var cl0 := solver.added;
        if i < ii {
          Emit(solver, [clv[j][i][ii].Neg(), clv[j + 1][i][ii]]);
        }
        Emit(solver, [fv[j][i][ii].Neg(), fv[j + 1][i][ii]]);
        forall b | 0 <= b < ii && b != i ensures MonoCell(solver.added, clv, fv, j, i, b) {
          MonoCellGrows(cl0, solver.added, clv, fv, j, i, b);
        }
      }
    }

    /** For each layer j >= 2 and each pair of non-neighbours, the step
        clause. */
    method StepClauses(clv: seq<seq<seq<Lit>>>, fv: seq<seq<seq<Lit>>>)
      requires graph.Valid() && Cube(clv, graph.n) && Cube(fv, graph.n) && PathKnown(clv, fv, solver.numVars)
      modifies solver
      ensures forall j | 2 <= j < graph.n :: StepLayer(solver.added, graph.adjList, clv, fv, j)
      ensures old(solver.added) <= solver.added && solver.numVars == old(solver.numVars) && solver.frozen == old(solver.frozen)
    {
      var n := graph.n;
      var j := 2;
      while j < n
        invariant 2 <= j && (j <= n || j == 2)
        invariant forall q | 2 <= q < j :: StepLayer(solver.added, graph.adjList, clv, fv, q)
        invariant old(solver.added) <= solver.added && solver.numVars == old(solver.numVars) && solver.frozen == old(solver.frozen)
      {
        ghost var cl0 := solver.added;
        StepLayerClauses(clv, fv, j);
        StepLayersGrow(cl0, solver.added, graph.adjList, clv, fv, j);
        j := j + 1;
      }
    }

    method StepLayerClauses(clv: seq<seq<seq<Lit>>>, fv: seq<seq<seq<Lit>>>, j: int)
      requires graph.Valid() && Cube(clv, graph.n) && Cube(fv, graph.n) && PathKnown(clv, fv, solver.numVars)
      requires 2 <= j < graph.n
      modifies solver
      ensures StepLayer(solver.added, graph.adjList, clv, fv, j)
      ensures old(solver.added) <= solver.added && solver.numVars == old(solver.numVars) && solver.frozen == old(solver.frozen)
    {
      var n := graph.n;
      for i := 0 to n
        invariant forall a | 0 <= a < i :: StepRow(solver.added, graph.adjList, clv, fv, j, a)
        invariant old(solver.added) <= solver.added && solver.numVars == old(solver.numVars) && solver.frozen == old(solver.frozen)
      {
        ghost var cl0 := solver.added;
        StepRowClauses(clv, fv, j, i);
        forall a | 0 <= a < i ensures StepRow(solver.added, graph.adjList, clv, fv, j, a) {
          StepRowGrows(cl0, solver.added, graph.adjList, clv, fv, j, a);
        }
      }
      ghost var adj := graph.adjList;
      forall a, b | 0 <= a < n && 0 <= b < n && a != b && !Adjacent(adj, a, b)
        ensures Logged(solver.added, StepClause(clv[j][a][b], fv[j - 1][a], adj[b], a))
      {
        assert StepRow(solver.added, adj, clv, fv, j, a);
      }
    }

    method StepRowClauses(clv: seq<seq<seq<Lit>>>, fv: seq<seq<seq<Lit>>>, j: int, i: int)
      requires graph.Valid() && Cube(clv, graph.n) && Cube(fv, graph.n) && PathKnown(clv, fv, solver.numVars)
      requires 2 <= j < graph.n && 0 <= i < graph.n
      modifies solver
      ensures StepRow(solver.added, graph.adjList, clv, fv, j, i)
      ensures old(solver.added) <= solver.added && solver.numVars == old(solver.numVars) && solver.frozen == old(solver.frozen)
    {
      var n := graph.n;
      ghost var adj := graph.adjList;
      for ii := 0 to n
        invariant forall b | 0 <= b < ii && b != i && !Adjacent(adj, i, b) :: Logged(solver.added, StepClause(clv[j][i][b], fv[j - 1][i], adj[b], i))
        invariant old(solver.added) <= solver.added && solver.numVars == old(solver.numVars) && solver.frozen == old(solver.frozen)
      {
        if i == ii {
          continue;
        }
        var e := graph.HasEdge(i, ii);
        if e {
          continue;
        }
        assert Below(graph.adjList[ii], |fv[j - 1][i]|);
        var clause := BuildStepClause(clv[j][i][ii], fv[j - 1][i], graph.adjList[ii], i);
        StepClauseKnown(clv[j][i][ii], fv[j - 1][i], adj[ii], i, solver.numVars);
        ghost var cl0 := solver.added;
        Emit(solver, clause);
        forall b | 0 <= b < ii && b != i && !Adjacent(adj, i, b) ensures Logged(solver.added, StepClause(clv[j][i][b], fv[j - 1][i], adj[b], i)) {
          LoggedGrows(cl0, solver.added, StepClause(clv[j][i][b], fv[j - 1][i], adj[b], i));
        }
      }
    }

    /** For i < ii, the clause c[i][ii] implies the path literal of layer
        n - 1. */
    method FinalClauses(clv: seq<seq<seq<Lit>>>, ghost fv: seq<seq<seq<Lit>>>)
      requires graph.Valid() && Square(cVar, graph.n) && KnownOff(cVar, solver.numVars)
      requires Cube(clv, graph.n) && Cube(fv, graph.n) && PathKnown(clv, fv, solver.numVars)
      modifies solver
      ensures FinalLogged(solver.added, cVar, clv)
      ensures old(solver.added) <= solver.added && solver.numVars == old(solver.numVars) && solver.frozen == old(solver.frozen)
    {
      var n := graph.n;
      for i := 0 to n
        invariant forall a | 0 <= a < i :: FinalRow(solver.added, cVar, clv, a)
        invariant old(solver.added) <= solver.added && solver.numVars == old(solver.numVars) && solver.frozen == old(solver.frozen)
      {
        ghost var cl0 := solver.added;
        for ii := i + 1 to n
          invariant forall b | i < b < ii :: Logged(solver.added, [cVar[i][b].Neg(), clv[n - 1][i][b]])
          invariant cl0 <= solver.added && solver.numVars == old(solver.numVars) && solver.frozen == old(solver.frozen)
        {
          ghost var cl1 := solver.added;
          Emit(solver, [cVar[i][ii].Neg(), clv[n - 1][i][ii]]);
          forall b | i < b < ii ensures Logged(solver.added, [cVar[i][b].Neg(), clv[n - 1][i][b]]) {
            LoggedGrows(cl1, solver.added, [cVar[i][b].Neg(), clv[n - 1][i][b]]);
          }
        }
        forall a | 0 <= a < i ensures FinalRow(solver.added, cVar, clv, a) {
          FinalRowGrows(cl0, solver.added, cVar, clv, a);
        }
      }
      forall a, b | 0 <= a < b < n ensures Logged(solver.added, [cVar[a][b].Neg(), clv[n - 1][a][b]]) {
        assert FinalRow(solver.added, cVar, clv, a);
      }
    }

    // -------------------------------------------------------------------
    // Checking a model

    /** Whether some pair connected in cValue is not connected with respect
        to the separator. */
    method IsBadSep(separator: seq<int>, cValue: seq<seq<bool>>) returns (r: bool)
      requires graph.Valid() && Below(separator, graph.n) && Square(cValue, graph.n)
      ensures r <==> BadSep(graph.adjList, Elems(separator), cValue)
    {
      var connected := graph.ConnectedMatrix(separator);
      var n := graph.n;
      for i := 0 to n
        invariant forall a, b | 0 <= a < i && 0 <= b < n && a != b :: !cValue[a][b] || connected.cells[a][b]
      {
        for ii := 0 to n
          invariant forall b | 0 <= b < ii && b != i :: !cValue[i][b] || connected.cells[i][b]
        {
          if i != ii && cValue[i][ii] && !connected.Get(i, ii) {
            return true;
          }
        }
      }
      return false;
    }

    /** The values of the connectivity literals in the current model. */
    method ModelConnValues() returns (cValue: seq<seq<bool>>)
      requires Valid()
      ensures ConnValues(cVar, solver.model, cValue, graph.n)
    {
      var n := graph.n;
      cValue := [];
      for i := 0 to n
        invariant |cValue| == i
        invariant forall a | 0 <= a < i :: |cValue[a]| == n
        invariant forall a, b | 0 <= a < i && 0 <= b < n :: cValue[a][b] == (a != b && Holds(cVar[a][b], solver.model))
      {
        var row := [];
        for ii := 0 to n
          invariant |row| == ii && forall b | 0 <= b < ii :: row[b] == (i != b && Holds(cVar[i][b], solver.model))
        {
          var value := false;
          if i != ii {
            value := solver.SolutionValue(cVar[i][ii]);
          }
          row := row + [value];
        }
        cValue := cValue + [row];
      }
    }

    /** Dropping one entry of an increasing list below n leaves an increasing
        list below n holding the other entries. */
    static lemma {:induction false} DroppedShape(s: seq<int>, i: int, r: seq<int>, n: int)
      requires 0 <= i < |s| && r == s[..i] + s[i + 1..] && StrictlyIncreasing(s) && Below(s, n)
      ensures StrictlyIncreasing(r) && Below(r, n) && Elems(r) == Elems(s) - {s[i]}
    {
      assert forall p | 0 <= p < |r| :: r[p] == if p < i then s[p] else s[p + 1];
      forall y ensures y in Elems(r) <==> y in Elems(s) && y != s[i] {
        if y in Elems(s) && y != s[i] {
          var p :| 0 <= p < |s| && s[p] == y;
          if p < i { assert r[p] == y; } else { assert r[p - 1] == y; }
        }
      }
    }

    /** One more necessary vertex extends the checked prefix. */
    static lemma {:induction false} NecessaryExtends(adj: Adj, minsep: seq<int>, i: int, cValue: seq<seq<bool>>)
      requires Square(cValue, |adj|) && 0 <= i < |minsep|
      requires forall k | 0 <= k < i :: !BadSep(adj, Elems(minsep) - {minsep[k]}, cValue)
      requires !BadSep(adj, Elems(minsep) - {minsep[i]}, cValue)
      ensures forall k | 0 <= k < i + 1 :: !BadSep(adj, Elems(minsep) - {minsep[k]}, cValue)
    {
    }

    /** Dropping the vertex at position i keeps the earlier vertices
        necessary: a vertex whose removal left no bad separator before
        leaves none from the smaller set either. */
    static lemma {:induction false} DroppedStillMinimal(adj: Adj, minsep: seq<int>, i: int, r: seq<int>, cValue: seq<seq<bool>>)
      requires InRange(adj) && Square(cValue, |adj|) && 0 <= i < |minsep| && r == minsep[..i] + minsep[i + 1..]
      requires forall k | 0 <= k < i :: !BadSep(adj, Elems(minsep) - {minsep[k]}, cValue)
      ensures forall k | 0 <= k < i :: !BadSep(adj, Elems(r) - {r[k]}, cValue)
    {
      forall k | 0 <= k < i ensures !BadSep(adj, Elems(r) - {r[k]}, cValue) {
        assert r[k] == minsep[k];
        assert Elems(r) - {r[k]} <= Elems(minsep) - {minsep[k]} by {
          forall y | y in Elems(r) ensures y in Elems(minsep) {
            var p :| 0 <= p < |r| && r[p] == y;
            if p < i { assert minsep[p] == y; } else { assert minsep[p + 1] == y; }
          }
        }
        if BadSep(adj, Elems(r) - {r[k]}, cValue) {
          BadSepMono(adj, Elems(r) - {r[k]}, Elems(minsep) - {minsep[k]}, cValue);
        }
      }
    }

    /** Drops separator vertices one at a time, keeping each removal that
        leaves the separator bad and retrying the same position after it. */
    method ShrinkSeparator(sep: seq<int>, cValue: seq<seq<bool>>) returns (minsep: seq<int>)
      requires graph.Valid() && Below(sep, graph.n) && StrictlyIncreasing(sep) && Square(cValue, graph.n)
      requires BadSep(graph.adjList, Elems(sep), cValue)
      ensures StrictlyIncreasing(minsep) && Elems(minsep) <= Elems(sep) && Below(minsep, graph.n)
      ensures BadSep(graph.adjList, Elems(minsep), cValue)
      ensures forall k | 0 <= k < |minsep| :: !BadSep(graph.adjList, Elems(minsep) - {minsep[k]}, cValue)
    {
      minsep := sep;
      var i := 0;
      while i < |minsep|
        invariant 0 <= i <= |minsep|
        invariant StrictlyIncreasing(minsep) && Elems(minsep) <= Elems(sep) && Below(minsep, graph.n)
        invariant BadSep(graph.adjList, Elems(minsep), cValue)
        invariant forall k | 0 <= k < i :: !BadSep(graph.adjList, Elems(minsep) - {minsep[k]}, cValue)
        decreases |minsep|, |minsep| - i
      {
        var newMinsep := WithoutAt(minsep, i);
        DroppedShape(minsep, i, newMinsep, graph.n);
        var bad := IsBadSep(newMinsep, cValue);
        if bad {
          DroppedStillMinimal(graph.adjList, minsep, i, newMinsep, cValue);
          minsep := newMinsep;
        } else {
          assert !BadSep(graph.adjList, Elems(minsep) - {minsep[i]}, cValue);
          NecessaryExtends(graph.adjList, minsep, i, cValue);
          i := i + 1;
        }
      }
    }

    // -------------------------------------------------------------------
    // Blocking a bad separator

    /** The literal of minsep from the cache, or a fresh one logged with
        m or not x[v] for v in minsep (encoding 5: also not m or x[v]). */
    method MinsepLiteral(minsep: seq<int>) returns (m: Lit)
      requires Valid() && StrictlyIncreasing(minsep) && Below(minsep, graph.n)
      modifies this`minsepVars, this`stats, solver
      ensures Valid() && VarIn(m, solver.numVars) && minsepVars == old(minsepVars)[minsep := m]
      ensures old(solver.added) <= solver.added && old(solver.numVars) <= solver.numVars && solver.model == old(solver.model)
      ensures minsep in old(minsepVars) ==>
        m == old(minsepVars)[minsep] && stats == old(stats) && solver.added == old(solver.added)
      ensures minsep !in old(minsepVars) ==> stats == old(stats).MinsepFound()
      ensures minsep !in old(minsepVars) && minsepEncoding != 0 && minsepEncoding != 5 ==> m.value in solver.frozen
      ensures minsep !in old(minsepVars) && minsepEncoding == 5 ==>
        forall k | 0 <= k < |minsep| :: Logged(solver.added, [m.Neg(), xVar[minsep[k]]])
    {
      if minsep in minsepVars {
        m := minsepVars[minsep];
        return;
      }
      stats := stats.MinsepFound();
      m := NewMinsepLiteral(minsep);
      CacheGrows(old(solver.added), solver.added, xVar, minsepVars, old(solver.numVars), solver.numVars);
      BasicGrows(old(solver.added), solver.added, graph.adjList, xVar, cVar, fullVars, minsepEncoding);
      if minsepEncoding == 4 {
        PathGrows(old(solver.added), solver.added, graph.adjList, xVar, cVar, clVars, fVars, old(solver.numVars), solver.numVars);
      }
      minsepVars := minsepVars[minsep := m];
    }

    /** A fresh literal m for minsep, frozen unless the encoding is 0 or 5,
        with its clauses. */
    method NewMinsepLiteral(minsep: seq<int>) returns (m: Lit)
      requires graph.Valid() && SelectionVars(xVar, graph.n, solver.numVars) && Below(minsep, graph.n)
      modifies solver
      ensures VarIn(m, solver.numVars) && m == Lit(old(solver.numVars) + 1) && solver.numVars == old(solver.numVars) + 1
      ensures old(solver.added) <= solver.added && solver.model == old(solver.model)
      ensures Logged(solver.added, MinsepClause(m, xVar, minsep))
      ensures solver.frozen == old(solver.frozen) + if minsepEncoding != 0 && minsepEncoding != 5 then {m.value} else {}
      ensures minsepEncoding == 5 ==> forall k | 0 <= k < |minsep| :: Logged(solver.added, [m.Neg(), xVar[minsep[k]]])
    {
      m := solver.NewVar();
      if minsepEncoding != 0 && minsepEncoding != 5 {
        solver.FreezeVar(m);
      }
      var clause := [m];
      for k := 0 to |minsep|
        invariant |clause| == k + 1 && clause[0] == m
        invariant forall q | 0 <= q < k :: clause[q + 1] == xVar[minsep[q]].Neg()
      {
        clause := clause + [xVar[minsep[k]].Neg()];
      }
      assert clause == MinsepClause(m, xVar, minsep);
      Emit(solver, clause);
      if minsepEncoding == 5 {
        ghost var cl1 := solver.added;
        LinkMinsep(m, minsep);
        LoggedGrows(cl1, solver.added, clause);
      }
    }

    /** not m or x[v] for every v in minsep. */
    method LinkMinsep(m: Lit, minsep: seq<int>)
      requires |xVar| == graph.n && AllKnown(xVar, solver.numVars) && KnownIn(m, solver.numVars) && Below(minsep, graph.n)
      modifies solver
      ensures forall k | 0 <= k < |minsep| :: Logged(solver.added, [m.Neg(), xVar[minsep[k]]])
      ensures old(solver.added) <= solver.added && solver.numVars == old(solver.numVars)
      ensures solver.frozen == old(solver.frozen) && solver.model == old(solver.model)
    {
      for k := 0 to |minsep|
        invariant old(solver.added) <= solver.added && solver.numVars == old(solver.numVars)
        invariant solver.frozen == old(solver.frozen) && solver.model == old(solver.model)
        invariant forall q | 0 <= q < k :: Logged(solver.added, [m.Neg(), xVar[minsep[q]]])
      {
        ghost var cl0 := solver.added;
        Emit(solver, [m.Neg(), xVar[minsep[k]]]);
        forall q | 0 <= q < k ensures Logged(solver.added, [m.Neg(), xVar[minsep[q]]]) {
          LoggedGrows(cl0, solver.added, [m.Neg(), xVar[minsep[q]]]);
        }
      }
    }

    /** The literals a cut between A and B may use are known to the solver. */
    ghost predicate CutReady(m: Lit, A: seq<int>, B: seq<int>)
      reads this, graph, solver
    {
      Square(cVar, graph.n) && KnownOff(cVar, solver.numVars) && KnownIn(m, solver.numVars) &&
      Below(A, graph.n) && Below(B, graph.n) && Elems(A) !! Elems(B)
    }

    /** Logs not m or not c[v][u] for every v of A and u of B. */
    method CutAll(m: Lit, A: seq<int>, B: seq<int>)
      requires CutReady(m, A, B)
      modifies solver
      ensures AllCut(solver.added, m, cVar, A, B)
      ensures old(solver.added) <= solver.added && solver.numVars == old(solver.numVars)
      ensures solver.frozen == old(solver.frozen) && solver.model == old(solver.model)
    {
      for k := 0 to |A|
        invariant forall p | 0 <= p < k :: CutFrom(solver.added, m, cVar, A[p], B)
        invariant old(solver.added) <= solver.added && solver.numVars == old(solver.numVars)
        invariant solver.frozen == old(solver.frozen) && solver.model == old(solver.model)
      {
        ghost var cl0 := solver.added;
        assert A[k] in Elems(A);
        CutAllFrom(m, A[k], B);
        CutFromsGrow(cl0, solver.added, m, cVar, A, B, k);
      }
      CutFromsAll(solver.added, m, cVar, A, B);
    }

    /** The cut clauses of v with every vertex of B. */
    method CutAllFrom(m: Lit, v: int, B: seq<int>)
      requires Square(cVar, graph.n) && KnownOff(cVar, solver.numVars) && KnownIn(m, solver.numVars)
      requires 0 <= v < graph.n && Below(B, graph.n) && v !in Elems(B)
      modifies solver
      ensures CutFrom(solver.added, m, cVar, v, B)
      ensures old(solver.added) <= solver.added && solver.numVars == old(solver.numVars)
      ensures solver.frozen == old(solver.frozen) && solver.model == old(solver.model)
    {
      for l := 0 to |B|
        invariant forall q | 0 <= q < l :: Logged(solver.added, [m.Neg(), cVar[v][B[q]].Neg()])
        invariant old(solver.added) <= solver.added && solver.numVars == old(solver.numVars)
        invariant solver.frozen == old(solver.frozen) && solver.model == old(solver.model)
      {
        assert B[l] in Elems(B);
        ghost var cl0 := solver.added;
        Emit(solver, [m.Neg(), cVar[v][B[l]].Neg()]);
        CutStep(cl0, solver.added, m, cVar, v, B, l);
      }
    }

    /** Logs the cut clause of every pair of A and B connected in cValue. */
    method CutTrue(m: Lit, A: seq<int>, B: seq<int>, cValue: seq<seq<bool>>)
      requires CutReady(m, A, B) && Square(cValue, graph.n)
      modifies solver
      ensures TrueCut(solver.added, m, cVar, cValue, A, B)
      ensures old(solver.added) <= solver.added && solver.numVars == old(solver.numVars)
      ensures solver.frozen == old(solver.frozen) && solver.model == old(solver.model)
    {
      for k := 0 to |A|
        invariant forall p | 0 <= p < k :: TrueCutFrom(solver.added, m, cVar, cValue, A[p], B)
        invariant old(solver.added) <= solver.added && solver.numVars == old(solver.numVars)
        invariant solver.frozen == old(solver.frozen) && solver.model == old(solver.model)
      {
        ghost var cl0 := solver.added;
        assert A[k] in Elems(A);
        CutTrueFrom(m, A[k], B, cValue);
        TrueCutFromsGrow(cl0, solver.added, m, cVar, cValue, A, B, k);
      }
      TrueCutFromsAll(solver.added, m, cVar, cValue, A, B);
    }

    /** The cut clauses of v with the vertices of B connected to it in cValue. */
    method CutTrueFrom(m: Lit, v: int, B: seq<int>, cValue: seq<seq<bool>>)
      requires Square(cVar, graph.n) && KnownOff(cVar, solver.numVars) && KnownIn(m, solver.numVars)
      requires 0 <= v < graph.n && Below(B, graph.n) && v !in Elems(B) && Square(cValue, graph.n)
      modifies solver
      ensures TrueCutFrom(solver.added, m, cVar, cValue, v, B)
      ensures old(solver.added) <= solver.added && solver.numVars == old(solver.numVars)
      ensures solver.frozen == old(solver.frozen) && solver.model == old(solver.model)
    {
      for l := 0 to |B|
        invariant forall q | 0 <= q < l && cValue[v][B[q]] :: Logged(solver.added, [m.Neg(), cVar[v][B[q]].Neg()])
        invariant old(solver.added) <= solver.added && solver.numVars == old(solver.numVars)
        invariant solver.frozen == old(solver.frozen) && solver.model == old(solver.model)
      {
        assert B[l] in Elems(B);
        ghost var cl0 := solver.added;
        if cValue[v][B[l]] {
          Emit(solver, [m.Neg(), cVar[v][B[l]].Neg()]);
        }
        TrueCutStep(cl0, solver.added, m, cVar, cValue, v, B, l);
      }
    }

    /** Logs the cut clause of the first pair of A and B, in listed order,
        that is connected in cValue, and nothing when there is none. */
    method CutFirst(m: Lit, A: seq<int>, B: seq<int>, cValue: seq<seq<bool>>)
      requires CutReady(m, A, B) && Square(cValue, graph.n)
      modifies solver
      ensures OneCut(solver.added, m, cVar, cValue, A, B)
      ensures !Broken(cValue, A, B) ==> solver.added == old(solver.added)
      ensures old(solver.added) <= solver.added && |solver.added| <= |old(solver.added)| + 1
      ensures solver.numVars == old(solver.numVars) && solver.frozen == old(solver.frozen) && solver.model == old(solver.model)
    {
      for k := 0 to |A|
        invariant forall p, q | 0 <= p < k && 0 <= q < |B| :: !cValue[A[p]][B[q]]
        invariant solver.added == old(solver.added)
      {
        var v := A[k];
        for l := 0 to |B|
          invariant forall q | 0 <= q < l :: !cValue[v][B[q]]
          invariant solver.added == old(solver.added)
        {
          if cValue[v][B[l]] {
            assert v in Elems(A) && B[l] in Elems(B);
            Emit(solver, [m.Neg(), cVar[v][B[l]].Neg()]);
            assert cValue[A[k]][B[l]] && Logged(solver.added, [m.Neg(), cVar[A[k]][B[l]].Neg()]);
            return;
          }
        }
      }
    }

    /** Whether some pair of A and B is connected in cValue. */
    method IsBroken(A: seq<int>, B: seq<int>, cValue: seq<seq<bool>>) returns (broken: bool)
      requires Square(cValue, graph.n) && Below(A, graph.n) && Below(B, graph.n)
      ensures broken <==> Broken(cValue, A, B)
    {
      for k := 0 to |A|
        invariant forall p, q | 0 <= p < k && 0 <= q < |B| :: !cValue[A[p]][B[q]]
      {
        var v := A[k];
        for l := 0 to |B|
          invariant forall q | 0 <= q < l :: !cValue[v][B[q]]
        {
          if cValue[v][B[l]] {
            assert cValue[A[k]][B[l]];
            return true;
          }
        }
      }
      return false;
    }

    /** The clauses of one pair of components under the encoding. */
    method CutPair(m: Lit, A: seq<int>, B: seq<int>, cValue: seq<seq<bool>>)
      requires CutReady(m, A, B) && Square(cValue, graph.n)
      requires minsepEncoding in {0, 1, 2, 3, 5}
      modifies solver
      ensures PairBlocked(solver.added, m, cVar, cValue, A, B, minsepEncoding)
      ensures old(solver.added) <= solver.added && solver.numVars == old(solver.numVars)
      ensures solver.frozen == old(solver.frozen) && solver.model == old(solver.model)
    {
      if minsepEncoding == 0 || minsepEncoding == 5 {
        CutAll(m, A, B);
      } else if minsepEncoding == 1 {
        CutTrue(m, A, B, cValue);
      } else if minsepEncoding == 2 {
        CutFirst(m, A, B, cValue);
      } else {
        var broken := IsBroken(A, B, cValue);
        if broken {
          CutAll(m, A, B);
        }
      }
    }

    /** Every pair (i, ii) of components, i < ii, blocked as the encoding
        prescribes; any other encoding stops the program. */
    method CutComponents(m: Lit, comps: seq<seq<int>>, cValue: seq<seq<bool>>) returns (res: Outcome<()>)
      requires Square(cVar, graph.n) && KnownOff(cVar, solver.numVars) && KnownIn(m, solver.numVars)
      requires Square(cValue, graph.n) && CompsBelow(comps, graph.n)
      requires forall i, ii | 0 <= i < ii < |comps| :: Elems(comps[i]) !! Elems(comps[ii])
      modifies solver
      ensures res.Abort? <==> minsepEncoding !in {0, 1, 2, 3, 5}
      ensures res.Done? ==> Blocked(solver.added, m, cVar, cValue, comps, minsepEncoding)
      ensures old(solver.added) <= solver.added && solver.numVars == old(solver.numVars)
      ensures solver.frozen == old(solver.frozen) && solver.model == old(solver.model)
    {
      if minsepEncoding !in {0, 1, 2, 3, 5} {
        return Abort;
      }
      for i := 0 to |comps|
        invariant forall a | 0 <= a < i :: RowBlocked(solver.added, m, cVar, cValue, comps, a, minsepEncoding)
        invariant old(solver.added) <= solver.added && solver.numVars == old(solver.numVars)
        invariant solver.frozen == old(solver.frozen) && solver.model == old(solver.model)
      {
        for ii := i + 1 to |comps|
          invariant forall a | 0 <= a < i :: RowBlocked(solver.added, m, cVar, cValue, comps, a, minsepEncoding)
          invariant forall b | i < b < ii :: PairBlocked(solver.added, m, cVar, cValue, comps[i], comps[b], minsepEncoding)
          invariant old(solver.added) <= solver.added && solver.numVars == old(solver.numVars)
          invariant solver.frozen == old(solver.frozen) && solver.model == old(solver.model)
        {
          ghost var cl0 := solver.added;
          CutPair(m, comps[i], comps[ii], cValue);
          RowsBlockedGrow(cl0, solver.added, m, cVar, cValue, comps, i, minsepEncoding);
          PairsBlockedGrow(cl0, solver.added, m, cVar, cValue, comps, i, ii, minsepEncoding);
        }
      }
      RowsBlocked(solver.added, m, cVar, cValue, comps, minsepEncoding);
      return Done(());
    }

    /** Shrinks the selection of a model that failed the PMC test to a bad
        separator none of whose vertices can be dropped (as checked in
        order) and lists the components it leaves. The source asserts that
        the selection is a bad separator; found tells whether it is. */
    method MinimalSeparator(solution: seq<int>) returns (found: bool, ms: seq<int>, cv: seq<seq<bool>>, components: seq<seq<int>>)
      requires Valid() && Below(solution, graph.n)
      ensures ConnValues(cVar, solver.model, cv, graph.n)
      ensures found <==> BadSep(graph.adjList, Elems(solution), cv)
      ensures (Models(solver.model, solver.added) && NoRepeats(solution) &&
        Elems(solution) == Selected(xVar, solver.model) && !PmcTest(graph.adjList, solution)) ==> found
      ensures found ==> StrictlyIncreasing(ms) && Elems(ms) <= Elems(solution) && Below(ms, graph.n)
      ensures found ==> BadSep(graph.adjList, Elems(ms), cv)
      ensures found ==> forall k | 0 <= k < |ms| :: !BadSep(graph.adjList, Elems(ms) - {ms[k]}, cv)
      ensures found ==> ComponentList(graph.adjList, Elems(ms), components) && 2 <= |components| && CompsBelow(components, graph.n)
    {
      ms := SortAndDedupInts(solution);
      assert forall q | 0 <= q < |ms| :: ms[q] in solution;
      cv := ModelConnValues();
      components := [];
      ghost var fromModel := Models(solver.model, solver.added) && NoRepeats(solution) &&
        Elems(solution) == Selected(xVar, solver.model) && !PmcTest(graph.adjList, solution);
      if fromModel {
        ModelSelectionBad(solution, cv);
      }
      assert Elems(ms) == Elems(solution);
      found := IsBadSep(ms, cv);
      if found {
        ms, components := ShrinkAndSplit(ms, cv);
      }
    }

    /** The minimised separator and its components; that there are at least
        two is the source's second assertion, which always holds. */
    method ShrinkAndSplit(sep: seq<int>, cv: seq<seq<bool>>) returns (ms: seq<int>, components: seq<seq<int>>)
      requires graph.Valid() && Below(sep, graph.n) && StrictlyIncreasing(sep) && Square(cv, graph.n)
      requires BadSep(graph.adjList, Elems(sep), cv)
      ensures StrictlyIncreasing(ms) && Elems(ms) <= Elems(sep) && Below(ms, graph.n)
      ensures BadSep(graph.adjList, Elems(ms), cv)
      ensures forall k | 0 <= k < |ms| :: !BadSep(graph.adjList, Elems(ms) - {ms[k]}, cv)
      ensures ComponentList(graph.adjList, Elems(ms), components) && 2 <= |components| && CompsBelow(components, graph.n)
    {
      ms := ShrinkSeparator(sep, cv);
      components := graph.Components(ms);
      SeparatorSplits(ms, cv, components);
      ComponentsBelow(graph.adjList, Elems(ms), components);
    }

    /** The source's first assertion: the selection of a model of the
        clauses that fails the PMC test is a bad separator. */
    lemma {:induction false} ModelSelectionBad(solution: seq<int>, cv: seq<seq<bool>>)
      requires Valid() && Models(solver.model, solver.added) && ConnValues(cVar, solver.model, cv, graph.n)
      requires NoRepeats(solution) && Elems(solution) == Selected(xVar, solver.model) && !PmcTest(graph.adjList, solution)
      ensures BadSep(graph.adjList, Elems(solution), cv)
    {
      NotPmcIsBadSep(solver.added, graph.adjList, xVar, cVar, fullVars, minsepEncoding, solver.model, solution, cv);
    }

    /** The source's second assertion: a minimised bad separator leaves at
        least two components. */
    lemma {:induction false} SeparatorSplits(ms: seq<int>, cv: seq<seq<bool>>, components: seq<seq<int>>)
      requires graph.Valid() && Below(ms, graph.n) && Square(cv, graph.n)
      requires BadSep(graph.adjList, Elems(ms), cv)
      requires forall k | 0 <= k < |ms| :: !BadSep(graph.adjList, Elems(ms) - {ms[k]}, cv)
      requires ComponentList(graph.adjList, Elems(ms), components)
      requires forall x | 0 <= x < graph.n && x !in ms :: exists k | 0 <= k < |components| :: x in components[k]
      ensures |components| >= 2
    {
      var S := Elems(ms);
      forall s | s in S ensures !BadSep(graph.adjList, S - {s}, cv) {
        var k :| 0 <= k < |ms| && ms[k] == s;
      }
      MinimalBadSepSplits(graph.adjList, S, cv);
      var v, u :| v in Allowed(graph.adjList, S) && u in Allowed(graph.adjList, S) && u !in Comp(graph.adjList, S, v);
      var k :| 0 <= k < |components| && v in components[k];
      var l :| 0 <= l < |components| && u in components[l];
      ApartListsTwo(graph.adjList, S, components, v, u, k, l);
    }

    /** Blocks the minimised bad separator of a model that failed the PMC
        test: the source asserts that one is found, and for a model of the
        clauses whose selection fails the test it always is. */
    method BlockBadSolution(solution: seq<int>) returns (res: Outcome<()>, ghost minsep: seq<int>, ghost cValue: seq<seq<bool>>, ghost comps: seq<seq<int>>)
      requires Valid() && Below(solution, graph.n)
      modifies this`minsepVars, this`stats, solver
      ensures Valid() && old(solver.added) <= solver.added && old(solver.numVars) <= solver.numVars
      ensures solver.model == old(solver.model)
      ensures stats.pmcsFound == old(stats.pmcsFound) && stats.satCalls == old(stats.satCalls)
      ensures ConnValues(cVar, solver.model, cValue, graph.n)
      ensures res.Done? <==> BadSep(graph.adjList, Elems(solution), cValue) && minsepEncoding in {0, 1, 2, 3, 5}
      ensures (Models(solver.model, old(solver.added)) && NoRepeats(solution) &&
        Elems(solution) == Selected(xVar, solver.model) && !PmcTest(graph.adjList, solution)) ==>
        (res.Done? <==> minsepEncoding in {0, 1, 2, 3, 5})
      ensures res.Done? ==> StrictlyIncreasing(minsep) && Elems(minsep) <= Elems(solution) && Below(minsep, graph.n)
      ensures res.Done? ==> BadSep(graph.adjList, Elems(minsep), cValue)
      ensures res.Done? ==> forall k | 0 <= k < |minsep| :: !BadSep(graph.adjList, Elems(minsep) - {minsep[k]}, cValue)
      ensures res.Done? ==> ComponentList(graph.adjList, Elems(minsep), comps) && 2 <= |comps| && CompsBelow(comps, graph.n)
      ensures res.Done? && minsepEncoding in {0, 5} ==> SplitForbidden(solver.added, xVar, minsep, comps)
      ensures res.Done? ==> minsep in minsepVars && minsepVars == old(minsepVars)[minsep := minsepVars[minsep]]
      ensures res.Done? ==> Blocked(solver.added, minsepVars[minsep], cVar, cValue, comps, minsepEncoding)
      ensures res.Done? ==> stats.minsepsFound == old(stats.minsepsFound) + if minsep in old(minsepVars) then 0 else 1
    {
      var found, ms, cv, components := MinimalSeparator(solution);
      minsep, cValue, comps := ms, cv, components;
      if !found {
        return Abort, minsep, cValue, comps;
      }
      res := BlockSeparator(ms, components, cv);
    }

    /** Caches a literal for the minimised separator ms and blocks
        connectivity across its components as the encoding prescribes. */
    method BlockSeparator(ms: seq<int>, components: seq<seq<int>>, cv: seq<seq<bool>>) returns (res: Outcome<()>)
      requires Valid() && StrictlyIncreasing(ms) && Below(ms, graph.n) && Square(cv, graph.n)
      requires ComponentList(graph.adjList, Elems(ms), components) && CompsBelow(components, graph.n)
      modifies this`minsepVars, this`stats, solver
      ensures Valid() && old(solver.added) <= solver.added && old(solver.numVars) <= solver.numVars
      ensures solver.model == old(solver.model)
      ensures stats.pmcsFound == old(stats.pmcsFound) && stats.satCalls == old(stats.satCalls)
      ensures res.Abort? <==> minsepEncoding !in {0, 1, 2, 3, 5}
      ensures res.Done? && minsepEncoding in {0, 5} ==> SplitForbidden(solver.added, xVar, ms, components)
      ensures res.Done? ==> ms in minsepVars && minsepVars == old(minsepVars)[ms := minsepVars[ms]]
      ensures res.Done? ==> Blocked(solver.added, minsepVars[ms], cVar, cv, components, minsepEncoding)
      ensures res.Done? ==> stats.minsepsFound == old(stats.minsepsFound) + if ms in old(minsepVars) then 0 else 1
    {
      var m := MinsepLiteral(ms);
      ghost var cl0 := solver.added;
      res := CutComponents(m, components, cv);
      BasicGrows(cl0, solver.added, graph.adjList, xVar, cVar, fullVars, minsepEncoding);
      CacheGrows(cl0, solver.added, xVar, minsepVars, solver.numVars, solver.numVars);
      if minsepEncoding == 4 {
        PathGrows(cl0, solver.added, graph.adjList, xVar, cVar, clVars, fVars, solver.numVars, solver.numVars);
      }
      if res.Done? && minsepEncoding in {0, 5} {
        ConnShapeSymmetric(graph.adjList, cVar, |xVar|);
        CutForbidsSplit(solver.added, m, xVar, cVar, ms, components);
      }
    }

    // -------------------------------------------------------------------
    // The counterexample loop

    /** The selected vertices of the current model in increasing order, and
        the clause that forbids exactly this selection. */
    method SelectionOf() returns (blockClause: seq<Lit>, solution: seq<int>)
      requires Valid()
      ensures blockClause == BlockClause(xVar, solver.model)
      ensures StrictlyIncreasing(solution) && Below(solution, graph.n) && Elems(solution) == Selected(xVar, solver.model)
    {
      var n := graph.n;
      ghost var t := solver.model;
      blockClause, solution := [], [];
      for i := 0 to n
        invariant |blockClause| == i
        invariant forall v | 0 <= v < i :: blockClause[v] == if Holds(xVar[v], t) then xVar[v].Neg() else xVar[v]
        invariant StrictlyIncreasing(solution) && Below(solution, i)
        invariant Elems(solution) == Selected(xVar[..i], t)
      {
        assert Selected(xVar[..i + 1], t) == Selected(xVar[..i], t) + if Holds(xVar[i], t) then {i} else {};
        var value := solver.SolutionValue(xVar[i]);
        if value {
          blockClause := blockClause + [xVar[i].Neg()];
          solution := solution + [i];
        } else {
          blockClause := blockClause + [xVar[i]];
        }
      }
      assert xVar[..n] == xVar;
    }

    /** Solves under the assumptions until a model's selection passes the
        PMC test, blocking a bad separator after each model that fails it.
        On success (found) the selection is returned and exactly that
        selection is blocked; when the solver has no model the result is the
        empty list. The loop is bounded by fuel; running out stops the
        program. */
    method GetPmc(assumptions: seq<Lit>, firstCall: bool, fuel: nat) returns (res: Outcome<seq<int>>, ghost found: bool)
      requires Valid() && forall i | 0 <= i < |assumptions| :: solver.IsVarLit(assumptions[i])
      modifies this`minsepVars, this`stats, solver
      ensures Valid() && old(solver.added) <= solver.added && old(solver.numVars) <= solver.numVars
      ensures found ==> res.Done? && stats.pmcsFound == old(stats.pmcsFound) + 1 && |old(solver.added)| < |solver.added|
      ensures !found ==> stats.pmcsFound == old(stats.pmcsFound) && (res.Done? ==> res.value == [])
      ensures res.Done? ==> old(stats.satCalls) < stats.satCalls
      ensures found ==>
        StrictlyIncreasing(res.value) && Below(res.value, graph.n) &&
        PmcTest(graph.adjList, res.value) && IsPotentialMaximalClique(graph.adjList, Elems(res.value))
      ensures found ==>
        Elems(res.value) == Selected(xVar, solver.model) && 0 < |solver.added| &&
        solver.added[|solver.added| - 1] == BlockClause(xVar, solver.model) &&
        Models(solver.model, solver.added[..|solver.added| - 1]) &&
        forall i | 0 <= i < |assumptions| :: Holds(assumptions[i], solver.model)
      ensures found ==> forall t2 :: Models(t2, solver.added) ==> Selected(xVar, t2) != Elems(res.value)
      ensures minsepEncoding == 4 ==> (res.Abort? <==> fuel == 0)
      ensures res.Abort? && 0 <= minsepEncoding <= 5 ==> stats.satCalls == old(stats.satCalls) + fuel
    {
      var f: nat := fuel;
      while true
        invariant Valid() && old(solver.added) <= solver.added && old(solver.numVars) <= solver.numVars
        invariant stats.pmcsFound == old(stats.pmcsFound) && old(stats.satCalls) <= stats.satCalls
        invariant f <= fuel && stats.satCalls == old(stats.satCalls) + (fuel - f)
        invariant minsepEncoding == 4 ==> f == fuel
        decreases f
      {
        if f == 0 {
          return Abort, false;
        }
        f := f - 1;
        stats := stats.SatCalled();
        assert Valid();
        var sat := solver.Solve(assumptions, firstCall);
        assert Valid();
        if !sat {
          return Done([]), false;
        }
        var blockClause, solution := SelectionOf();
        var accepted := CheckSelection(blockClause, solution);
        match accepted
        case Abort =>
          return Abort, false;
        case Done(isPmc) =>
          if isPmc {
            return Done(solution), true;
          }
      }
    }

    /** The test of one model's selection: a PMC is counted and its selection
        blocked (Done(true)); otherwise a bad separator is blocked
        (Done(false)), or the program stops where the blocking does. Under
        the path-length encoding every selection is a PMC. */
    method CheckSelection(blockClause: seq<Lit>, solution: seq<int>) returns (res: Outcome<bool>)
      requires Valid() && Models(solver.model, solver.added) && blockClause == BlockClause(xVar, solver.model)
      requires StrictlyIncreasing(solution) && Below(solution, graph.n) && Elems(solution) == Selected(xVar, solver.model)
      modifies this`minsepVars, this`stats, solver
      ensures Valid() && old(solver.added) <= solver.added && old(solver.numVars) <= solver.numVars
      ensures solver.model == old(solver.model) && stats.satCalls == old(stats.satCalls)
      ensures res == Done(true) ==>
        stats.pmcsFound == old(stats.pmcsFound) + 1 &&
        PmcTest(graph.adjList, solution) && IsPotentialMaximalClique(graph.adjList, Elems(solution)) &&
        solver.added == old(solver.added) + [blockClause]
      ensures res != Done(true) ==> stats.pmcsFound == old(stats.pmcsFound)
      ensures res == Done(true) ==> forall t2 :: Models(t2, solver.added) ==> Selected(xVar, t2) != Elems(solution)
      ensures minsepEncoding == 4 ==> res == Done(true)
      ensures res.Abort? <==> !PmcTest(graph.adjList, solution) && minsepEncoding !in {0, 1, 2, 3, 4, 5}
    {
      var isPmc := graph.IsPmc(solution);
      if isPmc {
        stats := stats.PmcFound();
        AcceptPmc(blockClause, solution);
        forall t2 | Models(t2, solver.added) ensures Selected(xVar, t2) != Elems(solution) {
          BlockClauseExcludes(xVar, old(solver.model), t2);
          assert Satisfies(t2, solver.added[|solver.added| - 1]);
        }
        return Done(true);
      }
      if minsepEncoding == 4 {
        PathSelectionPasses(solution);
        assert false;
      }
      var blocked, _, _, _ := BlockBadSolution(solution);
      if blocked.Abort? {
        return Abort;
      }
      return Done(false);
    }

    /** Under the path-length encoding the selection of every model passes
        the PMC test. */
    lemma {:induction false} PathSelectionPasses(solution: seq<int>)
      requires Valid() && minsepEncoding == 4 && Models(solver.model, solver.added)
      requires StrictlyIncreasing(solution) && Elems(solution) == Selected(xVar, solver.model)
      ensures PmcTest(graph.adjList, solution)
    {
      assert NoRepeats(solution);
      PathModelsPassTest(solver.added, graph.adjList, xVar, cVar, fullVars, minsepEncoding, clVars, fVars, solver.numVars, solver.model, solution);
    }

    /** Logs the clause that blocks the selection of the current model, which
        passed the PMC test. */
    method AcceptPmc(blockClause: seq<Lit>, solution: seq<int>)
      requires Valid() && Models(solver.model, solver.added) && blockClause == BlockClause(xVar, solver.model)
      requires NoRepeats(solution) && Below(solution, graph.n) && PmcTest(graph.adjList, solution)
      modifies solver
      ensures Valid() && solver.added == old(solver.added) + [blockClause] && solver.model == old(solver.model)
      ensures solver.numVars == old(solver.numVars)
      ensures IsPotentialMaximalClique(graph.adjList, Elems(solution))
    {
      forall q | 0 <= q < |blockClause| ensures KnownIn(blockClause[q], solver.numVars) {
        assert KnownIn(xVar[q], solver.numVars);
      }
      Emit(solver, blockClause);
      PmcTestIsPmc(graph.adjList, solution);
      BasicGrows(old(solver.added), solver.added, graph.adjList, xVar, cVar, fullVars, minsepEncoding);
      CacheGrows(old(solver.added), solver.added, xVar, minsepVars, solver.numVars, solver.numVars);
      if minsepEncoding == 4 {
        PathGrows(old(solver.added), solver.added, graph.adjList, xVar, cVar, clVars, fVars, solver.numVars, solver.numVars);
      }
    }

    /** The selection variable of each vertex. */
    function XVars(): (r: seq<Lit>)
      requires Valid()
      reads this, graph, solver
      ensures |r| == graph.n && forall v | 0 <= v < graph.n :: solver.IsVarLit(r[v]) && r[v].value in solver.frozen
    {
      xVar
    }
  }
}
