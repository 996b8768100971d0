/** The SAT encoding of PMC enumeration and what it guarantees.
    A selection variable x[v] per vertex says that v is in the candidate
    PMC; a connectivity literal c[v][u] per pair says that v and u are
    connected with respect to the candidate. This module states which
    clauses each part of the encoding logs and proves what every model of
    them satisfies; the enumerator that logs them is in Enumerators. */
module PmcEncoding {
  import opened Wrappers
  import opened SatInterface
  import opened GraphTheory
  import opened Utils
  import opened Cardinality
  import opened Graphs

  ghost predicate Square<T>(m: seq<seq<T>>, n: int) {
    |m| == n && forall i | 0 <= i < n :: |m[i]| == n
  }

  /** Hands one clause to the solver. */
  method Emit(solver: SatSolver, clause: seq<Lit>)
    requires forall q | 0 <= q < |clause| :: KnownIn(clause[q], solver.numVars)
    modifies solver
    ensures solver.added == old(solver.added) + [clause] && Logged(solver.added, clause)
    ensures solver.numVars == old(solver.numVars) && solver.frozen == old(solver.frozen)
    ensures solver.model == old(solver.model)
  {
    solver.AddClause(clause);
  }

  /** A fresh variable v with the clauses xj | !v and !cij | !v, and under
      encoding 5 also !xj | cij | v. */
  method EmitFullCell(solver: SatSolver, xj: Lit, cij: Lit, enc: int) returns (v: Lit)
    requires KnownIn(xj, solver.numVars) && KnownIn(cij, solver.numVars)
    modifies solver
    ensures VarIn(v, solver.numVars) && v.IsDef()
    ensures Logged(solver.added, [xj, v.Neg()]) && Logged(solver.added, [cij.Neg(), v.Neg()])
    ensures enc == 5 ==> Logged(solver.added, [xj.Neg(), cij, v])
    ensures old(solver.added) <= solver.added && old(solver.numVars) <= solver.numVars && solver.frozen == old(solver.frozen)
  {
    v := solver.NewVar();
    Emit(solver, [xj, v.Neg()]);
    ghost var cl1 := solver.added;
    Emit(solver, [cij.Neg(), v.Neg()]);
    assert Logged(solver.added, [xj, v.Neg()]) by { assert cl1 <= solver.added; }
    if enc == 5 {
      ghost var cl2 := solver.added;
      Emit(solver, [xj.Neg(), cij, v]);
      assert cl2 <= solver.added;
    }
  }

  // ---------------------------------------------------------------------
  // The shape of the variables

  /** One distinct positive variable per vertex. */
  ghost predicate SelectionVars(x: seq<Lit>, n: int, nv: int) {
    |x| == n &&
    (forall k | 0 <= k < |x| :: VarIn(x[k], nv) && x[k].value > 0) &&
    (forall i, j | 0 <= i < j < |x| :: x[i].value != x[j].value)
  }

  /** The connectivity literals: c[i][j] == c[j][i] for i != j, defined,
      and the constant true for adjacent pairs. */
  ghost predicate ConnShape(adj: Adj, c: seq<seq<Lit>>)
    requires Square(c, |adj|)
  {
    forall i, j | 0 <= i < |adj| && 0 <= j < |adj| && i != j ::
      c[i][j] == c[j][i] && c[i][j].IsDef() && (Adjacent(adj, i, j) ==> c[i][j] == TrueLit)
  }

  ghost predicate KnownOff(c: seq<seq<Lit>>, nv: int)
    requires Square(c, |c|)
  {
    forall i, j | 0 <= i < |c| && 0 <= j < |c| && i != j :: KnownIn(c[i][j], nv)
  }

  // ---------------------------------------------------------------------
  // The clauses of the base encoding

  /** c[i][ii] and ii unselected imply c[i][iii] for every neighbour iii != i of ii. */
  ghost predicate PropagationCell(cl: seq<seq<Lit>>, adj: Adj, x: seq<Lit>, c: seq<seq<Lit>>, i: int, ii: int)
    requires |x| == |adj| && Square(c, |adj|) && InRange(adj) && 0 <= i < |adj| && 0 <= ii < |adj|
  {
    forall iii | iii in adj[ii] && iii != i :: Logged(cl, [c[i][ii].Neg(), x[ii], c[i][iii]])
  }

  ghost predicate PropagationRow(cl: seq<seq<Lit>>, adj: Adj, x: seq<Lit>, c: seq<seq<Lit>>, i: int)
    requires |x| == |adj| && Square(c, |adj|) && InRange(adj) && 0 <= i < |adj|
  {
    forall ii | 0 <= ii < |adj| && ii != i :: PropagationCell(cl, adj, x, c, i, ii)
  }

  ghost predicate PropagationLogged(cl: seq<seq<Lit>>, adj: Adj, x: seq<Lit>, c: seq<seq<Lit>>)
    requires |x| == |adj| && Square(c, |adj|) && InRange(adj)
  {
    forall i | 0 <= i < |adj| :: PropagationRow(cl, adj, x, c, i)
  }

  /** Two selected vertices are c-connected. */
  ghost predicate CliqueRow(cl: seq<seq<Lit>>, x: seq<Lit>, c: seq<seq<Lit>>, i: int)
    requires Square(c, |x|) && 0 <= i < |x|
  {
    forall j | i < j < |x| :: Logged(cl, [x[i].Neg(), x[j].Neg(), c[i][j]])
  }

  ghost predicate CliqueLogged(cl: seq<seq<Lit>>, x: seq<Lit>, c: seq<seq<Lit>>)
    requires Square(c, |x|)
  {
    forall i | 0 <= i < |x| :: CliqueRow(cl, x, c, i)
  }

  /** The entries of s other than s[i], in order. */
  function Others(s: seq<Lit>, i: int): seq<Lit>
  {
    if s == [] then []
    else Others(s[..|s| - 1], i) + (if |s| - 1 == i then [] else [s[|s| - 1]])
  }

  /** Every entry of Others(s, i) is an entry of s at a position other than i. */
  lemma {:induction false} OthersSpec(s: seq<Lit>, i: int)
    ensures forall l | l in Others(s, i) :: exists j | 0 <= j < |s| && j != i :: l == s[j]
    decreases |s|
  {
    if s != [] {
      var init := s[..|s| - 1];
      OthersSpec(init, i);
      forall l | l in Others(s, i) ensures exists j | 0 <= j < |s| && j != i :: l == s[j] {
        if l in Others(init, i) {
          var j :| 0 <= j < |init| && j != i && l == init[j];
          assert l == s[j];
        } else {
          assert l == s[|s| - 1];
        }
      }
    }
  }

  /** One cell of the no-full-component clauses of vertex i: the auxiliary
      variable yj implies x[j] and not c[i][j]; under encoding 5 also the converse. */
  ghost predicate FullCell(cl: seq<seq<Lit>>, x: seq<Lit>, c: seq<seq<Lit>>, yj: Lit, i: int, j: int, enc: int)
    requires Square(c, |x|) && 0 <= i < |x| && 0 <= j < |x|
  {
    yj.IsDef() && Logged(cl, [x[j], yj.Neg()]) && Logged(cl, [c[i][j].Neg(), yj.Neg()]) &&
    (enc == 5 ==> Logged(cl, [x[j].Neg(), c[i][j], yj]))
  }

  /** The cells of row i before column m. */
  ghost predicate FullCellsBelow(cl: seq<seq<Lit>>, x: seq<Lit>, c: seq<seq<Lit>>, y: seq<Lit>, i: int, m: int, enc: int)
    requires Square(c, |x|) && 0 <= i < |x| && m <= |y| && m <= |x|
  {
    forall j | 0 <= j < m && j != i :: FullCell(cl, x, c, y[j], i, j, enc)
  }

  lemma {:induction false} FullCellsBelowGrows(cl1: seq<seq<Lit>>, cl2: seq<seq<Lit>>, x: seq<Lit>, c: seq<seq<Lit>>, y: seq<Lit>, i: int, m: int, enc: int)
    requires Square(c, |x|) && 0 <= i < |x| && m <= |y| && m <= |x|
    requires cl1 <= cl2 && FullCellsBelow(cl1, x, c, y, i, m, enc)
    ensures FullCellsBelow(cl2, x, c, y, i, m, enc)
  {
    forall j | 0 <= j < m && j != i ensures FullCell(cl2, x, c, y[j], i, j, enc) {
      FullCellGrows(cl1, cl2, x, c, y[j], i, j, enc);
    }
  }

  ghost predicate FullRow(cl: seq<seq<Lit>>, x: seq<Lit>, c: seq<seq<Lit>>, y: seq<Lit>, i: int, enc: int)
    requires Square(c, |x|) && |y| == |x| && 0 <= i < |x|
  {
    (forall j | 0 <= j < |x| && j != i :: FullCell(cl, x, c, y[j], i, j, enc)) &&
    Logged(cl, [x[i]] + Others(y, i))
  }

  ghost predicate FullLogged(cl: seq<seq<Lit>>, x: seq<Lit>, c: seq<seq<Lit>>, y: seq<seq<Lit>>, enc: int)
    requires Square(c, |x|) && Square(y, |x|)
  {
    forall i | 0 <= i < |x| :: FullRow(cl, x, c, y[i], i, enc)
  }

  ghost predicate BasicEncoded(cl: seq<seq<Lit>>, adj: Adj, x: seq<Lit>, c: seq<seq<Lit>>, y: seq<seq<Lit>>, enc: int)
    requires |x| == |adj| && Square(c, |adj|) && Square(y, |adj|) && InRange(adj)
  {
    PropagationLogged(cl, adj, x, c) && CliqueLogged(cl, x, c) && FullLogged(cl, x, c, y, enc)
  }

  lemma {:induction false} CellGrows(cl1: seq<seq<Lit>>, cl2: seq<seq<Lit>>, adj: Adj, x: seq<Lit>, c: seq<seq<Lit>>, i: int, ii: int)
    requires |x| == |adj| && Square(c, |adj|) && InRange(adj) && 0 <= i < |adj| && 0 <= ii < |adj|
    requires cl1 <= cl2 && PropagationCell(cl1, adj, x, c, i, ii)
    ensures PropagationCell(cl2, adj, x, c, i, ii)
  {
    forall iii | iii in adj[ii] && iii != i ensures Logged(cl2, [c[i][ii].Neg(), x[ii], c[i][iii]]) {
      LoggedGrows(cl1, cl2, [c[i][ii].Neg(), x[ii], c[i][iii]]);
    }
  }

  lemma {:induction false} PropagationGrows(cl1: seq<seq<Lit>>, cl2: seq<seq<Lit>>, adj: Adj, x: seq<Lit>, c: seq<seq<Lit>>, i: int)
    requires |x| == |adj| && Square(c, |adj|) && InRange(adj) && 0 <= i < |adj|
    requires cl1 <= cl2 && PropagationRow(cl1, adj, x, c, i)
    ensures PropagationRow(cl2, adj, x, c, i)
  {
    forall ii | 0 <= ii < |adj| && ii != i ensures PropagationCell(cl2, adj, x, c, i, ii) {
      CellGrows(cl1, cl2, adj, x, c, i, ii);
    }
  }

  lemma {:induction false} CliqueGrows(cl1: seq<seq<Lit>>, cl2: seq<seq<Lit>>, x: seq<Lit>, c: seq<seq<Lit>>, i: int)
    requires Square(c, |x|) && 0 <= i < |x|
    requires cl1 <= cl2 && CliqueRow(cl1, x, c, i)
    ensures CliqueRow(cl2, x, c, i)
  {
    forall j | i < j < |x| ensures Logged(cl2, [x[i].Neg(), x[j].Neg(), c[i][j]]) {
      LoggedGrows(cl1, cl2, [x[i].Neg(), x[j].Neg(), c[i][j]]);
    }
  }

  lemma {:induction false} BasicGrows(cl1: seq<seq<Lit>>, cl2: seq<seq<Lit>>, adj: Adj, x: seq<Lit>, c: seq<seq<Lit>>, y: seq<seq<Lit>>, enc: int)
    requires |x| == |adj| && Square(c, |adj|) && Square(y, |adj|) && InRange(adj)
    requires cl1 <= cl2 && BasicEncoded(cl1, adj, x, c, y, enc)
    ensures BasicEncoded(cl2, adj, x, c, y, enc)
  {
    forall i | 0 <= i < |adj| ensures PropagationRow(cl2, adj, x, c, i) && CliqueRow(cl2, x, c, i) {
      PropagationGrows(cl1, cl2, adj, x, c, i);
      CliqueGrows(cl1, cl2, x, c, i);
    }
    forall i | 0 <= i < |x| ensures FullRow(cl2, x, c, y[i], i, enc) {
      FullRowGrows(cl1, cl2, x, c, y[i], i, enc);
    }
  }

  lemma {:induction false} FullCellGrows(cl1: seq<seq<Lit>>, cl2: seq<seq<Lit>>, x: seq<Lit>, c: seq<seq<Lit>>, yj: Lit, i: int, j: int, enc: int)
    requires Square(c, |x|) && 0 <= i < |x| && 0 <= j < |x|
    requires cl1 <= cl2 && FullCell(cl1, x, c, yj, i, j, enc)
    ensures FullCell(cl2, x, c, yj, i, j, enc)
  {
    LoggedGrows(cl1, cl2, [x[j], yj.Neg()]);
    LoggedGrows(cl1, cl2, [c[i][j].Neg(), yj.Neg()]);
    if enc == 5 {
      LoggedGrows(cl1, cl2, [x[j].Neg(), c[i][j], yj]);
    }
  }

  lemma {:induction false} FullRowGrows(cl1: seq<seq<Lit>>, cl2: seq<seq<Lit>>, x: seq<Lit>, c: seq<seq<Lit>>, y: seq<Lit>, i: int, enc: int)
    requires Square(c, |x|) && |y| == |x| && 0 <= i < |x|
    requires cl1 <= cl2 && FullRow(cl1, x, c, y, i, enc)
    ensures FullRow(cl2, x, c, y, i, enc)
  {
    forall j | 0 <= j < |x| && j != i ensures FullCell(cl2, x, c, y[j], i, j, enc) {
      FullCellGrows(cl1, cl2, x, c, y[j], i, j, enc);
    }
    LoggedGrows(cl1, cl2, [x[i]] + Others(y, i));
  }

  // ---------------------------------------------------------------------
  // What the base encoding means

  /** The vertices that model t selects. */
  ghost function Selected(x: seq<Lit>, t: set<int>): set<int> {
    set v | 0 <= v < |x| && Holds(x[v], t)
  }

  /** In a model, an unselected vertex i has a selected vertex j that is
      not c-connected to it. */
  lemma {:induction false} UnselectedSeesSeparated(cl: seq<seq<Lit>>, x: seq<Lit>, c: seq<seq<Lit>>, y: seq<Lit>, i: int, enc: int, t: set<int>)
    requires Square(c, |x|) && |y| == |x| && 0 <= i < |x|
    requires forall k | 0 <= k < |x| :: x[k].IsDef()
    requires forall b | 0 <= b < |x| && b != i :: c[i][b].IsDef()
    requires FullRow(cl, x, c, y, i, enc) && Models(t, cl) && !Holds(x[i], t)
    ensures exists j | 0 <= j < |x| && j != i :: Holds(x[j], t) && !Holds(c[i][j], t)
  {
    var clause := [x[i]] + Others(y, i);
    OthersSpec(y, i);
    LoggedHolds(cl, clause, t);
    var k :| 0 <= k < |clause| && Holds(clause[k], t);
    assert clause[k] in Others(y, i);
    var j :| 0 <= j < |y| && j != i && clause[k] == y[j];
    assert FullCell(cl, x, c, y[j], i, j, enc);
    LoggedHolds(cl, [x[j], y[j].Neg()], t);
    LoggedHolds(cl, [c[i][j].Neg(), y[j].Neg()], t);
    Satisfies2(t, x[j], y[j].Neg());
    Satisfies2(t, c[i][j].Neg(), y[j].Neg());
    NegFlipsTruth(y[j], t);
    NegFlipsTruth(c[i][j], t);
    assert Holds(x[j], t) && !Holds(c[i][j], t);
  }

  /** One propagation clause used in a model. */
  lemma {:induction false} PropagationHolds(cl: seq<seq<Lit>>, adj: Adj, x: seq<Lit>, c: seq<seq<Lit>>, t: set<int>, i: int, w: int, ii: int)
    requires InRange(adj) && |x| == |adj| && Square(c, |adj|) && ConnShape(adj, c)
    requires PropagationLogged(cl, adj, x, c) && Models(t, cl)
    requires 0 <= i < |adj| && 0 <= w < |adj| && i != w && ii in adj[w] && ii != i
    requires Holds(c[i][w], t) && !Holds(x[w], t)
    ensures Holds(c[i][ii], t)
  {
    assert PropagationRow(cl, adj, x, c, i);
    assert PropagationCell(cl, adj, x, c, i, w);
    LoggedHolds(cl, [c[i][w].Neg(), x[w], c[i][ii]], t);
    Satisfies3(t, c[i][w].Neg(), x[w], c[i][ii]);
    NegFlipsTruth(c[i][w], t);
  }

  /** In a model, c[i][ii] holds for every ii != i adjacent to the end of a
      path from i through vertices outside P, the selected set. */
  lemma {:induction false} PathConnects(cl: seq<seq<Lit>>, adj: Adj, x: seq<Lit>, c: seq<seq<Lit>>, t: set<int>, P: set<int>, p: seq<int>, ii: int)
    requires InRange(adj) && |x| == |adj| && Square(c, |adj|) && ConnShape(adj, c)
    requires forall v | 0 <= v < |x| :: v in P <==> Holds(x[v], t)
    requires PropagationLogged(cl, adj, x, c) && Models(t, cl)
    requires IsPath(adj, p, Allowed(adj, P))
    requires Adjacent(adj, p[|p| - 1], ii) && ii != p[0]
    ensures Holds(c[p[0]][ii], t)
    decreases |p|
  {
    var i, w := p[0], p[|p| - 1];
    assert w in Allowed(adj, P) && 0 <= ii < |adj|;
    if w == i {
      assert c[i][ii] == TrueLit;
    } else {
      var q := p[..|p| - 1];
      assert forall k | 0 <= k < |q| :: q[k] == p[k];
      assert IsPath(adj, q, Allowed(adj, P));
      assert Adjacent(adj, q[|q| - 1], w);
      PathConnects(cl, adj, x, c, t, P, q, w);
      PropagationHolds(cl, adj, x, c, t, i, w, ii);
    }
  }

  /** In a model, a selected vertex j that is not c-connected to the
      unselected vertex r is not a neighbour of r's component of G - P. */
  lemma {:induction false} SeparatedNotNeighbour(cl: seq<seq<Lit>>, adj: Adj, x: seq<Lit>, c: seq<seq<Lit>>, t: set<int>, P: set<int>, r: int, j: int)
    requires InRange(adj) && |x| == |adj| && Square(c, |adj|) && ConnShape(adj, c)
    requires forall v | 0 <= v < |x| :: v in P <==> Holds(x[v], t)
    requires PropagationLogged(cl, adj, x, c) && Models(t, cl)
    requires r in Allowed(adj, P) && j in P && 0 <= j < |adj| && !Holds(c[r][j], t)
    ensures j !in Nbh(adj, Comp(adj, P, r))
  {
    if j in Nbh(adj, Comp(adj, P, r)) {
      var w :| w in Comp(adj, P, r) && Adjacent(adj, w, j);
      var p :| IsPath(adj, p, Allowed(adj, P)) && p[0] == r && p[|p| - 1] == w;
      PathConnects(cl, adj, x, c, t, P, p, j);
      assert false;
    }
  }

  /** The connectivity literals of a row are defined off the diagonal. */
  lemma {:induction false} ConnRowDefined(adj: Adj, c: seq<seq<Lit>>, r: int)
    requires Square(c, |adj|) && ConnShape(adj, c) && 0 <= r < |adj|
    ensures forall b | 0 <= b < |adj| && b != r :: c[r][b].IsDef()
  {
    forall b | 0 <= b < |adj| && b != r ensures c[r][b].IsDef() {
      assert c[r][b] == c[b][r] && c[r][b].IsDef();
    }
  }

  /** Every model of the base encoding selects a vertex set P such that
      G - P has no full component. */
  lemma {:induction false} ModelSelectionHasNoFullComponent(cl: seq<seq<Lit>>, adj: Adj, x: seq<Lit>, c: seq<seq<Lit>>, y: seq<seq<Lit>>, enc: int, t: set<int>)
    requires InRange(adj) && |x| == |adj| && Square(c, |adj|) && Square(y, |adj|) && ConnShape(adj, c)
    requires forall k | 0 <= k < |x| :: x[k].IsDef()
    requires BasicEncoded(cl, adj, x, c, y, enc) && Models(t, cl)
    ensures !HasFullComponent(adj, Selected(x, t))
  {
    var P := Selected(x, t);
    if HasFullComponent(adj, P) {
      var r :| r in Allowed(adj, P) && P <= Nbh(adj, Comp(adj, P, r));
      NoFullComponentAt(cl, adj, x, c, y[r], enc, t, P, r);
    }
  }

  lemma {:induction false} NoFullComponentAt(cl: seq<seq<Lit>>, adj: Adj, x: seq<Lit>, c: seq<seq<Lit>>, y: seq<Lit>, enc: int, t: set<int>, P: set<int>, r: int)
    requires InRange(adj) && |x| == |adj| && Square(c, |adj|) && |y| == |adj| && ConnShape(adj, c)
    requires forall k | 0 <= k < |x| :: x[k].IsDef()
    requires P == Selected(x, t) && r in Allowed(adj, P)
    requires PropagationLogged(cl, adj, x, c) && FullRow(cl, x, c, y, r, enc) && Models(t, cl)
    ensures !(P <= Nbh(adj, Comp(adj, P, r)))
  {
    ConnRowDefined(adj, c, r);
    UnselectedSeesSeparated(cl, x, c, y, r, enc, t);
    var j :| 0 <= j < |x| && j != r && Holds(x[j], t) && !Holds(c[r][j], t);
    SeparatedNotNeighbour(cl, adj, x, c, t, P, r, j);
  }

  /** One clique clause used in a model. */
  lemma {:induction false} PairConnected(cl: seq<seq<Lit>>, x: seq<Lit>, c: seq<seq<Lit>>, t: set<int>, v: int, u: int)
    requires Square(c, |x|) && CliqueLogged(cl, x, c) && Models(t, cl)
    requires 0 <= v < u < |x| && x[v].IsDef() && x[u].IsDef() && Holds(x[v], t) && Holds(x[u], t)
    ensures Holds(c[v][u], t)
  {
    assert CliqueRow(cl, x, c, v);
    LoggedHolds(cl, [x[v].Neg(), x[u].Neg(), c[v][u]], t);
    Satisfies3(t, x[v].Neg(), x[u].Neg(), c[v][u]);
    NegFlipsTruth(x[v], t);
    NegFlipsTruth(x[u], t);
  }

  /** In every model of the base encoding, any two selected vertices are
      c-connected. */
  lemma {:induction false} ModelSelectionPairsConnected(cl: seq<seq<Lit>>, x: seq<Lit>, c: seq<seq<Lit>>, t: set<int>)
    requires Square(c, |x|) && CliqueLogged(cl, x, c) && Models(t, cl)
    requires forall a, b | 0 <= a < |x| && 0 <= b < |x| && a != b :: c[a][b] == c[b][a]
    requires forall k | 0 <= k < |x| :: x[k].IsDef()
    ensures forall v, u | v in Selected(x, t) && u in Selected(x, t) && v != u :: Holds(c[v][u], t)
  {
    forall v, u | v in Selected(x, t) && u in Selected(x, t) && v != u ensures Holds(c[v][u], t) {
      if v < u {
        PairConnected(cl, x, c, t, v, u);
      } else {
        PairConnected(cl, x, c, t, u, v);
      }
    }
  }

  // ---------------------------------------------------------------------
  // Building the connectivity literals

  /** Entry (a, b) of the connectivity literals once row a is built: for
      a < b the constant true on an edge and a variable numbered above nv0
      otherwise; for a > b the mirror entry. */
  ghost predicate ConnEntry(adj: Adj, c: seq<seq<Lit>>, a: int, b: int, nv0: int)
    requires Square(c, |adj|) && 0 <= a < |adj| && 0 <= b < |adj|
  {
    if a < b then
      (Adjacent(adj, a, b) ==> c[a][b] == TrueLit) && (!Adjacent(adj, a, b) ==> nv0 < c[a][b].value)
    else c[a][b] == c[b][a]
  }

  /** Entry b of row i before the row is installed. */
  ghost predicate RowEntry(adj: Adj, c: seq<seq<Lit>>, row: seq<Lit>, i: int, b: int, nv0: int)
    requires Square(c, |adj|) && |row| == |adj| && 0 <= i < |adj| && 0 <= b < |adj|
  {
    if i < b then
      (Adjacent(adj, i, b) ==> row[b] == TrueLit) && (!Adjacent(adj, i, b) ==> nv0 < row[b].value)
    else row[b] == c[b][i]
  }

  lemma {:induction false} RowInstalled(adj: Adj, c: seq<seq<Lit>>, row: seq<Lit>, i: int, nv0: int, nv: int)
    requires Square(c, |adj|) && |row| == |adj| && 0 <= i < |adj|
    requires ConnFilled(adj, c, i, nv0, nv)
    requires forall b | 0 <= b < |adj| && b != i :: RowEntry(adj, c, row, i, b, nv0) && KnownIn(row[b], nv)
    ensures ConnFilled(adj, c[i := row], i + 1, nv0, nv)
  {
    var c' := c[i := row];
    forall a, b | 0 <= a < i + 1 && 0 <= b < |adj| && a != b
      ensures ConnEntry(adj, c', a, b, nv0) && KnownIn(c'[a][b], nv)
    {
      if a == i {
        assert RowEntry(adj, c, row, i, b, nv0);
      } else {
        assert ConnEntry(adj, c, a, b, nv0);
      }
    }
  }

  ghost predicate ConnFilled(adj: Adj, c: seq<seq<Lit>>, i: int, nv0: int, nv: int)
    requires Square(c, |adj|) && i <= |adj|
  {
    forall a, b | 0 <= a < i && 0 <= b < |adj| && a != b :: ConnEntry(adj, c, a, b, nv0) && KnownIn(c[a][b], nv)
  }

  lemma {:induction false} ConnFilledShape(adj: Adj, c: seq<seq<Lit>>, nv0: int, nv: int)
    requires Symmetric(adj) && Square(c, |adj|) && 0 <= nv0 && ConnFilled(adj, c, |adj|, nv0, nv)
    ensures ConnShape(adj, c) && KnownOff(c, nv)
  {
    forall a, b | 0 <= a < |adj| && 0 <= b < |adj| && a != b
      ensures c[a][b] == c[b][a] && c[a][b].IsDef() && (Adjacent(adj, a, b) ==> c[a][b] == TrueLit)
    {
      assert ConnEntry(adj, c, a, b, nv0) && ConnEntry(adj, c, b, a, nv0);
    }
  }

  /** Every cached minimal separator S is a sorted list of vertices, and its
      variable m is a known solver variable whose clause MinsepClause (selecting
      all of S forces m) is in the log. */
  ghost predicate CacheLogged(cl: seq<seq<Lit>>, x: seq<Lit>, mv: map<seq<int>, Lit>, nv: int) {
    forall S | S in mv :: StrictlyIncreasing(S) && Below(S, |x|) && VarIn(mv[S], nv) &&
      Logged(cl, MinsepClause(mv[S], x, S))
  }

  /** The negated selection literals of the vertices of S, in order. */
  function NegatedSelection(x: seq<Lit>, S: seq<int>): (r: seq<Lit>)
    requires Below(S, |x|)
    ensures |r| == |S| && forall k | 0 <= k < |S| :: r[k] == x[S[k]].Neg()
  {
    seq(|S|, k requires 0 <= k < |S| => x[S[k]].Neg())
  }

  /** The clause m or not x[v] for v in S: selecting all of S forces m. */
  function MinsepClause(m: Lit, x: seq<Lit>, S: seq<int>): seq<Lit>
    requires Below(S, |x|)
  {
    [m] + NegatedSelection(x, S)
  }

  lemma {:induction false} CacheGrows(cl1: seq<seq<Lit>>, cl2: seq<seq<Lit>>, x: seq<Lit>, mv: map<seq<int>, Lit>, nv1: int, nv2: int)
    requires cl1 <= cl2 && nv1 <= nv2 && CacheLogged(cl1, x, mv, nv1)
    ensures CacheLogged(cl2, x, mv, nv2)
  {
    forall S | S in mv ensures Logged(cl2, MinsepClause(mv[S], x, S)) {
      LoggedGrows(cl1, cl2, MinsepClause(mv[S], x, S));
    }
  }

  // ---------------------------------------------------------------------
  // Bad separators and the clauses that block them

  /** Some pair that cv calls connected is not connected with respect to S. */
  ghost predicate BadSep(adj: Adj, S: set<int>, cv: seq<seq<bool>>)
    requires Square(cv, |adj|)
  {
    exists a, b | 0 <= a < |adj| && 0 <= b < |adj| && a != b :: cv[a][b] && !ConnectedWrt(adj, S, a, b)
  }

  /** A superset of a bad separator is bad. */
  lemma {:induction false} BadSepMono(adj: Adj, S: set<int>, T: set<int>, cv: seq<seq<bool>>)
    requires InRange(adj) && Square(cv, |adj|) && S <= T && BadSep(adj, S, cv)
    ensures BadSep(adj, T, cv)
  {
    var a, b :| 0 <= a < |adj| && 0 <= b < |adj| && a != b && cv[a][b] && !ConnectedWrt(adj, S, a, b);
    if ConnectedWrt(adj, T, a, b) {
      ConnectedWrtMono(adj, S, T, a, b);
    }
  }

  /** A bad separator none of whose vertices can be dropped splits the
      graph: two vertices outside it lie in different components. */
  lemma {:induction false} MinimalBadSepSplits(adj: Adj, S: set<int>, cv: seq<seq<bool>>)
    requires WellFormed(adj) && Square(cv, |adj|) && BadSep(adj, S, cv)
    requires forall s | s in S :: !BadSep(adj, S - {s}, cv)
    ensures exists v, u | v in Allowed(adj, S) && u in Allowed(adj, S) :: u !in Comp(adj, S, v)
  {
    var a, b :| 0 <= a < |adj| && 0 <= b < |adj| && a != b && cv[a][b] && !ConnectedWrt(adj, S, a, b);
    if a in S {
      assert !BadSep(adj, S - {a}, cv);
      DroppedVertexSplits(adj, S, a, b);
    } else if b in S {
      assert !BadSep(adj, S - {b}, cv);
      ConnectedWrtSym(adj, S - {b}, a, b);
      if ConnectedWrt(adj, S, b, a) {
        ConnectedWrtSym(adj, S, b, a);
      }
      DroppedVertexSplits(adj, S, b, a);
    } else {
      UnconnectedApart(adj, S, a, b);
      assert a in Allowed(adj, S) && b in Allowed(adj, S);
    }
  }

  /** cv holds the values of the connectivity literals in model t, with a
      false diagonal. */
  ghost predicate ConnValues(c: seq<seq<Lit>>, t: set<int>, cv: seq<seq<bool>>, n: int)
    requires Square(c, n)
  {
    Square(cv, n) && forall a, b | 0 <= a < n && 0 <= b < n :: cv[a][b] == (a != b && Holds(c[a][b], t))
  }

  /** Some v of A and u of B are connected in cv. */
  ghost predicate Broken(cv: seq<seq<bool>>, A: seq<int>, B: seq<int>)
    requires Square(cv, |cv|) && Below(A, |cv|) && Below(B, |cv|)
  {
    exists p, q | 0 <= p < |A| && 0 <= q < |B| :: cv[A[p]][B[q]]
  }

  /** not m or not c[v][u] is logged for every v of A and u of B. */
  ghost predicate AllCut(cl: seq<seq<Lit>>, m: Lit, c: seq<seq<Lit>>, A: seq<int>, B: seq<int>)
    requires Square(c, |c|) && Below(A, |c|) && Below(B, |c|)
  {
    forall p, q | 0 <= p < |A| && 0 <= q < |B| :: Logged(cl, [m.Neg(), c[A[p]][B[q]].Neg()])
  }

  /** The cut clause is logged for every pair of A and B connected in cv. */
  ghost predicate TrueCut(cl: seq<seq<Lit>>, m: Lit, c: seq<seq<Lit>>, cv: seq<seq<bool>>, A: seq<int>, B: seq<int>)
    requires Square(c, |c|) && Square(cv, |c|) && Below(A, |c|) && Below(B, |c|)
  {
    forall p, q | 0 <= p < |A| && 0 <= q < |B| && cv[A[p]][B[q]] :: Logged(cl, [m.Neg(), c[A[p]][B[q]].Neg()])
  }

  /** The cut clause is logged for every u of B connected to v in cv. */
  ghost predicate TrueCutFrom(cl: seq<seq<Lit>>, m: Lit, c: seq<seq<Lit>>, cv: seq<seq<bool>>, v: int, B: seq<int>)
    requires Square(c, |c|) && Square(cv, |c|) && 0 <= v < |c| && Below(B, |c|)
  {
    forall q | 0 <= q < |B| && cv[v][B[q]] :: Logged(cl, [m.Neg(), c[v][B[q]].Neg()])
  }

  lemma {:induction false} TrueCutFromGrows(cl1: seq<seq<Lit>>, cl2: seq<seq<Lit>>, m: Lit, c: seq<seq<Lit>>, cv: seq<seq<bool>>, v: int, B: seq<int>)
    requires Square(c, |c|) && Square(cv, |c|) && 0 <= v < |c| && Below(B, |c|)
    requires cl1 <= cl2 && TrueCutFrom(cl1, m, c, cv, v, B)
    ensures TrueCutFrom(cl2, m, c, cv, v, B)
  {
    forall q | 0 <= q < |B| && cv[v][B[q]] ensures Logged(cl2, [m.Neg(), c[v][B[q]].Neg()]) {
      LoggedGrows(cl1, cl2, [m.Neg(), c[v][B[q]].Neg()]);
    }
  }

  /** not m or not c[v][u] is logged for every u of B. */
  ghost predicate CutFrom(cl: seq<seq<Lit>>, m: Lit, c: seq<seq<Lit>>, v: int, B: seq<int>)
    requires Square(c, |c|) && 0 <= v < |c| && Below(B, |c|)
  {
    var row := c[v];
    forall q | 0 <= q < |B| :: Logged(cl, [m.Neg(), row[B[q]].Neg()])
  }

  lemma {:induction false} CutFromGrows(cl1: seq<seq<Lit>>, cl2: seq<seq<Lit>>, m: Lit, c: seq<seq<Lit>>, v: int, B: seq<int>)
    requires Square(c, |c|) && 0 <= v < |c| && Below(B, |c|)
    requires cl1 <= cl2 && CutFrom(cl1, m, c, v, B)
    ensures CutFrom(cl2, m, c, v, B)
  {
    forall q | 0 <= q < |B| ensures Logged(cl2, [m.Neg(), c[v][B[q]].Neg()]) {
      LoggedGrows(cl1, cl2, [m.Neg(), c[v][B[q]].Neg()]);
    }
  }

  /** If A and B are connected in cv, the cut clause of one such pair is logged. */
  ghost predicate OneCut(cl: seq<seq<Lit>>, m: Lit, c: seq<seq<Lit>>, cv: seq<seq<bool>>, A: seq<int>, B: seq<int>)
    requires Square(c, |c|) && Square(cv, |c|) && Below(A, |c|) && Below(B, |c|)
  {
    Broken(cv, A, B) ==>
      exists p, q | 0 <= p < |A| && 0 <= q < |B| :: cv[A[p]][B[q]] && Logged(cl, [m.Neg(), c[A[p]][B[q]].Neg()])
  }

  /** What each encoding logs for one pair of components. */
  ghost predicate PairBlocked(cl: seq<seq<Lit>>, m: Lit, c: seq<seq<Lit>>, cv: seq<seq<bool>>, A: seq<int>, B: seq<int>, enc: int)
    requires Square(c, |c|) && Square(cv, |c|) && Below(A, |c|) && Below(B, |c|)
  {
    if enc == 0 || enc == 5 then AllCut(cl, m, c, A, B)
    else if enc == 1 then TrueCut(cl, m, c, cv, A, B)
    else if enc == 2 then OneCut(cl, m, c, cv, A, B)
    else enc == 3 && (Broken(cv, A, B) ==> AllCut(cl, m, c, A, B))
  }

  ghost predicate CompsBelow(comps: seq<seq<int>>, n: int) {
    forall k | 0 <= k < |comps| :: Below(comps[k], n)
  }

  /** Every pair of components is blocked as the encoding prescribes. */
  ghost predicate Blocked(cl: seq<seq<Lit>>, m: Lit, c: seq<seq<Lit>>, cv: seq<seq<bool>>, comps: seq<seq<int>>, enc: int)
    requires Square(c, |c|) && Square(cv, |c|) && CompsBelow(comps, |c|)
  {
    forall i, ii | 0 <= i < ii < |comps| :: PairBlocked(cl, m, c, cv, comps[i], comps[ii], enc)
  }

  lemma {:induction false} PairBlockedGrows(cl1: seq<seq<Lit>>, cl2: seq<seq<Lit>>, m: Lit, c: seq<seq<Lit>>, cv: seq<seq<bool>>, A: seq<int>, B: seq<int>, enc: int)
    requires Square(c, |c|) && Square(cv, |c|) && Below(A, |c|) && Below(B, |c|)
    requires cl1 <= cl2 && PairBlocked(cl1, m, c, cv, A, B, enc)
    ensures PairBlocked(cl2, m, c, cv, A, B, enc)
  {
    forall p, q | 0 <= p < |A| && 0 <= q < |B| && Logged(cl1, [m.Neg(), c[A[p]][B[q]].Neg()])
      ensures Logged(cl2, [m.Neg(), c[A[p]][B[q]].Neg()])
    {
      LoggedGrows(cl1, cl2, [m.Neg(), c[A[p]][B[q]].Neg()]);
    }
  }

  /** One more cut clause of v extends the cuts of v with a prefix of B. */
  lemma {:induction false} CutStep(cl1: seq<seq<Lit>>, cl2: seq<seq<Lit>>, m: Lit, c: seq<seq<Lit>>, v: int, B: seq<int>, l: int)
    requires Square(c, |c|) && 0 <= v < |c| && Below(B, |c|) && 0 <= l < |B|
    requires cl1 <= cl2 && forall q | 0 <= q < l :: Logged(cl1, [m.Neg(), c[v][B[q]].Neg()])
    requires Logged(cl2, [m.Neg(), c[v][B[l]].Neg()])
    ensures forall q | 0 <= q < l + 1 :: Logged(cl2, [m.Neg(), c[v][B[q]].Neg()])
  {
    forall q | 0 <= q < l ensures Logged(cl2, [m.Neg(), c[v][B[q]].Neg()]) {
      LoggedGrows(cl1, cl2, [m.Neg(), c[v][B[q]].Neg()]);
    }
  }

  /** The same for the pairs connected in cv: a clause for B[l] when it is
      connected to v, nothing new otherwise. */
  lemma {:induction false} TrueCutStep(cl1: seq<seq<Lit>>, cl2: seq<seq<Lit>>, m: Lit, c: seq<seq<Lit>>, cv: seq<seq<bool>>, v: int, B: seq<int>, l: int)
    requires Square(c, |c|) && Square(cv, |c|) && 0 <= v < |c| && Below(B, |c|) && 0 <= l < |B|
    requires cl1 <= cl2 && forall q | 0 <= q < l && cv[v][B[q]] :: Logged(cl1, [m.Neg(), c[v][B[q]].Neg()])
    requires cv[v][B[l]] ==> Logged(cl2, [m.Neg(), c[v][B[l]].Neg()])
    ensures forall q | 0 <= q < l + 1 && cv[v][B[q]] :: Logged(cl2, [m.Neg(), c[v][B[q]].Neg()])
  {
    forall q | 0 <= q < l && cv[v][B[q]] ensures Logged(cl2, [m.Neg(), c[v][B[q]].Neg()]) {
      LoggedGrows(cl1, cl2, [m.Neg(), c[v][B[q]].Neg()]);
    }
  }

  /** The per-vertex cuts CutFrom of a prefix of A survive new clauses. */
  lemma {:induction false} CutFromsGrow(cl1: seq<seq<Lit>>, cl2: seq<seq<Lit>>, m: Lit, c: seq<seq<Lit>>, A: seq<int>, B: seq<int>, k: int)
    requires Square(c, |c|) && Below(A, |c|) && Below(B, |c|) && 0 <= k <= |A|
    requires cl1 <= cl2 && forall p | 0 <= p < k :: CutFrom(cl1, m, c, A[p], B)
    ensures forall p | 0 <= p < k :: CutFrom(cl2, m, c, A[p], B)
  {
    forall p | 0 <= p < k ensures CutFrom(cl2, m, c, A[p], B) {
      CutFromGrows(cl1, cl2, m, c, A[p], B);
    }
  }

  /** Cutting every vertex of A from B cuts all of A from B. */
  lemma {:induction false} CutFromsAll(cl: seq<seq<Lit>>, m: Lit, c: seq<seq<Lit>>, A: seq<int>, B: seq<int>)
    requires Square(c, |c|) && Below(A, |c|) && Below(B, |c|)
    requires forall p | 0 <= p < |A| :: CutFrom(cl, m, c, A[p], B)
    ensures AllCut(cl, m, c, A, B)
  {
    forall p, q | 0 <= p < |A| && 0 <= q < |B| ensures Logged(cl, [m.Neg(), c[A[p]][B[q]].Neg()]) {
      assert CutFrom(cl, m, c, A[p], B);
    }
  }

  /** The per-vertex cuts TrueCutFrom of a prefix of A survive new clauses. */
  lemma {:induction false} TrueCutFromsGrow(cl1: seq<seq<Lit>>, cl2: seq<seq<Lit>>, m: Lit, c: seq<seq<Lit>>, cv: seq<seq<bool>>, A: seq<int>, B: seq<int>, k: int)
    requires Square(c, |c|) && Square(cv, |c|) && Below(A, |c|) && Below(B, |c|) && 0 <= k <= |A|
    requires cl1 <= cl2 && forall p | 0 <= p < k :: TrueCutFrom(cl1, m, c, cv, A[p], B)
    ensures forall p | 0 <= p < k :: TrueCutFrom(cl2, m, c, cv, A[p], B)
  {
    forall p | 0 <= p < k ensures TrueCutFrom(cl2, m, c, cv, A[p], B) {
      TrueCutFromGrows(cl1, cl2, m, c, cv, A[p], B);
    }
  }

  /** Cutting every vertex of A from its connected vertices of B cuts every
      connected pair. */
  lemma {:induction false} TrueCutFromsAll(cl: seq<seq<Lit>>, m: Lit, c: seq<seq<Lit>>, cv: seq<seq<bool>>, A: seq<int>, B: seq<int>)
    requires Square(c, |c|) && Square(cv, |c|) && Below(A, |c|) && Below(B, |c|)
    requires forall p | 0 <= p < |A| :: TrueCutFrom(cl, m, c, cv, A[p], B)
    ensures TrueCut(cl, m, c, cv, A, B)
  {
    forall p, q | 0 <= p < |A| && 0 <= q < |B| && cv[A[p]][B[q]] ensures Logged(cl, [m.Neg(), c[A[p]][B[q]].Neg()]) {
      assert TrueCutFrom(cl, m, c, cv, A[p], B);
    }
  }

  /** In a model that selects every vertex of S, the separator literal of S
      is true. */
  lemma {:induction false} MinsepForced(cl: seq<seq<Lit>>, m: Lit, x: seq<Lit>, S: seq<int>, t: set<int>)
    requires Below(S, |x|) && forall k | 0 <= k < |x| :: x[k].IsDef()
    requires Logged(cl, MinsepClause(m, x, S)) && Models(t, cl)
    requires forall k | 0 <= k < |S| :: Holds(x[S[k]], t)
    ensures Holds(m, t)
  {
    var clause := MinsepClause(m, x, S);
    LoggedHolds(cl, clause, t);
    var k :| 0 <= k < |clause| && Holds(clause[k], t);
    if k > 0 {
      NegFlipsTruth(x[S[k - 1]], t);
    }
  }

  /** The connectivity literals are defined and symmetric off the diagonal. */
  ghost predicate SymmetricDefined(c: seq<seq<Lit>>, n: int)
    requires Square(c, n)
  {
    forall a, b | 0 <= a < n && 0 <= b < n && a != b :: c[a][b] == c[b][a] && c[a][b].IsDef()
  }

  /** The shape of the connectivity literals gives their symmetry. */
  lemma {:induction false} ConnShapeSymmetric(adj: Adj, c: seq<seq<Lit>>, n: int)
    requires Square(c, |adj|) && ConnShape(adj, c) && n == |adj|
    ensures SymmetricDefined(c, n)
  {
    forall a, b | 0 <= a < n && 0 <= b < n && a != b ensures c[a][b] == c[b][a] && c[a][b].IsDef() {
      assert 0 <= a < |adj| && 0 <= b < |adj|;
    }
  }

  /** Once a separator S is blocked with all its pairs cut (encodings 0 and
      5), no model selects all of S together with two vertices from
      different components of G - S. */
  lemma {:induction false} CutSeparatesSelection(cl: seq<seq<Lit>>, m: Lit, x: seq<Lit>, c: seq<seq<Lit>>, S: seq<int>, A: seq<int>, B: seq<int>, t: set<int>, v: int, u: int)
    requires Square(c, |x|) && Below(S, |x|) && Below(A, |x|) && Below(B, |x|)
    requires forall k | 0 <= k < |x| :: x[k].IsDef()
    requires SymmetricDefined(c, |x|)
    requires CliqueLogged(cl, x, c) && Logged(cl, MinsepClause(m, x, S)) && AllCut(cl, m, c, A, B) && Models(t, cl)
    requires forall k | 0 <= k < |S| :: Holds(x[S[k]], t)
    requires v in A && u in B && v != u
    ensures !(Holds(x[v], t) && Holds(x[u], t))
  {
    MinsepForced(cl, m, x, S, t);
    var p :| 0 <= p < |A| && A[p] == v;
    var q :| 0 <= q < |B| && B[q] == u;
    LoggedHolds(cl, [m.Neg(), c[v][u].Neg()], t);
    Satisfies2(t, m.Neg(), c[v][u].Neg());
    NegFlipsTruth(m, t);
    NegFlipsTruth(c[v][u], t);
    if Holds(x[v], t) && Holds(x[u], t) {
      if v < u {
        PairConnected(cl, x, c, t, v, u);
      } else {
        PairConnected(cl, x, c, t, u, v);
      }
    }
  }

  /** Model t selects every vertex of S. */
  ghost predicate SelectsAll(x: seq<Lit>, S: seq<int>, t: set<int>)
    requires Below(S, |x|)
  {
    forall k | 0 <= k < |S| :: Holds(x[S[k]], t)
  }

  /** Every model of cl that selects all of S selects vertices from at most
      one of the components. */
  ghost predicate SplitForbidden(cl: seq<seq<Lit>>, x: seq<Lit>, S: seq<int>, comps: seq<seq<int>>)
    requires Below(S, |x|) && CompsBelow(comps, |x|)
  {
    forall t, i, ii, v, u | Models(t, cl) && SelectsAll(x, S, t) && 0 <= i < ii < |comps| && v in comps[i] && u in comps[ii] ::
      !(Holds(x[v], t) && Holds(x[u], t))
  }

  /** With every pair of components cut (encodings 0 and 5), the blocked
      separator forbids a selection that spans two of its components. */
  lemma {:induction false} CutForbidsSplit(cl: seq<seq<Lit>>, m: Lit, x: seq<Lit>, c: seq<seq<Lit>>, S: seq<int>, comps: seq<seq<int>>)
    requires Square(c, |x|) && Below(S, |x|) && CompsBelow(comps, |x|)
    requires forall k | 0 <= k < |x| :: x[k].IsDef()
    requires SymmetricDefined(c, |x|)
    requires CliqueLogged(cl, x, c) && Logged(cl, MinsepClause(m, x, S))
    requires forall i, ii | 0 <= i < ii < |comps| :: AllCut(cl, m, c, comps[i], comps[ii]) && Elems(comps[i]) !! Elems(comps[ii])
    ensures SplitForbidden(cl, x, S, comps)
  {
    forall t, i, ii, v, u | Models(t, cl) && SelectsAll(x, S, t) && 0 <= i < ii < |comps| && v in comps[i] && u in comps[ii]
      ensures !(Holds(x[v], t) && Holds(x[u], t))
    {
      assert v in Elems(comps[i]) && u in Elems(comps[ii]);
      assert v != u;
      assert Below(comps[i], |x|) && Below(comps[ii], |x|);
      assert AllCut(cl, m, c, comps[i], comps[ii]);
      CutSeparatesSelection(cl, m, x, c, S, comps[i], comps[ii], t, v, u);
    }
  }

  /** A model of the base encoding whose selection fails the PMC test is a
      bad separator for its own connectivity values: the assertion before
      minimisation always holds. */
  lemma {:induction false} NotPmcIsBadSep(cl: seq<seq<Lit>>, adj: Adj, x: seq<Lit>, c: seq<seq<Lit>>, y: seq<seq<Lit>>, enc: int, t: set<int>, sol: seq<int>, cv: seq<seq<bool>>)
    requires WellFormed(adj) && |x| == |adj| && Square(c, |adj|) && Square(y, |adj|) && ConnShape(adj, c)
    requires forall k | 0 <= k < |x| :: x[k].IsDef()
    requires BasicEncoded(cl, adj, x, c, y, enc) && Models(t, cl)
    requires NoRepeats(sol) && Elems(sol) == Selected(x, t) && ConnValues(c, t, cv, |adj|)
    requires !PmcTest(adj, sol)
    ensures BadSep(adj, Elems(sol), cv)
  {
    var P := Elems(sol);
    if forall a, b | a in sol && b in sol && a != b :: ConnectedWrt(adj, P, a, b) {
      var r :| 0 <= r < |adj| && r !in sol && |Nbh(adj, Comp(adj, P, r))| == |sol|;
      NoRepeatsCard(sol);
      NbhOfCompInSeparator(adj, P, r);
      CardSubset(Nbh(adj, Comp(adj, P, r)), P);
      assert r in Allowed(adj, P);
      ModelSelectionHasNoFullComponent(cl, adj, x, c, y, enc, t);
      assert false;
    } else {
      var a, b :| a in sol && b in sol && a != b && !ConnectedWrt(adj, P, a, b);
      assert a in Selected(x, t) && b in Selected(x, t);
      ModelSelectionPairsConnected(cl, x, c, t);
      assert cv[a][b];
    }
  }

  /** Every pair (a, b) with b > a is blocked. */
  ghost predicate RowBlocked(cl: seq<seq<Lit>>, m: Lit, c: seq<seq<Lit>>, cv: seq<seq<bool>>, comps: seq<seq<int>>, a: int, enc: int)
    requires Square(c, |c|) && Square(cv, |c|) && CompsBelow(comps, |c|) && 0 <= a < |comps|
  {
    forall b | a < b < |comps| :: PairBlocked(cl, m, c, cv, comps[a], comps[b], enc)
  }

  lemma {:induction false} RowBlockedGrows(cl1: seq<seq<Lit>>, cl2: seq<seq<Lit>>, m: Lit, c: seq<seq<Lit>>, cv: seq<seq<bool>>, comps: seq<seq<int>>, a: int, enc: int)
    requires Square(c, |c|) && Square(cv, |c|) && CompsBelow(comps, |c|) && 0 <= a < |comps|
    requires cl1 <= cl2 && RowBlocked(cl1, m, c, cv, comps, a, enc)
    ensures RowBlocked(cl2, m, c, cv, comps, a, enc)
  {
    forall b | a < b < |comps| ensures PairBlocked(cl2, m, c, cv, comps[a], comps[b], enc) {
      PairBlockedGrows(cl1, cl2, m, c, cv, comps[a], comps[b], enc);
    }
  }

  /** The blocked rows below i survive new clauses. */
  lemma {:induction false} RowsBlockedGrow(cl1: seq<seq<Lit>>, cl2: seq<seq<Lit>>, m: Lit, c: seq<seq<Lit>>, cv: seq<seq<bool>>, comps: seq<seq<int>>, i: int, enc: int)
    requires Square(c, |c|) && Square(cv, |c|) && CompsBelow(comps, |c|) && 0 <= i <= |comps|
    requires cl1 <= cl2 && forall a | 0 <= a < i :: RowBlocked(cl1, m, c, cv, comps, a, enc)
    ensures forall a | 0 <= a < i :: RowBlocked(cl2, m, c, cv, comps, a, enc)
  {
    forall a | 0 <= a < i ensures RowBlocked(cl2, m, c, cv, comps, a, enc) {
      RowBlockedGrows(cl1, cl2, m, c, cv, comps, a, enc);
    }
  }

  /** The blocked pairs (i, b), i < b < ii, survive new clauses. */
  lemma {:induction false} PairsBlockedGrow(cl1: seq<seq<Lit>>, cl2: seq<seq<Lit>>, m: Lit, c: seq<seq<Lit>>, cv: seq<seq<bool>>, comps: seq<seq<int>>, i: int, ii: int, enc: int)
    requires Square(c, |c|) && Square(cv, |c|) && CompsBelow(comps, |c|) && 0 <= i < |comps| && ii <= |comps|
    requires cl1 <= cl2 && forall b | i < b < ii :: PairBlocked(cl1, m, c, cv, comps[i], comps[b], enc)
    ensures forall b | i < b < ii :: PairBlocked(cl2, m, c, cv, comps[i], comps[b], enc)
  {
    forall b | i < b < ii ensures PairBlocked(cl2, m, c, cv, comps[i], comps[b], enc) {
      PairBlockedGrows(cl1, cl2, m, c, cv, comps[i], comps[b], enc);
    }
  }

  /** Blocked rows make a blocked component list. */
  lemma {:induction false} RowsBlocked(cl: seq<seq<Lit>>, m: Lit, c: seq<seq<Lit>>, cv: seq<seq<bool>>, comps: seq<seq<int>>, enc: int)
    requires Square(c, |c|) && Square(cv, |c|) && CompsBelow(comps, |c|)
    requires forall a | 0 <= a < |comps| :: RowBlocked(cl, m, c, cv, comps, a, enc)
    ensures Blocked(cl, m, c, cv, comps, enc)
  {
    forall i, ii | 0 <= i < ii < |comps| ensures PairBlocked(cl, m, c, cv, comps[i], comps[ii], enc) {
      assert RowBlocked(cl, m, c, cv, comps, i, enc);
    }
  }

  /** The lists of a component list name vertices of the graph. */
  lemma {:induction false} ComponentsBelow(adj: Adj, S: set<int>, comps: seq<seq<int>>)
    requires ComponentList(adj, S, comps)
    ensures CompsBelow(comps, |adj|)
  {
    forall k, q | 0 <= k < |comps| && 0 <= q < |comps[k]| ensures 0 <= comps[k][q] < |adj| {
      assert comps[k][q] in Elems(comps[k]);
    }
  }

  /** The list without its entry at i, built entry by entry. */
  method WithoutAt(s: seq<int>, i: int) returns (r: seq<int>)
    requires 0 <= i < |s|
    ensures r == s[..i] + s[i + 1..]
  {
    r := [];
    for ii := 0 to |s|
      invariant r == if ii <= i then s[..ii] else s[..i] + s[i + 1..ii]
    {
      if ii != i {
        r := r + [s[ii]];
      }
    }
  }

  // ---------------------------------------------------------------------
  // The blocking clause of a found PMC

  /** The clause the model's selection falsifies: not x[v] for selected v,
      x[v] for the others. */
  ghost function BlockClause(x: seq<Lit>, t: set<int>): (r: seq<Lit>)
    ensures |r| == |x| && forall v | 0 <= v < |x| :: r[v] == (if Holds(x[v], t) then x[v].Neg() else x[v])
  {
    seq(|x|, v requires 0 <= v < |x| => if Holds(x[v], t) then x[v].Neg() else x[v])
  }

  /** The blocking clause holds in exactly the models with a different
      selection. */
  lemma {:induction false} BlockClauseExcludes(x: seq<Lit>, t: set<int>, t2: set<int>)
    requires forall k | 0 <= k < |x| :: x[k].IsDef()
    ensures Satisfies(t2, BlockClause(x, t)) <==> Selected(x, t2) != Selected(x, t)
  {
    var clause := BlockClause(x, t);
    if Satisfies(t2, clause) {
      var v :| 0 <= v < |clause| && Holds(clause[v], t2);
      NegFlipsTruth(x[v], t2);
      assert v in Selected(x, t2) <==> v !in Selected(x, t);
    }
    if Selected(x, t2) != Selected(x, t) {
      var v :| (v in Selected(x, t2) && v !in Selected(x, t)) || (v !in Selected(x, t2) && v in Selected(x, t));
      NegFlipsTruth(x[v], t2);
      assert Holds(clause[v], t2);
    }
  }

  // ---------------------------------------------------------------------
  // The path-length encoding (minimal-separator encoding 4)
  //
  // Layer j of the path literals cl[j][i][ii] stands for "i and ii are
  // joined by a path of at most j edges whose inner vertices are not
  // selected", and f[j][i][ii] for "ii is such an endpoint and is itself
  // unselected". Layers run from 1 to n - 1; layer 0 is never filled.

  /** n layers of n-by-n literals. */
  ghost predicate Cube(m: seq<seq<seq<Lit>>>, n: int) {
    |m| == n && forall j | 0 <= j < n :: Square(m[j], n)
  }

  /** Entry (a, b) of layer j of the path literals once row a is built: for
      a < b the constant true on an edge, in layer 1 the constant false
      otherwise, and always defined; for a > b the mirror entry. */
  ghost predicate LayerEntry(adj: Adj, L: seq<seq<Lit>>, a: int, b: int, j: int)
    requires Square(L, |adj|) && 0 <= a < |adj| && 0 <= b < |adj|
  {
    if a < b then
      L[a][b].IsDef() && (Adjacent(adj, a, b) ==> L[a][b] == TrueLit) &&
      (!Adjacent(adj, a, b) && j == 1 ==> L[a][b] == FalseLit)
    else L[a][b] == L[b][a]
  }

  /** Rows below i of layer j are built. */
  ghost predicate LayerFilled(adj: Adj, L: seq<seq<Lit>>, i: int, j: int, nv: int)
    requires Square(L, |adj|) && i <= |adj|
  {
    forall a, b | 0 <= a < i && 0 <= b < |adj| && a != b :: LayerEntry(adj, L, a, b, j) && KnownIn(L[a][b], nv)
  }

  /** Entry b of row i of a layer before the row is installed. */
  ghost predicate LayerRowEntry(adj: Adj, L: seq<seq<Lit>>, row: seq<Lit>, i: int, b: int, j: int)
    requires Square(L, |adj|) && |row| == |adj| && 0 <= i < |adj| && 0 <= b < |adj|
  {
    if i < b then
      row[b].IsDef() && (Adjacent(adj, i, b) ==> row[b] == TrueLit) &&
      (!Adjacent(adj, i, b) && j == 1 ==> row[b] == FalseLit)
    else row[b] == L[b][i]
  }

  lemma {:induction false} LayerRowInstalled(adj: Adj, L: seq<seq<Lit>>, row: seq<Lit>, i: int, j: int, nv: int)
    requires Square(L, |adj|) && |row| == |adj| && 0 <= i < |adj|
    requires LayerFilled(adj, L, i, j, nv)
    requires forall b | 0 <= b < |adj| && b != i :: LayerRowEntry(adj, L, row, i, b, j) && KnownIn(row[b], nv)
    ensures LayerFilled(adj, L[i := row], i + 1, j, nv)
  {
    var L' := L[i := row];
    forall a, b | 0 <= a < i + 1 && 0 <= b < |adj| && a != b
      ensures LayerEntry(adj, L', a, b, j) && KnownIn(L'[a][b], nv)
    {
      if a == i {
        assert LayerRowEntry(adj, L, row, i, b, j);
      } else {
        assert LayerEntry(adj, L, a, b, j);
      }
    }
  }

  /** f implies the path literal l and that vertex b is unselected. */
  ghost predicate FreeCell(cl: seq<seq<Lit>>, x: seq<Lit>, l: Lit, f: Lit, b: int)
    requires 0 <= b < |x|
  {
    f.IsDef() && Logged(cl, [f.Neg(), l]) && Logged(cl, [f.Neg(), x[b].Neg()])
  }

  /** Row a of a layer: every f entry with its two clauses. */
  ghost predicate FreeRow(cl: seq<seq<Lit>>, x: seq<Lit>, row: seq<Lit>, frow: seq<Lit>, a: int, nv: int)
    requires |row| == |x| && |frow| == |x|
  {
    forall b | 0 <= b < |x| && b != a :: FreeCell(cl, x, row[b], frow[b], b) && KnownIn(frow[b], nv)
  }

  lemma {:induction false} FreeCellGrows(cl1: seq<seq<Lit>>, cl2: seq<seq<Lit>>, x: seq<Lit>, l: Lit, f: Lit, b: int)
    requires 0 <= b < |x| && cl1 <= cl2 && FreeCell(cl1, x, l, f, b)
    ensures FreeCell(cl2, x, l, f, b)
  {
    LoggedGrows(cl1, cl2, [f.Neg(), l]);
    LoggedGrows(cl1, cl2, [f.Neg(), x[b].Neg()]);
  }

  lemma {:induction false} FreeRowGrows(cl1: seq<seq<Lit>>, cl2: seq<seq<Lit>>, x: seq<Lit>, row: seq<Lit>, frow: seq<Lit>, a: int, nv1: int, nv2: int)
    requires |row| == |x| && |frow| == |x| && cl1 <= cl2 && nv1 <= nv2 && FreeRow(cl1, x, row, frow, a, nv1)
    ensures FreeRow(cl2, x, row, frow, a, nv2)
  {
    forall b | 0 <= b < |x| && b != a ensures FreeCell(cl2, x, row[b], frow[b], b) {
      FreeCellGrows(cl1, cl2, x, row[b], frow[b], b);
    }
  }

  /** Layer j of both families is complete. */
  ghost predicate LayerDone(cl: seq<seq<Lit>>, adj: Adj, x: seq<Lit>, L: seq<seq<Lit>>, F: seq<seq<Lit>>, j: int, nv: int)
    requires |x| == |adj| && Square(L, |adj|) && Square(F, |adj|)
  {
    LayerFilled(adj, L, |adj|, j, nv) &&
    forall a | 0 <= a < |adj| :: FreeRow(cl, x, L[a], F[a], a, nv)
  }

  lemma {:induction false} LayerDoneGrows(cl1: seq<seq<Lit>>, cl2: seq<seq<Lit>>, adj: Adj, x: seq<Lit>, L: seq<seq<Lit>>, F: seq<seq<Lit>>, j: int, nv1: int, nv2: int)
    requires |x| == |adj| && Square(L, |adj|) && Square(F, |adj|)
    requires cl1 <= cl2 && nv1 <= nv2 && LayerDone(cl1, adj, x, L, F, j, nv1)
    ensures LayerDone(cl2, adj, x, L, F, j, nv2)
  {
    forall a | 0 <= a < |adj| ensures FreeRow(cl2, x, L[a], F[a], a, nv2) {
      FreeRowGrows(cl1, cl2, x, L[a], F[a], a, nv1, nv2);
    }
  }

  /** All layers 1 .. n - 1 of both families are complete. */
  ghost predicate PathLiterals(cl: seq<seq<Lit>>, adj: Adj, x: seq<Lit>, clv: seq<seq<seq<Lit>>>, fv: seq<seq<seq<Lit>>>, nv: int)
  {
    |x| == |adj| && Cube(clv, |adj|) && Cube(fv, |adj|) &&
    forall j | 1 <= j < |adj| :: LayerDone(cl, adj, x, clv[j], fv[j], j, nv)
  }

  /** A path of at most j edges is one of at most j + 1, and so is a free
      endpoint (the clauses from layer j to layer j + 1). */
  ghost predicate MonoCell(cl: seq<seq<Lit>>, clv: seq<seq<seq<Lit>>>, fv: seq<seq<seq<Lit>>>, j: int, i: int, ii: int)
    requires 1 <= j && j + 1 < |clv| && Cube(clv, |clv|) && Cube(fv, |clv|) && 0 <= i < |clv| && 0 <= ii < |clv|
  {
    (i < ii ==> Logged(cl, [clv[j][i][ii].Neg(), clv[j + 1][i][ii]])) &&
    Logged(cl, [fv[j][i][ii].Neg(), fv[j + 1][i][ii]])
  }

  ghost predicate MonoLayer(cl: seq<seq<Lit>>, clv: seq<seq<seq<Lit>>>, fv: seq<seq<seq<Lit>>>, j: int)
    requires 1 <= j && j + 1 < |clv| && Cube(clv, |clv|) && Cube(fv, |clv|)
  {
    forall i, ii | 0 <= i < |clv| && 0 <= ii < |clv| && i != ii :: MonoCell(cl, clv, fv, j, i, ii)
  }

  lemma {:induction false} MonoLayerGrows(cl1: seq<seq<Lit>>, cl2: seq<seq<Lit>>, clv: seq<seq<seq<Lit>>>, fv: seq<seq<seq<Lit>>>, j: int)
    requires 1 <= j && j + 1 < |clv| && Cube(clv, |clv|) && Cube(fv, |clv|)
    requires cl1 <= cl2 && MonoLayer(cl1, clv, fv, j)
    ensures MonoLayer(cl2, clv, fv, j)
  {
    forall i, ii | 0 <= i < |clv| && 0 <= ii < |clv| && i != ii ensures MonoCell(cl2, clv, fv, j, i, ii) {
      assert MonoCell(cl1, clv, fv, j, i, ii);
      if i < ii {
        LoggedGrows(cl1, cl2, [clv[j][i][ii].Neg(), clv[j + 1][i][ii]]);
      }
      LoggedGrows(cl1, cl2, [fv[j][i][ii].Neg(), fv[j + 1][i][ii]]);
    }
  }

  /** The f literals f[j-1][i][iii] of the neighbours iii != i of ii, in the
      order of the neighbour list. */
  function Feeders(fi: seq<Lit>, nbs: seq<int>, i: int): seq<Lit>
    requires Below(nbs, |fi|)
    decreases |nbs|
  {
    if nbs == [] then []
    else
      var last := nbs[|nbs| - 1];
      Feeders(fi, nbs[..|nbs| - 1], i) + if last == i then [] else [fi[last]]
  }

  /** Feeders of a prefix extended by one neighbour. */
  lemma {:induction false} FeedersSnoc(fi: seq<Lit>, nbs: seq<int>, k: int, i: int)
    requires Below(nbs, |fi|) && 0 <= k < |nbs|
    ensures Below(nbs[..k], |fi|) && Below(nbs[..k + 1], |fi|)
    ensures Feeders(fi, nbs[..k + 1], i) == Feeders(fi, nbs[..k], i) + if nbs[k] == i then [] else [fi[nbs[k]]]
  {
    assert nbs[..k + 1][..k] == nbs[..k];
  }

  /** The step clause of (i, ii): not l, or the free literal of i at some
      neighbour of ii other than i, in the order of the neighbour list nbs. */
  method BuildStepClause(l: Lit, fi: seq<Lit>, nbs: seq<int>, i: int) returns (clause: seq<Lit>)
    requires Below(nbs, |fi|)
    ensures clause == StepClause(l, fi, nbs, i)
  {
    var feeders := [];
    for k := 0 to |nbs|
      invariant Below(nbs[..k], |fi|)
      invariant feeders == Feeders(fi, nbs[..k], i)
    {
      FeedersSnoc(fi, nbs, k, i);
      if nbs[k] != i {
        feeders := feeders + [fi[nbs[k]]];
      }
    }
    assert nbs[..|nbs|] == nbs;
    clause := [l.Neg()] + feeders;
  }

  /** The feeders are exactly the f literals of the neighbours other than i. */
  lemma {:induction false} FeedersSpec(fi: seq<Lit>, nbs: seq<int>, i: int)
    requires Below(nbs, |fi|)
    ensures forall q | 0 <= q < |Feeders(fi, nbs, i)| :: exists k | 0 <= k < |nbs| :: nbs[k] != i && Feeders(fi, nbs, i)[q] == fi[nbs[k]]
    ensures forall k | 0 <= k < |nbs| && nbs[k] != i :: fi[nbs[k]] in Feeders(fi, nbs, i)
    decreases |nbs|
  {
    if nbs != [] {
      var init := nbs[..|nbs| - 1];
      FeedersSpec(fi, init, i);
      assert forall k | 0 <= k < |init| :: init[k] == nbs[k];
      var r0, r := Feeders(fi, init, i), Feeders(fi, nbs, i);
      assert r == r0 + if nbs[|nbs| - 1] == i then [] else [fi[nbs[|nbs| - 1]]];
      forall q | 0 <= q < |r| ensures exists k | 0 <= k < |nbs| :: nbs[k] != i && r[q] == fi[nbs[k]] {
        if q < |r0| {
          assert r[q] == r0[q];
          var k :| 0 <= k < |init| && init[k] != i && r0[q] == fi[init[k]];
          assert nbs[k] == init[k];
        } else {
          assert nbs[|nbs| - 1] != i && r[q] == fi[nbs[|nbs| - 1]];
        }
      }
      forall k | 0 <= k < |nbs| && nbs[k] != i ensures fi[nbs[k]] in r {
        if k < |init| {
          assert fi[init[k]] in r0;
        }
      }
    } else {
      assert Feeders(fi, nbs, i) == [];
    }
  }

  /** A path of at most j edges from i to the non-neighbour ii steps through
      a free neighbour of ii reached within j - 1 edges. */
  function StepClause(l: Lit, fi: seq<Lit>, nbs: seq<int>, i: int): seq<Lit>
    requires Below(nbs, |fi|)
  {
    [l.Neg()] + Feeders(fi, nbs, i)
  }

  ghost predicate StepLayer(cl: seq<seq<Lit>>, adj: Adj, clv: seq<seq<seq<Lit>>>, fv: seq<seq<seq<Lit>>>, j: int)
    requires InRange(adj) && Cube(clv, |adj|) && Cube(fv, |adj|) && 2 <= j < |adj|
  {
    forall i, ii | 0 <= i < |adj| && 0 <= ii < |adj| && i != ii && !Adjacent(adj, i, ii) ::
      Logged(cl, StepClause(clv[j][i][ii], fv[j - 1][i], adj[ii], i))
  }

  lemma {:induction false} StepLayerGrows(cl1: seq<seq<Lit>>, cl2: seq<seq<Lit>>, adj: Adj, clv: seq<seq<seq<Lit>>>, fv: seq<seq<seq<Lit>>>, j: int)
    requires InRange(adj) && Cube(clv, |adj|) && Cube(fv, |adj|) && 2 <= j < |adj|
    requires cl1 <= cl2 && StepLayer(cl1, adj, clv, fv, j)
    ensures StepLayer(cl2, adj, clv, fv, j)
  {
    forall i, ii | 0 <= i < |adj| && 0 <= ii < |adj| && i != ii && !Adjacent(adj, i, ii)
      ensures Logged(cl2, StepClause(clv[j][i][ii], fv[j - 1][i], adj[ii], i))
    {
      LoggedGrows(cl1, cl2, StepClause(clv[j][i][ii], fv[j - 1][i], adj[ii], i));
    }
  }

  /** c[i][ii] implies a path of at most n - 1 edges. */
  ghost predicate FinalLogged(cl: seq<seq<Lit>>, c: seq<seq<Lit>>, clv: seq<seq<seq<Lit>>>)
    requires Square(c, |c|) && Cube(clv, |c|)
  {
    forall i, ii | 0 <= i < ii < |c| :: Logged(cl, [c[i][ii].Neg(), clv[|c| - 1][i][ii]])
  }

  /** The whole path-length encoding is logged. */
  ghost predicate PathEncoded(cl: seq<seq<Lit>>, adj: Adj, x: seq<Lit>, c: seq<seq<Lit>>, clv: seq<seq<seq<Lit>>>, fv: seq<seq<seq<Lit>>>, nv: int)
    requires InRange(adj) && Square(c, |adj|)
  {
    PathLiterals(cl, adj, x, clv, fv, nv) &&
    (forall j | 1 <= j && j + 1 < |adj| :: MonoLayer(cl, clv, fv, j)) &&
    (forall j | 2 <= j < |adj| :: StepLayer(cl, adj, clv, fv, j)) &&
    FinalLogged(cl, c, clv)
  }

  lemma {:induction false} PathGrows(cl1: seq<seq<Lit>>, cl2: seq<seq<Lit>>, adj: Adj, x: seq<Lit>, c: seq<seq<Lit>>, clv: seq<seq<seq<Lit>>>, fv: seq<seq<seq<Lit>>>, nv1: int, nv2: int)
    requires InRange(adj) && Square(c, |adj|)
    requires cl1 <= cl2 && nv1 <= nv2 && PathEncoded(cl1, adj, x, c, clv, fv, nv1)
    ensures PathEncoded(cl2, adj, x, c, clv, fv, nv2)
  {
    LayersGrow(cl1, cl2, adj, x, clv, fv, nv1, nv2);
    MonoLayersGrow(cl1, cl2, clv, fv, |adj| - 1);
    StepLayersGrow(cl1, cl2, adj, clv, fv, |adj|);
    FinalGrows(cl1, cl2, c, clv);
  }

  lemma {:induction false} LayersGrow(cl1: seq<seq<Lit>>, cl2: seq<seq<Lit>>, adj: Adj, x: seq<Lit>, clv: seq<seq<seq<Lit>>>, fv: seq<seq<seq<Lit>>>, nv1: int, nv2: int)
    requires cl1 <= cl2 && nv1 <= nv2 && PathLiterals(cl1, adj, x, clv, fv, nv1)
    ensures PathLiterals(cl2, adj, x, clv, fv, nv2)
  {
    forall j | 1 <= j < |adj| ensures LayerDone(cl2, adj, x, clv[j], fv[j], j, nv2) {
      LayerDoneGrows(cl1, cl2, adj, x, clv[j], fv[j], j, nv1, nv2);
    }
  }

  lemma {:induction false} MonoLayersGrow(cl1: seq<seq<Lit>>, cl2: seq<seq<Lit>>, clv: seq<seq<seq<Lit>>>, fv: seq<seq<seq<Lit>>>, j: int)
    requires Cube(clv, |clv|) && Cube(fv, |clv|) && j < |clv|
    requires cl1 <= cl2 && forall q | 1 <= q < j :: MonoLayer(cl1, clv, fv, q)
    ensures forall q | 1 <= q < j :: MonoLayer(cl2, clv, fv, q)
  {
    forall q | 1 <= q < j ensures MonoLayer(cl2, clv, fv, q) {
      MonoLayerGrows(cl1, cl2, clv, fv, q);
    }
  }

  lemma {:induction false} FinalGrows(cl1: seq<seq<Lit>>, cl2: seq<seq<Lit>>, c: seq<seq<Lit>>, clv: seq<seq<seq<Lit>>>)
    requires Square(c, |c|) && Cube(clv, |c|)
    requires cl1 <= cl2 && FinalLogged(cl1, c, clv)
    ensures FinalLogged(cl2, c, clv)
  {
    forall i, ii | 0 <= i < ii < |c| ensures Logged(cl2, [c[i][ii].Neg(), clv[|c| - 1][i][ii]]) {
      LoggedGrows(cl1, cl2, [c[i][ii].Neg(), clv[|c| - 1][i][ii]]);
    }
  }

  /** The literals of layers 1 .. n - 1 are known to the solver. */
  ghost predicate PathKnown(clv: seq<seq<seq<Lit>>>, fv: seq<seq<seq<Lit>>>, nv: int)
    requires Cube(clv, |clv|) && Cube(fv, |clv|)
  {
    forall j, a, b | 1 <= j < |clv| && 0 <= a < |clv| && 0 <= b < |clv| && a != b ::
      KnownIn(clv[j][a][b], nv) && KnownIn(fv[j][a][b], nv)
  }

  lemma {:induction false} PathLiteralsKnown(cl: seq<seq<Lit>>, adj: Adj, x: seq<Lit>, clv: seq<seq<seq<Lit>>>, fv: seq<seq<seq<Lit>>>, nv: int)
    requires PathLiterals(cl, adj, x, clv, fv, nv)
    ensures PathKnown(clv, fv, nv)
  {
    forall j, a, b | 1 <= j < |clv| && 0 <= a < |clv| && 0 <= b < |clv| && a != b
      ensures KnownIn(clv[j][a][b], nv) && KnownIn(fv[j][a][b], nv)
    {
      assert LayerDone(cl, adj, x, clv[j], fv[j], j, nv);
      assert FreeRow(cl, x, clv[j][a], fv[j][a], a, nv);
    }
  }

  lemma {:induction false} MonoCellGrows(cl1: seq<seq<Lit>>, cl2: seq<seq<Lit>>, clv: seq<seq<seq<Lit>>>, fv: seq<seq<seq<Lit>>>, j: int, i: int, ii: int)
    requires 1 <= j && j + 1 < |clv| && Cube(clv, |clv|) && Cube(fv, |clv|) && 0 <= i < |clv| && 0 <= ii < |clv|
    requires cl1 <= cl2 && MonoCell(cl1, clv, fv, j, i, ii)
    ensures MonoCell(cl2, clv, fv, j, i, ii)
  {
    if i < ii {
      LoggedGrows(cl1, cl2, [clv[j][i][ii].Neg(), clv[j + 1][i][ii]]);
    }
    LoggedGrows(cl1, cl2, [fv[j][i][ii].Neg(), fv[j + 1][i][ii]]);
  }

  /** The step clauses of row i of layer j. */
  ghost predicate StepRow(cl: seq<seq<Lit>>, adj: Adj, clv: seq<seq<seq<Lit>>>, fv: seq<seq<seq<Lit>>>, j: int, i: int)
    requires InRange(adj) && Cube(clv, |adj|) && Cube(fv, |adj|) && 2 <= j < |adj| && 0 <= i < |adj|
  {
    forall ii | 0 <= ii < |adj| && i != ii && !Adjacent(adj, i, ii) ::
      Logged(cl, StepClause(clv[j][i][ii], fv[j - 1][i], adj[ii], i))
  }

  lemma {:induction false} StepRowGrows(cl1: seq<seq<Lit>>, cl2: seq<seq<Lit>>, adj: Adj, clv: seq<seq<seq<Lit>>>, fv: seq<seq<seq<Lit>>>, j: int, i: int)
    requires InRange(adj) && Cube(clv, |adj|) && Cube(fv, |adj|) && 2 <= j < |adj| && 0 <= i < |adj|
    requires cl1 <= cl2 && StepRow(cl1, adj, clv, fv, j, i)
    ensures StepRow(cl2, adj, clv, fv, j, i)
  {
    forall ii | 0 <= ii < |adj| && i != ii && !Adjacent(adj, i, ii)
      ensures Logged(cl2, StepClause(clv[j][i][ii], fv[j - 1][i], adj[ii], i))
    {
      LoggedGrows(cl1, cl2, StepClause(clv[j][i][ii], fv[j - 1][i], adj[ii], i));
    }
  }

  lemma {:induction false} StepLayersGrow(cl1: seq<seq<Lit>>, cl2: seq<seq<Lit>>, adj: Adj, clv: seq<seq<seq<Lit>>>, fv: seq<seq<seq<Lit>>>, j: int)
    requires InRange(adj) && Cube(clv, |adj|) && Cube(fv, |adj|) && j <= |adj|
    requires cl1 <= cl2 && forall q | 2 <= q < j :: StepLayer(cl1, adj, clv, fv, q)
    ensures forall q | 2 <= q < j :: StepLayer(cl2, adj, clv, fv, q)
  {
    forall q | 2 <= q < j ensures StepLayer(cl2, adj, clv, fv, q) {
      StepLayerGrows(cl1, cl2, adj, clv, fv, q);
    }
  }

  /** The clauses c[i][ii] implies cl[n - 1][i][ii] of row i. */
  ghost predicate FinalRow(cl: seq<seq<Lit>>, c: seq<seq<Lit>>, clv: seq<seq<seq<Lit>>>, i: int)
    requires Square(c, |c|) && Cube(clv, |c|) && 0 <= i < |c|
  {
    forall ii | i < ii < |c| :: Logged(cl, [c[i][ii].Neg(), clv[|c| - 1][i][ii]])
  }

  lemma {:induction false} FinalRowGrows(cl1: seq<seq<Lit>>, cl2: seq<seq<Lit>>, c: seq<seq<Lit>>, clv: seq<seq<seq<Lit>>>, i: int)
    requires Square(c, |c|) && Cube(clv, |c|) && 0 <= i < |c|
    requires cl1 <= cl2 && FinalRow(cl1, c, clv, i)
    ensures FinalRow(cl2, c, clv, i)
  {
    forall ii | i < ii < |c| ensures Logged(cl2, [c[i][ii].Neg(), clv[|c| - 1][i][ii]]) {
      LoggedGrows(cl1, cl2, [c[i][ii].Neg(), clv[|c| - 1][i][ii]]);
    }
  }

  // ---------------------------------------------------------------------
  // What the path-length encoding means

  /** p runs over at least one edge and its inner vertices are outside S. */
  ghost predicate LinkPath(adj: Adj, S: set<int>, p: seq<int>) {
    |p| >= 2 &&
    (forall k | 0 <= k < |p| - 1 :: Adjacent(adj, p[k], p[k + 1])) &&
    (forall k | 0 < k < |p| - 1 :: p[k] in Allowed(adj, S))
  }

  ghost predicate Linked(adj: Adj, S: set<int>, a: int, b: int) {
    exists p :: LinkPath(adj, S, p) && p[0] == a && p[|p| - 1] == b
  }

  /** Vertices joined by a path with inner vertices outside S are connected
      with respect to S. */
  lemma {:induction false} LinkedConnected(adj: Adj, S: set<int>, a: int, b: int)
    requires WellFormed(adj) && Linked(adj, S, a, b)
    ensures ConnectedWrt(adj, S, a, b)
  {
    var p :| LinkPath(adj, S, p) && p[0] == a && p[|p| - 1] == b;
    if |p| == 2 {
      assert Adjacent(adj, p[0], p[1]);
    } else {
      var A := Allowed(adj, S);
      var q := p[1..|p| - 1];
      assert IsPath(adj, q, A) by {
        forall k | 0 <= k < |q| - 1 ensures Adjacent(adj, q[k], q[k + 1]) {
          assert q[k] == p[k + 1] && q[k + 1] == p[k + 2];
        }
        forall k | 0 <= k < |q| ensures q[k] in A {
          assert q[k] == p[k + 1];
        }
      }
      PathInsideReach(adj, A, q);
      var r, w := p[1], p[|p| - 2];
      assert q[0] == r && q[|q| - 1] == w;
      assert r in Comp(adj, S, r) && w in Comp(adj, S, r);
      assert Adjacent(adj, a, r) && Adjacent(adj, w, b);
      assert Adjacent(adj, r, a);
      assert b in adj[w];
      assert a in CompWithNbh(adj, S, r);
      assert b in CompWithNbh(adj, S, r);
    }
  }

  /** A link to w extended by an edge to b, through an unselected w. */
  lemma {:induction false} LinkExtend(adj: Adj, S: set<int>, a: int, w: int, b: int)
    requires Linked(adj, S, a, w) && w in Allowed(adj, S) && Adjacent(adj, w, b)
    ensures Linked(adj, S, a, b)
  {
    var p :| LinkPath(adj, S, p) && p[0] == a && p[|p| - 1] == w;
    var p2 := p + [b];
    assert LinkPath(adj, S, p2) by {
      forall k | 0 <= k < |p2| - 1 ensures Adjacent(adj, p2[k], p2[k + 1]) {
        if k < |p| - 1 {
          assert p2[k] == p[k] && p2[k + 1] == p[k + 1];
        }
      }
      forall k | 0 < k < |p2| - 1 ensures p2[k] in Allowed(adj, S) {
        if k < |p| - 1 {
          assert p2[k] == p[k];
        }
      }
    }
  }

  /** In layer 1 a true path literal joins adjacent vertices. */
  lemma {:induction false} FirstLayerSound(adj: Adj, L: seq<seq<Lit>>, nv: int, t: set<int>, i: int, ii: int)
    requires WellFormed(adj) && Square(L, |adj|) && LayerFilled(adj, L, |adj|, 1, nv)
    requires 0 <= i < |adj| && 0 <= ii < |adj| && i != ii && Holds(L[i][ii], t)
    ensures Adjacent(adj, i, ii)
  {
    assert LayerEntry(adj, L, i, ii, 1) && LayerEntry(adj, L, ii, i, 1);
    assert Adjacent(adj, ii, i) ==> Adjacent(adj, i, ii);
  }

  /** A true step clause of a true path literal names a true f literal of
      the previous layer at a neighbour of ii. */
  lemma {:induction false} StepWitness(cl: seq<seq<Lit>>, adj: Adj, clv: seq<seq<seq<Lit>>>, fv: seq<seq<seq<Lit>>>, t: set<int>, j: int, i: int, ii: int)
      returns (w: int)
    requires InRange(adj) && Cube(clv, |adj|) && Cube(fv, |adj|) && 2 <= j < |adj|
    requires 0 <= i < |adj| && 0 <= ii < |adj| && i != ii && !Adjacent(adj, i, ii)
    requires StepLayer(cl, adj, clv, fv, j) && Models(t, cl)
    requires clv[j][i][ii].IsDef() && Holds(clv[j][i][ii], t)
    ensures w in adj[ii] && w != i && 0 <= w < |adj| && Holds(fv[j - 1][i][w], t)
  {
    var clause := StepClause(clv[j][i][ii], fv[j - 1][i], adj[ii], i);
    FeedersSpec(fv[j - 1][i], adj[ii], i);
    LoggedHolds(cl, clause, t);
    var q :| 0 <= q < |clause| && Holds(clause[q], t);
    NegFlipsTruth(clv[j][i][ii], t);
    assert q != 0;
    assert clause[q] == Feeders(fv[j - 1][i], adj[ii], i)[q - 1];
    var k :| 0 <= k < |adj[ii]| && adj[ii][k] != i && clause[q] == fv[j - 1][i][adj[ii][k]];
    w := adj[ii][k];
  }

  /** A true f literal means a true path literal at an unselected endpoint. */
  lemma {:induction false} FreeSound(cl: seq<seq<Lit>>, x: seq<Lit>, l: Lit, f: Lit, b: int, t: set<int>)
    requires 0 <= b < |x| && x[b].IsDef() && FreeCell(cl, x, l, f, b) && Models(t, cl) && Holds(f, t)
    ensures Holds(l, t) && !Holds(x[b], t)
  {
    LoggedHolds(cl, [f.Neg(), l], t);
    Satisfies2(t, f.Neg(), l);
    LoggedHolds(cl, [f.Neg(), x[b].Neg()], t);
    Satisfies2(t, f.Neg(), x[b].Neg());
    NegFlipsTruth(f, t);
    NegFlipsTruth(x[b], t);
  }

  /** In a model of the path-length encoding a true path literal of layer
      j >= 2 between non-neighbours steps back to a true path literal of
      layer j - 1 at an unselected neighbour w of ii. */
  lemma {:induction false} StepBack(cl: seq<seq<Lit>>, adj: Adj, x: seq<Lit>, c: seq<seq<Lit>>, clv: seq<seq<seq<Lit>>>, fv: seq<seq<seq<Lit>>>, nv: int, t: set<int>, j: int, i: int, ii: int)
      returns (w: int)
    requires WellFormed(adj) && Square(c, |adj|) && forall k | 0 <= k < |x| :: x[k].IsDef()
    requires PathEncoded(cl, adj, x, c, clv, fv, nv) && Models(t, cl)
    requires 2 <= j < |adj| && 0 <= i < |adj| && 0 <= ii < |adj| && i != ii && !Adjacent(adj, i, ii)
    requires Holds(clv[j][i][ii], t)
    ensures 0 <= w < |adj| && w != i && Holds(clv[j - 1][i][w], t)
    ensures w in Allowed(adj, Selected(x, t)) && Adjacent(adj, w, ii)
  {
    assert LayerDone(cl, adj, x, clv[j], fv[j], j, nv);
    assert LayerEntry(adj, clv[j], i, ii, j) && LayerEntry(adj, clv[j], ii, i, j);
    assert StepLayer(cl, adj, clv, fv, j);
    w := StepWitness(cl, adj, clv, fv, t, j, i, ii);
    assert LayerDone(cl, adj, x, clv[j - 1], fv[j - 1], j - 1, nv);
    assert FreeRow(cl, x, clv[j - 1][i], fv[j - 1][i], i, nv);
    FreeSound(cl, x, clv[j - 1][i][w], fv[j - 1][i][w], w, t);
    assert Adjacent(adj, ii, w);
  }

  /** In layer 1 of a model every true path literal joins neighbours. */
  lemma {:induction false} FirstLayerAdjacent(cl: seq<seq<Lit>>, adj: Adj, x: seq<Lit>, c: seq<seq<Lit>>, clv: seq<seq<seq<Lit>>>, fv: seq<seq<seq<Lit>>>, nv: int, t: set<int>, i: int, ii: int)
    requires WellFormed(adj) && Square(c, |adj|)
    requires PathEncoded(cl, adj, x, c, clv, fv, nv)
    requires 1 < |adj| && 0 <= i < |adj| && 0 <= ii < |adj| && i != ii && Holds(clv[1][i][ii], t)
    ensures Adjacent(adj, i, ii)
  {
    assert LayerDone(cl, adj, x, clv[1], fv[1], 1, nv);
    FirstLayerSound(adj, clv[1], nv, t, i, ii);
  }

  /** In a model of the path-length encoding, a true path literal of layer
      j joins its two vertices by a path whose inner vertices are not
      selected. */
  lemma {:induction false} LayerSound(cl: seq<seq<Lit>>, adj: Adj, x: seq<Lit>, c: seq<seq<Lit>>, clv: seq<seq<seq<Lit>>>, fv: seq<seq<seq<Lit>>>, nv: int, t: set<int>, j: int, i: int, ii: int)
    requires WellFormed(adj) && Square(c, |adj|) && forall k | 0 <= k < |x| :: x[k].IsDef()
    requires PathEncoded(cl, adj, x, c, clv, fv, nv) && Models(t, cl)
    requires 1 <= j < |adj| && 0 <= i < |adj| && 0 <= ii < |adj| && i != ii && Holds(clv[j][i][ii], t)
    ensures Linked(adj, Selected(x, t), i, ii)
    decreases j
  {
    var S := Selected(x, t);
    if Adjacent(adj, i, ii) {
      assert LinkPath(adj, S, [i, ii]);
    } else if j == 1 {
      FirstLayerAdjacent(cl, adj, x, c, clv, fv, nv, t, i, ii);
      assert false;
    } else {
      var w := StepBack(cl, adj, x, c, clv, fv, nv, t, j, i, ii);
      LayerSound(cl, adj, x, c, clv, fv, nv, t, j - 1, i, w);
      LinkExtend(adj, S, i, w, ii);
    }
  }

  /** Under the path-length encoding every two selected vertices are
      connected with respect to the selection. */
  lemma {:induction false} PathPairsConnected(cl: seq<seq<Lit>>, adj: Adj, x: seq<Lit>, c: seq<seq<Lit>>, clv: seq<seq<seq<Lit>>>, fv: seq<seq<seq<Lit>>>, nv: int, t: set<int>)
    requires WellFormed(adj) && |x| == |adj| && Square(c, |adj|) && ConnShape(adj, c)
    requires forall k | 0 <= k < |x| :: x[k].IsDef()
    requires CliqueLogged(cl, x, c) && PathEncoded(cl, adj, x, c, clv, fv, nv) && Models(t, cl)
    ensures forall v, u | v in Selected(x, t) && u in Selected(x, t) && v != u :: ConnectedWrt(adj, Selected(x, t), v, u)
  {
    SelectedPairsTrue(cl, adj, x, c, t);
    forall v, u | v in Selected(x, t) && u in Selected(x, t) && v != u
      ensures ConnectedWrt(adj, Selected(x, t), v, u)
    {
      FinalSound(cl, adj, x, c, clv, fv, nv, t, v, u);
    }
  }

  lemma {:induction false} SelectedPairsTrue(cl: seq<seq<Lit>>, adj: Adj, x: seq<Lit>, c: seq<seq<Lit>>, t: set<int>)
    requires |x| == |adj| && Square(c, |adj|) && ConnShape(adj, c) && CliqueLogged(cl, x, c) && Models(t, cl)
    requires forall k | 0 <= k < |x| :: x[k].IsDef()
    ensures forall v, u | v in Selected(x, t) && u in Selected(x, t) && v != u :: Holds(c[v][u], t)
  {
    ModelSelectionPairsConnected(cl, x, c, t);
  }

  /** A true connectivity literal c[a][b] of a model means a and b are
      connected with respect to the selection. */
  lemma {:induction false} FinalSound(cl: seq<seq<Lit>>, adj: Adj, x: seq<Lit>, c: seq<seq<Lit>>, clv: seq<seq<seq<Lit>>>, fv: seq<seq<seq<Lit>>>, nv: int, t: set<int>, a: int, b: int)
    requires WellFormed(adj) && Square(c, |adj|) && ConnShape(adj, c) && forall k | 0 <= k < |x| :: x[k].IsDef()
    requires PathEncoded(cl, adj, x, c, clv, fv, nv) && Models(t, cl)
    requires 0 <= a < |adj| && 0 <= b < |adj| && a != b && Holds(c[a][b], t)
    ensures ConnectedWrt(adj, Selected(x, t), a, b)
  {
    var lo, hi := if a < b then a else b, if a < b then b else a;
    assert c[lo][hi] == c[a][b] && c[lo][hi].IsDef();
    assert FinalLogged(cl, c, clv);
    LoggedHolds(cl, [c[lo][hi].Neg(), clv[|adj| - 1][lo][hi]], t);
    Satisfies2(t, c[lo][hi].Neg(), clv[|adj| - 1][lo][hi]);
    NegFlipsTruth(c[lo][hi], t);
    LayerSound(cl, adj, x, c, clv, fv, nv, t, |adj| - 1, lo, hi);
    LinkedConnected(adj, Selected(x, t), lo, hi);
    assert Adjacent(adj, lo, hi) ==> Adjacent(adj, hi, lo);
  }

  /** Under the path-length encoding every model's selection passes the
      exact PMC test: no model ever needs a bad separator blocked. */
  lemma {:induction false} PathModelsPassTest(cl: seq<seq<Lit>>, adj: Adj, x: seq<Lit>, c: seq<seq<Lit>>, y: seq<seq<Lit>>, enc: int, clv: seq<seq<seq<Lit>>>, fv: seq<seq<seq<Lit>>>, nv: int, t: set<int>, sol: seq<int>)
    requires WellFormed(adj) && |x| == |adj| && Square(c, |adj|) && Square(y, |adj|) && ConnShape(adj, c)
    requires forall k | 0 <= k < |x| :: x[k].IsDef()
    requires BasicEncoded(cl, adj, x, c, y, enc) && PathEncoded(cl, adj, x, c, clv, fv, nv) && Models(t, cl)
    requires NoRepeats(sol) && Elems(sol) == Selected(x, t)
    ensures PmcTest(adj, sol)
  {
    var P := Elems(sol);
    PathPairsConnected(cl, adj, x, c, clv, fv, nv, t);
    forall r | 0 <= r < |adj| && r !in sol ensures |Nbh(adj, Comp(adj, P, r))| != |sol| {
      if |Nbh(adj, Comp(adj, P, r))| == |sol| {
        NoRepeatsCard(sol);
        NbhOfCompInSeparator(adj, P, r);
        CardSubset(Nbh(adj, Comp(adj, P, r)), P);
        assert r in Allowed(adj, P);
        ModelSelectionHasNoFullComponent(cl, adj, x, c, y, enc, t);
        assert false;
      }
    }
  }

  /** Every literal of a step clause is known once its parts are. */
  lemma {:induction false} StepClauseKnown(l: Lit, fi: seq<Lit>, nbs: seq<int>, i: int, nv: int)
    requires KnownIn(l, nv) && Below(nbs, |fi|)
    requires forall b | 0 <= b < |fi| && b != i :: KnownIn(fi[b], nv)
    ensures forall q | 0 <= q < |StepClause(l, fi, nbs, i)| :: KnownIn(StepClause(l, fi, nbs, i)[q], nv)
  {
    var clause := StepClause(l, fi, nbs, i);
    FeedersSpec(fi, nbs, i);
    forall q | 0 <= q < |clause| ensures KnownIn(clause[q], nv) {
      if q > 0 {
        assert clause[q] == Feeders(fi, nbs, i)[q - 1];
      }
    }
  }
}
