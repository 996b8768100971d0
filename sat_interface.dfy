/** Literals, clause preprocessing and the incremental SAT solver interface. */
module SatInterface {

  /** The largest 32-bit signed integer; the literal with this value is constant true. */
  const TrueVal: int := 0x7fff_ffff

  function Abs(x: int): (r: nat)
    ensures r == x || r == -x
  {
    if x < 0 then -x else x
  }

  /** A literal is a signed variable number; 0 is the undefined literal and
      +-TrueVal are the constants true and false. */
  datatype Lit = Lit(value: int)
  {
    predicate IsDef() { value != 0 }
    predicate IsTrue() { value == TrueVal }
    predicate IsFalse() { value == -TrueVal }
    predicate IsConst() { IsTrue() || IsFalse() }

    /** Negation. */
    function Neg(): Lit {
      Lit(-value)
    }
  }

  /** `l` is a constant or a signed variable among the first `nv`. */
  predicate KnownIn(l: Lit, nv: int) {
    l.IsConst() || (l.IsDef() && Abs(l.value) <= nv)
  }

  /** `l` is a signed variable among the first `nv`. */
  predicate VarIn(l: Lit, nv: int) {
    l.IsDef() && Abs(l.value) <= nv
  }

  /** The default-constructed literal. */
  const Undef: Lit := Lit(0)
  const TrueLit: Lit := Lit(TrueVal)
  const FalseLit: Lit := Lit(-TrueVal)

  /** Truth of a literal when exactly the variables in `t` are true. */
  predicate Holds(l: Lit, t: set<int>) {
    if l.IsTrue() then true
    else if l.IsFalse() then false
    else if l.value > 0 then l.value in t
    else l.value < 0 && -l.value !in t
  }

  predicate Satisfies(t: set<int>, clause: seq<Lit>) {
    exists i | 0 <= i < |clause| :: Holds(clause[i], t)
  }

  /** A satisfied two-literal clause has a true literal. */
  lemma {:induction false} Satisfies2(t: set<int>, a: Lit, b: Lit)
    requires Satisfies(t, [a, b])
    ensures Holds(a, t) || Holds(b, t)
  {
    var k :| 0 <= k < 2 && Holds([a, b][k], t);
  }

  /** A satisfied three-literal clause has a true literal. */
  lemma {:induction false} Satisfies3(t: set<int>, a: Lit, b: Lit, d: Lit)
    requires Satisfies(t, [a, b, d])
    ensures Holds(a, t) || Holds(b, t) || Holds(d, t)
  {
    var k :| 0 <= k < 3 && Holds([a, b, d][k], t);
  }

  /** Negation keeps a literal defined, swaps the two constants and keeps a
      known literal known. */
  lemma {:induction false} NegShape(l: Lit)
    ensures l.Neg().IsDef() == l.IsDef() && (l == Undef ==> l.Neg() == Undef)
    ensures l.Neg().IsTrue() == l.IsFalse() && l.Neg().IsFalse() == l.IsTrue()
    ensures forall nv :: KnownIn(l, nv) ==> KnownIn(l.Neg(), nv)
  {
  }

  /** Negation is an involution that flips the truth of every defined literal. */
  lemma {:induction false} NegFlipsTruth(l: Lit, t: set<int>)
    requires l.IsDef()
    ensures l.Neg().Neg() == l
    ensures Holds(l.Neg(), t) == !Holds(l, t)
  {
  }

  /** The clause is trivially satisfied: it holds the constant true, or a
      literal and its negation. */
  ghost predicate Tautology(clause: seq<Lit>) {
    (exists i | 0 <= i < |clause| :: clause[i].IsTrue()) ||
    (exists i, j | 0 <= i < j < |clause| ::
       !clause[i].IsFalse() && !clause[j].IsFalse() && clause[i].value == -clause[j].value)
  }

  function WithoutFalse(clause: seq<Lit>): seq<Lit> {
    if clause == [] then []
    else if clause[0].IsFalse() then WithoutFalse(clause[1..])
    else [clause[0]] + WithoutFalse(clause[1..])
  }

  /** The clause a solver is handed: the single literal true for a tautology,
      otherwise the literals that are not constant false, in their order. */
  ghost function Processed(clause: seq<Lit>): seq<Lit> {
    if Tautology(clause) then [TrueLit] else WithoutFalse(clause)
  }

  lemma {:induction false} WithoutFalsePrefix(c: seq<Lit>, i: nat)
    requires i < |c|
    ensures WithoutFalse(c[..i+1]) ==
      WithoutFalse(c[..i]) + (if c[i].IsFalse() then [] else [c[i]])
  {
    if i == 0 {
      assert c[..1] == [c[0]];
      assert c[..1][1..] == [];
    } else {
      assert c[..i+1][1..] == c[1..][..i];
      assert c[..i][1..] == c[1..][..i-1];
      WithoutFalsePrefix(c[1..], i - 1);
    }
  }

  lemma {:induction false} WithoutFalseElements(c: seq<Lit>)
    ensures forall l :: l in WithoutFalse(c) <==> l in c && !l.IsFalse()
    decreases |c|
  {
    if c != [] {
      WithoutFalseElements(c[1..]);
      assert c == [c[0]] + c[1..];
    }
  }

  lemma {:induction false} WithoutFalseMeaning(c: seq<Lit>, t: set<int>)
    ensures Satisfies(t, WithoutFalse(c)) == Satisfies(t, c)
  {
    WithoutFalseElements(c);
    if Satisfies(t, c) {
      var i :| 0 <= i < |c| && Holds(c[i], t);
      assert c[i] in WithoutFalse(c);
    }
    var w := WithoutFalse(c);
    if Satisfies(t, w) {
      var j :| 0 <= j < |w| && Holds(w[j], t);
      assert w[j] in c;
      var i :| 0 <= i < |c| && c[i] == w[j];
      assert Holds(c[i], t);
    }
  }

  /** Processing a clause never changes which assignments satisfy it. */
  lemma {:induction false} ProcessedMeaning(clause: seq<Lit>, t: set<int>)
    requires forall i | 0 <= i < |clause| :: clause[i].IsDef()
    ensures Satisfies(t, Processed(clause)) == Satisfies(t, clause)
  {
    if Tautology(clause) {
      assert Holds(Processed(clause)[0], t);
      if i :| 0 <= i < |clause| && clause[i].IsTrue() {
        assert Holds(clause[i], t);
      } else {
        var i, j :| 0 <= i < j < |clause| && !clause[i].IsFalse() && !clause[j].IsFalse()
          && clause[i].value == -clause[j].value;
        assert Holds(clause[i], t) || Holds(clause[j], t);
      }
    } else {
      WithoutFalseMeaning(clause, t);
    }
  }

  /** A processed clause is [true] or contains no constant literal at all, and
      every literal it keeps comes from the clause. */
  lemma {:induction false} ProcessedShape(clause: seq<Lit>)
    ensures Processed(clause) == [TrueLit] ||
      forall l | l in Processed(clause) :: l in clause && !l.IsConst()
  {
    WithoutFalseElements(clause);
  }

  ghost predicate TrueBefore(c: seq<Lit>, i: nat)
    requires i <= |c|
  {
    exists k | 0 <= k < i :: c[k].IsTrue()
  }

  ghost predicate PairBefore(c: seq<Lit>, i: nat)
    requires i <= |c|
  {
    exists k, j | 0 <= k < j < i :: !c[k].IsFalse() && !c[j].IsFalse() && c[k].value == -c[j].value
  }

  /** The values of the literals before position i that are not constant false. */
  ghost function ValuesBefore(c: seq<Lit>, i: nat): set<int>
    requires i <= |c|
  {
    set k | 0 <= k < i && !c[k].IsFalse() :: c[k].value
  }

  lemma {:induction false} PairStep(c: seq<Lit>, i: nat)
    requires i < |c| && !PairBefore(c, i)
    requires c[i].IsFalse() || -c[i].value !in ValuesBefore(c, i)
    ensures !PairBefore(c, i + 1)
  {
    forall k, j | 0 <= k < j < i + 1 && !c[k].IsFalse() && !c[j].IsFalse()
      ensures c[k].value != -c[j].value
    {
      if j == i {
        assert c[k].value in ValuesBefore(c, i);
      }
    }
  }

  /** Removes constant-false literals and collapses tautologies to [true].
      Every literal must be defined. */
  method ProcessClause(clause: seq<Lit>) returns (r: seq<Lit>)
    requires forall i | 0 <= i < |clause| :: clause[i].IsDef()
    ensures r == Processed(clause)
  {
    var pro: seq<Lit> := [];
    var litValues: set<int> := {};
    for i := 0 to |clause|
      invariant pro == WithoutFalse(clause[..i])
      invariant litValues == ValuesBefore(clause, i)
      invariant !TrueBefore(clause, i) && !PairBefore(clause, i)
    {
      var lit := clause[i];
      WithoutFalsePrefix(clause, i);
      if lit.IsTrue() {
        assert Tautology(clause);
        return [TrueLit];
      } else if !lit.IsFalse() {
        pro := pro + [lit];
        if -lit.value in litValues {
          var k :| 0 <= k < i && !clause[k].IsFalse() && clause[k].value == -lit.value;
          assert Tautology(clause);
          return [TrueLit];
        }
        PairStep(clause, i);
        litValues := litValues + {lit.value};
      } else {
        PairStep(clause, i);
      }
      assert ValuesBefore(clause, i + 1) == ValuesBefore(clause, i) + (if lit.IsFalse() then {} else {lit.value});
    }
    assert clause[..|clause|] == clause;
    r := pro;
  }

  /** The solver as the model sees it: it hands out variables 1, 2, 3, ...,
      keeps every clause it is given (after processing, skipping those that
      became [true]), and answers Solve with a model of its clauses and the
      assumptions when it reports satisfiable. The SAT engine behind the
      interface is not modelled: which model it picks, and when it reports
      unsatisfiable, is left open. `added` records every clause as it was
      given; by ProcessedMeaning a model of the processed clauses satisfies
      those too, and the model's Solve promises both. */
  class SatSolver {
    var numVars: nat
    var clauses: seq<seq<Lit>>
    var added: seq<seq<Lit>>
    ghost var frozen: set<int>
    /** The variables that are true in the most recent model. */
    var model: set<int>

    /** A literal the backends accept: a constant or a signed existing variable. */
    predicate Known(l: Lit)
      reads this
    {
      KnownIn(l, numVars)
    }

    predicate IsVarLit(l: Lit)
      reads this
    {
      VarIn(l, numVars)
    }

    constructor()
      ensures numVars == 0 && clauses == [] && added == [] && frozen == {}
    {
      numVars := 0;
      clauses := [];
      added := [];
      frozen := {};
      model := {};
    }

    method NewVar() returns (l: Lit)
      modifies this`numVars
      ensures l == Lit(old(numVars) + 1) && numVars == old(numVars) + 1
      ensures clauses == old(clauses) && added == old(added) && frozen == old(frozen) && model == old(model)
    {
      numVars := numVars + 1;
      l := Lit(numVars);
    }

    method AddClause(clause: seq<Lit>)
      requires forall i | 0 <= i < |clause| :: Known(clause[i])
      modifies this`added, this`clauses
      ensures Processed(clause) == [TrueLit] ==> clauses == old(clauses)
      ensures Processed(clause) != [TrueLit] ==> clauses == old(clauses) + [Processed(clause)]
      ensures added == old(added) + [clause]
      ensures numVars == old(numVars) && frozen == old(frozen) && model == old(model)
    {
      var c := ProcessClause(clause);
      added := added + [clause];
      if !(|c| == 1 && c[0].IsTrue()) {
        clauses := clauses + [c];
      } else {
        assert c == [TrueLit];
      }
    }

    /** Keeps the variable from being eliminated by the solver's own simplification. */
    method FreezeVar(l: Lit)
      requires IsVarLit(l)
      modifies this`frozen
      ensures frozen == old(frozen) + {Abs(l.value)}
      ensures numVars == old(numVars) && clauses == old(clauses) && added == old(added) && model == old(model)
    {
      frozen := frozen + {Abs(l.value)};
    }

    predicate ModelOf(t: set<int>, assumptions: seq<Lit>)
      reads this
    {
      (forall i | 0 <= i < |clauses| :: Satisfies(t, clauses[i])) &&
      (forall i | 0 <= i < |added| :: Satisfies(t, added[i])) &&
      (forall i | 0 <= i < |assumptions| :: Holds(assumptions[i], t))
    }

    method Solve(assumptions: seq<Lit>, allowSimp: bool) returns (sat: bool)
      requires forall i | 0 <= i < |assumptions| :: IsVarLit(assumptions[i])
      modifies this`model
      ensures sat ==> ModelOf(model, assumptions)
      ensures numVars == old(numVars) && clauses == old(clauses) && added == old(added) && frozen == old(frozen)
    {
      var t: set<int> := *;
      var found: bool := *;
      if found && ModelOf(t, assumptions) {
        model := t;
        sat := true;
      } else {
        sat := false;
      }
    }

    method SolutionValue(l: Lit) returns (b: bool)
      requires Known(l)
      ensures b == Holds(l, model)
    {
      if l.IsTrue() {
        return true;
      }
      if l.IsFalse() {
        return false;
      }
      var v := Abs(l.value);
      b := v in model;
      if l.value < 0 {
        b := !b;
      }
    }
  }
}
