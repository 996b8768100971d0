/** The static cardinality network: Batcher-style half sorters and simplified
    mergers built with the bit-reversal trick, emitted as clauses into a
    `SatSolver`. */
module CardinalityNetwork {
  import opened Wrappers
  import opened SatInterface
  import opened Cardinality
  import opened NetworkValues

  /** Block `bi` of width `le` ends inside a sequence of `q` such blocks. */
  lemma {:induction false} BlockFits(bi: int, q: int, le: int)
    requires 0 <= bi && 1 <= le && bi * le < q * le
    ensures bi < q && bi * le + le <= q * le
  {
    assert q * le - (bi * le + le) == (q - bi - 1) * le;
  }

  /** A power of two of at least four is four times a power of two. */
  lemma {:induction false} Pow2Quarter(n: int)
    requires IsPow2(n) && 4 <= n
    ensures IsPow2(n / 4) && 4 * (n / 4) == n
  {
    assert IsPow2(n / 2);
    assert n / 4 == (n / 2) / 2;
  }

  /** A positive factor can be cancelled from both sides of `<=`. */
  lemma {:induction false} CancelLe(k: int, a: int, b: int)
    requires 1 <= k && k * a <= k * b
    ensures a <= b
  {
    assert k * b - k * a == k * (b - a);
  }

  /** Doubling the block width halves the number of blocks. */
  lemma {:induction false} Pow2Halve(le: int, q: int, n: int)
    requires IsPow2(q) && 1 <= le && le * q == n && le * 2 <= n
    ensures IsPow2(q / 2) && (le * 2) * (q / 2) == n
  {
    CancelLe(le, 2, q);
    HalveMul(le, q);
  }

  lemma {:induction false} HalveMul(le: int, q: int)
    requires q % 2 == 0
    ensures (le * 2) * (q / 2) == le * q
  {
    var h := q / 2;
    assert q == 2 * h;
  }

  /** Every literal of `s` is undefined, a constant, or a variable among the first `nv`. */
  ghost predicate KnownOrUndef(s: seq<Lit>, nv: int) {
    forall q | 0 <= q < |s| :: s[q] == Undef || KnownIn(s[q], nv)
  }

  /** No literal of the clause is undefined. */
  predicate Defined(clause: seq<Lit>) {
    forall q | 0 <= q < |clause| :: clause[q].IsDef()
  }

  /** No literal of any of the clauses is undefined. */
  predicate AllDefined(cls: seq<seq<Lit>>) {
    forall k | 0 <= k < |cls| :: Defined(cls[k])
  }

  /** Every literal of every clause is undefined or known. */
  ghost predicate AllKnownOrUndef(cls: seq<seq<Lit>>, nv: int) {
    forall k | 0 <= k < |cls| :: KnownOrUndef(cls[k], nv)
  }

  /** Signed variables and constants are defined literals. */
  lemma {:induction false} KnownDefined(s: seq<Lit>, nv: int)
    requires AllKnown(s, nv)
    ensures Defined(s)
  {
  }

  lemma {:induction false} AllVarsGrow(s: seq<Lit>, nv1: int, nv2: int)
    requires AllVars(s, nv1) && nv1 <= nv2
    ensures AllVars(s, nv2) && AllKnown(s, nv2) && KnownOrUndef(s, nv2)
  {
  }

  lemma {:induction false} AllKnownGrow(s: seq<Lit>, nv1: int, nv2: int)
    requires AllKnown(s, nv1) && nv1 <= nv2
    ensures AllKnown(s, nv2) && KnownOrUndef(s, nv2)
  {
  }

  lemma {:induction false} KnownOrUndefGrow(s: seq<Lit>, nv1: int, nv2: int)
    requires KnownOrUndef(s, nv1) && nv1 <= nv2
    ensures KnownOrUndef(s, nv2)
  {
  }

  /** A permutation keeps every literal a variable. */
  lemma {:induction false} AllVarsPerm(s1: seq<Lit>, s2: seq<Lit>, nv: int)
    requires multiset(s1) == multiset(s2) && AllVars(s1, nv)
    ensures AllVars(s2, nv)
  {
    forall q | 0 <= q < |s2|
      ensures VarIn(s2[q], nv)
    {
      assert s2[q] in multiset(s1);
    }
  }

  /** A permutation keeps every literal undefined or known. */
  lemma {:induction false} KnownOrUndefPerm(s1: seq<Lit>, s2: seq<Lit>, nv: int)
    requires multiset(s1) == multiset(s2) && KnownOrUndef(s1, nv)
    ensures KnownOrUndef(s2, nv)
  {
    forall q | 0 <= q < |s2|
      ensures s2[q] == Undef || KnownIn(s2[q], nv)
    {
      assert s2[q] in multiset(s1);
    }
  }

  /** Every clause of `cs` was handed to the solver. */
  ghost predicate AllLogged(cl: seq<seq<Lit>>, cs: seq<seq<Lit>>)
    decreases |cs|
  {
    cs == [] || (Logged(cl, cs[0]) && AllLogged(cl, cs[1..]))
  }

  lemma {:induction false} AllLoggedAt(cl: seq<seq<Lit>>, cs: seq<seq<Lit>>, k: int)
    requires AllLogged(cl, cs) && 0 <= k < |cs|
    ensures Logged(cl, cs[k])
    decreases k
  {
    if k > 0 {
      AllLoggedAt(cl, cs[1..], k - 1);
    }
  }

  lemma {:induction false} AllLoggedIn(cl: seq<seq<Lit>>, cs: seq<seq<Lit>>)
    requires forall k | 0 <= k < |cs| :: Logged(cl, cs[k])
    ensures AllLogged(cl, cs)
    decreases |cs|
  {
    if cs != [] {
      assert forall k | 0 <= k < |cs[1..]| :: cs[1..][k] == cs[k + 1];
      AllLoggedIn(cl, cs[1..]);
    }
  }

  lemma {:induction false} AllLoggedGrows(cl1: seq<seq<Lit>>, cl2: seq<seq<Lit>>, cs: seq<seq<Lit>>)
    requires cl1 <= cl2 && AllLogged(cl1, cs)
    ensures AllLogged(cl2, cs)
    decreases |cs|
  {
    if cs != [] {
      LoggedGrows(cl1, cl2, cs[0]);
      AllLoggedGrows(cl1, cl2, cs[1..]);
    }
  }

  /** The six clauses of a two-input comparator with inputs `a`, `b` that
      force `x` to their "or" and `y` to their "and". */
  function ComparatorClauses(a: Lit, b: Lit, x: Lit, y: Lit): (r: seq<seq<Lit>>)
    ensures |r| == 6
  {
    [[a.Neg(), b.Neg(), y], [a.Neg(), x], [b.Neg(), x], [a, b, x.Neg()], [a, y.Neg()], [b, y.Neg()]]
  }

  /** The comparator's six clauses were handed to the solver. */
  ghost predicate Comparator(cl: seq<seq<Lit>>, a: Lit, b: Lit, x: Lit, y: Lit) {
    AllLogged(cl, ComparatorClauses(a, b, x, y))
  }

  lemma {:induction false} ComparatorGrows(cl1: seq<seq<Lit>>, cl2: seq<seq<Lit>>, a: Lit, b: Lit, x: Lit, y: Lit)
    requires cl1 <= cl2 && Comparator(cl1, a, b, x, y)
    ensures Comparator(cl2, a, b, x, y)
  {
    AllLoggedGrows(cl1, cl2, ComparatorClauses(a, b, x, y));
  }

  /** In every model of the clauses, a comparator's outputs are the two
      inputs sorted in decreasing order: the larger is their "or", the
      smaller their "and". */
  lemma {:induction false} ComparatorSorts(cl: seq<seq<Lit>>, t: set<int>, a: Lit, b: Lit, x: Lit, y: Lit)
    requires Comparator(cl, a, b, x, y) && Models(t, cl)
    requires a.IsDef() && b.IsDef() && x.IsDef() && y.IsDef()
    ensures Holds(x, t) <==> Holds(a, t) || Holds(b, t)
    ensures Holds(y, t) <==> Holds(a, t) && Holds(b, t)
    ensures SortsTwo(t, a, b, x, y)
  {
    ComparatorHolds(cl, t, a, b, x, y);
    NegFlipsTruth(a, t);
    NegFlipsTruth(b, t);
    NegFlipsTruth(x, t);
    NegFlipsTruth(y, t);
    OrClauses(Holds(a, t), Holds(b, t), Holds(x, t), Holds(a.Neg(), t), Holds(b.Neg(), t), Holds(x.Neg(), t));
    AndClauses(Holds(a, t), Holds(b, t), Holds(y, t), Holds(a.Neg(), t), Holds(b.Neg(), t), Holds(y.Neg(), t));
  }

  /** Under `t`, `x` is the "or" and `y` the "and" of `a` and `b`. */
  ghost predicate SortsTwo(t: set<int>, a: Lit, b: Lit, x: Lit, y: Lit) {
    Holds(x, t) == (Holds(a, t) || Holds(b, t)) && Holds(y, t) == (Holds(a, t) && Holds(b, t))
  }

  /** The six clauses of a comparator, each holding in a model of the log. */
  lemma {:induction false} ComparatorHolds(cl: seq<seq<Lit>>, t: set<int>, a: Lit, b: Lit, x: Lit, y: Lit)
    requires Comparator(cl, a, b, x, y) && Models(t, cl)
    ensures Holds(a.Neg(), t) || Holds(b.Neg(), t) || Holds(y, t)
    ensures Holds(a.Neg(), t) || Holds(x, t)
    ensures Holds(b.Neg(), t) || Holds(x, t)
    ensures Holds(a, t) || Holds(b, t) || Holds(x.Neg(), t)
    ensures Holds(a, t) || Holds(y.Neg(), t)
    ensures Holds(b, t) || Holds(y.Neg(), t)
  {
    var cs := ComparatorClauses(a, b, x, y);
    ClauseHolds3(cl, cs, 0, t);
    ClauseHolds2(cl, cs, 1, t);
    ClauseHolds2(cl, cs, 2, t);
    ClauseHolds3(cl, cs, 3, t);
    ClauseHolds2(cl, cs, 4, t);
    ClauseHolds2(cl, cs, 5, t);
  }

  /** The three clauses of an "or" gate, read on truth values. */
  lemma {:induction false} OrClauses(av: bool, bv: bool, xv: bool, na: bool, nb: bool, nx: bool)
    requires na == !av && nb == !bv && nx == !xv
    requires (na || xv) && (nb || xv) && (av || bv || nx)
    ensures xv == (av || bv)
  {
  }

  /** The three clauses of an "and" gate, read on truth values. */
  lemma {:induction false} AndClauses(av: bool, bv: bool, yv: bool, na: bool, nb: bool, ny: bool)
    requires na == !av && nb == !bv && ny == !yv
    requires (na || nb || yv) && (av || ny) && (bv || ny)
    ensures yv == (av && bv)
  {
  }

  /** A logged two-literal clause holds in every model of the log. */
  lemma {:induction false} ClauseHolds2(cl: seq<seq<Lit>>, cs: seq<seq<Lit>>, k: int, t: set<int>)
    requires AllLogged(cl, cs) && 0 <= k < |cs| && |cs[k]| == 2 && Models(t, cl)
    ensures Holds(cs[k][0], t) || Holds(cs[k][1], t)
  {
    AllLoggedAt(cl, cs, k);
    LoggedHolds(cl, cs[k], t);
    assert cs[k] == [cs[k][0], cs[k][1]];
    Satisfies2(t, cs[k][0], cs[k][1]);
  }

  /** A logged three-literal clause holds in every model of the log. */
  lemma {:induction false} ClauseHolds3(cl: seq<seq<Lit>>, cs: seq<seq<Lit>>, k: int, t: set<int>)
    requires AllLogged(cl, cs) && 0 <= k < |cs| && |cs[k]| == 3 && Models(t, cl)
    ensures Holds(cs[k][0], t) || Holds(cs[k][1], t) || Holds(cs[k][2], t)
  {
    AllLoggedAt(cl, cs, k);
    LoggedHolds(cl, cs[k], t);
    assert cs[k] == [cs[k][0], cs[k][1], cs[k][2]];
    Satisfies3(t, cs[k][0], cs[k][1], cs[k][2]);
  }

  /** The clauses of a comparator of the simplified merger, in the
      source's order: with `d1` the outputs are at least the "or" (`x`) and,
      when `both`, the "and" (`y`) of `p` and `q`; with `d2`, at most. */
  function CompClauses(p: Lit, q: Lit, x: Lit, y: Lit, both: bool, d1: bool, d2: bool): seq<seq<Lit>> {
    (if d1 then (if both then [[p.Neg(), q.Neg(), y]] else []) + [[p.Neg(), x], [q.Neg(), x]] else []) +
    (if d2 then [[p, q, x.Neg()]] + (if both then [[p, y.Neg()], [q, y.Neg()]] else []) else [])
  }

  /** `l` is p, q, x or, when `both`, y, possibly negated. */
  ghost predicate CompLit(l: Lit, p: Lit, q: Lit, x: Lit, y: Lit, both: bool) {
    l == p || l == q || l == x || l == p.Neg() || l == q.Neg() || l == x.Neg() ||
    (both && (l == y || l == y.Neg()))
  }

  /** The clauses use only p, q, x and, when `both`, y, each possibly
      negated. */
  ghost predicate CompLits(cls: seq<seq<Lit>>, p: Lit, q: Lit, x: Lit, y: Lit, both: bool) {
    forall k, j | 0 <= k < |cls| && 0 <= j < |cls[k]| :: CompLit(cls[k][j], p, q, x, y, both)
  }

  /** A comparator's clauses use its inputs, its "or" output and, only when
      `both`, its "and" output, each possibly negated. */
  lemma {:induction false} CompClausesLits(p: Lit, q: Lit, x: Lit, y: Lit, both: bool, d1: bool, d2: bool)
    ensures CompLits(CompClauses(p, q, x, y, both, d1, d2), p, q, x, y, both)
  {
    var up := if d1 then (if both then [[p.Neg(), q.Neg(), y]] else []) + [[p.Neg(), x], [q.Neg(), x]] else [];
    var down := if d2 then [[p, q, x.Neg()]] + (if both then [[p, y.Neg()], [q, y.Neg()]] else []) else [];
    var cls := CompClauses(p, q, x, y, both, d1, d2);
    assert cls == up + down;
    assert CompLits(up, p, q, x, y, both);
    assert CompLits(down, p, q, x, y, both);
    forall k, j | 0 <= k < |cls| && 0 <= j < |cls[k]|
      ensures CompLit(cls[k][j], p, q, x, y, both)
    {
      if k < |up| {
        assert cls[k] == up[k];
      } else {
        assert cls[k] == down[k - |up|];
      }
    }
  }

  /** A literal over known or undefined ones is known or undefined, and
      defined when those are. */
  lemma {:induction false} CompLitKnown(l: Lit, p: Lit, q: Lit, x: Lit, y: Lit, both: bool, nv: int)
    requires CompLit(l, p, q, x, y, both)
    requires p == Undef || KnownIn(p, nv)
    requires q == Undef || KnownIn(q, nv)
    requires x == Undef || KnownIn(x, nv)
    requires y == Undef || KnownIn(y, nv)
    ensures l == Undef || KnownIn(l, nv)
    ensures p.IsDef() && q.IsDef() && x.IsDef() && (both ==> y.IsDef()) ==> l.IsDef()
  {
    NegShape(p);
    NegShape(q);
    NegShape(x);
    NegShape(y);
  }

  /** Clauses over the inputs and outputs of a comparator, each possibly
      negated, hold only undefined or known literals when those are, and only
      defined literals when those are. */
  lemma {:induction false} CompLitsKnown(cls: seq<seq<Lit>>, p: Lit, q: Lit, x: Lit, y: Lit, both: bool, nv: int)
    requires CompLits(cls, p, q, x, y, both)
    requires p == Undef || KnownIn(p, nv)
    requires q == Undef || KnownIn(q, nv)
    requires x == Undef || KnownIn(x, nv)
    requires y == Undef || KnownIn(y, nv)
    ensures AllKnownOrUndef(cls, nv)
    ensures p.IsDef() && q.IsDef() && x.IsDef() && (both ==> y.IsDef()) ==> AllDefined(cls)
  {
    forall k, j | 0 <= k < |cls| && 0 <= j < |cls[k]|
      ensures cls[k][j] == Undef || KnownIn(cls[k][j], nv)
      ensures p.IsDef() && q.IsDef() && x.IsDef() && (both ==> y.IsDef()) ==> cls[k][j].IsDef()
    {
      CompLitKnown(cls[k][j], p, q, x, y, both, nv);
    }
  }

  /** Appending the clauses of a comparator with both directions and both
      outputs logs that comparator. */
  lemma {:induction false} ComparatorAppended(cl: seq<seq<Lit>>, all: seq<seq<Lit>>, p: Lit, q: Lit, x: Lit, y: Lit, both: bool, d1: bool, d2: bool)
    requires both && d1 && d2 && all == cl + CompClauses(p, q, x, y, both, d1, d2)
    ensures Comparator(all, p, q, x, y)
  {
    var cls := CompClauses(p, q, x, y, both, d1, d2);
    assert cls == ComparatorClauses(p, q, x, y);
    forall k | 0 <= k < 6
      ensures Logged(all, cls[k])
    {
      assert all[|cl| + k] == cls[k];
    }
    AllLoggedIn(all, cls);
  }

  /** A non-zero multiple of `m` has magnitude at least `m`. */
  lemma {:induction false} MulBounds(m: int, e: int)
    requires 1 <= m
    ensures e >= 1 ==> m * e >= m
    ensures e <= -1 ==> m * e <= -m
  {
    if e >= 1 {
      assert m * e == m * (e - 1) + m;
    } else if e <= -1 {
      assert m * e == m * (e + 1) - m;
    }
  }

  lemma {:induction false} MulMod(m: int, d: int)
    requires 1 <= m
    ensures (m * d) % m == 0
  {
    var y := m * d;
    assert y == m * (y / m) + y % m;
    assert m * (d - y / m) == y % m;
    MulBounds(m, d - y / m);
  }

  /** Rounding `x` up to a multiple of `m` adds less than `m`: the padding
      loop of AddEqual stops at the first multiple of `m` from `x` on. */
  /** The smallest power of two above `k`: the counter width used for an exactly-`k` constraint. */
  method PowAbove(k: int) returns (w: int)
    ensures IsPow2(w) && 1 <= w && k < w
    ensures w == 1 || w / 2 <= k
  {
    w := 1;
    while w <= k
      invariant IsPow2(w) && 1 <= w
      invariant w == 1 || w / 2 <= k
    {
      assert (2 * w) / 2 == w;
      w := w * 2;
    }
  }

  lemma {:induction false} RoundUp(x: int, m: int)
    requires 0 <= x && 1 <= m
    ensures 0 <= (m - x % m) % m < m && (x + (m - x % m) % m) % m == 0
  {
    var r := x % m;
    var d := x / m;
    assert x == m * d + r;
    if r == 0 {
      assert (m - r) % m == 0;
    } else {
      assert (m - r) % m == m - r;
      assert x + (m - r) == m * (d + 1);
      MulMod(m, d + 1);
    }
  }

  /** Every literal of `s` negated, in place. */
  method Complemented(s: seq<Lit>) returns (r: seq<Lit>)
    ensures |r| == |s| && forall q | 0 <= q < |s| :: r[q] == s[q].Neg()
  {
    r := s;
    for q := 0 to |r|
      invariant |r| == |s|
      invariant forall p | 0 <= p < q :: r[p] == s[p].Neg()
      invariant forall p | q <= p < |r| :: r[p] == s[p]
    {
      r := r[q := r[q].Neg()];
    }
  }

  /** `i` divided by the power of two `j`, one halving per bit. */
  function Shifted(i: int, j: int): int
    requires IsPow2(j)
    decreases j
  {
    if j == 1 then i else Shifted(i / 2, j / 2)
  }

  lemma {:induction false} ShiftedHalf(i: int, j: int)
    requires IsPow2(j)
    ensures IsPow2(2 * j) && Shifted(i, 2 * j) == Shifted(i, j) / 2
    decreases j
  {
    assert (2 * j) / 2 == j;
    if j != 1 {
      ShiftedHalf(i / 2, j / 2);
      assert 2 * (j / 2) == j;
    }
  }

  /** One more bit: reversing over 2j places shifts the reversal over j
      places up and brings bit log2(j) of `i` in at the bottom. */
  lemma {:induction false} RevDouble(i: int, j: int)
    requires IsPow2(j) && 0 <= i
    ensures IsPow2(2 * j) && Rev(i, 2 * j) == 2 * Rev(i, j) + Shifted(i, j) % 2
    decreases j
  {
    assert (2 * j) / 2 == j;
    if j != 1 {
      RevDouble(i / 2, j / 2);
      assert 2 * (j / 2) == j;
    }
  }

  /** The pair that pair `i` trades places with: `i` with its log2(n) low
      bits reversed. Bit `i & j` of the source, for the power of two `j`,
      is read here as the low bit of `rest`, which holds `i / j`. */
  method Reversal(i: int, n: int) returns (u: int)
    requires IsPow2(n) && 0 <= i
    ensures u == Rev(i, n)
  {
    u := 0;
    var j := 1;
    var rest := i;
    while j < n
      invariant IsPow2(j) && j <= n && u == Rev(i, j) && rest == Shifted(i, j)
    {
      RevDouble(i, j);
      ShiftedHalf(i, j);
      u := u + u;
      if rest % 2 == 1 {
        u := u + 1;
      }
      rest := rest / 2;
      Pow2Step(j, n);
      j := j + j;
    }
  }

  /** Where pair `p` comes from once pairs 0 .. i-1 have been handled: a
      pair that was handled, or that a handled pair traded with, comes from
      its reversal; every other pair is still in place. */
  function Source(p: int, i: int, n: int): (r: int)
    requires IsPow2(n) && 0 <= p < n
    ensures 0 <= r < n
  {
    if p < i || Rev(p, n) < i then Rev(p, n) else p
  }

  /** Pair p of `r` is pair `Source(p, i, n)` of `c`. */
  ghost predicate PairsFrom(r: seq<Lit>, c: seq<Lit>, i: int, n: int)
    requires IsPow2(n) && |r| == |c| == 2 * n
  {
    forall p | 0 <= p < n :: r[2 * p] == c[2 * Source(p, i, n)] && r[2 * p + 1] == c[2 * Source(p, i, n) + 1]
  }

  /** The pair that pair `p` holds after pairs `i` and `u` traded places. */
  function Partner(p: int, i: int, u: int): int {
    if p == i then u else if p == u then i else p
  }

  /** Pair p of `r1` is pair `Partner(p, i, u)` of `r`, for every p. */
  ghost predicate Traded(r: seq<Lit>, r1: seq<Lit>, i: int, u: int, n: int)
    requires |r| == |r1| == 2 * n
  {
    forall p | 0 <= p < n && 0 <= Partner(p, i, u) < n ::
      r1[2 * p] == r[2 * Partner(p, i, u)] && r1[2 * p + 1] == r[2 * Partner(p, i, u) + 1]
  }

  /** Exchanging pairs `i` and `u` of `r` entry by entry trades them. */
  lemma {:induction false} PairsTraded(r: seq<Lit>, r1: seq<Lit>, i: int, u: int, n: int)
    requires 0 <= i < u < n && |r| == 2 * n
    requires r1 == r[2 * i := r[2 * u]][2 * u := r[2 * i]][2 * i + 1 := r[2 * u + 1]][2 * u + 1 := r[2 * i + 1]]
    ensures |r1| == 2 * n && Traded(r, r1, i, u, n)
  {
  }

  /** Where pair `p` comes from, before and after pair `i` is handled:
      `o` is the pair it then holds. */
  lemma {:induction false} SourceStep(p: int, i: int, n: int, u: int, o: int)
    requires IsPow2(n) && 0 <= i < n && 0 <= p < n && u == Rev(i, n)
    requires o == if i < u then Partner(p, i, u) else p
    ensures 0 <= o < n && Source(p, i + 1, n) == Source(o, i, n)
  {
    RevRev(i, n);
    RevRev(p, n);
  }

  /** Handling pair `i` (trading it with pair u = Rev(i, n) when that lies
      above) moves every pair to its place after pair `i`. */
  lemma {:induction false} SwapStep(r: seq<Lit>, r1: seq<Lit>, c: seq<Lit>, i: int, u: int, n: int)
    requires IsPow2(n) && |r| == |r1| == |c| == 2 * n && 0 <= i < n && u == Rev(i, n) && PairsFrom(r, c, i, n)
    requires if i < u then Traded(r, r1, i, u, n) else r1 == r
    ensures PairsFrom(r1, c, i + 1, n)
  {
    forall p | 0 <= p < n
      ensures r1[2 * p] == c[2 * Source(p, i + 1, n)] && r1[2 * p + 1] == c[2 * Source(p, i + 1, n) + 1]
    {
      SwapStepAt(r, r1, c, i, u, n, p);
    }
  }

  /** `SwapStep` for pair `p`. */
  lemma {:induction false} SwapStepAt(r: seq<Lit>, r1: seq<Lit>, c: seq<Lit>, i: int, u: int, n: int, p: int)
    requires IsPow2(n) && |r| == |r1| == |c| == 2 * n && 0 <= i < n && u == Rev(i, n) && PairsFrom(r, c, i, n)
    requires if i < u then Traded(r, r1, i, u, n) else r1 == r
    requires 0 <= p < n
    ensures r1[2 * p] == c[2 * Source(p, i + 1, n)] && r1[2 * p + 1] == c[2 * Source(p, i + 1, n) + 1]
  {
    var o := if i < u then Partner(p, i, u) else p;
    SourceStep(p, i, n, u, o);
    PairFromAt(r, c, i, n, o);
  }

  /** One instance of `PairsFrom`. */
  lemma {:induction false} PairFromAt(r: seq<Lit>, c: seq<Lit>, i: int, n: int, o: int)
    requires IsPow2(n) && |r| == |c| == 2 * n && PairsFrom(r, c, i, n) && 0 <= o < n
    ensures r[2 * o] == c[2 * Source(o, i, n)] && r[2 * o + 1] == c[2 * Source(o, i, n) + 1]
  {
  }

  /** The truth values of the literals of `c` under `t`. */
  function Vals(c: seq<Lit>, t: set<int>): (r: seq<bool>)
    ensures |r| == |c|
    decreases |c|
  {
    if |c| == 0 then [] else [Holds(c[0], t)] + Vals(c[1..], t)
  }

  /** Entry `q` of the truth values is the truth of literal `q`. */
  lemma {:induction false} ValsAt(c: seq<Lit>, t: set<int>, q: int)
    requires 0 <= q < |c|
    ensures Vals(c, t)[q] == Holds(c[q], t)
    decreases |c|
  {
    if q > 0 {
      ValsAt(c[1..], t, q - 1);
    }
  }

  /** A model of a log is a model of every earlier log. */
  lemma {:induction false} ModelsShrink(cl1: seq<seq<Lit>>, cl2: seq<seq<Lit>>, t: set<int>)
    requires cl1 <= cl2 && Models(t, cl2)
    ensures Models(t, cl1)
  {
    forall k | 0 <= k < |cl1|
      ensures Satisfies(t, cl1[k])
    {
      assert cl1[k] == cl2[k];
    }
  }

  /** The first stage of the merger in every model: comparator i sorted
      a[i], b[i] into c0[2i], c0[2i+1], and the bit-reversal permutation
      moved the pairs, giving the pairs stage of `Merged`. */
  lemma {:induction false} PairsVals(cl: seq<seq<Lit>>, a: seq<Lit>, b: seq<Lit>, c0: seq<Lit>, c1: seq<Lit>, n: int, t: set<int>)
    requires IsPow2(n) && |a| == |b| == n && |c0| == |c1| == 2 * n
    requires Defined(a) && Defined(b) && Defined(c0) && Models(t, cl)
    requires forall i | 0 <= i < n :: Comparator(cl, a[i], b[i], c0[2 * i], c0[2 * i + 1])
    requires PairsFrom(c1, c0, n, n)
    ensures Vals(c1, t) == Flat(Permuted(PairBlocks(Vals(a, t), Vals(b, t)), n))
  {
    forall i | 0 <= i < n
      ensures SortsTwo(t, a[i], b[i], c0[2 * i], c0[2 * i + 1])
    {
      ComparatorSorts(cl, t, a[i], b[i], c0[2 * i], c0[2 * i + 1]);
    }
    PairsValues(a, b, c0, c1, n, t);
  }

  /** `PairsVals` once every comparator is known to sort its pair. */
  lemma {:induction false} PairsValues(a: seq<Lit>, b: seq<Lit>, c0: seq<Lit>, c1: seq<Lit>, n: int, t: set<int>)
    requires IsPow2(n) && |a| == |b| == n && |c0| == |c1| == 2 * n
    requires forall i | 0 <= i < n :: SortsTwo(t, a[i], b[i], c0[2 * i], c0[2 * i + 1])
    requires PairsFrom(c1, c0, n, n)
    ensures Vals(c1, t) == Flat(Permuted(PairBlocks(Vals(a, t), Vals(b, t)), n))
  {
    var ps := Permuted(PairBlocks(Vals(a, t), Vals(b, t)), n);
    PermutedPairs(Vals(a, t), Vals(b, t));
    FlatTwoLength(ps);
    forall k | 0 <= k < 2 * n
      ensures Vals(c1, t)[k] == Flat(ps)[k]
    {
      PairsValueAt(a, b, c0, c1, n, t, k);
    }
  }

  /** One position of the pairs stage. */
  lemma {:induction false} PairsValueAt(a: seq<Lit>, b: seq<Lit>, c0: seq<Lit>, c1: seq<Lit>, n: int, t: set<int>, k: int)
    requires IsPow2(n) && |a| == |b| == n && |c0| == |c1| == 2 * n && 0 <= k < 2 * n
    requires forall i | 0 <= i < n :: SortsTwo(t, a[i], b[i], c0[2 * i], c0[2 * i + 1])
    requires PairsFrom(c1, c0, n, n)
    ensures |Flat(Permuted(PairBlocks(Vals(a, t), Vals(b, t)), n))| == 2 * n
    ensures Vals(c1, t)[k] == Flat(Permuted(PairBlocks(Vals(a, t), Vals(b, t)), n))[k]
  {
    var va, vb := Vals(a, t), Vals(b, t);
    var ps := Permuted(PairBlocks(va, vb), n);
    PermutedPairs(va, vb);
    FlatTwo(ps);
    var p := k / 2;
    var rho := Rev(p, n);
    ValsAt(c1, t, k);
    PairValAt(a, b, c0, c1, n, t, p);
    assert ps[p] == [va[rho] || vb[rho], va[rho] && vb[rho]];
    assert Flat(ps)[k] == ps[p][k % 2];
    if k % 2 == 0 {
      assert k == 2 * p;
    } else {
      assert k == 2 * p + 1;
    }
  }


  /** Pair `p` after the first stage: the "or" and the "and" of a[rho],
      b[rho] for rho = Rev(p, n). */
  lemma {:induction false} PairValAt(a: seq<Lit>, b: seq<Lit>, c0: seq<Lit>, c1: seq<Lit>, n: int, t: set<int>, p: int)
    requires IsPow2(n) && |a| == |b| == n && |c0| == |c1| == 2 * n
    requires forall i | 0 <= i < n :: SortsTwo(t, a[i], b[i], c0[2 * i], c0[2 * i + 1])
    requires PairsFrom(c1, c0, n, n) && 0 <= p < n
    ensures var rho := Rev(p, n);
      Holds(c1[2 * p], t) == (Vals(a, t)[rho] || Vals(b, t)[rho]) &&
      Holds(c1[2 * p + 1], t) == (Vals(a, t)[rho] && Vals(b, t)[rho])
  {
    var rho := Rev(p, n);
    assert SortsTwo(t, a[rho], b[rho], c0[2 * rho], c0[2 * rho + 1]);
    ValsAt(a, t, rho);
    ValsAt(b, t, rho);
    assert Source(p, n, n) == rho;
  }

  /** The comparators of one block `v0` of width 2h of a level: comparator j
      takes v0[j+1], v0[j+h] to v[2j+1] (the "or") and v[2j+2] (the "and");
      the ends stay. */
  ghost predicate StepLogged(cl: seq<seq<Lit>>, v0: seq<Lit>, v: seq<Lit>, h: int) {
    2 <= h && |v0| == |v| == 2 * h && v[0] == v0[0] && v[2 * h - 1] == v0[2 * h - 1] &&
    forall j | 0 <= j < h - 1 :: Comparator(cl, v0[j + 1], v0[j + h], v[2 * j + 1], v[2 * j + 2])
  }

  /** In every model, the block's comparators compute `MergeStep`. */
  lemma {:induction false} StepLoggedSorts(cl: seq<seq<Lit>>, v0: seq<Lit>, v: seq<Lit>, h: int, t: set<int>)
    requires StepLogged(cl, v0, v, h) && Defined(v0) && Defined(v) && Models(t, cl)
    ensures Vals(v, t) == MergeStep(Vals(v0, t))
  {
    forall j | 0 <= j < h - 1
      ensures SortsTwo(t, v0[j + 1], v0[j + h], v[2 * j + 1], v[2 * j + 2])
    {
      ComparatorSorts(cl, t, v0[j + 1], v0[j + h], v[2 * j + 1], v[2 * j + 2]);
    }
    StepValues(v0, v, h, t);
  }

  /** `StepLoggedSorts` once every comparator is known to sort its pair. */
  lemma {:induction false} StepValues(v0: seq<Lit>, v: seq<Lit>, h: int, t: set<int>)
    requires 2 <= h && |v0| == |v| == 2 * h && v[0] == v0[0] && v[2 * h - 1] == v0[2 * h - 1]
    requires forall j | 0 <= j < h - 1 :: SortsTwo(t, v0[j + 1], v0[j + h], v[2 * j + 1], v[2 * j + 2])
    ensures Vals(v, t) == MergeStep(Vals(v0, t))
  {
    var w0 := Vals(v0, t);
    forall k | 0 <= k < 2 * h
      ensures Vals(v, t)[k] == MergeStep(w0)[k]
    {
      ValsAt(v, t, k);
      StepValAt(v0, v, h, t, k);
    }
  }

  /** `StepValues` at entry `k`. */
  lemma {:induction false} StepValAt(v0: seq<Lit>, v: seq<Lit>, h: int, t: set<int>, k: int)
    requires 2 <= h && |v0| == |v| == 2 * h && v[0] == v0[0] && v[2 * h - 1] == v0[2 * h - 1]
    requires forall j | 0 <= j < h - 1 :: SortsTwo(t, v0[j + 1], v0[j + h], v[2 * j + 1], v[2 * j + 2])
    requires 0 <= k < 2 * h
    ensures Holds(v[k], t) == StepAt(Vals(v0, t), k)
  {
    if k == 0 || k == 2 * h - 1 {
      ValsAt(v0, t, k);
    } else {
      var j := (k - 1) / 2;
      if k % 2 == 0 {
        j := (k - 2) / 2;
      }
      StepSortsPair(v0, v, h, t, j);
    }
  }

  /** The two inner entries that comparator `j` of a block sets. */
  lemma {:induction false} StepSortsPair(v0: seq<Lit>, v: seq<Lit>, h: int, t: set<int>, j: int)
    requires 2 <= h && |v0| == |v| == 2 * h && 0 <= j < h - 1
    requires SortsTwo(t, v0[j + 1], v0[j + h], v[2 * j + 1], v[2 * j + 2])
    ensures Holds(v[2 * j + 1], t) == StepAt(Vals(v0, t), 2 * j + 1)
    ensures Holds(v[2 * j + 2], t) == StepAt(Vals(v0, t), 2 * j + 2)
  {
    ValsAt(v0, t, j + 1);
    ValsAt(v0, t, j + h);
    StepPair(Vals(v0, t), h, j);
  }

  /** The first `i` entries of `c` are, in every model of `cl`, the level of
      width `w` of the first `i` entries of `c0`. */
  ghost predicate LevelDone(cl: seq<seq<Lit>>, c0: seq<Lit>, c: seq<Lit>, i: int, w: int) {
    2 <= w && 0 <= i <= |c0| && i <= |c| && Multiple(i, w) &&
    forall t | Models(t, cl) :: Vals(c[..i], t) == Level(Vals(c0[..i], t), w)
  }

  /** One more block, whose comparators are logged, extends a level. */
  lemma {:induction false} LevelDoneStep(cl1: seq<seq<Lit>>, cl2: seq<seq<Lit>>, c0: seq<Lit>, c: seq<Lit>, c1: seq<Lit>, i: int, h: int)
    requires cl1 <= cl2 && LevelDone(cl1, c0, c, i, 2 * h) && i + 2 * h <= |c0| == |c| == |c1|
    requires c1[..i] == c[..i] && Defined(c0) && Defined(c1)
    requires StepLogged(cl2, c0[i..i + 2 * h], c1[i..i + 2 * h], h)
    ensures LevelDone(cl2, c0, c1, i + 2 * h, 2 * h)
  {
    var w := 2 * h;
    MultipleAdd(i, w, w);
    assert Multiple(w - w, w);
    forall t | Models(t, cl2)
      ensures Vals(c1[..i + w], t) == Level(Vals(c0[..i + w], t), w)
    {
      ModelsShrink(cl1, cl2, t);
      StepLoggedSorts(cl2, c0[i..i + w], c1[i..i + w], h, t);
      ValsPrefix(c0, i, i + w, t);
      ValsPrefix(c1, i, i + w, t);
      LevelJoinValues(Vals(c0[..i], t), Vals(c0[i..i + w], t), Vals(c1[..i], t), Vals(c1[i..i + w], t),
        Vals(c0[..i + w], t), Vals(c1[..i + w], t), w);
    }
  }

  /** A level that is right up to `x0`, followed by a block `y0` of width
      `w` that becomes its merge step, is right up to the end of the block. */
  lemma {:induction false} LevelJoinValues(x0: seq<bool>, y0: seq<bool>, x1: seq<bool>, y1: seq<bool>, v0: seq<bool>, v1: seq<bool>, w: int)
    requires 2 <= w && Multiple(|x0|, w) && |y0| == w
    requires v0 == x0 + y0 && v1 == x1 + y1 && x1 == Level(x0, w) && y1 == MergeStep(y0)
    ensures Multiple(|v0|, w) && v1 == Level(v0, w)
  {
    LevelSnoc(x0, y0, w);
  }

  /** The truth values of a longer prefix extend those of a shorter one. */
  lemma {:induction false} ValsPrefix(c: seq<Lit>, i: int, j: int, t: set<int>)
    requires 0 <= i <= j <= |c|
    ensures Vals(c[..j], t) == Vals(c[..i], t) + Vals(c[i..j], t)
  {
    assert c[..j] == c[..i] + c[i..j];
    ValsAppend(c[..i], c[i..j], t);
  }

  /** The truth values of a concatenation, part by part. */
  lemma {:induction false} ValsAppend(x: seq<Lit>, y: seq<Lit>, t: set<int>)
    ensures Vals(x + y, t) == Vals(x, t) + Vals(y, t)
    decreases |x|
  {
    if |x| > 0 {
      assert (x + y)[1..] == x[1..] + y;
      ValsAppend(x[1..], y, t);
    } else {
      assert x + y == y;
    }
  }

  /** The comparators `HMergeLayer` logged for the block at offset `i`, on
      the slots `FreshBlock` then handed out, are the block's `StepLogged`. */
  lemma {:induction false} BlockLogged(cl: seq<seq<Lit>>, c: seq<Lit>, c1: seq<Lit>, av1: seq<Lit>, av2: seq<Lit>, fv: int, i: int, h: int)
    requires 2 <= h && 0 <= i && i + 2 * h <= |c| == |c1| && 0 <= fv
    requires fv + 2 * h - 2 <= |av1| <= |av2| && av2[..|av1|] == av1
    requires LayerLogged(cl, c, i, h, av1, fv, h - 1)
    requires forall p | 0 <= p < |c1| && !(i + 1 <= p < i + 2 * h - 1) :: c1[p] == c[p]
    requires forall p | i + 1 <= p < i + 2 * h - 1 :: c1[p] == av2[fv + p - i - 1]
    ensures StepLogged(cl, c[i..i + 2 * h], c1[i..i + 2 * h], h) && c1[..i] == c[..i] && c1[i + 2 * h..] == c[i + 2 * h..]
  {
    var v0 := c[i..i + 2 * h];
    var v := c1[i..i + 2 * h];
    forall j | 0 <= j < h - 1
      ensures Comparator(cl, v0[j + 1], v0[j + h], v[2 * j + 1], v[2 * j + 2])
    {
      LayerLoggedAt(cl, c, i, h, av1, fv, h - 1, j);
      assert v[2 * j + 1] == c1[i + 2 * j + 1] == av2[fv + 2 * j] == av1[fv + 2 * j];
      assert v[2 * j + 2] == c1[i + 2 * j + 2] == av2[fv + 2 * j + 1] == av1[fv + 2 * j + 1];
    }
  }

  /** The first `j` comparators of the block at offset `i` with halves of
      width `h` are logged: comparator j' takes c[i+j'+1] and c[i+j'+h] to
      the slots av[fv+2j'] and av[fv+2j'+1]. */
  ghost predicate LayerLogged(cl: seq<seq<Lit>>, c: seq<Lit>, i: int, h: int, av: seq<Lit>, fv: int, j: int)
    decreases j
  {
    j <= 0 ||
    (LayerLogged(cl, c, i, h, av, fv, j - 1) && 0 <= i && 0 <= fv && 1 <= h && i + j - 1 + h < |c| && fv + 2 * j - 1 < |av| &&
     Comparator(cl, c[i + j], c[i + j - 1 + h], av[fv + 2 * j - 2], av[fv + 2 * j - 1]))
  }

  lemma {:induction false} LayerLoggedAt(cl: seq<seq<Lit>>, c: seq<Lit>, i: int, h: int, av: seq<Lit>, fv: int, j: int, k: int)
    requires LayerLogged(cl, c, i, h, av, fv, j) && 0 <= k < j
    ensures 0 <= i && 0 <= fv && 1 <= h && i + k + h < |c| && fv + 2 * k + 1 < |av|
    ensures Comparator(cl, c[i + k + 1], c[i + k + h], av[fv + 2 * k], av[fv + 2 * k + 1])
    decreases j
  {
    if k < j - 1 {
      LayerLoggedAt(cl, c, i, h, av, fv, j - 1, k);
    }
  }

  /** Logged comparators stay logged in a longer log with more slots. */
  lemma {:induction false} LayerLoggedGrows(cl1: seq<seq<Lit>>, cl2: seq<seq<Lit>>, c: seq<Lit>, i: int, h: int,
                                            av1: seq<Lit>, av2: seq<Lit>, fv: int, j: int)
    requires LayerLogged(cl1, c, i, h, av1, fv, j) && cl1 <= cl2 && |av1| <= |av2| && av2[..|av1|] == av1
    ensures LayerLogged(cl2, c, i, h, av2, fv, j)
    decreases j
  {
    if j > 0 {
      LayerLoggedGrows(cl1, cl2, c, i, h, av1, av2, fv, j - 1);
      assert av2[fv + 2 * j - 2] == av1[fv + 2 * j - 2] && av2[fv + 2 * j - 1] == av1[fv + 2 * j - 1];
      ComparatorGrows(cl1, cl2, c[i + j], c[i + j - 1 + h], av1[fv + 2 * j - 2], av1[fv + 2 * j - 1]);
    }
  }

  /** The block at offset `i`, once `HMergeLayer` logged its comparators and
      `FreshBlock` handed out its slots, extends the level. */
  lemma {:induction false} BlockStep(cl1: seq<seq<Lit>>, cl2: seq<seq<Lit>>, c0: seq<Lit>, c: seq<Lit>, c1: seq<Lit>,
                  av1: seq<Lit>, av2: seq<Lit>, fv: int, i: int, h: int, w: int)
    requires 2 <= h && w == 2 * h && 0 <= i && i + w <= |c0| == |c| == |c1| && 0 <= fv
    requires cl1 <= cl2 && LevelDone(cl1, c0, c, i, w) && Defined(c0) && Defined(c1)
    requires forall p | i <= p < |c| :: c[p] == c0[p]
    requires LayerLogged(cl2, c, i, h, av1, fv, h - 1) && |av1| <= |av2| && av2[..|av1|] == av1
    requires forall p | 0 <= p < |c1| && !(i + 1 <= p < i + w - 1) :: c1[p] == c[p]
    requires forall p | i + 1 <= p < i + w - 1 :: c1[p] == av2[fv + p - i - 1]
    ensures LevelDone(cl2, c0, c1, i + w, w)
  {
    LayerLoggedAt(cl2, c, i, h, av1, fv, h - 1, h - 2);
    BlockLogged(cl2, c, c1, av1, av2, fv, i, h);
    assert c[i..i + 2 * h] == c0[i..i + 2 * h];
    LevelDoneStep(cl1, cl2, c0, c, c1, i, h);
  }

  /** One more level of `HMergeLayers`: the levels below `2 * le` are done. */
  lemma {:induction false} UptoAdvance(cl1: seq<seq<Lit>>, cl2: seq<seq<Lit>>, c0: seq<Lit>, cp: seq<Lit>, c: seq<Lit>, le: int)
    requires cl1 <= cl2 && |c0| == |cp| == |c| && 4 <= le
    requires forall t | Models(t, cl1) :: Vals(cp, t) == Upto(Vals(c0, t), le)
    requires Multiple(|cp|, le) && forall t | Models(t, cl2) :: Vals(c, t) == Level(Vals(cp, t), le)
    ensures forall t | Models(t, cl2) :: Vals(c, t) == Upto(Vals(c0, t), 2 * le)
  {
    forall t | Models(t, cl2)
      ensures Vals(c, t) == Upto(Vals(c0, t), 2 * le)
    {
      ModelsShrink(cl1, cl2, t);
      UptoStep(Vals(c0, t), Vals(cp, t), Vals(c, t), le);
    }
  }

  /** With every level below `2 * |c0|` done, the merger's levels are done. */
  lemma {:induction false} UptoFinal(cl: seq<seq<Lit>>, c0: seq<Lit>, c: seq<Lit>, le: int)
    requires |c| == |c0| && IsPow2(|c0|) && IsPow2(le) && 4 <= le == 2 * |c0|
    requires forall t | Models(t, cl) :: Vals(c, t) == Upto(Vals(c0, t), le)
    ensures IsPow2(4) && forall t | Models(t, cl) :: Vals(c, t) == LayersFrom(Vals(c0, t), 4)
  {
    Pow2Four();
    forall t | Models(t, cl)
      ensures Vals(c, t) == LayersFrom(Vals(c0, t), 4)
    {
      UptoLayers(Vals(c0, t), le);
    }
  }

  /** The pairs stage, the permutation and the levels together are the
      merger of the two inputs' values. */
  lemma {:induction false} MergeDone(cl1: seq<seq<Lit>>, cl2: seq<seq<Lit>>, a: seq<Lit>, b: seq<Lit>,
                                     c0: seq<Lit>, c1: seq<Lit>, c: seq<Lit>, n: int)
    requires cl1 <= cl2 && IsPow2(n) && |a| == |b| == n && |c0| == |c1| == |c| == 2 * n
    requires Defined(a) && Defined(b) && Defined(c0)
    requires forall i | 0 <= i < n :: Comparator(cl1, a[i], b[i], c0[2 * i], c0[2 * i + 1])
    requires PairsFrom(c1, c0, n, n) && IsPow2(2 * n) && IsPow2(4)
    requires forall t | Models(t, cl2) :: Vals(c, t) == LayersFrom(Vals(c1, t), 4)
    ensures forall t | Models(t, cl2) :: Vals(c, t) == Merged(Vals(a, t), Vals(b, t))
  {
    forall t | Models(t, cl2)
      ensures Vals(c, t) == Merged(Vals(a, t), Vals(b, t))
    {
      ModelsShrink(cl1, cl2, t);
      PairsVals(cl1, a, b, c0, c1, n, t);
      MergedFrom(Vals(a, t), Vals(b, t), n);
    }
  }

  /** A single literal is sorted: its value is one `true` iff it holds. */
  lemma {:induction false} OneSorted(s: seq<Lit>, l: int)
    requires 0 <= l < |s|
    ensures forall t :: Vals([s[l]], t) == Ones(1, Count(s[l..l + 1], t))
  {
    forall t
      ensures Vals([s[l]], t) == Ones(1, Count(s[l..l + 1], t))
    {
      assert s[l..l + 1][..0] == [];
    }
  }

  /** Merging the sorted halves s[l..m] and s[m+1..r] sorts s[l..r]. */
  lemma {:induction false} SortDone(cl1: seq<seq<Lit>>, cl2: seq<seq<Lit>>, cl3: seq<seq<Lit>>, s: seq<Lit>,
                                    a: seq<Lit>, b: seq<Lit>, c: seq<Lit>, l: int, m: int, r: int, h: int)
    requires cl1 <= cl2 <= cl3 && 0 <= l <= m < r < |s| && m - l + 1 == h && r - m == h && IsPow2(h)
    requires |a| == |b| == h
    requires forall t | Models(t, cl1) :: Vals(a, t) == Ones(h, Count(s[l..m + 1], t))
    requires forall t | Models(t, cl2) :: Vals(b, t) == Ones(h, Count(s[m + 1..r + 1], t))
    requires forall t | Models(t, cl3) :: Vals(c, t) == Merged(Vals(a, t), Vals(b, t))
    ensures forall t | Models(t, cl3) :: Vals(c, t) == Ones(r - l + 1, Count(s[l..r + 1], t))
  {
    forall t | Models(t, cl3)
      ensures Vals(c, t) == Ones(r - l + 1, Count(s[l..r + 1], t))
    {
      ModelsShrink(cl1, cl3, t);
      ModelsShrink(cl2, cl3, t);
      SortDoneAt(s, a, b, c, l, m, r, h, t);
    }
  }

  /** The sorter's step for one assignment: merging the sorted halves sorts the whole range. */
  lemma {:induction false} SortDoneAt(s: seq<Lit>, a: seq<Lit>, b: seq<Lit>, c: seq<Lit>, l: int, m: int, r: int, h: int, t: set<int>)
    requires 0 <= l <= m < r < |s| && m - l + 1 == h && r - m == h && IsPow2(h) && |a| == |b| == h
    requires Vals(a, t) == Ones(h, Count(s[l..m + 1], t))
    requires Vals(b, t) == Ones(h, Count(s[m + 1..r + 1], t))
    requires Vals(c, t) == Merged(Vals(a, t), Vals(b, t))
    ensures Vals(c, t) == Ones(r - l + 1, Count(s[l..r + 1], t))
  {
    CountSplit(s, l, m, r, t);
    MergedOnes(Vals(a, t), Vals(b, t), Vals(c, t), Count(s[l..m + 1], t), Count(s[m + 1..r + 1], t), h);
  }

  lemma {:induction false} MergedOnes(va: seq<bool>, vb: seq<bool>, vc: seq<bool>, ca: int, cb: int, h: int)
    requires IsPow2(h) && 0 <= ca <= h && 0 <= cb <= h && va == Ones(h, ca) && vb == Ones(h, cb)
    requires vc == Merged(va, vb)
    ensures vc == Ones(2 * h, ca + cb)
  {
    MergedSorts(h, ca, cb);
  }

  /** What the clauses added after sorting keep, and what they give. */
  lemma {:induction false} SortedTail(cl1: seq<seq<Lit>>, cl2: seq<seq<Lit>>, cl3: seq<seq<Lit>>, input: seq<Lit>,
                                      pads: seq<Lit>, inp: seq<Lit>, full: seq<Lit>, out: seq<Lit>)
    requires cl1 <= cl2 <= cl3 && inp == input + pads && |full| == |inp| && out == full[..|input|] && Defined(inp)
    requires forall q | 0 <= q < |pads| :: Logged(cl1, [pads[q].Neg()])
    requires forall t | Models(t, cl2) :: Vals(full, t) == Ones(|inp|, Count(inp[0..|inp| - 1 + 1], t))
    requires |input| == 2 && |pads| == 0 ==> Comparator(cl2, inp[0], inp[1], full[0], full[1])
    ensures forall q | 0 <= q < |pads| :: Logged(cl3, [pads[q].Neg()])
    ensures |input| == 2 && |pads| == 0 ==> Comparator(cl3, input[0], input[1], out[0], out[1])
    ensures forall t | Models(t, cl3) :: Vals(out, t) == Ones(|input|, Count(input, t))
  {
    forall q | 0 <= q < |pads|
      ensures Logged(cl3, [pads[q].Neg()])
    {
      LoggedGrows(cl1, cl3, [pads[q].Neg()]);
    }
    if |input| == 2 && |pads| == 0 {
      ComparatorGrows(cl2, cl3, inp[0], inp[1], full[0], full[1]);
    }
    assert inp[0..|inp| - 1 + 1] == inp;
    assert pads == inp[|input|..];
    NetworkDone(cl2, cl3, input, pads, inp, full, out);
  }

  /** The padding, forced false, adds nothing to the count, and the first
      |input| sorted outputs count the true inputs. */
  lemma {:induction false} NetworkDone(cl2: seq<seq<Lit>>, cl3: seq<seq<Lit>>, input: seq<Lit>, pads: seq<Lit>,
                                       inp: seq<Lit>, full: seq<Lit>, out: seq<Lit>)
    requires cl2 <= cl3 && inp == input + pads && |full| == |inp| && out == full[..|input|] && Defined(pads)
    requires forall q | 0 <= q < |pads| :: Logged(cl3, [pads[q].Neg()])
    requires forall t | Models(t, cl2) :: Vals(full, t) == Ones(|inp|, Count(inp, t))
    ensures forall t | Models(t, cl3) :: Vals(out, t) == Ones(|input|, Count(input, t))
  {
    forall t | Models(t, cl3)
      ensures Vals(out, t) == Ones(|input|, Count(input, t))
    {
      ModelsShrink(cl2, cl3, t);
      PadsFalse(cl3, pads, t);
      CountAppend(input, pads, t);
      ValsTake(full, |input|, t);
    }
  }

  /** Literals forced false by unit clauses are false in every model. */
  lemma {:induction false} PadsFalse(cl: seq<seq<Lit>>, pads: seq<Lit>, t: set<int>)
    requires Models(t, cl) && Defined(pads)
    requires forall q | 0 <= q < |pads| :: Logged(cl, [pads[q].Neg()])
    ensures Count(pads, t) == 0
    decreases |pads|
  {
    if pads != [] {
      var last := pads[|pads| - 1];
      PadsFalse(cl, pads[..|pads| - 1], t);
      LoggedHolds(cl, [last.Neg()], t);
      NegFlipsTruth(last, t);
    }
  }

  /** The values of a prefix are the prefix of the values. */
  lemma {:induction false} ValsTake(c: seq<Lit>, n: int, t: set<int>)
    requires 0 <= n <= |c|
    ensures Vals(c[..n], t) == Vals(c, t)[..n]
  {
    forall q | 0 <= q < n
      ensures Vals(c[..n], t)[q] == Vals(c, t)[q]
    {
      ValsAt(c[..n], t, q);
      ValsAt(c, t, q);
    }
  }

  /** Sorted outputs, read one by one: output i holds iff more than i
      inputs hold, so a true output has only true outputs before it. */
  lemma {:induction false} SortedOutputs(output: seq<Lit>, input: seq<Lit>, t: set<int>)
    requires Vals(output, t) == Ones(|input|, Count(input, t))
    ensures |output| == |input|
    ensures forall i | 0 <= i < |output| :: Holds(output[i], t) <==> i < Count(input, t)
    ensures forall i, j | 0 <= i <= j < |output| :: Holds(output[j], t) ==> Holds(output[i], t)
  {
    forall i | 0 <= i < |output|
      ensures Holds(output[i], t) <==> i < Count(input, t)
    {
      ValsAt(output, t, i);
    }
  }

  /** Powers of two from 2 up are even. */
  lemma {:induction false} Pow2Even(n: int)
    requires IsPow2(n) && 2 <= n
    ensures n % 2 == 0
  {
  }

  /** A level done to the end. */
  lemma {:induction false} LevelDoneAll(cl: seq<seq<Lit>>, c0: seq<Lit>, c: seq<Lit>, w: int)
    requires |c| == |c0| && LevelDone(cl, c0, c, |c0|, w)
    ensures Multiple(|c0|, w) && forall t | Models(t, cl) :: Vals(c, t) == Level(Vals(c0, t), w)
  {
    assert c[..|c|] == c && c0[..|c0|] == c0;
  }

  /** A prefix of a prefix is a prefix. */
  lemma {:induction false} PrefixTrans(a: seq<Lit>, b: seq<Lit>, c: seq<Lit>)
    requires |a| <= |b| <= |c| && b[..|a|] == a && c[..|b|] == b
    ensures c[..|a|] == a
  {
    assert c[..|a|] == c[..|b|][..|a|];
  }

  /** Exchanging two entries keeps the multiset of a sequence. */
  lemma {:induction false} SwapKeeps(s: seq<Lit>, a: int, b: int)
    requires 0 <= a < |s| && 0 <= b < |s|
    ensures multiset(s[a := s[b]][b := s[a]]) == multiset(s)
  {
  }

  /** The bit-reversal permutation of the pairs (c[2i], c[2i+1]) of `c`. */
  method SwapPairs(c: seq<Lit>, n: int) returns (r: seq<Lit>)
    requires IsPow2(n) && |c| == 2 * n
    ensures |r| == |c| && multiset(r) == multiset(c) && PairsFrom(r, c, n, n)
    ensures n == 1 ==> r == c
  {
    r := c;
    for i := 0 to n
      invariant |r| == 2 * n && multiset(r) == multiset(c) && PairsFrom(r, c, i, n)
      invariant n == 1 ==> r == c
    {
      r := SwapStage(r, c, i, n);
    }
  }

  /** Pair `i` trades places with pair Rev(i, n) if that one comes later. */
  method SwapStage(r: seq<Lit>, c: seq<Lit>, i: int, n: int) returns (r1: seq<Lit>)
    requires IsPow2(n) && |r| == |c| == 2 * n && 0 <= i < n && PairsFrom(r, c, i, n)
    ensures |r1| == 2 * n && multiset(r1) == multiset(r) && PairsFrom(r1, c, i + 1, n)
    ensures n == 1 ==> r1 == r
  {
    var u := Reversal(i, n);
    r1 := r;
    if i < u {
      SwapKeeps(r1, 2 * i, 2 * u);
      r1 := r1[2 * i := r1[2 * u]][2 * u := r1[2 * i]];
      SwapKeeps(r1, 2 * i + 1, 2 * u + 1);
      r1 := r1[2 * i + 1 := r1[2 * u + 1]][2 * u + 1 := r1[2 * i + 1]];
      PairsTraded(r, r1, i, u, n);
    }
    SwapStep(r, r1, c, i, u, n);
  }

  class CardinalityNetworkBuilder {
    const solver: SatSolver
    /** The next unused auxiliary slot. */
    var freeVar: int
    /** Auxiliary slot `id` stands for variable `addVars[id]`. */
    var addVars: seq<Lit>

    ghost predicate Valid()
      reads this, solver
    {
      0 <= freeVar && AllVars(addVars, solver.numVars)
    }

    constructor(s: SatSolver)
      ensures solver == s && freeVar == 0 && addVars == [] && Valid()
    {
      solver := s;
      freeVar := 0;
      addVars := [];
    }

    /** The variable of auxiliary slot `id`; slots are filled with fresh
        solver variables on first use, so asking twice gives the same one. */
    method Var(id: int) returns (l: Lit)
      requires Valid() && 0 <= id
      modifies this`addVars, solver`numVars, solver`added, solver`clauses
      ensures Valid() && old(|addVars|) <= |addVars| && addVars[..old(|addVars|)] == old(addVars)
      ensures |addVars| == if id < old(|addVars|) then old(|addVars|) else id + 1
      ensures l == addVars[id] && VarIn(l, solver.numVars)
      ensures solver.numVars == old(solver.numVars) + |addVars| - old(|addVars|)
      ensures forall q | old(|addVars|) <= q < |addVars| ::
        addVars[q] == Lit(old(solver.numVars) + q - old(|addVars|) + 1)
      ensures solver.added == old(solver.added) && solver.frozen == old(solver.frozen)
    {
      while id >= |addVars|
        invariant Valid() && old(|addVars|) <= |addVars| && addVars[..old(|addVars|)] == old(addVars)
        invariant |addVars| <= if id < old(|addVars|) then old(|addVars|) else id + 1
        invariant solver.numVars == old(solver.numVars) + |addVars| - old(|addVars|)
        invariant forall q | old(|addVars|) <= q < |addVars| ::
          addVars[q] == Lit(old(solver.numVars) + q - old(|addVars|) + 1)
        invariant solver.added == old(solver.added) && solver.frozen == old(solver.frozen)
        decreases id - |addVars|
      {
        var v := solver.NewVar();
        addVars := addVars + [v];
      }
      l := addVars[id];
    }

    /** Hands `clause` to the solver when every literal in it is defined; the
        solver's clause preprocessing stops the program on an undefined one. */
    method EmitChecked(clause: seq<Lit>) returns (ok: bool)
      requires KnownOrUndef(clause, solver.numVars)
      modifies solver`numVars, solver`added, solver`clauses
      ensures ok <==> Defined(clause)
      ensures solver.added == if ok then old(solver.added) + [clause] else old(solver.added)
      ensures solver.numVars == old(solver.numVars) && solver.frozen == old(solver.frozen)
    {
      ok := Defined(clause);
      if ok {
        solver.AddClause(clause);
      }
    }

    /** The first stage of `HMerge`: comparator `i` sorts a[i], b[i] into
        the pair c[2i], c[2i+1] of fresh variables. */
    method HMergePairs(a: seq<Lit>, b: seq<Lit>, d1: bool, d2: bool) returns (c: seq<Lit>)
      requires Valid() && |a| == |b|
      requires AllKnown(a, solver.numVars) && AllKnown(b, solver.numVars)
      modifies this`freeVar, this`addVars, solver`numVars, solver`added, solver`clauses
      ensures Valid() && |c| == 2 * |a| && AllVars(c, solver.numVars)
      ensures old(solver.numVars) <= solver.numVars && old(solver.added) <= solver.added
      ensures d1 && d2 ==> forall i | 0 <= i < |a| :: Comparator(solver.added, a[i], b[i], c[2 * i], c[2 * i + 1])
    {
      var n := |a|;
      c := seq(2 * n, _ => Undef);
      for i := 0 to n
        invariant Valid() && |c| == 2 * n
        invariant forall q | 0 <= q < 2 * i :: VarIn(c[q], solver.numVars)
        invariant AllKnown(a, solver.numVars) && AllKnown(b, solver.numVars)
        invariant old(solver.numVars) <= solver.numVars && old(solver.added) <= solver.added
        invariant d1 && d2 ==> forall i' | 0 <= i' < i :: Comparator(solver.added, a[i'], b[i'], c[2 * i'], c[2 * i' + 1])
      {
        ghost var cl0 := solver.added;
        AllKnownGrow(a, old(solver.numVars), solver.numVars);
        var x, y := Compare(a[i], b[i], d1, d2);
        c := c[2 * i := x][2 * i + 1 := y];
        if d1 && d2 {
          forall i' | 0 <= i' < i
            ensures Comparator(solver.added, a[i'], b[i'], c[2 * i'], c[2 * i' + 1])
          {
            ComparatorGrows(cl0, solver.added, a[i'], b[i'], c[2 * i'], c[2 * i' + 1]);
          }
        }
      }
    }

    /** One comparator of `HMerge`: two fresh auxiliary variables `x`, `y`
        and (with both directions on) the clauses forcing `x` to be the "or"
        and `y` the "and" of `p` and `q`. */
    method Compare(p: Lit, q: Lit, d1: bool, d2: bool) returns (x: Lit, y: Lit)
      requires Valid() && solver.Known(p) && solver.Known(q)
      modifies this`freeVar, this`addVars, solver`numVars, solver`added, solver`clauses
      ensures Valid() && VarIn(x, solver.numVars) && VarIn(y, solver.numVars)
      ensures old(solver.numVars) <= solver.numVars && old(solver.added) <= solver.added
      ensures d1 && d2 ==> Comparator(solver.added, p, q, x, y)
    {
      x := Var(freeVar);
      freeVar := freeVar + 1;
      ghost var nv := solver.numVars;
      y := Var(freeVar);
      freeVar := freeVar + 1;
      assert nv <= solver.numVars;
      assert VarIn(x, solver.numVars) && solver.Known(p) && solver.Known(q);
      assert p.IsDef() && q.IsDef() && x.IsDef() && y.IsDef();
      var ok;
      if d1 && d2 {
        ok := EmitComparator(p, q, x, y, true, d1, d2);
      } else {
        ok := EmitCompChecked(p, q, x, y, true, d1, d2);
      }
    }

    /** The later stages of `HMerge`: for widths le = 4, 8, .., |c|, every
        block of width `le` merges its two sorted halves with the comparators
        of `HMergeLayer` and takes fresh variables for all but its first and
        last entries. */
    method HMergeLayers(c0: seq<Lit>, d1: bool, d2: bool) returns (c: seq<Lit>)
      requires Valid() && 2 <= |c0| && IsPow2(|c0|) && AllVars(c0, solver.numVars)
      modifies this`freeVar, this`addVars, solver`numVars, solver`added, solver`clauses
      ensures Valid() && |c| == |c0| && AllVars(c, solver.numVars)
      ensures old(solver.numVars) <= solver.numVars && old(solver.added) <= solver.added
      ensures |c0| == 2 ==> c == c0 && solver.added == old(solver.added)
      ensures d1 && d2 ==> forall t | Models(t, solver.added) :: Vals(c, t) == LayersFrom(Vals(c0, t), 4)
    {
      c := c0;
      var le := 4;
      assert IsPow2(le / 2);
      while le <= |c|
        invariant Valid() && |c| == |c0| && AllVars(c, solver.numVars)
        invariant 4 <= le && IsPow2(le) && (le == 4 || le <= 2 * |c|)
        invariant le == 4 ==> c == c0 && solver.added == old(solver.added)
        invariant old(solver.numVars) <= solver.numVars && old(solver.added) <= solver.added
        invariant d1 && d2 ==> forall t | Models(t, solver.added) :: Vals(c, t) == Upto(Vals(c0, t), le)
        decreases 2 * |c0| - le
      {
        ghost var cl0, cp := solver.added, c;
        c := HMergeLevel(c, le, d1, d2);
        if d1 && d2 {
          UptoAdvance(cl0, solver.added, c0, cp, c, le);
        }
        Pow2Double(le);
        le := le * 2;
      }
      if d1 && d2 {
        Pow2Step(|c0|, le);
        UptoFinal(solver.added, c0, c, le);
      }
    }

    /** One stage of `HMergeLayers`: the `q` blocks of width `le` in turn. */
    method HMergeLevel(c0: seq<Lit>, le: int, d1: bool, d2: bool) returns (c: seq<Lit>)
      requires Valid() && 4 <= le <= |c0| && IsPow2(le) && IsPow2(|c0|) && AllVars(c0, solver.numVars)
      modifies this`freeVar, this`addVars, solver`numVars, solver`added, solver`clauses
      ensures Valid() && |c| == |c0| && AllVars(c, solver.numVars)
      ensures old(solver.numVars) <= solver.numVars && old(solver.added) <= solver.added
      ensures d1 && d2 ==> Multiple(|c0|, le)
      ensures d1 && d2 ==> forall t | Models(t, solver.added) :: Vals(c, t) == Level(Vals(c0, t), le)
    {
      KnownDefined(c0, solver.numVars);
      Pow2Multiple(|c0|, le);
      Pow2Even(le);
      c := HMergeFrom(c0, c0, 0, le, d1, d2);
      if d1 && d2 {
        LevelDoneAll(solver.added, c0, c, le);
      }
    }

    /** Merges the blocks of width `le` from position `i` on. */
    method HMergeFrom(c0: seq<Lit>, c: seq<Lit>, i: int, le: int, d1: bool, d2: bool) returns (c1: seq<Lit>)
      requires Valid() && 4 <= le && le % 2 == 0 && 0 <= i <= |c| == |c0| && Multiple(|c| - i, le)
      requires AllVars(c, solver.numVars) && Defined(c0) && forall p | i <= p < |c| :: c[p] == c0[p]
      requires d1 && d2 ==> LevelDone(solver.added, c0, c, i, le)
      modifies this`freeVar, this`addVars, solver`numVars, solver`added, solver`clauses
      ensures Valid() && |c1| == |c0| && AllVars(c1, solver.numVars)
      ensures old(solver.numVars) <= solver.numVars && old(solver.added) <= solver.added
      ensures d1 && d2 ==> LevelDone(solver.added, c0, c1, |c0|, le)
      decreases |c| - i
    {
      if i == |c| {
        return c;
      }
      var c2 := HMergeBlock(c0, c, i, le, d1, d2);
      c1 := HMergeFrom(c0, c2, i + le, le, d1, d2);
    }

    /** The block at offset `i` of `HMergeLevel`: its comparators, then fresh
        variables for all its entries but the first and the last. */
    method HMergeBlock(c0: seq<Lit>, c: seq<Lit>, i: int, le: int, d1: bool, d2: bool) returns (c1: seq<Lit>)
      requires Valid() && 4 <= le && le % 2 == 0 && 0 <= i && i + le <= |c| == |c0| && AllVars(c, solver.numVars)
      requires Defined(c0) && forall p | i <= p < |c| :: c[p] == c0[p]
      requires d1 && d2 ==> LevelDone(solver.added, c0, c, i, le)
      modifies this`freeVar, this`addVars, solver`numVars, solver`added, solver`clauses
      ensures Valid() && |c1| == |c| && AllVars(c1, solver.numVars)
      ensures old(solver.numVars) <= solver.numVars && old(solver.added) <= solver.added
      ensures forall p | i + le <= p < |c1| :: c1[p] == c0[p]
      ensures d1 && d2 ==> LevelDone(solver.added, c0, c1, i + le, le)
    {
      HMergeLayer(c, i, le, d1, d2);
      ghost var av1, fv := addVars, freeVar;
      c1 := FreshBlock(c, i, le, le - 1);
      if d1 && d2 {
        KnownDefined(c1, solver.numVars);
        BlockStep(old(solver.added), solver.added, c0, c, c1, av1, addVars, fv, i, le / 2, le);
      }
    }

    /** The comparators of one block of width `le` at offset `i` of `HMerge`:
        comparator j takes c[i+j+1] and c[i+j+le/2] to auxiliary slots
        freeVar+2j and freeVar+2j+1, which `FreshBlock` then hands out as
        c[i+1+2j] and c[i+2+2j]. Slot freeVar+2j+1 is asked for first; since
        slots are filled in order, this names the same variables as asking
        for freeVar+2j first. */
    method HMergeLayer(c: seq<Lit>, i: int, le: int, d1: bool, d2: bool)
      requires Valid() && 0 <= i && 4 <= le && i + le <= |c| && AllVars(c, solver.numVars)
      modifies this`addVars, solver`numVars, solver`added, solver`clauses
      ensures Valid() && AllVars(c, solver.numVars)
      ensures old(solver.numVars) <= solver.numVars && old(solver.added) <= solver.added
      ensures old(|addVars|) <= |addVars| && addVars[..old(|addVars|)] == old(addVars)
      ensures d1 && d2 ==> LayerLogged(solver.added, c, i, le / 2, addVars, freeVar, le / 2 - 1)
    {
      var j := 0;
      while j + 1 < le / 2
        invariant 0 <= j <= le / 2 - 1 && Valid() && AllVars(c, solver.numVars)
        invariant old(solver.numVars) <= solver.numVars && old(solver.added) <= solver.added
        invariant old(|addVars|) <= |addVars| && addVars[..old(|addVars|)] == old(addVars)
        invariant d1 && d2 ==> LayerLogged(solver.added, c, i, le / 2, addVars, freeVar, j)
      {
        LayerComparator(c, i, le, j, d1, d2);
        j := j + 1;
      }
    }

    /** Comparator `j` of `HMergeLayer`: its outputs are auxiliary slots
        freeVar+2j and freeVar+2j+1, asked for in the source's order. */
    method LayerComparator(c: seq<Lit>, i: int, le: int, j: int, d1: bool, d2: bool)
      requires Valid() && 0 <= i && 4 <= le && 0 <= j && i + j + le / 2 < |c| && AllVars(c, solver.numVars)
      requires d1 && d2 ==> LayerLogged(solver.added, c, i, le / 2, addVars, freeVar, j)
      modifies this`addVars, solver`numVars, solver`added, solver`clauses
      ensures Valid() && AllVars(c, solver.numVars)
      ensures old(solver.numVars) <= solver.numVars && old(solver.added) <= solver.added
      ensures old(|addVars|) <= |addVars| && addVars[..old(|addVars|)] == old(addVars)
      ensures d1 && d2 ==> LayerLogged(solver.added, c, i, le / 2, addVars, freeVar, j + 1)
    {
      if d1 || d2 {
        ghost var nv := solver.numVars;
        var y := Var(freeVar + 2 * j + 1);
        ghost var av1 := addVars;
        var x := Var(freeVar + 2 * j);
        assert y == addVars[freeVar + 2 * j + 1];
        PrefixTrans(old(addVars), av1, addVars);
        AllVarsGrow(c, nv, solver.numVars);
        ghost var av0, cl0 := addVars, solver.added;
        var ok;
        if d1 && d2 {
          ok := EmitComparator(c[i + j + 1], c[i + j + le / 2], x, y, true, d1, d2);
          LayerLoggedGrows(old(solver.added), solver.added, c, i, le / 2, old(addVars), addVars, freeVar, j);
        } else {
          ok := EmitCompChecked(c[i + j + 1], c[i + j + le / 2], x, y, true, d1, d2);
        }
      }
    }

    /** Entries i+1 .. i+top-1 of `c0` become the next auxiliary variables. */
    method FreshBlock(c0: seq<Lit>, i: int, le: int, top: int) returns (c: seq<Lit>)
      requires Valid() && 0 <= i && 1 <= top <= le && i + le <= |c0| && KnownOrUndef(c0, solver.numVars)
      modifies this`freeVar, this`addVars, solver`numVars, solver`added, solver`clauses
      ensures Valid() && |c| == |c0| && KnownOrUndef(c, solver.numVars)
      ensures AllVars(c0, old(solver.numVars)) ==> AllVars(c, solver.numVars)
      ensures forall p | 0 <= p < |c| && !(i + 1 <= p < i + top) :: c[p] == c0[p]
      ensures forall p | i + 1 <= p < i + top :: VarIn(c[p], solver.numVars)
      ensures old(|addVars|) <= |addVars| && addVars[..old(|addVars|)] == old(addVars)
      ensures 1 < top ==> old(freeVar) + top - 1 <= |addVars|
      ensures forall p | i + 1 <= p < i + top :: c[p] == addVars[old(freeVar) + p - i - 1]
      ensures freeVar == old(freeVar) + top - 1
      ensures old(solver.numVars) <= solver.numVars && solver.added == old(solver.added)
    {
      c := c0;
      for j := 1 to top
        invariant Valid() && |c| == |c0| && KnownOrUndef(c, solver.numVars)
        invariant forall p | 0 <= p < |c| && !(i + 1 <= p < i + j) :: c[p] == c0[p]
        invariant forall p | i + 1 <= p < i + j :: VarIn(c[p], solver.numVars)
        invariant old(|addVars|) <= |addVars| && addVars[..old(|addVars|)] == old(addVars)
        invariant 1 < j ==> old(freeVar) + j - 1 <= |addVars|
        invariant forall p | i + 1 <= p < i + j :: c[p] == addVars[old(freeVar) + p - i - 1]
        invariant freeVar == old(freeVar) + j - 1
        invariant old(solver.numVars) <= solver.numVars && solver.added == old(solver.added)
      {
        ghost var av0 := addVars;
        var v := Var(freeVar);
        PrefixTrans(old(addVars), av0, addVars);
        freeVar := freeVar + 1;
        c := c[i + j := v];
      }
    }

    /** Hands the clauses `cls` to the solver in order; `ok` is false when
        one of them holds an undefined literal, where the solver's clause
        preprocessing would stop the program. */
    method EmitAll(cls: seq<seq<Lit>>) returns (ok: bool)
      requires AllKnownOrUndef(cls, solver.numVars)
      modifies solver`numVars, solver`added, solver`clauses
      ensures ok <==> AllDefined(cls)
      ensures ok ==> solver.added == old(solver.added) + cls
      ensures old(solver.added) <= solver.added
      ensures solver.numVars == old(solver.numVars) && solver.frozen == old(solver.frozen)
    {
      var k := 0;
      while k < |cls|
        invariant 0 <= k <= |cls| && solver.added == old(solver.added) + cls[..k]
        invariant forall k' | 0 <= k' < k :: Defined(cls[k'])
        invariant solver.numVars == old(solver.numVars) && solver.frozen == old(solver.frozen)
      {
        ok := EmitChecked(cls[k]);
        if !ok {
          return;
        }
        assert cls[..k + 1] == cls[..k] + [cls[k]];
        k := k + 1;
      }
      assert cls[..k] == cls;
      ok := true;
    }

    /** Batcher's merger of two sorted halves of equal power-of-two length,
        without recursion: comparators on matching inputs, the bit-reversal
        permutation of the pairs, then the layers of `HMergeLayers`. */
    method HMerge(a: seq<Lit>, b: seq<Lit>, d1: bool, d2: bool) returns (c: seq<Lit>)
      requires Valid() && |a| == |b| && IsPow2(|a|)
      requires AllKnown(a, solver.numVars) && AllKnown(b, solver.numVars)
      modifies this`freeVar, this`addVars, solver`numVars, solver`added, solver`clauses
      ensures Valid() && |c| == 2 * |a| && AllVars(c, solver.numVars)
      ensures old(solver.numVars) <= solver.numVars && old(solver.added) <= solver.added
      ensures |a| == 1 && d1 && d2 ==> Comparator(solver.added, a[0], b[0], c[0], c[1])
      ensures d1 && d2 ==> forall t | Models(t, solver.added) :: Vals(c, t) == Merged(Vals(a, t), Vals(b, t))
    {
      ghost var nv := solver.numVars;
      var c0 := HMergePairs(a, b, d1, d2);
      ghost var cl1 := solver.added;
      var c1 := SwapPairs(c0, |a|);
      AllVarsPerm(c0, c1, solver.numVars);
      assert (2 * |a|) / 2 == |a|;
      c := HMergeLayers(c1, d1, d2);
      if d1 && d2 {
        KnownDefined(a, nv);
        KnownDefined(b, nv);
        AllVarsGrow(c0, solver.numVars, solver.numVars);
        KnownDefined(c0, solver.numVars);
        MergeDone(cl1, solver.added, a, b, c0, c1, c, |a|);
      }
    }

    /** Sorts s[l..r] by halves, merging with `HMerge`; the length has to be
        a power of two, at least 2 (otherwise the source's size assertions
        stop the program). */
    method HSort(s: seq<Lit>, l: int, r: int, d1: bool, d2: bool) returns (res: Outcome<seq<Lit>>)
      requires Valid() && 0 <= l <= r < |s| && AllKnown(s, solver.numVars)
      modifies this`freeVar, this`addVars, solver`numVars, solver`added, solver`clauses
      ensures Valid() && old(solver.numVars) <= solver.numVars && old(solver.added) <= solver.added
      ensures res.Done? <==> 2 <= r - l + 1 && IsPow2(r - l + 1)
      ensures res.Done? ==> |res.value| == r - l + 1 && AllVars(res.value, solver.numVars)
      ensures r - l + 1 == 2 && d1 && d2 ==>
        res.Done? && Comparator(solver.added, s[l], s[r], res.value[0], res.value[1])
      ensures res.Done? && d1 && d2 ==>
        forall t | Models(t, solver.added) :: Vals(res.value, t) == Ones(r - l + 1, Count(s[l..r + 1], t))
      decreases r - l
    {
      var le := r - l + 1;
      if le < 2 || le % 2 != 0 {
        return Abort;
      }
      if le == 2 {
        var c := HSortPair(s, l, d1, d2);
        return Done(c);
      }
      var m := (l + r) / 2;
      var a := HSort(s, l, m, d1, d2);
      if a.Abort? {
        return Abort;
      }
      ghost var nv, cl1 := solver.numVars, solver.added;
      AllKnownGrow(s, old(solver.numVars), nv);
      var b := HSort(s, m + 1, r, d1, d2);
      assert b.Done?;
      AllVarsGrow(a.value, nv, solver.numVars);
      Pow2Half(le);
      var c := HSortMerge(s, l, m, r, a.value, b.value, cl1, d1, d2);
      return Done(c);
    }

    /** The last step of `HSort`: merging the sorted halves. */
    method HSortMerge(s: seq<Lit>, l: int, m: int, r: int, a: seq<Lit>, b: seq<Lit>, ghost cl1: seq<seq<Lit>>,
                      d1: bool, d2: bool) returns (c: seq<Lit>)
      requires Valid() && 0 <= l <= m < r < |s| && m - l + 1 == r - m && IsPow2(m - l + 1)
      requires |a| == |b| == m - l + 1 && AllVars(a, solver.numVars) && AllVars(b, solver.numVars)
      requires cl1 <= solver.added
      requires d1 && d2 ==> forall t | Models(t, cl1) :: Vals(a, t) == Ones(m - l + 1, Count(s[l..m + 1], t))
      requires d1 && d2 ==> forall t | Models(t, solver.added) :: Vals(b, t) == Ones(m - l + 1, Count(s[m + 1..r + 1], t))
      modifies this`freeVar, this`addVars, solver`numVars, solver`added, solver`clauses
      ensures Valid() && old(solver.numVars) <= solver.numVars && old(solver.added) <= solver.added
      ensures |c| == r - l + 1 && AllVars(c, solver.numVars)
      ensures d1 && d2 ==> forall t | Models(t, solver.added) :: Vals(c, t) == Ones(r - l + 1, Count(s[l..r + 1], t))
    {
      AllVarsGrow(a, solver.numVars, solver.numVars);
      AllVarsGrow(b, solver.numVars, solver.numVars);
      c := HMerge(a, b, d1, d2);
      if d1 && d2 {
        SortDone(cl1, old(solver.added), solver.added, s, a, b, c, l, m, r, m - l + 1);
      }
    }

    /** `HSort` on the two entries s[l], s[l+1]: one comparator. */
    method HSortPair(s: seq<Lit>, l: int, d1: bool, d2: bool) returns (c: seq<Lit>)
      requires Valid() && 0 <= l < l + 1 < |s| && AllKnown(s, solver.numVars)
      modifies this`freeVar, this`addVars, solver`numVars, solver`added, solver`clauses
      ensures Valid() && old(solver.numVars) <= solver.numVars && old(solver.added) <= solver.added
      ensures |c| == 2 && AllVars(c, solver.numVars)
      ensures d1 && d2 ==> Comparator(solver.added, s[l], s[l + 1], c[0], c[1])
      ensures d1 && d2 ==> forall t | Models(t, solver.added) :: Vals(c, t) == Ones(2, Count(s[l..l + 2], t))
    {
      ghost var cl0 := solver.added;
      c := HMerge([s[l]], [s[l + 1]], d1, d2);
      if d1 && d2 {
        OneSorted(s, l);
        OneSorted(s, l + 1);
        SortDone(cl0, cl0, solver.added, s, [s[l]], [s[l + 1]], c, l, l, l + 1, 1);
      }
    }

    /** The first stage of `SMerge`: like `HMergePairs`, but the "and"
        output c[2i+1] exists only for i < n/2 and stays undefined above. */
    method SMergePairs(a: seq<Lit>, b: seq<Lit>, d1: bool, d2: bool) returns (res: Outcome<seq<Lit>>)
      requires Valid() && |a| == |b|
      requires KnownOrUndef(a, solver.numVars) && KnownOrUndef(b, solver.numVars)
      modifies this`freeVar, this`addVars, solver`numVars, solver`added, solver`clauses
      ensures Valid() && old(solver.numVars) <= solver.numVars && old(solver.added) <= solver.added
      ensures res.Done? ==> |res.value| == 2 * |a| && KnownOrUndef(res.value, solver.numVars)
    {
      var n := |a|;
      var c := seq(2 * n, _ => Undef);
      for i := 0 to n
        invariant Valid() && |c| == 2 * n && KnownOrUndef(c, solver.numVars)
        invariant KnownOrUndef(a, solver.numVars) && KnownOrUndef(b, solver.numVars)
        invariant old(solver.numVars) <= solver.numVars && old(solver.added) <= solver.added
      {
        ghost var nv := solver.numVars;
        var x := Var(freeVar);
        freeVar := freeVar + 1;
        c := c[2 * i := x];
        if i < n / 2 {
          var y := Var(freeVar);
          freeVar := freeVar + 1;
          c := c[2 * i + 1 := y];
        }
        KnownOrUndefGrow(a, nv, solver.numVars);
        KnownOrUndefGrow(b, nv, solver.numVars);
        var y := if i < n / 2 then c[2 * i + 1] else Undef;
        var ok := EmitCompChecked(a[i], b[i], c[2 * i], y, i < n / 2, d1, d2);
        if !ok {
          return Abort;
        }
      }
      return Done(c);
    }

    /** The simplified merger: merges two sorted sequences of equal
        power-of-two length n into the n largest of their 2n entries. */
    method SMerge(a: seq<Lit>, b: seq<Lit>, d1: bool, d2: bool) returns (res: Outcome<seq<Lit>>)
      requires Valid() && |a| == |b| && IsPow2(|a|)
      requires KnownOrUndef(a, solver.numVars) && KnownOrUndef(b, solver.numVars)
      modifies this`freeVar, this`addVars, solver`numVars, solver`added, solver`clauses
      ensures Valid() && old(solver.numVars) <= solver.numVars && old(solver.added) <= solver.added
      ensures res.Done? ==> |res.value| == |a| && KnownOrUndef(res.value, solver.numVars)
    {
      var n := |a|;
      var c0 := SMergePairs(a, b, d1, d2);
      if c0.Abort? {
        return Abort;
      }
      var c1 := SwapPairs(c0.value, n);
      KnownOrUndefPerm(c0.value, c1, solver.numVars);
      assert (2 * n) / 2 == n;
      var c2 := SMergeLayers(c1, d1, d2);
      if c2.Abort? {
        return Abort;
      }
      return Done(c2.value[..n]);
    }

    /** The later stages of `SMerge`; the flag `oc` alternates from block to
        block and is set for the last, full-width layer. */
    method SMergeLayers(c0: seq<Lit>, d1: bool, d2: bool) returns (res: Outcome<seq<Lit>>)
      requires Valid() && 2 <= |c0| && IsPow2(|c0|) && KnownOrUndef(c0, solver.numVars)
      modifies this`freeVar, this`addVars, solver`numVars, solver`added, solver`clauses
      ensures Valid() && old(solver.numVars) <= solver.numVars && old(solver.added) <= solver.added
      ensures res.Done? ==> |res.value| == |c0| && KnownOrUndef(res.value, solver.numVars)
    {
      var c := c0;
      var oc := false;
      var le := 4;
      ghost var q := |c0| / 4;
      if 4 <= |c0| {
        Pow2Quarter(|c0|);
      }
      while le <= |c|
        invariant Valid() && |c| == |c0| && KnownOrUndef(c, solver.numVars)
        invariant 4 <= le && (le == 4 || le <= 2 * |c|)
        invariant le <= |c| ==> IsPow2(q) && le * q == |c|
        invariant old(solver.numVars) <= solver.numVars && old(solver.added) <= solver.added
        decreases 2 * |c0| - le
      {
        var r;
        r, oc := SMergeLevel(c, le, q, oc, d1, d2);
        if r.Abort? {
          return Abort;
        }
        c := r.value;
        if le * 2 <= |c| {
          Pow2Halve(le, q, |c|);
        }
        le := le * 2;
        q := q / 2;
      }
      return Done(c);
    }

    /** One stage of `SMergeLayers`: the `q` blocks of width `le` in turn. */
    method SMergeLevel(c0: seq<Lit>, le: int, ghost q: int, oc0: bool, d1: bool, d2: bool)
      returns (res: Outcome<seq<Lit>>, oc: bool)
      requires Valid() && 4 <= le && le * q == |c0| && KnownOrUndef(c0, solver.numVars)
      modifies this`freeVar, this`addVars, solver`numVars, solver`added, solver`clauses
      ensures Valid() && old(solver.numVars) <= solver.numVars && old(solver.added) <= solver.added
      ensures res.Done? ==> |res.value| == |c0| && KnownOrUndef(res.value, solver.numVars)
    {
      var c := c0;
      oc := oc0;
      var i := 0;
      ghost var bi := 0;
      while i < |c|
        invariant 0 <= bi && i == bi * le
        invariant Valid() && |c| == |c0| && KnownOrUndef(c, solver.numVars)
        invariant old(solver.numVars) <= solver.numVars && old(solver.added) <= solver.added
        decreases |c| - i
      {
        BlockFits(bi, q, le);
        var r;
        r, oc := SMergeBlock(c, i, le, oc, d1, d2);
        if r.Abort? {
          return Abort, oc;
        }
        c := r.value;
        i := i + le;
        bi := bi + 1;
      }
      return Done(c), oc;
    }

    /** One block of width `le` at offset `i` of `SMergeLayers`. */
    method SMergeBlock(c0: seq<Lit>, i: int, le: int, oc0: bool, d1: bool, d2: bool)
      returns (res: Outcome<seq<Lit>>, oc: bool)
      requires Valid() && 0 <= i && 4 <= le && i + le <= |c0| && KnownOrUndef(c0, solver.numVars)
      modifies this`freeVar, this`addVars, solver`numVars, solver`added, solver`clauses
      ensures Valid() && old(solver.numVars) <= solver.numVars && old(solver.added) <= solver.added
      ensures res.Done? ==> |res.value| == |c0| && KnownOrUndef(res.value, solver.numVars)
    {
      oc := oc0;
      if le == |c0| {
        oc := true;
      }
      var ok := SMergeLayer(c0, i, le, oc, d1, d2);
      if !ok {
        return Abort, oc;
      }
      var c := FreshBlock(c0, i, le, le / 2);
      if !oc {
        ghost var nv := solver.numVars;
        var v := Var(freeVar);
        freeVar := freeVar + 1;
        KnownOrUndefGrow(c, nv, solver.numVars);
        c := c[i + le / 2 := v];
      }
      oc := !oc;
      return Done(c), oc;
    }

    /** The clauses of a comparator with inputs `p`, `q`, "or" output `x` and
        (when `both`) "and" output `y`, each checked for undefined literals. */
    method EmitCompChecked(p: Lit, q: Lit, x: Lit, y: Lit, both: bool, d1: bool, d2: bool) returns (ok: bool)
      requires p == Undef || solver.Known(p)
      requires q == Undef || solver.Known(q)
      requires x == Undef || solver.Known(x)
      requires y == Undef || solver.Known(y)
      modifies solver`numVars, solver`added, solver`clauses
      ensures old(solver.added) <= solver.added
      ensures solver.numVars == old(solver.numVars) && solver.frozen == old(solver.frozen)
      ensures p.IsDef() && q.IsDef() && x.IsDef() && y.IsDef() ==> ok
    {
      if d1 && d2 && both {
        ok := EmitComparator(p, q, x, y, both, d1, d2);
      } else {
        var cls := CompClauses(p, q, x, y, both, d1, d2);
        CompClausesLits(p, q, x, y, both, d1, d2);
        CompLitsKnown(cls, p, q, x, y, both, solver.numVars);
        ok := EmitAll(cls);
      }
    }

    /** `EmitCompChecked` for a comparator with both outputs and both
        directions. */
    method EmitComparator(p: Lit, q: Lit, x: Lit, y: Lit, both: bool, d1: bool, d2: bool) returns (ok: bool)
      requires both && d1 && d2
      requires p == Undef || solver.Known(p)
      requires q == Undef || solver.Known(q)
      requires x == Undef || solver.Known(x)
      requires y == Undef || solver.Known(y)
      modifies solver`numVars, solver`added, solver`clauses
      ensures old(solver.added) <= solver.added
      ensures solver.numVars == old(solver.numVars) && solver.frozen == old(solver.frozen)
      ensures p.IsDef() && q.IsDef() && x.IsDef() && y.IsDef() ==> ok
      ensures ok ==> Comparator(solver.added, p, q, x, y)
    {
      var cls := CompClauses(p, q, x, y, both, d1, d2);
      CompClausesLits(p, q, x, y, both, d1, d2);
      CompLitsKnown(cls, p, q, x, y, both, solver.numVars);
      ok := EmitAll(cls);
      if ok {
        ComparatorAppended(old(solver.added), solver.added, p, q, x, y, both, d1, d2);
      }
    }

    /** The comparators of one block of `SMerge`: as in `HMergeLayer` but
        only le/4 of them, and the last one of a block with `oc` set has no
        "and" output. Slot freeVar+2j is asked for first; since slots are
        filled in order, this names the same variables as the source's order. */
    method SMergeLayer(c: seq<Lit>, i: int, le: int, oc: bool, d1: bool, d2: bool) returns (ok: bool)
      requires Valid() && 0 <= i && 4 <= le && i + le <= |c| && KnownOrUndef(c, solver.numVars)
      modifies this`addVars, solver`numVars, solver`added, solver`clauses
      ensures Valid() && old(solver.numVars) <= solver.numVars && old(solver.added) <= solver.added
    {
      var j := 0;
      while j < le / 4
        invariant 0 <= j && Valid() && KnownOrUndef(c, solver.numVars)
        invariant old(solver.numVars) <= solver.numVars && old(solver.added) <= solver.added
      {
        if d1 || d2 {
          var both := j + 1 < le / 4 || !oc;
          var x := Var(freeVar + 2 * j);
          var y := Undef;
          if both {
            y := Var(freeVar + 2 * j + 1);
          }
          ok := EmitCompChecked(c[i + j + 1], c[i + j + le / 2], x, y, both, d1, d2);
          if !ok {
            return;
          }
        }
        j := j + 1;
      }
      ok := true;
    }

    /** Sorts s[l..r] in blocks of `k`: a block of exactly `k` by `HSort`,
        longer ranges by merging the first block with the rest through
        `SMerge`, keeping the `k` largest. The length has to be a multiple of
        `k`, and only the case of one block is used by `EqualNetwork`. */
    method Card(s: seq<Lit>, l: int, r: int, k: int, d1: bool, d2: bool) returns (res: Outcome<seq<Lit>>)
      requires Valid() && 0 <= l <= r < |s| && 1 <= k && AllKnown(s, solver.numVars)
      modifies this`freeVar, this`addVars, solver`numVars, solver`added, solver`clauses
      ensures Valid() && old(solver.numVars) <= solver.numVars && old(solver.added) <= solver.added
      ensures res.Done? ==> |res.value| == k && KnownOrUndef(res.value, solver.numVars)
      ensures res.Done? ==> (r - l + 1) % k == 0 && IsPow2(k)
      ensures r - l + 1 == k ==> (res.Done? <==> 2 <= k && IsPow2(k))
      ensures r - l + 1 == k && res.Done? ==> AllVars(res.value, solver.numVars)
      ensures r - l + 1 == 2 && k == 2 && d1 && d2 ==>
        res.Done? && Comparator(solver.added, s[l], s[r], res.value[0], res.value[1])
      ensures r - l + 1 == k && res.Done? && d1 && d2 ==>
        forall t | Models(t, solver.added) :: Vals(res.value, t) == Ones(k, Count(s[l..r + 1], t))
      decreases r - l
    {
      var n := r - l + 1;
      if n % k != 0 {
        return Abort;
      }
      if n == k {
        res := HSort(s, l, r, d1, d2);
        return;
      }
      var a := Card(s, l, l + k - 1, k, d1, d2);
      if a.Abort? {
        return Abort;
      }
      ghost var nv := solver.numVars;
      AllKnownGrow(s, old(solver.numVars), nv);
      var b := Card(s, l + k, r, k, d1, d2);
      if b.Abort? {
        return Abort;
      }
      KnownOrUndefGrow(a.value, nv, solver.numVars);
      res := SMerge(a.value, b.value, d1, d2);
      if res.Done? {
        assert n == (n - k) + k;
      }
    }

    /** The network exactly as the source builds it: pads the input with
        forced-false variables up to a power of two k, sorts, and forces the
        outputs beyond |input| false. Output i then stands for "more than i
        inputs are true". An input of length 0 or 1 stops the program on a
        size assertion. `pads` are the padding variables and `full` all k
        sorted outputs. */
    method EqualNetworkAsWritten(input: seq<Lit>) returns (res: Outcome<seq<Lit>>, ghost pads: seq<Lit>, ghost full: seq<Lit>)
      requires Valid() && AllKnown(input, solver.numVars)
      modifies this`freeVar, this`addVars, solver`numVars, solver`added, solver`clauses
      ensures Valid() && old(solver.numVars) <= solver.numVars && old(solver.added) <= solver.added
      ensures res.Abort? <==> |input| <= 1
      ensures res.Done? ==> |res.value| == |input| && AllVars(res.value, solver.numVars)
      ensures res.Done? ==> IsPow2(|input| + |pads|) && |full| == |input| + |pads| && res.value == full[..|input|]
      ensures res.Done? ==> forall q | 0 <= q < |pads| :: Logged(solver.added, [pads[q].Neg()])
      ensures res.Done? ==> forall q | |input| <= q < |full| :: Logged(solver.added, [full[q].Neg()])
      ensures |input| == 2 ==> res.Done? && Comparator(solver.added, input[0], input[1], res.value[0], res.value[1])
      ensures res.Done? ==> forall t | Models(t, solver.added) :: Vals(res.value, t) == Ones(|input|, Count(input, t))
    {
      pads, full := [], [];
      var n := |input|;
      if n <= 0 {
        return Abort, pads, full;
      }
      var k := 1;
      while k < n
        invariant IsPow2(k) && 1 <= k && (k == 1 || k < 2 * n)
      {
        assert (2 * k) / 2 == k;
        k := k * 2;
      }
      res, pads, full := SortPadded(input, k);
    }

    /** The part of `EqualNetworkAsWritten` after the power of two `k` is
        found: pad, sort, force the outputs past |input| false. */
    method SortPadded(input: seq<Lit>, k: int) returns (res: Outcome<seq<Lit>>, ghost pads: seq<Lit>, ghost full: seq<Lit>)
      requires Valid() && AllKnown(input, solver.numVars) && 1 <= |input| <= k && IsPow2(k)
      requires k == 1 || k < 2 * |input|
      modifies this`freeVar, this`addVars, solver`numVars, solver`added, solver`clauses
      ensures Valid() && old(solver.numVars) <= solver.numVars && old(solver.added) <= solver.added
      ensures res.Abort? <==> |input| <= 1
      ensures res.Done? ==> |res.value| == |input| && AllVars(res.value, solver.numVars)
      ensures res.Done? ==> IsPow2(|input| + |pads|) && |full| == |input| + |pads| && res.value == full[..|input|]
      ensures res.Done? ==> forall q | 0 <= q < |pads| :: Logged(solver.added, [pads[q].Neg()])
      ensures res.Done? ==> forall q | |input| <= q < |full| :: Logged(solver.added, [full[q].Neg()])
      ensures |input| == 2 ==> res.Done? && Comparator(solver.added, input[0], input[1], res.value[0], res.value[1])
      ensures res.Done? ==> forall t | Models(t, solver.added) :: Vals(res.value, t) == Ones(|input|, Count(input, t))
    {
      full := [];
      var n := |input|;
      var inp;
      inp, pads := PadFalse(input, k);
      ghost var cl1, cl1nv := solver.added, solver.numVars;
      var out := Card(inp, 0, |inp| - 1, k, true, true);
      if out.Abort? {
        return Abort, pads, full;
      }
      full := out.value;
      ghost var cl2 := solver.added;
      var output := DropFalse(out.value, n);
      KnownDefined(inp, cl1nv);
      SortedTail(cl1, cl2, solver.added, input, pads, inp, full, output);
      res := Done(output);
    }

    /** Appends forced-false auxiliary variables `pads` to `input` up to length `k`. */
    method PadFalse(input: seq<Lit>, k: int) returns (inp: seq<Lit>, ghost pads: seq<Lit>)
      requires Valid() && |input| <= k && AllKnown(input, solver.numVars)
      modifies this`freeVar, this`addVars, solver`numVars, solver`added, solver`clauses
      ensures Valid() && old(solver.numVars) <= solver.numVars && old(solver.added) <= solver.added
      ensures inp == input + pads && |inp| == k && AllKnown(inp, solver.numVars)
      ensures forall q | 0 <= q < |pads| :: Logged(solver.added, [pads[q].Neg()])
    {
      inp, pads := input, [];
      while |inp| < k
        invariant Valid() && inp == input + pads && |inp| <= k && AllKnown(inp, solver.numVars)
        invariant forall q | 0 <= q < |pads| :: Logged(solver.added, [pads[q].Neg()])
        invariant old(solver.numVars) <= solver.numVars && old(solver.added) <= solver.added
      {
        ghost var cl := solver.added;
        ghost var nv := solver.numVars;
        var nl := Var(freeVar);
        freeVar := freeVar + 1;
        AllKnownGrow(inp, nv, solver.numVars);
        var ok := EmitAll([[nl.Neg()]]);
        forall q | 0 <= q < |pads|
          ensures Logged(solver.added, [pads[q].Neg()])
        {
          LoggedGrows(cl, solver.added, [pads[q].Neg()]);
        }
        assert solver.added[|solver.added| - 1] == [nl.Neg()];
        inp := inp + [nl];
        pads := pads + [nl];
      }
    }

    /** Forces the outputs of `full` beyond the first `n` false and drops them. */
    method DropFalse(full: seq<Lit>, n: int) returns (output: seq<Lit>)
      requires 0 <= n <= |full| && AllVars(full, solver.numVars)
      modifies solver`numVars, solver`added, solver`clauses
      ensures output == full[..n]
      ensures forall q | n <= q < |full| :: Logged(solver.added, [full[q].Neg()])
      ensures old(solver.added) <= solver.added
      ensures solver.numVars == old(solver.numVars) && solver.frozen == old(solver.frozen)
    {
      output := full;
      while |output| > n
        invariant n <= |output| <= |full| && output == full[..|output|]
        invariant forall q | |output| <= q < |full| :: Logged(solver.added, [full[q].Neg()])
        invariant old(solver.added) <= solver.added
        invariant solver.numVars == old(solver.numVars) && solver.frozen == old(solver.frozen)
      {
        ghost var cl := solver.added;
        var ok := EmitAll([[output[|output| - 1].Neg()]]);
        forall q | |output| <= q < |full|
          ensures Logged(solver.added, [full[q].Neg()])
        {
          LoggedGrows(cl, solver.added, [full[q].Neg()]);
        }
        assert solver.added[|solver.added| - 1] == [output[|output| - 1].Neg()];
        output := output[..|output| - 1];
      }
    }

    /** `EqualNetworkAsWritten` for inputs of two or more; an input of length
        0 or 1 is already sorted and is returned as it is. */
    method EqualNetwork(input: seq<Lit>) returns (output: seq<Lit>, ghost pads: seq<Lit>, ghost full: seq<Lit>)
      requires Valid() && AllKnown(input, solver.numVars)
      modifies this`freeVar, this`addVars, solver`numVars, solver`added, solver`clauses
      ensures Valid() && old(solver.numVars) <= solver.numVars && old(solver.added) <= solver.added
      ensures |output| == |input| && AllKnown(output, solver.numVars)
      ensures AllVars(input, old(solver.numVars)) ==> AllVars(output, solver.numVars)
      ensures |input| <= 1 ==> output == input
      ensures |full| == |input| + |pads| && output == full[..|input|]
      ensures 1 <= |input| ==> IsPow2(|full|)
      ensures forall q | 0 <= q < |pads| :: Logged(solver.added, [pads[q].Neg()])
      ensures forall q | |input| <= q < |full| :: Logged(solver.added, [full[q].Neg()])
      ensures |input| == 2 ==> Comparator(solver.added, input[0], input[1], output[0], output[1])
      ensures forall t | Models(t, solver.added) :: Vals(output, t) == Ones(|input|, Count(input, t))
    {
      if |input| <= 1 {
        assert input[..|input|] == input;
        if |input| == 1 {
          OneSorted(input, 0);
          assert input[0..1] == input == [input[0]];
        }
        return input, [], input;
      }
      var res;
      res, pads, full := EqualNetworkAsWritten(input);
      output := res.value;
    }

    /** Emits the unit clauses asserting that exactly the first `k1` outputs of a sorted counter are true. */
    method EmitBounds(out: seq<Lit>, k1: int) returns (ok: bool)
      requires 0 < k1 < |out| && KnownOrUndef(out, solver.numVars)
      modifies solver`numVars, solver`added, solver`clauses
      ensures old(solver.added) <= solver.added
      ensures solver.numVars == old(solver.numVars) && solver.frozen == old(solver.frozen)
      ensures ok ==> Logged(solver.added, [out[k1 - 1]]) && Logged(solver.added, [out[k1].Neg()])
    {
      ok := EmitAll([[out[k1 - 1]]]);
      if !ok {
        return;
      }
      ghost var cl := solver.added;
      ok := EmitAll([[out[k1].Neg()]]);
      if !ok {
        return;
      }
      LoggedGrows(cl, solver.added, [out[k1 - 1]]);
      assert solver.added[|solver.added| - 1] == [out[k1].Neg()];
    }

    /** Constrains exactly `k` of `input` to be true; not called anywhere
        else in the repository. When k is past the middle the inputs are
        complemented and k becomes |input| - k; the inputs are padded with
        forced-false variables to a multiple of the least power of two k2
        above k, sorted by blocks, and the sorted output is forced to have
        its k-th entry true and its (k+1)-th false. `kk` is the k used and
        `outs` the sorted outputs. */
    method AddEqual(input: seq<Lit>, k: int) returns (res: Outcome<()>, ghost kk: int, ghost outs: seq<Lit>)
      requires Valid() && AllKnown(input, solver.numVars)
      modifies this`freeVar, this`addVars, solver`numVars, solver`added, solver`clauses
      ensures Valid() && old(solver.numVars) <= solver.numVars && old(solver.added) <= solver.added
      ensures !(0 < k < |input|) ==> res.Abort?
      ensures res.Done? ==> kk == Min(k, |input| - k) && 0 < kk < |outs|
      ensures res.Done? ==> Logged(solver.added, [outs[kk - 1]]) && Logged(solver.added, [outs[kk].Neg()])
    {
      kk, outs := 0, [];
      if !(0 < k < |input|) {
        return Abort, kk, outs;
      }
      var inp := input;
      var k1 := k;
      if |inp| - k1 < k1 {
        k1 := |inp| - k1;
        inp := Complemented(inp);
      }
      var k2 := PowAbove(k1);
      RoundUp(|inp|, k2);
      ghost var pads;
      inp, pads := PadFalse(inp, |inp| + (k2 - |inp| % k2) % k2);
      var out := Card(inp, 0, |inp| - 1, k2, true, true);
      if out.Abort? {
        return Abort, kk, outs;
      }
      var ok := EmitBounds(out.value, k1);
      if !ok {
        return Abort, kk, outs;
      }
      return Done(()), k1, out.value;
    }
  }
}
