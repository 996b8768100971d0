/** Cardinality constraints over SAT literals: a static sorting network
    (`CardinalityNetworkBuilder`) and an incremental totalizer
    (`TotalizerBuilder`). Both emit clauses into a `SatSolver` and return
    output literals whose truth encodes how many inputs are true. */
module Cardinality {
  import opened Wrappers
  import opened SatInterface

  function Min(a: int, b: int): int { if a < b then a else b }

  /** Every literal of `s` is a constant or a signed variable among the first `nv`. */
  ghost predicate AllKnown(s: seq<Lit>, nv: int) {
    forall q | 0 <= q < |s| :: KnownIn(s[q], nv)
  }

  /** Every literal of `s` is a signed variable among the first `nv`. */
  ghost predicate AllVars(s: seq<Lit>, nv: int) {
    forall q | 0 <= q < |s| :: VarIn(s[q], nv)
  }

  /** The number of literals of `s` that are true under `t`. */
  function Count(s: seq<Lit>, t: set<int>): (r: nat)
    ensures r <= |s|
  {
    if s == [] then 0
    else Count(s[..|s| - 1], t) + if Holds(s[|s| - 1], t) then 1 else 0
  }

  /** Counting is additive over concatenation. */
  lemma {:induction false} CountAppend(a: seq<Lit>, b: seq<Lit>, t: set<int>)
    ensures Count(a + b, t) == Count(a, t) + Count(b, t)
    decreases |b|
  {
    if b == [] {
      assert a + b == a;
    } else {
      assert (a + b)[..|a + b| - 1] == a + b[..|b| - 1];
      CountAppend(a, b[..|b| - 1], t);
    }
  }

  /** Clause `c` was handed to the solver: it is in the solver's record `cl`
      of the clauses it was given. */
  ghost predicate Logged(cl: seq<seq<Lit>>, c: seq<Lit>) {
    c in cl
  }

  /** `t` satisfies every clause of `cl`. */
  ghost predicate Models(t: set<int>, cl: seq<seq<Lit>>) {
    forall k | 0 <= k < |cl| :: Satisfies(t, cl[k])
  }

  /** A logged clause holds in every model of the log. */
  lemma {:induction false} LoggedHolds(cl: seq<seq<Lit>>, c: seq<Lit>, t: set<int>)
    requires Logged(cl, c) && Models(t, cl)
    ensures Satisfies(t, c)
  {
    var k :| 0 <= k < |cl| && cl[k] == c;
  }

  /** Adding clauses keeps every logged clause logged. */
  lemma {:induction false} LoggedGrows(cl1: seq<seq<Lit>>, cl2: seq<seq<Lit>>, c: seq<Lit>)
    requires cl1 <= cl2 && Logged(cl1, c)
    ensures Logged(cl2, c)
  {
    var k :| 0 <= k < |cl1| && cl1[k] == c;
    assert cl2[k] == cl1[k];
  }

  // ---------------------------------------------------------------------
  // The totalizer tree

  /** Node `j` lies in the subtree rooted at node `i` of the heap-numbered
      tree in which node `i` has the children `2i` and `2i+1`. */
  ghost predicate Under(j: int, i: int)
    decreases j
  {
    j == i || (j > i && j >= 2 && Under(j / 2, i))
  }

  lemma {:induction false} UnderParent(j: int, i: int, c: int)
    requires i >= 1 && c / 2 == i && c > i && Under(j, c)
    ensures Under(j, i)
    decreases j
  {
    if j != c {
      UnderParent(j / 2, i, c);
    }
  }

  /** The subtrees of two siblings are disjoint. */
  lemma {:induction false} UnderSiblings(j: int, i: int)
    requires i >= 1 && Under(j, 2 * i)
    ensures !Under(j, 2 * i + 1)
    decreases j
  {
    if j != 2 * i {
      UnderSiblings(j / 2, i);
    }
  }

  /** Every node of the subtree of `i` over input range [l, r] that exists
      is still empty; the root keeps its output list. */
  ghost predicate Fresh(nl: seq<seq<Lit>>, i: int, l: int, r: int)
    requires i >= 1 && 0 <= l <= r
    decreases r - l
  {
    (i == 1 || i >= |nl| || nl[i] == []) &&
    (l < r ==> Fresh(nl, 2 * i, l, (l + r) / 2) && Fresh(nl, 2 * i + 1, (l + r) / 2 + 1, r))
  }

  /** Each clause "left[a] and right[b] imply node[a+b]" with a+b <= top is logged. */
  ghost predicate Linked(cl: seq<seq<Lit>>, left: seq<Lit>, right: seq<Lit>, node: seq<Lit>, top: int)
    requires top < |node|
  {
    forall a, b | 0 <= a < |left| && 0 <= b < |right| && a + b <= top ::
      Logged(cl, [left[a].Neg(), right[b].Neg(), node[a + b]])
  }

  /** The subtree of node `i`, over the inputs inp[l..r], is built up to
      count `cs`: a leaf holds [true, its input]; an inner node holds the
      count literals 0..min(cs, r-l+1) (the root may hold more: its list is
      fixed in advance), count 0 is true, and every way of splitting a count
      between the children is linked upward by a logged clause. */
  ghost predicate Built(nl: seq<seq<Lit>>, cl: seq<seq<Lit>>, inp: seq<Lit>, i: int, l: int, r: int, cs: int, nv: int)
    requires i >= 1 && 0 <= l <= r < |inp|
    decreases r - l
  {
    var m := (l + r) / 2;
    var top := Min(cs, r - l + 1);
    1 <= cs && i < |nl| && |nl[i]| >= top + 1 && (i != 1 ==> |nl[i]| == top + 1) &&
    nl[i][0] == TrueLit && AllKnown(nl[i], nv) &&
    if l == r then nl[i] == [TrueLit, inp[l]]
    else
      Built(nl, cl, inp, 2 * i, l, m, cs, nv) && Built(nl, cl, inp, 2 * i + 1, m + 1, r, cs, nv) &&
      Linked(cl, nl[2 * i], nl[2 * i + 1], nl[i], top)
  }

  /** `nl2` keeps every node of the subtree of `i` that `nl1` has, and any node
      it adds there is empty. */
  ghost predicate Agree(nl1: seq<seq<Lit>>, nl2: seq<seq<Lit>>, i: int) {
    |nl1| <= |nl2| &&
    forall j | Under(j, i) && 0 <= j < |nl2| :: nl2[j] == if j < |nl1| then nl1[j] else []
  }

  lemma {:induction false} AgreeChild(nl1: seq<seq<Lit>>, nl2: seq<seq<Lit>>, i: int, c: int)
    requires i >= 1 && c / 2 == i && c > i && Agree(nl1, nl2, i)
    ensures Agree(nl1, nl2, c)
  {
    forall j | Under(j, c) && 0 <= j < |nl2|
      ensures nl2[j] == if j < |nl1| then nl1[j] else []
    {
      UnderParent(j, i, c);
    }
  }

  lemma {:induction false} LinkedGrows(cl1: seq<seq<Lit>>, cl2: seq<seq<Lit>>, left: seq<Lit>, right: seq<Lit>, node: seq<Lit>, top: int)
    requires top < |node| && cl1 <= cl2 && Linked(cl1, left, right, node, top)
    ensures Linked(cl2, left, right, node, top)
  {
    forall a, b | 0 <= a < |left| && 0 <= b < |right| && a + b <= top
      ensures Logged(cl2, [left[a].Neg(), right[b].Neg(), node[a + b]])
    {
      LoggedGrows(cl1, cl2, [left[a].Neg(), right[b].Neg(), node[a + b]]);
    }
  }

  /** A built subtree stays built when nodes outside it change, clauses are
      added and variables are created. */
  lemma {:induction false} BuiltFrame(nl1: seq<seq<Lit>>, nl2: seq<seq<Lit>>, cl1: seq<seq<Lit>>, cl2: seq<seq<Lit>>,
                                      inp: seq<Lit>, i: int, l: int, r: int, cs: int, nv1: int, nv2: int)
    requires i >= 1 && 0 <= l <= r < |inp|
    requires Built(nl1, cl1, inp, i, l, r, cs, nv1)
    requires Agree(nl1, nl2, i) && cl1 <= cl2 && nv1 <= nv2
    ensures Built(nl2, cl2, inp, i, l, r, cs, nv2)
    decreases r - l
  {
    assert Under(i, i);
    if l < r {
      var m := (l + r) / 2;
      AgreeChild(nl1, nl2, i, 2 * i);
      AgreeChild(nl1, nl2, i, 2 * i + 1);
      BuiltFrame(nl1, nl2, cl1, cl2, inp, 2 * i, l, m, cs, nv1, nv2);
      BuiltFrame(nl1, nl2, cl1, cl2, inp, 2 * i + 1, m + 1, r, cs, nv1, nv2);
      assert Under(2 * i, 2 * i) && Under(2 * i + 1, 2 * i + 1);
      UnderParent(2 * i, i, 2 * i);
      UnderParent(2 * i + 1, i, 2 * i + 1);
      LinkedGrows(cl1, cl2, nl1[2 * i], nl1[2 * i + 1], nl1[i], Min(cs, r - l + 1));
    }
  }

  lemma {:induction false} FreshFrame(nl1: seq<seq<Lit>>, nl2: seq<seq<Lit>>, i: int, l: int, r: int)
    requires i >= 1 && 0 <= l <= r
    requires Fresh(nl1, i, l, r) && Agree(nl1, nl2, i)
    ensures Fresh(nl2, i, l, r)
    decreases r - l
  {
    assert Under(i, i);
    if l < r {
      var m := (l + r) / 2;
      AgreeChild(nl1, nl2, i, 2 * i);
      AgreeChild(nl1, nl2, i, 2 * i + 1);
      FreshFrame(nl1, nl2, 2 * i, l, m);
      FreshFrame(nl1, nl2, 2 * i + 1, m + 1, r);
    }
  }

  /** Upward soundness of a built subtree: in every model of the clauses, if
      at least x of the inputs inp[l..r] are true (x within the built range),
      then count literal x of the node is true. */
  lemma {:induction false} Upward(nl: seq<seq<Lit>>, cl: seq<seq<Lit>>, inp: seq<Lit>, i: int, l: int, r: int,
                                  cs: int, nv: int, t: set<int>, x: int)
    requires i >= 1 && 0 <= l <= r < |inp|
    requires Built(nl, cl, inp, i, l, r, cs, nv) && Models(t, cl)
    requires 0 <= x <= Min(cs, r - l + 1) && x <= Count(inp[l..r + 1], t)
    ensures Holds(nl[i][x], t)
    decreases r - l
  {
    if x == 0 {
    } else if l == r {
      CountOne(inp, l, t);
    } else {
      var m := (l + r) / 2;
      CountSplit(inp, l, m, r, t);
      var cL := Count(inp[l..m + 1], t);
      var a := if x < cL then x else cL;
      var b := x - a;
      Upward(nl, cl, inp, 2 * i, l, m, cs, nv, t, a);
      Upward(nl, cl, inp, 2 * i + 1, m + 1, r, cs, nv, t, b);
      Combine(cl, t, nl[2 * i], nl[2 * i + 1], nl[i], Min(cs, r - l + 1), a, b, nv);
    }
  }

  /** Count a of the left child and count b of the right child give count a+b of the parent. */
  lemma {:induction false} Combine(cl: seq<seq<Lit>>, t: set<int>, left: seq<Lit>, right: seq<Lit>, node: seq<Lit>,
                top: int, a: int, b: int, nv: int)
    requires top < |node| && Linked(cl, left, right, node, top) && Models(t, cl)
    requires 0 <= a < |left| && 0 <= b < |right| && a + b <= top
    requires AllKnown(left, nv) && AllKnown(right, nv) && AllKnown(node, nv)
    requires Holds(left[a], t) && Holds(right[b], t)
    ensures Holds(node[a + b], t)
  {
    assert KnownIn(left[a], nv) && KnownIn(right[b], nv) && KnownIn(node[a + b], nv);
    ClauseFires(cl, t, left[a], right[b], node[a + b]);
  }

  lemma {:induction false} CountOne(inp: seq<Lit>, l: int, t: set<int>)
    requires 0 <= l < |inp| && 1 <= Count(inp[l..l + 1], t)
    ensures Holds(inp[l], t)
  {
    assert inp[l..l + 1][..0] == [];
  }

  lemma {:induction false} CountSplit(inp: seq<Lit>, l: int, m: int, r: int, t: set<int>)
    requires 0 <= l <= m < r < |inp|
    ensures Count(inp[l..r + 1], t) == Count(inp[l..m + 1], t) + Count(inp[m + 1..r + 1], t)
  {
    assert inp[l..r + 1] == inp[l..m + 1] + inp[m + 1..r + 1];
    CountAppend(inp[l..m + 1], inp[m + 1..r + 1], t);
  }

  /** A logged clause "a and b imply n" fires in every model where a and b hold. */
  lemma {:induction false} ClauseFires(cl: seq<seq<Lit>>, t: set<int>, a: Lit, b: Lit, n: Lit)
    requires Logged(cl, [a.Neg(), b.Neg(), n]) && Models(t, cl)
    requires a.IsDef() && b.IsDef() && n.IsDef()
    requires Holds(a, t) && Holds(b, t)
    ensures Holds(n, t)
  {
    var c := [a.Neg(), b.Neg(), n];
    LoggedHolds(cl, c, t);
    var q :| 0 <= q < 3 && Holds(c[q], t);
    NegFlipsTruth(a, t);
    NegFlipsTruth(b, t);
  }

  /** The subtree of `i` can be built from size `cs`: it is unbuilt when `cs`
      is -1 and built up to `cs` otherwise. */
  ghost predicate Ready(nl: seq<seq<Lit>>, cl: seq<seq<Lit>>, inp: seq<Lit>, i: int, l: int, r: int, cs: int, nv: int)
    requires i >= 1 && 0 <= l <= r < |inp|
  {
    if cs == -1 then Fresh(nl, i, l, r) else Built(nl, cl, inp, i, l, r, cs, nv)
  }

  lemma {:induction false} ReadyFrame(nl1: seq<seq<Lit>>, nl2: seq<seq<Lit>>, cl1: seq<seq<Lit>>, cl2: seq<seq<Lit>>,
                   inp: seq<Lit>, i: int, l: int, r: int, cs: int, nv1: int, nv2: int)
    requires i >= 1 && 0 <= l <= r < |inp|
    requires Ready(nl1, cl1, inp, i, l, r, cs, nv1)
    requires Agree(nl1, nl2, i) && cl1 <= cl2 && nv1 <= nv2
    ensures Ready(nl2, cl2, inp, i, l, r, cs, nv2)
  {
    if cs == -1 {
      FreshFrame(nl1, nl2, i, l, r);
    } else {
      BuiltFrame(nl1, nl2, cl1, cl2, inp, i, l, r, cs, nv1, nv2);
    }
  }

  lemma {:induction false} ReadyChildren(nl: seq<seq<Lit>>, cl: seq<seq<Lit>>, inp: seq<Lit>, i: int, l: int, r: int, cs: int, nv: int)
    requires i >= 1 && 0 <= l < r < |inp| && Ready(nl, cl, inp, i, l, r, cs, nv)
    ensures Ready(nl, cl, inp, 2 * i, l, (l + r) / 2, cs, nv)
    ensures Ready(nl, cl, inp, 2 * i + 1, (l + r) / 2 + 1, r, cs, nv)
  {
  }

  /** A ready leaf that exists is empty or already [true, its input]. */
  lemma {:induction false} ReadyLeaf(nl: seq<seq<Lit>>, cl: seq<seq<Lit>>, inp: seq<Lit>, i: int, l: int, cs: int, nv: int)
    requires 1 < i < |nl| && 0 <= l < |inp| && Ready(nl, cl, inp, i, l, l, cs, nv)
    ensures nl[i] == [] || nl[i] == [TrueLit, inp[l]]
  {
  }

  /** Building one child leaves the subtree of its sibling alone. */
  lemma {:induction false} KeptSibling(nl1: seq<seq<Lit>>, nl2: seq<seq<Lit>>, i: int, c: int, s: int)
    requires i >= 1 && ((c == 2 * i && s == 2 * i + 1) || (c == 2 * i + 1 && s == 2 * i))
    requires |nl1| <= |nl2|
    requires forall j | 0 <= j < |nl2| && !Under(j, c) :: nl2[j] == if j < |nl1| then nl1[j] else []
    ensures Agree(nl1, nl2, s)
  {
    forall j | Under(j, s) && 0 <= j < |nl2|
      ensures nl2[j] == if j < |nl1| then nl1[j] else []
    {
      if Under(j, 2 * i) && Under(j, 2 * i + 1) {
        UnderSiblings(j, i);
      }
    }
  }

  /** After both children are built to `size`, node `i` is where BuildNodes
      starts from: its list is still the one of size `cs` and its clauses
      still link every split of the children's counts up to min(cs, ...). */
  /** Two steps that each keep every node outside one subtree keep every node
      outside both. */
  /** Building the right child keeps the left child built. */
  lemma {:induction false} LeftStaysBuilt(nl2: seq<seq<Lit>>, nl3: seq<seq<Lit>>,
                                          cl2: seq<seq<Lit>>, cl3: seq<seq<Lit>>, inp: seq<Lit>,
                                          i: int, l: int, m: int, size: int, nv2: int, nv3: int)
    requires i >= 1 && 0 <= l <= m < |inp|
    requires Built(nl2, cl2, inp, 2 * i, l, m, size, nv2)
    requires cl2 <= cl3 && nv2 <= nv3 && |nl2| <= |nl3|
    requires forall j | 0 <= j < |nl3| && !Under(j, 2 * i + 1) :: nl3[j] == if j < |nl2| then nl2[j] else []
    ensures Built(nl3, cl3, inp, 2 * i, l, m, size, nv3)
  {
    KeptSibling(nl2, nl3, i, 2 * i + 1, 2 * i);
    BuiltFrame(nl2, nl3, cl2, cl3, inp, 2 * i, l, m, size, nv2, nv3);
  }

  /** Building the two children in turn only grows the children's own lists. */
  lemma {:induction false} ChildrenGrow(nl1: seq<seq<Lit>>, nl2: seq<seq<Lit>>, nl3: seq<seq<Lit>>, i: int)
    requires i >= 1 && |nl1| <= |nl2| <= |nl3|
    requires forall j | 0 <= j < |nl2| && !Under(j, 2 * i) :: nl2[j] == if j < |nl1| then nl1[j] else []
    requires forall j | 0 <= j < |nl3| && !Under(j, 2 * i + 1) :: nl3[j] == if j < |nl2| then nl2[j] else []
    requires 2 * i < |nl1| ==> nl1[2 * i] <= nl2[2 * i]
    requires 2 * i + 1 < |nl2| ==> nl2[2 * i + 1] <= nl3[2 * i + 1]
    ensures 2 * i + 1 < |nl1| ==> nl1[2 * i] <= nl3[2 * i] && nl1[2 * i + 1] <= nl3[2 * i + 1]
  {
    if 2 * i + 1 < |nl1| {
      UnderSiblings(2 * i, i);
      assert (2 * i + 1) / 2 == i;
      assert !Under(2 * i + 1, 2 * i);
      assert nl3[2 * i] == nl2[2 * i];
      assert nl2[2 * i + 1] == nl1[2 * i + 1];
    }
  }

  lemma {:induction false} FrameCompose(nl1: seq<seq<Lit>>, nl2: seq<seq<Lit>>, nl3: seq<seq<Lit>>, a: int, b: int)
    requires |nl1| <= |nl2| <= |nl3|
    requires forall j | 0 <= j < |nl2| && !Under(j, a) :: nl2[j] == if j < |nl1| then nl1[j] else []
    requires forall j | 0 <= j < |nl3| && !Under(j, b) :: nl3[j] == if j < |nl2| then nl2[j] else []
    ensures forall j | 0 <= j < |nl3| && !Under(j, a) && !Under(j, b) ::
      nl3[j] == if j < |nl1| then nl1[j] else []
  {
  }

  lemma {:induction false} NodeReady(nl1: seq<seq<Lit>>, nl3: seq<seq<Lit>>, cl1: seq<seq<Lit>>, cl3: seq<seq<Lit>>,
                  inp: seq<Lit>, i: int, l: int, r: int, cs: int, size: int, nv1: int, nv3: int)
    requires i >= 1 && 0 <= l < r < |inp| && (cs == -1 || 1 <= cs <= size)
    requires i < |nl1| && Ready(nl1, cl1, inp, i, l, r, cs, nv1)
    requires i == 1 ==> nl1[1] != [] && nl1[1][0] == TrueLit && AllKnown(nl1[1], nv1)
    requires i < |nl3| && nl3[i] == nl1[i] && cl1 <= cl3 && nv1 <= nv3
    requires 2 * i + 1 < |nl3|
    requires Built(nl3, cl3, inp, 2 * i, l, (l + r) / 2, size, nv3)
    requires Built(nl3, cl3, inp, 2 * i + 1, (l + r) / 2 + 1, r, size, nv3)
    requires 2 * i + 1 < |nl1| ==> nl1[2 * i] <= nl3[2 * i] && nl1[2 * i + 1] <= nl3[2 * i + 1]
    ensures i != 1 ==> |nl3[i]| == Min(cs, r - l + 1) + 1
    ensures |nl3[i]| > 0 ==> nl3[i][0] == TrueLit
    ensures AllKnown(nl3[i], nv3)
    ensures Min(cs, r - l + 1) < |nl3[i]| && Linked(cl3, nl3[2 * i], nl3[2 * i + 1], nl3[i], Min(cs, r - l + 1))
  {
    var m := (l + r) / 2;
    if cs != -1 {
      assert Built(nl1, cl1, inp, 2 * i, l, m, cs, nv1) && Built(nl1, cl1, inp, 2 * i + 1, m + 1, r, cs, nv1);
      LinkedExtend(nl1[2 * i], nl1[2 * i + 1], nl3[2 * i], nl3[2 * i + 1], nl1[i], cl1, cs, size, m - l + 1, r - m);
      LinkedGrows(cl1, cl3, nl3[2 * i], nl3[2 * i + 1], nl1[i], Min(cs, r - l + 1));
    }
  }

  /** Once the children have grown from count `cs` to count `size`, the clauses
      linking the parent's counts up to min(cs, ...) still cover every split. */
  lemma {:induction false} LinkedExtend(left0: seq<Lit>, right0: seq<Lit>, left: seq<Lit>, right: seq<Lit>, node: seq<Lit>,
                     cl: seq<seq<Lit>>, cs: int, size: int, Ll: int, Lr: int)
    requires 1 <= cs <= size && 1 <= Ll && 1 <= Lr && Min(cs, Ll + Lr) < |node|
    requires left0 <= left && right0 <= right
    requires |left0| == Min(cs, Ll) + 1 && |right0| == Min(cs, Lr) + 1
    requires |left| == Min(size, Ll) + 1 && |right| == Min(size, Lr) + 1
    requires Linked(cl, left0, right0, node, Min(cs, Ll + Lr))
    ensures Linked(cl, left, right, node, Min(cs, Ll + Lr))
  {
    forall a, b | 0 <= a < |left| && 0 <= b < |right| && a + b <= Min(cs, Ll + Lr)
      ensures Logged(cl, [left[a].Neg(), right[b].Neg(), node[a + b]])
    {
      assert a < |left0| && b < |right0|;
      assert left[a] == left0[a] && right[b] == right0[b];
    }
  }

  /** Linking count x on top of the counts below it. */
  lemma {:induction false} LinkedStep(cl1: seq<seq<Lit>>, cl2: seq<seq<Lit>>, left: seq<Lit>, right: seq<Lit>,
                   node1: seq<Lit>, node2: seq<Lit>, x: int)
    requires 0 <= x < |node2| && node1 <= node2 && cl1 <= cl2
    requires x - 1 < |node1| && Linked(cl1, left, right, node1, x - 1)
    requires forall a | 0 <= a <= x && a < |left| && x - a < |right| ::
      Logged(cl2, [left[a].Neg(), right[x - a].Neg(), node2[x]])
    ensures Linked(cl2, left, right, node2, x)
  {
    forall a, b | 0 <= a < |left| && 0 <= b < |right| && a + b <= x
      ensures Logged(cl2, [left[a].Neg(), right[b].Neg(), node2[a + b]])
    {
      if a + b < x {
        assert node2[a + b] == node1[a + b];
        LoggedGrows(cl1, cl2, [left[a].Neg(), right[b].Neg(), node1[a + b]]);
      } else {
        assert b == x - a;
      }
    }
  }

  /** The list `s` with exactly two entries: truncated, or padded with empty lists. */
  function ResizeTwo(s: seq<seq<Lit>>): (r: seq<seq<Lit>>)
    ensures |r| == 2 && forall j | 0 <= j < 2 :: r[j] == if j < |s| then s[j] else []
  {
    if |s| >= 2 then s[..2] else if |s| == 1 then s + [[]] else [[], []]
  }

  /** Incremental totalizer: a binary tree over the inputs whose node lists
      hold count literals, built up to a growing size. Node 1 is the root and
      its count literals are the outputs. Only upward clauses are emitted:
      enough true inputs force an output true, but nothing forces it false. */
  class TotalizerBuilder {
    const solver: SatSolver
    var curSize: int
    var nLits: seq<seq<Lit>>
    var input: seq<Lit>

    /** The inputs are solver literals. A builder over at most one input
        counts directly; otherwise the root holds [true, outputs...] and the
        tree is unbuilt (size -1) or built up to `curSize`. */
    ghost predicate Valid()
      reads this, solver`numVars, solver`added
    {
      AllKnown(input, solver.numVars) &&
      (|input| <= 1 ==> curSize == |input|) &&
      (|input| >= 2 ==>
        2 <= |nLits| && |nLits[1]| == |input| + 1 && nLits[1][0] == TrueLit &&
        AllKnown(nLits[1], solver.numVars) &&
        (curSize == -1 || 1 <= curSize <= |input|) &&
        (curSize == -1 ==> Fresh(nLits, 1, 0, |input| - 1)) &&
        (curSize != -1 ==> Built(nLits, solver.added, input, 1, 0, |input| - 1, curSize, solver.numVars)))
    }

    /** The output literals: output k stands for "more than k inputs are true". */
    ghost function Outputs(): seq<Lit>
      reads this
    {
      if |input| <= 1 then input
      else if |nLits| >= 2 && |nLits[1]| >= 1 then nLits[1][1..]
      else []
    }

    /** The tree stays built when clauses and variables are added to the solver. */
    twostate lemma ValidGrows()
      requires old(Valid()) && unchanged(this)
      requires old(solver.added) <= solver.added && old(solver.numVars) <= solver.numVars
      ensures Valid()
    {
      if |input| >= 2 && curSize != -1 {
        BuiltFrame(nLits, nLits, old(solver.added), solver.added, input, 1, 0, |input| - 1, curSize, old(solver.numVars), solver.numVars);
      }
    }

    constructor(s: SatSolver)
      ensures solver == s && curSize == -1 && nLits == [] && input == []
    {
      solver := s;
      curSize := -1;
      nLits := [];
      input := [];
    }

    /** Stores the inputs; a single input or none is its own output, otherwise
        the root gets [true] followed by one fresh output variable per input. */
    method Init(inp: seq<Lit>) returns (out: seq<Lit>)
      modifies this, solver`numVars, solver`added, solver`clauses
      ensures input == inp && solver.added == old(solver.added) && solver.frozen == old(solver.frozen)
      ensures |inp| <= 1 ==>
        out == inp && curSize == |inp| && nLits == old(nLits) && solver.numVars == old(solver.numVars)
      ensures |inp| >= 2 ==>
        |out| == |inp| && (forall q | 0 <= q < |out| :: out[q] == Lit(old(solver.numVars) + 1 + q)) &&
        solver.numVars == old(solver.numVars) + |inp| && curSize == old(curSize) &&
        nLits == ResizeTwo(old(nLits))[1 := ResizeTwo(old(nLits))[1] + [TrueLit] + out]
      ensures old(nLits) == [] && old(curSize) == -1 && AllKnown(inp, old(solver.numVars)) ==>
        Valid() && Outputs() == out
      ensures |inp| >= 2 ==> AllVars(out, solver.numVars)
    {
      input := inp;
      if |inp| <= 1 {
        curSize := |inp|;
        return inp;
      }
      nLits := ResizeTwo(nLits);
      nLits := nLits[1 := nLits[1] + [TrueLit]];
      ghost var nl0 := nLits;
      ghost var nv0 := solver.numVars;
      out := [];
      assert nl0[1] + out == nl0[1];
      var i := 0;
      while i < |inp|
        invariant 0 <= i <= |inp| && |out| == i
        invariant forall q | 0 <= q < i :: out[q] == Lit(nv0 + 1 + q)
        invariant solver.numVars == nv0 + i && solver.added == old(solver.added) && solver.frozen == old(solver.frozen)
        invariant input == inp && curSize == old(curSize)
        invariant nLits == nl0[1 := nl0[1] + out]
      {
        var v := solver.NewVar();
        assert (nl0[1] + out) + [v] == nl0[1] + (out + [v]);
        nLits := nLits[1 := nLits[1] + [v]];
        out := out + [v];
        i := i + 1;
      }
      assert nl0[1] + out == ResizeTwo(old(nLits))[1] + [TrueLit] + out;
      if old(nLits) == [] && old(curSize) == -1 && AllKnown(inp, old(solver.numVars)) {
        assert nLits[1][1..] == out;
        FreshRoot(nLits, 1, 0, |inp| - 1);
      }
    }

    /** Builds the tree so that outputs 0..size-1 are linked; asks for
        1 <= size <= |inputs| and no size below the current one. */
    method BuildToSize(size: int) returns (r: Outcome<()>)
      requires Valid()
      modifies this`curSize, this`nLits, solver
      ensures Valid() && input == old(input) && Outputs() == old(Outputs())
      ensures r.Abort? <==> !(1 <= size <= |input| && old(curSize) <= size)
      ensures r.Abort? ==> curSize == old(curSize) && nLits == old(nLits) && solver.added == old(solver.added)
      ensures r.Done? ==> curSize == if |input| <= 1 || old(curSize) >= size then old(curSize) else size
      ensures old(solver.added) <= solver.added && old(solver.numVars) <= solver.numVars && old(solver.frozen) <= solver.frozen
    {
      if !(size <= |input|) || !(size >= curSize) || !(size >= 1) {
        return Abort;
      }
      r := Done(());
      if |input| <= 1 || curSize >= size {
        return;
      }
      ghost var root := nLits[1];
      Build(1, 0, |input| - 1, size);
      curSize := size;
      assert nLits[1] == root;
    }

    /** Pads the node lists with empty lists until node `i` exists. */
    method Extend(i: int)
      modifies this`nLits
      ensures |nLits| >= old(|nLits|) && |nLits| > i
      ensures forall j | 0 <= j < |nLits| :: nLits[j] == if j < old(|nLits|) then old(nLits[j]) else []
    {
      while i >= |nLits|
        invariant |nLits| >= old(|nLits|)
        invariant forall j | 0 <= j < |nLits| :: nLits[j] == if j < old(|nLits|) then old(nLits[j]) else []
        decreases i - |nLits|
      {
        nLits := nLits + [[]];
      }
    }

    /** Builds the subtree of node `i` over inputs l..r up to count `size`. */
    method Build(i: int, l: int, r: int, size: int)
      requires 1 <= i && 0 <= l <= r < |input| && 1 <= size && 2 <= |nLits|
      requires i == 1 ==> l < r && |nLits[1]| >= Min(size, r - l + 1) + 1 && nLits[1][0] == TrueLit
      requires i == 1 ==> AllKnown(nLits[1], solver.numVars)
      requires AllKnown(input, solver.numVars)
      requires curSize == -1 || 1 <= curSize <= size
      requires Ready(nLits, solver.added, input, i, l, r, curSize, solver.numVars)
      modifies this`nLits, solver
      ensures Built(nLits, solver.added, input, i, l, r, size, solver.numVars)
      ensures |nLits| >= old(|nLits|) && nLits[1] == old(nLits[1])
      ensures forall j | 0 <= j < |nLits| && !Under(j, i) :: nLits[j] == if j < old(|nLits|) then old(nLits[j]) else []
      ensures i < old(|nLits|) ==> old(nLits)[i] <= nLits[i]
      ensures old(solver.added) <= solver.added && old(solver.numVars) <= solver.numVars && old(solver.frozen) <= solver.frozen
      decreases r - l, 2
    {
      ghost var nl0, cl0, nv0 := nLits, solver.added, solver.numVars;
      Extend(i);
      assert Agree(nl0, nLits, i);
      ReadyFrame(nl0, nLits, cl0, cl0, input, i, l, r, curSize, nv0, nv0);
      if l == r {
        ReadyLeaf(nLits, cl0, input, i, l, curSize, nv0);
        BuildLeaf(i, l);
        return;
      }
      ghost var nl1 := nLits;
      BuildInner(i, l, r, size);
      assert forall j | 0 <= j < |nLits| && !Under(j, i) :: nLits[j] == if j < |nl0| then nl0[j] else [] by {
        forall j | 0 <= j < |nLits| && !Under(j, i)
          ensures nLits[j] == if j < |nl0| then nl0[j] else []
        {
          assert nLits[j] == if j < |nl1| then nl1[j] else [];
        }
      }
    }

    /** The inner-node case of `Build`, once node `i` exists. */
    method BuildInner(i: int, l: int, r: int, size: int)
      requires 1 <= i && 0 <= l < r < |input| && 1 <= size && 2 <= |nLits| && i < |nLits|
      requires i == 1 ==> |nLits[1]| >= Min(size, r - l + 1) + 1 && nLits[1][0] == TrueLit
      requires i == 1 ==> AllKnown(nLits[1], solver.numVars)
      requires AllKnown(input, solver.numVars)
      requires curSize == -1 || 1 <= curSize <= size
      requires Ready(nLits, solver.added, input, i, l, r, curSize, solver.numVars)
      modifies this`nLits, solver
      ensures Built(nLits, solver.added, input, i, l, r, size, solver.numVars)
      ensures |nLits| >= old(|nLits|) && nLits[1] == old(nLits[1])
      ensures forall j | 0 <= j < |nLits| && !Under(j, i) :: nLits[j] == if j < old(|nLits|) then old(nLits[j]) else []
      ensures old(nLits)[i] <= nLits[i]
      ensures old(solver.added) <= solver.added && old(solver.numVars) <= solver.numVars && old(solver.frozen) <= solver.frozen
      decreases r - l, 1
    {
      ghost var nl1, cl1, nv1 := nLits, solver.added, solver.numVars;
      ReadyChildren(nl1, cl1, input, i, l, r, curSize, nv1);
      BuildChildren(i, l, r, size);
      NodeReady(nl1, nLits, cl1, solver.added, input, i, l, r, curSize, size, nv1, solver.numVars);
      ChildrenKeep(nl1, nl1, nLits, i);
      BuildNodes(i, l, r, size);
    }

    /** Adds count literals min(curSize, r-l+1)+1 .. min(size, r-l+1) to the
        inner node `i`, each linked upward from the children's counts. */
    method BuildNodes(i: int, l: int, r: int, size: int)
      requires 1 <= i && 0 <= l < r < |input| && 1 <= size && 2 * i + 1 < |nLits|
      requires curSize == -1 || 1 <= curSize <= size
      requires AllKnown(input, solver.numVars)
      requires Built(nLits, solver.added, input, 2 * i, l, (l + r) / 2, size, solver.numVars)
      requires Built(nLits, solver.added, input, 2 * i + 1, (l + r) / 2 + 1, r, size, solver.numVars)
      requires i == 1 ==> |nLits[1]| >= Min(size, r - l + 1) + 1 && nLits[1][0] == TrueLit
      requires i != 1 ==> |nLits[i]| == Min(curSize, r - l + 1) + 1
      requires |nLits[i]| > 0 ==> nLits[i][0] == TrueLit
      requires AllKnown(nLits[i], solver.numVars)
      requires Linked(solver.added, nLits[2 * i], nLits[2 * i + 1], nLits[i], Min(curSize, r - l + 1))
      modifies this`nLits, solver
      ensures Built(nLits, solver.added, input, i, l, r, size, solver.numVars)
      ensures |nLits| == old(|nLits|) && forall j | 0 <= j < |nLits| && j != i :: nLits[j] == old(nLits[j])
      ensures old(nLits[i]) <= nLits[i] && (i == 1 ==> nLits[1] == old(nLits[1]))
      ensures old(solver.added) <= solver.added && old(solver.numVars) <= solver.numVars && old(solver.frozen) <= solver.frozen
    {
      ghost var L := r - l + 1;
      ghost var nlc, clc, nvc := nLits, solver.added, solver.numVars;
      GrowNode(i, curSize + 1, Min(size, r - l + 1), r - l + 1, nLits[2 * i], nLits[2 * i + 1]);
      assert Agree(nlc, nLits, 2 * i) && Agree(nlc, nLits, 2 * i + 1);
      BuiltFrame(nlc, nLits, clc, solver.added, input, 2 * i, l, (l + r) / 2, size, nvc, solver.numVars);
      BuiltFrame(nlc, nLits, clc, solver.added, input, 2 * i + 1, (l + r) / 2 + 1, r, size, nvc, solver.numVars);
    }

    /** The loop of `BuildNodes`: counts x0..top of node `i`, over an input
        range of length L, from the children's lists `left` and `right`. */
    method GrowNode(i: int, x0: int, top: int, L: int, ghost left: seq<Lit>, ghost right: seq<Lit>)
      requires 1 <= i && 2 * i + 1 < |nLits| && nLits[2 * i] == left && nLits[2 * i + 1] == right
      requires 0 <= x0 && 1 <= top <= L && Min(x0 - 1, L) <= top && (x0 - 1 > top ==> Min(x0 - 1, L) == top)
      requires AllKnown(left, solver.numVars) && AllKnown(right, solver.numVars) && AllKnown(nLits[i], solver.numVars)
      requires i == 1 ==> |nLits[1]| >= top + 1 && nLits[1][0] == TrueLit
      requires i != 1 ==> |nLits[i]| == Min(x0 - 1, L) + 1
      requires |nLits[i]| > 0 ==> nLits[i][0] == TrueLit
      requires Linked(solver.added, left, right, nLits[i], Min(x0 - 1, L))
      modifies this`nLits, solver
      ensures |nLits| == old(|nLits|) && forall j | 0 <= j < |nLits| && j != i :: nLits[j] == old(nLits[j])
      ensures old(nLits[i]) <= nLits[i] && (i == 1 ==> nLits[1] == old(nLits[1]))
      ensures i != 1 ==> |nLits[i]| == top + 1
      ensures |nLits[i]| >= top + 1 && nLits[i][0] == TrueLit && AllKnown(nLits[i], solver.numVars)
      ensures Linked(solver.added, left, right, nLits[i], top)
      ensures old(solver.added) <= solver.added && old(solver.numVars) <= solver.numVars && old(solver.frozen) <= solver.frozen
    {
      ghost var nlc := nLits;
      var x := x0;
      while x <= top
        invariant x0 <= x && Min(x - 1, L) <= top && (x - 1 > top ==> Min(x - 1, L) == top)
        invariant |nLits| == |nlc| && forall j | 0 <= j < |nLits| && j != i :: nLits[j] == nlc[j]
        invariant nlc[i] <= nLits[i] && (i == 1 ==> nLits[1] == nlc[1])
        invariant i != 1 ==> |nLits[i]| == Min(x - 1, L) + 1
        invariant |nLits[i]| > 0 ==> nLits[i][0] == TrueLit
        invariant AllKnown(nLits[i], solver.numVars) && AllKnown(left, solver.numVars) && AllKnown(right, solver.numVars)
        invariant Linked(solver.added, left, right, nLits[i], Min(x - 1, L))
        invariant old(solver.added) <= solver.added && old(solver.numVars) <= solver.numVars && old(solver.frozen) <= solver.frozen
      {
        ghost var cl1, node1 := solver.added, nLits[i];
        BuildNode(i, 2 * i, 2 * i + 1, x);
        assert nLits[2 * i] == left && nLits[2 * i + 1] == right;
        LinkedStep(cl1, solver.added, left, right, node1, nLits[i], x);
        x := x + 1;
      }
    }

    /** Appends count literal `x` to node `ti` (the root's list is fixed in
        advance) and links it from every split x = a + b of the children's counts. */
    method BuildNode(ti: int, li: int, ri: int, x: int)
      requires ti >= 1 && li > ti && ri > li && ri < |nLits| && 0 <= x
      requires ti == 1 ==> |nLits[1]| >= x + 1
      requires ti != 1 ==> |nLits[ti]| == x
      requires AllKnown(nLits[li], solver.numVars) && AllKnown(nLits[ri], solver.numVars)
      requires AllKnown(nLits[ti], solver.numVars)
      modifies this`nLits, solver
      ensures ti == 1 ==> nLits == old(nLits) && solver.numVars == old(solver.numVars)
      ensures ti != 1 && x == 0 ==>
        nLits == old(nLits)[ti := old(nLits[ti]) + [TrueLit]] && solver.numVars == old(solver.numVars)
      ensures ti != 1 && x != 0 ==>
        nLits == old(nLits)[ti := old(nLits[ti]) + [Lit(old(solver.numVars) + 1)]] &&
        solver.numVars == old(solver.numVars) + 1 && solver.frozen == old(solver.frozen) + {old(solver.numVars) + 1}
      ensures AllKnown(nLits[ti], solver.numVars) && old(solver.added) <= solver.added
      ensures old(solver.frozen) <= solver.frozen
      ensures forall a | 0 <= a <= x && a < |nLits[li]| && x - a < |nLits[ri]| ::
        Logged(solver.added, [nLits[li][a].Neg(), nLits[ri][x - a].Neg(), nLits[ti][x]])
    {
      if ti != 1 {
        if x == 0 {
          nLits := nLits[ti := nLits[ti] + [TrueLit]];
        } else {
          var v := solver.NewVar();
          nLits := nLits[ti := nLits[ti] + [v]];
          solver.FreezeVar(v);
        }
      }
      var left, right, node := nLits[li], nLits[ri], nLits[ti];
      ghost var nl1, nv1, fr1 := nLits, solver.numVars, solver.frozen;
      var a := 0;
      while a <= x
        invariant 0 <= a <= x + 1 && nLits == nl1
        invariant solver.numVars == nv1 && solver.frozen == fr1 && old(solver.added) <= solver.added
        invariant forall a' | 0 <= a' < a && a' < |left| && x - a' < |right| ::
          Logged(solver.added, [left[a'].Neg(), right[x - a'].Neg(), node[x]])
      {
        var b := x - a;
        if a < |left| && b < |right| {
          var c := [left[a].Neg(), right[b].Neg(), node[x]];
          ghost var cl1 := solver.added;
          solver.AddClause(c);
          forall a' | 0 <= a' < a && a' < |left| && x - a' < |right|
            ensures Logged(solver.added, [left[a'].Neg(), right[x - a'].Neg(), node[x]])
          {
            LoggedGrows(cl1, solver.added, [left[a'].Neg(), right[x - a'].Neg(), node[x]]);
          }
        }
        a := a + 1;
      }
    }

    /** Builds both children of the inner node `i` up to count `size`. */
    method BuildChildren(i: int, l: int, r: int, size: int)
      requires 1 <= i && 0 <= l < r < |input| && 1 <= size && 2 <= |nLits| && i < |nLits|
      requires AllKnown(input, solver.numVars)
      requires curSize == -1 || 1 <= curSize <= size
      requires Ready(nLits, solver.added, input, 2 * i, l, (l + r) / 2, curSize, solver.numVars)
      requires Ready(nLits, solver.added, input, 2 * i + 1, (l + r) / 2 + 1, r, curSize, solver.numVars)
      modifies this`nLits, solver
      ensures Built(nLits, solver.added, input, 2 * i, l, (l + r) / 2, size, solver.numVars)
      ensures Built(nLits, solver.added, input, 2 * i + 1, (l + r) / 2 + 1, r, size, solver.numVars)
      ensures |nLits| >= old(|nLits|) && 2 * i + 1 < |nLits|
      ensures forall j | 0 <= j < |nLits| && !Under(j, 2 * i) && !Under(j, 2 * i + 1) ::
        nLits[j] == if j < old(|nLits|) then old(nLits[j]) else []
      ensures 2 * i + 1 < old(|nLits|) ==> old(nLits)[2 * i] <= nLits[2 * i] && old(nLits)[2 * i + 1] <= nLits[2 * i + 1]
      ensures old(solver.added) <= solver.added && old(solver.numVars) <= solver.numVars && old(solver.frozen) <= solver.frozen
      decreases r - l, 0
    {
      ghost var nl1, cl1, nv1 := nLits, solver.added, solver.numVars;
      var m := (l + r) / 2;
      Build(2 * i, l, m, size);
      ghost var nl2, cl2, nv2 := nLits, solver.added, solver.numVars;
      KeptSibling(nl1, nl2, i, 2 * i, 2 * i + 1);
      ReadyFrame(nl1, nl2, cl1, cl2, input, 2 * i + 1, m + 1, r, curSize, nv1, nv2);
      Build(2 * i + 1, m + 1, r, size);
      LeftStaysBuilt(nl2, nLits, cl2, solver.added, input, i, l, m, size, nv2, solver.numVars);
      FrameCompose(nl1, nl2, nLits, 2 * i, 2 * i + 1);
      ChildrenGrow(nl1, nl2, nLits, i);
    }

    /** The steps of `Build` leave every node outside the subtree of `i` alone. */
    static lemma {:induction false} ChildrenKeep(nl0: seq<seq<Lit>>, nl1: seq<seq<Lit>>, nl3: seq<seq<Lit>>, i: int)
      requires i >= 1
      requires forall j | 0 <= j < |nl1| :: nl1[j] == if j < |nl0| then nl0[j] else []
      requires |nl0| <= |nl1| <= |nl3| && i < |nl1|
      requires forall j | 0 <= j < |nl3| && !Under(j, 2 * i) && !Under(j, 2 * i + 1) ::
        nl3[j] == if j < |nl1| then nl1[j] else []
      ensures forall j | 0 <= j < |nl3| && !Under(j, i) :: nl3[j] == if j < |nl0| then nl0[j] else []
      ensures nl3[i] == nl1[i]
    {
      forall j | 0 <= j < |nl3| && !Under(j, i)
        ensures nl3[j] == if j < |nl0| then nl0[j] else []
      {
        if Under(j, 2 * i) { UnderParent(j, i, 2 * i); }
        if Under(j, 2 * i + 1) { UnderParent(j, i, 2 * i + 1); }
      }
      assert !Under(i, 2 * i) && !Under(i, 2 * i + 1);
    }

    /** A leaf holds [true, its input]. */
    method BuildLeaf(i: int, l: int)
      requires 1 < i < |nLits| && 0 <= l < |input| && AllKnown(input, solver.numVars)
      requires nLits[i] == [] || nLits[i] == [TrueLit, input[l]]
      modifies this`nLits
      ensures nLits == old(nLits)[i := [TrueLit, input[l]]]
    {
      if |nLits[i]| == 0 {
        nLits := nLits[i := nLits[i] + [TrueLit]];
      }
      if |nLits[i]| == 1 {
        assert nLits[i] == [TrueLit];
        nLits := nLits[i := nLits[i] + [input[l]]];
        assert nLits[i] == [TrueLit, input[l]];
      }
      assert |nLits[i]| == 2;
    }
  }

  /** The root of an unbuilt tree over a fresh node list is fresh. */
  lemma {:induction false} FreshRoot(nl: seq<seq<Lit>>, i: int, l: int, r: int)
    requires i >= 1 && 0 <= l <= r && |nl| == 2
    ensures Fresh(nl, i, l, r)
    decreases r - l
  {
    if l < r {
      FreshRoot(nl, 2 * i, l, (l + r) / 2);
      FreshRoot(nl, 2 * i + 1, (l + r) / 2 + 1, r);
    }
  }

  /** What the totalizer promises a caller that assumes an output false:
      once the tree is built up to `curSize`, in every model of the clauses
      handed to the solver, output `k` (for k < curSize) being false means
      at most `k` inputs are true. */
  lemma {:induction false} TotalizerBound(tb: TotalizerBuilder, t: set<int>, k: int)
    requires tb.Valid() && 0 <= k < |tb.input|
    requires |tb.input| <= 1 || k + 1 <= tb.curSize
    requires Models(t, tb.solver.added) && !Holds(tb.Outputs()[k], t)
    ensures Count(tb.input, t) <= k
  {
    var inp := tb.input;
    if |inp| == 1 {
      assert inp[..0] == [];
    } else if Count(inp, t) > k {
      assert inp[0..|inp| - 1 + 1] == inp;
      assert tb.Outputs()[k] == tb.nLits[1][k + 1];
      Upward(tb.nLits, tb.solver.added, inp, 1, 0, |inp| - 1, tb.curSize, tb.solver.numVars, t, k + 1);
    }
  }
}
