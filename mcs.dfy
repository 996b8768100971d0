/** Maximum cardinality search (MCS), its minimal-triangulation variant MCS-M,
    clique-separator atoms, and the width of an elimination order. */
module McsOrders {
  import opened GraphTheory
  import opened Graphs
  import opened Utils
  import opened Wrappers

  // Counting

  /** How many entries of s are listed in row. */
  function CountIn(s: seq<int>, row: seq<int>): (c: nat)
    ensures c <= |s|
    ensures c == 0 <==> forall k | 0 <= k < |s| :: s[k] !in row
  {
    if s == [] then 0 else (if s[0] in row then 1 else 0) + CountIn(s[1..], row)
  }

  /** A repetition-free list of vertices below n, and some vertices outside it,
      together fit in n. */
  lemma {:induction false} Room(s: seq<int>, n: nat, extra: set<int>)
    requires NoRepeats(s) && Below(s, n)
    requires forall x | x in extra :: 0 <= x < n && x !in s
    ensures |s| + |extra| <= n
  {
    NoRepeatsCard(s);
    var all := Elems(s) + extra;
    assert |all| == |s| + |extra|;
    CardSubset(all, RangeSet(n));
  }

  /** A repetition-free list of fewer than n vertices misses one of them. */
  lemma {:induction false} Unnumbered(s: seq<int>, n: nat) returns (v: int)
    requires NoRepeats(s) && Below(s, n) && |s| < n
    ensures 0 <= v < n && v !in s
  {
    NoRepeatsCard(s);
    var missing := RangeSet(n) - Elems(s);
    assert RangeSet(n) <= Elems(s) + missing;
    CardSubset(RangeSet(n), Elems(s) + missing);
    v :| v in missing;
  }

  // MCS

  /** Position i of order was chosen with at least as many neighbours among
      the later positions as any vertex not yet placed. */
  ghost predicate ChoiceAt(adj: Adj, order: seq<int>, i: int)
    requires 0 <= i < |order|
  {
    0 <= order[i] < |adj| &&
    forall v | 0 <= v < |adj| && v !in order[i..] ::
      CountIn(order[i+1..], adj[v]) <= CountIn(order[i+1..], adj[order[i]])
  }

  /** An order MCS can produce: a permutation filled from the back, each
      vertex having a maximum number of already numbered neighbours. */
  ghost predicate IsMcsOrder(adj: Adj, order: seq<int>) {
    |order| == |adj| && IsPermutation(order) &&
    forall i | 0 <= i < |order| :: ChoiceAt(adj, order, i)
  }

  /** The total number of bucket entries. */
  function Total(buckets: seq<seq<int>>): nat {
    if buckets == [] then 0 else |buckets[0]| + Total(buckets[1..])
  }

  lemma {:induction false} TotalUpdate(buckets: seq<seq<int>>, j: int, b: seq<int>)
    requires 0 <= j < |buckets|
    ensures Total(buckets[j := b]) == Total(buckets) - |buckets[j]| + |b|
  {
    if j > 0 {
      TotalUpdate(buckets[1..], j - 1, b);
      assert buckets[j := b][1..] == buckets[1..][j - 1 := b];
    }
  }

  /** order[it+1..] lists the numbered vertices, the ones marked in rm. */
  ghost predicate NumberedSuffix(n: nat, order: seq<int>, rm: seq<bool>, it: int) {
    -1 <= it < n && |order| == n && |rm| == n &&
    NoRepeats(order[it+1..]) && Below(order[it+1..], n) &&
    (forall v | 0 <= v < n :: rm[v] <==> v in order[it+1..])
  }

  /** Every unnumbered vertex has its count of numbered neighbours as label,
      no label exceeds maxLabel, and the vertex sits in the bucket of its label. */
  ghost predicate LabelsCount(adj: Adj, order: seq<int>, lab: seq<int>, rm: seq<bool>,
                              buckets: seq<seq<int>>, maxLabel: int, it: int)
    requires NumberedSuffix(|adj|, order, rm, it) && |lab| == |adj| && |buckets| == |adj|
  {
    forall v | 0 <= v < |adj| && !rm[v] ::
      lab[v] == CountIn(order[it+1..], adj[v]) && lab[v] <= maxLabel &&
      lab[v] < |adj| && v in buckets[lab[v]]
  }

  /** A bucket entry is a vertex whose label is at least the bucket's index. */
  ghost predicate BucketEntries(lab: seq<int>, buckets: seq<seq<int>>) {
    forall j, k | 0 <= j < |buckets| && 0 <= k < |buckets[j]| ::
      0 <= buckets[j][k] < |lab| && j <= lab[buckets[j][k]]
  }

  /** The state of MCS before filling position it. */
  ghost predicate McsInv(adj: Adj, order: seq<int>, lab: seq<int>, rm: seq<bool>,
                         buckets: seq<seq<int>>, maxLabel: int, it: int)
  {
    NumberedSuffix(|adj|, order, rm, it) && |lab| == |adj| && |buckets| == |adj| &&
    LabelsCount(adj, order, lab, rm, buckets, maxLabel, it) &&
    BucketEntries(lab, buckets) &&
    (it >= 0 ==> 0 <= maxLabel < |adj|) &&
    (forall i | it < i < |adj| :: ChoiceAt(adj, order, i))
  }

  /** Numbers the vertices from n - 1 down to 0, each time taking a vertex
      with the most numbered neighbours from the highest non-empty bucket;
      bucket entries of vertices already numbered are skipped. */
  method Mcs(g: Graph) returns (order: seq<int>)
    requires g.Valid()
    ensures IsMcsOrder(g.adjList, order)
  {
    var n := g.n;
    var adj := g.adjList;
    order := seq(n, _ => 0);
    var lab := new int[n](_ => 0);
    var rm := new bool[n](_ => false);
    var buckets: seq<seq<int>> := seq(n, j => if j == 0 then seq(n, i => i) else []);
    var maxLabel := 0;
    var it := n as int - 1;
    McsStart(adj, order, lab[..], rm[..], buckets);
    while it >= 0
      invariant lab.Length == n && rm.Length == n
      invariant McsInv(adj, order, lab[..], rm[..], buckets, maxLabel, it)
      decreases it + 1, Total(buckets), maxLabel
    {
      order, buckets, maxLabel, it := McsStep(adj, order, lab, rm, buckets, maxLabel, it);
    }
    assert adj == g.adjList;
    McsDone(adj, order, lab[..], rm[..], buckets, maxLabel);
  }

  /** One round of the MCS loop: an empty top bucket lowers maxLabel, a
      stale top entry is dropped, and otherwise the top entry is numbered. */
  method McsStep(adj: Adj, order: seq<int>, lab: array<int>, rm: array<bool>,
                 buckets: seq<seq<int>>, maxLabel: int, it: int)
    returns (order': seq<int>, buckets': seq<seq<int>>, maxLabel': int, it': int)
    requires WellFormed(adj) && McsInv(adj, order, lab[..], rm[..], buckets, maxLabel, it) && it >= 0
    modifies lab, rm
    ensures McsInv(adj, order', lab[..], rm[..], buckets', maxLabel', it')
    ensures it' < it || (it' == it && (Total(buckets') < Total(buckets) || (Total(buckets') == Total(buckets) && 0 <= maxLabel' < maxLabel)))
  {
    if |buckets[maxLabel]| == 0 {
      McsLower(adj, order, lab[..], rm[..], buckets, maxLabel, it);
      return order, buckets, maxLabel - 1, it;
    }
    var b := buckets[maxLabel];
    var x := b[|b| - 1];
    McsPop(adj, order, lab[..], rm[..], buckets, maxLabel, it);
    if rm[x] {
      TotalUpdate(buckets, maxLabel, b[..|b| - 1]);
      return order, buckets[maxLabel := b[..|b| - 1]], maxLabel, it;
    }
    order', buckets', maxLabel' := NumberVertex(adj, order, lab, rm, buckets, maxLabel, it);
    it' := it - 1;
  }

  /** Puts the top entry x of the highest bucket, an unnumbered vertex, at
      position it and raises the labels of its unnumbered neighbours. */
  method NumberVertex(adj: Adj, order: seq<int>, lab: array<int>, rm: array<bool>,
                      buckets: seq<seq<int>>, maxLabel: int, it: int)
    returns (order': seq<int>, buckets': seq<seq<int>>, maxLabel': int)
    requires WellFormed(adj) && McsInv(adj, order, lab[..], rm[..], buckets, maxLabel, it) && it >= 0
    requires buckets[maxLabel] != [] && !rm[buckets[maxLabel][|buckets[maxLabel]| - 1]]
    modifies lab, rm
    ensures order' == order[it := buckets[maxLabel][|buckets[maxLabel]| - 1]]
    ensures McsInv(adj, order', lab[..], rm[..], buckets', maxLabel', it - 1)
  {
    var b := buckets[maxLabel];
    var x := b[|b| - 1];
    McsPop(adj, order, lab[..], rm[..], buckets, maxLabel, it);
    ghost var lab0, rm0 := lab[..], rm[..];
    order' := order[it := x];
    buckets', maxLabel' := IncrementNeighbours(adj, x, lab, rm, buckets[maxLabel := b[..|b| - 1]], maxLabel, order[it+1..]);
    rm[x] := true;
    McsNumbered(adj, order, lab0, rm0, buckets, maxLabel, it, x, lab[..], rm[..], buckets', maxLabel');
  }

  /** With every position filled, the MCS state says order is an MCS order. */
  lemma {:induction false} McsDone(adj: Adj, order: seq<int>, lab: seq<int>, rm: seq<bool>, buckets: seq<seq<int>>, maxLabel: int)
    requires McsInv(adj, order, lab, rm, buckets, maxLabel, -1)
    ensures IsMcsOrder(adj, order)
  {
    assert order[0..] == order;
  }

  /** Before the first step every vertex is unnumbered, with label 0, in bucket 0. */
  lemma {:induction false} McsStart(adj: Adj, order: seq<int>, lab: seq<int>, rm: seq<bool>, buckets: seq<seq<int>>)
    requires |order| == |lab| == |rm| == |buckets| == |adj|
    requires forall v | 0 <= v < |adj| :: lab[v] == 0 && !rm[v]
    requires buckets == seq(|adj|, j => if j == 0 then seq(|adj|, i => i) else [])
    ensures McsInv(adj, order, lab, rm, buckets, 0, |adj| - 1)
  {
    var n := |adj|;
    assert order[n..] == [];
    forall v | 0 <= v < n ensures v in buckets[0] {
      assert buckets[0][v] == v;
    }
  }

  /** An empty top bucket leaves a lower one holding an unnumbered vertex. */
  lemma {:induction false} McsLower(adj: Adj, order: seq<int>, lab: seq<int>, rm: seq<bool>,
                 buckets: seq<seq<int>>, maxLabel: int, it: int)
    requires McsInv(adj, order, lab, rm, buckets, maxLabel, it) && it >= 0 && buckets[maxLabel] == []
    ensures maxLabel >= 1 && McsInv(adj, order, lab, rm, buckets, maxLabel - 1, it)
  {
    var v := Unnumbered(order[it+1..], |adj|);
    assert v in buckets[lab[v]];
  }

  /** Popping the top entry keeps every other unnumbered vertex in its bucket;
      when the entry was numbered already, the state is unchanged otherwise. */
  lemma {:induction false} McsPop(adj: Adj, order: seq<int>, lab: seq<int>, rm: seq<bool>,
               buckets: seq<seq<int>>, maxLabel: int, it: int)
    requires McsInv(adj, order, lab, rm, buckets, maxLabel, it) && it >= 0 && buckets[maxLabel] != []
    ensures var b := buckets[maxLabel];
      var x := b[|b| - 1];
      var popped := buckets[maxLabel := b[..|b| - 1]];
      0 <= x < |adj| && maxLabel <= lab[x] &&
      (forall v | 0 <= v < |adj| && !rm[v] && v != x :: v in popped[lab[v]]) &&
      BucketEntries(lab, popped) &&
      (rm[x] ==> McsInv(adj, order, lab, rm, popped, maxLabel, it))
  {
    var b := buckets[maxLabel];
    var x := b[|b| - 1];
    assert b == b[..|b| - 1] + [x];
    var popped := buckets[maxLabel := b[..|b| - 1]];
    forall j, k | 0 <= j < |adj| && 0 <= k < |popped[j]|
      ensures 0 <= popped[j][k] < |adj| && j <= lab[popped[j][k]]
    {
      if j == maxLabel {
        assert popped[j][k] == buckets[j][k];
      }
    }
  }

  /** Counting the numbered neighbours after x joins the numbered vertices. */
  lemma {:induction false} CountInCons(x: int, s: seq<int>, row: seq<int>)
    ensures CountIn([x] + s, row) == (if x in row then 1 else 0) + CountIn(s, row)
  {
    assert ([x] + s)[1..] == s;
  }

  /** What raising the labels of x's unnumbered neighbours leaves behind:
      labels lab1, buckets1 and maximum maxLabel1 from lab0 and maxLabel0. */
  ghost predicate Bumped(adj: Adj, x: int, lab0: seq<int>, rm0: seq<bool>, lab1: seq<int>,
                         buckets1: seq<seq<int>>, maxLabel0: int, maxLabel1: int) {
    |lab0| == |rm0| == |lab1| == |buckets1| == |adj| && 0 <= x < |adj| &&
    maxLabel0 <= maxLabel1 < |adj| &&
    (forall v | 0 <= v < |adj| :: lab1[v] == lab0[v] + (if !rm0[v] && v in adj[x] then 1 else 0)) &&
    (forall v | 0 <= v < |adj| && !rm0[v] && v != x ::
      lab1[v] <= maxLabel1 && 0 <= lab1[v] < |adj| && v in buckets1[lab1[v]]) &&
    BucketEntries(lab1, buckets1)
  }

  /** Numbering x keeps the MCS state: x had the largest label, so position it
      satisfies the MCS choice. */
  lemma {:induction false} McsNumbered(adj: Adj, order0: seq<int>, lab0: seq<int>, rm0: seq<bool>,
                    buckets0: seq<seq<int>>, maxLabel0: int, it: int, x: int,
                    lab1: seq<int>, rm1: seq<bool>, buckets1: seq<seq<int>>, maxLabel1: int)
    requires WellFormed(adj)
    requires McsInv(adj, order0, lab0, rm0, buckets0, maxLabel0, it) && it >= 0
    requires buckets0[maxLabel0] != [] && x == buckets0[maxLabel0][|buckets0[maxLabel0]| - 1] && !rm0[x]
    requires rm1 == rm0[x := true]
    requires Bumped(adj, x, lab0, rm0, lab1, buckets1, maxLabel0, maxLabel1)
    ensures McsInv(adj, order0[it := x], lab1, rm1, buckets1, maxLabel1, it - 1)
  {
    var order1 := order0[it := x];
    SuffixStep(|adj|, order0, rm0, it, x, order1, rm1);
    LabelsStep(adj, order0, lab0, rm0, it, x, lab1, rm1, buckets1, maxLabel0, maxLabel1, order1);
    NumberedChoice(adj, order0, lab0, rm0, buckets0, maxLabel0, it, x, order1);
  }

  lemma {:induction false} SuffixStep(n: nat, order0: seq<int>, rm0: seq<bool>, it: int, x: int, order1: seq<int>, rm1: seq<bool>)
    requires NumberedSuffix(n, order0, rm0, it) && it >= 0 && 0 <= x < n && !rm0[x]
    requires order1 == order0[it := x] && rm1 == rm0[x := true]
    ensures NumberedSuffix(n, order1, rm1, it - 1)
  {
    assert order1[it..] == [x] + order0[it+1..];
  }

  lemma {:induction false} LabelsStep(adj: Adj, order0: seq<int>, lab0: seq<int>, rm0: seq<bool>, it: int, x: int,
                   lab1: seq<int>, rm1: seq<bool>, buckets1: seq<seq<int>>, maxLabel0: int, maxLabel1: int, order1: seq<int>)
    requires WellFormed(adj) && NumberedSuffix(|adj|, order0, rm0, it) && it >= 0
    requires Bumped(adj, x, lab0, rm0, lab1, buckets1, maxLabel0, maxLabel1)
    requires forall v | 0 <= v < |adj| && !rm0[v] :: lab0[v] == CountIn(order0[it+1..], adj[v])
    requires order1 == order0[it := x] && rm1 == rm0[x := true] && NumberedSuffix(|adj|, order1, rm1, it - 1)
    ensures LabelsCount(adj, order1, lab1, rm1, buckets1, maxLabel1, it - 1)
  {
    NumberedCounts(adj, order0, lab0, rm0, it, x, lab1);
  }

  lemma {:induction false} NumberedCounts(adj: Adj, order0: seq<int>, lab0: seq<int>, rm0: seq<bool>, it: int, x: int, lab1: seq<int>)
    requires WellFormed(adj) && 0 <= it < |order0| && |lab0| == |rm0| == |lab1| == |adj| && 0 <= x < |adj|
    requires forall v | 0 <= v < |adj| && !rm0[v] :: lab0[v] == CountIn(order0[it+1..], adj[v])
    requires forall v | 0 <= v < |adj| :: lab1[v] == lab0[v] + (if !rm0[v] && v in adj[x] then 1 else 0)
    ensures forall v | 0 <= v < |adj| && !rm0[v] :: lab1[v] == CountIn(order0[it := x][it..], adj[v])
  {
    var order1 := order0[it := x];
    assert order1[it..] == [x] + order0[it+1..];
    forall v | 0 <= v < |adj| && !rm0[v] ensures lab1[v] == CountIn(order1[it..], adj[v]) {
      CountInCons(x, order0[it+1..], adj[v]);
      assert x in adj[v] <==> v in adj[x] by {
        assert Adjacent(adj, v, x) <==> Adjacent(adj, x, v);
      }
    }
  }

  lemma {:induction false} NumberedChoice(adj: Adj, order0: seq<int>, lab0: seq<int>, rm0: seq<bool>,
                       buckets0: seq<seq<int>>, maxLabel0: int, it: int, x: int, order1: seq<int>)
    requires McsInv(adj, order0, lab0, rm0, buckets0, maxLabel0, it) && it >= 0
    requires buckets0[maxLabel0] != [] && x == buckets0[maxLabel0][|buckets0[maxLabel0]| - 1] && !rm0[x]
    requires order1 == order0[it := x]
    ensures forall i | it - 1 < i < |adj| :: ChoiceAt(adj, order1, i)
  {
    var n := |adj|;
    assert lab0[x] == maxLabel0;
    forall i | it - 1 < i < n ensures ChoiceAt(adj, order1, i) {
      if i > it {
        assert order1[i..] == order0[i..];
        assert order1[i+1..] == order0[i+1..];
        assert ChoiceAt(adj, order0, i);
      } else {
        assert order1[it..] == [x] + order0[it+1..];
        assert order1[it+1..] == order0[it+1..];
        forall v | 0 <= v < n && v !in order1[i..] ensures CountIn(order1[i+1..], adj[v]) <= CountIn(order1[i+1..], adj[x]) {
          assert !rm0[v];
        }
      }
    }
  }

  /** Raises the label of every unnumbered neighbour of x by one, putting it
      in the bucket of its new label. */
  method IncrementNeighbours(adj: Adj, x: int, lab: array<int>, rm: array<bool>,
                             buckets: seq<seq<int>>, maxLabel: int, ghost s: seq<int>)
    returns (buckets': seq<seq<int>>, maxLabel': int)
    requires WellFormed(adj) && |adj| == lab.Length == rm.Length == |buckets|
    requires 0 <= x < |adj| && !rm[x]
    requires NoRepeats(s) && Below(s, |adj|) && forall v | 0 <= v < |adj| :: rm[v] <==> v in s
    requires forall v | 0 <= v < |adj| && !rm[v] :: 0 <= lab[v] <= |s|
    requires forall v | 0 <= v < |adj| && !rm[v] && v != x ::
      lab[v] <= maxLabel && 0 <= lab[v] < |adj| && v in buckets[lab[v]]
    requires BucketEntries(lab[..], buckets)
    requires 0 <= maxLabel < |adj|
    modifies lab
    ensures Bumped(adj, x, old(lab[..]), rm[..], lab[..], buckets', maxLabel, maxLabel')
  {
    var n := |adj|;
    var row := adj[x];
    buckets', maxLabel' := buckets, maxLabel;
    for t := 0 to |row|
      invariant |buckets'| == n && maxLabel <= maxLabel' < n
      invariant forall v | 0 <= v < n :: lab[v] == old(lab[v]) + (if !rm[v] && v in row[..t] then 1 else 0)
      invariant forall v | 0 <= v < n && !rm[v] && v != x ::
        lab[v] <= maxLabel' && 0 <= lab[v] < n && v in buckets'[lab[v]]
      invariant BucketEntries(lab[..], buckets')
    {
      var nx := row[t];
      assert row[..t+1] == row[..t] + [nx];
      assert Adjacent(adj, x, nx) && 0 <= nx < n && nx != x;
      if !rm[nx] {
        assert nx !in row[..t];
        Room(s, n, {x, nx});
        lab[nx] := lab[nx] + 1;
        var l := lab[nx];
        buckets' := buckets'[l := buckets'[l] + [nx]];
        maxLabel' := if maxLabel' < l then l else maxLabel';
      }
    }
    assert row[..|row|] == row;
  }

  // MCS-M

  /** The fill edges, the elimination order and, per position, whether the
      label did not grow from the previous step (a maximal clique starts). */
  datatype McsMOutput = McsMOutput(fillEdges: seq<Edge>, eliminationOrder: seq<int>, isMaximalCliquePoint: seq<bool>)

  /** How many entries of b are false. */
  function Unmarked(b: seq<bool>): (c: nat)
    ensures c <= |b|
  {
    if b == [] then 0 else (if b[0] then 0 else 1) + Unmarked(b[1..])
  }

  lemma {:induction false} UnmarkedMark(b: seq<bool>, z: int)
    requires 0 <= z < |b| && !b[z]
    ensures Unmarked(b[z := true]) == Unmarked(b) - 1
  {
    if z > 0 {
      UnmarkedMark(b[1..], z - 1);
      assert b[z := true][1..] == b[1..][z - 1 := true];
    }
  }

  /** The unnumbered vertex of largest label, the highest-numbered one among ties. */
  method MaxLabelVertex(lab: array<int>, rm: array<bool>) returns (x: int)
    requires lab.Length == rm.Length
    requires forall v | 0 <= v < lab.Length :: lab[v] >= 0
    requires exists v | 0 <= v < rm.Length :: !rm[v]
    ensures 0 <= x < lab.Length && !rm[x]
    ensures forall v | 0 <= v < lab.Length && !rm[v] :: lab[v] <= lab[x]
    ensures forall v | x < v < lab.Length && !rm[v] :: lab[v] < lab[x]
  {
    x := 0;
    var maxLabel := 0;
    ghost var found := false;
    for i := 0 to lab.Length
      invariant 0 <= x < lab.Length && maxLabel >= 0
      invariant found <==> exists v | 0 <= v < i :: !rm[v]
      invariant found ==> !rm[x] && maxLabel == lab[x] && x < i
      invariant !found ==> maxLabel == 0
      invariant forall v | 0 <= v < i && !rm[v] :: lab[v] <= maxLabel
      invariant forall v | x < v < i && !rm[v] :: lab[v] < maxLabel
    {
      if !rm[i] && lab[i] >= maxLabel {
        x := i;
        maxLabel := lab[x];
      }
      found := found || !rm[i];
    }
  }

  /** Labels during one MCS-M step from the labels L0 at its start, with cur
      the fill edges recorded so far in the step: exactly the vertices given a
      fill edge from x gained one and are reached, and the unnumbered
      neighbours of x are reached and keep their labels. */
  ghost predicate StepLabels(adj: Adj, x: int, L0: seq<int>, lab: seq<int>, rm: seq<bool>, rc: seq<bool>, cur: seq<Edge>) {
    |L0| == |lab| == |rm| == |rc| == |adj| && 0 <= x < |adj| && rm[x] && rc[x] &&
    (forall v | 0 <= v < |adj| :: lab[v] == L0[v] + (if (x, v) in cur then 1 else 0) && ((x, v) in cur ==> rc[v])) &&
    (forall v | 0 <= v < |adj| && !rm[v] && v in adj[x] :: rc[v] && lab[v] == L0[v])
  }

  /** Every edge of added joins x to an unnumbered vertex that is not its neighbour. */
  ghost predicate FillOf(adj: Adj, x: int, rm: seq<bool>, added: seq<Edge>) {
    forall k | 0 <= k < |added| ::
      added[k].0 == x && 0 <= added[k].1 < |rm| && !rm[added[k].1] && added[k].1 != x &&
      !Adjacent(adj, x, added[k].1)
  }

  /** |reach| buckets holding vertices below n. */
  ghost predicate Buckets(reach: seq<seq<int>>, n: int) {
    |reach| == n && forall j, k | 0 <= j < |reach| && 0 <= k < |reach[j]| :: 0 <= reach[j][k] < n
  }

  /** Scans the neighbours of y, reaching each one with ReachVertex. */
  method ScanNeighbours(adj: Adj, x: int, y: int, i: int, lab: array<int>, rm: array<bool>, rc: array<bool>,
                        reach: seq<seq<int>>, fill: seq<Edge>, ghost L0: seq<int>)
    returns (reach': seq<seq<int>>, fill': seq<Edge>)
    requires WellFormed(adj) && 0 <= y < |adj| && 0 <= i < |adj| && rm != rc
    requires StepLabels(adj, x, L0, lab[..], rm[..], rc[..], fill) && forall v | 0 <= v < |adj| :: 0 <= L0[v] < |adj|
    requires Buckets(reach, |adj|)
    modifies lab, rc
    ensures StepLabels(adj, x, L0, lab[..], rm[..], rc[..], fill') && Buckets(reach', |adj|)
    ensures |fill'| >= |fill| && fill'[..|fill|] == fill && FillOf(adj, x, rm[..], fill'[|fill|..])
    ensures Unmarked(rc[..]) < Unmarked(old(rc[..])) || (Unmarked(rc[..]) == Unmarked(old(rc[..])) && reach' == reach)
  {
    var row := adj[y];
    reach', fill' := reach, fill;
    ghost var added: seq<Edge> := [];
    for t := 0 to |row|
      invariant StepLabels(adj, x, L0, lab[..], rm[..], rc[..], fill') && Buckets(reach', |adj|)
      invariant fill' == fill + added && FillOf(adj, x, rm[..], added)
      invariant Unmarked(rc[..]) < Unmarked(old(rc[..])) || (Unmarked(rc[..]) == Unmarked(old(rc[..])) && reach' == reach)
    {
      var z := row[t];
      assert Adjacent(adj, y, z);
      ghost var fill0 := fill';
      reach', fill' := ReachVertex(adj, x, z, i, lab, rm, rc, reach', fill', L0);
      FillOfConcat(adj, x, rm[..], added, fill'[|fill0|..]);
      added := added + fill'[|fill0|..];
    }
    assert fill'[|fill|..] == added;
  }

  lemma {:induction false} FillOfConcat(adj: Adj, x: int, rm: seq<bool>, a: seq<Edge>, b: seq<Edge>)
    requires FillOf(adj, x, rm, a) && FillOf(adj, x, rm, b)
    ensures FillOf(adj, x, rm, a + b)
  {
    forall k | 0 <= k < |a + b| ensures (a + b)[k] == if k < |a| then a[k] else b[k - |a|] {
    }
  }

  /** Reaches z when it is unnumbered and not reached yet: when its label
      exceeds i it goes to the bucket of its label, gains one and gets the fill
      edge (x, z), otherwise it joins bucket i. */
  method ReachVertex(adj: Adj, x: int, z: int, i: int, lab: array<int>, rm: array<bool>, rc: array<bool>,
                     reach: seq<seq<int>>, fill: seq<Edge>, ghost L0: seq<int>)
    returns (reach': seq<seq<int>>, fill': seq<Edge>)
    requires WellFormed(adj) && 0 <= z < |adj| && 0 <= i < |adj| && rm != rc
    requires StepLabels(adj, x, L0, lab[..], rm[..], rc[..], fill) && forall v | 0 <= v < |adj| :: 0 <= L0[v] < |adj|
    requires Buckets(reach, |adj|)
    modifies lab, rc
    ensures StepLabels(adj, x, L0, lab[..], rm[..], rc[..], fill') && Buckets(reach', |adj|)
    ensures |fill'| >= |fill| && fill'[..|fill|] == fill && FillOf(adj, x, rm[..], fill'[|fill|..])
    ensures Unmarked(rc[..]) < Unmarked(old(rc[..])) || (rc[..] == old(rc[..]) && reach' == reach)
  {
    reach', fill' := reach, fill;
    if !rm[z] && !rc[z] {
      UnmarkedMark(rc[..], z);
      rc[z] := true;
      assert rc[..] == old(rc[..])[z := true];
      if lab[z] > i {
        reach' := reach'[lab[z] := reach'[lab[z]] + [z]];
        lab[z] := lab[z] + 1;
        fill' := fill' + [(x, z)];
        assert fill'[|fill|..] == [(x, z)];
      } else {
        reach' := reach'[i := reach'[i] + [z]];
      }
    }
  }

  /** Empties the buckets from the lowest up, scanning the neighbours of every
      vertex taken out. */
  method ReachPhase(adj: Adj, x: int, lab: array<int>, rm: array<bool>, rc: array<bool>,
                    reach: seq<seq<int>>, fill: seq<Edge>, ghost L0: seq<int>)
    returns (reach': seq<seq<int>>, fill': seq<Edge>)
    requires WellFormed(adj) && rm != rc
    requires StepLabels(adj, x, L0, lab[..], rm[..], rc[..], fill) && forall v | 0 <= v < |adj| :: 0 <= L0[v] < |adj|
    requires Buckets(reach, |adj|)
    modifies lab, rc
    ensures StepLabels(adj, x, L0, lab[..], rm[..], rc[..], fill') && Buckets(reach', |adj|)
    ensures |fill'| >= |fill| && fill'[..|fill|] == fill && FillOf(adj, x, rm[..], fill'[|fill|..])
  {
    reach', fill' := reach, fill;
    ghost var added: seq<Edge> := [];
    for i := 0 to |adj|
      invariant StepLabels(adj, x, L0, lab[..], rm[..], rc[..], fill') && Buckets(reach', |adj|)
      invariant fill' == fill + added && FillOf(adj, x, rm[..], added)
    {
      while reach'[i] != []
        invariant StepLabels(adj, x, L0, lab[..], rm[..], rc[..], fill') && Buckets(reach', |adj|)
        invariant fill' == fill + added && FillOf(adj, x, rm[..], added)
        decreases Unmarked(rc[..]), |reach'[i]|
      {
        var b := reach'[i];
        var y := b[|b| - 1];
        reach' := reach'[i := b[..|b| - 1]];
        ghost var fill0 := fill';
        reach', fill' := ScanNeighbours(adj, x, y, i, lab, rm, rc, reach', fill', L0);
        FillOfConcat(adj, x, rm[..], added, fill'[|fill0|..]);
        added := added + fill'[|fill0|..];
      }
    }
    assert fill'[|fill|..] == added;
  }

  /** Marks the unnumbered neighbours of x as reached and puts each in the
      bucket of its label. */
  method PushNeighbours(adj: Adj, x: int, lab: array<int>, rm: array<bool>, rc: array<bool>,
                        reach: seq<seq<int>>, ghost L0: seq<int>)
    returns (reach': seq<seq<int>>)
    requires WellFormed(adj) && rm != rc && 0 <= x < |adj|
    requires |adj| == lab.Length == rm.Length == rc.Length && L0 == lab[..] && forall v | 0 <= v < |adj| :: 0 <= L0[v] < |adj|
    requires rm[x] && rc[x] && Buckets(reach, |adj|)
    modifies rc
    ensures StepLabels(adj, x, L0, lab[..], rm[..], rc[..], []) && Buckets(reach', |adj|)
  {
    var row := adj[x];
    reach' := reach;
    for t := 0 to |row|
      invariant rc[x] && Buckets(reach', |adj|)
      invariant forall v | 0 <= v < |adj| && !rm[v] && v in row[..t] :: rc[v]
    {
      var y := row[t];
      assert Adjacent(adj, x, y);
      assert row[..t+1] == row[..t] + [y];
      if !rm[y] {
        rc[y] := true;
        reach' := reach'[lab[y] := reach'[lab[y]] + [y]];
      }
    }
    assert row[..|row|] == row;
  }

  /** Raises by one the label of every unnumbered neighbour of x. */
  method RaiseNeighbourLabels(adj: Adj, x: int, lab: array<int>, rm: array<bool>)
    requires WellFormed(adj) && lab.Length == rm.Length == |adj| && 0 <= x < |adj|
    modifies lab
    ensures forall v | 0 <= v < |adj| :: lab[v] == old(lab[v]) + (if !rm[v] && v in adj[x] then 1 else 0)
  {
    var row := adj[x];
    for t := 0 to |row|
      invariant forall v | 0 <= v < |adj| :: lab[v] == old(lab[v]) + (if !rm[v] && v in row[..t] then 1 else 0)
    {
      var y := row[t];
      assert Adjacent(adj, x, y);
      assert row[..t+1] == row[..t] + [y];
      assert y !in row[..t];
      if !rm[y] {
        lab[y] := lab[y] + 1;
      }
    }
    assert row[..|row|] == row;
  }

  /** e joins order[p] to a vertex placed before position p that was not its neighbour. */
  ghost predicate FillAt(adj: Adj, order: seq<int>, e: Edge, p: int)
    requires 0 <= p < |order|
  {
    e.0 == order[p] && 0 <= e.1 < |adj| && e.1 != e.0 && e.1 !in order[p..] && !Adjacent(adj, e.0, e.1)
  }

  /** Every fill edge joins a vertex to a non-neighbour eliminated before it. */
  ghost predicate FillEdgesOrdered(adj: Adj, order: seq<int>, fill: seq<Edge>) {
    forall k | 0 <= k < |fill| :: EliminatedBefore(adj, order, fill[k])
  }

  /** e joins some order[p] to a non-neighbour placed before position p. */
  ghost predicate EliminatedBefore(adj: Adj, order: seq<int>, e: Edge) {
    exists p | 0 <= p < |order| :: e.0 == order[p] && e.1 in order[..p] && e.1 != e.0 && !Adjacent(adj, e.0, e.1)
  }

  /** The vertices u with a fill edge (u, v) recorded. */
  ghost function FillSources(fill: seq<Edge>, v: int): (r: seq<int>)
    ensures forall u :: u in r <==> (u, v) in fill
  {
    if fill == [] then []
    else
      var last := fill[|fill| - 1];
      assert fill == fill[..|fill| - 1] + [last];
      FillSources(fill[..|fill| - 1], v) + (if last.1 == v then [last.0] else [])
  }

  /** The label MCS-M gives v when it numbers position p: how many vertices
      at later positions are its neighbours in the graph or reach it through a
      fill edge, that is, its numbered neighbours in the filled graph. */
  ghost function FilledLabel(adj: Adj, fill: seq<Edge>, order: seq<int>, p: int, v: int): nat
    requires -1 <= p < |order| && 0 <= v < |adj|
  {
    CountIn(order[p+1..], adj[v] + FillSources(fill, v))
  }

  /** Position p took an unnumbered vertex of largest filled label, the
      highest-numbered one among ties. */
  ghost predicate McsMChoiceAt(adj: Adj, fill: seq<Edge>, order: seq<int>, p: int)
    requires 0 <= p < |order|
  {
    0 <= order[p] < |adj| &&
    forall v | 0 <= v < |adj| && v !in order[p..] ::
      FilledLabel(adj, fill, order, p, v) <= FilledLabel(adj, fill, order, p, order[p]) &&
      (v > order[p] ==> FilledLabel(adj, fill, order, p, v) < FilledLabel(adj, fill, order, p, order[p]))
  }

  /** The flag at p is set exactly when the label order[p] had when numbered
      did not exceed the label of the vertex numbered just before it. */
  ghost predicate CliquePointAt(adj: Adj, fill: seq<Edge>, order: seq<int>, isMax: seq<bool>, p: int)
    requires 0 <= p < |order| == |isMax|
  {
    0 <= order[p] < |adj| && (p + 1 < |order| ==> 0 <= order[p + 1] < |adj|) &&
    isMax[p] == (p + 1 < |order| &&
      FilledLabel(adj, fill, order, p, order[p]) <= FilledLabel(adj, fill, order, p + 1, order[p + 1]))
  }

  /** Every unnumbered vertex carries its filled label at position it. */
  ghost predicate LabelsFilled(adj: Adj, fill: seq<Edge>, order: seq<int>, lab: seq<int>, rm: seq<bool>, it: int)
    requires -1 <= it < |order| && |lab| == |rm| == |adj|
  {
    forall v | 0 <= v < |adj| && !rm[v] :: lab[v] == FilledLabel(adj, fill, order, it, v)
  }

  /** Every position after it followed the choice rule and has its flag. */
  ghost predicate PositionsChosen(adj: Adj, fill: seq<Edge>, order: seq<int>, isMax: seq<bool>, it: int)
    requires |order| == |isMax|
  {
    forall p | it < p < |order| && 0 <= p :: McsMChoiceAt(adj, fill, order, p) && CliquePointAt(adj, fill, order, isMax, p)
  }

  /** prevLabel is the label the vertex at position it + 1 had when numbered,
      or -1 before the first round. */
  ghost predicate PrevLabelOf(adj: Adj, fill: seq<Edge>, order: seq<int>, prevLabel: int, it: int)
    requires -1 <= it < |order|
  {
    (it + 1 == |order| ==> prevLabel == -1) &&
    (it + 1 < |order| ==>
      McsMChoiceAt(adj, fill, order, it + 1) && prevLabel == FilledLabel(adj, fill, order, it + 1, order[it + 1]))
  }

  /** The labels of the MCS-M loop before numbering position it: every
      unnumbered vertex carries its filled label, every numbered position
      followed the choice rule and has its flag, and prevLabel is the label of
      the last vertex numbered. */
  ghost predicate McsMLabels(adj: Adj, order: seq<int>, lab: seq<int>, rm: seq<bool>, fill: seq<Edge>,
                             isMax: seq<bool>, prevLabel: int, it: int) {
    -1 <= it < |order| && |order| == |lab| == |rm| == |isMax| == |adj| &&
    LabelsFilled(adj, fill, order, lab, rm, it) && PositionsChosen(adj, fill, order, isMax, it) &&
    PrevLabelOf(adj, fill, order, prevLabel, it)
  }

  /** Two rows that agree on the entries of s count the same. */
  lemma {:induction false} CountInSame(s: seq<int>, row: seq<int>, row': seq<int>)
    requires forall k | 0 <= k < |s| :: s[k] in row <==> s[k] in row'
    ensures CountIn(s, row) == CountIn(s, row')
  {
    if s != [] {
      assert forall k | 0 <= k < |s[1..]| :: s[1..][k] == s[k + 1];
      CountInSame(s[1..], row, row');
    }
  }

  /** Numbering x at position it and recording fill edges from x leaves the
      filled label at every position from it on unchanged. */
  lemma {:induction false} FilledLabelFrame(adj: Adj, fill: seq<Edge>, added: seq<Edge>, order: seq<int>,
                                            x: int, it: int, p: int, v: int)
    requires 0 <= it <= p < |order| && 0 <= v < |adj| && x !in order[it+1..]
    requires forall k | 0 <= k < |added| :: added[k].0 == x
    ensures FilledLabel(adj, fill + added, order[it := x], p, v) == FilledLabel(adj, fill, order, p, v)
  {
    var s := order[p+1..];
    assert order[it := x][p+1..] == s;
    var row, row' := adj[v] + FillSources(fill, v), adj[v] + FillSources(fill + added, v);
    forall k | 0 <= k < |s| ensures s[k] in row <==> s[k] in row' {
      assert s[k] == order[it+1..][p - it + k];
    }
    CountInSame(s, row, row');
  }

  /** After numbering x at position it, the label of a vertex still
      unnumbered is its filled label one position earlier. */
  lemma {:induction false} FilledLabelStep(adj: Adj, fill: seq<Edge>, added: seq<Edge>, order: seq<int>,
                                           x: int, it: int, v: int)
    requires WellFormed(adj) && 0 <= it < |order| && 0 <= v < |adj| && 0 <= x < |adj| && x !in order[it+1..]
    requires forall k | 0 <= k < |added| :: added[k].0 == x
    requires forall k | 0 <= k < |fill| :: fill[k].0 in order[it+1..]
    ensures FilledLabel(adj, fill + added, order[it := x], it - 1, v) ==
      FilledLabel(adj, fill, order, it, v) + (if v in adj[x] || (x, v) in added then 1 else 0)
  {
    var order' := order[it := x];
    var row' := adj[v] + FillSources(fill + added, v);
    assert order'[it..] == [x] + order[it+1..];
    CountInCons(x, order[it+1..], row');
    assert order'[it+1..] == order[it+1..];
    FilledLabelFrame(adj, fill, added, order, x, it, it, v);
    assert x in adj[v] <==> v in adj[x] by {
      assert Adjacent(adj, v, x) <==> Adjacent(adj, x, v);
    }
  }

  /** One MCS-M round keeps the labels: the vertex x it numbered had the
      largest label, the highest-numbered one among ties, and every vertex
      still unnumbered gained one exactly when joined to x in the graph or by
      a new fill edge. */
  lemma {:induction false} McsMLabelsStep(adj: Adj, order: seq<int>, L0: seq<int>, rm0: seq<bool>, fill: seq<Edge>,
                                          pos: seq<int>, isMax: seq<bool>, prevLabel: int, it: int, x: int,
                                          added: seq<Edge>, lab2: seq<int>, rm1: seq<bool>,
                                          order': seq<int>, fill': seq<Edge>, isMax': seq<bool>)
    requires WellFormed(adj) && 0 <= it && NumberedSuffix(|adj|, order, rm0, it)
    requires McsMLabels(adj, order, L0, rm0, fill, isMax, prevLabel, it)
    requires |pos| == |fill| && forall k | 0 <= k < |fill| :: it < pos[k] < |adj| && FillAt(adj, order, fill[k], pos[k])
    requires 0 <= x < |adj| && !rm0[x] && rm1 == rm0[x := true] && FillOf(adj, x, rm1, added)
    requires forall v | 0 <= v < |adj| && !rm0[v] :: L0[v] <= L0[x]
    requires forall v | x < v < |adj| && !rm0[v] :: L0[v] < L0[x]
    requires |lab2| == |adj| && forall v | 0 <= v < |adj| ::
      lab2[v] == L0[v] + (if !rm1[v] && (v in adj[x] || (x, v) in added) then 1 else 0)
    requires order' == order[it := x] && fill' == fill + added && isMax' == isMax[it := L0[x] <= prevLabel]
    ensures McsMLabels(adj, order', lab2, rm1, fill', isMax', L0[x], it - 1)
  {
    assert x !in order[it+1..];
    FillFromNumbered(adj, order, fill, pos, it);
    LabelsAfterStep(adj, fill, added, order, x, it, L0, rm0, lab2, rm1, fill', order');
    OldPositionsAfterStep(adj, fill, added, order, isMax, x, it, L0[x] <= prevLabel, fill', order', isMax');
    McsMNewPosition(adj, order, L0, rm0, fill, isMax, prevLabel, it, x, added, fill', order', isMax');
  }

  /** Every fill edge recorded so far starts at a numbered vertex. */
  lemma {:induction false} FillFromNumbered(adj: Adj, order: seq<int>, fill: seq<Edge>, pos: seq<int>, it: int)
    requires 0 <= it < |order| && |pos| == |fill|
    requires forall k | 0 <= k < |fill| :: it < pos[k] < |order| && FillAt(adj, order, fill[k], pos[k])
    ensures forall k | 0 <= k < |fill| :: fill[k].0 in order[it+1..]
  {
    forall k | 0 <= k < |fill| ensures fill[k].0 in order[it+1..] {
      assert fill[k].0 == order[it+1..][pos[k] - it - 1];
    }
  }

  /** After numbering x, every vertex still unnumbered carries its filled label. */
  lemma {:induction false} LabelsAfterStep(adj: Adj, fill: seq<Edge>, added: seq<Edge>, order: seq<int>, x: int, it: int,
                                           L0: seq<int>, rm0: seq<bool>, lab2: seq<int>, rm1: seq<bool>,
                                           fill': seq<Edge>, order': seq<int>)
    requires WellFormed(adj) && 0 <= it < |order| && 0 <= x < |adj| && x !in order[it+1..]
    requires |L0| == |rm0| == |lab2| == |adj| && rm1 == rm0[x := true]
    requires fill' == fill + added && order' == order[it := x]
    requires LabelsFilled(adj, fill, order, L0, rm0, it)
    requires forall k | 0 <= k < |added| :: added[k].0 == x
    requires forall k | 0 <= k < |fill| :: fill[k].0 in order[it+1..]
    requires forall v | 0 <= v < |adj| ::
      lab2[v] == L0[v] + (if !rm1[v] && (v in adj[x] || (x, v) in added) then 1 else 0)
    ensures LabelsFilled(adj, fill', order', lab2, rm1, it - 1)
  {
    forall v | 0 <= v < |adj| && !rm1[v] ensures lab2[v] == FilledLabel(adj, fill + added, order[it := x], it - 1, v) {
      FilledLabelStep(adj, fill, added, order, x, it, v);
    }
  }

  /** The positions numbered before x keep their choice and their flags. */
  lemma {:induction false} OldPositionsAfterStep(adj: Adj, fill: seq<Edge>, added: seq<Edge>, order: seq<int>,
                                                 isMax: seq<bool>, x: int, it: int, b: bool,
                                                 fill': seq<Edge>, order': seq<int>, isMax': seq<bool>)
    requires 0 <= it < |order| == |isMax| && x !in order[it+1..]
    requires forall k | 0 <= k < |added| :: added[k].0 == x
    requires fill' == fill + added && order' == order[it := x] && isMax' == isMax[it := b]
    requires PositionsChosen(adj, fill, order, isMax, it)
    ensures forall p | it < p < |order'| :: McsMChoiceAt(adj, fill', order', p) && CliquePointAt(adj, fill', order', isMax', p)
  {
    forall p | it < p < |order'|
      ensures McsMChoiceAt(adj, fill', order', p) && CliquePointAt(adj, fill', order', isMax', p)
    {
      McsMOldPosition(adj, fill, added, order, isMax, x, it, p, b);
    }
  }

  /** A position numbered before x keeps its choice and its flag. */
  lemma {:induction false} McsMOldPosition(adj: Adj, fill: seq<Edge>, added: seq<Edge>, order: seq<int>,
                                           isMax: seq<bool>, x: int, it: int, p: int, b: bool)
    requires 0 <= it < p < |order| == |isMax| && x !in order[it+1..]
    requires forall k | 0 <= k < |added| :: added[k].0 == x
    requires McsMChoiceAt(adj, fill, order, p) && CliquePointAt(adj, fill, order, isMax, p)
    ensures McsMChoiceAt(adj, fill + added, order[it := x], p)
    ensures CliquePointAt(adj, fill + added, order[it := x], isMax[it := b], p)
  {
    var order' := order[it := x];
    assert order'[p..] == order[p..];
    forall v | 0 <= v < |adj| ensures FilledLabel(adj, fill + added, order', p, v) == FilledLabel(adj, fill, order, p, v) {
      FilledLabelFrame(adj, fill, added, order, x, it, p, v);
    }
    if p + 1 < |order| {
      FilledLabelFrame(adj, fill, added, order, x, it, p + 1, order[p + 1]);
    }
  }

  /** Position it, where x was numbered, follows the choice rule and has its flag. */
  lemma {:induction false} McsMNewPosition(adj: Adj, order: seq<int>, L0: seq<int>, rm0: seq<bool>, fill: seq<Edge>,
                                           isMax: seq<bool>, prevLabel: int, it: int, x: int, added: seq<Edge>,
                                           fill': seq<Edge>, order': seq<int>, isMax': seq<bool>)
    requires 0 <= it && NumberedSuffix(|adj|, order, rm0, it)
    requires McsMLabels(adj, order, L0, rm0, fill, isMax, prevLabel, it)
    requires 0 <= x < |adj| && !rm0[x]
    requires forall v | 0 <= v < |adj| && !rm0[v] :: L0[v] <= L0[x]
    requires forall v | x < v < |adj| && !rm0[v] :: L0[v] < L0[x]
    requires forall k | 0 <= k < |added| :: added[k].0 == x
    requires fill' == fill + added && order' == order[it := x] && isMax' == isMax[it := L0[x] <= prevLabel]
    requires forall p | it < p < |order'| :: McsMChoiceAt(adj, fill', order', p) && CliquePointAt(adj, fill', order', isMax', p)
    ensures PositionsChosen(adj, fill', order', isMax', it - 1)
    ensures PrevLabelOf(adj, fill', order', L0[x], it - 1)
  {
    assert x !in order[it+1..];
    assert order'[it..] == [x] + order[it+1..];
    forall v | 0 <= v < |adj| && v !in order'[it..]
      ensures FilledLabel(adj, fill', order', it, v) == L0[v] && !rm0[v]
    {
      FilledLabelFrame(adj, fill, added, order, x, it, it, v);
    }
    FilledLabelFrame(adj, fill, added, order, x, it, it, x);
    if it + 1 < |adj| {
      FilledLabelFrame(adj, fill, added, order, x, it, it + 1, order[it + 1]);
    }
    assert McsMChoiceAt(adj, fill', order', it) && CliquePointAt(adj, fill', order', isMax', it);
  }

  /** The state of the MCS-M loop before numbering position it. */
  ghost predicate McsMInv(adj: Adj, order: seq<int>, lab: seq<int>, rm: seq<bool>, reach: seq<seq<int>>,
                          fill: seq<Edge>, pos: seq<int>, isMax: seq<bool>, prevLabel: int, it: int) {
    NumberedSuffix(|adj|, order, rm, it) && |lab| == |adj| &&
    (forall v | 0 <= v < |adj| :: 0 <= lab[v] <= |adj| - 1 - it) &&
    Buckets(reach, |adj|) && |isMax| == |adj| &&
    (it < |adj| - 1 ==> !isMax[|adj| - 1]) && (it == |adj| - 1 ==> prevLabel == -1) &&
    |pos| == |fill| && (forall k | 0 <= k < |fill| :: it < pos[k] < |adj| && FillAt(adj, order, fill[k], pos[k]))
  }

  /** MCS-M: numbers the vertices from n - 1 down to 0, each time taking the
      unnumbered vertex of largest label (the highest one among ties), then
      raising the label of every unnumbered vertex reachable from it through
      vertices of smaller label, and recording a fill edge to each such vertex
      that is not a neighbour. A position is a maximal clique point when its
      label did not grow over the previous one. The label a vertex has when
      numbered is its number of numbered neighbours in the graph plus the
      fill edges (FilledLabel), so every position follows the choice rule in
      that filled graph and carries the flag it defines (PositionsChosen). */
  method McsM(g: Graph) returns (out: McsMOutput)
    requires g.Valid()
    ensures |out.eliminationOrder| == g.n && IsPermutation(out.eliminationOrder)
    ensures |out.isMaximalCliquePoint| == g.n && (g.n > 0 ==> !out.isMaximalCliquePoint[g.n - 1])
    ensures FillEdgesOrdered(g.adjList, out.eliminationOrder, out.fillEdges)
    ensures PositionsChosen(g.adjList, out.fillEdges, out.eliminationOrder, out.isMaximalCliquePoint, -1)
  {
    var n := g.n;
    var adj := g.adjList;
    var lab := new int[n](_ => 0);
    var rm := new bool[n](_ => false);
    var rc := new bool[n](_ => false);
    var reach: seq<seq<int>> := seq(n, _ => []);
    var fill: seq<Edge> := [];
    var order := seq(n, _ => 0);
    var isMax := seq(n, _ => false);
    var prevLabel := -1;
    var it := n as int - 1;
    ghost var pos: seq<int> := [];
    assert order[it+1..] == [];
    while it >= 0
      invariant lab.Length == rm.Length == rc.Length == n
      invariant McsMInv(adj, order, lab[..], rm[..], reach, fill, pos, isMax, prevLabel, it)
      invariant McsMLabels(adj, order, lab[..], rm[..], fill, isMax, prevLabel, it)
    {
      order, reach, fill, isMax, prevLabel, pos := McsMStep(adj, order, lab, rm, rc, reach, fill, isMax, prevLabel, it, pos);
      it := it - 1;
    }
    assert adj == g.adjList;
    McsMDone(adj, order, fill, pos);
    out := McsMOutput(fill, order, isMax);
  }

  /** Once every position is numbered, order is a permutation and each fill
      edge's second end sits before its first. */
  lemma {:induction false} McsMDone(adj: Adj, order: seq<int>, fill: seq<Edge>, pos: seq<int>)
    requires |order| == |adj| && NoRepeats(order) && Below(order, |adj|)
    requires |pos| == |fill| && forall k | 0 <= k < |fill| :: 0 <= pos[k] < |adj| && FillAt(adj, order, fill[k], pos[k])
    ensures IsPermutation(order) && FillEdgesOrdered(adj, order, fill)
  {
    forall k | 0 <= k < |fill|
      ensures EliminatedBefore(adj, order, fill[k])
    {
      var p := pos[k];
      PermutationOnto(order, fill[k].1);
      var j :| 0 <= j < |order| && order[j] == fill[k].1;
      PrefixOrSuffix(order, p, j);
      assert fill[k].0 == order[p] && fill[k].1 in order[..p];
    }
  }

  /** Each entry of s lies before or from position p. */
  lemma {:induction false} PrefixOrSuffix(s: seq<int>, p: int, j: int)
    requires 0 <= p <= |s| && 0 <= j < |s|
    ensures s[j] in s[..p] || s[j] in s[p..]
  {
    if j < p {
      assert s[..p][j] == s[j];
    } else {
      assert s[p..][j - p] == s[j];
    }
  }

  /** One round of MCS-M: numbers position it and updates labels and fill. */
  method McsMStep(adj: Adj, order: seq<int>, lab: array<int>, rm: array<bool>, rc: array<bool>,
                  reach: seq<seq<int>>, fill: seq<Edge>, isMax: seq<bool>, prevLabel: int, it: int, ghost pos: seq<int>)
    returns (order': seq<int>, reach': seq<seq<int>>, fill': seq<Edge>, isMax': seq<bool>, prevLabel': int, ghost pos': seq<int>)
    requires WellFormed(adj) && lab.Length == rm.Length == rc.Length == |adj| && rm != rc && it >= 0
    requires McsMInv(adj, order, lab[..], rm[..], reach, fill, pos, isMax, prevLabel, it)
    requires McsMLabels(adj, order, lab[..], rm[..], fill, isMax, prevLabel, it)
    modifies lab, rm, rc
    ensures McsMInv(adj, order', lab[..], rm[..], reach', fill', pos', isMax', prevLabel', it - 1)
    ensures McsMLabels(adj, order', lab[..], rm[..], fill', isMax', prevLabel', it - 1)
  {
    var n := |adj|;
    ghost var u := Unnumbered(order[it+1..], n);
    assert !rm[u];
    var x := MaxLabelVertex(lab, rm);
    order' := order[it := x];
    isMax' := isMax[it := lab[x] <= prevLabel];
    prevLabel' := lab[x];
    ghost var L0 := lab[..];
    ghost var rm0 := rm[..];
    rm[x] := true;
    SuffixStep(n, order, rm0, it, x, order', rm[..]);
    var added;
    reach', added := McsMRound(adj, x, lab, rm, rc, reach);
    fill' := fill + added;
    pos' := pos + seq(|added|, _ => it);
    assert fill'[|fill|..] == added;
    FillStep(adj, order, order', x, it, fill, fill', pos, pos', rm[..]);
    McsMLabelsStep(adj, order, L0, rm0, fill, pos, isMax, prevLabel, it, x, added, lab[..], rm[..], order', fill', isMax');
  }

  /** The labelling part of one MCS-M round for the vertex x just numbered:
      clears the reached marks, reaches the unnumbered neighbours of x and
      then everything reachable through vertices of smaller label, recording
      a fill edge (x, z) for each vertex z whose label exceeds the path's, and
      raises the labels of the neighbours of x. */
  method McsMRound(adj: Adj, x: int, lab: array<int>, rm: array<bool>, rc: array<bool>, reach: seq<seq<int>>)
    returns (reach': seq<seq<int>>, added: seq<Edge>)
    requires WellFormed(adj) && lab.Length == rm.Length == rc.Length == |adj| && rm != rc
    requires 0 <= x < |adj| && rm[x] && Buckets(reach, |adj|)
    requires forall v | 0 <= v < |adj| :: 0 <= lab[v] < |adj|
    modifies lab, rc
    ensures Buckets(reach', |adj|) && FillOf(adj, x, rm[..], added)
    ensures forall v | 0 <= v < |adj| ::
      lab[v] == old(lab[v]) + (if !rm[v] && (v in adj[x] || (x, v) in added) then 1 else 0)
  {
    ghost var L0 := lab[..];
    forall i | 0 <= i < |adj| {
      rc[i] := false;
    }
    rc[x] := true;
    reach' := PushNeighbours(adj, x, lab, rm, rc, reach, L0);
    reach', added := ReachPhase(adj, x, lab, rm, rc, reach', [], L0);
    ghost var lab1 := lab[..];
    RaiseNeighbourLabels(adj, x, lab, rm);
    RaisedLabels(adj, x, L0, lab1, lab[..], rm[..], rc[..], added);
  }

  /** After the reach phase and the raise, a label gained one exactly for the
      unnumbered vertices joined to x in the graph or by a new fill edge. */
  lemma {:induction false} RaisedLabels(adj: Adj, x: int, L0: seq<int>, lab1: seq<int>, lab2: seq<int>,
                                        rm: seq<bool>, rc: seq<bool>, added: seq<Edge>)
    requires StepLabels(adj, x, L0, lab1, rm, rc, added) && FillOf(adj, x, rm, added) && |lab2| == |adj|
    requires forall v | 0 <= v < |adj| :: lab2[v] == lab1[v] + (if !rm[v] && v in adj[x] then 1 else 0)
    ensures forall v | 0 <= v < |adj| ::
      lab2[v] == L0[v] + (if !rm[v] && (v in adj[x] || (x, v) in added) then 1 else 0)
  {
  }

  /** Old fill edges keep their positions; the new ones sit at position it. */
  lemma {:induction false} FillStep(adj: Adj, order: seq<int>, order': seq<int>, x: int, it: int,
                 fill: seq<Edge>, fill': seq<Edge>, pos: seq<int>, pos': seq<int>, rm: seq<bool>)
    requires 0 <= it < |order| == |adj| && order' == order[it := x] && |rm| == |adj|
    requires NumberedSuffix(|adj|, order', rm, it - 1)
    requires |pos| == |fill| && forall k | 0 <= k < |fill| :: it < pos[k] < |adj| && FillAt(adj, order, fill[k], pos[k])
    requires |fill'| >= |fill| && fill'[..|fill|] == fill && FillOf(adj, x, rm, fill'[|fill|..])
    requires pos' == pos + seq(|fill'| - |fill|, _ => it)
    ensures |pos'| == |fill'| && forall k | 0 <= k < |fill'| :: it - 1 < pos'[k] < |adj| && FillAt(adj, order', fill'[k], pos'[k])
  {
    forall k | 0 <= k < |fill'|
      ensures it - 1 < pos'[k] < |adj| && FillAt(adj, order', fill'[k], pos'[k])
    {
      FillStepAt(adj, order, order', x, it, fill, fill', pos, pos', rm, k);
    }
  }

  lemma {:induction false} FillStepAt(adj: Adj, order: seq<int>, order': seq<int>, x: int, it: int,
                   fill: seq<Edge>, fill': seq<Edge>, pos: seq<int>, pos': seq<int>, rm: seq<bool>, k: int)
    requires 0 <= it < |order| == |adj| && order' == order[it := x] && |rm| == |adj|
    requires NumberedSuffix(|adj|, order', rm, it - 1)
    requires |pos| == |fill| && forall k | 0 <= k < |fill| :: it < pos[k] < |adj| && FillAt(adj, order, fill[k], pos[k])
    requires |fill'| >= |fill| && fill'[..|fill|] == fill && FillOf(adj, x, rm, fill'[|fill|..])
    requires pos' == pos + seq(|fill'| - |fill|, _ => it) && 0 <= k < |fill'|
    ensures it - 1 < pos'[k] < |adj| && FillAt(adj, order', fill'[k], pos'[k])
  {
    if k < |fill| {
      assert fill'[k] == fill'[..|fill|][k] == fill[k] && pos'[k] == pos[k];
      assert order'[pos[k]..] == order[pos[k]..];
    } else {
      var e := fill'[|fill|..][k - |fill|];
      assert e == fill'[k] && pos'[k] == it && order'[it] == x;
      assert !rm[e.1] && 0 <= e.1 < |adj|;
    }
  }

  // Width of an elimination order

  /** The entries of row that are listed in keep, in row order. */
  function Kept(row: seq<int>, keep: seq<int>): (r: seq<int>)
    ensures |r| <= |row|
    ensures forall y :: y in r <==> y in row && y in keep
  {
    if row == [] then []
    else
      var last := row[|row| - 1];
      Kept(row[..|row| - 1], keep) + (if last in keep then [last] else [])
  }

  /** The neighbours of order[i] placed after it. */
  ghost function LaterNeighbours(adj: Adj, order: seq<int>, i: int): (r: seq<int>)
    requires 0 <= i < |order| && 0 <= order[i] < |adj|
    ensures forall y :: y in r <==> Adjacent(adj, order[i], y) && y in order[i+1..]
  {
    Kept(adj[order[i]], order[i+1..])
  }

  /** An order whose later neighbourhoods are all cliques: a perfect elimination order. */
  ghost predicate PerfectElimination(adj: Adj, order: seq<int>)
    requires Below(order, |adj|)
  {
    forall i | 0 <= i < |order| :: CliqueList(adj, LaterNeighbours(adj, order, i))
  }

  /** The largest later neighbourhood among the first k positions (0 when k is 0). */
  ghost function WidthUpTo(adj: Adj, order: seq<int>, k: nat): (w: nat)
    requires k <= |order| && Below(order, |adj|)
    ensures forall i | 0 <= i < k :: |LaterNeighbours(adj, order, i)| <= w
    ensures w == 0 || exists i | 0 <= i < k :: w == |LaterNeighbours(adj, order, i)|
  {
    if k == 0 then 0
    else
      var w0 := WidthUpTo(adj, order, k - 1);
      var c := |LaterNeighbours(adj, order, k - 1)|;
      if c > w0 then c else w0
  }

  /** The treewidth bound of an MCS order: 0 without edges; otherwise the
      largest number of later neighbours, provided every later neighbourhood
      is a clique. A neighbourhood that is not a clique stops the program. */
  method Treewidth(g: Graph) returns (r: Outcome<nat>)
    requires g.Valid()
    ensures g.m == 0 ==> r == Done(0)
    ensures g.m != 0 ==>
      exists order :: (IsMcsOrder(g.adjList, order) &&
        (r.Done? <==> PerfectElimination(g.adjList, order)) &&
        (r.Done? ==> r.value == WidthUpTo(g.adjList, order, |order|)))
  {
    if g.m == 0 {
      return Done(0);
    }
    var order := Mcs(g);
    r := OrderWidth(g, order);
  }

  /** The largest later neighbourhood of order, provided each of them is a
      clique; a neighbourhood that is not a clique stops the program. */
  method OrderWidth(g: Graph, order: seq<int>) returns (r: Outcome<nat>)
    requires g.Valid() && |order| == g.n && IsPermutation(order)
    ensures r.Done? <==> PerfectElimination(g.adjList, order)
    ensures r.Done? ==> r.value == WidthUpTo(g.adjList, order, |order|)
  {
    var adj := g.adjList;
    var inv := PermInverse(order);
    var treewidth := 0;
    for i := 0 to g.n
      invariant treewidth == WidthUpTo(adj, order, i)
      invariant forall j | 0 <= j < i :: CliqueList(adj, LaterNeighbours(adj, order, j))
    {
      var clq := LaterList(g, order, inv, i);
      var nb := |clq|;
      var isClique := g.IsClique(clq);
      if !isClique {
        return Abort;
      }
      treewidth := if nb > treewidth then nb else treewidth;
    }
    r := Done(treewidth);
  }

  /** The neighbours of order[i] whose position, read off the inverse
      permutation, is after i. */
  method LaterList(g: Graph, order: seq<int>, inv: seq<int>, i: int) returns (clq: seq<int>)
    requires g.Valid() && |order| == |inv| == g.n && IsPermutation(order) && IsPermutation(inv) && 0 <= i < g.n
    requires forall k | 0 <= k < |order| :: inv[order[k]] == k
    ensures clq == LaterNeighbours(g.adjList, order, i)
    ensures forall k | 0 <= k < |clq| :: 0 <= clq[k] < g.n
  {
    var x := order[i];
    var row := g.adjList[x];
    clq := [];
    for t := 0 to |row|
      invariant clq == Kept(row[..t], order[i+1..])
    {
      var nx := row[t];
      assert Adjacent(g.adjList, x, nx);
      assert row[..t+1][..t] == row[..t];
      LaterByInverse(order, inv, i, nx);
      if inv[nx] > i {
        clq := clq + [nx];
      }
    }
    assert row[..|row|] == row;
    forall k | 0 <= k < |clq| ensures 0 <= clq[k] < g.n {
      assert clq[k] in clq;
    }
  }

  /** Through the inverse permutation, a later position is a larger index. */
  lemma {:induction false} LaterByInverse(order: seq<int>, inv: seq<int>, i: int, v: int)
    requires |inv| == |order| && IsPermutation(order) && IsPermutation(inv) && 0 <= i < |order| && 0 <= v < |order|
    requires forall k | 0 <= k < |order| :: inv[order[k]] == k
    ensures inv[v] > i <==> v in order[i+1..]
  {
    if v in order[i+1..] {
      var k :| i + 1 <= k < |order| && order[k] == v;
    }
    PermutationOnto(order, v);
    var k :| 0 <= k < |order| && order[k] == v;
    if inv[v] > i {
      assert order[i+1..][k - i - 1] == v;
    }
  }

  // Atoms

  /** The form of an MCS-M output for an n-vertex graph: a permutation,
      one flag per position, and fill edges between distinct vertices. */
  ghost predicate McsMShape(n: nat, mo: McsMOutput) {
    |mo.eliminationOrder| == n && IsPermutation(mo.eliminationOrder) &&
    |mo.isMaximalCliquePoint| == n &&
    forall k | 0 <= k < |mo.fillEdges| ::
      0 <= mo.fillEdges[k].0 < n && 0 <= mo.fillEdges[k].1 < n && mo.fillEdges[k].0 != mo.fillEdges[k].1
  }

  /** The shape McsM's contract gives its output. */
  lemma {:induction false} McsMOutputShape(adj: Adj, mo: McsMOutput)
    requires |mo.eliminationOrder| == |adj| && IsPermutation(mo.eliminationOrder)
    requires |mo.isMaximalCliquePoint| == |adj| && FillEdgesOrdered(adj, mo.eliminationOrder, mo.fillEdges)
    ensures McsMShape(|adj|, mo)
  {
    forall k | 0 <= k < |mo.fillEdges|
      ensures 0 <= mo.fillEdges[k].0 < |adj| && 0 <= mo.fillEdges[k].1 < |adj| && mo.fillEdges[k].0 != mo.fillEdges[k].1
    {
      assert EliminatedBefore(adj, mo.eliminationOrder, mo.fillEdges[k]);
      var p :| 0 <= p < |mo.eliminationOrder| && mo.fillEdges[k].0 == mo.eliminationOrder[p] &&
        mo.fillEdges[k].1 in mo.eliminationOrder[..p];
    }
  }

  /** atom is the subgraph of the graph adj induced on vs, keeping only
      vertices that have a neighbour inside vs: its labels are vertices of vs,
      adjacency is that of adj, and every edge of adj inside vs appears. */
  ghost predicate InducedOn(adj: Adj, atom: Graph, vs: seq<int>)
    reads atom
  {
    atom.Valid() &&
    (forall a | 0 <= a < atom.n :: 0 <= atom.vertexMap[a] < |adj| && atom.vertexMap[a] in vs) &&
    (forall a, b | 0 <= a < atom.n && 0 <= b < atom.n ::
      Adjacent(atom.adjList, a, b) <==> Adjacent(adj, atom.vertexMap[a], atom.vertexMap[b])) &&
    (forall x, y | x in vs && y in vs && Adjacent(adj, x, y) :: x in atom.vertexMap)
  }

  /** The graph built from the edges of g inside vs. */
  method InducedAtom(g: Graph, vs: seq<int>) returns (atom: Graph)
    requires g.Valid() && Below(vs, g.n)
    ensures InducedOn(g.adjList, atom, vs)
  {
    var edges := g.EdgesIn(vs);
    assert forall k | 0 <= k < |edges| :: edges[k].0 != edges[k].1 by {
      forall k | 0 <= k < |edges| ensures edges[k].0 != edges[k].1 {
        assert edges[k] in edges;
      }
    }
    atom := new Graph.FromEdges(edges);
    forall a | 0 <= a < atom.n
      ensures 0 <= atom.vertexMap[a] < g.n && atom.vertexMap[a] in vs
    {
      EndpointIn(g.adjList, vs, edges, atom.vertexMap[a]);
    }
    forall a, b | 0 <= a < atom.n && 0 <= b < atom.n
      ensures Adjacent(atom.adjList, a, b) <==> Adjacent(g.adjList, atom.vertexMap[a], atom.vertexMap[b])
    {
      JoinedInside(g.adjList, vs, edges, atom.vertexMap[a], atom.vertexMap[b]);
    }
    forall x, y | x in vs && y in vs && Adjacent(g.adjList, x, y)
      ensures x in atom.vertexMap
    {
      JoinedInside(g.adjList, vs, edges, x, y);
      var k :| 0 <= k < |edges| && (edges[k].0 == x || edges[k].1 == x);
    }
  }

  /** An endpoint of an edge inside vs is a vertex of vs. */
  lemma {:induction false} EndpointIn(adj: Adj, vs: seq<int>, edges: seq<Edge>, x: int)
    requires WellFormed(adj)
    requires forall e :: e in edges <==> e.0 in vs && e.1 in vs && e.0 < e.1 && Adjacent(adj, e.0, e.1)
    requires x in Endpoints(edges)
    ensures 0 <= x < |adj| && x in vs
  {
    var k :| 0 <= k < |edges| && (edges[k].0 == x || edges[k].1 == x);
    assert edges[k] in edges;
  }

  /** Two vertices of vs are joined by an edge inside vs exactly when adjacent. */
  lemma {:induction false} JoinedInside(adj: Adj, vs: seq<int>, edges: seq<Edge>, x: int, y: int)
    requires WellFormed(adj)
    requires forall e :: e in edges <==> e.0 in vs && e.1 in vs && e.0 < e.1 && Adjacent(adj, e.0, e.1)
    ensures JoinedBy(edges, x, y) <==> x in vs && y in vs && Adjacent(adj, x, y)
  {
    if JoinedBy(edges, x, y) {
      var k :| 0 <= k < |edges| && ((edges[k].0 == x && edges[k].1 == y) || (edges[k].0 == y && edges[k].1 == x));
      assert edges[k] in edges;
    }
    if x in vs && y in vs && Adjacent(adj, x, y) {
      var e := if x < y then (x, y) else (y, x);
      assert x != y;
      assert e in edges;
      var k :| 0 <= k < |edges| && edges[k] == e;
    }
  }

  /** The unblocked part reachable from x, listed from x. When x itself is
      already blocked it is listed all the same and the search continues from
      its unblocked neighbours. */
  method ComponentFrom(g: Graph, x: int, block: array<bool>) returns (comp: seq<int>)
    requires g.Valid() && block.Length == g.n && 0 <= x < g.n
    modifies block
    ensures |comp| >= 1 && comp[0] == x && Below(comp, g.n)
    ensures forall v | 0 <= v < g.n && block[v] :: old(block[v]) || v in comp
  {
    if !block[x] {
      comp := g.FindComponentAndMark(x, block);
      assert Grows(old(block[..]), block[..], comp);
      return;
    }
    comp := [x];
    var row := g.adjList[x];
    for t := 0 to |row|
      invariant |comp| >= 1 && comp[0] == x && Below(comp, g.n)
      invariant forall v | 0 <= v < g.n && block[v] :: old(block[v]) || v in comp
    {
      var y := row[t];
      assert Adjacent(g.adjList, x, y);
      if !block[y] {
        ghost var before := block[..];
        var comp' := g.Dfs(y, block, comp);
        assert Grows(before, block[..], comp'[|comp|..]);
        forall k | 0 <= k < |comp'| ensures 0 <= comp'[k] < g.n {
          if k >= |comp| {
            assert comp'[|comp|..][k - |comp|] == comp'[k];
          } else {
            assert comp'[..|comp|][k] == comp'[k];
          }
        }
        assert comp'[0] == comp'[..|comp|][0];
        forall v | 0 <= v < g.n && block[v] ensures old(block[v]) || v in comp' {
          if !before[v] {
            var k :| 0 <= k < |comp'[|comp|..]| && comp'[|comp|..][k] == v;
            assert comp'[|comp| + k] == v;
          } else if !old(block[v]) {
            var k :| 0 <= k < |comp| && comp[k] == v;
            assert comp'[k] == comp'[..|comp|][k];
          }
        }
        comp := comp';
      }
    }
  }

  /** The neighbours of x in h that are not yet removed. */
  method UnremovedNeighbours(h: Graph, x: int, rm: array<bool>) returns (cand: seq<int>)
    requires h.Valid() && rm.Length == h.n && 0 <= x < h.n
    ensures forall y :: y in cand <==> Adjacent(h.adjList, x, y) && !rm[y]
    ensures Below(cand, h.n)
  {
    var row := h.adjList[x];
    cand := [];
    for t := 0 to |row|
      invariant forall y :: y in cand <==> y in row[..t] && !rm[y]
      invariant Below(cand, h.n)
    {
      var y := row[t];
      assert Adjacent(h.adjList, x, y);
      assert row[..t+1] == row[..t] + [y];
      if !rm[y] {
        cand := cand + [y];
      }
    }
    assert row[..|row|] == row;
  }

  /** Every atom is induced on its vertex list, and each of the first |seps|
      lists ends with its separator, a clique of the graph. */
  ghost predicate AtomList(adj: Adj, atoms: seq<Graph>, comps: seq<seq<int>>, seps: seq<seq<int>>)
    reads set k | 0 <= k < |atoms| :: atoms[k]
  {
    |comps| == |atoms| && |seps| <= |atoms| &&
    (forall k | 0 <= k < |atoms| :: InducedOn(adj, atoms[k], comps[k])) &&
    (forall k | 0 <= k < |seps| ::
      CliqueList(adj, seps[k]) && |seps[k]| <= |comps[k]| && comps[k][|comps[k]| - |seps[k]|..] == seps[k])
  }

  /** Clique-separator decomposition driven by an MCS-M output. In
      elimination order, a maximal clique point x whose unremoved neighbours
      in the filled graph form a clique S of g yields the atom on the
      component of x in g - S (the search blocked by S and by the earlier
      components) plus S. The vertices left unblocked, blocked, are split into
      the components of g - blocked; there must be exactly one, which is the
      last atom, and otherwise the program stops. The vertex lists of the
      atoms cover every vertex, so a graph without vertices stops. */
  method Atoms(g: Graph, mo: McsMOutput)
    returns (r: Outcome<seq<Graph>>, ghost comps: seq<seq<int>>, ghost seps: seq<seq<int>>, ghost blocked: set<int>)
    requires g.Valid() && McsMShape(g.n, mo)
    ensures |seps| <= |comps| && ComponentList(g.adjList, blocked, comps[|seps|..])
    ensures forall v | v in blocked :: Listed(comps[..|seps|], v)
    ensures forall v | 0 <= v < g.n :: Listed(comps, v)
    ensures r.Abort? <==> |comps| - |seps| != 1
    ensures g.n == 0 ==> r.Abort?
    ensures r.Done? ==> |r.value| >= 1 && |seps| == |r.value| - 1 && AtomList(g.adjList, r.value, comps, seps)
  {
    var filled := g.Clone();
    filled.AddEdges(mo.fillEdges);
    var block := new bool[g.n](_ => false);
    var atoms;
    ghost var sepComps;
    atoms, sepComps, seps := SeparatorAtoms(g, filled, mo, block);
    blocked := Marked(block[..]);
    ghost var b0 := block[..];
    var rest: seq<Graph>, restComps, found := Remainder(g, block);
    AtomListAppend(g.adjList, atoms, sepComps, seps, rest, restComps);
    atoms, comps := atoms + rest, sepComps + restComps;
    AtomsCover(g.n, b0, blocked, sepComps, restComps, |seps|);
    ComponentsNeedVertices(g.adjList, blocked, restComps);
    if found != 1 {
      return Abort, comps, seps, blocked;
    }
    r := Done(atoms);
  }

  /** A graph without vertices has no components. */
  lemma {:induction false} ComponentsNeedVertices(adj: Adj, S: set<int>, comps: seq<seq<int>>)
    requires ComponentList(adj, S, comps)
    ensures |adj| == 0 ==> comps == []
  {
    if comps != [] {
      assert comps[0][0] in Elems(comps[0]);
    }
  }

  /** The separator atoms cover the blocked vertices and the remainder
      components cover the rest, so together they cover every vertex. */
  lemma {:induction false} AtomsCover(n: nat, b: seq<bool>, blocked: set<int>, sepComps: seq<seq<int>>,
                                      restComps: seq<seq<int>>, s: nat)
    requires |b| == n && blocked == Marked(b) && s == |sepComps| && MarksCovered(b, sepComps)
    requires forall v | 0 <= v < n && !b[v] :: exists k | 0 <= k < |restComps| :: v in restComps[k]
    ensures (sepComps + restComps)[s..] == restComps
    ensures (sepComps + restComps)[..s] == sepComps
    ensures forall v | v in blocked :: Listed(sepComps, v)
    ensures forall v | 0 <= v < n :: Listed(sepComps + restComps, v)
  {
    var all := sepComps + restComps;
    forall v | 0 <= v < n ensures Listed(all, v) {
      if b[v] {
        var k :| 0 <= k < |sepComps| && v in sepComps[k];
        assert all[k] == sepComps[k];
      } else {
        var k :| 0 <= k < |restComps| && v in restComps[k];
        assert all[s + k] == restComps[k];
      }
    }
    assert all[..s] == sepComps;
  }

  /** v lies in one of the vertex lists of comps. */
  ghost predicate Listed(comps: seq<seq<int>>, v: int) {
    exists k | 0 <= k < |comps| :: v in comps[k]
  }

  /** Every marked vertex lies in one of the listed vertex sets. */
  ghost predicate MarksCovered(b: seq<bool>, comps: seq<seq<int>>) {
    forall v | 0 <= v < |b| && b[v] :: exists k | 0 <= k < |comps| :: v in comps[k]
  }

  /** The atoms cut off at clique separators, scanning the elimination order
      from its first position and removing each vertex after its turn. */
  method SeparatorAtoms(g: Graph, filled: Graph, mo: McsMOutput, block: array<bool>)
    returns (atoms: seq<Graph>, ghost comps: seq<seq<int>>, ghost seps: seq<seq<int>>)
    requires g.Valid() && filled.Valid() && filled.n == g.n && block.Length == g.n && McsMShape(g.n, mo)
    requires forall v | 0 <= v < g.n :: !block[v]
    modifies block
    ensures |seps| == |atoms| && AtomList(g.adjList, atoms, comps, seps)
    ensures MarksCovered(block[..], comps)
  {
    var rm := new bool[g.n](_ => false);
    atoms, comps, seps := [], [], [];
    for it := 0 to g.n
      invariant |seps| == |atoms| && AtomList(g.adjList, atoms, comps, seps)
      invariant MarksCovered(block[..], comps)
      modifies rm, block
    {
      var x := mo.eliminationOrder[it];
      if mo.isMaximalCliquePoint[it] {
        atoms, comps, seps := SeparatorAtom(g, filled, x, rm, block, atoms, comps, seps);
      }
      rm[x] := true;
    }
  }

  /** When the unremoved filled-graph neighbours of x form a clique of g,
      appends the atom on the component of x beyond them. */
  method SeparatorAtom(g: Graph, filled: Graph, x: int, rm: array<bool>, block: array<bool>,
                       atoms: seq<Graph>, ghost comps: seq<seq<int>>, ghost seps: seq<seq<int>>)
    returns (atoms': seq<Graph>, ghost comps': seq<seq<int>>, ghost seps': seq<seq<int>>)
    requires g.Valid() && filled.Valid() && filled.n == g.n && rm.Length == block.Length == g.n && 0 <= x < g.n
    requires |seps| == |atoms| && AtomList(g.adjList, atoms, comps, seps)
    requires MarksCovered(block[..], comps)
    modifies block
    ensures |seps'| == |atoms'| && AtomList(g.adjList, atoms', comps', seps')
    ensures MarksCovered(block[..], comps')
  {
    atoms', comps', seps' := atoms, comps, seps;
    var cand := UnremovedNeighbours(filled, x, rm);
    var isClique := g.IsClique(cand);
    if isClique {
      var component := SeparatedComponent(g, x, cand, block);
      var atom := InducedAtom(g, component);
      AtomListPush(g.adjList, atoms, comps, seps, atom, component, [cand]);
      atoms', comps', seps' := atoms + [atom], comps + [component], seps + [cand];
      forall v | 0 <= v < g.n && block[v] ensures exists k | 0 <= k < |comps'| :: v in comps'[k] {
        if old(block[v]) {
          assert old(block[..])[v];
          var k :| 0 <= k < |comps| && v in comps[k];
          assert comps'[k] == comps[k];
        } else {
          assert comps'[|comps|] == component;
        }
      }
    }
  }

  /** The search from x with the clique cand blocked, followed by cand. */
  method SeparatedComponent(g: Graph, x: int, cand: seq<int>, block: array<bool>) returns (component: seq<int>)
    requires g.Valid() && block.Length == g.n && 0 <= x < g.n && Below(cand, g.n)
    modifies block
    ensures Below(component, g.n) && |cand| <= |component| && component[|component| - |cand|..] == cand
    ensures forall v | 0 <= v < g.n && block[v] :: old(block[v]) || v in component
  {
    forall k | 0 <= k < |cand| {
      block[cand[k]] := true;
    }
    component := ComponentFrom(g, x, block);
    forall k | 0 <= k < |cand| {
      block[cand[k]] := false;
    }
    component := component + cand;
  }

  /** One atom per component of the vertices still unblocked, counted. */
  method Remainder(g: Graph, block: array<bool>) returns (atoms: seq<Graph>, ghost comps: seq<seq<int>>, found: nat)
    requires g.Valid() && block.Length == g.n
    modifies block
    ensures found == |atoms| && AtomList(g.adjList, atoms, comps, [])
    ensures ComponentList(g.adjList, Marked(old(block[..])), comps)
    ensures forall v | 0 <= v < g.n && !old(block[v]) :: exists k | 0 <= k < |comps| :: v in comps[k]
  {
    ghost var S := Marked(block[..]);
    atoms, comps, found := [], [], 0;
    for x := 0 to g.n
      invariant found == |atoms| && AtomList(g.adjList, atoms, comps, [])
      invariant CompsInv(g.adjList, S, block[..], comps, x)
    {
      if !block[x] {
        atoms, comps := RemainderAtom(g, block, x, S, atoms, comps);
        found := found + 1;
      } else {
        assert block[..][x];
      }
    }
    forall v | 0 <= v < g.n && !old(block[v]) ensures exists k | 0 <= k < |comps| :: v in comps[k] {
      assert block[..][v] && v !in S;
    }
  }

  /** The atom on the component of the unblocked vertex x, which the search marks. */
  method RemainderAtom(g: Graph, block: array<bool>, x: int, ghost S: set<int>, atoms: seq<Graph>, ghost comps: seq<seq<int>>)
    returns (atoms': seq<Graph>, ghost comps': seq<seq<int>>)
    requires g.Valid() && block.Length == g.n && 0 <= x < g.n && !block[x]
    requires AtomList(g.adjList, atoms, comps, []) && CompsInv(g.adjList, S, block[..], comps, x)
    modifies block
    ensures |atoms'| == |atoms| + 1 && AtomList(g.adjList, atoms', comps', [])
    ensures CompsInv(g.adjList, S, block[..], comps', x + 1)
  {
    ghost var b0 := block[..];
    var component := g.FindComponentAndMark(x, block);
    ComponentsStep(g.adjList, S, b0, block[..], comps, component, x);
    assert Grows(b0, block[..], component) ==> Below(component, g.n);
    var atom := InducedAtom(g, component);
    AtomListPush(g.adjList, atoms, comps, [], atom, component, []);
    atoms', comps' := atoms + [atom], comps + [component];
  }

  /** Appending an induced atom, with its separator when sep holds one. */
  lemma {:induction false} AtomListPush(adj: Adj, atoms: seq<Graph>, comps: seq<seq<int>>, seps: seq<seq<int>>,
                     atom: Graph, comp: seq<int>, sep: seq<seq<int>>)
    requires AtomList(adj, atoms, comps, seps) && InducedOn(adj, atom, comp) && |sep| <= 1
    requires |sep| == 1 ==>
      |seps| == |atoms| && CliqueList(adj, sep[0]) && |sep[0]| <= |comp| && comp[|comp| - |sep[0]|..] == sep[0]
    ensures AtomList(adj, atoms + [atom], comps + [comp], seps + sep)
  {
    var atoms', comps', seps' := atoms + [atom], comps + [comp], seps + sep;
    forall k | 0 <= k < |atoms'| ensures InducedOn(adj, atoms'[k], comps'[k]) {
      if k < |atoms| {
        assert atoms'[k] == atoms[k] && comps'[k] == comps[k];
      }
    }
    forall k | 0 <= k < |seps'|
      ensures CliqueList(adj, seps'[k]) && |seps'[k]| <= |comps'[k]| && comps'[k][|comps'[k]| - |seps'[k]|..] == seps'[k]
    {
      if k < |seps| {
        assert seps'[k] == seps[k] && comps'[k] == comps[k];
      }
    }
  }

  lemma {:induction false} AtomListAppend(adj: Adj, atoms: seq<Graph>, comps: seq<seq<int>>, seps: seq<seq<int>>,
                       rest: seq<Graph>, restComps: seq<seq<int>>)
    requires AtomList(adj, atoms, comps, seps) && AtomList(adj, rest, restComps, [])
    ensures AtomList(adj, atoms + rest, comps + restComps, seps)
  {
    forall k | 0 <= k < |atoms + rest|
      ensures InducedOn(adj, (atoms + rest)[k], (comps + restComps)[k])
    {
      if k >= |atoms| {
        assert (atoms + rest)[k] == rest[k - |atoms|];
      }
    }
  }
}
