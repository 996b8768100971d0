/** Exact set cover by branch and bound. The sets are restricted to the
    universe and renamed to positions in the sorted universe; the search
    covers the positions in order, trying for the first uncovered position
    each set that contains it, and undoes every choice on the way back. */
module SetCover {
  import opened Utils
  import opened GraphTheory
  import opened Wrappers

  // ---------------------------------------------------------------------
  // The restricted sets

  /** The position of e in U. */
  ghost function IndexIn(U: seq<int>, e: int): (k: int)
    requires e in U
    ensures 0 <= k < |U| && U[k] == e
    decreases |U|
  {
    if U[0] == e then 0 else 1 + IndexIn(U[1..], e)
  }

  lemma {:induction false} IndexOfEntry(U: seq<int>, k: int)
    requires StrictlyIncreasing(U) && 0 <= k < |U|
    ensures IndexIn(U, U[k]) == k
  {
    var j := IndexIn(U, U[k]);
    assert U[j] == U[k];
  }

  /** The entries of g that lie in U, replaced by their positions in U, in
      the order of g. */
  ghost function Restrict(g: seq<int>, U: seq<int>): seq<int>
    decreases |g|
  {
    if g == [] then []
    else Restrict(g[..|g| - 1], U) + if g[|g| - 1] in U then [IndexIn(U, g[|g| - 1])] else []
  }

  /** A position lies in the restriction of g exactly when its universe
      element lies in g. */
  lemma {:induction false} RestrictMembers(g: seq<int>, U: seq<int>)
    requires StrictlyIncreasing(U)
    ensures forall p :: p in Restrict(g, U) <==> 0 <= p < |U| && U[p] in g
    decreases |g|
  {
    if g != [] {
      var init, last := g[..|g| - 1], g[|g| - 1];
      RestrictMembers(init, U);
      assert g == init + [last];
      forall p | 0 <= p < |U| && U[p] == last ensures IndexIn(U, last) == p {
        IndexOfEntry(U, p);
      }
    }
  }

  /** The restriction of each set, in order. */
  ghost function RestrictAll(gs: seq<seq<int>>, U: seq<int>): (rs: seq<seq<int>>)
    ensures |rs| == |gs| && forall j | 0 <= j < |gs| :: rs[j] == Restrict(gs[j], U)
  {
    seq(|gs|, j requires 0 <= j < |gs| => Restrict(gs[j], U))
  }

  /** The non-empty lists of ls, in order. */
  ghost function NonEmpty(ls: seq<seq<int>>): seq<seq<int>>
    decreases |ls|
  {
    if ls == [] then []
    else NonEmpty(ls[..|ls| - 1]) + if |ls[|ls| - 1]| > 0 then [ls[|ls| - 1]] else []
  }

  lemma {:induction false} NonEmptyMembers(ls: seq<seq<int>>)
    ensures forall s :: s in NonEmpty(ls) <==> s in ls && |s| > 0
    decreases |ls|
  {
    if ls != [] {
      NonEmptyMembers(ls[..|ls| - 1]);
      assert ls == ls[..|ls| - 1] + [ls[|ls| - 1]];
    }
  }

  /** The non-empty restrictions of the sets, in order. */
  ghost function Restrictions(gs: seq<seq<int>>, U: seq<int>): seq<seq<int>> {
    NonEmpty(RestrictAll(gs, U))
  }

  /** The list the search works on: the non-empty restrictions, sorted
      lexicographically without duplicates. */
  ghost function RestrictedSets(gs: seq<seq<int>>, U: seq<int>): (rs: seq<seq<int>>)
    ensures StrictlySorted(rs, LexLess)
    ensures forall s :: s in rs <==> s in Restrictions(gs, U)
  {
    LexLessOrder();
    SortAndDedup(Restrictions(gs, U), LexLess)
  }

  /** Every restriction in the list is non-empty and comes from one of the
      sets. */
  lemma {:induction false} RestrictionsFrom(gs: seq<seq<int>>, U: seq<int>)
    ensures forall s :: s in Restrictions(gs, U) <==>
      exists j | 0 <= j < |gs| :: s == Restrict(gs[j], U) && |s| > 0
  {
    var L := RestrictAll(gs, U);
    NonEmptyMembers(L);
    forall s | s in L ensures exists j | 0 <= j < |gs| :: s == Restrict(gs[j], U) {
      var j :| 0 <= j < |L| && L[j] == s;
    }
  }

  /** Position p of the universe is covered by one of the restricted sets
      exactly when its element lies in one of the sets. */
  lemma {:induction false} CoveredSomewhere(gs: seq<seq<int>>, U: seq<int>, p: int)
    requires StrictlyIncreasing(U) && 0 <= p < |U|
    ensures (exists k | 0 <= k < |RestrictedSets(gs, U)| :: p in RestrictedSets(gs, U)[k]) <==>
      exists j | 0 <= j < |gs| :: U[p] in gs[j]
  {
    var rs := RestrictedSets(gs, U);
    RestrictionsFrom(gs, U);
    if exists j | 0 <= j < |gs| :: U[p] in gs[j] {
      var j :| 0 <= j < |gs| && U[p] in gs[j];
      RestrictMembers(gs[j], U);
      var s := Restrict(gs[j], U);
      assert s in Restrictions(gs, U);
      var k :| 0 <= k < |rs| && rs[k] == s;
    }
    if exists k | 0 <= k < |rs| :: p in rs[k] {
      var k :| 0 <= k < |rs| && p in rs[k];
      assert rs[k] in Restrictions(gs, U);
      var j :| 0 <= j < |gs| && rs[k] == Restrict(gs[j], U) && |rs[k]| > 0;
      RestrictMembers(gs[j], U);
    }
  }

  /** The number of occurrences of p in the lists. */
  ghost function Occ(ss: seq<seq<int>>, p: int): nat
    decreases |ss|
  {
    if ss == [] then 0 else Occ(ss[..|ss| - 1], p) + multiset(ss[|ss| - 1])[p]
  }

  lemma {:induction false} OccPositive(ss: seq<seq<int>>, p: int)
    ensures Occ(ss, p) > 0 <==> exists i | 0 <= i < |ss| :: p in ss[i]
    decreases |ss|
  {
    if ss != [] {
      OccPositive(ss[..|ss| - 1], p);
      if exists i | 0 <= i < |ss| :: p in ss[i] {
        var i :| 0 <= i < |ss| && p in ss[i];
        if i < |ss| - 1 {
          assert ss[..|ss| - 1][i] == ss[i];
        }
      }
    }
  }

  lemma {:induction false} OccSnoc(ss: seq<seq<int>>, s: seq<int>, p: int)
    ensures Occ(ss + [s], p) == Occ(ss, p) + multiset(s)[p]
  {
    assert (ss + [s])[..|ss|] == ss;
  }

  /** A list without repeats, below m, has at most m entries. */
  lemma {:induction false} FewDistinct(s: seq<int>, m: int)
    requires NoRepeats(s) && Below(s, m) && m >= 0
    ensures |s| <= m
  {
    NoRepeatsCard(s);
    var R := RangeSet(m);
    assert Elems(s) <= R;
    CardSubset(Elems(s), R);
  }

  // ---------------------------------------------------------------------
  // Preparing the search

  /** The largest element of the sets plus one (1 when there is none):
      the size of the per-element tables. */
  method ElementBound(gSets: seq<seq<int>>) returns (bound: int)
    ensures bound >= 1
    ensures forall j, k | 0 <= j < |gSets| && 0 <= k < |gSets[j]| :: gSets[j][k] < bound
    ensures bound == 1 || exists j, k | 0 <= j < |gSets| && 0 <= k < |gSets[j]| :: gSets[j][k] == bound - 1
  {
    bound := 0;
    for j := 0 to |gSets|
      invariant bound >= 0
      invariant forall j', k | 0 <= j' < j && 0 <= k < |gSets[j']| :: gSets[j'][k] <= bound
      invariant bound == 0 || exists j', k | 0 <= j' < j && 0 <= k < |gSets[j']| :: gSets[j'][k] == bound
    {
      for k := 0 to |gSets[j]|
        invariant bound >= 0
        invariant forall j', k' | 0 <= j' < j && 0 <= k' < |gSets[j']| :: gSets[j'][k'] <= bound
        invariant forall k' | 0 <= k' < k :: gSets[j][k'] <= bound
        invariant bound == 0 ||
          (exists j', k' | 0 <= j' < j && 0 <= k' < |gSets[j']| :: gSets[j'][k'] == bound) ||
          (exists k' | 0 <= k' < k :: gSets[j][k'] == bound)
      {
        if gSets[j][k] > bound {
          bound := gSets[j][k];
        }
      }
    }
    bound := bound + 1;
  }

  /** Marks the elements of the universe with the new generation git and
      records each element's position. */
  method MarkUniverse(is0: seq<int>, plc0: seq<int>, U: seq<int>, git: int) returns (is1: seq<int>, plc1: seq<int>)
    requires |is0| == |plc0| && Below(U, |is0|) && StrictlyIncreasing(U)
    ensures |is1| == |is0| && |plc1| == |plc0|
    ensures forall e | 0 <= e < |is0| :: is1[e] == if e in U then git else is0[e]
    ensures forall k | 0 <= k < |U| :: plc1[U[k]] == k
  {
    is1, plc1 := is0, plc0;
    for i := 0 to |U|
      invariant |is1| == |is0| && |plc1| == |plc0|
      invariant forall e | 0 <= e < |is0| :: is1[e] == if e in U[..i] then git else is0[e]
      invariant forall k | 0 <= k < i :: plc1[U[k]] == k
    {
      plc1 := plc1[U[i] := i];
      is1 := is1[U[i] := git];
      assert U[..i + 1] == U[..i] + [U[i]];
    }
    assert U[..|U|] == U;
  }

  /** Whether each entry is larger than the one before. */
  method IsIncreasing(s: seq<int>) returns (r: bool)
    ensures r <==> StrictlyIncreasing(s)
  {
    for j := 0 to |s|
      invariant StrictlyIncreasing(s[..j])
    {
      if j > 0 && !(s[j] > s[j - 1]) {
        return false;
      }
    }
    assert s[..|s|] == s;
    return true;
  }

  /** The marked entries of g, replaced by their recorded positions. */
  method RestrictOne(g: seq<int>, isU: seq<int>, plc: seq<int>, git: int, ghost U: seq<int>) returns (s: seq<int>)
    requires |plc| == |isU| && Below(g, |isU|) && Below(U, |isU|) && StrictlyIncreasing(U)
    requires forall e | 0 <= e < |isU| :: isU[e] == git <==> e in U
    requires forall k | 0 <= k < |U| :: plc[U[k]] == k
    ensures s == Restrict(g, U)
  {
    s := [];
    for j := 0 to |g|
      invariant s == Restrict(g[..j], U)
    {
      assert g[..j + 1][..j] == g[..j];
      if isU[g[j]] == git {
        ghost var k :| 0 <= k < |U| && U[k] == g[j];
        IndexOfEntry(U, k);
        s := s + [plc[g[j]]];
      }
    }
    assert g[..|g|] == g;
  }

  /** The non-empty restrictions of the sets, placed at the front of the
      set table; false when one of them is not increasing (the sets are
      then not sorted). */
  /** Storing the restriction of set i at position m extends the kept
      restrictions by it when it is non-empty. */
  lemma {:induction false} RestrictStep(gSets: seq<seq<int>>, U: seq<int>, i: int, sets: seq<seq<int>>, m: int)
    requires 0 <= m <= i < |gSets| == |sets|
    requires sets[..m] == NonEmpty(RestrictAll(gSets, U)[..i])
    ensures var s := Restrict(gSets[i], U);
      sets[m := s][..if |s| > 0 then m + 1 else m] == NonEmpty(RestrictAll(gSets, U)[..i + 1])
  {
    var s := Restrict(gSets[i], U);
    var pre := RestrictAll(gSets, U)[..i];
    var pre1 := RestrictAll(gSets, U)[..i + 1];
    assert pre1[..|pre1| - 1] == pre && pre1[|pre1| - 1] == s;
    assert NonEmpty(pre1) == NonEmpty(pre) + if |s| > 0 then [s] else [];
    assert sets[m := s][..m] == sets[..m];
  }

  method RestrictSets(gSets: seq<seq<int>>, sets0: seq<seq<int>>, isU: seq<int>, plc: seq<int>, git: int, ghost U: seq<int>)
    returns (ok: bool, sets: seq<seq<int>>, m: int)
    requires |sets0| == |gSets| && |plc| == |isU| && Below(U, |isU|) && StrictlyIncreasing(U)
    requires forall j | 0 <= j < |gSets| :: Below(gSets[j], |isU|)
    requires forall e | 0 <= e < |isU| :: isU[e] == git <==> e in U
    requires forall k | 0 <= k < |U| :: plc[U[k]] == k
    ensures |sets| == |gSets| && 0 <= m <= |gSets|
    ensures ok <==> forall j | 0 <= j < |gSets| :: StrictlyIncreasing(Restrict(gSets[j], U))
    ensures ok ==> sets[..m] == Restrictions(gSets, U)
  {
    sets, m := sets0, 0;
    ghost var rs := RestrictAll(gSets, U);
    for i := 0 to |gSets|
      invariant |sets| == |gSets| && 0 <= m <= i
      invariant forall j | 0 <= j < i :: StrictlyIncreasing(rs[j])
      invariant sets[..m] == NonEmpty(rs[..i])
    {
      var s := RestrictOne(gSets[i], isU, plc, git, U);
      assert s == rs[i];
      RestrictStep(gSets, U, i, sets, m);
      sets := sets[m := s];
      if |s| > 0 {
        var inc := IsIncreasing(s);
        if !inc {
          assert !StrictlyIncreasing(Restrict(gSets[i], U));
          return false, sets, m;
        }
        m := m + 1;
      }
    }
    assert rs[..|gSets|] == rs;
    ok := true;
  }

  /** Every restriction lies below the size of the universe. */
  lemma {:induction false} RestrictedBelow(gs: seq<seq<int>>, U: seq<int>)
    requires StrictlyIncreasing(U)
    ensures forall s | s in RestrictedSets(gs, U) :: Below(s, |U|) && |s| > 0
  {
    RestrictionsFrom(gs, U);
    forall s | s in RestrictedSets(gs, U) ensures Below(s, |U|) && |s| > 0 {
      var j :| 0 <= j < |gs| && s == Restrict(gs[j], U) && |s| > 0;
      RestrictMembers(gs[j], U);
      forall t | 0 <= t < |s| ensures 0 <= s[t] < |U| {
        assert s[t] in s;
      }
    }
  }

  /** cnt[p] becomes the number of the first m sets that contain p, for
      every position p below n. */
  method CountSets(sets: seq<seq<int>>, m: int, n: int, cnt0: seq<int>) returns (cnt: seq<int>)
    requires 0 <= m <= |sets| && 0 <= n <= |cnt0|
    requires forall i | 0 <= i < m :: Below(sets[i], n)
    ensures |cnt| == |cnt0|
    ensures forall p | 0 <= p < n :: cnt[p] == Occ(sets[..m], p)
  {
    cnt := cnt0;
    for i := 0 to n
      invariant |cnt| == |cnt0| && forall p | 0 <= p < i :: cnt[p] == 0
    {
      cnt := cnt[i := 0];
    }
    for i := 0 to m
      invariant |cnt| == |cnt0|
      invariant forall p | 0 <= p < n :: cnt[p] == Occ(sets[..i], p)
    {
      var s := sets[i];
      for j := 0 to |s|
        invariant |cnt| == |cnt0|
        invariant forall p | 0 <= p < n :: cnt[p] == Occ(sets[..i], p) + multiset(s[..j])[p]
      {
        assert s[..j + 1] == s[..j] + [s[j]];
        cnt := cnt[s[j] := cnt[s[j]] + 1];
      }
      assert s[..|s|] == s;
      assert sets[..i + 1] == sets[..i] + [s];
      forall p | 0 <= p < n ensures cnt[p] == Occ(sets[..i + 1], p) {
        OccSnoc(sets[..i], s, p);
      }
    }
  }

  /** Whether every position below n is counted at least once. */
  method AllCounted(cnt: seq<int>, n: int) returns (ok: bool)
    requires 0 <= n <= |cnt|
    ensures ok <==> forall p | 0 <= p < n :: cnt[p] > 0
  {
    for i := 0 to n
      invariant forall p | 0 <= p < i :: cnt[p] > 0
    {
      if cnt[i] <= 0 {
        return false;
      }
    }
    return true;
  }

  /** Pairs compared by their first entry, then by their second. */
  predicate PairLess(a: (int, int), b: (int, int)) {
    a.0 < b.0 || (a.0 == b.0 && a.1 < b.1)
  }

  lemma {:induction false} PairLessOrder()
    ensures StrictTotalOrder(PairLess)
  {
  }

  /** Ranks the positions below n by (count, position): cc lists the pairs
      (cnt[q], q) in increasing order and um[q] is the rank of q; the
      element lists of the first n ranks are emptied. */
  method RankByCount(cnt: seq<int>, n: int, cc0: seq<(int, int)>, um0: seq<int>, where0: seq<seq<int>>)
    returns (cc: seq<(int, int)>, um: seq<int>, where: seq<seq<int>>)
    requires 0 <= n <= |cnt| && n <= |cc0| && n <= |um0| && n <= |where0|
    ensures |cc| == |cc0| && |um| == |um0| && |where| == |where0|
    ensures StrictlySorted(cc[..n], PairLess)
    ensures forall i | 0 <= i < n :: 0 <= cc[i].1 < n && cc[i].0 == cnt[cc[i].1] && um[cc[i].1] == i
    ensures forall p | 0 <= p < n :: 0 <= um[p] < n && cc[um[p]].1 == p
    ensures forall p, q | 0 <= p < n && 0 <= q < n && um[p] == um[q] :: p == q
    ensures forall e | 0 <= e < n :: where[e] == []
  {
    cc := cc0;
    for i := 0 to n
      invariant |cc| == |cc0| && forall k | 0 <= k < i :: cc[k] == (cnt[k], k)
    {
      cc := cc[i := (cnt[i], i)];
    }
    ghost var pairs := cc[..n];
    PairLessOrder();
    var sorted := SortAndDedup(cc[..n], PairLess);
    SortedPairs(cnt, n, pairs, sorted);
    cc := sorted + cc[n..];
    assert cc[..n] == sorted;
    um, where := um0, where0;
    for i := 0 to n
      invariant |um| == |um0| && |where| == |where0|
      invariant forall k | 0 <= k < i :: um[cc[k].1] == k
      invariant forall e | 0 <= e < i :: where[e] == []
    {
      um := um[cc[i].1 := i];
      where := where[i := []];
    }
    forall p | 0 <= p < n ensures 0 <= um[p] < n && cc[um[p]].1 == p {
      assert (cnt[p], p) in pairs;
      var i :| 0 <= i < n && sorted[i] == (cnt[p], p);
    }
  }

  lemma {:induction false} SortedPairs(cnt: seq<int>, n: int, pairs: seq<(int, int)>, sorted: seq<(int, int)>)
    requires 0 <= n <= |cnt| && |pairs| == n && forall k | 0 <= k < n :: pairs[k] == (cnt[k], k)
    requires StrictlySorted(sorted, PairLess) && forall y :: y in sorted <==> y in pairs
    ensures |sorted| == n
    ensures forall i | 0 <= i < n :: 0 <= sorted[i].1 < n && sorted[i].0 == cnt[sorted[i].1]
    ensures forall i, j | 0 <= i < j < n :: sorted[i].1 != sorted[j].1
  {
    PairLessOrder();
    assert Distinct(pairs);
    assert Distinct(sorted);
    DistinctCard(pairs);
    DistinctCard(sorted);
    assert (set x | x in pairs) == (set x | x in sorted);
    forall i | 0 <= i < n ensures 0 <= sorted[i].1 < n && sorted[i].0 == cnt[sorted[i].1] {
      assert sorted[i] in pairs;
    }
    forall i, j | 0 <= i < j < n ensures sorted[i].1 != sorted[j].1 {
      assert sorted[i] in pairs && sorted[j] in pairs;
    }
  }

  /** Renames the entries of the first m sets by um, sorting each renamed
      set, and appends the index of each set to the list of every renamed
      entry it holds. */
  method RenameSets(sets0: seq<seq<int>>, m: int, n: int, um: seq<int>, where0: seq<seq<int>>)
    returns (sets: seq<seq<int>>, where: seq<seq<int>>)
    requires 0 <= m <= |sets0| && 0 <= n <= |um| && n <= |where0|
    requires forall p | 0 <= p < n :: 0 <= um[p] < n
    requires forall p, q | 0 <= p < n && 0 <= q < n && um[p] == um[q] :: p == q
    requires forall e | 0 <= e < n :: where0[e] == []
    requires forall i | 0 <= i < m :: StrictlyIncreasing(sets0[i]) && Below(sets0[i], n)
    ensures |sets| == |sets0| && |where| == |where0| && sets[m..] == sets0[m..]
    ensures forall i | 0 <= i < m :: StrictlyIncreasing(sets[i]) && Below(sets[i], n) && |sets[i]| == |sets0[i]|
    ensures forall i | 0 <= i < m :: Renamed(sets0[i], sets[i], um, n)
    ensures WhereLists(where, sets, m, n)
    ensures forall p | 0 <= p < n :: |where[um[p]]| == Occ(sets0[..m], p)
  {
    sets, where := sets0, where0;
    for i := 0 to m
      invariant |sets| == |sets0| && |where| == |where0|
      invariant forall k | i <= k < |sets| :: sets[k] == sets0[k]
      invariant RenamedUpTo(sets0, sets, i, n, um)
      invariant WhereLists(where, sets, i, n)
      invariant WhereCounts(where, sets0, i, n, um)
    {
      var s := sets0[i];
      assert forall t | 0 <= t < |s| :: 0 <= s[t] < n;
      var ns, where1 := RenameOne(s, i, n, um, where);
      RenamedStep(sets0, sets, i, n, um, ns);
      WhereStep(sets0, sets, where, where1, i, n, um, ns);
      sets, where := sets[i := SortAndDedupInts(ns)], where1;
    }
  }

  /** The list of each position below n holds the indices of the sets
      before i that contain it. */
  ghost predicate WhereLists(where: seq<seq<int>>, sets: seq<seq<int>>, i: int, n: int)
    requires 0 <= n <= |where| && 0 <= i <= |sets|
  {
    (forall e, k | 0 <= e < n && 0 <= k < |where[e]| :: 0 <= where[e][k] < i && e in sets[where[e][k]]) &&
    (forall y, t | 0 <= y < i && 0 <= t < |sets[y]| && 0 <= sets[y][t] < n :: y in where[sets[y][t]])
  }

  /** The list of the renamed position um[p] is as long as the number of
      original sets before i that contain p. */
  ghost predicate WhereCounts(where: seq<seq<int>>, sets0: seq<seq<int>>, i: int, n: int, um: seq<int>)
    requires 0 <= n <= |where| && 0 <= i <= |sets0| && n <= |um|
    requires forall p | 0 <= p < n :: 0 <= um[p] < n
  {
    forall p | 0 <= p < n :: |where[um[p]]| == Occ(sets0[..i], p)
  }

  lemma {:induction false} WhereAt(where: seq<seq<int>>, sets: seq<seq<int>>, i: int, n: int, e: int, y: int)
    requires 0 <= n <= |where| && 0 <= i <= |sets| && 0 <= e < n
    requires WhereLists(where, sets, i, n)
    ensures y in where[e] <==> 0 <= y < i && e in sets[y]
  {
    if y in where[e] {
      var k :| 0 <= k < |where[e]| && where[e][k] == y;
    }
    if 0 <= y < i && e in sets[y] {
      var t :| 0 <= t < |sets[y]| && sets[y][t] == e;
    }
  }

  /** The list of position e holds exactly the indices of the sets before
      i that contain e. */
  ghost predicate WhereRow(where: seq<seq<int>>, sets: seq<seq<int>>, i: int, e: int)
    requires 0 <= e < |where| && 0 <= i <= |sets|
  {
    forall y :: y in where[e] <==> 0 <= y < i && e in sets[y]
  }

  /** The lists of the positions below n, given row by row as membership. */
  lemma {:induction false} WhereListsIntro(where: seq<seq<int>>, sets: seq<seq<int>>, i: int, n: int)
    requires 0 <= n <= |where| && 0 <= i <= |sets|
    requires forall e | 0 <= e < n :: WhereRow(where, sets, i, e)
    ensures WhereLists(where, sets, i, n)
  {
    forall e, k | 0 <= e < n && 0 <= k < |where[e]| ensures 0 <= where[e][k] < i && e in sets[where[e][k]] {
      assert WhereRow(where, sets, i, e);
      assert where[e][k] in where[e];
    }
    forall y, t | 0 <= y < i && 0 <= t < |sets[y]| && 0 <= sets[y][t] < n ensures y in where[sets[y][t]] {
      assert WhereRow(where, sets, i, sets[y][t]);
      assert sets[y][t] in sets[y];
    }
  }

  lemma {:induction false} WhereStep(sets0: seq<seq<int>>, sets: seq<seq<int>>, where: seq<seq<int>>, where1: seq<seq<int>>,
                  i: int, n: int, um: seq<int>, ns: seq<int>)
    requires 0 <= i < |sets0| == |sets| && 0 <= n <= |um| && n <= |where| == |where1|
    requires forall p | 0 <= p < n :: 0 <= um[p] < n
    requires WhereLists(where, sets, i, n) && WhereCounts(where, sets0, i, n, um)
    requires forall e, y | 0 <= e < n :: y in where1[e] <==> y in where[e] || (y == i && e in ns)
    requires forall p | 0 <= p < n :: |where1[um[p]]| == |where[um[p]]| + multiset(sets0[i])[p]
    ensures WhereLists(where1, sets[i := SortAndDedupInts(ns)], i + 1, n)
    ensures WhereCounts(where1, sets0, i + 1, n, um)
  {
    ghost var sets1 := sets[i := SortAndDedupInts(ns)];
    ghost var i1 := i + 1;
    forall e | 0 <= e < n ensures WhereRow(where1, sets1, i1, e) {
      forall y ensures y in where1[e] <==> 0 <= y < i1 && e in sets1[y] {
        WhereAt(where, sets, i, n, e, y);
        if y == i {
          assert e in sets1[y] <==> e in ns;
        } else if 0 <= y < i {
          assert sets1[y] == sets[y];
        }
      }
    }
    WhereListsIntro(where1, sets1, i + 1, n);
    assert sets0[..i + 1] == sets0[..i] + [sets0[i]];
    forall p | 0 <= p < n ensures |where1[um[p]]| == Occ(sets0[..i + 1], p) {
      OccSnoc(sets0[..i], sets0[i], p);
    }
  }

  /** The first i sets are renamed copies of the original ones. */
  ghost predicate RenamedUpTo(sets0: seq<seq<int>>, sets: seq<seq<int>>, i: int, n: int, um: seq<int>)
    requires 0 <= i <= |sets0| == |sets| && 0 <= n <= |um|
  {
    forall k | 0 <= k < i ::
      StrictlyIncreasing(sets[k]) && Below(sets[k], n) && |sets[k]| == |sets0[k]| &&
      Renamed(sets0[k], sets[k], um, n)
  }

  /** A position below n lies in o exactly when its new name lies in s. */
  ghost predicate Renamed(o: seq<int>, s: seq<int>, um: seq<int>, n: int)
    requires 0 <= n <= |um|
  {
    forall p | 0 <= p < n :: p in o <==> um[p] in s
  }

  lemma {:induction false} RenamedStep(sets0: seq<seq<int>>, sets: seq<seq<int>>, i: int, n: int, um: seq<int>, ns: seq<int>)
    requires 0 <= i < |sets0| == |sets| && 0 <= n <= |um|
    requires forall p | 0 <= p < n :: 0 <= um[p] < n
    requires forall p, q | 0 <= p < n && 0 <= q < n && um[p] == um[q] :: p == q
    requires StrictlyIncreasing(sets0[i]) && Below(sets0[i], n)
    requires |ns| == |sets0[i]| && forall t | 0 <= t < |ns| :: ns[t] == um[sets0[i][t]]
    requires RenamedUpTo(sets0, sets, i, n, um)
    ensures RenamedUpTo(sets0, sets[i := SortAndDedupInts(ns)], i + 1, n, um)
  {
    var s := sets0[i];
    var r := SortAndDedupInts(ns);
    assert Distinct(ns) by {
      forall a, b | 0 <= a < b < |ns| ensures ns[a] != ns[b] {
        assert s[a] < s[b];
      }
    }
    SortAndDedupIntsLength(ns);
    forall t | 0 <= t < |r| ensures 0 <= r[t] < n {
      assert r[t] in ns;
    }
    forall p | 0 <= p < n ensures p in s <==> um[p] in r {
      if um[p] in ns {
        var t :| 0 <= t < |ns| && ns[t] == um[p];
        assert s[t] in s;
      }
      if p in s {
        var t :| 0 <= t < |s| && s[t] == p;
        assert ns[t] == um[p];
      }
    }
  }

  /** Renames one set by um, and appends its index i to the list of each
      renamed entry. */
  method RenameOne(s: seq<int>, i: int, n: int, um: seq<int>, where0: seq<seq<int>>)
    returns (ns: seq<int>, where: seq<seq<int>>)
    requires 0 <= n <= |um| && n <= |where0|
    requires forall p | 0 <= p < n :: 0 <= um[p] < n
    requires forall p, q | 0 <= p < n && 0 <= q < n && um[p] == um[q] :: p == q
    requires forall t | 0 <= t < |s| :: 0 <= s[t] < n
    ensures |ns| == |s| && forall t | 0 <= t < |s| :: ns[t] == um[s[t]]
    ensures |where| == |where0|
    ensures forall e, y | 0 <= e < n :: y in where[e] <==> y in where0[e] || (y == i && e in ns)
    ensures forall p | 0 <= p < n :: |where[um[p]]| == |where0[um[p]]| + multiset(s)[p]
  {
    ns, where := [], where0;
    for j := 0 to |s|
      invariant |ns| == j && forall t | 0 <= t < j :: ns[t] == um[s[t]]
      invariant |where| == |where0|
      invariant forall e, y | 0 <= e < n :: y in where[e] <==> y in where0[e] || (y == i && e in ns)
      invariant forall p | 0 <= p < n :: |where[um[p]]| == |where0[um[p]]| + multiset(s[..j])[p]
    {
      assert s[..j + 1] == s[..j] + [s[j]];
      var x := um[s[j]];
      ns := ns + [x];
      where := where[x := where[x] + [i]];
    }
    assert s[..|s|] == s;
  }

  /** The number of entries of s from the first occurrence of e to the end,
      or 0 when e is not in s. */
  method SuffixFrom(s: seq<int>, e: int) returns (f: int)
    ensures 0 <= f <= |s|
    ensures f > 0 <==> e in s
    ensures f > 0 ==> s[|s| - f] == e && e !in s[..|s| - f]
  {
    f := 0;
    for j := 0 to |s|
      invariant e !in s[..j]
    {
      assert s[..j + 1] == s[..j] + [s[j]];
      if s[j] == e {
        return |s| - j;
      }
    }
    assert s[..|s|] == s;
  }

  /** The branching priority of set x at position e: how many entries of
      the set are at or above e. */
  ghost function Key(sets: seq<seq<int>>, x: int, e: int): int {
    if 0 <= x < |sets| && e in sets[x] then |sets[x]| - IndexIn(sets[x], e) else 0
  }

  /** The entries of ws have non-increasing keys. */
  ghost predicate ByKeyDesc(ws: seq<int>, key: seq<int>)
    requires Below(ws, |key|)
  {
    forall a, b | 0 <= a < b < |ws| :: key[ws[a]] >= key[ws[b]]
  }

  /** Inserts x after the entries whose key is at least that of x. */
  function InsertByKey(x: int, ws: seq<int>, key: seq<int>): (r: seq<int>)
    requires 0 <= x < |key| && Below(ws, |key|)
    ensures multiset(r) == multiset(ws) + multiset{x}
    ensures forall t | 0 <= t < |r| :: r[t] == x || r[t] in ws
  {
    if ws == [] then [x]
    else if key[x] > key[ws[0]] then [x] + ws
    else
      assert ws == [ws[0]] + ws[1..];
      [ws[0]] + InsertByKey(x, ws[1..], key)
  }

  /** Insertion keeps entries in range and keeps the keys non-increasing. */
  lemma {:induction false} InsertByKeySorted(x: int, ws: seq<int>, key: seq<int>)
    requires 0 <= x < |key| && Below(ws, |key|) && ByKeyDesc(ws, key)
    ensures Below(InsertByKey(x, ws, key), |key|)
    ensures ByKeyDesc(InsertByKey(x, ws, key), key)
  {
    if ws == [] {
    } else if key[x] > key[ws[0]] {
      InsertFront(x, ws, key);
    } else {
      var rest := InsertByKey(x, ws[1..], key);
      InsertByKeySorted(x, ws[1..], key);
      InsertBehind(x, ws, rest, key);
    }
  }

  lemma {:induction false} InsertFront(x: int, ws: seq<int>, key: seq<int>)
    requires 0 <= x < |key| && Below(ws, |key|) && ByKeyDesc(ws, key)
    requires ws != [] && key[x] > key[ws[0]]
    ensures Below([x] + ws, |key|) && ByKeyDesc([x] + ws, key)
  {
    var r := [x] + ws;
    forall a, b | 0 <= a < b < |r| ensures key[r[a]] >= key[r[b]] {
      assert r[b] == ws[b - 1];
      if a > 0 {
        assert r[a] == ws[a - 1];
      } else {
        assert key[ws[0]] >= key[ws[b - 1]] || b - 1 == 0;
      }
    }
  }

  lemma {:induction false} InsertBehind(x: int, ws: seq<int>, rest: seq<int>, key: seq<int>)
    requires 0 <= x < |key| && Below(ws, |key|) && ByKeyDesc(ws, key)
    requires ws != [] && key[x] <= key[ws[0]]
    requires Below(rest, |key|) && ByKeyDesc(rest, key)
    requires forall t | 0 <= t < |rest| :: rest[t] == x || rest[t] in ws[1..]
    ensures Below([ws[0]] + rest, |key|) && ByKeyDesc([ws[0]] + rest, key)
  {
    var r := [ws[0]] + rest;
    forall t | 0 <= t < |rest| ensures key[rest[t]] <= key[ws[0]] {
      if rest[t] != x {
        var u :| 0 <= u < |ws[1..]| && ws[1..][u] == rest[t];
        assert ws[u + 1] == rest[t];
      }
    }
    forall a, b | 0 <= a < b < |r| ensures key[r[a]] >= key[r[b]] {
      assert r[b] == rest[b - 1];
      if a > 0 {
        assert r[a] == rest[a - 1];
      }
    }
  }

  /** A stable sort of ws by non-increasing key. */
  function SortByKey(ws: seq<int>, key: seq<int>): (r: seq<int>)
    requires Below(ws, |key|)
    ensures multiset(r) == multiset(ws)
    ensures Below(r, |key|)
    ensures ByKeyDesc(r, key)
  {
    if ws == [] then []
    else
      var init := ws[..|ws| - 1];
      assert ws == init + [ws[|ws| - 1]];
      var sortedInit := SortByKey(init, key);
      InsertByKeySorted(ws[|ws| - 1], sortedInit, key);
      InsertByKey(ws[|ws| - 1], sortedInit, key)
  }

  /** The sets of ws are listed by non-increasing priority at position e. */
  ghost predicate ByPriority(ws: seq<int>, sets: seq<seq<int>>, e: int) {
    forall a, b | 0 <= a < b < |ws| :: Key(sets, ws[a], e) >= Key(sets, ws[b], e)
  }

  /** Records in heur the priority at position e of every set listed in ws. */
  method PrioritiesAt(ws: seq<int>, sets: seq<seq<int>>, m: int, e: int, heur0: seq<int>) returns (heur: seq<int>)
    requires 0 <= m <= |sets| && m <= |heur0|
    requires forall t | 0 <= t < |ws| :: 0 <= ws[t] < m && e in sets[ws[t]] && StrictlyIncreasing(sets[ws[t]])
    ensures |heur| == |heur0|
    ensures forall t | 0 <= t < |ws| :: heur[ws[t]] == Key(sets, ws[t], e)
  {
    heur := heur0;
    for k := 0 to |ws|
      invariant |heur| == |heur0|
      invariant forall t | 0 <= t < k :: heur[ws[t]] == Key(sets, ws[t], e)
    {
      var x := ws[k];
      var f := SuffixFrom(sets[x], e);
      assert f > 0;
      IndexOfEntry(sets[x], |sets[x]| - f);
      heur := heur[x := f];
    }
  }

  /** Sorting by the recorded priorities orders the list by priority. */
  lemma {:induction false} SortedByPriority(ws: seq<int>, sets: seq<seq<int>>, e: int, heur: seq<int>)
    requires Below(ws, |heur|)
    requires forall t | 0 <= t < |ws| :: heur[ws[t]] == Key(sets, ws[t], e)
    ensures ByPriority(SortByKey(ws, heur), sets, e)
  {
    var r := SortByKey(ws, heur);
    forall a | 0 <= a < |r| ensures heur[r[a]] == Key(sets, r[a], e) {
      assert r[a] in multiset(ws);
      var t :| 0 <= t < |ws| && ws[t] == r[a];
    }
  }

  /** Lists with the same entries give the same membership. */
  lemma {:induction false} WhereListsSame(where0: seq<seq<int>>, where: seq<seq<int>>, sets: seq<seq<int>>, m: int, n: int)
    requires 0 <= n <= |where0| == |where| && 0 <= m <= |sets|
    requires forall e | 0 <= e < n :: multiset(where[e]) == multiset(where0[e])
    requires WhereLists(where0, sets, m, n)
    ensures WhereLists(where, sets, m, n)
  {
    forall e | 0 <= e < n ensures WhereRow(where, sets, m, e) {
      forall y ensures y in where[e] <==> 0 <= y < m && e in sets[y] {
        WhereAt(where0, sets, m, n, e, y);
        assert y in where[e] <==> y in multiset(where[e]);
      }
    }
    WhereListsIntro(where, sets, m, n);
  }

  /** Orders the list of every position below n so that sets with more
      entries at or above the position come first. */
  method OrderChoices(sets: seq<seq<int>>, m: int, n: int, where0: seq<seq<int>>, heur0: seq<int>, cc: seq<(int, int)>)
    returns (where: seq<seq<int>>, heur: seq<int>)
    requires 0 <= m <= |sets| && m <= |heur0| && 0 <= n <= |where0| && n <= |cc|
    requires forall x | 0 <= x < m :: StrictlyIncreasing(sets[x])
    requires WhereLists(where0, sets, m, n)
    requires forall e | 0 <= e < n :: cc[e].0 == |where0[e]|
    ensures |where| == |where0| && |heur| == |heur0|
    ensures forall e | 0 <= e < n :: multiset(where[e]) == multiset(where0[e])
    ensures WhereLists(where, sets, m, n)
    ensures forall e | 0 <= e < n :: ByPriority(where[e], sets, e)
  {
    where, heur := where0, heur0;
    for i := 0 to n
      invariant |where| == |where0| && |heur| == |heur0|
      invariant forall e | 0 <= e < n :: multiset(where[e]) == multiset(where0[e])
      invariant forall e | i <= e < |where0| :: where[e] == where0[e]
      invariant forall e | 0 <= e < i :: ByPriority(where[e], sets, e)
    {
      var ws := where[i];
      forall t | 0 <= t < |ws| ensures 0 <= ws[t] < m && i in sets[ws[t]] {
        WhereAt(where0, sets, m, n, i, ws[t]);
      }
      heur := PrioritiesAt(ws, sets, m, i, heur);
      assert cc[i].0 == |where[i]|;
      SortedByPriority(ws, sets, i, heur);
      where := where[i := SortByKey(ws, heur)];
    }
    WhereListsSame(where0, where, sets, m, n);
  }

  /** Position p lies in one of the sets that c chooses. */
  ghost predicate CoveredBy(sets: seq<seq<int>>, c: seq<int>, p: int) {
    exists k | 0 <= k < |c| :: 0 <= c[k] < |sets| && p in sets[c[k]]
  }

  /** c chooses distinct sets among the first m, which together hold every
      position below n. */
  ghost predicate IsCover(sets: seq<seq<int>>, m: int, n: int, c: seq<int>) {
    NoRepeats(c) && Below(c, m) && forall p | 0 <= p < n :: CoveredBy(sets, c, p)
  }

  /** How the best cover and the bound evolve during one branch of the
      search started with the partial cover cv: either both are unchanged,
      or the new best cover extends cv, is not larger than the old bound,
      is strictly smaller than the old best cover, and is the new bound. */
  ghost predicate Improved(opt0: seq<int>, ub0: int, cv: seq<int>, opt: seq<int>, ub: int) {
    (opt == opt0 && ub == ub0) ||
    (cv <= opt && 0 < |opt| == ub <= ub0 && (|opt0| > 0 ==> |opt| < |opt0|))
  }

  /** Improvements compose, and an improvement for a longer partial cover is
      one for any prefix of it. */
  lemma {:induction false} ImprovedTrans(opt0: seq<int>, ub0: int, cv: seq<int>, cv1: seq<int>, opt1: seq<int>, ub1: int, opt2: seq<int>, ub2: int)
    requires cv <= cv1
    requires Improved(opt0, ub0, cv, opt1, ub1) && Improved(opt1, ub1, cv1, opt2, ub2)
    ensures Improved(opt0, ub0, cv, opt2, ub2)
  {
    if opt2 != opt1 || ub2 != ub1 {
      assert cv1 <= opt2;
      assert cv == cv1[..|cv|] && cv == opt2[..|cv|];
    }
  }

  /** Adding a set that holds position i to a partial cover of the positions
      before i covers the positions up to i. */
  lemma {:induction false} CoveredExtend(sets: seq<seq<int>>, cv: seq<int>, x: int, i: int)
    requires forall p | 0 <= p < i :: CoveredBy(sets, cv, p)
    requires 0 <= x < |sets| && i in sets[x]
    ensures forall p | 0 <= p < i + 1 :: CoveredBy(sets, cv + [x], p)
  {
    var c := cv + [x];
    forall p | 0 <= p < i + 1 ensures CoveredBy(sets, c, p) {
      if p < i {
        assert CoveredBy(sets, cv, p);
        var k :| 0 <= k < |cv| && 0 <= cv[k] < |sets| && p in sets[cv[k]];
        assert c[k] == cv[k];
      } else {
        assert c[|cv|] == x;
      }
    }
  }

  /** A list without repeats whose entries all lie in another list without
      repeats is not longer, and is shorter when the other list has an entry
      it lacks. */
  lemma {:induction false} SubListShorter(a: seq<int>, b: seq<int>, y: int)
    requires NoRepeats(a) && NoRepeats(b) && forall x | x in a :: x in b
    ensures |a| <= |b|
    ensures y in b && y !in a ==> |a| + 1 <= |b|
  {
    NoRepeatsCard(a);
    NoRepeatsCard(b);
    CardSubset(Elems(a), Elems(b));
    if y in b && y !in a {
      CardSubset(Elems(a) + {y}, Elems(b));
    }
  }

  /** A cover c the search from the partial cover cv is bound to account
      for: it keeps every set of cv, avoids every blocked set and is within
      the bound ub. */
  ghost predicate Candidate(sets: seq<seq<int>>, m: int, n: int, cv: seq<int>, no: seq<bool>, ub: int, c: seq<int>) {
    IsCover(sets, m, n, c) && |c| <= ub && (forall x | x in cv :: x in c) &&
    forall x | x in c :: 0 <= x < |no| && !no[x]
  }

  /** The best cover opt accounts for the cover c: a cover was found, and it
      is no larger than c or already within okCover. */
  ghost predicate Settles(opt: seq<int>, okCover: int, c: seq<int>) {
    |opt| > 0 && (|opt| <= |c| || |opt| <= okCover)
  }

  /** Every candidate that holds one of the sets w is accounted for. */
  ghost predicate SettledOn(sets: seq<seq<int>>, m: int, n: int, cv: seq<int>, no: seq<bool>, ub: int,
                            opt: seq<int>, okCover: int, w: seq<int>) {
    forall c | Candidate(sets, m, n, cv, no, ub, c) && (exists y | y in c :: y in w) ::
      Settles(opt, okCover, c)
  }

  /** Every candidate is accounted for. */
  ghost predicate SettledAll(sets: seq<seq<int>>, m: int, n: int, cv: seq<int>, no: seq<bool>, ub: int,
                             opt: seq<int>, okCover: int) {
    forall c | Candidate(sets, m, n, cv, no, ub, c) :: Settles(opt, okCover, c)
  }

  /** Once a cover is accounted for, it stays so while the best cover only
      improves. */
  lemma {:induction false} SettlesKept(opt0: seq<int>, ub0: int, cv: seq<int>, opt: seq<int>, ub: int, okCover: int, c: seq<int>)
    requires Improved(opt0, ub0, cv, opt, ub) && Settles(opt0, okCover, c)
    ensures Settles(opt, okCover, c)
  {
  }

  /** At the end of the search the partial cover itself is the best one,
      and no candidate is smaller. */
  lemma {:induction false} SettledAtEnd(sets: seq<seq<int>>, m: int, n: int, cv: seq<int>, no: seq<bool>, ub: int, okCover: int)
    requires NoRepeats(cv) && |cv| > 0
    ensures SettledAll(sets, m, n, cv, no, ub, cv, okCover)
  {
    forall c | Candidate(sets, m, n, cv, no, ub, c) ensures Settles(cv, okCover, c) {
      SubListShorter(cv, c, 0);
    }
  }

  /** A set holding position i that the partial cover lacks makes every
      candidate longer than the partial cover. */
  lemma {:induction false} CandidateLonger(sets: seq<seq<int>>, where: seq<seq<int>>, m: int, n: int, i: int,
                                           cv: seq<int>, no: seq<bool>, ub: int, c: seq<int>) returns (t: int)
    requires 0 <= i < n <= |where| && 0 <= m <= |sets| && WhereLists(where, sets, m, n)
    requires NoRepeats(cv) && forall t | 0 <= t < |where[i]| :: where[i][t] !in cv
    requires Candidate(sets, m, n, cv, no, ub, c)
    ensures 0 <= t < |where[i]| && where[i][t] in c && |cv| + 1 <= |c|
  {
    assert CoveredBy(sets, c, i);
    var k :| 0 <= k < |c| && 0 <= c[k] < |sets| && i in sets[c[k]];
    WhereAt(where, sets, m, n, i, c[k]);
    t :| 0 <= t < |where[i]| && where[i][t] == c[k];
    SubListShorter(cv, c, c[k]);
  }

  /** A candidate holds some set holding position i, so accounting for the
      candidates through each of them accounts for all. */
  lemma {:induction false} SettledOnAll(sets: seq<seq<int>>, where: seq<seq<int>>, m: int, n: int, i: int,
                                        cv: seq<int>, no: seq<bool>, ub: int, opt: seq<int>, okCover: int)
    requires 0 <= i < n <= |where| && 0 <= m <= |sets| && WhereLists(where, sets, m, n)
    requires NoRepeats(cv) && forall t | 0 <= t < |where[i]| :: where[i][t] !in cv
    requires SettledOn(sets, m, n, cv, no, ub, opt, okCover, where[i])
    ensures SettledAll(sets, m, n, cv, no, ub, opt, okCover)
  {
    forall c | Candidate(sets, m, n, cv, no, ub, c) ensures Settles(opt, okCover, c) {
      var t := CandidateLonger(sets, where, m, n, i, cv, no, ub, c);
    }
  }

  /** Each of the three reasons the search stops trying sets for position
      i accounts for every candidate: the bound leaves no room for another
      set, another set could at best match the best cover, or the best cover
      is already small enough. */
  lemma {:induction false} StopSettles(sets: seq<seq<int>>, where: seq<seq<int>>, m: int, n: int, i: int,
                                       cv: seq<int>, no: seq<bool>, ub0: int, opt0: seq<int>,
                                       opt: seq<int>, ub: int, okCover: int)
    requires 0 <= i < n <= |where| && 0 <= m <= |sets| && WhereLists(where, sets, m, n)
    requires NoRepeats(cv) && forall t | 0 <= t < |where[i]| :: where[i][t] !in cv
    requires Improved(opt0, ub0, cv, opt, ub)
    requires |cv| + 1 > ub || |cv| + 1 == |opt| || (|opt| != 0 && |opt| <= okCover)
    ensures SettledAll(sets, m, n, cv, no, ub0, opt, okCover)
  {
    forall c | Candidate(sets, m, n, cv, no, ub0, c) ensures Settles(opt, okCover, c) {
      var t := CandidateLonger(sets, where, m, n, i, cv, no, ub0, c);
    }
  }

  /** Trying the k-th set x holding position i, with the sets blocked so far
      being the blocks at the start or sets tried before x, accounts for the
      candidates through x as well. */
  lemma {:induction false} TriedSettles(sets: seq<seq<int>>, m: int, n: int, cv: seq<int>, no0: seq<bool>, ub0: int,
                                        opt0: seq<int>, no1: seq<bool>, opt1: seq<int>, ub1: int,
                                        opt2: seq<int>, ub2: int, okCover: int, ws: seq<int>, k: int)
    requires 0 <= k < |ws| && |no1| == |no0|
    requires forall x | 0 <= x < |no1| :: no1[x] ==> no0[x] || x in ws[..k]
    requires SettledOn(sets, m, n, cv, no0, ub0, opt1, okCover, ws[..k])
    requires Improved(opt0, ub0, cv, opt1, ub1) && Improved(opt1, ub1, cv + [ws[k]], opt2, ub2)
    requires SettledAll(sets, m, n, cv + [ws[k]], no1, ub1, opt2, okCover)
    ensures SettledOn(sets, m, n, cv, no0, ub0, opt2, okCover, ws[..k + 1])
  {
    var w := ws[..k + 1];
    assert w == ws[..k] + [ws[k]];
    forall c | Candidate(sets, m, n, cv, no0, ub0, c) && (exists y | y in c :: y in w)
      ensures Settles(opt2, okCover, c)
    {
      if exists y | y in c :: y in ws[..k] {
        SettlesKept(opt1, ub1, cv + [ws[k]], opt2, ub2, okCover, c);
      } else if |c| > ub1 {
        SettlesKept(opt1, ub1, cv + [ws[k]], opt2, ub2, okCover, c);
      } else {
        assert ws[k] in c;
        assert Candidate(sets, m, n, cv + [ws[k]], no1, ub1, c);
      }
    }
  }

  /** A blocked set holding position i was blocked at the start or tried
      before, so the candidates through it are accounted for already. */
  lemma {:induction false} BlockedSettles(sets: seq<seq<int>>, m: int, n: int, cv: seq<int>, no0: seq<bool>, ub0: int,
                                          no1: seq<bool>, opt: seq<int>, okCover: int, ws: seq<int>, k: int)
    requires 0 <= k < |ws| && 0 <= ws[k] < |no1| == |no0| && no1[ws[k]]
    requires forall x | 0 <= x < |no1| :: no1[x] ==> no0[x] || x in ws[..k]
    requires SettledOn(sets, m, n, cv, no0, ub0, opt, okCover, ws[..k])
    ensures SettledOn(sets, m, n, cv, no0, ub0, opt, okCover, ws[..k + 1])
  {
    var w := ws[..k + 1];
    assert w == ws[..k] + [ws[k]];
    forall c | Candidate(sets, m, n, cv, no0, ub0, c) && (exists y | y in c :: y in w)
      ensures Settles(opt, okCover, c)
    {
      assert exists y | y in c :: y in ws[..k];
    }
  }

  /** What the search over sets and the positions below n yields within
      the bound ub: v is [-1] or a cover of at most ub sets; and whenever a
      cover of at most ub sets exists, v is a cover that is minimum or has
      at most okCover sets. */
  ghost predicate Found(sets: seq<seq<int>>, n: int, ub: int, okCover: int, v: seq<int>) {
    (v == [-1] || (0 < |v| <= ub && IsCover(sets, |sets|, n, v))) &&
    forall c | IsCover(sets, |sets|, n, c) && |c| <= ub :: v != [-1] && (|v| <= |c| || |v| <= okCover)
  }

  /** Element e lies in one of the sets. */
  ghost predicate InSomeSet(gs: seq<seq<int>>, e: int) {
    exists j | 0 <= j < |gs| :: e in gs[j]
  }

  /** Whether a search over the universe can be set up: the bounds are
      ordered, every set restricted to the universe is increasing, and every
      element of the universe lies in some set. */
  ghost predicate Admissible(gs: seq<seq<int>>, universe: seq<int>, okCover: int, upperBound: int) {
    okCover <= upperBound &&
    (forall j | 0 <= j < |gs| :: StrictlyIncreasing(Restrict(gs[j], SortAndDedupInts(universe)))) &&
    (forall e | e in universe :: InSomeSet(gs, e))
  }

  /** Every position below n lies in one of the sets ss. */
  ghost predicate AllOccur(ss: seq<seq<int>>, n: int) {
    forall p | 0 <= p < n :: Occ(ss, p) > 0
  }

  /** Every position of the universe lies in a restricted set exactly when
      every element of the universe lies in one of the sets. */
  lemma {:induction false} AllCoveredIff(gs: seq<seq<int>>, universe: seq<int>)
    ensures AllOccur(RestrictedSets(gs, SortAndDedupInts(universe)), |SortAndDedupInts(universe)|) <==>
            (forall e | e in universe :: InSomeSet(gs, e))
  {
    var U := SortAndDedupInts(universe);
    var RS := RestrictedSets(gs, U);
    forall p | 0 <= p < |U| ensures Occ(RS, p) > 0 <==> InSomeSet(gs, U[p]) {
      OccPositive(RS, p);
      CoveredSomewhere(gs, U, p);
    }
    if forall e | e in universe :: InSomeSet(gs, e) {
      forall p | 0 <= p < |U| ensures Occ(RS, p) > 0 {
        assert U[p] in universe;
      }
    }
    if AllOccur(RS, |U|) {
      forall e | e in universe ensures InSomeSet(gs, e) {
        assert e in U;
        var p :| 0 <= p < |U| && U[p] == e;
        assert Occ(RS, p) > 0;
      }
    }
  }

  /** When every set restricted to the universe is increasing, so is every
      restricted set kept. */
  lemma {:induction false} RestrictedIncreasing(gs: seq<seq<int>>, U: seq<int>)
    requires forall j | 0 <= j < |gs| :: StrictlyIncreasing(Restrict(gs[j], U))
    ensures forall k | 0 <= k < |RestrictedSets(gs, U)| :: StrictlyIncreasing(RestrictedSets(gs, U)[k])
  {
    RestrictionsFrom(gs, U);
    forall k | 0 <= k < |RestrictedSets(gs, U)| ensures StrictlyIncreasing(RestrictedSets(gs, U)[k]) {
      assert RestrictedSets(gs, U)[k] in Restrictions(gs, U);
    }
  }

  /** The sorted universe of a non-empty list of positions below bound is a
      non-empty increasing list of at most bound positions. */
  lemma {:induction false} UniverseShape(universe: seq<int>, bound: int)
    requires |universe| > 0 && forall t | 0 <= t < |universe| :: 0 <= universe[t] < bound
    ensures StrictlyIncreasing(SortAndDedupInts(universe)) && Below(SortAndDedupInts(universe), bound)
    ensures 1 <= |SortAndDedupInts(universe)| <= bound
  {
    var U := SortAndDedupInts(universe);
    assert universe[0] in U;
    forall t | 0 <= t < |U| ensures 0 <= U[t] < bound {
      assert U[t] in universe;
    }
    FewDistinct(U, bound);
  }

  /** The loaded sets, when every restriction is increasing, are increasing
      lists of universe positions. */
  lemma {:induction false} LoadedShape(gs: seq<seq<int>>, U: seq<int>, ss: seq<seq<int>>, m: int)
    requires StrictlyIncreasing(U) && forall j | 0 <= j < |gs| :: StrictlyIncreasing(Restrict(gs[j], U))
    requires 0 <= m <= |ss| && ss[..m] == RestrictedSets(gs, U)
    ensures forall i | 0 <= i < m :: StrictlyIncreasing(ss[i]) && Below(ss[i], |U|)
  {
    RestrictedBelow(gs, U);
    RestrictedIncreasing(gs, U);
    forall i | 0 <= i < m ensures StrictlyIncreasing(ss[i]) && Below(ss[i], |U|) {
      assert ss[i] == ss[..m][i];
    }
  }

  /** A cover of the renamed sets is a cover of the original sets. */
  lemma {:induction false} CoverBack(orig: seq<seq<int>>, sets: seq<seq<int>>, m: int, n: int, um: seq<int>, c: seq<int>)
    requires 0 <= m <= |orig| && m <= |sets| && 0 <= n <= |um|
    requires forall p | 0 <= p < n :: 0 <= um[p] < n
    requires forall i | 0 <= i < m :: Renamed(orig[i], sets[i], um, n)
    requires IsCover(sets, m, n, c)
    ensures IsCover(orig[..m], m, n, c)
  {
    forall p | 0 <= p < n ensures CoveredBy(orig[..m], c, p) {
      assert CoveredBy(sets, c, um[p]);
      var k :| 0 <= k < |c| && 0 <= c[k] < |sets| && um[p] in sets[c[k]];
      assert c[k] < m;
      assert p in orig[..m][c[k]];
    }
  }

  /** Every position below n is the new name of one below n. */
  ghost predicate Onto(um: seq<int>, n: int)
    requires 0 <= n <= |um|
  {
    forall q | 0 <= q < n :: q in um[..n]
  }

  /** A cover of the original sets is a cover of the renamed sets. */
  lemma {:induction false} CoverForward(orig: seq<seq<int>>, sets: seq<seq<int>>, m: int, n: int, um: seq<int>, c: seq<int>)
    requires 0 <= m <= |orig| && m <= |sets| && 0 <= n <= |um|
    requires Onto(um, n)
    requires forall i | 0 <= i < m :: Renamed(orig[i], sets[i], um, n)
    requires IsCover(orig[..m], m, n, c)
    ensures IsCover(sets, m, n, c)
  {
    var o := orig[..m];
    forall q | 0 <= q < n ensures CoveredBy(sets, c, q) {
      assert q in um[..n];
      var p :| 0 <= p < n && um[..n][p] == q;
      assert CoveredBy(o, c, p);
      var k :| 0 <= k < |c| && 0 <= c[k] < |o| && p in o[c[k]];
      assert o[c[k]] == orig[c[k]];
      assert Renamed(orig[c[k]], sets[c[k]], um, n);
    }
  }

  /** The renamed sets and the lists of the sets holding each renamed
      position: um renames the positions below n
      within that range, and a position lies in an original set exactly
      when its new name lies in the renamed set. */
  ghost predicate Indexed(orig: seq<seq<int>>, sets: seq<seq<int>>, where: seq<seq<int>>, um: seq<int>, m: int, n: int) {
    0 <= m <= |orig| && m <= |sets| && 0 <= n <= |um| && n <= |where| &&
    (forall p | 0 <= p < n :: 0 <= um[p] < n) && Onto(um, n) &&
    (forall i | 0 <= i < m :: Renamed(orig[i], sets[i], um, n)) &&
    WhereLists(where, sets, m, n)
  }

  /** Counts, ranking, renaming and ordering of the first m restricted sets
      over the positions below n; fails when some position is in none. */
  method BuildIndex(sets0: seq<seq<int>>, m: int, n: int, cnt0: seq<int>, cc0: seq<(int, int)>, um0: seq<int>,
                    where0: seq<seq<int>>, heur0: seq<int>)
    returns (all: bool, cnt: seq<int>, cc: seq<(int, int)>, um: seq<int>, sets: seq<seq<int>>,
             where: seq<seq<int>>, heur: seq<int>)
    requires 1 <= n <= |cnt0| && |cnt0| == |cc0| == |um0| == |where0|
    requires 0 <= m <= |sets0| && |sets0| == |heur0|
    requires forall i | 0 <= i < m :: StrictlyIncreasing(sets0[i]) && Below(sets0[i], n)
    ensures |cnt| == |cnt0| && |cc| == |cc0| && |um| == |um0| && |where| == |where0|
    ensures |sets| == |sets0| && |heur| == |heur0|
    ensures all <==> AllOccur(sets0[..m], n)
    ensures all ==> Indexed(sets0, sets, where, um, m, n)
  {
    cc, um, sets, where, heur := cc0, um0, sets0, where0, heur0;
    cnt := CountSets(sets0, m, n, cnt0);
    all := AllCounted(cnt, n);
    if !all {
      return;
    }
    cc, um, where := RankByCount(cnt, n, cc0, um0, where0);
    sets, where := RenameSets(sets0, m, n, um, where);
    forall e | 0 <= e < n ensures cc[e].0 == |where[e]| {
      var p := cc[e].1;
      assert um[p] == e;
    }
    where, heur := OrderChoices(sets, m, n, where, heur0, cc);
    forall q | 0 <= q < n ensures q in um[..n] {
      assert um[..n][cc[q].1] == q;
    }
  }

  class Setcover {
    var gm: int
    var gSets: seq<seq<int>>
    var upperBound: int
    var tnoS: int
    var okCover: int
    var git: int
    var where: seq<seq<int>>
    var sets: seq<seq<int>>
    var cv: seq<int>
    var opt: seq<int>
    var sel: seq<bool>
    var cnt: seq<int>
    var no: seq<bool>
    var tno: seq<int>
    var plc: seq<int>
    var mark: seq<int>
    var um: seq<int>
    var heur: seq<int>
    var cc: seq<(int, int)>

    /** The buffer sizes the constructor sets up: one entry per set, one per
        element value, and one per set or element value for the undo stack. */
    ghost predicate Shape()
      reads this`gm, this`gSets, this`sets, this`sel, this`heur, this`mark, this`plc, this`cnt, this`cc
      reads this`um, this`where, this`no, this`tno
    {
      gm == |gSets| == |sets| == |sel| == |heur| && |mark| >= 1 &&
      |plc| == |cnt| == |cc| == |um| == |where| == |mark| && |no| == |tno| == gm + |mark|
    }

    /** The state between two calls of Solve: the buffers have their sizes,
        every set is within the element range, no mark is newer than git,
        and nothing is chosen or blocked. */
    ghost predicate Valid()
      reads this`gm, this`gSets, this`sets, this`sel, this`heur, this`mark, this`plc, this`cnt, this`cc
      reads this`um, this`where, this`no, this`tno, this`git, this`tnoS
    {
      Shape() && Settled()
    }

    ghost predicate Settled()
      reads this`gm, this`gSets, this`sel, this`mark, this`no, this`git, this`tnoS
    {
      (forall j | 0 <= j < gm && j < |gSets| :: Below(gSets[j], |mark|)) &&
      (forall e | 0 <= e < |mark| :: mark[e] <= git) &&
      tnoS == 0 && (forall x | 0 <= x < |no| :: !no[x]) && (forall x | 0 <= x < |sel| :: !sel[x])
    }

    /** The bookkeeping of the search over the first m renamed sets and the
        positions below n: sel marks exactly the chosen sets, no marks
        exactly the sets on the undo stack, and the best cover found so far
        is a cover whose size is the bound. */
    ghost predicate SearchState(m: int, n: int)
      reads this
    {
      Fixed(m, n) && Chosen(m) && Blocked(m) && Best(m, n)
    }

    /** What the search does not change: the renamed sets and the list of
        sets holding each position. */
    ghost predicate Fixed(m: int, n: int)
      reads this`gm, this`sets, this`where
    {
      gm == |sets| && 1 <= n <= |where| && 0 <= m <= gm && WhereLists(where, sets, m, n)
    }

    /** The partial cover lists distinct sets among the first m, and sel
        marks exactly them. */
    ghost predicate Chosen(m: int)
      reads this`gm, this`cv, this`sel
    {
      |sel| == gm && 0 <= m <= gm &&
      NoRepeats(cv) && Below(cv, m) && (forall x | 0 <= x < |sel| :: sel[x] <==> x in cv)
    }

    /** The undo stack lists distinct sets among the first m, and no marks
        exactly them. */
    ghost predicate Blocked(m: int)
      reads this`gm, this`no, this`tno, this`tnoS
    {
      |no| == |tno| > gm && 0 <= m <= gm &&
      0 <= tnoS <= |tno| && NoRepeats(tno[..tnoS]) && Below(tno[..tnoS], m) &&
      (forall x | 0 <= x < |no| :: no[x] <==> x in tno[..tnoS])
    }

    /** The best cover found so far, when there is one, covers every
        position below n and its size is the bound. */
    ghost predicate Best(m: int, n: int)
      reads this`opt, this`upperBound, this`sets
    {
      |opt| > 0 ==> upperBound == |opt| && IsCover(sets, m, n, opt)
    }

    constructor(gs: seq<seq<int>>)
      requires forall j | 0 <= j < |gs| :: forall k | 0 <= k < |gs[j]| :: gs[j][k] >= 0
      ensures Valid() && gSets == gs && gm == |gs|
      ensures forall j | 0 <= j < |gs| :: Below(gs[j], |mark|)
      ensures |mark| == 1 || exists j, k | 0 <= j < |gs| && 0 <= k < |gs[j]| :: gs[j][k] == |mark| - 1
    {
      gm := |gs|;
      var bound := ElementBound(gs);
      gSets := gs;
      sets := seq(|gs|, _ => []);
      where := seq(bound, _ => []);
      sel := seq(|gs|, _ => false);
      cnt := InitZero(bound);
      tnoS := 0;
      git := 1;
      tno := InitZero(|gs| + bound);
      no := seq(|gs| + bound, _ => false);
      plc := InitZero(bound);
      mark := InitZero(bound);
      cc := seq(bound, _ => (0, 0));
      um := InitZero(bound);
      heur := InitZero(|gs|);
      cv, opt := [], [];
      upperBound, okCover := 0, 0;
    }

    /** Whether one of the sets listed in ws is chosen. */
    method AnySelected(ws: seq<int>) returns (f: bool)
      requires forall t | 0 <= t < |ws| :: 0 <= ws[t] < |sel|
      ensures f <==> exists t | 0 <= t < |ws| :: sel[ws[t]]
    {
      for k := 0 to |ws|
        invariant forall t | 0 <= t < k :: !sel[ws[t]]
      {
        if sel[ws[k]] {
          return true;
        }
      }
      return false;
    }

    /** The search from position i: at i == n the chosen sets become the
        best cover and its size the bound; when a chosen set already holds
        i the search moves on; otherwise each set holding i is tried in
        turn. On return the chosen sets and the blocked sets are as before. */
    method Go(i: int, n: int, ghost m: int)
      requires SearchState(m, n) && 0 <= i <= n
      requires forall p | 0 <= p < i :: CoveredBy(sets, cv, p)
      requires |cv| <= upperBound || (i == 0 && cv == [])
      requires |opt| > 0 ==> |cv| < |opt|
      modifies this`upperBound, this`opt, this`cv, this`sel, this`no, this`tno, this`tnoS
      decreases n - i, 3
      ensures SearchState(m, n)
      ensures cv == old(cv) && sel == old(sel) && no == old(no) && tnoS == old(tnoS) && tno[..tnoS] == old(tno[..tnoS])
      ensures Improved(old(opt), old(upperBound), old(cv), opt, upperBound)
      ensures SettledAll(sets, m, n, old(cv), old(no), old(upperBound), opt, okCover)
    {
      if i == n {
        assert |cv| <= upperBound;
        assert CoveredBy(sets, cv, 0);
        upperBound := |cv|;
        if |opt| == 0 {
          opt := cv;
        } else {
          assert |cv| < |opt|;
          opt := cv;
        }
        SettledAtEnd(sets, m, n, cv, no, old(upperBound), okCover);
        return;
      }
      var ws := where[i];
      forall t | 0 <= t < |ws| ensures 0 <= ws[t] < m && i in sets[ws[t]] {
        WhereAt(where, sets, m, n, i, ws[t]);
      }
      var f := AnySelected(ws);
      if !f {
        Branch(i, n, m);
      } else {
        var t :| 0 <= t < |ws| && sel[ws[t]];
        assert ws[t] in cv;
        var k :| 0 <= k < |cv| && cv[k] == ws[t];
        assert CoveredBy(sets, cv, i);
        Go(i + 1, n, m);
      }
    }

    /** Tries, in order, each set holding position i that is not blocked,
        while the partial cover can still be extended within the bound, the
        extension would not merely match the best cover, and the best cover
        is not yet small enough; every set tried is then blocked for the
        rest of this branch, and the blocks are lifted at the end. */
    method Branch(i: int, n: int, ghost m: int)
      requires SearchState(m, n) && 0 <= i < n
      requires forall p | 0 <= p < i :: CoveredBy(sets, cv, p)
      requires forall t | 0 <= t < |where[i]| :: where[i][t] !in cv
      requires |cv| <= upperBound || (i == 0 && cv == [])
      requires |opt| > 0 ==> |cv| < |opt|
      modifies this`upperBound, this`opt, this`cv, this`sel, this`no, this`tno, this`tnoS
      decreases n - i, 2
      ensures SearchState(m, n)
      ensures cv == old(cv) && sel == old(sel) && no == old(no) && tnoS == old(tnoS) && tno[..tnoS] == old(tno[..tnoS])
      ensures Improved(old(opt), old(upperBound), old(cv), opt, upperBound)
      ensures SettledAll(sets, m, n, old(cv), old(no), old(upperBound), opt, okCover)
    {
      var ss := tnoS;
      var ws := where[i];
      var k := 0;
      ghost var stopped := false;
      while k < |ws|
        invariant cv == old(cv) && sel == old(sel) && ws == where[i]
        invariant Trying(i, n, m, k, ss, old(tno[..ss]), old(no), old(opt), old(upperBound))
      {
        if |cv| + 1 > upperBound || |cv| + 1 == |opt| || (|opt| != 0 && |opt| <= okCover) {
          StopSettles(sets, where, m, n, i, cv, old(no), old(upperBound), old(opt), opt, upperBound, okCover);
          stopped := true;
          break;
        }
        TryNext(i, n, m, k, ss, old(tno[..ss]), old(no), old(opt), old(upperBound));
        k := k + 1;
      }
      if !stopped {
        assert ws[..k] == where[i];
        SettledOnAll(sets, where, m, n, i, cv, old(no), old(upperBound), opt, okCover);
      }
      Unblock(ss, m);
      assert tno[..ss] == old(tno[..tnoS]);
      forall x | 0 <= x < |no| ensures no[x] == old(no)[x] {
        assert x in tno[..ss] <==> x in old(tno[..tnoS]);
      }
    }

    /** The state while Branch tries the sets holding position i: the
        search state holds, the sets before the k-th have been tried or
        skipped, the undo stack below ss and the blocks at the start (no0)
        are kept, every block is an old one or one of the sets tried, the
        best cover has only improved from opt0 and ub0, and every candidate
        through one of the first k sets is accounted for. */
    ghost predicate Trying(i: int, n: int, m: int, k: int, ss: int, tno0: seq<int>, no0: seq<bool>, opt0: seq<int>, ub0: int)
      reads this
    {
      SearchState(m, n) && 0 <= i < n && 0 <= k <= |where[i]| &&
      (forall p | 0 <= p < i :: CoveredBy(sets, cv, p)) &&
      (forall t | 0 <= t < |where[i]| :: where[i][t] !in cv) &&
      0 <= ss <= tnoS && tno[..ss] == tno0 && |no| == |no0| &&
      Improved(opt0, ub0, cv, opt, upperBound) &&
      (|cv| <= upperBound || (i == 0 && cv == [])) && (|opt| > 0 ==> |cv| < |opt|) &&
      (forall x | 0 <= x < |no| :: no[x] ==> no0[x] || x in where[i][..k]) &&
      SettledOn(sets, m, n, cv, no0, ub0, opt, okCover, where[i][..k])
    }

    /** Tries the k-th set holding position i unless it is blocked. */
    method TryNext(i: int, n: int, ghost m: int, k: int, ghost ss: int, ghost tno0: seq<int>, ghost no0: seq<bool>,
                   ghost opt0: seq<int>, ghost ub0: int)
      requires Trying(i, n, m, k, ss, tno0, no0, opt0, ub0) && k < |where[i]|
      requires |cv| + 1 <= upperBound && (|opt| > 0 ==> |cv| + 1 < |opt|)
      modifies this`upperBound, this`opt, this`cv, this`sel, this`no, this`tno, this`tnoS
      decreases n - i, 1
      ensures cv == old(cv) && sel == old(sel)
      ensures Trying(i, n, m, k + 1, ss, tno0, no0, opt0, ub0)
    {
      var ws := where[i];
      var x := ws[k];
      WhereAt(where, sets, m, n, i, x);
      assert ws[..k + 1] == ws[..k] + [x];
      if !no[x] {
        assert x !in cv;
        ghost var opt1, ub1, no1 := opt, upperBound, no;
        TryChoice(i, n, m, x);
        ImprovedTrans(opt0, ub0, cv, cv + [x], opt1, ub1, opt, upperBound);
        TriedSettles(sets, m, n, cv, no0, ub0, opt0, no1, opt1, ub1, opt, upperBound, okCover, ws, k);
        assert tno[..ss] == tno[..tnoS - 1][..ss];
      } else {
        BlockedSettles(sets, m, n, cv, no0, ub0, no, opt, okCover, ws, k);
      }
    }

    /** Chooses set x for position i, searches on from i + 1, then unchooses
        x and blocks it. */
    method TryChoice(i: int, n: int, ghost m: int, x: int)
      requires SearchState(m, n) && 0 <= i < n
      requires forall p | 0 <= p < i :: CoveredBy(sets, cv, p)
      requires 0 <= x < m && i in sets[x] && x !in cv && !no[x]
      requires |cv| + 1 <= upperBound
      requires |opt| > 0 ==> |cv| + 1 < |opt|
      modifies this`upperBound, this`opt, this`cv, this`sel, this`no, this`tno, this`tnoS
      decreases n - i, 0
      ensures SearchState(m, n)
      ensures cv == old(cv) && sel == old(sel) && no == old(no)[x := true]
      ensures tnoS == old(tnoS) + 1 && tno[..tnoS] == old(tno[..tnoS]) + [x]
      ensures Improved(old(opt), old(upperBound), old(cv) + [x], opt, upperBound)
      ensures SettledAll(sets, m, n, old(cv) + [x], old(no), old(upperBound), opt, okCover)
    {
      CoveredExtend(sets, cv, x, i);
      Choose(x, m);
      Go(i + 1, n, m);
      Unchoose(x, m);
      Block(x, m);
    }

    /** Adds set x to the partial cover. */
    method Choose(x: int, ghost m: int)
      requires Chosen(m) && 0 <= x < m && x !in cv
      modifies this`sel, this`cv
      ensures Chosen(m) && cv == old(cv) + [x] && sel == old(sel)[x := true]
    {
      sel := sel[x := true];
      cv := cv + [x];
    }

    /** Removes set x, the last one chosen, from the partial cover. */
    method Unchoose(x: int, ghost m: int)
      requires Chosen(m) && |cv| > 0 && cv[|cv| - 1] == x
      modifies this`sel, this`cv
      ensures Chosen(m) && cv == old(cv)[..|old(cv)| - 1] && sel == old(sel)[x := false]
    {
      sel := sel[x := false];
      cv := cv[..|cv| - 1];
      assert forall y | y in cv :: y in old(cv) && y != x;
    }

    /** Blocks set x and pushes it on the undo stack. */
    method Block(x: int, ghost m: int)
      requires Blocked(m) && 0 <= x < m && !no[x]
      modifies this`no, this`tno, this`tnoS
      ensures Blocked(m) && no == old(no)[x := true]
      ensures tnoS == old(tnoS) + 1 && tno[..tnoS] == old(tno[..tnoS]) + [x]
    {
      FewDistinct(tno[..tnoS] + [x], m);
      no := no[x := true];
      tno := tno[tnoS := x];
      tnoS := tnoS + 1;
      assert tno[..tnoS] == old(tno[..tnoS]) + [x];
    }

    /** Lifts the blocks added since the undo stack had ss entries. */
    method Unblock(ss: int, ghost m: int)
      requires Blocked(m) && 0 <= ss <= tnoS
      modifies this`no, this`tnoS
      ensures Blocked(m) && tnoS == ss
      ensures forall x | 0 <= x < |no| :: no[x] <==> x in tno[..ss]
    {
      while tnoS > ss
        invariant ss <= tnoS && Blocked(m)
        invariant tno == old(tno)
      {
        var x := tno[tnoS - 1];
        assert tno[..tnoS] == tno[..tnoS - 1] + [x];
        no := no[x := false];
        tnoS := tnoS - 1;
      }
    }

    /** Solves one instance: the distinct elements of the universe are
        numbered in increasing order, each set is restricted to them, and
        the distinct non-empty restrictions, in increasing order, are the
        sets to choose from. The result lists the positions of the chosen
        restrictions in that order, or is [-1] when the search found no
        cover within the bound. */
    method Solve(universe: seq<int>, okCover0: int, upperBound0: int) returns (r: Outcome<seq<int>>)
      requires Valid()
      requires forall t | 0 <= t < |universe| :: 0 <= universe[t] < |mark|
      modifies this
      ensures Valid() && gSets == old(gSets) && |mark| == old(|mark|)
      ensures universe == [] ==> r == Done([])
      ensures universe != [] ==> (r.Abort? <==> !Admissible(gSets, universe, okCover0, upperBound0))
      ensures universe != [] && r.Done? ==>
        Found(RestrictedSets(gSets, SortAndDedupInts(universe)), |SortAndDedupInts(universe)|, upperBound0, okCover0, r.value)
    {
      if |universe| == 0 {
        return Done([]);
      }
      Start(okCover0, upperBound0);
      if okCover > upperBound {
        return Abort;
      }
      var U := SortAndDedupInts(universe);
      UniverseShape(universe, |mark|);
      r := SolveSorted(U);
      AllCoveredIff(gSets, universe);
    }

    /** Solves the instance over the sorted universe U once the bounds are
        stored: loads the restricted sets and searches them. */
    method SolveSorted(U: seq<int>) returns (r: Outcome<seq<int>>)
      requires Valid() && StrictlyIncreasing(U) && Below(U, |mark|) && 1 <= |U| <= |mark|
      requires forall e | 0 <= e < |mark| :: mark[e] < git
      modifies this`mark, this`plc, this`cnt, this`cc, this`um, this`where, this`sets, this`heur
      modifies this`sel, this`opt, this`cv, this`upperBound, this`no, this`tno, this`tnoS
      ensures Valid() && gSets == old(gSets) && |mark| == old(|mark|)
      ensures r.Abort? <==>
        !(forall j | 0 <= j < |gSets| :: StrictlyIncreasing(Restrict(gSets[j], U))) ||
        !AllOccur(RestrictedSets(gSets, U), |U|)
      ensures r.Done? ==> Found(RestrictedSets(gSets, U), |U|, old(upperBound), okCover, r.value)
    {
      var ok, m := LoadSets(U);
      if !ok {
        return Abort;
      }
      LoadedShape(gSets, U, sets, m);
      var all, c := SearchRestricted(|U|, m);
      if !all {
        return Abort;
      }
      r := Done(c);
    }

    /** Indexes the first m loaded sets over the n positions of the universe
        and searches them; fails when some position is in none of them. The
        cover found, if any, is given as indices of the loaded sets. */
    method SearchRestricted(n: int, m: int) returns (all: bool, c: seq<int>)
      requires Valid() && 1 <= n <= |mark| && 0 <= m <= gm
      requires forall i | 0 <= i < m :: StrictlyIncreasing(sets[i]) && Below(sets[i], n)
      modifies this`cnt, this`cc, this`um, this`where, this`sets, this`heur
      modifies this`sel, this`opt, this`cv, this`upperBound, this`no, this`tno, this`tnoS
      ensures Valid() && gm == old(gm) && gSets == old(gSets) && mark == old(mark)
      ensures all <==> AllOccur(old(sets)[..m], n)
      ensures all ==> Found(old(sets)[..m], n, old(upperBound), okCover, c)
    {
      c := [];
      ghost var orig;
      all, orig := IndexSets(n, m);
      if !all {
        return;
      }
      SearchAll(n, m);
      if opt != [-1] {
        CoverBack(orig, sets, m, n, um, opt);
      }
      forall d | IsCover(orig[..m], m, n, d) && |d| <= old(upperBound) ensures opt != [-1] && Settles(opt, okCover, d) {
        CoverForward(orig, sets, m, n, um, d);
      }
      c := opt;
    }

    /** Marks the universe U with the new generation git, records the
        position of each of its elements, and keeps in the first m entries
        of sets the distinct non-empty restrictions of the sets to U, in
        increasing order; fails when a restriction is not increasing. */
    method LoadSets(U: seq<int>) returns (ok: bool, m: int)
      requires Valid() && StrictlyIncreasing(U) && Below(U, |mark|) && 1 <= |U|
      requires forall e | 0 <= e < |mark| :: mark[e] < git
      modifies this`mark, this`plc, this`sets
      ensures Valid() && |mark| == old(|mark|)
      ensures ok <==> forall j | 0 <= j < |gSets| :: StrictlyIncreasing(Restrict(gSets[j], U))
      ensures ok ==> 0 <= m <= gm && sets[..m] == RestrictedSets(gSets, U)
    {
      var mark1, plc1 := MarkUniverse(mark, plc, U, git);
      var sets1, m1;
      ok, sets1, m1 := RestrictSets(gSets, sets, mark1, plc1, git, U);
      if !ok {
        Load(mark1, plc1, sets);
        return false, 0;
      }
      LexLessOrder();
      var sorted := SortAndDedup(sets1[..m1], LexLess);
      assert sorted == RestrictedSets(gSets, U);
      SortAndDedupLength(sets1[..m1], LexLess);
      m := |sorted|;
      assert (sorted + sets1[m..])[..m] == sorted;
      Load(mark1, plc1, sorted + sets1[m..]);
    }

    /** Stores the universe marks, the positions and the loaded sets. */
    method Load(mark': seq<int>, plc': seq<int>, sets': seq<seq<int>>)
      modifies this`mark, this`plc, this`sets
      ensures mark == mark' && plc == plc' && sets == sets'
    {
      mark, plc, sets := mark', plc', sets';
    }

    /** Opens a new call: advances the marking generation and stores the
        bounds. */
    method Start(okCover0: int, upperBound0: int)
      modifies this`git, this`okCover, this`upperBound
      ensures git == old(git) + 1 && okCover == okCover0 && upperBound == upperBound0
    {
      git := git + 1;
      okCover := okCover0;
      upperBound := upperBound0;
    }

    /** Counts the sets holding each position, fails when a position is in
        none, and otherwise renames the positions by increasing count,
        records for each position the sets holding it, and orders each such
        list by priority. */
    method IndexSets(n: int, m: int) returns (all: bool, ghost orig: seq<seq<int>>)
      requires Valid() && 1 <= n <= |mark| && 0 <= m <= gm
      requires forall i | 0 <= i < m :: StrictlyIncreasing(sets[i]) && Below(sets[i], n)
      modifies this`cnt, this`cc, this`um, this`where, this`sets, this`heur
      ensures Valid() && orig == old(sets)
      ensures all <==> AllOccur(orig[..m], n)
      ensures all ==> Fixed(m, n) && Indexed(orig, sets, where, um, m, n)
    {
      orig := sets;
      var cnt', cc', um', sets', where', heur';
      all, cnt', cc', um', sets', where', heur' := BuildIndex(sets, m, n, cnt, cc, um, where, heur);
      Install(cnt', cc', um', sets', where', heur');
    }

    /** Stores the counts, ranking, renamed sets and choice lists. */
    method Install(cnt': seq<int>, cc': seq<(int, int)>, um': seq<int>, sets': seq<seq<int>>,
                   where': seq<seq<int>>, heur': seq<int>)
      modifies this`cnt, this`cc, this`um, this`where, this`sets, this`heur
      ensures cnt == cnt' && cc == cc' && um == um' && sets == sets' && where == where' && heur == heur'
    {
      cnt, cc, um, sets, where, heur := cnt', cc', um', sets', where', heur';
    }

    /** Empties the best cover and the current choice. */
    method ClearCover()
      modifies this`opt, this`cv
      ensures opt == [] && cv == []
    {
      opt := [];
      cv := [];
    }

    /** Runs the search over the first m renamed sets from position 0 with
        nothing chosen; the result is the best cover found, or [-1]. */
    method SearchAll(n: int, m: int)
      requires Valid() && Fixed(m, n)
      modifies this`sel, this`opt, this`cv, this`upperBound, this`no, this`tno, this`tnoS
      ensures Valid()
      ensures opt == [-1] || (0 < |opt| <= old(upperBound) && IsCover(sets, m, n, opt))
      ensures forall c | IsCover(sets, m, n, c) && |c| <= old(upperBound) :: opt != [-1] && Settles(opt, okCover, c)
    {
      ClearSelection(m);
      ClearCover();
      SearchFromStart(n, m);
    }

    /** Unselects the first m sets. */
    method ClearSelection(m: int)
      requires 0 <= m <= |sel|
      modifies this`sel
      ensures |sel| == old(|sel|)
      ensures forall x | 0 <= x < m :: !sel[x]
      ensures forall x | m <= x < |sel| :: sel[x] == old(sel[x])
    {
      for i := 0 to m
        invariant |sel| == old(|sel|)
        invariant forall x | 0 <= x < i :: !sel[x]
        invariant forall x | i <= x < |sel| :: sel[x] == old(sel[x])
      {
        sel := sel[i := false];
      }
    }

    method SearchFromStart(n: int, m: int)
      requires Valid() && Fixed(m, n) && opt == [] && cv == []
      modifies this`sel, this`opt, this`cv, this`upperBound, this`no, this`tno, this`tnoS
      ensures Valid()
      ensures opt == [-1] || (0 < |opt| <= old(upperBound) && IsCover(sets, m, n, opt))
      ensures forall c | IsCover(sets, m, n, c) && |c| <= old(upperBound) :: opt != [-1] && Settles(opt, okCover, c)
    {
      assert Chosen(m);
      assert Blocked(m);
      assert Best(m, n);
      Go(0, n, m);
      ghost var found := opt;
      if |opt| == 0 {
        SetOpt([-1]);
      }
      forall c | IsCover(sets, m, n, c) && |c| <= old(upperBound) ensures opt != [-1] && Settles(opt, okCover, c) {
        assert Candidate(sets, m, n, [], old(no), old(upperBound), c);
        assert Settles(found, okCover, c);
        assert opt == found && 0 <= found[0];
      }
    }

    /** Replaces the best cover. */
    method SetOpt(c: seq<int>)
      modifies this`opt
      ensures opt == c
    {
      opt := c;
    }
  }
}
