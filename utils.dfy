/** The generic helpers of the program: ordering and sorting of value lists,
    complete edge sets, permutation inverses and the sorted value set that
    maps labels to dense indices. */
module Utils {

  // ---------------------------------------------------------------------
  // Orders

  ghost predicate StrictTotalOrder<T(!new)>(less: (T, T) -> bool) {
    (forall a :: !less(a, a)) &&
    (forall a, b, c :: less(a, b) && less(b, c) ==> less(a, c)) &&
    (forall a, b :: a == b || less(a, b) || less(b, a))
  }

  predicate IntLess(a: int, b: int) { a < b }

  /** Lexicographic order of sequences, as the standard library compares
      vectors and strings: a proper prefix comes first. */
  predicate SeqLess<T(==)>(a: seq<T>, b: seq<T>, less: (T, T) -> bool) {
    |b| > 0 && (|a| == 0 || (if a[0] != b[0] then less(a[0], b[0]) else SeqLess(a[1..], b[1..], less)))
  }

  predicate LexLess(a: seq<int>, b: seq<int>) { SeqLess(a, b, IntLess) }

  predicate CharLess(x: char, y: char) { x < y }

  predicate StringLess(a: string, b: string) { SeqLess(a, b, CharLess) }

  lemma {:induction false} IntLessOrder()
    ensures StrictTotalOrder(IntLess)
  {
  }

  lemma {:induction false} SeqLessIrreflexive<T(!new)>(a: seq<T>, less: (T, T) -> bool)
    requires StrictTotalOrder(less)
    ensures !SeqLess(a, a, less)
  {
    if |a| > 0 {
      SeqLessIrreflexive(a[1..], less);
    }
  }

  lemma {:induction false} SeqLessTransitive<T(!new)>(a: seq<T>, b: seq<T>, c: seq<T>, less: (T, T) -> bool)
    requires StrictTotalOrder(less)
    requires SeqLess(a, b, less) && SeqLess(b, c, less)
    ensures SeqLess(a, c, less)
  {
    if |a| > 0 && a[0] == b[0] && b[0] == c[0] {
      SeqLessTransitive(a[1..], b[1..], c[1..], less);
    }
  }

  lemma {:induction false} SeqLessTotal<T(!new)>(a: seq<T>, b: seq<T>, less: (T, T) -> bool)
    requires StrictTotalOrder(less)
    ensures a == b || SeqLess(a, b, less) || SeqLess(b, a, less)
  {
    if |a| > 0 && |b| > 0 && a[0] == b[0] {
      SeqLessTotal(a[1..], b[1..], less);
      if a[1..] == b[1..] {
        assert a == [a[0]] + a[1..] && b == [b[0]] + b[1..];
      }
    }
  }

  lemma {:induction false} LexLessOrder()
    ensures StrictTotalOrder(LexLess)
  {
    IntLessOrder();
    forall a: seq<int> ensures !LexLess(a, a) {
      SeqLessIrreflexive(a, IntLess);
    }
    forall a: seq<int>, b: seq<int>, c: seq<int> | LexLess(a, b) && LexLess(b, c)
      ensures LexLess(a, c)
    {
      SeqLessTransitive(a, b, c, IntLess);
    }
    forall a: seq<int>, b: seq<int> ensures a == b || LexLess(a, b) || LexLess(b, a) {
      SeqLessTotal(a, b, IntLess);
    }
  }

  lemma {:induction false} StringLessOrder()
    ensures StrictTotalOrder(StringLess)
  {
    assert StrictTotalOrder(CharLess);
    forall a: string ensures !StringLess(a, a) {
      SeqLessIrreflexive(a, CharLess);
    }
    forall a: string, b: string, c: string | StringLess(a, b) && StringLess(b, c)
      ensures StringLess(a, c)
    {
      SeqLessTransitive(a, b, c, CharLess);
    }
    forall a: string, b: string ensures a == b || StringLess(a, b) || StringLess(b, a) {
      SeqLessTotal(a, b, CharLess);
    }
  }

  // ---------------------------------------------------------------------
  // Sorting

  ghost predicate StrictlySorted<T>(s: seq<T>, less: (T, T) -> bool) {
    forall i, j | 0 <= i < j < |s| :: less(s[i], s[j])
  }

  ghost predicate Sorted(s: seq<int>) {
    forall i, j | 0 <= i < j < |s| :: s[i] <= s[j]
  }

  ghost predicate StrictlyIncreasing(s: seq<int>) {
    forall i, j | 0 <= i < j < |s| :: s[i] < s[j]
  }

  /** Reports whether no element is smaller than its predecessor. */
  method IsSorted(s: seq<int>) returns (r: bool)
    ensures r <==> Sorted(s)
  {
    for i := 0 to |s|
      invariant Sorted(s[..i])
    {
      if i > 0 && s[i] < s[i-1] {
        return false;
      }
      assert forall j | 0 <= j < i :: s[j] <= s[i];
    }
    assert s[..|s|] == s;
    return true;
  }

  function InsertSorted<T(==)>(x: T, s: seq<T>, less: (T, T) -> bool): (r: seq<T>)
    decreases s
  {
    if s == [] then [x]
    else if x == s[0] then s
    else if less(x, s[0]) then [x] + s
    else [s[0]] + InsertSorted(x, s[1..], less)
  }

  lemma {:induction false} InsertSortedCorrect<T(!new)>(x: T, s: seq<T>, less: (T, T) -> bool)
    requires StrictTotalOrder(less) && StrictlySorted(s, less)
    ensures StrictlySorted(InsertSorted(x, s, less), less)
    ensures forall y :: y in InsertSorted(x, s, less) <==> y == x || y in s
  {
    if s != [] && x != s[0] && !less(x, s[0]) {
      InsertSortedCorrect(x, s[1..], less);
      var t := InsertSorted(x, s[1..], less);
      assert forall y | y in t :: less(s[0], y) by {
        forall y | y in t ensures less(s[0], y) {
          if y != x {
            var k :| 0 <= k < |s[1..]| && s[1..][k] == y;
            assert s[k+1] == y;
          }
        }
      }
    }
  }

  /** No value occurs twice. */
  ghost predicate Distinct<T>(s: seq<T>) {
    forall i, j | 0 <= i < j < |s| :: s[i] != s[j]
  }

  /** A list without repeats has as many distinct values as entries. */
  lemma {:induction false} DistinctCard<T>(s: seq<T>)
    requires Distinct(s)
    ensures |set x | x in s| == |s|
  {
    if |s| > 0 {
      var p := s[..|s| - 1];
      assert Distinct(p);
      DistinctCard(p);
      assert (set x | x in s) == (set x | x in p) + {s[|s| - 1]};
      assert s[|s| - 1] !in p;
    }
  }

  lemma {:induction false} InsertSortedLength<T(!new)>(x: T, s: seq<T>, less: (T, T) -> bool)
    ensures |InsertSorted(x, s, less)| <= |s| + 1
    decreases s
  {
    if s != [] && x != s[0] && !less(x, s[0]) {
      InsertSortedLength(x, s[1..], less);
    }
  }

  /** The vector sorted with duplicates removed. */
  function SortAndDedup<T(==,!new)>(s: seq<T>, less: (T, T) -> bool): (r: seq<T>)
    requires StrictTotalOrder(less)
    ensures StrictlySorted(r, less)
    ensures forall y :: y in r <==> y in s
  {
    if s == [] then []
    else
      var rest := SortAndDedup(s[..|s|-1], less);
      InsertSortedCorrect(s[|s|-1], rest, less);
      assert forall y :: y in s <==> y in s[..|s|-1] || y == s[|s|-1] by {
        assert s == s[..|s|-1] + [s[|s|-1]];
      }
      InsertSorted(s[|s|-1], rest, less)
  }

  /** Sorting with duplicates removed never lengthens the list. */
  lemma {:induction false} SortAndDedupLength<T(!new)>(s: seq<T>, less: (T, T) -> bool)
    requires StrictTotalOrder(less)
    ensures |SortAndDedup(s, less)| <= |s|
    decreases |s|
  {
    if s != [] {
      SortAndDedupLength(s[..|s|-1], less);
      InsertSortedLength(s[|s|-1], SortAndDedup(s[..|s|-1], less), less);
    }
  }

  lemma {:induction false} HeadIsLeast<T>(s: seq<T>, x: T, less: (T, T) -> bool)
    requires StrictlySorted(s, less) && x in s
    ensures x == s[0] || less(s[0], x)
  {
  }

  /** A strictly sorted list is determined by its elements, so any sort-then-
      unique procedure gives the same list as SortAndDedup. */
  lemma {:induction false} StrictlySortedUnique<T(!new)>(a: seq<T>, b: seq<T>, less: (T, T) -> bool)
    requires StrictTotalOrder(less)
    requires StrictlySorted(a, less) && StrictlySorted(b, less)
    requires forall y :: y in a <==> y in b
    ensures a == b
  {
    assert a != [] ==> a[0] in a;
    assert b != [] ==> b[0] in b;
    if a != [] && b != [] {
      HeadIsLeast(b, a[0], less);
      HeadIsLeast(a, b[0], less);
      assert a[0] == b[0];
      forall y ensures y in a[1..] <==> y in b[1..] {
        if y in a[1..] {
          var i :| 0 <= i < |a[1..]| && a[1..][i] == y;
          assert less(a[0], y);
        }
        if y in b[1..] {
          var i :| 0 <= i < |b[1..]| && b[1..][i] == y;
          assert less(b[0], y);
        }
        assert y in a <==> y == a[0] || y in a[1..] by { assert a == [a[0]] + a[1..]; }
        assert y in b <==> y == b[0] || y in b[1..] by { assert b == [b[0]] + b[1..]; }
      }
      StrictlySortedUnique(a[1..], b[1..], less);
      assert a == [a[0]] + a[1..] && b == [b[0]] + b[1..];
    }
  }

  function SortAndDedupInts(s: seq<int>): (r: seq<int>)
    ensures StrictlyIncreasing(r)
    ensures forall y :: y in r <==> y in s
  {
    IntLessOrder();
    SortAndDedup(s, IntLess)
  }

  /** Sorting a list without repeats keeps all of its entries. */
  lemma {:induction false} SortAndDedupIntsLength(s: seq<int>)
    requires Distinct(s)
    ensures |SortAndDedupInts(s)| == |s|
  {
    var r := SortAndDedupInts(s);
    assert Distinct(r);
    DistinctCard(s);
    DistinctCard(r);
    assert (set x | x in s) == (set x | x in r);
  }

  /** Resizes to `size` elements, all zero. */
  function InitZero(size: nat): (r: seq<int>)
    ensures |r| == size && forall i | 0 <= i < size :: r[i] == 0
  {
    seq(size, _ => 0)
  }

  // ---------------------------------------------------------------------
  // Complete edge sets

  /** The pairs (v[i], v[j]) with i < j for rows i below `rows`, in index order. */
  ghost function PairsBefore<T>(v: seq<T>, rows: nat): seq<(T, T)>
    requires rows <= |v|
  {
    if rows == 0 then [] else PairsBefore(v, rows - 1) + Row(v, rows - 1)
  }

  ghost function Row<T>(v: seq<T>, i: nat): seq<(T, T)>
    requires i < |v|
  {
    seq(|v| - i - 1, k requires 0 <= k < |v| - i - 1 => (v[i], v[i + 1 + k]))
  }

  lemma {:induction false} PairsBeforeMembers<T>(v: seq<T>, rows: nat, p: (T, T))
    requires rows <= |v|
    ensures p in PairsBefore(v, rows) <==> exists i, j | 0 <= i < j < |v| && i < rows :: p == (v[i], v[j])
  {
    if rows > 0 {
      PairsBeforeMembers(v, rows - 1, p);
      if p in Row(v, rows - 1) {
        var k :| 0 <= k < |Row(v, rows - 1)| && Row(v, rows - 1)[k] == p;
        assert p == (v[rows - 1], v[rows + k]);
      }
      if exists i, j | 0 <= i < j < |v| && i < rows :: p == (v[i], v[j]) {
        var i, j :| 0 <= i < j < |v| && i < rows && p == (v[i], v[j]);
        if i == rows - 1 {
          assert Row(v, i)[j - i - 1] == p;
        }
      }
    }
  }

  lemma {:induction false} PairsBeforeLength<T>(v: seq<T>, rows: nat)
    requires rows <= |v|
    ensures 2 * |PairsBefore(v, rows)| == rows * (2 * |v| - rows - 1)
  {
    if rows > 0 {
      PairsBeforeLength(v, rows - 1);
    }
  }

  /** All pairs (v[i], v[j]) with i < j, in index order; nothing for fewer than two vertices. */
  method CompleteEdges<T>(v: seq<T>) returns (edges: seq<(T, T)>)
    ensures 2 * |edges| == |v| * (|v| - 1)
    ensures forall p :: p in edges <==> exists i, j | 0 <= i < j < |v| :: p == (v[i], v[j])
    ensures |v| >= 2 ==> edges == PairsBefore(v, |v|)
  {
    if |v| < 2 {
      return [];
    }
    edges := [];
    for i := 0 to |v|
      invariant edges == PairsBefore(v, i)
    {
      for ii := i + 1 to |v|
        invariant edges == PairsBefore(v, i) + Row(v, i)[..ii - i - 1]
      {
        edges := edges + [(v[i], v[ii])];
      }
    }
    PairsBeforeLength(v, |v|);
    forall p ensures p in edges <==> exists i, j | 0 <= i < j < |v| :: p == (v[i], v[j]) {
      PairsBeforeMembers(v, |v|, p);
    }
  }

  // ---------------------------------------------------------------------
  // Permutations

  ghost predicate IsPermutation(p: seq<int>) {
    (forall i | 0 <= i < |p| :: 0 <= p[i] < |p|) &&
    (forall i, j | 0 <= i < j < |p| :: p[i] != p[j])
  }

  ghost function RangeSet(n: nat): (r: set<int>)
    ensures forall x :: x in r <==> 0 <= x < n
    ensures |r| == n
  {
    if n == 0 then {} else RangeSet(n - 1) + {n - 1}
  }

  /** Pigeonhole: an injective map of {0..n-1} into itself hits every value. */
  lemma {:induction false} PermutationOnto(p: seq<int>, v: int)
    requires IsPermutation(p) && 0 <= v < |p|
    ensures exists i | 0 <= i < |p| :: p[i] == v
  {
    var img := set i | 0 <= i < |p| :: p[i];
    var dom := RangeSet(|p|);
    InjectiveImageSize(p, |p|);
    assert img <= dom;
    assert dom == img + (dom - img);
    assert |dom - img| == 0;
    assert v in img;
  }

  lemma {:induction false} InjectiveImageSize(p: seq<int>, k: nat)
    requires k <= |p|
    requires forall i, j | 0 <= i < j < |p| :: p[i] != p[j]
    ensures |set i | 0 <= i < k :: p[i]| == k
  {
    if k > 0 {
      InjectiveImageSize(p, k - 1);
      var a := set i | 0 <= i < k - 1 :: p[i];
      assert (set i | 0 <= i < k :: p[i]) == a + {p[k-1]};
      assert p[k-1] !in a;
    }
  }

  /** The inverse permutation q, with q[p[i]] == i. */
  method PermInverse(p: seq<int>) returns (q: seq<int>)
    requires IsPermutation(p)
    ensures |q| == |p| && IsPermutation(q)
    ensures forall i | 0 <= i < |p| :: q[p[i]] == i
    ensures forall v | 0 <= v < |p| :: p[q[v]] == v
  {
    var ret := new int[|p|](_ => 0);
    for i := 0 to |p|
      invariant forall k | 0 <= k < i :: ret[p[k]] == k
    {
      ret[p[i]] := i;
    }
    q := ret[..];
    forall v | 0 <= v < |p| ensures 0 <= q[v] < |p| && p[q[v]] == v {
      PermutationOnto(p, v);
    }
  }

  // ---------------------------------------------------------------------
  // Static sets

  /** A sorted, duplicate-free list of values; `Rank` is a value's position
      and `Kth` the value at a position. */
  datatype StaticSet<T> = StaticSet(values: seq<T>)
  {
    function Size(): nat { |values| }

    function Kth(k: nat): T
      requires k < |values|
    {
      values[k]
    }
  }

  /** The set built from a list of values: sorted and deduplicated. */
  function MakeStaticSet<T(==,!new)>(vs: seq<T>, less: (T, T) -> bool): (s: StaticSet<T>)
    requires StrictTotalOrder(less)
    ensures StrictlySorted(s.values, less)
    ensures forall y :: y in s.values <==> y in vs
  {
    StaticSet(SortAndDedup(vs, less))
  }

  function IndexOf<T(==)>(s: seq<T>, x: T): (k: nat)
    requires x in s
    ensures k < |s| && s[k] == x && x !in s[..k]
  {
    if s[0] == x then 0 else 1 + IndexOf(s[1..], x)
  }

  /** The position of a value in a strictly sorted list. */
  function Rank<T(==,!new)>(s: StaticSet<T>, x: T, less: (T, T) -> bool): (k: nat)
    requires StrictTotalOrder(less) && StrictlySorted(s.values, less) && x in s.values
    ensures k < |s.values| && s.values[k] == x
    ensures forall j | 0 <= j < |s.values| && s.values[j] == x :: j == k
  {
    var k := IndexOf(s.values, x);
    assert forall j | 0 <= j < |s.values| && j != k :: s.values[j] != x by {
      forall j | 0 <= j < |s.values| && j != k ensures s.values[j] != x {
        assert j < k ==> less(s.values[j], s.values[k]);
        assert k < j ==> less(s.values[k], s.values[j]);
      }
    }
    k
  }

  /** Rank over integers in increasing order. */
  function RankInts(s: seq<int>, x: int): (k: nat)
    requires StrictlyIncreasing(s) && x in s
    ensures k < |s| && s[k] == x
    ensures forall j | 0 <= j < |s| && s[j] == x :: j == k
  {
    IndexOf(s, x)
  }

  /** Each element is smaller than the next one. */
  ghost predicate ChainIncreasing(s: seq<int>) {
    forall i | 0 < i < |s| :: s[i-1] < s[i]
  }

  lemma {:induction false} ChainIncreasingStrict(s: seq<int>)
    requires ChainIncreasing(s)
    ensures StrictlyIncreasing(s)
  {
    if |s| > 1 {
      var t := s[..|s|-1];
      assert ChainIncreasing(t) by {
        forall i | 0 < i < |t| ensures t[i-1] < t[i] {
          assert t[i-1] == s[i-1] && t[i] == s[i];
        }
      }
      ChainIncreasingStrict(t);
      forall i, j | 0 <= i < j < |s| ensures s[i] < s[j] {
        if j < |s| - 1 {
          assert s[i] == t[i] && s[j] == t[j];
        } else if i < |s| - 2 {
          assert s[i] == t[i] && s[|s|-2] == t[|s|-2];
        }
      }
    }
  }

  // ---------------------------------------------------------------------
  // Ordered sets of integers (a std::set<int> read in increasing order)

  /** A strictly increasing list is determined by its elements. */
  lemma {:induction false} StrictlyIncreasingUnique(a: seq<int>, b: seq<int>)
    requires StrictlyIncreasing(a) && StrictlyIncreasing(b)
    requires forall y :: y in a <==> y in b
    ensures a == b
  {
    assert a != [] ==> a[0] in a;
    assert b != [] ==> b[0] in b;
    if a != [] && b != [] {
      assert a[0] == b[0];
      forall y | y in a[1..] ensures y in b[1..] {
        var i :| 0 <= i < |a[1..]| && a[1..][i] == y;
        assert a[i+1] == y && a[0] < y && y in a;
        var j :| 0 <= j < |b| && b[j] == y;
        assert j != 0;
        assert b[1..][j-1] == y;
      }
      forall y | y in b[1..] ensures y in a[1..] {
        var i :| 0 <= i < |b[1..]| && b[1..][i] == y;
        assert b[i+1] == y && b[0] < y && y in b;
        var j :| 0 <= j < |a| && a[j] == y;
        assert j != 0;
        assert a[1..][j-1] == y;
      }
      StrictlyIncreasingUnique(a[1..], b[1..]);
      assert a == [a[0]] + a[1..] && b == [b[0]] + b[1..];
    }
  }

  /** Inserting into an ordered set: a value already present changes nothing. */
  function InsertInts(x: int, s: seq<int>): (r: seq<int>)
    requires StrictlyIncreasing(s)
    ensures StrictlyIncreasing(r)
    ensures forall y :: y in r <==> y == x || y in s
  {
    IntLessOrder();
    InsertSortedCorrect(x, s, IntLess);
    InsertSorted(x, s, IntLess)
  }

  /** Erasing a value from an ordered set; an absent value changes nothing. */
  function EraseInts(s: seq<int>, x: int): (r: seq<int>)
    ensures forall y :: y in r <==> y in s && y != x
  {
    if s == [] then []
    else
      assert forall y :: y in s <==> y == s[0] || y in s[1..] by { assert s == [s[0]] + s[1..]; }
      (if s[0] == x then [] else [s[0]]) + EraseInts(s[1..], x)
  }

  lemma {:induction false} EraseIntsIncreasing(s: seq<int>, x: int)
    requires StrictlyIncreasing(s)
    ensures StrictlyIncreasing(EraseInts(s, x))
  {
    if s != [] {
      EraseIntsIncreasing(s[1..], x);
      var rest := EraseInts(s[1..], x);
      forall y | y in rest ensures s[0] < y {
        var k :| 0 <= k < |s[1..]| && s[1..][k] == y;
        assert s[k+1] == y;
      }
      var r := EraseInts(s, x);
      assert r == (if s[0] == x then [] else [s[0]]) + rest;
      forall i, j | 0 <= i < j < |r| ensures r[i] < r[j] {
        if s[0] != x && i == 0 {
          assert r[j] == rest[j-1] && rest[j-1] in rest;
        }
      }
    }
  }
}
