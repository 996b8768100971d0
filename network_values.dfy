/** The comparator networks of the static cardinality encoding read on truth
    values, where a comparator sends two booleans to their "or" (the larger)
    and their "and" (the smaller). The functions follow the positions the
    builder works on: the comparators on matching inputs, the bit-reversal
    permutation of the resulting pairs, then merge levels of doubling width,
    each working on consecutive blocks. The lemmas show that the merger turns
    two sorted inputs into their sorted union; sorted means true at the
    front and false behind. */
module NetworkValues {

  /** `n` is a power of two. */
  predicate IsPow2(n: int)
    decreases n
  {
    n == 1 || (n >= 2 && n % 2 == 0 && IsPow2(n / 2))
  }

  lemma {:induction false} Pow2Half(n: int)
    requires IsPow2(n) && 2 < n
    ensures IsPow2(n / 2) && 2 <= n / 2
  {
  }

  /** Below a power of two, doubling a smaller power of two does not pass it. */
  lemma {:induction false} Pow2Step(j: int, n: int)
    requires IsPow2(j) && IsPow2(n) && j < n
    ensures 2 * j <= n && IsPow2(2 * j)
    decreases j
  {
    if j >= 2 {
      Pow2Step(j / 2, n / 2);
    }
    assert (2 * j) / 2 == j;
  }

  /** `n` booleans of which exactly the first `c` are true: the sorted form of
      any `n` booleans of which `c` are true. */
  function Ones(n: nat, c: int): (r: seq<bool>)
    ensures |r| == n && forall k | 0 <= k < n :: r[k] == (k < c)
  {
    seq(n, k => k < c)
  }

  // ---------------------------------------------------------------------
  // Blocks

  /** `n` is a multiple of the block width `w`. */
  predicate Multiple(n: int, w: int)
    decreases n
  {
    n == 0 || (1 <= w <= n && Multiple(n - w, w))
  }

  /** The blocks, one after the other. */
  function Flat<T>(bs: seq<seq<T>>): seq<T>
  {
    if bs == [] then [] else Flat(bs[..|bs| - 1]) + bs[|bs| - 1]
  }

  lemma {:induction false} FlatSnoc<T>(bs: seq<seq<T>>, b: seq<T>)
    ensures Flat(bs + [b]) == Flat(bs) + b
  {
    assert (bs + [b])[..|bs|] == bs;
  }

  /** Blocks of width `w`, one after the other, fill a multiple of `w`. */
  lemma {:induction false} FlatMultiple<T>(bs: seq<seq<T>>, w: int)
    requires 1 <= w && forall b | 0 <= b < |bs| :: |bs[b]| == w
    ensures Multiple(|Flat(bs)|, w)
    decreases |bs|
  {
    if bs != [] {
      FlatMultiple(bs[..|bs| - 1], w);
    }
  }

  /** Blocks of width two fill twice as many places. */
  lemma {:induction false} FlatTwoLength(bs: seq<seq<bool>>)
    requires forall b | 0 <= b < |bs| :: |bs[b]| == 2
    ensures |Flat(bs)| == 2 * |bs|
    decreases |bs|
  {
    if bs != [] {
      FlatTwoLength(bs[..|bs| - 1]);
    }
  }

  /** Blocks of width two, one after the other. */
  lemma {:induction false} FlatTwo(bs: seq<seq<bool>>)
    requires forall b | 0 <= b < |bs| :: |bs[b]| == 2
    ensures |Flat(bs)| == 2 * |bs|
    ensures forall k | 0 <= k < 2 * |bs| :: Flat(bs)[k] == bs[k / 2][k % 2]
    decreases |bs|
  {
    if bs != [] {
      var front := bs[..|bs| - 1];
      FlatTwo(front);
      assert Flat(bs) == Flat(front) + bs[|bs| - 1];
    }
  }

  /** Neighbouring blocks joined: block b is blocks 2b and 2b+1. */
  function JoinPairs<T>(bs: seq<seq<T>>): (r: seq<seq<T>>)
    ensures |r| == |bs| / 2 && forall b | 0 <= b < |r| :: r[b] == bs[2 * b] + bs[2 * b + 1]
  {
    seq(|bs| / 2, b requires 0 <= b < |bs| / 2 => bs[2 * b] + bs[2 * b + 1])
  }

  /** Joining an even number of blocks keeps their concatenation. */
  lemma {:induction false} FlatJoinPairs<T>(bs: seq<seq<T>>, m: nat)
    requires |bs| == 2 * m
    ensures Flat(JoinPairs(bs)) == Flat(bs)
    decreases m
  {
    if m > 0 {
      var front := bs[..|bs| - 2];
      FlatJoinPairs(front, m - 1);
      var j := JoinPairs(bs);
      assert j[..|j| - 1] == JoinPairs(front);
      assert j[|j| - 1] == bs[|bs| - 2] + bs[|bs| - 1];
      assert bs[..|bs| - 1][..|bs| - 2] == front;
    }
  }

  // ---------------------------------------------------------------------
  // The network on truth values

  /** `i` with its log2(n) low bits reversed: the lowest bit becomes the highest. */
  function Rev(i: int, n: int): (r: int)
    requires IsPow2(n) && 0 <= i
    ensures 0 <= r < n
    decreases n
  {
    if n == 1 then 0
    else if i % 2 == 0 then Rev(i / 2, n / 2)
    else n / 2 + Rev(i / 2, n / 2)
  }

  /** The comparators on matching inputs: pair i holds the "or" and the
      "and" of a[i] and b[i]. */
  function PairBlocks(a: seq<bool>, b: seq<bool>): (r: seq<seq<bool>>)
    requires |a| == |b|
    ensures |r| == |a| && forall i | 0 <= i < |a| :: r[i] == [a[i] || b[i], a[i] && b[i]]
  {
    seq(|a|, i requires 0 <= i < |a| => [a[i] || b[i], a[i] && b[i]])
  }

  /** The bit-reversal permutation of `n` blocks: block p receives block
      Rev(p, n). */
  function Permuted<T>(bs: seq<T>, n: int): (r: seq<T>)
    requires IsPow2(n) && |bs| == n
    ensures |r| == n && forall p | 0 <= p < n :: r[p] == bs[Rev(p, n)]
  {
    seq(n, p requires 0 <= p < n => bs[Rev(p, n)])
  }

  /** Entry k of `MergeStep(v)`. */
  function StepAt(v: seq<bool>, k: int): bool
    requires |v| >= 2 && 0 <= k < |v|
  {
    var h := |v| / 2;
    if k == 0 || k == |v| - 1 then v[k]
    else if k % 2 == 1 then v[(k - 1) / 2 + 1] || v[(k - 1) / 2 + h]
    else v[(k - 2) / 2 + 1] && v[(k - 2) / 2 + h]
  }

  /** The last stage of Batcher's merger on one block whose halves are the
      merged even and odd subsequences: comparator j takes v[j+1] and v[j+h]
      to positions 2j+1 ("or") and 2j+2 ("and"); the first and last entries
      stay. */
  function MergeStep(v: seq<bool>): (r: seq<bool>)
    requires |v| >= 2
    ensures |r| == |v| && forall k | 0 <= k < |v| :: r[k] == StepAt(v, k)
  {
    seq(|v|, k requires 0 <= k < |v| => StepAt(v, k))
  }

  /** Blocks that `MergeStep` applies to: width at least 2. */
  ghost predicate Mergeable(bs: seq<seq<bool>>) {
    forall b | 0 <= b < |bs| :: |bs[b]| >= 2
  }

  function Steps(bs: seq<seq<bool>>): (r: seq<seq<bool>>)
    requires Mergeable(bs)
    ensures |r| == |bs| && forall b | 0 <= b < |bs| :: r[b] == MergeStep(bs[b])
  {
    seq(|bs|, b requires 0 <= b < |bs| => MergeStep(bs[b]))
  }

  /** One level of merging: `MergeStep` on each block of width `w`. */
  function Level(v: seq<bool>, w: int): (r: seq<bool>)
    requires 2 <= w && Multiple(|v|, w)
    ensures |r| == |v|
    decreases |v|
  {
    if |v| == 0 then [] else Level(v[..|v| - w], w) + MergeStep(v[|v| - w..])
  }

  /** A level appends the merge step of each block that is appended. */
  lemma {:induction false} LevelSnoc(v: seq<bool>, blk: seq<bool>, w: int)
    requires 2 <= w && Multiple(|v|, w) && |blk| == w
    ensures Multiple(|v + blk|, w) && Level(v + blk, w) == Level(v, w) + MergeStep(blk)
  {
    assert (v + blk)[..|v|] == v && (v + blk)[|v|..] == blk;
  }

  /** On blocks of width `w`, a level is the merge step of each block. */
  lemma {:induction false} LevelFlat(bs: seq<seq<bool>>, w: int)
    requires 2 <= w && forall b | 0 <= b < |bs| :: |bs[b]| == w
    ensures Multiple(|Flat(bs)|, w) && Mergeable(bs)
    ensures Level(Flat(bs), w) == Flat(Steps(bs))
    decreases |bs|
  {
    FlatMultiple(bs, w);
    if bs != [] {
      var front := bs[..|bs| - 1];
      LevelFlat(front, w);
      FlatMultiple(front, w);
      LevelSnoc(Flat(front), bs[|bs| - 1], w);
      assert Steps(bs) == Steps(front) + [MergeStep(bs[|bs| - 1])];
      FlatSnoc(Steps(front), MergeStep(bs[|bs| - 1]));
    }
  }

  /** The widths w, 2w, .. up to n all divide n, and the last one is n. */
  predicate LevelsFit(n: int, w: int)
    decreases n - w
  {
    2 <= w <= n && Multiple(n, w) && (w == n || LevelsFit(n, 2 * w))
  }

  /** The levels of widths w, 2w, .., |v|. */
  function Layers(v: seq<bool>, w: int): (r: seq<bool>)
    requires LevelsFit(|v|, w)
    ensures |r| == |v|
    decreases |v| - w
  {
    var u := Level(v, w);
    if w == |v| then u else Layers(u, 2 * w)
  }

  /** The levels of widths w, 2w, .. that fit in |v|: none when w > |v|. */
  function LayersFrom(v: seq<bool>, w: int): (r: seq<bool>)
    requires IsPow2(|v|) && IsPow2(w) && 2 <= w
    ensures |r| == |v|
    decreases 2 * |v| - w
  {
    if |v| < w then v
    else
      Pow2Multiple(|v|, w);
      Pow2Double(w);
      LayersFrom(Level(v, w), 2 * w)
  }

  /** Taking level `w` first leaves the levels from 2w on. */
  lemma {:induction false} LayersFromStep(v: seq<bool>, w: int)
    requires IsPow2(|v|) && IsPow2(w) && 2 <= w <= |v|
    ensures Multiple(|v|, w) && IsPow2(2 * w)
    ensures LayersFrom(Level(v, w), 2 * w) == LayersFrom(v, w)
  {
    Pow2Multiple(|v|, w);
    Pow2Double(w);
  }

  /** The levels of widths 4, 8, .., w/2 applied in turn (as far as the
      widths divide |v|). */
  function Upto(v: seq<bool>, w: int): (r: seq<bool>)
    ensures |r| == |v|
    decreases w
  {
    if w <= 4 || !Multiple(|v|, w / 2) then v
    else Level(Upto(v, w / 2), w / 2)
  }

  lemma {:induction false} Pow2AboveFour(w: int)
    requires IsPow2(w) && 4 < w
    ensures IsPow2(w / 2) && 4 <= w / 2 && w == 2 * (w / 2)
  {
    Pow2Half(w);
  }

  /** Level `w` after the levels below it gives the levels below `2 * w`. */
  lemma {:induction false} UptoStep(v0: seq<bool>, vp: seq<bool>, v: seq<bool>, w: int)
    requires 4 <= w && |vp| == |v0| && Multiple(|vp|, w)
    requires vp == Upto(v0, w) && v == Level(vp, w)
    ensures v == Upto(v0, 2 * w)
  {
    var u := 2 * w;
    assert u / 2 == w;
    assert Upto(v0, u) == Level(Upto(v0, w), w);
  }

  /** Once the levels below w are done, the levels from w on finish the job. */
  lemma {:induction false} UptoLayers(v: seq<bool>, w: int)
    requires IsPow2(|v|) && IsPow2(w) && 4 <= w <= 2 * |v|
    ensures IsPow2(4) && LayersFrom(Upto(v, w), w) == LayersFrom(v, 4)
    decreases w
  {
    Pow2Four();
    if w > 4 {
      Pow2AboveFour(w);
      Pow2Multiple(|v|, w / 2);
      UptoLayers(v, w / 2);
      LayersFromStep(Upto(v, w / 2), w / 2);
    }
  }

  /** Where the widths fit, the levels that fit are all the levels. */
  lemma {:induction false} LayersFromAll(v: seq<bool>, w: int)
    requires IsPow2(|v|) && IsPow2(w) && 2 <= w <= |v|
    ensures LevelsFit(|v|, w) && LayersFrom(v, w) == Layers(v, w)
    decreases |v| - w
  {
    Pow2Fits(|v|, w);
    LayersFromStep(v, w);
    if w < |v| {
      Pow2Step(w, |v|);
      LayersFromAll(Level(v, w), 2 * w);
    }
  }

  /** The merger of two inputs of equal power-of-two length. */
  function Merged(a: seq<bool>, b: seq<bool>): (r: seq<bool>)
    requires |a| == |b| && IsPow2(|a|)
    ensures |r| == 2 * |a|
  {
    var ps := Permuted(PairBlocks(a, b), |a|);
    PermutedPairs(a, b);
    FlatTwoLength(ps);
    var s := Flat(ps);
    if |a| == 1 then s
    else
      Pow2Double(|a|);
      Pow2Four();
      Pow2Fits(2 * |a|, 4);
      Layers(s, 4)
  }

  /** The pairs stage hands on blocks of two. */
  lemma {:induction false} PermutedPairs(a: seq<bool>, b: seq<bool>)
    requires |a| == |b| && IsPow2(|a|)
    ensures forall p | 0 <= p < |a| :: |Permuted(PairBlocks(a, b), |a|)[p]| == 2
  {
    var bs := PairBlocks(a, b);
    forall p | 0 <= p < |a|
      ensures |Permuted(bs, |a|)[p]| == 2
    {
      var q := Rev(p, |a|);
      assert Permuted(bs, |a|)[p] == bs[q];
    }
  }

  // ---------------------------------------------------------------------
  // Powers of two

  lemma {:induction false} Pow2Double(n: int)
    requires IsPow2(n)
    ensures IsPow2(2 * n)
  {
    assert (2 * n) / 2 == n;
  }

  lemma {:induction false} Pow2Four()
    ensures IsPow2(4)
  {
    assert IsPow2(2);
  }

  lemma {:induction false} MultipleAdd(a: int, b: int, w: int)
    requires Multiple(a, w) && Multiple(b, w) && 0 <= a
    ensures Multiple(a + b, w)
    decreases a
  {
    if a > 0 {
      MultipleAdd(a - w, b, w);
      assert a + b - w == (a - w) + b;
    }
  }

  lemma {:induction false} Pow2Multiple(n: int, w: int)
    requires IsPow2(n) && IsPow2(w) && w <= n
    ensures Multiple(n, w)
    decreases n
  {
    if w < n {
      Pow2Step(w, n);
      var h := n / 2;
      assert 2 * h == n;
      Pow2Multiple(h, w);
      MultipleAdd(h, h, w);
    } else {
      assert Multiple(n - w, w);
    }
  }

  lemma {:induction false} Pow2Fits(n: int, w: int)
    requires IsPow2(n) && IsPow2(w) && 2 <= w <= n
    ensures LevelsFit(n, w)
    decreases n - w
  {
    Pow2Multiple(n, w);
    if w < n {
      Pow2Step(w, n);
      Pow2Fits(n, 2 * w);
    }
  }

  // ---------------------------------------------------------------------
  // Bit reversal

  /** Reversing over 2N positions moves the top bit of `i` to the bottom. */
  lemma {:induction false} RevTopBit(i: int, n: int)
    requires IsPow2(n) && 0 <= i < 2 * n
    ensures IsPow2(2 * n)
    ensures i < n ==> Rev(i, 2 * n) == 2 * Rev(i, n)
    ensures n <= i ==> Rev(i, 2 * n) == 2 * Rev(i - n, n) + 1
    decreases n
  {
    assert (2 * n) / 2 == n;
    if n == 1 {
      assert Rev(i / 2, 1) == 0;
    } else {
      var a := i / 2;
      var h := n / 2;
      assert 2 * h == n;
      RevTopBit(a, h);
      if i < n {
        assert a < h;
      } else {
        assert h <= a && (i - n) / 2 == a - h && (i - n) % 2 == i % 2;
      }
    }
  }

  /** Reversing twice gives the position back. */
  lemma {:induction false} RevRev(i: int, n: int)
    requires IsPow2(n) && 0 <= i < n
    ensures Rev(Rev(i, n), n) == i
    decreases n
  {
    if n > 1 {
      var h := n / 2;
      var a := i / 2;
      assert 2 * h == n;
      RevRev(a, h);
      var x := Rev(i, n);
      RevTopBit(x, h);
    }
  }

  /** Blocks 2b and 2b+1 of a level with m blocks merge into block b of the
      next level: their residues are those of b, and those plus m/2. */
  lemma {:induction false} RevHalves(b: int, m: int)
    requires IsPow2(m) && 2 <= m && 0 <= b
    ensures Rev(2 * b, m) == Rev(b, m / 2) && Rev(2 * b + 1, m) == m / 2 + Rev(b, m / 2)
  {
    assert (2 * b) / 2 == b && (2 * b + 1) / 2 == b;
    assert (2 * b) % 2 == 0 && (2 * b + 1) % 2 == 1;
  }

  // ---------------------------------------------------------------------
  // Counting a residue class of a sorted sequence

  /** How many of the k positions r, r + m, .., r + (k - 1) m lie below c:
      the number of true entries at those positions of a sorted sequence
      with c true entries. */
  function Cnt(c: int, r: int, m: int, k: nat): (n: nat)
    ensures n <= k
    decreases k
  {
    if k == 0 then 0 else (if r < c then 1 else 0) + Cnt(c, r + m, m, k - 1)
  }

  /** Positions from c on are all false. */
  lemma {:induction false} CntZero(c: int, r: int, m: int, k: nat)
    requires c <= r && 0 <= m
    ensures Cnt(c, r, m, k) == 0
    decreases k
  {
    if k > 0 {
      CntZero(c, r + m, m, k - 1);
    }
  }

  /** A residue class modulo m splits into the two classes modulo 2m. */
  lemma {:induction false} CntSplit(c: int, r: int, m: int, k: nat)
    ensures Cnt(c, r, m, 2 * k) == Cnt(c, r, 2 * m, k) + Cnt(c, r + m, 2 * m, k)
    decreases k
  {
    if k > 0 {
      CntSplit(c, r + 2 * m, m, k - 1);
      assert r + m + 2 * m == r + 2 * m + m;
      assert Cnt(c, r, m, 2 * k) == (if r < c then 1 else 0) + (if r + m < c then 1 else 0)
        + Cnt(c, r + 2 * m, m, 2 * (k - 1));
    }
  }

  /** Of the two classes modulo 2m, the first has as many positions below c
      as the second, or one more. */
  lemma {:induction false} CntNear(c: int, r: int, m: int, k: nat)
    requires 0 <= m
    ensures Cnt(c, r + m, 2 * m, k) <= Cnt(c, r, 2 * m, k) <= Cnt(c, r + m, 2 * m, k) + 1
    decreases k
  {
    if k > 0 {
      CntNear(c, r + 2 * m, m, k - 1);
      assert r + 2 * m + m == r + m + 2 * m;
      if c <= r + m {
        CntZero(c, r + 2 * m, 2 * m, k - 1);
      }
    }
  }

  /** Modulo 1 the positions r, .., r + k - 1 are consecutive. */
  lemma {:induction false} CntAll(c: int, r: int, k: nat)
    requires r <= c <= r + k
    ensures Cnt(c, r, 1, k) == c - r
    decreases k
  {
    if r == c {
      CntZero(c, r, 1, k);
    } else {
      CntAll(c, r + 1, k - 1);
    }
  }

  // ---------------------------------------------------------------------
  // The merger on sorted inputs

  /** The last merge stage sorts two sorted halves whose counts differ by at
      most two, in favour of the first. */
  lemma {:induction false} StepSorts(v: seq<bool>, h: int, d: int, e: int)
    requires 2 <= h && |v| == 2 * h && 0 <= e <= d <= e + 2 && d <= h
    requires forall k | 0 <= k < h :: v[k] == (k < d)
    requires forall k | h <= k < 2 * h :: v[k] == (k - h < e)
    ensures MergeStep(v) == Ones(2 * h, d + e)
  {
    forall k | 0 <= k < 2 * h
      ensures StepAt(v, k) == (k < d + e)
    {
      StepSortsAt(v, h, d, e, k);
    }
  }

  lemma {:induction false} StepSortsAt(v: seq<bool>, h: int, d: int, e: int, k: int)
    requires 2 <= h && |v| == 2 * h && 0 <= e <= d <= e + 2 && d <= h
    requires forall k | 0 <= k < h :: v[k] == (k < d)
    requires forall k | h <= k < 2 * h :: v[k] == (k - h < e)
    requires 0 <= k < 2 * h
    ensures StepAt(v, k) == (k < d + e)
  {
    if k == 0 {
      assert StepAt(v, k) == v[0];
    } else if k == 2 * h - 1 {
      assert StepAt(v, k) == v[2 * h - 1];
    } else if k % 2 == 1 {
      var j := (k - 1) / 2;
      assert k == 2 * j + 1;
      StepOdd(v, h, d, e, j);
    } else {
      var j := (k - 2) / 2;
      assert k == 2 * j + 2;
      StepEven(v, h, d, e, j);
    }
  }

  /** Odd entries of a merge step are an "or", even inner ones an "and". */
  lemma {:induction false} StepPair(v: seq<bool>, h: int, j: int)
    requires 2 <= h && |v| == 2 * h && 0 <= j < h - 1
    ensures StepAt(v, 2 * j + 1) == (v[j + 1] || v[j + h])
    ensures StepAt(v, 2 * j + 2) == (v[j + 1] && v[j + h])
  {
    assert (2 * j + 1 - 1) / 2 == j && (2 * j + 1) % 2 == 1;
    assert (2 * j + 2 - 2) / 2 == j && (2 * j + 2) % 2 == 0;
  }

  lemma {:induction false} StepOdd(v: seq<bool>, h: int, d: int, e: int, j: int)
    requires 2 <= h && |v| == 2 * h && 0 <= e <= d <= e + 2 && d <= h && 0 <= j < h - 1
    requires v[j + 1] == (j + 1 < d) && v[j + h] == (j < e)
    ensures StepAt(v, 2 * j + 1) == (2 * j + 1 < d + e)
  {
    assert (2 * j + 1 - 1) / 2 == j;
  }

  lemma {:induction false} StepEven(v: seq<bool>, h: int, d: int, e: int, j: int)
    requires 2 <= h && |v| == 2 * h && 0 <= e <= d <= e + 2 && d <= h && 0 <= j < h - 1
    requires v[j + 1] == (j + 1 < d) && v[j + h] == (j < e)
    ensures StepAt(v, 2 * j + 2) == (2 * j + 2 < d + e)
  {
    assert (2 * j + 2 - 2) / 2 == j && (2 * j + 2) % 2 == 0;
  }

  /** The number of true entries in block b of a level with m blocks of
      width 2h, for sorted inputs with ca and cb true entries: the block
      holds h positions of each input's residue class Rev(b, m) modulo m. */
  function BlockCount(ca: int, cb: int, h: nat, m: int, b: int): nat
    requires IsPow2(m) && 0 <= b
  {
    Cnt(ca, Rev(b, m), m, h) + Cnt(cb, Rev(b, m), m, h)
  }

  /** The first k of the m sorted blocks of width 2h of a level. */
  function Blocks(ca: int, cb: int, h: nat, m: int, k: nat): (r: seq<seq<bool>>)
    requires IsPow2(m)
    ensures |r| == k
    decreases k
  {
    if k == 0 then [] else Blocks(ca, cb, h, m, k - 1) + [Ones(2 * h, BlockCount(ca, cb, h, m, k - 1))]
  }

  /** The m sorted blocks of width 2h of a level. */
  function Staged(ca: int, cb: int, h: nat, m: int): (r: seq<seq<bool>>)
    requires IsPow2(m)
    ensures |r| == m
  {
    Blocks(ca, cb, h, m, m)
  }

  lemma {:induction false} BlocksAt(ca: int, cb: int, h: nat, m: int, k: nat, b: int)
    requires IsPow2(m) && 0 <= b < k
    ensures Blocks(ca, cb, h, m, k)[b] == Ones(2 * h, BlockCount(ca, cb, h, m, b))
    decreases k
  {
    if b < k - 1 {
      BlocksAt(ca, cb, h, m, k - 1, b);
    }
  }

  /** Block b of a level is sorted with `BlockCount` true entries. */
  lemma {:induction false} StagedAt(ca: int, cb: int, h: nat, m: int, b: int)
    requires IsPow2(m) && 0 <= b < m
    ensures Staged(ca, cb, h, m)[b] == Ones(2 * h, BlockCount(ca, cb, h, m, b))
  {
    BlocksAt(ca, cb, h, m, m, b);
  }

  /** The pairs after the bit-reversal permutation are the first level. */
  lemma {:induction false} PairsStaged(n: int, ca: int, cb: int)
    requires IsPow2(n)
    ensures Permuted(PairBlocks(Ones(n, ca), Ones(n, cb)), n) == Staged(ca, cb, 1, n)
  {
    var a := Ones(n, ca);
    var b := Ones(n, cb);
    var ps := PairBlocks(a, b);
    var r := Permuted(ps, n);
    var z := Staged(ca, cb, 1, n);
    forall p | 0 <= p < n
      ensures r[p] == z[p]
    {
      var rho := Rev(p, n);
      var x := if rho < ca then 1 else 0;
      var y := if rho < cb then 1 else 0;
      assert Cnt(ca, rho, n, 1) == x && Cnt(cb, rho, n, 1) == y;
      StagedAt(ca, cb, 1, n, p);
      assert z[p] == Ones(2, x + y);
      assert r[p] == ps[rho] == [a[rho] || b[rho], a[rho] && b[rho]];
    }
  }

  /** Blocks 2b and 2b+1 of a level with 2m blocks merge into block b of
      the level with m blocks. */
  lemma {:induction false} BlockStaged(ca: int, cb: int, h: nat, m: int, b: int)
    requires IsPow2(m) && 1 <= h && 0 <= b < m
    ensures IsPow2(2 * m)
    ensures MergeStep(Ones(2 * h, BlockCount(ca, cb, h, 2 * m, 2 * b))
                      + Ones(2 * h, BlockCount(ca, cb, h, 2 * m, 2 * b + 1)))
         == Ones(4 * h, BlockCount(ca, cb, 2 * h, m, b))
  {
    assert (2 * m) / 2 == m;
    var d := BlockCount(ca, cb, h, 2 * m, 2 * b);
    var e := BlockCount(ca, cb, h, 2 * m, 2 * b + 1);
    CountsNear(ca, cb, h, m, b);
    var v := Ones(2 * h, d) + Ones(2 * h, e);
    assert forall k | 2 * h <= k < 4 * h :: v[k] == (k - 2 * h < e);
    StepSorts(v, 2 * h, d, e);
  }

  /** The counts of blocks 2b and 2b+1 add up to that of block b of the next
      level, and differ by at most two in favour of the first. */
  lemma {:induction false} CountsNear(ca: int, cb: int, h: nat, m: int, b: int)
    requires IsPow2(m) && 1 <= h && 0 <= b < m
    ensures IsPow2(2 * m)
    ensures var d := BlockCount(ca, cb, h, 2 * m, 2 * b);
      var e := BlockCount(ca, cb, h, 2 * m, 2 * b + 1);
      d + e == BlockCount(ca, cb, 2 * h, m, b) && 0 <= e <= d <= e + 2 && d <= 2 * h
  {
    assert (2 * m) / 2 == m;
    RevHalves(b, 2 * m);
    var rho := Rev(b, m);
    CntSplit(ca, rho, m, h);
    CntSplit(cb, rho, m, h);
    CntNear(ca, rho, m, h);
    CntNear(cb, rho, m, h);
  }

  /** One merge level takes the n blocks of width 2h to the n/2 blocks of
      width 4h. */
  lemma {:induction false} LevelStaged(ca: int, cb: int, h: nat, n: int, w: int)
    requires IsPow2(n) && 2 <= n && 1 <= h && w == 4 * h
    ensures IsPow2(n / 2) && Multiple(|Flat(Staged(ca, cb, h, n))|, w)
    ensures Level(Flat(Staged(ca, cb, h, n)), w) == Flat(Staged(ca, cb, 2 * h, n / 2))
  {
    var bs := Staged(ca, cb, h, n);
    FlatJoinPairs(bs, n / 2);
    JoinStaged(ca, cb, h, n);
    var j := JoinPairs(bs);
    LevelFlat(j, w);
  }

  /** The merge steps on the joined neighbouring blocks. */
  lemma {:induction false} JoinStaged(ca: int, cb: int, h: nat, n: int)
    requires IsPow2(n) && 2 <= n && 1 <= h
    ensures IsPow2(n / 2) && Mergeable(JoinPairs(Staged(ca, cb, h, n)))
    ensures forall b | 0 <= b < n / 2 :: |JoinPairs(Staged(ca, cb, h, n))[b]| == 4 * h
    ensures Steps(JoinPairs(Staged(ca, cb, h, n))) == Staged(ca, cb, 2 * h, n / 2)
  {
    var m := n / 2;
    var bs := Staged(ca, cb, h, n);
    var j := JoinPairs(bs);
    var z := Staged(ca, cb, 2 * h, m);
    forall b | 0 <= b < m
      ensures j[b] == Ones(2 * h, BlockCount(ca, cb, h, n, 2 * b))
                    + Ones(2 * h, BlockCount(ca, cb, h, n, 2 * b + 1))
    {
      StagedAt(ca, cb, h, n, 2 * b);
      StagedAt(ca, cb, h, n, 2 * b + 1);
    }
    var st := Steps(j);
    forall b | 0 <= b < m
      ensures st[b] == z[b]
    {
      BlockMerged(ca, cb, h, n, b);
      StagedAt(ca, cb, 2 * h, m, b);
    }
    assert st == z;
  }

  /** `BlockStaged` with the level given by its number of blocks. */
  lemma {:induction false} BlockMerged(ca: int, cb: int, h: nat, n: int, b: int)
    requires IsPow2(n) && 2 <= n && 1 <= h && 0 <= b < n / 2
    ensures IsPow2(n / 2)
    ensures MergeStep(Ones(2 * h, BlockCount(ca, cb, h, n, 2 * b))
                      + Ones(2 * h, BlockCount(ca, cb, h, n, 2 * b + 1)))
         == Ones(4 * h, BlockCount(ca, cb, 2 * h, n / 2, b))
  {
    var m := n / 2;
    assert 2 * m == n;
    BlockStaged(ca, cb, h, m, b);
  }

  /** Half the width of the single block that remains after the levels
      from n blocks of width 2h on. */
  function Top(h: nat, n: int): nat
    requires IsPow2(n)
    decreases n
  {
    if n == 1 then h else Top(2 * h, n / 2)
  }

  /** The remaining levels, from n >= 2 blocks of width 2h on, leave one
      sorted block whose count sums the two inputs' counts. */
  lemma {:induction false} LayersStaged(ca: int, cb: int, h: nat, n: int, w: int)
    requires IsPow2(n) && 2 <= n && 1 <= h && w == 4 * h
    ensures LevelsFit(|Flat(Staged(ca, cb, h, n))|, w)
    ensures Layers(Flat(Staged(ca, cb, h, n)), w)
         == Ones(2 * Top(h, n), Cnt(ca, 0, 1, Top(h, n)) + Cnt(cb, 0, 1, Top(h, n)))
    decreases n
  {
    var v := Flat(Staged(ca, cb, h, n));
    LevelStaged(ca, cb, h, n, w);
    var u := Flat(Staged(ca, cb, 2 * h, n / 2));
    if n == 2 {
      LastLevel(ca, cb, h);
      LayersLast(v, u, w);
    } else {
      Pow2Half(n);
      LayersStaged(ca, cb, 2 * h, n / 2, 2 * w);
      var t := Top(2 * h, n / 2);
      LayersStep(v, u, w, Ones(2 * t, Cnt(ca, 0, 1, t) + Cnt(cb, 0, 1, t)));
    }
  }

  lemma {:induction false} LayersLast(v: seq<bool>, u: seq<bool>, w: int)
    requires 2 <= w == |v| && Multiple(|v|, w) && Level(v, w) == u
    ensures LevelsFit(|v|, w) && Layers(v, w) == u
  {
  }

  lemma {:induction false} LayersStep(v: seq<bool>, u: seq<bool>, w: int, sorted: seq<bool>)
    requires 2 <= w && Multiple(|v|, w) && Level(v, w) == u
    requires LevelsFit(|u|, 2 * w) && Layers(u, 2 * w) == sorted
    ensures LevelsFit(|v|, w) && Layers(v, w) == sorted
  {
  }

  /** With two blocks left, the last level leaves the sorted union. */
  lemma {:induction false} LastLevel(ca: int, cb: int, h: nat)
    requires 1 <= h
    ensures IsPow2(2) && |Flat(Staged(ca, cb, h, 2))| == 4 * h
    ensures Flat(Staged(ca, cb, 2 * h, 1)) == Ones(4 * h, Cnt(ca, 0, 1, 2 * h) + Cnt(cb, 0, 1, 2 * h))
  {
    assert IsPow2(2 / 2);
    var z := Staged(ca, cb, 2 * h, 1);
    StagedAt(ca, cb, 2 * h, 1, 0);
    assert z == [z[0]];
    assert Flat(z) == Flat([]) + z[0];
    var y := Staged(ca, cb, h, 2);
    StagedAt(ca, cb, h, 2, 0);
    StagedAt(ca, cb, h, 2, 1);
    assert y[..1] == [y[0]];
    assert y[..1][..0] == [];
    assert Flat(y) == Flat([]) + y[0] + y[1];
  }

  /** Batcher's merger sorts: merging two sorted inputs of length n with ca
      and cb true entries gives the sorted sequence with ca + cb. */
  lemma {:induction false} MergedSorts(n: int, ca: int, cb: int)
    requires IsPow2(n) && 0 <= ca <= n && 0 <= cb <= n
    ensures Merged(Ones(n, ca), Ones(n, cb)) == Ones(2 * n, ca + cb)
  {
    PairsStaged(n, ca, cb);
    if n == 1 {
      MergedOne(ca, cb);
    } else {
      MergedIs(Ones(n, ca), Ones(n, cb), n);
      MergedMany(n, ca, cb);
    }
  }

  /** Past the pairs stage, the merger is its levels. */
  lemma {:induction false} MergedIs(a: seq<bool>, b: seq<bool>, n: int)
    requires |a| == |b| == n && IsPow2(n) && 2 <= n
    ensures LevelsFit(|Flat(Permuted(PairBlocks(a, b), n))|, 4)
    ensures Merged(a, b) == Layers(Flat(Permuted(PairBlocks(a, b), n)), 4)
  {
    PermutedPairs(a, b);
    FlatTwoLength(Permuted(PairBlocks(a, b), n));
    Pow2Double(n);
    Pow2Four();
    Pow2Fits(2 * n, 4);
  }

  /** The merger is its pairs stage followed by the levels that fit. */
  lemma {:induction false} MergedFrom(a: seq<bool>, b: seq<bool>, n: int)
    requires |a| == |b| == n && IsPow2(n)
    ensures IsPow2(|Flat(Permuted(PairBlocks(a, b), n))|)
    ensures Merged(a, b) == LayersFrom(Flat(Permuted(PairBlocks(a, b), n)), 4)
  {
    var s := Flat(Permuted(PairBlocks(a, b), n));
    PermutedPairs(a, b);
    FlatTwoLength(Permuted(PairBlocks(a, b), n));
    Pow2Double(n);
    if n >= 2 {
      MergedIs(a, b, n);
      Pow2Four();
      LayersFromAll(s, 4);
    }
  }

  /** The levels merge n >= 2 sorted pairs into one sorted block. */
  lemma {:induction false} MergedMany(n: int, ca: int, cb: int)
    requires IsPow2(n) && 2 <= n && 0 <= ca <= n && 0 <= cb <= n
    ensures LevelsFit(|Flat(Staged(ca, cb, 1, n))|, 4)
    ensures Layers(Flat(Staged(ca, cb, 1, n)), 4)
         == Ones(2 * n, ca + cb)
  {
    LayersStaged(ca, cb, 1, n, 4);
    TopOne(n);
    OnesCnt(ca, cb, n);
  }

  lemma {:induction false} OnesCnt(ca: int, cb: int, n: nat)
    requires 0 <= ca <= n && 0 <= cb <= n
    ensures Ones(2 * n, Cnt(ca, 0, 1, n) + Cnt(cb, 0, 1, n)) == Ones(2 * n, ca + cb)
  {
    CntAll(ca, 0, n);
    CntAll(cb, 0, n);
  }

  lemma {:induction false} TopOne(n: int)
    requires IsPow2(n)
    ensures Top(1, n) == n
  {
    TopIs(1, n);
  }

  lemma {:induction false} TopIs(h: nat, n: int)
    requires IsPow2(n)
    ensures Top(h, n) == h * n
    decreases n
  {
    if n != 1 {
      TopIs(2 * h, n / 2);
    }
  }

  /** Merging two single entries. */
  lemma {:induction false} MergedOne(ca: int, cb: int)
    requires 0 <= ca <= 1 && 0 <= cb <= 1
    ensures IsPow2(1) && Flat(Staged(ca, cb, 1, 1)) == Ones(2, ca + cb)
  {
    var z := Staged(ca, cb, 1, 1);
    StagedAt(ca, cb, 1, 1, 0);
    assert z == [z[0]];
    assert Flat(z) == Flat([]) + z[0];
    CntAll(ca, 0, 1);
    CntAll(cb, 0, 1);
  }
}
