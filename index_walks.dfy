/**
 * Index walks shared by the transposition ciphers. Each transposition cipher fills its output
 * by reading the input at a sequence of positions (`Gather`) or fills its output by writing
 * at a sequence of positions (`Scatter`). When that sequence of positions visits every index
 * exactly once (`IsPermutation`), gathering and scattering undo each other.
 *
 * Walks are built as concatenations of "buckets": the ascending positions whose slot has a
 * given value (`Members`), visited bucket by bucket (`Buckets`). Any such walk is a
 * permutation (`BucketsPermutation`).
 */
module IndexWalks {
  import opened Arith


  /** [0, 1, ..., n - 1]. */
  function Range(n: nat): seq<nat>
  {
    seq(n, i => i)
  }

  /** Every index in [0, n) occurs in `idx` exactly once, and nothing else does. */
  ghost predicate IsPermutation(idx: seq<nat>, n: nat)
  {
    multiset(idx) == multiset(Range(n))
  }

  predicate InBounds(idx: seq<nat>, n: nat)
  {
    forall j :: 0 <= j < |idx| ==> idx[j] < n
  }

  /** The values of `x` at the positions `idx`, in walk order. */
  function Gather<T>(x: seq<T>, idx: seq<nat>): seq<T>
    requires InBounds(idx, |x|)
  {
    seq(|idx|, j requires 0 <= j < |idx| => x[idx[j]])
  }

  /** `buf` after writing `vals[j]` at position `idx[j]`, for j = 0, 1, ... in turn. */
  function Scatter<T>(idx: seq<nat>, vals: seq<T>, buf: seq<T>): (r: seq<T>)
    requires |idx| == |vals| && InBounds(idx, |buf|)
    ensures |r| == |buf|
    decreases |idx|
  {
    if |idx| == 0 then buf
    else
      var last := |idx| - 1;
      Scatter(idx[..last], vals[..last], buf)[idx[last] := vals[last]]
  }

  /** The walks `g(i)` for i along `idx`, one after the other. */
  function ConcatMap<T>(g: nat -> seq<T>, idx: seq<nat>): seq<T>
    decreases |idx|
  {
    if |idx| == 0 then [] else ConcatMap(g, idx[..|idx| - 1]) + g(idx[|idx| - 1])
  }

  // ----- Permutations -----

  lemma RangeCount(n: nat, v: nat)
    ensures multiset(Range(n))[v] == if v < n then 1 else 0
  {
    if n > 0 {
      assert Range(n) == Range(n - 1) + [n - 1];
      RangeCount(n - 1, v);
    }
  }

  /** A permutation of [0, n) has length n and stays below n. */
  lemma PermutationBounds(idx: seq<nat>, n: nat)
    requires IsPermutation(idx, n)
    ensures |idx| == n && InBounds(idx, n)
  {
    assert |idx| == |multiset(idx)| == |multiset(Range(n))| == n;
    forall j | 0 <= j < |idx|
      ensures idx[j] < n
    {
      assert idx[j] in multiset(idx);
      RangeCount(n, idx[j]);
    }
  }

  /**
   * A permutation of [0, n) has length n, stays below n, reaches every index below n and
   * never repeats one.
   */
  lemma PermutationFacts(idx: seq<nat>, n: nat)
    requires IsPermutation(idx, n)
    ensures |idx| == n && InBounds(idx, n)
    ensures forall p: nat :: p < n ==> p in idx
    ensures forall i, j :: 0 <= i < j < |idx| ==> idx[i] != idx[j]
  {
    PermutationBounds(idx, n);
    forall p: nat | p < n
      ensures p in idx
    {
      RangeCount(n, p);
      assert p in multiset(idx);
    }
    forall i, j | 0 <= i < j < |idx|
      ensures idx[i] != idx[j]
    {
      if idx[i] == idx[j] {
        var v := idx[i];
        assert idx == idx[..i] + [v] + idx[i + 1..j] + [v] + idx[j + 1..];
        assert multiset(idx)[v] >= 2;
        RangeCount(n, v);
      }
    }
  }

  /** Removing the largest index from a permutation of [0, n) leaves one of [0, n - 1). */
  lemma RemoveLast(idx: seq<nat>, n: nat) returns (a: seq<nat>, b: seq<nat>)
    requires n > 0 && IsPermutation(idx, n)
    ensures idx == a + [n - 1] + b
    ensures IsPermutation(a + b, n - 1)
  {
    var m: nat := n - 1;
    RangeCount(n, m);
    assert m in multiset(idx);
    var i :| 0 <= i < |idx| && idx[i] == m;
    a, b := idx[..i], idx[i + 1..];
    assert idx == a + [m] + b;
    MoveToEnd(a, [m], b);
    RangeSnoc(m);
    Cancel(multiset(a + b), multiset(Range(m)), m);
  }

  lemma RangeSnoc(m: nat)
    ensures multiset(Range(m + 1)) == multiset(Range(m)) + multiset{m}
  {
    assert Range(m + 1) == Range(m) + [m];
  }

  lemma Cancel<T>(a: multiset<T>, b: multiset<T>, x: T)
    requires a + multiset{x} == b + multiset{x}
    ensures a == b
  {
    assert a == (a + multiset{x}) - multiset{x};
    assert b == (b + multiset{x}) - multiset{x};
  }

  /** Reading along a permutation yields the same multiset of values. */
  lemma {:induction false} GatherPermutation<T>(x: seq<T>, idx: seq<nat>)
    requires IsPermutation(idx, |x|)
    ensures InBounds(idx, |x|) && multiset(Gather(x, idx)) == multiset(x)
    decreases |x|
  {
    var n := |x|;
    PermutationBounds(idx, n);
    if n > 0 {
      var m: nat := n - 1;
      var a, b := RemoveLast(idx, n);
      var x' := x[..m];
      PermutationBounds(a + b, m);
      GatherPermutation(x', a + b);
      GatherSplit(x, a, m, b);
      GatherPrefix(x, m, a + b);
      MoveToEnd(Gather(x, a), [x[m]], Gather(x, b));
      assert x == x' + [x[m]];
      calc {
        multiset(Gather(x, idx));
        multiset(Gather(x, a + b)) + multiset([x[m]]);
        multiset(x') + multiset([x[m]]);
        multiset(x);
      }
    }
  }

  lemma GatherPrefix<T>(x: seq<T>, m: nat, c: seq<nat>)
    requires m <= |x| && InBounds(c, m)
    ensures Gather(x[..m], c) == Gather(x, c)
  {}

  /** Reading along `a`, then at `v`, then along `b`. */
  lemma GatherSplit<T>(x: seq<T>, a: seq<nat>, v: nat, b: seq<nat>)
    requires InBounds(a + [v] + b, |x|)
    ensures InBounds(a, |x|) && InBounds(b, |x|) && v < |x| && InBounds(a + b, |x|)
    ensures Gather(x, a + [v] + b) == Gather(x, a) + [x[v]] + Gather(x, b)
    ensures Gather(x, a + b) == Gather(x, a) + Gather(x, b)
  {
    SplitBounds(a, v, b, |x|);
    GatherAppend(x, a, [v]);
    GatherAppend(x, a + [v], b);
    GatherAppend(x, a, b);
  }

  /** The parts of a walk inside the bounds are inside the bounds. */
  lemma SplitBounds(a: seq<nat>, v: nat, b: seq<nat>, n: nat)
    requires InBounds(a + [v] + b, n)
    ensures InBounds(a, n) && v < n && InBounds(a + [v], n) && InBounds(b, n) && InBounds(a + b, n)
  {
    var whole := a + [v] + b;
    assert forall j :: 0 <= j < |a| ==> a[j] == whole[j];
    assert whole[|a|] == v;
    assert forall j :: 0 <= j < |b| ==> b[j] == whole[|a| + 1 + j];
    assert forall j :: 0 <= j < |a| + |b| ==> (a + b)[j] == if j < |a| then a[j] else b[j - |a|];
  }

  /** Reading along two walks one after the other. */
  lemma GatherAppend<T>(x: seq<T>, a: seq<nat>, b: seq<nat>)
    requires InBounds(a, |x|) && InBounds(b, |x|)
    ensures InBounds(a + b, |x|) && Gather(x, a + b) == Gather(x, a) + Gather(x, b)
  {
    assert forall j :: 0 <= j < |b| ==> (a + b)[|a| + j] == b[j];
  }

  /** Every position of a column lies below n. */
  lemma {:induction false} ColumnInBounds(c: nat, w: nat, n: nat)
    requires w > 0
    ensures InBounds(Column(c, w, n), n)
    decreases n - c
  {
    if c < n {
      ColumnInBounds(c + w, w, n);
    }
  }

  lemma ConcatMapAppend<T>(g: nat -> seq<T>, a: seq<nat>, b: seq<nat>)
    ensures ConcatMap(g, a + b) == ConcatMap(g, a) + ConcatMap(g, b)
    decreases |b|
  {
    if |b| > 0 {
      assert (a + b)[..|a + b| - 1] == a + b[..|b| - 1];
      ConcatMapAppend(g, a, b[..|b| - 1]);
    } else {
      assert a + b == a;
    }
  }

  /**
   * Visiting the pieces `g(i)` in the order of any permutation of [0, k) yields the same
   * multiset as visiting them in order 0, 1, ..., k - 1.
   */
  lemma {:induction false} ConcatMapPermutation<T>(g: nat -> seq<T>, idx: seq<nat>, k: nat)
    requires IsPermutation(idx, k)
    ensures multiset(ConcatMap(g, idx)) == multiset(ConcatMap(g, Range(k)))
    decreases k
  {
    if k > 0 {
      var m: nat := k - 1;
      var a, b := RemoveLast(idx, k);
      ConcatMapPermutation(g, a + b, m);
      ConcatMapSplit(g, a, m, b);
      ConcatMapAppend(g, a, b);
      assert Range(k) == Range(m) + [m];
      ConcatMapSplit(g, Range(m), m, []);
      assert Range(m) + [m] + [] == Range(k);
      MoveToEnd(ConcatMap(g, a), g(m), ConcatMap(g, b));
    }
  }

  lemma ConcatMapSplit<T>(g: nat -> seq<T>, a: seq<nat>, m: nat, b: seq<nat>)
    ensures ConcatMap(g, a + [m] + b) == ConcatMap(g, a) + g(m) + ConcatMap(g, b)
  {
    ConcatMapAppend(g, a + [m], b);
    assert (a + [m])[..|a|] == a;
  }

  lemma MoveToEnd<T>(left: seq<T>, mid: seq<T>, right: seq<T>)
    ensures multiset(left + mid + right) == multiset(left + right) + multiset(mid)
  {
    calc {
      multiset(left + mid + right);
      multiset(left) + multiset(mid) + multiset(right);
      multiset(left + right) + multiset(mid);
    }
  }

  /** Writing along a walk that repeats no index leaves each written value in its place. */
  lemma {:induction false} ScatterAt<T>(idx: seq<nat>, vals: seq<T>, buf: seq<T>)
    requires |idx| == |vals| && InBounds(idx, |buf|)
    requires forall i, j :: 0 <= i < j < |idx| ==> idx[i] != idx[j]
    ensures forall j :: 0 <= j < |idx| ==> Scatter(idx, vals, buf)[idx[j]] == vals[j]
    decreases |idx|
  {
    if |idx| > 0 {
      var last := |idx| - 1;
      ScatterAt(idx[..last], vals[..last], buf);
    }
  }

  /** Writing one more value after the others. */
  lemma ScatterPush<T>(idx: seq<nat>, vals: seq<T>, buf: seq<T>, i: nat, v: T)
    requires |idx| == |vals| && InBounds(idx, |buf|) && i < |buf|
    ensures InBounds(idx + [i], |buf|)
    ensures Scatter(idx + [i], vals + [v], buf) == Scatter(idx, vals, buf)[i := v]
  {
    assert (idx + [i])[..|idx|] == idx && (vals + [v])[..|vals|] == vals;
  }

  /** Writing along `a`, then along `b`, is writing along `a + b`. */
  lemma {:induction false} ScatterAppend<T>(a: seq<nat>, b: seq<nat>, u: seq<T>, v: seq<T>, buf: seq<T>)
    requires |a| == |u| && |b| == |v| && InBounds(a, |buf|) && InBounds(b, |buf|)
    ensures InBounds(a + b, |buf|)
    ensures Scatter(a + b, u + v, buf) == Scatter(b, v, Scatter(a, u, buf))
    decreases |b|
  {
    assert forall j :: 0 <= j < |b| ==> (a + b)[|a| + j] == b[j];
    if |b| == 0 {
      assert a + b == a && u + v == u;
    } else {
      var last := |b| - 1;
      assert InBounds(b[..last], |buf|);
      ScatterAppend(a, b[..last], u, v[..last], buf);
      assert (a + b)[..|a| + last] == a + b[..last];
      assert (u + v)[..|u| + last] == u + v[..last];
    }
  }

  /** Writing vals[start..end] along b after vals[..start] along a is writing vals[..end] along a + b. */
  lemma ScatterExtend<T>(a: seq<nat>, b: seq<nat>, vals: seq<T>, start: nat, end: nat, buf: seq<T>)
    requires |a| == start <= end <= |vals| && |b| == end - start
    requires InBounds(a, |buf|) && InBounds(b, |buf|)
    ensures InBounds(a + b, |buf|)
    ensures Scatter(b, vals[start..end], Scatter(a, vals[..start], buf)) == Scatter(a + b, vals[..end], buf)
  {
    var u, v := vals[..start], vals[start..end];
    assert u + v == vals[..end];
    ScatterAppend(a, b, u, v, buf);
  }

  /** Scattering what was gathered along a permutation restores the original. */
  lemma ScatterGather<T>(x: seq<T>, idx: seq<nat>, buf: seq<T>)
    requires IsPermutation(idx, |x|) && |buf| == |x|
    ensures InBounds(idx, |x|) && Scatter(idx, Gather(x, idx), buf) == x
  {
    PermutationFacts(idx, |x|);
    var r := Scatter(idx, Gather(x, idx), buf);
    ScatterAt(idx, Gather(x, idx), buf);
    forall p | 0 <= p < |x|
      ensures r[p] == x[p]
    {
      assert p as nat in idx;
      var j :| 0 <= j < |idx| && idx[j] == p;
    }
  }

  /** Gathering what was scattered along a permutation restores the scattered values. */
  lemma GatherScatter<T>(vals: seq<T>, idx: seq<nat>, buf: seq<T>)
    requires IsPermutation(idx, |buf|) && |vals| == |buf|
    ensures |idx| == |buf| && InBounds(idx, |buf|) && Gather(Scatter(idx, vals, buf), idx) == vals
  {
    PermutationFacts(idx, |buf|);
    ScatterAt(idx, vals, buf);
  }

  /** A sequence holding each value at its position along a permutation is that scatter. */
  lemma ScatterPointwise<T>(idx: seq<nat>, vals: seq<T>, buf: seq<T>, r: seq<T>)
    requires IsPermutation(idx, |buf|) && InBounds(idx, |buf|) && |vals| == |idx| && |r| == |buf|
    requires forall j :: 0 <= j < |idx| ==> r[idx[j]] == vals[j]
    ensures r == Scatter(idx, vals, buf)
  {
    PermutationFacts(idx, |buf|);
    ScatterAt(idx, vals, buf);
    var s := Scatter(idx, vals, buf);
    forall p | 0 <= p < |r|
      ensures r[p] == s[p]
    {
      assert p as nat in idx;
      var j :| 0 <= j < |idx| && idx[j] == p;
    }
  }

  // ----- Buckets -----

  /** The positions p in [lo, hi) with slot(p) == b, ascending. */
  function Members(slot: nat -> nat, b: nat, lo: nat, hi: nat): seq<nat>
    decreases hi - lo
  {
    if lo >= hi then [] else (if slot(lo) == b then [lo] else []) + Members(slot, b, lo + 1, hi)
  }

  /** The positions p in [lo, hi) with slot(p) < k, ascending. */
  function Below(slot: nat -> nat, k: nat, lo: nat, hi: nat): seq<nat>
    decreases hi - lo
  {
    if lo >= hi then [] else (if slot(lo) < k then [lo] else []) + Below(slot, k, lo + 1, hi)
  }

  /** Buckets 0, 1, ..., k - 1 of the positions below n, one after the other. */
  function Buckets(slot: nat -> nat, k: nat, n: nat): seq<nat>
  {
    if k == 0 then [] else Buckets(slot, k - 1, n) + Members(slot, k - 1, 0, n)
  }

  /** Positions skipped by a walk hold no member of the bucket. */
  lemma {:induction false} MembersSkip(slot: nat -> nat, b: nat, lo: nat, lo': nat, hi: nat)
    requires lo <= lo'
    requires forall p: nat :: lo <= p < lo' && p < hi ==> slot(p) != b
    ensures Members(slot, b, lo, hi) == Members(slot, b, lo', hi)
    decreases lo' - lo
  {
    if lo < lo' && lo < hi {
      MembersSkip(slot, b, lo + 1, lo', hi);
    }
  }

  lemma {:induction false} BelowSplit(slot: nat -> nat, k: nat, lo: nat, hi: nat)
    ensures multiset(Below(slot, k + 1, lo, hi))
         == multiset(Below(slot, k, lo, hi)) + multiset(Members(slot, k, lo, hi))
    decreases hi - lo
  {
    if lo < hi {
      BelowSplit(slot, k, lo + 1, hi);
    }
  }

  lemma {:induction false} BucketsAreBelow(slot: nat -> nat, k: nat, n: nat)
    ensures multiset(Buckets(slot, k, n)) == multiset(Below(slot, k, 0, n))
  {
    if k == 0 {
      BelowNone(slot, 0, n);
    } else {
      var j := k - 1;
      BucketsAreBelow(slot, j, n);
      BelowSplit(slot, j, 0, n);
      assert Buckets(slot, k, n) == Buckets(slot, j, n) + Members(slot, j, 0, n);
      assert Below(slot, j + 1, 0, n) == Below(slot, k, 0, n);
    }
  }

  lemma {:induction false} BelowNone(slot: nat -> nat, lo: nat, hi: nat)
    ensures Below(slot, 0, lo, hi) == []
    decreases hi - lo
  {
    if lo < hi {
      BelowNone(slot, lo + 1, hi);
    }
  }

  lemma {:induction false} BelowAll(slot: nat -> nat, k: nat, lo: nat, hi: nat)
    requires lo <= hi
    requires forall p: nat :: lo <= p < hi ==> slot(p) < k
    ensures Below(slot, k, lo, hi) == seq(hi - lo, i => lo + i)
    decreases hi - lo
  {
    if lo < hi {
      BelowAll(slot, k, lo + 1, hi);
      var rest := seq(hi - lo - 1, i => lo + 1 + i);
      assert Below(slot, k, lo, hi) == [lo] + rest;
      assert forall j :: 0 <= j < hi - lo ==> ([lo] + rest)[j] == lo + j;
    }
  }

  /**
   * When every position below n has a slot below k, visiting the buckets 0 .. k - 1 in turn
   * visits every position below n exactly once.
   */
  lemma BucketsPermutation(slot: nat -> nat, k: nat, n: nat)
    requires forall p: nat :: p < n ==> slot(p) < k
    ensures IsPermutation(Buckets(slot, k, n), n)
  {
    BucketsAreBelow(slot, k, n);
    BelowAll(slot, k, 0, n);
    assert Below(slot, k, 0, n) == Range(n);
  }

  /** A bucket lists positions of that slot, inside [lo, hi), strictly ascending. */
  lemma {:induction false} MembersFacts(slot: nat -> nat, b: nat, lo: nat, hi: nat)
    ensures forall j :: 0 <= j < |Members(slot, b, lo, hi)| ==>
      var p := Members(slot, b, lo, hi)[j]; lo <= p < hi && slot(p) == b
    ensures forall i, j :: 0 <= i < j < |Members(slot, b, lo, hi)| ==>
      Members(slot, b, lo, hi)[i] < Members(slot, b, lo, hi)[j]
    decreases hi - lo
  {
    if lo < hi {
      MembersFacts(slot, b, lo + 1, hi);
    }
  }

  /**
   * The buckets list positions by slot first and by position within a slot: an earlier entry
   * has a smaller slot, or the same slot and a smaller position.
   */
  lemma {:induction false} BucketsSorted(slot: nat -> nat, k: nat, n: nat)
    ensures forall j :: 0 <= j < |Buckets(slot, k, n)| ==>
      Buckets(slot, k, n)[j] < n && slot(Buckets(slot, k, n)[j]) < k
    ensures forall i, j :: 0 <= i < j < |Buckets(slot, k, n)| ==>
      var p, q := Buckets(slot, k, n)[i], Buckets(slot, k, n)[j];
      slot(p) < slot(q) || (slot(p) == slot(q) && p < q)
  {
    if k > 0 {
      var m := k - 1;
      BucketsSorted(slot, m, n);
      MembersFacts(slot, m, 0, n);
      assert Buckets(slot, k, n) == Buckets(slot, m, n) + Members(slot, m, 0, n);
    }
  }

  lemma {:induction false} BelowLength(slot: nat -> nat, k: nat, lo: nat, hi: nat)
    requires lo <= hi
    ensures |Below(slot, k, lo, hi)| <= hi - lo
    decreases hi - lo
  {
    if lo < hi {
      BelowLength(slot, k, lo + 1, hi);
    }
  }

  /** However many buckets are taken, they hold at most n positions. */
  lemma BucketsLength(slot: nat -> nat, k: nat, n: nat)
    ensures |Buckets(slot, k, n)| <= n
  {
    BucketsAreBelow(slot, k, n);
    BelowLength(slot, k, 0, n);
    assert |multiset(Buckets(slot, k, n))| == |Buckets(slot, k, n)|;
    assert |multiset(Below(slot, k, 0, n))| == |Below(slot, k, 0, n)|;
  }

  // ----- Columns of a grid -----

  /** Positions c, c + w, c + 2w, ... below n: one column of text laid out in rows of width w. */
  function Column(c: nat, w: nat, n: nat): seq<nat>
    requires w > 0
    decreases n - c
  {
    if c >= n then [] else [c] + Column(c + w, w, n)
  }

  function ColumnOf(w: nat, n: nat): nat -> seq<nat>
    requires w > 0
  {
    c => Column(c, w, n)
  }

  function ModSlot(w: nat): nat -> nat
    requires w > 0
  {
    p => p % w
  }

  /** Columns 0, 1, ..., k - 1 of the grid, one after the other. */
  function Columns(w: nat, n: nat, k: nat): seq<nat>
    requires w > 0
  {
    ConcatMap(ColumnOf(w, n), Range(k))
  }

  lemma ColumnsStep(w: nat, n: nat, k: nat)
    requires w > 0
    ensures Columns(w, n, k + 1) == Columns(w, n, k) + Column(k, w, n)
  {
    assert Range(k + 1)[..k] == Range(k);
  }

  /** A column in closed form: (n - c - 1) / w + 1 positions when c < n, the k-th being c + k * w. */
  lemma {:induction false} ColumnAt(c: nat, w: nat, n: nat)
    requires w > 0
    ensures |Column(c, w, n)| == if c >= n then 0 else (n - c - 1) / w + 1
    ensures forall k :: 0 <= k < |Column(c, w, n)| ==> Column(c, w, n)[k] == c + k * w
    decreases n - c
  {
    if c < n {
      var c' := c + w;
      ColumnAt(c', w, n);
      if c' >= n {
        ModSmall(n - c - 1, w);
      } else {
        DivModAddDivisor(n - c' - 1, w);
        assert n - c - 1 == (n - c' - 1) + w;
      }
      forall k | 0 <= k < |Column(c, w, n)|
        ensures Column(c, w, n)[k] == c + k * w
      {
        if k > 0 {
          assert Column(c, w, n)[k] == Column(c', w, n)[k - 1];
          assert c' + (k - 1) * w == c + k * w;
        }
      }
    }
  }

  /** Adding less than a full row moves a position to another column. */
  lemma ModShift(i: nat, t: nat, w: nat)
    requires 0 < t < w
    ensures (i + t) % w != i % w
  {
    var q, r := i / w, i % w;
    if r + t < w {
      DivModUnique(i + t, w, q, r + t);
    } else {
      DivModUnique(i + t, w, q + 1, r + t - w);
    }
  }

  /** A column, read from its start, is the bucket of its column number under `p % w`. */
  lemma {:induction false} ColumnIsMembers(i: nat, w: nat, n: nat)
    requires w > 0
    ensures Column(i, w, n) == Members(ModSlot(w), i % w, i, n)
    decreases n - i
  {
    if i < n {
      var slot := ModSlot(w);
      forall p: nat | i + 1 <= p < i + w && p < n
        ensures slot(p) != i % w
      {
        ModShift(i, p - i, w);
      }
      MembersSkip(slot, i % w, i + 1, i + w, n);
      DivModAddDivisor(i, w);
      ColumnIsMembers(i + w, w, n);
    } else {
      assert Column(i, w, n) == [];
    }
  }

  /** Reading the first k <= w columns is visiting the buckets 0 .. k - 1 of `p % w`. */
  lemma {:induction false} ColumnsAreBuckets(w: nat, n: nat, k: nat)
    requires 0 < w && k <= w
    ensures Columns(w, n, k) == Buckets(ModSlot(w), k, n)
  {
    if k > 0 {
      var c: nat := k - 1;
      var slot := ModSlot(w);
      ColumnsAreBuckets(w, n, c);
      ColumnsStep(w, n, c);
      ModSmall(c, w);
      ColumnIsMembers(c, w, n);
      forall p: nat | p < c && p < n
        ensures slot(p) != c
      {
        ModSmall(p, w);
      }
      MembersSkip(slot, c, 0, c, n);
    }
  }

  /** The full reading order of a grid of width w visits each position below n once. */
  lemma ColumnsPermutation(w: nat, n: nat)
    requires w > 0
    ensures IsPermutation(Columns(w, n, w), n) && |Columns(w, n, w)| == n
    ensures InBounds(Columns(w, n, w), n)
  {
    ColumnsAreBuckets(w, n, w);
    BucketsPermutation(ModSlot(w), w, n);
    PermutationBounds(Columns(w, n, w), n);
  }

  /** The first k columns are a prefix of the first k' columns. */
  lemma {:induction false} ColumnsPrefix(w: nat, n: nat, k: nat, k': nat)
    requires w > 0 && k <= k'
    ensures |Columns(w, n, k)| <= |Columns(w, n, k')|
    ensures Columns(w, n, k')[..|Columns(w, n, k)|] == Columns(w, n, k)
    decreases k' - k
  {
    if k < k' {
      var m: nat := k' - 1;
      ColumnsPrefix(w, n, k, m);
      ColumnsStep(w, n, m);
    }
  }

  /** When the first k columns all have r entries, they hold k * r entries together. */
  lemma {:induction false} ColumnsFull(w: nat, n: nat, k: nat, r: nat)
    requires w > 0
    requires forall c: nat :: c < k ==> |Column(c, w, n)| == r
    ensures |Columns(w, n, k)| == k * r
  {
    if k > 0 {
      var m: nat := k - 1;
      ColumnsFull(w, n, m, r);
      ColumnsStep(w, n, m);
    }
  }

  /** Entry j of column c sits after the columns before it in the full reading order. */
  lemma ColumnsEntry(w: nat, n: nat, c: nat, j: nat)
    requires c < w && j < |Column(c, w, n)|
    ensures |Columns(w, n, w)| == n && |Columns(w, n, c)| + j < n
    ensures Columns(w, n, w)[|Columns(w, n, c)| + j] == Column(c, w, n)[j]
  {
    ColumnsStep(w, n, c);
    ColumnsPrefix(w, n, c + 1, w);
    ColumnsPermutation(w, n);
    var base := |Columns(w, n, c)|;
    assert Columns(w, n, w)[base + j] == Columns(w, n, c + 1)[base + j];
  }

  /** Any sequence of columns of the grid stays below n. */
  lemma {:induction false} ColumnsAlongInBounds(w: nat, n: nat, idx: seq<nat>)
    requires w > 0
    ensures InBounds(ConcatMap(ColumnOf(w, n), idx), n)
    decreases |idx|
  {
    if |idx| > 0 {
      var last := |idx| - 1;
      ColumnsAlongInBounds(w, n, idx[..last]);
      ColumnInBounds(idx[last], w, n);
      GatherAppend(Range(n), ConcatMap(ColumnOf(w, n), idx[..last]), Column(idx[last], w, n));
    }
  }

  /** Pieces of `len` entries each. */
  lemma {:induction false} ConcatMapLength<T>(g: nat -> seq<T>, idx: seq<nat>, len: nat)
    requires forall i :: 0 <= i < |idx| ==> |g(idx[i])| == len
    ensures |ConcatMap(g, idx)| == |idx| * len
    decreases |idx|
  {
    if |idx| > 0 {
      var last := |idx| - 1;
      ConcatMapLength(g, idx[..last], len);
      assert (last + 1) * len == last * len + len;
    }
  }

  /** When every piece has `len` entries, entry k of piece j sits at j * len + k. */
  lemma {:induction false} ConcatMapUniform<T>(g: nat -> seq<T>, idx: seq<nat>, len: nat, j: nat, k: nat)
    requires forall i :: 0 <= i < |idx| ==> |g(idx[i])| == len
    requires j < |idx| && k < len
    ensures |ConcatMap(g, idx)| == |idx| * len && j * len + k < |idx| * len
    ensures ConcatMap(g, idx)[j * len + k] == g(idx[j])[k]
    decreases |idx|
  {
    var last := |idx| - 1;
    var front := idx[..last];
    MulMonotone(j + 1, |idx|, len);
    assert (j + 1) * len == j * len + len;
    ConcatMapLength(g, idx, len);
    ConcatMapLength(g, front, len);
    assert ConcatMap(g, idx) == ConcatMap(g, front) + g(idx[last]);
    if j < last {
      MulMonotone(j + 1, last, len);
      assert (j + 1) * len == j * len + len;
      ConcatMapUniform(g, front, len, j, k);
    }
  }

  // ----- The column-reading loop -----

  /**
   * The inner loop of both column ciphers: copies column `offset` of the text (the entries at
   * offset, offset + w, ...) to the buffer from `cipherIndex` on.
   */
  method ReadColumn<T>(buffer: array<T>, text: seq<T>, offset: nat, w: nat,
                    cipherIndex: nat, ghost walk: seq<nat>) returns (next: nat)
    requires w > 0 && buffer.Length == |text| && cipherIndex == |walk|
    requires InBounds(walk, |text|) && InBounds(Column(offset, w, |text|), |text|)
    requires |walk| + |Column(offset, w, |text|)| <= |text|
    requires forall j :: 0 <= j < |walk| ==> buffer[j] == text[walk[j]]
    modifies buffer
    ensures next == |walk| + |Column(offset, w, |text|)|
    ensures forall j :: 0 <= j < next ==> buffer[j] == text[(walk + Column(offset, w, |text|))[j]]
    ensures buffer[next..] == old(buffer[next..])
  {
    var size := |text|;
    ghost var col := Column(offset, w, size);
    ghost var pos := 0;
    next := cipherIndex;
    var plainIndex := offset;
    while plainIndex < size
      invariant pos <= |col| && col[pos..] == Column(plainIndex, w, size)
      invariant next == |walk| + pos
      invariant forall j :: 0 <= j < |walk| ==> buffer[j] == text[walk[j]]
      invariant forall j :: 0 <= j < pos ==> buffer[|walk| + j] == text[col[j]]
      invariant forall j :: next <= j < buffer.Length ==> buffer[j] == old(buffer[j])
      decreases size - plainIndex
    {
      assert col[pos..][1..] == col[pos + 1..];
      buffer[next] := text[plainIndex];
      next := next + 1;
      plainIndex := plainIndex + w;
      pos := pos + 1;
    }
  }
}
