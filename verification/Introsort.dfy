/** `sort` (headers/cpp/stl_algo.h:63-77, 1129-1335). */
module Introsort {
  import opened Basics
  import opened Order
  import opened SortOrder
  import opened Ranges
  import opened Heap
  import opened HeapRange
  import opened InsertionSort

  const THRESHOLD: nat := 16

  /** `__median`: one of the three, with one of the others on each side of it. */
  function Median<T>(lt: (T, T) -> bool, a: T, b: T, c: T): T {
    if lt(a, b) then
      if lt(b, c) then b else if lt(a, c) then c else a
    else if lt(a, c) then a
    else if lt(b, c) then c
    else b
  }

  // ---------- __unguarded_partition ----------

  /** The first `f` elements do not exceed the pivot, those from `l` on are not below it. */
  ghost predicate Parted<T>(lt: (T, T) -> bool, h: seq<T>, p: T, f: nat, l: nat) {
    && f <= |h| && l <= |h|
    && (forall i :: 0 <= i < f ==> !lt(p, h[i]))
    && (forall j :: l <= j < |h| ==> !lt(h[j], p))
  }

  /**
   Where the two scans will stop: `up` stops the one from below, `down` the one from above, and not at the
   very first slot unless the scan from below has left it.
   */
  ghost predicate Stops<T>(lt: (T, T) -> bool, h: seq<T>, p: T, f: nat, l: nat, up: nat, down: nat) {
    && f <= up < |h| && !lt(h[up], p) && down < l && down < |h| && !lt(p, h[down]) && (f == 0 ==> down > 0)
  }

  /** The median of the first, the middle and the last element stops both scans. */
  lemma MedianStops<T(!new)>(lt: (T, T) -> bool, h: seq<T>) returns (up: nat, down: nat)
    requires StrictWeakOrder(lt) && |h| > 2
    ensures Stops(lt, h, Median(lt, h[0], h[|h| / 2], h[|h| - 1]), 0, |h|, up, down)
  {
    var m, n := |h| / 2, |h| - 1;
    var p := Median(lt, h[0], h[m], h[n]);
    up := if p == h[0] then 0 else if p == h[m] then m else n;
    down := if !lt(p, h[m]) then m else n;
  }

  lemma Exchange<T(!new)>(lt: (T, T) -> bool, h: seq<T>, p: T, f: nat, l: nat)
    requires Parted(lt, h, p, f, l + 1) && f < l < |h| && !lt(h[f], p) && !lt(p, h[l])
    ensures Parted(lt, Swapped(h, f, l), p, f + 1, l) && Stops(lt, Swapped(h, f, l), p, f + 1, l, l, f)
  {
  }

  /** The scans have met. */
  lemma Meet<T(!new)>(lt: (T, T) -> bool, h: seq<T>, p: T, f: nat, l: nat, up: nat, down: nat)
    requires Parted(lt, h, p, f, l + 1) && l <= f <= up < |h| && !lt(h[f], p) && down <= l && (f == 0 ==> down > 0)
    ensures 0 < f < |h| && Parted(lt, h, p, f, f)
  {
  }

  /** A partition in progress. */
  ghost predicate Parting<T>(lt: (T, T) -> bool, h0: seq<T>, h: seq<T>, p: T, f: nat, l: nat, up: nat, down: nat) {
    && |h| == |h0| && multiset(h) == multiset(h0) && f <= l
    && Parted(lt, h, p, f, l) && Stops(lt, h, p, f, l, up, down)
  }

  /** `__unguarded_partition`: no scan looks for the ends of the range, and the cut is strictly inside it. */
  method Partition<T(!new)>(lt: (T, T) -> bool, a: array<T>, lo: nat, hi: nat, p: T, ghost up0: nat, ghost down0: nat,
                            ghost pre: seq<T>, ghost h0: seq<T>, ghost post: seq<T>) returns (cut: nat, ghost h: seq<T>)
    requires StrictWeakOrder(lt) && a[..] == pre + h0 + post && |pre| == lo <= hi && |h0| == hi - lo
    requires Stops(lt, h0, p, 0, |h0|, up0, down0)
    modifies a
    ensures lo < cut < hi && a[..] == pre + h + post && |h| == |h0| && multiset(h) == multiset(h0)
    ensures Parted(lt, h, p, cut - lo, cut - lo)
  {
    var first: nat, last: nat := lo, hi;
    h := h0;
    ghost var up: nat, down: nat := up0, down0;
    while true
      invariant lo <= first && lo <= last && a[..] == pre + h + post
      invariant Parting(lt, h0, h, p, first - lo, last - lo, up, down)
      decreases last - first
    {
      var met;
      met, first, last, h, up, down := Round(lt, a, first, last, p, up, down, pre, h0, h, post);
      if met {
        cut := first;
        return;
      }
    }
  }

  /** One round: the scans, and the exchange where they have not met. */
  method Round<T(!new)>(lt: (T, T) -> bool, a: array<T>, first0: nat, last0: nat, p: T, ghost up0: nat,
                        ghost down0: nat, ghost pre: seq<T>, ghost h0: seq<T>, ghost h1: seq<T>, ghost post: seq<T>)
    returns (met: bool, first: nat, last: nat, ghost h: seq<T>, ghost up: nat, ghost down: nat)
    requires StrictWeakOrder(lt) && a[..] == pre + h1 + post && |pre| <= first0 && |pre| <= last0
    requires Parting(lt, h0, h1, p, first0 - |pre|, last0 - |pre|, up0, down0)
    modifies a
    ensures a[..] == pre + h + post && |pre| <= first && |pre| <= last
    ensures met ==> h == h1 && 0 < first - |pre| < |h| && Parted(lt, h, p, first - |pre|, first - |pre|)
    ensures !met ==> Parting(lt, h0, h, p, first - |pre|, last - |pre|, up, down) && last - first < last0 - first0
  {
    first, last := Scans(lt, a, first0, last0, p, up0, down0, pre, h1, post);
    ghost var f, l := first - |pre|, last - |pre|;
    up, down := l, f;
    met := !(first < last);
    if met {
      Meet(lt, h1, p, f, l, up0, down0);
      h := h1;
    } else {
      Exchange(lt, h1, p, f, l);
      h := Swapped(h1, f, l);
      Swap(a, first, last, pre, h1, post);
      first := first + 1;
    }
  }

  /** Both scans of a round. */
  method Scans<T(!new)>(lt: (T, T) -> bool, a: array<T>, first0: nat, last0: nat, p: T, ghost up: nat, ghost down: nat,
                        ghost pre: seq<T>, ghost h: seq<T>, ghost post: seq<T>) returns (first: nat, last: nat)
    requires StrictWeakOrder(lt) && a[..] == pre + h + post && |pre| <= first0 <= last0
    requires var f, l := first0 - |pre|, last0 - |pre|; Parted(lt, h, p, f, l) && Stops(lt, h, p, f, l, up, down)
    ensures first0 <= first && |pre| <= last < last0 && first - |pre| <= up && down <= last - |pre|
    ensures Parted(lt, h, p, first - |pre|, last - |pre| + 1)
    ensures !lt(h[first - |pre|], p) && !lt(p, h[last - |pre|])
  {
    first := ScanUp(lt, a, first0, p, up, last0 - |pre|, pre, h, post);
    last := ScanDown(lt, a, last0, p, first - |pre|, down, pre, h, post);
  }

  /** `while (comp(*first, pivot)) ++first`. */
  method ScanUp<T(!new)>(lt: (T, T) -> bool, a: array<T>, first0: nat, p: T, ghost up: nat, ghost l: nat,
                         ghost pre: seq<T>, ghost h: seq<T>, ghost post: seq<T>) returns (first: nat)
    requires StrictWeakOrder(lt) && a[..] == pre + h + post && |pre| <= first0 && first0 - |pre| <= up < |h|
             && !lt(h[up], p)
    requires Parted(lt, h, p, first0 - |pre|, l)
    ensures first0 <= first && first - |pre| <= up && !lt(h[first - |pre|], p) && Parted(lt, h, p, first - |pre|, l)
  {
    first := first0;
    var x := Load(a, first, pre, h, post);
    while lt(x, p)
      invariant first0 <= first && first - |pre| <= up && x == h[first - |pre|] && Parted(lt, h, p, first - |pre|, l)
      decreases up + |pre| - first
    {
      first := first + 1;
      x := Load(a, first, pre, h, post);
    }
  }

  /** `--last; while (comp(pivot, *last)) --last`. */
  method ScanDown<T(!new)>(lt: (T, T) -> bool, a: array<T>, last0: nat, p: T, ghost f: nat, ghost down: nat,
                           ghost pre: seq<T>, ghost h: seq<T>, ghost post: seq<T>) returns (last: nat)
    requires StrictWeakOrder(lt) && a[..] == pre + h + post && |pre| < last0 && down < last0 - |pre| <= |h|
             && !lt(p, h[down])
    requires Parted(lt, h, p, f, last0 - |pre|)
    ensures last < last0 && |pre| + down <= last && !lt(p, h[last - |pre|]) && Parted(lt, h, p, f, last - |pre| + 1)
  {
    last := last0 - 1;
    var x := Load(a, last, pre, h, post);
    while lt(p, x)
      invariant last < last0 && |pre| + down <= last && x == h[last - |pre|] && Parted(lt, h, p, f, last - |pre| + 1)
      decreases last
    {
      last := last - 1;
      x := Load(a, last, pre, h, post);
    }
  }

  // ---------- __introsort_loop ----------

  /** Elements sixteen or more places apart are in order. */
  ghost predicate NearlySorted<T>(lt: (T, T) -> bool, s: seq<T>) {
    forall i, j :: 0 <= i && i + THRESHOLD <= j < |s| ==> !lt(s[j], s[i])
  }

  /** Nothing in `t` precedes anything in `s`. */
  ghost predicate AllBefore<T>(lt: (T, T) -> bool, s: seq<T>, t: seq<T>) {
    forall x, y :: x in s && y in t ==> !lt(y, x)
  }

  lemma NearlyJoin<T(!new)>(lt: (T, T) -> bool, s: seq<T>, t: seq<T>)
    requires NearlySorted(lt, s) && NearlySorted(lt, t) && AllBefore(lt, s, t)
    ensures NearlySorted(lt, s + t)
  {
    var u := s + t;
    forall i, j | 0 <= i && i + THRESHOLD <= j < |u| ensures !lt(u[j], u[i]) {
      if i < |s| <= j {
        assert u[i] in s && u[j] in t;
      }
    }
  }

  /** The pivot separates the two parts. */
  lemma PivotSeparates<T(!new)>(lt: (T, T) -> bool, h: seq<T>, p: T, c: nat)
    requires StrictWeakOrder(lt) && Parted(lt, h, p, c, c)
    ensures AllBefore(lt, h[..c], h[c..])
  {
    forall x, y | x in h[..c] && y in h[c..] ensures !lt(y, x) {
      assert !lt(p, x) && !lt(y, p);
    }
  }

  lemma AllBeforePermuted<T(!new)>(lt: (T, T) -> bool, s: seq<T>, t: seq<T>, s': seq<T>, t': seq<T>)
    requires AllBefore(lt, s, t) && multiset(s) == multiset(s') && multiset(t) == multiset(t')
    ensures AllBefore(lt, s', t')
  {
    SameElements(s, s');
    SameElements(t, t');
  }

  /** What is left of the range, `s`, and what lies behind it, `t`, once dealt with. */
  ghost predicate Narrowed<T>(lt: (T, T) -> bool, s0: seq<T>, s: seq<T>, t: seq<T>) {
    && |s| + |t| == |s0| && multiset(s) + multiset(t) == multiset(s0) && AllBefore(lt, s, t) && NearlySorted(lt, t)
  }

  /** One round: `h` is `s` partitioned at `c`, `r` is its upper part after the recursive call. */
  lemma NarrowFurther<T(!new)>(lt: (T, T) -> bool, s0: seq<T>, s: seq<T>, t: seq<T>, h: seq<T>, p: T, c: nat, r: seq<T>)
    requires StrictWeakOrder(lt) && Narrowed(lt, s0, s, t) && multiset(h) == multiset(s) && Parted(lt, h, p, c, c)
    requires multiset(r) == multiset(h[c..]) && NearlySorted(lt, r)
    ensures Narrowed(lt, s0, h[..c], r + t)
  {
    assert h == h[..c] + h[c..];
    PivotSeparates(lt, h, p, c);
    AllBeforePermuted(lt, h[..c], h[c..], h[..c], r);
    AllBeforePermuted(lt, s, t, h, t);
    SameElements(r, h[c..]);
    assert AllBefore(lt, h[..c], t) && AllBefore(lt, r, t);
    NearlyJoin(lt, r, t);
    assert |multiset(h)| == |multiset(s)|;
  }

  /** `__introsort_loop`: the upper part of each partition by recursion, the lower part by iteration. */
  method IntrosortLoop<T(!new)>(lt: (T, T) -> bool, a: array<T>, lo: nat, hi0: nat, limit: nat,
                                ghost pre: seq<T>, ghost s0: seq<T>, ghost post: seq<T>) returns (ghost r: seq<T>)
    requires StrictWeakOrder(lt) && a[..] == pre + s0 + post && |pre| == lo <= hi0 && |s0| == hi0 - lo
    modifies a
    ensures a[..] == pre + r + post && |r| == |s0| && multiset(r) == multiset(s0) && NearlySorted(lt, r)
    decreases hi0 - lo, 1
  {
    var hi: nat, depth: nat := hi0, limit;
    ghost var s, t := s0, [];
    Joined(pre, s, t, post);
    while hi - lo > THRESHOLD
      invariant lo <= hi <= hi0 && |s| == hi - lo && Narrowed(lt, s0, s, t)
      invariant a[..] == pre + s + (t + post)
      decreases hi
    {
      if depth == 0 {
        PartialSortOf(lt, a, lo, hi, hi, pre, s, t + post);
        r := HeapSorted(lt, s0, s, t, pre, post);
        return;
      }
      depth := depth - 1;
      hi, s, t := IntrosortRound(lt, a, lo, hi, depth, pre, s0, s, t, post);
    }
    r := s + t;
    NearlyJoin(lt, s, t);
    Joined(pre, s, t, post);
  }

  lemma Joined<T>(pre: seq<T>, s: seq<T>, t: seq<T>, post: seq<T>)
    ensures pre + s + (t + post) == pre + (s + t) + post && [] + post == post
  {
  }

  /** One round of the loop, with the recursive call. */
  method IntrosortRound<T(!new)>(lt: (T, T) -> bool, a: array<T>, lo: nat, hi: nat, depth: nat, ghost pre: seq<T>,
                                 ghost s0: seq<T>, ghost s: seq<T>, ghost t: seq<T>, ghost post: seq<T>)
    returns (cut: nat, ghost s': seq<T>, ghost t': seq<T>)
    requires StrictWeakOrder(lt) && |pre| == lo && lo + 2 < hi && |s| == hi - lo && a[..] == pre + s + (t + post)
    requires Narrowed(lt, s0, s, t)
    modifies a
    ensures lo < cut < hi && |s'| == cut - lo && a[..] == pre + s' + (t' + post) && Narrowed(lt, s0, s', t')
    decreases hi - lo, 0
  {
    ghost var h, p;
    cut, h, p := PartitionAtMedian(lt, a, lo, hi, pre, s, t + post);
    ghost var c := cut - lo;
    Regroup(pre, h, c, t + post);
    ghost var r := IntrosortLoop(lt, a, cut, hi, depth, pre + h[..c], h[c..], t + post);
    NarrowFurther(lt, s0, s, t, h, p, c, r);
    s', t' := h[..c], r + t;
    assert pre + h[..c] + r + (t + post) == pre + s' + (t' + post);
  }

  lemma Regroup<T>(pre: seq<T>, h: seq<T>, c: nat, post: seq<T>)
    requires c <= |h|
    ensures pre + h + post == (pre + h[..c]) + h[c..] + post
  {
    assert h == h[..c] + h[c..];
  }

  /** When the depth limit is used up, the heap sorts what is left. */
  lemma HeapSorted<T(!new)>(lt: (T, T) -> bool, s0: seq<T>, s: seq<T>, t: seq<T>, pre: seq<T>, post: seq<T>)
    returns (r: seq<T>)
    requires StrictWeakOrder(lt) && Narrowed(lt, s0, s, t)
    ensures var w := PartialSort(lt, s, |s|); pre + w.0 + (w.1 + (t + post)) == pre + r + post
    ensures |r| == |s0| && multiset(r) == multiset(s0) && NearlySorted(lt, r)
  {
    var w := PartialSort(lt, s, |s|);
    PartialSortSorts(lt, s, |s|);
    PartialSortKeeps(lt, s, |s|);
    assert w.1 == [];
    r := w.0 + t;
    AllBeforePermuted(lt, s, t, w.0, t);
    NearlyJoin(lt, w.0, t);
    assert pre + w.0 + (w.1 + (t + post)) == pre + r + post;
  }

  /** The partition of a round, around the median of the first, the middle and the last element. */
  method PartitionAtMedian<T(!new)>(lt: (T, T) -> bool, a: array<T>, lo: nat, hi: nat,
                                    ghost pre: seq<T>, ghost s: seq<T>, ghost post: seq<T>)
    returns (cut: nat, ghost h: seq<T>, p: T)
    requires StrictWeakOrder(lt) && a[..] == pre + s + post && |pre| == lo && lo + 2 < hi && |s| == hi - lo
    modifies a
    ensures lo < cut < hi && a[..] == pre + h + post && |h| == |s| && multiset(h) == multiset(s)
    ensures Parted(lt, h, p, cut - lo, cut - lo)
  {
    var x := Load(a, lo, pre, s, post);
    var y := Load(a, lo + (hi - lo) / 2, pre, s, post);
    var z := Load(a, hi - 1, pre, s, post);
    p := Median(lt, x, y, z);
    ghost var up, down := MedianStops(lt, s);
    cut, h := Partition(lt, a, lo, hi, p, up, down, pre, s, post);
  }

  // ---------- sort ----------

  /** `__lg`. */
  method Lg(n0: nat) returns (k: nat)
    requires n0 > 0
    ensures Pow2(k) <= n0 < Pow2(k + 1)
  {
    var n := n0;
    k := 0;
    while n != 1
      invariant n > 0 && n * Pow2(k) <= n0 < (n + 1) * Pow2(k)
      decreases n
    {
      Halve(n, n0, Pow2(k));
      n := n / 2;
      k := k + 1;
    }
  }

  lemma Halve(n: nat, n0: nat, p: nat)
    requires n * p <= n0 < (n + 1) * p
    ensures (n / 2) * (2 * p) <= n0 < (n / 2 + 1) * (2 * p)
  {
    var h := n / 2;
    assert h * (2 * p) == (2 * h) * p <= n * p;
    assert (h + 1) * (2 * p) == (2 * h + 2) * p >= (n + 1) * p;
  }

  /** After sixteen elements have been sorted, their first is a least element of all. */
  lemma FirstIsLeast<T(!new)>(lt: (T, T) -> bool, r: seq<T>, g: seq<T>)
    requires StrictWeakOrder(lt) && |r| > THRESHOLD && NearlySorted(lt, r)
    requires Sorted(lt, g) && multiset(g) == multiset(r[..THRESHOLD])
    ensures g != [] && forall x :: x in r[THRESHOLD..] ==> !lt(x, g[0])
  {
    SameElements(g, r[..THRESHOLD]);
    assert r[0] in r[..THRESHOLD];
    var k :| 0 <= k < |g| && g[k] == r[0];
    assert !lt(r[0], g[0]);
    forall x | x in r[THRESHOLD..] ensures !lt(x, g[0]) {
      var j :| 0 <= j < |r| - THRESHOLD && r[THRESHOLD..][j] == x;
      assert !lt(r[THRESHOLD + j], r[0]);
    }
  }

  /** `__final_insertion_sort`: after the first sixteen, no insertion looks for the end of the range. */
  method FinalInsertionSort<T(!new)>(lt: (T, T) -> bool, a: array<T>, lo: nat, hi: nat,
                                     ghost pre: seq<T>, ghost r: seq<T>, ghost post: seq<T>)
    requires StrictWeakOrder(lt) && a[..] == pre + r + post && |pre| == lo <= hi && |r| == hi - lo
             && NearlySorted(lt, r)
    modifies a
    ensures a[..] == pre + InsertAll(lt, [], r) + post
  {
    if hi - lo > THRESHOLD {
      ghost var u, w := r[..THRESHOLD], r[THRESHOLD..];
      assert pre + r + post == pre + u + (w + post);
      InsertSort(lt, a, lo, lo + THRESHOLD, pre, u, w + post);
      ghost var g := InsertAll(lt, [], u);
      InsertAllSorts(lt, [], u);
      FirstIsLeast(lt, r, g);
      assert |multiset(g)| == |multiset(u)|;
      assert pre + g + (w + post) == pre + (g + w) + post;
      UnguardedInsertSort(lt, a, lo + THRESHOLD, hi, pre, g, w, post);
      InsertAllThen(lt, [], u, w);
      assert r == u + w;
    } else {
      InsertSort(lt, a, lo, hi, pre, r, post);
    }
  }

  /** `sort`: a sorted permutation of the range; nothing else moves. */
  method Sort<T(!new)>(lt: (T, T) -> bool, a: array<T>, lo: nat, hi: nat)
    requires StrictWeakOrder(lt) && lo <= hi <= a.Length
    modifies a
    ensures Sorted(lt, a[lo..hi]) && Rearranged(old(a[..]), a[..], lo, hi)
  {
    ghost var pre, s, post := a[..lo], a[lo..hi], a[hi..];
    assert a[..] == pre + s + post;
    if lo != hi {
      var k := Lg(hi - lo);
      ghost var r := IntrosortLoop(lt, a, lo, hi, k * 2, pre, s, post);
      FinalInsertionSort(lt, a, lo, hi, pre, r, post);
      InsertAllSorts(lt, [], r);
      RearrangedBy(old(a[..]), a[..], lo, hi, InsertAll(lt, [], r));
      assert a[lo..hi] == a[..][lo..hi];
    }
  }
}
