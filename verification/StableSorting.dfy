/** `stable_sort` (headers/cpp/stl_algo.h:1355-1538). */
module StableSorting {
  import opened Order
  import opened SortOrder
  import opened Ranges
  import opened StableOrder
  import opened StableMerge
  import opened InsertionSort
  import Rotate

  const CHUNK: nat := 7

  // ---------- without a buffer ----------

  lemma SortedHalves<T(!new)>(lt: (T, T) -> bool, s: seq<T>, m: nat)
    requires StrictWeakOrder(lt) && m <= |s|
    ensures Sorted(lt, StableSort(lt, s[..m])) && |StableSort(lt, s[..m])| == m
    ensures Sorted(lt, StableSort(lt, s[m..])) && |StableSort(lt, s[m..])| == |s| - m
    ensures Merge(lt, StableSort(lt, s[..m]), StableSort(lt, s[m..])) == StableSort(lt, s)
  {
    StableSortIsStable(lt, s[..m]);
    StableSortIsStable(lt, s[m..]);
    MergeOfSorted(lt, s[..m], s[m..]);
    assert s == s[..m] + s[m..];
  }

  /** `__inplace_stable_sort`. */
  method InplaceStableSort<T(!new)>(lt: (T, T) -> bool, a: array<T>, lo: nat, hi: nat, ghost pre: seq<T>,
                                    ghost s: seq<T>, ghost post: seq<T>)
    requires StrictWeakOrder(lt) && a[..] == pre + s + post && |pre| == lo <= hi && |s| == hi - lo
    modifies a
    ensures a[..] == pre + StableSort(lt, s) + post
    decreases hi - lo
  {
    if hi - lo < 15 {
      InsertSort(lt, a, lo, hi, pre, s, post);
      return;
    }
    var mid := lo + (hi - lo) / 2;
    ghost var m := mid - lo;
    SortedHalves(lt, s, m);
    ghost var x, y := StableSort(lt, s[..m]), StableSort(lt, s[m..]);
    assert s == s[..m] + s[m..];
    Joined(pre, s[..m], s[m..], post);
    InplaceStableSort(lt, a, lo, mid, pre, s[..m], s[m..] + post);
    Joined(pre, x, s[m..], post);
    InplaceStableSort(lt, a, mid, hi, pre + x, s[m..], post);
    Joined(pre, x, y, post);
    MergeWithoutBuffer(lt, a, lo, mid, hi, mid - lo, hi - mid, pre, x, y, post);
  }

  // ---------- chunks ----------

  /** `s` sorted chunk by chunk of `n` elements each. */
  function Chunked<T>(lt: (T, T) -> bool, s: seq<T>, n: nat): seq<T>
    requires n > 0
    decreases |s|
  {
    if |s| <= n then StableSort(lt, s) else StableSort(lt, s[..n]) + Chunked(lt, s[n..], n)
  }

  /** One chunk at a time, also when it is the last and full. */
  lemma ChunkedFirst<T>(lt: (T, T) -> bool, s: seq<T>, n: nat)
    requires 0 < n <= |s|
    ensures Chunked(lt, s, n) == StableSort(lt, s[..n]) + Chunked(lt, s[n..], n)
  {
    if |s| == n {
      assert s[..n] == s && s[n..] == [];
      assert Chunked(lt, [], n) == [];
    }
  }

  lemma {:induction false} ChunkedLength<T(!new)>(lt: (T, T) -> bool, s: seq<T>, n: nat)
    requires n > 0 && StrictWeakOrder(lt)
    ensures |Chunked(lt, s, n)| == |s|
    decreases |s|
  {
    if |s| <= n {
      StableSortIsStable(lt, s);
    } else {
      StableSortIsStable(lt, s[..n]);
      ChunkedLength(lt, s[n..], n);
    }
  }

  method SortChunk<T(!new)>(lt: (T, T) -> bool, a: array<T>, first: nat, n: nat, ghost pre: seq<T>, ghost done: seq<T>,
                            ghost rest: seq<T>, ghost post: seq<T>) returns (ghost x: seq<T>)
    requires StrictWeakOrder(lt) && a[..] == pre + (done + rest) + post && first == |pre| + |done| && n <= |rest|
    modifies a
    ensures x == StableSort(lt, rest[..n]) && |x| == n && a[..] == pre + ((done + x) + rest[n..]) + post
  {
    ghost var c, r := rest[..n], rest[n..];
    assert done + rest == done + c + r;
    Rotate.Rebracket(pre, done, c, r, post);
    InsertSort(lt, a, first, first + n, pre + done, c, r + post);
    StableSortIsStable(lt, c);
    x := StableSort(lt, c);
    Rotate.Rebracket(pre, done, x, r, post);
  }

  /** `__chunk_insertion_sort`. */
  method ChunkInsertionSort<T(!new)>(lt: (T, T) -> bool, a: array<T>, lo: nat, hi: nat, n: nat,
                                     ghost pre: seq<T>, ghost s: seq<T>, ghost post: seq<T>)
    requires StrictWeakOrder(lt) && n > 0 && a[..] == pre + s + post && |pre| == lo <= hi && |s| == hi - lo
    modifies a
    ensures a[..] == pre + Chunked(lt, s, n) + post
  {
    var first := lo;
    ghost var done, rest := [], s;
    assert done + rest == s && [] + Chunked(lt, s, n) == Chunked(lt, s, n);
    while hi - first >= n
      invariant lo <= first <= hi && first == lo + |done| && |rest| == hi - first
      invariant a[..] == pre + (done + rest) + post && done + Chunked(lt, rest, n) == Chunked(lt, s, n)
      decreases hi - first
    {
      ghost var x := SortChunk(lt, a, first, n, pre, done, rest, post);
      ChunkedFirst(lt, rest, n);
      assert done + (x + Chunked(lt, rest[n..], n)) == (done + x) + Chunked(lt, rest[n..], n);
      done, rest := done + x, rest[n..];
      first := first + n;
    }
    Joined(pre, done, rest, post);
    InsertSort(lt, a, first, hi, pre + done, rest, post);
    Joined(pre, done, StableSort(lt, rest), post);
  }

  // ---------- merging from one array into another ----------

  /** A round of `merge` writes the next slot. */
  method Emit<T>(dst: array<T>, result: nat, z: T, ghost pre: seq<T>, ghost out: seq<T>, ghost gap: seq<T>,
                 ghost post: seq<T>)
    requires dst[..] == pre + (out + gap) + post && result == |pre| + |out| && gap != []
    modifies dst
    ensures dst[..] == pre + ((out + [z]) + gap[1..]) + post
  {
    Store(dst, result, z, pre, out + gap, post);
    assert (out + gap)[|out| := z] == (out + [z]) + gap[1..];
  }

  /** `copy` from one array into another. */
  method CopyAcross<T>(src: array<T>, first: nat, last: nat, dst: array<T>, result0: nat, ghost s: seq<T>,
                       ghost pre: seq<T>, ghost out0: seq<T>, ghost gap0: seq<T>, ghost post: seq<T>)
    returns (result: nat)
    requires src != dst && first <= last <= src.Length && src[first..last] == s
    requires dst[..] == pre + (out0 + gap0) + post && result0 == |pre| + |out0| && |s| <= |gap0|
    modifies dst
    ensures dst[..] == pre + ((out0 + s) + gap0[|s|..]) + post && result == result0 + |s|
  {
    ghost var out, gap := out0, gap0;
    result := result0;
    var i := first;
    assert out0 + s[..0] == out0;
    while i != last
      invariant first <= i <= last && result == result0 + (i - first)
      invariant out == out0 + s[..i - first] && gap == gap0[i - first..]
      invariant dst[..] == pre + (out + gap) + post
      decreases last - i
    {
      var x := src[i];
      assert x == src[first..last][i - first] == s[i - first];
      Emit(dst, result, x, pre, out, gap, post);
      assert out + [x] == out0 + s[..i + 1 - first];
      out, gap := out + [x], gap[1..];
      i, result := i + 1, result + 1;
    }
    assert s[..|s|] == s;
  }

  /** The loop of `merge(first1, last1, first2, last2, result)` with a separate result. */
  method MergeAcrossLoop<T>(lt: (T, T) -> bool, src: array<T>, first1: nat, last1: nat, last2: nat, dst: array<T>,
                            result0: nat, ghost s0: seq<T>, ghost t0: seq<T>, ghost pre: seq<T>, ghost gap0: seq<T>,
                            ghost post: seq<T>)
    returns (i: nat, j: nat, result: nat, ghost out: seq<T>, ghost gap: seq<T>)
    requires src != dst && first1 <= last1 <= last2 <= src.Length && src[first1..last1] == s0 && src[last1..last2] == t0
    requires dst[..] == pre + gap0 + post && result0 == |pre| && |gap0| == |s0| + |t0|
    modifies dst
    ensures first1 <= i <= last1 <= j <= last2 && (i == last1 || j == last2) && result == |pre| + |out|
    ensures dst[..] == pre + (out + gap) + post && |gap| == (last1 - i) + (last2 - j)
    ensures out + Merge(lt, src[i..last1], src[j..last2]) == Merge(lt, s0, t0)
  {
    i, j, result, out, gap := first1, last1, result0, [], gap0;
    ghost var s, t, goal := s0, t0, Merge(lt, s0, t0);
    assert [] + gap0 == gap0 && [] + goal == goal;
    while i != last1 && j != last2
      invariant first1 <= i <= last1 <= j <= last2 && result == |pre| + |out| && |gap| == |s| + |t|
      invariant s == src[i..last1] && t == src[j..last2]
      invariant dst[..] == pre + (out + gap) + post && out + Merge(lt, s, t) == goal
      decreases last1 - i + (last2 - j)
    {
      var x, y := src[i], src[j];
      assert x == s[0] && y == t[0];
      MergeTakes(lt, out, s, t);
      var z := if lt(y, x) then y else x;
      Emit(dst, result, z, pre, out, gap, post);
      out, gap := out + [z], gap[1..];
      if lt(y, x) {
        assert t[1..] == src[j + 1..last2];
        j, t := j + 1, t[1..];
      } else {
        assert s[1..] == src[i + 1..last1];
        i, s := i + 1, s[1..];
      }
      result := result + 1;
    }
  }

  /** `merge(first1, last1, last1, last2, result)` with a separate result. */
  method MergeAcross<T>(lt: (T, T) -> bool, src: array<T>, first1: nat, last1: nat, last2: nat, dst: array<T>,
                        result0: nat, ghost s: seq<T>, ghost t: seq<T>, ghost pre: seq<T>, ghost gap: seq<T>,
                        ghost post: seq<T>) returns (result: nat)
    requires src != dst && first1 <= last1 <= last2 <= src.Length && src[first1..last1] == s && src[last1..last2] == t
    requires dst[..] == pre + gap + post && result0 == |pre| && |gap| == |s| + |t|
    modifies dst
    ensures dst[..] == pre + Merge(lt, s, t) + post && result == result0 + |s| + |t|
  {
    var i, j;
    ghost var out, g;
    i, j, result, out, g := MergeAcrossLoop(lt, src, first1, last1, last2, dst, result0, s, t, pre, gap, post);
    ghost var u, w := src[i..last1], src[j..last2];
    result := CopyAcross(src, i, last1, dst, result, u, pre, out, g, post);
    result := CopyAcross(src, j, last2, dst, result, w, pre, out + u, g[|u|..], post);
    MergeRests(lt, out, u, w, g);
  }

  lemma MergeRests<T>(lt: (T, T) -> bool, out: seq<T>, u: seq<T>, w: seq<T>, g: seq<T>)
    requires (u == [] || w == []) && |g| == |u| + |w|
    ensures ((out + u) + w) + g[|u|..][|w|..] == out + Merge(lt, u, w)
  {
    assert g[|u|..][|w|..] == [];
    assert Merge(lt, u, w) == u + w;
  }

  // ---------- with a buffer ----------

  /** Two chunks merge into one of twice the size. */
  lemma ChunkedTwice<T(!new)>(lt: (T, T) -> bool, s: seq<T>, n: nat)
    requires StrictWeakOrder(lt) && 0 < 2 * n <= |s|
    ensures var x, y := StableSort(lt, s[..n]), StableSort(lt, s[n..2 * n]);
            && |x| == |y| == n && Chunked(lt, s, n) == x + (y + Chunked(lt, s[2 * n..], n))
            && Chunked(lt, s, 2 * n) == Merge(lt, x, y) + Chunked(lt, s[2 * n..], 2 * n)
  {
    ChunkedFirst(lt, s, n);
    ChunkedFirst(lt, s[n..], n);
    ChunkedFirst(lt, s, 2 * n);
    assert s[n..][..n] == s[n..2 * n] && s[n..][n..] == s[2 * n..];
    SortedHalves(lt, s[..2 * n], n);
    assert s[..2 * n][..n] == s[..n] && s[..2 * n][n..] == s[n..2 * n];
  }

  /** Less than two chunks are left. */
  lemma ChunkedRest<T(!new)>(lt: (T, T) -> bool, s: seq<T>, n: nat)
    requires StrictWeakOrder(lt) && 0 < n && |s| < 2 * n
    ensures var m := if |s| < n then |s| else n;
            var x, y := StableSort(lt, s[..m]), StableSort(lt, s[m..]);
            |x| == m && |y| == |s| - m && Chunked(lt, s, n) == x + y && Chunked(lt, s, 2 * n) == Merge(lt, x, y)
  {
    var m := if |s| < n then |s| else n;
    SortedHalves(lt, s, m);
    if |s| <= n {
      assert s[..m] == s && s[m..] == [];
    }
  }

  /** `result = merge(...)` into the front of what is still open of the result. */
  method MergeNext<T>(lt: (T, T) -> bool, src: array<T>, first1: nat, last1: nat, last2: nat, dst: array<T>,
                      result0: nat, ghost s: seq<T>, ghost t: seq<T>, ghost pre: seq<T>, ghost out: seq<T>,
                      ghost gap: seq<T>, ghost post: seq<T>)
    returns (result: nat)
    requires src != dst && first1 <= last1 <= last2 <= src.Length && src[first1..last1] == s && src[last1..last2] == t
    requires dst[..] == pre + (out + gap) + post && result0 == |pre| + |out| && |gap| >= |s| + |t|
    modifies dst
    ensures dst[..] == pre + ((out + Merge(lt, s, t)) + gap[|s| + |t|..]) + post && result == result0 + |s| + |t|
  {
    ghost var n := |s| + |t|;
    ghost var g, h, m := gap[..n], gap[n..], Merge(lt, s, t);
    assert out + gap == out + g + h;
    Rotate.Rebracket(pre, out, g, h, post);
    result := MergeAcross(lt, src, first1, last1, last2, dst, result0, s, t, pre + out, g, h + post);
    Rotate.Rebracket(pre, out, m, h, post);
  }

  /** The two first chunks and what follows them. */
  lemma ChunkPair<T(!new)>(lt: (T, T) -> bool, rest: seq<T>, n: nat, c: seq<T>, out: seq<T>)
    returns (x: seq<T>, y: seq<T>)
    requires StrictWeakOrder(lt) && 0 < 2 * n <= |rest| && c == Chunked(lt, rest, n)
    ensures |c| >= 2 * n && c[..n] == x && c[n..2 * n] == y && c[2 * n..] == Chunked(lt, rest[2 * n..], n)
    ensures out + Chunked(lt, rest, 2 * n) == (out + Merge(lt, x, y)) + Chunked(lt, rest[2 * n..], 2 * n)
  {
    ChunkedTwice(lt, rest, n);
    x, y := StableSort(lt, rest[..n]), StableSort(lt, rest[n..2 * n]);
    Thirds(x, y, Chunked(lt, rest[2 * n..], n), n);
    Associate(out, Merge(lt, x, y), Chunked(lt, rest[2 * n..], 2 * n));
  }

  lemma Thirds<T>(x: seq<T>, y: seq<T>, z: seq<T>, n: nat)
    requires |x| == |y| == n
    ensures var c := x + (y + z); c[..n] == x && c[n..2 * n] == y && c[2 * n..] == z
  {
  }

  /** One round of `__merge_sort_loop`; `c` is what is left of the source. */
  method MergePair<T(!new)>(lt: (T, T) -> bool, src: array<T>, first: nat, ghost last: nat, dst: array<T>, result: nat,
                            n: nat, ghost rest: seq<T>, ghost c: seq<T>, ghost pre: seq<T>, ghost out: seq<T>,
                            ghost gap: seq<T>, ghost post: seq<T>)
    returns (result': nat, ghost out': seq<T>)
    requires StrictWeakOrder(lt) && n > 0 && src != dst && first <= last <= src.Length
             && last - first == |rest| == |gap| >= 2 * n
    requires src[first..last] == c == Chunked(lt, rest, n) && dst[..] == pre + (out + gap) + post
             && result == |pre| + |out|
    modifies dst
    ensures |c| >= 2 * n && c[2 * n..] == Chunked(lt, rest[2 * n..], n)
    ensures dst[..] == pre + (out' + gap[2 * n..]) + post && result' == |pre| + |out'|
    ensures out + Chunked(lt, rest, 2 * n) == out' + Chunked(lt, rest[2 * n..], 2 * n)
  {
    ghost var x, y := ChunkPair(lt, rest, n, c, out);
    Slice(src, first, last, 0, n);
    Slice(src, first, last, n, 2 * n);
    result' := MergeNext(lt, src, first, first + n, first + 2 * n, dst, result, x, y, pre, out, gap, post);
    out' := out + Merge(lt, x, y);
  }

  lemma Slice<T>(a: array<T>, lo: nat, hi: nat, i: nat, j: nat)
    requires lo <= hi <= a.Length && i <= j <= hi - lo
    ensures a[lo + i..lo + j] == a[lo..hi][i..j]
  {
    var s, t := a[lo + i..lo + j], a[lo..hi][i..j];
    forall k | 0 <= k < j - i ensures s[k] == t[k] {
      assert s[k] == a[lo + i + k] && t[k] == a[lo..hi][i + k];
    }
  }

  /** The end of `__merge_sort_loop`: what is left, less than two chunks, becomes one. */
  method MergeLast<T(!new)>(lt: (T, T) -> bool, src: array<T>, first: nat, last: nat, dst: array<T>, result: nat,
                            n: nat, ghost rest: seq<T>, ghost pre: seq<T>, ghost out: seq<T>, ghost gap: seq<T>,
                            ghost post: seq<T>)
    requires StrictWeakOrder(lt) && n > 0 && src != dst && first <= last <= src.Length
             && last - first == |rest| == |gap| < 2 * n
    requires src[first..last] == Chunked(lt, rest, n) && dst[..] == pre + (out + gap) + post && result == |pre| + |out|
    modifies dst
    ensures dst[..] == pre + (out + Chunked(lt, rest, 2 * n)) + post
  {
    var step := if last - first < n then last - first else n;
    ghost var x, y, c := StableSort(lt, rest[..step]), StableSort(lt, rest[step..]), src[first..last];
    ChunkedRest(lt, rest, n);
    assert c[..step] == x && c[step..] == y;
    assert src[first..first + step] == c[..step] && src[first + step..last] == c[step..];
    var _ := MergeNext(lt, src, first, first + step, last, dst, result, x, y, pre, out, gap, post);
    assert (out + Merge(lt, x, y)) + gap[|x| + |y|..] == out + Merge(lt, x, y);
  }

  /** `__merge_sort_loop`: chunks of `n` become chunks of `2 * n`. */
  method MergeSortLoop<T(!new)>(lt: (T, T) -> bool, src: array<T>, first0: nat, last: nat, dst: array<T>, result0: nat,
                                n: nat, ghost s: seq<T>, ghost pre: seq<T>, ghost gap0: seq<T>, ghost post: seq<T>)
    requires StrictWeakOrder(lt) && n > 0 && src != dst && first0 <= last <= src.Length
             && last - first0 == |s| == |gap0|
    requires src[first0..last] == Chunked(lt, s, n) && dst[..] == pre + gap0 + post && result0 == |pre|
    modifies dst
    ensures dst[..] == pre + Chunked(lt, s, 2 * n) + post
  {
    var first, result := first0, result0;
    ghost var rest, out, gap, goal := s, [], gap0, Chunked(lt, s, 2 * n);
    assert [] + gap0 == gap0 && [] + goal == goal;
    while last - first >= 2 * n
      invariant first0 <= first <= last && last - first == |rest| == |gap| && src[first..last] == Chunked(lt, rest, n)
      invariant dst[..] == pre + (out + gap) + post && result == |pre| + |out| && out + Chunked(lt, rest, 2 * n) == goal
      decreases last - first
    {
      ghost var c := src[first..last];
      result, out := MergePair(lt, src, first, last, dst, result, n, rest, c, pre, out, gap, post);
      Slice(src, first, last, 2 * n, last - first);
      rest, gap := rest[2 * n..], gap[2 * n..];
      first := first + 2 * n;
    }
    MergeLast(lt, src, first, last, dst, result, n, rest, pre, out, gap, post);
  }

  /** Two rounds of `__merge_sort_with_buffer`: into the buffer and back. */
  method ThereAndBack<T(!new)>(lt: (T, T) -> bool, a: array<T>, lo: nat, hi: nat, buf: array<T>, n: nat,
                               ghost pre: seq<T>, ghost s: seq<T>, ghost post: seq<T>)
    requires StrictWeakOrder(lt) && n > 0 && a != buf && |pre| == lo <= hi && |s| == hi - lo <= buf.Length
    requires a[..] == pre + Chunked(lt, s, n) + post
    modifies a, buf
    ensures a[..] == pre + Chunked(lt, s, 4 * n) + post
  {
    var len := hi - lo;
    ChunkedLength(lt, s, n);
    ChunkedLength(lt, s, 2 * n);
    assert |a[..]| == a.Length && a[lo..hi] == a[..][lo..hi] == Chunked(lt, s, n);
    ghost var tail := buf[len..];
    assert buf[..] == [] + buf[..len] + tail;
    MergeSortLoop(lt, a, lo, hi, buf, 0, n, s, [], buf[..len], tail);
    assert buf[0..len] == buf[..][..len] == Chunked(lt, s, 2 * n);
    MergeSortLoop(lt, buf, 0, len, a, lo, 2 * n, s, pre, Chunked(lt, s, n), post);
  }

  /** `__merge_sort_with_buffer`, with a buffer as long as the range. */
  method MergeSortWithBuffer<T(!new)>(lt: (T, T) -> bool, a: array<T>, lo: nat, hi: nat, buf: array<T>,
                                      ghost pre: seq<T>, ghost s: seq<T>, ghost post: seq<T>)
    requires StrictWeakOrder(lt) && a != buf && a[..] == pre + s + post && |pre| == lo <= hi
             && |s| == hi - lo <= buf.Length
    modifies a, buf
    ensures a[..] == pre + StableSort(lt, s) + post
  {
    var step := CHUNK;
    ChunkInsertionSort(lt, a, lo, hi, step, pre, s, post);
    while step < hi - lo
      invariant step > 0 && a[..] == pre + Chunked(lt, s, step) + post
      decreases hi - lo - step
    {
      ThereAndBack(lt, a, lo, hi, buf, step, pre, s, post);
      step := 4 * step;
    }
  }

  /** `__stable_sort_adaptive`, with a buffer of at least one element. */
  method StableSortAdaptive<T(!new)>(lt: (T, T) -> bool, a: array<T>, lo: nat, hi: nat, buf: array<T>, size: nat,
                                     ghost pre: seq<T>, ghost s: seq<T>, ghost post: seq<T>)
    requires StrictWeakOrder(lt) && a != buf && 0 < size <= buf.Length
    requires a[..] == pre + s + post && |pre| == lo <= hi && |s| == hi - lo
    modifies a, buf
    ensures a[..] == pre + StableSort(lt, s) + post
    decreases hi - lo
  {
    var len := (hi - lo + 1) / 2;
    var mid := lo + len;
    ghost var u, w := s[..len], s[len..];
    ghost var x, y := StableSort(lt, u), StableSort(lt, w);
    SortedHalves(lt, s, len);
    assert s == u + w;
    Joined(pre, u, w, post);
    if len > size {
      StableSortAdaptive(lt, a, lo, mid, buf, size, pre, u, w + post);
      Joined(pre, x, w, post);
      StableSortAdaptive(lt, a, mid, hi, buf, size, pre + x, w, post);
    } else {
      MergeSortWithBuffer(lt, a, lo, mid, buf, pre, u, w + post);
      Joined(pre, x, w, post);
      MergeSortWithBuffer(lt, a, mid, hi, buf, pre + x, w, post);
    }
    Joined(pre, x, y, post);
    MergeAdaptive(lt, a, lo, mid, hi, mid - lo, hi - mid, buf, size, pre, x, y, post);
  }

  /** `stable_sort`; `size` is the number of elements the temporary buffer could be given, 0 for none. */
  method StableSortRange<T(!new)>(lt: (T, T) -> bool, a: array<T>, lo: nat, hi: nat, buf: array<T>, size: nat)
    requires StrictWeakOrder(lt) && lo <= hi <= a.Length && a != buf && size <= buf.Length
    modifies a, buf
    ensures StablySorted(lt, old(a[lo..hi]), a[lo..hi]) && Rearranged(old(a[..]), a[..], lo, hi)
    ensures a[lo..hi] == StableSort(lt, old(a[lo..hi]))
  {
    ghost var pre, s, post := a[..lo], a[lo..hi], a[hi..];
    assert a[..] == pre + s + post;
    if size == 0 {
      InplaceStableSort(lt, a, lo, hi, pre, s, post);
    } else {
      StableSortAdaptive(lt, a, lo, hi, buf, size, pre, s, post);
    }
    StableSortIsStable(lt, s);
    RearrangedBy(old(a[..]), a[..], lo, hi, StableSort(lt, s));
    assert a[lo..hi] == a[..][lo..hi];
  }
}
