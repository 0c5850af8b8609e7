/** The merges behind `inplace_merge` and `stable_sort` (headers/cpp/stl_algo.h:1718-1830, 1960-2275). */
module StableMerge {
  import opened Order
  import opened SortOrder
  import opened Ranges
  import opened StableOrder
  import Rotate
  import RotateCycles

  // ---------- binary search ----------

  /** `lower_bound`: the first place in a sorted range that does not precede `v`. */
  method LowerBound<T(!new)>(lt: (T, T) -> bool, a: array<T>, lo: nat, hi: nat, v: T, ghost pre: seq<T>,
                             ghost t: seq<T>, ghost post: seq<T>)
    returns (i: nat)
    requires StrictWeakOrder(lt) && Sorted(lt, t) && a[..] == pre + t + post && |pre| == lo <= hi && |t| == hi - lo
    ensures lo <= i <= hi
    ensures forall j :: 0 <= j < i - lo ==> lt(t[j], v)
    ensures forall j :: i - lo <= j < |t| ==> !lt(t[j], v)
  {
    i := lo;
    var len := hi - lo;
    while len > 0
      invariant 0 <= len && lo <= i && i + len <= hi
      invariant forall j :: 0 <= j < i - lo ==> lt(t[j], v)
      invariant forall j :: i + len - lo <= j < |t| ==> !lt(t[j], v)
      decreases len
    {
      var half := len / 2;
      var middle := i + half;
      var x := Load(a, middle, pre, t, post);
      Around(lt, t, middle - lo);
      if lt(x, v) {
        i := middle + 1;
        len := len - half - 1;
      } else {
        len := half;
      }
    }
  }

  lemma Around<T(!new)>(lt: (T, T) -> bool, t: seq<T>, m: nat)
    requires StrictWeakOrder(lt) && Sorted(lt, t) && m < |t|
    ensures forall j :: 0 <= j <= m ==> !lt(t[m], t[j])
    ensures forall j :: m <= j < |t| ==> !lt(t[j], t[m])
  {
  }

  /** `upper_bound`: the first place in a sorted range that `v` precedes. */
  method UpperBound<T(!new)>(lt: (T, T) -> bool, a: array<T>, lo: nat, hi: nat, v: T, ghost pre: seq<T>,
                             ghost t: seq<T>, ghost post: seq<T>)
    returns (i: nat)
    requires StrictWeakOrder(lt) && Sorted(lt, t) && a[..] == pre + t + post && |pre| == lo <= hi && |t| == hi - lo
    ensures lo <= i <= hi
    ensures forall j :: 0 <= j < i - lo ==> !lt(v, t[j])
    ensures forall j :: i - lo <= j < |t| ==> lt(v, t[j])
  {
    i := lo;
    var len := hi - lo;
    while len > 0
      invariant 0 <= len && lo <= i && i + len <= hi
      invariant forall j :: 0 <= j < i - lo ==> !lt(v, t[j])
      invariant forall j :: i + len - lo <= j < |t| ==> lt(v, t[j])
      decreases len
    {
      var half := len / 2;
      var middle := i + half;
      var x := Load(a, middle, pre, t, post);
      Around(lt, t, middle - lo);
      if lt(v, x) {
        len := half;
      } else {
        i := middle + 1;
        len := len - half - 1;
      }
    }
  }

  // ---------- copying ----------

  /** `copy(first, last, buffer)` from the range. */
  method CopyOut<T>(a: array<T>, lo: nat, hi: nat, buf: array<T>, ghost pre: seq<T>, ghost s: seq<T>,
                    ghost post: seq<T>)
    requires a != buf && a[..] == pre + s + post && |pre| == lo <= hi && |s| == hi - lo <= buf.Length
    modifies buf
    ensures buf[..hi - lo] == s
  {
    for i := 0 to hi - lo
      invariant buf[..i] == s[..i]
    {
      var x := Load(a, lo + i, pre, s, post);
      buf[i] := x;
      assert buf[..i + 1] == s[..i] + [x];
    }
  }

  /** `copy(buffer, buffer_end, result)` into the range. */
  method CopyIn<T>(buf: array<T>, i: nat, n: nat, a: array<T>, lo: nat, ghost pre: seq<T>, ghost gap: seq<T>,
                   ghost s: seq<T>, ghost post: seq<T>)
    requires a != buf && a[..] == pre + gap + post && |pre| == lo && |gap| == |s| == n - i && i <= n <= buf.Length
             && buf[i..n] == s
    modifies a
    ensures a[..] == pre + s + post
  {
    ghost var g := gap;
    for j := 0 to n - i
      invariant |g| == n - i - j && a[..] == pre + (s[..j] + g) + post
    {
      var x := buf[i + j];
      assert x == buf[i..n][j];
      Store(a, lo + j, x, pre, s[..j] + g, post);
      assert (s[..j] + g)[j := x] == s[..j + 1] + g[1..];
      g := g[1..];
    }
    assert s[..n - i] + g == s;
  }

  /** `copy` of a range onto itself. */
  method CopySelf<T>(a: array<T>, lo: nat, hi: nat)
    requires lo <= hi <= a.Length
    modifies a
    ensures a[..] == old(a[..])
  {
    for i := lo to hi
      invariant a[..] == old(a[..])
    {
      a[i] := a[i];
    }
  }

  // ---------- merge ----------

  /** One round of `merge` into the range: the gap before what is left of `t` is as long as what is left of `s`. */
  lemma GapMoves<T>(out: seq<T>, gap: seq<T>, t: seq<T>, x: T)
    requires gap != []
    ensures (out + gap + t)[|out| := x] == (out + [x]) + gap[1..] + t
    ensures t != [] && x == t[0] ==> (out + gap + t)[|out| := x] == (out + [x]) + (gap[1..] + [x]) + t[1..]
  {
  }

  /** The loop of `merge(buffer, buffer_end, middle, last, first)`. */
  method MergeLoop<T>(lt: (T, T) -> bool, buf: array<T>, n: nat, a: array<T>, lo: nat, mid: nat, hi: nat,
                      ghost pre: seq<T>, ghost gap0: seq<T>, ghost s0: seq<T>, ghost t0: seq<T>, ghost post: seq<T>)
    returns (i: nat, result: nat, ghost out: seq<T>, ghost gap: seq<T>, ghost s: seq<T>, ghost t: seq<T>)
    requires a != buf && n <= buf.Length && buf[..n] == s0 && |gap0| == n && lo == |pre| && mid == lo + n
             && hi == mid + |t0|
    requires a[..] == pre + (gap0 + t0) + post
    modifies a
    ensures i <= n && s == s0[i..] && |gap| == |s| == n - i && result == lo + |out| && (s == [] || t == [])
    ensures hi == result + |gap| + |t| && buf[i..n] == s
    ensures a[..] == pre + (out + gap + t) + post && out + Merge(lt, s, t) == Merge(lt, s0, t0)
  {
    var j: nat;
    i, j, result := 0, mid, lo;
    out, gap, s, t := [], gap0, s0, t0;
    ghost var goal := Merge(lt, s0, t0);
    assert gap0 + t0 == out + gap + t && out + goal == goal;
    while i != n && j != hi
      invariant i <= n && j <= hi && s == s0[i..] && |t| == hi - j && |gap| == |s| == n - i
      invariant result == lo + |out| && j == result + |gap|
      invariant a[..] == pre + (out + gap + t) + post && out + Merge(lt, s, t) == goal
      decreases n - i + (hi - j)
    {
      var x := buf[i];
      assert x == s0[i] == s[0];
      var y := Load(a, j, pre, out + gap + t, post);
      var z := if lt(y, x) then y else x;
      Store(a, result, z, pre, out + gap + t, post);
      GapMoves(out, gap, t, z);
      MergeTakes(lt, out, s, t);
      out := out + [z];
      if lt(y, x) {
        gap, t := gap[1..] + [y], t[1..];
        j := j + 1;
      } else {
        gap, s := gap[1..], s[1..];
        i := i + 1;
      }
      result := result + 1;
    }
  }

  /**
   `merge(buffer, buffer_end, middle, last, first)`: the result overwrites the range that its second
   input is read from.
   */
  method MergeForward<T>(lt: (T, T) -> bool, buf: array<T>, n: nat, a: array<T>, lo: nat, mid: nat, hi: nat,
                         ghost pre: seq<T>, ghost gap0: seq<T>, ghost s0: seq<T>, ghost t0: seq<T>, ghost post: seq<T>)
    requires a != buf && n <= buf.Length && buf[..n] == s0 && |gap0| == n && lo == |pre| && mid == lo + n
             && hi == mid + |t0|
    requires a[..] == pre + (gap0 + t0) + post
    modifies a
    ensures a[..] == pre + Merge(lt, s0, t0) + post
  {
    var i, result;
    ghost var out, gap, s, t;
    i, result, out, gap, s, t := MergeLoop(lt, buf, n, a, lo, mid, hi, pre, gap0, s0, t0, post);
    FinishMerge(buf, i, n, a, result, hi, pre, out, gap, s, t, post);
    assert s + t == Merge(lt, s, t);
  }

  /** `copy(first2, last2, copy(first1, last1, result))`, the second onto itself. */
  method FinishMerge<T>(buf: array<T>, i: nat, n: nat, a: array<T>, result: nat, hi: nat, ghost pre: seq<T>,
                        ghost out: seq<T>, ghost gap: seq<T>, ghost s: seq<T>, ghost t: seq<T>, ghost post: seq<T>)
    requires a != buf && i <= n <= buf.Length && buf[i..n] == s && |gap| == |s|
    requires a[..] == pre + (out + gap + t) + post && result == |pre| + |out| && hi == result + |gap| + |t|
    modifies a
    ensures a[..] == pre + (out + (s + t)) + post
  {
    Rotate.Rebracket(pre, out, gap, t, post);
    CopyIn(buf, i, n, a, result, pre + out, gap, s, t + post);
    Rotate.Rebracket(pre, out, s, t, post);
    assert |a[..]| == a.Length;
    CopySelf(a, result + (n - i), hi);
    assert out + (s + t) == out + s + t;
  }

  // ---------- merging from the end ----------

  lemma GapMovesBack<T>(s: seq<T>, gap: seq<T>, out: seq<T>, x: T)
    requires gap != []
    ensures (s + gap + out)[|s| + |gap| - 1 := x] == s + gap[..|gap| - 1] + ([x] + out)
    ensures s != [] && x == s[|s| - 1] ==>
              (s + gap + out)[|s| + |gap| - 1 := x] == s[..|s| - 1] + ([x] + gap[..|gap| - 1]) + ([x] + out)
  {
  }

  lemma MergeBackTakes<T>(lt: (T, T) -> bool, s: seq<T>, t: seq<T>, out: seq<T>)
    requires s != [] && t != []
    ensures var x, y := s[|s| - 1], t[|t| - 1];
            MergeBack(lt, s, t) + out == if lt(y, x) then MergeBack(lt, s[..|s| - 1], t) + ([x] + out)
                                         else MergeBack(lt, s, t[..|t| - 1]) + ([y] + out)
  {
  }

  /** `copy_backward(buffer, buffer_end, result)`. */
  method CopyInBack<T>(buf: array<T>, n: nat, a: array<T>, hi: nat, ghost pre: seq<T>, ghost gap: seq<T>,
                       ghost post: seq<T>)
    requires a != buf && n <= buf.Length && a[..] == pre + gap + post && |gap| == n && hi == |pre| + n
    modifies a
    ensures a[..] == pre + buf[..n] + post
  {
    ghost var s, g := buf[..n], gap;
    assert g + s[n..] == gap;
    var i := n;
    while i != 0
      invariant 0 <= i <= n && |g| == i && a[..] == pre + (g + s[i..]) + post
      decreases i
    {
      i := i - 1;
      Store(a, hi - (n - i), buf[i], pre, g + s[i + 1..], post);
      assert (g + s[i + 1..])[i := s[i]] == g[..i] + s[i..];
      g := g[..i];
    }
    assert g + s[0..] == s;
  }

  /** The larger of the two last elements goes to the end of the gap. */
  method MergeBackStep<T>(lt: (T, T) -> bool, a: array<T>, last1: nat, y: T, result: nat, ghost pre: seq<T>,
                          ghost s: seq<T>, ghost t: seq<T>, ghost gap: seq<T>, ghost out: seq<T>, ghost post: seq<T>)
    returns (first: bool, z: T, ghost gap': seq<T>)
    requires a[..] == pre + (s + gap + out) + post && s != [] && t != [] && y == t[|t| - 1]
    requires last1 == |pre| + |s| && |gap| == |t| && result == last1 + |gap|
    modifies a
    ensures first == lt(y, s[|s| - 1]) && z == (if first then s[|s| - 1] else y)
    ensures if first then |gap'| == |gap| && a[..] == pre + (s[..|s| - 1] + gap' + ([z] + out)) + post
            else |gap'| == |gap| - 1 && a[..] == pre + (s + gap' + ([z] + out)) + post
  {
    var x := Load(a, last1 - 1, pre, s + gap + out, post);
    first := lt(y, x);
    z := if first then x else y;
    Store(a, result - 1, z, pre, s + gap + out, post);
    GapMovesBack(s, gap, out, z);
    gap' := (if first then [x] else []) + gap[..|gap| - 1];
    assert [] + gap[..|gap| - 1] == gap[..|gap| - 1];
  }

  /** The loop of `__merge_backward`; it ends when one of its inputs does. */
  method MergeBackLoop<T>(lt: (T, T) -> bool, a: array<T>, lo: nat, mid: nat, buf: array<T>, n: nat, hi: nat,
                          ghost pre: seq<T>, ghost s0: seq<T>, ghost t0: seq<T>, ghost gap0: seq<T>, ghost post: seq<T>)
    returns (last1: nat, last2: nat, result: nat, ghost s: seq<T>, ghost t: seq<T>, ghost gap: seq<T>,
             ghost out: seq<T>)
    requires a != buf && n <= buf.Length && buf[..n] == t0 && |gap0| == n && lo == |pre| && mid == lo + |s0|
             && hi == mid + n
    requires a[..] == pre + (s0 + gap0) + post && s0 != [] && t0 != []
    modifies a
    ensures last1 == lo + |s| && last2 == |t| <= n && t == t0[..last2] && |gap| == |t| && result == last1 + |gap|
    ensures a[..] == pre + (s + gap + out) + post && MergeBack(lt, s, t) + out == MergeBack(lt, s0, t0)
            && (s == [] || t == [])
  {
    last1, last2, result := mid, n, hi;
    s, t, gap, out := s0, t0, gap0, [];
    ghost var goal := MergeBack(lt, s0, t0);
    assert s0 + gap0 == s + gap + out && goal + out == goal;
    while true
      invariant last1 == lo + |s| && last2 == |t| <= n && t == t0[..last2] && |gap| == |t| && result == last1 + |gap|
      invariant a[..] == pre + (s + gap + out) + post && MergeBack(lt, s, t) + out == goal && s != [] && t != []
      decreases |s| + |t|
    {
      var first, z;
      assert buf[last2 - 1] == t0[last2 - 1] == t[|t| - 1];
      first, z, gap := MergeBackStep(lt, a, last1, buf[last2 - 1], result, pre, s, t, gap, out, post);
      MergeBackTakes(lt, s, t, out);
      result := result - 1;
      out := [z] + out;
      if first {
        s := s[..|s| - 1];
        last1 := last1 - 1;
        if lo == last1 {
          return;
        }
      } else {
        t := t[..|t| - 1];
        last2 := last2 - 1;
        if last2 == 0 {
          return;
        }
      }
    }
  }

  /** `__merge_backward(first, middle, buffer, buffer_end, last)`. */
  method MergeBackward<T>(lt: (T, T) -> bool, a: array<T>, lo: nat, mid: nat, buf: array<T>, n: nat, hi: nat,
                          ghost pre: seq<T>, ghost s0: seq<T>, ghost t0: seq<T>, ghost gap0: seq<T>, ghost post: seq<T>)
    requires a != buf && n <= buf.Length && buf[..n] == t0 && |gap0| == n && lo == |pre| && mid == lo + |s0|
             && hi == mid + n
    requires a[..] == pre + (s0 + gap0) + post
    modifies a
    ensures a[..] == pre + MergeBack(lt, s0, t0) + post
  {
    var last1, last2, result := mid, n, hi;
    ghost var s, t, gap, out := s0, t0, gap0, [];
    assert s0 + gap0 == s + gap + out;
    assert MergeBack(lt, s0, t0) + [] == MergeBack(lt, s0, t0);
    if lo != mid && n != 0 {
      last1, last2, result, s, t, gap, out := MergeBackLoop(lt, a, lo, mid, buf, n, hi, pre, s0, t0, gap0, post);
    }
    Rotate.Rebracket(pre, s, gap, out, post);
    if lo == last1 {
      assert buf[..last2] == t0[..last2] == t;
      CopyInBack(buf, last2, a, result, pre + s, gap, out + post);
    } else {
      assert gap == t == [] && |a[..]| == a.Length;
      CopySelf(a, lo, last1);
    }
    assert MergeBack(lt, s, t) == s + t;
    Rotate.Rebracket(pre, s, t, out, post);
  }

  // ---------- rotating with a buffer ----------

  lemma ShiftsBack<T>(x: seq<T>, g: seq<T>, y: seq<T>)
    requires x != []
    ensures var n, e := |x| - 1, x[|x| - 1];
            g == [] ==> (x + g + y)[n := e] == x[..n] + [] + ([e] + y)
    ensures var n, e := |x| - 1, x[|x| - 1];
            g != [] ==> (x + g + y)[n + |g| := e] == x[..n] + ([e] + g[..|g| - 1]) + ([e] + y)
  {
  }

  /** `copy_backward(first, middle, last)` within the array. */
  method ShiftBack<T>(a: array<T>, first: nat, middle: nat, last: nat, ghost pre: seq<T>, ghost x0: seq<T>,
                      ghost z: seq<T>, ghost post: seq<T>)
    returns (ghost g: seq<T>)
    requires a[..] == pre + (x0 + z) + post && first == |pre| && middle == first + |x0| && last == middle + |z|
    modifies a
    ensures |g| == |z| && a[..] == pre + (g + x0) + post
  {
    var from, to := middle, last;
    ghost var x, y := x0, [];
    g := z;
    assert x0 + z == x + g + y && x + y == x0;
    while from != first
      invariant first <= from && from == first + |x| && to == from + |g| && |g| == |z| && x + y == x0
      invariant a[..] == pre + (x + g + y) + post
      decreases from
    {
      from, to := from - 1, to - 1;
      var e := Load(a, from, pre, x + g + y, post);
      Store(a, to, e, pre, x + g + y, post);
      ShiftsBack(x, g, y);
      g := if g == [] then [] else [e] + g[..|g| - 1];
      assert x == x[..|x| - 1] + [e];
      x, y := x[..|x| - 1], [e] + y;
    }
    assert x + g + y == g + x0;
  }

  lemma ShiftsFront<T>(y: seq<T>, g: seq<T>, z: seq<T>)
    requires z != []
    ensures g == [] ==> (y + g + z)[|y| := z[0]] == (y + [z[0]]) + [] + z[1..]
    ensures g != [] ==> (y + g + z)[|y| := z[0]] == (y + [z[0]]) + (g[1..] + [z[0]]) + z[1..]
  {
  }

  /** `copy(middle, last, first)` within the array. */
  method ShiftFront<T>(a: array<T>, first: nat, middle: nat, last: nat, ghost pre: seq<T>, ghost x: seq<T>,
                       ghost z0: seq<T>, ghost post: seq<T>)
    returns (ghost g: seq<T>)
    requires a[..] == pre + (x + z0) + post && first == |pre| && middle == first + |x| && last == middle + |z0|
    modifies a
    ensures |g| == |x| && a[..] == pre + (z0 + g) + post
  {
    var from, to := middle, first;
    ghost var y, z := [], z0;
    g := x;
    assert x + z0 == y + g + z && y + z == z0;
    while from != last
      invariant from <= last && to == first + |y| && from == to + |g| && last == from + |z| && |g| == |x| && y + z == z0
      invariant a[..] == pre + (y + g + z) + post
      decreases last - from
    {
      var e := Load(a, from, pre, y + g + z, post);
      Store(a, to, e, pre, y + g + z, post);
      ShiftsFront(y, g, z);
      g := if g == [] then [] else g[1..] + [e];
      y, z := y + [e], z[1..];
      from, to := from + 1, to + 1;
    }
    assert y + g + z == z0 + g;
  }

  /** `__rotate_adaptive`: through the buffer where one of the parts fits, otherwise by `rotate`. */
  method RotateAdaptive<T>(a: array<T>, first: nat, middle: nat, last: nat, len1: nat, len2: nat, buf: array<T>,
                           size: nat, ghost pre: seq<T>, ghost x: seq<T>, ghost z: seq<T>, ghost post: seq<T>)
    returns (mid: nat)
    requires a != buf && size <= buf.Length && a[..] == pre + (x + z) + post && first == |pre| && len1 == |x|
             && len2 == |z|
    requires middle == first + len1 && last == middle + len2
    modifies a, buf
    ensures a[..] == pre + (z + x) + post && mid == first + len2
  {
    mid := first + len2;
    if len1 > len2 && len2 <= size {
      assert pre + (x + z) + post == (pre + x) + z + post;
      CopyOut(a, middle, last, buf, pre + x, z, post);
      ghost var g := ShiftBack(a, first, middle, last, pre, x, z, post);
      assert pre + (g + x) + post == pre + g + (x + post);
      assert buf[0..len2] == z;
      CopyIn(buf, 0, len2, a, first, pre, g, z, x + post);
      assert pre + z + (x + post) == pre + (z + x) + post;
    } else if len1 <= size {
      assert pre + (x + z) + post == pre + x + (z + post);
      CopyOut(a, first, middle, buf, pre, x, z + post);
      ghost var g := ShiftFront(a, first, middle, last, pre, x, z, post);
      assert pre + (z + g) + post == (pre + z) + g + post;
      CopyInBack(buf, len1, a, last, pre + z, g, post);
      assert (pre + z) + x + post == pre + (z + x) + post;
    } else {
      mid := RotateCycles.RotateRandomAccess(a, first, middle, last, pre, x + z, post);
      assert Rotate.Rotated(x + z, len1) == z + x;
    }
  }

  // ---------- merging by halves ----------

  /** Both parts cut at the same value, neither part of the merge taking all. */
  ghost predicate Cuts<T>(lt: (T, T) -> bool, s: seq<T>, t: seq<T>, m: nat, n: nat) {
    && m <= |s| && n <= |t| && 0 < m + n < |s| + |t| && Keeps(lt, s[..m], t[n..]) && Precedes(lt, t[..n], s[m..])
  }

  /** The cuts that both merges by halves make. */
  method CutBoth<T(!new)>(lt: (T, T) -> bool, a: array<T>, lo: nat, mid: nat, hi: nat, len1: nat, len2: nat,
                          ghost pre: seq<T>, ghost s: seq<T>, ghost t: seq<T>, ghost post: seq<T>)
    returns (cut1: nat, cut2: nat, len11: nat, len22: nat)
    requires StrictWeakOrder(lt) && Sorted(lt, s) && Sorted(lt, t) && a[..] == pre + (s + t) + post && lo == |pre|
    requires len1 == |s| > 0 && len2 == |t| > 0 && len1 + len2 > 2 && mid == lo + len1 && hi == mid + len2
    ensures cut1 == lo + len11 && cut2 == mid + len22 && Cuts(lt, s, t, len11, len22)
  {
    assert pre + (s + t) + post == (pre + s) + t + post == pre + s + (t + post);
    if len1 > len2 {
      len11 := len1 / 2;
      cut1 := lo + len11;
      var v := Load(a, cut1, pre, s, t + post);
      cut2 := LowerBound(lt, a, mid, hi, v, pre + s, t, post);
      len22 := cut2 - mid;
      CutsAtFirst(lt, s, t, len11, len22);
    } else {
      len22 := len2 / 2;
      cut2 := mid + len22;
      var v := Load(a, cut2, pre + s, t, post);
      cut1 := UpperBound(lt, a, lo, mid, v, pre, s, t + post);
      len11 := cut1 - lo;
      CutsAtSecond(lt, s, t, len11, len22);
    }
  }

  lemma CutsAtFirst<T(!new)>(lt: (T, T) -> bool, s: seq<T>, t: seq<T>, m: nat, n: nat)
    requires StrictWeakOrder(lt) && Sorted(lt, s) && 0 < m < |s| && n <= |t|
    requires forall j :: 0 <= j < n ==> lt(t[j], s[m])
    requires forall j :: n <= j < |t| ==> !lt(t[j], s[m])
    ensures Cuts(lt, s, t, m, n)
  {
    Around(lt, s, m);
    forall x, y | x in s[..m] && y in t[n..] ensures !lt(y, x) {
      assert !lt(s[m], x) && !lt(y, s[m]);
    }
    forall x, y | x in s[m..] && y in t[..n] ensures lt(y, x) {
      assert !lt(x, s[m]) && lt(y, s[m]);
    }
  }

  lemma CutsAtSecond<T(!new)>(lt: (T, T) -> bool, s: seq<T>, t: seq<T>, m: nat, n: nat)
    requires StrictWeakOrder(lt) && Sorted(lt, t) && 0 < n < |t| && m <= |s|
    requires forall j :: 0 <= j < m ==> !lt(t[n], s[j])
    requires forall j :: m <= j < |s| ==> lt(t[n], s[j])
    ensures Cuts(lt, s, t, m, n)
  {
    Around(lt, t, n);
    forall x, y | x in s[..m] && y in t[n..] ensures !lt(y, x) {
      assert !lt(t[n], x) && !lt(y, t[n]);
    }
    forall x, y | x in s[m..] && y in t[..n] ensures lt(y, x) {
      assert lt(t[n], x) && !lt(t[n], y);
    }
  }

  lemma MergeAtCuts<T(!new)>(lt: (T, T) -> bool, s: seq<T>, t: seq<T>, m: nat, n: nat)
    requires StrictWeakOrder(lt) && Cuts(lt, s, t, m, n)
    ensures Merge(lt, s, t) == Merge(lt, s[..m], t[..n]) + Merge(lt, s[m..], t[n..])
  {
    assert s == s[..m] + s[m..] && t == t[..n] + t[n..];
    MergeApart(lt, s[..m], s[m..], t[..n], t[n..]);
  }

  lemma SortedPart<T>(lt: (T, T) -> bool, s: seq<T>, m: nat)
    requires Sorted(lt, s) && m <= |s|
    ensures Sorted(lt, s[..m]) && Sorted(lt, s[m..])
  {
  }

  /** The inner parts trade places. */
  lemma InnerParts<T>(pre: seq<T>, s: seq<T>, t: seq<T>, m: nat, n: nat, post: seq<T>)
    requires m <= |s| && n <= |t|
    ensures pre + (s + t) + post == (pre + s[..m]) + (s[m..] + t[..n]) + (t[n..] + post)
    ensures (pre + s[..m]) + (t[..n] + s[m..]) + (t[n..] + post) == pre + (s[..m] + t[..n]) + ((s[m..] + t[n..]) + post)
  {
    assert s == s[..m] + s[m..] && t == t[..n] + t[n..];
  }

  /** `__merge_without_buffer`. */
  method MergeWithoutBuffer<T(!new)>(lt: (T, T) -> bool, a: array<T>, lo: nat, mid: nat, hi: nat, len1: nat, len2: nat,
                                     ghost pre: seq<T>, ghost s: seq<T>, ghost t: seq<T>, ghost post: seq<T>)
    requires StrictWeakOrder(lt) && Sorted(lt, s) && Sorted(lt, t) && a[..] == pre + (s + t) + post
    requires lo == |pre| && len1 == |s| && len2 == |t| && mid == lo + len1 && hi == mid + len2
    modifies a
    ensures a[..] == pre + Merge(lt, s, t) + post
    decreases len1 + len2, 1
  {
    if len1 == 0 || len2 == 0 {
      assert s + t == Merge(lt, s, t);
      return;
    }
    if len1 + len2 == 2 {
      MergeTwo(lt, a, lo, mid, pre, s, t, post);
      return;
    }
    MergeHalves(lt, a, lo, mid, hi, len1, len2, pre, s, t, post);
  }

  /** The cut, the rotation and the two merges of the halves. */
  method MergeHalves<T(!new)>(lt: (T, T) -> bool, a: array<T>, lo: nat, mid: nat, hi: nat, len1: nat, len2: nat,
                                 ghost pre: seq<T>, ghost s: seq<T>, ghost t: seq<T>, ghost post: seq<T>)
    requires StrictWeakOrder(lt) && Sorted(lt, s) && Sorted(lt, t) && a[..] == pre + (s + t) + post
    requires lo == |pre| && len1 == |s| > 0 && len2 == |t| > 0 && len1 + len2 > 2 && mid == lo + len1
             && hi == mid + len2
    modifies a
    ensures a[..] == pre + Merge(lt, s, t) + post
    decreases len1 + len2, 0
  {
    var cut1, cut2, len11, len22 := CutBoth(lt, a, lo, mid, hi, len1, len2, pre, s, t, post);
    ghost var s1, s2, t1, t2 := s[..len11], s[len11..], t[..len22], t[len22..];
    InnerParts(pre, s, t, len11, len22, post);
    SortedPart(lt, s, len11);
    SortedPart(lt, t, len22);
    var mid' := RotateCycles.RotateRandomAccess(a, cut1, mid, cut2, pre + s1, s2 + t1, t2 + post);
    assert Rotate.Rotated(s2 + t1, |s2|) == t1 + s2;
    MergeWithoutBuffer(lt, a, lo, cut1, mid', len11, len22, pre, s1, t1, (s2 + t2) + post);
    ghost var m1, m2 := Merge(lt, s1, t1), Merge(lt, s2, t2);
    Joined(pre, m1, s2 + t2, post);
    MergeWithoutBuffer(lt, a, mid', cut2, hi, len1 - len11, len2 - len22, pre + m1, s2, t2, post);
    MergeAtCuts(lt, s, t, len11, len22);
    Joined(pre, m1, m2, post);
  }

  lemma Joined<T>(pre: seq<T>, m: seq<T>, n: seq<T>, post: seq<T>)
    ensures pre + m + (n + post) == (pre + m) + n + post == pre + (m + n) + post
  {
  }

  /** Two elements. */
  method MergeTwo<T>(lt: (T, T) -> bool, a: array<T>, lo: nat, mid: nat, ghost pre: seq<T>, ghost s: seq<T>,
                     ghost t: seq<T>, ghost post: seq<T>)
    requires a[..] == pre + (s + t) + post && lo == |pre| && |s| == |t| == 1 && mid == lo + 1
    modifies a
    ensures a[..] == pre + Merge(lt, s, t) + post
  {
    var x := Load(a, lo, pre, s + t, post);
    var y := Load(a, mid, pre, s + t, post);
    MergeOfTwo(lt, s, t);
    if lt(y, x) {
      Swap(a, lo, mid, pre, s + t, post);
    }
  }

  lemma MergeOfTwo<T>(lt: (T, T) -> bool, s: seq<T>, t: seq<T>)
    requires |s| == |t| == 1
    ensures Merge(lt, s, t) == if lt(t[0], s[0]) then Swapped(s + t, 0, 1) else s + t
  {
    assert s == [s[0]] && t == [t[0]] && s[1..] == [] && t[1..] == [];
    assert Swapped(s + t, 0, 1) == t + s;
  }

  /** `__merge_adaptive`, with a buffer of at least one element. */
  method MergeAdaptive<T(!new)>(lt: (T, T) -> bool, a: array<T>, lo: nat, mid: nat, hi: nat, len1: nat, len2: nat,
                                buf: array<T>, size: nat, ghost pre: seq<T>, ghost s: seq<T>, ghost t: seq<T>,
                                ghost post: seq<T>)
    requires StrictWeakOrder(lt) && Sorted(lt, s) && Sorted(lt, t) && a[..] == pre + (s + t) + post
    requires lo == |pre| && len1 == |s| && len2 == |t| && mid == lo + len1 && hi == mid + len2
    requires a != buf && 0 < size <= buf.Length
    modifies a, buf
    ensures a[..] == pre + Merge(lt, s, t) + post
    decreases len1 + len2, 1
  {
    if len1 <= len2 && len1 <= size {
      assert pre + (s + t) + post == pre + s + (t + post);
      CopyOut(a, lo, mid, buf, pre, s, t + post);
      MergeForward(lt, buf, len1, a, lo, mid, hi, pre, s, s, t, post);
    } else if len2 <= size {
      assert pre + (s + t) + post == (pre + s) + t + post;
      CopyOut(a, mid, hi, buf, pre + s, t, post);
      MergeBackward(lt, a, lo, mid, buf, len2, hi, pre, s, t, t, post);
      MergeBackIsMerge(lt, s, t);
    } else {
      MergeHalvesAdaptive(lt, a, lo, mid, hi, len1, len2, buf, size, pre, s, t, post);
    }
  }

  method MergeHalvesAdaptive<T(!new)>(lt: (T, T) -> bool, a: array<T>, lo: nat, mid: nat, hi: nat, len1: nat, len2: nat,
                                      buf: array<T>, size: nat, ghost pre: seq<T>, ghost s: seq<T>, ghost t: seq<T>,
                                      ghost post: seq<T>)
    requires StrictWeakOrder(lt) && Sorted(lt, s) && Sorted(lt, t) && a[..] == pre + (s + t) + post
    requires lo == |pre| && len1 == |s| > 0 && len2 == |t| > 0 && len1 + len2 > 2 && mid == lo + len1
             && hi == mid + len2
    requires a != buf && 0 < size <= buf.Length
    modifies a, buf
    ensures a[..] == pre + Merge(lt, s, t) + post
    decreases len1 + len2, 0
  {
    var cut1, cut2, len11, len22 := CutBoth(lt, a, lo, mid, hi, len1, len2, pre, s, t, post);
    ghost var s1, s2, t1, t2 := s[..len11], s[len11..], t[..len22], t[len22..];
    InnerParts(pre, s, t, len11, len22, post);
    SortedPart(lt, s, len11);
    SortedPart(lt, t, len22);
    var mid' := RotateAdaptive(a, cut1, mid, cut2, len1 - len11, len22, buf, size, pre + s1, s2, t1, t2 + post);
    MergeAdaptive(lt, a, lo, cut1, mid', len11, len22, buf, size, pre, s1, t1, (s2 + t2) + post);
    ghost var m1, m2 := Merge(lt, s1, t1), Merge(lt, s2, t2);
    Joined(pre, m1, s2 + t2, post);
    MergeAdaptive(lt, a, mid', cut2, hi, len1 - len11, len2 - len22, buf, size, pre + m1, s2, t2, post);
    MergeAtCuts(lt, s, t, len11, len22);
    Joined(pre, m1, m2, post);
  }

  /** `inplace_merge`; `size` is the number of elements the temporary buffer could be given, 0 for none. */
  method InplaceMerge<T(!new)>(lt: (T, T) -> bool, a: array<T>, lo: nat, mid: nat, hi: nat, buf: array<T>, size: nat)
    requires StrictWeakOrder(lt) && lo <= mid <= hi <= a.Length && Sorted(lt, a[lo..mid]) && Sorted(lt, a[mid..hi])
    requires a != buf && size <= buf.Length
    modifies a, buf
    ensures a[..] == old(a[..lo] + Merge(lt, a[lo..mid], a[mid..hi]) + a[hi..])
  {
    ghost var pre, s, t, post := a[..lo], a[lo..mid], a[mid..hi], a[hi..];
    assert a[..] == pre + (s + t) + post;
    if lo == mid || mid == hi {
      assert s + t == Merge(lt, s, t);
      return;
    }
    if size == 0 {
      MergeWithoutBuffer(lt, a, lo, mid, hi, mid - lo, hi - mid, pre, s, t, post);
    } else {
      MergeAdaptive(lt, a, lo, mid, hi, mid - lo, hi - mid, buf, size, pre, s, t, post);
    }
  }
}
