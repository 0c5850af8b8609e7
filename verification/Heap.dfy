/**
 Binary heaps in a range of an array (headers/cpp/stl_heap.h:72-269) and `partial_sort`
 (headers/cpp/stl_algo.h:1578-1586).
 */
module Heap {
  import opened Order
  import opened SortOrder

  function Parent(c: nat): (p: nat)
    requires c > 0
    ensures p < c && (c == 2 * p + 1 || c == 2 * p + 2)
  {
    (c - 1) / 2
  }

  predicate Under<T>(lt: (T, T) -> bool, h: seq<T>, c: nat)
    requires 0 < c < |h|
  {
    !lt(h[Parent(c)], h[c])
  }

  /** No element from `top` down is smaller than a child of it. */
  ghost predicate HeapFrom<T>(lt: (T, T) -> bool, h: seq<T>, top: nat) {
    forall c: nat :: 0 < c < |h| && top <= Parent(c) ==> Under(lt, h, c)
  }

  /**
   The same, but for the slot `hole`, whatever it holds: the children of the hole are in order with
   its parent.
   */
  ghost predicate HeapAround<T>(lt: (T, T) -> bool, h: seq<T>, top: nat, hole: nat) {
    && hole < |h|
    && (forall c: nat :: 0 < c < |h| && top <= Parent(c) && c != hole && Parent(c) != hole ==> Under(lt, h, c))
    && (0 < hole && top <= Parent(hole) ==> forall c: nat :: 0 < c < |h| && Parent(c) == hole ==>
          !lt(h[Parent(hole)], h[c]))
  }

  /** `v` may come to the hole: it is not smaller than the children. */
  ghost predicate Fits<T>(lt: (T, T) -> bool, h: seq<T>, hole: nat, v: T) {
    forall c: nat :: 0 < c < |h| && Parent(c) == hole ==> !lt(v, h[c])
  }

  // ---------- the steps of the hole ----------

  lemma MoveUp<T(!new)>(lt: (T, T) -> bool, h: seq<T>, top: nat, hole: nat, v: T)
    requires StrictWeakOrder(lt) && HeapAround(lt, h, top, hole) && 0 < hole && top <= Parent(hole)
             && lt(h[Parent(hole)], v)
    ensures HeapAround(lt, h[hole := h[Parent(hole)]], top, Parent(hole))
    ensures Fits(lt, h[hole := h[Parent(hole)]], Parent(hole), v)
  {
    var p := Parent(hole);
    var k := h[hole := h[p]];
    forall c: nat | 0 < c < |k| && top <= Parent(c) && c != p && Parent(c) != p ensures Under(lt, k, c) {
      if c != hole && Parent(c) != hole {
        assert Under(lt, h, c);
      }
    }
    forall c: nat | 0 < c < |k| && Parent(c) == p ensures !lt(h[p], k[c]) {
      if c != hole && p != hole {
        assert Under(lt, h, c);
      }
    }
    if 0 < p && top <= Parent(p) {
      assert Under(lt, h, p);
      forall c: nat | 0 < c < |k| && Parent(c) == p ensures !lt(k[Parent(p)], k[c]) {
      }
    }
  }

  lemma MoveDown<T(!new)>(lt: (T, T) -> bool, h: seq<T>, top: nat, hole: nat, c: nat)
    requires StrictWeakOrder(lt) && HeapAround(lt, h, top, hole) && top <= hole
    requires 0 < c < |h| && Parent(c) == hole
    requires forall d: nat :: 0 < d < |h| && Parent(d) == hole ==> !lt(h[c], h[d])
    ensures HeapAround(lt, h[hole := h[c]], top, c)
  {
    var k := h[hole := h[c]];
    forall d: nat | 0 < d < |k| && top <= Parent(d) && d != c && Parent(d) != c ensures Under(lt, k, d) {
      if d != hole && Parent(d) != hole {
        assert Under(lt, h, d);
      }
    }
    forall d: nat | 0 < d < |k| && Parent(d) == c ensures !lt(k[Parent(c)], k[d]) {
      assert Under(lt, h, d);
    }
  }

  lemma Fill<T(!new)>(lt: (T, T) -> bool, h: seq<T>, top: nat, hole: nat, v: T)
    requires HeapAround(lt, h, top, hole) && Fits(lt, h, hole, v)
    requires 0 < hole && top <= Parent(hole) ==> !lt(h[Parent(hole)], v)
    ensures HeapFrom(lt, h[hole := v], top)
  {
    var k := h[hole := v];
    forall c: nat | 0 < c < |k| && top <= Parent(c) ensures Under(lt, k, c) {
      if c != hole && Parent(c) != hole {
        assert Under(lt, h, c);
      }
    }
  }

  /** Moving the hole moves nothing else. */
  /** `r` holds what `h` does with `v` in the hole. */
  ghost predicate Keeps<T>(h: seq<T>, hole: nat, v: T, r: seq<T>) {
    hole < |h| && multiset(r) == multiset(h[hole := v])
  }

  lemma HoleMoved<T>(h: seq<T>, hole: nat, c: nat, v: T, r: seq<T>)
    requires hole < |h| && c < |h| && hole != c && Keeps(h[hole := h[c]], c, v, r)
    ensures Keeps(h, hole, v, r)
  {
    assert h[hole := h[c]][c := v] == h[hole := v][hole := h[c]][c := v];
  }

  lemma {:induction false} TopIsGreatest<T(!new)>(lt: (T, T) -> bool, h: seq<T>, i: nat)
    requires StrictWeakOrder(lt) && HeapFrom(lt, h, 0) && i < |h|
    ensures !lt(h[0], h[i])
    decreases i
  {
    if i > 0 {
      TopIsGreatest(lt, h, Parent(i));
      assert Under(lt, h, i);
    }
  }

  /** `top` is `i` or an ancestor of it. */
  predicate Descends(i: nat, top: nat) {
    i == top || (i > top && Descends(Parent(i), top))
  }

  // ---------- the algorithms on values ----------

  /** `__push_heap`: `v` rises from the hole, pulling down the smaller ancestors up to `top`. */
  function Rise<T>(lt: (T, T) -> bool, h: seq<T>, hole: nat, top: nat, v: T): (r: seq<T>)
    requires hole < |h|
    ensures |r| == |h|
    decreases hole
  {
    if hole > top && lt(h[Parent(hole)], v) then Rise(lt, h[hole := h[Parent(hole)]], Parent(hole), top,
                                                      v) else h[hole := v]
  }

  lemma {:induction false} RiseKeeps<T>(lt: (T, T) -> bool, h: seq<T>, hole: nat, top: nat, v: T)
    requires hole < |h|
    ensures Keeps(h, hole, v, Rise(lt, h, hole, top, v))
    decreases hole
  {
    if hole > top && lt(h[Parent(hole)], v) {
      var p := Parent(hole);
      RiseKeeps(lt, h[hole := h[p]], p, top, v);
      HoleMoved(h, hole, p, v, Rise(lt, h[hole := h[p]], p, top, v));
    }
  }

  lemma {:induction false} RiseIsHeap<T(!new)>(lt: (T, T) -> bool, h: seq<T>, hole: nat, top: nat, v: T)
    requires StrictWeakOrder(lt) && HeapAround(lt, h, top, hole) && Fits(lt, h, hole, v) && Descends(hole, top)
    ensures HeapFrom(lt, Rise(lt, h, hole, top, v), top)
    decreases hole
  {
    assert hole > top ==> Descends(Parent(hole), top);
    if hole > top && lt(h[Parent(hole)], v) {
      MoveUp(lt, h, top, hole, v);
      RiseIsHeap(lt, h[hole := h[Parent(hole)]], Parent(hole), top, v);
    } else {
      Fill(lt, h, top, hole, v);
    }
  }

  /** The larger child of a node with two. */
  function Larger<T>(lt: (T, T) -> bool, h: seq<T>, second: nat): (c: nat)
    requires 0 < second < |h|
    ensures second - 1 <= c <= second
  {
    if lt(h[second], h[second - 1]) then second - 1 else second
  }

  /** `__adjust_heap`: the hole sinks to a leaf along the larger children, then `v` rises from there. */
  function Adjust<T>(lt: (T, T) -> bool, h: seq<T>, hole: nat, top: nat, v: T): (r: seq<T>)
    requires hole < |h|
    ensures |r| == |h|
    decreases |h| - hole
  {
    var second := 2 * hole + 2;
    if second < |h| then
      var c := Larger(lt, h, second);
      Adjust(lt, h[hole := h[c]], c, top, v)
    else if second == |h| then
      Rise(lt, h[hole := h[second - 1]], second - 1, top, v)
    else
      Rise(lt, h, hole, top, v)
  }

  /** One step down; at the end of the range the hole has one child, or none, and the value rises. */
  lemma AdjustIs<T>(lt: (T, T) -> bool, h: seq<T>, hole: nat, top: nat, v: T)
    requires hole < |h|
    ensures var second := 2 * hole + 2;
            Adjust(lt, h, hole, top, v)
            == if second < |h| then var c := Larger(lt, h, second); Adjust(lt, h[hole := h[c]], c, top, v)
               else if second == |h| then Rise(lt, h[hole := h[second - 1]], second - 1, top, v)
               else Rise(lt, h, hole, top, v)
  {
  }

  lemma {:induction false} AdjustKeeps<T>(lt: (T, T) -> bool, h: seq<T>, hole: nat, top: nat, v: T)
    requires hole < |h|
    ensures Keeps(h, hole, v, Adjust(lt, h, hole, top, v))
    decreases |h| - hole
  {
    var second := 2 * hole + 2;
    AdjustIs(lt, h, hole, top, v);
    if second < |h| {
      var c := Larger(lt, h, second);
      AdjustKeeps(lt, h[hole := h[c]], c, top, v);
      HoleMoved(h, hole, c, v, Adjust(lt, h, hole, top, v));
    } else {
      AdjustKeepsAtEnd(lt, h, hole, top, v);
    }
  }

  lemma AdjustKeepsAtEnd<T>(lt: (T, T) -> bool, h: seq<T>, hole: nat, top: nat, v: T)
    requires hole < |h| <= 2 * hole + 2
    ensures Keeps(h, hole, v, Adjust(lt, h, hole, top, v))
  {
    var last := 2 * hole + 1;
    AdjustIs(lt, h, hole, top, v);
    if last + 1 == |h| {
      RiseKeeps(lt, h[hole := h[last]], last, top, v);
      HoleMoved(h, hole, last, v, Adjust(lt, h, hole, top, v));
    } else {
      RiseKeeps(lt, h, hole, top, v);
    }
  }

  lemma {:induction false} AdjustIsHeap<T(!new)>(lt: (T, T) -> bool, h: seq<T>, hole: nat, top: nat, v: T)
    requires StrictWeakOrder(lt) && HeapAround(lt, h, top, hole) && Descends(hole, top)
    ensures HeapFrom(lt, Adjust(lt, h, hole, top, v), top)
    decreases |h| - hole
  {
    var second := 2 * hole + 2;
    if second < |h| {
      var c := Larger(lt, h, second);
      LargestChild(lt, h, hole);
      MoveDown(lt, h, top, hole, c);
      AdjustIsHeap(lt, h[hole := h[c]], c, top, v);
    } else if second == |h| {
      LargestChild(lt, h, hole);
      MoveDown(lt, h, top, hole, second - 1);
      LeafFits(lt, h[hole := h[second - 1]], second - 1, v);
      RiseIsHeap(lt, h[hole := h[second - 1]], second - 1, top, v);
    } else {
      LeafFits(lt, h, hole, v);
      RiseIsHeap(lt, h, hole, top, v);
    }
  }

  lemma LargestChild<T(!new)>(lt: (T, T) -> bool, h: seq<T>, hole: nat)
    requires StrictWeakOrder(lt) && 2 * hole + 2 <= |h|
    ensures var c := if 2 * hole + 2 == |h| then 2 * hole + 1 else Larger(lt, h, 2 * hole + 2);
            Parent(c) == hole && forall d: nat :: 0 < d < |h| && Parent(d) == hole ==> !lt(h[c], h[d])
  {
    forall d: nat | 0 < d < |h| && Parent(d) == hole ensures d == 2 * hole + 1 || d == 2 * hole + 2 {
    }
  }

  lemma LeafFits<T>(lt: (T, T) -> bool, h: seq<T>, hole: nat, v: T)
    requires |h| <= 2 * hole + 1
    ensures Fits(lt, h, hole, v)
  {
  }

  /** The node `top` is brought in order with the heaps below it. */
  lemma AdjustTop<T(!new)>(lt: (T, T) -> bool, h: seq<T>, top: nat, v: T)
    requires StrictWeakOrder(lt) && top < |h| && HeapFrom(lt, h, top + 1)
    ensures HeapFrom(lt, Adjust(lt, h, top, top, v), top)
            && multiset(Adjust(lt, h, top, top, v)) == multiset(h[top := v])
  {
    AdjustIsHeap(lt, h, top, top, v);
    AdjustKeeps(lt, h, top, top, v);
  }

  /** `__make_heap` from node `parent` up. */
  function Heaped<T>(lt: (T, T) -> bool, h: seq<T>, parent: nat): (r: seq<T>)
    requires parent < |h|
    ensures |r| == |h|
    decreases parent
  {
    var k := Adjust(lt, h, parent, parent, h[parent]);
    if parent == 0 then k else Heaped(lt, k, parent - 1)
  }

  lemma {:induction false} HeapedIsHeap<T(!new)>(lt: (T, T) -> bool, h: seq<T>, parent: nat)
    requires StrictWeakOrder(lt) && parent < |h| && HeapFrom(lt, h, parent + 1)
    ensures HeapFrom(lt, Heaped(lt, h, parent), 0) && multiset(Heaped(lt, h, parent)) == multiset(h)
    decreases parent
  {
    assert h[parent := h[parent]] == h;
    AdjustTop(lt, h, parent, h[parent]);
    if parent > 0 {
      HeapedIsHeap(lt, Adjust(lt, h, parent, parent, h[parent]), parent - 1);
    }
  }

  /** `make_heap`. */
  function MakeHeap<T>(lt: (T, T) -> bool, h: seq<T>): (r: seq<T>)
    ensures |r| == |h|
  {
    if |h| < 2 then h else Heaped(lt, h, (|h| - 2) / 2)
  }

  lemma MakeHeapIsHeap<T(!new)>(lt: (T, T) -> bool, h: seq<T>)
    requires StrictWeakOrder(lt)
    ensures HeapFrom(lt, MakeHeap(lt, h), 0) && multiset(MakeHeap(lt, h)) == multiset(h)
  {
    if |h| >= 2 {
      var p := (|h| - 2) / 2;
      forall c: nat | 0 < c < |h| ensures Parent(c) < p + 1 {
      }
      HeapedIsHeap(lt, h, p);
    }
  }

  /** `pop_heap`: the greatest goes to the end, the element from there enters the heap. */
  function PopHeap<T>(lt: (T, T) -> bool, h: seq<T>): (r: seq<T>)
    requires |h| > 1
    ensures |r| == |h|
  {
    Adjust(lt, h[..|h| - 1], 0, 0, h[|h| - 1]) + [h[0]]
  }

  lemma HeapShorter<T(!new)>(lt: (T, T) -> bool, h: seq<T>, n: nat)
    requires HeapFrom(lt, h, 0) && n <= |h|
    ensures HeapFrom(lt, h[..n], 0)
  {
    forall c: nat | 0 < c < n ensures Under(lt, h[..n], c) {
      assert Under(lt, h, c);
    }
  }

  lemma PopHeapKeeps<T>(lt: (T, T) -> bool, h: seq<T>)
    requires |h| > 1
    ensures multiset(PopHeap(lt, h)) == multiset(h)
  {
    var n := |h| - 1;
    var g, v := h[..n], h[n];
    AdjustKeeps(lt, g, 0, 0, v);
    assert multiset(g[0 := v]) + multiset{h[0]} == multiset(g) + multiset{v};
    assert h == g + [v];
  }

  lemma PopHeapTakesGreatest<T(!new)>(lt: (T, T) -> bool, h: seq<T>)
    requires StrictWeakOrder(lt) && |h| > 1 && HeapFrom(lt, h, 0)
    ensures var r := PopHeap(lt, h);
            HeapFrom(lt, r[..|h| - 1], 0) && multiset(r) == multiset(h) && forall x :: x in r ==> !lt(r[|h| - 1], x)
  {
    var n := |h| - 1;
    var r := PopHeap(lt, h);
    HeapShorter(lt, h, n);
    AdjustTop(lt, h[..n], 0, h[n]);
    assert r[..n] == Adjust(lt, h[..n], 0, 0, h[n]);
    PopHeapKeeps(lt, h);
    forall x | x in r ensures !lt(h[0], x) {
      assert x in multiset(h);
      var i :| 0 <= i < |h| && h[i] == x;
      TopIsGreatest(lt, h, i);
    }
  }

  /** `sort_heap`. */
  function SortHeap<T>(lt: (T, T) -> bool, h: seq<T>): (r: seq<T>)
    ensures |r| == |h|
    decreases |h|
  {
    if |h| <= 1 then h
    else var p := PopHeap(lt, h); SortHeap(lt, p[..|h| - 1]) + [p[|h| - 1]]
  }

  lemma {:induction false} SortHeapKeeps<T>(lt: (T, T) -> bool, h: seq<T>)
    ensures multiset(SortHeap(lt, h)) == multiset(h)
    decreases |h|
  {
    if |h| > 1 {
      var p, n := PopHeap(lt, h), |h| - 1;
      PopHeapKeeps(lt, h);
      SortHeapKeeps(lt, p[..n]);
      assert p == p[..n] + [p[n]];
    }
  }

  lemma {:induction false} SortHeapSorts<T(!new)>(lt: (T, T) -> bool, h: seq<T>)
    requires StrictWeakOrder(lt) && HeapFrom(lt, h, 0)
    ensures Sorted(lt, SortHeap(lt, h))
    decreases |h|
  {
    if |h| > 1 {
      var p, n := PopHeap(lt, h), |h| - 1;
      PopHeapTakesGreatest(lt, h);
      SortHeapSorts(lt, p[..n]);
      SortHeapKeeps(lt, p[..n]);
      var q := SortHeap(lt, p[..n]);
      SameElements(q, p[..n]);
      assert forall x :: x in p[..n] ==> x in p;
      SortedSnoc(lt, q, p[n]);
    }
  }

  lemma SameElements<T>(s: seq<T>, t: seq<T>)
    requires multiset(s) == multiset(t)
    ensures |s| == |t| && forall x :: x in s <==> x in t
  {
    assert |multiset(s)| == |multiset(t)|;
    forall x ensures x in s <==> x in t {
      assert x in s <==> x in multiset(s);
    }
  }

  // ---------- partial_sort ----------

  /** The selection loop of `__partial_sort`: `h` is the heap, `out` what has been passed, `rest` what is to come. */
  function Select<T>(lt: (T, T) -> bool, h: seq<T>, out: seq<T>, rest: seq<T>): (r: (seq<T>, seq<T>))
    requires h != []
    ensures |r.0| == |h| && |r.1| == |out| + |rest|
    decreases |rest|
  {
    if rest == [] then (h, out)
    else if lt(rest[0], h[0]) then Select(lt, Adjust(lt, h, 0, 0, rest[0]), out + [h[0]], rest[1..])
    else Select(lt, h, out + [rest[0]], rest[1..])
  }

  ghost predicate NoneBelow<T>(lt: (T, T) -> bool, out: seq<T>, x: T) {
    forall y :: y in out ==> !lt(y, x)
  }

  lemma SelectOne<T(!new)>(lt: (T, T) -> bool, h: seq<T>, out: seq<T>, x: T)
    requires StrictWeakOrder(lt) && h != [] && HeapFrom(lt, h, 0) && NoneBelow(lt, out, h[0]) && lt(x, h[0])
    ensures HeapFrom(lt, Adjust(lt, h, 0, 0, x), 0) && NoneBelow(lt, out + [h[0]], Adjust(lt, h, 0, 0, x)[0])
  {
    var k := Adjust(lt, h, 0, 0, x);
    AdjustTop(lt, h, 0, x);
    var g := h[0 := x];
    SameElements(k, g);
    assert k[0] in g;
    var i :| 0 <= i < |g| && g[i] == k[0];
    TopIsGreatest(lt, h, i);
    assert !lt(h[0], k[0]);
  }

  lemma {:induction false} SelectKeeps<T>(lt: (T, T) -> bool, h: seq<T>, out: seq<T>, rest: seq<T>)
    requires h != []
    ensures var r := Select(lt, h, out, rest);
            multiset(r.0) + multiset(r.1) == multiset(h) + multiset(out) + multiset(rest)
    decreases |rest|
  {
    if rest != [] {
      assert rest == [rest[0]] + rest[1..];
      if lt(rest[0], h[0]) {
        AdjustKeeps(lt, h, 0, 0, rest[0]);
        assert multiset(h[0 := rest[0]]) + multiset{h[0]} == multiset(h) + multiset{rest[0]};
        SelectKeeps(lt, Adjust(lt, h, 0, 0, rest[0]), out + [h[0]], rest[1..]);
      } else {
        SelectKeeps(lt, h, out + [rest[0]], rest[1..]);
      }
    }
  }

  lemma {:induction false} SelectSmallest<T(!new)>(lt: (T, T) -> bool, h: seq<T>, out: seq<T>, rest: seq<T>)
    requires StrictWeakOrder(lt) && h != [] && HeapFrom(lt, h, 0) && NoneBelow(lt, out, h[0])
    ensures var r := Select(lt, h, out, rest); HeapFrom(lt, r.0, 0) && NoneBelow(lt, r.1, r.0[0])
    decreases |rest|
  {
    if rest != [] {
      if lt(rest[0], h[0]) {
        SelectOne(lt, h, out, rest[0]);
        SelectSmallest(lt, Adjust(lt, h, 0, 0, rest[0]), out + [h[0]], rest[1..]);
      } else {
        assert NoneBelow(lt, out + [rest[0]], h[0]);
        SelectSmallest(lt, h, out + [rest[0]], rest[1..]);
      }
    }
  }

  /**
   `partial_sort` with the first `m` places to be sorted: the sorted part and the others. With no place
   to sort, the loop still keeps the smallest element so far in the first slot.
   */
  function PartialSort<T>(lt: (T, T) -> bool, s: seq<T>, m: nat): (r: (seq<T>, seq<T>))
    requires m <= |s|
    ensures |r.0| == m && |r.0| + |r.1| == |s|
  {
    if s == [] then ([], [])
    else if m == 0 then var w := Select(lt, s[..1], [], s[1..]); ([], w.0 + w.1)
    else var w := Select(lt, MakeHeap(lt, s[..m]), [], s[m..]); (SortHeap(lt, w.0), w.1)
  }

  lemma PartialSortKeeps<T(!new)>(lt: (T, T) -> bool, s: seq<T>, m: nat)
    requires StrictWeakOrder(lt) && m <= |s|
    ensures var r := PartialSort(lt, s, m); multiset(r.0) + multiset(r.1) == multiset(s)
  {
    if s != [] && m == 0 {
      SelectKeeps(lt, s[..1], [], s[1..]);
      assert s == s[..1] + s[1..];
    } else if m > 0 {
      var h := MakeHeap(lt, s[..m]);
      MakeHeapIsHeap(lt, s[..m]);
      SelectKeeps(lt, h, [], s[m..]);
      assert s == s[..m] + s[m..];
      SortHeapKeeps(lt, Select(lt, h, [], s[m..]).0);
    }
  }

  /** The first part of `partial_sort`'s result is sorted, and nothing in the second precedes any of it. */
  lemma PartialSortSorts<T(!new)>(lt: (T, T) -> bool, s: seq<T>, m: nat)
    requires StrictWeakOrder(lt) && m <= |s|
    ensures var r := PartialSort(lt, s, m);
            Sorted(lt, r.0) && forall x, y :: x in r.0 && y in r.1 ==> !lt(y, x)
  {
    if m > 0 {
      var h := MakeHeap(lt, s[..m]);
      MakeHeapIsHeap(lt, s[..m]);
      SelectSmallest(lt, h, [], s[m..]);
      var w := Select(lt, h, [], s[m..]);
      SortHeapSorts(lt, w.0);
      SortHeapKeeps(lt, w.0);
      SameElements(SortHeap(lt, w.0), w.0);
      forall x, y | x in w.0 && y in w.1 ensures !lt(y, x) {
        var i :| 0 <= i < |w.0| && w.0[i] == x;
        TopIsGreatest(lt, w.0, i);
      }
    }
  }
}
