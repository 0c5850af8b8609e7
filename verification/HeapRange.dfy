/** The heap algorithms on a range of an array (headers/cpp/stl_heap.h:72-269; headers/cpp/stl_algo.h:1578-1586). */
module HeapRange {
  import opened Ranges
  import opened Heap

  /** `__push_heap`. */
  method PushHeap<T>(lt: (T, T) -> bool, a: array<T>, lo: nat, hole0: nat, top: nat, v: T,
                     ghost pre: seq<T>, ghost h0: seq<T>, ghost post: seq<T>)
    requires a[..] == pre + h0 + post && |pre| == lo && hole0 < |h0|
    modifies a
    ensures a[..] == pre + Rise(lt, h0, hole0, top, v) + post
  {
    var hole := hole0;
    var parent := if hole == 0 then 0 else (hole - 1) / 2;
    ghost var h := h0;
    while hole > top
      invariant 0 <= hole < |h| && parent == (if hole == 0 then 0 else (hole - 1) / 2)
      invariant a[..] == pre + h + post && Rise(lt, h, hole, top, v) == Rise(lt, h0, hole0, top, v)
      decreases hole
    {
      var p := Load(a, lo + parent, pre, h, post);
      if !lt(p, v) {
        break;
      }
      Store(a, lo + hole, p, pre, h, post);
      h := h[hole := p];
      hole := parent;
      parent := if hole == 0 then 0 else (hole - 1) / 2;
    }
    Store(a, lo + hole, v, pre, h, post);
  }

  /** The loop of `__adjust_heap`: the hole sinks while it has two children. */
  method Sink<T>(lt: (T, T) -> bool, a: array<T>, lo: nat, top: nat, len: nat, ghost v: T,
                 ghost pre: seq<T>, ghost h0: seq<T>, ghost post: seq<T>) returns (hole: nat, ghost h: seq<T>)
    requires a[..] == pre + h0 + post && |pre| == lo && |h0| == len && top < len
    modifies a
    ensures a[..] == pre + h + post && |h| == len && hole < len <= 2 * hole + 2
    ensures Adjust(lt, h, hole, top, v) == Adjust(lt, h0, top, top, v)
  {
    hole, h := top, h0;
    var second: nat := 2 * hole + 2;
    while second < len
      invariant hole < len == |h| && second == 2 * hole + 2
      invariant a[..] == pre + h + post && Adjust(lt, h, hole, top, v) == Adjust(lt, h0, top, top, v)
      decreases len - hole
    {
      hole, h := SinkOne(lt, a, lo, hole, second, pre, h, post);
      second := 2 * (hole + 1);
    }
  }

  /** The larger child moves up into the hole. */
  method SinkOne<T>(lt: (T, T) -> bool, a: array<T>, lo: nat, hole: nat, second0: nat,
                    ghost pre: seq<T>, ghost h0: seq<T>, ghost post: seq<T>) returns (second: nat, ghost h: seq<T>)
    requires a[..] == pre + h0 + post && |pre| == lo && hole < |h0| && 0 < second0 < |h0|
    modifies a
    ensures second == Larger(lt, h0, second0) && h == h0[hole := h0[second]] && a[..] == pre + h + post
  {
    second := second0;
    var x := Load(a, lo + second, pre, h0, post);
    var y := Load(a, lo + (second - 1), pre, h0, post);
    if lt(x, y) {
      second := second - 1;
      x := y;
    }
    Store(a, lo + hole, x, pre, h0, post);
    h := h0[hole := x];
  }

  /** `__adjust_heap`. */
  method AdjustHeap<T>(lt: (T, T) -> bool, a: array<T>, lo: nat, top: nat, len: nat, v: T,
                       ghost pre: seq<T>, ghost h0: seq<T>, ghost post: seq<T>)
    requires a[..] == pre + h0 + post && |pre| == lo && |h0| == len && top < len
    modifies a
    ensures a[..] == pre + Adjust(lt, h0, top, top, v) + post
  {
    var hole, h := Sink(lt, a, lo, top, len, v, pre, h0, post);
    if 2 * hole + 2 == len {
      var x := Load(a, lo + (len - 1), pre, h, post);
      Store(a, lo + hole, x, pre, h, post);
      h := h[hole := x];
      hole := len - 1;
    }
    PushHeap(lt, a, lo, hole, top, v, pre, h, post);
  }

  /** `__make_heap`. */
  method MakeHeapOf<T>(lt: (T, T) -> bool, a: array<T>, lo: nat, hi: nat, ghost pre: seq<T>, ghost h0: seq<T>,
                       ghost post: seq<T>)
    requires a[..] == pre + h0 + post && |pre| == lo <= hi && |h0| == hi - lo
    modifies a
    ensures a[..] == pre + MakeHeap(lt, h0) + post
  {
    if hi - lo < 2 {
      return;
    }
    var len := hi - lo;
    var parent: nat := (len - 2) / 2;
    ghost var h := h0;
    while true
      invariant parent < len == |h|
      invariant a[..] == pre + h + post && Heaped(lt, h, parent) == MakeHeap(lt, h0)
      decreases parent
    {
      var x := Load(a, lo + parent, pre, h, post);
      AdjustHeap(lt, a, lo, parent, len, x, pre, h, post);
      h := Adjust(lt, h, parent, parent, x);
      if parent == 0 {
        return;
      }
      parent := parent - 1;
    }
  }

  /**
   `__pop_heap`: the first of the heap goes to the slot `result` between `out` and `rest`, whose content enters the
   heap.
   */
  method PopHeapTo<T>(lt: (T, T) -> bool, a: array<T>, lo: nat, mid: nat, result: nat, v: T,
                      ghost pre: seq<T>, ghost h: seq<T>, ghost out: seq<T>, ghost rest: seq<T>)
    requires a[..] == pre + h + (out + [v] + rest) && |pre| == lo < mid && |h| == mid - lo && result == mid + |out|
    modifies a
    ensures a[..] == pre + Adjust(lt, h, 0, 0, v) + (out + [h[0]] + rest)
  {
    var x := Load(a, lo, pre, h, out + [v] + rest);
    assert pre + h + (out + [v] + rest) == (pre + h) + (out + [v] + rest) + [];
    Store(a, result, x, pre + h, out + [v] + rest, []);
    assert (out + [v] + rest)[|out| := x] == out + [x] + rest;
    assert (pre + h) + (out + [x] + rest) + [] == pre + h + (out + [x] + rest);
    AdjustHeap(lt, a, lo, 0, mid - lo, v, pre, h, out + [x] + rest);
  }

  /** `pop_heap`. */
  method PopLast<T>(lt: (T, T) -> bool, a: array<T>, lo: nat, last: nat, ghost pre: seq<T>, ghost h: seq<T>,
                    ghost done: seq<T>)
    requires a[..] == pre + h + done && |pre| == lo && lo + 1 < last && |h| == last - lo
    modifies a
    ensures a[..] == pre + Adjust(lt, h[..|h| - 1], 0, 0, h[|h| - 1]) + ([h[0]] + done)
  {
    ghost var n := |h| - 1;
    var v := Load(a, last - 1, pre, h, done);
    assert pre + h + done == pre + h[..n] + ([] + [v] + done);
    PopHeapTo(lt, a, lo, last - 1, last - 1, v, pre, h[..n], [], done);
    assert [] + [h[..n][0]] + done == [h[0]] + done;
  }

  lemma SortHeapStep<T>(lt: (T, T) -> bool, h: seq<T>, done: seq<T>)
    requires |h| > 1
    ensures var n := |h| - 1;
            SortHeap(lt, h) + done == SortHeap(lt, Adjust(lt, h[..n], 0, 0, h[n])) + ([h[0]] + done)
  {
    var p, n := PopHeap(lt, h), |h| - 1;
    assert p[..n] == Adjust(lt, h[..n], 0, 0, h[n]);
  }

  /** `sort_heap`. */
  method SortHeapOf<T>(lt: (T, T) -> bool, a: array<T>, lo: nat, hi: nat, ghost pre: seq<T>, ghost h0: seq<T>,
                       ghost post: seq<T>)
    requires a[..] == pre + h0 + post && |pre| == lo <= hi && |h0| == hi - lo
    modifies a
    ensures a[..] == pre + SortHeap(lt, h0) + post
  {
    var last := hi;
    ghost var h, done, result := h0, post, SortHeap(lt, h0) + post;
    while last - lo > 1
      invariant lo <= last <= hi && |h| == last - lo
      invariant a[..] == pre + h + done && SortHeap(lt, h) + done == result
      decreases last
    {
      PopLast(lt, a, lo, last, pre, h, done);
      SortHeapStep(lt, h, done);
      h, done := Adjust(lt, h[..|h| - 1], 0, 0, h[|h| - 1]), [h[0]] + done;
      last := last - 1;
    }
    assert pre + (SortHeap(lt, h0) + post) == pre + SortHeap(lt, h0) + post;
    assert pre + (SortHeap(lt, h) + done) == pre + h + done;
  }

  /** The selection loop of `__partial_sort`. */
  method SelectInto<T>(lt: (T, T) -> bool, a: array<T>, lo: nat, mid: nat, hi: nat,
                       ghost pre: seq<T>, ghost h0: seq<T>, ghost rest0: seq<T>, ghost post: seq<T>)
    requires a[..] == pre + h0 + ([] + rest0 + post) && |pre| == lo < mid <= hi && |h0| == mid - lo
             && |rest0| == hi - mid
    modifies a
    ensures var r := Select(lt, h0, [], rest0); a[..] == pre + r.0 + (r.1 + [] + post)
  {
    ghost var h, out, rest := h0, [], rest0;
    for i := mid to hi
      invariant |h| == mid - lo && |out| == i - mid && |rest| == hi - i
      invariant a[..] == pre + h + (out + rest + post) && Select(lt, h, out, rest) == Select(lt, h0, [], rest0)
    {
      ghost var tail := rest[1..] + post;
      var v := Load(a, i, pre + h + out, rest, post) by {
        assert pre + h + (out + rest + post) == pre + h + out + rest + post;
      }
      assert out + rest + post == out + [v] + tail;
      var top := Load(a, lo, pre, h, out + rest + post);
      if lt(v, top) {
        PopHeapTo(lt, a, lo, mid, i, v, pre, h, out, tail);
        h, out := Adjust(lt, h, 0, 0, v), out + [top];
        assert out + tail == out + rest[1..] + post;
      } else {
        out := out + [v];
        assert out + tail == out + rest[1..] + post;
      }
      rest := rest[1..];
    }
  }

  /** `partial_sort`. */
  method PartialSortOf<T>(lt: (T, T) -> bool, a: array<T>, lo: nat, mid: nat, hi: nat,
                          ghost pre: seq<T>, ghost s: seq<T>, ghost post: seq<T>)
    requires a[..] == pre + s + post && |pre| == lo <= mid <= hi && |s| == hi - lo
    modifies a
    ensures var r := PartialSort(lt, s, mid - lo); a[..] == pre + r.0 + (r.1 + post)
  {
    ghost var m := mid - lo;
    assert pre + s + post == pre + s[..m] + (s[m..] + post);
    MakeHeapOf(lt, a, lo, mid, pre, s[..m], s[m..] + post);
    if lo == hi {
      return;
    }
    if lo == mid {
      // An empty heap still has its first slot as the hole.
      assert s[..0] == [] && s[0..] == s;
      assert pre + [] + (s + post) == pre + s[..1] + ([] + s[1..] + post);
      SelectInto(lt, a, lo, lo + 1, hi, pre, s[..1], s[1..], post);
      ghost var w := Select(lt, s[..1], [], s[1..]);
      assert pre + w.0 + (w.1 + [] + post) == pre + [] + (w.0 + w.1 + post);
    } else {
      ghost var h := MakeHeap(lt, s[..m]);
      assert [] + s[m..] + post == s[m..] + post;
      SelectInto(lt, a, lo, mid, hi, pre, h, s[m..], post);
      ghost var w := Select(lt, h, [], s[m..]);
      assert w.1 + [] + post == w.1 + post;
      SortHeapOf(lt, a, lo, mid, pre, w.0, w.1 + post);
    }
  }
}
