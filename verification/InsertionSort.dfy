/** Insertion sort on a range, guarded and unguarded (headers/cpp/stl_algo.h:1164-1277). */
module InsertionSort {
  import opened Order
  import opened SortOrder
  import opened Ranges

  /**
   `__unguarded_linear_insert`. It looks for no lower end: `pre` is ghost. The first element of the
   range, which `v` does not precede, stops the scan.
   */
  method UnguardedInsert<T(!new)>(lt: (T, T) -> bool, a: array<T>, last0: nat, v: T, ghost pre: seq<T>, ghost s: seq<T>,
                                  ghost open0: T, ghost post: seq<T>)
    requires a[..] == pre + (s + [open0]) + post && |pre| + |s| == last0 && s != [] && !lt(v, s[0])
    modifies a
    ensures a[..] == pre + Insert(lt, s, v) + post
  {
    var last, next := last0, last0 - 1;
    ghost var p, open, q := s, open0, post;
    assert a[..] == pre + (p + [open]) + q;
    var x := Load(a, next, pre, p + [open], q);
    while lt(v, x)
      invariant p != [] && p[0] == s[0] && |pre| + |p| == last == next + 1
      invariant a[..] == pre + (p + [open]) + q && x == p[|p| - 1]
      invariant Insert(lt, p, v) + q == Insert(lt, s, v) + post
      decreases next
    {
      Store(a, last, x, pre, p + [open], q);
      assert (p + [open])[last - |pre| := x] == p + [x];
      ghost var p' := p[..|p| - 1];
      assert pre + (p + [x]) + q == pre + (p' + [x]) + ([x] + q);
      assert Insert(lt, p, v) + q == Insert(lt, p', v) + ([x] + q);
      p, open, q := p', x, [x] + q;
      last := next;
      next := next - 1;
      x := Load(a, next, pre, p + [open], q);
    }
    Store(a, last, v, pre, p + [open], q);
    assert (p + [open])[last - |pre| := v] == p + [v] == Insert(lt, p, v);
    assert pre + Insert(lt, p, v) + q == pre + (Insert(lt, p, v) + q);
    assert pre + (Insert(lt, s, v) + post) == pre + Insert(lt, s, v) + post;
  }

  /** `copy_backward(first, last, last + 1)` (headers/cpp/stl_algobase.h:265-281). */
  method ShiftUp<T>(a: array<T>, lo: nat, last0: nat, ghost pre: seq<T>, ghost s: seq<T>, ghost open0: T,
                    ghost post: seq<T>)
    returns (ghost open: T)
    requires a[..] == pre + (s + [open0]) + post && |pre| == lo && lo + |s| == last0
    modifies a
    ensures a[..] == pre + ([open] + s) + post
  {
    var last := last0;
    ghost var p, q := s, [];
    open := open0;
    assert s + [open0] == p + [open] + q;
    while last != lo
      invariant lo <= last && lo + |p| == last && p + q == s
      invariant a[..] == pre + (p + [open] + q) + post
      decreases last
    {
      var x := Load(a, last - 1, pre, p + [open] + q, post);
      Store(a, last, x, pre, p + [open] + q, post);
      ghost var p' := p[..|p| - 1];
      assert (p + [open] + q)[last - lo := x] == p' + [x] + ([x] + q);
      p, open, q := p', x, [x] + q;
      last := last - 1;
    }
  }

  /** `__linear_insert`: an element smaller than all moves the whole range. */
  method LinearInsert<T(!new)>(lt: (T, T) -> bool, a: array<T>, lo: nat, last: nat, ghost pre: seq<T>, ghost s: seq<T>,
                               ghost v0: T, ghost post: seq<T>)
    requires StrictWeakOrder(lt) && Sorted(lt, s) && s != []
    requires a[..] == pre + (s + [v0]) + post && |pre| == lo && lo + |s| == last
    modifies a
    ensures a[..] == pre + Insert(lt, s, v0) + post
  {
    var v := Load(a, last, pre, s + [v0], post);
    var x := Load(a, lo, pre, s + [v0], post);
    if lt(v, x) {
      ghost var open := ShiftUp(a, lo, last, pre, s, v0, post);
      Store(a, lo, v, pre, [open] + s, post);
      assert ([open] + s)[0 := v] == [v] + s;
      InsertInFront(lt, s, v);
    } else {
      UnguardedInsert(lt, a, last, v, pre, s, v0, post);
    }
  }

  lemma InsertInFront<T(!new)>(lt: (T, T) -> bool, s: seq<T>, v: T)
    requires StrictWeakOrder(lt) && Sorted(lt, s) && s != [] && lt(v, s[0])
    ensures Insert(lt, s, v) == [v] + s
  {
    AllAbove(lt, s, v);
    InsertBelow(lt, [], s, v);
    assert [] + s == s;
    assert Insert(lt, [], v) == [v];
  }

  lemma AllAbove<T(!new)>(lt: (T, T) -> bool, s: seq<T>, v: T)
    requires StrictWeakOrder(lt) && Sorted(lt, s) && s != [] && lt(v, s[0])
    ensures forall x :: x in s ==> lt(v, x)
  {
    forall i | 0 <= i < |s| ensures lt(v, s[i]) {
      assert i == 0 || !lt(s[i], s[0]);
    }
  }

  lemma InsertFirst<T>(lt: (T, T) -> bool, s: seq<T>)
    requires s != []
    ensures InsertAll(lt, [], s) == InsertAll(lt, s[..1], s[1..])
  {
    assert Insert(lt, [], s[0]) == s[..1];
  }

  /** One round of `__insertion_sort`. */
  method InsertNext<T(!new)>(lt: (T, T) -> bool, a: array<T>, lo: nat, i: nat, ghost pre: seq<T>, ghost g: seq<T>,
                             ghost rest: seq<T>, ghost post: seq<T>)
    requires StrictWeakOrder(lt) && Sorted(lt, g) && g != [] && rest != []
    requires a[..] == pre + (g + rest) + post && |pre| == lo && lo + |g| == i
    modifies a
    ensures a[..] == pre + (Insert(lt, g, rest[0]) + rest[1..]) + post
    ensures Sorted(lt, Insert(lt, g, rest[0])) && |Insert(lt, g, rest[0])| == |g| + 1
  {
    assert pre + (g + rest) + post == pre + (g + [rest[0]]) + (rest[1..] + post);
    LinearInsert(lt, a, lo, i, pre, g, rest[0], rest[1..] + post);
    InsertSorts(lt, g, rest[0]);
    InsertLength(lt, g, rest[0]);
    ghost var r := Insert(lt, g, rest[0]);
    assert pre + r + (rest[1..] + post) == pre + (r + rest[1..]) + post;
  }

  /** `__insertion_sort`. */
  method InsertSort<T(!new)>(lt: (T, T) -> bool, a: array<T>, lo: nat, hi: nat, ghost pre: seq<T>, ghost s: seq<T>,
                             ghost post: seq<T>)
    requires StrictWeakOrder(lt) && a[..] == pre + s + post && |pre| == lo <= hi && |s| == hi - lo
    modifies a
    ensures a[..] == pre + InsertAll(lt, [], s) + post
  {
    if lo == hi {
      return;
    }
    ghost var g, rest := s[..1], s[1..];
    var i := lo + 1;
    assert s == g + rest;
    InsertFirst(lt, s);
    while i != hi
      invariant lo < i <= hi && |g| == i - lo && |rest| == hi - i && Sorted(lt, g)
      invariant a[..] == pre + (g + rest) + post && InsertAll(lt, g, rest) == InsertAll(lt, [], s)
      decreases hi - i
    {
      InsertNext(lt, a, lo, i, pre, g, rest, post);
      g, rest := Insert(lt, g, rest[0]), rest[1..];
      i := i + 1;
    }
    assert g + rest == g;
  }

  /** `__unguarded_insertion_sort`: no later element precedes the first of the range. */
  method UnguardedInsertSort<T(!new)>(lt: (T, T) -> bool, a: array<T>, from: nat, hi: nat,
                                      ghost pre: seq<T>, ghost s: seq<T>, ghost rest0: seq<T>, ghost post: seq<T>)
    requires a[..] == pre + (s + rest0) + post && |pre| + |s| == from <= hi && |rest0| == hi - from
    requires s != [] && forall x :: x in rest0 ==> !lt(x, s[0])
    modifies a
    ensures a[..] == pre + InsertAll(lt, s, rest0) + post
  {
    ghost var g, rest := s, rest0;
    var i := from;
    while i != hi
      invariant from <= i <= hi && |pre| + |g| == i && |rest| == hi - i && g != [] && g[0] == s[0]
      invariant forall x :: x in rest ==> !lt(x, s[0])
      invariant a[..] == pre + (g + rest) + post && InsertAll(lt, g, rest) == InsertAll(lt, s, rest0)
      decreases hi - i
    {
      var v := Load(a, i, pre, g + rest, post);
      assert pre + (g + rest) + post == pre + (g + [v]) + (rest[1..] + post);
      UnguardedInsert(lt, a, i, v, pre, g, v, rest[1..] + post);
      InsertBehind(lt, g, v);
      InsertLength(lt, g, v);
      g, rest := Insert(lt, g, v), rest[1..];
      assert pre + g + (rest + post) == pre + (g + rest) + post;
      i := i + 1;
    }
    assert g + rest == g;
  }
}
