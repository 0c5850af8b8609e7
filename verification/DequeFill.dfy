/**
 Writing the storage next to the elements of a deque (headers/cpp/stl_deque.h:895-910, 966-981, 1339-1392, 1576-1614).
 */
module DequeFill {
  import opened DequePlace
  import opened DequeNodes

  function Repeat<T>(x: T, n: nat): seq<T> {
    seq(n, _ => x)
  }

  /**
   The `n` places from `p` on are in the slots from `lo` to `hi`, all before the place `s` or all behind the places up
   to `f`.
   */
  predicate Beside(b: nat, lo: int, hi: int, s: int, f: int, p: int, n: nat) {
    lo * b <= p && p + n <= (hi + 1) * b && (p + n <= s || f <= p)
  }

  /** The storage is exactly the elements, at their places, and the values written so far, from place `p` up to `e`. */
  ghost predicate Filling<T>(slots: seq<nat>, b: nat, lo: int, hi: int, s: int, f: int, store: Store<T>, elems: seq<T>,
                             p: int, e: int, vals: seq<T>) {
    && Spans(b, lo, hi, s, f) && 0 <= lo <= hi < |slots| && |elems| == f - s && |vals| == e - p
       && Beside(b, lo, hi, s, f, p, |vals|)
    && (forall q :: s <= q < f ==> HoldsAt(slots, b, lo, hi, s, f, store, elems, q))
    && (forall q :: p <= q < e ==> HoldsAt(slots, b, lo, hi, p, e, store, vals, q))
    && (forall c :: c in store ==> exists q :: (s <= q < f || p <= q < e) && IsAt(slots, b, lo, hi, q, c))
  }

  lemma Unfilled<T>(slots: seq<nat>, b: nat, lo: int, hi: int, s: int, f: int, store: Store<T>, elems: seq<T>, p: int)
    requires Holds(slots, b, lo, hi, s, f, store, elems) && Beside(b, lo, hi, s, f, p, 0)
    ensures Filling(slots, b, lo, hi, s, f, store, elems, p, p, [])
  {
    forall c | c in store ensures exists q :: (s <= q < f || p <= q < p) && IsAt(slots, b, lo, hi, q, c) {
      var q :| s <= q < f && IsAt(slots, b, lo, hi, q, c);
    }
  }

  /** One more value is written. */
  lemma Filled<T>(slots: seq<nat>, b: nat, lo: int, hi: int, s: int, f: int, store: Store<T>, elems: seq<T>, p: int,
                  e: int, vals: seq<T>, x: T)
    requires Nodes(slots, lo, hi) && Filling(slots, b, lo, hi, s, f, store, elems, p, e, vals)
             && Beside(b, lo, hi, s, f, p, |vals| + 1)
    ensures 0 <= e / b < |slots| && Filling(slots, b, lo, hi, s, f, store[CellAt(slots, b, e) := x], elems, p, e + 1,
                                            vals + [x])
  {
    var vals' := vals + [x];
    SlotOf(b, lo, hi, e);
    var store', g := store[CellAt(slots, b, e) := x], e + 1;
    forall q | s <= q < f ensures HoldsAt(slots, b, lo, hi, s, f, store', elems, q) {
      OneCell(slots, b, lo, hi, q, e);
      assert HoldsAt(slots, b, lo, hi, s, f, store, elems, q);
    }
    forall q | p <= q < g ensures HoldsAt(slots, b, lo, hi, p, g, store', vals', q) {
      OneCell(slots, b, lo, hi, q, e);
      if q < e {
        assert HoldsAt(slots, b, lo, hi, p, e, store, vals, q);
      }
    }
    forall c | c in store' ensures exists q :: (s <= q < f || p <= q < g) && IsAt(slots, b, lo, hi, q, c) {
      if c == CellAt(slots, b, e) {
        assert IsAt(slots, b, lo, hi, e, c);
      } else {
        var q :| (s <= q < f || p <= q < e) && IsAt(slots, b, lo, hi, q, c);
      }
    }
  }

  /** Values that reach up to the first element have become elements. */
  lemma FilledFront<T>(slots: seq<nat>, b: nat, lo: int, hi: int, s: int, f: int, store: Store<T>, elems: seq<T>,
                       p: int, vals: seq<T>)
    requires Filling(slots, b, lo, hi, s, f, store, elems, p, s, vals)
    ensures Holds(slots, b, lo, hi, p, f, store, vals + elems)
  {
    var all := vals + elems;
    forall q | p <= q < f ensures HoldsAt(slots, b, lo, hi, p, f, store, all, q) {
      if q < s {
        assert HoldsAt(slots, b, lo, hi, p, s, store, vals, q);
      } else {
        assert HoldsAt(slots, b, lo, hi, s, f, store, elems, q);
      }
    }
    forall c | c in store ensures exists q :: p <= q < f && IsAt(slots, b, lo, hi, q, c) {
      var q :| (s <= q < f || p <= q < s) && IsAt(slots, b, lo, hi, q, c);
    }
  }

  /** Values from behind the last element on have become elements. */
  lemma FilledBack<T>(slots: seq<nat>, b: nat, lo: int, hi: int, s: int, f: int, store: Store<T>, elems: seq<T>,
                      vals: seq<T>)
    requires Filling(slots, b, lo, hi, s, f, store, elems, f, f + |vals|, vals) && f + |vals| < (hi + 1) * b
    ensures Holds(slots, b, lo, hi, s, f + |vals|, store, elems + vals)
  {
    var all, g := elems + vals, f + |vals|;
    forall q | s <= q < g ensures HoldsAt(slots, b, lo, hi, s, g, store, all, q) {
      if q < f {
        assert HoldsAt(slots, b, lo, hi, s, f, store, elems, q);
      } else {
        assert HoldsAt(slots, b, lo, hi, f, g, store, vals, q);
      }
    }
    forall c | c in store ensures exists q :: s <= q < g && IsAt(slots, b, lo, hi, q, c) {
      var q :| (s <= q < f || f <= q < g) && IsAt(slots, b, lo, hi, q, c);
    }
  }

  // ---------- storage given up ----------

  /** Some elements at an end are about to be destroyed: `n` at the front, or all but `n`. */
  lemma SplitFront<T>(slots: seq<nat>, b: nat, lo: int, hi: int, s: int, f: int, store: Store<T>, elems: seq<T>, n: nat)
    requires Holds(slots, b, lo, hi, s, f, store, elems) && n <= |elems|
    ensures Filling(slots, b, lo, hi, s + n, f, store, elems[n..], s, s + n, elems[..n])
  {
    var m, rest, gone := s + n, elems[n..], elems[..n];
    forall q | m <= q < f ensures HoldsAt(slots, b, lo, hi, m, f, store, rest, q) {
      assert HoldsAt(slots, b, lo, hi, s, f, store, elems, q);
    }
    forall q | s <= q < m ensures HoldsAt(slots, b, lo, hi, s, m, store, gone, q) {
      assert HoldsAt(slots, b, lo, hi, s, f, store, elems, q);
    }
    forall c | c in store ensures exists q :: (m <= q < f || s <= q < m) && IsAt(slots, b, lo, hi, q, c) {
      var q :| s <= q < f && IsAt(slots, b, lo, hi, q, c);
    }
  }

  lemma SplitBack<T>(slots: seq<nat>, b: nat, lo: int, hi: int, s: int, f: int, store: Store<T>, elems: seq<T>, n: nat)
    requires Holds(slots, b, lo, hi, s, f, store, elems) && n <= |elems|
    ensures Filling(slots, b, lo, hi, s, s + n, store, elems[..n], s + n, f, elems[n..])
  {
    var m, rest, gone := s + n, elems[..n], elems[n..];
    forall q | s <= q < m ensures HoldsAt(slots, b, lo, hi, s, m, store, rest, q) {
      assert HoldsAt(slots, b, lo, hi, s, f, store, elems, q);
    }
    forall q | m <= q < f ensures HoldsAt(slots, b, lo, hi, m, f, store, gone, q) {
      assert HoldsAt(slots, b, lo, hi, s, f, store, elems, q);
    }
    forall c | c in store ensures exists q :: (s <= q < m || m <= q < f) && IsAt(slots, b, lo, hi, q, c) {
      var q :| s <= q < f && IsAt(slots, b, lo, hi, q, c);
    }
  }

  /** The first of the values beside the elements is destroyed. */
  lemma Destroyed<T>(slots: seq<nat>, b: nat, lo: int, hi: int, s: int, f: int, store: Store<T>, elems: seq<T>, p: int,
                     e: int, vals: seq<T>)
    requires Nodes(slots, lo, hi) && Filling(slots, b, lo, hi, s, f, store, elems, p, e, vals) && p < e
    ensures 0 <= p / b < |slots| && Filling(slots, b, lo, hi, s, f, store - {CellAt(slots, b, p)}, elems, p + 1, e,
                                            vals[1..])
  {
    SlotOf(b, lo, hi, p);
    var store', p', vals' := store - {CellAt(slots, b, p)}, p + 1, vals[1..];
    forall q | s <= q < f ensures HoldsAt(slots, b, lo, hi, s, f, store', elems, q) {
      OneCell(slots, b, lo, hi, q, p);
      assert HoldsAt(slots, b, lo, hi, s, f, store, elems, q);
    }
    forall q | p' <= q < e ensures HoldsAt(slots, b, lo, hi, p', e, store', vals', q) {
      OneCell(slots, b, lo, hi, q, p);
      assert HoldsAt(slots, b, lo, hi, p, e, store, vals, q);
    }
    forall c | c in store' ensures exists q :: (s <= q < f || p' <= q < e) && IsAt(slots, b, lo, hi, q, c) {
      var q :| (s <= q < f || p <= q < e) && IsAt(slots, b, lo, hi, q, c);
      assert q != p;
    }
  }

  lemma AllDestroyed<T>(slots: seq<nat>, b: nat, lo: int, hi: int, s: int, f: int, store: Store<T>, elems: seq<T>,
                        p: int)
    requires Filling(slots, b, lo, hi, s, f, store, elems, p, p, [])
    ensures Holds(slots, b, lo, hi, s, f, store, elems)
  {
    forall c | c in store ensures exists q :: s <= q < f && IsAt(slots, b, lo, hi, q, c) {
      var q :| (s <= q < f || p <= q < p) && IsAt(slots, b, lo, hi, q, c);
    }
  }

  /** Nodes at the back are given back. */
  lemma NodesGone(slots: seq<nat>, lo: int, hi: int, live: set<nat>, unused: nat, hi': int)
    requires Nodes(slots, lo, hi) && Allocated(slots, lo, hi, live, unused) && lo <= hi' <= hi
    ensures Nodes(slots, lo, hi') && Allocated(slots, lo, hi', live - NodesIn(slots, hi' + 1, hi + 1), unused)
  {
    var live' := live - NodesIn(slots, hi' + 1, hi + 1);
    forall n | n in live' ensures n < unused && n in slots[lo..hi' + 1] {
      var i :| 0 <= i < |slots[lo..hi + 1]| && slots[lo..hi + 1][i] == n;
      var k := lo + i;
      assert slots[k] == n && slots[lo..hi' + 1][i] == n;
    }
  }

  ghost function NodesIn(slots: seq<nat>, from: int, to: int): set<nat>
    requires 0 <= from && to <= |slots|
  {
    set k | from <= k < to :: slots[k]
  }

  lemma NoNodesIn(slots: seq<nat>, from: nat, to: nat)
    requires from <= |slots| && to <= |slots|
    ensures to <= from ==> NodesIn(slots, from, to) == {}
  {
  }

  lemma NodesInNext(slots: seq<nat>, from: nat, k: nat)
    requires from <= k < |slots|
    ensures NodesIn(slots, from, k + 1) == NodesIn(slots, from, k) + {slots[k]}
  {
  }

  /** A first node that was not given back is one too many. */
  lemma NodeLeft(slots: seq<nat>, lo: int, hi: int, live: set<nat>, unused: nat, lo': int)
    requires Nodes(slots, lo, hi) && Allocated(slots, lo, hi, live, unused) && lo <= lo' <= hi
    ensures Nodes(slots, lo', hi) && (Allocated(slots, lo', hi, live, unused) <==> lo' == lo)
  {
    if lo < lo' {
      assert slots[lo] in live && slots[lo] !in slots[lo'..hi + 1];
    }
  }

  /** Nodes for `m` elements that find no vacancy. */
  function NewNodes(b: nat, m: int): int
    requires b > 0
  {
    if m > 0 then (m + b - 1) / b else 0
  }

  /** `_M_new_elements_at_front` allocates as many nodes as the new places reach beyond those in use. */
  lemma NodesBefore(b: nat, start: Iter, n: int)
    requires b > 0 && n >= 0 && InNode(b, start)
    ensures Add(b, start, -n).node == start.node - NewNodes(b, n - start.cur)
  {
    AddIsShift(b, start, -n);
    if n > start.cur {
      var m := n - start.cur + b - 1;
      var k := m / b;
      assert m == k * b + m % b;
      Expand(start.node, k, b);
      OnePlace(b, Add(b, start, -n), Iter(start.node - k, b - 1 - m % b));
    } else {
      OnePlace(b, Add(b, start, -n), Iter(start.node, start.cur - n));
    }
  }

  /** And so does `_M_new_elements_at_back`, where the last place of the last node must stay vacant. */
  lemma NodesBehind(b: nat, finish: Iter, n: int)
    requires b > 0 && n >= 0 && InNode(b, finish)
    ensures Add(b, finish, n).node == finish.node + NewNodes(b, n - (b - finish.cur - 1))
  {
    AddIsShift(b, finish, n);
    if n > b - finish.cur - 1 {
      var m := n + finish.cur;
      var k := m / b;
      assert m == k * b + m % b;
      Expand(finish.node, k, b);
      OnePlace(b, Add(b, finish, n), Iter(finish.node + k, m % b));
    } else {
      OnePlace(b, Add(b, finish, n), Iter(finish.node, finish.cur + n));
    }
  }

  // ---------- what the loops over elements do ----------

  /** `k` elements up to `j` have been copied up to the places before `r`. */
  ghost predicate Upped<T>(was: seq<T>, j: nat, r: nat, k: nat, now: seq<T>) {
    k <= j <= r <= |was| && now == was[..r - k] + was[j - k..j] + was[r..]
  }

  lemma UpOne<T>(was: seq<T>, j: nat, r: nat, k: nat, mid: seq<T>, now: seq<T>)
    requires Upped(was, j, r, k, mid) && k < j && |mid| == |was| && now == mid[r - k - 1 := mid[j - k - 1]]
    ensures Upped(was, j, r, k + 1, now)
  {
    assert was[j - k - 1..j] == [was[j - k - 1]] + was[j - k..j] && was[..r - k] == was[..r - k - 1] + [was[r - k - 1]];
  }

  /** `k` elements from `i` on have been copied down to `r`. */
  ghost predicate Downed<T>(was: seq<T>, i: nat, r: nat, k: nat, now: seq<T>) {
    r <= i && i + k <= |was| && now == was[..r] + was[i..i + k] + was[r + k..]
  }

  lemma DownOne<T>(was: seq<T>, i: nat, r: nat, k: nat, mid: seq<T>, now: seq<T>)
    requires Downed(was, i, r, k, mid) && i + k < |was| == |mid| && now == mid[r + k := mid[i + k]]
    ensures Downed(was, i, r, k + 1, now)
  {
    assert was[i..i + k + 1] == was[i..i + k] + [was[i + k]] && was[r + k..] == [was[r + k]] + was[r + k + 1..];
  }

  /** The elements from `i` up to `j` have been assigned `x`. */
  ghost predicate Overwritten<T>(was: seq<T>, i: nat, j: nat, x: T, now: seq<T>) {
    i <= j <= |was| && now == was[..i] + Repeat(x, j - i) + was[j..]
  }

  lemma OverwriteOne<T>(was: seq<T>, i: nat, j: nat, x: T, now: seq<T>)
    requires Overwritten(was, i, j, x, now) && j < |was|
    ensures |now| == |was| && Overwritten(was, i, j + 1, x, now[j := x])
  {
    assert Repeat(x, j + 1 - i) == Repeat(x, j - i) + [x] && was[j..] == [was[j]] + was[j + 1..];
  }

  // ---------- what the four ways of making room come to ----------

  lemma FrontShifted<T>(was: seq<T>, k: nat, n: nat, x: T, c: seq<T>, now: seq<T>)
    requires n <= k <= |was| && Downed(was[..n] + was, 2 * n, n, k - n, c) && Overwritten(c, k, k + n, x, now)
    ensures now == was[..k] + Repeat(x, n) + was[k..]
  {
    assert c[..k] == was[..k] && c[k + n..] == was[k..];
  }

  lemma FrontFilled<T>(was: seq<T>, k: nat, n: nat, x: T, now: seq<T>)
    requires k < n && k <= |was| && Overwritten(was[..k] + Repeat(x, n - k) + was, n, k + n, x, now)
    ensures now == was[..k] + Repeat(x, n) + was[k..]
  {
  }

  lemma BackShifted<T>(was: seq<T>, k: nat, n: nat, x: T, c: seq<T>, now: seq<T>)
    requires k + n <= |was| && Upped(was + was[|was| - n..], |was| - n, |was|, |was| - n - k, c)
             && Overwritten(c, k, k + n, x, now)
    ensures now == was[..k] + Repeat(x, n) + was[k..]
  {
    assert c[..k] == was[..k] && c[k + n..] == was[k..];
  }

  lemma BackFilled<T>(was: seq<T>, k: nat, n: nat, x: T, now: seq<T>)
    requires k <= |was| <= k + n && Overwritten(was + (Repeat(x, k + n - |was|) + was[k..]), k, |was|, x, now)
    ensures now == was[..k] + Repeat(x, n) + was[k..]
  {
  }
}
