/** `deque` (headers/cpp/stl_deque.h). */
module Deques {
  import opened Basics
  import opened DequePlace
  import opened DequeNodes
  import opened DequeFill

  const INITIAL_MAP_SIZE: nat := 8

  /** `_M_reallocate_map`: where the first node goes, and the size of the map. */
  function NewStart(mapSize: nat, nodes: nat, add: nat, front: bool): int {
    (mapSize - (nodes + add)) / 2 + (if front then add else 0)
  }

  function NewMapSize(mapSize: nat, nodes: nat, add: nat): nat {
    if mapSize > 2 * (nodes + add) then mapSize else mapSize + Max(mapSize, add) + 2
  }

  /**
   The nodes in the slots from `lo` to `hi` are allocated, and the elements are in them, from `start` up to `finish`.
   */
  ghost predicate Laid<T>(b: nat, slots: seq<nat>, lo: int, hi: int, live: set<nat>, unused: nat, start: Iter,
                          finish: Iter, store: Store<T>, elems: seq<T>) {
    && b > 0 && InNode(b, start) && InNode(b, finish)
    && Nodes(slots, lo, hi) && Allocated(slots, lo, hi, live, unused)
    && Holds(slots, b, lo, hi, Place(b, start), Place(b, finish), store, elems)
  }

  /** Everything moves by `d` slots, the iterators with it. */
  lemma MovedIters<T>(b: nat, slots: seq<nat>, live: set<nat>, unused: nat, start: Iter, finish: Iter, store: Store<T>,
                      elems: seq<T>, m: seq<nat>, d: int)
    requires Laid(b, slots, start.node, finish.node, live, unused, start, finish, store, elems)
    requires Carried(slots, start.node, finish.node, m, d)
    ensures var s, f := Iter(start.node + d, start.cur), Iter(finish.node + d, finish.cur);
            Laid(b, m, s.node, f.node, live, unused, s, f, store, elems)
  {
    var s, f := Iter(start.node + d, start.cur), Iter(finish.node + d, finish.cur);
    NodesMoved(slots, start.node, finish.node, live, unused, m, d);
    Expand(start.node, d, b);
    Expand(finish.node, d, b);
    assert Place(b, s) == Place(b, start) + d * b && Place(b, f) == Place(b, finish) + d * b;
    Moved(slots, b, start.node, finish.node, Place(b, start), Place(b, finish), store, elems, m, d);
    assert Holds(m, b, s.node, f.node, Place(b, s), Place(b, f), store, elems);
  }

  /** A node more at either end. */
  lemma MoreNodes<T>(slots: seq<nat>, b: nat, lo: int, hi: int, s: int, f: int, store: Store<T>, elems: seq<T>, n: nat)
    requires Holds(slots, b, lo, hi, s, f, store, elems)
    ensures hi + 1 < |slots| ==> Holds(slots[hi + 1 := n], b, lo, hi + 1, s, f, store, elems)
    ensures 0 < lo ==> Holds(slots[lo - 1 := n], b, lo - 1, hi, s, f, store, elems)
  {
    Expand(hi + 1, 1, b);
    Expand(lo, 1, b);
    if hi + 1 < |slots| {
      Refitted(slots, b, lo, hi, s, f, store, elems, slots[hi + 1 := n], lo, hi + 1);
    }
    if 0 < lo {
      Refitted(slots, b, lo, hi, s, f, store, elems, slots[lo - 1 := n], lo - 1, hi);
    }
  }

  /** The last node has no elements: the places end in the node before it. */
  lemma LeftNode<T>(slots: seq<nat>, b: nat, start: Iter, finish: Iter, store: Store<T>, elems: seq<T>)
    requires b > 0 && InNode(b, start) && finish.cur == 0 && start.node < finish.node
    requires Holds(slots, b, start.node, finish.node, Place(b, start), Place(b, finish) - 1, store, elems)
    ensures var f := Iter(finish.node - 1, b - 1); Holds(slots, b, start.node, f.node, Place(b, start), Place(b, f),
                                                         store, elems)
  {
    Expand(finish.node, 1, b);
    Expand(finish.node - 1, 1, b);
    Refitted(slots, b, start.node, finish.node, Place(b, start), Place(b, finish) - 1, store, elems, slots, start.node,
             finish.node - 1);
  }

  /** Wherever the nodes go, there is room on the side that asked for it. */
  lemma RoomForNodes(mapSize: nat, nodes: nat, add: nat, front: bool)
    requires 0 < nodes <= mapSize
    ensures var n := NewMapSize(mapSize, nodes, add); var at := NewStart(n, nodes, add, front);
            0 <= at && at + nodes <= n && (if front then at >= add else at + nodes + add <= n)
  {
  }

  class Deque<T> {
    const b: nat
    var slots: seq<nat>
    var store: Store<T>
    var start: Iter
    var finish: Iter
    var live: set<nat>
    var unused: nat
    ghost var elems: seq<T>

    ghost predicate Valid()
      reads this
    {
      Wide(start.node, finish.node)
    }

    /** The class invariant, but with the nodes in the slots from `lo` to `hi` allocated. */
    ghost predicate Wide(lo: int, hi: int)
      reads this
    {
      Laid(b, slots, lo, hi, live, unused, start, finish, store, elems)
    }

    /** An empty deque with one node in the middle of the map. */
    constructor (b: nat)
      requires b > 0
      ensures Valid() && this.b == b && elems == []
    {
      var at := (INITIAL_MAP_SIZE - 1) / 2;
      this.b := b;
      slots := seq(INITIAL_MAP_SIZE, _ => 0)[at := 1];
      store, start, finish, live, unused := map[], Iter(at, 0), Iter(at, 0), {1}, 2;
      elems := [];
      new;
      Expand(at, 1, b);
      assert slots[at..at + 1] == [1];
    }

    // ---------- the map ----------

    /** `copy(start.node, finish.node + 1, new_nstart)` within the map, downward. */
    method SlideDown(d: int) returns (m: seq<nat>)
      requires 0 <= start.node <= finish.node < |slots| && d < 0 && 0 <= start.node + d
      ensures |m| == |slots| && Carried(slots, start.node, finish.node, m, d)
    {
      m := slots;
      var k := start.node;
      while k != finish.node + 1
        invariant start.node <= k <= finish.node + 1 && |m| == |slots|
        invariant forall j :: start.node <= j < k ==> m[j + d] == slots[j]
        invariant forall j :: k <= j <= finish.node ==> m[j] == slots[j]
        decreases finish.node - k
      {
        m := m[k + d := m[k]];
        k := k + 1;
      }
    }

    /** `copy_backward(start.node, finish.node + 1, new_nstart + nodes)` within the map, upward. */
    method SlideUp(d: int) returns (m: seq<nat>)
      requires 0 <= start.node <= finish.node < |slots| && d >= 0 && finish.node + d < |slots|
      ensures |m| == |slots| && Carried(slots, start.node, finish.node, m, d)
    {
      m := slots;
      var k := finish.node + 1;
      while k != start.node
        invariant start.node <= k <= finish.node + 1 && |m| == |slots|
        invariant forall j :: k <= j <= finish.node ==> m[j + d] == slots[j]
        invariant forall j :: start.node <= j < k ==> m[j] == slots[j]
        decreases k
      {
        k := k - 1;
        m := m[k + d := m[k]];
      }
    }

    /** `copy` into a new map. */
    method CopySlots(size: nat, d: int) returns (m: seq<nat>)
      requires 0 <= start.node <= finish.node < |slots| && 0 <= start.node + d && finish.node + d < size
      ensures |m| == size && Carried(slots, start.node, finish.node, m, d)
    {
      m := seq(size, _ => 0);
      var k := start.node;
      while k != finish.node + 1
        invariant start.node <= k <= finish.node + 1 && |m| == size
        invariant forall j :: start.node <= j < k ==> m[j + d] == slots[j]
        decreases finish.node - k
      {
        m := m[k + d := slots[k]];
        k := k + 1;
      }
    }

    /** `_M_reallocate_map`: the elements stay what they are, and there is room for the nodes asked for. */
    method ReallocateMap(add: nat, front: bool)
      requires Valid()
      modifies this`slots, this`start, this`finish
      ensures Valid() && finish.node - start.node == old(finish.node - start.node) && start.cur == old(start.cur)
              && finish.cur == old(finish.cur)
      ensures if front then start.node >= add else finish.node + add < |slots|
      ensures var nodes := old(finish.node - start.node) + 1;
              && |slots| == (if old(|slots|) > 2 * (nodes + add) then old(|slots|)
                             else old(|slots|) + (if old(|slots|) > add then old(|slots|) else add) + 2)
              && start.node == (|slots| - (nodes + add)) / 2 + (if front then add else 0)
    {
      var nodes := finish.node - start.node + 1;
      var size := NewMapSize(|slots|, nodes, add);
      var at := NewStart(size, nodes, add, front);
      RoomForNodes(|slots|, nodes, add, front);
      var m := Relocate(|slots| > 2 * (nodes + add), size, at);
      Resettle(m, at - start.node);
    }

    /** The pointers to the nodes go to the slots from `at` on. */
    method Relocate(within: bool, size: nat, at: nat) returns (m: seq<nat>)
      requires 0 <= start.node <= finish.node < |slots| && at + (finish.node - start.node) < size
               && (within ==> size == |slots|)
      ensures |m| == size && Carried(slots, start.node, finish.node, m, at - start.node)
    {
      if within && at < start.node {
        m := SlideDown(at - start.node);
      } else if within {
        m := SlideUp(at - start.node);
      } else {
        m := CopySlots(size, at - start.node);
      }
    }

    /** The iterators follow the nodes. */
    method Resettle(m: seq<nat>, d: int)
      requires Valid() && Carried(slots, start.node, finish.node, m, d)
      modifies this`slots, this`start, this`finish
      ensures Valid() && slots == m && start == Iter(old(start.node) + d, old(start.cur))
              && finish == Iter(old(finish.node) + d, old(finish.cur))
    {
      var s, f := Iter(start.node + d, start.cur), Iter(finish.node + d, finish.cur);
      MovedIters(b, slots, live, unused, start, finish, store, elems, m, d);
      assert Laid(b, m, s.node, f.node, live, unused, s, f, store, elems);
      slots, start, finish := m, s, f;
      assert Laid(b, slots, start.node, finish.node, live, unused, start, finish, store, elems);
    }

    /** `_M_reserve_map_at_back`. */
    method ReserveMapAtBack(add: nat)
      requires Valid()
      modifies this`slots, this`start, this`finish
      ensures Valid() && finish.node + add < |slots| && start.cur == old(start.cur) && finish.cur == old(finish.cur)
      ensures finish.node - start.node == old(finish.node - start.node)
    {
      if add + 1 > |slots| - finish.node {
        ReallocateMap(add, false);
      }
    }

    /** `_M_reserve_map_at_front`. */
    method ReserveMapAtFront(add: nat)
      requires Valid()
      modifies this`slots, this`start, this`finish
      ensures Valid() && start.node >= add && start.cur == old(start.cur) && finish.cur == old(finish.cur)
      ensures finish.node - start.node == old(finish.node - start.node)
    {
      if add > start.node {
        ReallocateMap(add, true);
      }
    }

    // ---------- the ends ----------

    /** The cell an iterator stands on. */
    function CellOf(i: Iter): Cell
      requires 0 <= i.node < |slots| && 0 <= i.cur
      reads this
    {
      Cell(slots[i.node], i.cur)
    }

    lemma CellIs(i: Iter)
      requires b > 0 && InNode(b, i) && 0 <= i.node < |slots|
      ensures 0 <= Place(b, i) / b < |slots| && CellAt(slots, b, Place(b, i)) == CellOf(i)
    {
      var p := Place(b, i);
      OnePlace(b, Iter(p / b, p % b), i);
    }

    /** `push_back`. */
    method PushBack(x: T)
      requires Valid()
      modifies this
      ensures Valid() && elems == old(elems) + [x]
    {
      if finish.cur != b - 1 {
        Expand(finish.node, 1, b);
        PutBack(slots, b, start.node, finish.node, Place(b, start), Place(b, finish), store, elems, x);
        CellIs(finish);
        store := store[CellOf(finish) := x];
        finish := Iter(finish.node, finish.cur + 1);
        elems := elems + [x];
      } else {
        PushBackAux(x);
      }
    }

    /** `_M_push_back_aux`: the last place of the last node is filled, and there must be another node behind it. */
    method PushBackAux(x: T)
      requires Valid() && finish.cur == b - 1
      modifies this
      ensures Valid() && elems == old(elems) + [x]
    {
      ReserveMapAtBack(1);
      AddBehind(finish.node);
      ghost var f := Place(b, finish);
      Expand(finish.node, 1, b);
      Expand(finish.node + 1, 1, b);
      PutBack(slots, b, start.node, finish.node + 1, Place(b, start), f, store, elems, x);
      CellIs(finish);
      store := store[CellOf(finish) := x];
      finish := Iter(finish.node + 1, 0);
      elems := elems + [x];
    }

    /** `*(finish.node + i) = _M_allocate_node()`. */
    method AddBehind(hi: nat)
      requires Wide(start.node, hi) && hi + 1 < |slots|
      modifies this`slots, this`live, this`unused
      ensures |slots| == old(|slots|) && Wide(start.node, hi + 1)
    {
      var n := unused;
      NodeAdded(slots, start.node, hi, live, n);
      MoreNodes(slots, b, start.node, hi, Place(b, start), Place(b, finish), store, elems, n);
      slots, live, unused := slots[hi + 1 := n], live + {n}, n + 1;
    }

    /** `push_front`. */
    method PushFront(x: T)
      requires Valid()
      modifies this
      ensures Valid() && elems == [x] + old(elems)
    {
      if start.cur != 0 {
        PutFront(slots, b, start.node, finish.node, Place(b, start), Place(b, finish), store, elems, x);
        start := Iter(start.node, start.cur - 1);
        CellIs(start);
        store := store[CellOf(start) := x];
        elems := [x] + elems;
      } else {
        PushFrontAux(x);
      }
    }

    /** `_M_push_front_aux`. */
    method PushFrontAux(x: T)
      requires Valid() && start.cur == 0
      modifies this
      ensures Valid() && elems == [x] + old(elems)
    {
      ReserveMapAtFront(1);
      AddBefore(start.node);
      Expand(start.node, 1, b);
      PutFront(slots, b, start.node - 1, finish.node, Place(b, start), Place(b, finish), store, elems, x);
      start := Iter(start.node - 1, b - 1);
      CellIs(start);
      store := store[CellOf(start) := x];
      elems := [x] + elems;
    }

    /** `*(start.node - i) = _M_allocate_node()`. */
    method AddBefore(lo: nat)
      requires Wide(lo, finish.node) && 0 < lo
      modifies this`slots, this`live, this`unused
      ensures |slots| == old(|slots|) && Wide(lo - 1, finish.node)
    {
      var n := unused;
      NodeAdded(slots, lo, finish.node, live, n);
      MoreNodes(slots, b, lo, finish.node, Place(b, start), Place(b, finish), store, elems, n);
      slots, live, unused := slots[lo - 1 := n], live + {n}, n + 1;
    }

    /** `pop_back`; where the last node has become empty, it is given back. */
    method PopBack()
      requires Valid() && elems != []
      modifies this
      ensures Valid() && elems == old(elems[..|elems| - 1])
    {
      DropBack(slots, b, start.node, finish.node, Place(b, start), Place(b, finish), store, elems);
      ghost var rest, left := elems[..|elems| - 1], store - {CellAt(slots, b, Place(b, finish) - 1)};
      if finish.cur != 0 {
        finish := Iter(finish.node, finish.cur - 1);
      } else {
        PopBackAux(rest, left);
      }
      CellIs(finish);
      store := store - {CellOf(finish)};
      elems := rest;
    }

    /** `_M_pop_back_aux`, up to the destruction of the element. */
    method PopBackAux(ghost rest: seq<T>, ghost left: Store<T>)
      requires b > 0 && InNode(b, start) && finish.cur == 0 && Place(b, start) < Place(b, finish)
      requires Nodes(slots, start.node, finish.node) && Allocated(slots, start.node, finish.node, live, unused)
      requires Holds(slots, b, start.node, finish.node, Place(b, start), Place(b, finish) - 1, left, rest)
      modifies this`live, this`finish
      ensures InNode(b, finish) && Place(b, finish) == old(Place(b, finish)) - 1
      ensures Nodes(slots, start.node, finish.node) && Allocated(slots, start.node, finish.node, live, unused)
      ensures Holds(slots, b, start.node, finish.node, Place(b, start), Place(b, finish), left, rest)
    {
      BeforeIsLess(b, start, finish);
      NodeGone(slots, start.node, finish.node, live, unused);
      LeftNode(slots, b, start, finish, left, rest);
      PreviousUndoesNext(b, finish);
      live := live - {slots[finish.node]};
      finish := Iter(finish.node - 1, b - 1);
    }

    /** `pop_front`. */
    method PopFront()
      requires Valid() && elems != []
      modifies this
      ensures Valid() && elems == old(elems[1..])
    {
      DropFront(slots, b, start.node, finish.node, Place(b, start), Place(b, finish), store, elems);
      ghost var rest := elems[1..];
      CellIs(start);
      Expand(start.node, 1, b);
      store := store - {CellOf(start)};
      if start.cur != b - 1 {
        start := Iter(start.node, start.cur + 1);
      } else {
        PopFrontAux(rest);
      }
      elems := rest;
    }

    /** `_M_pop_front_aux`: the deque has another node, because `finish` stands behind the last element. */
    method PopFrontAux(ghost rest: seq<T>)
      requires b > 0 && start.cur == b - 1 && InNode(b, finish) && Place(b, start) < Place(b, finish)
      requires Nodes(slots, start.node, finish.node) && Allocated(slots, start.node, finish.node, live, unused)
      requires Holds(slots, b, start.node, finish.node, Place(b, start) + 1, Place(b, finish), store, rest)
      modifies this`live, this`start
      ensures InNode(b, start) && Nodes(slots, start.node, finish.node)
              && Allocated(slots, start.node, finish.node, live, unused)
      ensures Holds(slots, b, start.node, finish.node, Place(b, start), Place(b, finish), store, rest)
    {
      BeforeIsLess(b, start, finish);
      NodeGone(slots, start.node, finish.node, live, unused);
      Expand(start.node, 1, b);
      live := live - {slots[start.node]};
      Refitted(slots, b, start.node, finish.node, Place(b, start) + 1, Place(b, finish), store, rest, slots,
               start.node + 1, finish.node);
      start := Iter(start.node + 1, 0);
    }

    // ---------- elements ----------

    /** Iterator `i` stands on element `k`, or behind the last. */
    ghost predicate On(i: Iter, k: int)
      reads this
    {
      InNode(b, i) && 0 <= k && Place(b, i) == Place(b, start) + k
    }

    /** `*i`. */
    method Get(i: Iter, ghost k: int) returns (x: T)
      requires Valid() && On(i, k) && k < |elems|
      ensures x == elems[k]
    {
      SlotOf(b, start.node, finish.node, Place(b, i));
      OnePlace(b, At(b, Place(b, i)), i);
      assert HoldsAt(slots, b, start.node, finish.node, Place(b, start), Place(b, finish), store, elems, Place(b, i));
      x := store[CellOf(i)];
    }

    /** `*i = x`. */
    method Set(i: Iter, x: T, ghost k: int)
      requires Valid() && On(i, k) && k < |elems|
      modifies this`store, this`elems
      ensures Valid() && elems == old(elems)[k := x]
    {
      SlotOf(b, start.node, finish.node, Place(b, i));
      OnePlace(b, At(b, Place(b, i)), i);
      Assigned(slots, b, start.node, finish.node, Place(b, start), Place(b, finish), store, elems, Place(b, i), x);
      store := store[CellOf(i) := x];
      elems := elems[k := x];
    }

    /** `operator[]`. */
    method Index(n: nat) returns (x: T)
      requires Valid() && n < |elems|
      ensures x == elems[n]
    {
      AddIsShift(b, start, n);
      x := Get(Add(b, start, n), n);
    }

    /** `size`. */
    method Size() returns (n: nat)
      requires Valid()
      ensures n == |elems|
    {
      MinusIsDifference(b, finish, start);
      n := Minus(b, finish, start);
    }

    /** `*to = *from`. */
    method CopyOne(from: Iter, to: Iter, ghost i: nat, ghost r: nat)
      requires Valid() && On(from, i) && On(to, r) && i < |elems| && r < |elems|
      modifies this`store, this`elems
      ensures Valid() && elems == old(elems)[r := old(elems[i])]
    {
      var x := Get(from, i);
      Set(to, x, r);
    }

    /** `*to++ = *from++`. */
    method CopyNext(from: Iter, to: Iter, ghost i: nat, ghost r: nat) returns (from': Iter, to': Iter)
      requires Valid() && On(from, i) && On(to, r) && i < |elems| && r < |elems|
      modifies this`store, this`elems
      ensures Valid() && elems == old(elems)[r := old(elems[i])] && On(from', i + 1) && On(to', r + 1)
    {
      CopyOne(from, to, i, r);
      NextIsShift(b, from);
      NextIsShift(b, to);
      from', to' := Next(b, from), Next(b, to);
    }

    /** `*--to = *--from`. */
    method CopyPrevious(from: Iter, to: Iter, ghost i: nat, ghost r: nat) returns (from': Iter, to': Iter)
      requires Valid() && On(from, i) && On(to, r) && 0 < i <= |elems| && 0 < r <= |elems|
      modifies this`store, this`elems
      ensures Valid() && elems == old(elems)[r - 1 := old(elems[i - 1])] && On(from', i - 1) && On(to', r - 1)
    {
      PreviousUndoesNext(b, from);
      PreviousUndoesNext(b, to);
      from', to' := Previous(b, from), Previous(b, to);
      CopyOne(from', to', i - 1, r - 1);
    }

    /** Iterators on the same element are the same. */
    lemma SameElement(p: Iter, q: Iter, i: int, j: int)
      requires b > 0 && On(p, i) && On(q, j)
      ensures i == j <==> p == q
    {
      if i == j {
        OnePlace(b, p, q);
      }
    }

    /** `copy(first, last, result)` over elements of the deque, downward. */
    method CopyDown(first: Iter, last: Iter, result: Iter, ghost i: nat, ghost j: nat, ghost r: nat)
      requires Valid() && On(first, i) && On(last, j) && On(result, r) && r <= i <= j <= |elems|
      modifies this`store, this`elems
      ensures Valid() && Downed(old(elems), i, r, j - i, elems)
    {
      ghost var was := elems;
      var from, to := first, result;
      ghost var k := 0;
      assert Downed(was, i, r, 0, was);
      SameElement(from, last, i, j);
      while from != last
        invariant Valid() && 0 <= k <= j - i && On(from, i + k) && On(to, r + k) && On(last, j)
        invariant Downed(was, i, r, k, elems) && (from == last <==> i + k == j)
        decreases j - i - k
      {
        ghost var mid := elems;
        from, to := CopyNext(from, to, i + k, r + k);
        DownOne(was, i, r, k, mid, elems);
        k := k + 1;
        SameElement(from, last, i + k, j);
      }
    }

    /** `copy_backward(first, last, result)` over elements of the deque, upward. */
    method CopyUp(first: Iter, last: Iter, result: Iter, ghost i: nat, ghost j: nat, ghost r: nat)
      requires Valid() && On(first, i) && On(last, j) && On(result, r) && i <= j <= r <= |elems|
      modifies this`store, this`elems
      ensures Valid() && Upped(old(elems), j, r, j - i, elems)
    {
      ghost var was := elems;
      var from, to := last, result;
      ghost var k := 0;
      assert Upped(was, j, r, 0, was);
      SameElement(from, first, j, i);
      while from != first
        invariant Valid() && 0 <= k <= j - i && On(from, j - k) && On(to, r - k) && On(first, i)
        invariant Upped(was, j, r, k, elems) && (from == first <==> j - k == i)
        decreases j - i - k
      {
        ghost var mid := elems;
        from, to := CopyPrevious(from, to, j - k, r - k);
        UpOne(was, j, r, k, mid, elems);
        k := k + 1;
        SameElement(from, first, j - k, i);
      }
    }

    /** `_M_insert_aux`: the shorter side makes room. */
    method InsertAux(at: Iter, x: T, ghost k: nat) returns (pos: Iter)
      requires Valid() && On(at, k) && 0 < k < |elems|
      modifies this
      ensures Valid() && elems == old(elems[..k]) + [x] + old(elems[k..]) && On(pos, k)
    {
      MinusIsDifference(b, at, start);
      var index := Minus(b, at, start);
      var size := Size();
      ghost var was := elems;
      if index < size / 2 {
        pos := RoomAtFront(index);
      } else {
        pos := RoomAtBack(index);
      }
      Set(pos, x, k);
      assert elems == was[..k] + [x] + was[k..];
    }

    method RoomAtFront(k: nat) returns (pos: Iter)
      requires Valid() && 0 < k < |elems|
      modifies this
      ensures Valid() && On(pos, k) && |elems| == old(|elems|) + 1 && elems[..k] == old(elems[..k])
              && elems[k + 1..] == old(elems[k..])
    {
      ghost var was := elems;
      var front := Index(0);
      PushFront(front);
      var front1 := Next(b, start);
      var front2 := Next(b, front1);
      NextIsShift(b, start);
      NextIsShift(b, front1);
      AddIsShift(b, start, k);
      pos := Add(b, start, k);
      NextIsShift(b, pos);
      CopyDown(front2, Next(b, pos), front1, 2, k + 1, 1);
      FrontMade(was, k);
    }

    method RoomAtBack(k: nat) returns (pos: Iter)
      requires Valid() && 0 < k < |elems|
      modifies this
      ensures Valid() && On(pos, k) && |elems| == old(|elems|) + 1 && elems[..k] == old(elems[..k])
              && elems[k + 1..] == old(elems[k..])
    {
      ghost var was := elems;
      var n := Size();
      var back := Index(n - 1);
      PushBack(back);
      PreviousUndoesNext(b, finish);
      var back1 := Previous(b, finish);
      PreviousUndoesNext(b, back1);
      var back2 := Previous(b, back1);
      AddIsShift(b, start, k);
      pos := Add(b, start, k);
      CopyUp(pos, back2, back1, k, n - 1, n);
      BackMade(was, k);
    }

    /** `insert(position, x)`. */
    method Insert(at: Iter, x: T, ghost k: nat) returns (pos: Iter)
      requires Valid() && On(at, k) && k <= |elems|
      modifies this
      ensures Valid() && elems == old(elems[..k]) + [x] + old(elems[k..]) && On(pos, k)
    {
      ghost var was := elems;
      if at == start {
        PushFront(x);
        pos := start;
        assert elems == was[..0] + [x] + was[0..];
      } else if at == finish {
        PushBack(x);
        PreviousUndoesNext(b, finish);
        pos := Previous(b, finish);
        assert elems == was[..k] + [x] + was[k..];
      } else {
        Between(at, k);
        pos := InsertAux(at, x, k);
      }
    }

    lemma Between(at: Iter, k: nat)
      requires Valid() && On(at, k) && k <= |elems| && at != start && at != finish
      ensures 0 < k < |elems|
    {
      if k == 0 {
        OnePlace(b, at, start);
      }
      if k == |elems| {
        OnePlace(b, at, finish);
      }
    }

    /** `erase(position)`: the shorter side closes the gap. */
    method Erase(at: Iter, ghost k: nat) returns (pos: Iter)
      requires Valid() && On(at, k) && k < |elems|
      modifies this
      ensures Valid() && elems == old(elems[..k]) + old(elems[k + 1..]) && On(pos, k)
    {
      ghost var was := elems;
      NextIsShift(b, at);
      var next := Next(b, at);
      MinusIsDifference(b, at, start);
      var index := Minus(b, at, start);
      var size := Size();
      if index < size / 2 {
        CopyUp(start, at, next, 0, k, k + 1);
        PopFront();
        assert elems == was[..k] + was[k + 1..];
      } else {
        CopyDown(next, finish, at, k + 1, |elems|, k);
        PopBack();
        assert elems == was[..k] + was[k + 1..];
      }
      AddIsShift(b, start, index);
      pos := Add(b, start, index);
    }

    // ---------- counted insert ----------

    /** `_M_reserve_elements_at_front`: nodes for `n` places before the first element, and no node more. */
    method ReserveElementsAtFront(n: nat) returns (newStart: Iter)
      requires Valid()
      modifies this`slots, this`start, this`finish, this`live, this`unused
      ensures InNode(b, newStart) && Place(b, newStart) == Place(b, start) - n && Wide(newStart.node, finish.node)
    {
      if n > start.cur {
        NewElementsAtFront(n - start.cur);
      }
      NodesBefore(b, start, n);
      AddIsShift(b, start, -(n as int));
      newStart := Add(b, start, -(n as int));
    }

    /** `_M_new_elements_at_front`. */
    method NewElementsAtFront(m: nat)
      requires Valid() && m > 0
      modifies this`slots, this`start, this`finish, this`live, this`unused
      ensures start.cur == old(start.cur) && Wide(start.node - NewNodes(b, m), finish.node)
    {
      var nodes := (m + b - 1) / b;
      ReserveMapAtFront(nodes);
      var i := 1;
      while i <= nodes
        invariant 1 <= i <= nodes + 1 && start.node >= nodes && start.cur == old(start.cur)
        invariant Wide(start.node - (i - 1), finish.node)
      {
        AddBefore(start.node - (i - 1));
        i := i + 1;
      }
    }

    /** `_M_reserve_elements_at_back`. */
    method ReserveElementsAtBack(n: nat) returns (newFinish: Iter)
      requires Valid()
      modifies this`slots, this`start, this`finish, this`live, this`unused
      ensures InNode(b, newFinish) && Place(b, newFinish) == Place(b, finish) + n && Wide(start.node, newFinish.node)
    {
      var vacancies := b - finish.cur - 1;
      if n > vacancies {
        NewElementsAtBack(n - vacancies);
      }
      NodesBehind(b, finish, n);
      AddIsShift(b, finish, n);
      newFinish := Add(b, finish, n);
    }

    /** `_M_new_elements_at_back`. */
    method NewElementsAtBack(m: nat)
      requires Valid() && m > 0
      modifies this`slots, this`start, this`finish, this`live, this`unused
      ensures finish.cur == old(finish.cur) && Wide(start.node, finish.node + NewNodes(b, m))
    {
      var nodes := (m + b - 1) / b;
      ReserveMapAtBack(nodes);
      var i := 1;
      while i <= nodes
        invariant 1 <= i <= nodes + 1 && finish.node + nodes < |slots| && finish.cur == old(finish.cur)
        invariant Wide(start.node, finish.node + (i - 1))
      {
        AddBehind(finish.node + (i - 1));
        i := i + 1;
      }
    }

    /** The values from place `p` on have been written beside the elements; the next goes to `to`. */
    ghost predicate Writing(lo: int, hi: int, p: int, to: Iter, vals: seq<T>)
      reads this
    {
      && b > 0 && InNode(b, start) && InNode(b, finish) && InNode(b, to)
      && Nodes(slots, lo, hi) && Allocated(slots, lo, hi, live, unused)
      && Filling(slots, b, lo, hi, Place(b, start), Place(b, finish), store, elems, p, Place(b, to), vals)
    }

    ghost predicate Room(lo: int, hi: int, p: int, n: int)
      reads this
    {
      n >= 0 && Beside(b, lo, hi, Place(b, start), Place(b, finish), p, n)
    }

    /** `construct(to, x)`. */
    method WriteNext(to: Iter, x: T, ghost lo: int, ghost hi: int, ghost p: int, ghost vals: seq<T>) returns (to': Iter)
      requires Writing(lo, hi, p, to, vals) && Room(lo, hi, p, |vals| + 1)
      modifies this`store
      ensures Writing(lo, hi, p, to', vals + [x]) && Place(b, to') == Place(b, to) + 1
    {
      Filled(slots, b, lo, hi, Place(b, start), Place(b, finish), store, elems, p, Place(b, to), vals, x);
      SlotOf(b, lo, hi, Place(b, to));
      OnePlace(b, At(b, Place(b, to)), to);
      NextIsShift(b, to);
      store := store[CellOf(to) := x];
      to' := Next(b, to);
    }

    /** An element read while values are written. */
    method Read(i: Iter, ghost k: int, ghost lo: int, ghost hi: int, ghost p: int, ghost to: Iter, ghost vals: seq<T>)
      returns (x: T)
      requires Writing(lo, hi, p, to, vals) && On(i, k) && k < |elems|
      ensures x == elems[k]
    {
      SlotOf(b, lo, hi, Place(b, i));
      OnePlace(b, At(b, Place(b, i)), i);
      assert HoldsAt(slots, b, lo, hi, Place(b, start), Place(b, finish), store, elems, Place(b, i));
      x := store[CellOf(i)];
    }

    /** `uninitialized_copy(first, last, result)` of elements to storage beside them. */
    method CopyOut(first: Iter, last: Iter, result: Iter, ghost i: nat, ghost j: nat, ghost lo: int, ghost hi: int,
                   ghost p: int, ghost vals: seq<T>)
      returns (to: Iter)
      requires On(first, i) && On(last, j) && i <= j <= |elems|
      requires Writing(lo, hi, p, result, vals) && Room(lo, hi, p, |vals| + (j - i))
      modifies this`store
      ensures Writing(lo, hi, p, to, vals + elems[i..j])
    {
      var from := first;
      to := result;
      ghost var k := i;
      assert vals + elems[i..i] == vals;
      SameElement(from, last, i, j);
      while from != last
        invariant i <= k <= j && On(from, k) && On(last, j) && (from == last <==> k == j)
        invariant Writing(lo, hi, p, to, vals + elems[i..k])
        decreases j - k
      {
        var x := Read(from, k, lo, hi, p, to, vals + elems[i..k]);
        to := WriteNext(to, x, lo, hi, p, vals + elems[i..k]);
        assert vals + elems[i..k] + [x] == vals + elems[i..k + 1];
        NextIsShift(b, from);
        from, k := Next(b, from), k + 1;
        SameElement(from, last, k, j);
      }
    }

    /** `uninitialized_fill(first, last, x)`. */
    method FillOut(first: Iter, last: Iter, x: T, n: nat, ghost lo: int, ghost hi: int, ghost p: int,
                   ghost vals: seq<T>)
      requires Writing(lo, hi, p, first, vals) && InNode(b, last) && Place(b, last) == Place(b, first) + n
               && Room(lo, hi, p, |vals| + n)
      modifies this`store
      ensures Writing(lo, hi, p, last, vals + Repeat(x, n))
    {
      var to := first;
      ghost var k := 0;
      assert vals + Repeat(x, 0) == vals;
      SamePlace(to, last);
      while to != last
        invariant 0 <= k <= n && Place(b, to) == Place(b, first) + k && (to == last <==> k == n)
        invariant Writing(lo, hi, p, to, vals + Repeat(x, k))
        decreases n - k
      {
        to := WriteNext(to, x, lo, hi, p, vals + Repeat(x, k));
        assert vals + Repeat(x, k) + [x] == vals + Repeat(x, k + 1);
        k := k + 1;
        SamePlace(to, last);
      }
    }

    lemma SamePlace(i: Iter, j: Iter)
      requires b > 0 && InNode(b, i) && InNode(b, j)
      ensures i == j <==> Place(b, i) == Place(b, j)
    {
      if Place(b, i) == Place(b, j) {
        OnePlace(b, i, j);
      }
    }

    /** `fill(first, last, x)` over elements. */
    method FillElements(first: Iter, last: Iter, x: T, ghost i: nat, ghost j: nat)
      requires Valid() && On(first, i) && On(last, j) && i <= j <= |elems|
      modifies this`store, this`elems
      ensures Valid() && Overwritten(old(elems), i, j, x, elems)
    {
      ghost var was := elems;
      var to := first;
      ghost var k := i;
      assert Overwritten(was, i, i, x, was);
      SameElement(to, last, i, j);
      while to != last
        invariant Valid() && i <= k <= j && On(to, k) && On(last, j) && (to == last <==> k == j)
        invariant Overwritten(was, i, k, x, elems)
        decreases j - k
      {
        OverwriteOne(was, i, k, x, elems);
        Set(to, x, k);
        NextIsShift(b, to);
        to, k := Next(b, to), k + 1;
        SameElement(to, last, k, j);
      }
    }

    /** `_M_start = new_start`, once the values written reach up to the first element. */
    method TakeFront(newStart: Iter, ghost vals: seq<T>)
      requires Writing(newStart.node, finish.node, Place(b, newStart), start, vals) && InNode(b, newStart)
      modifies this`start, this`elems
      ensures Valid() && elems == vals + old(elems) && start == newStart
    {
      FilledFront(slots, b, newStart.node, finish.node, Place(b, start), Place(b, finish), store, elems,
                  Place(b, newStart), vals);
      start, elems := newStart, vals + elems;
    }

    /** `_M_finish = new_finish`. */
    method TakeBack(newFinish: Iter, ghost vals: seq<T>)
      requires Writing(start.node, newFinish.node, Place(b, finish), newFinish, vals)
      modifies this`finish, this`elems
      ensures Valid() && elems == old(elems) + vals && finish == newFinish
    {
      Expand(newFinish.node, 1, b);
      FilledBack(slots, b, start.node, newFinish.node, Place(b, start), Place(b, finish), store, elems, vals);
      finish, elems := newFinish, elems + vals;
    }

    /** Writing begins. */
    lemma Begin(lo: int, hi: int, to: Iter)
      requires Wide(lo, hi) && InNode(b, to) && Room(lo, hi, Place(b, to), 0)
      ensures Writing(lo, hi, Place(b, to), to, [])
    {
      Unfilled(slots, b, lo, hi, Place(b, start), Place(b, finish), store, elems, Place(b, to));
    }

    lemma RoomBefore(newStart: Iter, n: nat)
      requires Wide(newStart.node, finish.node) && InNode(b, newStart) && Place(b, newStart) == Place(b, start) - n
      ensures forall m: nat :: m <= n ==> Room(newStart.node, finish.node, Place(b, newStart), m)
    {
    }

    lemma RoomBehind(newFinish: Iter, n: nat)
      requires Wide(start.node, newFinish.node) && InNode(b, newFinish) && Place(b, newFinish) == Place(b, finish) + n
      ensures forall m: nat :: m <= n ==> Room(start.node, newFinish.node, Place(b, finish), m)
    {
      Expand(newFinish.node, 1, b);
    }

    /**
     `uninitialized_copy(start, start + m, new_start)`, then `uninitialized_fill` up to the first element, and the new
     start.
     */
    method SpreadFront(newStart: Iter, last: Iter, m: nat, n: nat, x: T)
      requires Wide(newStart.node, finish.node) && InNode(b, newStart) && Place(b, newStart) == Place(b, start) - n
      requires On(last, m) && m <= n && m <= |elems|
      modifies this`store, this`start, this`elems
      ensures Valid() && start == newStart && elems == old(elems[..m]) + Repeat(x, n - m) + old(elems)
    {
      ghost var lo, hi, p := newStart.node, finish.node, Place(b, newStart);
      RoomBefore(newStart, n);
      Begin(lo, hi, newStart);
      var to := CopyOut(start, last, newStart, 0, m, lo, hi, p, []);
      assert [] + elems[0..m] == elems[..m];
      FillOut(to, start, x, n - m, lo, hi, p, elems[..m]);
      TakeFront(newStart, elems[..m] + Repeat(x, n - m));
    }

    /**
     `uninitialized_fill` of `n - (|elems| - k)` places behind the last element, `uninitialized_copy` from element `k`
     on, and the new finish.
     */
    method SpreadBack(newFinish: Iter, mid: Iter, first: Iter, m: nat, n: nat, x: T, ghost k: nat)
      requires Wide(start.node, newFinish.node) && InNode(b, newFinish) && Place(b, newFinish) == Place(b, finish) + n
      requires On(first, k) && InNode(b, mid) && Place(b, mid) == Place(b, finish) + m && k + n == |elems| + m
               && k <= |elems|
      modifies this`store, this`finish, this`elems
      ensures Valid() && finish == newFinish && elems == old(elems) + (Repeat(x, m) + old(elems[k..]))
    {
      ghost var lo, hi, p := start.node, newFinish.node, Place(b, finish);
      RoomBehind(newFinish, n);
      Begin(lo, hi, finish);
      FillOut(finish, mid, x, m, lo, hi, p, []);
      assert [] + Repeat(x, m) == Repeat(x, m);
      var to := CopyOut(first, finish, mid, k, |elems|, lo, hi, p, Repeat(x, m));
      assert elems[k..|elems|] == elems[k..];
      SamePlace(to, newFinish);
      TakeBack(newFinish, Repeat(x, m) + elems[k..]);
    }

    /** At least `n` elements before the gap: `n` of them go to the new places, the others move down. */
    method ShiftFront(newStart: Iter, k: nat, n: nat, x: T)
      requires Wide(newStart.node, finish.node) && InNode(b, newStart) && Place(b, newStart) == Place(b, start) - n
               && n <= k <= |elems|
      modifies this`store, this`start, this`elems
      ensures Valid() && elems == old(elems[..k]) + Repeat(x, n) + old(elems[k..])
    {
      ghost var was := elems;
      var oldStart := start;
      AddIsShift(b, start, k);
      var at := Add(b, start, k);
      AddIsShift(b, start, n);
      var startN := Add(b, start, n);
      SpreadFront(newStart, startN, n, n, x);
      assert was[..n] + Repeat(x, 0) + was == was[..n] + was;
      CloseFront(oldStart, startN, at, n, x, k, was);
    }

    /** The rest of `ShiftFront`, with the new places filled. */
    method CloseFront(oldStart: Iter, startN: Iter, at: Iter, n: nat, x: T, ghost k: nat, ghost was: seq<T>)
      requires Valid() && n <= k <= |was| && elems == was[..n] + was && On(oldStart, n) && On(startN, 2 * n)
               && On(at, k + n)
      modifies this`store, this`elems
      ensures Valid() && elems == was[..k] + Repeat(x, n) + was[k..]
    {
      CopyDown(startN, at, oldStart, 2 * n, k + n, n);
      ghost var c := elems;
      AddIsShift(b, at, -(n as int));
      FillElements(Add(b, at, -(n as int)), at, x, k, k + n);
      FrontShifted(was, k, n, x, c, elems);
    }

    /** Fewer than `n` elements before the gap: all of them go to the new places. */
    method FillFront(newStart: Iter, k: nat, n: nat, x: T)
      requires Wide(newStart.node, finish.node) && InNode(b, newStart) && Place(b, newStart) == Place(b, start) - n
               && k < n && k <= |elems|
      modifies this`store, this`start, this`elems
      ensures Valid() && elems == old(elems[..k]) + Repeat(x, n) + old(elems[k..])
    {
      ghost var was := elems;
      var oldStart := start;
      AddIsShift(b, start, k);
      var at := Add(b, start, k);
      SpreadFront(newStart, at, k, n, x);
      FillElements(oldStart, at, x, n, k + n);
      FrontFilled(was, k, n, x, elems);
    }

    /** More than `n` elements behind the gap. */
    method ShiftBack(newFinish: Iter, at: Iter, n: nat, x: T, ghost k: nat)
      requires Wide(start.node, newFinish.node) && InNode(b, newFinish) && Place(b, newFinish) == Place(b, finish) + n
      requires On(at, k) && k + n <= |elems|
      modifies this`store, this`finish, this`elems
      ensures Valid() && elems == old(elems[..k]) + Repeat(x, n) + old(elems[k..])
    {
      ghost var was, m := elems, |elems|;
      var oldFinish := finish;
      AddIsShift(b, finish, -(n as int));
      var finishN := Add(b, finish, -(n as int));
      SpreadBack(newFinish, finish, finishN, 0, n, x, m - n);
      assert was + (Repeat(x, 0) + was[m - n..]) == was + was[m - n..];
      CloseBack(at, finishN, oldFinish, n, x, k, was);
    }

    /** The rest of `ShiftBack`, with the new places filled. */
    method CloseBack(at: Iter, finishN: Iter, oldFinish: Iter, n: nat, x: T, ghost k: nat, ghost was: seq<T>)
      requires Valid() && k + n <= |was| && elems == was + was[|was| - n..] && On(at, k) && On(finishN, |was| - n)
               && On(oldFinish, |was|)
      modifies this`store, this`elems
      ensures Valid() && elems == was[..k] + Repeat(x, n) + was[k..]
    {
      CopyUp(at, finishN, oldFinish, k, |was| - n, |was|);
      ghost var c := elems;
      AddIsShift(b, at, n);
      FillElements(at, Add(b, at, n), x, k, k + n);
      BackShifted(was, k, n, x, c, elems);
    }

    /** At most `n` elements behind the gap. */
    method FillBack(newFinish: Iter, at: Iter, n: nat, m: nat, x: T, ghost k: nat)
      requires Wide(start.node, newFinish.node) && InNode(b, newFinish) && Place(b, newFinish) == Place(b, finish) + n
      requires On(at, k) && k <= |elems| && k + n == |elems| + m
      modifies this`store, this`finish, this`elems
      ensures Valid() && elems == old(elems[..k]) + Repeat(x, n) + old(elems[k..])
    {
      ghost var was := elems;
      var oldFinish := finish;
      AddIsShift(b, at, n);
      SpreadBack(newFinish, Add(b, at, n), at, m, n, x, k);
      FillElements(at, oldFinish, x, k, |was|);
      BackFilled(was, k, n, x, elems);
    }

    /** `_M_insert_aux(pos, n, x)`: the side with fewer elements makes room, in one of four ways. */
    method InsertCountedAux(at: Iter, n: nat, x: T, ghost k: nat)
      requires Valid() && On(at, k) && k <= |elems|
      modifies this
      ensures Valid() && elems == old(elems[..k]) + Repeat(x, n) + old(elems[k..])
    {
      MinusIsDifference(b, at, start);
      var before := Minus(b, at, start);
      var length := Size();
      if before < length / 2 {
        var newStart := ReserveElementsAtFront(n);
        if before >= n {
          ShiftFront(newStart, before, n, x);
        } else {
          FillFront(newStart, before, n, x);
        }
      } else {
        var newFinish := ReserveElementsAtBack(n);
        var after := length - before;
        AddIsShift(b, finish, -after);
        var pos := Add(b, finish, -after);
        if after > n {
          ShiftBack(newFinish, pos, n, x, k);
        } else {
          FillBack(newFinish, pos, n, n - after, x, k);
        }
      }
    }

    /** `insert(pos, n, x)`. */
    method InsertCounted(at: Iter, n: nat, x: T, ghost k: nat)
      requires Valid() && On(at, k) && k <= |elems|
      modifies this
      ensures Valid() && elems == old(elems[..k]) + Repeat(x, n) + old(elems[k..])
    {
      if at == start {
        var newStart := ReserveElementsAtFront(n);
        SpreadFront(newStart, start, 0, n, x);
        assert elems == old(elems[..0]) + Repeat(x, n) + old(elems[0..]);
      } else if at == finish {
        var newFinish := ReserveElementsAtBack(n);
        SpreadBack(newFinish, newFinish, finish, n, n, x, |elems|);
        assert elems == old(elems[..k]) + Repeat(x, n) + old(elems[k..]);
      } else {
        InsertCountedAux(at, n, x, k);
      }
    }

    // ---------- range erase ----------

    /** `destroy(first, last)`, for values beside the elements that stay. */
    method Destroy(first: Iter, last: Iter, ghost s: int, ghost f: int, ghost rest: seq<T>, ghost gone: seq<T>)
      requires InNode(b, first) && InNode(b, last) && Nodes(slots, start.node, finish.node)
      requires Filling(slots, b, start.node, finish.node, s, f, store, rest, Place(b, first), Place(b, last), gone)
      modifies this`store
      ensures Holds(slots, b, start.node, finish.node, s, f, store, rest)
    {
      var cur := first;
      ghost var left := gone;
      SamePlace(cur, last);
      while cur != last
        invariant InNode(b, cur) && (cur == last <==> Place(b, cur) == Place(b, last))
        invariant Filling(slots, b, start.node, finish.node, s, f, store, rest, Place(b, cur), Place(b, last), left)
        decreases |left|
      {
        Destroyed(slots, b, start.node, finish.node, s, f, store, rest, Place(b, cur), Place(b, last), left);
        SlotOf(b, start.node, finish.node, Place(b, cur));
        DequePlace.OnePlace(b, At(b, Place(b, cur)), cur);
        NextIsShift(b, cur);
        store := store - {CellOf(cur)};
        cur, left := Next(b, cur), left[1..];
        SamePlace(cur, last);
      }
      AllDestroyed(slots, b, start.node, finish.node, s, f, store, rest, Place(b, last));
    }

    /** `_M_destroy_nodes(from, to)`. */
    method DestroyNodes(from: nat, to: nat)
      requires from <= |slots| && to <= |slots|
      modifies this`live
      ensures live == old(live) - NodesIn(slots, from, to)
    {
      var k := from;
      NoNodesIn(slots, from, from);
      NoNodesIn(slots, from, to);
      while k < to
        invariant from <= k <= |slots| && (from <= to ==> k <= to) && (to < from ==> k == from)
        invariant live == old(live) - NodesIn(slots, from, k)
      {
        NodesInNext(slots, from, k);
        live := live - {slots[k]};
        k := k + 1;
      }
    }

    /** The elements of the deque, with nodes allocated that it may have lost sight of. */
    ghost predicate Contents()
      reads this
    {
      && b > 0 && InNode(b, start) && InNode(b, finish) && Nodes(slots, start.node, finish.node)
      && Holds(slots, b, start.node, finish.node, Place(b, start), Place(b, finish), store, elems)
    }

    /** The first `n` elements are destroyed, but no node is given back. */
    method DropFirst(n: nat)
      requires Valid() && n <= |elems|
      modifies this
      ensures Contents() && elems == old(elems[n..]) && (Valid() <==> old(start.cur + n < b))
      ensures Place(b, start) == old(Place(b, start)) + n
    {
      AddIsShift(b, start, n);
      var newStart := Add(b, start, n);
      NodesOnward(b, start, n);
      BeforeIsLess(b, start, newStart);
      BeforeIsLess(b, finish, newStart);
      SplitFront(slots, b, start.node, finish.node, Place(b, start), Place(b, finish), store, elems, n);
      Destroy(start, newStart, Place(b, newStart), Place(b, finish), elems[n..], elems[..n]);
      DestroyNodes(newStart.node, start.node);
      NodeLeft(slots, start.node, finish.node, live, unused, newStart.node);
      Refitted(slots, b, start.node, finish.node, Place(b, newStart), Place(b, finish), store, elems[n..], slots,
               newStart.node, finish.node);
      start, elems := newStart, elems[n..];
    }

    /** The elements from `n` on are destroyed, and the nodes behind them given back. */
    method DropLast(newFinish: Iter, ghost n: nat)
      requires Valid() && n <= |elems| && On(newFinish, n)
      modifies this
      ensures Valid() && elems == old(elems[..n]) && start == old(start) && finish == newFinish
    {
      BeforeIsLess(b, newFinish, start);
      BeforeIsLess(b, finish, newFinish);
      SplitBack(slots, b, start.node, finish.node, Place(b, start), Place(b, finish), store, elems, n);
      Destroy(newFinish, finish, Place(b, start), Place(b, newFinish), elems[..n], elems[n..]);
      NodesGone(slots, start.node, finish.node, live, unused, newFinish.node);
      DestroyNodes(newFinish.node + 1, finish.node + 1);
      Expand(newFinish.node, 1, b);
      Refitted(slots, b, start.node, finish.node, Place(b, start), Place(b, newFinish), store, elems[..n], slots,
               start.node, newFinish.node);
      finish, elems := newFinish, elems[..n];
    }

    /**
     `erase(first, last)`: the sequence without the stretch. The class invariant, by which exactly the nodes from start
     to finish are allocated, holds again if and only if the front was not moved into another node.
     */
    method EraseRange(first: Iter, last: Iter, ghost i: nat, ghost j: nat) returns (pos: Iter)
      requires Valid() && On(first, i) && On(last, j) && i <= j <= |elems|
      modifies this
      ensures Contents() && elems == old(elems[..i] + elems[j..]) && On(pos, i)
      ensures Valid() <==> old(!FrontMoves(i, j) || start.cur + (j - i) < b)
    {
      SameElement(first, start, i, 0);
      SameElement(last, finish, j, |elems|);
      if first == start && last == finish {
        Clear();
        pos := finish;
      } else {
        MinusIsDifference(b, last, first);
        MinusIsDifference(b, first, start);
        var n, before := Minus(b, last, first), Minus(b, first, start);
        var size := Size();
        if before < (size - n) / 2 {
          pos := CloseFromFront(first, last, i, j);
        } else {
          pos := CloseFromBack(first, last, i, j);
        }
      }
    }

    /** `clear`: one node stays, that of start. */
    method Clear()
      requires Valid()
      modifies this
      ensures Valid() && elems == [] && start == old(start) && finish == start
    {
      DropLast(start, 0);
    }

    /** The elements before the stretch move up over it. */
    method CloseFromFront(first: Iter, last: Iter, ghost i: nat, ghost j: nat) returns (pos: Iter)
      requires Valid() && On(first, i) && On(last, j) && i <= j <= |elems|
      modifies this
      ensures Contents() && elems == old(elems[..i] + elems[j..]) && On(pos, i)
      ensures Valid() <==> old(start.cur + (j - i) < b)
    {
      MinusIsDifference(b, last, first);
      MinusIsDifference(b, first, start);
      var n, before := Minus(b, last, first), Minus(b, first, start);
      ghost var was := elems;
      CopyUp(start, first, last, 0, i, j);
      RangeClosedUp(was, i, j, elems);
      DropFirst(n);
      AddIsShift(b, start, before);
      pos := Add(b, start, before);
    }

    /** The elements behind the stretch move down over it. */
    method CloseFromBack(first: Iter, last: Iter, ghost i: nat, ghost j: nat) returns (pos: Iter)
      requires Valid() && On(first, i) && On(last, j) && i <= j <= |elems|
      modifies this
      ensures Valid() && elems == old(elems[..i] + elems[j..]) && On(pos, i)
    {
      MinusIsDifference(b, last, first);
      MinusIsDifference(b, first, start);
      var n, before := Minus(b, last, first), Minus(b, first, start);
      ghost var was := elems;
      CopyDown(last, finish, first, j, |elems|, i);
      RangeClosedDown(was, i, j, elems);
      AddIsShift(b, finish, -n);
      DropLast(Add(b, finish, -n), |was| - (j - i));
      AddIsShift(b, start, before);
      pos := Add(b, start, before);
    }

    /** `erase(first, last)` moves the elements before the stretch, rather than those behind it. */
    ghost predicate FrontMoves(i: nat, j: nat)
      reads this
      requires i <= j <= |elems|
    {
      !(i == 0 && j == |elems|) && i < (|elems| - (j - i)) / 2
    }
  }

  lemma FrontMade<T>(was: seq<T>, k: nat)
    requires 0 < k < |was|
    ensures var e := [was[0]] + was; var now := e[..1] + e[2..k + 1] + e[1 + (k + 1 - 2)..];
            |now| == |was| + 1 && now[..k] == was[..k] && now[k + 1..] == was[k..]
  {
    var e := [was[0]] + was;
    assert e[..1] + e[2..k + 1] == was[..k] && e[1 + (k + 1 - 2)..] == [was[k - 1]] + was[k..];
  }

  lemma BackMade<T>(was: seq<T>, k: nat)
    requires 0 < k < |was|
    ensures var n := |was|; var e := was + [was[n - 1]]; var now := e[..n - (n - 1 - k)] + e[k..n - 1] + e[n..];
            |now| == |was| + 1 && now[..k] == was[..k] && now[k + 1..] == was[k..]
  {
    var n := |was|;
    var e := was + [was[n - 1]];
    assert e[..n - (n - 1 - k)] == was[..k] + [was[k]] && e[k..n - 1] + e[n..] == was[k..];
  }

  /** Whether `n` places on is another node. */
  lemma NodesOnward(b: nat, start: Iter, n: nat)
    requires b > 0 && InNode(b, start)
    ensures Add(b, start, n).node >= start.node && (Add(b, start, n).node == start.node <==> start.cur + n < b)
  {
    AddIsShift(b, start, n);
    BeforeIsLess(b, Add(b, start, n), start);
    var e := Add(b, start, n).node - start.node;
    Expand(Add(b, start, n).node, start.node, b);
  }

  lemma RangeClosedUp<T>(was: seq<T>, i: nat, j: nat, now: seq<T>)
    requires i <= j <= |was| && Upped(was, i, j, i, now)
    ensures |now| == |was| && now[j - i..] == was[..i] + was[j..]
  {
  }

  lemma RangeClosedDown<T>(was: seq<T>, i: nat, j: nat, now: seq<T>)
    requires i <= j <= |was| && Downed(was, j, i, |was| - j, now)
    ensures |now| == |was| && now[..|was| - (j - i)] == was[..i] + was[j..]
  {
  }

  /** Three elements, a node each; without the first the sequence is right, and its node is still allocated. */
  method RangeEraseKeepsNode() returns (d: Deque<nat>)
    ensures fresh(d) && d.Contents() && d.elems == [20, 30] && !d.Valid()
  {
    d := new Deque(1);
    d.PushBack(10);
    d.PushBack(20);
    d.PushBack(30);
    assert d.elems == [10, 20, 30];
    NextIsShift(1, d.start);
    var pos := d.EraseRange(d.start, Next(1, d.start), 0, 1);
  }
}
