/** The nodes of a deque and what they hold (headers/cpp/stl_deque.h:34-58). */
module DequeNodes {
  import opened DequePlace

  /** A cell of storage: a node and an offset in it. */
  datatype Cell = Cell(node: nat, cur: nat)

  type Store<T> = map<Cell, T>

  /** The cell at a place. */
  function CellAt(slots: seq<nat>, b: nat, p: int): Cell
    requires b > 0 && 0 <= p / b < |slots|
  {
    Cell(slots[p / b], p % b)
  }

  /** The slots from `lo` to `hi` hold different nodes. What the other slots hold means nothing. */
  ghost predicate Nodes(slots: seq<nat>, lo: int, hi: int) {
    && 0 <= lo <= hi < |slots|
    && (forall i, j :: lo <= i < j <= hi ==> slots[i] != slots[j])
  }

  /** Exactly those nodes are allocated. */
  ghost predicate Allocated(slots: seq<nat>, lo: int, hi: int, live: set<nat>, unused: nat)
    requires 0 <= lo <= hi < |slots|
  {
    && (forall k :: lo <= k <= hi ==> slots[k] in live)
    && (forall n :: n in live ==> n < unused && n in slots[lo..hi + 1])
  }

  /** The places from `s` up to `f` are in the slots from `lo` to `hi`. */
  predicate Spans(b: nat, lo: int, hi: int, s: int, f: int) {
    b > 0 && lo * b <= s <= f < (hi + 1) * b
  }

  lemma SlotOf(b: nat, lo: int, hi: int, p: int)
    requires b > 0 && lo * b <= p < (hi + 1) * b
    ensures lo <= p / b <= hi
  {
    assert p == p / b * b + p % b;
    Expand(p / b, lo, b);
    Expand(hi, p / b, b);
    Expand(hi, 1, b);
    Multiple(lo - p / b, b);
    Multiple(p / b - hi - 1, b);
    Expand(p / b - hi, 1, b);
    assert (lo - p / b) * b == lo * b - p / b * b by {
      Expand(lo, p / b, b);
    }
    assert (p / b - hi - 1) * b == p / b * b - (hi + 1) * b by {
      Expand(p / b, hi + 1, b);
    }
  }

  /**
   Exactly the elements are in the storage: nothing before the first place, after the last, or in a node given back.
   */
  ghost predicate Holds<T>(slots: seq<nat>, b: nat, lo: int, hi: int, s: int, f: int, store: Store<T>, elems: seq<T>) {
    && Spans(b, lo, hi, s, f) && 0 <= lo <= hi < |slots| && |elems| == f - s
    && (forall p :: s <= p < f ==> HoldsAt(slots, b, lo, hi, s, f, store, elems, p))
    && (forall c :: c in store ==> exists p :: s <= p < f && IsAt(slots, b, lo, hi, p, c))
  }

  ghost predicate IsAt(slots: seq<nat>, b: nat, lo: int, hi: int, p: int, c: Cell) {
    b > 0 && lo * b <= p < (hi + 1) * b && 0 <= p / b < |slots| && CellAt(slots, b, p) == c
  }

  ghost predicate HoldsAt<T>(slots: seq<nat>, b: nat, lo: int, hi: int, s: int, f: int, store: Store<T>, elems: seq<T>,
                             p: int)
    requires |elems| == f - s && s <= p < f
  {
    b > 0 && 0 <= p / b < |slots| && CellAt(slots, b, p) in store && store[CellAt(slots, b, p)] == elems[p - s]
  }

  /** No two places share a cell. */
  lemma OneCell(slots: seq<nat>, b: nat, lo: int, hi: int, p: int, q: int)
    requires Nodes(slots, lo, hi) && b > 0 && lo * b <= p < (hi + 1) * b && lo * b <= q < (hi + 1) * b
    ensures 0 <= p / b < |slots| && 0 <= q / b < |slots| && (CellAt(slots, b, p) == CellAt(slots, b, q) ==> p == q)
  {
    SlotOf(b, lo, hi, p);
    SlotOf(b, lo, hi, q);
    assert p == p / b * b + p % b && q == q / b * b + q % b;
  }

  /** An element is put at the place behind the last. */
  lemma PutBack<T>(slots: seq<nat>, b: nat, lo: int, hi: int, s: int, f: int, store: Store<T>, elems: seq<T>, x: T)
    requires Nodes(slots, lo, hi) && Holds(slots, b, lo, hi, s, f, store, elems) && f + 1 < (hi + 1) * b
    ensures 0 <= f / b < |slots| && Holds(slots, b, lo, hi, s, f + 1, store[CellAt(slots, b, f) := x], elems + [x])
  {
    SlotOf(b, lo, hi, f);
    var store', elems', g := store[CellAt(slots, b, f) := x], elems + [x], f + 1;
    forall p | s <= p < g ensures HoldsAt(slots, b, lo, hi, s, g, store', elems', p) {
      OneCell(slots, b, lo, hi, p, f);
      if p < f {
        assert HoldsAt(slots, b, lo, hi, s, f, store, elems, p);
      }
    }
    forall c | c in store' ensures exists p :: s <= p < g && IsAt(slots, b, lo, hi, p, c) {
      if c == CellAt(slots, b, f) {
        assert IsAt(slots, b, lo, hi, f, c);
      } else {
        var p :| s <= p < f && IsAt(slots, b, lo, hi, p, c);
      }
    }
  }

  /** An element is put at the place before the first. */
  lemma PutFront<T>(slots: seq<nat>, b: nat, lo: int, hi: int, s: int, f: int, store: Store<T>, elems: seq<T>, x: T)
    requires Nodes(slots, lo, hi) && Holds(slots, b, lo, hi, s, f, store, elems) && lo * b <= s - 1
    ensures 0 <= (s - 1) / b < |slots| && Holds(slots, b, lo, hi, s - 1, f, store[CellAt(slots, b, s - 1) := x],
                                                [x] + elems)
  {
    var r := s - 1;
    SlotOf(b, lo, hi, r);
    var store', elems' := store[CellAt(slots, b, r) := x], [x] + elems;
    forall p | r <= p < f ensures HoldsAt(slots, b, lo, hi, r, f, store', elems', p) {
      OneCell(slots, b, lo, hi, p, r);
      if p > r {
        assert HoldsAt(slots, b, lo, hi, s, f, store, elems, p);
      }
    }
    forall c | c in store' ensures exists p :: r <= p < f && IsAt(slots, b, lo, hi, p, c) {
      if c == CellAt(slots, b, r) {
        assert IsAt(slots, b, lo, hi, r, c);
      } else {
        var p :| s <= p < f && IsAt(slots, b, lo, hi, p, c);
      }
    }
  }

  /** The last element is destroyed. */
  lemma DropBack<T>(slots: seq<nat>, b: nat, lo: int, hi: int, s: int, f: int, store: Store<T>, elems: seq<T>)
    requires Nodes(slots, lo, hi) && Holds(slots, b, lo, hi, s, f, store, elems) && s < f
    ensures 0 <= (f - 1) / b < |slots|
    ensures Holds(slots, b, lo, hi, s, f - 1, store - {CellAt(slots, b, f - 1)}, elems[..|elems| - 1])
  {
    var g := f - 1;
    SlotOf(b, lo, hi, g);
    var store', elems' := store - {CellAt(slots, b, g)}, elems[..|elems| - 1];
    forall p | s <= p < g ensures HoldsAt(slots, b, lo, hi, s, g, store', elems', p) {
      OneCell(slots, b, lo, hi, p, g);
      assert HoldsAt(slots, b, lo, hi, s, f, store, elems, p);
    }
    forall c | c in store' ensures exists p :: s <= p < g && IsAt(slots, b, lo, hi, p, c) {
      var p :| s <= p < f && IsAt(slots, b, lo, hi, p, c);
      assert p != g;
    }
  }

  /** The first element is destroyed. */
  lemma DropFront<T>(slots: seq<nat>, b: nat, lo: int, hi: int, s: int, f: int, store: Store<T>, elems: seq<T>)
    requires Nodes(slots, lo, hi) && Holds(slots, b, lo, hi, s, f, store, elems) && s < f
    ensures 0 <= s / b < |slots| && Holds(slots, b, lo, hi, s + 1, f, store - {CellAt(slots, b, s)}, elems[1..])
  {
    SlotOf(b, lo, hi, s);
    var store', elems', r := store - {CellAt(slots, b, s)}, elems[1..], s + 1;
    forall p | r <= p < f ensures HoldsAt(slots, b, lo, hi, r, f, store', elems', p) {
      OneCell(slots, b, lo, hi, p, s);
      assert HoldsAt(slots, b, lo, hi, s, f, store, elems, p);
    }
    forall c | c in store' ensures exists p :: r <= p < f && IsAt(slots, b, lo, hi, p, c) {
      var p :| s <= p < f && IsAt(slots, b, lo, hi, p, c);
      assert p != s;
    }
  }

  /** An element is assigned. */
  lemma Assigned<T>(slots: seq<nat>, b: nat, lo: int, hi: int, s: int, f: int, store: Store<T>, elems: seq<T>, q: int,
                    x: T)
    requires Nodes(slots, lo, hi) && Holds(slots, b, lo, hi, s, f, store, elems) && s <= q < f
    ensures 0 <= q / b < |slots| && Holds(slots, b, lo, hi, s, f, store[CellAt(slots, b, q) := x], elems[q - s := x])
  {
    SlotOf(b, lo, hi, q);
    var store', elems' := store[CellAt(slots, b, q) := x], elems[q - s := x];
    forall p | s <= p < f ensures HoldsAt(slots, b, lo, hi, s, f, store', elems', p) {
      OneCell(slots, b, lo, hi, p, q);
      assert HoldsAt(slots, b, lo, hi, s, f, store, elems, p);
    }
    forall c | c in store' ensures exists p :: s <= p < f && IsAt(slots, b, lo, hi, p, c) {
      if c == CellAt(slots, b, q) {
        assert IsAt(slots, b, lo, hi, q, c);
      } else {
        var p :| s <= p < f && IsAt(slots, b, lo, hi, p, c);
      }
    }
  }

  /** The nodes in the slots from `lo` to `hi` are also in the slots `d` further on of another map. */
  ghost predicate Carried(slots: seq<nat>, lo: int, hi: int, slots': seq<nat>, d: int) {
    && 0 <= lo <= hi < |slots| && 0 <= lo + d && hi + d < |slots'|
    && (forall k :: lo <= k <= hi ==> slots'[k + d] == slots[k])
  }

  /** The same nodes in other slots: everything moves by `d` slots. */
  lemma Moved<T>(slots: seq<nat>, b: nat, lo: int, hi: int, s: int, f: int, store: Store<T>, elems: seq<T>,
                 slots': seq<nat>, d: int)
    requires Holds(slots, b, lo, hi, s, f, store, elems) && Carried(slots, lo, hi, slots', d)
    ensures Holds(slots', b, lo + d, hi + d, s + d * b, f + d * b, store, elems)
  {
    var e := d * b;
    Expand(lo, d, b);
    Expand(hi + 1, d, b);
    var lo', hi', s', f' := lo + d, hi + d, s + e, f + e;
    assert hi' + 1 == hi + 1 + d;
    forall p' | s' <= p' < f' ensures HoldsAt(slots', b, lo', hi', s', f', store, elems, p') {
      var p := p' - e;
      SameCell(slots, b, lo, hi, slots', d, p);
      assert HoldsAt(slots, b, lo, hi, s, f, store, elems, p);
    }
    forall c | c in store ensures exists p' :: s' <= p' < f' && IsAt(slots', b, lo', hi', p', c) {
      var p :| s <= p < f && IsAt(slots, b, lo, hi, p, c);
      SameCell(slots, b, lo, hi, slots', d, p);
      assert IsAt(slots', b, lo', hi', p + e, c);
    }
  }

  lemma SameCell(slots: seq<nat>, b: nat, lo: int, hi: int, slots': seq<nat>, d: int, p: int)
    requires b > 0 && lo * b <= p < (hi + 1) * b && 0 <= lo <= hi < |slots| && Carried(slots, lo, hi, slots', d)
    ensures 0 <= p / b < |slots| && 0 <= (p + d * b) / b < |slots'|
            && CellAt(slots', b, p + d * b) == CellAt(slots, b, p)
  {
    SlotOf(b, lo, hi, p);
    var k, m := p / b, p % b;
    assert p == k * b + m;
    Expand(k, d, b);
    var q := p + d * b;
    OnePlace(b, Iter(q / b, q % b), Iter(k + d, m));
  }

  /** A new node in the slot behind the last or before the first. */
  lemma NodeAdded(slots: seq<nat>, lo: int, hi: int, live: set<nat>, n: nat)
    requires Nodes(slots, lo, hi) && Allocated(slots, lo, hi, live, n)
    ensures hi + 1 < |slots| ==>
              Nodes(slots[hi + 1 := n], lo, hi + 1) && Allocated(slots[hi + 1 := n], lo, hi + 1, live + {n}, n + 1)
    ensures 0 < lo ==>
              Nodes(slots[lo - 1 := n], lo - 1, hi) && Allocated(slots[lo - 1 := n], lo - 1, hi, live + {n}, n + 1)
  {
    if hi + 1 < |slots| {
      var t := slots[hi + 1 := n];
      assert t[lo..hi + 2] == slots[lo..hi + 1] + [n];
    }
    if 0 < lo {
      var t := slots[lo - 1 := n];
      assert t[lo - 1..hi + 1] == [n] + slots[lo..hi + 1];
    }
  }

  /** The last or the first node is given back. */
  lemma NodeGone(slots: seq<nat>, lo: int, hi: int, live: set<nat>, unused: nat)
    requires Nodes(slots, lo, hi) && Allocated(slots, lo, hi, live, unused) && lo < hi
    ensures Nodes(slots, lo, hi - 1) && Allocated(slots, lo, hi - 1, live - {slots[hi]}, unused)
    ensures Nodes(slots, lo + 1, hi) && Allocated(slots, lo + 1, hi, live - {slots[lo]}, unused)
  {
    assert slots[lo..hi + 1] == slots[lo..hi] + [slots[hi]] == [slots[lo]] + slots[lo + 1..hi + 1];
  }

  lemma NodesMoved(slots: seq<nat>, lo: int, hi: int, live: set<nat>, unused: nat, slots': seq<nat>, d: int)
    requires Nodes(slots, lo, hi) && Allocated(slots, lo, hi, live, unused) && Carried(slots, lo, hi, slots', d)
    ensures Nodes(slots', lo + d, hi + d) && Allocated(slots', lo + d, hi + d, live, unused)
  {
    forall k | lo + d <= k <= hi + d ensures slots'[k] == slots[k - d] {
      assert slots'[k - d + d] == slots[k - d];
    }
    assert slots'[lo + d..hi + d + 1] == slots[lo..hi + 1];
  }

  /** A node is added or taken away where there are no elements. */
  lemma Refitted<T>(slots: seq<nat>, b: nat, lo: int, hi: int, s: int, f: int, store: Store<T>, elems: seq<T>,
                    slots': seq<nat>, lo': int, hi': int)
    requires Holds(slots, b, lo, hi, s, f, store, elems) && 0 <= lo' <= hi' < |slots'| && Spans(b, lo', hi', s, f)
    requires forall k :: lo <= k <= hi && lo' <= k <= hi' ==> slots'[k] == slots[k]
    ensures Holds(slots', b, lo', hi', s, f, store, elems)
  {
    forall p | s <= p < f ensures HoldsAt(slots', b, lo', hi', s, f, store, elems, p) && 0 <= p / b < |slots|
           && CellAt(slots', b, p) == CellAt(slots, b, p)
    {
      SlotOf(b, lo, hi, p);
      SlotOf(b, lo', hi', p);
      assert HoldsAt(slots, b, lo, hi, s, f, store, elems, p);
    }
    forall c | c in store ensures exists p :: s <= p < f && IsAt(slots', b, lo', hi', p, c) {
      var p :| s <= p < f && IsAt(slots, b, lo, hi, p, c);
      assert IsAt(slots', b, lo', hi', p, c);
    }
  }
}
