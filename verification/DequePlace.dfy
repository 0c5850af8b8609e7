/** Places in a deque: a slot of the map and an offset in its node (headers/cpp/stl_deque.h:86-216). */
module DequePlace {

  /** `_Deque_iterator`: the slot of its node in the map, and how far into the node. */
  datatype Iter = Iter(node: int, cur: int)

  predicate InNode(b: nat, i: Iter) {
    0 <= i.cur < b
  }

  /** Places numbered through the whole map. */
  function Place(b: nat, i: Iter): int {
    i.node * b + i.cur
  }

  /** Division as in C, which drops the fraction; the divisor is positive. */
  function CDiv(a: int, b: int): int
    requires b > 0
  {
    if a >= 0 then a / b else -(-a / b)
  }

  /** `operator+=`. */
  function Add(b: nat, i: Iter, n: int): Iter
    requires b > 0
  {
    var offset := n + i.cur;
    if 0 <= offset < b then Iter(i.node, i.cur + n)
    else
      var nodeOffset := if offset > 0 then CDiv(offset, b) else -CDiv(-offset - 1, b) - 1;
      Iter(i.node + nodeOffset, offset - nodeOffset * b)
  }

  /** `operator-`. */
  function Minus(b: nat, i: Iter, j: Iter): int {
    b * (i.node - j.node - 1) + i.cur + (b - j.cur)
  }

  /** `operator++`. */
  function Next(b: nat, i: Iter): Iter {
    if i.cur + 1 == b then Iter(i.node + 1, 0) else Iter(i.node, i.cur + 1)
  }

  /** `operator--`. */
  function Previous(b: nat, i: Iter): Iter {
    if i.cur == 0 then Iter(i.node - 1, b - 1) else Iter(i.node, i.cur - 1)
  }

  lemma Expand(a: int, c: int, b: int)
    ensures (a + c) * b == a * b + c * b && (a - c) * b == a * b - c * b
  {
  }

  lemma Multiple(e: int, b: int)
    requires b >= 0
    ensures e >= 1 ==> e * b >= b
    ensures e <= -1 ==> e * b + b <= 0
  {
  }

  /** Moving an iterator by any distance, forward or back, is arithmetic on its place, and it stays inside a node. */
  lemma AddIsShift(b: nat, i: Iter, n: int)
    requires b > 0 && InNode(b, i)
    ensures InNode(b, Add(b, i, n)) && Place(b, Add(b, i, n)) == Place(b, i) + n
  {
    var offset := n + i.cur;
    if !(0 <= offset < b) {
      var d := if offset > 0 then CDiv(offset, b) else -CDiv(-offset - 1, b) - 1;
      Expand(i.node, d, b);
      if offset > 0 {
        assert offset == offset / b * b + offset % b;
      } else {
        var m := -offset - 1;
        assert m == m / b * b + m % b;
        assert d == -(m / b) - 1;
        Expand(-(m / b), 1, b);
        assert -(m / b) * b == -(m / b * b);
      }
    }
  }

  lemma MinusIsDifference(b: nat, i: Iter, j: Iter)
    ensures Minus(b, i, j) == Place(b, i) - Place(b, j)
  {
    Expand(i.node, j.node, b);
    Expand(i.node - j.node, 1, b);
  }

  lemma NextIsShift(b: nat, i: Iter)
    requires b > 0 && InNode(b, i)
    ensures InNode(b, Next(b, i)) && Place(b, Next(b, i)) == Place(b, i) + 1
  {
    Expand(i.node, 1, b);
  }

  lemma PreviousUndoesNext(b: nat, i: Iter)
    requires b > 0 && InNode(b, i)
    ensures Previous(b, Next(b, i)) == i && Next(b, Previous(b, i)) == i
    ensures InNode(b, Previous(b, i)) && Place(b, Previous(b, i)) == Place(b, i) - 1
  {
    Expand(i.node, 1, b);
  }

  /** An iterator is determined by its place. */
  lemma OnePlace(b: nat, i: Iter, j: Iter)
    requires b > 0 && InNode(b, i) && InNode(b, j) && Place(b, i) == Place(b, j)
    ensures i == j
  {
    var e := i.node - j.node;
    Expand(i.node, j.node, b);
    assert e * b == j.cur - i.cur;
    Multiple(e, b);
  }

  /** Order of iterators is order of places. */
  lemma BeforeIsLess(b: nat, i: Iter, j: Iter)
    requires b > 0 && InNode(b, i) && InNode(b, j)
    ensures Place(b, i) < Place(b, j) <==> (if i.node == j.node then i.cur < j.cur else i.node < j.node)
  {
    var e := j.node - i.node;
    Expand(j.node, i.node, b);
    Multiple(e, b);
  }

  /** The iterator at a place. */
  function At(b: nat, p: int): (i: Iter)
    requires b > 0
    ensures InNode(b, i) && Place(b, i) == p
  {
    Iter(p / b, p % b)
  }
}
