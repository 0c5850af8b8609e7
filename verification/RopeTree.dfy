/**
 The nodes of a rope (headers/cpp/stl_rope.h:340-714) as immutable values, and the text they
 stand for. `Nil` is the null pointer, the empty rope.
 */
module RopeTree {

  const MAX_DEPTH: nat := 45
  const COPY_MAX: nat := 23
  const LAZY_THRESHOLD: nat := 128

  /** `_S_min_len` (headers/cpp/ropeimpl.h:1061-1076). */
  const MIN_LEN: seq<nat> :=
    ([1, 2, 3, 5, 8, 13, 21, 34] + [55, 89, 144, 233, 377, 610, 987, 1597])
    + ([2584, 4181, 6765, 10946, 17711, 28657, 46368, 75025] + [121393, 196418, 317811, 514229, 832040, 1346269,
                                                                2178309, 3524578])
    + ([5702887, 9227465, 14930352, 24157817, 39088169, 63245986, 102334155] + [165580141, 267914296, 433494437,
        701408733, 1134903170, 1836311903, 2971215073])

  /** `max_size` (headers/cpp/stl_rope.h:1831-1836). */
  const MAX_SIZE: nat := MIN_LEN[MAX_DEPTH - 1] - 1

  datatype Rope<C> =
    | Nil
    | Leaf(data: seq<C>)
    | Concat(size: nat, depth: nat, balanced: bool, left: Rope<C>, right: Rope<C>)
    | Function(fn: nat -> C, len: nat)
    | Substring(base: Rope<C>, start: nat, len: nat)

  function Size<C>(r: Rope<C>): nat {
    match r
    case Nil => 0
    case Leaf(data) => |data|
    case Concat(size, _, _, _, _) => size
    case Function(_, len) => len
    case Substring(_, _, len) => len
  }

  function Depth<C>(r: Rope<C>): nat {
    if r.Concat? then r.depth else 0
  }

  /** `_M_is_balanced`: always set on nodes that are not concatenations. */
  predicate Flagged<C>(r: Rope<C>) {
    r.Concat? ==> r.balanced
  }

  /** The character producer of a function or substring node, or the data of a leaf. */
  function CharAt<C>(r: Rope<C>, i: nat): C
    requires Wf(r) && !r.Nil? && !r.Concat? && i < Size(r)
  {
    match r
    case Leaf(data) => data[i]
    case Function(fn, _) => fn(i)
    case Substring(base, start, _) => CharAt(base, start + i)
  }

  predicate Wf<C>(r: Rope<C>) {
    match r
    case Nil => true
    case Leaf(data) => data != []
    case Concat(size, depth, balanced, left, right) =>
      && !left.Nil? && !right.Nil? && Wf(left) && Wf(right)
      && size == Size(left) + Size(right)
      && depth == 1 + (if Depth(left) > Depth(right) then Depth(left) else Depth(right))
      && (balanced ==> depth <= MAX_DEPTH && size >= MIN_LEN[depth])
    case Function(_, len) => len > 0
    case Substring(base, start, len) =>
      Wf(base) && (base.Leaf? || base.Function?) && len > 0 && start + len <= Size(base)
  }

  /** A well-formed rope. */
  type Good<C> = r: Rope<C> | Wf(r) witness Nil

  /** The text of a rope. */
  function Flatten<C>(r: Good<C>): (s: seq<C>)
    ensures |s| == Size(r)
  {
    match r
    case Nil => []
    case Leaf(data) => data
    case Concat(_, _, _, left, right) => Flatten(left) + Flatten(right)
    case Function(_, len) => seq(len, i requires 0 <= i < len => CharAt(r, i))
    case Substring(_, _, len) => seq(len, i requires 0 <= i < len => CharAt(r, i))
  }

  lemma SizePositive<C>(r: Rope<C>)
    requires Wf(r) && !r.Nil?
    ensures Size(r) > 0
  {
  }

  /** The text of a function node is what its producer gives for the positions from 0 on. */
  lemma FunctionText<C>(fn: nat -> C, n: nat, pos: nat)
    requires pos < n
    ensures Flatten(Function(fn, n))[pos] == fn(pos) && |Flatten(Function(fn, n))| == n
  {
    assert CharAt(Function(fn, n), pos) == fn(pos);
  }

  /** And that of a lazy slice of it, what it gives from the start of the slice on. */
  lemma LazyFunctionText<C>(fn: nat -> C, n: nat, start: nat, len: nat, pos: nat)
    requires pos < len && start + len <= n
    ensures var r := Substring(Function(fn, n), start, len); Wf(r) && Flatten(r)[pos] == fn(start + pos)
  {
    assert Wf(Function(fn, n));
    assert CharAt(Function(fn, n), start + pos) == fn(start + pos);
  }

  // ---------- the table ----------

  predicate FibFrom(s: seq<nat>, i: nat)
    decreases |s| - i
  {
    i + 2 >= |s| || (s[i + 2] == s[i + 1] + s[i] && 0 < s[i] < s[i + 1] && FibFrom(s, i + 1))
  }

  lemma {:induction false} FibAt(s: seq<nat>, i: nat, k: nat)
    requires FibFrom(s, i) && i <= k && k + 2 < |s|
    ensures s[k + 2] == s[k + 1] + s[k] && 0 < s[k] < s[k + 1]
    decreases k - i
  {
    if i < k {
      FibAt(s, i + 1, k);
    }
  }

  lemma TableTop()
    ensures |MIN_LEN| == MAX_DEPTH + 1 && FibFrom(MIN_LEN, 30)
  {
    assert FibFrom(MIN_LEN, 44) && FibFrom(MIN_LEN, 43) && FibFrom(MIN_LEN, 42) && FibFrom(MIN_LEN, 41);
    assert FibFrom(MIN_LEN, 40) && FibFrom(MIN_LEN, 39) && FibFrom(MIN_LEN, 38) && FibFrom(MIN_LEN, 37);
    assert FibFrom(MIN_LEN, 36) && FibFrom(MIN_LEN, 35) && FibFrom(MIN_LEN, 34) && FibFrom(MIN_LEN, 33);
    assert FibFrom(MIN_LEN, 32) && FibFrom(MIN_LEN, 31) && FibFrom(MIN_LEN, 30);
  }

  lemma TableMiddle()
    requires FibFrom(MIN_LEN, 30)
    ensures FibFrom(MIN_LEN, 15)
  {
    assert FibFrom(MIN_LEN, 29) && FibFrom(MIN_LEN, 28) && FibFrom(MIN_LEN, 27) && FibFrom(MIN_LEN, 26);
    assert FibFrom(MIN_LEN, 25) && FibFrom(MIN_LEN, 24) && FibFrom(MIN_LEN, 23) && FibFrom(MIN_LEN, 22);
    assert FibFrom(MIN_LEN, 21) && FibFrom(MIN_LEN, 20) && FibFrom(MIN_LEN, 19) && FibFrom(MIN_LEN, 18);
    assert FibFrom(MIN_LEN, 17) && FibFrom(MIN_LEN, 16) && FibFrom(MIN_LEN, 15);
  }

  /** Every entry of the table is the sum of the two before it, and the entries increase. */
  lemma TableIsFibonacci()
    ensures |MIN_LEN| == MAX_DEPTH + 1 && FibFrom(MIN_LEN, 0)
  {
    TableTop();
    TableMiddle();
    assert FibFrom(MIN_LEN, 14) && FibFrom(MIN_LEN, 13) && FibFrom(MIN_LEN, 12) && FibFrom(MIN_LEN, 11);
    assert FibFrom(MIN_LEN, 10) && FibFrom(MIN_LEN, 9) && FibFrom(MIN_LEN, 8) && FibFrom(MIN_LEN, 7);
    assert FibFrom(MIN_LEN, 6) && FibFrom(MIN_LEN, 5) && FibFrom(MIN_LEN, 4) && FibFrom(MIN_LEN, 3);
    assert FibFrom(MIN_LEN, 2) && FibFrom(MIN_LEN, 1) && FibFrom(MIN_LEN, 0);
  }

  lemma MinLenStep(i: nat)
    requires i + 2 <= MAX_DEPTH
    ensures MIN_LEN[i + 2] == MIN_LEN[i + 1] + MIN_LEN[i] && 0 < MIN_LEN[i] < MIN_LEN[i + 1]
  {
    TableIsFibonacci();
    FibAt(MIN_LEN, 0, i);
  }

  lemma {:induction false} MinLenGrows(i: nat, j: nat)
    requires i <= j <= MAX_DEPTH
    ensures MIN_LEN[i] <= MIN_LEN[j] && (i < j ==> MIN_LEN[i] < MIN_LEN[j])
    decreases j
  {
    if i < j {
      MinLenGrows(i, j - 1);
      MinLenStep(if j == 1 then 0 else j - 2);
    }
  }
}
