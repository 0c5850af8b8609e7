/** `next_permutation` and `prev_permutation` (headers/cpp/stl_algo.h:2558-2585, 2617-2644). */
module Permutation {
  import opened Order
  import opened SortOrder
  import opened Ranges
  import opened Reversal

  function Flip<T>(lt: (T, T) -> bool): (T, T) -> bool {
    (a, b) => lt(b, a)
  }

  /** The first place where `s` and `u` differ is `k`, and there `s` comes first. */
  ghost predicate LexAt<T>(lt: (T, T) -> bool, s: seq<T>, u: seq<T>, k: nat) {
    k < |s| == |u| && (forall i :: 0 <= i < k ==> Equiv(lt, s[i], u[i])) && lt(s[k], u[k])
  }

  /** Lexicographic order of sequences of one length. */
  ghost predicate LexLess<T>(lt: (T, T) -> bool, s: seq<T>, u: seq<T>) {
    exists k: nat :: LexAt(lt, s, u, k)
  }

  /**
   What the library promises: the least arrangement after `s` if there is one; otherwise the
   first arrangement of all, which is the sorted one.
   */
  ghost predicate NextIs<T(!new)>(lt: (T, T) -> bool, s: seq<T>, more: bool, r: seq<T>) {
    && multiset(r) == multiset(s)
    && (more ==> LexLess(lt, s, r) && forall u :: multiset(u) == multiset(s) && LexLess(lt, s, u) ==>
          !LexLess(lt, u, r))
    && (!more ==> Sorted(lt, r) && forall u :: multiset(u) == multiset(s) ==> !LexLess(lt, s, u))
  }

  // ---------- counting ----------

  function Count<T>(p: T -> bool, s: seq<T>): nat
    decreases |s|
  {
    if s == [] then 0 else (if p(s[0]) then 1 else 0) + Count(p, s[1..])
  }

  lemma {:induction false} CountConcat<T>(p: T -> bool, s: seq<T>, t: seq<T>)
    ensures Count(p, s + t) == Count(p, s) + Count(p, t)
    decreases |s|
  {
    if s == [] {
      assert s + t == t;
    } else {
      CountConcat(p, s[1..], t);
      assert (s + t)[1..] == s[1..] + t;
    }
  }

  lemma {:induction false} CountPermuted<T>(p: T -> bool, s: seq<T>, u: seq<T>)
    requires multiset(s) == multiset(u)
    ensures Count(p, s) == Count(p, u)
    decreases |s|
  {
    if s == [] {
      assert |multiset(u)| == 0;
    } else {
      assert s[0] in multiset(u);
      var i :| 0 <= i < |u| && u[i] == s[0];
      WithoutOne(s, u, i);
      CountPermuted(p, s[1..], u[..i] + u[i + 1..]);
      CountWithout(p, u, i);
    }
  }

  lemma WithoutOne<T>(s: seq<T>, u: seq<T>, i: nat)
    requires multiset(s) == multiset(u) && s != [] && i < |u| && u[i] == s[0]
    ensures multiset(s[1..]) == multiset(u[..i] + u[i + 1..])
  {
    assert s == [s[0]] + s[1..];
    assert u == u[..i] + [u[i]] + u[i + 1..];
    var v, w := multiset(s[1..]), multiset(u[..i] + u[i + 1..]);
    assert multiset(s) == multiset{s[0]} + v;
    assert multiset(u) == multiset{s[0]} + w;
    assert v == multiset(s) - multiset{s[0]} == w;
  }

  lemma CountWithout<T>(p: T -> bool, u: seq<T>, i: nat)
    requires i < |u|
    ensures Count(p, u) == Count(p, u[..i] + u[i + 1..]) + (if p(u[i]) then 1 else 0)
  {
    assert u == u[..i] + u[i..];
    CountConcat(p, u[..i], u[i..]);
    CountConcat(p, u[..i], u[i + 1..]);
    assert u[i..][1..] == u[i + 1..];
  }

  lemma {:induction false} CountAlike<T>(p: T -> bool, s: seq<T>, u: seq<T>)
    requires |s| == |u| && forall i :: 0 <= i < |s| ==> (p(s[i]) <==> p(u[i]))
    ensures Count(p, s) == Count(p, u)
    decreases |s|
  {
    if s != [] {
      CountAlike(p, s[1..], u[1..]);
    }
  }

  lemma {:induction false} CountSome<T>(p: T -> bool, s: seq<T>)
    ensures Count(p, s) > 0 <==> exists i :: 0 <= i < |s| && p(s[i])
    decreases |s|
  {
    if s != [] {
      CountSome(p, s[1..]);
      if Count(p, s[1..]) > 0 {
        var i :| 0 <= i < |s[1..]| && p(s[1..][i]);
        assert p(s[i + 1]);
      }
      if i :| 0 < i < |s| && p(s[i]) {
        assert p(s[1..][i - 1]);
      }
    }
  }

  /** Two arrangements alike before `k` have the same kinds of elements from `k` on. */
  lemma SomeFrom<T>(p: T -> bool, s: seq<T>, u: seq<T>, k: nat, j: nat) returns (i: nat)
    requires multiset(s) == multiset(u) && k <= j < |u| == |s| && p(u[j])
    requires forall m :: 0 <= m < k ==> (p(s[m]) <==> p(u[m]))
    ensures k <= i < |s| && p(s[i])
  {
    var q, v := s[k..], u[k..];
    CountFrom(p, s, u, k);
    CountSome(p, v);
    assert p(v[j - k]);
    CountSome(p, q);
    var m :| 0 <= m < |q| && p(q[m]);
    i := k + m;
  }

  lemma CountFrom<T>(p: T -> bool, s: seq<T>, u: seq<T>, k: nat)
    requires multiset(s) == multiset(u) && k <= |u| == |s| && forall m :: 0 <= m < k ==> (p(s[m]) <==> p(u[m]))
    ensures Count(p, s[k..]) == Count(p, u[k..])
  {
    CountPermuted(p, s, u);
    CountConcat(p, s[..k], s[k..]);
    CountConcat(p, u[..k], u[k..]);
    assert s == s[..k] + s[k..] && u == u[..k] + u[k..];
    CountAlike(p, s[..k], u[..k]);
  }

  // ---------- which arrangement comes next ----------

  /** An arrangement can only be exceeded at a place with a greater element behind it. */
  lemma GreaterBehind<T(!new)>(lt: (T, T) -> bool, s: seq<T>, u: seq<T>, k: nat) returns (i: nat)
    requires StrictWeakOrder(lt) && multiset(s) == multiset(u) && LexAt(lt, s, u, k)
    ensures k < i < |s| && lt(s[k], s[i])
  {
    i := SomeFrom(z => !lt(z, u[k]), s, u, k, k);
  }

  lemma FlipIsOrder<T(!new)>(lt: (T, T) -> bool)
    requires StrictWeakOrder(lt)
    ensures StrictWeakOrder(Flip(lt))
  {
  }

  lemma FlipLex<T(!new)>(lt: (T, T) -> bool, s: seq<T>, u: seq<T>, k: nat)
    ensures LexAt(Flip(lt), s, u, k) <==> LexAt(lt, u, s, k)
  {
  }

  /** No arrangement comes after a descending one. */
  lemma DescendingIsLast<T(!new)>(lt: (T, T) -> bool, s: seq<T>, u: seq<T>)
    requires StrictWeakOrder(lt) && multiset(s) == multiset(u) && Sorted(Flip(lt), s)
    ensures !LexLess(lt, s, u)
  {
    if LexLess(lt, s, u) {
      var k: nat :| LexAt(lt, s, u, k);
      var i := GreaterBehind(lt, s, u, k);
      assert false;
    }
  }

  /** `r` is `s` up to `m`, has there the least of the greater elements behind, and ascends after that. */
  ghost predicate StepUp<T>(lt: (T, T) -> bool, s: seq<T>, r: seq<T>, m: nat) {
    && m < |s| == |r| && multiset(r) == multiset(s) && s[..m] == r[..m] && lt(s[m], r[m])
    && Sorted(Flip(lt), s[m + 1..]) && Sorted(lt, r[m + 1..])
    && (forall i :: m < i < |s| && lt(s[m], s[i]) ==> !lt(s[i], r[m]))
  }

  lemma StepUpIsMore<T(!new)>(lt: (T, T) -> bool, s: seq<T>, r: seq<T>, m: nat)
    requires StrictWeakOrder(lt) && StepUp(lt, s, r, m)
    ensures LexAt(lt, s, r, m)
  {
    forall i | 0 <= i < m ensures Equiv(lt, s[i], r[i]) {
      assert s[i] == s[..m][i] == r[..m][i];
    }
  }

  lemma TailOrder<T(!new)>(lt: (T, T) -> bool, q: seq<T>, m: nat)
    requires m < |q| && Sorted(lt, q[m + 1..])
    ensures forall k, i :: m < k < i < |q| ==> !lt(q[i], q[k])
  {
    forall k, i | m < k < i < |q| ensures !lt(q[i], q[k]) {
      assert q[m + 1..][k - m - 1] == q[k] && q[m + 1..][i - m - 1] == q[i];
    }
  }

  /** What comes after `s` differs from it at `m` or before. */
  lemma DiffersBy<T(!new)>(lt: (T, T) -> bool, s: seq<T>, r: seq<T>, m: nat, u: seq<T>, k: nat)
    requires StrictWeakOrder(lt) && StepUp(lt, s, r, m) && multiset(u) == multiset(s) && LexAt(lt, s, u, k)
    ensures k <= m
  {
    var i := GreaterBehind(lt, s, u, k);
    TailOrder(Flip(lt), s, m);
  }

  /** Where it differs at `m`, it has there nothing below what `r` has. */
  lemma NotBelow<T(!new)>(lt: (T, T) -> bool, s: seq<T>, r: seq<T>, m: nat, u: seq<T>)
    requires StrictWeakOrder(lt) && StepUp(lt, s, r, m) && multiset(u) == multiset(s) && LexAt(lt, s, u, m)
    ensures !lt(u[m], r[m])
  {
    var i := SomeFrom(z => Equiv(lt, z, u[m]), s, u, m, m);
    assert lt(s[m], s[i]);
  }

  /** Behind an ascending tail nothing smaller is possible. */
  lemma NotSmallerBehind<T(!new)>(lt: (T, T) -> bool, r: seq<T>, m: nat, u: seq<T>, k: nat)
    requires StrictWeakOrder(lt) && multiset(u) == multiset(r) && LexAt(lt, u, r, k) && m < |r|
             && Sorted(lt, r[m + 1..])
    ensures k <= m
  {
    FlipIsOrder(lt);
    FlipLex(lt, r, u, k);
    var i := GreaterBehind(Flip(lt), r, u, k);
    TailOrder(lt, r, m);
  }

  lemma StepUpIsLeast<T(!new)>(lt: (T, T) -> bool, s: seq<T>, r: seq<T>, m: nat, u: seq<T>)
    requires StrictWeakOrder(lt) && StepUp(lt, s, r, m) && multiset(u) == multiset(s) && LexLess(lt, s, u)
    ensures !LexLess(lt, u, r)
  {
    if LexLess(lt, u, r) {
      var k: nat :| LexAt(lt, s, u, k);
      var l: nat :| LexAt(lt, u, r, l);
      DiffersBy(lt, s, r, m, u, k);
      NotSmallerBehind(lt, r, m, u, l);
      StepUpIsMore(lt, s, r, m);
      Between(lt, s, u, r, k, l, m);
      NotBelow(lt, s, r, m, u);
    }
  }

  /** Of three arrangements, each before the next, the second differs from both where they differ, or later from one. */
  lemma Between<T(!new)>(lt: (T, T) -> bool, s: seq<T>, u: seq<T>, r: seq<T>, k: nat, l: nat, m: nat)
    requires StrictWeakOrder(lt) && LexAt(lt, s, u, k) && LexAt(lt, u, r, l) && LexAt(lt, s, r, m) && k <= m && l <= m
    ensures k == m == l
  {
  }

  // ---------- the algorithm ----------

  /** `s` is `p`, then `x`, then the longest descending tail `d`; `j` is the last place in `d` above `x`. */
  ghost predicate Pivot<T>(lt: (T, T) -> bool, x: T, d: seq<T>, j: nat) {
    Sorted(Flip(lt), d) && j < |d| && lt(x, d[j]) && forall i :: j < i < |d| ==> !lt(x, d[i])
  }

  lemma DescendingStill<T(!new)>(lt: (T, T) -> bool, x: T, d: seq<T>, j: nat)
    requires StrictWeakOrder(lt) && Pivot(lt, x, d, j)
    ensures Sorted(Flip(lt), d[j := x])
  {
    forall i | 0 <= i < j ensures !lt(d[i], x) {
      assert !Flip(lt)(d[j], d[i]);
    }
  }

  lemma ReverseSorted<T(!new)>(lt: (T, T) -> bool, d: seq<T>)
    requires Sorted(Flip(lt), d)
    ensures Sorted(lt, Reverse(d))
  {
    var r := Reverse(d);
    forall i, j | 0 <= i < j < |r| ensures !lt(r[j], r[i]) {
      ReverseAt(d, i);
      ReverseAt(d, j);
      assert !Flip(lt)(d[|d| - 1 - i], d[|d| - 1 - j]);
    }
  }

  lemma TradeKeeps<T>(p: seq<T>, x: T, d: seq<T>, j: nat)
    requires j < |d|
    ensures multiset(p + [d[j]] + Reverse(d[j := x])) == multiset(p + [x] + d)
  {
    ReverseKeeps(d[j := x]);
    assert multiset(d[j := x]) + multiset{d[j]} == multiset(d) + multiset{x};
  }

  lemma PivotSteps<T(!new)>(lt: (T, T) -> bool, p: seq<T>, x: T, d: seq<T>, j: nat)
    requires StrictWeakOrder(lt) && Pivot(lt, x, d, j)
    ensures StepUp(lt, p + [x] + d, p + [d[j]] + Reverse(d[j := x]), |p|)
  {
    var s, r, m := p + [x] + d, p + [d[j]] + Reverse(d[j := x]), |p|;
    DescendingStill(lt, x, d, j);
    ReverseSorted(lt, d[j := x]);
    TradeKeeps(p, x, d, j);
    assert s[m + 1..] == d && r[m + 1..] == Reverse(d[j := x]);
    forall i | m < i < |s| && lt(s[m], s[i]) ensures !lt(s[i], r[m]) {
      assert s[i] == d[i - m - 1];
      assert i - m - 1 < j ==> !Flip(lt)(d[j], d[i - m - 1]);
    }
  }

  lemma PivotIsNext<T(!new)>(lt: (T, T) -> bool, p: seq<T>, x: T, d: seq<T>, j: nat)
    requires StrictWeakOrder(lt) && Pivot(lt, x, d, j)
    ensures NextIs(lt, p + [x] + d, true, p + [d[j]] + Reverse(d[j := x]))
  {
    var s, r := p + [x] + d, p + [d[j]] + Reverse(d[j := x]);
    PivotSteps(lt, p, x, d, j);
    StepUpIsMore(lt, s, r, |p|);
    forall u | multiset(u) == multiset(s) && LexLess(lt, s, u) ensures !LexLess(lt, u, r) {
      StepUpIsLeast(lt, s, r, |p|, u);
    }
  }

  lemma NoneIsNext<T(!new)>(lt: (T, T) -> bool, d: seq<T>)
    requires StrictWeakOrder(lt) && Sorted(Flip(lt), d)
    ensures NextIs(lt, d, false, Reverse(d))
  {
    ReverseSorted(lt, d);
    ReverseKeeps(d);
    forall u | multiset(u) == multiset(d) ensures !LexLess(lt, d, u) {
      DescendingIsLast(lt, d, u);
    }
  }

  // ---------- the inverse ----------

  ghost predicate Total<T(!new)>(lt: (T, T) -> bool) {
    forall a, b :: Equiv(lt, a, b) ==> a == b
  }

  /** In a total order two different arrangements are in lexicographic order one way or the other. */
  lemma {:induction false} LexTotal<T(!new)>(lt: (T, T) -> bool, s: seq<T>, u: seq<T>, k: nat)
    requires Total(lt) && k <= |s| == |u| && s[..k] == u[..k] && s != u && StrictWeakOrder(lt)
    ensures LexLess(lt, s, u) || LexLess(lt, u, s)
    decreases |s| - k
  {
    assert s[..|s|] == s && u[..|u|] == u;
    if s[k] == u[k] {
      assert s[..k + 1] == s[..k] + [s[k]] && u[..k + 1] == u[..k] + [u[k]];
      LexTotal(lt, s, u, k + 1);
    } else {
      forall i | 0 <= i < k ensures Equiv(lt, s[i], u[i]) {
        assert s[i] == s[..k][i] && u[i] == u[..k][i];
      }
      assert !Equiv(lt, s[k], u[k]);
      assert LexAt(lt, s, u, k) || LexAt(lt, u, s, k);
    }
  }

  lemma SameLength<T>(s: seq<T>, u: seq<T>)
    requires multiset(s) == multiset(u)
    ensures |s| == |u|
  {
    assert |multiset(s)| == |multiset(u)|;
  }

  lemma FlipLexLess<T(!new)>(lt: (T, T) -> bool, s: seq<T>, u: seq<T>)
    ensures LexLess(Flip(lt), s, u) <==> LexLess(lt, u, s)
  {
    if LexLess(Flip(lt), s, u) {
      var k: nat :| LexAt(Flip(lt), s, u, k);
      FlipLex(lt, s, u, k);
    }
    if LexLess(lt, u, s) {
      var k: nat :| LexAt(lt, u, s, k);
      FlipLex(lt, s, u, k);
    }
  }

  /**
   On totally ordered values, duplicates allowed, `prev_permutation` undoes `next_permutation`, and
   tells the wrap-around from a step in the same way.
   */
  lemma PrevUndoesNext<T(!new)>(lt: (T, T) -> bool, s: seq<T>, more: bool, r: seq<T>, less: bool, q: seq<T>)
    requires StrictWeakOrder(lt) && Total(lt) && NextIs(lt, s, more, r) && NextIs(Flip(lt), r, less, q)
    ensures q == s && less == more
  {
    SameLength(s, r);
    SameLength(r, q);
    FlipLexLess(lt, r, s);
    FlipLexLess(lt, r, q);
    FlipLexLess(lt, s, q);
    FlipLexLess(lt, q, s);
    if more {
      assert LexLess(Flip(lt), r, s);
      StepBack(lt, s, r, q);
    } else {
      WrapBack(lt, s, r, less, q);
    }
    if q != s {
      LexTotal(lt, s, q, 0);
    }
  }

  lemma StepBack<T(!new)>(lt: (T, T) -> bool, s: seq<T>, r: seq<T>, q: seq<T>)
    requires NextIs(lt, s, true, r) && NextIs(Flip(lt), r, true, q)
    ensures !LexLess(lt, s, q) && !LexLess(lt, q, s)
  {
    FlipLexLess(lt, r, q);
    FlipLexLess(lt, r, s);
    FlipLexLess(lt, s, q);
  }

  lemma WrapBack<T(!new)>(lt: (T, T) -> bool, s: seq<T>, r: seq<T>, less: bool, q: seq<T>)
    requires StrictWeakOrder(lt) && NextIs(lt, s, false, r) && NextIs(Flip(lt), r, less, q)
    ensures !less && !LexLess(lt, s, q) && !LexLess(lt, q, s)
  {
    if less {
      var k: nat :| LexAt(Flip(lt), r, q, k);
      FlipLex(lt, r, q, k);
      NotSmallerAtAll(lt, r, q, k);
    }
    DescendingIsLast(lt, q, s);
  }

  lemma NotSmallerAtAll<T(!new)>(lt: (T, T) -> bool, r: seq<T>, u: seq<T>, k: nat)
    requires StrictWeakOrder(lt) && multiset(u) == multiset(r) && Sorted(lt, r)
    ensures !LexAt(lt, u, r, k)
  {
    if LexAt(lt, u, r, k) {
      FlipIsOrder(lt);
      FlipLex(lt, r, u, k);
      var i := GreaterBehind(Flip(lt), r, u, k);
    }
  }

  // ---------- on an array ----------

  /** The last place in the descending tail `d` above `x`; `x` itself stops no scan, but the first of `d` would. */
  method LastAbove<T(!new)>(lt: (T, T) -> bool, a: array<T>, x: T, last: nat, ghost pre: seq<T>, ghost d: seq<T>,
                            ghost post: seq<T>)
    returns (j: nat)
    requires a[..] == pre + d + post && last == |pre| + |d| && d != [] && lt(x, d[0])
    ensures |pre| <= j < last && lt(x, d[j - |pre|]) && forall i :: j - |pre| < i < |d| ==> !lt(x, d[i])
  {
    j := last - 1;
    var y := Load(a, j, pre, d, post);
    while !lt(x, y)
      invariant |pre| <= j < last && y == d[j - |pre|] && forall i :: j - |pre| < i < |d| ==> !lt(x, d[i])
      decreases j
    {
      assert j - |pre| != 0;
      j := j - 1;
      y := Load(a, j, pre, d, post);
    }
  }

  lemma DescendingCons<T(!new)>(lt: (T, T) -> bool, x: T, d: seq<T>)
    requires StrictWeakOrder(lt) && Sorted(Flip(lt), d) && d != [] && !lt(x, d[0])
    ensures Sorted(Flip(lt), [x] + d)
  {
    var e := [x] + d;
    forall i, j | 0 <= i < j < |e| ensures !Flip(lt)(e[j], e[i]) {
      assert j > 1 ==> !Flip(lt)(d[j - 1], d[0]);
    }
  }

  /** The exchange and the reversal. */
  method Trade<T>(a: array<T>, i: nat, j: nat, last: nat, ghost pre: seq<T>, ghost p: seq<T>, ghost x: T,
                  ghost d: seq<T>, ghost k: nat, ghost post: seq<T>)
    requires a[..] == pre + (p + [x] + d) + post && i == |pre| + |p| && last == i + 1 + |d| && j == i + 1 + k && k < |d|
    modifies a
    ensures a[..] == pre + (p + [d[k]] + Reverse(d[k := x])) + post
  {
    Swap(a, i, j, pre, p + [x] + d, post);
    Exchanged(p, x, d, k);
    ghost var e := d[k := x];
    Rebracket(pre, p + [d[k]], e, post);
    ReverseRange(a, i + 1, last, pre + (p + [d[k]]), e, post);
    Rebracket(pre, p + [d[k]], Reverse(e), post);
  }

  lemma Rebracket<T>(w: seq<T>, x: seq<T>, y: seq<T>, z: seq<T>)
    ensures w + (x + y) + z == (w + x) + y + z
  {
  }

  method Advance<T(!new)>(lt: (T, T) -> bool, a: array<T>, i: nat, last: nat, x: T, ghost pre: seq<T>, ghost p: seq<T>,
                          ghost d: seq<T>, ghost post: seq<T>) returns (ghost r: seq<T>)
    requires StrictWeakOrder(lt) && a[..] == pre + (p + [x] + d) + post && i == |pre| + |p| && last == i + 1 + |d|
    requires Sorted(Flip(lt), d) && d != [] && lt(x, d[0])
    modifies a
    ensures NextIs(lt, p + [x] + d, true, r) && a[..] == pre + r + post
  {
    Rebracket(pre, p + [x], d, post);
    var j := LastAbove(lt, a, x, last, pre + (p + [x]), d, post);
    ghost var k := j - i - 1;
    Trade(a, i, j, last, pre, p, x, d, k, post);
    r := p + [d[k]] + Reverse(d[k := x]);
    PivotIsNext(lt, p, x, d, k);
  }

  lemma Exchanged<T>(p: seq<T>, x: T, d: seq<T>, k: nat)
    requires k < |d|
    ensures Swapped(p + [x] + d, |p|, |p| + 1 + k) == p + [d[k]] + d[k := x]
  {
  }

  /** `next_permutation`. */
  method NextPermutation<T(!new)>(lt: (T, T) -> bool, a: array<T>, first: nat, last: nat, ghost pre: seq<T>,
                                  ghost s: seq<T>, ghost post: seq<T>) returns (more: bool, ghost r: seq<T>)
    requires StrictWeakOrder(lt) && a[..] == pre + s + post && |pre| == first <= last && |s| == last - first
    modifies a
    ensures NextIs(lt, s, more, r) && a[..] == pre + r + post
  {
    if first == last || first + 1 == last {
      OneIsLast(lt, s);
      more, r := false, s;
      return;
    }
    var found, i, x;
    ghost var p, d;
    found, i, x, p, d := LastAscent(lt, a, first, last, pre, s, post);
    if found {
      r := Advance(lt, a, i, last, x, pre, p, d, post);
    } else {
      NoneIsNext(lt, s);
      ReverseRange(a, first, last, pre, s, post);
      r := Reverse(s);
    }
    more := found;
  }

  /** The scan for the last element below its successor. */
  method LastAscent<T(!new)>(lt: (T, T) -> bool, a: array<T>, first: nat, last: nat,
                             ghost pre: seq<T>, ghost s: seq<T>, ghost post: seq<T>)
    returns (found: bool, i: nat, x: T, ghost p: seq<T>, ghost d: seq<T>)
    requires StrictWeakOrder(lt) && a[..] == pre + s + post && |pre| == first && first + 1 < last && |s| == last - first
    ensures found ==>
              first <= i < last && s == p + [x] + d && |p| == i - first && Sorted(Flip(lt), d) && d != [] && lt(x, d[0])
    ensures !found ==> Sorted(Flip(lt), s)
  {
    i := last - 1;
    p, d := s[..|s| - 1], s[|s| - 1..];
    var y := Load(a, i, pre, s, post);
    while true
      invariant first < i < last && s == p + d && |p| == i - first && Sorted(Flip(lt), d) && d != [] && d[0] == y
      decreases i
    {
      i := i - 1;
      x := Load(a, i, pre, s, post);
      p := p[..|p| - 1];
      assert s == p + [x] + d == p + ([x] + d);
      if lt(x, y) {
        found := true;
        return;
      }
      DescendingCons(lt, x, d);
      d, y := [x] + d, x;
      if i == first {
        assert s == d;
        found := false;
        return;
      }
    }
  }

  lemma OneIsLast<T(!new)>(lt: (T, T) -> bool, s: seq<T>)
    requires StrictWeakOrder(lt) && |s| <= 1
    ensures NextIs(lt, s, false, s)
  {
    forall u | multiset(u) == multiset(s) ensures !LexLess(lt, s, u) {
      DescendingIsLast(lt, s, u);
    }
  }

  /** `prev_permutation` compares the other way round throughout. */
  method PrevPermutation<T(!new)>(lt: (T, T) -> bool, a: array<T>, first: nat, last: nat, ghost pre: seq<T>,
                                  ghost s: seq<T>, ghost post: seq<T>) returns (less: bool, ghost r: seq<T>)
    requires StrictWeakOrder(lt) && a[..] == pre + s + post && |pre| == first <= last && |s| == last - first
    modifies a
    ensures NextIs(Flip(lt), s, less, r) && a[..] == pre + r + post
  {
    FlipIsOrder(lt);
    less, r := NextPermutation(Flip(lt), a, first, last, pre, s, post);
  }

  /** Forth and back: the range is what it was. */
  method NextThenPrev<T(!new)>(lt: (T, T) -> bool, a: array<T>, first: nat, last: nat) returns (more: bool, less: bool)
    requires StrictWeakOrder(lt) && Total(lt) && first <= last <= a.Length
    modifies a
    ensures a[..] == old(a[..]) && less == more
  {
    ghost var pre, s, post := a[..first], a[first..last], a[last..];
    assert a[..] == pre + s + post;
    ghost var r, q;
    more, r := NextPermutation(lt, a, first, last, pre, s, post);
    SameLength(r, s);
    less, q := PrevPermutation(lt, a, first, last, pre, r, post);
    PrevUndoesNext(lt, s, more, r, less, q);
  }
}
