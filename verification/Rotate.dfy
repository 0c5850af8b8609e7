/** `rotate` for forward and for bidirectional iterators (headers/cpp/stl_algo.h:705-757). */
module Rotate {
  import opened Ranges
  import opened Reversal

  /** What every form of `rotate` is to produce. */
  function Rotated<T>(s: seq<T>, k: nat): (r: seq<T>)
    requires k <= |s|
    ensures |r| == |s|
  {
    s[k..] + s[..k]
  }

  // ---------- forward iterators ----------

  /** The two front elements of `x` and `z` trade places. */
  method SwapFronts<T>(a: array<T>, f: nat, g: nat, ghost pre: seq<T>, ghost done: seq<T>, ghost x: seq<T>,
                       ghost y: seq<T>, ghost z: seq<T>, ghost post: seq<T>)
    requires a[..] == pre + (done + x + y + z) + post && x != [] && z != []
    requires f == |pre| + |done| && g == f + |x| + |y|
    modifies a
    ensures a[..] == pre + ((done + [z[0]]) + x[1..] + (y + [x[0]]) + z[1..]) + post
  {
    FrontsSwapped(done, x, y, z);
    Swap(a, f, g, pre, done + x + y + z, post);
  }

  lemma FrontsSwapped<T>(done: seq<T>, x: seq<T>, y: seq<T>, z: seq<T>)
    requires x != [] && z != []
    ensures Swapped(done + x + y + z, |done|, |done| + |x| + |y|) == (done + [z[0]]) + x[1..] + (y + [x[0]]) + z[1..]
  {
  }

  /**
   The state of the forward rotation: `done` is in place; of the rest, `x` and the part `y` already moved
   behind it belong after `z`.
   */
  ghost predicate Turning<T>(goal: seq<T>, done: seq<T>, x: seq<T>, y: seq<T>, z: seq<T>) {
    done + z + y + x == goal && x != []
  }

  lemma TurnOne<T>(goal: seq<T>, done: seq<T>, x: seq<T>, y: seq<T>, z: seq<T>)
    requires Turning(goal, done, x, y, z) && z != []
    ensures (done + [z[0]]) + z[1..] + (y + [x[0]]) + x[1..] == goal
  {
    assert x == [x[0]] + x[1..] && z == [z[0]] + z[1..];
    assert done + z + y + x == (done + [z[0]]) + z[1..] + (y + [x[0]]) + x[1..];
  }

  /** One round of either loop up to the test at its end. */
  method TurnRound<T>(a: array<T>, first0: nat, middle0: nat, second0: nat, ghost pre: seq<T>, ghost goal: seq<T>,
                      ghost done0: seq<T>, ghost x0: seq<T>, ghost y0: seq<T>, ghost z0: seq<T>, ghost post: seq<T>)
    returns (first: nat, middle: nat, second: nat, ghost done: seq<T>, ghost x: seq<T>, ghost y: seq<T>,
             ghost z: seq<T>)
    requires a[..] == pre + (done0 + x0 + y0 + z0) + post && Turning(goal, done0, x0, y0, z0) && z0 != []
    requires first0 == |pre| + |done0| && middle0 == first0 + |x0| && second0 == middle0 + |y0|
    modifies a
    ensures a[..] == pre + (done + x + y + z) + post && Turning(goal, done, x, y, z) && z == z0[1..]
            && |done| == |done0| + 1
    ensures first == |pre| + |done| && middle == first + |x| && second == middle + |y| && |x + y + z| < |x0 + y0 + z0|
    ensures first == first0 + 1 && second == second0 + 1 && (first == middle0 ==> y == [])
  {
    SwapFronts(a, first0, second0, pre, done0, x0, y0, z0, post);
    TurnOne(goal, done0, x0, y0, z0);
    first, second, middle := first0 + 1, second0 + 1, middle0;
    done, x, y, z := done0 + [z0[0]], x0[1..], y0 + [x0[0]], z0[1..];
    if first == middle {
      middle := second;
      assert done + x + y + z == done + y + [] + z;
      assert done + z + y + x == done + z + [] + y;
      x, y := y, [];
    }
  }

  /** The first loop: it ends when all of the second half has come to the front. */
  method TurnFirst<T>(a: array<T>, first0: nat, middle0: nat, last: nat, ghost pre: seq<T>, ghost x0: seq<T>,
                      ghost z0: seq<T>, ghost post: seq<T>)
    returns (first: nat, middle: nat, ghost done: seq<T>, ghost x: seq<T>, ghost y: seq<T>)
    requires a[..] == pre + (x0 + z0) + post && x0 != [] && z0 != []
    requires first0 == |pre| && middle0 == first0 + |x0| && last == middle0 + |z0|
    modifies a
    ensures a[..] == pre + (done + x + y) + post && Turning(z0 + x0, done, x, y, []) && |done| == |z0|
    ensures first == |pre| + |done| && middle == first + |x| && last == middle + |y|
  {
    var second: nat;
    ghost var z;
    first, middle, second, done, x, y, z := first0, middle0, middle0, [], x0, [], z0;
    assert [] + x0 + [] + z0 == x0 + z0 && [] + z0 + [] + x0 == z0 + x0;
    while true
      invariant a[..] == pre + (done + x + y + z) + post && Turning(z0 + x0, done, x, y, z) && z != []
      invariant first == |pre| + |done| && middle == first + |x| && second == middle + |y| && last == second + |z|
      invariant |done| + |z| == |z0|
      decreases |z|
    {
      first, middle, second, done, x, y, z := TurnRound(a, first, middle, second, pre, z0 + x0, done, x, y, z, post);
      if second == last {
        assert z == [] && done + x + y + z == done + x + y;
        return;
      }
    }
  }

  /** The second loop: the same turning on what is left, started again whenever the second part runs out. */
  method TurnRest<T>(a: array<T>, first0: nat, middle0: nat, last: nat, ghost pre: seq<T>, ghost goal: seq<T>,
                     ghost done0: seq<T>, ghost x0: seq<T>, ghost z0: seq<T>, ghost post: seq<T>)
    requires a[..] == pre + (done0 + x0 + z0) + post && Turning(goal, done0, x0, [], z0)
    requires first0 == |pre| + |done0| && middle0 == first0 + |x0| && last == middle0 + |z0|
    modifies a
    ensures a[..] == pre + goal + post
  {
    var first: nat, middle: nat, second: nat := first0, middle0, middle0;
    ghost var done, x, y, z := done0, x0, [], z0;
    assert done0 + x0 + z0 == done + x + y + z;
    while second != last
      invariant a[..] == pre + (done + x + y + z) + post && Turning(goal, done, x, y, z) && (z == [] ==> y == [])
      invariant first == |pre| + |done| && middle == first + |x| && second == middle + |y| && last == second + |z|
      decreases |x + y + z|
    {
      var was := middle;
      first, middle, second, done, x, y, z := TurnRound(a, first, middle, second, pre, goal, done, x, y, z, post);
      if first != was && second == last {
        assert done + x + y + z == done + x + [] + y && done + z + y + x == done + y + [] + x;
        second := middle;
        y, z := [], y;
      }
    }
    assert done + x + y + z == done + z + y + x;
  }

  /** `rotate` for forward iterators. */
  method RotateForward<T>(a: array<T>, first: nat, middle: nat, last: nat, ghost pre: seq<T>, ghost s: seq<T>,
                          ghost post: seq<T>)
    returns (mid: nat)
    requires a[..] == pre + s + post && |pre| == first <= middle <= last && |s| == last - first
    modifies a
    ensures a[..] == pre + Rotated(s, middle - first) + post && mid == first + (last - middle)
  {
    ghost var x, z := s[..middle - first], s[middle - first..];
    assert s == x + z;
    if first == middle {
      assert Rotated(s, 0) == s;
      return last;
    }
    if last == middle {
      assert Rotated(s, |s|) == s;
      return first;
    }
    var second;
    ghost var done, y;
    mid, second, done, x, y := TurnFirst(a, first, middle, last, pre, x, z, post);
    TurnRest(a, mid, second, last, pre, Rotated(s, middle - first), done, x, y, post) by {
      assert done + [] + y + x == done + y + [] + x;
    }
  }

  // ---------- bidirectional iterators ----------

  /** `rotate` for bidirectional iterators: both parts reversed, then the whole, as far as the parts reach. */
  method RotateBidirectional<T>(a: array<T>, first0: nat, middle: nat, last0: nat, ghost pre: seq<T>, ghost s: seq<T>,
                                ghost post: seq<T>)
    returns (mid: nat)
    requires a[..] == pre + s + post && |pre| == first0 <= middle <= last0 && |s| == last0 - first0
    modifies a
    ensures a[..] == pre + Rotated(s, middle - first0) + post && mid == first0 + (last0 - middle)
  {
    ghost var x, z := s[..middle - first0], s[middle - first0..];
    if first0 == middle {
      assert Rotated(s, 0) == s;
      return last0;
    }
    if last0 == middle {
      assert Rotated(s, |s|) == s;
      return first0;
    }
    assert pre + s + post == pre + x + (z + post);
    ReverseStepping(a, first0, middle, pre, x, z + post);
    assert pre + Reverse(x) + (z + post) == (pre + Reverse(x)) + z + post;
    ReverseStepping(a, middle, last0, pre + Reverse(x), z, post);
    assert (pre + Reverse(x)) + Reverse(z) + post == pre + (Reverse(x) + Reverse(z)) + post;
    mid := ReverseAcross(a, first0, middle, last0, pre, Reverse(x), Reverse(z), post);
    ReverseConcat(Reverse(x), Reverse(z));
    ReverseTwice(x);
    ReverseTwice(z);
  }

  /** Both ends are swapped inward until one meets the middle; what is left lies on one side of it. */
  method ReverseAcross<T>(a: array<T>, first0: nat, middle: nat, last0: nat, ghost pre: seq<T>, ghost x: seq<T>,
                          ghost z: seq<T>, ghost post: seq<T>) returns (mid: nat)
    requires a[..] == pre + (x + z) + post && |pre| == first0 && |x| == middle - first0 && |z| == last0 - middle
    requires first0 < middle < last0
    modifies a
    ensures a[..] == pre + Reverse(x + z) + post && mid == first0 + (last0 - middle)
  {
    var first: nat, last: nat := first0, last0;
    ghost var l, m, r := [], x + z, [];
    ghost var u, w := [], [];
    assert x + z == l + m + r == u + m + w;
    while first != middle && middle != last
      invariant first <= middle <= last && first - first0 == |l| == last0 - last == |r| && |m| == last - first
      invariant x + z == l + m + r && u == Reverse(r) && w == Reverse(l) && a[..] == pre + (u + m + w) + post
      decreases last - first
    {
      last := last - 1;
      SwapInward(a, first, last, pre, u, m, w, post);
      ReverseInward(l, m, r);
      u, w := u + [m[|m| - 1]], [m[0]] + w;
      l, m, r := l + [m[0]], m[1..|m| - 1], [m[|m| - 1]] + r;
      first := first + 1;
    }
    Rebracket(pre, u, m, w, post);
    if first == middle {
      ReverseStepping(a, middle, last, pre + u, m, w + post);
      mid := last;
    } else {
      ReverseStepping(a, first, middle, pre + u, m, w + post);
      mid := first;
    }
    ReverseThree(l, m, r);
    Rebracket(pre, u, Reverse(m), w, post);
  }

  lemma Rebracket<T>(pre: seq<T>, u: seq<T>, m: seq<T>, w: seq<T>, post: seq<T>)
    ensures pre + (u + m + w) + post == (pre + u) + m + (w + post)
  {
  }

  lemma ReverseThree<T>(l: seq<T>, m: seq<T>, r: seq<T>)
    ensures Reverse(l + m + r) == Reverse(r) + Reverse(m) + Reverse(l)
  {
    ReverseConcat(l + m, r);
    ReverseConcat(l, m);
    assert Reverse(r) + (Reverse(m) + Reverse(l)) == Reverse(r) + Reverse(m) + Reverse(l);
  }
}
