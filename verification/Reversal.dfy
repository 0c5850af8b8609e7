/** `reverse` (headers/cpp/stl_algo.h:656-676). */
module Reversal {
  import opened Ranges

  function Reverse<T>(s: seq<T>): (r: seq<T>)
    ensures |r| == |s|
    decreases |s|
  {
    if s == [] then [] else Reverse(s[1..]) + [s[0]]
  }

  lemma {:induction false} ReverseConcat<T>(s: seq<T>, t: seq<T>)
    ensures Reverse(s + t) == Reverse(t) + Reverse(s)
    decreases |s|
  {
    if s == [] {
      assert s + t == t;
    } else {
      ReverseConcat(s[1..], t);
      assert (s + t)[1..] == s[1..] + t;
    }
  }

  lemma {:induction false} ReverseTwice<T>(s: seq<T>)
    ensures Reverse(Reverse(s)) == s
    decreases |s|
  {
    if s != [] {
      ReverseConcat(Reverse(s[1..]), [s[0]]);
      ReverseTwice(s[1..]);
      ReverseOne(s[0]);
    }
  }

  lemma ReverseOne<T>(x: T)
    ensures Reverse([x]) == [x]
  {
    assert [x][1..] == [];
  }

  lemma {:induction false} ReverseKeeps<T>(s: seq<T>)
    ensures multiset(Reverse(s)) == multiset(s)
    decreases |s|
  {
    if s != [] {
      ReverseKeeps(s[1..]);
      assert s == [s[0]] + s[1..];
    }
  }

  lemma {:induction false} ReverseAt<T>(s: seq<T>, i: nat)
    requires i < |s|
    ensures Reverse(s)[i] == s[|s| - 1 - i]
    decreases |s|
  {
    if i < |s| - 1 {
      ReverseAt(s[1..], i);
    }
  }

  lemma ReverseInward<T>(y: seq<T>, m: seq<T>, z: seq<T>)
    requires |m| > 1
    ensures var n := |m| - 1;
            Reverse([m[n]] + z) == Reverse(z) + [m[n]] && Reverse(y + [m[0]]) == [m[0]] + Reverse(y)
            && y + m + z == (y + [m[0]]) + m[1..n] + ([m[n]] + z)
  {
    ReverseConcat([m[|m| - 1]], z);
    ReverseConcat(y, [m[0]]);
    ReverseOne(m[0]);
    ReverseOne(m[|m| - 1]);
  }

  lemma ReverseParts<T>(y: seq<T>, m: seq<T>, z: seq<T>)
    requires |m| <= 1
    ensures Reverse(y + m + z) == Reverse(z) + m + Reverse(y)
  {
    ReverseConcat(y + m, z);
    ReverseConcat(y, m);
    assert m == [] || m == [m[0]];
    if m != [] {
      ReverseOne(m[0]);
    }
    assert Reverse(z) + (m + Reverse(y)) == Reverse(z) + m + Reverse(y);
  }

  lemma SwapEnds<T>(y: seq<T>, m: seq<T>, z: seq<T>)
    requires |m| > 1
    ensures var n := |m| - 1;
            Swapped(y + m + z, |y|, |y| + n) == (y + [m[n]]) + m[1..n] + ([m[0]] + z)
  {
  }

  /** The two ends of what is left trade places. */
  method SwapInward<T>(a: array<T>, first: nat, last: nat, ghost pre: seq<T>, ghost u: seq<T>, ghost m: seq<T>,
                       ghost w: seq<T>, ghost post: seq<T>)
    requires a[..] == pre + (u + m + w) + post && |m| > 1 && first == |pre| + |u| && last == first + |m| - 1
    modifies a
    ensures a[..] == pre + ((u + [m[|m| - 1]]) + m[1..|m| - 1] + ([m[0]] + w)) + post
  {
    SwapEnds(u, m, w);
    Swap(a, first, last, pre, u + m + w, post);
  }

  /** `reverse` for random access iterators; in a range of odd length the last swap is of an element with itself. */
  method ReverseRange<T>(a: array<T>, first0: nat, last0: nat, ghost pre: seq<T>, ghost s: seq<T>, ghost post: seq<T>)
    requires a[..] == pre + s + post && |pre| == first0 <= last0 && |s| == last0 - first0
    modifies a
    ensures a[..] == pre + Reverse(s) + post
  {
    var first, last := first0, last0;
    ghost var y, m, z := [], s, [];
    ghost var u, w := Reverse(z), Reverse(y);
    assert s == y + m + z == u + m + w;
    while first < last
      invariant |pre| <= first && (first <= last ==> first == |pre| + |z| && |m| == last - first)
                && (first > last ==> |m| == 1)
      invariant s == y + m + z && u == Reverse(z) && w == Reverse(y) && a[..] == pre + (u + m + w) + post
      decreases last
    {
      last := last - 1;
      if first == last {
        Swap(a, first, last, pre, u + m + w, post);
        assert Swapped(u + m + w, first - |pre|, last - |pre|) == u + m + w;
      } else {
        SwapInward(a, first, last, pre, u, m, w, post);
        ReverseInward(y, m, z);
        u, w := u + [m[|m| - 1]], [m[0]] + w;
        y, m, z := y + [m[0]], m[1..|m| - 1], [m[|m| - 1]] + z;
      }
      first := first + 1;
    }
    ReverseParts(y, m, z);
  }

  /** `reverse` for bidirectional iterators. */
  method ReverseStepping<T>(a: array<T>, first0: nat, last0: nat, ghost pre: seq<T>, ghost s: seq<T>,
                            ghost post: seq<T>)
    requires a[..] == pre + s + post && |pre| == first0 <= last0 && |s| == last0 - first0
    modifies a
    ensures a[..] == pre + Reverse(s) + post
  {
    var first, last := first0, last0;
    ghost var y, m, z := [], s, [];
    ghost var u, w := Reverse(z), Reverse(y);
    assert s == y + m + z == u + m + w;
    while true
      invariant first == |pre| + |z| && first <= last && |m| == last - first
      invariant s == y + m + z && u == Reverse(z) && w == Reverse(y) && a[..] == pre + (u + m + w) + post
      decreases last - first
    {
      if first == last {
        ReverseParts(y, m, z);
        return;
      }
      last := last - 1;
      if first == last {
        ReverseParts(y, m, z);
        return;
      }
      SwapInward(a, first, last, pre, u, m, w, post);
      ReverseInward(y, m, z);
      u, w := u + [m[|m| - 1]], [m[0]] + w;
      y, m, z := y + [m[0]], m[1..|m| - 1], [m[|m| - 1]] + z;
      first := first + 1;
    }
  }
}
