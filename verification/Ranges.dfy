/** A range of an array: `a` holds `pre`, then the range, then `post`. */
module Ranges {

  /** `*(first + i) = x`, where the range holds `h`. */
  method Store<T>(a: array<T>, i: nat, x: T, ghost pre: seq<T>, ghost h: seq<T>, ghost post: seq<T>)
    requires a[..] == pre + h + post && |pre| <= i < |pre| + |h|
    modifies a
    ensures a[..] == pre + h[i - |pre| := x] + post
  {
    a[i] := x;
  }

  /** `*(first + i)`, where the range holds `h`. */
  method Load<T>(a: array<T>, i: nat, ghost pre: seq<T>, ghost h: seq<T>, ghost post: seq<T>) returns (x: T)
    requires a[..] == pre + h + post && |pre| <= i < |pre| + |h|
    ensures x == h[i - |pre|]
  {
    x := a[..][i];
  }

  /** `iter_swap` (headers/cpp/stl_algobase.h:62-72). */
  method Swap<T>(a: array<T>, i: nat, j: nat, ghost pre: seq<T>, ghost h: seq<T>, ghost post: seq<T>)
    requires a[..] == pre + h + post && |pre| <= i < |pre| + |h| && |pre| <= j < |pre| + |h|
    modifies a
    ensures a[..] == pre + Swapped(h, i - |pre|, j - |pre|) + post
  {
    a[i], a[j] := a[j], a[i];
  }

  function Swapped<T>(h: seq<T>, i: nat, j: nat): (r: seq<T>)
    requires i < |h| && j < |h|
    ensures |r| == |h| && multiset(r) == multiset(h)
  {
    h[i := h[j]][j := h[i]]
  }
}
