/** A few notions that several parts share. */
module Basics {

  function Max(a: nat, b: nat): nat {
    if a > b then a else b
  }

  function Pow2(n: nat): nat {
    if n == 0 then 1 else 2 * Pow2(n - 1)
  }

  lemma {:induction false} Pow2Grows(a: nat, b: nat)
    requires a <= b
    ensures Pow2(a) <= Pow2(b)
    decreases b
  {
    if a < b {
      Pow2Grows(a, b - 1);
    }
  }

  ghost predicate NoRepeats(s: seq<nat>) {
    forall i, j :: 0 <= i < j < |s| ==> s[i] != s[j]
  }

  /** A slice of a slice. */
  lemma SliceOfSlice<C>(s: seq<C>, from: nat, w: seq<C>, off: nat, len: nat)
    requires from + |w| <= |s| && s[from..from + |w|] == w && off + len <= |w|
    ensures w[off..off + len] == s[from + off..from + off + len]
  {
    var u := s[from..];
    assert w == u[..|w|];
    assert w[off..off + len] == u[off..off + len];
  }
}
