/** Doubly linked chains and rings of nodes (headers/cpp/stl_list.h:38-47, 468-483). */
module ListRing {
  import opened Basics

  type Links = map<nat, nat>

  lemma NoRepeatsJoin(s: seq<nat>, t: seq<nat>)
    ensures NoRepeats(s + t) <==> NoRepeats(s) && NoRepeats(t) && forall x :: x in s ==> x !in t
  {
    var u := s + t;
    if NoRepeats(u) {
      forall i, j | 0 <= i < j < |s| ensures s[i] != s[j] {
        assert u[i] != u[j];
      }
      forall i, j | 0 <= i < j < |t| ensures t[i] != t[j] {
        assert u[|s| + i] != u[|s| + j];
      }
      forall i, j | 0 <= i < |s| && 0 <= j < |t| ensures s[i] != t[j] {
        assert u[i] != u[|s| + j];
      }
    } else {
      var i, j :| 0 <= i < j < |u| && u[i] == u[j];
      assert i < |s| <= j ==> s[i] in s && t[j - |s|] in t;
      assert |s| <= i ==> t[i - |s|] == t[j - |s|];
    }
  }

  lemma {:induction false} NoRepeatsPermuted(s: seq<nat>, t: seq<nat>)
    requires NoRepeats(s) && multiset(s) == multiset(t)
    ensures NoRepeats(t)
  {
    OnlyOnce(s);
    forall i, j | 0 <= i < j < |t| ensures t[i] != t[j] {
      var u, w := t[..j], t[j..];
      assert t == u + w && t[i] == u[i] && t[j] == w[0];
      assert multiset(t)[t[j]] <= 1;
      assert t[j] in multiset(w);
      assert t[i] in multiset(u);
    }
  }

  lemma {:induction false} OnlyOnce(s: seq<nat>)
    requires NoRepeats(s)
    ensures forall x :: multiset(s)[x] <= 1
    decreases |s|
  {
    if s != [] {
      OnlyOnce(s[1..]);
      assert s == [s[0]] + s[1..];
      assert s[0] !in multiset(s[1..]);
    }
  }

  /** `y` follows `x`, in both directions. */
  predicate Link(next: Links, prev: Links, x: nat, y: nat) {
    x in next && next[x] == y && y in prev && prev[y] == x
  }

  predicate LinkAt(next: Links, prev: Links, s: seq<nat>, i: nat)
    requires i + 1 < |s|
  {
    Link(next, prev, s[i], s[i + 1])
  }

  /** Each node of `s` is linked with the one after it. */
  ghost predicate Linked(next: Links, prev: Links, s: seq<nat>) {
    forall i: nat :: i + 1 < |s| ==> LinkAt(next, prev, s, i)
  }

  function End(s: seq<nat>): nat
    requires s != []
  {
    s[|s| - 1]
  }

  lemma LinkedJoin(next: Links, prev: Links, s: seq<nat>, t: seq<nat>)
    requires s != [] && t != [] && Linked(next, prev, s) && Linked(next, prev, t) && Link(next, prev, End(s), t[0])
    ensures Linked(next, prev, s + t)
  {
    var u := s + t;
    forall i: nat | i + 1 < |u| ensures LinkAt(next, prev, u, i) {
      if i + 1 < |s| {
        assert LinkAt(next, prev, s, i);
      } else if i >= |s| {
        assert LinkAt(next, prev, t, i - |s|);
      }
    }
  }

  lemma LinkedParts(next: Links, prev: Links, s: seq<nat>, t: seq<nat>)
    requires Linked(next, prev, s + t)
    ensures Linked(next, prev, s) && Linked(next, prev, t) && (s != [] && t != [] ==> Link(next, prev, End(s), t[0]))
  {
    var u := s + t;
    forall i: nat | i + 1 < |s| ensures LinkAt(next, prev, s, i) {
      assert LinkAt(next, prev, u, i);
    }
    forall i: nat | i + 1 < |t| ensures LinkAt(next, prev, t, i) {
      assert LinkAt(next, prev, u, |s| + i);
    }
    if s != [] && t != [] {
      assert LinkAt(next, prev, u, |s| - 1);
    }
  }

  /** The links that leave and enter `s` in its inside are the same. */
  ghost predicate InsideSame(next: Links, prev: Links, next': Links, prev': Links, s: seq<nat>) {
    && (forall i :: 0 <= i < |s| - 1 ==> (s[i] in next
                                          && s[i] in next' ==>
                                               next'[s[i]] == next[s[i]]) && (s[i] in next ==> s[i] in next'))
    && (forall i :: 0 < i < |s| ==> (s[i] in prev && s[i] in prev' ==> prev'[s[i]] == prev[s[i]]) && (s[i] in prev ==>
        s[i] in prev'))
  }

  lemma LinkedSame(next: Links, prev: Links, next': Links, prev': Links, s: seq<nat>)
    requires Linked(next, prev, s) && InsideSame(next, prev, next', prev', s)
    ensures Linked(next', prev', s)
  {
    forall i: nat | i + 1 < |s| ensures LinkAt(next', prev', s, i) {
      assert LinkAt(next, prev, s, i);
      assert s[i] in next && s[i + 1] in prev;
    }
  }

  /** A ring opened before any of its nodes. */
  lemma RingOpened(next: Links, prev: Links, h: nat, a: seq<nat>, b: seq<nat>)
    requires Linked(next, prev, [h] + (a + b) + [h])
    ensures Linked(next, prev, b + [h] + a) && Link(next, prev, End([h] + a), (b + [h])[0])
  {
    assert [h] + (a + b) + [h] == ([h] + a) + (b + [h]);
    LinkedParts(next, prev, [h] + a, b + [h]);
    assert [h] + a == [h] + a;
    if a == [] {
      assert b + [h] + a == b + [h];
    } else {
      LinkedParts(next, prev, [h], a);
      LinkedJoin(next, prev, b + [h], a);
    }
  }

  lemma RingClosed(next: Links, prev: Links, h: nat, a: seq<nat>, b: seq<nat>)
    requires Linked(next, prev, b + [h] + a) && Link(next, prev, End([h] + a), (b + [h])[0])
    ensures Linked(next, prev, [h] + (a + b) + [h])
  {
    LinkedParts(next, prev, b + [h], a);
    assert b + [h] + a == b + ([h] + a);
    LinkedParts(next, prev, b, [h] + a);
    LinkedJoin(next, prev, [h] + a, b + [h]);
    assert ([h] + a) + (b + [h]) == [h] + (a + b) + [h];
  }

  /** A piece let into a ring. */
  lemma RingWith(next: Links, prev: Links, h: nat, a: seq<nat>, s: seq<nat>, b: seq<nat>)
    requires s != [] && Linked(next, prev, b + [h] + a) && Linked(next, prev, s)
    requires Link(next, prev, End([h] + a), s[0]) && Link(next, prev, End(s), (b + [h])[0])
    ensures Linked(next, prev, [h] + (a + s + b) + [h])
  {
    var p := b + [h] + a;
    assert End(p) == End([h] + a) && p[0] == (b + [h])[0];
    LinkedJoin(next, prev, p, s);
    assert p + s == b + [h] + (a + s);
    RingClosed(next, prev, h, a + s, b);
  }
}
