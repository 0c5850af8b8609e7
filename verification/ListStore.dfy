/**
 Circular lists that share nodes' storage: `transfer`, `splice`, `merge`, `reverse` (headers/cpp/stl_list.h:468-497,
 708-783).
 */
module ListStore {
  import opened Basics
  import opened StableOrder
  import opened ListRing
  import opened Reversal

  // ---------- the three pieces of a transfer ----------

  /**
   `s` is to move in front of `p`. It lies between `b` and `l`; `a` ends in front of `p`. Either `a` and `b` are
   two rings opened (at `p` and at `l`), or parts of one ring.
   */
  ghost predicate Pieces(next: Links, prev: Links, a: seq<nat>, b: seq<nat>, s: seq<nat>, p: nat, l: nat) {
    && a != [] && b != [] && s != [] && NoRepeats(a + b + s) && p != l
    && Linked(next, prev, a) && Linked(next, prev, b) && Linked(next, prev, s)
    && Link(next, prev, End(a), p) && Link(next, prev, End(b), s[0]) && Link(next, prev, End(s), l)
    && ((a[0] == p && b[0] == l) || (a[0] == l && b[0] == p))
  }

  ghost predicate Moved(next: Links, prev: Links, a: seq<nat>, b: seq<nat>, s: seq<nat>, p: nat, l: nat)
    requires a != [] && b != [] && s != []
  {
    && Linked(next, prev, a) && Linked(next, prev, b) && Linked(next, prev, s)
    && Link(next, prev, End(a), s[0]) && Link(next, prev, End(s), p) && Link(next, prev, End(b), l)
  }

  /** The links of all other nodes are the same. */
  ghost predicate Elsewhere(next: Links, prev: Links, next': Links, prev': Links, touched: seq<nat>) {
    && (forall n :: n in next && n !in touched ==> n in next' && next'[n] == next[n])
    && (forall n :: n in prev && n !in touched ==> n in prev' && prev'[n] == prev[n])
  }

  /** No node is in two pieces, and the two ends of a piece are the only ones written. */
  lemma PieceKept(next: Links, prev: Links, next': Links, prev': Links, s: seq<nat>, ends: set<nat>, starts: set<nat>)
    requires Linked(next, prev, s)
    requires forall n :: n in next && n !in ends ==> n in next' && next'[n] == next[n]
    requires forall n :: n in prev && n !in starts ==> n in prev' && prev'[n] == prev[n]
    requires forall i :: 0 <= i < |s| - 1 ==> s[i] !in ends
    requires forall i :: 0 < i < |s| ==> s[i] !in starts
    ensures Linked(next', prev', s)
  {
    LinkedSame(next, prev, next', prev', s);
  }

  lemma Distinct(a: seq<nat>, b: seq<nat>, s: seq<nat>)
    requires NoRepeats(a + b + s)
    ensures NoRepeats(a) && NoRepeats(b) && NoRepeats(s)
    ensures forall i, j :: 0 <= i < |a| && 0 <= j < |b| ==> a[i] != b[j]
    ensures forall i, j :: 0 <= i < |a| && 0 <= j < |s| ==> a[i] != s[j]
    ensures forall i, j :: 0 <= i < |b| && 0 <= j < |s| ==> b[i] != s[j]
  {
    NoRepeatsJoin(a + b, s);
    NoRepeatsJoin(a, b);
    Members(a, b);
    Members(a, s);
    Members(b, s);
  }

  lemma Members(a: seq<nat>, b: seq<nat>)
    ensures (forall x :: x in a ==> x !in b) ==> forall i, j :: 0 <= i < |a| && 0 <= j < |b| ==> a[i] != b[j]
    ensures forall x :: x in a || x in b <==> x in a + b
  {
    if forall x :: x in a ==> x !in b {
      forall i, j | 0 <= i < |a| && 0 <= j < |b| ensures a[i] != b[j] {
        assert a[i] in a && b[j] in b;
      }
    }
  }

  lemma MovedNow(next: Links, prev: Links, a: seq<nat>, b: seq<nat>, s: seq<nat>, p: nat, l: nat)
    requires Pieces(next, prev, a, b, s, p, l)
    ensures var next' := next[End(s) := p][End(b) := l][End(a) := s[0]];
            var prev' := prev[p := End(s)][l := End(b)][s[0] := End(a)];
            Moved(next', prev', a, b, s, p, l)
  {
    var next' := next[End(s) := p][End(b) := l][End(a) := s[0]];
    var prev' := prev[p := End(s)][l := End(b)][s[0] := End(a)];
    var ends, starts := {End(s), End(b), End(a)}, {p, l, s[0]};
    Distinct(a, b, s);
    assert starts == {a[0], b[0], s[0]};
    PieceKept(next, prev, next', prev', a, ends, starts);
    PieceKept(next, prev, next', prev', b, ends, starts);
    PieceKept(next, prev, next', prev', s, ends, starts);
    assert End(a) != End(b) && End(a) != End(s) && End(b) != End(s);
    assert p != s[0] && l != s[0];
  }

  /** A list: its ring, and no node of it belongs to another. */
  ghost predicate ListOk(next: Links, prev: Links, owner: map<nat, nat>, unused: nat, h: nat, xs: seq<nat>) {
    && NoRepeats([h] + xs) && Linked(next, prev, [h] + xs + [h])
    && (forall n :: n in [h] + xs ==> n in owner && owner[n] == h && n < unused)
  }

  /** A list opened before `b`, and one with a segment cut out. */
  lemma OpenedLists(next: Links, prev: Links, h: nat, a1: seq<nat>, a2: seq<nat>, k: nat, b1: seq<nat>, s: seq<nat>,
                    b2: seq<nat>)
    requires Linked(next, prev, [h] + (a1 + a2) + [h]) && Linked(next, prev, [k] + (b1 + s + b2) + [k]) && s != []
    requires NoRepeats([h] + (a1 + a2)) && NoRepeats([k] + (b1 + s + b2))
    requires forall x :: x in [h] + (a1 + a2) ==> x !in [k] + (b1 + s + b2)
    ensures Pieces(next, prev, a2 + [h] + a1, b2 + [k] + b1, s, (a2 + [h])[0], (b2 + [k])[0])
  {
    var a, b := a2 + [h] + a1, b2 + [k] + b1;
    RingOpened(next, prev, h, a1, a2);
    RingOpened(next, prev, k, b1 + s, b2);
    assert b2 + [k] + (b1 + s) == b + s;
    LinkedParts(next, prev, b, s);
    assert End([k] + (b1 + s)) == End(s) && End([h] + a1) == End(a);
    assert multiset([h] + (a1 + a2)) == multiset(a);
    assert multiset([k] + (b1 + s + b2)) == multiset(b + s);
    NoRepeatsPermuted([h] + (a1 + a2), a);
    NoRepeatsPermuted([k] + (b1 + s + b2), b + s);
    SameMembers([h] + (a1 + a2), a);
    SameMembers([k] + (b1 + s + b2), b + s);
    NoRepeatsJoin(a, b + s);
    assert a + (b + s) == a + b + s;
    assert a[0] in a && (b + s)[0] == b[0] && b[0] in b + s;
    assert (a2 + [h])[0] == a[0] && (b2 + [k])[0] == b[0];
  }

  lemma SameMembers(s: seq<nat>, t: seq<nat>)
    requires multiset(s) == multiset(t)
    ensures forall x :: x in s <==> x in t
  {
    forall x ensures x in s <==> x in t {
      assert x in s <==> x in multiset(s);
    }
  }

  /** A list none of whose nodes was touched. */
  lemma ListKept(next: Links, prev: Links, next': Links, prev': Links, owner: map<nat, nat>, owner': map<nat, nat>,
                 unused: nat, h: nat, xs: seq<nat>, touched: seq<nat>)
    requires ListOk(next, prev, owner, unused, h, xs) && Elsewhere(next, prev, next', prev', touched)
    requires forall n :: n in [h] + xs ==> n !in touched && n in owner' && owner'[n] == owner[n]
    ensures ListOk(next', prev', owner', unused, h, xs)
  {
    var r := [h] + xs + [h];
    forall i | 0 <= i < |r| ensures r[i] in [h] + xs {
      if i == |xs| + 1 {
        assert ([h] + xs)[0] == r[i];
      } else {
        assert ([h] + xs)[i] == r[i];
      }
    }
    LinkedSame(next, prev, next', prev', r);
  }

  ghost function Given(owner: map<nat, nat>, s: seq<nat>, h: nat): map<nat, nat> {
    map n | n in owner :: if n in s then h else owner[n]
  }

  /** After the move: the list that got the segment and the list that lost it. */
  lemma ClosedLists(next: Links, prev: Links, owner: map<nat, nat>, unused: nat, h: nat, a1: seq<nat>, a2: seq<nat>,
                    k: nat, b1: seq<nat>, s: seq<nat>, b2: seq<nat>)
    requires s != [] && h != k && Moved(next, prev, a2 + [h] + a1, b2 + [k] + b1, s, (a2 + [h])[0], (b2 + [k])[0])
    requires NoRepeats(a2 + [h] + a1 + (b2 + [k] + b1) + s)
    requires forall n :: n in [h] + (a1 + a2) ==> n in owner && owner[n] == h && n < unused
    requires forall n :: n in [k] + (b1 + s + b2) ==> n in owner && owner[n] == k && n < unused
    ensures ListOk(next, prev, Given(owner, s, h), unused, h, a1 + s + a2)
    ensures ListOk(next, prev, Given(owner, s, h), unused, k, b1 + b2)
  {
    var a, b := a2 + [h] + a1, b2 + [k] + b1;
    assert End([h] + a1) == End(a) && End([k] + b1) == End(b);
    RingWith(next, prev, h, a1, s, a2);
    RingClosed(next, prev, k, b1, b2);
    Distinct(a, b, s);
    NoRepeatsJoin(a + b, s);
    NoRepeatsJoin(a, b);
    NoRepeatsJoin(a, s);
    NoRepeatsJoin(b, s);
    assert multiset(a + s) == multiset([h] + (a1 + s + a2)) && multiset(b) == multiset([k] + (b1 + b2));
    NoRepeatsPermuted(a + s, [h] + (a1 + s + a2));
    NoRepeatsPermuted(b, [k] + (b1 + b2));
    OwnersAfter(owner, unused, h, a1, a2, k, b1, s, b2);
  }

  lemma OwnersAfter(owner: map<nat, nat>, unused: nat, h: nat, a1: seq<nat>, a2: seq<nat>, k: nat, b1: seq<nat>,
                    s: seq<nat>, b2: seq<nat>)
    requires h != k && NoRepeats(a2 + [h] + a1 + (b2 + [k] + b1) + s)
    requires forall n :: n in [h] + (a1 + a2) ==> n in owner && owner[n] == h && n < unused
    requires forall n :: n in [k] + (b1 + s + b2) ==> n in owner && owner[n] == k && n < unused
    ensures var o := Given(owner, s, h);
            && (forall n :: n in [h] + (a1 + s + a2) ==> n in o && o[n] == h && n < unused)
            && (forall n :: n in [k] + (b1 + b2) ==> n in o && o[n] == k && n < unused)
  {
    var left, o := a2 + [h] + a1 + (b2 + [k] + b1), Given(owner, s, h);
    NoRepeatsJoin(left, s);
    forall n | n in [h] + (a1 + s + a2) ensures n in o && o[n] == h && n < unused {
      assert n in s || n in [h] + (a1 + a2);
      assert n in s ==> n in [k] + (b1 + s + b2);
    }
    forall n | n in [k] + (b1 + b2) ensures n in o && o[n] == k && n < unused {
      assert n in left;
      assert n in [k] + (b1 + s + b2);
    }
  }

  /** `s` let into `t` at place `to`. */
  function LetIn(t: seq<nat>, to: nat, s: seq<nat>): (r: seq<nat>)
    requires to <= |t|
    ensures multiset(r) == multiset(t) + multiset(s)
  {
    assert t == t[..to] + t[to..];
    t[..to] + s + t[to..]
  }

  /** Of the ring without its segment between `u` and `w`, the piece that ends in front of place `to`. */
  ghost function Ahead(h: nat, u: seq<nat>, w: seq<nat>, to: nat): seq<nat>
    requires to <= |u + w|
  {
    if to <= |u| then w + [h] + u[..to] else w[..to - |u|]
  }

  /** The piece that ends in front of the segment. */
  ghost function Across(h: nat, u: seq<nat>, w: seq<nat>, to: nat): seq<nat>
    requires to <= |u + w|
  {
    if to <= |u| then u[to..] else w[to - |u|..] + [h] + u
  }

  /** The range is empty exactly where its two iterators are equal. */
  lemma SegmentTold(h: nat, u: seq<nat>, s: seq<nat>, w: seq<nat>)
    requires NoRepeats([h] + (u + s + w))
    ensures (s + w + [h])[0] == (w + [h])[0] <==> s == []
  {
    if s != [] {
      assert multiset([h] + (u + s + w)) == multiset(u + s + (w + [h]));
      NoRepeatsPermuted([h] + (u + s + w), u + s + (w + [h]));
      NoRepeatsJoin(u + s, w + [h]);
      assert s[0] in u + s && (w + [h])[0] in w + [h];
    }
  }

  /** A list cut where a segment of it is to go. */
  lemma OpenedList(next: Links, prev: Links, h: nat, u: seq<nat>, s: seq<nat>, w: seq<nat>, to: nat)
    requires Linked(next, prev, [h] + (u + s + w) + [h]) && s != [] && NoRepeats([h] + (u + s + w)) && to <= |u + w|
    ensures var p, l := (u + w + [h])[to], (w + [h])[0];
            if to == |u| then p == l else Pieces(next, prev, Ahead(h, u, w, to), Across(h, u, w, to), s, p, l)
  {
    RingOpened(next, prev, h, u + s, w);
    assert w + [h] + (u + s) == w + [h] + u + s && End([h] + (u + s)) == End(s);
    LinkedParts(next, prev, w + [h] + u, s);
    PiecesDistinct(h, u, s, w, to);
    if to < |u| {
      OpenedAhead(next, prev, h, u, w, to);
    } else if to > |u| {
      OpenedBehind(next, prev, h, u, w, to - |u|);
    }
  }

  lemma OpenedAhead(next: Links, prev: Links, h: nat, u: seq<nat>, w: seq<nat>, to: nat)
    requires Linked(next, prev, w + [h] + u) && to < |u|
    ensures var a, b := w + [h] + u[..to], u[to..];
            && Linked(next, prev, a) && Linked(next, prev, b) && Link(next, prev, End(a), b[0])
            && b[0] == (u + w + [h])[to] && a[0] == (w + [h])[0] && End(b) == End(w + [h] + u)
  {
    var a, b := w + [h] + u[..to], u[to..];
    assert w + [h] + u == a + b;
    LinkedParts(next, prev, a, b);
  }

  lemma OpenedBehind(next: Links, prev: Links, h: nat, u: seq<nat>, w: seq<nat>, j: nat)
    requires Linked(next, prev, w + [h] + u) && 0 < j <= |w|
    ensures var a, b := w[..j], w[j..] + [h] + u;
            && Linked(next, prev, a) && Linked(next, prev, b) && Link(next, prev, End(a), b[0])
            && b[0] == (u + w + [h])[|u| + j] && a[0] == (w + [h])[0] && End(b) == End(w + [h] + u)
  {
    var a, b := w[..j], w[j..] + [h] + u;
    assert w + [h] + u == a + b;
    LinkedParts(next, prev, a, b);
  }

  lemma PiecesDistinct(h: nat, u: seq<nat>, s: seq<nat>, w: seq<nat>, to: nat)
    requires NoRepeats([h] + (u + s + w)) && to <= |u + w|
    ensures NoRepeats(Ahead(h, u, w, to) + Across(h, u, w, to) + s)
    ensures forall n :: n in [h] + (u + s + w) <==> n in Ahead(h, u, w, to) + Across(h, u, w, to) + s
    ensures to != |u| ==> (u + w + [h])[to] != (w + [h])[0]
  {
    var all, cut := [h] + (u + s + w), Ahead(h, u, w, to) + Across(h, u, w, to) + s;
    PiecesHold(h, u, w, to);
    assert multiset(all) == multiset(u + w + [h]) + multiset(s) == multiset(cut) == multiset(u + w + [h] + s);
    NoRepeatsPermuted(all, cut);
    NoRepeatsPermuted(all, u + w + [h] + s);
    SameMembers(all, cut);
    NoRepeatsJoin(u + w + [h], s);
    assert (w + [h])[0] == (u + w + [h])[|u|];
  }

  lemma PiecesHold(h: nat, u: seq<nat>, w: seq<nat>, to: nat)
    requires to <= |u + w|
    ensures multiset(Ahead(h, u, w, to)) + multiset(Across(h, u, w, to)) == multiset(u + w + [h])
  {
    if to <= |u| {
      assert u == u[..to] + u[to..];
    } else {
      assert w == w[..to - |u|] + w[to - |u|..];
    }
  }

  lemma Regrouped(h: nat, u: seq<nat>, s: seq<nat>, w: seq<nat>, to: nat)
    requires NoRepeats([h] + (u + s + w)) && to <= |u + w|
    ensures NoRepeats([h] + LetIn(u + w, to, s))
    ensures forall n :: n in [h] + (u + s + w) <==> n in [h] + LetIn(u + w, to, s)
    ensures forall n :: n in [h] + (u + s + w) <==> n in Ahead(h, u, w, to) + Across(h, u, w, to) + s
  {
    var v := [h] + LetIn(u + w, to, s);
    assert multiset([h] + (u + s + w)) == multiset(v);
    NoRepeatsPermuted([h] + (u + s + w), v);
    SameMembers([h] + (u + s + w), v);
    PiecesDistinct(h, u, s, w, to);
  }

  /** The list with its segment in the new place. */
  lemma ClosedList(next: Links, prev: Links, next': Links, prev': Links, h: nat, u: seq<nat>, s: seq<nat>, w: seq<nat>,
                   to: nat)
    requires s != [] && to <= |u + w| && Linked(next, prev, [h] + (u + s + w) + [h])
    requires if to == |u| then next' == next && prev' == prev
             else Moved(next', prev', Ahead(h, u, w, to), Across(h, u, w, to), s, (u + w + [h])[to], (w + [h])[0])
    ensures Linked(next', prev', [h] + LetIn(u + w, to, s) + [h])
  {
    LetInAt(u, w, to, s);
    if to < |u| {
      ClosedAhead(next', prev', h, u[..to], u[to..], s, w);
    } else if to > |u| {
      ClosedBehind(next', prev', h, w[..to - |u|], w[to - |u|..], s, u);
    }
  }

  lemma LetInAt(u: seq<nat>, w: seq<nat>, to: nat, s: seq<nat>)
    requires to <= |u + w|
    ensures to < |u| ==> LetIn(u + w, to, s) == u[..to] + s + u[to..] + w
    ensures to == |u| ==> LetIn(u + w, to, s) == u + s + w
    ensures to > |u| ==> LetIn(u + w, to, s) == u + w[..to - |u|] + s + w[to - |u|..]
  {
    if to < |u| {
      assert (u + w)[..to] == u[..to] && (u + w)[to..] == u[to..] + w;
    } else {
      assert (u + w)[..to] == u + w[..to - |u|] && (u + w)[to..] == w[to - |u|..];
    }
  }

  lemma ClosedAhead(next: Links, prev: Links, h: nat, c1: seq<nat>, c2: seq<nat>, s: seq<nat>, w: seq<nat>)
    requires c2 != [] && s != [] && Moved(next, prev, w + [h] + c1, c2, s, c2[0], (w + [h])[0])
    ensures Linked(next, prev, [h] + (c1 + s + c2 + w) + [h])
  {
    LinkedJoin(next, prev, s, c2);
    var a := w + [h] + c1;
    assert End([h] + c1) == End(a) && End(s + c2) == End(c2) && (s + c2)[0] == s[0];
    RingWith(next, prev, h, c1, s + c2, w);
    assert c1 + (s + c2) + w == c1 + s + c2 + w;
  }

  lemma ClosedBehind(next: Links, prev: Links, h: nat, c1: seq<nat>, c2: seq<nat>, s: seq<nat>, u: seq<nat>)
    requires c1 != [] && s != [] && Moved(next, prev, c1, c2 + [h] + u, s, (c2 + [h])[0], c1[0])
    ensures Linked(next, prev, [h] + (u + c1 + s + c2) + [h])
  {
    LinkedJoin(next, prev, c1, s);
    assert End([h] + u) == End(c2 + [h] + u) && End(c1 + s) == End(s) && (c1 + s)[0] == c1[0];
    RingWith(next, prev, h, u, c1 + s, c2);
    assert u + (c1 + s) + c2 == u + c1 + s + c2;
  }

  /** The ring of a list, walked forward. */
  lemma Forward(next: Links, prev: Links, h: nat, u: seq<nat>, w: seq<nat>)
    requires Linked(next, prev, [h] + (u + w) + [h])
    ensures End([h] + u) in next && next[End([h] + u)] == (w + [h])[0]
  {
    RingOpened(next, prev, h, u, w);
  }

  class Store {
    var next: Links
    var prev: Links
    var unused: nat
    ghost var lists: map<nat, seq<nat>>
    ghost var owner: map<nat, nat>

    ghost predicate Valid()
      reads this
    {
      forall h :: h in lists ==> ListOk(next, prev, owner, unused, h, lists[h])
    }

    constructor ()
      ensures Valid() && lists == map[]
    {
      next, prev, unused, lists, owner := map[], map[], 0, map[], map[];
    }

    /** `transfer`. */
    method Transfer(position: nat, first: nat, last: nat, ghost a: seq<nat>, ghost b: seq<nat>, ghost s: seq<nat>)
      requires position != last ==> Pieces(next, prev, a, b, s, position, last) && s[0] == first
      modifies this`next, this`prev
      ensures position == last ==> next == old(next) && prev == old(prev)
      ensures position != last ==> Moved(next, prev, a, b, s, position, last)
      ensures position != last ==> Elsewhere(old(next), old(prev), next, prev, a + b + s)
    {
      if position != last {
        MovedNow(next, prev, a, b, s, position, last);
        next := next[prev[last] := position];
        next := next[prev[first] := last];
        next := next[prev[position] := first];
        var tmp := prev[position];
        prev := prev[position := prev[last]];
        prev := prev[last := prev[first]];
        prev := prev[first := tmp];
      }
    }

    /** `transfer` from another list: the segment `s` of list `k` goes between `a1` and `a2` in list `h`. */
    method TransferAcross(position: nat, first: nat, last: nat, ghost h: nat, ghost a1: seq<nat>, ghost a2: seq<nat>,
                          ghost k: nat, ghost b1: seq<nat>, ghost s: seq<nat>, ghost b2: seq<nat>)
      requires Valid() && h in lists && k in lists && h != k && lists[h] == a1 + a2 && lists[k] == b1 + s + b2
               && s != []
      requires position == (a2 + [h])[0] && first == s[0] && last == (b2 + [k])[0]
      modifies this`next, this`prev, this`lists, this`owner
      ensures Valid() && lists == old(lists)[h := a1 + s + a2][k := b1 + b2]
    {
      ghost var a, b := a2 + [h] + a1, b2 + [k] + b1;
      ghost var was := lists;
      Apart(h, k);
      OpenedLists(next, prev, h, a1, a2, k, b1, s, b2);
      Transfer(position, first, last, a, b, s);
      ClosedLists(next, prev, owner, unused, h, a1, a2, k, b1, s, b2);
      lists := lists[h := a1 + s + a2][k := b1 + b2];
      owner := Given(owner, s, h);
      forall j | j in lists && j != h && j != k ensures ListOk(next, prev, owner, unused, j, lists[j]) {
        assert ListOk(old(next), old(prev), old(owner), unused, j, was[j]);
        TouchedOwners(old(owner), unused, h, a1, a2, k, b1, s, b2);
        ListKept(old(next), old(prev), next, prev, old(owner), owner, unused, j, was[j], a + b + s);
      }
    }

    /** `transfer` within a list: the segment `s` goes to place `to` of the rest, ahead of where it was or behind. */
    method TransferWithin(position: nat, first: nat, last: nat, ghost h: nat, ghost u: seq<nat>, ghost s: seq<nat>,
                          ghost w: seq<nat>, ghost to: nat)
      requires Valid() && h in lists && lists[h] == u + s + w && s != [] && to <= |u + w|
      requires position == (u + w + [h])[to] && first == s[0] && last == (w + [h])[0]
      modifies this`next, this`prev, this`lists
      ensures Valid() && lists == old(lists)[h := LetIn(u + w, to, s)]
    {
      ghost var a, b, was := Ahead(h, u, w, to), Across(h, u, w, to), lists;
      assert ListOk(next, prev, owner, unused, h, lists[h]);
      OpenedList(next, prev, h, u, s, w, to);
      Transfer(position, first, last, a, b, s);
      lists := lists[h := LetIn(u + w, to, s)];
      ClosedList(old(next), old(prev), next, prev, h, u, s, w, to);
      Regrouped(h, u, s, w, to);
      forall j | j in lists && j != h ensures ListOk(next, prev, owner, unused, j, lists[j]) {
        assert ListOk(old(next), old(prev), owner, unused, j, was[j]);
        ListKept(old(next), old(prev), next, prev, owner, owner, unused, j, was[j], a + b + s);
      }
    }

    /** `splice` of a range of another list. */
    method SpliceAcross(position: nat, first: nat, last: nat, ghost h: nat, ghost a1: seq<nat>, ghost a2: seq<nat>,
                        ghost k: nat, ghost b1: seq<nat>, ghost s: seq<nat>, ghost b2: seq<nat>)
      requires Valid() && h in lists && k in lists && h != k && lists[h] == a1 + a2 && lists[k] == b1 + s + b2
      requires position == (a2 + [h])[0] && first == (s + b2 + [k])[0] && last == (b2 + [k])[0]
      modifies this`next, this`prev, this`lists, this`owner
      ensures Valid() && lists == old(lists)[h := a1 + s + a2][k := b1 + b2]
    {
      assert ListOk(next, prev, owner, unused, k, lists[k]);
      SegmentTold(k, b1, s, b2);
      if first != last {
        TransferAcross(position, first, last, h, a1, a2, k, b1, s, b2);
      } else {
        assert a1 + s + a2 == a1 + a2 && b1 + s + b2 == b1 + b2;
      }
    }

    /** `splice` of a range of the same list; the position is none of the range. */
    method SpliceWithin(position: nat, first: nat, last: nat, ghost h: nat, ghost u: seq<nat>, ghost s: seq<nat>,
                        ghost w: seq<nat>, ghost to: nat)
      requires Valid() && h in lists && lists[h] == u + s + w && to <= |u + w|
      requires position == (u + w + [h])[to] && first == (s + w + [h])[0] && last == (w + [h])[0]
      modifies this`next, this`prev, this`lists
      ensures Valid() && lists == old(lists)[h := (u + w)[..to] + s + (u + w)[to..]]
    {
      assert ListOk(next, prev, owner, unused, h, lists[h]);
      SegmentTold(h, u, s, w);
      if first != last {
        TransferWithin(position, first, last, h, u, s, w, to);
      } else {
        assert LetIn(u + w, to, s) == u + s + w;
      }
    }

    /** An empty list. */
    method NewList() returns (h: nat)
      requires Valid()
      modifies this
      ensures Valid() && h !in old(lists) && lists == old(lists)[h := []] && h == old(unused) && unused == h + 1
      ensures forall k :: k in old(lists) ==> k < h
    {
      h := unused;
      forall k | k in lists ensures k < h {
        assert ListOk(next, prev, owner, unused, k, lists[k]) && k in [k] + lists[k];
      }
      next, prev, unused := next[h := h], prev[h := h], unused + 1;
      lists, owner := lists[h := []], owner[h := h];
      forall k | k in lists ensures ListOk(next, prev, owner, unused, k, lists[k]) {
        if k == h {
          assert [h] + [] + [h] == [h, h];
        } else {
          assert ListOk(old(next), old(prev), old(owner), old(unused), k, old(lists)[k]);
          ListKept(old(next), old(prev), next, prev, old(owner), owner, old(unused), k, lists[k], [h]);
        }
      }
    }

    /** `++` on an iterator behind `u`; on the header with `u` empty, `begin`. */
    method Step(node: nat, ghost h: nat, ghost u: seq<nat>, ghost w: seq<nat>) returns (n: nat)
      requires Valid() && h in lists && lists[h] == u + w && node == End([h] + u)
      ensures n == (w + [h])[0]
    {
      assert ListOk(next, prev, owner, unused, h, lists[h]);
      Forward(next, prev, h, u, w);
      n := next[node];
    }

    /** The end of a list is its header, which is none of its nodes. */
    lemma AtEnd(h: nat, u: seq<nat>, w: seq<nat>)
      requires Valid() && h in lists && lists[h] == u + w
      ensures (w + [h])[0] == h <==> w == []
    {
      assert ListOk(next, prev, owner, unused, h, lists[h]);
      NoRepeatsJoin([h], u + w);
      assert h in [h] && (w != [] ==> w[0] in u + w);
    }

    /** `merge`: the nodes of list `k` are let into list `h`. The order compares the values the nodes hold. */
    method MergeLists(lt: (nat, nat) -> bool, h: nat, k: nat)
      requires Valid() && h in lists && k in lists && h != k
      modifies this`next, this`prev, this`lists, this`owner
      ensures Valid() && lists == old(lists)[h := Merge(lt, old(lists[h]), old(lists[k]))][k := []]
    {
      ghost var out, r1, r2 := [], lists[h], lists[k];
      ghost var goal := Merge(lt, r1, r2);
      var first1 := Step(h, h, [], r1);
      var first2 := Step(k, k, [], r2);
      AtEnd(h, [], r1);
      AtEnd(k, [], r2);
      assert out + r1 == r1 && out + goal == goal;
      while first1 != h && first2 != k
        invariant Valid() && h in lists && k in lists && lists == old(lists)[h := out + r1][k := r2]
        invariant first1 == (r1 + [h])[0] && first2 == (r2 + [k])[0]
        invariant (first1 == h <==> r1 == []) && (first2 == k <==> r2 == []) && out + Merge(lt, r1, r2) == goal
        decreases |r1| + |r2|
      {
        MergeTakes(lt, out, r1, r2);
        if lt(first2, first1) {
          first2 := MoveOne(first1, first2, h, out, r1, k, r2);
          out, r2 := out + [r2[0]], r2[1..];
        } else {
          first1 := PassOne(first1, h, out, r1);
          out, r1 := out + [r1[0]], r1[1..];
        }
      }
      if first2 != k {
        MoveRest(first2, h, out, k, r2);
      }
      assert lists[h] == goal;
    }

    /** `++first1`. */
    method PassOne(first: nat, ghost h: nat, ghost out: seq<nat>, ghost r: seq<nat>) returns (n: nat)
      requires Valid() && h in lists && lists[h] == out + r && r != [] && first == r[0]
      ensures n == (r[1..] + [h])[0] && (n == h <==> r[1..] == []) && out + r == (out + [r[0]]) + r[1..]
    {
      assert out + r == (out + [r[0]]) + r[1..];
      n := Step(first, h, out + [r[0]], r[1..]);
      AtEnd(h, out + [r[0]], r[1..]);
    }

    /** All that is left of the second list goes to the end of the first. */
    method MoveRest(first: nat, h: nat, ghost out: seq<nat>, k: nat, ghost r: seq<nat>)
      requires Valid() && h in lists && k in lists && h != k && lists[h] == out && lists[k] == r && r != []
               && first == r[0]
      modifies this`next, this`prev, this`lists, this`owner
      ensures Valid() && lists == old(lists)[h := out + r][k := []]
    {
      ghost var none: seq<nat> := [];
      assert none + r + none == r && out + none == out;
      TransferAcross(h, first, k, h, out, none, k, none, r, none);
      assert out + r + none == out + r && none + none == none;
    }

    /** One node goes over; the next one takes its place. */
    method MoveOne(position: nat, first: nat, ghost h: nat, ghost out: seq<nat>, ghost r1: seq<nat>, ghost k: nat,
                   ghost r2: seq<nat>)
      returns (last: nat)
      requires Valid() && h in lists && k in lists && h != k && lists[h] == out + r1 && lists[k] == r2 && r2 != []
      requires position == (r1 + [h])[0] && first == r2[0]
      modifies this`next, this`prev, this`lists, this`owner
      ensures Valid() && lists == old(lists)[h := (out + [r2[0]]) + r1][k := r2[1..]]
      ensures last == (r2[1..] + [k])[0] && (last == k <==> r2[1..] == [])
    {
      assert r2 == [] + [r2[0]] + r2[1..] == [r2[0]] + r2[1..];
      last := Step(first, k, [r2[0]], r2[1..]);
      AtEnd(k, [r2[0]], r2[1..]);
      TransferAcross(position, first, last, h, out, r1, k, [], [r2[0]], r2[1..]);
      assert [] + r2[1..] == r2[1..];
    }

    /** One node goes to the front. */
    method ToFront(first: nat, h: nat, ghost r: seq<nat>, ghost rest: seq<nat>) returns (after: nat)
      requires Valid() && h in lists && lists[h] == r + rest && r != [] && rest != [] && first == rest[0]
      modifies this`next, this`prev, this`lists
      ensures Valid() && lists == old(lists)[h := ([rest[0]] + r) + rest[1..]]
      ensures after == (rest[1..] + [h])[0] && (after == h <==> rest[1..] == [])
    {
      ghost var x, w := rest[0], rest[1..];
      assert r + rest == (r + [x]) + w == [] + r + [x] + w == [] + (r + rest);
      after := Step(first, h, r + [x], w);
      AtEnd(h, r + [x], w);
      var front := Step(h, h, [], r + rest);
      TransferWithin(front, first, after, h, r, [x], w, 0);
      assert LetIn(r + w, 0, [x]) == ([x] + r) + w;
    }

    /** `reverse` under way in list `h` of `was`: `first` starts the part `rest` that is still to be turned. */
    ghost predicate Reversing(was: map<nat, seq<nat>>, h: nat, r: seq<nat>, rest: seq<nat>, first: nat)
      reads this
    {
      && Valid() && h in was && lists == was[h := r + rest] && Turning(was[h], r, rest)
      && first == (rest + [h])[0] && (first == h <==> rest == [])
    }

    /** One round of `reverse`. */
    method ReverseRound(first: nat, h: nat, ghost was: map<nat, seq<nat>>, ghost r: seq<nat>, ghost rest: seq<nat>)
      returns (after: nat)
      requires Reversing(was, h, r, rest, first) && rest != []
      modifies this`next, this`prev, this`lists
      ensures Reversing(was, h, [rest[0]] + r, rest[1..], after)
    {
      TurningOn(was[h], r, rest);
      after := ToFront(first, h, r, rest);
    }

    /** `reverse`: each node in turn goes to the front. */
    method ReverseList(h: nat)
      requires Valid() && h in lists
      modifies this`next, this`prev, this`lists
      ensures Valid() && lists == old(lists)[h := Reverse(old(lists[h]))]
    {
      ghost var xs := lists[h];
      var begin := Step(h, h, [], xs);
      AtEnd(h, [], xs);
      if begin == h {
        return;
      }
      ghost var r, rest := [xs[0]], xs[1..];
      TurningStarts(xs);
      var first := Step(begin, h, r, rest);
      AtEnd(h, r, rest);
      while first != h
        invariant Reversing(old(lists), h, r, rest, first)
        decreases |rest|
      {
        first := ReverseRound(first, h, old(lists), r, rest);
        r, rest := [rest[0]] + r, rest[1..];
      }
      TurningEnds(xs, r);
    }

    lemma Apart(h: nat, k: nat)
      requires Valid() && h in lists && k in lists && h != k
      ensures forall x :: x in [h] + lists[h] ==> x !in [k] + lists[k]
    {
      assert ListOk(next, prev, owner, unused, h, lists[h]) && ListOk(next, prev, owner, unused, k, lists[k]);
    }
  }

  /** `rest` is still to come; what precedes it in `xs` has been turned round into `r`. */
  ghost predicate Turning(xs: seq<nat>, r: seq<nat>, rest: seq<nat>) {
    r != [] && |rest| <= |xs| && rest == xs[|xs| - |rest|..] && r == Reverse(xs[..|xs| - |rest|])
  }

  lemma TurningStarts(xs: seq<nat>)
    requires xs != []
    ensures Turning(xs, [xs[0]], xs[1..]) && [xs[0]] + xs[1..] == xs
  {
    ReverseOne(xs[0]);
    assert xs[..1] == [xs[0]];
  }

  lemma TurningOn(xs: seq<nat>, r: seq<nat>, rest: seq<nat>)
    requires Turning(xs, r, rest) && rest != []
    ensures Turning(xs, [rest[0]] + r, rest[1..])
  {
    var n := |xs| - |rest|;
    ReverseSnoc(xs[..n], rest[0]);
    assert xs[..n + 1] == xs[..n] + [rest[0]];
  }

  lemma TurningEnds(xs: seq<nat>, r: seq<nat>)
    requires Turning(xs, r, [])
    ensures r + [] == r == Reverse(xs)
  {
    assert xs[..|xs|] == xs;
  }

  lemma ReverseSnoc(s: seq<nat>, x: nat)
    ensures Reverse(s + [x]) == [x] + Reverse(s) && |Reverse(s)| == |s|
  {
    ReverseConcat(s, [x]);
    ReverseOne(x);
  }

  lemma TouchedOwners(owner: map<nat, nat>, unused: nat, h: nat, a1: seq<nat>, a2: seq<nat>, k: nat, b1: seq<nat>,
                      s: seq<nat>, b2: seq<nat>)
    requires forall n :: n in [h] + (a1 + a2) ==> n in owner && owner[n] == h && n < unused
    requires forall n :: n in [k] + (b1 + s + b2) ==> n in owner && owner[n] == k && n < unused
    ensures forall n :: n in a2 + [h] + a1 + (b2 + [k] + b1) + s ==> n in owner && (owner[n] == h || owner[n] == k)
  {
  }
}
