/** The order of iteration over a hash table: chain after chain (headers/cpp/stl_hashtable.h:564-576, 876-895). */
module HashFlat {
  import opened Basics

  /** The nodes of all chains in the order of iteration. */
  function Flat(chains: seq<seq<nat>>): seq<nat>
    decreases |chains|
  {
    if chains == [] then [] else chains[0] + Flat(chains[1..])
  }

  lemma {:induction false} FlatSplit(p: seq<seq<nat>>, q: seq<seq<nat>>)
    ensures Flat(p + q) == Flat(p) + Flat(q)
    decreases |p|
  {
    if p == [] {
      assert p + q == q;
    } else {
      FlatSplit(p[1..], q);
      assert (p + q)[1..] == p[1..] + q;
    }
  }

  /** What comes before and after a bucket. */
  lemma FlatAround(chains: seq<seq<nat>>, b: nat, c: seq<nat>)
    requires b < |chains|
    ensures Flat(chains[b := c]) == Flat(chains[..b]) + c + Flat(chains[b + 1..])
  {
    var d := chains[b := c];
    assert d == d[..b] + d[b..] && d[..b] == chains[..b] && d[b..] == [c] + chains[b + 1..];
    FlatSplit(d[..b], d[b..]);
    assert d[b..][1..] == chains[b + 1..];
  }

  lemma {:induction false} FlatEmpty(chains: seq<seq<nat>>)
    requires forall b :: 0 <= b < |chains| ==> chains[b] == []
    ensures Flat(chains) == []
    decreases |chains|
  {
    if chains != [] {
      FlatEmpty(chains[1..]);
    }
  }

  lemma {:induction false} InFlat(chains: seq<seq<nat>>, x: nat)
    ensures x in Flat(chains) <==> exists b :: 0 <= b < |chains| && x in chains[b]
    decreases |chains|
  {
    if chains != [] {
      InFlat(chains[1..], x);
      if x in Flat(chains[1..]) {
        var b :| 0 <= b < |chains[1..]| && x in chains[1..][b];
        assert x in chains[b + 1];
      }
      if b :| 0 < b < |chains| && x in chains[b] {
        assert x in chains[1..][b - 1];
      }
    }
  }

  // ---------- stretches of the order of iteration ----------

  /** Where a place of the order is. */
  lemma {:induction false} FlatPlace(chains: seq<seq<nat>>, i: nat) returns (b: nat, j: nat)
    requires i < |Flat(chains)|
    ensures b < |chains| && j < |chains[b]| && Flat(chains)[..i] == Flat(chains[..b]) + chains[b][..j]
    ensures Flat(chains)[i..] == chains[b][j..] + Flat(chains[b + 1..])
    decreases |chains|
  {
    var c := chains[0];
    if i < |c| {
      b, j := 0, i;
      assert chains[..0] == [];
    } else {
      b, j := FlatPlace(chains[1..], i - |c|);
      b := b + 1;
      assert chains[..b] == [c] + chains[1..][..b - 1] && ([c] + chains[1..][..b - 1])[1..] == chains[1..][..b - 1];
      assert chains[1..][b..] == chains[b + 1..];
      assert Flat(chains)[..i] == c + Flat(chains[1..])[..i - |c|];
    }
  }

  /** Later places are in later chains, or further on in the same. */
  lemma PlacesInOrder(chains: seq<seq<nat>>, b: nat, j: nat, b': nat, j': nat)
    requires b < |chains| && j < |chains[b]| && b' < |chains| && j' < |chains[b']|
    requires |Flat(chains[..b])| + j < |Flat(chains[..b'])| + j'
    ensures b < b' || (b == b' && j < j')
  {
    if b' < b {
      FlatPrefix(chains, b', b);
    }
  }

  lemma FlatPrefix(chains: seq<seq<nat>>, a: nat, b: nat)
    requires a < b <= |chains|
    ensures |Flat(chains[..a])| + |chains[a]| <= |Flat(chains[..b])|
  {
    FlatSplit(chains[..a], chains[a..b]);
    assert chains[..b] == chains[..a] + chains[a..b];
  }

  /** The chains from `lo` up to `hi` made empty. */
  function Cleared(chains: seq<seq<nat>>, lo: nat, hi: nat): seq<seq<nat>>
    requires lo <= hi <= |chains|
  {
    chains[..lo] + seq(hi - lo, _ => []) + chains[hi..]
  }

  lemma ClearedNext(chains: seq<seq<nat>>, lo: nat, n: nat)
    requires lo <= n < |chains|
    ensures Cleared(chains, lo, n)[n := []] == Cleared(chains, lo, n + 1)
  {
  }

  lemma FlatCleared(chains: seq<seq<nat>>, lo: nat, hi: nat)
    requires lo <= hi <= |chains|
    ensures Flat(Cleared(chains, lo, hi)) == Flat(chains[..lo]) + Flat(chains[hi..])
  {
    var e := seq(hi - lo, _ => []);
    FlatEmpty(e);
    FlatSplit(chains[..lo] + e, chains[hi..]);
    FlatSplit(chains[..lo], e);
  }

  /** A node is in one place. */
  lemma OnePlace(c: seq<nat>, u: seq<nat>, u': seq<nat>, x: nat, v: seq<nat>, v': seq<nat>)
    requires NoRepeats(c) && c == u + [x] + v && c == u' + [x] + v'
    ensures u == u'
  {
    assert c[|u|] == x && c[|u'|] == x;
    assert u == c[..|u|] && u' == c[..|u'|];
  }

  /** What is left after a range that ends in a later chain has gone: of its first chain `u`, of its last `w`. */
  lemma FlatAcross(chains: seq<seq<nat>>, fb: nat, u: seq<nat>, lb: nat, w: seq<nat>)
    requires fb < lb <= |chains|
    ensures var d := Cleared(chains[fb := u], fb + 1, lb);
            && (lb == |chains| ==> Flat(d) == Flat(chains[..fb]) + u)
            && (lb < |chains| ==>
                  d[lb] == chains[lb] && Flat(d[lb := w]) == Flat(chains[..fb]) + u + (w + Flat(chains[lb + 1..])))
  {
    var c := chains[fb := u];
    var c' := if lb < |chains| then c[lb := w] else c;
    assert lb < |chains| ==> Cleared(c, fb + 1, lb)[lb := w] == Cleared(c', fb + 1, lb);
    FlatCleared(c', fb + 1, lb);
    FlatSplit(chains[..fb], [u]);
    assert c'[..fb + 1] == chains[..fb] + [u] && Flat([u]) == u + Flat([]);
    if lb < |chains| {
      assert c'[lb..] == [w] + chains[lb + 1..] && c'[lb..][1..] == chains[lb + 1..];
    } else {
      assert c'[lb..] == [];
    }
  }
}
