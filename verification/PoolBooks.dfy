/** The allocator's own records against the bytes: free lists, live blocks and the bump region. */
module PoolBooks {
  import opened Basics
  import opened PoolBytes

  /** Which owners there are, according to the records. */
  predicate Active(w: Owner, lists: seq<seq<nat>>, live: map<nat, nat>, lo: nat, hi: nat) {
    match w
    case Live(a, n) => a in live && live[a] == n
    case Free(a, k) => k < |lists| && a in lists[k]
    case Bump(a, n) => a == lo && n == hi - lo && lo < hi
  }

  ghost predicate Listed(ws: set<Owner>, lists: seq<seq<nat>>, live: map<nat, nat>, lo: nat, hi: nat) {
    forall w :: w in ws <==> Active(w, lists, live, lo, hi)
  }

  /** The records describe a partition of all the bytes obtained from malloc. */
  ghost predicate Books(owner: map<nat, Owner>, ws: set<Owner>, lists: seq<seq<nat>>, live: map<nat, nat>, lo: nat,
                        hi: nat) {
    && |lists| == LISTS && lo <= hi && Partition(owner, ws) && Listed(ws, lists, live, lo, hi)
    && (forall k :: 0 <= k < LISTS ==> NoRepeats(lists[k]))
  }

  /** A live block of the right size is put on a free list. */
  lemma Shelve(owner: map<nat, Owner>, ws: set<Owner>, lists: seq<seq<nat>>, live: map<nat, nat>, lo: nat, hi: nat,
               a: nat, k: nat) returns (o: map<nat, Owner>, us: set<Owner>)
    requires Books(owner, ws, lists, live, lo, hi) && k < LISTS && a in live && live[a] == BlockSize(k)
    ensures Books(o, us, lists[k := [a] + lists[k]], live - {a}, lo, hi) && o.Keys == owner.Keys
    ensures a > 0 && forall j :: 0 <= j < LISTS ==> a !in lists[j]
  {
    var v, w := Live(a, live[a]), Free(a, k);
    assert v in ws;
    OneOwner(owner, ws, v, v);
    forall j | 0 <= j < LISTS ensures a !in lists[j] {
      NotThere(owner, ws, v, Free(a, j));
      assert !Active(Free(a, j), lists, live, lo, hi);
    }
    Retag(owner, ws, v, w);
    o, us := Paint(owner, w), ws - {v} + {w};
    var ls, lv := lists[k := [a] + lists[k]], live - {a};
    forall x ensures x in us <==> Active(x, ls, lv, lo, hi) {
    }
  }

  /** The first block of a free list becomes live. */
  lemma Unshelve(owner: map<nat, Owner>, ws: set<Owner>, lists: seq<seq<nat>>, live: map<nat, nat>, lo: nat, hi: nat,
                 k: nat) returns (o: map<nat, Owner>, us: set<Owner>)
    requires Books(owner, ws, lists, live, lo, hi) && k < LISTS && lists[k] != []
    ensures lists[k][0] !in live && lists[k][0] > 0 && o.Keys == owner.Keys
    ensures Books(o, us, lists[k := lists[k][1..]], live[lists[k][0] := BlockSize(k)], lo, hi)
  {
    var a := lists[k][0];
    var v, w := Free(a, k), Live(a, BlockSize(k));
    assert v in ws;
    OneOwner(owner, ws, v, v);
    NotThere(owner, ws, v, w);
    if a in live {
      NotThere(owner, ws, v, Live(a, live[a]));
    }
    Retag(owner, ws, v, w);
    o, us := Paint(owner, w), ws - {v} + {w};
    TailOf(lists[k]);
    var ls, lv := lists[k := lists[k][1..]], live[a := BlockSize(k)];
    forall x ensures x in us <==> Active(x, ls, lv, lo, hi) {
    }
  }

  lemma TailOf(q: seq<nat>)
    requires q != [] && NoRepeats(q)
    ensures NoRepeats(q[1..]) && forall a :: a in q[1..] <==> a in q && a != q[0]
  {
    forall a ensures a in q[1..] <==> a in q && a != q[0] {
      if a in q && a != q[0] {
        var i :| 0 <= i < |q| && q[i] == a;
        assert q[1..][i - 1] == a;
      }
    }
  }

  /** The first block of a free list becomes the bump region, which was empty. */
  lemma UnshelveToBump(owner: map<nat, Owner>, ws: set<Owner>, lists: seq<seq<nat>>, live: map<nat, nat>, k: nat)
    returns (o: map<nat, Owner>, us: set<Owner>)
    requires Books(owner, ws, lists, live, 0, 0) && k < LISTS && lists[k] != []
    ensures var a := lists[k][0];
            a > 0 && Books(o, us, lists[k := lists[k][1..]], live, a, a + BlockSize(k)) && o.Keys == owner.Keys
  {
    var a := lists[k][0];
    var v, w := Free(a, k), Bump(a, BlockSize(k));
    assert v in ws;
    OneOwner(owner, ws, v, v);
    Retag(owner, ws, v, w);
    o, us := Paint(owner, w), ws - {v} + {w};
    TailOf(lists[k]);
    ListedToBump(ws, lists, live, k);
  }

  lemma ListedToBump(ws: set<Owner>, lists: seq<seq<nat>>, live: map<nat, nat>, k: nat)
    requires Listed(ws, lists, live, 0, 0) && k < |lists| && lists[k] != [] && NoRepeats(lists[k])
    ensures var a, n := lists[k][0], BlockSize(k);
            Listed(ws - {Free(a, k)} + {Bump(a, n)}, lists[k := lists[k][1..]], live, a, a + n)
  {
    var a, n := lists[k][0], BlockSize(k);
    TailOf(lists[k]);
    forall x ensures x in ws - {Free(a, k)} + {Bump(a, n)} <==> Active(x, lists[k := lists[k][1..]], live, a, a + n) {
      assert x in ws <==> Active(x, lists, live, 0, 0);
    }
  }

  /** What is left of the bump region goes on the free list of its size. */
  lemma ShelveBump(owner: map<nat, Owner>, ws: set<Owner>, lists: seq<seq<nat>>, live: map<nat, nat>, lo: nat, hi: nat,
                   k: nat) returns (o: map<nat, Owner>, us: set<Owner>)
    requires Books(owner, ws, lists, live, lo, hi) && k < LISTS && hi - lo == BlockSize(k)
    ensures Books(o, us, lists[k := [lo] + lists[k]], live, 0, 0) && o.Keys == owner.Keys
    ensures lo > 0 && forall j :: 0 <= j < LISTS ==> lo !in lists[j]
  {
    var v, w := Bump(lo, hi - lo), Free(lo, k);
    assert v in ws;
    OneOwner(owner, ws, v, v);
    forall j | 0 <= j < LISTS ensures lo !in lists[j] {
      NotThere(owner, ws, v, Free(lo, j));
      assert !Active(Free(lo, j), lists, live, lo, hi);
    }
    Retag(owner, ws, v, w);
    o, us := Paint(owner, w), ws - {v} + {w};
    var ls := lists[k := [lo] + lists[k]];
    forall x ensures x in us <==> Active(x, ls, live, 0, 0) {
    }
  }

  /** An empty bump region may be anywhere. */
  lemma EmptyBump(owner: map<nat, Owner>, ws: set<Owner>, lists: seq<seq<nat>>, live: map<nat, nat>, lo: nat)
    requires Books(owner, ws, lists, live, lo, lo)
    ensures Books(owner, ws, lists, live, 0, 0)
  {
    forall x ensures x in ws <==> Active(x, lists, live, 0, 0) {
      assert Active(x, lists, live, lo, lo) <==> Active(x, lists, live, 0, 0);
    }
  }

  /** Fresh memory becomes the bump region, which was empty. */
  lemma FillBump(owner: map<nat, Owner>, ws: set<Owner>, lists: seq<seq<nat>>, live: map<nat, nat>, p: nat, n: nat)
    returns (o: map<nat, Owner>, us: set<Owner>)
    requires Books(owner, ws, lists, live, 0, 0) && n > 0 && Unused(owner, p, n)
    ensures Books(o, us, lists, live, p, p + n) && o.Keys == owner.Keys + Span(Bump(p, n))
  {
    var w := Bump(p, n);
    Obtain(owner, ws, w);
    o, us := Paint(owner, w), ws + {w};
    forall x ensures x in us <==> Active(x, lists, live, p, p + n) {
      assert x in ws <==> Active(x, lists, live, 0, 0);
    }
  }

  /** The first `n` bytes of the bump region become a live block. */
  lemma Carve(owner: map<nat, Owner>, ws: set<Owner>, lists: seq<seq<nat>>, live: map<nat, nat>, lo: nat, hi: nat,
              n: nat)
    returns (o: map<nat, Owner>, us: set<Owner>)
    requires Books(owner, ws, lists, live, lo, hi) && 0 < n <= hi - lo
    ensures lo !in live && lo > 0 && o.Keys == owner.Keys
    ensures Books(o, us, lists, live[lo := n], lo + n, hi)
  {
    var v, w, r := Bump(lo, hi - lo), Live(lo, n), Bump(lo + n, hi - lo - n);
    assert v in ws;
    OneOwner(owner, ws, v, v);
    NotThere(owner, ws, v, w);
    if lo in live {
      NotThere(owner, ws, v, Live(lo, live[lo]));
    }
    if n == hi - lo {
      Retag(owner, ws, v, w);
      o, us := Paint(owner, w), ws - {v} + {w};
    } else {
      assert !Active(r, lists, live, lo, hi);
      Cut(owner, ws, v, w, r);
      o, us := Paint(Paint(owner, w), r), ws - {v} + {w, r};
    }
    ListedCarve(ws, lists, live, lo, hi, n);
  }

  lemma ListedCarve(ws: set<Owner>, lists: seq<seq<nat>>, live: map<nat, nat>, lo: nat, hi: nat, n: nat)
    requires Listed(ws, lists, live, lo, hi) && lo !in live && 0 < n <= hi - lo
    ensures var v, w, r := Bump(lo, hi - lo), Live(lo, n), Bump(lo + n, hi - lo - n);
            Listed(if n == hi - lo then ws - {v} + {w} else ws - {v} + {w, r}, lists, live[lo := n], lo + n, hi)
  {
    var v, w, r := Bump(lo, hi - lo), Live(lo, n), Bump(lo + n, hi - lo - n);
    var us := if n == hi - lo then ws - {v} + {w} else ws - {v} + {w, r};
    forall x ensures x in us <==> Active(x, lists, live[lo := n], lo + n, hi) {
      assert x in ws <==> Active(x, lists, live, lo, hi);
    }
  }

  /** Fresh memory becomes a live block. */
  lemma Grant(owner: map<nat, Owner>, ws: set<Owner>, lists: seq<seq<nat>>, live: map<nat, nat>, lo: nat, hi: nat,
              p: nat, n: nat) returns (o: map<nat, Owner>, us: set<Owner>)
    requires Books(owner, ws, lists, live, lo, hi) && n > 0 && Unused(owner, p, n)
    ensures p !in live && Books(o, us, lists, live[p := n], lo, hi) && o.Keys == owner.Keys + Span(Live(p, n))
  {
    var w := Live(p, n);
    assert p <= p < p + n && p !in owner;
    if p in live {
      OneOwner(owner, ws, Live(p, live[p]), Live(p, live[p]));
    }
    Obtain(owner, ws, w);
    o, us := Paint(owner, w), ws + {w};
    var lv := live[p := n];
    forall x ensures x in us <==> Active(x, lists, lv, lo, hi) {
    }
  }

  /** A live block goes back to malloc. */
  lemma Return(owner: map<nat, Owner>, ws: set<Owner>, lists: seq<seq<nat>>, live: map<nat, nat>, lo: nat, hi: nat,
               p: nat)
    returns (o: map<nat, Owner>, us: set<Owner>)
    requires Books(owner, ws, lists, live, lo, hi) && p in live
    ensures Books(o, us, lists, live - {p}, lo, hi) && o.Keys == owner.Keys - Span(Live(p, live[p]))
  {
    var w := Live(p, live[p]);
    GiveBack(owner, ws, w);
    o, us := Wipe(owner, w), ws - {w};
    var lv := live - {p};
    forall x ensures x in us <==> Active(x, lists, lv, lo, hi) {
    }
  }

  // ---------- a chunk cut into blocks ----------

  /** `c` addresses from `a` on, `n` apart. */
  function Blocks(a: nat, n: nat, c: nat): seq<nat>
    decreases c
  {
    if c == 0 then [] else [a] + Blocks(a + n, n, c - 1)
  }

  lemma {:induction false} BlocksAbove(a: nat, n: nat, c: nat)
    requires n > 0
    ensures NoRepeats(Blocks(a, n, c)) && forall b :: b in Blocks(a, n, c) ==> b >= a
    decreases c
  {
    if c > 0 {
      BlocksAbove(a + n, n, c - 1);
      var q := Blocks(a + n, n, c - 1);
      assert a !in q;
      ConsNoRepeats(a, q);
    }
  }

  lemma ConsNoRepeats(a: nat, q: seq<nat>)
    requires a !in q && NoRepeats(q)
    ensures NoRepeats([a] + q)
  {
    var r := [a] + q;
    forall i, j | 0 <= i < j < |r| ensures r[i] != r[j] {
      assert r[j] == q[j - 1] && r[j] in q;
    }
  }

  ghost function FreeBlocks(q: seq<nat>, k: nat): set<Owner> {
    set b | b in q :: Free(b, k)
  }

  /** One live chunk becomes `c` free blocks. */
  lemma {:induction false} CutAll(owner: map<nat, Owner>, ws: set<Owner>, a: nat, k: nat, c: nat)
    returns (o: map<nat, Owner>)
    requires Partition(owner, ws) && c > 0 && Live(a, BlockSize(k) * c) in ws
    ensures Partition(o, ws - {Live(a, BlockSize(k) * c)} + FreeBlocks(Blocks(a, BlockSize(k), c), k))
    ensures o.Keys == owner.Keys
    decreases c
  {
    var n := BlockSize(k);
    var v, w := Live(a, n * c), Free(a, k);
    NotThere(owner, ws, v, w);
    BlocksAbove(a + n, n, c - 1);
    if c == 1 {
      Retag(owner, ws, v, w);
      o := Paint(owner, w);
      assert FreeBlocks(Blocks(a, n, 1), k) == {w};
    } else {
      var rest := Live(a + n, n * (c - 1));
      Times(n, c);
      InnerNotThere(owner, ws, v, rest);
      Cut(owner, ws, v, w, rest);
      var us := ws - {v} + {w, rest};
      o := CutAll(Paint(Paint(owner, w), rest), us, a + n, k, c - 1);
      var tail := FreeBlocks(Blocks(a + n, n, c - 1), k);
      assert FreeBlocks(Blocks(a, n, c), k) == {w} + tail;
      assert w !in tail;
      assert us - {rest} + tail == ws - {v} + ({w} + tail);
    }
  }

  lemma Times(n: nat, c: nat)
    requires c > 1 && n > 0
    ensures n * c == n + n * (c - 1) && n * (c - 1) > 0
  {
  }

  /** Nothing begins inside an owner. */
  lemma InnerNotThere(owner: map<nat, Owner>, ws: set<Owner>, v: Owner, w: Owner)
    requires Partition(owner, ws) && v in ws && Reaches(v, w.at) && v.at < w.at
    ensures w !in ws
  {
    if w in ws {
      assert Reaches(w, w.at);
    }
  }

  /** The rest of a chunk fills an empty free list; its first block stays live. */
  lemma ShelveRest(owner: map<nat, Owner>, ws: set<Owner>, lists: seq<seq<nat>>, live: map<nat, nat>, lo: nat, hi: nat,
                   a: nat, k: nat, c: nat) returns (o: map<nat, Owner>, us: set<Owner>)
    requires Books(owner, ws, lists, live, lo, hi) && k < LISTS && lists[k] == []
    requires c > 1 && a in live && live[a] == BlockSize(k) * c
    ensures var q := Blocks(a + BlockSize(k), BlockSize(k), c - 1);
            Books(o, us, lists[k := q], live[a := BlockSize(k)], lo, hi) && o.Keys == owner.Keys
  {
    var n := BlockSize(k);
    var q := Blocks(a + n, n, c - 1);
    var v, w, rest := Live(a, n * c), Live(a, n), Live(a + n, n * (c - 1));
    assert v in ws;
    Times(n, c);
    NotThere(owner, ws, v, w);
    InnerNotThere(owner, ws, v, rest);
    Cut(owner, ws, v, w, rest);
    var mid := ws - {v} + {w, rest};
    o := CutAll(Paint(Paint(owner, w), rest), mid, a + n, k, c - 1);
    us := mid - {rest} + FreeBlocks(q, k);
    BlocksAbove(a + n, n, c - 1);
    ListedRest(ws, lists, live, lo, hi, a, k, c);
  }

  lemma ListedRest(ws: set<Owner>, lists: seq<seq<nat>>, live: map<nat, nat>, lo: nat, hi: nat, a: nat, k: nat, c: nat)
    requires Listed(ws, lists, live, lo, hi) && k < |lists| && lists[k] == []
    requires c > 1 && a in live && live[a] == BlockSize(k) * c && Live(a + BlockSize(k), BlockSize(k) * (c - 1)) !in ws
    ensures var n := BlockSize(k);
            var q := Blocks(a + n, n, c - 1);
            var mid := ws - {Live(a, n * c)} + {Live(a, n), Live(a + n, n * (c - 1))};
            Listed(mid - {Live(a + n, n * (c - 1))} + FreeBlocks(q, k), lists[k := q], live[a := n], lo, hi)
  {
    var n := BlockSize(k);
    var q := Blocks(a + n, n, c - 1);
    var v, w, rest := Live(a, n * c), Live(a, n), Live(a + n, n * (c - 1));
    var us := ws - {v} + {w, rest} - {rest} + FreeBlocks(q, k);
    forall x ensures x in us <==> Active(x, lists[k := q], live[a := n], lo, hi) {
      assert x in ws <==> Active(x, lists, live, lo, hi);
    }
  }
}
