/**
 Who owns which byte. Every byte obtained from malloc and not given back has exactly one owner:
 a live block, a block on a free list, or the bump region (headers/cpp/stl_alloc.h:298-305, 360-363).
 */
module PoolBytes {

  const ALIGN: nat := 8
  const MAX_BYTES: nat := 128
  const LISTS: nat := 16

  datatype Owner = Live(at: nat, len: nat) | Free(at: nat, cls: nat) | Bump(at: nat, len: nat)

  /** The size of the blocks on free list `k`. */
  function BlockSize(k: nat): nat {
    ALIGN * (k + 1)
  }

  function Size(w: Owner): nat {
    if w.Free? then BlockSize(w.cls) else w.len
  }

  predicate Reaches(w: Owner, b: nat) {
    w.at <= b < w.at + Size(w)
  }

  ghost function Span(w: Owner): set<nat> {
    set b | w.at <= b < w.at + Size(w) && Reaches(w, b)
  }

  /**
   `owner` gives every byte its owner: the owners in `ws` are not empty, each owns all the bytes it
   reaches, and there are no other bytes. So no two owners overlap, and no byte is without one.
   */
  ghost predicate Partition(owner: map<nat, Owner>, ws: set<Owner>) {
    && 0 !in owner
    && (forall w :: w in ws ==> Size(w) > 0)
    && (forall b :: b in owner ==> owner[b] in ws && Reaches(owner[b], b))
    && (forall w, b :: w in ws && Reaches(w, b) ==> b in owner && owner[b] == w)
  }

  ghost function Paint(owner: map<nat, Owner>, w: Owner): map<nat, Owner> {
    map b | b in owner.Keys + Span(w) :: if Reaches(w, b) then w else owner[b]
  }

  ghost function Wipe(owner: map<nat, Owner>, w: Owner): map<nat, Owner> {
    map b | b in owner && !Reaches(w, b) :: owner[b]
  }

  /** Memory that malloc may hand out: not null, and none of it in use. */
  ghost predicate Unused(owner: map<nat, Owner>, p: nat, n: nat) {
    p > 0 && forall b {:trigger b in owner} :: p <= b < p + n ==> b !in owner
  }

  /** Two owners that begin at the same byte are the same. */
  lemma OneOwner(owner: map<nat, Owner>, ws: set<Owner>, v: Owner, w: Owner)
    requires Partition(owner, ws) && v in ws && w in ws && v.at == w.at
    ensures v == w && v.at in owner && v.at > 0
  {
    assert Reaches(v, v.at) && Reaches(w, v.at);
  }

  /** Nothing else begins where an owner begins. */
  lemma NotThere(owner: map<nat, Owner>, ws: set<Owner>, v: Owner, w: Owner)
    requires Partition(owner, ws) && v in ws && v.at == w.at && v != w
    ensures w !in ws
  {
    if w in ws {
      OneOwner(owner, ws, v, w);
    }
  }

  /** A block changes hands. */
  lemma Retag(owner: map<nat, Owner>, ws: set<Owner>, v: Owner, w: Owner)
    requires Partition(owner, ws) && v in ws && w !in ws && w.at == v.at && Size(w) == Size(v)
    ensures Partition(Paint(owner, w), ws - {v} + {w}) && Paint(owner, w).Keys == owner.Keys
  {
    var o, us := Paint(owner, w), ws - {v} + {w};
    forall b ensures Reaches(v, b) <==> Reaches(w, b) {
    }
    forall b | b in Span(w) ensures b in owner {
      assert Reaches(v, b);
    }
    forall u, b | u in us && Reaches(u, b) ensures b in o && o[b] == u {
      if u != w {
        assert b in owner && owner[b] == u;
      }
    }
    forall b | b in o ensures o[b] in us && Reaches(o[b], b) {
      if !Reaches(w, b) {
        assert owner[b] in ws && Reaches(owner[b], b);
      }
    }
  }

  /** A block is cut in two. */
  lemma Cut(owner: map<nat, Owner>, ws: set<Owner>, v: Owner, w: Owner, x: Owner)
    requires Partition(owner, ws) && v in ws && w !in ws && x !in ws && w != x
    requires w.at == v.at && x.at == w.at + Size(w) && Size(v) == Size(w) + Size(x) && Size(w) > 0 && Size(x) > 0
    ensures Partition(Paint(Paint(owner, w), x), ws - {v} + {w, x}) && Paint(Paint(owner, w), x).Keys == owner.Keys
  {
    var o, us := Paint(Paint(owner, w), x), ws - {v} + {w, x};
    forall b ensures Reaches(v, b) <==> Reaches(w, b) || Reaches(x, b) {
    }
    forall b | b in Span(w) + Span(x) ensures b in owner {
      assert Reaches(v, b);
    }
    forall u, b | u in us && Reaches(u, b) ensures b in o && o[b] == u {
      if u != w && u != x {
        assert b in owner && owner[b] == u;
      } else {
        assert Reaches(v, b);
      }
    }
    forall b | b in o ensures o[b] in us && Reaches(o[b], b) {
      if !Reaches(v, b) {
        assert b in owner && owner[b] in ws && Reaches(owner[b], b);
      }
    }
  }

  /** Memory is obtained. */
  lemma Obtain(owner: map<nat, Owner>, ws: set<Owner>, w: Owner)
    requires Partition(owner, ws) && Size(w) > 0 && Unused(owner, w.at, Size(w))
    ensures w !in ws && Partition(Paint(owner, w), ws + {w}) && Paint(owner, w).Keys == owner.Keys + Span(w)
  {
    var o, us := Paint(owner, w), ws + {w};
    assert Reaches(w, w.at) && w.at !in owner;
    forall u, b | u in us && Reaches(u, b) ensures b in o && o[b] == u {
      if u != w {
        assert b in owner && owner[b] == u;
      }
    }
    forall b | b in o ensures o[b] in us && Reaches(o[b], b) {
      if !Reaches(w, b) {
        assert owner[b] in ws && Reaches(owner[b], b);
      }
    }
  }

  /** Memory is given back. */
  lemma GiveBack(owner: map<nat, Owner>, ws: set<Owner>, w: Owner)
    requires Partition(owner, ws) && w in ws
    ensures Partition(Wipe(owner, w), ws - {w}) && Wipe(owner, w).Keys == owner.Keys - Span(w)
  {
    var o, us := Wipe(owner, w), ws - {w};
    forall u, b | u in us && Reaches(u, b) ensures b in o && o[b] == u {
      assert b in owner && owner[b] == u;
    }
    forall b | b in o ensures o[b] in us && Reaches(o[b], b) {
      assert owner[b] in ws && Reaches(owner[b], b);
    }
  }
}
