/**
 References given up: what is freed, and what is not (headers/cpp/stl_rope.h:403-416, 502-518;
 headers/cpp/ropeimpl.h:327-365).
 */
module RopeKeep {
  import opened RopeShare

  /** Node `y` has a reference from a variable of `own`, or from a node of `keep`. */
  ghost predicate HeldAt<C>(cells: Cells<C>, vars: Vars, own: set<nat>, keep: set<nat>, y: nat) {
    exists r :: Points(cells, vars, r, y) && (if r.Root? then r.k in own else r.p in keep)
  }

  /** The variables of `own` hold all of `keep`, directly or through nodes of `keep`. */
  ghost predicate Held<C>(cells: Cells<C>, vars: Vars, own: set<nat>, keep: set<nat>) {
    && (forall m :: m in own ==> m in vars)
    && (forall y :: y in keep ==> y in cells && HeldAt(cells, vars, own, keep, y))
  }

  /** The variables of `own` and the nodes of `keep` are as they were, and these still hold those. */
  ghost predicate Kept<C>(cells: Cells<C>, rank: Ranks, vars: Vars, cells': Cells<C>, rank': Ranks, vars': Vars,
                          own: set<nat>, keep: set<nat>)
    requires Shape(cells, rank) && Shape(cells', rank')
  {
    && Held(cells', vars', own, keep)
    && (forall m :: m in own ==> m in vars && m in vars' && vars'[m] == vars[m])
    && (forall y :: y in keep ==> SameNode(cells, rank, cells', rank', y))
  }

  lemma KeptTrans<C>(c0: Cells<C>, r0: Ranks, v0: Vars, c1: Cells<C>, r1: Ranks, v1: Vars, c2: Cells<C>, r2: Ranks,
                     v2: Vars, own: set<nat>, keep: set<nat>)
    requires Shape(c0, r0) && Shape(c1, r1) && Shape(c2, r2)
    requires Kept(c0, r0, v0, c1, r1, v1, own, keep) && Kept(c1, r1, v1, c2, r2, v2, own, keep)
    ensures Kept(c0, r0, v0, c2, r2, v2, own, keep)
  {
    forall y | y in keep ensures SameNode(c0, r0, c2, r2, y) {
      assert SameNode(c0, r0, c1, r1, y) && SameNode(c1, r1, c2, r2, y);
    }
  }

  /** A node whose only reference goes is not one of them. */
  lemma NotKept<C>(cells: Cells<C>, vars: Vars, count: map<nat, nat>, refs: Refs, x: nat, t: nat, own: set<nat>,
                   keep: set<nat>)
    requires Counted(cells, vars, count, refs) && x in cells && x in count && count[x] == 1 && t in vars && vars[t] == x
    requires t !in own && Held(cells, vars, own, keep)
    ensures x !in keep
  {
    assert Tracked(cells, vars, count, refs, x);
    OnlyVariable(cells, vars, count, refs, x, t);
  }

  lemma KeptFreed<C>(cells: Cells<C>, rank: Ranks, vars: Vars, x: nat, cells': Cells<C>, vars': Vars, own: set<nat>,
                     keep: set<nat>)
    requires Shape(cells, rank) && Shape(cells', rank) && Held(cells, vars, own, keep) && x !in keep
    requires forall y :: y in cells && y != x ==> SameNode(cells, rank, cells', rank, y)
    requires forall m :: m in own ==> m in vars && m in vars' && vars'[m] == vars[m]
    ensures Kept(cells, rank, vars, cells', rank, vars', own, keep)
  {
    forall y | y in keep ensures y in cells' && HeldAt(cells', vars', own, keep, y) {
      assert HeldAt(cells, vars, own, keep, y) && SameNode(cells, rank, cells', rank, y);
      var r :| Points(cells, vars, r, y) && (if r.Root? then r.k in own else r.p in keep);
      if !r.Root? {
        assert SameNode(cells, rank, cells', rank, r.p);
      }
      assert Points(cells', vars', r, y);
    }
  }

  /** The last reference to a node goes: nothing is left that could see it. */
  lemma FreedOk<C>(cells: Cells<C>, rank: Ranks, vars: Vars, count: map<nat, nat>, refs: Refs, cstr: map<nat, seq<C>>,
                   unused: nat, x: nat, vars': Vars, refs': Refs)
    requires Ok(cells, rank, vars, count, refs, cstr, unused) && x in cells
             && forall p :: p in cells ==> !Kid(cells[p], x)
    requires Counted(cells - {x}, vars', count, refs')
    ensures Shape(cells - {x}, rank) && Ok(cells - {x}, rank, vars', count, refs', cstr - {x}, unused)
    ensures forall y :: y in cells && y != x ==> SameNode(cells, rank, cells - {x}, rank, y)
  {
    ShapeFreed(cells, rank, x);
    KeptOk(cells, rank, cstr, cells - {x}, rank, cstr - {x});
  }

  /** The variables after a concatenation has been freed. */
  function Released2(vars: Vars, t: nat, a: nat, l: nat, b: nat, r: nat): Vars {
    (vars - {t})[a := l][b := r]
  }

  lemma ReleasedVars(vars: Vars, t: nat, a: nat, l: nat, b: nat, r: nat, own: set<nat>)
    requires t !in own && a !in vars && b !in vars && forall m :: m in own ==> m in vars
    ensures var vars' := Released2(vars, t, a, l, b, r); forall m :: m in own ==> m in vars' && vars'[m] == vars[m]
  {
  }

  lemma FreeConcatOk<C>(cells: Cells<C>, rank: Ranks, vars: Vars, count: map<nat, nat>, refs: Refs,
                        cstr: map<nat, seq<C>>, unused: nat, x: nat, t: nat, a: nat, b: nat, cells': Cells<C>,
                        vars': Vars, cstr': map<nat, seq<C>>, own: set<nat>, keep: set<nat>) returns (refs': Refs)
    requires Ok(cells, rank, vars, count, refs, cstr, unused) && t in vars && vars[t] == x && x in cells && x in count
             && count[x] == 1
    requires cells[x].Concat? && a !in vars && b !in vars && a != b
    requires cells' == cells - {x} && vars' == Released2(vars, t, a, cells[x].left, b, cells[x].right)
             && cstr' == cstr - {x}
    requires t !in own && Held(cells, vars, own, keep)
    ensures Ok(cells', rank, vars', count, refs', cstr', unused)
            && Kept(cells, rank, vars, cells', rank, vars', own, keep)
    ensures vars'.Keys == vars.Keys - {t} + {a, b}
  {
    ReleasedVars(vars, t, a, cells[x].left, b, cells[x].right, own);
    assert Tracked(cells, vars, count, refs, x);
    OnlyVariable(cells, vars, count, refs, x, t);
    var l, r := cells[x].left, cells[x].right;
    Parts(cells, rank, x);
    CountedConcatFreed(cells, vars, count, refs, x, t, a, b);
    refs' := TwoMoved(refs, l, r, Left(x), Right(x), Root(a), Root(b));
    FreedOk(cells, rank, vars, count, refs, cstr, unused, x, vars', refs');
    NotKept(cells, vars, count, refs, x, t, own, keep);
    KeptFreed(cells, rank, vars, x, cells', vars', own, keep);
  }

  lemma FreeSubstringOk<C>(cells: Cells<C>, rank: Ranks, vars: Vars, count: map<nat, nat>, refs: Refs,
                           cstr: map<nat, seq<C>>, unused: nat, x: nat, t: nat, a: nat, cells': Cells<C>, vars': Vars,
                           cstr': map<nat, seq<C>>, own: set<nat>, keep: set<nat>) returns (refs': Refs)
    requires Ok(cells, rank, vars, count, refs, cstr, unused) && t in vars && vars[t] == x && x in cells && x in count
             && count[x] == 1
    requires cells[x].Substring? && a !in vars
    requires cells' == cells - {x} && vars' == Rebound(vars, t, a, cells[x].base) && cstr' == cstr - {x}
    requires t !in own && Held(cells, vars, own, keep)
    ensures Ok(cells', rank, vars', count, refs', cstr', unused)
            && Kept(cells, rank, vars, cells', rank, vars', own, keep)
    ensures vars'.Keys == vars.Keys - {t} + {a}
  {
    assert Tracked(cells, vars, count, refs, x);
    OnlyVariable(cells, vars, count, refs, x, t);
    var l := cells[x].base;
    Parts(cells, rank, x);
    assert Tracked(cells, vars, count, refs, l);
    CountedSubstringFreed(cells, vars, count, refs, x, t, a);
    refs' := refs[l := refs[l] - {Base(x)} + {Root(a)}];
    FreedOk(cells, rank, vars, count, refs, cstr, unused, x, vars', refs');
    NotKept(cells, vars, count, refs, x, t, own, keep);
    KeptFreed(cells, rank, vars, x, cells', vars', own, keep);
  }

  lemma FreeLeafOk<C>(cells: Cells<C>, rank: Ranks, vars: Vars, count: map<nat, nat>, refs: Refs,
                      cstr: map<nat, seq<C>>, unused: nat, x: nat, t: nat, cells': Cells<C>, vars': Vars,
                      cstr': map<nat, seq<C>>, own: set<nat>, keep: set<nat>)
    requires Ok(cells, rank, vars, count, refs, cstr, unused) && t in vars && vars[t] == x && x in cells && x in count
             && count[x] == 1
    requires cells[x].Leaf? || cells[x].Function?
    requires cells' == cells - {x} && vars' == Unbound(vars, t) && cstr' == cstr - {x}
    requires t !in own && Held(cells, vars, own, keep)
    ensures Ok(cells', rank, vars', count, refs, cstr', unused)
            && Kept(cells, rank, vars, cells', rank, vars', own, keep)
    ensures vars'.Keys == vars.Keys - {t}
  {
    assert Tracked(cells, vars, count, refs, x);
    OnlyVariable(cells, vars, count, refs, x, t);
    CountedFreed(cells, vars, count, refs, x, t);
    FreedOk(cells, rank, vars, count, refs, cstr, unused, x, vars', refs);
    NotKept(cells, vars, count, refs, x, t, own, keep);
    KeptFreed(cells, rank, vars, x, cells', vars', own, keep);
  }

  // ---------- one variable goes ----------

  /** The other variables hold their nodes, and what is held by some of them. */
  lemma OthersHeld<C>(cells: Cells<C>, vars: Vars, count: map<nat, nat>, refs: Refs, t: nat, all: set<nat>,
                      own: set<nat>, keep: set<nat>) returns (both: set<nat>)
    requires Counted(cells, vars, count, refs) && all == vars.Keys - {t} && t !in own && Held(cells, vars, own, keep)
    ensures Held(cells, vars, all, both) && keep <= both && forall m :: m in all && vars[m] != 0 ==> vars[m] in both
  {
    var roots := set m | m in all && vars[m] != 0 :: vars[m];
    both := keep + roots;
    forall y | y in both ensures y in cells && HeldAt(cells, vars, all, both, y) {
      if y in roots {
        var m :| m in all && vars[m] != 0 && vars[m] == y;
        assert Points(cells, vars, Root(m), y);
      } else {
        assert HeldAt(cells, vars, own, keep, y);
      }
    }
  }

  /** What is kept for more variables is kept for fewer. */
  lemma KeptPart<C>(cells: Cells<C>, rank: Ranks, vars: Vars, cells': Cells<C>, vars': Vars, all: set<nat>,
                    both: set<nat>, own: set<nat>, keep: set<nat>)
    requires Shape(cells, rank) && Shape(cells', rank) && Kept(cells, rank, vars, cells', rank, vars', all, both)
             && keep <= both
    requires Held(cells, vars, own, keep) && (forall m :: m in own ==> m in all)
    ensures Kept(cells, rank, vars, cells', rank, vars', own, keep)
  {
    forall y | y in keep ensures y in cells' && HeldAt(cells', vars', own, keep, y) {
      assert HeldAt(cells, vars, own, keep, y) && SameNode(cells, rank, cells', rank, y);
      var r :| Points(cells, vars, r, y) && (if r.Root? then r.k in own else r.p in keep);
      if !r.Root? {
        assert SameNode(cells, rank, cells', rank, r.p);
      }
      assert Points(cells', vars', r, y);
    }
  }

  lemma OthersKept<C>(cells: Cells<C>, rank: Ranks, vars: Vars, cells': Cells<C>, vars': Vars, t: nat, own: set<nat>,
                      keep: set<nat>)
    requires Shape(cells, rank) && Shape(cells', rank) && own == vars.Keys - {t}
             && Kept(cells, rank, vars, cells', rank, vars', own, keep)
    requires forall m :: m in own && vars[m] != 0 ==> vars[m] in keep
    ensures OthersSame(cells, rank, vars, cells', rank, vars', t)
  {
    forall m | m in vars && m != t ensures m in vars' && vars'[m] == vars[m]
           && SameNode(cells, rank, cells', rank, vars[m]) {
      assert m in own;
    }
  }

  // ---------- temporaries go ----------

  /** What there was before, and what a new variable `t` has come to hold. */
  ghost function OldAnd<C>(cells0: Cells<C>, vars: Vars, t: nat): set<nat>
    requires t in vars
  {
    if vars[t] == 0 then cells0.Keys else cells0.Keys + {vars[t]}
  }

  /** The old variables and `t` hold all of it. */
  lemma OldHeld<C>(cells0: Cells<C>, rank0: Ranks, vars0: Vars, count0: map<nat, nat>, refs0: Refs, cells: Cells<C>,
                   rank: Ranks, vars: Vars, t: nat)
    requires Shape(cells0, rank0) && Shape(cells, rank) && Counted(cells0, vars0, count0, refs0)
             && NodesSame(cells0, rank0, cells, rank)
    requires t in vars && (vars[t] != 0 ==> vars[t] in cells)
             && forall m :: m in vars0 ==> m in vars && vars[m] == vars0[m]
    ensures Held(cells, vars, vars0.Keys + {t}, OldAnd(cells0, vars, t))
  {
    var own, keep := vars0.Keys + {t}, OldAnd(cells0, vars, t);
    forall y | y in keep ensures y in cells && HeldAt(cells, vars, own, keep, y) {
      if y in cells0 {
        assert SameNode(cells0, rank0, cells, rank, y) && Tracked(cells0, vars0, count0, refs0, y);
        var r :| r in refs0[y];
        assert Points(cells0, vars0, r, y);
        if !r.Root? {
          assert SameNode(cells0, rank0, cells, rank, r.p);
        }
        assert Points(cells, vars, r, y);
      } else {
        assert Points(cells, vars, Root(t), y);
      }
    }
  }

  lemma OldKept<C>(cells0: Cells<C>, rank0: Ranks, vars0: Vars, cells: Cells<C>, rank: Ranks, vars: Vars,
                   cells': Cells<C>, vars': Vars, t: nat)
    requires Shape(cells0, rank0) && Shape(cells, rank) && Shape(cells', rank) && NodesSame(cells0, rank0, cells, rank)
    requires t !in vars0 && t in vars && forall m :: m in vars0 ==> m in vars && vars[m] == vars0[m]
    requires Kept(cells, rank, vars, cells', rank, vars', vars0.Keys + {t}, OldAnd(cells0, vars, t))
             && vars'.Keys == vars0.Keys + {t}
    ensures NodesSame(cells0, rank0, cells', rank) && Plus(vars0, vars', t) && vars'[t] == vars[t]
            && SameNode(cells, rank, cells', rank, vars[t])
  {
    var keep := OldAnd(cells0, vars, t);
    forall y | y in cells0 ensures SameNode(cells0, rank0, cells', rank, y) {
      assert y in keep && SameNode(cells0, rank0, cells, rank, y) && SameNode(cells, rank, cells', rank, y);
    }
    assert vars[t] != 0 ==> vars[t] in keep;
  }

  lemma PlusRebound(vars: Vars, a: nat, x: nat, t: nat, n: nat)
    requires a !in vars && t !in vars && a != t
    ensures Plus(vars, Rebound(vars[a := x], a, t, n), t)
  {
  }

  // ---------- nodes and variables added ----------

  /** The old variables hold all the old nodes, as long as these stay. */
  lemma AllHeld<C>(c0: Cells<C>, r0: Ranks, v0: Vars, count0: map<nat, nat>, refs0: Refs, c1: Cells<C>, r1: Ranks,
                   v1: Vars)
    requires Shape(c0, r0) && Shape(c1, r1) && Counted(c0, v0, count0, refs0) && NodesSame(c0, r0, c1, r1)
    requires forall m :: m in v0 ==> m in v1 && v1[m] == v0[m]
    ensures Held(c1, v1, v0.Keys, c0.Keys)
  {
    forall y | y in c0 ensures y in c1 && HeldAt(c1, v1, v0.Keys, c0.Keys, y) {
      assert SameNode(c0, r0, c1, r1, y) && Tracked(c0, v0, count0, refs0, y);
      var r :| r in refs0[y];
      assert Points(c0, v0, r, y);
      if !r.Root? {
        assert SameNode(c0, r0, c1, r1, r.p);
      }
      assert Points(c1, v1, r, y);
    }
  }

  /** Where no node has changed, whatever was held stays. */
  lemma KeptAll<C>(c0: Cells<C>, r0: Ranks, v0: Vars, c1: Cells<C>, r1: Ranks, v1: Vars, own: set<nat>, keep: set<nat>)
    requires Shape(c0, r0) && Shape(c1, r1) && Held(c0, v0, own, keep) && NodesSame(c0, r0, c1, r1)
    requires forall m :: m in own ==> m in v1 && v1[m] == v0[m]
    ensures Kept(c0, r0, v0, c1, r1, v1, own, keep)
  {
    forall y | y in keep ensures y in c1 && HeldAt(c1, v1, own, keep, y) && SameNode(c0, r0, c1, r1, y) {
      assert HeldAt(c0, v0, own, keep, y) && SameNode(c0, r0, c1, r1, y);
      var r :| Points(c0, v0, r, y) && (if r.Root? then r.k in own else r.p in keep);
      if !r.Root? {
        assert SameNode(c0, r0, c1, r1, r.p);
      }
      assert Points(c1, v1, r, y);
    }
  }

  /** What came in between has gone, but for `t`. */
  lemma OldAndOne<C>(c0: Cells<C>, r0: Ranks, v0: Vars, c1: Cells<C>, r1: Ranks, v1: Vars, c2: Cells<C>, r2: Ranks,
                     v2: Vars, t: nat)
    requires Shape(c0, r0) && Shape(c1, r1) && Shape(c2, r2) && NodesSame(c0, r0, c1, r1)
             && forall m :: m in v0 ==> m in v1 && v1[m] == v0[m]
    requires Kept(c1, r1, v1, c2, r2, v2, v0.Keys, c0.Keys) && t !in v0 && v2.Keys == v0.Keys + {t}
    ensures NodesSame(c0, r0, c2, r2) && Plus(v0, v2, t)
  {
    forall y | y in c0 ensures SameNode(c0, r0, c2, r2, y) {
      assert SameNode(c0, r0, c1, r1, y) && y in c0.Keys && SameNode(c1, r1, c2, r2, y);
    }
  }
}
