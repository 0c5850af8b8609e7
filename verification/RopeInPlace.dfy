/** In-place changes of nodes that only one rope can see (headers/cpp/ropeimpl.h:409-436, 533-586, 1229-1270). */
module RopeInPlace {
  import opened RopeShare

  /** Nodes change, but none is put above or below another. */
  ghost predicate SameLinks<C>(cells: Cells<C>, cells': Cells<C>) {
    && cells'.Keys == cells.Keys
    && (forall x :: x in cells ==> SameSlots(cells[x], cells'[x]))
  }

  predicate SameSlots<C>(c: Cell<C>, d: Cell<C>) {
    match c
    case Leaf(_) => d.Leaf?
    case Concat(l, r, _, _, _) => d.Concat? && d.left == l && d.right == r
    case Function(_, _) => d.Function?
    case Substring(b, _, _) => d.Substring? && d.base == b
  }

  lemma ShapeKept<C>(cells: Cells<C>, rank: Ranks, cells': Cells<C>)
    requires Shape(cells, rank) && SameLinks(cells, cells')
    ensures Shape(cells', rank)
  {
    forall x, y | x in cells' && Kid(cells'[x], y) ensures y in cells' && rank[y] < rank[x] {
      assert SameSlots(cells[x], cells'[x]) && Kid(cells[x], y);
    }
  }

  lemma CountedKept<C>(cells: Cells<C>, cells': Cells<C>, vars: Vars, count: map<nat, nat>, refs: Refs)
    requires Counted(cells, vars, count, refs) && SameLinks(cells, cells')
    ensures Counted(cells', vars, count, refs)
  {
    forall x | x in cells' ensures Tracked(cells', vars, count, refs, x) {
      assert Tracked(cells, vars, count, refs, x);
      forall r ensures Points(cells', vars, r, x) <==> Points(cells, vars, r, x) {
        if !r.Root? && r.p in cells {
          assert SameSlots(cells[r.p], cells'[r.p]);
        }
      }
    }
  }

  /** Nodes outside an upward-closed set stay as they are, and right. */
  lemma OutsideKept<C>(cells: Cells<C>, rank: Ranks, cells': Cells<C>, u: set<nat>)
    requires Sized(cells, rank) && Shape(cells', rank) && Upward(cells, u)
    requires forall y :: y in cells && y !in u ==> y in cells' && cells'[y] == cells[y]
    ensures forall x :: x in cells && x !in u ==> SameNode(cells, rank, cells', rank, x) && Fine(cells', x)
  {
    forall x | x in cells && x !in u ensures SameNode(cells, rank, cells', rank, x) && Fine(cells', x) {
      TextSame(cells, rank, cells', rank, u, x);
      assert Fine(cells, x);
      FineSame(cells, cells', x);
    }
  }

  // ---------- appending to a leaf ----------

  /** A leaf that only variable `k` holds grows. */
  lemma GrowLeafOk<C>(cells: Cells<C>, rank: Ranks, vars: Vars, count: map<nat, nat>, refs: Refs,
                      cstr: map<nat, seq<C>>, unused: nat, k: nat, s: seq<C>)
    requires Ok(cells, rank, vars, count, refs, cstr, unused) && k in vars && vars[k] in cells && vars[k] in count
             && count[vars[k]] == 1
    requires cells[vars[k]].Leaf?
    ensures var x := vars[k];
            var cells' := cells[x := Leaf(cells[x].data + s)];
            && Ok(cells', rank, vars, count, refs, cstr - {x}, unused)
               && Text(cells', rank, x) == Text(cells, rank, x) + s
            && OthersSame(cells, rank, vars, cells', rank, vars, k)
  {
    var x := vars[k];
    var cells' := cells[x := Leaf(cells[x].data + s)];
    VariableAlone(cells, vars, count, refs, k);
    ShapeKept(cells, rank, cells');
    OutsideKept(cells, rank, cells', {x});
    CountedKept(cells, cells', vars, count, refs);
    assert Fine(cells, x);
    ChangedOk(cells, rank, vars, count, refs, cstr, unused, cells', vars, refs, {x});
    OthersOutside(cells, rank, vars, count, refs, cells', {x}, k);
  }

  /** A concatenation with a leaf at its right. */
  predicate RightLeaf<C>(cells: Cells<C>, x: nat) {
    x in cells && cells[x].Concat? && cells[x].right in cells && cells[cells[x].right].Leaf?
  }

  function GrownRight<C>(cells: Cells<C>, x: nat, s: seq<C>): Cells<C>
    requires RightLeaf(cells, x)
  {
    var c := cells[x];
    cells[c.right := Leaf(cells[c.right].data + s)][x := Concat(c.left, c.right, c.size + |s|, c.depth, c.balanced)]
  }

  /** Nodes of an upward-closed set have changed. */
  lemma ChangedOk<C>(cells: Cells<C>, rank: Ranks, vars: Vars, count: map<nat, nat>, refs: Refs, cstr: map<nat, seq<C>>,
                     unused: nat, cells': Cells<C>, vars': Vars, refs': Refs, u: set<nat>)
    requires Ok(cells, rank, vars, count, refs, cstr, unused) && Shape(cells', rank) && cells'.Keys == cells.Keys
    requires Counted(cells', vars', count, refs')
    requires forall y :: y in cells && y !in u ==> SameNode(cells, rank, cells', rank, y) && Fine(cells', y)
    requires forall y :: y in cells && y in u ==> Fine(cells', y)
    ensures Ok(cells', rank, vars', count, refs', cstr - u, unused)
  {
    var cstr' := cstr - u;
    forall y | y in cstr' ensures CachedAt(cells', rank, cstr', y) {
      assert CachedAt(cells, rank, cstr, y) && SameNode(cells, rank, cells', rank, y) && y != 0;
    }
  }

  /** No other variable sees the change. */
  lemma OthersOutside<C>(cells: Cells<C>, rank: Ranks, vars: Vars, count: map<nat, nat>, refs: Refs, cells': Cells<C>,
                         u: set<nat>, k: nat)
    requires Shape(cells, rank) && Shape(cells', rank) && Counted(cells, vars, count, refs)
    requires forall y :: y in cells && y !in u ==> SameNode(cells, rank, cells', rank, y)
    requires forall m :: m in vars && m != k ==> vars[m] !in u
    ensures OthersSame(cells, rank, vars, cells', rank, vars, k)
  {
    forall m | m in vars && m != k ensures SameNode(cells, rank, cells', rank, vars[m]) {
      if vars[m] != 0 {
        assert vars[m] in cells;
      }
    }
  }

  lemma OneChangedOk<C>(cells: Cells<C>, rank: Ranks, vars: Vars, count: map<nat, nat>, refs: Refs,
                        cstr: map<nat, seq<C>>, unused: nat, cells': Cells<C>, vars': Vars, refs': Refs, x: nat)
    requires Ok(cells, rank, vars, count, refs, cstr, unused) && Shape(cells', rank) && x in cells && x in cells'
    requires cells' == cells[x := cells'[x]] && Counted(cells', vars', count, refs')
    requires forall y :: y in cells && y != x ==> SameNode(cells, rank, cells', rank, y) && Fine(cells', y)
    requires Fine(cells', x)
    ensures Ok(cells', rank, vars', count, refs', cstr - {x}, unused)
  {
    ChangedOk(cells, rank, vars, count, refs, cstr, unused, cells', vars', refs', {x});
  }

  /** A node that only variable `k` holds is below no other node and is no other variable's. */
  lemma VariableAlone<C>(cells: Cells<C>, vars: Vars, count: map<nat, nat>, refs: Refs, k: nat)
    requires Counted(cells, vars, count, refs) && k in vars && vars[k] in cells && vars[k] in count
             && count[vars[k]] == 1
    ensures Upward(cells, {vars[k]}) && forall m :: m in vars && m != k ==> vars[m] != vars[k]
  {
    var x := vars[k];
    assert Tracked(cells, vars, count, refs, x);
    OnlyVariable(cells, vars, count, refs, x, k);
    forall p, y | p in cells && p !in {x} && Kid(cells[p], y) ensures y !in {x} {
    }
  }

  /** Nor is the leaf at its right. */
  lemma RightAlone<C>(cells: Cells<C>, rank: Ranks, vars: Vars, count: map<nat, nat>, refs: Refs, x: nat)
    requires Counted(cells, vars, count, refs) && RightLeaf(cells, x) && Upward(cells, {x})
    requires cells[x].right in count && count[cells[x].right] == 1
    ensures Upward(cells, {x, cells[x].right}) && cells[x].left != cells[x].right
    ensures forall m :: m in vars ==> vars[m] != cells[x].right
  {
    var r := cells[x].right;
    assert Tracked(cells, vars, count, refs, r) && Kid(cells[x], r);
    OnlyParent(cells, vars, count, refs, r, x);
  }

  /** A concatenation that only variable `k` holds, with a leaf at its right that only it holds: the leaf grows. */
  lemma GrowRightOk<C>(cells: Cells<C>, rank: Ranks, vars: Vars, count: map<nat, nat>, refs: Refs,
                       cstr: map<nat, seq<C>>, unused: nat, k: nat, s: seq<C>)
    requires Ok(cells, rank, vars, count, refs, cstr, unused) && k in vars && RightLeaf(cells, vars[k])
             && vars[k] in count && count[vars[k]] == 1
    requires cells[vars[k]].right in count && count[cells[vars[k]].right] == 1
    ensures var x := vars[k]; var r := cells[x].right; var cells' := GrownRight(cells, x, s);
            && Ok(cells', rank, vars, count, refs, cstr - {x, r}, unused)
               && Text(cells', rank, x) == Text(cells, rank, x) + s
            && OthersSame(cells, rank, vars, cells', rank, vars, k)
  {
    var x := vars[k];
    var r, cells' := cells[x].right, GrownRight(cells, x, s);
    VariableAlone(cells, vars, count, refs, k);
    RightAlone(cells, rank, vars, count, refs, x);
    GrowRightTexts(cells, rank, x, s);
    GrownFine(cells, rank, x, s);
    ChangedFor(cells, rank, vars, count, refs, cstr, unused, cells', {x, r}, k);
  }

  /** Nodes that only the rope of `k` sees have changed. */
  lemma ChangedFor<C>(cells: Cells<C>, rank: Ranks, vars: Vars, count: map<nat, nat>, refs: Refs,
                      cstr: map<nat, seq<C>>, unused: nat, cells': Cells<C>, u: set<nat>, k: nat)
    requires Ok(cells, rank, vars, count, refs, cstr, unused) && SameLinks(cells, cells') && Shape(cells', rank)
    requires forall y :: y in cells && y !in u ==> SameNode(cells, rank, cells', rank, y) && Fine(cells', y)
    requires forall y :: y in cells && y in u ==> Fine(cells', y)
    requires forall m :: m in vars && m != k ==> vars[m] !in u
    ensures Ok(cells', rank, vars, count, refs, cstr - u, unused)
            && OthersSame(cells, rank, vars, cells', rank, vars, k)
  {
    CountedKept(cells, cells', vars, count, refs);
    ChangedOk(cells, rank, vars, count, refs, cstr, unused, cells', vars, refs, u);
    OthersOutside(cells, rank, vars, count, refs, cells', u, k);
  }

  lemma GrowRightTexts<C>(cells: Cells<C>, rank: Ranks, x: nat, s: seq<C>)
    requires Sized(cells, rank) && RightLeaf(cells, x) && Upward(cells, {x, cells[x].right})
             && cells[x].left != cells[x].right
    ensures var r, cells' := cells[x].right, GrownRight(cells, x, s);
            && SameLinks(cells, cells') && Shape(cells', rank) && Text(cells', rank, x) == Text(cells, rank, x) + s
            && forall y :: y in cells && y !in {x, r} ==> SameNode(cells, rank, cells', rank, y) && Fine(cells', y)
  {
    var r, cells' := cells[x].right, GrownRight(cells, x, s);
    Parts(cells, rank, x);
    ShapeKept(cells, rank, cells');
    OutsideKept(cells, rank, cells', {x, r});
    assert SameNode(cells, rank, cells', rank, cells[x].left);
    GrownText(cells, rank, cells', x, s);
  }

  lemma GrownFine<C>(cells: Cells<C>, rank: Ranks, x: nat, s: seq<C>)
    requires Sized(cells, rank) && RightLeaf(cells, x) && cells[x].left != cells[x].right
    ensures x in GrownRight(cells, x, s) && cells[x].right in GrownRight(cells, x, s)
    ensures Fine(GrownRight(cells, x, s), x) && Fine(GrownRight(cells, x, s), cells[x].right)
  {
    Parts(cells, rank, x);
    assert Fine(cells, x) && Fine(cells, cells[x].right);
  }

  lemma GrownText<C>(cells: Cells<C>, rank: Ranks, cells': Cells<C>, x: nat, s: seq<C>)
    requires Shape(cells, rank) && Shape(cells', rank) && x in cells && cells[x].Concat? && cells[x].right in cells
             && cells[cells[x].right].Leaf?
    requires x in cells' && cells'[x].Concat? && cells'[x].left == cells[x].left && cells'[x].right in cells'
    requires cells'[cells'[x].right] == Leaf(cells[cells[x].right].data + s)
    requires cells[x].left in cells && cells[x].left in cells'
             && Text(cells', rank, cells[x].left) == Text(cells, rank, cells[x].left)
    ensures Text(cells', rank, x) == Text(cells, rank, x) + s
  {
    var l, d := Text(cells, rank, cells[x].left), cells[cells[x].right].data;
    assert l + (d + s) == (l + d) + s;
  }

  /**
   The slot of `x` at the right takes the leaf `n` that temporary `t` holds; the leaf there before goes to temporary
   `a`.
   */
  function Reseated<C>(cells: Cells<C>, x: nat, n: nat, size: nat): Cells<C>
    requires x in cells && cells[x].Concat?
  {
    cells[x := Concat(cells[x].left, n, size, cells[x].depth, cells[x].balanced)]
  }

  ghost function ReseatedRefs(refs: Refs, x: nat, prior: nat, n: nat, a: nat): Refs
    requires prior in refs
  {
    refs[prior := refs[prior] - {Right(x)} + {Root(a)}][n := {Right(x)}]
  }

  lemma PointsReseated<C>(cells: Cells<C>, vars: Vars, x: nat, n: nat, size: nat, t: nat, a: nat, f: Ref, y: nat)
    requires x in cells && cells[x].Concat? && t in vars && vars[t] == n && a !in vars && cells[x].right != n
    ensures Points(Reseated(cells, x, n, size), Rebound(vars, t, a, cells[x].right), f, y)
            <==> (f == Root(a) && y == cells[x].right) || (f == Right(x) && y == n)
                 || (Points(cells, vars, f, y) && f != Right(x) && f != Root(t))
  {
  }

  lemma TrackedReseated<C>(cells: Cells<C>, vars: Vars, count: map<nat, nat>, refs: Refs, x: nat, n: nat, size: nat,
                           t: nat, a: nat, y: nat)
    requires x in cells && cells[x].Concat? && t in vars && vars[t] == n && a !in vars && cells[x].right != n
    requires Tracked(cells, vars, count, refs, y) && Tracked(cells, vars, count, refs, cells[x].right)
    requires n in refs && refs[n] == {Root(t)} && Tracked(cells, vars, count, refs, n)
    ensures Tracked(Reseated(cells, x, n, size), Rebound(vars, t, a, cells[x].right), count,
                    ReseatedRefs(refs, x, cells[x].right, n, a), y)
  {
    var prior := cells[x].right;
    assert Points(cells, vars, Right(x), prior) && !Points(cells, vars, Root(a), prior);
    Replaced(refs[prior], Right(x), Root(a));
    var s := ReseatedRefs(refs, x, prior, n, a)[y];
    forall f ensures f in s <==> Points(Reseated(cells, x, n, size), Rebound(vars, t, a, prior), f, y) {
      assert f in refs[y] <==> Points(cells, vars, f, y);
      PointsReseated(cells, vars, x, n, size, t, a, f, y);
    }
  }

  lemma CountedReseated<C>(cells: Cells<C>, vars: Vars, count: map<nat, nat>, refs: Refs, x: nat, n: nat, size: nat,
                           t: nat, a: nat)
    requires Counted(cells, vars, count, refs) && x in cells && cells[x].Concat? && t in vars && vars[t] == n
             && a !in vars
    requires cells[x].right != n && cells[x].right in cells && n in cells && n in refs && refs[n] == {Root(t)}
    ensures cells[x].right in refs
    ensures Counted(Reseated(cells, x, n, size), Rebound(vars, t, a, cells[x].right), count,
                    ReseatedRefs(refs, x, cells[x].right, n, a))
  {
    assert Tracked(cells, vars, count, refs, cells[x].right) && Tracked(cells, vars, count, refs, n);
    var cells', vars', refs' := Reseated(cells, x, n, size), Rebound(vars, t, a, cells[x].right),
        ReseatedRefs(refs, x, cells[x].right, n, a);
    forall y | y in cells' ensures Tracked(cells', vars', count, refs', y) {
      assert Tracked(cells, vars, count, refs, y);
      TrackedReseated(cells, vars, count, refs, x, n, size, t, a, y);
    }
  }

  lemma ShapeReseated<C>(cells: Cells<C>, rank: Ranks, x: nat, n: nat, size: nat)
    requires Shape(cells, rank) && x in cells && cells[x].Concat? && n in cells && rank[n] == 0
    ensures Shape(Reseated(cells, x, n, size), rank)
  {
    var cells' := Reseated(cells, x, n, size);
    forall p, y | p in cells' && Kid(cells'[p], y) ensures y in cells' && rank[y] < rank[p] {
      BelowReseated(cells, rank, x, n, size, p, y);
    }
  }

  lemma BelowReseated<C>(cells: Cells<C>, rank: Ranks, x: nat, n: nat, size: nat, p: nat, y: nat)
    requires Shape(cells, rank) && x in cells && cells[x].Concat? && n in cells && rank[n] == 0 && p in cells
             && Kid(Reseated(cells, x, n, size)[p], y)
    ensures y in cells && rank[y] < rank[p]
  {
    if p == x {
      Parts(cells, rank, x);
    } else {
      assert Kid(cells[p], y);
    }
  }

  /**
   Node `x`, which only variable `k` holds, is to take the leaf `n` that only `t` holds; it has the text of the leaf now
   there, and `s`.
   */
  ghost predicate Reseatable<C>(cells: Cells<C>, rank: Ranks, vars: Vars, count: map<nat, nat>, refs: Refs, k: nat,
                                x: nat, t: nat, n: nat, s: seq<C>) {
    && k in vars && vars[k] == x && x in cells && x in count && count[x] == 1 && RightLeaf(cells, x)
    && t in vars && vars[t] == n && k != t && n in cells && n in refs && refs[n] == {Root(t)} && n in rank
       && rank[n] == 0
    && n != cells[x].right && cells[n] == Leaf(cells[cells[x].right].data + s)
  }

  /** A new leaf is ready for its place. */
  lemma NewRightReady<C>(cells: Cells<C>, rank: Ranks, vars: Vars, count: map<nat, nat>, k: nat, a: nat, n: nat,
                         s: seq<C>, cells': Cells<C>, rank': Ranks, vars': Vars, count': map<nat, nat>, refs': Refs)
    requires k in vars && RightLeaf(cells, vars[k]) && vars[k] in count && count[vars[k]] == 1 && n !in cells
             && a !in vars
    requires cells' == cells[n := Leaf(cells[cells[vars[k]].right].data + s)] && rank' == rank[n := 0]
             && vars' == vars[a := n] && count' == count[n := 1]
    requires n in refs' && refs'[n] == {Root(a)}
    ensures Reseatable(cells', rank', vars', count', refs', k, vars[k], a, n, s) && Plus(vars, vars', a)
  {
  }

  lemma ReseatTexts<C>(cells: Cells<C>, rank: Ranks, vars: Vars, count: map<nat, nat>, refs: Refs, k: nat, x: nat,
                       t: nat, n: nat, s: seq<C>, size: nat)
    requires Sized(cells, rank) && Counted(cells, vars, count, refs)
             && Reseatable(cells, rank, vars, count, refs, k, x, t, n, s)
    ensures Shape(Reseated(cells, x, n, size), rank)
    ensures Text(Reseated(cells, x, n, size), rank, x) == Text(cells, rank, x) + s
    ensures forall y :: y in cells && y != x ==> SameNode(cells, rank, Reseated(cells, x, n, size), rank,
                                                          y) && Fine(Reseated(cells, x, n, size), y)
  {
    var cells' := Reseated(cells, x, n, size);
    VariableAlone(cells, vars, count, refs, k);
    Parts(cells, rank, x);
    ShapeReseated(cells, rank, x, n, size);
    OutsideKept(cells, rank, cells', {x});
    assert SameNode(cells, rank, cells', rank, cells[x].left);
    GrownText(cells, rank, cells', x, s);
  }

  lemma ReseatOk<C>(cells: Cells<C>, rank: Ranks, vars: Vars, count: map<nat, nat>, refs: Refs, cstr: map<nat, seq<C>>,
                    unused: nat, k: nat, x: nat, t: nat, n: nat, s: seq<C>, a: nat, size: nat) returns (refs': Refs)
    requires Ok(cells, rank, vars, count, refs, cstr, unused)
             && Reseatable(cells, rank, vars, count, refs, k, x, t, n, s) && a !in vars
    requires size == SizeOf(cells[x]) + |s|
    ensures Ok(Reseated(cells, x, n, size), rank, Rebound(vars, t, a, cells[x].right), count, refs', cstr - {x}, unused)
  {
    ReseatTexts(cells, rank, vars, count, refs, k, x, t, n, s, size);
    CountedReseated(cells, vars, count, refs, x, n, size, t, a);
    refs' := ReseatedRefs(refs, x, cells[x].right, n, a);
    assert Fine(cells, x) && Fine(cells, n);
    Parts(cells, rank, x);
    OneChangedOk(cells, rank, vars, count, refs, cstr, unused, Reseated(cells, x, n, size),
                 Rebound(vars, t, a, cells[x].right), refs', x);
  }

  // ---------- marking a node as balanced ----------

  function MarkedCells<C>(cells: Cells<C>, x: nat): Cells<C>
    requires x in cells && cells[x].Concat?
  {
    cells[x := cells[x].(balanced := true)]
  }

  lemma MarkTexts<C>(cells: Cells<C>, rank: Ranks, vars: Vars, count: map<nat, nat>, refs: Refs, t: nat)
    requires Sized(cells, rank) && Counted(cells, vars, count, refs) && t in vars && vars[t] in cells
             && vars[t] in count && count[vars[t]] == 1
    requires cells[vars[t]].Concat? && Balanced(cells[vars[t]].size, cells[vars[t]].depth)
    ensures var x := vars[t]; var cells' := MarkedCells(cells, x);
            && Sized(cells', rank) && Text(cells', rank, x) == Text(cells, rank, x)
            && Val(cells, rank, x).Concat? && Val(cells', rank, x) == Val(cells, rank, x).(balanced := true)
            && forall y :: y in cells && y != x ==> SameNode(cells, rank, cells', rank, y)
  {
    var x := vars[t];
    var cells' := MarkedCells(cells, x);
    VariableAlone(cells, vars, count, refs, t);
    Parts(cells, rank, x);
    ShapeKept(cells, rank, cells');
    OutsideKept(cells, rank, cells', {x});
    MarkedValue(cells, rank, cells', x);
  }

  lemma MarkedValue<C>(cells: Cells<C>, rank: Ranks, cells': Cells<C>, x: nat)
    requires Sized(cells, rank) && Shape(cells', rank) && x in cells && cells[x].Concat?
             && cells' == MarkedCells(cells, x) && Balanced(cells[x].size, cells[x].depth)
    requires forall y :: y in cells && y != x ==> SameNode(cells, rank, cells', rank, y)
    ensures Fine(cells', x) && Text(cells', rank, x) == Text(cells, rank, x) && Val(cells, rank, x).Concat?
            && Val(cells', rank, x) == Val(cells, rank, x).(balanced := true)
  {
    Parts(cells, rank, x);
    assert SameNode(cells, rank, cells', rank, cells[x].left) && SameNode(cells, rank, cells', rank, cells[x].right);
    assert Fine(cells, x);
    ConcatUnfolds(cells, rank, x);
    ConcatUnfolds(cells', rank, x);
  }

  lemma MarkOk<C>(cells: Cells<C>, rank: Ranks, vars: Vars, count: map<nat, nat>, refs: Refs, cstr: map<nat, seq<C>>,
                  unused: nat, t: nat)
    requires Ok(cells, rank, vars, count, refs, cstr, unused) && t in vars && vars[t] in cells && vars[t] in count
             && count[vars[t]] == 1
    requires cells[vars[t]].Concat? && Balanced(cells[vars[t]].size, cells[vars[t]].depth)
    ensures Ok(MarkedCells(cells, vars[t]), rank, vars, count, refs, cstr, unused)
  {
    var x := vars[t];
    var cells' := MarkedCells(cells, x);
    MarkTexts(cells, rank, vars, count, refs, t);
    CountedKept(cells, cells', vars, count, refs);
    forall y | y in cstr ensures CachedAt(cells', rank, cstr, y) {
      assert CachedAt(cells, rank, cstr, y);
      assert y != x ==> SameNode(cells, rank, cells', rank, y) && y != 0;
    }
  }

  // ---------- replacing one character ----------

  /** Position `i` of `r` is position `j` of the leaf `x`, and all nodes on the way there have one reference. */
  ghost predicate Way<C>(cells: Cells<C>, rank: Ranks, count: map<nat, nat>, r: nat, i: nat, x: nat, j: nat)
    requires Shape(cells, rank) && r in cells
    decreases rank[r]
  {
    && r in count && count[r] == 1
    && match cells[r]
       case Leaf(data) => r == x && i == j < |data|
       case Concat(a, b, _, _, _) =>
         assert Kid(cells[r], a) && Kid(cells[r], b);
         if i < SizeOf(cells[a]) then Way(cells, rank, count, a, i, x, j) else Way(cells, rank, count, b,
             i - SizeOf(cells[a]), x, j)
       case _ => false
  }

  /** Position `i` of `r` is in a leaf, and nothing else holds a node on the way there. */
  ghost predicate Alone<C>(cells: Cells<C>, rank: Ranks, count: map<nat, nat>, r: nat, i: nat)
    requires Shape(cells, rank) && r in cells
  {
    exists x, j :: Way(cells, rank, count, r, i, x, j)
  }

  /** The nodes on the way. */
  ghost function Along<C>(cells: Cells<C>, rank: Ranks, r: nat, i: nat): set<nat>
    requires Shape(cells, rank) && r in cells
    decreases rank[r]
  {
    match cells[r]
    case Concat(a, b, _, _, _) =>
      assert Kid(cells[r], a) && Kid(cells[r], b);
      {r} + if i < SizeOf(cells[a]) then Along(cells, rank, a, i) else Along(cells, rank, b, i - SizeOf(cells[a]))
    case _ => {r}
  }

  lemma {:induction false} AlongRanks<C>(cells: Cells<C>, rank: Ranks, r: nat, i: nat)
    requires Shape(cells, rank) && r in cells
    ensures r in Along(cells, rank, r, i) && forall y :: y in Along(cells, rank, r, i) ==>
              y in cells && (y == r || rank[y] < rank[r])
    decreases rank[r]
  {
    if cells[r].Concat? {
      var a, b := cells[r].left, cells[r].right;
      assert Kid(cells[r], a) && Kid(cells[r], b);
      if i < SizeOf(cells[a]) {
        AlongRanks(cells, rank, a, i);
      } else {
        AlongRanks(cells, rank, b, i - SizeOf(cells[a]));
      }
    }
  }

  /** Every node on the way but the first hangs below another one on it. */
  lemma {:induction false} AlongParents<C>(cells: Cells<C>, rank: Ranks, r: nat, i: nat, y: nat) returns (q: nat)
    requires Shape(cells, rank) && r in cells && y in Along(cells, rank, r, i) && y != r
    ensures q in Along(cells, rank, r, i) && q in cells && Kid(cells[q], y)
    decreases rank[r]
  {
    var a, b := cells[r].left, cells[r].right;
    assert Kid(cells[r], a) && Kid(cells[r], b);
    var c, m := if i < SizeOf(cells[a]) then a else b, if i < SizeOf(cells[a]) then i else i - SizeOf(cells[a]);
    AlongRanks(cells, rank, c, m);
    if y == c {
      q := r;
    } else {
      q := AlongParents(cells, rank, c, m, y);
    }
  }

  lemma {:induction false} WayCounts<C>(cells: Cells<C>, rank: Ranks, count: map<nat, nat>, r: nat, i: nat, x: nat,
                                        j: nat)
    requires Shape(cells, rank) && r in cells && Way(cells, rank, count, r, i, x, j)
    ensures x in Along(cells, rank, r, i) && x in cells && cells[x].Leaf? && j < |cells[x].data|
    ensures forall y :: y in Along(cells, rank, r, i) ==> y in count && count[y] == 1
    decreases rank[r]
  {
    if cells[r].Concat? {
      var a, b := cells[r].left, cells[r].right;
      assert Kid(cells[r], a) && Kid(cells[r], b);
      if i < SizeOf(cells[a]) {
        WayCounts(cells, rank, count, a, i, x, j);
      } else {
        WayCounts(cells, rank, count, b, i - SizeOf(cells[a]), x, j);
      }
    }
  }

  /** Whoever has a node of the way below it is on the way: nothing else can see the change. */
  lemma AlongUpward<C>(cells: Cells<C>, rank: Ranks, vars: Vars, count: map<nat, nat>, refs: Refs, k: nat, i: nat,
                       x: nat, j: nat)
    requires Shape(cells, rank) && Counted(cells, vars, count, refs) && k in vars && vars[k] in cells
    requires Way(cells, rank, count, vars[k], i, x, j)
    ensures Upward(cells, Along(cells, rank, vars[k], i))
    ensures forall m :: m in vars && m != k ==> vars[m] !in Along(cells, rank, vars[k], i)
  {
    var r, w := vars[k], Along(cells, rank, vars[k], i);
    AlongRanks(cells, rank, r, i);
    WayCounts(cells, rank, count, r, i, x, j);
    forall y | y in w ensures (forall p :: p in cells && Kid(cells[p], y) ==> p in w)
           && (forall m :: m in vars && m != k ==> vars[m] != y) {
      assert Tracked(cells, vars, count, refs, y);
      if y == r {
        OnlyVariable(cells, vars, count, refs, r, k);
      } else {
        var q := AlongParents(cells, rank, r, i, y);
        OnlyParent(cells, vars, count, refs, y, q);
      }
    }
  }

  /** The other part `z` of a concatenation on the way is off the way, which goes on with `c`. */
  lemma {:induction false} OtherOff<C>(cells: Cells<C>, rank: Ranks, vars: Vars, count: map<nat, nat>, refs: Refs,
                                       r: nat, c: nat, z: nat, m: nat)
    requires Shape(cells, rank) && Counted(cells, vars, count, refs) && r in cells && c in cells && z in cells
             && rank[c] < rank[r]
    requires cells[r].Concat? && ((cells[r].left == c && cells[r].right == z)
                                  || (cells[r].left == z && cells[r].right == c))
    requires forall y :: y in Along(cells, rank, c, m) ==> y in count && count[y] == 1
    ensures z !in Along(cells, rank, c, m)
  {
    AlongRanks(cells, rank, c, m);
    if z == c {
      BothSlots(cells, vars, count, refs, r, z);
    } else if z in Along(cells, rank, c, m) {
      var q := AlongParents(cells, rank, c, m, z);
      TwoParents(cells, vars, count, refs, r, q, z);
    }
  }

  /** A node with one reference fills only one slot. */
  lemma BothSlots<C>(cells: Cells<C>, vars: Vars, count: map<nat, nat>, refs: Refs, r: nat, z: nat)
    requires Counted(cells, vars, count, refs) && r in cells && z in cells && z in count && count[z] == 1
    ensures !(cells[r].Concat? && cells[r].left == z && cells[r].right == z)
  {
    if cells[r].Concat? && cells[r].left == z && cells[r].right == z {
      assert Tracked(cells, vars, count, refs, z) && Kid(cells[r], z);
      OnlyParent(cells, vars, count, refs, z, r);
    }
  }

  lemma TwoParents<C>(cells: Cells<C>, vars: Vars, count: map<nat, nat>, refs: Refs, r: nat, q: nat, z: nat)
    requires Counted(cells, vars, count, refs) && r in cells && q in cells && z in cells && z in count && count[z] == 1
             && Kid(cells[q], z)
    requires cells[r].Concat? && (cells[r].left == z || cells[r].right == z)
    ensures q == r
  {
    assert Tracked(cells, vars, count, refs, z) && Kid(cells[r], z);
    OnlyParent(cells, vars, count, refs, z, q);
  }

  lemma JoinPut<C>(s: seq<C>, t: seq<C>, i: nat, c: C)
    requires i < |s| + |t|
    ensures i < |s| ==> s[i := c] + t == (s + t)[i := c]
    ensures i >= |s| ==> s + t[i - |s| := c] == (s + t)[i := c]
  {
  }

  /** Where the way goes on, and the part it leaves aside. */
  lemma WayOn<C>(cells: Cells<C>, rank: Ranks, count: map<nat, nat>, r: nat, i: nat, x: nat, j: nat)
    requires Shape(cells, rank) && r in cells && cells[r].Concat? && Way(cells, rank, count, r, i, x, j)
    ensures cells[r].left in cells && cells[r].right in cells && rank[cells[r].left] < rank[r]
            && rank[cells[r].right] < rank[r]
    ensures var a, b := cells[r].left, cells[r].right; var n := SizeOf(cells[a]);
            if i < n then
              Way(cells, rank, count, a, i, x, j) && Along(cells, rank, r, i) == {r} + Along(cells, rank, a, i)
            else
              Way(cells, rank, count, b, i - n, x, j) && Along(cells, rank, r, i) == {r} + Along(cells, rank, b, i - n)
  {
    assert Kid(cells[r], cells[r].left) && Kid(cells[r], cells[r].right);
  }

  /** One step down. */
  lemma WayDown<C>(cells: Cells<C>, rank: Ranks, count: map<nat, nat>, r: nat, i: nat)
    requires Sized(cells, rank) && r in cells && cells[r].Concat? && r in count && count[r] == 1 && i < SizeOf(cells[r])
    ensures cells[r].left in cells && cells[r].right in cells && rank[cells[r].left] < rank[r]
            && rank[cells[r].right] < rank[r]
    ensures var n := SizeOf(cells[cells[r].left]);
            var c, m := if i < n then cells[r].left else cells[r].right, if i < n then i else i - n;
            && m < SizeOf(cells[c]) && Along(cells, rank, r, i) == {r} + Along(cells, rank, c, m)
            && forall x, j :: Way(cells, rank, count, c, m, x, j) <==> Way(cells, rank, count, r, i, x, j)
  {
    Parts(cells, rank, r);
    assert Fine(cells, r);
  }

  /** A descent from position `i0` of `r0` has come to position `i` of `r`, along `path`. */
  ghost predicate Toward<C>(cells: Cells<C>, rank: Ranks, count: map<nat, nat>, r0: nat, i0: nat, r: nat, i: nat,
                            path: set<nat>)
    requires Shape(cells, rank) && r0 in cells
  {
    && r in cells && i < SizeOf(cells[r]) && Along(cells, rank, r0, i0) == path + Along(cells, rank, r, i)
    && forall x, j :: Way(cells, rank, count, r, i, x, j) <==> Way(cells, rank, count, r0, i0, x, j)
  }

  lemma TowardDown<C>(cells: Cells<C>, rank: Ranks, count: map<nat, nat>, r0: nat, i0: nat, r: nat, i: nat,
                      path: set<nat>)
    requires Sized(cells, rank) && r0 in cells && Toward(cells, rank, count, r0, i0, r, i, path)
    requires cells[r].Concat? && r in count && count[r] == 1
    ensures cells[r].left in cells && cells[r].right in cells && rank[cells[r].left] < rank[r]
            && rank[cells[r].right] < rank[r]
    ensures var n := SizeOf(cells[cells[r].left]);
            if i < n then Toward(cells, rank, count, r0, i0, cells[r].left, i, path + {r})
            else Toward(cells, rank, count, r0, i0, cells[r].right, i - n, path + {r})
  {
    WayDown(cells, rank, count, r, i);
    var n := SizeOf(cells[cells[r].left]);
    var c, m := if i < n then cells[r].left else cells[r].right, if i < n then i else i - n;
    assert path + {r} + Along(cells, rank, c, m) == path + ({r} + Along(cells, rank, c, m));
  }

  lemma TowardLeaf<C>(cells: Cells<C>, rank: Ranks, count: map<nat, nat>, r0: nat, i0: nat, r: nat, i: nat,
                      path: set<nat>)
    requires Shape(cells, rank) && r0 in cells && Toward(cells, rank, count, r0, i0, r, i, path) && cells[r].Leaf?
             && r in count && count[r] == 1
    ensures Way(cells, rank, count, r0, i0, r, i) && Along(cells, rank, r0, i0) == path + {r}
  {
    assert Way(cells, rank, count, r, i, r, i);
  }

  /** The nodes of `w` that are not on the way from `r` rank no lower than `r`. */
  ghost predicate Above<C>(cells: Cells<C>, rank: Ranks, w: set<nat>, along: set<nat>, r: nat)
    requires r in rank
  {
    forall y :: y in w && y !in along && y in rank ==> rank[y] >= rank[r]
  }

  lemma {:induction false} WayText<C>(cells: Cells<C>, rank: Ranks, vars: Vars, count: map<nat, nat>, refs: Refs,
                                      cells': Cells<C>, r: nat, i: nat, x: nat, j: nat, c: C, w: set<nat>)
    requires Sized(cells, rank) && Shape(cells', rank) && Counted(cells, vars, count, refs) && r in cells
             && Way(cells, rank, count, r, i, x, j)
    requires x in cells && cells[x].Leaf? && j < |cells[x].data| && cells' == cells[x := Leaf(cells[x].data[j := c])]
    requires Upward(cells, w) && x in w && Above(cells, rank, w, Along(cells, rank, r, i), r)
    ensures i < |Text(cells, rank, r)| && Text(cells', rank, r) == Text(cells, rank, r)[i := c]
    decreases rank[r]
  {
    if cells[r].Concat? {
      var a, b := cells[r].left, cells[r].right;
      WayOn(cells, rank, count, r, i, x, j);
      WayCounts(cells, rank, count, r, i, x, j);
      var n := SizeOf(cells[a]);
      var d, m, z := if i < n then a else b, if i < n then i else i - n, if i < n then b else a;
      AlongRanks(cells, rank, d, m);
      OtherOff(cells, rank, vars, count, refs, r, d, z, m);
      AsideKept(cells, rank, cells', r, d, m, z, x, w);
      WayText(cells, rank, vars, count, refs, cells', d, m, x, j, c, w);
      WayJoined(cells, rank, cells', r, i, c);
    }
  }

  /** The part that the way leaves aside keeps its text. */
  lemma AsideKept<C>(cells: Cells<C>, rank: Ranks, cells': Cells<C>, r: nat, d: nat, m: nat, z: nat, x: nat,
                     w: set<nat>)
    requires Shape(cells, rank) && Shape(cells', rank) && r in cells && d in cells && z in cells && rank[z] < rank[r]
             && Upward(cells, w) && x in w && x in cells
    requires z !in Along(cells, rank, d, m) && z != r && Above(cells, rank, w, {r} + Along(cells, rank, d, m), r)
             && x in cells' && cells' == cells[x := cells'[x]]
    ensures z in cells' && Text(cells', rank, z) == Text(cells, rank, z)
  {
    assert z !in w;
    TextSame(cells, rank, cells', rank, w, z);
  }

  /** One part has the new character, the other is as it was. */
  lemma WayJoined<C>(cells: Cells<C>, rank: Ranks, cells': Cells<C>, r: nat, i: nat, c: C)
    requires Sized(cells, rank) && Shape(cells', rank) && r in cells && r in cells' && cells[r].Concat?
             && cells'[r] == cells[r]
    requires var a, b := cells[r].left, cells[r].right;
             a in cells && b in cells && a in cells' && b in cells'
             && if i < SizeOf(cells[a]) then i < |Text(cells, rank, a)|
                && Text(cells', rank, a) == Text(cells, rank, a)[i := c]
                   && Text(cells', rank, b) == Text(cells, rank, b)
                else i - SizeOf(cells[a]) < |Text(cells, rank, b)| && Text(cells', rank, a) == Text(cells, rank, a)
                     && Text(cells', rank, b) == Text(cells, rank, b)[i - SizeOf(cells[a]) := c]
    ensures i < |Text(cells, rank, r)| && Text(cells', rank, r) == Text(cells, rank, r)[i := c]
  {
    Halves(cells, rank, r);
    ConcatUnfolds(cells', rank, r);
    JoinPut(Text(cells, rank, cells[r].left), Text(cells, rank, cells[r].right), i, c);
  }

  /** A character replaced in place: only the text of that rope changes, and only there. */
  lemma PutCharOk<C>(cells: Cells<C>, rank: Ranks, vars: Vars, count: map<nat, nat>, refs: Refs, cstr: map<nat, seq<C>>,
                     unused: nat, k: nat, i: nat, x: nat, j: nat, c: C)
    requires Ok(cells, rank, vars, count, refs, cstr, unused) && k in vars && vars[k] in cells
             && Way(cells, rank, count, vars[k], i, x, j)
    ensures x in cells && cells[x].Leaf? && j < |cells[x].data|
    ensures var cells' := cells[x := Leaf(cells[x].data[j := c])];
            && Ok(cells', rank, vars, count, refs, cstr - Along(cells, rank, vars[k], i), unused)
            && i < |Text(cells, rank, vars[k])| && Text(cells', rank, vars[k]) == Text(cells, rank, vars[k])[i := c]
            && OthersSame(cells, rank, vars, cells', rank, vars, k)
  {
    var r, w := vars[k], Along(cells, rank, vars[k], i);
    WayCounts(cells, rank, count, r, i, x, j);
    var cells' := cells[x := Leaf(cells[x].data[j := c])];
    AlongUpward(cells, rank, vars, count, refs, k, i, x, j);
    ShapeKept(cells, rank, cells');
    OutsideKept(cells, rank, cells', w);
    WayText(cells, rank, vars, count, refs, cells', r, i, x, j, c, w);
    StillFine(cells, rank, cells', x);
    CountedKept(cells, cells', vars, count, refs);
    ChangedOk(cells, rank, vars, count, refs, cstr, unused, cells', vars, refs, w);
    OthersOutside(cells, rank, vars, count, refs, cells', w, k);
  }

  /** A leaf keeps its length, so every node stays right. */
  lemma StillFine<C>(cells: Cells<C>, rank: Ranks, cells': Cells<C>, x: nat)
    requires Sized(cells, rank) && x in cells && cells[x].Leaf?
    requires x in cells' && cells'[x].Leaf? && |cells'[x].data| == |cells[x].data| && cells' == cells[x := cells'[x]]
    ensures forall y :: y in cells ==> Fine(cells', y)
  {
    forall y | y in cells ensures Fine(cells', y) {
      assert Fine(cells, y);
      if y != x {
        FineSame(cells, cells', y);
      }
    }
  }
}
