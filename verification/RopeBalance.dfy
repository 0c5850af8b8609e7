/**
 Concatenation and rebalancing of ropes whose nodes are shared and counted (headers/cpp/ropeimpl.h:439-476, 589-632,
 1078-1180). The slots of the forest are variables: what they hold is counted. Depths, sizes and termination are those
 of the values that the nodes stand for.
 */
module RopeBalance {
  import opened RopeShare
  import opened RopeKeep
  import opened RopeInPlace
  import opened RopeHeap
  import RopeTree
  import RopeConcat

  ghost predicate Fit<C>(v: RopeTree.Rope<C>, w: RopeTree.Rope<C>) {
    RopeTree.Size(v) + RopeTree.Size(w) <= RopeTree.MAX_SIZE && RopeTree.Depth(v) <= RopeTree.MAX_DEPTH
      && RopeTree.Depth(w) <= RopeTree.MAX_DEPTH
  }

  /** The result of a concatenation of `v` and `w`, of which `plain` is the one without rebalancing. */
  ghost predicate Concatenated<C>(plain: RopeTree.Rope<C>, v: RopeTree.Rope<C>) {
    && RopeTree.Depth(v) <= RopeTree.MAX_DEPTH
    && (if RopeConcat.TooDeep(plain) then RopeConcat.Roughly(v) else v == plain)
  }

  // ---------- concatenation ----------

  /**
   `_S_tree_concat`: the references of the temporaries `a` and `b` are used up; what the variables of `own` hold stays.
   */
  method TreeConcat<C(!new)>(h: Heap<C>, a: nat, b: nat, t: nat, ghost own: set<nat>, ghost keep: set<nat>)
    requires h.Valid() && t !in h.vars && t < h.top && a in h.vars && b in h.vars && a != b && h.vars[a] != 0
             && h.vars[b] != 0
    requires a !in own && b !in own && Held(h.cells, h.vars, own, keep) && Fit(h.ValOf(a), h.ValOf(b))
    modifies h
    ensures h.Valid() && h.top >= old(h.top) && h.vars.Keys == old(h.vars).Keys - {a, b} + {t}
    ensures Kept(old(h.cells), old(h.rank), old(h.vars), h.cells, h.rank, h.vars, own, keep)
    ensures h.TextOf(t) == old(h.TextOf(a)) + old(h.TextOf(b))
    ensures Concatenated(RopeConcat.NewConcat(old(h.ValOf(a)), old(h.ValOf(b))), h.ValOf(t))
    ensures !RopeConcat.TooDeep(RopeConcat.NewConcat(old(h.ValOf(a)), old(h.ValOf(b)))) ==> h.IsNew(old(h.cells), t)
    decreases if RopeConcat.TooDeep(RopeConcat.NewConcat(h.ValOf(a), h.ValOf(b))) then 2 else 0, 9
  {
    var r := h.Fresh();
    h.MakeConcat(a, b, r);
    ghost var c1, r1, v1 := h.cells, h.rank, h.vars;
    MergedKeys(old(h.vars), a, b, r, old(h.unused), t, own);
    KeptAll(old(h.cells), old(h.rank), old(h.vars), c1, r1, v1, own, keep);
    BalanceIfDeep(h, r, t, own, keep);
    KeptTrans(old(h.cells), old(h.rank), old(h.vars), c1, r1, v1, h.cells, h.rank, h.vars, own, keep);
  }

  /** The new node passes to `t`, or a balanced rope in its stead. */
  method BalanceIfDeep<C(!new)>(h: Heap<C>, r: nat, t: nat, ghost own: set<nat>, ghost keep: set<nat>)
    requires h.Valid() && r in h.vars && h.vars[r] in h.cells && h.cells[h.vars[r]].Concat? && h.vars[r] in h.count
             && h.count[h.vars[r]] == 1
    requires t !in h.vars && t < h.top && r !in own && Held(h.cells, h.vars, own, keep)
             && RopeTree.Size(h.ValOf(r)) <= RopeTree.MAX_SIZE
    modifies h
    ensures h.Valid() && h.top >= old(h.top) && h.vars.Keys == old(h.vars).Keys - {r} + {t}
    ensures Kept(old(h.cells), old(h.rank), old(h.vars), h.cells, h.rank, h.vars, own, keep)
    ensures h.TextOf(t) == old(h.TextOf(r)) && Concatenated(old(h.ValOf(r)), h.ValOf(t))
    ensures !RopeConcat.TooDeep(old(h.ValOf(r))) ==>
              h.vars[t] == old(h.vars[r]) && h.vars[t] in h.cells && h.vars[t] in h.count && h.count[h.vars[t]] == 1
    decreases if RopeConcat.TooDeep(h.ValOf(r)) then 2 else 0, 8
  {
    var c := h.cells[h.vars[r]];
    SizesAgree(h.cells, h.rank, h.vars[r]);
    if c.depth > 20 && (c.size < 1000 || c.depth > RopeTree.MAX_DEPTH) {
      BalanceAway(h, r, t, own, keep);
    } else {
      h.Rename(r, t);
      SameNodes(h.cells, h.rank);
      KeptAll(h.cells, h.rank, old(h.vars), h.cells, h.rank, h.vars, own, keep);
    }
  }

  lemma SameNodes<C>(cells: Cells<C>, rank: Ranks)
    requires Shape(cells, rank)
    ensures NodesSame(cells, rank, cells, rank)
  {
  }

  lemma MergedKeys(vars: Vars, a: nat, b: nat, r: nat, x: nat, t: nat, own: set<nat>)
    requires a in vars && b in vars && r !in vars && t !in vars && r != t && a !in own && b !in own
             && forall m :: m in own ==> m in vars
    ensures Merged(vars, a, b, r, x).Keys - {r} + {t} == vars.Keys - {a, b} + {t} && t !in Merged(vars, a, b, r, x)
    ensures r !in own
            && forall m :: m in own ==> m in Merged(vars, a, b, r, x) && Merged(vars, a, b, r, x)[m] == vars[m]
  {
  }

  /** A rope that is too deep is replaced by a balanced one. */
  method BalanceAway<C(!new)>(h: Heap<C>, r: nat, t: nat, ghost own: set<nat>, ghost keep: set<nat>)
    requires h.Valid() && r in h.vars && h.vars[r] != 0 && t !in h.vars && t < h.top && r !in own
             && Held(h.cells, h.vars, own, keep)
    requires RopeTree.Size(h.ValOf(r)) <= RopeTree.MAX_SIZE
    modifies h
    ensures h.Valid() && h.top >= old(h.top) && h.vars.Keys == old(h.vars).Keys - {r} + {t}
    ensures Kept(old(h.cells), old(h.rank), old(h.vars), h.cells, h.rank, h.vars, own, keep)
    ensures h.TextOf(t) == old(h.TextOf(r)) && RopeConcat.Roughly(h.ValOf(t))
            && RopeTree.Depth(h.ValOf(t)) <= RopeTree.MAX_DEPTH
    decreases 1, 12
  {
    Balance(h, r, t);
    ghost var c1, r1, v1 := h.cells, h.rank, h.vars;
    KeptAll(old(h.cells), old(h.rank), old(h.vars), c1, r1, v1, own, keep);
    OneForOne(old(h.vars).Keys, r, t);
    h.Release(r, own, keep);
    VarKept(c1, r1, v1, h.cells, h.rank, h.vars, r, t);
    KeptTrans(old(h.cells), old(h.rank), old(h.vars), c1, r1, v1, h.cells, h.rank, h.vars, own, keep);
  }

  /** A new node with two nodes as its parts. */
  method JoinNodes<C(!new)>(h: Heap<C>, x: nat, y: nat, t: nat)
    requires h.Valid() && x in h.cells && y in h.cells && t !in h.vars && t < h.top
    requires Fit(Val(h.cells, h.rank, x), Val(h.cells, h.rank, y))
    modifies h
    ensures h.Valid() && h.top >= old(h.top) && Plus(old(h.vars), h.vars, t)
            && NodesSame(old(h.cells), old(h.rank), h.cells, h.rank)
    ensures h.TextOf(t) == old(Text(h.cells, h.rank, x)) + old(Text(h.cells, h.rank, y))
    ensures Concatenated(RopeConcat.NewConcat(old(Val(h.cells, h.rank, x)), old(Val(h.cells, h.rank, y))), h.ValOf(t))
    ensures !RopeConcat.TooDeep(RopeConcat.NewConcat(old(Val(h.cells, h.rank, x)), old(Val(h.cells, h.rank, y)))) ==>
              h.IsNew(old(h.cells), t)
    decreases if RopeConcat.TooDeep(RopeConcat.NewConcat(Val(h.cells, h.rank, x),
                                                         Val(h.cells, h.rank, y))) then 2 else 0, 10
  {
    var a, b := h.Beside(x, y);
    ghost var v1 := h.vars;
    ghost var own, keep := old(h.vars).Keys, old(h.cells).Keys;
    SameNodes(h.cells, h.rank);
    AllHeld(old(h.cells), old(h.rank), old(h.vars), old(h.count), old(h.refs), h.cells, h.rank, v1);
    TwoLessOneMore(old(h.vars).Keys, v1.Keys, a, b, t, old(h.top));
    TreeConcat(h, a, b, t, own, keep);
    OldAndOne(old(h.cells), old(h.rank), old(h.vars), old(h.cells), old(h.rank), v1, h.cells, h.rank, h.vars, t);
  }

  lemma TwoLessOneMore(ks: set<nat>, ks1: set<nat>, a: nat, b: nat, t: nat, top: nat)
    requires a !in ks && b !in ks && ks1 == ks + {a, b} && t !in ks && t < top && a >= top && b >= top
    ensures ks1 - {a, b} + {t} == ks + {t} && t !in ks1 && a != t && b != t
  {
  }

  /** A new node with parts: node `x`, and a new leaf of `data`. */
  method JoinLeaf<C(!new)>(h: Heap<C>, x: nat, data: seq<C>, t: nat)
    requires h.Valid() && x in h.cells && data != [] && t !in h.vars && t < h.top
    requires Fit(Val(h.cells, h.rank, x), RopeTree.Leaf(data))
    modifies h
    ensures h.Valid() && h.top >= old(h.top) && Plus(old(h.vars), h.vars, t)
            && NodesSame(old(h.cells), old(h.rank), h.cells, h.rank)
    ensures h.TextOf(t) == old(Text(h.cells, h.rank, x)) + data
    ensures Concatenated(RopeConcat.NewConcat(old(Val(h.cells, h.rank, x)), RopeTree.Leaf(data)), h.ValOf(t))
    ensures !RopeConcat.TooDeep(RopeConcat.NewConcat(old(Val(h.cells, h.rank, x)), RopeTree.Leaf(data))) ==>
              h.IsNew(old(h.cells), t)
    decreases if RopeConcat.TooDeep(RopeConcat.NewConcat(Val(h.cells, h.rank, x), RopeTree.Leaf(data))) then 2 else 0,
              10
  {
    var a, b := h.LeafBeside(x, data);
    assert SameNode(old(h.cells), old(h.rank), h.cells, h.rank, x);
    ghost var c1, r1, v1 := h.cells, h.rank, h.vars;
    ghost var own, keep := old(h.vars).Keys, old(h.cells).Keys;
    AllHeld(old(h.cells), old(h.rank), old(h.vars), old(h.count), old(h.refs), c1, r1, v1);
    TwoLessOneMore(old(h.vars).Keys, v1.Keys, a, b, t, old(h.top));
    TreeConcat(h, a, b, t, own, keep);
    OldAndOne(old(h.cells), old(h.rank), old(h.vars), c1, r1, v1, h.cells, h.rank, h.vars, t);
    NewerStill(old(h.cells), old(h.rank), c1, r1);
  }

  lemma NewerStill<C>(c0: Cells<C>, r0: Ranks, c1: Cells<C>, r1: Ranks)
    requires Shape(c0, r0) && Shape(c1, r1) && NodesSame(c0, r0, c1, r1)
    ensures forall y :: y in c0 ==> y in c1
  {
    forall y | y in c0 ensures y in c1 {
      assert SameNode(c0, r0, c1, r1, y);
    }
  }

  /** What `_S_concat` looks at. */
  predicate TwoShortLeaves<C>(cells: Cells<C>, x: nat, y: nat)
    requires x in cells && y in cells
  {
    cells[x].Leaf? && cells[y].Leaf? && |cells[x].data| + |cells[y].data| <= RopeTree.COPY_MAX
  }

  predicate ShortAtRight<C>(cells: Cells<C>, x: nat, y: nat)
    requires x in cells && y in cells
  {
    RightLeaf(cells, x) && TwoShortLeaves(cells, cells[x].right, y)
  }

  /** The three cases, in values. */
  lemma JoinedCases<C>(cells: Cells<C>, rank: Ranks, x: nat, y: nat)
    requires Sized(cells, rank) && x in cells && y in cells && Fit(Val(cells, rank, x), Val(cells, rank, y))
    ensures var plain := RopeConcat.Joined(Val(cells, rank, x), Val(cells, rank, y));
            if TwoShortLeaves(cells, x, y) then plain == RopeTree.Leaf(cells[x].data + cells[y].data)
            else if ShortAtRight(cells, x, y) then
              var data := cells[cells[x].right].data + cells[y].data;
              && cells[x].left in cells && plain == RopeConcat.NewConcat(Val(cells, rank, cells[x].left),
                  RopeTree.Leaf(data))
              && Fit(Val(cells, rank, cells[x].left), RopeTree.Leaf(data))
            else plain == RopeConcat.NewConcat(Val(cells, rank, x), Val(cells, rank, y))
  {
    SizesAgree(cells, rank, x);
    SizesAgree(cells, rank, y);
    if cells[x].Concat? {
      ConcatUnfolds(cells, rank, x);
      assert Fine(cells, x);
      SizesAgree(cells, rank, cells[x].left);
    }
  }

  /** `_S_concat` of two nodes: short leaves are copied together, all other nodes are shared, and none changes. */
  method ConcatNodes<C(!new)>(h: Heap<C>, x: nat, y: nat, t: nat)
    requires h.Valid() && x in h.cells && y in h.cells && t !in h.vars && t < h.top
    requires Fit(Val(h.cells, h.rank, x), Val(h.cells, h.rank, y))
    modifies h
    ensures h.Valid() && h.top >= old(h.top) && Plus(old(h.vars), h.vars, t)
            && NodesSame(old(h.cells), old(h.rank), h.cells, h.rank)
    ensures h.TextOf(t) == old(Text(h.cells, h.rank, x)) + old(Text(h.cells, h.rank, y))
    ensures Concatenated(old(RopeConcat.Joined(Val(h.cells, h.rank, x), Val(h.cells, h.rank, y))), h.ValOf(t))
    ensures !RopeConcat.TooDeep(old(RopeConcat.Joined(Val(h.cells, h.rank, x), Val(h.cells, h.rank, y)))) ==>
              h.IsNew(old(h.cells), t)
    decreases if RopeConcat.TooDeep(RopeConcat.Joined(Val(h.cells, h.rank, x), Val(h.cells, h.rank, y))) then 2 else 0,
              12
  {
    JoinedCases(h.cells, h.rank, x, y);
    if TwoShortLeaves(h.cells, x, y) {
      assert Fine(h.cells, x);
      h.NewLeaf(h.cells[x].data + h.cells[y].data, t);
    } else if ShortAtRight(h.cells, x, y) {
      JoinRight(h, x, y, t);
    } else {
      JoinNodes(h, x, y, t);
    }
  }

  method JoinRight<C(!new)>(h: Heap<C>, x: nat, y: nat, t: nat)
    requires h.Valid() && x in h.cells && y in h.cells && ShortAtRight(h.cells, x, y) && !TwoShortLeaves(h.cells, x, y)
             && t !in h.vars && t < h.top
    requires Fit(Val(h.cells, h.rank, x), Val(h.cells, h.rank, y))
    modifies h
    ensures h.Valid() && h.top >= old(h.top) && Plus(old(h.vars), h.vars, t)
            && NodesSame(old(h.cells), old(h.rank), h.cells, h.rank)
    ensures h.TextOf(t) == old(Text(h.cells, h.rank, x)) + old(Text(h.cells, h.rank, y))
    ensures Concatenated(old(RopeConcat.Joined(Val(h.cells, h.rank, x), Val(h.cells, h.rank, y))), h.ValOf(t))
    ensures !RopeConcat.TooDeep(old(RopeConcat.Joined(Val(h.cells, h.rank, x), Val(h.cells, h.rank, y)))) ==>
              h.IsNew(old(h.cells), t)
    decreases if RopeConcat.TooDeep(RopeConcat.Joined(Val(h.cells, h.rank, x), Val(h.cells, h.rank, y))) then 2 else 0,
              11
  {
    JoinedCases(h.cells, h.rank, x, y);
    assert Fine(h.cells, y);
    Regroup(h.cells, h.rank, x, h.cells[y].data);
    JoinLeaf(h, h.cells[x].left, h.cells[h.cells[x].right].data + h.cells[y].data, t);
  }

  ghost predicate Known<C>(cells: Cells<C>, x: nat) {
    x != 0 ==> x in cells
  }

  /** The text behind a pointer. */
  ghost function PtrText<C>(cells: Cells<C>, rank: Ranks, x: nat): seq<C>
    requires Shape(cells, rank) && Known(cells, x)
  {
    if x == 0 then [] else Text(cells, rank, x)
  }

  /** `_S_concat`, null being the empty rope. */
  method ConcatPtrs<C(!new)>(h: Heap<C>, x: nat, y: nat, t: nat)
    requires h.Valid() && Known(h.cells, x) && Known(h.cells, y) && t !in h.vars && t < h.top
    requires Fit(PtrVal(h.cells, h.rank, x), PtrVal(h.cells, h.rank, y))
    modifies h
    ensures h.Valid() && h.top >= old(h.top) && Plus(old(h.vars), h.vars, t)
            && NodesSame(old(h.cells), old(h.rank), h.cells, h.rank)
    ensures h.TextOf(t) == old(PtrText(h.cells, h.rank, x)) + old(PtrText(h.cells, h.rank, y))
    ensures RopeTree.Depth(h.ValOf(t)) <= RopeTree.MAX_DEPTH
    ensures old(RopeConcat.MustBalance(PtrVal(h.cells, h.rank, x), PtrVal(h.cells, h.rank, y))) ==>
              RopeConcat.Roughly(h.ValOf(t))
    ensures !old(RopeConcat.MustBalance(PtrVal(h.cells, h.rank, x), PtrVal(h.cells, h.rank, y))) ==>
              && h.ValOf(t) == old(RopeConcat.Joined(PtrVal(h.cells, h.rank, x), PtrVal(h.cells, h.rank, y)))
              && (x != 0 && y != 0 ==> h.IsNew(old(h.cells), t))
    decreases if RopeConcat.MustBalance(PtrVal(h.cells, h.rank, x), PtrVal(h.cells, h.rank, y)) then 2 else 0, 13
  {
    NoText(PtrText(h.cells, h.rank, x), PtrText(h.cells, h.rank, y));
    if x == 0 {
      h.AddVar(y, t);
    } else if y == 0 {
      h.AddVar(x, t);
    } else {
      SizesAgree(h.cells, h.rank, x);
      SizesAgree(h.cells, h.rank, y);
      ConcatNodes(h, x, y, t);
    }
  }

  lemma NoText<C>(s: seq<C>, t: seq<C>)
    ensures s == [] ==> s + t == t
    ensures t == [] ==> s + t == s
  {
  }

  // ---------- the forest ----------

  const SLOTS: nat := RopeTree.MAX_DEPTH + 1

  /** A rope that is balanced is marked so. */
  ghost predicate IsMarked<C>(v: RopeTree.Rope<C>) {
    RopeConcat.Marked(v) == v
  }

  /**
   `_S_concat_and_set_balanced`: the mark is set on a new node, or was set before; no node that others hold changes.
   */
  method ConcatAndSetBalanced<C(!new)>(h: Heap<C>, x: nat, y: nat, t: nat)
    requires h.Valid() && Known(h.cells, x) && Known(h.cells, y) && (x != 0 || y != 0) && t !in h.vars && t < h.top
    requires Fit(PtrVal(h.cells, h.rank, x), PtrVal(h.cells, h.rank, y)) && IsMarked(PtrVal(h.cells, h.rank, x))
             && IsMarked(PtrVal(h.cells, h.rank, y))
    requires RopeConcat.Roughly(RopeConcat.Joined(PtrVal(h.cells, h.rank, x), PtrVal(h.cells, h.rank, y)))
    modifies h
    ensures h.Valid() && h.top >= old(h.top) && Plus(old(h.vars), h.vars, t)
            && NodesSame(old(h.cells), old(h.rank), h.cells, h.rank)
    ensures h.ValOf(t) == RopeConcat.Marked(old(RopeConcat.Joined(PtrVal(h.cells, h.rank, x),
                                                                  PtrVal(h.cells, h.rank, y))))
    decreases 1, 3
  {
    NeverDeep(h.cells, h.rank, x, y);
    ConcatPtrs(h, x, y, t);
    SetBalanced(h, t, old(h.cells), old(h.rank));
  }

  /** The mark, on a node that is new or has it already. */
  method SetBalanced<C(!new)>(h: Heap<C>, t: nat, ghost cells0: Cells<C>, ghost rank0: Ranks)
    requires h.Valid() && t in h.vars && h.vars[t] in h.cells && RopeTree.Depth(h.ValOf(t)) <= RopeTree.MAX_DEPTH
    requires Shape(cells0, rank0) && NodesSame(cells0, rank0, h.cells, h.rank)
             && (h.IsNew(cells0, t) || IsMarked(h.ValOf(t)))
    modifies h`cells
    ensures h.Valid() && NodesSame(cells0, rank0, h.cells, h.rank) && h.ValOf(t) == RopeConcat.Marked(old(h.ValOf(t)))
  {
    SizesAgree(h.cells, h.rank, h.vars[t]);
    var c := h.cells[h.vars[t]];
    if SizeOf(c) >= RopeTree.MIN_LEN[DepthOf(c)] && c.Concat? && !c.balanced {
      MarkNew(h, t, cells0, rank0);
    }
  }

  lemma NeverDeep<C>(cells: Cells<C>, rank: Ranks, x: nat, y: nat)
    requires Sized(cells, rank) && Known(cells, x) && Known(cells, y)
             && Fit(PtrVal(cells, rank, x), PtrVal(cells, rank, y))
    requires RopeConcat.Roughly(RopeConcat.Joined(PtrVal(cells, rank, x), PtrVal(cells, rank, y)))
    ensures !RopeConcat.MustBalance(PtrVal(cells, rank, x), PtrVal(cells, rank, y))
    ensures RopeTree.Depth(RopeConcat.Joined(PtrVal(cells, rank, x), PtrVal(cells, rank, y))) <= RopeTree.MAX_DEPTH
  {
    if x != 0 {
      Stands(cells, rank, x);
    }
    if y != 0 {
      Stands(cells, rank, y);
    }
    RopeConcat.JoinedFacts(PtrVal(cells, rank, x), PtrVal(cells, rank, y));
    RopeConcat.RoughlyIsFine(RopeConcat.Joined(PtrVal(cells, rank, x), PtrVal(cells, rank, y)));
  }

  method MarkNew<C(!new)>(h: Heap<C>, t: nat, ghost cells0: Cells<C>, ghost rank0: Ranks)
    requires h.Valid() && h.IsNew(cells0, t) && h.cells[h.vars[t]].Concat?
             && Balanced(h.cells[h.vars[t]].size, h.cells[h.vars[t]].depth)
    requires Shape(cells0, rank0) && NodesSame(cells0, rank0, h.cells, h.rank)
    modifies h`cells
    ensures h.Valid() && NodesSame(cells0, rank0, h.cells, h.rank) && old(h.ValOf(t)).Concat?
            && h.ValOf(t) == old(h.ValOf(t)).(balanced := true)
  {
    ghost var c1 := h.cells;
    h.Mark(t);
    forall y | y in cells0 ensures SameNode(cells0, rank0, h.cells, h.rank, y) {
      assert SameNode(cells0, rank0, c1, h.rank, y) && y != h.vars[t];
    }
  }

  /** Slot `i` of the forest is the variable `first + i`. */
  ghost predicate SlotAt<C>(cells: Cells<C>, rank: Ranks, vars: Vars, first: nat, i: nat, v: RopeTree.Rope<C>)
    requires Shape(cells, rank)
  {
    first + i in vars && Known(cells, vars[first + i]) && PtrVal(cells, rank, vars[first + i]) == v
  }

  ghost predicate SlotsAre<C>(cells: Cells<C>, rank: Ranks, vars: Vars, first: nat, f: seq<RopeTree.Rope<C>>) {
    Shape(cells, rank) && |f| == SLOTS && forall i: nat :: i < SLOTS ==> SlotAt(cells, rank, vars, first, i, f[i])
  }

  lemma SlotsSame<C>(c0: Cells<C>, r0: Ranks, v0: Vars, c1: Cells<C>, r1: Ranks, v1: Vars, first: nat,
                     f: seq<RopeTree.Rope<C>>, k: nat)
    requires SlotsAre(c0, r0, v0, first, f) && Shape(c1, r1) && OthersSame(c0, r0, v0, c1, r1, v1, k)
             && !(first <= k < first + SLOTS)
    ensures SlotsAre(c1, r1, v1, first, f)
  {
    forall i: nat | i < SLOTS ensures SlotAt(c1, r1, v1, first, i, f[i]) {
      assert SlotAt(c0, r0, v0, first, i, f[i]);
      var m := first + i;
      assert SameNode(c0, r0, c1, r1, v0[m]);
    }
  }

  lemma SlotChanged<C>(c0: Cells<C>, r0: Ranks, v0: Vars, c1: Cells<C>, r1: Ranks, v1: Vars, first: nat,
                       f: seq<RopeTree.Rope<C>>, j: nat, v: RopeTree.Rope<C>)
    requires SlotsAre(c0, r0, v0, first, f) && Shape(c1, r1) && j < SLOTS
             && OthersSame(c0, r0, v0, c1, r1, v1, first + j)
    requires SlotAt(c1, r1, v1, first, j, v)
    ensures SlotsAre(c1, r1, v1, first, f[j := v])
  {
    var g := f[j := v];
    forall i: nat | i < SLOTS ensures SlotAt(c1, r1, v1, first, i, g[i]) {
      if i != j {
        assert SlotAt(c0, r0, v0, first, i, f[i]);
        var m := first + i;
        assert SameNode(c0, r0, c1, r1, v0[m]);
      }
    }
  }

  ghost predicate AllMarked<C>(f: seq<RopeTree.Rope<C>>) {
    forall i :: 0 <= i < |f| ==> IsMarked(f[i])
  }

  /** The forest stands for `f`, beside the variables of `own`, which hold `keep`. */
  ghost predicate Working<C(!new)>(h: Heap<C>, first: nat, f: seq<RopeTree.Rope<C>>, own: set<nat>, keep: set<nat>)
    reads h
  {
    && h.Valid() && Held(h.cells, h.vars, own, keep) && (forall m :: m in own ==> m < first) && first + SLOTS <= h.top
    && SlotsAre(h.cells, h.rank, h.vars, first, f) && RopeConcat.ForestOk(f) && AllMarked(f)
  }

  /** A slot and a temporary are put together, for a new temporary `w`. */
  method JoinSlot<C(!new)>(h: Heap<C>, first: nat, i: nat, u: nat, mark: bool, ghost f: seq<RopeTree.Rope<C>>,
                           ghost own: set<nat>, ghost keep: set<nat>) returns (w: nat)
    requires Working(h, first, f, own, keep) && i < SLOTS && !f[i].Nil? && u in h.vars && Fit(f[i], h.ValOf(u))
             && (mark ==> IsMarked(h.ValOf(u)))
    requires RopeConcat.Roughly(RopeConcat.Joined(f[i], h.ValOf(u)))
    modifies h
    ensures Working(h, first, f, own, keep) && h.top >= old(h.top) && w >= old(h.top) && w !in old(h.vars)
            && h.vars.Keys == old(h.vars).Keys + {w}
    ensures Kept(old(h.cells), old(h.rank), old(h.vars), h.cells, h.rank, h.vars, own, keep)
    ensures var v := RopeConcat.Joined(f[i], old(h.ValOf(u))); h.ValOf(w) == if mark then RopeConcat.Marked(v) else v
    decreases 1, 4
  {
    assert SlotAt(h.cells, h.rank, h.vars, first, i, f[i]) && IsMarked(f[i]);
    NeverDeep(h.cells, h.rank, h.vars[first + i], h.vars[u]);
    w := h.Fresh();
    if mark {
      ConcatAndSetBalanced(h, h.vars[first + i], h.vars[u], w);
    } else {
      ConcatPtrs(h, h.vars[first + i], h.vars[u], w);
    }
    Steady(old(h.cells), old(h.rank), old(h.vars), h.cells, h.rank, h.vars, w, first, f, own, keep);
  }

  /** A new variable beside the forest changes nothing of it. */
  lemma Steady<C>(c0: Cells<C>, r0: Ranks, v0: Vars, c1: Cells<C>, r1: Ranks, v1: Vars, w: nat, first: nat,
                  f: seq<RopeTree.Rope<C>>, own: set<nat>, keep: set<nat>)
    requires SlotsAre(c0, r0, v0, first, f) && Shape(c1, r1) && NodesSame(c0, r0, c1, r1) && Plus(v0, v1, w)
             && Held(c0, v0, own, keep)
    requires forall m :: m in v0 && v0[m] != 0 ==> v0[m] in c0
    ensures SlotsAre(c1, r1, v1, first, f) && Kept(c0, r0, v0, c1, r1, v1, own, keep)
  {
    OthersFromNodes(c0, r0, v0, c1, r1, v1, w, first + SLOTS);
    SlotsSame(c0, r0, v0, c1, r1, v1, first, f, first + SLOTS);
    KeptAll(c0, r0, v0, c1, r1, v1, own, keep);
  }

  /** `_M_unref_nonnil` of a slot, and null for it. */
  method EmptySlot<C(!new)>(h: Heap<C>, first: nat, i: nat, ghost f: seq<RopeTree.Rope<C>>, ghost own: set<nat>,
                            ghost keep: set<nat>)
    requires Working(h, first, f, own, keep) && i < SLOTS
    modifies h
    ensures Working(h, first, f[i := RopeTree.Nil], own, keep) && h.top >= old(h.top) && h.vars.Keys == old(h.vars).Keys
    ensures OthersSame(old(h.cells), old(h.rank), old(h.vars), h.cells, h.rank, h.vars, first + i)
    ensures Kept(old(h.cells), old(h.rank), old(h.vars), h.cells, h.rank, h.vars, own, keep)
  {
    var m := SlotName(h, first, i, f, own, keep);
    SetNull(h, m, own, keep);
    SlotNulled(old(h.cells), old(h.rank), old(h.vars), h.cells, h.rank, h.vars, first, f, i);
  }

  method SlotName<C(!new)>(h: Heap<C>, first: nat, i: nat, ghost f: seq<RopeTree.Rope<C>>, ghost own: set<nat>,
                           ghost keep: set<nat>) returns (m: nat)
    requires Working(h, first, f, own, keep) && i < SLOTS
    ensures m == first + i && m in h.vars && m !in own && h.ValOf(m) == f[i]
  {
    m := first + i;
    SlotKnown(h.cells, h.rank, h.vars, first, f, i);
  }

  lemma SlotKnown<C>(cells: Cells<C>, rank: Ranks, vars: Vars, first: nat, f: seq<RopeTree.Rope<C>>, i: nat)
    requires SlotsAre(cells, rank, vars, first, f) && i < SLOTS
    ensures first + i in vars && Known(cells, vars[first + i]) && PtrVal(cells, rank, vars[first + i]) == f[i]
  {
    assert SlotAt(cells, rank, vars, first, i, f[i]);
  }

  lemma SlotNulled<C>(c0: Cells<C>, r0: Ranks, v0: Vars, c1: Cells<C>, r1: Ranks, v1: Vars, first: nat,
                      f: seq<RopeTree.Rope<C>>, i: nat)
    requires SlotsAre(c0, r0, v0, first, f) && Shape(c1, r1) && i < SLOTS
             && OthersSame(c0, r0, v0, c1, r1, v1, first + i)
    requires first + i in v1 && v1[first + i] == 0 && RopeConcat.ForestOk(f) && AllMarked(f)
    ensures var g := f[i := RopeTree.Nil]; SlotsAre(c1, r1, v1, first, g) && RopeConcat.ForestOk(g) && AllMarked(g)
  {
    EmptiedForest(f, i);
    SlotChanged(c0, r0, v0, c1, r1, v1, first, f, i, RopeTree.Nil);
  }

  lemma EmptiedForest<C>(f: seq<RopeTree.Rope<C>>, i: nat)
    requires RopeConcat.ForestOk(f) && AllMarked(f) && i < |f|
    ensures RopeConcat.ForestOk(f[i := RopeTree.Nil]) && AllMarked(f[i := RopeTree.Nil])
  {
  }

  method SetNull<C(!new)>(h: Heap<C>, m: nat, ghost own: set<nat>, ghost keep: set<nat>)
    requires h.Valid() && m in h.vars && m !in own && Held(h.cells, h.vars, own, keep)
    modifies h
    ensures h.Valid() && h.top >= old(h.top) && h.vars.Keys == old(h.vars).Keys && h.vars[m] == 0
    ensures OthersSame(old(h.cells), old(h.rank), old(h.vars), h.cells, h.rank, h.vars, m)
    ensures Kept(old(h.cells), old(h.rank), old(h.vars), h.cells, h.rank, h.vars, own, keep)
  {
    h.Release(m, own, keep);
    ghost var c1, v1 := h.cells, h.vars;
    h.AddVar(0, m);
    NullAgain(old(h.cells), old(h.rank), old(h.vars), c1, v1, h.vars, m, own, keep);
  }

  lemma NullAgain<C>(c0: Cells<C>, r0: Ranks, v0: Vars, c1: Cells<C>, v1: Vars, v2: Vars, m: nat, own: set<nat>,
                     keep: set<nat>)
    requires Shape(c0, r0) && Shape(c1, r0) && OthersSame(c0, r0, v0, c1, r0, v1, m)
             && Kept(c0, r0, v0, c1, r0, v1, own, keep)
    requires m in v0 && v1.Keys == v0.Keys - {m} && v2 == v1[m := 0] && m !in own
    ensures OthersSame(c0, r0, v0, c1, r0, v2, m) && Kept(c0, r0, v0, c1, r0, v2, own, keep) && v2.Keys == v0.Keys
  {
    KeptAll(c1, r0, v1, c1, r0, v2, own, keep);
    KeptTrans(c0, r0, v0, c1, r0, v1, c1, r0, v2, own, keep);
  }

  /** A temporary goes. */
  method DropVar<C(!new)>(h: Heap<C>, u: nat, first: nat, ghost f: seq<RopeTree.Rope<C>>, ghost own: set<nat>,
                          ghost keep: set<nat>)
    requires Working(h, first, f, own, keep) && u in h.vars && u >= first + SLOTS
    modifies h
    ensures Working(h, first, f, own, keep) && h.top >= old(h.top) && h.vars.Keys == old(h.vars).Keys - {u}
    ensures OthersSame(old(h.cells), old(h.rank), old(h.vars), h.cells, h.rank, h.vars, u)
    ensures Kept(old(h.cells), old(h.rank), old(h.vars), h.cells, h.rank, h.vars, own, keep)
  {
    h.Release(u, own, keep);
    SlotsSame(old(h.cells), old(h.rank), old(h.vars), h.cells, h.rank, h.vars, first, f, u);
  }

  lemma VarKept<C>(c0: Cells<C>, r0: Ranks, v0: Vars, c1: Cells<C>, r1: Ranks, v1: Vars, k: nat, w: nat)
    requires Shape(c0, r0) && Shape(c1, r1) && OthersSame(c0, r0, v0, c1, r1, v1, k) && w in v0 && w != k
             && Known(c0, v0[w])
    ensures w in v1 && v1[w] == v0[w] && Known(c1, v1[w]) && PtrVal(c1, r1, v1[w]) == PtrVal(c0, r0, v0[w])
            && PtrText(c1, r1, v1[w]) == PtrText(c0, r0, v0[w])
  {
    assert SameNode(c0, r0, c1, r1, v0[w]);
  }

  /**
   One round of each of the three loops: the rope of a slot is put in front of the one gathered so far, and the slot is
   emptied.
   */
  method FoldSlot<C(!new)>(h: Heap<C>, first: nat, i: nat, u: nat, mark: bool, ghost f: seq<RopeTree.Rope<C>>,
                           ghost own: set<nat>, ghost keep: set<nat>) returns (w: nat)
    requires Working(h, first, f, own, keep) && i < SLOTS && !f[i].Nil? && u in h.vars && u >= first + SLOTS
    requires Fit(f[i], h.ValOf(u)) && (mark ==> IsMarked(h.ValOf(u)))
             && RopeConcat.Roughly(RopeConcat.Joined(f[i], h.ValOf(u)))
    modifies h
    ensures Working(h, first, f[i := RopeTree.Nil], own, keep) && w in h.vars && w >= first + SLOTS && w !in old(h.vars)
    ensures h.top >= old(h.top) && h.vars.Keys == old(h.vars).Keys - {u} + {w}
    ensures Kept(old(h.cells), old(h.rank), old(h.vars), h.cells, h.rank, h.vars, own, keep)
    ensures var v := RopeConcat.Joined(f[i], old(h.ValOf(u))); h.ValOf(w) == if mark then RopeConcat.Marked(v) else v
    decreases 1, 5, 0
  {
    w := JoinSlot(h, first, i, u, mark, f, own, keep);
    ghost var c1, r1, v1 := h.cells, h.rank, h.vars;
    OneForOne(old(h.vars).Keys, u, w);
    EmptyBoth(h, first, i, u, w, f, own, keep);
    KeptTrans(old(h.cells), old(h.rank), old(h.vars), c1, r1, v1, h.cells, h.rank, h.vars, own, keep);
  }

  lemma OneForOne(ks: set<nat>, u: nat, w: nat)
    requires u in ks && w !in ks
    ensures ks + {w} - {u} == ks - {u} + {w}
  {
  }

  method EmptyBoth<C(!new)>(h: Heap<C>, first: nat, i: nat, u: nat, ghost w: nat, ghost f: seq<RopeTree.Rope<C>>,
                            ghost own: set<nat>, ghost keep: set<nat>)
    requires Working(h, first, f, own, keep) && i < SLOTS && u in h.vars && u >= first + SLOTS && w in h.vars && w != u
             && w >= first + SLOTS
    modifies h
    ensures Working(h, first, f[i := RopeTree.Nil], own, keep) && w in h.vars && h.ValOf(w) == old(h.ValOf(w))
    ensures h.top >= old(h.top) && h.vars.Keys == old(h.vars).Keys - {u}
    ensures Kept(old(h.cells), old(h.rank), old(h.vars), h.cells, h.rank, h.vars, own, keep)
  {
    EmptySlot(h, first, i, f, own, keep);
    ghost var c1, r1, v1 := h.cells, h.rank, h.vars;
    VarKept(old(h.cells), old(h.rank), old(h.vars), c1, r1, v1, first + i, w);
    DropVar(h, u, first, f[i := RopeTree.Nil], own, keep);
    VarKept(c1, r1, v1, h.cells, h.rank, h.vars, u, w);
    KeptTrans(old(h.cells), old(h.rank), old(h.vars), c1, r1, v1, h.cells, h.rank, h.vars, own, keep);
  }

  /** A rope of size `s` goes no further than slot `i`. */
  predicate EndsBy(s: nat, i: nat) {
    i < RopeTree.MAX_DEPTH && s < RopeTree.MIN_LEN[i + 1]
  }

  /** The first loop of `_S_add_leaf_to_forest`: the slots too small for a rope of size `s` are emptied. */
  method Gather<C(!new)>(h: Heap<C>, s: nat, first: nat, ghost f0: seq<RopeTree.Rope<C>>, ghost all: seq<C>,
                         ghost own: set<nat>, ghost keep: set<nat>)
    returns (i: nat, tiny: nat, ghost f: seq<RopeTree.Rope<C>>, ghost top: nat)
    requires Working(h, first, f0, own, keep) && 0 < s && all == RopeConcat.Text(f0, 0)
             && |all| + s <= RopeTree.MAX_SIZE
    modifies h
    ensures InGather(h, first, f, own, keep, old(h.cells), old(h.rank), old(h.vars), tiny, i, top, s, all)
            && EndsBy(s, i) && h.top >= old(h.top)
    decreases 1, 7
  {
    tiny := StartGather(h, s, first, f0, own, keep);
    i, f, top := 0, f0, 0;
    while !EndsBy(s, i)
      invariant InGather(h, first, f, own, keep, old(h.cells), old(h.rank), old(h.vars), tiny, i, top, s, all)
      invariant h.top >= old(h.top) && i <= RopeTree.MAX_DEPTH
      decreases RopeTree.MAX_DEPTH - i
    {
      i, tiny, f, top := GatherOn(h, i, s, first, tiny, f, top, all, own, keep, old(h.cells), old(h.rank), old(h.vars));
    }
  }

  /** The state of the first loop at slot `i`; `c0`, `r0` and `v0` are what there was before it. */
  ghost predicate InGather<C(!new)>(h: Heap<C>, first: nat, f: seq<RopeTree.Rope<C>>, own: set<nat>, keep: set<nat>,
                                    c0: Cells<C>, r0: Ranks, v0: Vars, tiny: nat, i: nat, top: nat, s: nat, all: seq<C>)
    reads h
  {
    && Beside(h, first, f, own, keep, c0, r0, v0, tiny)
    && RopeConcat.Gathering(f, h.ValOf(tiny), i, top, s, all) && IsMarked(h.ValOf(tiny))
  }

  /** The forest, and one temporary beside it, with all that was held before still held. */
  ghost predicate Beside<C(!new)>(h: Heap<C>, first: nat, f: seq<RopeTree.Rope<C>>, own: set<nat>, keep: set<nat>,
                                  c0: Cells<C>, r0: Ranks, v0: Vars, u: nat)
    reads h
  {
    && Working(h, first, f, own, keep) && u in h.vars && u >= first + SLOTS && u !in v0 && h.vars.Keys == v0.Keys + {u}
    && Shape(c0, r0) && Kept(c0, r0, v0, h.cells, h.rank, h.vars, own, keep)
  }

  /** A slot is put together with the temporary beside the forest. */
  method FoldBeside<C(!new)>(h: Heap<C>, first: nat, i: nat, u: nat, mark: bool, ghost f: seq<RopeTree.Rope<C>>,
                             ghost own: set<nat>, ghost keep: set<nat>, ghost c0: Cells<C>, ghost r0: Ranks,
                             ghost v0: Vars)
    returns (w: nat)
    requires Beside(h, first, f, own, keep, c0, r0, v0, u) && i < SLOTS && !f[i].Nil? && Fit(f[i], h.ValOf(u))
    requires (mark ==> IsMarked(h.ValOf(u))) && RopeConcat.Roughly(RopeConcat.Joined(f[i], h.ValOf(u)))
    modifies h
    ensures Beside(h, first, f[i := RopeTree.Nil], own, keep, c0, r0, v0, w) && h.top >= old(h.top)
    ensures var v := RopeConcat.Joined(f[i], old(h.ValOf(u))); h.ValOf(w) == if mark then RopeConcat.Marked(v) else v
    decreases 1, 5, 1
  {
    ghost var c1, r1, v1 := h.cells, h.rank, h.vars;
    w := FoldSlot(h, first, i, u, mark, f, own, keep);
    KeptTrans(c0, r0, v0, c1, r1, v1, h.cells, h.rank, h.vars, own, keep);
  }

  method StartGather<C(!new)>(h: Heap<C>, ghost s: nat, first: nat, ghost f: seq<RopeTree.Rope<C>>, ghost own: set<nat>,
                              ghost keep: set<nat>) returns (tiny: nat)
    requires Working(h, first, f, own, keep) && 0 < s && |RopeConcat.Text(f, 0)| + s <= RopeTree.MAX_SIZE
    modifies h
    ensures InGather(h, first, f, own, keep, old(h.cells), old(h.rank), old(h.vars), tiny, 0, 0, s,
                     RopeConcat.Text(f, 0)) && h.top >= old(h.top)
  {
    RopeConcat.GatherStart(f, s);
    tiny := StartNull(h, first, f, own, keep);
  }

  method StartNull<C(!new)>(h: Heap<C>, first: nat, ghost f: seq<RopeTree.Rope<C>>, ghost own: set<nat>,
                            ghost keep: set<nat>) returns (u: nat)
    requires Working(h, first, f, own, keep)
    modifies h
    ensures Working(h, first, f, own, keep) && u in h.vars && u >= first + SLOTS && u !in old(h.vars)
            && h.ValOf(u) == RopeTree.Nil
    ensures h.top >= old(h.top) && h.vars.Keys == old(h.vars).Keys + {u}
    ensures Kept(old(h.cells), old(h.rank), old(h.vars), h.cells, h.rank, h.vars, own, keep)
  {
    u := h.Fresh();
    h.AddVar(0, u);
    Steady(old(h.cells), old(h.rank), old(h.vars), h.cells, h.rank, h.vars, u, first, f, own, keep);
  }

  /** A round, and on to the next slot. */
  method GatherOn<C(!new)>(h: Heap<C>, i: nat, s: nat, first: nat, tiny: nat, ghost f: seq<RopeTree.Rope<C>>,
                           ghost top: nat, ghost all: seq<C>, ghost own: set<nat>, ghost keep: set<nat>,
                           ghost c0: Cells<C>, ghost r0: Ranks, ghost v0: Vars)
    returns (i': nat, tiny': nat, ghost f': seq<RopeTree.Rope<C>>, ghost top': nat)
    requires InGather(h, first, f, own, keep, c0, r0, v0, tiny, i, top, s, all) && !EndsBy(s, i)
    modifies h
    ensures InGather(h, first, f', own, keep, c0, r0, v0, tiny', i', top', s, all)
    ensures h.top >= old(h.top) && i' == i + 1 <= RopeTree.MAX_DEPTH
    decreases 1, 6, 2
  {
    tiny', f', top' := GatherRound(h, i, s, first, tiny, f, top, all, own, keep, c0, r0, v0);
    i' := i + 1;
  }

  method GatherRound<C(!new)>(h: Heap<C>, i: nat, s: nat, first: nat, tiny: nat, ghost f: seq<RopeTree.Rope<C>>,
                              ghost top: nat, ghost all: seq<C>, ghost own: set<nat>, ghost keep: set<nat>,
                              ghost c0: Cells<C>, ghost r0: Ranks, ghost v0: Vars)
    returns (tiny': nat, ghost f': seq<RopeTree.Rope<C>>, ghost top': nat)
    requires InGather(h, first, f, own, keep, c0, r0, v0, tiny, i, top, s, all) && !EndsBy(s, i)
    modifies h
    ensures InGather(h, first, f', own, keep, c0, r0, v0, tiny', i + 1, top', s, all)
    ensures h.top >= old(h.top) && i < RopeTree.MAX_DEPTH
    decreases 1, 6, 1
  {
    var m := SlotName(h, first, i, f, own, keep);
    NilIsNull(h.cells, h.rank, h.vars[m]);
    if h.vars[m] != 0 {
      tiny' := GatherSlot(h, i, s, first, tiny, f, top, all, own, keep, c0, r0, v0);
      return tiny', f[i := RopeTree.Nil], i;
    }
    GatherNothing(h, i, s, first, tiny, f, top, all, own, keep, c0, r0, v0);
    return tiny, f, top;
  }

  /** A round at an empty slot. */
  lemma GatherNothing<C(!new)>(h: Heap<C>, i: nat, s: nat, first: nat, tiny: nat, f: seq<RopeTree.Rope<C>>, top: nat,
                               all: seq<C>, own: set<nat>, keep: set<nat>, c0: Cells<C>, r0: Ranks, v0: Vars)
    requires InGather(h, first, f, own, keep, c0, r0, v0, tiny, i, top, s, all) && f[i].Nil? && !EndsBy(s, i)
    ensures InGather(h, first, f, own, keep, c0, r0, v0, tiny, i + 1, top, s, all) && i < RopeTree.MAX_DEPTH
  {
    GatherEmptySlot(f, h.ValOf(tiny), i, top, s, all);
  }

  /** A round at a full slot. */
  method GatherSlot<C(!new)>(h: Heap<C>, i: nat, ghost s: nat, first: nat, tiny: nat, ghost f: seq<RopeTree.Rope<C>>,
                             ghost top: nat, ghost all: seq<C>, ghost own: set<nat>, ghost keep: set<nat>,
                             ghost c0: Cells<C>, ghost r0: Ranks, ghost v0: Vars)
    returns (tiny': nat)
    requires InGather(h, first, f, own, keep, c0, r0, v0, tiny, i, top, s, all) && !f[i].Nil? && !EndsBy(s, i)
    modifies h
    ensures InGather(h, first, f[i := RopeTree.Nil], own, keep, c0, r0, v0, tiny', i + 1, i, s, all)
    ensures h.top >= old(h.top) && i < RopeTree.MAX_DEPTH
    decreases 1, 6, 0
  {
    GatherFullSlot(f, h.ValOf(tiny), i, top, s, all);
    tiny' := FoldBeside(h, first, i, tiny, true, f, own, keep, c0, r0, v0);
  }

  lemma GatherFullSlot<C>(f: seq<RopeTree.Rope<C>>, tiny: RopeTree.Rope<C>, i: nat, top: nat, s: nat, all: seq<C>)
    requires RopeConcat.Gathering(f, tiny, i, top, s, all) && !f[i].Nil? && !EndsBy(s, i)
    ensures Fit(f[i], tiny) && RopeConcat.Roughly(RopeConcat.Joined(f[i], tiny))
            && IsMarked(RopeConcat.Marked(RopeConcat.Joined(f[i], tiny)))
    ensures RopeConcat.Gathering(f[i := RopeTree.Nil], RopeConcat.Marked(RopeConcat.Joined(f[i], tiny)), i + 1, i, s,
                                 all)
    ensures i < RopeTree.MAX_DEPTH
  {
    RopeConcat.GatherFull(f, tiny, i, top, s, all);
  }

  lemma GatherEmptySlot<C>(f: seq<RopeTree.Rope<C>>, tiny: RopeTree.Rope<C>, i: nat, top: nat, s: nat, all: seq<C>)
    requires RopeConcat.Gathering(f, tiny, i, top, s, all) && f[i].Nil? && !EndsBy(s, i)
    ensures RopeConcat.Gathering(f, tiny, i + 1, top, s, all) && i < RopeTree.MAX_DEPTH
  {
    RopeConcat.GatherEmpty(f, tiny, i, top, s, all);
  }

  lemma NilIsNull<C>(cells: Cells<C>, rank: Ranks, x: nat)
    requires Shape(cells, rank) && Known(cells, x)
    ensures PtrVal(cells, rank, x).Nil? <==> x == 0
  {
  }

  /** The state of the second loop at slot `i`. */
  ghost predicate InRise<C(!new)>(h: Heap<C>, first: nat, f: seq<RopeTree.Rope<C>>, own: set<nat>, keep: set<nat>,
                                  c0: Cells<C>, r0: Ranks, v0: Vars, insertee: nat, i: nat, all: seq<C>)
    reads h
  {
    && Beside(h, first, f, own, keep, c0, r0, v0, insertee)
    && RopeConcat.AtSlot(f, h.ValOf(insertee), i, all) && IsMarked(h.ValOf(insertee))
  }

  /** The forest alone, with the text `all`. */
  ghost predicate Planted<C(!new)>(h: Heap<C>, first: nat, f: seq<RopeTree.Rope<C>>, own: set<nat>, keep: set<nat>,
                                   c0: Cells<C>, r0: Ranks, v0: Vars, all: seq<C>)
    reads h
  {
    && Working(h, first, f, own, keep) && h.vars.Keys == v0.Keys && RopeConcat.Text(f, 0) == all
    && Shape(c0, r0) && Kept(c0, r0, v0, h.cells, h.rank, h.vars, own, keep)
  }

  /** The second loop: the new rope rises through the full slots to the one of its size. */
  method Rise<C(!new)>(h: Heap<C>, start: nat, insertee0: nat, first: nat, ghost f0: seq<RopeTree.Rope<C>>,
                       ghost all: seq<C>, ghost own: set<nat>, ghost keep: set<nat>, ghost c0: Cells<C>,
                       ghost r0: Ranks, ghost v0: Vars) returns (ghost f: seq<RopeTree.Rope<C>>)
    requires InRise(h, first, f0, own, keep, c0, r0, v0, insertee0, start, all)
    modifies h
    ensures Planted(h, first, f, own, keep, c0, r0, v0, all) && h.top >= old(h.top)
    decreases 1, 7
  {
    var i, insertee, done := start, insertee0, false;
    f := f0;
    while !done
      invariant done ==> Planted(h, first, f, own, keep, c0, r0, v0, all)
      invariant !done ==> InRise(h, first, f, own, keep, c0, r0, v0, insertee, i, all)
      invariant h.top >= old(h.top) && i <= RopeTree.MAX_DEPTH
      decreases !done, RopeTree.MAX_DEPTH - i
    {
      i, insertee, done, f := RiseRound(h, i, insertee, first, f, all, own, keep, c0, r0, v0);
    }
  }

  method RiseRound<C(!new)>(h: Heap<C>, i: nat, insertee: nat, first: nat, ghost f: seq<RopeTree.Rope<C>>,
                            ghost all: seq<C>, ghost own: set<nat>, ghost keep: set<nat>, ghost c0: Cells<C>,
                            ghost r0: Ranks, ghost v0: Vars)
    returns (i': nat, insertee': nat, done: bool, ghost f': seq<RopeTree.Rope<C>>)
    requires InRise(h, first, f, own, keep, c0, r0, v0, insertee, i, all)
    modifies h
    ensures done ==> Planted(h, first, f', own, keep, c0, r0, v0, all)
    ensures !done ==> InRise(h, first, f', own, keep, c0, r0, v0, insertee', i', all)
    ensures h.top >= old(h.top) && i' == (if done then i else i + 1) <= RopeTree.MAX_DEPTH
    decreases 1, 6
  {
    var m := SlotName(h, first, i, f, own, keep);
    NilIsNull(h.cells, h.rank, h.vars[m]);
    NilIsNull(h.cells, h.rank, h.vars[insertee]);
    if h.vars[m] != 0 {
      RiseFullSlot(f, h.ValOf(insertee), i, all);
      insertee' := FoldBeside(h, first, i, insertee, true, f, own, keep, c0, r0, v0);
      f' := f[i := RopeTree.Nil];
      NilIsNull(h.cells, h.rank, h.vars[insertee']);
      SizesAgree(h.cells, h.rank, h.vars[insertee']);
      done := i == RopeTree.MAX_DEPTH || EndsBy(SizeOf(h.cells[h.vars[insertee']]), i);
    } else {
      RiseEmptySlot(f, h.ValOf(insertee), i, all);
      SizesAgree(h.cells, h.rank, h.vars[insertee]);
      done := i == RopeTree.MAX_DEPTH || EndsBy(SizeOf(h.cells[h.vars[insertee]]), i);
      insertee', f' := insertee, f;
      if done {
        f' := f[i := h.ValOf(insertee)];
        Plant(h, i, insertee, first, f, all, own, keep, c0, r0, v0);
      }
    }
    i' := if done then i else i + 1;
  }

  lemma RiseFullSlot<C>(f: seq<RopeTree.Rope<C>>, v: RopeTree.Rope<C>, i: nat, all: seq<C>)
    requires RopeConcat.AtSlot(f, v, i, all) && !f[i].Nil?
    ensures Fit(f[i], v) && RopeConcat.Roughly(RopeConcat.Joined(f[i], v))
            && IsMarked(RopeConcat.Marked(RopeConcat.Joined(f[i], v)))
    ensures RopeConcat.AtSlot(f[i := RopeTree.Nil], RopeConcat.Marked(RopeConcat.Joined(f[i], v)), i + 1, all)
            && i < RopeTree.MAX_DEPTH
    ensures !EndsBy(RopeTree.Size(RopeConcat.Marked(RopeConcat.Joined(f[i], v))), i)
  {
    RopeConcat.RiseFull(f, v, i, all);
  }

  lemma RiseEmptySlot<C>(f: seq<RopeTree.Rope<C>>, v: RopeTree.Rope<C>, i: nat, all: seq<C>)
    requires RopeConcat.AtSlot(f, v, i, all) && f[i].Nil?
    ensures i < RopeTree.MAX_DEPTH
    ensures if EndsBy(RopeTree.Size(v), i) then RopeConcat.ForestOk(f[i := v])
            && RopeConcat.Text(f[i := v], 0) == all else RopeConcat.AtSlot(f, v, i + 1, all)
  {
    RopeConcat.RiseEmpty(f, v, i, all);
  }

  /** `forest[i] = insertee`. */
  method Plant<C(!new)>(h: Heap<C>, i: nat, insertee: nat, first: nat, ghost f: seq<RopeTree.Rope<C>>,
                        ghost all: seq<C>, ghost own: set<nat>, ghost keep: set<nat>, ghost c0: Cells<C>,
                        ghost r0: Ranks, ghost v0: Vars)
    requires Beside(h, first, f, own, keep, c0, r0, v0, insertee) && i < SLOTS && f[i].Nil?
             && IsMarked(h.ValOf(insertee))
    requires RopeConcat.ForestOk(f[i := h.ValOf(insertee)]) && RopeConcat.Text(f[i := h.ValOf(insertee)], 0) == all
    modifies h
    ensures Planted(h, first, f[i := old(h.ValOf(insertee))], own, keep, c0, r0, v0, all) && h.top >= old(h.top)
  {
    var m := SlotName(h, first, i, f, own, keep);
    ghost var c1, r1, v1, v := h.cells, h.rank, h.vars, h.ValOf(insertee);
    MoveInto(h, m, insertee, own, keep);
    KeptTrans(c0, r0, v0, c1, r1, v1, h.cells, h.rank, h.vars, own, keep);
    SlotPut(c1, r1, v1, h.cells, h.rank, h.vars, first, f, i, insertee, v);
  }

  /** A variable is given up, and another takes its name. */
  method MoveInto<C(!new)>(h: Heap<C>, m: nat, u: nat, ghost own: set<nat>, ghost keep: set<nat>)
    requires h.Valid() && m in h.vars && u in h.vars && m != u && m !in own && u !in own
             && Held(h.cells, h.vars, own, keep)
    modifies h
    ensures h.Valid() && h.top >= old(h.top) && h.vars.Keys == old(h.vars).Keys - {u} && h.ValOf(m) == old(h.ValOf(u))
    ensures Kept(old(h.cells), old(h.rank), old(h.vars), h.cells, h.rank, h.vars, own, keep)
    ensures forall k :: k in old(h.vars) && k != m && k != u ==>
                 k in h.vars && h.vars[k] == old(h.vars)[k]
                 && SameNode(old(h.cells), old(h.rank), h.cells, h.rank, old(h.vars)[k])
  {
    h.Release(m, own, keep);
    ghost var c1, v1 := h.cells, h.vars;
    VarKept(old(h.cells), old(h.rank), old(h.vars), c1, h.rank, v1, m, u);
    h.Rename(u, m);
    TakenOver(old(h.cells), old(h.rank), old(h.vars), c1, v1, h.vars, m, u, own, keep);
  }

  lemma TakenOver<C>(c0: Cells<C>, r0: Ranks, v0: Vars, c1: Cells<C>, v1: Vars, v2: Vars, m: nat, u: nat, own: set<nat>,
                     keep: set<nat>)
    requires Shape(c0, r0) && Shape(c1, r0) && OthersSame(c0, r0, v0, c1, r0, v1, m)
             && Kept(c0, r0, v0, c1, r0, v1, own, keep)
    requires m in v0 && u in v0 && m != u && v1.Keys == v0.Keys - {m} && v2 == Rebound(v1, u, m, v1[u]) && m !in own
             && u !in own
    ensures Kept(c0, r0, v0, c1, r0, v2, own, keep) && v2.Keys == v0.Keys - {u}
    ensures forall k :: k in v0 && k != m && k != u ==> k in v2 && v2[k] == v0[k] && SameNode(c0, r0, c1, r0, v0[k])
  {
    SameNodes(c1, r0);
    KeptAll(c1, r0, v1, c1, r0, v2, own, keep);
    KeptTrans(c0, r0, v0, c1, r0, v1, c1, r0, v2, own, keep);
  }

  lemma SlotPut<C>(c0: Cells<C>, r0: Ranks, v0: Vars, c1: Cells<C>, r1: Ranks, v1: Vars, first: nat,
                   f: seq<RopeTree.Rope<C>>, j: nat, u: nat, v: RopeTree.Rope<C>)
    requires SlotsAre(c0, r0, v0, first, f) && Shape(c1, r1) && j < SLOTS && u >= first + SLOTS
             && SlotAt(c1, r1, v1, first, j, v)
    requires forall k :: k in v0 && k != first + j && k != u ==>
               k in v1 && v1[k] == v0[k] && SameNode(c0, r0, c1, r1, v0[k])
    requires RopeConcat.ForestOk(f[j := v]) && AllMarked(f) && IsMarked(v)
    ensures SlotsAre(c1, r1, v1, first, f[j := v]) && AllMarked(f[j := v])
  {
    var g := f[j := v];
    forall i: nat | i < SLOTS ensures SlotAt(c1, r1, v1, first, i, g[i]) {
      if i != j {
        assert SlotAt(c0, r0, v0, first, i, f[i]);
        var k := first + i;
        assert SameNode(c0, r0, c1, r1, v0[k]);
      }
    }
  }

  /** `_S_add_leaf_to_forest`: the text of the forest grows by the text of node `x`. */
  method AddLeafToForest<C(!new)>(h: Heap<C>, x: nat, first: nat, ghost f0: seq<RopeTree.Rope<C>>, ghost own: set<nat>,
                                  ghost keep: set<nat>) returns (ghost f: seq<RopeTree.Rope<C>>)
    requires Working(h, first, f0, own, keep) && x in keep && RopeTree.Flagged(Val(h.cells, h.rank, x))
    requires |RopeConcat.Text(f0, 0)| + SizeOf(h.cells[x]) <= RopeTree.MAX_SIZE
    modifies h
    ensures Planted(h, first, f, own, keep, old(h.cells), old(h.rank), old(h.vars),
                    RopeConcat.Text(f0, 0) + old(Text(h.cells, h.rank, x))) && h.top >= old(h.top)
    decreases 1, 8
  {
    Stands(h.cells, h.rank, x);
    SizesAgree(h.cells, h.rank, x);
    ghost var v, all := Val(h.cells, h.rank, x), RopeConcat.Text(f0, 0);
    var i, tiny;
    ghost var f1, top;
    i, tiny, f1, top := Gather(h, SizeOf(h.cells[x]), first, f0, all, own, keep);
    var insertee := Insertee(h, i, x, tiny, first, f1, top, v, all, own, keep, old(h.cells), old(h.rank), old(h.vars));
    f := Rise(h, i, insertee, first, f1, all + RopeTree.Flatten(v), own, keep, old(h.cells), old(h.rank), old(h.vars));
  }

  /** The rope to be planted, made of what was gathered and of node `x`. */
  method Insertee<C(!new)>(h: Heap<C>, i: nat, x: nat, tiny: nat, first: nat, ghost f: seq<RopeTree.Rope<C>>,
                           ghost top: nat, ghost v: RopeTree.Rope<C>, ghost all: seq<C>, ghost own: set<nat>,
                           ghost keep: set<nat>, ghost c0: Cells<C>, ghost r0: Ranks, ghost v0: Vars)
    returns (insertee: nat)
    requires InGather(h, first, f, own, keep, c0, r0, v0, tiny, i, top, RopeTree.Size(v), all)
             && EndsBy(RopeTree.Size(v), i)
    requires x in keep && x in c0 && Val(c0, r0, x) == v && RopeTree.Wf(v) && RopeTree.Flagged(v)
    modifies h
    ensures InRise(h, first, f, own, keep, c0, r0, v0, insertee, i, all + RopeTree.Flatten(v)) && h.top >= old(h.top)
    decreases 1, 6
  {
    FirstInsertee(f, h.ValOf(tiny), v, i, top, all);
    assert SameNode(c0, r0, h.cells, h.rank, x);
    NilIsNull(h.cells, h.rank, x);
    ghost var c1, r1, v1 := h.cells, h.rank, h.vars;
    insertee := JoinWith(h, tiny, x, first, f, own, keep);
    KeptTrans(c0, r0, v0, c1, r1, v1, h.cells, h.rank, h.vars, own, keep);
    DropTiny(h, tiny, insertee, first, f, own, keep, c0, r0, v0);
  }

  /** What was gathered and node `x` are put together, for a new temporary `w`. */
  method JoinWith<C(!new)>(h: Heap<C>, u: nat, x: nat, first: nat, ghost f: seq<RopeTree.Rope<C>>, ghost own: set<nat>,
                           ghost keep: set<nat>) returns (w: nat)
    requires Working(h, first, f, own, keep) && u in h.vars && x in h.cells && x != 0 && IsMarked(h.ValOf(u))
             && IsMarked(Val(h.cells, h.rank, x))
    requires Fit(h.ValOf(u), Val(h.cells, h.rank, x))
             && RopeConcat.Roughly(RopeConcat.Joined(h.ValOf(u), Val(h.cells, h.rank, x)))
    modifies h
    ensures Working(h, first, f, own, keep) && h.top >= old(h.top) && w >= old(h.top) && w !in old(h.vars)
            && h.vars.Keys == old(h.vars).Keys + {w}
    ensures Kept(old(h.cells), old(h.rank), old(h.vars), h.cells, h.rank, h.vars, own, keep)
    ensures h.ValOf(w) == RopeConcat.Marked(old(RopeConcat.Joined(h.ValOf(u), Val(h.cells, h.rank, x))))
    decreases 1, 4
  {
    w := h.Fresh();
    ConcatAndSetBalanced(h, h.vars[u], x, w);
    Steady(old(h.cells), old(h.rank), old(h.vars), h.cells, h.rank, h.vars, w, first, f, own, keep);
  }

  method DropTiny<C(!new)>(h: Heap<C>, u: nat, ghost w: nat, first: nat, ghost f: seq<RopeTree.Rope<C>>,
                           ghost own: set<nat>, ghost keep: set<nat>, ghost c0: Cells<C>, ghost r0: Ranks,
                           ghost v0: Vars)
    requires Working(h, first, f, own, keep) && u in h.vars && u >= first + SLOTS && w in h.vars && w != u
             && w >= first + SLOTS && w !in v0 && u !in v0
    requires h.vars.Keys == v0.Keys + {u} + {w} && Shape(c0, r0) && Kept(c0, r0, v0, h.cells, h.rank, h.vars, own, keep)
    modifies h
    ensures Beside(h, first, f, own, keep, c0, r0, v0, w) && h.ValOf(w) == old(h.ValOf(w)) && h.top >= old(h.top)
  {
    ghost var c1, r1, v1 := h.cells, h.rank, h.vars;
    DropVar(h, u, first, f, own, keep);
    VarKept(c1, r1, v1, h.cells, h.rank, h.vars, u, w);
    KeptTrans(c0, r0, v0, c1, r1, v1, h.cells, h.rank, h.vars, own, keep);
  }

  lemma FirstInsertee<C>(f: seq<RopeTree.Rope<C>>, tiny: RopeTree.Rope<C>, v: RopeTree.Rope<C>, i: nat, top: nat,
                         all: seq<C>)
    requires RopeConcat.Gathering(f, tiny, i, top, RopeTree.Size(v), all) && EndsBy(RopeTree.Size(v), i)
    requires RopeTree.Wf(v) && RopeTree.Flagged(v) && !v.Nil?
    ensures Fit(tiny, v) && IsMarked(v) && RopeConcat.Roughly(RopeConcat.Joined(tiny, v))
            && IsMarked(RopeConcat.Marked(RopeConcat.Joined(tiny, v)))
    ensures RopeConcat.AtSlot(f, RopeConcat.Marked(RopeConcat.Joined(tiny, v)), i, all + RopeTree.Flatten(v))
  {
    RopeConcat.FirstRise(tiny, v, i, top);
    RopeConcat.RisingIsRough(RopeConcat.Joined(tiny, v), i);
    RopeConcat.DepthFromSize(v, i);
    RopeConcat.JoinedFacts(tiny, v);
    RopeConcat.MarkedFacts(RopeConcat.Joined(tiny, v));
    RopeConcat.Regroup(RopeConcat.Text(f, 0), RopeTree.Flatten(tiny), RopeTree.Flatten(v));
  }

  /** What is below a node to be kept is to be kept. */
  ghost predicate Closed<C>(cells: Cells<C>, keep: set<nat>) {
    forall y, z :: y in keep && y in cells && Kid(cells[y], z) ==> z in keep
  }

  /** `_S_add_to_forest`: the balanced pieces of node `x`, from left to right. */
  method AddToForest<C(!new)>(h: Heap<C>, x: nat, first: nat, ghost f0: seq<RopeTree.Rope<C>>, ghost own: set<nat>,
                              ghost keep: set<nat>) returns (ghost f: seq<RopeTree.Rope<C>>)
    requires Working(h, first, f0, own, keep) && x in keep && Closed(h.cells, keep)
    requires |RopeConcat.Text(f0, 0)| + SizeOf(h.cells[x]) <= RopeTree.MAX_SIZE
    modifies h
    ensures Planted(h, first, f, own, keep, old(h.cells), old(h.rank), old(h.vars),
                    RopeConcat.Text(f0, 0) + old(Text(h.cells, h.rank, x))) && h.top >= old(h.top)
    decreases 1, 9, h.rank[x], 1
  {
    var c := h.cells[x];
    if !c.Concat? || c.balanced {
      f := AddLeafToForest(h, x, first, f0, own, keep);
    } else {
      f := AddBothToForest(h, x, first, f0, own, keep);
    }
  }

  method AddBothToForest<C(!new)>(h: Heap<C>, x: nat, first: nat, ghost f0: seq<RopeTree.Rope<C>>, ghost own: set<nat>,
                                  ghost keep: set<nat>) returns (ghost f: seq<RopeTree.Rope<C>>)
    requires Working(h, first, f0, own, keep) && x in keep && Closed(h.cells, keep) && h.cells[x].Concat?
    requires |RopeConcat.Text(f0, 0)| + SizeOf(h.cells[x]) <= RopeTree.MAX_SIZE
    modifies h
    ensures Planted(h, first, f, own, keep, old(h.cells), old(h.rank), old(h.vars),
                    RopeConcat.Text(f0, 0) + old(Text(h.cells, h.rank, x))) && h.top >= old(h.top)
    decreases 1, 9, h.rank[x], 0
  {
    var l, r := h.cells[x].left, h.cells[x].right;
    Halves(h.cells, h.rank, x);
    assert Kid(h.cells[x], l) && Kid(h.cells[x], r);
    assert Fine(h.cells, x);
    ghost var all, a, b := RopeConcat.Text(f0, 0), Text(h.cells, h.rank, l), Text(h.cells, h.rank, r);
    f := AddToForest(h, l, first, f0, own, keep);
    ghost var c1, r1, v1 := h.cells, h.rank, h.vars;
    ClosedStill(old(h.cells), old(h.rank), old(h.vars), c1, r1, v1, own, keep, r);
    f := AddToForest(h, r, first, f, own, keep);
    RopeConcat.Regroup(all, a, b);
    KeptTrans(old(h.cells), old(h.rank), old(h.vars), c1, r1, v1, h.cells, h.rank, h.vars, own, keep);
  }

  lemma ClosedStill<C>(c0: Cells<C>, r0: Ranks, v0: Vars, c1: Cells<C>, r1: Ranks, v1: Vars, own: set<nat>,
                       keep: set<nat>, r: nat)
    requires Shape(c0, r0) && Shape(c1, r1) && Kept(c0, r0, v0, c1, r1, v1, own, keep) && Closed(c0, keep)
             && Held(c0, v0, own, keep) && r in keep
    ensures Closed(c1, keep) && r in c1 && c1[r] == c0[r] && r1[r] == r0[r] && Text(c1, r1, r) == Text(c0, r0, r)
  {
    forall y, z | y in keep && y in c1 && Kid(c1[y], z) ensures z in keep {
      assert SameNode(c0, r0, c1, r1, y) && Kid(c0[y], z);
    }
    assert SameNode(c0, r0, c1, r1, r);
  }

  // ---------- the whole of it ----------

  /** The state of the loop that puts the slots together, at slot `i`. */
  ghost predicate InAssemble<C(!new)>(h: Heap<C>, first: nat, f: seq<RopeTree.Rope<C>>, own: set<nat>, keep: set<nat>,
                                      c0: Cells<C>, r0: Ranks, v0: Vars, result: nat, i: nat, top: nat, all: seq<C>)
    reads h
  {
    && Beside(h, first, f, own, keep, c0, r0, v0, result)
    && RopeConcat.Assembling(f, h.ValOf(result), i, top, all) && RopeConcat.EmptyBelow(f, i)
  }

  /** The last loop of `_S_balance`: the slots are put together from the lowest up, and emptied. */
  method Assemble<C(!new)>(h: Heap<C>, first: nat, ghost f0: seq<RopeTree.Rope<C>>, ghost all: seq<C>,
                           ghost own: set<nat>, ghost keep: set<nat>, ghost c0: Cells<C>, ghost r0: Ranks,
                           ghost v0: Vars) returns (result: nat, ghost f: seq<RopeTree.Rope<C>>, ghost top: nat)
    requires Planted(h, first, f0, own, keep, c0, r0, v0, all) && |all| <= RopeTree.MAX_SIZE
    modifies h
    ensures InAssemble(h, first, f, own, keep, c0, r0, v0, result, SLOTS, top, all) && h.top >= old(h.top)
    decreases 1, 9
  {
    result := StartAssemble(h, first, f0, all, own, keep, c0, r0, v0);
    f, top := f0, 0;
    var i := 0;
    while i < SLOTS
      invariant i <= SLOTS && InAssemble(h, first, f, own, keep, c0, r0, v0, result, i, top, all) && h.top >= old(h.top)
    {
      result, f, top := AssembleRound(h, i, result, first, f, top, all, own, keep, c0, r0, v0);
      i := i + 1;
    }
  }

  method StartAssemble<C(!new)>(h: Heap<C>, first: nat, ghost f: seq<RopeTree.Rope<C>>, ghost all: seq<C>,
                                ghost own: set<nat>, ghost keep: set<nat>, ghost c0: Cells<C>, ghost r0: Ranks,
                                ghost v0: Vars) returns (result: nat)
    requires Planted(h, first, f, own, keep, c0, r0, v0, all) && |all| <= RopeTree.MAX_SIZE
    modifies h
    ensures InAssemble(h, first, f, own, keep, c0, r0, v0, result, 0, 0, all) && h.top >= old(h.top)
  {
    ghost var c1, r1, v1 := h.cells, h.rank, h.vars;
    RopeConcat.Regroup(all, [], []);
    result := StartNull(h, first, f, own, keep);
    KeptTrans(c0, r0, v0, c1, r1, v1, h.cells, h.rank, h.vars, own, keep);
  }

  method AssembleRound<C(!new)>(h: Heap<C>, i: nat, result: nat, first: nat, ghost f: seq<RopeTree.Rope<C>>,
                                ghost top: nat, ghost all: seq<C>, ghost own: set<nat>, ghost keep: set<nat>,
                                ghost c0: Cells<C>, ghost r0: Ranks, ghost v0: Vars)
    returns (result': nat, ghost f': seq<RopeTree.Rope<C>>, ghost top': nat)
    requires i < SLOTS && InAssemble(h, first, f, own, keep, c0, r0, v0, result, i, top, all)
    modifies h
    ensures InAssemble(h, first, f', own, keep, c0, r0, v0, result', i + 1, top', all) && h.top >= old(h.top)
    decreases 1, 8
  {
    var m := SlotName(h, first, i, f, own, keep);
    NilIsNull(h.cells, h.rank, h.vars[m]);
    if h.vars[m] != 0 {
      AssembleNext(f, h.ValOf(result), i, top, all);
      result' := FoldBeside(h, first, i, result, false, f, own, keep, c0, r0, v0);
      f', top' := f[i := RopeTree.Nil], i;
    } else {
      AssembleSkip(f, h.ValOf(result), i, top, all);
      result', f', top' := result, f, top;
    }
  }

  lemma AssembleSkip<C>(f: seq<RopeTree.Rope<C>>, v: RopeTree.Rope<C>, i: nat, top: nat, all: seq<C>)
    requires RopeConcat.Assembling(f, v, i, top, all) && RopeConcat.EmptyBelow(f, i) && i < SLOTS && f[i].Nil?
    ensures RopeConcat.Assembling(f, v, i + 1, top, all) && RopeConcat.EmptyBelow(f, i + 1)
  {
    RopeConcat.AssembleStep(f, v, i, top, all);
  }

  lemma AssembleNext<C>(f: seq<RopeTree.Rope<C>>, v: RopeTree.Rope<C>, i: nat, top: nat, all: seq<C>)
    requires RopeConcat.Assembling(f, v, i, top, all) && RopeConcat.EmptyBelow(f, i) && i < SLOTS && !f[i].Nil?
    ensures Fit(f[i], v) && RopeConcat.Roughly(RopeConcat.Joined(f[i], v))
    ensures RopeConcat.Assembling(f[i := RopeTree.Nil], RopeConcat.Joined(f[i], v), i + 1, i, all)
    ensures RopeConcat.EmptyBelow(f[i := RopeTree.Nil], i + 1)
  {
    RopeConcat.AssembleStep(f, v, i, top, all);
    AssembleEmptied(f, RopeConcat.Joined(f[i], v), i, all);
  }

  lemma AssembleEmptied<C>(f: seq<RopeTree.Rope<C>>, v: RopeTree.Rope<C>, i: nat, all: seq<C>)
    requires RopeConcat.Assembling(f, v, i + 1, i, all) && RopeConcat.EmptyBelow(f, i) && i < SLOTS
    ensures RopeConcat.Assembling(f[i := RopeTree.Nil], v, i + 1, i, all)
            && RopeConcat.EmptyBelow(f[i := RopeTree.Nil], i + 1)
  {
    RopeConcat.TextAgree(f, f[i := RopeTree.Nil], i + 1);
  }

  /** The names of the first `n` slots. */
  ghost function Names(first: nat, n: nat): (s: set<nat>)
    ensures forall m :: m in s <==> first <= m < first + n
  {
    if n == 0 then {} else Names(first, n - 1) + {first + n - 1}
  }

  /** Null for every slot. */
  method MakeSlots<C(!new)>(h: Heap<C>) returns (first: nat)
    requires h.Valid()
    modifies h`count, h`vars, h`refs, h`top
    ensures h.Valid() && first == old(h.top) && h.top == first + SLOTS
            && h.vars.Keys == old(h.vars).Keys + Names(first, SLOTS)
    ensures forall m :: m in old(h.vars) ==> h.vars[m] == old(h.vars)[m]
    ensures SlotsAre(h.cells, h.rank, h.vars, first, seq(SLOTS, _ => RopeTree.Nil))
  {
    first := h.top;
    h.top := h.top + SLOTS;
    var i := 0;
    while i < SLOTS
      invariant SlotsMade(h, first, i, old(h.vars))
      decreases SLOTS - i
    {
      i := MakeSlot(h, first, i, old(h.vars));
    }
  }

  /** The first `i` slots beside the variables there were. */
  ghost predicate SlotsMade<C(!new)>(h: Heap<C>, first: nat, i: nat, vars0: Vars)
    reads h
  {
    && i <= SLOTS && h.Valid() && h.top == first + SLOTS && h.vars.Keys == vars0.Keys + Names(first, i)
    && (forall m :: m in vars0 ==> m < first && m in h.vars && h.vars[m] == vars0[m])
    && (forall m :: first <= m < first + i ==> m in h.vars && h.vars[m] == 0)
  }

  method MakeSlot<C(!new)>(h: Heap<C>, first: nat, i: nat, ghost vars0: Vars) returns (i': nat)
    requires i < SLOTS && SlotsMade(h, first, i, vars0)
    modifies h`count, h`vars, h`refs
    ensures i' == i + 1 && SlotsMade(h, first, i', vars0)
  {
    NamesNext(first, i);
    h.AddVar(0, first + i);
    i' := i + 1;
  }

  lemma NamesNext(first: nat, i: nat)
    ensures Names(first, i + 1) == Names(first, i) + {first + i} && first + i !in Names(first, i)
  {
  }

  /** The slots go; they are empty. */
  method DropSlots<C(!new)>(h: Heap<C>, first: nat, ghost u: nat, ghost own: set<nat>, ghost keep: set<nat>)
    requires h.Valid() && Held(h.cells, h.vars, own, keep) && (forall m :: m in own ==> m < first) && u in h.vars
             && u >= first + SLOTS
    requires Names(first, SLOTS) <= h.vars.Keys
    modifies h
    ensures h.Valid() && h.top >= old(h.top) && h.vars.Keys == old(h.vars).Keys - Names(first, SLOTS) && u in h.vars
            && h.ValOf(u) == old(h.ValOf(u)) && h.TextOf(u) == old(h.TextOf(u))
    ensures Kept(old(h.cells), old(h.rank), old(h.vars), h.cells, h.rank, h.vars, own, keep)
  {
    var i := 0;
    SameNodes(h.cells, h.rank);
    KeptAll(h.cells, h.rank, h.vars, h.cells, h.rank, h.vars, own, keep);
    while i < SLOTS
      invariant i <= SLOTS && h.Valid() && h.top >= old(h.top) && h.vars.Keys == old(h.vars).Keys - Names(first, i)
      invariant u in h.vars && h.ValOf(u) == old(h.ValOf(u)) && h.TextOf(u) == old(h.TextOf(u))
      invariant Kept(old(h.cells), old(h.rank), old(h.vars), h.cells, h.rank, h.vars, own, keep)
    {
      NamesNext(first, i);
      DropOne(h, first + i, u, own, keep, old(h.cells), old(h.rank), old(h.vars));
      i := i + 1;
    }
  }

  method DropOne<C(!new)>(h: Heap<C>, m: nat, ghost u: nat, ghost own: set<nat>, ghost keep: set<nat>,
                          ghost c0: Cells<C>, ghost r0: Ranks, ghost v0: Vars)
    requires h.Valid() && m in h.vars && m !in own && u in h.vars && u != m && Shape(c0, r0)
             && Kept(c0, r0, v0, h.cells, h.rank, h.vars, own, keep)
    modifies h
    ensures h.Valid() && h.top >= old(h.top) && h.vars.Keys == old(h.vars).Keys - {m} && u in h.vars
            && h.ValOf(u) == old(h.ValOf(u)) && h.TextOf(u) == old(h.TextOf(u))
    ensures Kept(c0, r0, v0, h.cells, h.rank, h.vars, own, keep)
  {
    ghost var c1, r1, v1 := h.cells, h.rank, h.vars;
    h.Release(m, own, keep);
    VarKept(c1, r1, v1, h.cells, h.rank, h.vars, m, u);
    KeptTrans(c0, r0, v0, c1, r1, v1, h.cells, h.rank, h.vars, own, keep);
  }

  /**
   `_S_balance`: a roughly balanced rope of the same text, which shares the balanced pieces of the old one. No node that
   was there changes, and all that was made on the way is released.
   */
  method Balance<C(!new)>(h: Heap<C>, r: nat, t: nat)
    requires h.Valid() && r in h.vars && h.vars[r] != 0 && t !in h.vars && t < h.top
             && RopeTree.Size(h.ValOf(r)) <= RopeTree.MAX_SIZE
    modifies h
    ensures h.Valid() && h.top >= old(h.top) && Plus(old(h.vars), h.vars, t)
            && NodesSame(old(h.cells), old(h.rank), h.cells, h.rank)
    ensures h.TextOf(t) == old(h.TextOf(r)) && RopeConcat.Roughly(h.ValOf(t))
            && RopeTree.Depth(h.ValOf(t)) <= RopeTree.MAX_DEPTH
    decreases 1, 11
  {
    h.Known(r);
    SizesAgree(h.cells, h.rank, h.vars[r]);
    ghost var c0, r0, v0, own, keep := h.cells, h.rank, h.vars, h.vars.Keys, h.cells.Keys;
    SameNodes(c0, r0);
    var first := StartForest(h);
    ghost var v1 := h.vars;
    var result := Reforest(h, r, first, own, keep);
    HandOver(h, first, result, t, own, keep, c0, r0, v1);
    OldAndOne(c0, r0, v0, c0, r0, v1, h.cells, h.rank, h.vars, t);
  }

  method StartForest<C(!new)>(h: Heap<C>) returns (first: nat)
    requires h.Valid()
    modifies h`count, h`vars, h`refs, h`top
    ensures h.Valid() && first == old(h.top) && first + SLOTS <= h.top
            && h.vars.Keys == old(h.vars).Keys + Names(first, SLOTS)
    ensures (forall m :: m in old(h.vars) ==> h.vars[m] == old(h.vars)[m])
            && forall m :: m in old(h.vars).Keys ==> m < first
    ensures SlotsAre(h.cells, h.rank, h.vars, first, seq(SLOTS, _ => RopeTree.Nil))
            && Held(h.cells, h.vars, old(h.vars).Keys, h.cells.Keys)
  {
    SameNodes(h.cells, h.rank);
    first := MakeSlots(h);
    AllHeld(h.cells, h.rank, old(h.vars), old(h.count), old(h.refs), h.cells, h.rank, h.vars);
  }

  /** The forest goes, and the result gets its name. */
  method HandOver<C(!new)>(h: Heap<C>, first: nat, result: nat, t: nat, ghost own: set<nat>, ghost keep: set<nat>,
                           ghost c0: Cells<C>, ghost r0: Ranks, ghost v0: Vars)
    requires h.Valid() && Shape(c0, r0) && Kept(c0, r0, v0, h.cells, h.rank, h.vars, own, keep)
             && (forall m :: m in own ==> m < first)
    requires v0.Keys == own + Names(first, SLOTS) && h.vars.Keys == v0.Keys + {result} && result >= first + SLOTS
             && t !in h.vars && t < h.top
    modifies h
    ensures h.Valid() && h.top >= old(h.top) && h.vars.Keys == own + {t} && h.ValOf(t) == old(h.ValOf(result))
            && h.TextOf(t) == old(h.TextOf(result))
    ensures Kept(c0, r0, v0, h.cells, h.rank, h.vars, own, keep)
  {
    ghost var c1, r1, v1 := h.cells, h.rank, h.vars;
    OnlyResult(own, v0.Keys, v1.Keys, first, result, t);
    DropSlots(h, first, result, own, keep);
    KeptTrans(c0, r0, v0, c1, r1, v1, h.cells, h.rank, h.vars, own, keep);
    ghost var v2 := h.vars;
    h.Rename(result, t);
    SameNodes(h.cells, h.rank);
    KeptAll(h.cells, h.rank, v2, h.cells, h.rank, h.vars, own, keep);
    KeptTrans(c0, r0, v0, h.cells, h.rank, v2, h.cells, h.rank, h.vars, own, keep);
  }

  lemma OnlyResult(own: set<nat>, ks: set<nat>, ks': set<nat>, first: nat, result: nat, t: nat)
    requires ks == own + Names(first, SLOTS) && ks' == ks + {result} && result >= first + SLOTS
             && forall m :: m in own ==> m < first
    ensures ks' - Names(first, SLOTS) == own + {result} && own + {result} - {result} + {t} == own + {t}
            && Names(first, SLOTS) <= ks'
  {
  }

  /** The forest is filled and put together again. */
  method Reforest<C(!new)>(h: Heap<C>, r: nat, first: nat, ghost own: set<nat>, ghost keep: set<nat>)
    returns (result: nat)
    requires h.Valid() && r in h.vars && h.vars[r] in keep && keep == h.cells.Keys
             && SizeOf(h.cells[h.vars[r]]) <= RopeTree.MAX_SIZE
    requires Held(h.cells, h.vars, own, keep) && (forall m :: m in own ==> m < first) && first + SLOTS <= h.top
    requires SlotsAre(h.cells, h.rank, h.vars, first, seq(SLOTS, _ => RopeTree.Nil))
    modifies h
    ensures h.Valid() && h.top >= old(h.top) && result !in old(h.vars) && h.vars.Keys == old(h.vars).Keys + {result}
            && result >= first + SLOTS
    ensures Kept(old(h.cells), old(h.rank), old(h.vars), h.cells, h.rank, h.vars, own, keep)
    ensures h.TextOf(result) == old(Text(h.cells, h.rank, h.vars[r])) && h.vars[result] in h.cells
    ensures RopeConcat.Roughly(h.ValOf(result)) && RopeTree.Depth(h.ValOf(result)) <= RopeTree.MAX_DEPTH
            && DepthOf(h.cells[h.vars[result]]) <= RopeTree.MAX_DEPTH
    decreases 1, 10
  {
    ghost var nils: seq<RopeTree.Rope<C>> := seq(SLOTS, _ => RopeTree.Nil);
    Bare(nils);
    WholeClosed(h.cells, h.rank);
    ghost var all := Text(h.cells, h.rank, h.vars[r]);
    Stands(h.cells, h.rank, h.vars[r]);
    RopeConcat.Regroup(all, [], []);
    ghost var f := AddToForest(h, h.vars[r], first, nils, own, keep);
    ghost var top;
    result, f, top := Assemble(h, first, f, all, own, keep, old(h.cells), old(h.rank), old(h.vars));
    ResultText(h.cells, h.rank, h.vars[result], f, top, all);
    if DepthOf(h.cells[h.vars[result]]) > RopeTree.MAX_DEPTH {
      assert false;
    }
  }

  lemma Bare<C>(f: seq<RopeTree.Rope<C>>)
    requires f == seq(SLOTS, _ => RopeTree.Nil)
    ensures RopeConcat.ForestOk(f) && AllMarked(f) && RopeConcat.Text(f, 0) == []
  {
    RopeConcat.TextAbove(f, SLOTS);
  }

  lemma WholeClosed<C>(cells: Cells<C>, rank: Ranks)
    requires Shape(cells, rank)
    ensures Closed(cells, cells.Keys)
  {
  }

  lemma ResultText<C>(cells: Cells<C>, rank: Ranks, x: nat, f: seq<RopeTree.Rope<C>>, top: nat, all: seq<C>)
    requires Sized(cells, rank) && Known(cells, x) && RopeConcat.Assembling(f, PtrVal(cells, rank, x), SLOTS, top, all)
             && all != []
    ensures x in cells && Text(cells, rank, x) == all && DepthOf(cells[x]) <= RopeTree.MAX_DEPTH
  {
    assert [] + RopeTree.Flatten(PtrVal(cells, rank, x)) == all;
    if x != 0 {
      Stands(cells, rank, x);
      SizesAgree(cells, rank, x);
    }
  }
}
