/**
 Operations on ropes that share nodes: concatenation, substrings, appending in place or not, replacing, assigning a
 character (headers/cpp/ropeimpl.h:478-586, 634-746, 1324-1353, headers/cpp/stl_rope.h:1879-2110).
 */
module RopeOps {
  import opened Basics
  import opened RopeShare
  import opened RopeKeep
  import opened RopeInPlace
  import opened RopeHeap
  import opened RopeBalance
  import RopeSlice
  import RopeTree

  /** The rope of `k` is of legal depth, and of legal size with `n` characters more. */
  ghost predicate Room<C(!new)>(h: Heap<C>, k: nat, n: nat)
    reads h
    requires h.Valid() && k in h.vars
  {
    |h.TextOf(k)| + n <= RopeTree.MAX_SIZE && h.DepthAt(k) <= RopeTree.MAX_DEPTH
  }

  predicate Small<C>(cells: Cells<C>, x: nat)
    requires x in cells
  {
    SizeOf(cells[x]) <= RopeTree.MAX_SIZE && DepthOf(cells[x]) <= RopeTree.MAX_DEPTH
  }

  // ---------- concatenation with characters, and substrings ----------

  /** `_S_concat_char_iter`: the old rope is left alone. */
  method ConcatChars<C(!new)>(h: Heap<C>, k: nat, s: seq<C>, t: nat)
    requires h.Valid() && k in h.vars && h.vars[k] != 0 && t !in h.vars && t < h.top && Room(h, k, |s|)
    modifies h
    ensures h.Valid() && h.top >= old(h.top) && Plus(old(h.vars), h.vars, t)
            && NodesSame(old(h.cells), old(h.rank), h.cells, h.rank)
    ensures h.TextOf(t) == old(h.TextOf(k)) + s && h.DepthAt(t) <= RopeTree.MAX_DEPTH
  {
    h.Known(k);
    var x := h.vars[k];
    NoText(Text(h.cells, h.rank, x), s);
    if s == [] {
      h.AddVar(x, t);
    } else if h.cells[x].Leaf? && |h.cells[x].data| + |s| <= RopeTree.COPY_MAX {
      h.NewLeaf(h.cells[x].data + s, t);
    } else if RightLeaf(h.cells, x) && |h.cells[h.cells[x].right].data| + |s| <= RopeTree.COPY_MAX {
      CharsAtRight(h, x, s, t);
    } else {
      SizesAgree(h.cells, h.rank, x);
      JoinLeaf(h, x, s, t);
      DepthIs(h, t);
    }
  }

  method CharsAtRight<C(!new)>(h: Heap<C>, x: nat, s: seq<C>, t: nat)
    requires h.Valid() && x in h.cells && RightLeaf(h.cells, x) && s != [] && t !in h.vars && t < h.top
    requires SizeOf(h.cells[x]) + |s| <= RopeTree.MAX_SIZE && DepthOf(h.cells[x]) <= RopeTree.MAX_DEPTH
    modifies h
    ensures h.Valid() && h.top >= old(h.top) && Plus(old(h.vars), h.vars, t)
            && NodesSame(old(h.cells), old(h.rank), h.cells, h.rank)
    ensures h.TextOf(t) == old(Text(h.cells, h.rank, x)) + s && h.DepthAt(t) <= RopeTree.MAX_DEPTH
  {
    Parts(h.cells, h.rank, x);
    assert Fine(h.cells, x);
    SizesAgree(h.cells, h.rank, h.cells[x].left);
    Regroup(h.cells, h.rank, x, s);
    JoinLeaf(h, h.cells[x].left, h.cells[h.cells[x].right].data + s, t);
    DepthIs(h, t);
  }

  /** The fields of the node of a variable are those of its value. */
  lemma DepthIs<C(!new)>(h: Heap<C>, k: nat)
    requires h.Valid() && k in h.vars
    ensures h.DepthAt(k) == RopeTree.Depth(h.ValOf(k)) && |h.TextOf(k)| == RopeTree.Size(h.ValOf(k))
  {
    if h.vars[k] != 0 {
      SizesAgree(h.cells, h.rank, h.vars[k]);
      Stands(h.cells, h.rank, h.vars[k]);
    }
  }

  /** `_S_concat` of the ropes of two variables. */
  method ConcatVars<C(!new)>(h: Heap<C>, a: nat, b: nat, t: nat)
    requires h.Valid() && a in h.vars && b in h.vars && t !in h.vars && t < h.top && Room(h, a, |h.TextOf(b)|)
             && h.DepthAt(b) <= RopeTree.MAX_DEPTH
    modifies h
    ensures h.Valid() && h.top >= old(h.top) && Plus(old(h.vars), h.vars, t)
            && NodesSame(old(h.cells), old(h.rank), h.cells, h.rank)
    ensures h.TextOf(t) == old(h.TextOf(a)) + old(h.TextOf(b)) && h.DepthAt(t) <= RopeTree.MAX_DEPTH
  {
    DepthIs(h, a);
    DepthIs(h, b);
    ConcatPtrs(h, h.vars[a], h.vars[b], t);
    DepthIs(h, t);
  }

  /** The cases of `_S_substring` below a concatenation: short pieces are copied, long ones share the node. */
  method SubstringFlat<C(!new)>(h: Heap<C>, x: nat, start: nat, len: nat, t: nat)
    requires h.Valid() && x in h.cells && !h.cells[x].Concat? && 0 < len && start + len <= |Text(h.cells, h.rank, x)|
             && t !in h.vars && t < h.top
    modifies h
    ensures h.Valid() && h.top >= old(h.top) && Plus(old(h.vars), h.vars, t)
            && NodesSame(old(h.cells), old(h.rank), h.cells, h.rank)
    ensures h.TextOf(t) == old(Text(h.cells, h.rank, x)[start..start + len]) && h.DepthAt(t) == 0
  {
    if len <= RopeTree.LAZY_THRESHOLD {
      var text := h.Flat(x);
      h.NewLeaf(text[start..start + len], t);
      DepthIs(h, t);
    } else {
      LazyPiece(h, x, start, len, t);
    }
  }

  method LazyPiece<C(!new)>(h: Heap<C>, x: nat, start: nat, len: nat, t: nat)
    requires h.Valid() && x in h.cells && !h.cells[x].Concat? && 0 < len && start + len <= |Text(h.cells, h.rank, x)|
             && t !in h.vars && t < h.top
    modifies h
    ensures h.Valid() && h.top >= old(h.top) && Plus(old(h.vars), h.vars, t)
            && NodesSame(old(h.cells), old(h.rank), h.cells, h.rank)
    ensures h.TextOf(t) == old(Text(h.cells, h.rank, x)[start..start + len]) && h.DepthAt(t) == 0
  {
    assert Fine(h.cells, x);
    if h.cells[x].Substring? {
      Parts(h.cells, h.rank, x);
      NestedText(h.cells, h.rank, x, start, len);
      var base, from := h.cells[x].base, start + h.cells[x].start;
      ghost var text := Text(h.cells, h.rank, x)[start..start + len];
      assert text == Text(h.cells, h.rank, base)[from..from + len];
      h.NewSubstring(base, from, len, t);
      assert h.TextOf(t) == text;
    } else {
      h.NewSubstring(x, start, len, t);
    }
  }

  /** `_S_substring`: the piece is a new rope that shares what it can; no node changes. */
  method SubstringNode<C(!new)>(h: Heap<C>, x: nat, start: nat, endp1: nat, t: nat)
    requires h.Valid() && x in h.cells && t !in h.vars && t < h.top && Small(h.cells, x)
    modifies h
    ensures h.Valid() && h.top >= old(h.top) && Plus(old(h.vars), h.vars, t)
            && NodesSame(old(h.cells), old(h.rank), h.cells, h.rank)
    ensures RopeSlice.Piece(old(Text(h.cells, h.rank, x)), start, endp1, h.TextOf(t))
            && h.DepthAt(t) <= RopeTree.MAX_DEPTH
    decreases h.rank[x], 2
  {
    Stands(h.cells, h.rank, x);
    var len := SizeOf(h.cells[x]);
    var adjusted := if endp1 >= len then len else endp1;
    SliceCases(Text(h.cells, h.rank, x), start, endp1, adjusted);
    if endp1 >= len && start == 0 {
      h.AddVar(x, t);
    } else if h.cells[x].Concat? {
      SubstringConcat(h, x, start, endp1, adjusted, t);
    } else if start >= adjusted {
      h.AddVar(0, t);
    } else {
      SubstringFlat(h, x, start, adjusted - start, t);
    }
  }

  lemma SliceCases<C>(text: seq<C>, start: nat, endp1: nat, adjusted: nat)
    requires adjusted == if endp1 >= |text| then |text| else endp1
    ensures endp1 >= |text| && start == 0 ==> RopeSlice.Slice(text, start, endp1) == text
    ensures start >= adjusted ==> RopeSlice.Slice(text, start, endp1) == []
    ensures start < adjusted ==> RopeSlice.Slice(text, start, endp1) == text[start..start + (adjusted - start)]
  {
  }

  method SubstringConcat<C(!new)>(h: Heap<C>, x: nat, start: nat, endp1: nat, adjusted: nat, t: nat)
    requires h.Valid() && x in h.cells && h.cells[x].Concat? && t !in h.vars && t < h.top && Small(h.cells, x)
    requires adjusted == if endp1 >= |Text(h.cells, h.rank, x)| then |Text(h.cells, h.rank, x)| else endp1
    modifies h
    ensures h.Valid() && h.top >= old(h.top) && Plus(old(h.vars), h.vars, t)
            && NodesSame(old(h.cells), old(h.rank), h.cells, h.rank)
    ensures RopeSlice.Piece(old(Text(h.cells, h.rank, x)), start, endp1, h.TextOf(t))
            && h.DepthAt(t) <= RopeTree.MAX_DEPTH
    decreases h.rank[x], 1
  {
    var l, r := h.cells[x].left, h.cells[x].right;
    Halves(h.cells, h.rank, x);
    assert Fine(h.cells, x);
    ghost var text, a, b := Text(h.cells, h.rank, x), Text(h.cells, h.rank, l), Text(h.cells, h.rank, r);
    var leftLen := SizeOf(h.cells[l]);
    if adjusted <= leftLen {
      SubstringNode(h, l, start, endp1, t);
    } else if start >= leftLen {
      SubstringNode(h, r, start - leftLen, adjusted - leftLen, t);
    } else {
      SubstringBoth(h, l, r, x, start, leftLen, endp1 - leftLen, t);
    }
    RopeSlice.PieceOfHalves(text, a, b, start, endp1, adjusted, h.TextOf(t));
  }

  /** A piece of each part, put together; the pieces are temporaries. */
  method SubstringBoth<C(!new)>(h: Heap<C>, l: nat, r: nat, ghost x: nat, start: nat, leftLen: nat, rest: nat, t: nat)
    requires h.Valid() && x in h.cells && l in h.cells && r in h.cells && h.rank[l] < h.rank[x] && h.rank[r] < h.rank[x]
             && t !in h.vars && t < h.top
    requires SizeOf(h.cells[l]) + SizeOf(h.cells[r]) <= RopeTree.MAX_SIZE && Small(h.cells, l) && Small(h.cells, r)
    modifies h
    ensures h.Valid() && h.top >= old(h.top) && Plus(old(h.vars), h.vars, t)
            && NodesSame(old(h.cells), old(h.rank), h.cells, h.rank)
    ensures RopeSlice.TwoPieces(old(Text(h.cells, h.rank, l)), start, leftLen, old(Text(h.cells, h.rank, r)), rest,
                                h.TextOf(t)) && h.DepthAt(t) <= RopeTree.MAX_DEPTH
    decreases h.rank[x], 0
  {
    var a, b := Pieces(h, l, r, x, start, leftLen, rest, t);
    ghost var c2, r2, v2 := h.cells, h.rank, h.vars;
    ConcatVars(h, a, b, t);
    NodesTrans(old(h.cells), old(h.rank), c2, r2, h.cells, h.rank);
    PlusThree(old(h.vars), v2, h.vars, a, b, t);
    DropPieces(h, a, b, t, old(h.cells), old(h.rank), old(h.vars), old(h.count), old(h.refs));
  }

  method Pieces<C(!new)>(h: Heap<C>, l: nat, r: nat, ghost x: nat, start: nat, leftLen: nat, rest: nat, ghost t: nat)
    returns (a: nat, b: nat)
    requires h.Valid() && x in h.cells && l in h.cells && r in h.cells && h.rank[l] < h.rank[x] && h.rank[r] < h.rank[x]
             && t !in h.vars && t < h.top
    requires SizeOf(h.cells[l]) + SizeOf(h.cells[r]) <= RopeTree.MAX_SIZE && Small(h.cells, l) && Small(h.cells, r)
    modifies h
    ensures h.Valid() && h.top >= old(h.top) && NodesSame(old(h.cells), old(h.rank), h.cells, h.rank)
            && TwoMore(old(h.vars), h.vars, a, b) && t !in h.vars && t < h.top && Room(h, a, |h.TextOf(b)|)
    ensures h.TextOf(a) == RopeSlice.Slice(old(Text(h.cells, h.rank, l)), start, leftLen)
            && h.DepthAt(a) <= RopeTree.MAX_DEPTH
    ensures h.TextOf(b) == RopeSlice.Slice(old(Text(h.cells, h.rank, r)), 0, rest) && h.DepthAt(b) <= RopeTree.MAX_DEPTH
    decreases h.rank[x], 0, 0
  {
    Stands(h.cells, h.rank, l);
    Stands(h.cells, h.rank, r);
    ShorterPieces(Text(h.cells, h.rank, l), start, leftLen, Text(h.cells, h.rank, r), 0, rest);
    a := h.Fresh();
    SubstringNode(h, l, start, leftLen, a);
    ghost var c1, r1, v1 := h.cells, h.rank, h.vars;
    NodeIs(old(h.cells), old(h.rank), c1, r1, r);
    PlusApart(old(h.vars), v1, a, t);
    b := PieceBeside(h, r, rest, a, t);
    PlusTwice(old(h.vars), v1, h.vars, a, b);
    NodesTrans(old(h.cells), old(h.rank), c1, r1, h.cells, h.rank);
  }

  /** The second piece, beside the first. */
  method PieceBeside<C(!new)>(h: Heap<C>, r: nat, rest: nat, ghost a: nat, ghost t: nat) returns (b: nat)
    requires h.Valid() && r in h.cells && Small(h.cells, r) && a in h.vars && t !in h.vars && t < h.top
    modifies h
    ensures h.Valid() && h.top >= old(h.top) && b >= old(h.top) && Plus(old(h.vars), h.vars, b)
            && NodesSame(old(h.cells), old(h.rank), h.cells, h.rank)
    ensures h.RopeOf(a) == old(h.RopeOf(a)) && t !in h.vars
    ensures h.TextOf(b) == RopeSlice.Slice(old(Text(h.cells, h.rank, r)), 0, rest) && h.DepthAt(b) <= RopeTree.MAX_DEPTH
    decreases h.rank[r], 3
  {
    b := h.Fresh();
    SubstringNode(h, r, 0, rest, b);
    AllVarsSame(old(h.cells), old(h.rank), old(h.vars), h.cells, h.rank, h.vars);
    assert Unchanged(old(h.cells), old(h.rank), old(h.vars), h.cells, h.rank, h.vars, a);
  }

  lemma PlusApart(v0: Vars, v1: Vars, a: nat, t: nat)
    requires Plus(v0, v1, a) && t !in v0 && t != a
    ensures t !in v1 && a in v1
  {
  }

  lemma PlusThree(v0: Vars, v1: Vars, v2: Vars, a: nat, b: nat, t: nat)
    requires TwoMore(v0, v1, a, b) && Plus(v1, v2, t)
    ensures t !in v0 && a != t && b != t && v2.Keys == v0.Keys + {t, a, b}
            && forall m :: m in v0 ==> m in v2 && v2[m] == v0[m]
  {
  }

  lemma ShorterPieces<C>(s: seq<C>, i: nat, j: nat, t: seq<C>, k: nat, m: nat)
    ensures |RopeSlice.Slice(s, i, j)| <= |s| && |RopeSlice.Slice(t, k, m)| <= |t|
  {
  }

  /** The pieces go; what was there before them stays, and so does the result. */
  method DropPieces<C(!new)>(h: Heap<C>, a: nat, b: nat, t: nat, ghost cells0: Cells<C>, ghost rank0: Ranks,
                             ghost vars0: Vars, ghost count0: map<nat, nat>, ghost refs0: Refs)
    requires h.Valid() && Shape(cells0, rank0) && Counted(cells0, vars0, count0, refs0)
             && NodesSame(cells0, rank0, h.cells, h.rank)
    requires t in h.vars && t !in vars0 && a != t && b != t && a !in vars0 && b !in vars0 && a != b && a in h.vars
             && b in h.vars
    requires h.vars.Keys == vars0.Keys + {t, a, b} && forall m :: m in vars0 ==> h.vars[m] == vars0[m]
    modifies h
    ensures h.Valid() && h.top >= old(h.top) && Plus(vars0, h.vars, t) && NodesSame(cells0, rank0, h.cells, h.rank)
            && h.RopeOf(t) == old(h.RopeOf(t))
  {
    ghost var own, keep := vars0.Keys + {t}, OldAnd(cells0, h.vars, t);
    OldHeld(cells0, rank0, vars0, count0, refs0, h.cells, h.rank, h.vars, t);
    PiecesGone(vars0.Keys, h.vars.Keys, t, a, b);
    h.UnrefBoth(a, b, own, keep);
    OldKept(cells0, rank0, vars0, old(h.cells), h.rank, old(h.vars), h.cells, h.vars, t);
  }

  /** The result comes from a copy, or shares the old nodes. */
  method ConcatBeside<C(!new)>(h: Heap<C>, k: nat, s: seq<C>, t: nat)
    requires h.Valid() && k in h.vars && t !in h.vars && t < h.top && Room(h, k, |s|)
    modifies h
    ensures h.Valid() && h.vars.Keys == old(h.vars).Keys + {t} && h.TextOf(t) == old(h.TextOf(k)) + s
            && h.DepthAt(t) <= RopeTree.MAX_DEPTH
    ensures OthersSame(old(h.cells), old(h.rank), old(h.vars), h.cells, h.rank, h.vars, k)
  {
    if h.vars[k] == 0 {
      h.NewLeaf(s, t);
      assert [] + s == s;
      DepthIs(h, t);
    } else {
      ConcatChars(h, k, s, t);
    }
    OthersFromNodes(old(h.cells), old(h.rank), old(h.vars), h.cells, h.rank, h.vars, t, k);
  }

  /** `_S_destr_concat_char_iter`: the result is counted, held by `t`. Where the rope of `k` may be clobbered, it is. */
  method DestrConcat<C(!new)>(h: Heap<C>, k: nat, s: seq<C>, t: nat)
    requires h.Valid() && k in h.vars && t !in h.vars && t < h.top && Room(h, k, |s|)
    modifies h
    ensures h.Valid() && h.vars.Keys == old(h.vars).Keys + {t} && h.TextOf(t) == old(h.TextOf(k)) + s
            && h.DepthAt(t) <= RopeTree.MAX_DEPTH
    ensures OthersSame(old(h.cells), old(h.rank), old(h.vars), h.cells, h.rank, h.vars, k)
  {
    if h.vars[k] != 0 {
      h.Known(k);
    }
    if h.vars[k] == 0 || h.count[h.vars[k]] > 1 || s == [] {
      ConcatBeside(h, k, s, t);
    } else {
      DestrOwn(h, k, s, t);
    }
  }

  method AddBeside<C(!new)>(h: Heap<C>, k: nat, t: nat)
    requires h.Valid() && k in h.vars && t !in h.vars && t < h.top
    modifies h
    ensures h.Valid() && h.vars.Keys == old(h.vars).Keys + {t} && h.RopeOf(t) == old(h.RopeOf(k))
    ensures OthersSame(old(h.cells), old(h.rank), old(h.vars), h.cells, h.rank, h.vars, k)
  {
    h.AddVar(h.vars[k], t);
  }

  method AfterGrow<C(!new)>(h: Heap<C>, done: bool, k: nat, s: seq<C>, t: nat)
    requires h.Valid() && k in h.vars && t !in h.vars && t < h.top && Room(h, k, if done then 0 else |s|)
    modifies h
    ensures h.Valid() && h.vars.Keys == old(h.vars).Keys + {t}
            && h.TextOf(t) == old(h.TextOf(k)) + (if done then [] else s) && h.DepthAt(t) <= RopeTree.MAX_DEPTH
    ensures OthersSame(old(h.cells), old(h.rank), old(h.vars), h.cells, h.rank, h.vars, k)
  {
    if done {
      AddBeside(h, k, t);
      assert h.TextOf(t) + [] == h.TextOf(t);
    } else {
      ConcatBeside(h, k, s, t);
    }
  }

  /** The rope is held by `k` alone. */
  method DestrOwn<C(!new)>(h: Heap<C>, k: nat, s: seq<C>, t: nat)
    requires h.Valid() && k in h.vars && t !in h.vars && t < h.top && h.vars[k] in h.cells && h.vars[k] in h.count
             && h.count[h.vars[k]] == 1 && s != [] && Room(h, k, |s|)
    modifies h
    ensures h.Valid() && h.vars.Keys == old(h.vars).Keys + {t} && h.TextOf(t) == old(h.TextOf(k)) + s
            && h.DepthAt(t) <= RopeTree.MAX_DEPTH
    ensures OthersSame(old(h.cells), old(h.rank), old(h.vars), h.cells, h.rank, h.vars, k)
  {
    var done := h.Grow(k, s);
    ghost var c1, r1, v1 := h.cells, h.rank, h.vars;
    AfterGrow(h, done, k, s, t);
    OthersTrans(old(h.cells), old(h.rank), old(h.vars), c1, r1, v1, h.cells, h.rank, h.vars, k, k);
  }

  // ---------- ropes ----------

  /** Every rope is of legal size and depth; this every operation on ropes keeps. */
  ghost predicate Legal<C(!new)>(h: Heap<C>)
    reads h
  {
    h.Valid() && forall k :: k in h.vars ==> Room(h, k, 0)
  }

  /** All the ropes. */
  ghost function Ropes<C(!new)>(h: Heap<C>): map<nat, (seq<C>, nat)>
    reads h
    requires h.Valid()
  {
    map m | m in h.vars :: h.RopeOf(m)
  }

  lemma AllLegal<C(!new)>(h: Heap<C>)
    requires Legal(h)
    ensures forall m :: m in Ropes(h) ==> |Ropes(h)[m].0| <= RopeTree.MAX_SIZE && Ropes(h)[m].1 <= RopeTree.MAX_DEPTH
  {
    forall m | m in Ropes(h) ensures |Ropes(h)[m].0| <= RopeTree.MAX_SIZE && Ropes(h)[m].1 <= RopeTree.MAX_DEPTH {
      assert Room(h, m, 0);
    }
  }

  /** Where only rope `k` has changed, and is legal, all are. */
  lemma StillLegal<C(!new)>(h: Heap<C>, k: nat, ropes: map<nat, (seq<C>, nat)>)
    requires h.Valid() && h.vars.Keys == ropes.Keys && k in h.vars && Room(h, k, 0)
    requires forall m :: m in h.vars && m != k ==> h.RopeOf(m) == ropes[m]
    requires forall m :: m in ropes ==> |ropes[m].0| <= RopeTree.MAX_SIZE && ropes[m].1 <= RopeTree.MAX_DEPTH
    ensures Legal(h)
  {
    forall m | m in h.vars ensures Room(h, m, 0) {
      assert m != k ==> h.RopeOf(m) == ropes[m];
    }
  }

  /** A new rope that is legal, beside those there were. */
  lemma NewLegal<C(!new)>(h: Heap<C>, t: nat, ropes: map<nat, (seq<C>, nat)>)
    requires h.Valid() && h.vars.Keys == ropes.Keys + {t} && Room(h, t, 0)
    requires forall m :: m in ropes ==> h.RopeOf(m) == ropes[m]
    requires forall m :: m in ropes ==> |ropes[m].0| <= RopeTree.MAX_SIZE && ropes[m].1 <= RopeTree.MAX_DEPTH
    ensures Legal(h)
  {
    forall m | m in h.vars ensures Room(h, m, 0) {
      assert m != t ==> m in ropes && h.RopeOf(m) == ropes[m];
    }
  }

  /** `append(s)`: the text of this rope grows by `s`; no other rope changes, however they share nodes. */
  method Append<C(!new)>(h: Heap<C>, k: nat, s: seq<C>)
    requires Legal(h) && k in h.vars && |h.TextOf(k)| + |s| <= RopeTree.MAX_SIZE
    modifies h
    ensures Legal(h) && h.vars.Keys == old(h.vars).Keys && h.TextOf(k) == old(h.TextOf(k)) + s
    ensures forall m :: m in h.vars && m != k ==> h.RopeOf(m) == old(h.RopeOf(m))
  {
    ghost var ropes := Ropes(h);
    AllLegal(h);
    assert Room(h, k, 0);
    var t := AddChars(h, k, s);
    OneBack(old(h.vars).Keys, t);
    h.Assign(k, t);
    StillLegal(h, k, ropes);
  }

  /** `_S_destr_concat_char_iter` for a new temporary. */
  method AddChars<C(!new)>(h: Heap<C>, k: nat, s: seq<C>) returns (t: nat)
    requires h.Valid() && k in h.vars && Room(h, k, |s|)
    modifies h
    ensures h.Valid() && t !in old(h.vars) && h.vars.Keys == old(h.vars).Keys + {t}
            && h.TextOf(t) == old(h.TextOf(k)) + s && h.DepthAt(t) <= RopeTree.MAX_DEPTH
    ensures forall m :: m in old(h.vars) && m != k ==> m in h.vars && h.RopeOf(m) == old(h.RopeOf(m))
  {
    t := h.Fresh();
    DestrConcat(h, k, s, t);
    assert forall m :: m in old(h.vars) && m != k ==>
             SameNode(old(h.cells), old(h.rank), h.cells, h.rank, old(h.vars)[m]);
  }

  /** `substr`: a rope of the characters from `p` up to `q`. */
  method Substr<C(!new)>(h: Heap<C>, k: nat, p: nat, q: nat) returns (t: nat)
    requires h.Valid() && k in h.vars && Room(h, k, 0)
    modifies h
    ensures h.Valid() && t !in old(h.vars) && h.vars.Keys == old(h.vars).Keys + {t}
    ensures h.TextOf(t) == RopeSlice.Slice(old(h.TextOf(k)), p, q) && h.DepthAt(t) <= RopeTree.MAX_DEPTH
    ensures var text := old(h.TextOf(k));
            && (p <= q <= |text| ==> h.TextOf(t) == text[p..q])
            && (p <= |text| < q ==> h.TextOf(t) == text[p..])
            && (p > |text| || p > q ==> h.TextOf(t) == [])
    ensures forall m :: m in old(h.vars) ==> m in h.vars && h.RopeOf(m) == old(h.RopeOf(m))
  {
    RopeSlice.SliceIs(h.TextOf(k), p, q);
    t := Cut(h, k, p, q);
  }

  method Cut<C(!new)>(h: Heap<C>, k: nat, p: nat, q: nat) returns (t: nat)
    requires h.Valid() && k in h.vars && Room(h, k, 0)
    modifies h
    ensures h.Valid() && t !in old(h.vars) && h.vars.Keys == old(h.vars).Keys + {t}
    ensures h.TextOf(t) == RopeSlice.Slice(old(h.TextOf(k)), p, q) && h.DepthAt(t) <= RopeTree.MAX_DEPTH
    ensures forall m :: m in old(h.vars) ==> m in h.vars && h.RopeOf(m) == old(h.RopeOf(m))
  {
    t := h.Fresh();
    if h.vars[k] == 0 {
      h.AddVar(0, t);
    } else {
      h.Known(k);
      SubstringNode(h, h.vars[k], p, q, t);
    }
    AllVarsSame(old(h.cells), old(h.rank), old(h.vars), h.cells, h.rank, h.vars);
  }

  /** `_S_concat` for a new temporary. */
  method JoinTexts<C(!new)>(h: Heap<C>, a: nat, b: nat) returns (t: nat)
    requires h.Valid() && a in h.vars && b in h.vars && Room(h, a, |h.TextOf(b)|) && h.DepthAt(b) <= RopeTree.MAX_DEPTH
    modifies h
    ensures h.Valid() && t !in old(h.vars) && h.vars.Keys == old(h.vars).Keys + {t}
    ensures h.TextOf(t) == old(h.TextOf(a)) + old(h.TextOf(b)) && h.DepthAt(t) <= RopeTree.MAX_DEPTH
    ensures forall m :: m in old(h.vars) ==> m in h.vars && h.RopeOf(m) == old(h.RopeOf(m))
  {
    t := h.Fresh();
    ConcatVars(h, a, b, t);
    AllVarsSame(old(h.cells), old(h.rank), old(h.vars), h.cells, h.rank, h.vars);
  }

  /** The pieces before position `p` and from position `q` on. */
  method Around<C(!new)>(h: Heap<C>, k: nat, p: nat, q: nat) returns (l: nat, r: nat)
    requires h.Valid() && k in h.vars && h.vars[k] != 0 && Room(h, k, 0)
    modifies h
    ensures h.Valid() && KeysPlus(old(h.vars).Keys, h.vars.Keys, l, r) && h.DepthAt(l) <= RopeTree.MAX_DEPTH
            && h.DepthAt(r) <= RopeTree.MAX_DEPTH
    ensures forall m :: m in old(h.vars) ==> m in h.vars && h.RopeOf(m) == old(h.RopeOf(m))
    ensures h.TextOf(l) == RopeSlice.Slice(old(h.TextOf(k)), 0, p)
            && h.TextOf(r) == RopeSlice.Slice(old(h.TextOf(k)), q, |old(h.TextOf(k))|)
  {
    h.Known(k);
    var size := SizeOf(h.cells[h.vars[k]]);
    l := Cut(h, k, 0, p);
    r := Cut(h, k, q, size);
  }

  /** `append` of a rope, which may be this one. */
  method AppendRope<C(!new)>(h: Heap<C>, k: nat, j: nat)
    requires Legal(h) && k in h.vars && j in h.vars && |h.TextOf(k)| + |h.TextOf(j)| <= RopeTree.MAX_SIZE
    modifies h
    ensures Legal(h) && h.vars.Keys == old(h.vars).Keys && h.TextOf(k) == old(h.TextOf(k)) + old(h.TextOf(j))
    ensures forall m :: m in h.vars && m != k ==> h.RopeOf(m) == old(h.RopeOf(m))
  {
    ghost var ropes := Ropes(h);
    AllLegal(h);
    assert Room(h, k, 0) && Room(h, j, 0);
    var t := JoinTexts(h, k, j);
    OneBack(old(h.vars).Keys, t);
    h.Assign(k, t);
    StillLegal(h, k, ropes);
  }

  /** `replace` of `n` characters from position `p` on by a rope, which may be this one; with `n` zero, `insert`. */
  method Replace<C(!new)>(h: Heap<C>, k: nat, p: nat, n: nat, j: nat)
    requires Legal(h) && k in h.vars && j in h.vars
    requires p + n <= |h.TextOf(k)| ==> |h.TextOf(k)| - n + |h.TextOf(j)| <= RopeTree.MAX_SIZE
    requires p <= |h.TextOf(k)| < p + n ==> p + |h.TextOf(j)| <= RopeTree.MAX_SIZE
    requires p > |h.TextOf(k)| ==> |h.TextOf(k)| + |h.TextOf(j)| <= RopeTree.MAX_SIZE
    modifies h
    ensures Legal(h) && h.vars.Keys == old(h.vars).Keys
    ensures var text, other := old(h.TextOf(k)), old(h.TextOf(j));
            && (p + n <= |text| ==> h.TextOf(k) == text[..p] + other + text[p + n..])
            && (p <= |text| < p + n ==> h.TextOf(k) == text[..p] + other)
            && (p > |text| ==> h.TextOf(k) == text + other)
    ensures forall m :: m in h.vars && m != k ==> h.RopeOf(m) == old(h.RopeOf(m))
  {
    ghost var text, other := h.TextOf(k), h.TextOf(j);
    ReplacedIs(text, p, n, other, Replaced(text, p, p + n, other));
    ReplaceSlices(h, k, p, n, j);
    ReplacedIs(text, p, n, other, h.TextOf(k));
  }

  lemma ReplacedIs<C>(text: seq<C>, p: nat, n: nat, with: seq<C>, now: seq<C>)
    requires now == Replaced(text, p, p + n, with)
    ensures p + n <= |text| ==> now == text[..p] + with + text[p + n..]
    ensures p <= |text| < p + n ==> now == text[..p] + with
    ensures p > |text| ==> now == text + with
  {
    RopeSlice.SliceIs(text, 0, p);
    RopeSlice.SliceIs(text, p + n, |text|);
    assert p <= |text| ==> text[0..p] == text[..p];
  }

  method ReplaceSlices<C(!new)>(h: Heap<C>, k: nat, p: nat, n: nat, j: nat)
    requires Legal(h) && k in h.vars && j in h.vars
    requires |Replaced(h.TextOf(k), p, p + n, h.TextOf(j))| <= RopeTree.MAX_SIZE
    modifies h
    ensures Legal(h) && h.vars.Keys == old(h.vars).Keys
            && h.TextOf(k) == Replaced(old(h.TextOf(k)), p, p + n, old(h.TextOf(j)))
    ensures forall m :: m in h.vars && m != k ==> h.RopeOf(m) == old(h.RopeOf(m))
  {
    NoPieces(h.TextOf(k), h.TextOf(j), p, p + n);
    if h.vars[k] == 0 {
      AppendRope(h, k, j);
    } else if h.vars[j] == 0 {
      EraseSlices(h, k, p, n);
    } else {
      ReplaceBy(h, k, p, p + n, j);
    }
  }

  /** The slice before `p`, other characters, and the slice from `q` on. */
  ghost function Replaced<C>(text: seq<C>, p: nat, q: nat, with: seq<C>): seq<C> {
    RopeSlice.Slice(text, 0, p) + with + RopeSlice.Slice(text, q, |text|)
  }

  method ReplaceBy<C(!new)>(h: Heap<C>, k: nat, p: nat, q: nat, j: nat)
    requires Legal(h) && k in h.vars && j in h.vars && h.vars[k] != 0
    requires |Replaced(h.TextOf(k), p, q, h.TextOf(j))| <= RopeTree.MAX_SIZE
    modifies h
    ensures Legal(h) && h.vars.Keys == old(h.vars).Keys
            && h.TextOf(k) == Replaced(old(h.TextOf(k)), p, q, old(h.TextOf(j)))
    ensures forall m :: m in h.vars && m != k ==> h.RopeOf(m) == old(h.RopeOf(m))
  {
    ghost var ropes := Ropes(h);
    AllLegal(h);
    assert Room(h, k, 0) && Room(h, j, 0);
    var l, r, s, t := Patch(h, k, p, q, j);
    Install(h, k, t, s, r, l);
    StillLegal(h, k, ropes);
  }

  /** The pieces, and the rope with the other one between them. */
  method Patch<C(!new)>(h: Heap<C>, k: nat, p: nat, q: nat, j: nat) returns (l: nat, r: nat, s: nat, t: nat)
    requires h.Valid() && k in h.vars && j in h.vars && h.vars[k] != 0 && Room(h, k, 0) && Room(h, j, 0)
    requires |Replaced(h.TextOf(k), p, q, h.TextOf(j))| <= RopeTree.MAX_SIZE
    modifies h
    ensures h.Valid() && t in h.vars && s in h.vars && r in h.vars && l in h.vars && k !in {t, s, r, l}
            && t !in {s, r, l} && s != r && s != l && r != l
    ensures h.vars.Keys - {t} - {s, r, l} == old(h.vars).Keys
    ensures forall m :: m in old(h.vars) ==> m in h.vars && h.RopeOf(m) == old(h.RopeOf(m))
    ensures h.TextOf(t) == Replaced(old(h.TextOf(k)), p, q, old(h.TextOf(j))) && h.DepthAt(t) <= RopeTree.MAX_DEPTH
  {
    l, r := Around(h, k, p, q);
    ghost var ks := h.vars.Keys;
    s, t := MendWith(h, l, j, r);
    TempsGone(old(h.vars).Keys, ks, h.vars.Keys, l, r, s, t);
  }

  /** Three ropes put together. */
  method MendWith<C(!new)>(h: Heap<C>, l: nat, j: nat, r: nat) returns (s: nat, t: nat)
    requires h.Valid() && l in h.vars && j in h.vars && r in h.vars && Room(h, l, |h.TextOf(j)| + |h.TextOf(r)|)
    requires h.DepthAt(j) <= RopeTree.MAX_DEPTH && h.DepthAt(r) <= RopeTree.MAX_DEPTH
    modifies h
    ensures h.Valid() && KeysPlus(old(h.vars).Keys, h.vars.Keys, s, t)
    ensures forall m :: m in old(h.vars) ==> m in h.vars && h.RopeOf(m) == old(h.RopeOf(m))
    ensures h.TextOf(t) == old(h.TextOf(l)) + old(h.TextOf(j)) + old(h.TextOf(r)) && h.DepthAt(t) <= RopeTree.MAX_DEPTH
  {
    s := JoinTexts(h, l, j);
    ghost var ks := h.vars.Keys;
    t := JoinTexts(h, s, r);
    OneAndOne(old(h.vars).Keys, ks, h.vars.Keys, s, t);
  }

  lemma OneBack(ks: set<nat>, t: nat)
    requires t !in ks
    ensures ks + {t} - {t} == ks
  {
  }

  lemma OneAndOne(ks: set<nat>, ks1: set<nat>, ks2: set<nat>, s: nat, t: nat)
    requires s !in ks && ks1 == ks + {s} && t !in ks1 && ks2 == ks1 + {t}
    ensures KeysPlus(ks, ks2, s, t)
  {
  }

  /** `erase(p, n)`. */
  method Erase<C(!new)>(h: Heap<C>, k: nat, p: nat, n: nat)
    requires Legal(h) && k in h.vars
    modifies h
    ensures Legal(h) && h.vars.Keys == old(h.vars).Keys
    ensures var text := old(h.TextOf(k));
            && (p + n <= |text| ==> h.TextOf(k) == text[..p] + text[p + n..])
            && (p <= |text| < p + n ==> h.TextOf(k) == text[..p])
            && (p > |text| ==> h.TextOf(k) == text)
    ensures Without(old(h.TextOf(k)), p, n, h.TextOf(k))
    ensures forall m :: m in h.vars && m != k ==> h.RopeOf(m) == old(h.RopeOf(m))
  {
    ghost var text := h.TextOf(k);
    EraseSlices(h, k, p, n);
    ErasedIs(text, p, n, h.TextOf(k));
  }

  lemma ErasedIs<C>(text: seq<C>, p: nat, n: nat, now: seq<C>)
    requires Without(text, p, n, now)
    ensures p + n <= |text| ==> now == text[..p] + text[p + n..]
    ensures p <= |text| < p + n ==> now == text[..p]
    ensures p > |text| ==> now == text
  {
    RopeSlice.SliceIs(text, 0, p);
    RopeSlice.SliceIs(text, p + n, |text|);
    assert p <= |text| ==> text[0..p] == text[..p];
  }

  method EraseSlices<C(!new)>(h: Heap<C>, k: nat, p: nat, n: nat)
    requires Legal(h) && k in h.vars
    modifies h
    ensures Legal(h) && h.vars.Keys == old(h.vars).Keys && Without(old(h.TextOf(k)), p, n, h.TextOf(k))
    ensures forall m :: m in h.vars && m != k ==> h.RopeOf(m) == old(h.RopeOf(m))
  {
    ghost var ropes := Ropes(h);
    AllLegal(h);
    assert Room(h, k, 0);
    if h.vars[k] != 0 {
      ErasedShorter(h.TextOf(k), p, p + n);
      var l, r, t := CutOut(h, k, p, p + n);
      InstallPair(h, k, t, r, l);
    }
    StillLegal(h, k, ropes);
  }

  ghost function Erased<C>(text: seq<C>, p: nat, q: nat): seq<C> {
    RopeSlice.Slice(text, 0, p) + RopeSlice.Slice(text, q, |text|)
  }

  /** The `n` characters from `p` on are gone. */
  ghost predicate Without<C>(text: seq<C>, p: nat, n: nat, now: seq<C>) {
    now == Erased(text, p, p + n)
  }

  /**
   `erase(p)`, which passes `p + 1` where `erase` expects a length: it takes out just the character at `p` if and only
   if that is the first or the last.
   */
  method EraseOne<C(!new)>(h: Heap<C>, k: nat, p: nat)
    requires Legal(h) && k in h.vars
    modifies h
    ensures Legal(h) && h.vars.Keys == old(h.vars).Keys && Without(old(h.TextOf(k)), p, p + 1, h.TextOf(k))
    ensures OneGone(old(h.TextOf(k)), p, h.TextOf(k)) <==> AtEnd(old(h.TextOf(k)), p)
    ensures forall m :: m in h.vars && m != k ==> h.RopeOf(m) == old(h.RopeOf(m))
  {
    ghost var text := h.TextOf(k);
    Erase(h, k, p, p + 1);
    EraseOneExactly(text, p, h.TextOf(k));
  }

  lemma ErasedShorter<C>(text: seq<C>, p: nat, q: nat)
    requires p <= q
    ensures |Erased(text, p, q)| <= |text|
  {
  }

  /** Just the character at `p` is gone. */
  ghost predicate OneGone<C>(text: seq<C>, p: nat, now: seq<C>) {
    p < |text| && now == text[..p] + text[p + 1..]
  }

  /** `p` is the first or the last position. */
  predicate AtEnd<C>(text: seq<C>, p: nat) {
    p < |text| && (p == 0 || p == |text| - 1)
  }

  lemma EraseOneExactly<C>(text: seq<C>, p: nat, now: seq<C>)
    requires Without(text, p, p + 1, now)
    ensures OneGone(text, p, now) <==> AtEnd(text, p)
  {
    if 0 < p < |text| - 1 {
      assert |now| != |text[..p] + text[p + 1..]|;
    }
  }

  /** The character at position 2 of six is erased: three go. */
  method EraseOneTakesThree() returns (h: Heap<char>, k: nat, ghost was: string)
    ensures fresh(h) && Legal(h) && k in h.vars && was == "abcdef" && h.TextOf(k) == "abf"
  {
    h, k := MakeRope("abcdef");
    was := h.TextOf(k);
    EraseOne(h, k, 2);
    ThreeOfSix(h.TextOf(k));
  }

  /** A rope of the characters of `s`, the only one. */
  method MakeRope<C(!new)>(s: seq<C>) returns (h: Heap<C>, k: nat)
    requires |s| <= RopeTree.MAX_SIZE
    ensures fresh(h) && Legal(h) && h.vars.Keys == {k} && h.TextOf(k) == s
  {
    h := new Heap();
    k := h.Fresh();
    h.NewLeaf(s, k);
    DepthIs(h, k);
    assert Room(h, k, 0);
  }

  /** A rope of the `n` characters that a producer gives for the positions from 0 on; no other rope changes. */
  method MakeFromProducer<C(!new)>(h: Heap<C>, fn: nat -> C, n: nat) returns (t: nat)
    requires Legal(h) && n <= RopeTree.MAX_SIZE
    modifies h
    ensures Legal(h) && t !in old(h.vars) && h.vars.Keys == old(h.vars).Keys + {t}
    ensures |h.TextOf(t)| == n && forall i :: 0 <= i < n ==> h.TextOf(t)[i] == fn(i)
    ensures forall m :: m in old(h.vars) ==> m in h.vars && h.RopeOf(m) == old(h.RopeOf(m))
  {
    ghost var ropes := Ropes(h);
    AllLegal(h);
    t := AddFunction(h, fn, n);
    NewLegal(h, t, ropes);
  }

  method AddFunction<C(!new)>(h: Heap<C>, fn: nat -> C, n: nat) returns (t: nat)
    requires h.Valid()
    modifies h
    ensures h.Valid() && t !in old(h.vars) && h.vars.Keys == old(h.vars).Keys + {t} && h.DepthAt(t) == 0
    ensures |h.TextOf(t)| == n && forall i :: 0 <= i < n ==> h.TextOf(t)[i] == fn(i)
    ensures forall m :: m in old(h.vars) ==> m in h.vars && h.RopeOf(m) == old(h.RopeOf(m))
  {
    t := h.Fresh();
    h.NewFunction(fn, n, t);
    AllVarsSame(old(h.cells), old(h.rank), old(h.vars), h.cells, h.rank, h.vars);
  }

  lemma ThreeOfSix(now: string)
    requires Without("abcdef", 2, 2 + 1, now)
    ensures now == "abf"
  {
    var text := "abcdef";
    assert text[0..2] == "ab" && text[5..6] == "f";
  }

  /** The pieces, and the rope of the two. */
  method CutOut<C(!new)>(h: Heap<C>, k: nat, p: nat, q: nat) returns (l: nat, r: nat, t: nat)
    requires h.Valid() && k in h.vars && h.vars[k] != 0 && Room(h, k, 0)
             && |Erased(h.TextOf(k), p, q)| <= RopeTree.MAX_SIZE
    modifies h
    ensures h.Valid() && l in h.vars && r in h.vars && t in h.vars && k !in {t, r, l} && t !in {r, l} && r != l
    ensures h.vars.Keys - {t} - {r} - {l} == old(h.vars).Keys
    ensures forall m :: m in old(h.vars) ==> m in h.vars && h.RopeOf(m) == old(h.RopeOf(m))
    ensures h.TextOf(t) == Erased(old(h.TextOf(k)), p, q) && h.DepthAt(t) <= RopeTree.MAX_DEPTH
  {
    l, r := Around(h, k, p, q);
    ghost var ks := h.vars.Keys;
    t := JoinTexts(h, l, r);
    ThreeGone(old(h.vars).Keys, ks, h.vars.Keys, l, r, t);
  }

  method InstallPair<C(!new)>(h: Heap<C>, k: nat, t: nat, r: nat, l: nat)
    requires h.Valid() && k in h.vars && t in h.vars && r in h.vars && l in h.vars && k !in {t, r, l} && t !in {r, l}
             && r != l
    modifies h
    ensures h.Valid() && h.vars.Keys == old(h.vars).Keys - {t} - {r} - {l} && h.RopeOf(k) == old(h.RopeOf(t))
    ensures forall m :: m in h.vars && m != k ==> h.RopeOf(m) == old(h.RopeOf(m))
  {
    h.Assign(k, t);
    h.DropTemp(r);
    h.DropTemp(l);
  }

  /** The result is assigned, and the temporaries go. */
  method Install<C(!new)>(h: Heap<C>, k: nat, t: nat, s: nat, r: nat, l: nat)
    requires h.Valid() && k in h.vars && t in h.vars && s in h.vars && r in h.vars && l in h.vars
    requires k !in {t, s, r, l} && t !in {s, r, l} && s != r && s != l && r != l
    modifies h
    ensures h.Valid() && h.vars.Keys == old(h.vars).Keys - {t} - {s, r, l} && h.RopeOf(k) == old(h.RopeOf(t))
    ensures forall m :: m in h.vars && m != k ==> h.RopeOf(m) == old(h.RopeOf(m))
  {
    h.Assign(k, t);
    h.DropTemps(s, r, l);
  }

  /**
   Assigning to a character of a rope, in place or, where a node on the way is shared, by a new rope of the pieces
   around it: this rope has the new character, and every other rope its old text.
   */
  method PutChar<C(!new)>(h: Heap<C>, k: nat, i: nat, c: C)
    requires Legal(h) && k in h.vars && i < |h.TextOf(k)|
    modifies h
    ensures Legal(h) && h.vars.Keys == old(h.vars).Keys && h.TextOf(k) == old(h.TextOf(k))[i := c]
    ensures forall m :: m in h.vars && m != k ==> h.RopeOf(m) == old(h.RopeOf(m))
  {
    ghost var ropes := Ropes(h);
    AllLegal(h);
    assert Room(h, k, 0);
    PutAnywhere(h, k, i, c);
    StillLegal(h, k, ropes);
  }

  method PutAnywhere<C(!new)>(h: Heap<C>, k: nat, i: nat, c: C)
    requires h.Valid() && k in h.vars && h.vars[k] != 0 && i < |h.TextOf(k)| && Room(h, k, 0)
    modifies h
    ensures h.Valid() && h.vars.Keys == old(h.vars).Keys && h.TextOf(k) == old(h.TextOf(k))[i := c]
            && h.DepthAt(k) <= RopeTree.MAX_DEPTH
    ensures forall m :: m in h.vars && m != k ==> h.RopeOf(m) == old(h.RopeOf(m))
  {
    var done := h.PutInPlace(k, i, c);
    assert forall m :: m in h.vars && m != k ==> SameNode(old(h.cells), old(h.rank), h.cells, h.rank, h.vars[m]);
    if !done {
      PutByPieces(h, k, i, c);
    }
  }

  method PutByPieces<C(!new)>(h: Heap<C>, k: nat, i: nat, c: C)
    requires h.Valid() && k in h.vars && h.vars[k] != 0 && i < |h.TextOf(k)| && Room(h, k, 0)
    modifies h
    ensures h.Valid() && h.vars.Keys == old(h.vars).Keys && h.TextOf(k) == old(h.TextOf(k))[i := c]
            && h.DepthAt(k) <= RopeTree.MAX_DEPTH
    ensures forall m :: m in h.vars && m != k ==> h.RopeOf(m) == old(h.RopeOf(m))
  {
    PutBetween(h.TextOf(k), i, c);
    var l, r := Around(h, k, i, i + 1);
    ghost var ks := h.vars.Keys;
    var s, t := Mend(h, l, r, c);
    TempsGone(old(h.vars).Keys, ks, h.vars.Keys, l, r, s, t);
    Install(h, k, t, s, r, l);
  }

  /** The first piece, the new character and the second piece; `l` may be clobbered on the way. */
  method Mend<C(!new)>(h: Heap<C>, l: nat, r: nat, c: C) returns (s: nat, t: nat)
    requires h.Valid() && l in h.vars && r in h.vars && l != r && Room(h, l, 1 + |h.TextOf(r)|)
             && h.DepthAt(r) <= RopeTree.MAX_DEPTH
    modifies h
    ensures h.Valid() && KeysPlus(old(h.vars).Keys, h.vars.Keys, s, t)
            && h.TextOf(t) == old(h.TextOf(l)) + [c] + old(h.TextOf(r)) && h.DepthAt(t) <= RopeTree.MAX_DEPTH
    ensures forall m :: m in old(h.vars) && m != l ==> m in h.vars && h.RopeOf(m) == old(h.RopeOf(m))
  {
    s := AddChars(h, l, [c]);
    ghost var ks := h.vars.Keys;
    t := JoinTexts(h, s, r);
    OneAndOne(old(h.vars).Keys, ks, h.vars.Keys, s, t);
  }

  ghost predicate Unchanged<C>(c0: Cells<C>, r0: Ranks, v0: Vars, c1: Cells<C>, r1: Ranks, v1: Vars, m: nat)
    requires Shape(c0, r0) && Shape(c1, r1) && m in v0 && m in v1
  {
    v1[m] == v0[m] && SameNode(c0, r0, c1, r1, v0[m])
  }

  /** Two new names. */
  ghost predicate KeysPlus(ks: set<nat>, ks': set<nat>, a: nat, b: nat) {
    a !in ks && b !in ks && a != b && ks' == ks + {a, b}
  }

  /** A slice of a lazy slice is a slice of its base. */
  lemma NestedText<C>(cells: Cells<C>, rank: Ranks, x: nat, start: nat, len: nat)
    requires Shape(cells, rank) && x in cells && cells[x].Substring? && cells[x].base in cells
    requires 0 < len && start + len <= |Text(cells, rank, x)|
    ensures var i, base := start + cells[x].start, Text(cells, rank, cells[x].base);
            i + len <= |base| && Text(cells, rank, x)[start..start + len] == base[i..i + len]
  {
    SliceOfSlice(Text(cells, rank, cells[x].base), cells[x].start, Text(cells, rank, x), start, len);
  }

  lemma PiecesGone(ks: set<nat>, all: set<nat>, t: nat, a: nat, b: nat)
    requires all == ks + {t, a, b} && a !in ks && b !in ks && t != a && t != b
    ensures all - {a, b} == ks + {t}
  {
  }

  lemma PutBetween<C>(text: seq<C>, i: nat, c: C)
    requires i < |text|
    ensures text[..i] + [c] + text[i + 1..] == text[i := c]
    ensures RopeSlice.Slice(text, 0, i) == text[..i] && RopeSlice.Slice(text, i + 1, |text|) == text[i + 1..]
  {
  }

  lemma ThreeGone(ks: set<nat>, ks1: set<nat>, ks2: set<nat>, l: nat, r: nat, t: nat)
    requires KeysPlus(ks, ks1, l, r) && t !in ks1 && ks2 == ks1 + {t}
    ensures ks2 - {t} - {r} - {l} == ks
  {
  }

  lemma TempsGone(ks: set<nat>, ks1: set<nat>, ks2: set<nat>, l: nat, r: nat, s: nat, t: nat)
    requires KeysPlus(ks, ks1, l, r) && KeysPlus(ks1, ks2, s, t)
    ensures ks2 - {t} - {s, r, l} == ks && l in ks2 && r in ks2 && s in ks2 && t in ks2 && t !in {s, r, l}
            && s !in {r, l}
  {
  }

  /** Where no node has changed, no text has. */
  lemma AllVarsSame<C>(c0: Cells<C>, r0: Ranks, v0: Vars, c1: Cells<C>, r1: Ranks, v1: Vars)
    requires Shape(c0, r0) && Shape(c1, r1) && NodesSame(c0, r0, c1, r1)
    requires forall m :: m in v0 ==> (v0[m] != 0 ==> v0[m] in c0) && m in v1 && v1[m] == v0[m]
    ensures forall m :: m in v0 ==> Unchanged(c0, r0, v0, c1, r1, v1, m)
  {
    forall m | m in v0 ensures Unchanged(c0, r0, v0, c1, r1, v1, m) {
      assert v0[m] != 0 ==> SameNode(c0, r0, c1, r1, v0[m]);
      VarSame(c0, r0, v0, c1, r1, v1, m);
    }
  }

  lemma NoPieces<C>(text: seq<C>, with: seq<C>, p: nat, q: nat)
    ensures text == [] ==> RopeSlice.Slice(text, 0, p) + with + RopeSlice.Slice(text, q, |text|) == text + with
    ensures with == [] ==> RopeSlice.Slice(text, 0, p) + with == RopeSlice.Slice(text, 0, p)
    ensures with == [] ==> text + with == text && with + text == text
  {
  }
}
