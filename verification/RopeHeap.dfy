/**
 Nodes of ropes, their counts and the variables that hold them: making nodes, changing them in place, releasing them
 (headers/cpp/ropeimpl.h:327-436, 1229-1270, 1444-1470).
 */
module RopeHeap {
  import opened RopeShare
  import opened RopeKeep
  import opened RopeInPlace
  import RopeTree
  import RopeConcat

  /** `_S_allocated_capacity` for a basic character type (headers/cpp/stl_rope.h:542-549, 1417-1423). */
  function Capacity(n: nat): nat {
    (n + 8) / 8 * 8 - 1
  }

  /**
   A leaf keeps its block while it grows within it: the capacity computed from the new length is that computed from the
   old one, so that every later test is against the block that is there.
   */
  lemma CapacityStays(n: nat, m: nat)
    requires n <= m <= Capacity(n)
    ensures Capacity(m) == Capacity(n)
  {
    var q := (n + 8) / 8;
    assert 8 * q <= m + 8 < 8 * q + 8;
    assert (m + 8) / 8 == q;
  }

  class Heap<C(!new)> {
    var cells: Cells<C>
    var count: map<nat, nat>
    var cstr: map<nat, seq<C>>
    var unused: nat
    var vars: Vars
    var top: nat
    ghost var rank: Ranks
    ghost var refs: Refs

    ghost predicate Valid()
      reads this
    {
      Ok(cells, rank, vars, count, refs, cstr, unused) && forall k :: k in vars ==> k < top
    }

    /** The text of variable `k`. */
    ghost function TextOf(k: nat): seq<C>
      reads this
      requires Valid() && k in vars
    {
      if vars[k] == 0 then [] else Text(cells, rank, vars[k])
    }

    /** The rope of variable `k`, as a value. */
    ghost function ValOf(k: nat): RopeTree.Rope<C>
      reads this
      requires Valid() && k in vars
    {
      PtrVal(cells, rank, vars[k])
    }

    /** The depth of the rope of variable `k`. */
    ghost function DepthAt(k: nat): nat
      reads this
      requires Valid() && k in vars
    {
      if vars[k] == 0 then 0 else DepthOf(cells[vars[k]])
    }

    /** What there is to know of variable `k`: the text and the depth. */
    ghost function RopeOf(k: nat): (seq<C>, nat)
      reads this
      requires Valid() && k in vars
    {
      (TextOf(k), DepthAt(k))
    }

    constructor ()
      ensures Valid() && vars == map[]
    {
      cells, count, cstr, unused, vars, top, rank, refs := map[], map[], map[], 1, map[], 0, map[], map[];
    }

    /** A place for a temporary. */
    method Fresh() returns (t: nat)
      requires Valid()
      modifies this`top
      ensures Valid() && t == old(top) && t !in vars && top == t + 1
    {
      t := top;
      top := top + 1;
    }

    /** A new leaf with one reference, held by `t`; nothing for an empty string. */
    method MakeLeaf(data: seq<C>, t: nat)
      requires Valid() && t !in vars && t < top
      modifies this`cells, this`count, this`unused, this`vars, this`rank, this`refs
      ensures Valid() && vars == old(vars)[t := if data == [] then 0 else old(unused)] && TextOf(t) == data
      ensures NodesSame(old(cells), old(rank), cells, rank)
      ensures data != [] ==> LeafMade(old(cells), old(count), old(rank), data, t, old(unused))
    {
      if data == [] {
        CountedNull(cells, vars, count, refs, t);
        vars := vars[t := 0];
      } else {
        var n := unused;
        NewFlatOk(cells, rank, vars, count, refs, cstr, n, Leaf(data), t);
        cells, rank, vars, count, refs, unused
          := cells[n := Leaf(data)], rank[n := 0], vars[t := n], count[n := 1], refs[n := {Root(t)}], n + 1;
      }
    }

    method NewLeaf(data: seq<C>, t: nat)
      requires Valid() && t !in vars && t < top
      modifies this`cells, this`count, this`unused, this`vars, this`rank, this`refs
      ensures Valid() && Plus(old(vars), vars, t) && TextOf(t) == data && (vars[t] == 0 <==> data == [])
      ensures NodesSame(old(cells), old(rank), cells, rank)
      ensures data != [] ==> IsNew(old(cells), t) && ValOf(t) == RopeTree.Leaf(data)
    {
      MakeLeaf(data, t);
    }

    /** `_S_new_RopeFunction` for a rope of `n` characters; nothing for none. */
    method NewFunction(fn: nat -> C, n: nat, t: nat)
      requires Valid() && t !in vars && t < top
      modifies this`cells, this`count, this`unused, this`vars, this`rank, this`refs
      ensures Valid() && Plus(old(vars), vars, t) && NodesSame(old(cells), old(rank), cells, rank)
      ensures |TextOf(t)| == n && DepthAt(t) == 0 && forall i :: 0 <= i < n ==> TextOf(t)[i] == fn(i)
    {
      if n == 0 {
        CountedNull(cells, vars, count, refs, t);
        vars := vars[t := 0];
      } else {
        var x := unused;
        NewFlatOk(cells, rank, vars, count, refs, cstr, x, Function(fn, n), t);
        SettleNew(cells[x := Function(fn, n)], rank[x := 0], vars[t := x], count[x := 1], refs[x := {Root(t)}]);
        FunctionCellText(cells, rank, x);
      }
    }

    ghost predicate LeafMade(cells0: Cells<C>, count0: map<nat, nat>, rank0: Ranks, data: seq<C>, t: nat, n: nat)
      reads this
    {
      n !in cells0 && cells == cells0[n := Leaf(data)] && count == count0[n := 1] && rank == rank0[n := 0] && n in refs
        && refs[n] == {Root(t)}
    }

    /** `_S_ref`: a variable for a node, or for the empty rope. */
    method AddVar(x: nat, t: nat)
      requires Valid() && (x != 0 ==> x in cells) && t !in vars && t < top
      modifies this`count, this`vars, this`refs
      ensures Valid() && vars == old(vars)[t := x] && TextOf(t) == (if x == 0 then [] else Text(cells, rank, x))
              && ValOf(t) == PtrVal(cells, rank, x)
      ensures Plus(old(vars), vars, t) && NodesSame(cells, rank, cells, rank)
    {
      if x == 0 {
        CountedNull(cells, vars, count, refs, t);
        vars := vars[t := 0];
      } else {
        AddVarOk(cells, rank, vars, count, refs, cstr, unused, x, t);
        SettleVars(vars[t := x], count[x := count[x] + 1], refs[x := refs[x] + {Root(t)}]);
      }
    }

    /** New values for the variables and the counts. */
    method SettleVars(vars': Vars, count': map<nat, nat>, ghost refs': Refs)
      requires Ok(cells, rank, vars', count', refs', cstr, unused) && forall m :: m in vars' ==> m < top
      modifies this`count, this`vars, this`refs
      ensures Valid() && vars == vars' && count == count' && refs == refs'
    {
      vars, count, refs := vars', count', refs';
    }

    /** `_S_new_RopeConcatenation`: the references that two temporaries hold become those of a new node. */
    method MakeConcat(a: nat, b: nat, t: nat)
      requires Valid() && t !in vars && t < top && a in vars && b in vars && a != b && vars[a] != 0 && vars[b] != 0
      modifies this`cells, this`count, this`unused, this`vars, this`rank, this`refs
      ensures Valid() && vars == Merged(old(vars), a, b, t, old(unused))
              && NodesSame(old(cells), old(rank), cells, rank)
      ensures TextOf(t) == old(TextOf(a)) + old(TextOf(b))
              && ValOf(t) == RopeConcat.NewConcat(old(ValOf(a)), old(ValOf(b)))
      ensures IsNew(old(cells), t)
    {
      Known(a);
      Known(b);
      var cells', vars', count' := cells[unused := NewCell(cells, vars[a], vars[b])], Merged(vars, a, b, t, unused),
          count[unused := 1];
      ghost var h, refs' := MakeConcatOk(cells, rank, vars, count, refs, cstr, unused, a, b, t);
      SettleNew(cells', rank[unused := h], vars', count', refs');
    }

    /** The node of `t` is a new one that nothing else holds. */
    ghost predicate IsNew(cells0: Cells<C>, t: nat)
      reads this
    {
      t in vars && vars[t] in cells && vars[t] !in cells0 && vars[t] in count && count[vars[t]] == 1
    }

    /** New values for the fields, with a new node. */
    method SettleNew(cells': Cells<C>, ghost rank': Ranks, vars': Vars, count': map<nat, nat>, ghost refs': Refs)
      requires Ok(cells', rank', vars', count', refs', cstr, unused + 1) && forall m :: m in vars' ==> m < top
      modifies this`cells, this`count, this`unused, this`vars, this`rank, this`refs
      ensures Valid() && cells == cells' && rank == rank' && vars == vars' && count == count' && refs == refs'
              && unused == old(unused) + 1
    {
      cells, rank, refs, vars, count, unused := cells', rank', refs', vars', count', unused + 1;
    }

    /** A leaf that only `k` holds, with room: the characters go into it. */
    method GrowLeaf(k: nat, s: seq<C>)
      requires Valid() && k in vars && vars[k] in cells && vars[k] in count && count[vars[k]] == 1
               && cells[vars[k]].Leaf?
      modifies this`cells, this`cstr
      ensures Valid() && TextOf(k) == old(TextOf(k)) + s && DepthAt(k) == old(DepthAt(k))
              && OthersSame(old(cells), rank, vars, cells, rank, vars, k)
    {
      GrowLeafOk(cells, rank, vars, count, refs, cstr, unused, k, s);
      SettleCells(cells[vars[k] := Leaf(cells[vars[k]].data + s)], cstr - {vars[k]});
    }

    /** New values for nodes and cached strings. */
    method SettleCells(cells': Cells<C>, cstr': map<nat, seq<C>>)
      requires Ok(cells', rank, vars, count, refs, cstr', unused) && forall m :: m in vars ==> m < top
      modifies this`cells, this`cstr
      ensures Valid() && cells == cells'
    {
      cells, cstr := cells', cstr';
    }

    /** The same for the leaf at the right of a concatenation that only `k` holds. */
    method GrowRight(k: nat, s: seq<C>)
      requires Valid() && k in vars && RightLeaf(cells, vars[k]) && vars[k] in count && count[vars[k]] == 1
      requires cells[vars[k]].right in count && count[cells[vars[k]].right] == 1
      modifies this`cells, this`cstr
      ensures Valid() && TextOf(k) == old(TextOf(k)) + s && DepthAt(k) == old(DepthAt(k))
              && OthersSame(old(cells), rank, vars, cells, rank, vars, k)
    {
      GrowRightOk(cells, rank, vars, count, refs, cstr, unused, k, s);
      SettleCells(GrownRight(cells, vars[k], s), cstr - {vars[k], cells[vars[k]].right});
    }

    /** The leaf at the right is replaced by the new one that `t` holds, and passes to `a`. */
    method Reseat(k: nat, t: nat, a: nat, ghost s: seq<C>, size: nat)
      requires Valid() && k in vars && t in vars && a !in vars && a < top
               && Reseatable(cells, rank, vars, count, refs, k, vars[k], t, vars[t], s)
      requires size == SizeOf(cells[vars[k]]) + |s|
      modifies this`cells, this`cstr, this`vars, this`refs
      ensures Valid() && vars == Rebound(old(vars), t, a, old(cells[vars[k]].right)) && TextOf(k) == old(TextOf(k)) + s
              && DepthAt(k) == old(DepthAt(k))
      ensures forall y :: y in old(cells) && y != old(vars[k]) ==> SameNode(old(cells), rank, cells, rank, y)
      ensures forall m :: m in old(vars) && m != k ==> old(vars)[m] != old(vars[k])
    {
      var cells', vars', cstr';
      ghost var refs';
      cells', vars', cstr', refs' := WithNewRight(k, t, a, s, size);
      SettleGrown(cells', vars', cstr', refs', cells, k, Text(cells, rank, vars[k]) + s, DepthOf(cells[vars[k]]));
    }

    /**
     New values for the fields, in which variable `k` has the text `text` and no other node of `cells0` has changed.
     */
    method SettleGrown(cells': Cells<C>, vars': Vars, cstr': map<nat, seq<C>>, ghost refs': Refs,
                       ghost cells0: Cells<C>, ghost k: nat, ghost text: seq<C>, ghost d: nat)
      requires Ok(cells', rank, vars', count, refs', cstr', unused) && forall m :: m in vars' ==> m < top
      requires Shape(cells0, rank) && k in vars' && vars'[k] in cells' && Text(cells', rank, vars'[k]) == text
               && DepthOf(cells'[vars'[k]]) == d
      requires forall y :: y in cells0 && y != vars'[k] ==> SameNode(cells0, rank, cells', rank, y)
      modifies this`cells, this`cstr, this`vars, this`refs
      ensures Valid() && vars == vars' && TextOf(k) == text && DepthAt(k) == d
      ensures forall y :: y in cells0 && y != vars[k] ==> SameNode(cells0, rank, cells, rank, y)
    {
      refs, vars, cells, cstr := refs', vars', cells', cstr';
    }

    method WithNewRight(k: nat, t: nat, a: nat, ghost s: seq<C>, size: nat)
      returns (cells': Cells<C>, vars': Vars, cstr': map<nat, seq<C>>, ghost refs': Refs)
      requires Valid() && k in vars && t in vars && a !in vars && a < top
               && Reseatable(cells, rank, vars, count, refs, k, vars[k], t, vars[t], s)
      requires size == SizeOf(cells[vars[k]]) + |s|
      ensures Ok(cells', rank, vars', count, refs', cstr', unused) && vars' == Rebound(vars, t, a, cells[vars[k]].right)
              && forall m :: m in vars' ==> m < top
      ensures k in vars' && vars'[k] == vars[k]
      ensures vars[k] in cells' && Text(cells', rank, vars[k]) == Text(cells, rank, vars[k]) + s
              && DepthOf(cells'[vars[k]]) == DepthOf(cells[vars[k]])
      ensures forall y :: y in cells && y != vars[k] ==> SameNode(cells, rank, cells', rank, y)
      ensures forall m :: m in vars && m != k ==> vars[m] != vars[k]
    {
      var x, n := vars[k], vars[t];
      VariableAlone(cells, vars, count, refs, k);
      ReseatTexts(cells, rank, vars, count, refs, k, x, t, n, s, size);
      refs' := ReseatOk(cells, rank, vars, count, refs, cstr, unused, k, x, t, n, s, a, size);
      cells', vars', cstr' := Reseated(cells, x, n, size), Rebound(vars, t, a, cells[x].right), cstr - {x};
    }

    /** `_M_is_balanced = true`, on a node that only `t` holds. */
    method Mark(t: nat)
      requires Valid() && t in vars && vars[t] in cells && vars[t] in count && count[vars[t]] == 1
      requires cells[vars[t]].Concat? && Balanced(cells[vars[t]].size, cells[vars[t]].depth)
      modifies this`cells
      ensures Valid() && TextOf(t) == old(TextOf(t)) && old(ValOf(t)).Concat?
              && ValOf(t) == old(ValOf(t)).(balanced := true)
      ensures forall y :: y in old(cells) && y != vars[t] ==> SameNode(old(cells), rank, cells, rank, y)
    {
      MarkTexts(cells, rank, vars, count, refs, t);
      MarkOk(cells, rank, vars, count, refs, cstr, unused, t);
      cells := MarkedCells(cells, vars[t]);
    }

    /** The last reference to a concatenation goes; the references it held pass to the temporaries `a` and `b`. */
    method FreeConcat(t: nat, a: nat, b: nat, ghost own: set<nat>, ghost keep: set<nat>)
      requires Valid() && t in vars && vars[t] in cells && vars[t] in count && count[vars[t]] == 1
               && cells[vars[t]].Concat?
      requires a !in vars && b !in vars && a != b && a < top && b < top
      requires t !in own && Held(cells, vars, own, keep)
      modifies this`cells, this`cstr, this`vars, this`refs
      ensures Valid() && vars.Keys == old(vars).Keys - {t} + {a, b} && |cells| < |old(cells)|
      ensures Kept(old(cells), rank, old(vars), cells, rank, vars, own, keep)
    {
      var cells', vars', cstr';
      ghost var refs';
      cells', vars', cstr', refs' := WithoutConcat(t, a, b, own, keep);
      SettleKept(cells', vars', cstr', refs', cells, vars, own, keep);
    }

    /** New values for the fields, under which what the variables of `own` hold stays as it was in `cells0`. */
    method SettleKept(cells': Cells<C>, vars': Vars, cstr': map<nat, seq<C>>, ghost refs': Refs,
                      ghost cells0: Cells<C>, ghost vars0: Vars, ghost own: set<nat>, ghost keep: set<nat>)
      requires Ok(cells', rank, vars', count, refs', cstr', unused) && forall m :: m in vars' ==> m < top
      requires Shape(cells0, rank) && Kept(cells0, rank, vars0, cells', rank, vars', own, keep)
      modifies this`cells, this`cstr, this`vars, this`refs
      ensures Valid() && |cells| == |cells'| && vars.Keys == vars'.Keys
              && Kept(cells0, rank, vars0, cells, rank, vars, own, keep)
    {
      refs, vars, cells, cstr := refs', vars', cells', cstr';
    }

    method WithoutConcat(t: nat, a: nat, b: nat, ghost own: set<nat>, ghost keep: set<nat>)
      returns (cells': Cells<C>, vars': Vars, cstr': map<nat, seq<C>>, ghost refs': Refs)
      requires Valid() && t in vars && vars[t] in cells && vars[t] in count && count[vars[t]] == 1
               && cells[vars[t]].Concat?
      requires a !in vars && b !in vars && a != b && a < top && b < top
      requires t !in own && Held(cells, vars, own, keep)
      ensures Ok(cells', rank, vars', count, refs', cstr', unused)
              && Kept(cells, rank, vars, cells', rank, vars', own, keep)
      ensures vars'.Keys == vars.Keys - {t} + {a, b} && |cells'| < |cells| && forall m :: m in vars' ==> m < top
    {
      var x := vars[t];
      cells', vars', cstr' := cells - {x}, Released2(vars, t, a, cells[x].left, b, cells[x].right), cstr - {x};
      refs' := FreeConcatOk(cells, rank, vars, count, refs, cstr, unused, x, t, a, b, cells', vars', cstr', own, keep);
      Fewer(cells, x);
      TwoLess(vars.Keys, t, a, b);
    }

    method FreeSubstring(t: nat, a: nat, ghost own: set<nat>, ghost keep: set<nat>)
      requires Valid() && t in vars && vars[t] in cells && vars[t] in count && count[vars[t]] == 1
               && cells[vars[t]].Substring?
      requires a !in vars && a < top
      requires t !in own && Held(cells, vars, own, keep)
      modifies this`cells, this`cstr, this`vars, this`refs
      ensures Valid() && vars.Keys == old(vars).Keys - {t} + {a} && |cells| < |old(cells)|
      ensures Kept(old(cells), rank, old(vars), cells, rank, vars, own, keep)
    {
      var cells', vars', cstr';
      ghost var refs';
      cells', vars', cstr', refs' := WithoutSubstring(t, a, own, keep);
      SettleKept(cells', vars', cstr', refs', cells, vars, own, keep);
    }

    method WithoutSubstring(t: nat, a: nat, ghost own: set<nat>, ghost keep: set<nat>)
      returns (cells': Cells<C>, vars': Vars, cstr': map<nat, seq<C>>, ghost refs': Refs)
      requires Valid() && t in vars && vars[t] in cells && vars[t] in count && count[vars[t]] == 1
               && cells[vars[t]].Substring?
      requires a !in vars && a < top
      requires t !in own && Held(cells, vars, own, keep)
      ensures Ok(cells', rank, vars', count, refs', cstr', unused)
              && Kept(cells, rank, vars, cells', rank, vars', own, keep)
      ensures vars'.Keys == vars.Keys - {t} + {a} && |cells'| < |cells| && forall m :: m in vars' ==> m < top
    {
      var x := vars[t];
      cells', vars', cstr' := cells - {x}, Rebound(vars, t, a, cells[x].base), cstr - {x};
      refs' := FreeSubstringOk(cells, rank, vars, count, refs, cstr, unused, x, t, a, cells', vars', cstr', own, keep);
      Fewer(cells, x);
    }

    method FreeLeaf(t: nat, ghost own: set<nat>, ghost keep: set<nat>)
      requires Valid() && t in vars && vars[t] in cells && vars[t] in count && count[vars[t]] == 1
      requires cells[vars[t]].Leaf? || cells[vars[t]].Function?
      requires t !in own && Held(cells, vars, own, keep)
      modifies this`cells, this`cstr, this`vars, this`refs
      ensures Valid() && vars.Keys == old(vars).Keys - {t} && |cells| < |old(cells)|
      ensures Kept(old(cells), rank, old(vars), cells, rank, vars, own, keep)
    {
      var x := vars[t];
      var cells', vars', cstr' := cells - {x}, Unbound(vars, t), cstr - {x};
      FreeLeafOk(cells, rank, vars, count, refs, cstr, unused, x, t, cells', vars', cstr', own, keep);
      Fewer(cells, x);
      SettleKept(cells', vars', cstr', refs, cells, vars, own, keep);
    }

    /** A variable of a rope that others hold too, or of the empty rope, goes. */
    method Drop(t: nat)
      requires Valid() && t in vars && (vars[t] != 0 ==> vars[t] in count && count[vars[t]] > 1)
      modifies this`count, this`vars, this`refs
      ensures Valid() && vars == Unbound(old(vars), t)
    {
      if vars[t] == 0 {
        CountedNull(cells, vars, count, refs, t);
      } else {
        DropVarOk(cells, rank, vars, count, refs, cstr, unused, vars[t], t);
        refs := refs[vars[t] := refs[vars[t]] - {Root(t)}];
        count := count[vars[t] := count[vars[t]] - 1];
      }
      vars := Unbound(vars, t);
    }

    lemma Known(k: nat)
      requires Valid() && k in vars && vars[k] != 0
      ensures vars[k] in cells && vars[k] in count && vars[k] in refs && count[vars[k]] == |refs[vars[k]]| > 0
              && vars[k] < unused
      ensures |Text(cells, rank, vars[k])| == SizeOf(cells[vars[k]])
    {
      VarKnown(cells, rank, vars, count, refs, cstr, unused, k);
    }

    /** `_S_unref`: a reference is given up; the node is freed with the last one, and so on downward. */
    method Unref(t: nat, ghost own: set<nat>, ghost keep: set<nat>)
      requires Valid() && t in vars
      requires t !in own && Held(cells, vars, own, keep)
      modifies this`cells, this`count, this`cstr, this`vars, this`refs, this`top
      ensures Valid() && vars.Keys == old(vars).Keys - {t} && |cells| <= |old(cells)| && top >= old(top)
      ensures Kept(old(cells), rank, old(vars), cells, rank, vars, own, keep)
      decreases |cells|, 2
    {
      if vars[t] != 0 {
        Known(t);
      }
      if vars[t] == 0 || count[vars[t]] > 1 {
        KeptFreed(cells, rank, vars, 0, cells, Unbound(vars, t), own, keep);
        Drop(t);
      } else {
        FreeTree(t, own, keep);
      }
    }

    /** `_M_free_tree`. */
    method FreeTree(t: nat, ghost own: set<nat>, ghost keep: set<nat>)
      requires Valid() && t in vars && vars[t] in cells && vars[t] in count && count[vars[t]] == 1
      requires t !in own && Held(cells, vars, own, keep)
      modifies this`cells, this`count, this`cstr, this`vars, this`refs, this`top
      ensures Valid() && vars.Keys == old(vars).Keys - {t} && |cells| <= |old(cells)| && top >= old(top)
      ensures Kept(old(cells), rank, old(vars), cells, rank, vars, own, keep)
      decreases |cells|, 1
    {
      match cells[vars[t]] {
        case Concat(_, _, _, _, _) =>
          FreeConcatTree(t, own, keep);
        case Substring(_, _, _) =>
          FreeSubstringTree(t, own, keep);
        case _ =>
          FreeLeaf(t, own, keep);
      }
    }

    method FreeConcatTree(t: nat, ghost own: set<nat>, ghost keep: set<nat>)
      requires Valid() && t in vars && vars[t] in cells && vars[t] in count && count[vars[t]] == 1
               && cells[vars[t]].Concat?
      requires t !in own && Held(cells, vars, own, keep)
      modifies this`cells, this`count, this`cstr, this`vars, this`refs, this`top
      ensures Valid() && vars.Keys == old(vars).Keys - {t} && |cells| <= |old(cells)| && top >= old(top)
      ensures Kept(old(cells), rank, old(vars), cells, rank, vars, own, keep)
      decreases |cells|, 0
    {
      var a, b := top, top + 1;
      top := top + 2;
      TwoLess(vars.Keys, t, a, b);
      FreeConcat(t, a, b, own, keep);
      ghost var c1, v1 := cells, vars;
      UnrefBoth(a, b, own, keep);
      KeptTrans(old(cells), rank, old(vars), c1, rank, v1, cells, rank, vars, own, keep);
    }

    method UnrefBoth(a: nat, b: nat, ghost own: set<nat>, ghost keep: set<nat>)
      requires Valid() && a in vars && b in vars && a != b
      requires a !in own && b !in own && Held(cells, vars, own, keep)
      modifies this`cells, this`count, this`cstr, this`vars, this`refs, this`top
      ensures Valid() && vars.Keys == old(vars).Keys - {a, b} && |cells| <= |old(cells)| && top >= old(top)
      ensures Kept(old(cells), rank, old(vars), cells, rank, vars, own, keep)
      decreases |cells|, 4
    {
      OneLess(vars.Keys, a, b);
      Unref(a, own, keep);
      UnrefToo(b, own, keep, old(cells), old(vars));
    }

    method UnrefToo(t: nat, ghost own: set<nat>, ghost keep: set<nat>, ghost cells0: Cells<C>, ghost vars0: Vars)
      requires Valid() && t in vars && t !in own
      requires Shape(cells0, rank) && Kept(cells0, rank, vars0, cells, rank, vars, own, keep)
      modifies this`cells, this`count, this`cstr, this`vars, this`refs, this`top
      ensures Valid() && vars.Keys == old(vars).Keys - {t} && |cells| <= |old(cells)| && top >= old(top)
      ensures Kept(cells0, rank, vars0, cells, rank, vars, own, keep)
      decreases |cells|, 3
    {
      ghost var c1, v1 := cells, vars;
      Unref(t, own, keep);
      KeptTrans(cells0, rank, vars0, c1, rank, v1, cells, rank, vars, own, keep);
    }

    method FreeSubstringTree(t: nat, ghost own: set<nat>, ghost keep: set<nat>)
      requires Valid() && t in vars && vars[t] in cells && vars[t] in count && count[vars[t]] == 1
               && cells[vars[t]].Substring?
      requires t !in own && Held(cells, vars, own, keep)
      modifies this`cells, this`count, this`cstr, this`vars, this`refs, this`top
      ensures Valid() && vars.Keys == old(vars).Keys - {t} && |cells| <= |old(cells)| && top >= old(top)
      ensures Kept(old(cells), rank, old(vars), cells, rank, vars, own, keep)
      decreases |cells|, 0
    {
      var a := Fresh();
      FreeSubstring(t, a, own, keep);
      ghost var c1, v1 := cells, vars;
      Unref(a, own, keep);
      KeptTrans(old(cells), rank, old(vars), c1, rank, v1, cells, rank, vars, own, keep);
    }

    /** `_S_unref` of a temporary: no other rope changes, and what `own` holds stays. */
    method Release(t: nat, ghost own: set<nat> := {}, ghost keep: set<nat> := {})
      requires Valid() && t in vars && t !in own && Held(cells, vars, own, keep)
      modifies this`cells, this`count, this`cstr, this`vars, this`refs, this`top
      ensures Valid() && vars.Keys == old(vars).Keys - {t} && top >= old(top)
      ensures OthersSame(old(cells), rank, old(vars), cells, rank, vars, t)
              && Kept(old(cells), rank, old(vars), cells, rank, vars, own, keep)
    {
      ghost var all := vars.Keys - {t};
      ghost var both := OthersHeld(cells, vars, count, refs, t, all, own, keep);
      Unref(t, all, both);
      OthersKept(old(cells), rank, old(vars), cells, vars, t, all, both);
      KeptPart(old(cells), rank, old(vars), cells, vars, all, both, own, keep);
    }

    // ---------- temporaries ----------

    /** A leaf or a function. */
    predicate IsFlat(x: nat)
      reads this
    {
      x in cells && (cells[x].Leaf? || cells[x].Function?)
    }

    /** A new substring node of a base that `a` holds. */
    method Hang(a: nat, i: nat, len: nat, t: nat)
      requires Valid() && a in vars && vars[a] != 0 && 0 < len && i + len <= |TextOf(a)| && IsFlat(vars[a])
               && t !in vars && t < top
      modifies this`cells, this`count, this`unused, this`vars, this`rank, this`refs
      ensures Valid() && vars == Rebound(old(vars), a, t, old(unused)) && NodesSame(old(cells), old(rank), cells, rank)
      ensures TextOf(t) == old(TextOf(a))[i..i + len] && DepthAt(t) == 0
    {
      Known(a);
      var cells', vars', count' := cells[unused := Substring(vars[a], i, len)], Rebound(vars, a, t, unused),
          count[unused := 1];
      ghost var h, refs' := NewSubstringOk(cells, rank, vars, count, refs, cstr, unused, a, i, len, t);
      SettleNew(cells', rank[unused := h], vars', count', refs');
    }

    /** `_S_new_RopeSubstring`. */
    method NewSubstring(x: nat, i: nat, len: nat, t: nat)
      requires Valid() && x in cells && 0 < len && i + len <= |Text(cells, rank, x)| && IsFlat(x) && t !in vars
               && t < top
      modifies this`cells, this`count, this`unused, this`vars, this`rank, this`refs, this`top
      ensures Valid() && top >= old(top) && Plus(old(vars), vars, t) && NodesSame(old(cells), old(rank), cells, rank)
      ensures TextOf(t) == old(Text(cells, rank, x))[i..i + len] && DepthAt(t) == 0
    {
      var a := Fresh();
      AddVar(x, a);
      PlusRebound(old(vars), a, x, t, unused);
      Hang(a, i, len, t);
    }

    /** Two temporaries for two nodes. */
    method Beside(x: nat, y: nat) returns (a: nat, b: nat)
      requires Valid() && x in cells && y in cells
      modifies this`count, this`vars, this`refs, this`top
      ensures Valid() && top >= old(top) && TwoMore(old(vars), vars, a, b) && a >= old(top) && b >= old(top)
      ensures vars[a] == x && vars[b] == y && x != 0 && y != 0
    {
      a, b := top, top + 1;
      top := top + 2;
      AddVar(x, a);
      ghost var v1 := vars;
      AddVar(y, b);
      PlusTwice(old(vars), v1, vars, a, b);
    }

    /** Two temporaries: `a` for node `x`, and `b` for a new leaf of `data`. */
    method LeafBeside(x: nat, data: seq<C>) returns (a: nat, b: nat)
      requires Valid() && x in cells && data != []
      modifies this`cells, this`count, this`unused, this`vars, this`rank, this`refs, this`top
      ensures Valid() && top >= old(top) && TwoMore(old(vars), vars, a, b) && a >= old(top) && b >= old(top)
              && vars[a] == x && x != 0
      ensures NodesSame(old(cells), old(rank), cells, rank) && TextOf(b) == data && ValOf(b) == RopeTree.Leaf(data)
              && vars[b] != 0 && vars[b] !in old(cells)
    {
      a, b := top, top + 1;
      top := top + 2;
      AddVar(x, a);
      ghost var v1 := vars;
      NewLeaf(data, b);
      PlusTwice(old(vars), v1, vars, a, b);
    }

    // ---------- appending ----------

    /** The leaf at the right is shared or full: a new one takes its place. The old one passes to the temporary `b`. */
    method SeatNew(k: nat, s: seq<C>) returns (b: nat)
      requires Valid() && k in vars && RightLeaf(cells, vars[k]) && vars[k] in count && count[vars[k]] == 1 && s != []
      modifies this`cells, this`count, this`cstr, this`unused, this`vars, this`rank, this`refs, this`top
      ensures top >= old(top) && Valid() && b !in old(vars) && vars.Keys == old(vars).Keys + {b}
              && vars[k] == old(vars[k]) && TextOf(k) == old(TextOf(k)) + s && DepthAt(k) == old(DepthAt(k))
      ensures OthersSame(old(cells), old(rank), old(vars), cells, rank, vars, k)
    {
      var a := NewRight(k, s);
      b := SeatFrom(k, a, s, old(cells), old(rank), old(vars));
    }

    /** The leaf that `a` holds goes to the right of rope `k`, the old one to a new variable. */
    method SeatFrom(k: nat, a: nat, s: seq<C>, ghost cells0: Cells<C>, ghost rank0: Ranks, ghost vars0: Vars)
      returns (b: nat)
      requires Valid() && k in vars0 && a in vars && Plus(vars0, vars, a)
      requires Shape(cells0, rank0) && OthersSame(cells0, rank0, vars0, cells, rank, vars, k)
      requires Reseatable(cells, rank, vars, count, refs, k, vars[k], a, vars[a], s)
      modifies this`cells, this`cstr, this`vars, this`refs, this`top
      ensures Valid() && top >= old(top) && b !in vars0 && vars.Keys == vars0.Keys + {b} && vars[k] == vars0[k]
      ensures TextOf(k) == old(TextOf(k)) + s && DepthAt(k) == old(DepthAt(k))
      ensures OthersSame(cells0, rank0, vars0, cells, rank, vars, k)
    {
      var x := vars[k];
      ghost var c1, v1 := cells, vars;
      b := Fresh();
      Reseat(k, a, b, s, SizeOf(cells[x]) + |s|);
      SeatedOthers(cells0, rank0, vars0, c1, rank, v1, cells, vars, a, b, k, x);
    }

    /** The new leaf. */
    method NewRight(k: nat, s: seq<C>) returns (a: nat)
      requires Valid() && k in vars && RightLeaf(cells, vars[k]) && vars[k] in count && count[vars[k]] == 1 && s != []
      modifies this`cells, this`count, this`unused, this`vars, this`rank, this`refs, this`top
      ensures top >= old(top) && Valid() && Plus(old(vars), vars, a)
              && Reseatable(cells, rank, vars, count, refs, k, vars[k], a, vars[a], s)
      ensures RopeOf(k) == old(RopeOf(k)) && OthersSame(old(cells), old(rank), old(vars), cells, rank, vars, k)
    {
      var x := vars[k];
      Known(k);
      RightUnused(cells, rank, vars, count, refs, cstr, unused, x);
      a := Fresh();
      var n := unused;
      MakeLeaf(cells[cells[x].right].data + s, a);
      NewRightReady(old(cells), old(rank), old(vars), old(count), k, a, n, s, cells, rank, vars, count, refs);
      OthersFromNodes(old(cells), old(rank), old(vars), cells, rank, vars, a, k);
      assert SameNode(old(cells), old(rank), cells, rank, x);
    }

    method ReplaceRight(k: nat, s: seq<C>)
      requires Valid() && k in vars && RightLeaf(cells, vars[k]) && vars[k] in count && count[vars[k]] == 1 && s != []
      modifies this`cells, this`count, this`cstr, this`unused, this`vars, this`rank, this`refs, this`top
      ensures top >= old(top) && Valid() && vars.Keys == old(vars).Keys && vars[k] == old(vars[k])
              && TextOf(k) == old(TextOf(k)) + s && DepthAt(k) == old(DepthAt(k))
      ensures OthersSame(old(cells), old(rank), old(vars), cells, rank, vars, k)
    {
      var b := SeatNew(k, s);
      ghost var c2, v2 := cells, vars;
      Release(b);
      assert SameNode(c2, rank, cells, rank, v2[k]);
      OthersTrans(old(cells), old(rank), old(vars), c2, rank, v2, cells, rank, vars, k, b);
    }

    /**
     A rope that only `k` holds grows in place: its leaf, or the leaf at its right. False where it is not of that form.
     */
    method Grow(k: nat, s: seq<C>) returns (done: bool)
      requires Valid() && k in vars && vars[k] in cells && vars[k] in count && count[vars[k]] == 1 && s != []
      modifies this`cells, this`count, this`cstr, this`unused, this`vars, this`rank, this`refs, this`top
      ensures top >= old(top) && Valid() && vars.Keys == old(vars).Keys && vars[k] == old(vars[k])
      ensures TextOf(k) == (if done then old(TextOf(k)) + s else old(TextOf(k))) && DepthAt(k) == old(DepthAt(k))
      ensures OthersSame(old(cells), old(rank), old(vars), cells, rank, vars, k)
    {
      var x := vars[k];
      done := false;
      match cells[x] {
        case Leaf(data) =>
          if |data| + |s| <= RopeTree.COPY_MAX && Capacity(|data|) >= |data| + |s| {
            GrowLeaf(k, s);
            done := true;
          }
        case Concat(_, r, _, _, _) =>
          Parts(cells, rank, x);
          if cells[r].Leaf? && |cells[r].data| + |s| <= RopeTree.COPY_MAX {
            GrowConcat(k, s);
            done := true;
          }
        case _ =>
      }
    }

    method GrowConcat(k: nat, s: seq<C>)
      requires Valid() && k in vars && RightLeaf(cells, vars[k]) && vars[k] in count && count[vars[k]] == 1 && s != []
      modifies this`cells, this`count, this`cstr, this`unused, this`vars, this`rank, this`refs, this`top
      ensures top >= old(top) && Valid() && vars.Keys == old(vars).Keys && vars[k] == old(vars[k])
              && TextOf(k) == old(TextOf(k)) + s && DepthAt(k) == old(DepthAt(k))
      ensures OthersSame(old(cells), old(rank), old(vars), cells, rank, vars, k)
    {
      var r := cells[vars[k]].right;
      assert Tracked(cells, vars, count, refs, r);
      if count[r] == 1 && Capacity(|cells[r].data|) >= |cells[r].data| + |s| {
        GrowRight(k, s);
      } else {
        ReplaceRight(k, s);
      }
    }

    /** A temporary takes the name of a variable that is gone. */
    method Rename(t: nat, k: nat)
      requires Valid() && t in vars && k !in vars && k < top
      modifies this`vars, this`refs
      ensures Valid() && vars == Rebound(old(vars), t, k, old(vars[t])) && TextOf(k) == old(TextOf(t))
              && ValOf(k) == old(ValOf(t)) && DepthAt(k) == old(DepthAt(t))
    {
      CountedRenamed(cells, vars, count, refs, t, k);
      if vars[t] != 0 {
        refs := refs[vars[t] := refs[vars[t]] - {Root(t)} + {Root(k)}];
      }
      vars := Rebound(vars, t, k, vars[t]);
    }

    /** `_S_unref(_M_tree_ptr); _M_tree_ptr = result`, where `t` holds the result. */
    method Assign(k: nat, t: nat)
      requires Valid() && k in vars && t in vars && k != t
      modifies this`cells, this`count, this`cstr, this`vars, this`refs, this`top
      ensures Valid() && vars.Keys == old(vars).Keys - {t} && RopeOf(k) == old(RopeOf(t))
      ensures forall m :: m in vars && m != k ==> m in old(vars) && RopeOf(m) == old(RopeOf(m))
    {
      DropTemp(k);
      Rename(t, k);
    }

    // ---------- single characters, and C strings ----------

    /**
     `_S_fetch_ptr`: the leaf and the place in it for position `i0`, if every node on the way there has only one
     reference; else null.
     */
    method FetchPtr(r0: nat, i0: nat) returns (x: nat, j: nat, path: set<nat>)
      requires Valid() && r0 in cells && i0 < SizeOf(cells[r0])
      ensures x != 0 ==> Way(cells, rank, count, r0, i0, x, j) && path == Along(cells, rank, r0, i0)
      ensures x != 0 <==> Alone(cells, rank, count, r0, i0)
    {
      var r, i := r0, i0;
      path, x, j := {}, 0, 0;
      while true
        invariant r in rank && Toward(cells, rank, count, r0, i0, r, i, path)
        decreases rank[r]
      {
        KnownNode(r);
        if count[r] > 1 {
          return;
        }
        match cells[r] {
          case Concat(a, b, _, _, _) =>
            TowardDown(cells, rank, count, r0, i0, r, i, path);
            path := path + {r};
            if i >= SizeOf(cells[a]) {
              r, i := b, i - SizeOf(cells[a]);
            } else {
              r := a;
            }
          case Leaf(data) =>
            TowardLeaf(cells, rank, count, r0, i0, r, i, path);
            path, x, j := path + {r}, r, i;
            return;
          case _ =>
            return;
        }
      }
    }

    lemma KnownNode(x: nat)
      requires Valid() && x in cells
      ensures x in count && count[x] > 0 && x in rank
    {
      assert Tracked(cells, vars, count, refs, x);
    }

    /**
     The in-place half of assigning to a character of a rope: done exactly where no other rope could see it. The cached
     C strings of the nodes above it go.
     */
    method PutInPlace(k: nat, i: nat, c: C) returns (done: bool)
      requires Valid() && k in vars && vars[k] != 0 && i < |TextOf(k)|
      modifies this`cells, this`cstr
      ensures Valid() && TextOf(k) == (if done then old(TextOf(k))[i := c] else old(TextOf(k)))
              && DepthAt(k) == old(DepthAt(k))
      ensures done <==> old(Alone(cells, rank, count, vars[k], i))
      ensures OthersSame(old(cells), rank, vars, cells, rank, vars, k)
    {
      Known(k);
      var x, j, path := FetchPtr(vars[k], i);
      done := x != 0;
      if done {
        PutCharOk(cells, rank, vars, count, refs, cstr, unused, k, i, x, j, c);
        SettleCells(cells[x := Leaf(cells[x].data[j := c])], cstr - path);
      }
    }

    method DropTemps(s: nat, r: nat, l: nat)
      requires Valid() && s in vars && r in vars && l in vars && s != r && s != l && r != l
      modifies this`cells, this`count, this`cstr, this`vars, this`refs, this`top
      ensures Valid() && vars.Keys == old(vars).Keys - {s, r, l}
      ensures forall m :: m in vars ==> RopeOf(m) == old(RopeOf(m))
    {
      DropTemp(s);
      DropTemp(r);
      DropTemp(l);
    }

    method DropTemp(t: nat)
      requires Valid() && t in vars
      modifies this`cells, this`count, this`cstr, this`vars, this`refs, this`top
      ensures Valid() && vars.Keys == old(vars).Keys - {t} && top >= old(top)
      ensures forall m :: m in vars ==> RopeOf(m) == old(RopeOf(m))
    {
      Release(t);
      assert forall m :: m in vars ==> SameNode(old(cells), rank, cells, rank, old(vars)[m]);
    }

    /** `_S_flatten` over the nodes. */
    method Flat(x: nat) returns (s: seq<C>)
      requires Valid() && x in cells
      ensures s == Text(cells, rank, x)
      decreases rank[x]
    {
      Parts(cells, rank, x);
      match cells[x] {
        case Leaf(data) => s := data;
        case Concat(l, r, _, _, _) =>
          var a := Flat(l);
          var b := Flat(r);
          s := a + b;
        case Function(fn, n) => s := seq(n, i requires 0 <= i < n => fn(i));
        case Substring(b, i, n) =>
          var t := Flat(b);
          s := if i + n <= |t| then t[i..i + n] else [];
      }
    }

    /**
     `c_str`: the cached string if there is one; it is right, because every change has removed the strings it made
     wrong.
     */
    method CString(k: nat) returns (s: seq<C>)
      requires Valid() && k in vars
      modifies this`cstr
      ensures Valid() && s == TextOf(k)
    {
      if vars[k] == 0 {
        return [];
      }
      Known(k);
      if vars[k] in cstr {
        assert CachedAt(cells, rank, cstr, vars[k]);
        return cstr[vars[k]];
      }
      s := Flat(vars[k]);
      CacheOk(cells, rank, cstr, vars[k]);
      cstr := cstr[vars[k] := s];
    }

    /** A copy of a rope is another reference to it. */
    method Copy(k: nat) returns (t: nat)
      requires Valid() && k in vars
      modifies this`count, this`vars, this`refs, this`top
      ensures Valid() && t !in old(vars) && vars == old(vars)[t := old(vars[k])] && TextOf(t) == old(TextOf(k))
    {
      t := Fresh();
      if vars[k] != 0 {
        Known(k);
      }
      AddVar(vars[k], t);
    }
  }

  lemma ReseatedOthers<C>(c0: Cells<C>, r0: Ranks, v0: Vars, c1: Cells<C>, r1: Ranks, v1: Vars, c2: Cells<C>, v2: Vars,
                          k: nat, x: nat)
    requires Shape(c0, r0) && Shape(c1, r1) && Shape(c2, r1) && OthersSame(c0, r0, v0, c1, r1, v1, k)
    requires forall y :: y in c1 && y != x ==> SameNode(c1, r1, c2, r1, y)
    requires forall m :: m in v0 && m != k ==> m in v1 && m in v2 && v2[m] == v1[m] && v1[m] != x && (v1[m] != 0 ==>
        v1[m] in c1)
    ensures OthersSame(c0, r0, v0, c2, r1, v2, k)
  {
    forall m | m in v0 && m != k ensures m in v2 && v2[m] == v0[m] && SameNode(c0, r0, c2, r1, v0[m]) {
      assert SameNode(c0, r0, c1, r1, v0[m]);
      if v0[m] != 0 {
        assert SameNode(c1, r1, c2, r1, v0[m]);
      }
    }
  }

  lemma RightUnused<C>(cells: Cells<C>, rank: Ranks, vars: Vars, count: map<nat, nat>, refs: Refs,
                       cstr: map<nat, seq<C>>, unused: nat, x: nat)
    requires Ok(cells, rank, vars, count, refs, cstr, unused) && RightLeaf(cells, x)
    ensures cells[x].right != unused && x != unused && x != 0
  {
  }

  lemma CacheOk<C>(cells: Cells<C>, rank: Ranks, cstr: map<nat, seq<C>>, x: nat)
    requires Shape(cells, rank) && x in cells && forall y :: y in cstr ==> CachedAt(cells, rank, cstr, y)
    ensures var cstr' := cstr[x := Text(cells, rank, x)]; forall y :: y in cstr' ==> CachedAt(cells, rank, cstr', y)
  {
    var cstr' := cstr[x := Text(cells, rank, x)];
    forall y | y in cstr' ensures CachedAt(cells, rank, cstr', y) {
      assert y != x ==> CachedAt(cells, rank, cstr, y);
    }
  }

  lemma Regroup<C>(cells: Cells<C>, rank: Ranks, x: nat, s: seq<C>)
    requires Shape(cells, rank) && RightLeaf(cells, x) && cells[x].left in cells
    ensures Text(cells, rank, cells[x].left) + (cells[cells[x].right].data + s) == Text(cells, rank, x) + s
  {
  }

  ghost predicate TwoMore(vars: Vars, vars': Vars, a: nat, b: nat) {
    && a !in vars && b !in vars && a != b && vars'.Keys == vars.Keys + {a, b}
    && forall m :: m in vars ==> m in vars' && vars'[m] == vars[m]
  }

  lemma PlusTwice(v0: Vars, v1: Vars, v2: Vars, a: nat, b: nat)
    requires Plus(v0, v1, a) && Plus(v1, v2, b)
    ensures TwoMore(v0, v2, a, b)
  {
  }

  lemma VarSame<C>(c1: Cells<C>, r1: Ranks, v1: Vars, c2: Cells<C>, r2: Ranks, v2: Vars, a: nat)
    requires Shape(c1, r1) && Shape(c2, r2) && NodesSame(c1, r1, c2, r2) && a in v1 && a in v2 && v2[a] == v1[a]
    requires v1[a] != 0 ==> v1[a] in c1
    ensures (v1[a] != 0 ==> v1[a] in c2) && VarText(c2, r2, v2, a) == VarText(c1, r1, v1, a)
  {
    assert v1[a] != 0 ==> SameNode(c1, r1, c2, r2, v1[a]);
  }

  lemma SeatedOthers<C>(c0: Cells<C>, r0: Ranks, v0: Vars, c1: Cells<C>, r1: Ranks, v1: Vars, c2: Cells<C>, v2: Vars,
                        a: nat, b: nat, k: nat, x: nat)
    requires Shape(c0, r0) && Shape(c1, r1) && Shape(c2, r1) && OthersSame(c0, r0, v0, c1, r1, v1, k) && k in v0
    requires Plus(v0, v1, a) && b !in v1 && b in v2 && v2 == Rebound(v1, a, b, v2[b])
    requires forall y :: y in c1 && y != x ==> SameNode(c1, r1, c2, r1, y)
    requires forall m :: m in v1 && m != k ==> v1[m] != x
    requires forall m :: m in v1 && v1[m] != 0 ==> v1[m] in c1
    ensures v2.Keys == v0.Keys + {b} && b !in v0 && v2[k] == v0[k] && OthersSame(c0, r0, v0, c2, r1, v2, k)
  {
    SeatedVars(v0, v1, v2, a, b);
    ReseatedOthers(c0, r0, v0, c1, r1, v1, c2, v2, k, x);
  }

  lemma SeatedVars(v0: Vars, v1: Vars, v2: Vars, a: nat, b: nat)
    requires Plus(v0, v1, a) && b !in v1 && b in v2 && v2 == Rebound(v1, a, b, v2[b])
    ensures v2.Keys == v0.Keys + {b} && b !in v0 && forall m :: m in v0 ==> m in v2 && v2[m] == v0[m]
  {
  }

  lemma OneLess(ks: set<nat>, a: nat, b: nat)
    requires b in ks && a != b
    ensures b in ks - {a} && ks - {a} - {b} == ks - {a, b}
  {
  }

  lemma TwoLess(ks: set<nat>, t: nat, a: nat, b: nat)
    requires a !in ks && b !in ks
    ensures ks - {t} + {a, b} - {a, b} == ks - {t} && a in ks - {t} + {a, b} && b in ks - {t} + {a, b}
    ensures forall m :: m in ks - {t} + {a, b} ==> m in ks || m == a || m == b
  {
  }

  lemma Fewer<C>(cells: Cells<C>, x: nat)
    requires x in cells
    ensures |cells - {x}| < |cells|
  {
    assert cells.Keys == (cells - {x}).Keys + {x};
    assert |cells.Keys| == |(cells - {x}).Keys| + 1;
  }
}
