/**
 Ropes as nodes that share parts (headers/cpp/stl_rope.h:18-22, 403-416): every node counts the references to it, from
 rope variables and from other nodes.
 */
module RopeShare {
  import opened Basics
  import RopeTree
  import RopeConcat
  import RopeSlice

  datatype Cell<C> =
    | Leaf(data: seq<C>)
    | Concat(left: nat, right: nat, size: nat, depth: nat, balanced: bool)
    | Function(fn: nat -> C, len: nat)
    | Substring(base: nat, start: nat, len: nat)

  /** Who holds a reference: a rope variable or a temporary, or a node. */
  datatype Ref = Root(k: nat) | Left(p: nat) | Right(p: nat) | Base(p: nat)

  type Cells<C> = map<nat, Cell<C>>
  type Ranks = map<nat, nat>
  type Vars = map<nat, nat>
  type Refs = map<nat, set<Ref>>

  predicate Kid<C>(c: Cell<C>, y: nat) {
    (c.Concat? && (c.left == y || c.right == y)) || (c.Substring? && c.base == y)
  }

  /** The nodes below a node exist and rank lower: no node is below itself. */
  ghost predicate Shape<C>(cells: Cells<C>, rank: Ranks) {
    && 0 !in cells
    && (forall x :: x in cells ==> x in rank)
    && (forall x, y :: x in cells && Kid(cells[x], y) ==> y in cells && rank[y] < rank[x])
  }

  /** The text of a node. */
  ghost function Text<C>(cells: Cells<C>, rank: Ranks, x: nat): seq<C>
    requires Shape(cells, rank) && x in cells
    decreases rank[x]
  {
    match cells[x]
    case Leaf(data) => data
    case Concat(l, r, _, _, _) =>
      assert Kid(cells[x], l) && Kid(cells[x], r);
      Text(cells, rank, l) + Text(cells, rank, r)
    case Function(fn, n) => seq(n, i requires 0 <= i < n => fn(i))
    case Substring(b, i, n) =>
      assert Kid(cells[x], b);
      var t := Text(cells, rank, b);
      if i + n <= |t| then t[i..i + n] else []
  }

  /** The text of a function node is what its producer gives for the positions from 0 on. */
  lemma FunctionCellText<C>(cells: Cells<C>, rank: Ranks, x: nat)
    requires Shape(cells, rank) && x in cells && cells[x].Function?
    ensures |Text(cells, rank, x)| == cells[x].len
    ensures forall i :: 0 <= i < cells[x].len ==> Text(cells, rank, x)[i] == cells[x].fn(i)
  {
  }

  /** The rope, as a value, that a node stands for. */
  ghost function Val<C>(cells: Cells<C>, rank: Ranks, x: nat): RopeTree.Rope<C>
    requires Shape(cells, rank) && x in cells
    decreases rank[x]
  {
    match cells[x]
    case Leaf(data) => RopeTree.Leaf(data)
    case Concat(l, r, size, depth, balanced) =>
      assert Kid(cells[x], l) && Kid(cells[x], r);
      RopeTree.Concat(size, depth, balanced, Val(cells, rank, l), Val(cells, rank, r))
    case Function(fn, n) => RopeTree.Function(fn, n)
    case Substring(b, i, n) =>
      assert Kid(cells[x], b);
      RopeTree.Substring(Val(cells, rank, b), i, n)
  }

  /** The same for null, the empty rope. */
  ghost function PtrVal<C>(cells: Cells<C>, rank: Ranks, x: nat): RopeTree.Rope<C>
    requires Shape(cells, rank) && (x != 0 ==> x in cells)
  {
    if x == 0 then RopeTree.Nil else Val(cells, rank, x)
  }

  /** Every node is right. */
  ghost predicate Sized<C>(cells: Cells<C>, rank: Ranks) {
    Shape(cells, rank) && forall x :: x in cells ==> Fine(cells, x)
  }

  /**
   The size, the depth and the mark of a node are right, as its parts tell; it is not empty, and a lazy slice is of a
   leaf or a function.
   */
  predicate Fine<C>(cells: Cells<C>, x: nat)
    requires x in cells
  {
    match cells[x]
    case Leaf(data) => data != []
    case Concat(l, r, size, depth, balanced) =>
      && l in cells && r in cells && size == SizeOf(cells[l]) + SizeOf(cells[r])
      && depth == 1 + Max(DepthOf(cells[l]), DepthOf(cells[r])) && (balanced ==> Balanced(size, depth))
    case Function(_, n) => n > 0
    case Substring(b, i, n) =>
      b in cells && (cells[b].Leaf? || cells[b].Function?) && n > 0 && i + n <= SizeOf(cells[b])
  }

  /** `_S_is_balanced`. */
  predicate Balanced(size: nat, depth: nat) {
    depth <= RopeTree.MAX_DEPTH && size >= RopeTree.MIN_LEN[depth]
  }

  lemma SizesAgree<C>(cells: Cells<C>, rank: Ranks, x: nat)
    requires Shape(cells, rank) && x in cells
    ensures RopeTree.Size(Val(cells, rank, x)) == SizeOf(cells[x])
            && RopeTree.Depth(Val(cells, rank, x)) == DepthOf(cells[x])
    ensures !Val(cells, rank, x).Nil?
  {
  }

  /** The value of a right node is a right rope, of the same text. */
  lemma {:induction false} Stands<C>(cells: Cells<C>, rank: Ranks, x: nat)
    requires Sized(cells, rank) && x in cells
    ensures RopeTree.Wf(Val(cells, rank, x)) && RopeTree.Flatten(Val(cells, rank, x)) == Text(cells, rank, x)
    ensures |Text(cells, rank, x)| == SizeOf(cells[x]) > 0
    decreases rank[x]
  {
    var v := Val(cells, rank, x);
    SizesAgree(cells, rank, x);
    assert Fine(cells, x);
    match cells[x]
    case Leaf(_) =>
    case Concat(l, r, _, _, _) =>
      assert Kid(cells[x], l) && Kid(cells[x], r);
      Stands(cells, rank, l);
      Stands(cells, rank, r);
      SizesAgree(cells, rank, l);
      SizesAgree(cells, rank, r);
    case Function(fn, n) =>
      assert RopeTree.Flatten(v) == seq(n, i requires 0 <= i < n => fn(i));
    case Substring(b, i, n) =>
      assert Kid(cells[x], b);
      Stands(cells, rank, b);
      RopeSlice.LazyIsSlice(Val(cells, rank, b), i, n);
  }

  ghost predicate CachedAt<C>(cells: Cells<C>, rank: Ranks, cstr: map<nat, seq<C>>, x: nat)
    requires Shape(cells, rank) && x in cstr
  {
    x in cells && cstr[x] == Text(cells, rank, x)
  }

  function SizeOf<C>(c: Cell<C>): nat {
    match c
    case Leaf(data) => |data|
    case Concat(_, _, n, _, _) => n
    case Function(_, n) => n
    case Substring(_, _, n) => n
  }

  function DepthOf<C>(c: Cell<C>): nat {
    if c.Concat? then c.depth else 0
  }

  /** A new concatenation of two nodes. */
  function NewCell<C>(cells: Cells<C>, l: nat, r: nat): Cell<C>
    requires l in cells && r in cells
  {
    Concat(l, r, SizeOf(cells[l]) + SizeOf(cells[r]), 1 + Max(DepthOf(cells[l]), DepthOf(cells[r])), false)
  }

  lemma Parts<C>(cells: Cells<C>, rank: Ranks, x: nat)
    requires Shape(cells, rank) && x in cells
    ensures cells[x].Concat? ==> (cells[x].left in cells && cells[x].left != x && cells[x].right in cells
                                  && cells[x].right != x)
    ensures cells[x].Concat? ==> rank[cells[x].left] < rank[x] && rank[cells[x].right] < rank[x]
    ensures cells[x].Substring? ==> cells[x].base in cells && cells[x].base != x
  {
    if cells[x].Concat? {
      assert Kid(cells[x], cells[x].right) && Kid(cells[x], cells[x].left);
    } else if cells[x].Substring? {
      assert Kid(cells[x], cells[x].base);
    }
  }

  /** The parts of a concatenation, and their texts. */
  lemma Halves<C>(cells: Cells<C>, rank: Ranks, x: nat)
    requires Sized(cells, rank) && x in cells && cells[x].Concat?
    ensures var l, r := cells[x].left, cells[x].right;
            && l in cells && r in cells && rank[l] < rank[x] && rank[r] < rank[x]
            && Text(cells, rank, x) == Text(cells, rank, l) + Text(cells, rank, r)
            && |Text(cells, rank, l)| == SizeOf(cells[l]) && |Text(cells, rank, r)| == SizeOf(cells[r])
               && Text(cells, rank, r) != []
  {
    Parts(cells, rank, x);
    Stands(cells, rank, cells[x].left);
    Stands(cells, rank, cells[x].right);
  }

  // ---------- what a change can affect ----------

  /** No node outside `u` has a node of `u` below it. */
  ghost predicate Upward<C>(cells: Cells<C>, u: set<nat>) {
    forall x, y :: x in cells && x !in u && Kid(cells[x], y) ==> y !in u
  }

  lemma {:induction false} TextSame<C>(cells: Cells<C>, rank: Ranks, cells': Cells<C>, rank': Ranks, u: set<nat>,
                                       x: nat)
    requires Shape(cells, rank) && Shape(cells', rank') && Upward(cells, u) && x in cells && x !in u
    requires forall y :: y in cells && y !in u ==> y in cells' && cells'[y] == cells[y]
    ensures x in cells' && Text(cells', rank', x) == Text(cells, rank, x)
            && Val(cells', rank', x) == Val(cells, rank, x)
    decreases rank[x]
  {
    match cells[x]
    case Leaf(_) =>
    case Concat(l, r, _, _, _) =>
      assert Kid(cells[x], l) && Kid(cells[x], r);
      TextSame(cells, rank, cells', rank', u, l);
      TextSame(cells, rank, cells', rank', u, r);
    case Function(_, _) =>
    case Substring(b, _, _) =>
      assert Kid(cells[x], b);
      TextSame(cells, rank, cells', rank', u, b);
  }

  // ---------- reference counts ----------

  /** `r` is a reference to node `x`. */
  predicate Points<C>(cells: Cells<C>, vars: Vars, r: Ref, x: nat) {
    match r
    case Root(k) => k in vars && vars[k] == x
    case Left(p) => p in cells && cells[p].Concat? && cells[p].left == x
    case Right(p) => p in cells && cells[p].Concat? && cells[p].right == x
    case Base(p) => p in cells && cells[p].Substring? && cells[p].base == x
  }

  /** Variable `t` goes and `a` comes. */
  function Rebound(vars: Vars, t: nat, a: nat, x: nat): Vars {
    (vars - {t})[a := x]
  }

  /** Two variables go and `t` comes. */
  function Merged(vars: Vars, a: nat, b: nat, t: nat, x: nat): Vars {
    (vars - {a, b})[t := x]
  }

  function Unbound(vars: Vars, t: nat): Vars {
    vars - {t}
  }

  /** The references to node `x`; there is one, and its count is their number. */
  ghost predicate Tracked<C>(cells: Cells<C>, vars: Vars, count: map<nat, nat>, refs: Refs, x: nat) {
    && x in count && x in refs && count[x] == |refs[x]| && refs[x] != {}
    && (forall r :: r in refs[x] <==> Points(cells, vars, r, x))
  }

  ghost predicate Counted<C>(cells: Cells<C>, vars: Vars, count: map<nat, nat>, refs: Refs) {
    && (forall x :: x in cells ==> Tracked(cells, vars, count, refs, x))
    && (forall k :: k in vars && vars[k] != 0 ==> vars[k] in cells)
  }

  /** A node with only one reference, held by a variable, is below no other. */
  lemma OnlyVariable<C>(cells: Cells<C>, vars: Vars, count: map<nat, nat>, refs: Refs, x: nat, k: nat)
    requires Counted(cells, vars, count, refs) && x in cells && x in count && x in refs && count[x] == 1 && k in vars
             && vars[k] == x
    ensures refs[x] == {Root(k)} && forall p :: p in cells ==> !Kid(cells[p], x)
    ensures forall j :: j in vars && j != k ==> vars[j] != x
  {
    assert Tracked(cells, vars, count, refs, x) && Points(cells, vars, Root(k), x);
    Single(refs[x], Root(k));
    forall p | p in cells ensures !Kid(cells[p], x) {
      assert Left(p) !in refs[x] && Right(p) !in refs[x] && Base(p) !in refs[x];
    }
    forall j | j in vars && j != k ensures vars[j] != x {
      assert Root(j) !in refs[x];
    }
  }

  lemma Single<T>(s: set<T>, x: T)
    requires |s| == 1 && x in s
    ensures s == {x}
  {
    assert |s - {x}| == 0;
  }

  /** A node with only one reference, held by the left or the right slot of `p`, is below no other and no variable's. */
  lemma OnlyParent<C>(cells: Cells<C>, vars: Vars, count: map<nat, nat>, refs: Refs, x: nat, p: nat)
    requires Counted(cells, vars, count, refs) && x in cells && x in count && x in refs && count[x] == 1 && p in cells
             && Kid(cells[p], x)
    ensures forall q :: q in cells && q != p ==> !Kid(cells[q], x)
    ensures forall j :: j in vars ==> vars[j] != x
    ensures cells[p].Concat? ==> cells[p].left != cells[p].right
  {
    var r := if Points(cells, vars, Left(p), x) then Left(p) else if Points(cells, vars, Right(p),
        x) then Right(p) else Base(p);
    assert Tracked(cells, vars, count, refs, x) && Points(cells, vars, r, x);
    Single(refs[x], r);
    forall q | q in cells && q != p ensures !Kid(cells[q], x) {
      assert Left(q) !in refs[x] && Right(q) !in refs[x] && Base(q) !in refs[x];
    }
    forall j | j in vars ensures vars[j] != x {
      assert Root(j) !in refs[x];
    }
    assert !(Left(p) in refs[x] && Right(p) in refs[x]);
  }

  // ---------- the whole state ----------

  /** Everything about the nodes, the variables and the counts. A cached C string is the text of its node. */
  ghost predicate Ok<C>(cells: Cells<C>, rank: Ranks, vars: Vars, count: map<nat, nat>, refs: Refs,
                        cstr: map<nat, seq<C>>, unused: nat) {
    && Sized(cells, rank) && Counted(cells, vars, count, refs) && unused > 0
    && (forall x :: x in cells ==> x < unused)
    && (forall x :: x in cstr ==> CachedAt(cells, rank, cstr, x))
  }

  /** The text of a variable; null is the empty rope. */
  ghost function VarText<C>(cells: Cells<C>, rank: Ranks, vars: Vars, k: nat): seq<C>
    requires Shape(cells, rank) && k in vars && (vars[k] != 0 ==> vars[k] in cells)
  {
    if vars[k] == 0 then [] else Text(cells, rank, vars[k])
  }

  // ---------- a node added ----------

  /** Node `x`, unless null, is as it was, and so is its text. */
  ghost predicate SameNode<C>(cells: Cells<C>, rank: Ranks, cells': Cells<C>, rank': Ranks, x: nat)
    requires Shape(cells, rank) && Shape(cells', rank')
  {
    x != 0 ==> (x in cells && x in cells' && cells'[x] == cells[x] && rank'[x] == rank[x]
                && Text(cells', rank', x) == Text(cells, rank, x) && Val(cells', rank', x) == Val(cells, rank, x))
  }

  lemma ShapeAdded<C>(cells: Cells<C>, rank: Ranks, n: nat, c: Cell<C>, h: nat)
    requires Shape(cells, rank) && n !in cells && n > 0 && forall y :: Kid(c, y) ==> y in cells && rank[y] < h
    ensures Shape(cells[n := c], rank[n := h])
  {
    var cells', rank' := cells[n := c], rank[n := h];
    forall x, y | x in cells' && Kid(cells'[x], y) ensures y in cells' && rank'[y] < rank'[x] {
      assert x != n ==> Kid(cells[x], y);
    }
  }

  lemma TextsAdded<C>(cells: Cells<C>, rank: Ranks, n: nat, c: Cell<C>, h: nat)
    requires Shape(cells, rank) && n !in cells && Shape(cells[n := c], rank[n := h])
    ensures forall x :: x in cells ==> SameNode(cells, rank, cells[n := c], rank[n := h], x)
  {
    forall x | x in cells ensures SameNode(cells, rank, cells[n := c], rank[n := h], x) {
      TextSame(cells, rank, cells[n := c], rank[n := h], {}, x);
    }
  }

  lemma NothingPoints<C>(cells: Cells<C>, rank: Ranks, vars: Vars, n: nat, r: Ref)
    requires Shape(cells, rank) && n !in cells && n > 0 && forall k :: k in vars && vars[k] != 0 ==> vars[k] in cells
    ensures !Points(cells, vars, r, n)
  {
    if Points(cells, vars, r, n) && !r.Root? {
      assert Kid(cells[r.p], n);
    }
  }

  lemma CountedFlat<C>(cells: Cells<C>, rank: Ranks, vars: Vars, count: map<nat, nat>, refs: Refs, n: nat, c: Cell<C>,
                       t: nat)
    requires Shape(cells, rank) && Counted(cells, vars, count, refs) && n !in cells && n > 0 && t !in vars
    requires c.Leaf? || c.Function?
    ensures Counted(cells[n := c], vars[t := n], count[n := 1], refs[n := {Root(t)}])
  {
    var cells', vars', count', refs' := cells[n := c], vars[t := n], count[n := 1], refs[n := {Root(t)}];
    forall x | x in cells' ensures Tracked(cells', vars', count', refs', x) {
      if x != n {
        assert Tracked(cells, vars, count, refs, x);
        forall r ensures Points(cells', vars', r, x) <==> Points(cells, vars, r, x) {
          PointsFlat(cells, rank, vars, n, c, t, r, x);
        }
      } else {
        forall r ensures Points(cells', vars', r, x) <==> r == Root(t) {
          PointsFlat(cells, rank, vars, n, c, t, r, x);
        }
      }
    }
  }

  lemma PointsFlat<C>(cells: Cells<C>, rank: Ranks, vars: Vars, n: nat, c: Cell<C>, t: nat, r: Ref, x: nat)
    requires Shape(cells, rank) && n !in cells && n > 0 && t !in vars && (c.Leaf? || c.Function?)
             && forall k :: k in vars && vars[k] != 0 ==> vars[k] in cells
    ensures Points(cells[n := c], vars[t := n], r, x) <==>
              if x == n then r == Root(t) else Points(cells, vars, r, x)
  {
    NothingPoints(cells, rank, vars, n, r);
  }

  /** A new leaf or function, held by the temporary `t`. */
  lemma NewFlatOk<C>(cells: Cells<C>, rank: Ranks, vars: Vars, count: map<nat, nat>, refs: Refs, cstr: map<nat, seq<C>>,
                     unused: nat, c: Cell<C>, t: nat)
    requires Ok(cells, rank, vars, count, refs, cstr, unused) && t !in vars
    requires (c.Leaf? && c.data != []) || (c.Function? && c.len > 0)
    ensures Ok(cells[unused := c], rank[unused := 0], vars[t := unused], count[unused := 1],
               refs[unused := {Root(t)}], cstr, unused + 1)
    ensures forall x :: x in cells ==> SameNode(cells, rank, cells[unused := c], rank[unused := 0], x)
  {
    ShapeAdded(cells, rank, unused, c, 0);
    TextsAdded(cells, rank, unused, c, 0);
    CountedFlat(cells, rank, vars, count, refs, unused, c, t);
    AddedOk(cells, rank, vars, count, refs, cstr, unused, c, cells[unused := c], rank[unused := 0],
            vars[t := unused], count[unused := 1], refs[unused := {Root(t)}]);
  }

  /** Nodes that are as they were, and their parts too, stay right and keep their cached strings. */
  lemma KeptOk<C>(cells: Cells<C>, rank: Ranks, cstr: map<nat, seq<C>>, cells': Cells<C>, rank': Ranks,
                  cstr': map<nat, seq<C>>)
    requires Sized(cells, rank) && Shape(cells', rank') && forall x :: x in cstr ==> CachedAt(cells, rank, cstr, x)
    requires forall x :: x in cstr' ==> x in cstr && cstr'[x] == cstr[x] && x in cells && x in cells'
    requires forall x :: x in cells && x in cells' ==> SameNode(cells, rank, cells', rank', x)
    ensures forall x :: x in cells && x in cells' ==> Fine(cells', x)
    ensures forall x :: x in cstr' ==> CachedAt(cells', rank', cstr', x)
  {
    forall x | x in cells && x in cells' ensures Fine(cells', x) {
      assert Fine(cells, x) && SameNode(cells, rank, cells', rank', x) && x != 0;
      forall y | Kid(cells[x], y) ensures y in cells' && cells'[y] == cells[y] {
        assert Kid(cells'[x], y) && SameNode(cells, rank, cells', rank', y) && y != 0;
      }
      FineSame(cells, cells', x);
    }
    forall x | x in cstr' ensures CachedAt(cells', rank', cstr', x) {
      assert CachedAt(cells, rank, cstr, x) && SameNode(cells, rank, cells', rank', x) && x != 0;
    }
  }

  lemma FineSame<C>(cells: Cells<C>, cells': Cells<C>, x: nat)
    requires x in cells && x in cells' && cells'[x] == cells[x] && Fine(cells, x)
    requires forall y :: Kid(cells[x], y) ==> y in cells && y in cells' && Alike(cells[y], cells'[y])
    ensures Fine(cells', x)
  {
    match cells[x]
    case Concat(l, r, _, _, _) =>
      assert Kid(cells[x], l) && Kid(cells[x], r);
    case Substring(b, _, _) =>
      assert Kid(cells[x], b);
    case _ =>
  }

  /** What the nodes above see of a node. */
  predicate Alike<C>(c: Cell<C>, d: Cell<C>) {
    SizeOf(c) == SizeOf(d) && DepthOf(c) == DepthOf(d) && (c.Leaf? <==> d.Leaf?) && (c.Function? <==> d.Function?)
  }

  /** A node added. */
  lemma AddedOk<C>(cells: Cells<C>, rank: Ranks, vars: Vars, count: map<nat, nat>, refs: Refs, cstr: map<nat, seq<C>>,
                   n: nat, c: Cell<C>, cells': Cells<C>, rank': Ranks, vars': Vars, count': map<nat, nat>, refs': Refs)
    requires Ok(cells, rank, vars, count, refs, cstr, n) && n !in cells && cells' == cells[n := c]
             && Shape(cells', rank') && Fine(cells', n)
    requires Counted(cells', vars', count', refs') && forall x :: x in cells ==> SameNode(cells, rank, cells', rank', x)
    ensures Ok(cells', rank', vars', count', refs', cstr, n + 1)
  {
    KeptOk(cells, rank, cstr, cells', rank', cstr);
  }

  /** Two references change hands, `a` to `c` and `b` to `d`. */
  ghost function TwoMoved(refs: Refs, l: nat, r: nat, a: Ref, b: Ref, c: Ref, d: Ref): Refs
    requires l in refs && r in refs
  {
    var refs1 := refs[l := refs[l] - {a} + {c}];
    refs1[r := refs1[r] - {b} + {d}]
  }

  lemma TwoMovedAt(refs: Refs, l: nat, r: nat, a: Ref, b: Ref, c: Ref, d: Ref, x: nat)
    requires l in refs && r in refs && a in refs[l] && b in refs[r] && c !in refs[l] && d !in refs[r] && x in refs
    requires a != b && a != d && b != c && c != d
    ensures var s := TwoMoved(refs, l, r, a, b, c, d)[x];
            && |s| == |refs[x]|
            && forall f :: f in s <==> ((f == c && x == l) || (f == d && x == r)
                                        || (f in refs[x] && !(f == a && x == l) && !(f == b && x == r)))
  {
    Replaced(refs[l], a, c);
    Replaced(refs[l := refs[l] - {a} + {c}][r], b, d);
  }

  /** The two temporaries that hold the parts become the slots of a new concatenation. */
  lemma CountedConcat<C>(cells: Cells<C>, rank: Ranks, vars: Vars, count: map<nat, nat>, refs: Refs, n: nat, a: nat,
                         b: nat, c: Cell<C>, t: nat)
    requires Shape(cells, rank) && Counted(cells, vars, count, refs) && n !in cells && n > 0 && t !in vars
    requires a in vars && b in vars && a != b && vars[a] in cells && vars[b] in cells && c.Concat? && c.left == vars[a]
             && c.right == vars[b]
    ensures var l, r := vars[a], vars[b];
            l in refs && r in refs
            && Counted(cells[n := c], Merged(vars, a, b, t, n), count[n := 1],
                       TwoMoved(refs, l, r, Root(a), Root(b), Left(n), Right(n))[n := {Root(t)}])
  {
    var l, r := vars[a], vars[b];
    assert Tracked(cells, vars, count, refs, l) && Tracked(cells, vars, count, refs, r);
    var cells', vars', count' := cells[n := c], Merged(vars, a, b, t, n), count[n := 1];
    var refs' := TwoMoved(refs, l, r, Root(a), Root(b), Left(n), Right(n))[n := {Root(t)}];
    forall x | x in cells ensures Tracked(cells', vars', count', refs', x) {
      assert Tracked(cells, vars, count, refs, x);
      TrackedConcat(cells, vars, count, refs, n, a, b, c, t, x);
    }
    TrackedNew(cells, rank, vars, n, a, b, c, t, count', refs');
  }

  lemma TrackedNew<C>(cells: Cells<C>, rank: Ranks, vars: Vars, n: nat, a: nat, b: nat, c: Cell<C>, t: nat,
                      count': map<nat, nat>, refs': Refs)
    requires Shape(cells, rank) && n !in cells && n > 0 && t !in vars
             && forall k :: k in vars && vars[k] != 0 ==> vars[k] in cells
    requires a in vars && b in vars && a != b && vars[a] in cells && vars[b] in cells && c.Concat? && c.left == vars[a]
             && c.right == vars[b]
    requires n in count' && count'[n] == 1 && n in refs' && refs'[n] == {Root(t)}
    ensures Tracked(cells[n := c], Merged(vars, a, b, t, n), count', refs', n)
  {
    forall f ensures f in refs'[n] <==> Points(cells[n := c], Merged(vars, a, b, t, n), f, n) {
      PointsNewConcat(cells, rank, vars, n, a, b, c, t, f);
    }
  }

  lemma TrackedConcat<C>(cells: Cells<C>, vars: Vars, count: map<nat, nat>, refs: Refs, n: nat, a: nat, b: nat,
                         c: Cell<C>, t: nat, x: nat)
    requires n !in cells && t !in vars && a in vars && b in vars && a != b && x != n && c.Concat? && c.left == vars[a]
             && c.right == vars[b]
    requires Tracked(cells, vars, count, refs, vars[a]) && Tracked(cells, vars, count, refs, vars[b])
             && Tracked(cells, vars, count, refs, x)
    ensures var s := TwoMoved(refs, vars[a], vars[b], Root(a), Root(b), Left(n), Right(n))[x];
            && |s| == |refs[x]|
            && forall f :: f in s <==> Points(cells[n := c], Merged(vars, a, b, t, n), f, x)
  {
    var l, r := vars[a], vars[b];
    assert Points(cells, vars, Root(a), l) && Points(cells, vars, Root(b), r);
    assert !Points(cells, vars, Left(n), l) && !Points(cells, vars, Right(n), r);
    TwoMovedAt(refs, l, r, Root(a), Root(b), Left(n), Right(n), x);
    var s := TwoMoved(refs, l, r, Root(a), Root(b), Left(n), Right(n))[x];
    forall f ensures f in s <==> Points(cells[n := c], Merged(vars, a, b, t, n), f, x) {
      assert f in refs[x] <==> Points(cells, vars, f, x);
      PointsConcat(cells, vars, n, a, b, c, t, f, x);
    }
  }

  lemma PointsConcat<C>(cells: Cells<C>, vars: Vars, n: nat, a: nat, b: nat, c: Cell<C>, t: nat, f: Ref, x: nat)
    requires n !in cells && t !in vars && a in vars && b in vars && a != b && x != n && c.Concat? && c.left == vars[a]
             && c.right == vars[b]
    ensures Points(cells[n := c], Merged(vars, a, b, t, n), f, x)
            <==> (f == Left(n) && x == vars[a]) || (f == Right(n) && x == vars[b])
                 || (Points(cells, vars, f, x) && f != Root(a) && f != Root(b))
  {
  }

  lemma PointsNewConcat<C>(cells: Cells<C>, rank: Ranks, vars: Vars, n: nat, a: nat, b: nat, c: Cell<C>, t: nat, f: Ref)
    requires Shape(cells, rank) && n !in cells && n > 0 && t !in vars
             && forall k :: k in vars && vars[k] != 0 ==> vars[k] in cells
    requires a in vars && b in vars && a != b && vars[a] in cells && vars[b] in cells && c.Concat? && c.left == vars[a]
             && c.right == vars[b]
    ensures Points(cells[n := c], Merged(vars, a, b, t, n), f, n) <==> f == Root(t)
  {
    NothingPoints(cells, rank, vars, n, f);
  }

  lemma Replaced<T>(s: set<T>, x: T, y: T)
    requires x in s && y !in s
    ensures |s - {x} + {y}| == |s|
  {
  }

  // ---------- variables come and go ----------

  /** One more variable for a node. */
  lemma CountedVar<C>(cells: Cells<C>, vars: Vars, count: map<nat, nat>, refs: Refs, x: nat, t: nat)
    requires Counted(cells, vars, count, refs) && t !in vars && x in cells
    ensures Counted(cells, vars[t := x], count[x := count[x] + 1], refs[x := refs[x] + {Root(t)}])
  {
    assert Tracked(cells, vars, count, refs, x) && !Points(cells, vars, Root(t), x);
    var vars', count', refs' := vars[t := x], count[x := count[x] + 1], refs[x := refs[x] + {Root(t)}];
    forall y | y in cells ensures Tracked(cells, vars', count', refs', y) {
      assert Tracked(cells, vars, count, refs, y);
    }
  }

  /** One variable less for a node that has other references. */
  lemma CountedWithout<C>(cells: Cells<C>, vars: Vars, count: map<nat, nat>, refs: Refs, x: nat, t: nat)
    requires Counted(cells, vars, count, refs) && t in vars && vars[t] == x && x in cells && count[x] > 1
    ensures Counted(cells, vars - {t}, count[x := count[x] - 1], refs[x := refs[x] - {Root(t)}])
  {
    assert Tracked(cells, vars, count, refs, x) && Points(cells, vars, Root(t), x);
    assert |refs[x] - {Root(t)}| == |refs[x]| - 1;
    var vars', count', refs' := vars - {t}, count[x := count[x] - 1], refs[x := refs[x] - {Root(t)}];
    forall y | y in cells ensures Tracked(cells, vars', count', refs', y) {
      assert Tracked(cells, vars, count, refs, y);
    }
  }

  lemma CountedNull<C>(cells: Cells<C>, vars: Vars, count: map<nat, nat>, refs: Refs, t: nat)
    requires Counted(cells, vars, count, refs) && 0 !in cells
    ensures t !in vars ==> Counted(cells, vars[t := 0], count, refs)
    ensures t in vars && vars[t] == 0 ==> Counted(cells, vars - {t}, count, refs)
  {
    var more, less := vars[t := 0], vars - {t};
    forall y | y in cells ensures (t !in vars ==> Tracked(cells, more, count, refs, y))
                                  && (t in vars && vars[t] == 0 ==> Tracked(cells, less, count, refs, y)) {
      assert Tracked(cells, vars, count, refs, y);
    }
  }

  /** A variable is renamed. */
  lemma CountedRenamed<C>(cells: Cells<C>, vars: Vars, count: map<nat, nat>, refs: Refs, t: nat, k: nat)
    requires Counted(cells, vars, count, refs) && t in vars && k !in vars && 0 !in cells
    ensures vars[t] == 0 ==> Counted(cells, (vars - {t})[k := 0], count, refs)
    ensures vars[t] != 0 ==>
              Counted(cells, (vars - {t})[k := vars[t]], count, refs[vars[t] := refs[vars[t]] - {Root(t)} + {Root(k)}])
  {
    var x, vars' := vars[t], (vars - {t})[k := vars[t]];
    if x == 0 {
      CountedNull(cells, vars, count, refs, t);
      CountedNull(cells, vars - {t}, count, refs, k);
    } else {
      assert Tracked(cells, vars, count, refs, x) && Points(cells, vars, Root(t), x)
             && !Points(cells, vars, Root(k), x);
      Replaced(refs[x], Root(t), Root(k));
      var refs' := refs[x := refs[x] - {Root(t)} + {Root(k)}];
      forall y | y in cells ensures Tracked(cells, vars', count, refs', y) {
        assert Tracked(cells, vars, count, refs, y);
      }
    }
  }

  // ---------- nodes freed ----------

  /** A node that only a variable held is gone; nothing else mentions it. */
  lemma ShapeFreed<C>(cells: Cells<C>, rank: Ranks, x: nat)
    requires Shape(cells, rank) && forall p :: p in cells ==> !Kid(cells[p], x)
    ensures Shape(cells - {x}, rank)
    ensures forall y :: y in cells && y != x ==> SameNode(cells, rank, cells - {x}, rank, y)
  {
    ShapeLess(cells, rank, x);
    var cells' := cells - {x};
    forall y | y in cells && y != x ensures SameNode(cells, rank, cells', rank, y) {
      TextSame(cells, rank, cells', rank, {x}, y);
    }
  }

  lemma ShapeLess<C>(cells: Cells<C>, rank: Ranks, x: nat)
    requires Shape(cells, rank) && forall p :: p in cells ==> !Kid(cells[p], x)
    ensures Shape(cells - {x}, rank)
  {
    var cells' := cells - {x};
    forall p, y | p in cells' && Kid(cells'[p], y) ensures y in cells' && rank[y] < rank[p] {
      assert p in cells && cells'[p] == cells[p];
      assert Kid(cells[p], y);
    }
  }

  /** A freed node without parts. */
  lemma CountedFreed<C>(cells: Cells<C>, vars: Vars, count: map<nat, nat>, refs: Refs, x: nat, t: nat)
    requires Counted(cells, vars, count, refs) && t in vars && vars[t] == x && x in cells && refs[x] == {Root(t)}
    requires cells[x].Leaf? || cells[x].Function?
    requires forall j :: j in vars && j != t ==> vars[j] != x
    ensures Counted(cells - {x}, vars - {t}, count, refs)
  {
    var cells', vars' := cells - {x}, vars - {t};
    forall y | y in cells' ensures Tracked(cells', vars', count, refs, y) {
      assert Tracked(cells, vars, count, refs, y);
    }
  }

  /** A freed concatenation: its parts pass to two temporaries. */
  lemma CountedConcatFreed<C>(cells: Cells<C>, vars: Vars, count: map<nat, nat>, refs: Refs, x: nat, t: nat, a: nat,
                              b: nat)
    requires Counted(cells, vars, count, refs) && t in vars && vars[t] == x && x in cells && cells[x].Concat?
    requires forall j :: j in vars && j != t ==> vars[j] != x
    requires a !in vars && b !in vars && a != b && cells[x].left in cells && cells[x].right in cells
             && cells[x].left != x && cells[x].right != x
    ensures var l, r := cells[x].left, cells[x].right;
            l in refs && r in refs
            && Counted(cells - {x}, (vars - {t})[a := l][b := r], count,
                       TwoMoved(refs, l, r, Left(x), Right(x), Root(a), Root(b)))
  {
    var l, r := cells[x].left, cells[x].right;
    assert Tracked(cells, vars, count, refs, l) && Tracked(cells, vars, count, refs, r);
    var cells', vars', refs' := cells - {x}, (vars - {t})[a := l][b := r],
        TwoMoved(refs, l, r, Left(x), Right(x), Root(a), Root(b));
    forall y | y in cells' ensures Tracked(cells', vars', count, refs', y) {
      assert Tracked(cells, vars, count, refs, y);
      TrackedConcatFreed(cells, vars, count, refs, x, t, a, b, y);
    }
  }

  lemma TrackedConcatFreed<C>(cells: Cells<C>, vars: Vars, count: map<nat, nat>, refs: Refs, x: nat, t: nat, a: nat,
                              b: nat, y: nat)
    requires t in vars && vars[t] == x && x in cells && cells[x].Concat? && y != x && a !in vars && b !in vars && a != b
    requires Tracked(cells, vars, count, refs, cells[x].left) && Tracked(cells, vars, count, refs, cells[x].right)
    requires Tracked(cells, vars, count, refs, y)
    ensures Tracked(cells - {x}, (vars - {t})[a := cells[x].left][b := cells[x].right], count,
                    TwoMoved(refs, cells[x].left, cells[x].right, Left(x), Right(x), Root(a), Root(b)), y)
  {
    var l, r := cells[x].left, cells[x].right;
    assert Points(cells, vars, Left(x), l) && Points(cells, vars, Right(x), r);
    assert !Points(cells, vars, Root(a), l) && !Points(cells, vars, Root(b), r);
    TwoMovedAt(refs, l, r, Left(x), Right(x), Root(a), Root(b), y);
    forall f ensures Points(cells - {x}, (vars - {t})[a := l][b := r], f, y)
                     <==> Passed(refs[y], x, a, b, l, r, y, f) {
      PointsConcatFreed(cells, vars, x, t, a, b, f, y);
      assert f in refs[y] <==> Points(cells, vars, f, y);
      assert Points(cells, vars, f, y) && f == Left(x) ==> y == l;
      assert Points(cells, vars, f, y) && f == Right(x) ==> y == r;
    }
    TrackedPassed(cells - {x}, (vars - {t})[a := l][b := r], count, refs[y],
                  TwoMoved(refs, l, r, Left(x), Right(x), Root(a), Root(b)), x, a, b, l, r, y);
  }

  /** The references to node `y` once node `x` has passed its parts `l` and `r` to the temporaries `a` and `b`. */
  ghost predicate Passed(s: set<Ref>, x: nat, a: nat, b: nat, l: nat, r: nat, y: nat, f: Ref) {
    (f == Root(a) && y == l) || (f == Root(b) && y == r)
      || (f in s && !(f == Left(x) && y == l) && !(f == Right(x) && y == r))
  }

  lemma TrackedPassed<C>(cells: Cells<C>, vars: Vars, count: map<nat, nat>, s: set<Ref>, refs: Refs, x: nat, a: nat,
                         b: nat, l: nat, r: nat, y: nat)
    requires y in count && y in refs && count[y] == |s| == |refs[y]| && s != {}
    requires forall f :: f in refs[y] <==> ((f == Root(a) && y == l) || (f == Root(b) && y == r)
                                            || (f in s && !(f == Left(x) && y == l) && !(f == Right(x) && y == r)))
    requires forall f :: Points(cells, vars, f, y) <==> Passed(s, x, a, b, l, r, y, f)
    ensures Tracked(cells, vars, count, refs, y)
  {
    assert |refs[y]| > 0;
  }

  lemma PointsConcatFreed<C>(cells: Cells<C>, vars: Vars, x: nat, t: nat, a: nat, b: nat, f: Ref, y: nat)
    requires x in cells && cells[x].Concat? && t in vars && vars[t] == x && a !in vars && b !in vars && a != b && y != x
    ensures Points(cells - {x}, (vars - {t})[a := cells[x].left][b := cells[x].right], f, y)
            <==> (f == Root(a) && y == cells[x].left) || (f == Root(b) && y == cells[x].right)
                 || (Points(cells, vars, f, y) && f != Left(x) && f != Right(x))
  {
  }

  /** A freed substring: its base passes to a temporary. */
  lemma CountedSubstringFreed<C>(cells: Cells<C>, vars: Vars, count: map<nat, nat>, refs: Refs, x: nat, t: nat, a: nat)
    requires Counted(cells, vars, count, refs) && t in vars && vars[t] == x && x in cells && refs[x] == {Root(t)}
             && cells[x].Substring?
    requires forall j :: j in vars && j != t ==> vars[j] != x
    requires a !in vars && cells[x].base in cells && cells[x].base != x
    ensures var l := cells[x].base;
            Counted(cells - {x}, (vars - {t})[a := l], count, refs[l := refs[l] - {Base(x)} + {Root(a)}])
  {
    var l := cells[x].base;
    var cells', vars', refs' := cells - {x}, (vars - {t})[a := l], refs[l := refs[l] - {Base(x)} + {Root(a)}];
    assert Tracked(cells, vars, count, refs, l) && Points(cells, vars, Base(x), l) && !Points(cells, vars, Root(a), l);
    Replaced(refs[l], Base(x), Root(a));
    forall y | y in cells' ensures Tracked(cells', vars', count, refs', y) {
      assert Tracked(cells, vars, count, refs, y);
      forall f ensures f in refs'[y] <==> Points(cells', vars', f, y) {
        PointsSubstringFreed(cells, vars, x, t, a, f, y);
      }
    }
  }

  lemma PointsSubstringFreed<C>(cells: Cells<C>, vars: Vars, x: nat, t: nat, a: nat, f: Ref, y: nat)
    requires x in cells && cells[x].Substring? && t in vars && vars[t] == x && a !in vars && y != x
    ensures Points(cells - {x}, (vars - {t})[a := cells[x].base], f, y)
            <==> (f == Root(a) && y == cells[x].base) || (Points(cells, vars, f, y) && f != Base(x))
  {
  }

  // ---------- the same for the whole state ----------

  /** All variables but `k` stay what they are, with the same texts. */
  ghost predicate OthersSame<C>(cells: Cells<C>, rank: Ranks, vars: Vars, cells': Cells<C>, rank': Ranks, vars': Vars,
                                k: nat)
    requires Shape(cells, rank) && Shape(cells', rank')
  {
    forall m :: m in vars && m != k ==> (m in vars' && vars'[m] == vars[m]
                                         && SameNode(cells, rank, cells', rank', vars[m]))
  }

  lemma NewConcatTexts<C>(cells: Cells<C>, rank: Ranks, n: nat, l: nat, r: nat, h: nat)
    requires Shape(cells, rank) && l in cells && r in cells && n !in cells && n > 0 && h == Max(rank[l], rank[r]) + 1
    ensures var cells', rank' := cells[n := NewCell(cells, l, r)], rank[n := h];
            && Shape(cells', rank') && Text(cells', rank', n) == Text(cells, rank, l) + Text(cells, rank, r)
               && Fine(cells', n)
            && Val(cells', rank', n) == RopeConcat.NewConcat(Val(cells, rank, l), Val(cells, rank, r))
            && forall x :: x in cells ==> SameNode(cells, rank, cells', rank', x)
  {
    var c := NewCell(cells, l, r);
    ShapeAdded(cells, rank, n, c, h);
    TextsAdded(cells, rank, n, c, h);
    assert SameNode(cells, rank, cells[n := c], rank[n := h], l)
           && SameNode(cells, rank, cells[n := c], rank[n := h], r);
    SizesAgree(cells, rank, l);
    SizesAgree(cells, rank, r);
    ConcatUnfolds(cells[n := c], rank[n := h], n);
  }

  lemma ConcatUnfolds<C>(cells: Cells<C>, rank: Ranks, x: nat)
    requires Shape(cells, rank) && x in cells && cells[x].Concat?
    ensures var c := cells[x];
            && c.left in cells && c.right in cells
            && Val(cells, rank, x) == RopeTree.Concat(c.size, c.depth, c.balanced, Val(cells, rank, c.left),
                                                      Val(cells, rank, c.right))
            && Text(cells, rank, x) == Text(cells, rank, c.left) + Text(cells, rank, c.right)
  {
    assert Kid(cells[x], cells[x].left) && Kid(cells[x], cells[x].right);
  }

  lemma NewConcatOk<C>(cells: Cells<C>, rank: Ranks, vars: Vars, count: map<nat, nat>, refs: Refs,
                       cstr: map<nat, seq<C>>, unused: nat, a: nat, b: nat, t: nat, h: nat) returns (refs': Refs)
    requires Ok(cells, rank, vars, count, refs, cstr, unused) && t !in vars && a in vars && b in vars && a != b
             && vars[a] in cells && vars[b] in cells
    requires h == Max(rank[vars[a]], rank[vars[b]]) + 1
    ensures Ok(cells[unused := NewCell(cells, vars[a], vars[b])], rank[unused := h], Merged(vars, a, b, t, unused),
               count[unused := 1], refs', cstr, unused + 1)
  {
    var c := NewCell(cells, vars[a], vars[b]);
    NewConcatTexts(cells, rank, unused, vars[a], vars[b], h);
    CountedConcat(cells, rank, vars, count, refs, unused, a, b, c, t);
    refs' := TwoMoved(refs, vars[a], vars[b], Root(a), Root(b), Left(unused), Right(unused))[unused := {Root(t)}];
    AddedOk(cells, rank, vars, count, refs, cstr, unused, c, cells[unused := c], rank[unused := h],
            Merged(vars, a, b, t, unused), count[unused := 1], refs');
  }

  lemma AddVarOk<C>(cells: Cells<C>, rank: Ranks, vars: Vars, count: map<nat, nat>, refs: Refs, cstr: map<nat, seq<C>>,
                    unused: nat, x: nat, t: nat)
    requires Ok(cells, rank, vars, count, refs, cstr, unused) && t !in vars && x in cells
    ensures x in count && x in refs && Ok(cells, rank, vars[t := x], count[x := count[x] + 1],
                                          refs[x := refs[x] + {Root(t)}], cstr, unused)
  {
    assert Tracked(cells, vars, count, refs, x);
    CountedVar(cells, vars, count, refs, x, t);
  }

  lemma DropVarOk<C>(cells: Cells<C>, rank: Ranks, vars: Vars, count: map<nat, nat>, refs: Refs, cstr: map<nat, seq<C>>,
                     unused: nat, x: nat, t: nat)
    requires Ok(cells, rank, vars, count, refs, cstr, unused) && t in vars && vars[t] == x && x in cells && x in count
             && count[x] > 1
    ensures x in refs && Ok(cells, rank, Unbound(vars, t), count[x := count[x] - 1], refs[x := refs[x] - {Root(t)}],
                            cstr, unused)
  {
    assert Tracked(cells, vars, count, refs, x);
    CountedWithout(cells, vars, count, refs, x, t);
  }

  lemma OthersTrans<C>(c0: Cells<C>, r0: Ranks, v0: Vars, c1: Cells<C>, r1: Ranks, v1: Vars, c2: Cells<C>, r2: Ranks,
                       v2: Vars, k: nat, a: nat)
    requires Shape(c0, r0) && Shape(c1, r1) && Shape(c2, r2)
    requires OthersSame(c0, r0, v0, c1, r1, v1, k) && OthersSame(c1, r1, v1, c2, r2, v2, a) && (a == k || a !in v0)
    ensures OthersSame(c0, r0, v0, c2, r2, v2, k)
  {
    forall m | m in v0 && m != k ensures m in v2 && v2[m] == v0[m] && SameNode(c0, r0, c2, r2, v0[m]) {
      assert SameNode(c0, r0, c1, r1, v0[m]);
      assert SameNode(c1, r1, c2, r2, v1[m]);
    }
  }

  /** The variables are the same, but for `t`, which is new. */
  ghost predicate Plus(vars: Vars, vars': Vars, t: nat) {
    t !in vars && vars'.Keys == vars.Keys + {t} && forall m :: m in vars ==> m in vars' && vars'[m] == vars[m]
  }

  /** No text of a node has changed. */
  ghost predicate NodesSame<C>(cells: Cells<C>, rank: Ranks, cells': Cells<C>, rank': Ranks)
    requires Shape(cells, rank) && Shape(cells', rank')
  {
    forall x :: x in cells ==> SameNode(cells, rank, cells', rank', x)
  }

  lemma NodesTrans<C>(c0: Cells<C>, r0: Ranks, c1: Cells<C>, r1: Ranks, c2: Cells<C>, r2: Ranks)
    requires Shape(c0, r0) && Shape(c1, r1) && Shape(c2, r2) && NodesSame(c0, r0, c1, r1) && NodesSame(c1, r1, c2, r2)
    ensures NodesSame(c0, r0, c2, r2)
  {
    forall x | x in c0 ensures SameNode(c0, r0, c2, r2, x) {
      assert SameNode(c0, r0, c1, r1, x) && (x != 0 ==> SameNode(c1, r1, c2, r2, x));
    }
  }

  lemma NodeIs<C>(c0: Cells<C>, r0: Ranks, c1: Cells<C>, r1: Ranks, x: nat)
    requires Shape(c0, r0) && Shape(c1, r1) && NodesSame(c0, r0, c1, r1) && x in c0
    ensures x in c1 && c1[x] == c0[x] && r1[x] == r0[x] && Text(c1, r1, x) == Text(c0, r0, x)
  {
    assert SameNode(c0, r0, c1, r1, x) && x != 0;
  }

  lemma VarKnown<C>(cells: Cells<C>, rank: Ranks, vars: Vars, count: map<nat, nat>, refs: Refs, cstr: map<nat, seq<C>>,
                    unused: nat, k: nat)
    requires Ok(cells, rank, vars, count, refs, cstr, unused) && k in vars && vars[k] != 0
    ensures vars[k] in cells && vars[k] in count && vars[k] in refs && vars[k] in rank
            && count[vars[k]] == |refs[vars[k]]| > 0 && vars[k] < unused
    ensures |Text(cells, rank, vars[k])| == SizeOf(cells[vars[k]])
  {
    assert Tracked(cells, vars, count, refs, vars[k]);
    Stands(cells, rank, vars[k]);
  }

  /** Everything about `_S_new_RopeConcatenation`. */
  lemma MakeConcatOk<C>(cells: Cells<C>, rank: Ranks, vars: Vars, count: map<nat, nat>, refs: Refs,
                        cstr: map<nat, seq<C>>, unused: nat, a: nat, b: nat, t: nat) returns (h: nat, refs': Refs)
    requires Ok(cells, rank, vars, count, refs, cstr, unused) && t !in vars && a in vars && b in vars && a != b
             && vars[a] in cells && vars[b] in cells
    ensures var cells', rank' := cells[unused := NewCell(cells, vars[a], vars[b])], rank[unused := h];
            && Ok(cells', rank', Merged(vars, a, b, t, unused), count[unused := 1], refs', cstr, unused + 1)
               && NodesSame(cells, rank, cells', rank')
            && Text(cells', rank', unused) == Text(cells, rank, vars[a]) + Text(cells, rank, vars[b])
            && Val(cells', rank', unused) == RopeConcat.NewConcat(Val(cells, rank, vars[a]), Val(cells, rank, vars[b]))
  {
    h := Max(rank[vars[a]], rank[vars[b]]) + 1;
    NewConcatTexts(cells, rank, unused, vars[a], vars[b], h);
    refs' := NewConcatOk(cells, rank, vars, count, refs, cstr, unused, a, b, t, h);
  }

  lemma OthersFromNodes<C>(c0: Cells<C>, r0: Ranks, v0: Vars, c1: Cells<C>, r1: Ranks, v1: Vars, t: nat, k: nat)
    requires Shape(c0, r0) && Shape(c1, r1) && NodesSame(c0, r0, c1, r1) && Plus(v0, v1, t)
    requires forall m :: m in v0 && v0[m] != 0 ==> v0[m] in c0
    ensures OthersSame(c0, r0, v0, c1, r1, v1, k)
  {
    forall m | m in v0 && m != k ensures m in v1 && v1[m] == v0[m] && SameNode(c0, r0, c1, r1, v0[m]) {
      if v0[m] != 0 {
        assert SameNode(c0, r0, c1, r1, v0[m]);
      }
    }
  }

  // ---------- a lazy substring added ----------

  /** The temporary that holds the base becomes the base slot of a new substring. */
  lemma CountedSubstring<C>(cells: Cells<C>, rank: Ranks, vars: Vars, count: map<nat, nat>, refs: Refs, n: nat, a: nat,
                            i: nat, len: nat, t: nat)
    requires Shape(cells, rank) && Counted(cells, vars, count, refs) && n !in cells && n > 0 && t !in vars && a in vars
             && vars[a] in cells
    ensures var l := vars[a];
            l in refs && Counted(cells[n := Substring(l, i, len)], Rebound(vars, a, t, n), count[n := 1],
                                 BaseMoved(refs, l, a, n, t))
  {
    var l := vars[a];
    assert Tracked(cells, vars, count, refs, l) && Points(cells, vars, Root(a), l) && !Points(cells, vars, Base(n), l);
    Replaced(refs[l], Root(a), Base(n));
    var cells', vars', count', refs' := cells[n := Substring(l, i, len)], Rebound(vars, a, t, n), count[n := 1],
        BaseMoved(refs, l, a, n, t);
    forall x | x in cells' ensures Tracked(cells', vars', count', refs', x) {
      if x != n {
        assert Tracked(cells, vars, count, refs, x);
      }
      forall f ensures f in refs'[x] <==> Points(cells', vars', f, x) {
        PointsSubstring(cells, rank, vars, n, a, i, len, t, f, x);
      }
    }
  }

  ghost function BaseMoved(refs: Refs, l: nat, a: nat, n: nat, t: nat): Refs
    requires l in refs
  {
    refs[l := refs[l] - {Root(a)} + {Base(n)}][n := {Root(t)}]
  }

  lemma PointsSubstring<C>(cells: Cells<C>, rank: Ranks, vars: Vars, n: nat, a: nat, i: nat, len: nat, t: nat, f: Ref,
                           x: nat)
    requires Shape(cells, rank) && n !in cells && n > 0 && t !in vars
             && forall k :: k in vars && vars[k] != 0 ==> vars[k] in cells
    requires a in vars && vars[a] in cells
    ensures Points(cells[n := Substring(vars[a], i, len)], Rebound(vars, a, t, n), f, x)
            <==> if x == n then f == Root(t)
                 else (f == Base(n) && x == vars[a]) || (Points(cells, vars, f, x) && f != Root(a))
  {
    NothingPoints(cells, rank, vars, n, f);
  }

  lemma NewSubstringTexts<C>(cells: Cells<C>, rank: Ranks, n: nat, l: nat, i: nat, len: nat, h: nat)
    requires Sized(cells, rank) && l in cells && n !in cells && n > 0 && h == rank[l] + 1 && 0 < len
             && i + len <= |Text(cells, rank, l)|
    requires cells[l].Leaf? || cells[l].Function?
    ensures var cells', rank' := cells[n := Substring(l, i, len)], rank[n := h];
            && Shape(cells', rank') && Text(cells', rank', n) == Text(cells, rank, l)[i..i + len] && Fine(cells', n)
            && forall x :: x in cells ==> SameNode(cells, rank, cells', rank', x)
  {
    var c := Substring(l, i, len);
    ShapeAdded(cells, rank, n, c, h);
    TextsAdded(cells, rank, n, c, h);
    assert SameNode(cells, rank, cells[n := c], rank[n := h], l);
    Stands(cells, rank, l);
  }

  /** Everything about `_S_new_RopeSubstring`, where `a` holds the base. */
  lemma NewSubstringOk<C>(cells: Cells<C>, rank: Ranks, vars: Vars, count: map<nat, nat>, refs: Refs,
                          cstr: map<nat, seq<C>>, unused: nat, a: nat, i: nat, len: nat, t: nat)
    returns (h: nat, refs': Refs)
    requires Ok(cells, rank, vars, count, refs, cstr, unused) && t !in vars && a in vars && vars[a] in cells
    requires 0 < len && i + len <= |Text(cells, rank, vars[a])| && (cells[vars[a]].Leaf? || cells[vars[a]].Function?)
    ensures var cells', rank' := cells[unused := Substring(vars[a], i, len)], rank[unused := h];
            && Ok(cells', rank', Rebound(vars, a, t, unused), count[unused := 1], refs', cstr, unused + 1)
            && NodesSame(cells, rank, cells', rank')
               && Text(cells', rank', unused) == Text(cells, rank, vars[a])[i..i + len]
  {
    h := rank[vars[a]] + 1;
    NewSubstringTexts(cells, rank, unused, vars[a], i, len, h);
    CountedSubstring(cells, rank, vars, count, refs, unused, a, i, len, t);
    refs' := BaseMoved(refs, vars[a], a, unused, t);
    var c := Substring(vars[a], i, len);
    AddedOk(cells, rank, vars, count, refs, cstr, unused, c, cells[unused := c], rank[unused := h],
            Rebound(vars, a, t, unused), count[unused := 1], refs');
  }
}
