/** The shape half of the relinking in `_Rb_tree_rebalance_for_erase` (headers/cpp/stl_tree.h:305-364). */
module RbUnlink {
  import opened RbShape
  import opened RbBalance
  import opened RbInsertFix
  import opened RbEraseFix

  /** `below` hangs under the hole of `above`. */
  function Append(below: Path, above: Path): Path {
    match below
    case Top => above
    case Step(up, s, p, c, sibling) => Step(Append(up, above), s, p, c, sibling)
  }

  predicate AllLeft(path: Path) {
    path.Top? || (path.side == Left && AllLeft(path.up))
  }

  lemma {:induction false} AppendNodes(below: Path, above: Path)
    ensures PathNodes(Append(below, above)) == PathNodes(below) + PathNodes(above)
    ensures WfPath(Append(below, above))
            <==> WfPath(below) && WfPath(above) && PathNodes(below) !! PathNodes(above)
  {
    if below.Step? {
      AppendNodes(below.up, above);
    }
  }

  lemma {:induction false} AppendAfter(below: Path, above: Path)
    requires AllLeft(below)
    ensures Before(Append(below, above)) == Before(above)
    ensures After(Append(below, above)) == After(below) + After(above)
  {
    if below.Step? {
      AppendAfter(below.up, above);
      var here := [below.p] + Inorder(below.sibling);
      assert here + (After(below.up) + After(above)) == here + After(below.up) + After(above);
    }
  }

  /** Exchanging the node of a step changes no colour. */
  lemma {:induction false} RelabelColors(spine: Path, above: Path, q: Ptr, h: nat)
    requires above.Step?
    ensures PathBal(Append(spine, above.(p := q)), h) <==> PathBal(Append(spine, above), h)
    ensures PathNoRedRed(Append(spine, above.(p := q))) <==> PathNoRedRed(Append(spine, above))
    ensures PathRootBlack(Append(spine, above.(p := q))) <==> PathRootBlack(Append(spine, above))
    ensures OwnerRed(Append(spine, above.(p := q))) <==> OwnerRed(Append(spine, above))
  {
    if spine.Step? {
      RelabelColors(spine.up, above, q, h + if spine.color == Black then 1 else 0);
    }
  }

  /** What erasing leaves to do: nothing after a red node, one missing black after a black one. */
  predicate Remaining(removed: Color, path: Path, t: Tree) {
    if removed == Red then RedBlack(Plug(path, t)) else Deficient(path, t)
  }

  /** The only child of a node, or the empty tree. */
  function OnlyChild(t: Tree): Tree
    requires t.Node?
  {
    if t.left.Leaf? then t.right else t.left
  }

  lemma SpliceRemaining(path: Path, t: Tree)
    requires t.Node? && (t.left.Leaf? || t.right.Leaf?) && RedBlack(Plug(path, t))
    ensures Remaining(t.color, path, OnlyChild(t))
  {
    PlugBal(path, t);
    PlugNoRedRed(path, t);
    PlugBal(path, OnlyChild(t));
    PlugNoRedRed(path, OnlyChild(t));
    if path.Step? {
      PlugRootBlack(path, t);
      PlugRootBlack(path, OnlyChild(t));
    }
  }

  lemma SuccessorRemaining(spine: Path, above: Path, y: Ptr, cy: Color, xr: Tree)
    requires above.Step? && RedBlack(Plug(Append(spine, above), Node(Leaf, y, cy, xr)))
    ensures Remaining(cy, Append(spine, above.(p := y)), xr)
  {
    var full, full' := Append(spine, above), Append(spine, above.(p := y));
    SpliceRemaining(full, Node(Leaf, y, cy, xr));
    RelabelColors(spine, above, y, Bh(xr));
    RelabelColors(spine, above, y, Bh(xr) + 1);
    PlugBal(full, xr);
    PlugBal(full', xr);
    PlugNoRedRed(full, xr);
    PlugNoRedRed(full', xr);
    assert full.Step? && full'.Step?;
    PlugRootBlack(full, xr);
    PlugRootBlack(full', xr);
  }

  lemma SpineInorder(spine: Path, above: Path, t: Tree)
    requires AllLeft(spine)
    ensures Inorder(Plug(Append(spine, above), t)) == Before(above) + Inorder(t) + (After(spine) + After(above))
  {
    PlugInorder(Append(spine, above), t);
    AppendAfter(spine, above);
  }

  lemma Regroup(a: seq<Ptr>, b: seq<Ptr>, p: seq<Ptr>, q: seq<Ptr>, d: seq<Ptr>, e: seq<Ptr>)
    ensures a + (b + p) + (q + d) + e == (a + b) + p + (q + d + e)
    ensures a + (b + q) + d + e == (a + b) + (q + d + e)
  {
  }

  /** Nodes in order before and after the successor `y` has taken the place of `z`. */
  lemma SuccessorInorder(spine: Path, path: Path, z: Ptr, c: Color, l: Tree, y: Ptr, cy: Color, xr: Tree)
    requires AllLeft(spine)
    ensures var front := Before(path) + Inorder(l);
            var back := [y] + Inorder(xr) + (After(spine) + After(path));
            && Inorder(Plug(Append(spine, Step(path, Right, z, c, l)), Node(Leaf, y, cy, xr))) == front + [z] + back
            && Inorder(Plug(Append(spine, Step(path, Right, y, c, l)), xr)) == front + back
  {
    var rest := After(spine) + After(path);
    SpineInorder(spine, Step(path, Right, z, c, l), Node(Leaf, y, cy, xr));
    SpineInorder(spine, Step(path, Right, y, c, l), xr);
    assert Inorder(Node(Leaf, y, cy, xr)) == [y] + Inorder(xr);
    Regroup(Before(path), Inorder(l), [z], [y], Inorder(xr), rest);
  }

  // ---------- links along the spine ----------

  /** The node of the outermost step. */
  function TopOf(path: Path): Ptr
    requires path.Step?
  {
    if path.up.Top? then path.p else TopOf(path.up)
  }

  lemma {:induction false} SpineTop(m: Memory, spine: Path, above: Path, hole: Ptr, header: Ptr)
    requires RepPath(m, Append(spine, above), hole, header)
    ensures RepPath(m, above, if spine.Top? then hole else TopOf(spine), header)
    ensures spine.Step? ==> TopOf(spine) in PathNodes(spine) && TopOf(spine) in m
    decreases spine
  {
    if spine.Step? {
      SpineTop(m, spine.up, above, spine.p, header);
    }
  }

  /** `n` keeps the links of `m` along a spine, except that its topmost node has a new parent. */
  predicate SpineKept(m: Memory, n: Memory, spine: Path, top: Ptr, y: Ptr) {
    forall p :: p in PathNodes(spine) && p in m ==>
                  p in n && n[p] == if p == top then m[p].(parent := y) else m[p]
  }

  lemma {:induction false} SpineRelabel(m: Memory, n: Memory, spine: Path, above: Path, y: Ptr, hole: Ptr, header: Ptr)
    requires spine.Step? && above.Step? && WfPath(spine)
    requires RepPath(m, Append(spine, above), hole, header)
    requires SpineKept(m, n, spine, TopOf(spine), y)
    requires RepPath(n, above.(p := y), TopOf(spine), header)
    ensures RepPath(n, Append(spine, above.(p := y)), hole, header)
    decreases spine
  {
    SpineTop(m, spine, above, hole, header);
    if spine.up.Top? {
      RepFrame(m, n, spine.sibling, spine.p);
    } else {
      SpineTop(m, spine.up, above, spine.p, header);
      RepFrame(m, n, spine.sibling, spine.p);
      SpineRelabel(m, n, spine.up, above, y, spine.p, header);
    }
  }

  /** The pointers around `z` and its successor `y` before `y` takes the place of `z`. */
  predicate Replaceable(m: Memory, z: Ptr, y: Ptr, header: Ptr) {
    && header in m && z in m && y in m && z != y && header != z && header != y
    && m[z].left in m && m[z].right in m && m[z].parent in m && m[y].parent in m
    && m[z].left !in {z, y, header, m[z].right, m[z].parent, m[y].parent}
    && m[z].parent !in {z, y, m[z].right} && m[z].right !in {z, header} && m[y].parent != y
    && (y == m[z].right <==> m[y].parent == z)
    && (y != m[z].right ==> m[y].parent !in {header, m[z].parent})
    && (m[y].right != NULL ==> m[y].right in m
                               && m[y].right !in {z, y, header, m[z].left, m[z].right, m[z].parent, m[y].parent})
  }

  predicate Replaced(m: Memory, n: Memory, z: Ptr, y: Ptr, header: Ptr)
    requires Replaceable(m, z, y, header)
  {
    var x, zr, yp := m[y].right, m[z].right, m[y].parent;
    && n.Keys == m.Keys
    && n[y] == Links(m[z].color, m[z].parent, m[z].left, if y == zr then x else zr)
    && n[m[z].left] == m[m[z].left].(parent := y)
    && (x != NULL ==> n[x] == if y == zr then m[x] else m[x].(parent := yp))
    && (y != zr && yp != zr ==> n[yp] == m[yp].(left := x))
    && (y != zr ==> n[zr] == (if yp == zr then m[zr].(left := x) else m[zr]).(parent := y))
    && Agree(m, n, m.Keys - {z, y, m[z].left, x, zr, yp, m[z].parent})
    && n[z].color == m[y].color
  }

  /** The memory before the successor `y` of `z` is moved: `y` is at the end of a left spine. */
  predicate SuccessorAt(m: Memory, spine: Path, above: Path, y: Ptr, cy: Color, xr: Tree, header: Ptr) {
    && AllLeft(spine) && above.Step? && above.side == Right && above.sibling.Node?
    && Focus(m, Append(spine, above), Node(Leaf, y, cy, xr), header)
  }

  lemma SuccessorLinks(m: Memory, spine: Path, above: Path, y: Ptr, cy: Color, xr: Tree, header: Ptr)
    requires SuccessorAt(m, spine, above, y, cy, xr, header)
    ensures RepPath(m, above, if spine.Top? then y else TopOf(spine), header)
    ensures above.p in m && m[above.p] == Links(above.color, Owner(above.up, header), above.sibling.p,
                                                if spine.Top? then y else TopOf(spine))
    ensures y in m && m[y] == Links(cy, Owner(Append(spine, above), header), NULL, Ref(xr))
    ensures above.sibling.p in m && header in m && Owner(above.up, header) in m
    ensures m[header].parent == above.p <==> above.up.Top?
    ensures spine.Step? ==> spine.p in m && TopOf(spine) in m
    ensures xr.Node? ==> xr.p in m
  {
    SuccessorApart(spine, above, y, cy, xr, header);
    SpineTop(m, spine, above, y, header);
    RootOfPath(m, above.up, above.p, header);
    assert Rep(m, xr, y);
  }

  lemma SuccessorApart(spine: Path, above: Path, y: Ptr, cy: Color, xr: Tree, header: Ptr)
    requires above.Step? && above.sibling.Node? && Apart(Append(spine, above), Node(Leaf, y, cy, xr), header)
    ensures Wf(xr) && Wf(above.sibling) && WfPath(above.up) && WfPath(spine)
    ensures var l, path := above.sibling, above.up;
            && y != NULL && above.p != NULL && above.p != y && header !in {above.p, y, NULL}
            && y !in Nodes(xr) + Nodes(l) + PathNodes(path) + PathNodes(spine)
            && above.p !in Nodes(xr) + Nodes(l) + PathNodes(path) + PathNodes(spine)
            && header !in Nodes(xr) + Nodes(l) + PathNodes(path) + PathNodes(spine)
            && Nodes(xr) !! Nodes(l) && Nodes(xr) !! PathNodes(path) && Nodes(xr) !! PathNodes(spine)
            && Nodes(l) !! PathNodes(path) && Nodes(l) !! PathNodes(spine) && PathNodes(path) !! PathNodes(spine)
  {
    AppendNodes(spine, above);
    assert Nodes(Node(Leaf, y, cy, xr)) == {y} + Nodes(xr);
  }

  lemma SuccessorReady(m: Memory, spine: Path, above: Path, y: Ptr, cy: Color, xr: Tree, header: Ptr)
    requires SuccessorAt(m, spine, above, y, cy, xr, header)
    ensures Replaceable(m, above.p, y, header)
    ensures y == m[above.p].right <==> spine.Top?
  {
    SuccessorApart(spine, above, y, cy, xr, header);
    SuccessorLinks(m, spine, above, y, cy, xr, header);
    SpineTop(m, spine, above, y, header);
    NoNullPath(spine);
  }

  /** The part of the memory above the hole after the move. */
  lemma SuccessorAbove(m: Memory, n: Memory, spine: Path, above: Path, y: Ptr, cy: Color, xr: Tree, header: Ptr)
    requires SuccessorAt(m, spine, above, y, cy, xr, header) && Replaceable(m, above.p, y, header)
    requires Replaced(m, n, above.p, y, header) && Redirected(m, n, above.up, y, header)
    ensures RepPath(n, above.(p := y), if spine.Top? then Ref(xr) else TopOf(spine), header)
  {
    var z, l, path, o := above.p, above.sibling, above.up, Owner(above.up, header);
    SuccessorApart(spine, above, y, cy, xr, header);
    SuccessorLinks(m, spine, above, y, cy, xr, header);
    SpineTop(m, spine, above, y, header);
    var changed := {z, y, l.p, Ref(xr), m[z].right, m[y].parent, o};
    NoNull(l);
    NoNullPath(path);
    AgreeOutside(m, n, changed, Nodes(l) - {l.p});
    AgreeOutside(m, n, changed, PathNodes(path) - {o});
    Reparent(m, n, l, z, y);
    Redirect(m, n, path, z, y, header);
  }

  lemma SuccessorBelow(m: Memory, n: Memory, spine: Path, above: Path, y: Ptr, cy: Color, xr: Tree, header: Ptr)
    requires SuccessorAt(m, spine, above, y, cy, xr, header) && Replaceable(m, above.p, y, header)
    requires Replaced(m, n, above.p, y, header)
    ensures Rep(n, xr, Owner(Append(spine, above.(p := y)), header))
  {
    SuccessorApart(spine, above, y, cy, xr, header);
    SuccessorLinks(m, spine, above, y, cy, xr, header);
    SpineTop(m, spine, above, y, header);
    var changed := {above.p, y, above.sibling.p, Ref(xr), m[above.p].right, m[y].parent, m[above.p].parent};
    NoNull(xr);
    AgreeOutside(m, n, changed, Nodes(xr) - {Ref(xr)});
    Reparent(m, n, xr, y, Owner(Append(spine, above.(p := y)), header));
  }

  /** The links along the spine after the move: its lowest node has a new child, its top a new parent. */
  predicate SpineAfter(m: Memory, n: Memory, spine: Path, x: Ptr, y: Ptr)
    requires spine.Step?
  {
    forall p :: p in PathNodes(spine) && p in m ==>
                  && p in n
                  && n[p] == var k := if p == spine.p then m[p].(left := x) else m[p];
                             if p == TopOf(spine) then k.(parent := y) else k
  }

  lemma SpineCells(m: Memory, n: Memory, spine: Path, above: Path, y: Ptr, cy: Color, xr: Tree, header: Ptr)
    requires SuccessorAt(m, spine, above, y, cy, xr, header) && Replaceable(m, above.p, y, header)
    requires Replaced(m, n, above.p, y, header) && spine.Step?
    ensures SpineAfter(m, n, spine, Ref(xr), y)
  {
    SuccessorApart(spine, above, y, cy, xr, header);
    SuccessorLinks(m, spine, above, y, cy, xr, header);
    var changed := {above.p, y, above.sibling.p, Ref(xr), TopOf(spine), spine.p, m[above.p].parent};
    NoNullPath(spine);
    AgreeOutside(m, n, changed, PathNodes(spine) - {TopOf(spine), spine.p});
  }

  lemma SpineMoved(m: Memory, n: Memory, spine: Path, above: Path, x: Ptr, y: Ptr, header: Ptr)
    requires spine.Step? && above.Step? && AllLeft(spine) && WfPath(spine)
    requires RepPath(m, Append(spine, above), y, header) && SpineAfter(m, n, spine, x, y)
    requires RepPath(n, above.(p := y), TopOf(spine), header)
    ensures RepPath(n, Append(spine, above.(p := y)), x, header)
  {
    var up := spine.up;
    SpineTop(m, spine, above, y, header);
    SpineTop(m, up, above, spine.p, header);
    assert up.Step? ==> TopOf(spine) in PathNodes(up);
    RepFrame(m, n, spine.sibling, spine.p);
    if up.Step? {
      SpineRelabel(m, n, up, above, y, spine.p, header);
    }
  }

  /** After the move the memory holds the tree without `z`, with `y` in its place. */
  lemma SuccessorMoved(m: Memory, n: Memory, spine: Path, above: Path, y: Ptr, cy: Color, xr: Tree, header: Ptr)
    requires SuccessorAt(m, spine, above, y, cy, xr, header) && Replaceable(m, above.p, y, header)
    requires Replaced(m, n, above.p, y, header) && Redirected(m, n, above.up, y, header)
    ensures Focus(n, Append(spine, above.(p := y)), xr, header)
    ensures above.p !in Nodes(xr) + PathNodes(Append(spine, above.(p := y))) + {header}
  {
    SuccessorAbove(m, n, spine, above, y, cy, xr, header);
    SuccessorBelow(m, n, spine, above, y, cy, xr, header);
    SuccessorApart(spine, above, y, cy, xr, header);
    if spine.Step? {
      SpineCells(m, n, spine, above, y, cy, xr, header);
      SpineMoved(m, n, spine, above, Ref(xr), y, header);
    }
    AppendNodes(spine, above.(p := y));
  }
}
