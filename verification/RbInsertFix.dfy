/** The shape half of `_Rb_tree_rebalance` (headers/cpp/stl_tree.h:254-297). */
module RbInsertFix {
  import opened RbShape
  import opened RbBalance

  /** A red node sits in the hole; everything is in order except that its owner may be red too. */
  predicate InsertPending(path: Path, t: Tree) {
    && IsRed(t) && Bal(t) && NoRedRed(t)
    && PathBal(path, Bh(t)) && PathNoRedRed(path) && PathRootBlack(path)
  }

  /** A finished tree. */
  predicate RedBlack(t: Tree) {
    Bal(t) && NoRedRed(t) && !IsRed(t)
  }

  /** Parent and uncle turn black and the grandparent red. */
  function PushUp(path: Path, t: Tree): Tree
    requires path.Step? && path.up.Step? && path.up.sibling.Node?
  {
    Join(path.up.side, Join(path.side, t, path.p, Black, path.sibling),
         path.up.p, Red, path.up.sibling.(color := Black))
  }

  /** The owner of an inner child is rotated below it. */
  function TurnOutPath(path: Path, t: Tree): Path
    requires path.Step? && t.Node?
  {
    Step(path.up, path.side.Other(), t.p, t.color, Kid(t, path.side))
  }

  function TurnOutTree(path: Path, t: Tree): Tree
    requires path.Step? && t.Node?
  {
    Join(path.side.Other(), path.sibling, path.p, path.color, Kid(t, path.side.Other()))
  }

  /** The owner takes the place of the grandparent, which becomes its other child. */
  function Raise(path: Path, t: Tree): Tree
    requires path.Step? && path.up.Step?
  {
    Join(path.side, t, path.p, Black, Join(path.side, path.sibling, path.up.p, Red, path.up.sibling))
  }

  lemma NewNodePending(path: Path, x: Ptr)
    requires PathBal(path, 0) && PathNoRedRed(path) && PathRootBlack(path)
    ensures InsertPending(path, Node(Leaf, x, Red, Leaf))
  {
    var t := Node(Leaf, x, Red, Leaf);
    assert Bal(t.left) && Bal(t.right) && Bh(t.left) == 0 && NoRedRed(t.left);
  }

  lemma GrandparentExists(path: Path, t: Tree)
    requires InsertPending(path, t) && OwnerRed(path)
    ensures path.up.Step? && path.up.color == Black
  {
  }

  lemma PushUpPending(path: Path, t: Tree)
    requires InsertPending(path, t) && OwnerRed(path) && path.up.Step? && IsRed(path.up.sibling)
    ensures InsertPending(path.up.up, PushUp(path, t))
  {
    var up := path.up;
    assert PathBal(up, Bh(t)) && PathNoRedRed(up) && PathRootBlack(up) && up.color == Black;
    OpenBal(path.side, t, path.p, Black, path.sibling);
    OpenBal(up.side, Join(path.side, t, path.p, Black, path.sibling), up.p, Red, up.sibling.(color := Black));
  }

  lemma PushUpInorder(path: Path, t: Tree)
    requires path.Step? && path.up.Step? && path.up.sibling.Node?
    ensures Inorder(Plug(path.up.up, PushUp(path, t))) == Inorder(Plug(path, t))
  {
    var up := path.up;
    var inner := Join(path.side, t, path.p, path.color, path.sibling);
    OpenBal(path.side, t, path.p, path.color, path.sibling);
    OpenBal(path.side, t, path.p, Black, path.sibling);
    OpenBal(up.side, inner, up.p, up.color, up.sibling);
    OpenBal(up.side, Join(path.side, t, path.p, Black, path.sibling), up.p, Red, up.sibling.(color := Black));
    SameInorder(up.up, PushUp(path, t), Join(up.side, inner, up.p, up.color, up.sibling));
  }

  lemma SameInorder(path: Path, t: Tree, u: Tree)
    requires Inorder(t) == Inorder(u)
    ensures Inorder(Plug(path, t)) == Inorder(Plug(path, u))
  {
    PlugInorder(path, t);
    PlugInorder(path, u);
  }

  lemma TurnOutPending(path: Path, t: Tree)
    requires InsertPending(path, t) && OwnerRed(path)
    ensures InsertPending(TurnOutPath(path, t), TurnOutTree(path, t)) && OwnerRed(TurnOutPath(path, t))
  {
    var near := Kid(t, path.side.Other());
    OpenBal(path.side.Other(), path.sibling, path.p, path.color, near);
  }

  lemma TurnOutInorder(path: Path, t: Tree)
    requires path.Step? && t.Node?
    ensures Inorder(Plug(TurnOutPath(path, t), TurnOutTree(path, t))) == Inorder(Plug(path, t))
  {
    var u := Join(path.side, t, path.p, path.color, path.sibling);
    var near := Kid(t, path.side.Other());
    var far := Kid(t, path.side);
    var v := Join(path.side.Other(), TurnOutTree(path, t), t.p, t.color, far);
    OpenBal(path.side, t, path.p, path.color, path.sibling);
    OpenBal(path.side.Other(), path.sibling, path.p, path.color, near);
    OpenBal(path.side.Other(), TurnOutTree(path, t), t.p, t.color, far);
    assert Inorder(u) == Inorder(v);
    SameInorder(path.up, u, v);
  }

  lemma RaiseFinishes(path: Path, t: Tree)
    requires InsertPending(path, t) && OwnerRed(path) && path.up.Step? && path.side == path.up.side
    requires !IsRed(path.up.sibling)
    ensures RedBlack(Plug(path.up.up, Raise(path, t)))
  {
    var up := path.up;
    assert PathBal(up, Bh(t)) && PathNoRedRed(up) && PathRootBlack(up) && up.color == Black;
    var inner := Join(path.side, path.sibling, up.p, Red, up.sibling);
    OpenBal(path.side, path.sibling, up.p, Red, up.sibling);
    OpenBal(path.side, t, path.p, Black, inner);
    PlugBal(up.up, Raise(path, t));
    PlugNoRedRed(up.up, Raise(path, t));
    if up.up.Step? {
      PlugRootBlack(up.up, Raise(path, t));
    }
  }

  lemma RaiseSame(path: Path, t: Tree)
    requires path.Step? && path.up.Step? && path.side == path.up.side
    ensures var inner := Join(path.side, t, path.p, path.color, path.sibling);
            Inorder(Raise(path, t)) == Inorder(Join(path.up.side, inner, path.up.p, path.up.color, path.up.sibling))
  {
    var up := path.up;
    var inner := Join(path.side, t, path.p, path.color, path.sibling);
    OpenBal(path.side, t, path.p, path.color, path.sibling);
    OpenBal(up.side, inner, up.p, up.color, up.sibling);
    OpenBal(path.side, path.sibling, up.p, Red, up.sibling);
    OpenBal(path.side, t, path.p, Black, Join(path.side, path.sibling, up.p, Red, up.sibling));
    Regrouped(Inorder(t), [path.p], Inorder(path.sibling), [up.p], Inorder(up.sibling));
    Regrouped(Inorder(up.sibling), [up.p], Inorder(path.sibling), [path.p], Inorder(t));
  }

  lemma Regrouped(a: seq<Ptr>, p: seq<Ptr>, b: seq<Ptr>, q: seq<Ptr>, c: seq<Ptr>)
    ensures (a + p + b) + q + c == a + p + (b + q + c)
  {
  }

  lemma RaiseInorder(path: Path, t: Tree)
    requires path.Step? && path.up.Step? && path.side == path.up.side
    ensures Inorder(Plug(path.up.up, Raise(path, t))) == Inorder(Plug(path, t))
  {
    var up := path.up;
    var inner := Join(path.side, t, path.p, path.color, path.sibling);
    RaiseSame(path, t);
    SameInorder(up.up, Raise(path, t), Join(up.side, inner, up.p, up.color, up.sibling));
  }
}
