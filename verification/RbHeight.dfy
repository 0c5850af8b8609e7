/** The height bound of red-black trees, and the black counts that `__rb_verify` compares. */
module RbHeight {
  import opened Basics
  import opened RbShape
  import opened RbBalance
  import opened RbInsertFix

  function Height(t: Tree): nat {
    if t.Leaf? then 0
    else 1 + if Height(t.left) > Height(t.right) then Height(t.left) else Height(t.right)
  }

  lemma {:induction false} EnoughNodes(t: Tree)
    requires Bal(t)
    ensures |Inorder(t)| + 1 >= Pow2(Bh(t))
  {
    if t.Node? {
      EnoughNodes(t.left);
      EnoughNodes(t.right);
    }
  }

  lemma {:induction false} ShortPaths(t: Tree)
    requires Bal(t) && NoRedRed(t)
    ensures Height(t) <= 2 * Bh(t) + if IsRed(t) then 1 else 0
  {
    if t.Node? {
      ShortPaths(t.left);
      ShortPaths(t.right);
    }
  }

  /** Height at most 2 * log2(n + 1): doubling half the height never exceeds n + 1. */
  lemma HeightBound(t: Tree)
    requires RedBlack(t)
    ensures Pow2((Height(t) + 1) / 2) <= |Inorder(t)| + 1
  {
    EnoughNodes(t);
    ShortPaths(t);
    Pow2Grows((Height(t) + 1) / 2, Bh(t));
  }

  /** The way to a node is part of a longest one. */
  lemma {:induction false} WithinHeight(path: Path, t: Tree)
    ensures Len(path) + Height(t) <= Height(Plug(path, t))
    decreases path
  {
    if path.Step? {
      WithinHeight(path.up, Join(path.side, t, path.p, path.color, path.sibling));
    }
  }

  /** Every node of a tree of n nodes is at most 2 * log2(n + 1) nodes down, itself included. */
  lemma DepthBound(path: Path, t: Tree)
    requires RedBlack(Plug(path, t)) && t.Node?
    ensures Pow2((Len(path) + 2) / 2) <= |Inorder(Plug(path, t))| + 1
  {
    var whole := Plug(path, t);
    WithinHeight(path, t);
    HeightBound(whole);
    Pow2Grows((Len(path) + 2) / 2, (Height(whole) + 1) / 2);
  }

  /** Black nodes on the way from a hole up to the root. */
  function PathBlacks(path: Path): nat {
    if path.Top? then 0 else PathBlacks(path.up) + if path.color == Black then 1 else 0
  }

  lemma {:induction false} BlacksAbove(path: Path, t: Tree)
    requires Bal(Plug(path, t))
    ensures Bh(Plug(path, t)) == Bh(t) + PathBlacks(path)
    decreases path
  {
    if path.Step? {
      var u := Join(path.side, t, path.p, path.color, path.sibling);
      PlugBal(path, t);
      OpenBal(path.side, t, path.p, path.color, path.sibling);
      BlacksAbove(path.up, u);
    }
  }
}
