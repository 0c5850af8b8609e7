/** The shape half of the loop in `_Rb_tree_rebalance_for_erase` (headers/cpp/stl_tree.h:365-427). */
module RbEraseFix {
  import opened RbShape
  import opened RbBalance
  import opened RbInsertFix

  /** The tree in the hole is one black node short of what its surroundings expect. */
  predicate Deficient(path: Path, t: Tree) {
    && Bal(t) && NoRedRedBelow(t)
    && PathBal(path, Bh(t) + 1) && PathNoRedRed(path) && PathRootBlack(path)
  }

  /** The loop goes on: below the root, at a black node or a null link. */
  predicate StillShort(path: Path, t: Tree) {
    Deficient(path, t) && path.Step? && !IsRed(t)
  }

  /** A red sibling `w` rises above the owner, which turns red. */
  function BlackSiblingPath(path: Path): Path
    requires path.Step? && path.sibling.Node?
  {
    var w, s := path.sibling, path.side;
    Step(Step(path.up, s, w.p, Black, Kid(w, s.Other())), s, path.p, Red, Kid(w, s))
  }

  /** The sibling turns red, and the owner becomes the one that is short. */
  function PassUp(path: Path, t: Tree): Tree
    requires path.Step? && path.sibling.Node?
  {
    Join(path.side, t, path.p, path.color, path.sibling.(color := Red))
  }

  /** The near nephew rises above the sibling. */
  function FarRedSibling(path: Path): Tree
    requires path.Step? && path.sibling.Node? && Kid(path.sibling, path.side).Node?
  {
    var w, s := path.sibling, path.side;
    var near := Kid(w, s);
    Join(s, Kid(near, s), near.p, Black, Join(s, Kid(near, s.Other()), w.p, Red, Kid(w, s.Other())))
  }

  /** The sibling rises above the owner and takes over its colour; the far nephew turns black. */
  function Settle(path: Path, t: Tree): Tree
    requires path.Step? && path.sibling.Node? && Kid(path.sibling, path.side.Other()).Node?
  {
    var w, s := path.sibling, path.side;
    Join(s, Join(s, t, path.p, Black, Kid(w, s)), w.p, path.color, Kid(w, s.Other()).(color := Black))
  }

  lemma SiblingExists(path: Path, t: Tree)
    requires Deficient(path, t) && path.Step?
    ensures path.sibling.Node? && NoRedRed(path.sibling)
  {
  }

  /** A node taken apart by side. */
  lemma KidsJoin(t: Tree, s: Side)
    requires t.Node?
    ensures t == Join(s, Kid(t, s), t.p, t.color, Kid(t, s.Other()))
  {
  }

  lemma BlackSiblingShort(path: Path, t: Tree)
    requires StillShort(path, t) && IsRed(path.sibling)
    ensures StillShort(BlackSiblingPath(path), t)
    ensures BlackSiblingPath(path).sibling.Node? && !IsRed(BlackSiblingPath(path).sibling)
  {
    var w, s := path.sibling, path.side;
    KidsJoin(w, s);
    OpenBal(s, Kid(w, s), w.p, w.color, Kid(w, s.Other()));
  }

  lemma BlackSiblingSame(path: Path, t: Tree)
    requires path.Step? && path.sibling.Node?
    ensures var w, s := path.sibling, path.side;
            Inorder(Join(s, t, path.p, path.color, w))
            == Inorder(Join(s, Join(s, t, path.p, Red, Kid(w, s)), w.p, Black, Kid(w, s.Other())))
  {
    var w, s := path.sibling, path.side;
    var near, far := Kid(w, s), Kid(w, s.Other());
    KidsJoin(w, s);
    OpenBal(s, near, w.p, w.color, far);
    OpenBal(s, t, path.p, path.color, w);
    OpenBal(s, t, path.p, Red, near);
    OpenBal(s, Join(s, t, path.p, Red, near), w.p, Black, far);
    Regrouped(Inorder(t), [path.p], Inorder(near), [w.p], Inorder(far));
    Regrouped(Inorder(far), [w.p], Inorder(near), [path.p], Inorder(t));
  }

  lemma BlackSiblingInorder(path: Path, t: Tree)
    requires path.Step? && path.sibling.Node?
    ensures Inorder(Plug(BlackSiblingPath(path), t)) == Inorder(Plug(path, t))
  {
    var w, s := path.sibling, path.side;
    BlackSiblingSame(path, t);
    SameInorder(path.up, Join(s, t, path.p, path.color, w),
                Join(s, Join(s, t, path.p, Red, Kid(w, s)), w.p, Black, Kid(w, s.Other())));
  }

  lemma PassUpShort(path: Path, t: Tree)
    requires StillShort(path, t) && path.sibling.Node? && path.sibling.color == Black
    requires !IsRed(path.sibling.left) && !IsRed(path.sibling.right)
    ensures Deficient(path.up, PassUp(path, t))
  {
    OpenBal(path.side, t, path.p, path.color, path.sibling.(color := Red));
  }

  lemma PassUpInorder(path: Path, t: Tree)
    requires path.Step? && path.sibling.Node?
    ensures Inorder(Plug(path.up, PassUp(path, t))) == Inorder(Plug(path, t))
  {
    OpenBal(path.side, t, path.p, path.color, path.sibling.(color := Red));
    OpenBal(path.side, t, path.p, path.color, path.sibling);
    SameInorder(path.up, PassUp(path, t), Join(path.side, t, path.p, path.color, path.sibling));
  }

  lemma FarRedShort(path: Path, t: Tree)
    requires StillShort(path, t) && path.sibling.Node? && path.sibling.color == Black
    requires IsRed(Kid(path.sibling, path.side)) && !IsRed(Kid(path.sibling, path.side.Other()))
    ensures StillShort(path.(sibling := FarRedSibling(path)), t)
    ensures FarRedSibling(path).color == Black && IsRed(Kid(FarRedSibling(path), path.side.Other()))
  {
    var w, s := path.sibling, path.side;
    var near := Kid(w, s);
    var low := Join(s, Kid(near, s.Other()), w.p, Red, Kid(w, s.Other()));
    KidsJoin(w, s);
    KidsJoin(near, s);
    OpenBal(s, near, w.p, w.color, Kid(w, s.Other()));
    OpenBal(s, Kid(near, s), near.p, near.color, Kid(near, s.Other()));
    OpenBal(s, Kid(near, s.Other()), w.p, Red, Kid(w, s.Other()));
    OpenBal(s, Kid(near, s), near.p, Black, low);
  }

  lemma FarRedSame(path: Path)
    requires path.Step? && path.sibling.Node? && Kid(path.sibling, path.side).Node?
    ensures Inorder(FarRedSibling(path)) == Inorder(path.sibling)
  {
    var w, s := path.sibling, path.side;
    var near := Kid(w, s);
    KidsJoin(w, s);
    KidsJoin(near, s);
    OpenBal(s, near, w.p, w.color, Kid(w, s.Other()));
    OpenBal(s, Kid(near, s), near.p, near.color, Kid(near, s.Other()));
    OpenBal(s, Kid(near, s.Other()), w.p, Red, Kid(w, s.Other()));
    OpenBal(s, Kid(near, s), near.p, Black, Join(s, Kid(near, s.Other()), w.p, Red, Kid(w, s.Other())));
  }

  lemma FarRedInorder(path: Path, t: Tree)
    requires path.Step? && path.sibling.Node? && Kid(path.sibling, path.side).Node?
    ensures Inorder(Plug(path.(sibling := FarRedSibling(path)), t)) == Inorder(Plug(path, t))
  {
    var w, s := path.sibling, path.side;
    FarRedSame(path);
    OpenBal(s, t, path.p, path.color, w);
    OpenBal(s, t, path.p, path.color, FarRedSibling(path));
    SameInorder(path.up, Join(s, t, path.p, path.color, w), Join(s, t, path.p, path.color, FarRedSibling(path)));
  }

  lemma SettleFinishes(path: Path, t: Tree)
    requires StillShort(path, t) && path.sibling.Node? && path.sibling.color == Black
    requires IsRed(Kid(path.sibling, path.side.Other()))
    ensures RedBlack(Plug(path.up, Settle(path, t)))
  {
    var w, s := path.sibling, path.side;
    var far := Kid(w, s.Other());
    KidsJoin(w, s);
    OpenBal(s, Kid(w, s), w.p, w.color, far);
    OpenBal(s, t, path.p, Black, Kid(w, s));
    OpenBal(s, Join(s, t, path.p, Black, Kid(w, s)), w.p, path.color, far.(color := Black));
    PlugBal(path.up, Settle(path, t));
    PlugNoRedRed(path.up, Settle(path, t));
    if path.up.Step? {
      PlugRootBlack(path.up, Settle(path, t));
    }
  }

  lemma SettleInorder(path: Path, t: Tree)
    requires path.Step? && path.sibling.Node? && Kid(path.sibling, path.side.Other()).Node?
    ensures Inorder(Plug(path.up, Settle(path, t))) == Inorder(Plug(path, t))
  {
    var w, s := path.sibling, path.side;
    var far := Kid(w, s.Other());
    KidsJoin(w, s);
    OpenBal(s, Kid(w, s), w.p, w.color, far);
    OpenBal(s, t, path.p, path.color, w);
    OpenBal(s, t, path.p, Black, Kid(w, s));
    OpenBal(s, Join(s, t, path.p, Black, Kid(w, s)), w.p, path.color, far.(color := Black));
    SameInorder(path.up, Settle(path, t), Join(s, t, path.p, path.color, w));
  }

  /** Blackening the node at which the loop stops ends the work. */
  lemma BlackenFinishes(path: Path, t: Tree)
    requires Deficient(path, t) && (path.Top? || IsRed(t))
    ensures RedBlack(Plug(path, if t.Leaf? then Leaf else t.(color := Black)))
    ensures Inorder(Plug(path, if t.Leaf? then Leaf else t.(color := Black))) == Inorder(Plug(path, t))
  {
    var u := if t.Leaf? then Leaf else t.(color := Black);
    PlugBal(path, u);
    PlugNoRedRed(path, u);
    SameInorder(path, u, t);
    if path.Step? {
      PlugRootBlack(path, u);
    }
  }
}
