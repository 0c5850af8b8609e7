/** Colours, black heights and in-order sequences of the shapes of `RbShape`. */
module RbBalance {
  import opened RbShape

  predicate IsRed(t: Tree) {
    t.Node? && t.color == Red
  }

  /** Black nodes on the way down the left spine; on a `Bal` tree, on every way down. */
  function Bh(t: Tree): nat {
    if t.Leaf? then 0 else Bh(t.left) + if t.color == Black then 1 else 0
  }

  predicate Bal(t: Tree) {
    t.Leaf? || (Bh(t.left) == Bh(t.right) && Bal(t.left) && Bal(t.right))
  }

  /** No red node has a red child. */
  predicate NoRedRed(t: Tree) {
    t.Leaf? || ((t.color == Red ==> !IsRed(t.left) && !IsRed(t.right)) && NoRedRed(t.left) && NoRedRed(t.right))
  }

  /** The same, except that the root may be red above a red child. */
  predicate NoRedRedBelow(t: Tree) {
    t.Leaf? || (NoRedRed(t.left) && NoRedRed(t.right))
  }

  predicate OwnerRed(path: Path) {
    path.Step? && path.color == Red
  }

  /** A tree of black height `h` keeps the surroundings of the hole balanced. */
  predicate PathBal(path: Path, h: nat) {
    match path
    case Top => true
    case Step(up, _, _, c, sibling) =>
      Bal(sibling) && Bh(sibling) == h && PathBal(up, h + if c == Black then 1 else 0)
  }

  predicate PathNoRedRed(path: Path) {
    match path
    case Top => true
    case Step(up, _, _, c, sibling) =>
      NoRedRed(sibling) && (c == Red ==> !IsRed(sibling) && !OwnerRed(up)) && PathNoRedRed(up)
  }

  predicate PathRootBlack(path: Path) {
    match path
    case Top => true
    case Step(up, _, _, c, _) => if up.Top? then c == Black else PathRootBlack(up)
  }

  function Inorder(t: Tree): seq<Ptr> {
    match t
    case Leaf => []
    case Node(l, p, _, r) => Inorder(l) + [p] + Inorder(r)
  }

  /** The nodes that precede, and the nodes that follow, the hole. */
  function Before(path: Path): seq<Ptr> {
    match path
    case Top => []
    case Step(up, s, p, _, sibling) =>
      if s == Left then Before(up) else Before(up) + (Inorder(sibling) + [p])
  }

  function After(path: Path): seq<Ptr> {
    match path
    case Top => []
    case Step(up, s, p, _, sibling) =>
      if s == Left then [p] + Inorder(sibling) + After(up) else After(up)
  }

  lemma OpenBal(s: Side, t: Tree, p: Ptr, c: Color, sibling: Tree)
    ensures Bal(Join(s, t, p, c, sibling)) <==> Bal(t) && Bal(sibling) && Bh(t) == Bh(sibling)
    ensures Bh(t) == Bh(sibling) ==> Bh(Join(s, t, p, c, sibling)) == Bh(t) + if c == Black then 1 else 0
    ensures NoRedRed(Join(s, t, p, c, sibling))
            <==> NoRedRed(t) && NoRedRed(sibling) && (c == Red ==> !IsRed(t) && !IsRed(sibling))
    ensures NoRedRedBelow(Join(s, t, p, c, sibling)) <==> NoRedRed(t) && NoRedRed(sibling)
    ensures IsRed(Join(s, t, p, c, sibling)) <==> c == Red
    ensures Inorder(Join(s, t, p, c, sibling))
            == if s == Left then Inorder(t) + [p] + Inorder(sibling) else Inorder(sibling) + [p] + Inorder(t)
  {
  }

  lemma {:induction false} PlugBal(path: Path, t: Tree)
    ensures Bal(Plug(path, t)) <==> Bal(t) && PathBal(path, Bh(t))
    decreases path
  {
    if path.Step? {
      OpenBal(path.side, t, path.p, path.color, path.sibling);
      PlugBal(path.up, Join(path.side, t, path.p, path.color, path.sibling));
    }
  }

  lemma {:induction false} PlugNoRedRed(path: Path, t: Tree)
    ensures NoRedRed(Plug(path, t)) <==> NoRedRed(t) && PathNoRedRed(path) && !(IsRed(t) && OwnerRed(path))
    decreases path
  {
    if path.Step? {
      OpenBal(path.side, t, path.p, path.color, path.sibling);
      PlugNoRedRed(path.up, Join(path.side, t, path.p, path.color, path.sibling));
    }
  }

  lemma {:induction false} PlugInorder(path: Path, t: Tree)
    ensures Inorder(Plug(path, t)) == Before(path) + Inorder(t) + After(path)
    decreases path
  {
    if path.Step? {
      var u := Join(path.side, t, path.p, path.color, path.sibling);
      PlugInorder(path.up, u);
      OpenBal(path.side, t, path.p, path.color, path.sibling);
      OutAndIn(Before(path.up), Inorder(t), [path.p], Inorder(path.sibling), After(path.up));
    }
  }

  lemma OutAndIn(a: seq<Ptr>, t: seq<Ptr>, p: seq<Ptr>, u: seq<Ptr>, b: seq<Ptr>)
    ensures a + (t + p + u) + b == a + t + (p + u + b)
    ensures a + (u + p + t) + b == a + (u + p) + t + b
  {
  }

  lemma {:induction false} PlugNode(path: Path, t: Tree)
    requires t.Node?
    ensures Plug(path, t).Node?
    decreases path
  {
    if path.Step? {
      PlugNode(path.up, Join(path.side, t, path.p, path.color, path.sibling));
    }
  }

  lemma {:induction false} PlugRootBlack(path: Path, t: Tree)
    requires path.Step?
    ensures Plug(path, t).Node?
    ensures IsRed(Plug(path, t)) <==> !PathRootBlack(path)
    decreases path
  {
    if path.up.Step? {
      PlugRootBlack(path.up, Join(path.side, t, path.p, path.color, path.sibling));
    }
  }
}
