/** The functions on `_Rb_tree_node_base` (headers/cpp/stl_tree.h:71-429), over an explicit store. */
module RbLinks {
  import opened RbShape
  import opened RbBalance
  import opened RbInsertFix
  import opened RbEraseFix
  import opened RbUnlink
  import opened RbEnds
  import opened RbHeight

  /** Only the root link of the header cell may differ. */
  predicate HeaderKept(m: Memory, n: Memory, header: Ptr) {
    && n.Keys == m.Keys && header in m
    && n[header] == m[header].(parent := n[header].parent)
  }

  lemma HeaderKeptOn(a: Memory, b: Memory, c: Memory, header: Ptr)
    requires HeaderKept(a, b, header) && HeaderKept(b, c, header)
    ensures HeaderKept(a, c, header)
  {
  }

  /** The links around `x` after its child `y` has taken its place. */
  predicate Relinked(m: Memory, n: Memory, s: Side, up: Ptr, x: Ptr, y: Ptr, inner: Ptr, header: Ptr) {
    && x in m && y in m && up in m && n.Keys == m.Keys
    && n[x] == m[x].WithChild(s.Other(), inner).(parent := y)
    && n[y] == m[y].WithChild(s, x).(parent := up)
    && (inner != NULL ==> inner in m && n[inner] == m[inner].(parent := x))
    && n[up] == (if up == header then m[up].(parent := y)
                 else if m[up].Child(s) == x then m[up].WithChild(s, y)
                 else m[up].WithChild(s.Other(), y))
    && Agree(m, n, m.Keys - {x, y, up, inner})
  }

  class LinkStore {
    const header: Ptr
    var mem: Memory

    /** `_M_empty_initialize`. */
    constructor (h: Ptr)
      requires h != NULL
      ensures header == h && mem.Keys == {h}
      ensures Focus(mem, Top, Leaf, header) && RedBlack(Leaf) && Ends(mem, [], header)
    {
      header := h;
      mem := map[h := Links(Red, NULL, h, h)];
    }

    /** `destroy_node` for a node that is no longer linked. */
    method Free(z: Ptr, ghost tree: Tree)
      requires Focus(mem, Top, tree, header) && z !in Nodes(tree) + {header}
      modifies this`mem
      ensures mem == old(mem) - {z} && Focus(mem, Top, tree, header)
    {
      RepFrame(mem, mem - {z}, tree, header);
      mem := mem - {z};
    }

    /** `_M_erase` of the whole tree, and the header cell of an empty one. */
    method FreeAll(ghost tree: Tree)
      requires Focus(mem, Top, tree, header) && header in mem && mem[header].color == Red
      modifies this`mem
      ensures mem == map[header := Links(Red, NULL, header, header)]
      ensures Focus(mem, Top, Leaf, header) && RedBlack(Leaf) && Ends(mem, [], header)
    {
      mem := map[header := Links(Red, NULL, header, header)];
    }

    /** `_Rb_tree_rotate_left` for `s == Left`, `_Rb_tree_rotate_right` for `s == Right`. */
    method Relink(s: Side, x: Ptr)
      requires header in mem && x in mem && mem[x].Child(s.Other()) in mem && mem[x].parent in mem
      requires var y := mem[x].Child(s.Other());
               var inner := mem[y].Child(s);
               var up := mem[x].parent;
               && x != y && up != x && up != y && x != header
               && (inner != NULL ==> inner in mem && inner != x && inner != y && inner != up && inner != header)
               && (mem[header].parent == x <==> up == header)
      modifies this`mem
      ensures var y := old(mem[x].Child(s.Other()));
              Relinked(old(mem), mem, s, old(mem[x].parent), x, y, old(mem[y].Child(s)), header)
    {
      var y := mem[x].Child(s.Other());
      var inner := mem[y].Child(s);
      mem := mem[x := mem[x].WithChild(s.Other(), inner)];
      if inner != NULL {
        mem := mem[inner := mem[inner].(parent := x)];
      }
      var up := mem[x].parent;
      mem := mem[y := mem[y].(parent := up)];
      if x == mem[header].parent {
        mem := mem[header := mem[header].(parent := y)];
      } else if x == mem[up].Child(s) {
        mem := mem[up := mem[up].WithChild(s, y)];
      } else {
        mem := mem[up := mem[up].WithChild(s.Other(), y)];
      }
      mem := mem[y := mem[y].WithChild(s, x)];
      mem := mem[x := mem[x].(parent := y)];
    }

    /** A rotation seen on shapes. The ghost arguments name the subtrees around `x` and its child `y`. */
    method Rotate(s: Side, x: Ptr, ghost path: Path, ghost a: Tree, ghost cx: Color, ghost b: Tree,
                  ghost y: Ptr, ghost cy: Color, ghost c: Tree)
      requires Focus(mem, path, Join(s, a, x, cx, Join(s, b, y, cy, c)), header)
      modifies this`mem
      ensures Focus(mem, path, Join(s, Join(s, a, x, cx, b), y, cy, c), header)
      ensures HeaderKept(old(mem), mem, header)
    {
      RotateReady(mem, s, path, a, x, cx, b, y, cy, c, header);
      Relink(s, x);
      Rotated(old(mem), mem, s, path, a, x, cx, b, y, cy, c, header);
    }

    /** The recolouring branch of the insertion loop: parent and uncle black, grandparent red. */
    method PushRedUp(x: Ptr, ghost path: Path, ghost t: Tree) returns (g: Ptr)
      requires Focus(mem, path, t, header) && t.Node? && t.p == x
      requires path.Step? && path.up.Step? && path.up.sibling.Node?
      modifies this`mem
      ensures g == path.up.p && Focus(mem, path.up.up, PushUp(path, t), header)
      ensures HeaderKept(old(mem), mem, header)
    {
      PushUpReady(mem, path, t, header);
      var p := mem[x].parent;
      g := mem[p].parent;
      var uncle := if p == mem[g].left then mem[g].right else mem[g].left;
      PushedUp(mem, path, t, header);
      mem := mem[p := mem[p].(color := Black)];
      mem := mem[uncle := mem[uncle].(color := Black)];
      mem := mem[g := mem[g].(color := Red)];
    }

    /** An inner child trades places with its owner, which becomes the new focus. */
    method TurnOut(s: Side, x: Ptr, ghost path: Path, ghost t: Tree) returns (x': Ptr)
      requires Focus(mem, path, t, header) && t.Node? && t.p == x && path.Step? && path.side == s
      modifies this`mem
      ensures x' == path.p && TurnOutTree(path, t).Node? && TurnOutTree(path, t).p == x'
      ensures Focus(mem, TurnOutPath(path, t), TurnOutTree(path, t), header)
      ensures HeaderKept(old(mem), mem, header)
    {
      FocusUp(mem, path, t, header);
      x' := mem[x].parent;
      Rotate(s.Other(), x', path.up, path.sibling, path.color, Kid(t, s.Other()), t.p, t.color, Kid(t, s));
      FocusUp(mem, TurnOutPath(path, t), TurnOutTree(path, t), header);
    }

    /** The last branch: the owner of an outer child rises above the grandparent. */
    method RaiseOwner(s: Side, x: Ptr, ghost path: Path, ghost t: Tree)
      requires Focus(mem, path, t, header) && t.Node? && t.p == x
      requires path.Step? && path.up.Step? && path.side == path.up.side == s
      modifies this`mem
      ensures Focus(mem, path.up.up, Raise(path, t), header)
      ensures HeaderKept(old(mem), mem, header)
    {
      RaiseReady(mem, path, t, header);
      var p := mem[x].parent;
      var g := mem[p].parent;
      mem := mem[p := mem[p].(color := Black)];
      mem := mem[g := mem[g].(color := Red)];
      Rotate(s.Other(), g, path.up.up, path.up.sibling, Red, path.sibling, path.p, Black, t);
    }

    /** One round of the insertion loop. It either moves the red pair up or ends the work. */
    method InsertRound(x: Ptr, ghost path: Path, ghost t: Tree)
      returns (x': Ptr, ghost path': Path, ghost t': Tree)
      requires Focus(mem, path, t, header) && t.Node? && t.p == x
      requires InsertPending(path, t) && OwnerRed(path)
      modifies this`mem
      ensures Focus(mem, path', t', header) && t'.Node? && t'.p == x'
      ensures InsertPending(path', t') || (RedBlack(Plug(path', t')) && !OwnerRed(path'))
      ensures Inorder(Plug(path', t')) == Inorder(Plug(path, t))
      ensures HeaderKept(old(mem), mem, header)
      ensures Len(path') < Len(path)
    {
      GrandparentExists(path, t);
      Neighbours(mem, path, t, header);
      Neighbours(mem, path.up, Join(path.side, t, path.p, path.color, path.sibling), header);
      var p := mem[x].parent;
      var g := mem[p].parent;
      var s := if p == mem[g].left then Left else Right;
      var uncle := mem[g].Child(s.Other());
      if uncle != NULL && mem[uncle].color == Red {
        PushUpPending(path, t);
        PushUpInorder(path, t);
        x' := PushRedUp(x, path, t);
        path', t' := path.up.up, PushUp(path, t);
      } else {
        x', path', t' := x, path, t;
        if x == mem[p].Child(s.Other()) {
          TurnOutPending(path, t);
          TurnOutInorder(path, t);
          x' := TurnOut(s.Other(), x, path, t);
          path', t' := TurnOutPath(path, t), TurnOutTree(path, t);
        }
        RaiseFinishes(path', t');
        RaiseInorder(path', t');
        RaiseOwner(s, x', path', t');
        ghost var low := Join(s, path'.sibling, path'.up.p, Red, path'.up.sibling);
        path' := Step(path'.up.up, s, path'.p, Black, low);
        FocusUp(mem, path', t', header);
      }
    }

    /** `_Rb_tree_rebalance`: `x0` has just been linked in as a childless node. */
    method Rebalance(x0: Ptr, ghost path0: Path, ghost c0: Color) returns (ghost tree: Tree)
      requires Focus(mem, path0, Node(Leaf, x0, c0, Leaf), header)
      requires PathBal(path0, 0) && PathNoRedRed(path0) && PathRootBlack(path0)
      modifies this`mem
      ensures Focus(mem, Top, tree, header) && RedBlack(tree)
      ensures Inorder(tree) == Before(path0) + [x0] + After(path0)
      ensures HeaderKept(old(mem), mem, header)
    {
      var x := x0;
      ghost var path, t := path0, Node(Leaf, x0, Red, Leaf);
      Recolored(mem, path, Node(Leaf, x0, c0, Leaf), Red, header);
      RootTest(mem, path, Node(Leaf, x0, c0, Leaf), header);
      mem := mem[x := mem[x].(color := Red)];
      PlugInorder(path, t);
      RootTest(mem, path, t, header);
      Neighbours(mem, path, t, header);
      NewNodePending(path, x);
      while x != mem[header].parent && mem[mem[x].parent].color == Red
        invariant Focus(mem, path, t, header) && t.Node? && t.p == x
        invariant InsertPending(path, t) || (RedBlack(Plug(path, t)) && !OwnerRed(path))
        invariant Inorder(Plug(path, t)) == Before(path0) + [x0] + After(path0)
        invariant HeaderKept(old(mem), mem, header)
        invariant x in mem && mem[x].parent in mem
        invariant mem[header].parent == x <==> path.Top?
        invariant path.Step? ==> mem[mem[x].parent].color == path.color
        decreases Len(path)
      {
        x, path, t := InsertRound(x, path, t);
        RootTest(mem, path, t, header);
        Neighbours(mem, path, t, header);
      }
      tree := BlackenRoot(path, t);
    }

    /** `__root->_M_color = _S_rb_tree_black`. */
    method BlackenRoot(ghost path: Path, ghost t: Tree) returns (ghost tree: Tree)
      requires Focus(mem, path, t, header) && t.Node?
      requires (InsertPending(path, t) && !OwnerRed(path)) || RedBlack(Plug(path, t))
      modifies this`mem
      ensures Focus(mem, Top, tree, header) && RedBlack(tree)
      ensures Inorder(tree) == Inorder(Plug(path, t))
      ensures HeaderKept(old(mem), mem, header)
    {
      ghost var whole := Plug(path, t);
      FocusPlug(mem, path, t, header);
      PlugBal(path, t);
      PlugNoRedRed(path, t);
      PlugNode(path, t);
      tree := whole.(color := Black);
      Recolored(mem, Top, whole, Black, header);
      RootTest(mem, Top, whole, header);
      var root := mem[header].parent;
      mem := mem[root := mem[root].(color := Black)];
    }

    /** A red sibling: it turns black and rises above the owner, which turns red. */
    method MakeSiblingBlack(s: Side, xp: Ptr, w: Ptr, ghost path: Path, ghost t: Tree)
      requires Focus(mem, path, t, header) && path.Step? && path.sibling.Node?
      requires s == path.side && xp == path.p && w == path.sibling.p
      modifies this`mem
      ensures Focus(mem, BlackSiblingPath(path), t, header)
      ensures HeaderKept(old(mem), mem, header)
    {
      Neighbours(mem, path, t, header);
      ghost var u := path.sibling.(color := Black);
      RecoloredSibling(mem, path, t, Black, header);
      mem := mem[w := mem[w].(color := Black)];
      RecoloredOwner(mem, path.(sibling := u), t, Red, header);
      mem := mem[xp := mem[xp].(color := Red)];
      FocusUp(mem, path.(sibling := u, color := Red), t, header);
      KidsJoin(u, s);
      Rotate(s, xp, path.up, t, Red, Kid(u, s), w, Black, Kid(u, s.Other()));
      FocusUp(mem, BlackSiblingPath(path).up, Join(s, t, xp, Red, Kid(u, s)), header);
      FocusUp(mem, BlackSiblingPath(path), t, header);
    }

    /** Only the near nephew is red: it turns black and rises above the sibling, which turns red. */
    method MakeFarRed(s: Side, w: Ptr, ghost path: Path, ghost t: Tree)
      requires Focus(mem, path, t, header) && path.Step? && path.sibling.Node?
      requires Kid(path.sibling, path.side).Node? && path.sibling.color == Black
      requires s == path.side && w == path.sibling.p
      modifies this`mem
      ensures Focus(mem, path.(sibling := FarRedSibling(path)), t, header)
      ensures HeaderKept(old(mem), mem, header)
    {
      ghost var turned := Step(path.up, s.Other(), path.p, path.color, t);
      ghost var near, far := Kid(path.sibling, s), Kid(path.sibling, s.Other());
      ghost var low := Step(turned, s, w, Black, far);
      assert Focus(mem, turned, path.sibling, header) && Focus(mem, low, near, header) by {
        FocusUp(mem, path, t, header);
        FocusUp(mem, turned, path.sibling, header);
        KidsJoin(path.sibling, s);
        FocusUp(mem, low, near, header);
      }
      Neighbours(mem, low, near, header);
      var n := mem[w].Child(s);
      if n != NULL {
        Recolored(mem, low, near, Black, header);
        mem := mem[n := mem[n].(color := Black)];
      }
      RecoloredOwner(mem, low, near.(color := Black), Red, header);
      mem := mem[w := mem[w].(color := Red)];
      FocusUp(mem, low.(color := Red), near.(color := Black), header);
      KidsJoin(near, s);
      Rotate(s.Other(), w, turned, far, Red, Kid(near, s.Other()), near.p, Black, Kid(near, s));
      FocusUp(mem, turned, FarRedSibling(path), header);
      FocusUp(mem, path.(sibling := FarRedSibling(path)), t, header);
    }

    /** The far nephew is red: the sibling takes the owner's place and colour. */
    method SettleShortage(s: Side, xp: Ptr, w: Ptr, ghost path: Path, ghost t: Tree)
      requires Focus(mem, path, t, header) && path.Step? && path.sibling.Node?
      requires Kid(path.sibling, path.side.Other()).Node?
      requires s == path.side && xp == path.p && w == path.sibling.p
      modifies this`mem
      ensures Focus(mem, path.up, Settle(path, t), header)
      ensures HeaderKept(old(mem), mem, header)
    {
      ghost var u := path.sibling.(color := path.color);
      ghost var path2 := path.(sibling := u, color := Black);
      PaintOwnerAndSibling(s, xp, w, path, t);
      ghost var mid := mem;
      PaintNephew(s, w, path2, t);
      SettleHigh(mem, path2, t, header);
      Rotate(s, xp, path.up, t, Black, Kid(u, s), w, path.color, Kid(u, s.Other()).(color := Black));
      HeaderKeptOn(old(mem), mid, mem, header);
    }

    /** The sibling takes the owner's color, and the owner turns black. */
    method PaintOwnerAndSibling(s: Side, xp: Ptr, w: Ptr, ghost path: Path, ghost t: Tree)
      requires Focus(mem, path, t, header) && path.Step? && path.sibling.Node?
      requires s == path.side && xp == path.p && w == path.sibling.p
      modifies this`mem
      ensures Focus(mem, path.(sibling := path.sibling.(color := path.color), color := Black), t, header)
      ensures HeaderKept(old(mem), mem, header)
    {
      Neighbours(mem, path, t, header);
      ghost var u := path.sibling.(color := path.color);
      RecoloredSibling(mem, path, t, path.color, header);
      mem := mem[w := mem[w].(color := mem[xp].color)];
      RecoloredOwner(mem, path.(sibling := u), t, Black, header);
      mem := mem[xp := mem[xp].(color := Black)];
    }

    /** The far child of the sibling turns black. */
    method PaintNephew(s: Side, w: Ptr, ghost path: Path, ghost t: Tree)
      requires Focus(mem, path, t, header) && path.Step? && path.sibling.Node? && Kid(path.sibling, s.Other()).Node?
      requires s == path.side && w == path.sibling.p
      modifies this`mem
      ensures var u := path.sibling;
              var turned := Step(path.up, s.Other(), path.p, path.color, t);
              Focus(mem, Step(turned, s.Other(), u.p, u.color, Kid(u, s)), Kid(u, s.Other()).(color := Black), header)
      ensures HeaderKept(old(mem), mem, header)
    {
      ghost var u := path.sibling;
      ghost var far := Kid(u, s.Other());
      ghost var low := Step(Step(path.up, s.Other(), path.p, path.color, t), s.Other(), w, u.color, Kid(u, s));
      SettleLow(mem, path, t, header);
      Neighbours(mem, low, far, header);
      var f := mem[w].Child(s.Other());
      if f != NULL {
        Recolored(mem, low, far, Black, header);
        mem := mem[f := mem[f].(color := Black)];
      }
    }

    /** The link at side `s` of `w` is null or leads to a black node. */
    function BlackAt(w: Ptr, s: Side): bool
      requires w in mem && (mem[w].Child(s) != NULL ==> mem[w].Child(s) in mem)
      reads this
    {
      mem[w].Child(s) == NULL || mem[mem[w].Child(s)].color == Black
    }

    /** A round once the sibling `w` is black: pass the shortage up, or settle it. */
    method BlackSiblingRound(s: Side, x: Ptr, xp: Ptr, w: Ptr, ghost path: Path, ghost t: Tree)
      returns (x': Ptr, xp': Ptr, done: bool, ghost path': Path, ghost t': Tree)
      requires Focus(mem, path, t, header) && StillShort(path, t) && x == Ref(t)
      requires path.sibling.Node? && path.sibling.color == Black
      requires s == path.side && xp == path.p && w == path.sibling.p
      modifies this`mem
      ensures HeaderKept(old(mem), mem, header) && Focus(mem, path', t', header)
      ensures Inorder(Plug(path', t')) == Inorder(Plug(path, t))
      ensures done ==> x' == x && RedBlack(Plug(path', t')) && (x != NULL ==> x in mem && mem[x].color == Black)
      ensures !done ==> && path' == path.up && t' == PassUp(path, t) && Deficient(path', t')
                        && x' == Ref(t') && xp' == Owner(path', header)
    {
      Neighbours(mem, path, t, header);
      Nephews(mem, path, t, header);
      if BlackAt(w, s) && BlackAt(w, s.Other()) {
        RecoloredSibling(mem, path, t, Red, header);
        PassUpShort(path, t);
        PassUpInorder(path, t);
        mem := mem[w := mem[w].(color := Red)];
        x', xp', done := xp, mem[xp].parent, false;
        path', t' := path.up, PassUp(path, t);
        FocusUp(mem, path.(sibling := path.sibling.(color := Red)), t, header);
      } else {
        var w' := w;
        ghost var q := path;
        if BlackAt(w, s.Other()) {
          FarRedShort(path, t);
          FarRedInorder(path, t);
          MakeFarRed(s, w, path, t);
          q := path.(sibling := FarRedSibling(path));
          Neighbours(mem, q, t, header);
          w' := mem[xp].Child(s.Other());
        }
        SettleFinishes(q, t);
        SettleInorder(q, t);
        SettleShortage(s, xp, w', q, t);
        x', xp', done := x, xp, true;
        path', t' := q.up, Settle(q, t);
        if t.Node? {
          SettledBelow(mem, q, t, header);
        }
      }
    }

    /** One round of the erasure loop; `done` is the source's `break`. */
    method EraseRound(x: Ptr, xp: Ptr, ghost path: Path, ghost t: Tree)
      returns (x': Ptr, xp': Ptr, done: bool, ghost path': Path, ghost t': Tree)
      requires Focus(mem, path, t, header) && StillShort(path, t) && x == Ref(t) && xp == path.p
      modifies this`mem
      ensures HeaderKept(old(mem), mem, header) && Focus(mem, path', t', header)
      ensures Inorder(Plug(path', t')) == Inorder(Plug(path, t))
      ensures done ==> x' == x && RedBlack(Plug(path', t')) && (x != NULL ==> x in mem && mem[x].color == Black)
      ensures !done ==> && Deficient(path', t') && x' == Ref(t') && xp' == Owner(path', header)
                        && Rounds(path', t') < Rounds(path, t)
    {
      SiblingExists(path, t);
      Neighbours(mem, path, t, header);
      var s := if x == mem[xp].left then Left else Right;
      var w := mem[xp].Child(s.Other());
      if mem[w].color == Red {
        BlackSiblingShort(path, t);
        BlackSiblingInorder(path, t);
        MakeSiblingBlack(s, xp, w, path, t);
        ghost var q := BlackSiblingPath(path);
        Neighbours(mem, q, t, header);
        w := mem[xp].Child(s.Other());
        x', xp', done, path', t' := BlackSiblingRound(s, x, xp, w, q, t);
      } else {
        x', xp', done, path', t' := BlackSiblingRound(s, x, xp, w, path, t);
      }
    }

    /** The loop of `_Rb_tree_rebalance_for_erase` and the recolouring after it. */
    method FixShortage(x0: Ptr, xp0: Ptr, ghost path0: Path, ghost t0: Tree) returns (ghost tree: Tree)
      requires Focus(mem, path0, t0, header) && Deficient(path0, t0)
      requires x0 == Ref(t0) && xp0 == Owner(path0, header)
      modifies this`mem
      ensures Focus(mem, Top, tree, header) && RedBlack(tree)
      ensures Inorder(tree) == Inorder(Plug(path0, t0))
      ensures HeaderKept(old(mem), mem, header)
    {
      var x, xp, done := x0, xp0, false;
      ghost var path, t := path0, t0;
      RootTest(mem, path, t, header);
      Neighbours(mem, path, t, header);
      while !done && x != mem[header].parent && (x == NULL || mem[x].color == Black)
        invariant HeaderKept(old(mem), mem, header) && Focus(mem, path, t, header)
        invariant Inorder(Plug(path, t)) == Inorder(Plug(path0, t0))
        invariant x != NULL ==> x in mem
        invariant done ==> RedBlack(Plug(path, t)) && (x != NULL ==> mem[x].color == Black)
        invariant !done ==> && Deficient(path, t) && x == Ref(t) && xp == Owner(path, header)
                            && (mem[header].parent == x <==> path.Top?)
                            && (x == NULL <==> t.Leaf?) && (t.Node? ==> mem[x].color == t.color)
        decreases !done, Rounds(path, t)
      {
        x, xp, done, path, t := EraseRound(x, xp, path, t);
        RootTest(mem, path, t, header);
        Neighbours(mem, path, t, header);
      }
      ghost var n := mem;
      if x != NULL {
        mem := mem[x := mem[x].(color := Black)];
      }
      if done {
        assert mem == n;
        FocusPlug(mem, path, t, header);
        tree := Plug(path, t);
      } else {
        ghost var u := if t.Leaf? then Leaf else t.(color := Black);
        BlackenFinishes(path, t);
        if t.Node? {
          Recolored(n, path, t, Black, header);
        }
        FocusPlug(mem, path, u, header);
        tree := Plug(path, u);
      }
    }

    /** Redirects the link that leads to `z`, from the header or from its parent. */
    method ReplaceChild(z: Ptr, q: Ptr, ghost path: Path)
      requires header in mem && z in mem && mem[z].parent in mem && mem[z].parent == Owner(path, header)
      requires mem[header].parent == z <==> path.Top?
      requires path.Step? ==>
                 path.p != header && mem[path.p].Child(path.side) == z != mem[path.p].Child(path.side.Other())
      modifies this`mem
      ensures mem == old(mem)[Owner(path, header) := if path.Top? then old(mem[header]).(parent := q)
                              else old(mem[path.p]).WithChild(path.side, q)]
    {
      var up := mem[z].parent;
      if mem[header].parent == z {
        mem := mem[header := mem[header].(parent := q)];
      } else if mem[up].left == z {
        mem := mem[up := mem[up].(left := q)];
      } else {
        mem := mem[up := mem[up].(right := q)];
      }
    }

    /** A node with at most one child is replaced by that child. */
    method Splice(z: Ptr, x: Ptr, ghost path: Path, ghost t: Tree)
      requires Focus(mem, path, t, header) && t.Node? && t.p == z
      requires (t.left.Leaf? || t.right.Leaf?) && x == Ref(OnlyChild(t))
      modifies this`mem
      ensures Focus(mem, path, OnlyChild(t), header) && z !in Nodes(OnlyChild(t)) + PathNodes(path) + {header}
      ensures HeaderKept(old(mem), mem, header) && z in mem && mem[z] == old(mem[z])
    {
      SpliceReady(mem, path, t, header);
      if x != NULL {
        mem := mem[x := mem[x].(parent := mem[z].parent)];
      }
      ReplaceChild(z, x, path);
      Spliced(old(mem), mem, path, t, header);
    }

    /** The links below `z` move to `y`, and `y`'s only child moves up. Returns the parent of that child. */
    method MoveChildren(z: Ptr, y: Ptr, x: Ptr) returns (xp: Ptr)
      requires Replaceable(mem, z, y, header) && x == mem[y].right
      modifies this`mem
      ensures xp == if y == old(mem[z].right) then y else old(mem[y].parent)
      ensures mem.Keys == old(mem.Keys) && mem[z] == old(mem[z]) && mem[y].color == old(mem[y].color)
      ensures mem[mem[z].parent] == old(mem[mem[z].parent]) && mem[header] == old(mem[header])
      ensures Replaced(old(mem), mem[y := mem[y].(parent := mem[z].parent, color := mem[z].color)]
                                    [z := mem[z].(color := mem[y].color)], z, y, header)
    {
      var zl := mem[z].left;
      mem := mem[zl := mem[zl].(parent := y)];
      mem := mem[y := mem[y].(left := zl)];
      if y != mem[z].right {
        xp := mem[y].parent;
        if x != NULL {
          mem := mem[x := mem[x].(parent := xp)];
        }
        mem := mem[xp := mem[xp].(left := x)];
        var zr := mem[z].right;
        mem := mem[y := mem[y].(right := zr)];
        mem := mem[zr := mem[zr].(parent := y)];
      } else {
        xp := y;
      }
    }

    /** `y` is linked in above, in the place of `z`, and the colours are exchanged. */
    method TakePlace(z: Ptr, y: Ptr, ghost path: Path)
      requires header in mem && z in mem && y in mem && y != z && Owner(path, header) !in {y, z}
      requires mem[z].parent in mem && mem[z].parent == Owner(path, header)
      requires mem[header].parent == z <==> path.Top?
      requires path.Step? ==>
                 path.p != header && mem[path.p].Child(path.side) == z != mem[path.p].Child(path.side.Other())
      modifies this`mem
      ensures mem == old(mem)[y := old(mem[y]).(parent := old(mem[z].parent), color := old(mem[z].color))]
                             [z := old(mem[z]).(color := old(mem[y].color))]
                             [Owner(path, header) := if path.Top? then old(mem[header]).(parent := y)
                                                     else old(mem[path.p]).WithChild(path.side, y)]
    {
      ReplaceChild(z, y, path);
      mem := mem[y := mem[y].(parent := mem[z].parent)];
      var cy, cz := mem[y].color, mem[z].color;
      mem := mem[y := mem[y].(color := cz)];
      mem := mem[z := mem[z].(color := cy)];
    }

    /** The successor `y` of `z` is relinked into its place. */
    method TakeOver(z: Ptr, y: Ptr, x: Ptr, ghost path: Path) returns (xp: Ptr)
      requires Replaceable(mem, z, y, header) && x == mem[y].right
      requires mem[z].parent == Owner(path, header) && (mem[header].parent == z <==> path.Top?)
      requires path.Step? ==>
                 path.p != header && mem[path.p].Child(path.side) == z != mem[path.p].Child(path.side.Other())
      modifies this`mem
      ensures xp == if y == old(mem[z].right) then y else old(mem[y].parent)
      ensures Replaced(old(mem), mem, z, y, header) && Redirected(old(mem), mem, path, y, header)
    {
      xp := MoveChildren(z, y, x);
      ghost var n := mem[y := mem[y].(parent := mem[z].parent, color := mem[z].color)]
                        [z := mem[z].(color := mem[y].color)];
      TakePlace(z, y, path);
      ReplacedUpToOwner(old(mem), n, z, y, header, mem[Owner(path, header)]);
    }

    /** `_S_minimum` for `s == Left`, `_S_maximum` for `s == Right`. */
    method Extreme(s: Side, x: Ptr, ghost path: Path, ghost t: Tree) returns (e: Ptr)
      requires Focus(mem, path, t, header) && t.Node? && t.p == x
      ensures e == EndOf(Inorder(t), s, header)
    {
      e := x;
      ghost var up, u := path, t;
      Neighbours(mem, up, u, header);
      while mem[e].Child(s) != NULL
        invariant Focus(mem, up, u, header) && u.Node? && u.p == e && e in mem
        invariant mem[e].Child(s) == Ref(Kid(u, s))
        invariant EndOf(Inorder(u), s, header) == EndOf(Inorder(t), s, header)
        decreases u
      {
        InorderEnd(u, s, header);
        up, u := Step(up, s, u.p, u.color, Kid(u, s.Other())), Kid(u, s);
        FocusUp(mem, up, u, header);
        Neighbours(mem, up, u, header);
        e := mem[e].Child(s);
      }
      assert Wf(Kid(u, s));
      InorderEnd(u, s, header);
    }

    /** The cached end on side `s`, once `z` with at most one child has been spliced out. */
    method FixEnd(s: Side, z: Ptr, x: Ptr, ghost path: Path, ghost t: Tree)
      requires Apart(path, t, header) && t.Node? && t.p == z && (t.left.Leaf? || t.right.Leaf?)
      requires Focus(mem, path, OnlyChild(t), header) && x == Ref(OnlyChild(t)) && header in mem
      requires z in mem && mem[z] == Links(t.color, Owner(path, header), Ref(t.left), Ref(t.right))
      requires mem[header].Child(s) == EndOf(Inorder(Plug(path, t)), s, header)
      modifies this`mem
      ensures mem == old(mem)[header := old(mem[header]).WithChild(s,
                                                                   EndOf(Inorder(Plug(path, OnlyChild(t))), s, header))]
    {
      EndAfterSplice(path, t, s, header);
      assert Wf(Kid(t, s.Other()));
      if mem[header].Child(s) == z {
        if mem[z].Child(s.Other()) == NULL {
          mem := mem[header := mem[header].WithChild(s, mem[z].parent)];
        } else {
          var e := Extreme(s, x, path, OnlyChild(t));
          mem := mem[header := mem[header].WithChild(s, e)];
        }
      }
    }

    /** `z` has at most one child, `x`: it is spliced out and the cached ends are brought up to date. */
    method DetachOuter(z: Ptr, x: Ptr, ghost path: Path, ghost t: Tree)
      returns (xp: Ptr, ghost front: seq<Ptr>, ghost back: seq<Ptr>)
      requires Focus(mem, path, t, header) && t.Node? && t.p == z
      requires (t.left.Leaf? || t.right.Leaf?) && x == Ref(OnlyChild(t))
      requires Ends(mem, Inorder(Plug(path, t)), header)
      modifies this`mem
      ensures mem.Keys == old(mem.Keys) && z in mem && mem[z].color == t.color
      ensures Focus(mem, path, OnlyChild(t), header) && xp == Owner(path, header)
      ensures z !in Nodes(OnlyChild(t)) + PathNodes(path) + {header}
      ensures Inorder(Plug(path, t)) == front + [z] + back && Inorder(Plug(path, OnlyChild(t))) == front + back
      ensures Ends(mem, front + back, header)
    {
      ghost var u := OnlyChild(t);
      Neighbours(mem, path, t, header);
      xp := mem[z].parent;
      Splice(z, x, path, t);
      ghost var q, q' := Inorder(Plug(path, t)), Inorder(Plug(path, u));
      EndsKept(old(mem), mem, q, header);
      CacheChanged(mem, path, u, Left, EndOf(q', Left, header), header);
      FixEnd(Left, z, x, path, t);
      CacheChanged(mem, path, u, Right, EndOf(q', Right, header), header);
      FixEnd(Right, z, x, path, t);
      front, back := Before(path) + Inorder(t.left), Inorder(t.right) + After(path);
      SpliceInorder(path, t);
    }

    /** `z` has two children: its successor is found and relinked into its place. */
    method DetachInner(z: Ptr, ghost path: Path, ghost t: Tree)
      returns (x: Ptr, xp: Ptr, ghost path': Path, ghost u: Tree, ghost front: seq<Ptr>, ghost back: seq<Ptr>)
      requires Focus(mem, path, t, header) && t.Node? && t.p == z && t.left.Node? && t.right.Node?
      requires Ends(mem, Inorder(Plug(path, t)), header) && RedBlack(Plug(path, t))
      modifies this`mem
      ensures mem.Keys == old(mem.Keys) && z in mem && Remaining(mem[z].color, path', u)
      ensures Focus(mem, path', u, header) && x == Ref(u) && xp == Owner(path', header)
      ensures z !in Nodes(u) + PathNodes(path') + {header}
      ensures Inorder(Plug(path, t)) == front + [z] + back && Inorder(Plug(path', u)) == front + back
      ensures Ends(mem, front + back, header)
    {
      ghost var above := Step(path, Right, z, t.color, t.left);
      ghost var spine, cy, xr;
      var y;
      y, spine, cy, xr := Successor(z, path, t);
      SuccessorReady(mem, spine, above, y, cy, xr, header);
      SuccessorLinks(mem, spine, above, y, cy, xr, header);
      SpliceReady(mem, path, t, header);
      x := mem[y].right;
      xp := TakeOver(z, y, x, path);
      SuccessorMoved(old(mem), mem, spine, above, y, cy, xr, header);
      ReplacedHeader(old(mem), mem, path, z, y, header);
      InnerDetached(path, t, spine, y, cy, xr, header);
      path', u := Append(spine, above.(p := y)), xr;
      front := Before(path) + Inorder(t.left);
      back := [y] + Inorder(xr) + (After(spine) + After(path));
    }

    /** Down the left spine of the right child. */
    method Successor(z: Ptr, ghost path: Path, ghost t: Tree)
      returns (y: Ptr, ghost spine: Path, ghost cy: Color, ghost xr: Tree)
      requires Focus(mem, path, t, header) && t.Node? && t.p == z && t.left.Node? && t.right.Node?
      ensures SuccessorAt(mem, spine, Step(path, Right, z, t.color, t.left), y, cy, xr, header)
      ensures Plug(Append(spine, Step(path, Right, z, t.color, t.left)), Node(Leaf, y, cy, xr)) == Plug(path, t)
    {
      ghost var above := Step(path, Right, z, t.color, t.left);
      ghost var u := t.right;
      spine := Top;
      FocusUp(mem, above, u, header);
      Neighbours(mem, path, t, header);
      Neighbours(mem, above, u, header);
      y := mem[z].right;
      while mem[y].left != NULL
        invariant AllLeft(spine) && Focus(mem, Append(spine, above), u, header) && u.Node? && u.p == y
        invariant y in mem && mem[y].left == Ref(u.left)
        invariant Plug(Append(spine, above), u) == Plug(path, t)
        decreases u
      {
        spine, u := Step(spine, Left, u.p, u.color, u.right), u.left;
        FocusUp(mem, Append(spine, above), u, header);
        Neighbours(mem, Append(spine, above), u, header);
        y := mem[y].left;
      }
      assert Wf(u.left);
      cy, xr := u.color, u.right;
    }

    /** `_Rb_tree_rebalance_for_erase`: takes `z` out of the tree and returns it. */
    method RebalanceForErase(z: Ptr, ghost tree: Tree)
      returns (y: Ptr, ghost tree': Tree, ghost front: seq<Ptr>, ghost back: seq<Ptr>)
      requires Focus(mem, Top, tree, header) && RedBlack(tree) && z in Nodes(tree)
      requires Ends(mem, Inorder(tree), header)
      modifies this`mem
      ensures y == z && mem.Keys == old(mem.Keys)
      ensures Focus(mem, Top, tree', header) && RedBlack(tree') && z !in Nodes(tree')
      ensures Inorder(tree) == front + [z] + back && Inorder(tree') == front + back
      ensures Ends(mem, front + back, header)
    {
      ghost var (path, t) := Locate(Top, tree, z);
      FocusPlug(mem, path, t, header);
      Neighbours(mem, path, t, header);
      assert Wf(t.left) && Wf(t.right);
      var x, xp;
      ghost var path', u;
      if mem[z].left == NULL || mem[z].right == NULL {
        x := if mem[z].left == NULL then mem[z].right else mem[z].left;
        SpliceRemaining(path, t);
        xp, front, back := DetachOuter(z, x, path, t);
        path', u := path, OnlyChild(t);
      } else {
        x, xp, path', u, front, back := DetachInner(z, path, t);
      }
      y := z;
      ghost var n := mem;
      PlugNodes(path', u);
      if mem[y].color != Red {
        tree' := FixShortage(x, xp, path', u);
        EndsKept(n, mem, front + back, header);
      } else {
        tree' := Plug(path', u);
        FocusPlug(mem, path', u, header);
      }
      InorderNodes(Plug(path', u));
      InorderNodes(tree');
    }

    /** `_M_increment`: the next node in order, or the header after the last one. */
    method Increment(node: Ptr, ghost tree: Tree, ghost front: seq<Ptr>, ghost back: seq<Ptr>) returns (next: Ptr)
      requires Focus(mem, Top, tree, header) && Ends(mem, Inorder(tree), header)
      requires Inorder(tree) == front + [node] + back
      ensures next == EndOf(back, Left, header)
    {
      InorderNodes(tree);
      assert node in Inorder(tree) by { assert Inorder(tree)[|front|] == node; }
      ghost var (path, t) := Locate(Top, tree, node);
      FocusPlug(mem, path, t, header);
      SplitAt(path, t, front, back, header);
      Neighbours(mem, path, t, header);
      if mem[node].right != NULL {
        ghost var down := Step(path, Right, t.p, t.color, t.left);
        FocusUp(mem, down, t.right, header);
        Neighbours(mem, down, t.right, header);
        next := Extreme(Left, mem[node].right, down, t.right);
        InorderEnd(t.right, Left, header);
      } else {
        assert Wf(t.right);
        next := ClimbNext(node, path, t, tree);
      }
    }

    /** The climbing half of `_M_increment`, including its way of recognising the header. */
    method ClimbNext(node: Ptr, ghost path0: Path, ghost t0: Tree, ghost tree: Tree) returns (next: Ptr)
      requires Focus(mem, Top, tree, header) && Ends(mem, Inorder(tree), header) && Plug(path0, t0) == tree
      requires Focus(mem, path0, t0, header) && t0.Node? && t0.p == node
      ensures next == EndOf(After(path0), Left, header)
    {
      ghost var path, t := path0, t0;
      ghost var wrapped := false;
      next := node;
      Neighbours(mem, path, t, header);
      Neighbours(mem, Top, tree, header);
      var y := mem[next].parent;
      while next == mem[y].right
        invariant next in mem && y in mem
        invariant !wrapped ==> && Focus(mem, path, t, header) && t.Node? && t.p == next && y == Owner(path, header)
                               && Plug(path, t) == tree
        invariant wrapped ==>
                    path == Top && t == tree && tree.Node? && next == header && y == tree.p == mem[header].right
        invariant After(path) == After(path0)
        decreases !wrapped, Len(path)
      {
        if wrapped {
          RootNotAboveHeader(mem, tree, header);
        } else if path.Top? {
          wrapped := true;
        } else {
          Neighbours(mem, path, t, header);
          t := Join(path.side, t, path.p, path.color, path.sibling);
          FocusUp(mem, path, Kid(t, path.side), header);
          path := path.up;
          Neighbours(mem, path, t, header);
        }
        next := y;
        y := mem[y].parent;
      }
      if !wrapped {
        Neighbours(mem, path, t, header);
        NotAbove(mem, path, t, header);
      }
      if mem[next].right != y {
        next := y;
      }
    }

    /** `_M_decrement`: the previous node in order; from the header, the last node. */
    method Decrement(node: Ptr, ghost tree: Tree, ghost front: seq<Ptr>, ghost back: seq<Ptr>) returns (prev: Ptr)
      requires Focus(mem, Top, tree, header) && Ends(mem, Inorder(tree), header) && RedBlack(tree)
      requires front != []
      requires if node == header then Inorder(tree) == front else Inorder(tree) == front + [node] + back
      ensures prev == EndOf(front, Right, header)
    {
      InorderNodes(tree);
      Neighbours(mem, Top, tree, header);
      assert node != header ==> node in Inorder(tree) by {
        assert node != header ==> Inorder(tree)[|front|] == node;
      }
      ghost var (path, t) := if node == header then (Top, tree) else Locate(Top, tree, node);
      FocusPlug(mem, path, t, header);
      Neighbours(mem, path, t, header);
      if mem[node].color == Red && mem[mem[node].parent].parent == node {
        assert node == header by {
          if node != header {
            NotItsOwnGrandparent(mem, path, t, header);
          }
        }
        prev := mem[node].right;
      } else {
        SplitAt(path, t, front, back, header);
        if mem[node].left != NULL {
          ghost var down := Step(path, Left, t.p, t.color, t.right);
          FocusUp(mem, down, t.left, header);
          Neighbours(mem, down, t.left, header);
          prev := Extreme(Right, mem[node].left, down, t.left);
          InorderEnd(t.left, Right, header);
        } else {
          assert Wf(t.left);
          prev := ClimbPrevious(node, path, t);
        }
      }
    }

    method ClimbPrevious(node: Ptr, ghost path0: Path, ghost t0: Tree) returns (prev: Ptr)
      requires Focus(mem, path0, t0, header) && t0.Node? && t0.p == node && Before(path0) != []
      ensures prev == EndOf(Before(path0), Right, header)
    {
      ghost var path, t := path0, t0;
      prev := node;
      Neighbours(mem, path, t, header);
      var y := mem[prev].parent;
      while prev == mem[y].left
        invariant prev in mem && y in mem && path.Step?
        invariant Focus(mem, path, t, header) && t.Node? && t.p == prev && y == path.p
        invariant Before(path) == Before(path0)
        decreases Len(path)
      {
        Neighbours(mem, path, t, header);
        t := Join(path.side, t, path.p, path.color, path.sibling);
        FocusUp(mem, path, Kid(t, path.side), header);
        path := path.up;
        Neighbours(mem, path, t, header);
        prev := y;
        y := mem[y].parent;
      }
      Neighbours(mem, path, t, header);
      prev := y;
    }

    /**
     The link half of `_M_insert`: `z` becomes the child of `y` on side `s`, or the root when `y`
     is the header, and the tree is rebalanced.
     */
    method InsertAt(z: Ptr, y: Ptr, s: Side, ghost path: Path) returns (ghost tree: Tree)
      requires Focus(mem, path, Leaf, header) && RedBlack(Plug(path, Leaf))
               && Ends(mem, Inorder(Plug(path, Leaf)), header)
      requires y == Owner(path, header) && (if path.Top? then s == Left else s == path.side)
      requires z !in mem && z != NULL && z !in PathNodes(path)
      modifies this`mem
      ensures mem.Keys == old(mem.Keys) + {z}
      ensures Focus(mem, Top, tree, header) && RedBlack(tree) && Ends(mem, Inorder(tree), header)
      ensures Inorder(tree) == Before(path) + [z] + After(path)
    {
      Neighbours(mem, path, Leaf, header);
      ghost var m := mem;
      mem := mem[y := mem[y].WithChild(s, z)];
      if y == header {
        mem := mem[header := mem[header].(parent := z)];
        mem := mem[header := mem[header].(right := z)];
      } else if y == mem[header].Child(s) {
        mem := mem[header := mem[header].WithChild(s, z)];
      }
      mem := mem[z := Links(Black, y, NULL, NULL)];
      LinkedIn(m, mem, path, z, header);
      EndsAfterInsert(m, mem, path, z, header);
      PlugBal(path, Leaf);
      PlugNoRedRed(path, Leaf);
      if path.Step? {
        PlugRootBlack(path, Leaf);
      }
      ghost var n := mem;
      tree := Rebalance(z, path, Black);
      EndsKept(n, mem, Inorder(tree), header);
    }

    /** `__black_count`: black nodes from `node` up to the root. */
    method BlackCount(node: Ptr, ghost path: Path, ghost t: Tree) returns (count: nat)
      requires Focus(mem, path, t, header) && Ref(t) == node
      ensures count == if t.Leaf? then 0 else PathBlacks(path) + if t.color == Black then 1 else 0
      decreases path
    {
      if node == NULL {
        return 0;
      }
      Neighbours(mem, path, t, header);
      RootTest(mem, path, t, header);
      count := if mem[node].color == Black then 1 else 0;
      if node != mem[header].parent {
        FocusUp(mem, path, t, header);
        var above := BlackCount(mem[node].parent, path.up, Join(path.side, t, path.p, path.color, path.sibling));
        count := count + above;
      }
    }
  }

  /** The store after `z` has been linked into the hole of `path`, before rebalancing. */
  predicate LinkedAt(m: Memory, n: Memory, path: Path, z: Ptr, header: Ptr) {
    && header in m && n.Keys == m.Keys + {z} && n[z] == Links(Black, Owner(path, header), NULL, NULL)
    && n[header] == (if path.Top? then Links(m[header].color, z, z, z)
                     else if m[header].Child(path.side) == path.p then m[header].WithChild(path.side, z)
                     else m[header])
    && (path.Step? ==> path.p in m && path.p != header && n[path.p] == m[path.p].WithChild(path.side, z))
    && Agree(m, n, m.Keys - {header, Owner(path, header)})
  }

  lemma LinkedIn(m: Memory, n: Memory, path: Path, z: Ptr, header: Ptr)
    requires Focus(m, path, Leaf, header) && LinkedAt(m, n, path, z, header)
    requires z !in m && z != NULL && z !in PathNodes(path)
    ensures Focus(n, path, Node(Leaf, z, Black, Leaf), header)
  {
    if path.Step? {
      AgreeOutside(m, n, {header, path.p}, PathNodes(path) - {path.p});
      var k := m[header := n[header]];
      RepPathFrame(m, k, path, NULL, header);
      Redirect(k, n, path, NULL, z, header);
    }
    assert Wf(Node(Leaf, z, Black, Leaf)) && Nodes(Node(Leaf, z, Black, Leaf)) == {z};
  }

  lemma EndsAfterInsert(m: Memory, n: Memory, path: Path, z: Ptr, header: Ptr)
    requires Focus(m, path, Leaf, header) && LinkedAt(m, n, path, z, header)
    requires Ends(m, Inorder(Plug(path, Leaf)), header)
    ensures Ends(n, Before(path) + [z] + After(path), header)
  {
    PlugInorder(path, Leaf);
    EndHole(path, header);
    AroundNodes(path);
    var a, b := Before(path), After(path);
    assert Inorder(Plug(path, Leaf)) == a + b;
    if path.Step? {
      assert path.side == Left ==> b[0] == path.p;
      assert path.side == Right ==> a[|a| - 1] == path.p;
      OwnerOnce(path);
    }
  }

  lemma OwnerOnce(path: Path)
    requires path.Step? && WfPath(path)
    ensures path.side == Left ==> path.p !in Before(path)
    ensures path.side == Right ==> path.p !in After(path)
  {
    AroundNodes(path.up);
  }

  /** Only the header and the root are each other's parents, and the root is black. */
  lemma NotItsOwnGrandparent(m: Memory, path: Path, t: Tree, header: Ptr)
    requires Focus(m, path, t, header) && t.Node? && RedBlack(Plug(path, t))
    ensures t.p in m && m[t.p].parent in m && !(m[t.p].color == Red && m[m[t.p].parent].parent == t.p)
  {
    Neighbours(m, path, t, header);
    assert path.Step? ==> Owner(path.up, header) !in Nodes(t);
    PlugNode(path, t);
  }

  /** No link in a tree leads back to the header. */
  lemma RootNotAboveHeader(m: Memory, tree: Tree, header: Ptr)
    requires Focus(m, Top, tree, header) && tree.Node?
    ensures m[tree.p].right != header && m[tree.p].left != header
  {
    assert Ref(tree.left) != header && Ref(tree.right) != header;
  }

  lemma NotAbove(m: Memory, path: Path, t: Tree, header: Ptr)
    requires Focus(m, path, t, header) && t.Node?
    ensures m[t.p].right != Owner(path, header)
  {
    assert t.right.Node? ==> t.right.p in Nodes(t);
  }

  lemma SpliceInorder(path: Path, t: Tree)
    requires t.Node? && (t.left.Leaf? || t.right.Leaf?)
    ensures var front, back := Before(path) + Inorder(t.left), Inorder(t.right) + After(path);
            Inorder(Plug(path, t)) == front + [t.p] + back && Inorder(Plug(path, OnlyChild(t))) == front + back
  {
    PlugInorder(path, t);
    PlugInorder(path, OnlyChild(t));
    RegroupOuter(Before(path), Inorder(t.left), [t.p], Inorder(t.right), After(path));
  }

  /** Colours, order and ends once the successor `y` sits in the place of `t.p`. */
  lemma InnerDetached(path: Path, t: Tree, spine: Path, y: Ptr, cy: Color, xr: Tree, header: Ptr)
    requires t.Node? && t.left.Node? && RedBlack(Plug(path, t)) && AllLeft(spine)
    requires Plug(Append(spine, Step(path, Right, t.p, t.color, t.left)), Node(Leaf, y, cy, xr)) == Plug(path, t)
    ensures var path' := Append(spine, Step(path, Right, y, t.color, t.left));
            var front, back := Before(path) + Inorder(t.left), [y] + Inorder(xr) + (After(spine) + After(path));
            && Remaining(cy, path', xr)
            && Inorder(Plug(path, t)) == front + [t.p] + back && Inorder(Plug(path', xr)) == front + back
            && (forall s: Side :: EndOf(front + [t.p] + back, s, header) == EndOf(front + back, s, header))
  {
    var above := Step(path, Right, t.p, t.color, t.left);
    SuccessorRemaining(spine, above, y, cy, xr);
    SuccessorInorder(spine, path, t.p, t.color, t.left, y, cy, xr);
    InorderEnd(t.left, Left, header);
    MiddleGone(Before(path) + Inorder(t.left), t.p, [y] + Inorder(xr) + (After(spine) + After(path)), header);
  }

  lemma MiddleGone(front: seq<Ptr>, p: Ptr, back: seq<Ptr>, header: Ptr)
    requires front != [] && back != []
    ensures forall s: Side :: EndOf(front + [p] + back, s, header) == EndOf(front + back, s, header)
  {
  }

  lemma ReplacedHeader(m: Memory, n: Memory, path: Path, z: Ptr, y: Ptr, header: Ptr)
    requires Replaceable(m, z, y, header) && Replaced(m, n, z, y, header) && Redirected(m, n, path, y, header)
    requires Owner(path, header) == m[z].parent && header != NULL
    requires m[z].parent == header ==> path.Top?
    ensures n[header] == m[header].(parent := n[header].parent)
  {
  }

  lemma InorderEnd(t: Tree, s: Side, header: Ptr)
    requires t.Node?
    ensures Inorder(t) != []
    ensures Kid(t, s).Node? ==> EndOf(Inorder(t), s, header) == EndOf(Inorder(Kid(t, s)), s, header)
    ensures Kid(t, s).Leaf? ==> EndOf(Inorder(t), s, header) == t.p
  {
    if Kid(t, s).Node? {
      assert Inorder(Kid(t, s)) != [];
    }
  }

  lemma ReplacedUpToOwner(m: Memory, n: Memory, z: Ptr, y: Ptr, header: Ptr, o: Links)
    requires Replaceable(m, z, y, header) && Replaced(m, n, z, y, header)
    ensures Replaced(m, n[m[z].parent := o], z, y, header)
  {
  }

  lemma SpliceReady(m: Memory, path: Path, t: Tree, header: Ptr)
    requires Focus(m, path, t, header) && t.Node?
    ensures header in m && t.p in m && m[t.p].parent == Owner(path, header) && Owner(path, header) in m
    ensures Owner(path, header) !in Nodes(t) && header !in Nodes(t)
    ensures m[header].parent == t.p <==> path.Top?
    ensures path.Step? ==> && path.p != header && m[path.p].Child(path.side) == t.p
                           && m[path.p].Child(path.side.Other()) != t.p
    ensures t.left.Node? ==> t.left.p in m && t.left.p !in {t.p, Owner(path, header), header, NULL}
    ensures t.right.Node? ==> t.right.p in m && t.right.p !in {t.p, Owner(path, header), header, NULL}
  {
    RootTest(m, path, t, header);
    Neighbours(m, path, t, header);
    RootInStore(m, t.left, t.p);
    RootInStore(m, t.right, t.p);
  }

  lemma RootInStore(m: Memory, t: Tree, parent: Ptr)
    requires Rep(m, t, parent) && Wf(t)
    ensures t.Node? ==> t.p in m && t.p in Nodes(t) && t.p != NULL && m[t.p].parent == parent && m[t.p].color == t.color
  {
  }

  lemma Spliced(m: Memory, n: Memory, path: Path, t: Tree, header: Ptr)
    requires Focus(m, path, t, header) && t.Node? && (t.left.Leaf? || t.right.Leaf?)
    requires Redirected(m, n, path, Ref(OnlyChild(t)), header)
    requires OnlyChild(t).Node? ==> OnlyChild(t).p in m && OnlyChild(t).p in n
                                    && n[OnlyChild(t).p] == m[OnlyChild(t).p].(parent := Owner(path, header))
    requires Agree(m, n, m.Keys - {Owner(path, header), Ref(OnlyChild(t))})
    ensures Focus(n, path, OnlyChild(t), header) && t.p !in Nodes(OnlyChild(t)) + PathNodes(path) + {header}
  {
    var u, o := OnlyChild(t), Owner(path, header);
    SpliceReady(m, path, t, header);
    NoNull(u);
    NoNullPath(path);
    AgreeOutside(m, n, {o, Ref(u)}, Nodes(u) - {Ref(u)});
    AgreeOutside(m, n, {o, Ref(u)}, PathNodes(path) - {o});
    Reparent(m, n, u, t.p, o);
    Redirect(m, n, path, t.p, Ref(u), header);
  }

  /** From the hole to the far nephew, around the sibling. */
  lemma SettleLow(m: Memory, path: Path, t: Tree, header: Ptr)
    requires path.Step? && path.sibling.Node? && Focus(m, path, t, header)
    ensures var s, u := path.side, path.sibling;
            var turned := Step(path.up, s.Other(), path.p, path.color, t);
            Focus(m, Step(turned, s.Other(), u.p, u.color, Kid(u, s)), Kid(u, s.Other()), header)
  {
    var s, u := path.side, path.sibling;
    var turned := Step(path.up, s.Other(), path.p, path.color, t);
    FocusUp(m, path, t, header);
    FocusUp(m, turned, u, header);
    KidsJoin(u, s.Other());
    FocusUp(m, Step(turned, s.Other(), u.p, u.color, Kid(u, s)), Kid(u, s.Other()), header);
  }

  /** And back to the owner, with a black nephew. */
  lemma SettleHigh(m: Memory, path: Path, t: Tree, header: Ptr)
    requires path.Step? && path.sibling.Node? && Kid(path.sibling, path.side.Other()).Node?
    requires var s, u := path.side, path.sibling;
             var turned := Step(path.up, s.Other(), path.p, path.color, t);
             Focus(m, Step(turned, s.Other(), u.p, u.color, Kid(u, s)), Kid(u, s.Other()).(color := Black), header)
    ensures var s, u := path.side, path.sibling;
            Focus(m, path.up, Join(s, t, path.p, path.color,
                                   Join(s, Kid(u, s), u.p, u.color, Kid(u, s.Other()).(color := Black))), header)
  {
    var s, u := path.side, path.sibling;
    var far := Kid(u, s.Other()).(color := Black);
    var turned := Step(path.up, s.Other(), path.p, path.color, t);
    FocusUp(m, Step(turned, s.Other(), u.p, u.color, Kid(u, s)), far, header);
    FocusUp(m, turned, Join(s.Other(), far, u.p, u.color, Kid(u, s)), header);
  }

  lemma SettledBelow(m: Memory, path: Path, t: Tree, header: Ptr)
    requires path.Step? && path.sibling.Node? && Kid(path.sibling, path.side.Other()).Node?
    requires Focus(m, path.up, Settle(path, t), header) && t.Node?
    ensures t.p in m && m[t.p].color == t.color
  {
    var w, s := path.sibling, path.side;
    OpenJoin(m, s, Join(s, t, path.p, Black, Kid(w, s)), w.p, path.color,
             Kid(w, s.Other()).(color := Black), Owner(path.up, header));
    OpenJoin(m, s, t, path.p, Black, Kid(w, s), w.p);
  }

  /** A bound on the rounds still to come; a red node in the hole ends the loop. */
  function Rounds(path: Path, t: Tree): nat {
    2 * Len(path) + if IsRed(t) then 0 else 1
  }

  lemma Nephews(m: Memory, path: Path, t: Tree, header: Ptr)
    requires Focus(m, path, t, header) && path.Step? && path.sibling.Node?
    ensures path.sibling.p in m
    ensures forall s: Side ::
              var k, q := Kid(path.sibling, s), m[path.sibling.p].Child(s);
              && q == Ref(k) && (k.Node? ==> q != NULL && q in m && m[q].color == k.color)
  {
    var k, k' := path.sibling.left, path.sibling.right;
    assert Rep(m, k, path.sibling.p) && Rep(m, k', path.sibling.p) && Wf(k) && Wf(k');
    assert Kid(path.sibling, Left) == k && Kid(path.sibling, Right) == k';
  }

  /** The links that the loops read from a node in the hole. */
  lemma Neighbours(m: Memory, path: Path, t: Tree, header: Ptr)
    requires Focus(m, path, t, header)
    ensures header in m && Owner(path, header) in m
    ensures t.Node? ==> t.p in m && t.p != header && t.p != NULL && m[t.p].parent == Owner(path, header)
                        && m[t.p].color == t.color
    ensures path.Step? ==>
              && m[path.p].color == path.color && m[path.p].parent == Owner(path.up, header)
              && path.p != header && m[path.p].Child(path.side) == Ref(t)
              && m[path.p].Child(path.side.Other()) == Ref(path.sibling)
              && (path.sibling.Node? ==> path.sibling.p in m && path.sibling.p != NULL
                                         && m[path.sibling.p].color == path.sibling.color)
              && ((t.Node? || path.sibling.Node?) ==> Ref(t) != Ref(path.sibling))
  {
    RootOfPath(m, path, Ref(t), header);
  }

  lemma PushUpReady(m: Memory, path: Path, t: Tree, header: Ptr)
    requires Focus(m, path, t, header) && t.Node? && path.Step? && path.up.Step? && path.up.sibling.Node?
    ensures header in m && t.p in m && m[t.p].parent == path.p && path.p in m && m[path.p].parent == path.up.p
    ensures path.up.p in m && path.up.sibling.p in m
    ensures path.up.sibling.p == if path.p == m[path.up.p].left then m[path.up.p].right else m[path.up.p].left
    ensures header !in {path.p, path.up.p, path.up.sibling.p}
  {
    FocusUp(m, path, t, header);
    RootTest(m, path, t, header);
  }

  lemma PushedUp(m: Memory, path: Path, t: Tree, header: Ptr)
    requires Focus(m, path, t, header) && path.Step? && path.up.Step? && path.up.sibling.Node?
    requires path.p in m && path.up.p in m && path.up.sibling.p in m
    ensures var m1 := m[path.p := m[path.p].(color := Black)];
            var m2 := m1[path.up.sibling.p := m1[path.up.sibling.p].(color := Black)];
            var m3 := m2[path.up.p := m2[path.up.p].(color := Red)];
            Focus(m3, path.up.up, PushUp(path, t), header)
  {
    var m1 := m[path.p := m[path.p].(color := Black)];
    var m2 := m1[path.up.sibling.p := m1[path.up.sibling.p].(color := Black)];
    var m3 := m2[path.up.p := m2[path.up.p].(color := Red)];
    var inner := Join(path.side, t, path.p, Black, path.sibling);
    var up2 := path.up.(sibling := path.up.sibling.(color := Black));
    RecoloredOwner(m, path, t, Black, header);
    FocusUp(m1, path.(color := Black), t, header);
    RecoloredSibling(m1, path.up, inner, Black, header);
    RecoloredOwner(m2, up2, inner, Red, header);
    FocusUp(m3, up2.(color := Red), inner, header);
  }

  lemma RaiseReady(m: Memory, path: Path, t: Tree, header: Ptr)
    requires Focus(m, path, t, header) && t.Node? && path.Step? && path.up.Step? && path.side == path.up.side
    ensures header in m && t.p in m && m[t.p].parent == path.p && path.p in m && m[path.p].parent == path.up.p
    ensures path.up.p in m && header !in {path.p, path.up.p}
    ensures var m1 := m[path.p := m[path.p].(color := Black)];
            var m2 := m1[path.up.p := m1[path.up.p].(color := Red)];
            Focus(m2, path.up.up, Join(path.side.Other(), path.up.sibling, path.up.p, Red,
                                       Join(path.side.Other(), path.sibling, path.p, Black, t)), header)
  {
    FocusUp(m, path, t, header);
    RootTest(m, path, t, header);
    var m1 := m[path.p := m[path.p].(color := Black)];
    var m2 := m1[path.up.p := m1[path.up.p].(color := Red)];
    var inner := Join(path.side, t, path.p, Black, path.sibling);
    RecoloredOwner(m, path, t, Black, header);
    FocusUp(m1, path.(color := Black), t, header);
    RecoloredOwner(m1, path.up, inner, Red, header);
    FocusUp(m2, path.up.(color := Red), inner, header);
  }

  // ---------- recolouring ----------

  lemma Recolored(m: Memory, path: Path, t: Tree, c: Color, header: Ptr)
    requires Focus(m, path, t, header) && t.Node?
    ensures t.p in m && Focus(m[t.p := m[t.p].(color := c)], path, t.(color := c), header)
  {
    var n := m[t.p := m[t.p].(color := c)];
    RepFrame(m, n, t.left, t.p);
    RepFrame(m, n, t.right, t.p);
    RootOfPath(m, path, t.p, header);
    RepPathFrame(m, n, path, t.p, header);
  }

  lemma RecoloredOwner(m: Memory, path: Path, t: Tree, c: Color, header: Ptr)
    requires Focus(m, path, t, header) && path.Step?
    ensures path.p in m && path.p != header
    ensures Focus(m[path.p := m[path.p].(color := c)], path.(color := c), t, header)
  {
    FocusUp(m, path, t, header);
    var n := m[path.p := m[path.p].(color := c)];
    Recolored(m, path.up, Join(path.side, t, path.p, path.color, path.sibling), c, header);
    FocusUp(n, path.(color := c), t, header);
  }

  lemma RecoloredSibling(m: Memory, path: Path, t: Tree, c: Color, header: Ptr)
    requires Focus(m, path, t, header) && path.Step? && path.sibling.Node?
    ensures path.sibling.p in m && path.sibling.p != header
    ensures Focus(m[path.sibling.p := m[path.sibling.p].(color := c)],
                  path.(sibling := path.sibling.(color := c)), t, header)
  {
    var u := path.sibling;
    var n := m[u.p := m[u.p].(color := c)];
    var turned := Step(path.up, path.side.Other(), path.p, path.color, t);
    FocusUp(m, path, t, header);
    FocusUp(m, turned, u, header);
    Recolored(m, turned, u, c, header);
    FocusUp(n, turned, u.(color := c), header);
    FocusUp(n, path.(sibling := u.(color := c)), t, header);
  }

  // ---------- rotations ----------

  lemma RotateReady(m: Memory, s: Side, path: Path, a: Tree, x: Ptr, cx: Color, b: Tree,
                    y: Ptr, cy: Color, c: Tree, header: Ptr)
    requires Focus(m, path, Join(s, a, x, cx, Join(s, b, y, cy, c)), header)
    ensures header in m && x in m && y in m && m[x].parent == Owner(path, header) && m[x].parent in m
    ensures m[x].Child(s.Other()) == y && m[y].Child(s) == Ref(b)
    ensures var up := m[x].parent;
            && x != y && up != x && up != y && x != header && y != header
            && (b.Node? ==> b.p in m && b.p != x && b.p != y && b.p != up && b.p != header && b.p != NULL)
            && (m[header].parent == x <==> up == header)
    ensures path.Step? ==> path.p != header && m[path.p].Child(path.side) == x
                           && m[path.p].Child(path.side.Other()) != x
  {
    OpenJoin(m, s, a, x, cx, Join(s, b, y, cy, c), Owner(path, header));
    OpenJoin(m, s, b, y, cy, c, x);
    RootTest(m, path, Join(s, a, x, cx, Join(s, b, y, cy, c)), header);
  }

  lemma RotatedApart(s: Side, path: Path, a: Tree, x: Ptr, cx: Color, b: Tree,
                     y: Ptr, cy: Color, c: Tree, header: Ptr)
    requires Apart(path, Join(s, a, x, cx, Join(s, b, y, cy, c)), header)
    ensures Apart(path, Join(s, Join(s, a, x, cx, b), y, cy, c), header)
  {
    OpenJoin(map[], s, a, x, cx, Join(s, b, y, cy, c), NULL);
    OpenJoin(map[], s, b, y, cy, c, NULL);
    OpenJoin(map[], s, Join(s, a, x, cx, b), y, cy, c, NULL);
    OpenJoin(map[], s, a, x, cx, b, NULL);
  }

  lemma RotatedBelow(m: Memory, n: Memory, up: Ptr, a: Tree, x: Ptr, b: Tree, y: Ptr, c: Tree)
    requires Rep(m, a, x) && Rep(m, b, y) && Rep(m, c, y) && Wf(a) && Wf(b) && Wf(c)
    requires {x, y, up} !! Nodes(a) && {x, y, up} !! Nodes(b) && {x, y, up} !! Nodes(c)
    requires Nodes(a) !! Nodes(b) && Nodes(b) !! Nodes(c)
    requires b.Node? ==> b.p in m && b.p in n && n[b.p] == m[b.p].(parent := x)
    requires Agree(m, n, m.Keys - {x, y, up, Ref(b)})
    ensures Rep(n, a, x) && Rep(n, b, x) && Rep(n, c, y)
  {
    NoNull(a);
    NoNull(c);
    AgreeOutside(m, n, {x, y, up, Ref(b)}, Nodes(a));
    AgreeOutside(m, n, {x, y, up, Ref(b)}, Nodes(c));
    AgreeOutside(m, n, {x, y, up, Ref(b)}, Nodes(b) - {Ref(b)});
    RepFrame(m, n, a, x);
    Reparent(m, n, b, y, x);
    RepFrame(m, n, c, y);
  }

  lemma RotatedAbove(m: Memory, n: Memory, s: Side, path: Path, a: Tree, x: Ptr, cx: Color, b: Tree,
                     y: Ptr, cy: Color, c: Tree, header: Ptr)
    requires Focus(m, path, Join(s, a, x, cx, Join(s, b, y, cy, c)), header)
    requires Relinked(m, n, s, Owner(path, header), x, y, Ref(b), header)
    ensures RepPath(n, path, y, header)
    ensures header in n && header in m && n[header] == m[header].(parent := n[header].parent)
  {
    RotateReady(m, s, path, a, x, cx, b, y, cy, c, header);
    OpenJoin(m, s, a, x, cx, Join(s, b, y, cy, c), Owner(path, header));
    OpenJoin(m, s, b, y, cy, c, x);
    NoNullPath(path);
    AgreeOutside(m, n, {x, y, Owner(path, header), Ref(b)}, PathNodes(path) - {Owner(path, header)});
    Redirect(m, n, path, x, y, header);
  }

  lemma Rotated(m: Memory, n: Memory, s: Side, path: Path, a: Tree, x: Ptr, cx: Color, b: Tree,
                y: Ptr, cy: Color, c: Tree, header: Ptr)
    requires Focus(m, path, Join(s, a, x, cx, Join(s, b, y, cy, c)), header)
    requires Relinked(m, n, s, Owner(path, header), x, y, Ref(b), header)
    ensures Focus(n, path, Join(s, Join(s, a, x, cx, b), y, cy, c), header)
    ensures header in n && header in m && n[header] == m[header].(parent := n[header].parent)
  {
    RotateReady(m, s, path, a, x, cx, b, y, cy, c, header);
    RotatedAbove(m, n, s, path, a, x, cx, b, y, cy, c, header);
    RotatedApart(s, path, a, x, cx, b, y, cy, c, header);
    OpenJoin(m, s, a, x, cx, Join(s, b, y, cy, c), Owner(path, header));
    OpenJoin(m, s, b, y, cy, c, x);
    RotatedBelow(m, n, Owner(path, header), a, x, b, y, c);
    OpenJoin(n, s, Join(s, a, x, cx, b), y, cy, c, Owner(path, header));
    OpenJoin(n, s, a, x, cx, b, y);
  }
}
