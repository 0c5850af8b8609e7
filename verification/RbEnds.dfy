/** The first and last node in order, which the header cell caches. */
module RbEnds {
  import opened Basics
  import opened RbShape
  import opened RbBalance
  import opened RbUnlink

  function EndOf(q: seq<Ptr>, s: Side, header: Ptr): Ptr {
    if q == [] then header else if s == Left then q[0] else q[|q| - 1]
  }

  /** The header cell is red and caches both ends of the order; it caches itself when there are no nodes. */
  predicate Ends(m: Memory, q: seq<Ptr>, header: Ptr) {
    && header in m && m[header].color == Red
    && m[header].left == EndOf(q, Left, header) && m[header].right == EndOf(q, Right, header)
  }

  lemma {:induction false} InorderNodes(t: Tree)
    ensures forall p :: p in Inorder(t) <==> p in Nodes(t)
  {
    if t.Node? {
      InorderNodes(t.left);
      InorderNodes(t.right);
    }
  }

  lemma {:induction false} AroundNodes(path: Path)
    ensures forall p :: p in Before(path) || p in After(path) ==> p in PathNodes(path)
  {
    if path.Step? {
      AroundNodes(path.up);
      InorderNodes(path.sibling);
    }
  }

  /** A hole at the very beginning, or at the very end, is next to its owner. */
  lemma EndHole(path: Path, header: Ptr)
    ensures Before(path) == [] ==> EndOf(After(path), Left, header) == Owner(path, header)
    ensures After(path) == [] ==> EndOf(Before(path), Right, header) == Owner(path, header)
  {
  }

  /** Where an end of the order moves when a node with at most one child goes. */
  lemma EndAfterSplice(path: Path, t: Tree, s: Side, header: Ptr)
    requires Apart(path, t, header) && t.Node? && (t.left.Leaf? || t.right.Leaf?)
    ensures var q, q' := Inorder(Plug(path, t)), Inorder(Plug(path, OnlyChild(t)));
            EndOf(q', s, header) ==
            if EndOf(q, s, header) != t.p then EndOf(q, s, header)
            else if Kid(t, s.Other()).Leaf? then Owner(path, header)
            else EndOf(Inorder(OnlyChild(t)), s, header)
    ensures EndOf(Inorder(Plug(path, t)), s, header) == t.p ==> Kid(t, s).Leaf?
  {
    var u := OnlyChild(t);
    PlugInorder(path, t);
    PlugInorder(path, u);
    AroundNodes(path);
    InorderNodes(t.left);
    InorderNodes(t.right);
    EndHole(path, header);
    var a, b := Before(path), After(path);
    assert Inorder(t) == Inorder(t.left) + [t.p] + Inorder(t.right);
    if s == Left {
      SpliceFront(a, Inorder(t.left), t.p, Inorder(t.right), b, header);
    } else {
      SpliceBack(a, Inorder(t.left), t.p, Inorder(t.right), b, header);
    }
  }

  lemma SpliceFront(a: seq<Ptr>, l: seq<Ptr>, p: Ptr, r: seq<Ptr>, b: seq<Ptr>, header: Ptr)
    requires l == [] || r == []
    requires p !in a && p !in l
    ensures var q, q' := a + (l + [p] + r) + b, a + (if l == [] then r else l) + b;
            && (q[0] != p ==> EndOf(q', Left, header) == q[0])
            && (q[0] == p ==>
                  a == [] && l == [] && EndOf(q', Left, header) == if r == [] then EndOf(b, Left, header) else r[0])
  {
  }

  lemma SpliceBack(a: seq<Ptr>, l: seq<Ptr>, p: Ptr, r: seq<Ptr>, b: seq<Ptr>, header: Ptr)
    requires l == [] || r == []
    requires p !in b && p !in r
    ensures var q, q' := a + (l + [p] + r) + b, a + (if l == [] then r else l) + b;
            && (q[|q| - 1] != p ==> EndOf(q', Right, header) == q[|q| - 1])
            && (q[|q| - 1] == p ==> && b == [] && r == []
                                    && EndOf(q', Right, header) == if l
                                       == [] then EndOf(a, Right, header) else l[|l| - 1])
  {
  }

  /** The hole in which the node `z` sits. */
  function Locate(path: Path, t: Tree, z: Ptr): (r: (Path, Tree))
    requires z in Nodes(t)
    ensures Plug(r.0, r.1) == Plug(path, t) && r.1.Node? && r.1.p == z
    decreases t
  {
    if t.p == z then (path, t)
    else if z in Nodes(t.left) then Locate(Step(path, Left, t.p, t.color, t.right), t.left, z)
    else Locate(Step(path, Right, t.p, t.color, t.left), t.right, z)
  }

  lemma EndsKept(m: Memory, n: Memory, q: seq<Ptr>, header: Ptr)
    requires Ends(m, q, header) && header in n && n[header] == m[header].(parent := n[header].parent)
    ensures Ends(n, q, header)
  {
  }

  /** Changing what the header caches leaves the tree alone. */
  lemma CacheChanged(m: Memory, path: Path, t: Tree, s: Side, v: Ptr, header: Ptr)
    requires Focus(m, path, t, header) && header in m
    ensures Focus(m[header := m[header].WithChild(s, v)], path, t, header)
  {
    var n := m[header := m[header].WithChild(s, v)];
    RepFrame(m, n, t, Owner(path, header));
    RepPathFrame(m, n, path, Ref(t), header);
  }

  lemma {:induction false} InorderNoRepeats(t: Tree)
    requires Wf(t)
    ensures NoRepeats(Inorder(t))
  {
    if t.Node? {
      InorderNoRepeats(t.left);
      InorderNoRepeats(t.right);
      InorderNodes(t.left);
      InorderNodes(t.right);
      JoinNoRepeats(Inorder(t.left), t.p, Inorder(t.right));
    }
  }

  lemma JoinNoRepeats(a: seq<Ptr>, p: Ptr, b: seq<Ptr>)
    requires NoRepeats(a) && NoRepeats(b) && p !in a && p !in b
    requires forall x :: x in a ==> x !in b
    ensures NoRepeats(a + [p] + b)
  {
    var q := a + [p] + b;
    forall i, j | 0 <= i < j < |q| ensures q[i] != q[j] {
      if i < |a| {
        assert q[i] == a[i] && q[i] in a;
        assert j > |a| ==> q[j] == b[j - |a| - 1] && q[j] in b;
      }
    }
  }

  /** A node splits an order without repetitions in one way only. */
  lemma SplitUnique(q: seq<Ptr>, f: seq<Ptr>, g: seq<Ptr>, p: Ptr, b: seq<Ptr>, c: seq<Ptr>)
    requires NoRepeats(q) && q == f + [p] + b && q == g + [p] + c
    ensures f == g && b == c
  {
    assert q[|f|] == p && q[|g|] == p;
    assert |f| == |g|;
    assert f == q[..|f|] && g == q[..|g|];
    assert b == q[|f| + 1..] && c == q[|g| + 1..];
  }

  lemma RegroupOuter(a: seq<Ptr>, l: seq<Ptr>, p: seq<Ptr>, r: seq<Ptr>, b: seq<Ptr>)
    ensures a + (l + p + r) + b == (a + l) + p + (r + b)
    ensures l == [] ==> a + r + b == (a + l) + (r + b)
    ensures r == [] ==> a + l + b == (a + l) + (r + b)
  {
  }

  /** The nodes before and after the node in a hole. */
  lemma SplitAt(path: Path, t: Tree, front: seq<Ptr>, back: seq<Ptr>, header: Ptr)
    requires Apart(path, t, header) && t.Node? && Inorder(Plug(path, t)) == front + [t.p] + back
    requires Wf(Plug(path, t))
    ensures front == Before(path) + Inorder(t.left) && back == Inorder(t.right) + After(path)
  {
    var a, b := Before(path) + Inorder(t.left), Inorder(t.right) + After(path);
    PlugInorder(path, t);
    RegroupOuter(Before(path), Inorder(t.left), [t.p], Inorder(t.right), After(path));
    InorderNoRepeats(Plug(path, t));
    SplitUnique(Inorder(Plug(path, t)), front, a, t.p, back, b);
  }

  // ---------- holes beside a given node ----------

  /** The free link on side `s` of the node `p`. */
  lemma HoleBeside(m: Memory, tree: Tree, p: Ptr, s: Side, front: seq<Ptr>, back: seq<Ptr>, header: Ptr)
    returns (path: Path)
    requires Focus(m, Top, tree, header) && Inorder(tree) == front + [p] + back && p in m && m[p].Child(s) == NULL
    ensures Plug(path, Leaf) == tree && path.Step? && path.p == p && path.side == s && p != header
    ensures Before(path) == (if s == Left then front else front + [p])
    ensures After(path) == (if s == Left then [p] + back else back)
  {
    InorderNodes(tree);
    assert p in Inorder(tree) by { assert Inorder(tree)[|front|] == p; }
    var (up, t) := Locate(Top, tree, p);
    FocusPlug(m, up, t, header);
    SplitAt(up, t, front, back, header);
    assert Wf(t.left) && Wf(t.right);
    path := Step(up, s, p, t.color, Kid(t, s.Other()));
    assert Kid(t, s).Leaf?;
    BesideOrder(up, s, t);
  }

  lemma BesideOrder(up: Path, s: Side, t: Tree)
    requires t.Node? && Kid(t, s).Leaf?
    ensures var path := Step(up, s, t.p, t.color, Kid(t, s.Other()));
            var front, back := Before(up) + Inorder(t.left), Inorder(t.right) + After(up);
            && Before(path) == (if s == Left then front else front + [t.p])
            && After(path) == (if s == Left then [t.p] + back else back)
  {
    Regroup([t.p], Inorder(t.right), After(up));
    Regroup(Before(up), Inorder(t.left), [t.p]);
    Regroup(Before(up), Inorder(t.left), []);
  }

  lemma Regroup(a: seq<Ptr>, b: seq<Ptr>, c: seq<Ptr>)
    ensures (a + b) + c == a + (b + c) && (b == [] ==> a + c == (a + b) + c)
  {
  }

  /** The end of a subtree on side `s` has no child on that side. */
  lemma {:induction false} EndHasNoChild(m: Memory, t: Tree, parent: Ptr, s: Side, header: Ptr)
    requires Rep(m, t, parent) && Wf(t) && t.Node?
    ensures EndOf(Inorder(t), s, header) in m && m[EndOf(Inorder(t), s, header)].Child(s) == NULL
    decreases t
  {
    if Kid(t, s).Node? {
      EndHasNoChild(m, Kid(t, s), t.p, s, header);
      assert Inorder(Kid(t, s)) != [];
    }
  }

  /** Of two neighbours in order, one has a free link that faces the other. */
  lemma FreeBetween(m: Memory, tree: Tree, front: seq<Ptr>, p: Ptr, q: Ptr, back: seq<Ptr>, header: Ptr)
    requires Focus(m, Top, tree, header) && Inorder(tree) == front + [p] + [q] + back
    ensures p in m && q in m && (m[p].right == NULL || m[q].left == NULL)
  {
    InorderNodes(tree);
    assert q in Inorder(tree) && p in Inorder(tree) by {
      assert Inorder(tree)[|front|] == p && Inorder(tree)[|front| + 1] == q;
    }
    var (up, t) := Locate(Top, tree, q);
    var (up', t') := Locate(Top, tree, p);
    FocusPlug(m, up, t, header);
    FocusPlug(m, up', t', header);
    SplitAt(up, t, front + [p], back, header);
    if t.left.Node? {
      EndHasNoChild(m, t.left, q, Right, header);
      assert Inorder(t.left) != [];
      assert (front + [p])[|front|] == p;
      assert EndOf(Inorder(t.left), Right, header) == p;
    }
  }
}
