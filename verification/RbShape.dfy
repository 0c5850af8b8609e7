/**
 The shapes behind headers/cpp/stl_tree.h.

 Node links live in an explicit store, `Memory`, that maps an address to the four link
 fields of a node; address 0 is the null pointer. A `Tree` is the abstract shape of the
 nodes below some link, and a `Path` is the rest of the tree seen from a hole in it, from
 the hole up to the header cell. `Focus` says that a store holds exactly the tree obtained
 by filling the hole, with every parent link mirroring a child link.

 The header writes each fix-up twice, once per side. Here a `Side` is a parameter, and
 `Join(side, t, ...)` is the node whose child on that side is `t`.
 */
module RbShape {

  type Ptr = nat

  const NULL: Ptr := 0

  datatype Color = Red | Black

  datatype Side = Left | Right {
    function Other(): Side {
      if this == Left then Right else Left
    }
  }

  datatype Links = Links(color: Color, parent: Ptr, left: Ptr, right: Ptr) {
    function Child(s: Side): Ptr {
      if s == Left then left else right
    }

    function WithChild(s: Side, p: Ptr): Links {
      if s == Left then this.(left := p) else this.(right := p)
    }
  }

  type Memory = map<Ptr, Links>

  datatype Tree = Leaf | Node(left: Tree, p: Ptr, color: Color, right: Tree)

  datatype Path = Top | Step(up: Path, side: Side, p: Ptr, color: Color, sibling: Tree)

  /** The node `p` whose child on side `s` is `t` and whose other child is `sibling`. */
  function Join(s: Side, t: Tree, p: Ptr, c: Color, sibling: Tree): Tree {
    if s == Left then Node(t, p, c, sibling) else Node(sibling, p, c, t)
  }

  function Kid(t: Tree, s: Side): Tree
    requires t.Node?
  {
    if s == Left then t.left else t.right
  }

  function Plug(path: Path, t: Tree): Tree {
    match path
    case Top => t
    case Step(up, s, p, c, sibling) => Plug(up, Join(s, t, p, c, sibling))
  }

  function Len(path: Path): nat {
    if path.Top? then 0 else 1 + Len(path.up)
  }

  /** The pointer stored in the link that leads to `t`. */
  function Ref(t: Tree): Ptr {
    if t.Leaf? then NULL else t.p
  }

  /** The node that holds the link to the hole: the header cell holds the link to the root. */
  function Owner(path: Path, header: Ptr): Ptr {
    if path.Top? then header else path.p
  }

  function Nodes(t: Tree): set<Ptr> {
    match t
    case Leaf => {}
    case Node(l, p, _, r) => Nodes(l) + {p} + Nodes(r)
  }

  function PathNodes(path: Path): set<Ptr> {
    match path
    case Top => {}
    case Step(up, _, p, _, sibling) => PathNodes(up) + {p} + Nodes(sibling)
  }

  /** No node occurs twice. */
  predicate Wf(t: Tree) {
    match t
    case Leaf => true
    case Node(l, p, _, r) =>
      p != NULL && p !in Nodes(l) && p !in Nodes(r) && Nodes(l) !! Nodes(r) && Wf(l) && Wf(r)
  }

  predicate WfPath(path: Path) {
    match path
    case Top => true
    case Step(up, _, p, _, sibling) =>
      p != NULL && p !in PathNodes(up) && p !in Nodes(sibling)
      && PathNodes(up) !! Nodes(sibling) && Wf(sibling) && WfPath(up)
  }

  /** The store holds `t` below a link whose owner is `parent`. */
  predicate Rep(m: Memory, t: Tree, parent: Ptr) {
    match t
    case Leaf => true
    case Node(l, p, c, r) =>
      p in m && m[p] == Links(c, parent, Ref(l), Ref(r)) && Rep(m, l, p) && Rep(m, r, p)
  }

  /** The store holds `path` around a hole whose link currently contains `hole`. */
  predicate RepPath(m: Memory, path: Path, hole: Ptr, header: Ptr) {
    match path
    case Top => header in m && m[header].parent == hole
    case Step(up, s, p, c, sibling) =>
      p in m && m[p].color == c && m[p].parent == Owner(up, header)
      && m[p].Child(s) == hole && m[p].Child(s.Other()) == Ref(sibling)
      && Rep(m, sibling, p) && RepPath(m, up, p, header)
  }

  /** The nodes of a hole's surroundings and of the tree in the hole are all different. */
  predicate Apart(path: Path, t: Tree, header: Ptr) {
    header != NULL && header !in Nodes(t) && header !in PathNodes(path)
    && Nodes(t) !! PathNodes(path) && Wf(t) && WfPath(path)
  }

  predicate Focus(m: Memory, path: Path, t: Tree, header: Ptr) {
    Apart(path, t, header) && Rep(m, t, Owner(path, header)) && RepPath(m, path, Ref(t), header)
  }

  /** What a node on a known side says about its parts. */
  lemma OpenJoin(m: Memory, s: Side, t: Tree, p: Ptr, c: Color, sibling: Tree, parent: Ptr)
    ensures Nodes(Join(s, t, p, c, sibling)) == Nodes(t) + {p} + Nodes(sibling)
    ensures Wf(Join(s, t, p, c, sibling))
            <==> p != NULL && p !in Nodes(t) && p !in Nodes(sibling) && Nodes(t) !! Nodes(sibling)
                 && Wf(t) && Wf(sibling)
    ensures Rep(m, Join(s, t, p, c, sibling), parent)
            <==> p in m && m[p].color == c && m[p].parent == parent && m[p].Child(s) == Ref(t)
                 && m[p].Child(s.Other()) == Ref(sibling) && Rep(m, t, p) && Rep(m, sibling, p)
  {
  }

  // ---------- moving the focus ----------

  lemma FocusUp(m: Memory, path: Path, t: Tree, header: Ptr)
    requires path.Step?
    ensures Focus(m, path, t, header)
            <==> Focus(m, path.up, Join(path.side, t, path.p, path.color, path.sibling), header)
  {
  }

  lemma {:induction false} FocusPlug(m: Memory, path: Path, t: Tree, header: Ptr)
    ensures Focus(m, path, t, header) <==> Focus(m, Top, Plug(path, t), header)
    decreases path
  {
    if path.Step? {
      FocusUp(m, path, t, header);
      FocusPlug(m, path.up, Join(path.side, t, path.p, path.color, path.sibling), header);
    }
  }

  lemma {:induction false} PlugNodes(path: Path, t: Tree)
    ensures Nodes(Plug(path, t)) == PathNodes(path) + Nodes(t)
    decreases path
  {
    if path.Step? {
      PlugNodes(path.up, Join(path.side, t, path.p, path.color, path.sibling));
    }
  }

  // ---------- framing ----------

  predicate Agree(m: Memory, n: Memory, ps: set<Ptr>) {
    forall p :: p in ps && p in m ==> p in n && n[p] == m[p]
  }

  lemma AgreeOutside(m: Memory, n: Memory, changed: set<Ptr>, ps: set<Ptr>)
    requires Agree(m, n, m.Keys - changed) && changed !! ps
    ensures Agree(m, n, ps)
  {
  }

  lemma {:induction false} NoNull(t: Tree)
    requires Wf(t)
    ensures NULL !in Nodes(t)
  {
    if t.Node? {
      NoNull(t.left);
      NoNull(t.right);
    }
  }

  lemma {:induction false} NoNullPath(path: Path)
    requires WfPath(path)
    ensures NULL !in PathNodes(path)
  {
    if path.Step? {
      NoNullPath(path.up);
      NoNull(path.sibling);
    }
  }

  lemma {:induction false} RepFrame(m: Memory, n: Memory, t: Tree, parent: Ptr)
    requires Rep(m, t, parent) && Agree(m, n, Nodes(t))
    ensures Rep(n, t, parent)
  {
    if t.Node? {
      RepFrame(m, n, t.left, t.p);
      RepFrame(m, n, t.right, t.p);
    }
  }

  lemma {:induction false} RepPathFrame(m: Memory, n: Memory, path: Path, hole: Ptr, header: Ptr)
    requires RepPath(m, path, hole, header) && Agree(m, n, PathNodes(path))
    requires header in m && header in n && n[header].parent == m[header].parent
    ensures RepPath(n, path, hole, header)
  {
    if path.Step? {
      RepFrame(m, n, path.sibling, path.p);
      RepPathFrame(m, n, path.up, path.p, header);
    }
  }

  /** As `RepFrame`, when the root of the subtree gets another parent. */
  lemma Reparent(m: Memory, n: Memory, t: Tree, parent: Ptr, parent': Ptr)
    requires Rep(m, t, parent) && Wf(t) && Agree(m, n, Nodes(t) - {Ref(t)})
    requires t.Node? ==> t.p in n && n[t.p] == m[t.p].(parent := parent')
    ensures Rep(n, t, parent')
  {
    if t.Node? {
      RepFrame(m, n, t.left, t.p);
      RepFrame(m, n, t.right, t.p);
    }
  }

  /** The owner of a hole is given another pointer to store in its link. */
  predicate Redirected(m: Memory, n: Memory, path: Path, q: Ptr, header: Ptr) {
    var o := Owner(path, header);
    o in m && o in n
    && n[o] == if path.Top? then m[o].(parent := q) else m[o].WithChild(path.side, q)
  }

  lemma Redirect(m: Memory, n: Memory, path: Path, hole: Ptr, q: Ptr, header: Ptr)
    requires RepPath(m, path, hole, header) && WfPath(path) && header !in PathNodes(path)
    requires Redirected(m, n, path, q, header)
    requires Agree(m, n, PathNodes(path) - {Owner(path, header)})
    requires header in m && header in n && (path.Step? ==> n[header].parent == m[header].parent)
    ensures RepPath(n, path, q, header)
  {
    if path.Step? {
      RepFrame(m, n, path.sibling, path.p);
      RepPathFrame(m, n, path.up, path.p, header);
    }
  }

  lemma {:induction false} RootOfPath(m: Memory, path: Path, hole: Ptr, header: Ptr)
    requires RepPath(m, path, hole, header) && WfPath(path)
    ensures header in m
    ensures path.Step? ==> m[header].parent in PathNodes(path) && m[header].parent != NULL
    decreases path
  {
    if path.Step? {
      RootOfPath(m, path.up, path.p, header);
    }
  }

  /** The code's test for the root is a test for the top of the tree. */
  lemma RootTest(m: Memory, path: Path, t: Tree, header: Ptr)
    requires Focus(m, path, t, header)
    ensures header in m && (m[header].parent == Ref(t) <==> path.Top?)
  {
    RootOfPath(m, path, Ref(t), header);
  }
}
