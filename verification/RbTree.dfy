/** The class `_Rb_tree` (headers/cpp/stl_tree.h:521-1304): nodes with values, kept in order of their keys. */
module RbTree {
  import opened Order
  import opened RbShape
  import opened RbBalance
  import opened RbInsertFix
  import opened RbEnds
  import opened RbOrder
  import opened RbLinks
  import opened RbHeight

  lemma FreshAddress(used: set<Ptr>) returns (p: Ptr)
    ensures p != NULL && p !in used
  {
    if used == {} {
      p := 1;
    } else {
      var m := Largest(used);
      p := m + 1;
    }
  }

  lemma Largest(used: set<Ptr>) returns (m: Ptr)
    requires used != {}
    ensures m in used && forall p :: p in used ==> p <= m
    decreases |used|
  {
    m :| m in used;
    if used != {m} {
      var rest := used - {m};
      assert rest != {} && forall p :: p in used ==> p == m || p in rest;
      var m' := Largest(rest);
      if m < m' {
        m := m';
      }
    }
  }

  ghost function KeyMap<K, V>(keyOf: V -> K, vals: map<Ptr, V>): map<Ptr, K> {
    map p | p in vals :: keyOf(vals[p])
  }

  ghost function Without<V>(vals: map<Ptr, V>, gone: seq<Ptr>): map<Ptr, V> {
    vals - (set p | p in gone)
  }

  lemma KeyMapAdd<K, V>(keyOf: V -> K, vals: map<Ptr, V>, z: Ptr, v: V)
    ensures KeyMap(keyOf, vals[z := v]) == KeyMap(keyOf, vals)[z := keyOf(v)]
  {
  }

  lemma KeyMapRemove<K, V>(keyOf: V -> K, vals: map<Ptr, V>, z: Ptr)
    ensures KeyMap(keyOf, vals - {z}) == KeyMap(keyOf, vals) - {z}
  {
  }

  class RbTree<K(!new), V(!new)> {
    const lt: (K, K) -> bool
    const keyOf: V -> K
    const links: LinkStore
    var vals: map<Ptr, V>
    var nodeCount: nat
    ghost var tree: Tree

    ghost function Keys(): map<Ptr, K>
      reads this
    {
      KeyMap(keyOf, vals)
    }

    /** The addresses of the nodes, in order. */
    ghost function Order(): seq<Ptr>
      reads this
    {
      Inorder(tree)
    }

    /** The store holds a red-black tree and nothing else, and the header caches its ends. */
    ghost predicate Shaped()
      reads this, links
    {
      && Focus(links.mem, Top, tree, links.header) && RedBlack(tree) && Ends(links.mem, Order(), links.header)
      && links.mem.Keys == Nodes(tree) + {links.header} && vals.Keys == Nodes(tree)
      && nodeCount == |Order()|
    }

    ghost predicate Valid()
      reads this, links
    {
      Shaped() && StrictWeakOrder(lt) && Covers(Keys(), Order()) && Ascending(lt, Keys(), Order())
    }

    /** What a tree built by `insert_unique` alone has besides. */
    ghost predicate Unique()
      requires Covers(Keys(), Order())
      reads this
    {
      Distinct(lt, Keys(), Order())
    }

    constructor (lt: (K, K) -> bool, keyOf: V -> K, header: Ptr)
      requires StrictWeakOrder(lt) && header != NULL
      ensures Valid() && Order() == [] && Unique() && fresh(links)
      ensures this.lt == lt && this.keyOf == keyOf && links.header == header
    {
      this.lt, this.keyOf := lt, keyOf;
      links := new LinkStore(header);
      vals, nodeCount, tree := map[], 0, Leaf;
    }

    /** The links of a new node, in a hole of the tree. */
    method LinkNew(y: Ptr, s: Side, ghost path: Path) returns (z: Ptr, ghost t: Tree)
      requires Focus(links.mem, path, Leaf, links.header) && RedBlack(Plug(path, Leaf))
      requires Ends(links.mem, Inorder(Plug(path, Leaf)), links.header)
      requires PathNodes(path) <= links.mem.Keys
      requires y == Owner(path, links.header) && (if path.Top? then s == Left else s == path.side)
      modifies links
      ensures z !in old(links.mem) && links.mem.Keys == old(links.mem.Keys) + {z}
      ensures Focus(links.mem, Top, t, links.header) && RedBlack(t) && Ends(links.mem, Inorder(t), links.header)
      ensures Inorder(t) == Before(path) + [z] + After(path) && Nodes(t) == PathNodes(path) + {z}
    {
      ghost var free := FreshAddress(links.mem.Keys);
      z :| z != NULL && z !in links.mem;
      t := links.InsertAt(z, y, s, path);
      PlugInorder(path, Node(Leaf, z, Red, Leaf));
      assert Inorder(Node(Leaf, z, Red, Leaf)) == [z] && Nodes(Node(Leaf, z, Red, Leaf)) == {z};
      PlugNodes(path, Node(Leaf, z, Red, Leaf));
      InorderNodes(Plug(path, Node(Leaf, z, Red, Leaf)));
      InorderNodes(t);
    }

    /** A new node for `v` on side `s` of `y`. */
    method AddNode(y: Ptr, s: Side, v: V, ghost path: Path) returns (z: Ptr)
      requires Shaped() && Plug(path, Leaf) == tree && y == Owner(path, links.header)
      requires if path.Top? then s == Left else s == path.side
      modifies this, links
      ensures Shaped()
      ensures z !in old(vals) && z != links.header && vals == old(vals)[z := v]
      ensures Order() == Before(path) + [z] + After(path) && old(Order()) == Before(path) + After(path)
      ensures Keys() == old(Keys())[z := keyOf(v)] && z !in Before(path) && z !in After(path)
    {
      InsertFacts(path, tree, links.mem, links.header);
      ghost var t;
      z, t := LinkNew(y, s, path);
      KeyMapAdd(keyOf, vals, z, v);
      tree, vals, nodeCount := t, vals[z := v], nodeCount + 1;
    }

    /** `_M_insert`: a new node for `v` below `y`; a non-null `x` forces the left side. */
    method InsertNode(x: Ptr, y: Ptr, v: V, ghost path: Path) returns (z: Ptr)
      requires Valid() && Plug(path, Leaf) == tree && y == Owner(path, links.header)
      requires path.Step? ==> y in vals && y != links.header
                              && (path.side == Left <==> x != NULL || lt(keyOf(v), keyOf(vals[y])))
      requires forall p :: p in Before(path) ==> p in vals && !lt(keyOf(v), keyOf(vals[p]))
      requires forall p :: p in After(path) ==> p in vals && !lt(keyOf(vals[p]), keyOf(v))
      modifies this, links
      ensures Valid()
      ensures z !in old(vals) && z != links.header && vals == old(vals)[z := v]
      ensures Order() == Before(path) + [z] + After(path) && old(Order()) == Before(path) + After(path)
    {
      ghost var ks := Keys();
      var s := if y == links.header || x != NULL || lt(keyOf(v), keyOf(vals[y])) then Left else Right;
      z := AddNode(y, s, v, path);
      AscendingInsert(lt, ks, Before(path), z, keyOf(v), After(path));
    }

    /** `lower_bound`: the first node whose key is not less than `k`, or the header. */
    method LowerBound(k: K) returns (y: Ptr, ghost front: seq<Ptr>, ghost back: seq<Ptr>)
      requires Valid()
      ensures Order() == front + back && y == EndOf(back, Left, links.header)
      ensures forall p :: p in front ==> p in vals && lt(keyOf(vals[p]), k)
      ensures forall p :: p in back ==> p in vals && !lt(keyOf(vals[p]), k)
    {
      ghost var high := NotLess(lt, Keys(), k);
      SearchSetsUpward(lt, Keys(), Order(), k);
      RootLinks(tree, links.mem, links.header);
      y := links.header;
      var x := links.mem[links.header].parent;
      ghost var path, t := Top, tree;
      while x != NULL
        invariant Descent(path, t, tree, links.mem, links.header) && x == Ref(t)
        invariant Parted(path, high) && y == EndOf(After(path), Left, links.header)
        decreases t
      {
        DescentNode(path, t, tree, links.mem, links.header);
        SearchStep(path, t, high);
        if !lt(keyOf(vals[x]), k) {
          y := x;
          x := links.mem[x].left;
          path, t := Step(path, Left, t.p, t.color, t.right), t.left;
        } else {
          x := links.mem[x].right;
          path, t := Step(path, Right, t.p, t.color, t.left), t.right;
        }
      }
      front, back := Before(path), After(path);
      DescentEnd(path, t, tree, links.mem, links.header);
    }

    /** `upper_bound`: the first node whose key is greater than `k`, or the header. */
    method UpperBound(k: K) returns (y: Ptr, ghost front: seq<Ptr>, ghost back: seq<Ptr>)
      requires Valid()
      ensures Order() == front + back && y == EndOf(back, Left, links.header)
      ensures forall p :: p in front ==> p in vals && !lt(k, keyOf(vals[p]))
      ensures forall p :: p in back ==> p in vals && lt(k, keyOf(vals[p]))
    {
      ghost var high := Greater(lt, Keys(), k);
      SearchSetsUpward(lt, Keys(), Order(), k);
      RootLinks(tree, links.mem, links.header);
      y := links.header;
      var x := links.mem[links.header].parent;
      ghost var path, t := Top, tree;
      while x != NULL
        invariant Descent(path, t, tree, links.mem, links.header) && x == Ref(t)
        invariant Parted(path, high) && y == EndOf(After(path), Left, links.header)
        decreases t
      {
        DescentNode(path, t, tree, links.mem, links.header);
        SearchStep(path, t, high);
        if lt(k, keyOf(vals[x])) {
          y := x;
          x := links.mem[x].left;
          path, t := Step(path, Left, t.p, t.color, t.right), t.left;
        } else {
          x := links.mem[x].right;
          path, t := Step(path, Right, t.p, t.color, t.left), t.right;
        }
      }
      front, back := Before(path), After(path);
      DescentEnd(path, t, tree, links.mem, links.header);
    }

    /** `find`: a node with a key equivalent to `k`, or the header when there is none. */
    method Find(k: K) returns (j: Ptr)
      requires Valid()
      ensures j != links.header ==> j in vals && !lt(keyOf(vals[j]), k) && !lt(k, keyOf(vals[j]))
      ensures j == links.header ==> forall p :: p in vals ==> lt(keyOf(vals[p]), k) || lt(k, keyOf(vals[p]))
    {
      ghost var front, back;
      j, front, back := LowerBound(k);
      InorderNodes(tree);
      if j != links.header && lt(k, keyOf(vals[j])) {
        FirstIsGreater(lt, Keys(), front, back, k);
        j := links.header;
      }
    }

    /** The descent shared by `insert_equal` and `insert_unique`. */
    method Walk(k: K, ghost high: set<Ptr>) returns (y: Ptr, comp: bool, ghost path: Path)
      requires Shaped() && high == Greater(lt, Keys(), k) && Upward(Order(), high)
      ensures Descent(path, Leaf, tree, links.mem, links.header) && y == Owner(path, links.header)
      ensures comp <==> path.Top? || path.side == Left
      ensures Parted(path, high)
    {
      RootLinks(tree, links.mem, links.header);
      y, comp := links.header, true;
      var x := links.mem[links.header].parent;
      ghost var t := tree;
      path := Top;
      while x != NULL
        invariant Descent(path, t, tree, links.mem, links.header) && x == Ref(t)
        invariant Parted(path, high) && y == Owner(path, links.header)
        invariant comp <==> path.Top? || path.side == Left
        decreases t
      {
        DescentNode(path, t, tree, links.mem, links.header);
        SearchStep(path, t, high);
        y := x;
        comp := lt(k, keyOf(vals[x]));
        if comp {
          x := links.mem[x].left;
          path, t := Step(path, Left, t.p, t.color, t.right), t.left;
        } else {
          x := links.mem[x].right;
          path, t := Step(path, Right, t.p, t.color, t.left), t.right;
        }
      }
      DescentEnd(path, t, tree, links.mem, links.header);
    }

    /** What the descent finds: the hole after all keys not greater than `k`. */
    method Descend(k: K) returns (y: Ptr, comp: bool, ghost path: Path)
      requires Valid()
      ensures Plug(path, Leaf) == tree && y == Owner(path, links.header)
      ensures path.Step? ==> y in vals && y != links.header && (path.side == Left <==> lt(k, keyOf(vals[y])))
      ensures comp <==> path.Top? || path.side == Left
      ensures Order() == Before(path) + After(path)
      ensures forall p :: p in Before(path) ==> p in vals && !lt(k, keyOf(vals[p]))
      ensures forall p :: p in After(path) ==> p in vals && lt(k, keyOf(vals[p]))
    {
      SearchSetsUpward(lt, Keys(), Order(), k);
      y, comp, path := Walk(k, Greater(lt, Keys(), k));
      DescentEnd(path, Leaf, tree, links.mem, links.header);
      if path.Step? {
        HoleOwner(path);
      }
    }

    /** `insert_equal`: the new node goes after all nodes with a key not greater than its own. */
    method InsertEqual(v: V) returns (z: Ptr, ghost front: seq<Ptr>, ghost back: seq<Ptr>)
      requires Valid()
      modifies this, links
      ensures Valid() && z !in old(vals) && vals == old(vals)[z := v]
      ensures old(Order()) == front + back && Order() == front + [z] + back
      ensures forall p :: p in front ==> p in vals && !lt(keyOf(v), keyOf(vals[p]))
      ensures forall p :: p in back ==> p in vals && lt(keyOf(v), keyOf(vals[p]))
    {
      var y, comp;
      ghost var path;
      y, comp, path := Descend(keyOf(v));
      front, back := Before(path), After(path);
      z := InsertNode(NULL, y, v, path);
    }

    /** The predecessor of the hole, unless the hole is at the beginning. */
    method BeforeHole(y: Ptr, comp: bool, ghost path: Path) returns (atBegin: bool, j: Ptr)
      requires Shaped() && Descent(path, Leaf, tree, links.mem, links.header) && y == Owner(path, links.header)
      requires comp <==> path.Top? || path.side == Left
      ensures atBegin <==> Before(path) == []
      ensures !atBegin ==> j == EndOf(Before(path), Right, links.header) && j in Before(path) && j in vals
    {
      ghost var front, back := Before(path), After(path);
      DescentEnd(path, Leaf, tree, links.mem, links.header);
      RootLinks(tree, links.mem, links.header);
      if path.Step? {
        HoleOwner(path);
        OwnerOnce(path);
      }
      atBegin, j := false, y;
      if comp {
        if j == links.mem[links.header].left {
          atBegin := true;
        } else {
          assert back == [y] + back[1..];
          assert Order() == front + [y] + back[1..];
          j := links.Decrement(j, tree, front, back[1..]);
        }
      }
    }

    /**
     `insert_unique`: a node is added exactly when no node has an equivalent key; otherwise the
     result is a node with an equivalent key and nothing changes.
     */
    method InsertUnique(v: V) returns (it: Ptr, inserted: bool, ghost front: seq<Ptr>, ghost back: seq<Ptr>)
      requires Valid()
      modifies this, links
      ensures Valid() && old(Order()) == front + back
      ensures inserted ==> && it !in old(vals) && vals == old(vals)[it := v] && Order() == front + [it] + back
                           && (forall p :: p in front ==> p in vals && lt(keyOf(vals[p]), keyOf(v)))
                           && (forall p :: p in back ==> p in vals && lt(keyOf(v), keyOf(vals[p])))
      ensures !inserted ==> && vals == old(vals) && Order() == old(Order()) && it in vals
                            && !lt(keyOf(vals[it]), keyOf(v)) && !lt(keyOf(v), keyOf(vals[it]))
      ensures old(Unique()) ==> Unique()
    {
      var y, comp, atBegin, j;
      ghost var path;
      y, comp, path := Descend(keyOf(v));
      FocusPlug(links.mem, path, Leaf, links.header);
      front, back := Before(path), After(path);
      atBegin, j := BeforeHole(y, comp, path);
      if atBegin || lt(keyOf(vals[j]), keyOf(v)) {
        if !atBegin {
          AllLess(lt, Keys(), front, back, keyOf(v));
        }
        it := InsertApart(NULL, y, v, path);
        inserted := true;
      } else {
        it, inserted := j, false;
      }
    }

    /** `_M_insert` at a hole with strictly smaller keys before it and strictly greater ones after it. */
    method InsertApart(x: Ptr, y: Ptr, v: V, ghost path: Path) returns (z: Ptr)
      requires Valid() && Plug(path, Leaf) == tree && y == Owner(path, links.header)
      requires path.Step? ==> y in vals && y != links.header
                              && (path.side == Left <==> x != NULL || lt(keyOf(v), keyOf(vals[y])))
      requires forall p :: p in Before(path) ==> p in vals && lt(keyOf(vals[p]), keyOf(v))
      requires forall p :: p in After(path) ==> p in vals && lt(keyOf(v), keyOf(vals[p]))
      modifies this, links
      ensures Valid() && (old(Unique()) ==> Unique())
      ensures z !in old(vals) && vals == old(vals)[z := v]
      ensures Order() == Before(path) + [z] + After(path) && old(Order()) == Before(path) + After(path)
    {
      ghost var ks, unique := Keys(), Unique();
      Asymmetric(lt, ks, Before(path), After(path), keyOf(v));
      z := InsertNode(x, y, v, path);
      KeyMapAdd(keyOf, old(vals), z, v);
      if unique {
        DistinctInsert(lt, ks, Before(path), z, keyOf(v), After(path));
      }
    }

    /** Where a hint points: `front` precedes it, and `back` starts with it. */
    ghost predicate HintAt(pos: Ptr, front: seq<Ptr>, back: seq<Ptr>)
      reads this
    {
      Order() == front + back && pos == EndOf(back, Left, links.header)
    }

    /** The free link between the node before a hint and the node at it, as the hinted insertions choose it. */
    method HintHole(pos: Ptr, before: Ptr, ghost front: seq<Ptr>, ghost back: seq<Ptr>)
      returns (x: Ptr, y: Ptr, ghost path: Path)
      requires Shaped() && HintAt(pos, front, back) && front != [] && back != []
      requires before == front[|front| - 1] && before in vals && pos in vals
      ensures Plug(path, Leaf) == tree && path.Step? && y == path.p && y != links.header && y in vals
      ensures Before(path) == front && After(path) == back
      ensures path.side == (if x != NULL then Left else Right) && (x == NULL ==> y == before)
    {
      ghost var a, b := front[..|front| - 1], back[1..];
      Neighbouring(front, back);
      NoNull(tree);
      FreeBetween(links.mem, tree, a, before, pos, b, links.header);
      if links.mem[before].right == NULL {
        x, y := NULL, before;
        path := HoleBeside(links.mem, tree, before, Right, a, back, links.header);
      } else {
        x, y := pos, pos;
        path := HoleBeside(links.mem, tree, pos, Left, front, b, links.header);
      }
    }

    /** The free link at the beginning or at the end of the order. */
    method HoleAtEnd(s: Side, e: Ptr) returns (ghost path: Path)
      requires Shaped() && Order() != [] && e == EndOf(Order(), s, links.header)
      ensures Plug(path, Leaf) == tree && path.Step? && e == path.p && e != links.header && e in vals
      ensures path.side == s && Before(path) == (if s == Left then [] else Order())
      ensures After(path) == (if s == Left then Order() else [])
    {
      ghost var q := Order();
      assert tree.Node?;
      EndHasNoChild(links.mem, tree, links.header, s, links.header);
      InorderNodes(tree);
      if s == Left {
        assert q == [] + [e] + q[1..];
        path := HoleBeside(links.mem, tree, e, Left, [], q[1..], links.header);
      } else {
        assert q == q[..|q| - 1] + [e] + [];
        path := HoleBeside(links.mem, tree, e, Right, q[..|q| - 1], [], links.header);
      }
    }

    /** `v` may go into the hole: its key is strictly between those before and those after it. */
    ghost predicate FitsApart(x: Ptr, y: Ptr, v: V, path: Path)
      reads this
    {
      && Plug(path, Leaf) == tree && path.Step? && y == path.p && y != links.header && y in vals
      && (path.side == Left <==> x != NULL || lt(keyOf(v), keyOf(vals[y])))
      && (forall p :: p in Before(path) ==> p in vals && lt(keyOf(vals[p]), keyOf(v)))
      && (forall p :: p in After(path) ==> p in vals && lt(keyOf(v), keyOf(vals[p])))
    }

    method UniqueAtBegin(pos: Ptr, v: V) returns (ghost path: Path)
      requires Valid() && Order() != [] && pos == Order()[0] && pos in vals && lt(keyOf(v), keyOf(vals[pos]))
      ensures FitsApart(pos, pos, v, path)
    {
      path := HoleAtEnd(Left, pos);
      FirstIsGreater(lt, Keys(), [], Order(), keyOf(v));
    }

    method UniqueAtEnd(last: Ptr, v: V) returns (ghost path: Path)
      requires Valid() && Order() != [] && last == EndOf(Order(), Right, links.header)
      requires last in vals && lt(keyOf(vals[last]), keyOf(v))
      ensures FitsApart(NULL, last, v, path)
    {
      path := HoleAtEnd(Right, last);
      AllLess(lt, Keys(), Order(), [], keyOf(v));
      NotBoth(lt, keyOf(vals[last]), keyOf(v));
    }

    method UniqueBetween(pos: Ptr, before: Ptr, v: V, ghost front: seq<Ptr>, ghost back: seq<Ptr>)
      returns (x: Ptr, y: Ptr, ghost path: Path)
      requires Valid() && HintAt(pos, front, back) && front != [] && back != []
      requires before == front[|front| - 1] && before in vals && pos in vals
      requires lt(keyOf(vals[before]), keyOf(v)) && lt(keyOf(v), keyOf(vals[pos]))
      ensures FitsApart(x, y, v, path)
    {
      x, y, path := HintHole(pos, before, front, back);
      FirstIsGreater(lt, Keys(), front, back, keyOf(v));
      AllLess(lt, Keys(), front, back, keyOf(v));
      NotBoth(lt, keyOf(vals[before]), keyOf(v));
    }

    /** The three cases in which a hint for `insert_unique` is used. */
    method TryUniqueHint(pos: Ptr, v: V, ghost hintFront: seq<Ptr>, ghost hintBack: seq<Ptr>)
      returns (fits: bool, x: Ptr, y: Ptr, ghost path: Path)
      requires Valid() && HintAt(pos, hintFront, hintBack)
      ensures fits ==> FitsApart(x, y, v, path)
    {
      HintEnds(tree, hintFront, hintBack, links.header);
      RootLinks(tree, links.mem, links.header);
      x, y, fits, path := NULL, NULL, false, Top;
      if pos == links.mem[links.header].left {
        if nodeCount > 0 && lt(keyOf(v), keyOf(vals[pos])) {
          path := UniqueAtBegin(pos, v);
          x, y, fits := pos, pos, true;
        }
      } else if pos == links.header {
        if lt(keyOf(vals[links.mem[links.header].right]), keyOf(v)) {
          y, fits := links.mem[links.header].right, true;
          path := UniqueAtEnd(y, v);
        }
      } else {
        var before := links.Decrement(pos, tree, hintFront, hintBack[1..]);
        if lt(keyOf(vals[before]), keyOf(v)) && lt(keyOf(v), keyOf(vals[pos])) {
          x, y, path := UniqueBetween(pos, before, v, hintFront, hintBack);
          fits := true;
        }
      }
    }

    /** `insert_unique(iterator, value)`: whatever the hint, the same outcome as without one. */
    method InsertUniqueHint(pos: Ptr, v: V, ghost hintFront: seq<Ptr>, ghost hintBack: seq<Ptr>)
      returns (it: Ptr, ghost inserted: bool, ghost front: seq<Ptr>, ghost back: seq<Ptr>)
      requires Valid() && HintAt(pos, hintFront, hintBack)
      modifies this, links
      ensures Valid() && old(Order()) == front + back
      ensures inserted ==> && it !in old(vals) && vals == old(vals)[it := v] && Order() == front + [it] + back
                           && (forall p :: p in front ==> p in vals && lt(keyOf(vals[p]), keyOf(v)))
                           && (forall p :: p in back ==> p in vals && lt(keyOf(v), keyOf(vals[p])))
      ensures !inserted ==> && vals == old(vals) && Order() == old(Order()) && it in vals
                            && !lt(keyOf(vals[it]), keyOf(v)) && !lt(keyOf(v), keyOf(vals[it]))
      ensures old(Unique()) ==> Unique()
    {
      var fits, x, y;
      ghost var path;
      fits, x, y, path := TryUniqueHint(pos, v, hintFront, hintBack);
      if fits {
        front, back, inserted := Before(path), After(path), true;
        it := InsertApart(x, y, v, path);
      } else {
        it, inserted, front, back := InsertUnique(v);
      }
    }

    /** `v` may go into the hole: no key before it is greater and no key after it is less. */
    ghost predicate Fits(x: Ptr, y: Ptr, v: V, path: Path)
      reads this
    {
      && Plug(path, Leaf) == tree && path.Step? && y == path.p && y != links.header && y in vals
      && (path.side == Left <==> x != NULL || lt(keyOf(v), keyOf(vals[y])))
      && (forall p :: p in Before(path) ==> p in vals && !lt(keyOf(v), keyOf(vals[p])))
      && (forall p :: p in After(path) ==> p in vals && !lt(keyOf(vals[p]), keyOf(v)))
    }

    method EqualAtBegin(pos: Ptr, v: V) returns (ghost path: Path)
      requires Valid() && Order() != [] && pos == Order()[0] && pos in vals && lt(keyOf(v), keyOf(vals[pos]))
      ensures Fits(pos, pos, v, path) && Before(path) == [] && After(path) == Order()
    {
      path := HoleAtEnd(Left, pos);
      NotBoth(lt, keyOf(v), keyOf(vals[pos]));
      NoneLess(lt, Keys(), [], Order(), keyOf(v));
    }

    method EqualAtEnd(last: Ptr, v: V) returns (ghost path: Path)
      requires Valid() && Order() != [] && last == EndOf(Order(), Right, links.header)
      requires last in vals && !lt(keyOf(v), keyOf(vals[last]))
      ensures Fits(NULL, last, v, path) && Before(path) == Order() && After(path) == []
    {
      path := HoleAtEnd(Right, last);
      NoneGreater(lt, Keys(), Order(), [], keyOf(v));
    }

    method EqualBetween(pos: Ptr, before: Ptr, v: V, ghost front: seq<Ptr>, ghost back: seq<Ptr>)
      returns (x: Ptr, y: Ptr, ghost path: Path)
      requires Valid() && HintAt(pos, front, back) && front != [] && back != []
      requires before == front[|front| - 1] && before in vals && pos in vals
      requires !lt(keyOf(v), keyOf(vals[before])) && !lt(keyOf(vals[pos]), keyOf(v))
      ensures Fits(x, y, v, path) && Before(path) == front && After(path) == back
    {
      x, y, path := HintHole(pos, before, front, back);
      NoneLess(lt, Keys(), front, back, keyOf(v));
      NoneGreater(lt, Keys(), front, back, keyOf(v));
    }

    /**
     `v` may stand at the hint: between its neighbours' keys, or equal to one of them. At the beginning it must be less
     than the first.
     */
    ghost predicate HintFits(v: V, front: seq<Ptr>, back: seq<Ptr>)
      reads this
    {
      && (front == [] ==> back != [] && back[0] in vals && lt(keyOf(v), keyOf(vals[back[0]])))
      && (front != [] ==> var p := front[|front| - 1]; p in vals && !lt(keyOf(v), keyOf(vals[p])))
      && (front != [] && back != [] ==> back[0] in vals && !lt(keyOf(vals[back[0]]), keyOf(v)))
    }

    /** The three cases in which a hint for `insert_equal` is used. */
    method TryEqualHint(pos: Ptr, v: V, ghost hintFront: seq<Ptr>, ghost hintBack: seq<Ptr>)
      returns (fits: bool, x: Ptr, y: Ptr, ghost path: Path)
      requires Valid() && HintAt(pos, hintFront, hintBack)
      ensures fits <==> HintFits(v, hintFront, hintBack)
      ensures fits ==> Fits(x, y, v, path) && Before(path) == hintFront && After(path) == hintBack
    {
      HintEnds(tree, hintFront, hintBack, links.header);
      RootLinks(tree, links.mem, links.header);
      x, y, fits, path := NULL, NULL, false, Top;
      if pos == links.mem[links.header].left {
        if nodeCount > 0 && lt(keyOf(v), keyOf(vals[pos])) {
          path := EqualAtBegin(pos, v);
          x, y, fits := pos, pos, true;
        }
      } else if pos == links.header {
        if !lt(keyOf(v), keyOf(vals[links.mem[links.header].right])) {
          y, fits := links.mem[links.header].right, true;
          path := EqualAtEnd(y, v);
        }
      } else {
        var before := links.Decrement(pos, tree, hintFront, hintBack[1..]);
        if !lt(keyOf(v), keyOf(vals[before])) && !lt(keyOf(vals[pos]), keyOf(v)) {
          x, y, path := EqualBetween(pos, before, v, hintFront, hintBack);
          fits := true;
        }
      }
    }

    /**
     `insert_equal(iterator, value)`: one node for `v` is added, right at the hint when it may stand there and behind
     all that are not greater otherwise.
     */
    method InsertEqualHint(pos: Ptr, v: V, ghost hintFront: seq<Ptr>, ghost hintBack: seq<Ptr>)
      returns (z: Ptr, ghost front: seq<Ptr>, ghost back: seq<Ptr>)
      requires Valid() && HintAt(pos, hintFront, hintBack)
      modifies this, links
      ensures Valid() && z !in old(vals) && vals == old(vals)[z := v]
      ensures old(Order()) == front + back && Order() == front + [z] + back
      ensures old(HintFits(v, hintFront, hintBack)) ==> front == hintFront && back == hintBack
      ensures !old(HintFits(v, hintFront, hintBack)) ==>
                && (forall p :: p in front ==> p in vals && !lt(keyOf(v), keyOf(vals[p])))
                && (forall p :: p in back ==> p in vals && lt(keyOf(v), keyOf(vals[p])))
    {
      var fits, x, y;
      ghost var path;
      fits, x, y, path := TryEqualHint(pos, v, hintFront, hintBack);
      if fits {
        front, back := Before(path), After(path);
        z := InsertNode(x, y, v, path);
      } else {
        z, front, back := InsertEqual(v);
      }
    }

    /** `erase(iterator)`: exactly the node `z` goes; every other node keeps its address and value. */
    method Erase(z: Ptr) returns (ghost front: seq<Ptr>, ghost back: seq<Ptr>)
      requires Valid() && z in vals
      modifies this, links
      ensures Valid() && (old(Unique()) ==> Unique())
      ensures vals == old(vals) - {z}
      ensures old(Order()) == front + [z] + back && Order() == front + back
    {
      ghost var ks := Keys();
      front, back := Unlink(z);
      KeyMapRemove(keyOf, old(vals), z);
      OrderWithout(lt, ks, front, z, back);
    }

    /** The tests that `__rb_verify` makes at one node. */
    method VerifyNode(x: Ptr, len: nat, ghost path: Path, ghost t: Tree) returns (ok: bool)
      requires Valid() && Descent(path, t, tree, links.mem, links.header) && t.Node? && t.p == x && len == Bh(tree)
      ensures ok
    {
      NodeFacts(path, t, tree, links.mem, links.header);
      ChildOrder(lt, Keys(), path, t, tree);
      var l, r := links.mem[x].left, links.mem[x].right;
      if links.mem[x].color == Red {
        if (l != NULL && links.mem[l].color == Red) || (r != NULL && links.mem[r].color == Red) {
          return false;
        }
      }
      if l != NULL && lt(keyOf(vals[x]), keyOf(vals[l])) {
        return false;
      }
      if r != NULL && lt(keyOf(vals[r]), keyOf(vals[x])) {
        return false;
      }
      if l == NULL && r == NULL {
        var count := links.BlackCount(x, path, t);
        if count != len {
          return false;
        }
      }
      return true;
    }

    /** `__rb_verify` holds of every valid tree. */
    method Verify() returns (ok: bool)
      requires Valid()
      ensures ok
    {
      RootLinks(tree, links.mem, links.header);
      InorderNodes(tree);
      var leftmost := links.mem[links.header].left;
      if nodeCount == 0 || leftmost == links.header {
        return nodeCount == 0 && leftmost == links.header && links.mem[links.header].right == links.header;
      }
      ghost var (first, u) := Locate(Top, tree, leftmost);
      FirstHasNoLeft(first, u, tree, links.mem, links.header);
      var len := links.BlackCount(leftmost, first, u);
      ok := VerifyAll(leftmost, len);
      if !ok {
        return false;
      }
      var root := links.mem[links.header].parent;
      var lo := links.Extreme(Left, root, Top, tree);
      var hi := links.Extreme(Right, root, Top, tree);
      return leftmost == lo && links.mem[links.header].right == hi;
    }

    /** The loop of `__rb_verify`, from `begin()` to `end()`. */
    method VerifyAll(begin: Ptr, len: nat) returns (ok: bool)
      requires Valid() && begin == EndOf(Order(), Left, links.header) && len == Bh(tree)
      ensures ok
    {
      var it := begin;
      ghost var front, back := [], Order();
      while it != links.header
        invariant Order() == front + back && it == EndOf(back, Left, links.header)
        decreases |back|
      {
        ghost var path, t := VisitFacts(it, front, back, tree, links.mem, links.header);
        ok := VerifyNode(it, len, path, t);
        if !ok {
          return false;
        }
        it := links.Increment(it, tree, front, back[1..]);
        front, back := front + [back[0]], back[1..];
      }
      return true;
    }

    /** `clear`: every node goes. */
    method Clear()
      requires Valid()
      modifies this, links
      ensures Valid() && Order() == [] && vals == map[]
    {
      if nodeCount != 0 {
        RootLinks(tree, links.mem, links.header);
        links.FreeAll(tree);
        tree, vals, nodeCount := Leaf, map[], 0;
      }
    }

    /** `distance` over a stretch of the order. */
    method Distance(first: Ptr, last: Ptr, ghost front: seq<Ptr>, ghost mid: seq<Ptr>, ghost back: seq<Ptr>)
      returns (n: nat)
      requires Shaped() && Order() == front + mid + back
      requires first == EndOf(mid + back, Left, links.header) && last == EndOf(back, Left, links.header)
      ensures n == |mid|
    {
      var it := first;
      ghost var a, b := front, mid;
      n := 0;
      while it != last
        invariant Order() == a + (b + back) && it == EndOf(b + back, Left, links.header) && n + |b| == |mid|
        decreases |b|
      {
        RangeStep(tree, a, b, back, it, last, links.header);
        it := links.Increment(it, tree, a, b[1..] + back);
        a, b := a + [b[0]], b[1..];
        n := n + 1;
      }
      RangeEnd(tree, a, b, back, links.header);
    }

    /** `erase(iterator, iterator)`: exactly the nodes of the range go. */
    method EraseRange(first: Ptr, last: Ptr, ghost front: seq<Ptr>, ghost mid: seq<Ptr>, ghost back: seq<Ptr>)
      requires Valid() && Order() == front + mid + back
      requires first == EndOf(mid + back, Left, links.header) && last == EndOf(back, Left, links.header)
      modifies this, links
      ensures Valid() && Order() == front + back && (old(Unique()) ==> Unique())
      ensures vals == Without(old(vals), mid)
    {
      if first == links.mem[links.header].left && last == links.header {
        WholeRange(tree, front, mid, back, links.header);
        InorderNodes(tree);
        EraseAll(mid);
      } else {
        Regroup(front, mid, back);
        EraseEach(first, last, front, mid, back);
      }
    }

    /** The range is the whole tree. */
    method EraseAll(ghost mid: seq<Ptr>)
      requires Valid() && forall p :: p in vals ==> p in mid
      modifies this, links
      ensures Valid() && Order() == [] && Unique() && vals == Without(old(vals), mid)
    {
      NoneLeft(vals, mid);
      Clear();
    }

    /** The loop of `erase(iterator, iterator)`. */
    method EraseEach(first: Ptr, last: Ptr, ghost front: seq<Ptr>, ghost mid: seq<Ptr>, ghost back: seq<Ptr>)
      requires Valid() && Order() == front + (mid + back)
      requires first == EndOf(mid + back, Left, links.header) && last == EndOf(back, Left, links.header)
      modifies this, links
      ensures Valid() && Order() == front + back && (old(Unique()) ==> Unique())
      ensures vals == Without(old(vals), mid)
    {
      var it := first;
      ghost var b, gone := mid, [];
      while it != last
        invariant Valid() && (old(Unique()) ==> Unique())
        invariant Order() == front + (b + back) && it == EndOf(b + back, Left, links.header)
        invariant mid == gone + b && vals == Without(old(vals), gone)
        decreases |b|
      {
        RangeStep(tree, front, b, back, it, last, links.header);
        Dropped(old(vals), gone, b);
        gone, b := gone + [it], b[1..];
        it := EraseNext(it, front, b + back);
      }
      RangeEnd(tree, front, b, back, links.header);
      assert mid == gone;
    }

    /** `erase(it++)`. */
    method EraseNext(it: Ptr, ghost front: seq<Ptr>, ghost rest: seq<Ptr>) returns (next: Ptr)
      requires Valid() && Order() == front + [it] + rest
      modifies this, links
      ensures Valid() && (old(Unique()) ==> Unique())
      ensures vals == old(vals) - {it} && Order() == front + rest && next == EndOf(rest, Left, links.header)
    {
      next := links.Increment(it, tree, front, rest);
      ghost var f, g := EraseFrom(it, front, rest);
    }

    /** `erase(iterator)` of a node whose surroundings are known. */
    method EraseFrom(z: Ptr, ghost front: seq<Ptr>, ghost back: seq<Ptr>) returns (ghost f: seq<Ptr>, ghost g: seq<Ptr>)
      requires Valid() && Order() == front + [z] + back
      modifies this, links
      ensures Valid() && (old(Unique()) ==> Unique())
      ensures vals == old(vals) - {z} && Order() == front + back
    {
      InorderNodes(tree);
      InorderNoRepeats(tree);
      assert Order()[|front|] == z;
      ghost var q := Order();
      f, g := Erase(z);
      SplitUnique(q, f, front, z, g, back);
    }

    /** `erase(key)`: exactly the nodes with an equivalent key go, and the result is their number. */
    method EraseKey(k: K) returns (n: nat, ghost front: seq<Ptr>, ghost mid: seq<Ptr>, ghost back: seq<Ptr>)
      requires Valid()
      modifies this, links
      ensures Valid() && (old(Unique()) ==> Unique())
      ensures old(Order()) == front + mid + back && Order() == front + back && n == |mid|
      ensures vals == Without(old(vals), mid)
      ensures forall p :: p in mid ==> p in old(vals) && !lt(keyOf(old(vals)[p]), k) && !lt(k, keyOf(old(vals)[p]))
      ensures forall p :: p in vals ==> lt(keyOf(vals[p]), k) || lt(k, keyOf(vals[p]))
    {
      var first, last;
      first, last, front, mid, back := EqualRange(k);
      n := Distance(first, last, front, mid, back);
      EraseRange(first, last, front, mid, back);
      InorderNodes(tree);
    }

    /** `equal_range`: the stretch of nodes with a key equivalent to `k`. */
    method EqualRange(k: K) returns (first: Ptr, last: Ptr, ghost front: seq<Ptr>, ghost mid: seq<Ptr>,
                                     ghost back: seq<Ptr>)
      requires Valid()
      ensures Order() == front + mid + back
      ensures first == EndOf(mid + back, Left, links.header) && last == EndOf(back, Left, links.header)
      ensures forall p :: p in front ==> p in vals && lt(keyOf(vals[p]), k)
      ensures forall p :: p in mid ==> p in vals && !lt(keyOf(vals[p]), k) && !lt(k, keyOf(vals[p]))
      ensures forall p :: p in back ==> p in vals && lt(k, keyOf(vals[p]))
    {
      ghost var f, b;
      first, f, b := LowerBound(k);
      last, front, back := UpperBound(k);
      mid := BetweenBounds(lt, Keys(), f, b, front, back, k);
      front := f;
    }

    method Unlink(z: Ptr) returns (ghost front: seq<Ptr>, ghost back: seq<Ptr>)
      requires Shaped() && z in vals
      modifies this, links
      ensures Shaped() && vals == old(vals) - {z} && z !in front && z !in back
      ensures old(Order()) == front + [z] + back && Order() == front + back
    {
      var y;
      ghost var t;
      y, t, front, back := links.RebalanceForErase(z, tree);
      SameNodesBut(tree, t, front, z, back);
      DropNode(y, t, front, back);
    }

    /** The unlinked node is given back. */
    method DropNode(z: Ptr, ghost t: Tree, ghost front: seq<Ptr>, ghost back: seq<Ptr>)
      requires Focus(links.mem, Top, t, links.header) && RedBlack(t) && Ends(links.mem, front + back, links.header)
      requires Inorder(t) == front + back && nodeCount == |front + back| + 1 && z in vals && z != links.header
      requires vals.Keys - {z} == Nodes(t) && links.mem.Keys == vals.Keys + {links.header} && z !in Nodes(t)
      modifies this, links
      ensures Shaped() && vals == old(vals) - {z} && Order() == front + back
    {
      links.Free(z, t);
      tree, vals, nodeCount := t, vals - {z}, nodeCount - 1;
    }
  }

  lemma NotBoth<K(!new)>(lt: (K, K) -> bool, a: K, b: K)
    requires StrictWeakOrder(lt) && lt(a, b)
    ensures !lt(b, a)
  {
  }

  lemma NoneLess<K(!new)>(lt: (K, K) -> bool, ks: map<Ptr, K>, front: seq<Ptr>, back: seq<Ptr>, k: K)
    requires StrictWeakOrder(lt) && Covers(ks, front + back) && Ascending(lt, ks, front + back)
    requires back != [] && back[0] in ks && !lt(ks[back[0]], k)
    ensures forall p :: p in back ==> p in ks && !lt(ks[p], k)
  {
    var q := front + back;
    assert q[|front|] == back[0];
    forall p | p in back ensures p in ks && !lt(ks[p], k) {
      var i :| 0 <= i < |back| && back[i] == p;
      assert q[|front| + i] == p && p in q;
    }
  }

  lemma NoneGreater<K(!new)>(lt: (K, K) -> bool, ks: map<Ptr, K>, front: seq<Ptr>, back: seq<Ptr>, k: K)
    requires StrictWeakOrder(lt) && Covers(ks, front + back) && Ascending(lt, ks, front + back)
    requires front != [] && front[|front| - 1] in ks && !lt(k, ks[front[|front| - 1]])
    ensures forall p :: p in front ==> p in ks && !lt(k, ks[p])
  {
    var q := front + back;
    assert q[|front| - 1] == front[|front| - 1];
    forall p | p in front ensures p in ks && !lt(k, ks[p]) {
      var i :| 0 <= i < |front| && front[i] == p;
      assert q[i] == p && p in q;
    }
  }

  lemma Neighbouring(front: seq<Ptr>, back: seq<Ptr>)
    requires front != [] && back != []
    ensures var a, b, p, q := front[..|front| - 1], back[1..], front[|front| - 1], back[0];
            && front + back == a + [p] + [q] + b && front + back == a + [p] + back && front + back == front + [q] + b
            && a + [p] == front && [q] + b == back
  {
  }

  /** What the hint tests of the hinted insertions mean. */
  lemma HintEnds(tree: Tree, front: seq<Ptr>, back: seq<Ptr>, header: Ptr)
    requires Inorder(tree) == front + back && Wf(tree) && header !in Nodes(tree)
    ensures forall p :: p in front || p in back ==> p in Nodes(tree)
    ensures forall p :: p in Inorder(tree) ==> p in Nodes(tree)
    ensures EndOf(back, Left, header) == EndOf(Inorder(tree), Left, header) <==> front == []
    ensures EndOf(back, Left, header) == header <==> back == []
    ensures front != [] && back != [] ==> front + back == front + [back[0]] + back[1..]
  {
    InorderNodes(tree);
    InorderNoRepeats(tree);
    assert forall p :: p in front + back <==> p in front || p in back;
    HeadSplit(front, back);
    if front != [] && back != [] {
      assert Inorder(tree)[0] == front[0] && Inorder(tree)[|front|] == back[0];
    } else if front != [] {
      assert front[0] in front && Inorder(tree)[0] == front[0];
    } else {
      assert front + back == back;
    }
    assert back != [] ==> back[0] in back;
  }

  lemma HeadSplit(front: seq<Ptr>, back: seq<Ptr>)
    ensures back != [] ==> front + back == front + [back[0]] + back[1..]
    ensures front == [] ==> front + back == back
  {
  }

  lemma NodeFacts(path: Path, t: Tree, tree: Tree, m: Memory, header: Ptr)
    requires Descent(path, t, tree, m, header) && t.Node? && RedBlack(tree)
    ensures t.p in m && t.p in Nodes(tree) && m[t.p].color == t.color
    ensures m[t.p].left == Ref(t.left) && m[t.p].right == Ref(t.right)
    ensures t.left.Node? ==> t.left.p in m && t.left.p in Nodes(tree) && m[t.left.p].color == t.left.color
    ensures t.right.Node? ==> t.right.p in m && t.right.p in Nodes(tree) && m[t.right.p].color == t.right.color
    ensures t.color == Red ==> !IsRed(t.left) && !IsRed(t.right)
    ensures t.left.Leaf? ==> Bh(tree) == PathBlacks(path) + if t.color == Black then 1 else 0
    ensures Ref(t.left) == NULL <==> t.left.Leaf?
    ensures Ref(t.right) == NULL <==> t.right.Leaf?
  {
    PlugNodes(path, t);
    PlugNoRedRed(path, t);
    BlacksAbove(path, t);
    RootInStore(m, t.left, t.p);
    RootInStore(m, t.right, t.p);
  }

  lemma FirstHasNoLeft(path: Path, t: Tree, tree: Tree, m: Memory, header: Ptr)
    requires Plug(path, t) == tree && t.Node? && Focus(m, Top, tree, header) && RedBlack(tree) && Inorder(tree) != []
    requires t.p == Inorder(tree)[0]
    ensures Focus(m, path, t, header) && Bh(tree) == PathBlacks(path) + if t.color == Black then 1 else 0
  {
    FocusPlug(m, path, t, header);
    var q := Inorder(tree);
    assert q == [] + [t.p] + q[1..];
    assert t.left.Node? ==> |Inorder(t.left)| > 0;
    SplitAt(path, t, [], q[1..], header);
    NodeFacts(path, t, tree, m, header);
  }

  /** Children are on the right side of their parent in key order. */
  lemma ChildOrder<K(!new)>(lt: (K, K) -> bool, ks: map<Ptr, K>, path: Path, t: Tree, tree: Tree)
    requires Plug(path, t) == tree && t.Node? && Covers(ks, Inorder(tree)) && Ascending(lt, ks, Inorder(tree))
    requires ks.Keys == Nodes(tree)
    ensures t.p in ks
    ensures t.left.Node? ==> t.left.p in ks && !lt(ks[t.p], ks[t.left.p])
    ensures t.right.Node? ==> t.right.p in ks && !lt(ks[t.right.p], ks[t.p])
  {
    PlugInorder(path, t);
    PlugNodes(path, t);
    RegroupOuter(Before(path), Inorder(t.left), [t.p], Inorder(t.right), After(path));
    InorderNodes(t.left);
    InorderNodes(t.right);
    var front, back := Before(path) + Inorder(t.left), Inorder(t.right) + After(path);
    if t.left.Node? {
      assert t.left.p in front;
      SidesOrder(lt, ks, front, t.p, back, t.left.p);
    }
    if t.right.Node? {
      assert t.right.p in back;
      SidesOrder(lt, ks, front, t.p, back, t.right.p);
    }
  }

  /** The iterator at the first node of `back` is a node of the tree. */
  lemma VisitFacts(it: Ptr, front: seq<Ptr>, back: seq<Ptr>, tree: Tree, m: Memory, header: Ptr)
    returns (path: Path, t: Tree)
    requires Focus(m, Top, tree, header) && Inorder(tree) == front + back
    requires it == EndOf(back, Left, header) && it != header
    ensures back != [] && it == back[0] && Inorder(tree) == front + [it] + back[1..]
            && front + back == front + [it] + back[1..]
    ensures Descent(path, t, tree, m, header) && t.Node? && t.p == it
  {
    assert front + back == front + [it] + back[1..];
    InorderNodes(tree);
    assert Inorder(tree)[|front|] == it;
    var r := Locate(Top, tree, it);
    path, t := r.0, r.1;
    FocusPlug(m, path, t, header);
  }

  /** An iterator that has not reached the end of a range is at its first node. */
  lemma RangeStep(tree: Tree, a: seq<Ptr>, b: seq<Ptr>, back: seq<Ptr>, it: Ptr, last: Ptr, header: Ptr)
    requires Inorder(tree) == a + (b + back) && it == EndOf(b + back, Left, header)
    requires last == EndOf(back, Left, header) && it != last
    ensures b != [] && it == b[0] && Inorder(tree) == a + [it] + (b[1..] + back)
    ensures a + [it] + (b[1..] + back) == (a + [b[0]]) + (b[1..] + back)
  {
    assert b == [] ==> b + back == back;
    assert a + (b + back) == a + [b[0]] + (b[1..] + back);
  }

  lemma RangeEnd(tree: Tree, a: seq<Ptr>, b: seq<Ptr>, back: seq<Ptr>, header: Ptr)
    requires Inorder(tree) == a + (b + back) && Wf(tree) && header !in Nodes(tree)
    requires EndOf(b + back, Left, header) == EndOf(back, Left, header)
    ensures b == [] && Inorder(tree) == a + back
  {
    InorderNodes(tree);
    InorderNoRepeats(tree);
    var q := Inorder(tree);
    Heads(a, b, back);
  }

  lemma Heads(a: seq<Ptr>, b: seq<Ptr>, c: seq<Ptr>)
    ensures b == [] ==> b + c == c
    ensures var q := a + (b + c);
            && (b != [] ==> q[|a|] == b[0] && b[0] in q && (b + c)[0] == b[0])
            && (b != [] && c != [] ==> q[|a| + |b|] == c[0])
  {
  }

  /** Two ways to cut a sequence: the longer front and the longer back have a node in common. */
  lemma Overlap(f: seq<Ptr>, b: seq<Ptr>, front: seq<Ptr>, back: seq<Ptr>)
    requires f + b == front + back
    ensures |front| < |f| ==> back != [] && back[0] in f && back[0] in back
  {
    if |front| < |f| {
      assert (f + b)[|front|] == f[|front|] && (front + back)[|front|] == back[0];
    }
  }

  lemma WholeRange(tree: Tree, front: seq<Ptr>, mid: seq<Ptr>, back: seq<Ptr>, header: Ptr)
    requires Inorder(tree) == front + mid + back && Wf(tree) && header !in Nodes(tree)
    requires EndOf(mid + back, Left, header) == EndOf(Inorder(tree), Left, header)
             && EndOf(back, Left, header) == header
    ensures front == [] && back == [] && mid == Inorder(tree)
  {
    assert front + mid + back == front + (mid + back);
    HintEnds(tree, front, mid + back, header);
    HintEnds(tree, front + mid, back, header);
  }

  lemma NoneLeft<V>(vals: map<Ptr, V>, gone: seq<Ptr>)
    requires forall p :: p in vals ==> p in gone
    ensures Without(vals, gone) == map[]
  {
  }

  lemma Dropped<V>(vals: map<Ptr, V>, gone: seq<Ptr>, b: seq<Ptr>)
    requires b != []
    ensures Without(vals, gone + [b[0]]) == Without(vals, gone) - {b[0]} && gone + b == (gone + [b[0]]) + b[1..]
  {
  }

  /** The lower bound is not after the upper bound. */
  lemma BetweenBounds<K(!new)>(lt: (K, K) -> bool, ks: map<Ptr, K>, f: seq<Ptr>, b: seq<Ptr>,
                               front: seq<Ptr>, back: seq<Ptr>, k: K) returns (mid: seq<Ptr>)
    requires StrictWeakOrder(lt) && f + b == front + back && Covers(ks, f + b)
    requires forall p :: p in f ==> p in ks && lt(ks[p], k)
    requires forall p :: p in b ==> p in ks && !lt(ks[p], k)
    requires forall p :: p in front ==> p in ks && !lt(k, ks[p])
    requires forall p :: p in back ==> p in ks && lt(k, ks[p])
    ensures f + mid + back == f + b && mid + back == b
    ensures forall p :: p in mid ==> p in ks && !lt(ks[p], k) && !lt(k, ks[p])
  {
    var q := f + b;
    Overlap(f, b, front, back);
    mid := front[|f|..];
    assert front == q[..|front|] && f == q[..|f|];
    assert front == f + mid;
    assert f + (mid + back) == f + b;
    assert mid + back == (f + (mid + back))[|f|..];
    forall p | p in mid ensures p in ks && !lt(ks[p], k) && !lt(k, ks[p]) {
      assert p in front && p in mid + back;
    }
  }

  lemma SidesOrder<K(!new)>(lt: (K, K) -> bool, ks: map<Ptr, K>, front: seq<Ptr>, p: Ptr, back: seq<Ptr>, e: Ptr)
    requires Covers(ks, front + [p] + back) && Ascending(lt, ks, front + [p] + back)
    requires e in front || e in back
    ensures p in ks && e in ks && (e in front ==> !lt(ks[p], ks[e])) && (e in back ==> !lt(ks[e], ks[p]))
  {
    var q := front + [p] + back;
    assert q[|front|] == p && p in q;
    if e in front {
      var i :| 0 <= i < |front| && front[i] == e;
      assert q[i] == e && e in q;
    }
    if e in back {
      var i :| 0 <= i < |back| && back[i] == e;
      assert q[|front| + 1 + i] == e && e in q;
    }
  }

  lemma SameNodesBut(t: Tree, u: Tree, front: seq<Ptr>, z: Ptr, back: seq<Ptr>)
    requires Inorder(t) == front + [z] + back && Inorder(u) == front + back && z !in Nodes(u)
    ensures Nodes(u) == Nodes(t) - {z} && z !in front && z !in back
  {
    InorderNodes(t);
    InorderNodes(u);
    forall p ensures p in Nodes(u) <==> p in Nodes(t) && p != z {
      assert p in front + back <==> p in front || p in back;
      assert p in front + [z] + back <==> p in front || p == z || p in back;
    }
    assert z !in front + back;
  }

  lemma Asymmetric<K(!new)>(lt: (K, K) -> bool, ks: map<Ptr, K>, a: seq<Ptr>, b: seq<Ptr>, k: K)
    requires StrictWeakOrder(lt) && Covers(ks, a) && Covers(ks, b)
    requires forall p :: p in a ==> lt(ks[p], k)
    requires forall p :: p in b ==> lt(k, ks[p])
    ensures forall p :: p in a ==> !lt(k, ks[p])
    ensures forall p :: p in b ==> !lt(ks[p], k)
  {
  }

  lemma AllLess<K(!new)>(lt: (K, K) -> bool, ks: map<Ptr, K>, front: seq<Ptr>, back: seq<Ptr>, k: K)
    requires StrictWeakOrder(lt) && Covers(ks, front + back) && Ascending(lt, ks, front + back)
    requires front != [] && front[|front| - 1] in ks && lt(ks[front[|front| - 1]], k)
    ensures forall p :: p in front ==> p in ks && lt(ks[p], k)
  {
    var q := front + back;
    assert q[|front| - 1] == front[|front| - 1];
    forall p | p in front ensures p in ks && lt(ks[p], k) {
      var i :| 0 <= i < |front| && front[i] == p;
      assert q[i] == p && p in q;
    }
  }

  /** When the first node not less than `k` is greater, no node is equivalent to `k`. */
  lemma FirstIsGreater<K(!new)>(lt: (K, K) -> bool, ks: map<Ptr, K>, front: seq<Ptr>, back: seq<Ptr>, k: K)
    requires StrictWeakOrder(lt) && Covers(ks, front + back) && Ascending(lt, ks, front + back)
    requires back != [] && back[0] in ks && lt(k, ks[back[0]])
    ensures forall p :: p in back ==> p in ks && lt(k, ks[p])
  {
    var q := front + back;
    assert q[|front|] == back[0];
    forall p | p in back ensures p in ks && lt(k, ks[p]) {
      var i :| 0 <= i < |back| && back[i] == p;
      assert q[|front| + i] == p && p in q;
    }
  }

  /** A search has reached `t`, on the way down from the root of `tree`. */
  predicate Descent(path: Path, t: Tree, tree: Tree, m: Memory, header: Ptr) {
    Plug(path, t) == tree && Focus(m, path, t, header)
  }

  lemma RootLinks(tree: Tree, m: Memory, header: Ptr)
    requires Focus(m, Top, tree, header)
    ensures header in m && m[header].parent == Ref(tree)
  {
  }

  lemma DescentNode(path: Path, t: Tree, tree: Tree, m: Memory, header: Ptr)
    requires Descent(path, t, tree, m, header) && Ref(t) != NULL
    ensures t.Node? && t.p in m && t.p in Nodes(tree) && t.p != header
    ensures m[t.p].left == Ref(t.left) && m[t.p].right == Ref(t.right)
    ensures Descent(Step(path, Left, t.p, t.color, t.right), t.left, tree, m, header)
    ensures Descent(Step(path, Right, t.p, t.color, t.left), t.right, tree, m, header)
  {
    PlugNodes(path, t);
    FocusUp(m, Step(path, Left, t.p, t.color, t.right), t.left, header);
    FocusUp(m, Step(path, Right, t.p, t.color, t.left), t.right, header);
  }

  lemma DescentEnd(path: Path, t: Tree, tree: Tree, m: Memory, header: Ptr)
    requires Descent(path, t, tree, m, header) && Ref(t) == NULL
    ensures t.Leaf? && Inorder(tree) == Before(path) + After(path)
    ensures forall p :: p in Before(path) || p in After(path) ==> p in Nodes(tree)
    ensures path.Step? ==> path.p in Nodes(tree) && path.p != header
  {
    FocusPlug(m, path, t, header);
    InsertFacts(path, tree, m, header);
  }

  /** The owner of an empty hole is its neighbour. */
  lemma HoleOwner(path: Path)
    requires path.Step?
    ensures path.side == Left ==> After(path) != [] && After(path)[0] == path.p && path.p in After(path)
    ensures path.side == Right ==>
              Before(path) != [] && Before(path)[|Before(path)| - 1] == path.p && path.p in Before(path)
  {
  }

  lemma InsertFacts(path: Path, tree: Tree, m: Memory, header: Ptr)
    requires Plug(path, Leaf) == tree && Focus(m, Top, tree, header)
    ensures Focus(m, path, Leaf, header) && PathNodes(path) == Nodes(tree)
    ensures Inorder(tree) == Before(path) + After(path)
    ensures forall p :: p in Before(path) || p in After(path) ==> p in Nodes(tree)
  {
    FocusPlug(m, path, Leaf, header);
    PlugNodes(path, Leaf);
    PlugInorder(path, Leaf);
    AroundNodes(path);
  }
}
