/** Keys along an in-order sequence, and the binary searches of headers/cpp/stl_tree.h. */
module RbOrder {
  import opened Order
  import opened RbShape
  import opened RbBalance
  import opened RbEnds

  ghost predicate Covers<K>(ks: map<Ptr, K>, q: seq<Ptr>) {
    forall p :: p in q ==> p in ks
  }

  /** No key is less than an earlier one. */
  ghost predicate Ascending<K(!new)>(lt: (K, K) -> bool, ks: map<Ptr, K>, q: seq<Ptr>)
    requires Covers(ks, q)
  {
    forall i, j :: 0 <= i < j < |q| ==> !lt(ks[q[j]], ks[q[i]])
  }

  /** Every key is less than the later ones. */
  ghost predicate Distinct<K(!new)>(lt: (K, K) -> bool, ks: map<Ptr, K>, q: seq<Ptr>)
    requires Covers(ks, q)
  {
    forall i, j :: 0 <= i < j < |q| ==> lt(ks[q[i]], ks[q[j]])
  }

  /** The nodes whose key is not less than `k`, and those whose key is greater. */
  ghost function NotLess<K>(lt: (K, K) -> bool, ks: map<Ptr, K>, k: K): set<Ptr> {
    set p | p in ks && !lt(ks[p], k)
  }

  ghost function Greater<K>(lt: (K, K) -> bool, ks: map<Ptr, K>, k: K): set<Ptr> {
    set p | p in ks && lt(k, ks[p])
  }

  ghost predicate Upward(q: seq<Ptr>, high: set<Ptr>) {
    forall i, j :: 0 <= i < j < |q| && q[i] in high ==> q[j] in high
  }

  lemma SearchSetsUpward<K(!new)>(lt: (K, K) -> bool, ks: map<Ptr, K>, q: seq<Ptr>, k: K)
    requires StrictWeakOrder(lt) && Covers(ks, q) && Ascending(lt, ks, q)
    ensures Upward(q, NotLess(lt, ks, k)) && Upward(q, Greater(lt, ks, k))
  {
    var s, t := NotLess(lt, ks, k), Greater(lt, ks, k);
    forall i, j | 0 <= i < j < |q| && q[i] in s ensures q[j] in s {
      assert q[j] in q && q[i] in q;
      assert !lt(ks[q[j]], ks[q[i]]) && !lt(ks[q[i]], k);
    }
    forall i, j | 0 <= i < j < |q| && q[i] in t ensures q[j] in t {
      assert q[j] in q && q[i] in q;
      assert !lt(ks[q[j]], ks[q[i]]) && lt(k, ks[q[i]]);
    }
  }

  /** Everything before the hole is low and everything after it is high. */
  ghost predicate Parted(path: Path, high: set<Ptr>) {
    && (forall p :: p in Before(path) ==> p !in high)
    && (forall p :: p in After(path) ==> p in high)
  }

  /** One step down of a search. */
  lemma SearchStep(path: Path, t: Tree, high: set<Ptr>)
    requires t.Node? && Upward(Inorder(Plug(path, t)), high) && Parted(path, high)
    ensures t.p in high ==> Parted(Step(path, Left, t.p, t.color, t.right), high)
    ensures t.p !in high ==> Parted(Step(path, Right, t.p, t.color, t.left), high)
  {
    PlugInorder(path, t);
    RegroupOuter(Before(path), Inorder(t.left), [t.p], Inorder(t.right), After(path));
    var front, back := Before(path) + Inorder(t.left), Inorder(t.right) + After(path);
    UpwardSplit(front, t.p, back, high);
  }

  lemma UpwardSplit(front: seq<Ptr>, p: Ptr, back: seq<Ptr>, high: set<Ptr>)
    requires Upward(front + [p] + back, high)
    ensures p in high ==> forall x :: x in back ==> x in high
    ensures p !in high ==> forall x :: x in front ==> x !in high
  {
    var q := front + [p] + back;
    assert q[|front|] == p;
    forall x | x in back && p in high ensures x in high {
      var i :| 0 <= i < |back| && back[i] == x;
      assert q[|front| + 1 + i] == x;
    }
    forall x | x in front && p !in high ensures x !in high {
      var i :| 0 <= i < |front| && front[i] == x;
      assert q[i] == x;
    }
  }

  /** A new node keeps the keys ascending when nothing before it is greater and nothing after it is less. */
  lemma AscendingInsert<K(!new)>(lt: (K, K) -> bool, ks: map<Ptr, K>, a: seq<Ptr>, z: Ptr, k: K, b: seq<Ptr>)
    requires Covers(ks, a + b) && Ascending(lt, ks, a + b) && z !in a && z !in b
    requires forall p :: p in a ==> p in ks && !lt(k, ks[p])
    requires forall p :: p in b ==> p in ks && !lt(ks[p], k)
    ensures Covers(ks[z := k], a + [z] + b) && Ascending(lt, ks[z := k], a + [z] + b)
  {
    var q, q', ks' := a + b, a + [z] + b, ks[z := k];
    forall i, j | 0 <= i < j < |q'| ensures !lt(ks'[q'[j]], ks'[q'[i]]) {
      if i == |a| {
        assert q'[j] == b[j - |a| - 1] && q'[j] in b;
      } else if j == |a| {
        assert q'[i] == a[i] && q'[i] in a;
      } else {
        var i', j' := if i < |a| then i else i - 1, if j < |a| then j else j - 1;
        assert q'[i] == q[i'] && q'[j] == q[j'];
        assert q[i'] in q && q[j'] in q;
        assert z !in q;
      }
    }
  }

  lemma DistinctInsert<K(!new)>(lt: (K, K) -> bool, ks: map<Ptr, K>, a: seq<Ptr>, z: Ptr, k: K, b: seq<Ptr>)
    requires Covers(ks, a + b) && Distinct(lt, ks, a + b) && z !in a && z !in b
    requires forall p :: p in a ==> p in ks && lt(ks[p], k)
    requires forall p :: p in b ==> p in ks && lt(k, ks[p])
    ensures Covers(ks[z := k], a + [z] + b) && Distinct(lt, ks[z := k], a + [z] + b)
  {
    var q, q', ks' := a + b, a + [z] + b, ks[z := k];
    forall i, j | 0 <= i < j < |q'| ensures lt(ks'[q'[i]], ks'[q'[j]]) {
      if i == |a| {
        assert q'[j] == b[j - |a| - 1] && q'[j] in b;
      } else if j == |a| {
        assert q'[i] == a[i] && q'[i] in a;
      } else {
        var i', j' := if i < |a| then i else i - 1, if j < |a| then j else j - 1;
        assert q'[i] == q[i'] && q'[j] == q[j'];
        assert q[i'] in q && q[j'] in q;
        assert z !in q;
      }
    }
  }

  /** Dropping a node keeps the keys ascending, and distinct. */
  lemma OrderWithout<K(!new)>(lt: (K, K) -> bool, ks: map<Ptr, K>, a: seq<Ptr>, z: Ptr, b: seq<Ptr>)
    requires Covers(ks, a + [z] + b) && z !in a && z !in b
    ensures Covers(ks - {z}, a + b)
    ensures Ascending(lt, ks, a + [z] + b) ==> Ascending(lt, ks - {z}, a + b)
    ensures Distinct(lt, ks, a + [z] + b) ==> Distinct(lt, ks - {z}, a + b)
  {
    var q, q' := a + [z] + b, a + b;
    assert forall p :: p in q' ==> p in q && p != z;
    assert forall i :: 0 <= i < |q'| ==> q'[i] == q[if i < |a| then i else i + 1];
  }
}
