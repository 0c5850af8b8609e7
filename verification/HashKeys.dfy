/** Chains in which equal keys are neighbours (headers/cpp/stl_hashtable.h:718-737, 764-782). */
module HashKeys {

  predicate Symmetric<K>(eq: (K, K) -> bool, a: K, b: K) {
    eq(a, b) ==> eq(b, a)
  }

  predicate Transitive<K>(eq: (K, K) -> bool, a: K, b: K, c: K) {
    eq(a, b) && eq(b, c) ==> eq(a, c)
  }

  predicate Agrees<K>(eq: (K, K) -> bool, hash: K -> nat, a: K, b: K) {
    eq(a, b) ==> hash(a) == hash(b)
  }

  /** What the table asks of its key comparison and hash function. */
  ghost predicate Hashing<K(!new)>(eq: (K, K) -> bool, hash: K -> nat) {
    && (forall a :: eq(a, a))
    && (forall a, b :: Symmetric(eq, a, b))
    && (forall a, b, c :: Transitive(eq, a, b, c))
    && (forall a, b :: Agrees(eq, hash, a, b))
  }

  /** The same, in full. */
  lemma Laws<K(!new)>(eq: (K, K) -> bool, hash: K -> nat)
    requires Hashing(eq, hash)
    ensures forall a :: eq(a, a)
    ensures forall a, b :: eq(a, b) ==> eq(b, a)
    ensures forall a, b, c :: eq(a, b) && eq(b, c) ==> eq(a, c)
    ensures forall a, b :: eq(a, b) ==> hash(a) == hash(b)
  {
    forall a, b | eq(a, b) ensures eq(b, a) && hash(a) == hash(b) {
      assert Symmetric(eq, a, b) && Agrees(eq, hash, a, b);
    }
    forall a, b, c | eq(a, b) && eq(b, c) ensures eq(a, c) {
      assert Transitive(eq, a, b, c);
    }
  }

  /** Node `x` holds a key equal to `k`. */
  predicate Has<K>(eq: (K, K) -> bool, keys: map<nat, K>, x: nat, k: K) {
    x in keys && eq(keys[x], k)
  }

  predicate Same<K>(eq: (K, K) -> bool, keys: map<nat, K>, x: nat, y: nat) {
    y in keys && Has(eq, keys, x, keys[y])
  }

  /** If anything in `c` has the key of `x`, then its first node has. */
  ghost predicate Leads<K>(eq: (K, K) -> bool, keys: map<nat, K>, x: nat, c: seq<nat>) {
    forall y :: y in c && Same(eq, keys, x, y) ==> Same(eq, keys, x, c[0])
  }

  /** Nodes with equal keys are neighbours. */
  ghost predicate Grouped<K>(eq: (K, K) -> bool, keys: map<nat, K>, c: seq<nat>) {
    c == [] || (c[0] in keys && Leads(eq, keys, c[0], c[1..]) && Grouped(eq, keys, c[1..]))
  }

  ghost predicate None<K>(eq: (K, K) -> bool, keys: map<nat, K>, c: seq<nat>, k: K) {
    forall y :: y in c ==> !Has(eq, keys, y, k)
  }

  ghost predicate All<K>(eq: (K, K) -> bool, keys: map<nat, K>, c: seq<nat>, k: K) {
    forall y :: y in c ==> Has(eq, keys, y, k)
  }

  lemma {:induction false} GroupedHolds<K>(eq: (K, K) -> bool, keys: map<nat, K>, c: seq<nat>)
    requires Grouped(eq, keys, c)
    ensures forall x :: x in c ==> x in keys
    decreases |c|
  {
    if c != [] {
      GroupedHolds(eq, keys, c[1..]);
    }
  }

  /** Behind a group there is no more of it. */
  lemma GroupEnds<K(!new)>(eq: (K, K) -> bool, hash: K -> nat, keys: map<nat, K>, x: nat, c: seq<nat>, k: K)
    requires Hashing(eq, hash) && x in keys && Leads(eq, keys, x, c) && Has(eq, keys, x, k) && c != []
             && !Has(eq, keys, c[0], k)
    ensures None(eq, keys, c, k)
  {
    Laws(eq, hash);
    forall y | y in c ensures !Has(eq, keys, y, k) {
      if Has(eq, keys, y, k) {
        assert Same(eq, keys, x, y);
      }
    }
  }

  lemma {:induction false} GroupedTail<K>(eq: (K, K) -> bool, keys: map<nat, K>, u: seq<nat>, c: seq<nat>)
    requires Grouped(eq, keys, u + c)
    ensures Grouped(eq, keys, c)
    decreases |u|
  {
    if u == [] {
      assert u + c == c;
    } else {
      assert (u + c)[1..] == u[1..] + c;
      GroupedTail(eq, keys, u[1..], c);
    }
  }

  /** A new node next to one of the same key. */
  lemma {:induction false} GroupedInsert<K(!new)>(eq: (K, K) -> bool, hash: K -> nat, keys: map<nat, K>, u: seq<nat>,
                                                  x: nat, w: seq<nat>, n: nat)
    requires Hashing(eq, hash) && Grouped(eq, keys, u + [x] + w) && Same(eq, keys, n, x)
    ensures Grouped(eq, keys, u + [x] + ([n] + w))
    decreases |u|
  {
    Laws(eq, hash);
    if u == [] {
      assert u + [x] + w == [x] + w && u + [x] + ([n] + w) == [x] + ([n] + w);
      assert ([x] + w)[1..] == w && ([x] + ([n] + w))[1..] == [n] + w && ([n] + w)[1..] == w;
      assert Leads(eq, keys, n, w);
      assert Leads(eq, keys, x, [n] + w);
    } else {
      var p, q := u[1..] + [x] + w, u[1..] + [x] + ([n] + w);
      assert (u + [x] + w)[1..] == p && (u + [x] + ([n] + w))[1..] == q;
      GroupedInsert(eq, hash, keys, u[1..], x, w, n);
      assert p[0] == q[0] && x in p;
      assert Leads(eq, keys, u[0], q);
    }
  }

  lemma GroupedPush<K>(eq: (K, K) -> bool, keys: map<nat, K>, c: seq<nat>, n: nat)
    requires n in keys && Grouped(eq, keys, c) && Leads(eq, keys, n, c)
    ensures Grouped(eq, keys, [n] + c)
  {
    assert ([n] + c)[1..] == c;
  }

  /** One node taken out. */
  lemma {:induction false} GroupedWithout<K(!new)>(eq: (K, K) -> bool, hash: K -> nat, keys: map<nat, K>, u: seq<nat>,
                                                   p: nat, w: seq<nat>)
    requires Hashing(eq, hash) && Grouped(eq, keys, u + [p] + w)
    ensures Grouped(eq, keys, u + w)
    decreases |u|
  {
    Laws(eq, hash);
    if u == [] {
      assert u + [p] + w == [p] + w && ([p] + w)[1..] == w && u + w == w;
    } else {
      var c, d := u[1..] + [p] + w, u[1..] + w;
      assert (u + [p] + w)[1..] == c && (u + w)[1..] == d;
      GroupedWithout(eq, hash, keys, u[1..], p, w);
      LeadsWithout(eq, hash, keys, u[0], u[1..], p, w);
    }
  }

  lemma LeadsWithout<K(!new)>(eq: (K, K) -> bool, hash: K -> nat, keys: map<nat, K>, x: nat, u: seq<nat>, p: nat,
                              w: seq<nat>)
    requires Hashing(eq, hash) && x in keys && Leads(eq, keys, x, u + [p] + w) && Grouped(eq, keys, u + [p] + w)
    ensures Leads(eq, keys, x, u + w)
  {
    Laws(eq, hash);
    var c, d := u + [p] + w, u + w;
    forall y | y in d && Same(eq, keys, x, y) ensures Same(eq, keys, x, d[0]) {
      assert y in c;
      if u == [] {
        assert c == [p] + w && c[1..] == w && d == w && c[0] == p;
        assert Same(eq, keys, x, p) && Same(eq, keys, p, y);
      } else {
        assert c[0] == d[0];
      }
    }
  }

  /** The nodes of `c` without those of key `k`. */
  function Without<K>(eq: (K, K) -> bool, keys: map<nat, K>, c: seq<nat>, k: K): seq<nat>
    decreases |c|
  {
    if c == [] then [] else (if Has(eq, keys, c[0], k) then [] else [c[0]]) + Without(eq, keys, c[1..], k)
  }

  lemma {:induction false} WithoutIs<K>(eq: (K, K) -> bool, keys: map<nat, K>, c: seq<nat>, k: K)
    ensures forall y :: y in Without(eq, keys, c, k) <==> y in c && !Has(eq, keys, y, k)
    decreases |c|
  {
    if c != [] {
      WithoutIs(eq, keys, c[1..], k);
    }
  }

  // ---------- rehashing ----------

  /**
   A chain `c` being built while the nodes of `r` are still to come: a key that both have is that of the first
   node of each.
   */
  ghost predicate Ready<K>(eq: (K, K) -> bool, keys: map<nat, K>, c: seq<nat>, r: seq<nat>) {
    forall y, z :: y in r && z in c && Same(eq, keys, y, z) ==> Same(eq, keys, y, c[0]) && Same(eq, keys, y, r[0])
  }

  /** The next node comes to the front of one of the chains. */
  lemma ReadyPush<K(!new)>(eq: (K, K) -> bool, hash: K -> nat, keys: map<nat, K>, c: seq<nat>, r: seq<nat>)
    requires Hashing(eq, hash) && r != [] && Grouped(eq, keys, r) && Grouped(eq, keys, c) && Ready(eq, keys, c, r)
    ensures Grouped(eq, keys, [r[0]] + c) && Ready(eq, keys, [r[0]] + c, r[1..])
  {
    Laws(eq, hash);
    var x, s, d := r[0], r[1..], [r[0]] + c;
    assert x in r;
    assert Leads(eq, keys, x, c);
    GroupedPush(eq, keys, c, x);
    forall y, z | y in s && z in d && Same(eq, keys, y, z) ensures Same(eq, keys, y, x) && Same(eq, keys, y, s[0]) {
      assert y in r && (z == x || z in c);
      assert Same(eq, keys, y, x);
      assert Same(eq, keys, x, y);
      assert Same(eq, keys, x, s[0]);
    }
  }

  /** The other chains are ready for the rest. */
  lemma ReadyPass<K(!new)>(eq: (K, K) -> bool, hash: K -> nat, keys: map<nat, K>, c: seq<nat>, r: seq<nat>)
    requires Hashing(eq, hash) && r != [] && Grouped(eq, keys, r) && Ready(eq, keys, c, r)
    ensures Ready(eq, keys, c, r[1..])
  {
    Laws(eq, hash);
    var x, s := r[0], r[1..];
    forall y, z | y in s && z in c && Same(eq, keys, y, z) ensures Same(eq, keys, y, c[0]) && Same(eq, keys, y, s[0]) {
      assert y in r;
      assert Same(eq, keys, x, y);
      assert Same(eq, keys, x, s[0]);
    }
  }
}
