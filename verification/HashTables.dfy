/** `hashtable` (headers/cpp/stl_hashtable.h). */
module HashTables {
  import opened Basics
  import opened HashKeys
  import opened LinkChain
  import opened ListRing
  import opened HashFlat

  const PRIMES: seq<nat> := [
    53, 97, 193, 389, 769, 1543, 3079, 6151, 12289, 24593, 49157, 98317, 196613, 393241, 786433, 1572869, 3145739,
    6291469, 12582917, 25165843, 50331653, 100663319, 201326611, 402653189, 805306457, 1610612741, 3221225473,
    4294967291
  ]

  const LAST_PRIME: nat := 4294967291

  /** `__stl_next_prime`: the first of the list that is not below `n`, or the last. */
  function NextPrime(n: nat): (p: nat)
    ensures p > 0
  {
    PrimesRise();
    NextPositive(PRIMES, n, 0);
    NextIn(PRIMES, n, 0)
  }

  function NextIn(s: seq<nat>, n: nat, i: nat): nat
    requires i < |s|
    decreases |s| - i
  {
    if i + 1 == |s| || s[i] >= n then s[i] else NextIn(s, n, i + 1)
  }

  predicate Rises(s: seq<nat>, i: nat)
    decreases |s| - i
  {
    i + 1 >= |s| || (0 < s[i] < s[i + 1] && Rises(s, i + 1))
  }

  lemma {:induction false} RisesAt(s: seq<nat>, i: nat, j: nat, k: nat)
    requires Rises(s, i) && i <= j < k < |s|
    ensures s[j] < s[k]
    decreases k - i
  {
    if i < j {
      RisesAt(s, i + 1, j, k);
    } else if j + 1 < k {
      RisesAt(s, i + 1, j + 1, k);
    }
  }

  lemma PrimesRise()
    ensures |PRIMES| == 28 && Rises(PRIMES, 0) && PRIMES[27] == LAST_PRIME
  {
    assert Rises(PRIMES, 27) && Rises(PRIMES, 26) && Rises(PRIMES, 25) && Rises(PRIMES, 24) && Rises(PRIMES, 23);
    assert Rises(PRIMES, 22) && Rises(PRIMES, 21) && Rises(PRIMES, 20) && Rises(PRIMES, 19) && Rises(PRIMES, 18);
    assert Rises(PRIMES, 17) && Rises(PRIMES, 16) && Rises(PRIMES, 15) && Rises(PRIMES, 14) && Rises(PRIMES, 13);
    assert Rises(PRIMES, 12) && Rises(PRIMES, 11) && Rises(PRIMES, 10) && Rises(PRIMES, 9) && Rises(PRIMES, 8);
    assert Rises(PRIMES, 7) && Rises(PRIMES, 6) && Rises(PRIMES, 5) && Rises(PRIMES, 4) && Rises(PRIMES, 3);
    assert Rises(PRIMES, 2) && Rises(PRIMES, 1);
  }

  lemma {:induction false} NextPositive(s: seq<nat>, n: nat, i: nat)
    requires i < |s| && Rises(s, i) && s[|s| - 1] > 0
    ensures NextIn(s, n, i) > 0
    decreases |s| - i
  {
    if i + 1 < |s| && s[i] < n {
      NextPositive(s, n, i + 1);
    }
  }

  /** In a rising list, the one found is the least that is not below `n`. */
  lemma {:induction false} NextIsLeast(s: seq<nat>, n: nat, i: nat)
    requires i < |s| && Rises(s, 0) && forall j :: 0 <= j < i ==> s[j] < n
    ensures var p := NextIn(s, n, i); var last := s[|s| - 1];
            && p in s && (n <= last ==> p >= n && forall q :: q in s && q >= n ==> q >= p) && (n > last ==> p == last)
    decreases |s| - i
  {
    if i + 1 < |s| && s[i] < n {
      NextIsLeast(s, n, i + 1);
    } else {
      forall q | q in s && q >= n ensures q >= s[i] {
        var j :| 0 <= j < |s| && s[j] == q;
        if i < j {
          RisesAt(s, 0, i, j);
        }
      }
      if i + 1 < |s| {
        RisesAt(s, 0, i, |s| - 1);
      }
    }
  }

  lemma NextPrimeIsLeast(n: nat)
    ensures NextPrime(n) in PRIMES && (n > LAST_PRIME ==> NextPrime(n) == LAST_PRIME)
    ensures n <= LAST_PRIME ==> NextPrime(n) >= n && forall q :: q in PRIMES && q >= n ==> q >= NextPrime(n)
  {
    PrimesRise();
    NextIsLeast(PRIMES, n, 0);
  }

  lemma NoLargerPrime(n: nat)
    ensures NextPrime(n) <= LAST_PRIME
  {
    NextPrimeIsLeast(n);
    PrimesRise();
    var j :| 0 <= j < |PRIMES| && PRIMES[j] == NextPrime(n);
    if j < 27 {
      RisesAt(PRIMES, 0, j, 27);
    }
  }

  /** A chain of bucket `b` of `n`. */
  ghost predicate ChainOk<K>(eq: (K, K) -> bool, hash: K -> nat, keys: map<nat, K>, link: map<nat, nat>, unused: nat,
                             head: nat, c: seq<nat>, b: nat, n: nat) {
    && n > 0 && Chain(head, c, link, 0) && NoRepeats(c) && Grouped(eq, keys, c)
    && (forall x :: x in c ==> 0 < x < unused && x in keys && hash(keys[x]) % n == b)
  }

  lemma {:induction false} GroupedSame<K>(eq: (K, K) -> bool, keys: map<nat, K>, keys': map<nat, K>, c: seq<nat>)
    requires Grouped(eq, keys, c) && forall x :: x in c && x in keys ==> x in keys' && keys'[x] == keys[x]
    ensures Grouped(eq, keys', c)
    decreases |c|
  {
    if c != [] {
      GroupedHolds(eq, keys, c);
      GroupedSame(eq, keys, keys', c[1..]);
      assert Leads(eq, keys, c[0], c[1..]);
    }
  }

  /** A chain none of whose nodes was touched. */
  lemma ChainOkSame<K>(eq: (K, K) -> bool, hash: K -> nat, keys: map<nat, K>, link: map<nat, nat>, unused: nat,
                       keys': map<nat, K>, link': map<nat, nat>, unused': nat, head: nat, c: seq<nat>, b: nat, n: nat)
    requires ChainOk(eq, hash, keys, link, unused, head, c, b, n) && unused <= unused'
    requires forall x :: x in c && x in keys ==> x in keys' && keys'[x] == keys[x]
    requires forall x :: x in c && x in link ==> x in link' && link'[x] == link[x]
    ensures ChainOk(eq, hash, keys', link', unused', head, c, b, n)
  {
    ChainSame(head, c, link, link', 0);
    GroupedSame(eq, keys, keys', c);
  }

  /** A new node in front of a chain that has no node of its key. */
  lemma ChainOkPush<K(!new)>(eq: (K, K) -> bool, hash: K -> nat, keys: map<nat, K>, link: map<nat, nat>, head: nat,
                             c: seq<nat>, b: nat, n: nat, x: nat, k: K)
    requires Hashing(eq, hash) && x > 0 && ChainOk(eq, hash, keys, link, x, head, c, b, n) && hash(k) % n == b
             && None(eq, keys, c, k)
    ensures ChainOk(eq, hash, keys[x := k], link[x := head], x + 1, x, [x] + c, b, n)
  {
    Laws(eq, hash);
    var keys', link' := keys[x := k], link[x := head];
    ChainOkSame(eq, hash, keys, link, x, keys', link', x + 1, head, c, b, n);
    assert ([x] + c)[1..] == c;
    forall y | y in c ensures !Same(eq, keys', x, y) {
      assert !Has(eq, keys, y, k);
    }
    GroupedPush(eq, keys', c, x);
    NoRepeatsJoin([x], c);
  }

  /** A new node behind one of its key. */
  lemma ChainOkAfter<K(!new)>(eq: (K, K) -> bool, hash: K -> nat, keys: map<nat, K>, link: map<nat, nat>, head: nat,
                              u: seq<nat>, y: nat, w: seq<nat>, b: nat, n: nat, x: nat, k: K)
    requires Hashing(eq, hash) && x > 0 && ChainOk(eq, hash, keys, link, x, head, u + [y] + w, b, n) && hash(k) % n == b
             && Has(eq, keys, y, k)
    ensures y in link && ChainOk(eq, hash, keys[x := k], link[x := link[y]][y := x], x + 1, head, u + [y] + ([x] + w),
                                 b, n)
  {
    Laws(eq, hash);
    var c, d, keys' := u + [y] + w, u + [y] + ([x] + w), keys[x := k];
    AfterChain(head, u, y, w, link, x);
    GroupedSame(eq, keys, keys', c);
    assert y in c;
    GroupedInsert(eq, hash, keys', u, y, w, x);
    assert x !in c;
    NoRepeatsJoin([x], c);
    assert multiset(d) == multiset([x] + c);
    NoRepeatsPermuted([x] + c, d);
    forall z | z in d ensures z == x || z in c {
    }
  }

  lemma AfterChain(head: nat, u: seq<nat>, y: nat, w: seq<nat>, link: map<nat, nat>, x: nat)
    requires Chain(head, u + [y] + w, link, 0) && NoRepeats(u + [y] + w) && x !in u + [y] + w
    ensures y in link && Chain(head, u + [y] + ([x] + w), link[x := link[y]][y := x], 0)
  {
    Splits(head, u, y, w, link);
    Strangers(u, y, w, x);
    var link' := link[x := link[y]][y := x];
    ChainSame(head, u, link, link', y);
    ChainSame(link[y], w, link, link', 0);
    TwoLinks(y, x, w, link');
    ChainSplit(head, u, [y] + ([x] + w), link', 0);
    assert u + ([y] + ([x] + w)) == u + [y] + ([x] + w);
  }

  lemma Strangers(u: seq<nat>, y: nat, w: seq<nat>, x: nat)
    requires NoRepeats(u + [y] + w) && x !in u + [y] + w
    ensures y !in u && y !in w && x !in u && x !in w && x != y
  {
    NoRepeatsJoin(u + [y], w);
    NoRepeatsJoin(u, [y]);
    assert y in u + [y] && y in [y];
  }

  lemma TwoLinks(y: nat, x: nat, w: seq<nat>, link: map<nat, nat>)
    requires y in link && link[y] == x && x in link && Chain(link[x], w, link, 0)
    ensures Chain(y, [y] + ([x] + w), link, 0)
  {
    assert ([x] + w)[1..] == w && ([y] + ([x] + w))[1..] == [x] + w;
  }

  lemma Splits(head: nat, u: seq<nat>, y: nat, w: seq<nat>, link: map<nat, nat>)
    requires Chain(head, u + [y] + w, link, 0)
    ensures y in link && Chain(head, u, link, y) && Chain(link[y], w, link, 0)
  {
    assert u + [y] + w == u + ([y] + w) && ([y] + w)[1..] == w;
    ChainSplit(head, u, [y] + w, link, 0);
  }

  ghost predicate BucketOk<K>(eq: (K, K) -> bool, hash: K -> nat, keys: map<nat, K>, link: map<nat, nat>, unused: nat,
                              buckets: seq<nat>, chains: seq<seq<nat>>, b: nat)
    requires b < |buckets| == |chains|
  {
    ChainOk(eq, hash, keys, link, unused, buckets[b], chains[b], b, |buckets|)
  }

  ghost predicate TableOk<K>(eq: (K, K) -> bool, hash: K -> nat, keys: map<nat, K>, link: map<nat, nat>, unused: nat,
                             buckets: seq<nat>, chains: seq<seq<nat>>) {
    && |buckets| == |chains| > 0 && unused > 0
    && (forall b :: 0 <= b < |buckets| ==> BucketOk(eq, hash, keys, link, unused, buckets, chains, b))
  }

  /** No node is in two buckets. */
  lemma OneBucket<K>(eq: (K, K) -> bool, hash: K -> nat, keys: map<nat, K>, link: map<nat, nat>, unused: nat,
                     buckets: seq<nat>, chains: seq<seq<nat>>, x: nat, b: nat, b': nat)
    requires TableOk(eq, hash, keys, link, unused, buckets, chains) && b < |chains| && b' < |chains| && x in chains[b]
             && x in chains[b']
    ensures b == b'
  {
    assert BucketOk(eq, hash, keys, link, unused, buckets, chains, b);
    assert BucketOk(eq, hash, keys, link, unused, buckets, chains, b');
  }

  /** One bucket changes. */
  lemma TableWith<K>(eq: (K, K) -> bool, hash: K -> nat, keys: map<nat, K>, link: map<nat, nat>, unused: nat,
                     buckets: seq<nat>, chains: seq<seq<nat>>, keys': map<nat, K>, link': map<nat, nat>, unused': nat,
                     b: nat, head: nat, c: seq<nat>)
    requires TableOk(eq, hash, keys, link, unused, buckets, chains) && b < |buckets| && unused <= unused'
    requires ChainOk(eq, hash, keys', link', unused', head, c, b, |buckets|)
    requires forall x :: x in keys && x !in chains[b] && x < unused ==> x in keys' && keys'[x] == keys[x]
    requires forall x :: x in link && x !in chains[b] && x < unused ==> x in link' && link'[x] == link[x]
    ensures TableOk(eq, hash, keys', link', unused', buckets[b := head], chains[b := c])
  {
    var bs, cs := buckets[b := head], chains[b := c];
    forall a | 0 <= a < |buckets| ensures BucketOk(eq, hash, keys', link', unused', bs, cs, a) {
      if a != b {
        assert BucketOk(eq, hash, keys, link, unused, buckets, chains, a);
        forall x | x in chains[a] ensures x !in chains[b] {
          if x in chains[b] {
            OneBucket(eq, hash, keys, link, unused, buckets, chains, x, a, b);
          }
        }
        ChainOkSame(eq, hash, keys, link, unused, keys', link', unused', buckets[a], chains[a], a, |buckets|);
      }
    }
  }

  lemma TablePush<K(!new)>(eq: (K, K) -> bool, hash: K -> nat, keys: map<nat, K>, link: map<nat, nat>, unused: nat,
                           buckets: seq<nat>, chains: seq<seq<nat>>, b: nat, k: K)
    requires Hashing(eq, hash) && TableOk(eq, hash, keys, link, unused, buckets, chains) && b < |buckets|
             && hash(k) % |buckets| == b
    requires None(eq, keys, chains[b], k)
    ensures TableOk(eq, hash, keys[unused := k], link[unused := buckets[b]], unused + 1, buckets[b := unused],
                    chains[b := [unused] + chains[b]])
  {
    assert BucketOk(eq, hash, keys, link, unused, buckets, chains, b);
    ChainOkPush(eq, hash, keys, link, buckets[b], chains[b], b, |buckets|, unused, k);
    TableWith(eq, hash, keys, link, unused, buckets, chains, keys[unused := k], link[unused := buckets[b]], unused + 1,
              b, unused, [unused] + chains[b]);
  }

  lemma TableAfter<K(!new)>(eq: (K, K) -> bool, hash: K -> nat, keys: map<nat, K>, link: map<nat, nat>, unused: nat,
                            buckets: seq<nat>, chains: seq<seq<nat>>, b: nat, u: seq<nat>, cur: nat, w: seq<nat>, k: K)
    requires Hashing(eq, hash) && TableOk(eq, hash, keys, link, unused, buckets, chains) && b < |buckets|
             && hash(k) % |buckets| == b
    requires chains[b] == u + [cur] + w && Has(eq, keys, cur, k)
    ensures cur in link
    ensures TableOk(eq, hash, keys[unused := k], link[unused := link[cur]][cur := unused], unused + 1, buckets,
                    chains[b := u + [cur] + ([unused] + w)])
  {
    assert BucketOk(eq, hash, keys, link, unused, buckets, chains, b);
    ChainOkAfter(eq, hash, keys, link, buckets[b], u, cur, w, b, |buckets|, unused, k);
    assert cur in chains[b] && buckets[b := buckets[b]] == buckets;
    TableWith(eq, hash, keys, link, unused, buckets, chains, keys[unused := k],
              link[unused := link[cur]][cur := unused], unused + 1, b,
              buckets[b], u + [cur] + ([unused] + w));
  }

  /** A node taken out of a chain. */
  lemma UnlinkChain(head: nat, u: seq<nat>, y: nat, w: seq<nat>, link: map<nat, nat>)
    requires Chain(head, u + [y] + w, link, 0) && NoRepeats(u + [y] + w)
    ensures y in link
    ensures u == [] ==> head == y && Chain(link[y], u + w, link, 0)
    ensures u != [] ==> End(u) in link && Chain(head, u + w, link[End(u) := link[y]], 0)
  {
    Splits(head, u, y, w, link);
    NoRepeatsJoin(u + [y], w);
    NoRepeatsJoin(u, [y]);
    if u == [] {
      assert u + [y] + w == [y] + w && u + w == w;
    } else {
      var p, z := u[..|u| - 1], End(u);
      var link' := link[z := link[y]];
      assert u == p + [z] && p + [z] + [] == u;
      Splits0(head, p, z, link, y);
      NoRepeatsJoin(p, [z]);
      assert z in [z] && z in u + [y] && link[y] == (w + [0])[0];
      ChainSame(head, p, link, link', z);
      ChainSame(link[y], w, link, link', 0);
      assert ([z] + w)[1..] == w;
      assert Chain(z, [z] + w, link', 0);
      ChainSplit(head, p, [z] + w, link', 0);
      assert p + ([z] + w) == u + w;
    }
  }

  lemma Splits0(head: nat, p: seq<nat>, z: nat, link: map<nat, nat>, tail: nat)
    requires Chain(head, p + [z], link, tail)
    ensures z in link && link[z] == tail && Chain(head, p, link, z)
  {
    ChainSplit(head, p, [z], link, tail);
    assert [z][1..] == [];
  }

  lemma TableUnlink<K(!new)>(eq: (K, K) -> bool, hash: K -> nat, keys: map<nat, K>, link: map<nat, nat>, unused: nat,
                             buckets: seq<nat>, chains: seq<seq<nat>>, b: nat, u: seq<nat>, p: nat, w: seq<nat>)
    requires Hashing(eq, hash) && TableOk(eq, hash, keys, link, unused, buckets, chains) && b < |buckets|
             && chains[b] == u + [p] + w
    ensures p in link
    ensures u == [] ==> TableOk(eq, hash, keys, link, unused, buckets[b := link[p]], chains[b := u + w])
    ensures u != [] ==> TableOk(eq, hash, keys, link[End(u) := link[p]], unused, buckets, chains[b := u + w])
  {
    var n := |buckets|;
    assert BucketOk(eq, hash, keys, link, unused, buckets, chains, b);
    UnlinkChain(buckets[b], u, p, w, link);
    GroupedWithout(eq, hash, keys, u, p, w);
    NoRepeatsJoin(u + [p], w);
    NoRepeatsJoin(u, [p]);
    NoRepeatsJoin(u, w);
    assert forall x :: x in u + w ==> x in chains[b];
    if u == [] {
      TableWith(eq, hash, keys, link, unused, buckets, chains, keys, link, unused, b, link[p], u + w);
    } else {
      assert End(u) in chains[b] && buckets[b := buckets[b]] == buckets;
      TableWith(eq, hash, keys, link, unused, buckets, chains, keys, link[End(u) := link[p]], unused, b, buckets[b],
                u + w);
    }
  }

  lemma NoneSnoc<K>(eq: (K, K) -> bool, keys: map<nat, K>, u: seq<nat>, w: seq<nat>, k: K)
    requires None(eq, keys, u, k) && w != [] && !Has(eq, keys, w[0], k)
    ensures None(eq, keys, u + [w[0]], k) && u + w == (u + [w[0]]) + w[1..]
  {
  }

  lemma {:induction false} WithoutFirst<K>(eq: (K, K) -> bool, keys: map<nat, K>, u: seq<nat>, w: seq<nat>, k: K)
    requires w != []
    ensures u + Without(eq, keys, w, k) == if Has(eq, keys, w[0], k) then u + Without(eq, keys, w[1..], k)
                                           else (u + [w[0]]) + Without(eq, keys, w[1..], k)
  {
    var d := Without(eq, keys, w[1..], k);
    assert [] + d == d;
    assert u + ([w[0]] + d) == (u + [w[0]]) + d;
  }

  lemma FlatPlus(chains: seq<seq<nat>>, b: nat, u: seq<nat>, w: seq<nat>, x: nat)
    requires b < |chains| && chains[b] == u + w
    ensures multiset(Flat(chains[b := u + ([x] + w)])) == multiset(Flat(chains)) + multiset{x}
    ensures |Flat(chains[b := u + ([x] + w)])| == |Flat(chains)| + 1
  {
    assert chains[b := chains[b]] == chains;
    FlatAround(chains, b, chains[b]);
    FlatAround(chains, b, u + ([x] + w));
  }

  lemma FlatMinus(chains: seq<seq<nat>>, b: nat, u: seq<nat>, p: nat, w: seq<nat>)
    requires b < |chains| && chains[b] == u + [p] + w
    ensures multiset(Flat(chains[b := u + w])) + multiset{p} == multiset(Flat(chains))
    ensures |Flat(chains[b := u + w])| + 1 == |Flat(chains)|
  {
    FlatPlus(chains[b := u + w], b, u, w, p);
    assert u + ([p] + w) == chains[b];
    assert chains[b := u + w][b := u + ([p] + w)] == chains;
  }

  lemma FlatWithout(chains: seq<seq<nat>>, b: nat, u: seq<nat>, p: nat, w: seq<nat>)
    requires b < |chains| && chains[b] == u + [p] + w
    ensures var front, back := Flat(chains[..b]) + u, w + Flat(chains[b + 1..]);
            Flat(chains) == front + [p] + back && Flat(chains[b := u + w]) == front + back
  {
    var x, y := Flat(chains[..b]), Flat(chains[b + 1..]);
    FlatAround(chains, b, chains[b]);
    FlatAround(chains, b, u + w);
    assert chains[b := chains[b]] == chains;
    assert x + (u + [p] + w) + y == (x + u) + [p] + (w + y) && x + (u + w) + y == (x + u) + (w + y);
  }

  lemma FlatInFront(chains: seq<seq<nat>>, b: nat, x: nat)
    requires b < |chains|
    ensures Flat(chains) == Flat(chains[..b]) + Flat(chains[b..])
    ensures Flat(chains[b := [x] + chains[b]]) == Flat(chains[..b]) + [x] + Flat(chains[b..])
  {
    var c, y := chains[b], Flat(chains[b + 1..]);
    FlatAround(chains, b, c);
    FlatAround(chains, b, [x] + c);
    assert chains[b := c] == chains && chains[b..][1..] == chains[b + 1..];
    assert Flat(chains[b..]) == c + y;
    assert Flat(chains[..b]) + ([x] + c) + y == Flat(chains[..b]) + [x] + (c + y);
    assert Flat(chains[..b]) + c + y == Flat(chains[..b]) + (c + y);
  }

  lemma FlatBehind(chains: seq<seq<nat>>, b: nat, u: seq<nat>, cur: nat, w: seq<nat>, x: nat)
    requires b < |chains| && chains[b] == u + [cur] + w
    ensures var front, back := Flat(chains[..b]) + (u + [cur]), w + Flat(chains[b + 1..]);
            Flat(chains) == front + back && Flat(chains[b := u + [cur] + ([x] + w)]) == front + [x] + back
  {
    var p, y := Flat(chains[..b]), Flat(chains[b + 1..]);
    FlatAround(chains, b, chains[b]);
    FlatAround(chains, b, u + [cur] + ([x] + w));
    assert chains[b := chains[b]] == chains;
    assert p + (u + [cur] + w) + y == (p + (u + [cur])) + (w + y);
    assert p + (u + [cur] + ([x] + w)) + y == (p + (u + [cur])) + [x] + (w + y);
  }

  /** A node in its chain, and its place in the order of iteration. */
  lemma Around<K>(eq: (K, K) -> bool, hash: K -> nat, keys: map<nat, K>, link: map<nat, nat>, unused: nat,
                  buckets: seq<nat>, chains: seq<seq<nat>>, b: nat, u: seq<nat>, p: nat, w: seq<nat>)
    requires TableOk(eq, hash, keys, link, unused, buckets, chains) && b < |buckets| && chains[b] == u + [p] + w
    ensures p in keys && p in link && link[p] == (w + [0])[0] && hash(keys[p]) % |buckets| == b
    ensures p != 0 && (w != [] ==> w[0] != 0) && (u != [] ==> End(u) != 0)
    ensures Flat(chains) == (Flat(chains[..b]) + u) + [p] + (w + Flat(chains[b + 1..]))
  {
    assert BucketOk(eq, hash, keys, link, unused, buckets, chains, b);
    Splits(buckets[b], u, p, w, link);
    assert p in chains[b] && (w != [] ==> w[0] in chains[b]) && (u != [] ==> End(u) in chains[b]);
    FlatAround(chains, b, chains[b]);
    assert chains[b := chains[b]] == chains;
  }

  // ---------- rehashing ----------

  /**
   `resize` in progress: `r` is what is left of bucket `b` of the old `m`, `chains` are the old chains and `made` the
   new ones, which hold what has been taken from the buckets up to `b`.
   */
  ghost predicate Rehashing<K>(eq: (K, K) -> bool, hash: K -> nat, keys: map<nat, K>, link: map<nat, nat>, unused: nat,
                               chains: seq<seq<nat>>, b: nat, first: nat, r: seq<nat>, tmp: seq<nat>,
                               made: seq<seq<nat>>) {
    && TableOk(eq, hash, keys, link, unused, tmp, made) && b < |chains|
    && ChainOk(eq, hash, keys, link, unused, first, r, b, |chains|)
    && (forall j :: 0 <= j < |made| ==> Ready(eq, keys, made[j], r) && Taken(hash, keys, made[j], r, b, |chains|))
  }

  /** The nodes of a new chain come from the old buckets up to `b`, and not from the rest `r` of that. */
  ghost predicate Taken<K>(hash: K -> nat, keys: map<nat, K>, c: seq<nat>, r: seq<nat>, b: nat, m: nat) {
    m > 0 && forall x :: x in c ==> x in keys && hash(keys[x]) % m <= b && x !in r
  }

  lemma RehashChain<K(!new)>(eq: (K, K) -> bool, hash: K -> nat, keys: map<nat, K>, link: map<nat, nat>, unused: nat,
                             r: seq<nat>, head: nat, c: seq<nat>, j: nat, n: nat, b: nat, m: nat)
    requires Hashing(eq, hash) && r != [] && Grouped(eq, keys, r) && Ready(eq, keys, c, r)
             && Taken(hash, keys, c, r, b, m) && NoRepeats(r)
    requires ChainOk(eq, hash, keys, link, unused, head, c, j, n) && 0 < r[0] < unused && hash(keys[r[0]]) % n == j
             && hash(keys[r[0]]) % m == b
    ensures ChainOk(eq, hash, keys, link[r[0] := head], unused, r[0], [r[0]] + c, j, n)
    ensures Ready(eq, keys, [r[0]] + c, r[1..]) && Taken(hash, keys, [r[0]] + c, r[1..], b, m)
  {
    var x := r[0];
    ReadyPush(eq, hash, keys, c, r);
    assert x !in c;
    ChainSame(head, c, link, link[x := head], 0);
    assert ([x] + c)[1..] == c && r == [x] + r[1..];
    NoRepeatsJoin([x], c);
    NoRepeatsJoin([x], r[1..]);
  }

  lemma RehashOne<K(!new)>(eq: (K, K) -> bool, hash: K -> nat, keys: map<nat, K>, link: map<nat, nat>, unused: nat,
                           chains: seq<seq<nat>>, b: nat, first: nat, r: seq<nat>, tmp: seq<nat>, made: seq<seq<nat>>,
                           j: nat)
    requires Hashing(eq, hash) && Rehashing(eq, hash, keys, link, unused, chains, b, first, r, tmp, made) && r != []
    requires first in keys && j == hash(keys[first]) % |tmp|
    ensures first == r[0] && first in link && j < |tmp|
    ensures Rehashing(eq, hash, keys, link[first := tmp[j]], unused, chains, b, link[first], r[1..], tmp[j := first],
                      made[j := [first] + made[j]])
  {
    var x, link', m := first, link[first := tmp[j]], |chains|;
    var ts, ms := tmp[j := first], made[j := [first] + made[j]];
    assert x in r && r == [x] + r[1..];
    NoRepeatsJoin([x], r[1..]);
    assert BucketOk(eq, hash, keys, link, unused, tmp, made, j);
    RehashChain(eq, hash, keys, link, unused, r, tmp[j], made[j], j, |tmp|, b, m);
    RehashOthers(eq, hash, keys, link, link', unused, chains, b, first, r, tmp, made, tmp[j]);
    forall i | 0 <= i < |ts| ensures BucketOk(eq, hash, keys, link', unused, ts, ms, i) {
      if i != j {
        assert BucketOk(eq, hash, keys, link', unused, tmp, made, i);
      }
    }
    ChainSame(link[x], r[1..], link, link', 0);
  }

  lemma RehashOthers<K(!new)>(eq: (K, K) -> bool, hash: K -> nat, keys: map<nat, K>, link: map<nat, nat>,
                              link': map<nat, nat>, unused: nat, chains: seq<seq<nat>>, b: nat, first: nat, r: seq<nat>,
                              tmp: seq<nat>, made: seq<seq<nat>>, v: nat)
    requires Hashing(eq, hash) && Rehashing(eq, hash, keys, link, unused, chains, b, first, r, tmp, made) && r != []
             && first == r[0]
    requires link' == link[first := v]
    ensures forall i :: 0 <= i < |tmp| ==> BucketOk(eq, hash, keys, link', unused, tmp, made, i)
    ensures forall i :: 0 <= i < |tmp| ==> Ready(eq, keys, made[i], r[1..]) && Taken(hash, keys, made[i], r[1..], b,
        |chains|)
  {
    assert first in r;
    forall i | 0 <= i < |tmp| ensures Ready(eq, keys, made[i], r[1..])
           && Taken(hash, keys, made[i], r[1..], b, |chains|)
                                      && BucketOk(eq, hash, keys, link', unused, tmp, made, i) {
      ReadyPass(eq, hash, keys, made[i], r);
      assert first !in made[i];
      assert BucketOk(eq, hash, keys, link, unused, tmp, made, i);
      ChainOkSame(eq, hash, keys, link, unused, keys, link', unused, tmp[i], made[i], i, |tmp|);
    }
  }

  /** On to the next bucket: none of its keys has been taken yet. */
  lemma RehashNext<K(!new)>(eq: (K, K) -> bool, hash: K -> nat, keys: map<nat, K>, link: map<nat, nat>, unused: nat,
                            chains: seq<seq<nat>>, b: nat, head: nat, tmp: seq<nat>, made: seq<seq<nat>>)
    requires Hashing(eq, hash) && TableOk(eq, hash, keys, link, unused, tmp, made) && b < |chains|
    requires ChainOk(eq, hash, keys, link, unused, head, chains[b], b, |chains|)
    requires forall j :: 0 <= j < |made| ==> forall x :: x in made[j] ==> x in keys && hash(keys[x]) % |chains| < b
    ensures Rehashing(eq, hash, keys, link, unused, chains, b, head, chains[b], tmp, made)
  {
    Laws(eq, hash);
    var r := chains[b];
    forall j | 0 <= j < |made| ensures Ready(eq, keys, made[j], r) && Taken(hash, keys, made[j], r, b, |chains|) {
      forall y, z | y in r && z in made[j] ensures !Same(eq, keys, y, z) {
        assert hash(keys[y]) % |chains| == b && hash(keys[z]) % |chains| < b;
      }
    }
  }

  /** The old chains from bucket `from` on, not yet reached. */
  ghost predicate Waiting<K>(eq: (K, K) -> bool, hash: K -> nat, keys: map<nat, K>, link: map<nat, nat>, unused: nat,
                             buckets: seq<nat>, chains: seq<seq<nat>>, from: nat) {
    |buckets| == |chains| && forall a :: from <= a < |chains| ==>
        BucketOk(eq, hash, keys, link, unused, buckets, chains, a)
  }

  lemma WaitingKept<K>(eq: (K, K) -> bool, hash: K -> nat, keys: map<nat, K>, link: map<nat, nat>, unused: nat,
                       buckets: seq<nat>, chains: seq<seq<nat>>, from: nat, x: nat, v: nat, y: nat)
    requires Waiting(eq, hash, keys, link, unused, buckets, chains, from) && |chains| > 0 && x in keys
             && hash(keys[x]) % |chains| < from
    requires from > 0 && from - 1 < |buckets|
    ensures Waiting(eq, hash, keys, link[x := v], unused, buckets[from - 1 := y], chains, from)
  {
    forall a | from <= a < |chains| ensures ChainOk(eq, hash, keys, link[x := v], unused, buckets[a], chains[a], a,
                                                    |chains|) {
      assert BucketOk(eq, hash, keys, link, unused, buckets, chains, a);
      ChainOkSame(eq, hash, keys, link, unused, keys, link[x := v], unused, buckets[a], chains[a], a, |chains|);
    }
  }

  lemma RestHead<K>(eq: (K, K) -> bool, hash: K -> nat, keys: map<nat, K>, link: map<nat, nat>, unused: nat, first: nat,
                    r: seq<nat>, b: nat, m: nat)
    requires ChainOk(eq, hash, keys, link, unused, first, r, b, m)
    ensures first == 0 <==> r == []
    ensures r != [] ==> r[0] == first && first in keys && hash(keys[first]) % m == b
  {
    assert r != [] ==> r[0] in r;
  }

  lemma FlatMoved(made: seq<seq<nat>>, j: nat, r: seq<nat>)
    requires j < |made| && r != []
    ensures multiset(Flat(made[j := [r[0]] + made[j]])) + multiset(r[1..]) == multiset(Flat(made)) + multiset(r)
  {
    FlatPlus(made, j, [], made[j], r[0]);
    assert [] + ([r[0]] + made[j]) == [r[0]] + made[j] && r == [r[0]] + r[1..];
  }

  /** Between two old buckets: all before `b` have been emptied. */
  ghost predicate Halfway<K>(eq: (K, K) -> bool, hash: K -> nat, keys: map<nat, K>, link: map<nat, nat>, unused: nat,
                             buckets: seq<nat>, chains: seq<seq<nat>>, b: nat, tmp: seq<nat>, made: seq<seq<nat>>) {
    && TableOk(eq, hash, keys, link, unused, tmp, made) && Waiting(eq, hash, keys, link, unused, buckets, chains, b)
       && b <= |chains| && |chains| > 0
    && multiset(Flat(made)) + multiset(Flat(chains[b..])) == multiset(Flat(chains))
    && forall j :: 0 <= j < |made| ==> forall x :: x in made[j] ==> x in keys && hash(keys[x]) % |chains| < b
  }

  lemma HalfwayNone<K>(eq: (K, K) -> bool, hash: K -> nat, keys: map<nat, K>, link: map<nat, nat>, unused: nat,
                       buckets: seq<nat>, chains: seq<seq<nat>>, n: nat)
    requires TableOk(eq, hash, keys, link, unused, buckets, chains) && n > 0
    ensures Halfway(eq, hash, keys, link, unused, buckets, chains, 0, seq(n, _ => 0), seq(n, _ => []))
  {
    var tmp, made: seq<seq<nat>> := seq(n, _ => 0), seq(n, _ => []);
    FlatEmpty(made);
    assert chains[0..] == chains;
    forall b | 0 <= b < n ensures BucketOk(eq, hash, keys, link, unused, tmp, made, b) {
    }
    forall b | 0 <= b < |chains| ensures BucketOk(eq, hash, keys, link, unused, buckets, chains, b) {
    }
  }

  lemma HalfwayAll<K>(eq: (K, K) -> bool, hash: K -> nat, keys: map<nat, K>, link: map<nat, nat>, unused: nat,
                      buckets: seq<nat>, chains: seq<seq<nat>>, tmp: seq<nat>, made: seq<seq<nat>>)
    requires Halfway(eq, hash, keys, link, unused, buckets, chains, |chains|, tmp, made)
    ensures TableOk(eq, hash, keys, link, unused, tmp, made) && multiset(Flat(made)) == multiset(Flat(chains))
            && |Flat(made)| == |Flat(chains)|
  {
    assert chains[|chains|..] == [];
    assert |multiset(Flat(made))| == |multiset(Flat(chains))|;
  }

  lemma HalfwayIn<K(!new)>(eq: (K, K) -> bool, hash: K -> nat, keys: map<nat, K>, link: map<nat, nat>, unused: nat,
                           buckets: seq<nat>, chains: seq<seq<nat>>, b: nat, tmp: seq<nat>, made: seq<seq<nat>>)
    requires Hashing(eq, hash) && Halfway(eq, hash, keys, link, unused, buckets, chains, b, tmp, made) && b < |chains|
    ensures Waiting(eq, hash, keys, link, unused, buckets, chains, b + 1)
    ensures Rehashing(eq, hash, keys, link, unused, chains, b, buckets[b], chains[b], tmp, made)
  {
    assert BucketOk(eq, hash, keys, link, unused, buckets, chains, b);
    RehashNext(eq, hash, keys, link, unused, chains, b, buckets[b], tmp, made);
  }

  lemma HalfwayOut<K(!new)>(eq: (K, K) -> bool, hash: K -> nat, keys: map<nat, K>, link: map<nat, nat>, unused: nat,
                            buckets: seq<nat>, chains: seq<seq<nat>>, b: nat, head: nat, tmp: seq<nat>,
                            made: seq<seq<nat>>, made0: seq<seq<nat>>)
    requires Waiting(eq, hash, keys, link, unused, buckets, chains, b + 1) && b < |chains|
    requires Rehashing(eq, hash, keys, link, unused, chains, b, head, [], tmp, made)
    requires multiset(Flat(made0)) + multiset(Flat(chains[b..])) == multiset(Flat(chains))
    requires multiset(Flat(made)) == multiset(Flat(made0)) + multiset(chains[b])
    ensures Halfway(eq, hash, keys, link, unused, buckets, chains, b + 1, tmp, made)
  {
    assert chains[b..][1..] == chains[b + 1..] && Flat(chains[b..]) == chains[b] + Flat(chains[b + 1..]);
    forall j | 0 <= j < |made| ensures forall x :: x in made[j] ==> x in keys && hash(keys[x]) % |chains| < b + 1 {
      assert Taken(hash, keys, made[j], [], b, |chains|);
    }
  }

  lemma SameNodes(s: seq<nat>, t: seq<nat>)
    requires multiset(s) == multiset(t)
    ensures forall x :: x in s <==> x in t
  {
    forall x ensures x in s <==> x in t {
      assert x in s <==> x in multiset(s);
    }
  }

  /** Chains without repeats, no node in two of them: `home` is the bucket of a node. */
  lemma {:induction false} FlatOnce(chains: seq<seq<nat>>, home: nat -> nat, off: nat)
    requires forall b :: 0 <= b < |chains| ==> NoRepeats(chains[b])
    requires forall b, x :: 0 <= b < |chains| && x in chains[b] ==> home(x) == off + b
    ensures NoRepeats(Flat(chains))
    decreases |chains|
  {
    if chains != [] {
      var c, rest := chains[0], chains[1..];
      FlatOnce(rest, home, off + 1);
      forall x | x in c ensures x !in Flat(rest) {
        InFlat(rest, x);
        assert home(x) == off;
      }
      NoRepeatsJoin(c, Flat(rest));
    }
  }

  class HashTable<K(!new)> {
    const eq: (K, K) -> bool
    const hash: K -> nat
    var buckets: seq<nat>
    var link: map<nat, nat>
    var keys: map<nat, K>
    var count: nat
    var unused: nat
    ghost var chains: seq<seq<nat>>

    ghost predicate Valid()
      reads this
    {
      Hashing(eq, hash) && TableOk(eq, hash, keys, link, unused, buckets, chains) && count == |Flat(chains)|
    }

    /** `_M_bkt_num_key`. */
    function Bucket(k: K): (b: nat)
      requires |buckets| > 0
      reads this
      ensures b < |buckets|
    {
      hash(k) % |buckets|
    }

    constructor (eq: (K, K) -> bool, hash: K -> nat, n: nat)
      requires Hashing(eq, hash)
      ensures Valid() && this.eq == eq && this.hash == hash && Flat(chains) == []
      ensures |buckets| in PRIMES && (n > LAST_PRIME ==> |buckets| == LAST_PRIME)
      ensures n <= LAST_PRIME ==> |buckets| >= n && forall q :: q in PRIMES && q >= n ==> q >= |buckets|
      ensures unused == 1 && keys == map[] && chains == seq(|buckets|, _ => [])
    {
      this.eq, this.hash := eq, hash;
      NextPrimeIsLeast(n);
      buckets := seq(NextPrime(n), _ => 0);
      link, keys, count, unused := map[], map[], 0, 1;
      chains := seq(NextPrime(n), _ => []);
      new;
      FlatEmpty(chains);
    }

    /** A key is found in its own bucket only. */
    lemma OnlyThere(k: K, x: nat)
      requires Valid() && x in Flat(chains) && Has(eq, keys, x, k)
      ensures x in chains[Bucket(k)]
    {
      Laws(eq, hash);
      InFlat(chains, x);
      var b :| 0 <= b < |chains| && x in chains[b];
      assert BucketOk(eq, hash, keys, link, unused, buckets, chains, b);
    }

    /** The first node of key `k` in a chain; null at its end. */
    method Seek(k: K, b: nat) returns (cur: nat, ghost u: seq<nat>, ghost w: seq<nat>)
      requires Valid() && b < |buckets|
      ensures chains[b] == u + w && None(eq, keys, u, k) && cur == (w + [0])[0] && (cur == 0 <==> w == [])
      ensures cur != 0 ==> Has(eq, keys, cur, k)
    {
      cur, u, w := buckets[b], [], chains[b];
      Head(b);
      assert chains[b] == u + w;
      while cur != 0 && !eq(keys[cur], k)
        invariant chains[b] == u + w && None(eq, keys, u, k)
        invariant cur == (w + [0])[0] && (cur == 0 <==> w == []) && (w != [] ==> cur in keys)
        decreases |w|
      {
        NoneSnoc(eq, keys, u, w, k);
        u, w := u + [cur], w[1..];
        cur := NextOf(cur, b, u, w);
      }
    }

    lemma Below(b: nat)
      requires Valid() && b < |chains|
      ensures forall x :: x in chains[b] ==> 0 < x < unused
    {
      assert BucketOk(eq, hash, keys, link, unused, buckets, chains, b);
    }

    /** A new node at the front of its bucket. */
    method PushFront(k: K, b: nat) returns (x: nat)
      requires Valid() && b == Bucket(k) && None(eq, keys, chains[b], k)
      modifies this`buckets, this`link, this`keys, this`count, this`unused, this`chains
      ensures Valid() && x == old(unused) && unused == x + 1 && keys == old(keys)[x := k] && |buckets| == old(|buckets|)
      ensures chains == old(chains)[b := [x] + old(chains[b])]
              && multiset(Flat(chains)) == multiset(old(Flat(chains))) + multiset{x}
    {
      TablePush(eq, hash, keys, link, unused, buckets, chains, b, k);
      FlatPlus(chains, b, [], chains[b], unused);
      x := unused;
      assert [] + ([x] + chains[b]) == [x] + chains[b];
      unused, keys, link := unused + 1, keys[x := k], link[x := buckets[b]];
      chains := chains[b := [x] + chains[b]];
      buckets := buckets[b := x];
      count := count + 1;
    }

    /** A new node behind `cur`, which has its key. */
    method PutAfter(k: K, b: nat, cur: nat, ghost u: seq<nat>, ghost w: seq<nat>) returns (x: nat)
      requires Valid() && b == Bucket(k) && chains[b] == u + [cur] + w && Has(eq, keys, cur, k)
      modifies this`link, this`keys, this`count, this`unused, this`chains
      ensures Valid() && x == old(unused) && unused == x + 1 && keys == old(keys)[x := k]
      ensures chains == old(chains)[b := u + [cur] + ([x] + w)]
              && multiset(Flat(chains)) == multiset(old(Flat(chains))) + multiset{x}
    {
      TableAfter(eq, hash, keys, link, unused, buckets, chains, b, u, cur, w, k);
      FlatPlus(chains, b, u + [cur], w, unused);
      x := unused;
      unused, keys := unused + 1, keys[x := k];
      link := link[x := link[cur]];
      link := link[cur := x];
      chains := chains[b := u + [cur] + ([x] + w)];
      count := count + 1;
    }

    /** `insert_unique_noresize`. */
    method InsertUniqueNoResize(k: K) returns (x: nat, added: bool)
      requires Valid()
      modifies this`buckets, this`link, this`keys, this`count, this`unused, this`chains
      ensures Valid() && |buckets| == old(|buckets|) && added == old(None(eq, keys, Flat(chains), k))
      ensures added ==> Flat(chains) == old(Flat(chains[..Bucket(k)])) + [x] + old(Flat(chains[Bucket(k)..]))
      ensures !added ==> chains == old(chains) && keys == old(keys) && x in Flat(chains) && Has(eq, keys, x, k)
      ensures added ==> x !in old(Flat(chains)) && keys == old(keys)[x := k]
                         && multiset(Flat(chains)) == multiset(old(Flat(chains))) + multiset{x}
    {
      var b := Bucket(k);
      ghost var u, w;
      x, u, w := Seek(k, b);
      added := x == 0;
      if added {
        assert u == chains[b];
        NoneAnywhere(k);
        NewNode();
        FlatInFront(chains, b, unused);
        x := PushFront(k, b);
      } else {
        assert x in chains[b];
        InFlat(chains, x);
      }
    }

    lemma NoneAnywhere(k: K)
      requires Valid() && None(eq, keys, chains[Bucket(k)], k)
      ensures None(eq, keys, Flat(chains), k)
    {
      forall x | x in Flat(chains) ensures !Has(eq, keys, x, k) {
        if Has(eq, keys, x, k) {
          OnlyThere(k, x);
        }
      }
    }

    lemma NewNode()
      requires Valid()
      ensures unused !in Flat(chains)
    {
      InFlat(chains, unused);
      if b :| 0 <= b < |chains| && unused in chains[b] {
        Below(b);
      }
    }

    /** `insert_equal_noresize`: behind the first node of the same key, or at the front of the bucket. */
    method InsertEqualNoResize(k: K) returns (x: nat, ghost front: seq<nat>, ghost back: seq<nat>)
      requires Valid()
      modifies this`buckets, this`link, this`keys, this`count, this`unused, this`chains
      ensures Valid() && x !in old(Flat(chains)) && keys == old(keys)[x := k] && |buckets| == old(|buckets|)
      ensures multiset(Flat(chains)) == multiset(old(Flat(chains))) + multiset{x}
      ensures old(Flat(chains)) == front + back && Flat(chains) == front + [x] + back
      ensures old(None(eq, keys, Flat(chains), k)) ==> front == old(Flat(chains[..Bucket(k)]))
      ensures !old(None(eq, keys, Flat(chains), k)) ==>
                front != [] && old(Has(eq, keys, End(front), k) && None(eq, keys, front[..|front| - 1], k))
    {
      var b := Bucket(k);
      ghost var u, w;
      var cur;
      cur, u, w := Seek(k, b);
      NewNode();
      if cur == 0 {
        assert u == chains[b];
        NoneAnywhere(k);
        FlatInFront(chains, b, unused);
        front, back := Flat(chains[..b]), Flat(chains[b..]);
        x := PushFront(k, b);
      } else {
        assert chains[b] == u + [cur] + w[1..];
        front, back := Flat(chains[..b]) + (u + [cur]), w[1..] + Flat(chains[b + 1..]);
        FlatBehind(chains, b, u, cur, w[1..], unused);
        FirstOfKey(k, b, u, cur, w[1..]);
        x := PutAfter(k, b, cur, u, w[1..]);
      }
    }

    /** The first node of a key in its chain is the first in the order of iteration. */
    lemma FirstOfKey(k: K, b: nat, u: seq<nat>, cur: nat, w: seq<nat>)
      requires Valid() && b == Bucket(k) && chains[b] == u + [cur] + w && None(eq, keys, u, k) && Has(eq, keys, cur, k)
      ensures var front := Flat(chains[..b]) + (u + [cur]);
              End(front) == cur && None(eq, keys, front[..|front| - 1], k) && !None(eq, keys, Flat(chains), k)
    {
      var front := Flat(chains[..b]) + (u + [cur]);
      assert front[..|front| - 1] == Flat(chains[..b]) + u;
      forall y | y in front[..|front| - 1] ensures !Has(eq, keys, y, k) {
        if y in Flat(chains[..b]) && Has(eq, keys, y, k) {
          InEarlier(k, b, y);
        }
      }
      assert cur in chains[b];
      InFlat(chains, cur);
    }

    lemma InEarlier(k: K, b: nat, y: nat)
      requires Valid() && b == Bucket(k) && y in Flat(chains[..b])
      ensures !Has(eq, keys, y, k)
    {
      InFlat(chains[..b], y);
      var a :| 0 <= a < b && y in chains[..b][a];
      assert BucketOk(eq, hash, keys, link, unused, buckets, chains, a);
      Laws(eq, hash);
    }

    /** A node leaves its chain; `before` is its predecessor there, if it has one. */
    method Unlink(b: nat, before: nat, p: nat, ghost u: seq<nat>, ghost w: seq<nat>)
      requires Valid() && b < |buckets| && chains[b] == u + [p] + w && (u != [] ==> before == End(u))
               && (u == [] ==> before == 0)
      modifies this`buckets, this`link, this`count, this`chains
      ensures Valid() && chains == old(chains)[b := u + w] && |buckets| == old(|buckets|) && count + 1 == old(count)
      ensures p in old(link) && old(link[p]) == (w + [0])[0] && (w != [] ==> w[0] != 0)
      ensures multiset(Flat(chains)) + multiset{p} == multiset(old(Flat(chains)))
    {
      Around(eq, hash, keys, link, unused, buckets, chains, b, u, p, w);
      TableUnlink(eq, hash, keys, link, unused, buckets, chains, b, u, p, w);
      FlatMinus(chains, b, u, p, w);
      if before == 0 {
        buckets := buckets[b := link[p]];
      } else {
        link := link[before := link[p]];
      }
      chains := chains[b := u + w];
      count := count - 1;
    }

    /** `erase` through an iterator: exactly that node goes from the order of iteration. */
    method EraseNode(p: nat) returns (ghost front: seq<nat>, ghost back: seq<nat>)
      requires Valid() && (p != 0 ==> p in Flat(chains))
      modifies this`buckets, this`link, this`count, this`chains
      ensures Valid() && |buckets| == old(|buckets|)
      ensures p == 0 ==> chains == old(chains)
      ensures p != 0 ==> old(Flat(chains)) == front + [p] + back && Flat(chains) == front + back
    {
      if p == 0 {
        return [], [];
      }
      ghost var b0 := WhereIs(p);
      var b := Bucket(keys[p]);
      ghost var u, w;
      var before;
      before, u, w := Predecessor(p, b);
      front, back := Flat(chains[..b]) + u, w + Flat(chains[b + 1..]);
      FlatWithout(chains, b, u, p, w);
      Unlink(b, before, p, u, w);
    }

    /** The walk along the chain to a node. */
    method Predecessor(p: nat, b: nat) returns (before: nat, ghost u: seq<nat>, ghost w: seq<nat>)
      requires Valid() && b < |buckets| && p in chains[b]
      ensures chains[b] == u + [p] + w && (u != [] ==> before == End(u)) && (u == [] ==> before == 0)
    {
      Head(b);
      ghost var c, i := chains[b], 0;
      var cur := buckets[b];
      before := 0;
      while cur != p
        invariant i < |c| && cur == c[i] && p in c[i..] && before == (if i == 0 then 0 else c[i - 1])
        decreases |c| - i
      {
        assert c[i..] == [c[i]] + c[i + 1..];
        before, i := cur, i + 1;
        assert c == c[..i] + c[i..] && End(c[..i]) == cur;
        cur := NextOf(cur, b, c[..i], c[i..]);
      }
      u, w := c[..i], c[i + 1..];
    }

    lemma WhereIs(x: nat) returns (b: nat)
      requires Valid() && x in Flat(chains)
      ensures b < |chains| && x in chains[b] && x in keys && b == Bucket(keys[x]) && x > 0
    {
      InFlat(chains, x);
      b :| 0 <= b < |chains| && x in chains[b];
      assert BucketOk(eq, hash, keys, link, unused, buckets, chains, b);
    }

    /** The first node of the buckets from `b` on. */
    method FirstFrom(b0: nat) returns (cur: nat)
      requires Valid() && b0 <= |buckets|
      ensures cur == (Flat(chains[b0..]) + [0])[0]
    {
      var b := b0;
      cur := 0;
      while cur == 0 && b < |buckets|
        invariant b0 <= b <= |buckets|
        invariant cur == 0 ==> Flat(chains[b0..]) == Flat(chains[b..])
        invariant cur != 0 ==> cur == (Flat(chains[b0..]) + [0])[0]
        decreases |buckets| - b
      {
        assert BucketOk(eq, hash, keys, link, unused, buckets, chains, b);
        assert chains[b..][1..] == chains[b + 1..] && Flat(chains[b..]) == chains[b] + Flat(chains[b + 1..]);
        assert chains[b] != [] ==> chains[b][0] in chains[b];
        cur := buckets[b];
        b := b + 1;
      }
      assert cur == 0 ==> chains[b..] == [];
    }

    /** `++`: from one node to the next in the order of iteration, from the last to null. */
    method Increment(x: nat) returns (cur: nat, ghost u: seq<nat>, ghost w: seq<nat>)
      requires Valid() && x in Flat(chains)
      ensures Flat(chains) == u + [x] + w && cur == (w + [0])[0]
    {
      ghost var b0, p, q := PlaceOf(x);
      u, w := Flat(chains[..b0]) + p, q + Flat(chains[b0 + 1..]);
      cur := link[x];
      if cur == 0 {
        var b := Bucket(keys[x]);
        cur := FirstFrom(b + 1);
        assert q + Flat(chains[b + 1..]) == Flat(chains[b + 1..]);
      }
    }

    lemma PlaceOf(x: nat) returns (b: nat, p: seq<nat>, q: seq<nat>)
      requires Valid() && x in Flat(chains)
      ensures b < |chains| && x in keys && b == Bucket(keys[x]) && x in link && link[x] == (q + [0])[0]
              && (q != [] ==> q[0] != 0)
      ensures Flat(chains) == (Flat(chains[..b]) + p) + [x] + (q + Flat(chains[b + 1..]))
    {
      b := WhereIs(x);
      var c := chains[b];
      var i :| 0 <= i < |c| && c[i] == x;
      p, q := c[..i], c[i + 1..];
      assert c == p + [x] + q;
      Around(eq, hash, keys, link, unused, buckets, chains, b, p, x, q);
    }

    /** `cur->_M_next`, for the last node of `u` in a chain `u + w`. */
    method NextOf(cur: nat, ghost b: nat, ghost u: seq<nat>, ghost w: seq<nat>) returns (next: nat)
      requires Valid() && b < |chains| && chains[b] == u + w && u != [] && cur == End(u)
      ensures next == (w + [0])[0] && (next == 0 <==> w == []) && (w != [] ==> next in keys && next != 0)
    {
      ghost var p := u[..|u| - 1];
      assert u == p + [cur] && chains[b] == p + [cur] + w;
      Around(eq, hash, keys, link, unused, buckets, chains, b, p, cur, w);
      assert BucketOk(eq, hash, keys, link, unused, buckets, chains, b);
      assert w != [] ==> w[0] in chains[b];
      next := link[cur];
    }

    /** One round of the loop of `erase(key)`. */
    method EraseRound(k: K, b: nat, cur: nat, next: nat, ghost u: seq<nat>, ghost w: seq<nat>)
      returns (hit: bool, after: nat)
      requires Valid() && b < |buckets| && chains[b] == u + w && u != [] && w != [] && cur == End(u) && next == w[0]
               && next in keys
      modifies this`link, this`count, this`chains
      ensures Valid() && hit == Has(eq, keys, next, k) && count + (if hit then 1 else 0) == old(count)
      ensures chains == old(chains)[b := if hit then u + w[1..] else (u + [next]) + w[1..]]
      ensures after == (w[1..] + [0])[0] && (after == 0 <==> w[1..] == []) && (w[1..] != [] ==> after in keys)
    {
      hit := eq(keys[next], k);
      assert u + w == u + [next] + w[1..] == (u + [next]) + w[1..];
      if hit {
        EraseNext(b, cur, next, u, w[1..]);
        after := NextOf(cur, b, u, w[1..]);
      } else {
        after := NextOf(next, b, u + [next], w[1..]);
      }
    }

    /** The loop of `erase(key)`: everything of that key behind the first node goes. */
    method EraseBehind(k: K, b: nat, first: nat, ghost d0: seq<nat>) returns (erased: nat)
      requires Valid() && b < |buckets| && chains[b] == [first] + d0
      modifies this`link, this`count, this`chains
      ensures Valid() && chains == old(chains)[b := [first] + Without(eq, keys, d0, k)] && count + erased == old(count)
    {
      var cur := first;
      ghost var u, w := [first], d0;
      var next := NextOf(cur, b, u, w);
      erased := 0;
      ghost var left := [first] + Without(eq, keys, d0, k);
      ghost var was, n := chains, count;
      assert was[b := u + w] == was;
      while next != 0
        invariant Valid() && b < |buckets| && chains == was[b := u + w] && count + erased == n
        invariant u != [] && cur == End(u) && next == (w + [0])[0] && (next == 0 <==> w == [])
                  && (w != [] ==> next in keys)
        invariant u + Without(eq, keys, w, k) == left
        decreases |w|
      {
        var hit, after := EraseRound(k, b, cur, next, u, w);
        WithoutFirst(eq, keys, u, w, k);
        if hit {
          erased := erased + 1;
        } else {
          u := u + [next];
          cur := next;
        }
        w, next := w[1..], after;
      }
      assert u + w == u == u + Without(eq, keys, w, k);
    }

    method EraseNext(b: nat, cur: nat, next: nat, ghost u: seq<nat>, ghost w: seq<nat>)
      requires Valid() && b < |buckets| && chains[b] == u + [next] + w && u != [] && cur == End(u)
      modifies this`link, this`count, this`chains
      ensures Valid() && chains == old(chains)[b := u + w] && count + 1 == old(count)
    {
      Around(eq, hash, keys, link, unused, buckets, chains, b, u, next, w);
      TableUnlink(eq, hash, keys, link, unused, buckets, chains, b, u, next, w);
      FlatMinus(chains, b, u, next, w);
      link := link[cur := link[next]];
      chains := chains[b := u + w];
      count := count - 1;
    }

    /** `erase(key)`: all nodes of that key go, and no others. */
    method EraseKey(k: K) returns (erased: nat)
      requires Valid()
      modifies this`buckets, this`link, this`count, this`chains
      ensures Valid() && |buckets| == old(|buckets|)
      ensures chains == old(chains)[Bucket(k) := Without(eq, keys, old(chains)[Bucket(k)], k)]
      ensures forall x :: x in Flat(chains) <==> x in old(Flat(chains)) && !Has(eq, keys, x, k)
      ensures erased == old(|Flat(chains)|) - |Flat(chains)|
    {
      var b := Bucket(k);
      ghost var was, c := chains, chains[b];
      NoneElsewhere(k);
      Head(b);
      var first := buckets[b];
      erased := 0;
      if first != 0 {
        erased := EraseBehind(k, b, first, c[1..]);
        var hit := EraseFirst(k, b, first, Without(eq, keys, c[1..], k));
        erased := erased + if hit then 1 else 0;
        assert [] + Without(eq, keys, c[1..], k) == Without(eq, keys, c[1..], k);
      }
      assert chains == was[b := Without(eq, keys, c, k)];
      ErasedAll(was, b, k);
    }

    lemma Head(b: nat)
      requires Valid() && b < |buckets|
      ensures buckets[b] == 0 <==> chains[b] == []
      ensures chains[b] != [] ==> chains[b] == [buckets[b]] + chains[b][1..] && buckets[b] in keys
    {
      assert BucketOk(eq, hash, keys, link, unused, buckets, chains, b);
      assert chains[b] != [] ==> chains[b][0] in chains[b];
    }

    /** The first node of the chain goes last. */
    method EraseFirst(k: K, b: nat, first: nat, ghost d: seq<nat>) returns (hit: bool)
      requires Valid() && b < |buckets| && chains[b] == [first] + d && first in keys
      modifies this`buckets, this`link, this`count, this`chains
      ensures Valid() && hit == Has(eq, keys, first, k) && count + (if hit then 1 else 0) == old(count)
              && |buckets| == old(|buckets|)
      ensures chains == old(chains)[b := if hit then d else [first] + d]
    {
      hit := eq(keys[first], k);
      if hit {
        assert [] + [first] + d == [first] + d && [] + d == d;
        Unlink(b, 0, first, [], d);
      }
    }

    lemma ErasedAll(was: seq<seq<nat>>, b: nat, k: K)
      requires Valid() && |was| == |chains| && b == Bucket(k) && chains == was[b := Without(eq, keys, was[b], k)]
      requires forall a :: 0 <= a < |was| && a != b ==> None(eq, keys, was[a], k)
      ensures forall x :: x in Flat(chains) <==> x in Flat(was) && !Has(eq, keys, x, k)
    {
      WithoutIs(eq, keys, was[b], k);
      forall x ensures x in Flat(chains) <==> x in Flat(was) && !Has(eq, keys, x, k) {
        InFlat(chains, x);
        InFlat(was, x);
        if a :| 0 <= a < |chains| && x in chains[a] {
          assert x in was[a];
        }
        if a :| 0 <= a < |was| && x in was[a] && !Has(eq, keys, x, k) {
          assert x in chains[a];
        }
      }
    }

    /** Other buckets have nothing of a key. */
    lemma NoneElsewhere(k: K)
      requires Valid()
      ensures forall a :: 0 <= a < |chains| && a != Bucket(k) ==> None(eq, keys, chains[a], k)
    {
      Laws(eq, hash);
      forall a | 0 <= a < |chains| && a != Bucket(k) ensures None(eq, keys, chains[a], k) {
        assert BucketOk(eq, hash, keys, link, unused, buckets, chains, a);
      }
    }

    /** The end of the group that begins with `first`. */
    method GroupEnd(k: K, first: nat, ghost b: nat, ghost u: seq<nat>, ghost w: seq<nat>)
      returns (cur: nat, ghost g: seq<nat>, ghost r: seq<nat>)
      requires Valid() && b < |chains| && chains[b] == u + w && w != [] && first == w[0] && Has(eq, keys, first, k)
      ensures w == g + r && g != [] && All(eq, keys, g, k) && None(eq, keys, r, k) && cur == (r + [0])[0]
              && (cur == 0 <==> r == [])
    {
      g, r := [first], w[1..];
      assert w == g + r;
      cur := GroupNext(first, b, u, g, r);
      while cur != 0 && eq(keys[cur], k)
        invariant w == g + r && g != [] && End(g) in g && All(eq, keys, g, k) && cur == (r + [0])[0]
        invariant (cur == 0 <==> r == []) && (r != [] ==> cur in keys && cur != 0)
        decreases |r|
      {
        assert g + r == (g + [cur]) + r[1..];
        g, r := g + [cur], r[1..];
        cur := GroupNext(cur, b, u, g, r);
      }
      GroupDone(k, b, u, g, r);
    }

    method GroupNext(x: nat, ghost b: nat, ghost u: seq<nat>, ghost g: seq<nat>, ghost r: seq<nat>) returns (cur: nat)
      requires Valid() && b < |chains| && chains[b] == u + (g + r) && g != [] && x == End(g)
      ensures cur == (r + [0])[0] && (cur == 0 <==> r == []) && (r != [] ==> cur in keys && cur != 0)
    {
      assert u + (g + r) == (u + g) + r;
      cur := NextOf(x, b, u + g, r);
    }

    lemma GroupDone(k: K, b: nat, u: seq<nat>, g: seq<nat>, r: seq<nat>)
      requires Valid() && b < |chains| && chains[b] == u + (g + r) && g != [] && All(eq, keys, g, k)
               && (r != [] ==> !Has(eq, keys, r[0], k))
      ensures None(eq, keys, r, k)
    {
      assert BucketOk(eq, hash, keys, link, unused, buckets, chains, b);
      var p, x := u + g[..|g| - 1], End(g);
      assert chains[b] == p + ([x] + r) && x in g;
      GroupedTail(eq, keys, p, [x] + r);
      assert ([x] + r)[1..] == r;
      if r != [] {
        GroupEnds(eq, hash, keys, x, r, k);
      }
    }

    /** `equal_range`: exactly the nodes of key `k`, from `first` up to but not including `last`. */
    method EqualRange(k: K) returns (first: nat, last: nat, ghost u: seq<nat>, ghost g: seq<nat>, ghost w: seq<nat>)
      requires Valid()
      ensures Flat(chains) == u + g + w && None(eq, keys, u, k) && All(eq, keys, g, k) && None(eq, keys, w, k)
      ensures g == [] ==> first == last == 0
      ensures g != [] ==> first == g[0] && last == (w + [0])[0]
    {
      var b := Bucket(k);
      ghost var p, q, r;
      first, p, q := Seek(k, b);
      if first == 0 {
        last, u, g, w := 0, Flat(chains), [], [];
        assert p == chains[b] && u == u + g + w;
        NoneAnywhere(k);
        return;
      }
      last, g, r := GroupEnd(k, first, b, p, q);
      if last == 0 {
        last := FirstFrom(b + 1);
      }
      u, w := Flat(chains[..b]) + p, r + Flat(chains[b + 1..]);
      RangeFound(k, p, g, r);
      assert r == [] ==> w == Flat(chains[b + 1..]);
    }

    lemma RangeFound(k: K, p: seq<nat>, g: seq<nat>, r: seq<nat>)
      requires Valid() && chains[Bucket(k)] == p + (g + r) && None(eq, keys, p, k) && None(eq, keys, r, k)
      ensures var b := Bucket(k); var u, w := Flat(chains[..b]) + p, r + Flat(chains[b + 1..]);
              Flat(chains) == u + g + w && None(eq, keys, u, k) && None(eq, keys, w, k)
    {
      var b := Bucket(k);
      FlatAround(chains, b, chains[b]);
      assert chains[b := chains[b]] == chains;
      NoneElsewhere(k);
      NoneInFlat(chains[..b], k);
      NoneInFlat(chains[b + 1..], k);
    }

    lemma NoneInFlat(cs: seq<seq<nat>>, k: K)
      requires forall a :: 0 <= a < |cs| ==> None(eq, keys, cs[a], k)
      ensures None(eq, keys, Flat(cs), k)
    {
      forall x | x in Flat(cs) ensures !Has(eq, keys, x, k) {
        InFlat(cs, x);
        var a :| 0 <= a < |cs| && x in cs[a];
      }
    }

    /** The inner loop of `resize`: bucket `b` is emptied into the new buckets. */
    method RehashBucket(b: nat, tmp0: seq<nat>, ghost made0: seq<seq<nat>>)
      returns (tmp: seq<nat>, ghost made: seq<seq<nat>>)
      requires Hashing(eq, hash) && b < |buckets| == |chains|
               && Waiting(eq, hash, keys, link, unused, buckets, chains, b + 1)
      requires Rehashing(eq, hash, keys, link, unused, chains, b, buckets[b], chains[b], tmp0, made0)
      modifies this`link, this`buckets
      ensures |buckets| == old(|buckets|) && |tmp| == |tmp0|
              && Waiting(eq, hash, keys, link, unused, buckets, chains, b + 1)
      ensures Rehashing(eq, hash, keys, link, unused, chains, b, buckets[b], [], tmp, made)
      ensures multiset(Flat(made)) == multiset(Flat(made0)) + multiset(chains[b])
    {
      tmp, made := tmp0, made0;
      ghost var r := chains[b];
      var first := buckets[b];
      while first != 0
        invariant b < |buckets| == |chains| && |tmp| == |tmp0| && first == buckets[b]
        invariant Waiting(eq, hash, keys, link, unused, buckets, chains, b + 1)
        invariant Rehashing(eq, hash, keys, link, unused, chains, b, first, r, tmp, made)
        invariant multiset(Flat(made)) + multiset(r) == multiset(Flat(made0)) + multiset(chains[b])
        decreases |r|
      {
        tmp, made := RehashNode(b, first, r, tmp, made);
        r := r[1..];
        first := buckets[b];
      }
      RestHead(eq, hash, keys, link, unused, first, r, b, |chains|);
    }

    /** One node goes to the front of its new bucket. */
    method RehashNode(b: nat, first: nat, ghost r: seq<nat>, tmp: seq<nat>, ghost made: seq<seq<nat>>)
      returns (tmp': seq<nat>, ghost made': seq<seq<nat>>)
      requires Hashing(eq, hash) && b < |buckets| == |chains| && first != 0
               && Waiting(eq, hash, keys, link, unused, buckets, chains, b + 1)
      requires Rehashing(eq, hash, keys, link, unused, chains, b, first, r, tmp, made)
      modifies this`link, this`buckets
      ensures r != [] && |buckets| == |chains| && |tmp'| == |tmp|
              && Waiting(eq, hash, keys, link, unused, buckets, chains, b + 1)
      ensures Rehashing(eq, hash, keys, link, unused, chains, b, buckets[b], r[1..], tmp', made')
      ensures multiset(Flat(made')) + multiset(r[1..]) == multiset(Flat(made)) + multiset(r)
    {
      RestHead(eq, hash, keys, link, unused, first, r, b, |chains|);
      var j := hash(keys[first]) % |tmp|;
      RehashOne(eq, hash, keys, link, unused, chains, b, first, r, tmp, made, j);
      WaitingKept(eq, hash, keys, link, unused, buckets, chains, b + 1, first, tmp[j], link[first]);
      FlatMoved(made, j, r);
      buckets := buckets[b := link[first]];
      link := link[first := tmp[j]];
      tmp', made' := tmp[j := first], made[j := [first] + made[j]];
    }

    /**
     `resize`: the same nodes. A table with fewer than `hint` buckets gets the least size of the list that is not below
     `hint`, and if there is none the last, unless it has that many already.
     */
    method Resize(hint: nat)
      requires Valid()
      modifies this`link, this`buckets, this`chains
      ensures Valid() && multiset(Flat(chains)) == multiset(old(Flat(chains)))
      ensures hint <= old(|buckets|) || LAST_PRIME <= old(|buckets|) ==> |buckets| == old(|buckets|)
      ensures hint > old(|buckets|) && LAST_PRIME > old(|buckets|) ==>
                && |buckets| in PRIMES && |buckets| > old(|buckets|) && (hint > LAST_PRIME ==> |buckets| == LAST_PRIME)
                && (hint <= LAST_PRIME ==> |buckets| >= hint && forall q :: q in PRIMES && q >= hint ==> q >= |buckets|)
    {
      NextPrimeIsLeast(hint);
      NoLargerPrime(hint);
      var m := |buckets|;
      if hint > m {
        var n := NextPrime(hint);
        if n > m {
          Rehash(n);
        }
      }
    }

    method Rehash(n: nat)
      requires Valid() && n > 0
      modifies this`link, this`buckets, this`chains
      ensures Valid() && multiset(Flat(chains)) == multiset(old(Flat(chains))) && |buckets| == n
    {
      var tmp := seq(n, _ => 0);
      ghost var made: seq<seq<nat>> := seq(n, _ => []);
      HalfwayNone(eq, hash, keys, link, unused, buckets, chains, n);
      for b := 0 to |buckets|
        invariant chains == old(chains) && |buckets| == |chains| == old(|buckets|) && |tmp| == n
        invariant Halfway(eq, hash, keys, link, unused, buckets, chains, b, tmp, made)
      {
        HalfwayIn(eq, hash, keys, link, unused, buckets, chains, b, tmp, made);
        ghost var was := made;
        tmp, made := RehashBucket(b, tmp, made);
        HalfwayOut(eq, hash, keys, link, unused, buckets, chains, b, buckets[b], tmp, made, was);
      }
      HalfwayAll(eq, hash, keys, link, unused, buckets, chains, tmp, made);
      buckets, chains := tmp, made;
    }

    /** Iteration comes to no node twice. */
    lemma VisitedOnce()
      requires Valid()
      ensures NoRepeats(Flat(chains))
    {
      var n, h, ks := |buckets|, hash, keys;
      forall b | 0 <= b < |chains| ensures NoRepeats(chains[b])
             && forall x :: x in chains[b] ==> x in ks && h(ks[x]) % n == b {
        assert BucketOk(eq, hash, keys, link, unused, buckets, chains, b);
      }
      FlatOnce(chains, (x: nat) => if x in ks then h(ks[x]) % n else 0, 0);
    }

    /** `insert_unique`. */
    method InsertUnique(k: K) returns (x: nat, added: bool)
      requires Valid()
      modifies this`buckets, this`link, this`keys, this`count, this`unused, this`chains
      ensures Valid() && added == old(None(eq, keys, Flat(chains), k))
      ensures !added ==>
                multiset(Flat(chains)) == multiset(old(Flat(chains))) && keys == old(keys) && x in Flat(chains)
                && Has(eq, keys, x, k)
      ensures added ==>
                x !in old(Flat(chains)) && keys == old(keys)[x := k]
                && multiset(Flat(chains)) == multiset(old(Flat(chains))) + multiset{x}
      ensures old(|buckets|) >= old(count) + 1 ==> |buckets| == old(|buckets|)
      ensures old(count) + 1 <= LAST_PRIME ==> |buckets| >= old(count) + 1
      ensures |buckets| != old(|buckets|) ==>
                |buckets| in PRIMES && (old(count) + 1 <= LAST_PRIME ==>
                                          forall q :: q in PRIMES && q >= old(count) + 1 ==> q >= |buckets|)
    {
      ghost var was := Flat(chains);
      Resize(count + 1);
      SameNodes(was, Flat(chains));
      x, added := InsertUniqueNoResize(k);
    }

    /** `insert_equal`. */
    method InsertEqual(k: K) returns (x: nat)
      requires Valid()
      modifies this`buckets, this`link, this`keys, this`count, this`unused, this`chains
      ensures Valid() && x !in old(Flat(chains)) && keys == old(keys)[x := k]
      ensures multiset(Flat(chains)) == multiset(old(Flat(chains))) + multiset{x}
      ensures old(|buckets|) >= old(count) + 1 ==> |buckets| == old(|buckets|)
      ensures old(count) + 1 <= LAST_PRIME ==> |buckets| >= old(count) + 1
      ensures |buckets| != old(|buckets|) ==>
                |buckets| in PRIMES && (old(count) + 1 <= LAST_PRIME ==>
                                          forall q :: q in PRIMES && q >= old(count) + 1 ==> q >= |buckets|)
    {
      ghost var was := Flat(chains);
      Resize(count + 1);
      SameNodes(was, Flat(chains));
      ghost var front, back;
      x, front, back := InsertEqualNoResize(k);
    }

    /** `find`: a node of key `k`, or null exactly when the table has none. */
    method Find(k: K) returns (cur: nat)
      requires Valid()
      ensures cur == 0 <==> None(eq, keys, Flat(chains), k)
      ensures cur != 0 ==> cur in Flat(chains) && Has(eq, keys, cur, k)
    {
      var b := Bucket(k);
      ghost var u, w;
      cur, u, w := Seek(k, b);
      if cur == 0 {
        assert u == chains[b];
        forall x | x in Flat(chains) ensures !Has(eq, keys, x, k) {
          if Has(eq, keys, x, k) {
            OnlyThere(k, x);
          }
        }
      } else {
        assert cur in chains[b];
        InFlat(chains, cur);
      }
    }

    // ---------- a range of nodes erased ----------

    /** `_M_erase_bucket(n, last)`: the nodes of a chain before `last` go. */
    method EraseUpTo(b: nat, last: nat, ghost g0: seq<nat>, ghost w: seq<nat>)
      requires Valid() && b < |buckets| && chains[b] == g0 + w && last == (w + [0])[0]
      modifies this`buckets, this`link, this`count, this`chains
      ensures Valid() && chains == old(chains)[b := w] && |buckets| == old(|buckets|)
    {
      ghost var g := g0;
      ghost var was := chains;
      var cur := buckets[b];
      AtLast(b, g, w);
      assert chains == was[b := g + w];
      while cur != last
        invariant Valid() && |buckets| == |was| == old(|buckets|) && chains == was[b := g + w] && cur == buckets[b]
        invariant cur == last <==> g == []
        decreases |g|
      {
        assert chains[b] == g + w;
        PopHead(b, g, w);
        g := g[1..];
        cur := buckets[b];
      }
      assert g + w == w;
    }

    /** The first node of a chain goes. */
    method PopHead(b: nat, ghost g: seq<nat>, ghost w: seq<nat>)
      requires Valid() && b < |buckets| && chains[b] == g + w && g != []
      modifies this`buckets, this`link, this`count, this`chains
      ensures Valid() && chains == old(chains)[b := g[1..] + w] && |buckets| == old(|buckets|)
      ensures buckets[b] == (w + [0])[0] <==> g[1..] == []
    {
      ghost var r := g[1..] + w;
      Head(b);
      assert chains[b] == [] + [buckets[b]] + r && [] + r == r;
      Unlink(b, 0, buckets[b], [], r);
      AtLast(b, g[1..], w);
    }

    lemma AtLast(b: nat, g: seq<nat>, w: seq<nat>)
      requires Valid() && b < |buckets| && chains[b] == g + w
      ensures buckets[b] == (g + w + [0])[0] && (buckets[b] == (w + [0])[0] <==> g == [])
    {
      Head(b);
      assert BucketOk(eq, hash, keys, link, unused, buckets, chains, b);
      if g != [] {
        assert g[0] in chains[b] && chains[b][0] == g[0];
        assert w != [] ==> chains[b][|g|] == w[0];
      }
    }

    /**
     `_M_erase_bucket(n, first, last)`: from a node that is not the first of its chain on, all nodes go, whatever `last`
     is.
     */
    method EraseOnward(b: nat, first: nat, last: nat, ghost u: seq<nat>, ghost g: seq<nat>, ghost w: seq<nat>)
      requires Valid() && b < |buckets| && chains[b] == u + (g + w) && g != [] && first == g[0] && last == (w + [0])[0]
      modifies this`buckets, this`link, this`count, this`chains
      ensures Valid() && |buckets| == old(|buckets|) && chains == old(chains)[b := if u == [] then w else u]
      ensures old(buckets[b]) == first <==> u == []
    {
      FirstInChain(b, first, u, g, w);
      if buckets[b] == first {
        assert u + (g + w) == g + w;
        EraseUpTo(b, last, g, w);
      } else {
        assert first in chains[b];
        ghost var u', w';
        var before;
        before, u', w' := Predecessor(first, b);
        OnePlace(chains[b], u, u', first, (g + w)[1..], w');
        EraseTail(b, before, u, g + w);
      }
    }

    lemma FirstInChain(b: nat, first: nat, u: seq<nat>, g: seq<nat>, w: seq<nat>)
      requires Valid() && b < |buckets| && chains[b] == u + (g + w) && g != [] && first == g[0]
      ensures buckets[b] == first <==> u == []
      ensures chains[b] == u + [first] + (g + w)[1..] && NoRepeats(chains[b])
    {
      Head(b);
      assert BucketOk(eq, hash, keys, link, unused, buckets, chains, b);
      assert chains[b][|u|] == first;
    }

    method EraseTail(b: nat, before: nat, ghost u: seq<nat>, ghost r0: seq<nat>)
      requires Valid() && b < |buckets| && chains[b] == u + r0 && u != [] && before == End(u)
      modifies this`link, this`count, this`chains
      ensures Valid() && chains == old(chains)[b := u]
    {
      ghost var r := r0;
      ghost var was := chains;
      assert chains == was[b := u + r];
      var next := NextOf(before, b, u, r);
      while next != 0
        invariant Valid() && |buckets| == |was| && chains == was[b := u + r] && next == (r + [0])[0]
                  && (next == 0 <==> r == [])
        decreases |r|
      {
        assert u + r == u + [r[0]] + r[1..];
        EraseNext(b, before, next, u, r[1..]);
        r := r[1..];
        next := NextOf(before, b, u, r);
      }
      assert u + r == u;
    }

    /** The bucket of a node, one past the last for null. */
    function BucketOf(x: nat): nat
      requires |buckets| > 0 && (x != 0 ==> x in keys)
      reads this
    {
      if x == 0 then |buckets| else Bucket(keys[x])
    }

    /** When `erase(first, last)` does what it should. */
    predicate RangeErasable(first: nat, last: nat)
      requires |buckets| > 0 && (first != 0 ==> first in keys) && (last != 0 ==> last in keys)
      reads this
    {
      first == last || BucketOf(first) != BucketOf(last) || (first != 0 && buckets[BucketOf(first)] == first)
    }

    /** The nodes in the chains after that of node `x`. */
    ghost function LaterChains(x: nat): seq<nat>
      requires |buckets| > 0 && (x != 0 ==> x in keys)
      reads this
    {
      if BucketOf(x) < |chains| then Flat(chains[BucketOf(x) + 1..]) else []
    }

    method EraseBetween(fb: nat, lb: nat)
      requires Valid() && fb < lb <= |buckets|
      modifies this`buckets, this`link, this`count, this`chains
      ensures Valid() && |buckets| == old(|buckets|) && chains == Cleared(old(chains), fb + 1, lb)
    {
      ghost var was := chains;
      var n := fb + 1;
      assert chains == Cleared(was, fb + 1, n);
      while n < lb
        invariant fb + 1 <= n <= lb && Valid() && |buckets| == |was| == old(|buckets|)
                  && chains == Cleared(was, fb + 1, n)
      {
        assert chains[n] == chains[n] + [];
        EraseUpTo(n, 0, chains[n], []);
        ClearedNext(was, fb + 1, n);
        n := n + 1;
      }
    }

    /** A range that begins and ends in one chain, `u + (g + w)`. */
    method EraseWithin(b: nat, first: nat, last: nat, ghost u: seq<nat>, ghost g: seq<nat>, ghost w: seq<nat>)
      requires Valid() && b < |buckets| && chains[b] == u + (g + w) && g != [] && w != [] && first == g[0]
               && last == w[0]
      modifies this`buckets, this`link, this`count, this`chains
      ensures Valid() && |buckets| == old(|buckets|) && (old(buckets[b]) == first <==> u == [])
      ensures var before, after := Flat(old(chains)[..b]), Flat(old(chains)[b + 1..]);
              Flat(chains) == if u == [] then before + (w + after) else before + u + after
    {
      EraseOnward(b, first, last, u, g, w);
      FlatAround(old(chains), b, if u == [] then w else u);
    }

    /** A range that begins in one chain, `u + g`, and ends in a later one, `g' + w`, or at the end. */
    method EraseAcross(fb: nat, first: nat, lb: nat, last: nat, ghost u: seq<nat>, ghost g: seq<nat>,
                       ghost g': seq<nat>, ghost w: seq<nat>)
      requires Valid() && fb < lb <= |buckets| && chains[fb] == u + g && g != [] && first == g[0]
      requires lb < |buckets| ==> chains[lb] == g' + w && last == (w + [0])[0]
      modifies this`buckets, this`link, this`count, this`chains
      ensures Valid() && |buckets| == old(|buckets|)
      ensures lb == |buckets| ==> Flat(chains) == Flat(old(chains)[..fb]) + u
      ensures lb < |buckets| ==> Flat(chains) == Flat(old(chains)[..fb]) + u + (w + Flat(old(chains)[lb + 1..]))
    {
      ghost var was := chains;
      assert u + (g + []) == u + g;
      EraseOnward(fb, first, 0, u, g, []);
      EraseBetween(fb, lb);
      FlatAcross(was, fb, u, lb, w);
      if lb != |buckets| {
        EraseUpTo(lb, last, g', w);
      }
    }

    /**
     `erase(first, last)`, for the stretch `g` of the order of iteration `u + g + w`: what is left is `u + w` if and
     only if the range is empty, or ends in another chain, or begins at the head of its chain. Otherwise the rest of the
     chain goes.
     */
    method EraseRange(first: nat, last: nat, ghost u: seq<nat>, ghost g: seq<nat>, ghost w: seq<nat>)
      requires Valid() && Flat(chains) == u + g + w && first == (g + w + [0])[0] && last == (w + [0])[0]
      requires (first != 0 ==> first in keys) && (last != 0 ==> last in keys)
      modifies this`buckets, this`link, this`count, this`chains
      ensures Valid() && |buckets| == old(|buckets|)
      ensures Flat(chains) == u + w <==> old(RangeErasable(first, last))
      ensures !old(RangeErasable(first, last)) ==> Flat(chains) == u + old(LaterChains(first))
    {
      DifferentEnds(u, g, w);
      if first == last {
        assert u + g + w == u + w;
        return;
      }
      var fb, lb := BucketOf(first), BucketOf(last);
      ghost var i, j := PlaceOfRange(u, g, w);
      ghost var c := chains[fb];
      if last == 0 {
        EraseAcross(fb, first, lb, last, c[..i], c[i..], [], []);
      } else if fb == lb {
        CutTwice(c, i, j);
        SameLengths(u, c[..i], Flat(chains[..fb]), c[j..], Flat(chains[fb + 1..]), w);
        EraseWithin(fb, first, last, c[..i], c[i..j], c[j..]);
      } else {
        ghost var d := chains[lb];
        CutTwice(d, 0, j);
        EraseAcross(fb, first, lb, last, c[..i], c[i..], d[..j], d[j..]);
      }
    }

    lemma DifferentEnds(u: seq<nat>, g: seq<nat>, w: seq<nat>)
      requires Valid() && Flat(chains) == u + g + w
      ensures (g + w + [0])[0] == (w + [0])[0] <==> g == []
      ensures g != [] ==> (g + w + [0])[0] != 0
      ensures w == [] <==> (w + [0])[0] == 0
    {
      VisitedOnce();
      var f := Flat(chains);
      if g != [] {
        assert f[|u|] == g[0] && g[0] in f;
        var b := WhereIs(g[0]);
      }
      if w != [] {
        assert f[|u| + |g|] == w[0] && w[0] in f;
        var b := WhereIs(w[0]);
      }
    }

    /** Where the range begins in its chain, and where what follows it begins in its own. */
    lemma PlaceOfRange(u: seq<nat>, g: seq<nat>, w: seq<nat>) returns (i: nat, j: nat)
      requires Valid() && Flat(chains) == u + g + w && g != [] && g[0] in keys && (w != [] ==> w[0] in keys)
      ensures var fb := Bucket(keys[g[0]]); var c := chains[fb];
              && i < |c| && c[i] == g[0] && u == Flat(chains[..fb]) + c[..i]
              && (w != [] ==> var lb := Bucket(keys[w[0]]); var d := chains[lb];
                    && fb <= lb && j < |d| && d[j] == w[0] && (fb == lb ==> i < j)
                       && w == d[j..] + Flat(chains[lb + 1..]))
    {
      var f := Flat(chains);
      var fb;
      fb, i := FlatPlace(chains, |u|);
      InBucket(fb, i, |u|);
      Cuts(u, g, w);
      j := 0;
      if w != [] {
        var lb;
        lb, j := FlatPlace(chains, |u| + |g|);
        InBucket(lb, j, |u| + |g|);
        PlacesInOrder(chains, fb, i, lb, j);
      }
    }

    lemma InBucket(b: nat, j: nat, i: nat)
      requires Valid() && b < |chains| && j < |chains[b]| && i < |Flat(chains)|
               && Flat(chains)[i..] == chains[b][j..] + Flat(chains[b + 1..])
      ensures chains[b][j] == Flat(chains)[i] && chains[b][j] in keys && Bucket(keys[chains[b][j]]) == b
    {
      assert BucketOk(eq, hash, keys, link, unused, buckets, chains, b);
      assert chains[b][j] in chains[b] && Flat(chains)[i..][0] == chains[b][j..][0];
    }
  }

  lemma Cuts(u: seq<nat>, g: seq<nat>, w: seq<nat>)
    requires g != []
    ensures var f := u + g + w;
            && f[..|u|] == u && f[|u|] == g[0]
            && (w != [] ==> f[|u| + |g|] == w[0] && f[|u| + |g|..] == w)
  {
  }

  lemma CutTwice(c: seq<nat>, i: nat, j: nat)
    requires i <= j <= |c|
    ensures c == c[..i] + (c[i..j] + c[j..]) == c[..j] + c[j..]
  {
  }

  /** With the rest of its chain gone, less than `u + w` is left. */
  lemma SameLengths(u: seq<nat>, x: seq<nat>, before: seq<nat>, y: seq<nat>, after: seq<nat>, w: seq<nat>)
    requires u == before + x && w == y + after && y != []
    ensures before + x + after == u + after != u + w && (x == [] ==> before + (y + after) == u + w)
  {
    assert |before + x + after| != |u + w|;
  }

  /** Three keys in the first bucket, the third in front, and no others. */
  ghost predicate ThreeInOneChain(t: HashTable<nat>)
    reads t
  {
    && t.Valid() && t.chains == seq(|t.buckets|, _ => [])[0 := [3, 2, 1]] && t.keys == map[1 := 10, 2 := 20, 3 := 30]
    && t.Bucket(10) == t.Bucket(20) == t.Bucket(30) == 0
  }

  method MakeThree() returns (t: HashTable<nat>)
    ensures fresh(t) && ThreeInOneChain(t)
  {
    t := new HashTable((a, b) => a == b, k => 0, 0);
    FirstBucket(|t.buckets|);
    PushThree(t);
  }

  /** Three nodes in one chain, of which the range of the second alone is erased: only the first is left. */
  method RangeEraseLosesNodes() returns (t: HashTable<nat>, ghost was: seq<nat>)
    ensures fresh(t) && t.Valid() && was == [3, 2, 1] && Flat(t.chains) == [3]
  {
    t := MakeThree();
    was := Flat(t.chains);
    FlatOfThree(t);
    t.Head(0);
    assert [3, 2, 1] == [3] + [2] + [1];
    t.EraseRange(2, 1, [3], [2], [1]);
  }

  lemma FlatOfThree(t: HashTable<nat>)
    requires ThreeInOneChain(t)
    ensures Flat(t.chains) == [3, 2, 1] && Flat(t.chains[1..]) == [] && t.chains[0][0] == 3
  {
    assert t.chains[1..] == seq(|t.buckets| - 1, _ => []);
    FlatEmpty(t.chains[1..]);
    assert Flat(t.chains) == t.chains[0] + Flat(t.chains[1..]);
  }

  lemma FirstBucket(n: nat)
    requires n > 0
    ensures 0 % n == 0
  {
  }

  method PushThree(t: HashTable<nat>)
    requires t.Valid() && t.unused == 1 && t.keys == map[] && t.chains == seq(|t.buckets|, _ => [])
    requires t.Bucket(10) == 0 && t.Bucket(20) == 0 && t.Bucket(30) == 0 && !t.eq(10, 20) && !t.eq(10, 30)
             && !t.eq(20, 30)
    modifies t
    ensures t.Valid() && |t.buckets| == old(|t.buckets|) && t.chains == seq(|t.buckets|, _ => [])[0 := [3, 2, 1]]
            && t.keys == map[1 := 10, 2 := 20, 3 := 30]
  {
    assert t.chains == t.chains[0 := []] && [1] + [] == [1] && [2] + [1] == [2, 1] && [3] + [2, 1] == [3, 2, 1];
    PushOne(t, 10, []);
    PushOne(t, 20, [1]);
    PushOne(t, 30, [2, 1]);
  }

  /** A key in front of the first chain, which is `c`; the others are empty. */
  method PushOne(t: HashTable<nat>, k: nat, ghost c: seq<nat>)
    requires t.Valid() && t.chains == seq(|t.buckets|, _ => [])[0 := c] && t.Bucket(k) == 0 && None(t.eq, t.keys, c, k)
    modifies t
    ensures t.Valid() && |t.buckets| == old(|t.buckets|) && t.unused == old(t.unused) + 1
    ensures t.chains == seq(|t.buckets|, _ => [])[0 := [old(t.unused)] + c] && t.keys == old(t.keys)[old(t.unused) := k]
  {
    var x := t.PushFront(k, 0);
  }
}
