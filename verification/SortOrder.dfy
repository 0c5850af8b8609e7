/** Sorted sequences, rearrangements of a range, and stable insertion. */
module SortOrder {
  import opened Order

  ghost predicate Sorted<T>(lt: (T, T) -> bool, s: seq<T>) {
    forall i, j :: 0 <= i < j < |s| ==> !lt(s[j], s[i])
  }

  /** `t` is `s` with the elements of the range `lo..hi` permuted among themselves. */
  ghost predicate Rearranged<T>(s: seq<T>, t: seq<T>, lo: nat, hi: nat) {
    && lo <= hi <= |s| == |t| && multiset(s[lo..hi]) == multiset(t[lo..hi])
    && s[..lo] == t[..lo] && s[hi..] == t[hi..]
  }

  /** A range replaced by a permutation of it. */
  lemma RearrangedBy<T>(s: seq<T>, t: seq<T>, lo: nat, hi: nat, r: seq<T>)
    requires lo <= hi <= |s| && t == s[..lo] + r + s[hi..] && multiset(r) == multiset(s[lo..hi])
    ensures Rearranged(s, t, lo, hi) && t[lo..hi] == r
  {
    assert |multiset(r)| == |multiset(s[lo..hi])|;
  }

  // ---------- stable insertion ----------

  /** `v` goes behind the last element of `s` that it does not precede. */
  function Insert<T>(lt: (T, T) -> bool, s: seq<T>, v: T): seq<T>
    decreases |s|
  {
    if s == [] || !lt(v, s[|s| - 1]) then s + [v] else Insert(lt, s[..|s| - 1], v) + [s[|s| - 1]]
  }

  /** The elements of `rest` are inserted one after the other. */
  function InsertAll<T>(lt: (T, T) -> bool, s: seq<T>, rest: seq<T>): seq<T>
    decreases |rest|
  {
    if rest == [] then s else InsertAll(lt, Insert(lt, s, rest[0]), rest[1..])
  }

  lemma {:induction false} InsertSorts<T(!new)>(lt: (T, T) -> bool, s: seq<T>, v: T)
    requires StrictWeakOrder(lt) && Sorted(lt, s)
    ensures Sorted(lt, Insert(lt, s, v)) && multiset(Insert(lt, s, v)) == multiset(s + [v])
    decreases |s|
  {
    if s == [] {
    } else if !lt(v, s[|s| - 1]) {
      SortedSnoc(lt, s, v);
    } else {
      var p, z := s[..|s| - 1], s[|s| - 1];
      InsertSorts(lt, p, v);
      assert s == p + [z];
      var q := Insert(lt, p, v);
      forall x | x in q ensures !lt(z, x) {
        assert x in multiset(p + [v]);
      }
      SortedSnoc(lt, q, z);
    }
  }

  lemma SortedSnoc<T(!new)>(lt: (T, T) -> bool, s: seq<T>, v: T)
    requires StrictWeakOrder(lt) && Sorted(lt, s)
    requires (s != [] ==> !lt(v, s[|s| - 1])) || (forall x :: x in s ==> !lt(v, x))
    ensures Sorted(lt, s + [v])
  {
    var t := s + [v];
    forall i, j | 0 <= i < j < |t| ensures !lt(t[j], t[i]) {
      if j == |s| && i < |s| - 1 {
        assert !lt(s[|s| - 1], s[i]);
      }
      assert t[i] == s[i] && s[i] in s;
    }
  }

  lemma {:induction false} InsertAllSorts<T(!new)>(lt: (T, T) -> bool, s: seq<T>, rest: seq<T>)
    requires StrictWeakOrder(lt) && Sorted(lt, s)
    ensures Sorted(lt, InsertAll(lt, s, rest)) && multiset(InsertAll(lt, s, rest)) == multiset(s) + multiset(rest)
    decreases |rest|
  {
    if rest != [] {
      InsertSorts(lt, s, rest[0]);
      InsertAllSorts(lt, Insert(lt, s, rest[0]), rest[1..]);
      assert rest == [rest[0]] + rest[1..];
    }
  }

  lemma {:induction false} InsertAllThen<T>(lt: (T, T) -> bool, s: seq<T>, u: seq<T>, w: seq<T>)
    ensures InsertAll(lt, s, u + w) == InsertAll(lt, InsertAll(lt, s, u), w)
    decreases |u|
  {
    if u == [] {
      assert u + w == w;
    } else {
      InsertAllThen(lt, Insert(lt, s, u[0]), u[1..], w);
      assert (u + w)[1..] == u[1..] + w;
    }
  }

  /** A least element stays in front. */
  lemma {:induction false} InsertBehind<T>(lt: (T, T) -> bool, s: seq<T>, v: T)
    requires s != [] && !lt(v, s[0])
    ensures Insert(lt, s, v) != [] && Insert(lt, s, v)[0] == s[0]
    decreases |s|
  {
    if lt(v, s[|s| - 1]) {
      InsertBehind(lt, s[..|s| - 1], v);
    }
  }

  lemma {:induction false} InsertLength<T>(lt: (T, T) -> bool, s: seq<T>, v: T)
    ensures |Insert(lt, s, v)| == |s| + 1
    decreases |s|
  {
    if s != [] && lt(v, s[|s| - 1]) {
      InsertLength(lt, s[..|s| - 1], v);
    }
  }

  /** Below a sorted tail that `v` precedes, insertion goes on. */
  lemma {:induction false} InsertBelow<T(!new)>(lt: (T, T) -> bool, p: seq<T>, q: seq<T>, v: T)
    requires forall x :: x in q ==> lt(v, x)
    ensures Insert(lt, p + q, v) == Insert(lt, p, v) + q
    decreases |q|
  {
    if q == [] {
      assert p + q == p;
    } else {
      var z := q[|q| - 1];
      InsertBelow(lt, p, q[..|q| - 1], v);
      assert (p + q)[..|p + q| - 1] == p + q[..|q| - 1];
      assert q == q[..|q| - 1] + [z] && z in q;
    }
  }
}
