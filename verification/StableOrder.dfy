/** Stable sorting and merging on values: what all forms of `stable_sort` and `inplace_merge` are to produce. */
module StableOrder {
  import opened Order
  import opened SortOrder

  // ---------- stability ----------

  /** The elements of `s` equivalent to `x`, in their order. */
  function Class<T>(lt: (T, T) -> bool, s: seq<T>, x: T): seq<T>
    decreases |s|
  {
    if s == [] then [] else (if Equiv(lt, s[0], x) then [s[0]] else []) + Class(lt, s[1..], x)
  }

  /** `r` is `s` sorted, equivalent elements in their order. */
  ghost predicate StablySorted<T(!new)>(lt: (T, T) -> bool, s: seq<T>, r: seq<T>) {
    Sorted(lt, r) && forall x :: Class(lt, r, x) == Class(lt, s, x)
  }

  lemma {:induction false} ClassConcat<T>(lt: (T, T) -> bool, s: seq<T>, t: seq<T>, x: T)
    ensures Class(lt, s + t, x) == Class(lt, s, x) + Class(lt, t, x)
    decreases |s|
  {
    if s == [] {
      assert s + t == t;
    } else {
      ClassConcat(lt, s[1..], t, x);
      assert (s + t)[0] == s[0] && (s + t)[1..] == s[1..] + t;
      Grouped(if Equiv(lt, s[0], x) then [s[0]] else [], Class(lt, s[1..], x), Class(lt, t, x));
    }
  }

  lemma Grouped<T>(a: seq<T>, b: seq<T>, c: seq<T>)
    ensures a + (b + c) == (a + b) + c
  {
  }

  lemma {:induction false} ClassFrom<T>(lt: (T, T) -> bool, s: seq<T>, x: T)
    ensures forall y :: y in Class(lt, s, x) ==> y in s && Equiv(lt, y, x)
    decreases |s|
  {
    if s != [] {
      ClassFrom(lt, s[1..], x);
    }
  }

  /** Only one sequence is `s` stably sorted. */
  lemma {:induction false} StableUnique<T(!new)>(lt: (T, T) -> bool, r: seq<T>, q: seq<T>)
    requires StrictWeakOrder(lt) && Sorted(lt, r) && Sorted(lt, q) && forall x :: Class(lt, r, x) == Class(lt, q, x)
    ensures r == q
    decreases |r|
  {
    if r == [] || q == [] {
      NoClasses(lt, if r == [] then q else r);
    } else {
      SameFirst(lt, r, q);
      assert Sorted(lt, r[1..]) && Sorted(lt, q[1..]);
      forall x ensures Class(lt, r[1..], x) == Class(lt, q[1..], x) {
        assert Class(lt, r, x) == Class(lt, q, x);
        var head := if Equiv(lt, r[0], x) then [r[0]] else [];
        assert (head + Class(lt, r[1..], x))[|head|..] == Class(lt, r[1..], x);
        assert (head + Class(lt, q[1..], x))[|head|..] == Class(lt, q[1..], x);
      }
      StableUnique(lt, r[1..], q[1..]);
    }
  }

  lemma NoClasses<T(!new)>(lt: (T, T) -> bool, r: seq<T>)
    requires StrictWeakOrder(lt) && forall x :: Class(lt, r, x) == []
    ensures r == []
  {
    if r != [] {
      OwnClass(lt, r);
    }
  }

  lemma OwnClass<T(!new)>(lt: (T, T) -> bool, r: seq<T>)
    requires StrictWeakOrder(lt) && r != []
    ensures Class(lt, r, r[0]) != [] && Class(lt, r, r[0])[0] == r[0]
  {
    assert Equiv(lt, r[0], r[0]);
  }

  lemma FirstIn<T(!new)>(lt: (T, T) -> bool, r: seq<T>, x: T)
    requires StrictWeakOrder(lt) && Sorted(lt, r) && r != [] && Class(lt, r, x) != []
    ensures !lt(x, r[0])
  {
    ClassFrom(lt, r, x);
    var y := Class(lt, r, x)[0];
    assert y in Class(lt, r, x) && y in r;
    var i :| 0 <= i < |r| && r[i] == y;
    assert i == 0 || !lt(r[i], r[0]);
  }

  lemma SameFirst<T(!new)>(lt: (T, T) -> bool, r: seq<T>, q: seq<T>)
    requires StrictWeakOrder(lt) && Sorted(lt, r) && Sorted(lt, q) && r != [] && q != []
    requires forall x :: Class(lt, r, x) == Class(lt, q, x)
    ensures r[0] == q[0]
  {
    var a, b := r[0], q[0];
    OwnClass(lt, r);
    OwnClass(lt, q);
    assert Class(lt, r, b) == Class(lt, q, b) && Class(lt, q, a) == Class(lt, r, a);
    FirstIn(lt, r, b);
    FirstIn(lt, q, a);
    assert Equiv(lt, b, a);
    assert Class(lt, q, a)[0] == b;
  }

  // ---------- insertion is stable ----------

  lemma {:induction false} InsertStable<T(!new)>(lt: (T, T) -> bool, s: seq<T>, v: T, x: T)
    requires StrictWeakOrder(lt)
    ensures Class(lt, Insert(lt, s, v), x) == Class(lt, s + [v], x)
    decreases |s|
  {
    if s != [] && lt(v, s[|s| - 1]) {
      var p, z := s[..|s| - 1], s[|s| - 1];
      InsertStable(lt, p, v, x);
      assert s == p + [z];
      PassedBy(lt, p, v, z, Insert(lt, p, v), x);
    }
  }

  /** Going in front of a greater element does not change the order of the equivalent ones. */
  lemma PassedBy<T(!new)>(lt: (T, T) -> bool, p: seq<T>, v: T, z: T, q: seq<T>, x: T)
    requires StrictWeakOrder(lt) && lt(v, z) && Class(lt, q, x) == Class(lt, p + [v], x)
    ensures Class(lt, q + [z], x) == Class(lt, (p + [z]) + [v], x)
  {
    ClassConcat(lt, q, [z], x);
    ClassConcat(lt, p, [v], x);
    ClassConcat(lt, p + [z], [v], x);
    ClassConcat(lt, p, [z], x);
    NotBoth(lt, v, z, x);
    Exchange(Class(lt, p, x), Class(lt, [v], x), Class(lt, [z], x));
  }

  lemma Exchange<T>(p: seq<T>, v: seq<T>, z: seq<T>)
    requires v + z == z + v
    ensures (p + v) + z == (p + z) + v
  {
    assert (p + v) + z == p + (v + z);
    assert (p + z) + v == p + (z + v);
  }

  lemma NotBoth<T(!new)>(lt: (T, T) -> bool, v: T, z: T, x: T)
    requires StrictWeakOrder(lt) && lt(v, z)
    ensures Class(lt, [v], x) == [] || Class(lt, [z], x) == []
    ensures Class(lt, [v], x) + Class(lt, [z], x) == Class(lt, [z], x) + Class(lt, [v], x)
  {
    assert !Equiv(lt, v, x) || !Equiv(lt, z, x);
    assert [v][1..] == [] && [z][1..] == [];
  }

  lemma {:induction false} InsertAllStable<T(!new)>(lt: (T, T) -> bool, s: seq<T>, rest: seq<T>, x: T)
    requires StrictWeakOrder(lt)
    ensures Class(lt, InsertAll(lt, s, rest), x) == Class(lt, s, x) + Class(lt, rest, x)
    decreases |rest|
  {
    if rest != [] {
      InsertStable(lt, s, rest[0], x);
      InsertAllStable(lt, Insert(lt, s, rest[0]), rest[1..], x);
      ClassConcat(lt, s, [rest[0]], x);
      ClassConcat(lt, [rest[0]], rest[1..], x);
      assert rest == [rest[0]] + rest[1..];
    }
  }

  /** Insertion sort is a stable sort; it serves as the reference for all others. */
  function StableSort<T>(lt: (T, T) -> bool, s: seq<T>): seq<T> {
    InsertAll(lt, [], s)
  }

  lemma StableSortIsStable<T(!new)>(lt: (T, T) -> bool, s: seq<T>)
    requires StrictWeakOrder(lt)
    ensures StablySorted(lt, s, StableSort(lt, s)) && multiset(StableSort(lt, s)) == multiset(s)
            && |StableSort(lt, s)| == |s|
  {
    InsertAllSorts(lt, [], s);
    assert |multiset(StableSort(lt, s))| == |multiset(s)|;
    forall x ensures Class(lt, StableSort(lt, s), x) == Class(lt, s, x) {
      InsertAllStable(lt, [], s, x);
    }
  }

  // ---------- merging ----------

  /** The stable merge: of equivalent elements, those of `s` come first (headers/cpp/stl_algo.h:1960-1977). */
  function Merge<T>(lt: (T, T) -> bool, s: seq<T>, t: seq<T>): (r: seq<T>)
    ensures |r| == |s| + |t|
    decreases |s| + |t|
  {
    if s == [] then t
    else if t == [] then s
    else if lt(t[0], s[0]) then [t[0]] + Merge(lt, s, t[1..])
    else [s[0]] + Merge(lt, s[1..], t)
  }

  lemma MergeTakes<T>(lt: (T, T) -> bool, out: seq<T>, s: seq<T>, t: seq<T>)
    requires s != [] && t != []
    ensures out + Merge(lt, s, t) == if lt(t[0], s[0]) then (out + [t[0]]) + Merge(lt, s, t[1..])
                                     else (out + [s[0]]) + Merge(lt, s[1..], t)
  {
  }

  /** `s` may stay before `t` in a merge: nothing in `t` precedes anything in `s`. */
  ghost predicate Keeps<T>(lt: (T, T) -> bool, s: seq<T>, t: seq<T>) {
    forall x, y :: x in s && y in t ==> !lt(y, x)
  }

  /** `t` must come before `s`. */
  ghost predicate Precedes<T>(lt: (T, T) -> bool, t: seq<T>, s: seq<T>) {
    forall x, y :: x in s && y in t ==> lt(y, x)
  }

  /** A merge falls apart where both parts are cut at the same value. */
  lemma {:induction false} MergeApart<T(!new)>(lt: (T, T) -> bool, s1: seq<T>, s2: seq<T>, t1: seq<T>, t2: seq<T>)
    requires StrictWeakOrder(lt) && Keeps(lt, s1, t2) && Precedes(lt, t1, s2)
    ensures Merge(lt, s1 + s2, t1 + t2) == Merge(lt, s1, t1) + Merge(lt, s2, t2)
    decreases |s1| + |t1|
  {
    var a, b, w := Merge(lt, s1, t1), Merge(lt, s2, t2), Merge(lt, s1 + s2, t1 + t2);
    if s1 == [] && t1 == [] {
      assert s1 + s2 == s2 && t1 + t2 == t2;
    } else if s1 == [] || (t1 != [] && lt(t1[0], s1[0])) {
      TakeSecond(lt, s1, s2, t1, t2);
      MergeApart(lt, s1, s2, t1[1..], t2);
      Associate([t1[0]], Merge(lt, s1, t1[1..]), b);
    } else {
      TakeFirst(lt, s1, s2, t1, t2);
      MergeApart(lt, s1[1..], s2, t1, t2);
      Associate([s1[0]], Merge(lt, s1[1..], t1), b);
    }
  }

  lemma TakeSecond<T(!new)>(lt: (T, T) -> bool, s1: seq<T>, s2: seq<T>, t1: seq<T>, t2: seq<T>)
    requires t1 != [] && Precedes(lt, t1, s2) && (s1 == [] || lt(t1[0], s1[0]))
    ensures Merge(lt, s1 + s2, t1 + t2) == [t1[0]] + Merge(lt, s1 + s2, t1[1..] + t2)
    ensures Merge(lt, s1, t1) == [t1[0]] + Merge(lt, s1, t1[1..])
  {
    assert (t1 + t2)[1..] == t1[1..] + t2;
    assert t1 + t2 == [t1[0]] + (t1[1..] + t2);
    var s := s1 + s2;
    if s != [] {
      assert t1[0] in t1 && (s1 == [] ==> s[0] == s2[0] && s2[0] in s2);
    }
  }

  lemma TakeFirst<T(!new)>(lt: (T, T) -> bool, s1: seq<T>, s2: seq<T>, t1: seq<T>, t2: seq<T>)
    requires s1 != [] && Keeps(lt, s1, t2) && (t1 == [] || !lt(t1[0], s1[0]))
    ensures Merge(lt, s1 + s2, t1 + t2) == [s1[0]] + Merge(lt, s1[1..] + s2, t1 + t2)
    ensures Merge(lt, s1, t1) == [s1[0]] + Merge(lt, s1[1..], t1)
  {
    assert (s1 + s2)[1..] == s1[1..] + s2;
    assert s1 + s2 == [s1[0]] + (s1[1..] + s2);
    var t := t1 + t2;
    if t != [] {
      assert s1[0] in s1 && (t1 == [] ==> t[0] == t2[0] && t2[0] in t2);
    }
  }

  lemma {:induction false} MergeKeeps<T>(lt: (T, T) -> bool, s: seq<T>, t: seq<T>)
    ensures multiset(Merge(lt, s, t)) == multiset(s) + multiset(t)
    decreases |s| + |t|
  {
    if s != [] && t != [] {
      assert s == [s[0]] + s[1..] && t == [t[0]] + t[1..];
      if lt(t[0], s[0]) {
        MergeKeeps(lt, s, t[1..]);
      } else {
        MergeKeeps(lt, s[1..], t);
      }
    }
  }

  lemma {:induction false} MergeSorts<T(!new)>(lt: (T, T) -> bool, s: seq<T>, t: seq<T>)
    requires StrictWeakOrder(lt) && Sorted(lt, s) && Sorted(lt, t)
    ensures Sorted(lt, Merge(lt, s, t))
    decreases |s| + |t|
  {
    if s != [] && t != [] {
      if lt(t[0], s[0]) {
        MergeSorts(lt, s, t[1..]);
        LeastOf(lt, t[0], s, t[1..]);
        SortedCons(lt, t[0], Merge(lt, s, t[1..]));
      } else {
        MergeSorts(lt, s[1..], t);
        LeastOf(lt, s[0], s[1..], t);
        SortedCons(lt, s[0], Merge(lt, s[1..], t));
      }
    }
  }

  lemma LeastOf<T(!new)>(lt: (T, T) -> bool, x: T, s: seq<T>, t: seq<T>)
    requires StrictWeakOrder(lt) && Sorted(lt, s) && Sorted(lt, t)
    requires (s != [] ==> !lt(s[0], x)) && (t != [] ==> !lt(t[0], x))
    requires forall y :: y in s ==> !lt(y, x)
    requires forall y :: y in t ==> !lt(y, x)
    ensures forall y :: y in Merge(lt, s, t) ==> !lt(y, x)
  {
    MergeKeeps(lt, s, t);
    forall y | y in Merge(lt, s, t) ensures !lt(y, x) {
      assert y in multiset(Merge(lt, s, t));
    }
  }

  lemma SortedCons<T(!new)>(lt: (T, T) -> bool, x: T, s: seq<T>)
    requires Sorted(lt, s) && forall y :: y in s ==> !lt(y, x)
    ensures Sorted(lt, [x] + s)
  {
  }

  lemma {:induction false} MergeStable<T(!new)>(lt: (T, T) -> bool, s: seq<T>, t: seq<T>, x: T)
    requires StrictWeakOrder(lt) && Sorted(lt, s)
    ensures Class(lt, Merge(lt, s, t), x) == Class(lt, s, x) + Class(lt, t, x)
    decreases |s| + |t|
  {
    if s != [] && t != [] {
      if lt(t[0], s[0]) {
        MergeStable(lt, s, t[1..], x);
        Overtakes(lt, s, t[0], x);
        Commute(Class(lt, [t[0]], x), Class(lt, s, x), Class(lt, t[1..], x));
        ClassHead(lt, Merge(lt, s, t), x);
        ClassHead(lt, t, x);
        assert Merge(lt, s, t)[1..] == Merge(lt, s, t[1..]);
      } else {
        MergeStable(lt, s[1..], t, x);
        ClassHead(lt, Merge(lt, s, t), x);
        ClassHead(lt, s, x);
        assert Merge(lt, s, t)[1..] == Merge(lt, s[1..], t);
        Associate(Class(lt, [s[0]], x), Class(lt, s[1..], x), Class(lt, t, x));
      }
    }
  }

  lemma ClassHead<T>(lt: (T, T) -> bool, s: seq<T>, x: T)
    requires s != []
    ensures Class(lt, s, x) == Class(lt, [s[0]], x) + Class(lt, s[1..], x)
  {
    assert [s[0]][1..] == [];
  }

  lemma Associate<T>(a: seq<T>, b: seq<T>, c: seq<T>)
    ensures a + (b + c) == (a + b) + c
  {
  }

  lemma Commute<T>(a: seq<T>, b: seq<T>, c: seq<T>)
    requires a + b == b + a
    ensures a + (b + c) == b + (a + c)
  {
    assert a + (b + c) == (a + b) + c;
    assert b + (a + c) == (b + a) + c;
  }

  /** An element overtakes only elements of other classes. */
  lemma Overtakes<T(!new)>(lt: (T, T) -> bool, s: seq<T>, y: T, x: T)
    requires StrictWeakOrder(lt) && Sorted(lt, s) && s != [] && lt(y, s[0])
    ensures Class(lt, [y], x) + Class(lt, s, x) == Class(lt, s, x) + Class(lt, [y], x)
  {
    assert [y][1..] == [];
    if Equiv(lt, y, x) {
      ClassFrom(lt, s, x);
      if Class(lt, s, x) != [] {
        FirstIn(lt, s, x);
        assert false;
      }
    }
  }

  /** Merging the sorted halves sorts the whole, stably. */
  lemma MergeOfSorted<T(!new)>(lt: (T, T) -> bool, s: seq<T>, t: seq<T>)
    requires StrictWeakOrder(lt)
    ensures Merge(lt, StableSort(lt, s), StableSort(lt, t)) == StableSort(lt, s + t)
  {
    StableSortIsStable(lt, s);
    StableSortIsStable(lt, t);
    StableSortIsStable(lt, s + t);
    var r := Merge(lt, StableSort(lt, s), StableSort(lt, t));
    MergeSorts(lt, StableSort(lt, s), StableSort(lt, t));
    forall x ensures Class(lt, r, x) == Class(lt, StableSort(lt, s + t), x) {
      MergeStable(lt, StableSort(lt, s), StableSort(lt, t), x);
      ClassConcat(lt, s, t, x);
    }
    StableUnique(lt, r, StableSort(lt, s + t));
  }

  // ---------- merging from the end ----------

  /** `__merge_backward` (headers/cpp/stl_algo.h:2106-2153). */
  function MergeBack<T>(lt: (T, T) -> bool, s: seq<T>, t: seq<T>): (r: seq<T>)
    ensures |r| == |s| + |t|
    decreases |s| + |t|
  {
    if s == [] then t
    else if t == [] then s
    else if lt(t[|t| - 1], s[|s| - 1]) then MergeBack(lt, s[..|s| - 1], t) + [s[|s| - 1]]
    else MergeBack(lt, s, t[..|t| - 1]) + [t[|t| - 1]]
  }

  lemma {:induction false} MergeBackIsMerge<T(!new)>(lt: (T, T) -> bool, s: seq<T>, t: seq<T>)
    requires StrictWeakOrder(lt) && Sorted(lt, s) && Sorted(lt, t)
    ensures MergeBack(lt, s, t) == Merge(lt, s, t)
    decreases |s| + |t|
  {
    if s != [] && t != [] {
      var p, x, q, y := s[..|s| - 1], s[|s| - 1], t[..|t| - 1], t[|t| - 1];
      assert s == p + [x] && t == q + [y];
      if lt(y, x) {
        MergeBackIsMerge(lt, p, t);
        Ends(lt, t, y);
        MergeApart(lt, p, [x], t, []);
        assert t + [] == t;
      } else {
        MergeBackIsMerge(lt, s, q);
        Ends(lt, s, x);
        MergeApart(lt, s, [], q, [y]);
        assert s + [] == s;
      }
    }
  }

  lemma Ends<T(!new)>(lt: (T, T) -> bool, s: seq<T>, x: T)
    requires StrictWeakOrder(lt) && Sorted(lt, s) && s != [] && x == s[|s| - 1]
    ensures forall y :: y in s ==> !lt(x, y)
  {
    forall i | 0 <= i < |s| ensures !lt(x, s[i]) {
      assert i == |s| - 1 || !lt(s[|s| - 1], s[i]);
    }
  }
}
