/** `list::sort` (headers/cpp/stl_list.h:783-825). */
module ListSort {
  import opened Basics
  import opened Order
  import opened SortOrder
  import opened StableOrder
  import opened ListRing
  import opened ListStore

  const SLOTS: nat := 64

  // ---------- the counter ----------

  /** The elements in the slots from `i` up, oldest first. */
  function Older(groups: seq<seq<nat>>, i: nat): seq<nat>
    decreases |groups| - i
  {
    if i >= |groups| then [] else Older(groups, i + 1) + groups[i]
  }

  /** The elements in the slots below `i`, oldest first. */
  function Newer(groups: seq<seq<nat>>, i: nat): seq<nat>
    requires i <= |groups|
  {
    if i == 0 then [] else groups[i - 1] + Newer(groups, i - 1)
  }

  lemma {:induction false} OlderSame(groups: seq<seq<nat>>, i: nat, j: nat, g: seq<nat>)
    requires i < j && i < |groups|
    ensures Older(groups[i := g], j) == Older(groups, j)
    decreases |groups| - j
  {
    if j < |groups| {
      OlderSame(groups, i, j + 1, g);
    }
  }

  lemma {:induction false} OlderOfNone(groups: seq<seq<nat>>, i: nat)
    requires forall j :: i <= j < |groups| ==> groups[j] == []
    ensures Older(groups, i) == []
    decreases |groups| - i
  {
    if i < |groups| {
      OlderOfNone(groups, i + 1);
    }
  }

  lemma {:induction false} OlderBelow(groups: seq<seq<nat>>, i: nat)
    requires i <= |groups| && forall j :: 0 <= j < i ==> groups[j] == []
    ensures Older(groups, 0) == Older(groups, i)
    decreases i
  {
    if i > 0 {
      OlderBelow(groups, i - 1);
      assert Older(groups, i) + [] == Older(groups, i);
    }
  }

  lemma {:induction false} OlderAndNewer(groups: seq<seq<nat>>, i: nat)
    requires i <= |groups|
    ensures Older(groups, 0) == Older(groups, i) + Newer(groups, i)
    decreases i
  {
    if i > 0 {
      OlderAndNewer(groups, i - 1);
      assert Older(groups, i) + groups[i - 1] + Newer(groups, i - 1)
             == Older(groups, i) + (groups[i - 1] + Newer(groups, i - 1));
    } else {
      assert Older(groups, 0) + [] == Older(groups, 0);
    }
  }

  /** Slot `i` holds nothing or `2^i` elements, sorted. */
  ghost predicate Slot(lt: (nat, nat) -> bool, g: seq<nat>, c: seq<nat>, i: nat, fill: nat) {
    c == StableSort(lt, g) && (g == [] || |g| == Pow2(i)) && (i >= fill ==> g == [])
  }

  ghost predicate Counting(lt: (nat, nat) -> bool, groups: seq<seq<nat>>, c: seq<seq<nat>>, fill: nat) {
    |groups| == |c| == SLOTS && fill <= SLOTS && forall i :: 0 <= i < SLOTS ==> Slot(lt, groups[i], c[i], i, fill)
  }

  /** The carry `g` of `2^i` elements, newer than all in the slots from `i` up; the slots below are empty. */
  ghost predicate Carrying(lt: (nat, nat) -> bool, groups: seq<seq<nat>>, c: seq<seq<nat>>, fill: nat, i: nat,
                           g: seq<nat>, cl: seq<nat>, seen: seq<nat>) {
    && Counting(lt, groups, c, fill) && i <= fill && cl == StableSort(lt, g) && |g| == Pow2(i)
    && (forall j :: 0 <= j < i ==> groups[j] == []) && Older(groups, i) + g == seen
  }

  lemma CarryOn(lt: (nat, nat) -> bool, groups: seq<seq<nat>>, c: seq<seq<nat>>, fill: nat, i: nat, g: seq<nat>,
                cl: seq<nat>, seen: seq<nat>)
    requires StrictWeakOrder(lt) && Carrying(lt, groups, c, fill, i, g, cl, seen) && i < fill && c[i] != []
    ensures Carrying(lt, groups[i := []], c[i := []], fill, i + 1, groups[i] + g, Merge(lt, c[i], cl), seen)
  {
    assert Slot(lt, groups[i], c[i], i, fill);
    MergeOfSorted(lt, groups[i], g);
    assert groups[i] != [] && Pow2(i + 1) == Pow2(i) + Pow2(i);
    CarriedOn(groups, i, g);
    CountingWith(lt, groups, c, fill, i, [], [], fill);
  }

  /** A slot's elements pass to the carry. */
  lemma CarriedOn(groups: seq<seq<nat>>, i: nat, g: seq<nat>)
    requires i < |groups|
    ensures Older(groups[i := []], i + 1) + (groups[i] + g) == Older(groups, i) + g
  {
    OlderSame(groups, i, i + 1, []);
    assert Older(groups, i + 1) + groups[i] + g == Older(groups, i + 1) + (groups[i] + g);
  }

  lemma CountingWith(lt: (nat, nat) -> bool, groups: seq<seq<nat>>, c: seq<seq<nat>>, fill: nat, i: nat, g: seq<nat>,
                     cl: seq<nat>, f: nat)
    requires Counting(lt, groups, c, fill) && i < SLOTS && fill <= f <= SLOTS && Slot(lt, g, cl, i, f)
    ensures Counting(lt, groups[i := g], c[i := cl], f)
  {
    var gs, cs := groups[i := g], c[i := cl];
    forall j | 0 <= j < SLOTS ensures Slot(lt, gs[j], cs[j], j, f) {
      assert Slot(lt, groups[j], c[j], j, fill);
    }
  }

  /** The carry's elements are the newest in the slots. */
  lemma AtRest(groups: seq<seq<nat>>, i: nat, g: seq<nat>)
    requires i < |groups| && groups[i] == [] && forall j :: 0 <= j < i ==> groups[j] == []
    ensures Older(groups[i := g], 0) == Older(groups, i) + g
  {
    OlderSame(groups, i, i + 1, g);
    OlderBelow(groups[i := g], i);
    assert Older(groups, i) == Older(groups, i + 1) + [] == Older(groups, i + 1);
  }

  /** The carry comes to rest; there is a slot for it as long as there are fewer than `2^64` elements. */
  lemma CarryRests(lt: (nat, nat) -> bool, groups: seq<seq<nat>>, c: seq<seq<nat>>, fill: nat, i: nat, g: seq<nat>,
                   cl: seq<nat>, seen: seq<nat>)
    requires StrictWeakOrder(lt) && Carrying(lt, groups, c, fill, i, g, cl, seen) && |seen| < Pow2(SLOTS)
    requires i == fill || (i < SLOTS && c[i] == [])
    ensures i < SLOTS && c[i] == []
    ensures Counting(lt, groups[i := g], c[i := cl], if i == fill then fill + 1 else fill)
            && Older(groups[i := g], 0) == seen
  {
    assert |seen| >= Pow2(i);
    if i >= SLOTS {
      Pow2Grows(SLOTS, i);
    }
    assert Slot(lt, groups[i], c[i], i, fill);
    StableSortIsStable(lt, groups[i]);
    assert groups[i] == [];
    AtRest(groups, i, g);
    CountingWith(lt, groups, c, fill, i, g, cl, if i == fill then fill + 1 else fill);
  }

  // ---------- the lists ----------

  /**
   The lists of a sort in progress: the slots `cs` hold `c`, the carry holds `cl`, the list being sorted still holds
   `rest`. All other lists are as in `before`.
   */
  ghost predicate Holding(before: map<nat, seq<nat>>, lists: map<nat, seq<nat>>, cs: seq<nat>, carry: nat, h: nat,
                          c: seq<seq<nat>>, cl: seq<nat>, rest: seq<nat>) {
    && |cs| == |c| == SLOTS && NoRepeats(cs + [carry, h])
    && (forall i :: 0 <= i < SLOTS ==> cs[i] in lists && lists[cs[i]] == c[i] && cs[i] !in before)
    && carry in lists && lists[carry] == cl && carry !in before && h in lists && lists[h] == rest && h in before
    && (forall k :: k in before && k != h ==> k in lists && lists[k] == before[k])
  }

  lemma Heads(cs: seq<nat>, carry: nat, h: nat, i: nat)
    requires NoRepeats(cs + [carry, h]) && i < |cs|
    ensures cs[i] != carry && cs[i] != h && carry != h && NoRepeats(cs[i := carry] + [cs[i], h])
    ensures forall j :: 0 <= j < |cs| && j != i ==> cs[j] != cs[i]
    ensures forall j :: 0 <= j < |cs| ==> cs[j] != carry && cs[j] != h
  {
    var u := cs + [carry, h];
    assert u[|cs|] == carry && u[|cs| + 1] == h;
    forall j | 0 <= j < |cs| ensures u[j] == cs[j] && cs[j] != carry && cs[j] != h {
      assert u[j] != u[|cs|] && u[j] != u[|cs| + 1];
    }
    assert u[|cs|] != u[|cs| + 1];
    forall j | 0 <= j < |cs| && j != i ensures cs[j] != cs[i] {
      assert u[j] != u[i];
    }
    var w := cs[i := carry] + [cs[i], h];
    forall j, m | 0 <= j < m < |w| ensures w[j] != w[m] {
    }
  }

  /** `swap` of the carry and a slot, after the two lists have been given `x` and `y`. */
  lemma HoldSwap(before: map<nat, seq<nat>>, lists: map<nat, seq<nat>>, cs: seq<nat>, carry: nat, h: nat,
                 c: seq<seq<nat>>, cl: seq<nat>, rest: seq<nat>, i: nat, x: seq<nat>, y: seq<nat>)
    requires Holding(before, lists, cs, carry, h, c, cl, rest) && i < SLOTS
    ensures cs[i] != carry
    ensures Holding(before, lists[cs[i] := x][carry := y], cs[i := carry], cs[i], h, c[i := y], x, rest)
  {
    Heads(cs, carry, h, i);
  }

  /** `counter[i].merge(carry); carry.swap(counter[i])`. */
  method CarryInto(st: Store, lt: (nat, nat) -> bool, counter: array<nat>, i: nat, carry: nat,
                   ghost before: map<nat, seq<nat>>, ghost h: nat, ghost c: seq<seq<nat>>, ghost cl: seq<nat>,
                   ghost rest: seq<nat>) returns (carry': nat)
    requires st.Valid() && counter.Length == SLOTS && Holding(before, st.lists, counter[..], carry, h, c, cl, rest)
             && i < SLOTS
    modifies st`next, st`prev, st`lists, st`owner, counter
    ensures st.Valid() && Holding(before, st.lists, counter[..], carry', h, c[i := []], Merge(lt, c[i], cl), rest)
  {
    ghost var cs := counter[..];
    HoldSwap(before, st.lists, cs, carry, h, c, cl, rest, i, Merge(lt, c[i], cl), []);
    st.MergeLists(lt, counter[i], carry);
    carry' := counter[i];
    counter[i] := carry;
    assert counter[..] == cs[i := carry];
  }

  /** `carry.swap(counter[i])`. */
  method CarryRest(counter: array<nat>, i: nat, carry: nat, ghost before: map<nat, seq<nat>>,
                   ghost lists: map<nat, seq<nat>>, ghost h: nat, ghost c: seq<seq<nat>>, ghost cl: seq<nat>,
                   ghost rest: seq<nat>) returns (carry': nat)
    requires counter.Length == SLOTS && Holding(before, lists, counter[..], carry, h, c, cl, rest) && i < SLOTS
    modifies counter
    ensures Holding(before, lists, counter[..], carry', h, c[i := cl], c[i], rest)
  {
    ghost var cs := counter[..];
    HoldSwap(before, lists, cs, carry, h, c, cl, rest, i, c[i], cl);
    assert lists[cs[i] := c[i]][carry := cl] == lists;
    carry' := counter[i];
    counter[i] := carry;
    assert counter[..] == cs[i := carry];
  }

  /** `i < fill && !counter[i].empty()`. */
  method Full(st: Store, counter: array<nat>, i: nat, fill: nat, ghost c: seq<nat>) returns (full: bool)
    requires st.Valid() && fill <= counter.Length && (i < fill ==> counter[i] in st.lists && st.lists[counter[i]] == c)
    ensures full <==> i < fill && c != []
  {
    full := false;
    if i < fill {
      assert [] + c == c;
      var n := st.Step(counter[i], counter[i], [], c);
      st.AtEnd(counter[i], [], c);
      full := n != counter[i];
    }
  }

  lemma OneSorted(lt: (nat, nat) -> bool, x: nat)
    ensures StableSort(lt, [x]) == [x] && Pow2(0) == 1
  {
    var s, e := [x], Insert(lt, [], x);
    assert e == [x] && s[1..] == [];
    assert InsertAll(lt, [], s) == InsertAll(lt, e, s[1..]) == e;
  }

  /** The loop in which an element comes into the counter. */
  method CarryUp(st: Store, lt: (nat, nat) -> bool, counter: array<nat>, fill: nat, carry0: nat,
                 ghost before: map<nat, seq<nat>>, ghost h: nat, ghost groups0: seq<seq<nat>>, ghost c0: seq<seq<nat>>,
                 ghost x: nat, ghost rest: seq<nat>, ghost seen: seq<nat>)
    returns (i: nat, carry: nat, ghost groups: seq<seq<nat>>, ghost c: seq<seq<nat>>, ghost g: seq<nat>,
             ghost cl: seq<nat>)
    requires StrictWeakOrder(lt) && st.Valid() && counter.Length == SLOTS
             && Holding(before, st.lists, counter[..], carry0, h, c0, [x], rest)
    requires Counting(lt, groups0, c0, fill) && Older(groups0, 0) + [x] == seen
    modifies st`next, st`prev, st`lists, st`owner, counter
    ensures st.Valid() && Holding(before, st.lists, counter[..], carry, h, c, cl, rest)
    ensures Carrying(lt, groups, c, fill, i, g, cl, seen) && (i == fill || c[i] == [])
  {
    i, carry, groups, c, g, cl := 0, carry0, groups0, c0, [x], [x];
    OneSorted(lt, x);
    var full := Full(st, counter, i, fill, if i < fill then c[i] else []);
    while full
      invariant st.Valid() && Holding(before, st.lists, counter[..], carry, h, c, cl, rest)
      invariant Carrying(lt, groups, c, fill, i, g, cl, seen) && (full <==> i < fill && c[i] != [])
      decreases fill - i
    {
      CarryOn(lt, groups, c, fill, i, g, cl, seen);
      carry := CarryInto(st, lt, counter, i, carry, before, h, c, cl, rest);
      g, cl := groups[i] + g, Merge(lt, c[i], cl);
      groups, c := groups[i := []], c[i := []];
      i := i + 1;
      full := Full(st, counter, i, fill, if i < fill then c[i] else []);
    }
  }

  /** One element of the list comes into the counter. */
  method Count(st: Store, lt: (nat, nat) -> bool, counter: array<nat>, fill0: nat, carry0: nat,
               ghost before: map<nat, seq<nat>>, ghost h: nat, ghost groups0: seq<seq<nat>>, ghost c0: seq<seq<nat>>,
               ghost x: nat, ghost rest: seq<nat>, ghost seen: seq<nat>)
    returns (fill: nat, carry: nat, ghost groups: seq<seq<nat>>, ghost c: seq<seq<nat>>)
    requires StrictWeakOrder(lt) && st.Valid() && counter.Length == SLOTS
             && Holding(before, st.lists, counter[..], carry0, h, c0, [x], rest)
    requires Counting(lt, groups0, c0, fill0) && Older(groups0, 0) + [x] == seen && |seen| < Pow2(SLOTS)
    modifies st`next, st`prev, st`lists, st`owner, counter
    ensures st.Valid() && Holding(before, st.lists, counter[..], carry, h, c, [], rest)
    ensures Counting(lt, groups, c, fill) && Older(groups, 0) == seen && fill > 0
  {
    var i;
    ghost var g, cl;
    i, carry, groups, c, g, cl := CarryUp(st, lt, counter, fill0, carry0, before, h, groups0, c0, x, rest, seen);
    CarryRests(lt, groups, c, fill0, i, g, cl, seen);
    carry := CarryRest(counter, i, carry, before, st.lists, h, c, cl, rest);
    fill := if i == fill0 then fill0 + 1 else fill0;
    groups, c := groups[i := g], c[i := cl];
  }

  /** `carry.splice(carry.begin(), *this, begin())`. */
  method TakeFirst(st: Store, carry: nat, h: nat, ghost before: map<nat, seq<nat>>, ghost cs: seq<nat>,
                   ghost c: seq<seq<nat>>, ghost rest: seq<nat>)
    requires st.Valid() && Holding(before, st.lists, cs, carry, h, c, [], rest) && rest != []
    modifies st`next, st`prev, st`lists, st`owner
    ensures st.Valid() && Holding(before, st.lists, cs, carry, h, c, [rest[0]], rest[1..])
  {
    ghost var none: seq<nat> := [];
    Heads(cs, carry, h, 0);
    assert none + rest == rest && none + none == none && (none + [rest[0]]) + none == [rest[0]];
    var first := st.Step(h, h, none, rest);
    var _ := st.MoveOne(carry, first, carry, none, none, h, rest);
  }

  // ---------- the end ----------

  /** The slots below `i` have been merged into slot `i - 1`. */
  ghost predicate Gathered(lt: (nat, nat) -> bool, groups: seq<seq<nat>>, lists: map<nat, seq<nat>>, cs: seq<nat>,
                           fill: nat, i: nat) {
    && 0 < i <= fill <= SLOTS == |cs| == |groups| && NoRepeats(cs)
    && (forall j :: 0 <= j < SLOTS ==> cs[j] in lists)
    && lists[cs[i - 1]] == StableSort(lt, Newer(groups, i))
    && (forall j :: i <= j < fill ==> lists[cs[j]] == StableSort(lt, groups[j]))
  }

  lemma GatherOn(lt: (nat, nat) -> bool, groups: seq<seq<nat>>, lists: map<nat, seq<nat>>, cs: seq<nat>, fill: nat,
                 i: nat)
    requires StrictWeakOrder(lt) && Gathered(lt, groups, lists, cs, fill, i) && i < fill
    ensures cs[i] != cs[i - 1]
    ensures Gathered(lt, groups, lists[cs[i] := Merge(lt, lists[cs[i]], lists[cs[i - 1]])][cs[i - 1] := []], cs, fill,
                     i + 1)
  {
    MergeOfSorted(lt, groups[i], Newer(groups, i));
  }

  /** `for (i = 1; i < fill; ++i) counter[i].merge(counter[i - 1])`. */
  method Gather(st: Store, lt: (nat, nat) -> bool, counter: array<nat>, fill: nat, ghost groups: seq<seq<nat>>,
                ghost before: map<nat, seq<nat>>, ghost h: nat)
    requires StrictWeakOrder(lt) && st.Valid() && counter.Length == SLOTS
             && Gathered(lt, groups, st.lists, counter[..], fill, 1)
    requires forall k :: k in before && k != h ==> k in st.lists && st.lists[k] == before[k] && k !in counter[..]
    modifies st`next, st`prev, st`lists, st`owner
    ensures st.Valid() && Gathered(lt, groups, st.lists, counter[..], fill, fill)
    ensures forall k :: k in before && k != h ==> k in st.lists && st.lists[k] == before[k]
  {
    ghost var cs := counter[..];
    for i := 1 to fill
      invariant st.Valid() && counter[..] == cs && Gathered(lt, groups, st.lists, cs, fill, i)
      invariant forall k :: k in before && k != h ==> k in st.lists && st.lists[k] == before[k]
    {
      GatherOn(lt, groups, st.lists, cs, fill, i);
      assert counter[i] == cs[i] && counter[i - 1] == cs[i - 1] && cs[i] in cs && cs[i - 1] in cs;
      st.MergeLists(lt, counter[i], counter[i - 1]);
    }
  }

  // ---------- the whole ----------

  /** New empty lists: `made` of them, with growing headers. */
  ghost predicate Made(before: map<nat, seq<nat>>, lists: map<nat, seq<nat>>, made: seq<nat>, unused: nat) {
    && (forall i, j :: 0 <= i < j < |made| ==> made[i] < made[j])
    && (forall i :: 0 <= i < |made| ==>
          made[i] in lists && lists[made[i]] == [] && made[i] !in before && made[i] < unused)
    && (forall k :: k in before ==> k in lists && lists[k] == before[k] && k < unused)
  }

  method MakeOne(st: Store, ghost before: map<nat, seq<nat>>, ghost made: seq<nat>) returns (n: nat)
    requires st.Valid() && Made(before, st.lists, made, st.unused) && forall k :: k in st.lists ==> k < st.unused
    modifies st
    ensures st.Valid() && Made(before, st.lists, made + [n], st.unused) && forall k :: k in st.lists ==> k < st.unused
  {
    n := st.NewList();
  }

  /** `list carry; list counter[64];` */
  method MakeCounter(st: Store, h: nat) returns (counter: array<nat>, carry: nat)
    requires st.Valid() && h in st.lists
    modifies st
    ensures fresh(counter) && counter.Length == SLOTS
    ensures st.Valid() && Holding(old(st.lists), st.lists, counter[..], carry, h, seq(SLOTS, _ => []), [],
                                  old(st.lists[h]))
  {
    ghost var before := st.lists;
    forall k | k in before ensures k < st.unused {
      assert ListOk(st.next, st.prev, st.owner, st.unused, k, before[k]) && k in [k] + before[k];
    }
    counter := new nat[SLOTS];
    ghost var made: seq<nat> := [];
    for i := 0 to SLOTS
      invariant st.Valid() && Made(before, st.lists, made, st.unused) && made == counter[..i]
      invariant forall k :: k in st.lists ==> k < st.unused
    {
      var n := MakeOne(st, before, made);
      counter[i] := n;
      made := made + [n];
    }
    carry := MakeOne(st, before, made);
    MadeHolding(before, st.lists, made, carry, h, st.unused);
    assert counter[..] == made;
  }

  lemma MadeHolding(before: map<nat, seq<nat>>, lists: map<nat, seq<nat>>, made: seq<nat>, carry: nat, h: nat,
                    unused: nat)
    requires Made(before, lists, made + [carry], unused) && |made| == SLOTS && h in before
    ensures Holding(before, lists, made, carry, h, seq(SLOTS, _ => []), [], before[h])
  {
    var u, w := made + [carry], made + [carry, h];
    forall i | 0 <= i < |u| ensures u[i] == w[i] && u[i] != h {
    }
    assert w[|made| + 1] == h;
    assert forall i :: 0 <= i < SLOTS ==> u[i] == made[i];
    assert u[SLOTS] == carry;
  }

  lemma CountingNone(lt: (nat, nat) -> bool)
    ensures var none := seq(SLOTS, _ => []); Counting(lt, none, none, 0) && Older(none, 0) == []
  {
    var none: seq<seq<nat>> := seq(SLOTS, _ => []);
    OlderOfNone(none, 0);
  }

  /** The main loop: every element comes into the counter. */
  method CountAll(st: Store, lt: (nat, nat) -> bool, h: nat, counter: array<nat>, carry0: nat,
                  ghost before: map<nat, seq<nat>>, ghost xs: seq<nat>)
    returns (fill: nat, ghost groups: seq<seq<nat>>, ghost c: seq<seq<nat>>, ghost carry: nat)
    requires StrictWeakOrder(lt) && st.Valid() && counter.Length == SLOTS && 0 < |xs| < Pow2(SLOTS)
    requires Holding(before, st.lists, counter[..], carry0, h, seq(SLOTS, _ => []), [], xs)
    modifies st`next, st`prev, st`lists, st`owner, counter
    ensures st.Valid() && Holding(before, st.lists, counter[..], carry, h, c, [], [])
    ensures Counting(lt, groups, c, fill) && Older(groups, 0) == xs && fill > 0
  {
    var spare := carry0;
    groups, c, fill := seq(SLOTS, _ => []), seq(SLOTS, _ => []), 0;
    CountingNone(lt);
    ghost var seen, rest: seq<nat> := [], xs;
    var first := st.Step(h, h, [], rest);
    st.AtEnd(h, [], rest);
    while first != h
      invariant st.Valid() && Holding(before, st.lists, counter[..], spare, h, c, [], rest)
                && (first == h <==> rest == [])
      invariant Counting(lt, groups, c, fill) && Older(groups, 0) == seen && ComingIn(xs, seen, rest)
                && (seen != [] ==> fill > 0)
      decreases |rest|
    {
      ghost var x := rest[0];
      TakeFirst(st, spare, h, before, counter[..], c, rest);
      OneMoreIn(xs, seen, rest);
      fill, spare, groups, c := Count(st, lt, counter, fill, spare, before, h, groups, c, x, rest[1..], seen + [x]);
      seen, rest := seen + [x], rest[1..];
      first := st.Step(h, h, [], rest);
      st.AtEnd(h, [], rest);
    }
    carry := spare;
  }

  /** `seen` has come in, `rest` is still in the list. */
  ghost predicate ComingIn(xs: seq<nat>, seen: seq<nat>, rest: seq<nat>) {
    |seen| <= |xs| && seen == xs[..|seen|] && rest == xs[|seen|..] && [] + rest == rest
  }

  lemma OneMoreIn(xs: seq<nat>, seen: seq<nat>, rest: seq<nat>)
    requires ComingIn(xs, seen, rest) && rest != []
    ensures ComingIn(xs, seen + [rest[0]], rest[1..])
  {
  }

  lemma GatheredFirst(lt: (nat, nat) -> bool, before: map<nat, seq<nat>>, lists: map<nat, seq<nat>>, cs: seq<nat>,
                      carry: nat, h: nat, c: seq<seq<nat>>, groups: seq<seq<nat>>, fill: nat)
    requires Holding(before, lists, cs, carry, h, c, [], []) && Counting(lt, groups, c, fill) && fill > 0
    ensures Gathered(lt, groups, lists, cs, fill, 1)
    ensures forall k :: k in before && k != h ==> k in lists && lists[k] == before[k] && k !in cs
  {
    NoRepeatsJoin(cs, [carry, h]);
    assert Newer(groups, 1) == groups[0] + [] == groups[0];
    forall j | 0 <= j < SLOTS ensures lists[cs[j]] == StableSort(lt, groups[j]) {
      assert Slot(lt, groups[j], c[j], j, fill);
    }
  }

  /** All elements are in the slots below `fill`. */
  lemma AllNewer(lt: (nat, nat) -> bool, groups: seq<seq<nat>>, c: seq<seq<nat>>, fill: nat)
    requires Counting(lt, groups, c, fill)
    ensures Newer(groups, fill) == Older(groups, 0)
  {
    OlderAndNewer(groups, fill);
    forall j | fill <= j < |groups| ensures groups[j] == [] {
      assert Slot(lt, groups[j], c[j], j, fill);
    }
    OlderOfNone(groups, fill);
    assert [] + Newer(groups, fill) == Newer(groups, fill);
  }

  /**
   `list::sort`: the list, which has taken over the header `r`, holds the same nodes, stably sorted by the values
   they hold. No other list changes.
   */
  method Sort(st: Store, lt: (nat, nat) -> bool, h: nat) returns (r: nat)
    requires StrictWeakOrder(lt) && st.Valid() && h in st.lists && |st.lists[h]| < Pow2(SLOTS)
    modifies st
    ensures st.Valid() && r in st.lists && st.lists[r] == StableSort(lt, old(st.lists[h]))
            && (r == h || r !in old(st.lists))
    ensures forall k :: k in old(st.lists) && k != h ==> k in st.lists && st.lists[k] == old(st.lists[k])
  {
    ghost var xs := st.lists[h];
    var first := st.Step(h, h, [], xs);
    st.AtEnd(h, [], xs);
    if first == h {
      return h;
    }
    var second := st.Step(first, h, [xs[0]], xs[1..]);
    st.AtEnd(h, [xs[0]], xs[1..]);
    if second == h {
      assert xs == [xs[0]];
      OneSorted(lt, xs[0]);
      return h;
    }
    r := SortMany(st, lt, h);
  }

  /** `sort` of more than one element. */
  method SortMany(st: Store, lt: (nat, nat) -> bool, h: nat) returns (r: nat)
    requires StrictWeakOrder(lt) && st.Valid() && h in st.lists && 1 < |st.lists[h]| < Pow2(SLOTS)
    modifies st
    ensures st.Valid() && r in st.lists && st.lists[r] == StableSort(lt, old(st.lists[h])) && r !in old(st.lists)
    ensures forall k :: k in old(st.lists) && k != h ==> k in st.lists && st.lists[k] == old(st.lists[k])
  {
    ghost var before, xs := st.lists, st.lists[h];
    var counter, carry := MakeCounter(st, h);
    var fill;
    ghost var groups, c, spare;
    fill, groups, c, spare := CountAll(st, lt, h, counter, carry, before, xs);
    ghost var cs := counter[..];
    GatheredFirst(lt, before, st.lists, cs, spare, h, c, groups, fill);
    Gather(st, lt, counter, fill, groups, before, h);
    AllNewer(lt, groups, c, fill);
    r := counter[fill - 1];
    assert r == cs[fill - 1];
  }
}
