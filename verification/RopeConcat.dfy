/**
 Concatenation and rebalancing of ropes (headers/cpp/ropeimpl.h:439-476, 589-632, 1078-1180).

 `_S_tree_concat` calls `_S_balance`, which builds its result with `_S_concat`, which calls
 `_S_tree_concat` again. The levels in the `decreases` clauses below say why this ends: no
 concatenation made while balancing is one that needs balancing.
 */
module RopeConcat {
  import opened Basics
  import opened RopeTree

  // ---------- shapes ----------

  function NewConcat<C>(left: Rope<C>, right: Rope<C>): Rope<C> {
    Concat(Size(left) + Size(right), 1 + Max(Depth(left), Depth(right)), false, left, right)
  }

  /** The test of `_S_tree_concat` for a rope that is too deep. */
  predicate TooDeep<C>(r: Rope<C>) {
    r.Concat? && r.depth > 20 && (r.size < 1000 || r.depth > MAX_DEPTH)
  }

  predicate SmallLeaves<C>(left: Rope<C>, right: Rope<C>) {
    left.Leaf? && right.Leaf? && |left.data| + |right.data| <= COPY_MAX
  }

  /** What `_S_concat` builds before it looks at the depth: short leaves are merged. */
  function Joined<C>(left: Rope<C>, right: Rope<C>): Rope<C> {
    if left.Nil? then right
    else if right.Nil? then left
    else if SmallLeaves(left, right) then Leaf(left.data + right.data)
    else if left.Concat? && SmallLeaves(left.right, right) then
      NewConcat(left.left, Leaf(left.right.data + right.data))
    else NewConcat(left, right)
  }

  /** A concatenation that has to be rebalanced. */
  predicate MustBalance<C>(left: Rope<C>, right: Rope<C>) {
    !left.Nil? && !right.Nil? && TooDeep(Joined(left, right))
  }

  lemma NewConcatFacts<C>(left: Rope<C>, right: Rope<C>)
    requires Wf(left) && Wf(right) && !left.Nil? && !right.Nil?
    ensures Wf(NewConcat(left, right)) && Flatten(NewConcat(left, right)) == Flatten(left) + Flatten(right)
  {
  }

  lemma LeafFacts<C>(data: seq<C>)
    requires data != []
    ensures Wf(Leaf(data)) && Flatten(Leaf(data)) == data
  {
  }

  lemma MergedFacts<C>(left: Rope<C>, right: Rope<C>)
    requires Wf(left) && Wf(right) && left.Concat? && SmallLeaves(left.right, right)
    ensures var r := NewConcat(left.left, Leaf(left.right.data + right.data));
            && Wf(r) && Flatten(r) == Flatten(left) + Flatten(right)
            && Size(r) == Size(left) + Size(right) && Depth(r) <= Depth(left)
  {
    var a, b, c := Flatten(left.left), left.right.data, right.data;
    LeafFacts(b + c);
    NewConcatFacts(left.left, Leaf(b + c));
    LeafFacts(b);
    LeafFacts(c);
    assert a + (b + c) == (a + b) + c;
  }

  lemma JoinedSizes<C>(left: Rope<C>, right: Rope<C>)
    requires Wf(left) && Wf(right)
    ensures Wf(Joined(left, right)) && Size(Joined(left, right)) == Size(left) + Size(right)
    ensures left.Nil? ==> Joined(left, right) == right
    ensures Depth(Joined(left, right)) <= 1 + Depth(left) || Depth(Joined(left, right)) <= 1 + Depth(right)
    ensures Joined(left, right).Nil? <==> left.Nil? && right.Nil?
  {
    JoinedFacts(left, right);
  }

  lemma JoinedFacts<C>(left: Rope<C>, right: Rope<C>)
    requires Wf(left) && Wf(right)
    ensures Wf(Joined(left, right)) && Flatten(Joined(left, right)) == Flatten(left) + Flatten(right)
    ensures Size(Joined(left, right)) == Size(left) + Size(right)
    ensures Depth(Joined(left, right)) <= 1 + Max(Depth(left), Depth(right))
    ensures left.Nil? ==> Depth(Joined(left, right)) == Depth(right)
    ensures right.Nil? ==> Depth(Joined(left, right)) == Depth(left)
  {
    if left.Nil? {
      assert [] + Flatten(right) == Flatten(right);
    } else if right.Nil? {
      assert Flatten(left) + [] == Flatten(left);
    } else if SmallLeaves(left, right) {
      LeafFacts(left.data);
      LeafFacts(right.data);
      LeafFacts(left.data + right.data);
    } else if left.Concat? && SmallLeaves(left.right, right) {
      MergedFacts(left, right);
    } else {
      NewConcatFacts(left, right);
    }
  }

  /** `_S_is_roughly_balanced` (headers/cpp/stl_rope.h:1571-1573), in range of the table. */
  predicate Roughly<C>(r: Rope<C>) {
    Depth(r) <= 1 || (Depth(r) - 2 <= MAX_DEPTH && Size(r) >= MIN_LEN[Depth(r) - 2])
  }

  /** A roughly balanced rope of legal size never needs balancing, and the table covers its depth. */
  lemma RoughlyIsFine<C>(r: Rope<C>)
    requires Roughly(r) && Size(r) <= MAX_SIZE
    ensures !TooDeep(r) && Depth(r) <= MAX_DEPTH
  {
    if Depth(r) >= 2 {
      LegalIndex(Size(r), Depth(r) - 2);
    }
  }

  /** Which entries of the table a legal size can reach. */
  lemma LegalIndex(size: nat, i: nat)
    requires i <= MAX_DEPTH && MIN_LEN[i] <= size <= MAX_SIZE
    ensures i < MAX_DEPTH - 1 && (i > 18 ==> size >= 1000)
  {
    if i >= MAX_DEPTH - 1 {
      MinLenGrows(MAX_DEPTH - 1, i);
    }
    if i > 18 {
      MinLenGrows(19, i);
    }
  }

  lemma DepthFromSize<C>(r: Rope<C>, i: nat)
    requires Flagged(r) && Wf(r) && i < MAX_DEPTH && Size(r) < MIN_LEN[i + 1]
    ensures Depth(r) <= i
  {
    if Depth(r) > i {
      MinLenGrows(i + 1, Depth(r));
    }
  }

  // ---------- the forest ----------

  /** Slot `i` is empty or holds a rope with `MIN_LEN[i] <= size < MIN_LEN[i + 1]` and depth at most `i + 1`. */
  predicate SlotOk<C>(r: Rope<C>, i: nat)
    requires i <= MAX_DEPTH
  {
    r.Nil? || (&& Wf(r) && MIN_LEN[i] <= Size(r) && Depth(r) <= i + 1
               && (i < MAX_DEPTH ==> Size(r) < MIN_LEN[i + 1]))
  }

  ghost predicate ForestOk<C>(f: seq<Rope<C>>) {
    |f| == MAX_DEPTH + 1 && forall i :: 0 <= i < |f| ==> SlotOk(f[i], i)
  }

  /** The text of the slots from `i` up, in descending order. */
  ghost function Text<C>(f: seq<Rope<C>>, i: nat): seq<C>
    requires ForestOk(f) && i <= |f|
    decreases |f| - i
  {
    if i == |f| then [] else Text(f, i + 1) + Flatten(f[i])
  }

  ghost predicate EmptyBelow<C>(f: seq<Rope<C>>, i: nat) {
    forall j :: 0 <= j < i && j < |f| ==> f[j].Nil?
  }

  lemma {:induction false} TextAgree<C>(f: seq<Rope<C>>, g: seq<Rope<C>>, i: nat)
    requires ForestOk(f) && ForestOk(g) && i <= |f|
    requires forall j :: i <= j < |f| ==> f[j] == g[j]
    ensures Text(f, i) == Text(g, i)
    decreases |f| - i
  {
    if i < |f| {
      TextAgree(f, g, i + 1);
    }
  }

  lemma {:induction false} TextAbove<C>(f: seq<Rope<C>>, i: nat)
    requires ForestOk(f) && i <= |f| && EmptyBelow(f, i)
    ensures Text(f, 0) == Text(f, i)
    decreases i
  {
    if i > 0 {
      TextAbove(f, i - 1);
      assert Text(f, i) + [] == Text(f, i);
    }
  }

  /** A slot is emptied into the accumulated rope, or filled from it. */
  lemma TextSlot<C>(f: seq<Rope<C>>, i: nat, r: Rope<C>)
    requires ForestOk(f) && i < |f| && SlotOk(r, i) && EmptyBelow(f, i)
    ensures ForestOk(f[i := r]) && Text(f[i := r], 0) == Text(f, i + 1) + Flatten(r)
  {
    var g := f[i := r];
    TextAbove(g, i);
    TextAgree(f, g, i + 1);
  }

  /** The text of slot `i` moves from the forest into a rope in front of `r`. */
  lemma TextMoves<C>(f: seq<Rope<C>>, i: nat, r: Rope<C>, all: seq<C>)
    requires ForestOk(f) && i < |f| && EmptyBelow(f, i) && Wf(r) && all == Text(f, 0) + Flatten(r)
    ensures ForestOk(f[i := Nil]) && EmptyBelow(f[i := Nil], i + 1)
    ensures all == Text(f[i := Nil], 0) + (Flatten(f[i]) + Flatten(r))
    ensures Size(f[i]) + Size(r) <= |all|
  {
    TextAbove(f, i);
    TextSlot(f, i, Nil);
    Regroup(Text(f, i + 1), Flatten(f[i]), Flatten(r));
  }

  lemma SlotFilled<C>(f: seq<Rope<C>>, i: nat, r: Rope<C>)
    requires ForestOk(f) && i < |f| && EmptyBelow(f, i) && f[i].Nil? && SlotOk(r, i)
    ensures ForestOk(f[i := r]) && Text(f[i := r], 0) == Text(f, 0) + Flatten(r)
  {
    TextSlot(f, i, r);
    TextAbove(f, i);
    Regroup(Text(f, i + 1), [], []);
  }

  lemma Regroup<C>(a: seq<C>, b: seq<C>, c: seq<C>)
    ensures (a + b) + c == a + (b + c) && a + [] == a && [] + a == a
  {
  }

  /** The rope gathered from the slots below `i`, the topmost of which was `top`. */
  predicate Gathered<C>(r: Rope<C>, i: nat, top: nat) {
    Wf(r) && (!r.Nil? ==> top < i && top <= MAX_DEPTH && Size(r) >= MIN_LEN[top] && Depth(r) <= top + 2)
  }

  /** Putting a full slot in front of what was gathered below it. */
  lemma GatherNext<C>(slot: Rope<C>, r: Rope<C>, i: nat, top: nat)
    requires i <= MAX_DEPTH && SlotOk(slot, i) && !slot.Nil? && Gathered(r, i, top)
    ensures Gathered(Joined(slot, r), i + 1, i) && Roughly(Joined(slot, r))
  {
    JoinedFacts(slot, r);
    var j := Joined(slot, r);
    if Depth(j) >= 2 {
      MinLenGrows(Depth(j) - 2, i);
    }
  }

  /** A rope on its way up through the slots, at slot `i`: two depths are possible, by size. */
  predicate Rising<C>(r: Rope<C>, i: nat) {
    && Wf(r) && !r.Nil? && i < MAX_DEPTH
    && Size(r) >= MIN_LEN[i]
    && (Depth(r) <= i + 1 || (Size(r) >= MIN_LEN[i + 1] && Depth(r) <= i + 2))
  }

  lemma RisingIsRough<C>(r: Rope<C>, i: nat)
    requires Rising(r, i)
    ensures Roughly(r)
  {
    if Depth(r) >= 2 {
      MinLenGrows(Depth(r) - 2, i);
    }
  }

  /** The new balanced rope after what was gathered below its slot. */
  lemma FirstRise<C>(tiny: Rope<C>, r: Rope<C>, i: nat, top: nat)
    requires Gathered(tiny, i, top) && Wf(r) && Flagged(r) && !r.Nil? && i < MAX_DEPTH
    requires MIN_LEN[i] <= Size(r) < MIN_LEN[i + 1]
    ensures Rising(Joined(tiny, r), i)
  {
    JoinedSizes(tiny, r);
    DepthFromSize(r, i);
    if !tiny.Nil? {
      RisesFrom(tiny, r, Joined(tiny, r), i, top);
    }
  }

  lemma RisesFrom<C>(tiny: Rope<C>, r: Rope<C>, joined: Rope<C>, i: nat, top: nat)
    requires Gathered(tiny, i, top) && !tiny.Nil? && i < MAX_DEPTH && MIN_LEN[i] <= Size(r) && Depth(r) <= i
    requires Wf(joined) && !joined.Nil? && Size(joined) == Size(tiny) + Size(r)
    requires Depth(joined) <= 1 + Depth(tiny) || Depth(joined) <= 1 + Depth(r)
    ensures Rising(joined, i)
  {
    if top == i - 1 {
      TwoEntries(i - 1, Size(tiny), Size(r));
    }
  }

  lemma TwoEntries(i: nat, a: nat, b: nat)
    requires i + 2 <= MAX_DEPTH && MIN_LEN[i] <= a && MIN_LEN[i + 1] <= b
    ensures a + b >= MIN_LEN[i + 2]
  {
    MinLenStep(i);
  }

  lemma RiseSizes(i: nat, a: nat, b: nat)
    requires i < MAX_DEPTH && MIN_LEN[i] <= a && MIN_LEN[i] <= b && a + b <= MAX_SIZE
    ensures i + 2 <= MAX_DEPTH && a + b >= MIN_LEN[i + 1]
    ensures b >= MIN_LEN[i + 1] ==> a + b >= MIN_LEN[i + 2]
  {
    LegalIndex(b, i);
    MinLenStep(i);
    if i > 0 {
      MinLenStep(i - 1);
    }
  }

  /** A full slot in front of the rising rope. */
  lemma NextRise<C>(slot: Rope<C>, r: Rope<C>, i: nat)
    requires i < MAX_DEPTH && SlotOk(slot, i) && !slot.Nil? && Rising(r, i)
    requires Size(slot) + Size(r) <= MAX_SIZE
    ensures i + 1 < MAX_DEPTH && Rising(Joined(slot, r), i + 1)
  {
    JoinedFacts(slot, r);
    RiseSizes(i, Size(slot), Size(r));
  }

  /** Where a rising rope stops, it is in order for the slot. */
  lemma RisingStops<C>(r: Rope<C>, i: nat)
    requires Rising(r, i)
    ensures Size(r) < MIN_LEN[i + 1] ==> SlotOk(r, i)
    ensures Size(r) >= MIN_LEN[i + 1] && Size(r) <= MAX_SIZE ==> i + 1 < MAX_DEPTH && Rising(r, i + 1)
  {
    if Size(r) >= MIN_LEN[i + 1] && Size(r) <= MAX_SIZE {
      LegalIndex(Size(r), i + 1);
    }
  }

  // ---------- the code ----------

  /** `_S_concat_and_set_balanced` marks a result that is balanced. */
  function Marked<C>(r: Rope<C>): Rope<C> {
    if r.Concat? && r.depth <= MAX_DEPTH && r.size >= MIN_LEN[r.depth] then r.(balanced := true) else r
  }

  lemma MarkedFacts<C>(r: Rope<C>)
    requires Wf(r)
    ensures Wf(Marked(r)) && Flatten(Marked(r)) == Flatten(r)
    ensures Size(Marked(r)) == Size(r) && Depth(Marked(r)) == Depth(r) && (Marked(r).Nil? <==> r.Nil?)
  {
  }

  /** `_S_tree_concat`. */
  method TreeConcat<C>(left: Rope<C>, right: Rope<C>) returns (r: Rope<C>)
    requires Wf(left) && Wf(right) && !left.Nil? && !right.Nil?
    requires Size(left) + Size(right) <= MAX_SIZE && Depth(left) <= MAX_DEPTH && Depth(right) <= MAX_DEPTH
    ensures Wf(r) && Flatten(r) == Flatten(left) + Flatten(right) && Depth(r) <= MAX_DEPTH
    ensures if TooDeep(NewConcat(left, right)) then Roughly(r) else r == NewConcat(left, right)
    ensures var size, depth := Size(left) + Size(right), 1 + Max(Depth(left), Depth(right));
            !(depth > 20 && (size < 1000 || depth > 45)) ==> r == Concat(size, depth, false, left, right)
    decreases if TooDeep(NewConcat(left, right)) then 2 else 0, 8
  {
    var result := NewConcat(left, right);
    NewConcatFacts(left, right);
    if result.depth > 20 && (result.size < 1000 || result.depth > MAX_DEPTH) {
      r := Balance(result);
    } else {
      r := result;
    }
  }

  /** `_S_concat`: the text of the result is the two texts one after the other. */
  method ConcatRopes<C>(left: Rope<C>, right: Rope<C>) returns (r: Rope<C>)
    requires Wf(left) && Wf(right)
    requires Size(left) + Size(right) <= MAX_SIZE && Depth(left) <= MAX_DEPTH && Depth(right) <= MAX_DEPTH
    ensures Wf(r) && Flatten(r) == Flatten(left) + Flatten(right) && Depth(r) <= MAX_DEPTH
    ensures if MustBalance(left, right) then Roughly(r) else r == Joined(left, right)
    decreases if MustBalance(left, right) then 2 else 0, 9
  {
    JoinedFacts(left, right);
    if left.Nil? {
      return right;
    }
    if right.Nil? {
      return left;
    }
    if right.Leaf? {
      if left.Leaf? {
        if |right.data| + |left.data| <= COPY_MAX {
          return Leaf(left.data + right.data);
        }
      } else if left.Concat? && left.right.Leaf? {
        if |left.right.data| + |right.data| <= COPY_MAX {
          var rest := Leaf(left.right.data + right.data);
          MergedFacts(left, right);
          NewConcatFacts(left.left, rest);
          r := TreeConcat(left.left, rest);
          return;
        }
      }
    }
    NewConcatFacts(left, right);
    r := TreeConcat(left, right);
  }

  method ConcatAndSetBalanced<C>(left: Rope<C>, right: Rope<C>) returns (r: Rope<C>)
    requires Wf(left) && Wf(right) && Depth(left) <= MAX_DEPTH && Depth(right) <= MAX_DEPTH
    requires Size(left) + Size(right) <= MAX_SIZE && Roughly(Joined(left, right))
    ensures r == Marked(Joined(left, right)) && Depth(r) <= MAX_DEPTH
    decreases 1, 3
  {
    JoinedFacts(left, right);
    RoughlyIsFine(Joined(left, right));
    MarkedFacts(Joined(left, right));
    r := ConcatRopes(left, right);
    if Size(r) >= MIN_LEN[Depth(r)] && r.Concat? {
      r := r.(balanced := true);
    }
  }

  /** The state of the first loop of `_S_add_leaf_to_forest` at slot `i`. */
  ghost predicate Gathering<C>(f: seq<Rope<C>>, tiny: Rope<C>, i: nat, top: nat, s: nat, all: seq<C>) {
    && ForestOk(f) && EmptyBelow(f, i) && i < MAX_DEPTH && MIN_LEN[i] <= s
    && Gathered(tiny, i, top) && Depth(tiny) <= MAX_DEPTH
    && all == Text(f, 0) + Flatten(tiny) && |all| + s <= MAX_SIZE
  }

  /** One round at a full slot, and one at an empty slot. */
  lemma GatherFull<C>(f: seq<Rope<C>>, tiny: Rope<C>, i: nat, top: nat, s: nat, all: seq<C>)
    requires Gathering(f, tiny, i, top, s, all) && !f[i].Nil? && s >= MIN_LEN[i + 1]
    ensures Wf(f[i]) && Wf(tiny) && Size(f[i]) + Size(tiny) <= MAX_SIZE && Roughly(Joined(f[i], tiny))
    ensures Depth(f[i]) <= MAX_DEPTH && Depth(tiny) <= MAX_DEPTH
    ensures Gathering(f[i := Nil], Marked(Joined(f[i], tiny)), i + 1, i, s, all)
  {
    assert SlotOk(f[i], i);
    LegalIndex(s, i + 1);
    GatherNext(f[i], tiny, i, top);
    JoinedFacts(f[i], tiny);
    TextMoves(f, i, tiny, all);
    RoughlyIsFine(Joined(f[i], tiny));
    MarkedFacts(Joined(f[i], tiny));
  }

  lemma GatherEmpty<C>(f: seq<Rope<C>>, tiny: Rope<C>, i: nat, top: nat, s: nat, all: seq<C>)
    requires Gathering(f, tiny, i, top, s, all) && f[i].Nil? && s >= MIN_LEN[i + 1]
    ensures Gathering(f, tiny, i + 1, top, s, all)
  {
    LegalIndex(s, i + 1);
  }

  lemma GatherStart<C>(f: seq<Rope<C>>, s: nat)
    requires ForestOk(f) && 0 < s && |Text(f, 0)| + s <= MAX_SIZE
    ensures Gathering(f, Nil, 0, 0, s, Text(f, 0))
  {
    Regroup(Text(f, 0), [], []);
  }

  /** The first loop of `_S_add_leaf_to_forest`: the slots too small for a rope of size `s` are emptied. */
  method Gather<C>(s: nat, forest: array<Rope<C>>) returns (i: nat, tiny: Rope<C>, ghost top: nat)
    requires ForestOk(forest[..]) && 0 < s && |Text(forest[..], 0)| + s <= MAX_SIZE
    modifies forest
    ensures Gathering(forest[..], tiny, i, top, s, old(Text(forest[..], 0))) && s < MIN_LEN[i + 1]
    decreases 1, 4
  {
    ghost var f := forest[..];
    ghost var all := Text(f, 0);
    i, tiny, top := 0, Nil, 0;
    GatherStart(f, s);
    while s >= MIN_LEN[i + 1]
      invariant f == forest[..] && Gathering(f, tiny, i, top, s, all)
      decreases MAX_DEPTH - i
    {
      if !forest[i].Nil? {
        GatherFull(f, tiny, i, top, s, all);
        tiny := ConcatAndSetBalanced(forest[i], tiny);
        top := i;
        forest[i] := Nil;
        f := f[i := Nil];
      } else {
        GatherEmpty(f, tiny, i, top, s, all);
      }
      i := i + 1;
    }
  }

  /** The state of the second loop at slot `i`. */
  ghost predicate AtSlot<C>(f: seq<Rope<C>>, r: Rope<C>, i: nat, all: seq<C>) {
    && ForestOk(f) && EmptyBelow(f, i) && Rising(r, i)
    && all == Text(f, 0) + Flatten(r) && |all| <= MAX_SIZE
  }

  /** Joining with a full slot makes the rope too big for it. */
  lemma RiseFull<C>(f: seq<Rope<C>>, r: Rope<C>, i: nat, all: seq<C>)
    requires AtSlot(f, r, i, all) && !f[i].Nil?
    ensures Wf(f[i]) && Wf(r) && Size(f[i]) + Size(r) <= MAX_SIZE && Roughly(Joined(f[i], r))
    ensures Depth(f[i]) <= MAX_DEPTH && Depth(r) <= MAX_DEPTH
    ensures i + 1 < MAX_DEPTH && Size(Marked(Joined(f[i], r))) >= MIN_LEN[i + 1]
    ensures AtSlot(f[i := Nil], Marked(Joined(f[i], r)), i + 1, all)
  {
    assert SlotOk(f[i], i);
    RisingIsRough(r, i);
    TextMoves(f, i, r, all);
    RoughlyIsFine(r);
    NextRise(f[i], r, i);
    RisingIsRough(Joined(f[i], r), i + 1);
    JoinedFacts(f[i], r);
    MarkedFacts(Joined(f[i], r));
  }

  lemma RiseEmpty<C>(f: seq<Rope<C>>, r: Rope<C>, i: nat, all: seq<C>)
    requires AtSlot(f, r, i, all) && f[i].Nil?
    ensures Size(r) < MIN_LEN[i + 1] ==> ForestOk(f[i := r]) && Text(f[i := r], 0) == all
    ensures Size(r) >= MIN_LEN[i + 1] ==> i + 1 < MAX_DEPTH && AtSlot(f, r, i + 1, all)
  {
    RisingStops(r, i);
    if Size(r) < MIN_LEN[i + 1] {
      SlotFilled(f, i, r);
    }
  }

  /** The second loop: the new rope rises through the full slots to the one of its size. */
  method Rise<C>(r: Rope<C>, start: nat, forest: array<Rope<C>>, ghost all: seq<C>)
    requires AtSlot(forest[..], r, start, all)
    modifies forest
    ensures ForestOk(forest[..]) && Text(forest[..], 0) == all
    decreases 1, 4
  {
    var i, insertee := start, r;
    ghost var f := forest[..];
    while true
      invariant f == forest[..] && AtSlot(f, insertee, i, all)
      decreases MAX_DEPTH - i
    {
      if !forest[i].Nil? {
        RiseFull(f, insertee, i, all);
        insertee := ConcatAndSetBalanced(forest[i], insertee);
        forest[i] := Nil;
        f := f[i := Nil];
      } else {
        RiseEmpty(f, insertee, i, all);
      }
      if i == MAX_DEPTH || Size(insertee) < MIN_LEN[i + 1] {
        forest[i] := insertee;
        f := f[i := insertee];
        return;
      }
      i := i + 1;
    }
  }

  /** `_S_add_leaf_to_forest`: the text of the forest grows by the text of `r`. */
  method AddLeafToForest<C>(r: Rope<C>, forest: array<Rope<C>>)
    requires Wf(r) && Flagged(r) && !r.Nil? && ForestOk(forest[..])
    requires |Text(forest[..], 0)| + Size(r) <= MAX_SIZE
    modifies forest
    ensures ForestOk(forest[..]) && Text(forest[..], 0) == old(Text(forest[..], 0)) + Flatten(r)
    decreases 1, 5
  {
    SizePositive(r);
    ghost var all := Text(forest[..], 0) + Flatten(r);
    var i, tiny;
    ghost var top;
    i, tiny, top := Gather(Size(r), forest);
    FirstRise(tiny, r, i, top);
    RisingIsRough(Joined(tiny, r), i);
    DepthFromSize(r, i);
    JoinedFacts(tiny, r);
    MarkedFacts(Joined(tiny, r));
    var insertee := ConcatAndSetBalanced(tiny, r);
    Regroup(Text(forest[..], 0), Flatten(tiny), Flatten(r));
    Rise(insertee, i, forest, all);
  }

  /** `_S_add_to_forest`: the balanced pieces of `r`, from left to right. */
  method AddToForest<C>(r: Rope<C>, forest: array<Rope<C>>)
    requires Wf(r) && !r.Nil? && ForestOk(forest[..])
    requires |Text(forest[..], 0)| + Size(r) <= MAX_SIZE
    modifies forest
    ensures ForestOk(forest[..]) && Text(forest[..], 0) == old(Text(forest[..], 0)) + Flatten(r)
    decreases 1, 6, r
  {
    if Flagged(r) {
      AddLeafToForest(r, forest);
    } else {
      ghost var all := Text(forest[..], 0);
      AddToForest(r.left, forest);
      AddToForest(r.right, forest);
      Regroup(all, Flatten(r.left), Flatten(r.right));
    }
  }

  /** `_S_balance`: the same text in a roughly balanced rope; the `abort` cannot be reached. */
  method Balance<C>(r: Rope<C>) returns (result: Rope<C>)
    requires Wf(r) && !r.Nil? && Size(r) <= MAX_SIZE
    ensures Wf(result) && Flatten(result) == Flatten(r) && Roughly(result) && Depth(result) <= MAX_DEPTH
    decreases 1, 7
  {
    var forest := new Rope<C>[MAX_DEPTH + 1](_ => Nil);
    assert ForestOk(forest[..]) && EmptyBelow(forest[..], MAX_DEPTH + 1);
    TextAbove(forest[..], MAX_DEPTH + 1);
    AddToForest(r, forest);
    assert [] + Flatten(r) == Flatten(r);
    result := Assemble(forest, Flatten(r));
    if Depth(result) > MAX_DEPTH {
      assert false;
    }
  }

  /** The last loop of `_S_balance`: the slots are put together from the lowest up. */
  method Assemble<C>(forest: array<Rope<C>>, ghost all: seq<C>) returns (result: Rope<C>)
    requires ForestOk(forest[..]) && Text(forest[..], 0) == all && |all| <= MAX_SIZE
    ensures Wf(result) && Flatten(result) == all && Roughly(result) && Depth(result) <= MAX_DEPTH
    decreases 1, 6
  {
    result := Nil;
    ghost var f, top := forest[..], 0;
    var i := 0;
    Regroup(all, [], []);
    while i <= MAX_DEPTH
      invariant f == forest[..] && Assembling(f, result, i, top, all)
      decreases MAX_DEPTH + 1 - i
    {
      AssembleStep(f, result, i, top, all);
      if !forest[i].Nil? {
        result := ConcatRopes(forest[i], result);
        top := i;
      }
      i := i + 1;
    }
  }

  ghost predicate Assembling<C>(f: seq<Rope<C>>, r: Rope<C>, i: nat, top: nat, all: seq<C>) {
    && ForestOk(f) && i <= MAX_DEPTH + 1 && Gathered(r, i, top) && Roughly(r) && Depth(r) <= MAX_DEPTH
    && all == Text(f, i) + Flatten(r) && |all| <= MAX_SIZE
  }

  lemma AssembleStep<C>(f: seq<Rope<C>>, r: Rope<C>, i: nat, top: nat, all: seq<C>)
    requires Assembling(f, r, i, top, all) && i <= MAX_DEPTH
    ensures f[i].Nil? ==> Assembling(f, r, i + 1, top, all)
    ensures !f[i].Nil? ==>
              && Wf(f[i]) && Depth(f[i]) <= MAX_DEPTH && Size(f[i]) + Size(r) <= MAX_SIZE
              && !MustBalance(f[i], r) && Assembling(f, Joined(f[i], r), i + 1, i, all)
  {
    assert SlotOk(f[i], i);
    Regroup(Text(f, i + 1), Flatten(f[i]), Flatten(r));
    if !f[i].Nil? {
      GatherNext(f[i], r, i, top);
      JoinedFacts(f[i], r);
      RoughlyIsFine(Joined(f[i], r));
    }
  }
}
