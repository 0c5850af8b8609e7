/** The iterators of a rope and their caches (headers/cpp/ropeimpl.h:27-242, headers/cpp/stl_rope.h:859-994). */
module RopeIterator {
  import opened Basics
  import opened RopeTree
  import opened RopeTrail
  import opened RopeSlice

  const BUF_LEN: nat := 15

  /** `buf` is the part of the text of `root` that starts at `begin`, inside the node that starts at `start`. */
  ghost predicate Window<C>(root: Rope<C>, start: nat, leaf: Rope<C>, begin: int, buf: seq<C>) {
    && Wf(root) && start <= begin && begin + |buf| <= start + Size(leaf) && begin + |buf| <= Size(root)
    && buf == Flatten(root)[begin..begin + |buf|]
  }

  /** A stretch of the leaf is a stretch of the whole text. */
  lemma LeafWindow<C>(root: Rope<C>, start: nat, leaf: Rope<C>, off: nat, len: nat, buf: seq<C>)
    requires LiesAt(root, start, leaf) && off + len <= Size(leaf) && buf == Flatten(leaf)[off..off + len]
    ensures Window(root, start, leaf, start + off, buf)
  {
    SliceOfSlice(Flatten(root), start, Flatten(leaf), off, len);
  }

  /**
   The cached nodes and direction bits are the lower end of a way from the root to the current leaf, or to the root
   treated as one.
   */
  ghost predicate PathFits<C>(root: Rope<C>, p: seq<Rope<C>>, t: Trail<C>, start: nat, idx: int, dirs: nat) {
    && Genuine(t, root) && start == Start(t) && 0 <= idx < CACHE_LEN
    && LastNodes(p, idx, t, root) && LastTurns(dirs, idx, t)
    && (At(t, root).Concat? ==> t.Root?)
  }

  /** The window that `_S_setbuf` takes from a producer: at most `BUF_LEN` characters around the position. */
  function ProducerWindow(pos: nat, leafPos: nat, leafEnd: nat): (r: (nat, nat))
    requires leafPos <= pos < leafEnd
    ensures leafPos <= r.0 <= pos < r.0 + r.1 <= leafEnd && r.1 <= BUF_LEN
  {
    var start := if leafPos + BUF_LEN <= pos then
                   (if pos - BUF_LEN / 4 + BUF_LEN > leafEnd then leafEnd - BUF_LEN else pos - BUF_LEN / 4)
                 else leafPos;
    (start, if start + BUF_LEN > leafEnd then leafEnd - start else BUF_LEN)
  }

  /** The buffer holds the text around the position; for a root treated as a leaf, all of it. */
  ghost predicate BufFits<C>(root: Rope<C>, start: nat, leaf: Rope<C>, pos: nat, at: int, buf: seq<C>) {
    && 0 <= at < |buf| && Window(root, start, leaf, pos - at, buf)
    && (leaf.Concat? ==> |buf| == Size(root))
  }

  /** What `_S_setbuf` puts into the buffer, and where the position is in it. */
  function Buffer<C>(leaf: Rope<C>, leafPos: nat, pos: nat): (seq<C>, int)
    requires Wf(leaf) && !leaf.Nil? && !leaf.Concat? && leafPos <= pos < leafPos + Size(leaf)
  {
    if leaf.Leaf? then (leaf.data, pos - leafPos)
    else
      var w := ProducerWindow(pos, leafPos, leafPos + Size(leaf));
      (Section(leaf, w.0 - leafPos, w.1), pos - w.0)
  }

  /** That buffer holds the text around the position. */
  ghost predicate Buffered<C>(root: Rope<C>, start: nat, leaf: Rope<C>, pos: nat)
    requires Wf(leaf) && !leaf.Nil? && !leaf.Concat? && start <= pos < start + Size(leaf)
  {
    BufFits(root, start, leaf, pos, Buffer(leaf, start, pos).1, Buffer(leaf, start, pos).0)
  }

  lemma BufferFits<C>(root: Rope<C>, t: Trail<C>, pos: nat)
    requires Wf(root) && !root.Nil? && Genuine(t, root) && !At(t, root).Concat?
    requires Start(t) <= pos < Start(t) + Size(At(t, root))
    ensures Wf(At(t, root)) && !At(t, root).Nil? && Buffered(root, Start(t), At(t, root), pos)
  {
    TrailShape(t, root);
    TrailText(t, root);
    LeafBuffered(root, Start(t), At(t, root), pos);
  }

  lemma LeafBuffered<C>(root: Rope<C>, start: nat, leaf: Rope<C>, pos: nat)
    requires LiesAt(root, start, leaf) && !leaf.Nil? && !leaf.Concat? && start <= pos < start + Size(leaf)
    ensures Buffered(root, start, leaf, pos)
  {
    if leaf.Leaf? {
      DataBuffered(root, start, leaf, pos);
    } else {
      var w := ProducerWindow(pos, start, start + Size(leaf));
      SectionIsSlice(leaf, w.0 - start, w.1);
      SectionBuffered(root, start, leaf, pos, w, Section(leaf, w.0 - start, w.1));
    }
  }

  lemma DataBuffered<C>(root: Rope<C>, start: nat, leaf: Rope<C>, pos: nat)
    requires LiesAt(root, start, leaf) && leaf.Leaf? && start <= pos < start + Size(leaf)
    ensures Buffered(root, start, leaf, pos)
  {
    WholeSlice(leaf.data);
    LeafWindow(root, start, leaf, 0, Size(leaf), leaf.data);
    BufferedBy(root, start, leaf, pos, start, leaf.data);
  }

  lemma SectionBuffered<C>(root: Rope<C>, start: nat, leaf: Rope<C>, pos: nat, w: (nat, nat), buf: seq<C>)
    requires LiesAt(root, start, leaf) && !leaf.Nil? && !leaf.Concat? && !leaf.Leaf?
             && start <= pos < start + Size(leaf)
    requires w == ProducerWindow(pos, start, start + Size(leaf)) && buf == Section(leaf, w.0 - start, w.1)
    requires buf == Flatten(leaf)[w.0 - start..w.0 - start + w.1]
    ensures Buffered(root, start, leaf, pos)
  {
    LeafWindow(root, start, leaf, w.0 - start, w.1, buf);
    BufferedBy(root, start, leaf, pos, w.0, buf);
  }

  lemma WholeSlice<C>(s: seq<C>)
    ensures s[0..0 + |s|] == s
  {
  }

  lemma BufferedBy<C>(root: Rope<C>, start: nat, leaf: Rope<C>, pos: nat, from: nat, buf: seq<C>)
    requires Wf(leaf) && !leaf.Nil? && !leaf.Concat? && start <= pos < start + Size(leaf)
    requires Buffer(leaf, start, pos) == (buf, pos - from) && from <= pos < from + |buf|
             && Window(root, start, leaf, from, buf)
    ensures Buffered(root, start, leaf, pos)
  {
  }

  class Iterator<C> {
    const root: Rope<C>
    const pathEnd: array<Rope<C>>
    var pos: nat
    var leafPos: nat
    /**
     The characters from `_M_buf_start` to `_M_buf_end`, and the offset of `_M_buf_ptr`, negative for a null pointer.
     */
    var buf: seq<C>
    var at: int
    var leafIndex: int
    var dirs: nat
    ghost var trail: Trail<C>

    ghost predicate Ready()
      reads this, pathEnd
    {
      Wf(root) && !root.Nil? && Depth(root) <= MAX_DEPTH && pathEnd.Length == CACHE_LEN && pos <= Size(root)
    }

    ghost predicate PathOk()
      reads this, pathEnd
    {
      PathFits(root, pathEnd[..], trail, leafPos, leafIndex, dirs)
    }

    ghost predicate BufOk()
      reads this
    {
      BufFits(root, leafPos, At(trail, root), pos, at, buf)
    }

    ghost predicate Valid()
      reads this, pathEnd
    {
      Ready() && (at >= 0 ==> PathOk() && BufOk())
    }

    constructor (root: Rope<C>, pos: nat)
      requires Wf(root) && !root.Nil? && Depth(root) <= MAX_DEPTH && pos <= Size(root)
      ensures Valid() && this.root == root && this.pos == pos && fresh(pathEnd)
    {
      this.root, this.pos := root, pos;
      pathEnd := new Rope<C>[CACHE_LEN](_ => Nil);
      leafPos, buf, at, leafIndex, dirs, trail := 0, [], -1, 0, 0, Root;
    }

    /** `_S_setbuf`: a window of the current leaf around the position. */
    method SetBuf()
      requires Ready() && PathOk() && !At(trail, root).Concat?
      requires leafPos <= pos < leafPos + Size(At(trail, root))
      modifies this`buf, this`at
      ensures Valid() && at >= 0
    {
      TrailShape(trail, root);
      var leaf := pathEnd[leafIndex];
      BufferFits(root, trail, pos);
      var r := Buffer(leaf, leafPos, pos);
      buf, at := r.0, r.1;
    }

    /** The walk of `_S_setcache` from the root down to the leaf that holds the position. */
    method WalkDown() returns (path: array<Rope<C>>, depth: nat, start: nat, turns: nat, ghost t: Trail<C>)
      requires Ready() && pos < Size(root)
      ensures fresh(path) && depth < path.Length && Descended(root, path[..], depth, start, turns, t, pos)
      ensures !At(t, root).Concat?
    {
      path := new Rope<C>[MAX_DEPTH + 1](_ => Nil);
      var curr := root;
      depth, start, turns, t := 0, 0, 0, Root;
      ghost var p := path[..];
      path[depth] := curr;
      p := p[depth := curr];
      while curr.Concat?
        invariant depth < path.Length && p == path[..] && fresh(path)
        invariant Descended(root, p, depth, start, turns, t, pos) && curr == At(t, root)
        decreases curr
      {
        DescendStep(root, p, depth, start, turns, t, pos);
        ghost var up := curr;
        var right := pos >= start + Size(curr.left);
        turns := Shifted(turns, right);
        if right {
          start := start + Size(curr.left);
          curr := curr.right;
        } else {
          curr := curr.left;
        }
        t := Turn(t, up, right);
        depth := depth + 1;
        path[depth] := curr;
        p := p[depth := curr];
      }
    }

    /**
     `_S_setcache`: path cache and buffer from scratch. A root that has a C string at the time is treated as a leaf.
     */
    method SetCache(rootIsFlat: bool)
      requires Ready()
      modifies this`leafPos, this`buf, this`at, this`leafIndex, this`dirs, this`trail, pathEnd
      ensures Valid() && (at >= 0 <==> pos < Size(root))
    {
      if pos >= Size(root) {
        at := -1;
        return;
      }
      if rootIsFlat {
        TrailText(Root, root);
        buf, at := Flatten(root), pos;
        pathEnd[0] := root;
        leafIndex, leafPos, trail := 0, 0, Root;
        return;
      }
      var path, depth, start, turns;
      ghost var t;
      path, depth, start, turns, t := WalkDown();
      var i := CopyEnd(path, depth);
      LastNodesFrame(path[..], pathEnd[..], depth - i, i, t, root);
      leafPos, leafIndex, dirs, trail := start, i, turns, t;
      SetBuf();
    }

    /** The last section of the path goes into the cache. */
    method CopyEnd(path: array<Rope<C>>, depth: nat) returns (i: int)
      requires depth < path.Length && path != pathEnd && pathEnd.Length == CACHE_LEN
      modifies pathEnd
      ensures i == if depth < CACHE_LEN then depth else CACHE_LEN - 1
      ensures forall k :: 0 <= k <= i ==> pathEnd[..][k] == path[..][k + (depth - i)]
    {
      i := -1;
      var j := depth + 1 - CACHE_LEN;
      if j < 0 {
        j := 0;
      }
      ghost var off := j;
      while j <= depth
        invariant off <= j <= depth + 1 && i == j - off - 1 && depth - off < CACHE_LEN
        invariant forall k :: 0 <= k <= i ==> pathEnd[k] == path[k + off]
      {
        i := i + 1;
        pathEnd[i] := path[j];
        j := j + 1;
      }
    }

    /** `_S_setcache_for_incr`: the path cache is moved on from the leaf that ends at the position. */
    method SetCacheForIncr(rootIsFlat: bool)
      requires Ready() && PathOk() && leafPos <= pos <= leafPos + Size(At(trail, root))
      requires At(trail, root).Concat? ==> pos == Size(root)
      modifies this`leafPos, this`buf, this`at, this`leafIndex, this`dirs, this`trail, pathEnd
      ensures Valid() && (at >= 0 <==> pos < Size(root))
    {
      TrailShape(trail, root);
      if pos - leafPos < Size(pathEnd[leafIndex]) {
        SetBuf();
        return;
      }
      var idx, start, turns;
      ghost var t;
      idx, start, turns, t := Climb();
      if idx < 0 {
        SetCache(rootIsFlat);
        return;
      }
      NextLeaf(idx, start, turns, t);
      TrailShape(trail, root);
      SizePositive(At(trail, root));
      SetBuf();
    }

    /** Up the cached path, past every node that was reached by turning right. */
    method Climb() returns (idx: int, start: nat, turns: nat, ghost t: Trail<C>)
      requires Ready() && PathOk() && pos == leafPos + Size(At(trail, root))
      ensures -1 <= idx < CACHE_LEN - 1
      ensures AtEnd(root, pathEnd[..], idx + 1, start, turns, t, pos) && (idx >= 0 ==> turns % 2 == 0)
    {
      idx, start, turns, t := leafIndex, leafPos, dirs, trail;
      ghost var p := pathEnd[..];
      idx := idx - 1;
      while idx >= 0 && turns % 2 == 1
        invariant -1 <= idx < CACHE_LEN - 1 && p == pathEnd[..]
        invariant AtEnd(root, p, idx + 1, start, turns, t, pos)
      {
        ClimbStep(root, p, idx, start, turns, t, pos);
        var node := pathEnd[idx];
        start := start - Size(node.left);
        turns := turns / 2;
        t := t.up;
        idx := idx - 1;
      }
    }

    /** Into the right child, and then down its left side. */
    method NextLeaf(idx0: int, start0: nat, turns0: nat, ghost t0: Trail<C>)
      requires Ready() && 0 <= idx0 < CACHE_LEN - 1 && turns0 % 2 == 0
      requires AtEnd(root, pathEnd[..], idx0 + 1, start0, turns0, t0, pos)
      modifies this`leafPos, this`leafIndex, this`dirs, this`trail, pathEnd
      ensures PathOk() && leafPos == pos && !At(trail, root).Concat?
    {
      var idx, turns := idx0, turns0;
      ghost var p, t := pathEnd[..], t0;
      CrossOver(root, p, idx, start0, turns, t, pos);
      var curr := pathEnd[idx];
      var start := start0 + Size(curr.left);
      t := Turn(t.up, curr, true);
      curr := curr.right;
      idx := idx + 1;
      pathEnd[idx] := curr;
      p := p[idx := curr];
      turns := turns + 1;
      while curr.Concat?
        invariant 0 <= idx < CACHE_LEN && p == pathEnd[..] && curr == At(t, root)
        invariant AtStart(root, p, idx, start, turns, t, pos)
        decreases curr
      {
        DownLeft(root, p, idx, start, turns, t, pos);
        idx := idx + 1;
        if idx == CACHE_LEN {
          var i := 0;
          while i < CACHE_LEN - 1
            invariant 0 <= i < CACHE_LEN && (forall k :: 0 <= k < i ==> pathEnd[k] == p[k + 1])
            invariant forall k :: i <= k < CACHE_LEN ==> pathEnd[k] == p[k]
          {
            pathEnd[i] := pathEnd[i + 1];
            i := i + 1;
          }
          p := p[1..] + [p[CACHE_LEN - 1]];
          idx := idx - 1;
        }
        t := Turn(t, curr, false);
        curr := curr.left;
        pathEnd[idx] := curr;
        p := p[idx := curr];
        turns := Shifted(turns, false);
      }
      leafIndex, leafPos, dirs, trail := idx, start, turns, t;
    }

    /** `_M_incr`: the position goes forward; at the end of the buffer the cache is moved on. */
    method Incr(n: nat, rootIsFlat: bool)
      requires Valid() && pos + n <= Size(root)
      modifies this`pos, this`leafPos, this`buf, this`at, this`leafIndex, this`dirs, this`trail, pathEnd
      ensures Valid() && pos == old(pos) + n
    {
      pos := pos + n;
      if at >= 0 {
        var left := |buf| - at;
        if left > n {
          at := at + n;
        } else if left == n {
          at := at + n;
          SetCacheForIncr(rootIsFlat);
        } else {
          at := -1;
        }
      }
    }

    /** `_M_decr`: the position goes back, inside the buffer if it can. */
    method Decr(n: nat)
      requires Valid() && n <= pos
      modifies this`pos, this`at
      ensures Valid() && pos == old(pos) - n
    {
      if at >= 0 {
        if at >= n {
          at := at - n;
        } else {
          at := -1;
        }
      }
      pos := pos - n;
    }

    /** `operator*`: the character of the text at the position, from the cache or not. */
    method Deref(rootIsFlat: bool) returns (c: C)
      requires Valid() && pos < Size(root)
      modifies this`leafPos, this`buf, this`at, this`leafIndex, this`dirs, this`trail, pathEnd
      ensures Valid() && c == Flatten(root)[pos]
    {
      if at < 0 {
        SetCache(rootIsFlat);
      }
      c := buf[at];
    }
  }

  /** The state of the walk: where it is, what it has stored, and which turns it remembers. */
  ghost predicate Descended<C>(root: Rope<C>, p: seq<Rope<C>>, depth: nat, start: nat, turns: nat, t: Trail<C>,
                               pos: nat) {
    && Wf(root) && !root.Nil? && Depth(root) <= MAX_DEPTH && |p| == MAX_DEPTH + 1
    && Genuine(t, root) && Length(t) == depth && Start(t) == start
    && start <= pos < start + Size(At(t, root))
    && LastNodes(p, depth, t, root) && LastTurns(turns, Kept(t), t)
  }

  /** The position is just after the node at the end of the trail. */
  ghost predicate AtEnd<C>(root: Rope<C>, p: seq<Rope<C>>, idx: int, start: nat, turns: nat, t: Trail<C>, pos: nat) {
    && Wf(root) && !root.Nil? && Genuine(t, root) && start == Start(t) && pos == start + Size(At(t, root))
    && LastNodes(p, idx, t, root) && LastTurns(turns, idx, t) && |p| == CACHE_LEN
  }

  /** The position is at the first character of the node at the end of the trail. */
  ghost predicate AtStart<C>(root: Rope<C>, p: seq<Rope<C>>, idx: int, start: nat, turns: nat, t: Trail<C>, pos: nat) {
    && Wf(root) && !root.Nil? && Genuine(t, root) && start == Start(t) && pos == start
    && LastNodes(p, idx, t, root) && LastTurns(turns, idx, t) && |p| == CACHE_LEN
  }

  lemma ClimbStep<C>(root: Rope<C>, p: seq<Rope<C>>, idx: int, start: nat, turns: nat, t: Trail<C>, pos: nat)
    requires 0 <= idx < CACHE_LEN - 1 && AtEnd(root, p, idx + 1, start, turns, t, pos) && turns % 2 == 1
    ensures t.Turn? && p[idx] == t.node && t.node.Concat? && Size(t.node.left) <= start
    ensures AtEnd(root, p, idx, start - Size(t.node.left), turns / 2, t.up, pos)
  {
    assert LastNodes(p, idx, t.up, root);
    TrailShape(t.up, root);
    ConcatText(t.node);
  }

  /** From the end of a left child to the start of the right child. */
  lemma CrossOver<C>(root: Rope<C>, p: seq<Rope<C>>, idx: int, start: nat, turns: nat, t: Trail<C>, pos: nat)
    requires 0 <= idx < CACHE_LEN - 1 && AtEnd(root, p, idx + 1, start, turns, t, pos) && turns % 2 == 0
    ensures t.Turn? && p[idx] == t.node && t.node.Concat?
    ensures var n := t.node;
            AtStart(root, p[idx + 1 := n.right], idx + 1, start + Size(n.left), turns + 1, Turn(t.up, n, true), pos)
  {
    var n := t.node;
    LastNodesFrame(p, p[idx + 1 := n.right], 0, idx, t.up, root);
    var u := Turn(t.up, n, true);
    assert (turns + 1) / 2 == turns / 2 && (turns + 1) % 2 == 1;
    assert LastTurns(turns / 2, idx, t.up) && !t.right;
    assert LastTurns(turns + 1, idx + 1, u);
    assert At(u, root) == n.right && LastNodes(p[idx + 1 := n.right], idx, u.up, root);
  }

  /** One step down to the left, with or without dropping the oldest cached node. */
  lemma DownLeft<C>(root: Rope<C>, p: seq<Rope<C>>, idx: int, start: nat, turns: nat, t: Trail<C>, pos: nat)
    requires 0 <= idx < CACHE_LEN && AtStart(root, p, idx, start, turns, t, pos) && At(t, root).Concat?
    ensures var n := At(t, root);
            var q := if idx + 1 == CACHE_LEN then p[1..] + [p[CACHE_LEN - 1]] else p;
            var k := if idx + 1 == CACHE_LEN then idx else idx + 1;
            AtStart(root, q[k := n.left], k, start, Shifted(turns, false), Turn(t, n, false), pos)
  {
    var n := At(t, root);
    var u := Turn(t, n, false);
    TurnsShift(turns, idx, t, n, false);
    if idx + 1 == CACHE_LEN {
      FewerTurns(Shifted(turns, false), idx + 1, idx, u);
      var q := p[1..] + [p[CACHE_LEN - 1]];
      LastNodesFrame(p, q[idx := n.left], 1, idx - 1, t, root);
    } else {
      LastNodesFrame(p, p[idx + 1 := n.left], 0, idx, t, root);
    }
  }

  lemma DescendStep<C>(root: Rope<C>, p: seq<Rope<C>>, depth: nat, start: nat, turns: nat, t: Trail<C>, pos: nat)
    requires Descended(root, p, depth, start, turns, t, pos) && At(t, root).Concat?
    ensures depth + 1 <= MAX_DEPTH
    ensures var n := At(t, root);
            var right := pos >= start + Size(n.left);
            var child := if right then n.right else n.left;
            Descended(root, p[depth + 1 := child], depth + 1, start + (if right then Size(n.left) else 0),
                      Shifted(turns, right), Turn(t, n, right), pos)
  {
    var n := At(t, root);
    var right := pos >= start + Size(n.left);
    var child := if right then n.right else n.left;
    var u := Turn(t, n, right);
    TrailShape(t, root);
    TrailShape(u, root);
    TurnsShift(turns, Kept(t), t, n, right);
    FewerTurns(Shifted(turns, right), Kept(t) + 1, Kept(u), u);
    LastNodesFrame(p, p[depth + 1 := child], 0, depth, t, root);
  }
}
