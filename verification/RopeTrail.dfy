/**
 Positions inside a rope, for the path cache of the iterators (headers/cpp/stl_rope.h:866-899).
 A `Trail` is the way from the root down to a node, with the turns taken.
 */
module RopeTrail {
  import opened Basics
  import opened RopeTree

  const CACHE_LEN: nat := 4

  datatype Trail<C> = Root | Turn(up: Trail<C>, node: Rope<C>, right: bool)

  /** The node at the end of a trail. */
  function At<C>(t: Trail<C>, root: Rope<C>): Rope<C> {
    if t.Root? then root
    else if t.node.Concat? then (if t.right then t.node.right else t.node.left)
    else Nil
  }

  /** Every step of the trail is a step in the rope. */
  ghost predicate Genuine<C>(t: Trail<C>, root: Rope<C>) {
    t.Turn? ==> t.node == At(t.up, root) && t.node.Concat? && Genuine(t.up, root)
  }

  /** The position in the whole text at which the node begins. */
  function Start<C>(t: Trail<C>): nat {
    if t.Root? then 0
    else Start(t.up) + if t.right && t.node.Concat? then Size(t.node.left) else 0
  }

  function Length<C>(t: Trail<C>): nat {
    if t.Root? then 0 else 1 + Length(t.up)
  }

  lemma {:induction false} TrailShape<C>(t: Trail<C>, root: Rope<C>)
    requires Genuine(t, root) && Wf(root) && !root.Nil?
    ensures Wf(At(t, root)) && !At(t, root).Nil? && Start(t) + Size(At(t, root)) <= Size(root)
    ensures Length(t) + Depth(At(t, root)) <= Depth(root)
    decreases t
  {
    if t.Turn? {
      TrailShape(t.up, root);
    }
  }

  /** The text of `n` is the part of the whole text that starts at `start`. */
  ghost predicate LiesAt<C>(root: Rope<C>, start: nat, n: Rope<C>) {
    && Wf(root) && Wf(n) && start + Size(n) <= Size(root)
    && Flatten(root)[start..start + Size(n)] == Flatten(n)
  }

  /** The text of the node at the end of a trail is the part of the whole text that starts there. */
  lemma {:induction false} TrailText<C>(t: Trail<C>, root: Rope<C>)
    requires Genuine(t, root) && Wf(root) && !root.Nil?
    ensures LiesAt(root, Start(t), At(t, root))
    decreases t
  {
    if t.Root? {
      assert Flatten(root)[..Size(root)] == Flatten(root);
    } else {
      TrailText(t.up, root);
      ChildText(root, Start(t.up), t.node);
      TurnText(t, root);
    }
  }

  /** The texts of the two children of a node whose text is a known part of the whole. */
  lemma ChildText<C>(root: Rope<C>, from: nat, n: Rope<C>)
    requires LiesAt(root, from, n) && n.Concat?
    ensures LiesAt(root, from, n.left) && LiesAt(root, from + Size(n.left), n.right)
  {
    ConcatText(n);
    LiesWithin(root, from, n, 0, n.left);
    LiesWithin(root, from, n, Size(n.left), n.right);
  }

  lemma LiesWithin<C>(root: Rope<C>, from: nat, n: Rope<C>, off: nat, c: Rope<C>)
    requires LiesAt(root, from, n) && LiesAt(n, off, c)
    ensures LiesAt(root, from + off, c)
  {
    SliceOfSlice(Flatten(root), from, Flatten(n), off, Size(c));
  }

  lemma TurnText<C>(t: Trail<C>, root: Rope<C>)
    requires t.Turn? && t.node.Concat? && Wf(root)
    ensures At(t, root) == if t.right then t.node.right else t.node.left
    ensures Start(t) == Start(t.up) + if t.right then Size(t.node.left) else 0
  {
  }

  lemma ConcatText<C>(n: Rope<C>)
    requires Wf(n) && n.Concat?
    ensures LiesAt(n, 0, n.left) && LiesAt(n, Size(n.left), n.right)
  {
    var a, b := Flatten(n.left), Flatten(n.right);
    assert (a + b)[0..|a|] == a && (a + b)[|a|..|a| + |b|] == b;
  }

  /** `nodes[..idx + 1]` are the last nodes of the trail. */
  ghost predicate LastNodes<C>(nodes: seq<Rope<C>>, idx: int, t: Trail<C>, root: Rope<C>) {
    && 0 <= idx < |nodes| && nodes[idx] == At(t, root)
    && (idx > 0 ==> t.Turn? && LastNodes(nodes, idx - 1, t.up, root))
  }

  /** The lowest `n` bits of the direction byte are the last `n` turns, newest first. */
  predicate LastTurns<C>(dirs: nat, n: nat, t: Trail<C>) {
    n == 0 || (t.Turn? && (dirs % 2 == 1 <==> t.right) && LastTurns(dirs / 2, n - 1, t.up))
  }

  /** `__dirns <<= 1` on an unsigned char, and then the new turn in the lowest bit. */
  function Shifted(dirs: nat, right: bool): nat {
    (2 * dirs) % 256 + if right then 1 else 0
  }

  /** The trail's turns, as many as there are, up to the length of the cache. */
  function Kept<C>(t: Trail<C>): nat {
    if Length(t) < CACHE_LEN then Length(t) else CACHE_LEN - 1
  }

  lemma TurnsShift<C>(dirs: nat, n: nat, t: Trail<C>, node: Rope<C>, right: bool)
    requires LastTurns(dirs, n, t) && n < CACHE_LEN
    ensures LastTurns(Shifted(dirs, right), n + 1, Turn(t, node, right))
  {
    var d := Shifted(dirs, right);
    assert d / 2 == dirs % 128 && (d % 2 == 1 <==> right);
    LowBits(dirs, n, t, 128);
  }

  /** Only the lowest bits count. */
  lemma {:induction false} LowBits<C>(dirs: nat, n: nat, t: Trail<C>, m: nat)
    requires LastTurns(dirs, n, t)
    requires (m == 128 && n <= 3) || (m == 64 && n <= 2) || (m == 32 && n <= 1) || (m == 16 && n == 0)
    ensures LastTurns(dirs % m, n, t)
    decreases n
  {
    if n > 0 {
      LowBits(dirs / 2, n - 1, t.up, m / 2);
      HalfBits(dirs, m);
    }
  }

  lemma HalfBits(dirs: nat, m: nat)
    requires m == 128 || m == 64 || m == 32
    ensures (dirs % m) % 2 == dirs % 2 && (dirs % m) / 2 == (dirs / 2) % (m / 2)
  {
    if m == 128 {
      HalfOf128(dirs);
    } else if m == 64 {
      HalfOf64(dirs);
    } else {
      HalfOf32(dirs);
    }
  }

  lemma HalfOf128(dirs: nat)
    ensures (dirs % 128) % 2 == dirs % 2 && (dirs % 128) / 2 == (dirs / 2) % 64
  {
    var q, r := dirs / 128, dirs % 128;
    assert dirs / 2 == 64 * q + r / 2;
  }

  lemma HalfOf64(dirs: nat)
    ensures (dirs % 64) % 2 == dirs % 2 && (dirs % 64) / 2 == (dirs / 2) % 32
  {
    var q, r := dirs / 64, dirs % 64;
    assert dirs / 2 == 32 * q + r / 2;
  }

  lemma HalfOf32(dirs: nat)
    ensures (dirs % 32) % 2 == dirs % 2 && (dirs % 32) / 2 == (dirs / 2) % 16
  {
    var q, r := dirs / 32, dirs % 32;
    assert dirs / 2 == 16 * q + r / 2;
  }

  lemma {:induction false} FewerTurns<C>(dirs: nat, n: nat, k: nat, t: Trail<C>)
    requires LastTurns(dirs, n, t) && k <= n
    ensures LastTurns(dirs, k, t)
    decreases k
  {
    if k > 0 {
      FewerTurns(dirs / 2, n - 1, k - 1, t.up);
    }
  }

  lemma {:induction false} LastNodesFrame<C>(p: seq<Rope<C>>, q: seq<Rope<C>>, off: nat, idx: int, t: Trail<C>,
                                             root: Rope<C>)
    requires LastNodes(p, idx + off, t, root) && 0 <= idx < |q|
    requires forall i :: 0 <= i <= idx ==> i + off < |p| && q[i] == p[i + off]
    ensures LastNodes(q, idx, t, root)
    decreases idx
  {
    if idx > 0 {
      LastNodesFrame(p, q, off, idx - 1, t.up, root);
    }
  }
}
