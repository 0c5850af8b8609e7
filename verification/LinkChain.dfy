/** Chains of nodes linked one way. */
module LinkChain {

  /** Following the links from `head` through the blocks of `q` ends at `tail`. */
  predicate Chain(head: nat, q: seq<nat>, link: map<nat, nat>, tail: nat)
    decreases |q|
  {
    if q == [] then head == tail
    else head == q[0] && head in link && Chain(link[head], q[1..], link, tail)
  }

  lemma {:induction false} ChainFrame(head: nat, q: seq<nat>, link: map<nat, nat>, tail: nat, a: nat, v: nat)
    requires Chain(head, q, link, tail) && a !in q
    ensures Chain(head, q, link[a := v], tail)
    decreases |q|
  {
    if q != [] {
      ChainFrame(link[head], q[1..], link, tail, a, v);
    }
  }

  lemma {:induction false} ChainExtend(head: nat, q: seq<nat>, link: map<nat, nat>, tail: nat, v: nat)
    requires Chain(head, q, link, tail) && tail !in q
    ensures Chain(head, q + [tail], link[tail := v], v)
    decreases |q|
  {
    if q == [] {
      assert ([tail] + [])[1..] == [];
      assert q + [tail] == [tail];
    } else {
      ChainExtend(link[head], q[1..], link, tail, v);
      assert (q + [tail])[1..] == q[1..] + [tail];
    }
  }

  /** A chain of two parts passes through the beginning of the second. */
  lemma {:induction false} ChainSplit(head: nat, p: seq<nat>, q: seq<nat>, link: map<nat, nat>, tail: nat)
    ensures Chain(head, p + q, link, tail) <==>
              Chain(head, p, link, (q + [tail])[0]) && Chain((q + [tail])[0], q, link, tail)
    decreases |p|
  {
    if p == [] {
      assert p + q == q;
      assert Chain(head, q, link, tail) ==> head == (q + [tail])[0];
    } else {
      assert (p + q)[0] == p[0] && (p + q)[1..] == p[1..] + q;
      if head in link {
        ChainSplit(link[head], p[1..], q, link, tail);
      }
    }
  }

  lemma {:induction false} ChainSame(head: nat, q: seq<nat>, link: map<nat, nat>, link': map<nat, nat>, tail: nat)
    requires Chain(head, q, link, tail) && forall x :: x in q && x in link ==> x in link' && link'[x] == link[x]
    ensures Chain(head, q, link', tail)
    decreases |q|
  {
    if q != [] {
      assert head in q;
      ChainSame(link[head], q[1..], link, link', tail);
    }
  }
}
