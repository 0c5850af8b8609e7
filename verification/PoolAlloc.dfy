/** `__default_alloc_template` (headers/cpp/stl_alloc.h:323-559), single-threaded. */
module PoolAlloc {
  import opened Basics
  import opened PoolBytes
  import opened PoolBooks
  import opened LinkChain

  /** `_S_round_up`: `(bytes + 7) & ~7`. */
  function RoundUp(bytes: nat): (r: nat)
    ensures r % ALIGN == 0 && bytes <= r < bytes + ALIGN
  {
    (bytes + ALIGN - 1) / ALIGN * ALIGN
  }

  /** `_S_freelist_index`. */
  function Index(bytes: nat): (k: nat)
    requires bytes > 0
    ensures BlockSize(k) == RoundUp(bytes) && (bytes <= MAX_BYTES ==> k < LISTS)
  {
    (bytes + ALIGN - 1) / ALIGN - 1
  }

  predicate Aligned(n: nat) {
    n > 0 && n % ALIGN == 0
  }

  lemma Multiples(size: nat, n: nat, left: nat)
    requires Aligned(size) && n > 0
    ensures Aligned(size * n) && size * n >= size
    ensures size <= left < size * n ==>
              Aligned(size * (left / size)) && size * (left / size) <= left && 1 <= left / size <= n
  {
    MultipleOf(size, n);
    if size <= left < size * n {
      var c := left / size;
      assert left == size * c + left % size;
      assert (c < 1 ==> size * c <= 0) && (c > n ==> size * c >= size * n);
      MultipleOf(size, c);
    }
  }

  lemma MultipleOf(size: nat, n: nat)
    requires Aligned(size) && n > 0
    ensures Aligned(size * n) && size * n >= size
  {
    var m := size / ALIGN;
    assert size * n == ALIGN * (m * n);
    assert size * n >= size * 1;
  }

  lemma TwiceAndMore(total: nat, r: nat)
    requires Aligned(total) && r % ALIGN == 0
    ensures Aligned(2 * total + r)
  {
    var m, q := total / ALIGN, r / ALIGN;
    assert 2 * total + r == ALIGN * (2 * m + q);
  }

  lemma SumOfMultiples(a: nat, n: nat)
    requires a % ALIGN == 0 && n % ALIGN == 0
    ensures (a + n) % ALIGN == 0
  {
  }

  lemma LessByMultiple(a: nat, n: nat)
    requires a % ALIGN == 0 && n % ALIGN == 0 && n <= a
    ensures (a - n) % ALIGN == 0
  {
  }

  // ---------- where the next chunk comes from ----------

  /** The free lists with the bump region. */
  datatype Pool = Pool(lists: seq<seq<nat>>, lo: nat, hi: nat)

  /** The first non-empty list from class `k` on. */
  ghost function FirstFrom(lists: seq<seq<nat>>, k: nat): (j: nat)
    ensures k < |lists| ==> k <= j <= |lists|
    ensures forall i :: k <= i < j && i < |lists| ==> lists[i] == []
    ensures k <= j < |lists| ==> lists[j] != []
    decreases |lists| - k
  {
    if k >= |lists| then k else if lists[k] != [] then k else FirstFrom(lists, k + 1)
  }

  /** `a` is the first block of the first non-empty list from class `k` on. */
  ghost predicate LeastBlock(lists: seq<seq<nat>>, k: nat, a: nat) {
    exists j :: k <= j < |lists| && lists[j] != [] && a == lists[j][0] && forall i :: k <= i < j ==> lists[i] == []
  }

  lemma FirstIs(lists: seq<seq<nat>>, k: nat, j: nat)
    requires k <= j < |lists| && lists[j] != [] && forall i :: k <= i < j ==> lists[i] == []
    ensures FirstFrom(lists, k) == j
  {
  }

  /** What is left of the bump region is the first block of the list of its size. */
  ghost function Recycled(lists: seq<seq<nat>>, lo: nat, hi: nat): seq<seq<nat>> {
    if lo < hi <= lo + MAX_BYTES && Index(hi - lo) < |lists| then
      lists[Index(hi - lo) := [lo] + lists[Index(hi - lo)]]
    else
      lists
  }

  /**
   The pool once a region too small for `size` is put away: malloc's memory, else the first block of the smallest class
   that has one, else the last resort.
   */
  ghost function Supplied(pool: Pool, size: nat, get: nat, first: nat, second: nat): Pool
    requires size > 0
  {
    var lists := Recycled(pool.lists, pool.lo, pool.hi);
    var j := FirstFrom(lists, Index(size));
    if first != 0 then
      Pool(lists, first, first + get)
    else if j < |lists| then
      Pool(lists[j := lists[j][1..]], lists[j][0], lists[j][0] + BlockSize(j))
    else if second != 0 then
      Pool(lists, second, second + get)
    else
      Pool(lists, 0, 0)
  }

  /** The pool that serves a request: the one there is when its region has room for one block. */
  ghost function Source(pool: Pool, size: nat, get: nat, first: nat, second: nat): Pool
    requires size > 0
  {
    if pool.hi - pool.lo >= size then pool else Supplied(pool, size, get, first, second)
  }

  /** As many blocks as are asked for and fit. */
  function Fitting(room: nat, size: nat, nobjs: nat): (c: nat)
    requires size > 0
    ensures c <= nobjs && size * c <= room && (c == nobjs || room < size * (c + 1))
  {
    FitsBy(room, size, nobjs);
    if room >= size * nobjs then nobjs else room / size
  }

  lemma FitsBy(room: nat, size: nat, nobjs: nat)
    requires size > 0
    ensures var c := if room >= size * nobjs then nobjs else room / size;
            c <= nobjs && size * c <= room && (c == nobjs || room < size * (c + 1))
  {
    if room < size * nobjs {
      var c := room / size;
      assert room == size * c + room % size && size * (c + 1) == size * c + size;
      assert c > nobjs ==> size * c >= size * nobjs;
    }
  }

  // ---------- addresses ----------

  /** The region, all free blocks and all blocks given out start at multiples of 8. */
  ghost predicate OnBoundaries(pool: Pool, live: map<nat, nat>) {
    && (pool.lo < pool.hi ==> pool.lo % ALIGN == 0)
    && (forall k, a :: 0 <= k < |pool.lists| && a in pool.lists[k] ==> a % ALIGN == 0)
    && (forall a :: a in live ==> a % ALIGN == 0)
  }

  lemma RecycledOnBoundaries(pool: Pool, live: map<nat, nat>)
    requires OnBoundaries(pool, live)
    ensures OnBoundaries(Pool(Recycled(pool.lists, pool.lo, pool.hi), 0, 0), live)
  {
    if pool.lo < pool.hi <= pool.lo + MAX_BYTES && Index(pool.hi - pool.lo) < |pool.lists| {
      PushedOnBoundaries(pool, live, Index(pool.hi - pool.lo), pool.lo);
    }
  }

  lemma PushedOnBoundaries(pool: Pool, live: map<nat, nat>, k: nat, a: nat)
    requires OnBoundaries(pool, live) && k < |pool.lists| && a % ALIGN == 0
    ensures OnBoundaries(pool.(lists := pool.lists[k := [a] + pool.lists[k]]), live)
  {
  }

  lemma PoppedOnBoundaries(pool: Pool, live: map<nat, nat>, k: nat)
    requires OnBoundaries(pool, live) && k < |pool.lists| && pool.lists[k] != []
    ensures pool.lists[k][0] % ALIGN == 0
    ensures OnBoundaries(pool.(lists := pool.lists[k := pool.lists[k][1..]]), live)
  {
    assert pool.lists[k][0] in pool.lists[k];
    assert forall a :: a in pool.lists[k][1..] ==> a in pool.lists[k];
  }

  /** Whatever pool serves a request, it keeps to the boundaries if malloc's answers do. */
  lemma SourceOnBoundaries(pool: Pool, live: map<nat, nat>, size: nat, get: nat, first: nat, second: nat)
    requires OnBoundaries(pool, live) && size > 0 && first % ALIGN == 0 && second % ALIGN == 0
    ensures OnBoundaries(Source(pool, size, get, first, second), live)
  {
    if pool.hi - pool.lo < size {
      var lists := Recycled(pool.lists, pool.lo, pool.hi);
      var j := FirstFrom(lists, Index(size));
      RecycledOnBoundaries(pool, live);
      if first == 0 && j < |lists| {
        PoppedOnBoundaries(Pool(lists, 0, 0), live, j);
      }
    }
  }

  lemma {:induction false} BlocksOnBoundaries(a: nat, n: nat, c: nat)
    requires a % ALIGN == 0 && n % ALIGN == 0
    ensures forall x :: x in Blocks(a, n, c) ==> x % ALIGN == 0
    decreases c
  {
    if c > 0 {
      BlocksOnBoundaries(a + n, n, c - 1);
    }
  }

  /** And so does what is left when up to twenty blocks have been cut from it, and the blocks themselves. */
  lemma CutOnBoundaries(pool: Pool, live: map<nat, nat>, n: nat, count: nat)
    requires OnBoundaries(pool, live) && Aligned(n) && count > 0 && pool.lo <= pool.hi && n * count <= pool.hi - pool.lo
    requires Index(n) < |pool.lists|
    ensures var k := Index(n);
            OnBoundaries(Pool(pool.lists[k := Blocks(pool.lo + n, n, count - 1)], pool.lo + n * count, pool.hi),
                         live[pool.lo := n])
  {
    MultipleOf(n, count);
    SumOfMultiples(pool.lo, n);
    BlocksOnBoundaries(pool.lo + n, n, count - 1);
    CutFromBoundary(pool, live, n, n * count, Index(n), Blocks(pool.lo + n, n, count - 1));
  }

  lemma CutFromBoundary(pool: Pool, live: map<nat, nat>, n: nat, used: nat, k: nat, q: seq<nat>)
    requires OnBoundaries(pool, live) && pool.lo < pool.hi && used % ALIGN == 0 && k < |pool.lists|
    requires forall x :: x in q ==> x % ALIGN == 0
    ensures OnBoundaries(Pool(pool.lists[k := q], pool.lo + used, pool.hi), live[pool.lo := n])
  {
    assert (pool.lo + used) % ALIGN == 0;
  }

  // ---------- the free lists ----------

  /** The sixteen list heads and the links in the free blocks agree with `lists`. */
  ghost predicate Chains(heads: seq<nat>, lists: seq<seq<nat>>, link: map<nat, nat>) {
    && |heads| == |lists| == LISTS
    && forall k :: 0 <= k < LISTS ==> Chain(heads[k], lists[k], link, 0) && 0 !in lists[k]
  }

  lemma ChainsPush(heads: seq<nat>, lists: seq<seq<nat>>, link: map<nat, nat>, k: nat, a: nat)
    requires Chains(heads, lists, link) && k < LISTS && a > 0
    requires forall j :: 0 <= j < LISTS ==> a !in lists[j]
    ensures Chains(heads[k := a], lists[k := [a] + lists[k]], link[a := heads[k]])
  {
    var heads', lists', link' := heads[k := a], lists[k := [a] + lists[k]], link[a := heads[k]];
    forall j | 0 <= j < LISTS ensures Chain(heads'[j], lists'[j], link', 0) && 0 !in lists'[j] {
      ChainFrame(heads[j], lists[j], link, 0, a, heads[k]);
      if j == k {
        assert ([a] + lists[k])[1..] == lists[k];
      }
    }
  }

  lemma ChainsPop(heads: seq<nat>, lists: seq<seq<nat>>, link: map<nat, nat>, k: nat)
    requires Chains(heads, lists, link) && k < LISTS
    ensures heads[k] == 0 <==> lists[k] == []
    ensures heads[k] != 0 ==> heads[k] == lists[k][0] && heads[k] in link
                              && Chains(heads[k := link[heads[k]]], lists[k := lists[k][1..]], link)
  {
    assert Chain(heads[k], lists[k], link, 0) && 0 !in lists[k];
  }

  /** A list being built: its first blocks are linked, the other lists are as they were. */
  ghost predicate Building(heads: seq<nat>, lists: seq<seq<nat>>, link: map<nat, nat>, k: nat, linked: nat, next: nat) {
    && |heads| == |lists| == LISTS && k < LISTS && linked <= |lists[k]|
    && Chain(heads[k], lists[k][..linked], link, next)
    && (forall j :: 0 <= j < LISTS && j != k ==> Chain(heads[j], lists[j], link, 0))
  }

  lemma BuildMore(heads: seq<nat>, lists: seq<seq<nat>>, link: map<nat, nat>, k: nat, linked: nat, v: nat)
    requires |lists| == LISTS && k < LISTS && linked < |lists[k]| && NoRepeats(lists[k])
    requires Building(heads, lists, link, k, linked, lists[k][linked])
    requires forall j :: 0 <= j < LISTS && j != k ==> lists[k][linked] !in lists[j]
    ensures Building(heads, lists, link[lists[k][linked] := v], k, linked + 1, v)
  {
    var q := lists[k];
    ChainExtend(heads[k], q[..linked], link, q[linked], v);
    assert q[..linked] + [q[linked]] == q[..linked + 1];
    forall j | 0 <= j < LISTS && j != k ensures Chain(heads[j], lists[j], link[q[linked] := v], 0) {
      ChainFrame(heads[j], lists[j], link, 0, q[linked], v);
    }
  }

  lemma {:induction false} BlocksAt(a: nat, n: nat, c: nat, i: nat)
    requires i < c
    ensures |Blocks(a, n, c)| == c && Blocks(a, n, c)[0] == a
    ensures i + 1 < c ==> Blocks(a, n, c)[i + 1] == Blocks(a, n, c)[i] + n
    decreases c
  {
    if c > 1 {
      BlocksAt(a + n, n, c - 1, if i == 0 then 0 else i - 1);
    }
  }

  /** No block is on two lists, and none is null. */
  lemma OneList(owner: map<nat, Owner>, ws: set<Owner>, lists: seq<seq<nat>>, live: map<nat, nat>, lo: nat, hi: nat,
                k: nat, a: nat)
    requires Books(owner, ws, lists, live, lo, hi) && k < LISTS && a in lists[k]
    ensures a > 0 && Free(a, k) in ws
    ensures forall j :: 0 <= j < LISTS && j != k ==> a !in lists[j]
  {
    var v := Free(a, k);
    assert v in ws;
    OneOwner(owner, ws, v, v);
    forall j | 0 <= j < LISTS && j != k ensures a !in lists[j] {
      NotThere(owner, ws, v, Free(a, j));
      assert !Active(Free(a, j), lists, live, lo, hi);
    }
  }

  /** No link was written inside a live block. */
  ghost predicate Untouched(live: map<nat, nat>, link: map<nat, nat>, link': map<nat, nat>) {
    forall a, x :: a in live && InBlock(a, live[a], x) ==>
             (x in link' <==> x in link) && (x in link ==> link'[x] == link[x])
  }

  predicate InBlock(a: nat, n: nat, x: nat) {
    a <= x < a + n
  }

  /** A place that begins a free block or the bump region is not inside a live block. */
  lemma OutsideLive(owner: map<nat, Owner>, ws: set<Owner>, lists: seq<seq<nat>>, live: map<nat, nat>, lo: nat, hi: nat,
                    link: map<nat, nat>, w: Owner, v: nat)
    requires Books(owner, ws, lists, live, lo, hi) && !w.Live? && w in ws
    ensures Untouched(live, link, link[w.at := v])
  {
    forall a | a in live ensures !InBlock(a, live[a], w.at) {
      assert Live(a, live[a]) in ws;
      assert Reaches(w, w.at) && owner[w.at] == w;
      assert !Reaches(Live(a, live[a]), w.at);
    }
  }

  class Allocator {
    const freeList: array<nat>
    var link: map<nat, nat>
    var startFree: nat
    var endFree: nat
    var heapSize: nat
    ghost var lists: seq<seq<nat>>
    ghost var live: map<nat, nat>
    ghost var owner: map<nat, Owner>
    ghost var owners: set<Owner>

    /** Everything but the place of the bump region, which is `lo..hi`. */
    ghost predicate Consistent(lo: nat, hi: nat)
      reads this, freeList
    {
      && freeList.Length == LISTS && Chains(freeList[..], lists, link)
      && Books(owner, owners, lists, live, lo, hi)
    }

    ghost predicate Valid()
      reads this, freeList
    {
      startFree <= endFree && Consistent(startFree, endFree) && (endFree - startFree) % ALIGN == 0
    }

    constructor ()
      ensures Valid() && live == map[] && owner == map[] && heapSize == 0 && fresh(freeList)
              && OnBoundaries(Now(), live)
    {
      freeList := new nat[LISTS](_ => 0);
      link, startFree, endFree, heapSize := map[], 0, 0, 0;
      lists, live, owner, owners := seq(LISTS, _ => []), map[], map[], {};
    }

    ghost function Now(): Pool
      reads this
    {
      Pool(lists, startFree, endFree)
    }

    /** A block is linked in at the head of a list. */
    method Push(k: nat, a: nat)
      requires freeList.Length == LISTS && Chains(freeList[..], lists, link) && k < LISTS && a > 0
      requires forall j :: 0 <= j < LISTS ==> a !in lists[j]
      modifies this`link, this`lists, freeList
      ensures Chains(freeList[..], lists, link) && lists == old(lists)[k := [a] + old(lists[k])]
      ensures link == old(link)[a := old(freeList[k])]
    {
      ChainsPush(freeList[..], lists, link, k, a);
      ghost var heads := freeList[..];
      link := link[a := freeList[k]];
      freeList[k] := a;
      lists := lists[k := [a] + lists[k]];
      assert freeList[..] == heads[k := a];
    }

    /** The head of a list is unlinked; null when the list is empty. */
    method Pop(k: nat) returns (a: nat)
      requires freeList.Length == LISTS && Chains(freeList[..], lists, link) && k < LISTS
      modifies this`lists, freeList
      ensures a == 0 ==> lists == old(lists) && lists[k] == [] && freeList[..] == old(freeList[..])
      ensures a != 0 ==> old(lists[k]) != [] && a == old(lists[k][0]) && lists == old(lists)[k := old(lists[k][1..])]
      ensures Chains(freeList[..], lists, link)
    {
      ChainsPop(freeList[..], lists, link, k);
      a := freeList[k];
      if a != 0 {
        ghost var heads := freeList[..];
        freeList[k] := link[a];
        lists := lists[k := lists[k][1..]];
        assert freeList[..] == heads[k := link[a]];
      }
    }

    // ---------- _S_chunk_alloc ----------

    /** What a dry `_S_chunk_alloc` asks malloc for. */
    function Request(size: nat, nobjs: nat): (n: nat)
      requires Aligned(size) && nobjs > 0
      reads this
      ensures Aligned(n) && n >= 2 * (size * nobjs) >= size
      ensures n == 2 * (size * nobjs) + RoundUp(heapSize / 16)
    {
      MultipleOf(size, nobjs);
      TwiceAndMore(size * nobjs, RoundUp(heapSize / 16));
      2 * (size * nobjs) + RoundUp(heapSize / 16)
    }

    /** What is left of the bump region, too small for `size`, goes to a list of smaller blocks. */
    method Recycle(size: nat)
      requires Valid() && endFree - startFree < size <= MAX_BYTES && Aligned(size)
      modifies this`link, this`lists, this`owner, this`owners, freeList
      ensures Consistent(0, 0) && owner.Keys == old(owner.Keys) && Untouched(live, old(link), link)
      ensures lists == Recycled(old(lists), startFree, endFree)
      ensures forall k :: Index(size) <= k < LISTS ==> lists[k] == old(lists[k])
    {
      var left := endFree - startFree;
      if left > 0 {
        var k := Index(left);
        OutsideLive(owner, owners, lists, live, startFree, endFree, link, Bump(startFree, left), freeList[k]);
        ghost var o, us := ShelveBump(owner, owners, lists, live, startFree, endFree, k);
        Push(k, startFree);
        owner, owners := o, us;
      } else {
        EmptyBump(owner, owners, lists, live, startFree);
      }
    }

    /** The out-of-memory scan: a free block of the size asked for or larger becomes the bump region. */
    method Scavenge(size: nat) returns (found: bool)
      requires Consistent(0, 0) && Aligned(size) && size <= MAX_BYTES
      modifies this`lists, this`owner, this`owners, this`startFree, this`endFree, freeList
      ensures found <==> !old(NothingFrom(Index(size)))
      ensures found ==> Valid() && endFree - startFree >= size
      ensures found ==> var j := FirstFrom(old(lists), Index(size));
                        && j < LISTS && startFree == old(lists)[j][0] && endFree == startFree + BlockSize(j)
                        && lists == old(lists)[j := old(lists)[j][1..]]
      ensures !found ==> lists == old(lists) && FirstFrom(lists, Index(size)) >= LISTS
      ensures !found ==> Consistent(0, 0) && startFree == old(startFree) && endFree == old(endFree)
      ensures owner.Keys == old(owner.Keys)
      ensures old(lists[Index(size)]) == [] ==> lists[Index(size)] == []
    {
      var i := size;
      while i <= MAX_BYTES
        invariant size <= i <= MAX_BYTES + ALIGN && i % ALIGN == 0
        invariant Consistent(0, 0) && owner == old(owner) && lists == old(lists)
        invariant startFree == old(startFree) && endFree == old(endFree)
        invariant forall k :: Index(size) <= k < LISTS && BlockSize(k) < i ==> lists[k] == []
      {
        var k := Index(i);
        found := TakeToBump(k, i);
        if found {
          FirstIs(old(lists), Index(size), k);
          return;
        }
        i := i + ALIGN;
      }
      found := false;
    }

    /** The first block of a list, if it has one, becomes the bump region. */
    method TakeToBump(k: nat, i: nat) returns (found: bool)
      requires Consistent(0, 0) && k < LISTS && i == BlockSize(k)
      modifies this`lists, this`owner, this`owners, this`startFree, this`endFree, freeList
      ensures found <==> old(lists[k]) != []
      ensures owner.Keys == old(owner.Keys) && (!found ==>
                                                  Consistent(0, 0) && Now() == old(Now()) && owner == old(owner))
      ensures found ==> Valid() && startFree == old(lists[k][0]) && endFree == startFree + i
      ensures found ==> lists == old(lists)[k := old(lists[k][1..])]
    {
      ghost var before := lists;
      var p := Pop(k);
      found := p != 0;
      if found {
        owner, owners := UnshelveToBump(owner, owners, before, live, k);
        startFree, endFree := p, p + i;
      }
    }

    /**
     `_S_chunk_alloc`. `first` and `second` are the answers of `malloc` and of `malloc_alloc::allocate`,
     null for no memory (for the second, an exception). The answer is null only when nothing could serve.
     The call it makes to itself finds memory, so there is at most one.
     */
    method ChunkAlloc(size: nat, nobjs: nat, first: nat, second: nat) returns (chunk: nat, count: nat)
      requires Valid() && Aligned(size) && size <= MAX_BYTES && nobjs > 0 && lists[Index(size)] == []
      requires Answer(first, Request(size, nobjs)) && Answer(second, Request(size, nobjs))
      modifies this, freeList
      ensures Valid() && Untouched(old(live), old(link), link)
      ensures lists[Index(size)] == []
      ensures chunk == 0 <==> old(endFree - startFree < size && first == 0 && second == 0 && NothingFrom(Index(size)))
      ensures chunk == 0 ==> live == old(live)
      ensures chunk != 0 ==> count > 0 && chunk !in old(live) && live == old(live)[chunk := size * count]
      ensures var pool := Source(old(Now()), size, old(Request(size, nobjs)), first, second);
              if chunk == 0 then Now() == pool else lists == pool.lists && CutFrom(pool, size, nobjs, chunk, count)
      ensures FromMalloc(old(owner).Keys, old(heapSize), first, second, old(Request(size, nobjs)))
      ensures chunk != 0 ==>
                Origin(old(Now()), old(owner).Keys, old(heapSize), size, old(Request(size, nobjs)), first, second,
                       chunk)
      ensures heapSize == old(heapSize) || heapSize == old(heapSize) + 2 * (size * nobjs) + RoundUp(old(heapSize) / 16)
      decreases if endFree - startFree >= size then 0 else 1
    {
      if endFree - startFree >= size {
        chunk, count := TakeFitting(size, nobjs);
      } else {
        ghost var pool, keys, heap := Now(), owner.Keys, heapSize;
        var get := Request(size, nobjs);
        var ok := Replenish(size, get, first, second);
        chunk, count := 0, 0;
        if ok {
          ghost var mid := link;
          OriginIs(pool, keys, heap, size, get, first, second);
          chunk, count := ChunkAlloc(size, nobjs, 0, 0);
          UntouchedStill(old(live), old(link), mid, link);
        }
      }
    }

    /**
     Where the memory at `chunk` comes from: the region if it has room for one block, else malloc, else the first block
     of the smallest class that has one, else the last resort. Only malloc and the last resort add bytes.
     */
    ghost predicate Origin(pool: Pool, keys: set<nat>, heap: nat, size: nat, get: nat, first: nat, second: nat,
                           chunk: nat)
      reads this
      requires size > 0
    {
      if pool.hi - pool.lo >= size then chunk == pool.lo && Kept(keys, heap)
      else if first != 0 then chunk == first && Grown(keys, first, get, heap)
      else if exists j :: Index(size) <= j < |pool.lists| && pool.lists[j] != [] then
        Kept(keys, heap) && LeastBlock(pool.lists, Index(size), chunk)
      else chunk == second && Grown(keys, second, get, heap)
    }

    /** What `Replenish` leaves is such an origin. */
    lemma OriginIs(pool: Pool, keys: set<nat>, heap: nat, size: nat, get: nat, first: nat, second: nat)
      requires |pool.lists| == LISTS && Aligned(size) && size <= MAX_BYTES && pool.lo <= pool.hi < pool.lo + size
      requires (pool.hi - pool.lo) % ALIGN == 0 && Now() == Supplied(pool, size, get, first, second)
      requires first != 0 ==> Grown(keys, first, get, heap)
      requires var some := exists j :: Index(size) <= j < LISTS && pool.lists[j] != [];
               && (first == 0 && some ==> Kept(keys, heap))
               && (first == 0 && !some ==> second != 0 && Grown(keys, second, get, heap))
      ensures Origin(pool, keys, heap, size, get, first, second, startFree)
    {
      var lists := Recycled(pool.lists, pool.lo, pool.hi);
      assert forall k :: Index(size) <= k < LISTS ==> lists[k] == pool.lists[k];
      var j := FirstFrom(lists, Index(size));
      if first == 0 && j < LISTS {
        assert pool.lists[j] != [] && startFree == pool.lists[j][0];
        assert LeastBlock(pool.lists, Index(size), startFree);
      }
    }

    /** As many blocks as are asked for and fit are cut from the front of the region. */
    ghost predicate CutFrom(pool: Pool, size: nat, nobjs: nat, chunk: nat, count: nat)
      reads this
      requires size > 0
    {
      && pool.lo <= pool.hi && count == Fitting(pool.hi - pool.lo, size, nobjs)
      && chunk == pool.lo && startFree == chunk + size * count && endFree == pool.hi
    }

    /** The first two branches of `_S_chunk_alloc`: the region has room for all the blocks, or for one at least. */
    method TakeFitting(size: nat, nobjs: nat) returns (chunk: nat, count: nat)
      requires Valid() && Aligned(size) && nobjs > 0 && endFree - startFree >= size
      modifies this`startFree, this`live, this`owner, this`owners
      ensures Valid() && chunk > 0 && count > 0 && CutFrom(old(Now()), size, nobjs, chunk, count)
      ensures chunk !in old(live) && live == old(live)[chunk := size * count] && owner.Keys == old(owner.Keys)
    {
      var left := endFree - startFree;
      Multiples(size, nobjs, left);
      if left >= size * nobjs {
        count := nobjs;
      } else {
        count := left / size;
      }
      chunk := TakeFromBump(size * count);
    }

    /** The third branch of `_S_chunk_alloc` up to its call to itself. */
    method Replenish(size: nat, get: nat, first: nat, second: nat) returns (ok: bool)
      requires Valid() && endFree - startFree < size && Aligned(size) && size <= MAX_BYTES && Aligned(get)
               && size <= get
      requires Answer(first, get) && Answer(second, get) && lists[Index(size)] == []
      modifies this`link, this`lists, this`owner, this`owners, this`startFree, this`endFree, this`heapSize, freeList
      ensures Valid() && Untouched(live, old(link), link) && lists[Index(size)] == []
      ensures !ok <==> old(first == 0 && second == 0 && NothingFrom(Index(size)))
      ensures Now() == Supplied(old(Now()), size, get, first, second) && (ok ==> endFree - startFree >= size)
      ensures FromMalloc(old(owner).Keys, old(heapSize), first, second, get)
      ensures first != 0 ==> Grown(old(owner).Keys, first, get, old(heapSize))
      ensures first == 0 && !old(NothingFrom(Index(size))) ==> Kept(old(owner).Keys, old(heapSize))
      ensures first == 0 && old(NothingFrom(Index(size))) && second != 0 ==>
                Grown(old(owner).Keys, second, get, old(heapSize))
    {
      Recycle(size);
      startFree := first;
      ok := true;
      if first == 0 {
        ok := MakeDo(size, get, second);
      } else {
        FillRegion(startFree, get);
      }
    }

    /** Without malloc: a block that is free, or the last resort. */
    method MakeDo(size: nat, get: nat, second: nat) returns (ok: bool)
      requires Consistent(0, 0) && startFree == 0 && Aligned(size) && size <= MAX_BYTES && Aligned(get) && size <= get
      requires Answer(second, get) && lists[Index(size)] == []
      modifies this`lists, this`owner, this`owners, this`startFree, this`endFree, this`heapSize, freeList
      ensures ok <==> !old(NothingFrom(Index(size))) || second != 0
      ensures Valid() && lists[Index(size)] == [] && (ok ==> endFree - startFree >= size)
      ensures var j := FirstFrom(old(lists), Index(size));
              Now() == if j < LISTS then
                         Pool(old(lists)[j := old(lists)[j][1..]], old(lists)[j][0], old(lists)[j][0] + BlockSize(j))
                       else if second != 0 then Pool(old(lists), second, second + get) else Pool(old(lists), 0, 0)
      ensures !old(NothingFrom(Index(size))) || second == 0 ==> Kept(old(owner).Keys, old(heapSize))
      ensures old(NothingFrom(Index(size))) && second != 0 ==> Grown(old(owner).Keys, second, get, old(heapSize))
    {
      ok := Scavenge(size);
      if !ok {
        endFree := 0;
        startFree := second;
        if second != 0 {
          FillRegion(startFree, get);
          ok := true;
        }
      }
    }

    /** An answer of malloc to a request for `n` bytes: null, or memory that is not in use. */
    ghost predicate Answer(p: nat, n: nat)
      reads this
    {
      p != 0 ==> Unused(owner, p, n)
    }

    /** No free block of class `k` or larger. */
    ghost predicate NothingFrom(k: nat)
      reads this
      requires |lists| == LISTS
    {
      forall j :: k <= j < LISTS ==> lists[j] == []
    }

    ghost predicate Kept(keys: set<nat>, heap: nat)
      reads this
    {
      owner.Keys == keys && heapSize == heap
    }

    ghost predicate Grown(keys: set<nat>, p: nat, n: nat, heap: nat)
      reads this
    {
      p != 0 && owner.Keys == keys + Span(Bump(p, n)) && heapSize == heap + n
    }

    method TakeFromBump(n: nat) returns (chunk: nat)
      requires Valid() && Aligned(n) && n <= endFree - startFree
      modifies this`startFree, this`live, this`owner, this`owners
      ensures Valid() && chunk == old(startFree) && chunk > 0 && startFree == chunk + n
      ensures chunk !in old(live) && live == old(live)[chunk := n] && owner.Keys == old(owner.Keys)
    {
      LessByMultiple(endFree - startFree, n);
      owner, owners := Carve(owner, owners, lists, live, startFree, endFree, n);
      live := live[startFree := n];
      chunk := startFree;
      startFree := startFree + n;
    }

    method FillRegion(p: nat, n: nat)
      requires Consistent(0, 0) && Aligned(n) && Unused(owner, p, n)
      modifies this`startFree, this`endFree, this`heapSize, this`owner, this`owners
      ensures Valid() && startFree == p && endFree == p + n && Grown(old(owner).Keys, p, n, old(heapSize))
    {
      owner, owners := FillBump(owner, owners, lists, live, p, n);
      startFree := p;
      heapSize := heapSize + n;
      endFree := startFree + n;
    }

    // ---------- _S_refill, allocate, deallocate ----------

    /** `_S_refill`'s loop: the blocks of the chunk after the first become list `k`. */
    method LinkBlocks(k: nat, first: nat, size: nat, count: nat)
      requires freeList.Length == LISTS && k < LISTS && count > 0 && size > 0 && |lists| == LISTS
      requires lists[k] == Blocks(first, size, count)
      requires forall j :: 0 <= j < LISTS && j != k ==> Chain(freeList[j], lists[j], link, 0)
      requires startFree <= endFree && Books(owner, owners, lists, live, startFree, endFree)
      modifies this`link, freeList
      ensures Chains(freeList[..], lists, link) && Untouched(live, old(link), link)
    {
      var next := first;
      freeList[k] := next;
      ghost var heads, q := freeList[..], lists[k];
      BlocksAt(first, size, count, 0);
      var i := 1;
      while i != count
        invariant 1 <= i <= count == |q| && freeList[..] == heads && next == q[i - 1]
        invariant Building(heads, lists, link, k, i - 1, next) && Untouched(live, old(link), link)
        decreases count - i
      {
        Step(k, i - 1, next + size);
        BlocksAt(first, size, count, i - 1);
        link := link[next := next + size];
        next := next + size;
        i := i + 1;
      }
      Step(k, count - 1, 0);
      link := link[next := 0];
      assert q[..count] == q;
      forall j | 0 <= j < LISTS ensures Chain(heads[j], lists[j], link, 0) && 0 !in lists[j] {
        if 0 in lists[j] {
          OneList(owner, owners, lists, live, startFree, endFree, j, 0);
        }
      }
    }

    lemma Step(k: nat, i: nat, v: nat)
      requires freeList.Length == LISTS && k < LISTS && startFree <= endFree
      requires Books(owner, owners, lists, live, startFree, endFree) && i < |lists[k]|
      requires Building(freeList[..], lists, link, k, i, lists[k][i])
      ensures Building(freeList[..], lists, link[lists[k][i] := v], k, i + 1, v)
      ensures Untouched(live, link, link[lists[k][i] := v])
    {
      var a := lists[k][i];
      OneList(owner, owners, lists, live, startFree, endFree, k, a);
      BuildMore(freeList[..], lists, link, k, i, v);
      OutsideLive(owner, owners, lists, live, startFree, endFree, link, Free(a, k), v);
    }

    /** What a call has left unchanged or added, as far as malloc is concerned. */
    ghost predicate FromMalloc(keys: set<nat>, heap: nat, first: nat, second: nat, n: nat)
      reads this
    {
      Kept(keys, heap) || Grown(keys, first, n, heap) || Grown(keys, second, n, heap)
    }

    /**
     `_S_refill`. The head of the list is overwritten; no block is lost because `ChunkAlloc` leaves
     that list empty.
     */
    method Refill(n: nat, first: nat, second: nat) returns (p: nat)
      requires Valid() && Aligned(n) && n <= MAX_BYTES && lists[Index(n)] == []
      requires Answer(first, Request(n, 20)) && Answer(second, Request(n, 20))
      modifies this, freeList
      ensures Valid() && Untouched(old(live), old(link), link)
      ensures p == 0 <==> old(endFree - startFree < n && first == 0 && second == 0 && NothingFrom(Index(n)))
      ensures p == 0 ==> live == old(live)
      ensures p != 0 ==> p !in old(live) && live == old(live)[p := n]
      ensures var pool := Source(old(Now()), n, old(Request(n, 20)), first, second);
              if p == 0 then Now() == pool else Served(pool, n, p)
      ensures FromMalloc(old(owner).Keys, old(heapSize), first, second, old(Request(n, 20)))
      ensures heapSize == old(heapSize) || heapSize == old(heapSize) + 2 * (n * 20) + RoundUp(old(heapSize) / 16)
    {
      var count;
      p, count := ChunkAlloc(n, 20, first, second);
      if p != 0 {
        KeepFirst(p, n, count, old(live), old(link));
        assert CutFrom(Source(old(Now()), n, old(Request(n, 20)), first, second), n, 20, p, count);
      }
    }

    /** The same for the addresses. */
    lemma RefilledOnBoundaries(pool: Pool, was: map<nat, nat>, n: nat, get: nat, first: nat, second: nat, p: nat)
      requires OnBoundaries(pool, was) && Aligned(n) && first % ALIGN == 0 && second % ALIGN == 0
      requires var served := Source(pool, n, get, first, second);
               if p == 0 then Now() == served && live == was else Served(served, n, p) && live == was[p := n]
      ensures OnBoundaries(Now(), live)
    {
      var served := Source(pool, n, get, first, second);
      SourceOnBoundaries(pool, was, n, get, first, second);
      if p != 0 {
        var count :| count > 0 && CutFrom(served, n, 20, p, count) && Index(n) < |served.lists|
                     && lists == served.lists[Index(n) := Blocks(p + n, n, count - 1)];
        CutOnBoundaries(served, was, n, count);
      }
    }

    /** The chunk `p` of `count` blocks, new since the blocks were `was`, keeps its first block. */
    method KeepFirst(p: nat, n: nat, count: nat, ghost was: map<nat, nat>, ghost before: map<nat, nat>)
      requires Valid() && Aligned(n) && n <= MAX_BYTES && lists[Index(n)] == [] && count > 0
      requires p !in was && live == was[p := n * count] && Untouched(was, before, link)
      modifies this`lists, this`live, this`owner, this`owners, this`link, freeList
      ensures Valid() && live == was[p := n] && owner.Keys == old(owner.Keys) && Untouched(was, before, link)
      ensures lists == old(lists)[Index(n) := Blocks(p + n, n, count - 1)]
    {
      if count == 1 {
        assert lists[Index(n) := Blocks(p + n, n, 0)] == lists;
        return;
      }
      ghost var wide, mid := live, link;
      ShareOut(p, n, count);
      UntouchedTrans(was, wide, live, before, mid, link, p);
    }

    /**
     Up to twenty blocks are cut from the region: the first is `p` and the others are the list of their size, in order.
     */
    ghost predicate Served(pool: Pool, n: nat, p: nat)
      reads this
      requires n > 0
    {
      exists count :: count > 0 && CutFrom(pool, n, 20, p, count) && Index(n) < |pool.lists|
                      && lists == pool.lists[Index(n) := Blocks(p + n, n, count - 1)]
    }

    lemma UntouchedStill(l: map<nat, nat>, k0: map<nat, nat>, k1: map<nat, nat>, k2: map<nat, nat>)
      requires Untouched(l, k0, k1) && Untouched(l, k1, k2)
      ensures Untouched(l, k0, k2)
    {
    }

    lemma UntouchedTrans(l0: map<nat, nat>, l1: map<nat, nat>, l2: map<nat, nat>, k0: map<nat, nat>, k1: map<nat, nat>,
                         k2: map<nat, nat>, p: nat)
      requires Untouched(l0, k0, k1) && Untouched(l2, k1, k2)
      requires p !in l0 && p in l1 && p in l2 && l1 == l0[p := l1[p]] && l2 == l1[p := l2[p]]
      ensures Untouched(l0, k0, k2) && l2 == l0[p := l2[p]]
    {
      forall a, x | a in l0 && InBlock(a, l0[a], x) ensures (x in k2 <==> x in k0) && (x in k0 ==> k2[x] == k0[x]) {
        assert a in l2 && l2[a] == l0[a];
      }
    }

    /** The first block of a chunk stays live, the others go on the list of their size. */
    method ShareOut(p: nat, n: nat, count: nat)
      requires Valid() && Aligned(n) && n <= MAX_BYTES && lists[Index(n)] == []
      requires count > 1 && p in live && live[p] == n * count
      modifies this`lists, this`live, this`owner, this`owners, this`link, freeList
      ensures Valid() && live == old(live)[p := n] && owner.Keys == old(owner.Keys) && Untouched(live, old(link), link)
      ensures lists == old(lists)[Index(n) := Blocks(p + n, n, count - 1)]
    {
      var k := Index(n);
      owner, owners := ShelveRest(owner, owners, lists, live, startFree, endFree, p, k, count);
      lists, live := lists[k := Blocks(p + n, n, count - 1)], live[p := n];
      LinkBlocks(k, p + n, n, count - 1);
    }

    /** `allocate`: a block of exactly the rounded size, or of the size itself above 128 bytes. */
    method Allocate(n: nat, first: nat, second: nat) returns (p: nat)
      requires Valid() && n > 0
      requires n > MAX_BYTES ==> Answer(first, n)
      requires n <= MAX_BYTES ==> Answer(first, Request(RoundUp(n), 20)) && Answer(second, Request(RoundUp(n), 20))
      modifies this, freeList
      ensures Valid() && Untouched(old(live), old(link), link)
      ensures p == 0 ==> live == old(live)
      ensures p != 0 ==> p !in old(live) && live == old(live)[p := Granted(n)]
      ensures n > MAX_BYTES ==> p == first && owner.Keys == old(owner.Keys) + Span(Live(p, if p == 0 then 0 else n))
      ensures n <= MAX_BYTES ==> FromMalloc(old(owner).Keys, old(heapSize), first, second, old(Request(RoundUp(n), 20)))
      ensures n <= MAX_BYTES ==>
                (p == 0 <==> old(endFree - startFree < RoundUp(n) && first == 0 && second == 0
                                 && NothingFrom(Index(n))))
      ensures n <= MAX_BYTES && old(lists)[Index(n)] != [] ==>
                var k := Index(n);
                p == old(lists)[k][0] && lists == old(lists)[k := old(lists)[k][1..]] && startFree == old(startFree)
                  && endFree == old(endFree)
      ensures n <= MAX_BYTES && old(lists)[Index(n)] == [] ==>
                var pool := Source(old(Now()), RoundUp(n), old(Request(RoundUp(n), 20)), first, second);
                if p == 0 then Now() == pool else Served(pool, RoundUp(n), p)
      ensures n > MAX_BYTES ==> Now() == old(Now())
      ensures n > MAX_BYTES ==> heapSize == old(heapSize)
      ensures heapSize == old(heapSize) || heapSize
              == old(heapSize) + 2 * (RoundUp(n) * 20) + RoundUp(old(heapSize) / 16)
    {
      if n > MAX_BYTES {
        p := first;
        if p != 0 {
          owner, owners := Grant(owner, owners, lists, live, startFree, endFree, p, n);
          live := live[p := n];
        }
        return;
      }
      var k := Index(n);
      ghost var before := lists;
      p := Pop(k);
      if p == 0 {
        p := Refill(RoundUp(n), first, second);
      } else {
        owner, owners := Unshelve(owner, owners, before, live, startFree, endFree, k);
        live := live[p := BlockSize(k)];
      }
    }

    /** `allocate` when malloc answers on multiples of 8: so are all blocks, those given out and those that are free. */
    method AllocateOnBoundaries(n: nat, first: nat, second: nat) returns (p: nat)
      requires Valid() && n > 0 && OnBoundaries(Now(), live) && first % ALIGN == 0 && second % ALIGN == 0
      requires n > MAX_BYTES ==> Answer(first, n)
      requires n <= MAX_BYTES ==> Answer(first, Request(RoundUp(n), 20)) && Answer(second, Request(RoundUp(n), 20))
      modifies this, freeList
      ensures Valid() && OnBoundaries(Now(), live) && p % ALIGN == 0 && (p != 0 ==> live == old(live)[p := Granted(n)])
    {
      ghost var pool, was := Now(), live;
      ghost var get := Request(RoundUp(n), 20);
      p := Allocate(n, first, second);
      if n <= MAX_BYTES {
        if pool.lists[Index(n)] != [] {
          PoppedOnBoundaries(pool, was, Index(n));
        } else {
          RefilledOnBoundaries(pool, was, RoundUp(n), get, first, second, p);
        }
      }
      assert p != 0 ==> p in live;
    }

    /** `deallocate`: a small block goes to the list of its size, a large one back to malloc. */
    method Deallocate(p: nat, n: nat)
      requires Valid() && n > 0 && p in live && live[p] == Granted(n)
      modifies this, freeList
      ensures Valid() && live == old(live) - {p} && Untouched(live, old(link), link)
      ensures owner.Keys == if n > MAX_BYTES then old(owner.Keys) - Span(Live(p, n)) else old(owner.Keys)
      ensures n <= MAX_BYTES ==> lists == old(lists)[Index(n) := [p] + old(lists[Index(n)])]
      ensures startFree == old(startFree) && endFree == old(endFree) && heapSize == old(heapSize)
      ensures old(OnBoundaries(Now(), live)) ==> OnBoundaries(Now(), live)
    {
      if n > MAX_BYTES {
        owner, owners := Return(owner, owners, lists, live, startFree, endFree, p);
        live := live - {p};
        return;
      }
      DeallocateSmall(p, Index(n));
    }

    method DeallocateSmall(p: nat, k: nat)
      requires Valid() && k < LISTS && p in live && live[p] == BlockSize(k)
      modifies this`link, this`lists, this`live, this`owner, this`owners, freeList
      ensures Valid() && live == old(live) - {p} && Untouched(live, old(link), link) && owner.Keys == old(owner.Keys)
      ensures lists == old(lists)[k := [p] + old(lists[k])]
    {
      ghost var o, us := Shelve(owner, owners, lists, live, startFree, endFree, p, k);
      Push(k, p);
      live, owner, owners := live - {p}, o, us;
      OutsideLive(owner, owners, lists, live, startFree, endFree, old(link), Free(p, k), link[p]);
    }

    /** A client may write anything into its own block: the allocator keeps no link there. */
    method ClientWrite(p: nat, x: nat, v: nat)
      requires Valid() && p in live && InBlock(p, live[p], x)
      modifies this`link
      ensures Valid() && link == old(link)[x := v]
    {
      forall j | 0 <= j < LISTS ensures Chain(freeList[j], lists[j], link[x := v], 0) {
        if x in lists[j] {
          OneList(owner, owners, lists, live, startFree, endFree, j, x);
          assert Live(p, live[p]) in owners && Reaches(Live(p, live[p]), x) && Reaches(Free(x, j), x);
          assert false;
        }
        ChainFrame(freeList[j], lists[j], link, 0, x, v);
      }
      link := link[x := v];
    }
  }

  /** The size of the block that serves a request. */
  function Granted(n: nat): nat {
    if n > MAX_BYTES then n else RoundUp(n)
  }
}
