/** `rotate` for random access iterators (headers/cpp/stl_algo.h:693-703, 760-809): gcd(n, k) cycles. */
module RotateCycles {
  import opened Ranges
  import Rotate

  // ---------- arithmetic ----------

  lemma ModUnique(a: int, q: int, r: int, n: int)
    requires n > 0 && a == q * n + r && 0 <= r < n
    ensures a % n == r
  {
    var e := q - a / n;
    assert e * n == a % n - r;
    NoMultiple(e, n);
  }

  lemma NoMultiple(e: int, n: int)
    requires n > 0 && -n < e * n < n
    ensures e == 0
  {
    Grows(e, n);
    Grows(-e, n);
    assert e * n == -((-e) * n);
  }

  lemma Grows(e: int, n: int)
    requires n >= 0
    ensures e >= 1 ==> e * n >= n
  {
  }

  /**
   The sizes of a rotation: `n == d * (kk + ll)`, `k == d * kk` and `l == d * ll`. The last two fields say
   that `kk` is invertible: `kk * inv == 1 + wrap * (kk + ll)`.
   */
  datatype Sizes = Sizes(d: nat, kk: nat, ll: nat, inv: int, wrap: int) {
    function N(): nat {
      kk + ll
    }

    predicate Valid() {
      d > 0 && N() > 0 && kk * inv == 1 + wrap * N()
    }

    /** The place of row `q` in column `c`. */
    function At(c: nat, q: nat): nat {
      c + d * q
    }

    /** The row whose element belongs into row `q`. */
    function From(q: nat): (r: nat)
      requires q < N()
      ensures r < N()
    {
      if q < ll then q + kk else q - ll
    }

    /** When a cycle that starts in row 0 comes to row `q`. */
    function When(q: nat): (t: nat)
      requires N() > 0
      ensures t < N()
    {
      q * inv % N()
    }
  }

  lemma WhenFirst(g: Sizes)
    requires g.Valid()
    ensures g.When(0) == 0
  {
    assert 0 * g.inv == 0;
  }

  lemma WhenNext(g: Sizes, q: nat)
    requires g.Valid() && q < g.N() && g.When(q) + 1 < g.N()
    ensures g.When(g.From(q)) == g.When(q) + 1
  {
    var n, t, y := g.N(), g.When(q), q * g.inv / g.N();
    assert q * g.inv == y * n + t;
    var r := g.From(q);
    var back := if q < g.ll then 0 else 1;
    assert r == q + g.kk - back * n;
    Spread(q, g.kk, back * n, g.inv);
    assert back * n * g.inv == back * g.inv * n;
    Collect(y, g.wrap, -(back * g.inv), n);
    assert r * g.inv == (y + g.wrap - back * g.inv) * n + (t + 1);
    ModUnique(r * g.inv, y + g.wrap - back * g.inv, t + 1, n);
  }

  lemma Spread(a: int, b: int, c: int, m: int)
    ensures (a + b - c) * m == a * m + b * m - c * m
  {
  }

  lemma Collect(a: int, b: int, c: int, m: int)
    ensures (a + b + c) * m == a * m + b * m + c * m
  {
  }

  /** A cycle comes to row `ll` last. */
  lemma WhenLast(g: Sizes)
    requires g.Valid()
    ensures g.When(g.ll) == g.N() - 1
  {
    var n := g.N();
    assert g.ll == n - g.kk;
    Spread(0, n, g.kk, g.inv);
    Spread(0, g.inv, g.wrap, n);
    Spread(0, g.inv - g.wrap, 1, n);
    assert g.ll * g.inv == (g.inv - g.wrap - 1) * n + (n - 1);
    ModUnique(g.ll * g.inv, g.inv - g.wrap - 1, n - 1, n);
  }

  /** No two rows are reached at the same time. */
  lemma WhenInjective(g: Sizes, q: nat, r: nat)
    requires g.Valid() && q < g.N() && r < g.N() && g.When(q) == g.When(r)
    ensures q == r
  {
    var n, e := g.N(), q - r;
    var w := q * g.inv / n - r * g.inv / n;
    assert q * g.inv - r * g.inv == w * n by {
      Spread(q * g.inv / n, 0, r * g.inv / n, n);
    }
    assert e * g.inv == w * n by {
      Spread(q, 0, r, g.inv);
    }
    Cancel(e, g.inv, w, n, g.kk, g.wrap);
    NoMultiple(w * g.kk - e * g.wrap, n);
  }

  lemma Cancel(e: int, m: int, w: int, n: int, k: int, z: int)
    requires e * m == w * n && k * m == 1 + z * n
    ensures e == (w * k - e * z) * n
  {
    assert e * (k * m) == e * (1 + z * n);
    assert e * (k * m) == k * (e * m) == k * (w * n);
    assert k * (w * n) == (w * k) * n;
    assert e * (1 + z * n) == e + (e * z) * n;
    Spread(w * k, 0, e * z, n);
  }

  // ---------- columns ----------

  lemma AtBounds(g: Sizes, c: nat, q: nat)
    requires g.Valid() && c < g.d && q < g.N()
    ensures g.At(c, q) < g.d * g.N()
  {
    Grows(g.N() - q, g.d);
    Spread(g.N(), 0, q, g.d);
  }

  lemma AtInjective(g: Sizes, c: nat, q: nat, c': nat, q': nat)
    requires g.Valid() && c < g.d && c' < g.d && g.At(c, q) == g.At(c', q')
    ensures c == c' && q == q'
  {
    Spread(q, 0, q', g.d);
    NoMultiple(q - q', g.d);
  }

  /** Where the rotation takes the element of a place from. */
  lemma RotatedAt<T>(g: Sizes, s: seq<T>, k: nat, c: nat, q: nat)
    requires g.Valid() && c < g.d && q < g.N() && |s| == g.d * g.N() && k == g.d * g.kk <= |s|
    ensures g.At(c, q) < |s| && g.At(c, g.From(q)) < |s| && Rotate.Rotated(s, k)[g.At(c, q)] == s[g.At(c, g.From(q))]
  {
    AtBounds(g, c, q);
    AtBounds(g, c, g.From(q));
    Halves(g);
    FromAt(g, c, q);
    RotatedIndex(s, k, g.At(c, q));
  }

  lemma Halves(g: Sizes)
    ensures g.d * g.N() == g.d * g.kk + g.d * g.ll
  {
  }

  lemma RotatedIndex<T>(s: seq<T>, k: nat, p: nat)
    requires k <= |s| && p < |s|
    ensures Rotate.Rotated(s, k)[p] == if p < |s| - k then s[p + k] else s[p - (|s| - k)]
  {
  }

  lemma FromAt(g: Sizes, c: nat, q: nat)
    requires g.Valid() && c < g.d && q < g.N()
    ensures q < g.ll ==> g.At(c, q) < g.d * g.ll && g.At(c, g.From(q)) == g.At(c, q) + g.d * g.kk
    ensures q >= g.ll ==> g.At(c, q) >= g.d * g.ll && g.At(c, g.From(q)) == g.At(c, q) - g.d * g.ll
  {
    if q < g.ll {
      Grows(g.ll - q, g.d);
      Spread(g.ll, 0, q, g.d);
      Spread(q, g.kk, 0, g.d);
    } else {
      Grows(q - g.ll, g.d);
      Spread(q, 0, g.ll, g.d);
    }
  }

  predicate Settled(g: Sizes, c: nat, t: nat, c': nat, q: nat)
    requires g.N() > 0
  {
    c' < c || (c' == c && g.When(q) < t)
  }

  /** The columns before `c` are rotated, and so are the first `t` rows of column `c` in the order of the cycle. */
  ghost predicate Cycled<T>(g: Sizes, s: seq<T>, h: seq<T>, c: nat, t: nat) {
    && g.Valid() && |s| == |h| == g.d * g.N()
    && forall c': nat, q: nat :: c' < g.d && q < g.N() ==> Right(g, s, h, c, t, c', q)
  }

  ghost predicate Right<T>(g: Sizes, s: seq<T>, h: seq<T>, c: nat, t: nat, c': nat, q: nat)
    requires g.Valid() && |s| == |h| == g.d * g.N() && c' < g.d && q < g.N()
  {
    AtBounds(g, c', q);
    AtBounds(g, c', g.From(q));
    h[g.At(c', q)] == if Settled(g, c, t, c', q) then s[g.At(c', g.From(q))] else s[g.At(c', q)]
  }

  /** One more row: its slot is filled from the next row of the cycle. */
  lemma CycleOn<T>(g: Sizes, s: seq<T>, h: seq<T>, c: nat, q: nat)
    requires g.Valid() && c < g.d && q < g.N() && Cycled(g, s, h, c, g.When(q)) && g.When(q) + 1 < g.N()
    ensures g.At(c, q) < |h| && g.At(c, g.From(q)) < |h|
    ensures Cycled(g, s, h[g.At(c, q) := h[g.At(c, g.From(q))]], c, g.When(q) + 1)
  {
    AtBounds(g, c, q);
    AtBounds(g, c, g.From(q));
    WhenNext(g, q);
    assert Right(g, s, h, c, g.When(q), c, g.From(q));
    Fill(g, s, h, c, q, h[g.At(c, g.From(q))]);
  }

  lemma Fill<T>(g: Sizes, s: seq<T>, h: seq<T>, c: nat, q: nat, x: T)
    requires g.Valid() && c < g.d && q < g.N() && Cycled(g, s, h, c, g.When(q)) && g.At(c, q) < |h|
             && g.At(c, g.From(q)) < |s|
    requires x == s[g.At(c, g.From(q))]
    ensures Cycled(g, s, h[g.At(c, q) := x], c, g.When(q) + 1)
  {
    var u, t := h[g.At(c, q) := x], g.When(q) + 1;
    forall c': nat, r: nat | c' < g.d && r < g.N() ensures Right(g, s, u, c, t, c', r) {
      assert Right(g, s, h, c, g.When(q), c', r);
      AtBounds(g, c', r);
      if g.At(c', r) == g.At(c, q) {
        AtInjective(g, c', r, c, q);
      } else if c' == c && g.When(r) == g.When(q) {
        WhenInjective(g, r, q);
      }
    }
  }

  /** The last row of the cycle takes the element set aside at its start. */
  lemma CycleEnd<T>(g: Sizes, s: seq<T>, h: seq<T>, c: nat)
    requires g.Valid() && c < g.d && g.ll < g.N() && Cycled(g, s, h, c, g.N() - 1) && c < |s|
    ensures g.At(c, g.ll) < |h| && Cycled(g, s, h[g.At(c, g.ll) := s[c]], c + 1, 0)
  {
    AtBounds(g, c, g.ll);
    WhenLast(g);
    assert g.From(g.ll) == 0 && g.At(c, 0) == c;
    Fill(g, s, h, c, g.ll, s[c]);
    NextColumn(g, s, h[g.At(c, g.ll) := s[c]], c);
  }

  lemma NextColumn<T>(g: Sizes, s: seq<T>, h: seq<T>, c: nat)
    requires Cycled(g, s, h, c, g.N())
    ensures Cycled(g, s, h, c + 1, 0)
  {
    var e := c + 1;
    forall c': nat, r: nat | c' < g.d && r < g.N() ensures Right(g, s, h, e, 0, c', r) {
      assert Right(g, s, h, c, g.N(), c', r);
    }
  }

  lemma CycledNone<T>(g: Sizes, s: seq<T>)
    requires g.Valid() && |s| == g.d * g.N()
    ensures Cycled(g, s, s, 0, 0)
  {
  }

  /** When all columns have been rotated, so has the range: the cycles leave no place out. */
  lemma CycledAll<T>(g: Sizes, s: seq<T>, h: seq<T>, k: nat)
    requires Cycled(g, s, h, g.d, 0) && k == g.d * g.kk <= |s|
    ensures h == Rotate.Rotated(s, k)
  {
    forall p | 0 <= p < |s| ensures h[p] == Rotate.Rotated(s, k)[p] {
      PlaceRight(g, s, h, k, p);
    }
  }

  lemma PlaceRight<T>(g: Sizes, s: seq<T>, h: seq<T>, k: nat, p: nat)
    requires Cycled(g, s, h, g.d, 0) && k == g.d * g.kk <= |s| && p < |s|
    ensures h[p] == Rotate.Rotated(s, k)[p]
  {
    var c, q := p % g.d, p / g.d;
    assert p == g.At(c, q);
    RowBound(g, p);
    assert Right(g, s, h, g.d, 0, c, q);
    RotatedAt(g, s, k, c, q);
  }

  lemma RowBound(g: Sizes, p: nat)
    requires g.d > 0 && p < g.d * g.N()
    ensures p / g.d < g.N()
  {
    var q := p / g.d;
    assert p == g.d * q + p % g.d;
    assert q >= g.N() ==> g.d * q >= g.d * g.N();
  }

  // ---------- the walk along a cycle ----------

  /** After `up` steps of `kk` upward and `down` steps of `ll` downward the walk is in row `q`. */
  ghost predicate Walk(g: Sizes, q: nat, up: nat, down: nat) {
    g.Valid() && q < g.N() && q == up * g.kk - down * g.ll && g.When(q) == up + down
  }

  lemma WalkUp(g: Sizes, q: nat, up: nat, down: nat)
    requires Walk(g, q, up, down) && q < g.ll && g.kk > 0
    ensures g.When(q) + 1 < g.N() && g.From(q) == q + g.kk && Walk(g, q + g.kk, up + 1, down)
  {
    NotLast(g, q);
    WhenNext(g, q);
    Spread(up, 1, 0, g.kk);
  }

  lemma WalkDown(g: Sizes, q: nat, up: nat, down: nat)
    requires Walk(g, q, up, down) && q > g.ll
    ensures g.When(q) + 1 < g.N() && g.From(q) == q - g.ll && Walk(g, q - g.ll, up, down + 1)
  {
    NotLast(g, q);
    WhenNext(g, q);
    Spread(down, 1, 0, g.ll);
  }

  lemma NotLast(g: Sizes, q: nat)
    requires g.Valid() && q < g.N() && q != g.ll && g.ll < g.N()
    ensures g.When(q) + 1 < g.N()
  {
    WhenLast(g);
    if g.When(q) == g.N() - 1 {
      WhenInjective(g, q, g.ll);
    }
  }

  /** The walk is in the last row of the cycle after exactly `ll` steps upward. */
  lemma WalkLast(g: Sizes, up: nat, down: nat)
    requires Walk(g, g.ll, up, down)
    ensures up == g.ll && down == g.kk - 1
  {
    WhenLast(g);
    var n := g.N();
    assert down == n - 1 - up;
    Spread(n - 1, 0, up, g.ll);
    Spread(n, 0, 1, g.ll);
    assert up * g.kk == g.ll + n * g.ll - g.ll - up * g.ll;
    Spread(up, 0, 0, n);
    assert up * n == up * g.kk + up * g.ll;
    Spread(up, 0, g.ll, n);
    NoMultiple(up - g.ll, n);
  }

  /** After `ll` steps upward, the last step upward, the walk is in the last row. */
  lemma WalkArrivesUp(g: Sizes, q: nat, down: nat)
    requires Walk(g, q, g.ll, down) && g.kk < g.ll && q >= g.kk > 0
    ensures q == g.ll
  {
    Spread(g.kk, 0, down, g.ll);
    assert q == (g.kk - down) * g.ll;
    Spread(g.kk - down, 0, 1, g.ll);
    NoMultiple(g.kk - down - 1, g.ll);
  }

  /** After `kk - 1` steps downward, the last step downward, the walk is in the last row. */
  lemma WalkArrivesDown(g: Sizes, q: nat, up: nat)
    requires g.kk > g.ll && Walk(g, q, up, g.kk - 1)
    ensures q == g.ll
  {
    Spread(g.kk, 0, 1, g.ll);
    assert up * g.kk == q + g.kk * g.ll - g.ll;
    Spread(up, 0, g.ll, g.kk);
    assert (up - g.ll) * g.kk == q - g.ll;
    NoMultiple(up - g.ll, g.kk);
  }

  // ---------- on an array ----------

  /** `__gcd`, with what its steps show about the result. */
  method Gcd(m0: nat, n0: nat) returns (d: nat, ghost mm: nat, ghost nn: nat, ghost x: int, ghost y: int)
    requires m0 > 0
    ensures d > 0 && m0 == d * mm && n0 == d * nn && x * mm + y * nn == 1
  {
    var m, n := m0, n0;
    ghost var u := Mix(1, 0, 0, 1, 1, 0, 0, 1);
    while n != 0
      invariant Mixes(u, m0, n0, m, n)
      decreases n
    {
      MixOn(u, m0, n0, m, n);
      u := Mixed(u, m / n);
      m, n := n, m % n;
    }
    d, mm, nn, x, y := m, u.p, u.r, u.a, u.b;
    Cofactors(d, mm, nn, x, y, m0, n0);
  }

  /**
   Each pair of numbers in terms of the other: the original one (`p`, `q`, `r`, `t`) and the current one (`a`, `b`, `c`,
   `e`).
   */
  datatype Mix = Mix(p: nat, q: nat, r: nat, t: nat, a: int, b: int, c: int, e: int)

  predicate Mixes(u: Mix, m0: nat, n0: nat, m: nat, n: nat) {
    && (m > 0 || n > 0) && m0 == u.p * m + u.q * n && n0 == u.r * m + u.t * n
    && m == u.a * m0 + u.b * n0 && n == u.c * m0 + u.e * n0
  }

  function Mixed(u: Mix, z: nat): Mix {
    Mix(u.p * z + u.q, u.p, u.r * z + u.t, u.r, u.c, u.e, u.a - z * u.c, u.b - z * u.e)
  }

  lemma MixOn(u: Mix, m0: nat, n0: nat, m: nat, n: nat)
    requires Mixes(u, m0, n0, m, n) && n > 0
    ensures Mixes(Mixed(u, m / n), m0, n0, n, m % n)
  {
    Divide(m0, u.p, u.q, m, n);
    Divide(n0, u.r, u.t, m, n);
    Remainder(m, n, u.a, u.b, u.c, u.e, m0, n0);
  }

  lemma Divide(v: nat, p: nat, q: nat, m: nat, n: nat)
    requires n > 0 && v == p * m + q * n
    ensures v == (p * (m / n) + q) * n + p * (m % n)
  {
    assert m == (m / n) * n + m % n;
    assert p * m == p * ((m / n) * n) + p * (m % n);
    Spread(p * (m / n), q, 0, n);
  }

  lemma Remainder(m: nat, n: nat, a: int, b: int, c: int, e: int, m0: nat, n0: nat)
    requires n > 0 && m == a * m0 + b * n0 && n == c * m0 + e * n0
    ensures var z := m / n; m % n == (a - z * c) * m0 + (b - z * e) * n0
  {
    var z := m / n;
    assert m == z * n + m % n;
    assert z * n == z * (c * m0) + z * (e * n0) == (z * c) * m0 + (z * e) * n0;
    Spread(a, 0, z * c, m0);
    Spread(b, 0, z * e, n0);
  }

  lemma Cofactors(d: nat, mm: nat, nn: nat, x: int, y: int, m0: nat, n0: nat)
    requires m0 == mm * d && n0 == nn * d && d == x * m0 + y * n0 && m0 > 0 && d > 0
    ensures m0 == d * mm && n0 == d * nn && x * mm + y * nn == 1
  {
    assert d == (x * mm) * d + (y * nn) * d;
    Collect(x * mm, y * nn, -1, d);
    NoMultiple(x * mm + y * nn - 1, d);
  }

  lemma CycledTrivially<T>(g: Sizes, s: seq<T>, h: seq<T>, c: nat, t: nat)
    requires Cycled(g, s, h, c, t) && g.kk == 0
    ensures Cycled(g, s, h, c + 1, 0)
  {
    var e := c + 1;
    forall c': nat, r: nat | c' < g.d && r < g.N() ensures Right(g, s, h, e, 0, c', r) {
      assert Right(g, s, h, c, t, c', r) && g.From(r) == r;
    }
  }

  /** A cycle in column `c` whose open slot is that of row `q`. */
  ghost predicate On<T>(g: Sizes, s: seq<T>, h: seq<T>, c: nat, q: nat, up: nat, down: nat) {
    c < g.d && Walk(g, q, up, down) && Cycled(g, s, h, c, up + down)
  }

  /** `*p = *from`. */
  method Pull<T>(a: array<T>, p: nat, from: nat, ghost pre: seq<T>, ghost h: seq<T>, ghost post: seq<T>)
    requires a[..] == pre + h + post && |pre| <= p < |pre| + |h| && |pre| <= from < |pre| + |h|
    modifies a
    ensures a[..] == pre + h[p - |pre| := h[from - |pre|]] + post
  {
    var x := Load(a, from, pre, h, post);
    Store(a, p, x, pre, h, post);
  }

  lemma OnUp<T>(g: Sizes, s: seq<T>, h: seq<T>, c: nat, q: nat, up: nat, down: nat)
    requires On(g, s, h, c, q, up, down) && q < g.ll && g.kk > 0
    ensures g.At(c, q + g.kk) == g.At(c, q) + g.d * g.kk < |h|
    ensures On(g, s, h[g.At(c, q) := h[g.At(c, q + g.kk)]], c, q + g.kk, up + 1, down)
  {
    WalkUp(g, q, up, down);
    CycleOn(g, s, h, c, q);
    FromAt(g, c, q);
  }

  lemma OnDown<T>(g: Sizes, s: seq<T>, h: seq<T>, c: nat, q: nat, up: nat, down: nat)
    requires On(g, s, h, c, q, up, down) && q > g.ll
    ensures 0 <= g.At(c, q - g.ll) == g.At(c, q) - g.d * g.ll && g.At(c, q) < |h|
    ensures On(g, s, h[g.At(c, q) := h[g.At(c, q - g.ll)]], c, q - g.ll, up, down + 1)
  {
    WalkDown(g, q, up, down);
    CycleOn(g, s, h, c, q);
    FromAt(g, c, q);
  }

  /** `*p = *(p + k); p += k`. */
  method StepUp<T>(a: array<T>, p0: nat, k: nat, ghost g: Sizes, ghost s: seq<T>, ghost c: nat, ghost q: nat,
                   ghost up: nat, ghost down: nat, ghost pre: seq<T>, ghost h0: seq<T>, ghost post: seq<T>)
    returns (p: nat, ghost h: seq<T>)
    requires a[..] == pre + h0 + post && p0 == |pre| + g.At(c, q) && k == g.d * g.kk
    requires On(g, s, h0, c, q, up, down) && q < g.ll && g.kk > 0
    modifies a
    ensures a[..] == pre + h + post && p == |pre| + g.At(c, q + g.kk) && On(g, s, h, c, q + g.kk, up + 1, down)
  {
    OnUp(g, s, h0, c, q, up, down);
    h := h0[g.At(c, q) := h0[g.At(c, q + g.kk)]];
    Pull(a, p0, p0 + k, pre, h0, post);
    p := p0 + k;
  }

  /** `*p = *(p - l); p -= l`. */
  method StepDown<T>(a: array<T>, p0: nat, l: nat, ghost g: Sizes, ghost s: seq<T>, ghost c: nat, ghost q: nat,
                     ghost up: nat, ghost down: nat, ghost pre: seq<T>, ghost h0: seq<T>, ghost post: seq<T>)
    returns (p: nat, ghost h: seq<T>)
    requires a[..] == pre + h0 + post && p0 == |pre| + g.At(c, q) && l == g.d * g.ll
    requires On(g, s, h0, c, q, up, down) && q > g.ll
    modifies a
    ensures a[..] == pre + h + post && p == |pre| + g.At(c, q - g.ll) && On(g, s, h, c, q - g.ll, up, down + 1)
  {
    OnDown(g, s, h0, c, q, up, down);
    h := h0[g.At(c, q) := h0[g.At(c, q - g.ll)]];
    Pull(a, p0, p0 - l, pre, h0, post);
    p := p0 - l;
  }

  /** The two tests of the inner loops, in rows. */
  lemma Tests(g: Sizes, c: nat, q: nat)
    requires g.d > 0 && c < g.d
    ensures g.At(c, q) > c + g.d * g.ll <==> q > g.ll
    ensures g.At(c, q) < g.d * g.ll <==> q < g.ll
  {
    var e, m := q - g.ll, g.ll - q;
    assert e * g.d == g.d * q - g.d * g.ll && m * g.d == g.d * g.ll - g.d * q;
    Grows(e, g.d);
    Grows(m, g.d);
  }

  lemma DivideExactly(d: nat, x: nat)
    requires d > 0
    ensures d * x / d == x
  {
    var e := d * x / d;
    assert d * x == d * e + d * x % d;
    assert (x - e) * d == d * x - d * e;
    NoMultiple(x - e, d);
  }

  lemma OnFirst<T>(g: Sizes, s: seq<T>, h: seq<T>, c: nat)
    requires c < g.d && Cycled(g, s, h, c, 0)
    ensures On(g, s, h, c, 0, 0, 0) && g.At(c, 0) == c
  {
    WhenFirst(g);
  }

  /** The inner loop for `k < l`: after it the open slot is that of the last row. */
  method CycleUp<T>(a: array<T>, first: nat, k: nat, l: nat, d: nat, ghost g: Sizes, ghost s: seq<T>, ghost c: nat,
                    ghost pre: seq<T>, ghost h0: seq<T>, ghost post: seq<T>) returns (p: nat, ghost h: seq<T>)
    requires a[..] == pre + h0 + post && first == |pre| + c && d == g.d && c < d
    requires k == d * g.kk && l == d * g.ll && 0 < g.kk < g.ll && Cycled(g, s, h0, c, 0)
    modifies a
    ensures a[..] == pre + h + post && p == |pre| + g.At(c, g.ll) && Cycled(g, s, h, c, g.N() - 1)
  {
    p, h := first, h0;
    ghost var q: nat, down: nat := 0, 0;
    OnFirst(g, s, h, c);
    DivideExactly(d, g.ll);
    for j := 0 to l / d
      invariant a[..] == pre + h + post && p == |pre| + g.At(c, q)
      invariant On(g, s, h, c, q, j, down) && (j > 0 ==> q >= g.kk)
    {
      NotThereYet(g, q, j, down);
      Tests(g, c, q);
      if p > first + l {
        p, h := StepDown(a, p, l, g, s, c, q, j, down, pre, h, post);
        q, down := q - g.ll, down + 1;
      }
      p, h := StepUp(a, p, k, g, s, c, q, j, down, pre, h, post);
      q := q + g.kk;
    }
    WalkArrivesUp(g, q, down);
    WhenLast(g);
  }

  lemma NotThereYet(g: Sizes, q: nat, up: nat, down: nat)
    requires Walk(g, q, up, down) && (up < g.ll || down < g.kk - 1)
    ensures q != g.ll
  {
    if q == g.ll {
      WalkLast(g, up, down);
    }
  }

  /** The inner loop for `k > l`. */
  method CycleDown<T>(a: array<T>, first: nat, last: nat, k: nat, l: nat, d: nat, ghost g: Sizes, ghost s: seq<T>,
                      ghost c: nat, ghost pre: seq<T>, ghost h0: seq<T>, ghost post: seq<T>)
    returns (p: nat, ghost h: seq<T>)
    requires a[..] == pre + h0 + post && first == |pre| + c && last == |pre| + k + l && d == g.d && c < d
    requires k == d * g.kk && l == d * g.ll && g.kk > g.ll && Cycled(g, s, h0, c, 0)
    modifies a
    ensures a[..] == pre + h + post && p == |pre| + g.At(c, g.ll) && Cycled(g, s, h, c, g.N() - 1)
  {
    p, h := first, h0;
    ghost var q: nat, up: nat := 0, 0;
    OnFirst(g, s, h, c);
    DivideExactly(d, g.kk);
    for j := 0 to k / d - 1
      invariant a[..] == pre + h + post && p == |pre| + g.At(c, q)
      invariant On(g, s, h, c, q, up, j)
    {
      NotThereYet(g, q, up, j);
      Tests(g, c, q);
      if p < last - k {
        p, h := StepUp(a, p, k, g, s, c, q, up, j, pre, h, post);
        q, up := q + g.kk, up + 1;
      }
      p, h := StepDown(a, p, l, g, s, c, q, up, j, pre, h, post);
      q := q - g.ll;
    }
    WalkArrivesDown(g, q, up);
    WhenLast(g);
  }

  /** One cycle: the first element of the column is set aside and ends in the last slot. */
  method Cycle<T>(a: array<T>, first: nat, last: nat, k: nat, l: nat, d: nat, ghost g: Sizes, ghost s: seq<T>,
                  ghost c: nat, ghost pre: seq<T>, ghost h0: seq<T>, ghost post: seq<T>) returns (ghost h: seq<T>)
    requires a[..] == pre + h0 + post && first == |pre| + c && last == |pre| + k + l && d == g.d && c < d
    requires k == d * g.kk && l == d * g.ll && g.kk != g.ll && Cycled(g, s, h0, c, 0)
    modifies a
    ensures a[..] == pre + h + post && Cycled(g, s, h, c + 1, 0)
  {
    ColumnStart(g, s, h0, c);
    var tmp := Load(a, first, pre, h0, post);
    var p;
    if k == 0 {
      // One round of the first loop, which copies the element onto itself.
      Pull(a, first, first + k, pre, h0, post);
      Store(a, first, tmp, pre, h0, post);
      h := h0;
      CycledTrivially(g, s, h, c, 0);
      return;
    }
    Sides(g);
    if k < l {
      p, h := CycleUp(a, first, k, l, d, g, s, c, pre, h0, post);
    } else {
      p, h := CycleDown(a, first, last, k, l, d, g, s, c, pre, h0, post);
    }
    CycleEnd(g, s, h, c);
    Store(a, p, tmp, pre, h, post);
    h := h[g.At(c, g.ll) := tmp];
  }

  lemma ColumnStart<T>(g: Sizes, s: seq<T>, h: seq<T>, c: nat)
    requires c < g.d && Cycled(g, s, h, c, 0)
    ensures c < |s| == |h| && h[c] == s[c] && (g.d * g.kk == 0 ==> g.kk == 0)
  {
    AtBounds(g, c, 0);
    assert Right(g, s, h, c, 0, c, 0) && g.At(c, 0) == c;
  }

  lemma Sides(g: Sizes)
    requires g.d > 0
    ensures g.d * g.kk < g.d * g.ll <==> g.kk < g.ll
  {
    Spread(g.kk, 0, g.ll, g.d);
    Grows(g.kk - g.ll, g.d);
    Spread(g.ll, 0, g.kk, g.d);
    Grows(g.ll - g.kk, g.d);
  }

  /** `rotate` for random access iterators. */
  method RotateRandomAccess<T>(a: array<T>, first: nat, middle: nat, last: nat, ghost pre: seq<T>, ghost s: seq<T>,
                               ghost post: seq<T>)
    returns (mid: nat)
    requires a[..] == pre + s + post && |pre| == first <= middle <= last && |s| == last - first
    modifies a
    ensures a[..] == pre + Rotate.Rotated(s, middle - first) + post && mid == first + (last - middle)
  {
    var n, k := last - first, middle - first;
    var l := n - k;
    mid := first + (last - middle);
    if k == l {
      SwapRanges(a, first, middle, pre, s[..k], s[k..], post) by {
        assert s == s[..k] + s[k..];
      }
      return;
    }
    var d;
    ghost var mm, nn, x, y;
    d, mm, nn, x, y := Gcd(n, k);
    ghost var g := SizesOf(n, k, d, mm, nn, x, y);
    CycledNone(g, s);
    ghost var h := s;
    for i := 0 to d
      invariant a[..] == pre + h + post && Cycled(g, s, h, i, 0)
    {
      h := Cycle(a, first + i, last, k, l, d, g, s, i, pre, h, post);
    }
    CycledAll(g, s, h, k);
  }

  lemma SizesOf(n: nat, k: nat, d: nat, mm: nat, nn: nat, x: int, y: int) returns (g: Sizes)
    requires n > 0 && d > 0 && k <= n && n - k != k && n == d * mm && k == d * nn && x * mm + y * nn == 1
    ensures g.Valid() && g.d == d && k == d * g.kk && n - k == d * g.ll && n == d * g.N() && g.kk != g.ll
  {
    Spread(mm, 0, nn, d);
    Grows(nn - mm, d);
    Spread(nn, 0, mm, d);
    g := Sizes(d, nn, mm - nn, y, -x);
  }

  /** `swap_ranges(first, middle, middle)` (headers/cpp/stl_algo.h:437-443). */
  method SwapRanges<T>(a: array<T>, first0: nat, middle: nat, ghost pre: seq<T>, ghost x: seq<T>, ghost z: seq<T>,
                       ghost post: seq<T>)
    requires a[..] == pre + (x + z) + post && |pre| == first0 && |x| == |z| == middle - first0
    modifies a
    ensures a[..] == pre + (z + x) + post
  {
    var first, second := first0, middle;
    ghost var done, rest, moved, tail := [], x, [], z;
    assert x + z == done + rest + moved + tail && z + x == done + tail + (moved + rest);
    while first != middle
      invariant first <= middle && |done| == |moved| == first - first0 && |rest| == |tail| == middle - first
      invariant second == middle + |moved| && z == done + tail && x == moved + rest
      invariant a[..] == pre + (done + rest + moved + tail) + post
      decreases middle - first
    {
      Rotate.SwapFronts(a, first, second, pre, done, rest, moved, tail, post);
      assert moved + rest == (moved + [rest[0]]) + rest[1..] && done + tail == (done + [tail[0]]) + tail[1..];
      done, rest, moved, tail := done + [tail[0]], rest[1..], moved + [rest[0]], tail[1..];
      first, second := first + 1, second + 1;
    }
    assert done + rest + moved + tail == z + x;
  }
}
