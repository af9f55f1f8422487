/** The matrix product in cache-sized blocks: stripes of 64 columns, blocks of 16 inner places, rows
    two at a time, columns four at a time.  Numbers are exact. */
module MatrixProduct {
  import opened Arith

  const CACHEWIDTH: nat := 64
  const CACHEHEIGHT: nat := 16

  /** a is m by p and w is p by n, both in row-major order. */
  datatype Problem = Problem(a: seq<int>, w: seq<int>, m: nat, n: nat, p: nat) {
    ghost predicate Valid() {
      |a| == m * p && |w| == p * n
    }

    /** The sum of the first k products for row i and column j. */
    function Dot(i: nat, j: nat, k: nat): int
      requires Valid() && i < m && j < n && k <= p
    {
      if k == 0 then 0 else Dot(i, j, k - 1) + At(a, m, p, i, k - 1) * At(w, p, n, k - 1, j)
    }
  }

  /** The place of row i and column j. */
  function Place(rows: nat, cols: nat, i: nat, j: nat): (q: nat)
    requires i < rows && j < cols
    ensures q == i * cols + j && q < rows * cols
  {
    RoomForOne(i, rows, cols);
    i * cols + j
  }

  function At(s: seq<int>, rows: nat, cols: nat, i: nat, j: nat): int
    requires |s| == rows * cols && i < rows && j < cols
  {
    s[Place(rows, cols, i, j)]
  }

  lemma PlacesDiffer(rows: nat, cols: nat, i: nat, j: nat, i': nat, j': nat)
    requires i < rows && j < cols && i' < rows && j' < cols
    ensures Place(rows, cols, i, j) == Place(rows, cols, i', j') <==> i == i' && j == j'
  {
    if i < i' {
      RoomForOne(i, i', cols);
    } else if i' < i {
      RoomForOne(i', i, cols);
    }
  }

  lemma AtUpdated(s: seq<int>, rows: nat, cols: nat, i: nat, j: nat, v: int, i': nat, j': nat)
    requires |s| == rows * cols && i < rows && j < cols && i' < rows && j' < cols
    ensures At(s[Place(rows, cols, i, j) := v], rows, cols, i', j') ==
            if i == i' && j == j' then v else At(s, rows, cols, i', j')
  {
    PlacesDiffer(rows, cols, i, j, i', j');
  }

  // ---- How far the sums have come.

  /** Columns before j0 are complete and those from j0+64 on not begun.  Between them the sums have
      come to k1 for the rows before i0, for row i0 before column ja and for row i0+1 before column
      jb, and to k0 elsewhere. */
  datatype Front = Front(j0: nat, k0: nat, k1: nat, i0: nat, ja: nat, jb: nat) {
    function Reach(i: nat, j: nat, p: nat): nat {
      if j < j0 then p
      else if j >= j0 + CACHEWIDTH then 0
      else if i < i0 || (i == i0 && j < ja) || (i == i0 + 1 && j < jb) then k1
      else k0
    }
  }

  ghost predicate Progress(pr: Problem, z: seq<int>, f: Front) {
    && pr.Valid() && |z| == pr.m * pr.n && f.k0 <= pr.p && f.k1 <= pr.p
    && forall i: nat, j: nat :: i < pr.m && j < pr.n ==>
         At(z, pr.m, pr.n, i, j) == pr.Dot(i, j, f.Reach(i, j, pr.p))
  }

  /** The product. */
  ghost predicate IsProduct(pr: Problem, z: seq<int>) {
    && pr.Valid() && |z| == pr.m * pr.n
    && forall i: nat, j: nat :: i < pr.m && j < pr.n ==> At(z, pr.m, pr.n, i, j) == pr.Dot(i, j, pr.p)
  }

  // ---- What the product means.

  /** Row i of a matrix of so many columns, applied to x: the first k products. */
  function Applied(s: seq<int>, cols: nat, x: seq<int>, i: nat, k: nat): int
    requires k <= cols == |x| && i * cols + k <= |s|
  {
    if k == 0 then 0 else Applied(s, cols, x, i, k - 1) + s[i * cols + (k - 1)] * x[k - 1]
  }

  /** The product is the matrix that does what w and then a do, to every list x: y is what w makes of x. */
  lemma ProductComposes(pr: Problem, z: seq<int>, x: seq<int>, y: seq<int>, i: nat)
    requires IsProduct(pr, z) && |x| == pr.n && |y| == pr.p && i < pr.m
    requires forall l: nat :: l < pr.p ==> RowFits(pr.w, pr.n, l) && y[l] == Applied(pr.w, pr.n, x, l, pr.n)
    ensures RowFits(z, pr.n, i) && RowFits(pr.a, pr.p, i)
    ensures Applied(z, pr.n, x, i, pr.n) == Applied(pr.a, pr.p, y, i, pr.p)
  {
    hide *;
    ProductIs(pr, z);
    RowsFit(z, pr.m, pr.n, i);
    RowsFit(pr.a, pr.m, pr.p, i);
    AppliedIsWeighted(pr, z, x, i, pr.n);
    WeightedIsApplied(pr, x, y, i, pr.p);
  }

  ghost predicate RowFits(s: seq<int>, cols: nat, i: nat) {
    i * cols + cols <= |s|
  }

  lemma RowsFit(s: seq<int>, rows: nat, cols: nat, i: nat)
    requires |s| == rows * cols && i < rows
    ensures RowFits(s, cols, i) && i * cols + cols <= |s|
  {
    RoomForOne(i, rows, cols);
  }

  lemma ProductIs(pr: Problem, z: seq<int>)
    requires IsProduct(pr, z)
    ensures pr.Valid() && |z| == pr.m * pr.n && |pr.a| == pr.m * pr.p && |pr.w| == pr.p * pr.n
  {
  }

  /** The sums of k products for row i, times the first c items of x. */
  function Weighted(pr: Problem, x: seq<int>, i: nat, k: nat, c: nat): int
    requires pr.Valid() && i < pr.m && k <= pr.p && c <= pr.n == |x|
  {
    if c == 0 then 0 else Weighted(pr, x, i, k, c - 1) + pr.Dot(i, c - 1, k) * x[c - 1]
  }

  lemma {:induction false} AppliedIsWeighted(pr: Problem, z: seq<int>, x: seq<int>, i: nat, c: nat)
    requires IsProduct(pr, z) && |x| == pr.n && i < pr.m && c <= pr.n
    ensures pr.Valid() && i * pr.n + c <= |z| && Applied(z, pr.n, x, i, c) == Weighted(pr, x, i, pr.p, c)
  {
    RoomForOne(i, pr.m, pr.n);
    if c > 0 {
      AppliedIsWeighted(pr, z, x, i, c - 1);
      assert At(z, pr.m, pr.n, i, c - 1) == pr.Dot(i, c - 1, pr.p);
    }
    hide Problem.Dot;
  }

  /** One more product in every sum. */
  lemma {:induction false} WeightedStep(pr: Problem, x: seq<int>, i: nat, k: nat, c: nat)
    requires pr.Valid() && i < pr.m && 0 < k <= pr.p && c <= pr.n == |x|
    ensures (k - 1) * pr.n + c <= |pr.w|
    ensures Weighted(pr, x, i, k, c) ==
            Weighted(pr, x, i, k - 1, c) + At(pr.a, pr.m, pr.p, i, k - 1) * Applied(pr.w, pr.n, x, k - 1, c)
  {
    RoomForOne(k - 1, pr.p, pr.n);
    if c > 0 {
      WeightedStep(pr, x, i, k, c - 1);
      var e, v := At(pr.a, pr.m, pr.p, i, k - 1), At(pr.w, pr.p, pr.n, k - 1, c - 1);
      Distributes(e, v, x[c - 1], Applied(pr.w, pr.n, x, k - 1, c - 1), pr.Dot(i, c - 1, k - 1));
    }
  }

  lemma Distributes(e: int, v: int, x: int, s: int, d: int)
    ensures (d + e * v) * x == d * x + e * (v * x)
    ensures e * (s + v * x) == e * s + e * (v * x)
  {
  }

  lemma {:induction false} WeightedIsApplied(pr: Problem, x: seq<int>, y: seq<int>, i: nat, k: nat)
    requires pr.Valid() && i < pr.m && k <= pr.p == |y| && pr.n == |x|
    requires forall l: nat :: l < pr.p ==> RowFits(pr.w, pr.n, l) && y[l] == Applied(pr.w, pr.n, x, l, pr.n)
    ensures i * pr.p + k <= |pr.a| && Weighted(pr, x, i, k, pr.n) == Applied(pr.a, pr.p, y, i, k)
  {
    RoomForOne(i, pr.m, pr.p);
    if k == 0 {
      WeightedNone(pr, x, i, pr.n);
    } else {
      WeightedIsApplied(pr, x, y, i, k - 1);
      WeightedStep(pr, x, i, k, pr.n);
      assert RowFits(pr.w, pr.n, k - 1);
    }
  }

  lemma {:induction false} WeightedNone(pr: Problem, x: seq<int>, i: nat, c: nat)
    requires pr.Valid() && i < pr.m && c <= pr.n == |x|
    ensures Weighted(pr, x, i, 0, c) == 0
  {
    if c > 0 {
      WeightedNone(pr, x, i, c - 1);
    }
  }

  // ---- Progress.

  lemma ProgressAt(pr: Problem, z: seq<int>, f: Front, i: nat, j: nat)
    requires Progress(pr, z, f) && i < pr.m && j < pr.n
    ensures pr.Valid() && |z| == pr.m * pr.n && f.k0 <= pr.p && f.k1 <= pr.p
    ensures At(z, pr.m, pr.n, i, j) == pr.Dot(i, j, f.Reach(i, j, pr.p))
  {
  }

  /** The front may be described differently. */
  lemma SameFront(pr: Problem, z: seq<int>, f: Front, g: Front)
    requires Progress(pr, z, f) && g.k0 <= pr.p && g.k1 <= pr.p
    requires forall i: nat, j: nat :: i < pr.m && j < pr.n ==> f.Reach(i, j, pr.p) == g.Reach(i, j, pr.p)
    ensures Progress(pr, z, g)
  {
    hide Place;
    forall i: nat, j: nat | i < pr.m && j < pr.n
      ensures At(z, pr.m, pr.n, i, j) == pr.Dot(i, j, g.Reach(i, j, pr.p))
    {
      assert f.Reach(i, j, pr.p) == g.Reach(i, j, pr.p);
    }
  }

  /** A store into row i0 moves the front. */
  lemma StoreA(pr: Problem, z: seq<int>, f: Front, v: int)
    requires Progress(pr, z, f) && f.i0 < pr.m && f.j0 <= f.ja < pr.n && f.ja < f.j0 + CACHEWIDTH
    requires v == pr.Dot(f.i0, f.ja, f.k1)
    ensures Progress(pr, z[Place(pr.m, pr.n, f.i0, f.ja) := v], f.(ja := f.ja + 1))
  {
    hide At, Place;
    var next, g := z[Place(pr.m, pr.n, f.i0, f.ja) := v], f.(ja := f.ja + 1);
    forall i: nat, j: nat | i < pr.m && j < pr.n
      ensures At(next, pr.m, pr.n, i, j) == pr.Dot(i, j, g.Reach(i, j, pr.p))
    {
      AtUpdated(z, pr.m, pr.n, f.i0, f.ja, v, i, j);
    }
  }

  /** A store into row i0+1 moves the front. */
  lemma StoreB(pr: Problem, z: seq<int>, f: Front, v: int)
    requires Progress(pr, z, f) && f.i0 + 1 < pr.m && f.j0 <= f.jb < pr.n && f.jb < f.j0 + CACHEWIDTH
    requires v == pr.Dot(f.i0 + 1, f.jb, f.k1)
    ensures Progress(pr, z[Place(pr.m, pr.n, f.i0 + 1, f.jb) := v], f.(jb := f.jb + 1))
  {
    hide At, Place;
    var next, g := z[Place(pr.m, pr.n, f.i0 + 1, f.jb) := v], f.(jb := f.jb + 1);
    forall i: nat, j: nat | i < pr.m && j < pr.n
      ensures At(next, pr.m, pr.n, i, j) == pr.Dot(i, j, g.Reach(i, j, pr.p))
    {
      AtUpdated(z, pr.m, pr.n, f.i0 + 1, f.jb, v, i, j);
    }
  }

  // ---- The block of w in the cache.

  /** Row k-k0 of the cache holds the columns j0 and on of row k of w, with zeros beyond the last. */
  ghost predicate Cached(pr: Problem, c: seq<int>, j0: nat, k0: nat, k1: nat) {
    && pr.Valid() && |c| == (CACHEHEIGHT + 1) * CACHEWIDTH && k0 <= k1 <= pr.p && k1 - k0 <= CACHEHEIGHT
    && forall r: nat, d: nat :: r < k1 - k0 && d < CACHEWIDTH ==> c[Slot(r, d)] == CacheEntry(pr, k0 + r, j0 + d)
  }

  function Slot(r: nat, d: nat): (q: nat)
    requires r <= CACHEHEIGHT && d < CACHEWIDTH
    ensures q < (CACHEHEIGHT + 1) * CACHEWIDTH
  {
    64 * r + d
  }

  function CacheEntry(pr: Problem, k: nat, j: nat): int
    requires pr.Valid() && k < pr.p
  {
    if j < pr.n then At(pr.w, pr.p, pr.n, k, j) else 0
  }

  lemma CachedAt(pr: Problem, c: seq<int>, j0: nat, k0: nat, k1: nat, k: nat, d: nat)
    requires Cached(pr, c, j0, k0, k1) && k0 <= k < k1 && d < CACHEWIDTH
    ensures pr.Valid() && |c| == (CACHEHEIGHT + 1) * CACHEWIDTH && k - k0 < CACHEHEIGHT && k < pr.p
    ensures c[64 * (k - k0) + d] == CacheEntry(pr, k, j0 + d)
  {
    assert c[Slot(k - k0, d)] == CacheEntry(pr, k, j0 + d);
  }

  /** The cache after row k-k0 has been filled up to place d. */
  ghost predicate Filling(pr: Problem, c: seq<int>, j0: nat, k0: nat, k: nat, d: nat)
  {
    && pr.Valid() && |c| == (CACHEHEIGHT + 1) * CACHEWIDTH && k0 <= k < pr.p && k - k0 < CACHEHEIGHT && d <= CACHEWIDTH
    && Cached(pr, c, j0, k0, k)
    && var r := k - k0; forall e: nat :: e < d ==> c[Slot(r, e)] == CacheEntry(pr, k, j0 + e)
  }

  lemma FillStep(pr: Problem, c: seq<int>, j0: nat, k0: nat, k: nat, d: nat, v: int)
    requires Filling(pr, c, j0, k0, k, d) && d < CACHEWIDTH && v == CacheEntry(pr, k, j0 + d)
    ensures 64 * (k - k0) + d < |c|
    ensures Filling(pr, c[64 * (k - k0) + d := v], j0, k0, k, d + 1)
  {
    hide CacheEntry, Problem.Valid;
  }

  lemma FillStarts(pr: Problem, c: seq<int>, j0: nat, k0: nat, k: nat)
    requires Cached(pr, c, j0, k0, k) && k < pr.p && k - k0 < CACHEHEIGHT
    ensures Filling(pr, c, j0, k0, k, 0)
  {
  }

  lemma FillEnds(pr: Problem, c: seq<int>, j0: nat, k0: nat, k: nat)
    requires Filling(pr, c, j0, k0, k, CACHEWIDTH)
    ensures Cached(pr, c, j0, k0, k + 1)
  {
    hide CacheEntry, Problem.Valid;
    forall r: nat, d: nat | r < k + 1 - k0 && d < CACHEWIDTH
      ensures c[Slot(r, d)] == CacheEntry(pr, k0 + r, j0 + d)
    {
      if r == k - k0 {
        assert c[Slot(k - k0, d)] == CacheEntry(pr, k, j0 + d);
      }
    }
  }

  lemma WAt(pr: Problem, k: nat, j: nat)
    requires pr.Valid() && k < pr.p
    ensures j < pr.n ==> k * pr.n + j < |pr.w| && pr.w[k * pr.n + j] == CacheEntry(pr, k, j)
    ensures j >= pr.n ==> CacheEntry(pr, k, j) == 0
  {
    if j < pr.n {
      RoomForOne(k, pr.p, pr.n);
    }
  }

  /** Read one row of the block, and pad it. */
  method FillRow(wv: array<int>, c: array<int>, ghost pr: Problem, j0: nat, n: nat, k0: nat, k: nat)
    requires pr.Valid() && wv[..] == pr.w && n == pr.n && wv != c && j0 <= n
    requires Cached(pr, c[..], j0, k0, k) && k < pr.p && k - k0 < CACHEHEIGHT
    modifies c
    ensures Cached(pr, c[..], j0, k0, k + 1)
  {
    hide *;
    FillStarts(pr, c[..], j0, k0, k);
    var w0rem := n - j0;
    var j := 0;
    while j < if w0rem < CACHEWIDTH then w0rem else CACHEWIDTH
      invariant 0 <= j <= CACHEWIDTH && Filling(pr, c[..], j0, k0, k, j)
    {
      WAt(pr, k, j0 + j);
      ghost var c0 := c[..];
      FillStep(pr, c0, j0, k0, k, j, CacheEntry(pr, k, j0 + j));
      c[64 * (k - k0) + j] := wv[k * n + (j0 + j)];
      assert c[..] == c0[64 * (k - k0) + j := CacheEntry(pr, k, j0 + j)];
      j := j + 1;
    }
    while j < CACHEWIDTH
      invariant (j < CACHEWIDTH ==> w0rem <= j) && 0 <= j <= CACHEWIDTH && Filling(pr, c[..], j0, k0, k, j)
    {
      WAt(pr, k, j0 + j);
      ghost var c0 := c[..];
      FillStep(pr, c0, j0, k0, k, j, 0);
      c[64 * (k - k0) + j] := 0;
      assert c[..] == c0[64 * (k - k0) + j := 0];
      j := j + 1;
    }
    FillEnds(pr, c[..], j0, k0, k);
  }

  lemma CachedNone(pr: Problem, c: seq<int>, j0: nat, k0: nat)
    requires pr.Valid() && |c| == (CACHEHEIGHT + 1) * CACHEWIDTH && k0 <= pr.p
    ensures Cached(pr, c, j0, k0, k0)
  {
  }

  /** Read the block of w that starts at row k0 and column j0. */
  method FillCache(wv: array<int>, c: array<int>, ghost pr: Problem, j0: nat, n: nat, k0: nat, rows: nat)
    requires pr.Valid() && wv[..] == pr.w && n == pr.n && wv != c && j0 <= n
    requires c.Length == (CACHEHEIGHT + 1) * CACHEWIDTH && rows <= CACHEHEIGHT && k0 + rows <= pr.p
    modifies c
    ensures Cached(pr, c[..], j0, k0, k0 + rows)
  {
    hide *;
    CachedNone(pr, c[..], j0, k0);
    var i := 0;
    while i < rows
      invariant 0 <= i <= rows && Cached(pr, c[..], j0, k0, k0 + i)
    {
      FillRow(wv, c, pr, j0, n, k0, k0 + i);
      i := i + 1;
    }
  }

  // ---- Two rows by four columns.

  /** Four neighbouring numbers. */
  datatype Four = Four(x0: int, x1: int, x2: int, x3: int)

  /** What an accumulator holds, if it belongs to the result. */
  ghost predicate Sum(pr: Problem, i: nat, j: nat, k: nat, used: bool, z: int) {
    used ==> pr.Valid() && i < pr.m && j < pr.n && k <= pr.p && z == pr.Dot(i, j, k)
  }

  /** The four accumulators of a row. */
  ghost predicate Sums(pr: Problem, i: nat, j: nat, k: nat, used: bool, cols: nat, z: Four) {
    && Sum(pr, i, j, k, used, z.x0) && Sum(pr, i, j + 1, k, used && cols > 1, z.x1)
    && Sum(pr, i, j + 2, k, used && cols > 2, z.x2) && Sum(pr, i, j + 3, k, used && cols > 3, z.x3)
  }

  /** Add the products of one number of a with four of w. */
  function AddProducts(z: Four, c: Four, a: int): Four {
    Four(z.x0 + c.x0 * a, z.x1 + c.x1 * a, z.x2 + c.x2 * a, z.x3 + c.x3 * a)
  }

  lemma SumStep(pr: Problem, i: nat, j: nat, k: nat, used: bool, z: int, a: int, c: int)
    requires Sum(pr, i, j, k, used, z) && k < pr.p && pr.Valid()
    requires used ==> a == At(pr.a, pr.m, pr.p, i, k) && c == CacheEntry(pr, k, j)
    ensures Sum(pr, i, j, k + 1, used, z + c * a)
  {
    if used {
      Product(a, c);
    }
  }

  /** The numbers of w at columns j to j+3. */
  ghost predicate EntriesAt(pr: Problem, k: nat, j: nat, c: Four)
    requires pr.Valid() && k < pr.p
  {
    && c.x0 == CacheEntry(pr, k, j) && c.x1 == CacheEntry(pr, k, j + 1)
    && c.x2 == CacheEntry(pr, k, j + 2) && c.x3 == CacheEntry(pr, k, j + 3)
  }

  lemma SumsStep(pr: Problem, i: nat, j: nat, k: nat, used: bool, cols: nat, z: Four, a: int, c: Four)
    requires Sums(pr, i, j, k, used, cols, z) && pr.Valid() && k < pr.p
    requires used ==> i < pr.m && a == At(pr.a, pr.m, pr.p, i, k)
    requires EntriesAt(pr, k, j, c)
    ensures Sums(pr, i, j, k + 1, used, cols, AddProducts(z, c, a))
  {
    hide Sum, CacheEntry, At, Problem.Valid;
    SumStep(pr, i, j, k, used, z.x0, a, c.x0);
    SumStep(pr, i, j + 1, k, used && cols > 1, z.x1, a, c.x1);
    SumStep(pr, i, j + 2, k, used && cols > 2, z.x2, a, c.x2);
    SumStep(pr, i, j + 3, k, used && cols > 3, z.x3, a, c.x3);
  }

  lemma Product(a: int, c: int)
    ensures a * c == c * a
  {
  }

  lemma AAt(pr: Problem, i: nat, k: nat)
    requires pr.Valid() && i < pr.m && k < pr.p
    ensures i * pr.p + k < |pr.a| && pr.a[i * pr.p + k] == At(pr.a, pr.m, pr.p, i, k)
  {
    RoomForOne(i, pr.m, pr.p);
  }

  lemma ZAt(pr: Problem, z: seq<int>, f: Front, i: nat, j: nat, q: nat, used: bool)
    requires Progress(pr, z, f) && (used ==> i < pr.m && f.j0 <= j < pr.n && j < f.j0 + CACHEWIDTH)
    requires used ==> (i == f.i0 && j >= f.ja) || (i == f.i0 + 1 && j >= f.jb)
    requires used ==> q == i * pr.n + j
    ensures used ==> q < |z| && Sum(pr, i, j, f.k0, true, z[q])
  {
    if used {
      ProgressAt(pr, z, f, i, j);
    }
  }

  /** Four numbers of row k of w, from the cache. */
  method FromCache(c: array<int>, ghost pr: Problem, j0: nat, k0: nat, ghost k1: nat, k: nat, j: nat) returns (e: Four)
    requires pr.Valid() && Cached(pr, c[..], j0, k0, k1) && k0 <= k < k1 && j0 <= j && j + 3 < j0 + CACHEWIDTH
    ensures k < pr.p && k - k0 < CACHEHEIGHT && EntriesAt(pr, k, j, e)
  {
    hide Cached, CacheEntry, Problem.Valid;
    var d := j - j0;
    CachedAt(pr, c[..], j0, k0, k1, k, d);
    CachedAt(pr, c[..], j0, k0, k1, k, d + 1);
    CachedAt(pr, c[..], j0, k0, k1, k, d + 2);
    CachedAt(pr, c[..], j0, k0, k1, k, d + 3);
    var q := 64 * (k - k0) + d;
    e := Four(c[q], c[q + 1], c[q + 2], c[q + 3]);
  }

  /** The number of a for a row, or a one from the row that stands for a missing row. */
  method FromRow(av: array<int>, missing: array<int>, ghost pr: Problem, p: nat, k0: nat, k: nat, i: nat, used: bool)
    returns (a: int)
    requires pr.Valid() && av[..] == pr.a && p == pr.p && missing.Length == CACHEHEIGHT
    requires k0 <= k < p && k - k0 < CACHEHEIGHT && (used ==> i < pr.m)
    ensures used ==> a == At(pr.a, pr.m, pr.p, i, k)
  {
    hide *;
    if used {
      AAt(pr, i, k);
      a := av[i * p + k];
    } else {
      a := missing[k - k0];
    }
  }

  /** The eight accumulators, after the loop over the block. */
  method Accumulate(av: array<int>, missing: array<int>, c: array<int>, ghost pr: Problem, p: nat,
                    j0: nat, k0: nat, k1: nat, i: nat, j: nat, two: bool, ghost cols: nat, z0: Four, z1: Four)
    returns (r0: Four, r1: Four)
    requires pr.Valid() && av[..] == pr.a && p == pr.p && missing.Length == CACHEHEIGHT
    requires Cached(pr, c[..], j0, k0, k1) && k0 < k1 && i < pr.m && (two ==> i + 1 < pr.m)
    requires j0 <= j && j + 3 < j0 + CACHEWIDTH
    requires Sums(pr, i, j, k0, true, cols, z0) && Sums(pr, i + 1, j, k0, two, cols, z1)
    ensures Sums(pr, i, j, k1, true, cols, r0) && Sums(pr, i + 1, j, k1, two, cols, r1)
  {
    hide *;
    r0, r1 := z0, z1;
    var k := k0;
    while true
      invariant k0 <= k < k1
      invariant Sums(pr, i, j, k, true, cols, r0) && Sums(pr, i + 1, j, k, two, cols, r1)
      decreases k1 - k
    {
      var e := FromCache(c, pr, j0, k0, k1, k, j);
      var a0 := FromRow(av, missing, pr, p, k0, k, i, true);
      var a1 := FromRow(av, missing, pr, p, k0, k, i + 1, two);
      SumsStep(pr, i, j, k, true, cols, r0, a0, e);
      SumsStep(pr, i + 1, j, k, two, cols, r1, a1, e);
      r0, r1 := AddProducts(r0, e, a0), AddProducts(r1, e, a1);
      k := k + 1;
      if k >= k1 { break; }
    }
  }

  // ---- Loading and storing the corner.

  lemma SumIs(pr: Problem, i: nat, j: nat, k: nat, z: int)
    requires Sum(pr, i, j, k, true, z)
    ensures pr.Valid() && i < pr.m && j < pr.n && k <= pr.p && z == pr.Dot(i, j, k)
  {
  }

  /** Store an accumulator of row i0. */
  method PutA(zv: array<int>, ghost pr: Problem, ghost f: Front, i: nat, j: nat, n: nat, v: int)
    returns (ghost g: Front)
    requires Progress(pr, zv[..], f) && n == pr.n && i == f.i0 && j == f.ja && f.j0 <= j < f.j0 + CACHEWIDTH
    requires Sum(pr, i, j, f.k1, true, v)
    modifies zv
    ensures g == f.(ja := f.ja + 1) && Progress(pr, zv[..], g)
  {
    hide Progress, Sum, Problem.Dot, Problem.Valid;
    SumIs(pr, i, j, f.k1, v);
    ProgressAt(pr, zv[..], f, i, j);
    StoreA(pr, zv[..], f, v);
    ghost var q := Place(pr.m, pr.n, i, j);
    ghost var z := zv[..];
    zv[i * n + j] := v;
    assert zv[..] == z[q := v];
    g := f.(ja := f.ja + 1);
  }

  method PutB(zv: array<int>, ghost pr: Problem, ghost f: Front, i: nat, j: nat, n: nat, v: int)
    returns (ghost g: Front)
    requires Progress(pr, zv[..], f) && n == pr.n && i == f.i0 + 1 && j == f.jb && f.j0 <= j < f.j0 + CACHEWIDTH
    requires Sum(pr, i, j, f.k1, true, v)
    modifies zv
    ensures g == f.(jb := f.jb + 1) && Progress(pr, zv[..], g)
  {
    hide Progress, Sum, Problem.Dot, Problem.Valid;
    SumIs(pr, i, j, f.k1, v);
    ProgressAt(pr, zv[..], f, i, j);
    StoreB(pr, zv[..], f, v);
    ghost var q := Place(pr.m, pr.n, i, j);
    ghost var z := zv[..];
    zv[i * n + j] := v;
    assert zv[..] == z[q := v];
    g := f.(jb := f.jb + 1);
  }

  /** Load what there is of the corner. */
  method LoadCorner(zv: array<int>, ghost pr: Problem, n: nat, ghost f: Front, i: nat, j: nat, two: bool, cols: nat)
    returns (z0: Four, z1: Four)
    requires Progress(pr, zv[..], f) && n == pr.n && i == f.i0 < pr.m && (two ==> i + 1 < pr.m) && j == f.ja == f.jb
    requires f.j0 <= j < pr.n && j + 3 < f.j0 + CACHEWIDTH && cols > 0
    requires (cols > 3 ==> j + 3 < pr.n) && (cols <= 3 ==> cols == pr.n - j)
    ensures Sums(pr, i, j, f.k0, true, cols, z0) && Sums(pr, i + 1, j, f.k0, two, cols, z1)
  {
    hide *;
    var z00, z01, z02, z03, z10, z11, z12, z13 := 0, 0, 0, 0, 0, 0, 0, 0;
    var q: nat, r: nat := Spot(i, n, j), Spot(i + 1, n, j);
    Loadable(pr, zv[..], f, i, j, q, r, two, cols);
    z00 := zv[q];
    if cols > 3 {
      z01, z02, z03 := zv[q + 1], zv[q + 2], zv[q + 3];
      if two {
        z10, z11, z12, z13 := zv[r], zv[r + 1], zv[r + 2], zv[r + 3];
      }
    } else {
      if cols > 1 {
        z01 := zv[q + 1];
        if cols > 2 { z02 := zv[q + 2]; }
      }
      if two {
        z10 := zv[r];
        if cols > 1 { z11 := zv[r + 1]; }
        if cols > 2 { z12 := zv[r + 2]; }
      }
    }
    z0, z1 := Four(z00, z01, z02, z03), Four(z10, z11, z12, z13);
    UnusedSums(pr, i, j, f.k0, two, cols, z01, z02, z03, z10, z11, z12, z13);
    SumsAre(pr, i, j, f.k0, true, cols, z0);
    SumsAre(pr, i + 1, j, f.k0, two, cols, z1);
  }

  /** Store what there is of the corner. */
  method StoreCorner(zv: array<int>, ghost pr: Problem, n: nat, ghost f: Front, i: nat, j: nat, two: bool, cols: nat,
                     r0: Four, r1: Four)
    returns (ghost g: Front)
    requires Progress(pr, zv[..], f) && n == pr.n && i == f.i0 && j == f.ja == f.jb && f.j0 <= j
    requires j + 3 < f.j0 + CACHEWIDTH && cols > 0
    requires Sums(pr, i, j, f.k1, true, cols, r0) && Sums(pr, i + 1, j, f.k1, two, cols, r1)
    modifies zv
    ensures var d := if cols > 3 then 4 else cols;
            g == Front(f.j0, f.k0, f.k1, i, j + d, if two then j + d else j) && Progress(pr, zv[..], g)
  {
    hide *;
    SumsAre(pr, i, j, f.k1, true, cols, r0);
    SumsAre(pr, i + 1, j, f.k1, two, cols, r1);
    g := PutA(zv, pr, f, i, j, n, r0.x0);
    if cols > 3 {
      g := PutA(zv, pr, g, i, j + 1, n, r0.x1);
      g := PutA(zv, pr, g, i, j + 2, n, r0.x2);
      g := PutA(zv, pr, g, i, j + 3, n, r0.x3);
      if two {
        g := PutB(zv, pr, g, i + 1, j, n, r1.x0);
        g := PutB(zv, pr, g, i + 1, j + 1, n, r1.x1);
        g := PutB(zv, pr, g, i + 1, j + 2, n, r1.x2);
        g := PutB(zv, pr, g, i + 1, j + 3, n, r1.x3);
      }
    } else {
      if cols > 1 {
        g := PutA(zv, pr, g, i, j + 1, n, r0.x1);
        if cols > 2 { g := PutA(zv, pr, g, i, j + 2, n, r0.x2); }
      }
      if two {
        g := PutB(zv, pr, g, i + 1, j, n, r1.x0);
        if cols > 1 {
          g := PutB(zv, pr, g, i + 1, j + 1, n, r1.x1);
          if cols > 2 { g := PutB(zv, pr, g, i + 1, j + 2, n, r1.x2); }
        }
      }
    }
  }

  /** Two rows (or one, at the end) by four columns (or fewer, at the edge) of the result: load what
      there is, accumulate the block, store what there is. */
  method Corner(av: array<int>, missing: array<int>, c: array<int>, zv: array<int>, ghost pr: Problem, n: nat, p: nat,
                ghost f: Front, j0: nat, k0: nat, k1: nat, i: nat, j: nat, two: bool, cols: nat)
    returns (ghost g: Front)
    requires pr.Valid() && av[..] == pr.a && p == pr.p && n == pr.n && missing.Length == CACHEHEIGHT
    requires zv != av && zv != missing && zv != c
    requires Cached(pr, c[..], j0, k0, k1) && k0 < k1 && i < pr.m && (two <==> i + 1 < pr.m)
    requires f == Front(j0, k0, k1, i, j, j) && Progress(pr, zv[..], f)
    requires j0 <= j && j + 3 < j0 + CACHEWIDTH && cols > 0 && (cols > 3 ==> j + 3 < n) && (cols <= 3 ==> cols == n - j)
    modifies zv
    ensures var d := if cols > 3 then 4 else cols;
            g == Front(j0, k0, k1, i, j + d, if two then j + d else j) && Progress(pr, zv[..], g)
  {
    hide *;
    var z0, z1 := LoadCorner(zv, pr, n, f, i, j, two, cols);
    var r0, r1 := Accumulate(av, missing, c, pr, p, j0, k0, k1, i, j, two, cols, z0, z1);
    g := StoreCorner(zv, pr, n, f, i, j, two, cols, r0, r1);
  }

  lemma SumsAre(pr: Problem, i: nat, j: nat, k: nat, used: bool, cols: nat, z: Four)
    ensures Sums(pr, i, j, k, used, cols, z) <==>
            && Sum(pr, i, j, k, used, z.x0) && Sum(pr, i, j + 1, k, used && cols > 1, z.x1)
            && Sum(pr, i, j + 2, k, used && cols > 2, z.x2) && Sum(pr, i, j + 3, k, used && cols > 3, z.x3)
  {
  }

  function Spot(i: nat, n: nat, j: nat): (q: nat)
    ensures q == i * n + j
  {
    TimesMonotone(0, i, n);
    i * n + j
  }

  /** Where the corner lies in the result, and what it holds. */
  lemma Loadable(pr: Problem, z: seq<int>, f: Front, i: nat, j: nat, q: nat, r: nat, two: bool, cols: nat)
    requires Progress(pr, z, f) && i == f.i0 < pr.m && (two ==> i + 1 < pr.m) && j == f.ja == f.jb
    requires f.j0 <= j < pr.n && j + 3 < f.j0 + CACHEWIDTH && cols > 0
    requires (cols > 3 ==> j + 3 < pr.n) && (cols <= 3 ==> cols == pr.n - j)
    requires q == i * pr.n + j && r == (i + 1) * pr.n + j
    ensures q < |z| && Sum(pr, i, j, f.k0, true, z[q])
    ensures cols > 1 ==> q + 1 < |z| && Sum(pr, i, j + 1, f.k0, true, z[q + 1])
    ensures cols > 2 ==> q + 2 < |z| && Sum(pr, i, j + 2, f.k0, true, z[q + 2])
    ensures cols > 3 ==> q + 3 < |z| && Sum(pr, i, j + 3, f.k0, true, z[q + 3])
    ensures two ==> r < |z| && Sum(pr, i + 1, j, f.k0, true, z[r])
    ensures two && cols > 1 ==> r + 1 < |z| && Sum(pr, i + 1, j + 1, f.k0, true, z[r + 1])
    ensures two && cols > 2 ==> r + 2 < |z| && Sum(pr, i + 1, j + 2, f.k0, true, z[r + 2])
    ensures two && cols > 3 ==> r + 3 < |z| && Sum(pr, i + 1, j + 3, f.k0, true, z[r + 3])
  {
    hide *;
    ZAt(pr, z, f, i, j, q, true);
    ZAt(pr, z, f, i, j + 1, q + 1, cols > 1);
    ZAt(pr, z, f, i, j + 2, q + 2, cols > 2);
    ZAt(pr, z, f, i, j + 3, q + 3, cols > 3);
    ZAt(pr, z, f, i + 1, j, r, two);
    ZAt(pr, z, f, i + 1, j + 1, r + 1, two && cols > 1);
    ZAt(pr, z, f, i + 1, j + 2, r + 2, two && cols > 2);
    ZAt(pr, z, f, i + 1, j + 3, r + 3, two && cols > 3);
  }

  /** An accumulator outside the result may hold anything. */
  lemma UnusedSums(pr: Problem, i: nat, j: nat, k: nat, two: bool, cols: nat,
                   z01: int, z02: int, z03: int, z10: int, z11: int, z12: int, z13: int)
    ensures cols <= 1 ==> Sum(pr, i, j + 1, k, false, z01)
    ensures cols <= 2 ==> Sum(pr, i, j + 2, k, false, z02)
    ensures cols <= 3 ==> Sum(pr, i, j + 3, k, false, z03)
    ensures !two ==> Sum(pr, i + 1, j, k, false, z10)
    ensures !two || cols <= 1 ==> Sum(pr, i + 1, j + 1, k, false, z11)
    ensures !two || cols <= 2 ==> Sum(pr, i + 1, j + 2, k, false, z12)
    ensures !two || cols <= 3 ==> Sum(pr, i + 1, j + 3, k, false, z13)
  {
  }

  // ---- The loops.

  function Smaller(x: int, y: int): int {
    if x < y then x else y
  }

  /** All the columns of the stripe, four at a time, for one pair of rows. */
  method RowPair(av: array<int>, missing: array<int>, c: array<int>, zv: array<int>, ghost pr: Problem, n: nat, p: nat,
                 j0: nat, k0: nat, k1: nat, i: nat, two: bool)
    requires pr.Valid() && av[..] == pr.a && p == pr.p && n == pr.n && missing.Length == CACHEHEIGHT
    requires zv != av && zv != missing && zv != c
    requires Cached(pr, c[..], j0, k0, k1) && k0 < k1 && i < pr.m && (two <==> i + 1 < pr.m) && j0 < n
    requires Progress(pr, zv[..], Front(j0, k0, k1, i, j0, j0))
    modifies zv
    ensures Progress(pr, zv[..], Front(j0, k0, k1, i + 2, j0, j0))
  {
    hide *;
    var a3rem, j := Smaller(n - j0, CACHEWIDTH), j0;
    SmallerIs(n - j0, CACHEWIDTH);
    ghost var f := Front(j0, k0, k1, i, j0, j0);
    while a3rem > 0
      invariant j0 <= j && a3rem == Smaller(n - j0, CACHEWIDTH) - (j - j0) && (j - j0) % 4 == 0
      invariant j - j0 < 4 + Smaller(n - j0, CACHEWIDTH)
      invariant if a3rem > 0 then f == Front(j0, k0, k1, i, j, j)
                else f.j0 == j0 && f.k0 == k0 && f.k1 == k1 && f.i0 == i
                     && f.ja - j0 >= Smaller(n - j0, CACHEWIDTH) && (two ==> f.jb == f.ja) && (!two ==> f.jb >= j0)
      invariant Progress(pr, zv[..], f)
      decreases a3rem
    {
      CornerFits(n - j0, j - j0, a3rem);
      f := Corner(av, missing, c, zv, pr, n, p, f, j0, k0, k1, i, j, two, a3rem);
      f := NextCorner(pr, zv[..], f, i, j, two, a3rem, n);
      a3rem, j := a3rem - 4, j + 4;
    }
    RowsDone(pr, zv[..], f, j0, k0, k1, i, two);
  }

  lemma Sizes()
    ensures CACHEWIDTH > 0 && CACHEHEIGHT > 0
  {
  }

  lemma SmallerIs(x: int, y: int)
    ensures Smaller(x, y) <= x && Smaller(x, y) <= y && (Smaller(x, y) == x || Smaller(x, y) == y)
  {
  }

  lemma CornerFits(width: int, d: nat, a3rem: nat)
    requires width > 0 && a3rem == Smaller(width, CACHEWIDTH) - d && a3rem > 0 && d % 4 == 0
    ensures d + 3 < CACHEWIDTH
    ensures a3rem > 3 ==> d + 3 < width
    ensures a3rem <= 3 ==> a3rem == width - d
  {
  }

  /** If there is no second row, it does not matter how far it is said to have come. */
  lemma NextCorner(pr: Problem, z: seq<int>, f: Front, i: nat, j: nat, two: bool, cols: nat, n: nat) returns (g: Front)
    requires Progress(pr, z, f) && (two <==> i + 1 < pr.m) && i == f.i0
    requires var d := if cols > 3 then 4 else cols;
             f == Front(f.j0, f.k0, f.k1, i, j + d, if two then j + d else j) && cols > 0 && f.j0 <= j
    ensures g == Front(f.j0, f.k0, f.k1, i, f.ja, f.ja) && Progress(pr, z, g)
  {
    g := f.(jb := f.ja);
    hide Progress;
    ProgressBounds(pr, z, f);
    forall i': nat, j': nat | i' < pr.m && j' < pr.n
      ensures f.Reach(i', j', pr.p) == g.Reach(i', j', pr.p)
    {
    }
    SameFront(pr, z, f, g);
  }

  lemma ProgressBounds(pr: Problem, z: seq<int>, f: Front)
    requires Progress(pr, z, f)
    ensures f.k0 <= pr.p && f.k1 <= pr.p && |z| == pr.m * pr.n
  {
  }

  lemma RowsDone(pr: Problem, z: seq<int>, f: Front, j0: nat, k0: nat, k1: nat, i: nat, two: bool)
    requires Progress(pr, z, f) && f.j0 == j0 && f.k0 == k0 && f.k1 == k1 && f.i0 == i && (two <==> i + 1 < pr.m)
    requires f.ja - j0 >= Smaller(pr.n - j0, CACHEWIDTH) && (two ==> f.jb == f.ja)
    ensures Progress(pr, z, Front(j0, k0, k1, i + 2, j0, j0))
  {
    hide Progress;
    ProgressBounds(pr, z, f);
    var g := Front(j0, k0, k1, i + 2, j0, j0);
    forall i': nat, j': nat | i' < pr.m && j' < pr.n
      ensures f.Reach(i', j', pr.p) == g.Reach(i', j', pr.p)
    {
    }
    SameFront(pr, z, f, g);
  }

  /** The rows of the result, two at a time, against the block in the cache. */
  method AllRows(av: array<int>, missing: array<int>, c: array<int>, zv: array<int>, ghost pr: Problem,
                 m: nat, n: nat, p: nat, j0: nat, k0: nat, k1: nat)
    requires pr.Valid() && av[..] == pr.a && p == pr.p && n == pr.n && m == pr.m && missing.Length == CACHEHEIGHT
    requires zv != av && zv != missing && zv != c
    requires Cached(pr, c[..], j0, k0, k1) && k0 < k1 && j0 < n
    requires Progress(pr, zv[..], Front(j0, k0, k0, 0, j0, j0))
    modifies zv
    ensures Progress(pr, zv[..], Front(j0, k1, k1, 0, j0, j0))
  {
    hide *;
    BlockStarts(pr, zv[..], c[..], j0, k0, k1);
    var a2rem: int := m;
    var i := 0;
    while a2rem > 0
      invariant 0 <= i && a2rem == m - i
      invariant Progress(pr, zv[..], Front(j0, k0, k1, i, j0, j0))
      decreases a2rem
    {
      RowPair(av, missing, c, zv, pr, n, p, j0, k0, k1, i, a2rem > 1);
      a2rem, i := a2rem - 2, i + 2;
    }
    BlockEnds(pr, zv[..], j0, k0, k1, i);
  }

  lemma BlockStarts(pr: Problem, z: seq<int>, c: seq<int>, j0: nat, k0: nat, k1: nat)
    requires Progress(pr, z, Front(j0, k0, k0, 0, j0, j0)) && Cached(pr, c, j0, k0, k1)
    ensures Progress(pr, z, Front(j0, k0, k1, 0, j0, j0))
  {
    var f, g := Front(j0, k0, k0, 0, j0, j0), Front(j0, k0, k1, 0, j0, j0);
    assert k1 <= pr.p;
    ProgressBounds(pr, z, f);
    hide Progress, Cached;
    forall i: nat, j: nat | i < pr.m && j < pr.n ensures f.Reach(i, j, pr.p) == g.Reach(i, j, pr.p) {
    }
    SameFront(pr, z, f, g);
  }

  lemma BlockEnds(pr: Problem, z: seq<int>, j0: nat, k0: nat, k1: nat, i: nat)
    requires Progress(pr, z, Front(j0, k0, k1, i, j0, j0)) && i >= pr.m
    ensures Progress(pr, z, Front(j0, k1, k1, 0, j0, j0))
  {
    var f, g := Front(j0, k0, k1, i, j0, j0), Front(j0, k1, k1, 0, j0, j0);
    ProgressBounds(pr, z, f);
    hide Progress;
    forall i': nat, j: nat | i' < pr.m && j < pr.n ensures f.Reach(i', j, pr.p) == g.Reach(i', j, pr.p) {
    }
    SameFront(pr, z, f, g);
  }

  /** One stripe of 64 columns: its blocks of 16 rows of w, one after the other. */
  method Stripe(av: array<int>, wv: array<int>, missing: array<int>, c: array<int>, zv: array<int>, ghost pr: Problem,
                m: nat, n: nat, p: nat, j0: nat)
    requires pr.Valid() && av[..] == pr.a && wv[..] == pr.w && p == pr.p && n == pr.n && m == pr.m
    requires missing.Length == CACHEHEIGHT && c.Length == (CACHEHEIGHT + 1) * CACHEWIDTH
    requires zv != av && zv != missing && zv != c && zv != wv && c != av && c != wv && c != missing && j0 < n
    requires Progress(pr, zv[..], Front(j0, 0, 0, 0, j0, j0))
    modifies zv, c
    ensures Progress(pr, zv[..], Front(j0 + CACHEWIDTH, 0, 0, 0, j0 + CACHEWIDTH, j0 + CACHEWIDTH))
  {
    hide *;
    var w1rem: int := p;
    var k0 := 0;
    while w1rem > 0
      invariant 0 <= k0 && w1rem == p - k0
      invariant Progress(pr, zv[..], Front(j0, if k0 < p then k0 else p, if k0 < p then k0 else p, 0, j0, j0))
      decreases w1rem
    {
      SmallerIs(w1rem, CACHEHEIGHT);
      Sizes();
      var rows := Smaller(w1rem, CACHEHEIGHT);
      FillCache(wv, c, pr, j0, n, k0, rows);
      AllRows(av, missing, c, zv, pr, m, n, p, j0, k0, k0 + rows);
      w1rem, k0 := w1rem - CACHEHEIGHT, k0 + CACHEHEIGHT;
    }
    StripeEnds(pr, zv[..], j0);
  }

  lemma StripeEnds(pr: Problem, z: seq<int>, j0: nat)
    requires Progress(pr, z, Front(j0, pr.p, pr.p, 0, j0, j0))
    ensures Progress(pr, z, Front(j0 + CACHEWIDTH, 0, 0, 0, j0 + CACHEWIDTH, j0 + CACHEWIDTH))
  {
    var f, g := Front(j0, pr.p, pr.p, 0, j0, j0), Front(j0 + CACHEWIDTH, 0, 0, 0, j0 + CACHEWIDTH, j0 + CACHEWIDTH);
    hide Progress;
    forall i: nat, j: nat | i < pr.m && j < pr.n ensures f.Reach(i, j, pr.p) == g.Reach(i, j, pr.p) {
    }
    SameFront(pr, z, f, g);
  }

  lemma ProgressStarts(pr: Problem, z: seq<int>)
    requires pr.Valid() && |z| == pr.m * pr.n && forall q :: 0 <= q < |z| ==> z[q] == 0
    ensures Progress(pr, z, Front(0, 0, 0, 0, 0, 0))
  {
  }

  lemma ProgressEnds(pr: Problem, z: seq<int>, j0: nat)
    requires Progress(pr, z, Front(j0, 0, 0, 0, j0, j0)) && j0 >= pr.n
    ensures IsProduct(pr, z)
  {
    hide Place;
  }

  /** The matrix product z of a and w. */
  method Multiply(av: array<int>, wv: array<int>, zv: array<int>, m: nat, n: nat, p: nat)
    requires av.Length == m * p && wv.Length == p * n && zv.Length == m * n && zv != av && zv != wv
    modifies zv
    ensures IsProduct(Problem(old(av[..]), old(wv[..]), m, n, p), zv[..])
  {
    var c := new int[(CACHEHEIGHT + 1) * CACHEWIDTH];
    var missing := new int[CACHEHEIGHT](_ => 1);
    MultiplyWith(av, wv, zv, m, n, p, c, missing);
  }

  method MultiplyWith(av: array<int>, wv: array<int>, zv: array<int>, m: nat, n: nat, p: nat, c: array<int>, missing: array<int>)
    requires av.Length == m * p && wv.Length == p * n && zv.Length == m * n && zv != av && zv != wv
    requires missing.Length == CACHEHEIGHT && c.Length == (CACHEHEIGHT + 1) * CACHEWIDTH
    requires zv != missing && zv != c && c != av && c != wv && c != missing
    modifies zv, c
    ensures IsProduct(Problem(old(av[..]), old(wv[..]), m, n, p), zv[..])
  {
    ghost var pr := Problem(av[..], wv[..], m, n, p);
    assert pr.Valid();
    hide *;
    for q := 0 to zv.Length
      invariant forall r :: 0 <= r < q ==> zv[r] == 0
    {
      zv[q] := 0;
    }
    ProgressStarts(pr, zv[..]);
    var w0rem: int := n;
    var j0 := 0;
    while w0rem > 0
      invariant 0 <= j0 && w0rem == n - j0
      invariant Progress(pr, zv[..], Front(j0, 0, 0, 0, j0, j0))
      decreases w0rem
    {
      Stripe(av, wv, missing, c, zv, pr, m, n, p, j0);
      w0rem, j0 := w0rem - CACHEWIDTH, j0 + CACHEWIDTH;
    }
    ProgressEnds(pr, zv[..], j0);
  }
}
