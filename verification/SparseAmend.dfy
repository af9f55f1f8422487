/** Amending a sparse array in its value table, and what the amended array denotes. */
module SparseAmend {
  import opened Arith
  import opened CellOffset
  import opened Classes
  import opened SparseSpec
  import opened SparsePad
  import opened SparseCells
  import opened SparseRuns
  import opened SparseSeats

  // ---- Storing blocks into a value table.

  /** Atom p of the value for store k: the replacement is one atom for all, or a list of blocks of c. */
  function CellAtom<T>(a: seq<T>, atom: bool, c: nat, k: nat, p: nat): T
    requires p < c && EnoughCells(a, atom, c, k + 1)
  {
    OneMoreTimes(k, c);
    if atom then a[0] else a[k * c + p]
  }

  predicate EnoughCells<T>(a: seq<T>, atom: bool, c: nat, n: nat) {
    if atom then |a| > 0 else n * c <= |a|
  }

  lemma EnoughLess<T>(a: seq<T>, atom: bool, c: nat, k: nat, n: nat)
    requires EnoughCells(a, atom, c, n) && k <= n
    ensures EnoughCells(a, atom, c, k)
  {
    TimesMonotone(k, n, c);
  }

  /** One more than the last of the first k stores that goes to block b, 0 if there is none. */
  function LastTo(tg: seq<nat>, k: nat, b: nat): (l: nat)
    requires k <= |tg|
    ensures l <= k && (l > 0 ==> tg[l - 1] == b)
  {
    if k == 0 then 0 else if tg[k - 1] == b then k else LastTo(tg, k - 1, b)
  }

  lemma {:induction false} LastToIs(tg: seq<nat>, k: nat, b: nat, l: nat)
    requires l <= k <= |tg| && (l > 0 ==> tg[l - 1] == b) && forall i :: l <= i < k ==> tg[i] != b
    ensures LastTo(tg, k, b) == l
  {
    if l < k {
      LastToIs(tg, k - 1, b, l);
    }
  }

  /** Atom p of block b after k stores. */
  function BlockAtom<T>(x0: seq<T>, tg: seq<nat>, nb: nat, c: nat, a: seq<T>, atom: bool, k: nat, b: nat, p: nat): T
    requires |x0| == nb * c && k <= |tg| && EnoughCells(a, atom, c, |tg|) && b < nb && p < c
  {
    var l := LastTo(tg, k, b);
    BlockPlace(nb, c, b, p);
    if l == 0 then x0[b * c + p] else EnoughLess(a, atom, c, l, |tg|); CellAtom(a, atom, c, l - 1, p)
  }

  lemma BlockPlace(nb: nat, c: nat, b: nat, p: nat)
    requires b < nb && p < c
    ensures b * c + p < nb * c && b * c >= 0
  {
    RoomForOne(b, nb, c);
  }

  /** The value table after k stores. */
  ghost predicate Holds<T>(x0: seq<T>, x: seq<T>, tg: seq<nat>, nb: nat, c: nat, a: seq<T>, atom: bool, k: nat) {
    && |x| == |x0| == nb * c && k <= |tg| && EnoughCells(a, atom, c, |tg|)
    && forall b: nat, p: nat :: b < nb && p < c ==> HoldsAt(x0, x, tg, nb, c, a, atom, k, b, p)
  }

  ghost predicate HoldsAt<T>(x0: seq<T>, x: seq<T>, tg: seq<nat>, nb: nat, c: nat, a: seq<T>, atom: bool, k: nat, b: nat, p: nat)
    requires |x0| == nb * c && k <= |tg| && EnoughCells(a, atom, c, |tg|)
  {
    b < nb && p < c && b * c + p < |x| && x[b * c + p] == BlockAtom(x0, tg, nb, c, a, atom, k, b, p)
  }

  lemma HoldsNone<T>(x0: seq<T>, tg: seq<nat>, nb: nat, c: nat, a: seq<T>, atom: bool)
    requires |x0| == nb * c && EnoughCells(a, atom, c, |tg|)
    ensures Holds(x0, x0, tg, nb, c, a, atom, 0)
  {
    forall b: nat, p: nat | b < nb && p < c ensures HoldsAt(x0, x0, tg, nb, c, a, atom, 0, b, p) {
      BlockPlace(nb, c, b, p);
    }
  }

  /** A store changes its block and no other. */
  lemma HoldsStep<T>(x0: seq<T>, x: seq<T>, tg: seq<nat>, nb: nat, c: nat, a: seq<T>, atom: bool, k: nat, x': seq<T>)
    requires Holds(x0, x, tg, nb, c, a, atom, k) && k < |tg| && tg[k] < nb && |x'| == |x|
    requires EnoughCells(a, atom, c, k + 1)
    requires forall i: nat :: i < |x| ==>
               x'[i] == if tg[k] * c <= i < tg[k] * c + c then CellAtom(a, atom, c, k, i - tg[k] * c) else x[i]
    ensures Holds(x0, x', tg, nb, c, a, atom, k + 1)
  {
    var next := k + 1;
    forall b: nat, p: nat | b < nb && p < c ensures HoldsAt(x0, x', tg, nb, c, a, atom, next, b, p) {
      BlockPlace(nb, c, b, p);
      assert HoldsAt(x0, x, tg, nb, c, a, atom, k, b, p);
      StoreElsewhere(c, b, p, tg[k]);
      hide CellAtom, EnoughCells;
    }
  }

  lemma StoreElsewhere(c: nat, b: nat, p: nat, t: nat)
    requires p < c
    ensures t * c <= b * c + p < t * c + c <==> t == b
  {
    if t < b {
      RoomForOne(t, b, c);
    } else if b < t {
      RoomForOne(b, t, c);
    }
  }

  lemma HoldsSkip<T>(x0: seq<T>, x: seq<T>, tg: seq<nat>, nb: nat, c: nat, a: seq<T>, atom: bool, k: nat)
    requires Holds(x0, x, tg, nb, c, a, atom, k) && k < |tg| && tg[k] >= nb
    ensures Holds(x0, x, tg, nb, c, a, atom, k + 1)
  {
    var next := k + 1;
    forall b: nat, p: nat | b < nb && p < c ensures HoldsAt(x0, x, tg, nb, c, a, atom, next, b, p) {
      assert HoldsAt(x0, x, tg, nb, c, a, atom, k, b, p);
    }
    hide BlockAtom, CellAtom;
  }

  /** Fill c atoms from a place on. */
  method Fill<T>(x: array<T>, v: nat, c: nat, a: seq<T>, atom: bool, u: nat)
    requires v + c <= x.Length && if atom then |a| > 0 else u + c <= |a|
    modifies x
    ensures forall i: nat :: i < x.Length ==>
              x[i] == if v <= i < v + c then (if atom then a[0] else a[u + (i - v)]) else old(x[i])
  {
    for p := 0 to c
      invariant forall i: nat :: i < x.Length ==>
                  x[i] == if v <= i < v + p then (if atom then a[0] else a[u + (i - v)]) else old(x[i])
    {
      x[v + p] := if atom then a[0] else a[u + p];
    }
  }

  /** Store k goes to block tg[k]; it is skipped if its item does not exist and skipping is on. */
  ghost predicate Targets(i1: seq<nat>, i2: seq<nat>, xk: nat, m: nat, c: nat, tg: seq<nat>, nb: nat, skip: bool) {
    && |i1| == |i2| == |tg|
    && forall k :: 0 <= k < |tg| ==>
         && (i1[k] < m <==> tg[k] < nb) && (tg[k] < nb ==> xk * i1[k] + i2[k] == tg[k] * c) && (skip || tg[k] < nb)
  }

  lemma TargetIs(i1: seq<nat>, i2: seq<nat>, xk: nat, m: nat, c: nat, tg: seq<nat>, nb: nat, skip: bool, k: nat)
    requires Targets(i1, i2, xk, m, c, tg, nb, skip) && k < |tg|
    ensures |i1| == |i2| == |tg| && (i1[k] < m <==> tg[k] < nb) && (skip || tg[k] < nb)
    ensures tg[k] < nb ==> xk * i1[k] + i2[k] == tg[k] * c && tg[k] * c + c <= nb * c
  {
    if tg[k] < nb {
      RoomForOne(tg[k], nb, c);
    }
  }

  lemma BlockFilled<T>(x: seq<T>, x': seq<T>, v: nat, c: nat, a: seq<T>, atom: bool, k: nat, u: nat)
    requires |x'| == |x| && EnoughCells(a, atom, c, k + 1) && (atom || u == k * c)
    requires if atom then |a| > 0 else u + c <= |a|
    requires forall i: nat :: i < |x| ==>
               x'[i] == if v <= i < v + c then (if atom then a[0] else a[u + (i - v)]) else x[i]
    ensures forall i: nat :: i < |x| ==> x'[i] == if v <= i < v + c then CellAtom(a, atom, c, k, i - v) else x[i]
  {
    hide EnoughCells;
  }

  lemma EnoughFor<T>(a: seq<T>, atom: bool, c: nat, k: nat, n: nat)
    requires EnoughCells(a, atom, c, n) && k < n
    ensures EnoughCells(a, atom, c, k + 1) && (if atom then |a| > 0 else k * c + c <= |a|) && k * c + c == (k + 1) * c
  {
    OneMoreTimes(k, c);
    TimesMonotone(k + 1, n, c);
  }

  lemma HoldsIs<T>(x0: seq<T>, x: seq<T>, tg: seq<nat>, nb: nat, c: nat, a: seq<T>, atom: bool, k: nat)
    requires Holds(x0, x, tg, nb, c, a, atom, k)
    ensures |x| == |x0| == nb * c && EnoughCells(a, atom, c, |tg|)
  {
  }

  /** Store the blocks in order. */
  method StoreBlocks<T>(x: array<T>, i1: seq<nat>, i2: seq<nat>, xk: nat, m: nat, c: nat, a: seq<T>, atom: bool, skip: bool,
      ghost tg: seq<nat>, ghost nb: nat)
    requires Targets(i1, i2, xk, m, c, tg, nb, skip) && x.Length == nb * c && EnoughCells(a, atom, c, |tg|)
    modifies x
    ensures Holds(old(x[..]), x[..], tg, nb, c, a, atom, |tg|)
  {
    hide *;
    ghost var x0 := x[..];
    HoldsNone(x0, tg, nb, c, a, atom);
    TargetsLong(i1, i2, xk, m, c, tg, nb, skip);
    var u := 0;
    var n := |i1|;
    for k := 0 to n
      invariant Holds(x0, x[..], tg, nb, c, a, atom, k) && u == if atom then 0 else k * c
    {
      TargetIs(i1, i2, xk, m, c, tg, nb, skip, k);
      EnoughFor(a, atom, c, k, |tg|);
      if !skip || i1[k] < m {
        StoreBlock(x, xk * i1[k] + i2[k], c, a, atom, u, x0, tg, nb, k);
      } else {
        HoldsSkip(x0, x[..], tg, nb, c, a, atom, k);
      }
      if !atom {
        u := u + c;
      }
    }
  }

  /** One store. */
  method StoreBlock<T>(x: array<T>, v: nat, c: nat, a: seq<T>, atom: bool, u: nat, ghost x0: seq<T>, ghost tg: seq<nat>, ghost nb: nat,
      ghost k: nat)
    requires Holds(x0, x[..], tg, nb, c, a, atom, k) && k < |tg| && tg[k] < nb && v == tg[k] * c && v + c <= x.Length
    requires EnoughCells(a, atom, c, k + 1) && (atom || u == k * c) && if atom then |a| > 0 else u + c <= |a|
    modifies x
    ensures Holds(x0, x[..], tg, nb, c, a, atom, k + 1)
  {
    hide *;
    ghost var y := x[..];
    Fill(x, v, c, a, atom, u);
    BlockFilled(y, x[..], v, c, a, atom, k, u);
    HoldsStep(x0, y, tg, nb, c, a, atom, k, x[..]);
  }

  lemma TargetsLong(i1: seq<nat>, i2: seq<nat>, xk: nat, m: nat, c: nat, tg: seq<nat>, nb: nat, skip: bool)
    requires Targets(i1, i2, xk, m, c, tg, nb, skip)
    ensures |i1| == |i2| == |tg|
  {
  }

  // ---- The value table as one list.

  /** m items of n atoms from a list. */
  function Cut<T>(x: seq<T>, m: nat, n: nat): (items: seq<seq<T>>)
    requires |x| == m * n
    ensures |items| == m && forall q :: 0 <= q < m ==> |items[q]| == n
  {
    seq(m, q requires 0 <= q < m => Slice(x, m, n, q))
  }

  function Slice<T>(x: seq<T>, m: nat, n: nat, q: nat): (r: seq<T>)
    requires |x| == m * n && q < m
    ensures |r| == n
  {
    RoomForOne(q, m, n);
    x[q * n..q * n + n]
  }

  lemma CutAt<T>(x: seq<T>, m: nat, n: nat, q: nat, i: nat)
    requires |x| == m * n && q < m && i < n
    ensures q * n + i < |x| && Cut(x, m, n)[q][i] == x[q * n + i]
  {
    RoomForOne(q, m, n);
  }

  /** The items laid end to end. */
  ghost predicate IsFlat<T>(items: seq<seq<T>>, n: nat, x: seq<T>, m: nat) {
    && m <= |items| && |x| == m * n && Sized(items, n)
    && forall q: nat, i: nat :: q < m && i < n ==> FlatAt(items, n, x, q, i)
  }

  ghost predicate FlatAt<T>(items: seq<seq<T>>, n: nat, x: seq<T>, q: nat, i: nat) {
    q < |items| && i < |items[q]| && q * n + i < |x| && x[q * n + i] == items[q][i]
  }

  lemma FlatStep<T>(items: seq<seq<T>>, n: nat, x: seq<T>, m: nat)
    requires IsFlat(items, n, x, m) && m < |items|
    ensures IsFlat(items, n, x + items[m], m + 1)
  {
    OneMoreTimes(m, n);
    forall q: nat, i: nat | q < m + 1 && i < n ensures FlatAt(items, n, x + items[m], q, i) {
      if q < m {
        assert FlatAt(items, n, x, q, i);
      }
    }
  }

  method Flatten<T>(items: seq<seq<T>>, n: nat) returns (x: array<T>)
    requires Sized(items, n)
    ensures fresh(x) && IsFlat(items, n, x[..], |items|)
  {
    var l: seq<T> := [];
    for q := 0 to |items|
      invariant IsFlat(items, n, l, q)
    {
      FlatStep(items, n, l, q);
      l := l + items[q];
      hide *;
    }
    x := new T[|l|](i requires 0 <= i < |l| => l[i]);
    assert x[..] == l;
  }

  // ---- Which block each address is.

  /** The block of an item and an index row. */
  function Block<T>(z: Sparse<T>, h: nat, ind: seq<seq<nat>>, x: (nat, nat)): nat
    requires x.1 < |ind| && |ind[x.1]| == h
  {
    Combined(x.0, Groups(z, h), GroupOf(z, h, ind[x.1]))
  }

  function Combined(q: nat, n: nat, g: nat): (b: nat)
    ensures b == q * n + g
  {
    TimesMonotone(0, q, n);
    q * n + g
  }

  /** The number of blocks of the value table. */
  function BlockCount<T>(z: Sparse<T>, h: nat): (n: nat)
    ensures n == |z.rows| * Groups(z, h)
  {
    Combined(|z.rows|, Groups(z, h), 0)
  }

  /** The blocks of the addresses. */
  ghost predicate Blocks<T>(z: Sparse<T>, h: nat, ind: seq<seq<nat>>, l: seq<(nat, nat)>, tg: seq<nat>) {
    && |tg| == |l|
    && forall k :: 0 <= k < |l| ==> BlockIs(z, h, ind, l[k], tg[k])
  }

  ghost predicate BlockIs<T>(z: Sparse<T>, h: nat, ind: seq<seq<nat>>, x: (nat, nat), b: nat) {
    x.1 < |ind| && |ind[x.1]| == h && b == Block(z, h, ind, x)
  }

  function BlockList<T>(z: Sparse<T>, h: nat, ind: seq<seq<nat>>, l: seq<(nat, nat)>): (tg: seq<nat>)
    requires forall k :: 0 <= k < |l| ==> l[k].1 < |ind| && |ind[l[k].1]| == h
    ensures Blocks(z, h, ind, l, tg)
  {
    seq(|l|, k requires 0 <= k < |l| && l[k].1 < |ind| && |ind[l[k].1]| == h => Block(z, h, ind, l[k]))
  }

  /** A block belongs to one item and one cell of it. */
  lemma BlockOf(q: nat, q': nat, n: nat, g: nat, g': nat)
    requires g < n && g' < n
    ensures q * n + g == q' * n + g' <==> q == q' && g == g'
    ensures forall m: nat :: q * n + g < m * n <==> q < m
  {
    if q < q' {
      RoomForOne(q, q', n);
    } else if q' < q {
      RoomForOne(q', q, n);
    }
    forall m: nat ensures q * n + g < m * n <==> q < m {
      if q < m {
        RoomForOne(q, m, n);
      } else {
        TimesMonotone(m, q, n);
      }
    }
  }

  lemma PlaceOfBlock(q: nat, n: nat, c: nat, g: nat)
    ensures (n * c) * q + c * g == (q * n + g) * c
    ensures (q * n + g) * c == q * (n * c) + g * c
  {
    TimesAssociative(q, n, c);
    assert (q * n + g) * c == q * n * c + g * c;
  }

  lemma TargetsAre<T>(z: Sparse<T>, h: nat, ind: seq<seq<nat>>, l: seq<(nat, nat)>, i1: seq<nat>, i2: seq<nat>, tg: seq<nat>, skip: bool)
    requires Ready(z, h, ind) && (forall t :: 0 <= t < |ind| ==> |ind[t]| == h)
    requires AddressesAre(z, h, ind, l, i1, i2) && Blocks(z, h, ind, l, tg)
    requires skip || forall k :: 0 <= k < |l| ==> l[k].0 < |z.rows|
    ensures Targets(i1, i2, z.ItemSize(), |z.rows|, CellSize(z, h), tg, BlockCount(z, h), skip)
  {
    ReadyIs(z, h, ind);
    ItemParts(z, h);
    forall k | 0 <= k < |l|
      ensures i1[k] < |z.rows| <==> tg[k] < BlockCount(z, h)
      ensures z.ItemSize() * i1[k] + i2[k] == tg[k] * CellSize(z, h)
    {
      assert BlockIs(z, h, ind, l[k], tg[k]);
      GroupFits(z, h, ind, l[k].1);
      var g := GroupOf(z, h, ind[l[k].1]);
      BlockOf(l[k].0, 0, Groups(z, h), g, g);
      PlaceOfBlock(l[k].0, Groups(z, h), CellSize(z, h), g);
    }
    hide Sparse.ItemSize, Groups, CellSize, GroupOf, Ready;
  }

  // ---- The amend, by seats.

  /** One more than the last of the first n index rows that is x, 0 if there is none. */
  function LastMatch(ind: seq<seq<nat>>, x: seq<nat>, n: nat): (l: nat)
    requires n <= |ind|
    ensures l <= n && (l > 0 ==> ind[l - 1] == x) && forall t :: l <= t < n ==> ind[t] != x
  {
    if n == 0 then 0 else if ind[n - 1] == x then n else LastMatch(ind, x, n - 1)
  }

  /** The replacement is one atom, or has a cell for every index row. */
  ghost predicate Replaces<T>(z: Sparse<T>, h: nat, n: nat, a: seq<T>, atom: bool)
    requires Ascending(z.axes, |z.shape|)
  {
    EnoughCells(a, atom, CellSize(z, h), n * CellsOfKey(z, h))
  }

  /** y denotes z after the stores of a list of cells, or of one atom: an index in the cell of an index row has
      the atom at its place in the cell that is stored for the last such row. */
  ghost predicate Stored<T>(z: Sparse<T>, h: nat, ind: seq<seq<nat>>, a: seq<T>, atom: bool, y: Sparse<T>) {
    && z.Valid() && y.Valid() && Alike(z, y) && h <= |z.shape|
    && forall ix :: z.IndexFits(ix) ==> StoredAt(z, h, ind, a, atom, y, ix)
  }

  ghost predicate StoredAt<T>(z: Sparse<T>, h: nat, ind: seq<seq<nat>>, a: seq<T>, atom: bool, y: Sparse<T>, ix: seq<nat>)
    requires z.Valid() && y.Valid()
  {
    && z.IndexFits(ix) && y.IndexFits(ix) && Ascending(z.axes, |z.shape|) && |ix| == |z.shape| && h <= |ix|
    && var t := LastMatch(ind, ix[..h], |ind|);
       if t == 0 then y.At(ix) == z.At(ix)
       else
         var k, w, c := Seat(z, h, |ind|, z.Row(ix), t - 1), Within(z, h, ix), CellSize(z, h);
         EnoughCells(a, atom, c, k + 1) && w < c && y.At(ix) == CellAtom(a, atom, c, k, w)
  }

  // ---- What is stored for an index.

  /** Functions of the axes alone. */
  lemma AlikeCells<T>(z: Sparse<T>, y: Sparse<T>, h: nat)
    requires Alike(z, y) && z.Shaped()
    ensures Ascending(z.axes, |z.shape|) && Ascending(y.axes, |y.shape|)
    ensures Framed(z, h) == Framed(y, h) && CellSize(z, h) == CellSize(y, h) && CellsOfKey(z, h) == CellsOfKey(y, h)
    ensures forall n, r: seq<nat>, t :: |r| == |z.axes| ==> Seat(z, h, n, r, t) == Seat(y, h, n, r, t)
    ensures forall ix: seq<nat> :: |ix| == |z.shape| ==> Within(z, h, ix) == Within(y, h, ix) && z.Row(ix) == y.Row(ix)
  {
  }

  lemma SeatMonotone<T>(z: Sparse<T>, h: nat, n: nat, r: seq<nat>, t: nat, u: nat)
    requires Ascending(z.axes, |z.shape|) && |r| == |z.axes| && t <= u
    ensures Seat(z, h, n, r, t) <= Seat(z, h, n, r, u)
  {
    TimesMonotone(t, u, CellsOfKey(z, h));
  }

  lemma SeatBound<T>(z: Sparse<T>, h: nat, ind: seq<seq<nat>>, l: seq<(nat, nat)>, k: nat, x: (nat, nat), tg: seq<nat>)
    requires Seated(l, k, x) && Blocks(z, h, ind, l, tg)
    ensures k < |l| == |tg| && l[k] == x && BlockIs(z, h, ind, x, tg[k])
  {
  }

  lemma BlockNumber<T>(z: Sparse<T>, h: nat, ind: seq<seq<nat>>, x: (nat, nat), b: nat)
    requires BlockIs(z, h, ind, x, b)
    ensures x.1 < |ind| && |ind[x.1]| == h && b == x.0 * Groups(z, h) + GroupOf(z, h, ind[x.1])
  {
  }

  /** Block of an index: that of an item and an index row exactly if it is the same item, and the same cell
      of it. */
  lemma BlockMatches<T>(z: Sparse<T>, h: nat, ind: seq<seq<nat>>, x: (nat, nat), b: nat, q: nat, ix: seq<nat>)
    requires z.Shaped() && IndexTable(z, h, ind) && z.IndexFits(ix) && BlockIs(z, h, ind, x, b) && h <= |z.shape|
    ensures h <= |ix| && x.1 < |ind| && |ind[x.1]| == h
    ensures b == Combined(q, Groups(z, h), GroupOf(z, h, ix)) <==> x.0 == q && GroupOf(z, h, ind[x.1]) == GroupOf(z, h, ix)
  {
    hide *;
    IndexLength(z, ix);
    BlockNumber(z, h, ind, x, b);
    GroupFits(z, h, ind, x.1);
    OffsetParts(z, h, ix);
    BlockOf(x.0, q, Groups(z, h), GroupOf(z, h, ind[x.1]), GroupOf(z, h, ix));
  }

  lemma IndexLength<T>(z: Sparse<T>, ix: seq<nat>)
    requires z.IndexFits(ix)
    ensures |ix| == |z.shape|
  {
  }

  /** The last store to the block of an index is that of the last index row that matches. */
  lemma LastStore<T>(z: Sparse<T>, h: nat, ind: seq<seq<nat>>, l: seq<(nat, nat)>, tg: seq<nat>, ix: seq<nat>, q: nat)
    requires IsPadded(z, h, ind) && z.IndexFits(ix) && |ix| == |z.shape| && h <= |z.shape|
    requires Ascending(z.axes, |z.shape|) && (forall t :: 0 <= t < |ind| ==> |ind[t]| == h)
    requires forall p :: 0 <= p < |z.rows| ==> |z.rows[p]| == |z.axes|
    requires l == Entries(z, h, ind) && Blocks(z, h, ind, l, tg) && q < |z.rows| && z.rows[q] == z.Row(ix)
    ensures |tg| == |l|
    ensures var t, b := LastMatch(ind, ix[..h], |ind|), Combined(q, Groups(z, h), GroupOf(z, h, ix));
            LastTo(tg, |tg|, b) == if t == 0 then 0 else Seat(z, h, |ind|, z.Row(ix), t - 1) + 1
  {
    hide *;
    PaddedReady(z, h, ind);
    BlocksLong(z, h, ind, l, tg);
    var t, b, n, r := LastMatch(ind, ix[..h], |ind|), Combined(q, Groups(z, h), GroupOf(z, h, ix)), |ind|, z.Row(ix);
    var k := if t == 0 then 0 else Seat(z, h, n, r, t - 1) + 1;
    if t > 0 {
      CellMatches(z, h, ind, t - 1, ix);
      EntryAtSeat(z, h, ind, q, t - 1);
      SeatBound(z, h, ind, l, k - 1, (q, t - 1), tg);
      BlockMatches(z, h, ind, (q, t - 1), tg[k - 1], q, ix);
    }
    forall i | k <= i < |tg| ensures tg[i] != b {
      SeatOfEntry(z, h, ind, i);
      BlockAt(z, h, ind, l, tg, i);
      BlockMatches(z, h, ind, l[i], tg[i], q, ix);
      if tg[i] == b {
        var u := l[i].1;
        CellMatches(z, h, ind, u, ix);
        SeatMonotone(z, h, n, r, u, t - 1);
      }
    }
    LastToIs(tg, |tg|, b, k);
  }

  lemma BlocksLong<T>(z: Sparse<T>, h: nat, ind: seq<seq<nat>>, l: seq<(nat, nat)>, tg: seq<nat>)
    requires Blocks(z, h, ind, l, tg)
    ensures |tg| == |l|
  {
  }

  lemma BlockAt<T>(z: Sparse<T>, h: nat, ind: seq<seq<nat>>, l: seq<(nat, nat)>, tg: seq<nat>, k: nat)
    requires Blocks(z, h, ind, l, tg) && k < |l|
    ensures |tg| == |l| && BlockIs(z, h, ind, l[k], tg[k])
  {
  }

  /** The atom of an index, in the value table after the stores. */
  lemma AtomStored<T>(z: Sparse<T>, h: nat, ix: seq<nat>, q: nat, x0: seq<T>, x: seq<T>, tg: seq<nat>, a: seq<T>, atom: bool, r: Sparse<T>)
    requires z.Valid() && z.IndexFits(ix) && |ix| == |z.shape| && h <= |z.shape| && q < |z.rows| && z.rows[q] == z.Row(ix)
    requires IsFlat(z.items, z.ItemSize(), x0, |z.rows|)
    requires Holds(x0, x, tg, BlockCount(z, h), CellSize(z, h), a, atom, |tg|)
    requires |x| == |z.rows| * z.ItemSize() && r == z.(items := Cut(x, |z.rows|, z.ItemSize()))
    ensures r.Valid() && r.IndexFits(ix) && Within(z, h, ix) < CellSize(z, h) && EnoughCells(a, atom, CellSize(z, h), |tg|)
    ensures var k := LastTo(tg, |tg|, Combined(q, Groups(z, h), GroupOf(z, h, ix)));
            if k == 0 then r.At(ix) == z.At(ix)
            else EnoughCells(a, atom, CellSize(z, h), k) && r.At(ix) == CellAtom(a, atom, CellSize(z, h), k - 1, Within(z, h, ix))
  {
    hide *;
    ValidLong(z);
    CutValid(z, r, x);
    AlikeFits(z, r);
    AlikePlaces(z, r, ix);
    var g, w, c, n := GroupOf(z, h, ix), Within(z, h, ix), CellSize(z, h), Groups(z, h);
    OffsetParts(z, h, ix);
    ItemParts(z, h);
    PlaceOfBlock(q, n, c, g);
    z.PlaceFits(ix);
    AtRow(z, ix, q);
    AtRow(r, ix, q);
    CutAt(x, |z.rows|, z.ItemSize(), q, z.Offset(ix));
    var b := Combined(q, n, g);
    BlockOf(q, q, n, g, g);
    HoldsIs(x0, x, tg, |z.rows| * n, c, a, atom, |tg|);
    HoldsAtIs(x0, x, tg, |z.rows| * n, c, a, atom, b, w);
    FlatIs(z.items, z.ItemSize(), x0, |z.rows|, q, z.Offset(ix));
    assert q * z.ItemSize() + z.Offset(ix) == b * c + w;
    EnoughLess(a, atom, c, LastTo(tg, |tg|, b), |tg|);
  }

  lemma CutValid<T>(z: Sparse<T>, r: Sparse<T>, x: seq<T>)
    requires z.Valid() && |x| == |z.rows| * z.ItemSize() && r == z.(items := Cut(x, |z.rows|, z.ItemSize()))
    ensures r.Valid() && Alike(z, r) && r.rows == z.rows
  {
    hide *;
    ValidParts(z);
    ValidParts(r);
    CutAlike(z, r, x);
    AlikeFits(z, r);
    AllFitAlike(z, r, r.rows);
  }

  lemma CutAlike<T>(z: Sparse<T>, r: Sparse<T>, x: seq<T>)
    requires |x| == |z.rows| * z.ItemSize() && r == z.(items := Cut(x, |z.rows|, z.ItemSize()))
    ensures Alike(z, r) && r.rows == z.rows && |r.items| == |z.rows| && Sized(r.items, z.ItemSize())
  {
    hide Sparse.ItemSize;
  }

  lemma HoldsAtIs<T>(x0: seq<T>, x: seq<T>, tg: seq<nat>, nb: nat, c: nat, a: seq<T>, atom: bool, b: nat, p: nat)
    requires Holds(x0, x, tg, nb, c, a, atom, |tg|) && b < nb && p < c
    ensures |x| == |x0| && EnoughCells(a, atom, c, |tg|) && b * c + p < |x|
    ensures var k := LastTo(tg, |tg|, b);
            if k == 0 then x[b * c + p] == x0[b * c + p]
            else EnoughCells(a, atom, c, k) && x[b * c + p] == CellAtom(a, atom, c, k - 1, p)
  {
    assert HoldsAt(x0, x, tg, nb, c, a, atom, |tg|, b, p);
    EnoughLess(a, atom, c, LastTo(tg, |tg|, b), |tg|);
    hide LastTo, CellAtom, EnoughCells;
  }

  lemma FlatIs<T>(items: seq<seq<T>>, n: nat, x: seq<T>, m: nat, q: nat, i: nat)
    requires IsFlat(items, n, x, m) && q < m && i < n
    ensures q < |items| && i < |items[q]| && q * n + i < |x| && x[q * n + i] == items[q][i]
  {
    assert FlatAt(items, n, x, q, i);
  }

  // ---- Amend with a dense replacement.

  /** The stores that a padded array needs fit the replacement. */
  lemma EntriesFit<T>(z: Sparse<T>, h: nat, ind: seq<seq<nat>>, a: seq<T>, atom: bool)
    requires IsPadded(z, h, ind) && Ascending(z.axes, |z.shape|) && Replaces(z, h, |ind|, a, atom)
    requires forall t :: 0 <= t < |ind| ==> |ind[t]| == h
    requires forall p :: 0 <= p < |z.rows| ==> |z.rows[p]| == |z.axes|
    ensures EnoughCells(a, atom, CellSize(z, h), |Entries(z, h, ind)|)
    ensures forall k :: 0 <= k < |Entries(z, h, ind)| ==> Entries(z, h, ind)[k].0 < |z.rows| && Entries(z, h, ind)[k].1 < |ind|
  {
    hide *;
    PaddedReady(z, h, ind);
    var l, n, s := Entries(z, h, ind), |ind|, CellsOfKey(z, h);
    forall k | 0 <= k < |l| ensures l[k].0 < |z.rows| && l[k].1 < n {
      SeatOfEntry(z, h, ind, k);
    }
    ReplacesIs(z, h, n, a, atom);
    if Framed(z, h) == 0 {
      EntriesByItem(z, h, ind);
      if n > 0 && |z.rows| > 0 {
        TailIsItem(z, h, ind, |z.rows| - 1);
        TimesMonotone(|z.rows|, s, n);
      } else {
        TimesZero(|z.rows|, n);
        TimesMonotone(0, n, s);
      }
    } else {
      EntriesByRow(z, h, ind);
      ByRowSize(z, h, ind, n);
    }
    EnoughLess(a, atom, CellSize(z, h), |l|, n * s);
  }

  lemma ReplacesIs<T>(z: Sparse<T>, h: nat, n: nat, a: seq<T>, atom: bool)
    requires Ascending(z.axes, |z.shape|) && Replaces(z, h, n, a, atom)
    ensures EnoughCells(a, atom, CellSize(z, h), n * CellsOfKey(z, h)) && n * CellsOfKey(z, h) == CellsOfKey(z, h) * n
    ensures n * CellsOfKey(z, h) >= 0
  {
    TimesMonotone(0, n, CellsOfKey(z, h));
  }

  /** The stores make the amended array. */
  lemma StoresAmend<T>(z: Sparse<T>, h: nat, ind: seq<seq<nat>>, l: seq<(nat, nat)>, tg: seq<nat>, x0: seq<T>, x: seq<T>,
      a: seq<T>, atom: bool, r: Sparse<T>)
    requires IsPadded(z, h, ind) && z.Valid() && h <= |z.shape|
    requires Ascending(z.axes, |z.shape|) && (forall t :: 0 <= t < |ind| ==> |ind[t]| == h)
    requires forall p :: 0 <= p < |z.rows| ==> |z.rows[p]| == |z.axes|
    requires l == Entries(z, h, ind) && Blocks(z, h, ind, l, tg)
    requires IsFlat(z.items, z.ItemSize(), x0, |z.rows|)
    requires Holds(x0, x, tg, BlockCount(z, h), CellSize(z, h), a, atom, |tg|)
    requires |x| == |z.rows| * z.ItemSize() && r == z.(items := Cut(x, |z.rows|, z.ItemSize()))
    ensures Stored(z, h, ind, a, atom, r)
  {
    hide *;
    CutValid(z, r, x);
    forall ix | z.IndexFits(ix) ensures StoredAt(z, h, ind, a, atom, r, ix) {
      IndexLength(z, ix);
      StoreAmends(z, h, ind, l, tg, x0, x, a, atom, r, ix);
    }
    StoredIf(z, h, ind, a, atom, r);
  }

  lemma StoredIf<T>(z: Sparse<T>, h: nat, ind: seq<seq<nat>>, a: seq<T>, atom: bool, y: Sparse<T>)
    requires z.Valid() && y.Valid() && Alike(z, y) && h <= |z.shape|
    requires forall ix :: z.IndexFits(ix) ==> StoredAt(z, h, ind, a, atom, y, ix)
    ensures Stored(z, h, ind, a, atom, y)
  {
  }

  lemma StoreAmends<T>(z: Sparse<T>, h: nat, ind: seq<seq<nat>>, l: seq<(nat, nat)>, tg: seq<nat>, x0: seq<T>, x: seq<T>,
      a: seq<T>, atom: bool, r: Sparse<T>, ix: seq<nat>)
    requires IsPadded(z, h, ind) && z.Valid() && h <= |z.shape| && z.IndexFits(ix) && |ix| == |z.shape|
    requires Ascending(z.axes, |z.shape|) && (forall t :: 0 <= t < |ind| ==> |ind[t]| == h)
    requires forall p :: 0 <= p < |z.rows| ==> |z.rows[p]| == |z.axes|
    requires l == Entries(z, h, ind) && Blocks(z, h, ind, l, tg)
    requires IsFlat(z.items, z.ItemSize(), x0, |z.rows|)
    requires Holds(x0, x, tg, BlockCount(z, h), CellSize(z, h), a, atom, |tg|)
    requires |x| == |z.rows| * z.ItemSize() && r == z.(items := Cut(x, |z.rows|, z.ItemSize())) && r.Valid()
    ensures StoredAt(z, h, ind, a, atom, r, ix)
  {
    hide *;
    PaddedReady(z, h, ind);
    CutValid(z, r, x);
    AlikeFits(z, r);
    AlikePlaces(z, r, ix);
    var row := z.Row(ix);
    if row in z.rows {
      var q :| 0 <= q < |z.rows| && z.rows[q] == row;
      LastStore(z, h, ind, l, tg, ix, q);
      AtomStored(z, h, ix, q, x0, x, tg, a, atom, r);
    } else {
      AtNoRow(z, ix);
      AtNoRow(r, ix);
      NoMatch(z, h, ind, ix);
    }
    StoredAtIf(z, h, ind, a, atom, r, ix);
  }

  /** An index without a row is in no cell of the index table. */
  lemma NoMatch<T>(z: Sparse<T>, h: nat, ind: seq<seq<nat>>, ix: seq<nat>)
    requires IsPadded(z, h, ind) && z.IndexFits(ix) && |ix| == |z.shape| && h <= |z.shape|
    requires Ascending(z.axes, |z.shape|) && z.Row(ix) !in z.rows
    ensures LastMatch(ind, ix[..h], |ind|) == 0
  {
    hide *;
    PaddedReady(z, h, ind);
    var t := LastMatch(ind, ix[..h], |ind|);
    if t > 0 {
      CellMatches(z, h, ind, t - 1, ix);
      z.PlaceFits(ix);
    }
  }

  lemma StoredAtIff<T>(z: Sparse<T>, h: nat, ind: seq<seq<nat>>, a: seq<T>, atom: bool, y: Sparse<T>, ix: seq<nat>)
    requires z.Valid() && y.Valid()
    ensures StoredAt(z, h, ind, a, atom, y, ix) <==>
            && z.IndexFits(ix) && y.IndexFits(ix) && Ascending(z.axes, |z.shape|) && |ix| == |z.shape| && h <= |ix|
            && var t := LastMatch(ind, ix[..h], |ind|);
               if t == 0 then y.At(ix) == z.At(ix)
               else
                 var k, w, c := Seat(z, h, |ind|, z.Row(ix), t - 1), Within(z, h, ix), CellSize(z, h);
                 EnoughCells(a, atom, c, k + 1) && w < c && y.At(ix) == CellAtom(a, atom, c, k, w)
  {
    hide Seat, Within, CellSize, EnoughCells, CellAtom, LastMatch, Ascending, Alike, Stored, Select;
    hide Sparse.At, Sparse.Valid, Sparse.IndexFits, Sparse.Row, Sparse.Shaped, Sparse.Lengths;
  }

  lemma StoredAtIf<T>(z: Sparse<T>, h: nat, ind: seq<seq<nat>>, a: seq<T>, atom: bool, y: Sparse<T>, ix: seq<nat>)
    requires z.Valid() && y.Valid() && z.IndexFits(ix) && y.IndexFits(ix) && |ix| == |z.shape| && h <= |ix|
    requires Ascending(z.axes, |z.shape|)
    requires var t := LastMatch(ind, ix[..h], |ind|);
             if t == 0 then y.At(ix) == z.At(ix)
             else
               var k, w, c := Seat(z, h, |ind|, z.Row(ix), t - 1), Within(z, h, ix), CellSize(z, h);
               EnoughCells(a, atom, c, k + 1) && w < c && y.At(ix) == CellAtom(a, atom, c, k, w)
    ensures StoredAt(z, h, ind, a, atom, y, ix)
  {
    hide *;
    StoredAtIff(z, h, ind, a, atom, y, ix);
  }

  lemma StoredAtIs<T>(z: Sparse<T>, h: nat, ind: seq<seq<nat>>, a: seq<T>, atom: bool, y: Sparse<T>, ix: seq<nat>)
    requires z.Valid() && y.Valid() && StoredAt(z, h, ind, a, atom, y, ix)
    ensures z.IndexFits(ix) && y.IndexFits(ix) && |ix| == |z.shape| && h <= |ix| && Ascending(z.axes, |z.shape|)
    ensures var t := LastMatch(ind, ix[..h], |ind|);
            if t == 0 then y.At(ix) == z.At(ix)
            else
              var k, w, c := Seat(z, h, |ind|, z.Row(ix), t - 1), Within(z, h, ix), CellSize(z, h);
              EnoughCells(a, atom, c, k + 1) && w < c && y.At(ix) == CellAtom(a, atom, c, k, w)
  {
    hide *;
    StoredAtIff(z, h, ind, a, atom, y, ix);
  }

  lemma StoredIs<T>(z: Sparse<T>, h: nat, ind: seq<seq<nat>>, a: seq<T>, atom: bool, y: Sparse<T>)
    requires Stored(z, h, ind, a, atom, y)
    ensures z.Valid() && y.Valid() && Alike(z, y) && h <= |z.shape|
    ensures forall ix :: z.IndexFits(ix) ==> StoredAt(z, h, ind, a, atom, y, ix)
  {
  }

  /** Amending an array that denotes the same is the same amend. */
  lemma StoredSame<T>(z: Sparse<T>, y: Sparse<T>, h: nat, ind: seq<seq<nat>>, a: seq<T>, atom: bool, r: Sparse<T>)
    requires z.Valid() && Alike(z, y) && Stored(y, h, ind, a, atom, r) && y.Valid()
    requires forall ix | z.IndexFits(ix) :: y.IndexFits(ix) && y.At(ix) == z.At(ix)
    ensures Stored(z, h, ind, a, atom, r)
  {
    hide *;
    ValidLong(z);
    StoredIs(y, h, ind, a, atom, r);
    AlikeFits(z, y);
    AlikeCells(z, y, h);
    AlikeBoth(z, y, r);
    SameShape(z, y);
    forall ix | z.IndexFits(ix) ensures StoredAt(z, h, ind, a, atom, r, ix) {
      IndexLength(z, ix);
      StoredAtIs(y, h, ind, a, atom, r, ix);
      AlikePlaces(z, y, ix);
      RowLength(z, ix);
      StoredAtIf(z, h, ind, a, atom, r, ix);
    }
    StoredIf(z, h, ind, a, atom, r);
  }

  lemma SameShape<T>(z: Sparse<T>, y: Sparse<T>)
    requires Alike(z, y)
    ensures z.shape == y.shape && z.axes == y.axes && z.element == y.element
  {
  }

  lemma RowLength<T>(z: Sparse<T>, ix: seq<nat>)
    requires z.Shaped() && |ix| == |z.shape|
    ensures |z.Row(ix)| == |z.axes|
  {
  }

  /** Pad, then store a replacement in standard form into the value table. */
  method AmendStandard<T>(z: Sparse<T>, h: nat, ind: seq<seq<nat>>, table: bool, a: seq<T>, atom: bool) returns (r: Sparse<T>)
    requires z.Valid() && IndexTable(z, h, ind) && Ascending(z.axes, |z.shape|)
    requires !Twice(z, h, ind, table) && !Outside(z, h)
    requires table || 0 < Framed(z, h) || (0 < h && 0 < |z.axes|) || Complete(z, z.rows, h, ind)
    requires Framed(z, h) == 0 || ind == [] || 0 < CellsOfKey(z, h)
    requires Replaces(z, h, |ind|, a, atom)
    ensures Stored(z, h, ind, a, atom, r)
  {
    hide *;
    ValidLong(z);
    ShapedIs(z);
    IndexTableLong(z, h, ind);
    var y := Padded(z, h, ind, table);
    PadKeeps(z, h, ind, table);
    PadCompleteIff(z, h, ind, table);
    PaddedReadies(z, y, h, ind, a, atom);
    r := AmendPadded(y, h, ind, a, atom);
    StoredSame(z, y, h, ind, a, atom, r);
  }

  lemma PaddedReadies<T>(z: Sparse<T>, y: Sparse<T>, h: nat, ind: seq<seq<nat>>, a: seq<T>, atom: bool)
    requires z.Valid() && y.Valid() && Alike(z, y) && IndexTable(z, h, ind) && z.Shaped() && Complete(z, y.rows, h, ind)
    requires Ascending(z.axes, |z.shape|) && Replaces(z, h, |ind|, a, atom)
    requires Framed(z, h) == 0 || ind == [] || 0 < CellsOfKey(z, h)
    ensures Ascending(y.axes, |y.shape|) && IsPadded(y, h, ind) && Replaces(y, h, |ind|, a, atom)
    ensures h <= |y.shape| && forall t :: 0 <= t < |ind| ==> |ind[t]| == h
    ensures forall p :: 0 <= p < |y.rows| ==> |y.rows[p]| == |y.axes|
  {
    hide *;
    AlikeCells(z, y, h);
    AlikeFits(z, y);
    SameTable(z, y, h, ind, a, atom);
    AreReady(y, h, ind);
    ReadyIs(y, h, ind);
    PaddedIf(y, h, ind);
  }

  lemma SameTable<T>(z: Sparse<T>, y: Sparse<T>, h: nat, ind: seq<seq<nat>>, a: seq<T>, atom: bool)
    requires Alike(z, y) && IndexTable(z, h, ind) && z.Shaped() && y.Shaped() && Complete(z, y.rows, h, ind)
    requires Ascending(z.axes, |z.shape|) && Ascending(y.axes, |y.shape|) && Replaces(z, h, |ind|, a, atom)
    ensures IndexTable(y, h, ind) && Complete(y, y.rows, h, ind) && Replaces(y, h, |ind|, a, atom)
  {
    AlikeFits(z, y);
    AlikeCells(z, y, h);
  }

  /** The stores into a padded array. */
  method AmendPadded<T>(z: Sparse<T>, h: nat, ind: seq<seq<nat>>, a: seq<T>, atom: bool) returns (r: Sparse<T>)
    requires z.Valid() && IsPadded(z, h, ind) && Ascending(z.axes, |z.shape|) && Replaces(z, h, |ind|, a, atom)
    requires h <= |z.shape| && forall t :: 0 <= t < |ind| ==> |ind[t]| == h
    requires forall p :: 0 <= p < |z.rows| ==> |z.rows[p]| == |z.axes|
    ensures Stored(z, h, ind, a, atom, r)
  {
    hide *;
    PaddedReady(z, h, ind);
    ValidParts(z);
    EntriesFit(z, h, ind, a, atom);
    ghost var l := Entries(z, h, ind);
    ghost var tg := BlockList(z, h, ind, l);
    BlocksLong(z, h, ind, l, tg);
    var i1, i2 := Addresses(z, h, ind);
    TargetsAre(z, h, ind, l, i1, i2, tg, false);
    var x := Flatten(z.items, z.ItemSize());
    ghost var x0 := x[..];
    FlatLength(z, h, x0);
    StoreBlocks(x, i1, i2, z.ItemSize(), |z.rows|, CellSize(z, h), a, atom, false, tg, BlockCount(z, h));
    r := z.(items := Cut(x[..], |z.rows|, z.ItemSize()));
    StoresAmend(z, h, ind, l, tg, x0, x[..], a, atom, r);
  }

  lemma FlatLength<T>(z: Sparse<T>, h: nat, x: seq<T>)
    requires IsFlat(z.items, z.ItemSize(), x, |z.items|) && |z.items| == |z.rows|
    ensures |x| == |z.rows| * z.ItemSize() && |x| == BlockCount(z, h) * CellSize(z, h)
  {
    ItemParts(z, h);
    TimesAssociative(|z.rows|, Groups(z, h), CellSize(z, h));
    hide Groups, CellSize, Sparse.ItemSize;
  }

  // ---- Amend with the sparse element.

  /** Each address of an existing item has the item's key. */
  lemma {:induction false} EntryOwner<T>(z: Sparse<T>, h: nat, ind: seq<seq<nat>>, n: nat, k: nat)
    requires Ready(z, h, ind) && n <= |ind|
    ensures Ascending(z.axes, |z.shape|) && forall t :: 0 <= t < |ind| ==> |ind[t]| == h
    ensures forall p :: 0 <= p < |z.rows| ==> |z.rows[p]| == |z.axes|
    ensures k < |ByRow(z, h, ind, n)| ==>
              var (q, t) := ByRow(z, h, ind, n)[k];
              && t < n && q <= |z.rows| && (q < |z.rows| ==> z.rows[q][..Framed(z, h)] == Key(z, h, ind[t]))
  {
    hide *;
    ReadyIs(z, h, ind);
    if n == 0 {
      ByRowNone(z, h, ind);
    } else {
      var (p, e) := RunOf(z, h, ind, n - 1);
      ByRowStep(z, h, ind, n - 1);
      RunInside(z, h, ind, n - 1);
      var l := ByRow(z, h, ind, n - 1);
      if k < |l| {
        EntryOwner(z, h, ind, n - 1, k);
      } else if k < |l| + e && p < |z.rows| {
        InRun(z, h, ind, n - 1, p + (k - |l|));
      }
    }
  }

  /** Every item with the key of an index row is among the addresses. */
  lemma {:induction false} ItemHasEntry<T>(z: Sparse<T>, h: nat, ind: seq<seq<nat>>, n: nat, q: nat, t: nat) returns (k: nat)
    requires Ready(z, h, ind) && t < n <= |ind| && q < |z.rows|
    requires Ascending(z.axes, |z.shape|) && |ind[t]| == h && |z.rows[q]| == |z.axes|
    requires z.rows[q][..Framed(z, h)] == Key(z, h, ind[t])
    ensures forall i :: 0 <= i < |ind| ==> |ind[i]| == h
    ensures forall p :: 0 <= p < |z.rows| ==> |z.rows[p]| == |z.axes|
    ensures Seated(ByRow(z, h, ind, n), k, (q, t))
  {
    hide *;
    ReadyIs(z, h, ind);
    ByRowStep(z, h, ind, n - 1);
    var (p, e) := RunOf(z, h, ind, n - 1);
    var l := ByRow(z, h, ind, n - 1);
    if t < n - 1 {
      k := ItemHasEntry(z, h, ind, n - 1, q, t);
      SeatKept(l, Run(p, e, n - 1), k, (q, t));
    } else {
      InRun(z, h, ind, t, q);
      k := |l| + (q - p);
      SeatNew(l, Run(p, e, n - 1), q - p, (q, t));
    }
  }

  /** The addresses are those of the items with the keys of the index rows. */
  lemma EntriesOwn<T>(z: Sparse<T>, h: nat, ind: seq<seq<nat>>, k: nat)
    requires Ready(z, h, ind)
    ensures Ascending(z.axes, |z.shape|) && forall t :: 0 <= t < |ind| ==> |ind[t]| == h
    ensures forall p :: 0 <= p < |z.rows| ==> |z.rows[p]| == |z.axes|
    ensures k < |Entries(z, h, ind)| ==>
              var (q, t) := Entries(z, h, ind)[k];
              && t < |ind| && (q < |z.rows| ==> z.rows[q][..Framed(z, h)] == Key(z, h, ind[t]))
  {
    hide *;
    ReadyIs(z, h, ind);
    if Framed(z, h) == 0 {
      EntriesByItem(z, h, ind);
      if k < |Entries(z, h, ind)| {
        ByItemOwner(|z.rows|, |ind|, k);
        var (q, t) := Entries(z, h, ind)[k];
        NoLength(z.rows[q][..0], Key(z, h, ind[t]));
      }
    } else {
      EntriesByRow(z, h, ind);
      EntryOwner(z, h, ind, |ind|, k);
    }
  }

  lemma EntryOf<T>(z: Sparse<T>, h: nat, ind: seq<seq<nat>>, q: nat, t: nat) returns (k: nat)
    requires Ready(z, h, ind) && t < |ind| && q < |z.rows|
    requires Ascending(z.axes, |z.shape|) && |ind[t]| == h && |z.rows[q]| == |z.axes|
    requires z.rows[q][..Framed(z, h)] == Key(z, h, ind[t])
    ensures forall i :: 0 <= i < |ind| ==> |ind[i]| == h
    ensures forall p :: 0 <= p < |z.rows| ==> |z.rows[p]| == |z.axes|
    ensures Seated(Entries(z, h, ind), k, (q, t))
  {
    hide *;
    ReadyIs(z, h, ind);
    if Framed(z, h) == 0 {
      EntriesByItem(z, h, ind);
      ByItemAt(|z.rows|, |ind|, q, t);
      k := q * |ind| + t;
      SeatedIs(Entries(z, h, ind), k, (q, t));
    } else {
      EntriesByRow(z, h, ind);
      k := ItemHasEntry(z, h, ind, |ind|, q, t);
    }
  }

  lemma {:induction false} LastToHas(tg: seq<nat>, k: nat, b: nat, i: nat)
    requires i < k <= |tg| && tg[i] == b
    ensures LastTo(tg, k, b) > 0
  {
    if i < k - 1 {
      LastToHas(tg, k - 1, b, i);
    }
  }

  /** Something is stored for an index exactly if an index row matches it. */
  lemma StoredIff<T>(z: Sparse<T>, h: nat, ind: seq<seq<nat>>, l: seq<(nat, nat)>, tg: seq<nat>, ix: seq<nat>, q: nat)
    requires Ready(z, h, ind) && z.IndexFits(ix) && |ix| == |z.shape| && h <= |z.shape| && z.Shaped()
    requires Ascending(z.axes, |z.shape|) && (forall t :: 0 <= t < |ind| ==> |ind[t]| == h)
    requires forall p :: 0 <= p < |z.rows| ==> |z.rows[p]| == |z.axes|
    requires l == Entries(z, h, ind) && Blocks(z, h, ind, l, tg) && q < |z.rows| && z.rows[q] == z.Row(ix)
    ensures LastTo(tg, |tg|, Combined(q, Groups(z, h), GroupOf(z, h, ix))) > 0 <==> LastMatch(ind, ix[..h], |ind|) > 0
  {
    hide *;
    ReadyIs(z, h, ind);
    BlocksLong(z, h, ind, l, tg);
    var b, t := Combined(q, Groups(z, h), GroupOf(z, h, ix)), LastMatch(ind, ix[..h], |ind|);
    var k := LastTo(tg, |tg|, b);
    if t > 0 {
      CellMatches(z, h, ind, t - 1, ix);
      var i := EntryOf(z, h, ind, q, t - 1);
      SeatBound(z, h, ind, l, i, (q, t - 1), tg);
      BlockMatches(z, h, ind, (q, t - 1), tg[i], q, ix);
      LastToHas(tg, |tg|, b, i);
    } else if k > 0 {
      EntriesOwn(z, h, ind, k - 1);
      BlockAt(z, h, ind, l, tg, k - 1);
      BlockMatches(z, h, ind, l[k - 1], tg[k - 1], q, ix);
      CellMatches(z, h, ind, l[k - 1].1, ix);
    }
  }

  /** y denotes z with the cells of ind set to the element. */
  ghost predicate Cleared<T>(z: Sparse<T>, h: nat, ind: seq<seq<nat>>, y: Sparse<T>) {
    && z.Valid() && y.Valid() && Alike(z, y) && y.rows == z.rows && h <= |z.shape|
    && forall ix :: z.IndexFits(ix) ==> ClearedAt(z, h, ind, y, ix)
  }

  ghost predicate ClearedAt<T>(z: Sparse<T>, h: nat, ind: seq<seq<nat>>, y: Sparse<T>, ix: seq<nat>)
    requires z.Valid() && y.Valid()
  {
    && z.IndexFits(ix) && y.IndexFits(ix) && h <= |ix|
    && y.At(ix) == if ix[..h] in ind then z.element else z.At(ix)
  }

  lemma MatchIsIn(ind: seq<seq<nat>>, x: seq<nat>)
    ensures LastMatch(ind, x, |ind|) > 0 <==> x in ind
  {
  }

  lemma ClearedIf<T>(z: Sparse<T>, h: nat, ind: seq<seq<nat>>, y: Sparse<T>)
    requires z.Valid() && y.Valid() && Alike(z, y) && y.rows == z.rows && h <= |z.shape|
    requires forall ix :: z.IndexFits(ix) ==> ClearedAt(z, h, ind, y, ix)
    ensures Cleared(z, h, ind, y)
  {
  }

  lemma ClearedAtIf<T>(z: Sparse<T>, h: nat, ind: seq<seq<nat>>, y: Sparse<T>, ix: seq<nat>)
    requires z.Valid() && y.Valid() && z.IndexFits(ix) && y.IndexFits(ix) && h <= |ix|
    requires y.At(ix) == if ix[..h] in ind then z.element else z.At(ix)
    ensures ClearedAt(z, h, ind, y, ix)
  {
  }

  lemma StoreClears<T>(z: Sparse<T>, h: nat, ind: seq<seq<nat>>, l: seq<(nat, nat)>, tg: seq<nat>, x0: seq<T>, x: seq<T>,
      r: Sparse<T>, ix: seq<nat>)
    requires Ready(z, h, ind) && z.Valid() && h <= |z.shape| && z.IndexFits(ix) && |ix| == |z.shape|
    requires Ascending(z.axes, |z.shape|) && (forall t :: 0 <= t < |ind| ==> |ind[t]| == h)
    requires forall p :: 0 <= p < |z.rows| ==> |z.rows[p]| == |z.axes|
    requires l == Entries(z, h, ind) && Blocks(z, h, ind, l, tg)
    requires IsFlat(z.items, z.ItemSize(), x0, |z.rows|)
    requires Holds(x0, x, tg, BlockCount(z, h), CellSize(z, h), [z.element], true, |tg|)
    requires |x| == |z.rows| * z.ItemSize() && r == z.(items := Cut(x, |z.rows|, z.ItemSize())) && r.Valid()
    ensures ClearedAt(z, h, ind, r, ix)
  {
    hide *;
    ReadyIs(z, h, ind);
    CutValid(z, r, x);
    AlikeFits(z, r);
    AlikePlaces(z, r, ix);
    SameShape(z, r);
    MatchIsIn(ind, ix[..h]);
    if z.Row(ix) in z.rows {
      var q :| 0 <= q < |z.rows| && z.rows[q] == z.Row(ix);
      StoredIff(z, h, ind, l, tg, ix, q);
      AtomStored(z, h, ix, q, x0, x, tg, [z.element], true, r);
      var k := LastTo(tg, |tg|, Combined(q, Groups(z, h), GroupOf(z, h, ix)));
      if k > 0 {
        OneAtom(z.element, CellSize(z, h), k - 1, Within(z, h, ix));
      }
    } else {
      AtNoRow(z, ix);
      AtNoRow(r, ix);
    }
    ClearedAtIf(z, h, ind, r, ix);
  }

  lemma OneAtom<T>(e: T, c: nat, k: nat, p: nat)
    requires p < c
    ensures EnoughCells([e], true, c, k + 1) && CellAtom([e], true, c, k, p) == e
  {
  }

  lemma OneIsEnough<T>(e: T, c: nat, n: nat)
    ensures EnoughCells([e], true, c, n)
  {
  }

  lemma EntriesBound<T>(z: Sparse<T>, h: nat, ind: seq<seq<nat>>)
    requires Ready(z, h, ind)
    ensures Ascending(z.axes, |z.shape|) && forall t :: 0 <= t < |ind| ==> |ind[t]| == h
    ensures forall p :: 0 <= p < |z.rows| ==> |z.rows[p]| == |z.axes|
    ensures forall k :: 0 <= k < |Entries(z, h, ind)| ==> Entries(z, h, ind)[k].1 < |ind|
  {
    hide *;
    ReadyIs(z, h, ind);
    forall k | 0 <= k < |Entries(z, h, ind)| ensures Entries(z, h, ind)[k].1 < |ind| {
      EntriesOwn(z, h, ind, k);
    }
  }

  /** e (<"1 ind)} z for the sparse element e: no cell is added, items that do not exist are passed over. */
  method AmendElement<T>(z: Sparse<T>, h: nat, ind: seq<seq<nat>>) returns (r: Sparse<T>)
    requires z.Valid() && IndexTable(z, h, ind)
    ensures Cleared(z, h, ind, r)
  {
    hide *;
    AreReady(z, h, ind);
    ReadyIs(z, h, ind);
    ValidParts(z);
    EntriesBound(z, h, ind);
    ghost var l := Entries(z, h, ind);
    ghost var tg := BlockList(z, h, ind, l);
    BlocksLong(z, h, ind, l, tg);
    var i1, i2 := Addresses(z, h, ind);
    TargetsAre(z, h, ind, l, i1, i2, tg, true);
    var x := Flatten(z.items, z.ItemSize());
    ghost var x0 := x[..];
    FlatLength(z, h, x0);
    OneIsEnough(z.element, CellSize(z, h), |tg|);
    StoreBlocks(x, i1, i2, z.ItemSize(), |z.rows|, CellSize(z, h), [z.element], true, true, tg, BlockCount(z, h));
    r := z.(items := Cut(x[..], |z.rows|, z.ItemSize()));
    CutValid(z, r, x[..]);
    forall ix | z.IndexFits(ix) ensures ClearedAt(z, h, ind, r, ix) {
      IndexLength(z, ix);
      StoreClears(z, h, ind, l, tg, x0, x[..], r, ix);
    }
    ClearedIf(z, h, ind, r);
  }
}
