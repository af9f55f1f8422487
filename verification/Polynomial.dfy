/** Inserts on the anti-diagonals of a table, and the product of polynomials: the anti-diagonals of an
    outer product, computed without the table. */
module Polynomial {
  import opened Arith
  import opened Classes
  import opened KeyReduce

  // ---- Anti-diagonals.

  /** The sum of row and column, for every place of a table of m rows and n columns. */
  function Sums(m: nat, n: nat): (keys: seq<int>)
    requires n > 0
    ensures |keys| == m * n
  {
    seq(m * n, q requires 0 <= q && n > 0 => q / n + q % n)
  }

  lemma SumAt(m: nat, n: nat, r: nat, c: nat)
    requires r < m && c < n
    ensures r * n + c < m * n && Sums(m, n)[r * n + c] == r + c
  {
    RoomForOne(r, m, n);
    ModuloIs(r * n + c, n, r, c);
  }

  /** The place in row s that is on anti-diagonal i. */
  function Place(m: nat, n: nat, i: nat, s: nat): (q: nat)
    requires s < m && s <= i < s + n
    ensures q == s * n + (i - s) < m * n
  {
    RoomForOne(s, m, n);
    s * n + (i - s)
  }

  /** A step of n-1 goes to the next row and the column before. */
  lemma PlaceStep(m: nat, n: nat, i: nat, s: nat)
    requires s < m && s <= i < s + n
    ensures Place(m, n, i, s) == i + (n - 1) * s
  {
  }

  /** Anti-diagonal i of rows s to h-1. */
  function Diagonal<T>(t: seq<T>, m: nat, n: nat, i: nat, s: nat, h: nat): (d: seq<T>)
    requires |t| == m * n && s <= h <= m && (s < h ==> h - 1 <= i < s + n)
    ensures |d| == h - s
  {
    if s == h then [] else Diagonal(t, m, n, i, s, h - 1) + [t[Place(m, n, i, h - 1)]]
  }

  lemma {:induction false} DiagonalFront<T>(t: seq<T>, m: nat, n: nat, i: nat, s: nat, h: nat)
    requires |t| == m * n && s < h <= m && h - 1 <= i < s + n
    ensures Diagonal(t, m, n, i, s, h) == [t[Place(m, n, i, s)]] + Diagonal(t, m, n, i, s + 1, h)
  {
    if s + 1 < h {
      DiagonalFront(t, m, n, i, s, h - 1);
    }
  }

  lemma InsertDiagonal<T>(f: (T, T) -> T, t: seq<T>, m: nat, n: nat, i: nat, s: nat, h: nat)
    requires |t| == m * n && s + 1 < h <= m && h - 1 <= i < s + n
    ensures Insert(f, Diagonal(t, m, n, i, s, h)) == f(t[Place(m, n, i, s)], Insert(f, Diagonal(t, m, n, i, s + 1, h)))
  {
    DiagonalFront(t, m, n, i, s, h);
    hide Diagonal, Place;
    assert Diagonal(t, m, n, i, s, h)[1..] == Diagonal(t, m, n, i, s + 1, h);
  }

  lemma InsertLast<T>(f: (T, T) -> T, t: seq<T>, m: nat, n: nat, i: nat, s: nat)
    requires |t| == m * n && s < m && s <= i < s + n
    ensures Insert(f, Diagonal(t, m, n, i, s, s + 1)) == t[Place(m, n, i, s)]
  {
    assert Diagonal(t, m, n, i, s, s) == [];
  }

  /** The rows that anti-diagonal i meets. */
  function Top(n: nat, i: nat): nat
    requires n > 0
  {
    if i < n then 0 else i - (n - 1)
  }

  function Bottom(m: nat, i: nat): nat
    requires m > 0
  {
    if i < m then i + 1 else m
  }

  // ---- The anti-diagonals are the classes of the sums.

  lemma {:induction false} GroupInRow<T>(t: seq<T>, m: nat, n: nat, i: nat, r: nat, c: nat)
    requires |t| == m * n && r < m && c <= n && n > 0
    ensures r * n + c <= m * n && r * n <= m * n
    ensures Group(Sums(m, n), t, r * n + c, i) ==
            Group(Sums(m, n), t, r * n, i) + if r <= i < r + c then [t[Place(m, n, i, r)]] else []
  {
    RoomForOne(r, m, n);
    if c > 0 {
      GroupInRow(t, m, n, i, r, c - 1);
      SumAt(m, n, r, c - 1);
      hide Sums;
    }
  }

  /** The rows of anti-diagonal i before row r. */
  function Reached(m: nat, n: nat, i: nat, r: nat): nat
    requires 0 < m && 0 < n
  {
    if r < Top(n, i) then Top(n, i) else if r < Bottom(m, i) then r else Bottom(m, i)
  }

  lemma ReachedBound(m: nat, n: nat, i: nat, r: nat)
    requires 0 < m && 0 < n && i < m + n - 1
    ensures var s, h := Top(n, i), Reached(m, n, i, r); s <= h <= m && (s < h ==> h - 1 <= i < s + n)
    ensures Reached(m, n, i, 0) == Top(n, i) && Reached(m, n, i, m) == Bottom(m, i)
  {
  }

  lemma ReachedStep(m: nat, n: nat, i: nat, r: nat)
    requires 0 < m && 0 < n && i < m + n - 1 && r < m
    ensures r <= i < r + n ==> Reached(m, n, i, r) == r && Reached(m, n, i, r + 1) == r + 1
    ensures !(r <= i < r + n) ==> Reached(m, n, i, r) == Reached(m, n, i, r + 1)
  {
  }

  lemma DiagonalSnoc<T>(t: seq<T>, m: nat, n: nat, i: nat, s: nat, h: nat)
    requires |t| == m * n && s <= h < m && h <= i < s + n
    ensures Diagonal(t, m, n, i, s, h + 1) == Diagonal(t, m, n, i, s, h) + [t[Place(m, n, i, h)]]
  {
  }

  lemma {:induction false} GroupOfRows<T>(t: seq<T>, m: nat, n: nat, i: nat, r: nat)
    requires |t| == m * n && r <= m && 0 < m && 0 < n && i < m + n - 1
    ensures r * n <= m * n
    ensures var s, h := Top(n, i), Reached(m, n, i, r);
            && s <= h <= m && (s < h ==> h - 1 <= i < s + n)
            && Group(Sums(m, n), t, r * n, i) == Diagonal(t, m, n, i, s, h)
  {
    hide *;
    TimesMonotone(r, m, n);
    ReachedBound(m, n, i, r);
    if r > 0 {
      GroupOfRows(t, m, n, i, r - 1);
      GroupInRow(t, m, n, i, r - 1, n);
      OneMoreTimes(r - 1, n);
      ReachedStep(m, n, i, r - 1);
      if r - 1 <= i < r - 1 + n {
        DiagonalSnoc(t, m, n, i, Top(n, i), r - 1);
      }
    } else {
      GroupOfNone(t, m, n, i);
    }
  }

  lemma GroupOfNone<T>(t: seq<T>, m: nat, n: nat, i: nat)
    requires |t| == m * n && 0 < m && 0 < n && i < m + n - 1
    ensures 0 * n == 0 && Group(Sums(m, n), t, 0, i) == Diagonal(t, m, n, i, Top(n, i), Top(n, i))
  {
  }

  /** Class i holds anti-diagonal i, from the top. */
  lemma GroupIsDiagonal<T>(t: seq<T>, m: nat, n: nat, i: nat)
    requires |t| == m * n && 0 < m && 0 < n && i < m + n - 1
    ensures Group(Sums(m, n), t, m * n, i) == Diagonal(t, m, n, i, Top(n, i), Bottom(m, i))
  {
    GroupOfRows(t, m, n, i, m);
    ReachedBound(m, n, i, m);
    hide *;
  }

  function Iota(k: nat): (r: seq<int>)
    ensures |r| == k
  {
    seq(k, i => i)
  }

  lemma IotaStep(k: nat)
    ensures Iota(k) + [k] == Iota(k + 1)
  {
  }

  /** How many classes have appeared before column c of row r. */
  function Appeared(n: nat, r: nat, c: nat): nat
    requires n > 0
  {
    if r == 0 then c else n + r - 1 + if c == n then 1 else 0
  }

  lemma AppearedStep(n: nat, r: nat, c: nat)
    requires c < n
    ensures Appeared(n, r, c + 1) == Appeared(n, r, c) + if r > 0 && c < n - 1 then 0 else 1
    ensures r == 0 || c == n - 1 ==> Appeared(n, r, c) == r + c
    ensures Appeared(n, r, n) == Appeared(n, r + 1, 0)
  {
  }

  lemma NubStep(keys: seq<int>, q: nat)
    requires q < |keys|
    ensures Nub(keys, q + 1) == if Count(keys, q, keys[q]) > 0 then Nub(keys, q) else Nub(keys, q) + [keys[q]]
  {
  }

  lemma NubNone(keys: seq<int>)
    ensures Nub(keys, 0) == Iota(0)
  {
  }

  lemma {:induction false} NubInRow(m: nat, n: nat, r: nat, c: nat)
    requires 0 < n && r < m && c <= n
    ensures r * n + c <= m * n
    ensures Nub(Sums(m, n), r * n + c) == Iota(Appeared(n, r, c))
    decreases r, c
  {
    hide *;
    RoomForOne(r, m, n);
    var keys := Sums(m, n);
    if c > 0 {
      var q := r * n + c - 1;
      NubInRow(m, n, r, c - 1);
      assert Nub(keys, q) == Iota(Appeared(n, r, c - 1));
      SumAt(m, n, r, c - 1);
      assert keys[q] == r + c - 1;
      Seen(m, n, r, c - 1);
      assert Count(keys, q, keys[q]) > 0 <==> r > 0 && c < n;
      NubStep(keys, q);
      AppearedStep(n, r, c - 1);
      IotaStep(r + c - 1);
    } else if r > 0 {
      NubInRow(m, n, r - 1, n);
      OneMoreTimes(r - 1, n);
      AppearedStep(n, r - 1, 0);
    } else {
      NubNone(keys);
      NoneAppeared(n);
    }
  }

  lemma NoneAppeared(n: nat)
    requires 0 < n
    ensures Appeared(n, 0, 0) == 0
  {
  }

  /** A sum has occurred before unless its place is in the first row or the last column. */
  lemma Seen(m: nat, n: nat, r: nat, c: nat)
    requires 0 < n && r < m && c < n && r * n + c <= m * n
    ensures Count(Sums(m, n), r * n + c, r + c) > 0 <==> r > 0 && c < n - 1
  {
    var keys, q := Sums(m, n), r * n + c;
    CountPositive(keys, q, r + c);
    if r > 0 && c < n - 1 {
      SumAt(m, n, r - 1, c + 1);
      OneMoreTimes(r - 1, n);
      assert keys[(r - 1) * n + c + 1] == r + c;
    } else {
      forall l | 0 <= l < q ensures keys[l] != r + c {
        var s := l / n;
        Division(l, n);
        if r < s {
          RoomForOne(r, s, n);
        }
        if r == 0 {
          ModuloIs(l, n, 0, l);
        }
      }
    }
  }

  /** The classes appear in order. */
  lemma NubIsIota(m: nat, n: nat)
    requires 0 < m && 0 < n
    ensures Nub(Sums(m, n), m * n) == Iota(m + n - 1)
  {
    hide *;
    NubInRow(m, n, m - 1, n);
    OneMoreTimes(m - 1, n);
    AllAppeared(m, n);
  }

  lemma AllAppeared(m: nat, n: nat)
    requires 0 < m && 0 < n
    ensures Appeared(n, m - 1, n) == m + n - 1
  {
  }

  /** The first k results are the inserts on the anti-diagonals. */
  ghost predicate Slanted<T>(f: (T, T) -> T, t: seq<T>, m: nat, n: nat, z: seq<T>, k: nat) {
    && 0 < m && 0 < n && |t| == m * n && k <= m + n - 1 <= |z|
    && forall i: nat :: i < k ==> z[i] == OnDiagonal(f, t, m, n, i)
  }

  /** The insert on anti-diagonal i. */
  function OnDiagonal<T>(f: (T, T) -> T, t: seq<T>, m: nat, n: nat, i: nat): T
    requires 0 < m && 0 < n && |t| == m * n && i < m + n - 1
  {
    Insert(f, Diagonal(t, m, n, i, Top(n, i), Bottom(m, i)))
  }

  lemma SlantedStep<T>(f: (T, T) -> T, t: seq<T>, m: nat, n: nat, z: seq<T>, k: nat, x: T)
    requires Slanted(f, t, m, n, z, k) && k < m + n - 1 && x == OnDiagonal(f, t, m, n, k)
    ensures Slanted(f, t, m, n, z[k := x], k + 1)
  {
    hide OnDiagonal;
  }

  lemma NothingSlanted<T>(f: (T, T) -> T, t: seq<T>, m: nat, n: nat, z: seq<T>)
    requires 0 < m && 0 < n && |t| == m * n && |z| == m + n - 1
    ensures Slanted(f, t, m, n, z, 0)
  {
  }

  /** The fast insert on anti-diagonals is the insert by key, with the sums of row and column as keys. */
  lemma SlantedIsKey<T>(f: (T, T) -> T, t: seq<T>, m: nat, n: nat, z: seq<T>)
    requires 0 < m && 0 < n && Slanted(f, t, m, n, z, m + n - 1) && |z| == m + n - 1
    ensures Inserted(z, f, Sums(m, n), t)
  {
    NubIsIota(m, n);
    forall i: nat | i < m + n - 1
      ensures Count(Sums(m, n), m * n, i) > 0 && z[i] == Insert(f, Group(Sums(m, n), t, m * n, i))
    {
      GroupIsDiagonal(t, m, n, i);
    }
    hide Nub, Count, Group, Insert, Sums;
  }

  // ---- The fast insert on the anti-diagonals of a table.

  /** f//. of a table. */
  method ObliqueInsert<T>(t: seq<T>, m: nat, n: nat, f: (T, T) -> T) returns (z: array<T>)
    requires 0 < m && 0 < n && |t| == m * n
    ensures z.Length == m + n - 1 && Inserted(z[..], f, Sums(m, n), t)
  {
    AnItem(m, n);
    z := new T[m + n - 1](_ => t[0]);
    Oblique(t, m, n, f, z);
    SlantedIsKey(f, t, m, n, z[..]);
  }

  lemma AnItem(m: nat, n: nat)
    requires 0 < m && 0 < n
    ensures m * n > 0
  {
  }

  method Oblique<T>(t: seq<T>, m: nat, n: nat, f: (T, T) -> T, z: array<T>)
    requires 0 < m && 0 < n && |t| == m * n && z.Length == m + n - 1
    modifies z
    ensures Slanted(f, t, m, n, z[..], m + n - 1)
  {
    hide *;
    NothingSlanted(f, t, m, n, z[..]);
    if m == 1 || n == 1 {
      OneLine(m, n);
      for i := 0 to z.Length
        invariant Slanted(f, t, m, n, z[..], i)
      {
        Alone(f, t, m, n, i);
        SlantedStep(f, t, m, n, z[..], i, t[i]);
        ghost var z0 := z[..];
        z[i] := t[i];
        assert z[..] == z0[i := t[i]];
      }
      return;
    }
    FromFirstRow(t, m, n, f, z);
    FromLastColumn(t, m, n, f, z);
  }

  method FromFirstRow<T>(t: seq<T>, m: nat, n: nat, f: (T, T) -> T, z: array<T>)
    requires 1 < m && 1 < n && |t| == m * n && z.Length == m + n - 1 && Slanted(f, t, m, n, z[..], 0)
    modifies z
    ensures Slanted(f, t, m, n, z[..], n)
  {
    hide *;
    for i := 0 to n
      invariant Slanted(f, t, m, n, z[..], i)
    {
      FirstRow(m, n, i);
      var x := ClimbDiagonal(t, m, n, f, i, i, i + (n - 1) * (if i < m - 1 then i else m - 1));
      SlantedStep(f, t, m, n, z[..], i, x);
      ghost var z0 := z[..];
      z[i] := x;
      assert z[..] == z0[i := x];
    }
  }

  method FromLastColumn<T>(t: seq<T>, m: nat, n: nat, f: (T, T) -> T, z: array<T>)
    requires 1 < m && 1 < n && |t| == m * n && z.Length == m + n - 1 && Slanted(f, t, m, n, z[..], n)
    modifies z
    ensures Slanted(f, t, m, n, z[..], m + n - 1)
  {
    hide *;
    var k := n - 1;
    for i := 0 to m - 1
      invariant k == i * n + n - 1 && Slanted(f, t, m, n, z[..], n + i)
    {
      OneMoreTimes(i, n);
      k := k + n;
      LastColumn(m, n, i, k);
      var x := ClimbDiagonal(t, m, n, f, n + i, k, k + (n - 1) * (if m - i - 2 < n - 1 then m - i - 2 else n - 1));
      SlantedStep(f, t, m, n, z[..], n + i, x);
      ghost var z0 := z[..];
      z[n + i] := x;
      assert z[..] == z0[n + i := x];
    }
  }

  lemma OneLine(m: nat, n: nat)
    requires m == 1 || n == 1
    ensures m * n == if m == 1 then n else m
  {
  }

  lemma Alone<T>(f: (T, T) -> T, t: seq<T>, m: nat, n: nat, i: nat)
    requires |t| == m * n && 0 < m && 0 < n && (m == 1 || n == 1) && i < m + n - 1 && i < |t|
    ensures OnDiagonal(f, t, m, n, i) == t[i]
  {
    InsertLast(f, t, m, n, i, Top(n, i));
  }

  /** Where an anti-diagonal that meets the first row begins and ends. */
  lemma FirstRow(m: nat, n: nat, i: nat)
    requires 1 < m && 1 < n && i < n
    ensures AtPlace(m, n, i, Top(n, i), i)
    ensures AtPlace(m, n, i, Bottom(m, i) - 1, i + (n - 1) * (if i < m - 1 then i else m - 1))
  {
    PlaceStep(m, n, i, 0);
    PlaceStep(m, n, i, Bottom(m, i) - 1);
  }

  /** Where an anti-diagonal that starts in the last column begins and ends. */
  lemma LastColumn(m: nat, n: nat, i: nat, k: nat)
    requires 1 < m && 1 < n && i < m - 1 && k == (i + 1) * n + n - 1
    ensures AtPlace(m, n, n + i, Top(n, n + i), k)
    ensures AtPlace(m, n, n + i, Bottom(m, n + i) - 1, k + (n - 1) * (if m - i - 2 < n - 1 then m - i - 2 else n - 1))
  {
    var d, s, h := n + i, i + 1, Bottom(m, n + i) - 1;
    PlaceStep(m, n, d, s);
    PlaceStep(m, n, d, h);
    assert (n - 1) * h == (n - 1) * s + (n - 1) * (h - s);
  }

  ghost predicate AtPlace(m: nat, n: nat, i: nat, s: nat, q: int) {
    s < m && s <= i < s + n && q == Place(m, n, i, s)
  }

  /** From the place u at the bottom of an anti-diagonal up to the place v at its top. */
  method ClimbDiagonal<T>(t: seq<T>, m: nat, n: nat, f: (T, T) -> T, ghost i: nat, v: nat, u0: nat) returns (x: T)
    requires 1 < m && 1 < n && |t| == m * n && i < m + n - 1
    requires AtPlace(m, n, i, Top(n, i), v) && AtPlace(m, n, i, Bottom(m, i) - 1, u0)
    ensures x == OnDiagonal(f, t, m, n, i)
  {
    hide *;
    Ends(m, n, i, v, u0);
    ghost var s: nat := Bottom(m, i) - 1;
    Begins(f, t, m, n, i, u0);
    x := t[u0];
    var u := u0 - (n - 1);
    while v <= u
      invariant Climbed(f, t, m, n, i, s, x) && u == i + (n - 1) * (s - 1) && v == i + (n - 1) * Top(n, i)
      decreases u
    {
      Higher(n, s, Top(n, i));
      ClimbStep(f, t, m, n, i, s, x);
      x := f(t[u], x);
      s := s - 1;
      Above(n, s);
      u := u - (n - 1);
    }
    NotHigher(n, s, Top(n, i));
    ClimbedAll(f, t, m, n, i, s, x);
  }

  /** The insert on the part of an anti-diagonal from row s down. */
  ghost predicate Climbed<T>(f: (T, T) -> T, t: seq<T>, m: nat, n: nat, i: nat, s: nat, x: T) {
    && 1 < m && 1 < n && |t| == m * n && i < m + n - 1 && Top(n, i) <= s < Bottom(m, i)
    && x == Insert(f, Diagonal(t, m, n, i, s, Bottom(m, i)))
  }

  lemma Begins<T>(f: (T, T) -> T, t: seq<T>, m: nat, n: nat, i: nat, u: nat)
    requires 1 < m && 1 < n && |t| == m * n && i < m + n - 1
    requires AtPlace(m, n, i, Bottom(m, i) - 1, u)
    ensures u < |t| && Climbed(f, t, m, n, i, Bottom(m, i) - 1, t[u])
  {
    InsertLast(f, t, m, n, i, Bottom(m, i) - 1);
  }

  lemma Ends(m: nat, n: nat, i: nat, v: nat, u: nat)
    requires 1 < m && 1 < n && AtPlace(m, n, i, Top(n, i), v) && AtPlace(m, n, i, Bottom(m, i) - 1, u)
    ensures Bottom(m, i) > 0
    ensures v == i + (n - 1) * Top(n, i) && u - (n - 1) == i + (n - 1) * (Bottom(m, i) - 2)
  {
    PlaceStep(m, n, i, Top(n, i));
    PlaceStep(m, n, i, Bottom(m, i) - 1);
    Above(n, Bottom(m, i) - 1);
  }

  lemma Above(n: nat, s: int)
    ensures (n - 1) * s - (n - 1) == (n - 1) * (s - 1)
  {
  }

  lemma Higher(n: nat, s: int, top: int)
    requires 1 < n && (n - 1) * top <= (n - 1) * (s - 1)
    ensures top < s
  {
    if s <= top {
      TimesMonotone(s, top, n - 1);
      Above(n, s);
    }
  }

  lemma NotHigher(n: nat, s: int, top: int)
    requires 1 < n && (n - 1) * top > (n - 1) * (s - 1)
    ensures s <= top
  {
    if s > top {
      TimesMonotone(top, s - 1, n - 1);
    }
  }

  lemma ClimbStep<T>(f: (T, T) -> T, t: seq<T>, m: nat, n: nat, i: nat, s: nat, x: T)
    requires Climbed(f, t, m, n, i, s, x) && Top(n, i) < s
    ensures var u := i + (n - 1) * (s - 1); 0 <= u < |t| && Climbed(f, t, m, n, i, s - 1, f(t[u], x))
  {
    PlaceStep(m, n, i, s - 1);
    InsertDiagonal(f, t, m, n, i, s - 1, Bottom(m, i));
    hide Insert, Diagonal, Place;
  }

  lemma ClimbedAll<T>(f: (T, T) -> T, t: seq<T>, m: nat, n: nat, i: nat, s: nat, x: T)
    requires Climbed(f, t, m, n, i, s, x) && s <= Top(n, i)
    ensures 0 < m && 0 < n && |t| == m * n && i < m + n - 1 && x == OnDiagonal(f, t, m, n, i)
  {
  }

  // ---- The product of polynomials.

  /** g between every item of a and every item of w. */
  function Outer<T, R>(g: (T, T) -> R, a: seq<T>, w: seq<T>): (t: seq<R>)
    requires w != []
    ensures |t| == |a| * |w|
  {
    seq(|a| * |w|, q requires 0 <= q < |a| * |w| && w != [] => QuotientSmall(q, |w|, |a|); g(a[q / |w|], w[q % |w|]))
  }

  lemma OuterAt<T, R>(g: (T, T) -> R, a: seq<T>, w: seq<T>, i: nat, s: nat)
    requires s < |a| && s <= i < s + |w|
    ensures Outer(g, a, w)[Place(|a|, |w|, i, s)] == g(a[s], w[i - s])
  {
    ModuloIs(Place(|a|, |w|, i, s), |w|, s, i - s);
  }

  ghost predicate Commutative<R(!new)>(f: (R, R) -> R) {
    forall x, y :: f(x, y) == f(y, x)
  }

  /** a f//.@(g/) w, for a commutative f, is the insert on the anti-diagonals of the outer product. */
  method PolynomialProduct<T, R(!new)>(a: seq<T>, w: seq<T>, f: (R, R) -> R, g: (T, T) -> R) returns (z: array<R>)
    requires a != [] && w != [] && Commutative(f)
    ensures z.Length == |a| + |w| - 1
    ensures Inserted(z[..], f, Sums(|a|, |w|), Outer(g, a, w))
    ensures Slanted(f, Outer(g, a, w), |a|, |w|, z[..], |a| + |w| - 1)
  {
    z := new R[|a| + |w| - 1](_ => g(a[0], w[0]));
    Coefficients(a, w, f, g, z);
    SlantedIsKey(f, Outer(g, a, w), |a|, |w|, z[..]);
  }

  method Coefficients<T, R(!new)>(a: seq<T>, w: seq<T>, f: (R, R) -> R, g: (T, T) -> R, z: array<R>)
    requires a != [] && w != [] && Commutative(f) && z.Length == |a| + |w| - 1
    modifies z
    ensures Slanted(f, Outer(g, a, w), |a|, |w|, z[..], |a| + |w| - 1)
  {
    hide *;
    ghost var t := Outer(g, a, w);
    var m, n := |a|, |w|;
    var k := if m < n then m else n;
    NothingSlanted(f, t, m, n, z[..]);
    for i := 0 to z.Length
      invariant Slanted(f, t, m, n, z[..], i)
    {
      var j := if i < m - 1 then i else m - 1;
      var p := if 1 + i < z.Length - i then 1 + i else z.Length - i;
      p := if p < k then p else k;
      var x := Coefficient(a, w, f, g, i, j, p);
      SlantedStep(f, t, m, n, z[..], i, x);
      ghost var z0 := z[..];
      z[i] := x;
      assert z[..] == z0[i := x];
    }
  }

  lemma CountOfTerms(m: nat, n: nat, i: nat, p: nat)
    requires 0 < m && 0 < n && i < m + n - 1
    requires p == var q := if 1 + i < m + n - 1 - i then 1 + i else m + n - 1 - i;
                  var k := if m < n then m else n;
                  if q < k then q else k
    ensures 0 < p == Bottom(m, i) - Top(n, i)
    ensures Bottom(m, i) - 1 == if i < m - 1 then i else m - 1
    ensures i < Top(n, i) + n && Bottom(m, i) <= m && Bottom(m, i) - 1 <= i
  {
  }

  method Coefficient<T, R(!new)>(a: seq<T>, w: seq<T>, f: (R, R) -> R, g: (T, T) -> R, i: nat, j: nat, p: nat)
    returns (x: R)
    requires a != [] && w != [] && Commutative(f) && i < |a| + |w| - 1
    requires j == if i < |a| - 1 then i else |a| - 1
    requires p == var zn, m, n := |a| + |w| - 1, |a|, |w|;
                  var q := if 1 + i < zn - i then 1 + i else zn - i;
                  var k := if m < n then m else n;
                  if q < k then q else k
    ensures x == OnDiagonal(f, Outer(g, a, w), |a|, |w|, i)
  {
    hide *;
    ghost var m, n, t := |a|, |w|, Outer(g, a, w);
    CountOfTerms(m, n, i, p);
    var u, v := j, i - j;
    FirstTerm(f, g, a, w, i, j);
    x := g(a[u], w[v]);
    u, v := u - 1, v + 1;
    var c := p - 1;
    while c > 0
      invariant 0 <= c <= p - 1 && u == Top(n, i) + c - 1 && v == i - u
      invariant Collected(f, g, a, w, i, u + 1, x)
    {
      TermStep(f, g, a, w, i, u + 1, x);
      x := f(x, g(a[u], w[v]));
      u, v, c := u - 1, v + 1, c - 1;
    }
    CollectedAll(f, g, a, w, i, u + 1, x);
  }

  /** The insert of the terms from row s down. */
  ghost predicate Collected<T, R>(f: (R, R) -> R, g: (T, T) -> R, a: seq<T>, w: seq<T>, i: nat, s: nat, x: R) {
    var m, n := |a|, |w|;
    && 0 < m && 0 < n && i < m + n - 1 && Top(n, i) <= s < Bottom(m, i)
    && x == Insert(f, Diagonal(Outer(g, a, w), m, n, i, s, Bottom(m, i)))
  }

  lemma FirstTerm<T, R>(f: (R, R) -> R, g: (T, T) -> R, a: seq<T>, w: seq<T>, i: nat, j: nat)
    requires a != [] && w != [] && i < |a| + |w| - 1 && j == Bottom(|a|, i) - 1
    ensures j < |a| && 0 <= i - j < |w| && Collected(f, g, a, w, i, j, g(a[j], w[i - j]))
  {
    OuterAt(g, a, w, i, j);
    InsertLast(f, Outer(g, a, w), |a|, |w|, i, j);
    hide Outer, Insert, Diagonal, Place;
  }

  lemma TermStep<T, R(!new)>(f: (R, R) -> R, g: (T, T) -> R, a: seq<T>, w: seq<T>, i: nat, s: nat, x: R)
    requires Commutative(f) && Collected(f, g, a, w, i, s, x) && 0 < |w| && Top(|w|, i) < s
    ensures 0 <= s - 1 < |a| && 0 <= i - (s - 1) < |w|
    ensures Collected(f, g, a, w, i, s - 1, f(x, g(a[s - 1], w[i - (s - 1)])))
  {
    hide *;
    CollectedIs(f, g, a, w, i, s, x);
    OuterAt(g, a, w, i, s - 1);
    InsertDiagonal(f, Outer(g, a, w), |a|, |w|, i, s - 1, Bottom(|a|, i));
    var y := g(a[s - 1], w[i - (s - 1)]);
    Flip(f, x, y);
    CollectedIf(f, g, a, w, i, s - 1, f(x, y));
  }

  lemma Flip<R(!new)>(f: (R, R) -> R, x: R, y: R)
    requires Commutative(f)
    ensures f(x, y) == f(y, x)
  {
  }

  lemma CollectedIs<T, R>(f: (R, R) -> R, g: (T, T) -> R, a: seq<T>, w: seq<T>, i: nat, s: nat, x: R)
    requires Collected(f, g, a, w, i, s, x)
    ensures var m, n := |a|, |w|;
            && 0 < m && 0 < n && i < m + n - 1 && Top(n, i) <= s < Bottom(m, i) <= m
            && s <= i < s + n && i < Top(n, i) + n && Bottom(m, i) - 1 <= i
            && x == Insert(f, Diagonal(Outer(g, a, w), m, n, i, s, Bottom(m, i)))
  {
    hide Insert, Diagonal, Outer;
  }

  lemma CollectedIf<T, R>(f: (R, R) -> R, g: (T, T) -> R, a: seq<T>, w: seq<T>, i: nat, s: nat, x: R)
    requires 0 < |a| && 0 < |w| && i < |a| + |w| - 1 && Top(|w|, i) <= s < Bottom(|a|, i) <= |a|
    requires Bottom(|a|, i) - 1 <= i < s + |w|
    requires x == Insert(f, Diagonal(Outer(g, a, w), |a|, |w|, i, s, Bottom(|a|, i)))
    ensures Collected(f, g, a, w, i, s, x)
  {
  }

  lemma CollectedAll<T, R>(f: (R, R) -> R, g: (T, T) -> R, a: seq<T>, w: seq<T>, i: nat, s: nat, x: R)
    requires Collected(f, g, a, w, i, s, x) && w != [] && s == Top(|w|, i)
    ensures a != [] && i < |a| + |w| - 1 && x == OnDiagonal(f, Outer(g, a, w), |a|, |w|, i)
  {
  }

  // ---- What the product of integer polynomials means.

  function Plus(x: int, y: int): int {
    x + y
  }

  function Times(x: int, y: int): int {
    x * y
  }

  function Power(x: int, k: nat): int {
    if k == 0 then 1 else x * Power(x, k - 1)
  }

  /** The polynomial with coefficients p[..k], lowest first, at x. */
  function Value(p: seq<int>, k: nat, x: int): int
    requires k <= |p|
  {
    if k == 0 then 0 else Value(p, k - 1, x) + p[k - 1] * Power(x, k - 1)
  }

  /** 3 5 at 10 is 53, 1 2 3 is 321. */
  lemma ValueExample()
    ensures Value([3, 5], 2, 10) == 53 && Value([1, 2, 3], 3, 10) == 321
  {
    assert Power(10, 0) == 1 && Power(10, 1) == 10 && Power(10, 2) == 100;
    var p, q := [3, 5], [1, 2, 3];
    assert Value(p, 1, 10) == 3;
    assert Value(q, 2, 10) == 21;
  }

  /** The coefficient of power k, 0 beyond the ends. */
  function At(p: seq<int>, k: int): int {
    if 0 <= k < |p| then p[k] else 0
  }

  /** The terms that rows s to h-1 contribute to coefficient i of the product. */
  function Terms(a: seq<int>, w: seq<int>, i: int, s: nat, h: nat): int
    requires s <= h <= |a|
  {
    if s == h then 0 else Terms(a, w, i, s, h - 1) + a[h - 1] * At(w, i - (h - 1))
  }

  lemma {:induction false} TermsFront(a: seq<int>, w: seq<int>, i: int, s: nat, h: nat)
    requires s < h <= |a|
    ensures Terms(a, w, i, s, h) == a[s] * At(w, i - s) + Terms(a, w, i, s + 1, h)
  {
    if s + 1 < h {
      TermsFront(a, w, i, s, h - 1);
    }
  }

  lemma {:induction false} NoTerms(a: seq<int>, w: seq<int>, i: int, s: nat, h: nat)
    requires s <= h <= |a| && (i < s || i >= h - 1 + |w|)
    ensures Terms(a, w, i, s, h) == 0
  {
    if s < h {
      NoTerms(a, w, i, s, h - 1);
    }
  }

  lemma {:induction false} TermsSplit(a: seq<int>, w: seq<int>, i: int, s: nat, r: nat, h: nat)
    requires s <= r <= h <= |a|
    ensures Terms(a, w, i, s, h) == Terms(a, w, i, s, r) + Terms(a, w, i, r, h)
  {
    if r < h {
      TermsSplit(a, w, i, s, r, h - 1);
    }
  }

  lemma {:induction false} InsertIsTerms(a: seq<int>, w: seq<int>, i: nat, s: nat, h: nat)
    requires w != [] && s < h <= |a| && h - 1 <= i < s + |w|
    ensures Insert(Plus, Diagonal(Outer(Times, a, w), |a|, |w|, i, s, h)) == Terms(a, w, i, s, h)
    decreases h - s
  {
    hide *;
    OuterAt(Times, a, w, i, s);
    TermsFront(a, w, i, s, h);
    TimesIs(a, w, i, s);
    if s + 1 < h {
      InsertIsTerms(a, w, i, s + 1, h);
      InsertDiagonal(Plus, Outer(Times, a, w), |a|, |w|, i, s, h);
      PlusIs(Outer(Times, a, w)[Place(|a|, |w|, i, s)], Terms(a, w, i, s + 1, h));
    } else {
      InsertLast(Plus, Outer(Times, a, w), |a|, |w|, i, s);
      TermsNone(a, w, i, h);
    }
  }

  lemma PlusIs(x: int, y: int)
    ensures Plus(x, y) == x + y
  {
  }

  lemma TimesIs(a: seq<int>, w: seq<int>, i: nat, s: nat)
    requires s < |a| && s <= i < s + |w|
    ensures Times(a[s], w[i - s]) == a[s] * At(w, i - s)
  {
  }

  lemma TermsNone(a: seq<int>, w: seq<int>, i: int, h: nat)
    requires h <= |a|
    ensures Terms(a, w, i, h, h) == 0
  {
  }

  /** Coefficient i of the product has all the terms. */
  lemma ProductCoefficient(a: seq<int>, w: seq<int>, i: nat)
    requires a != [] && w != [] && i < |a| + |w| - 1
    ensures OnDiagonal(Plus, Outer(Times, a, w), |a|, |w|, i) == Terms(a, w, i, 0, |a|)
  {
    hide *;
    var s, h := Top(|w|, i), Bottom(|a|, i);
    OnDiagonalIs(Plus, Outer(Times, a, w), |a|, |w|, i);
    InsertIsTerms(a, w, i, s, h);
    TermsSplit(a, w, i, 0, s, |a|);
    TermsSplit(a, w, i, s, h, |a|);
    if s == 0 {
      TermsNone(a, w, i, 0);
    } else {
      NoTerms(a, w, i, 0, s);
    }
    if h == |a| {
      TermsNone(a, w, i, h);
    } else {
      NoTerms(a, w, i, h, |a|);
    }
  }

  lemma OnDiagonalIs<T>(f: (T, T) -> T, t: seq<T>, m: nat, n: nat, i: nat)
    requires 0 < m && 0 < n && |t| == m * n && i < m + n - 1
    ensures var s, h := Top(n, i), Bottom(m, i);
            && s < h <= m && h - 1 <= i < s + n && OnDiagonal(f, t, m, n, i) == Insert(f, Diagonal(t, m, n, i, s, h))
            && (s == 0 || i >= s - 1 + n) && (h == m || i < h)
  {
  }

  lemma {:induction false} PowerAdds(x: int, j: nat, k: nat)
    ensures Power(x, j + k) == Power(x, j) * Power(x, k)
  {
    if j > 0 {
      PowerAdds(x, j - 1, k);
      TimesAssociative(x, Power(x, j - 1), Power(x, k));
    } else {
      assert Power(x, 0) == 1;
    }
  }

  /** The values of the coefficients Terms(a, w, i, 0, h) for i below n. */
  function ProductValue(a: seq<int>, w: seq<int>, h: nat, n: nat, x: int): int
    requires h <= |a|
  {
    if n == 0 then 0 else ProductValue(a, w, h, n - 1, x) + Terms(a, w, n - 1, 0, h) * Power(x, n - 1)
  }

  /** w shifted up s places, multiplied by c. */
  function ShiftedValue(c: int, w: seq<int>, s: nat, n: nat, x: int): int {
    if n == 0 then 0 else ShiftedValue(c, w, s, n - 1, x) + c * At(w, n - 1 - s) * Power(x, n - 1)
  }

  lemma ShiftStep(c: int, y: int, p: int, q: int, v: int, sum: int)
    requires sum == c * p * v
    ensures sum + c * y * (p * q) == c * p * (v + y * q)
  {
    assert c * y * (p * q) == c * p * (y * q) by {
      TimesAssociative(c, y, p * q);
      TimesAssociative(y, p, q);
      TimesAssociative(p, y, q);
      TimesAssociative(c, p, y * q);
      assert y * p == p * y;
    }
  }

  lemma {:induction false} ShiftedValueIs(c: int, w: seq<int>, s: nat, n: nat, x: int)
    requires n <= s + |w|
    ensures ShiftedValue(c, w, s, n, x) == if n <= s then 0 else c * Power(x, s) * Value(w, n - s, x)
  {
    if n > 0 {
      ShiftedValueIs(c, w, s, n - 1, x);
      if n > s {
        PowerAdds(x, s, n - 1 - s);
        var v := if n - 1 <= s then 0 else Value(w, n - 1 - s, x);
        ShiftStep(c, w[n - 1 - s], Power(x, s), Power(x, n - 1 - s), v, ShiftedValue(c, w, s, n - 1, x));
        ShiftedLast(c, w, s, n, x);
        hide ShiftedValue, Power;
      }
    }
  }

  lemma ShiftedLast(c: int, w: seq<int>, s: nat, n: nat, x: int)
    requires s < n <= s + |w|
    ensures ShiftedValue(c, w, s, n, x) == ShiftedValue(c, w, s, n - 1, x) + c * w[n - 1 - s] * Power(x, n - 1)
  {
  }

  lemma {:induction false} ShiftedBeyond(c: int, w: seq<int>, s: nat, n: nat, x: int)
    requires n >= s + |w|
    ensures ShiftedValue(c, w, s, n, x) == ShiftedValue(c, w, s, s + |w|, x)
    decreases n
  {
    if n > s + |w| {
      ShiftedBeyond(c, w, s, n - 1, x);
    }
  }

  lemma {:induction false} OneMoreRow(a: seq<int>, w: seq<int>, h: nat, n: nat, x: int)
    requires 0 < h <= |a|
    ensures ProductValue(a, w, h, n, x) == ProductValue(a, w, h - 1, n, x) + ShiftedValue(a[h - 1], w, h - 1, n, x)
  {
    if n > 0 {
      OneMoreRow(a, w, h, n - 1, x);
      Distribute(Terms(a, w, n - 1, 0, h - 1), a[h - 1] * At(w, n - 1 - (h - 1)), Power(x, n - 1));
    }
  }

  lemma Distribute(x: int, y: int, k: int)
    ensures (x + y) * k == x * k + y * k
  {
  }

  lemma {:induction false} NoRows(a: seq<int>, w: seq<int>, n: nat, x: int)
    ensures ProductValue(a, w, 0, n, x) == 0
  {
    if n > 0 {
      NoRows(a, w, n - 1, x);
    }
  }

  lemma {:induction false} RowsValue(a: seq<int>, w: seq<int>, h: nat, n: nat, x: int)
    requires h <= |a| && n + 1 >= h + |w|
    ensures ProductValue(a, w, h, n, x) == Value(a, h, x) * Value(w, |w|, x)
  {
    if h == 0 {
      NoRows(a, w, n, x);
    } else {
      RowsValue(a, w, h - 1, n, x);
      OneMoreRow(a, w, h, n, x);
      ShiftedBeyond(a[h - 1], w, h - 1, n, x);
      RowValue(a[h - 1], w, h - 1, x);
      Distribute(Value(a, h - 1, x), a[h - 1] * Power(x, h - 1), Value(w, |w|, x));
      hide ProductValue, ShiftedValue, Power;
    }
  }

  lemma RowValue(c: int, w: seq<int>, s: nat, x: int)
    ensures ShiftedValue(c, w, s, s + |w|, x) == c * Power(x, s) * Value(w, |w|, x)
  {
    ShiftedValueIs(c, w, s, s + |w|, x);
    hide ShiftedValue, Power;
  }

  lemma {:induction false} CoefficientsValue(a: seq<int>, w: seq<int>, z: seq<int>, n: nat, x: int)
    requires a != [] && w != [] && n <= |a| + |w| - 1 <= |z|
    requires Slanted(Plus, Outer(Times, a, w), |a|, |w|, z, |a| + |w| - 1)
    ensures Value(z, n, x) == ProductValue(a, w, |a|, n, x)
  {
    if n > 0 {
      CoefficientsValue(a, w, z, n - 1, x);
      ProductCoefficient(a, w, n - 1);
      hide Terms, OnDiagonal, Outer;
    }
  }

  /** The product of two polynomials has the product of their values, everywhere. */
  lemma ProductEvaluates(a: seq<int>, w: seq<int>, z: seq<int>, x: int)
    requires a != [] && w != [] && |z| == |a| + |w| - 1
    requires Slanted(Plus, Outer(Times, a, w), |a|, |w|, z, |z|)
    ensures Value(z, |z|, x) == Value(a, |a|, x) * Value(w, |w|, x)
  {
    CoefficientsValue(a, w, z, |z|, x);
    RowsValue(a, w, |a|, |z|, x);
    hide *;
  }

  lemma PlusCommutative()
    ensures Commutative(Plus)
  {
  }

  /** The product of two integer polynomials, coefficients from the lowest. */
  method Product(a: seq<int>, w: seq<int>) returns (z: array<int>)
    requires a != [] && w != []
    ensures z.Length == |a| + |w| - 1
    ensures forall x: int :: Value(z[..], |z[..]|, x) == Value(a, |a|, x) * Value(w, |w|, x)
  {
    PlusCommutative();
    z := PolynomialProduct(a, w, Plus, Times);
    forall x: int ensures Value(z[..], |z[..]|, x) == Value(a, |a|, x) * Value(w, |w|, x) {
      ProductEvaluates(a, w, z[..], x);
    }
  }
}
