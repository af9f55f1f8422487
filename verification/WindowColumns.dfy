/** Moving windows of every column of a table: the rows of the result come one after the other, from a row of
    running values. */
module WindowColumns {
  import opened Arith
  import opened WindowSpec

  // ---- A table, one column beside the other.

  /** c columns of n rows. */
  datatype Table<T> = Table(w: seq<T>, n: nat, c: nat) {
    ghost predicate Valid() {
      |w| == n * c
    }

    function Place(i: nat, j: nat): (q: nat)
      requires i < n && j < c
      ensures q == i * c + j < n * c
    {
      RoomForOne(i, n, c);
      i * c + j
    }

    function Column(j: nat): (s: seq<T>)
      requires Valid() && j < c
      ensures |s| == n && forall i: nat :: i < n ==> s[i] == w[Place(i, j)]
    {
      seq(n, i requires 0 <= i < n && Valid() && j < c => w[Place(i, j)])
    }
  }

  lemma ColumnAt<T>(t: Table<T>, i: nat, j: nat)
    requires t.Valid() && i < t.n && j < t.c
    ensures i * t.c + j < |t.w| && t.Column(j)[i] == t.w[i * t.c + j]
  {
    RoomForOne(i, t.n, t.c);
  }

  /** The windows of every column. */
  ghost predicate AreColumns<T>(f: (T, T) -> T, t: Table<T>, m: nat, z: seq<T>) {
    && t.Valid() && 0 < m <= t.n && |z| == (t.n + 1 - m) * t.c
    && forall j: nat :: j < t.c ==> ColumnDone(f, t, m, z, j)
  }

  ghost predicate ColumnDone<T>(f: (T, T) -> T, t: Table<T>, m: nat, z: seq<T>, j: nat)
    requires t.Valid() && 0 < m <= t.n && |z| == (t.n + 1 - m) * t.c && j < t.c
  {
    AreWindows(f, t.Column(j), m, Table(z, t.n + 1 - m, t.c).Column(j), t.n + 1 - m)
  }

  // ---- The running values.

  /** Columns before j have the window at i+1, the others the window at i. */
  ghost predicate Running<T>(f: (T, T) -> T, t: Table<T>, m: nat, y: seq<T>, i: nat, j: nat) {
    && t.Valid() && |y| == t.c && 0 < m && i + m <= t.n && (j > 0 ==> i + 1 + m <= t.n)
    && forall l: nat :: l < t.c ==>
         var at := if l < j then i + 1 else i;
         at + m <= t.n && y[l] == InsertFrom(f, t.Column(l), at, at + m)
  }

  lemma RunningBounds<T>(f: (T, T) -> T, t: Table<T>, m: nat, y: seq<T>, i: nat, j: nat)
    requires Running(f, t, m, y, i, j)
    ensures t.Valid() && |y| == t.c && 0 < m && i + m <= t.n
  {
  }

  lemma RunningAt<T>(f: (T, T) -> T, t: Table<T>, m: nat, y: seq<T>, i: nat, j: nat)
    requires Running(f, t, m, y, i, j) && j < t.c
    ensures t.Valid() && |y| == t.c && 0 < m && i + m <= t.n && y[j] == InsertFrom(f, t.Column(j), i, i + m)
  {
  }

  lemma RunningStep<T>(f: (T, T) -> T, t: Table<T>, m: nat, y: seq<T>, i: nat, j: nat, x: T)
    requires Running(f, t, m, y, i, j) && j < t.c && i + m < t.n
    requires x == InsertFrom(f, t.Column(j), i + 1, i + 1 + m)
    ensures |y| == t.c && Running(f, t, m, y[j := x], i, j + 1)
  {
    hide InsertFrom, Table.Column;
  }

  lemma RunningRow<T>(f: (T, T) -> T, t: Table<T>, m: nat, y: seq<T>, i: nat)
    requires Running(f, t, m, y, i, t.c) && i + m < t.n
    ensures Running(f, t, m, y, i + 1, 0)
  {
    hide InsertFrom, Table.Column;
  }

  // ---- The result.

  function OutPlace<T>(t: Table<T>, m: nat, i: nat, j: nat): (q: nat)
    requires 0 < m && i + m <= t.n && j < t.c
    ensures q == i * t.c + j < (t.n + 1 - m) * t.c
  {
    RoomForOne(i, t.n + 1 - m, t.c);
    i * t.c + j
  }

  /** The rows before k, and the first j results of row k. */
  ghost predicate Stored<T>(f: (T, T) -> T, t: Table<T>, m: nat, z: seq<T>, k: nat, j: nat) {
    && t.Valid() && 0 < m && k + m <= t.n + 1 && (j > 0 ==> k + m <= t.n) && |z| == (t.n + 1 - m) * t.c
    && forall i: nat, l: nat :: l < t.c && (i < k || (i == k && l < j)) ==>
         OutPlace(t, m, i, l) < |z| && z[OutPlace(t, m, i, l)] == InsertFrom(f, t.Column(l), i, i + m)
  }

  lemma StoredBounds<T>(f: (T, T) -> T, t: Table<T>, m: nat, z: seq<T>, k: nat, j: nat)
    requires Stored(f, t, m, z, k, j)
    ensures t.Valid() && 0 < m && k + m <= t.n + 1 && |z| == (t.n + 1 - m) * t.c
  {
  }

  lemma StoredNone<T>(f: (T, T) -> T, t: Table<T>, m: nat, z: seq<T>)
    requires t.Valid() && 0 < m <= t.n && |z| == (t.n + 1 - m) * t.c
    ensures Stored(f, t, m, z, 0, 0)
  {
  }

  lemma PlacesDiffer(i: nat, l: nat, k: nat, j: nat, c: nat)
    requires l < c && j < c
    ensures i * c + l == k * c + j ==> i == k && l == j
  {
    if i < k {
      RoomForOne(i, k, c);
    } else if k < i {
      RoomForOne(k, i, c);
    }
  }

  lemma StoredStep<T>(f: (T, T) -> T, t: Table<T>, m: nat, z: seq<T>, k: nat, j: nat, x: T)
    requires Stored(f, t, m, z, k, j) && j < t.c && k + m <= t.n && x == InsertFrom(f, t.Column(j), k, k + m)
    ensures OutPlace(t, m, k, j) < |z| && Stored(f, t, m, z[OutPlace(t, m, k, j) := x], k, j + 1)
  {
    hide InsertFrom, Table.Column, Table.Valid;
    var q := OutPlace(t, m, k, j);
    forall i: nat, l: nat | l < t.c && (i < k || (i == k && l < j + 1))
      ensures OutPlace(t, m, i, l) < |z|
      ensures z[q := x][OutPlace(t, m, i, l)] == InsertFrom(f, t.Column(l), i, i + m)
    {
      PlacesDiffer(i, l, k, j, t.c);
    }
  }

  lemma StoredRow<T>(f: (T, T) -> T, t: Table<T>, m: nat, z: seq<T>, k: nat)
    requires Stored(f, t, m, z, k, t.c) && k + m <= t.n
    ensures Stored(f, t, m, z, k + 1, 0)
  {
    hide InsertFrom, Table.Column;
  }

  /** All rows: the windows of every column. */
  lemma StoredAll<T>(f: (T, T) -> T, t: Table<T>, m: nat, z: seq<T>)
    requires m <= t.n && Stored(f, t, m, z, t.n + 1 - m, 0)
    ensures AreColumns(f, t, m, z)
  {
    hide InsertFrom;
    forall j: nat | j < t.c ensures ColumnDone(f, t, m, z, j) {
      StoredColumn(f, t, m, z, j);
    }
  }

  lemma StoredColumn<T>(f: (T, T) -> T, t: Table<T>, m: nat, z: seq<T>, j: nat)
    requires m <= t.n && Stored(f, t, m, z, t.n + 1 - m, 0) && j < t.c
    ensures t.Valid() && 0 < m && |z| == (t.n + 1 - m) * t.c && ColumnDone(f, t, m, z, j)
  {
    hide InsertFrom;
    var n := t.n + 1 - m;
    var u := Table(z, n, t.c);
    forall i: nat | i < n ensures u.Column(j)[i] == InsertFrom(f, t.Column(j), i, i + m) {
      assert u.Place(i, j) == OutPlace(t, m, i, j);
    }
  }

  /** Copy the running values to the result. */
  method SetRow<T>(y: array<T>, z: array<T>, c: nat, k: nat, ghost f: (T, T) -> T, ghost t: Table<T>, ghost m: nat)
    requires t.c == c && Running(f, t, m, y[..], k, 0) && Stored(f, t, m, z[..], k, 0) && y != z
    modifies z
    ensures Stored(f, t, m, z[..], k + 1, 0)
  {
    hide *;
    RunningBounds(f, t, m, y[..], k, 0);
    var q := RowPlace(k, c);
    for j := 0 to c
      invariant q == k * c + j && Stored(f, t, m, z[..], k, j)
    {
      StoredBounds(f, t, m, z[..], k, j);
      RunningOne(f, t, m, y[..], k, j);
      StoredStep(f, t, m, z[..], k, j, y[j]);
      ghost var z0 := z[..];
      z[q] := y[j];
      assert z[..] == z0[q := y[j]];
      q := q + 1;
    }
    StoredRow(f, t, m, z[..], k);
  }

  function RowPlace(k: nat, c: nat): (q: nat)
    ensures q == k * c
  {
    TimesMonotone(0, k, c);
    k * c
  }

  lemma RunningOne<T>(f: (T, T) -> T, t: Table<T>, m: nat, y: seq<T>, i: nat, j: nat)
    requires Running(f, t, m, y, i, 0) && j < t.c
    ensures t.Valid() && |y| == t.c && 0 < m && i + m <= t.n && y[j] == InsertFrom(f, t.Column(j), i, i + m)
  {
  }

  // ---- The first window.

  /** Columns before j have taken in rows up to v, the others the rows before it. */
  ghost predicate Opening<T>(f: (T, T) -> T, t: Table<T>, e: T, y: seq<T>, v: nat, j: nat) {
    && t.Valid() && |y| == t.c && v <= t.n && (j > 0 ==> v < t.n)
    && forall l: nat :: l < t.c ==> Accumulated(f, t.Column(l), e, 0, if l < j then v + 1 else v, y[l])
  }

  ghost predicate Identity<T(!new)>(f: (T, T) -> T, e: T) {
    forall a :: f(e, a) == a
  }

  lemma OpeningStarts<T>(f: (T, T) -> T, t: Table<T>, e: T, y: seq<T>)
    requires t.Valid() && |y| == t.c && forall l :: 0 <= l < |y| ==> y[l] == e
    ensures Opening(f, t, e, y, 0, 0)
  {
    hide Table.Column;
  }

  lemma OpeningBounds<T>(f: (T, T) -> T, t: Table<T>, e: T, y: seq<T>, v: nat, j: nat)
    requires Opening(f, t, e, y, v, j)
    ensures t.Valid() && |y| == t.c && v <= t.n
    ensures j < t.c && v < t.n ==> Accumulated(f, t.Column(j), e, 0, v, y[j])
  {
  }

  lemma TakenIn<T(!new)>(f: (T, T) -> T, s: seq<T>, e: T, v: nat, x: T)
    requires Associative(f) && Identity(f, e) && Accumulated(f, s, e, 0, v, x) && v < |s|
    ensures Accumulated(f, s, e, 0, v + 1, f(x, s[v]))
  {
    if v == 0 {
      InsertOne(f, s, 0);
    } else {
      InsertSnoc(f, s, 0, v);
    }
    hide Associative;
  }

  lemma OpeningStep<T(!new)>(f: (T, T) -> T, t: Table<T>, e: T, y: seq<T>, v: nat, j: nat)
    requires Associative(f) && Identity(f, e) && Opening(f, t, e, y, v, j) && j < t.c && v < t.n
    ensures |y| == t.c && v * t.c + j < |t.w|
    ensures Opening(f, t, e, y[j := f(y[j], t.w[v * t.c + j])], v, j + 1)
  {
    hide Associative, Identity, Accumulated, Table.Column;
    ColumnAt(t, v, j);
    TakenIn(f, t.Column(j), e, v, y[j]);
  }

  lemma OpeningRow<T>(f: (T, T) -> T, t: Table<T>, e: T, y: seq<T>, v: nat)
    requires Opening(f, t, e, y, v, t.c) && v < t.n
    ensures Opening(f, t, e, y, v + 1, 0)
  {
    hide Accumulated, Table.Column;
  }

  lemma OpeningEnds<T>(f: (T, T) -> T, t: Table<T>, e: T, y: seq<T>, m: nat)
    requires Opening(f, t, e, y, m, 0) && 0 < m
    ensures Running(f, t, m, y, 0, 0)
  {
    hide InsertFrom, Table.Column;
  }

  // ---- Verbs that can be undone.

  /** One more row of the first window. */
  method TakeRow<T(!new)>(f: (T, T) -> T, w: seq<T>, n: nat, c: nat, ghost e: T, y: array<T>, v: nat)
    requires Associative(f) && Identity(f, e) && v < n && Opening(f, Table(w, n, c), e, y[..], v, 0)
    modifies y
    ensures Opening(f, Table(w, n, c), e, y[..], v + 1, 0)
  {
    hide *;
    ghost var t := Table(w, n, c);
    OpeningBounds(f, t, e, y[..], v, 0);
    var q := RowPlace(v, c);
    for j := 0 to c
      invariant q == v * c + j && Opening(f, t, e, y[..], v, j)
    {
      OpeningBounds(f, t, e, y[..], v, j);
      OpeningStep(f, t, e, y[..], v, j);
      ghost var y0 := y[..];
      y[j] := f(y[j], w[q]);
      assert y[..] == y0[j := f(y0[j], w[q])];
      q := q + 1;
    }
    OpeningRow(f, t, e, y[..], v);
  }

  /** What moving a window by one does to a running value: x, the leaving item, the new item. */
  ghost predicate Moves<T(!new)>(f: (T, T) -> T, undo: (T, T) -> T, move: (T, T, T) -> T) {
    forall x, u, v :: move(x, u, v) == undo(f(x, v), u)
  }

  lemma MovedBy<T(!new)>(f: (T, T) -> T, undo: (T, T) -> T, e: T, move: (T, T, T) -> T, s: seq<T>, i: nat, m: nat, x: T)
    requires Associative(f) && Undoes(f, undo, e) && Moves(f, undo, move)
    requires 0 < m && i + m < |s| && x == InsertFrom(f, s, i, i + m)
    ensures move(x, s[i], s[i + m]) == InsertFrom(f, s, i + 1, i + 1 + m)
  {
    Slide(f, undo, s, e, i, m, x);
    hide InsertFrom, Associative, Undoes;
  }

  /** The next row of results. */
  method NextRow<T(!new)>(ghost f: (T, T) -> T, ghost undo: (T, T) -> T, ghost e: T, move: (T, T, T) -> T, w: seq<T>, n: nat, c: nat,
      m: nat, y: array<T>, z: array<T>, i: nat)
    requires Associative(f) && Undoes(f, undo, e) && Moves(f, undo, move) && y != z && i + m < n
    requires Running(f, Table(w, n, c), m, y[..], i, 0) && Stored(f, Table(w, n, c), m, z[..], i + 1, 0)
    modifies y, z
    ensures Running(f, Table(w, n, c), m, y[..], i + 1, 0) && Stored(f, Table(w, n, c), m, z[..], i + 2, 0)
  {
    hide *;
    ghost var t := Table(w, n, c);
    RunningBounds(f, t, m, y[..], i, 0);
    var u, v, q := RowPlace(i, c), RowPlace(i + m, c), RowPlace(i + 1, c);
    for j := 0 to c
      invariant u == i * c + j && v == (i + m) * c + j && q == (i + 1) * c + j
      invariant Running(f, t, m, y[..], i, j) && Stored(f, t, m, z[..], i + 1, j)
    {
      NextResult(f, undo, e, move, w, n, c, m, y, z, i, j, u, v, q);
      u, v, q := u + 1, v + 1, q + 1;
    }
    RunningRow(f, t, m, y[..], i);
    StoredRow(f, t, m, z[..], i + 1);
  }

  method NextResult<T(!new)>(ghost f: (T, T) -> T, ghost undo: (T, T) -> T, ghost e: T, move: (T, T, T) -> T, w: seq<T>, n: nat, c: nat,
      m: nat, y: array<T>, z: array<T>, i: nat, j: nat, u: nat, v: nat, q: nat)
    requires Associative(f) && Undoes(f, undo, e) && Moves(f, undo, move) && y != z && i + m < n && j < c
    requires u == i * c + j && v == (i + m) * c + j && q == (i + 1) * c + j
    requires Running(f, Table(w, n, c), m, y[..], i, j) && Stored(f, Table(w, n, c), m, z[..], i + 1, j)
    modifies y, z
    ensures Running(f, Table(w, n, c), m, y[..], i, j + 1) && Stored(f, Table(w, n, c), m, z[..], i + 1, j + 1)
  {
    hide *;
    ghost var t := Table(w, n, c);
    RunningAt(f, t, m, y[..], i, j);
    ColumnAt(t, i, j);
    ColumnAt(t, i + m, j);
    MovedBy(f, undo, e, move, t.Column(j), i, m, y[j]);
    var x := move(y[j], w[u], w[v]);
    RunningStep(f, t, m, y[..], i, j, x);
    StoredBounds(f, t, m, z[..], i + 1, j);
    StoredStep(f, t, m, z[..], i + 1, j, x);
    ghost var y0, z0 := y[..], z[..];
    y[j] := x;
    z[q] := x;
    assert y[..] == y0[j := x] && z[..] == z0[q := x];
  }

  /** The windows of every column, for a verb that can be undone. */
  method SlideColumns<T(!new)>(f: (T, T) -> T, ghost undo: (T, T) -> T, e: T, move: (T, T, T) -> T, w: seq<T>, n: nat, c: nat, m: nat)
    returns (z: array<T>)
    requires Associative(f) && Undoes(f, undo, e) && Moves(f, undo, move) && 0 < m <= n && |w| == n * c
    ensures fresh(z) && AreColumns(f, Table(w, n, c), m, z[..])
  {
    var y := new T[c](_ => e);
    z := new T[RowPlace(n + 1 - m, c)](_ => e);
    SlideInto(f, undo, e, move, w, n, c, m, y, z);
  }

  method SlideInto<T(!new)>(f: (T, T) -> T, ghost undo: (T, T) -> T, e: T, move: (T, T, T) -> T, w: seq<T>, n: nat, c: nat, m: nat,
      y: array<T>, z: array<T>)
    requires Associative(f) && Undoes(f, undo, e) && Moves(f, undo, move) && 0 < m <= n && |w| == n * c && y != z
    requires y.Length == c && z.Length == (n + 1 - m) * c && forall l :: 0 <= l < c ==> y[l] == e
    modifies y, z
    ensures AreColumns(f, Table(w, n, c), m, z[..])
  {
    hide *;
    ghost var t := Table(w, n, c);
    TableIs(w, n, c);
    UndoesIdentity(f, undo, e);
    OpeningStarts(f, t, e, y[..]);
    StoredNone(f, t, m, z[..]);
    for v := 0 to m
      invariant Opening(f, t, e, y[..], v, 0) && z[..] == old(z[..])
    {
      TakeRow(f, w, n, c, e, y, v);
    }
    OpeningEnds(f, t, e, y[..], m);
    SetRow(y, z, c, 0, f, t, m);
    for i := 0 to n - m
      invariant Running(f, t, m, y[..], i, 0) && Stored(f, t, m, z[..], i + 1, 0)
    {
      NextRow(f, undo, e, move, w, n, c, m, y, z, i);
    }
    StoredAll(f, t, m, z[..]);
  }

  lemma TableIs<T>(w: seq<T>, n: nat, c: nat)
    ensures Table(w, n, c).Valid() <==> |w| == n * c
  {
  }

  lemma UndoesIdentity<T(!new)>(f: (T, T) -> T, undo: (T, T) -> T, e: T)
    requires Undoes(f, undo, e)
    ensures Identity(f, e)
  {
  }
}
