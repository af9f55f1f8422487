/** Moving windows of verbs that cannot be undone: least, greatest, and, or.  When the item that leaves
    may have decided the result, the window is scanned again. */
module WindowExtremes {
  import opened Arith
  import opened WindowSpec
  import opened WindowColumns

  // ---- Least and greatest.

  /** The better of two numbers, the later one if they are equal. */
  function Best(max: bool): (int, int) -> int {
    if max then Max else Min
  }

  function Max(x: int, y: int): int {
    if y >= x then y else x
  }

  function Min(x: int, y: int): int {
    if y <= x then y else x
  }

  predicate Better(max: bool, d: int, x: int) {
    if max then d >= x else d <= x
  }

  lemma BestIs(max: bool, x: int, y: int)
    ensures Best(max)(x, y) == if Better(max, y, x) then y else x
    ensures Best(max)(x, y) == Best(max)(y, x)
  {
  }

  lemma BestAssociative(max: bool)
    ensures Associative(Best(max))
  {
    MaxAssociative();
    MinAssociative();
    hide Associative;
  }

  lemma MaxAssociative()
    ensures Associative(Max)
  {
  }

  lemma MinAssociative()
    ensures Associative(Min)
  {
  }

  /** What the search starts from: no number is worse. */
  function Worst(max: bool): int {
    if max then -0x8000_0000_0000_0000 else 0x7fff_ffff_ffff_ffff
  }

  ghost predicate InRange(w: seq<int>) {
    forall i :: 0 <= i < |w| ==> -0x8000_0000_0000_0000 <= w[i] <= 0x7fff_ffff_ffff_ffff
  }

  /** x is the best of items i to n-1, or the worst number if there are none. */
  ghost predicate BestOf(max: bool, s: seq<int>, i: nat, n: nat, x: int) {
    i <= n <= |s| && x == if i == n then Worst(max) else InsertFrom(Best(max), s, i, n)
  }

  lemma BestOfStep(max: bool, s: seq<int>, i: nat, n: nat, x: int)
    requires BestOf(max, s, i, n, x) && n < |s| && InRange(s)
    ensures BestOf(max, s, i, n + 1, if Better(max, s[n], x) then s[n] else x)
  {
    if i == n {
      InsertOne(Best(max), s, i);
    } else {
      BestAssociative(max);
      InsertSnoc(Best(max), s, i, n);
      BestIs(max, x, s[n]);
    }
  }

  /** The best of d and of items i to n-1. */
  ghost predicate BestWith(max: bool, s: seq<int>, d: int, i: nat, n: nat, x: int) {
    i <= n <= |s| && x == if i == n then d else Best(max)(d, InsertFrom(Best(max), s, i, n))
  }

  lemma BestWithStep(max: bool, s: seq<int>, d: int, i: nat, n: nat, x: int)
    requires BestWith(max, s, d, i, n, x) && n < |s|
    ensures BestWith(max, s, d, i, n + 1, if Better(max, s[n], x) then s[n] else x)
  {
    var f := Best(max);
    BestIs(max, x, s[n]);
    if i == n {
      InsertOne(f, s, i);
    } else {
      BestAssociative(max);
      InsertSnoc(f, s, i, n);
      assert f(f(d, InsertFrom(f, s, i, n)), s[n]) == f(d, f(InsertFrom(f, s, i, n), s[n]));
    }
  }

  /** The greatest or least of items i to n-1 is one of them, and none of them is greater, or less. */
  lemma {:induction false} ExtremeIs(max: bool, s: seq<int>, i: nat, n: nat, x: int)
    requires i < n <= |s| && x == InsertFrom(Best(max), s, i, n)
    ensures x in s[i..n]
    ensures forall k :: i <= k < n ==> if max then s[k] <= x else s[k] >= x
    decreases n - i
  {
    if i < n - 1 {
      ExtremeIs(max, s, i + 1, n, InsertFrom(Best(max), s, i + 1, n));
    }
  }

  /** The search for an extreme starts below, or above, every number of 64 bits. */
  lemma WorstIs(max: bool, s: seq<int>, i: nat)
    requires InRange(s) && i < |s|
    ensures if max then Worst(max) <= s[i] else Worst(max) >= s[i]
  {
  }

  lemma BestWithNone(max: bool, s: seq<int>, d: int, i: nat)
    requires i <= |s|
    ensures BestWith(max, s, d, i, i, d)
  {
  }

  /** Without the leaving item e, the best of the window is known unless e was the best. */
  lemma Leaves(max: bool, e: int, rest: int, d: int, x: int)
    requires x == Best(max)(e, rest)
    ensures Better(max, d, x) ==> Best(max)(rest, d) == d
    ensures !Better(max, d, x) && e != x ==> Best(max)(rest, d) == x
  {
    BestIs(max, e, rest);
    BestIs(max, rest, d);
    hide Best;
  }

  lemma BestWithIs(max: bool, s: seq<int>, d: int, i: nat, n: nat, x: int)
    requires BestWith(max, s, d, i, n, x)
    ensures i <= n <= |s| && (i == n ==> x == d) && (i < n ==> x == Best(max)(InsertFrom(Best(max), s, i, n), d))
  {
    if i < n {
      BestIs(max, d, InsertFrom(Best(max), s, i, n));
    }
  }

  /** The window has moved: a better item came in, or the best one did not leave, or the rest was
      scanned again. */
  lemma Moved(max: bool, s: seq<int>, i: nat, m: nat, x: int, x': int)
    requires 0 < m && i + m < |s| && x == InsertFrom(Best(max), s, i, i + m)
    requires var d, e := s[i + m], s[i];
             if Better(max, d, x) then x' == d
             else if e == x then BestWith(max, s, d, i + 1, i + m, x')
             else x' == x
    ensures x' == InsertFrom(Best(max), s, i + 1, i + 1 + m)
  {
    hide *;
    var f, d, e := Best(max), s[i + m], s[i];
    BestAssociative(max);
    if !Better(max, d, x) && e == x {
      BestWithIs(max, s, d, i + 1, i + m, x');
    }
    if m == 1 {
      InsertOne(f, s, i);
      InsertOne(f, s, i + 1);
    } else {
      var rest := InsertFrom(f, s, i + 1, i + m);
      InsertFront(f, s, i, i + m);
      InsertSnoc(f, s, i + 1, i + m);
      Leaves(max, e, rest, d, x);
    }
  }

  // ---- Every column of a table.

  lemma ColumnInRange(t: Table<int>, j: nat)
    requires t.Valid() && InRange(t.w) && j < t.c
    ensures InRange(t.Column(j))
  {
    hide Table.Place;
  }

  /** The items of the window that stay, scanned again with the new one. */
  method Rescan(w: seq<int>, t: nat, m: nat, max: bool, d: int, ghost tb: Table<int>, ghost i: nat, ghost j: nat, c: nat)
    returns (x: int)
    requires tb.Valid() && tb.w == w && tb.c == c && j < c && 0 < m && i + m < tb.n && t == (i + 1) * c + j
    ensures BestWith(max, tb.Column(j), d, i + 1, i + m, x)
  {
    hide *;
    ghost var s := tb.Column(j);
    x := d;
    BestWithNone(max, s, d, i + 1);
    var k, q := 1, t;
    while k < m
      invariant 1 <= k <= m && q == (i + k) * c + j && BestWith(max, s, d, i + 1, i + k, x)
    {
      ColumnAt(tb, i + k, j);
      OneMoreTimes(i + k, c);
      BestWithStep(max, s, d, i + 1, i + k, x);
      var e := w[q];
      if Better(max, e, x) {
        x := e;
      }
      k, q := k + 1, q + c;
    }
  }

  /** One column of the step to the next window. */
  method NextInColumn(w: seq<int>, n: nat, c: nat, m: nat, max: bool, y: array<int>, i: nat, j: nat, u: nat, v: nat)
    requires Running(Best(max), Table(w, n, c), m, y[..], i, j) && j < c && i + m < n
    requires u == i * c + j && v == (i + m) * c + j
    modifies y
    ensures Running(Best(max), Table(w, n, c), m, y[..], i, j + 1)
  {
    hide *;
    ghost var t, f := Table(w, n, c), Best(max);
    RunningAt(f, t, m, y[..], i, j);
    ColumnAt(t, i, j);
    ColumnAt(t, i + m, j);
    OneMoreTimes(i, c);
    var d, e, x := w[v], w[u], y[j];
    ghost var old' := x;
    if Better(max, d, x) {
      x := d;
    } else if e == x {
      x := Rescan(w, c + u, m, max, d, t, i, j, c);
    }
    Moved(max, t.Column(j), i, m, old', x);
    RunningStep(f, t, m, y[..], i, j, x);
    ghost var y0 := y[..];
    y[j] := x;
    assert y[..] == y0[j := x];
  }

  /** Moving least or greatest values of every column. */
  method MovingExtremes(w: seq<int>, n: nat, c: nat, m: nat, max: bool) returns (z: array<int>)
    requires 0 < m <= n && |w| == n * c && InRange(w)
    ensures AreColumns(Best(max), Table(w, n, c), m, z[..])
  {
    z := new int[RowPlace(n + 1 - m, c)];
    var y := new int[c];
    ExtremesWith(w, n, c, m, max, z, y);
  }

  /** The first window, row by row. */
  ghost predicate Searched(t: Table<int>, max: bool, y: seq<int>, v: nat, j: nat) {
    && t.Valid() && |y| == t.c && v <= t.n && (j > 0 ==> v < t.n)
    && forall l: nat :: l < t.c ==> BestOf(max, t.Column(l), 0, if l < j then v + 1 else v, y[l])
  }

  lemma SearchedStep(t: Table<int>, max: bool, y: seq<int>, v: nat, j: nat)
    requires Searched(t, max, y, v, j) && InRange(t.w) && j < t.c && v < t.n
    ensures |y| == t.c && v * t.c + j < |t.w|
    ensures var d := t.w[v * t.c + j]; Searched(t, max, y[j := if Better(max, d, y[j]) then d else y[j]], v, j + 1)
  {
    ColumnAt(t, v, j);
    ColumnInRange(t, j);
    BestOfStep(max, t.Column(j), 0, v, y[j]);
    hide BestOf, Table.Column, Better;
  }

  lemma SearchedRow(t: Table<int>, max: bool, y: seq<int>, v: nat)
    requires Searched(t, max, y, v, t.c) && v < t.n
    ensures Searched(t, max, y, v + 1, 0)
  {
    hide BestOf, Table.Column;
  }

  lemma SearchStarts(t: Table<int>, max: bool, y: seq<int>)
    requires t.Valid() && |y| == t.c && forall l :: 0 <= l < |y| ==> y[l] == Worst(max)
    ensures Searched(t, max, y, 0, 0)
  {
    hide Table.Column;
  }

  lemma SearchEnds(t: Table<int>, max: bool, y: seq<int>, m: nat)
    requires Searched(t, max, y, m, 0) && 0 < m
    ensures Running(Best(max), t, m, y, 0, 0)
  {
    hide InsertFrom, Table.Column, Best;
  }

  method ExtremesWith(w: seq<int>, n: nat, c: nat, m: nat, max: bool, z: array<int>, y: array<int>)
    requires 0 < m <= n && |w| == n * c && InRange(w) && y != z && y.Length == c && z.Length == (n + 1 - m) * c
    modifies z, y
    ensures AreColumns(Best(max), Table(w, n, c), m, z[..])
  {
    hide *;
    ghost var t, f := Table(w, n, c), Best(max);
    TableIs(w, n, c);
    for l := 0 to c
      invariant forall k :: 0 <= k < l ==> y[k] == Worst(max)
    {
      y[l] := Worst(max);
    }
    SearchStarts(t, max, y[..]);
    StoredNone(f, t, m, z[..]);
    OpenWindow(w, n, c, m, max, y);
    SearchEnds(t, max, y[..], m);
    SetRow(y, z, c, 0, f, t, m);
    var i := 0;
    while i < n - m
      invariant 0 <= i <= n - m && Running(f, t, m, y[..], i, 0) && Stored(f, t, m, z[..], i + 1, 0)
    {
      NextWindow(w, n, c, m, max, y, i);
      i := i + 1;
      SetRow(y, z, c, i, f, t, m);
    }
    StoredAll(f, t, m, z[..]);
  }

  method OpenWindow(w: seq<int>, n: nat, c: nat, m: nat, max: bool, y: array<int>)
    requires m <= n && InRange(w) && Searched(Table(w, n, c), max, y[..], 0, 0)
    modifies y
    ensures Searched(Table(w, n, c), max, y[..], m, 0)
  {
    hide *;
    ghost var t := Table(w, n, c);
    var v := 0;
    while v < m
      invariant 0 <= v <= m && Searched(t, max, y[..], v, 0)
    {
      OpenRow(w, n, c, max, y, v);
      v := v + 1;
    }
  }

  method OpenRow(w: seq<int>, n: nat, c: nat, max: bool, y: array<int>, v: nat)
    requires v < n && InRange(w) && Searched(Table(w, n, c), max, y[..], v, 0)
    modifies y
    ensures Searched(Table(w, n, c), max, y[..], v + 1, 0)
  {
    hide *;
    ghost var t := Table(w, n, c);
    for j := 0 to c
      invariant Searched(t, max, y[..], v, j)
    {
      SearchedStep(t, max, y[..], v, j);
      var d := w[v * c + j];
      ghost var y0 := y[..];
      if Better(max, d, y[j]) {
        y[j] := d;
      }
      assert y[..] == y0[j := if Better(max, d, y0[j]) then d else y0[j]];
    }
    SearchedRow(t, max, y[..], v);
  }

  method NextWindow(w: seq<int>, n: nat, c: nat, m: nat, max: bool, y: array<int>, i: nat)
    requires i + m < n && Running(Best(max), Table(w, n, c), m, y[..], i, 0)
    modifies y
    ensures Running(Best(max), Table(w, n, c), m, y[..], i + 1, 0)
  {
    hide *;
    ghost var t, f := Table(w, n, c), Best(max);
    RunningBounds(f, t, m, y[..], i, 0);
    for j := 0 to c
      invariant Running(f, t, m, y[..], i, j)
    {
      NextInColumn(w, n, c, m, max, y, i, j, i * c + j, (i + m) * c + j);
    }
    RunningRow(f, t, m, y[..], i);
  }

  // ---- And, or.

  function AndOr(or: bool): (bool, bool) -> bool {
    if or then Or else And
  }

  function Or(x: bool, y: bool): bool {
    x || y
  }

  function And(x: bool, y: bool): bool {
    x && y
  }

  /** The insert is the deciding value exactly if some item is. */
  lemma {:induction false} AndOrDecides(or: bool, s: seq<bool>, i: nat, n: nat)
    requires i < n <= |s|
    ensures InsertFrom(AndOr(or), s, i, n) == or <==> exists j: nat :: i <= j < n && s[j] == or
    decreases n - i
  {
    if i < n - 1 {
      AndOrDecides(or, s, i + 1, n);
    }
  }

  /** Look for the deciding value among k items. */
  method Search(w: seq<bool>, t: nat, k: nat, b1: bool) returns (found: bool)
    requires t + k <= |w|
    ensures found <==> exists j: nat :: t <= j < t + k && w[j] == b1
  {
    var l := 0;
    while l < k
      invariant 0 <= l <= k && forall j: nat :: t <= j < t + l ==> w[j] != b1
    {
      if w[t + l] == b1 { return true; }
      l := l + 1;
    }
    found := false;
  }

  /** m *./\ and m +./\ of a Boolean list. */
  method MovingAndOr(w: seq<bool>, m: nat, or: bool) returns (z: array<bool>)
    requires 0 < m <= |w|
    ensures z.Length == |w| - m + 1 && AreWindows(AndOr(or), w, m, z[..], |w| - m + 1)
  {
    z := new bool[|w| - m + 1];
    AndOrWindows(w, m, or, z);
  }

  method AndOrWindows(w: seq<bool>, m: nat, or: bool, z: array<bool>)
    requires 0 < m <= |w| && z.Length == |w| - m + 1
    modifies z
    ensures AreWindows(AndOr(or), w, m, z[..], |w| - m + 1)
  {
    hide *;
    ghost var f := AndOr(or);
    var b0, b1 := !or, or;
    var found := Search(w, 0, m, b1);
    var x := if found then b1 else b0;
    AndOrDecides(or, w, 0, m);
    ghost var z0 := z[..];
    WindowsStart(f, w, m, z0);
    z[0] := x;
    assert z[..] == z0[0 := x];
    WindowNext(f, w, m, z0, 0, z[..], x);
    var v, u := m, 0;
    while v < |w|
      invariant m <= v <= |w| && u == v - m && x == InsertFrom(f, w, u, v) && AreWindows(f, w, m, z[..], u + 1)
    {
      x := MoveAndOr(w, u, v, m, or, x);
      v, u := v + 1, u + 1;
      z0 := z[..];
      z[u] := x;
      assert z[..] == z0[u := x];
      WindowNext(f, w, m, z0, u, z[..], x);
    }
  }

  /** The next window. */
  method MoveAndOr(w: seq<bool>, u: nat, v: nat, m: nat, or: bool, x: bool) returns (x': bool)
    requires 0 < m && v == u + m < |w| && x == InsertFrom(AndOr(or), w, u, v)
    ensures x' == InsertFrom(AndOr(or), w, u + 1, v + 1)
  {
    hide InsertFrom, AndOr;
    AndOrDecides(or, w, u, v);
    AndOrDecides(or, w, u + 1, v + 1);
    x' := x;
    var d, e := w[v], w[u];
    if d == or {
      x' := d;
    } else if e == or {
      x' := d;
      var found := Search(w, u + 1, m - 1, or);
      if found {
        x' := or;
      }
    }
  }

  // ---- And, or, of every column.

  lemma AndOrLaws(or: bool)
    ensures Associative(AndOr(or)) && Identity(AndOr(or), !or)
  {
  }

  /** Look for the deciding value among k items, c apart. */
  method SearchColumn(w: seq<bool>, t: nat, k: nat, b1: bool, c: nat, ghost tb: Table<bool>, ghost i: nat, ghost j: nat)
    returns (found: bool)
    requires tb.Valid() && tb.w == w && tb.c == c && j < c && i + k <= tb.n && t == i * c + j
    ensures found <==> exists l: nat :: i <= l < i + k && tb.Column(j)[l] == b1
  {
    hide *;
    ghost var s := tb.Column(j);
    var l, q := 0, t;
    while l < k
      invariant 0 <= l <= k && q == (i + l) * c + j && forall h: nat :: i <= h < i + l ==> s[h] != b1
    {
      ColumnAt(tb, i + l, j);
      OneMoreTimes(i + l, c);
      if w[q] == b1 {
        assert s[i + l] == b1;
        return true;
      }
      l, q := l + 1, q + c;
    }
    found := false;
  }

  /** The next window of a column. */
  method MoveInColumn(w: seq<bool>, n: nat, c: nat, m: nat, or: bool, y: array<bool>, i: nat, j: nat, u: nat, v: nat)
    requires Running(AndOr(or), Table(w, n, c), m, y[..], i, j) && j < c && i + m < n
    requires u == i * c + j && v == (i + m) * c + j
    modifies y
    ensures Running(AndOr(or), Table(w, n, c), m, y[..], i, j + 1)
  {
    hide *;
    ghost var t, f := Table(w, n, c), AndOr(or);
    RunningAt(f, t, m, y[..], i, j);
    ColumnAt(t, i, j);
    ColumnAt(t, i + m, j);
    OneMoreTimes(i, c);
    var d, e, x := w[v], w[u], y[j];
    ghost var old' := x;
    ghost var found := false;
    if d == or {
      x := d;
    } else if e == or {
      x := d;
      var hit := SearchColumn(w, c + u, m - 1, or, c, t, i + 1, j);
      if hit {
        x := or;
      }
      found := hit;
    }
    AndOrMoved(or, t.Column(j), i, m, old', x, found);
    RunningStep(f, t, m, y[..], i, j, x);
    ghost var y0 := y[..];
    y[j] := x;
    assert y[..] == y0[j := x];
  }

  lemma AndOrMoved(or: bool, s: seq<bool>, i: nat, m: nat, x: bool, x': bool, found: bool)
    requires 0 < m && i + m < |s| && x == InsertFrom(AndOr(or), s, i, i + m)
    requires var d, e := s[i + m], s[i];
             if d == or then x' == d
             else if e == or then
               (found <==> exists l: nat :: i + 1 <= l < i + 1 + (m - 1) && s[l] == or) && x' == if found then or else d
             else x' == x
    ensures x' == InsertFrom(AndOr(or), s, i + 1, i + 1 + m)
  {
    AndOrDecides(or, s, i, i + m);
    AndOrDecides(or, s, i + 1, i + 1 + m);
    hide InsertFrom, AndOr;
  }

  method MoveRow(w: seq<bool>, n: nat, c: nat, m: nat, or: bool, y: array<bool>, i: nat)
    requires i + m < n && Running(AndOr(or), Table(w, n, c), m, y[..], i, 0)
    modifies y
    ensures Running(AndOr(or), Table(w, n, c), m, y[..], i + 1, 0)
  {
    hide *;
    ghost var t, f := Table(w, n, c), AndOr(or);
    RunningBounds(f, t, m, y[..], i, 0);
    for j := 0 to c
      invariant Running(f, t, m, y[..], i, j)
    {
      MoveInColumn(w, n, c, m, or, y, i, j, i * c + j, (i + m) * c + j);
    }
    RunningRow(f, t, m, y[..], i);
  }

  /** m *./\ and m +./\ of every column of a Boolean table. */
  method MovingAndOrColumns(w: seq<bool>, n: nat, c: nat, m: nat, or: bool) returns (z: array<bool>)
    requires 0 < m <= n && |w| == n * c
    ensures AreColumns(AndOr(or), Table(w, n, c), m, z[..])
  {
    var y := new bool[c](_ => !or);
    z := new bool[RowPlace(n + 1 - m, c)];
    AndOrInto(w, n, c, m, or, y, z);
  }

  method AndOrInto(w: seq<bool>, n: nat, c: nat, m: nat, or: bool, y: array<bool>, z: array<bool>)
    requires 0 < m <= n && |w| == n * c && y != z && y.Length == c && z.Length == (n + 1 - m) * c
    requires forall l :: 0 <= l < c ==> y[l] == !or
    modifies y, z
    ensures AreColumns(AndOr(or), Table(w, n, c), m, z[..])
  {
    hide *;
    ghost var t, f := Table(w, n, c), AndOr(or);
    TableIs(w, n, c);
    AndOrLaws(or);
    OpeningStarts(f, t, !or, y[..]);
    StoredNone(f, t, m, z[..]);
    for v := 0 to m
      invariant Opening(f, t, !or, y[..], v, 0) && z[..] == old(z[..])
    {
      TakeDeciding(w, n, c, or, y, v);
    }
    OpeningEnds(f, t, !or, y[..], m);
    SetRow(y, z, c, 0, f, t, m);
    var i := 0;
    while i < n - m
      invariant 0 <= i <= n - m && Running(f, t, m, y[..], i, 0) && Stored(f, t, m, z[..], i + 1, 0)
    {
      MoveRow(w, n, c, m, or, y, i);
      i := i + 1;
      SetRow(y, z, c, i, f, t, m);
    }
    StoredAll(f, t, m, z[..]);
  }

  lemma AndOrIs(or: bool, x: bool, d: bool)
    ensures AndOr(or)(x, d) == if d == or then or else x
  {
  }

  /** One more row of the first window: the deciding value is noted. */
  method TakeDeciding(w: seq<bool>, n: nat, c: nat, or: bool, y: array<bool>, v: nat)
    requires v < n && Opening(AndOr(or), Table(w, n, c), !or, y[..], v, 0)
    modifies y
    ensures Opening(AndOr(or), Table(w, n, c), !or, y[..], v + 1, 0)
  {
    hide *;
    ghost var t, f := Table(w, n, c), AndOr(or);
    AndOrLaws(or);
    OpeningBounds(f, t, !or, y[..], v, 0);
    var q := RowPlace(v, c);
    for j := 0 to c
      invariant q == v * c + j && Opening(f, t, !or, y[..], v, j)
    {
      OpeningBounds(f, t, !or, y[..], v, j);
      OpeningStep(f, t, !or, y[..], v, j);
      AndOrIs(or, y[j], w[q]);
      ghost var y0 := y[..];
      if w[q] == or {
        y[j] := or;
      }
      assert y[..] == y0[j := f(y0[j], w[q])];
      q := q + 1;
    }
    OpeningRow(f, t, !or, y[..], v);
  }
}
