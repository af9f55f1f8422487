/** Prefix scans of +, - and * down every column of every table, in loops that are entered in the middle. */
module OverflowTables {
  import opened Arith
  import opened Wrappers
  import opened WindowSpec
  import opened WindowColumns
  import opened OverflowTotals

  // ---- Columns of the tables, which lie one after the other.

  /** Place j of row r, counted over all tables. */
  function Spot(r: nat, d: nat, j: nat): (p: nat)
    ensures p == r * d + j
  {
    TimesMonotone(0, r, d);
    r * d + j
  }

  function FirstRow(i: nat, n: nat): (r: nat)
    ensures r == i * n
  {
    TimesMonotone(0, i, n);
    i * n
  }

  /** There are rows of d atoms up to row r, exclusive. */
  ghost predicate HasRows(size: nat, r: nat, d: nat) {
    r * d <= size
  }

  lemma SpotInside(size: nat, rows: nat, d: nat, r: nat, j: nat)
    requires HasRows(size, rows, d) && r < rows && j < d
    ensures Spot(r, d, j) < rows * d <= size
  {
    RoomForOne(r, rows, d);
  }

  lemma SpotsDiffer(d: nat, r: nat, j: nat, r': nat, j': nat)
    requires j < d && j' < d
    ensures Spot(r, d, j) == Spot(r', d, j') <==> r == r' && j == j'
  {
    PlacesDiffer(r, j, r', j', d);
  }

  lemma RowsOfTable(i: nat, m: nat, n: nat)
    requires i < m
    ensures FirstRow(i, n) + n <= FirstRow(m, n) && FirstRow(i + 1, n) == FirstRow(i, n) + n
  {
    RoomForOne(i, m, n);
    OneMoreTimes(i, n);
  }

  /** Item k of column j, from row r on. */
  function LineSpot(r: nat, k: nat, d: nat, j: nat): (p: nat)
    ensures p == Spot(r + k, d, j)
  {
    Spot(r + k, d, j)
  }

  function LineItem(w: seq<int>, rows: nat, d: nat, r: nat, n: nat, j: nat, k: nat): int
    requires HasRows(|w|, rows, d) && r + n <= rows && j < d && k < n
  {
    SpotInside(|w|, rows, d, r + k, j);
    w[LineSpot(r, k, d, j)]
  }

  /** Column j of the n rows from r on. */
  function Line(w: seq<int>, rows: nat, d: nat, r: nat, n: nat, j: nat): (s: seq<int>)
    requires HasRows(|w|, rows, d) && r + n <= rows && j < d
    ensures |s| == n
  {
    seq(n, k requires 0 <= k < n && HasRows(|w|, rows, d) && r + n <= rows && j < d => LineItem(w, rows, d, r, n, j, k))
  }

  lemma LineAt(w: seq<int>, rows: nat, d: nat, r: nat, n: nat, j: nat, k: nat)
    requires HasRows(|w|, rows, d) && r + n <= rows && j < d && k < n
    ensures LineSpot(r, k, d, j) < |w| && Line(w, rows, d, r, n, j)[k] == w[LineSpot(r, k, d, j)]
  {
    SpotInside(|w|, rows, d, r + k, j);
  }

  // ---- One column.

  /** The first k entries of the scan of s stand in column j from row r on; nothing else has changed. */
  ghost predicate LineDone(v: Verb, s: seq<int>, z: seq<int>, z0: seq<int>, rows: nat, d: nat, r: nat, j: nat, k: nat) {
    && HasRows(|z|, rows, d) && |z| == |z0| && k <= |s| && r + |s| <= rows && j < d
    && (forall h: nat :: h < k ==> LineSpot(r, h, d, j) < |z| && z[LineSpot(r, h, d, j)] == InsertFrom(Exact(v), s, 0, h + 1))
    && (forall q: nat, l: nat :: q < rows && l < d && !(l == j && r <= q < r + k) ==>
          Spot(q, d, l) < |z| && z[Spot(q, d, l)] == z0[Spot(q, d, l)])
    && TailKept(z, z0, rows, d)
  }

  /** What lies after the tables is unchanged. */
  ghost predicate TailKept(z: seq<int>, z0: seq<int>, rows: nat, d: nat) {
    |z| == |z0| && forall p: nat :: rows * d <= p < |z| ==> z[p] == z0[p]
  }

  lemma TailSame(z: seq<int>, rows: nat, d: nat)
    ensures TailKept(z, z, rows, d)
  {
  }

  lemma TailBoth(z: seq<int>, z1: seq<int>, z0: seq<int>, rows: nat, d: nat)
    requires TailKept(z, z1, rows, d) && TailKept(z1, z0, rows, d)
    ensures TailKept(z, z0, rows, d)
  {
  }

  lemma LineNone(v: Verb, s: seq<int>, z: seq<int>, rows: nat, d: nat, r: nat, j: nat)
    requires HasRows(|z|, rows, d) && r + |s| <= rows && j < d
    ensures LineDone(v, s, z, z, rows, d, r, j, 0)
  {
    forall q: nat, l: nat | q < rows && l < d ensures Spot(q, d, l) < |z| {
      SpotInside(|z|, rows, d, q, l);
    }
  }

  lemma LineStep(v: Verb, s: seq<int>, z: seq<int>, z0: seq<int>, rows: nat, d: nat, r: nat, j: nat, k: nat, t: int)
    requires LineDone(v, s, z, z0, rows, d, r, j, k) && k < |s| && t == InsertFrom(Exact(v), s, 0, k + 1)
    ensures LineSpot(r, k, d, j) < |z| && LineDone(v, s, z[LineSpot(r, k, d, j) := t], z0, rows, d, r, j, k + 1)
  {
    hide InsertFrom, Exact, Spot, LineSpot, HasRows;
    var p := LineSpot(r, k, d, j);
    SpotInside(|z|, rows, d, r + k, j);
    var z' := z[p := t];
    forall h: nat | h < k + 1
      ensures LineSpot(r, h, d, j) < |z'| && z'[LineSpot(r, h, d, j)] == InsertFrom(Exact(v), s, 0, h + 1)
    {
      SpotsDiffer(d, r + h, j, r + k, j);
    }
    forall q: nat, l: nat | q < rows && l < d && !(l == j && r <= q < r + k + 1)
      ensures Spot(q, d, l) < |z'| && z'[Spot(q, d, l)] == z0[Spot(q, d, l)]
    {
      SpotsDiffer(d, q, l, r + k, j);
    }
    SpotBefore(rows, d, r + k, j);
  }

  lemma SpotBefore(rows: nat, d: nat, r: nat, j: nat)
    requires r < rows && j < d
    ensures Spot(r, d, j) < rows * d
  {
    RoomForOne(r, rows, d);
  }

  /** How far the pointer is moved back, and how often the unrolled loop runs. */
  function Backoff(n: nat): (b: nat)
    ensures b < 4
  {
    (4 - n % 4) % 4
  }

  function Passes(n: nat): nat {
    (n + 3) / 4
  }

  lemma PassesIs(n: nat)
    ensures 4 * Passes(n) == n + Backoff(n) && (n > 0 ==> Passes(n) > 0)
    ensures Backoff(n) == if n % 4 == 0 then 0 else 4 - n % 4
  {
  }

  /** The total of the first k entries, none of which overflows; parity tells whether k is odd. */
  ghost predicate Midway(v: Verb, s: seq<int>, k: nat, parity: bool, t: int) {
    && k <= |s| && !PrefixOverflows(v, s, k) && parity == (k % 2 == 1)
    && t == if k == 0 then Neutral(v) else InsertFrom(Exact(v), s, 0, k)
  }

  lemma MidwayStarts(v: Verb, s: seq<int>)
    ensures Midway(v, s, 0, false, Neutral(v))
  {
  }

  lemma MidwayEnds(v: Verb, s: seq<int>, k: nat, parity: bool, t: int)
    requires Midway(v, s, k, parity, t)
    ensures !PrefixOverflows(v, s, k)
  {
  }

  /** The next total. */
  lemma MidwayStep(v: Verb, s: seq<int>, k: nat, parity: bool, t: int)
    requires Midway(v, s, k, parity, t) && k < |s|
    ensures var y := Next(v, !parity, s[k], t);
            if y.None? then PrefixOverflows(v, s, |s|)
            else y.value == InsertFrom(Exact(v), s, 0, k + 1) && Midway(v, s, k + 1, !parity, y.value)
  {
    NextIs(v, s, k, !parity, t);
    PrefixStep(v, s, k);
    hide InsertFrom, Exact, Next, PrefixOverflows, Fits;
  }

  /** One entry. */
  method ScanEntry(v: Verb, w: seq<int>, z: array<int>, p: nat, parity: bool, t: int, ghost s: seq<int>, ghost z0: seq<int>,
      ghost rows: nat, ghost d: nat, ghost r: nat, ghost j: nat, ghost k: nat)
    returns (y: Option<int>)
    requires k < |s| && LineDone(v, s, z[..], z0, rows, d, r, j, k) && p == LineSpot(r, k, d, j) && p < |w| && w[p] == s[k]
    requires Midway(v, s, k, !parity, t)
    modifies z
    ensures y.None? ==> PrefixOverflows(v, s, |s|) && z[..] == old(z[..])
    ensures y.Some? ==> Midway(v, s, k + 1, parity, y.value) && LineDone(v, s, z[..], z0, rows, d, r, j, k + 1)
  {
    hide *;
    MidwayStep(v, s, k, !parity, t);
    y := Next(v, parity, w[p], t);
    if y.Some? {
      LineStep(v, s, z[..], z0, rows, d, r, j, k, y.value);
      ghost var z1 := z[..];
      z[p] := y.value;
      assert z[..] == z1[p := y.value];
    }
  }

  /** The pointer to the next entry. */
  ghost predicate PointsAt(x: int, lane: nat, k: nat, d: nat, r: nat, j: nat) {
    x + lane * d == (r + k) * d + j
  }

  lemma PointsOn(x: int, lane: nat, k: nat, d: nat, r: nat, j: nat)
    requires PointsAt(x, lane, k, d, r, j)
    ensures x + lane * d == LineSpot(r, k, d, j) && PointsAt(x, lane + 1, k + 1, d, r, j)
    ensures lane == 4 ==> PointsAt(x + 4 * d, 0, k, d, r, j)
  {
    OneMoreTimes(lane, d);
    OneMoreTimes(r + k, d);
  }

  /** The scan of one column: the unrolled loop is entered at the lane that leaves n entries.  x is the pointer,
      moved back by as many rows as are skipped. */
  method ScanLine(v: Verb, w: seq<int>, z: array<int>, n: nat, d: nat, x: int, ghost rows: nat, ghost r: nat, ghost j: nat)
    returns (ok: bool, x': int)
    requires 0 < n && r + n <= rows && j < d && HasRows(|w|, rows, d) && HasRows(z.Length, rows, d)
    requires PointsAt(x, Backoff(n), 0, d, r, j)
    modifies z
    ensures ok <==> !PrefixOverflows(v, Line(w, rows, d, r, n, j), n)
    ensures TailKept(z[..], old(z[..]), rows, d)
    ensures ok ==> LineDone(v, Line(w, rows, d, r, n, j), z[..], old(z[..]), rows, d, r, j, n) && PointsAt(x', 0, n, d, r, j)
  {
    hide *;
    ghost var s, z0, k: nat := Line(w, rows, d, r, n, j), z[..], 0;
    PassesIs(n);
    LineNone(v, s, z0, rows, d, r, j);
    MidwayStarts(v, s);
    var t, parity := Neutral(v), false;
    var lane: nat, dlct: nat := Backoff(n), Passes(n);
    x' := x;
    while dlct > 0
      invariant 0 <= dlct && lane < 4 && n - k == 4 * dlct - lane && k <= n && PointsAt(x', lane, k, d, r, j)
      invariant dlct == 0 ==> lane == 0
      invariant LineDone(v, s, z[..], z0, rows, d, r, j, k) && Midway(v, s, k, parity, t)
    {
      while lane < 4
        invariant lane <= 4 && n - k == 4 * dlct - lane && k <= n && PointsAt(x', lane, k, d, r, j)
        invariant LineDone(v, s, z[..], z0, rows, d, r, j, k) && Midway(v, s, k, parity, t)
      {
        PointsOn(x', lane, k, d, r, j);
        LineAt(w, rows, d, r, n, j, k);
        parity := !parity;
        var y := ScanEntry(v, w, z, x' + lane * d, parity, t, s, z0, rows, d, r, j, k);
        if y == None {
          LineLong(v, s, z[..], z0, rows, d, r, j, k);
          return false, x';
        }
        t, lane, k := y.value, lane + 1, k + 1;
      }
      PointsOn(x', lane, k, d, r, j);
      x', lane, dlct := x' + 4 * d, 0, dlct - 1;
    }
    LineLong(v, s, z[..], z0, rows, d, r, j, k);
    MidwayEnds(v, s, k, parity, t);
    ok := true;
  }

  // ---- All columns.

  /** Column j of table i has been scanned, and every entry fits. */
  ghost predicate ColumnScanned(v: Verb, w: seq<int>, z: seq<int>, rows: nat, n: nat, d: nat, r: nat, j: nat)
    requires HasRows(|w|, rows, d) && r + n <= rows && j < d
  {
    var s := Line(w, rows, d, r, n, j);
    && !PrefixOverflows(v, s, n)
    && forall h: nat :: h < n ==> LineSpot(r, h, d, j) < |z| && z[LineSpot(r, h, d, j)] == InsertFrom(Exact(v), s, 0, h + 1)
  }

  /** The columns before column j of table i. */
  ghost predicate AllScanned(v: Verb, w: seq<int>, z: seq<int>, m: nat, n: nat, d: nat, i: nat, j: nat) {
    && HasRows(|w|, FirstRow(m, n), d) && HasRows(|z|, FirstRow(m, n), d)
    && forall i': nat, j': nat :: i' < m && j' < d && (i' < i || (i' == i && j' < j)) ==>
         ScannedIn(v, w, z, m, n, d, i', j')
  }

  ghost predicate ScannedIn(v: Verb, w: seq<int>, z: seq<int>, m: nat, n: nat, d: nat, i: nat, j: nat)
    requires HasRows(|w|, FirstRow(m, n), d) && i < m && j < d
  {
    RowsOfTable(i, m, n);
    ColumnScanned(v, w, z, FirstRow(m, n), n, d, FirstRow(i, n), j)
  }

  /** Some entry of some column does not fit. */
  ghost predicate SomeOverflows(v: Verb, w: seq<int>, m: nat, n: nat, d: nat)
    requires HasRows(|w|, FirstRow(m, n), d)
  {
    exists i: nat, j: nat :: i < m && j < d && OverflowsIn(v, w, m, n, d, i, j)
  }

  ghost predicate OverflowsIn(v: Verb, w: seq<int>, m: nat, n: nat, d: nat, i: nat, j: nat)
    requires HasRows(|w|, FirstRow(m, n), d) && i < m && j < d
  {
    RowsOfTable(i, m, n);
    PrefixOverflows(v, Line(w, FirstRow(m, n), d, FirstRow(i, n), n, j), n)
  }

  lemma NothingScanned(v: Verb, w: seq<int>, z: seq<int>, m: nat, n: nat, d: nat)
    requires HasRows(|w|, FirstRow(m, n), d) && HasRows(|z|, FirstRow(m, n), d)
    ensures AllScanned(v, w, z, m, n, d, 0, 0)
  {
  }

  lemma ScannedBounds(v: Verb, w: seq<int>, z: seq<int>, m: nat, n: nat, d: nat, i: nat, j: nat)
    requires AllScanned(v, w, z, m, n, d, i, j)
    ensures HasRows(|w|, FirstRow(m, n), d) && HasRows(|z|, FirstRow(m, n), d)
  {
  }

  /** A column that was scanned before stays. */
  lemma ColumnKept(v: Verb, w: seq<int>, z: seq<int>, z': seq<int>, s: seq<int>, rows: nat, n: nat, d: nat, r: nat, j: nat,
      r': nat, j': nat)
    requires HasRows(|w|, rows, d) && r + n <= rows && j < d && r' + n <= rows && j' < d && |s| == n
    requires ColumnScanned(v, w, z, rows, n, d, r', j') && LineDone(v, s, z', z, rows, d, r, j, n)
    requires j' != j || r' + n <= r || r + n <= r'
    ensures ColumnScanned(v, w, z', rows, n, d, r', j')
  {
    hide InsertFrom, Exact, Line, PrefixOverflows, Spot, LineSpot, HasRows;
    forall h: nat | h < n ensures LineSpot(r', h, d, j') < |z'| && z'[LineSpot(r', h, d, j')] == z[LineSpot(r', h, d, j')] {
      assert LineSpot(r', h, d, j') == Spot(r' + h, d, j');
    }
  }

  lemma ColumnNew(v: Verb, w: seq<int>, z: seq<int>, z': seq<int>, rows: nat, n: nat, d: nat, r: nat, j: nat)
    requires HasRows(|w|, rows, d) && r + n <= rows && j < d
    requires LineDone(v, Line(w, rows, d, r, n, j), z', z, rows, d, r, j, n) && !PrefixOverflows(v, Line(w, rows, d, r, n, j), n)
    ensures ColumnScanned(v, w, z', rows, n, d, r, j)
  {
    hide InsertFrom, Exact, Line, PrefixOverflows, Spot, LineSpot, HasRows;
  }

  lemma TablesApart(i: nat, i': nat, n: nat)
    ensures i < i' ==> FirstRow(i, n) + n <= FirstRow(i', n)
  {
    if i < i' {
      RoomForOne(i, i', n);
    }
  }

  lemma LineLong(v: Verb, s: seq<int>, z: seq<int>, z0: seq<int>, rows: nat, d: nat, r: nat, j: nat, k: nat)
    requires LineDone(v, s, z, z0, rows, d, r, j, k)
    ensures HasRows(|z|, rows, d) && |z| == |z0| && TailKept(z, z0, rows, d)
  {
  }

  lemma ScannedStep(v: Verb, w: seq<int>, z: seq<int>, z': seq<int>, m: nat, n: nat, d: nat, i: nat, j: nat)
    requires AllScanned(v, w, z, m, n, d, i, j) && HasRows(|w|, FirstRow(m, n), d) && i < m && j < d
    requires FirstRow(i, n) + n <= FirstRow(m, n)
    requires var s := Line(w, FirstRow(m, n), d, FirstRow(i, n), n, j);
             LineDone(v, s, z', z, FirstRow(m, n), d, FirstRow(i, n), j, n) && !PrefixOverflows(v, s, n)
    ensures AllScanned(v, w, z', m, n, d, i, j + 1)
  {
    hide *;
    var rows, r := FirstRow(m, n), FirstRow(i, n);
    var s := Line(w, rows, d, r, n, j);
    LineLong(v, s, z', z, rows, d, r, j, n);
    forall i': nat, j': nat | i' < m && j' < d && (i' < i || (i' == i && j' < j + 1))
      ensures ScannedIn(v, w, z', m, n, d, i', j')
    {
      RowsOfTable(i', m, n);
      ScannedInIs(v, w, z', m, n, d, i', j');
      if i' == i && j' == j {
        ColumnNew(v, w, z, z', rows, n, d, r, j);
      } else {
        AllScannedAt(v, w, z, m, n, d, i, j, i', j');
        ScannedInIs(v, w, z, m, n, d, i', j');
        TablesApart(i', i, n);
        ColumnKept(v, w, z, z', s, rows, n, d, r, j, FirstRow(i', n), j');
      }
    }
    AllScannedIf(v, w, z', m, n, d, i, j + 1);
  }

  lemma AllScannedIf(v: Verb, w: seq<int>, z: seq<int>, m: nat, n: nat, d: nat, i: nat, j: nat)
    requires HasRows(|w|, FirstRow(m, n), d) && HasRows(|z|, FirstRow(m, n), d)
    requires forall i': nat, j': nat :: i' < m && j' < d && (i' < i || (i' == i && j' < j)) ==>
               ScannedIn(v, w, z, m, n, d, i', j')
    ensures AllScanned(v, w, z, m, n, d, i, j)
  {
  }

  lemma AllScannedAt(v: Verb, w: seq<int>, z: seq<int>, m: nat, n: nat, d: nat, i: nat, j: nat, i': nat, j': nat)
    requires AllScanned(v, w, z, m, n, d, i, j) && i' < m && j' < d && (i' < i || (i' == i && j' < j))
    ensures HasRows(|w|, FirstRow(m, n), d) && ScannedIn(v, w, z, m, n, d, i', j')
  {
  }

  lemma ScannedInIs(v: Verb, w: seq<int>, z: seq<int>, m: nat, n: nat, d: nat, i: nat, j: nat)
    requires HasRows(|w|, FirstRow(m, n), d) && i < m && j < d && FirstRow(i, n) + n <= FirstRow(m, n)
    ensures ScannedIn(v, w, z, m, n, d, i, j) <==> ColumnScanned(v, w, z, FirstRow(m, n), n, d, FirstRow(i, n), j)
    ensures OverflowsIn(v, w, m, n, d, i, j) <==> PrefixOverflows(v, Line(w, FirstRow(m, n), d, FirstRow(i, n), n, j), n)
    ensures ScannedIn(v, w, z, m, n, d, i, j) ==> !OverflowsIn(v, w, m, n, d, i, j)
  {
    hide Line, PrefixOverflows;
  }

  lemma ScannedTable(v: Verb, w: seq<int>, z: seq<int>, m: nat, n: nat, d: nat, i: nat)
    requires AllScanned(v, w, z, m, n, d, i, d)
    ensures AllScanned(v, w, z, m, n, d, i + 1, 0)
  {
    hide ScannedIn;
  }

  lemma OverflowHere(v: Verb, w: seq<int>, m: nat, n: nat, d: nat, i: nat, j: nat)
    requires HasRows(|w|, FirstRow(m, n), d) && i < m && j < d && OverflowsIn(v, w, m, n, d, i, j)
    ensures SomeOverflows(v, w, m, n, d)
  {
    hide OverflowsIn;
  }

  /** If all columns have been scanned, nothing overflows. */
  lemma AllFit(v: Verb, w: seq<int>, z: seq<int>, m: nat, n: nat, d: nat)
    requires AllScanned(v, w, z, m, n, d, m, 0)
    ensures HasRows(|w|, FirstRow(m, n), d) && !SomeOverflows(v, w, m, n, d)
  {
    forall i: nat, j: nat | i < m && j < d ensures !OverflowsIn(v, w, m, n, d, i, j) {
      RowsOfTable(i, m, n);
      ScannedInIs(v, w, z, m, n, d, i, j);
    }
    hide OverflowsIn, ScannedIn;
  }

  /** How far the pointer has come after a column. */
  function Travel(n: nat, d: nat): (s: nat)
    ensures s == 4 * d * Passes(n) && s == n * d + Backoff(n) * d
  {
    TravelIs(Passes(n), n, Backoff(n), d);
    4 * d * Passes(n)
  }

  lemma TravelIs(q: nat, n: nat, b: nat, d: nat)
    requires 4 * q == n + b || (q == Passes(n) && b == Backoff(n))
    ensures 4 * d * q >= 0 && 4 * d * q == n * d + b * d
  {
    PassesIs(n);
    hide *;
    Distribute(n, b, d);
    Exchange(q, d);
    TimesMonotone(0, 4 * q, d);
  }

  lemma Distribute(a: int, b: int, d: int)
    ensures (a + b) * d == a * d + b * d
  {
  }

  lemma Exchange(q: int, d: int)
    ensures 4 * d * q == (4 * q) * d
  {
  }

  lemma PointsIs(x: int, lane: nat, k: nat, d: nat, r: nat, j: nat)
    ensures PointsAt(x, lane, k, d, r, j) <==> x + lane * d == (r + k) * d + j
  {
  }

  /** Where the pointer is for the first column of a table, and for the next column of the same one. */
  lemma PointsFirst(n: nat, d: nat, r: nat)
    ensures PointsAt(Spot(r, d, 0) - Backoff(n) * d, Backoff(n), 0, d, r, 0)
  {
    hide *;
    PointsIs(Spot(r, d, 0) - Backoff(n) * d, Backoff(n), 0, d, r, 0);
  }

  lemma PointsBack(x: int, n: nat, d: nat, r: nat, j: nat)
    requires PointsAt(x, 0, n, d, r, j)
    ensures PointsAt(x - Travel(n, d) + 1, Backoff(n), 0, d, r, j + 1)
  {
    hide *;
    PointsIs(x, 0, n, d, r, j);
    PointsIs(x - Travel(n, d) + 1, Backoff(n), 0, d, r, j + 1);
    Distribute(r, n, d);
  }

  lemma PointsDown(x: int, n: nat, d: nat, r: nat)
    requires 0 < n && PointsAt(x, Backoff(n), 0, d, r, d)
    ensures PointsAt(x + (n - 1) * d, Backoff(n), 0, d, r + n, 0)
  {
    hide *;
    PointsIs(x, Backoff(n), 0, d, r, d);
    PointsIs(x + (n - 1) * d, Backoff(n), 0, d, r + n, 0);
    OneMoreTimes(n - 1, d);
    Distribute(r, n, d);
  }

  /** v\ of m tables of n rows and d columns: overflow is signalled exactly if an entry of the scan of some
      column does not fit. */
  method PrefixTables(v: Verb, w: seq<int>, z: array<int>, m: nat, n: nat, d: nat) returns (ok: bool)
    requires 0 < n && 0 < d && HasRows(|w|, FirstRow(m, n), d) && HasRows(z.Length, FirstRow(m, n), d)
    modifies z
    ensures ok <==> !SomeOverflows(v, w, m, n, d)
    ensures TailKept(z[..], old(z[..]), FirstRow(m, n), d)
    ensures ok ==> AllScanned(v, w, z[..], m, n, d, m, 0)
  {
    hide *;
    ghost var rows, z0 := FirstRow(m, n), z[..];
    TailSame(z0, rows, d);
    NothingScanned(v, w, z[..], m, n, d);
    PointsFirst(n, d, 0);
    var x := 0 - Backoff(n) * d;
    for i := 0 to m
      invariant PointsAt(x, Backoff(n), 0, d, FirstRow(i, n), 0) && AllScanned(v, w, z[..], m, n, d, i, 0)
      invariant TailKept(z[..], z0, rows, d)
    {
      ghost var r := FirstRow(i, n);
      RowsOfTable(i, m, n);
      for j := 0 to d
        invariant PointsAt(x, Backoff(n), 0, d, r, j) && AllScanned(v, w, z[..], m, n, d, i, j)
        invariant TailKept(z[..], z0, rows, d)
      {
        ghost var z1 := z[..];
        ok, x := ScanLine(v, w, z, n, d, x, rows, r, j);
        TailBoth(z[..], z1, z0, rows, d);
        ScannedInIs(v, w, z1, m, n, d, i, j);
        if !ok {
          OverflowHere(v, w, m, n, d, i, j);
          return;
        }
        ScannedStep(v, w, z1, z[..], m, n, d, i, j);
        PointsBack(x, n, d, r, j);
        x := x - Travel(n, d) + 1;
      }
      ScannedTable(v, w, z[..], m, n, d, i);
      PointsDown(x, n, d, r);
      x := x + (n - 1) * d;
    }
    AllFit(v, w, z[..], m, n, d);
    ok := true;
  }
}
