/** Sums of the columns of a Boolean table, eight columns at a time: a word has a count in each of its
    bytes, and is emptied before a count can pass 255. */
module LaneSums {
  import opened Arith

  const WORD: nat := 0x1_0000_0000_0000_0000

  /** The bytes of a word from the lowest on are c. */
  ghost predicate Lanes(x: nat, c: seq<nat>) {
    c == [] || (x % 256 == c[0] && Lanes(x / 256, c[1..]))
  }

  /** A word made of bytes. */
  function Word(c: seq<nat>): nat {
    if c == [] then 0 else c[0] + 256 * Word(c[1..])
  }

  ghost predicate Bytes(c: seq<nat>) {
    forall i :: 0 <= i < |c| ==> c[i] < 256
  }

  function Power(k: nat): (p: nat)
    ensures p > 0
  {
    if k == 0 then 1 else 256 * Power(k - 1)
  }

  lemma {:induction false} WordLanes(c: seq<nat>, v: nat)
    requires Bytes(c) && v <= |c|
    ensures Lanes(Word(c), c[..v])
  {
    if v > 0 {
      WordLanes(c[1..], v - 1);
      ModuloIs(Word(c), 256, Word(c[1..]), c[0]);
      assert c[..v][1..] == c[1..][..v - 1];
    }
  }

  /** Bytes add without carry as long as no sum passes 255. */
  lemma {:induction false} LanesAdd(x: nat, y: nat, c: seq<nat>, b: seq<nat>, s: seq<nat>)
    requires Lanes(x, c) && Lanes(y, b) && |c| == |b| == |s|
    requires forall i :: 0 <= i < |c| ==> s[i] == c[i] + b[i] < 256
    ensures Lanes(x + y, s)
  {
    if c != [] {
      LanesAdd(x / 256, y / 256, c[1..], b[1..], s[1..]);
      Division(x, 256);
      Division(y, 256);
      ModuloIs(x + y, 256, x / 256 + y / 256, s[0]);
    }
  }

  /** What is lost at the top of a word does not change the bytes in it. */
  lemma {:induction false} LanesOfRest(x: nat, c: seq<nat>, k: nat)
    requires Lanes(x, c) && |c| <= k
    ensures Lanes(x % Power(k), c)
  {
    if c != [] {
      LanesOfRest(x / 256, c[1..], k - 1);
      RestParts(x, k);
    }
  }

  lemma RestParts(x: nat, k: nat)
    requires k > 0
    ensures x % Power(k) % 256 == x % 256 && x % Power(k) / 256 == x / 256 % Power(k - 1)
  {
    var p, q, r := Power(k - 1), x / 256, x % 256;
    Division(x, 256);
    Division(q, p);
    var u, v := q / p, q % p;
    assert x == u * (256 * p) + (256 * v + r) by {
      TimesAssociative(u, 256, p);
      assert u * 256 == 256 * u;
      TimesAssociative(256, u, p);
    }
    ModuloIs(x, 256 * p, u, 256 * v + r);
    ModuloIs(256 * v + r, 256, v, r);
  }

  lemma WordIsPower()
    ensures Power(8) == WORD
  {
    assert Power(2) == 256 * 256;
    assert Power(4) == 256 * (256 * Power(2));
    assert Power(6) == 256 * (256 * Power(4));
    assert Power(8) == 256 * (256 * Power(6));
  }

  // ---- The table.

  /** How many of rows s to e-1 of column j are true. */
  function Count(x: seq<nat>, d: nat, j: nat, s: nat, e: nat): nat
    requires s <= e && j < d && e * d <= |x|
  {
    if s == e then 0 else RoomForOne(e - 1, e, d); Count(x, d, j, s, e - 1) + x[(e - 1) * d + j]
  }

  /** A table of n rows and d columns of Booleans, in bytes, with at least 7 more bytes after it. */
  ghost predicate Table(x: seq<nat>, n: nat, d: nat) {
    && n * d + 7 <= |x| && Bytes(x)
    && forall p: nat :: p < n * d ==> x[p] <= 1
  }

  /** The counts of v columns from j on, for rows s to e-1. */
  function Counts(x: seq<nat>, d: nat, j: nat, v: nat, s: nat, e: nat): (c: seq<nat>)
    requires s <= e && j + v <= d && e * d <= |x|
    ensures |c| == v && forall i :: 0 <= i < v ==> c[i] == Count(x, d, j + i, s, e)
  {
    seq(v, i requires 0 <= i < v && s <= e && j + v <= d && e * d <= |x| => ColumnCount(x, d, j, i, s, e))
  }

  function ColumnCount(x: seq<nat>, d: nat, j: nat, i: nat, s: nat, e: nat): (c: nat)
    requires s <= e && j + i < d && e * d <= |x|
    ensures c == Count(x, d, j + i, s, e)
  {
    Count(x, d, j + i, s, e)
  }

  lemma {:induction false} CountBound(x: seq<nat>, n: nat, d: nat, j: nat, s: nat, e: nat)
    requires Table(x, n, d) && s <= e <= n && j < d
    ensures e * d <= |x| && Count(x, d, j, s, e) <= e - s
  {
    TimesMonotone(e, n, d);
    if s < e {
      CountBound(x, n, d, j, s, e - 1);
      RoomForOne(e - 1, n, d);
    }
  }

  lemma {:induction false} CountJoins(x: seq<nat>, d: nat, j: nat, s: nat, l: nat, e: nat)
    requires s <= l <= e && j < d && e * d <= |x| && l * d <= |x|
    ensures Count(x, d, j, s, e) == Count(x, d, j, s, l) + Count(x, d, j, l, e)
  {
    if l < e {
      RoomForOne(e - 1, e, d);
      CountJoins(x, d, j, s, l, e - 1);
    }
  }

  lemma CountMore(x: seq<nat>, d: nat, j: nat, s: nat, e: nat)
    requires s <= e && j < d && (e + 1) * d <= |x|
    ensures e * d + j < |x| && e * d <= |x| && Count(x, d, j, s, e + 1) == Count(x, d, j, s, e) + x[e * d + j]
  {
    RoomForOne(e, e + 1, d);
  }

  lemma RowsFit(x: seq<nat>, n: nat, d: nat, e: nat)
    requires Table(x, n, d) && e < n
    ensures e * d + d <= n * d && (e + 1) * d == e * d + d && e * d + d + 7 <= |x|
  {
    RoomForOne(e, n, d);
    OneMoreTimes(e, d);
  }

  /** The bytes of a word at row e and column j. */
  function RowBytes(x: seq<nat>, d: nat, e: nat, j: nat): (c: seq<nat>)
    requires 0 <= e * d && e * d + j + 8 <= |x|
    ensures |c| == 8 && forall i :: 0 <= i < 8 ==> c[i] == x[e * d + j + i]
  {
    x[e * d + j..e * d + j + 8]
  }

  /** One more row: the word at its place, some of whose bytes may be beyond the row, is added. */
  lemma AddRow(x: seq<nat>, n: nat, d: nat, j: nat, v: nat, s: nat, e: nat, acc: nat)
    requires Table(x, n, d) && s <= e < n && e - s < 255 && j < d && j + v <= d && v <= 8
    requires e * d <= |x| && Lanes(acc, Counts(x, d, j, v, s, e))
    ensures 0 <= e * d && e * d + j + 8 <= |x| && (e + 1) * d <= |x|
    ensures Lanes((acc + Word(RowBytes(x, d, e, j))) % WORD, Counts(x, d, j, v, s, e + 1))
  {
    hide *;
    RowsFit(x, n, d, e);
    var w, c, c' := RowBytes(x, d, e, j), Counts(x, d, j, v, s, e), Counts(x, d, j, v, s, e + 1);
    AreBytes(x, n, d, w, e * d + j);
    WordLanes(w, v);
    forall i | 0 <= i < v ensures c'[i] == c[i] + w[..v][i] < 256 {
      OneCount(x, n, d, j + i, s, e);
    }
    LanesAdd(acc, Word(w), c, w[..v], c');
    LanesOfRest(acc + Word(w), c', 8);
    WordIsPower();
  }

  lemma AreBytes(x: seq<nat>, n: nat, d: nat, w: seq<nat>, p: nat)
    requires Table(x, n, d) && p + |w| <= |x| && forall i :: 0 <= i < |w| ==> w[i] == x[p + i]
    ensures Bytes(w)
  {
  }

  lemma OneCount(x: seq<nat>, n: nat, d: nat, j: nat, s: nat, e: nat)
    requires Table(x, n, d) && s <= e < n && e - s < 255 && j < d && e * d <= |x| && (e + 1) * d <= |x|
    ensures e * d + j < |x| && Count(x, d, j, s, e + 1) == Count(x, d, j, s, e) + x[e * d + j] < 256
  {
    hide *;
    CountMore(x, d, j, s, e);
    CountBound(x, n, d, j, s, e + 1);
  }

  lemma NoCounts(x: seq<nat>, n: nat, d: nat, j: nat, v: nat, s: nat)
    requires Table(x, n, d) && s <= n && j + v <= d && v <= 8
    ensures s * d <= |x| && Lanes(0, Counts(x, d, j, v, s, s))
  {
    TimesMonotone(s, n, d);
    ZeroLanes(Counts(x, d, j, v, s, s));
  }

  lemma {:induction false} ZeroLanes(c: seq<nat>)
    requires forall i :: 0 <= i < |c| ==> c[i] == 0
    ensures Lanes(0, c)
  {
    if c != [] {
      ZeroLanes(c[1..]);
    }
  }

  /** The byte at the bottom, and the word without it. */
  lemma NextLane(x: nat, c: seq<nat>, i: nat)
    requires i < |c| && Lanes(x, c[i..])
    ensures x % 256 == c[i] && Lanes(x / 256, c[i + 1..])
  {
    assert c[i..][1..] == c[i + 1..];
  }

  /** Add up at most 255 rows of one swath in one word. */
  method AddRows(x: seq<nat>, d: nat, j: nat, s: nat, loops: nat, ghost n: nat, ghost v: nat) returns (acc: nat)
    requires Table(x, n, d) && s + loops <= n && loops <= 255 && j < d && j + v <= d && v <= 8
    ensures (s + loops) * d <= |x| && Lanes(acc, Counts(x, d, j, v, s, s + loops))
  {
    hide *;
    acc := 0;
    NoCounts(x, n, d, j, v, s);
    var e := s;
    while e < s + loops
      invariant s <= e <= s + loops && e * d <= |x| && Lanes(acc, Counts(x, d, j, v, s, e))
    {
      AddRow(x, n, d, j, v, s, e, acc);
      WordIsPower();
      acc := (acc + Word(RowBytes(x, d, e, j))) % WORD;
      e := e + 1;
    }
  }

  /** Add the bytes of a word to eight counters. */
  method Spread(acc: nat, totals: seq<nat>, ghost c: seq<nat>) returns (r: seq<nat>)
    requires |totals| == 8 && |c| <= 8 && Lanes(acc, c)
    ensures |r| == 8 && forall i :: 0 <= i < |c| ==> r[i] == totals[i] + c[i]
  {
    hide *;
    r := totals;
    var y := acc;
    assert c[0..] == c;
    for i := 0 to 8
      invariant |r| == 8 && (i <= |c| ==> Lanes(y, c[i..]))
      invariant forall l :: 0 <= l < |c| ==> r[l] == totals[l] + if l < i then c[l] else 0
    {
      if i < |c| {
        NextLane(y, c, i);
      }
      r := r[i := r[i] + y % 256];
      y := y / 256;
    }
  }

  /** The totals of the columns of one swath. */
  method Swath(x: seq<nat>, n: nat, d: nat, j: nat, ghost v: nat) returns (totals: seq<nat>)
    requires Table(x, n, d) && j < d && j + v <= d && v <= 8
    ensures n * d <= |x| && |totals| == 8 && forall i: nat :: i < v ==> totals[i] == Count(x, d, j + i, 0, n)
  {
    hide *;
    totals := seq(8, _ => 0);
    TableFits(x, n, d);
    ghost var e := 0;
    var nn := n;
    CountNone(x, d);
    while nn > 0
      invariant 0 <= nn <= n && e == n - nn && 0 <= e * d <= |x| && |totals| == 8
      invariant forall i: nat :: i < v ==> totals[i] == Count(x, d, j + i, 0, e)
    {
      var loops := if nn > 255 then 255 else nn;
      var acc := AddRows(x, d, j, n - nn, loops, n, v);
      ghost var c := Counts(x, d, j, v, e, e + loops);
      TimesMonotone(0, e + loops, d);
      forall i: nat | i < v ensures Count(x, d, j + i, 0, e + loops) == Count(x, d, j + i, 0, e) + c[i] {
        CountJoins(x, d, j + i, 0, e, e + loops);
      }
      totals := Spread(acc, totals, c);
      nn := nn - loops;
      e := e + loops;
    }
  }

  lemma TableFits(x: seq<nat>, n: nat, d: nat)
    requires Table(x, n, d)
    ensures 0 * d == 0 && 0 <= n * d <= |x|
  {
    TimesMonotone(0, n, d);
  }

  lemma CountNone(x: seq<nat>, d: nat)
    ensures 0 * d <= |x| && forall j: nat :: j < d ==> Count(x, d, j, 0, 0) == 0
  {
  }

  /** +/ of a Boolean table of at least two columns: each total is the number of ones in its column. */
  method ColumnSums(x: seq<nat>, n: nat, d: nat) returns (z: array<nat>)
    requires Table(x, n, d)
    ensures z.Length == d && n * d <= |x| && forall j: nat :: j < d ==> z[j] == Count(x, d, j, 0, n)
  {
    hide *;
    TableFits(x, n, d);
    z := new nat[d];
    var dd := d;
    while dd > 0
      invariant 0 <= dd && (dd > 0 ==> dd <= d)
      invariant forall j: nat :: j < d - dd && j < d ==> z[j] == Count(x, d, j, 0, n)
    {
      var j := d - dd;
      var v := if dd < 8 then dd else 8;
      var totals := Swath(x, n, d, j, v);
      for i := 0 to v
        invariant forall l: nat :: l < j + i ==> z[l] == Count(x, d, l, 0, n)
      {
        assert totals[i] == Count(x, d, j + i, 0, n);
        z[j + i] := totals[i];
      }
      dd := if dd < 8 then 0 else dd - 8;
    }
  }
}
