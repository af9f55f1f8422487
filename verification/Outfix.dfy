/** Infixes and outfixes: a verb on every window of a list, and on what is left when a window is taken
    out.  For an insert there are two fast forms of the outfix. */
module Outfix {
  import opened Arith
  import opened Wrappers

  const IMAX: int := 0x7fff_ffff_ffff_ffff
  const IMIN: int := -0x8000_0000_0000_0000

  ghost predicate Fits(x: int) {
    IMIN <= x <= IMAX
  }

  // ---- The windows that a length selects.

  /** The length of the windows.  The least number has no positive counterpart. */
  function Magnitude(k: int): (p: nat)
    ensures k < 0 ==> 0 < p
    ensures k != IMIN ==> p == k || p == 0 - k
    ensures k == IMIN ==> p == IMAX
  {
    if k == IMIN then IMAX else if k < 0 then -k else k
  }

  /** The number of windows in n items: they overlap if the length is positive, if it is negative they
      follow each other. */
  function Windows(k: int, n: nat): nat {
    var p := Magnitude(k);
    if k < 0 then (n + p - 1) / p else if k <= n then 1 + n - k else 0
  }

  function Start(k: int, t: nat): nat {
    if k < 0 then t * Magnitude(k) else t
  }

  function Stop(k: int, n: nat, t: nat): nat {
    if Start(k, t) + Magnitude(k) <= n then Start(k, t) + Magnitude(k) else n
  }

  /** Every window has items, or is as long as it should be. */
  lemma WindowBounds(k: int, n: nat, t: nat)
    requires t < Windows(k, n)
    ensures Start(k, t) <= Stop(k, n, t) <= n
    ensures k < 0 ==> Start(k, t) < n
    ensures k >= 0 ==> Stop(k, n, t) == t + k
  {
    if k < 0 {
      var p := Magnitude(k);
      Division(n + p - 1, p);
      RoomForOne(t, (n + p - 1) / p, p);
    }
  }

  /** There is a window t exactly if it starts within the list, or fits into it; it has p items from
      item t, or from item t * p, or as many as there are. */
  lemma WindowIff(k: int, p: nat, n: nat, t: nat)
    requires p == Magnitude(k)
    ensures t < Windows(k, n) <==> if k < 0 then t * p < n else t + p <= n
    ensures k < 0 ==> Start(k, t) == t * p && (Stop(k, n, t) == t * p + p || Stop(k, n, t) == n)
    ensures k < 0 ==> Stop(k, n, t) <= n && Stop(k, n, t) <= t * p + p
    ensures k >= 0 && t + p <= n ==> Start(k, t) == t && Stop(k, n, t) == t + p
  {
    if k < 0 {
      Division(n + p - 1, p);
      var c := Windows(k, n);
      if t < c {
        RoomForOne(t, c, p);
      } else {
        TimesMonotone(c, t, p);
      }
    }
  }

  /** Only the last window can be short, and it ends with the list. */
  lemma WindowFull(k: int, n: nat, t: nat)
    requires t + 1 < Windows(k, n)
    ensures Stop(k, n, t) == Start(k, t) + Magnitude(k) <= n
  {
    WindowBounds(k, n, t + 1);
    OneMoreTimes(t, Magnitude(k));
  }

  lemma LastWindow(k: int, n: nat)
    requires 0 < Windows(k, n)
    ensures Stop(k, n, Windows(k, n) - 1) == n
  {
    if k < 0 {
      var p := Magnitude(k);
      var c := Windows(k, n);
      Division(n + p - 1, p);
      OneMoreTimes(c - 1, p);
    }
  }

  /** The number of windows, counted from the last item. */
  lemma WindowsByQuotient(k: int, n: nat)
    requires k < 0 < n
    ensures Windows(k, n) == 1 + (n - 1) / Magnitude(k)
  {
    var p := Magnitude(k);
    Division(n - 1, p);
    OneMoreTimes((n - 1) / p, p);
    ModuloIs(n + p - 1, p, (n - 1) / p + 1, (n - 1) % p);
  }

  // ---- Infixes.

  /** The first c results are u on the first c windows. */
  ghost predicate OnWindows<T, R>(u: seq<T> -> R, w: seq<T>, k: int, z: seq<R>, c: nat) {
    && c <= Windows(k, |w|) && c <= |z|
    && forall t: nat :: t < c ==> z[t] == OnWindow(u, w, k, t)
  }

  function OnWindow<T, R>(u: seq<T> -> R, w: seq<T>, k: int, t: nat): R
    requires t < Windows(k, |w|)
  {
    WindowBounds(k, |w|, t);
    u(w[Start(k, t)..Stop(k, |w|, t)])
  }

  lemma OnWindowsStep<T, R>(u: seq<T> -> R, w: seq<T>, k: int, z: seq<R>, c: nat, x: R)
    requires |z| == c && OnWindows(u, w, k, z, c) && c < Windows(k, |w|) && x == OnWindow(u, w, k, c)
    ensures OnWindows(u, w, k, z + [x], c + 1)
  {
    hide OnWindow, Windows;
  }

  /** Where the loop over the windows is: window t is w[at..at + len], and so much is left to do. */
  ghost predicate AtWindow(k: int, n: nat, t: nat, at: nat, len: nat, remlen: int) {
    && t < Windows(k, n) && at == Start(k, t) && at + len == Stop(k, n, t)
    && remlen == if k < 0 then n - at else Windows(k, n) - t
  }

  lemma AtFirst(k: int, n: nat)
    requires 0 < Windows(k, n)
    ensures AtWindow(k, n, 0, 0, if Magnitude(k) < n then Magnitude(k) else n, if k < 0 then n else Windows(k, n))
  {
    WindowBounds(k, n, 0);
  }

  /** The next window, or the end; the length changes only where the list ends. */
  lemma AtNext(k: int, n: nat, t: nat, at: nat, len: nat, remlen: int)
    requires AtWindow(k, n, t, at, len, remlen)
    ensures var p := Magnitude(k);
            var stride := if k < 0 then p else 1;
            var left := remlen - stride;
            var len' := len + if left - stride < 0 then left - stride else 0;
            && (left <= 0 <==> t + 1 == Windows(k, n))
            && (left > 0 ==> len == p && len' >= 0 && AtWindow(k, n, t + 1, at + stride, len', left))
  {
    OneMoreTimes(t, Magnitude(k));
    if t + 1 < Windows(k, n) {
      WindowFull(k, n, t);
      WindowBounds(k, n, t + 1);
    } else {
      LastWindow(k, n);
    }
    hide Windows;
  }

  lemma NoWindows<T, R>(u: seq<T> -> R, w: seq<T>, k: int)
    ensures OnWindows(u, w, k, [], 0)
  {
  }

  lemma OnWindowIs<T, R>(u: seq<T> -> R, w: seq<T>, k: int, t: nat, at: nat, len: nat, remlen: int)
    requires AtWindow(k, |w|, t, at, len, remlen)
    ensures t < Windows(k, |w|) && at + len <= |w| && OnWindow(u, w, k, t) == u(w[at..at + len])
  {
    WindowBounds(k, |w|, t);
  }

  /** k u\ w */
  method Infix<T, R>(u: seq<T> -> R, w: seq<T>, k: int) returns (z: seq<R>)
    requires Fits(k) && |w| <= IMAX
    ensures |z| == Windows(k, |w|) && OnWindows(u, w, k, z, |z|)
  {
    hide *;
    var p := Magnitude(k);
    var count := InfixCount(k, |w|);
    var stride := if k < 0 then p else 1;
    var remlen := if k < 0 then |w| else count;
    z := [];
    NoWindows(u, w, k);
    if count <= 0 { return; }
    var at: nat, len: nat := 0, if p < |w| then p else |w|;
    AtFirst(k, |w|);
    while true
      invariant AtWindow(k, |w|, |z|, at, len, remlen) && OnWindows(u, w, k, z, |z|)
      decreases remlen
    {
      OnWindowIs(u, w, k, |z|, at, len, remlen);
      var x := u(w[at..at + len]);
      OnWindowsStep(u, w, k, z, |z|, x);
      AtNext(k, |w|, |z|, at, len, remlen);
      z := z + [x];
      remlen := remlen - stride;
      if remlen <= 0 { break; }
      at := at + stride;
      if remlen - stride < 0 {
        len := len + (remlen - stride);
      }
    }
  }

  /** The number of windows as the loop computes it. */
  method InfixCount(k: int, n: nat) returns (count: int)
    requires Fits(k)
    ensures count > 0 ==> count == Windows(k, n)
    ensures count <= 0 ==> Windows(k, n) == 0
  {
    if k >= 0 {
      count := 1 + n - k;
    } else {
      if n > 0 {
        WindowsByQuotient(k, n);
        count := 1 + (n - 1) / Magnitude(k);
      } else {
        count := 0;
        NoneOfNone(k);
      }
    }
  }

  lemma NoneOfNone(k: int)
    requires k < 0
    ensures Windows(k, 0) == 0
  {
    ModuloIs(Magnitude(k) - 1, Magnitude(k), 0, Magnitude(k) - 1);
  }

  /** The table of starts and lengths that the older infix makes. */
  method InfixTable(k: int, n: nat) returns (z: seq<(int, int)>)
    requires Fits(k)
    ensures |z| == Windows(k, n)
    ensures forall t: nat :: t < |z| ==> z[t] == (Start(k, t), Stop(k, n, t) - Start(k, t))
  {
    var p := Magnitude(k);
    var count := InfixCount(k, n);
    var d := if count < 0 then 0 else count;
    var stride := if k < 0 then p else 1;
    var j := -stride;
    z := [];
    while |z| < d
      invariant |z| <= d && d == Windows(k, n)
      invariant j == if |z| == 0 then -stride else Start(k, |z| - 1)
      invariant forall t: nat :: t < |z| ==> z[t] == (Start(k, t), p)
    {
      StartStep(k, |z|);
      j := j + stride;
      z := z + [(j, p)];
    }
    if d > 0 {
      z := z[d - 1 := (j, if p < n - j then p else n - j)];
    }
    forall t: nat | t < d ensures Start(k, t) <= n && (t < d - 1 ==> Stop(k, n, t) == Start(k, t) + p) {
      WindowBounds(k, n, t);
      if t < d - 1 {
        WindowFull(k, n, t);
      }
    }
  }

  lemma StartStep(k: int, t: nat)
    ensures Start(k, 0) == 0 && Start(k, t + 1) == Start(k, t) + if k < 0 then Magnitude(k) else 1
    ensures t > 0 ==> Start(k, t) == Start(k, t - 1) + if k < 0 then Magnitude(k) else 1
  {
    OneMoreTimes(t, Magnitude(k));
    if t > 0 {
      OneMoreTimes(t - 1, Magnitude(k));
    }
  }

  // ---- Outfixes by the definition.

  /** What is left without window t. */
  function Kept<T>(k: int, w: seq<T>, t: nat): (r: seq<T>)
    requires t < Windows(k, |w|)
  {
    WindowBounds(k, |w|, t);
    w[..Start(k, t)] + w[Stop(k, |w|, t)..]
  }

  /** 64-bit arithmetic as it wraps, and division as it truncates. */
  function Wrap(x: int): int {
    (x - IMIN) % 0x1_0000_0000_0000_0000 + IMIN
  }

  function Truncated(x: int, y: nat): int
    requires y > 0
  {
    if x < 0 then -(-x / y) else x / y
  }

  /** The number of rows of the mask. */
  function MaskRows(k: int, n: nat): int {
    if k < 0 then Truncated(Wrap(n + Magnitude(k) - 1), Magnitude(k))
    else if 0 < 1 + n - k then 1 + n - k else 0
  }

  /** There is a row for every window, exactly unless the sum for rounding up leaves 64 bits. */
  lemma MaskRowsRight(k: int, n: nat)
    requires Fits(k) && n <= IMAX
    ensures MaskRows(k, n) == Windows(k, n) <==> k >= 0 || n + Magnitude(k) - 1 <= IMAX
    ensures MaskRows(k, n) <= Windows(k, n)
  {
    if k < 0 {
      var p := Magnitude(k);
      if n + p - 1 <= IMAX {
        ModuloIs(n + p - 1 - IMIN, 0x1_0000_0000_0000_0000, 0, n + p - 1 - IMIN);
      } else {
        var x := n + p - 1 - 0x1_0000_0000_0000_0000;
        ModuloIs(n + p - 1 - IMIN, 0x1_0000_0000_0000_0000, 1, x - IMIN);
        assert Wrap(n + p - 1) == x < 0;
        Division(-x, p);
        WindowsByQuotient(k, n);
      }
    }
  }

  /** A list of more than one item, taken in one window of the greatest length, is a case of this. */
  lemma NoRowForGreatest(n: nat)
    requires 2 <= n <= IMAX
    ensures Windows(-IMAX, n) >= 1 && MaskRows(-IMAX, n) != Windows(-IMAX, n)
  {
    MaskRowsRight(-IMAX, n);
    WindowsByQuotient(-IMAX, n);
  }

  /** Item j of row t of the mask: the rows are filled, in order, from zeros and ones over and over. */
  function MaskAt(k: int, n: nat, t: nat, j: nat): bool
    requires t < Windows(k, n) && j < n
  {
    var p, ones := Magnitude(k), if k < 0 then n else Windows(k, n);
    (t * n + j) % (p + ones) >= p
  }

  /** Row t of the mask has zeros for window t. */
  lemma MaskIs(k: int, n: nat, t: nat, j: nat)
    requires t < Windows(k, n) && j < n
    ensures MaskAt(k, n, t, j) <==> !(Start(k, t) <= j < Stop(k, n, t))
  {
    hide *;
    var p, s, x := Magnitude(k), Start(k, t), RowPlace(t, n, j);
    var period := if k < 0 then p + n else n + 1;
    WindowBounds(k, n, t);
    MaskUnfolds(k, n, t, j);
    MaskPeriod(k, n, t, p, s, period);
    if j >= s {
      ModuloIs(x, period, t, j - s);
    } else {
      OneMoreTimes(t - 1, period);
      ModuloIs(x, period, t - 1, period + j - s);
    }
  }

  function RowPlace(t: nat, n: nat, j: nat): (x: nat)
    ensures x == t * n + j
  {
    TimesMonotone(0, t, n);
    t * n + j
  }

  lemma MaskUnfolds(k: int, n: nat, t: nat, j: nat)
    requires t < Windows(k, n) && j < n
    ensures var p, s := Magnitude(k), Start(k, t);
            && (MaskAt(k, n, t, j) <==> RowPlace(t, n, j) % (if k < 0 then p + n else n + 1) >= p)
            && Stop(k, n, t) == (if s + p <= n then s + p else n) && (s > 0 ==> t > 0) && (k >= 0 ==> s + p <= n)
  {
    hide RowPlace;
  }

  lemma MaskPeriod(k: int, n: nat, t: nat, p: nat, s: nat, period: nat)
    requires p == Magnitude(k) && s == Start(k, t) && period == if k < 0 then p + n else n + 1
    ensures t * n + s == t * period
  {
    if k < 0 {
      assert t * (p + n) == t * p + t * n;
    } else {
      assert t * (n + 1) == t * n + t;
    }
  }

  /** The items of the first l that a mask keeps. */
  function Repeat<T>(mask: seq<bool>, w: seq<T>, l: nat): seq<T>
    requires l <= |mask| == |w|
  {
    if l == 0 then [] else Repeat(mask, w, l - 1) + if mask[l - 1] then [w[l - 1]] else []
  }

  lemma {:induction false} RepeatIs<T>(mask: seq<bool>, w: seq<T>, s: nat, e: nat, l: nat)
    requires l <= |mask| == |w| && s <= e <= |w|
    requires forall j :: 0 <= j < |mask| ==> (mask[j] <==> !(s <= j < e))
    ensures Repeat(mask, w, l) == w[..if l < s then l else s] + if l < e then [] else w[e..l]
  {
    if l > 0 {
      RepeatIs(mask, w, s, e, l - 1);
    }
  }

  function MaskRow(k: int, n: nat, t: nat): (r: seq<bool>)
    requires t < Windows(k, n)
    ensures |r| == n
    ensures forall j: nat :: j < n ==> r[j] == MaskAt(k, n, t, j)
  {
    seq(n, j requires 0 <= j < n && t < Windows(k, n) => MaskAt(k, n, t, j))
  }

  /** k u\. w in general: u on what each row of the mask keeps.  There is no table with fewer than no
      rows. */
  function General<T, R>(u: seq<T> -> R, k: int, w: seq<T>): (z: Option<seq<R>>)
    requires Fits(k) && |w| <= IMAX
  {
    var n := |w|;
    if MaskRows(k, n) < 0 then None
    else
      MaskRowsRight(k, n);
      Some(seq(MaskRows(k, n), t requires 0 <= t < MaskRows(k, n) <= Windows(k, n) =>
        u(Repeat(MaskRow(k, n, t), w, n))))
  }

  /** The results are u on what each window leaves. */
  ghost predicate AreOutfixes<T, R>(u: seq<T> -> R, k: int, w: seq<T>, z: seq<R>) {
    && |z| == Windows(k, |w|)
    && forall t: nat :: t < |z| ==> z[t] == u(Kept(k, w, t))
  }

  /** A row of the mask keeps what is not in its window. */
  lemma RowKeeps<T>(k: int, w: seq<T>, t: nat)
    requires t < Windows(k, |w|)
    ensures Repeat(MaskRow(k, |w|, t), w, |w|) == Kept(k, w, t)
  {
    WindowBounds(k, |w|, t);
    var mask, s, e := MaskRow(k, |w|, t), Start(k, t), Stop(k, |w|, t);
    forall j | 0 <= j < |mask| ensures mask[j] <==> !(s <= j < e) {
      MaskIs(k, |w|, t, j);
    }
    RepeatIs(mask, w, s, e, |w|);
    assert w[e..|w|] == w[e..];
    hide Repeat, MaskRow;
  }

  /** The general form is right exactly if there is a row for every window. */
  lemma GeneralIff<T, R>(u: seq<T> -> R, k: int, w: seq<T>)
    requires Fits(k) && |w| <= IMAX
    ensures var z := General(u, k, w);
            z.Some? && AreOutfixes(u, k, w, z.value) <==> k >= 0 || |w| + Magnitude(k) - 1 <= IMAX
  {
    MaskRowsRight(k, |w|);
    forall t: nat | t < Windows(k, |w|)
      ensures Repeat(MaskRow(k, |w|, t), w, |w|) == Kept(k, w, t)
    {
      RowKeeps(k, w, t);
    }
    hide Windows, MaskRows, Kept, Repeat, MaskRow;
  }
}
