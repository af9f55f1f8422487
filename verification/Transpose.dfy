/** Arrays as their atoms lie in row-major order: reshaping, and transposing along an order of the axes. */
module Transpose {
  import opened Arith
  import opened CellOffset
  import opened Classes
  import opened SparseSpec
  import opened SparsePad
  import opened SparseCells

  // ---- Sizes and places of arrays.

  /** The number of atoms. */
  function Size(s: seq<nat>): nat {
    Cells(s, |s|)
  }

  /** The place of an index. */
  function PlaceOf(ix: seq<nat>, s: seq<nat>): nat
    requires |ix| == |s|
  {
    Cell(ix, s, |s|)
  }

  ghost predicate Fits(ix: seq<nat>, s: seq<nat>) {
    |ix| == |s| && InRange(ix, s, |s|)
  }

  /** The index at a place. */
  function IndexAt(s: seq<nat>, k: nat): (ix: seq<nat>)
    requires k < Size(s)
    ensures Fits(ix, s) && PlaceOf(ix, s) == k
  {
    Digits(s, |s|, k)
  }

  lemma PlaceFits(ix: seq<nat>, s: seq<nat>)
    requires Fits(ix, s)
    ensures PlaceOf(ix, s) < Size(s)
  {
    CellBound(ix, s, |s|);
  }

  /** An index is decided by its place. */
  lemma PlaceDecides(ix: seq<nat>, jx: seq<nat>, s: seq<nat>)
    requires Fits(ix, s) && Fits(jx, s) && PlaceOf(ix, s) == PlaceOf(jx, s)
    ensures ix == jx
  {
    CellInjective(ix, jx, s, |s|);
    assert ix[..|s|] == ix && jx[..|s|] == jx;
  }

  lemma {:induction false} CellsOfPrefix(s: seq<nat>, t: seq<nat>, n: nat)
    requires n <= |s| && n <= |t| && forall i :: 0 <= i < n ==> s[i] == t[i]
    ensures Cells(s, n) == Cells(t, n)
  {
    if n > 0 {
      CellsOfPrefix(s, t, n - 1);
    }
  }

  lemma SizeJoin(s: seq<nat>, t: seq<nat>)
    ensures Size(s + t) == Size(s) * Size(t)
  {
    CellsSplit(s + t, |s|, |s| + |t|);
    CellsOfPrefix(s + t, s, |s|);
    assert (s + t)[|s|..] == t;
  }

  lemma PlaceJoin(ix: seq<nat>, s: seq<nat>, jx: seq<nat>, t: seq<nat>)
    requires |ix| == |s| && |jx| == |t|
    ensures PlaceOf(ix + jx, s + t) == PlaceOf(ix, s) * Size(t) + PlaceOf(jx, t)
  {
    CellSplit(ix + jx, s + t, |s|, |s| + |t|);
    CellOfPrefix(ix + jx, s + t, ix, s, |s|);
    assert (s + t)[|s|..] == t && (ix + jx)[|s|..] == jx;
    hide Cell, Cells;
  }

  lemma SizeOne(n: nat)
    ensures Size([n]) == n
  {
    assert Cells([n], 0) == 1;
  }

  /** An index is read off its place by dividing and taking remainders. */
  lemma DigitIs(s: seq<nat>, k: nat, j: nat)
    requires k < Size(s) && j < |s|
    ensures 0 < s[j] && 0 < Size(s[j + 1..]) && IndexAt(s, k)[j] == k / Size(s[j + 1..]) % s[j]
  {
    var ix, r := IndexAt(s, k), s[j + 1..];
    var high, low := Cell(ix, s, j + 1), Cell(ix[j + 1..], r, |r|);
    CellSplit(ix, s, j + 1, |s|);
    CellBound(ix[j + 1..], r, |r|);
    ModuloIs(k, Size(r), high, low);
    ModuloIs(high, s[j], Cell(ix, s, j), ix[j]);
    hide Cells;
  }

  // ---- Orders of axes.

  function Iota(n: nat): (o: seq<nat>)
    ensures |o| == n && forall i :: 0 <= i < n ==> o[i] == i
  {
    seq(n, i requires 0 <= i => i)
  }

  /** Each of the first d axes once. */
  ghost predicate Permutes(p: seq<nat>, d: nat) {
    |p| == d && (forall i :: 0 <= i < d ==> p[i] < d) && Distinct(p) && forall k: nat :: k < d ==> k in p
  }

  lemma PermutesIs(p: seq<nat>, d: nat)
    requires Permutes(p, d)
    ensures |p| == d && (forall i :: 0 <= i < d ==> p[i] < d) && forall k: nat :: k < d ==> k in p
  {
  }

  lemma PermutesIota(d: nat)
    ensures Permutes(Iota(d), d)
  {
    forall k: nat | k < d ensures k in Iota(d) {
      assert Iota(d)[k] == k;
    }
  }

  /** Where an axis is in an order. */
  function Turn(p: seq<nat>, i: nat): (j: nat)
    requires Permutes(p, |p|) && i < |p|
    ensures j < |p| && p[j] == i
  {
    assert i in p;
    ClassOf(p, i)
  }

  /** The index whose axes in order p are the given ones. */
  function Reordered(p: seq<nat>, row: seq<nat>): (ix: seq<nat>)
    requires Permutes(p, |row|)
    ensures |ix| == |row| && forall i :: 0 <= i < |ix| ==> ix[i] == row[Turn(p, i)]
  {
    seq(|row|, i requires 0 <= i < |row| && Permutes(p, |row|) => row[Turn(p, i)])
  }

  lemma ReorderedIs(p: seq<nat>, ix: seq<nat>)
    requires Permutes(p, |ix|)
    ensures Reordered(p, Select(ix, p)) == ix
  {
  }

  lemma ReorderedFits(p: seq<nat>, s: seq<nat>, row: seq<nat>)
    requires Permutes(p, |s|) && Fits(row, Select(s, p))
    ensures Fits(Reordered(p, row), s)
  {
  }

  lemma SelectFits(p: seq<nat>, s: seq<nat>, ix: seq<nat>)
    requires Permutes(p, |s|) && Fits(ix, s)
    ensures Fits(Select(ix, p), Select(s, p))
  {
  }

  /** Reordering keeps the size. */
  lemma {:induction false} SizeReordered(s: seq<nat>, p: seq<nat>)
    requires Permutes(p, |s|)
    ensures Size(Select(s, p)) == Size(s)
  {
    if |s| > 0 {
      var d := |s| - 1;
      var j := Turn(p, d);
      var t, q, s' := Select(s, p), p[..j] + p[j + 1..], s[..d];
      LastOut(s, p, d, j);
      SizeReordered(s', q);
      hide *;
      SizeJoin(t[..j] + [s[d]], t[j + 1..]);
      SizeJoin(t[..j], [s[d]]);
      SizeJoin(t[..j], t[j + 1..]);
      SizeJoin(s', [s[d]]);
      SizeOne(s[d]);
      MiddleOut(Size(t[..j]), s[d], Size(t[j + 1..]));
    }
  }

  lemma LastOut(s: seq<nat>, p: seq<nat>, d: nat, j: nat)
    requires Permutes(p, |s|) && |s| == d + 1 && j <= d && p[j] == d
    ensures s == s[..d] + [s[d]]
    ensures var t, q := Select(s, p), p[..j] + p[j + 1..];
            Permutes(q, d) && Select(s[..d], q) == t[..j] + t[j + 1..] && t == t[..j] + [s[d]] + t[j + 1..]
  {
    PermutesIs(p, d + 1);
    WithoutLast(p, d, j);
    var t, q := Select(s, p), p[..j] + p[j + 1..];
    PermutesIs(q, d);
    hide Permutes;
    forall i | 0 <= i < d ensures Select(s[..d], q)[i] == (t[..j] + t[j + 1..])[i] {
      assert q[i] == p[if i < j then i else i + 1];
    }
  }

  lemma MiddleOut(x: nat, y: nat, z: nat)
    ensures x * y * z == x * z * y
  {
    TimesAssociative(x, y, z);
    TimesAssociative(x, z, y);
    assert y * z == z * y;
  }

  lemma WithoutLast(p: seq<nat>, d: nat, j: nat)
    requires Permutes(p, d + 1) && j <= d && p[j] == d
    ensures Permutes(p[..j] + p[j + 1..], d)
  {
    var q := p[..j] + p[j + 1..];
    forall i | 0 <= i < d ensures q[i] < d {
      assert q[i] == p[if i < j then i else i + 1];
    }
    forall i, k | 0 <= i < k < d ensures q[i] != q[k] {
      assert q[i] == p[if i < j then i else i + 1] && q[k] == p[if k < j then k else k + 1];
    }
    forall k: nat | k < d ensures k in q {
      assert k in p;
      var i :| 0 <= i <= d && p[i] == k;
      assert q[if i < j then i else i - 1] == k;
    }
  }

  // ---- Reshape and transpose.

  /** n atoms, a over and over. */
  function Reshaped<T>(a: seq<T>, n: nat): (r: seq<T>)
    requires n > 0 ==> |a| > 0
    ensures |r| == n && forall k :: 0 <= k < n ==> r[k] == a[k % |a|]
  {
    seq(n, k requires 0 <= k < n && |a| > 0 => a[k % |a|])
  }

  /** Where atom k of the transposed array comes from. */
  function Source(s: seq<nat>, p: seq<nat>, k: nat): (l: nat)
    requires Permutes(p, |s|) && k < Size(Select(s, p))
    ensures l < Size(s)
  {
    var ix := Reordered(p, IndexAt(Select(s, p), k));
    ReorderedFits(p, s, IndexAt(Select(s, p), k));
    PlaceFits(ix, s);
    PlaceOf(ix, s)
  }

  /** The atoms of an array of shape s with its axes in order p. */
  function Transposed<T>(a: seq<T>, s: seq<nat>, p: seq<nat>): (r: seq<T>)
    requires Permutes(p, |s|) && |a| == Size(s)
    ensures |r| == Size(s)
  {
    SizeReordered(s, p);
    seq(Size(s), k requires 0 <= k < Size(s) && |a| == Size(s) == Size(Select(s, p)) && Permutes(p, |s|) => a[Source(s, p, k)])
  }

  /** Every atom goes to the place of its reordered index. */
  lemma TransposedAt<T>(a: seq<T>, s: seq<nat>, p: seq<nat>, ix: seq<nat>)
    requires Permutes(p, |s|) && |a| == Size(s) && Fits(ix, s)
    ensures PlaceOf(Select(ix, p), Select(s, p)) < Size(s) && PlaceOf(ix, s) < Size(s)
    ensures Transposed(a, s, p)[PlaceOf(Select(ix, p), Select(s, p))] == a[PlaceOf(ix, s)]
  {
    SizeReordered(s, p);
    SelectFits(p, s, ix);
    var row, t := Select(ix, p), Select(s, p);
    PlaceFits(row, t);
    PlaceFits(ix, s);
    PlaceDecides(IndexAt(t, PlaceOf(row, t)), row, t);
    ReorderedIs(p, ix);
    hide PlaceOf, Size;
  }

  /** Every place of the transposed array is that of an index. */
  lemma TransposedFrom<T>(a: seq<T>, s: seq<nat>, p: seq<nat>, k: nat) returns (ix: seq<nat>)
    requires Permutes(p, |s|) && |a| == Size(s) && k < Size(s)
    ensures Fits(ix, s) && PlaceOf(Select(ix, p), Select(s, p)) == k < Size(Select(s, p))
    ensures ix == Reordered(p, IndexAt(Select(s, p), k)) && PlaceOf(ix, s) < Size(s)
    ensures Transposed(a, s, p)[k] == a[PlaceOf(ix, s)]
  {
    SizeReordered(s, p);
    var row := IndexAt(Select(s, p), k);
    ix := Reordered(p, row);
    ReorderedFits(p, s, row);
    PlaceFits(ix, s);
    SelectReordered(p, row);
    hide PlaceOf, Size;
  }

  lemma SelectReordered(p: seq<nat>, row: seq<nat>)
    requires Permutes(p, |row|)
    ensures Select(Reordered(p, row), p) == row
  {
    var ix := Reordered(p, row);
    forall j | 0 <= j < |p| ensures Select(ix, p)[j] == row[j] {
      assert p[Turn(p, p[j])] == p[j];
    }
  }

  lemma TransposedIota<T>(a: seq<T>, s: seq<nat>)
    requires |a| == Size(s)
    ensures Permutes(Iota(|s|), |s|) && Transposed(a, s, Iota(|s|)) == a
  {
    var p := Iota(|s|);
    PermutesIota(|s|);
    assert Select(s, p) == s;
    forall k: nat | k < |a| ensures Transposed(a, s, p)[k] == a[k] {
      var ix := TransposedFrom(a, s, p, k);
      assert Select(ix, p) == ix;
    }
    hide *;
  }

  // ---- When two orders give the same list.

  /** How far apart in the transposed array the items of an axis are. */
  function Span(s: seq<nat>, p: seq<nat>, i: nat): nat
    requires Permutes(p, |s|) && i < |s|
  {
    Size(Select(s, p)[Turn(p, i) + 1..])
  }

  lemma IndexBySpan(s: seq<nat>, p: seq<nat>, k: nat, i: nat)
    requires Permutes(p, |s|) && k < Size(s) && i < |s|
    ensures k < Size(Select(s, p)) && 0 < s[i] && 0 < Span(s, p, i)
    ensures Reordered(p, IndexAt(Select(s, p), k))[i] == k / Span(s, p, i) % s[i]
  {
    SizeReordered(s, p);
    DigitIs(Select(s, p), k, Turn(p, i));
  }

  /** The axes from m on that have other than one item are as far apart in both orders. */
  ghost predicate SpansAgree(s: seq<nat>, m: nat, p: seq<nat>, q: seq<nat>)
    requires Permutes(p, |s|) && Permutes(q, |s|)
  {
    Size(s) == 0 || forall i: nat :: m <= i < |s| && s[i] != 1 ==> Span(s, p, i) == Span(s, q, i)
  }

  lemma SuffixSize(s: seq<nat>, m: nat)
    requires m <= |s|
    ensures Size(s) == Size(s[..m]) * Size(s[m..])
    ensures Size(s) > 0 ==> Size(s[m..]) > 0
  {
    SizeJoin(s[..m], s[m..]);
    assert s == s[..m] + s[m..];
    hide Size;
    if Size(s) > 0 {
      PositiveFactors(Size(s[..m]), Size(s[m..]));
    }
  }

  lemma SuffixPositive(s: seq<nat>, m: nat)
    requires m <= |s|
    ensures Size(s) > 0 ==> Size(s[m..]) > 0
  {
    SuffixSize(s, m);
  }

  /** In an array that repeats a, an atom depends on the last axes only. */
  lemma RepeatedAt<T>(a: seq<T>, s: seq<nat>, m: nat, ix: seq<nat>)
    requires m <= |s| && |a| == Size(s[m..]) && Fits(ix, s)
    ensures Fits(ix[m..], s[m..]) && PlaceOf(ix, s) < Size(s) && PlaceOf(ix[m..], s[m..]) < |a|
    ensures Size(s) > 0 ==> |a| > 0
    ensures Reshaped(a, Size(s))[PlaceOf(ix, s)] == a[PlaceOf(ix[m..], s[m..])]
  {
    PlaceFits(ix, s);
    SuffixSize(s, m);
    PlaceFits(ix[m..], s[m..]);
    PlaceJoin(ix[..m], s[..m], ix[m..], s[m..]);
    assert ix == ix[..m] + ix[m..] && s == s[..m] + s[m..];
    hide PlaceOf, Size;
    ModuloIs(PlaceOf(ix, s), |a|, PlaceOf(ix[..m], s[..m]), PlaceOf(ix[m..], s[m..]));
  }

  /** If the spans agree, both orders give the same list. */
  lemma SpansSuffice<T>(a: seq<T>, s: seq<nat>, m: nat, p: seq<nat>, q: seq<nat>)
    requires Permutes(p, |s|) && Permutes(q, |s|) && m <= |s| && |a| == Size(s[m..]) && SpansAgree(s, m, p, q)
    ensures Size(s) > 0 ==> |a| > 0
    ensures Transposed(Reshaped(a, Size(s)), s, p) == Transposed(Reshaped(a, Size(s)), s, q)
  {
    hide *;
    SuffixSize(s, m);
    var b := Reshaped(a, Size(s));
    forall k: nat | k < Size(s) ensures Transposed(b, s, p)[k] == Transposed(b, s, q)[k] {
      SpansSufficeAt(a, b, s, m, p, q, k);
    }
  }

  lemma SpansSufficeAt<T>(a: seq<T>, b: seq<T>, s: seq<nat>, m: nat, p: seq<nat>, q: seq<nat>, k: nat)
    requires Permutes(p, |s|) && Permutes(q, |s|) && m <= |s| && |a| == Size(s[m..]) && SpansAgree(s, m, p, q)
    requires k < Size(s) && |a| > 0 && b == Reshaped(a, Size(s))
    ensures Transposed(b, s, p)[k] == Transposed(b, s, q)[k]
  {
    hide *;
    var ix := TransposedFrom(b, s, p, k);
    var jx := TransposedFrom(b, s, q, k);
    FitsLong(ix, s);
    FitsLong(jx, s);
    forall i: nat | m <= i < |s| ensures ix[i] == jx[i] {
      AxisSame(s, m, p, q, k, i);
    }
    assert ix[m..] == jx[m..];
    RepeatedAt(a, s, m, ix);
    RepeatedAt(a, s, m, jx);
  }

  lemma AxisSame(s: seq<nat>, m: nat, p: seq<nat>, q: seq<nat>, k: nat, i: nat)
    requires Permutes(p, |s|) && Permutes(q, |s|) && SpansAgree(s, m, p, q) && k < Size(s) && m <= i < |s|
    ensures k < Size(Select(s, p)) && k < Size(Select(s, q))
    ensures Reordered(p, IndexAt(Select(s, p), k))[i] == Reordered(q, IndexAt(Select(s, q), k))[i]
  {
    hide *;
    IndexBySpan(s, p, k, i);
    IndexBySpan(s, q, k, i);
    if s[i] != 1 {
      SpansAgreeAt(s, m, p, q, i);
    } else {
      RemainderOne(k / Span(s, p, i));
      RemainderOne(k / Span(s, q, i));
    }
  }

  lemma RemainderOne(k: nat)
    ensures k % 1 == 0
  {
  }

  lemma SpansAgreeAt(s: seq<nat>, m: nat, p: seq<nat>, q: seq<nat>, i: nat)
    requires Permutes(p, |s|) && Permutes(q, |s|) && SpansAgree(s, m, p, q) && Size(s) > 0 && m <= i < |s| && s[i] != 1
    ensures Span(s, p, i) == Span(s, q, i)
  {
  }

  lemma SpanFits(s: seq<nat>, p: seq<nat>, i: nat)
    requires Permutes(p, |s|) && Size(s) > 0 && i < |s|
    ensures Span(s, p, i) * s[i] <= Size(s)
  {
    hide *;
    PermutesIs(p, |s|);
    var t, j := Select(s, p), Turn(p, i);
    SizeReordered(s, p);
    SpanIs(s, p, i);
    SizeJoin(t[..j], [s[i]] + t[j + 1..]);
    SizeJoin([s[i]], t[j + 1..]);
    SizeOne(s[i]);
    var l := s[i] * Span(s, p, i);
    PositiveFactors(Size(t[..j]), l);
    FactorBound(Size(t[..j]), l);
  }

  lemma SpanIs(s: seq<nat>, p: seq<nat>, i: nat)
    requires Permutes(p, |s|) && i < |s|
    ensures var t, j := Select(s, p), Turn(p, i);
            j < |t| && t == t[..j] + ([s[i]] + t[j + 1..]) && Span(s, p, i) == Size(t[j + 1..])
  {
    hide Size;
  }

  /** A smaller span shows at the first place where its axis moves on. */
  lemma SpanShows(s: seq<nat>, p: seq<nat>, q: seq<nat>, i: nat) returns (k: nat)
    requires Permutes(p, |s|) && Permutes(q, |s|) && i < |s| && Size(s) > 0 && s[i] != 1
    requires Span(s, p, i) < Span(s, q, i)
    ensures k < Size(s) && k < Size(Select(s, p)) && k < Size(Select(s, q))
    ensures Reordered(p, IndexAt(Select(s, p), k))[i] != Reordered(q, IndexAt(Select(s, q), k))[i]
  {
    hide *;
    IndexBySpan(s, p, 0, i);
    SpanFits(s, p, i);
    k := Span(s, p, i);
    TimesMonotone(2, s[i], k);
    IndexBySpan(s, p, k, i);
    IndexBySpan(s, q, k, i);
    ModuloIs(k, k, 1, 0);
    ModuloIs(k, Span(s, q, i), 0, k);
    ModuloIs(1, s[i], 0, 1);
    ModuloIs(0, s[i], 0, 0);
  }

  /** If all atoms of a are different, the lists are the same only if the spans agree. */
  lemma SpansNeeded<T(!new)>(a: seq<T>, s: seq<nat>, m: nat, p: seq<nat>, q: seq<nat>)
    requires Permutes(p, |s|) && Permutes(q, |s|) && m <= |s| && |a| == Size(s[m..]) && Distinct(a)
    requires Size(s) > 0 ==> |a| > 0
    requires Transposed(Reshaped(a, Size(s)), s, p) == Transposed(Reshaped(a, Size(s)), s, q)
    ensures SpansAgree(s, m, p, q)
  {
    var b := Reshaped(a, Size(s));
    if Size(s) > 0 {
      forall i: nat | m <= i < |s| && s[i] != 1 ensures Span(s, p, i) == Span(s, q, i) {
        if Span(s, p, i) != Span(s, q, i) {
          SpansTold(a, b, s, m, p, q, i);
        }
      }
    }
    hide PlaceOf, Size, Permutes, Transposed, Reshaped, Span;
  }

  lemma SpansTold<T(!new)>(a: seq<T>, b: seq<T>, s: seq<nat>, m: nat, p: seq<nat>, q: seq<nat>, i: nat)
    requires Permutes(p, |s|) && Permutes(q, |s|) && m <= i < |s| && |a| == Size(s[m..]) && Distinct(a)
    requires Size(s) > 0 && |a| > 0 && s[i] != 1 && b == Reshaped(a, Size(s))
    requires Transposed(b, s, p) == Transposed(b, s, q)
    ensures Span(s, p, i) == Span(s, q, i)
  {
    hide *;
    if Span(s, p, i) != Span(s, q, i) {
      var k: nat;
      if Span(s, p, i) < Span(s, q, i) {
        k := SpanShows(s, p, q, i);
      } else {
        k := SpanShows(s, q, p, i);
      }
      var ix := TransposedFrom(b, s, p, k);
      var jx := TransposedFrom(b, s, q, k);
      RepeatedAt(a, s, m, ix);
      RepeatedAt(a, s, m, jx);
      FitsLong(ix, s);
      FitsLong(jx, s);
      FitsLong(ix[m..], s[m..]);
      FitsLong(jx[m..], s[m..]);
      assert ix[m..][i - m] != jx[m..][i - m];
      DistinctAt(a, PlaceOf(ix[m..], s[m..]), PlaceOf(jx[m..], s[m..]));
      PlaceDecides(ix[m..], jx[m..], s[m..]);
    }
  }

  lemma FitsLong(ix: seq<nat>, s: seq<nat>)
    requires Fits(ix, s)
    ensures |ix| == |s|
  {
  }

  lemma DistinctAt<T(!new)>(a: seq<T>, i: nat, j: nat)
    requires Distinct(a) && i < |a| && j < |a| && a[i] == a[j]
    ensures i == j
  {
  }
}
