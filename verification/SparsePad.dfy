/** Padding a sparse array: a row for every cell that is about to be amended. */
module SparsePad {
  import opened Arith
  import opened CellOffset
  import opened Classes
  import opened SparseSpec

  // ---- Lists of rows.

  function Less<K(==,!new)>(s: seq<K>, t: seq<K>): (r: seq<K>)
    ensures forall x :: x in r <==> x in s && x !in t
  {
    if s == [] then [] else Less(s[..|s| - 1], t) + if s[|s| - 1] in t then [] else [s[|s| - 1]]
  }

  function Common<K(==,!new)>(s: seq<K>, t: seq<K>): (r: seq<K>)
    ensures forall x :: x in r <==> x in s && x in t
  {
    if s == [] then [] else Common(s[..|s| - 1], t) + if s[|s| - 1] in t then [s[|s| - 1]] else []
  }

  ghost predicate Distinct<K(!new)>(s: seq<K>) {
    forall i, j :: 0 <= i < j < |s| ==> s[i] != s[j]
  }

  function NubOf<K(==)>(s: seq<K>): seq<K> {
    Nub(s, |s|)
  }

  lemma InNub<K(!new)>(s: seq<K>)
    ensures Distinct(NubOf(s)) && forall x :: x in NubOf(s) <==> x in s
  {
    forall x ensures x in NubOf(s) <==> x in s {
      NubIsKeys(s, |s|, x);
      CountPositive(s, |s|, x);
    }
    if s != [] {
      NubIsKeys(s, |s|, s[0]);
    }
  }

  lemma {:induction false} LessDistinct<K(!new)>(s: seq<K>, t: seq<K>)
    requires Distinct(s)
    ensures Distinct(Less(s, t))
  {
    if s != [] {
      LessDistinct(s[..|s| - 1], t);
    }
  }

  /** Every row of p with every cell. */
  function Stitch(p: seq<seq<nat>>, cells: seq<seq<nat>>): (r: seq<seq<nat>>)
    ensures |r| == |p| * |cells|
  {
    seq(|p| * |cells|, k requires 0 <= k < |p| * |cells| => Stitched(p, cells, k))
  }

  function Stitched(p: seq<seq<nat>>, cells: seq<seq<nat>>, k: nat): seq<nat>
    requires k < |p| * |cells|
  {
    PositiveFactors(|p|, |cells|);
    QuotientSmall(k, |cells|, |p|);
    p[k / |cells|] + cells[k % |cells|]
  }

  lemma StitchedAt(p: seq<seq<nat>>, cells: seq<seq<nat>>, i: nat, j: nat)
    requires i < |p| && j < |cells|
    ensures i * |cells| + j < |p| * |cells| && Stitch(p, cells)[i * |cells| + j] == p[i] + cells[j]
  {
    RoomForOne(i, |p|, |cells|);
    ModuloIs(i * |cells| + j, |cells|, i, j);
  }

  lemma StitchOwner(p: seq<seq<nat>>, cells: seq<seq<nat>>, k: nat) returns (i: nat, j: nat)
    requires k < |p| * |cells|
    ensures i < |p| && j < |cells| && k == i * |cells| + j && Stitch(p, cells)[k] == p[i] + cells[j]
  {
    PositiveFactors(|p|, |cells|);
    QuotientSmall(k, |cells|, |p|);
    i, j := k / |cells|, k % |cells|;
  }

  lemma InStitch(p: seq<seq<nat>>, cells: seq<seq<nat>>, d: nat, r: seq<nat>)
    requires forall i :: 0 <= i < |p| ==> |p[i]| == d
    ensures r in Stitch(p, cells) <==> d <= |r| && r[..d] in p && r[d..] in cells
  {
    if r in Stitch(p, cells) {
      var k :| 0 <= k < |Stitch(p, cells)| && Stitch(p, cells)[k] == r;
      var i, j := StitchOwner(p, cells, k);
      assert r[..d] == p[i] && r[d..] == cells[j];
    }
    if d <= |r| && r[..d] in p && r[d..] in cells {
      var i :| 0 <= i < |p| && p[i] == r[..d];
      var j :| 0 <= j < |cells| && cells[j] == r[d..];
      StitchedAt(p, cells, i, j);
      assert r == p[i] + cells[j];
    }
  }

  lemma StitchDistinct(p: seq<seq<nat>>, cells: seq<seq<nat>>, d: nat)
    requires Distinct(p) && Distinct(cells) && forall i :: 0 <= i < |p| ==> |p[i]| == d
    ensures Distinct(Stitch(p, cells))
  {
    var s := Stitch(p, cells);
    forall k, l | 0 <= k < l < |s| ensures s[k] != s[l] {
      var i, j := StitchOwner(p, cells, k);
      var i', j' := StitchOwner(p, cells, l);
      assert s[k][..d] == p[i] && s[k][d..] == cells[j];
      assert s[l][..d] == p[i'] && s[l][d..] == cells[j'];
    }
  }

  // ---- All the cells of some axes.

  /** The indexes of cell k under axes of lengths sv. */
  function Digits(sv: seq<nat>, n: nat, k: nat): (row: seq<nat>)
    requires n <= |sv| && k < Cells(sv, n)
    ensures |row| == n && InRange(row, sv, n) && Cell(row, sv, n) == k
  {
    if n == 0 then []
    else
      PositiveFactors(Cells(sv, n - 1), sv[n - 1]);
      QuotientSmall(k, sv[n - 1], Cells(sv, n - 1));
      var init := Digits(sv, n - 1, k / sv[n - 1]);
      var row := init + [k % sv[n - 1]];
      CellSame(row, init, sv, n - 1);
      row
  }

  /** The cells in row-major order. */
  function Odometer(sv: seq<nat>): (r: seq<seq<nat>>)
    ensures |r| == Cells(sv, |sv|)
    ensures forall k: nat :: k < |r| ==> r[k] == Digits(sv, |sv|, k)
  {
    seq(Cells(sv, |sv|), k requires 0 <= k < Cells(sv, |sv|) => Digits(sv, |sv|, k))
  }

  lemma OdometerHas(sv: seq<nat>, row: seq<nat>)
    ensures row in Odometer(sv) <==> |row| == |sv| && InRange(row, sv, |sv|)
    ensures row in Odometer(sv) ==> Cell(row, sv, |sv|) < |Odometer(sv)| && Odometer(sv)[Cell(row, sv, |sv|)] == row
  {
    if |row| == |sv| && InRange(row, sv, |sv|) {
      CellBound(row, sv, |sv|);
      var k := Cell(row, sv, |sv|);
      CellInjective(row, Digits(sv, |sv|, k), sv, |sv|);
      assert row == row[..|sv|] && Digits(sv, |sv|, k) == Digits(sv, |sv|, k)[..|sv|];
    }
  }

  lemma OdometerDistinct(sv: seq<nat>)
    ensures Distinct(Odometer(sv))
  {
    var r := Odometer(sv);
    forall i, j | 0 <= i < j < |r| ensures r[i] != r[j] {
      assert Cell(r[i], sv, |sv|) == i && Cell(r[j], sv, |sv|) == j;
    }
  }

  // ---- The cells that an index table addresses.

  /** Index rows for the first h axes. */
  ghost predicate IndexTable<T>(z: Sparse<T>, h: nat, ind: seq<seq<nat>>) {
    h <= |z.shape| && forall t :: 0 <= t < |ind| ==> |ind[t]| == h && InRange(ind[t], z.shape, h)
  }

  /** The number of sparse axes among the first h. */
  function Framed<T>(z: Sparse<T>, h: nat): (d: nat)
    ensures d <= |z.axes|
  {
    Below(z.axes, h, |z.axes|)
  }

  lemma FramedIs<T>(z: Sparse<T>, h: nat)
    requires z.Shaped()
    ensures forall i :: 0 <= i < |z.axes| ==> (z.axes[i] < h <==> i < Framed(z, h))
  {
    BelowIs(z.axes, h, |z.axes|);
  }

  /** The sparse indexes of an index row. */
  function Key<T>(z: Sparse<T>, h: nat, x: seq<nat>): (k: seq<nat>)
    requires Ascending(z.axes, |z.shape|) && |x| == h
    ensures |k| == Framed(z, h)
  {
    FramedIs(z, h);
    Select(x, z.axes[..Framed(z, h)])
  }

  lemma KeyFits<T>(z: Sparse<T>, h: nat, ind: seq<seq<nat>>, t: nat)
    requires z.Shaped() && IndexTable(z, h, ind) && t < |ind|
    ensures InRange(Key(z, h, ind[t]), z.Lengths(), Framed(z, h))
  {
    FramedIs(z, h);
  }

  /** The keys of the index rows.  Without a sparse axis among them, an index array that is not a table
      has lost its items. */
  function Keys<T>(z: Sparse<T>, h: nat, ind: seq<seq<nat>>, table: bool): (w: seq<seq<nat>>)
    requires Ascending(z.axes, |z.shape|) && forall t :: 0 <= t < |ind| ==> |ind[t]| == h
    ensures forall i :: 0 <= i < |w| ==> |w[i]| == Framed(z, h)
    ensures |w| == if Framed(z, h) == 0 && !table then 0 else |ind|
    ensures forall i :: 0 <= i < |w| ==> w[i] == Key(z, h, ind[i])
  {
    if Framed(z, h) == 0 && !table then []
    else seq(|ind|, t requires 0 <= t < |ind| && Ascending(z.axes, |z.shape|) && |ind[t]| == h => Key(z, h, ind[t]))
  }

  /** The rows of z, without the axes after the frame. */
  function Heads(rows: seq<seq<nat>>, d: nat): (y: seq<seq<nat>>)
    requires forall q :: 0 <= q < |rows| ==> d <= |rows[q]|
    ensures |y| == |rows| && forall q :: 0 <= q < |rows| ==> y[q] == rows[q][..d]
  {
    seq(|rows|, q requires 0 <= q < |rows| && d <= |rows[q]| => rows[q][..d])
  }

  function Zeros(d: nat): (r: seq<nat>)
    ensures |r| == d && forall i :: 0 <= i < d ==> r[i] == 0
  {
    seq(d, _ => 0)
  }

  /** The keys for which there is no row at all. */
  function Missing(w: seq<seq<nat>>, y: seq<seq<nat>>): seq<seq<nat>> {
    NubOf(Less(w, y))
  }

  /** Whether a row of zeros is added so that every cell is made: some framed axis is not sparse, and the
      missing keys have no atoms. */
  predicate Dummy(d: nat, h: nat, missing: seq<seq<nat>>) {
    d < h && |missing| * d == 0
  }

  /** Rows for all cells of a missing key, and for all cells of a key that is there. */
  function Expanded(d: nat, h: nat, w: seq<seq<nat>>, y: seq<seq<nat>>, cells: seq<seq<nat>>): seq<seq<nat>> {
    var p := Missing(w, y);
    var dummy := Dummy(d, h, p);
    var p' := Stitch(if dummy then p + [Zeros(d)] else p, cells);
    var t := Stitch(NubOf(Common(y, w)), cells);
    if t == [] then p' else if dummy then NubOf(p' + t) else p' + t
  }

  /** The rows to add. */
  function NewRows<T>(z: Sparse<T>, h: nat, ind: seq<seq<nat>>, table: bool): seq<seq<nat>>
    requires Ascending(z.axes, |z.shape|) && forall t :: 0 <= t < |ind| ==> |ind[t]| == h
    requires forall q :: 0 <= q < |z.rows| ==> |z.rows[q]| == |z.axes|
  {
    var d := Framed(z, h);
    var w, y := Keys(z, h, ind, table), Heads(z.rows, d);
    if d == |z.axes| then Missing(w, y)
    else Less(Expanded(d, h, w, y, Odometer(z.Lengths()[d..])), z.rows)
  }

  // ---- Which rows these are.

  lemma InMissing(w: seq<seq<nat>>, y: seq<seq<nat>>)
    ensures Distinct(Missing(w, y))
    ensures forall x :: x in Missing(w, y) <==> x in w && x !in y
  {
    InNub(Less(w, y));
  }

  lemma InExpanded(d: nat, h: nat, w: seq<seq<nat>>, y: seq<seq<nat>>, cells: seq<seq<nat>>, r: seq<nat>)
    requires (forall i :: 0 <= i < |w| ==> |w[i]| == d) && forall i :: 0 <= i < |y| ==> |y[i]| == d
    ensures r in Expanded(d, h, w, y, cells) <==>
            d <= |r| && r[d..] in cells && (r[..d] in w || (Dummy(d, h, Missing(w, y)) && r[..d] == Zeros(d)))
  {
    hide Missing, Common, Dummy, Stitch, Distinct, NubOf;
    var p := Missing(w, y);
    InMissing(w, y);
    InNub(Common(y, w));
    var dummy, t := Dummy(d, h, p), NubOf(Common(y, w));
    var p2 := if dummy then p + [Zeros(d)] else p;
    AllLong(w, p, d);
    AllLong(w, t, d);
    InStitch(p2, cells, d, r);
    InStitch(t, cells, d, r);
    InNub(Stitch(p2, cells) + Stitch(t, cells));
  }

  lemma AllLong(w: seq<seq<nat>>, p: seq<seq<nat>>, d: nat)
    requires (forall i :: 0 <= i < |w| ==> |w[i]| == d) && forall x :: x in p ==> x in w
    ensures forall i :: 0 <= i < |p| ==> |p[i]| == d
  {
    forall i | 0 <= i < |p| ensures |p[i]| == d {
      assert p[i] in p;
    }
  }

  /** The dummy row of zeros comes on top of a missing key that is as empty as it is: every cell is made
      twice.  No sparse axis is framed, and the array has no rows yet. */
  predicate Twice<T>(z: Sparse<T>, h: nat, ind: seq<seq<nat>>, table: bool)
    requires Ascending(z.axes, |z.shape|)
  {
    && Framed(z, h) == 0 && 0 < h && 0 < |z.axes| && table && ind != [] && z.rows == []
    && Cells(z.Lengths(), |z.axes|) > 0
  }

  lemma ExpandedIs(d: nat, h: nat, w: seq<seq<nat>>, y: seq<seq<nat>>, cells: seq<seq<nat>>)
    ensures var p := Missing(w, y);
            var dummy := Dummy(d, h, p);
            var s, t := Stitch(if dummy then p + [Zeros(d)] else p, cells), Stitch(NubOf(Common(y, w)), cells);
            Expanded(d, h, w, y, cells) == if t == [] then s else if dummy then NubOf(s + t) else s + t
  {
  }

  lemma ExpandedDistinct(d: nat, h: nat, w: seq<seq<nat>>, y: seq<seq<nat>>, cells: seq<seq<nat>>)
    requires (forall i :: 0 <= i < |w| ==> |w[i]| == d) && (forall i :: 0 <= i < |y| ==> |y[i]| == d) && Distinct(cells)
    ensures Distinct(Expanded(d, h, w, y, cells)) <==> !(d == 0 && 0 < h && w != [] && y == [] && cells != [])
  {
    hide *;
    var p, u := Missing(w, y), NubOf(Common(y, w));
    ExpandedIs(d, h, w, y, cells);
    InMissing(w, y);
    InNub(Common(y, w));
    AllLong(w, p, d);
    AllLong(w, u, d);
    DummyZeros(d, h, w, y);
    var p2 := if Dummy(d, h, p) then p + [Zeros(d)] else p;
    InNub(Stitch(p2, cells) + Stitch(u, cells));
    if cells == [] {
      NothingDistinct(p2, cells);
      NothingDistinct(u, cells);
    } else if d == 0 && 0 < h && w != [] && y == [] {
      MadeTwice(h, w, y, cells);
    } else {
      StitchDistinct(p2, cells, d);
      if !Dummy(d, h, p) {
        BothDistinct(p, u, cells, d);
      }
    }
  }

  lemma NothingDistinct(p: seq<seq<nat>>, cells: seq<seq<nat>>)
    requires cells == []
    ensures Stitch(p, cells) == [] && Distinct(Stitch(p, cells))
  {
  }

  lemma NoLength(x: seq<nat>, y: seq<nat>)
    requires |x| == |y| == 0
    ensures x == y
  {
  }

  /** The missing keys if rows have no length. */
  lemma MissingEmpty(w: seq<seq<nat>>, y: seq<seq<nat>>)
    requires (forall i :: 0 <= i < |w| ==> |w[i]| == 0) && forall i :: 0 <= i < |y| ==> |y[i]| == 0
    ensures Missing(w, y) == if w != [] && y == [] then [[]] else []
  {
    var p := Missing(w, y);
    InMissing(w, y);
    AllLong(w, p, 0);
    if |p| > 1 {
      NoLength(p[0], p[1]);
    }
    if w != [] {
      assert w[0] in w;
    }
    if y != [] {
      assert y[0] in y && y[0] == [];
    }
    if p != [] {
      assert p[0] in p;
    }
    hide Missing;
  }

  lemma DummyZeros(d: nat, h: nat, w: seq<seq<nat>>, y: seq<seq<nat>>)
    requires (forall i :: 0 <= i < |w| ==> |w[i]| == d) && (forall i :: 0 <= i < |y| ==> |y[i]| == d)
    ensures d == 0 ==> (Dummy(d, h, Missing(w, y)) <==> 0 < h)
    ensures var p := Missing(w, y);
            Dummy(d, h, p) ==> d < h && (Distinct(p + [Zeros(d)]) <==> !(d == 0 && w != [] && y == []))
  {
    hide Missing;
    var p := Missing(w, y);
    TimesZero(|p|, d);
    if d == 0 {
      MissingEmpty(w, y);
      if p != [] {
        NoLength(p[0], Zeros(0));
        var p2 := p + [Zeros(d)];
        assert p2[0] == p2[1];
      }
    }
    if p == [] {
      assert p + [Zeros(d)] == [Zeros(d)];
    }
  }

  lemma MadeTwice(h: nat, w: seq<seq<nat>>, y: seq<seq<nat>>, cells: seq<seq<nat>>)
    requires 0 < h && w != [] && y == [] && cells != [] && forall i :: 0 <= i < |w| ==> |w[i]| == 0
    ensures !Distinct(Expanded(0, h, w, y, cells))
  {
    MissingEmpty(w, y);
    ExpandedIs(0, h, w, y, cells);
    var p2: seq<seq<nat>> := [[]] + [Zeros(0)];
    assert Common(y, w) == [];
    var s := Stitch(p2, cells);
    StitchedAt(p2, cells, 0, 0);
    StitchedAt(p2, cells, 1, 0);
    assert s[0] == s[|cells|];
    hide Missing, Expanded, Common, Stitch;
  }

  lemma BothDistinct(p: seq<seq<nat>>, t: seq<seq<nat>>, cells: seq<seq<nat>>, d: nat)
    requires Distinct(p) && Distinct(t) && Distinct(cells) && forall x :: x in p ==> x !in t
    requires (forall i :: 0 <= i < |p| ==> |p[i]| == d) && forall i :: 0 <= i < |t| ==> |t[i]| == d
    ensures Distinct(Stitch(p, cells) + Stitch(t, cells))
  {
    StitchDistinct(p, cells, d);
    StitchDistinct(t, cells, d);
    var s, s' := Stitch(p, cells), Stitch(t, cells);
    forall k, l | 0 <= k < |s| && 0 <= l < |s'| ensures s[k] != s'[l] {
      assert s[k] in s && s'[l] in s';
      InStitch(p, cells, d, s[k]);
      InStitch(t, cells, d, s'[l]);
    }
  }

  ghost predicate RowsLong<T>(z: Sparse<T>) {
    forall q :: 0 <= q < |z.rows| ==> |z.rows[q]| == |z.axes|
  }

  lemma ValidLong<T>(z: Sparse<T>)
    requires z.Valid()
    ensures RowsLong(z) && z.Shaped() && |z.rows| == |z.items|
  {
  }

  ghost predicate IndexLong(h: nat, ind: seq<seq<nat>>) {
    forall t :: 0 <= t < |ind| ==> |ind[t]| == h
  }

  lemma InHeads(rows: seq<seq<nat>>, d: nat, r: seq<nat>)
    requires forall q :: 0 <= q < |rows| ==> |rows[q]| == d
    ensures r in Heads(rows, d) <==> r in rows
  {
    var y := Heads(rows, d);
    forall q | 0 <= q < |rows| ensures y[q] == rows[q] {
    }
    assert y == rows;
  }

  /** A row is added exactly if it is not there yet and is a cell of a key, or of the dummy. */
  lemma InNewRows<T>(z: Sparse<T>, h: nat, ind: seq<seq<nat>>, table: bool, r: seq<nat>)
    requires z.Shaped() && RowsLong(z) && IndexLong(h, ind)
    ensures var d, sv := Framed(z, h), z.Lengths();
            var w, y := Keys(z, h, ind, table), Heads(z.rows, d);
            r in NewRows(z, h, ind, table) <==>
            && r !in z.rows && |r| == |z.axes| && InRange(r[d..], sv[d..], |z.axes| - d)
            && (r[..d] in w || (d < |z.axes| && Dummy(d, h, Missing(w, y)) && r[..d] == Zeros(d)))
  {
    hide Missing, Keys, Expanded, Dummy, Odometer;
    var d, sv := Framed(z, h), z.Lengths();
    var w, y := Keys(z, h, ind, table), Heads(z.rows, d);
    if d == |z.axes| {
      InMissing(w, y);
      InHeads(z.rows, d, r);
      assert |r| == d ==> r[..d] == r;
      KeyLong(w, d, r);
    } else {
      InExpanded(d, h, w, y, Odometer(sv[d..]), r);
      if d <= |r| {
        OdometerHas(sv[d..], r[d..]);
      }
    }
  }

  lemma KeyLong(w: seq<seq<nat>>, d: nat, r: seq<nat>)
    requires forall i :: 0 <= i < |w| ==> |w[i]| == d
    ensures r in w ==> |r| == d
  {
  }

  lemma {:induction false} LessNone<K(!new)>(s: seq<K>)
    ensures Less(s, []) == s
  {
    if s != [] {
      LessNone(s[..|s| - 1]);
      assert s == s[..|s| - 1] + [s[|s| - 1]];
    }
  }

  /** No row is added twice, except in one case. */
  lemma NewRowsDistinct<T>(z: Sparse<T>, h: nat, ind: seq<seq<nat>>, table: bool)
    requires z.Shaped() && RowsLong(z) && IndexLong(h, ind)
    ensures Distinct(NewRows(z, h, ind, table)) <==> !Twice(z, h, ind, table)
  {
    hide Missing, Keys, Expanded, Odometer, Distinct, Framed;
    var d, sv := Framed(z, h), z.Lengths();
    var w, y := Keys(z, h, ind, table), Heads(z.rows, d);
    if d == |z.axes| {
      InMissing(w, y);
    } else {
      var cells := Odometer(sv[d..]);
      OdometerDistinct(sv[d..]);
      ExpandedDistinct(d, h, w, y, cells);
      var e := Expanded(d, h, w, y, cells);
      assert d == 0 ==> sv[d..] == sv;
      if Distinct(e) {
        LessDistinct(e, z.rows);
      } else {
        LessNone(e);
      }
    }
  }

  /** The dummy row of zeros is not an index if an axis has no indexes. */
  ghost predicate Outside<T>(z: Sparse<T>, h: nat)
    requires z.Shaped()
  {
    var d, sv := Framed(z, h), z.Lengths();
    && 0 < d < h && d < |z.axes| && Cells(sv[d..], |z.axes| - d) > 0
    && exists i :: 0 <= i < d && sv[i] == 0
  }

  ghost predicate AllFitIn<T>(z: Sparse<T>, p: seq<seq<nat>>)
    requires z.Shaped()
  {
    forall r :: r in p ==> z.RowFits(r)
  }

  lemma RangeParts(r: seq<nat>, sv: seq<nat>, d: nat)
    requires d <= |r| == |sv|
    ensures InRange(r, sv, |sv|) <==> InRange(r[..d], sv, d) && InRange(r[d..], sv[d..], |sv| - d)
  {
    if InRange(r[..d], sv, d) && InRange(r[d..], sv[d..], |sv| - d) {
      forall i | 0 <= i < |sv| ensures r[i] < sv[i] {
        if i < d {
          assert r[..d][i] < sv[i];
        } else {
          assert r[d..][i - d] < sv[d..][i - d];
        }
      }
    }
  }

  lemma KeysFit<T>(z: Sparse<T>, h: nat, ind: seq<seq<nat>>, table: bool, k: seq<nat>)
    requires z.Shaped() && IndexTable(z, h, ind) && k in Keys(z, h, ind, table)
    ensures |k| == Framed(z, h) && InRange(k, z.Lengths(), Framed(z, h)) && ind != []
  {
    var t :| 0 <= t < |Keys(z, h, ind, table)| && Keys(z, h, ind, table)[t] == k;
    KeyFits(z, h, ind, t);
  }

  /** Every row that is added is in range, except in one case. */
  lemma NewRowsFit<T>(z: Sparse<T>, h: nat, ind: seq<seq<nat>>, table: bool)
    requires z.Valid() && IndexTable(z, h, ind)
    ensures AllFitIn(z, NewRows(z, h, ind, table)) <==> !Outside(z, h)
  {
    ValidLong(z);
    if Outside(z, h) {
      OutsideRow(z, h, ind, table);
    } else {
      forall r | r in NewRows(z, h, ind, table) ensures z.RowFits(r) {
        NewRowFits(z, h, ind, table, r);
      }
    }
    hide *;
  }

  lemma NewRowFits<T>(z: Sparse<T>, h: nat, ind: seq<seq<nat>>, table: bool, r: seq<nat>)
    requires z.Valid() && IndexTable(z, h, ind) && RowsLong(z) && !Outside(z, h) && r in NewRows(z, h, ind, table)
    ensures z.RowFits(r)
  {
    hide *;
    ValidLong(z);
    ShapedIs(z);
    IndexTableLong(z, h, ind);
    var d, sv := Framed(z, h), z.Lengths();
    InNewRows(z, h, ind, table, r);
    RangeParts(r, sv, d);
    if r[..d] in Keys(z, h, ind, table) {
      KeysFit(z, h, ind, table, r[..d]);
    } else {
      CellsOfRange(r[d..], sv[d..], |z.axes| - d);
      ZerosFit(z, h, Missing(Keys(z, h, ind, table), Heads(z.rows, d)));
    }
    RowFitsIs(z, r);
  }

  lemma IndexTableLong<T>(z: Sparse<T>, h: nat, ind: seq<seq<nat>>)
    requires IndexTable(z, h, ind)
    ensures IndexLong(h, ind) && forall t :: 0 <= t < |ind| ==> |ind[t]| == h
  {
  }

  lemma ShapedIs<T>(z: Sparse<T>)
    requires z.Shaped() && RowsLong(z)
    ensures Ascending(z.axes, |z.shape|) && forall q :: 0 <= q < |z.rows| ==> |z.rows[q]| == |z.axes|
  {
  }

  lemma RowFitsIs<T>(z: Sparse<T>, r: seq<nat>)
    requires z.Shaped()
    ensures z.RowFits(r) <==> |r| == |z.axes| && InRange(r, z.Lengths(), |z.axes|)
  {
  }

  lemma ZerosFit<T>(z: Sparse<T>, h: nat, missing: seq<seq<nat>>)
    requires z.Shaped() && !Outside(z, h)
    ensures var d, sv := Framed(z, h), z.Lengths();
            Dummy(d, h, missing) && d < |z.axes| && Cells(sv[d..], |z.axes| - d) > 0 ==> InRange(Zeros(d), sv, d)
  {
    hide Framed, Cells, Select;
  }

  lemma CellsOfRange(r: seq<nat>, sv: seq<nat>, n: nat)
    requires InRange(r, sv, n)
    ensures Cells(sv, n) > 0
  {
    CellBound(r, sv, n);
  }

  lemma MissingNone(w: seq<seq<nat>>, y: seq<seq<nat>>)
    requires w == []
    ensures Missing(w, y) == []
  {
  }

  lemma OutsideRow<T>(z: Sparse<T>, h: nat, ind: seq<seq<nat>>, table: bool)
    requires z.Valid() && IndexTable(z, h, ind) && Outside(z, h)
    ensures !AllFitIn(z, NewRows(z, h, ind, table))
  {
    ValidLong(z);
    var d, sv := Framed(z, h), z.Lengths();
    hide Missing, Cells, NewRows;
    var w, y := Keys(z, h, ind, table), Heads(z.rows, d);
    var i :| 0 <= i < d && sv[i] == 0;
    if ind != [] {
      KeyFits(z, h, ind, 0);
    }
    MissingNone(w, y);
    var cell := Digits(sv[d..], |z.axes| - d, 0);
    var r := Zeros(d) + cell;
    assert r[..d] == Zeros(d) && r[d..] == cell;
    assert r[i] == 0;
    assert !z.RowFits(r);
    assert r !in z.rows;
    InNewRows(z, h, ind, table, r);
    assert r in NewRows(z, h, ind, table);
  }

  // ---- Padding.

  /** z with the first k rows of p put in their places. */
  function AddRows<T>(z: Sparse<T>, p: seq<seq<nat>>, k: nat): (r: Sparse<T>)
    requires |z.rows| == |z.items| && k <= |p|
    ensures |r.rows| == |r.items|
  {
    if k == 0 then z else WithRow(AddRows(z, p, k - 1), p[k - 1])
  }

  function Padded<T>(z: Sparse<T>, h: nat, ind: seq<seq<nat>>, table: bool): Sparse<T>
    requires Ascending(z.axes, |z.shape|) && forall t :: 0 <= t < |ind| ==> |ind[t]| == h
    requires |z.rows| == |z.items| && forall q :: 0 <= q < |z.rows| ==> |z.rows[q]| == |z.axes|
  {
    var p := NewRows(z, h, ind, table);
    AddRows(z, p, |p|)
  }

  lemma {:induction false} AddRowsHas<T>(z: Sparse<T>, p: seq<seq<nat>>, k: nat)
    requires |z.rows| == |z.items| && k <= |p|
    ensures multiset(AddRows(z, p, k).rows) == multiset(z.rows) + multiset(p[..k])
    ensures forall r :: r in AddRows(z, p, k).rows <==> r in z.rows || r in p[..k]
    ensures Alike(z, AddRows(z, p, k))
  {
    hide *;
    if k > 0 {
      AddRowsHas(z, p, k - 1);
      AddRowsIs(z, p, k);
      WithRowHas(AddRows(z, p, k - 1), p[k - 1]);
      WithRowIs(AddRows(z, p, k - 1), p[k - 1]);
      AlikeBoth(z, AddRows(z, p, k - 1), AddRows(z, p, k));
      OneMoreOf(p, k);
      assert p[..k] == p[..k - 1] + [p[k - 1]];
    } else {
      AddRowsNone(z, p);
    }
  }

  lemma AddRowsNone<T>(z: Sparse<T>, p: seq<seq<nat>>)
    requires |z.rows| == |z.items|
    ensures AddRows(z, p, 0) == z && Alike(z, z)
  {
  }

  lemma {:induction false} AddRowsValid<T>(z: Sparse<T>, p: seq<seq<nat>>, k: nat)
    requires z.Valid() && k <= |p| && Distinct(p) && AllFitIn(z, p) && forall r :: r in p ==> r !in z.rows
    ensures AddRows(z, p, k).Valid() && Alike(z, AddRows(z, p, k))
    ensures forall ix | z.IndexFits(ix) :: AddRows(z, p, k).IndexFits(ix) && AddRows(z, p, k).At(ix) == z.At(ix)
  {
    hide *;
    ValidLong(z);
    if k > 0 {
      AddRowsValid(z, p, k - 1);
      AddRowsHas(z, p, k - 1);
      AddRowsStep(z, p, k);
    } else {
      AddRowsNone(z, p);
    }
  }

  lemma AddRowsStep<T>(z: Sparse<T>, p: seq<seq<nat>>, k: nat)
    requires z.Valid() && 0 < k <= |p| && Distinct(p) && AllFitIn(z, p) && forall r :: r in p ==> r !in z.rows
    requires AddRows(z, p, k - 1).Valid() && Alike(z, AddRows(z, p, k - 1))
    requires forall r :: r in AddRows(z, p, k - 1).rows <==> r in z.rows || r in p[..k - 1]
    requires forall ix | z.IndexFits(ix) :: AddRows(z, p, k - 1).IndexFits(ix) && AddRows(z, p, k - 1).At(ix) == z.At(ix)
    ensures AddRows(z, p, k).Valid() && Alike(z, AddRows(z, p, k))
    ensures forall ix | z.IndexFits(ix) :: AddRows(z, p, k).IndexFits(ix) && AddRows(z, p, k).At(ix) == z.At(ix)
  {
    ValidLong(z);
    var y := AddRows(z, p, k - 1);
    assert p[k - 1] in p && p[k - 1] !in p[..k - 1];
    AlikeFits(z, y);
    AddRowsIs(z, p, k);
    hide *;
    WithRowKeeps(y, p[k - 1]);
    AlikeBoth(z, y, WithRow(y, p[k - 1]));
  }

  lemma AddRowsIs<T>(z: Sparse<T>, p: seq<seq<nat>>, k: nat)
    requires |z.rows| == |z.items| && 0 < k <= |p|
    ensures AddRows(z, p, k) == WithRow(AddRows(z, p, k - 1), p[k - 1])
  {
  }

  lemma AlikeBoth<T>(x: Sparse<T>, y: Sparse<T>, z: Sparse<T>)
    requires Alike(x, y) && Alike(y, z)
    ensures Alike(x, z)
  {
  }

  /** Padding changes no atom, keeps the rows in range, in order and distinct, and adds the new rows; but
      for the two cases above. */
  lemma PadKeeps<T>(z: Sparse<T>, h: nat, ind: seq<seq<nat>>, table: bool)
    requires z.Valid() && IndexTable(z, h, ind) && !Twice(z, h, ind, table) && !Outside(z, h)
    ensures Padded(z, h, ind, table).Valid() && Alike(z, Padded(z, h, ind, table))
    ensures forall ix | z.IndexFits(ix) ::
              Padded(z, h, ind, table).IndexFits(ix) && Padded(z, h, ind, table).At(ix) == z.At(ix)
  {
    hide *;
    ValidLong(z);
    ShapedIs(z);
    IndexTableLong(z, h, ind);
    var p := NewRows(z, h, ind, table);
    NewRowsDistinct(z, h, ind, table);
    NewRowsFit(z, h, ind, table);
    forall r | r in p ensures r !in z.rows {
      InNewRows(z, h, ind, table, r);
    }
    AddRowsValid(z, p, |p|);
    PaddedIs(z, h, ind, table);
  }

  lemma PaddedIs<T>(z: Sparse<T>, h: nat, ind: seq<seq<nat>>, table: bool)
    requires Ascending(z.axes, |z.shape|) && |z.rows| == |z.items|
    requires forall t :: 0 <= t < |ind| ==> |ind[t]| == h
    requires forall q :: 0 <= q < |z.rows| ==> |z.rows[q]| == |z.axes|
    ensures var p := NewRows(z, h, ind, table); Padded(z, h, ind, table) == AddRows(z, p, |p|) && p[..|p|] == p
  {
  }

  /** The two cases are exactly the ones in which the padded array is not well formed. */
  lemma PadValidIff<T>(z: Sparse<T>, h: nat, ind: seq<seq<nat>>, table: bool)
    requires z.Valid() && IndexTable(z, h, ind)
    ensures Padded(z, h, ind, table).Valid() <==> !Twice(z, h, ind, table) && !Outside(z, h)
  {
    hide *;
    ValidLong(z);
    ShapedIs(z);
    IndexTableLong(z, h, ind);
    var p, r := NewRows(z, h, ind, table), Padded(z, h, ind, table);
    if !Twice(z, h, ind, table) && !Outside(z, h) {
      PadKeeps(z, h, ind, table);
    } else {
      NewRowsDistinct(z, h, ind, table);
      NewRowsFit(z, h, ind, table);
      PaddedIs(z, h, ind, table);
      AddRowsHas(z, p, |p|);
      if r.Valid() {
        ValidRows(z, r, p);
      }
    }
  }

  /** What a well-formed array says of rows that were added to it. */
  lemma ValidRows<T>(z: Sparse<T>, r: Sparse<T>, p: seq<seq<nat>>)
    requires z.Shaped() && r.Valid() && Alike(z, r) && multiset(r.rows) == multiset(z.rows) + multiset(p)
    requires forall x :: x in r.rows <==> x in z.rows || x in p
    ensures Distinct(p) && AllFitIn(z, p)
  {
    forall i, j | 0 <= i < j < |p| ensures p[i] != p[j] {
      if p[i] == p[j] {
        CountedTwice(p, i, j);
        OnceOnly(r.rows, p[i]);
      }
    }
    AlikeFits(z, r);
    forall x | x in p ensures z.RowFits(x) {
      var q :| 0 <= q < |r.rows| && r.rows[q] == x;
      assert r.RowFits(r.rows[q]);
    }
  }

  lemma CountedTwice(p: seq<seq<nat>>, i: nat, j: nat)
    requires i < j < |p| && p[i] == p[j]
    ensures multiset(p)[p[i]] >= 2
  {
    assert p == p[..i] + [p[i]] + p[i + 1..j] + [p[j]] + p[j + 1..];
  }

  lemma {:induction false} OnceOnly(rows: seq<seq<nat>>, x: seq<nat>)
    requires Sorted(rows)
    ensures multiset(rows)[x] <= 1
  {
    if rows != [] {
      var init := rows[..|rows| - 1];
      assert rows == init + [rows[|rows| - 1]];
      OnceOnly(init, x);
      if rows[|rows| - 1] == x && x in init {
        var i :| 0 <= i < |init| && init[i] == x;
        BeforeDiffers(rows[i], rows[|rows| - 1]);
      }
    }
  }

  /** Every cell that an index row addresses has its row. */
  ghost predicate Complete<T>(z: Sparse<T>, rows: seq<seq<nat>>, h: nat, ind: seq<seq<nat>>)
    requires z.Shaped() && IndexTable(z, h, ind)
  {
    forall t: nat, r :: t < |ind| && z.RowFits(r) && r[..Framed(z, h)] == Key(z, h, ind[t]) ==> r in rows
  }

  /** After padding every addressed cell has its row, unless the index array is not a table, no axis it
      indexes is sparse, and it indexes no axis or there is no sparse axis at all. */
  lemma PadCompleteIff<T>(z: Sparse<T>, h: nat, ind: seq<seq<nat>>, table: bool)
    requires z.Valid() && IndexTable(z, h, ind)
    ensures var d := Framed(z, h);
            Complete(z, Padded(z, h, ind, table).rows, h, ind) <==>
            table || 0 < d || (0 < h && 0 < |z.axes|) || Complete(z, z.rows, h, ind)
  {
    hide *;
    ValidLong(z);
    ShapedIs(z);
    IndexTableLong(z, h, ind);
    PaddedIs(z, h, ind, table);
    var p, d := NewRows(z, h, ind, table), Framed(z, h);
    AddRowsHas(z, p, |p|);
    CompleteMore(z, z.rows, Padded(z, h, ind, table).rows, h, ind);
    RowsOfLength(z);
    if table || 0 < d || (0 < h && 0 < |z.axes|) {
      forall t: nat, r | t < |ind| && z.RowFits(r) && r[..d] == Key(z, h, ind[t])
        ensures r in Padded(z, h, ind, table).rows
      {
        CellAdded(z, h, ind, table, t, r);
      }
      CompleteIf(z, Padded(z, h, ind, table).rows, h, ind);
    } else {
      NothingAdded(z, h, ind, table);
    }
  }

  lemma RowsOfLength<T>(z: Sparse<T>)
    requires z.Shaped()
    ensures forall r :: z.RowFits(r) ==> |r| == |z.axes|
  {
  }

  lemma CompleteMore<T>(z: Sparse<T>, rows: seq<seq<nat>>, rows': seq<seq<nat>>, h: nat, ind: seq<seq<nat>>)
    requires z.Shaped() && IndexTable(z, h, ind) && forall r :: r in rows ==> r in rows'
    ensures Complete(z, rows, h, ind) ==> Complete(z, rows', h, ind)
    ensures (forall r :: r in rows' ==> r in rows) && Complete(z, rows', h, ind) ==> Complete(z, rows, h, ind)
  {
  }

  lemma CompleteIf<T>(z: Sparse<T>, rows: seq<seq<nat>>, h: nat, ind: seq<seq<nat>>)
    requires z.Shaped() && IndexTable(z, h, ind)
    requires forall t: nat, r :: t < |ind| && z.RowFits(r) && r[..Framed(z, h)] == Key(z, h, ind[t]) ==> r in rows
    ensures Complete(z, rows, h, ind)
  {
  }

  /** A cell of an index row is there, or is added. */
  lemma CellAdded<T>(z: Sparse<T>, h: nat, ind: seq<seq<nat>>, table: bool, t: nat, r: seq<nat>)
    requires z.Shaped() && RowsLong(z) && IndexTable(z, h, ind) && IndexLong(h, ind) && t < |ind| && z.RowFits(r)
    requires r[..Framed(z, h)] == Key(z, h, ind[t])
    requires table || 0 < Framed(z, h) || (0 < h && 0 < |z.axes|)
    ensures r in z.rows || r in NewRows(z, h, ind, table)
  {
    hide *;
    ShapedIs(z);
    IndexTableLong(z, h, ind);
    var d, sv := Framed(z, h), z.Lengths();
    InNewRows(z, h, ind, table, r);
    RowFitsIs(z, r);
    RangeParts(r, sv, d);
    var w := Keys(z, h, ind, table);
    if table || 0 < d {
      assert w[t] == r[..d];
      assert r[..d] in w;
    } else {
      DummyEmpty(h, Missing(w, Heads(z.rows, d)));
      assert r[..d] == Zeros(0);
    }
  }

  lemma DummyEmpty(h: nat, missing: seq<seq<nat>>)
    requires 0 < h
    ensures Dummy(0, h, missing)
  {
  }

  lemma NothingAdded<T>(z: Sparse<T>, h: nat, ind: seq<seq<nat>>, table: bool)
    requires z.Shaped() && RowsLong(z) && IndexTable(z, h, ind) && IndexLong(h, ind)
    requires !table && 0 == Framed(z, h) && (h == 0 || |z.axes| == 0)
    ensures NewRows(z, h, ind, table) == []
  {
    hide Missing;
    var w, y, p := Keys(z, h, ind, table), Heads(z.rows, 0), NewRows(z, h, ind, table);
    MissingNone(w, y);
    forall r ensures r !in p {
      InNewRows(z, h, ind, table, r);
    }
    FirstMember(p);
  }

  lemma FirstMember(p: seq<seq<nat>>)
    ensures p == [] || p[0] in p
  {
  }

  /** A table of an axis that is not sparse, into an array that has no rows: each row is made twice. */
  lemma TwiceExample()
    ensures var z := Sparse([2, 1], [1], 0, [], []);
            && z.Valid() && IndexTable(z, 1, [[0]]) && Twice(z, 1, [[0]], true)
            && !Padded(z, 1, [[0]], true).Valid()
  {
    var z := Sparse([2, 1], [1], 0, [], []);
    assert z.Valid();
    assert Framed(z, 1) == 0;
    assert z.Lengths() == [1];
    assert Cells([1], 1) == Cells([1], 0) * 1;
    PadValidIff(z, 1, [[0]], true);
  }

  /** An empty table for an axis of length 0 and one that is not sparse: the row of zeros that is added is no
      index of the array. */
  lemma OutsideExample()
    ensures var z := Sparse([0, 1, 1], [0, 2], 0, [], []);
            && z.Valid() && IndexTable(z, 2, []) && Outside(z, 2)
            && !Padded(z, 2, [], true).Valid()
  {
    var z := Sparse([0, 1, 1], [0, 2], 0, [], []);
    assert z.Valid();
    FramedIs(z, 2);
    assert z.axes[0] == 0 && z.axes[1] == 2;
    assert Framed(z, 2) == 1;
    assert z.Lengths() == [0, 1] && z.Lengths()[1..] == [1] && z.Lengths()[0] == 0;
    assert Cells([1], 1) == Cells([1], 0) * 1;
    PadValidIff(z, 2, [], true);
    hide *;
  }
}
