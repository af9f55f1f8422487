/** Sparse arrays: a table of index rows over the sparse axes, an item of values over the other axes for
    each row, and one element for everything else. */
module SparseSpec {
  import opened Arith
  import opened CellOffset
  import opened Classes

  // ---- Index rows in order.

  /** Lexicographic order of rows of one length. */
  predicate Before(x: seq<nat>, y: seq<nat>) {
    |x| > 0 && |y| > 0 && (x[0] < y[0] || (x[0] == y[0] && Before(x[1..], y[1..])))
  }

  lemma {:induction false} BeforeTotal(x: seq<nat>, y: seq<nat>)
    requires |x| == |y|
    ensures Before(x, y) || x == y || Before(y, x)
  {
    if |x| > 0 && x[0] == y[0] {
      BeforeTotal(x[1..], y[1..]);
      assert x == [x[0]] + x[1..] && y == [y[0]] + y[1..];
    }
  }

  lemma {:induction false} BeforeTransitive(x: seq<nat>, y: seq<nat>, z: seq<nat>)
    requires Before(x, y) && Before(y, z)
    ensures Before(x, z)
  {
    if x[0] == y[0] && y[0] == z[0] {
      BeforeTransitive(x[1..], y[1..], z[1..]);
    }
  }

  lemma {:induction false} BeforeDiffers(x: seq<nat>, y: seq<nat>)
    requires Before(x, y)
    ensures x != y && !Before(y, x)
  {
    if x[0] == y[0] {
      BeforeDiffers(x[1..], y[1..]);
    }
  }

  lemma {:induction false} BeforeDecides(x: seq<nat>, y: seq<nat>) returns (d: nat)
    requires Before(x, y)
    ensures d < |x| && d < |y| && x[d] < y[d] && forall i :: 0 <= i < d ==> x[i] == y[i]
  {
    d := 0;
    if x[0] == y[0] {
      var e := BeforeDecides(x[1..], y[1..]);
      d := e + 1;
      forall i | 0 <= i < d ensures x[i] == y[i] {
        if i > 0 {
          assert x[i] == x[1..][i - 1];
        }
      }
    }
  }

  /** In range, the order of rows is the order of their cell numbers. */
  lemma BeforeIsCell(x: seq<nat>, y: seq<nat>, sv: seq<nat>)
    requires |x| == |y| == |sv| && InRange(x, sv, |sv|) && InRange(y, sv, |sv|)
    ensures Before(x, y) <==> Cell(x, sv, |sv|) < Cell(y, sv, |sv|)
  {
    BeforeTotal(x, y);
    if Before(x, y) {
      var d := BeforeDecides(x, y);
      CellOrder(x, y, sv, |sv|, d);
    } else if Before(y, x) {
      var d := BeforeDecides(y, x);
      CellOrder(y, x, sv, |sv|, d);
    }
  }

  ghost predicate Sorted(rows: seq<seq<nat>>) {
    forall i, j :: 0 <= i < j < |rows| ==> Before(rows[i], rows[j])
  }

  // ---- Selecting axes.

  /** The items of s at the given places. */
  function Select(s: seq<nat>, axes: seq<nat>): (r: seq<nat>)
    requires forall i :: 0 <= i < |axes| ==> axes[i] < |s|
    ensures |r| == |axes| && forall i :: 0 <= i < |axes| ==> r[i] == s[axes[i]]
  {
    seq(|axes|, i requires 0 <= i < |axes| && axes[i] < |s| => s[axes[i]])
  }

  ghost predicate Ascending(axes: seq<nat>, r: nat) {
    && (forall i, j :: 0 <= i < j < |axes| ==> axes[i] < axes[j])
    && forall i :: 0 <= i < |axes| ==> axes[i] < r
  }

  /** The axes below r that are not listed. */
  function Others(axes: seq<nat>, r: nat): (o: seq<nat>)
    ensures forall i :: 0 <= i < |o| ==> o[i] < r && o[i] !in axes
    ensures forall i, j :: 0 <= i < j < |o| ==> o[i] < o[j]
    ensures forall k: nat :: k < r ==> k in axes || k in o
  {
    if r == 0 then [] else if r - 1 in axes then Others(axes, r - 1) else Others(axes, r - 1) + [r - 1]
  }

  /** How many of the first n axes are below h. */
  function Below(axes: seq<nat>, h: nat, n: nat): (d: nat)
    requires n <= |axes|
    ensures d <= n
  {
    if n == 0 then 0 else if axes[n - 1] < h then n else Below(axes, h, n - 1)
  }

  lemma {:induction false} BelowIs(axes: seq<nat>, h: nat, n: nat)
    requires n <= |axes| && forall i, j :: 0 <= i < j < |axes| ==> axes[i] < axes[j]
    ensures forall i :: 0 <= i < n ==> (axes[i] < h <==> i < Below(axes, h, n))
  {
    if n > 0 {
      BelowIs(axes, h, n - 1);
    }
  }

  // ---- Sparse arrays.

  datatype Sparse<T> = Sparse(shape: seq<nat>, axes: seq<nat>, element: T, rows: seq<seq<nat>>, items: seq<seq<T>>) {
    function Dense(): seq<nat> {
      Others(axes, |shape|)
    }

    ghost predicate Shaped() {
      Ascending(axes, |shape|)
    }

    function Lengths(): (sv: seq<nat>)
      requires forall i :: 0 <= i < |axes| ==> axes[i] < |shape|
      ensures |sv| == |axes|
    {
      Select(shape, axes)
    }

    function DenseLengths(): (sv: seq<nat>)
      ensures |sv| == |Dense()|
    {
      Select(shape, Dense())
    }

    /** The number of atoms of an item. */
    function ItemSize(): nat {
      Cells(DenseLengths(), |DenseLengths()|)
    }

    ghost predicate RowFits(row: seq<nat>)
      requires Shaped()
    {
      |row| == |axes| && InRange(row, Lengths(), |axes|)
    }

    /** The rows are in range and in order, each once, and each has its item. */
    ghost predicate Valid() {
      && Shaped() && |rows| == |items| && Sorted(rows)
      && (forall q :: 0 <= q < |rows| ==> RowFits(rows[q]))
      && forall q :: 0 <= q < |items| ==> |items[q]| == ItemSize()
    }

    ghost predicate IndexFits(ix: seq<nat>) {
      |ix| == |shape| && InRange(ix, shape, |shape|)
    }

    /** Where an index is: its row, and its place in the item. */
    function Row(ix: seq<nat>): (row: seq<nat>)
      requires Shaped() && |ix| == |shape|
    {
      Select(ix, axes)
    }

    function Offset(ix: seq<nat>): nat
      requires |ix| == |shape|
    {
      Cell(Select(ix, Dense()), DenseLengths(), |Dense()|)
    }

    /** The atom at an index of the array. */
    ghost function At(ix: seq<nat>): T
      requires Valid() && IndexFits(ix)
    {
      var q := ClassOf(rows, Row(ix));
      PlaceFits(ix);
      if q < |rows| then items[q][Offset(ix)] else element
    }

    lemma PlaceFits(ix: seq<nat>)
      requires Shaped() && IndexFits(ix)
      ensures RowFits(Row(ix)) && Offset(ix) < ItemSize()
    {
      CellBound(Select(ix, Dense()), DenseLengths(), |Dense()|);
    }
  }

  /** A row that is present decides the atom. */
  lemma AtRow<T>(z: Sparse<T>, ix: seq<nat>, q: nat)
    requires z.Valid() && z.IndexFits(ix) && q < |z.rows| && z.rows[q] == z.Row(ix)
    ensures z.Offset(ix) < |z.items[q]| && z.At(ix) == z.items[q][z.Offset(ix)]
  {
    z.PlaceFits(ix);
    var p := ClassOf(z.rows, z.Row(ix));
    if p < q {
      BeforeDiffers(z.rows[p], z.rows[q]);
    }
  }

  lemma AtNoRow<T>(z: Sparse<T>, ix: seq<nat>)
    requires z.Valid() && z.IndexFits(ix) && z.Row(ix) !in z.rows
    ensures z.At(ix) == z.element
  {
  }

  lemma {:induction false} AscendingSame(s: seq<nat>, t: seq<nat>)
    requires forall i, j :: 0 <= i < j < |s| ==> s[i] < s[j]
    requires forall i, j :: 0 <= i < j < |t| ==> t[i] < t[j]
    requires forall k: nat :: k in s <==> k in t
    ensures s == t
    decreases |s|
  {
    if s == [] {
      if t != [] {
        var k := Member(t);
      }
    } else {
      assert s[|s| - 1] in t;
      assert t != [] && t[|t| - 1] in s;
      var u, v := s[..|s| - 1], t[..|t| - 1];
      assert s == u + [s[|s| - 1]] && t == v + [t[|t| - 1]];
      forall k: nat ensures k in u <==> k in v {
        assert k in s <==> k in t;
      }
      AscendingSame(u, v);
    }
  }

  lemma Member(t: seq<nat>) returns (k: nat)
    requires t != []
    ensures k in t
  {
    k := t[0];
  }

  /** d lists the axes that are not sparse, ascending. */
  ghost predicate AreDense<T>(z: Sparse<T>, d: seq<nat>) {
    && (forall i :: 0 <= i < |d| ==> d[i] < |z.shape|) && (forall i, j :: 0 <= i < j < |d| ==> d[i] < d[j])
    && forall k: nat :: k in d <==> k < |z.shape| && k !in z.axes
  }

  /** A row has the indexes of the sparse axes. */
  ghost predicate IndexesOf<T>(z: Sparse<T>, ix: seq<nat>, row: seq<nat>) {
    |row| == |z.axes| && forall i :: 0 <= i < |row| ==> z.axes[i] < |ix| && row[i] == ix[z.axes[i]]
  }

  lemma DenseIs<T>(z: Sparse<T>, d: seq<nat>)
    requires AreDense(z, d)
    ensures (forall i :: 0 <= i < |d| ==> d[i] < |z.shape|) && z.Dense() == d && z.DenseLengths() == Select(z.shape, d)
  {
    var o := z.Dense();
    forall k: nat ensures k in o <==> k in d {
      if k in o {
        var i :| 0 <= i < |o| && o[i] == k;
      }
    }
    hide Others;
    AscendingSame(o, d);
  }

  lemma RowMeans<T>(z: Sparse<T>, ix: seq<nat>, row: seq<nat>)
    requires z.Shaped() && |ix| == |z.shape|
    ensures row == z.Row(ix) <==> IndexesOf(z, ix, row)
  {
    if IndexesOf(z, ix, row) {
      assert row == z.Row(ix);
    }
  }

  lemma OffsetMeans<T>(z: Sparse<T>, ix: seq<nat>, d: seq<nat>)
    requires AreDense(z, d) && |ix| == |z.shape|
    ensures (forall i :: 0 <= i < |d| ==> d[i] < |z.shape|)
    ensures z.Offset(ix) == Cell(Select(ix, d), Select(z.shape, d), |d|)
  {
    DenseIs(z, d);
    hide Select, Cell;
  }

  /** The array denoted: a row whose indexes are those of the sparse axes has the atom in its item, at the place in
      row-major order of the indexes of the other axes d; without such a row the atom is the element. */
  lemma AtMeans<T>(z: Sparse<T>, ix: seq<nat>, d: seq<nat>, q: nat)
    requires z.Valid() && z.IndexFits(ix) && |ix| == |z.shape| && AreDense(z, d) && forall i :: 0 <= i < |d| ==> d[i] < |ix|
    ensures q < |z.rows| == |z.items| && IndexesOf(z, ix, z.rows[q]) ==>
              var k := Cell(Select(ix, d), Select(z.shape, d), |d|);
              k < |z.items[q]| && z.At(ix) == z.items[q][k]
    ensures (forall p: nat :: p < |z.rows| ==> !IndexesOf(z, ix, z.rows[p])) ==> z.At(ix) == z.element
  {
    OffsetMeans(z, ix, d);
    ValidRows(z);
    hide Sparse.At, Sparse.Valid, Sparse.Row, Sparse.Offset, Sparse.IndexFits, Cell, Select, IndexesOf, AreDense;
    if q < |z.rows| && IndexesOf(z, ix, z.rows[q]) {
      RowMeans(z, ix, z.rows[q]);
      AtRow(z, ix, q);
    }
    if z.Row(ix) in z.rows {
      var p :| 0 <= p < |z.rows| && z.rows[p] == z.Row(ix);
      RowMeans(z, ix, z.rows[p]);
    } else {
      AtNoRow(z, ix);
    }
  }

  lemma ValidRows<T>(z: Sparse<T>)
    requires z.Valid()
    ensures z.Shaped() && |z.rows| == |z.items|
  {
  }

  // ---- Putting a row in its place.

  /** The first place from j on whose row comes after the given one. */
  function PlaceFor(rows: seq<seq<nat>>, row: seq<nat>, j: nat): (k: nat)
    requires j <= |rows|
    ensures j <= k <= |rows| && (k < |rows| ==> Before(row, rows[k]))
    ensures forall i :: j <= i < k ==> !Before(row, rows[i])
    decreases |rows| - j
  {
    if j == |rows| || Before(row, rows[j]) then j else PlaceFor(rows, row, j + 1)
  }

  function PutIn<X>(s: seq<X>, k: nat, x: X): (r: seq<X>)
    requires k <= |s|
    ensures |r| == |s| + 1
    ensures forall i :: 0 <= i < |r| ==> r[i] == if i < k then s[i] else if i == k then x else s[i - 1]
  {
    s[..k] + [x] + s[k..]
  }

  /** The table with one more row, and its item. */
  function WithRow<T>(z: Sparse<T>, row: seq<nat>): (r: Sparse<T>)
    requires |z.rows| == |z.items|
    ensures |r.rows| == |r.items|
  {
    var k := PlaceFor(z.rows, row, 0);
    z.(rows := PutIn(z.rows, k, row), items := PutIn(z.items, k, Filled(z.ItemSize(), z.element)))
  }

  function Filled<T>(n: nat, x: T): (s: seq<T>)
    ensures |s| == n && forall i :: 0 <= i < n ==> s[i] == x
  {
    seq(n, _ => x)
  }

  lemma PutInSorted(rows: seq<seq<nat>>, row: seq<nat>)
    requires Sorted(rows) && row !in rows && forall q :: 0 <= q < |rows| ==> |rows[q]| == |row|
    ensures Sorted(PutIn(rows, PlaceFor(rows, row, 0), row))
  {
    var k := PlaceFor(rows, row, 0);
    var r := PutIn(rows, k, row);
    forall i | 0 <= i < k ensures Before(rows[i], row) {
      BeforeTotal(row, rows[i]);
    }
    forall i | k < i < |rows| ensures Before(row, rows[i]) {
      BeforeTransitive(row, rows[k], rows[i]);
    }
    forall i, j | 0 <= i < j < |r| ensures Before(r[i], r[j]) {
    }
  }

  /** Another table for the same axes. */
  ghost predicate Alike<T>(z: Sparse<T>, r: Sparse<T>) {
    z.shape == r.shape && z.axes == r.axes && z.element == r.element
  }

  lemma AlikeFits<T>(z: Sparse<T>, r: Sparse<T>)
    requires Alike(z, r) && z.Shaped()
    ensures r.Shaped() && r.ItemSize() == z.ItemSize()
    ensures forall row :: r.RowFits(row) == z.RowFits(row)
    ensures forall ix :: r.IndexFits(ix) == z.IndexFits(ix)
  {
  }

  lemma AlikePlaces<T>(z: Sparse<T>, r: Sparse<T>, ix: seq<nat>)
    requires Alike(z, r) && z.Shaped() && z.IndexFits(ix)
    ensures |ix| == |z.shape| && r.Shaped() && |ix| == |r.shape| && r.Row(ix) == z.Row(ix) && r.Offset(ix) == z.Offset(ix)
  {
  }

  lemma WithRowIs<T>(z: Sparse<T>, row: seq<nat>)
    requires |z.rows| == |z.items|
    ensures var k, r := PlaceFor(z.rows, row, 0), WithRow(z, row);
            && Alike(z, r) && k <= |z.rows| && r.rows == PutIn(z.rows, k, row)
            && r.items == PutIn(z.items, k, Filled(z.ItemSize(), z.element))
  {
  }

  lemma PutInAt<X>(s: seq<X>, k: nat, x: X, i: nat)
    requires k <= |s| && i < |s|
    ensures PutIn(s, k, x)[k] == x && PutIn(s, k, x)[if i < k then i else i + 1] == s[i]
  {
  }

  lemma PutInNew<X>(s: seq<X>, k: nat, x: X)
    requires k <= |s|
    ensures k < |PutIn(s, k, x)| && PutIn(s, k, x)[k] == x
  {
  }

  ghost predicate Sized<T>(items: seq<seq<T>>, n: nat) {
    forall q :: 0 <= q < |items| ==> |items[q]| == n
  }

  ghost predicate AllFit<T>(z: Sparse<T>, rows: seq<seq<nat>>)
    requires z.Shaped()
  {
    forall q :: 0 <= q < |rows| ==> z.RowFits(rows[q])
  }

  lemma ValidParts<T>(z: Sparse<T>)
    ensures z.Valid() <==>
            z.Shaped() && |z.rows| == |z.items| && Sorted(z.rows) && AllFit(z, z.rows) && Sized(z.items, z.ItemSize())
  {
    hide Sparse.RowFits, Sparse.ItemSize, Sorted, Sparse.Shaped;
  }

  lemma PutInFit<T>(z: Sparse<T>, row: seq<nat>, k: nat)
    requires z.Shaped() && AllFit(z, z.rows) && z.RowFits(row) && k <= |z.rows|
    ensures AllFit(z, PutIn(z.rows, k, row)) && |row| == |z.axes| && forall q :: 0 <= q < |z.rows| ==> |z.rows[q]| == |z.axes|
  {
  }

  lemma PutInSized<T>(items: seq<seq<T>>, n: nat, k: nat, item: seq<T>)
    requires Sized(items, n) && |item| == n && k <= |items|
    ensures Sized(PutIn(items, k, item), n)
  {
  }

  lemma WithRowValid<T>(z: Sparse<T>, row: seq<nat>)
    requires z.Valid() && z.RowFits(row) && row !in z.rows
    ensures WithRow(z, row).Valid()
  {
    hide *;
    ValidParts(z);
    var k, r := PlaceFor(z.rows, row, 0), WithRow(z, row);
    ValidParts(r);
    WithRowIs(z, row);
    PutInFit(z, row, k);
    PutInSorted(z.rows, row);
    PutInSized(z.items, z.ItemSize(), k, Filled(z.ItemSize(), z.element));
    AlikeFits(z, r);
    AllFitAlike(z, r, r.rows);
  }

  lemma AllFitAlike<T>(z: Sparse<T>, r: Sparse<T>, rows: seq<seq<nat>>)
    requires z.Shaped() && r.Shaped() && AllFit(z, rows) && Alike(z, r)
    ensures AllFit(r, rows)
  {
    AlikeFits(z, r);
  }

  lemma WithRowAt<T>(z: Sparse<T>, row: seq<nat>, ix: seq<nat>)
    requires z.Valid() && z.RowFits(row) && row !in z.rows && z.IndexFits(ix)
    ensures var r := WithRow(z, row); r.Valid() && r.IndexFits(ix) && r.At(ix) == z.At(ix)
  {
    hide *;
    ValidParts(z);
    var k, r := PlaceFor(z.rows, row, 0), WithRow(z, row);
    WithRowValid(z, row);
    ValidParts(r);
    WithRowIs(z, row);
    AlikeFits(z, r);
    AlikePlaces(z, r, ix);
    z.PlaceFits(ix);
    WithRowHas(z, row);
    if z.Row(ix) == row {
      AtNoRow(z, ix);
      PutInNew(z.rows, k, row);
      PutInNew(z.items, k, Filled(z.ItemSize(), z.element));
      AtRow(r, ix, k);
    } else if z.Row(ix) in z.rows {
      var q :| 0 <= q < |z.rows| && z.rows[q] == z.Row(ix);
      PutInAt(z.rows, k, row, q);
      PutInAt(z.items, k, Filled(z.ItemSize(), z.element), q);
      AtRow(z, ix, q);
      AtRow(r, ix, if q < k then q else q + 1);
    } else {
      AtNoRow(z, ix);
      AtNoRow(r, ix);
    }
  }

  /** A new row of the element changes no atom. */
  lemma WithRowKeeps<T>(z: Sparse<T>, row: seq<nat>)
    requires z.Valid() && z.RowFits(row) && row !in z.rows
    ensures WithRow(z, row).Valid() && Alike(z, WithRow(z, row))
    ensures forall ix | z.IndexFits(ix) :: WithRow(z, row).IndexFits(ix) && WithRow(z, row).At(ix) == z.At(ix)
  {
    WithRowValid(z, row);
    WithRowIs(z, row);
    hide *;
    forall ix | z.IndexFits(ix) ensures WithRow(z, row).IndexFits(ix) && WithRow(z, row).At(ix) == z.At(ix) {
      WithRowAt(z, row, ix);
    }
  }

  lemma WithRowHas<T>(z: Sparse<T>, row: seq<nat>)
    requires |z.rows| == |z.items|
    ensures multiset(WithRow(z, row).rows) == multiset(z.rows) + multiset{row}
    ensures forall r :: r in WithRow(z, row).rows <==> r in z.rows || r == row
  {
    var k := PlaceFor(z.rows, row, 0);
    assert z.rows == z.rows[..k] + z.rows[k..];
  }
}
