/** Where the cells of a sparse array are that an index table addresses: which items, and where in them. */
module SparseCells {
  import opened Arith
  import opened CellOffset
  import opened Classes
  import opened SparseSpec
  import opened SparsePad

  // ---- Cell numbers of two parts.

  lemma {:induction false} CellsSplit(sv: seq<nat>, k: nat, n: nat)
    requires k <= n <= |sv|
    ensures Cells(sv, n) == Cells(sv, k) * Cells(sv[k..], n - k)
  {
    if k < n {
      CellsSplit(sv, k, n - 1);
      TimesAssociative(Cells(sv, k), Cells(sv[k..], n - 1 - k), sv[n - 1]);
      assert sv[k..][n - 1 - k] == sv[n - 1];
    } else {
      assert Cells(sv[k..], 0) == 1;
    }
  }

  lemma {:induction false} CellSplit(row: seq<nat>, sv: seq<nat>, k: nat, n: nat)
    requires k <= n <= |row| && n <= |sv|
    ensures Cell(row, sv, n) == Cell(row, sv, k) * Cells(sv[k..], n - k) + Cell(row[k..], sv[k..], n - k)
  {
    if k < n {
      CellSplit(row, sv, k, n - 1);
      SplitStep(Cell(row, sv, k), Cells(sv[k..], n - 1 - k), Cell(row[k..], sv[k..], n - 1 - k), sv[n - 1]);
      assert sv[k..][n - 1 - k] == sv[n - 1] && row[k..][n - 1 - k] == row[n - 1];
    } else {
      assert Cells(sv[k..], 0) == 1 && Cell(row[k..], sv[k..], 0) == 0;
    }
  }

  lemma SplitStep(x: nat, s: nat, y: nat, l: nat)
    ensures (x * s + y) * l == x * (s * l) + y * l
  {
    TimesAssociative(x, s, l);
  }

  lemma {:induction false} CellOfPrefix(row: seq<nat>, sv: seq<nat>, row': seq<nat>, sv': seq<nat>, n: nat)
    requires n <= |row| && n <= |sv| && n <= |row'| && n <= |sv'|
    requires forall i :: 0 <= i < n ==> row[i] == row'[i] && sv[i] == sv'[i]
    ensures Cell(row, sv, n) == Cell(row', sv', n)
  {
    if n > 0 {
      CellOfPrefix(row, sv, row', sv', n - 1);
    }
  }

  // ---- The place in an item.

  /** The number of axes among the first h that are not sparse. */
  function DenseFramed<T>(z: Sparse<T>, h: nat): (f: nat)
    ensures f <= |z.Dense()|
  {
    Below(z.Dense(), h, |z.Dense()|)
  }

  lemma DenseFramedIs<T>(z: Sparse<T>, h: nat)
    ensures forall i :: 0 <= i < |z.Dense()| ==> (z.Dense()[i] < h <==> i < DenseFramed(z, h))
  {
    BelowIs(z.Dense(), h, |z.Dense()|);
  }

  /** The atoms of an item in one cell, and the number of such cells in an item. */
  function CellSize<T>(z: Sparse<T>, h: nat): nat {
    Cells(z.DenseLengths()[DenseFramed(z, h)..], |z.Dense()| - DenseFramed(z, h))
  }

  function Groups<T>(z: Sparse<T>, h: nat): nat {
    Cells(z.DenseLengths(), DenseFramed(z, h))
  }

  /** The indexes of the axes of the frame that are not sparse. */
  function DenseKey<T>(z: Sparse<T>, h: nat, x: seq<nat>): (k: seq<nat>)
    requires |x| >= h
    ensures |k| == DenseFramed(z, h)
    ensures forall i :: 0 <= i < |k| ==> z.Dense()[i] < h && k[i] == x[z.Dense()[i]]
  {
    DenseFramedIs(z, h);
    Select(x, z.Dense()[..DenseFramed(z, h)])
  }

  /** Which cell of an item an index row means. */
  function GroupOf<T>(z: Sparse<T>, h: nat, x: seq<nat>): nat
    requires |x| >= h
  {
    Cell(DenseKey(z, h, x), z.DenseLengths(), DenseFramed(z, h))
  }

  /** The place in the cell. */
  function Within<T>(z: Sparse<T>, h: nat, ix: seq<nat>): nat
    requires |ix| == |z.shape|
  {
    var f := DenseFramed(z, h);
    Cell(Select(ix, z.Dense())[f..], z.DenseLengths()[f..], |z.Dense()| - f)
  }

  lemma ItemParts<T>(z: Sparse<T>, h: nat)
    ensures z.ItemSize() == Groups(z, h) * CellSize(z, h)
  {
    hide *;
    SizesAre(z, h);
    CellsSplit(z.DenseLengths(), DenseFramed(z, h), |z.Dense()|);
  }

  lemma SizesAre<T>(z: Sparse<T>, h: nat)
    ensures var f, sv, n := DenseFramed(z, h), z.DenseLengths(), |z.Dense()|;
            z.ItemSize() == Cells(sv, n) && CellSize(z, h) == Cells(sv[f..], n - f) && Groups(z, h) == Cells(sv, f)
  {
    hide Cells, DenseFramed;
  }

  /** An index has its place in a cell of the item. */
  lemma OffsetParts<T>(z: Sparse<T>, h: nat, ix: seq<nat>)
    requires z.Shaped() && z.IndexFits(ix) && h <= |z.shape|
    ensures z.Offset(ix) == GroupOf(z, h, ix) * CellSize(z, h) + Within(z, h, ix)
    ensures Within(z, h, ix) < CellSize(z, h) && GroupOf(z, h, ix) < Groups(z, h)
  {
    hide *;
    PlacesAre(z, h, ix);
    var o, f, sv := Select(ix, z.Dense()), DenseFramed(z, h), z.DenseLengths();
    CellSplit(o, sv, f, |z.Dense()|);
    CellOfPrefix(o, sv, DenseKey(z, h, ix), sv, f);
    CellBound(o[f..], sv[f..], |z.Dense()| - f);
    CellBound(DenseKey(z, h, ix), sv, f);
  }

  lemma PlacesAre<T>(z: Sparse<T>, h: nat, ix: seq<nat>)
    requires z.Shaped() && z.IndexFits(ix) && h <= |z.shape|
    ensures |ix| == |z.shape| && h <= |ix| && forall i :: 0 <= i < |z.Dense()| ==> z.Dense()[i] < |ix|
    ensures var o, f, sv, n := Select(ix, z.Dense()), DenseFramed(z, h), z.DenseLengths(), |z.Dense()|;
            && z.Offset(ix) == Cell(o, sv, n)
            && GroupOf(z, h, ix) == Cell(DenseKey(z, h, ix), sv, f) && Within(z, h, ix) == Cell(o[f..], sv[f..], n - f)
            && CellSize(z, h) == Cells(sv[f..], n - f) && Groups(z, h) == Cells(sv, f)
            && InRange(o[f..], sv[f..], n - f) && InRange(DenseKey(z, h, ix), sv, f)
            && forall i :: 0 <= i < f ==> o[i] == DenseKey(z, h, ix)[i]
  {
    hide Cell, Cells, DenseFramed;
  }

  lemma GroupFits<T>(z: Sparse<T>, h: nat, ind: seq<seq<nat>>, t: nat)
    requires IndexTable(z, h, ind) && t < |ind|
    ensures InRange(DenseKey(z, h, ind[t]), z.DenseLengths(), DenseFramed(z, h))
    ensures GroupOf(z, h, ind[t]) < Groups(z, h)
  {
    CellBound(DenseKey(z, h, ind[t]), z.DenseLengths(), DenseFramed(z, h));
  }

  /** An index is in the cell of an index row exactly if their sparse indexes agree, and they mean the same
      cell of an item. */
  lemma CellMatches<T>(z: Sparse<T>, h: nat, ind: seq<seq<nat>>, t: nat, ix: seq<nat>)
    requires z.Shaped() && IndexTable(z, h, ind) && t < |ind| && z.IndexFits(ix)
    ensures ix[..h] == ind[t] <==>
            Key(z, h, ind[t]) == z.Row(ix)[..Framed(z, h)] && GroupOf(z, h, ind[t]) == GroupOf(z, h, ix)
  {
    var x, d, f := ind[t], Framed(z, h), DenseFramed(z, h);
    SparseMatches(z, h, x, ix);
    DenseMatches(z, h, ind, t, ix);
    if Key(z, h, x) == z.Row(ix)[..d] && DenseKey(z, h, x) == DenseKey(z, h, ix) {
      forall i | 0 <= i < h ensures x[i] == ix[i] {
        AxisMatches(z, h, x, ix, i);
      }
      assert ix[..h] == x;
    }
    hide *;
  }

  lemma SparseMatches<T>(z: Sparse<T>, h: nat, x: seq<nat>, ix: seq<nat>)
    requires z.Shaped() && |ix| == |z.shape| && |x| == h <= |ix|
    ensures ix[..h] == x ==> Key(z, h, x) == z.Row(ix)[..Framed(z, h)]
  {
    FramedIs(z, h);
  }

  lemma DenseMatches<T>(z: Sparse<T>, h: nat, ind: seq<seq<nat>>, t: nat, ix: seq<nat>)
    requires z.Shaped() && IndexTable(z, h, ind) && t < |ind| && z.IndexFits(ix)
    ensures ix[..h] == ind[t] ==> DenseKey(z, h, ind[t]) == DenseKey(z, h, ix)
    ensures GroupOf(z, h, ind[t]) == GroupOf(z, h, ix) <==> DenseKey(z, h, ind[t]) == DenseKey(z, h, ix)
  {
    var k, l, f := DenseKey(z, h, ind[t]), DenseKey(z, h, ix), DenseFramed(z, h);
    if ix[..h] == ind[t] {
      forall i | 0 <= i < f ensures k[i] == l[i] {
        assert ix[..h][z.Dense()[i]] == ix[z.Dense()[i]];
      }
    }
    GroupFits(z, h, ind, t);
    CellInjective(k, l, z.DenseLengths(), f);
    assert k[..f] == k && l[..f] == l;
  }

  lemma AxisMatches<T>(z: Sparse<T>, h: nat, x: seq<nat>, ix: seq<nat>, i: nat)
    requires z.Shaped() && |ix| == |z.shape| && |x| == h <= |ix| && i < h
    requires Key(z, h, x) == z.Row(ix)[..Framed(z, h)] && DenseKey(z, h, x) == DenseKey(z, h, ix)
    ensures x[i] == ix[i]
  {
    FramedIs(z, h);
    DenseFramedIs(z, h);
    if i in z.axes {
      var l :| 0 <= l < |z.axes| && z.axes[l] == i;
      assert Key(z, h, x)[l] == x[i] && z.Row(ix)[..Framed(z, h)][l] == ix[i];
    } else {
      var l :| 0 <= l < |z.Dense()| && z.Dense()[l] == i;
      assert DenseKey(z, h, x)[l] == x[i] && DenseKey(z, h, ix)[l] == ix[i];
    }
  }

  // ---- The items that an index row addresses.

  /** Where the items of a key begin, and how many there are. */
  function FirstOf(y: seq<seq<nat>>, key: seq<nat>): (q: nat)
    ensures q <= |y| && (q < |y| ==> y[q] == key)
  {
    ClassOf(y, key)
  }

  function RunFrom(y: seq<seq<nat>>, q: nat): (e: nat)
    requires q < |y|
    ensures 0 < e <= |y| - q
    ensures forall i :: q <= i < q + e ==> y[i] == y[q]
    ensures q + e < |y| ==> y[q + e] != y[q]
    decreases |y| - q
  {
    if q + 1 < |y| && y[q + 1] == y[q] then RunFrom(y, q + 1) + 1 else 1
  }

  /** Equal heads are next to each other. */
  lemma HeadsTogether<T>(z: Sparse<T>, d: nat, i: nat, j: nat, k: nat)
    requires z.Valid() && d <= |z.axes| && i <= j <= k < |z.rows| && z.rows[i][..d] == z.rows[k][..d]
    ensures |z.rows[j]| == |z.axes| && z.rows[j][..d] == z.rows[i][..d]
  {
    var x, y, w := z.rows[i], z.rows[j], z.rows[k];
    if i < j < k {
      Between(x, y, w, d);
    }
  }

  lemma {:induction false} Between(x: seq<nat>, y: seq<nat>, w: seq<nat>, d: nat)
    requires Before(x, y) && Before(y, w) && d <= |x| == |y| == |w| && x[..d] == w[..d]
    ensures y[..d] == x[..d]
  {
    if d > 0 {
      assert x[0] == x[..d][0] == w[..d][0] == w[0];
      assert x[1..][..d - 1] == x[..d][1..] == w[..d][1..] == w[1..][..d - 1];
      Between(x[1..], y[1..], w[1..], d - 1);
      assert y[..d] == [y[0]] + y[1..][..d - 1];
      assert x[..d] == [x[0]] + x[1..][..d - 1];
    }
  }

  /** The items of a key are those of its run. */
  lemma RunIs<T>(z: Sparse<T>, d: nat, key: seq<nat>, q: nat)
    requires z.Valid() && d <= |z.axes| && q < |z.rows|
    ensures forall i :: 0 <= i < |z.rows| ==> |z.rows[i]| == |z.axes|
    ensures var y := Heads(z.rows, d); var p := FirstOf(y, key);
            z.rows[q][..d] == key <==> p < |y| && p <= q < p + RunFrom(y, p)
  {
    hide *;
    ValidLong(z);
    ShapedIs(z);
    var y := Heads(z.rows, d);
    var p := FirstOf(y, key);
    if z.rows[q][..d] == key {
      assert y[q] == key;
      FirstBefore(y, key, q);
      var e := RunFrom(y, p);
      if p + e <= q {
        HeadsTogether(z, d, p, p + e, q);
      }
    }
  }

  lemma FirstBefore(y: seq<seq<nat>>, key: seq<nat>, q: nat)
    requires q < |y| && y[q] == key
    ensures FirstOf(y, key) <= q
  {
  }
}
