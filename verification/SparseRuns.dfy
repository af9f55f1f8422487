/** The addresses that an index table selects in a sparse array, in the order in which they are stored to. */
module SparseRuns {
  import opened Arith
  import opened CellOffset
  import opened Classes
  import opened SparseSpec
  import opened SparsePad
  import opened SparseCells

  /** The items of the key of row t, or one past the last item if there is none. */
  function RunOf<T>(z: Sparse<T>, h: nat, ind: seq<seq<nat>>, t: nat): (r: (nat, nat))
    requires Ascending(z.axes, |z.shape|) && t < |ind| && |ind[t]| == h
    requires forall q :: 0 <= q < |z.rows| ==> |z.rows[q]| == |z.axes|
    ensures r.0 <= |z.rows| && 0 < r.1
  {
    var y := Heads(z.rows, Framed(z, h));
    var q := FirstOf(y, Key(z, h, ind[t]));
    (q, if q < |y| then RunFrom(y, q) else 1)
  }

  function Run(q: nat, e: nat, t: nat): (r: seq<(nat, nat)>)
    ensures |r| == e && forall j :: 0 <= j < e ==> r[j] == (q + j, t)
  {
    seq(e, j requires 0 <= j => (q + j, t))
  }

  /** Items and index rows, in order: the items of each index row. */
  function ByRow<T>(z: Sparse<T>, h: nat, ind: seq<seq<nat>>, n: nat): (r: seq<(nat, nat)>)
    requires Ascending(z.axes, |z.shape|) && n <= |ind| && forall t :: 0 <= t < |ind| ==> |ind[t]| == h
    requires forall q :: 0 <= q < |z.rows| ==> |z.rows[q]| == |z.axes|
  {
    if n == 0 then [] else
      var (q, e) := RunOf(z, h, ind, n - 1);
      ByRow(z, h, ind, n - 1) + Run(q, e, n - 1)
  }

  /** Every item with every index row, for a table that indexes no sparse axis. */
  function ByItem(m: nat, n: nat): (r: seq<(nat, nat)>)
    ensures |r| == m * n
  {
    seq(m * n, k requires 0 <= k < m * n => ItemRow(m, n, k))
  }

  function ItemRow(m: nat, n: nat, k: nat): (nat, nat)
    requires k < m * n
  {
    PositiveFactors(m, n);
    Division(k, n);
    (k / n, k % n)
  }

  lemma ByItemAt(m: nat, n: nat, q: nat, t: nat)
    requires q < m && t < n
    ensures q * n + t < m * n && ByItem(m, n)[q * n + t] == (q, t)
  {
    RoomForOne(q, m, n);
    ModuloIs(q * n + t, n, q, t);
  }

  lemma ByItemOwner(m: nat, n: nat, k: nat)
    requires k < m * n
    ensures var (q, t) := ByItem(m, n)[k]; q < m && t < n && k == q * n + t
  {
    PositiveFactors(m, n);
    QuotientSmall(k, n, m);
  }

  /** The items and index rows, in the order of the addresses. */
  function Entries<T>(z: Sparse<T>, h: nat, ind: seq<seq<nat>>): seq<(nat, nat)>
    requires Ascending(z.axes, |z.shape|) && forall t :: 0 <= t < |ind| ==> |ind[t]| == h
    requires forall q :: 0 <= q < |z.rows| ==> |z.rows[q]| == |z.axes|
  {
    if Framed(z, h) == 0 then ByItem(|z.rows|, |ind|) else ByRow(z, h, ind, |ind|)
  }

  ghost predicate Ready<T>(z: Sparse<T>, h: nat, ind: seq<seq<nat>>) {
    && z.Valid() && IndexTable(z, h, ind)
    && Ascending(z.axes, |z.shape|) && (forall t :: 0 <= t < |ind| ==> |ind[t]| == h)
    && forall q :: 0 <= q < |z.rows| ==> |z.rows[q]| == |z.axes|
  }

  lemma AreReady<T>(z: Sparse<T>, h: nat, ind: seq<seq<nat>>)
    requires z.Valid() && IndexTable(z, h, ind)
    ensures Ready(z, h, ind)
  {
    ValidLong(z);
    ShapedIs(z);
    IndexTableLong(z, h, ind);
    hide Sparse.Valid, IndexTable;
  }

  lemma ReadyIs<T>(z: Sparse<T>, h: nat, ind: seq<seq<nat>>)
    requires Ready(z, h, ind)
    ensures z.Valid() && z.Shaped() && IndexTable(z, h, ind) && h <= |z.shape| && |z.rows| == |z.items|
    ensures Ascending(z.axes, |z.shape|) && forall t :: 0 <= t < |ind| ==> |ind[t]| == h
    ensures forall q :: 0 <= q < |z.rows| ==> |z.rows[q]| == |z.axes|
  {
  }

  /** i1 has the items and i2 the places in them. */
  ghost predicate AddressesAre<T>(z: Sparse<T>, h: nat, ind: seq<seq<nat>>, l: seq<(nat, nat)>, i1: seq<nat>, i2: seq<nat>)
    requires forall t :: 0 <= t < |ind| ==> |ind[t]| == h
  {
    && |i1| == |i2| == |l|
    && forall k :: 0 <= k < |l| ==>
         i1[k] == l[k].0 && l[k].1 < |ind| && i2[k] == CellSize(z, h) * GroupOf(z, h, ind[l[k].1])
  }

  function Places<T>(z: Sparse<T>, h: nat, ind: seq<seq<nat>>): (jj: seq<nat>)
    requires forall t :: 0 <= t < |ind| ==> |ind[t]| == h
    ensures |jj| == |ind| && forall t :: 0 <= t < |ind| ==> jj[t] == CellSize(z, h) * GroupOf(z, h, ind[t])
  {
    seq(|ind|, t requires 0 <= t < |ind| && |ind[t]| == h =>
      TimesMonotone(0, CellSize(z, h), GroupOf(z, h, ind[t])); CellSize(z, h) * GroupOf(z, h, ind[t]))
  }

  /** For each index row, the item where its key begins. */
  function Begins<T>(z: Sparse<T>, h: nat, ind: seq<seq<nat>>): (ii: seq<nat>)
    requires Ascending(z.axes, |z.shape|) && forall t :: 0 <= t < |ind| ==> |ind[t]| == h
    requires forall q :: 0 <= q < |z.rows| ==> |z.rows[q]| == |z.axes|
    ensures |ii| == |ind| && forall t :: 0 <= t < |ind| ==> ii[t] == RunOf(z, h, ind, t).0
  {
    seq(|ind|, t requires 0 <= t < |ind| && |ind[t]| == h && Ascending(z.axes, |z.shape|)
                          && (forall q :: 0 <= q < |z.rows| ==> |z.rows[q]| == |z.axes|) => RunOf(z, h, ind, t).0)
  }

  /** How many items in a row have the key that begins at each place. */
  method CountRuns(y: seq<seq<nat>>, ii: seq<nat>) returns (qv: seq<nat>)
    requires forall i :: 0 <= i < |ii| ==> ii[i] <= |y|
    ensures |qv| == |ii|
    ensures forall i :: 0 <= i < |ii| ==> qv[i] == if ii[i] < |y| then RunFrom(y, ii[i]) else 1
  {
    qv := [];
    for i := 0 to |ii|
      invariant |qv| == i
      invariant forall l :: 0 <= l < i ==> qv[l] == if ii[l] < |y| then RunFrom(y, ii[l]) else 1
    {
      var e, d := 1, ii[i];
      var v := d;
      while v < |y| - 1
        invariant d <= v <= |y| && e == v - d + 1
        invariant d < |y| ==> v < |y| && forall l :: d <= l <= v ==> y[l] == y[d]
      {
        if y[v] != y[v + 1] { break; }
        e, v := e + 1, v + 1;
      }
      if d < |y| {
        RunLength(y, d, e);
      }
      qv := qv + [e];
    }
  }

  lemma {:induction false} RunLength(y: seq<seq<nat>>, q: nat, e: nat)
    requires q < |y| && 0 < e <= |y| - q
    requires (forall i :: q <= i < q + e ==> y[i] == y[q]) && (q + e < |y| ==> y[q + e] != y[q])
    ensures RunFrom(y, q) == e
    decreases e
  {
    if e > 1 {
      RunLength(y, q + 1, e - 1);
    }
  }

  lemma RunAlone<T>(z: Sparse<T>, h: nat, ind: seq<seq<nat>>, t: nat)
    requires Ready(z, h, ind) && t < |ind| && Framed(z, h) == |z.axes|
    ensures RunOf(z, h, ind, t).1 == 1
  {
    ReadyIs(z, h, ind);
    var y := Heads(z.rows, |z.axes|);
    var q := FirstOf(y, Key(z, h, ind[t]));
    if q + 1 < |y| {
      BeforeDiffers(z.rows[q], z.rows[q + 1]);
      assert y[q] == z.rows[q] && y[q + 1] == z.rows[q + 1];
      RunLength(y, q, 1);
    } else if q < |y| {
      RunLength(y, q, 1);
    }
    hide Key, Heads;
  }

  lemma ByRowStep<T>(z: Sparse<T>, h: nat, ind: seq<seq<nat>>, t: nat)
    requires Ready(z, h, ind) && t < |ind|
    ensures var (q, e) := RunOf(z, h, ind, t);
            ByRow(z, h, ind, t + 1) == ByRow(z, h, ind, t) + Run(q, e, t)
  {
  }

  lemma AddressesNone<T>(z: Sparse<T>, h: nat, ind: seq<seq<nat>>)
    requires Ready(z, h, ind)
    ensures AddressesAre(z, h, ind, ByRow(z, h, ind, 0), [], [])
  {
  }

  lemma AddressesStep<T>(z: Sparse<T>, h: nat, ind: seq<seq<nat>>, t: nat, i1: seq<nat>, i2: seq<nat>, i1': seq<nat>, i2': seq<nat>)
    requires Ready(z, h, ind) && t < |ind| && AddressesAre(z, h, ind, ByRow(z, h, ind, t), i1, i2)
    requires var (q, e) := RunOf(z, h, ind, t);
             && i1' == i1 + seq(e, j => q + j)
             && i2' == i2 + seq(e, j => CellSize(z, h) * GroupOf(z, h, ind[t]))
    ensures AddressesAre(z, h, ind, ByRow(z, h, ind, t + 1), i1', i2')
  {
    ByRowStep(z, h, ind, t);
    hide ByRow, RunOf, CellSize, GroupOf;
  }

  /** The addresses that the rows of ind select. */
  method Addresses<T>(z: Sparse<T>, h: nat, ind: seq<seq<nat>>) returns (i1: seq<nat>, i2: seq<nat>)
    requires Ready(z, h, ind)
    ensures forall t :: 0 <= t < |ind| ==> |ind[t]| == h
    ensures AddressesAre(z, h, ind, Entries(z, h, ind), i1, i2)
  {
    hide *;
    ReadyIs(z, h, ind);
    var d, jj := Framed(z, h), Places(z, h, ind);
    if d == 0 {
      var m, n := |z.rows|, |ind|;
      i1 := seq(m * n, k requires 0 <= k < m * n => ItemRow(m, n, k).0);
      i2 := seq(m * n, k requires 0 <= k < m * n && |jj| == n => jj[RowOfPlace(m, n, k)]);
      AddressesByItem(z, h, ind, jj, i1, i2);
      return;
    }
    var ii := Begins(z, h, ind);
    if d == |z.axes| {
      i1, i2 := ii, jj;
      AddressesAlone(z, h, ind, i1, i2);
      return;
    }
    BeginsBound(z, h, ind, ii);
    var y := Heads(z.rows, d);
    var qv := CountRuns(y, ii);
    RunsAre(z, h, ind, ii, qv);
    i1, i2 := CopyRuns(z, h, ind, ii, qv, jj);
    EntriesByRow(z, h, ind);
  }

  function RowOfPlace(m: nat, n: nat, k: nat): (t: nat)
    requires k < m * n
    ensures t < n
  {
    PositiveFactors(m, n);
    Division(k, n);
    ItemRow(m, n, k).1
  }

  lemma EntriesByRow<T>(z: Sparse<T>, h: nat, ind: seq<seq<nat>>)
    requires Ready(z, h, ind) && Framed(z, h) != 0
    ensures Entries(z, h, ind) == ByRow(z, h, ind, |ind|)
  {
  }

  lemma AddressesByItem<T>(z: Sparse<T>, h: nat, ind: seq<seq<nat>>, jj: seq<nat>, i1: seq<nat>, i2: seq<nat>)
    requires Ready(z, h, ind) && Framed(z, h) == 0
    requires forall t :: 0 <= t < |ind| ==> |ind[t]| == h
    requires |jj| == |ind| && forall t :: 0 <= t < |ind| ==> jj[t] == CellSize(z, h) * GroupOf(z, h, ind[t])
    requires |i1| == |i2| == |z.rows| * |ind|
    requires forall k: nat :: k < |i1| ==> i1[k] == ItemRow(|z.rows|, |ind|, k).0
    requires forall k: nat :: k < |i1| ==> i2[k] == jj[RowOfPlace(|z.rows|, |ind|, k)]
    ensures AddressesAre(z, h, ind, Entries(z, h, ind), i1, i2)
  {
    hide CellSize, GroupOf, Framed;
    var l := Entries(z, h, ind);
    forall k: nat | k < |l| ensures i1[k] == l[k].0 && l[k].1 < |ind| && i2[k] == CellSize(z, h) * GroupOf(z, h, ind[l[k].1]) {
      ByItemOwner(|z.rows|, |ind|, k);
    }
  }

  lemma AddressesAlone<T>(z: Sparse<T>, h: nat, ind: seq<seq<nat>>, i1: seq<nat>, i2: seq<nat>)
    requires Ready(z, h, ind) && Framed(z, h) == |z.axes| != 0
    requires Ascending(z.axes, |z.shape|) && forall t :: 0 <= t < |ind| ==> |ind[t]| == h
    requires forall q :: 0 <= q < |z.rows| ==> |z.rows[q]| == |z.axes|
    requires i1 == Begins(z, h, ind) && i2 == Places(z, h, ind)
    ensures AddressesAre(z, h, ind, Entries(z, h, ind), i1, i2)
  {
    hide *;
    EntriesByRow(z, h, ind);
    ByRowAlone(z, h, ind, |ind|);
    AddressesList(z, h, ind, i1, i2);
  }

  lemma AddressesList<T>(z: Sparse<T>, h: nat, ind: seq<seq<nat>>, i1: seq<nat>, i2: seq<nat>)
    requires Ascending(z.axes, |z.shape|) && forall t :: 0 <= t < |ind| ==> |ind[t]| == h
    requires forall q :: 0 <= q < |z.rows| ==> |z.rows[q]| == |z.axes|
    requires i1 == Begins(z, h, ind) && i2 == Places(z, h, ind)
    requires |ByRow(z, h, ind, |ind|)| == |ind|
    requires forall t :: 0 <= t < |ind| ==> ByRow(z, h, ind, |ind|)[t] == (RunOf(z, h, ind, t).0, t)
    ensures AddressesAre(z, h, ind, ByRow(z, h, ind, |ind|), i1, i2)
  {
    hide ByRow, RunOf, CellSize, GroupOf, Begins, Places;
  }

  lemma {:induction false} ByRowAlone<T>(z: Sparse<T>, h: nat, ind: seq<seq<nat>>, n: nat)
    requires Ready(z, h, ind) && n <= |ind| && Framed(z, h) == |z.axes|
    ensures |ByRow(z, h, ind, n)| == n && forall t :: 0 <= t < n ==> ByRow(z, h, ind, n)[t] == (RunOf(z, h, ind, t).0, t)
  {
    hide *;
    ReadyIs(z, h, ind);
    if n > 0 {
      ByRowAlone(z, h, ind, n - 1);
      RunAlone(z, h, ind, n - 1);
      ByRowStep(z, h, ind, n - 1);
      OneEntry(RunOf(z, h, ind, n - 1).0, n - 1);
    } else {
      ByRowNone(z, h, ind);
    }
  }

  lemma OneEntry(q: nat, t: nat)
    ensures Run(q, 1, t) == [(q, t)]
  {
  }

  lemma ByRowNone<T>(z: Sparse<T>, h: nat, ind: seq<seq<nat>>)
    requires Ready(z, h, ind)
    ensures ByRow(z, h, ind, 0) == []
  {
  }

  lemma BeginsBound<T>(z: Sparse<T>, h: nat, ind: seq<seq<nat>>, ii: seq<nat>)
    requires Ready(z, h, ind) && |ii| == |ind| && forall t :: 0 <= t < |ind| ==> ii[t] == RunOf(z, h, ind, t).0
    ensures forall t :: 0 <= t < |ii| ==> ii[t] <= |z.rows|
  {
    hide RunOf;
  }

  lemma RunsAre<T>(z: Sparse<T>, h: nat, ind: seq<seq<nat>>, ii: seq<nat>, qv: seq<nat>)
    requires Ready(z, h, ind) && |ii| == |ind| == |qv| && forall t :: 0 <= t < |ind| ==> ii[t] == RunOf(z, h, ind, t).0
    requires forall t :: 0 <= t < |ind| ==>
               var y := Heads(z.rows, Framed(z, h)); qv[t] == if ii[t] < |y| then RunFrom(y, ii[t]) else 1
    ensures forall t :: 0 <= t < |ind| ==> (ii[t], qv[t]) == RunOf(z, h, ind, t)
  {
    hide Framed, Heads, FirstOf, RunFrom, Key;
  }

  method CopyRuns<T>(z: Sparse<T>, h: nat, ind: seq<seq<nat>>, ii: seq<nat>, qv: seq<nat>, jj: seq<nat>)
    returns (i1: seq<nat>, i2: seq<nat>)
    requires Ready(z, h, ind) && |ii| == |ind| == |qv| == |jj|
    requires Ascending(z.axes, |z.shape|) && forall t :: 0 <= t < |ind| ==> |ind[t]| == h
    requires forall q :: 0 <= q < |z.rows| ==> |z.rows[q]| == |z.axes|
    requires forall t :: 0 <= t < |ind| ==> (ii[t], qv[t]) == RunOf(z, h, ind, t)
    requires forall t :: 0 <= t < |ind| ==> jj[t] == CellSize(z, h) * GroupOf(z, h, ind[t])
    ensures AddressesAre(z, h, ind, ByRow(z, h, ind, |ind|), i1, i2)
  {
    hide *;
    i1, i2 := [], [];
    AddressesNone(z, h, ind);
    for t := 0 to |ind|
      invariant AddressesAre(z, h, ind, ByRow(z, h, ind, t), i1, i2)
    {
      ghost var k1, k2 := i1, i2;
      var e, d, p := qv[t], ii[t], jj[t];
      var j := 0;
      while j < e
        invariant 0 <= j <= e && d == ii[t] + j
        invariant i1 == k1 + seq(j, l => ii[t] + l) && i2 == k2 + seq(j, l => p)
      {
        i1, i2, d, j := i1 + [d], i2 + [p], d + 1, j + 1;
      }
      AddressesStep(z, h, ind, t, k1, k2, i1, i2);
    }
  }
}
