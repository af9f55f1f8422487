/** The order of the addresses in a padded array: the items of a key are all its cells, in order. */
module SparseSeats {
  import opened Arith
  import opened CellOffset
  import opened SparseSpec
  import opened SparsePad
  import opened SparseCells
  import opened SparseRuns

  /** The number of cells that a key has, and the number of the cell of a row. */
  function CellsOfKey<T>(z: Sparse<T>, h: nat): nat
    requires Ascending(z.axes, |z.shape|)
  {
    Cells(z.Lengths()[Framed(z, h)..], |z.axes| - Framed(z, h))
  }

  function Tail<T>(z: Sparse<T>, h: nat, r: seq<nat>): nat
    requires Ascending(z.axes, |z.shape|) && |r| == |z.axes|
  {
    Cell(r[Framed(z, h)..], z.Lengths()[Framed(z, h)..], |z.axes| - Framed(z, h))
  }

  /** The number of an item's row among all rows. */
  function Number<T>(z: Sparse<T>, r: seq<nat>): nat
    requires Ascending(z.axes, |z.shape|) && |r| == |z.axes|
  {
    Cell(r, z.Lengths(), |z.axes|)
  }

  lemma NumberParts<T>(z: Sparse<T>, h: nat, r: seq<nat>)
    requires z.Shaped() && z.RowFits(r)
    ensures |r| == |z.axes| && Ascending(z.axes, |z.shape|)
    ensures var d := Framed(z, h);
            Number(z, r) == Cell(r[..d], z.Lengths(), d) * CellsOfKey(z, h) + Tail(z, h, r)
    ensures Tail(z, h, r) < CellsOfKey(z, h)
  {
    var d, sv := Framed(z, h), z.Lengths();
    CellSplit(r, sv, d, |z.axes|);
    CellOfPrefix(r, sv, r[..d], sv, d);
    RangeParts(r, sv, d);
    CellBound(r[d..], sv[d..], |z.axes| - d);
    hide Cell, Cells, Framed;
  }

  /** A row that fits has its number, and no other. */
  lemma NumbersInOrder<T>(z: Sparse<T>, p: nat, q: nat)
    requires z.Valid() && p < |z.rows| && q < |z.rows|
    ensures |z.rows[p]| == |z.axes| == |z.rows[q]| && z.RowFits(z.rows[p]) && z.RowFits(z.rows[q])
    ensures Number(z, z.rows[p]) < Number(z, z.rows[q]) <==> p < q
  {
    if p < q {
      BeforeIsCell(z.rows[p], z.rows[q], z.Lengths());
    } else if q < p {
      BeforeIsCell(z.rows[q], z.rows[p], z.Lengths());
    }
  }

  /** Every cell of a key of a complete array has an item. */
  lemma HasTail<T>(z: Sparse<T>, h: nat, ind: seq<seq<nat>>, t: nat, j: nat) returns (q: nat)
    requires Ready(z, h, ind) && Complete(z, z.rows, h, ind) && t < |ind|
    requires Ascending(z.axes, |z.shape|) && |ind[t]| == h && j < CellsOfKey(z, h)
    ensures q < |z.rows| && |z.rows[q]| == |z.axes|
    ensures z.rows[q][..Framed(z, h)] == Key(z, h, ind[t]) && Tail(z, h, z.rows[q]) == j
  {
    hide *;
    ReadyIs(z, h, ind);
    KeyFits(z, h, ind, t);
    var d, sv := Framed(z, h), z.Lengths();
    CellsOfKeyIs(z, h);
    var cell := Digits(sv[d..], |z.axes| - d, j);
    var r := Key(z, h, ind[t]) + cell;
    assert r[..d] == Key(z, h, ind[t]) && r[d..] == cell;
    RangeParts(r, sv, d);
    RowFitsIs(z, r);
    CompleteAt(z, h, ind, t, r);
    q :| 0 <= q < |z.rows| && z.rows[q] == r;
    TailIs(z, h, r);
  }

  lemma CellsOfKeyIs<T>(z: Sparse<T>, h: nat)
    requires Ascending(z.axes, |z.shape|)
    ensures CellsOfKey(z, h) == Cells(z.Lengths()[Framed(z, h)..], |z.axes| - Framed(z, h))
  {
  }

  lemma TailIs<T>(z: Sparse<T>, h: nat, r: seq<nat>)
    requires Ascending(z.axes, |z.shape|) && |r| == |z.axes|
    ensures Tail(z, h, r) == Cell(r[Framed(z, h)..], z.Lengths()[Framed(z, h)..], |z.axes| - Framed(z, h))
  {
  }

  lemma CompleteAt<T>(z: Sparse<T>, h: nat, ind: seq<seq<nat>>, t: nat, r: seq<nat>)
    requires z.Shaped() && IndexTable(z, h, ind) && Complete(z, z.rows, h, ind) && t < |ind| && z.RowFits(r)
    requires |r| == |z.axes| && |ind[t]| == h && r[..Framed(z, h)] == Key(z, h, ind[t])
    ensures r in z.rows
  {
  }

  /** The number of a row with a given key and tail. */
  lemma NumberOf<T>(z: Sparse<T>, h: nat, ind: seq<seq<nat>>, t: nat, q: nat)
    requires Ready(z, h, ind) && t < |ind| && q < |z.rows|
    requires Ascending(z.axes, |z.shape|) && |ind[t]| == h && |z.rows[q]| == |z.axes|
    requires z.rows[q][..Framed(z, h)] == Key(z, h, ind[t])
    ensures Number(z, z.rows[q]) ==
            Cell(Key(z, h, ind[t]), z.Lengths(), Framed(z, h)) * CellsOfKey(z, h) + Tail(z, h, z.rows[q])
    ensures Tail(z, h, z.rows[q]) < CellsOfKey(z, h)
  {
    hide *;
    ReadyIs(z, h, ind);
    NumbersInOrder(z, q, q);
    NumberParts(z, h, z.rows[q]);
  }

  /** Item j of the run of a key is its cell j. */
  lemma {:induction false} RunTail<T>(z: Sparse<T>, h: nat, ind: seq<seq<nat>>, t: nat, j: nat)
    requires Ready(z, h, ind) && Complete(z, z.rows, h, ind) && t < |ind|
    requires Ascending(z.axes, |z.shape|) && |ind[t]| == h && j < CellsOfKey(z, h)
    requires forall q :: 0 <= q < |z.rows| ==> |z.rows[q]| == |z.axes|
    ensures var q := RunOf(z, h, ind, t).0 + j;
            && q < |z.rows| && z.rows[q][..Framed(z, h)] == Key(z, h, ind[t]) && Tail(z, h, z.rows[q]) == j
  {
    hide *;
    ReadyIs(z, h, ind);
    var q := HasTail(z, h, ind, t, j);
    NumberOf(z, h, ind, t, q);
    if j == 0 {
      RunBegins(z, h, ind, t, q);
      var p := RunOf(z, h, ind, t).0;
      NumberOf(z, h, ind, t, p);
      NumbersInOrder(z, p, q);
    } else {
      RunTail(z, h, ind, t, j - 1);
      var p := RunOf(z, h, ind, t).0 + j - 1;
      NumberOf(z, h, ind, t, p);
      NumbersInOrder(z, p, q);
      if p + 1 < q {
        NumbersInOrder(z, p, p + 1);
        NumbersInOrder(z, p + 1, q);
      }
    }
  }

  /** An item with the key is not before the run. */
  lemma RunBegins<T>(z: Sparse<T>, h: nat, ind: seq<seq<nat>>, t: nat, q: nat)
    requires Ready(z, h, ind) && t < |ind| && q < |z.rows|
    requires Ascending(z.axes, |z.shape|) && |ind[t]| == h
    requires forall p :: 0 <= p < |z.rows| ==> |z.rows[p]| == |z.axes|
    requires z.rows[q][..Framed(z, h)] == Key(z, h, ind[t])
    ensures var p := RunOf(z, h, ind, t).0; p <= q && z.rows[p][..Framed(z, h)] == Key(z, h, ind[t])
  {
    var y := Heads(z.rows, Framed(z, h));
    assert y[q] == Key(z, h, ind[t]);
    FirstBefore(y, Key(z, h, ind[t]), q);
    hide Key, Framed, FirstOf;
  }

  /** The run of a key has as many items as the key has cells. */
  lemma RunSize<T>(z: Sparse<T>, h: nat, ind: seq<seq<nat>>, t: nat)
    requires Ready(z, h, ind) && Complete(z, z.rows, h, ind) && t < |ind|
    requires Ascending(z.axes, |z.shape|) && |ind[t]| == h && 0 < CellsOfKey(z, h)
    requires forall q :: 0 <= q < |z.rows| ==> |z.rows[q]| == |z.axes|
    ensures RunOf(z, h, ind, t).1 == CellsOfKey(z, h)
  {
    hide *;
    ReadyIs(z, h, ind);
    var n, d, key := CellsOfKey(z, h), Framed(z, h), Key(z, h, ind[t]);
    var (p, e) := RunOf(z, h, ind, t);
    RunTail(z, h, ind, t, n - 1);
    InRun(z, h, ind, t, p + n - 1);
    if p + n < |z.rows| {
      InRun(z, h, ind, t, p + n);
      if z.rows[p + n][..d] == key {
        NumberOf(z, h, ind, t, p + n);
        var j := Tail(z, h, z.rows[p + n]);
        RunTail(z, h, ind, t, j);
        NumberOf(z, h, ind, t, p + j);
        NumbersInOrder(z, p + j, p + n);
      }
    } else {
      RunInside(z, h, ind, t);
    }
  }

  lemma InRun<T>(z: Sparse<T>, h: nat, ind: seq<seq<nat>>, t: nat, q: nat)
    requires Ready(z, h, ind) && t < |ind| && q < |z.rows|
    requires Ascending(z.axes, |z.shape|) && |ind[t]| == h
    requires forall p :: 0 <= p < |z.rows| ==> |z.rows[p]| == |z.axes|
    ensures var (p, e) := RunOf(z, h, ind, t);
            z.rows[q][..Framed(z, h)] == Key(z, h, ind[t]) <==> p < |z.rows| && p <= q < p + e
  {
    ReadyIs(z, h, ind);
    RunIs(z, Framed(z, h), Key(z, h, ind[t]), q);
    hide Framed, Key, FirstOf, RunFrom;
  }

  lemma RunInside<T>(z: Sparse<T>, h: nat, ind: seq<seq<nat>>, t: nat)
    requires Ready(z, h, ind) && t < |ind|
    requires Ascending(z.axes, |z.shape|) && |ind[t]| == h
    requires forall p :: 0 <= p < |z.rows| ==> |z.rows[p]| == |z.axes|
    ensures var (p, e) := RunOf(z, h, ind, t); p < |z.rows| ==> p + e <= |z.rows|
    ensures var (p, e) := RunOf(z, h, ind, t); p == |z.rows| ==> e == 1
  {
    hide Framed, Key, FirstOf;
  }

  /** If no sparse axis is indexed, the items of a complete array are all cells in order. */
  lemma TailIsItem<T>(z: Sparse<T>, h: nat, ind: seq<seq<nat>>, q: nat)
    requires Ready(z, h, ind) && Complete(z, z.rows, h, ind) && ind != [] && q < |z.rows| && Framed(z, h) == 0
    requires Ascending(z.axes, |z.shape|) && |z.rows[q]| == |z.axes| && |ind[0]| == h
    requires forall p :: 0 <= p < |z.rows| ==> |z.rows[p]| == |z.axes|
    ensures Tail(z, h, z.rows[q]) == q < CellsOfKey(z, h)
  {
    hide *;
    ReadyIs(z, h, ind);
    NoLength(z.rows[q][..0], Key(z, h, ind[0]));
    NumberOf(z, h, ind, 0, q);
    var j := Tail(z, h, z.rows[q]);
    RunTail(z, h, ind, 0, j);
    var p := RunOf(z, h, ind, 0).0;
    NumberOf(z, h, ind, 0, p + j);
    NumbersInOrder(z, p + j, q);
    NumbersInOrder(z, q, p + j);
    NoLength(z.rows[0][..0], Key(z, h, ind[0]));
    RunBegins(z, h, ind, 0, 0);
  }

  // ---- Seats.

  /** Where the values for a row and an index row are in the replacement, in cells: the index rows come
      first, or, if none of the axes they index is sparse, the sparse axes. */
  function Seat<T>(z: Sparse<T>, h: nat, n: nat, r: seq<nat>, t: nat): nat
    requires Ascending(z.axes, |z.shape|) && |r| == |z.axes|
  {
    if Framed(z, h) == 0 then Tail(z, h, r) * n + t else t * CellsOfKey(z, h) + Tail(z, h, r)
  }

  ghost predicate IsPadded<T>(z: Sparse<T>, h: nat, ind: seq<seq<nat>>) {
    && Ready(z, h, ind) && z.Shaped() && IndexTable(z, h, ind) && Complete(z, z.rows, h, ind)
    && Ascending(z.axes, |z.shape|) && (forall t :: 0 <= t < |ind| ==> |ind[t]| == h)
    && (forall p :: 0 <= p < |z.rows| ==> |z.rows[p]| == |z.axes|)
    && (Framed(z, h) == 0 || ind == [] || 0 < CellsOfKey(z, h))
  }

  lemma PaddedReady<T>(z: Sparse<T>, h: nat, ind: seq<seq<nat>>)
    requires IsPadded(z, h, ind)
    ensures Ready(z, h, ind) && z.Shaped() && IndexTable(z, h, ind) && Complete(z, z.rows, h, ind)
    ensures Ascending(z.axes, |z.shape|) && forall t :: 0 <= t < |ind| ==> |ind[t]| == h
    ensures forall p :: 0 <= p < |z.rows| ==> |z.rows[p]| == |z.axes|
    ensures Framed(z, h) == 0 || ind == [] || 0 < CellsOfKey(z, h)
  {
  }

  lemma {:induction false} ByRowSize<T>(z: Sparse<T>, h: nat, ind: seq<seq<nat>>, n: nat)
    requires IsPadded(z, h, ind) && n <= |ind| && Framed(z, h) != 0
    ensures Ascending(z.axes, |z.shape|) && forall t :: 0 <= t < |ind| ==> |ind[t]| == h
    ensures forall p :: 0 <= p < |z.rows| ==> |z.rows[p]| == |z.axes|
    ensures |ByRow(z, h, ind, n)| == n * CellsOfKey(z, h)
  {
    hide *;
    PaddedReady(z, h, ind);
    if n > 0 {
      ByRowSize(z, h, ind, n - 1);
      RunSize(z, h, ind, n - 1);
      ByRowStep(z, h, ind, n - 1);
      OneMoreTimes(n - 1, CellsOfKey(z, h));
    } else {
      ByRowNone(z, h, ind);
    }
  }

  lemma {:induction false} ByRowSeat<T>(z: Sparse<T>, h: nat, ind: seq<seq<nat>>, n: nat, t: nat, j: nat, k: nat)
    requires IsPadded(z, h, ind) && t < n <= |ind| && Framed(z, h) != 0
    requires Ascending(z.axes, |z.shape|) && j < CellsOfKey(z, h) && k == t * CellsOfKey(z, h) + j
    requires forall i :: 0 <= i < |ind| ==> |ind[i]| == h
    requires forall p :: 0 <= p < |z.rows| ==> |z.rows[p]| == |z.axes|
    ensures Seated(ByRow(z, h, ind, n), k, (RunOf(z, h, ind, t).0 + j, t))
  {
    hide *;
    PaddedReady(z, h, ind);
    RunSize(z, h, ind, n - 1);
    ByRowStep(z, h, ind, n - 1);
    ByRowSize(z, h, ind, n - 1);
    var l, s, q := ByRow(z, h, ind, n - 1), CellsOfKey(z, h), RunOf(z, h, ind, n - 1).0;
    var l' := Run(q, s, n - 1);
    if t < n - 1 {
      ByRowSeat(z, h, ind, n - 1, t, j, k);
      SeatKept(l, l', k, (RunOf(z, h, ind, t).0 + j, t));
    } else {
      SeatNew(l, l', j, (q + j, n - 1));
    }
  }

  ghost predicate Seated(l: seq<(nat, nat)>, k: nat, x: (nat, nat)) {
    k < |l| && l[k] == x
  }

  lemma SeatKept(l: seq<(nat, nat)>, l': seq<(nat, nat)>, k: nat, x: (nat, nat))
    requires Seated(l, k, x)
    ensures Seated(l + l', k, x)
  {
  }

  lemma SeatNew(l: seq<(nat, nat)>, l': seq<(nat, nat)>, k: nat, x: (nat, nat))
    requires k < |l'| && l'[k] == x
    ensures Seated(l + l', |l| + k, x)
  {
  }

  /** The seat of an item and an index row is where they are in the order of addresses. */
  lemma EntryAtSeat<T>(z: Sparse<T>, h: nat, ind: seq<seq<nat>>, q: nat, t: nat)
    requires IsPadded(z, h, ind) && q < |z.rows| && t < |ind|
    ensures Ascending(z.axes, |z.shape|) && forall t :: 0 <= t < |ind| ==> |ind[t]| == h
    ensures forall p :: 0 <= p < |z.rows| ==> |z.rows[p]| == |z.axes|
    ensures z.rows[q][..Framed(z, h)] == Key(z, h, ind[t]) ==>
              Seated(Entries(z, h, ind), Seat(z, h, |ind|, z.rows[q], t), (q, t))
  {
    hide *;
    PaddedReady(z, h, ind);
    ReadyIs(z, h, ind);
    var d, s, j := Framed(z, h), CellsOfKey(z, h), Tail(z, h, z.rows[q]);
    SeatIs(z, h, |ind|, z.rows[q], t);
    if z.rows[q][..d] == Key(z, h, ind[t]) {
      if d == 0 {
        EntriesByItem(z, h, ind);
        ByItemAt(|z.rows|, |ind|, q, t);
        TailIsItem(z, h, ind, q);
        SeatedIs(Entries(z, h, ind), q * |ind| + t, (q, t));
      } else {
        EntriesByRow(z, h, ind);
        NumberOf(z, h, ind, t, q);
        ByRowSeat(z, h, ind, |ind|, t, j, t * s + j);
        RunTail(z, h, ind, t, j);
        var p := RunOf(z, h, ind, t).0 + j;
        NumberOf(z, h, ind, t, p);
        NumbersInOrder(z, p, q);
        NumbersInOrder(z, q, p);
      }
    }
  }

  lemma SeatedIs(l: seq<(nat, nat)>, k: nat, x: (nat, nat))
    ensures Seated(l, k, x) <==> k < |l| && l[k] == x
  {
  }

  lemma SeatIs<T>(z: Sparse<T>, h: nat, n: nat, r: seq<nat>, t: nat)
    requires Ascending(z.axes, |z.shape|) && |r| == |z.axes|
    ensures Seat(z, h, n, r, t) ==
            if Framed(z, h) == 0 then Tail(z, h, r) * n + t else t * CellsOfKey(z, h) + Tail(z, h, r)
  {
  }

  lemma EntriesByItem<T>(z: Sparse<T>, h: nat, ind: seq<seq<nat>>)
    requires Ready(z, h, ind) && Framed(z, h) == 0
    ensures Entries(z, h, ind) == ByItem(|z.rows|, |ind|)
  {
  }

  /** Every address is at the seat of its item and index row, and they have one key. */
  lemma SeatOfEntry<T>(z: Sparse<T>, h: nat, ind: seq<seq<nat>>, k: nat)
    requires IsPadded(z, h, ind)
    ensures Ascending(z.axes, |z.shape|) && forall t :: 0 <= t < |ind| ==> |ind[t]| == h
    ensures forall p :: 0 <= p < |z.rows| ==> |z.rows[p]| == |z.axes|
    ensures k < |Entries(z, h, ind)| ==>
              var (q, t) := Entries(z, h, ind)[k];
              && q < |z.rows| && t < |ind| && z.rows[q][..Framed(z, h)] == Key(z, h, ind[t])
              && k == Seat(z, h, |ind|, z.rows[q], t)
  {
    hide *;
    PaddedReady(z, h, ind);
    ReadyIs(z, h, ind);
    var l, s := Entries(z, h, ind), CellsOfKey(z, h);
    if k < |l| {
      var (q, t) := l[k];
      if Framed(z, h) == 0 {
        EntriesByItem(z, h, ind);
        ByItemOwner(|z.rows|, |ind|, k);
        TailIsItem(z, h, ind, q);
        NoLength(z.rows[q][..0], Key(z, h, ind[t]));
      } else {
        EntriesByRow(z, h, ind);
        ByRowSize(z, h, ind, |ind|);
        PositiveFactors(|ind|, s);
        QuotientSmall(k, s, |ind|);
        var u, j := k / s, k % s;
        ByRowSeat(z, h, ind, |ind|, u, j, k);
        SeatedIs(l, k, (RunOf(z, h, ind, u).0 + j, u));
        RunTail(z, h, ind, u, j);
      }
      SeatIs(z, h, |ind|, z.rows[q], t);
    }
  }

  /** In a complete array every address is in an item; but if a sparse axis after the frame has no indexes,
      each index row addresses what would be the item after the last. */
  lemma PastTheLastIff<T>(z: Sparse<T>, h: nat, ind: seq<seq<nat>>)
    requires Ready(z, h, ind) && z.Shaped() && IndexTable(z, h, ind) && Complete(z, z.rows, h, ind)
    ensures Ascending(z.axes, |z.shape|) && forall t :: 0 <= t < |ind| ==> |ind[t]| == h
    ensures forall p :: 0 <= p < |z.rows| ==> |z.rows[p]| == |z.axes|
    ensures (forall k :: 0 <= k < |Entries(z, h, ind)| ==> Entries(z, h, ind)[k].0 < |z.rows|) <==>
            Framed(z, h) == 0 || ind == [] || 0 < CellsOfKey(z, h)
  {
    hide *;
    ReadyIs(z, h, ind);
    if Framed(z, h) == 0 || ind == [] || 0 < CellsOfKey(z, h) {
      PaddedIf(z, h, ind);
      forall k | 0 <= k < |Entries(z, h, ind)| ensures Entries(z, h, ind)[k].0 < |z.rows| {
        SeatOfEntry(z, h, ind, k);
      }
    } else {
      EntriesByRow(z, h, ind);
      FirstEntry(z, h, ind, |ind|);
      var (p, e) := RunOf(z, h, ind, 0);
      if p < |z.rows| {
        InRun(z, h, ind, 0, p);
        NumberOf(z, h, ind, 0, p);
      }
    }
  }

  lemma PaddedIf<T>(z: Sparse<T>, h: nat, ind: seq<seq<nat>>)
    requires Ready(z, h, ind) && z.Shaped() && IndexTable(z, h, ind) && Complete(z, z.rows, h, ind)
    requires Ascending(z.axes, |z.shape|) && (Framed(z, h) == 0 || ind == [] || 0 < CellsOfKey(z, h))
    ensures IsPadded(z, h, ind)
  {
    ReadyIs(z, h, ind);
    hide Ready, IndexTable, Complete, CellsOfKey;
  }

  lemma {:induction false} FirstEntry<T>(z: Sparse<T>, h: nat, ind: seq<seq<nat>>, n: nat)
    requires Ready(z, h, ind) && 0 < n <= |ind|
    ensures Ascending(z.axes, |z.shape|) && forall t :: 0 <= t < |ind| ==> |ind[t]| == h
    ensures forall p :: 0 <= p < |z.rows| ==> |z.rows[p]| == |z.axes|
    ensures ByRow(z, h, ind, n) != [] && ByRow(z, h, ind, n)[0] == (RunOf(z, h, ind, 0).0, 0)
  {
    hide *;
    ReadyIs(z, h, ind);
    ByRowStep(z, h, ind, n - 1);
    if n > 1 {
      FirstEntry(z, h, ind, n - 1);
    } else {
      ByRowNone(z, h, ind);
    }
  }

  /** Row 0 of an array of shape 1 0 whose axes are both sparse: there is no item, and item 0 is addressed. */
  lemma PastTheLastExample()
    ensures var z := Sparse([1, 0], [0, 1], 0, [], []);
            && Ready(z, 1, [[0]]) && Ascending(z.axes, |z.shape|) && z.Shaped() && Complete(z, z.rows, 1, [[0]])
            && |Entries(z, 1, [[0]])| > 0 && Entries(z, 1, [[0]])[0] == (0, 0) && |z.rows| == 0
  {
    var z := Sparse([1, 0], [0, 1], 0, [], []);
    PastTheLastParts();
    hide *;
    AreReady(z, 1, [[0]]);
    EntriesByRow(z, 1, [[0]]);
    FirstEntry(z, 1, [[0]], 1);
  }

  lemma PastTheLastParts()
    ensures var z := Sparse([1, 0], [0, 1], 0, [], []);
            && z.Valid() && IndexTable(z, 1, [[0]]) && z.Shaped() && Complete(z, z.rows, 1, [[0]]) && Framed(z, 1) == 1
            && Ascending(z.axes, |z.shape|) && RunOf(z, 1, [[0]], 0).0 == 0 && |z.rows| == 0
  {
    var z := Sparse([1, 0], [0, 1], 0, [], []);
    assert z.Valid();
    FramedIs(z, 1);
    assert z.axes[0] == 0 && z.axes[1] == 1;
    assert z.Lengths()[1] == 0;
    forall r ensures !z.RowFits(r) {
    }
  }
}
