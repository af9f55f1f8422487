/** Rows of indexes turned into cell numbers, for scatter amend. */
module CellOffset {
  import opened Wrappers
  import AmendIndex
  import opened Arith

  datatype Offsets = Offsets(cells: seq<nat>) | LengthError | IndexError

  /** The cell number of the first n indexes of a row under axes of lengths sv. */
  function Cell(row: seq<nat>, sv: seq<nat>, n: nat): nat
    requires n <= |row| && n <= |sv|
  {
    if n == 0 then 0 else Cell(row, sv, n - 1) * sv[n - 1] + row[n - 1]
  }

  function Cells(sv: seq<nat>, n: nat): nat
    requires n <= |sv|
  {
    if n == 0 then 1 else Cells(sv, n - 1) * sv[n - 1]
  }

  ghost predicate InRange(row: seq<nat>, sv: seq<nat>, n: nat) {
    n <= |row| && n <= |sv| && forall i :: 0 <= i < n ==> row[i] < sv[i]
  }

  lemma {:induction false} CellBound(row: seq<nat>, sv: seq<nat>, n: nat)
    requires InRange(row, sv, n)
    ensures Cell(row, sv, n) < Cells(sv, n)
  {
    if n > 0 {
      CellBound(row, sv, n - 1);
      OneMoreTimes(Cell(row, sv, n - 1), sv[n - 1]);
      TimesMonotone(Cell(row, sv, n - 1) + 1, Cells(sv, n - 1), sv[n - 1]);
    }
  }

  /** Cell numbers follow row-major order: the first index that differs decides. */
  lemma {:induction false} CellOrder(a: seq<nat>, b: seq<nat>, sv: seq<nat>, n: nat, d: nat)
    requires InRange(a, sv, n) && InRange(b, sv, n) && d < n
    requires (forall i :: 0 <= i < d ==> a[i] == b[i]) && a[d] < b[d]
    ensures Cell(a, sv, n) < Cell(b, sv, n)
  {
    if d == n - 1 {
      CellSame(a, b, sv, d);
    } else {
      CellOrder(a, b, sv, n - 1, d);
      OneMoreTimes(Cell(a, sv, n - 1), sv[n - 1]);
      TimesMonotone(Cell(a, sv, n - 1) + 1, Cell(b, sv, n - 1), sv[n - 1]);
    }
  }

  lemma {:induction false} CellSame(a: seq<nat>, b: seq<nat>, sv: seq<nat>, n: nat)
    requires n <= |a| && n <= |b| && n <= |sv| && forall i :: 0 <= i < n ==> a[i] == b[i]
    ensures Cell(a, sv, n) == Cell(b, sv, n)
  {
    if n > 0 {
      CellSame(a, b, sv, n - 1);
    }
  }

  /** Two rows name the same cell exactly when they are the same indexes. */
  lemma CellInjective(a: seq<nat>, b: seq<nat>, sv: seq<nat>, n: nat)
    requires InRange(a, sv, n) && InRange(b, sv, n)
    ensures Cell(a, sv, n) == Cell(b, sv, n) <==> a[..n] == b[..n]
  {
    if a[..n] == b[..n] {
      forall i | 0 <= i < n ensures a[i] == b[i] {
        assert a[..n][i] == b[..n][i];
      }
      CellSame(a, b, sv, n);
    } else {
      var d := FirstDifference(a, b, n);
      if a[d] < b[d] {
        CellOrder(a, b, sv, n, d);
      } else {
        CellOrder(b, a, sv, n, d);
      }
    }
  }

  lemma {:induction false} FirstDifference(a: seq<nat>, b: seq<nat>, n: nat) returns (d: nat)
    requires n <= |a| && n <= |b| && a[..n] != b[..n]
    ensures d < n && a[d] != b[d] && forall i :: 0 <= i < d ==> a[i] == b[i]
  {
    if a[..n - 1] == b[..n - 1] {
      d := n - 1;
      assert a[..n] == a[..d] + [a[d]] && b[..n] == b[..d] + [b[d]];
      forall i | 0 <= i < d ensures a[i] == b[i] {
        assert a[..d][i] == b[..d][i];
      }
    } else {
      d := FirstDifference(a, b, n - 1);
    }
  }

  /** The row with negative indexes counted from the end; None when an index is out of range. */
  function WrapRow(row: seq<int>, sv: seq<nat>, n: nat): (r: Option<seq<nat>>)
    requires n <= |row| && n <= |sv|
    ensures r.Some? ==> |r.value| == n && InRange(r.value, sv, n)
    ensures r.Some? <==> forall i :: 0 <= i < n ==> AmendIndex.Wrapped(row[i], sv[i]).Some?
  {
    if n == 0 then Some([])
    else
      var init, last := WrapRow(row, sv, n - 1), AmendIndex.Wrapped(row[n - 1], sv[n - 1]);
      if init.Some? && last.Some? then Some(init.value + [last.value]) else None
  }

  /** Turn each row of naxes indexes into the number of a cell of y. */
  method CellOffsets(ind: seq<seq<int>>, naxes: nat, sv: seq<nat>) returns (z: Offsets)
    requires forall k :: 0 <= k < |ind| ==> |ind[k]| == naxes
    ensures z == LengthError <==> naxes > |sv|
    ensures z == IndexError <==> naxes <= |sv| && exists k :: 0 <= k < |ind| && WrapRow(ind[k], sv, naxes) == None
    ensures z.Offsets? ==> |z.cells| == |ind| && forall k :: 0 <= k < |ind| ==>
              WrapRow(ind[k], sv, naxes).Some? && z.cells[k] == Cell(WrapRow(ind[k], sv, naxes).value, sv, naxes)
  {
    if naxes > |sv| {
      return LengthError;
    }
    var cells := [];
    var k := 0;
    while k < |ind|
      invariant 0 <= k <= |ind| && |cells| == k
      invariant forall l :: 0 <= l < k ==>
                  WrapRow(ind[l], sv, naxes).Some? && cells[l] == Cell(WrapRow(ind[l], sv, naxes).value, sv, naxes)
    {
      var c := RowOffset(ind[k], sv);
      if c == None {
        return IndexError;
      }
      cells := cells + [c.value];
      k := k + 1;
    }
    z := Offsets(cells);
  }

  method RowOffset(iv: seq<int>, sv: seq<nat>) returns (c: Option<nat>)
    requires |iv| <= |sv|
    ensures c == None <==> WrapRow(iv, sv, |iv|) == None
    ensures c.Some? ==> c.value == Cell(WrapRow(iv, sv, |iv|).value, sv, |iv|)
  {
    var r, i := 0, 0;
    while i < |iv|
      invariant 0 <= i <= |iv| && 0 <= r
      invariant WrapRow(iv, sv, i).Some? && r == Cell(WrapRow(iv, sv, i).value, sv, i)
    {
      var s := sv[i];
      TimesMonotone(0, r, s);
      var ix := iv[i];
      if !(0 <= ix < s) {
        ix := ix + s;
        if !(0 <= ix < s) {
          assert AmendIndex.Wrapped(iv[i], sv[i]) == None;
          return None;
        }
      }
      CellSame(WrapRow(iv, sv, i).value, WrapRow(iv, sv, i + 1).value, sv, i);
      r := r * s + ix;
      i := i + 1;
    }
    c := Some(r);
  }
}
