/** x m} y over orthogonal axes, as an odometer: the axes hold an index and a base address each,
    the last two axes run in inner loops, and the cursor into x is wrapped by reset amounts. */
module AmendOdometer {
  import opened Wrappers
  import opened Arith
  import opened AmendSpec

  // ---- The cursor into x.

  /** Cells of x stored since its last wrap, when the cell with digits d under axes 0 to L-1 starts. */
  function Done<T>(m: Amend<T>, d: seq<nat>, L: nat): nat
    requires L <= |d| && L <= |m.axes|
  {
    if L <= m.wrap then 0 else Done(m, d, L - 1) + d[L - 1] * Combos(m.axes, L)
  }

  /** The source advances its cursor only when x has more than one cell. */
  predicate Advances<T>(m: Amend<T>) {
    |m.a| > m.cellsize
  }

  /** The cursor av and the cell c of x when the cell of axes 0 to L-1 starts. */
  ghost predicate AtStart<T>(m: Amend<T>, d: seq<nat>, L: nat, av: int, c: nat)
    requires L <= |d| && L <= |m.axes|
  {
    if Advances(m) then c == Done(m, d, L) && av == c * m.cellsize else c == 0 && av == 0
  }

  /** The same when that cell has been stored but the reset of its axis is still due. */
  ghost predicate AtEnd<T>(m: Amend<T>, d: seq<nat>, L: nat, av: int, c: nat)
    requires L <= |d| && L <= |m.axes| && m.wrap <= |m.axes|
  {
    if !Advances(m) || m.wrap > L then c == 0 && av == 0
    else
      var u := Done(m, d, L) + Combos(m.axes, L);
      av == u * m.cellsize && c == if u == m.Cells() then 0 else u
  }

  /** The amount added to the cursor after axis L-1's cell: back to the start of x where x ends. */
  function Reset<T>(m: Amend<T>, L: nat): int {
    if Advances(m) && m.wrap == L then -|m.a| else 0
  }

  ghost predicate Digits<T>(m: Amend<T>, d: seq<nat>, L: nat) {
    L <= |d| && L <= |m.axes| && forall i :: 0 <= i < L ==> d[i] < m.axes[i].Max()
  }

  lemma {:induction false} DoneBound<T>(m: Amend<T>, d: seq<nat>, L: nat)
    requires m.Valid() && m.wrap <= L && Digits(m, d, L)
    ensures Done(m, d, L) + Combos(m.axes, L) <= m.Cells()
  {
    if L > m.wrap {
      DoneBound(m, d, L - 1);
      OneMoreTimes(d[L - 1], Combos(m.axes, L));
      TimesMonotone(d[L - 1] + 1, m.axes[L - 1].Max(), Combos(m.axes, L));
    }
  }

  lemma {:induction false} DoneSame<T>(m: Amend<T>, d: seq<nat>, e: seq<nat>, L: nat)
    requires L <= |d| && L <= |e| && L <= |m.axes| && d[..L] == e[..L]
    ensures Done(m, d, L) == Done(m, e, L)
  {
    if L > m.wrap {
      assert d[..L][L - 1] == e[..L][L - 1];
      assert d[..L - 1] == d[..L][..L - 1] && e[..L - 1] == e[..L][..L - 1];
      DoneSame(m, d, e, L - 1);
    }
  }

  lemma {:induction false} DoneOfZeros<T>(m: Amend<T>, d: seq<nat>, L: nat, M: nat)
    requires L <= M <= |d| && M <= |m.axes| && forall i :: L <= i < M ==> d[i] == 0
    ensures Done(m, d, M) == Done(m, d, L)
  {
    if M > L {
      DoneOfZeros(m, d, L, M - 1);
      DoneWrapped(m, d, L);
    }
  }

  lemma DoneWrapped<T>(m: Amend<T>, d: seq<nat>, L: nat)
    requires L <= |d| && L <= |m.axes|
    ensures L <= m.wrap ==> Done(m, d, L) == 0
  {
  }

  /** Resetting makes the cursor right for the next cell of axis L-1. */
  lemma StepOn<T>(m: Amend<T>, d: seq<nat>, L: nat, av: int, c: nat)
    requires m.Valid() && 0 < L && Digits(m, d, L) && AtEnd(m, d, L, av, c)
    requires d[L - 1] + 1 < m.axes[L - 1].Max()
    ensures AtStart(m, d[L - 1 := d[L - 1] + 1], L, av + Reset(m, L), c)
  {
    var e := d[L - 1 := d[L - 1] + 1];
    if Advances(m) {
      if m.wrap < L {
        DoneSame(m, d, e, L - 1);
        DoneBound(m, e, L);
        OneMoreTimes(d[L - 1], Combos(m.axes, L));
        m.CombosPositive(L);
      } else if m.wrap == L {
        assert Done(m, d, L) == 0;
      }
    }
  }

  /** Resetting makes the cursor right for the end of axis L-1's own cell. */
  lemma RollOver<T>(m: Amend<T>, d: seq<nat>, L: nat, av: int, c: nat)
    requires m.Valid() && 0 < L && Digits(m, d, L) && AtEnd(m, d, L, av, c)
    requires d[L - 1] + 1 == m.axes[L - 1].Max()
    ensures AtEnd(m, d, L - 1, av + Reset(m, L), c)
  {
    if Advances(m) {
      if m.wrap < L {
        OneMoreTimes(d[L - 1], Combos(m.axes, L));
      } else if m.wrap == L {
        assert Done(m, d, L) == 0;
      }
    }
  }

  /** One cell of y is stored. */
  lemma CellDone<T>(m: Amend<T>, d: seq<nat>, av: int, c: nat)
    requires m.Valid() && Digits(m, d, |m.axes|) && AtStart(m, d, |m.axes|, av, c)
    ensures c < m.Cells() && 0 <= av
    ensures |m.a| >= m.cellsize ==> av == c * m.cellsize && av + m.cellsize <= |m.a|
    ensures AtEnd(m, d, |m.axes|, if Advances(m) then av + m.cellsize else av, m.Next(c))
  {
    if Advances(m) {
      CombosOne(m);
      DoneBound(m, d, |m.axes|);
      m.CellInside(c);
      OneMoreTimes(c, m.cellsize);
    } else {
      SingleCell(m);
    }
  }

  lemma CombosOne<T>(m: Amend<T>)
    requires m.Valid() && Advances(m)
    ensures m.wrap < |m.axes|
  {
  }

  lemma SingleCell<T>(m: Amend<T>)
    requires m.Valid() && !Advances(m)
    ensures m.Cells() == 1
  {
    if |m.a| >= m.cellsize {
      TimesCancel(m.Cells(), 1, m.cellsize);
    }
  }

  // ---- The loops over the last two axes.

  /** Store one cell: the cell of x at av, or x repeated. */
  method StoreCell<T>(m: Amend<T>, z: array<T>, base: nat, av: nat, ghost c: nat)
    requires m.Valid() && c < m.Cells() && base + m.cellsize <= z.Length
    requires |m.a| >= m.cellsize ==> av == c * m.cellsize && av + m.cellsize <= |m.a|
    modifies z
    ensures z[..] == Store(old(z[..]), base, m.Cell(c))
  {
    var j := 0;
    while j < m.cellsize
      invariant 0 <= j <= m.cellsize
      invariant forall p :: 0 <= p < z.Length ==>
                  z[p] == if base <= p < base + j then m.Cell(c)[p - base] else old(z[p])
    {
      z[base + j] := if m.cellsize <= |m.a| then m.a[av + j] else m.a[j % |m.a|];
      j := j + 1;
    }
  }

  /** The first cell under axis L starts where the cell of the axis does. */
  lemma StartBelow<T>(m: Amend<T>, d: seq<nat>, L: nat, av: int, c: nat)
    requires m.Valid() && L < |m.axes| && Digits(m, d, L) && AtStart(m, d, L, av, c)
    ensures L <= |d| && AtStart(m, d[..L] + [0], L + 1, av, c)
  {
    var e := d[..L] + [0];
    DoneSame(m, d, e, L);
    DoneOfZeros(m, e, L, L + 1);
  }

  /** After the cell of index s of axis L and the reset of the axis comes the next index, or the
      end of the axis. */
  lemma NextIndex<T>(m: Amend<T>, d: seq<nat>, L: nat, s: nat, av: int, c: nat)
    requires m.Valid() && L < |m.axes| && Digits(m, d, L) && s < m.axes[L].Max()
    requires AtEnd(m, d[..L] + [s], L + 1, av, c)
    ensures if s + 1 < m.axes[L].Max() then AtStart(m, d[..L] + [s + 1], L + 1, av + Reset(m, L + 1), c)
            else AtEnd(m, d, L, av + Reset(m, L + 1), c)
  {
    var e := d[..L] + [s];
    if s + 1 < m.axes[L].Max() {
      StepOn(m, e, L + 1, av, c);
      assert e[L := s + 1] == d[..L] + [s + 1];
    } else {
      RollOver(m, e, L + 1, av, c);
      DoneSame(m, d, e, L);
    }
  }

  lemma NoResetInside<T>(m: Amend<T>)
    requires m.Valid()
    ensures Reset(m, |m.axes|) == 0
  {
    if Advances(m) {
      CombosOne(m);
    }
  }

  /** One store of the last axis: what StoreCell needs, and what is left of the row. */
  lemma RowStep<T>(m: Amend<T>, z: seq<T>, d: seq<nat>, base: nat, s: nat, av: int, c: nat)
    requires m.Valid() && |m.axes| > 0 && s < m.axes[|m.axes| - 1].Max() && c < m.Cells()
    requires var L := |m.axes| - 1;
             && Digits(m, d, L) && AtStart(m, d[..L] + [s], L + 1, av, c)
             && base + Span(m.axes, m.cellsize, L) <= |z|
    ensures var L := |m.axes| - 1;
            var at := base + m.axes[L].Index(s) * m.cellsize;
            && 0 <= av && 0 <= at && at + m.cellsize <= |z| && m.Next(c) < m.Cells()
            && (|m.a| >= m.cellsize ==> av == c * m.cellsize && av + m.cellsize <= |m.a|)
            && m.Loop(z, c, L, base, s) == m.Loop(Store(z, at, m.Cell(c)), m.Next(c), L, base, s + 1)
            && var av' := if |m.a| > m.cellsize then av + m.cellsize else av;
               if s + 1 < m.axes[L].Max() then AtStart(m, d[..L] + [s + 1], L + 1, av', m.Next(c))
               else AtEnd(m, d, L, av', m.Next(c))
  {
    var L := |m.axes| - 1;
    var av' := if |m.a| > m.cellsize then av + m.cellsize else av;
    RowUnfolds(m, z, base, s, c);
    CellDone(m, d[..L] + [s], av, c);
    NoResetInside(m);
    NextIndex(m, d, L, s, av', m.Next(c));
    hide *;
  }

  lemma RowUnfolds<T>(m: Amend<T>, z: seq<T>, base: nat, s: nat, c: nat)
    requires m.Valid() && |m.axes| > 0 && s < m.axes[|m.axes| - 1].Max() && c < m.Cells()
    requires base + Span(m.axes, m.cellsize, |m.axes| - 1) <= |z|
    ensures var L := |m.axes| - 1;
            var at := base + m.axes[L].Index(s) * m.cellsize;
            && 0 <= at && at + m.cellsize <= |z| && m.Next(c) < m.Cells()
            && m.Loop(z, c, L, base, s) == m.Loop(Store(z, at, m.Cell(c)), m.Next(c), L, base, s + 1)
  {
    hide *;
    var L := |m.axes| - 1;
    RowRoom(m, z, base, s, c);
    LoopStep(m, z, c, L, base, s);
    NestStores(m, z, c, base + m.axes[L].Index(s) * m.cellsize);
  }

  lemma RowRoom<T>(m: Amend<T>, z: seq<T>, base: nat, s: nat, c: nat)
    requires m.Valid() && |m.axes| > 0 && s < m.axes[|m.axes| - 1].Max() && c < m.Cells()
    requires base + Span(m.axes, m.cellsize, |m.axes| - 1) <= |z|
    ensures m.wrap <= |m.axes| && m.Next(c) < m.Cells() && Span(m.axes, m.cellsize, |m.axes|) == m.cellsize
    ensures var L := |m.axes| - 1;
            var at := base + m.axes[L].Index(s) * m.cellsize;
            0 <= at && at + m.cellsize <= |z| && m.Base(L, base, s) == at
  {
    hide *;
    var L := |m.axes| - 1;
    m.BaseInside(L, base, s, |z|);
    NextFits(m, c);
    LastStride(m);
    IndexBase(m, L, base, s);
    TimesMonotone(0, m.axes[L].Index(s), m.cellsize);
  }

  lemma NextFits<T>(m: Amend<T>, c: nat)
    requires m.Valid() && c < m.Cells()
    ensures m.wrap <= |m.axes| && m.Next(c) < m.Cells()
  {
    hide Combos, Axis.Valid;
  }

  lemma LastStride<T>(m: Amend<T>)
    requires |m.axes| > 0
    ensures Stride(m.axes, m.cellsize, |m.axes| - 1) == m.cellsize && Span(m.axes, m.cellsize, |m.axes|) == m.cellsize
  {
  }

  lemma IndexBase<T>(m: Amend<T>, i: nat, base: nat, j: nat)
    requires i < |m.axes| && j < m.axes[i].Max()
    ensures m.Base(i, base, j) == base + m.axes[i].Index(j) * Stride(m.axes, m.cellsize, i)
  {
    hide Stride, Axis.Index, Axis.Max;
  }

  lemma LoopStep<T>(m: Amend<T>, z: seq<T>, c: nat, i: nat, base: nat, j: nat)
    requires m.Valid() && i < |m.axes| && c < m.Cells() && j < m.axes[i].Max()
    requires base + Span(m.axes, m.cellsize, i) <= |z| && m.Base(i, base, j) + Span(m.axes, m.cellsize, i + 1) <= |z|
    ensures var n := m.Nest(z, c, i + 1, m.Base(i, base, j)); m.Loop(z, c, i, base, j) == m.Loop(n.0, n.1, i, base, j + 1)
  {
    hide Combos, Product, Span, Stride, Axis.Valid, Axis.Index, Amend.Base, Amend.Cell, Amend.Next;
  }

  lemma NestStores<T>(m: Amend<T>, z: seq<T>, c: nat, base: nat)
    requires m.Valid() && c < m.Cells() && Span(m.axes, m.cellsize, |m.axes|) == m.cellsize && base + m.cellsize <= |z|
    ensures m.Nest(z, c, |m.axes|, base) == (Store(z, base, m.Cell(c)), m.Next(c))
  {
    hide Combos, Product, Axis.Valid, Amend.Cell, Amend.Next;
  }

  lemma RowEnds<T>(m: Amend<T>, z: seq<T>, base: nat, i: nat, c: nat)
    requires m.Valid() && i < |m.axes| && c < m.Cells() && base + Span(m.axes, m.cellsize, i) <= |z|
    ensures m.wrap <= |m.axes| && m.axes[i].Max() > 0 && m.Loop(z, c, i, base, m.axes[i].Max()) == (z, c)
  {
  }

  /** Store the cells of the last axis from one base. */
  method CopyRow<T>(m: Amend<T>, z: array<T>, base: nat, av: int, ghost d: seq<nat>, ghost c: nat)
    returns (av': int, ghost c': nat)
    requires m.Valid() && |m.axes| > 0
    requires var L := |m.axes| - 1;
             && Digits(m, d, L) && AtStart(m, d, L, av, c) && c < m.Cells()
             && base + Span(m.axes, m.cellsize, L) <= z.Length
    modifies z
    ensures c' < m.Cells() && (z[..], c') == m.Loop(old(z[..]), c, |m.axes| - 1, base, 0)
    ensures AtEnd(m, d, |m.axes| - 1, av', c')
  {
    hide *;
    ghost var L := |m.axes| - 1;
    StartBelow(m, d, L, av, c);
    ghost var goal := m.Loop(z[..], c, L, base, 0);
    RowEnds(m, z[..], base, L, c);
    av', c' := av, c;
    var n0, s := m.axes[|m.axes| - 1].Max(), 0;
    while s < n0
      invariant 0 <= s <= n0 && c' < m.Cells()
      invariant goal == m.Loop(z[..], c', L, base, s)
      invariant if s < n0 then AtStart(m, d[..L] + [s], L + 1, av', c') else AtEnd(m, d, L, av', c')
    {
      RowStep(m, z[..], d, base, s, av', c');
      StoreCell(m, z, base + m.axes[|m.axes| - 1].Index(s) * m.cellsize, av', c');
      if |m.a| > m.cellsize {
        av' := av' + m.cellsize;
      }
      c' := m.Next(c');
      s := s + 1;
    }
    RowEnds(m, z[..], base, L, c');
  }

  /** Store the cells of the last two axes.  base2 is the base of the last axis but one, base the
      base of the last axis for its first index. */
  method CopyBlock<T>(m: Amend<T>, z: array<T>, base2: nat, base: nat, size2: nat, av: int, avnreset: int,
                      ghost d: seq<nat>, ghost c: nat)
    returns (av': int, ghost c': nat)
    requires m.Valid() && |m.axes| > 1
    requires var L := |m.axes| - 2;
             && Digits(m, d, L) && AtStart(m, d, L, av, c) && c < m.Cells()
             && base2 + Span(m.axes, m.cellsize, L) <= z.Length
             && base == m.Base(L, base2, 0) && size2 == Stride(m.axes, m.cellsize, L)
    requires avnreset == Reset(m, |m.axes| - 1)
    modifies z
    ensures c' < m.Cells() && (z[..], c') == m.Loop(old(z[..]), c, |m.axes| - 2, base2, 0)
    ensures AtEnd(m, d, |m.axes| - 2, av', c')
  {
    ghost var L := |m.axes| - 2;
    ghost var goal := m.Loop(z[..], c, L, base2, 0);
    StartBelow(m, d, L, av, c);
    av', c' := av, c;
    var axis := m.axes[|m.axes| - 2];
    var n1, s, next := axis.Max(), 0, base;
    while s < n1
      invariant 0 <= s <= n1 && c' < m.Cells()
      invariant s < n1 ==> next == m.Base(L, base2, s)
      invariant goal == m.Loop(z[..], c', L, base2, s)
      invariant if s < n1 then AtStart(m, d[..L] + [s], L + 1, av', c') else AtEnd(m, d, L, av', c')
    {
      ghost var e := d[..L] + [s];
      m.BaseInside(L, base2, s, z.Length);
      av', c' := CopyRow(m, z, next, av', e, c');
      NextIndex(m, d, L, s, av', c');
      if s + 1 < n1 {
        OneMoreTimes(s, size2);
        next := if axis.indexes == None then next + size2 else base2 + axis.indexes.value[s + 1] * size2;
      }
      av' := av' + avnreset;
      s := s + 1;
    }
  }

  // ---- The odometer over the other axes.

  /** The index of each of the first n axes, and the base each axis indexes from. */
  ghost predicate Odometer<T>(m: Amend<T>, d: seq<nat>, bases: seq<nat>, n: nat) {
    && Digits(m, d, n) && n < |bases|
    && bases[0] == 0 && forall i :: 0 <= i < n ==> bases[i + 1] == m.Base(i, bases[i], d[i])
  }

  lemma {:induction false} BasesInside<T>(m: Amend<T>, d: seq<nat>, bases: seq<nat>, n: nat, i: nat)
    requires m.Valid() && Odometer(m, d, bases, n) && i <= n
    ensures bases[i] + Span(m.axes, m.cellsize, i) <= Span(m.axes, m.cellsize, 0)
  {
    if i > 0 {
      BasesInside(m, d, bases, n, i - 1);
      m.BaseInside(i - 1, bases[i - 1], d[i - 1], Span(m.axes, m.cellsize, 0));
    }
  }

  /** What is still to be stored once the cell of axes 0 to L-1 is complete. */
  ghost function Rest<T>(m: Amend<T>, d: seq<nat>, bases: seq<nat>, z: seq<T>, c: nat, L: nat): (seq<T>, nat)
    requires m.Valid() && Odometer(m, d, bases, L) && c < m.Cells() && |z| == Span(m.axes, m.cellsize, 0)
    decreases L
  {
    if L == 0 then (z, c)
    else
      BasesInside(m, d, bases, L, L - 1);
      var n := m.Loop(z, c, L - 1, bases[L - 1], d[L - 1] + 1);
      Rest(m, d, bases, n.0, n.1, L - 1)
  }

  /** The rest does not depend on the wheels below. */
  lemma {:induction false} RestSame<T>(m: Amend<T>, d: seq<nat>, bases: seq<nat>, e: seq<nat>, cases: seq<nat>,
                                       z: seq<T>, c: nat, L: nat)
    requires m.Valid() && Odometer(m, d, bases, L) && Odometer(m, e, cases, L)
    requires c < m.Cells() && |z| == Span(m.axes, m.cellsize, 0)
    requires forall i :: 0 <= i < L ==> d[i] == e[i]
    requires forall i :: 0 <= i < L ==> bases[i] == cases[i]
    ensures Rest(m, d, bases, z, c, L) == Rest(m, e, cases, z, c, L)
    decreases L
  {
    if L > 0 {
      BasesInside(m, d, bases, L, L - 1);
      var n := m.Loop(z, c, L - 1, bases[L - 1], d[L - 1] + 1);
      RestSame(m, d, bases, e, cases, n.0, n.1, L - 1);
    }
  }

  /** Going down from axis L to axis n with first indexes: the cell of axis L and the rest above it
      are the cell of axis n and the rest above that. */
  lemma {:induction false} Descend<T>(m: Amend<T>, d: seq<nat>, bases: seq<nat>, z: seq<T>, c: nat, L: nat, n: nat)
    requires m.Valid() && L <= n < |m.axes| && Odometer(m, d, bases, n) && forall i :: L <= i < n ==> d[i] == 0
    requires c < m.Cells() && |z| == Span(m.axes, m.cellsize, 0)
    requires bases[L] + Span(m.axes, m.cellsize, L) <= |z| && bases[n] + Span(m.axes, m.cellsize, n) <= |z|
    ensures var p, q := m.Nest(z, c, L, bases[L]), m.Nest(z, c, n, bases[n]);
            Rest(m, d, bases, p.0, p.1, L) == Rest(m, d, bases, q.0, q.1, n)
    decreases n - L
  {
    if L < n {
      BasesInside(m, d, bases, n, L + 1);
      Descend(m, d, bases, z, c, L + 1, n);
    }
  }

  /** Turning wheel L-1 by one starts the next cell of axis L-1; what is left to do stays the same. */
  lemma TurnWheel<T>(m: Amend<T>, d: seq<nat>, bases: seq<nat>, e: seq<nat>, cases: seq<nat>,
                     z: seq<T>, c: nat, L: nat, n: nat)
    requires m.Valid() && 0 < L <= n < |m.axes| && Odometer(m, d, bases, L) && Odometer(m, e, cases, n)
    requires c < m.Cells() && |z| == Span(m.axes, m.cellsize, 0)
    requires (forall i :: 0 <= i < L - 1 ==> d[i] == e[i]) && e[L - 1] == d[L - 1] + 1
    requires (forall i :: L <= i < n ==> e[i] == 0) && forall i :: 0 <= i < L ==> bases[i] == cases[i]
    ensures cases[n] + Span(m.axes, m.cellsize, n) <= |z|
    ensures var q := m.Nest(z, c, n, cases[n]);
            Rest(m, d, bases, z, c, L) == Rest(m, e, cases, q.0, q.1, n)
  {
    BasesInside(m, e, cases, n, n);
    BasesInside(m, e, cases, n, L);
    BasesInside(m, e, cases, n, L - 1);
    var p := m.Nest(z, c, L, cases[L]);
    var r := m.Loop(p.0, p.1, L - 1, bases[L - 1], e[L - 1] + 1);
    assert m.Loop(z, c, L - 1, bases[L - 1], e[L - 1]) == r;
    RestSame(m, d, bases, e, cases, r.0, r.1, L - 1);
    assert Rest(m, d, bases, z, c, L) == Rest(m, e, cases, p.0, p.1, L);
    Descend(m, e, cases, z, c, L, n);
  }

  /** The combinations left for the wheels above axis L. */
  ghost function Left<T>(m: Amend<T>, d: seq<nat>, L: nat): nat
    requires Digits(m, d, L)
  {
    if L == 0 then 0
    else
      var ahead := m.axes[L - 1].Max() - 1 - d[L - 1];
      TimesMonotone(0, ahead, Combos(m.axes, L));
      Left(m, d, L - 1) + ahead * Combos(m.axes, L)
  }

  lemma {:induction false} LeftSame<T>(m: Amend<T>, d: seq<nat>, e: seq<nat>, L: nat)
    requires Digits(m, d, L) && Digits(m, e, L) && forall i :: 0 <= i < L ==> d[i] == e[i]
    ensures Left(m, d, L) == Left(m, e, L)
  {
    if L > 0 {
      LeftSame(m, d, e, L - 1);
    }
  }

  lemma {:induction false} LeftOfZeros<T>(m: Amend<T>, d: seq<nat>, L: nat, n: nat)
    requires m.Valid() && L <= n && Digits(m, d, n) && forall i :: L <= i < n ==> d[i] == 0
    ensures Left(m, d, n) + Combos(m.axes, n) == Left(m, d, L) + Combos(m.axes, L)
  {
    if L < n {
      LeftOfZeros(m, d, L, n - 1);
      OneMoreTimes(m.axes[n - 1].Max() - 1, Combos(m.axes, n));
    }
  }

  /** Turning a wheel, with the wheels below it back at their first index, makes progress. */
  lemma TurnLeavesLess<T>(m: Amend<T>, d: seq<nat>, e: seq<nat>, L: nat, n: nat)
    requires m.Valid() && 0 < L <= n && Digits(m, d, n) && Digits(m, e, n)
    requires (forall i :: 0 <= i < L - 1 ==> d[i] == e[i]) && e[L - 1] == d[L - 1] + 1
    requires forall i :: L <= i < n ==> e[i] == 0
    ensures Left(m, e, n) < Left(m, d, n)
  {
    LeftOfZeros(m, e, L, n);
    LeftSame(m, d, e, L - 1);
    OneMoreTimes(m.axes[L - 1].Max() - 1 - e[L - 1], Combos(m.axes, L));
    LeftMonotone(m, d, L, n);
    m.CombosPositive(n);
  }

  lemma {:induction false} LeftMonotone<T>(m: Amend<T>, d: seq<nat>, L: nat, n: nat)
    requires L <= n && Digits(m, d, n)
    ensures Left(m, d, L) <= Left(m, d, n)
  {
    if L < n {
      LeftMonotone(m, d, L, n - 1);
      TimesMonotone(0, m.axes[n - 1].Max() - 1 - d[n - 1], Combos(m.axes, n));
    }
  }

  lemma RestOfLast<T>(m: Amend<T>, d: seq<nat>, bases: seq<nat>, z: seq<T>, c: nat, L: nat)
    requires m.Valid() && 0 < L && Odometer(m, d, bases, L) && d[L - 1] + 1 == m.axes[L - 1].Max()
    requires c < m.Cells() && |z| == Span(m.axes, m.cellsize, 0)
    ensures Rest(m, d, bases, z, c, L) == Rest(m, d, bases, z, c, L - 1)
  {
    BasesInside(m, d, bases, L, L - 1);
  }

  /** The wheels below rinc have gone back to their first index; d is where they all stood. */
  ghost predicate Turning<T>(m: Amend<T>, d: seq<nat>, bases: seq<nat>, z: seq<T>, c: nat,
                             rinc: int, now: seq<nat>, av: int) {
    var n := |m.axes| - 2;
    && m.Valid() && -1 <= rinc < n && n < |d| == |now| && Odometer(m, d, bases, n)
    && c < m.Cells() && |z| == Span(m.axes, m.cellsize, 0)
    && (forall i :: 0 <= i < |d| ==> now[i] == if rinc < i < n then 0 else d[i])
    && AtEnd(m, d, rinc + 1, av, c)
    && Rest(m, d, bases, z, c, n) == Rest(m, d, bases, z, c, rinc + 1)
  }

  /** Wheel rinc has taken its next index. */
  ghost predicate Turned<T>(m: Amend<T>, d: seq<nat>, bases: seq<nat>, z: seq<T>, c: nat,
                            rinc: int, now: seq<nat>, av: int) {
    var n := |m.axes| - 2;
    && m.Valid() && 0 <= rinc < n && n < |d| == |now| && Odometer(m, d, bases, n) && Digits(m, now, n)
    && c < m.Cells() && |z| == Span(m.axes, m.cellsize, 0)
    && now[rinc] == d[rinc] + 1
    && (forall i :: 0 <= i < |d| && i != rinc ==> now[i] == if rinc < i < n then 0 else d[i])
    && AtStart(m, now, rinc + 1, av, c)
    && Rest(m, d, bases, z, c, n) == Rest(m, d, bases, z, c, rinc + 1)
  }

  lemma WheelBack<T>(m: Amend<T>, d: seq<nat>, bases: seq<nat>, z: seq<T>, c: nat, rinc: int, now: seq<nat>, av: int)
    requires Turning(m, d, bases, z, c, rinc, now, av) && rinc >= 0 && d[rinc] + 1 == m.axes[rinc].Max()
    ensures Turning(m, d, bases, z, c, rinc - 1, now[rinc := 0], av + Reset(m, rinc + 1))
  {
    RollOver(m, d, rinc + 1, av, c);
    RestOfLast(m, d, bases, z, c, rinc + 1);
  }

  lemma WheelOn<T>(m: Amend<T>, d: seq<nat>, bases: seq<nat>, z: seq<T>, c: nat, rinc: int, now: seq<nat>, av: int)
    requires Turning(m, d, bases, z, c, rinc, now, av) && rinc >= 0 && d[rinc] + 1 != m.axes[rinc].Max()
    ensures Turned(m, d, bases, z, c, rinc, now[rinc := d[rinc] + 1], av + Reset(m, rinc + 1))
  {
    StepOn(m, d, rinc + 1, av, c);
    var e := now[rinc := d[rinc] + 1];
    assert d[rinc := d[rinc] + 1][..rinc + 1] == e[..rinc + 1];
    DoneSame(m, e, d[rinc := d[rinc] + 1], rinc + 1);
    forall i | 0 <= i < |m.axes| - 2
      ensures e[i] < m.axes[i].Max()
    {
    }
  }

  /** Step the wheels: every wheel at its last index goes back to its first and resets the cursor
      of the axis below it, and the first one that is not takes its next index. */
  method Carry<T>(m: Amend<T>, scan: array<nat>, resetadder: seq<int>, av: int,
                  ghost bases: seq<nat>, ghost z: seq<T>, ghost c: nat)
    returns (rinc: int, av': int)
    requires Turning(m, scan[..], bases, z, c, |m.axes| - 3, scan[..], av)
    requires |resetadder| == |m.axes| && forall i :: 0 < i < |m.axes| ==> resetadder[i] == Reset(m, i)
    modifies scan
    ensures if rinc < 0 then Turning(m, old(scan[..]), bases, z, c, -1, scan[..], av')
            else Turned(m, old(scan[..]), bases, z, c, rinc, scan[..], av')
  {
    ghost var d := scan[..];
    rinc, av' := |m.axes| - 3, av;
    while rinc >= 0
      invariant -1 <= rinc && Turning(m, d, bases, z, c, rinc, scan[..], av')
    {
      ghost var now, from := scan[..], av';
      av' := av' + resetadder[rinc + 1];
      scan[rinc] := scan[rinc] + 1;
      if scan[rinc] != m.axes[rinc].Max() {
        WheelOn(m, d, bases, z, c, rinc, now, from);
        return;
      }
      WheelBack(m, d, bases, z, c, rinc, now, from);
      scan[rinc] := 0;
      assert scan[..] == now[rinc := 0];
      rinc := rinc - 1;
    }
  }

  /** The next base below wheel n. */
  lemma NextBase<T>(m: Amend<T>, d: seq<nat>, bases: seq<nat>, n: nat, base: nat)
    requires m.Valid() && n + 1 < |bases| && n < |m.axes| && n < |d| && d[n] < m.axes[n].Max()
    requires Odometer(m, d, bases, n) && base == m.Base(n, bases[n], d[n])
    ensures Odometer(m, d, bases[n + 1 := base], n + 1)
  {
  }

  lemma BaseIs<T>(m: Amend<T>, size: seq<nat>, n: nat, base: nat, j: nat)
    requires m.Valid() && n < |size| == |m.axes| && j < m.axes[n].Max()
    requires size[n] == Stride(m.axes, m.cellsize, n)
    ensures base + m.axes[n].Index(j) * size[n] == m.Base(n, base, j)
  {
  }

  lemma WheelInside<T>(m: Amend<T>, d: seq<nat>, i: nat)
    requires m.Valid() && |m.axes| > 1 && |d| == |m.axes| && Digits(m, d, |m.axes| - 2) && d[|m.axes| - 2] == 0
    requires i <= |m.axes| - 2
    ensures d[i] < m.axes[i].Max()
  {
  }

  /** Recompute the bases below the wheel that moved, down to the base of the last axis. */
  method Rebase<T>(m: Amend<T>, scan: array<nat>, bases: array<nat>, size: seq<nat>, start: nat) returns (base: nat)
    requires m.Valid() && |m.axes| > 1 && scan.Length == |m.axes| == bases.Length == |size| && scan != bases
    requires forall i :: 0 <= i < |size| ==> size[i] == Stride(m.axes, m.cellsize, i)
    requires start <= |m.axes| - 2 && Digits(m, scan[..], |m.axes| - 2) && scan[|m.axes| - 2] == 0
    requires Odometer(m, scan[..], bases[..], start)
    modifies bases
    ensures Odometer(m, scan[..], bases[..], |m.axes| - 2)
    ensures forall i :: 0 <= i <= start ==> bases[i] == old(bases[i])
    ensures base == m.Base(|m.axes| - 2, bases[|m.axes| - 2], 0)
  {
    hide *;
    ghost var d := scan[..];
    var rinc := start;
    base := bases[rinc];
    while true
      invariant start <= rinc <= |m.axes| - 2 && base == bases[rinc]
      invariant Odometer(m, d, bases[..], rinc)
      invariant forall i :: 0 <= i <= start ==> bases[i] == old(bases[i])
      decreases |m.axes| - rinc
    {
      WheelInside(m, d, rinc);
      BaseIs(m, size, rinc, base, scan[rinc]);
      base := base + m.axes[rinc].Index(scan[rinc]) * size[rinc];
      if rinc + 1 == |m.axes| - 1 { break; }
      ghost var b := bases[..];
      NextBase(m, d, b, rinc, base);
      rinc := rinc + 1;
      bases[rinc] := base;
      assert bases[..] == b[rinc := base];
    }
  }

  /** The wheels, bases and cursor agree, and what is left to store leads to the goal. */
  ghost predicate Running<T>(m: Amend<T>, d: seq<nat>, bases: seq<nat>, z: seq<T>, c: nat, base: nat, av: int,
                             goal: (seq<T>, nat)) {
    var n := |m.axes| - 2;
    && m.Valid() && 0 <= n && |d| == |bases| == |m.axes| && Odometer(m, d, bases, n) && d[n] == 0
    && c < m.Cells() && |z| == Span(m.axes, m.cellsize, 0)
    && bases[n] + Span(m.axes, m.cellsize, n) <= |z|
    && base == m.Base(n, bases[n], 0)
    && AtStart(m, d, n, av, c)
    && var q := m.Nest(z, c, n, bases[n]); Rest(m, d, bases, q.0, q.1, n) == goal
  }

  lemma BlockDone<T>(m: Amend<T>, d: seq<nat>, bases: seq<nat>, z: seq<T>, c: nat, base: nat, av: int,
                     goal: (seq<T>, nat), z': seq<T>, c': nat, av': int)
    requires Running(m, d, bases, z, c, base, av, goal)
    requires c' < m.Cells() && |z'| == |z| && (z', c') == m.Loop(z, c, |m.axes| - 2, bases[|m.axes| - 2], 0) && AtEnd(m, d, |m.axes| - 2, av', c')
    ensures Turning(m, d, bases, z', c', |m.axes| - 3, d, av')
    ensures Rest(m, d, bases, z', c', |m.axes| - 2) == goal && |d| == |m.axes| && d[|m.axes| - 2] == 0
  {
  }

  lemma BlockNext<T>(m: Amend<T>, d: seq<nat>, bases: seq<nat>, z: seq<T>, c: nat, rinc: int,
                     e: seq<nat>, cases: seq<nat>, base: nat, av: int, goal: (seq<T>, nat))
    requires Turned(m, d, bases, z, c, rinc, e, av) && |d| == |bases| == |cases| == |m.axes| && d[|m.axes| - 2] == 0
    requires Odometer(m, e, cases, |m.axes| - 2) && forall i :: 0 <= i <= rinc ==> bases[i] == cases[i]
    requires base == m.Base(|m.axes| - 2, cases[|m.axes| - 2], 0)
    requires goal == Rest(m, d, bases, z, c, |m.axes| - 2)
    ensures Running(m, e, cases, z, c, base, av, goal)
    ensures Left(m, e, |m.axes| - 2) < Left(m, d, |m.axes| - 2)
  {
    var n := |m.axes| - 2;
    BasesInside(m, e, cases, n, n);
    TurnWheel(m, d, bases, e, cases, z, c, rinc + 1, n);
    TurnLeavesLess(m, d, e, rinc + 1, n);
    DoneOfZeros(m, e, rinc + 1, n);
  }

  lemma RunningFacts<T>(m: Amend<T>, d: seq<nat>, bases: seq<nat>, z: seq<T>, c: nat, base: nat, av: int,
                        goal: (seq<T>, nat))
    requires Running(m, d, bases, z, c, base, av, goal)
    ensures var n := |m.axes| - 2;
            && m.Valid() && 0 <= n && |d| == |bases| == |m.axes| && Digits(m, d, n)
            && AtStart(m, d, n, av, c) && c < m.Cells()
            && bases[n] + Span(m.axes, m.cellsize, n) <= |z| == Span(m.axes, m.cellsize, 0)
            && base == m.Base(n, bases[n], 0)
  {
  }

  lemma TurnedFacts<T>(m: Amend<T>, d: seq<nat>, bases: seq<nat>, z: seq<T>, c: nat, rinc: int, e: seq<nat>, av: int)
    requires Turned(m, d, bases, z, c, rinc, e, av) && |d| == |m.axes| && d[|m.axes| - 2] == 0
    ensures 0 <= rinc <= |m.axes| - 2 && Digits(m, e, |m.axes| - 2) && |e| == |m.axes| && e[|m.axes| - 2] == 0
    ensures Odometer(m, e, bases, rinc)
  {
  }

  lemma Finished<T>(m: Amend<T>, d: seq<nat>, bases: seq<nat>, z: seq<T>, c: nat, now: seq<nat>, av: int)
    requires Turning(m, d, bases, z, c, -1, now, av)
    ensures Rest(m, d, bases, z, c, |m.axes| - 2) == (z, c)
  {
  }

  lemma ResultIs<T>(m: Amend<T>, w: seq<T>)
    requires m.Valid() && |w| == Span(m.axes, m.cellsize, 0)
    ensures m.Cells() > 0 && m.Result(w) == m.Nest(w, 0, 0, 0).0
  {
    m.CombosPositive(m.wrap);
  }

  /** The scatter, once the axes have been set up. */
  method Run<T>(m: Amend<T>, z: array<T>, scan: array<nat>, bases: array<nat>, size: seq<nat>, resetadder: seq<int>,
                start: nat)
    requires |m.axes| == scan.Length == bases.Length == |size| == |resetadder| && scan != bases
    requires z as object != scan && z as object != bases
    requires m.Valid() && m.Cells() > 0 && z.Length == Span(m.axes, m.cellsize, 0)
    requires Running(m, scan[..], bases[..], z[..], 0, start, 0, m.Nest(z[..], 0, 0, 0))
    requires forall i :: 0 <= i < |m.axes| ==> size[i] == Stride(m.axes, m.cellsize, i)
    requires forall i :: 0 < i < |m.axes| ==> resetadder[i] == Reset(m, i)
    modifies z, scan, bases
    ensures z[..] == m.Result(old(z[..]))
  {
    hide *;
    ResultIs(m, z[..]);
    ghost var goal := m.Nest(z[..], 0, 0, 0);
    RunningFacts(m, scan[..], bases[..], z[..], 0, start, 0, goal);
    ghost var c: nat := 0;
    var r, base, av, rinc := |m.axes|, start, 0, 0;
    while true
      invariant 2 <= |m.axes| && Digits(m, scan[..], |m.axes| - 2)
      invariant Running(m, scan[..], bases[..], z[..], c, base, av, goal)
      decreases Left(m, scan[..], |m.axes| - 2)
    {
      ghost var d, cases, z0, c0, av0 := scan[..], bases[..], z[..], c, av;
      RunningFacts(m, d, cases, z0, c, base, av, goal);
      av, c := CopyBlock(m, z, bases[r - 2], base, size[r - 2], av, resetadder[r - 1], d, c);
      BlockDone(m, d, cases, z0, c0, base, av0, goal, z[..], c, av);
      rinc, av := Carry(m, scan, resetadder, av, cases, z[..], c);
      if rinc < 0 {
        Finished(m, d, cases, z[..], c, scan[..], av);
        break;
      }
      TurnedFacts(m, d, cases, z[..], c, rinc, scan[..], av);
      base := Rebase(m, scan, bases, size, rinc);
      BlockNext(m, d, cases, z[..], c, rinc, scan[..], bases[..], base, av, goal);
    }
  }
}
