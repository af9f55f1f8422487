/** What x m} y is, from the selectors, the lengths of the axes and the atoms of x alone. */
module AmendMeaning {
  import opened Wrappers
  import opened Arith
  import opened AmendSpec
  import opened AmendOdometer
  import opened AmendLaws

  // ---- Combinations of indexes.

  /** How many indexes a selector has; an axis that is taken in full has one for each item. */
  function Choices(x: Axis): nat {
    if x.indexes.Some? then |x.indexes.value| else x.len
  }

  /** The number of combinations of the axes from i on. */
  function Ways(axes: seq<Axis>, i: nat): nat
    requires i <= |axes|
    decreases |axes| - i
  {
    if i == |axes| then 1 else Choices(axes[i]) * Ways(axes, i + 1)
  }

  /** The number of cells of y under the axes from i on. */
  function CellsUnder(axes: seq<Axis>, i: nat): nat
    requires i <= |axes|
    decreases |axes| - i
  {
    if i == |axes| then 1 else axes[i].len * CellsUnder(axes, i + 1)
  }

  ghost predicate Combination(axes: seq<Axis>, d: seq<nat>) {
    |d| == |axes| && forall i :: 0 <= i < |d| ==> d[i] < Choices(axes[i])
  }

  /** The place of a combination in row-major order. */
  function PlaceFrom(axes: seq<Axis>, d: seq<nat>, i: nat): nat
    requires Combination(axes, d) && i <= |d|
    decreases |d| - i
  {
    if i == |d| then 0 else d[i] * Ways(axes, i + 1) + PlaceFrom(axes, d, i + 1)
  }

  /** The cell of y that a combination selects: entry d[i] of the selector of each axis i, or item d[i]. */
  function CellFrom(axes: seq<Axis>, d: seq<nat>, i: nat): nat
    requires Combination(axes, d) && i <= |d|
    decreases |d| - i
  {
    if i == |d| then 0
    else
      var index := if axes[i].indexes.Some? then axes[i].indexes.value[d[i]] else d[i];
      index * CellsUnder(axes, i + 1) + CellFrom(axes, d, i + 1)
  }

  /** Atom p of y is in the cell that a combination selects. */
  ghost predicate Selects(axes: seq<Axis>, cellsize: nat, d: seq<nat>, p: nat) {
    Combination(axes, d) && CellFrom(axes, d, 0) * cellsize <= p < CellFrom(axes, d, 0) * cellsize + cellsize
  }

  /** d is the last combination that selects atom p. */
  ghost predicate SelectsLast(axes: seq<Axis>, cellsize: nat, d: seq<nat>, p: nat) {
    && Selects(axes, cellsize, d, p)
    && forall e :: Selects(axes, cellsize, e, p) ==> PlaceFrom(axes, e, 0) <= PlaceFrom(axes, d, 0)
  }

  /** Atom q of the cell of x that the combination at place k takes: the cells of x over and over, or, if x is
      smaller than a cell, its atoms. */
  function AtomFor<T>(a: seq<T>, cellsize: nat, k: nat, q: nat): T
    requires 0 < |a| && 0 < cellsize && q < cellsize && (|a| >= cellsize ==> |a| % cellsize == 0)
  {
    if |a| >= cellsize then
      AtomInside(|a|, cellsize, k, q);
      a[k % (|a| / cellsize) * cellsize + q]
    else a[q % |a|]
  }

  lemma AtomInside(n: nat, cellsize: nat, k: nat, q: nat)
    requires 0 < cellsize <= n && n % cellsize == 0 && q < cellsize
    ensures 0 < n / cellsize && 0 <= k % (n / cellsize) * cellsize + q < n
  {
    Division(n, cellsize);
    var x := n / cellsize;
    Division(k, x);
    RoomForOne(k % x, x, cellsize);
  }

  /** x m} y: every atom of y that is selected has its atom for the last combination, every other atom is kept. */
  ghost predicate Amends<T>(axes: seq<Axis>, cellsize: nat, a: seq<T>, w: seq<T>, z: seq<T>) {
    && 0 < |a| && 0 < cellsize && (|a| >= cellsize ==> |a| % cellsize == 0) && |z| == |w|
    && (forall p: nat, d :: p < |w| && SelectsLast(axes, cellsize, d, p) ==>
          z[p] == AtomFor(a, cellsize, PlaceFrom(axes, d, 0), p - CellFrom(axes, d, 0) * cellsize))
    && forall p: nat :: p < |w| && (forall d :: !Selects(axes, cellsize, d, p)) ==> z[p] == w[p]
  }

  // ---- That the nested loops do this.

  lemma {:induction false} WaysAre(axes: seq<Axis>, i: nat)
    requires i <= |axes|
    ensures Ways(axes, i) == Combos(axes, i)
    decreases |axes| - i
  {
    if i < |axes| {
      WaysAre(axes, i + 1);
    }
  }

  lemma {:induction false} CellsAre(axes: seq<Axis>, cellsize: nat, i: nat)
    requires i < |axes|
    ensures Stride(axes, cellsize, i) == CellsUnder(axes, i + 1) * cellsize
    decreases |axes| - i
  {
    if i < |axes| - 1 {
      CellsAre(axes, cellsize, i + 1);
      Turned(CellsUnder(axes, i + 2), cellsize, axes[i + 1].len);
    }
  }

  lemma Turned(x: nat, y: nat, z: nat)
    ensures x * y * z == z * x * y
  {
    TimesAssociative(z, x, y);
  }

  lemma SpanIs(axes: seq<Axis>, cellsize: nat)
    ensures Span(axes, cellsize, 0) == CellsUnder(axes, 0) * cellsize
  {
    if |axes| > 0 {
      CellsAre(axes, cellsize, 0);
      Turned(CellsUnder(axes, 1), cellsize, axes[0].len);
    }
  }

  lemma CombinationIs<T>(m: Amend<T>, d: seq<nat>)
    ensures Combination(m.axes, d) <==> |d| == |m.axes| && Digits(m, d, |d|)
  {
  }

  lemma {:induction false} PlaceIs<T>(m: Amend<T>, d: seq<nat>, i: nat)
    requires Combination(m.axes, d) && i <= |d|
    ensures PlaceFrom(m.axes, d, i) == Rank(m, d, i)
    decreases |d| - i
  {
    if i < |d| {
      PlaceIs(m, d, i + 1);
      WaysAre(m.axes, i + 1);
    }
  }

  lemma {:induction false} CellIs<T>(m: Amend<T>, d: seq<nat>, i: nat)
    requires Combination(m.axes, d) && i <= |d|
    ensures |d| == |m.axes| && Digits(m, d, |d|) && Address(m, d, i) == CellFrom(m.axes, d, i) * m.cellsize
    decreases |d| - i
  {
    CombinationIs(m, d);
    if i < |d| {
      CellIs(m, d, i + 1);
      CellsAre(m.axes, m.cellsize, i);
      CellStep(m.axes[i].Index(d[i]), CellsUnder(m.axes, i + 1), CellFrom(m.axes, d, i + 1), m.cellsize);
    }
  }

  lemma CellStep(x: nat, n: nat, c: nat, s: nat)
    ensures x * (n * s) + c * s == (x * n + c) * s
  {
    TimesAssociative(x, n, s);
  }

  /** The store at the place of a combination goes to its cell. */
  lemma OffsetIs<T>(m: Amend<T>, d: seq<nat>)
    requires Combination(m.axes, d)
    ensures PlaceFrom(m.axes, d, 0) < |Offsets(m, 0)|
    ensures Offsets(m, 0)[PlaceFrom(m.axes, d, 0)] == CellFrom(m.axes, d, 0) * m.cellsize
  {
    hide *;
    CombinationIs(m, d);
    CellIs(m, d, 0);
    PlaceIs(m, d, 0);
    CombinationStored(m, d, 0);
  }

  /** Every store is that of a combination. */
  lemma CombinationAt<T>(m: Amend<T>, k: nat) returns (d: seq<nat>)
    requires m.Valid() && k < |Offsets(m, 0)|
    ensures Combination(m.axes, d) && PlaceFrom(m.axes, d, 0) == k
    ensures Offsets(m, 0)[k] == CellFrom(m.axes, d, 0) * m.cellsize
  {
    hide *;
    OffsetsLength(m, 0);
    NoDigits(m);
    d := PlaceHasCombination(m, 0, k, []);
    CombinationIs(m, d);
    PlaceIs(m, d, 0);
    OffsetIs(m, d);
  }

  lemma NoDigits<T>(m: Amend<T>)
    ensures Digits(m, [], 0)
  {
  }

  lemma CoversSelected<T>(m: Amend<T>, d: seq<nat>, p: nat)
    requires Combination(m.axes, d)
    ensures Selects(m.axes, m.cellsize, d, p) <==> Covers(m, CellFrom(m.axes, d, 0) * m.cellsize, p)
  {
    hide Combination, CellFrom;
  }

  lemma ValidParts<T>(m: Amend<T>)
    requires m.Valid()
    ensures m.wrap <= |m.axes| && m.a != [] && m.cellsize > 0
    ensures |m.a| >= m.cellsize ==> |m.a| == m.Cells() * m.cellsize
  {
  }

  /** What a store takes from x, by the atoms of x. */
  lemma AtomForIs<T>(m: Amend<T>, k: nat, q: nat)
    requires m.Valid() && q < m.cellsize
    ensures m.wrap <= |m.axes| && 0 < m.Cells() && k % m.Cells() < m.Cells()
    ensures |m.a| >= m.cellsize ==> |m.a| % m.cellsize == 0
    ensures m.Cell(k % m.Cells())[q] == AtomFor(m.a, m.cellsize, k, q)
  {
    m.CombosPositive(m.wrap);
    NextIsModulo(m, k);
    if |m.a| >= m.cellsize {
      ModuloIs(|m.a|, m.cellsize, m.Cells(), 0);
      AtomInside(|m.a|, m.cellsize, k, q);
      m.CellInside(k % m.Cells());
    }
    hide Combos;
  }

  lemma LastCoversIf<T>(m: Amend<T>, k: nat, p: nat)
    requires k < |Offsets(m, 0)| && Covers(m, Offsets(m, 0)[k], p)
    requires forall l: nat :: k < l < |Offsets(m, 0)| ==> !Covers(m, Offsets(m, 0)[l], p)
    ensures LastCovers(m, k, p)
  {
  }

  /** An atom has what its last combination takes. */
  lemma SelectedAtom<T>(m: Amend<T>, w: seq<T>, d: seq<nat>, p: nat)
    requires m.Valid() && |w| == Span(m.axes, m.cellsize, 0) && p < |w| && SelectsLast(m.axes, m.cellsize, d, p)
    ensures Combination(m.axes, d) && 0 < m.cellsize && 0 < |m.a| && (|m.a| >= m.cellsize ==> |m.a| % m.cellsize == 0)
    ensures 0 <= p - CellFrom(m.axes, d, 0) * m.cellsize < m.cellsize
    ensures m.Result(w)[p] == AtomFor(m.a, m.cellsize, PlaceFrom(m.axes, d, 0), p - CellFrom(m.axes, d, 0) * m.cellsize)
  {
    hide *;
    SelectsLastIs(m.axes, m.cellsize, d, p);
    ValidParts(m);
    OffsetIs(m, d);
    CoversSelected(m, d, p);
    var k, s := PlaceFrom(m.axes, d, 0), CellFrom(m.axes, d, 0) * m.cellsize;
    forall l: nat | k < l < |Offsets(m, 0)| ensures !Covers(m, Offsets(m, 0)[l], p) {
      var e := CombinationAt(m, l);
      CoversSelected(m, e, p);
    }
    LastCoversIf(m, k, p);
    AtomStored(m, w, p, k);
    AtomForIs(m, k, p - s);
  }

  lemma SelectsLastIs(axes: seq<Axis>, cellsize: nat, d: seq<nat>, p: nat)
    requires SelectsLast(axes, cellsize, d, p)
    ensures Selects(axes, cellsize, d, p) && Combination(axes, d)
    ensures 0 <= p - CellFrom(axes, d, 0) * cellsize < cellsize
    ensures forall e :: Selects(axes, cellsize, e, p) ==>
                          Combination(axes, e) && PlaceFrom(axes, e, 0) <= PlaceFrom(axes, d, 0)
  {
  }

  /** An atom that no combination selects is kept. */
  lemma UnselectedAtom<T>(m: Amend<T>, w: seq<T>, p: nat)
    requires m.Valid() && |w| == Span(m.axes, m.cellsize, 0) && p < |w|
    requires forall d :: !Selects(m.axes, m.cellsize, d, p)
    ensures m.Result(w)[p] == w[p]
  {
    hide *;
    forall k | 0 <= k < |Offsets(m, 0)| ensures !Covers(m, Offsets(m, 0)[k], p) {
      var d := CombinationAt(m, k);
      CoversSelected(m, d, p);
    }
    AtomKept(m, w, p);
  }

  /** The nested loops amend. */
  lemma ResultAmends<T>(m: Amend<T>, w: seq<T>)
    requires m.Valid() && |w| == CellsUnder(m.axes, 0) * m.cellsize
    ensures |w| == Span(m.axes, m.cellsize, 0) && Amends(m.axes, m.cellsize, m.a, w, m.Result(w))
  {
    hide *;
    SpanIs(m.axes, m.cellsize);
    ValidParts(m);
    AtomForIs(m, 0, 0);
    var z := m.Result(w);
    forall p: nat, d | p < |w| && SelectsLast(m.axes, m.cellsize, d, p)
      ensures Combination(m.axes, d) && 0 <= p - CellFrom(m.axes, d, 0) * m.cellsize < m.cellsize
      ensures z[p] == AtomFor(m.a, m.cellsize, PlaceFrom(m.axes, d, 0), p - CellFrom(m.axes, d, 0) * m.cellsize)
    {
      SelectsLastIs(m.axes, m.cellsize, d, p);
      SelectedAtom(m, w, d, p);
    }
    forall p: nat | p < |w| && (forall d :: !Selects(m.axes, m.cellsize, d, p)) ensures z[p] == w[p] {
      UnselectedAtom(m, w, p);
    }
    AmendsIf(m.axes, m.cellsize, m.a, w, z);
  }

  lemma AmendsIf<T>(axes: seq<Axis>, cellsize: nat, a: seq<T>, w: seq<T>, z: seq<T>)
    requires 0 < |a| && 0 < cellsize && (|a| >= cellsize ==> |a| % cellsize == 0) && |z| == |w|
    requires forall p: nat, d | p < |w| && SelectsLast(axes, cellsize, d, p) ::
               && Combination(axes, d) && 0 <= p - CellFrom(axes, d, 0) * cellsize < cellsize
               && z[p] == AtomFor(a, cellsize, PlaceFrom(axes, d, 0), p - CellFrom(axes, d, 0) * cellsize)
    requires forall p: nat :: p < |w| && (forall d :: !Selects(axes, cellsize, d, p)) ==> z[p] == w[p]
    ensures Amends(axes, cellsize, a, w, z)
  {
    hide AtomFor, SelectsLast, Selects, PlaceFrom, CellFrom;
  }

  /** Two rows of three atoms: indexes 0 and 2 of every row take 10 and 20. */
  lemma TwoRows(z: seq<int>)
    requires Amends([Axis(2, [2], None), Axis(3, [2], Some([0, 2]))], 1, [10, 20], [0, 0, 0, 0, 0, 0], z)
    ensures z == [10, 0, 20, 10, 0, 20]
  {
    var axes, a, w := TwoAxes(), [10, 20], [0, 0, 0, 0, 0, 0];
    hide *;
    TwoAxesAre();
    Reach(0, 0, a, w, z);
    Reach(0, 1, a, w, z);
    Reach(1, 0, a, w, z);
    Reach(1, 1, a, w, z);
    NotReached(a, w, z);
  }

  function TwoAxes(): seq<Axis> {
    [Axis(2, [2], None), Axis(3, [2], Some([0, 2]))]
  }

  lemma TwoAxesAre()
    ensures TwoAxes() == [Axis(2, [2], None), Axis(3, [2], Some([0, 2]))]
  {
  }

  lemma TwoPlaces(d: seq<nat>)
    ensures Combination(TwoAxes(), d) <==> |d| == 2 && d[0] < 2 && d[1] < 2
    ensures Combination(TwoAxes(), d) ==> PlaceFrom(TwoAxes(), d, 0) == 2 * d[0] + d[1]
    ensures Combination(TwoAxes(), d) ==> CellFrom(TwoAxes(), d, 0) == 3 * d[0] + 2 * d[1]
  {
    var axes := TwoAxes();
    assert Ways(axes, 2) == 1 && Ways(axes, 1) == 2;
    assert CellsUnder(axes, 2) == 1 && CellsUnder(axes, 1) == 3;
    if Combination(axes, d) {
      assert PlaceFrom(axes, d, 2) == 0 && PlaceFrom(axes, d, 1) == d[1];
      assert CellFrom(axes, d, 2) == 0 && CellFrom(axes, d, 1) == 2 * d[1];
    }
  }

  lemma Reach(r: nat, j: nat, a: seq<int>, w: seq<int>, z: seq<int>)
    requires r < 2 && j < 2 && |a| == 2 && |w| == 6 && Amends(TwoAxes(), 1, a, w, z)
    ensures |z| == 6 && z[3 * r + 2 * j] == a[j]
  {
    hide CellFrom, PlaceFrom, Combination, TwoAxes;
    var d: seq<nat>, p := [r, j], 3 * r + 2 * j;
    TwoPlaces(d);
    forall e | Selects(TwoAxes(), 1, e, p) ensures e == d {
      TwoPlaces(e);
    }
    assert SelectsLast(TwoAxes(), 1, d, p);
  }

  lemma NotReached(a: seq<int>, w: seq<int>, z: seq<int>)
    requires |w| == 6 && Amends(TwoAxes(), 1, a, w, z)
    ensures |z| == 6 && z[1] == w[1] && z[4] == w[4]
  {
    hide CellFrom, PlaceFrom, Combination, TwoAxes;
    forall d ensures !Selects(TwoAxes(), 1, d, 1) && !Selects(TwoAxes(), 1, d, 4) {
      TwoPlaces(d);
    }
  }
}
