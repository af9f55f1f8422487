/** x m} y over orthogonal axes, by definition: nested loops over the selectors of the axes,
    storing the cells of x one after the other, the last store into a cell winning. */
module AmendSpec {
  import opened Wrappers
  import opened Arith

  /** One axis of y: its length, and its selector, None when the axis is taken in full.
      A selector has any shape; its values are kept in ravel order. */
  datatype Axis = Axis(len: nat, shape: seq<nat>, indexes: Option<seq<nat>>) {
    ghost predicate Valid() {
      match indexes
      case None => shape == [len]
      case Some(ix) => |ix| == Product(shape) && forall j :: 0 <= j < |ix| ==> ix[j] < len
    }

    /** The number of cells the axis selects. */
    function Max(): nat {
      match indexes case None => len case Some(ix) => |ix|
    }

    /** The j-th index the axis selects. */
    function Index(j: nat): nat
      requires j < Max()
    {
      match indexes case None => j case Some(ix) => ix[j]
    }
  }

  function Product(s: seq<nat>): nat {
    if s == [] then 1 else Product(s[..|s| - 1]) * s[|s| - 1]
  }

  /** The number of index combinations of the axes from i on. */
  function Combos(axes: seq<Axis>, i: nat): nat
    requires i <= |axes|
    decreases |axes| - i
  {
    if i == |axes| then 1 else axes[i].Max() * Combos(axes, i + 1)
  }

  /** The atoms of y in a cell under axes 0 to i. */
  function Stride(axes: seq<Axis>, cellsize: nat, i: nat): nat
    requires i < |axes|
    decreases |axes| - i
  {
    if i == |axes| - 1 then cellsize else Stride(axes, cellsize, i + 1) * axes[i + 1].len
  }

  /** The atoms of y under axes i and on. */
  function Span(axes: seq<Axis>, cellsize: nat, i: nat): nat
    requires i <= |axes|
  {
    if i == |axes| then cellsize else Stride(axes, cellsize, i) * axes[i].len
  }

  /** Replace the atoms from p on by a cell. */
  function Store<T>(z: seq<T>, p: nat, cell: seq<T>): (r: seq<T>)
    requires p + |cell| <= |z|
    ensures |r| == |z|
    ensures forall q :: 0 <= q < |z| ==> r[q] == if p <= q < p + |cell| then cell[q - p] else z[q]
  {
    z[..p] + cell + z[p + |cell|..]
  }

  /** An amend: the axes of y, the atoms of x and the size of a cell of y.  The cells of x repeat
      after the combinations of the axes from `wrap` on; an x smaller than a cell repeats inside it. */
  datatype Amend<T> = Amend(axes: seq<Axis>, cellsize: nat, a: seq<T>, wrap: nat) {
    ghost predicate Valid() {
      && wrap <= |axes|
      && (forall i :: 0 <= i < |axes| ==> axes[i].Valid() && axes[i].Max() > 0)
      && cellsize > 0 && a != []
      && (if |a| >= cellsize then |a| == Combos(axes, wrap) * cellsize else wrap == |axes|)
    }

    /** The cells of x. */
    function Cells(): nat
      requires wrap <= |axes|
    {
      Combos(axes, wrap)
    }

    /** Cell c of x, as stored into a cell of y. */
    function Cell(c: nat): (r: seq<T>)
      requires Valid() && c < Cells()
      ensures |r| == cellsize
    {
      if |a| >= cellsize then
        CellInside(c);
        a[c * cellsize..c * cellsize + cellsize]
      else seq(cellsize, j requires 0 <= j < cellsize => a[j % |a|])
    }

    lemma CellInside(c: nat)
      requires Valid() && c < Cells() && |a| >= cellsize
      ensures c * cellsize + cellsize <= |a|
    {
      RoomForOne(c, Cells(), cellsize);
    }

    /** The cell of x after cell c. */
    function Next(c: nat): nat
      requires wrap <= |axes|
    {
      if c + 1 == Cells() then 0 else c + 1
    }

    lemma {:induction false} CombosPositive(i: nat)
      requires Valid() && i <= |axes|
      ensures Combos(axes, i) > 0
      decreases |axes| - i
    {
      if i < |axes| {
        CombosPositive(i + 1);
        TimesZero(axes[i].Max(), Combos(axes, i + 1));
      }
    }

    /** Index j of axis i leads to a cell inside the span of the axis. */
    lemma BaseInside(i: nat, base: nat, j: nat, total: nat)
      requires Valid() && i < |axes| && j < axes[i].Max()
      requires base + Span(axes, cellsize, i) <= total
      ensures base + axes[i].Index(j) * Stride(axes, cellsize, i) + Span(axes, cellsize, i + 1) <= total
    {
      assert axes[i].Valid();
      var s := Stride(axes, cellsize, i);
      RoomForOne(axes[i].Index(j), axes[i].len, s);
    }

    /** Where index j of axis i leads from a base. */
    function Base(i: nat, base: nat, j: nat): nat
      requires i < |axes| && j < axes[i].Max()
    {
      base + axes[i].Index(j) * Stride(axes, cellsize, i)
    }

    /** Store into every cell selected under axes i and on, starting with cell c of x. */
    function Nest(z: seq<T>, c: nat, i: nat, base: nat): (r: (seq<T>, nat))
      requires Valid() && i <= |axes| && c < Cells() && base + Span(axes, cellsize, i) <= |z|
      ensures |r.0| == |z| && r.1 < Cells()
      decreases |axes| - i, 0
    {
      if i == |axes| then
        CombosPositive(wrap);
        (Store(z, base, Cell(c)), Next(c))
      else Loop(z, c, i, base, 0)
    }

    /** The loop over the indexes of axis i, from index j on. */
    function Loop(z: seq<T>, c: nat, i: nat, base: nat, j: nat): (r: (seq<T>, nat))
      requires Valid() && i < |axes| && c < Cells() && j <= axes[i].Max() && base + Span(axes, cellsize, i) <= |z|
      ensures |r.0| == |z| && r.1 < Cells()
      decreases |axes| - i - 1, 1, axes[i].Max() - j
    {
      if j == axes[i].Max() then (z, c)
      else
        BaseInside(i, base, j, |z|);
        var n := Nest(z, c, i + 1, Base(i, base, j));
        Loop(n.0, n.1, i, base, j + 1)
    }

    /** x m} y. */
    function Result(w: seq<T>): (z: seq<T>)
      requires Valid() && |w| == Span(axes, cellsize, 0)
      ensures |z| == |w|
    {
      CombosPositive(wrap);
      Nest(w, 0, 0, 0).0
    }
  }
}
