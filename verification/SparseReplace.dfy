/** Amending a sparse array with a dense replacement of any shape. */
module SparseReplace {
  import opened Arith
  import opened CellOffset
  import opened Classes
  import opened SparseSpec
  import opened SparsePad
  import opened SparseCells
  import opened SparseRuns
  import opened SparseSeats
  import opened Transpose
  import opened SparseStandard
  import opened SparseAmend

  // ---- The dense amend.

  /** The place in the natural form of the atom for an index in the cell of index row t. */
  function NaturalPlace<T>(z: Sparse<T>, h: nat, ix: seq<nat>, t: nat): (k: nat)
    requires h <= |ix| == |z.shape|
  {
    TimesMonotone(0, t, Size(z.shape[h..]));
    t * Size(z.shape[h..]) + PlaceOf(ix[h..], z.shape[h..])
  }

  /** y denotes z with the cells of ind replaced by the cells of a in row-major order, a over and over: an index
      has the atom for the last index row that matches. */
  ghost predicate Amended<T>(z: Sparse<T>, h: nat, ind: seq<seq<nat>>, a: seq<T>, y: Sparse<T>) {
    && z.Valid() && y.Valid() && Alike(z, y) && h <= |z.shape|
    && forall ix :: z.IndexFits(ix) ==> AmendedAt(z, h, ind, a, y, ix)
  }

  ghost predicate AmendedAt<T>(z: Sparse<T>, h: nat, ind: seq<seq<nat>>, a: seq<T>, y: Sparse<T>, ix: seq<nat>)
    requires z.Valid() && y.Valid()
  {
    && z.IndexFits(ix) && y.IndexFits(ix) && |ix| == |z.shape| && h <= |ix|
    && var t := LastMatch(ind, ix[..h], |ind|);
       if t == 0 then y.At(ix) == z.At(ix)
       else |a| > 0 && y.At(ix) == a[NaturalPlace(z, h, ix, t - 1) % |a|]
  }

  lemma AmendedIs<T>(z: Sparse<T>, h: nat, ind: seq<seq<nat>>, a: seq<T>, y: Sparse<T>)
    ensures Amended(z, h, ind, a, y) <==>
            && z.Valid() && y.Valid() && Alike(z, y) && h <= |z.shape|
            && forall ix :: z.IndexFits(ix) ==> AmendedAt(z, h, ind, a, y, ix)
  {
  }

  lemma AmendedAtIs<T>(z: Sparse<T>, h: nat, ind: seq<seq<nat>>, a: seq<T>, y: Sparse<T>, ix: seq<nat>)
    requires z.Valid() && y.Valid() && z.IndexFits(ix) && y.IndexFits(ix) && |ix| == |z.shape| && h <= |ix|
    ensures AmendedAt(z, h, ind, a, y, ix) <==>
            var t := LastMatch(ind, ix[..h], |ind|);
            if t == 0 then y.At(ix) == z.At(ix)
            else |a| > 0 && y.At(ix) == a[NaturalPlace(z, h, ix, t - 1) % |a|]
  {
    hide LastMatch, NaturalPlace, Sparse.At, Sparse.Valid, Sparse.IndexFits;
  }

  // ---- The standard form of all axes is read at the natural place.

  /** The natural form in standard order. */
  function InOrder<T>(z: Sparse<T>, h: nat, frame: seq<nat>, a: seq<T>): (l: seq<T>)
    requires h <= |z.shape| && (Size(NaturalShape(z, h, frame)) > 0 ==> |a| > 0)
    ensures |l| == Size(NaturalShape(z, h, frame))
  {
    var s := NaturalShape(z, h, frame);
    Transposed(Reshaped(a, Size(s)), s, Order(z, h, |frame|))
  }

  /** The size of the natural form, in cells and atoms of cells. */
  lemma SizeParts<T>(z: Sparse<T>, h: nat, frame: seq<nat>)
    requires z.Shaped() && h <= |z.shape|
    ensures Ascending(z.axes, |z.shape|) && Size(NaturalShape(z, h, frame)) == Size(frame) * CellsOfKey(z, h) * CellSize(z, h)
  {
    hide *;
    ShapedRange(z);
    var s, p := NaturalShape(z, h, frame), Order(z, h, |frame|);
    SizeReordered(s, p);
    SelectParts(z, h, frame, z.shape);
    NaturalShapeIs(z, h, frame);
    CellSizes(z, h);
    var r, c := Select(z.shape, z.axes)[Framed(z, h)..], Select(z.shape, z.Dense())[DenseFramed(z, h)..];
    SizeJoin(frame + r, c);
    SizeJoin(r + frame, c);
    SizeJoin(frame, r);
    SizeJoin(r, frame);
  }

  lemma CellSizes<T>(z: Sparse<T>, h: nat)
    requires z.Shaped() && h <= |z.shape|
    requires forall i :: 0 <= i < |z.axes| ==> z.axes[i] < |z.shape|
    requires forall i :: 0 <= i < |z.Dense()| ==> z.Dense()[i] < |z.shape|
    ensures Ascending(z.axes, |z.shape|)
    ensures CellsOfKey(z, h) == Size(Select(z.shape, z.axes)[Framed(z, h)..])
    ensures CellSize(z, h) == Size(Select(z.shape, z.Dense())[DenseFramed(z, h)..])
  {
    hide Framed, DenseFramed, Cells;
  }

  /** The seat of a row and an index row is one of the cells of the natural form. */
  lemma SeatBelow<T>(z: Sparse<T>, h: nat, n: nat, ix: seq<nat>, t: nat)
    requires z.Shaped() && z.IndexFits(ix) && |ix| == |z.shape| && h <= |z.shape| && t < n
    ensures Ascending(z.axes, |z.shape|) && |z.Row(ix)| == |z.axes|
    ensures Seat(z, h, n, z.Row(ix), t) < n * CellsOfKey(z, h)
  {
    ShapedAscends(z);
    RowLength(z, ix);
    z.PlaceFits(ix);
    NumberParts(z, h, z.Row(ix));
    SeatIs(z, h, n, z.Row(ix), t);
    hide *;
    RoomForOne(t, n, CellsOfKey(z, h));
    RoomForOne(Tail(z, h, z.Row(ix)), CellsOfKey(z, h), n);
  }

  lemma ShapedAscends<T>(z: Sparse<T>)
    requires z.Shaped()
    ensures Ascending(z.axes, |z.shape|)
  {
  }

  /** The cell that is stored for a row and an index row, in a list of as many atoms as the natural form. */
  lemma SeatRoom<T>(z: Sparse<T>, h: nat, frame: seq<nat>, l: seq<T>, ix: seq<nat>, t: nat)
    requires z.Shaped() && z.IndexFits(ix) && |ix| == |z.shape| && h <= |z.shape| && t < Size(frame)
    requires |l| == Size(NaturalShape(z, h, frame))
    ensures Ascending(z.axes, |z.shape|) && |z.Row(ix)| == |z.axes|
    ensures var k, w, c := Seat(z, h, Size(frame), z.Row(ix), t), Within(z, h, ix), CellSize(z, h);
            w < c && EnoughCells(l, false, c, k + 1) && k * c + w < |l| && CellAtom(l, false, c, k, w) == l[k * c + w]
  {
    hide *;
    SeatBelow(z, h, Size(frame), ix, t);
    SizeParts(z, h, frame);
    OffsetParts(z, h, ix);
    var k, w, c, n := Seat(z, h, Size(frame), z.Row(ix), t), Within(z, h, ix), CellSize(z, h), Size(frame) * CellsOfKey(z, h);
    EnoughIs(l, c, n);
    EnoughLess(l, false, c, k + 1, n);
    RoomForOne(k, n, c);
    CellAtomIs(l, c, k, w);
  }

  lemma EnoughIs<T>(l: seq<T>, c: nat, n: nat)
    ensures EnoughCells(l, false, c, n) <==> n * c <= |l|
  {
  }

  lemma CellAtomIs<T>(l: seq<T>, c: nat, k: nat, w: nat)
    requires w < c && EnoughCells(l, false, c, k + 1) && k * c + w < |l|
    ensures CellAtom(l, false, c, k, w) == l[k * c + w]
  {
  }

  /** Index row t and the axes after the frame of an index, as an index of the natural form. */
  lemma JoinedFits<T>(z: Sparse<T>, h: nat, frame: seq<nat>, ix: seq<nat>, t: nat) returns (jx: seq<nat>)
    requires z.IndexFits(ix) && |ix| == |z.shape| && h <= |z.shape| && t < Size(frame)
    ensures jx == IndexAt(frame, t) + ix[h..] && Fits(jx, NaturalShape(z, h, frame))
    ensures PlaceOf(jx, NaturalShape(z, h, frame)) == NaturalPlace(z, h, ix, t)
  {
    var fx := IndexAt(frame, t);
    jx := fx + ix[h..];
    PlaceJoin(fx, frame, ix[h..], z.shape[h..]);
    hide PlaceOf, Size;
  }

  /** What amend reads for an index is the atom at its natural place. */
  lemma ReadNatural<T>(z: Sparse<T>, h: nat, frame: seq<nat>, a: seq<T>, ix: seq<nat>, t: nat)
    requires z.Shaped() && z.IndexFits(ix) && |ix| == |z.shape| && h <= |z.shape| && t < Size(frame)
    requires Size(NaturalShape(z, h, frame)) > 0 ==> |a| > 0
    ensures Ascending(z.axes, |z.shape|) && |z.Row(ix)| == |z.axes|
    ensures var l, k, w, c := InOrder(z, h, frame, a), Seat(z, h, Size(frame), z.Row(ix), t), Within(z, h, ix), CellSize(z, h);
            && w < c && EnoughCells(l, false, c, k + 1) && |a| > 0
            && CellAtom(l, false, c, k, w) == a[NaturalPlace(z, h, ix, t) % |a|]
  {
    hide *;
    var s, p, fx := NaturalShape(z, h, frame), Order(z, h, |frame|), IndexAt(frame, t);
    var jx := JoinedFits(z, h, frame, ix, t);
    PlaceFits(jx, s);
    TransposedAt(Reshaped(a, Size(s)), s, p, jx);
    FitsLong(fx, frame);
    StandardPlace(z, h, frame, fx, ix);
    InOrderIs(z, h, frame, a);
    SeatRoom(z, h, frame, InOrder(z, h, frame, a), ix, t);
  }

  lemma InOrderIs<T>(z: Sparse<T>, h: nat, frame: seq<nat>, a: seq<T>)
    requires h <= |z.shape| && (Size(NaturalShape(z, h, frame)) > 0 ==> |a| > 0)
    ensures var s := NaturalShape(z, h, frame);
            InOrder(z, h, frame, a) == Transposed(Reshaped(a, Size(s)), s, Order(z, h, |frame|))
  {
  }

  /** Storing the natural form in standard order is the amend. */
  lemma InOrderAmends<T>(z: Sparse<T>, h: nat, frame: seq<nat>, ind: seq<seq<nat>>, a: seq<T>, y: Sparse<T>)
    requires h <= |z.shape| && |ind| == Size(frame) && (Size(NaturalShape(z, h, frame)) > 0 ==> |a| > 0)
    requires Stored(z, h, ind, InOrder(z, h, frame, a), false, y)
    ensures Amended(z, h, ind, a, y)
  {
    hide *;
    var l := InOrder(z, h, frame, a);
    StoredIs(z, h, ind, l, false, y);
    ValidLong(z);
    forall ix | z.IndexFits(ix) ensures AmendedAt(z, h, ind, a, y, ix) {
      StoredAtIs(z, h, ind, l, false, y, ix);
      AmendedAtIs(z, h, ind, a, y, ix);
      var t := LastMatch(ind, ix[..h], |ind|);
      if t > 0 {
        ReadNatural(z, h, frame, a, ix, t - 1);
      }
    }
    AmendedIs(z, h, ind, a, y);
  }

  /** So is storing an atom. */
  lemma AtomAmends<T>(z: Sparse<T>, h: nat, ind: seq<seq<nat>>, v: T, y: Sparse<T>)
    requires Stored(z, h, ind, [v], true, y)
    ensures Amended(z, h, ind, [v], y)
  {
    hide *;
    StoredIs(z, h, ind, [v], true, y);
    ValidLong(z);
    forall ix | z.IndexFits(ix) ensures AmendedAt(z, h, ind, [v], y, ix) {
      StoredAtIs(z, h, ind, [v], true, y, ix);
      RowLength(z, ix);
      AmendedAtIs(z, h, ind, [v], y, ix);
      var t := LastMatch(ind, ix[..h], |ind|);
      if t > 0 {
        OneAtom(v, CellSize(z, h), Seat(z, h, |ind|, z.Row(ix), t - 1), Within(z, h, ix));
        RemainderOne(NaturalPlace(z, h, ix, t - 1));
      }
    }
    AmendedIs(z, h, ind, [v], y);
  }

  // ---- A list that amends is the natural form.

  lemma {:induction false} MatchOnly(ind: seq<seq<nat>>, x: seq<nat>, t: nat, n: nat)
    requires t < n <= |ind| && ind[t] == x && Distinct(ind)
    ensures LastMatch(ind, x, n) == t + 1
  {
    if t < n - 1 {
      MatchOnly(ind, x, t, n - 1);
    }
  }

  /** If no index row is there twice, every atom that is stored stays. */
  lemma AmendedOnlyAt<T>(z: Sparse<T>, h: nat, frame: seq<nat>, ind: seq<seq<nat>>, a: seq<T>, l: seq<T>, y: Sparse<T>, k: nat)
    requires IndexTable(z, h, ind) && h <= |z.shape| && |ind| == Size(frame) && Distinct(ind)
    requires Size(NaturalShape(z, h, frame)) > 0 ==> |a| > 0
    requires |l| == Size(NaturalShape(z, h, frame)) && Stored(z, h, ind, l, false, y) && Amended(z, h, ind, a, y) && k < |l|
    ensures l[k] == InOrder(z, h, frame, a)[k]
  {
    hide *;
    StoredIs(z, h, ind, l, false, y);
    AmendedIs(z, h, ind, a, y);
    ValidLong(z);
    IndexTableLong(z, h, ind);
    var s, p, n := NaturalShape(z, h, frame), Order(z, h, |frame|), |frame|;
    InOrderIs(z, h, frame, a);
    var jx := TransposedFrom(Reshaped(a, Size(s)), s, p, k);
    FrameParts(z, h, frame, jx);
    var fx, t := jx[..n], PlaceOf(jx[..n], frame);
    var ix := ind[t] + jx[n..];
    RowJoined(z, h, frame, ind, jx, t);
    StoredAtIs(z, h, ind, l, false, y, ix);
    AmendedAtIs(z, h, ind, a, y, ix);
    MatchOnly(ind, ix[..h], t, |ind|);
    SeatRoom(z, h, frame, l, ix, t);
    ReadNatural(z, h, frame, a, ix, t);
    SeatRoom(z, h, frame, InOrder(z, h, frame, a), ix, t);
    assert jx == fx + ix[h..];
    StandardPlace(z, h, frame, fx, ix);
  }

  lemma FrameParts<T>(z: Sparse<T>, h: nat, frame: seq<nat>, jx: seq<nat>)
    requires h <= |z.shape| && Fits(jx, NaturalShape(z, h, frame))
    ensures |jx| == |frame| + (|z.shape| - h) && Fits(jx[..|frame|], frame) && PlaceOf(jx[..|frame|], frame) < Size(frame)
    ensures forall i: nat :: |frame| <= i < |jx| ==> jx[i] < z.shape[i - |frame| + h]
  {
    var s := NaturalShape(z, h, frame);
    assert forall i: nat :: |frame| <= i < |jx| ==> s[i] == z.shape[i - |frame| + h];
    PlaceFits(jx[..|frame|], frame);
    hide PlaceOf, Size;
  }

  lemma RowJoined<T>(z: Sparse<T>, h: nat, frame: seq<nat>, ind: seq<seq<nat>>, jx: seq<nat>, t: nat)
    requires IndexTable(z, h, ind) && h <= |z.shape| && t < |ind| && |jx| == |frame| + (|z.shape| - h)
    requires forall i: nat :: |frame| <= i < |jx| ==> jx[i] < z.shape[i - |frame| + h]
    ensures var ix := ind[t] + jx[|frame|..];
            |ix| == |z.shape| && z.IndexFits(ix) && ix[..h] == ind[t] && ix[h..] == jx[|frame|..]
  {
    var ix := ind[t] + jx[|frame|..];
    forall i | 0 <= i < |ix| ensures ix[i] < z.shape[i] {
      if i >= h {
        assert ix[i] == jx[i - h + |frame|];
      }
    }
  }

  /** Then a list whose stores amend is the natural form in standard order. */
  lemma AmendedOnly<T>(z: Sparse<T>, h: nat, frame: seq<nat>, ind: seq<seq<nat>>, a: seq<T>, l: seq<T>, y: Sparse<T>)
    requires IndexTable(z, h, ind) && h <= |z.shape| && |ind| == Size(frame) && Distinct(ind)
    requires Size(NaturalShape(z, h, frame)) > 0 ==> |a| > 0
    requires |l| == Size(NaturalShape(z, h, frame)) && Stored(z, h, ind, l, false, y) && Amended(z, h, ind, a, y)
    ensures l == InOrder(z, h, frame, a)
  {
    hide *;
    forall k: nat | k < |l| ensures l[k] == InOrder(z, h, frame, a)[k] {
      AmendedOnlyAt(z, h, frame, ind, a, l, y, k);
    }
  }

  // ---- Amend.

  datatype Outcome<T> = Done(amended: Sparse<T>) | Refused(error: Failure)

  /** The spans in the order that the code gives to the axes are those in standard order. */
  ghost predicate RightOrder<T>(z: Sparse<T>, h: nat, frame: seq<nat>, shape: seq<nat>)
    requires h <= |z.shape| && |z.shape| - h <= |shape| <= |NaturalShape(z, h, frame)|
  {
    var s, n := NaturalShape(z, h, frame), |frame|;
    SpansAgree(s, |s| - |shape|, CodeOrder(z, h, n, |shape|), Order(z, h, n))
  }

  lemma RightOrderIs<T>(z: Sparse<T>, h: nat, frame: seq<nat>, shape: seq<nat>)
    requires h <= |z.shape| && |z.shape| - h <= |shape| <= |NaturalShape(z, h, frame)|
    ensures var s, n := NaturalShape(z, h, frame), |frame|;
            RightOrder(z, h, frame, shape) <==> SpansAgree(s, |s| - |shape|, CodeOrder(z, h, n, |shape|), Order(z, h, n))
  {
  }

  /** The order is right for a replacement of all axes; and for shorter ones if every axis has two indexes or
      more, exactly if nothing need be transposed. */
  lemma RightOrderIff<T>(z: Sparse<T>, h: nat, frame: seq<nat>, shape: seq<nat>)
    requires h <= |z.shape| && |z.shape| - h <= |shape| <= |NaturalShape(z, h, frame)|
    ensures |shape| == |NaturalShape(z, h, frame)| || InPlace(z, h) ==> RightOrder(z, h, frame, shape)
    ensures |shape| < |NaturalShape(z, h, frame)| && RightOrder(z, h, frame, shape) ==>
              InPlace(z, h) || exists i :: 0 <= i < |NaturalShape(z, h, frame)| && NaturalShape(z, h, frame)[i] < 2
  {
    hide *;
    var s, n := NaturalShape(z, h, frame), |frame|;
    RightOrderIs(z, h, frame, shape);
    if |shape| == |s| {
      CodeOrderFull(z, h, n);
      SpansAgreeSame(s, 0, Order(z, h, n));
    } else if InPlace(z, h) {
      InPlaceKept(z, h, n, |shape|);
      SpansAgreeSame(s, |s| - |shape|, Order(z, h, n));
    } else if forall i :: 0 <= i < |s| ==> s[i] >= 2 {
      SpansIff(z, h, frame, |shape|);
    }
  }

  /** The list that is stored. */
  lemma ListStored<T>(z: Sparse<T>, h: nat, frame: seq<nat>, shape: seq<nat>, a: seq<T>)
    requires h <= |z.shape| && |a| == Size(shape) && Suffix(z, h, frame, shape) && 0 < |shape| && |z.shape| - h <= |shape|
    ensures var s := NaturalShape(z, h, frame);
            && |shape| <= |s| && (Size(s) > 0 ==> |a| > 0)
            && Standardize(z, h, frame, shape, a).Listed? && |Standardize(z, h, frame, shape, a).cells| == Size(s)
            && (RightOrder(z, h, frame, shape) ==> Standardize(z, h, frame, shape, a).cells == InOrder(z, h, frame, a))
  {
    hide *;
    var s, n := NaturalShape(z, h, frame), |frame|;
    StandardOrder(z, h, frame, shape, a);
    SuffixLong(z, h, frame, shape, a);
    RightOrderIs(z, h, frame, shape);
    InOrderIs(z, h, frame, a);
    if RightOrder(z, h, frame, shape) {
      SpansSuffice(a, s, |s| - |shape|, CodeOrder(z, h, n, |shape|), Order(z, h, n));
    }
  }

  /** A shorter replacement of different atoms, for index rows of which none is there twice: its stores amend
      exactly if the order is right. */
  lemma ShorterIff<T(!new)>(z: Sparse<T>, h: nat, frame: seq<nat>, ind: seq<seq<nat>>, shape: seq<nat>, a: seq<T>, y: Sparse<T>)
    requires IndexTable(z, h, ind) && |ind| == Size(frame) && Distinct(ind)
    requires h <= |z.shape| && |a| == Size(shape) && Suffix(z, h, frame, shape) && 0 < |shape| && |z.shape| - h <= |shape|
    requires Distinct(a)
    requires Standardize(z, h, frame, shape, a).Listed?
    requires Stored(z, h, ind, Standardize(z, h, frame, shape, a).cells, false, y)
    ensures |shape| <= |NaturalShape(z, h, frame)|
    ensures Amended(z, h, ind, a, y) <==> RightOrder(z, h, frame, shape)
  {
    hide *;
    var s, n := NaturalShape(z, h, frame), |frame|;
    ListStored(z, h, frame, shape, a);
    if RightOrder(z, h, frame, shape) {
      InOrderAmends(z, h, frame, ind, a, y);
    }
    if Amended(z, h, ind, a, y) {
      AmendedOnly(z, h, frame, ind, a, Standardize(z, h, frame, shape, a).cells, y);
      StandardOrder(z, h, frame, shape, a);
      SuffixLong(z, h, frame, shape, a);
      InOrderIs(z, h, frame, a);
      SpansNeeded(a, s, |s| - |shape|, CodeOrder(z, h, n, |shape|), Order(z, h, n));
      RightOrderIs(z, h, frame, shape);
    }
  }

  /** If every axis has two indexes or more, that is exactly if nothing need be transposed. */
  lemma ShorterInPlaceIff<T(!new)>(z: Sparse<T>, h: nat, frame: seq<nat>, ind: seq<seq<nat>>, shape: seq<nat>, a: seq<T>,
      y: Sparse<T>)
    requires IndexTable(z, h, ind) && |ind| == Size(frame) && Distinct(ind)
    requires h <= |z.shape| && |a| == Size(shape) && Suffix(z, h, frame, shape) && 0 < |shape| && |z.shape| - h <= |shape|
    requires |shape| < |frame| + (|z.shape| - h) && Distinct(a)
    requires forall i :: 0 <= i < |NaturalShape(z, h, frame)| ==> NaturalShape(z, h, frame)[i] >= 2
    requires Standardize(z, h, frame, shape, a).Listed?
    requires Stored(z, h, ind, Standardize(z, h, frame, shape, a).cells, false, y)
    ensures Amended(z, h, ind, a, y) <==> InPlace(z, h)
  {
    hide *;
    ShorterIff(z, h, frame, ind, shape, a, y);
    RightOrderIff(z, h, frame, shape);
  }

  lemma StandardReplaces<T>(z: Sparse<T>, h: nat, frame: seq<nat>, ind: seq<seq<nat>>, l: seq<T>)
    requires z.Shaped() && h <= |z.shape| && |ind| == Size(frame) && |l| == Size(NaturalShape(z, h, frame))
    ensures Ascending(z.axes, |z.shape|) && Replaces(z, h, |ind|, l, false)
  {
    SizeParts(z, h, frame);
    hide CellsOfKey, CellSize, Size, Ascending;
  }

  lemma AtomReplaces<T>(z: Sparse<T>, h: nat, n: nat, v: T)
    requires Ascending(z.axes, |z.shape|)
    ensures Replaces(z, h, n, [v], true)
  {
  }

  /** What the stores leave. */
  ghost predicate StoredFor<T>(z: Sparse<T>, h: nat, ind: seq<seq<nat>>, a: Standard<T>, y: Sparse<T>) {
    match a
    case Atom(v) => Stored(z, h, ind, [v], true, y)
    case Listed(l) => Stored(z, h, ind, l, false, y)
    case Failed(_) => false
  }

  lemma StoredForAtom<T>(z: Sparse<T>, h: nat, ind: seq<seq<nat>>, v: T, y: Sparse<T>)
    ensures StoredFor(z, h, ind, Atom(v), y) <==> Stored(z, h, ind, [v], true, y)
  {
  }

  lemma StoredForList<T>(z: Sparse<T>, h: nat, ind: seq<seq<nat>>, l: seq<T>, y: Sparse<T>)
    ensures StoredFor(z, h, ind, Listed(l), y) <==> Stored(z, h, ind, l, false, y)
  {
  }

  /** a (<"1 ind)} z for dense a, where frame is the shape of the boxed index array. */
  method AmendDense<T>(z: Sparse<T>, h: nat, frame: seq<nat>, ind: seq<seq<nat>>, shape: seq<nat>, a: seq<T>)
    returns (r: Outcome<T>)
    requires z.Valid() && IndexTable(z, h, ind) && Ascending(z.axes, |z.shape|) && |ind| == Size(frame) && |a| == Size(shape)
    requires !Twice(z, h, ind, |frame| == 1) && !Outside(z, h)
    requires |frame| == 1 || 0 < Framed(z, h) || (0 < h && 0 < |z.axes|) || Complete(z, z.rows, h, ind)
    requires Framed(z, h) == 0 || ind == [] || 0 < CellsOfKey(z, h)
    ensures r == Refused(RankError) <==> |shape| > |frame| + (|z.shape| - h)
    ensures r == Refused(Failure.LengthError) <==> |shape| <= |frame| + (|z.shape| - h) && !Suffix(z, h, frame, shape)
    ensures r == Refused(DomainError) <==> Suffix(z, h, frame, shape) && 0 < |shape| < |z.shape| - h
    ensures r.Done? ==> StoredFor(z, h, ind, Standardize(z, h, frame, shape, a), r.amended)
    ensures r.Done? && shape != [] ==> |z.shape| - h <= |shape| <= |NaturalShape(z, h, frame)|
    ensures r.Done? && (shape == [] || |shape| == |frame| + (|z.shape| - h) || RightOrder(z, h, frame, shape)) ==>
              Amended(z, h, ind, a, r.amended)
  {
    hide *;
    AreReady(z, h, ind);
    ReadyIs(z, h, ind);
    StandardizeIs(z, h, frame, shape, a);
    match Standardize(z, h, frame, shape, a) {
      case Failed(error) =>
        r := Refused(error);
      case Atom(v) =>
        AtomReplaces(z, h, |ind|, v);
        var y := AmendStandard(z, h, ind, |frame| == 1, [v], true);
        AtomAmends(z, h, ind, v, y);
        StoredForAtom(z, h, ind, v, y);
        assert a == [v];
        r := Done(y);
      case Listed(l) =>
        ListStored(z, h, frame, shape, a);
        StandardReplaces(z, h, frame, ind, l);
        var y := AmendStandard(z, h, ind, |frame| == 1, l, false);
        StoredForList(z, h, ind, l, y);
        RightOrderIff(z, h, frame, shape);
        if RightOrder(z, h, frame, shape) {
          InOrderAmends(z, h, frame, ind, a, y);
        }
        r := Done(y);
    }
  }

  // ---- A replacement of fewer axes that is stored in the wrong order.

  /** Rows 0 and 1 of an array of shape 2 3 whose axis 1 is sparse, amended by 10 20 30. */
  lemma ShorterExample(y: Sparse<int>)
    requires Stored(ShorterArray(), 1, [[0], [1]], [10, 20, 30, 10, 20, 30], false, y)
    ensures ShorterArray().Valid() && IndexTable(ShorterArray(), 1, [[0], [1]])
    ensures Size([3]) == 3 && Standardize(ShorterArray(), 1, [2], [3], [10, 20, 30]) == Listed([10, 20, 30, 10, 20, 30])
    ensures y.Valid() && y.IndexFits([0, 1]) && y.At([0, 1]) == 30
    ensures !Amended(ShorterArray(), 1, [[0], [1]], [10, 20, 30], y)
  {
    hide *;
    var z, ind, l := ShorterArray(), [[0], [1]], [10, 20, 30, 10, 20, 30];
    ShorterValid();
    ShorterListed();
    var ix := [0, 1];
    ShorterPlaces(ind, ix);
    MatchOnly(ind, ix[..1], 0, 2);
    StoredIs(z, 1, ind, l, false, y);
    StoredAtIs(z, 1, ind, l, false, y, ix);
    CellAtomIs(l, 1, 2, 0);
    AmendedIs(z, 1, ind, [10, 20, 30], y);
    AmendedAtIs(z, 1, ind, [10, 20, 30], y, ix);
  }

  function ShorterArray(): Sparse<int> {
    Sparse([2, 3], [1], 0, [[0], [1], [2]], [[1, 2], [3, 4], [5, 6]])
  }

  lemma ShorterValid()
    ensures ShorterArray().Valid() && ShorterArray().Dense() == [0] && ShorterArray().Shaped()
  {
    var z := ShorterArray();
    ShorterAxes();
    ShorterRows();
    ValidParts(z);
    hide *;
  }

  lemma ShorterAxes()
    ensures var z := ShorterArray(); z.Shaped() && z.Dense() == [0] && Sized(z.items, z.ItemSize()) && |z.rows| == |z.items|
  {
    var z := ShorterArray();
    assert Others([1], 1) == [0] && Others([1], 2) == [0];
    assert z.DenseLengths() == [2];
    assert Cells([2], 0) == 1 && Cells([2], 1) == 2;
  }

  lemma ShorterRows()
    ensures var z := ShorterArray(); z.Shaped() && Sorted(z.rows) && AllFit(z, z.rows)
  {
    var z := ShorterArray();
    assert z.Lengths() == [3];
    hide Select;
  }

  lemma ShorterListed()
    ensures ShorterArray().shape == [2, 3] && Size([3]) == 3
    ensures Standardize(ShorterArray(), 1, [2], [3], [10, 20, 30]) == Listed([10, 20, 30, 10, 20, 30])
  {
    var z, a := ShorterArray(), [10, 20, 30];
    SizeOne(3);
    SizeOne(2);
    SizeJoin([2], [3]);
    assert [2] + [3] == [2, 3];
    assert NaturalShape(z, 1, [2]) == [2, 3];
    assert Reshaped(a, 6) == [10, 20, 30, 10, 20, 30];
    assert Flags(z, 1, 0) == [true];
    GradeIota(Flags(z, 1, 0));
    hide Size, Reshaped, Flags, DownGrade;
  }

  lemma ShorterPlaces(ind: seq<seq<nat>>, ix: seq<nat>)
    requires ind == [[0], [1]] && ix == [0, 1]
    ensures var z := ShorterArray();
            && Ascending(z.axes, |z.shape|) && IndexTable(z, 1, ind) && Distinct(ind) && z.IndexFits(ix) && |z.shape| == 2
            && ix[..1] == ind[0] && |z.Row(ix)| == |z.axes|
            && Seat(z, 1, 2, z.Row(ix), 0) == 2 && Within(z, 1, ix) == 0 && CellSize(z, 1) == 1
            && NaturalPlace(z, 1, ix, 0) == 1
  {
    var z := ShorterArray();
    ShorterValid();
    assert z.Row(ix) == [1];
    FramedIs(z, 1);
    DenseFramedIs(z, 1);
    assert Framed(z, 1) == 0 && DenseFramed(z, 1) == 1;
    assert z.Row(ix)[0..] == [1] && z.Lengths() == [3];
    assert Cell([1], [3], 0) == 0 && Cell([1], [3], 1) == 1;
    assert ix[1..] == [1] && z.shape[1..] == [3];
  }
}
