/** The standard form of a replacement for a sparse array: its axes in the order in which amend reads it. */
module SparseStandard {
  import opened Arith
  import opened CellOffset
  import opened Classes
  import opened SparseSpec
  import opened SparsePad
  import opened SparseCells
  import opened SparseSeats
  import opened Transpose

  // ---- Grading flags.

  ghost predicate Rising(s: seq<nat>) {
    forall i, j :: 0 <= i < j < |s| ==> s[i] < s[j]
  }

  /** Where the flag is v. */
  function Places(f: seq<bool>, v: bool): (o: seq<nat>)
    ensures Rising(o) && forall i :: 0 <= i < |o| ==> o[i] < |f| && f[o[i]] == v
    ensures forall k: nat :: k < |f| && f[k] == v ==> k in o
  {
    if f == [] then []
    else
      var n := |f| - 1;
      Places(f[..n], v) + if f[n] == v then [n] else []
  }

  /** The stable descending grade: the flags that are set first. */
  function DownGrade(f: seq<bool>): seq<nat> {
    Places(f, true) + Places(f, false)
  }

  lemma {:induction false} PlacesCount(f: seq<bool>)
    ensures |Places(f, true)| + |Places(f, false)| == |f|
  {
    if f != [] {
      PlacesCount(f[..|f| - 1]);
    }
  }

  /** The grade is a permutation, flags descend along it, and equal flags stay in order. */
  lemma DownGradeIs(f: seq<bool>)
    ensures Permutes(DownGrade(f), |f|)
    ensures var q := DownGrade(f); forall i, j :: 0 <= i < j < |q| ==> f[q[i]] || !f[q[j]]
    ensures var q := DownGrade(f); forall i, j :: 0 <= i < j < |q| && f[q[i]] == f[q[j]] ==> q[i] < q[j]
  {
    PlacesCount(f);
    var q := DownGrade(f);
    forall k: nat | k < |f| ensures k in q {
      assert k in Places(f, f[k]);
    }
    hide Places;
  }

  lemma {:induction false} RisingSame(s: seq<nat>, t: seq<nat>)
    requires Rising(s) && Rising(t) && forall k: nat :: k in s <==> k in t
    ensures s == t
  {
    if s == [] || t == [] {
      FirstIn(s);
      FirstIn(t);
    } else {
      var m, n := |s| - 1, |t| - 1;
      LastIsMost(s, t[n]);
      LastIsMost(t, s[m]);
      assert s[m] in t && t[n] in s;
      LastRemoved(s);
      LastRemoved(t);
      RisingSame(s[..m], t[..n]);
    }
  }

  lemma FirstIn(s: seq<nat>)
    ensures s == [] || s[0] in s
  {
  }

  lemma LastIsMost(s: seq<nat>, k: nat)
    requires Rising(s) && s != []
    ensures k in s ==> k <= s[|s| - 1]
    ensures s[|s| - 1] in s
  {
  }

  lemma LastRemoved(s: seq<nat>)
    requires Rising(s) && s != []
    ensures var m := |s| - 1; s == s[..m] + [s[m]] && Rising(s[..m]) && forall k: nat :: k in s[..m] <==> k in s && k != s[m]
  {
  }

  // ---- The axes of the natural form.

  /** The shape that a replacement has by nature: that of the index table without its last axis, and then
      the axes that are not indexed. */
  function NaturalShape<T>(z: Sparse<T>, h: nat, frame: seq<nat>): (s: seq<nat>)
    requires h <= |z.shape|
    ensures |s| == |frame| + (|z.shape| - h)
  {
    frame + z.shape[h..]
  }

  /** Which axes are sparse. */
  function AxisFlags<T>(z: Sparse<T>): (b: seq<bool>)
    ensures |b| == |z.shape| && forall i: nat :: i < |b| ==> b[i] == (i in z.axes)
  {
    seq(|z.shape|, i requires 0 <= i => i in z.axes)
  }

  /** Whether an indexed axis is sparse. */
  predicate Indexed<T>(z: Sparse<T>, h: nat)
    requires h <= |z.shape|
  {
    true in AxisFlags(z)[..h]
  }

  /** The flags of n axes of the frame and of the axes that are not indexed. */
  function Flags<T>(z: Sparse<T>, h: nat, n: nat): (f: seq<bool>)
    requires h <= |z.shape|
    ensures |f| == n + (|z.shape| - h)
  {
    Filled(n, Indexed(z, h)) + AxisFlags(z)[h..]
  }

  lemma IndexedIs<T>(z: Sparse<T>, h: nat)
    requires z.Shaped() && h <= |z.shape|
    ensures Indexed(z, h) <==> Framed(z, h) > 0
  {
    FramedIs(z, h);
    var b := AxisFlags(z);
    if Framed(z, h) > 0 {
      assert b[..h][z.axes[0]];
    }
    if Indexed(z, h) {
      var i :| 0 <= i < h && b[..h][i];
      var j :| 0 <= j < |z.axes| && z.axes[j] == i;
    }
  }

  /** Axes after the frame, counted from the start of the natural shape. */
  function Moved(o: seq<nat>, h: nat, n: nat): (r: seq<nat>)
    requires forall i :: 0 <= i < |o| ==> o[i] >= h
    ensures |r| == |o| && forall i :: 0 <= i < |o| ==> r[i] == n + o[i] - h
  {
    seq(|o|, i requires 0 <= i < |o| && o[i] >= h => n + o[i] - h)
  }

  function FrameAxes(n: nat, on: bool): (o: seq<nat>) {
    if on then Iota(n) else []
  }

  lemma MovedIn(o: seq<nat>, h: nat, n: nat, k: nat)
    requires forall i :: 0 <= i < |o| ==> o[i] >= h
    ensures k in Moved(o, h, n) <==> k >= n && k - n + h in o
  {
    if k >= n && k - n + h in o {
      var i :| 0 <= i < |o| && o[i] == k - n + h;
      assert Moved(o, h, n)[i] == k;
    }
  }

  /** The places of a flag: the axes of the frame if they have it, and the axes o. */
  lemma PlacesAre<T>(z: Sparse<T>, h: nat, n: nat, v: bool, o: seq<nat>)
    requires h <= |z.shape| && Rising(o) && forall i :: 0 <= i < |o| ==> h <= o[i] < |z.shape|
    requires forall i: nat :: h <= i < |z.shape| ==> ((i in z.axes) == v <==> i in o)
    ensures Places(Flags(z, h, n), v) == FrameAxes(n, Indexed(z, h) == v) + Moved(o, h, n)
  {
    var f, on := Flags(z, h, n), Indexed(z, h) == v;
    var s, t := Places(f, v), FrameAxes(n, on) + Moved(o, h, n);
    assert Rising(t);
    forall k: nat ensures k in s <==> k in t {
      MovedIn(o, h, n, k);
      if k < n {
        assert f[k] == Indexed(z, h);
        if on {
          assert Iota(n)[k] == k;
        }
      } else if k < |f| {
        assert f[k] == AxisFlags(z)[h..][k - n] == AxisFlags(z)[k - n + h];
      }
    }
    RisingSame(s, t);
    hide *;
  }

  /** The axes that are not indexed. */
  lemma AxesAfter<T>(z: Sparse<T>, h: nat)
    requires z.Shaped() && h <= |z.shape|
    ensures var o := z.axes[Framed(z, h)..];
            && Rising(o) && (forall i :: 0 <= i < |o| ==> h <= o[i] < |z.shape|)
            && forall i: nat :: h <= i < |z.shape| ==> (i in z.axes <==> i in o)
    ensures var o := z.Dense()[DenseFramed(z, h)..];
            && Rising(o) && (forall i :: 0 <= i < |o| ==> h <= o[i] < |z.shape|)
            && forall i: nat :: h <= i < |z.shape| ==> (i !in z.axes <==> i in o)
  {
    FramedIs(z, h);
    DenseFramedIs(z, h);
    ShapedRange(z);
    After(z.axes, Framed(z, h), h, |z.shape|);
    After(z.Dense(), DenseFramed(z, h), h, |z.shape|);
    OthersAre(z);
    hide *;
  }

  lemma After(o: seq<nat>, d: nat, h: nat, n: nat)
    requires d <= |o| && Rising(o) && (forall i :: 0 <= i < |o| ==> o[i] < n) && forall i :: 0 <= i < |o| ==> (o[i] < h <==> i < d)
    ensures Rising(o[d..]) && forall i :: 0 <= i < |o[d..]| ==> h <= o[d..][i] < n
    ensures forall k: nat :: h <= k ==> (k in o <==> k in o[d..])
  {
    forall k: nat | h <= k && k in o ensures k in o[d..] {
      var j :| 0 <= j < |o| && o[j] == k;
      assert o[d..][j - d] == k;
    }
  }

  lemma OthersAre<T>(z: Sparse<T>)
    ensures forall i: nat :: i < |z.shape| ==> (i !in z.axes <==> i in z.Dense())
  {
  }

  /** The order of the standard form for n axes of the frame. */
  function Order<T>(z: Sparse<T>, h: nat, n: nat): (p: seq<nat>)
    requires h <= |z.shape|
    ensures Permutes(p, n + (|z.shape| - h))
  {
    DownGradeIs(Flags(z, h, n));
    DownGrade(Flags(z, h, n))
  }

  /** Sparse axes first, the axes of the frame among them if an indexed axis is sparse. */
  lemma OrderIs<T>(z: Sparse<T>, h: nat, n: nat)
    requires z.Shaped() && h <= |z.shape|
    ensures var o, q := z.axes[Framed(z, h)..], z.Dense()[DenseFramed(z, h)..];
            && (forall i :: 0 <= i < |o| ==> h <= o[i] < |z.shape|) && (forall i :: 0 <= i < |q| ==> h <= q[i] < |z.shape|)
            && Order(z, h, n) ==
               if Framed(z, h) > 0 then Iota(n) + Moved(o, h, n) + Moved(q, h, n)
               else Moved(o, h, n) + Iota(n) + Moved(q, h, n)
  {
    hide *;
    AxesAfter(z, h);
    IndexedIs(z, h);
    var o, q := z.axes[Framed(z, h)..], z.Dense()[DenseFramed(z, h)..];
    PlacesAre(z, h, n, true, o);
    PlacesAre(z, h, n, false, q);
    OrderJoins(z, h, n);
    FrameAxesAre(n);
    OrderOfParts(Iota(n), Moved(o, h, n), Moved(q, h, n));
  }

  lemma OrderJoins<T>(z: Sparse<T>, h: nat, n: nat)
    requires h <= |z.shape|
    ensures Order(z, h, n) == Places(Flags(z, h, n), true) + Places(Flags(z, h, n), false)
  {
    hide Places;
  }

  lemma FrameAxesAre(n: nat)
    ensures FrameAxes(n, true) == Iota(n) && FrameAxes(n, false) == []
  {
  }

  lemma OrderOfParts(x: seq<nat>, y: seq<nat>, z: seq<nat>)
    ensures (x + y) + ([] + z) == x + y + z && ([] + y) + (x + z) == y + x + z
  {
  }

  lemma SelectJoin(x: seq<nat>, p: seq<nat>, q: seq<nat>)
    requires (forall i :: 0 <= i < |p| ==> p[i] < |x|) && forall i :: 0 <= i < |q| ==> q[i] < |x|
    ensures Select(x, p + q) == Select(x, p) + Select(x, q)
  {
  }

  lemma SelectFrame(x: seq<nat>, y: seq<nat>)
    ensures Select(x + y, Iota(|x|)) == x
  {
  }

  lemma SelectMoved(x: seq<nat>, y: seq<nat>, h: nat, o: seq<nat>, d: nat)
    requires d <= |o| && h <= |y| && (forall i :: 0 <= i < |o| ==> o[i] < |y|) && forall i :: d <= i < |o| ==> h <= o[i]
    ensures Select(x + y[h..], Moved(o[d..], h, |x|)) == Select(y, o)[d..]
  {
    forall i | 0 <= i < |o| - d ensures Select(x + y[h..], Moved(o[d..], h, |x|))[i] == Select(y, o)[d..][i] {
      assert o[d..][i] == o[d + i];
      assert (x + y[h..])[|x| + o[d + i] - h] == y[o[d + i]];
    }
  }

  /** The parts of an index of the natural form, in standard order. */
  lemma SelectParts<T>(z: Sparse<T>, h: nat, x: seq<nat>, y: seq<nat>)
    requires z.Shaped() && h <= |z.shape| && |y| == |z.shape|
    ensures var d, f := Framed(z, h), DenseFramed(z, h);
            Select(x + y[h..], Order(z, h, |x|)) ==
            (if d > 0 then x + Select(y, z.axes)[d..] else Select(y, z.axes)[d..] + x) + Select(y, z.Dense())[f..]
  {
    hide *;
    ShapedRange(z);
    OrderIs(z, h, |x|);
    var d, f, n, w := Framed(z, h), DenseFramed(z, h), |x|, x + y[h..];
    var o, q := Moved(z.axes[d..], h, n), Moved(z.Dense()[f..], h, n);
    SelectFrame(x, y[h..]);
    AfterAxes(z.axes, d, h);
    AfterAxes(z.Dense(), f, h);
    SelectMoved(x, y, h, z.axes, d);
    SelectMoved(x, y, h, z.Dense(), f);
    if d > 0 {
      SelectJoin(w, Iota(n), o);
      SelectJoin(w, Iota(n) + o, q);
    } else {
      SelectJoin(w, o, Iota(n));
      SelectJoin(w, o + Iota(n), q);
    }
  }

  lemma ShapedRange<T>(z: Sparse<T>)
    requires z.Shaped()
    ensures forall i :: 0 <= i < |z.axes| ==> z.axes[i] < |z.shape|
    ensures forall i :: 0 <= i < |z.Dense()| ==> z.Dense()[i] < |z.shape|
  {
  }

  lemma AfterAxes(o: seq<nat>, d: nat, h: nat)
    requires d <= |o| && forall i :: 0 <= i < |o[d..]| ==> h <= o[d..][i]
    ensures forall i :: d <= i < |o| ==> h <= o[i]
  {
    forall i | d <= i < |o| ensures h <= o[i] {
      assert o[i] == o[d..][i - d];
    }
  }

  /** The place of an index in the standard form is where amend reads it. */
  lemma StandardPlace<T>(z: Sparse<T>, h: nat, frame: seq<nat>, fx: seq<nat>, ix: seq<nat>)
    requires z.Shaped() && h <= |z.shape| && |fx| == |frame| && |ix| == |z.shape|
    ensures Ascending(z.axes, |z.shape|) && |z.Row(ix)| == |z.axes|
    ensures var p := Order(z, h, |frame|);
            PlaceOf(Select(fx + ix[h..], p), Select(NaturalShape(z, h, frame), p)) ==
            Seat(z, h, Size(frame), z.Row(ix), PlaceOf(fx, frame)) * CellSize(z, h) + Within(z, h, ix)
  {
    hide *;
    ShapedRange(z);
    SelectParts(z, h, fx, ix);
    SelectParts(z, h, frame, z.shape);
    var d, f := Framed(z, h), DenseFramed(z, h);
    var r, s := Select(ix, z.axes)[d..], Select(z.shape, z.axes)[d..];
    var w, c := Select(ix, z.Dense())[f..], Select(z.shape, z.Dense())[f..];
    PlacesInParts(z, h, Size(frame), ix, PlaceOf(fx, frame));
    NaturalShapeIs(z, h, frame);
    if d > 0 {
      PlaceJoin(fx, frame, r, s);
      PlaceJoin(fx + r, frame + s, w, c);
    } else {
      PlaceJoin(r, s, fx, frame);
      PlaceJoin(r + fx, s + frame, w, c);
    }
  }

  lemma NaturalShapeIs<T>(z: Sparse<T>, h: nat, frame: seq<nat>)
    requires h <= |z.shape|
    ensures NaturalShape(z, h, frame) == frame + z.shape[h..]
  {
  }

  lemma PlacesInParts<T>(z: Sparse<T>, h: nat, n: nat, ix: seq<nat>, t: nat)
    requires z.Shaped() && h <= |z.shape| && |ix| == |z.shape|
    requires forall i :: 0 <= i < |z.axes| ==> z.axes[i] < |z.shape|
    requires forall i :: 0 <= i < |z.Dense()| ==> z.Dense()[i] < |z.shape|
    ensures Ascending(z.axes, |z.shape|) && |z.Row(ix)| == |z.axes|
    ensures var d, f := Framed(z, h), DenseFramed(z, h);
            var r, s := Select(ix, z.axes)[d..], Select(z.shape, z.axes)[d..];
            var w, c := Select(ix, z.Dense())[f..], Select(z.shape, z.Dense())[f..];
            && Within(z, h, ix) == PlaceOf(w, c) && CellSize(z, h) == Size(c)
            && Seat(z, h, n, z.Row(ix), t) == if d > 0 then t * Size(s) + PlaceOf(r, s) else PlaceOf(r, s) * n + t
  {
    hide Framed, DenseFramed, Cell, Cells;
  }

  // ---- What the code does with a replacement.

  datatype Failure = RankError | LengthError | DomainError

  datatype Standard<T> = Atom(value: T) | Listed(cells: seq<T>) | Failed(error: Failure)

  /** An order of the first axes, with the axes that it does not have put before it. */
  function FilledOut(q: seq<nat>, d: nat): (p: seq<nat>)
    requires |q| <= d && Permutes(q, |q|)
    ensures Permutes(p, d)
  {
    FilledOutPermutes(q, d);
    Others(q, d) + q
  }

  lemma FilledOutPermutes(q: seq<nat>, d: nat)
    requires |q| <= d && Permutes(q, |q|)
    ensures Permutes(Others(q, d) + q, d)
  {
    hide *;
    OthersFollow(q, d);
    PermutesIs(q, |q|);
    PermutesJoin(Moved(Iota(d - |q|), 0, |q|), q, d);
  }

  lemma OthersFollow(q: seq<nat>, d: nat)
    requires |q| <= d && Permutes(q, |q|)
    ensures Others(q, d) == Moved(Iota(d - |q|), 0, |q|)
  {
    var o, t := Others(q, d), Moved(Iota(d - |q|), 0, |q|);
    forall k: nat ensures k in o <==> k in t {
      MovedIn(Iota(d - |q|), 0, |q|, k);
      if k >= |q| && k < d {
        assert Iota(d - |q|)[k - |q|] == k - |q|;
      }
    }
    RisingSame(o, t);
  }

  lemma PermutesJoin(o: seq<nat>, q: seq<nat>, d: nat)
    requires Permutes(q, |q|) && |o| + |q| == d && forall i :: 0 <= i < |o| ==> o[i] == |q| + i
    ensures Permutes(o + q, d)
  {
    forall k: nat | k < d ensures k in o + q {
      if k >= |q| {
        assert o[k - |q|] == k;
      }
    }
  }

  /** The replacement of the given shape in standard form.  A replacement of fewer axes is repeated to all
      of them, but the frame in the flags that are graded is as long as if it were not. */
  function Standardize<T>(z: Sparse<T>, h: nat, frame: seq<nat>, shape: seq<nat>, a: seq<T>): Standard<T>
    requires h <= |z.shape| && |a| == Size(shape)
  {
    var s, ar, c := NaturalShape(z, h, frame), |shape|, |z.shape| - h;
    var d := |s|;
    if ar == 0 then Atom(a[0])
    else if ar > d then Failed(RankError)
    else if s[d - ar..] != shape then Failed(Failure.LengthError)
    else
      SuffixPositive(s, d - ar);
      var a' := if ar < d then Reshaped(a, Size(s)) else a;
      if ar < c then Failed(DomainError)
      else
        var q := Order(z, h, ar - c);
        Listed(if q == Iota(ar) then a' else Transposed(a', s, FilledOut(q, d)))
  }

  /** The order that the code gives to the axes. */
  function CodeOrder<T>(z: Sparse<T>, h: nat, n: nat, ar: nat): (p: seq<nat>)
    requires h <= |z.shape| && |z.shape| - h <= ar <= n + (|z.shape| - h)
    ensures Permutes(p, n + (|z.shape| - h))
  {
    var q, d := Order(z, h, ar - (|z.shape| - h)), n + (|z.shape| - h);
    PermutesIota(d);
    if q == Iota(ar) then Iota(d) else FilledOut(q, d)
  }

  /** A shape that agrees with the last axes of the natural shape. */
  predicate Suffix<T>(z: Sparse<T>, h: nat, frame: seq<nat>, shape: seq<nat>)
    requires h <= |z.shape|
  {
    var s := NaturalShape(z, h, frame);
    |shape| <= |s| && s[|s| - |shape|..] == shape
  }

  lemma ReshapedSame<T>(a: seq<T>)
    ensures Reshaped(a, |a|) == a
  {
  }

  lemma SuffixLong<T>(z: Sparse<T>, h: nat, frame: seq<nat>, shape: seq<nat>, a: seq<T>)
    requires h <= |z.shape| && Suffix(z, h, frame, shape) && |a| == Size(shape)
    ensures var s := NaturalShape(z, h, frame);
            |shape| <= |s| == |frame| + (|z.shape| - h) && shape == s[|s| - |shape|..] && (Size(s) > 0 ==> |a| > 0)
  {
    var s := NaturalShape(z, h, frame);
    SuffixPositive(s, |s| - |shape|);
    hide Size;
  }

  /** The errors, exactly; else an atom, or the repeated replacement with its axes in the order above. */
  lemma StandardizeIs<T>(z: Sparse<T>, h: nat, frame: seq<nat>, shape: seq<nat>, a: seq<T>)
    requires h <= |z.shape| && |a| == Size(shape)
    ensures var r, s, c := Standardize(z, h, frame, shape, a), NaturalShape(z, h, frame), |z.shape| - h;
            && (r == Failed(RankError) <==> |shape| > |s|)
            && (r == Failed(Failure.LengthError) <==> |shape| <= |s| && !Suffix(z, h, frame, shape))
            && (r == Failed(DomainError) <==> Suffix(z, h, frame, shape) && 0 < |shape| < c)
            && (r.Atom? <==> shape == []) && (r.Atom? ==> |a| == 1 && r.value == a[0])
            && (r.Listed? ==>
                  && 0 < |shape| && c <= |shape| <= |s| && Suffix(z, h, frame, shape)
                  && |s| == |frame| + c && (Size(s) > 0 ==> |a| > 0)
                  && r.cells == Transposed(Reshaped(a, Size(s)), s, CodeOrder(z, h, |frame|, |shape|)))
  {
    hide *;
    StandardErrors(z, h, frame, shape, a);
    if Suffix(z, h, frame, shape) && |z.shape| - h <= |shape| && 0 < |shape| {
      StandardOrder(z, h, frame, shape, a);
    }
  }

  lemma StandardOrder<T>(z: Sparse<T>, h: nat, frame: seq<nat>, shape: seq<nat>, a: seq<T>)
    requires h <= |z.shape| && |a| == Size(shape) && Suffix(z, h, frame, shape) && 0 < |shape| && |z.shape| - h <= |shape|
    ensures var s := NaturalShape(z, h, frame);
            && |shape| <= |s| == |frame| + (|z.shape| - h) && (Size(s) > 0 ==> |a| > 0)
            && Standardize(z, h, frame, shape, a) ==
               Listed(Transposed(Reshaped(a, Size(s)), s, CodeOrder(z, h, |frame|, |shape|)))
  {
    hide *;
    StandardListed(z, h, frame, shape, a);
    CodeOrderIs(z, h, |frame|, |shape|);
    var s := NaturalShape(z, h, frame);
    TransposedIota(Reshaped(a, Size(s)), s);
  }

  lemma StandardErrors<T>(z: Sparse<T>, h: nat, frame: seq<nat>, shape: seq<nat>, a: seq<T>)
    requires h <= |z.shape| && |a| == Size(shape)
    ensures var r, s, c := Standardize(z, h, frame, shape, a), NaturalShape(z, h, frame), |z.shape| - h;
            && (r == Failed(RankError) <==> |shape| > |s|)
            && (r == Failed(Failure.LengthError) <==> |shape| <= |s| && !Suffix(z, h, frame, shape))
            && (r == Failed(DomainError) <==> Suffix(z, h, frame, shape) && 0 < |shape| < c)
            && (r.Atom? <==> shape == []) && (r.Atom? ==> |a| == 1 && r.value == a[0])
            && (r.Listed? ==> 0 < |shape| && c <= |shape| <= |s| && Suffix(z, h, frame, shape))
  {
    EmptySize();
    hide Order, Transposed, Reshaped, FilledOut, Size, Permutes, NaturalShape;
  }

  lemma StandardListed<T>(z: Sparse<T>, h: nat, frame: seq<nat>, shape: seq<nat>, a: seq<T>)
    requires h <= |z.shape| && |a| == Size(shape) && Suffix(z, h, frame, shape) && 0 < |shape| && |z.shape| - h <= |shape|
    ensures var s, q := NaturalShape(z, h, frame), Order(z, h, |shape| - (|z.shape| - h));
            && |shape| <= |s| == |frame| + (|z.shape| - h) && (Size(s) > 0 ==> |a| > 0)
            && var b := Reshaped(a, Size(s));
               Standardize(z, h, frame, shape, a) == Listed(if q == Iota(|shape|) then b else Transposed(b, s, FilledOut(q, |s|)))
  {
    SuffixLong(z, h, frame, shape, a);
    ReshapedSame(a);
    hide Order, Transposed, Reshaped, FilledOut, Size, Permutes, NaturalShape;
  }

  lemma CodeOrderIs<T>(z: Sparse<T>, h: nat, n: nat, ar: nat)
    requires h <= |z.shape| && |z.shape| - h <= ar <= n + (|z.shape| - h)
    ensures var q, d := Order(z, h, ar - (|z.shape| - h)), n + (|z.shape| - h);
            CodeOrder(z, h, n, ar) == if q == Iota(ar) then Iota(d) else FilledOut(q, d)
  {
    hide Order, FilledOut;
  }

  lemma EmptySize()
    ensures Size([]) == 1
  {
  }

  // ---- When the code's order is right.

  lemma GradeIota(f: seq<bool>)
    ensures DownGrade(f) == Iota(|f|) <==> forall i, j :: 0 <= i < j < |f| && f[j] ==> f[i]
  {
    DownGradeIs(f);
    var q := DownGrade(f);
    if forall i, j :: 0 <= i < j < |f| && f[j] ==> f[i] {
      PermutesIota(|f|);
      RisingSame(q, Iota(|f|));
    }
    if q == Iota(|f|) {
      forall i, j | 0 <= i < j < |f| && f[j] ensures f[i] {
        assert q[i] == i && q[j] == j;
      }
    }
    hide DownGrade;
  }

  /** No axis after the frame is sparse, or an indexed axis is sparse and the sparse axes after the frame
      are the first of them. */
  predicate InPlace<T>(z: Sparse<T>, h: nat)
    requires h <= |z.shape|
  {
    var b := AxisFlags(z)[h..];
    true !in b || (Indexed(z, h) && forall i, j :: 0 <= i < j < |b| && b[j] ==> b[i])
  }

  /** Then, and only then, nothing need be transposed. */
  lemma InPlaceIff<T>(z: Sparse<T>, h: nat, n: nat)
    requires h <= |z.shape|
    ensures InPlace(z, h) ==> Order(z, h, n) == Iota(n + (|z.shape| - h))
    ensures n > 0 && Order(z, h, n) == Iota(n + (|z.shape| - h)) ==> InPlace(z, h)
  {
    hide *;
    OrderGrade(z, h, n);
    GradeIota(Flags(z, h, n));
    Descends(Indexed(z, h), AxisFlags(z)[h..], n);
    InPlaceIs(z, h);
  }

  lemma InPlaceIs<T>(z: Sparse<T>, h: nat)
    requires h <= |z.shape|
    ensures InPlace(z, h) <==>
            var b := AxisFlags(z)[h..]; true !in b || (Indexed(z, h) && forall i, j :: 0 <= i < j < |b| && b[j] ==> b[i])
  {
  }

  lemma Descends(on: bool, b: seq<bool>, n: nat)
    ensures var f, down := Filled(n, on) + b, true !in b || (on && forall i, j :: 0 <= i < j < |b| && b[j] ==> b[i]);
            && (down ==> forall i, j :: 0 <= i < j < |f| && f[j] ==> f[i])
            && (n > 0 && (forall i, j :: 0 <= i < j < |f| && f[j] ==> f[i]) ==> down)
  {
    var f := Filled(n, on) + b;
    if n > 0 && (forall i, j :: 0 <= i < j < |f| && f[j] ==> f[i]) {
      forall i, j | 0 <= i < j < |b| && b[j] ensures b[i] {
        assert f[n + j] && f[n + i];
      }
      if true in b {
        var j :| 0 <= j < |b| && b[j];
        assert f[n + j] && f[0];
      }
    }
  }

  /** A replacement of all axes is put in standard order. */
  lemma CodeOrderFull<T>(z: Sparse<T>, h: nat, n: nat)
    requires h <= |z.shape|
    ensures CodeOrder(z, h, n, n + (|z.shape| - h)) == Order(z, h, n)
  {
    hide *;
    CodeOrderIs(z, h, n, n + (|z.shape| - h));
    PermutesIs(Order(z, h, n), n + (|z.shape| - h));
    FilledOutSame(Order(z, h, n));
  }

  lemma FilledOutSame(q: seq<nat>)
    requires Permutes(q, |q|)
    ensures FilledOut(q, |q|) == q
  {
    FilledOutPermutes(q, |q|);
    FilledOutLong(q, |q|);
    assert Others(q, |q|) == [];
    hide *;
  }

  lemma FilledOutLong(q: seq<nat>, d: nat)
    requires |q| <= d && Permutes(q, |q|)
    ensures FilledOut(q, d) == Others(q, d) + q && |FilledOut(q, d)| == d
  {
  }

  /** So is a shorter one if nothing need be transposed. */
  lemma InPlaceKept<T>(z: Sparse<T>, h: nat, n: nat, ar: nat)
    requires h <= |z.shape| && |z.shape| - h <= ar <= n + (|z.shape| - h) && InPlace(z, h)
    ensures CodeOrder(z, h, n, ar) == Order(z, h, n)
  {
    InPlaceIff(z, h, n);
    InPlaceIff(z, h, ar - (|z.shape| - h));
    hide Order;
  }

  lemma TurnIs(p: seq<nat>, j: nat)
    requires Permutes(p, |p|) && j < |p|
    ensures p[j] < |p| && Turn(p, p[j]) == j
  {
  }

  lemma {:induction false} SizeBig(s: seq<nat>)
    requires forall i :: 0 <= i < |s| ==> s[i] >= 2
    ensures Size(s) >= 1 && (s != [] ==> Size(s) >= 2)
  {
    if s != [] {
      var n := |s| - 1;
      SizeBig(s[..n]);
      CellsOfPrefix(s, s[..n], n);
      TimesMonotone(1, Size(s[..n]), s[n]);
    }
  }

  /** The axis that is last in one order only is farther apart in the other. */
  lemma LastDiffers(s: seq<nat>, p: seq<nat>, q: seq<nat>)
    requires Permutes(p, |s|) && Permutes(q, |s|) && (forall i :: 0 <= i < |s| ==> s[i] >= 2)
    requires s != [] && p[|s| - 1] != q[|s| - 1]
    ensures var y := q[|s| - 1]; y < |s| && Span(s, q, y) == 1 && Span(s, p, y) >= 2
  {
    var n := |s| - 1;
    var y := q[n];
    TurnIs(q, n);
    TurnIs(p, n);
    var t := Select(s, p);
    assert Select(s, q)[n + 1..] == [];
    EmptySize();
    SizeBig(t[Turn(p, y) + 1..]);
    hide Size, Permutes, Turn;
  }

  /** So is the axis that is first in one order only, in that one. */
  lemma FirstDiffers(s: seq<nat>, p: seq<nat>, q: seq<nat>)
    requires Permutes(p, |s|) && Permutes(q, |s|) && (forall i :: 0 <= i < |s| ==> s[i] >= 2)
    requires s != [] && p[0] != q[0]
    ensures q[0] < |s| && Span(s, q, q[0]) != Span(s, p, q[0])
  {
    hide *;
    PermutesIs(p, |s|);
    PermutesIs(q, |s|);
    var y := q[0];
    TurnIs(q, 0);
    var t, u, j := Select(s, p), Select(s, q), Turn(p, y);
    SizeReordered(s, p);
    SizeReordered(s, q);
    SpanIs(s, p, y);
    SpanIs(s, q, y);
    SizeBig(s);
    SizeBig(t[..j]);
    SizeJoin(t[..j], [s[y]] + t[j + 1..]);
    SizeJoin(u[..0], [s[y]] + u[1..]);
    SizeJoin([s[y]], t[j + 1..]);
    SizeJoin([s[y]], u[1..]);
    EmptySize();
    if Span(s, p, y) == Span(s, q, y) {
      var x := Size([s[y]]) * Span(s, p, y);
      TimesMonotone(2, Size(t[..j]), x);
    }
  }

  /** The last flag that is not set is last in the grade. */
  lemma LastClear(f: seq<bool>, i: nat)
    requires i < |f| && !f[i] && forall j :: i < j < |f| ==> f[j]
    ensures |DownGrade(f)| == |f| && DownGrade(f)[|f| - 1] == i
  {
    PlacesCount(f);
    var o := Places(f, false);
    LastIsMost(o, i);
    hide Places;
  }

  lemma {:induction false} FindClear(f: seq<bool>, n: nat) returns (i: nat)
    requires n <= |f| && (forall j :: n <= j < |f| ==> f[j]) && exists j :: 0 <= j < |f| && !f[j]
    ensures i < |f| && !f[i] && forall j :: i < j < |f| ==> f[j]
  {
    if f[n - 1] {
      i := FindClear(f, n - 1);
    } else {
      i := n - 1;
    }
  }

  /** If every axis has at least two indexes, the order for a replacement that is shorter is right exactly if
      nothing need be transposed. */
  lemma SpansIff<T>(z: Sparse<T>, h: nat, frame: seq<nat>, ar: nat)
    requires h <= |z.shape| && |z.shape| - h <= ar < |frame| + (|z.shape| - h)
    requires forall i :: 0 <= i < |NaturalShape(z, h, frame)| ==> NaturalShape(z, h, frame)[i] >= 2
    ensures var s, n := NaturalShape(z, h, frame), |frame|;
            SpansAgree(s, |s| - ar, CodeOrder(z, h, n, ar), Order(z, h, n)) <==> InPlace(z, h)
  {
    hide *;
    var s, n, c := NaturalShape(z, h, frame), |frame|, |z.shape| - h;
    var p, q := CodeOrder(z, h, n, ar), Order(z, h, n);
    if InPlace(z, h) {
      InPlaceKept(z, h, n, ar);
      SpansAgreeSame(s, |s| - ar, p);
    } else {
      SizeBig(s);
      var y: nat;
      if Order(z, h, ar - c) == Iota(ar) {
        y := FirstMoved(z, h, n, ar);
        FirstDiffers(s, p, q);
      } else {
        y := LastMoved(z, h, n, ar);
        LastDiffers(s, p, q);
      }
      if SpansAgree(s, |s| - ar, p, q) {
        SpansAgreeAt(s, |s| - ar, p, q, y);
      }
    }
  }

  lemma SpansAgreeSame(s: seq<nat>, m: nat, p: seq<nat>)
    requires Permutes(p, |s|)
    ensures SpansAgree(s, m, p, p)
  {
  }

  lemma LastMoved<T>(z: Sparse<T>, h: nat, n: nat, ar: nat) returns (y: nat)
    requires h <= |z.shape| && |z.shape| - h <= ar < n + (|z.shape| - h) && Order(z, h, ar - (|z.shape| - h)) != Iota(ar)
    ensures var d := n + (|z.shape| - h); |Order(z, h, n)| == d == |CodeOrder(z, h, n, ar)|
    ensures var d := n + (|z.shape| - h); d - ar <= y < d && Order(z, h, n)[d - 1] == y != CodeOrder(z, h, n, ar)[d - 1]
  {
    hide *;
    var c := |z.shape| - h;
    var g, d := ar - c, n + c;
    var f, f', b, on := Flags(z, h, g), Flags(z, h, n), AxisFlags(z)[h..], Indexed(z, h);
    OrderGrade(z, h, g);
    OrderGrade(z, h, n);
    GradeIota(f);
    var i := FindClear(f, |f|);
    y := i + n - g;
    LastKept(on, b, g, n, i);
    LastClear(f, i);
    LastClear(f', y);
    CodeOrderEnds(z, h, n, ar);
  }

  lemma OrderGrade<T>(z: Sparse<T>, h: nat, n: nat)
    requires h <= |z.shape|
    ensures Order(z, h, n) == DownGrade(Flags(z, h, n)) && Flags(z, h, n) == Filled(n, Indexed(z, h)) + AxisFlags(z)[h..]
  {
    hide DownGrade, Indexed;
  }

  lemma LastKept(on: bool, b: seq<bool>, g: nat, n: nat, i: nat)
    requires g <= n && i < g + |b|
    requires var f := Filled(g, on) + b; !f[i] && forall j :: i < j < |f| ==> f[j]
    ensures var f, k := Filled(n, on) + b, i + n - g; !f[k] && forall j :: k < j < |f| ==> f[j]
  {
    var f, f', k := Filled(g, on) + b, Filled(n, on) + b, i + n - g;
    assert g > 0 ==> f[g - 1] == on;
    assert i < g ==> f[i] == on;
    forall j | k < j < |f'| ensures f'[j] {
      assert f'[j] == f[j - n + g];
    }
  }

  lemma CodeOrderEnds<T>(z: Sparse<T>, h: nat, n: nat, ar: nat)
    requires h <= |z.shape| && |z.shape| - h <= ar < n + (|z.shape| - h)
    ensures var q, p := Order(z, h, ar - (|z.shape| - h)), CodeOrder(z, h, n, ar);
            && |q| == ar && |p| == n + (|z.shape| - h)
            && (q == Iota(ar) ==> p[0] == 0)
            && (q != Iota(ar) ==> ar > 0 && p[|p| - 1] == q[ar - 1])
  {
    hide *;
    var d, q := n + (|z.shape| - h), Order(z, h, ar - (|z.shape| - h));
    CodeOrderIs(z, h, n, ar);
    PermutesIs(q, ar);
    if q == Iota(ar) {
      PermutesIs(Iota(d), d);
    } else {
      FilledOutLong(q, d);
      assert ar == 0 ==> q == Iota(ar);
    }
  }

  lemma FirstMoved<T>(z: Sparse<T>, h: nat, n: nat, ar: nat) returns (y: nat)
    requires h <= |z.shape| && |z.shape| - h <= ar < n + (|z.shape| - h) && Order(z, h, ar - (|z.shape| - h)) == Iota(ar)
    requires !InPlace(z, h)
    ensures var d := n + (|z.shape| - h); |Order(z, h, n)| == d == |CodeOrder(z, h, n, ar)|
    ensures var d := n + (|z.shape| - h); d - ar <= y < d && Order(z, h, n)[0] == y != CodeOrder(z, h, n, ar)[0]
  {
    hide *;
    var c := |z.shape| - h;
    InPlaceIff(z, h, ar - c);
    assert ar == c;
    OrderGrade(z, h, 0);
    OrderGrade(z, h, n);
    GradeIota(Flags(z, h, 0));
    CodeOrderEnds(z, h, n, ar);
    assert Flags(z, h, 0) == AxisFlags(z)[h..];
    InPlaceNot(z, h);
    y := n;
    FirstSet(Flags(z, h, n), n);
  }

  lemma InPlaceNot<T>(z: Sparse<T>, h: nat)
    requires h <= |z.shape| && !InPlace(z, h)
    requires var b := AxisFlags(z)[h..]; forall i, j :: 0 <= i < j < |b| && b[j] ==> b[i]
    ensures !Indexed(z, h) && h < |z.shape| && AxisFlags(z)[h..][0]
  {
    var b := AxisFlags(z)[h..];
    var j :| 0 <= j < |b| && b[j];
    hide Indexed;
  }

  lemma FirstSet(f: seq<bool>, i: nat)
    requires i < |f| && f[i] && forall j :: 0 <= j < i ==> !f[j]
    ensures |DownGrade(f)| == |f| && DownGrade(f)[0] == i
  {
    PlacesCount(f);
    var o := Places(f, true);
    assert i in o;
    hide Places;
  }
}
