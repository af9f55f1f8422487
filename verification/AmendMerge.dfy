/** x m} y from shapes: the agreement check, the set-up of the axes, and the scatter. */
module AmendMerge {
  import opened Wrappers
  import opened Arith
  import opened AmendSpec
  import opened AmendOdometer
  import AmendMeaning

  datatype Outcome = Done | RankError | LengthError | SplitSelector

  /** The shape of the selected cells of the first n axes. */
  function Shapes(axes: seq<Axis>, n: nat): seq<nat>
    requires n <= |axes|
  {
    if n == 0 then [] else Shapes(axes, n - 1) + axes[n - 1].shape
  }

  ghost predicate IsSuffix<T>(x: seq<T>, s: seq<T>) {
    |x| <= |s| && x == s[|s| - |x|..]
  }

  /** x has more axes than s and c together, and ends in s before the axes that c is compared with. */
  ghost predicate Surplus<T>(x: seq<T>, s: seq<T>, c: seq<T>) {
    |x| > |s| + |c| && IsSuffix(s, x[..|x| - |c|])
  }

  /** An axis more on both sides. */
  lemma SurplusStep<T>(xs: seq<T>, ai: nat, s: seq<T>, t: seq<T>)
    requires ai <= |xs|
    ensures var len := if ai < |t| then ai else |t|;
            ai > |s + t| && IsSuffix(s + t, xs[..ai]) <==>
            xs[ai - len..ai] == t[|t| - len..] && ai - len > |s| && IsSuffix(s, xs[..ai - len])
  {
    if ai >= |t| {
      var k := ai - |t|;
      SuffixOfSum(s + t, xs[..k], xs[k..ai]);
      assert xs[..ai] == xs[..k] + xs[k..ai];
      assert (s + t)[|s|..] == t && (s + t)[..|s|] == s;
    }
  }

  lemma SurplusOfAxis(xs: seq<nat>, ai: nat, axes: seq<Axis>, wi: nat)
    requires ai <= |xs| && 0 < wi <= |axes|
    ensures var t := axes[wi - 1].shape;
            var len := if ai < |t| then ai else |t|;
            Surplus(xs[..ai], Shapes(axes, wi), []) <==>
            xs[ai - len..ai] == t[|t| - len..] && Surplus(xs[..ai - len], Shapes(axes, wi - 1), [])
  {
    var t := axes[wi - 1].shape;
    SurplusStep(xs, ai, Shapes(axes, wi - 1), t);
    SurplusAlone(xs[..ai], Shapes(axes, wi));
    SurplusAlone(xs[..ai - if ai < |t| then ai else |t|], Shapes(axes, wi - 1));
  }

  lemma SurplusAlone<T>(x: seq<T>, s: seq<T>)
    ensures Surplus(x, s, []) <==> |x| > |s| && IsSuffix(s, x)
  {
    assert x[..|x|] == x;
  }

  lemma SurplusOfCell<T>(x: seq<T>, s: seq<T>, c: seq<T>, compalen: nat)
    requires compalen == if |x| > |c| then |x| - |c| else 0
    ensures Surplus(x, s, c) <==> Surplus(x[..compalen], s, [])
  {
    SurplusAlone(x[..compalen], s);
  }

  lemma SuffixOfSum<T>(x: seq<T>, s: seq<T>, t: seq<T>)
    ensures IsSuffix(x, s + t) <==>
            if |x| <= |t| then IsSuffix(x, t) else x[|x| - |t|..] == t && IsSuffix(x[..|x| - |t|], s)
  {
    var u := s + t;
    if |x| <= |t| {
      assert u[|u| - |x|..] == t[|t| - |x|..];
    } else if |x| <= |u| {
      var k := |x| - |t|;
      assert u[|u| - |x|..] == s[|s| - k..] + t;
      assert x == x[..k] + x[k..];
    }
  }

  lemma SuffixStep<T>(xs: seq<T>, ai: nat, s: seq<T>, t: seq<T>)
    requires ai <= |xs|
    ensures var len := if ai < |t| then ai else |t|;
            IsSuffix(xs[..ai], s + t) <==> xs[ai - len..ai] == t[|t| - len..] && IsSuffix(xs[..ai - len], s)
  {
    var len := if ai < |t| then ai else |t|;
    SuffixOfSum(xs[..ai], s, t);
    assert xs[..ai][ai - len..] == xs[ai - len..ai];
    assert xs[..ai][..ai - len] == xs[..ai - len];
  }

  lemma SuffixOfAxis(xs: seq<nat>, ai: nat, axes: seq<Axis>, wi: nat)
    requires ai <= |xs| && 0 < wi <= |axes|
    ensures var t := axes[wi - 1].shape;
            var len := if ai < |t| then ai else |t|;
            IsSuffix(xs[..ai], Shapes(axes, wi)) <==>
            xs[ai - len..ai] == t[|t| - len..] && IsSuffix(xs[..ai - len], Shapes(axes, wi - 1))
  {
    SuffixStep(xs, ai, Shapes(axes, wi - 1), axes[wi - 1].shape);
  }

  lemma SuffixOfNothing<T>(x: seq<T>, s: seq<T>)
    ensures x == [] ==> IsSuffix(x, s)
    ensures s == [] && x != [] ==> !IsSuffix(x, s)
  {
  }

  lemma NoShapes(axes: seq<Axis>)
    ensures Shapes(axes, 0) == []
  {
  }

  /** What is left of x after the cell, and the axes it is checked against. */
  lemma SuffixOfCell(xs: seq<nat>, s: seq<nat>, cellShape: seq<nat>, compalen: nat)
    requires compalen == if |xs| > |cellShape| then |xs| - |cellShape| else 0
    ensures IsSuffix(xs, s + cellShape) <==>
            xs[compalen..] == cellShape[|cellShape| - (|xs| - compalen)..] && IsSuffix(xs[..compalen], s)
  {
    SuffixOfSum(xs, s, cellShape);
  }

  /** What there is to say of a shape x against s, compared from the end. */
  ghost function Says(x: seq<nat>, s: seq<nat>): Outcome {
    if IsSuffix(x, s) then Done else if Surplus(x, s, []) then RankError else LengthError
  }

  /** What there is to say of the first ai lengths of xs against the axes before wi. */
  ghost function SaysAt(xs: seq<nat>, ai: nat, axes: seq<Axis>, wi: nat): Outcome
    requires ai <= |xs| && wi <= |axes|
  {
    Says(xs[..ai], Shapes(axes, wi))
  }

  /** The lengths of xs before ai end like t, for so many lengths. */
  predicate EndsLike(xs: seq<nat>, ai: nat, t: seq<nat>, len: nat)
    requires len <= ai <= |xs| && len <= |t|
  {
    xs[ai - len..ai] == t[|t| - len..]
  }

  lemma SaysOfAxis(xs: seq<nat>, ai: nat, axes: seq<Axis>, wi: nat)
    requires ai <= |xs| && 0 < wi <= |axes|
    ensures var t := axes[wi - 1].shape;
            var len := if ai < |t| then ai else |t|;
            SaysAt(xs, ai, axes, wi) == if EndsLike(xs, ai, t, len) then SaysAt(xs, ai - len, axes, wi - 1) else LengthError
  {
    SuffixOfAxis(xs, ai, axes, wi);
    SurplusOfAxis(xs, ai, axes, wi);
    hide IsSuffix, Surplus, Shapes;
  }

  lemma SaysOfNothing(xs: seq<nat>, ai: nat, axes: seq<Axis>, wi: nat)
    requires ai <= |xs| && wi <= |axes|
    ensures ai == 0 ==> SaysAt(xs, ai, axes, wi) == Done
    ensures wi == 0 && ai != 0 ==> SaysAt(xs, ai, axes, wi) == RankError
  {
    NoShapes(axes);
    SuffixOfNothing(xs[..ai], Shapes(axes, wi));
    SurplusAlone(xs[..ai], Shapes(axes, wi));
    hide IsSuffix, Surplus, Shapes;
  }

  lemma SaysOfCell(xs: seq<nat>, axes: seq<Axis>, cellShape: seq<nat>, compalen: nat)
    requires compalen == if |xs| > |cellShape| then |xs| - |cellShape| else 0
    ensures var same, e := EndsLike(xs, |xs|, cellShape, |xs| - compalen), SaysAt(xs, compalen, axes, |axes|);
            && (IsSuffix(xs, Shapes(axes, |axes|) + cellShape) <==> same && e == Done)
            && (Surplus(xs, Shapes(axes, |axes|), cellShape) <==> e == RankError)
  {
    hide *;
    var s := Shapes(axes, |axes|);
    SaysIs(xs, compalen, axes, |axes|);
    EndOfCell(xs, s, cellShape, compalen);
    SurplusOfCell(xs, s, cellShape, compalen);
  }

  lemma SaysIs(xs: seq<nat>, ai: nat, axes: seq<Axis>, wi: nat)
    requires ai <= |xs| && wi <= |axes|
    ensures SaysAt(xs, ai, axes, wi) == Done <==> IsSuffix(xs[..ai], Shapes(axes, wi))
    ensures SaysAt(xs, ai, axes, wi) == RankError <==> Surplus(xs[..ai], Shapes(axes, wi), [])
  {
    NotBoth(xs[..ai], Shapes(axes, wi));
    hide IsSuffix, Surplus, Shapes;
  }

  lemma EndOfCell(xs: seq<nat>, s: seq<nat>, cellShape: seq<nat>, compalen: nat)
    requires compalen == if |xs| > |cellShape| then |xs| - |cellShape| else 0
    ensures IsSuffix(xs, s + cellShape) <==>
            EndsLike(xs, |xs|, cellShape, |xs| - compalen) && IsSuffix(xs[..compalen], s)
  {
    SuffixOfCell(xs, s, cellShape, compalen);
    ToTheEnd(xs, cellShape, compalen);
    hide *;
  }

  lemma ToTheEnd(xs: seq<nat>, t: seq<nat>, k: nat)
    requires k <= |xs| && |xs| - k <= |t|
    ensures EndsLike(xs, |xs|, t, |xs| - k) <==> xs[k..] == t[|t| - (|xs| - k)..]
  {
    assert xs[k..|xs|] == xs[k..];
  }

  lemma NotBoth(x: seq<nat>, s: seq<nat>)
    ensures !(IsSuffix(x, s) && Surplus(x, s, []))
  {
  }

  /** The check that the shape of x is a suffix of the shape of the selected cells. */
  method Agrees(xs: seq<nat>, axes: seq<Axis>, cellShape: seq<nat>) returns (e: Outcome)
    ensures e.Done? || e.RankError? || e.LengthError?
    ensures e.Done? <==> IsSuffix(xs, Shapes(axes, |axes|) + cellShape)
    ensures e.RankError? <==> Surplus(xs, Shapes(axes, |axes|), cellShape)
  {
    hide *;
    var compalen := if |xs| > |cellShape| then |xs| - |cellShape| else 0;
    SaysOfCell(xs, axes, cellShape, compalen);
    var ai, wi := compalen, |axes|;
    while ai > 0 && wi > 0
      invariant 0 <= ai <= compalen && 0 <= wi <= |axes|
      invariant SaysAt(xs, compalen, axes, |axes|) == SaysAt(xs, ai, axes, wi)
    {
      var inds := axes[wi - 1].shape;
      var aslen := if ai < |inds| then ai else |inds|;
      SaysOfAxis(xs, ai, axes, wi);
      if !EndsLike(xs, ai, inds, aslen) {
        return LengthError;
      }
      ai := ai - aslen;
      wi := wi - 1;
    }
    SaysOfNothing(xs, ai, axes, wi);
    if ai != 0 {
      return RankError;
    }
    if !EndsLike(xs, |xs|, cellShape, |xs| - compalen) {
      return LengthError;
    }
    e := Done;
  }

  // ---- Where x wraps.

  lemma {:induction false} ProductOfSum(s: seq<nat>, t: seq<nat>)
    ensures Product(s + t) == Product(s) * Product(t)
  {
    if t == [] {
      assert s + t == s;
    } else {
      var init := t[..|t| - 1];
      assert (s + t)[..|s + t| - 1] == s + init;
      ProductOfSum(s, init);
      TimesAssociative(Product(s), Product(init), t[|t| - 1]);
    }
  }

  lemma MaxIsProduct(x: Axis)
    requires x.Valid()
    ensures x.Max() == Product(x.shape)
  {
    if x.indexes == None {
      assert [x.len][..0] == [];
    }
  }

  ghost predicate Selecting(axes: seq<Axis>) {
    forall i :: 0 <= i < |axes| ==> axes[i].Valid() && axes[i].Max() > 0
  }

  /** x covers the shape t under the first n axes and everything under the axes from n on, p cells
      in all. */
  ghost predicate Covering(axes: seq<Axis>, t: seq<nat>, n: nat, p: nat) {
    n <= |axes| && IsSuffix(t, Shapes(axes, n)) && Product(t) > 0 && p == Product(t) * Combos(axes, n)
  }

  /** If x covers the whole shape of axis n-1, the axis can be taken along. */
  lemma TakeAxis(axes: seq<Axis>, t: seq<nat>, n: nat, p: nat)
    requires Selecting(axes) && n > 0 && Covering(axes, t, n, p) && |axes[n - 1].shape| <= |t|
    ensures Covering(axes, t[..|t| - |axes[n - 1].shape|], n - 1, p)
  {
    var s := axes[n - 1].shape;
    SuffixOfSum(t, Shapes(axes, n - 1), s);
    ProductOfTail(t, |t| - |s|, s);
    MaxIsProduct(axes[n - 1]);
    TimesAssociative(Product(t[..|t| - |s|]), Product(s), Combos(axes, n));
    hide Product, IsSuffix, Shapes;
  }

  /** Otherwise x ends inside the selector of axis n-1. */
  lemma InsideAxis(axes: seq<Axis>, t: seq<nat>, n: nat, p: nat)
    requires Selecting(axes) && n > 0 && Covering(axes, t, n, p) && |t| < |axes[n - 1].shape|
    ensures Combos(axes, n) <= p <= Combos(axes, n - 1)
  {
    var s := axes[n - 1].shape;
    var u := s[..|s| - |t|];
    SuffixOfSum(t, Shapes(axes, n - 1), s);
    assert s == u + t;
    MaxIsProduct(axes[n - 1]);
    ProductOfSum(u, t);
    hide Product, IsSuffix, Shapes;
    PositiveFactors(Product(u), Product(t));
    FactorBound(Product(t), Combos(axes, n));
    FactorBound(Product(u), p);
    TimesAssociative(Product(u), Product(t), Combos(axes, n));
  }

  lemma CoversNothing(axes: seq<Axis>, n: nat, p: nat)
    requires Covering(axes, [], n, p)
    ensures p == Combos(axes, n)
  {
  }

  lemma CoversSome(axes: seq<Axis>, t: seq<nat>, n: nat, p: nat)
    requires Covering(axes, t, n, p) && t != []
    ensures 0 < n <= |axes|
  {
  }

  /** The first axis, from the last, whose cells are as many as x has exactly as many, or x ends
      inside its selector, which is split. */
  lemma {:induction false} WrapOrSplit(axes: seq<Axis>, t: seq<nat>, n: nat, j: nat, p: nat)
    requires j < |axes| && Selecting(axes) && Covering(axes, t, n, p)
    requires Combos(axes, j + 1) < p <= Combos(axes, j)
    ensures Combos(axes, j) == p || |axes[j].shape| > 1
    decreases n
  {
    hide *;
    if t == [] {
      CoversNothing(axes, n, p);
      InRange(axes, t, n, p);
      CombosDecrease(axes, n, j);
    } else {
      CoversSome(axes, t, n, p);
      var s := axes[n - 1].shape;
      if |t| < |s| {
        InsideAxis(axes, t, n, p);
        if j < n - 1 {
          CombosMonotone(axes, j + 1, n - 1);
        } else if j > n - 1 {
          CombosMonotone(axes, n, j);
        }
      } else {
        TakeAxis(axes, t, n, p);
        WrapOrSplit(axes, t[..|t| - |s|], n - 1, j, p);
      }
    }
  }

  lemma InRange(axes: seq<Axis>, t: seq<nat>, n: nat, p: nat)
    requires Covering(axes, t, n, p)
    ensures n <= |axes|
  {
  }

  /** x is no larger than the selected cells together. */
  lemma {:induction false} FitsInAll(axes: seq<Axis>, t: seq<nat>, n: nat, p: nat)
    requires Selecting(axes) && Covering(axes, t, n, p)
    ensures p <= Combos(axes, 0)
    decreases n
  {
    hide *;
    if t == [] {
      CoversNothing(axes, n, p);
      InRange(axes, t, n, p);
      CombosMonotone(axes, 0, n);
    } else {
      CoversSome(axes, t, n, p);
      var s := axes[n - 1].shape;
      if |t| < |s| {
        InsideAxis(axes, t, n, p);
        CombosMonotone(axes, 0, n - 1);
      } else {
        TakeAxis(axes, t, n, p);
        FitsInAll(axes, t[..|t| - |s|], n - 1, p);
      }
    }
  }

  lemma ProductOfTail(t: seq<nat>, k: nat, s: seq<nat>)
    requires k <= |t| && t[k..] == s && Product(t) > 0
    ensures Product(t) == Product(t[..k]) * Product(s) && Product(t[..k]) > 0
  {
    assert t == t[..k] + s;
    ProductOfSum(t[..k], s);
    PositiveFactors(Product(t[..k]), Product(s));
  }

  lemma {:induction false} CombosMonotone(axes: seq<Axis>, i: nat, j: nat)
    requires i <= j <= |axes| && Selecting(axes)
    ensures Combos(axes, j) <= Combos(axes, i)
    decreases j - i
  {
    if i < j {
      CombosMonotone(axes, i + 1, j);
      FactorBound(axes[i].Max(), Combos(axes, i + 1));
    }
  }

  lemma CombosDecrease(axes: seq<Axis>, n: nat, j: nat)
    requires n <= |axes| && j < |axes| && Selecting(axes)
    requires Combos(axes, j + 1) < Combos(axes, n) <= Combos(axes, j)
    ensures Combos(axes, j) == Combos(axes, n)
  {
    if j + 1 <= n {
      CombosMonotone(axes, j + 1, n);
    } else {
      CombosMonotone(axes, n, j);
    }
  }

  /** The cells of x, from its shape: x is smaller than a cell of y, or a whole number of cells. */
  lemma CellsOfShape(xs: seq<nat>, axes: seq<Axis>, cellShape: seq<nat>) returns (t: seq<nat>)
    requires IsSuffix(xs, Shapes(axes, |axes|) + cellShape) && Product(xs) > 0 && Product(cellShape) > 0
    ensures Product(xs) <= Product(cellShape) ||
            (Covering(axes, t, |axes|, Product(t)) && Product(xs) == Product(t) * Product(cellShape))
  {
    SuffixOfSum(xs, Shapes(axes, |axes|), cellShape);
    t := [];
    if |xs| <= |cellShape| {
      var u := cellShape[..|cellShape| - |xs|];
      assert cellShape == u + xs;
      ProductOfSum(u, xs);
      PositiveFactors(Product(u), Product(xs));
      FactorBound(Product(u), Product(xs));
    } else {
      t := xs[..|xs| - |cellShape|];
      ProductOfTail(xs, |t|, cellShape);
    }
  }

  /** The axis after which x wraps: the first from the last under which there are as many cells as
      x has. */
  lemma WrapFits<T>(a: seq<T>, xs: seq<nat>, axes: seq<Axis>, cellShape: seq<nat>, j: nat) returns (m: Amend<T>)
    requires IsSuffix(xs, Shapes(axes, |axes|) + cellShape)
    requires |a| == Product(xs) > 0 && Product(cellShape) > 0
    requires Selecting(axes)
    requires |a| > Product(cellShape) ==>
               j < |axes|
               && Combos(axes, j + 1) * Product(cellShape) < |a| <= Combos(axes, j) * Product(cellShape)
    ensures m == Amend.Amend(axes, Product(cellShape), a, if |a| > Product(cellShape) then j else |axes|)
    ensures m.Valid() || (|a| > Product(cellShape) && |axes[j].shape| > 1)
  {
    var cs := Product(cellShape);
    var t := CellsOfShape(xs, axes, cellShape);
    m := Amend.Amend(axes, cs, a, if |a| > cs then j else |axes|);
    if |a| > cs {
      var p := Product(t);
      TimesCancel(Combos(axes, j + 1), p, cs);
      TimesCancel(Combos(axes, j), p, cs);
      WrapOrSplit(axes, t, |axes|, j, p);
    }
  }

  /** x ends in the middle of the selector of some axis that is a table or more. */
  ghost predicate SplitAt(axes: seq<Axis>, cellsize: nat, acatoms: nat, i: nat) {
    i < |axes| && |axes[i].shape| > 1 && Combos(axes, i + 1) * cellsize < acatoms < Combos(axes, i) * cellsize
  }

  ghost predicate SplitSomewhere(axes: seq<Axis>, cellsize: nat, acatoms: nat) {
    exists i: nat :: SplitAt(axes, cellsize, acatoms, i)
  }

  /** The set-up of the axes after axis i, from the last one up. */
  ghost predicate HalfSetUp(axes: seq<Axis>, cellsize: nat, acatoms: nat, i: nat, size: seq<nat>, resetadder: seq<int>,
                            prevsize: nat, ressize: nat, wrapped: bool, split: bool, wrap: nat) {
    && i < |axes| == |size| == |resetadder|
    && (forall k :: i < k < |axes| ==> size[k] == Stride(axes, cellsize, k))
    && prevsize == Stride(axes, cellsize, i)
    && ressize == Combos(axes, i + 1) * cellsize
    && (forall k :: i < k < |axes| ==> resetadder[k] == if wrapped && k == wrap then 0 - acatoms else 0)
    && (split ==> SplitSomewhere(axes, cellsize, acatoms))
    && (!wrapped ==> wrap == 0 && (ressize < acatoms || i == |axes| - 1))
    && (wrapped ==> i < wrap < |axes| && Wraps(axes, cellsize, acatoms, split, wrap))
    && (acatoms <= cellsize && i < |axes| - 1 && axes[|axes| - 1].Max() > 0 ==> wrapped && wrap == |axes| - 1)
  }

  /** x ends with the cell of axis wrap, or inside its selector, which was then found split. */
  ghost predicate Wraps(axes: seq<Axis>, cellsize: nat, acatoms: nat, split: bool, wrap: nat) {
    && wrap < |axes| && acatoms <= Combos(axes, wrap) * cellsize
    && (Combos(axes, wrap + 1) * cellsize < acatoms || wrap == |axes| - 1)
    && (acatoms > cellsize ==> split || |axes[wrap].shape| <= 1 || Combos(axes, wrap) * cellsize <= acatoms)
  }

  lemma SplitFound(axes: seq<Axis>, cellsize: nat, acatoms: nat, i: nat, ressize: nat)
    requires i < |axes| && ressize == Combos(axes, i + 1) * cellsize && (ressize < acatoms || i == |axes| - 1)
    ensures acatoms < axes[i].Max() * ressize && |axes[i].shape| > 1 && acatoms > cellsize ==>
              SplitSomewhere(axes, cellsize, acatoms)
  {
    TimesAssociative(axes[i].Max(), Combos(axes, i + 1), cellsize);
    if acatoms < axes[i].Max() * ressize && |axes[i].shape| > 1 && acatoms > cellsize {
      assert SplitAt(axes, cellsize, acatoms, i);
    }
  }

  lemma SetUpStep(axes: seq<Axis>, cellsize: nat, acatoms: nat, i: nat, size: seq<nat>, resetadder: seq<int>,
                  prevsize: nat, ressize: nat, wrapped: bool, split: bool, wrap: nat)
    requires cellsize > 0 && acatoms > 0 && i > 0
    requires HalfSetUp(axes, cellsize, acatoms, i, size, resetadder, prevsize, ressize, wrapped, split, wrap)
    ensures var next := axes[i].Max() * ressize;
            var split' := split || (!wrapped && acatoms < next && |axes[i].shape| > 1 && acatoms > cellsize);
            var here := !wrapped && next >= acatoms;
            next >= 0 && prevsize * axes[i].len >= 0 &&
            HalfSetUp(axes, cellsize, acatoms, i - 1, size[i := prevsize],
                      resetadder[i := if here then 0 - acatoms else 0],
                      prevsize * axes[i].len, next, wrapped || here, split', if here then i else wrap)
  {
    TimesAssociative(axes[i].Max(), Combos(axes, i + 1), cellsize);
    TimesMonotone(0, axes[i].Max(), ressize);
    TimesMonotone(0, axes[i].len, prevsize);
    if !wrapped {
      SplitFound(axes, cellsize, acatoms, i, ressize);
    }
    if i == |axes| - 1 && axes[i].Max() > 0 {
      FactorBound(axes[i].Max(), ressize);
    }
  }

  /** What the set-up has to deliver: strides, and resets that make x start over after axis wrap. */
  ghost predicate SetUpFor(axes: seq<Axis>, cellsize: nat, acatoms: nat, size: seq<nat>, resetadder: seq<int>,
                           split: bool, total: nat, wrap: nat) {
    && |axes| == |size| == |resetadder|
    && (forall k :: 0 <= k < |axes| ==> size[k] == Stride(axes, cellsize, k))
    && total == Combos(axes, 0) * cellsize
    && (split ==> SplitSomewhere(axes, cellsize, acatoms))
    && (total > 0 && acatoms <= cellsize ==> forall k :: 0 < k < |axes| ==> resetadder[k] == 0)
    && (total >= acatoms > cellsize ==>
          && Wraps(axes, cellsize, acatoms, split, wrap)
          && forall k :: 0 < k < |axes| ==> resetadder[k] == if k == wrap then 0 - acatoms else 0)
  }

  lemma SetUpDone(axes: seq<Axis>, cellsize: nat, acatoms: nat, size: seq<nat>, resetadder: seq<int>,
                  prevsize: nat, ressize: nat, wrapped: bool, split: bool, wrap: nat)
    requires cellsize > 0 && acatoms > 0 && |axes| > 1
    requires HalfSetUp(axes, cellsize, acatoms, 0, size, resetadder, prevsize, ressize, wrapped, split, wrap)
    ensures var total := axes[0].Max() * ressize;
            var split' := split || (!wrapped && acatoms < total && |axes[0].shape| > 1 && acatoms > cellsize);
            var n := |axes| - 1;
            total >= 0 &&
            SetUpFor(axes, cellsize, acatoms, size[0 := prevsize],
                     if acatoms <= cellsize then resetadder[n := resetadder[n] + acatoms] else resetadder,
                     split', total, wrap)
  {
    TimesAssociative(axes[0].Max(), Combos(axes, 1), cellsize);
    TimesMonotone(0, axes[0].Max(), ressize);
    if !wrapped {
      SplitFound(axes, cellsize, acatoms, 0, ressize);
    }
    var total := axes[0].Max() * ressize;
    if total > 0 {
      AllPositive(axes, cellsize);
    }
  }

  /** Set up the axes: the stride of each, and the amount added to the cursor into x when the axis
      is done.  wrap is the axis after which x starts over. */
  method SetUp(axes: seq<Axis>, cellsize: nat, acatoms: nat, size: array<nat>, resetadder: array<int>)
    returns (split: bool, total: nat, wrap: nat)
    requires |axes| > 1 && cellsize > 0 && acatoms > 0
    requires size.Length == resetadder.Length == |axes| && size as object != resetadder
    modifies size, resetadder
    ensures SetUpFor(axes, cellsize, acatoms, size[..], resetadder[..], split, total, wrap)
  {
    var prevsize, axisressize, wrapped, i := cellsize, cellsize, false, |axes| - 1;
    split := false;
    wrap := 0;
    while true
      invariant 0 <= i && 0 <= prevsize && 0 <= axisressize
      invariant HalfSetUp(axes, cellsize, acatoms, i, size[..], resetadder[..], prevsize, axisressize, wrapped, split, wrap)
      decreases i
    {
      if i > 0 {
        SetUpStep(axes, cellsize, acatoms, i, size[..], resetadder[..], prevsize, axisressize, wrapped, split, wrap);
      } else {
        SetUpDone(axes, cellsize, acatoms, size[..], resetadder[..], prevsize, axisressize, wrapped, split, wrap);
      }
      axisressize := axes[i].Max() * axisressize;
      size[i] := prevsize;
      if !wrapped && acatoms < axisressize && |axes[i].shape| > 1 && acatoms > cellsize {
        split := true;
      }
      if i == 0 { break; }
      prevsize := prevsize * axes[i].len;
      resetadder[i] := 0;
      if !wrapped && axisressize >= acatoms {
        resetadder[i] := 0 - acatoms;
        wrapped := true;
        wrap := i;
      }
      i := i - 1;
    }
    total := axisressize;
    if acatoms <= cellsize {
      resetadder[|axes| - 1] := resetadder[|axes| - 1] + acatoms;
    }
  }

  lemma AllPositive(axes: seq<Axis>, cellsize: nat)
    ensures Combos(axes, 0) * cellsize > 0 ==> forall i :: 0 <= i < |axes| ==> axes[i].Max() > 0
  {
    if Combos(axes, 0) * cellsize > 0 {
      PositiveFactors(Combos(axes, 0), cellsize);
      forall i | 0 <= i < |axes| ensures axes[i].Max() > 0 {
        PositiveFrom(axes, 0, i);
      }
    }
  }

  lemma {:induction false} PositiveFrom(axes: seq<Axis>, k: nat, i: nat)
    requires k <= i < |axes| && Combos(axes, k) > 0
    ensures axes[i].Max() > 0
    decreases i - k
  {
    PositiveFactors(axes[k].Max(), Combos(axes, k + 1));
    if k < i {
      PositiveFrom(axes, k + 1, i);
    }
  }

  lemma XFits(xs: seq<nat>, axes: seq<Axis>, cellShape: seq<nat>)
    requires Selecting(axes)
    requires IsSuffix(xs, Shapes(axes, |axes|) + cellShape) && Product(xs) > 0 && Product(cellShape) > 0
    ensures Product(xs) > Product(cellShape) ==> Product(xs) <= Combos(axes, 0) * Product(cellShape)
  {
    hide *;
    var t := CellsOfShape(xs, axes, cellShape);
    if Product(xs) > Product(cellShape) {
      FitsInAll(axes, t, |axes|, Product(t));
      TimesMonotone(Product(t), Combos(axes, 0), Product(cellShape));
    }
  }

  /** The amend that the axes were set up for. */
  lemma AmendOf<T>(a: seq<T>, xs: seq<nat>, axes: seq<Axis>, cellShape: seq<nat>,
                   size: seq<nat>, resetadder: seq<int>, total: nat, wrap: nat) returns (m: Amend<T>)
    requires |axes| > 1 && (forall i :: 0 <= i < |axes| ==> axes[i].Valid()) && total > 0
    requires IsSuffix(xs, Shapes(axes, |axes|) + cellShape) && |a| == Product(xs) > 0 && Product(cellShape) > 0
    requires SetUpFor(axes, Product(cellShape), |a|, size, resetadder, false, total, wrap)
    ensures m == Amend.Amend(axes, Product(cellShape), a, if |a| > Product(cellShape) then wrap else |axes|)
    ensures m.Valid() && forall i :: 0 < i < |axes| ==> resetadder[i] == Reset(m, i)
  {
    AllPositive(axes, Product(cellShape));
    XFits(xs, axes, cellShape);
    m := WrapFits(a, xs, axes, cellShape, wrap);
  }

  /** The first block starts at the base of the array in full. */
  lemma StartRunning<T>(m: Amend<T>, d: seq<nat>, bases: seq<nat>, z: seq<T>, base: nat)
    requires m.Valid() && |m.axes| > 1 && |d| == |bases| == |m.axes| && |z| == Span(m.axes, m.cellsize, 0)
    requires Odometer(m, d, bases, |m.axes| - 2) && forall i :: 0 <= i < |d| ==> d[i] == 0
    requires base == m.Base(|m.axes| - 2, bases[|m.axes| - 2], 0)
    ensures m.Cells() > 0 && Running(m, d, bases, z, 0, base, 0, m.Nest(z, 0, 0, 0))
  {
    m.CombosPositive(m.wrap);
    BasesInside(m, d, bases, |m.axes| - 2, |m.axes| - 2);
    Descend(m, d, bases, z, 0, 0, |m.axes| - 2);
    DoneOfZeros(m, d, 0, |m.axes| - 2);
  }

  /** Give the axes their first indexes and bases, and scatter. */
  method Start<T>(m: Amend<T>, z: array<T>, size: seq<nat>, resetadder: seq<int>, scan: array<nat>, bases: array<nat>)
    requires m.Valid() && |m.axes| > 1 && z.Length == Span(m.axes, m.cellsize, 0)
    requires |m.axes| == scan.Length == bases.Length == |size| == |resetadder| && scan != bases
    requires z as object != scan && z as object != bases
    requires forall i :: 0 <= i < |m.axes| ==> size[i] == Stride(m.axes, m.cellsize, i)
    requires forall i :: 0 < i < |m.axes| ==> resetadder[i] == Reset(m, i)
    requires bases[0] == 0 && forall i :: 0 <= i < scan.Length ==> scan[i] == 0
    modifies z, scan, bases
    ensures z[..] == m.Result(old(z[..]))
  {
    var base := Rebase(m, scan, bases, size, 0);
    StartRunning(m, scan[..], bases[..], z[..], base);
    Run(m, z, scan, bases, size, resetadder, base);
  }

  /** Set up the axes and scatter.  A selector that x ends inside of is reported and left alone. */
  method MergeCells<T>(z: array<T>, a: seq<T>, xs: seq<nat>, axes: seq<Axis>, cellShape: seq<nat>,
                       size: array<nat>, resetadder: array<int>)
    returns (e: Outcome, m: Amend<T>)
    requires |axes| > 1 && forall i :: 0 <= i < |axes| ==> axes[i].Valid()
    requires size.Length == resetadder.Length == |axes| && size as object != resetadder
    requires z as object != size && z as object != resetadder
    requires IsSuffix(xs, Shapes(axes, |axes|) + cellShape)
    requires z.Length == Span(axes, Product(cellShape), 0) && |a| == Product(xs) > 0 && Product(cellShape) > 0
    modifies z, size, resetadder
    ensures e.Done? || e.SplitSelector?
    ensures e.SplitSelector? <==> Combos(axes, 0) > 0 && SplitSomewhere(axes, Product(cellShape), |a|)
    ensures e.SplitSelector? || Combos(axes, 0) == 0 ==> z[..] == old(z[..])
    ensures e.Done? && Combos(axes, 0) > 0 ==>
              && m == Amend.Amend(axes, Product(cellShape), a, m.wrap) && m.Valid()
              && z[..] == m.Result(old(z[..]))
  {
    var cellsize := Product(cellShape);
    var split, total, wrap := SetUp(axes, cellsize, |a|, size, resetadder);
    TimesZero(Combos(axes, 0), cellsize);
    m := Amend.Amend(axes, cellsize, a, if |a| > cellsize then wrap else |axes|);
    if total == 0 {
      return Done, m;
    }
    if split {
      return SplitSelector, m;
    }
    ghost var fit := AmendOf(a, xs, axes, cellShape, size[..], resetadder[..], total, wrap);
    NotSplit(m);
    StartAll(m, z, size[..], resetadder[..]);
    e := Done;
  }

  /** If x covers whole cells of an axis, it does not end in the middle of one. */
  lemma NotSplit<T>(m: Amend<T>)
    requires m.Valid()
    ensures !SplitSomewhere(m.axes, m.cellsize, |m.a|)
  {
    if SplitSomewhere(m.axes, m.cellsize, |m.a|) {
      var i: nat :| SplitAt(m.axes, m.cellsize, |m.a|, i);
      if |m.a| >= m.cellsize {
        TimesCancel(Combos(m.axes, i + 1), Combos(m.axes, m.wrap), m.cellsize);
        TimesCancel(Combos(m.axes, m.wrap), Combos(m.axes, i), m.cellsize);
        if i + 1 <= m.wrap {
          CombosMonotone(m.axes, i + 1, m.wrap);
        } else {
          CombosMonotone(m.axes, m.wrap, i);
        }
      } else {
        m.CombosPositive(i + 1);
        FactorBound(Combos(m.axes, i + 1), m.cellsize);
      }
      assert false;
    }
  }

  method StartAll<T>(m: Amend<T>, z: array<T>, size: seq<nat>, resetadder: seq<int>)
    requires m.Valid() && |m.axes| > 1 && z.Length == Span(m.axes, m.cellsize, 0)
    requires |m.axes| == |size| == |resetadder|
    requires forall i :: 0 <= i < |m.axes| ==> size[i] == Stride(m.axes, m.cellsize, i)
    requires forall i :: 0 < i < |m.axes| ==> resetadder[i] == Reset(m, i)
    modifies z
    ensures z[..] == m.Result(old(z[..]))
  {
    var scan, bases := new nat[|m.axes|](_ => 0), new nat[|m.axes|](_ => 0);
    Start(m, z, size, resetadder, scan, bases);
  }

  /** x m} y in place in z, for at least two axes: check the shapes, then amend if there is
      anything to store. */
  method Merge<T>(z: array<T>, a: seq<T>, xs: seq<nat>, axes: seq<Axis>, cellShape: seq<nat>)
    returns (e: Outcome, m: Amend<T>)
    requires |axes| > 1 && forall i :: 0 <= i < |axes| ==> axes[i].Valid()
    requires z.Length == Span(axes, Product(cellShape), 0) && |a| == Product(xs)
    modifies z
    ensures e.RankError? || e.LengthError? <==> !IsSuffix(xs, Shapes(axes, |axes|) + cellShape)
    ensures e.RankError? <==> Surplus(xs, Shapes(axes, |axes|), cellShape)
    ensures e.SplitSelector? <==>
              && IsSuffix(xs, Shapes(axes, |axes|) + cellShape) && a != []
              && Product(cellShape) > 0 && Combos(axes, 0) > 0 && SplitSomewhere(axes, Product(cellShape), |a|)
    ensures !e.Done? || a == [] || Product(cellShape) == 0 || Combos(axes, 0) == 0 ==> z[..] == old(z[..])
    ensures e.Done? && a != [] && Product(cellShape) > 0 && Combos(axes, 0) > 0 ==>
              && m == Amend.Amend(axes, Product(cellShape), a, m.wrap) && m.Valid()
              && z[..] == m.Result(old(z[..]))
              && AmendMeaning.Amends(axes, Product(cellShape), a, old(z[..]), z[..])
  {
    ghost var w := z[..];
    m := Amend.Amend(axes, Product(cellShape), a, 0);
    e := Agrees(xs, axes, cellShape);
    if e.Done? && z.Length > 0 && |a| > 0 && Product(cellShape) > 0 {
      var size, resetadder := new nat[|axes|], new int[|axes|];
      e, m := MergeCells(z, a, xs, axes, cellShape, size, resetadder);
      if e.Done? && Combos(axes, 0) > 0 {
        AmendMeaning.SpanIs(axes, Product(cellShape));
        AmendMeaning.ResultAmends(m, w);
      }
    } else if z.Length == 0 {
      EmptyArray(axes, Product(cellShape), 0);
    }
  }

  lemma SelectsFrom(x: Axis)
    requires x.Valid()
    ensures x.Max() > 0 ==> x.len > 0
  {
    if x.indexes.Some? && x.Max() > 0 {
      assert x.indexes.value[0] < x.len;
    }
  }

  /** An empty array has an empty cell or nothing to select. */
  lemma {:induction false} EmptyArray(axes: seq<Axis>, cellsize: nat, i: nat)
    requires i < |axes| && forall k :: 0 <= k < |axes| ==> axes[k].Valid()
    requires Span(axes, cellsize, i) == 0
    ensures cellsize == 0 || Combos(axes, i) == 0
    decreases |axes| - i
  {
    TimesZero(Stride(axes, cellsize, i), axes[i].len);
    if axes[i].len == 0 {
      SelectsFrom(axes[i]);
    } else if i < |axes| - 1 {
      EmptyArray(axes, cellsize, i + 1);
    }
    TimesZero(axes[i].Max(), Combos(axes, i + 1));
  }
}
