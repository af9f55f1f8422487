/** The inverse of a verb inverts it. */
module InverseLaws {
  import opened Wrappers
  import opened Inverse

  /** Wherever v is defined, w takes its result back. */
  ghost predicate Undoes(w: Term, v: Term) {
    forall y: real :: Monad(v, y).Some? ==> Monad(w, Monad(v, y).value) == Some(y)
  }

  ghost predicate Inverses(v: Term, w: Term) {
    Undoes(w, v) && Undoes(v, w)
  }

  /** v is f g, g first. */
  ghost predicate IsComposition(v: Term, f: Term, g: Term) {
    forall y: real :: Monad(v, y) == Compose(f, g, y)
  }

  ghost predicate SameMonad(v: Term, w: Term) {
    forall y: real :: Monad(v, y) == Monad(w, y)
  }

  lemma CompositionUndone(v: Term, f: Term, g: Term, w: Term, gi: Term, fi: Term)
    requires IsComposition(v, f, g) && IsComposition(w, gi, fi) && Undoes(fi, f) && Undoes(gi, g)
    ensures Undoes(w, v)
  {
    forall y: real | Monad(v, y).Some? ensures Monad(w, Monad(v, y).value) == Some(y) {
      assert Monad(v, y) == Compose(f, g, y);
      ComposeIs(f, g, y);
      var u := Monad(g, y).value;
      var z := Monad(f, u).value;
      assert Monad(fi, z) == Some(u);
      assert Monad(gi, u) == Some(y);
      assert Monad(w, z) == Compose(gi, fi, z);
      ComposeIs(gi, fi, z);
    }
  }

  lemma ComposeIs(f: Term, g: Term, y: real)
    ensures Compose(f, g, y) == if Monad(g, y).Some? then Monad(f, Monad(g, y).value) else None
  {
  }

  lemma CompositionInverts(v: Term, f: Term, g: Term, w: Term, gi: Term, fi: Term)
    requires IsComposition(v, f, g) && IsComposition(w, gi, fi) && Inverses(f, fi) && Inverses(g, gi)
    ensures Inverses(v, w)
  {
    hide *;
    InversesIs(f, fi);
    InversesIs(g, gi);
    CompositionUndone(v, f, g, w, gi, fi);
    CompositionUndone(w, gi, fi, v, f, g);
    InversesIs(v, w);
  }

  lemma InversesIs(v: Term, w: Term)
    ensures Inverses(v, w) <==> Undoes(w, v) && Undoes(v, w)
    ensures Inverses(v, w) <==> Inverses(w, v)
  {
  }

  // ---- The simplified composition.

  lemma MonadCapped(g: Term, h: Term, y: real)
    ensures Monad(CappedFork(g, h), y) == Compose(g, h, y)
  {
  }

  lemma MonadNounFork(f: Term, g: Term, h: Term, y: real)
    requires f.IsNoun()
    ensures Monad(Fork(f, g, h), y) == if Monad(h, y).Some? then Bound(f, g, true, Monad(h, y).value) else None
  {
  }

  lemma FongIs(a: Term, w: Term)
    ensures match a
            case Prim(Left) => Fong(a, w) == w
            case Prim(Right) => Fong(a, w) == w
            case CappedFork(g, h) => Fong(a, w) == CappedFork(g, Fong(h, w))
            case Fork(f, g, h) => Fong(a, w) == if f.IsNoun() then Fork(f, g, Fong(h, w)) else CappedFork(a, w)
            case _ => Fong(a, w) == CappedFork(a, w)
  {
  }

  lemma MonadSame(y: real)
    ensures Monad(Prim(Left), y) == Some(y) && Monad(Prim(Right), y) == Some(y)
  {
  }

  lemma {:induction false} FongAt(a: Term, w: Term, y: real)
    ensures Monad(Fong(a, w), y) == Compose(a, w, y)
    decreases a
  {
    hide *;
    FongIs(a, w);
    ComposeIs(a, w, y);
    MonadCapped(a, w, y);
    if Monad(w, y).Some? {
      MonadSame(Monad(w, y).value);
    }
    match a
    case CappedFork(g, h) =>
      FongAt(h, w, y);
      MonadCapped(g, Fong(h, w), y);
      ComposeIs(g, Fong(h, w), y);
      ComposeIs(h, w, y);
      if Monad(w, y).Some? {
        MonadCapped(g, h, Monad(w, y).value);
        ComposeIs(g, h, Monad(w, y).value);
      }
    case Fork(f, g, h) =>
      if f.IsNoun() {
        FongAt(h, w, y);
        ComposeIs(h, w, y);
        MonadNounFork(f, g, Fong(h, w), y);
        if Monad(w, y).Some? {
          MonadNounFork(f, g, h, Monad(w, y).value);
        }
      }
    case _ =>
  }

  lemma FongComposes(a: Term, w: Term)
    ensures IsComposition(Fong(a, w), a, w)
  {
    forall y: real ensures Monad(Fong(a, w), y) == Compose(a, w, y) {
      FongAt(a, w, y);
    }
  }

  /** The fork made of m&v, or of v&n, is the same verb. */
  lemma AsForkSame(v: Term)
    ensures SameMonad(AsFork(v), v)
  {
  }

  // ---- A noun bound to a dyad.

  /** The noun is not zero where it multiplies or divides. */
  predicate SafeBound(m: Term, v: Term) {
    match v
    case Prim(Star) => m.Noun? && m.x != 0.0
    case Prim(Divide) => m.Noun? && m.x != 0.0
    case Tilde(u) => SafeBound(m, u)
    case _ => true
  }

  /** (1/m) m y is y. */
  lemma TimesBack(m: real, r: real, y: real, z: real)
    requires m != 0.0 && r == 1.0 / m
    ensures z == m * y ==> r * z == y
    ensures z == r * y ==> m * z == y
  {
    assert r * m == 1.0;
    assert r * (m * y) == (r * m) * y;
    assert m * (r * y) == (m * r) * y;
  }

  lemma QuotientIs(x: real, m: real, q: real)
    requires m != 0.0
    ensures q == x / m <==> q * m == x
  {
  }

  lemma DivideBack(m: real, y: real, z: real)
    requires m != 0.0
    ensures z == y / m ==> m * z == y
    ensures z == m * y ==> z / m == y
    ensures y != 0.0 && z == m / y ==> z != 0.0 && m / z == y
  {
    QuotientIs(y, m, z);
    QuotientIs(z, m, y);
    Commutes(m, y);
    Commutes(m, z);
    if y != 0.0 && z == m / y {
      QuotientIs(m, y, z);
      NotZero(z, y, m);
      QuotientIs(m, z, y);
      Commutes(y, z);
    }
  }

  lemma NotZero(z: real, y: real, m: real)
    requires z * y == m && m != 0.0
    ensures z != 0.0
  {
  }

  lemma LinearBack(c: real, d: real, r: real, n: real, y: real, z: real)
    requires d != 0.0 && r == 1.0 / d && n == r * (0.0 - c)
    ensures z == c + d * y ==> n + r * z == y
    ensures z == n + r * y ==> c + d * z == y
  {
    TimesBack(d, r, y, d * y);
    TimesBack(d, r, y, r * y);
    TimesBack(d, r, 0.0 - c, n);
    assert r * (c + d * y) == r * c + r * (d * y);
    assert r * (0.0 - c) == 0.0 - r * c;
    assert d * (n + r * y) == d * n + d * (r * y);
  }

  lemma BoundAmp(m: Term, v: Term, left: bool, y: real)
    requires m.IsNoun() && !v.IsNoun()
    ensures Monad(AmpOf(m, v, left), y) == Bound(m, v, left, y)
  {
  }

  /** What is to be shown of one argument. */
  ghost predicate BackAt(m: Term, v: Term, left: bool, w: Term, y: real) {
    && (Bound(m, v, left, y).Some? ==> Monad(w, Bound(m, v, left, y).value) == Some(y))
    && (Monad(w, y).Some? ==> Bound(m, v, left, Monad(w, y).value) == Some(y))
  }

  lemma SumBack(x: real, p: Primitive, left: bool, y: real)
    requires p in {Plus, Minus}
    ensures var r := InvAmp(Noun(x), Prim(p), left); r.Some? && BackAt(Noun(x), Prim(p), left, r.value, y)
  {
  }

  lemma Commutes(x: real, y: real)
    ensures x * y == y * x
  {
  }

  lemma TimesAt(x: real, left: bool, y: real)
    ensures var b := Bound(Noun(x), Prim(Star), left, y); b.Some? && b.value == x * y
    ensures var b := Monad(Amp(Noun(x), Prim(Star)), y); b.Some? && b.value == x * y
  {
    Commutes(x, y);
  }

  lemma StarBack(x: real, left: bool, y: real)
    requires x != 0.0
    ensures var r := InvAmp(Noun(x), Prim(Star), left); r.Some? && BackAt(Noun(x), Prim(Star), left, r.value, y)
  {
    var r := 1.0 / x;
    var w := Amp(Noun(r), Prim(Star));
    assert InvAmp(Noun(x), Prim(Star), left) == Some(w);
    hide Bound, Monad;
    TimesAt(x, left, y);
    TimesAt(r, left, y);
    var z, u := Bound(Noun(x), Prim(Star), left, y).value, Monad(w, y).value;
    TimesBack(x, r, y, z);
    TimesBack(x, r, y, u);
    TimesAt(r, left, z);
    TimesAt(x, left, u);
  }

  lemma LeftDivideBack(x: real, y: real)
    requires x != 0.0
    ensures var r := InvAmp(Noun(x), Prim(Divide), true); r.Some? && BackAt(Noun(x), Prim(Divide), true, r.value, y)
  {
    var z := if y != 0.0 then x / y else 0.0;
    DivideBack(x, y, z);
    assert Bound(Noun(x), Prim(Divide), true, y) == Quotient(x, y);
    assert Monad(Amp(Noun(x), Prim(Divide)), y) == Quotient(x, y);
  }

  lemma RightDivideAt(x: real, y: real)
    requires x != 0.0
    ensures var b := Bound(Noun(x), Prim(Divide), false, y); b.Some? && b.value == y / x
  {
  }

  lemma RightDivideBack(x: real, y: real)
    requires x != 0.0
    ensures var r := InvAmp(Noun(x), Prim(Divide), false); r.Some? && BackAt(Noun(x), Prim(Divide), false, r.value, y)
  {
    var w := Amp(Noun(x), Prim(Star));
    assert InvAmp(Noun(x), Prim(Divide), false) == Some(w);
    hide Bound, Monad;
    RightDivideAt(x, y);
    TimesAt(x, true, y);
    var z, u := Bound(Noun(x), Prim(Divide), false, y).value, Monad(w, y).value;
    DivideBack(x, y, z);
    DivideBack(x, y, u);
    TimesAt(x, true, z);
    RightDivideAt(x, u);
  }

  lemma PolynomialAt(c: real, d: real, y: real)
    ensures var b := Bound(Coefficients(c, d), Prim(Polynomial), true, y); b.Some? && b.value == c + d * y
    ensures var b := Monad(Amp(Coefficients(c, d), Prim(Polynomial)), y); b.Some? && b.value == c + d * y
  {
  }

  lemma PolynomialBack(c: real, d: real, y: real)
    requires d != 0.0
    ensures var r := InvAmp(Coefficients(c, d), Prim(Polynomial), true);
            r.Some? && BackAt(Coefficients(c, d), Prim(Polynomial), true, r.value, y)
  {
    var m, v := Coefficients(c, d), Prim(Polynomial);
    var w := InvAmp(m, v, true).value;
    var n, r := w.f.head, w.f.tail;
    hide Bound, Monad;
    PolynomialAt(c, d, y);
    PolynomialAt(n, r, y);
    var z, u := Bound(m, v, true, y).value, Monad(w, y).value;
    LinearBack(c, d, r, n, y, z);
    LinearBack(c, d, r, n, y, u);
    PolynomialAt(n, r, z);
    PolynomialAt(c, d, u);
  }

  /** The nouns and dyads that have an inverse. */
  lemma InvAmpHas(m: Term, v: Term, left: bool)
    requires m.IsNoun() && InvAmp(m, v, left).Some? && SafeBound(m, v)
    ensures match v
            case Tilde(u) => InvAmp(m, u, !left) == InvAmp(m, v, left) && SafeBound(m, u)
            case Prim(p) =>
              || (p in {Plus, Minus, Star, Divide} && m.Noun? && (p in {Star, Divide} ==> m.x != 0.0))
              || (p == Polynomial && left && m.Coefficients? && m.tail != 0.0)
            case _ => false
  {
  }

  lemma BackTurned(m: Term, u: Term, left: bool, w: Term, y: real)
    requires BackAt(m, u, !left, w, y)
    ensures BackAt(m, Tilde(u), left, w, y)
  {
  }

  lemma {:induction false} BoundUndone(m: Term, v: Term, left: bool, y: real)
    requires m.IsNoun() && InvAmp(m, v, left).Some? && SafeBound(m, v)
    ensures BackAt(m, v, left, InvAmp(m, v, left).value, y)
    decreases v
  {
    hide *;
    InvAmpHas(m, v, left);
    match v
    case Tilde(u) =>
      BoundUndone(m, u, !left, y);
      BackTurned(m, u, left, InvAmp(m, v, left).value, y);
    case Prim(p) =>
      if p in {Plus, Minus} {
        SumBack(m.x, p, left, y);
      } else if p == Star {
        StarBack(m.x, left, y);
      } else if p == Divide && left {
        LeftDivideBack(m.x, y);
      } else if p == Divide {
        RightDivideBack(m.x, y);
      } else {
        PolynomialBack(m.head, m.tail, y);
      }
  }

  lemma BoundInverts(m: Term, v: Term, left: bool)
    requires m.IsNoun() && InvAmp(m, v, left).Some? && SafeBound(m, v)
    ensures !v.IsNoun() && Inverses(AmpOf(m, v, left), InvAmp(m, v, left).value)
  {
    var a, w := AmpOf(m, v, left), InvAmp(m, v, left).value;
    assert !v.IsNoun();
    hide Monad, Bound, InvAmp, AmpOf, SafeBound;
    forall y: real
      ensures Monad(a, y).Some? ==> Monad(w, Monad(a, y).value) == Some(y)
      ensures Monad(w, y).Some? ==> Monad(a, Monad(w, y).value) == Some(y)
    {
      BoundUndone(m, v, left, y);
      BoundAmp(m, v, left, y);
      if Monad(w, y).Some? {
        BoundAmp(m, v, left, Monad(w, y).value);
      }
    }
  }

  /** When the inverse of an arithmetic verb bound to an atom undoes it: unless the atom is a zero
      that multiplies, or that is divided. */
  lemma BoundUndoneIff(x: real, p: Primitive, left: bool)
    requires p in {Plus, Minus, Star, Divide}
    ensures InvAmp(Noun(x), Prim(p), left).Some?
    ensures Undoes(InvAmp(Noun(x), Prim(p), left).value, AmpOf(Noun(x), Prim(p), left)) <==>
            !(x == 0.0 && (p == Star || (p == Divide && left)))
  {
    var m, v := Noun(x), Prim(p);
    var a, w := AmpOf(m, v, left), InvAmp(m, v, left).value;
    if x != 0.0 || p in {Plus, Minus} {
      BoundInverts(m, v, left);
    } else if p == Star || left {
      ZeroExample(p, left);
    } else {
      assert forall y: real :: Monad(a, y) == Quotient(y, 0.0);
      assert forall z: real :: Monad(w, z) == Some(0.0 * z);
    }
  }

  /** 0&* takes 1 to 0, and its inverse, infinity times, takes 0 to 0; 0&% is its own inverse, and
      takes 1 to 0 and 0 to 0. */
  lemma ZeroExample(p: Primitive, left: bool)
    requires p == Star || (p == Divide && left)
    ensures var a, w := AmpOf(Noun(0.0), Prim(p), left), InvAmp(Noun(0.0), Prim(p), left).value;
            Monad(a, 1.0) == Some(0.0) && Monad(w, 0.0) == Some(0.0) && !Undoes(w, a)
  {
    var a, w := AmpOf(Noun(0.0), Prim(p), left), InvAmp(Noun(0.0), Prim(p), left).value;
    assert Monad(a, 1.0) == Some(0.0);
  }

  // ---- Forks with a constant tine.

  /** A constant function has its value at 0 everywhere. */
  lemma {:induction false} ConstantEverywhere(v: Term, y: real)
    requires IsConstant(v)
    ensures Monad(v, y) == ConstantValue(v)
  {
    match v
    case Constant(c) =>
    case Fork(f, g, h) =>
      ConstantEverywhere(f, y);
      ConstantEverywhere(h, y);
  }

  lemma {:induction false} BoundIsDyad(x: real, v: Term, left: bool, y: real)
    ensures Bound(Noun(x), v, left, y) == if left then Dyad(v, x, y) else Dyad(v, y, x)
    decreases v
  {
    match v
    case Tilde(u) => BoundIsDyad(x, u, !left, y);
    case _ =>
  }

  /** The noun that the constant tine of a fork stands for, if it has one. */
  function ForkNoun(f: Term, h: Term): Option<Term> {
    if f.IsNoun() then Some(f) else if IsConstant(f) then AsNoun(ConstantValue(f))
    else if IsConstant(h) then AsNoun(ConstantValue(h)) else None
  }

  /** Such a fork applies the other tine, and then the noun bound to the middle verb. */
  lemma ForkComposes(f: Term, g: Term, h: Term, b: bool)
    requires b == (f.IsNoun() || IsConstant(f)) && b != IsConstant(h) && !g.IsNoun()
    requires ForkNoun(f, h).Some?
    ensures IsComposition(Fork(f, g, h), AmpOf(ForkNoun(f, h).value, g, b), if b then h else f)
  {
    var k, u := ForkNoun(f, h).value, if b then h else f;
    forall y: real ensures Monad(Fork(f, g, h), y) == Compose(AmpOf(k, g, b), u, y) {
      ForkAt(f, g, h, b, y);
    }
  }

  lemma ForkAt(f: Term, g: Term, h: Term, b: bool, y: real)
    requires b == (f.IsNoun() || IsConstant(f)) && b != IsConstant(h) && !g.IsNoun()
    requires ForkNoun(f, h).Some?
    ensures Monad(Fork(f, g, h), y) == Compose(AmpOf(ForkNoun(f, h).value, g, b), if b then h else f, y)
  {
    var k, u := ForkNoun(f, h).value, if b then h else f;
    ComposeIs(AmpOf(k, g, b), u, y);
    if IsConstant(f) {
      ConstantEverywhere(f, y);
    }
    if IsConstant(h) {
      ConstantEverywhere(h, y);
    }
    if Monad(u, y).Some? {
      BoundAmp(k, g, b, Monad(u, y).value);
      if k.Noun? {
        BoundIsDyad(k.x, g, b, Monad(u, y).value);
      }
    }
  }

  // ---- Powers.

  lemma {:induction false} RepeatInner(f: Term, n: nat, y: real)
    requires n > 0
    ensures Repeat(f, n, y) == if Monad(f, y).Some? then Repeat(f, n - 1, Monad(f, y).value) else None
  {
    if n > 1 {
      RepeatInner(f, n - 1, y);
    } else {
      assert Repeat(f, 0, y) == Some(y);
    }
  }

  lemma {:induction false} RepeatUndone(a: Term, b: Term, n: nat, y: real)
    requires Undoes(b, a)
    ensures Repeat(a, n, y).Some? ==> Repeat(b, n, Repeat(a, n, y).value) == Some(y)
  {
    if n > 0 && Repeat(a, n, y).Some? {
      var u := Repeat(a, n - 1, y).value;
      var z := Repeat(a, n, y).value;
      RepeatUndone(a, b, n - 1, y);
      assert Monad(a, u) == Some(z);
      RepeatInner(b, n, z);
    }
  }

  ghost predicate IsRepeat(v: Term, f: Term, n: nat) {
    forall y: real :: Monad(v, y) == Repeat(f, n, y)
  }

  lemma RepeatInverts(v: Term, a: Term, w: Term, b: Term, n: nat)
    requires IsRepeat(v, a, n) && IsRepeat(w, b, n) && Inverses(a, b)
    ensures Inverses(v, w)
  {
    hide *;
    InversesIs(a, b);
    RepeatsUndone(v, a, w, b, n);
    RepeatsUndone(w, b, v, a, n);
    InversesIs(v, w);
  }

  lemma RepeatsUndone(v: Term, a: Term, w: Term, b: Term, n: nat)
    requires IsRepeat(v, a, n) && IsRepeat(w, b, n) && Undoes(b, a)
    ensures Undoes(w, v)
  {
    hide Monad, Repeat;
    forall y: real | Monad(v, y).Some? ensures Monad(w, Monad(v, y).value) == Some(y) {
      RepeatUndone(a, b, n, y);
      assert Monad(v, y) == Repeat(a, n, y);
      assert Monad(w, Monad(v, y).value) == Repeat(b, n, Monad(v, y).value);
    }
  }

  lemma RepeatOnce(f: Term)
    ensures IsRepeat(f, f, 1)
  {
    forall y: real ensures Monad(f, y) == Repeat(f, 1, y) {
      assert Repeat(f, 0, y) == Some(y);
    }
  }

  // ---- Under.

  lemma UnderAt(f: Term, g: Term, y: real)
    ensures var gi, z := Inv(g), Compose(f, g, y);
            Monad(Under(f, g), y) == if gi.Some? && z.Some? then Monad(gi.value, z.value) else None
  {
  }

  lemma UnderUndone(f: Term, fi: Term, g: Term)
    requires Undoes(fi, f) && (Inv(g).Some? ==> Inverses(g, Inv(g).value))
    ensures Undoes(Under(fi, g), Under(f, g))
  {
    var v, w := Under(f, g), Under(fi, g);
    forall y: real | Monad(v, y).Some? ensures Monad(w, Monad(v, y).value) == Some(y) {
      UnderAt(f, g, y);
      ComposeIs(f, g, y);
      var gi := Inv(g).value;
      var a := Monad(g, y).value;
      var b := Monad(f, a).value;
      var z := Monad(gi, b).value;
      assert Monad(g, z) == Some(b);
      assert Monad(fi, b) == Some(a);
      assert Monad(gi, a) == Some(y);
      UnderAt(fi, g, z);
      ComposeIs(fi, g, z);
      hide *;
    }
  }

  // ---- The theorem.

  /** No zero multiplies or divides, and every negative power is of a verb that has an inverse. */
  predicate Safe(v: Term) {
    match v
    case Amp(f, g) =>
      if f.IsNoun() && !g.IsNoun() then SafeBound(f, g)
      else if g.IsNoun() && !f.IsNoun() then SafeBound(g, f)
      else Safe(f) && Safe(g)
    case Atop(f, g) => Safe(f) && Safe(g)
    case AtopCo(f, g) => Safe(f) && Safe(g)
    case AmpCo(f, g) => Safe(f) && Safe(g)
    case Under(f, g) => Safe(f) && Safe(g)
    case Power(f, n) => Safe(f) && (n < 0 ==> Inv(f).Some?)
    case CappedFork(g, h) => Safe(g) && Safe(h)
    case Fork(f, g, h) =>
      && (ForkNoun(f, h).Some? ==> SafeBound(ForkNoun(f, h).value, g))
      && Safe(if f.IsNoun() || IsConstant(f) then h else f)
    case _ => true
  }

  /** A double negative power of a verb without inverse applies the verb, but its inverse is the
      negative power, which has no value: the verb here is the sign. */
  lemma NoInverseExample()
    ensures var u := Power(Prim(Star), -1);
            && Inv(Power(u, -1)) == Some(u)
            && Monad(Power(u, -1), 5.0) == Some(1.0) && Monad(u, 1.0) == None
            && !Undoes(u, Power(u, -1))
  {
    var u := Power(Prim(Star), -1);
    assert Inv(Prim(Star)) == None;
    assert Repeat(Prim(Star), 0, 5.0) == Some(5.0);
    assert Repeat(Prim(Star), 1, 5.0) == Some(1.0);
    assert Monad(Power(u, -1), 5.0) == Repeat(Prim(Star), 1, 5.0);
  }

  /** The two verbs that v composes, if that is what it does. */
  function Composed(v: Term): Option<(Term, Term)> {
    match v
    case Amp(f, g) => if !f.IsNoun() && !g.IsNoun() then Some((f, g)) else None
    case Atop(f, g) => Some((f, g))
    case AtopCo(f, g) => Some((f, g))
    case AmpCo(f, g) => Some((f, g))
    case CappedFork(g, h) => Some((g, h))
    case _ => None
  }

  lemma ComposedIs(v: Term)
    requires Composed(v).Some?
    ensures IsComposition(v, Composed(v).value.0, Composed(v).value.1)
  {
  }

  lemma AtopIs(f: Term, g: Term)
    ensures IsComposition(Atop(f, g), f, g) && IsComposition(AtopCo(f, g), f, g)
  {
  }

  lemma InvComposed(v: Term)
    requires Composed(v).Some? && Inv(v).Some? && Safe(v)
    ensures var (f, g) := Composed(v).value;
            && Inv(f).Some? && Inv(g).Some? && Safe(f) && Safe(g)
            && var gi, fi := Inv(g).value, Inv(f).value;
               Inv(v).value in {Atop(gi, fi), AtopCo(gi, fi), Fong(gi, fi)}
  {
  }

  lemma InvOther(v: Term)
    requires Composed(v).None? && Inv(v).Some? && Safe(v)
    ensures match v
            case Prim(p) => Simple(p) == Inv(v)
            case Amp(f, g) =>
              || (f.IsNoun() && InvAmp(f, g, true) == Inv(v) && SafeBound(f, g))
              || (g.IsNoun() && !f.IsNoun() && InvAmp(g, f, false) == Inv(v) && SafeBound(g, f))
            case Under(f, g) => Inv(f).Some? && Inv(v).value == Under(Inv(f).value, g) && Safe(f) && Safe(g)
            case Power(f, n) => true
            case Tilde(f) => f == Prim(Plus) && Inv(v).value == Prim(Halve)
            case Fork(f, g, h) => true
            case _ => false
  {
  }

  lemma TildeInverts()
    ensures Inverses(Tilde(Prim(Plus)), Prim(Halve))
  {
    var v, w := Tilde(Prim(Plus)), Prim(Halve);
    forall y: real
      ensures Monad(v, y).Some? ==> Monad(w, Monad(v, y).value) == Some(y)
      ensures Monad(w, y).Some? ==> Monad(v, Monad(w, y).value) == Some(y)
    {
      assert Monad(v, y) == Some(y + y) && Monad(w, y) == Some(y / 2.0);
      assert Monad(w, y + y) == Some((y + y) / 2.0);
      assert Monad(v, y / 2.0) == Some(y / 2.0 + y / 2.0);
    }
  }

  /** Whenever a verb has an inverse, each undoes the other. */
  lemma {:induction false} InvInverts(v: Term)
    requires Inv(v).Some? && Safe(v)
    ensures Inverses(v, Inv(v).value)
    decreases v, 1
  {
    hide *;
    if Composed(v).Some? {
      InvComposedInverts(v);
    } else {
      InvOther(v);
      match v
      case Prim(p) => SimpleInverts(p);
      case Amp(f, g) =>
        AmpIs(f, g);
        if f.IsNoun() {
          BoundInverts(f, g, true);
        } else {
          BoundInverts(g, f, false);
        }
      case Under(f, g) => UnderInverts(f, g);
      case Power(f, n) => PowerInverts(f, n);
      case Tilde(f) => TildeInverts();
      case Fork(f, g, h) => ForkInverts(f, g, h);
    }
  }

  lemma AmpIs(f: Term, g: Term)
    ensures AmpOf(f, g, true) == Amp(f, g) == AmpOf(g, f, false)
  {
  }

  lemma {:induction false} InvComposedInverts(v: Term)
    requires Composed(v).Some? && Inv(v).Some? && Safe(v)
    ensures Inverses(v, Inv(v).value)
    decreases v, 0
  {
    var (f, g) := Composed(v).value;
    ComposedSmaller(v);
    hide *;
    InvComposed(v);
    InvInverts(f);
    InvInverts(g);
    var gi, fi := Inv(g).value, Inv(f).value;
    ComposedIs(v);
    AtopIs(gi, fi);
    FongComposes(gi, fi);
    CompositionInverts(v, f, g, Inv(v).value, gi, fi);
  }

  lemma ComposedSmaller(v: Term)
    requires Composed(v).Some?
    ensures Composed(v).value.0 < v && Composed(v).value.1 < v
  {
  }

  lemma {:induction false} UnderInverts(f: Term, g: Term)
    requires Inv(f).Some? && Safe(f) && Safe(g)
    ensures Inverses(Under(f, g), Under(Inv(f).value, g))
    decreases Under(f, g), 0
  {
    hide *;
    InvInverts(f);
    if Inv(g).Some? {
      InvInverts(g);
    }
    InversesIs(f, Inv(f).value);
    UnderUndone(f, Inv(f).value, g);
    UnderUndone(Inv(f).value, f, g);
    InversesIs(Under(f, g), Under(Inv(f).value, g));
  }

  lemma SimpleInverts(p: Primitive)
    requires Simple(p).Some?
    ensures Inverses(Prim(p), Simple(p).value)
  {
    forall y: real
      ensures Monad(Prim(p), y).Some? ==> Monad(Simple(p).value, Monad(Prim(p), y).value) == Some(y)
      ensures Monad(Simple(p).value, y).Some? ==> Monad(Prim(p), Monad(Simple(p).value, y).value) == Some(y)
    {
      if p == Divide && y != 0.0 {
        DivideBack(1.0, y, 1.0 / y);
      }
    }
  }

  lemma PowerIs(f: Term, n: int)
    requires Inv(Power(f, n)).Some? && Safe(Power(f, n))
    ensures Safe(f) && Inv(f).Some?
    ensures n >= 0 ==> IsRepeat(Power(f, n), f, n)
    ensures n < 0 ==> IsRepeat(Power(f, n), Inv(f).value, -n)
    ensures Inv(Power(f, n)).value ==
            if n == -1 then f else if n == 1 then Inv(f).value
            else if n < 0 then Power(f, -n) else Power(Inv(f).value, n)
  {
  }

  lemma PowerRepeats(f: Term, n: nat)
    ensures IsRepeat(Power(f, n), f, n)
  {
  }

  lemma {:induction false} PowerInverts(f: Term, n: int)
    requires Inv(Power(f, n)).Some? && Safe(Power(f, n))
    ensures Inverses(Power(f, n), Inv(Power(f, n)).value)
    decreases Power(f, n), 0
  {
    hide *;
    PowerIs(f, n);
    InvInverts(f);
    var v, w, fi := Power(f, n), Inv(Power(f, n)).value, Inv(f).value;
    InversesIs(f, fi);
    if n == -1 {
      RepeatOnce(f);
      RepeatInverts(v, fi, w, f, 1);
    } else if n == 1 {
      RepeatOnce(fi);
      RepeatInverts(v, f, w, fi, 1);
    } else if n < 0 {
      PowerRepeats(f, -n);
      RepeatInverts(v, fi, w, f, -n);
    } else {
      PowerRepeats(fi, n);
      RepeatInverts(v, f, w, fi, n);
    }
  }

  lemma ForkIs(f: Term, g: Term, h: Term)
    requires Inv(Fork(f, g, h)).Some? && Safe(Fork(f, g, h))
    ensures var b := f.IsNoun() || IsConstant(f);
            var u, k := if b then h else f, ForkNoun(f, h);
            && b != IsConstant(h) && k.Some? && k.value.IsNoun() && SafeBound(k.value, g)
            && Safe(u) && Inv(u).Some? && InvAmp(k.value, g, b).Some?
            && Inv(Fork(f, g, h)).value == Fong(Inv(u).value, AsFork(InvAmp(k.value, g, b).value))
  {
  }

  lemma {:induction false} ForkInverts(f: Term, g: Term, h: Term)
    requires Inv(Fork(f, g, h)).Some? && Safe(Fork(f, g, h))
    ensures Inverses(Fork(f, g, h), Inv(Fork(f, g, h)).value)
    decreases Fork(f, g, h), 0
  {
    hide *;
    ForkIs(f, g, h);
    var b := f.IsNoun() || IsConstant(f);
    var v, u, k := Fork(f, g, h), if b then h else f, ForkNoun(f, h).value;
    InvInverts(u);
    var gi := InvAmp(k, g, b).value;
    BoundInverts(k, g, b);
    AsForkSame(gi);
    SameInverts(AmpOf(k, g, b), gi, AsFork(gi));
    ForkComposes(f, g, h, b);
    FongComposes(Inv(u).value, AsFork(gi));
    CompositionInverts(v, AmpOf(k, g, b), u, Fong(Inv(u).value, AsFork(gi)), Inv(u).value, AsFork(gi));
  }

  lemma SameInverts(v: Term, w: Term, w': Term)
    requires Inverses(v, w) && SameMonad(w', w)
    ensures Inverses(v, w')
  {
    hide *;
    InversesIs(v, w);
    SameUndoes(v, w, w');
    InversesIs(v, w');
  }

  /** w takes the result for y back. */
  ghost predicate UndoneAt(w: Term, v: Term, y: real) {
    Monad(v, y).Some? ==> Monad(w, Monad(v, y).value) == Some(y)
  }

  lemma UndoesIff(w: Term, v: Term)
    ensures Undoes(w, v) <==> forall y: real :: UndoneAt(w, v, y)
  {
    hide Monad;
    if forall y: real :: UndoneAt(w, v, y) {
      forall y: real | Monad(v, y).Some? ensures Monad(w, Monad(v, y).value) == Some(y) {
        assert UndoneAt(w, v, y);
      }
    }
  }

  lemma SameUndoneAt(v: Term, w: Term, w': Term, y: real)
    requires SameMonad(w', w)
    ensures UndoneAt(w, v, y) ==> UndoneAt(w', v, y)
    ensures UndoneAt(v, w, y) ==> UndoneAt(v, w', y)
  {
    hide Monad;
  }

  lemma SameUndoes(v: Term, w: Term, w': Term)
    requires SameMonad(w', w)
    ensures Undoes(w, v) ==> Undoes(w', v)
    ensures Undoes(v, w) ==> Undoes(v, w')
  {
    hide *;
    UndoesIff(w, v);
    UndoesIff(w', v);
    UndoesIff(v, w);
    UndoesIff(v, w');
    forall y: real
      ensures UndoneAt(w, v, y) ==> UndoneAt(w', v, y)
      ensures UndoneAt(v, w, y) ==> UndoneAt(v, w', y)
    {
      SameUndoneAt(v, w, w', y);
    }
  }

  // ---- Negative powers.

  lemma {:induction false} RepeatSum(f: Term, m: nat, n: nat, y: real)
    ensures Repeat(f, m + n, y) == if Repeat(f, m, y).Some? then Repeat(f, n, Repeat(f, m, y).value) else None
  {
    if n > 0 {
      RepeatSum(f, m, n - 1, y);
    }
  }

  lemma {:induction false} RepeatTimes(f: Term, g: Term, m: nat, n: nat, y: real)
    requires IsRepeat(g, f, m)
    ensures m * n >= 0 && Repeat(g, n, y) == Repeat(f, m * n, y)
  {
    if n > 0 {
      RepeatTimes(f, g, m, n - 1, y);
      TimesNext(m, n);
      RepeatSum(f, m * (n - 1), m, y);
      if Repeat(g, n - 1, y).Some? {
        assert Monad(g, Repeat(g, n - 1, y).value) == Repeat(f, m, Repeat(g, n - 1, y).value);
      }
    }
  }

  lemma TimesNext(m: nat, n: nat)
    requires n > 0
    ensures m * (n - 1) >= 0 && m * n == m * (n - 1) + m
  {
  }

  /** n executions of f come to nothing, whatever they start from. */
  ghost predicate Nowhere(f: Term, n: nat) {
    forall y: real :: Repeat(f, n, y).None?
  }

  ghost predicate Undefined(v: Term) {
    forall y: real :: Monad(v, y).None?
  }

  lemma NegativeIs(f: Term, n: nat)
    requires n > 0
    ensures Inv(Power(f, 0 - n)) == Some(if n == 1 then f else Power(f, n))
    ensures IsRepeat(Inv(Power(f, 0 - n)).value, f, n)
    ensures Inv(f).Some? ==> IsRepeat(Power(f, 0 - n), Inv(f).value, n)
    ensures Inv(f).None? ==> Undefined(Power(f, 0 - n))
  {
    RepeatOnce(f);
    PowerRepeats(f, n);
    hide Repeat;
  }

  /** A negative power is undone by its inverse, whether its verb has an inverse or not.  The other way round,
      it undoes its inverse exactly if the verb has one, or the positive power is nowhere defined. */
  lemma PowerUndone(f: Term, n: nat)
    requires n > 0 && Safe(f)
    ensures var v := Power(f, 0 - n);
            && Inv(v).Some? && Undoes(Inv(v).value, v)
            && (Undoes(v, Inv(v).value) <==> Inv(f).Some? || Nowhere(f, n))
  {
    hide *;
    var v := Power(f, 0 - n);
    NegativeIs(f, n);
    if Inv(f).Some? {
      SafePower(f, n);
      InvInverts(v);
      InversesIs(v, Inv(v).value);
    } else {
      UndoneNowhere(v, f, n, Inv(v).value);
    }
  }

  lemma SafePower(f: Term, n: nat)
    requires n > 0 && Safe(f) && Inv(f).Some?
    ensures Safe(Power(f, 0 - n))
  {
  }

  /** A verb that has no value undoes one that repeats f only if that has none either. */
  lemma UndoneNowhere(v: Term, f: Term, n: nat, w: Term)
    requires IsRepeat(w, f, n) && Undefined(v)
    ensures Undoes(w, v) && (Undoes(v, w) <==> Nowhere(f, n))
  {
    hide *;
    UndoesIff(w, v);
    UndoesIff(v, w);
    forall y: real ensures UndoneAt(w, v, y) && (UndoneAt(v, w, y) <==> Repeat(f, n, y).None?) {
      UndoneNone(v, w, y);
      RepeatAt(w, f, n, y);
    }
    if Nowhere(f, n) {
      forall y: real ensures UndoneAt(v, w, y) {
        NowhereAt(f, n, y);
      }
    } else {
      var y := Somewhere(f, n);
      assert !UndoneAt(v, w, y);
    }
  }

  lemma NowhereAt(f: Term, n: nat, y: real)
    requires Nowhere(f, n)
    ensures Repeat(f, n, y).None?
  {
  }

  lemma Somewhere(f: Term, n: nat) returns (y: real)
    requires !Nowhere(f, n)
    ensures Repeat(f, n, y).Some?
  {
    y :| Repeat(f, n, y).Some?;
  }

  lemma UndoneNone(v: Term, w: Term, y: real)
    requires Undefined(v)
    ensures UndoneAt(w, v, y) && (UndoneAt(v, w, y) <==> Monad(w, y).None?)
  {
    hide Monad;
  }

  /** A negative power of a negative power runs the verb forward; its inverse undoes it exactly if the verb
      has an inverse, or the whole is nowhere defined. */
  lemma PowerUndoneIff(f: Term, j: nat, k: nat)
    requires j > 0 && k > 0 && Safe(f)
    ensures var v := Power(Power(f, 0 - j), 0 - k);
            && IsRepeat(v, f, j * k) && Inv(v).Some?
            && (Undoes(Inv(v).value, v) <==> Inv(f).Some? || Nowhere(f, j * k))
  {
    hide *;
    var u, v := Power(f, 0 - j), Power(Power(f, 0 - j), 0 - k);
    NegativeIs(f, j);
    var g := Inv(u).value;
    NegativeIs(u, k);
    forall y: real ensures Monad(v, y) == Repeat(f, j * k, y) {
      RepeatTimes(f, g, j, k, y);
      RepeatAt(v, g, k, y);
    }
    RepeatIf(v, f, j * k);
    if Inv(f).Some? {
      SafePower(f, j);
      SafePower(u, k);
      InvInverts(v);
      InversesIs(v, Inv(v).value);
    } else {
      NoneRepeats(u, k, Inv(v).value);
      UndoneNowhere(Inv(v).value, f, j * k, v);
    }
  }

  lemma RepeatAt(v: Term, f: Term, n: nat, y: real)
    requires IsRepeat(v, f, n)
    ensures Monad(v, y) == Repeat(f, n, y)
  {
  }

  lemma RepeatIf(v: Term, f: Term, n: nat)
    requires forall y: real :: Monad(v, y) == Repeat(f, n, y)
    ensures IsRepeat(v, f, n)
  {
  }

  lemma NoneRepeats(u: Term, k: nat, w: Term)
    requires k > 0 && IsRepeat(w, u, k) && Undefined(u)
    ensures Undefined(w)
  {
    forall y: real ensures Monad(w, y).None? {
      RepeatInner(u, k, y);
      assert Monad(w, y) == Repeat(u, k, y);
    }
    hide Monad;
  }

  // ---- Which verbs have an inverse.

  /** The nouns that can be bound to a dyad so that there is an inverse. */
  predicate InvertibleBound(m: Term, v: Term, left: bool)
    decreases v
  {
    match v
    case Prim(p) =>
      if p == Polynomial then left && m.Coefficients? && m.tail != 0.0
      else if p == Star then m.Noun? || m.Infinity?
      else p in {Plus, Minus, Divide} && m.Noun?
    case Tilde(u) => InvertibleBound(m, u, !left)
    case _ => false
  }

  /** The verbs that have an inverse, by their form. */
  predicate Invertible(v: Term) {
    match v
    case Prim(p) => p != Star
    case Amp(f, g) =>
      if f.IsNoun() != g.IsNoun() then (if f.IsNoun() then InvertibleBound(f, g, true) else InvertibleBound(g, f, false))
      else Invertible(f) && Invertible(g)
    case Atop(f, g) => Invertible(f) && Invertible(g)
    case AtopCo(f, g) => Invertible(f) && Invertible(g)
    case AmpCo(f, g) => Invertible(f) && Invertible(g)
    case CappedFork(g, h) => Invertible(g) && Invertible(h)
    case Under(f, _) => Invertible(f)
    case Power(f, n) => n < 0 || Invertible(f)
    case Tilde(f) => f == Prim(Plus)
    case Fork(f, g, h) =>
      var left := f.IsNoun() || IsConstant(f);
      && left != IsConstant(h)
      && (match ForkNoun(f, h)
          case Some(k) => InvertibleBound(k, g, left)
          case None => false)
      && Invertible(if left then h else f)
    case _ => false
  }

  lemma {:induction false} BoundInvertibleIff(m: Term, v: Term, left: bool)
    requires m.IsNoun()
    ensures InvAmp(m, v, left).Some? <==> InvertibleBound(m, v, left)
    decreases v
  {
    match v
    case Tilde(u) => BoundInvertibleIff(m, u, !left);
    case _ =>
  }

  /** A verb has an inverse exactly if it has one of these forms. */
  lemma {:induction false} InvertibleIff(v: Term)
    ensures Inv(v).Some? <==> Invertible(v)
  {
    hide InvAmp, InvertibleBound;
    match v
    case Amp(f, g) =>
      if f.IsNoun() && !g.IsNoun() {
        BoundInvertibleIff(f, g, true);
      } else if g.IsNoun() && !f.IsNoun() {
        BoundInvertibleIff(g, f, false);
      } else {
        InvertibleIff(f);
        InvertibleIff(g);
      }
    case Atop(f, g) => InvertibleIff(f); InvertibleIff(g);
    case AtopCo(f, g) => InvertibleIff(f); InvertibleIff(g);
    case AmpCo(f, g) => InvertibleIff(f); InvertibleIff(g);
    case CappedFork(g, h) => InvertibleIff(g); InvertibleIff(h);
    case Under(f, _) => InvertibleIff(f);
    case Power(f, _) => InvertibleIff(f);
    case Fork(f, g, h) => ForkInvertibleIff(f, g, h);
    case _ =>
  }

  lemma {:induction false} ForkInvertibleIff(f: Term, g: Term, h: Term)
    ensures Inv(Fork(f, g, h)).Some? <==> Invertible(Fork(f, g, h))
    decreases Fork(f, g, h), 0
  {
    hide InvAmp, InvertibleBound, Fong, AsFork;
    var left := f.IsNoun() || IsConstant(f);
    InvertibleIff(if left then h else f);
    if left != IsConstant(h) && ForkNoun(f, h).Some? {
      BoundInvertibleIff(ForkNoun(f, h).value, g, left);
    }
  }

  // ---- What the verbs compute.

  /** The monads of the primitives, by what their results have to do with the argument. */
  lemma PrimitiveMeans(y: real, z: real)
    ensures Monad(Prim(Minus), y) == Some(z) <==> z + y == 0.0
    ensures Monad(Prim(Halve), y) == Some(z) <==> z + z == y
    ensures Monad(Prim(Double), y) == Some(z) <==> z == y + y
    ensures Monad(Prim(Plus), y) == Monad(Prim(Left), y) == Monad(Prim(Right), y) == Some(y)
    ensures Monad(Prim(Polynomial), y) == None
  {
  }

  lemma SignMeans(y: real, z: real)
    ensures Monad(Prim(Star), y) == Some(z) <==> if y > 0.0 then z == 1.0 else if y < 0.0 then z == -1.0 else z == 0.0
    ensures forall c :: Monad(Constant(c), y) == Some(c)
  {
  }

  lemma ReciprocalMeans(y: real, z: real)
    ensures y != 0.0 ==> (Monad(Prim(Divide), y) == Some(z) <==> z * y == 1.0)
    ensures Monad(Prim(Divide), 0.0) == None
  {
    if y != 0.0 {
      QuotientIs(1.0, y, z);
      assert Monad(Prim(Divide), y) == Some(1.0 / y);
    }
  }

  lemma DyadMeans(x: real, y: real)
    ensures Dyad(Prim(Plus), x, y) == Some(x + y) && Dyad(Prim(Minus), x, y) == Some(x - y)
    ensures Dyad(Prim(Left), x, y) == Some(x) && Dyad(Prim(Right), x, y) == Some(y)
    ensures Dyad(Prim(Star), x, y).Some? && Dyad(Prim(Star), x, y).value == x * y
    ensures Dyad(Prim(Divide), x, y).Some? <==> y != 0.0 || x == 0.0
    ensures Dyad(Prim(Divide), x, y).Some? ==> Dyad(Prim(Divide), x, y).value * y == x && (y == 0.0 ==> Dyad(Prim(Divide), x, y).value == 0.0)
  {
    if y != 0.0 {
      QuotientIs(x, y, x / y);
    }
  }

  /** A bound noun is the left argument, or the right one if it is on the right. */
  lemma BoundMeans(x: real, p: Primitive, y: real)
    ensures Monad(Amp(Noun(x), Prim(p)), y) == Dyad(Prim(p), x, y) && Monad(Amp(Prim(p), Noun(x)), y) == Dyad(Prim(p), y, x)
    ensures Monad(Amp(Noun(x), Tilde(Prim(p))), y) == Dyad(Prim(p), y, x) && Monad(Tilde(Prim(p)), y) == Dyad(Prim(p), y, y)
  {
    hide Dyad;
    BoundIsDyad(x, Prim(p), true, y);
    BoundIsDyad(x, Prim(p), false, y);
    BoundIsDyad(x, Tilde(Prim(p)), true, y);
    DyadTurned(p, x, y);
    DyadTurned(p, y, y);
    MonadOfTilde(Prim(p), y);
  }

  lemma DyadTurned(p: Primitive, x: real, y: real)
    ensures Dyad(Tilde(Prim(p)), x, y) == Dyad(Prim(p), y, x)
  {
  }

  lemma MonadOfTilde(f: Term, y: real)
    ensures Monad(Tilde(f), y) == Dyad(f, y, y)
  {
  }

  /** Compositions apply the verb on the right first; a fork its middle verb to what its tines come to. */
  lemma CompositionMeans(f: Term, g: Term, y: real, u: real, v: real)
    requires !f.IsNoun() && !g.IsNoun() && Monad(g, y) == Some(u) && Monad(f, u) == Some(v)
    ensures Monad(Atop(f, g), y) == Some(v) && Monad(AtopCo(f, g), y) == Some(v) && Monad(Amp(f, g), y) == Some(v)
    ensures Monad(AmpCo(f, g), y) == Some(v) && Monad(CappedFork(f, g), y) == Some(v)
  {
    hide *;
    ComposeIs(f, g, y);
    AreComposed(f, g);
    ComposedIs(Atop(f, g));
    ComposedIs(AtopCo(f, g));
    ComposedIs(Amp(f, g));
    ComposedIs(AmpCo(f, g));
    ComposedIs(CappedFork(f, g));
    CompositionAt(Atop(f, g), f, g, y);
    CompositionAt(AtopCo(f, g), f, g, y);
    CompositionAt(Amp(f, g), f, g, y);
    CompositionAt(AmpCo(f, g), f, g, y);
    CompositionAt(CappedFork(f, g), f, g, y);
  }

  lemma AreComposed(f: Term, g: Term)
    requires !f.IsNoun() && !g.IsNoun()
    ensures Composed(Atop(f, g)) == Composed(AtopCo(f, g)) == Composed(Amp(f, g)) == Some((f, g))
    ensures Composed(AmpCo(f, g)) == Composed(CappedFork(f, g)) == Some((f, g))
  {
  }

  lemma CompositionAt(v: Term, f: Term, g: Term, y: real)
    requires IsComposition(v, f, g)
    ensures Monad(v, y) == Compose(f, g, y)
  {
    hide Monad, Compose;
  }

  lemma ForkMeans(f: Term, g: Term, h: Term, y: real, a: real, b: real)
    requires !f.IsNoun() && Monad(f, y) == Some(a) && Monad(h, y) == Some(b)
    ensures Monad(Fork(f, g, h), y) == Dyad(g, a, b)
    ensures forall x, p :: Monad(Fork(Noun(x), Prim(p), h), y) == Dyad(Prim(p), x, b)
  {
    hide Dyad;
    forall x, p ensures Monad(Fork(Noun(x), Prim(p), h), y) == Dyad(Prim(p), x, b) {
      BoundIsDyad(x, Prim(p), true, b);
    }
  }

  /** A power steps from value to value; a negative one steps back. */
  lemma {:induction false} PowerMeans(f: Term, s: seq<real>, n: nat)
    requires |s| == n + 1 && forall i :: 0 <= i < n ==> Monad(f, s[i]) == Some(s[i + 1])
    ensures Monad(Power(f, n), s[0]) == Some(s[n])
  {
    PowerRepeats(f, n);
    RepeatSteps(f, s, n);
    RepeatAt(Power(f, n), f, n, s[0]);
    hide *;
  }

  lemma {:induction false} RepeatSteps(f: Term, s: seq<real>, n: nat)
    requires |s| > n && forall i :: 0 <= i < n ==> Monad(f, s[i]) == Some(s[i + 1])
    ensures Repeat(f, n, s[0]) == Some(s[n])
  {
    if n > 0 {
      RepeatSteps(f, s, n - 1);
    }
  }

  lemma NegativePowerMeans(f: Term, s: seq<real>, n: nat)
    requires Safe(f) && Invertible(f) && 0 < n && |s| == n + 1
    requires forall i :: 0 <= i < n ==> Monad(f, s[i]) == Some(s[i + 1])
    ensures Monad(Power(f, 0 - n), s[n]) == Some(s[0])
  {
    hide *;
    InvertibleIff(f);
    PowerMeans(f, s, n);
    SafePower(f, n);
    PowerUndone(f, n);
    UndoesIff(Power(f, 0 - n), Inv(Power(f, 0 - n)).value);
    NegativeIs(f, n);
    PowerRepeats(f, n);
    RepeatAt(Power(f, n), f, n, s[0]);
    RepeatAt(Inv(Power(f, 0 - n)).value, f, n, s[0]);
    TakenBack(Power(f, 0 - n), Inv(Power(f, 0 - n)).value, s[0]);
  }

  lemma TakenBack(w: Term, v: Term, y: real)
    requires Undoes(w, v) && Monad(v, y).Some?
    ensures Monad(w, Monad(v, y).value) == Some(y)
  {
    hide Monad;
  }

  /** f under g: g, f, and the way back from g. */
  lemma UnderMeans(f: Term, g: Term, y: real, u: real, v: real, z: real)
    requires Safe(g) && Invertible(g) && Monad(g, y) == Some(u) && Monad(f, u) == Some(v) && Monad(g, z) == Some(v)
    ensures Monad(Under(f, g), y) == Some(z)
  {
    hide *;
    InvertibleIff(g);
    InvInverts(g);
    InversesIs(g, Inv(g).value);
    TakenBack(Inv(g).value, g, z);
    UnderAt(f, g, y);
    ComposeIs(f, g, y);
  }
}
