/** u^:_1: the inverse of a verb, built by rewriting the verb, and that it inverts.  Nouns are real
    atoms, the two coefficients of a linear polynomial, and the infinity that the reciprocal of 0 is;
    a verb applied where it has no real result is undefined. */
module Inverse {
  import opened Wrappers

  datatype Primitive =
    | Plus | Minus | Star | Divide | Left | Right | Halve | Double | Polynomial

  datatype Term =
    | Noun(x: real)
    | Infinity
    | Coefficients(head: real, tail: real)
    | Prim(p: Primitive)
    | Constant(c: real)
    | Amp(f: Term, g: Term)
    | Atop(f: Term, g: Term)
    | AtopCo(f: Term, g: Term)
    | AmpCo(f: Term, g: Term)
    | Under(f: Term, g: Term)
    | Power(f: Term, n: int)
    | Tilde(f: Term)
    | CappedFork(g: Term, h: Term)
    | Fork(f: Term, g: Term, h: Term)
  {
    predicate IsNoun() {
      Noun? || Infinity? || Coefficients?
    }
  }

  // ---- Dyads.

  function Quotient(x: real, y: real): Option<real> {
    if y != 0.0 then Some(x / y) else if x == 0.0 then Some(0.0) else None
  }

  /** x v y. */
  function Dyad(v: Term, x: real, y: real): Option<real> {
    match v
    case Prim(Plus) => Some(x + y)
    case Prim(Minus) => Some(x - y)
    case Prim(Star) => Some(x * y)
    case Prim(Divide) => Quotient(x, y)
    case Prim(Left) => Some(x)
    case Prim(Right) => Some(y)
    case Tilde(u) => Dyad(u, y, x)
    case _ => None
  }

  /** m v y, or y v m if the noun is on the right. */
  function Bound(m: Term, v: Term, left: bool, y: real): Option<real>
    decreases v
  {
    match v
    case Tilde(u) => Bound(m, u, !left, y)
    case _ =>
      match m
      case Noun(x) => if left then Dyad(v, x, y) else Dyad(v, y, x)
      case Infinity => if v == Prim(Star) && y == 0.0 then Some(0.0) else None
      case Coefficients(c, d) => if left && v == Prim(Polynomial) then Some(c + d * y) else None
      case _ => None
  }

  // ---- The rewriting.

  function Negate(m: Term): Option<Term> {
    if m.Noun? then Some(Noun(0.0 - m.x)) else None
  }

  function Reciprocal(m: Term): Option<Term> {
    match m
    case Noun(x) => Some(if x == 0.0 then Infinity else Noun(1.0 / x))
    case Infinity => Some(Noun(0.0))
    case _ => None
  }

  function AmpOf(m: Term, v: Term, left: bool): Term {
    if left then Amp(m, v) else Amp(v, m)
  }

  /** The inverse of m&v, or of v&m. */
  function InvAmp(m: Term, v: Term, left: bool): (r: Option<Term>)
    requires m.IsNoun()
    ensures r.Some? ==> r.value.Amp? && Depth(r.value) == 0 && (r.value.f.IsNoun() <==> !r.value.g.IsNoun())
    decreases v
  {
    match v
    case Prim(Plus) => (var n := Negate(m); if n.Some? then Some(Amp(n.value, v)) else None)
    case Prim(Star) => (var n := Reciprocal(m); if n.Some? then Some(Amp(n.value, v)) else None)
    case Prim(Minus) => if !m.Noun? then None else Some(if left then Amp(m, v) else Amp(m, Prim(Plus)))
    case Prim(Divide) => if !m.Noun? then None else Some(if left then Amp(m, v) else Amp(m, Prim(Star)))
    case Prim(Polynomial) =>
      if left && m.Coefficients? && m.tail != 0.0 then
        var y := 1.0 / m.tail;
        Some(Amp(Coefficients(y * (0.0 - m.head), y), v))
      else None
    case Tilde(u) => InvAmp(m, u, !left)
    case _ => None
  }

  function Simple(p: Primitive): Option<Term> {
    match p
    case Plus => Some(Prim(Plus))
    case Minus => Some(Prim(Minus))
    case Divide => Some(Prim(Divide))
    case Left => Some(Prim(Left))
    case Right => Some(Prim(Right))
    case Halve => Some(Prim(Double))
    case Double => Some(Prim(Halve))
    case Star => None
    case Polynomial => Some(Prim(Polynomial))
  }

  /** A constant function, or a fork of constant functions. */
  predicate IsConstant(v: Term) {
    match v
    case Constant(_) => true
    case Fork(f, _, h) => IsConstant(f) && IsConstant(h)
    case _ => false
  }

  /** The value of a constant function at 0. */
  function ConstantValue(v: Term): Option<real>
    requires IsConstant(v)
  {
    match v
    case Constant(c) => Some(c)
    case Fork(f, g, h) =>
      var x, y := ConstantValue(f), ConstantValue(h);
      if x.Some? && y.Some? then Dyad(g, x.value, y.value) else None
  }

  function AsNoun(x: Option<real>): (m: Option<Term>)
    ensures m.Some? ==> m.value.IsNoun()
  {
    if x.Some? then Some(Noun(x.value)) else None
  }

  /** The composition [: a w, simplified. */
  function Fong(a: Term, w: Term): (r: Term)
    ensures Depth(r) == Max(Depth(a), Depth(w))
  {
    match a
    case Prim(Left) => w
    case Prim(Right) => w
    case CappedFork(g, h) => CappedFork(g, Fong(h, w))
    case Fork(f, g, h) => if f.IsNoun() then Fork(f, g, Fong(h, w)) else CappedFork(a, w)
    case _ => CappedFork(a, w)
  }

  /** m&v as the fork m v ], and v&n as n v~ ]. */
  function AsFork(v: Term): (r: Term)
    ensures v.Amp? ==> Depth(r) == Depth(v)
  {
    if v.Amp? && v.f.IsNoun() then Fork(v.f, v.g, Prim(Right))
    else if v.Amp? && v.g.IsNoun() then Fork(v.g, Tilde(v.f), Prim(Right))
    else v
  }

  function Max(a: nat, b: nat): nat {
    if a < b then b else a
  }

  /** How deep modifiers nest that apply an inverse. */
  function Depth(v: Term): nat {
    match v
    case Amp(f, g) => Max(Depth(f), Depth(g))
    case Atop(f, g) => Max(Depth(f), Depth(g))
    case AtopCo(f, g) => Max(Depth(f), Depth(g))
    case AmpCo(f, g) => Max(Depth(f), Depth(g))
    case Under(f, g) => 1 + Max(Depth(f), Depth(g))
    case Power(f, _) => 1 + Depth(f)
    case Tilde(f) => Depth(f)
    case CappedFork(g, h) => Max(Depth(g), Depth(h))
    case Fork(f, g, h) => Max(Depth(f), Max(Depth(g), Depth(h)))
    case _ => 0
  }

  /** The inverse of a monad, None where there is none. */
  function Inv(v: Term): Option<Term>
    decreases v
  {
    match v
    case Prim(p) => Simple(p)
    case Amp(f, g) =>
      if f.IsNoun() && !g.IsNoun() then InvAmp(f, g, true)
      else if g.IsNoun() && !f.IsNoun() then InvAmp(g, f, false)
      else
        var gi, fi := Inv(g), Inv(f);
        if gi.Some? && fi.Some? then Some(Atop(gi.value, fi.value)) else None
    case Atop(f, g) =>
      var gi, fi := Inv(g), Inv(f);
      if gi.Some? && fi.Some? then Some(Atop(gi.value, fi.value)) else None
    case AtopCo(f, g) =>
      var gi, fi := Inv(g), Inv(f);
      if gi.Some? && fi.Some? then Some(AtopCo(gi.value, fi.value)) else None
    case AmpCo(f, g) =>
      var gi, fi := Inv(g), Inv(f);
      if gi.Some? && fi.Some? then Some(AtopCo(gi.value, fi.value)) else None
    case Under(f, g) => (var fi := Inv(f); if fi.Some? then Some(Under(fi.value, g)) else None)
    case Power(f, n) =>
      if n == -1 then Some(f)
      else if n == 1 then Inv(f)
      else if n < 0 then Some(Power(f, -n))
      else
        var fi := Inv(f);
        if fi.Some? then Some(Power(fi.value, n)) else None
    case Tilde(f) => if f == Prim(Plus) then Some(Prim(Halve)) else None
    case CappedFork(g, h) =>
      var hi, gi := Inv(h), Inv(g);
      if hi.Some? && gi.Some? then Some(Fong(hi.value, gi.value)) else None
    case Fork(f, g, h) =>
      var b := f.IsNoun() || IsConstant(f);
      if b == IsConstant(h) then None
      else
        var k := if f.IsNoun() then Some(f) else AsNoun(ConstantValue(if b then f else h));
        var fi := Inv(if b then h else f);
        if k.None? then None
        else
          var gi := InvAmp(k.value, g, b);
          if fi.Some? && gi.Some? then Some(Fong(fi.value, AsFork(gi.value))) else None
    case _ => None
  }

  lemma ForkDepth(f: Term, g: Term, h: Term)
    requires Inv(f).Some? ==> Depth(Inv(f).value) <= Depth(f)
    requires Inv(h).Some? ==> Depth(Inv(h).value) <= Depth(h)
    ensures Inv(Fork(f, g, h)).Some? ==> Depth(Inv(Fork(f, g, h)).value) <= Depth(Fork(f, g, h))
  {
    hide InvAmp, Fong, AsFork, ConstantValue, IsConstant;
  }

  /** Inverting nests no deeper. */
  lemma {:induction false} InvDepth(v: Term)
    ensures Inv(v).Some? ==> Depth(Inv(v).value) <= Depth(v)
    decreases v
  {
    hide InvAmp, Fong, AsFork, ConstantValue, IsConstant;
    match v
    case Prim(p) =>
    case Amp(f, g) => InvDepth(f); InvDepth(g);
    case Atop(f, g) => InvDepth(f); InvDepth(g);
    case AtopCo(f, g) => InvDepth(f); InvDepth(g);
    case AmpCo(f, g) => InvDepth(f); InvDepth(g);
    case Under(f, g) => InvDepth(f);
    case Power(f, n) => InvDepth(f);
    case Tilde(f) =>
    case CappedFork(g, h) => InvDepth(g); InvDepth(h);
    case Fork(f, g, h) => InvDepth(f); InvDepth(h); ForkDepth(f, g, h);
    case _ =>
  }

  function Size(v: Term): (n: nat)
    ensures n > 0
  {
    match v
    case Amp(f, g) => 1 + Size(f) + Size(g)
    case Atop(f, g) => 1 + Size(f) + Size(g)
    case AtopCo(f, g) => 1 + Size(f) + Size(g)
    case AmpCo(f, g) => 1 + Size(f) + Size(g)
    case Under(f, g) => 1 + Size(f) + Size(g)
    case Power(f, _) => 1 + Size(f)
    case Tilde(f) => 1 + Size(f)
    case CappedFork(g, h) => 1 + Size(g) + Size(h)
    case Fork(f, g, h) => 1 + Size(f) + Size(g) + Size(h)
    case _ => 1
  }

  // ---- What a monad computes.

  function Monad(v: Term, y: real): Option<real>
    decreases Depth(v), Size(v), 0
  {
    match v
    case Prim(p) => Simply(p, y)
    case Constant(c) => Some(c)
    case Amp(f, g) =>
      if f.IsNoun() then (if g.IsNoun() then None else Bound(f, g, true, y))
      else if g.IsNoun() then Bound(g, f, false, y)
      else Compose(f, g, y)
    case Atop(f, g) => Compose(f, g, y)
    case AtopCo(f, g) => Compose(f, g, y)
    case AmpCo(f, g) => Compose(f, g, y)
    case CappedFork(g, h) => Compose(g, h, y)
    case Under(f, g) =>
      InvDepth(g);
      var gi, z := Inv(g), Compose(f, g, y);
      if gi.Some? && z.Some? then Monad(gi.value, z.value) else None
    case Power(f, n) =>
      if n >= 0 then Repeat(f, n, y)
      else
        InvDepth(f);
        var fi := Inv(f);
        if fi.Some? then Repeat(fi.value, -n, y) else None
    case Tilde(f) => Dyad(f, y, y)
    case Fork(f, g, h) =>
      var z := Monad(h, y);
      if z.None? then None
      else if f.IsNoun() then Bound(f, g, true, z.value)
      else
        var x := Monad(f, y);
        if x.Some? then Dyad(g, x.value, z.value) else None
    case _ => None
  }

  function Simply(p: Primitive, y: real): Option<real> {
    match p
    case Plus => Some(y)
    case Minus => Some(0.0 - y)
    case Star => Some(if y > 0.0 then 1.0 else if y < 0.0 then -1.0 else 0.0)
    case Divide => Quotient(1.0, y)
    case Left => Some(y)
    case Right => Some(y)
    case Halve => Some(y / 2.0)
    case Double => Some(y * 2.0)
    case Polynomial => None
  }

  /** f g y. */
  function Compose(f: Term, g: Term, y: real): Option<real>
    decreases Max(Depth(f), Depth(g)), Size(f) + Size(g), 0
  {
    var z := Monad(g, y);
    if z.Some? then Monad(f, z.value) else None
  }

  /** f applied n times. */
  function Repeat(f: Term, n: nat, y: real): Option<real>
    decreases Depth(f), Size(f), n + 1
  {
    if n == 0 then Some(y)
    else
      var z := Repeat(f, n - 1, y);
      if z.Some? then Monad(f, z.value) else None
  }
}
