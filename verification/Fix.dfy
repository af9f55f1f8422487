/** v f. : replacing the names in a verb by their values.  The names being replaced are kept in a
    list of fixed size; when it has filled up, a cycle of names is looked for. */
module Fix {
  import opened Wrappers

  type Name = string

  datatype Verb =
    | Primitive(id: nat)
    | Ref(name: Name)
    | One(op: nat, f: Verb)
    | Two(op: nat, f: Verb, g: Verb)
    | Three(op: nat, f: Verb, g: Verb, h: Verb)

  /** The value of a name.  Locked and read-only values are never exposed; public ones may be left. */
  datatype Value = Value(verb: Verb, locked: bool, public: bool)

  type Names = map<Name, Value>

  datatype Flags = Flags(recur: bool, public: bool)

  datatype Outcome = Fixed(v: Verb) | Cycle(start: nat) | ValueError | LimitError

  // ---- The search for a cycle.

  /** Where the last name of the list occurs first among the first n. */
  function FirstOf(names: seq<Name>, x: Name, n: nat): (i: nat)
    requires n <= |names|
    ensures i <= n
    ensures i < n ==> names[i] == x
    ensures forall j :: 0 <= j < i ==> names[j] != x
  {
    if n == 0 then 0
    else
      var i := FirstOf(names, x, n - 1);
      if i < n - 1 || names[n - 1] == x then i else n
  }

  predicate Matches(names: seq<Name>, j: nat, period: nat) {
    j + period < |names| && names[j] == names[j + period]
  }

  /** How far the list can be followed down from c with a period. */
  function BackedUp(names: seq<Name>, c: nat, period: nat): (b: nat)
    requires c + period < |names|
    ensures b <= c
    ensures forall j: nat :: b <= j < c ==> Matches(names, j, period)
    ensures b > 0 ==> !Matches(names, b - 1, period)
  {
    if c > 0 && Matches(names, c - 1, period) then BackedUp(names, c - 1, period) else c
  }

  /** What a full list comes to: the start of a cycle, or none. */
  function CycleStart(names: seq<Name>): Option<nat>
    requires |names| >= 2
  {
    var n := |names|;
    var i := FirstOf(names, names[n - 1], n - 2);
    if i == n - 2 then None else Some(BackedUp(names, i, n - 1 - i))
  }

  /** From c on, the list repeats with the period. */
  ghost predicate Repeats(names: seq<Name>, c: nat, period: nat) {
    0 < period && c + period < |names|
    && forall j: nat :: c <= j < |names| - period ==> Matches(names, j, period)
  }

  /** There is a result just when the last name occurs before the last two places; the result is the
      earliest place from which the list repeats, the period being the distance of the last name
      from its first occurrence. */
  lemma CycleStartIs(names: seq<Name>)
    requires |names| >= 2
    ensures CycleStart(names).Some? <==> names[|names| - 1] in names[..|names| - 2]
    ensures CycleStart(names).Some? ==>
              var c, period := CycleStart(names).value, |names| - 1 - FirstOf(names, names[|names| - 1], |names| - 2);
              && c < |names| - 2 && period > 1 && Repeats(names, c, period)
              && forall b: nat :: b < c ==> !Repeats(names, b, period)
  {
    hide FirstOf, BackedUp, Repeats;
    var n := |names|;
    var i := FirstOf(names, names[n - 1], n - 2);
    FirstInPrefix(names, names[n - 1], n - 2);
    if i < n - 2 {
      BackedUpRepeats(names, i, n - 1 - i);
    }
  }

  /** If place i and the last one hold the same name, the list repeats from where it backs up to,
      and from no earlier place. */
  lemma BackedUpRepeats(names: seq<Name>, i: nat, period: nat)
    requires 0 < period && i + period == |names| - 1 && names[i] == names[i + period]
    ensures var c := BackedUp(names, i, period);
            c <= i && Repeats(names, c, period) && forall b: nat :: b < c ==> !Repeats(names, b, period)
  {
    hide BackedUp;
    var c := BackedUp(names, i, period);
    assert Matches(names, i, period);
    hide Matches;
    forall b: nat | b < c ensures !Repeats(names, b, period) {
      assert !Matches(names, c - 1, period);
    }
  }

  lemma FirstInPrefix(names: seq<Name>, x: Name, n: nat)
    requires n <= |names|
    ensures x in names[..n] <==> FirstOf(names, x, n) < n
  {
    hide FirstOf;
    var i := FirstOf(names, x, n);
    if i < n {
      assert names[..n][i] == x;
    } else {
      assert forall j :: 0 <= j < n ==> names[..n][j] == names[j];
    }
  }

  // ---- Fixing, as a function of the names being replaced.

  /** The names that may be replaced before the list is full. */
  const LIMIT: nat := 126

  function FixVerb(env: Names, flags: Flags, names: seq<Name>, w: Verb): Outcome
    requires |names| <= LIMIT
    decreases LIMIT - |names|, w
  {
    match w
    case Primitive(_) => Fixed(w)
    case One(op, f) =>
      var a := FixVerb(env, flags, names, f);
      if a.Fixed? then Fixed(One(op, a.v)) else a
    case Two(op, f, g) =>
      var a := FixVerb(env, flags, names, f);
      if !a.Fixed? then a
      else
        var b := FixVerb(env, flags, names, g);
        if b.Fixed? then Fixed(Two(op, a.v, b.v)) else b
    case Three(op, f, g, h) =>
      var a := FixVerb(env, flags, names, f);
      if !a.Fixed? then a
      else
        var b := FixVerb(env, flags, names, g);
        if !b.Fixed? then b
        else
          var c := FixVerb(env, flags, names, h);
          if c.Fixed? then Fixed(Three(op, a.v, b.v, c.v)) else c
    case Ref(x) =>
      if |names| > 125 then
        var c := CycleStart(names);
        if c.Some? then Cycle(c.value + 1) else LimitError
      else if x !in env then ValueError
      else if env[x].locked then Fixed(w)
      else if env[x].public && !flags.public then Fixed(w)
      else if !flags.recur then Fixed(env[x].verb)
      else
        var z := FixVerb(env, flags, names + [x], env[x].verb);
        if z.Cycle? && |names| < z.start then Fixed(w) else z
  }

  /** Fixing only the top leaves anything but a name alone. */
  function FixTop(env: Names, flags: Flags, w: Verb): Outcome {
    if !flags.recur && !w.Ref? then Fixed(w) else FixVerb(env, flags, [], w)
  }

  lemma BackedUpIs(names: seq<Name>, c: nat, period: nat)
    requires c + period < |names|
    ensures BackedUp(names, c, period) ==
            if c > 0 && names[c - 1] == names[c - 1 + period] then BackedUp(names, c - 1, period) else c
  {
  }

  // ---- Fixing, with the list of names in place.

  class Fixer {
    const names: array<Name>
    const env: Names
    const flags: Flags
    var count: nat

    constructor (env: Names, flags: Flags)
      ensures names.Length == 128 && fresh(names) && count == 0 && this.env == env && this.flags == flags
    {
      names := new Name[128](_ => "");
      this.env := env;
      this.flags := flags;
      count := 0;
    }

    /** Find the first place that holds the last name, but for the last two. */
    method FindFirst() returns (cyc1: nat)
      requires 2 <= count <= names.Length
      ensures cyc1 == FirstOf(names[..count], names[count - 1], count - 2)
    {
      hide FirstOf;
      cyc1 := 0;
      while cyc1 < count - 2 && names[cyc1] != names[count - 1]
        invariant 0 <= cyc1 <= count - 2
        invariant forall j :: 0 <= j < cyc1 ==> names[j] != names[count - 1]
      {
        cyc1 := cyc1 + 1;
      }
      FirstIs(names[..count], names[count - 1], count - 2, cyc1);
    }

    /** Back down while the list repeats. */
    method BackUp(found: nat, cycl: nat) returns (cyc1: int)
      requires found + cycl < count <= names.Length
      ensures cyc1 == BackedUp(names[..count], found, cycl)
    {
      hide *;
      cyc1 := found - 1;
      while cyc1 >= 0
        invariant -1 <= cyc1 < found
        invariant BackedUp(names[..count], found, cycl) == BackedUp(names[..count], cyc1 + 1, cycl)
      {
        BackedUpIs(names[..count], cyc1 + 1, cycl);
        if names[cyc1] != names[cyc1 + cycl] { break; }
        cyc1 := cyc1 - 1;
      }
      cyc1 := cyc1 + 1;
      BackedUpIs(names[..count], cyc1, cycl);
    }

    /** The search for a cycle. */
    method FindCycle() returns (r: Option<nat>)
      requires 2 <= count <= names.Length
      ensures r == CycleStart(names[..count])
    {
      hide FirstOf, BackedUp;
      var cyc1 := FindFirst();
      assert names[..count][count - 1] == names[count - 1];
      if cyc1 == count - 2 {
        return None;
      }
      var start := BackUp(cyc1, count - 1 - cyc1);
      r := Some(start);
    }

    /** Replace the names in w.  The list is as it was afterwards. */
    method Fixa(w: Verb) returns (r: Outcome)
      requires names.Length == 128 && count <= LIMIT
      modifies names, `count
      ensures count == old(count) && names[..count] == old(names[..count])
      ensures names[LIMIT..] == old(names[LIMIT..])
      ensures r == FixVerb(env, flags, old(names[..count]), w)
      decreases LIMIT - count, w
    {
      ghost var list := names[..count];
      match w
      case Primitive(_) =>
        r := Fixed(w);
      case One(op, f) =>
        r := Fixa(f);
        if !r.Fixed? { return; }
        r := Fixed(One(op, r.v));
      case Two(op, f, g) =>
        r := Fixa(f);
        if !r.Fixed? { return; }
        var a := r.v;
        r := Fixa(g);
        if !r.Fixed? { return; }
        r := Fixed(Two(op, a, r.v));
      case Three(op, f, g, h) =>
        r := Fixa(f);
        if !r.Fixed? { return; }
        var a := r.v;
        r := Fixa(g);
        if !r.Fixed? { return; }
        var b := r.v;
        r := Fixa(h);
        if !r.Fixed? { return; }
        r := Fixed(Three(op, a, b, r.v));
      case Ref(x) =>
        var initn := count;
        if initn > 125 {
          var c := FindCycle();
          return if c.Some? then Cycle(c.value + 1) else LimitError;
        }
        if x !in env { return ValueError; }
        if env[x].locked { return Fixed(w); }
        if env[x].public && !flags.public { return Fixed(w); }
        if !flags.recur { return Fixed(env[x].verb); }
        names[initn] := x;
        count := count + 1;
        assert names[..count] == list + [x];
        r := Fixa(env[x].verb);
        count := initn;
        assert names[..count] == (list + [x])[..count];
        if r.Cycle? && initn < r.start {
          r := Fixed(w);
        }
    }

    method Fix(w: Verb) returns (r: Outcome)
      requires names.Length == 128 && count == 0
      modifies names, `count
      ensures r == FixTop(env, flags, w) && names[LIMIT..] == old(names[LIMIT..])
    {
      if !flags.recur && !w.Ref? {
        r := Fixed(w);
      } else {
        assert names[..0] == [];
        r := Fixa(w);
      }
    }
  }

  lemma {:induction false} FirstIs(names: seq<Name>, x: Name, n: nat, i: nat)
    requires i <= n <= |names| && (i < n ==> names[i] == x) && forall j :: 0 <= j < i ==> names[j] != x
    ensures FirstOf(names, x, n) == i
  {
  }

  // ---- The frame that a cycle starts at.

  /** A cycle is only ever reported to a frame within it: the frame at its start keeps its
      reference, so that the whole never comes to a cycle. */
  lemma {:induction false} CycleStaysInside(env: Names, flags: Flags, names: seq<Name>, w: Verb)
    requires |names| <= LIMIT
    ensures var r := FixVerb(env, flags, names, w); r.Cycle? ==> 0 < r.start <= |names|
    decreases LIMIT - |names|, w
  {
    match w
    case Primitive(_) =>
    case One(_, f) =>
      CycleStaysInside(env, flags, names, f);
    case Two(_, f, g) =>
      CycleStaysInside(env, flags, names, f);
      CycleStaysInside(env, flags, names, g);
    case Three(_, f, g, h) =>
      CycleStaysInside(env, flags, names, f);
      CycleStaysInside(env, flags, names, g);
      CycleStaysInside(env, flags, names, h);
    case Ref(x) =>
      if |names| > 125 {
        CycleStartIs(names);
      } else if x in env {
        CycleStaysInside(env, flags, names + [x], env[x].verb);
      }
  }

  lemma TopHasNoCycle(env: Names, flags: Flags, w: Verb)
    ensures !FixTop(env, flags, w).Cycle?
  {
    CycleStaysInside(env, flags, [], w);
  }

  /** Which frame keeps its reference: the one whose name stands where the cycle starts. */
  lemma StartKeepsReference(env: Names, names: seq<Name>, x: Name, flags: Flags)
    requires |names| <= 125 && x in env && !env[x].locked && flags.recur && (env[x].public ==> flags.public)
    requires FixVerb(env, flags, names + [x], env[x].verb).Cycle?
    ensures var z := FixVerb(env, flags, names + [x], env[x].verb);
            FixVerb(env, flags, names, Ref(x)) == if z.start == |names| + 1 then Fixed(Ref(x)) else z
  {
    CycleStaysInside(env, flags, names + [x], env[x].verb);
  }

  // ---- The fixed verb means the same.

  /** What the parts of a verb mean. */
  datatype Meanings<!D> = Meanings(primitive: nat -> D, one: (nat, D) -> D, two: (nat, D, D) -> D,
                                   three: (nat, D, D, D) -> D)

  /** The meaning of a verb, if names have to be looked up no deeper than n. */
  function Eval<D>(env: Names, m: Meanings<D>, n: nat, w: Verb): Option<D>
    decreases n, w
  {
    match w
    case Primitive(id) => Some(m.primitive(id))
    case One(op, f) =>
      var a := Eval(env, m, n, f);
      if a.Some? then Some(m.one(op, a.value)) else None
    case Two(op, f, g) =>
      var a, b := Eval(env, m, n, f), Eval(env, m, n, g);
      if a.Some? && b.Some? then Some(m.two(op, a.value, b.value)) else None
    case Three(op, f, g, h) =>
      var a, b, c := Eval(env, m, n, f), Eval(env, m, n, g), Eval(env, m, n, h);
      if a.Some? && b.Some? && c.Some? then Some(m.three(op, a.value, b.value, c.value)) else None
    case Ref(x) => if n == 0 || x !in env then None else Eval(env, m, n - 1, env[x].verb)
  }

  lemma {:induction false} EvalDeeper<D>(env: Names, m: Meanings<D>, n: nat, k: nat, w: Verb)
    requires n <= k && Eval(env, m, n, w).Some?
    ensures Eval(env, m, k, w) == Eval(env, m, n, w)
    decreases n, w
  {
    match w
    case Primitive(_) =>
    case One(_, f) =>
      EvalDeeper(env, m, n, k, f);
    case Two(_, f, g) =>
      EvalDeeper(env, m, n, k, f);
      EvalDeeper(env, m, n, k, g);
    case Three(_, f, g, h) =>
      EvalDeeper(env, m, n, k, f);
      EvalDeeper(env, m, n, k, g);
      EvalDeeper(env, m, n, k, h);
    case Ref(x) =>
      EvalDeeper(env, m, n - 1, k - 1, env[x].verb);
  }

  /** Fixing loses no meaning: the fixed verb means what the verb means, no deeper. */
  lemma {:induction false} FixKeeps<D>(env: Names, flags: Flags, names: seq<Name>, w: Verb, m: Meanings<D>, n: nat)
    requires |names| <= LIMIT && FixVerb(env, flags, names, w).Fixed? && Eval(env, m, n, w).Some?
    ensures Eval(env, m, n, FixVerb(env, flags, names, w).v) == Eval(env, m, n, w)
    decreases LIMIT - |names|, w
  {
    match w
    case Primitive(_) =>
    case One(_, f) =>
      FixKeeps(env, flags, names, f, m, n);
    case Two(_, f, g) =>
      FixKeeps(env, flags, names, f, m, n);
      FixKeeps(env, flags, names, g, m, n);
    case Three(_, f, g, h) =>
      FixKeeps(env, flags, names, f, m, n);
      FixKeeps(env, flags, names, g, m, n);
      FixKeeps(env, flags, names, h, m, n);
    case Ref(x) =>
      var w' := FixVerb(env, flags, names, w).v;
      if w' != w {
        if flags.recur {
          FixKeeps(env, flags, names + [x], env[x].verb, m, n - 1);
        }
        EvalDeeper(env, m, n - 1, n, w');
      }
  }

  /** Fixing adds no meaning: the verb means what the fixed verb means, looked up deeper by as many
      names as could be replaced. */
  lemma {:induction false} FixAddsNone<D>(env: Names, flags: Flags, names: seq<Name>, w: Verb, m: Meanings<D>, n: nat)
    requires |names| <= LIMIT && FixVerb(env, flags, names, w).Fixed?
    requires Eval(env, m, n, FixVerb(env, flags, names, w).v).Some?
    ensures Eval(env, m, n + LIMIT - |names|, w) == Eval(env, m, n, FixVerb(env, flags, names, w).v)
    decreases LIMIT - |names|, w
  {
    var w' := FixVerb(env, flags, names, w).v;
    match w
    case Primitive(_) =>
    case One(_, f) =>
      FixAddsNone(env, flags, names, f, m, n);
    case Two(_, f, g) =>
      FixAddsNone(env, flags, names, f, m, n);
      FixAddsNone(env, flags, names, g, m, n);
    case Three(_, f, g, h) =>
      FixAddsNone(env, flags, names, f, m, n);
      FixAddsNone(env, flags, names, g, m, n);
      FixAddsNone(env, flags, names, h, m, n);
    case Ref(x) =>
      if w' == w {
        EvalDeeper(env, m, n, n + LIMIT - |names|, w);
      } else if flags.recur {
        FixAddsNone(env, flags, names + [x], env[x].verb, m, n);
      } else {
        EvalDeeper(env, m, n, n + LIMIT - |names| - 1, w');
      }
  }

  ghost predicate Means<D>(env: Names, m: Meanings<D>, w: Verb, d: D) {
    exists n: nat :: Eval(env, m, n, w) == Some(d)
  }

  /** If looking the names of a verb up comes to an end, the verb and its fixed form mean the same. */
  lemma FixPreservesMeaning<D>(env: Names, flags: Flags, w: Verb, m: Meanings<D>, d: D)
    requires FixTop(env, flags, w).Fixed?
    ensures Means(env, m, FixTop(env, flags, w).v, d) <==> Means(env, m, w, d)
  {
    var w' := FixTop(env, flags, w).v;
    if flags.recur || w.Ref? {
      if Means(env, m, w, d) {
        var n: nat :| Eval(env, m, n, w) == Some(d);
        FixKeeps(env, flags, [], w, m, n);
      }
      if Means(env, m, w', d) {
        var n: nat :| Eval(env, m, n, w') == Some(d);
        FixAddsNone(env, flags, [], w, m, n);
        assert Eval(env, m, n + LIMIT, w) == Some(d);
      }
    }
  }

  // ---- Verbs that never come to an end.

  /** Meanings with an order: one meaning approximates another, and the least one tells nothing. */
  datatype Order<!D> = Order(bottom: D, le: (D, D) -> bool)

  /** The order is transitive and reflexive, and the operations keep it. */
  ghost predicate Monotone<D(!new)>(m: Meanings<D>, o: Order<D>) {
    && (forall a :: o.le(o.bottom, a) && o.le(a, a))
    && (forall a, b, c :: o.le(a, b) && o.le(b, c) ==> o.le(a, c))
    && (forall op, a, a' :: o.le(a, a') ==> o.le(m.one(op, a), m.one(op, a')))
    && (forall op, a, a', b, b' :: o.le(a, a') && o.le(b, b') ==> o.le(m.two(op, a, b), m.two(op, a', b')))
    && (forall op, a, a', b, b', c, c' :: o.le(a, a') && o.le(b, b') && o.le(c, c') ==>
                                            o.le(m.three(op, a, b, c), m.three(op, a', b', c')))
  }

  /** What is known of the meaning of a verb when names are looked up no deeper than n. */
  function Approx<D>(env: Names, m: Meanings<D>, o: Order<D>, n: nat, w: Verb): D
    decreases n, w
  {
    match w
    case Primitive(id) => m.primitive(id)
    case One(op, f) => m.one(op, Approx(env, m, o, n, f))
    case Two(op, f, g) => m.two(op, Approx(env, m, o, n, f), Approx(env, m, o, n, g))
    case Three(op, f, g, h) => m.three(op, Approx(env, m, o, n, f), Approx(env, m, o, n, g), Approx(env, m, o, n, h))
    case Ref(x) => if n == 0 || x !in env then o.bottom else Approx(env, m, o, n - 1, env[x].verb)
  }

  /** A verb whose look-ups end means what it approximates from there on. */
  lemma {:induction false} EvalIsApprox<D>(env: Names, m: Meanings<D>, o: Order<D>, n: nat, w: Verb)
    requires Eval(env, m, n, w).Some?
    ensures Approx(env, m, o, n, w) == Eval(env, m, n, w).value
    decreases n, w
  {
    match w
    case Primitive(_) =>
    case One(_, f) =>
      EvalIsApprox(env, m, o, n, f);
    case Two(_, f, g) =>
      EvalIsApprox(env, m, o, n, f);
      EvalIsApprox(env, m, o, n, g);
    case Three(_, f, g, h) =>
      EvalIsApprox(env, m, o, n, f);
      EvalIsApprox(env, m, o, n, g);
      EvalIsApprox(env, m, o, n, h);
    case Ref(x) =>
      EvalIsApprox(env, m, o, n - 1, env[x].verb);
  }

  /** Looking deeper tells more. */
  lemma {:induction false} ApproxDeeper<D(!new)>(env: Names, m: Meanings<D>, o: Order<D>, n: nat, k: nat, w: Verb)
    requires Monotone(m, o) && n <= k
    ensures o.le(Approx(env, m, o, n, w), Approx(env, m, o, k, w))
    decreases n, w
  {
    match w
    case Primitive(_) =>
    case One(_, f) =>
      ApproxDeeper(env, m, o, n, k, f);
    case Two(_, f, g) =>
      ApproxDeeper(env, m, o, n, k, f);
      ApproxDeeper(env, m, o, n, k, g);
    case Three(_, f, g, h) =>
      ApproxDeeper(env, m, o, n, k, f);
      ApproxDeeper(env, m, o, n, k, g);
      ApproxDeeper(env, m, o, n, k, h);
    case Ref(x) =>
      if n > 0 && x in env {
        ApproxDeeper(env, m, o, n - 1, k - 1, env[x].verb);
      }
  }

  /** At every depth the fixed verb tells as much as the verb, and no more than the verb does looked up
      deeper by as many names as could be replaced. */
  lemma {:induction false} FixApproximates<D(!new)>(env: Names, flags: Flags, names: seq<Name>, w: Verb, m: Meanings<D>,
      o: Order<D>, n: nat)
    requires Monotone(m, o) && |names| <= LIMIT && FixVerb(env, flags, names, w).Fixed?
    ensures var w' := FixVerb(env, flags, names, w).v;
            && o.le(Approx(env, m, o, n, w), Approx(env, m, o, n, w'))
            && o.le(Approx(env, m, o, n, w'), Approx(env, m, o, n + LIMIT - |names|, w))
    decreases LIMIT - |names|, w
  {
    match w
    case Primitive(_) =>
    case One(_, f) =>
      FixApproximates(env, flags, names, f, m, o, n);
    case Two(_, f, g) =>
      FixApproximates(env, flags, names, f, m, o, n);
      FixApproximates(env, flags, names, g, m, o, n);
    case Three(_, f, g, h) =>
      FixApproximates(env, flags, names, f, m, o, n);
      FixApproximates(env, flags, names, g, m, o, n);
      FixApproximates(env, flags, names, h, m, o, n);
    case Ref(x) =>
      NameApproximates(env, flags, names, x, m, o, n);
  }

  lemma {:induction false} NameApproximates<D(!new)>(env: Names, flags: Flags, names: seq<Name>, x: Name, m: Meanings<D>,
      o: Order<D>, n: nat)
    requires Monotone(m, o) && |names| <= LIMIT && FixVerb(env, flags, names, Ref(x)).Fixed?
    ensures var w' := FixVerb(env, flags, names, Ref(x)).v;
            && o.le(Approx(env, m, o, n, Ref(x)), Approx(env, m, o, n, w'))
            && o.le(Approx(env, m, o, n, w'), Approx(env, m, o, n + LIMIT - |names|, Ref(x)))
    decreases LIMIT - |names|, Ref(x), 0
  {
    var w' := FixVerb(env, flags, names, Ref(x)).v;
    var k := n + LIMIT - |names|;
    ApproxDeeper(env, m, o, n, k, Ref(x));
    if w' != Ref(x) {
      var v := env[x].verb;
      ApproxDeeper(env, m, o, n, k - 1, v);
      if n > 0 {
        ApproxDeeper(env, m, o, n - 1, n, v);
      }
      if flags.recur {
        FixApproximates(env, flags, names + [x], v, m, o, n);
      }
    }
  }

  /** d is at least whatever is known of w at any depth. */
  ghost predicate Bounds<D>(env: Names, m: Meanings<D>, o: Order<D>, w: Verb, d: D) {
    forall n: nat :: o.le(Approx(env, m, o, n, w), d)
  }

  /** In every environment, cyclic or not, a verb that can be fixed and its fixed form are approximated by each
      other, and have the same bounds: if one has a least bound, it is that of the other. */
  lemma FixPreservesBounds<D(!new)>(env: Names, flags: Flags, w: Verb, m: Meanings<D>, o: Order<D>, d: D)
    requires Monotone(m, o) && FixTop(env, flags, w).Fixed?
    ensures forall n: nat :: o.le(Approx(env, m, o, n, w), Approx(env, m, o, n, FixTop(env, flags, w).v))
    ensures forall n: nat :: o.le(Approx(env, m, o, n, FixTop(env, flags, w).v), Approx(env, m, o, n + LIMIT, w))
    ensures Bounds(env, m, o, FixTop(env, flags, w).v, d) <==> Bounds(env, m, o, w, d)
  {
    var w' := FixTop(env, flags, w).v;
    forall n: nat
      ensures o.le(Approx(env, m, o, n, w), Approx(env, m, o, n, w'))
      ensures o.le(Approx(env, m, o, n, w'), Approx(env, m, o, n + LIMIT, w))
    {
      if flags.recur || w.Ref? {
        FixApproximates(env, flags, [], w, m, o, n);
      } else {
        ApproxDeeper(env, m, o, n, n + LIMIT, w);
      }
    }
  }

  /** f that calls itself keeps its reference; looking it up never ends, and if its calls are counted, n are
      known at depth n. */
  lemma CyclicExample(n: nat)
    ensures var env := map["f" := Value(One(0, Ref("f")), false, false)];
            && FixTop(env, Flags(true, true), Ref("f")) == Fixed(Ref("f"))
            && Eval(env, Counting(), n, Ref("f")).None? && Approx(env, Counting(), Order(0, (a, b) => a <= b), n, Ref("f")) == n
  {
    var env := map["f" := Value(One(0, Ref("f")), false, false)];
    Circles(env, Flags(true, true), ["f"]);
    assert [] + ["f"] == ["f"];
    assert FixVerb(env, Flags(true, true), ["f"], One(0, Ref("f"))) == Cycle(1);
    CountsCalls(env, Order(0, (a, b) => a <= b), n);
  }

  function Counting(): Meanings<nat> {
    Meanings(_ => 0, (_, a) => a + 1, (_, a, b) => a + b, (_, a, b, c) => a + b + c)
  }

  lemma {:induction false} Circles(env: Names, flags: Flags, names: seq<Name>)
    requires env == map["f" := Value(One(0, Ref("f")), false, false)] && flags.recur && flags.public
    requires 0 < |names| <= LIMIT && forall i :: 0 <= i < |names| ==> names[i] == "f"
    ensures FixVerb(env, flags, names, Ref("f")) == Cycle(1)
    decreases LIMIT - |names|
  {
    if |names| > 125 {
      CycleStartIs(names);
    } else {
      Circles(env, flags, names + ["f"]);
    }
  }

  lemma {:induction false} CountsCalls(env: Names, o: Order<nat>, n: nat)
    requires env == map["f" := Value(One(0, Ref("f")), false, false)] && o.bottom == 0
    ensures Eval(env, Counting(), n, Ref("f")).None? && Approx(env, Counting(), o, n, Ref("f")) == n
  {
    if n > 0 {
      CountsCalls(env, o, n - 1);
    }
  }

  // ---- Names that do not go in circles are all replaced.

  predicate NameFree(w: Verb) {
    match w
    case Primitive(_) => true
    case Ref(_) => false
    case One(_, f) => NameFree(f)
    case Two(_, f, g) => NameFree(f) && NameFree(g)
    case Three(_, f, g, h) => NameFree(f) && NameFree(g) && NameFree(h)
  }

  /** Every name in w is defined, can be replaced and ranks below r. */
  predicate Below(env: Names, rank: map<Name, nat>, w: Verb, r: nat) {
    match w
    case Primitive(_) => true
    case Ref(x) => x in env && x in rank && rank[x] < r && !env[x].locked
    case One(_, f) => Below(env, rank, f, r)
    case Two(_, f, g) => Below(env, rank, f, r) && Below(env, rank, g, r)
    case Three(_, f, g, h) => Below(env, rank, f, r) && Below(env, rank, g, r) && Below(env, rank, h, r)
  }

  /** The names can be ranked so that a value only uses names of lower rank. */
  ghost predicate Acyclic(env: Names, rank: map<Name, nat>) {
    forall x :: x in env && x in rank ==> Below(env, rank, env[x].verb, rank[x])
  }

  /** Without cycles, and with names nested no deeper than the list allows, no name is left. */
  lemma {:induction false} AcyclicNameFree(env: Names, flags: Flags, names: seq<Name>, w: Verb, rank: map<Name, nat>, r: nat)
    requires |names| + r <= LIMIT && Acyclic(env, rank) && Below(env, rank, w, r) && flags.recur && flags.public
    ensures FixVerb(env, flags, names, w).Fixed? && NameFree(FixVerb(env, flags, names, w).v)
    decreases r, w
  {
    match w
    case Primitive(_) =>
    case One(_, f) =>
      AcyclicNameFree(env, flags, names, f, rank, r);
    case Two(_, f, g) =>
      AcyclicNameFree(env, flags, names, f, rank, r);
      AcyclicNameFree(env, flags, names, g, rank, r);
    case Three(_, f, g, h) =>
      AcyclicNameFree(env, flags, names, f, rank, r);
      AcyclicNameFree(env, flags, names, g, rank, r);
      AcyclicNameFree(env, flags, names, h, rank, r);
    case Ref(x) =>
      AcyclicNameFree(env, flags, names + [x], env[x].verb, rank, rank[x]);
  }
}
