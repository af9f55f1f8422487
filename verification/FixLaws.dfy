/** Which names fixing replaces, which it leaves, and when it fails: by the names in the verbs alone. */
module FixLaws {
  import opened Wrappers
  import opened Fix

  // ---- The names of a verb.

  /** The names in w, from left to right. */
  function NamesIn(w: Verb): seq<Name> {
    match w
    case Primitive(_) => []
    case Ref(x) => [x]
    case One(_, f) => NamesIn(f)
    case Two(_, f, g) => NamesIn(f) + NamesIn(g)
    case Three(_, f, g, h) => NamesIn(f) + NamesIn(g) + NamesIn(h)
  }

  /** The value of a name may be looked into. */
  predicate Open(env: Names, flags: Flags, x: Name) {
    x in env && !env[x].locked && (env[x].public ==> flags.public)
  }

  // ---- Values that are not exposed.

  /** Two environments that differ in values that may not be looked into. */
  ghost predicate SameOpen(env: Names, env': Names, flags: Flags) {
    && env.Keys == env'.Keys
    && forall x :: x in env ==>
         && env[x].locked == env'[x].locked && env[x].public == env'[x].public
         && (env[x].verb == env'[x].verb || env[x].locked || (env[x].public && !flags.public))
  }

  lemma {:induction false} ClosedUnread(env: Names, env': Names, flags: Flags, names: seq<Name>, w: Verb)
    requires SameOpen(env, env', flags) && |names| <= LIMIT
    ensures FixVerb(env, flags, names, w) == FixVerb(env', flags, names, w)
    decreases LIMIT - |names|, w
  {
    match w
    case Primitive(_) =>
    case One(_, f) =>
      ClosedUnread(env, env', flags, names, f);
    case Two(_, f, g) =>
      ClosedUnread(env, env', flags, names, f);
      ClosedUnread(env, env', flags, names, g);
    case Three(_, f, g, h) =>
      ClosedUnread(env, env', flags, names, f);
      ClosedUnread(env, env', flags, names, g);
      ClosedUnread(env, env', flags, names, h);
    case Ref(x) =>
      if |names| <= 125 && x in env && env[x].verb == env'[x].verb {
        ClosedUnread(env, env', flags, names + [x], env[x].verb);
      }
  }

  /** A locked value is never exposed, nor a public one unless public names are fixed: nothing depends on it. */
  lemma NothingExposed(env: Names, env': Names, flags: Flags, w: Verb)
    requires SameOpen(env, env', flags)
    ensures FixTop(env, flags, w) == FixTop(env', flags, w)
  {
    ClosedUnread(env, env', flags, [], w);
  }

  /** A name alone that is locked, or public and to be left, is left. */
  lemma ClosedLeft(env: Names, flags: Flags, x: Name)
    requires x in env && !Open(env, flags, x)
    ensures FixTop(env, flags, Ref(x)) == Fixed(Ref(x))
  {
  }

  /** Without recursion exactly a name at the top is replaced, by its value as it stands. */
  lemma TopOnly(env: Names, flags: Flags, w: Verb)
    requires !flags.recur
    ensures !w.Ref? ==> FixTop(env, flags, w) == Fixed(w)
    ensures forall x :: w == Ref(x) ==>
                          FixTop(env, flags, w) == if x !in env then ValueError
                                                   else if Open(env, flags, x) then Fixed(env[x].verb) else Fixed(w)
  {
  }

  // ---- The names that are reached.

  /** What looking up names comes to: an end, an undefined name, a full list without a cycle, or a full list
      whose cycle starts at a place. */
  datatype Stop = Ends | Undefined | Full | Back(to: nat)

  /** The search through a list of names, each followed by the names of its value; names are those that led
      here. */
  function Search(env: Names, flags: Flags, names: seq<Name>, todo: seq<Name>): Stop
    requires |names| <= LIMIT
    decreases LIMIT - |names|, |todo|
  {
    if todo == [] then Ends
    else
      var x := todo[0];
      var s := if |names| == LIMIT then
                 (match CycleStart(names)
                  case Some(c) => Back(c)
                  case None => Full)
               else if x !in env then Undefined
               else if !Open(env, flags, x) then Ends
               else
                 var below := Search(env, flags, names + [x], NamesIn(env[x].verb));
                 if below == Back(|names|) then Ends else below;
      if s == Ends then Search(env, flags, names, todo[1..]) else s
  }

  lemma {:induction false} SearchBoth(env: Names, flags: Flags, names: seq<Name>, s: seq<Name>, t: seq<Name>)
    requires |names| <= LIMIT
    ensures Search(env, flags, names, s + t) ==
            if Search(env, flags, names, s) == Ends then Search(env, flags, names, t) else Search(env, flags, names, s)
    decreases |s|
  {
    if s == [] {
      assert s + t == t;
    } else {
      assert (s + t)[1..] == s[1..] + t;
      SearchBoth(env, flags, names, s[1..], t);
    }
  }

  /** What an outcome says of the names that were looked up. */
  function StopOf(z: Outcome): Stop {
    match z
    case Fixed(_) => Ends
    case ValueError => Undefined
    case LimitError => Full
    case Cycle(start) => if start > 0 then Back(start - 1) else Ends
  }

  lemma {:induction false} FixSearches(env: Names, flags: Flags, names: seq<Name>, w: Verb)
    requires flags.recur && |names| <= LIMIT
    ensures StopOf(FixVerb(env, flags, names, w)) == Search(env, flags, names, NamesIn(w))
    decreases LIMIT - |names|, w
  {
    CycleStaysInside(env, flags, names, w);
    match w
    case Primitive(_) =>
    case One(_, f) =>
      FixSearches(env, flags, names, f);
    case Two(_, f, g) =>
      FixSearches(env, flags, names, f);
      FixSearches(env, flags, names, g);
      PartsInside(env, flags, names, f);
      SearchBoth(env, flags, names, NamesIn(f), NamesIn(g));
    case Three(_, f, g, h) =>
      FixSearches(env, flags, names, f);
      FixSearches(env, flags, names, g);
      FixSearches(env, flags, names, h);
      PartsInside(env, flags, names, f);
      PartsInside(env, flags, names, g);
      SearchBoth(env, flags, names, NamesIn(f), NamesIn(g));
      SearchBoth(env, flags, names, NamesIn(f) + NamesIn(g), NamesIn(h));
    case Ref(x) =>
      if |names| < LIMIT && Open(env, flags, x) {
        FixSearches(env, flags, names + [x], env[x].verb);
        CycleStaysInside(env, flags, names + [x], env[x].verb);
      }
      SearchOne(env, flags, names, x);
  }

  lemma PartsInside(env: Names, flags: Flags, names: seq<Name>, f: Verb)
    requires |names| <= LIMIT
    ensures FixVerb(env, flags, names, f).Cycle? ==> FixVerb(env, flags, names, f).start > 0
  {
    CycleStaysInside(env, flags, names, f);
  }

  lemma SearchOne(env: Names, flags: Flags, names: seq<Name>, x: Name)
    requires |names| <= LIMIT
    ensures Search(env, flags, names, [x]) ==
            if |names| == LIMIT then
              (match CycleStart(names)
               case Some(c) => Back(c)
               case None => Full)
            else if x !in env then Undefined
            else if !Open(env, flags, x) then Ends
            else
              var below := Search(env, flags, names + [x], NamesIn(env[x].verb));
              if below == Back(|names|) then Ends else below
  {
  }

  /** Fixing fails for an undefined name, or for too many, exactly if the search through the names does. */
  lemma ErrorsIff(env: Names, flags: Flags, w: Verb)
    requires flags.recur
    ensures FixTop(env, flags, w) == ValueError <==> Search(env, flags, [], NamesIn(w)) == Undefined
    ensures FixTop(env, flags, w) == LimitError <==> Search(env, flags, [], NamesIn(w)) == Full
    ensures FixTop(env, flags, w).Fixed? <==> Search(env, flags, [], NamesIn(w)) == Ends
  {
    FixSearches(env, flags, [], w);
    TopHasNoCycle(env, flags, w);
  }

  // ---- Paths of names.

  /** Each name is in the value of the one before it, which may be looked into. */
  ghost predicate Path(env: Names, flags: Flags, p: seq<Name>) {
    forall i :: 0 <= i < |p| - 1 ==> Leads(env, flags, p[i], p[i + 1])
  }

  ghost predicate Leads(env: Names, flags: Flags, x: Name, y: Name) {
    Open(env, flags, x) && y in NamesIn(env[x].verb)
  }

  /** A path from a name of w. */
  ghost predicate PathFrom(env: Names, flags: Flags, w: Verb, p: seq<Name>) {
    p != [] && p[0] in NamesIn(w) && Path(env, flags, p)
  }

  ghost predicate Continues(env: Names, flags: Flags, names: seq<Name>, todo: seq<Name>) {
    && Path(env, flags, names)
    && (names != [] ==> Open(env, flags, names[|names| - 1]) &&
                        forall x :: x in todo ==> x in NamesIn(env[names[|names| - 1]].verb))
  }

  lemma Fewer(env: Names, flags: Flags, names: seq<Name>, s: seq<Name>, t: seq<Name>)
    requires Continues(env, flags, names, s) && forall x :: x in t ==> x in s
    ensures Continues(env, flags, names, t)
  {
    hide Path;
  }

  lemma InParts(env: Names, flags: Flags, names: seq<Name>, r: seq<Name>, s: seq<Name>, t: seq<Name>)
    requires Continues(env, flags, names, r + s + t)
    ensures Continues(env, flags, names, r) && Continues(env, flags, names, s) && Continues(env, flags, names, t)
  {
    Fewer(env, flags, names, r + s + t, r);
    Fewer(env, flags, names, r + s + t, s);
    Fewer(env, flags, names, r + s + t, t);
    hide *;
  }

  lemma InBoth(env: Names, flags: Flags, names: seq<Name>, s: seq<Name>, t: seq<Name>)
    requires Continues(env, flags, names, s + t)
    ensures Continues(env, flags, names, s) && Continues(env, flags, names, t)
  {
    Fewer(env, flags, names, s + t, s);
    Fewer(env, flags, names, s + t, t);
    hide *;
  }

  lemma PathOn(env: Names, flags: Flags, names: seq<Name>, todo: seq<Name>, x: Name)
    requires Continues(env, flags, names, todo) && x in todo
    ensures Path(env, flags, names + [x])
    ensures Open(env, flags, x) ==> Continues(env, flags, names + [x], NamesIn(env[x].verb))
  {
    var p := names + [x];
    forall i | 0 <= i < |p| - 1 ensures Leads(env, flags, p[i], p[i + 1]) {
      if i < |names| - 1 {
        assert Leads(env, flags, names[i], names[i + 1]);
      }
    }
  }

  /** The search fails at the end of a path: at an undefined name, or at one name more than fit, the last of
      which does not come back. */
  ghost predicate Stuck(env: Names, flags: Flags, names: seq<Name>, todo: seq<Name>, s: Stop, p: seq<Name>) {
    && Path(env, flags, p) && |names| < |p| && names == p[..|names|] && p[|names|] in todo
    && (s == Undefined ==> |p| <= LIMIT && p[|p| - 1] !in env)
    && (s == Full ==> |p| == LIMIT + 1 && p[LIMIT - 1] !in p[..LIMIT - 2])
  }

  lemma {:induction false} FailsAt(env: Names, flags: Flags, names: seq<Name>, todo: seq<Name>) returns (p: seq<Name>)
    requires |names| <= LIMIT && Continues(env, flags, names, todo)
    ensures var s := Search(env, flags, names, todo); s in {Undefined, Full} ==> Stuck(env, flags, names, todo, s, p)
    decreases LIMIT - |names|, |todo|
  {
    p := [];
    if todo != [] {
      var x := todo[0];
      PathOn(env, flags, names, todo, x);
      p := names + [x];
      SearchOne(env, flags, names, x);
      var s := Search(env, flags, names, [x]);
      if s == Ends {
        Fewer(env, flags, names, todo, todo[1..]);
        p := FailsAt(env, flags, names, todo[1..]);
      } else if |names| == LIMIT {
        CycleStartIs(names);
        assert p[..LIMIT] == names && p[LIMIT - 1] == names[LIMIT - 1] && p[..LIMIT - 2] == names[..LIMIT - 2];
      } else if x in env {
        p := FailsAt(env, flags, names + [x], NamesIn(env[x].verb));
        if s in {Undefined, Full} {
          assert p[..|names|] == p[..|names| + 1][..|names|];
          assert p[|names|] == p[..|names| + 1][|names|] == x;
        }
      }
    }
  }

  /** No path of as many names as fit comes back to one of its names. */
  ghost predicate NoReturn(env: Names, flags: Flags) {
    forall p :: |p| == LIMIT && Path(env, flags, p) ==> p[LIMIT - 1] !in p[..LIMIT - 2]
  }

  lemma {:induction false} NotBack(env: Names, flags: Flags, names: seq<Name>, todo: seq<Name>)
    requires |names| <= LIMIT && Continues(env, flags, names, todo) && NoReturn(env, flags)
    ensures !Search(env, flags, names, todo).Back?
    decreases LIMIT - |names|, |todo|
  {
    if todo != [] {
      var x := todo[0];
      PathOn(env, flags, names, todo, x);
      Fewer(env, flags, names, todo, todo[1..]);
      NotBack(env, flags, names, todo[1..]);
      if |names| == LIMIT {
        CycleStartIs(names);
      } else if Open(env, flags, x) {
        NotBack(env, flags, names + [x], NamesIn(env[x].verb));
      }
    }
  }

  /** A path that ends at an undefined name, or has one name more than fit, is not passed over. */
  lemma {:induction false} NotPassed(env: Names, flags: Flags, names: seq<Name>, todo: seq<Name>, p: seq<Name>)
    requires |names| <= LIMIT && Continues(env, flags, names, todo) && NoReturn(env, flags) && Path(env, flags, p)
    requires |names| < |p| && names == p[..|names|] && p[|names|] in todo
    requires |p| == LIMIT + 1 || (|p| <= LIMIT && p[|p| - 1] !in env)
    ensures Search(env, flags, names, todo) != Ends
    decreases LIMIT - |names|, |todo|
  {
    var x := p[|names|];
    if todo[0] != x {
      assert x in todo[1..];
      Fewer(env, flags, names, todo, todo[1..]);
      NotPassed(env, flags, names, todo[1..], p);
    } else {
      PathOn(env, flags, names, todo, x);
      if |p| > |names| + 1 {
        assert Leads(env, flags, p[|names|], p[|names| + 1]);
        assert names + [x] == p[..|names| + 1];
        NotPassed(env, flags, names + [x], NamesIn(env[x].verb), p);
        NotBack(env, flags, names + [x], NamesIn(env[x].verb));
      }
    }
  }

  /** If no path comes back, fixing fails exactly if there is a path to an undefined name, or one that is too
      long; in every case an undefined name, or too long a path that does not come back, is behind a failure. */
  lemma FailsIff(env: Names, flags: Flags, w: Verb)
    requires flags.recur
    ensures FixTop(env, flags, w) == ValueError ==>
              exists p :: PathFrom(env, flags, w, p) && |p| <= LIMIT && p[|p| - 1] !in env
    ensures FixTop(env, flags, w) == LimitError ==>
              exists p :: PathFrom(env, flags, w, p) && |p| == LIMIT + 1 && p[LIMIT - 1] !in p[..LIMIT - 2]
    ensures NoReturn(env, flags) ==>
              (!FixTop(env, flags, w).Fixed? <==>
               exists p :: PathFrom(env, flags, w, p) && (|p| == LIMIT + 1 || (|p| <= LIMIT && p[|p| - 1] !in env)))
  {
    ErrorsIff(env, flags, w);
    TopHasNoCycle(env, flags, w);
    var todo := NamesIn(w);
    var q := FailsAt(env, flags, [], todo);
    if Search(env, flags, [], todo) in {Undefined, Full} {
      assert PathFrom(env, flags, w, q);
    }
    if NoReturn(env, flags) {
      NotBack(env, flags, [], todo);
      forall p | PathFrom(env, flags, w, p) && (|p| == LIMIT + 1 || (|p| <= LIMIT && p[|p| - 1] !in env))
        ensures Search(env, flags, [], todo) != Ends
      {
        assert p[..0] == [];
        NotPassed(env, flags, [], todo, p);
      }
    }
  }

  // ---- The names that are left.

  /** A name whose value leads back to it. */
  ghost predicate OnCycle(env: Names, flags: Flags, x: Name) {
    exists p :: |p| > 1 && Path(env, flags, p) && p[0] == x == p[|p| - 1]
  }

  lemma CycleFound(env: Names, flags: Flags, names: seq<Name>)
    requires |names| == LIMIT && Path(env, flags, names) && CycleStart(names).Some?
    ensures CycleStart(names).value < |names| && OnCycle(env, flags, names[CycleStart(names).value])
  {
    hide CycleStart, FirstOf, OnCycle, Path;
    CycleStartIs(names);
    var c, period := CycleStart(names).value, LIMIT - 1 - FirstOf(names, names[LIMIT - 1], LIMIT - 2);
    assert Matches(names, c, period);
    PartOnCycle(env, flags, names, c, c + period);
  }

  lemma PartOnCycle(env: Names, flags: Flags, names: seq<Name>, c: nat, d: nat)
    requires Path(env, flags, names) && c < d < |names| && names[c] == names[d]
    ensures OnCycle(env, flags, names[c])
  {
    var p := names[c..d + 1];
    forall i | 0 <= i < |p| - 1 ensures Leads(env, flags, p[i], p[i + 1]) {
      assert Leads(env, flags, names[c + i], names[c + i + 1]);
    }
    assert Path(env, flags, p) && |p| > 1 && p[0] == names[c] == p[|p| - 1];
  }

  lemma {:induction false} CycleIsOne(env: Names, flags: Flags, names: seq<Name>, w: Verb)
    requires flags.recur && |names| <= LIMIT && Continues(env, flags, names, NamesIn(w)) && FixVerb(env, flags, names, w).Cycle?
    ensures var s := FixVerb(env, flags, names, w).start; 0 < s <= |names| && OnCycle(env, flags, names[s - 1])
    decreases LIMIT - |names|, w
  {
    CycleStaysInside(env, flags, names, w);
    hide OnCycle, Continues;
    match w
    case Primitive(_) =>
    case One(_, f) =>
      CycleIsOne(env, flags, names, f);
    case Two(_, f, g) =>
      InBoth(env, flags, names, NamesIn(f), NamesIn(g));
      if FixVerb(env, flags, names, f).Cycle? {
        CycleIsOne(env, flags, names, f);
      } else {
        CycleIsOne(env, flags, names, g);
      }
    case Three(_, f, g, h) =>
      InParts(env, flags, names, NamesIn(f), NamesIn(g), NamesIn(h));
      if FixVerb(env, flags, names, f).Cycle? {
        CycleIsOne(env, flags, names, f);
      } else if FixVerb(env, flags, names, g).Cycle? {
        CycleIsOne(env, flags, names, g);
      } else {
        CycleIsOne(env, flags, names, h);
      }
    case Ref(x) =>
      if |names| > 125 {
        CycleFound(env, flags, names);
      } else {
        PathOn(env, flags, names, [x], x);
        CycleIsOne(env, flags, names + [x], env[x].verb);
      }
  }

  /** Every name that is left in a fixed verb may not be looked into, or its value leads back to it. */
  lemma {:induction false} LeftNames(env: Names, flags: Flags, names: seq<Name>, w: Verb, y: Name)
    requires flags.recur && |names| <= LIMIT && Continues(env, flags, names, NamesIn(w))
    requires FixVerb(env, flags, names, w).Fixed? && y in NamesIn(FixVerb(env, flags, names, w).v)
    ensures y in env && (!Open(env, flags, y) || OnCycle(env, flags, y))
    decreases LIMIT - |names|, w
  {
    hide OnCycle, Continues;
    match w
    case Primitive(_) =>
    case One(_, f) =>
      LeftNames(env, flags, names, f, y);
    case Two(_, f, g) =>
      InBoth(env, flags, names, NamesIn(f), NamesIn(g));
      if y in NamesIn(FixVerb(env, flags, names, f).v) {
        LeftNames(env, flags, names, f, y);
      } else {
        LeftNames(env, flags, names, g, y);
      }
    case Three(_, f, g, h) =>
      InParts(env, flags, names, NamesIn(f), NamesIn(g), NamesIn(h));
      if y in NamesIn(FixVerb(env, flags, names, f).v) {
        LeftNames(env, flags, names, f, y);
      } else if y in NamesIn(FixVerb(env, flags, names, g).v) {
        LeftNames(env, flags, names, g, y);
      } else {
        LeftNames(env, flags, names, h, y);
      }
    case Ref(x) =>
      LeftOfName(env, flags, names, x, y);
  }

  lemma {:induction false} LeftOfName(env: Names, flags: Flags, names: seq<Name>, x: Name, y: Name)
    requires flags.recur && |names| <= LIMIT && Continues(env, flags, names, [x])
    requires FixVerb(env, flags, names, Ref(x)).Fixed? && y in NamesIn(FixVerb(env, flags, names, Ref(x)).v)
    ensures y in env && (!Open(env, flags, y) || OnCycle(env, flags, y))
    decreases LIMIT - |names|, Ref(x), 0
  {
    hide OnCycle;
    if Open(env, flags, x) {
      PathOn(env, flags, names, [x], x);
      var z := FixVerb(env, flags, names + [x], env[x].verb);
      if z.Cycle? {
        CycleIsOne(env, flags, names + [x], env[x].verb);
        assert z.start == |names| + 1;
      } else {
        LeftNames(env, flags, names + [x], env[x].verb, y);
      }
    }
  }

  /** So of the whole: only names that are locked, or public and to be left, or on a cycle, are left. */
  lemma OnlyTheseLeft(env: Names, flags: Flags, w: Verb, y: Name)
    requires flags.recur && FixTop(env, flags, w).Fixed? && y in NamesIn(FixTop(env, flags, w).v)
    ensures y in env && (!Open(env, flags, y) || OnCycle(env, flags, y))
  {
    LeftNames(env, flags, [], w, y);
  }
}
