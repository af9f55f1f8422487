/** What a fold comes to: its one end, Single against Multiple, Reverse against Forward, and what each
    request to Z: does. */
module FoldLaws {
  import opened Wrappers
  import opened Fold

  /** A fold ends once: its result is a function of its verbs and arguments. */
  lemma EndsOnce<X, R>(p: Problem<X, R>, j: nat, k: nat)
    requires Starts(p) && j < Turns(p) && k < Turns(p) && EndsAt(p, j) && EndsAt(p, k)
    ensures j == k
  {
    hide TurnAt, Turns;
  }

  // ---- Single against Multiple.

  lemma {:induction false} SameValues<X, R>(p: Problem<X, R>, q: Problem<X, R>, k: nat)
    requires q == p.(multiple := !p.multiple) && Starts(p) && k <= Turns(p)
    ensures Starts(q) && Turns(q) == Turns(p) && Value(q, k) == Value(p, k)
  {
    hide *;
    SameStart(p, q);
    NothingYet(p);
    NothingYet(q);
    if k > 0 {
      SameValues(p, q, k - 1);
      SameItem(p, q, k - 1);
      SameTurn(p, q, k - 1, Item(p, k - 1), Value(p, k - 1));
      TurnIs(p, k - 1);
      TurnIs(q, k - 1);
    }
  }

  lemma SameStart<X, R>(p: Problem<X, R>, q: Problem<X, R>)
    requires q == p.(multiple := !p.multiple) && Starts(p)
    ensures Starts(q) && Turns(q) == Turns(p) && First(q) == First(p)
  {
  }

  lemma SameItem<X, R>(p: Problem<X, R>, q: Problem<X, R>, k: nat)
    requires q == p.(multiple := !p.multiple) && Starts(p) && k < Turns(p)
    ensures Runs(p) && Runs(q) && Turns(q) == Turns(p) && Item(q, k) == Item(p, k)
  {
  }

  lemma SameTurn<X, R>(p: Problem<X, R>, q: Problem<X, R>, k: nat, item: Option<X>, vz: X)
    requires p.u == q.u && p.v == q.v
    ensures OneTurn(q, k, item, vz) == OneTurn(p, k, item, vz)
  {
  }

  lemma SameTurns<X, R>(p: Problem<X, R>, q: Problem<X, R>, k: nat)
    requires q == p.(multiple := !p.multiple) && Starts(p) && k < Turns(p)
    ensures Starts(q) && Turns(q) == Turns(p) && TurnAt(q, k) == TurnAt(p, k)
  {
    hide OneTurn, Value;
    SameValues(p, q, k);
    SameTurn(p, q, k, Item(p, k), Value(p, k));
  }

  lemma {:induction false} SameAdded<X, R>(p: Problem<X, R>, q: Problem<X, R>, k: nat)
    requires q == p.(multiple := !p.multiple) && Starts(p) && k <= Turns(p)
    ensures Starts(q) && Turns(q) == Turns(p) && Added(q, k) == Added(p, k)
  {
    hide TurnAt;
    if k > 0 {
      SameAdded(p, q, k - 1);
      SameTurns(p, q, k - 1);
    } else {
      SameValues(p, q, 0);
    }
  }

  /** The result of Fold Single is the last result of Fold Multiple; when there is none, neither has
      one; when one fails or hits the limit, so does the other. */
  lemma SingleIsLastOfMultiple<X, R>(p: Problem<X, R>, q: Problem<X, R>, k: nat)
    requires p.multiple && q == p.(multiple := false) && Starts(p) && k < Turns(p) && EndsAt(p, k)
    ensures Starts(q) && Turns(q) == Turns(p) && EndsAt(q, k)
    ensures match Ending(p, k)
            case Items(s) => s != [] && Ending(q, k) == One(s[|s| - 1])
            case other => Ending(q, k) == other
  {
    hide TurnAt, Added;
    SameTurns(p, q, k);
    SameAdded(p, q, k);
    SameAdded(p, q, k + 1);
    forall j: nat | j < k ensures TurnAt(q, j).how == GoOn {
      SameTurns(p, q, j);
    }
    EndingIs(p, k);
    EndingIs(q, k);
  }

  // ---- Reverse against Forward.

  lemma {:induction false} ReverseValues<X, R>(p: Problem<X, R>, q: Problem<X, R>, k: nat)
    requires p.direction == Reverse && q == p.(direction := Forward, y := Reversed(p.y)) && Starts(p) && k <= Turns(p)
    ensures Starts(q) && Turns(q) == Turns(p) && Value(q, k) == Value(p, k)
  {
    hide *;
    ReverseStart(p, q);
    NothingYet(p);
    NothingYet(q);
    if k > 0 {
      ReverseValues(p, q, k - 1);
      ReverseItem(p, q, k - 1);
      SameTurn(p, q, k - 1, Item(p, k - 1), Value(p, k - 1));
      TurnIs(p, k - 1);
      TurnIs(q, k - 1);
    }
  }

  lemma ReverseStart<X, R>(p: Problem<X, R>, q: Problem<X, R>)
    requires p.direction == Reverse && q == p.(direction := Forward, y := Reversed(p.y)) && Starts(p)
    ensures Starts(q) && Turns(q) == Turns(p) && First(q) == First(p)
  {
  }

  lemma ReverseItem<X, R>(p: Problem<X, R>, q: Problem<X, R>, k: nat)
    requires p.direction == Reverse && q == p.(direction := Forward, y := Reversed(p.y)) && Starts(p) && k < Turns(p)
    ensures Runs(p) && Runs(q) && Turns(q) == Turns(p) && Item(q, k) == Item(p, k)
  {
  }

  lemma ReverseTurns<X, R>(p: Problem<X, R>, q: Problem<X, R>, k: nat)
    requires p.direction == Reverse && q == p.(direction := Forward, y := Reversed(p.y)) && Starts(p) && k < Turns(p)
    ensures Starts(q) && Turns(q) == Turns(p) && TurnAt(q, k) == TurnAt(p, k)
  {
    ReverseValues(p, q, k);
    hide OneTurn, Value;
    assert Item(q, k) == Item(p, k);
    SameTurn(p, q, k, Item(p, k), Value(p, k));
  }

  lemma {:induction false} ReverseAdded<X, R>(p: Problem<X, R>, q: Problem<X, R>, k: nat)
    requires p.direction == Reverse && q == p.(direction := Forward, y := Reversed(p.y)) && Starts(p) && k <= Turns(p)
    ensures Starts(q) && Turns(q) == Turns(p) && Added(q, k) == Added(p, k) && Ran(q, k) == Ran(p, k)
  {
    hide TurnAt, Turns;
    if k > 0 {
      ReverseAdded(p, q, k - 1);
      ReverseTurns(p, q, k - 1);
    } else {
      ReverseValues(p, q, 0);
    }
  }

  /** A reverse fold takes the turns of the forward fold on the reversed items, stores the same, and ends at
      the same turn with the same result. */
  lemma ReverseAt<X, R>(p: Problem<X, R>, q: Problem<X, R>, k: nat)
    requires p.direction == Reverse && q == p.(direction := Forward, y := Reversed(p.y)) && Starts(p) && k < Turns(p)
    ensures Starts(q) && Turns(q) == Turns(p) && TurnAt(q, k) == TurnAt(p, k)
    ensures Added(q, k + 1) == Added(p, k + 1) && Ran(q, k + 1) == Ran(p, k + 1)
    ensures EndsAt(q, k) <==> EndsAt(p, k)
    ensures Ending(q, k) == Ending(p, k)
  {
    hide TurnAt, Added, Turns, Ran, Ending;
    ReverseTurns(p, q, k);
    ReverseAdded(p, q, k);
    ReverseAdded(p, q, k + 1);
    forall j: nat | j < k ensures TurnAt(q, j) == TurnAt(p, j) {
      ReverseTurns(p, q, j);
    }
    EndingIs(p, k);
    EndingIs(q, k);
    CollectedSame(p, q, Added(p, k));
    CollectedSame(p, q, Added(p, k + 1));
  }

  lemma CollectedSame<X, R>(p: Problem<X, R>, q: Problem<X, R>, s: seq<R>)
    requires p.multiple == q.multiple
    ensures Collected(p, s) == Collected(q, s)
  {
  }

  /** So a reverse fold has the result and the statistics of the forward fold on the reversed items. */
  lemma ReverseIsForwardOnReversed<X, R>(p: Problem<X, R>, q: Problem<X, R>, r: Result<R>, stats: Stats)
    requires p.direction == Reverse && q == p.(direction := Forward, y := Reversed(p.y))
    ensures FoldsTo(p, r, stats) <==> FoldsTo(q, r, stats)
  {
    if Runs(p) {
      NothingYet(p);
      ReverseValues(p, q, 0);
      forall k: nat | k < Turns(p)
        ensures EndsAt(q, k) && r == Ending(q, k) && StatsAt(q, k + 1, stats) <==>
                EndsAt(p, k) && r == Ending(p, k) && StatsAt(p, k + 1, stats)
      {
        ReverseAt(p, q, k);
      }
    }
    hide Turns, Ran, Added, Ending, EndsAt;
  }

  // ---- Verbs that leave Z: alone.

  /** v and u are plain functions. */
  ghost predicate Plain<X(!new), R>(p: Problem<X, R>, f: (Option<X>, X) -> X, g: X -> R) {
    && (forall n: nat, i: Option<X>, x: X :: p.v(n, i, x) == Reply(Some(f(i, x)), NONE))
    && (forall n: nat, x: X :: p.u(n, x) == Reply(Some(g(x)), NONE))
  }

  /** v inserted between the first value and the items of the first k turns. */
  function Folded<X, R>(p: Problem<X, R>, f: (Option<X>, X) -> X, k: nat): X
    requires Starts(p) && k <= Turns(p)
  {
    if k == 0 then First(p) else f(Item(p, k - 1), Folded(p, f, k - 1))
  }

  lemma PlainTurn<X(!new), R>(p: Problem<X, R>, f: (Option<X>, X) -> X, g: X -> R, k: nat, item: Option<X>, vz: X)
    requires Plain(p, f, g)
    ensures OneTurn(p, k, item, vz) == Turn(f(item, vz), Some(g(f(item, vz))), true, GoOn)
  {
    assert p.v(k + 1, item, vz) == Reply(Some(f(item, vz)), NONE);
    assert p.u(k + 1, f(item, vz)) == Reply(Some(g(f(item, vz))), NONE);
  }

  lemma {:induction false} PlainAt<X(!new), R>(p: Problem<X, R>, f: (Option<X>, X) -> X, g: X -> R, k: nat)
    requires Starts(p) && Plain(p, f, g) && k <= Turns(p)
    ensures Value(p, k) == Folded(p, f, k) && Reaches(p, k)
    ensures |Added(p, k)| == k && forall j: nat :: j < k ==> Added(p, k)[j] == g(Folded(p, f, j + 1))
  {
    hide OneTurn, Plain, Item, Turns, First, Starts;
    NothingYet(p);
    if k > 0 {
      PlainAt(p, f, g, k - 1);
      TurnIs(p, k - 1);
      PlainTurn(p, f, g, k - 1, Item(p, k - 1), Value(p, k - 1));
      ReachesOn(p, k - 1);
      FoldedStep(p, f, k - 1);
      hide *;
    }
  }

  lemma FoldedStep<X, R>(p: Problem<X, R>, f: (Option<X>, X) -> X, k: nat)
    requires Starts(p) && k < Turns(p)
    ensures Folded(p, f, k + 1) == f(Item(p, k), Folded(p, f, k))
  {
  }

  /** Result k of Fold Multiple is u of the v-fold through step k, for every step. */
  lemma PlainMultiple<X(!new), R>(p: Problem<X, R>, f: (Option<X>, X) -> X, g: X -> R) returns (s: seq<R>)
    requires Starts(p) && Plain(p, f, g) && p.multiple
    ensures Turns(p) > 0 && EndsAt(p, Turns(p) - 1) && Ending(p, Turns(p) - 1) == Items(s)
    ensures |s| == Turns(p) && forall j: nat :: j < Turns(p) ==> s[j] == g(Folded(p, f, j + 1))
  {
    LoopStarts(p);
    var n := Turns(p);
    hide *;
    PlainAt(p, f, g, n - 1);
    PlainAt(p, f, g, n);
    TurnIs(p, n - 1);
    PlainTurn(p, f, g, n - 1, Item(p, n - 1), Value(p, n - 1));
    EndsHere(p, n - 1);
    EndingIs(p, n - 1);
    s := Added(p, n);
    CollectedIs(p, s);
  }

  lemma CollectedIs<X, R>(p: Problem<X, R>, s: seq<R>)
    ensures Collected(p, s) == if s == [] then NoResult else if p.multiple then Items(s) else One(s[|s| - 1])
  {
  }

  // ---- What the requests do.

  /** What was asked for in a turn: by v, and by u if it ran. */
  function Asked<X, R>(p: Problem<X, R>, k: nat): Flags
    requires Starts(p) && k < Turns(p)
  {
    var rv := p.v(k + 1, Item(p, k), Value(p, k));
    if TurnAt(p, k).ran then rv.flags.Or(p.u(k + 1, TurnAt(p, k).next).flags) else rv.flags
  }

  /** _3 ends the fold with an error; _2 ends it with what has been stored before; _1 stores nothing
      and 0 stores nothing but both go on; 1 stores and makes this turn the last.  Nothing else keeps
      a result out, or ends the fold, but a verb that fails. */
  lemma RequestsDecide<X, R>(p: Problem<X, R>, k: nat)
    requires Starts(p) && k < Turns(p)
    ensures var t, f := TurnAt(p, k), Asked(p, k);
            && (t.how == Limit <==> f.limit)
            && (t.how == Stop <==> f.stop && !f.limit)
            && (t.how == Last ==> f.last) && (t.how == GoOn ==> !f.last)
            && (f.skip && !f.limit && !f.stop ==> t.how in {GoOn, Last} && t.kept.None?)
            && (t.kept.Some? <==> t.how in {GoOn, Last} && !f.skip && !f.quiet)
            && (t.how == Fail ==> !f.limit && !f.stop && !f.skip)
  {
    hide Item, Value;
  }

  /** A request by v to skip, or to end, keeps u from running; a result of v is carried on even so. */
  lemma SkippedByV<X, R>(p: Problem<X, R>, k: nat)
    requires Starts(p) && k < Turns(p)
    ensures var rv, t := p.v(k + 1, Item(p, k), Value(p, k)), TurnAt(p, k);
            && (rv.flags.limit || rv.flags.stop || rv.flags.skip ==> !t.ran)
            && (rv.flags.skip && !rv.flags.limit && !rv.flags.stop ==>
                  Value(p, k + 1) == if rv.value.Some? then rv.value.value else Value(p, k))
            && (rv.flags.skip ==> Added(p, k + 1) == Added(p, k) && Ran(p, k + 1) == Ran(p, k))
  {
    TurnIs(p, k);
    hide Item, Value, Added, Ran;
  }

  /** A fold that ends with the second kind of request, or whose every turn was skipped or quiet,
      has no result exactly if nothing was stored before. */
  lemma NoResultIff<X, R>(p: Problem<X, R>, k: nat)
    requires Starts(p) && k < Turns(p) && EndsAt(p, k)
    ensures Ending(p, k) == NoResult <==>
            TurnAt(p, k).how !in {Limit, Fail} && forall j: nat :: j <= k ==> TurnAt(p, j).kept.None?
  {
    hide TurnAt, Added;
    EndingIs(p, k);
    AddedNone(p, k);
    AddedNone(p, k + 1);
    StopKeepsNone(p, k);
    TurnIs(p, k);
  }

  lemma StopKeepsNone<X, R>(p: Problem<X, R>, k: nat)
    requires Starts(p) && k < Turns(p)
    ensures TurnAt(p, k).how == Stop ==> TurnAt(p, k).kept.None?
  {
    hide Item, Value, Turns, Starts;
  }

  lemma {:induction false} AddedNone<X, R>(p: Problem<X, R>, k: nat)
    requires Starts(p) && k <= Turns(p)
    ensures Added(p, k) == [] <==> forall j: nat :: j < k ==> TurnAt(p, j).kept.None?
  {
    hide TurnAt, Added;
    NothingYet(p);
    if k > 0 {
      AddedNone(p, k - 1);
      TurnIs(p, k - 1);
    }
  }

  // ---- A turn, from the replies of the verbs.

  /** What a turn carries on: the result of v if v gave one, unless v asked to end the fold; no other request
      matters. */
  lemma CarriedOn<X, R>(p: Problem<X, R>, k: nat)
    requires Starts(p) && k < Turns(p)
    ensures var rv := p.v(k + 1, Item(p, k), Value(p, k));
            Value(p, k + 1) == if rv.value.Some? && !rv.flags.limit && !rv.flags.stop then rv.value.value else Value(p, k)
  {
    TurnIs(p, k);
    NextCases(p, k, Item(p, k), Value(p, k));
    hide *;
  }

  lemma NextCases<X, R>(p: Problem<X, R>, k: nat, item: Option<X>, vz: X)
    ensures var rv := p.v(k + 1, item, vz);
            OneTurn(p, k, item, vz).next == if rv.value.Some? && !rv.flags.limit && !rv.flags.stop then rv.value.value else vz
  {
  }

  /** What a turn stores: the result of u for the result of v, unless v or u asked to end the fold, to skip or to
      be quiet, or either has no result.  u runs unless v asked to end or to skip, or has no result. */
  lemma StoredNow<X, R>(p: Problem<X, R>, k: nat)
    requires Starts(p) && k < Turns(p)
    ensures var rv := p.v(k + 1, Item(p, k), Value(p, k));
            var run := rv.value.Some? && !rv.flags.limit && !rv.flags.stop && !rv.flags.skip;
            && Ran(p, k + 1) == Ran(p, k) + (if run then 1 else 0)
            && (!run ==> Added(p, k + 1) == Added(p, k))
            && (run ==>
                  var ru := p.u(k + 1, rv.value.value);
                  var kept := ru.value.Some? && !rv.flags.quiet && !ru.flags.limit && !ru.flags.stop && !ru.flags.skip && !ru.flags.quiet;
                  Added(p, k + 1) == Added(p, k) + if kept then [ru.value.value] else [])
  {
    TurnIs(p, k);
    StoredCases(p, k, Item(p, k), Value(p, k));
    hide Item, Value, Added, Ran, OneTurn, TurnAt;
  }

  lemma StoredCases<X, R>(p: Problem<X, R>, k: nat, item: Option<X>, vz: X)
    ensures var t, rv := OneTurn(p, k, item, vz), p.v(k + 1, item, vz);
            var run := rv.value.Some? && !rv.flags.limit && !rv.flags.stop && !rv.flags.skip;
            && t.ran == run && (!run ==> t.kept.None?)
            && (run ==>
                  var ru := p.u(k + 1, rv.value.value);
                  var kept := ru.value.Some? && !rv.flags.quiet && !ru.flags.limit && !ru.flags.stop && !ru.flags.skip && !ru.flags.quiet;
                  t.kept == if kept then Some(ru.value.value) else None)
  {
  }

  /** When a fold goes on after a turn: neither verb has asked it to end, or failed unless it was skipped. */
  lemma GoesOnIff<X, R>(p: Problem<X, R>, k: nat)
    requires Starts(p) && k < Turns(p) && Reaches(p, k)
    ensures var rv := p.v(k + 1, Item(p, k), Value(p, k));
            Reaches(p, k + 1) <==>
            && !rv.flags.limit && !rv.flags.stop && !rv.flags.last
            && (rv.flags.skip ||
                (rv.value.Some? &&
                 var ru := p.u(k + 1, rv.value.value);
                 !ru.flags.limit && !ru.flags.stop && !ru.flags.last && (ru.flags.skip || ru.value.Some?)))
  {
    TurnIs(p, k);
    GoOnCases(p, k, Item(p, k), Value(p, k));
    hide Item, Value, OneTurn;
  }

  lemma GoOnCases<X, R>(p: Problem<X, R>, k: nat, item: Option<X>, vz: X)
    ensures var rv := p.v(k + 1, item, vz);
            OneTurn(p, k, item, vz).how == GoOn <==>
            && !rv.flags.limit && !rv.flags.stop && !rv.flags.last
            && (rv.flags.skip ||
                (rv.value.Some? &&
                 var ru := p.u(k + 1, rv.value.value);
                 !ru.flags.limit && !ru.flags.stop && !ru.flags.last && (ru.flags.skip || ru.value.Some?)))
  {
  }

  /** How a fold that ends at turn k comes out: the limit first, then the stop, by v before u; then a failure; else
      what has been stored. */
  lemma ComesTo<X, R>(p: Problem<X, R>, k: nat)
    requires Starts(p) && k < Turns(p) && EndsAt(p, k)
    ensures var rv := p.v(k + 1, Item(p, k), Value(p, k));
            var run := rv.value.Some? && !rv.flags.limit && !rv.flags.stop && !rv.flags.skip;
            && (Ending(p, k) == FoldLimit <==> rv.flags.limit || (run && p.u(k + 1, rv.value.value).flags.limit))
            && (Ending(p, k) == Failure <==>
                  && !rv.flags.limit && !rv.flags.stop && !rv.flags.skip
                  && (rv.value.None? ||
                      var ru := p.u(k + 1, rv.value.value);
                      ru.value.None? && !ru.flags.limit && !ru.flags.stop && !ru.flags.skip))
            && (Ending(p, k) !in {FoldLimit, Failure} ==> Ending(p, k) == Collected(p, Added(p, k + 1)))
  {
    TurnIs(p, k);
    EndingIs(p, k);
    ComesToCases(p, k, Item(p, k), Value(p, k));
    StoredCases(p, k, Item(p, k), Value(p, k));
    CollectedIs(p, Added(p, k));
    CollectedIs(p, Added(p, k + 1));
    assert Added(p, k) + [] == Added(p, k);
    hide *;
  }

  lemma ComesToCases<X, R>(p: Problem<X, R>, k: nat, item: Option<X>, vz: X)
    ensures var rv, how := p.v(k + 1, item, vz), OneTurn(p, k, item, vz).how;
            var run := rv.value.Some? && !rv.flags.limit && !rv.flags.stop && !rv.flags.skip;
            && (how == Limit <==> rv.flags.limit || (run && p.u(k + 1, rv.value.value).flags.limit))
            && (how == Fail <==>
                  && !rv.flags.limit && !rv.flags.stop && !rv.flags.skip
                  && (rv.value.None? ||
                      var ru := p.u(k + 1, rv.value.value);
                      ru.value.None? && !ru.flags.limit && !ru.flags.stop && !ru.flags.skip))
            && (how == Stop ==> OneTurn(p, k, item, vz).kept == None)
  {
  }

  /** With fewer than two items u runs on c, the item there is or the neutral, and decides; u cannot come to
      anything else. */
  lemma FewItems<X, R>(p: Problem<X, R>, c: X)
    requires p.direction != Unlimited
    requires if p.x.Some? then |p.y| == 0 && c == p.x.value
             else if |p.y| == 1 then c == p.y[0]
             else |p.y| == 0 && !p.multiple && p.neutral == Some(c)
    ensures var ru := p.u(0, c);
            var asked := ru.flags.limit || ru.flags.stop || ru.flags.skip || ru.flags.quiet;
            && (NoTurns(p) == NoResult <==> asked)
            && (NoTurns(p) == Failure <==> !asked && ru.value.None?)
            && (NoTurns(p) == Items([]) <==> !asked && ru.value.Some? && p.multiple)
            && forall r :: NoTurns(p) == One(r) <==> !asked && ru.value == Some(r) && !p.multiple
    ensures NoTurnsStats(p).v == 0 && NoTurnsStats(p).u == 1
    ensures NoTurnsStats(p).stored == if NoTurns(p) in {NoResult, Failure} then 0 else 1
  {
  }

  /** Without an item and without a neutral, or for Fold Multiple, nothing runs. */
  lemma NoItems<X, R>(p: Problem<X, R>)
    requires p.direction != Unlimited && p.x.None? && |p.y| == 0
    ensures p.multiple || p.neutral.None? ==> NoTurns(p) == DomainError && NoTurnsStats(p) == Stats(0, 0, 0)
    ensures NoTurns(p) == DomainError ==> p.multiple || p.neutral.None?
  {
  }
}
