/** u F.. v y and its relatives: the state of a fold and what Z: does to it.  The verbs may do
    anything, told the number of executions so far; what a verb asks of Z: is part of its reply. */
module Fold {
  import opened Wrappers

  /** What has been asked by x Z: y with y true: x is _3, _2, _1, 0 or 1. */
  datatype Flags = Flags(limit: bool, stop: bool, skip: bool, quiet: bool, last: bool) {
    function Or(o: Flags): Flags {
      Flags(limit || o.limit, stop || o.stop, skip || o.skip, quiet || o.quiet, last || o.last)
    }
  }

  const NONE: Flags := Flags(false, false, false, false, false)

  /** What a verb comes back with: its result, unless it failed, and what it asked for. */
  datatype Reply<T> = Reply(value: Option<T>, flags: Flags)

  datatype Direction = Forward | Reverse | Unlimited

  /** A fold: v takes the executions of v so far, the item of y (or x, if unlimited) and the running
      value; u takes the executions of v so far and a value. */
  datatype Problem<!X, !R> = Problem(u: (nat, X) -> Reply<R>, v: (nat, Option<X>, X) -> Reply<X>,
                                     direction: Direction, multiple: bool, x: Option<X>, y: seq<X>, neutral: Option<X>)

  datatype Result<R> =
    | Items(items: seq<R>)
    | One(item: R)
    | NoResult
    | DomainError
    | FoldLimit
    | Failure

  // ---- One turn of the loop.

  datatype How = GoOn | Last | Stop | Limit | Fail

  /** The next running value, the result to be stored, if any, whether u ran, and what happens then. */
  datatype Turn<X, R> = Turn(next: X, kept: Option<R>, ran: bool, how: How)

  function Onward(f: Flags): How {
    if f.last then Last else GoOn
  }

  function OneTurn<X, R>(p: Problem<X, R>, k: nat, item: Option<X>, vz: X): Turn<X, R> {
    var rv := p.v(k + 1, item, vz);
    if rv.flags.limit then Turn(vz, None, false, Limit)
    else if rv.flags.stop then Turn(vz, None, false, Stop)
    else
      var next := if rv.value.Some? then rv.value.value else vz;
      if rv.flags.skip then Turn(next, None, false, Onward(rv.flags))
      else if rv.value.None? then Turn(next, None, false, Fail)
      else
        var ru := p.u(k + 1, next);
        var f := rv.flags.Or(ru.flags);
        if f.limit then Turn(next, None, true, Limit)
        else if f.stop then Turn(next, None, true, Stop)
        else if f.skip then Turn(next, None, true, Onward(f))
        else if ru.value.None? then Turn(next, None, true, Fail)
        else Turn(next, if f.quiet then None else ru.value, true, Onward(f))
  }

  // ---- The items in the order they are taken.

  /** The items that take part: x first, if it is given. */
  function Count<X, R>(p: Problem<X, R>): nat {
    |p.y| + if p.x.Some? then 1 else 0
  }

  function Reversed<T>(s: seq<T>): (r: seq<T>)
    ensures |r| == |s| && forall i :: 0 <= i < |s| ==> r[i] == s[|s| - 1 - i]
  {
    seq(|s|, i requires 0 <= i < |s| => s[|s| - 1 - i])
  }

  function Ordered<X, R>(p: Problem<X, R>): (s: seq<X>)
    ensures |s| == |p.y|
  {
    if p.direction == Reverse then Reversed(p.y) else p.y
  }

  /** The turns the loop may take; the counter of an unlimited fold starts at 0 and wraps. */
  function Turns<X, R>(p: Problem<X, R>): nat {
    if p.direction == Unlimited then 0x1_0000_0000_0000_0000 else if Count(p) < 2 then 0 else Count(p) - 1
  }

  ghost predicate Runs<X, R>(p: Problem<X, R>) {
    p.direction != Unlimited ==> Count(p) >= 2
  }

  /** What v takes on the left at turn k. */
  function Item<X, R>(p: Problem<X, R>, k: nat): Option<X>
    requires Runs(p) && k < Turns(p)
  {
    if p.direction == Unlimited then p.x
    else Some(Ordered(p)[if p.x.Some? then k else k + 1])
  }

  /** What an unlimited fold starts from is y as a whole, here its only item. */
  ghost predicate Starts<X, R>(p: Problem<X, R>) {
    Runs(p) && (p.direction == Unlimited ==> |p.y| == 1)
  }

  function First<X, R>(p: Problem<X, R>): X
    requires Starts(p)
  {
    if p.direction != Unlimited && p.x.Some? then p.x.value else Ordered(p)[0]
  }

  // ---- The whole loop.

  /** The running value when turn k starts. */
  function Value<X, R>(p: Problem<X, R>, k: nat): X
    requires Starts(p) && k <= Turns(p)
  {
    if k == 0 then First(p) else OneTurn(p, k - 1, Item(p, k - 1), Value(p, k - 1)).next
  }

  function TurnAt<X, R>(p: Problem<X, R>, k: nat): Turn<X, R>
    requires Starts(p) && k < Turns(p)
  {
    OneTurn(p, k, Item(p, k), Value(p, k))
  }

  /** The loop gets to turn k. */
  ghost predicate Reaches<X, R>(p: Problem<X, R>, k: nat)
    requires Starts(p) && k <= Turns(p)
  {
    forall j: nat :: j < k ==> TurnAt(p, j).how == GoOn
  }

  /** What the first k turns have added to the result. */
  function Added<X, R>(p: Problem<X, R>, k: nat): seq<R>
    requires Starts(p) && k <= Turns(p)
  {
    if k == 0 then []
    else
      var t := TurnAt(p, k - 1);
      Added(p, k - 1) + if t.kept.Some? then [t.kept.value] else []
  }

  /** How often u ran in the first k turns. */
  function Ran<X, R>(p: Problem<X, R>, k: nat): nat
    requires Starts(p) && k <= Turns(p)
  {
    if k == 0 then 0 else Ran(p, k - 1) + if TurnAt(p, k - 1).ran then 1 else 0
  }

  function Collected<X, R>(p: Problem<X, R>, added: seq<R>): Result<R> {
    if added == [] then NoResult else if p.multiple then Items(added) else One(added[|added| - 1])
  }

  /** What the fold comes to, if it gets to turn k and takes no more turns than that one. */
  ghost function Ending<X, R>(p: Problem<X, R>, k: nat): Result<R>
    requires Starts(p) && k < Turns(p)
  {
    match TurnAt(p, k).how
    case Limit => FoldLimit
    case Fail => Failure
    case Stop => Collected(p, Added(p, k))
    case _ => Collected(p, Added(p, k + 1))
  }

  /** The fold ends with turn k. */
  ghost predicate EndsAt<X, R>(p: Problem<X, R>, k: nat)
    requires Starts(p) && k < Turns(p)
  {
    Reaches(p, k) && (TurnAt(p, k).how != GoOn || k == Turns(p) - 1)
  }

  /** With fewer than two items v cannot run. */
  function NoTurns<X, R>(p: Problem<X, R>): Result<R>
    requires p.direction != Unlimited && Count(p) < 2
  {
    if Count(p) == 0 && p.multiple then DomainError
    else if Count(p) == 0 && p.neutral.None? then DomainError
    else
      var cell := if p.x.Some? then p.x.value else if p.y != [] then p.y[0] else p.neutral.value;
      var ru := p.u(0, cell);
      if ru.flags.limit || ru.flags.stop || ru.flags.skip || ru.flags.quiet then NoResult
      else if ru.value.None? then Failure
      else if p.multiple then Items([])
      else One(ru.value.value)
  }

  /** The statistics then: u has run once, unless there is nothing to run it on. */
  function NoTurnsStats<X, R>(p: Problem<X, R>): Stats
    requires p.direction != Unlimited && Count(p) < 2
  {
    if Count(p) == 0 && (p.multiple || p.neutral.None?) then Stats(0, 0, 0)
    else
      var ru := p.u(0, if p.x.Some? then p.x.value else if p.y != [] then p.y[0] else p.neutral.value);
      if ru.flags.limit || ru.flags.stop || ru.flags.skip || ru.flags.quiet || ru.value.None? then Stats(0, 1, 0)
      else Stats(0, 1, 1)
  }

  /** The result of the fold and its statistics at the end. */
  ghost predicate FoldsTo<X, R>(p: Problem<X, R>, r: Result<R>, stats: Stats)
    requires p.direction == Unlimited ==> |p.y| == 1
  {
    if Runs(p) then exists k: nat :: k < Turns(p) && EndsAt(p, k) && r == Ending(p, k) && StatsAt(p, k + 1, stats)
    else r == NoTurns(p) && stats == NoTurnsStats(p)
  }

  // ---- The result so far, in a buffer that doubles.

  class Buffer<R(0)> {
    var zz: array<R>
    var used: nat
    const header: nat

    ghost predicate Valid()
      reads this
    {
      used <= zz.Length && zz.Length > 0
    }

    ghost function Contents(): seq<R>
      reads this, zz
      requires Valid()
    {
      zz[..used]
    }

    /** A buffer for n results at first. */
    constructor (n: nat, header: nat)
      requires n > 0
      ensures Valid() && fresh(zz) && Contents() == [] && this.header == header
    {
      zz := new R[n];
      used := 0;
      this.header := header;
    }

    /** Fold Multiple: add a result at the end. */
    method Append(z: R)
      requires Valid()
      modifies this, zz
      ensures Valid() && Contents() == old(Contents()) + [z] && (zz == old(zz) || fresh(zz))
    {
      var newslot := used;
      if newslot == zz.Length {
        var zzalloc := 2 * zz.Length + header;
        var zznew := new R[zzalloc];
        var i := 0;
        while i < newslot
          invariant 0 <= i <= newslot && zznew[..i] == zz[..i]
          invariant zz == old(zz) && used == old(used) && zz[..] == old(zz[..])
          modifies zznew
        {
          zznew[i] := zz[i];
          i := i + 1;
        }
        zz := zznew;
      }
      zz[newslot] := z;
      used := newslot + 1;
    }

    method Results() returns (s: seq<R>)
      requires Valid()
      ensures s == Contents()
    {
      s := zz[..used];
    }

    /** Fold Single: replace the result. */
    method Replace(z: R)
      requires Valid()
      modifies this, zz
      ensures Valid() && Contents() == [z] && zz == old(zz)
    {
      used := 1;
      zz[0] := z;
    }
  }

  lemma StatsAre<X, R>(p: Problem<X, R>, k: nat, s: Stats)
    requires Starts(p) && k <= Turns(p)
    ensures StatsAt(p, k, s) <==> s == Stats(k, Ran(p, k), |Added(p, k)|)
  {
  }

  /** What the buffer holds after k turns. */
  function Held<X, R>(p: Problem<X, R>, k: nat): seq<R>
    requires Starts(p) && k <= Turns(p)
  {
    var a := Added(p, k);
    if p.multiple || a == [] then a else [a[|a| - 1]]
  }

  // ---- The loop.

  /** The statistics: executions of v, executions of u, results stored. */
  datatype Stats = Stats(v: nat, u: nat, stored: nat)

  ghost predicate StatsAt<X, R>(p: Problem<X, R>, k: nat, s: Stats)
    requires Starts(p) && k <= Turns(p)
  {
    s == Stats(k, Ran(p, k), |Added(p, k)|)
  }

  /** The statistics are non-increasing in their order, whenever a turn starts. */
  lemma {:induction false} StatsOrdered<X, R>(p: Problem<X, R>, k: nat)
    requires Starts(p) && k <= Turns(p)
    ensures k >= Ran(p, k) >= |Added(p, k)|
  {
    hide *;
    NothingYet(p);
    if k > 0 {
      StatsOrdered(p, k - 1);
      TurnIs(p, k - 1);
      KeptRan(p, k - 1, Item(p, k - 1), Value(p, k - 1));
    }
  }

  lemma NothingYet<X, R>(p: Problem<X, R>)
    requires Starts(p)
    ensures Ran(p, 0) == 0 && Added(p, 0) == [] && Value(p, 0) == First(p) && Runs(p)
  {
  }

  lemma KeptRan<X, R>(p: Problem<X, R>, k: nat, item: Option<X>, vz: X)
    ensures OneTurn(p, k, item, vz).kept.Some? ==> OneTurn(p, k, item, vz).ran
  {
  }

  lemma TurnIs<X, R>(p: Problem<X, R>, k: nat)
    requires Starts(p) && k < Turns(p)
    ensures TurnAt(p, k) == OneTurn(p, k, Item(p, k), Value(p, k))
    ensures Value(p, k + 1) == TurnAt(p, k).next
    ensures Ran(p, k + 1) == Ran(p, k) + if TurnAt(p, k).ran then 1 else 0
    ensures Added(p, k + 1) ==
            Added(p, k) + if TurnAt(p, k).kept.Some? then [TurnAt(p, k).kept.value] else []
  {
  }

  lemma ReachesOn<X, R>(p: Problem<X, R>, k: nat)
    requires Starts(p) && k < Turns(p) && Reaches(p, k) && TurnAt(p, k).how == GoOn
    ensures Reaches(p, k + 1)
  {
  }

  /** One execution of v and, unless it is skipped, of u. */
  method RunTurn<X, R>(p: Problem<X, R>, item: Option<X>, vz: X, stats: Stats, ghost k: nat)
    returns (vz': X, z: Option<R>, zstatus: Flags, how: How, stats': Stats)
    requires stats.v == k
    ensures var t := OneTurn(p, k, item, vz);
            && vz' == t.next && z == t.kept && how == t.how
            && stats' == Stats(k + 1, stats.u + if t.ran then 1 else 0, stats.stored + if z.Some? then 1 else 0)
  {
    vz', z, how, stats' := vz, None, GoOn, stats.(v := stats.v + 1);
    zstatus := NONE;
    var rv := p.v(stats'.v, item, vz);
    zstatus := zstatus.Or(rv.flags);
    if zstatus.limit || zstatus.stop {
      how := if zstatus.limit then Limit else Stop;
      return;
    }
    vz' := if rv.value.Some? then rv.value.value else vz;
    if !zstatus.skip {
      if rv.value.None? {
        how := Fail;
        return;
      }
      stats' := stats'.(u := stats'.u + 1);
      var ru := p.u(stats'.v, vz');
      zstatus := zstatus.Or(ru.flags);
      if zstatus.limit || zstatus.stop {
        how := if zstatus.limit then Limit else Stop;
        return;
      }
      if !zstatus.skip {
        if ru.value.None? {
          how := Fail;
          return;
        }
        if !zstatus.quiet {
          stats' := stats'.(stored := stats'.stored + 1);
          z := ru.value;
        }
      }
    }
    how := if zstatus.last then Last else GoOn;
  }

  /** Add a result that is to be kept. */
  method Keep<R(0)>(zz: Buffer<R>, multiple: bool, z: Option<R>)
    requires zz.Valid()
    modifies zz, zz.zz
    ensures zz.Valid() && (zz.zz == old(zz.zz) || fresh(zz.zz))
    ensures zz.Contents() ==
            if z.None? then old(zz.Contents()) else if multiple then old(zz.Contents()) + [z.value] else [z.value]
  {
    if z.Some? {
      if multiple {
        zz.Append(z.value);
      } else {
        zz.Replace(z.value);
      }
    }
  }

  lemma HeldStep<X, R>(p: Problem<X, R>, k: nat)
    requires Starts(p) && k < Turns(p)
    ensures var z := TurnAt(p, k).kept;
            Held(p, k + 1) == if z.None? then Held(p, k) else if p.multiple then Held(p, k) + [z.value] else [z.value]
  {
    TurnIs(p, k);
    hide TurnAt;
  }

  /** Where the items are: the place of the first, and the distance to the next. */
  lemma ItemPlace<X, R>(p: Problem<X, R>, k: nat)
    requires Starts(p) && p.direction != Unlimited && k < Turns(p)
    ensures var stride := if p.direction == Reverse then -1 else 1;
            var first := if p.direction == Reverse then |p.y| - 1 else 0;
            var at := first + (if p.x.Some? then 0 else stride) + (if p.direction == Reverse then 0 - k else k);
            && 0 <= at < |p.y| && Item(p, k) == Some(p.y[at])
            && (k == Turns(p) - 1 <==> at == if p.direction == Reverse then 0 else |p.y| - 1)
    ensures var first := if p.direction == Reverse then |p.y| - 1 else 0;
            First(p) == if p.x.Some? then p.x.value else p.y[first]
  {
    hide Ordered;
    var i := if p.x.Some? then k else k + 1;
    OrderedAt(p, i);
    OrderedAt(p, 0);
  }

  lemma OrderedAt<X, R>(p: Problem<X, R>, i: nat)
    requires i < |p.y|
    ensures Ordered(p)[i] == p.y[if p.direction == Reverse then |p.y| - 1 - i else i]
  {
  }

  /** What is left when the loop is over. */
  function Finish<R>(multiple: bool, held: seq<R>): Result<R> {
    if held == [] then NoResult else if multiple then Items(held) else One(held[0])
  }

  lemma FinishIs<X, R>(p: Problem<X, R>, k: nat)
    requires Starts(p) && k <= Turns(p)
    ensures Finish(p.multiple, Held(p, k)) == Collected(p, Added(p, k))
  {
    hide Added;
  }

  lemma EndingIs<X, R>(p: Problem<X, R>, k: nat)
    requires Starts(p) && k < Turns(p)
    ensures var how := TurnAt(p, k).how;
            Ending(p, k) == if how == Limit then FoldLimit else if how == Fail then Failure
                            else if how == Stop then Collected(p, Added(p, k)) else Collected(p, Added(p, k + 1))
  {
    hide TurnAt, Added;
  }

  /** The loop of a fold. */
  method Loop<X, R(0)>(p: Problem<X, R>, zz: Buffer<R>) returns (r: Result<R>, stats: Stats, ghost k: nat)
    requires Starts(p) && zz.Valid() && zz.Contents() == []
    modifies zz, zz.zz
    ensures k < Turns(p) && EndsAt(p, k) && r == Ending(p, k)
    ensures StatsAt(p, k + 1, stats)
  {
    hide *;
    LoopStarts(p);
    var nitems := if p.direction == Unlimited then 0 else Count(p) - 1;
    var stride := if p.direction == Reverse then -1 else 1;
    var at := (if p.direction == Reverse then |p.y| - 1 else 0) + if p.x.Some? then 0 else stride;
    var vz := if p.direction != Unlimited && p.x.Some? then p.x.value
              else p.y[if p.direction == Reverse then |p.y| - 1 else 0];
    stats := Stats(0, 0, 0);
    k := 0;
    while true
      invariant k < Turns(p) && Reaches(p, k) && vz == Value(p, k) && StatsAt(p, k, stats)
      invariant zz.Valid() && (zz.zz == old(zz.zz) || fresh(zz.zz)) && zz.Contents() == Held(p, k)
      invariant p.direction != Unlimited ==>
                  at == (if p.direction == Reverse then |p.y| - 1 else 0) + (if p.x.Some? then 0 else stride)
                        + (if p.direction == Reverse then 0 - k else k)
      invariant nitems == if p.direction == Unlimited && k == 0 then 0 else Turns(p) - k
      decreases Turns(p) - k
    {
      TurnIs(p, k);
      HeldStep(p, k);
      EndingIs(p, k);
      FinishIs(p, k);
      FinishIs(p, k + 1);
      var item := p.x;
      if p.direction != Unlimited {
        ItemPlace(p, k);
        item := Some(p.y[at]);
        at := at + stride;
      } else {
        ItemUnlimited(p, k);
      }
      var z, zstatus, how;
      StatsAre(p, k, stats);
      vz, z, zstatus, how, stats := RunTurn(p, item, vz, stats, k);
      StatsAre(p, k + 1, stats);
      if how == Limit || how == Fail {
        EndsHere(p, k);
        return if how == Limit then FoldLimit else Failure, stats, k;
      }
      if how == Stop {
        EndsHere(p, k);
        break;
      }
      Keep(zz, p.multiple, z);
      if how == Last {
        EndsHere(p, k);
        break;
      }
      nitems := if nitems == 0 then 0xffff_ffff_ffff_ffff else nitems - 1;
      if nitems == 0 {
        EndsHere(p, k);
        break;
      }
      ReachesOn(p, k);
      k := k + 1;
    }
    var held := zz.Results();
    r := Finish(p.multiple, held);
  }

  lemma LoopStarts<X, R>(p: Problem<X, R>)
    requires Starts(p)
    ensures Turns(p) > 0 && Reaches(p, 0) && Value(p, 0) == First(p) && Held(p, 0) == [] && StatsAt(p, 0, Stats(0, 0, 0))
    ensures p.direction == Unlimited ==> Turns(p) == 0x1_0000_0000_0000_0000 && |p.y| == 1
    ensures p.direction != Unlimited ==> Turns(p) == Count(p) - 1
    ensures First(p) == if p.direction != Unlimited && p.x.Some? then p.x.value
                        else p.y[if p.direction == Reverse then |p.y| - 1 else 0]
    ensures p.y != [] || (p.direction != Unlimited && p.x.Some?)
  {
  }

  lemma ItemUnlimited<X, R>(p: Problem<X, R>, k: nat)
    requires Starts(p) && p.direction == Unlimited && k < Turns(p)
    ensures Item(p, k) == p.x
  {
  }

  lemma EndsHere<X, R>(p: Problem<X, R>, k: nat)
    requires Starts(p) && k < Turns(p) && Reaches(p, k) && (TurnAt(p, k).how != GoOn || k == Turns(p) - 1)
    ensures EndsAt(p, k)
  {
  }

  /** With fewer than two items v does not run; u runs on the one item, or on a neutral of v. */
  method RunNone<X, R>(p: Problem<X, R>) returns (r: Result<R>, stats: Stats)
    requires p.direction != Unlimited && Count(p) < 2
    ensures r == NoTurns(p) && stats == NoTurnsStats(p)
  {
    stats := Stats(0, 0, 0);
    var cell;
    if Count(p) == 1 {
      cell := if p.x.Some? then p.x.value else p.y[0];
    } else {
      if p.multiple || p.neutral.None? {
        return DomainError, stats;
      }
      cell := p.neutral.value;
    }
    stats := stats.(u := stats.u + 1);
    var ru := p.u(stats.v, cell);
    if ru.flags.limit || ru.flags.stop || ru.flags.skip || ru.flags.quiet {
      return NoResult, stats;
    }
    if ru.value.None? {
      return Failure, stats;
    }
    stats := stats.(stored := stats.stored + 1);
    r := if p.multiple then Items([]) else One(ru.value.value);
  }

  /** The statistics of a fold are non-increasing at its end exactly if it entered the loop, or had nothing to
      run u on. */
  lemma OrderedIff<X, R>(p: Problem<X, R>, r: Result<R>, stats: Stats)
    requires p.direction == Unlimited ==> |p.y| == 1
    requires FoldsTo(p, r, stats)
    ensures stats.v >= stats.u >= stats.stored <==> Runs(p) || stats.u == 0
    ensures !Runs(p) ==> (stats.u == 0 <==> r == DomainError) && stats.v == 0 && (stats.stored == 1 <==> r.One? || r.Items?)
  {
    if Runs(p) {
      var k: nat :| k < Turns(p) && EndsAt(p, k) && r == Ending(p, k) && StatsAt(p, k + 1, stats);
      StatsOrdered(p, k + 1);
      hide *;
    }
  }

  /** The identity inserted into one item: u has run, and v has not. */
  lemma OneItemExample<X, R>(u: (nat, X) -> Reply<R>, v: (nat, Option<X>, X) -> Reply<X>, x: X, r: R)
    requires u(0, x) == Reply(Some(r), NONE)
    ensures FoldsTo(Problem(u, v, Forward, false, None, [x], None), One(r), Stats(0, 1, 1))
  {
  }

  /** The fold, with a buffer for the first results.  zzalloc is what the source allocates. */
  method Fold12<X, R(0)>(p: Problem<X, R>, header: nat) returns (r: Result<R>, stats: Stats)
    requires header < 16 && (p.direction == Unlimited ==> |p.y| == 1)
    ensures FoldsTo(p, r, stats)
  {
    if p.direction != Unlimited && Count(p) < 2 {
      r, stats := RunNone(p);
      return;
    }
    var zzalloc := 1;
    if p.multiple {
      zzalloc := if p.direction == Unlimited then 16 - header
                 else if Count(p) < 64 - header then Count(p) else 64 - header;
    }
    var zz := new Buffer(zzalloc, header);
    ghost var k;
    r, stats, k := Loop(p, zz);
  }

  // ---- Z: itself.

  datatype Answer = Number(n: nat) | Empty | IndexError | BooleanError | LimitError | Throw

  /** The status shared by a fold and the Z: run from its verbs. */
  class Status {
    var exestats: Stats
    var zstatus: Flags

    constructor ()
      ensures exestats == Stats(0, 0, 0) && zstatus == NONE
    {
      exestats := Stats(0, 0, 0);
      zstatus := NONE;
    }

    /** Z: y, how often v ran, u ran and a result was stored. */
    method Query(y: int) returns (r: Answer)
      ensures r == if y == 0 then Number(exestats.v) else if y == 1 then Number(exestats.u)
                   else if y == 2 then Number(exestats.stored) else IndexError
    {
      if !(0 <= y <= 2) { return IndexError; }
      r := Number(if y == 0 then exestats.v else if y == 1 then exestats.u else exestats.stored);
    }

    /** x Z: y: x chooses the action, y whether to take it; for _3, y is the number of executions of
        v from which on the fold is stopped. */
    method Ask(x: int, y: int) returns (r: Answer)
      modifies this`zstatus
      ensures r == IndexError <==> !(-3 <= x <= 1)
      ensures r == BooleanError <==> -2 <= x <= 1 && y != 0 && y != 1
      ensures r == LimitError <==> x == -3 && exestats.v >= y
      ensures r == Throw <==> (x == -2 || x == -1) && y == 1
      ensures zstatus == old(zstatus).Or(if x == -3 then NONE.(limit := r == LimitError)
                                         else if r in {IndexError, BooleanError} || y == 0 then NONE
                                         else if x == -2 then NONE.(stop := true)
                                         else if x == -1 then NONE.(skip := true)
                                         else if x == 0 then NONE.(quiet := true) else NONE.(last := true))
    {
      if !(-3 <= x <= 1) { return IndexError; }
      var act: bool;
      if x == -3 {
        act := exestats.v >= y;
      } else {
        if y != 0 && y != 1 { return BooleanError; }
        act := y == 1;
      }
      if !act { return Empty; }
      zstatus := zstatus.Or(Flags(x == -3, x == -2, x == -1, x == 0, x == 1));
      r := if x == -3 then LimitError else if x < 0 then Throw else Empty;
    }
  }
}
