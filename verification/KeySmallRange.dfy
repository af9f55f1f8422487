/** x u/. y when the keys are integers of a small range: a table indexed by key holds first
    the negative class sizes and then the end pointers. */
module KeySmallRange {
  import opened Classes
  import Frets
  import opened Key

  ghost predicate InRange(keys: seq<int>, datamin: int, p: nat) {
    forall i :: 0 <= i < |keys| ==> datamin <= keys[i] < datamin + p
  }

  /** What the table holds for key k while the items below i have been moved. */
  function Slot(keys: seq<int>, i: nat, k: int): int
    requires i <= |keys|
  {
    if Count(keys, i, k) > 0 then Start(keys, k) + Count(keys, i, k) else 0 - Count(keys, |keys|, k)
  }

  ghost predicate Tallied(t: seq<int>, keys: seq<int>, i: nat, datamin: int)
    requires i <= |keys|
  {
    forall v :: 0 <= v < |t| ==> t[v] == 0 - Count(keys, i, v + datamin)
  }

  ghost predicate SlotsAt(t: seq<int>, keys: seq<int>, i: nat, datamin: int)
    requires i <= |keys|
  {
    forall v :: 0 <= v < |t| ==> t[v] == Slot(keys, i, v + datamin)
  }

  lemma SlotStep(t: seq<int>, keys: seq<int>, i: nat, datamin: int)
    requires i < |keys| && InRange(keys, datamin, |t|) && SlotsAt(t, keys, i, datamin)
    ensures SlotsAt(t[keys[i] - datamin := Position(keys, i) + 1], keys, i + 1, datamin)
  {
  }

  /** The table entry of the key of item i tells whether the item opens a class and, if not,
      where it goes. */
  lemma SlotTells(t: seq<int>, keys: seq<int>, i: nat, datamin: int)
    requires i < |keys| && InRange(keys, datamin, |t|) && SlotsAt(t, keys, i, datamin)
    ensures var v := t[keys[i] - datamin];
            && First(keys, i) <= i && (v < 0 <==> First(keys, i) == i)
            && v == if First(keys, i) == i then 0 - Count(keys, |keys|, keys[i]) else Position(keys, i)
  {
    var k := keys[i];
    assert t[k - datamin] == Slot(keys, i, k);
    SlotIs(keys, i);
    hide *;
  }

  lemma SlotIs(keys: seq<int>, i: nat)
    requires i < |keys|
    ensures var v := Slot(keys, i, keys[i]);
            && First(keys, i) <= i && (v < 0 <==> First(keys, i) == i)
            && v == if First(keys, i) == i then 0 - Count(keys, |keys|, keys[i]) else Position(keys, i)
  {
    hide Count, Nub, Classes.Start;
    FirstSeen(keys, i);
    PositionBound(keys, i);
  }

  /** Count the items of each key, negatively, and the distinct keys. */
  method CountKeys(a: seq<int>, datamin: int, ftbl: array<int>) returns (nfrets: nat)
    requires InRange(a, datamin, ftbl.Length) && forall v :: 0 <= v < ftbl.Length ==> ftbl[v] == 0
    modifies ftbl
    ensures Tallied(ftbl[..], a, |a|, datamin) && nfrets == |Nub(a, |a|)|
  {
    var frets: int := |a|;
    var i := 0;
    while i < |a|
      invariant 0 <= i <= |a| && Tallied(ftbl[..], a, i, datamin)
      invariant frets == |a| - i + |Nub(a, i)|
    {
      var tval := ftbl[..][a[i] - datamin];
      ftbl[a[i] - datamin] := tval - 1;
      frets := frets - if tval < 0 then 1 else 0;
      i := i + 1;
    }
    nfrets := frets;
  }

  /** Take the place of item i from the table and advance the end pointer of its class. */
  method TakePlace(a: seq<int>, i: nat, datamin: int, ftbl: array<int>, next: nat, frets: array<nat>, fretp: nat)
    returns (place: int, next': nat, fretp': nat)
    requires i < |a| && InRange(a, datamin, ftbl.Length) && SlotsAt(ftbl[..], a, i, datamin)
    requires next == Opened(a, i)
    requires frets.Length == Frets.MaxSize(|a|, |Nub(a, |a|)|) && ftbl as object != frets
    requires fretp <= frets.Length && frets[..fretp] == FretsSoFar(a, i)
    modifies ftbl, frets
    ensures SlotsAt(ftbl[..], a, i + 1, datamin)
    ensures place == Position(a, i) && next' == Opened(a, i + 1)
    ensures fretp' <= frets.Length && frets[..fretp'] == FretsSoFar(a, i + 1)
  {
    hide Slot, Position, Classes.Start, Opened, FretsSoFar, SlotsAt, Count, Nub;
    next', fretp' := next, fretp;
    SlotTells(ftbl[..], a, i, datamin);
    SlotStep(ftbl[..], a, i, datamin);
    var avvalue := ftbl[a[i] - datamin];
    if avvalue >= 0 {
      OpenStep(a, i);
      place := avvalue;
    } else {
      place := next;
      next', fretp' := OpenPartition(-avvalue, next, frets, fretp, a, i);
    }
    ftbl[a[i] - datamin] := place + 1;
    assert ftbl[..] == old(ftbl[..])[a[i] - datamin := Position(a, i) + 1];
  }

  method MoveItems<T>(a: seq<int>, datamin: int, ftbl: array<int>, w: seq<T>, wperm: array<T>, frets: array<nat>)
    returns (fretp: nat)
    requires |w| == |a| == wperm.Length && InRange(a, datamin, ftbl.Length) && SlotsAt(ftbl[..], a, 0, datamin)
    requires frets.Length == Frets.MaxSize(|a|, |Nub(a, |a|)|)
    requires ftbl as object != frets && wperm as object != ftbl && wperm as object != frets
    modifies ftbl, wperm, frets
    ensures wperm[..] == Grouped(a, w) && SlotsAt(ftbl[..], a, |a|, datamin)
    ensures fretp <= frets.Length && frets[..fretp] == FretsSoFar(a, |a|)
  {
    hide *;
    MoveNone(wperm[..], w, a);
    fretp := 0;
    var nextpartitionx := 0;
    var i := 0;
    while i < |w|
      invariant 0 <= i <= |w| && SlotsAt(ftbl[..], a, i, datamin)
      invariant nextpartitionx == Opened(a, i)
      invariant fretp <= frets.Length && frets[..fretp] == FretsSoFar(a, i)
      invariant Moved(wperm[..], a, w, i)
    {
      var place;
      place, nextpartitionx, fretp := TakePlace(a, i, datamin, ftbl, nextpartitionx, frets, fretp);
      ghost var r := wperm[..];
      MovedStep(r, a, w, i);
      wperm[place] := w[i];
      assert wperm[..] == r[place := w[i]];
      i := i + 1;
    }
    MovedAll(wperm[..], a, w);
  }

  /** The small-range scatter: the same grouping and the same frets as the scatter through the
      self-classify table. */
  method Scatter<T(0)>(a: seq<int>, datamin: int, p: nat, w: seq<T>)
    returns (wperm: array<T>, frets: array<nat>, fretp: nat, nfrets: nat, ftbl: array<int>)
    requires |w| == |a| && InRange(a, datamin, p)
    ensures nfrets == |Nub(a, |a|)| && wperm[..] == Grouped(a, w)
    ensures fretp <= frets.Length == Frets.MaxSize(|w|, nfrets)
    ensures frets[..fretp] == Frets.EncodeAll(Sizes(a, Nub(a, |a|), nfrets))
    ensures ftbl.Length == p && SlotsAt(ftbl[..], a, |a|, datamin)
  {
    ftbl := new int[p](_ => 0);
    nfrets := CountKeys(a, datamin, ftbl);
    wperm := new T[|w|];
    frets := new nat[Frets.MaxSize(|w|, nfrets)];
    fretp := MoveItems(a, datamin, ftbl, w, wperm, frets);
  }
}
