/** x u/. y: the self-classify table, the stable scatter that turns the table into running
    end pointers, and what reads the table afterwards. */
module Key {
  import opened Classes
  import Frets

  /** The self-classify entry of item i: the first item of a class holds its own index plus the
      size of the class, every other item the index of the first. */
  function SelfClass<K(==)>(keys: seq<K>, i: nat): nat
    requires i < |keys|
  {
    if First(keys, i) == i then i + Count(keys, |keys|, keys[i]) else First(keys, i)
  }

  ghost predicate SelfClassified<K>(av: seq<int>, keys: seq<K>) {
    |av| == |keys| && forall i :: 0 <= i < |keys| ==> av[i] == SelfClass(keys, i)
  }

  /** The table entry j while items below i have been moved: the first item of a class holds
      where the next item of the class goes. */
  function RunningEnd<K(==)>(keys: seq<K>, i: nat, j: nat): nat
    requires i <= |keys| && j < |keys|
  {
    if First(keys, j) == j && j < i then Start(keys, keys[j]) + Count(keys, i, keys[j]) else SelfClass(keys, j)
  }

  ghost predicate TableAt<K>(av: seq<int>, keys: seq<K>, i: nat)
    requires i <= |keys|
  {
    |av| == |keys| && forall j :: 0 <= j < |keys| ==> av[j] == RunningEnd(keys, i, j)
  }

  lemma FirstSeen<K>(keys: seq<K>, i: nat)
    requires i < |keys|
    ensures First(keys, i) < i <==> Count(keys, i, keys[i]) > 0
  {
    CountPositive(keys, i, keys[i]);
  }

  lemma FirstSame<K>(keys: seq<K>, i: nat, j: nat)
    requires i < |keys| && j < |keys|
    ensures keys[i] == keys[j] <==> First(keys, i) == First(keys, j)
  {
  }

  /** Moving item i advances the pointer of its class and no other entry. */
  lemma RunningStep<K>(keys: seq<K>, i: nat, j: nat)
    requires i < |keys| && j < |keys|
    ensures RunningEnd(keys, i + 1, j) == if j == First(keys, i) then Position(keys, i) + 1 else RunningEnd(keys, i, j)
  {
    FirstSame(keys, i, j);
    FirstSeen(keys, i);
  }

  lemma TableStep<K>(av: seq<int>, keys: seq<K>, i: nat)
    requires i < |keys| && TableAt(av, keys, i)
    ensures TableAt(av[First(keys, i) := Position(keys, i) + 1], keys, i + 1)
  {
    var next := av[First(keys, i) := Position(keys, i) + 1];
    forall j | 0 <= j < |keys|
      ensures next[j] == RunningEnd(keys, i + 1, j)
    {
      RunningStep(keys, i, j);
    }
  }

  /** The table entry of item i tells whether it opens a class and, if not, where it goes. */
  lemma EntryTells<K>(av: seq<int>, keys: seq<K>, i: nat)
    requires i < |keys| && TableAt(av, keys, i)
    ensures |av| == |keys| && First(keys, i) <= i && (av[i] < i <==> First(keys, i) < i)
    ensures First(keys, i) == i ==> av[i] == i + Count(keys, |keys|, keys[i])
    ensures First(keys, i) < i ==> av[i] == First(keys, i) && av[First(keys, i)] == Position(keys, i)
  {
    FirstSame(keys, i, First(keys, i));
  }

  /** The number of items in the classes opened by the items below i. */
  function Opened<K(==)>(keys: seq<K>, i: nat): nat
    requires i <= |keys|
  {
    Total(keys, Nub(keys, |keys|), OpenClasses(keys, i))
  }

  function OpenClasses<K(==)>(keys: seq<K>, i: nat): (t: nat)
    requires i <= |keys|
    ensures t <= |Nub(keys, |keys|)|
  {
    NubPrefix(keys, i, |keys|);
    |Nub(keys, i)|
  }

  /** The frets of the classes opened by the items below i. */
  function FretsSoFar<K(==)>(keys: seq<K>, i: nat): seq<nat>
    requires i <= |keys|
  {
    Frets.EncodeAll(Sizes(keys, Nub(keys, |keys|), OpenClasses(keys, i)))
  }

  /** What item i does to the classes opened and to their frets. */
  lemma OpenStep<K>(keys: seq<K>, i: nat)
    requires i < |keys|
    ensures First(keys, i) < i ==> Opened(keys, i + 1) == Opened(keys, i) && FretsSoFar(keys, i + 1) == FretsSoFar(keys, i)
    ensures First(keys, i) == i ==>
              var size := Count(keys, |keys|, keys[i]);
              && Opened(keys, i + 1) == Opened(keys, i) + size
              && FretsSoFar(keys, i + 1) == FretsSoFar(keys, i) + Frets.Encode(size)
              && Position(keys, i) == Opened(keys, i)
  {
    FirstSeen(keys, i);
    if First(keys, i) == i {
      NewClass(keys, i);
      OneMoreOpen(keys, i);
    } else {
      assert Nub(keys, i + 1) == Nub(keys, i);
    }
  }

  lemma OneMoreOpen<K>(keys: seq<K>, i: nat)
    requires i < |keys| && Count(keys, i, keys[i]) == 0
    requires |Nub(keys, i)| < |Nub(keys, |keys|)| && Nub(keys, |keys|)[|Nub(keys, i)|] == keys[i]
    ensures OpenClasses(keys, i + 1) == OpenClasses(keys, i) + 1
    ensures var size := Count(keys, |keys|, keys[i]);
            && Opened(keys, i + 1) == Opened(keys, i) + size
            && FretsSoFar(keys, i + 1) == FretsSoFar(keys, i) + Frets.Encode(size)
  {
    var ks, t := Nub(keys, |keys|), OpenClasses(keys, i);
    assert OpenClasses(keys, i + 1) == t + 1;
    FretsOneMore(keys, ks, t);
    hide Nub, Count, Sizes, Frets.EncodeAll, Frets.Encode, OpenClasses;
  }

  lemma FretsOneMore<K>(keys: seq<K>, ks: seq<K>, t: nat)
    requires t < |ks|
    ensures var size := Count(keys, |keys|, ks[t]);
            Frets.EncodeAll(Sizes(keys, ks, t + 1)) == Frets.EncodeAll(Sizes(keys, ks, t)) + Frets.Encode(size)
  {
    assert Sizes(keys, ks, t + 1)[..t] == Sizes(keys, ks, t);
  }

  lemma FretsFit<K>(keys: seq<K>, i: nat)
    requires i <= |keys|
    ensures |FretsSoFar(keys, i)| < Frets.MaxSize(|keys|, |Nub(keys, |keys|)|)
  {
  }

  /** Items below i are at their positions. */
  ghost predicate Moved<K, T>(r: seq<T>, keys: seq<K>, w: seq<T>, i: nat)
    requires |w| == |keys| && i <= |keys|
  {
    && |r| == |keys|
    && forall j :: 0 <= j < i ==> Position(keys, j) < |keys| && r[Position(keys, j)] == w[j]
  }

  lemma MovedStep<K, T>(r: seq<T>, keys: seq<K>, w: seq<T>, i: nat)
    requires |w| == |keys| && i < |keys| && Moved(r, keys, w, i)
    ensures Position(keys, i) < |keys|
    ensures Moved(r[Position(keys, i) := w[i]], keys, w, i + 1)
  {
    PositionBound(keys, i);
    var s := r[Position(keys, i) := w[i]];
    forall j | 0 <= j < i + 1
      ensures Position(keys, j) < |keys| && s[Position(keys, j)] == w[j]
    {
      if j < i {
        PositionsDiffer(keys, j, i);
      }
    }
  }

  /** Reserve the places of the class that item i opens and store its length as a fret. */
  method OpenPartition<K(==)>(size: nat, next: nat, frets: array<nat>, fretp: nat, ghost keys: seq<K>, ghost i: nat)
    returns (next': nat, fretp': nat)
    requires i < |keys| && First(keys, i) == i && size == Count(keys, |keys|, keys[i])
    requires frets.Length == Frets.MaxSize(|keys|, |Nub(keys, |keys|)|) && next == Opened(keys, i)
    requires fretp <= frets.Length && frets[..fretp] == FretsSoFar(keys, i)
    modifies frets
    ensures next == Position(keys, i) && next' == Opened(keys, i + 1)
    ensures fretp' <= frets.Length && frets[..fretp'] == FretsSoFar(keys, i + 1)
  {
    OpenStep(keys, i);
    FretsFit(keys, i + 1);
    fretp' := Frets.Put(frets, fretp, size);
    next' := next + size;
  }

  /** Take the place of item i from the table, opening its partition if it is the first of
      its class, and advance the end pointer of the class. */
  method TakePlace<K(==)>(av: array<int>, i: nat, next: nat, frets: array<nat>, fretp: nat, ghost keys: seq<K>)
    returns (place: int, next': nat, fretp': nat)
    requires i < |keys| && TableAt(av[..], keys, i) && next == Opened(keys, i)
    requires frets.Length == Frets.MaxSize(|keys|, |Nub(keys, |keys|)|) && av as object != frets
    requires fretp <= frets.Length && frets[..fretp] == FretsSoFar(keys, i)
    modifies av, frets
    ensures TableAt(av[..], keys, i + 1)
    ensures place == Position(keys, i) && next' == Opened(keys, i + 1)
    ensures fretp' <= frets.Length && frets[..fretp'] == FretsSoFar(keys, i + 1)
  {
    hide *;
    next', fretp' := next, fretp;
    EntryTells(av[..], keys, i);
    TableStep(av[..], keys, i);
    var avvalue := av[i];
    if avvalue < i {
      OpenStep(keys, i);
      place := av[avvalue];
    } else {
      place := next;
      next', fretp' := OpenPartition(avvalue - i, next, frets, fretp, keys, i);
      avvalue := i;
    }
    av[avvalue] := place + 1;
    assert av[..] == old(av[..])[First(keys, i) := Position(keys, i) + 1];
  }

  lemma MoveNone<K, T>(r: seq<T>, w: seq<T>, keys: seq<K>)
    requires |w| == |keys| == |r|
    ensures Moved(r, keys, w, 0) && Opened(keys, 0) == 0 && FretsSoFar(keys, 0) == []
  {
  }

  lemma TableStart<K>(av: seq<int>, keys: seq<K>)
    requires SelfClassified(av, keys)
    ensures TableAt(av, keys, 0)
  {
  }

  lemma MovedAll<K, T>(r: seq<T>, keys: seq<K>, w: seq<T>)
    requires |w| == |keys| && Moved(r, keys, w, |keys|)
    ensures r == Grouped(keys, w)
  {
    PositionsDecide(keys, w, r);
  }

  /** The pass through the items: read in order, write scattered. */
  method MoveItems<K(==), T>(av: array<int>, w: seq<T>, wperm: array<T>, frets: array<nat>, ghost keys: seq<K>)
    returns (fretp: nat)
    requires |w| == |keys| == wperm.Length && SelfClassified(av[..], keys)
    requires frets.Length == Frets.MaxSize(|keys|, |Nub(keys, |keys|)|)
    requires av as object != frets && wperm as object != av && wperm as object != frets
    modifies av, wperm, frets
    ensures wperm[..] == Grouped(keys, w) && TableAt(av[..], keys, |keys|)
    ensures fretp <= frets.Length && frets[..fretp] == FretsSoFar(keys, |keys|)
  {
    hide *;
    TableStart(av[..], keys);
    MoveNone(wperm[..], w, keys);
    fretp := 0;
    var nextpartitionx := 0;
    var i := 0;
    while i < |w|
      invariant 0 <= i <= |w| && TableAt(av[..], keys, i)
      invariant nextpartitionx == Opened(keys, i)
      invariant fretp <= frets.Length && frets[..fretp] == FretsSoFar(keys, i)
      invariant Moved(wperm[..], keys, w, i)
    {
      var place;
      place, nextpartitionx, fretp := TakePlace(av, i, nextpartitionx, frets, fretp, keys);
      ghost var r := wperm[..];
      MovedStep(r, keys, w, i);
      wperm[place] := w[i];
      assert wperm[..] == r[place := w[i]];
      i := i + 1;
    }
    MovedAll(wperm[..], keys, w);
  }

  /** Reorder w into classes in one pass, writing the partition lengths as frets.  The table of
      the self-classification ends up holding, for the first item of each class, the end of its
      partition. */
  method Scatter<K(==), T(0)>(av: array<int>, w: seq<T>, nfrets: nat, ghost keys: seq<K>)
    returns (wperm: array<T>, frets: array<nat>, fretp: nat)
    requires |w| == |keys| && SelfClassified(av[..], keys) && nfrets == |Nub(keys, |keys|)|
    modifies av
    ensures wperm[..] == Grouped(keys, w)
    ensures fretp <= frets.Length == Frets.MaxSize(|w|, nfrets)
    ensures frets[..fretp] == Frets.EncodeAll(Sizes(keys, Nub(keys, |keys|), nfrets))
    ensures TableAt(av[..], keys, |keys|)
  {
    wperm := new T[|w|];
    frets := new nat[Frets.MaxSize(|w|, nfrets)];
    fretp := MoveItems(av, w, wperm, frets, keys);
  }

  // ---- What u/.. reads from the table after the scatter.

  /** After the scatter an entry is at or above its index exactly at the first items of classes. */
  lemma EndsMarkFirsts<K>(av: seq<int>, keys: seq<K>, j: nat)
    requires j < |keys| && TableAt(av, keys, |keys|)
    ensures av[j] >= j <==> First(keys, j) == j
  {
    if First(keys, j) == j {
      ClassesBefore(keys, j);
      CountMonotone(keys, j + 1, |keys|, keys[j]);
    }
  }

  /** The items before the first item of a class lie in classes opened earlier. */
  lemma {:induction false} ClassesBefore<K>(keys: seq<K>, j: nat)
    requires j < |keys| && First(keys, j) == j
    ensures Start(keys, keys[j]) >= j
  {
    FirstSeen(keys, j);
    NewClass(keys, j);
    OpenedCovers(keys, j);
  }

  lemma {:induction false} OpenedCovers<K>(keys: seq<K>, i: nat)
    requires i <= |keys|
    ensures Opened(keys, i) >= i
  {
    if i > 0 {
      PlacedIn(keys, i, i);
    }
  }

  lemma {:induction false} PlacedIn<K>(keys: seq<K>, n: nat, i: nat)
    requires n <= i <= |keys|
    ensures Opened(keys, i) >= CountIn(keys, n, Nub(keys, |keys|), OpenClasses(keys, i)) == n
  {
    var ks, t := Nub(keys, |keys|), OpenClasses(keys, i);
    CountInBelow(keys, n, ks, t);
    if n == 0 {
      CountInNone(keys, ks, t);
    } else {
      PlacedIn(keys, n - 1, i);
      NubIsKeys(keys, |keys|, keys[n - 1]);
      NubIsKeys(keys, i, keys[n - 1]);
      CountMonotone(keys, n, i, keys[n - 1]);
      NubPrefix(keys, i, |keys|);
      ClassKept(Nub(keys, i), ks, keys[n - 1]);
      CountInOneMore(keys, n, ks, t);
    }
  }

  lemma {:induction false} CountInBelow<K>(keys: seq<K>, n: nat, ks: seq<K>, t: nat)
    requires n <= |keys| && t <= |ks|
    ensures CountIn(keys, n, ks, t) <= Total(keys, ks, t)
  {
    if t > 0 {
      CountInBelow(keys, n, ks, t - 1);
      CountMonotone(keys, n, |keys|, ks[t - 1]);
    }
  }

  /** Step to the first item of the next class, as u/.. does to find the key of a partition. */
  method NextFret<K(==)>(av: seq<int>, ndxa: nat, ghost keys: seq<K>) returns (j: nat)
    requires TableAt(av, keys, |keys|) && ndxa <= |keys| && |Nub(keys, ndxa)| < |Nub(keys, |keys|)|
    ensures ndxa <= j < |keys| && |Nub(keys, j)| == |Nub(keys, ndxa)|
    ensures keys[j] == Nub(keys, |keys|)[|Nub(keys, ndxa)|]
  {
    j := ndxa;
    FretAhead(keys, j);
    while av[j] < j
      invariant ndxa <= j < |keys| && |Nub(keys, j)| == |Nub(keys, ndxa)|
      decreases |keys| - j
    {
      EndsMarkFirsts(av, keys, j);
      FirstSeen(keys, j);
      j := j + 1;
      FretAhead(keys, j);
    }
    EndsMarkFirsts(av, keys, j);
    FirstSeen(keys, j);
    NewClass(keys, j);
  }

  lemma FretAhead<K>(keys: seq<K>, j: nat)
    requires j <= |keys| && |Nub(keys, j)| < |Nub(keys, |keys|)|
    ensures j < |keys|
  {
  }
}
