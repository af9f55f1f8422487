/** One-pass reductions x f//. y and tallies x #/. y, which never build the partitions, against
    folding or counting each partition. */
module KeyReduce {
  import opened Classes
  import opened Key
  import KeySmallRange

  /** f/ of a list: the right-to-left fold. */
  function Insert<T>(f: (T, T) -> T, g: seq<T>): T
    requires g != []
  {
    if |g| == 1 then g[0] else f(g[0], Insert(f, g[1..]))
  }

  /** f/ goes from right to left. */
  lemma InsertThree<T>(f: (T, T) -> T, a: T, b: T, c: T)
    ensures Insert(f, [a]) == a && Insert(f, [a, b, c]) == f(a, f(b, c))
  {
    InsertFirst(f, a, [b, c]);
    InsertFirst(f, b, [c]);
    assert [a] + [b, c] == [a, b, c] && [b] + [c] == [b, c];
  }

  lemma InsertFirst<T>(f: (T, T) -> T, a: T, g: seq<T>)
    requires g != []
    ensures Insert(f, [a] + g) == f(a, Insert(f, g))
  {
    assert ([a] + g)[1..] == g;
  }

  /** What accumulating from the left computes. */
  function Accumulate<T>(f: (T, T) -> T, g: seq<T>): T
    requires g != []
  {
    if |g| == 1 then g[0] else f(Accumulate(f, g[..|g| - 1]), g[|g| - 1])
  }

  ghost predicate Associative<T(!new)>(f: (T, T) -> T) {
    forall a, b, c :: f(f(a, b), c) == f(a, f(b, c))
  }

  lemma {:induction false} InsertSnoc<T(!new)>(f: (T, T) -> T, g: seq<T>, x: T)
    requires Associative(f) && g != []
    ensures Insert(f, g + [x]) == f(Insert(f, g), x)
  {
    if |g| == 1 {
      assert (g + [x])[1..] == [x];
    } else {
      assert (g + [x])[1..] == g[1..] + [x];
      InsertSnoc(f, g[1..], x);
    }
  }

  /** For an associative verb the two orders agree. */
  lemma {:induction false} AccumulateIsInsert<T(!new)>(f: (T, T) -> T, g: seq<T>)
    requires Associative(f) && g != []
    ensures Accumulate(f, g) == Insert(f, g)
  {
    if |g| > 1 {
      AccumulateIsInsert(f, g[..|g| - 1]);
      InsertSnoc(f, g[..|g| - 1], g[|g| - 1]);
      assert g[..|g| - 1] + [g[|g| - 1]] == g;
    }
  }

  /** The totals of the open classes over the first i items. */
  ghost predicate Accumulated<K, T>(z: seq<T>, f: (T, T) -> T, keys: seq<K>, w: seq<T>, i: nat)
    requires |w| == |keys| && i <= |keys|
  {
    var ks := Nub(keys, |keys|);
    && OpenClasses(keys, i) <= |z| == |ks|
    && forall t :: 0 <= t < OpenClasses(keys, i) ==> Count(keys, i, ks[t]) > 0 && z[t] == Accumulate(f, Group(keys, w, i, ks[t]))
  }

  lemma OpenStep<K>(keys: seq<K>, i: nat)
    requires i < |keys|
    ensures First(keys, i) < i ==> OpenClasses(keys, i + 1) == OpenClasses(keys, i)
    ensures First(keys, i) == i ==> OpenClasses(keys, i + 1) == OpenClasses(keys, i) + 1
    ensures ClassIndex(keys, i) < OpenClasses(keys, i + 1)
    ensures First(keys, i) == i ==> ClassIndex(keys, i) == OpenClasses(keys, i)
    ensures First(keys, i) < i ==> ClassIndex(keys, i) < OpenClasses(keys, i)
    ensures First(keys, i) <= i
  {
    FirstSeen(keys, i);
    if First(keys, i) == i {
      NewClass(keys, i);
    } else {
      NubIsKeys(keys, i, keys[i]);
      NubPrefix(keys, i, |keys|);
      ClassKept(Nub(keys, i), Nub(keys, |keys|), keys[i]);
    }
  }

  function ClassIndex<K(==)>(keys: seq<K>, i: nat): nat
    requires i < |keys|
  {
    ClassOf(Nub(keys, |keys|), keys[i])
  }

  /** Item i changes the total of its own class only. */
  lemma AccumulateStep<K, T>(z: seq<T>, f: (T, T) -> T, keys: seq<K>, w: seq<T>, i: nat)
    requires |w| == |keys| && i < |keys| && Accumulated(z, f, keys, w, i)
    ensures ClassIndex(keys, i) < |z|
    ensures var t := ClassIndex(keys, i);
            Accumulated(z[t := if First(keys, i) == i then w[i] else f(z[t], w[i])], f, keys, w, i + 1)
  {
    OpenStep(keys, i);
    FirstSeen(keys, i);
    var ks, c := Nub(keys, |keys|), ClassIndex(keys, i);
    var next := z[c := if First(keys, i) == i then w[i] else f(z[c], w[i])];
    forall t | 0 <= t < OpenClasses(keys, i + 1)
      ensures Count(keys, i + 1, ks[t]) > 0 && next[t] == Accumulate(f, Group(keys, w, i + 1, ks[t]))
    {
      NubIsKeys(keys, |keys|, keys[i]);
      var g := Group(keys, w, i, ks[t]);
      if t == c {
        assert ks[t] == keys[i];
        assert Group(keys, w, i + 1, ks[t]) == g + [w[i]];
        assert (g + [w[i]])[..|g|] == g;
      } else {
        assert ks[t] != keys[i];
        assert Group(keys, w, i + 1, ks[t]) == g;
      }
    }
  }

  /** Every class has its fold. */
  ghost predicate Inserted<K, T>(z: seq<T>, f: (T, T) -> T, keys: seq<K>, w: seq<T>)
    requires |w| == |keys|
  {
    var ks := Nub(keys, |keys|);
    && |z| == |ks|
    && forall t :: 0 <= t < |ks| ==> Count(keys, |keys|, ks[t]) > 0 && z[t] == Insert(f, Group(keys, w, |keys|, ks[t]))
  }

  lemma AccumulatedAll<K, T(!new)>(z: seq<T>, f: (T, T) -> T, keys: seq<K>, w: seq<T>)
    requires |w| == |keys| && Accumulated(z, f, keys, w, |keys|) && Associative(f)
    ensures Inserted(z, f, keys, w)
  {
    var ks := Nub(keys, |keys|);
    forall t | 0 <= t < |ks|
      ensures z[t] == Insert(f, Group(keys, w, |keys|, ks[t]))
    {
      AccumulateIsInsert(f, Group(keys, w, |keys|, ks[t]));
    }
  }

  /** The classify table while the items below i have been used: the first item of a class holds
      where the total of the class is. */
  ghost predicate PointersAt<K>(ai: seq<int>, keys: seq<K>, i: nat)
    requires i <= |keys|
  {
    && |ai| == |keys|
    && forall j :: 0 <= j < |keys| ==>
         ai[j] == if First(keys, j) == j && j < i then ClassIndex(keys, j) else SelfClass(keys, j)
  }

  /** What the classify table says of item i, and how using the item changes it. */
  lemma PointerStep<K>(ai: seq<int>, keys: seq<K>, i: nat)
    requires i < |keys| && PointersAt(ai, keys, i)
    ensures |ai| == |keys| && (ai[i] >= i <==> First(keys, i) == i)
    ensures First(keys, i) == i ==> PointersAt(ai[i := ClassIndex(keys, i)], keys, i + 1)
    ensures First(keys, i) < i ==>
              ai[i] == First(keys, i) && ai[ai[i]] == ClassIndex(keys, i) && PointersAt(ai, keys, i + 1)
  {
    FirstSame(keys, i, First(keys, i));
  }

  lemma NothingAccumulated<K, T>(z: seq<T>, f: (T, T) -> T, keys: seq<K>, w: seq<T>)
    requires |w| == |keys| && |z| == |Nub(keys, |keys|)|
    ensures Accumulated(z, f, keys, w, 0) && OpenClasses(keys, 0) == 0
  {
  }

  lemma PointersStart<K>(ai: seq<int>, keys: seq<K>)
    requires SelfClassified(ai, keys)
    ensures PointersAt(ai, keys, 0)
  {
  }

  /** f//. through the classify table. */
  method KeySlash<K(==), T(!new)>(ai: array<int>, w: seq<T>, f: (T, T) -> T, z: array<T>, ghost keys: seq<K>)
    requires |w| == |keys| && SelfClassified(ai[..], keys) && z.Length == |Nub(keys, |keys|)|
    requires Associative(f) && ai as object != z
    modifies ai, z
    ensures Inserted(z[..], f, keys, w)
  {
    hide *;
    PointersStart(ai[..], keys);
    NothingAccumulated(z[..], f, keys, w);
    var nextpartition, indexx := 0, 0;
    while indexx < |w|
      invariant 0 <= indexx <= |w| && PointersAt(ai[..], keys, indexx)
      invariant nextpartition == OpenClasses(keys, indexx)
      invariant Accumulated(z[..], f, keys, w, indexx)
    {
      ghost var a0, z0, c := ai[..], z[..], ClassIndex(keys, indexx);
      PointerStep(a0, keys, indexx);
      AccumulateStep(z0, f, keys, w, indexx);
      OpenStep(keys, indexx);
      var nextx := ai[indexx];
      if nextx >= indexx {
        ai[indexx] := nextpartition;
        z[nextpartition] := w[indexx];
        nextpartition := nextpartition + 1;
        assert ai[..] == a0[indexx := c] && z[..] == z0[c := w[indexx]];
      } else {
        var partition := ai[nextx];
        z[partition] := f(z[partition], w[indexx]);
        assert ai[..] == a0 && z[..] == z0[c := f(z0[c], w[indexx])];
      }
      indexx := indexx + 1;
    }
    AccumulatedAll(z[..], f, keys, w);
  }

  /** The small-range table of f//. while the items below i have been used: one more than the
      place of the total for a key met, 0 for a key not met yet, -1 for a key that never occurs. */
  ghost predicate AddressesAt(t: seq<int>, keys: seq<int>, i: nat, datamin: int)
    requires i <= |keys|
  {
    forall v :: 0 <= v < |t| ==>
      var k := v + datamin;
      t[v] == if Count(keys, i, k) > 0 then ClassOf(Nub(keys, |keys|), k) + 1
              else if Count(keys, |keys|, k) > 0 then 0 else -1
  }

  lemma AddressStep(t: seq<int>, keys: seq<int>, i: nat, datamin: int)
    requires i < |keys| && KeySmallRange.InRange(keys, datamin, |t|) && AddressesAt(t, keys, i, datamin)
    ensures var v := keys[i] - datamin;
            && 0 <= v < |t| && (t[v] == 0 <==> First(keys, i) == i)
            && (First(keys, i) < i ==> t[v] == ClassIndex(keys, i) + 1)
            && AddressesAt(t[v := ClassIndex(keys, i) + 1], keys, i + 1, datamin)
  {
    FirstSeen(keys, i);
    CountMonotone(keys, i + 1, |keys|, keys[i]);
    assert keys[i] - datamin + datamin == keys[i];
  }

  /** Mark the keys that occur and count them. */
  method MarkKeys(a: seq<int>, datamin: int, ftbl: array<int>) returns (nparts: nat)
    requires KeySmallRange.InRange(a, datamin, ftbl.Length) && forall v :: 0 <= v < ftbl.Length ==> ftbl[v] == -1
    modifies ftbl
    ensures AddressesAt(ftbl[..], a, 0, datamin) && nparts == |Nub(a, |a|)|
  {
    nparts := 0;
    var i := 0;
    while i < |a|
      invariant 0 <= i <= |a| && nparts == |Nub(a, i)|
      invariant forall v :: 0 <= v < ftbl.Length ==> ftbl[v] == if Count(a, i, v + datamin) > 0 then 0 else -1
    {
      var of := ftbl[a[i] - datamin];
      ftbl[a[i] - datamin] := 0;
      nparts := nparts + if of == -1 then 1 else 0;
      i := i + 1;
    }
  }

  /** f//. through the small-range table. */
  method KeySlashSmallRange<T(!new)>(a: seq<int>, datamin: int, ftbl: array<int>, w: seq<T>, f: (T, T) -> T, z: array<T>)
    requires |w| == |a| && KeySmallRange.InRange(a, datamin, ftbl.Length) && AddressesAt(ftbl[..], a, 0, datamin)
    requires z.Length == |Nub(a, |a|)| && Associative(f) && ftbl as object != z
    modifies ftbl, z
    ensures Inserted(z[..], f, a, w)
  {
    hide *;
    NothingAccumulated(z[..], f, a, w);
    var nextpartition, i := 0, 0;
    while i < |w|
      invariant 0 <= i <= |w| && AddressesAt(ftbl[..], a, i, datamin)
      invariant nextpartition == OpenClasses(a, i)
      invariant Accumulated(z[..], f, a, w, i)
    {
      ghost var t0, z0, c := ftbl[..], z[..], ClassIndex(a, i);
      AccumulateStep(z0, f, a, w, i);
      OpenStep(a, i);
      AddressStep(t0, a, i, datamin);
      var partition := ftbl[a[i] - datamin];
      if partition == 0 {
        ftbl[a[i] - datamin] := nextpartition + 1;
        z[nextpartition] := w[i];
        nextpartition := nextpartition + 1;
        assert z[..] == z0[c := w[i]];
      } else {
        z[partition - 1] := f(z[partition - 1], w[i]);
        assert z[..] == z0[c := f(z0[c], w[i])];
      }
      assert ftbl[..] == t0[a[i] - datamin := c + 1];
      i := i + 1;
    }
    AccumulatedAll(z[..], f, a, w);
  }

  /** f//. of keys in a small range, from the keys to the totals: a table of p entries marks the keys that occur,
      and then has the place of each total. */
  method KeySlashInRange<T(0,!new)>(a: seq<int>, datamin: int, p: nat, w: seq<T>, f: (T, T) -> T) returns (z: array<T>)
    requires |w| == |a| && KeySmallRange.InRange(a, datamin, p) && Associative(f)
    ensures fresh(z) && Inserted(z[..], f, a, w)
  {
    var ftbl := new int[p](_ => -1);
    hide *;
    var nparts := MarkKeys(a, datamin, ftbl);
    z := new T[nparts];
    KeySlashSmallRange(a, datamin, ftbl, w, f, z);
  }

  // ---- Tallies.

  /** The class sizes, in class order. */
  function Tally<K(==)>(keys: seq<K>): seq<nat> {
    var ks := Nub(keys, |keys|);
    Sizes(keys, ks, |ks|)
  }

  function TallySoFar<K(==)>(keys: seq<K>, i: nat): seq<nat>
    requires i <= |keys|
  {
    Sizes(keys, Nub(keys, |keys|), OpenClasses(keys, i))
  }

  lemma TallyStep<K>(keys: seq<K>, i: nat)
    requires i < |keys|
    ensures TallySoFar(keys, i + 1) ==
            if First(keys, i) == i then TallySoFar(keys, i) + [Count(keys, |keys|, keys[i])] else TallySoFar(keys, i)
  {
    hide *;
    OpenStep(keys, i);
    if First(keys, i) == i {
      TallyNew(keys, i, Nub(keys, |keys|), OpenClasses(keys, i));
    } else {
      TallySame(keys, i);
    }
  }

  lemma TallySame<K>(keys: seq<K>, i: nat)
    requires i < |keys| && OpenClasses(keys, i + 1) == OpenClasses(keys, i)
    ensures TallySoFar(keys, i + 1) == TallySoFar(keys, i)
  {
    hide *;
    SoFarIs(keys, i);
    SoFarIs(keys, i + 1);
  }

  lemma TallyNew<K>(keys: seq<K>, i: nat, ks: seq<K>, t: nat)
    requires i < |keys| && First(keys, i) == i && ks == Nub(keys, |keys|) && t == OpenClasses(keys, i)
    ensures TallySoFar(keys, i + 1) == TallySoFar(keys, i) + [Count(keys, |keys|, keys[i])]
  {
    hide *;
    OpenStep(keys, i);
    FirstSeen(keys, i);
    SoFarIs(keys, i);
    SoFarIs(keys, i + 1);
    NewClass(keys, i);
    SizesStep(keys, ks, t);
  }

  lemma SoFarIs<K>(keys: seq<K>, i: nat)
    requires i <= |keys|
    ensures OpenClasses(keys, i) == |Nub(keys, i)| <= |Nub(keys, |keys|)|
    ensures TallySoFar(keys, i) == Sizes(keys, Nub(keys, |keys|), OpenClasses(keys, i))
  {
    NubPrefix(keys, i, |keys|);
    hide Sizes;
  }

  lemma SizesStep<K>(keys: seq<K>, ks: seq<K>, t: nat)
    requires t < |ks|
    ensures Sizes(keys, ks, t + 1) == Sizes(keys, ks, t) + [Count(keys, |keys|, ks[t])]
  {
    hide Count;
  }

  lemma TallyStart<K>(keys: seq<K>)
    requires keys != []
    ensures TallySoFar(keys, 0) == [] && OpenClasses(keys, 0) == 0 < |Nub(keys, |keys|)|
  {
    OpenStep(keys, 0);
    NubPrefix(keys, 1, |keys|);
  }

  lemma ClassAhead<K>(keys: seq<K>, i: nat)
    requires i <= |keys| && OpenClasses(keys, i) < |Nub(keys, |keys|)|
    ensures i < |keys|
  {
  }

  lemma TallyEnds<K>(keys: seq<K>, i: nat)
    requires i <= |keys| && OpenClasses(keys, i) == |Nub(keys, |keys|)|
    ensures TallySoFar(keys, i) == Tally(keys)
  {
  }

  lemma EntryIsSize<K>(ai: seq<int>, keys: seq<K>, i: nat)
    requires SelfClassified(ai, keys) && i < |keys|
    ensures |ai| == |keys| && (ai[i] - i >= 0 <==> First(keys, i) == i)
    ensures First(keys, i) == i ==> ai[i] - i == Count(keys, |keys|, keys[i])
  {
  }

  /** #/. through the classify table: stop at the last class. */
  method KeyTally<K(==)>(ai: seq<int>, nfrets: nat, ghost keys: seq<K>) returns (z: seq<nat>)
    requires SelfClassified(ai, keys) && nfrets == |Nub(keys, |keys|)| && keys != []
    ensures z == Tally(keys)
  {
    hide *;
    z := [];
    var nparts, i := nfrets, 0;
    TallyStart(keys);
    while true
      invariant 0 <= i <= |keys| && z == TallySoFar(keys, i) && nparts == nfrets - OpenClasses(keys, i) > 0
      decreases |keys| - i
    {
      ClassAhead(keys, i);
      TallyStep(keys, i);
      OpenStep(keys, i);
      EntryIsSize(ai, keys, i);
      var a0 := ai[i];
      if a0 - i >= 0 {
        z := z + [a0 - i];
        nparts := nparts - 1;
        if nparts == 0 { break; }
      }
      i := i + 1;
    }
    TallyEnds(keys, i + 1);
  }

  /** #/. through the small-range table: the table holds one less than each count, and -1 once
      the count has been written. */
  method KeyTallySmallRange(a: seq<int>, datamin: int, p: nat) returns (z: seq<nat>)
    requires KeySmallRange.InRange(a, datamin, p) && a != []
    ensures z == Tally(a)
  {
    var ftbl := new int[p](_ => -1);
    var nparts := 0;
    var i := 0;
    while i < |a|
      invariant 0 <= i <= |a| && nparts == |Nub(a, i)|
      invariant forall v :: 0 <= v < ftbl.Length ==> ftbl[v] == Count(a, i, v + datamin) - 1
    {
      var of := ftbl[a[i] - datamin];
      ftbl[a[i] - datamin] := of + 1;
      nparts := nparts + if of < 0 then 1 else 0;
      i := i + 1;
    }
    z := WriteTallies(a, datamin, ftbl, nparts);
  }

  /** The table while the counts of the items below i have been written. */
  ghost predicate CountsAt(t: seq<int>, keys: seq<int>, i: nat, datamin: int)
    requires i <= |keys|
  {
    forall v :: 0 <= v < |t| ==>
      var k := v + datamin;
      t[v] == if Count(keys, i, k) > 0 then -1 else Count(keys, |keys|, k) - 1
  }

  lemma CountsStep(t: seq<int>, keys: seq<int>, i: nat, datamin: int)
    requires i < |keys| && KeySmallRange.InRange(keys, datamin, |t|) && CountsAt(t, keys, i, datamin)
    ensures var v := keys[i] - datamin;
            && 0 <= v < |t| && (t[v] >= 0 <==> First(keys, i) == i)
            && (First(keys, i) == i ==> t[v] + 1 == Count(keys, |keys|, keys[i]))
            && CountsAt(t[v := -1], keys, i + 1, datamin)
  {
    FirstSeen(keys, i);
    CountMonotone(keys, i + 1, |keys|, keys[i]);
    assert keys[i] - datamin + datamin == keys[i];
  }

  method WriteTallies(a: seq<int>, datamin: int, ftbl: array<int>, nfrets: nat) returns (z: seq<nat>)
    requires KeySmallRange.InRange(a, datamin, ftbl.Length) && a != [] && nfrets == |Nub(a, |a|)|
    requires CountsAt(ftbl[..], a, 0, datamin)
    modifies ftbl
    ensures z == Tally(a)
  {
    hide *;
    z := [];
    var nparts, i := nfrets, 0;
    TallyStart(a);
    while true
      invariant 0 <= i <= |a| && z == TallySoFar(a, i) && nparts == nfrets - OpenClasses(a, i) > 0
      invariant CountsAt(ftbl[..], a, i, datamin)
      decreases |a| - i
    {
      ghost var t := ftbl[..];
      ClassAhead(a, i);
      TallyStep(a, i);
      OpenStep(a, i);
      CountsStep(t, a, i, datamin);
      var of := ftbl[a[i] - datamin];
      ftbl[a[i] - datamin] := -1;
      assert ftbl[..] == t[a[i] - datamin := -1];
      if of >= 0 {
        z := z + [of + 1];
        nparts := nparts - 1;
        if nparts == 0 { break; }
      }
      i := i + 1;
    }
    TallyEnds(a, i + 1);
  }

  /** What two keys leave open: only which came first and how often it occurs. */
  lemma {:induction false} BooleanNub(a: seq<bool>, n: nat)
    requires 0 < n <= |a|
    ensures Count(a, n, true) + Count(a, n, false) == n && Count(a, n, a[0]) > 0
    ensures Nub(a, n) == if Count(a, n, !a[0]) > 0 then [a[0], !a[0]] else [a[0]]
  {
    if n == 1 {
      assert Count(a, 0, a[0]) == 0 && Nub(a, 0) == [];
    } else {
      BooleanNub(a, n - 1);
      assert a[n - 1] == a[0] || a[n - 1] == !a[0];
    }
  }

  lemma BooleanTally(a: seq<bool>, k: nat)
    requires a != [] && k == Count(a, |a|, true)
    ensures Tally(a) == if 1 <= k < |a| then [if a[0] then k else |a| - k, if a[0] then |a| - k else k] else [|a|]
  {
    hide *;
    var n := |a|;
    BooleanNub(a, n);
    var ks := Nub(a, n);
    TallyLength(a);
    TallyIs(a, 0);
    if |ks| == 2 {
      TallyIs(a, 1);
    }
  }

  lemma TallyLength<K>(keys: seq<K>)
    ensures |Tally(keys)| == |Nub(keys, |keys|)|
  {
  }

  lemma TallyIs<K>(keys: seq<K>, t: nat)
    requires t < |Nub(keys, |keys|)|
    ensures |Tally(keys)| == |Nub(keys, |keys|)| && Tally(keys)[t] == Count(keys, |keys|, Nub(keys, |keys|)[t])
  {
  }

  /** #/. of Boolean keys: add up the ones. */
  method KeyTallyBoolean(a: seq<bool>) returns (z: seq<nat>)
    requires a != []
    ensures z == Tally(a)
  {
    var n, k := |a|, 0;
    for i := 0 to n
      invariant k == Count(a, i, true)
    {
      k := k + if a[i] then 1 else 0;
    }
    BooleanTally(a, k);
    z := if 1 <= k < n then [if a[0] then k else n - k, if a[0] then n - k else k] else [n];
  }

  // ---- What the reordered items and the frets hand to the cut.

  /** Cutting the reordered items by the class sizes gives the classes. */
  lemma CutGivesGroups<K, T>(keys: seq<K>, w: seq<T>, t: nat)
    requires |w| == |keys| && t < |Nub(keys, |keys|)|
    ensures var ks, g := Nub(keys, |keys|), Grouped(keys, w);
            var from := Total(keys, ks, t);
            && from + Tally(keys)[t] <= |g|
            && g[from..from + Tally(keys)[t]] == Group(keys, w, |keys|, ks[t])
  {
    hide *;
    var ks := Nub(keys, |keys|);
    GroupInLayOut(keys, w, ks, t);
    SliceOfPrefix(LayOut(keys, w, ks, t), Group(keys, w, |keys|, ks[t]), Grouped(keys, w));
    TallyIs(keys, t);
  }

  lemma GroupInLayOut<K, T>(keys: seq<K>, w: seq<T>, ks: seq<K>, t: nat)
    requires |w| == |keys| && t < |ks| && ks == Nub(keys, |keys|)
    ensures LayOut(keys, w, ks, t) + Group(keys, w, |keys|, ks[t]) <= Grouped(keys, w)
  {
    hide *;
    LayOutPrefix(keys, w, ks, t + 1, |ks|);
    LayOutStep(keys, w, ks, t);
    GroupedIs(keys, w);
  }

  lemma GroupedIs<K, T>(keys: seq<K>, w: seq<T>)
    requires |w| == |keys|
    ensures var ks := Nub(keys, |keys|); Grouped(keys, w) == LayOut(keys, w, ks, |ks|)
  {
  }

  lemma LayOutStep<K, T>(keys: seq<K>, w: seq<T>, ks: seq<K>, t: nat)
    requires |w| == |keys| && t < |ks|
    ensures LayOut(keys, w, ks, t + 1) == LayOut(keys, w, ks, t) + Group(keys, w, |keys|, ks[t])
  {
  }

  lemma SliceOfPrefix<T>(a: seq<T>, b: seq<T>, g: seq<T>)
    requires a + b <= g
    ensures |a| + |b| <= |g| && g[|a|..|a| + |b|] == b
  {
    assert g[..|a| + |b|] == a + b;
    assert g[|a|..|a| + |b|] == g[..|a| + |b|][|a|..];
  }

  lemma {:induction false} LayOutPrefix<K, T>(keys: seq<K>, w: seq<T>, ks: seq<K>, t: nat, u: nat)
    requires |w| == |keys| && t <= u <= |ks|
    ensures LayOut(keys, w, ks, t) <= LayOut(keys, w, ks, u)
  {
    if t < u {
      LayOutPrefix(keys, w, ks, t, u - 1);
    }
  }
}
