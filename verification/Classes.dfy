/** Partitioning items by key, as the definition of u/. has it: classes in order of the first
    occurrence of their key, items of a class in their own order.  Functions with a bound n
    speak of the first n items. */
module Classes {

  /** How many of the first n items have key k. */
  function Count<K(==)>(keys: seq<K>, n: nat, k: K): (c: nat)
    requires n <= |keys|
    ensures c <= n
  {
    if n == 0 then 0 else Count(keys, n - 1, k) + if keys[n - 1] == k then 1 else 0
  }

  /** The distinct keys of the first n items, in order of first occurrence. */
  function Nub<K(==)>(keys: seq<K>, n: nat): (ks: seq<K>)
    requires n <= |keys|
    ensures |ks| <= n
  {
    if n == 0 then []
    else if Count(keys, n - 1, keys[n - 1]) > 0 then Nub(keys, n - 1)
    else Nub(keys, n - 1) + [keys[n - 1]]
  }

  /** The class of key k: its place among the distinct keys ks. */
  function ClassOf<K(==)>(ks: seq<K>, k: K): (t: nat)
    ensures t <= |ks|
    ensures t < |ks| ==> ks[t] == k
    ensures forall v :: 0 <= v < t ==> ks[v] != k
  {
    FindFrom(ks, k, 0)
  }

  function FindFrom<K(==)>(ks: seq<K>, k: K, t: nat): (u: nat)
    requires t <= |ks|
    ensures t <= u <= |ks|
    ensures u < |ks| ==> ks[u] == k
    ensures forall v :: t <= v < u ==> ks[v] != k
    decreases |ks| - t
  {
    if t == |ks| || ks[t] == k then t else FindFrom(ks, k, t + 1)
  }

  /** The items of w, among the first n, whose key is k. */
  function Group<K(==), T>(keys: seq<K>, w: seq<T>, n: nat, k: K): (g: seq<T>)
    requires n <= |keys| == |w|
    ensures |g| == Count(keys, n, k)
  {
    if n == 0 then [] else Group(keys, w, n - 1, k) + if keys[n - 1] == k then [w[n - 1]] else []
  }

  /** The number of items in the first t classes of ks. */
  function Total<K(==)>(keys: seq<K>, ks: seq<K>, t: nat): nat
    requires t <= |ks|
  {
    if t == 0 then 0 else Total(keys, ks, t - 1) + Count(keys, |keys|, ks[t - 1])
  }

  /** The first t classes of ks laid end to end. */
  function LayOut<K(==), T>(keys: seq<K>, w: seq<T>, ks: seq<K>, t: nat): (r: seq<T>)
    requires |keys| == |w| && t <= |ks|
    ensures |r| == Total(keys, ks, t)
  {
    if t == 0 then [] else LayOut(keys, w, ks, t - 1) + Group(keys, w, |keys|, ks[t - 1])
  }

  /** The items in class order. */
  function Grouped<K(==), T>(keys: seq<K>, w: seq<T>): seq<T>
    requires |w| == |keys|
  {
    var ks := Nub(keys, |keys|);
    LayOut(keys, w, ks, |ks|)
  }

  /** The sizes of the first t classes. */
  function Sizes<K(==)>(keys: seq<K>, ks: seq<K>, t: nat): (r: seq<nat>)
    requires t <= |ks|
    ensures |r| == t
    ensures forall u :: 0 <= u < t ==> r[u] == Count(keys, |keys|, ks[u])
  {
    if t == 0 then [] else Sizes(keys, ks, t - 1) + [Count(keys, |keys|, ks[t - 1])]
  }

  /** Where the class of k starts in the grouping. */
  function Start<K(==)>(keys: seq<K>, k: K): nat {
    var ks := Nub(keys, |keys|);
    Total(keys, ks, ClassOf(ks, k))
  }

  /** Where item i goes. */
  function Position<K(==)>(keys: seq<K>, i: nat): nat
    requires i < |keys|
  {
    Start(keys, keys[i]) + Count(keys, i, keys[i])
  }

  /** The first item with the key of item i. */
  function First<K(==)>(keys: seq<K>, i: nat): (j: nat)
    requires i < |keys|
    ensures j <= i && keys[j] == keys[i]
    ensures forall l :: 0 <= l < j ==> keys[l] != keys[i]
  {
    FindFrom(keys[..i + 1], keys[i], 0)
  }

  // ---- Counts, distinct keys and classes.

  lemma {:induction false} CountPositive<K>(keys: seq<K>, n: nat, k: K)
    requires n <= |keys|
    ensures Count(keys, n, k) > 0 <==> exists i :: 0 <= i < n && keys[i] == k
  {
    if n > 0 {
      CountPositive(keys, n - 1, k);
    }
  }

  lemma {:induction false} CountMonotone<K>(keys: seq<K>, i: nat, n: nat, k: K)
    requires i <= n <= |keys|
    ensures Count(keys, i, k) <= Count(keys, n, k)
  {
    if i < n {
      CountMonotone(keys, i, n - 1, k);
    }
  }

  lemma {:induction false} NubPrefix<K>(keys: seq<K>, i: nat, n: nat)
    requires i <= n <= |keys|
    ensures Nub(keys, i) <= Nub(keys, n)
  {
    if i < n {
      NubPrefix(keys, i, n - 1);
    }
  }

  /** The nub has exactly the keys that occur, each once. */
  lemma {:induction false} NubIsKeys<K>(keys: seq<K>, n: nat, k: K)
    requires n <= |keys|
    ensures Count(keys, n, k) > 0 <==> ClassOf(Nub(keys, n), k) < |Nub(keys, n)|
    ensures k in Nub(keys, n) <==> Count(keys, n, k) > 0
    ensures forall t, u :: 0 <= t < u < |Nub(keys, n)| ==> Nub(keys, n)[t] != Nub(keys, n)[u]
  {
    if n > 0 {
      var before, ks := Nub(keys, n - 1), Nub(keys, n);
      NubIsKeys(keys, n - 1, keys[n - 1]);
      NubIsKeys(keys, n - 1, k);
      assert forall t :: 0 <= t < |before| ==> ks[t] == before[t];
      assert |ks| > |before| ==> ks[|before|] == keys[n - 1];
    }
  }

  /** A class keeps its number as further keys appear. */
  lemma ClassKept<K>(ks: seq<K>, ls: seq<K>, k: K)
    requires ks <= ls && ClassOf(ks, k) < |ks|
    ensures ClassOf(ls, k) == ClassOf(ks, k)
  {
    var t := ClassOf(ks, k);
    assert ls[..|ks|] == ks;
    assert ls[t] == ks[t];
    assert forall v :: 0 <= v < t ==> ls[v] == ks[v];
  }

  /** A key that appears at item i for the first time gets the next class. */
  lemma NewClass<K>(keys: seq<K>, i: nat)
    requires i < |keys| && Count(keys, i, keys[i]) == 0
    ensures |Nub(keys, i)| < |Nub(keys, |keys|)| && Nub(keys, |keys|)[|Nub(keys, i)|] == keys[i]
    ensures ClassOf(Nub(keys, |keys|), keys[i]) == |Nub(keys, i)|
  {
    NubPrefix(keys, i + 1, |keys|);
    var ks := Nub(keys, i + 1);
    assert ks == Nub(keys, i) + [keys[i]];
    NubIsKeys(keys, |keys|, keys[i]);
    assert Nub(keys, |keys|)[|ks| - 1] == ks[|ks| - 1];
    assert Nub(keys, |keys|)[..|ks|] == ks;
    CountMonotone(keys, i + 1, |keys|, keys[i]);
  }

  // ---- Sizes add up.

  lemma {:induction false} TotalMonotone<K>(keys: seq<K>, ks: seq<K>, t: nat, u: nat)
    requires t < u <= |ks|
    ensures Total(keys, ks, t) + Count(keys, |keys|, ks[t]) <= Total(keys, ks, u)
  {
    if t < u - 1 {
      TotalMonotone(keys, ks, t, u - 1);
    }
  }

  /** How many of the first n items have a key among the first t of ks. */
  function CountIn<K(==)>(keys: seq<K>, n: nat, ks: seq<K>, t: nat): nat
    requires n <= |keys| && t <= |ks|
  {
    if t == 0 then 0 else CountIn(keys, n, ks, t - 1) + Count(keys, n, ks[t - 1])
  }

  lemma {:induction false} TotalIsCountIn<K>(keys: seq<K>, ks: seq<K>, t: nat)
    requires t <= |ks|
    ensures Total(keys, ks, t) == CountIn(keys, |keys|, ks, t)
  {
    if t > 0 {
      TotalIsCountIn(keys, ks, t - 1);
    }
  }

  lemma {:induction false} CountInOneMore<K>(keys: seq<K>, n: nat, ks: seq<K>, t: nat)
    requires 0 < n <= |keys| && t <= |ks|
    requires forall u, v :: 0 <= u < v < |ks| ==> ks[u] != ks[v]
    ensures CountIn(keys, n, ks, t) ==
            CountIn(keys, n - 1, ks, t) + (if ClassOf(ks, keys[n - 1]) < t then 1 else 0)
  {
    if t > 0 {
      CountInOneMore(keys, n, ks, t - 1);
    }
  }

  lemma {:induction false} CountInNone<K>(keys: seq<K>, ks: seq<K>, t: nat)
    requires t <= |ks|
    ensures CountIn(keys, 0, ks, t) == 0
  {
    if t > 0 {
      CountInNone(keys, ks, t - 1);
    }
  }

  lemma {:induction false} CountInAll<K>(keys: seq<K>, n: nat)
    requires n <= |keys|
    ensures var ks := Nub(keys, |keys|); CountIn(keys, n, ks, |ks|) == n
  {
    var ks := Nub(keys, |keys|);
    if n == 0 {
      CountInNone(keys, ks, |ks|);
    } else {
      CountInAll(keys, n - 1);
      NubIsKeys(keys, |keys|, keys[n - 1]);
      CountMonotone(keys, n, |keys|, keys[n - 1]);
      CountInOneMore(keys, n, ks, |ks|);
    }
  }

  /** The classes hold every item once: their sizes add up to the number of items. */
  lemma TotalIsAll<K>(keys: seq<K>)
    ensures var ks := Nub(keys, |keys|); Total(keys, ks, |ks|) == |keys|
  {
    var ks := Nub(keys, |keys|);
    TotalIsCountIn(keys, ks, |ks|);
    CountInAll(keys, |keys|);
  }

  // ---- Positions fill the result: each place receives exactly one item.

  lemma PositionBound<K>(keys: seq<K>, i: nat)
    requires i < |keys|
    ensures Count(keys, i, keys[i]) < Count(keys, |keys|, keys[i])
    ensures ClassOf(Nub(keys, |keys|), keys[i]) < |Nub(keys, |keys|)|
    ensures Position(keys, i) < |keys|
  {
    CountMonotone(keys, i + 1, |keys|, keys[i]);
    TotalIsAll(keys);
    NubIsKeys(keys, |keys|, keys[i]);
    var ks := Nub(keys, |keys|);
    TotalMonotone(keys, ks, ClassOf(ks, keys[i]), |ks|);
  }

  /** No two items share a place. */
  lemma PositionsDiffer<K>(keys: seq<K>, i: nat, j: nat)
    requires i < j < |keys|
    ensures Position(keys, i) != Position(keys, j)
  {
    PositionBound(keys, i);
    PositionBound(keys, j);
    var ks := Nub(keys, |keys|);
    var t, u := ClassOf(ks, keys[i]), ClassOf(ks, keys[j]);
    if t == u {
      CountMonotone(keys, i + 1, j, keys[i]);
    } else if t < u {
      TotalMonotone(keys, ks, t, u);
    } else {
      TotalMonotone(keys, ks, u, t);
    }
  }

  /** The class of an item is the number of classes before the first item of its key. */
  lemma ClassByFirst<K>(keys: seq<K>, i: nat)
    requires i < |keys|
    ensures var f := First(keys, i);
            && f <= i && ClassOf(Nub(keys, |keys|), keys[i]) == |Nub(keys, f)|
            && |Nub(keys, f + 1)| == |Nub(keys, f)| + 1
  {
    var f := First(keys, i);
    CountPositive(keys, f, keys[f]);
    NewClass(keys, f);
  }

  /** The grouping is ordered by the first item of the key, and within a class as the items are. */
  lemma PositionOrder<K>(keys: seq<K>, i: nat, j: nat)
    requires i < |keys| && j < |keys|
    ensures Position(keys, i) < Position(keys, j) <==>
            First(keys, i) < First(keys, j) || (First(keys, i) == First(keys, j) && i < j)
  {
    var f, g := First(keys, i), First(keys, j);
    if f < g {
      EarlierClass(keys, i, j);
    } else if g < f {
      EarlierClass(keys, j, i);
    } else if i < j {
      CountMonotone(keys, i + 1, j, keys[i]);
    } else if j < i {
      CountMonotone(keys, j + 1, i, keys[i]);
    }
  }

  lemma EarlierClass<K>(keys: seq<K>, i: nat, j: nat)
    requires i < |keys| && j < |keys| && First(keys, i) < First(keys, j)
    ensures Position(keys, i) < Position(keys, j)
  {
    ClassByFirst(keys, i);
    ClassByFirst(keys, j);
    NubPrefix(keys, First(keys, i) + 1, First(keys, j));
    PositionBound(keys, i);
    PositionBound(keys, j);
    var ks := Nub(keys, |keys|);
    TotalMonotone(keys, ks, ClassOf(ks, keys[i]), ClassOf(ks, keys[j]));
  }

  lemma {:induction false} GroupAt<K, T>(keys: seq<K>, w: seq<T>, n: nat, k: K, q: nat) returns (i: nat)
    requires n <= |keys| == |w| && q < Count(keys, n, k)
    ensures i < n && keys[i] == k && Count(keys, i, k) == q && Group(keys, w, n, k)[q] == w[i]
  {
    if keys[n - 1] == k && q == Count(keys, n - 1, k) {
      i := n - 1;
    } else {
      i := GroupAt(keys, w, n - 1, k, q);
    }
  }

  /** A place p of the first t classes belongs to one item. */
  lemma {:induction false} PlaceOwner<K, T>(keys: seq<K>, w: seq<T>, ks: seq<K>, t: nat, p: nat) returns (u: nat, i: nat)
    requires |w| == |keys| && t <= |ks| && p < Total(keys, ks, t)
    ensures u < t && i < |keys| && keys[i] == ks[u]
    ensures p == Total(keys, ks, u) + Count(keys, i, keys[i])
    ensures LayOut(keys, w, ks, t)[p] == w[i]
  {
    if p < Total(keys, ks, t - 1) {
      u, i := PlaceOwner(keys, w, ks, t - 1, p);
    } else {
      u := t - 1;
      i := GroupAt(keys, w, |keys|, ks[u], p - Total(keys, ks, u));
    }
  }

  /** A buffer that holds every item at its position is the grouping. */
  lemma PositionsDecide<K, T>(keys: seq<K>, w: seq<T>, r: seq<T>)
    requires |w| == |keys| == |r|
    requires forall i :: 0 <= i < |keys| ==> Position(keys, i) < |r| && r[Position(keys, i)] == w[i]
    ensures r == Grouped(keys, w)
  {
    TotalIsAll(keys);
    var ks, g := Nub(keys, |keys|), Grouped(keys, w);
    forall p | 0 <= p < |r|
      ensures r[p] == g[p]
    {
      var u, i := PlaceOwner(keys, w, ks, |ks|, p);
      NubIsKeys(keys, |keys|, keys[i]);
      assert p == Position(keys, i);
    }
  }

  /** The grouping is a rearrangement of the items. */
  lemma GroupedIsPermutation<K, T>(keys: seq<K>, w: seq<T>)
    requires |w| == |keys|
    ensures multiset(Grouped(keys, w)) == multiset(w)
  {
    var ks := Nub(keys, |keys|);
    GroupsHold(keys, w, |keys|, ks, |ks|);
    AllHeld(keys, w, |keys|);
    assert w[..|w|] == w;
  }

  /** The items, among the first n, whose key is among the first t of ks. */
  function Held<K(==), T>(keys: seq<K>, w: seq<T>, n: nat, ks: seq<K>, t: nat): multiset<T>
    requires n <= |keys| == |w| && t <= |ks|
  {
    if t == 0 then multiset{} else Held(keys, w, n, ks, t - 1) + multiset(Group(keys, w, n, ks[t - 1]))
  }

  lemma {:induction false} GroupsHold<K, T>(keys: seq<K>, w: seq<T>, n: nat, ks: seq<K>, t: nat)
    requires n == |keys| == |w| && t <= |ks|
    ensures multiset(LayOut(keys, w, ks, t)) == Held(keys, w, n, ks, t)
  {
    hide *;
    if t > 0 {
      GroupsHold(keys, w, n, ks, t - 1);
      LayOutStep(keys, w, ks, t);
      HeldStep(keys, w, n, ks, t);
      BothParts(LayOut(keys, w, ks, t - 1), Group(keys, w, n, ks[t - 1]));
    } else {
      LayOutStep(keys, w, ks, 0);
      HeldStart(keys, w, n, ks);
    }
  }

  lemma LayOutStep<K, T>(keys: seq<K>, w: seq<T>, ks: seq<K>, t: nat)
    requires |keys| == |w| && t <= |ks|
    ensures LayOut(keys, w, ks, 0) == []
    ensures t > 0 ==> LayOut(keys, w, ks, t) == LayOut(keys, w, ks, t - 1) + Group(keys, w, |keys|, ks[t - 1])
  {
    hide Group, Total;
  }

  lemma HeldStart<K, T>(keys: seq<K>, w: seq<T>, n: nat, ks: seq<K>)
    requires n <= |keys| == |w|
    ensures Held(keys, w, n, ks, 0) == multiset{}
  {
  }

  lemma BothParts<T>(s: seq<T>, t: seq<T>)
    ensures multiset(s + t) == multiset(s) + multiset(t)
  {
  }

  lemma GroupOneMore<K, T>(keys: seq<K>, w: seq<T>, n: nat, k: K)
    requires 0 < n <= |keys| == |w|
    ensures multiset(Group(keys, w, n, k)) ==
            multiset(Group(keys, w, n - 1, k)) + (if keys[n - 1] == k then multiset{w[n - 1]} else multiset{})
  {
    BothParts(Group(keys, w, n - 1, k), if keys[n - 1] == k then [w[n - 1]] else []);
  }

  lemma HeldStep<K, T>(keys: seq<K>, w: seq<T>, n: nat, ks: seq<K>, t: nat)
    requires n <= |keys| == |w| && 0 < t <= |ks|
    ensures Held(keys, w, n, ks, t) == Held(keys, w, n, ks, t - 1) + multiset(Group(keys, w, n, ks[t - 1]))
  {
  }

  lemma ClassIs<K>(ks: seq<K>, k: K, t: nat)
    requires t < |ks| && forall u, v :: 0 <= u < v < |ks| ==> ks[u] != ks[v]
    ensures ks[t] == k <==> ClassOf(ks, k) == t
  {
  }

  lemma {:induction false} HeldOneMore<K, T>(keys: seq<K>, w: seq<T>, n: nat, ks: seq<K>, t: nat)
    requires 0 < n <= |keys| == |w| && t <= |ks|
    requires forall u, v :: 0 <= u < v < |ks| ==> ks[u] != ks[v]
    ensures Held(keys, w, n, ks, t) ==
            Held(keys, w, n - 1, ks, t) + (if ClassOf(ks, keys[n - 1]) < t then multiset{w[n - 1]} else multiset{})
  {
    hide *;
    HeldStart(keys, w, n, ks);
    HeldStart(keys, w, n - 1, ks);
    if t > 0 {
      HeldOneMore(keys, w, n, ks, t - 1);
      GroupOneMore(keys, w, n, ks[t - 1]);
      ClassIs(ks, keys[n - 1], t - 1);
      HeldStep(keys, w, n, ks, t);
      HeldStep(keys, w, n - 1, ks, t);
    }
  }

  lemma {:induction false} HeldNone<K, T>(keys: seq<K>, w: seq<T>, ks: seq<K>, t: nat)
    requires |keys| == |w| && t <= |ks|
    ensures Held(keys, w, 0, ks, t) == multiset{}
  {
    if t > 0 {
      HeldNone(keys, w, ks, t - 1);
    }
  }

  lemma OneMoreOf<T>(w: seq<T>, n: nat)
    requires 0 < n <= |w|
    ensures multiset(w[..n]) == multiset(w[..n - 1]) + multiset{w[n - 1]}
  {
    assert w[..n] == w[..n - 1] + [w[n - 1]];
  }

  lemma {:induction false} AllHeld<K, T>(keys: seq<K>, w: seq<T>, n: nat)
    requires n <= |keys| == |w|
    ensures var ks := Nub(keys, |keys|); Held(keys, w, n, ks, |ks|) == multiset(w[..n])
  {
    var ks := Nub(keys, |keys|);
    if n == 0 {
      HeldNone(keys, w, ks, |ks|);
    } else {
      AllHeld(keys, w, n - 1);
      NubIsKeys(keys, |keys|, keys[n - 1]);
      CountMonotone(keys, n, |keys|, keys[n - 1]);
      HeldOneMore(keys, w, n, ks, |ks|);
      OneMoreOf(w, n);
    }
  }
}
