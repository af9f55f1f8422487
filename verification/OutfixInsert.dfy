/** The outfix of an insert: from prefix and suffix scans if the verb is associative, from the total if
    the verb can be undone. */
module OutfixInsert {
  import opened Arith
  import opened Outfix
  import opened WindowSpec
  import WindowSums
  import opened Wrappers

  /** f/ of a list, e if it is empty. */
  function Insert<T>(f: (T, T) -> T, e: T, w: seq<T>): T {
    if w == [] then e else InsertFrom(f, w, 0, |w|)
  }

  /** The verb f/ */
  function Inserting<T>(f: (T, T) -> T, e: T): seq<T> -> T {
    w => Insert(f, e, w)
  }

  // ---- Inserts of parts.

  lemma {:induction false} InsertElsewhere<T>(f: (T, T) -> T, v: seq<T>, w: seq<T>, i: nat, n: nat, j: nat)
    requires i < n <= |v| && j + (n - i) <= |w| && v[i..n] == w[j..j + (n - i)]
    ensures InsertFrom(f, v, i, n) == InsertFrom(f, w, j, j + (n - i))
    decreases n - i
  {
    assert v[i] == v[i..n][0] == w[j];
    if i < n - 1 {
      assert v[i + 1..n] == v[i..n][1..] == w[j + 1..j + (n - i)];
      InsertElsewhere(f, v, w, i + 1, n, j + 1);
    }
  }

  lemma {:induction false} InsertJoins<T(!new)>(f: (T, T) -> T, w: seq<T>, i: nat, l: nat, n: nat)
    requires Associative(f) && i < l < n <= |w|
    ensures InsertFrom(f, w, i, n) == f(InsertFrom(f, w, i, l), InsertFrom(f, w, l, n))
    decreases l - i
  {
    if i < l - 1 {
      InsertJoins(f, w, i + 1, l, n);
    }
  }

  /** The insert of two lists laid end to end. */
  lemma InsertBoth<T(!new)>(f: (T, T) -> T, v: seq<T>, w: seq<T>)
    requires Associative(f) && v != [] && w != []
    ensures InsertFrom(f, v + w, 0, |v| + |w|) == f(InsertFrom(f, v, 0, |v|), InsertFrom(f, w, 0, |w|))
  {
    hide *;
    InsertJoins(f, v + w, 0, |v|, |v| + |w|);
    InsertElsewhere(f, v, v + w, 0, |v|, 0);
    InsertElsewhere(f, w, v + w, 0, |w|, |v|);
  }

  // ---- Scans.

  /** f\ w for an associative f: entry i is the insert of items 0 to i. */
  method PrefixScan<T(!new)>(f: (T, T) -> T, w: seq<T>) returns (z: array<T>)
    requires w != [] && Associative(f)
    ensures z.Length == |w| && forall i: nat :: i < |w| ==> z[i] == InsertFrom(f, w, 0, i + 1)
  {
    z := new T[|w|](_ => w[0]);
    InsertOne(f, w, 0);
    hide *;
    var v := w[0];
    z[0] := v;
    for i := 1 to |w|
      invariant v == InsertFrom(f, w, 0, i)
      invariant forall l: nat :: l < i ==> z[l] == InsertFrom(f, w, 0, l + 1)
    {
      InsertSnoc(f, w, 0, i);
      v := f(v, w[i]);
      z[i] := v;
    }
  }

  /** f\. w for any f: entry i is the insert of item i and those after it. */
  method SuffixScan<T>(f: (T, T) -> T, w: seq<T>) returns (z: array<T>)
    requires w != []
    ensures z.Length == |w| && forall i: nat :: i < |w| ==> z[i] == InsertFrom(f, w, i, |w|)
  {
    hide *;
    z := new T[|w|](_ => w[0]);
    SuffixInto(f, w, z);
  }

  method SuffixInto<T>(f: (T, T) -> T, w: seq<T>, z: array<T>)
    requires w != [] && z.Length == |w|
    modifies z
    ensures forall i: nat :: i < |w| ==> z[i] == InsertFrom(f, w, i, |w|)
  {
    hide *;
    var i := |w| - 1;
    InsertOne(f, w, i);
    var v := w[i];
    z[i] := v;
    while i > 0
      invariant 0 <= i < |w| && v == InsertFrom(f, w, i, |w|)
      invariant forall l: nat :: i <= l < |w| ==> z[l] == InsertFrom(f, w, l, |w|)
    {
      i := i - 1;
      InsertFront(f, w, i, |w|);
      v := f(w[i], v);
      z[i] := v;
    }
  }

  // ---- From prefixes and suffixes.

  /** The place in the prefix scan of the total before window t, and in the suffix scan of the total
      after it. */
  lemma Ends(k: int, n: nat, t: nat)
    requires 0 < n && Magnitude(k) < n && t < Windows(k, n)
    ensures Start(k, t) <= Stop(k, n, t) <= n
    ensures t > 0 ==> 0 < Start(k, t)
    ensures t + 1 < Windows(k, n) ==> Stop(k, n, t) == Start(k, t) + Magnitude(k) < n
    ensures t + 1 == Windows(k, n) ==> Stop(k, n, t) == n
    ensures Windows(k, n) > 1
  {
    WindowBounds(k, n, t);
    var p := Magnitude(k);
    if t > 0 {
      TimesMonotone(1, t, p);
    }
    if k < 0 {
      WindowsByQuotient(k, n);
      AtLeastOnce(n - 1, p);
    }
    if t + 1 < Windows(k, n) {
      WindowFull(k, n, t);
      WindowBounds(k, n, t + 1);
      OneMoreTimes(t, p);
    } else {
      LastWindow(k, n);
    }
  }

  lemma AtLeastOnce(n: nat, p: nat)
    requires 0 < p <= n
    ensures n / p >= 1
  {
  }

  /** What is left around a window, by its ends. */
  lemma Around<T(!new)>(f: (T, T) -> T, e: T, k: int, w: seq<T>, t: nat)
    requires Associative(f) && t < Windows(k, |w|) && Start(k, t) <= Stop(k, |w|, t) <= |w|
    ensures var s, h := Start(k, t), Stop(k, |w|, t);
            Insert(f, e, Kept(k, w, t)) ==
            if s == 0 && h == |w| then e
            else if s == 0 then InsertFrom(f, w, h, |w|)
            else if h == |w| then InsertFrom(f, w, 0, s)
            else f(InsertFrom(f, w, 0, s), InsertFrom(f, w, h, |w|))
  {
    hide *;
    var s, h := Start(k, t), Stop(k, |w|, t);
    var v, y := w[..s], w[h..];
    assert Kept(k, w, t) == v + y by {
      KeptIs(k, w, t);
    }
    InsertIs(f, e, v + y);
    if s > 0 {
      InsertOfPrefix(f, w, s);
    }
    if h < |w| {
      InsertOfSuffix(f, w, h);
    }
    if s == 0 {
      assert v + y == y;
    } else if h == |w| {
      assert v + y == v;
    } else {
      InsertBoth(f, v, y);
    }
  }

  lemma KeptIs<T>(k: int, w: seq<T>, t: nat)
    requires t < Windows(k, |w|)
    ensures Start(k, t) <= |w| && Stop(k, |w|, t) <= |w|
    ensures Kept(k, w, t) == w[..Start(k, t)] + w[Stop(k, |w|, t)..]
  {
    WindowBounds(k, |w|, t);
  }

  lemma InsertIs<T>(f: (T, T) -> T, e: T, w: seq<T>)
    ensures Insert(f, e, w) == if w == [] then e else InsertFrom(f, w, 0, |w|)
  {
  }

  lemma InsertOfPrefix<T>(f: (T, T) -> T, w: seq<T>, s: nat)
    requires 0 < s <= |w|
    ensures InsertFrom(f, w[..s], 0, s) == InsertFrom(f, w, 0, s)
  {
    InsertElsewhere(f, w[..s], w, 0, s, 0);
  }

  lemma InsertOfSuffix<T>(f: (T, T) -> T, w: seq<T>, h: nat)
    requires h < |w|
    ensures InsertFrom(f, w[h..], 0, |w| - h) == InsertFrom(f, w, h, |w|)
  {
    InsertElsewhere(f, w[h..], w, 0, |w| - h, h);
  }

  /** The number of results less one, and where the totals are found. */
  lemma Progressions(k: int, n: nat, d: nat, t: nat)
    requires Fits(k) && k != IMIN && n <= IMAX && Magnitude(k) < n
    requires d == if -1 <= k then n - Magnitude(k) else (n - 1) / Magnitude(k)
    ensures d + 1 == Windows(k, n) && 0 < d
    ensures var step, c := if -1 <= k then 1 else Magnitude(k), Magnitude(k);
            Start(k, t) == t * step && (t > 0 ==> Start(k, t) - 1 == step - 1 + (t - 1) * step)
  {
    var c := Magnitude(k);
    if k < 0 {
      WindowsByQuotient(k, n);
      Division(n - 1, c);
      OneMoreTimes(t - 1, c);
    }
    if k == -1 {
      ModuloIs(n - 1, 1, n - 1, 0);
    }
  }

  /** The first c results are the inserts of what the windows leave. */
  ghost predicate LeftOver<T>(f: (T, T) -> T, e: T, k: int, w: seq<T>, z: seq<T>, c: nat) {
    && c <= |z| == Windows(k, |w|)
    && forall t: nat :: t < c ==> z[t] == Insert(f, e, Kept(k, w, t))
  }

  lemma LeftOverStep<T>(f: (T, T) -> T, e: T, k: int, w: seq<T>, z: seq<T>, c: nat, x: T)
    requires LeftOver(f, e, k, w, z, c) && c < |z| && x == Insert(f, e, Kept(k, w, c))
    ensures LeftOver(f, e, k, w, z[c := x], c + 1)
  {
    hide Insert, Kept, Windows;
  }

  lemma LeftOverNone<T>(f: (T, T) -> T, e: T, k: int, w: seq<T>, z: seq<T>)
    requires |z| == Windows(k, |w|)
    ensures LeftOver(f, e, k, w, z, 0)
  {
  }

  lemma LeftOverAll<T>(f: (T, T) -> T, e: T, k: int, w: seq<T>, z: seq<T>)
    requires |z| == Windows(k, |w|) && LeftOver(f, e, k, w, z, |z|)
    ensures AreOutfixes(Inserting(f, e), k, w, z)
  {
    hide Insert, Kept, Windows;
  }

  /** k f/\. w for an associative verb, e if a window leaves nothing. */
  method OutfixAssociative<T(!new)>(f: (T, T) -> T, e: T, w: seq<T>, k: int) returns (z: Option<seq<T>>)
    requires Associative(f) && Fits(k) && |w| <= IMAX
    ensures z.Some? && AreOutfixes(Inserting(f, e), k, w, z.value) <==>
            k >= 0 || |w| + Magnitude(k) - 1 <= IMAX || Magnitude(k) < |w|
  {
    var c := Magnitude(k);
    if k == IMIN || |w| <= c {
      GeneralIff(Inserting(f, e), k, w);
      return General(Inserting(f, e), k, w);
    }
    z := PrefixesAndSuffixes(f, e, w, k);
  }

  /** The fast form, for more than one result. */
  method PrefixesAndSuffixes<T(!new)>(f: (T, T) -> T, e: T, w: seq<T>, k: int) returns (z: Option<seq<T>>)
    requires Associative(f) && Fits(k) && |w| <= IMAX && k != IMIN && Magnitude(k) < |w|
    ensures z.Some? && AreOutfixes(Inserting(f, e), k, w, z.value)
  {
    hide *;
    var c := Magnitude(k);
    NotZero(k);
    var d := if -1 <= k then |w| - c else (|w| - 1) / c;
    Progressions(k, |w|, d, 0);
    var prefix := PrefixScan(f, w);
    var suffix := SuffixScan(f, w);
    var r := new T[d + 1](_ => e);
    FromScans(f, e, w, k, d, prefix, suffix, r);
    LeftOverAll(f, e, k, w, r[..]);
    z := Some(r[..]);
  }

  lemma NotZero(k: int)
    ensures k < 0 ==> Magnitude(k) > 0
  {
  }

  method FromScans<T(!new)>(f: (T, T) -> T, e: T, w: seq<T>, k: int, d: nat,
        prefix: array<T>, suffix: array<T>, z: array<T>)
    requires Associative(f) && Fits(k) && k != IMIN && |w| <= IMAX && Magnitude(k) < |w|
    requires d == (if -1 <= k then |w| - Magnitude(k) else (|w| - 1) / Magnitude(k)) && z.Length == d + 1
    requires prefix.Length == |w| && forall i: nat :: i < |w| ==> prefix[i] == InsertFrom(f, w, 0, i + 1)
    requires suffix.Length == |w| && forall i: nat :: i < |w| ==> suffix[i] == InsertFrom(f, w, i, |w|)
    requires z != prefix && z != suffix
    modifies z
    ensures d + 1 == Windows(k, |w|) && LeftOver(f, e, k, w, z[..], d + 1)
  {
    hide *;
    ghost var n := |w|;
    var c := Magnitude(k);
    var step := if -1 <= k then 1 else c;
    Progressions(k, n, d, 0);
    LeftOverNone(f, e, k, w, z[..]);
    Ends(k, n, 0);
    Around(f, e, k, w, 0);
    LeftOverStep(f, e, k, w, z[..], 0, suffix[c]);
    ghost var z0 := z[..];
    z[0] := suffix[c];
    assert z[..] == z0[0 := suffix[c]];
    for t := 1 to d
      invariant LeftOver(f, e, k, w, z[..], t)
    {
      Progressions(k, n, d, t);
      Ends(k, n, t);
      Around(f, e, k, w, t);
      var x := f(prefix[step - 1 + (t - 1) * step], suffix[c + t * step]);
      LeftOverStep(f, e, k, w, z[..], t, x);
      z0 := z[..];
      z[t] := x;
      assert z[..] == z0[t := x];
    }
    Progressions(k, n, d, d);
    Ends(k, n, d);
    Around(f, e, k, w, d);
    var x := prefix[step - 1 + (d - 1) * step];
    LeftOverStep(f, e, k, w, z[..], d, x);
    z0 := z[..];
    z[d] := x;
    assert z[..] == z0[d := x];
  }

  // ---- From the total.

  lemma InsertOfParts<T(!new)>(f: (T, T) -> T, undo: (T, T) -> T, e: T, v: seq<T>, w: seq<T>)
    requires Associative(f) && Undoes(f, undo, e)
    ensures Insert(f, e, v + w) == f(Insert(f, e, v), Insert(f, e, w))
  {
    if v == [] {
      assert v + w == w;
    } else if w == [] {
      assert v + w == v;
    } else {
      InsertBoth(f, v, w);
    }
    hide InsertFrom, Associative;
  }

  lemma Rearranged<T(!new)>(f: (T, T) -> T, undo: (T, T) -> T, e: T, a: T, b: T, c: T)
    requires Associative(f) && Commutative(f) && Undoes(f, undo, e)
    ensures undo(f(a, f(b, c)), b) == f(a, c)
  {
    assert f(a, f(b, c)) == f(f(a, b), c) == f(f(b, a), c) == f(b, f(a, c));
  }

  /** The total, with the insert of a window undone. */
  lemma WindowUndone<T(!new)>(f: (T, T) -> T, undo: (T, T) -> T, e: T, k: int, w: seq<T>, t: nat)
    requires Associative(f) && Commutative(f) && Undoes(f, undo, e) && t < Windows(k, |w|)
    ensures undo(Insert(f, e, w), OnWindow(Inserting(f, e), w, k, t)) == Insert(f, e, Kept(k, w, t))
  {
    WindowBounds(k, |w|, t);
    var s, h := Start(k, t), Stop(k, |w|, t);
    var x, v, y := w[..s], w[s..h], w[h..];
    assert w == x + (v + y);
    InsertOfParts(f, undo, e, x, v + y);
    InsertOfParts(f, undo, e, v, y);
    InsertOfParts(f, undo, e, x, y);
    Rearranged(f, undo, e, Insert(f, e, x), Insert(f, e, v), Insert(f, e, y));
    hide Insert, Associative, Commutative, Undoes, Windows, Start, Stop;
  }

  /** k f/\. w for a commutative verb that can be undone. */
  method OutfixUndo<T(!new)>(f: (T, T) -> T, undo: (T, T) -> T, e: T, w: seq<T>, k: int) returns (z: seq<T>)
    requires Associative(f) && Commutative(f) && Undoes(f, undo, e) && Fits(k) && |w| <= IMAX
    ensures AreOutfixes(Inserting(f, e), k, w, z)
  {
    hide *;
    var total := Insert(f, e, w);
    var y := Infix(Inserting(f, e), w, k);
    z := y;
    LeftOverNone(f, e, k, w, z);
    for t := 0 to |y|
      invariant |z| == |y| && LeftOver(f, e, k, w, z, t) && forall l :: t <= l < |y| ==> z[l] == y[l]
    {
      WindowUndone(f, undo, e, k, w, t);
      OnWindowsAt(Inserting(f, e), w, k, y, t);
      LeftOverStep(f, e, k, w, z, t, undo(total, y[t]));
      z := z[t := undo(total, y[t])];
    }
    LeftOverAll(f, e, k, w, z);
  }

  lemma OnWindowsAt<T, R>(u: seq<T> -> R, w: seq<T>, k: int, z: seq<R>, t: nat)
    requires OnWindows(u, w, k, z, |z|) && t < |z|
    ensures t < Windows(k, |w|) && z[t] == OnWindow(u, w, k, t)
  {
  }

  function Minus(x: int, y: int): int {
    x - y
  }

  /** The verbs whose outfixes are made from the total: + on integers and ~: and = on Booleans. */
  lemma UndoVerbs(eq: bool)
    ensures Associative(WindowSums.Plus) && Commutative(WindowSums.Plus) && Undoes(WindowSums.Plus, Minus, 0)
    ensures var f := WindowSums.NeEq(eq); Associative(f) && Commutative(f) && Undoes(f, f, eq)
  {
    WindowSums.NeEqGroup(eq);
    SumCommutes();
    NeEqCommutes(eq);
    hide *;
  }

  lemma SumCommutes()
    ensures Associative(WindowSums.Plus) && Commutative(WindowSums.Plus) && Undoes(WindowSums.Plus, Minus, 0)
  {
  }

  lemma NeEqCommutes(eq: bool)
    ensures Commutative(WindowSums.NeEq(eq))
  {
    XorCommutes();
    SameCommutes();
    hide Commutative;
  }

  lemma XorCommutes()
    ensures Commutative(WindowSums.Xor)
  {
  }

  lemma SameCommutes()
    ensures Commutative(WindowSums.Same)
  {
  }
}
