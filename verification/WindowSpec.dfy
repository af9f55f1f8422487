/** v inserted into every window of m successive items, right to left, for a verb that is
    associative, and for one that can be undone. */
module WindowSpec {

  /** v/ of items i to n-1. */
  function InsertFrom<T>(f: (T, T) -> T, w: seq<T>, i: nat, n: nat): T
    requires i < n <= |w|
    decreases n - i
  {
    if i == n - 1 then w[i] else f(w[i], InsertFrom(f, w, i + 1, n))
  }

  /** v/ goes from right to left. */
  lemma InsertThree<T>(f: (T, T) -> T, a: T, b: T, c: T)
    ensures InsertFrom(f, [a, b, c], 0, 3) == f(a, f(b, c))
  {
    var w := [a, b, c];
    assert InsertFrom(f, w, 2, 3) == w[2];
    assert InsertFrom(f, w, 1, 3) == f(w[1], w[2]);
  }

  /** The windows: entry i is v/ of the m items from i on. */
  ghost predicate AreWindows<T>(f: (T, T) -> T, w: seq<T>, m: nat, z: seq<T>, k: nat) {
    0 < m <= |w| && k <= |w| - m + 1 && k <= |z|
    && forall i: nat :: i < k ==> z[i] == InsertFrom(f, w, i, i + m)
  }

  lemma WindowNext<T>(f: (T, T) -> T, w: seq<T>, m: nat, z: seq<T>, k: nat, z': seq<T>, x: T)
    requires AreWindows(f, w, m, z, k) && k + m <= |w| && k < |z|
    requires x == InsertFrom(f, w, k, k + m) && z' == z[k := x]
    ensures AreWindows(f, w, m, z', k + 1)
  {
    hide InsertFrom;
  }

  lemma WindowsStart<T>(f: (T, T) -> T, w: seq<T>, m: nat, z: seq<T>)
    requires 0 < m <= |w|
    ensures AreWindows(f, w, m, z, 0)
  {
  }

  ghost predicate Associative<T(!new)>(f: (T, T) -> T) {
    forall a, b, c :: f(f(a, b), c) == f(a, f(b, c))
  }

  ghost predicate Commutative<T(!new)>(f: (T, T) -> T) {
    forall a, b :: f(a, b) == f(b, a)
  }

  /** e is the identity, and undo(x, a) takes a back out of x. */
  ghost predicate Undoes<T(!new)>(f: (T, T) -> T, undo: (T, T) -> T, e: T) {
    && (forall a :: f(e, a) == a && f(a, e) == a)
    && forall a, b :: undo(f(a, b), a) == b
  }

  lemma {:induction false} InsertSnoc<T(!new)>(f: (T, T) -> T, w: seq<T>, i: nat, n: nat)
    requires Associative(f) && i < n < |w|
    ensures InsertFrom(f, w, i, n + 1) == f(InsertFrom(f, w, i, n), w[n])
    decreases n - i
  {
    if i < n - 1 {
      InsertSnoc(f, w, i + 1, n);
    } else {
      assert InsertFrom(f, w, i + 1, n + 1) == w[n];
    }
  }

  lemma InsertFront<T>(f: (T, T) -> T, w: seq<T>, i: nat, n: nat)
    requires i + 1 < n <= |w|
    ensures InsertFrom(f, w, i, n) == f(w[i], InsertFrom(f, w, i + 1, n))
  {
  }

  lemma InsertOne<T>(f: (T, T) -> T, w: seq<T>, i: nat)
    requires i < |w|
    ensures InsertFrom(f, w, i, i + 1) == w[i]
  {
  }

  /** Accumulating from the identity. */
  ghost predicate Accumulated<T>(f: (T, T) -> T, w: seq<T>, e: T, i: nat, n: nat, x: T) {
    i <= n <= |w| && x == if i == n then e else InsertFrom(f, w, i, n)
  }

  lemma AccumulateStep<T(!new)>(f: (T, T) -> T, undo: (T, T) -> T, w: seq<T>, e: T, i: nat, n: nat, x: T)
    requires Associative(f) && Undoes(f, undo, e) && Accumulated(f, w, e, i, n, x) && n < |w|
    ensures Accumulated(f, w, e, i, n + 1, f(x, w[n]))
  {
    if i == n {
      InsertOne(f, w, i);
    } else {
      InsertSnoc(f, w, i, n);
    }
  }

  /** The window moves by one: the new item goes in, the old one comes out. */
  lemma Slide<T(!new)>(f: (T, T) -> T, undo: (T, T) -> T, w: seq<T>, e: T, i: nat, m: nat, x: T)
    requires Associative(f) && Undoes(f, undo, e) && 0 < m && i + m < |w| && x == InsertFrom(f, w, i, i + m)
    ensures undo(f(x, w[i + m]), w[i]) == InsertFrom(f, w, i + 1, i + 1 + m)
  {
    InsertSnoc(f, w, i, i + m);
    InsertFront(f, w, i, i + m + 1);
    assert undo(f(w[i], InsertFrom(f, w, i + 1, i + 1 + m)), w[i]) == InsertFrom(f, w, i + 1, i + 1 + m);
  }
}
