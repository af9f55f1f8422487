/** Boolean verbs inserted between items, right to left, and the closed forms of their prefix scans. */
module BooleanSpec {

  datatype Verb = Lt | Le | Gt | Ge | Nor | Nand | Ne | Eq

  function Apply(v: Verb, x: bool, y: bool): bool {
    match v
    case Lt => !x && y
    case Le => !x || y
    case Gt => x && !y
    case Ge => x || !y
    case Nor => !(x || y)
    case Nand => !(x && y)
    case Ne => x != y
    case Eq => x == y
  }

  /** The truth values as the numbers 0 and 1. */
  function Number(x: bool): int {
    if x then 1 else 0
  }

  /** The verbs compare the numbers, or negate their greatest or least. */
  lemma ApplyCompares(x: bool, y: bool)
    ensures var m, n := Number(x), Number(y);
            && (Apply(Lt, x, y) <==> m < n) && (Apply(Le, x, y) <==> m <= n)
            && (Apply(Gt, x, y) <==> m > n) && (Apply(Ge, x, y) <==> m >= n)
            && (Apply(Ne, x, y) <==> m != n) && (Apply(Eq, x, y) <==> m == n)
            && (Apply(Nor, x, y) <==> m + n == 0) && (Apply(Nand, x, y) <==> m * n == 0)
  {
  }

  /** v/ of items i to n-1, right to left. */
  function InsertFrom(v: Verb, s: seq<bool>, i: nat, n: nat): bool
    requires i < n <= |s|
    decreases n - i
  {
    if i == n - 1 then s[i] else Apply(v, s[i], InsertFrom(v, s, i + 1, n))
  }

  /** v/ of a list. */
  function Insert(v: Verb, s: seq<bool>): bool
    requires s != []
  {
    InsertFrom(v, s, 0, |s|)
  }

  /** v/ goes from right to left. */
  lemma InsertThree(v: Verb, a: bool, b: bool, c: bool)
    ensures Insert(v, [a, b, c]) == Apply(v, a, Apply(v, b, c))
  {
    var s := [a, b, c];
    assert InsertFrom(v, s, 2, 3) == s[2];
    assert InsertFrom(v, s, 1, 3) == Apply(v, s[1], s[2]);
  }

  /** Entry k of v/\ : v/ of the first k+1 items. */
  function Scan(v: Verb, s: seq<bool>, k: nat): bool
    requires k < |s|
  {
    InsertFrom(v, s, 0, k + 1)
  }

  lemma {:induction false} InsertOfPrefix(v: Verb, s: seq<bool>, i: nat, n: nat)
    requires i < n <= |s|
    ensures InsertFrom(v, s[..n], i, n) == InsertFrom(v, s, i, n)
    decreases n - i
  {
    if i < n - 1 {
      InsertOfPrefix(v, s, i + 1, n);
    }
  }

  lemma ScanIsInsert(v: Verb, s: seq<bool>, k: nat)
    requires k < |s|
    ensures Scan(v, s, k) == Insert(v, s[..k + 1])
  {
    InsertOfPrefix(v, s, 0, k + 1);
  }

  // ---- Verbs that one value of the left argument decides.

  /** The value of the left argument that decides the result of <, <:, >, >:, +: and *: */
  function Decider(v: Verb): bool {
    v in {Lt, Ge, Nor}
  }

  /** The result it decides on. */
  function Decided(v: Verb): bool {
    v in {Le, Ge, Nand}
  }

  /** Whether the other value of the left argument complements the right one. */
  predicate Complements(v: Verb) {
    v in {Gt, Ge, Nor, Nand}
  }

  lemma ApplyDecides(v: Verb, x: bool, y: bool)
    requires v != Ne && v != Eq
    ensures Apply(v, x, y) == if x == Decider(v) then Decided(v) else y != Complements(v)
  {
  }

  /** Where value a occurs first among the first n, n if it does not. */
  function FirstIn(s: seq<bool>, a: bool, n: nat): (j: nat)
    requires n <= |s|
    ensures j <= n
    ensures j < n ==> s[j] == a
    ensures forall i :: 0 <= i < j ==> s[i] != a
  {
    if n == 0 then 0
    else
      var j := FirstIn(s, a, n - 1);
      if j < n - 1 || s[n - 1] == a then j else n
  }

  lemma FirstIs(s: seq<bool>, a: bool, n: nat, j: nat)
    requires j <= n <= |s| && (j < n ==> s[j] == a) && forall i :: 0 <= i < j ==> s[i] != a
    ensures FirstIn(s, a, n) == j
  {
    hide FirstIn;
  }

  lemma FirstStep(s: seq<bool>, a: bool, n: nat)
    requires n < |s|
    ensures FirstIn(s, a, n + 1) == if FirstIn(s, a, n) < n || s[n] == a then FirstIn(s, a, n) else n + 1
  {
  }

  function Odd(j: nat): bool {
    j % 2 == 1
  }

  /** From the first decider on the items do not matter; before it each item complements or not. */
  lemma {:induction false} InsertForm(v: Verb, s: seq<bool>, i: nat, n: nat, j: nat)
    requires v != Ne && v != Eq && i < n <= |s| && i <= j <= n
    requires (j < n ==> s[j] == Decider(v)) && forall l :: i <= l < j ==> s[l] != Decider(v)
    ensures InsertFrom(v, s, i, n) ==
            if j == n then !Decider(v) != (Complements(v) && Odd(n - 1 - i))
            else if j == n - 1 then Decider(v) != (Complements(v) && Odd(j - i))
            else Decided(v) != (Complements(v) && Odd(j - i))
    decreases n - i
  {
    if i < n - 1 {
      ApplyDecides(v, s[i], InsertFrom(v, s, i + 1, n));
      if j > i {
        InsertForm(v, s, i + 1, n, j);
        hide Apply;
      }
    }
  }

  /** The closed form of a scan: what entry k is, by where the decider comes first. */
  lemma ScanForm(v: Verb, s: seq<bool>, k: nat)
    requires v != Ne && v != Eq && k < |s|
    ensures var j := FirstIn(s, Decider(v), k + 1);
            Scan(v, s, k) ==
            if j == k + 1 then !Decider(v) != (Complements(v) && Odd(k))
            else if j == k then Decider(v) != (Complements(v) && Odd(j))
            else Decided(v) != (Complements(v) && Odd(j))
  {
    InsertForm(v, s, 0, k + 1, FirstIn(s, Decider(v), k + 1));
  }

  // ---- Parity.

  /** Whether an odd number of items i to n-1 is true. */
  function Parity(s: seq<bool>, i: nat, n: nat): bool
    requires i <= n <= |s|
    decreases n - i
  {
    if i == n then false else Parity(s, i, n - 1) != s[n - 1]
  }

  lemma {:induction false} ParityFront(s: seq<bool>, i: nat, n: nat)
    requires i < n <= |s|
    ensures Parity(s, i, n) == (s[i] != Parity(s, i + 1, n))
    decreases n - i
  {
    if n > i + 1 {
      ParityFront(s, i, n - 1);
    }
  }

  lemma {:induction false} ParitySplit(s: seq<bool>, i: nat, l: nat, n: nat)
    requires i <= l <= n <= |s|
    ensures Parity(s, i, n) == (Parity(s, i, l) != Parity(s, l, n))
    decreases n - l
  {
    if l < n {
      ParitySplit(s, i, l, n - 1);
    }
  }

  /** ~:/ is parity, and =/ differs from it as often as = is applied. */
  lemma {:induction false} InsertParity(v: Verb, s: seq<bool>, i: nat, n: nat)
    requires v in {Ne, Eq} && i < n <= |s|
    ensures InsertFrom(v, s, i, n) == (Parity(s, i, n) != (v == Eq && Odd(n - 1 - i)))
    decreases n - i
  {
    if i < n - 1 {
      InsertParity(v, s, i + 1, n);
      ParityFront(s, i, n);
    } else {
      assert !Parity(s, i, i);
    }
  }

  lemma ScanParity(v: Verb, s: seq<bool>, k: nat)
    requires v in {Ne, Eq} && k < |s|
    ensures Scan(v, s, k) == (Parity(s, 0, k + 1) != (v == Eq && Odd(k)))
  {
    InsertParity(v, s, 0, k + 1);
  }
}
