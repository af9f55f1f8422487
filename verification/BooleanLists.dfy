/** Inserts and prefix scans of Boolean lists: closed forms found by a byte search, and the scans of
    ~: and = eight bytes at a time.  A word is the list of its eight byte lanes, each 0 or 1. */
module BooleanLists {
  import opened Wrappers
  import opened BooleanSpec
  import Arith

  /** memchr: the first place of a value. */
  method Memchr(x: seq<bool>, q: nat, a: bool, n: nat) returns (j: Option<nat>)
    requires q + n <= |x|
    ensures var f := FirstIn(x[q..q + n], a, n); j == if f < n then Some(f) else None
  {
    hide FirstIn;
    ghost var cell := x[q..q + n];
    var i := 0;
    while i < n
      invariant 0 <= i <= n && forall l :: 0 <= l < i ==> cell[l] != a
    {
      assert cell[i] == x[q + i];
      if x[q + i] == a {
        FirstIs(cell, a, n, i);
        return Some(i);
      }
      i := i + 1;
    }
    FirstIs(cell, a, n, n);
    return None;
  }

  // ---- Inserts.

  /** v/ of a list that starts at q, by the place of its first decider. */
  method InsertList(v: Verb, x: seq<bool>, q: nat, n: nat) returns (z: bool)
    requires v != Ne && v != Eq && 0 < n && q + n <= |x|
    ensures z == Insert(v, x[q..q + n])
  {
    hide FirstIn, InsertFrom;
    ghost var s := x[q..q + n];
    assert x[q..q + n][n - 1] == x[q + n - 1];
    match v
    case Lt =>
      var y := Memchr(x, q, true, n - 1);
      z := x[q + n - 1] && y.None?;
      LastForm(v, s, x[q..q + (n - 1)]);
    case Le =>
      var y := Memchr(x, q, false, n - 1);
      z := if !x[q + n - 1] && y.None? then false else true;
      LastForm(v, s, x[q..q + (n - 1)]);
    case Gt =>
      var y := Memchr(x, q, false, n);
      z := if y.Some? then Odd(y.value) else Odd(n);
      InsertByFirst(v, s);
    case Ge =>
      var y := Memchr(x, q, true, n);
      z := !(if y.Some? then Odd(y.value) else Odd(n));
      InsertByFirst(v, s);
    case Nor =>
      var y := Memchr(x, q, true, n);
      var d := if y.Some? then y.value else n;
      z := Odd(d) == (d < n - 1);
      InsertByFirst(v, s);
    case Nand =>
      var y := Memchr(x, q, false, n);
      var d := if y.Some? then y.value else n;
      z := Odd(d) != (d < n - 1);
      InsertByFirst(v, s);
  }

  lemma InsertByFirst(v: Verb, s: seq<bool>)
    requires v != Ne && v != Eq && s != []
    ensures var n, j := |s|, FirstIn(s, Decider(v), |s|);
            Insert(v, s) ==
            if j == n then !Decider(v) != (Complements(v) && Odd(n - 1))
            else if j == n - 1 then Decider(v) != (Complements(v) && Odd(j))
            else Decided(v) != (Complements(v) && Odd(j))
  {
    InsertForm(v, s, 0, |s|, FirstIn(s, Decider(v), |s|));
  }

  /** For < and <: only the last item can differ from what the others decide. */
  lemma LastForm(v: Verb, s: seq<bool>, init: seq<bool>)
    requires v in {Lt, Le} && s != [] && init == s[..|s| - 1]
    ensures var f := FirstIn(init, Decider(v), |s| - 1);
            Insert(v, s) == if f < |s| - 1 then Decided(v) else s[|s| - 1]
  {
    hide FirstIn;
    var n := |s|;
    var f := FirstIn(init, Decider(v), n - 1);
    if f < n - 1 {
      FirstIs(s, Decider(v), n, f);
    } else if s[n - 1] == Decider(v) {
      FirstIs(s, Decider(v), n, n - 1);
    } else {
      FirstIs(s, Decider(v), n, n);
    }
    InsertByFirst(v, s);
  }

  // ---- Words.

  ghost predicate Word(t: seq<bool>) {
    |t| == 8
  }

  function Load(x: seq<bool>, q: nat): (t: seq<bool>)
    requires q + 8 <= |x|
    ensures Word(t) && forall l :: 0 <= l < 8 ==> t[l] == x[q + l]
  {
    x[q..q + 8]
  }

  function Xor(a: seq<bool>, b: seq<bool>): (t: seq<bool>)
    requires Word(a) && Word(b)
    ensures Word(t) && forall l :: 0 <= l < 8 ==> t[l] == (a[l] != b[l])
  {
    seq(8, l requires 0 <= l < 8 && Word(a) && Word(b) => a[l] != b[l])
  }

  /** Shift by whole bytes, towards the higher lanes. */
  function Up(a: seq<bool>, k: nat): (t: seq<bool>)
    requires Word(a)
    ensures Word(t) && forall l :: 0 <= l < 8 ==> t[l] == (l >= k && a[l - k])
  {
    seq(8, l requires 0 <= l < 8 && Word(a) => l >= k && a[l - k])
  }

  /** The highest lane alone, moved to the lowest. */
  function TopToBottom(a: seq<bool>): (t: seq<bool>)
    requires Word(a)
    ensures Word(t) && t[0] == a[7] && forall l :: 1 <= l < 8 ==> !t[l]
  {
    [a[7], false, false, false, false, false, false, false]
  }

  function Alternating(): (t: seq<bool>)
    ensures Word(t) && forall l :: 0 <= l < 8 ==> t[l] == !Odd(l)
  {
    [true, false, true, false, true, false, true, false]
  }

  /** The cascade of shifts by 1, 2 and 4 bytes. */
  function Cascade(t: seq<bool>): (r: seq<bool>)
    requires Word(t)
    ensures Word(r)
  {
    var t1 := Xor(t, Up(t, 1));
    var t2 := Xor(t1, Up(t1, 2));
    Xor(t2, Up(t2, 4))
  }

  function Minus(l: nat, k: nat): nat {
    if l < k then 0 else l - k
  }

  /** One shift joins two runs of lanes into one of twice the length. */
  lemma CascadeStep(t: seq<bool>, r: seq<bool>, k: nat, l: nat)
    requires Word(t) && Word(r) && 0 < k && l < 8
    requires forall i: nat :: i < 8 ==> r[i] == Parity(t, Minus(i, k - 1), i + 1)
    ensures Xor(r, Up(r, k))[l] == Parity(t, Minus(l, 2 * k - 1), l + 1)
  {
    hide Parity;
    if l >= k {
      ParitySplit(t, Minus(l, 2 * k - 1), Minus(l, k - 1), l + 1);
    }
  }

  /** The cascade leaves in each lane the parity of the lanes up to it. */
  lemma CascadeIsParity(t: seq<bool>, l: nat)
    requires Word(t) && l < 8
    ensures Cascade(t)[l] == Parity(t, 0, l + 1)
  {
    forall i: nat | i < 8 ensures t[i] == Parity(t, Minus(i, 0), i + 1) {
      assert !Parity(t, i, i);
    }
    hide Parity;
    var t1 := Xor(t, Up(t, 1));
    forall i: nat | i < 8 ensures t1[i] == Parity(t, Minus(i, 1), i + 1) {
      CascadeStep(t, t, 1, i);
    }
    var t2 := Xor(t1, Up(t1, 2));
    forall i: nat | i < 8 ensures t2[i] == Parity(t, Minus(i, 3), i + 1) {
      CascadeStep(t, t1, 2, i);
    }
    CascadeStep(t, t2, 4, l);
  }

  // ---- The scan of ~: and = by words.

  /** The next word of the scan: the last lane of the one before is carried in. */
  function NextWord(v: Verb, x: seq<bool>, t: seq<bool>): (r: seq<bool>)
    requires Word(x) && Word(t)
    ensures Word(r)
  {
    var c := Cascade(Xor(x, TopToBottom(t)));
    if v == Eq then Xor(c, Alternating()) else c
  }

  /** The carried lane is the scan so far. */
  ghost predicate Carried(v: Verb, s: seq<bool>, i: nat, t: seq<bool>) {
    v in {Ne, Eq} && i % 8 == 0 && i <= |s| && Word(t) && t[7] == (Parity(s, 0, i) != (v == Eq))
  }

  /** Lane l of the next word is entry i+l of the scan. */
  lemma NextWordAt(v: Verb, s: seq<bool>, i: nat, x: seq<bool>, t: seq<bool>, l: nat)
    requires Carried(v, s, i, t) && Word(x) && l < 8 && i + l < |s|
    requires forall m: nat :: m <= l ==> x[m] == s[i + m]
    ensures NextWord(v, x, t)[l] == Scan(v, s, i + l)
  {
    hide *;
    CarriedIs(v, s, i, t);
    WordIs(x);
    var y := Xor(x, TopToBottom(t));
    NextWordIs(v, x, t, l);
    CascadeIsParity(y, l);
    CarriedIn(s, i, x, t, l);
    CarriedParity(s, i, y, t[7], l);
    ScanParity(v, s, i + l);
    ParitySplit(s, 0, i, i + l + 1);
    OddOn(i, l);
  }

  lemma CarriedIs(v: Verb, s: seq<bool>, i: nat, t: seq<bool>)
    ensures Carried(v, s, i, t) <==>
            v in {Ne, Eq} && i % 8 == 0 && i <= |s| && |t| == 8 && t[7] == (Parity(s, 0, i) != (v == Eq))
    ensures |t| == 8 <==> Word(t)
  {
  }

  lemma WordIs(t: seq<bool>)
    ensures Word(t) <==> |t| == 8
  {
  }

  lemma NextWordIs(v: Verb, x: seq<bool>, t: seq<bool>, l: nat)
    requires Word(x) && Word(t) && l < 8
    ensures |NextWord(v, x, t)| == 8
    ensures var c := Cascade(Xor(x, TopToBottom(t)));
            |c| == 8 && NextWord(v, x, t)[l] == (c[l] != (v == Eq && !Odd(l)))
  {
    hide Cascade;
  }

  lemma CarriedIn(s: seq<bool>, i: nat, x: seq<bool>, t: seq<bool>, l: nat)
    requires Word(x) && Word(t) && l < 8 && i + l < |s| && forall m: nat :: m <= l ==> x[m] == s[i + m]
    ensures var y := Xor(x, TopToBottom(t));
            |y| == 8 && |t| == 8 && y[0] == (s[i] != t[7]) && forall m: nat :: 1 <= m <= l ==> y[m] == s[i + m]
  {
    assert x[0] == s[i + 0];
  }

  lemma OddSeven()
    ensures Odd(7)
  {
  }

  lemma OddOn(i: nat, l: nat)
    requires i % 8 == 0
    ensures Odd(i + l) == Odd(l)
  {
  }

  lemma {:induction false} CarriedParity(s: seq<bool>, i: nat, y: seq<bool>, carry: bool, l: nat)
    requires Word(y) && l < 8 && i + l < |s|
    requires y[0] == (s[i] != carry) && forall m: nat :: 1 <= m <= l ==> y[m] == s[i + m]
    ensures Parity(y, 0, l + 1) == (carry != Parity(s, i, i + l + 1))
  {
    if l == 0 {
      assert !Parity(y, 0, 0) && !Parity(s, i, i);
    } else {
      CarriedParity(s, i, y, carry, l - 1);
    }
  }

  lemma CarriedOn(v: Verb, s: seq<bool>, i: nat, x: seq<bool>, t: seq<bool>)
    requires Carried(v, s, i, t) && Word(x) && i + 8 <= |s|
    requires forall m: nat :: m < 8 ==> x[m] == s[i + m]
    ensures Carried(v, s, i + 8, NextWord(v, x, t))
  {
    hide *;
    CarriedIs(v, s, i, t);
    WordIs(x);
    NextWordAt(v, s, i, x, t, 7);
    NextWordIs(v, x, t, 7);
    ScanParity(v, s, i + 7);
    OddOn(i, 7);
    OddSeven();
    CarriedIs(v, s, i + 8, NextWord(v, x, t));
  }

  /** Entries below i of the scan are at q. */
  ghost predicate Scanned(v: Verb, s: seq<bool>, z: seq<bool>, q: nat, i: nat) {
    i <= |s| && q + i <= |z| && forall k: nat :: k < i ==> z[q + k] == Scan(v, s, k)
  }

  ghost predicate SameBelow(z: seq<bool>, z': seq<bool>, q: nat) {
    q <= |z| == |z'| && z[..q] == z'[..q]
  }

  /** Store lanes 0 to w-1 of a word. */
  method StoreLanes(z: array<bool>, q: nat, t: seq<bool>, w: nat)
    requires Word(t) && w <= 8 && q + w <= z.Length
    modifies z
    ensures forall p :: 0 <= p < z.Length ==> z[p] == if q <= p < q + w then t[p - q] else old(z[p])
  {
    for l := 0 to w
      invariant forall p :: 0 <= p < z.Length ==> z[p] == if q <= p < q + l then t[p - q] else old(z[p])
    {
      z[q + l] := t[l];
    }
  }

  lemma StoredScan(v: Verb, s: seq<bool>, z: seq<bool>, z': seq<bool>, q: nat, i: nat, t: seq<bool>, w: nat)
    requires Scanned(v, s, z, q, i) && Word(t) && w <= 8 && i + w <= |s| && q + i + w <= |z| == |z'|
    requires forall p :: 0 <= p < q + i + w ==> z'[p] == if q + i <= p then t[p - q - i] else z[p]
    requires forall l: nat :: l < w ==> t[l] == Scan(v, s, i + l)
    ensures Scanned(v, s, z', q, i + w) && SameBelow(z, z', q)
  {
    hide Scan;
    forall k: nat | k < i + w ensures z'[q + k] == Scan(v, s, k) {
      if k >= i {
        assert t[k - i] == Scan(v, s, i + (k - i));
      }
    }
  }

  /** One word of the scan: load, scan, store. */
  method ScanWord(v: Verb, x: seq<bool>, z: array<bool>, q: nat, n: nat, i: nat, t: seq<bool>, w: nat) returns (t': seq<bool>)
    requires q + n <= |x| && q + i + 8 <= |x| && 0 < w <= 8 && i + w <= n && q + i + w <= z.Length
    requires Carried(v, x[q..q + n], i, t) && Scanned(v, x[q..q + n], z[..], q, i)
    modifies z
    ensures Scanned(v, x[q..q + n], z[..], q, i + w) && SameBelow(old(z[..]), z[..], q)
    ensures w == 8 ==> Carried(v, x[q..q + n], i + 8, t')
    ensures Word(t')
  {
    hide Carried, Scanned, Scan, NextWord, SameBelow;
    ghost var s, z0 := x[q..q + n], z[..];
    CarriedWord(v, s, i, t);
    ScannedBounds(v, s, z0, q, i);
    var xi := Load(x, q + i);
    t' := NextWord(v, xi, t);
    forall l: nat | l < w ensures t'[l] == Scan(v, s, i + l) {
      NextWordAt(v, s, i, xi, t, l);
    }
    if w == 8 {
      CarriedOn(v, s, i, xi, t);
    }
    StoreLanes(z, q + i, t', w);
    StoredScan(v, s, z0, z[..], q, i, t', w);
  }

  lemma CarriedWord(v: Verb, s: seq<bool>, i: nat, t: seq<bool>)
    requires Carried(v, s, i, t)
    ensures Word(t) && v in {Ne, Eq} && i % 8 == 0
  {
  }

  lemma ScannedBounds(v: Verb, s: seq<bool>, z: seq<bool>, q: nat, i: nat)
    requires Scanned(v, s, z, q, i)
    ensures i <= |s| && q + i <= |z|
  {
  }

  lemma ScanStarts(v: Verb, s: seq<bool>, z: seq<bool>, q: nat)
    requires v in {Ne, Eq} && q <= |z|
    ensures Scanned(v, s, z, q, 0)
    ensures v == Ne ==> Carried(v, s, 0, [false, false, false, false, false, false, false, false])
    ensures v == Eq ==> Carried(v, s, 0, [true, true, true, true, true, true, true, true])
  {
    assert !Parity(s, 0, 0);
  }

  lemma SameBelowOn(z: seq<bool>, z': seq<bool>, z'': seq<bool>, q: nat)
    requires SameBelow(z, z', q) && SameBelow(z', z'', q)
    ensures SameBelow(z, z'', q)
  {
  }

  /** v\ of one list by words.  For ~: the last word is stored in full before its lanes are stored
      again, so that up to seven places after the list are overwritten. */
  method ScanNeEq(v: Verb, x: seq<bool>, z: array<bool>, q: nat, n: nat)
    requires v in {Ne, Eq} && 0 < n && q + n + 7 <= |x| && q + n + 7 <= z.Length
    modifies z
    ensures Scanned(v, x[q..q + n], z[..], q, n) && SameBelow(old(z[..]), z[..], q)
  {
    hide *;
    ghost var s, z0 := x[q..q + n], z[..];
    ScanStarts(v, s, z0, q);
    SameBelowSelf(z0, q);
    var t := if v == Ne then [false, false, false, false, false, false, false, false]
             else [true, true, true, true, true, true, true, true];
    var i, words := 0, (n - 1) / 8;
    while words > 0
      invariant 0 <= words && i == 8 * ((n - 1) / 8 - words)
      invariant Carried(v, s, i, t) && Scanned(v, s, z[..], q, i) && SameBelow(z0, z[..], q)
    {
      ghost var z1 := z[..];
      t := ScanWord(v, x, z, q, n, i, t, 8);
      SameBelowOn(z0, z1, z[..], q);
      i, words := i + 8, words - 1;
    }
    if v == Ne {
      ghost var z1 := z[..];
      Overstore(v, x, z, q, n, i, t);
      SameBelowOn(z0, z1, z[..], q);
    }
    ghost var z1 := z[..];
    t := ScanWord(v, x, z, q, n, i, t, n - i);
    SameBelowOn(z0, z1, z[..], q);
  }

  lemma SameBelowSelf(z: seq<bool>, q: nat)
    requires q <= |z|
    ensures SameBelow(z, z, q)
  {
  }

  /** The full store of the last word. */
  method Overstore(v: Verb, x: seq<bool>, z: array<bool>, q: nat, n: nat, i: nat, t: seq<bool>)
    requires q + n <= |x| && q + i + 8 <= |x| && q + i + 8 <= z.Length && i <= n
    requires Carried(v, x[q..q + n], i, t) && Scanned(v, x[q..q + n], z[..], q, i)
    modifies z
    ensures Scanned(v, x[q..q + n], z[..], q, i) && SameBelow(old(z[..]), z[..], q + i)
    ensures SameBelow(old(z[..]), z[..], q)
  {
    hide NextWord, Scan;
    StoreLanes(z, q + i, NextWord(v, Load(x, q + i), t), 8);
    assert forall p :: 0 <= p < q + i ==> z[..][p] == old(z[..])[p];
  }

  /** All the lists of a table, one after the other. */
  method ScanNeEqRows(v: Verb, x: seq<bool>, z: array<bool>, m: nat, n: nat)
    requires v in {Ne, Eq} && 0 < n && m * n + 7 <= |x| && m * n + 7 <= z.Length
    modifies z
    ensures RowsScanned(v, x, z[..], m, n)
  {
    hide *;
    RowsNone(v, x, z[..], n);
    var j, q := 0, 0;
    while j < m
      invariant 0 <= j <= m && q == j * n && RowsScanned(v, x, z[..], j, n)
    {
      RowFits(j, m, n);
      ghost var z0 := z[..];
      ScanNeEq(v, x, z, q, n);
      RowsNext(v, x, z0, z[..], j, n);
      j, q := j + 1, q + n;
    }
  }

  lemma RowFits(j: nat, m: nat, n: nat)
    requires j < m
    ensures j * n + n <= m * n && (j + 1) * n == j * n + n
  {
    Arith.RoomForOne(j, m, n);
    Arith.OneMoreTimes(j, n);
  }

  ghost predicate RowsScanned(v: Verb, x: seq<bool>, z: seq<bool>, m: nat, n: nat) {
    forall j: nat :: j < m ==>
      j * n + n <= |x| && Scanned(v, x[j * n..j * n + n], z, j * n, n)
  }

  lemma RowsNone(v: Verb, x: seq<bool>, z: seq<bool>, n: nat)
    ensures RowsScanned(v, x, z, 0, n)
  {
  }

  lemma RowsNext(v: Verb, x: seq<bool>, z: seq<bool>, z': seq<bool>, m: nat, n: nat)
    requires RowsScanned(v, x, z, m, n) && SameBelow(z, z', m * n) && m * n + n <= |x|
    requires Scanned(v, x[m * n..m * n + n], z', m * n, n)
    ensures RowsScanned(v, x, z', m + 1, n)
  {
    hide Scanned;
    forall j: nat | j < m + 1
      ensures j * n + n <= |x| && Scanned(v, x[j * n..j * n + n], z', j * n, n)
    {
      if j < m {
        RowFits(j, m, n);
        assert j * n + n <= |x| && Scanned(v, x[j * n..j * n + n], z, j * n, n);
        RowKept(v, x[j * n..j * n + n], z, z', j * n, n, m * n);
      }
    }
  }

  lemma RowKept(v: Verb, s: seq<bool>, z: seq<bool>, z': seq<bool>, q: nat, n: nat, r: nat)
    requires Scanned(v, s, z, q, n) && SameBelow(z, z', r) && q + n <= r
    ensures Scanned(v, s, z', q, n)
  {
    hide Scan;
    assert forall p :: 0 <= p < r ==> z'[p] == z'[..r][p] == z[..r][p];
  }

  // ---- ~:/ and =/ by words.

  lemma {:induction false} ParityXor(a: seq<bool>, b: seq<bool>, n: nat)
    requires Word(a) && Word(b) && n <= 8
    ensures Parity(Xor(a, b), 0, n) == (Parity(a, 0, n) != Parity(b, 0, n))
  {
    if n > 0 {
      ParityXor(a, b, n - 1);
    }
  }

  lemma {:induction false} ParityMoved(s: seq<bool>, i: nat, t: seq<bool>, k: nat, n: nat)
    requires k + n <= |t| && i + n <= |s| && t[k..k + n] == s[i..i + n]
    ensures Parity(t, k, k + n) == Parity(s, i, i + n)
  {
    if n > 0 {
      assert t[k..k + n][..n - 1] == t[k..k + (n - 1)] && s[i..i + n][..n - 1] == s[i..i + (n - 1)];
      assert t[k..k + n][n - 1] == t[k + (n - 1)] && s[i..i + n][n - 1] == s[i + (n - 1)];
      ParityMoved(s, i, t, k, n - 1);
    } else {
      assert !Parity(t, k, k) && !Parity(s, i, i);
    }
  }

  lemma {:induction false} ParityNone(t: seq<bool>, n: nat)
    requires n <= |t| && forall l: nat :: l < n ==> !t[l]
    ensures !Parity(t, 0, n)
  {
    if n > 0 {
      ParityNone(t, n - 1);
    }
  }

  /** Shifting a word up drops its highest lanes from the parity. */
  lemma UpParity(x: seq<bool>, discard: nat, s: seq<bool>, i: nat)
    requires Word(x) && discard < 8 && i + (8 - discard) <= |s|
    requires forall l: nat :: l < 8 - discard ==> x[l] == s[i + l]
    ensures Parity(Up(x, discard), 0, 8) == Parity(s, i, i + (8 - discard))
  {
    var u := Up(x, discard);
    hide Parity;
    ParitySplit(u, 0, discard, 8);
    ParityNone(u, discard);
    var a, b := u[discard..8], s[i..i + (8 - discard)];
    forall l: nat | l < 8 - discard ensures a[l] == b[l] {
      assert a[l] == u[discard + l] == x[l] == s[i + l];
    }
    assert a == b;
    ParityMoved(s, i, u, discard, 8 - discard);
  }

  /** The parity of the first i items has been gathered in the lanes of t. */
  ghost predicate Gathered(s: seq<bool>, i: nat, start: bool, t: seq<bool>) {
    i <= |s| && Word(t) && Parity(t, 0, 8) == (start != Parity(s, 0, i))
  }

  lemma GatherWord(s: seq<bool>, i: nat, start: bool, t: seq<bool>, x: seq<bool>, discard: nat)
    requires Gathered(s, i, start, t) && Word(x) && discard < 8 && i + (8 - discard) <= |s|
    requires forall l: nat :: l < 8 - discard ==> x[l] == s[i + l]
    ensures Word(t) && Gathered(s, i + (8 - discard), start, Xor(t, Up(x, discard)))
  {
    hide Parity;
    ParityXor(t, Up(x, discard), 8);
    UpParity(x, discard, s, i);
    ParitySplit(s, 0, i, i + (8 - discard));
  }

  lemma GatherStarts(s: seq<bool>, start: bool)
    ensures Gathered(s, 0, start, [start, false, false, false, false, false, false, false])
  {
    var t := [start, false, false, false, false, false, false, false];
    assert !Parity(s, 0, 0);
    ParitySplit(t, 0, 1, 8);
    assert !Parity(t, 0, 0);
    assert Parity(t, 0, 1) == start;
    ParityMoved([false, false, false, false, false, false, false], 0, t, 1, 7);
    ParityNone([false, false, false, false, false, false, false], 7);
  }

  lemma UpNone(x: seq<bool>)
    requires Word(x)
    ensures Up(x, 0) == x
  {
  }

  lemma GatheredIs(v: Verb, s: seq<bool>, t: seq<bool>)
    requires v in {Ne, Eq} && s != [] && Gathered(s, |s|, v == Eq && !Odd(|s|), t)
    ensures Word(t) && Parity(t, 0, 8) == Insert(v, s)
  {
    InsertParity(v, s, 0, |s|);
  }

  lemma GatheredBounds(s: seq<bool>, i: nat, start: bool, t: seq<bool>)
    requires Gathered(s, i, start, t)
    ensures i <= |s| && |t| == 8 && Word(t)
  {
  }

  /** v/ of one list: the parity of all bytes, complemented when the source says so. */
  method InsertParityList(v: Verb, x: seq<bool>, q: nat, n: nat) returns (z: bool)
    requires v in {Ne, Eq} && 0 < n && q + n + 7 <= |x|
    ensures z == Insert(v, x[q..q + n])
  {
    hide *;
    ghost var cell := x[q..q + n];
    var pc := v == Ne || Odd(n);
    var s := [!pc, false, false, false, false, false, false, false];
    GatherStarts(cell, !pc);
    var nfull, ndisc := (n - 1) / 8, (8 - n % 8) % 8;
    var i := 0;
    while nfull > 0
      invariant 0 <= nfull && i == 8 * ((n - 1) / 8 - nfull) && Gathered(cell, i, !pc, s)
    {
      GatheredBounds(cell, i, !pc, s);
      var y := Load(x, q + i);
      WordIs(y);
      UpNone(y);
      GatherWord(cell, i, !pc, s, y, 0);
      s := Xor(s, y);
      i, nfull := i + 8, nfull - 1;
    }
    GatheredBounds(cell, i, !pc, s);
    var y := Load(x, q + i);
    WordIs(y);
    GatherWord(cell, i, !pc, s, y, ndisc);
    s := Xor(s, Up(y, ndisc));
    GatheredIs(v, cell, s);
    z := Parity(s, 0, 8);
  }

  // ---- The scans that a decider closes.

  /** Places q to q+n hold a. */
  ghost predicate Filled(z: seq<bool>, q: nat, n: nat, a: bool) {
    q + n <= |z| && forall p :: q <= p < q + n ==> z[p] == a
  }

  lemma LtForm(v: Verb, s: seq<bool>, k: nat)
    requires v in {Lt, Le} && k < |s|
    ensures Scan(v, s, k) == if FirstIn(s, Decider(v), |s|) == k then Decider(v) else !Decider(v)
  {
    hide FirstIn;
    ScanForm(v, s, k);
    FirstPrefix(s, Decider(v), k + 1);
  }

  /** Searching a prefix finds the same place, or nothing. */
  lemma FirstPrefix(s: seq<bool>, a: bool, n: nat)
    requires n <= |s|
    ensures FirstIn(s, a, n) == if FirstIn(s, a, |s|) < n then FirstIn(s, a, |s|) else n
  {
    hide FirstIn;
    FirstIs(s, a, n, if FirstIn(s, a, |s|) < n then FirstIn(s, a, |s|) else n);
  }

  /** < and <: of one list, into places filled with the value that does not decide. */
  method ScanLt(v: Verb, x: seq<bool>, z: array<bool>, q: nat, n: nat)
    requires v in {Lt, Le} && q + n <= |x| && Filled(z[..], q, n, !Decider(v))
    modifies z
    ensures Scanned(v, x[q..q + n], z[..], q, n)
    ensures forall p :: 0 <= p < z.Length && !(q <= p < q + n) ==> z[p] == old(z[p])
  {
    hide FirstIn, Scan;
    ghost var s := x[q..q + n];
    var y := Memchr(x, q, Decider(v), n);
    if y.Some? {
      z[q + y.value] := Decider(v);
    }
    forall k: nat | k < n ensures z[q + k] == Scan(v, s, k) {
      LtForm(v, s, k);
    }
  }

  /** The parameters of the other four scans, packed as the source packs them. */
  function Apas(v: Verb): nat
    requires v in {Gt, Ge, Nor, Nand}
  {
    match v
    case Gt => 0x2
    case Ge => 0xd
    case Nor => 0x5
    case Nand => 0xa
  }

  function BitAt(w: nat, k: nat): bool
    requires k < 4
  {
    (if k == 0 then w else if k == 1 then w / 2 else if k == 2 then w / 4 else w / 8) % 2 == 1
  }

  /** What they mean: the decider, the first of the alternating values before it, the value at an
      even place of the decider, and the value after one. */
  lemma ApasIs(v: Verb)
    requires v in {Gt, Ge, Nor, Nand}
    ensures BitAt(Apas(v), 0) == Decider(v) && BitAt(Apas(v), 1) == !Decider(v)
    ensures BitAt(Apas(v), 2) == Decider(v) && BitAt(Apas(v), 3) == Decided(v)
  {
  }

  lemma GtForm(v: Verb, s: seq<bool>, k: nat)
    requires v in {Gt, Ge, Nor, Nand} && k < |s|
    ensures var j := FirstIn(s, Decider(v), |s|);
            Scan(v, s, k) == if k < j then !Decider(v) != Odd(k)
                             else if k == j then Decider(v) != Odd(j) else Decided(v) != Odd(j)
  {
    hide FirstIn;
    ScanForm(v, s, k);
    FirstPrefix(s, Decider(v), k + 1);
  }

  /** Values that alternate. */
  method Alternate(z: array<bool>, q: nat, n: nat, pp: bool)
    requires q + n <= z.Length
    modifies z
    ensures forall p :: 0 <= p < z.Length ==> z[p] == if q <= p < q + n then pp != Odd(p - q) else old(z[p])
  {
    for k := 0 to n
      invariant forall p :: 0 <= p < z.Length ==> z[p] == if q <= p < q + k then pp != Odd(p - q) else old(z[p])
    {
      z[q + k] := pp != Odd(k);
    }
  }

  /** One value again and again. */
  method Repeat(z: array<bool>, q: nat, n: nat, v: bool)
    requires q + n <= z.Length
    modifies z
    ensures forall p :: 0 <= p < z.Length ==> z[p] == if q <= p < q + n then v else old(z[p])
  {
    for k := 0 to n
      invariant forall p :: 0 <= p < z.Length ==> z[p] == if q <= p < q + k then v else old(z[p])
    {
      z[q + k] := v;
    }
  }

  /** >, >:, +: and *: of one list. */
  method ScanGt(v: Verb, x: seq<bool>, z: array<bool>, q: nat, n: nat)
    requires v in {Gt, Ge, Nor, Nand} && q + n <= |x| && q + n <= z.Length
    modifies z
    ensures Scanned(v, x[q..q + n], z[..], q, n)
    ensures forall p :: 0 <= p < z.Length && !(q <= p < q + n) ==> z[p] == old(z[p])
  {
    hide FirstIn, Scan, Decider, Decided, Apas, BitAt;
    ghost var s := x[q..q + n];
    ApasIs(v);
    var apas := Apas(v);
    var a, pp, pa, ps := BitAt(apas, 0), BitAt(apas, 1), BitAt(apas, 2), BitAt(apas, 3);
    var y := Memchr(x, q, a, n);
    var j := if y.Some? then y.value else n;
    Alternate(z, q, j, pp);
    if y.Some? {
      var b := Odd(j);
      Repeat(z, q + j, n - j, b != ps);
      z[q + j] := b != pa;
    }
    forall k: nat | k < n ensures z[q + k] == Scan(v, s, k) {
      GtForm(v, s, k);
    }
  }
}
