/** Inserts and prefix scans of +, - and * on 64-bit integers, which give up at the first result that does
    not fit. */
module OverflowTotals {
  import opened Arith
  import opened Wrappers
  import opened WindowSpec

  datatype Verb = Plus | Minus | Times

  function Add(x: int, y: int): int {
    x + y
  }

  function Subtract(x: int, y: int): int {
    x - y
  }

  function Multiply(x: int, y: int): int {
    x * y
  }

  /** The verb on integers of any size. */
  function Exact(v: Verb): (int, int) -> int {
    match v
    case Plus => Add
    case Minus => Subtract
    case Times => Multiply
  }

  function Neutral(v: Verb): int {
    if v == Times then 1 else 0
  }

  predicate Fits(x: int) {
    -0x8000_0000_0000_0000 <= x <= 0x7fff_ffff_ffff_ffff
  }

  lemma ExactIs(v: Verb, x: int, y: int)
    ensures Exact(v)(x, y) == match v { case Plus => x + y case Minus => x - y case Times => x * y }
    ensures Exact(v)(x, Neutral(v)) == x
  {
  }

  /** The operations that detect overflow. */
  function Checked(v: Verb, x: int, y: int): (r: Option<int>)
    ensures r == if Fits(Exact(v)(x, y)) then Some(Exact(v)(x, y)) else None
  {
    var r := match v { case Plus => x + y case Minus => x - y case Times => x * y };
    if Fits(r) then Some(r) else None
  }

  // ---- Insert.

  /** v/ of items i on does not fit, for some i from k on. */
  ghost predicate SuffixOverflows(v: Verb, w: seq<int>, k: nat) {
    exists i: nat :: k <= i < |w| && !Fits(InsertFrom(Exact(v), w, i, |w|))
  }

  /** v/ w: overflow is signalled exactly if the insert of some suffix does not fit, even if the insert of the
      whole list would. */
  method Insert(v: Verb, w: seq<int>) returns (r: Option<int>)
    requires w != []
    ensures r == if SuffixOverflows(v, w, 0) then None else Some(InsertFrom(Exact(v), w, 0, |w|))
  {
    hide *;
    var t, k := Neutral(v), |w|;
    SuffixStart(v, w);
    while k > 0
      invariant 0 <= k <= |w| && !SuffixOverflows(v, w, k)
      invariant t == if k == |w| then Neutral(v) else InsertFrom(Exact(v), w, k, |w|)
    {
      SuffixStep(v, w, k - 1, t);
      var y := Checked(v, w[k - 1], t);
      if y == None { return None; }
      t, k := y.value, k - 1;
    }
    r := Some(t);
  }

  lemma SuffixStart(v: Verb, w: seq<int>)
    ensures !SuffixOverflows(v, w, |w|)
  {
  }

  lemma SuffixStep(v: Verb, w: seq<int>, k: nat, t: int)
    requires k < |w| && !SuffixOverflows(v, w, k + 1)
    requires t == if k + 1 == |w| then Neutral(v) else InsertFrom(Exact(v), w, k + 1, |w|)
    ensures Exact(v)(w[k], t) == InsertFrom(Exact(v), w, k, |w|)
    ensures SuffixOverflows(v, w, k) <==> !Fits(InsertFrom(Exact(v), w, k, |w|))
    ensures SuffixOverflows(v, w, k) ==> SuffixOverflows(v, w, 0)
  {
    ExactIs(v, w[k], t);
    var x := InsertFrom(Exact(v), w, k, |w|);
    hide Fits, Exact;
  }

  /** The total of this list fits, but not the total of its last two items. */
  lemma EarlyOverflow()
    ensures var w := [-1, 0x7fff_ffff_ffff_ffff, 1];
            Fits(InsertFrom(Exact(Plus), w, 0, 3)) && SuffixOverflows(Plus, w, 0)
  {
    var w := [-1, 0x7fff_ffff_ffff_ffff, 1];
    var f := Exact(Plus);
    InsertOne(f, w, 2);
    InsertFront(f, w, 1, 3);
    InsertFront(f, w, 0, 3);
    ExactIs(Plus, w[1], w[2]);
    ExactIs(Plus, w[0], InsertFrom(f, w, 1, 3));
  }

  // ---- Prefix scan.

  /** v/ of a prefix of at most k items does not fit. */
  ghost predicate PrefixOverflows(v: Verb, w: seq<int>, k: nat) {
    exists i: nat :: 0 < i <= k && i <= |w| && !Fits(InsertFrom(Exact(v), w, 0, i))
  }

  /** Entry i, for i below k, is v/ of the first i+1 items. */
  ghost predicate Scanned(v: Verb, w: seq<int>, z: seq<int>, k: nat) {
    k <= |w| && k <= |z| && forall i: nat :: i < k ==> z[i] == InsertFrom(Exact(v), w, 0, i + 1)
  }

  /** The sign with which item k enters - / : every second item is added. */
  lemma {:induction false} AlternatingSum(w: seq<int>, i: nat, n: nat)
    requires i < n < |w|
    ensures InsertFrom(Exact(Minus), w, i, n + 1) ==
            InsertFrom(Exact(Minus), w, i, n) + if (n - i) % 2 == 0 then w[n] else -w[n]
    decreases n - i
  {
    var f := Exact(Minus);
    if i < n - 1 {
      AlternatingSum(w, i + 1, n);
      InsertFront(f, w, i, n);
      InsertFront(f, w, i, n + 1);
      ExactIs(Minus, w[i], InsertFrom(f, w, i + 1, n));
      ExactIs(Minus, w[i], InsertFrom(f, w, i + 1, n + 1));
    } else {
      InsertOne(f, w, i);
      InsertFront(f, w, i, n + 1);
      InsertOne(f, w, i + 1);
      ExactIs(Minus, w[i], w[n]);
    }
    hide InsertFrom, Exact;
  }

  lemma AddAssociative()
    ensures Associative(Add)
  {
  }

  lemma MultiplyAssociative()
    ensures Associative(Multiply)
  {
    forall a, b, c ensures Multiply(Multiply(a, b), c) == Multiply(a, Multiply(b, c)) {
      TimesAssociative(a, b, c);
    }
  }

  /** The next total: - adds and subtracts in turn. */
  function Next(v: Verb, parity: bool, x: int, t: int): (r: Option<int>)
    ensures var y := match v { case Plus => x + t case Minus => (if parity then t + x else t - x) case Times => x * t };
            r == if Fits(y) then Some(y) else None
  {
    match v
    case Plus => Checked(Plus, x, t)
    case Minus => if parity then Checked(Plus, t, x) else Checked(Minus, t, x)
    case Times => Checked(Times, x, t)
  }

  lemma NextIs(v: Verb, w: seq<int>, k: nat, parity: bool, t: int)
    requires k < |w| && parity == (k % 2 == 0)
    requires t == if k == 0 then Neutral(v) else InsertFrom(Exact(v), w, 0, k)
    ensures var y := InsertFrom(Exact(v), w, 0, k + 1); Next(v, parity, w[k], t) == if Fits(y) then Some(y) else None
  {
    if k == 0 {
      InsertOne(Exact(v), w, 0);
    } else {
      match v
      case Plus =>
        AddAssociative();
        InsertSnoc(Add, w, 0, k);
      case Minus =>
        AlternatingSum(w, 0, k);
      case Times =>
        MultiplyAssociative();
        InsertSnoc(Multiply, w, 0, k);
    }
    hide InsertFrom, Fits;
  }

  /** v\\ w: overflow is signalled exactly if an entry of the scan does not fit. */
  method PrefixScan(v: Verb, w: seq<int>, z: array<int>) returns (ok: bool)
    requires z.Length == |w|
    modifies z
    ensures ok <==> !PrefixOverflows(v, w, |w|)
    ensures ok ==> Scanned(v, w, z[..], |w|)
  {
    hide *;
    var t, parity, k := Neutral(v), false, 0;
    ScanStart(v, w, z[..]);
    while k < |w|
      invariant 0 <= k <= |w| && parity == (k % 2 == 1) && !PrefixOverflows(v, w, k) && Scanned(v, w, z[..], k)
      invariant t == if k == 0 then Neutral(v) else InsertFrom(Exact(v), w, 0, k)
    {
      parity := !parity;
      NextIs(v, w, k, parity, t);
      PrefixStep(v, w, k);
      var y := Next(v, parity, w[k], t);
      if y == None { return false; }
      t := y.value;
      ScanStep(v, w, z[..], k, t);
      ghost var z0 := z[..];
      z[k] := t;
      assert z[..] == z0[k := t];
      k := k + 1;
    }
    ok := true;
  }

  lemma ScanStart(v: Verb, w: seq<int>, z: seq<int>)
    ensures !PrefixOverflows(v, w, 0) && Scanned(v, w, z, 0)
  {
  }

  lemma PrefixStep(v: Verb, w: seq<int>, k: nat)
    requires k < |w| && !PrefixOverflows(v, w, k)
    ensures PrefixOverflows(v, w, k + 1) <==> !Fits(InsertFrom(Exact(v), w, 0, k + 1))
    ensures PrefixOverflows(v, w, k + 1) ==> PrefixOverflows(v, w, |w|)
  {
    hide Fits, InsertFrom, Exact;
  }

  lemma ScanStep(v: Verb, w: seq<int>, z: seq<int>, k: nat, t: int)
    requires Scanned(v, w, z, k) && k < |w| && k < |z| && t == InsertFrom(Exact(v), w, 0, k + 1)
    ensures Scanned(v, w, z[k := t], k + 1)
  {
    hide InsertFrom, Exact;
  }
}
