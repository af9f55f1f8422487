/** Moving windows of verbs that can be undone: sum, ~: and =, and their bitwise forms.  For integer
    sums, the guard that keeps every total in 64 bits. */
module WindowSums {
  import opened Arith
  import opened WindowSpec
  import opened WindowColumns

  // ---- 64-bit sums.

  const IMAX: int := 0x7fff_ffff_ffff_ffff
  const IMIN: int := -0x8000_0000_0000_0000

  ghost predicate Fits(x: int) {
    IMIN <= x <= IMAX
  }

  /** Addition and subtraction that must not overflow. */
  function Add64(x: int, y: int): (r: int)
    requires Fits(x + y)
    ensures r == x + y
  {
    x + y
  }

  function Subtract64(x: int, y: int): (r: int)
    requires Fits(x - y)
    ensures r == x - y
  {
    x - y
  }

  function Larger(x: int, y: int): int {
    if x < y then y else x
  }

  /** The least and greatest of a list and 0. */
  function Least(w: seq<int>, n: nat): (r: int)
    requires n <= |w|
    ensures r <= 0 && forall i :: 0 <= i < n ==> r <= w[i]
  {
    if n == 0 then 0 else if w[n - 1] < Least(w, n - 1) then w[n - 1] else Least(w, n - 1)
  }

  function Greatest(w: seq<int>, n: nat): (r: int)
    requires n <= |w|
    ensures r >= 0 && forall i :: 0 <= i < n ==> w[i] <= r
  {
    if n == 0 then 0 else if w[n - 1] > Greatest(w, n - 1) then w[n - 1] else Greatest(w, n - 1)
  }

  /** The guard, for the quotient that maxval is made from: the range of the values and 0, and the
      distance of the least from 0, are both below maxval. */
  predicate Guard(w: seq<int>, quotient: int) {
    var maxval := quotient - 1;
    var min, range := Least(w, |w|), Greatest(w, |w|) - Least(w, |w|) + 1;
    Larger(range, 0 - min) < maxval
  }

  /** The exact quotient. */
  function Exact(m: nat): int {
    IMAX / Larger(2, m)
  }

  lemma GuardBounds(w: seq<int>, quotient: int, i: nat)
    requires Guard(w, quotient) && i < |w|
    ensures 0 - (quotient - 3) <= w[i] <= quotient - 3 && quotient >= 3
  {
  }

  lemma {:induction false} SumBound(w: seq<int>, q: int, i: nat, n: nat)
    requires i <= n <= |w| && q >= 0 && forall j: nat :: j < |w| ==> 0 - q <= w[j] <= q
    ensures 0 - (n - i) * q <= Sum(w, i, n) <= (n - i) * q
    decreases n - i
  {
    if i < n {
      SumBound(w, q, i, n - 1);
      OneMoreTimes(n - 1 - i, q);
    }
  }

  /** The sum of items i to n-1. */
  function Sum(w: seq<int>, i: nat, n: nat): int
    requires i <= n <= |w|
    decreases n - i
  {
    if i == n then 0 else Sum(w, i, n - 1) + w[n - 1]
  }

  function Plus(x: int, y: int): int {
    x + y
  }

  lemma {:induction false} SumIsInsert(w: seq<int>, i: nat, n: nat)
    requires i < n <= |w|
    ensures Sum(w, i, n) == InsertFrom(Plus, w, i, n)
    decreases n - i
  {
    if i < n - 1 {
      SumIsInsert(w, i, n - 1);
      InsertSnoc(Plus, w, i, n - 1);
    } else {
      assert Sum(w, i, i) == 0;
    }
  }

  lemma {:induction false} SumFront(w: seq<int>, i: nat, n: nat)
    requires i < n <= |w|
    ensures Sum(w, i, n) == w[i] + Sum(w, i + 1, n)
    decreases n - i
  {
    if i < n - 1 {
      SumFront(w, i, n - 1);
    } else {
      assert Sum(w, i, i) == 0 && Sum(w, i + 1, n) == 0;
    }
  }

  /** Every total of at most m items stays in range if m of the largest do. */
  lemma TotalsFit(w: seq<int>, quotient: int, m: nat, i: nat, n: nat)
    requires Guard(w, quotient) && i <= n <= |w| && n - i <= m && m * (quotient - 3) <= IMAX
    ensures Fits(Sum(w, i, n))
  {
    if w == [] {
      assert Sum(w, i, n) == 0;
    } else {
      GuardBounds(w, quotient, 0);
      forall j: nat | j < |w| ensures 0 - (quotient - 3) <= w[j] <= quotient - 3 {
        GuardBounds(w, quotient, j);
      }
      SumBound(w, quotient - 3, i, n);
      TimesMonotone(n - i, m, quotient - 3);
    }
  }

  lemma ExactFits(m: nat)
    ensures m * (Exact(m) - 3) <= IMAX && 2 * (Exact(m) - 3) <= IMAX
  {
    var d, q := Larger(2, m), Exact(m);
    Division(IMAX, d);
    assert q * d <= IMAX;
    assert d * (q - 3) == q * d - 3 * d;
    if q >= 3 {
      TimesMonotone(m, d, q - 3);
      TimesMonotone(2, d, q - 3);
    } else {
      SmallTimes(m, q - 3);
    }
  }

  lemma SmallTimes(m: nat, x: int)
    requires x <= 0
    ensures m * x <= 0
  {
  }

  /** Moving sums of a list that has passed the guard: no operation overflows. */
  method MovingSum(w: seq<int>, m: nat) returns (z: array<int>)
    requires 0 < m <= |w| && Guard(w, Exact(m))
    ensures z.Length == |w| - m + 1 && AreWindows(Plus, w, m, z[..], |w| - m + 1)
  {
    z := new int[|w| - m + 1];
    SumWindows(w, m, z);
  }

  method SumWindows(w: seq<int>, m: nat, z: array<int>)
    requires 0 < m <= |w| && Guard(w, Exact(m)) && z.Length == |w| - m + 1
    modifies z
    ensures AreWindows(Plus, w, m, z[..], |w| - m + 1)
  {
    hide *;
    ExactFits(m);
    SumNone(w, 0);
    var x, v, u := 0, 0, 0;
    while v < m
      invariant 0 <= v <= m && x == Sum(w, 0, v)
    {
      TotalsFit(w, Exact(m), m, 0, v + 1);
      SumStep(w, 0, v);
      x := Add64(x, w[v]);
      v := v + 1;
    }
    SumIsInsert(w, 0, m);
    ghost var z0 := z[..];
    WindowsStart(Plus, w, m, z0);
    z[0] := x;
    assert z[..] == z0[0 := x];
    WindowNext(Plus, w, m, z0, 0, z[..], x);
    while v < |w|
      invariant m <= v <= |w| && u == v - m && x == Sum(w, u, v) && AreWindows(Plus, w, m, z[..], u + 1)
    {
      TotalsFit(w, Exact(m), m, u + 1, v + 1);
      DifferenceFits(w, m, u, v);
      SumStep(w, u, v);
      SumFront(w, u, v + 1);
      x := Add64(x, Subtract64(w[v], w[u]));
      SumIsInsert(w, u + 1, v + 1);
      v, u := v + 1, u + 1;
      z0 := z[..];
      z[u] := x;
      assert z[..] == z0[u := x];
      WindowNext(Plus, w, m, z0, u, z[..], x);
    }
  }

  lemma SumNone(w: seq<int>, i: nat)
    requires i <= |w|
    ensures Sum(w, i, i) == 0
  {
  }

  lemma SumStep(w: seq<int>, i: nat, n: nat)
    requires i <= n < |w|
    ensures Sum(w, i, n + 1) == Sum(w, i, n) + w[n]
  {
  }

  /** The two ends of the window, before the difference is added. */
  lemma DifferenceFits(w: seq<int>, m: nat, u: nat, v: nat)
    requires Guard(w, Exact(m)) && u < |w| && v < |w|
    ensures Fits(w[v] - w[u])
  {
    GuardBounds(w, Exact(m), u);
    GuardBounds(w, Exact(m), v);
    ExactFits(m);
  }

  // ---- When a guard is good enough.

  /** Every window of every list that passes the guard has its total in range. */
  ghost predicate Sufficient(quotient: int, m: nat) {
    forall w: seq<int> :: |w| == m && Guard(w, quotient) ==> Fits(Sum(w, 0, m))
  }

  function Constant(n: nat, x: int): (w: seq<int>)
    ensures |w| == n && forall i :: 0 <= i < n ==> w[i] == x
  {
    seq(n, _ => x)
  }

  lemma {:induction false} ConstantSum(n: nat, x: int, k: nat)
    requires k <= n
    ensures Sum(Constant(n, x), 0, k) == k * x
  {
    if k > 0 {
      ConstantSum(n, x, k - 1);
      OneMoreTimes(k - 1, x);
    }
  }

  lemma {:induction false} ConstantExtremes(n: nat, x: int, k: nat)
    requires k <= n && x >= 0
    ensures Least(Constant(n, x), k) == 0 && Greatest(Constant(n, x), k) == if k == 0 then 0 else x
  {
    if k > 0 {
      ConstantExtremes(n, x, k - 1);
    }
  }

  /** A guard is sufficient exactly if m times the largest value it lets through is in range. */
  lemma SufficientIff(quotient: int, m: nat)
    requires m > 0 && quotient >= 3
    ensures Sufficient(quotient, m) <==> m * (quotient - 3) <= IMAX
  {
    if m * (quotient - 3) <= IMAX {
      forall w: seq<int> | |w| == m && Guard(w, quotient) ensures Fits(Sum(w, 0, m)) {
        TotalsFit(w, quotient, m, 0, m);
      }
    } else {
      var x := quotient - 3;
      var w := Constant(m, x);
      ConstantSum(m, x, m);
      ConstantExtremes(m, x, m);
      assert Guard(w, quotient);
      assert !Fits(Sum(w, 0, m));
    }
  }

  /** q is the number with the given spacing that is nearest to a quotient. */
  predicate Nearest(q: nat, numerator: nat, denominator: nat, spacing: nat)
    requires spacing > 0
  {
    var d := numerator - denominator * q;
    q % spacing == 0 && 2 * d <= denominator * spacing && 0 - denominator * spacing <= 2 * d
  }

  /** Taken in double precision, where the numerator becomes 2^63 and quotients between 2^60 and 2^61
      are multiples of 2^8, the quotient for windows of 5 is rounded up so far that the guard lets
      totals beyond the range through. */
  lemma RoundedQuotientInsufficient()
    ensures var q := 1844674407370955264;
            && 0x1000_0000_0000_0000 <= q < 0x2000_0000_0000_0000
            && Nearest(q, 0x8000_0000_0000_0000, 5, 256) && !Sufficient(q, 5) && Sufficient(Exact(5), 5)
  {
    var q := 1844674407370955264;
    SufficientIff(q, 5);
    SufficientIff(Exact(5), 5);
  }

  /** A list that shows it: five times the largest value that the rounded quotient lets through, and the exact one
      does not. */
  lemma OverflowExample()
    ensures var q := 1844674407370955264;
            && Nearest(q, 0x8000_0000_0000_0000, 5, 256)
            && Guard(Constant(5, q - 3), q) && !Fits(Sum(Constant(5, q - 3), 0, 5))
            && !Guard(Constant(5, q - 3), Exact(5))
  {
    var x := 1844674407370955264 - 3;
    ConstantSum(5, x, 5);
    ConstantExtremes(5, x, 5);
  }

  // ---- Verbs that can be undone.

  function Xor(x: bool, y: bool): bool {
    x != y
  }

  function Same(x: bool, y: bool): bool {
    x == y
  }

  lemma XorGroup()
    ensures Associative(Xor) && Undoes(Xor, Xor, false)
  {
  }

  lemma SameAssociative()
    ensures Associative(Same)
  {
  }

  lemma SameUndoes()
    ensures Undoes(Same, Same, true)
  {
  }

  function NeEq(eq: bool): (bool, bool) -> bool {
    if eq then Same else Xor
  }

  lemma NeEqGroup(eq: bool)
    ensures Associative(NeEq(eq)) && Undoes(NeEq(eq), NeEq(eq), eq)
  {
    XorGroup();
    SameAssociative();
    SameUndoes();
    hide Associative, Undoes;
  }

  lemma NeEqIs(eq: bool, x: bool, y: bool)
    ensures NeEq(eq)(x, y) == if eq then x == y else x != y
  {
  }

  /** m ~:/\ and m =/\ of a Boolean list. */
  method MovingNeEq(w: seq<bool>, m: nat, eq: bool) returns (z: array<bool>)
    requires 0 < m <= |w|
    ensures z.Length == |w| - m + 1 && AreWindows(NeEq(eq), w, m, z[..], |w| - m + 1)
  {
    z := new bool[|w| - m + 1];
    NeEqWindows(w, m, eq, z);
  }

  method NeEqWindows(w: seq<bool>, m: nat, eq: bool, z: array<bool>)
    requires 0 < m <= |w| && z.Length == |w| - m + 1
    modifies z
    ensures AreWindows(NeEq(eq), w, m, z[..], |w| - m + 1)
  {
    hide *;
    NeEqGroup(eq);
    ghost var f := NeEq(eq);
    AccumulateNone(f, w, eq);
    var x, v, u := eq, 0, 0;
    while v < m
      invariant 0 <= v <= m && Accumulated(f, w, eq, 0, v, x)
    {
      AccumulateStep(f, f, w, eq, 0, v, x);
      NeEqIs(eq, x, w[v]);
      x := if eq then x == w[v] else x != w[v];
      v := v + 1;
    }
    AccumulatedIs(f, w, eq, 0, m, x);
    ghost var z0 := z[..];
    WindowsStart(f, w, m, z0);
    z[0] := x;
    assert z[..] == z0[0 := x];
    WindowNext(f, w, m, z0, 0, z[..], x);
    while v < |w|
      invariant m <= v <= |w| && u == v - m && x == InsertFrom(f, w, u, v) && AreWindows(f, w, m, z[..], u + 1)
    {
      Slide(f, f, w, eq, u, m, x);
      NeEqIs(eq, x, w[v]);
      NeEqIs(eq, f(x, w[v]), w[u]);
      x := if eq then (x == w[u]) == w[v] else x != (w[u] != w[v]);
      v, u := v + 1, u + 1;
      z0 := z[..];
      z[u] := x;
      assert z[..] == z0[u := x];
      WindowNext(f, w, m, z0, u, z[..], x);
    }
  }

  lemma AccumulateNone<T>(f: (T, T) -> T, w: seq<T>, e: T)
    ensures Accumulated(f, w, e, 0, 0, e)
  {
  }

  lemma AccumulatedIs<T>(f: (T, T) -> T, w: seq<T>, e: T, i: nat, n: nat, x: T)
    requires Accumulated(f, w, e, i, n, x) && i < n
    ensures n <= |w| && x == InsertFrom(f, w, i, n)
  {
  }

  function BitXor(x: bv64, y: bv64): bv64 {
    x ^ y
  }

  function BitSame(x: bv64, y: bv64): bv64 {
    !(x ^ y)
  }

  lemma XorLaws(a: bv64, b: bv64, c: bv64)
    ensures (a ^ b) ^ c == a ^ (b ^ c) && 0 ^ a == a && a ^ 0 == a && (a ^ b) ^ a == b
  {
  }

  lemma SameLaws(a: bv64, b: bv64, c: bv64)
    ensures !((!(a ^ b)) ^ c) == !(a ^ (!(b ^ c))) && !(0xffff_ffff_ffff_ffff ^ a) == a
    ensures !(a ^ 0xffff_ffff_ffff_ffff) == a && !((!(a ^ b)) ^ a) == b
  {
  }

  lemma BitXorAssociative()
    ensures Associative(BitXor)
  {
    hide BitXor;
    forall a: bv64, b: bv64, c: bv64 ensures BitXor(BitXor(a, b), c) == BitXor(a, BitXor(b, c)) {
      BitXorAssociates(a, b, c);
    }
  }

  lemma BitXorAssociates(a: bv64, b: bv64, c: bv64)
    ensures BitXor(BitXor(a, b), c) == BitXor(a, BitXor(b, c))
  {
    hide BitXor;
    var ab := XorOf(a, b);
    var bc := XorOf(b, c);
    var x := XorOf(ab, c);
    var y := XorOf(a, bc);
    XorThree(a, b, c, ab, bc, x, y);
  }

  lemma XorOf(a: bv64, b: bv64) returns (r: bv64)
    ensures BitXor(a, b) == r && r == a ^ b
  {
    r := a ^ b;
  }

  lemma XorThree(a: bv64, b: bv64, c: bv64, ab: bv64, bc: bv64, x: bv64, y: bv64)
    requires ab == a ^ b && bc == b ^ c && x == ab ^ c && y == a ^ bc
    ensures x == y
  {
  }

  lemma BitXorAt(a: bv64, b: bv64)
    ensures BitXor(0, a) == a && BitXor(a, 0) == a && BitXor(BitXor(a, b), a) == b
  {
    XorLaws(a, b, a);
  }

  lemma BitXorUndoes()
    ensures Undoes(BitXor, BitXor, 0)
  {
    hide BitXor;
    forall a: bv64 ensures BitXor(0, a) == a && BitXor(a, 0) == a {
      BitXorAt(a, a);
    }
    forall a: bv64, b: bv64 ensures BitXor(BitXor(a, b), a) == b {
      BitXorAt(a, b);
    }
  }

  lemma BitSameAssociative()
    ensures Associative(BitSame)
  {
    hide BitSame;
    forall a: bv64, b: bv64, c: bv64 ensures BitSame(BitSame(a, b), c) == BitSame(a, BitSame(b, c)) {
      BitSameAssociates(a, b, c);
    }
  }

  lemma BitSameAssociates(a: bv64, b: bv64, c: bv64)
    ensures BitSame(BitSame(a, b), c) == BitSame(a, BitSame(b, c))
  {
    hide BitSame;
    var ab := SameOf(a, b);
    var bc := SameOf(b, c);
    var x := SameOf(ab, c);
    var y := SameOf(a, bc);
    SameThree(a, b, c, ab, bc, x, y);
  }

  lemma SameOf(a: bv64, b: bv64) returns (r: bv64)
    ensures BitSame(a, b) == r && r == !(a ^ b)
  {
    r := !(a ^ b);
  }

  lemma SameThree(a: bv64, b: bv64, c: bv64, ab: bv64, bc: bv64, x: bv64, y: bv64)
    requires ab == !(a ^ b) && bc == !(b ^ c) && x == !(ab ^ c) && y == !(a ^ bc)
    ensures x == y
  {
  }

  lemma BitXorCommutes(a: bv64, b: bv64)
    ensures BitXor(a, b) == BitXor(b, a)
  {
  }

  lemma BitSameCommutes(a: bv64, b: bv64)
    ensures BitSame(a, b) == BitSame(b, a)
  {
  }

  const ONES: bv64 := 0xffff_ffff_ffff_ffff

  lemma BitSameAt(a: bv64, b: bv64)
    ensures BitSame(ONES, a) == a && BitSame(a, ONES) == a && BitSame(BitSame(a, b), a) == b
  {
    SameLaws(a, b, a);
  }

  lemma BitSameUndoes()
    ensures Undoes(BitSame, BitSame, ONES)
  {
    hide BitSame;
    forall a: bv64 ensures BitSame(ONES, a) == a && BitSame(a, ONES) == a {
      BitSameAt(a, a);
    }
    forall a: bv64, b: bv64 ensures BitSame(BitSame(a, b), a) == b {
      BitSameAt(a, b);
    }
  }

  function BitNeEq(eq: bool): (bv64, bv64) -> bv64 {
    if eq then BitSame else BitXor
  }

  lemma BitNeEqGroup(eq: bool)
    ensures Associative(BitNeEq(eq)) && Undoes(BitNeEq(eq), BitNeEq(eq), if eq then ONES else 0)
  {
    hide Associative, Undoes;
    BitXorAssociative();
    BitXorUndoes();
    BitSameAssociative();
    BitSameUndoes();
  }

  lemma BitNeEqIs(eq: bool, x: bv64, y: bv64)
    ensures BitNeEq(eq)(x, y) == if eq then BitSame(x, y) else BitXor(x, y)
  {
    hide BitSame, BitXor;
  }

  /** What the loop does when the window moves is taking the old item out and the new one in. */
  lemma SlideXor(x: bv64, u: bv64, v: bv64)
    ensures BitXor(x, BitXor(u, v)) == BitXor(BitXor(x, v), u)
  {
    hide *;
    BitXorCommutes(u, v);
    BitXorAssociates(x, v, u);
  }

  lemma SlideSame(x: bv64, u: bv64, v: bv64)
    ensures BitSame(x, BitSame(u, v)) == BitSame(BitSame(x, v), u)
  {
    hide *;
    BitSameCommutes(u, v);
    BitSameAssociates(x, v, u);
  }

  /** m 22 b./\ and m 25 b./\ of an integer list. */
  method MovingBitNeEq(w: seq<bv64>, m: nat, eq: bool) returns (z: array<bv64>)
    requires 0 < m <= |w|
    ensures z.Length == |w| - m + 1 && AreWindows(BitNeEq(eq), w, m, z[..], |w| - m + 1)
  {
    z := new bv64[|w| - m + 1];
    BitNeEqWindows(w, m, eq, z);
  }

  method BitNeEqWindows(w: seq<bv64>, m: nat, eq: bool, z: array<bv64>)
    requires 0 < m <= |w| && z.Length == |w| - m + 1
    modifies z
    ensures AreWindows(BitNeEq(eq), w, m, z[..], |w| - m + 1)
  {
    hide *;
    BitNeEqGroup(eq);
    ghost var f, e := BitNeEq(eq), if eq then ONES else 0;
    AccumulateNone(f, w, e);
    var x, v, u := if eq then ONES else 0, 0, 0;
    while v < m
      invariant 0 <= v <= m && Accumulated(f, w, e, 0, v, x)
    {
      AccumulateStep(f, f, w, e, 0, v, x);
      BitNeEqIs(eq, x, w[v]);
      x := if eq then BitSame(x, w[v]) else BitXor(x, w[v]);
      v := v + 1;
    }
    AccumulatedIs(f, w, e, 0, m, x);
    ghost var z0 := z[..];
    WindowsStart(f, w, m, z0);
    z[0] := x;
    assert z[..] == z0[0 := x];
    WindowNext(f, w, m, z0, 0, z[..], x);
    while v < |w|
      invariant m <= v <= |w| && u == v - m && x == InsertFrom(f, w, u, v) && AreWindows(f, w, m, z[..], u + 1)
    {
      Slide(f, f, w, e, u, m, x);
      BitNeEqIs(eq, x, w[v]);
      BitNeEqIs(eq, f(x, w[v]), w[u]);
      x := SlidBits(eq, x, w[u], w[v]);
      v, u := v + 1, u + 1;
      z0 := z[..];
      z[u] := x;
      assert z[..] == z0[u := x];
      WindowNext(f, w, m, z0, u, z[..], x);
    }
  }

  /** The update of the running value. */
  method SlidBits(eq: bool, x: bv64, u: bv64, v: bv64) returns (r: bv64)
    ensures r == if eq then BitSame(BitSame(x, v), u) else BitXor(BitXor(x, v), u)
  {
    SlideXor(x, u, v);
    SlideSame(x, u, v);
    hide BitSame, BitXor;
    r := if eq then BitSame(x, BitSame(u, v)) else BitXor(x, BitXor(u, v));
  }

  // ---- Every column of a table.

  /** The running value of ~: and = when x is the old one, u leaves and v comes in. */
  function NeEqMove(eq: bool): (bool, bool, bool) -> bool {
    (x, u, v) => if eq then (x == u) == v else x != (u != v)
  }

  lemma NeEqMoves(eq: bool)
    ensures Moves(NeEq(eq), NeEq(eq), NeEqMove(eq))
  {
    forall x, u, v ensures NeEqMove(eq)(x, u, v) == NeEq(eq)(NeEq(eq)(x, v), u) {
      NeEqIs(eq, x, v);
      NeEqIs(eq, NeEq(eq)(x, v), u);
    }
  }

  /** m ~:/\ and m =/\ of every column of a Boolean table. */
  method MovingNeEqColumns(w: seq<bool>, n: nat, c: nat, m: nat, eq: bool) returns (z: array<bool>)
    requires 0 < m <= n && |w| == n * c
    ensures AreColumns(NeEq(eq), Table(w, n, c), m, z[..])
  {
    hide *;
    NeEqGroup(eq);
    NeEqMoves(eq);
    z := SlideColumns(NeEq(eq), NeEq(eq), eq, NeEqMove(eq), w, n, c, m);
  }

  function BitNeEqMove(eq: bool): (bv64, bv64, bv64) -> bv64 {
    (x, u, v) => if eq then BitSame(x, BitSame(u, v)) else BitXor(x, BitXor(u, v))
  }

  lemma BitNeEqMoves(eq: bool)
    ensures Moves(BitNeEq(eq), BitNeEq(eq), BitNeEqMove(eq))
  {
    hide BitSame, BitXor;
    forall x, u, v ensures BitNeEqMove(eq)(x, u, v) == BitNeEq(eq)(BitNeEq(eq)(x, v), u) {
      SlideXor(x, u, v);
      SlideSame(x, u, v);
      BitNeEqIs(eq, x, v);
      BitNeEqIs(eq, BitNeEq(eq)(x, v), u);
    }
  }

  /** m 22 b./\ and m 25 b./\ of every column of an integer table. */
  method MovingBitNeEqColumns(w: seq<bv64>, n: nat, c: nat, m: nat, eq: bool) returns (z: array<bv64>)
    requires 0 < m <= n && |w| == n * c
    ensures AreColumns(BitNeEq(eq), Table(w, n, c), m, z[..])
  {
    hide *;
    BitNeEqGroup(eq);
    BitNeEqMoves(eq);
    z := SlideColumns(BitNeEq(eq), BitNeEq(eq), if eq then ONES else 0, BitNeEqMove(eq), w, n, c, m);
  }

  lemma PlusLaws()
    ensures Associative(Plus) && Identity(Plus, 0)
  {
  }

  lemma PlusIs(x: int, y: int)
    ensures Plus(x, y) == x + y
  {
  }

  /** The totals and differences of a column of a table that has passed the guard. */
  lemma ColumnFits(t: Table<int>, m: nat, j: nat, i: nat, k: nat)
    requires t.Valid() && j < t.c && Guard(t.w, Exact(m)) && i <= k <= t.n && k - i <= m
    ensures Fits(Sum(t.Column(j), i, k))
  {
    hide *;
    ExactFits(m);
    var s := t.Column(j);
    if t.n > 0 {
      ColumnAt(t, 0, j);
      GuardBounds(t.w, Exact(m), j);
      forall l: nat | l < t.n ensures 0 - (Exact(m) - 3) <= s[l] <= Exact(m) - 3 {
        ColumnAt(t, l, j);
        GuardBounds(t.w, Exact(m), l * t.c + j);
      }
      SumBound(s, Exact(m) - 3, i, k);
      TimesMonotone(k - i, m, Exact(m) - 3);
      FitsWithin(Sum(s, i, k), m * (Exact(m) - 3));
    } else {
      SumNone(s, i);
      FitsWithin(0, 0);
    }
  }

  lemma FitsWithin(x: int, b: int)
    requires 0 - b <= x <= b <= IMAX || x == b == 0
    ensures Fits(x)
  {
  }

  lemma AccumulatedSum(s: seq<int>, n: nat, x: int)
    requires Accumulated(Plus, s, 0, 0, n, x)
    ensures n <= |s| && x == Sum(s, 0, n)
  {
    if n > 0 {
      SumIsInsert(s, 0, n);
    }
    hide InsertFrom;
  }

  /** One more row of the first window. */
  method AddRow(w: seq<int>, n: nat, c: nat, m: nat, y: array<int>, v: nat)
    requires v < n && v < m && Guard(w, Exact(m)) && Opening(Plus, Table(w, n, c), 0, y[..], v, 0)
    modifies y
    ensures Opening(Plus, Table(w, n, c), 0, y[..], v + 1, 0)
  {
    hide *;
    ghost var t := Table(w, n, c);
    PlusLaws();
    OpeningBounds(Plus, t, 0, y[..], v, 0);
    var q := RowPlace(v, c);
    for j := 0 to c
      invariant q == v * c + j && Opening(Plus, t, 0, y[..], v, j)
    {
      OpeningBounds(Plus, t, 0, y[..], v, j);
      OpeningStep(Plus, t, 0, y[..], v, j);
      AccumulatedSum(t.Column(j), v, y[j]);
      ColumnAt(t, v, j);
      SumStep(t.Column(j), 0, v);
      ColumnFits(t, m, j, 0, v + 1);
      PlusIs(y[j], w[q]);
      ghost var y0 := y[..];
      y[j] := Add64(y[j], w[q]);
      assert y[..] == y0[j := Plus(y0[j], w[q])];
      q := q + 1;
    }
    OpeningRow(Plus, t, 0, y[..], v);
  }

  /** A total when its window has moved. */
  lemma NextSum(t: Table<int>, m: nat, j: nat, i: nat, x: int)
    requires t.Valid() && j < t.c && Guard(t.w, Exact(m)) && 0 < m && i + m < t.n
    requires x == InsertFrom(Plus, t.Column(j), i, i + m)
    ensures i * t.c + j < |t.w| && (i + m) * t.c + j < |t.w|
    ensures var d := t.w[(i + m) * t.c + j] - t.w[i * t.c + j];
            Fits(d) && Fits(x + d) && x + d == InsertFrom(Plus, t.Column(j), i + 1, i + 1 + m)
  {
    hide *;
    var s := t.Column(j);
    ColumnAt(t, i, j);
    ColumnAt(t, i + m, j);
    DifferenceFits(t.w, m, i * t.c + j, (i + m) * t.c + j);
    SumIsInsert(s, i, i + m);
    SumIsInsert(s, i + 1, i + 1 + m);
    SumStep(s, i, i + m);
    SumFront(s, i, i + m + 1);
    ColumnFits(t, m, j, i + 1, i + 1 + m);
  }

  /** The next row of totals. */
  method SumRow(w: seq<int>, n: nat, c: nat, m: nat, y: array<int>, z: array<int>, i: nat)
    requires y != z && 0 < m && i + m < n && Guard(w, Exact(m))
    requires Running(Plus, Table(w, n, c), m, y[..], i, 0) && Stored(Plus, Table(w, n, c), m, z[..], i + 1, 0)
    modifies y, z
    ensures Running(Plus, Table(w, n, c), m, y[..], i + 1, 0) && Stored(Plus, Table(w, n, c), m, z[..], i + 2, 0)
  {
    hide *;
    ghost var t := Table(w, n, c);
    RunningBounds(Plus, t, m, y[..], i, 0);
    var u, v, q := RowPlace(i, c), RowPlace(i + m, c), RowPlace(i + 1, c);
    for j := 0 to c
      invariant u == i * c + j && v == (i + m) * c + j && q == (i + 1) * c + j
      invariant Running(Plus, t, m, y[..], i, j) && Stored(Plus, t, m, z[..], i + 1, j)
    {
      NextTotal(w, n, c, m, y, z, i, j, u, v, q);
      u, v, q := u + 1, v + 1, q + 1;
    }
    RunningRow(Plus, t, m, y[..], i);
    StoredRow(Plus, t, m, z[..], i + 1);
  }

  method NextTotal(w: seq<int>, n: nat, c: nat, m: nat, y: array<int>, z: array<int>, i: nat, j: nat, u: nat, v: nat, q: nat)
    requires y != z && 0 < m && i + m < n && j < c && Guard(w, Exact(m))
    requires u == i * c + j && v == (i + m) * c + j && q == (i + 1) * c + j
    requires Running(Plus, Table(w, n, c), m, y[..], i, j) && Stored(Plus, Table(w, n, c), m, z[..], i + 1, j)
    modifies y, z
    ensures Running(Plus, Table(w, n, c), m, y[..], i, j + 1) && Stored(Plus, Table(w, n, c), m, z[..], i + 1, j + 1)
  {
    hide *;
    ghost var t := Table(w, n, c);
    RunningAt(Plus, t, m, y[..], i, j);
    NextSum(t, m, j, i, y[j]);
    var x := Add64(y[j], Subtract64(w[v], w[u]));
    RunningStep(Plus, t, m, y[..], i, j, x);
    StoredBounds(Plus, t, m, z[..], i + 1, j);
    StoredStep(Plus, t, m, z[..], i + 1, j, x);
    ghost var y0, z0 := y[..], z[..];
    y[j] := x;
    z[q] := x;
    assert y[..] == y0[j := x] && z[..] == z0[q := x];
  }

  /** Moving sums of every column of a table that has passed the guard: no operation overflows. */
  method MovingSumColumns(w: seq<int>, n: nat, c: nat, m: nat) returns (z: array<int>)
    requires 0 < m <= n && |w| == n * c && Guard(w, Exact(m))
    ensures AreColumns(Plus, Table(w, n, c), m, z[..])
  {
    var y := new int[c](_ => 0);
    z := new int[RowPlace(n + 1 - m, c)];
    SumInto(w, n, c, m, y, z);
  }

  method SumInto(w: seq<int>, n: nat, c: nat, m: nat, y: array<int>, z: array<int>)
    requires 0 < m <= n && |w| == n * c && Guard(w, Exact(m)) && y != z && y.Length == c && z.Length == (n + 1 - m) * c
    requires forall l :: 0 <= l < c ==> y[l] == 0
    modifies y, z
    ensures AreColumns(Plus, Table(w, n, c), m, z[..])
  {
    hide *;
    ghost var t := Table(w, n, c);
    TableIs(w, n, c);
    OpeningStarts(Plus, t, 0, y[..]);
    StoredNone(Plus, t, m, z[..]);
    for v := 0 to m
      invariant Opening(Plus, t, 0, y[..], v, 0) && z[..] == old(z[..])
    {
      AddRow(w, n, c, m, y, v);
    }
    OpeningEnds(Plus, t, 0, y[..], m);
    SetRow(y, z, c, 0, Plus, t, m);
    for i := 0 to n - m
      invariant Running(Plus, t, m, y[..], i, 0) && Stored(Plus, t, m, z[..], i + 1, 0)
    {
      SumRow(w, n, c, m, y, z, i);
    }
    StoredAll(Plus, t, m, z[..]);
  }
}
