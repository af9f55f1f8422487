/** Facts about products and remainders, one at a time. */
module Arith {
  lemma OneMoreTimes(x: int, k: int)
    ensures (x + 1) * k == x * k + k
  {
  }

  lemma TimesMonotone(x: int, y: int, k: int)
    requires x <= y && 0 <= k
    ensures x * k <= y * k
  {
  }

  lemma TimesAssociative(x: int, y: int, z: int)
    ensures x * (y * z) == (x * y) * z
  {
  }

  lemma TimesZero(x: nat, y: nat)
    ensures x * y == 0 <==> x == 0 || y == 0
  {
  }

  lemma PositiveFactors(x: nat, y: nat)
    requires x * y > 0
    ensures x > 0 && y > 0
  {
  }

  lemma FactorBound(x: nat, y: nat)
    requires x > 0
    ensures y <= x * y
  {
    TimesMonotone(1, x, y);
  }

  /** x below y leaves room for one more k below y times k. */
  lemma RoomForOne(x: nat, y: nat, k: nat)
    requires x < y
    ensures x * k + k <= y * k
  {
    OneMoreTimes(x, k);
    TimesMonotone(x + 1, y, k);
  }

  lemma TimesCancel(x: nat, y: nat, k: nat)
    requires k > 0
    ensures x * k < y * k <==> x < y
    ensures x * k == y * k <==> x == y
  {
    if x < y {
      RoomForOne(x, y, k);
    } else if y < x {
      RoomForOne(y, x, k);
    }
  }

  lemma ModuloIs(k: nat, n: nat, q: nat, r: nat)
    requires 0 <= r < n && k == q * n + r
    ensures k % n == r && k / n == q
  {
    var q', r' := k / n, k % n;
    Division(k, n);
    if q' < q {
      RoomForOne(q', q, n);
    } else if q < q' {
      RoomForOne(q, q', n);
    }
  }

  lemma Division(k: nat, n: nat)
    requires n > 0
    ensures k == k / n * n + k % n && 0 <= k % n < n && 0 <= k / n
  {
  }

  lemma ModuloStep(k: nat, n: nat)
    requires n > 0
    ensures (k + 1) % n == if k % n + 1 == n then 0 else k % n + 1
  {
    var q, r := k / n, k % n;
    Division(k, n);
    if r + 1 == n {
      OneMoreTimes(q, n);
      ModuloIs(k + 1, n, q + 1, 0);
    } else {
      ModuloIs(k + 1, n, q, r + 1);
    }
  }

  lemma QuotientSmall(k: nat, n: nat, x: nat)
    requires n > 0 && k < x * n
    ensures k / n < x && k == k / n * n + k % n && k % n < n
  {
    Division(k, n);
    if k / n >= x {
      TimesMonotone(x, k / n, n);
    }
  }
}
