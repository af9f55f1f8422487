/** The bytes of AES as the field of 256 elements: the multiplication of the column step, that it
    distributes over addition, and that the two column matrices are inverse.
    (FIPS 197, sections 4 and 5.1.3.) */
module AesField {

  /** Addition in the field. */
  function Add(x: bv8, y: bv8): bv8 {
    x ^ y
  }

  function Sum(a: bv8, b: bv8, c: bv8, d: bv8): bv8 {
    a ^ b ^ c ^ d
  }

  /** Multiplication by x, section 4.2.1. */
  function Xtime(x: bv8): bv8 {
    (x << 1) ^ (((x >> 7) & 1) * 0x1b)
  }

  /** Multiplication by a number of at most five bits. */
  function Multiply(x: bv8, y: bv8): bv8 {
    ((y & 1) * x) ^
    (((y >> 1) & 1) * Xtime(x)) ^
    (((y >> 2) & 1) * Xtime(Xtime(x))) ^
    (((y >> 3) & 1) * Xtime(Xtime(Xtime(x)))) ^
    (((y >> 4) & 1) * Xtime(Xtime(Xtime(Xtime(x)))))
  }

  /** One byte of a column times the matrix of section 5.1.3, from the byte in place and the three
      that follow it cyclically. */
  function Mix(a: bv8, b: bv8, c: bv8, d: bv8): bv8 {
    Sum(Multiply(a, 0x02), Multiply(b, 0x03), c, d)
  }

  /** The same with the matrix of section 5.3.3. */
  function InvMix(a: bv8, b: bv8, c: bv8, d: bv8): bv8 {
    Sum(Multiply(a, 0x0e), Multiply(b, 0x0b), Multiply(c, 0x0d), Multiply(d, 0x09))
  }

  // ---- Addition.

  lemma SumIs(a: bv8, b: bv8, c: bv8, d: bv8)
    ensures Sum(a, b, c, d) == Add(Add(a, b), Add(c, d))
  {
  }

  lemma AddAssociates(a: bv8, b: bv8, c: bv8)
    ensures Add(Add(a, b), c) == Add(a, Add(b, c))
  {
  }

  lemma AddCommutes(a: bv8, b: bv8)
    ensures Add(a, b) == Add(b, a)
  {
  }

  lemma SumTurns(a: bv8, b: bv8, c: bv8, d: bv8)
    ensures Sum(a, b, c, d) == Sum(d, a, b, c) == Sum(c, d, a, b) == Sum(b, c, d, a)
  {
    hide *;
    SumIs(a, b, c, d);
    SumIs(d, a, b, c);
    SumIs(c, d, a, b);
    SumIs(b, c, d, a);
    AddCommutes(Add(a, b), Add(c, d));
    AddCommutes(Add(b, c), Add(d, a));
    AddExchange(a, b, d, c);
    AddCommutes(c, d);
    AddCommutes(b, c);
    AddCommutes(a, d);
  }

  lemma SumOne(x: bv8)
    ensures Sum(x, 0, 0, 0) == x
  {
  }

  lemma AddExchange(a: bv8, b: bv8, c: bv8, d: bv8)
    ensures Add(Add(a, b), Add(c, d)) == Add(Add(a, c), Add(b, d))
  {
    hide *;
    AddAssociates(a, b, Add(c, d));
    AddAssociates(b, c, d);
    AddCommutes(b, c);
    AddAssociates(c, b, d);
    AddAssociates(a, c, Add(b, d));
  }

  lemma SumAdd(a: bv8, b: bv8, c: bv8, d: bv8, a': bv8, b': bv8, c': bv8, d': bv8)
    ensures Sum(Add(a, a'), Add(b, b'), Add(c, c'), Add(d, d')) == Add(Sum(a, b, c, d), Sum(a', b', c', d'))
  {
    hide *;
    SumIs(a, b, c, d);
    SumIs(a', b', c', d');
    SumIs(Add(a, a'), Add(b, b'), Add(c, c'), Add(d, d'));
    AddExchange(a, b, a', b');
    AddExchange(c, d, c', d');
    AddExchange(Add(a, b), Add(c, d), Add(a', b'), Add(c', d'));
  }

  /** Rows and columns of a square of terms. */
  lemma SumTransposed(a0: bv8, a1: bv8, a2: bv8, a3: bv8, b0: bv8, b1: bv8, b2: bv8, b3: bv8,
                      c0: bv8, c1: bv8, c2: bv8, c3: bv8, d0: bv8, d1: bv8, d2: bv8, d3: bv8)
    ensures Sum(Sum(a0, a1, a2, a3), Sum(b0, b1, b2, b3), Sum(c0, c1, c2, c3), Sum(d0, d1, d2, d3)) ==
            Sum(Sum(a0, b0, c0, d0), Sum(a1, b1, c1, d1), Sum(a2, b2, c2, d2), Sum(a3, b3, c3, d3))
  {
    hide *;
    SumIs(Sum(a0, a1, a2, a3), Sum(b0, b1, b2, b3), Sum(c0, c1, c2, c3), Sum(d0, d1, d2, d3));
    SumAdd(a0, a1, a2, a3, b0, b1, b2, b3);
    SumAdd(c0, c1, c2, c3, d0, d1, d2, d3);
    SumAdd(Add(a0, b0), Add(a1, b1), Add(a2, b2), Add(a3, b3), Add(c0, d0), Add(c1, d1), Add(c2, d2), Add(c3, d3));
    SumIs(a0, b0, c0, d0);
    SumIs(a1, b1, c1, d1);
    SumIs(a2, b2, c2, d2);
    SumIs(a3, b3, c3, d3);
  }

  // ---- Multiplication distributes over addition.

  lemma XtimeAdd(x: bv8, y: bv8)
    ensures Xtime(Add(x, y)) == Add(Xtime(x), Xtime(y))
  {
  }

  function BitTimes(b: bv8, x: bv8): bv8 {
    if b & 1 == 1 then x else 0
  }

  lemma BitTimesIs(b: bv8, x: bv8)
    ensures (b & 1) * x == BitTimes(b, x)
  {
  }

  lemma BitTimesAdd(b: bv8, x: bv8, y: bv8)
    ensures BitTimes(b, Add(x, y)) == Add(BitTimes(b, x), BitTimes(b, y))
  {
  }

  lemma MultiplyIs(x: bv8, n: bv8, x1: bv8, x2: bv8, x3: bv8, x4: bv8)
    requires x1 == Xtime(x) && x2 == Xtime(x1) && x3 == Xtime(x2) && x4 == Xtime(x3)
    ensures Multiply(x, n) ==
            Add(Sum(BitTimes(n, x), BitTimes(n >> 1, x1), BitTimes(n >> 2, x2), BitTimes(n >> 3, x3)),
                BitTimes(n >> 4, x4))
  {
    hide *;
    var t0, t1, t2, t3, t4 := MultiplyParts(x, n, x1, x2, x3, x4);
    BitTimesIs(n, x);
    BitTimesIs(n >> 1, x1);
    BitTimesIs(n >> 2, x2);
    BitTimesIs(n >> 3, x3);
    BitTimesIs(n >> 4, x4);
    FiveAdded(t0, t1, t2, t3, t4);
  }

  lemma MultiplyParts(x: bv8, n: bv8, x1: bv8, x2: bv8, x3: bv8, x4: bv8) returns (t0: bv8, t1: bv8, t2: bv8, t3: bv8, t4: bv8)
    requires x1 == Xtime(x) && x2 == Xtime(x1) && x3 == Xtime(x2) && x4 == Xtime(x3)
    ensures t0 == (n & 1) * x && t1 == ((n >> 1) & 1) * x1 && t2 == ((n >> 2) & 1) * x2
    ensures t3 == ((n >> 3) & 1) * x3 && t4 == ((n >> 4) & 1) * x4 && Multiply(x, n) == Five(t0, t1, t2, t3, t4)
  {
    hide Xtime;
    t0, t1, t2, t3, t4 := (n & 1) * x, ((n >> 1) & 1) * x1, ((n >> 2) & 1) * x2, ((n >> 3) & 1) * x3, ((n >> 4) & 1) * x4;
  }

  function Five(a: bv8, b: bv8, c: bv8, d: bv8, e: bv8): bv8 {
    a ^ b ^ c ^ d ^ e
  }

  lemma FiveAdded(a: bv8, b: bv8, c: bv8, d: bv8, e: bv8)
    ensures Five(a, b, c, d, e) == Add(Sum(a, b, c, d), e)
  {
  }

  lemma MultiplyAdd(x: bv8, y: bv8, n: bv8)
    ensures Multiply(Add(x, y), n) == Add(Multiply(x, n), Multiply(y, n))
  {
    hide *;
    var x1 := Xtime(x);
    var x2 := Xtime(x1);
    var x3 := Xtime(x2);
    var x4 := Xtime(x3);
    var y1 := Xtime(y);
    var y2 := Xtime(y1);
    var y3 := Xtime(y2);
    var y4 := Xtime(y3);
    XtimeAdd(x, y);
    XtimeAdd(x1, y1);
    XtimeAdd(x2, y2);
    XtimeAdd(x3, y3);
    MultiplyIs(x, n, x1, x2, x3, x4);
    MultiplyIs(y, n, y1, y2, y3, y4);
    MultiplyIs(Add(x, y), n, Add(x1, y1), Add(x2, y2), Add(x3, y3), Add(x4, y4));
    BitTimesAdd(n, x, y);
    BitTimesAdd(n >> 1, x1, y1);
    BitTimesAdd(n >> 2, x2, y2);
    BitTimesAdd(n >> 3, x3, y3);
    BitTimesAdd(n >> 4, x4, y4);
    SumAdd(BitTimes(n, x), BitTimes(n >> 1, x1), BitTimes(n >> 2, x2), BitTimes(n >> 3, x3),
           BitTimes(n, y), BitTimes(n >> 1, y1), BitTimes(n >> 2, y2), BitTimes(n >> 3, y3));
    AddExchange(Sum(BitTimes(n, x), BitTimes(n >> 1, x1), BitTimes(n >> 2, x2), BitTimes(n >> 3, x3)),
                BitTimes(n >> 4, x4),
                Sum(BitTimes(n, y), BitTimes(n >> 1, y1), BitTimes(n >> 2, y2), BitTimes(n >> 3, y3)),
                BitTimes(n >> 4, y4));
  }

  lemma MultiplySum(a: bv8, b: bv8, c: bv8, d: bv8, n: bv8)
    ensures Multiply(Sum(a, b, c, d), n) == Sum(Multiply(a, n), Multiply(b, n), Multiply(c, n), Multiply(d, n))
  {
    hide *;
    SumIs(a, b, c, d);
    SumIs(Multiply(a, n), Multiply(b, n), Multiply(c, n), Multiply(d, n));
    MultiplyAdd(Add(a, b), Add(c, d), n);
    MultiplyAdd(a, b, n);
    MultiplyAdd(c, d, n);
  }

  // ---- The two matrices.

  /** One column of the product of the matrices. */
  lemma MatrixProduct(x: bv8)
    ensures Sum(Multiply(Multiply(x, 2), 0x0e), Multiply(x, 0x0b), Multiply(x, 0x0d), Multiply(Multiply(x, 3), 0x09)) == x
    ensures Sum(Multiply(Multiply(x, 3), 0x0e), Multiply(Multiply(x, 2), 0x0b), Multiply(x, 0x0d), Multiply(x, 0x09)) == 0
    ensures Sum(Multiply(x, 0x0e), Multiply(Multiply(x, 3), 0x0b), Multiply(Multiply(x, 2), 0x0d), Multiply(x, 0x09)) == 0
    ensures Sum(Multiply(x, 0x0e), Multiply(x, 0x0b), Multiply(Multiply(x, 3), 0x0d), Multiply(Multiply(x, 2), 0x09)) == 0
  {
  }

  /** Multiplying by the second matrix undoes multiplying by the first. */
  lemma MixUndone(a: bv8, b: bv8, c: bv8, d: bv8)
    ensures InvMix(Mix(a, b, c, d), Mix(b, c, d, a), Mix(c, d, a, b), Mix(d, a, b, c)) == a
  {
    hide Multiply, Sum;
    var a2, b2, c2, d2 := Multiply(a, 2), Multiply(b, 2), Multiply(c, 2), Multiply(d, 2);
    var a3, b3, c3, d3 := Multiply(a, 3), Multiply(b, 3), Multiply(c, 3), Multiply(d, 3);
    MultiplySum(a2, b3, c, d, 0x0e);
    MultiplySum(b2, c3, d, a, 0x0b);
    MultiplySum(c2, d3, a, b, 0x0d);
    MultiplySum(d2, a3, b, c, 0x09);
    SumTurns(Multiply(b2, 0x0b), Multiply(c3, 0x0b), Multiply(d, 0x0b), Multiply(a, 0x0b));
    SumTurns(Multiply(c2, 0x0d), Multiply(d3, 0x0d), Multiply(a, 0x0d), Multiply(b, 0x0d));
    SumTurns(Multiply(d2, 0x09), Multiply(a3, 0x09), Multiply(b, 0x09), Multiply(c, 0x09));
    SumTransposed(
      Multiply(a2, 0x0e), Multiply(b3, 0x0e), Multiply(c, 0x0e), Multiply(d, 0x0e),
      Multiply(a, 0x0b), Multiply(b2, 0x0b), Multiply(c3, 0x0b), Multiply(d, 0x0b),
      Multiply(a, 0x0d), Multiply(b, 0x0d), Multiply(c2, 0x0d), Multiply(d3, 0x0d),
      Multiply(a3, 0x09), Multiply(b, 0x09), Multiply(c, 0x09), Multiply(d2, 0x09));
    MatrixProduct(a);
    MatrixProduct(b);
    MatrixProduct(c);
    MatrixProduct(d);
    SumOne(a);
  }

  /** The second matrix distributes over addition. */
  lemma InvMixAdd(a: bv8, b: bv8, c: bv8, d: bv8, a': bv8, b': bv8, c': bv8, d': bv8)
    ensures InvMix(Add(a, a'), Add(b, b'), Add(c, c'), Add(d, d')) == Add(InvMix(a, b, c, d), InvMix(a', b', c', d'))
  {
    hide Multiply, Sum, Add;
    MultiplyAdd(a, a', 0x0e);
    MultiplyAdd(b, b', 0x0b);
    MultiplyAdd(c, c', 0x0d);
    MultiplyAdd(d, d', 0x09);
    SumAdd(Multiply(a, 0x0e), Multiply(b, 0x0b), Multiply(c, 0x0d), Multiply(d, 0x09),
           Multiply(a', 0x0e), Multiply(b', 0x0b), Multiply(c', 0x0d), Multiply(d', 0x09));
  }

  /** The way the column step computes the matrix product: one xtime a byte. */
  lemma MixByXtime(a: bv8, b: bv8, c: bv8, d: bv8)
    ensures a ^ (Xtime(a ^ b) ^ (a ^ b ^ c ^ d)) == Mix(a, b, c, d)
  {
    hide Multiply, Xtime;
    TwoAndThree(a);
    TwoAndThree(b);
    XtimeAdd(a, b);
    Rearranged(a, Xtime(a), b, Xtime(b), c, d);
  }

  lemma TwoAndThree(x: bv8)
    ensures Multiply(x, 2) == Xtime(x) && Multiply(x, 3) == x ^ Xtime(x)
  {
    hide Xtime;
  }

  lemma Rearranged(a: bv8, a': bv8, b: bv8, b': bv8, c: bv8, d: bv8)
    ensures a ^ ((a' ^ b') ^ (a ^ b ^ c ^ d)) == a' ^ (b ^ b') ^ c ^ d
  {
  }
}
