/** The substitution tables against their definition: the inverse in the field, and an affine map.
    (FIPS 197, section 5.1.1.) */
module AesSbox {
  import opened AesField
  import opened AesTables

  /** The product in the field, section 4.2: y taken bit by bit. */
  function Times(x: bv8, y: bv8): bv8 {
    var x1 := Xtime(x);
    var x2 := Xtime(x1);
    var x3 := Xtime(x2);
    var x4 := Xtime(x3);
    var x5 := Xtime(x4);
    var x6 := Xtime(x5);
    var x7 := Xtime(x6);
    Add(Sum(Sum(BitTimes(y, x), BitTimes(y >> 1, x1), BitTimes(y >> 2, x2), BitTimes(y >> 3, x3)),
            BitTimes(y >> 4, x4), BitTimes(y >> 5, x5), BitTimes(y >> 6, x6)), BitTimes(y >> 7, x7))
  }

  /** Bit i of the result is the sum of bits i, i + 4, i + 5, i + 6 and i + 7 of b, cyclically, and of bit i of 0x63. */
  function Affine(b: bv8): bv8 {
    b ^ ((b << 1) | (b >> 7)) ^ ((b << 2) | (b >> 6)) ^ ((b << 3) | (b >> 5)) ^ ((b << 4) | (b >> 4)) ^ 0x63
  }

  function Unaffine(s: bv8): bv8 {
    ((s << 1) | (s >> 7)) ^ ((s << 3) | (s >> 5)) ^ ((s << 6) | (s >> 2)) ^ 0x05
  }

  lemma AffineUndone(b: bv8)
    ensures Unaffine(Affine(b)) == b && Affine(Unaffine(b)) == b
  {
  }

  lemma Row0(l: bv8, y: bv8)
    requires l < 16 && l != 0
    ensures Times(l, y) == 1 <==> y == Unaffine(Sbox0(l))
  {
  }

  lemma Row1(l: bv8, y: bv8)
    requires l < 16
    ensures Times(0x10 | l, y) == 1 <==> y == Unaffine(Sbox1(l))
  {
  }

  lemma Row2(l: bv8, y: bv8)
    requires l < 16
    ensures Times(0x20 | l, y) == 1 <==> y == Unaffine(Sbox2(l))
  {
  }

  lemma Row3(l: bv8, y: bv8)
    requires l < 16
    ensures Times(0x30 | l, y) == 1 <==> y == Unaffine(Sbox3(l))
  {
  }

  lemma Row4(l: bv8, y: bv8)
    requires l < 16
    ensures Times(0x40 | l, y) == 1 <==> y == Unaffine(Sbox4(l))
  {
  }

  lemma Row5(l: bv8, y: bv8)
    requires l < 16
    ensures Times(0x50 | l, y) == 1 <==> y == Unaffine(Sbox5(l))
  {
  }

  lemma Row6(l: bv8, y: bv8)
    requires l < 16
    ensures Times(0x60 | l, y) == 1 <==> y == Unaffine(Sbox6(l))
  {
  }

  lemma Row7(l: bv8, y: bv8)
    requires l < 16
    ensures Times(0x70 | l, y) == 1 <==> y == Unaffine(Sbox7(l))
  {
  }

  lemma Row8(l: bv8, y: bv8)
    requires l < 16
    ensures Times(0x80 | l, y) == 1 <==> y == Unaffine(Sbox8(l))
  {
  }

  lemma Row9(l: bv8, y: bv8)
    requires l < 16
    ensures Times(0x90 | l, y) == 1 <==> y == Unaffine(Sbox9(l))
  {
  }

  lemma RowA(l: bv8, y: bv8)
    requires l < 16
    ensures Times(0xa0 | l, y) == 1 <==> y == Unaffine(SboxA(l))
  {
  }

  lemma RowB(l: bv8, y: bv8)
    requires l < 16
    ensures Times(0xb0 | l, y) == 1 <==> y == Unaffine(SboxB(l))
  {
  }

  lemma RowC(l: bv8, y: bv8)
    requires l < 16
    ensures Times(0xc0 | l, y) == 1 <==> y == Unaffine(SboxC(l))
  {
  }

  lemma RowD(l: bv8, y: bv8)
    requires l < 16
    ensures Times(0xd0 | l, y) == 1 <==> y == Unaffine(SboxD(l))
  {
  }

  lemma RowE(l: bv8, y: bv8)
    requires l < 16
    ensures Times(0xe0 | l, y) == 1 <==> y == Unaffine(SboxE(l))
  {
  }

  lemma RowF(l: bv8, y: bv8)
    requires l < 16
    ensures Times(0xf0 | l, y) == 1 <==> y == Unaffine(SboxF(l))
  {
  }

  /** The rows of the table. */
  lemma SboxRow(x: bv8)
    ensures var h, l := x >> 4, x & 15;
            && l < 16 && h < 16 && x == (h << 4) | l
            && Sbox(x) == if h == 0 then Sbox0(l) else if h == 1 then Sbox1(l) else if h == 2 then Sbox2(l) else if h == 3 then Sbox3(l)
                          else if h == 4 then Sbox4(l) else if h == 5 then Sbox5(l) else if h == 6 then Sbox6(l)
                          else if h == 7 then Sbox7(l) else if h == 8 then Sbox8(l) else if h == 9 then Sbox9(l)
                          else if h == 10 then SboxA(l) else if h == 11 then SboxB(l) else if h == 12 then SboxC(l)
                          else if h == 13 then SboxD(l) else if h == 14 then SboxE(l) else SboxF(l)
  {
    hide Sbox0, Sbox1, Sbox2, Sbox3, Sbox4, Sbox5, Sbox6, Sbox7, Sbox8, Sbox9, SboxA, SboxB, SboxC, SboxD, SboxE, SboxF;
  }

  lemma Case0(x: bv8, y: bv8)
    requires x >> 4 == 0 && x != 0
    ensures Sbox(x) == Affine(y) <==> Times(x, y) == 1
  {
    var l := x & 15;
    SboxRow(x);
    hide *;
    AffineUndone(Sbox(x));
    AffineUndone(y);
    assert x == l;
    Row0(l, y);
  }

  lemma Case1(x: bv8, y: bv8)
    requires x >> 4 == 1
    ensures Sbox(x) == Affine(y) <==> Times(x, y) == 1
  {
    var l := x & 15;
    SboxRow(x);
    hide *;
    AffineUndone(Sbox(x));
    AffineUndone(y);
    assert x == 0x10 | l;
    Row1(l, y);
  }

  lemma Case2(x: bv8, y: bv8)
    requires x >> 4 == 2
    ensures Sbox(x) == Affine(y) <==> Times(x, y) == 1
  {
    var l := x & 15;
    SboxRow(x);
    hide *;
    AffineUndone(Sbox(x));
    AffineUndone(y);
    assert x == 0x20 | l;
    Row2(l, y);
  }

  lemma Case3(x: bv8, y: bv8)
    requires x >> 4 == 3
    ensures Sbox(x) == Affine(y) <==> Times(x, y) == 1
  {
    var l := x & 15;
    SboxRow(x);
    hide *;
    AffineUndone(Sbox(x));
    AffineUndone(y);
    assert x == 0x30 | l;
    Row3(l, y);
  }

  lemma Case4(x: bv8, y: bv8)
    requires x >> 4 == 4
    ensures Sbox(x) == Affine(y) <==> Times(x, y) == 1
  {
    var l := x & 15;
    SboxRow(x);
    hide *;
    AffineUndone(Sbox(x));
    AffineUndone(y);
    assert x == 0x40 | l;
    Row4(l, y);
  }

  lemma Case5(x: bv8, y: bv8)
    requires x >> 4 == 5
    ensures Sbox(x) == Affine(y) <==> Times(x, y) == 1
  {
    var l := x & 15;
    SboxRow(x);
    hide *;
    AffineUndone(Sbox(x));
    AffineUndone(y);
    assert x == 0x50 | l;
    Row5(l, y);
  }

  lemma Case6(x: bv8, y: bv8)
    requires x >> 4 == 6
    ensures Sbox(x) == Affine(y) <==> Times(x, y) == 1
  {
    var l := x & 15;
    SboxRow(x);
    hide *;
    AffineUndone(Sbox(x));
    AffineUndone(y);
    assert x == 0x60 | l;
    Row6(l, y);
  }

  lemma Case7(x: bv8, y: bv8)
    requires x >> 4 == 7
    ensures Sbox(x) == Affine(y) <==> Times(x, y) == 1
  {
    var l := x & 15;
    SboxRow(x);
    hide *;
    AffineUndone(Sbox(x));
    AffineUndone(y);
    assert x == 0x70 | l;
    Row7(l, y);
  }

  lemma Case8(x: bv8, y: bv8)
    requires x >> 4 == 8
    ensures Sbox(x) == Affine(y) <==> Times(x, y) == 1
  {
    var l := x & 15;
    SboxRow(x);
    hide *;
    AffineUndone(Sbox(x));
    AffineUndone(y);
    assert x == 0x80 | l;
    Row8(l, y);
  }

  lemma Case9(x: bv8, y: bv8)
    requires x >> 4 == 9
    ensures Sbox(x) == Affine(y) <==> Times(x, y) == 1
  {
    var l := x & 15;
    SboxRow(x);
    hide *;
    AffineUndone(Sbox(x));
    AffineUndone(y);
    assert x == 0x90 | l;
    Row9(l, y);
  }

  lemma CaseA(x: bv8, y: bv8)
    requires x >> 4 == 10
    ensures Sbox(x) == Affine(y) <==> Times(x, y) == 1
  {
    var l := x & 15;
    SboxRow(x);
    hide *;
    AffineUndone(Sbox(x));
    AffineUndone(y);
    assert x == 0xa0 | l;
    RowA(l, y);
  }

  lemma CaseB(x: bv8, y: bv8)
    requires x >> 4 == 11
    ensures Sbox(x) == Affine(y) <==> Times(x, y) == 1
  {
    var l := x & 15;
    SboxRow(x);
    hide *;
    AffineUndone(Sbox(x));
    AffineUndone(y);
    assert x == 0xb0 | l;
    RowB(l, y);
  }

  lemma CaseC(x: bv8, y: bv8)
    requires x >> 4 == 12
    ensures Sbox(x) == Affine(y) <==> Times(x, y) == 1
  {
    var l := x & 15;
    SboxRow(x);
    hide *;
    AffineUndone(Sbox(x));
    AffineUndone(y);
    assert x == 0xc0 | l;
    RowC(l, y);
  }

  lemma CaseD(x: bv8, y: bv8)
    requires x >> 4 == 13
    ensures Sbox(x) == Affine(y) <==> Times(x, y) == 1
  {
    var l := x & 15;
    SboxRow(x);
    hide *;
    AffineUndone(Sbox(x));
    AffineUndone(y);
    assert x == 0xd0 | l;
    RowD(l, y);
  }

  lemma CaseE(x: bv8, y: bv8)
    requires x >> 4 == 14
    ensures Sbox(x) == Affine(y) <==> Times(x, y) == 1
  {
    var l := x & 15;
    SboxRow(x);
    hide *;
    AffineUndone(Sbox(x));
    AffineUndone(y);
    assert x == 0xe0 | l;
    RowE(l, y);
  }

  lemma CaseF(x: bv8, y: bv8)
    requires x >> 4 == 15
    ensures Sbox(x) == Affine(y) <==> Times(x, y) == 1
  {
    var l := x & 15;
    SboxRow(x);
    hide *;
    AffineUndone(Sbox(x));
    AffineUndone(y);
    assert x == 0xf0 | l;
    RowF(l, y);
  }

  /** The affine map takes y to Sbox(x) exactly if y is the inverse of x in the field; for 0 it is 0. */
  lemma SboxIs(x: bv8, y: bv8)
    ensures x == 0 ==> (Sbox(x) == Affine(y) <==> y == 0) && Sbox(x) == 0x63
    ensures x != 0 ==> (Sbox(x) == Affine(y) <==> Times(x, y) == 1)
  {
    hide *;
    AffineUndone(y);
    AffineUndone(0);
    AffineOfZero();
    SixteenRows(x);
    var h := x >> 4;
    if x == 0 {
    } else if h == 0 {
      Case0(x, y);
    } else if h == 1 {
      Case1(x, y);
    } else if h == 2 {
      Case2(x, y);
    } else if h == 3 {
      Case3(x, y);
    } else if h == 4 {
      Case4(x, y);
    } else if h == 5 {
      Case5(x, y);
    } else if h == 6 {
      Case6(x, y);
    } else if h == 7 {
      Case7(x, y);
    } else if h == 8 {
      Case8(x, y);
    } else if h == 9 {
      Case9(x, y);
    } else if h == 10 {
      CaseA(x, y);
    } else if h == 11 {
      CaseB(x, y);
    } else if h == 12 {
      CaseC(x, y);
    } else if h == 13 {
      CaseD(x, y);
    } else if h == 14 {
      CaseE(x, y);
    } else {
      CaseF(x, y);
    }
  }

  lemma SixteenRows(x: bv8)
    ensures x >> 4 < 16
  {
  }

  lemma AffineOfZero()
    ensures Affine(0) == 0x63 && Sbox(0) == 0x63
  {
  }

  /** The multiplications of the column steps are products in the field. */
  lemma MultiplyIsTimes(x: bv8, n: bv8)
    requires n < 32
    ensures Multiply(x, n) == Times(x, n)
  {
    hide *;
    var x1 := Xtime(x);
    var x2 := Xtime(x1);
    var x3 := Xtime(x2);
    var x4 := Xtime(x3);
    MultiplyIs(x, n, x1, x2, x3, x4);
    TimesIs(x, n);
    NoBits(n, Xtime(x4), Xtime(Xtime(x4)), Xtime(Xtime(Xtime(x4))));
    NothingAdded(Sum(BitTimes(n, x), BitTimes(n >> 1, x1), BitTimes(n >> 2, x2), BitTimes(n >> 3, x3)), BitTimes(n >> 4, x4));
  }

  lemma TimesIs(x: bv8, y: bv8)
    ensures var x1 := Xtime(x); var x2 := Xtime(x1); var x3 := Xtime(x2); var x4 := Xtime(x3);
            Times(x, y) ==
            Add(Sum(Sum(BitTimes(y, x), BitTimes(y >> 1, x1), BitTimes(y >> 2, x2), BitTimes(y >> 3, x3)),
                    BitTimes(y >> 4, x4), BitTimes(y >> 5, Xtime(x4)), BitTimes(y >> 6, Xtime(Xtime(x4)))),
                BitTimes(y >> 7, Xtime(Xtime(Xtime(x4)))))
  {
    hide Add, Sum, BitTimes, Xtime;
  }

  lemma NoBits(n: bv8, x: bv8, y: bv8, z: bv8)
    requires n < 32
    ensures BitTimes(n >> 5, x) == 0 && BitTimes(n >> 6, y) == 0 && BitTimes(n >> 7, z) == 0
  {
  }

  lemma NothingAdded(s: bv8, b: bv8)
    ensures Add(Sum(s, b, 0, 0), 0) == Add(s, b)
  {
  }
}
