/** The cipher on 128-bit registers: each step takes the register of a block to the register of the
    stepped block, so that the whole is the reference cipher. */
module AesSseCipher {
  import opened AesField
  import opened AesTables
  import opened AesCipher
  import opened AesKeys
  import opened AesSse

  /** A register that holds the block s: four little-endian words. */
  function Register(s: seq<bv8>): (x: seq<bv32>)
    requires Block(s)
    ensures |x| == 4 && forall c :: 0 <= c < 4 ==> x[c] == Load(s, c)
  {
    [Load(s, 0), Load(s, 1), Load(s, 2), Load(s, 3)]
  }

  lemma RegisterIs(s: seq<bv8>, x: seq<bv32>)
    requires Block(s) && |x| == 4
    requires x[0] == Load(s, 0) && x[1] == Load(s, 1) && x[2] == Load(s, 2) && x[3] == Load(s, 3)
    ensures x == Register(s)
  {
    hide Load;
  }

  lemma LoadPacks(s: seq<bv8>, c: nat)
    requires 4 * c + 4 <= |s|
    ensures Load(s, c) == Pack(WordAt(s, c))
  {
    hide Pack;
  }

  // ---- Columns.

  function TimesWord(w: Word, n: bv8): Word {
    Word(Multiply(w.b0, n), Multiply(w.b1, n), Multiply(w.b2, n), Multiply(w.b3, n))
  }

  function MixWord(w: Word): Word {
    Word(Mix(w.b0, w.b1, w.b2, w.b3), Mix(w.b1, w.b2, w.b3, w.b0),
         Mix(w.b2, w.b3, w.b0, w.b1), Mix(w.b3, w.b0, w.b1, w.b2))
  }

  function InvMixWord(w: Word): Word {
    Word(InvMix(w.b0, w.b1, w.b2, w.b3), InvMix(w.b1, w.b2, w.b3, w.b0),
         InvMix(w.b2, w.b3, w.b0, w.b1), InvMix(w.b3, w.b0, w.b1, w.b2))
  }

  function LowLane(x: bv32): bv16 {
    (x & 0xffff) as bv16
  }

  function HighLane(x: bv32): bv16 {
    (x >> 16) as bv16
  }

  function Lanes(lo: bv16, hi: bv16): bv32 {
    (lo as bv32) | ((hi as bv32) << 16)
  }

  lemma LanesOf(x: bv32)
    ensures var w := Unpack(x); LowLane(x) == Lane(w.b0, w.b1) && HighLane(x) == Lane(w.b2, w.b3)
  {
  }

  lemma LanesPacked(b0: bv8, b1: bv8, b2: bv8, b3: bv8)
    ensures Lanes(Lane(b0, b1), Lane(b2, b3)) == Pack(Word(b0, b1, b2, b3))
  {
    hide *;
    var w := Word(b0, b1, b2, b3);
    UnpackPack(w);
    LanesOf(Pack(w));
    LanesJoin(Pack(w));
  }

  lemma LanesJoin(x: bv32)
    ensures Lanes(LowLane(x), HighLane(x)) == x
  {
  }

  /** The product of the four bytes of a column with a number of four bits. */
  method Mul(data: bv32, n: bv8, ghost w: Word) returns (r: bv32)
    requires data == Pack(w) && n < 16
    ensures r == Pack(TimesWord(w, n))
  {
    hide Pack, Unpack, LowLane, HighLane, Lanes, Lane, Multiply;
    UnpackPack(w);
    LanesOf(data);
    LanesPacked(Multiply(w.b0, n), Multiply(w.b1, n), Multiply(w.b2, n), Multiply(w.b3, n));
    var lo := MulLane(LowLane(data), n, w.b0, w.b1);
    var hi := MulLane(HighLane(data), n, w.b2, w.b3);
    r := Lanes(lo, hi);
  }

  lemma CrossSum(p: bv8, q: bv8, r: bv8, s: bv8)
    ensures Add(Add(p, s), Add(r, q)) == Sum(p, q, r, s)
  {
    hide *;
    SumIs(p, q, r, s);
    AddCommutes(r, q);
    AddExchange(p, s, q, r);
    AddCommutes(s, r);
  }

  /** The four rotated products of a column, added up. */
  lemma ColumnSum(w: Word, e: bv8, b: bv8, d: bv8, n: bv8)
    ensures AddWords(AddWords(TimesWord(w, e), RotWord(RotWord(RotWord(TimesWord(w, n))))),
                     AddWords(RotWord(RotWord(TimesWord(w, d))), RotWord(TimesWord(w, b)))) ==
            Word(Sum(Multiply(w.b0, e), Multiply(w.b1, b), Multiply(w.b2, d), Multiply(w.b3, n)),
                 Sum(Multiply(w.b1, e), Multiply(w.b2, b), Multiply(w.b3, d), Multiply(w.b0, n)),
                 Sum(Multiply(w.b2, e), Multiply(w.b3, b), Multiply(w.b0, d), Multiply(w.b1, n)),
                 Sum(Multiply(w.b3, e), Multiply(w.b0, b), Multiply(w.b1, d), Multiply(w.b2, n)))
  {
    hide Multiply, Add, Sum;
    CrossSum(Multiply(w.b0, e), Multiply(w.b1, b), Multiply(w.b2, d), Multiply(w.b3, n));
    CrossSum(Multiply(w.b1, e), Multiply(w.b2, b), Multiply(w.b3, d), Multiply(w.b0, n));
    CrossSum(Multiply(w.b2, e), Multiply(w.b3, b), Multiply(w.b0, d), Multiply(w.b1, n));
    CrossSum(Multiply(w.b3, e), Multiply(w.b0, b), Multiply(w.b1, d), Multiply(w.b2, n));
  }

  lemma TimesOne(w: Word)
    ensures TimesWord(w, 1) == w
  {
    OneTimes(w.b0);
    OneTimes(w.b1);
    OneTimes(w.b2);
    OneTimes(w.b3);
    hide Multiply;
  }

  lemma OneTimes(x: bv8)
    ensures Multiply(x, 1) == x
  {
  }

  lemma MixWordIs(w: Word)
    ensures MixWord(w) == AddWords(AddWords(TimesWord(w, 2), RotWord(RotWord(RotWord(w)))),
                                   AddWords(RotWord(RotWord(w)), RotWord(TimesWord(w, 3))))
  {
    hide Multiply, AddWords, RotWord, Sum;
    TimesOne(w);
    ColumnSum(w, 2, 3, 1, 1);
    OneTimes(w.b0);
    OneTimes(w.b1);
    OneTimes(w.b2);
    OneTimes(w.b3);
  }

  method MixColumn(data: bv32, ghost w: Word) returns (r: bv32)
    requires data == Pack(w)
    ensures r == Pack(MixWord(w))
  {
    hide *;
    var a0 := Mul(data, 2, w);
    var a3 := Mul(data, 3, w);
    r := AddRotated(a0, data, data, a3, TimesWord(w, 2), w, w, TimesWord(w, 3));
    MixWordIs(w);
  }

  /** Rotate the terms of a column into place and add them. */
  method AddRotated(a0: bv32, a1: bv32, a2: bv32, a3: bv32, ghost w0: Word, ghost w1: Word, ghost w2: Word, ghost w3: Word)
    returns (r: bv32)
    requires a0 == Pack(w0) && a1 == Pack(w1) && a2 == Pack(w2) && a3 == Pack(w3)
    ensures r == Pack(AddWords(AddWords(w0, RotWord(RotWord(RotWord(w1)))), AddWords(RotWord(RotWord(w2)), RotWord(w3))))
  {
    hide Pack, RotRight, Xor, AddWords;
    RotPacked(w1);
    RotPacked(w2);
    RotPacked(w3);
    XorPacked(w0, RotWord(RotWord(RotWord(w1))));
    XorPacked(RotWord(RotWord(w2)), RotWord(w3));
    XorPacked(AddWords(w0, RotWord(RotWord(RotWord(w1)))), AddWords(RotWord(RotWord(w2)), RotWord(w3)));
    r := Xor(Xor(a0, RotRight(a1, 24)), Xor(RotRight(a2, 16), RotRight(a3, 8)));
  }

  lemma InvMixWordIs(w: Word)
    ensures InvMixWord(w) == AddWords(AddWords(TimesWord(w, 0x0e), RotWord(RotWord(RotWord(TimesWord(w, 0x09))))),
                                      AddWords(RotWord(RotWord(TimesWord(w, 0x0d))), RotWord(TimesWord(w, 0x0b))))
  {
    hide Multiply, AddWords, RotWord, Sum;
    ColumnSum(w, 0x0e, 0x0b, 0x0d, 0x09);
  }

  method InvMixColumn(data: bv32, ghost w: Word) returns (r: bv32)
    requires data == Pack(w)
    ensures r == Pack(InvMixWord(w))
  {
    hide *;
    var a0 := Mul(data, 0x0e, w);
    var a1 := Mul(data, 0x09, w);
    var a2 := Mul(data, 0x0d, w);
    var a3 := Mul(data, 0x0b, w);
    r := AddRotated(a0, a1, a2, a3, TimesWord(w, 0x0e), TimesWord(w, 0x09), TimesWord(w, 0x0d), TimesWord(w, 0x0b));
    InvMixWordIs(w);
  }

  // ---- Rows.

  /** A byte of each of four words. */
  function Pick(x0: bv32, x1: bv32, x2: bv32, x3: bv32): bv32 {
    ((x0 & 0x000000ff) | (x1 & 0x0000ff00)) | ((x2 & 0x00ff0000) | (x3 & 0xff000000))
  }

  lemma PickIs(x0: bv32, x1: bv32, x2: bv32, x3: bv32)
    ensures Pick(x0, x1, x2, x3) == Pack(Word(Unpack(x0).b0, Unpack(x1).b1, Unpack(x2).b2, Unpack(x3).b3))
  {
  }

  /** The words of the register, rotated and masked. */
  function ShiftRegister(x: seq<bv32>): (r: seq<bv32>)
    requires |x| == 4
  {
    [Pick(x[0], x[1], x[2], x[3]), Pick(x[1], x[2], x[3], x[0]),
     Pick(x[2], x[3], x[0], x[1]), Pick(x[3], x[0], x[1], x[2])]
  }

  function InvShiftRegister(x: seq<bv32>): (r: seq<bv32>)
    requires |x| == 4
  {
    [Pick(x[0], x[3], x[2], x[1]), Pick(x[1], x[0], x[3], x[2]),
     Pick(x[2], x[1], x[0], x[3]), Pick(x[3], x[2], x[1], x[0])]
  }

  lemma PickLoads(s: seq<bv8>, c0: nat, c1: nat, c2: nat, c3: nat)
    requires Block(s) && c0 < 4 && c1 < 4 && c2 < 4 && c3 < 4
    ensures Pick(Load(s, c0), Load(s, c1), Load(s, c2), Load(s, c3)) ==
            Pack(Word(s[4 * c0], s[4 * c1 + 1], s[4 * c2 + 2], s[4 * c3 + 3]))
  {
    hide Pick, Pack, Unpack;
    PickIs(Load(s, c0), Load(s, c1), Load(s, c2), Load(s, c3));
    UnpackPack(WordAt(s, c0));
    UnpackPack(WordAt(s, c1));
    UnpackPack(WordAt(s, c2));
    UnpackPack(WordAt(s, c3));
  }

  lemma ShiftedWords(s: seq<bv8>)
    requires Block(s)
    ensures WordAt(ShiftRows(s), 0) == Word(s[0], s[5], s[10], s[15])
    ensures WordAt(ShiftRows(s), 1) == Word(s[4], s[9], s[14], s[3])
    ensures WordAt(ShiftRows(s), 2) == Word(s[8], s[13], s[2], s[7])
    ensures WordAt(ShiftRows(s), 3) == Word(s[12], s[1], s[6], s[11])
  {
  }

  lemma UnshiftedWords(s: seq<bv8>)
    requires Block(s)
    ensures WordAt(InvShiftRows(s), 0) == Word(s[0], s[13], s[10], s[7])
    ensures WordAt(InvShiftRows(s), 1) == Word(s[4], s[1], s[14], s[11])
    ensures WordAt(InvShiftRows(s), 2) == Word(s[8], s[5], s[2], s[15])
    ensures WordAt(InvShiftRows(s), 3) == Word(s[12], s[9], s[6], s[3])
  {
  }

  lemma ShiftRegisterIs(s: seq<bv8>)
    requires Block(s)
    ensures ShiftRegister(Register(s)) == Register(ShiftRows(s))
  {
    hide Pick, Pack, ShiftRows;
    ShiftedWords(s);
    PickLoads(s, 0, 1, 2, 3);
    PickLoads(s, 1, 2, 3, 0);
    PickLoads(s, 2, 3, 0, 1);
    PickLoads(s, 3, 0, 1, 2);
  }

  lemma InvShiftRegisterIs(s: seq<bv8>)
    requires Block(s)
    ensures InvShiftRegister(Register(s)) == Register(InvShiftRows(s))
  {
    hide Pick, Pack, InvShiftRows;
    UnshiftedWords(s);
    PickLoads(s, 0, 3, 2, 1);
    PickLoads(s, 1, 0, 3, 2);
    PickLoads(s, 2, 1, 0, 3);
    PickLoads(s, 3, 2, 1, 0);
  }

  // ---- The steps on a register.

  lemma WordOf(s: seq<bv8>, c: nat)
    requires Block(s) && c < 4
    ensures WordAt(SubBytes(s), c) == SubWord(WordAt(s, c))
    ensures WordAt(InvSubBytes(s), c) == InvSubWord(WordAt(s, c))
  {
    hide Sbox, Rsbox;
  }

  function InvSubWord(w: Word): Word {
    Word(Rsbox(w.b0), Rsbox(w.b1), Rsbox(w.b2), Rsbox(w.b3))
  }

  function InvSubPacked(x: bv32): bv32 {
    var w := Unpack(x);
    Pack(Word(Rsbox(w.b0), Rsbox(w.b1), Rsbox(w.b2), Rsbox(w.b3)))
  }

  lemma InvSubPackedIs(w: Word)
    ensures InvSubPacked(Pack(w)) == Pack(InvSubWord(w))
  {
    hide Rsbox, Pack, Unpack;
    UnpackPack(w);
  }

  function SubRegister(x: seq<bv32>): (r: seq<bv32>)
    requires |x| == 4
    ensures |r| == 4 && forall c :: 0 <= c < 4 ==> r[c] == SubPacked(x[c])
  {
    [SubPacked(x[0]), SubPacked(x[1]), SubPacked(x[2]), SubPacked(x[3])]
  }

  function InvSubRegister(x: seq<bv32>): (r: seq<bv32>)
    requires |x| == 4
    ensures |r| == 4 && forall c :: 0 <= c < 4 ==> r[c] == InvSubPacked(x[c])
  {
    [InvSubPacked(x[0]), InvSubPacked(x[1]), InvSubPacked(x[2]), InvSubPacked(x[3])]
  }

  lemma SubRegisterIs(s: seq<bv8>)
    requires Block(s)
    ensures SubRegister(Register(s)) == Register(SubBytes(s))
    ensures InvSubRegister(Register(s)) == Register(InvSubBytes(s))
  {
    hide SubPacked, InvSubPacked, Register, SubRegister, InvSubRegister, SubBytes, InvSubBytes, Load, SubWord, InvSubWord, WordAt;
    forall c | 0 <= c < 4
      ensures SubRegister(Register(s))[c] == Load(SubBytes(s), c)
      ensures InvSubRegister(Register(s))[c] == Load(InvSubBytes(s), c)
    {
      LoadPacks(s, c);
      LoadPacks(SubBytes(s), c);
      LoadPacks(InvSubBytes(s), c);
      WordOf(s, c);
      SubPackedIs(WordAt(s, c));
      InvSubPackedIs(WordAt(s, c));
    }
    RegisterIs(SubBytes(s), SubRegister(Register(s)));
    RegisterIs(InvSubBytes(s), InvSubRegister(Register(s)));
  }

  function XorRegister(x: seq<bv32>, y: seq<bv32>): (r: seq<bv32>)
    requires |x| == |y| == 4
    ensures |r| == 4 && forall c :: 0 <= c < 4 ==> r[c] == Xor(x[c], y[c])
  {
    [Xor(x[0], y[0]), Xor(x[1], y[1]), Xor(x[2], y[2]), Xor(x[3], y[3])]
  }

  lemma WordOfSum(s: seq<bv8>, t: seq<bv8>, c: nat)
    requires Block(s) && Block(t) && c < 4
    ensures WordAt(AddBlocks(s, t), c) == AddWords(WordAt(s, c), WordAt(t, c))
  {
    hide Add;
  }

  lemma XorRegisterIs(s: seq<bv8>, t: seq<bv8>)
    requires Block(s) && Block(t)
    ensures XorRegister(Register(s), Register(t)) == Register(AddBlocks(s, t))
  {
    hide Xor, Register, XorRegister, AddBlocks, Load, AddWords, WordAt;
    forall c | 0 <= c < 4
      ensures XorRegister(Register(s), Register(t))[c] == Load(AddBlocks(s, t), c)
    {
      LoadPacks(s, c);
      LoadPacks(t, c);
      LoadPacks(AddBlocks(s, t), c);
      WordOfSum(s, t, c);
      XorPacked(WordAt(s, c), WordAt(t, c));
    }
    RegisterIs(AddBlocks(s, t), XorRegister(Register(s), Register(t)));
  }

  lemma WordOfMix(s: seq<bv8>, c: nat)
    requires Block(s) && c < 4
    ensures WordAt(MixColumns(s), c) == MixWord(WordAt(s, c))
    ensures WordAt(InvMixColumns(s), c) == InvMixWord(WordAt(s, c))
  {
    hide Mix, InvMix, Below;
    BelowAt(c);
  }

  method MixRegister(x: seq<bv32>, ghost s: seq<bv8>) returns (r: seq<bv32>)
    requires Block(s) && |x| == 4 && x == Register(s)
    ensures r == Register(MixColumns(s))
  {
    hide Pack, Load, WordAt, MixWord, MixColumns, MixAt;
    ColumnsOf(s);
    var c0 := MixColumn(x[0], WordAt(s, 0));
    var c1 := MixColumn(x[1], WordAt(s, 1));
    var c2 := MixColumn(x[2], WordAt(s, 2));
    var c3 := MixColumn(x[3], WordAt(s, 3));
    r := [c0, c1, c2, c3];
  }

  lemma ColumnsOf(s: seq<bv8>)
    requires Block(s)
    ensures forall c :: 0 <= c < 4 ==> Load(s, c) == Pack(WordAt(s, c))
    ensures forall c :: 0 <= c < 4 ==> Load(MixColumns(s), c) == Pack(MixWord(WordAt(s, c)))
    ensures forall c :: 0 <= c < 4 ==> Load(InvMixColumns(s), c) == Pack(InvMixWord(WordAt(s, c)))
  {
    hide Pack, Load, WordAt, MixWord, InvMixWord, MixColumns, InvMixColumns, MixAt, InvMixAt;
    forall c | 0 <= c < 4
      ensures Load(s, c) == Pack(WordAt(s, c))
      ensures Load(MixColumns(s), c) == Pack(MixWord(WordAt(s, c)))
      ensures Load(InvMixColumns(s), c) == Pack(InvMixWord(WordAt(s, c)))
    {
      LoadPacks(s, c);
      LoadPacks(MixColumns(s), c);
      LoadPacks(InvMixColumns(s), c);
      WordOfMix(s, c);
    }
  }

  method InvMixRegister(x: seq<bv32>, ghost s: seq<bv8>) returns (r: seq<bv32>)
    requires Block(s) && |x| == 4 && x == Register(s)
    ensures r == Register(InvMixColumns(s))
  {
    hide Pack, Load, WordAt, InvMixWord, InvMixColumns, InvMixAt;
    ColumnsOf(s);
    var c0 := InvMixColumn(x[0], WordAt(s, 0));
    var c1 := InvMixColumn(x[1], WordAt(s, 1));
    var c2 := InvMixColumn(x[2], WordAt(s, 2));
    var c3 := InvMixColumn(x[3], WordAt(s, 3));
    r := [c0, c1, c2, c3];
  }

  // ---- The cipher on a register.

  /** The words w hold the round keys rk. */
  ghost predicate Holds(w: seq<bv32>, rk: seq<bv8>, nr: nat) {
    && nr > 0 && |rk| >= 16 * (nr + 1) && |w| >= 4 * (nr + 1)
    && forall m :: 0 <= m < 4 * (nr + 1) ==> w[m] == Load(rk, m)
  }

  function RoundKey(w: seq<bv32>, i: nat): (x: seq<bv32>)
    requires 4 * i + 4 <= |w|
    ensures |x| == 4
  {
    w[4 * i..4 * i + 4]
  }

  lemma RoundKeyIs(w: seq<bv32>, rk: seq<bv8>, nr: nat, i: nat)
    requires Holds(w, rk, nr) && i <= nr
    ensures 4 * i + 4 <= |w| && |rk| >= 16 * (nr + 1) && Schedule(rk, nr)
    ensures RoundKey(w, i) == Register(Key(rk, i))
  {
    hide Load, Register;
    forall c | 0 <= c < 4
      ensures RoundKey(w, i)[c] == Load(Key(rk, i), c)
    {
      LoadOfKey(rk, i, c);
    }
    RegisterIs(Key(rk, i), RoundKey(w, i));
  }

  lemma LoadOfKey(rk: seq<bv8>, i: nat, c: nat)
    requires |rk| >= 16 * (i + 1) && c < 4
    ensures Load(Key(rk, i), c) == Load(rk, 4 * i + c)
  {
    hide Pack;
  }

  lemma RoundsStep(s: seq<bv8>, rk: seq<bv8>, n: nat)
    requires Block(s) && |rk| >= 16 * (n + 1)
    ensures n == 0 ==> Rounds(s, rk, 0) == AddBlocks(s, Key(rk, 0))
    ensures n > 0 ==> Rounds(s, rk, n) == AddBlocks(MixColumns(ShiftRows(SubBytes(Rounds(s, rk, n - 1)))), Key(rk, n))
  {
    hide SubBytes, ShiftRows, MixColumns, AddBlocks, Key;
  }

  lemma CipherIs(s: seq<bv8>, rk: seq<bv8>, nr: nat)
    requires Block(s) && Schedule(rk, nr)
    ensures nr > 0 && Cipher(s, rk, nr) == AddBlocks(ShiftRows(SubBytes(Rounds(s, rk, nr - 1))), Key(rk, nr))
  {
    hide SubBytes, ShiftRows, AddBlocks, Key, Rounds;
  }

  method CipherRegister(w: seq<bv32>, nr: nat, x: seq<bv32>, ghost s: seq<bv8>, ghost rk: seq<bv8>) returns (data: seq<bv32>)
    requires Holds(w, rk, nr) && Block(s) && |x| == 4 && x == Register(s) && nr > 1
    ensures Schedule(rk, nr) && data == Register(Cipher(s, rk, nr))
  {
    hide *;
    RoundKeyIs(w, rk, nr, 0);
    RoundsStep(s, rk, 0);
    XorRegisterIs(s, Key(rk, 0));
    var i := 0;
    data := XorRegister(x, RoundKey(w, i));
    i := i + 1;
    while true
      invariant 1 <= i < nr && data == Register(Rounds(s, rk, i - 1))
      decreases nr - i
    {
      ghost var b := Rounds(s, rk, i - 1);
      SubRegisterIs(b);
      ShiftRegisterIs(SubBytes(b));
      data := MixRegister(ShiftRegister(SubRegister(data)), ShiftRows(SubBytes(b)));
      RoundKeyIs(w, rk, nr, i);
      XorRegisterIs(MixColumns(ShiftRows(SubBytes(b))), Key(rk, i));
      RoundsStep(s, rk, i);
      data := XorRegister(data, RoundKey(w, i));
      i := i + 1;
      if i >= nr { break; }
    }
    ghost var b := Rounds(s, rk, nr - 1);
    SubRegisterIs(b);
    ShiftRegisterIs(SubBytes(b));
    RoundKeyIs(w, rk, nr, nr);
    XorRegisterIs(ShiftRows(SubBytes(b)), Key(rk, nr));
    CipherIs(s, rk, nr);
    data := XorRegister(ShiftRegister(SubRegister(data)), RoundKey(w, i));
  }

  method InvCipherRegister(w: seq<bv32>, nr: nat, x: seq<bv32>, ghost s: seq<bv8>, ghost rk: seq<bv8>) returns (data: seq<bv32>)
    requires Holds(w, rk, nr) && Block(s) && |x| == 4 && x == Register(s) && nr > 1
    ensures Schedule(rk, nr) && data == Register(InvCipher(s, rk, nr))
  {
    hide *;
    RoundKeyIs(w, rk, nr, nr);
    InvRoundsStep(s, rk, nr, 0);
    XorRegisterIs(s, Key(rk, nr));
    var i := nr;
    data := XorRegister(x, RoundKey(w, i));
    i := i - 1;
    while true
      invariant 0 < i < nr && data == Register(InvRounds(s, rk, nr, i))
      decreases i
    {
      ghost var b := InvRounds(s, rk, nr, i);
      InvShiftRegisterIs(b);
      SubRegisterIs(InvShiftRows(b));
      RoundKeyIs(w, rk, nr, i);
      ghost var t := InvSubBytes(InvShiftRows(b));
      XorRegisterIs(t, Key(rk, i));
      data := XorRegister(InvSubRegister(InvShiftRegister(data)), RoundKey(w, i));
      data := InvMixRegister(data, AddBlocks(t, Key(rk, i)));
      InvRoundsStep(s, rk, nr, i);
      i := i - 1;
      if i <= 0 { break; }
    }
    ghost var b := InvRounds(s, rk, nr, 0);
    InvShiftRegisterIs(b);
    SubRegisterIs(InvShiftRows(b));
    RoundKeyIs(w, rk, nr, 0);
    XorRegisterIs(InvSubBytes(InvShiftRows(b)), Key(rk, 0));
    data := XorRegister(InvSubRegister(InvShiftRegister(data)), RoundKey(w, i));
  }

  /** What the expansions leave behind is one schedule: the words hold the bytes. */
  lemma ExpansionsAgree(rk: seq<bv8>, w: seq<bv32>, key: seq<bv8>, nk: nat)
    requires 0 < nk && 4 * nk <= |key|
    requires Schedules(rk, key, nk, 4 * (nk + 7)) && SchedulesWords(w, key, nk, 4 * (nk + 7))
    ensures Holds(w, rk, nk + 6)
  {
    hide Pack, Unpack, Expanded, WordAt;
    forall m | 0 <= m < 4 * (nk + 7)
      ensures w[m] == Load(rk, m)
    {
      SameSchedule(rk, w, key, nk, 4 * (nk + 7), m);
      PackUnpack(w[m]);
      LoadPacks(rk, m);
    }
  }
}
