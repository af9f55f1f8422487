/** The encryption key schedule in registers of four words, against the key expansion on words. */
module AesNiKeys {
  import opened AesField
  import opened AesTables
  import opened AesCipher
  import opened AesKeys
  import AesNi

  datatype Register = Register(w0: Word, w1: Word, w2: Word, w3: Word)

  const ZERO: Word := Word(0, 0, 0, 0)

  // ---- The instructions.

  function Xor(r: Register, s: Register): Register {
    Register(AddWords(r.w0, s.w0), AddWords(r.w1, s.w1), AddWords(r.w2, s.w2), AddWords(r.w3, s.w3))
  }

  /** _mm_slli_si128 by 4 bytes. */
  function Slli4(r: Register): Register {
    Register(ZERO, r.w0, r.w1, r.w2)
  }

  /** _mm_shuffle_epi32 with one word for all. */
  function Spread(w: Word): Register {
    Register(w, w, w, w)
  }

  /** _mm_aeskeygenassist_si128. */
  function Assist(r: Register, rcon: bv8): Register {
    var c := Word(rcon, 0, 0, 0);
    Register(SubWord(r.w1), AddWords(RotWord(SubWord(r.w1)), c), SubWord(r.w3), AddWords(RotWord(SubWord(r.w3)), c))
  }

  /** _mm_shuffle_pd: a half of r, and the low half of s. */
  function Halves(r: Register, s: Register, high: bool): Register {
    Register(if high then r.w2 else r.w0, if high then r.w3 else r.w1, s.w0, s.w1)
  }

  // ---- The steps.

  function Expand(r: Register): Register {
    var r1 := Xor(r, Slli4(r));
    var r2 := Xor(r1, Slli4(r1));
    Xor(r2, Slli4(r2))
  }

  function Expand128(r: Register, rcon: bv8): Register {
    Xor(Expand(r), Spread(Assist(r, rcon).w3))
  }

  function Expand192(r: Register, s: Register, rcon: bv8): Register {
    Xor(Expand(r), Spread(Assist(s, rcon).w1))
  }

  function Rest192(r: Register, s: Register): Register {
    Xor(Spread(r.w3), Xor(s, Slli4(s)))
  }

  function Expand256(r: Register, s: Register, rcon: bv8): Register {
    Xor(Expand(r), Spread(Assist(s, rcon).w3))
  }

  function Rest256(r: Register, s: Register): Register {
    Xor(Expand(r), Spread(Assist(s, 0).w2))
  }

  // ---- Addition of words.

  lemma AddWordsLaws(x: Word, y: Word, z: Word)
    ensures AddWords(AddWords(x, y), z) == AddWords(x, AddWords(y, z)) && AddWords(x, y) == AddWords(y, x)
    ensures AddWords(x, ZERO) == x
  {
    hide Add;
    AddAssociates(x.b0, y.b0, z.b0);
    AddAssociates(x.b1, y.b1, z.b1);
    AddAssociates(x.b2, y.b2, z.b2);
    AddAssociates(x.b3, y.b3, z.b3);
    AddCommutes(x.b0, y.b0);
    AddCommutes(x.b1, y.b1);
    AddCommutes(x.b2, y.b2);
    AddCommutes(x.b3, y.b3);
    AddZero(x.b0);
    AddZero(x.b1);
    AddZero(x.b2);
    AddZero(x.b3);
  }

  /** Shifting and adding three times leaves the running sums. */
  lemma ExpandIs(r: Register)
    ensures Expand(r) ==
            Register(r.w0, AddWords(r.w0, r.w1), AddWords(AddWords(r.w0, r.w1), r.w2),
                     AddWords(AddWords(AddWords(r.w0, r.w1), r.w2), r.w3))
  {
    hide AddWords;
    var (a, b, c, d) := (r.w0, r.w1, r.w2, r.w3);
    AddWordsLaws(a, b, c);
    AddWordsLaws(a, ZERO, a);
    AddWordsLaws(b, a, b);
    AddWordsLaws(AddWords(b, a), ZERO, a);
    FourSums(a, b, c, d);
  }

  /** What the three steps do to the third and the fourth word. */
  lemma FourSums(a: Word, b: Word, c: Word, d: Word)
    ensures AddWords(b, a) == AddWords(a, b)
    ensures var (x, y, z) := (AddWords(b, a), AddWords(c, b), AddWords(d, c));
            && AddWords(AddWords(x, a), a) == AddWords(b, a)
            && AddWords(AddWords(y, x), AddWords(x, a)) == AddWords(AddWords(a, b), c)
            && AddWords(AddWords(z, y), AddWords(y, x)) == AddWords(AddWords(AddWords(a, b), c), d)
  {
    hide Add;
    FourBytes(a.b0, b.b0, c.b0, d.b0);
    FourBytes(a.b1, b.b1, c.b1, d.b1);
    FourBytes(a.b2, b.b2, c.b2, d.b2);
    FourBytes(a.b3, b.b3, c.b3, d.b3);
  }

  lemma FourBytes(a: bv8, b: bv8, c: bv8, d: bv8)
    ensures Add(b, a) == Add(a, b)
    ensures var (x, y, z) := (Add(b, a), Add(c, b), Add(d, c));
            && Add(Add(x, a), a) == Add(b, a)
            && Add(Add(y, x), Add(x, a)) == Add(Add(a, b), c)
            && Add(Add(z, y), Add(y, x)) == Add(Add(Add(a, b), c), d)
  {
    hide *;
    AddCommutes(b, a);
    AddTwice(b, a);
    AddTwice(Add(b, a), a);
    AddAcross(c, b, a);
    AddAcross(d, c, b);
    AddAssociates(c, a, b);
    AddCommutes(c, Add(a, b));
    AddAssociates(d, b, Add(c, a));
    AddCommutes(b, Add(c, a));
    AddCommutes(d, Add(Add(a, b), c));
  }

  lemma AddAcross(x: bv8, y: bv8, z: bv8)
    ensures Add(Add(x, y), Add(y, z)) == Add(x, z)
  {
    hide *;
    AddAssociates(x, y, Add(y, z));
    AddCommutes(y, z);
    AddCommutes(y, Add(z, y));
    AddTwice(z, y);
  }

  // ---- The registers of the schedule.

  /** Words i to i + 3 of the schedule. */
  function RegisterAt(key: seq<bv8>, nk: nat, i: nat): Register
    requires 0 < nk && 4 * nk <= |key|
  {
    Register(Expanded(key, nk, i), Expanded(key, nk, i + 1), Expanded(key, nk, i + 2), Expanded(key, nk, i + 3))
  }

  lemma RotSub(w: Word)
    ensures RotWord(SubWord(w)) == SubWord(RotWord(w))
  {
    hide Sbox;
  }

  /** Four words that follow by the recurrence without a transformation, but for the first. */
  lemma FourWords(r: Register, t: Word, n0: Word, n1: Word, n2: Word, n3: Word)
    requires n0 == AddWords(r.w0, t) && n1 == AddWords(r.w1, n0) && n2 == AddWords(r.w2, n1) && n3 == AddWords(r.w3, n2)
    ensures Xor(Expand(r), Spread(t)) == Register(n0, n1, n2, n3)
  {
    hide AddWords, Expand;
    ExpandIs(r);
    var (a, b, c, d) := (r.w0, r.w1, r.w2, r.w3);
    var ab := AddWords(a, b);
    var abc := AddWords(ab, c);
    AddWordsLaws(b, a, t);
    AddWordsLaws(c, ab, t);
    AddWordsLaws(d, abc, t);
  }

  /** A plain word of the schedule. */
  lemma PlainWord(key: seq<bv8>, nk: nat, i: nat)
    requires 0 < nk && 4 * nk <= |key| && nk <= i && i % nk != 0 && !(nk > 6 && i % nk == 4)
    ensures Expanded(key, nk, i) == AddWords(Expanded(key, nk, i - nk), Expanded(key, nk, i - 1))
  {
    ExpandedIs(key, nk, i);
    hide Expanded;
  }

  /** A word at the start of a round of the key, with its constant. */
  lemma FirstWord(key: seq<bv8>, nk: nat, i: nat, rcon: bv8)
    requires 0 < nk && 4 * nk <= |key| && nk <= i && i % nk == 0 && i / nk >= 1 && rcon == Power(i / nk - 1)
    ensures var w := Expanded(key, nk, i - 1);
            Expanded(key, nk, i) == AddWords(Expanded(key, nk, i - nk), AddWords(RotWord(SubWord(w)), Word(rcon, 0, 0, 0)))
  {
    ExpandedIs(key, nk, i);
    RotSub(Expanded(key, nk, i - 1));
    hide Expanded, RotWord, SubWord, AddWords;
  }

  lemma MiddleWord(key: seq<bv8>, i: nat)
    requires 32 <= |key| && 8 <= i && i % 8 == 4
    ensures Expanded(key, 8, i) == AddWords(Expanded(key, 8, i - 8), SubWord(Expanded(key, 8, i - 1)))
  {
    ExpandedIs(key, 8, i);
    hide Expanded;
  }

  lemma Step128(key: seq<bv8>, i: nat, n: nat, rcon: bv8)
    requires 16 <= |key| && i == 4 * n && rcon == Power(n)
    ensures Expand128(RegisterAt(key, 4, i), rcon) == RegisterAt(key, 4, i + 4)
  {
    hide Expanded, AddWords, SubWord, RotWord, Power, Expand;
    FirstWord(key, 4, i + 4, rcon);
    PlainWord(key, 4, i + 5);
    PlainWord(key, 4, i + 6);
    PlainWord(key, 4, i + 7);
    var r, s := RegisterAt(key, 4, i), RegisterAt(key, 4, i + 4);
    FourWords(r, Assist(r, rcon).w3, s.w0, s.w1, s.w2, s.w3);
  }

  lemma Step256(key: seq<bv8>, i: nat, n: nat, rcon: bv8)
    requires 32 <= |key| && i == 8 * n && rcon == Power(n)
    ensures Expand256(RegisterAt(key, 8, i), RegisterAt(key, 8, i + 4), rcon) == RegisterAt(key, 8, i + 8)
  {
    hide Expanded, AddWords, SubWord, RotWord, Power, Expand;
    FirstWord(key, 8, i + 8, rcon);
    PlainWord(key, 8, i + 9);
    PlainWord(key, 8, i + 10);
    PlainWord(key, 8, i + 11);
    var r, s := RegisterAt(key, 8, i), RegisterAt(key, 8, i + 8);
    FourWords(r, Assist(RegisterAt(key, 8, i + 4), rcon).w3, s.w0, s.w1, s.w2, s.w3);
  }

  lemma StepRest256(key: seq<bv8>, i: nat, n: nat)
    requires 32 <= |key| && i == 8 * n
    ensures Rest256(RegisterAt(key, 8, i + 4), RegisterAt(key, 8, i + 8)) == RegisterAt(key, 8, i + 12)
  {
    hide Expanded, AddWords, SubWord, RotWord, Power, Expand;
    MiddleWord(key, i + 12);
    PlainWord(key, 8, i + 13);
    PlainWord(key, 8, i + 14);
    PlainWord(key, 8, i + 15);
    var r, s := RegisterAt(key, 8, i + 4), RegisterAt(key, 8, i + 12);
    FourWords(r, Assist(RegisterAt(key, 8, i + 8), 0).w2, s.w0, s.w1, s.w2, s.w3);
  }

  /** The low half of a register has words i and i + 1. */
  ghost predicate LowAt(r: Register, key: seq<bv8>, nk: nat, i: nat)
    requires 0 < nk && 4 * nk <= |key|
  {
    r.w0 == Expanded(key, nk, i) && r.w1 == Expanded(key, nk, i + 1)
  }

  lemma Step192(key: seq<bv8>, i: nat, n: nat, rcon: bv8, s: Register)
    requires 24 <= |key| && i == 6 * n && rcon == Power(n) && LowAt(s, key, 6, i + 4)
    ensures Expand192(RegisterAt(key, 6, i), s, rcon) == RegisterAt(key, 6, i + 6)
  {
    hide Expanded, AddWords, SubWord, RotWord, Power, Expand;
    FirstWord(key, 6, i + 6, rcon);
    PlainWord(key, 6, i + 7);
    PlainWord(key, 6, i + 8);
    PlainWord(key, 6, i + 9);
    var r, t := RegisterAt(key, 6, i), RegisterAt(key, 6, i + 6);
    FourWords(r, Assist(s, rcon).w1, t.w0, t.w1, t.w2, t.w3);
  }

  lemma StepRest192(key: seq<bv8>, i: nat, n: nat, s: Register)
    requires 24 <= |key| && i == 6 * n && LowAt(s, key, 6, i + 4)
    ensures LowAt(Rest192(RegisterAt(key, 6, i + 6), s), key, 6, i + 10)
  {
    hide Expanded, AddWords, SubWord, RotWord, Power;
    PlainWord(key, 6, i + 10);
    PlainWord(key, 6, i + 11);
    var w := Expanded(key, 6, i + 9);
    AddWordsLaws(s.w0, ZERO, w);
    AddWordsLaws(w, s.w0, w);
    AddWordsLaws(s.w1, s.w0, w);
    AddWordsLaws(w, AddWords(s.w1, s.w0), w);
  }

  // ---- Key setup.

  /** The round constants. */
  lemma Powers()
    ensures Power(0) == 1 && Power(1) == 2 && Power(2) == 4 && Power(3) == 8 && Power(4) == 0x10
    ensures Power(5) == 0x20 && Power(6) == 0x40 && Power(7) == 0x80 && Power(8) == 0x1b && Power(9) == 0x36
  {
  }

  function Load(key: seq<bv8>, p: nat): Register
    requires p + 16 <= |key|
  {
    Register(Word(key[p], key[p + 1], key[p + 2], key[p + 3]), Word(key[p + 4], key[p + 5], key[p + 6], key[p + 7]),
             Word(key[p + 8], key[p + 9], key[p + 10], key[p + 11]), Word(key[p + 12], key[p + 13], key[p + 14], key[p + 15]))
  }

  /** The first words are those of the key. */
  lemma Loaded(key: seq<bv8>, nk: nat)
    requires nk in {4, 6, 8} && 4 * nk <= |key|
    ensures Load(key, 0) == RegisterAt(key, nk, 0)
    ensures nk == 8 ==> Load(key, 16) == RegisterAt(key, nk, 4)
  {
  }

  ghost predicate Registers(s: seq<Register>, key: seq<bv8>, nk: nat, n: nat)
    requires 0 < nk && 4 * nk <= |key|
  {
    |s| == n && forall m: nat :: m < n ==> s[m] == RegisterAt(key, nk, 4 * m)
  }

  lemma All11(s: seq<Register>, key: seq<bv8>)
    requires 16 <= |key| && |s| == 11
    requires s[0] == RegisterAt(key, 4, 0) && s[1] == RegisterAt(key, 4, 4)
    requires s[2] == RegisterAt(key, 4, 8) && s[3] == RegisterAt(key, 4, 12)
    requires s[4] == RegisterAt(key, 4, 16) && s[5] == RegisterAt(key, 4, 20)
    requires s[6] == RegisterAt(key, 4, 24) && s[7] == RegisterAt(key, 4, 28)
    requires s[8] == RegisterAt(key, 4, 32) && s[9] == RegisterAt(key, 4, 36)
    requires s[10] == RegisterAt(key, 4, 40)
    ensures Registers(s, key, 4, 11)
  {
    hide RegisterAt;
  }

  lemma All13(s: seq<Register>, key: seq<bv8>)
    requires 24 <= |key| && |s| == 13
    requires s[0] == RegisterAt(key, 6, 0) && s[1] == RegisterAt(key, 6, 4)
    requires s[2] == RegisterAt(key, 6, 8) && s[3] == RegisterAt(key, 6, 12)
    requires s[4] == RegisterAt(key, 6, 16) && s[5] == RegisterAt(key, 6, 20)
    requires s[6] == RegisterAt(key, 6, 24) && s[7] == RegisterAt(key, 6, 28)
    requires s[8] == RegisterAt(key, 6, 32) && s[9] == RegisterAt(key, 6, 36)
    requires s[10] == RegisterAt(key, 6, 40) && s[11] == RegisterAt(key, 6, 44)
    requires s[12] == RegisterAt(key, 6, 48)
    ensures Registers(s, key, 6, 13)
  {
    hide RegisterAt;
  }

  lemma All15(s: seq<Register>, key: seq<bv8>)
    requires 32 <= |key| && |s| == 15
    requires s[0] == RegisterAt(key, 8, 0) && s[1] == RegisterAt(key, 8, 4)
    requires s[2] == RegisterAt(key, 8, 8) && s[3] == RegisterAt(key, 8, 12)
    requires s[4] == RegisterAt(key, 8, 16) && s[5] == RegisterAt(key, 8, 20)
    requires s[6] == RegisterAt(key, 8, 24) && s[7] == RegisterAt(key, 8, 28)
    requires s[8] == RegisterAt(key, 8, 32) && s[9] == RegisterAt(key, 8, 36)
    requires s[10] == RegisterAt(key, 8, 40) && s[11] == RegisterAt(key, 8, 44)
    requires s[12] == RegisterAt(key, 8, 48) && s[13] == RegisterAt(key, 8, 52)
    requires s[14] == RegisterAt(key, 8, 56)
    ensures Registers(s, key, 8, 15)
  {
    hide RegisterAt;
  }

  method Setup128(rk: array<Register>, key: seq<bv8>)
    requires |key| == 16 && rk.Length == 11
    modifies rk
    ensures Registers(rk[..], key, 4, 11)
  {
    hide *;
    Powers();
    Loaded(key, 4);
    rk[0] := Load(key, 0);
    Step128(key, 0, 0, 0x01);
    rk[1] := Expand128(rk[0], 0x01);
    Step128(key, 4, 1, 0x02);
    rk[2] := Expand128(rk[1], 0x02);
    Step128(key, 8, 2, 0x04);
    rk[3] := Expand128(rk[2], 0x04);
    Step128(key, 12, 3, 0x08);
    rk[4] := Expand128(rk[3], 0x08);
    Step128(key, 16, 4, 0x10);
    rk[5] := Expand128(rk[4], 0x10);
    Step128(key, 20, 5, 0x20);
    rk[6] := Expand128(rk[5], 0x20);
    Step128(key, 24, 6, 0x40);
    rk[7] := Expand128(rk[6], 0x40);
    Step128(key, 28, 7, 0x80);
    rk[8] := Expand128(rk[7], 0x80);
    Step128(key, 32, 8, 0x1b);
    rk[9] := Expand128(rk[8], 0x1b);
    Step128(key, 36, 9, 0x36);
    rk[10] := Expand128(rk[9], 0x36);
    All11(rk[..], key);
  }

  /** The last eight bytes of the key, and whatever is after them. */
  function LoadHalf(key: seq<bv8>, x: (Word, Word)): Register
    requires 24 <= |key|
  {
    Register(Word(key[16], key[17], key[18], key[19]), Word(key[20], key[21], key[22], key[23]), x.0, x.1)
  }

  lemma LoadedHalf(key: seq<bv8>, x: (Word, Word))
    requires 24 <= |key|
    ensures LowAt(LoadHalf(key, x), key, 6, 4)
  {
  }

  lemma HalvesLow(key: seq<bv8>, r: Register, t: Register, i: nat)
    requires 24 <= |key| && LowAt(r, key, 6, i) && t == RegisterAt(key, 6, i + 2)
    ensures Halves(r, t, false) == RegisterAt(key, 6, i)
  {
    hide Expanded;
  }

  lemma HalvesHigh(key: seq<bv8>, r: Register, t: Register, i: nat)
    requires 24 <= |key| && i >= 2 && r == RegisterAt(key, 6, i - 2) && LowAt(t, key, 6, i + 2)
    ensures Halves(r, t, true) == RegisterAt(key, 6, i)
  {
    hide Expanded;
  }

  /** The first half of the words. */
  method Front192(rk: array<Register>, key: seq<bv8>, x: (Word, Word))
    requires |key| == 24 && rk.Length == 13
    modifies rk
    ensures rk[0] == RegisterAt(key, 6, 0) && rk[1] == RegisterAt(key, 6, 4) && rk[2] == RegisterAt(key, 6, 8)
    ensures rk[3] == RegisterAt(key, 6, 12) && rk[4] == RegisterAt(key, 6, 16) && rk[5] == RegisterAt(key, 6, 20)
    ensures rk[6] == RegisterAt(key, 6, 24) && LowAt(rk[7], key, 6, 28)
  {
    hide *;
    Powers();
    Loaded(key, 6);
    var t0, t1;
    rk[0] := Load(key, 0);
    rk[1] := LoadHalf(key, x);
    LoadedHalf(key, x);
    Step192(key, 0, 0, 0x01, rk[1]);
    t0 := Expand192(rk[0], rk[1], 0x01);
    StepRest192(key, 0, 0, rk[1]);
    t1 := Rest192(t0, rk[1]);
    HalvesLow(key, rk[1], t0, 4);
    rk[1] := Halves(rk[1], t0, false);
    HalvesHigh(key, t0, t1, 8);
    rk[2] := Halves(t0, t1, true);
    Step192(key, 6, 1, 0x02, t1);
    rk[3] := Expand192(t0, t1, 0x02);
    StepRest192(key, 6, 1, t1);
    rk[4] := Rest192(rk[3], t1);
    Step192(key, 12, 2, 0x04, rk[4]);
    t0 := Expand192(rk[3], rk[4], 0x04);
    StepRest192(key, 12, 2, rk[4]);
    t1 := Rest192(t0, rk[4]);
    HalvesLow(key, rk[4], t0, 16);
    rk[4] := Halves(rk[4], t0, false);
    HalvesHigh(key, t0, t1, 20);
    rk[5] := Halves(t0, t1, true);
    Step192(key, 18, 3, 0x08, t1);
    rk[6] := Expand192(t0, t1, 0x08);
    StepRest192(key, 18, 3, t1);
    rk[7] := Rest192(rk[6], t1);
  }

  /** The second load reads eight bytes past the key; x is what is there. */
  method Setup192(rk: array<Register>, key: seq<bv8>, x: (Word, Word))
    requires |key| == 24 && rk.Length == 13
    modifies rk
    ensures Registers(rk[..], key, 6, 13)
  {
    hide *;
    Front192(rk, key, x);
    Powers();
    var t0, t1;
    Step192(key, 24, 4, 0x10, rk[7]);
    t0 := Expand192(rk[6], rk[7], 0x10);
    StepRest192(key, 24, 4, rk[7]);
    t1 := Rest192(t0, rk[7]);
    HalvesLow(key, rk[7], t0, 28);
    rk[7] := Halves(rk[7], t0, false);
    HalvesHigh(key, t0, t1, 32);
    rk[8] := Halves(t0, t1, true);
    Step192(key, 30, 5, 0x20, t1);
    rk[9] := Expand192(t0, t1, 0x20);
    StepRest192(key, 30, 5, t1);
    rk[10] := Rest192(rk[9], t1);
    Step192(key, 36, 6, 0x40, rk[10]);
    t0 := Expand192(rk[9], rk[10], 0x40);
    StepRest192(key, 36, 6, rk[10]);
    t1 := Rest192(t0, rk[10]);
    HalvesLow(key, rk[10], t0, 40);
    rk[10] := Halves(rk[10], t0, false);
    HalvesHigh(key, t0, t1, 44);
    rk[11] := Halves(t0, t1, true);
    Step192(key, 42, 7, 0x80, t1);
    rk[12] := Expand192(t0, t1, 0x80);
    All13(rk[..], key);
  }

  method Setup256(rk: array<Register>, key: seq<bv8>)
    requires |key| == 32 && rk.Length == 15
    modifies rk
    ensures Registers(rk[..], key, 8, 15)
  {
    hide *;
    Powers();
    Loaded(key, 8);
    rk[0] := Load(key, 0);
    rk[1] := Load(key, 16);
    Step256(key, 0, 0, 0x01);
    rk[2] := Expand256(rk[0], rk[1], 0x01);
    StepRest256(key, 0, 0);
    rk[3] := Rest256(rk[1], rk[2]);
    Step256(key, 8, 1, 0x02);
    rk[4] := Expand256(rk[2], rk[3], 0x02);
    StepRest256(key, 8, 1);
    rk[5] := Rest256(rk[3], rk[4]);
    Step256(key, 16, 2, 0x04);
    rk[6] := Expand256(rk[4], rk[5], 0x04);
    StepRest256(key, 16, 2);
    rk[7] := Rest256(rk[5], rk[6]);
    Step256(key, 24, 3, 0x08);
    rk[8] := Expand256(rk[6], rk[7], 0x08);
    StepRest256(key, 24, 3);
    rk[9] := Rest256(rk[7], rk[8]);
    Step256(key, 32, 4, 0x10);
    rk[10] := Expand256(rk[8], rk[9], 0x10);
    StepRest256(key, 32, 4);
    rk[11] := Rest256(rk[9], rk[10]);
    Step256(key, 40, 5, 0x20);
    rk[12] := Expand256(rk[10], rk[11], 0x20);
    StepRest256(key, 40, 5);
    rk[13] := Rest256(rk[11], rk[12]);
    Step256(key, 48, 6, 0x40);
    rk[14] := Expand256(rk[12], rk[13], 0x40);
    All15(rk[..], key);
  }

  /** The key setup for the three lengths of keys. */
  method KeySetupEnc(key: seq<bv8>, x: (Word, Word)) returns (rk: array<Register>)
    requires |key| in {16, 24, 32}
    ensures fresh(rk) && Registers(rk[..], key, |key| / 4, |key| / 4 + 7)
  {
    hide *;
    if |key| == 16 {
      rk := new Register[11](_ => Spread(ZERO));
      Setup128(rk, key);
    } else if |key| == 24 {
      rk := new Register[13](_ => Spread(ZERO));
      Setup192(rk, key, x);
    } else {
      rk := new Register[15](_ => Spread(ZERO));
      Setup256(rk, key);
    }
  }

  // ---- The schedule as bytes.

  function FourOf(w: Word): (s: seq<bv8>)
    ensures |s| == 4
  {
    [w.b0, w.b1, w.b2, w.b3]
  }

  function Bytes(r: Register): (s: seq<bv8>)
    ensures Block(s)
  {
    FourOf(r.w0) + FourOf(r.w1) + FourOf(r.w2) + FourOf(r.w3)
  }

  function AllBytes(s: seq<Register>): (ks: seq<seq<bv8>>)
    ensures |ks| == |s| && forall n :: 0 <= n < |s| ==> ks[n] == Bytes(s[n])
  {
    seq(|s|, n requires 0 <= n < |s| => Bytes(s[n]))
  }

  lemma BytesAt(rk: seq<bv8>, key: seq<bv8>, nk: nat, n: nat, rounds: nat)
    requires 0 < nk && 4 * nk <= |key| && Schedules(rk, key, nk, 4 * (rounds + 1)) && n <= rounds
    ensures 16 * n + 16 <= |rk| && rk[16 * n..16 * n + 16] == Bytes(RegisterAt(key, nk, 4 * n))
  {
    hide *;
    var m, p := 4 * (rounds + 1), 16 * n;
    Scheduled(rk, key, nk, m, 4 * n);
    Scheduled(rk, key, nk, m, 4 * n + 1);
    Scheduled(rk, key, nk, m, 4 * n + 2);
    Scheduled(rk, key, nk, m, 4 * n + 3);
    WordBytes(rk, 4 * n, p);
    WordBytes(rk, 4 * n + 1, p + 4);
    WordBytes(rk, 4 * n + 2, p + 8);
    WordBytes(rk, 4 * n + 3, p + 12);
    RegisterIs(key, nk, 4 * n);
    BytesJoin(rk, p, RegisterAt(key, nk, 4 * n));
  }

  lemma WordBytes(rk: seq<bv8>, m: nat, p: nat)
    requires p == 4 * m && p + 4 <= |rk|
    ensures rk[p..p + 4] == FourOf(WordAt(rk, m))
  {
  }

  lemma BytesJoin(rk: seq<bv8>, p: nat, r: Register)
    requires p + 16 <= |rk| && rk[p..p + 4] == FourOf(r.w0) && rk[p + 4..p + 8] == FourOf(r.w1)
    requires rk[p + 8..p + 12] == FourOf(r.w2) && rk[p + 12..p + 16] == FourOf(r.w3)
    ensures rk[p..p + 16] == Bytes(r)
  {
    hide *;
    BytesInWords(r);
    SlicesJoin(rk, p);
  }

  lemma BytesInWords(r: Register)
    ensures Bytes(r) == FourOf(r.w0) + FourOf(r.w1) + FourOf(r.w2) + FourOf(r.w3)
  {
    hide FourOf;
  }

  lemma SlicesJoin(rk: seq<bv8>, p: nat)
    requires p + 16 <= |rk|
    ensures rk[p..p + 16] == rk[p..p + 4] + rk[p + 4..p + 8] + rk[p + 8..p + 12] + rk[p + 12..p + 16]
  {
  }

  lemma RegisterIs(key: seq<bv8>, nk: nat, i: nat)
    requires 0 < nk && 4 * nk <= |key|
    ensures RegisterAt(key, nk, i) ==
            Register(Expanded(key, nk, i), Expanded(key, nk, i + 1), Expanded(key, nk, i + 2), Expanded(key, nk, i + 3))
  {
    hide Expanded;
  }

  /** The registers are the round keys of the key expansion on bytes. */
  lemma SameKeys(s: seq<Register>, rk: seq<bv8>, key: seq<bv8>, nk: nat, rounds: nat)
    requires 0 < nk && 4 * nk <= |key| && rounds > 0
    requires Registers(s, key, nk, rounds + 1) && Schedules(rk, key, nk, 4 * (rounds + 1))
    ensures AesNi.ScheduleOf(rk, AllBytes(s), rounds)
  {
    hide Bytes, Expanded, Schedules, RegisterAt;
    forall n: nat | n <= rounds ensures 16 * n + 16 <= |rk| && Key(rk, n) == AllBytes(s)[n] {
      BytesAt(rk, key, nk, n, rounds);
    }
    BytesAt(rk, key, nk, rounds, rounds);
  }
}
