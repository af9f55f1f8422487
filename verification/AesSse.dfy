/** The implementation on 128-bit registers of four little-endian words, step by step against the
    cipher on bytes.  The vector instructions treat the lanes of a register alike, so that a step
    on columns is stated for one column. */
module AesSse {
  import opened AesField
  import opened AesTables
  import opened AesCipher
  import opened AesKeys

  /** The value of a little-endian word. */
  function Pack(w: Word): bv32 {
    (w.b0 as bv32) | ((w.b1 as bv32) << 8) | ((w.b2 as bv32) << 16) | ((w.b3 as bv32) << 24)
  }

  function Unpack(x: bv32): Word {
    Word((x & 0xff) as bv8, ((x >> 8) & 0xff) as bv8, ((x >> 16) & 0xff) as bv8, (x >> 24) as bv8)
  }

  lemma UnpackPack(w: Word)
    ensures Unpack(Pack(w)) == w
  {
  }

  lemma PackUnpack(x: bv32)
    ensures Pack(Unpack(x)) == x
  {
  }

  function Xor(x: bv32, y: bv32): bv32 {
    x ^ y
  }

  function RotRight(x: bv32, n: bv32): bv32
    requires n <= 32
  {
    (x >> n) | (x << (32 - n))
  }

  lemma XorPacked(v: Word, w: Word)
    ensures Xor(Pack(v), Pack(w)) == Pack(AddWords(v, w))
  {
  }

  lemma RotPacked(w: Word)
    ensures RotRight(Pack(w), 8) == Pack(Word(w.b1, w.b2, w.b3, w.b0))
    ensures RotRight(Pack(w), 16) == Pack(Word(w.b2, w.b3, w.b0, w.b1))
    ensures RotRight(Pack(w), 24) == Pack(Word(w.b3, w.b0, w.b1, w.b2))
  {
    hide *;
    UnpackPack(w);
    Rot8(Pack(w));
    Rot16(Pack(w));
    Rot24(Pack(w));
  }

  lemma Rot8(x: bv32)
    ensures var w := Unpack(x); RotRight(x, 8) == Pack(Word(w.b1, w.b2, w.b3, w.b0))
  {
  }

  lemma Rot16(x: bv32)
    ensures var w := Unpack(x); RotRight(x, 16) == Pack(Word(w.b2, w.b3, w.b0, w.b1))
  {
  }

  lemma Rot24(x: bv32)
    ensures var w := Unpack(x); RotRight(x, 24) == Pack(Word(w.b3, w.b0, w.b1, w.b2))
  {
  }

  /** The table lookups on the four bytes of a word. */
  function SubPacked(x: bv32): bv32 {
    var w := Unpack(x);
    Pack(Word(Sbox(w.b0), Sbox(w.b1), Sbox(w.b2), Sbox(w.b3)))
  }

  lemma SubPackedIs(w: Word)
    ensures SubPacked(Pack(w)) == Pack(SubWord(w))
  {
    hide Sbox, Pack, Unpack;
    UnpackPack(w);
  }

  // ---- Key expansion on words.

  function RconWord(i: nat): bv32
    requires i < 10
  {
    [0x01, 0x02, 0x04, 0x08, 0x10, 0x20, 0x40, 0x80, 0x1b, 0x36][i]
  }

  lemma RconWordIs(i: nat)
    requires i < 10
    ensures RconWord(i) == Pack(Word(Power(i), 0, 0, 0))
  {
    assert Power(0) == 1 && Power(1) == 2 && Power(2) == 4 && Power(3) == 8 && Power(4) == 0x10;
    assert Power(5) == 0x20 && Power(6) == 0x40 && Power(7) == 0x80 && Power(8) == 0x1b && Power(9) == 0x36;
  }

  /** The first n words of the schedule. */
  ghost predicate SchedulesWords(w: seq<bv32>, key: seq<bv8>, nk: nat, n: nat)
    requires 0 < nk && 4 * nk <= |key|
  {
    n <= |w| && forall m :: 0 <= m < n ==> w[m] == Pack(Expanded(key, nk, m))
  }

  lemma WordsStep(w: seq<bv32>, key: seq<bv8>, nk: nat, n: nat, x: bv32)
    requires 0 < nk && 4 * nk <= |key| && SchedulesWords(w, key, nk, n) && n < |w|
    requires x == Pack(Expanded(key, nk, n))
    ensures SchedulesWords(w[n := x], key, nk, n + 1)
  {
    hide Pack, Expanded;
  }

  lemma WordsAt(w: seq<bv32>, key: seq<bv8>, nk: nat, n: nat, m: nat)
    requires 0 < nk && 4 * nk <= |key| && SchedulesWords(w, key, nk, n) && m < n
    ensures n <= |w| && w[m] == Pack(Expanded(key, nk, m))
  {
  }

  lemma WordsStart(w: seq<bv32>, key: seq<bv8>, nk: nat)
    requires 0 < nk && 4 * nk <= |key|
    ensures SchedulesWords(w, key, nk, 0)
  {
  }

  /** A 4-byte little-endian load. */
  function Load(b: seq<bv8>, i: nat): bv32
    requires 4 * i + 4 <= |b|
  {
    Pack(WordAt(b, i))
  }

  method KeyExpansion(w: array<bv32>, cNk: nat, key: seq<bv8>) returns (nk: nat, nr: nat)
    requires cNk in {4, 6, 8} && |key| >= 4 * cNk && w.Length == 60
    modifies w
    ensures nk == cNk && nr == nk + 6 && SchedulesWords(w[..], key, nk, 4 * (nr + 1))
  {
    hide *;
    nk := cNk;
    nr := nk + 6;
    WordsStart(w[..], key, nk);
    var i := 0;
    while i < nk
      invariant i % 2 == 0 && 0 <= i <= nk && SchedulesWords(w[..], key, nk, i)
    {
      CopyTwo(w, i, nk, key);
      i := i + 2;
    }
    WordsAt(w[..], key, nk, i, i - 1);
    var temp := w[i - 1];
    while i < 4 * (nr + 1)
      invariant nk <= i <= 4 * (nr + 1) && SchedulesWords(w[..], key, nk, i)
      invariant temp == Pack(Expanded(key, nk, i - 1))
    {
      temp := ExpandWord(w, i, nk, temp, key);
      i := i + 1;
    }
  }

  /** An 8-byte copy. */
  method CopyTwo(w: array<bv32>, i: nat, nk: nat, key: seq<bv8>)
    requires 0 < nk && i + 1 < nk <= w.Length && |key| >= 4 * nk && SchedulesWords(w[..], key, nk, i)
    modifies w
    ensures SchedulesWords(w[..], key, nk, i + 2)
  {
    hide *;
    LoadIs(key, nk, i);
    LoadIs(key, nk, i + 1);
    ghost var w0 := w[..];
    WordsStep(w0, key, nk, i, Load(key, i));
    WordsStep(w0[i := Load(key, i)], key, nk, i + 1, Load(key, i + 1));
    w[i], w[i + 1] := Load(key, i), Load(key, i + 1);
    assert w[..] == w0[i := Load(key, i)][i + 1 := Load(key, i + 1)];
  }

  lemma LoadIs(key: seq<bv8>, nk: nat, i: nat)
    requires 0 < nk && 4 * nk <= |key| && i < nk
    ensures Load(key, i) == Pack(Expanded(key, nk, i))
  {
    hide Pack;
  }

  method ExpandWord(w: array<bv32>, i: nat, nk: nat, last: bv32, ghost key: seq<bv8>) returns (temp: bv32)
    requires nk in {4, 6, 8} && nk <= i < 4 * (nk + 7) && 4 * nk <= |key| && w.Length == 60
    requires SchedulesWords(w[..], key, nk, i) && last == Pack(Expanded(key, nk, i - 1))
    modifies w
    ensures SchedulesWords(w[..], key, nk, i + 1) && temp == Pack(Expanded(key, nk, i))
  {
    hide *;
    ghost var l := Expanded(key, nk, i - 1);
    WordsAt(w[..], key, nk, i, i - nk);
    ExpandedIs(key, nk, i);
    temp := TransformPacked(i, nk, last, l);
    XorPacked(Transformed(nk, i, l), Expanded(key, nk, i - nk));
    AddWordsCommutes(Transformed(nk, i, l), Expanded(key, nk, i - nk));
    temp := Xor(temp, w[i - nk]);
    WordsStep(w[..], key, nk, i, temp);
    ghost var w0 := w[..];
    w[i] := temp;
    assert w[..] == w0[i := temp];
  }

  lemma AddWordsCommutes(v: Word, w: Word)
    ensures AddWords(v, w) == AddWords(w, v)
  {
    hide Add;
    AddCommutes(v.b0, w.b0);
    AddCommutes(v.b1, w.b1);
    AddCommutes(v.b2, w.b2);
    AddCommutes(v.b3, w.b3);
  }

  method TransformPacked(i: nat, nk: nat, last: bv32, ghost l: Word) returns (temp: bv32)
    requires nk in {4, 6, 8} && nk <= i < 4 * (nk + 7) && last == Pack(l)
    ensures temp == Pack(Transformed(nk, i, l))
  {
    hide Pack, Unpack, Xor, RotRight, AddWords, SubPacked, SubWord, RconWord, Power, Sbox, Add;
    temp := last;
    var iR, iRm := i / nk, i % nk;
    if iRm == 0 {
      RconRange(i, nk);
      RotPacked(l);
      SubPackedIs(RotWord(l));
      RconWordIs(iR - 1);
      XorPacked(SubWord(RotWord(l)), Word(Power(iR - 1), 0, 0, 0));
      temp := Xor(SubPacked(RotRight(temp, 8)), RconWord(iR - 1));
    } else if nk > 6 && i % nk == 4 {
      SubPackedIs(l);
      temp := SubPacked(temp);
    }
  }

  lemma RconRange(i: nat, nk: nat)
    requires nk in {4, 6, 8} && nk <= i < 4 * (nk + 7)
    ensures 1 <= i / nk < 11
  {
  }

  /** The two expansions agree byte for byte. */
  lemma SameSchedule(rk: seq<bv8>, w: seq<bv32>, key: seq<bv8>, nk: nat, n: nat, m: nat)
    requires 0 < nk && 4 * nk <= |key| && m < n
    requires Schedules(rk, key, nk, n) && SchedulesWords(w, key, nk, n)
    ensures n <= |w| && 4 * n <= |rk| && Unpack(w[m]) == WordAt(rk, m)
  {
    hide Pack, Unpack, Expanded, WordAt;
    Scheduled(rk, key, nk, n, m);
    WordsAt(w, key, nk, n, m);
    UnpackPack(Expanded(key, nk, m));
  }

  // ---- Multiplication in 16-bit lanes of two bytes.

  function Lane(lo: bv8, hi: bv8): bv16 {
    (lo as bv16) | ((hi as bv16) << 8)
  }

  function SignedGreater(x: bv16, y: bv16): bool {
    (x ^ 0x8000) > (y ^ 0x8000)
  }

  /** One turn of the loop on a lane. */
  function Turn(r: bv16, d: bv16, bit: bool): bv16 {
    var r1 := r << 1;
    var r2 := r1 ^ ((if SignedGreater(r1, 0x00ff) then 0xffff else 0) & 0x011b);
    if bit then r2 ^ d else r2
  }

  function Widen(x: bv8): bv16 {
    x as bv16
  }

  lemma TurnIs(r: bv8, d: bv8, bit: bool)
    ensures Turn(Widen(r), Widen(d), bit) == Widen(Add(Xtime(r), if bit then d else 0))
  {
  }

  /** What the loop has computed when its bit is i, by Horner's rule. */
  function Partial(d: bv8, n: bv8, i: bv8): bv8 {
    if i == 8 then 0
    else if i == 4 then BitTimes(n >> 3, d)
    else if i == 2 then Add(Xtime(BitTimes(n >> 3, d)), BitTimes(n >> 2, d))
    else if i == 1 then Add(Xtime(Add(Xtime(BitTimes(n >> 3, d)), BitTimes(n >> 2, d))), BitTimes(n >> 1, d))
    else Add(Xtime(Add(Xtime(Add(Xtime(BitTimes(n >> 3, d)), BitTimes(n >> 2, d))), BitTimes(n >> 1, d))), BitTimes(n, d))
  }

  lemma BitOf(n: bv8, i: bv8, d: bv8)
    requires i in {8, 4, 2, 1}
    ensures (if i & n != 0 then d else 0) ==
            BitTimes(if i == 8 then n >> 3 else if i == 4 then n >> 2 else if i == 2 then n >> 1 else n, d)
  {
  }

  lemma XtimeZero()
    ensures Xtime(0) == 0 && forall x: bv8 :: Add(0, x) == x
  {
  }

  lemma PartialStep(d: bv8, n: bv8, i: bv8)
    requires i in {8, 4, 2, 1}
    ensures i >> 1 in {4, 2, 1, 0} && i >> 1 < i
    ensures Partial(d, n, i >> 1) == Add(Xtime(Partial(d, n, i)), if i & n != 0 then d else 0)
  {
    hide Xtime, Add, BitTimes;
    XtimeZero();
    BitOf(n, i, d);
  }

  lemma XtimeBit(b: bv8, x: bv8)
    ensures Xtime(BitTimes(b, x)) == BitTimes(b, Xtime(x))
  {
  }

  lemma Horner(d: bv8, n: bv8)
    requires n < 16
    ensures Partial(d, n, 0) == Multiply(d, n)
  {
    var d1 := Xtime(d);
    var d2 := Xtime(d1);
    var d3 := Xtime(d2);
    NoFifthBit(n, Xtime(d3));
    hide Xtime, Add, BitTimes, Multiply, Sum;
    MultiplyIs(d, n, d1, d2, d3, Xtime(d3));
    var a, b, c, e := n >> 3, n >> 2, n >> 1, n;
    XtimeBit(a, d);
    XtimeBit(a, d1);
    XtimeBit(a, d2);
    XtimeBit(b, d);
    XtimeBit(b, d1);
    XtimeBit(c, d);
    XtimeAdd(BitTimes(a, d1), BitTimes(b, d));
    XtimeAdd(BitTimes(a, d2), BitTimes(b, d1));
    XtimeAdd(Add(BitTimes(a, d2), BitTimes(b, d1)), BitTimes(c, d));
    Backwards(BitTimes(a, d3), BitTimes(b, d2), BitTimes(c, d1), BitTimes(e, d));
  }

  lemma NoFifthBit(n: bv8, x: bv8)
    requires n < 16
    ensures BitTimes(n >> 4, x) == 0 && forall y: bv8 :: Add(y, 0) == y
  {
  }

  lemma Backwards(a: bv8, b: bv8, c: bv8, d: bv8)
    ensures Add(Add(Add(a, b), c), d) == Sum(d, c, b, a)
  {
    hide *;
    AddAssociates(Add(a, b), c, d);
    SumIs(d, c, b, a);
    AddCommutes(a, b);
    AddCommutes(c, d);
    AddCommutes(Add(b, a), Add(d, c));
  }

  /** The product of both bytes of a lane with a number of four bits. */
  method MulLane(data: bv16, n: bv8, ghost lo: bv8, ghost hi: bv8) returns (r: bv16)
    requires data == Lane(lo, hi) && n < 16
    ensures r == Lane(Multiply(lo, n), Multiply(hi, n))
  {
    hide *;
    Bytes(lo, hi);
    var data1, data2 := (data & 0xff00) >> 8, data & 0x00ff;
    var result1, result2 := 0, 0;
    PartialStart(lo, n);
    PartialStart(hi, n);
    var i: bv8 := 0x08;
    while i > 0
      invariant i in {8, 4, 2, 1, 0}
      invariant result1 == Widen(Partial(hi, n, i)) && result2 == Widen(Partial(lo, n, i))
      decreases i
    {
      PartialStep(lo, n, i);
      PartialStep(hi, n, i);
      TurnIs(Partial(lo, n, i), lo, i & n != 0);
      TurnIs(Partial(hi, n, i), hi, i & n != 0);
      result1 := Turn(result1, data1, i & n != 0);
      result2 := Turn(result2, data2, i & n != 0);
      i := i >> 1;
    }
    Horner(lo, n);
    Horner(hi, n);
    Joined(Multiply(lo, n), Multiply(hi, n));
    r := (result1 << 8) | result2;
  }

  lemma PartialStart(d: bv8, n: bv8)
    ensures Widen(Partial(d, n, 8)) == 0
  {
  }

  lemma Bytes(lo: bv8, hi: bv8)
    ensures (Lane(lo, hi) & 0xff00) >> 8 == Widen(hi) && Lane(lo, hi) & 0x00ff == Widen(lo)
  {
  }

  lemma Joined(lo: bv8, hi: bv8)
    ensures (Widen(hi) << 8) | Widen(lo) == Lane(lo, hi)
  {
  }
}
