/** The key expansion of FIPS 197, section 5.2, and the two implementations of it: one on bytes and
    one on 32-bit words. */
module AesKeys {
  import opened AesField
  import opened AesTables

  datatype Word = Word(b0: bv8, b1: bv8, b2: bv8, b3: bv8)

  function AddWords(v: Word, w: Word): Word {
    Word(Add(v.b0, w.b0), Add(v.b1, w.b1), Add(v.b2, w.b2), Add(v.b3, w.b3))
  }

  function RotWord(w: Word): Word {
    Word(w.b1, w.b2, w.b3, w.b0)
  }

  function SubWord(w: Word): Word {
    Word(Sbox(w.b0), Sbox(w.b1), Sbox(w.b2), Sbox(w.b3))
  }

  /** The round constants: powers of x. */
  function Power(i: nat): bv8 {
    if i == 0 then 1 else Xtime(Power(i - 1))
  }

  /** What is added to the word nk places back to make word i, from the word just before. */
  function Transformed(nk: nat, i: nat, w: Word): Word
    requires 0 < nk <= i
  {
    if i % nk == 0 then
      QuotientPositive(i, nk);
      AddWords(SubWord(RotWord(w)), Word(Power(i / nk - 1), 0, 0, 0))
    else if nk > 6 && i % nk == 4 then SubWord(w)
    else w
  }

  lemma QuotientPositive(i: nat, nk: nat)
    requires 0 < nk <= i
    ensures i / nk >= 1
  {
  }

  function WordAt(b: seq<bv8>, i: nat): Word
    requires 4 * i + 4 <= |b|
  {
    Word(b[4 * i], b[4 * i + 1], b[4 * i + 2], b[4 * i + 3])
  }

  /** Word i of the key schedule. */
  function Expanded(key: seq<bv8>, nk: nat, i: nat): Word
    requires 0 < nk && 4 * nk <= |key|
    decreases i
  {
    if i < nk then WordAt(key, i)
    else AddWords(Expanded(key, nk, i - nk), Transformed(nk, i, Expanded(key, nk, i - 1)))
  }

  lemma ExpandedIs(key: seq<bv8>, nk: nat, i: nat)
    requires 0 < nk && 4 * nk <= |key|
    ensures i < nk ==> Expanded(key, nk, i) == WordAt(key, i)
    ensures i >= nk ==>
              Expanded(key, nk, i) == AddWords(Expanded(key, nk, i - nk), Transformed(nk, i, Expanded(key, nk, i - 1)))
  {
  }

  /** The first n words of the schedule, as bytes. */
  ghost predicate Schedules(rk: seq<bv8>, key: seq<bv8>, nk: nat, n: nat)
    requires 0 < nk && 4 * nk <= |key|
  {
    4 * n <= |rk| && forall m :: 0 <= m < n ==> WordAt(rk, m) == Expanded(key, nk, m)
  }

  lemma SchedulesStep(rk: seq<bv8>, key: seq<bv8>, nk: nat, n: nat, w: Word)
    requires 0 < nk && 4 * nk <= |key| && Schedules(rk, key, nk, n) && 4 * n + 4 <= |rk|
    requires w == Expanded(key, nk, n)
    ensures Schedules(rk[4 * n := w.b0][4 * n + 1 := w.b1][4 * n + 2 := w.b2][4 * n + 3 := w.b3], key, nk, n + 1)
  {
    hide Expanded;
  }

  lemma Scheduled(rk: seq<bv8>, key: seq<bv8>, nk: nat, n: nat, m: nat)
    requires 0 < nk && 4 * nk <= |key| && Schedules(rk, key, nk, n) && m < n
    ensures 4 * m + 4 <= |rk| && WordAt(rk, m) == Expanded(key, nk, m)
  {
  }

  // ---- On bytes.

  /** The round constants of the byte implementation, from place 1 on. */
  function Rcon(i: nat): bv8
    requires i < 11
  {
    [0x8d, 0x01, 0x02, 0x04, 0x08, 0x10, 0x20, 0x40, 0x80, 0x1b, 0x36][i]
  }

  lemma RconIsPower(i: nat)
    requires 0 < i < 11
    ensures Rcon(i) == Power(i - 1)
  {
    assert Power(0) == 1 && Power(1) == 2 && Power(2) == 4 && Power(3) == 8 && Power(4) == 0x10;
    assert Power(5) == 0x20 && Power(6) == 0x40 && Power(7) == 0x80 && Power(8) == 0x1b && Power(9) == 0x36;
  }

  class Context {
    const RoundKey: array<bv8>
    const Iv: array<bv8>
    var Nk: nat
    var Nr: nat

    constructor ()
      ensures fresh(RoundKey) && fresh(Iv) && RoundKey.Length == 240 && Iv.Length == 16
    {
      RoundKey := new bv8[240];
      Iv := new bv8[16];
      Nk, Nr := 4, 10;
    }

    /** The words of the key and the rounds of the cipher, by the length of the key. */
    method KeyExpansion(key: seq<bv8>, keyn: nat)
      requires RoundKey.Length == 240 && |key| >= if keyn == 32 then 32 else if keyn == 24 then 24 else 16
      modifies this, RoundKey
      ensures Nk == if keyn == 32 then 8 else if keyn == 24 then 6 else 4
      ensures Nr == Nk + 6 && Schedules(RoundKey[..], key, Nk, 4 * (Nr + 1))
    {
      hide *;
      if keyn == 32 {
        Nk, Nr := 8, 14;
      } else if keyn == 24 {
        Nk, Nr := 6, 12;
      } else {
        Nk, Nr := 4, 10;
      }
      ScheduleStart(RoundKey[..], key, Nk);
      var i := 0;
      while i < Nk
        invariant 0 <= i <= Nk && Schedules(RoundKey[..], key, Nk, i)
        modifies RoundKey
      {
        ExpandedIs(key, Nk, i);
        WordIs(key, i);
        PutWord(i, key[i * 4], key[i * 4 + 1], key[i * 4 + 2], key[i * 4 + 3], key, Nk);
        i := i + 1;
      }
      while i < 4 * (Nr + 1)
        invariant Nk <= i <= 4 * (Nr + 1) && Schedules(RoundKey[..], key, Nk, i)
        modifies RoundKey
      {
        ExpandWord(i, Nk, key);
        i := i + 1;
      }
    }

    method PutWord(i: nat, b0: bv8, b1: bv8, b2: bv8, b3: bv8, ghost key: seq<bv8>, ghost nk: nat)
      requires 0 < nk && 4 * nk <= |key| && RoundKey.Length == 240 && 4 * i + 4 <= 240
      requires Schedules(RoundKey[..], key, nk, i) && Word(b0, b1, b2, b3) == Expanded(key, nk, i)
      modifies RoundKey
      ensures Schedules(RoundKey[..], key, nk, i + 1)
    {
      hide *;
      ghost var r := RoundKey[..];
      SchedulesStep(r, key, nk, i, Word(b0, b1, b2, b3));
      RoundKey[i * 4 + 0] := b0;
      RoundKey[i * 4 + 1] := b1;
      RoundKey[i * 4 + 2] := b2;
      RoundKey[i * 4 + 3] := b3;
      assert RoundKey[..] == r[4 * i := b0][4 * i + 1 := b1][4 * i + 2 := b2][4 * i + 3 := b3];
    }

    /** One word from the word before it and the word nk places back. */
    method ExpandWord(i: nat, nk: nat, ghost key: seq<bv8>)
      requires nk in {4, 6, 8} && nk <= i < 4 * (nk + 7) && 4 * nk <= |key| && RoundKey.Length == 240
      requires Schedules(RoundKey[..], key, nk, i)
      modifies RoundKey
      ensures Schedules(RoundKey[..], key, nk, i + 1)
    {
      hide *;
      ghost var r := RoundKey[..];
      Scheduled(r, key, nk, i, i - 1);
      Scheduled(r, key, nk, i, i - nk);
      ExpandedIs(key, nk, i);
      var k, l := (i - 1) * 4, (i - nk) * 4;
      WordAtIs(r, i - 1);
      WordAtIs(r, i - nk);
      var t := TransformWord(i, nk, Word(RoundKey[k + 0], RoundKey[k + 1], RoundKey[k + 2], RoundKey[k + 3]));
      AddWordsIs(WordAt(r, i - nk), t);
      PutWord(i, Add(RoundKey[l + 0], t.b0), Add(RoundKey[l + 1], t.b1), Add(RoundKey[l + 2], t.b2), Add(RoundKey[l + 3], t.b3),
              key, nk);
    }
  }

  lemma WordAtIs(b: seq<bv8>, i: nat)
    requires 4 * i + 4 <= |b|
    ensures WordAt(b, i) == Word(b[4 * i], b[4 * i + 1], b[4 * i + 2], b[4 * i + 3])
  {
  }

  lemma AddWordsIs(v: Word, w: Word)
    ensures AddWords(v, w) == Word(Add(v.b0, w.b0), Add(v.b1, w.b1), Add(v.b2, w.b2), Add(v.b3, w.b3))
  {
  }

  /** The four bytes that are added to those nk words back. */
  method TransformWord(i: nat, nk: nat, w: Word) returns (t: Word)
    requires nk in {4, 6, 8} && nk <= i < 4 * (nk + 7)
    ensures t == Transformed(nk, i, w)
  {
    hide Add, Sbox, Rcon, Power;
    var t0, t1, t2, t3 := w.b0, w.b1, w.b2, w.b3;
    if i % nk == 0 {
      t0, t1, t2, t3 := t1, t2, t3, t0;
      t0, t1, t2, t3 := Sbox(t0), Sbox(t1), Sbox(t2), Sbox(t3);
      RoundConstants(i, nk);
      t0 := Add(t0, Rcon(i / nk));
      AddZero(t1);
      AddZero(t2);
      AddZero(t3);
    }
    if nk == 8 {
      if i % nk == 4 {
        t0, t1, t2, t3 := Sbox(t0), Sbox(t1), Sbox(t2), Sbox(t3);
      }
    }
    t := Word(t0, t1, t2, t3);
  }

  lemma AddZero(x: bv8)
    ensures Add(x, 0) == x
  {
  }

  lemma RoundConstants(i: nat, nk: nat)
    requires nk in {4, 6, 8} && nk <= i < 4 * (nk + 7)
    ensures 1 <= i / nk < 11 && Rcon(i / nk) == Power(i / nk - 1)
  {
    RconIsPower(i / nk);
  }

  lemma ScheduleStart(rk: seq<bv8>, key: seq<bv8>, nk: nat)
    requires 0 < nk && 4 * nk <= |key|
    ensures Schedules(rk, key, nk, 0)
  {
  }

  lemma WordIs(key: seq<bv8>, i: nat)
    requires 4 * i + 4 <= |key|
    ensures WordAt(key, i) == Word(key[i * 4], key[i * 4 + 1], key[i * 4 + 2], key[i * 4 + 3])
  {
  }
}
