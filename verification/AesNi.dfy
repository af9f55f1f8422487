/** The decryptor that uses the instructions of the processor: the equivalent inverse cipher of
    section 5.3.5 of FIPS 197, whose round keys have gone through InvMixColumns. */
module AesNi {
  import opened AesField
  import opened AesTables
  import opened AesCipher

  // ---- The instructions, as their manual defines them.

  function Aesenc(m: seq<bv8>, k: seq<bv8>): (r: seq<bv8>)
    requires Block(m) && Block(k)
    ensures Block(r)
  {
    AddBlocks(MixColumns(SubBytes(ShiftRows(m))), k)
  }

  function Aesenclast(m: seq<bv8>, k: seq<bv8>): (r: seq<bv8>)
    requires Block(m) && Block(k)
    ensures Block(r)
  {
    AddBlocks(SubBytes(ShiftRows(m)), k)
  }

  function Aesdec(m: seq<bv8>, k: seq<bv8>): (r: seq<bv8>)
    requires Block(m) && Block(k)
    ensures Block(r)
  {
    AddBlocks(InvMixColumns(InvSubBytes(InvShiftRows(m))), k)
  }

  function Aesdeclast(m: seq<bv8>, k: seq<bv8>): (r: seq<bv8>)
    requires Block(m) && Block(k)
    ensures Block(r)
  {
    AddBlocks(InvSubBytes(InvShiftRows(m)), k)
  }

  // ---- The keys.

  ghost predicate Keys(ks: seq<seq<bv8>>, rounds: nat) {
    |ks| == rounds + 1 && forall i :: 0 <= i <= rounds ==> Block(ks[i])
  }

  /** The decryption keys belong to the encryption keys: reversed, the inner ones transformed. */
  ghost predicate Reversed(dk: seq<seq<bv8>>, ek: seq<seq<bv8>>, rounds: nat) {
    && Keys(ek, rounds) && Keys(dk, rounds)
    && dk[rounds] == ek[0] && dk[0] == ek[rounds]
    && forall i :: 0 < i < rounds ==> dk[rounds - i] == InvMixColumns(ek[i])
  }

  method KeySetupDec(dk: array<seq<bv8>>, ek: seq<seq<bv8>>, rounds: nat)
    requires rounds > 0 && dk.Length == rounds + 1 && Keys(ek, rounds)
    modifies dk
    ensures Reversed(dk[..], ek, rounds)
  {
    dk[rounds] := ek[0];
    for i := 1 to rounds
      invariant dk[rounds] == ek[0]
      invariant forall j :: 0 < j < i ==> dk[rounds - j] == InvMixColumns(ek[j])
    {
      dk[rounds - i] := InvMixColumns(ek[i]);
    }
    dk[0] := ek[rounds];
    forall i | 0 <= i <= rounds ensures Block(dk[i]) {
      if 0 < i < rounds {
        assert dk[rounds - (rounds - i)] == InvMixColumns(ek[rounds - i]);
      }
    }
  }

  /** The key schedule as one sequence of bytes. */
  ghost predicate ScheduleOf(rk: seq<bv8>, ks: seq<seq<bv8>>, rounds: nat) {
    Schedule(rk, rounds) && Keys(ks, rounds) && forall i :: 0 <= i <= rounds ==> Key(rk, i) == ks[i]
  }

  // ---- Encryption.

  lemma SubShift(s: seq<bv8>)
    requires Block(s)
    ensures SubBytes(ShiftRows(s)) == ShiftRows(SubBytes(s))
    ensures InvSubBytes(InvShiftRows(s)) == InvShiftRows(InvSubBytes(s))
  {
  }

  lemma RoundIs(m: seq<bv8>, k: seq<bv8>)
    requires Block(m) && Block(k)
    ensures Aesenc(m, k) == Round(m, k)
    ensures Aesenclast(m, k) == AddBlocks(ShiftRows(SubBytes(m)), k)
  {
    SubShift(m);
  }

  lemma NextRound(s: seq<bv8>, rk: seq<bv8>, ek: seq<seq<bv8>>, rounds: nat, n: nat)
    requires Block(s) && ScheduleOf(rk, ek, rounds) && n + 1 < rounds
    ensures Rounds(s, rk, n + 1) == Aesenc(Rounds(s, rk, n), ek[n + 1])
  {
    hide Aesenc, AddBlocks, Key, SubBytes, ShiftRows;
    RoundIs(Rounds(s, rk, n), ek[n + 1]);
  }

  lemma FirstAndLast(s: seq<bv8>, rk: seq<bv8>, ek: seq<seq<bv8>>, rounds: nat)
    requires Block(s) && ScheduleOf(rk, ek, rounds)
    ensures |ek| == rounds + 1 && |rk| >= 16 * (rounds + 1) && forall i :: 0 <= i <= rounds ==> Block(ek[i])
    ensures Rounds(s, rk, 0) == AddBlocks(s, ek[0])
    ensures Schedule(rk, rounds) && Cipher(s, rk, rounds) == Aesenclast(Rounds(s, rk, rounds - 1), ek[rounds])
  {
    hide AddBlocks, Key, SubBytes, ShiftRows, MixColumns;
    RoundIs(Rounds(s, rk, rounds - 1), ek[rounds]);
  }

  lemma NextRounds(s: seq<bv8>, rk: seq<bv8>, ek: seq<seq<bv8>>, rounds: nat)
    requires Block(s) && ScheduleOf(rk, ek, rounds)
    ensures |ek| == rounds + 1 && |rk| >= 16 * (rounds + 1) && forall i :: 0 <= i <= rounds ==> Block(ek[i])
    ensures forall n :: 0 < n < rounds ==> Rounds(s, rk, n) == Aesenc(Rounds(s, rk, n - 1), ek[n])
  {
    hide *;
    FirstAndLast(s, rk, ek, rounds);
    forall n | 0 < n < rounds ensures Rounds(s, rk, n) == Aesenc(Rounds(s, rk, n - 1), ek[n]) {
      NextRound(s, rk, ek, rounds, n - 1);
    }
  }

  method BlockEncrypt(ek: seq<seq<bv8>>, rounds: nat, s: seq<bv8>, ghost rk: seq<bv8>) returns (m: seq<bv8>)
    requires rounds in {10, 12, 14} && Block(s) && ScheduleOf(rk, ek, rounds)
    ensures Schedule(rk, rounds) && m == Cipher(s, rk, rounds)
  {
    hide *;
    FirstAndLast(s, rk, ek, rounds);
    NextRounds(s, rk, ek, rounds);
    m := AddBlocks(s, ek[0]);
    m := Aesenc(m, ek[1]);
    m := Aesenc(m, ek[2]);
    m := Aesenc(m, ek[3]);
    m := Aesenc(m, ek[4]);
    m := Aesenc(m, ek[5]);
    m := Aesenc(m, ek[6]);
    m := Aesenc(m, ek[7]);
    m := Aesenc(m, ek[8]);
    m := Aesenc(m, ek[9]);
    assert m == Rounds(s, rk, 9);
    if rounds != 10 {
      m := Aesenc(m, ek[10]);
      m := Aesenc(m, ek[11]);
      assert m == Rounds(s, rk, 11);
      if rounds == 14 {
        m := Aesenc(m, ek[12]);
        m := Aesenc(m, ek[13]);
      }
    }
    m := Aesenclast(m, ek[rounds]);
  }

  // ---- Decryption.

  lemma InvMixBlocks(s: seq<bv8>, t: seq<bv8>)
    requires Block(s) && Block(t)
    ensures InvMixColumns(AddBlocks(s, t)) == AddBlocks(InvMixColumns(s), InvMixColumns(t))
  {
    hide InvMix, Add, Below;
    var u, v := InvMixColumns(AddBlocks(s, t)), AddBlocks(InvMixColumns(s), InvMixColumns(t));
    forall i | 0 <= i < 16 ensures u[i] == v[i] {
      var b, c, d := Below(i, 1), Below(i, 2), Below(i, 3);
      InvMixAdd(s[i], s[b], s[c], s[d], t[i], t[b], t[c], t[d]);
    }
  }

  /** A round with a transformed key is a round of the straight inverse with the key itself. */
  lemma InvRoundIs(m: seq<bv8>, k: seq<bv8>)
    requires Block(m) && Block(k)
    ensures Aesdec(m, InvMixColumns(k)) == InvRound(m, k)
  {
    InvMixBlocks(InvSubBytes(InvShiftRows(m)), k);
  }

  /** The state before the equivalent decryptor's round rounds-n is the state of the straight
      inverse that has undone the rounds down to n+1. */
  lemma NextInvRound(s: seq<bv8>, rk: seq<bv8>, ek: seq<seq<bv8>>, dk: seq<seq<bv8>>, rounds: nat, n: nat)
    requires Block(s) && ScheduleOf(rk, ek, rounds) && Reversed(dk, ek, rounds) && n + 1 < rounds
    ensures InvRounds(s, rk, rounds, n) == Aesdec(InvRounds(s, rk, rounds, n + 1), dk[rounds - (n + 1)])
  {
    hide Aesdec, InvRound, InvMixColumns, Key, AddBlocks;
    InvRoundIs(InvRounds(s, rk, rounds, n + 1), ek[n + 1]);
  }

  lemma FirstAndLastInv(s: seq<bv8>, rk: seq<bv8>, ek: seq<seq<bv8>>, dk: seq<seq<bv8>>, rounds: nat)
    requires Block(s) && ScheduleOf(rk, ek, rounds) && Reversed(dk, ek, rounds)
    ensures |dk| == rounds + 1 && Schedule(rk, rounds) && forall i :: 0 <= i <= rounds ==> Block(dk[i])
    ensures InvRounds(s, rk, rounds, rounds - 1) == AddBlocks(s, dk[0])
    ensures InvCipher(s, rk, rounds) == Aesdeclast(InvRounds(s, rk, rounds, 0), dk[rounds])
  {
    hide AddBlocks, Key, InvSubBytes, InvShiftRows, InvMixColumns;
  }

  lemma NextInvRounds(s: seq<bv8>, rk: seq<bv8>, ek: seq<seq<bv8>>, dk: seq<seq<bv8>>, rounds: nat)
    requires Block(s) && ScheduleOf(rk, ek, rounds) && Reversed(dk, ek, rounds)
    ensures |dk| == rounds + 1 && Schedule(rk, rounds) && forall i :: 0 <= i <= rounds ==> Block(dk[i])
    ensures forall n :: 0 < n < rounds ==>
              InvRounds(s, rk, rounds, rounds - 1 - n) == Aesdec(InvRounds(s, rk, rounds, rounds - n), dk[n])
  {
    hide *;
    FirstAndLastInv(s, rk, ek, dk, rounds);
    forall n | 0 < n < rounds
      ensures InvRounds(s, rk, rounds, rounds - 1 - n) == Aesdec(InvRounds(s, rk, rounds, rounds - n), dk[n])
    {
      NextInvRound(s, rk, ek, dk, rounds, rounds - 1 - n);
    }
  }

  method BlockDecrypt(dk: seq<seq<bv8>>, rounds: nat, s: seq<bv8>, ghost ek: seq<seq<bv8>>, ghost rk: seq<bv8>)
    returns (m: seq<bv8>)
    requires rounds in {10, 12, 14} && Block(s) && ScheduleOf(rk, ek, rounds) && Reversed(dk, ek, rounds)
    ensures Schedule(rk, rounds) && m == InvCipher(s, rk, rounds)
  {
    hide *;
    FirstAndLastInv(s, rk, ek, dk, rounds);
    NextInvRounds(s, rk, ek, dk, rounds);
    m := AddBlocks(s, dk[0]);
    m := Aesdec(m, dk[1]);
    m := Aesdec(m, dk[2]);
    m := Aesdec(m, dk[3]);
    m := Aesdec(m, dk[4]);
    m := Aesdec(m, dk[5]);
    m := Aesdec(m, dk[6]);
    m := Aesdec(m, dk[7]);
    m := Aesdec(m, dk[8]);
    m := Aesdec(m, dk[9]);
    assert m == InvRounds(s, rk, rounds, rounds - 10);
    if rounds != 10 {
      m := Aesdec(m, dk[10]);
      m := Aesdec(m, dk[11]);
      assert m == InvRounds(s, rk, rounds, rounds - 12);
      if rounds == 14 {
        m := Aesdec(m, dk[12]);
        m := Aesdec(m, dk[13]);
      }
    }
    m := Aesdeclast(m, dk[rounds]);
  }
}
