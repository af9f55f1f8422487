/** The cipher of FIPS 197 on blocks of 16 bytes, byte 4c+r being row r of column c: the steps, the
    rounds, the straight inverse of section 5.3 and the equivalent inverse of section 5.3.5. */
module AesCipher {
  import opened AesField
  import opened AesTables

  ghost predicate Block(s: seq<bv8>) {
    |s| == 16
  }

  /** The byte k rows below byte i, cyclically within its column. */
  function Below(i: nat, k: nat): (j: nat)
    requires i < 16
    ensures j < 16
  {
    i / 4 * 4 + (i + k) % 4
  }

  /** Where ShiftRows takes byte i = 4c+r from: r columns on, byte 4(c+r)+r of 16, which is 5i. */
  function ShiftFrom(i: nat): (j: nat)
    requires i < 16
    ensures j < 16
  {
    5 * i % 16
  }

  function UnshiftFrom(i: nat): (j: nat)
    requires i < 16
    ensures j < 16
  {
    13 * i % 16
  }

  /** Every byte stays in its row and moves as many columns as the number of the row. */
  lemma ShiftFromIs(c: nat, r: nat)
    requires c < 4 && r < 4
    ensures ShiftFrom(4 * c + r) == 4 * ((c + r) % 4) + r
  {
    var k := (c + r) / 4;
    SixteenTimes(5 * (4 * c + r), c + k, 4 * ((c + r) % 4) + r);
  }

  lemma SixteenTimes(x: nat, q: int, j: nat)
    requires x == 16 * q + j && j < 16
    ensures x % 16 == j
  {
  }

  lemma SixteenParts(x: nat)
    ensures x == 16 * (x / 16) + x % 16
  {
  }

  function SubBytes(s: seq<bv8>): (r: seq<bv8>)
    requires Block(s)
    ensures Block(r) && forall i :: 0 <= i < 16 ==> r[i] == Sbox(s[i])
  {
    seq(16, i requires 0 <= i < 16 && Block(s) => Sbox(s[i]))
  }

  function InvSubBytes(s: seq<bv8>): (r: seq<bv8>)
    requires Block(s)
    ensures Block(r) && forall i :: 0 <= i < 16 ==> r[i] == Rsbox(s[i])
  {
    seq(16, i requires 0 <= i < 16 && Block(s) => Rsbox(s[i]))
  }

  function ShiftRows(s: seq<bv8>): (r: seq<bv8>)
    requires Block(s)
    ensures Block(r) && forall i :: 0 <= i < 16 ==> r[i] == s[ShiftFrom(i)]
  {
    seq(16, i requires 0 <= i < 16 && Block(s) => s[ShiftFrom(i)])
  }

  function InvShiftRows(s: seq<bv8>): (r: seq<bv8>)
    requires Block(s)
    ensures Block(r) && forall i :: 0 <= i < 16 ==> r[i] == s[UnshiftFrom(i)]
  {
    seq(16, i requires 0 <= i < 16 && Block(s) => s[UnshiftFrom(i)])
  }

  function MixAt(s: seq<bv8>, i: nat): bv8
    requires Block(s) && i < 16
  {
    Mix(s[i], s[Below(i, 1)], s[Below(i, 2)], s[Below(i, 3)])
  }

  function InvMixAt(s: seq<bv8>, i: nat): bv8
    requires Block(s) && i < 16
  {
    InvMix(s[i], s[Below(i, 1)], s[Below(i, 2)], s[Below(i, 3)])
  }

  function MixColumns(s: seq<bv8>): (r: seq<bv8>)
    requires Block(s)
    ensures Block(r) && forall i :: 0 <= i < 16 ==> r[i] == MixAt(s, i)
  {
    seq(16, i requires 0 <= i < 16 && Block(s) => MixAt(s, i))
  }

  function InvMixColumns(s: seq<bv8>): (r: seq<bv8>)
    requires Block(s)
    ensures Block(r) && forall i :: 0 <= i < 16 ==> r[i] == InvMixAt(s, i)
  {
    seq(16, i requires 0 <= i < 16 && Block(s) => InvMixAt(s, i))
  }

  function AddBlocks(s: seq<bv8>, t: seq<bv8>): (r: seq<bv8>)
    requires Block(s) && Block(t)
    ensures Block(r) && forall i :: 0 <= i < 16 ==> r[i] == Add(s[i], t[i])
  {
    seq(16, i requires 0 <= i < 16 && Block(s) && Block(t) => Add(s[i], t[i]))
  }

  /** The round keys of nr rounds. */
  ghost predicate Schedule(rk: seq<bv8>, nr: nat) {
    nr > 0 && |rk| >= 16 * (nr + 1)
  }

  function Key(rk: seq<bv8>, round: nat): (k: seq<bv8>)
    requires |rk| >= 16 * (round + 1)
    ensures Block(k)
  {
    rk[16 * round..16 * round + 16]
  }

  // ---- The cipher.

  function Round(s: seq<bv8>, key: seq<bv8>): (r: seq<bv8>)
    requires Block(s) && Block(key)
    ensures Block(r)
  {
    AddBlocks(MixColumns(ShiftRows(SubBytes(s))), key)
  }

  /** The state after round n, the whitening being round 0. */
  function Rounds(s: seq<bv8>, rk: seq<bv8>, n: nat): (r: seq<bv8>)
    requires Block(s) && |rk| >= 16 * (n + 1)
    ensures Block(r)
    decreases n
  {
    if n == 0 then AddBlocks(s, Key(rk, 0)) else Round(Rounds(s, rk, n - 1), Key(rk, n))
  }

  function Cipher(s: seq<bv8>, rk: seq<bv8>, nr: nat): (r: seq<bv8>)
    requires Block(s) && Schedule(rk, nr)
    ensures Block(r)
  {
    AddBlocks(ShiftRows(SubBytes(Rounds(s, rk, nr - 1))), Key(rk, nr))
  }

  // ---- Its inverse, the steps undone one by one.

  function InvRound(s: seq<bv8>, key: seq<bv8>): (r: seq<bv8>)
    requires Block(s) && Block(key)
    ensures Block(r)
  {
    InvMixColumns(AddBlocks(InvSubBytes(InvShiftRows(s)), key))
  }

  /** The state when rounds nr-1 down to n+1 have been undone. */
  function InvRounds(s: seq<bv8>, rk: seq<bv8>, nr: nat, n: nat): (r: seq<bv8>)
    requires Block(s) && Schedule(rk, nr) && n < nr
    ensures Block(r)
    decreases nr - n
  {
    if n == nr - 1 then AddBlocks(s, Key(rk, nr)) else InvRound(InvRounds(s, rk, nr, n + 1), Key(rk, n + 1))
  }

  function InvCipher(s: seq<bv8>, rk: seq<bv8>, nr: nat): (r: seq<bv8>)
    requires Block(s) && Schedule(rk, nr)
    ensures Block(r)
  {
    AddBlocks(InvSubBytes(InvShiftRows(InvRounds(s, rk, nr, 0))), Key(rk, 0))
  }

  lemma InvRoundsStep(s: seq<bv8>, rk: seq<bv8>, nr: nat, n: nat)
    requires Block(s) && Schedule(rk, nr)
    ensures nr > 0 && |rk| >= 16 * (nr + 1) && InvRounds(s, rk, nr, nr - 1) == AddBlocks(s, Key(rk, nr))
    ensures 0 < n < nr ==>
              InvRounds(s, rk, nr, n - 1) ==
              InvMixColumns(AddBlocks(InvSubBytes(InvShiftRows(InvRounds(s, rk, nr, n))), Key(rk, n)))
    ensures InvCipher(s, rk, nr) == AddBlocks(InvSubBytes(InvShiftRows(InvRounds(s, rk, nr, 0))), Key(rk, 0))
  {
    hide InvSubBytes, InvShiftRows, InvMixColumns, AddBlocks, Key;
  }

  // ---- Each step is undone by its inverse.

  lemma SubBytesUndone(s: seq<bv8>)
    requires Block(s)
    ensures InvSubBytes(SubBytes(s)) == s
  {
    hide Sbox, Rsbox;
    forall i | 0 <= i < 16 ensures InvSubBytes(SubBytes(s))[i] == s[i] {
      SboxUndone(s[i]);
    }
  }

  lemma ShiftRowsUndone(s: seq<bv8>)
    requires Block(s)
    ensures InvShiftRows(ShiftRows(s)) == s
  {
    hide ShiftFrom, UnshiftFrom;
    forall i | 0 <= i < 16 ensures InvShiftRows(ShiftRows(s))[i] == s[i] {
      ShiftedBack(i);
    }
  }

  lemma ShiftedBack(i: nat)
    requires i < 16
    ensures ShiftFrom(UnshiftFrom(i)) == i
  {
    var q, r := 13 * i / 16, 13 * i % 16;
    SixteenParts(13 * i);
    SixteenTimes(5 * r, 4 * i - 5 * q, i);
  }

  lemma BelowBelow(i: nat, j: nat, k: nat)
    requires i < 16
    ensures Below(Below(i, j), k) == Below(i, j + k) && Below(i, k + 4) == Below(i, k) && Below(i, 0) == i
  {
    hide *;
    BelowParts(i, j);
    BelowParts(i, j + k);
    BelowParts(i, k + 4);
    BelowParts(i, k);
    BelowParts(i, 0);
    BelowParts(Below(i, j), k);
    RemainderSum(ColumnOf(i), i + j, k);
    RemainderSum(0, i + k, 4);
    InColumn(i);
  }

  function ColumnOf(i: nat): nat {
    i / 4
  }

  function RowOf(i: nat): nat {
    i % 4
  }

  lemma InColumn(i: nat)
    ensures ColumnOf(i) * 4 + RowOf(i) == i
  {
  }

  lemma BelowParts(i: nat, k: nat)
    requires i < 16
    ensures Below(i, k) == ColumnOf(i) * 4 + RowOf(i + k) && ColumnOf(Below(i, k)) == ColumnOf(i)
  {
  }

  lemma RemainderSum(q: nat, x: nat, k: nat)
    ensures RowOf(q * 4 + RowOf(x) + k) == RowOf(x + k) && RowOf(x + 4) == RowOf(x)
  {
  }

  lemma BelowAt(i: nat)
    requires i < 4
    ensures Below(4 * i, 1) == 4 * i + 1 && Below(4 * i, 2) == 4 * i + 2 && Below(4 * i, 3) == 4 * i + 3
    ensures Below(4 * i + 1, 1) == 4 * i + 2 && Below(4 * i + 1, 2) == 4 * i + 3 && Below(4 * i + 1, 3) == 4 * i
    ensures Below(4 * i + 2, 1) == 4 * i + 3 && Below(4 * i + 2, 2) == 4 * i && Below(4 * i + 2, 3) == 4 * i + 1
    ensures Below(4 * i + 3, 1) == 4 * i && Below(4 * i + 3, 2) == 4 * i + 1 && Below(4 * i + 3, 3) == 4 * i + 2
  {
    hide *;
    SmallRows();
    BelowOf(i, 0, 1);
    BelowOf(i, 0, 2);
    BelowOf(i, 0, 3);
    BelowOf(i, 1, 1);
    BelowOf(i, 1, 2);
    BelowOf(i, 1, 3);
    BelowOf(i, 2, 1);
    BelowOf(i, 2, 2);
    BelowOf(i, 2, 3);
    BelowOf(i, 3, 1);
    BelowOf(i, 3, 2);
    BelowOf(i, 3, 3);
  }

  lemma SmallRows()
    ensures forall x: nat :: x < 4 ==> RowOf(x) == x
    ensures RowOf(4) == 0 && RowOf(5) == 1 && RowOf(6) == 2
  {
  }

  lemma BelowOf(i: nat, r: nat, k: nat)
    requires i < 4 && r < 4
    ensures Below(4 * i + r, k) == 4 * i + RowOf(r + k)
  {
    hide *;
    BelowParts(4 * i + r, k);
    ColumnIs(i, r, k);
  }

  lemma ColumnIs(i: nat, r: nat, k: nat)
    requires r < 4
    ensures ColumnOf(4 * i + r) == i && RowOf(4 * i + r + k) == RowOf(r + k)
  {
  }

  lemma MixColumnsUndone(s: seq<bv8>)
    requires Block(s)
    ensures InvMixColumns(MixColumns(s)) == s
  {
    hide Mix, InvMix, Below;
    forall i | 0 <= i < 16 ensures InvMixColumns(MixColumns(s))[i] == s[i] {
      var b, c, d := Below(i, 1), Below(i, 2), Below(i, 3);
      BelowBelow(i, 1, 1);
      BelowBelow(i, 1, 2);
      BelowBelow(i, 1, 3);
      BelowBelow(i, 2, 1);
      BelowBelow(i, 2, 2);
      BelowBelow(i, 2, 3);
      BelowBelow(i, 3, 1);
      BelowBelow(i, 3, 2);
      BelowBelow(i, 3, 3);
      BelowBelow(i, 0, 0);
      BelowBelow(i, 0, 1);
      BelowBelow(i, 0, 2);
      MixUndone(s[i], s[b], s[c], s[d]);
    }
  }

  lemma AddTwice(x: bv8, y: bv8)
    ensures Add(Add(x, y), y) == x
  {
  }

  lemma AddBlocksUndone(s: seq<bv8>, t: seq<bv8>)
    requires Block(s) && Block(t)
    ensures AddBlocks(AddBlocks(s, t), t) == s
  {
    hide Add;
    forall i | 0 <= i < 16 ensures AddBlocks(AddBlocks(s, t), t)[i] == s[i] {
      AddTwice(s[i], t[i]);
    }
  }

  /** Undoing rounds nr-1 down to n+1 leaves round n before its last two steps. */
  lemma {:induction false} RoundsUndone(s: seq<bv8>, rk: seq<bv8>, nr: nat, n: nat)
    requires Block(s) && Schedule(rk, nr) && n < nr
    ensures InvRounds(Cipher(s, rk, nr), rk, nr, n) == ShiftRows(SubBytes(Rounds(s, rk, n)))
    decreases nr - n
  {
    hide SubBytes, ShiftRows, MixColumns, InvSubBytes, InvShiftRows, InvMixColumns, AddBlocks, Key;
    var at := SubBytes(Rounds(s, rk, n));
    if n == nr - 1 {
      AddBlocksUndone(ShiftRows(at), Key(rk, nr));
    } else {
      RoundsUndone(s, rk, nr, n + 1);
      var next := Rounds(s, rk, n + 1);
      ShiftRowsUndone(SubBytes(next));
      SubBytesUndone(next);
      AddBlocksUndone(MixColumns(ShiftRows(at)), Key(rk, n + 1));
      MixColumnsUndone(ShiftRows(at));
    }
  }

  /** Deciphering undoes enciphering, whatever the round keys. */
  lemma CipherUndone(s: seq<bv8>, rk: seq<bv8>, nr: nat)
    requires Block(s) && Schedule(rk, nr)
    ensures InvCipher(Cipher(s, rk, nr), rk, nr) == s
  {
    hide SubBytes, ShiftRows, InvSubBytes, InvShiftRows, InvMixColumns, AddBlocks, Key, Cipher, InvRounds;
    RoundsUndone(s, rk, nr, 0);
    var first := AddBlocks(s, Key(rk, 0));
    ShiftRowsUndone(SubBytes(first));
    SubBytesUndone(first);
    AddBlocksUndone(s, Key(rk, 0));
  }
}
