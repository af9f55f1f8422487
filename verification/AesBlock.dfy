/** The reference implementation of the cipher: every step changes the 16 bytes of the state where
    they lie in the caller's buffer. */
module AesBlock {
  import opened AesField
  import opened AesTables
  import opened AesCipher

  /** The buffer z with the block b from byte p on. */
  function Put(z: seq<bv8>, p: nat, b: seq<bv8>): (r: seq<bv8>)
    requires Block(b) && p + 16 <= |z|
    ensures |r| == |z| && forall q :: 0 <= q < |z| ==> r[q] == if p <= q < p + 16 then b[q - p] else z[q]
  {
    z[..p] + b + z[p + 16..]
  }

  function Get(z: seq<bv8>, p: nat): (b: seq<bv8>)
    requires p + 16 <= |z|
    ensures Block(b) && forall i :: 0 <= i < 16 ==> b[i] == z[p + i]
  {
    z[p..p + 16]
  }

  lemma PutByte(z: seq<bv8>, p: nat, b: seq<bv8>, k: nat, v: bv8)
    requires Block(b) && p + 16 <= |z| && k < 16
    ensures Put(z, p, b)[p + k := v] == Put(z, p, b[k := v]) && Put(z, p, b)[p + k] == b[k]
  {
  }

  lemma PutSame(z: seq<bv8>, p: nat)
    requires p + 16 <= |z|
    ensures Put(z, p, Get(z, p)) == z
  {
  }

  lemma PutTwice(z: seq<bv8>, p: nat, b: seq<bv8>, c: seq<bv8>)
    requires Block(b) && Block(c) && p + 16 <= |z|
    ensures Put(Put(z, p, b), p, c) == Put(z, p, c) && Get(Put(z, p, b), p) == b
  {
  }

  /** Change byte r of column c of the state. */
  method Set(buf: array<bv8>, p: nat, c: nat, r: nat, v: bv8, ghost z: seq<bv8>, ghost b: seq<bv8>)
    requires p + 16 <= |z| && Block(b) && buf[..] == Put(z, p, b) && c < 4 && r < 4
    modifies buf
    ensures buf[..] == Put(z, p, b[4 * c + r := v])
  {
    PutByte(z, p, b, 4 * c + r, v);
    buf[p + 4 * c + r] := v;
  }

  /** Bytes of rows below i, and of row i the columns below j, are f of what they were. */
  ghost predicate SubbedBelow(f: bv8 -> bv8, s: seq<bv8>, b: seq<bv8>, i: nat, j: nat)
    requires Block(s) && Block(b)
  {
    forall k :: 0 <= k < 16 ==> b[k] == if k % 4 < i || (k % 4 == i && k / 4 < j) then f(s[k]) else s[k]
  }

  lemma SubStep(f: bv8 -> bv8, s: seq<bv8>, b: seq<bv8>, i: nat, j: nat)
    requires Block(s) && Block(b) && SubbedBelow(f, s, b, i, j) && i < 4 && j < 4
    ensures b[4 * j + i] == s[4 * j + i] && SubbedBelow(f, s, b[4 * j + i := f(s[4 * j + i])], i, j + 1)
  {
  }

  lemma SubRow(f: bv8 -> bv8, s: seq<bv8>, b: seq<bv8>, i: nat)
    requires Block(s) && Block(b) && SubbedBelow(f, s, b, i, 4)
    ensures SubbedBelow(f, s, b, i + 1, 0)
  {
  }

  method SubBytesInPlace(buf: array<bv8>, p: nat)
    requires p + 16 <= buf.Length
    modifies buf
    ensures buf[..] == Put(old(buf[..]), p, SubBytes(Get(old(buf[..]), p)))
  {
    hide Sbox;
    Substitute(buf, p, Sbox);
    ghost var s := Get(old(buf[..]), p);
    assert Substituted(Sbox, s) == SubBytes(s);
  }

  method InvSubBytesInPlace(buf: array<bv8>, p: nat)
    requires p + 16 <= buf.Length
    modifies buf
    ensures buf[..] == Put(old(buf[..]), p, InvSubBytes(Get(old(buf[..]), p)))
  {
    hide Rsbox;
    Substitute(buf, p, Rsbox);
    ghost var s := Get(old(buf[..]), p);
    assert Substituted(Rsbox, s) == InvSubBytes(s);
  }

  ghost function Substituted(f: bv8 -> bv8, s: seq<bv8>): (r: seq<bv8>)
    requires Block(s)
    ensures Block(r)
  {
    seq(16, i requires 0 <= i < 16 && Block(s) => f(s[i]))
  }

  /** The two loops over the state, by rows. */
  method Substitute(buf: array<bv8>, p: nat, f: bv8 -> bv8)
    requires p + 16 <= buf.Length
    modifies buf
    ensures buf[..] == Put(old(buf[..]), p, Substituted(f, Get(old(buf[..]), p)))
  {
    hide SubbedBelow, Substituted;
    ghost var z := buf[..];
    ghost var s := Get(z, p);
    ghost var b := s;
    PutSame(z, p);
    SubNone(f, s);
    for i := 0 to 4
      invariant Block(b) && buf[..] == Put(z, p, b) && SubbedBelow(f, s, b, i, 0)
    {
      for j := 0 to 4
        invariant Block(b) && buf[..] == Put(z, p, b) && SubbedBelow(f, s, b, i, j)
      {
        SubStep(f, s, b, i, j);
        PutByte(z, p, b, 4 * j + i, 0);
        Set(buf, p, j, i, f(buf[p + 4 * j + i]), z, b);
        b := b[4 * j + i := f(s[4 * j + i])];
      }
      SubRow(f, s, b, i);
    }
    SubAll(f, s, b);
  }

  lemma SubNone(f: bv8 -> bv8, s: seq<bv8>)
    requires Block(s)
    ensures SubbedBelow(f, s, s, 0, 0)
  {
  }

  lemma SubAll(f: bv8 -> bv8, s: seq<bv8>, b: seq<bv8>)
    requires Block(s) && Block(b) && SubbedBelow(f, s, b, 4, 0)
    ensures b == Substituted(f, s)
  {
  }

  method AddRoundKey(round: nat, buf: array<bv8>, p: nat, roundKey: array<bv8>)
    requires p + 16 <= buf.Length && roundKey.Length >= 16 * (round + 1) && buf != roundKey
    modifies buf
    ensures buf[..] == Put(old(buf[..]), p, AddBlocks(Get(old(buf[..]), p), Key(roundKey[..], round)))
  {
    hide Add, Put, Get, AddBlocks, Key;
    ghost var z := buf[..];
    ghost var s, k := Get(z, p), Key(roundKey[..], round);
    ghost var b := s;
    PutSame(z, p);
    for i := 0 to 4
      invariant Block(b) && buf[..] == Put(z, p, b) && AddedBelow(s, k, b, 4 * i)
    {
      for j := 0 to 4
        invariant Block(b) && buf[..] == Put(z, p, b) && AddedBelow(s, k, b, 4 * i + j)
      {
        PutByte(z, p, b, 4 * i + j, 0);
        KeyByte(roundKey[..], round, 4 * i + j);
        var v := Add(buf[p + 4 * i + j], roundKey[round * 4 * 4 + i * 4 + j]);
        Set(buf, p, i, j, v, z, b);
        b := b[4 * i + j := v];
      }
    }
    assert b == AddBlocks(s, k);
  }

  ghost predicate AddedBelow(s: seq<bv8>, k: seq<bv8>, b: seq<bv8>, n: nat)
    requires Block(s) && Block(b) && Block(k)
  {
    forall i :: 0 <= i < 16 ==> b[i] == if i < n then Add(s[i], k[i]) else s[i]
  }

  lemma KeyByte(rk: seq<bv8>, round: nat, i: nat)
    requires |rk| >= 16 * (round + 1) && i < 16
    ensures Key(rk, round)[i] == rk[16 * round + i]
  {
  }

  // ---- Rows.

  /** state[c][r] = state[c'][r]. */
  method Move(buf: array<bv8>, p: nat, c: nat, c': nat, r: nat, ghost z: seq<bv8>, ghost b: seq<bv8>)
    returns (ghost b': seq<bv8>)
    requires p + 16 <= |z| && Block(b) && buf[..] == Put(z, p, b) && c < 4 && c' < 4 && r < 4
    modifies buf
    ensures b' == b[4 * c + r := b[4 * c' + r]] && Block(b') && buf[..] == Put(z, p, b')
  {
    PutByte(z, p, b, 4 * c' + r, 0);
    Set(buf, p, c, r, buf[p + 4 * c' + r], z, b);
    b' := b[4 * c + r := b[4 * c' + r]];
  }

  lemma SameBytes<T>(b: seq<T>, c: seq<T>)
    requires |b| == |c| == 16
    requires b[0] == c[0] && b[1] == c[1] && b[2] == c[2] && b[3] == c[3]
    requires b[4] == c[4] && b[5] == c[5] && b[6] == c[6] && b[7] == c[7]
    requires b[8] == c[8] && b[9] == c[9] && b[10] == c[10] && b[11] == c[11]
    requires b[12] == c[12] && b[13] == c[13] && b[14] == c[14] && b[15] == c[15]
    ensures b == c
  {
  }

  lemma ShiftTable()
    ensures ShiftFrom(0) == 0 && ShiftFrom(4) == 4 && ShiftFrom(8) == 8 && ShiftFrom(12) == 12
    ensures ShiftFrom(1) == 5 && ShiftFrom(5) == 9 && ShiftFrom(9) == 13 && ShiftFrom(13) == 1
    ensures ShiftFrom(2) == 10 && ShiftFrom(6) == 14 && ShiftFrom(10) == 2 && ShiftFrom(14) == 6
    ensures ShiftFrom(3) == 15 && ShiftFrom(7) == 3 && ShiftFrom(11) == 7 && ShiftFrom(15) == 11
    ensures UnshiftFrom(0) == 0 && UnshiftFrom(4) == 4 && UnshiftFrom(8) == 8 && UnshiftFrom(12) == 12
    ensures UnshiftFrom(1) == 13 && UnshiftFrom(5) == 1 && UnshiftFrom(9) == 5 && UnshiftFrom(13) == 9
    ensures UnshiftFrom(2) == 10 && UnshiftFrom(6) == 14 && UnshiftFrom(10) == 2 && UnshiftFrom(14) == 6
    ensures UnshiftFrom(3) == 7 && UnshiftFrom(7) == 11 && UnshiftFrom(11) == 15 && UnshiftFrom(15) == 3
  {
  }

  lemma ShiftedIs(s: seq<bv8>, b: seq<bv8>)
    requires Block(s) && Block(b)
    requires b[0] == s[0] && b[4] == s[4] && b[8] == s[8] && b[12] == s[12]
    requires b[1] == s[5] && b[5] == s[9] && b[9] == s[13] && b[13] == s[1]
    requires b[2] == s[10] && b[6] == s[14] && b[10] == s[2] && b[14] == s[6]
    requires b[3] == s[15] && b[7] == s[3] && b[11] == s[7] && b[15] == s[11]
    ensures b == ShiftRows(s)
  {
    hide ShiftFrom, ShiftRows;
    ShiftTable();
    SameBytes(b, ShiftRows(s));
  }

  lemma ShiftedBackIs(s: seq<bv8>, b: seq<bv8>)
    requires Block(s) && Block(b)
    requires b[0] == s[0] && b[4] == s[4] && b[8] == s[8] && b[12] == s[12]
    requires b[1] == s[13] && b[5] == s[1] && b[9] == s[5] && b[13] == s[9]
    requires b[2] == s[10] && b[6] == s[14] && b[10] == s[2] && b[14] == s[6]
    requires b[3] == s[7] && b[7] == s[11] && b[11] == s[15] && b[15] == s[3]
    ensures b == InvShiftRows(s)
  {
    hide UnshiftFrom, InvShiftRows;
    ShiftTable();
    SameBytes(b, InvShiftRows(s));
  }

  /** Byte k of the state goes to a temporary. */
  method Temp(buf: array<bv8>, p: nat, c: nat, r: nat, ghost z: seq<bv8>, ghost b: seq<bv8>) returns (temp: bv8)
    requires p + 16 <= |z| && Block(b) && buf[..] == Put(z, p, b) && c < 4 && r < 4
    ensures temp == b[4 * c + r]
  {
    PutByte(z, p, b, 4 * c + r, 0);
    temp := buf[p + 4 * c + r];
  }

  /** Row r goes one column to the left: rows 1 and, in the inverse, 3. */
  method RowLeft(buf: array<bv8>, p: nat, r: nat, ghost z: seq<bv8>, ghost b: seq<bv8>) returns (ghost b': seq<bv8>)
    requires p + 16 <= |z| && Block(b) && buf[..] == Put(z, p, b) && r < 4
    modifies buf
    ensures b' == b[r := b[4 + r]][4 + r := b[8 + r]][8 + r := b[12 + r]][12 + r := b[r]]
    ensures Block(b') && buf[..] == Put(z, p, b')
  {
    hide Put;
    var temp := Temp(buf, p, 0, r, z, b);
    b' := Move(buf, p, 0, 1, r, z, b);
    b' := Move(buf, p, 1, 2, r, z, b');
    b' := Move(buf, p, 2, 3, r, z, b');
    Set(buf, p, 3, r, temp, z, b');
    b' := b'[12 + r := temp];
  }

  /** Row r goes one column to the right: rows 3 and, in the inverse, 1. */
  method RowRight(buf: array<bv8>, p: nat, r: nat, ghost z: seq<bv8>, ghost b: seq<bv8>) returns (ghost b': seq<bv8>)
    requires p + 16 <= |z| && Block(b) && buf[..] == Put(z, p, b) && r < 4
    modifies buf
    ensures b' == b[12 + r := b[8 + r]][8 + r := b[4 + r]][4 + r := b[r]][r := b[12 + r]]
    ensures Block(b') && buf[..] == Put(z, p, b')
  {
    hide Put;
    var temp := Temp(buf, p, 3, r, z, b);
    b' := Move(buf, p, 3, 2, r, z, b);
    b' := Move(buf, p, 2, 1, r, z, b');
    b' := Move(buf, p, 1, 0, r, z, b');
    Set(buf, p, 0, r, temp, z, b');
    b' := b'[r := temp];
  }

  /** Row 2 goes two columns, in two swaps. */
  method RowTwo(buf: array<bv8>, p: nat, ghost z: seq<bv8>, ghost b: seq<bv8>) returns (ghost b': seq<bv8>)
    requires p + 16 <= |z| && Block(b) && buf[..] == Put(z, p, b)
    modifies buf
    ensures b' == b[2 := b[10]][10 := b[2]][6 := b[14]][14 := b[6]]
    ensures Block(b') && buf[..] == Put(z, p, b')
  {
    hide Put;
    var temp := Temp(buf, p, 0, 2, z, b);
    b' := Move(buf, p, 0, 2, 2, z, b);
    Set(buf, p, 2, 2, temp, z, b');
    b' := b'[10 := temp];
    temp := Temp(buf, p, 1, 2, z, b');
    b' := Move(buf, p, 1, 3, 2, z, b');
    Set(buf, p, 3, 2, temp, z, b');
    b' := b'[14 := temp];
  }

  method ShiftRowsInPlace(buf: array<bv8>, p: nat)
    requires p + 16 <= buf.Length
    modifies buf
    ensures buf[..] == Put(old(buf[..]), p, ShiftRows(Get(old(buf[..]), p)))
  {
    hide Put, Get, ShiftRows, ShiftFrom;
    ghost var z := buf[..];
    ghost var s := Get(z, p);
    PutSame(z, p);
    ghost var b := RowLeft(buf, p, 1, z, s);
    b := RowTwo(buf, p, z, b);
    b := RowRight(buf, p, 3, z, b);
    ShiftedIs(s, b);
  }

  method InvShiftRowsInPlace(buf: array<bv8>, p: nat)
    requires p + 16 <= buf.Length
    modifies buf
    ensures buf[..] == Put(old(buf[..]), p, InvShiftRows(Get(old(buf[..]), p)))
  {
    hide Put, Get, InvShiftRows, UnshiftFrom;
    ghost var z := buf[..];
    ghost var s := Get(z, p);
    PutSame(z, p);
    ghost var b := RowRight(buf, p, 1, z, s);
    b := RowTwo(buf, p, z, b);
    b := RowLeft(buf, p, 3, z, b);
    ShiftedBackIs(s, b);
  }

  // ---- Columns.

  /** Columns below i are mixed. */
  ghost predicate MixedBelow(s: seq<bv8>, t: seq<bv8>, b: seq<bv8>, i: nat)
    requires Block(s) && Block(t) && Block(b)
  {
    forall k :: 0 <= k < 16 ==> b[k] == if k < 4 * i then t[k] else s[k]
  }

  lemma ColumnDone(s: seq<bv8>, t: seq<bv8>, b: seq<bv8>, i: nat)
    requires Block(s) && Block(t) && Block(b) && i < 4 && MixedBelow(s, t, b, i)
    ensures MixedBelow(s, t, b[4 * i := t[4 * i]][4 * i + 1 := t[4 * i + 1]][4 * i + 2 := t[4 * i + 2]]
                            [4 * i + 3 := t[4 * i + 3]], i + 1)
    ensures b[4 * i] == s[4 * i] && b[4 * i + 1] == s[4 * i + 1]
    ensures b[4 * i + 2] == s[4 * i + 2] && b[4 * i + 3] == s[4 * i + 3]
  {
  }

  lemma MixedNoneOrAll(s: seq<bv8>, t: seq<bv8>, b: seq<bv8>)
    requires Block(s) && Block(t) && Block(b)
    ensures MixedBelow(s, t, s, 0)
    ensures MixedBelow(s, t, b, 4) ==> b == t
  {
  }

  /** The four bytes of column i, mixed. */
  lemma MixOfColumn(s: seq<bv8>, i: nat, a: bv8, b: bv8, c: bv8, d: bv8)
    requires Block(s) && i < 4 && a == s[4 * i] && b == s[4 * i + 1] && c == s[4 * i + 2] && d == s[4 * i + 3]
    ensures var t := MixColumns(s);
            && t[4 * i] == Mix(a, b, c, d) && t[4 * i + 1] == Mix(b, c, d, a)
            && t[4 * i + 2] == Mix(c, d, a, b) && t[4 * i + 3] == Mix(d, a, b, c)
    ensures var t := InvMixColumns(s);
            && t[4 * i] == InvMix(a, b, c, d) && t[4 * i + 1] == InvMix(b, c, d, a)
            && t[4 * i + 2] == InvMix(c, d, a, b) && t[4 * i + 3] == InvMix(d, a, b, c)
  {
    hide Mix, InvMix, Below;
    BelowAt(i);
  }

  /** The four bytes of column i lie in the buffer. */
  lemma Column(z: seq<bv8>, p: nat, b: seq<bv8>, i: nat)
    requires Block(b) && p + 16 <= |z| && i < 4
    ensures |Put(z, p, b)| == |z|
    ensures Put(z, p, b)[p + 4 * i] == b[4 * i] && Put(z, p, b)[p + 4 * i + 1] == b[4 * i + 1]
    ensures Put(z, p, b)[p + 4 * i + 2] == b[4 * i + 2] && Put(z, p, b)[p + 4 * i + 3] == b[4 * i + 3]
  {
  }

  /** What the column step makes of byte x above byte y, tmp being the sum of the column. */
  function MixByte(x: bv8, y: bv8, tmp: bv8): bv8 {
    var tm := Xtime(x ^ y);
    x ^ (tm ^ tmp)
  }

  lemma MixByteIs(a: bv8, b: bv8, c: bv8, d: bv8)
    ensures MixByte(a, b, Sum(a, b, c, d)) == Mix(a, b, c, d)
  {
    hide Xtime, Mix;
    MixByXtime(a, b, c, d);
  }

  /** Mix column i, with one xtime a byte. */
  method MixColumn(buf: array<bv8>, p: nat, i: nat, ghost z: seq<bv8>, ghost s: seq<bv8>, ghost b: seq<bv8>)
    returns (ghost b': seq<bv8>)
    requires p + 16 <= |z| && Block(s) && Block(b) && buf[..] == Put(z, p, b) && i < 4
    requires MixedBelow(s, MixColumns(s), b, i)
    modifies buf
    ensures Block(b') && buf[..] == Put(z, p, b') && MixedBelow(s, MixColumns(s), b', i + 1)
  {
    hide *;
    ColumnDone(s, MixColumns(s), b, i);
    Column(z, p, b, i);
    var q := p + 4 * i;
    MixOfColumn(s, i, buf[q], buf[q + 1], buf[q + 2], buf[q + 3]);
    MixByteIs(buf[q], buf[q + 1], buf[q + 2], buf[q + 3]);
    MixByteIs(buf[q + 1], buf[q + 2], buf[q + 3], buf[q]);
    MixByteIs(buf[q + 2], buf[q + 3], buf[q], buf[q + 1]);
    MixByteIs(buf[q + 3], buf[q], buf[q + 1], buf[q + 2]);
    SumTurns(buf[q], buf[q + 1], buf[q + 2], buf[q + 3]);

    var first := buf[q];
    var Tmp := Sum(buf[q], buf[q + 1], buf[q + 2], buf[q + 3]);
    b' := SetMixed(buf, p, i, 0, MixByte(buf[q], buf[q + 1], Tmp), z, b, MixColumns(s));
    b' := SetMixed(buf, p, i, 1, MixByte(buf[q + 1], buf[q + 2], Tmp), z, b', MixColumns(s));
    b' := SetMixed(buf, p, i, 2, MixByte(buf[q + 2], buf[q + 3], Tmp), z, b', MixColumns(s));
    b' := SetMixed(buf, p, i, 3, MixByte(buf[q + 3], first, Tmp), z, b', MixColumns(s));
  }

  /** Set byte r of column i to its mixed value; the column stays readable. */
  method SetMixed(buf: array<bv8>, p: nat, i: nat, r: nat, v: bv8, ghost z: seq<bv8>, ghost b: seq<bv8>, ghost t: seq<bv8>)
    returns (ghost b': seq<bv8>)
    requires p + 16 <= |z| && Block(t) && Block(b) && buf[..] == Put(z, p, b) && i < 4 && r < 4
    requires v == t[4 * i + r]
    modifies buf
    ensures b' == b[4 * i + r := v] && Block(b') && buf[..] == Put(z, p, b') && buf.Length == |z|
    ensures forall q :: p <= q < p + 16 && q != p + 4 * i + r ==> buf[q] == old(buf[q])
  {
    Set(buf, p, i, r, v, z, b);
    b' := b[4 * i + r := v];
  }

  method MixColumnsInPlace(buf: array<bv8>, p: nat)
    requires p + 16 <= buf.Length
    modifies buf
    ensures buf[..] == Put(old(buf[..]), p, MixColumns(Get(old(buf[..]), p)))
  {
    hide *;
    ghost var z := buf[..];
    ghost var s := Get(z, p);
    ghost var b := s;
    PutSame(z, p);
    MixedNoneOrAll(s, MixColumns(s), s);
    for i := 0 to 4
      invariant Block(b) && buf[..] == Put(z, p, b) && MixedBelow(s, MixColumns(s), b, i)
    {
      b := MixColumn(buf, p, i, z, s, b);
    }
    MixedNoneOrAll(s, MixColumns(s), b);
  }

  lemma InvMixIs(a: bv8, b: bv8, c: bv8, d: bv8)
    ensures InvMix(a, b, c, d) == Sum(Multiply(a, 0x0e), Multiply(b, 0x0b), Multiply(c, 0x0d), Multiply(d, 0x09))
  {
    hide Sum, Multiply;
  }

  method InvMixBytes(a: bv8, b: bv8, c: bv8, d: bv8) returns (a': bv8, b': bv8, c': bv8, d': bv8)
    ensures a' == InvMix(a, b, c, d) && b' == InvMix(b, c, d, a)
    ensures c' == InvMix(c, d, a, b) && d' == InvMix(d, a, b, c)
  {
    hide *;
    InvMixIs(a, b, c, d);
    InvMixIs(b, c, d, a);
    InvMixIs(c, d, a, b);
    InvMixIs(d, a, b, c);
    a' := Sum(Multiply(a, 0x0e), Multiply(b, 0x0b), Multiply(c, 0x0d), Multiply(d, 0x09));
    b' := Sum(Multiply(a, 0x09), Multiply(b, 0x0e), Multiply(c, 0x0b), Multiply(d, 0x0d));
    c' := Sum(Multiply(a, 0x0d), Multiply(b, 0x09), Multiply(c, 0x0e), Multiply(d, 0x0b));
    d' := Sum(Multiply(a, 0x0b), Multiply(b, 0x0d), Multiply(c, 0x09), Multiply(d, 0x0e));
    SumTurns(Multiply(a, 0x09), Multiply(b, 0x0e), Multiply(c, 0x0b), Multiply(d, 0x0d));
    SumTurns(Multiply(a, 0x0d), Multiply(b, 0x09), Multiply(c, 0x0e), Multiply(d, 0x0b));
    SumTurns(Multiply(a, 0x0b), Multiply(b, 0x0d), Multiply(c, 0x09), Multiply(d, 0x0e));
  }

  method InvMixColumnsInPlace(buf: array<bv8>, p: nat)
    requires p + 16 <= buf.Length
    modifies buf
    ensures buf[..] == Put(old(buf[..]), p, InvMixColumns(Get(old(buf[..]), p)))
  {
    hide *;
    ghost var z := buf[..];
    ghost var s := Get(z, p);
    ghost var t, b := InvMixColumns(s), s;
    PutSame(z, p);
    MixedNoneOrAll(s, t, s);
    for i := 0 to 4
      invariant Block(b) && buf[..] == Put(z, p, b) && MixedBelow(s, t, b, i)
    {
      ColumnDone(s, t, b, i);
      Column(z, p, b, i);
      var q := p + 4 * i;
      MixOfColumn(s, i, buf[q], buf[q + 1], buf[q + 2], buf[q + 3]);
      var a0, a1, a2, a3 := InvMixBytes(buf[q], buf[q + 1], buf[q + 2], buf[q + 3]);
      b := SetMixed(buf, p, i, 0, a0, z, b, t);
      b := SetMixed(buf, p, i, 1, a1, z, b, t);
      b := SetMixed(buf, p, i, 2, a2, z, b, t);
      b := SetMixed(buf, p, i, 3, a3, z, b, t);
    }
    MixedNoneOrAll(s, t, b);
  }

  // ---- The cipher in the buffer.

  /** One step after another in the same 16 bytes. */
  method CipherInPlace(buf: array<bv8>, p: nat, roundKey: array<bv8>, nr: nat)
    requires p + 16 <= buf.Length && buf != roundKey && Schedule(roundKey[..], nr)
    modifies buf
    ensures buf[..] == Put(old(buf[..]), p, Cipher(Get(old(buf[..]), p), roundKey[..], nr))
  {
    hide Put, Get, SubBytes, ShiftRows, MixColumns, AddBlocks, Key;
    ghost var z, rk := buf[..], roundKey[..];
    ghost var s := Get(z, p);
    AddRoundKey(0, buf, p, roundKey);
    for round := 1 to nr
      invariant buf[..] == Put(z, p, Rounds(s, rk, round - 1))
    {
      ghost var b := Rounds(s, rk, round - 1);
      SubBytesInPlace(buf, p);
      PutTwice(z, p, b, SubBytes(b));
      b := SubBytes(b);
      ShiftRowsInPlace(buf, p);
      PutTwice(z, p, b, ShiftRows(b));
      b := ShiftRows(b);
      MixColumnsInPlace(buf, p);
      PutTwice(z, p, b, MixColumns(b));
      b := MixColumns(b);
      AddRoundKey(round, buf, p, roundKey);
      PutTwice(z, p, b, AddBlocks(b, Key(rk, round)));
    }
    ghost var b := Rounds(s, rk, nr - 1);
    SubBytesInPlace(buf, p);
    PutTwice(z, p, b, SubBytes(b));
    b := SubBytes(b);
    ShiftRowsInPlace(buf, p);
    PutTwice(z, p, b, ShiftRows(b));
    b := ShiftRows(b);
    AddRoundKey(nr, buf, p, roundKey);
    PutTwice(z, p, b, AddBlocks(b, Key(rk, nr)));
  }

  method InvRoundInPlace(buf: array<bv8>, p: nat, round: nat, roundKey: array<bv8>, ghost z: seq<bv8>, ghost b: seq<bv8>)
    requires p + 16 <= |z| && Block(b) && buf[..] == Put(z, p, b)
    requires roundKey.Length >= 16 * (round + 1) && buf != roundKey
    modifies buf
    ensures buf[..] == Put(z, p, AddBlocks(InvSubBytes(InvShiftRows(b)), Key(roundKey[..], round)))
  {
    hide *;
    PutByte(z, p, b, 0, 0);
    InvShiftRowsInPlace(buf, p);
    PutTwice(z, p, b, InvShiftRows(b));
    ghost var c := InvShiftRows(b);
    InvSubBytesInPlace(buf, p);
    PutTwice(z, p, c, InvSubBytes(c));
    c := InvSubBytes(c);
    AddRoundKey(round, buf, p, roundKey);
    PutTwice(z, p, c, AddBlocks(c, Key(roundKey[..], round)));
  }

  method InvCipherInPlace(buf: array<bv8>, p: nat, roundKey: array<bv8>, nr: nat)
    requires p + 16 <= buf.Length && buf != roundKey && Schedule(roundKey[..], nr)
    modifies buf
    ensures buf[..] == Put(old(buf[..]), p, InvCipher(Get(old(buf[..]), p), roundKey[..], nr))
  {
    hide *;
    ghost var z, rk := buf[..], roundKey[..];
    ghost var s := Get(z, p);
    InvRoundsStep(s, rk, nr, 0);
    AddRoundKey(nr, buf, p, roundKey);
    var round := nr - 1;
    while round > 0
      invariant 0 <= round < nr && buf[..] == Put(z, p, InvRounds(s, rk, nr, round))
    {
      InvRoundsStep(s, rk, nr, round);
      ghost var b := InvRounds(s, rk, nr, round);
      InvRoundInPlace(buf, p, round, roundKey, z, b);
      b := AddBlocks(InvSubBytes(InvShiftRows(b)), Key(rk, round));
      InvMixColumnsInPlace(buf, p);
      PutTwice(z, p, b, InvMixColumns(b));
      round := round - 1;
    }
    InvRoundInPlace(buf, p, 0, roundKey, z, InvRounds(s, rk, nr, 0));
  }
}
