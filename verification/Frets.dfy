/** The lengths of partitions as bytes: one byte below 255, else 255 and four more bytes. */
module Frets {

  const W32: int := 0x1_0000_0000

  function FourBytes(n: nat): (b: seq<nat>)
    ensures |b| == 4
  {
    [n % 256, n / 256 % 256, n / 65536 % 256, n / 16777216 % 256]
  }

  function Encode(len: nat): (b: seq<nat>)
    ensures 1 <= |b| <= 5
    ensures |b| == 5 <==> len >= 255
  {
    if len < 255 then [len] else [255] + FourBytes(len)
  }

  function EncodeAll(lens: seq<nat>): (b: seq<nat>)
    ensures |lens| <= |b| <= 5 * |lens|
  {
    if lens == [] then [] else EncodeAll(lens[..|lens| - 1]) + Encode(lens[|lens| - 1])
  }

  /** One byte, or 255 and four bytes that give the length modulo 2^32, the lowest first. */
  lemma EncodeIs(len: nat)
    ensures var b := Encode(len);
            if len < 255 then b == [len]
            else |b| == 5 && b[0] == 255 && (forall i :: 1 <= i < 5 ==> b[i] < 256)
                 && b[1] + 256 * b[2] + 65536 * b[3] + 16777216 * b[4] == len % W32
  {
    FourBytesValue(len);
    FourBytesSmall(len);
    hide FourBytes;
  }

  lemma FourBytesSmall(n: nat)
    ensures forall i :: 0 <= i < 4 ==> FourBytes(n)[i] < 256
  {
  }

  lemma {:induction false} EncodeIsPrefix(lens: seq<nat>, i: nat)
    requires i <= |lens|
    ensures EncodeAll(lens[..i]) <= EncodeAll(lens)
  {
    if i < |lens| {
      assert lens[..|lens| - 1][..i] == lens[..i];
      EncodeIsPrefix(lens[..|lens| - 1], i);
    } else {
      assert lens[..i] == lens;
    }
  }

  /** The bytes reserved for the frets of n items in nfrets partitions. */
  function MaxSize(n: nat, nfrets: nat): nat {
    var long := if n / 256 < nfrets then nfrets else n / 256;
    4 * long + nfrets + 1
  }

  lemma EncodingFits(lens: seq<nat>, n: nat)
    ensures |EncodeAll(lens)| < MaxSize(n, |lens|)
  {
  }

  /** The clamp the comment beside the size asks for, the smaller of the two counts, is too
      small: one partition of 255 items needs 5 bytes and 2 would be reserved. */
  lemma SmallerClampOverflows()
    ensures var n, lens := 255, [255];
            var long := if n / 256 < |lens| then n / 256 else |lens|;
            |EncodeAll(lens)| > 4 * long + |lens| + 1
  {
    assert [255][..0] == [];
    assert EncodeAll([255]) == EncodeAll([255][..0]) + Encode(255);
  }

  /** Append the encoding of one length at fretp. */
  method Put(frets: array<nat>, fretp: nat, len: nat) returns (next: nat)
    requires fretp + |Encode(len)| <= frets.Length
    modifies frets
    ensures next == fretp + |Encode(len)|
    ensures frets[..next] == old(frets[..fretp]) + Encode(len)
  {
    if len < 255 {
      frets[fretp] := len;
      next := fretp + 1;
    } else {
      frets[fretp] := 255;
      frets[fretp + 1] := len % 256;
      frets[fretp + 2] := len / 256 % 256;
      frets[fretp + 3] := len / 65536 % 256;
      frets[fretp + 4] := len / 16777216 % 256;
      next := fretp + 5;
    }
  }

  /** The lengths that the cut loop reads back. */
  function Decode(b: seq<nat>): seq<nat> {
    if b == [] then []
    else if b[0] == 255 && |b| >= 5 then
      [b[1] + 256 * b[2] + 65536 * b[3] + 16777216 * b[4]] + Decode(b[5..])
    else [b[0]] + Decode(b[1..])
  }

  function Stored(len: nat): nat {
    if len < 255 then len else len % W32
  }

  lemma FourBytesValue(n: nat)
    ensures var b := FourBytes(n); b[0] + 256 * b[1] + 65536 * b[2] + 16777216 * b[3] == n % W32
  {
    var q := n / 256;
    var r := q / 256;
    var t := r / 256;
    SplitByte(n);
    SplitByte(q);
    SplitByte(r);
    SplitByte(t);
    Quotients(n);
    BelowWord(n, t / 256, n % 256 + 256 * (q % 256) + 65536 * (r % 256) + 16777216 * (t % 256));
  }

  lemma SplitByte(n: nat)
    ensures n == 256 * (n / 256) + n % 256 && n % 256 <= 255
  {
  }

  lemma Quotients(n: nat)
    ensures n / 65536 == n / 256 / 256 && n / 16777216 == n / 256 / 256 / 256
  {
  }

  lemma BelowWord(n: nat, q: nat, r: nat)
    requires n == W32 * q + r && r < W32
    ensures n % W32 == r
  {
  }

  function StoredAll(lens: seq<nat>): seq<nat> {
    seq(|lens|, i requires 0 <= i < |lens| => Stored(lens[i]))
  }

  lemma {:induction false} DecodeEncoded(lens: seq<nat>, rest: seq<nat>)
    ensures Decode(EncodeAll(lens) + rest) == StoredAll(lens) + Decode(rest)
  {
    if lens == [] {
      assert EncodeAll(lens) + rest == rest;
    } else {
      var n := |lens| - 1;
      DecodeEncoded(lens[..n], Encode(lens[n]) + rest);
      Assoc(EncodeAll(lens[..n]), Encode(lens[n]), rest);
      DecodeOne(lens[n], rest);
      Assoc(StoredAll(lens[..n]), [Stored(lens[n])], Decode(rest));
      StoredSnoc(lens);
    }
  }

  lemma Assoc(a: seq<nat>, b: seq<nat>, c: seq<nat>)
    ensures (a + b) + c == a + (b + c)
  {
  }

  lemma StoredSnoc(lens: seq<nat>)
    requires lens != []
    ensures StoredAll(lens) == StoredAll(lens[..|lens| - 1]) + [Stored(lens[|lens| - 1])]
  {
  }

  lemma DecodeOne(len: nat, rest: seq<nat>)
    ensures Decode(Encode(len) + rest) == [Stored(len)] + Decode(rest)
  {
    var b := Encode(len) + rest;
    if len < 255 {
      assert b[1..] == rest;
    } else {
      FourBytesValue(len);
      assert b[1..5] == FourBytes(len);
      assert b[5..] == rest;
    }
  }

  /** The cut loop reads back the partition lengths exactly when every one fits in 32 bits. */
  lemma RoundTripIff(lens: seq<nat>)
    ensures Decode(EncodeAll(lens)) == lens <==> forall i :: 0 <= i < |lens| ==> lens[i] < W32
  {
    DecodeEncoded(lens, []);
    assert EncodeAll(lens) + [] == EncodeAll(lens);
    assert Decode(EncodeAll(lens)) == StoredAll(lens);
    if Decode(EncodeAll(lens)) == lens {
      forall i | 0 <= i < |lens| ensures lens[i] < W32 {
        assert StoredAll(lens)[i] == lens[i];
        StoredIff(lens[i]);
      }
    }
    if forall i :: 0 <= i < |lens| ==> lens[i] < W32 {
      forall i | 0 <= i < |lens| ensures StoredAll(lens)[i] == lens[i] {
        StoredIff(lens[i]);
      }
    }
  }

  lemma StoredIff(len: nat)
    ensures Stored(len) == len <==> len < W32
  {
  }

  function FourByteValue(b: seq<nat>, pd: nat): nat
    requires pd + 4 <= |b|
  {
    b[pd] + 256 * b[pd + 1] + 65536 * b[pd + 2] + 16777216 * b[pd + 3]
  }

  lemma DecodeAt(b: seq<nat>, pd: nat)
    requires pd < |b| && (b[pd] == 255 ==> pd + 5 <= |b|)
    ensures Decode(b[pd..]) ==
            if b[pd] == 255 then [FourByteValue(b, pd + 1)] + Decode(b[pd + 5..])
            else [b[pd]] + Decode(b[pd + 1..])
  {
    var r := b[pd..];
    assert r[1..] == b[pd + 1..];
    if b[pd] == 255 {
      assert r[5..] == b[pd + 5..];
    }
  }

  /** The loop of the cut that steps through the frets. */
  method Read(b: seq<nat>, ghost all: seq<nat>) returns (lens: seq<nat>)
    requires b == EncodeAll(all)
    ensures lens == Decode(b)
  {
    lens := [];
    var pd := 0;
    ghost var done := 0;
    while pd < |b|
      invariant 0 <= pd <= |b| && done <= |all|
      invariant lens + Decode(b[pd..]) == Decode(b)
      invariant pd == |EncodeAll(all[..done])|
    {
      WholeFretAt(all, done);
      DecodeAt(b, pd);
      var len := b[pd];
      pd := pd + 1;
      if len == 255 {
        len := FourByteValue(b, pd);
        pd := pd + 4;
      }
      Assoc(lens, [len], Decode(b[pd..]));
      lens := lens + [len];
      done := done + 1;
    }
  }

  lemma WholeFretAt(all: seq<nat>, done: nat)
    requires done <= |all| && |EncodeAll(all[..done])| < |EncodeAll(all)|
    ensures done < |all|
    ensures var p := |EncodeAll(all[..done])|;
            && |EncodeAll(all[..done + 1])| == p + |Encode(all[done])| <= |EncodeAll(all)|
            && EncodeAll(all)[p] == Encode(all[done])[0]
  {
    assert all[..|all|] == all;
    var next := all[..done + 1];
    assert next[..done] == all[..done];
    EncodeIsPrefix(all, done + 1);
  }
}
