/** Counter mode: the key stream is the encipherment of successive counters, kept big-endian in the
    initialization vector. */
module AesCounter {
  import opened Arith
  import opened AesField
  import opened AesCipher
  import opened AesBlock
  import opened AesModes

  // ---- The counter.

  /** The number a byte stands for. */
  function Byte(x: bv8): (n: nat)
    ensures n < 256
  {
    x as nat
  }

  lemma ByteOneMore(x: bv8)
    ensures Byte(0) == 0 && (x == 255 <==> Byte(x) == 255)
    ensures x != 255 ==> Byte(x + 1) == Byte(x) + 1
  {
  }

  /** The number the bytes stand for, most significant first. */
  function Value(s: seq<bv8>): nat {
    if s == [] then 0 else Value(s[..|s| - 1]) * 256 + Byte(s[|s| - 1])
  }

  function Power256(n: nat): nat {
    if n == 0 then 1 else Power256(n - 1) * 256
  }

  /** Add one, with carry: bytes of 255 at the end become 0. */
  function Increment(s: seq<bv8>): (r: seq<bv8>)
    ensures |r| == |s|
  {
    if s == [] then []
    else if s[|s| - 1] == 255 then Increment(s[..|s| - 1]) + [0]
    else s[..|s| - 1] + [s[|s| - 1] + 1]
  }

  lemma {:induction false} ValueBound(s: seq<bv8>)
    ensures Value(s) < Power256(|s|)
  {
    if s != [] {
      ValueBound(s[..|s| - 1]);
    }
  }

  lemma ValueOfSnoc(s: seq<bv8>, b: bv8)
    ensures Value(s + [b]) == Value(s) * 256 + Byte(b)
  {
    assert (s + [b])[..|s|] == s;
  }

  /** The bytes count modulo their range. */
  lemma {:induction false} IncrementCounts(s: seq<bv8>)
    ensures Value(Increment(s)) == if Value(s) + 1 == Power256(|s|) then 0 else Value(s) + 1
  {
    if s != [] {
      var init, last := s[..|s| - 1], s[|s| - 1];
      ValueBound(init);
      ByteOneMore(last);
      assert s == init + [last];
      ValueOfSnoc(init, last);
      if last == 255 {
        IncrementCounts(init);
        ValueOfSnoc(Increment(init), 0);
      } else {
        ValueOfSnoc(init, last + 1);
      }
      hide Value, Byte;
    }
  }

  lemma Carries(s: seq<bv8>, n: nat, rest: seq<bv8>)
    requires n < |s| && Increment(s) == Increment(s[..n + 1]) + rest
    ensures s[n] == 255 ==> Increment(s) == Increment(s[..n]) + ([0] + rest)
    ensures s[n] != 255 ==> Increment(s) == s[..n] + [s[n] + 1] + rest
  {
    hide *;
    var t := s[..n + 1];
    IncrementIs(t);
    assert t[..n] == s[..n];
    assert t[n] == s[n];
    if t[n] == 255 {
      Regroup(Increment(t[..n]), 0, rest);
    }
  }

  lemma IncrementIs(t: seq<bv8>)
    requires t != []
    ensures var n := |t| - 1;
            Increment(t) == if t[n] == 255 then Increment(t[..n]) + [0] else t[..n] + [t[n] + 1]
  {
  }

  lemma Regroup<T>(s: seq<T>, x: T, t: seq<T>)
    ensures (s + [x]) + t == s + ([x] + t)
  {
  }

  lemma NoMoreBytes(s: seq<bv8>)
    ensures Increment(s[..0]) == [] && s[..|s|] == s
  {
  }

  /** Increment in place, from the last byte up to the first that does not overflow. */
  method IncrementIv(iv: array<bv8>)
    modifies iv
    ensures iv[..] == Increment(old(iv[..]))
  {
    hide Increment;
    ghost var s := iv[..];
    NoMoreBytes(s);
    var bi := iv.Length - 1;
    while bi >= 0
      invariant -1 <= bi < iv.Length == |s|
      invariant forall j :: 0 <= j <= bi ==> iv[j] == s[j]
      invariant Increment(s) == Increment(s[..bi + 1]) + iv[bi + 1..]
      decreases bi
    {
      ghost var rest := iv[bi + 1..];
      Carries(s, bi, rest);
      if iv[bi] == 255 {
        iv[bi] := 0;
        assert iv[bi..] == [0] + rest;
        bi := bi - 1;
        continue;
      }
      iv[bi] := iv[bi] + 1;
      assert iv[..] == s[..bi] + [s[bi] + 1] + rest;
      return;
    }
    assert iv[0..] == iv[..];
  }

  /** The counter after n steps. */
  function Counter(iv: seq<bv8>, n: nat): (r: seq<bv8>)
    ensures |r| == |iv|
  {
    if n == 0 then iv else Increment(Counter(iv, n - 1))
  }

  /** As a number the counter advances by one a block, modulo its range. */
  lemma {:induction false} CounterCounts(iv: seq<bv8>, n: nat)
    ensures Power256(|iv|) > 0 && Value(Counter(iv, n)) == (Value(iv) + n) % Power256(|iv|)
  {
    hide Value, Increment, Power256;
    ValueBound(iv);
    if n == 0 {
      ModuloIs(Value(iv), Power256(|iv|), 0, Value(iv));
    } else {
      CounterCounts(iv, n - 1);
      IncrementCounts(Counter(iv, n - 1));
      ModuloStep(Value(iv) + n - 1, Power256(|iv|));
    }
  }

  lemma Power256Of16()
    ensures Power256(16) == 0x1_0000_0000_0000_0000_0000_0000_0000_0000
  {
    assert Power256(4) == 0x1_0000_0000;
    assert Power256(8) == 0x1_0000_0000_0000_0000;
    assert Power256(12) == 0x1_0000_0000_0000_0000_0000_0000;
  }

  lemma CounterWraps(iv: seq<bv8>, n: nat)
    requires |iv| == 16
    ensures Value(Counter(iv, n)) == (Value(iv) + n) % 0x1_0000_0000_0000_0000_0000_0000_0000_0000
  {
    hide *;
    CounterCounts(iv, n);
    Power256Of16();
  }

  /** No counter comes back before the range is exhausted. */
  lemma CountersDiffer(iv: seq<bv8>, i: nat, j: nat)
    requires Block(iv) && i < j < i + 0x1_0000_0000_0000_0000_0000_0000_0000_0000
    ensures Counter(iv, i) != Counter(iv, j)
  {
    hide Value, Counter;
    var n := Power256(16);
    Power256Of16();
    hide Power256;
    CounterCounts(iv, i);
    CounterCounts(iv, j);
    if Counter(iv, i) == Counter(iv, j) {
      SameRemainder(Value(iv) + i, Value(iv) + j, n);
    }
  }

  /** Numbers with the same remainder are at least the divisor apart. */
  lemma SameRemainder(x: nat, y: nat, n: nat)
    requires n > 0 && x < y && x % n == y % n
    ensures x + n <= y
  {
    Division(x, n);
    Division(y, n);
    TimesCancel(x / n, y / n, n);
    RoomForOne(x / n, y / n, n);
  }

  // ---- The key stream.

  function StreamByte(k: Keyed, iv: seq<bv8>, i: nat): bv8
    requires k.Valid() && Block(iv)
  {
    k.Forward(Counter(iv, i / 16))[i % 16]
  }

  /** What counter mode makes of z. */
  function Streamed(k: Keyed, z: seq<bv8>, iv: seq<bv8>): (r: seq<bv8>)
    requires k.Valid() && Block(iv)
    ensures |r| == |z| && forall i :: 0 <= i < |z| ==> r[i] == Add(z[i], StreamByte(k, iv, i))
  {
    seq(|z|, i requires 0 <= i < |z| && k.Valid() && Block(iv) => Add(z[i], StreamByte(k, iv, i)))
  }

  /** The blocks that n bytes take. */
  function Blocks(n: nat): nat {
    (n + 15) / 16
  }

  lemma ValueIs(s: seq<bv8>)
    requires s != []
    ensures Value(s) == Value(s[..|s| - 1]) * 256 + Byte(s[|s| - 1])
  {
  }

  /** Bytes of one length that stand for one number are the same. */
  lemma {:induction false} ValueDecides(s: seq<bv8>, t: seq<bv8>)
    requires |s| == |t| && Value(s) == Value(t)
    ensures s == t
  {
    hide Value, Byte;
    if s != [] {
      var n := |s| - 1;
      ValueIs(s);
      ValueIs(t);
      Quotients(Value(s[..n]), Value(t[..n]), Byte(s[n]), Byte(t[n]));
      ValueDecides(s[..n], t[..n]);
      ByteDecides(s[n], t[n]);
      assert s == s[..n] + [s[n]];
      assert t == t[..n] + [t[n]];
    }
  }

  lemma Quotients(x: nat, y: nat, a: nat, b: nat)
    requires a < 256 && b < 256 && x * 256 + a == y * 256 + b
    ensures x == y && a == b
  {
  }

  lemma ByteDecides(a: bv8, b: bv8)
    requires Byte(a) == Byte(b)
    ensures a == b
  {
  }

  /** Byte i has the sum with a byte of the enciphered counter, which stands for the number of the vector and that
      of the block. */
  lemma StreamedAt(k: Keyed, z: seq<bv8>, iv: seq<bv8>, i: nat, c: seq<bv8>)
    requires k.Valid() && Block(iv) && i < |z| && Block(c)
    requires Value(c) == (Value(iv) + i / 16) % 0x1_0000_0000_0000_0000_0000_0000_0000_0000
    ensures Streamed(k, z, iv)[i] == Add(z[i], Cipher(c, k.rk, k.nr)[i % 16])
  {
    hide Cipher, Value, Counter, Keyed.Valid;
    CounterWraps(iv, i / 16);
    ValueDecides(c, Counter(iv, i / 16));
  }

  /** Counter mode undoes itself, for every length. */
  lemma StreamedTwice(k: Keyed, z: seq<bv8>, iv: seq<bv8>)
    requires k.Valid() && Block(iv)
    ensures Streamed(k, Streamed(k, z, iv), iv) == z
  {
    hide Add, StreamByte, Keyed.Valid;
    forall i | 0 <= i < |z| ensures Streamed(k, Streamed(k, z, iv), iv)[i] == z[i] {
      AddTwice(z[i], StreamByte(k, iv, i));
    }
  }

  lemma CounterStep(iv: seq<bv8>, n: nat)
    ensures Counter(iv, 0) == iv && Counter(iv, n + 1) == Increment(Counter(iv, n))
  {
    hide Increment;
  }

  lemma {:induction false} CounterOn(iv: seq<bv8>, m: nat, n: nat)
    ensures Counter(Counter(iv, m), n) == Counter(iv, m + n)
  {
    hide *;
    CounterStep(Counter(iv, m), 0);
    if n > 0 {
      CounterOn(iv, m, n - 1);
      CounterStep(Counter(iv, m), n - 1);
      CounterStep(iv, m + n - 1);
    }
  }

  lemma StreamByteOn(k: Keyed, iv: seq<bv8>, n: nat, i: nat)
    requires k.Valid() && Block(iv)
    ensures StreamByte(k, iv, 16 * n + i) == StreamByte(k, Counter(iv, n), i)
  {
    hide Counter, Keyed.Valid, Keyed.Forward;
    CounterOn(iv, n, i / 16);
    BlockOn(n, i);
  }

  /** Splitting between blocks, and carrying the counter over, makes no difference. */
  lemma StreamedSplit(k: Keyed, x: seq<bv8>, y: seq<bv8>, iv: seq<bv8>)
    requires k.Valid() && Block(iv) && Whole(x)
    ensures Streamed(k, x + y, iv) == Streamed(k, x, iv) + Streamed(k, y, Counter(iv, |x| / 16))
    ensures Counter(iv, Blocks(|x + y|)) == Counter(Counter(iv, |x| / 16), Blocks(|y|))
  {
    hide Add, Counter, Keyed.Valid, Keyed.Forward, StreamByte, Streamed;
    var n := |x| / 16;
    var u, v := Streamed(k, x + y, iv), Streamed(k, x, iv) + Streamed(k, y, Counter(iv, n));
    forall i | 0 <= i < |x + y| ensures u[i] == v[i] {
      if i >= |x| {
        StreamByteOn(k, iv, n, i - |x|);
      }
    }
    assert Blocks(|x + y|) == n + Blocks(|y|);
    CounterOn(iv, n, Blocks(|y|));
  }

  lemma BlockOn(n: nat, i: nat)
    ensures (16 * n + i) / 16 == n + i / 16 && (16 * n + i) % 16 == i % 16
  {
  }

  // ---- The routine.

  /** Byte i takes byte bi of the key stream block in the buffer; b blocks have been generated. */
  ghost predicate Streaming(k: Keyed, z: seq<bv8>, iv: seq<bv8>, out: seq<bv8>, i: nat,
                            cur: seq<bv8>, buffer: seq<bv8>, bi: nat) {
    && k.Valid() && Block(iv) && i <= |z| == |out| && bi <= 16
    && (forall j :: 0 <= j < |z| ==> out[j] == if j < i then Add(z[j], StreamByte(k, iv, j)) else z[j])
    && bi == i + 16 - 16 * Blocks(i) && cur == Counter(iv, Blocks(i))
    && (i > 0 ==> buffer == k.Forward(Counter(iv, Blocks(i) - 1)))
  }

  /** The buffer serves byte i. */
  ghost predicate Serving(k: Keyed, z: seq<bv8>, iv: seq<bv8>, out: seq<bv8>, i: nat,
                          cur: seq<bv8>, buffer: seq<bv8>, bi: nat) {
    && k.Valid() && Block(iv) && i < |z| == |out| && bi < 16 && Block(buffer)
    && (forall j :: 0 <= j < |z| ==> out[j] == if j < i then Add(z[j], StreamByte(k, iv, j)) else z[j])
    && bi == i % 16 && cur == Counter(iv, i / 16 + 1)
    && buffer == k.Forward(Counter(iv, i / 16))
  }

  lemma ServeOld(k: Keyed, z: seq<bv8>, iv: seq<bv8>, out: seq<bv8>, i: nat, cur: seq<bv8>, buffer: seq<bv8>, bi: nat)
    requires Streaming(k, z, iv, out, i, cur, buffer, bi) && i < |z| && bi != 16
    ensures Serving(k, z, iv, out, i, cur, buffer, bi)
  {
    hide Add, StreamByte, Counter, Keyed.Valid, Keyed.Forward;
    assert i / 16 == Blocks(i) - 1;
  }

  lemma ServeNew(k: Keyed, z: seq<bv8>, iv: seq<bv8>, out: seq<bv8>, i: nat, cur: seq<bv8>, buffer: seq<bv8>, bi: nat)
    requires Streaming(k, z, iv, out, i, cur, buffer, bi) && i < |z| && bi == 16
    ensures k.Valid() && Block(cur)
    ensures Serving(k, z, iv, out, i, Increment(cur), k.Forward(cur), 0)
  {
    hide Add, StreamByte, Keyed.Valid, Keyed.Forward, Increment;
    assert i / 16 == Blocks(i);
  }

  lemma Served(k: Keyed, z: seq<bv8>, iv: seq<bv8>, out: seq<bv8>, i: nat, cur: seq<bv8>, buffer: seq<bv8>, bi: nat)
    requires Serving(k, z, iv, out, i, cur, buffer, bi)
    ensures i < |out| && bi < |buffer|
    ensures Streaming(k, z, iv, out[i := Add(out[i], buffer[bi])], i + 1, cur, buffer, bi + 1)
  {
    hide Add, Counter, Keyed.Valid, Keyed.Forward;
    assert Blocks(i + 1) == i / 16 + 1;
    assert StreamByte(k, iv, i) == buffer[bi];
  }

  lemma StreamingStarts(k: Keyed, z: seq<bv8>, iv: seq<bv8>, buffer: seq<bv8>)
    requires k.Valid() && Block(iv)
    ensures Streaming(k, z, iv, z, 0, iv, buffer, 16)
  {
  }

  lemma StreamingEnds(k: Keyed, z: seq<bv8>, iv: seq<bv8>, out: seq<bv8>, cur: seq<bv8>, buffer: seq<bv8>, bi: nat)
    requires Streaming(k, z, iv, out, |z|, cur, buffer, bi)
    ensures k.Valid() && Block(iv) && out == Streamed(k, z, iv) && cur == Counter(iv, Blocks(|z|))
  {
    hide Add, StreamByte, Counter, Keyed.Valid, Keyed.Forward;
  }

  /** Counter mode over a buffer of any length.  The context's vector counts on by one a block begun. */
  method CtrXcryptBuffer(buf: array<bv8>, ctxIv: array<bv8>, roundKey: array<bv8>, nr: nat)
    requires ctxIv.Length == 16 && Schedule(roundKey[..], nr)
    requires buf != ctxIv && buf != roundKey && ctxIv != roundKey
    modifies buf, ctxIv
    ensures buf[..] == Streamed(Keyed(roundKey[..], nr), old(buf[..]), old(ctxIv[..]))
    ensures Value(ctxIv[..]) == (Value(old(ctxIv[..])) + Blocks(buf.Length)) % 0x1_0000_0000_0000_0000_0000_0000_0000_0000
  {
    var buffer := new bv8[16];
    hide *;
    CtrWith(buf, ctxIv, roundKey, nr, buffer);
    CounterWraps(old(ctxIv[..]), Blocks(buf.Length));
  }

  method CtrWith(buf: array<bv8>, ctxIv: array<bv8>, roundKey: array<bv8>, nr: nat, buffer: array<bv8>)
    requires ctxIv.Length == 16 == buffer.Length && Schedule(roundKey[..], nr)
    requires buf != ctxIv && buf != roundKey && ctxIv != roundKey
    requires buffer != buf && buffer != ctxIv && buffer != roundKey
    modifies buf, ctxIv, buffer
    ensures buf[..] == Streamed(Keyed(roundKey[..], nr), old(buf[..]), old(ctxIv[..]))
    ensures ctxIv[..] == Counter(old(ctxIv[..]), Blocks(buf.Length))
  {
    hide Add, Streaming, Serving, Cipher, Counter, Increment, Streamed, Blocks, Schedule;
    ghost var k, z, iv := Keyed(roundKey[..], nr), buf[..], ctxIv[..];
    StreamingStarts(k, z, iv, buffer[..]);
    var i, bi := 0, 16;
    while i < buf.Length
      invariant 0 <= i <= buf.Length && 0 <= bi
      invariant Streaming(k, z, iv, buf[..], i, ctxIv[..], buffer[..], bi)
    {
      if bi == 16 {
        ServeNew(k, z, iv, buf[..], i, ctxIv[..], buffer[..], bi);
        CopyBlock(ctxIv, 0, buffer);
        GetAll(ctxIv[..]);
        EncipherBuffer(buffer, roundKey, nr);
        IncrementIv(ctxIv);
        bi := 0;
      } else {
        ServeOld(k, z, iv, buf[..], i, ctxIv[..], buffer[..], bi);
      }
      Served(k, z, iv, buf[..], i, ctxIv[..], buffer[..], bi);
      ghost var out := buf[..];
      buf[i] := Add(buf[i], buffer[bi]);
      assert buf[..] == out[i := Add(out[i], buffer[bi])];
      i, bi := i + 1, bi + 1;
    }
    StreamingEnds(k, z, iv, buf[..], ctxIv[..], buffer[..], bi);
  }

  method EncipherBuffer(buffer: array<bv8>, roundKey: array<bv8>, nr: nat)
    requires buffer.Length == 16 && buffer != roundKey && Schedule(roundKey[..], nr)
    modifies buffer
    ensures buffer[..] == Keyed(roundKey[..], nr).Forward(old(buffer[..]))
  {
    hide Cipher, Schedule;
    GetAll(buffer[..]);
    CipherInPlace(buffer, 0, roundKey, nr);
    PutAll(old(buffer[..]), Cipher(old(buffer[..]), roundKey[..], nr));
  }

  lemma PutAll(z: seq<bv8>, b: seq<bv8>)
    requires Block(z) && Block(b)
    ensures Put(z, 0, b) == b
  {
  }
}
