/** Cipher block chaining and counter mode over whole buffers, as NIST SP 800-38A, sections 6.2 and
    6.5, has them, and the routines that change a buffer in place. */
module AesModes {
  import opened Arith
  import opened AesField
  import opened AesCipher
  import opened AesBlock

  ghost predicate Whole(z: seq<bv8>) {
    |z| % 16 == 0
  }

  /** The schedule of a key that has been expanded. */
  datatype Keyed = Keyed(rk: seq<bv8>, nr: nat) {
    ghost predicate Valid() {
      Schedule(rk, nr)
    }

    function Forward(b: seq<bv8>): (r: seq<bv8>)
      requires Valid() && Block(b)
      ensures Block(r)
    {
      Cipher(b, rk, nr)
    }

    function Backward(b: seq<bv8>): (r: seq<bv8>)
      requires Valid() && Block(b)
      ensures Block(r)
    {
      InvCipher(b, rk, nr)
    }
  }

  lemma ForwardUndone(k: Keyed, b: seq<bv8>)
    requires k.Valid() && Block(b)
    ensures k.Backward(k.Forward(b)) == b
  {
    hide Cipher, InvCipher;
    CipherUndone(b, k.rk, k.nr);
  }

  function Head(z: seq<bv8>): (b: seq<bv8>)
    requires Whole(z) && z != []
    ensures Block(b)
  {
    z[..16]
  }

  function Tail(z: seq<bv8>): (t: seq<bv8>)
    requires Whole(z) && z != []
    ensures Whole(t) && |t| < |z|
  {
    z[16..]
  }

  // ---- Cipher block chaining.

  function Encrypted(k: Keyed, z: seq<bv8>, iv: seq<bv8>): (r: seq<bv8>)
    requires k.Valid() && Whole(z) && Block(iv)
    ensures |r| == |z|
    decreases |z|
  {
    if z == [] then []
    else
      var c := k.Forward(AddBlocks(Head(z), iv));
      c + Encrypted(k, Tail(z), c)
  }

  /** The initialization vector the next call starts from. */
  function EncryptedIv(k: Keyed, z: seq<bv8>, iv: seq<bv8>): (r: seq<bv8>)
    requires k.Valid() && Whole(z) && Block(iv)
    ensures Block(r)
    decreases |z|
  {
    if z == [] then iv else EncryptedIv(k, Tail(z), k.Forward(AddBlocks(Head(z), iv)))
  }

  function Decrypted(k: Keyed, z: seq<bv8>, iv: seq<bv8>): (r: seq<bv8>)
    requires k.Valid() && Whole(z) && Block(iv)
    ensures |r| == |z|
    decreases |z|
  {
    if z == [] then [] else AddBlocks(k.Backward(Head(z)), iv) + Decrypted(k, Tail(z), Head(z))
  }

  function DecryptedIv(z: seq<bv8>, iv: seq<bv8>): (r: seq<bv8>)
    requires Whole(z) && Block(iv)
    ensures Block(r)
    decreases |z|
  {
    if z == [] then iv else DecryptedIv(Tail(z), Head(z))
  }

  lemma Parts(b: seq<bv8>, t: seq<bv8>)
    requires Block(b) && Whole(t)
    ensures Whole(b + t) && b + t != [] && Head(b + t) == b && Tail(b + t) == t
  {
  }

  lemma HeadAndTail(z: seq<bv8>)
    requires Whole(z) && z != []
    ensures Head(z) + Tail(z) == z
  {
  }

  function BlockAt(z: seq<bv8>, i: nat): (b: seq<bv8>)
    requires 16 * i + 16 <= |z|
    ensures Block(b)
  {
    z[16 * i..16 * i + 16]
  }

  lemma BlockOfSum(b: seq<bv8>, t: seq<bv8>, i: nat)
    requires Block(b) && 16 * i + 16 <= 16 + |t|
    ensures BlockAt(b + t, 0) == b && (i > 0 ==> BlockAt(b + t, i) == BlockAt(t, i - 1))
  {
  }

  lemma EncryptedParts(k: Keyed, z: seq<bv8>, iv: seq<bv8>)
    requires k.Valid() && Whole(z) && Block(iv) && z != []
    ensures var c := k.Forward(AddBlocks(Head(z), iv));
            Encrypted(k, z, iv) == c + Encrypted(k, Tail(z), c) && EncryptedIv(k, z, iv) == EncryptedIv(k, Tail(z), c)
    ensures Head(z) == BlockAt(z, 0) && k.Forward(AddBlocks(Head(z), iv)) == Cipher(AddBlocks(Head(z), iv), k.rk, k.nr)
  {
    hide AddBlocks, Cipher;
  }

  /** Each block is the encipherment of the sum of its block and of the one enciphered before, the first of its
      block and the vector. */
  lemma {:induction false} EncryptedAt(k: Keyed, z: seq<bv8>, iv: seq<bv8>, i: nat)
    requires k.Valid() && Whole(z) && Block(iv) && 16 * i + 16 <= |z|
    ensures var r := Encrypted(k, z, iv);
            BlockAt(r, i) == Cipher(AddBlocks(BlockAt(z, i), if i == 0 then iv else BlockAt(r, i - 1)), k.rk, k.nr)
    decreases i
  {
    hide AddBlocks, Cipher, Encrypted, EncryptedIv, Head, BlockAt, Keyed.Forward;
    EncryptedParts(k, z, iv);
    HeadAndTail(z);
    var c := k.Forward(AddBlocks(Head(z), iv));
    var rest := Encrypted(k, Tail(z), c);
    BlockOfSum(c, rest, i);
    if i > 0 {
      EncryptedAt(k, Tail(z), c, i - 1);
      BlockOfSum(Head(z), Tail(z), i);
      BlockOfSum(c, rest, i - 1);
    }
  }

  /** The vector of the next call is the last block. */
  lemma {:induction false} EncryptedIvIs(k: Keyed, z: seq<bv8>, iv: seq<bv8>)
    requires k.Valid() && Whole(z) && Block(iv) && z != []
    ensures EncryptedIv(k, z, iv) == BlockAt(Encrypted(k, z, iv), |z| / 16 - 1)
    decreases |z|
  {
    hide AddBlocks, Cipher, Encrypted, Head, BlockAt, Keyed.Forward;
    EncryptedParts(k, z, iv);
    var c := k.Forward(AddBlocks(Head(z), iv));
    var rest := Encrypted(k, Tail(z), c);
    BlockOfSum(c, rest, |z| / 16 - 1);
    if Tail(z) != [] {
      EncryptedIvIs(k, Tail(z), c);
    }
  }

  /** Decrypting what was encrypted from the same vector gives it back, and leaves the same vector. */
  lemma {:induction false} DecryptUndoesEncrypt(k: Keyed, z: seq<bv8>, iv: seq<bv8>)
    requires k.Valid() && Whole(z) && Block(iv)
    ensures Decrypted(k, Encrypted(k, z, iv), iv) == z
    ensures DecryptedIv(Encrypted(k, z, iv), iv) == EncryptedIv(k, z, iv)
    decreases |z|
  {
    hide Keyed.Forward, Keyed.Backward, AddBlocks, Head, Tail, Cipher, InvCipher, Schedule;
    if z != [] {
      var c := k.Forward(AddBlocks(Head(z), iv));
      DecryptUndoesEncrypt(k, Tail(z), c);
      Parts(c, Encrypted(k, Tail(z), c));
      HeadAndTail(z);
      ForwardUndone(k, AddBlocks(Head(z), iv));
      AddBlocksUndone(Head(z), iv);
    }
  }

  /** Splitting a buffer between blocks, and carrying the vector over, makes no difference. */
  lemma {:induction false} EncryptSplit(k: Keyed, x: seq<bv8>, y: seq<bv8>, iv: seq<bv8>)
    requires k.Valid() && Whole(x) && Whole(y) && Block(iv)
    ensures Whole(x + y)
    ensures Encrypted(k, x + y, iv) == Encrypted(k, x, iv) + Encrypted(k, y, EncryptedIv(k, x, iv))
    ensures EncryptedIv(k, x + y, iv) == EncryptedIv(k, y, EncryptedIv(k, x, iv))
    decreases |x|
  {
    hide Keyed.Forward, AddBlocks, Head, Tail, Schedule;
    if x == [] {
      assert x + y == y;
    } else {
      HeadAndTail(x);
      Parts(Head(x), Tail(x) + y);
      assert x + y == Head(x) + (Tail(x) + y);
      EncryptSplit(k, Tail(x), y, k.Forward(AddBlocks(Head(x), iv)));
    }
  }

  lemma {:induction false} DecryptSplit(k: Keyed, x: seq<bv8>, y: seq<bv8>, iv: seq<bv8>)
    requires k.Valid() && Whole(x) && Whole(y) && Block(iv)
    ensures Whole(x + y)
    ensures Decrypted(k, x + y, iv) == Decrypted(k, x, iv) + Decrypted(k, y, DecryptedIv(x, iv))
    ensures DecryptedIv(x + y, iv) == DecryptedIv(y, DecryptedIv(x, iv))
    decreases |x|
  {
    hide Keyed.Backward, AddBlocks, Head, Tail, Schedule;
    if x == [] {
      assert x + y == y;
    } else {
      HeadAndTail(x);
      Parts(Head(x), Tail(x) + y);
      assert x + y == Head(x) + (Tail(x) + y);
      DecryptSplit(k, Tail(x), y, Head(x));
    }
  }

  /** Add the vector to the block at p. */
  method XorWithIv(buf: array<bv8>, p: nat, iv: array<bv8>, q: nat)
    requires p + 16 <= buf.Length && q + 16 <= iv.Length && (iv == buf ==> q + 16 <= p || p + 16 <= q)
    modifies buf
    ensures buf[..] == Put(old(buf[..]), p, AddBlocks(Get(old(buf[..]), p), Get(old(iv[..]), q)))
  {
    hide Add;
    ghost var z, v := buf[..], Get(iv[..], q);
    for i := 0 to 16
      invariant buf.Length == |z| && forall j :: 0 <= j < |z| ==> buf[j] == if p <= j < p + i then Add(z[j], v[j - p]) else z[j]
      invariant iv != buf ==> iv[..] == old(iv[..])
    {
      assert iv[q + i] == v[i];
      buf[p + i] := Add(buf[p + i], iv[q + i]);
    }
    assert buf[..] == Put(z, p, AddBlocks(Get(z, p), v));
  }

  /** What is left to do is as before, the buffer being done up to i. */
  ghost predicate Encrypting(k: Keyed, z: seq<bv8>, iv: seq<bv8>, b: seq<bv8>, i: nat, cur: seq<bv8>) {
    && k.Valid() && Whole(z) && Block(iv) && Block(cur) && i % 16 == 0 && i <= |z| == |b|
    && b[i..] == z[i..]
    && Encrypted(k, z, iv) == b[..i] + Encrypted(k, z[i..], cur)
    && EncryptedIv(k, z, iv) == EncryptedIv(k, z[i..], cur)
    && (i > 0 ==> cur == b[i - 16..i])
  }

  lemma EncryptingStarts(k: Keyed, z: seq<bv8>, iv: seq<bv8>)
    requires k.Valid() && Whole(z) && Block(iv)
    ensures Encrypting(k, z, iv, z, 0, iv)
  {
    hide Encrypted, EncryptedIv, Keyed.Valid;
    assert z[0..] == z;
  }

  lemma EncryptingEnds(k: Keyed, z: seq<bv8>, iv: seq<bv8>, b: seq<bv8>, cur: seq<bv8>)
    requires Encrypting(k, z, iv, b, |z|, cur)
    ensures k.Valid() && Whole(z) && Block(iv) && b == Encrypted(k, z, iv) && cur == EncryptedIv(k, z, iv)
  {
    hide Keyed.Valid, Keyed.Forward, AddBlocks;
    assert z[|z|..] == [];
    assert b[..|z|] == b;
  }

  lemma EncryptingStep(k: Keyed, z: seq<bv8>, iv: seq<bv8>, b: seq<bv8>, i: nat, cur: seq<bv8>)
    requires Encrypting(k, z, iv, b, i, cur) && i < |z|
    ensures i + 16 <= |z| && k.Valid() && Block(cur)
    ensures var c := k.Forward(AddBlocks(Get(b, i), cur)); Encrypting(k, z, iv, Put(b, i, c), i + 16, c)
  {
    hide Keyed.Valid, Keyed.Forward, AddBlocks;
    var rest := z[i..];
    assert i + 16 <= |z|;
    assert Get(b, i) == Head(rest) by {
      assert b[i..][..16] == b[i..i + 16];
    }
    var c := k.Forward(AddBlocks(Get(b, i), cur));
    var n := Put(b, i, c);
    assert Tail(rest) == z[i + 16..];
    assert n[..i + 16] == b[..i] + c;
    assert n[i + 16..] == z[i + 16..] by {
      assert b[i..][16..] == b[i + 16..];
      assert z[i..][16..] == z[i + 16..];
    }
    assert n[i..i + 16] == c;
    assert (b[..i] + c) + Encrypted(k, Tail(rest), c) == b[..i] + (c + Encrypted(k, Tail(rest), c));
  }

  /** Encrypt a buffer of whole blocks.  The vector is read where it lies: in the context for the
      first block, and then in the block just written. */
  method CbcEncryptBuffer(buf: array<bv8>, ctxIv: array<bv8>, roundKey: array<bv8>, nr: nat)
    requires Whole(buf[..]) && ctxIv.Length == 16 && Schedule(roundKey[..], nr)
    requires buf != ctxIv && buf != roundKey && ctxIv != roundKey
    modifies buf, ctxIv
    ensures buf[..] == Encrypted(Keyed(roundKey[..], nr), old(buf[..]), old(ctxIv[..]))
    ensures ctxIv[..] == EncryptedIv(Keyed(roundKey[..], nr), old(buf[..]), old(ctxIv[..]))
  {
    hide Encrypted, EncryptedIv, Encrypting, Put, AddBlocks, Cipher, Schedule;
    ghost var k, z, iv := Keyed(roundKey[..], nr), buf[..], ctxIv[..];
    EncryptingStarts(k, z, iv);
    ghost var cur := iv;
    var ivp, q := ctxIv, 0;
    var i := 0;
    while i < buf.Length
      invariant 0 <= i <= buf.Length && i % 16 == 0 && ctxIv[..] == iv
      invariant Encrypting(k, z, iv, buf[..], i, cur)
      invariant if i == 0 then ivp == ctxIv && q == 0 else ivp == buf && q == i - 16
      invariant q + 16 <= ivp.Length && Block(cur) && Get(ivp[..], q) == cur
    {
      ghost var b := buf[..];
      EncryptingStep(k, z, iv, b, i, cur);
      XorWithIv(buf, i, ivp, q);
      PutTwice(b, i, AddBlocks(Get(b, i), cur), k.Forward(AddBlocks(Get(b, i), cur)));
      CipherInPlace(buf, i, roundKey, nr);
      cur := k.Forward(AddBlocks(Get(b, i), cur));
      PutTwice(b, i, cur, cur);
      ivp, q := buf, i;
      i := i + 16;
    }
    EncryptingEnds(k, z, iv, buf[..], cur);
    Copy16(ivp, q, ctxIv);
  }

  /** memcpy of one block to the front of an array, from another place or onto itself. */
  method Copy16(src: array<bv8>, q: nat, dst: array<bv8>)
    requires q + 16 <= src.Length && dst.Length == 16 && (src == dst ==> q == 0)
    modifies dst
    ensures dst[..] == Get(old(src[..]), q)
  {
    for i := 0 to 16
      invariant forall j :: 0 <= j < i ==> dst[j] == old(src[q + j])
      invariant src != dst ==> src[..] == old(src[..])
      invariant src == dst ==> src[..] == old(src[..])
    {
      dst[i] := src[q + i];
    }
  }

  ghost predicate Decrypting(k: Keyed, z: seq<bv8>, iv: seq<bv8>, b: seq<bv8>, i: nat, cur: seq<bv8>) {
    && k.Valid() && Whole(z) && Block(iv) && Block(cur) && i % 16 == 0 && i <= |z| == |b|
    && b[i..] == z[i..]
    && Decrypted(k, z, iv) == b[..i] + Decrypted(k, z[i..], cur)
    && DecryptedIv(z, iv) == DecryptedIv(z[i..], cur)
  }

  lemma DecryptingStarts(k: Keyed, z: seq<bv8>, iv: seq<bv8>)
    requires k.Valid() && Whole(z) && Block(iv)
    ensures Decrypting(k, z, iv, z, 0, iv)
  {
    hide Decrypted, DecryptedIv, Keyed.Valid;
    assert z[0..] == z;
  }

  lemma DecryptingEnds(k: Keyed, z: seq<bv8>, iv: seq<bv8>, b: seq<bv8>, cur: seq<bv8>)
    requires Decrypting(k, z, iv, b, |z|, cur)
    ensures k.Valid() && Whole(z) && Block(iv) && b == Decrypted(k, z, iv) && cur == DecryptedIv(z, iv)
  {
    hide Keyed.Valid, Keyed.Backward, AddBlocks;
    assert z[|z|..] == [];
    assert b[..|z|] == b;
  }

  lemma DecryptingStep(k: Keyed, z: seq<bv8>, iv: seq<bv8>, b: seq<bv8>, i: nat, cur: seq<bv8>)
    requires Decrypting(k, z, iv, b, i, cur) && i < |z|
    ensures i + 16 <= |z| && k.Valid() && Block(cur)
    ensures var c := AddBlocks(k.Backward(Get(b, i)), cur); Decrypting(k, z, iv, Put(b, i, c), i + 16, Get(b, i))
  {
    hide Keyed.Valid, Keyed.Backward, AddBlocks;
    var rest := z[i..];
    assert i + 16 <= |z|;
    assert Get(b, i) == Head(rest) by {
      assert b[i..][..16] == b[i..i + 16];
    }
    var c := AddBlocks(k.Backward(Get(b, i)), cur);
    var n := Put(b, i, c);
    assert Tail(rest) == z[i + 16..];
    assert n[..i + 16] == b[..i] + c;
    assert n[i + 16..] == z[i + 16..] by {
      assert b[i..][16..] == b[i + 16..];
      assert z[i..][16..] == z[i + 16..];
    }
    assert (b[..i] + c) + Decrypted(k, Tail(rest), Head(rest)) == b[..i] + (c + Decrypted(k, Tail(rest), Head(rest)));
  }

  /** Decrypt a buffer of whole blocks, keeping each block of ciphertext as the next vector. */
  method CbcDecryptBuffer(buf: array<bv8>, ctxIv: array<bv8>, roundKey: array<bv8>, nr: nat)
    requires Whole(buf[..]) && ctxIv.Length == 16 && Schedule(roundKey[..], nr)
    requires buf != ctxIv && buf != roundKey && ctxIv != roundKey
    modifies buf, ctxIv
    ensures buf[..] == Decrypted(Keyed(roundKey[..], nr), old(buf[..]), old(ctxIv[..]))
    ensures ctxIv[..] == DecryptedIv(old(buf[..]), old(ctxIv[..]))
  {
    var storeNextIv := new bv8[16];
    CbcDecryptWith(buf, ctxIv, roundKey, nr, storeNextIv);
  }

  method CbcDecryptWith(buf: array<bv8>, ctxIv: array<bv8>, roundKey: array<bv8>, nr: nat, storeNextIv: array<bv8>)
    requires Whole(buf[..]) && ctxIv.Length == 16 == storeNextIv.Length && Schedule(roundKey[..], nr)
    requires buf != ctxIv && buf != roundKey && ctxIv != roundKey
    requires storeNextIv != buf && storeNextIv != ctxIv && storeNextIv != roundKey
    modifies buf, ctxIv, storeNextIv
    ensures buf[..] == Decrypted(Keyed(roundKey[..], nr), old(buf[..]), old(ctxIv[..]))
    ensures ctxIv[..] == DecryptedIv(old(buf[..]), old(ctxIv[..]))
  {
    hide Decrypted, DecryptedIv, Decrypting, Put, Get, AddBlocks, InvCipher, Schedule;
    ghost var k, z, iv := Keyed(roundKey[..], nr), buf[..], ctxIv[..];
    DecryptingStarts(k, z, iv);
    var i := 0;
    while i < buf.Length
      invariant 0 <= i <= buf.Length && i % 16 == 0
      invariant Decrypting(k, z, iv, buf[..], i, ctxIv[..])
    {
      ghost var b, cur := buf[..], ctxIv[..];
      DecryptingStep(k, z, iv, b, i, cur);
      CopyBlock(buf, i, storeNextIv);
      InvCipherInPlace(buf, i, roundKey, nr);
      ghost var c := k.Backward(Get(b, i));
      PutTwice(b, i, c, AddBlocks(c, cur));
      GetAll(ctxIv[..]);
      GetAll(storeNextIv[..]);
      XorWithIv(buf, i, ctxIv, 0);
      CopyBlock(storeNextIv, 0, ctxIv);
      i := i + 16;
    }
    DecryptingEnds(k, z, iv, buf[..], ctxIv[..]);
  }

  lemma GetAll(b: seq<bv8>)
    requires Block(b)
    ensures Get(b, 0) == b
  {
  }

  method CopyBlock(src: array<bv8>, q: nat, dst: array<bv8>)
    requires q + 16 <= src.Length && dst.Length == 16 && src != dst
    modifies dst
    ensures dst[..] == Get(src[..], q)
  {
    Copy16(src, q, dst);
  }
}
