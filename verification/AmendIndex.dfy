/** Complementary index selectors of x m} y: the indexes not named, found through a bit mask that
    sits in the tail of the buffer the indexes are written to. */
module AmendIndex {
  import opened Wrappers

  const WORD := 64

  /** The bits of a word, lowest first. */
  type Bits = s: seq<bool> | |s| == WORD witness seq(WORD, _ => false)

  /** A word of the shared buffer, as it was last written: not at all, as a word of the mask, or as
      an index of the result. */
  datatype Word = Unset | Mask(bits: Bits) | Index(value: nat)

  datatype Selection = InFull | Indexes(ixs: seq<nat>) | IndexError

  /** An index counted from the end when negative; None when out of range. */
  function Wrapped(ix: int, axislen: nat): (r: Option<nat>)
    ensures r.Some? ==> r.value < axislen && (r.value == ix || r.value == ix + axislen)
    ensures r.None? <==> ix + axislen < 0 || ix >= axislen
  {
    if 0 <= ix < axislen then Some(ix)
    else if 0 <= ix + axislen < axislen then Some(ix + axislen) else None
  }

  /** Whether index i is named among the first k indexes of the selector. */
  predicate Named(ind: seq<int>, k: nat, axislen: nat, i: int)
    requires k <= |ind|
  {
    k > 0 && (Named(ind, k - 1, axislen, i) || (i >= 0 && Wrapped(ind[k - 1], axislen) == Some(i)))
  }

  /** The indexes below n that are not named, ascending. */
  function Unnamed(ind: seq<int>, axislen: nat, n: nat): (r: seq<nat>)
    ensures |r| <= n
  {
    if n == 0 then []
    else Unnamed(ind, axislen, n - 1) + if Named(ind, |ind|, axislen, n - 1) then [] else [n - 1]
  }

  lemma {:induction false} NamedIsMember(ind: seq<int>, k: nat, axislen: nat, i: nat)
    requires k <= |ind|
    ensures Named(ind, k, axislen, i) <==> exists j :: 0 <= j < k && Wrapped(ind[j], axislen) == Some(i)
  {
    if k > 0 {
      NamedIsMember(ind, k - 1, axislen, i);
    }
  }

  /** Exactly the unnamed indexes, in ascending order. */
  lemma {:induction false} UnnamedIsComplement(ind: seq<int>, axislen: nat, n: nat, i: nat)
    ensures i in Unnamed(ind, axislen, n) <==> i < n && !Named(ind, |ind|, axislen, i)
    ensures forall j :: 0 <= j < |Unnamed(ind, axislen, n)| ==> Unnamed(ind, axislen, n)[j] < n
    ensures forall j, k :: 0 <= j < k < |Unnamed(ind, axislen, n)| ==>
              Unnamed(ind, axislen, n)[j] < Unnamed(ind, axislen, n)[k]
  {
    if n > 0 {
      UnnamedIsComplement(ind, axislen, n - 1, i);
    }
  }

  // ---- The mask.

  /** Word q of the mask while the first k indexes of the selector have been crossed off. */
  ghost predicate MaskWord(w: Word, ind: seq<int>, k: nat, axislen: nat, q: int)
    requires k <= |ind|
  {
    w.Mask? && forall b :: 0 <= b < WORD ==>
      (w.bits[b] <==> WORD * q + b < axislen && !Named(ind, k, axislen, WORD * q + b))
  }

  /** The number of words that hold one bit for each index. */
  function MaskWords(axislen: nat): nat {
    (axislen + (WORD - 1)) / WORD
  }

  lemma MaskFits(axislen: nat)
    requires axislen > 0
    ensures var n := MaskWords(axislen);
            && 0 < n <= axislen && WORD * (n - 1) < axislen <= WORD * n
            && axislen == WORD * (n - 1) + (axislen - 1) % WORD + 1
  {
  }

  /** Fill the tail of the buffer with a mask of all indexes. */
  method StartMask(axislen: nat, z: array<Word>, ind: seq<int>) returns (bv: nat)
    requires axislen > 0 && z.Length == axislen
    modifies z
    ensures bv == axislen - MaskWords(axislen)
    ensures forall p :: bv <= p < axislen ==> MaskWord(z[p], ind, 0, axislen, p - bv)
  {
    var bwds := MaskWords(axislen);
    MaskFits(axislen);
    bv := axislen - bwds;
    var q := 0;
    while q < bwds
      invariant 0 <= q <= bwds
      invariant forall p :: bv <= p < bv + q ==> z[p] == Mask(seq(WORD, _ => true))
    {
      z[bv + q] := Mask(seq(WORD, _ => true));
      q := q + 1;
    }
    var h := (axislen - 1) % WORD;
    z[bv + bwds - 1] := Mask(seq(WORD, b => b <= h));
  }

  /** Cross off the indexes of the selector; false when one is out of range. */
  method CrossOff(axislen: nat, z: array<Word>, bv: nat, ind: seq<int>) returns (ok: bool)
    requires axislen > 0 && z.Length == axislen && bv == axislen - MaskWords(axislen)
    requires forall p :: bv <= p < axislen ==> MaskWord(z[p], ind, 0, axislen, p - bv)
    modifies z
    ensures ok <==> forall j :: 0 <= j < |ind| ==> Wrapped(ind[j], axislen).Some?
    ensures ok ==> forall p :: bv <= p < axislen ==> MaskWord(z[p], ind, |ind|, axislen, p - bv)
  {
    MaskFits(axislen);
    var i := 0;
    while i < |ind|
      invariant 0 <= i <= |ind|
      invariant forall j :: 0 <= j < i ==> Wrapped(ind[j], axislen).Some?
      invariant forall p :: bv <= p < axislen ==> MaskWord(z[p], ind, i, axislen, p - bv)
    {
      var ix := ind[i];
      if !(0 <= ix < axislen) {
        ix := ix + axislen;
        if !(0 <= ix < axislen) {
          return false;
        }
      }
      var p := bv + ix / WORD;
      assert WORD * (ix / WORD) + ix % WORD == ix;
      assert MaskWord(z[p], ind, i, axislen, p - bv);
      z[p] := Mask(z[p].bits[ix % WORD := false]);
      i := i + 1;
    }
    ok := true;
  }

  // ---- Writing the indexes over the mask.

  /** The number of the lowest bit that is set. */
  function Ctz(bits: Bits): (c: nat)
    requires true in bits
    ensures c < WORD && bits[c] && forall b :: 0 <= b < c ==> !bits[b]
  {
    CtzFrom(bits, 0)
  }

  function CtzFrom(bits: Bits, k: nat): (c: nat)
    requires true in bits && k <= WORD && forall b :: 0 <= b < k ==> !bits[b]
    ensures c < WORD && bits[c] && forall b :: 0 <= b < c ==> !bits[b]
    decreases WORD - k
  {
    if k < WORD && bits[k] then k else CtzFrom(bits, k + 1)
  }

  /** The unnamed indexes below t, which may lie beyond the axis. */
  function Found(ind: seq<int>, axislen: nat, t: nat): seq<nat> {
    Unnamed(ind, axislen, if t < axislen then t else axislen)
  }

  /** Whether index i is one of the result. */
  predicate Kept(ind: seq<int>, axislen: nat, i: int) {
    i < axislen && !Named(ind, |ind|, axislen, i)
  }

  lemma {:induction false} NoneFound(ind: seq<int>, axislen: nat, t: nat, u: nat)
    requires t <= u && forall i :: t <= i < u ==> !Kept(ind, axislen, i)
    ensures Found(ind, axislen, u) == Found(ind, axislen, t)
  {
    if t < u {
      NoneFound(ind, axislen, t, u - 1);
      assert !Kept(ind, axislen, u - 1);
    }
  }

  /** The buffer while the mask words below q have been used up and the rest of word q is in bmask,
      whose bits below u are done. */
  ghost predicate Writing(z: seq<Word>, ind: seq<int>, axislen: nat, q: nat, u: nat, bmask: Bits, zv: nat) {
    var out := Found(ind, axislen, WORD * q + u);
    && |z| == axislen && q < MaskWords(axislen) && u <= WORD
    && zv == |out| && (forall j :: 0 <= j < zv ==> j < |z| && z[j] == Index(out[j]))
    && (forall b :: 0 <= b < WORD ==> (bmask[b] <==> b >= u && Kept(ind, axislen, WORD * q + b)))
    && Unread(z, ind, axislen, q + 1)
  }

  /** The mask words from q on are intact. */
  ghost predicate Unread(z: seq<Word>, ind: seq<int>, axislen: nat, q: nat) {
    var bv := axislen - MaskWords(axislen);
    bv >= 0 && |z| == axislen && forall p :: bv + q <= p < axislen ==> MaskWord(z[p], ind, |ind|, axislen, p - bv)
  }

  /** An index is never written over a mask word that is still to be read.  Only the words already
      fetched are overwritten: the buffer needs no spare word between the indexes and the mask. */
  lemma NoOverlap(axislen: nat, q: nat, i: nat)
    requires axislen > 0 && q < MaskWords(axislen) && i < WORD * (q + 1) && i < axislen
    ensures q + 1 < MaskWords(axislen) ==> i < axislen - MaskWords(axislen) + q + 1
  {
    MaskFits(axislen);
  }

  /** The bound is met: in an axis of 65 the last index of the first mask word lands on the word
      just before the next one. */
  lemma NoSlack()
    ensures var axislen, q, i := 65, 0, 63;
            && MaskWords(axislen) == 2 && i < WORD * (q + 1)
            && i == axislen - MaskWords(axislen) + q
  {
  }

  /** Write the next index of word q. */
  lemma WriteStep(z: seq<Word>, ind: seq<int>, axislen: nat, q: nat, u: nat, bmask: Bits, zv: nat)
    requires axislen > 0 && Writing(z, ind, axislen, q, u, bmask, zv) && true in bmask
    ensures var c := Ctz(bmask);
            && zv < axislen && u <= c
            && Writing(z[zv := Index(WORD * q + c)], ind, axislen, q, c + 1, bmask[c := false], zv + 1)
  {
    hide Found, Kept, MaskWord, MaskWords;
    var c := Ctz(bmask);
    FoundNext(ind, axislen, q, u, c, bmask);
    NoOverlap(axislen, q, zv);
  }

  lemma FoundNext(ind: seq<int>, axislen: nat, q: nat, u: nat, c: nat, bmask: Bits)
    requires c < WORD && bmask[c] && forall b :: 0 <= b < c ==> !bmask[b]
    requires u <= WORD && forall b :: 0 <= b < WORD ==> (bmask[b] <==> b >= u && Kept(ind, axislen, WORD * q + b))
    ensures var i := WORD * q + c;
            i < axislen && |Found(ind, axislen, WORD * q + u)| <= i
            && Found(ind, axislen, i + 1) == Found(ind, axislen, WORD * q + u) + [i]
  {
    var i := WORD * q + c;
    assert Kept(ind, axislen, i);
    NotBefore(ind, axislen, q, u, c, bmask);
    assert Found(ind, axislen, i + 1) == Found(ind, axislen, i) + [i];
  }

  lemma NotBefore(ind: seq<int>, axislen: nat, q: nat, u: nat, c: nat, bmask: Bits)
    requires u <= c <= WORD && forall b :: 0 <= b < c ==> !bmask[b]
    requires forall b :: 0 <= b < WORD ==> (bmask[b] <==> b >= u && Kept(ind, axislen, WORD * q + b))
    ensures Found(ind, axislen, WORD * q + c) == Found(ind, axislen, WORD * q + u)
  {
    forall i | WORD * q + u <= i < WORD * q + c ensures !Kept(ind, axislen, i) {
      var b := i - WORD * q;
      assert !bmask[b];
      assert i == WORD * q + b;
    }
    NoneFound(ind, axislen, WORD * q + u, WORD * q + c);
  }

  /** The buffer between mask words: q of them are used up. */
  ghost predicate Between(z: seq<Word>, ind: seq<int>, axislen: nat, q: nat, zv: nat) {
    var out := Found(ind, axislen, WORD * q);
    && zv == |out| && (forall j :: 0 <= j < zv ==> j < |z| && z[j] == Index(out[j]))
    && Unread(z, ind, axislen, q)
  }

  lemma FetchWord(z: seq<Word>, ind: seq<int>, axislen: nat, q: nat, zv: nat)
    requires axislen > 0 && Between(z, ind, axislen, q, zv) && q < MaskWords(axislen)
    ensures var p := axislen - MaskWords(axislen) + q;
            0 <= p < |z| == axislen && z[p].Mask? && Writing(z, ind, axislen, q, 0, z[p].bits, zv)
  {
    MaskFits(axislen);
    assert Unread(z, ind, axislen, q);
    assert |z| == axislen;
    var p := axislen - MaskWords(axislen) + q;
    assert MaskWord(z[p], ind, |ind|, axislen, q);
  }

  lemma WordDone(z: seq<Word>, ind: seq<int>, axislen: nat, q: nat, u: nat, bmask: Bits, zv: nat)
    requires Writing(z, ind, axislen, q, u, bmask, zv) && true !in bmask
    ensures Between(z, ind, axislen, q + 1, zv)
  {
    NotBefore(ind, axislen, q, u, WORD, bmask);
  }

  /** Replace the mask by the indexes it holds, ascending, from the start of the buffer. */
  method WriteIndexes(axislen: nat, z: array<Word>, bv: nat, ghost ind: seq<int>) returns (n: nat)
    requires axislen > 0 && z.Length == axislen && bv == axislen - MaskWords(axislen)
    requires Unread(z[..], ind, axislen, 0)
    modifies z
    ensures n <= z.Length && n == |Unnamed(ind, axislen, axislen)|
    ensures forall j :: 0 <= j < n ==> z[j] == Index(Unnamed(ind, axislen, axislen)[j])
  {
    MaskFits(axislen);
    var bwds, q, zbase := MaskWords(axislen), 0, 0;
    n := 0;
    while q < bwds
      invariant 0 <= q <= bwds && zbase == WORD * q && Between(z[..], ind, axislen, q, n)
    {
      FetchWord(z[..], ind, axislen, q, n);
      n := WriteWord(axislen, z, z[bv + q].bits, q, zbase, n, ind);
      zbase := zbase + WORD;
      q := q + 1;
    }
  }

  lemma WritingLength(z: seq<Word>, ind: seq<int>, axislen: nat, q: nat, u: nat, bmask: Bits, zv: nat)
    requires Writing(z, ind, axislen, q, u, bmask, zv)
    ensures |z| == axislen && u <= WORD
  {
  }

  /** Copy an index for each bit of a word, clearing the bits one by one. */
  method WriteWord(axislen: nat, z: array<Word>, bits: Bits, ghost q: nat, zbase: nat, zv: nat, ghost ind: seq<int>)
    returns (n: nat)
    requires axislen > 0 && Writing(z[..], ind, axislen, q, 0, bits, zv) && zbase == WORD * q
    modifies z
    ensures Between(z[..], ind, axislen, q + 1, n)
  {
    hide *;
    var bmask := bits;
    n := zv;
    ghost var u: nat := 0;
    WritingLength(z[..], ind, axislen, q, u, bmask, n);
    while true in bmask
      invariant Writing(z[..], ind, axislen, q, u, bmask, n) && u <= WORD && z.Length == axislen
      decreases WORD - u
    {
      var bitno := Ctz(bmask);
      ghost var z0 := z[..];
      WriteStep(z0, ind, axislen, q, u, bmask, n);
      z[n] := Index(zbase + bitno);
      assert z[..] == z0[n := Index(zbase + bitno)];
      n := n + 1;
      bmask := bmask[bitno := false];
      u := bitno + 1;
    }
    WordDone(z[..], ind, axislen, q, u, bmask, n);
  }

  /** The indexes of an axis that a complementary selector leaves. */
  method CompIdx(axislen: nat, ind: seq<int>) returns (r: Selection)
    ensures r == InFull <==> ind == []
    ensures r == IndexError <==> ind != [] && exists j :: 0 <= j < |ind| && Wrapped(ind[j], axislen) == None
    ensures r.Indexes? ==> r.ixs == Unnamed(ind, axislen, axislen)
  {
    if |ind| == 0 {
      return InFull;
    }
    if axislen == 0 {
      assert Wrapped(ind[0], axislen) == None;
      return IndexError;
    }
    var z := new Word[axislen](_ => Unset);
    var bv := StartMask(axislen, z, ind);
    var ok := CrossOff(axislen, z, bv, ind);
    if !ok {
      return IndexError;
    }
    MaskFits(axislen);
    var n := WriteIndexes(axislen, z, bv, ind);
    var ixs := [];
    for i := 0 to n
      invariant ixs == Unnamed(ind, axislen, axislen)[..i]
    {
      ixs := ixs + [z[i].value];
    }
    r := Indexes(ixs);
  }
}
