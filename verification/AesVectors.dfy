/** The example vector of FIPS 197, appendix C.1, through the key expansion and all rounds: it fixes
    the order of the steps and the constants. */
module AesVectors {
  import opened AesField
  import opened AesTables
  import opened AesSbox
  import opened AesKeys
  import opened AesCipher

  /** A block as its four columns. */
  datatype State = State(c0: Word, c1: Word, c2: Word, c3: Word)

  function Column(s: State, c: nat): Word {
    if c == 0 then s.c0 else if c == 1 then s.c1 else if c == 2 then s.c2 else s.c3
  }

  function WordByte(w: Word, r: nat): bv8 {
    if r == 0 then w.b0 else if r == 1 then w.b1 else if r == 2 then w.b2 else w.b3
  }

  function Bytes(s: State): (r: seq<bv8>)
    ensures Block(r)
  {
    seq(16, i requires 0 <= i < 16 => WordByte(Column(s, i / 4), i % 4))
  }

  lemma SixteenBytes(s: State)
    ensures |Bytes(s)| == 16
  {
  }

  lemma BytesAt(s: State)
    ensures WordAt(Bytes(s), 0) == s.c0 && WordAt(Bytes(s), 1) == s.c1
    ensures WordAt(Bytes(s), 2) == s.c2 && WordAt(Bytes(s), 3) == s.c3
  {
  }

  lemma BytesAre(r: seq<bv8>, s: State)
    requires Block(r)
    requires WordAt(r, 0) == s.c0 && WordAt(r, 1) == s.c1 && WordAt(r, 2) == s.c2 && WordAt(r, 3) == s.c3
    ensures r == Bytes(s)
  {
    hide Bytes;
    BytesAt(s);
    WordsDecide(r, Bytes(s));
  }

  lemma WordsDecide(r: seq<bv8>, t: seq<bv8>)
    requires Block(r) && Block(t)
    requires WordAt(r, 0) == WordAt(t, 0) && WordAt(r, 1) == WordAt(t, 1)
    requires WordAt(r, 2) == WordAt(t, 2) && WordAt(r, 3) == WordAt(t, 3)
    ensures r == t
  {
  }

  lemma ShiftFromAt()
    ensures ShiftFrom(0) == 0 && ShiftFrom(1) == 5 && ShiftFrom(2) == 10 && ShiftFrom(3) == 15
    ensures ShiftFrom(4) == 4 && ShiftFrom(5) == 9 && ShiftFrom(6) == 14 && ShiftFrom(7) == 3
    ensures ShiftFrom(8) == 8 && ShiftFrom(9) == 13 && ShiftFrom(10) == 2 && ShiftFrom(11) == 7
    ensures ShiftFrom(12) == 12 && ShiftFrom(13) == 1 && ShiftFrom(14) == 6 && ShiftFrom(15) == 11
  {
  }

  // ---- A round, from inverses in the field.

  /** y is the inverse of x, or both are zero. */
  ghost predicate InverseIs(x: bv8, y: bv8) {
    if x == 0 then y == 0 else Times(x, y) == 1
  }

  ghost predicate Inverses(x: Word, y: Word) {
    InverseIs(x.b0, y.b0) && InverseIs(x.b1, y.b1) && InverseIs(x.b2, y.b2) && InverseIs(x.b3, y.b3)
  }

  function AffineWord(y: Word): Word {
    Word(Affine(y.b0), Affine(y.b1), Affine(y.b2), Affine(y.b3))
  }

  function MixWord(w: Word): Word {
    Word(Mix(w.b0, w.b1, w.b2, w.b3), Mix(w.b1, w.b2, w.b3, w.b0),
         Mix(w.b2, w.b3, w.b0, w.b1), Mix(w.b3, w.b0, w.b1, w.b2))
  }

  /** The column that ShiftRows makes of a row each of four columns. */
  function Diagonal(a: Word, b: Word, c: Word, d: Word): Word {
    Word(a.b0, b.b1, c.b2, d.b3)
  }

  lemma SubstituteIs(x: bv8, y: bv8)
    requires InverseIs(x, y)
    ensures Sbox(x) == Affine(y)
  {
    hide Sbox, Times, Affine;
    SboxIs(x, y);
  }

  lemma SubWordIs(x: Word, y: Word)
    requires Inverses(x, y)
    ensures SubWord(x) == AffineWord(y)
  {
    hide Sbox, Times, Affine, InverseIs;
    SubstituteIs(x.b0, y.b0);
    SubstituteIs(x.b1, y.b1);
    SubstituteIs(x.b2, y.b2);
    SubstituteIs(x.b3, y.b3);
  }

  /** A column of the next state: y has the inverses of a diagonal. */
  ghost predicate ColumnTo(a: Word, b: Word, c: Word, d: Word, y: Word, k: Word, r: Word) {
    Inverses(Diagonal(a, b, c, d), y) && r == AddWords(MixWord(AffineWord(y)), k)
  }

  /** The same in the last round, which mixes no columns. */
  ghost predicate LastColumnTo(a: Word, b: Word, c: Word, d: Word, y: Word, k: Word, r: Word) {
    Inverses(Diagonal(a, b, c, d), y) && r == AddWords(AffineWord(y), k)
  }

  ghost predicate RoundTo(s: State, y: State, k: State, r: State) {
    && ColumnTo(s.c0, s.c1, s.c2, s.c3, y.c0, k.c0, r.c0) && ColumnTo(s.c1, s.c2, s.c3, s.c0, y.c1, k.c1, r.c1)
    && ColumnTo(s.c2, s.c3, s.c0, s.c1, y.c2, k.c2, r.c2) && ColumnTo(s.c3, s.c0, s.c1, s.c2, y.c3, k.c3, r.c3)
  }

  ghost predicate LastRoundTo(s: State, y: State, k: State, r: State) {
    && LastColumnTo(s.c0, s.c1, s.c2, s.c3, y.c0, k.c0, r.c0)
    && LastColumnTo(s.c1, s.c2, s.c3, s.c0, y.c1, k.c1, r.c1)
    && LastColumnTo(s.c2, s.c3, s.c0, s.c1, y.c2, k.c2, r.c2)
    && LastColumnTo(s.c3, s.c0, s.c1, s.c2, y.c3, k.c3, r.c3)
  }

  /** The diagonals of a state, as columns. */
  function Shifted(s: State): State {
    State(Diagonal(s.c0, s.c1, s.c2, s.c3), Diagonal(s.c1, s.c2, s.c3, s.c0),
          Diagonal(s.c2, s.c3, s.c0, s.c1), Diagonal(s.c3, s.c0, s.c1, s.c2))
  }

  lemma SubstitutedIs(s: State)
    ensures SubBytes(Bytes(s)) == Bytes(State(SubWord(s.c0), SubWord(s.c1), SubWord(s.c2), SubWord(s.c3)))
  {
    hide Sbox, Bytes;
    var t := State(SubWord(s.c0), SubWord(s.c1), SubWord(s.c2), SubWord(s.c3));
    BytesAt(s);
    BytesAre(SubBytes(Bytes(s)), t);
  }

  lemma ShiftedIs(s: State)
    ensures ShiftRows(Bytes(s)) == Bytes(Shifted(s))
  {
    hide Bytes, ShiftFrom;
    BytesAt(s);
    ShiftFromAt();
    BytesAre(ShiftRows(Bytes(s)), Shifted(s));
  }

  lemma MixedIs(s: State)
    ensures MixColumns(Bytes(s)) == Bytes(State(MixWord(s.c0), MixWord(s.c1), MixWord(s.c2), MixWord(s.c3)))
  {
    hide MixWord, WordAt, Bytes, MixColumns;
    BytesAt(s);
    MixedColumn(Bytes(s), 0);
    MixedColumn(Bytes(s), 1);
    MixedColumn(Bytes(s), 2);
    MixedColumn(Bytes(s), 3);
    BytesAre(MixColumns(Bytes(s)), State(MixWord(s.c0), MixWord(s.c1), MixWord(s.c2), MixWord(s.c3)));
  }

  lemma MixedColumn(s: seq<bv8>, c: nat)
    requires Block(s) && c < 4
    ensures WordAt(MixColumns(s), c) == MixWord(WordAt(s, c))
  {
    hide Mix, Below;
    BelowAt(c);
  }

  lemma AddedIs(s: State, k: State)
    ensures AddBlocks(Bytes(s), Bytes(k)) ==
            Bytes(State(AddWords(s.c0, k.c0), AddWords(s.c1, k.c1), AddWords(s.c2, k.c2), AddWords(s.c3, k.c3)))
  {
    hide Add, Bytes;
    var t := State(AddWords(s.c0, k.c0), AddWords(s.c1, k.c1), AddWords(s.c2, k.c2), AddWords(s.c3, k.c3));
    BytesAt(s);
    BytesAt(k);
    BytesAre(AddBlocks(Bytes(s), Bytes(k)), t);
  }

  lemma ShiftedSubstituted(s: State, y: State)
    requires Inverses(Diagonal(s.c0, s.c1, s.c2, s.c3), y.c0) && Inverses(Diagonal(s.c1, s.c2, s.c3, s.c0), y.c1)
    requires Inverses(Diagonal(s.c2, s.c3, s.c0, s.c1), y.c2) && Inverses(Diagonal(s.c3, s.c0, s.c1, s.c2), y.c3)
    ensures ShiftRows(SubBytes(Bytes(s))) ==
            Bytes(State(AffineWord(y.c0), AffineWord(y.c1), AffineWord(y.c2), AffineWord(y.c3)))
  {
    hide Sbox, Affine, Inverses, Bytes, SubBytes, ShiftRows, AffineWord;
    SubstitutedIs(s);
    ShiftedIs(State(SubWord(s.c0), SubWord(s.c1), SubWord(s.c2), SubWord(s.c3)));
    SubWordIs(Diagonal(s.c0, s.c1, s.c2, s.c3), y.c0);
    SubWordIs(Diagonal(s.c1, s.c2, s.c3, s.c0), y.c1);
    SubWordIs(Diagonal(s.c2, s.c3, s.c0, s.c1), y.c2);
    SubWordIs(Diagonal(s.c3, s.c0, s.c1, s.c2), y.c3);
  }

  /** A round, column by column: a diagonal is replaced by the affine images of its inverses, mixed, and added
      to the column of the key. */
  lemma RoundIs(s: State, y: State, k: State, r: State)
    requires RoundTo(s, y, k, r)
    ensures Round(Bytes(s), Bytes(k)) == Bytes(r)
  {
    hide Inverses, Diagonal, AffineWord, MixWord, AddWords, Bytes, SubBytes, ShiftRows, MixColumns, AddBlocks;
    ShiftedSubstituted(s, y);
    var t := State(AffineWord(y.c0), AffineWord(y.c1), AffineWord(y.c2), AffineWord(y.c3));
    MixedIs(t);
    AddedIs(State(MixWord(t.c0), MixWord(t.c1), MixWord(t.c2), MixWord(t.c3)), k);
  }

  lemma LastRoundIs(s: State, y: State, k: State, r: State)
    requires LastRoundTo(s, y, k, r)
    ensures AddBlocks(ShiftRows(SubBytes(Bytes(s))), Bytes(k)) == Bytes(r)
  {
    hide Inverses, Diagonal, AffineWord, AddWords, Bytes, SubBytes, ShiftRows, AddBlocks;
    ShiftedSubstituted(s, y);
    AddedIs(State(AffineWord(y.c0), AffineWord(y.c1), AffineWord(y.c2), AffineWord(y.c3)), k);
  }

  // ---- The key expansion, four words at a time.

  ghost predicate HasKey(key: seq<bv8>, n: nat, k: State) {
    && |key| == 16 && Expanded(key, 4, 4 * n) == k.c0 && Expanded(key, 4, 4 * n + 1) == k.c1
    && Expanded(key, 4, 4 * n + 2) == k.c2 && Expanded(key, 4, 4 * n + 3) == k.c3
  }

  ghost predicate KeyTo(k: State, y: Word, c: bv8, r: State) {
    && Inverses(RotWord(k.c3), y) && r.c0 == AddWords(k.c0, AddWords(AffineWord(y), Word(c, 0, 0, 0)))
    && r.c1 == AddWords(k.c1, r.c0) && r.c2 == AddWords(k.c2, r.c1) && r.c3 == AddWords(k.c3, r.c2)
  }

  lemma NextKey(key: seq<bv8>, n: nat, k: State, y: Word, r: State)
    requires HasKey(key, n, k) && n < 10 && KeyTo(k, y, Power(n), r)
    ensures HasKey(key, n + 1, r)
  {
    hide Expanded, Inverses, AffineWord, AddWords, RotWord, SubWord, Power;
    SubWordIs(RotWord(k.c3), y);
    var i := 4 * n + 4;
    ExpandedIs(key, 4, i);
    ExpandedIs(key, 4, i + 1);
    ExpandedIs(key, 4, i + 2);
    ExpandedIs(key, 4, i + 3);
  }

  lemma FirstKey(key: seq<bv8>, k: State)
    requires key == Bytes(k)
    ensures HasKey(key, 0, k)
  {
    hide Bytes;
    BytesAt(k);
    ExpandedIs(key, 4, 0);
    ExpandedIs(key, 4, 1);
    ExpandedIs(key, 4, 2);
    ExpandedIs(key, 4, 3);
    hide Expanded;
  }

  /** The round keys, read from the schedule. */
  lemma KeyIs(key: seq<bv8>, rk: seq<bv8>, n: nat, k: State)
    requires HasKey(key, n, k) && Schedules(rk, key, 4, 44) && n <= 10
    ensures |rk| >= 176 && Key(rk, n) == Bytes(k)
  {
    hide Expanded, Schedules, Bytes;
    Scheduled(rk, key, 4, 44, 43);
    Scheduled(rk, key, 4, 44, 4 * n);
    Scheduled(rk, key, 4, 44, 4 * n + 1);
    Scheduled(rk, key, 4, 44, 4 * n + 2);
    Scheduled(rk, key, 4, 44, 4 * n + 3);
    BytesAre(Key(rk, n), k);
  }

  // ---- The vector.

  const PLAIN: State :=
    State(Word(0x00, 0x11, 0x22, 0x33), Word(0x44, 0x55, 0x66, 0x77),
          Word(0x88, 0x99, 0xaa, 0xbb), Word(0xcc, 0xdd, 0xee, 0xff))
  const CIPHERED: State :=
    State(Word(0x69, 0xc4, 0xe0, 0xd8), Word(0x6a, 0x7b, 0x04, 0x30),
          Word(0xd8, 0xcd, 0xb7, 0x80), Word(0x70, 0xb4, 0xc5, 0x5a))
  const KEY0: State :=
    State(Word(0x00, 0x01, 0x02, 0x03), Word(0x04, 0x05, 0x06, 0x07),
          Word(0x08, 0x09, 0x0a, 0x0b), Word(0x0c, 0x0d, 0x0e, 0x0f))
  const KEY1: State :=
    State(Word(0xd6, 0xaa, 0x74, 0xfd), Word(0xd2, 0xaf, 0x72, 0xfa),
          Word(0xda, 0xa6, 0x78, 0xf1), Word(0xd6, 0xab, 0x76, 0xfe))
  const KEY2: State :=
    State(Word(0xb6, 0x92, 0xcf, 0x0b), Word(0x64, 0x3d, 0xbd, 0xf1),
          Word(0xbe, 0x9b, 0xc5, 0x00), Word(0x68, 0x30, 0xb3, 0xfe))
  const KEY3: State :=
    State(Word(0xb6, 0xff, 0x74, 0x4e), Word(0xd2, 0xc2, 0xc9, 0xbf),
          Word(0x6c, 0x59, 0x0c, 0xbf), Word(0x04, 0x69, 0xbf, 0x41))
  const KEY4: State :=
    State(Word(0x47, 0xf7, 0xf7, 0xbc), Word(0x95, 0x35, 0x3e, 0x03),
          Word(0xf9, 0x6c, 0x32, 0xbc), Word(0xfd, 0x05, 0x8d, 0xfd))
  const KEY5: State :=
    State(Word(0x3c, 0xaa, 0xa3, 0xe8), Word(0xa9, 0x9f, 0x9d, 0xeb),
          Word(0x50, 0xf3, 0xaf, 0x57), Word(0xad, 0xf6, 0x22, 0xaa))
  const KEY6: State :=
    State(Word(0x5e, 0x39, 0x0f, 0x7d), Word(0xf7, 0xa6, 0x92, 0x96),
          Word(0xa7, 0x55, 0x3d, 0xc1), Word(0x0a, 0xa3, 0x1f, 0x6b))
  const KEY7: State :=
    State(Word(0x14, 0xf9, 0x70, 0x1a), Word(0xe3, 0x5f, 0xe2, 0x8c),
          Word(0x44, 0x0a, 0xdf, 0x4d), Word(0x4e, 0xa9, 0xc0, 0x26))
  const KEY8: State :=
    State(Word(0x47, 0x43, 0x87, 0x35), Word(0xa4, 0x1c, 0x65, 0xb9),
          Word(0xe0, 0x16, 0xba, 0xf4), Word(0xae, 0xbf, 0x7a, 0xd2))
  const KEY9: State :=
    State(Word(0x54, 0x99, 0x32, 0xd1), Word(0xf0, 0x85, 0x57, 0x68),
          Word(0x10, 0x93, 0xed, 0x9c), Word(0xbe, 0x2c, 0x97, 0x4e))
  const KEY10: State :=
    State(Word(0x13, 0x11, 0x1d, 0x7f), Word(0xe3, 0x94, 0x4a, 0x17),
          Word(0xf3, 0x07, 0xa7, 0x8b), Word(0x4d, 0x2b, 0x30, 0xc5))
  const STATE0: State :=
    State(Word(0x00, 0x10, 0x20, 0x30), Word(0x40, 0x50, 0x60, 0x70),
          Word(0x80, 0x90, 0xa0, 0xb0), Word(0xc0, 0xd0, 0xe0, 0xf0))
  const STATE1: State :=
    State(Word(0x89, 0xd8, 0x10, 0xe8), Word(0x85, 0x5a, 0xce, 0x68),
          Word(0x2d, 0x18, 0x43, 0xd8), Word(0xcb, 0x12, 0x8f, 0xe4))
  const STATE2: State :=
    State(Word(0x49, 0x15, 0x59, 0x8f), Word(0x55, 0xe5, 0xd7, 0xa0),
          Word(0xda, 0xca, 0x94, 0xfa), Word(0x1f, 0x0a, 0x63, 0xf7))
  const STATE3: State :=
    State(Word(0xfa, 0x63, 0x6a, 0x28), Word(0x25, 0xb3, 0x39, 0xc9),
          Word(0x40, 0x66, 0x8a, 0x31), Word(0x57, 0x24, 0x4d, 0x17))
  const STATE4: State :=
    State(Word(0x24, 0x72, 0x40, 0x23), Word(0x69, 0x66, 0xb3, 0xfa),
          Word(0x6e, 0xd2, 0x75, 0x32), Word(0x88, 0x42, 0x5b, 0x6c))
  const STATE5: State :=
    State(Word(0xc8, 0x16, 0x77, 0xbc), Word(0x9b, 0x7a, 0xc9, 0x3b),
          Word(0x25, 0x02, 0x79, 0x92), Word(0xb0, 0x26, 0x19, 0x96))
  const STATE6: State :=
    State(Word(0xc6, 0x2f, 0xe1, 0x09), Word(0xf7, 0x5e, 0xed, 0xc3),
          Word(0xcc, 0x79, 0x39, 0x5d), Word(0x84, 0xf9, 0xcf, 0x5d))
  const STATE7: State :=
    State(Word(0xd1, 0x87, 0x6c, 0x0f), Word(0x79, 0xc4, 0x30, 0x0a),
          Word(0xb4, 0x55, 0x94, 0xad), Word(0xd6, 0x6f, 0xf4, 0x1f))
  const STATE8: State :=
    State(Word(0xfd, 0xe3, 0xba, 0xd2), Word(0x05, 0xe5, 0xd0, 0xd7),
          Word(0x35, 0x47, 0x96, 0x4e), Word(0xf1, 0xfe, 0x37, 0xf1))
  const STATE9: State :=
    State(Word(0xbd, 0x6e, 0x7c, 0x3d), Word(0xf2, 0xb5, 0x77, 0x9e),
          Word(0x0b, 0x61, 0x21, 0x6e), Word(0x8b, 0x10, 0xb6, 0x89))

  lemma Key1()
    ensures KeyTo(KEY0, Word(0xe1, 0xe5, 0xc7, 0xb0), Power(0), KEY1)
  {
  }

  lemma Key2()
    ensures KeyTo(KEY1, Word(0x4a, 0xba, 0x41, 0xe2), Power(1), KEY2)
  {
  }

  lemma Key3()
    ensures KeyTo(KEY2, Word(0x2c, 0xef, 0x41, 0xf4), Power(2), KEY3)
  {
  }

  lemma Key4()
    ensures KeyTo(KEY3, Word(0x47, 0x57, 0xfe, 0xcb), Power(3), KEY4)
  {
  }

  lemma Key5()
    ensures KeyTo(KEY4, Word(0x52, 0x02, 0x1a, 0x1a), Power(4), KEY5)
  {
  }

  lemma Key6()
    ensures KeyTo(KEY5, Word(0x03, 0x5a, 0x12, 0xe7), Power(5), KEY6)
  {
  }

  lemma Key7()
    ensures KeyTo(KEY6, Word(0xc3, 0xb2, 0xdf, 0x29), Power(6), KEY7)
  {
  }

  lemma Key8()
    ensures KeyTo(KEY7, Word(0xc8, 0x0b, 0xa8, 0xe9), Power(7), KEY8)
  {
  }

  lemma Key9()
    ensures KeyTo(KEY8, Word(0x57, 0xd0, 0xae, 0xd2), Power(8), KEY9)
  {
  }

  lemma Key10()
    ensures KeyTo(KEY9, Word(0x30, 0x72, 0xe9, 0x86), Power(9), KEY10)
  {
  }

  lemma Round1()
    ensures Round(Bytes(STATE0), Bytes(KEY1)) == Bytes(STATE1)
  {
    hide Round, Bytes;
    RoundIs(STATE0, State(Word(0x00, 0xed, 0xfb, 0x5b), Word(0x1d, 0xde, 0xb1, 0x2c),
                   Word(0x83, 0x7a, 0x3a, 0x79), Word(0x0b, 0x74, 0x16, 0x0c)), KEY1, STATE1);
  }

  lemma Round2()
    ensures Round(Bytes(STATE1), Bytes(KEY2)) == Bytes(STATE2)
  {
    hide Round, Bytes;
    RoundIs(STATE1, State(Word(0x9e, 0x22, 0x67, 0xc6), Word(0x73, 0x58, 0xa4, 0x08),
                   Word(0x44, 0xaa, 0x74, 0xf4), Word(0x04, 0x94, 0xac, 0x94)), KEY2, STATE2);
  }

  lemma Round3()
    ensures Round(Bytes(STATE2), Bytes(KEY3)) == Bytes(STATE3)
  {
    hide Round, Bytes;
    RoundIs(STATE2, State(Word(0x64, 0x0e, 0xd8, 0x8c), Word(0x24, 0x53, 0xd3, 0xa4),
                   Word(0xc4, 0x29, 0x3e, 0xfb), Word(0xb2, 0x2b, 0xea, 0x7d)), KEY3, STATE3);
  }

  lemma Round4()
    ensures Round(Bytes(STATE3), Bytes(KEY4)) == Bytes(STATE4)
  {
    hide Round, Bytes;
    RoundIs(STATE3, State(Word(0x7d, 0xef, 0x95, 0x5f), Word(0x4d, 0x36, 0x25, 0xc1),
                   Word(0x1d, 0x55, 0x91, 0x27), Word(0xbf, 0xd3, 0x35, 0x45)), KEY4, STATE4);
  }

  lemma Round5()
    ensures Round(Bytes(STATE4), Bytes(KEY5)) == Bytes(STATE5)
  {
    hide Round, Bytes;
    RoundIs(STATE4, State(Word(0x55, 0x36, 0xb5, 0x33), Word(0x47, 0xae, 0xf0, 0xf1),
                   Word(0x21, 0x37, 0x1d, 0x7d), Word(0x9b, 0x97, 0xef, 0x92)), KEY5, STATE5);
  }

  lemma Round6()
    ensures Round(Bytes(STATE5), Bytes(KEY6)) == Bytes(STATE6)
  {
    hide Round, Bytes;
    RoundIs(STATE5, State(Word(0xa9, 0xd0, 0x70, 0x84), Word(0x88, 0x8d, 0x3f, 0xbd),
                   Word(0x4d, 0xa8, 0x3c, 0x6f), Word(0x0c, 0x60, 0x27, 0x32)), KEY6, STATE6);
  }

  lemma Round7()
    ensures Round(Bytes(STATE6), Bytes(KEY7)) == Bytes(STATE7)
  {
    hide Round, Bytes;
    RoundIs(STATE6, State(Word(0xe4, 0x61, 0x35, 0xec), Word(0x8c, 0x70, 0xe6, 0x4f),
                   Word(0x1b, 0x9c, 0x0d, 0xa3), Word(0x96, 0xc2, 0x50, 0xec)), KEY7, STATE7);
  }

  lemma Round8()
    ensures Round(Bytes(STATE7), Bytes(KEY8)) == Bytes(STATE8)
  {
    hide Round, Bytes;
    RoundIs(STATE7, State(Word(0x07, 0xda, 0xd8, 0xb2), Word(0x70, 0x24, 0x68, 0xc7),
                   Word(0x11, 0x3b, 0x33, 0x29), Word(0xe2, 0x56, 0x2c, 0xe7)), KEY8, STATE8);
  }

  lemma Round9()
    ensures Round(Bytes(STATE8), Bytes(KEY9)) == Bytes(STATE9)
  {
    hide Round, Bytes;
    RoundIs(STATE8, State(Word(0x1a, 0x0e, 0x84, 0x23), Word(0x52, 0x69, 0x42, 0xae),
                   Word(0x39, 0x41, 0x76, 0xea), Word(0x23, 0xeb, 0x7a, 0xe9)), KEY9, STATE9);
  }

  lemma Round10()
    ensures AddBlocks(ShiftRows(SubBytes(Bytes(STATE9))), Bytes(KEY10)) == Bytes(CIPHERED)
  {
    hide AddBlocks, ShiftRows, SubBytes, Bytes;
    LastRoundIs(STATE9, State(Word(0xbc, 0x75, 0x6e, 0x9e), Word(0x38, 0x5e, 0x78, 0xbb),
                       Word(0xc0, 0x74, 0xa1, 0x89), Word(0xd9, 0x21, 0x3c, 0x21)), KEY10, CIPHERED);
  }

  lemma Whitened()
    ensures AddBlocks(Bytes(PLAIN), Bytes(KEY0)) == Bytes(STATE0)
  {
    AddedIs(PLAIN, KEY0);
    hide AddBlocks;
  }

  lemma Keys(key: seq<bv8>)
    requires key == Bytes(KEY0)
    ensures HasKey(key, 0, KEY0) && HasKey(key, 1, KEY1) && HasKey(key, 2, KEY2) && HasKey(key, 3, KEY3)
    ensures HasKey(key, 4, KEY4) && HasKey(key, 5, KEY5) && HasKey(key, 6, KEY6) && HasKey(key, 7, KEY7)
    ensures HasKey(key, 8, KEY8) && HasKey(key, 9, KEY9) && HasKey(key, 10, KEY10)
  {
    hide *;
    FirstKey(key, KEY0);
    Key1();
    NextKey(key, 0, KEY0, Word(0xe1, 0xe5, 0xc7, 0xb0), KEY1);
    Key2();
    NextKey(key, 1, KEY1, Word(0x4a, 0xba, 0x41, 0xe2), KEY2);
    Key3();
    NextKey(key, 2, KEY2, Word(0x2c, 0xef, 0x41, 0xf4), KEY3);
    Key4();
    NextKey(key, 3, KEY3, Word(0x47, 0x57, 0xfe, 0xcb), KEY4);
    Key5();
    NextKey(key, 4, KEY4, Word(0x52, 0x02, 0x1a, 0x1a), KEY5);
    Key6();
    NextKey(key, 5, KEY5, Word(0x03, 0x5a, 0x12, 0xe7), KEY6);
    Key7();
    NextKey(key, 6, KEY6, Word(0xc3, 0xb2, 0xdf, 0x29), KEY7);
    Key8();
    NextKey(key, 7, KEY7, Word(0xc8, 0x0b, 0xa8, 0xe9), KEY8);
    Key9();
    NextKey(key, 8, KEY8, Word(0x57, 0xd0, 0xae, 0xd2), KEY9);
    Key10();
    NextKey(key, 9, KEY9, Word(0x30, 0x72, 0xe9, 0x86), KEY10);
  }

  /** The state after one more round. */
  lemma NextRounds(s: seq<bv8>, key: seq<bv8>, rk: seq<bv8>, n: nat, k: State, a: State, b: State)
    requires |key| == 16 && Schedules(rk, key, 4, 44) && 0 < n <= 10 && HasKey(key, n, k)
    requires Block(s) && |rk| >= 176 && Rounds(s, rk, n - 1) == Bytes(a) && Round(Bytes(a), Bytes(k)) == Bytes(b)
    ensures Rounds(s, rk, n) == Bytes(b)
  {
    hide Round, Key, Bytes, HasKey, Schedules;
    KeyIs(key, rk, n, k);
  }

  lemma RoundsStart(s: seq<bv8>, key: seq<bv8>, rk: seq<bv8>, k: State)
    requires Block(s) && |key| == 16 && Schedules(rk, key, 4, 44) && HasKey(key, 0, k) && |rk| >= 176
    ensures Rounds(s, rk, 0) == AddBlocks(s, Bytes(k))
  {
    hide AddBlocks, Key, Bytes, HasKey, Schedules;
    KeyIs(key, rk, 0, k);
  }

  lemma CipherEnds(s: seq<bv8>, key: seq<bv8>, rk: seq<bv8>, k: State)
    requires Block(s) && |key| == 16 && Schedules(rk, key, 4, 44) && HasKey(key, 10, k) && |rk| >= 176
    ensures Cipher(s, rk, 10) == AddBlocks(ShiftRows(SubBytes(Rounds(s, rk, 9))), Bytes(k))
  {
    hide AddBlocks, ShiftRows, SubBytes, Key, Bytes, HasKey, Schedules;
    KeyIs(key, rk, 10, k);
  }

  /** Under the key 000102...0f the block 00112233...ff is enciphered to 69c4e0d8...5a. */
  lemma VectorIs(rk: seq<bv8>)
    requires Schedules(rk, Bytes(KEY0), 4, 44)
    ensures |rk| >= 176 && Cipher(Bytes(PLAIN), rk, 10) == Bytes(CIPHERED)
  {
    hide *;
    var s, key := Bytes(PLAIN), Bytes(KEY0);
    SixteenBytes(KEY0);
    Keys(key);
    KeyIs(key, rk, 0, KEY0);
    RoundsStart(s, key, rk, KEY0);
    Whitened();
    Round1();
    NextRounds(s, key, rk, 1, KEY1, STATE0, STATE1);
    Round2();
    NextRounds(s, key, rk, 2, KEY2, STATE1, STATE2);
    Round3();
    NextRounds(s, key, rk, 3, KEY3, STATE2, STATE3);
    Round4();
    NextRounds(s, key, rk, 4, KEY4, STATE3, STATE4);
    Round5();
    NextRounds(s, key, rk, 5, KEY5, STATE4, STATE5);
    Round6();
    NextRounds(s, key, rk, 6, KEY6, STATE5, STATE6);
    Round7();
    NextRounds(s, key, rk, 7, KEY7, STATE6, STATE7);
    Round8();
    NextRounds(s, key, rk, 8, KEY8, STATE7, STATE8);
    Round9();
    NextRounds(s, key, rk, 9, KEY9, STATE8, STATE9);
    Round10();
    CipherEnds(s, key, rk, KEY10);
  }

  /** Words of the schedule of appendix C.2, where no word but the first of six is substituted. */
  lemma MiddleKeyIs(key: seq<bv8>)
    requires |key| == 24
    requires WordAt(key, 0) == Word(0x00, 0x01, 0x02, 0x03)
    requires WordAt(key, 1) == Word(0x04, 0x05, 0x06, 0x07)
    requires WordAt(key, 2) == Word(0x08, 0x09, 0x0a, 0x0b)
    requires WordAt(key, 3) == Word(0x0c, 0x0d, 0x0e, 0x0f)
    requires WordAt(key, 4) == Word(0x10, 0x11, 0x12, 0x13)
    requires WordAt(key, 5) == Word(0x14, 0x15, 0x16, 0x17)
    ensures Expanded(key, 6, 6) == Word(0x58, 0x46, 0xf2, 0xf9)
    ensures Expanded(key, 6, 10) == Word(0x48, 0x56, 0xe2, 0xe9)
  {
    hide Expanded, SubWord;
    ExpandedIs(key, 6, 0);
    ExpandedIs(key, 6, 1);
    ExpandedIs(key, 6, 2);
    ExpandedIs(key, 6, 3);
    ExpandedIs(key, 6, 4);
    ExpandedIs(key, 6, 5);
    ExpandedIs(key, 6, 6);
    ExpandedIs(key, 6, 7);
    ExpandedIs(key, 6, 8);
    ExpandedIs(key, 6, 9);
    ExpandedIs(key, 6, 10);
    SubWordIs(Word(0x15, 0x16, 0x17, 0x14), Word(0x2b, 0x60, 0x5f, 0x99));
  }

  lemma LongKeyStarts(key: seq<bv8>)
    requires |key| == 32
    requires WordAt(key, 0) == Word(0x00, 0x01, 0x02, 0x03)
    requires WordAt(key, 1) == Word(0x04, 0x05, 0x06, 0x07)
    requires WordAt(key, 2) == Word(0x08, 0x09, 0x0a, 0x0b)
    requires WordAt(key, 3) == Word(0x0c, 0x0d, 0x0e, 0x0f)
    requires WordAt(key, 4) == Word(0x10, 0x11, 0x12, 0x13)
    requires WordAt(key, 5) == Word(0x14, 0x15, 0x16, 0x17)
    requires WordAt(key, 6) == Word(0x18, 0x19, 0x1a, 0x1b)
    requires WordAt(key, 7) == Word(0x1c, 0x1d, 0x1e, 0x1f)
    ensures Expanded(key, 8, 4) == Word(0x10, 0x11, 0x12, 0x13)
    ensures Expanded(key, 8, 8) == Word(0xa5, 0x73, 0xc2, 0x9f)
    ensures Expanded(key, 8, 11) == Word(0xa5, 0x72, 0xc0, 0x9c)
  {
    hide Expanded, SubWord;
    ExpandedIs(key, 8, 0);
    ExpandedIs(key, 8, 1);
    ExpandedIs(key, 8, 2);
    ExpandedIs(key, 8, 3);
    ExpandedIs(key, 8, 4);
    ExpandedIs(key, 8, 7);
    ExpandedIs(key, 8, 8);
    ExpandedIs(key, 8, 9);
    ExpandedIs(key, 8, 10);
    ExpandedIs(key, 8, 11);
    SubWordIs(Word(0x1d, 0x1e, 0x1f, 0x1c), Word(0x40, 0xee, 0xb2, 0xff));
  }

  /** Words of the schedule of appendix C.3, where the fifth of eight words is substituted, too. */
  lemma LongKeyIs(key: seq<bv8>)
    requires |key| == 32
    requires WordAt(key, 0) == Word(0x00, 0x01, 0x02, 0x03)
    requires WordAt(key, 1) == Word(0x04, 0x05, 0x06, 0x07)
    requires WordAt(key, 2) == Word(0x08, 0x09, 0x0a, 0x0b)
    requires WordAt(key, 3) == Word(0x0c, 0x0d, 0x0e, 0x0f)
    requires WordAt(key, 4) == Word(0x10, 0x11, 0x12, 0x13)
    requires WordAt(key, 5) == Word(0x14, 0x15, 0x16, 0x17)
    requires WordAt(key, 6) == Word(0x18, 0x19, 0x1a, 0x1b)
    requires WordAt(key, 7) == Word(0x1c, 0x1d, 0x1e, 0x1f)
    ensures Expanded(key, 8, 8) == Word(0xa5, 0x73, 0xc2, 0x9f)
    ensures Expanded(key, 8, 12) == Word(0x16, 0x51, 0xa8, 0xcd)
  {
    hide Expanded, SubWord;
    LongKeyStarts(key);
    ExpandedIs(key, 8, 12);
    SubWordIs(Word(0xa5, 0x72, 0xc0, 0x9c), Word(0xb8, 0x97, 0x0b, 0xf9));
  }
}
