/** The substitution tables of AES, a row for each high half of the byte, and that the second
    undoes the first.  (FIPS 197, figures 7 and 14.) */
module AesTables {

  /** The substitution of SubBytes. */
  function Sbox(x: bv8): bv8 {
    var h, l := x >> 4, x & 15;
    if h == 0 then Sbox0(l)
    else if h == 1 then Sbox1(l)
    else if h == 2 then Sbox2(l)
    else if h == 3 then Sbox3(l)
    else if h == 4 then Sbox4(l)
    else if h == 5 then Sbox5(l)
    else if h == 6 then Sbox6(l)
    else if h == 7 then Sbox7(l)
    else if h == 8 then Sbox8(l)
    else if h == 9 then Sbox9(l)
    else if h == 10 then SboxA(l)
    else if h == 11 then SboxB(l)
    else if h == 12 then SboxC(l)
    else if h == 13 then SboxD(l)
    else if h == 14 then SboxE(l)
    else SboxF(l)
  }

  function Sbox0(l: bv8): bv8 {
    if l == 0 then 0x63 else if l == 1 then 0x7c else if l == 2 then 0x77 else if l == 3 then 0x7b else if l == 4 then 0xf2 else
    if l == 5 then 0x6b else if l == 6 then 0x6f else if l == 7 then 0xc5 else if l == 8 then 0x30 else if l == 9 then 0x01 else
    if l == 10 then 0x67 else if l == 11 then 0x2b else if l == 12 then 0xfe else if l == 13 then 0xd7 else if l == 14 then 0xab else 0x76
  }

  function Sbox1(l: bv8): bv8 {
    if l == 0 then 0xca else if l == 1 then 0x82 else if l == 2 then 0xc9 else if l == 3 then 0x7d else if l == 4 then 0xfa else
    if l == 5 then 0x59 else if l == 6 then 0x47 else if l == 7 then 0xf0 else if l == 8 then 0xad else if l == 9 then 0xd4 else
    if l == 10 then 0xa2 else if l == 11 then 0xaf else if l == 12 then 0x9c else if l == 13 then 0xa4 else if l == 14 then 0x72 else 0xc0
  }

  function Sbox2(l: bv8): bv8 {
    if l == 0 then 0xb7 else if l == 1 then 0xfd else if l == 2 then 0x93 else if l == 3 then 0x26 else if l == 4 then 0x36 else
    if l == 5 then 0x3f else if l == 6 then 0xf7 else if l == 7 then 0xcc else if l == 8 then 0x34 else if l == 9 then 0xa5 else
    if l == 10 then 0xe5 else if l == 11 then 0xf1 else if l == 12 then 0x71 else if l == 13 then 0xd8 else if l == 14 then 0x31 else 0x15
  }

  function Sbox3(l: bv8): bv8 {
    if l == 0 then 0x04 else if l == 1 then 0xc7 else if l == 2 then 0x23 else if l == 3 then 0xc3 else if l == 4 then 0x18 else
    if l == 5 then 0x96 else if l == 6 then 0x05 else if l == 7 then 0x9a else if l == 8 then 0x07 else if l == 9 then 0x12 else
    if l == 10 then 0x80 else if l == 11 then 0xe2 else if l == 12 then 0xeb else if l == 13 then 0x27 else if l == 14 then 0xb2 else 0x75
  }

  function Sbox4(l: bv8): bv8 {
    if l == 0 then 0x09 else if l == 1 then 0x83 else if l == 2 then 0x2c else if l == 3 then 0x1a else if l == 4 then 0x1b else
    if l == 5 then 0x6e else if l == 6 then 0x5a else if l == 7 then 0xa0 else if l == 8 then 0x52 else if l == 9 then 0x3b else
    if l == 10 then 0xd6 else if l == 11 then 0xb3 else if l == 12 then 0x29 else if l == 13 then 0xe3 else if l == 14 then 0x2f else 0x84
  }

  function Sbox5(l: bv8): bv8 {
    if l == 0 then 0x53 else if l == 1 then 0xd1 else if l == 2 then 0x00 else if l == 3 then 0xed else if l == 4 then 0x20 else
    if l == 5 then 0xfc else if l == 6 then 0xb1 else if l == 7 then 0x5b else if l == 8 then 0x6a else if l == 9 then 0xcb else
    if l == 10 then 0xbe else if l == 11 then 0x39 else if l == 12 then 0x4a else if l == 13 then 0x4c else if l == 14 then 0x58 else 0xcf
  }

  function Sbox6(l: bv8): bv8 {
    if l == 0 then 0xd0 else if l == 1 then 0xef else if l == 2 then 0xaa else if l == 3 then 0xfb else if l == 4 then 0x43 else
    if l == 5 then 0x4d else if l == 6 then 0x33 else if l == 7 then 0x85 else if l == 8 then 0x45 else if l == 9 then 0xf9 else
    if l == 10 then 0x02 else if l == 11 then 0x7f else if l == 12 then 0x50 else if l == 13 then 0x3c else if l == 14 then 0x9f else 0xa8
  }

  function Sbox7(l: bv8): bv8 {
    if l == 0 then 0x51 else if l == 1 then 0xa3 else if l == 2 then 0x40 else if l == 3 then 0x8f else if l == 4 then 0x92 else
    if l == 5 then 0x9d else if l == 6 then 0x38 else if l == 7 then 0xf5 else if l == 8 then 0xbc else if l == 9 then 0xb6 else
    if l == 10 then 0xda else if l == 11 then 0x21 else if l == 12 then 0x10 else if l == 13 then 0xff else if l == 14 then 0xf3 else 0xd2
  }

  function Sbox8(l: bv8): bv8 {
    if l == 0 then 0xcd else if l == 1 then 0x0c else if l == 2 then 0x13 else if l == 3 then 0xec else if l == 4 then 0x5f else
    if l == 5 then 0x97 else if l == 6 then 0x44 else if l == 7 then 0x17 else if l == 8 then 0xc4 else if l == 9 then 0xa7 else
    if l == 10 then 0x7e else if l == 11 then 0x3d else if l == 12 then 0x64 else if l == 13 then 0x5d else if l == 14 then 0x19 else 0x73
  }

  function Sbox9(l: bv8): bv8 {
    if l == 0 then 0x60 else if l == 1 then 0x81 else if l == 2 then 0x4f else if l == 3 then 0xdc else if l == 4 then 0x22 else
    if l == 5 then 0x2a else if l == 6 then 0x90 else if l == 7 then 0x88 else if l == 8 then 0x46 else if l == 9 then 0xee else
    if l == 10 then 0xb8 else if l == 11 then 0x14 else if l == 12 then 0xde else if l == 13 then 0x5e else if l == 14 then 0x0b else 0xdb
  }

  function SboxA(l: bv8): bv8 {
    if l == 0 then 0xe0 else if l == 1 then 0x32 else if l == 2 then 0x3a else if l == 3 then 0x0a else if l == 4 then 0x49 else
    if l == 5 then 0x06 else if l == 6 then 0x24 else if l == 7 then 0x5c else if l == 8 then 0xc2 else if l == 9 then 0xd3 else
    if l == 10 then 0xac else if l == 11 then 0x62 else if l == 12 then 0x91 else if l == 13 then 0x95 else if l == 14 then 0xe4 else 0x79
  }

  function SboxB(l: bv8): bv8 {
    if l == 0 then 0xe7 else if l == 1 then 0xc8 else if l == 2 then 0x37 else if l == 3 then 0x6d else if l == 4 then 0x8d else
    if l == 5 then 0xd5 else if l == 6 then 0x4e else if l == 7 then 0xa9 else if l == 8 then 0x6c else if l == 9 then 0x56 else
    if l == 10 then 0xf4 else if l == 11 then 0xea else if l == 12 then 0x65 else if l == 13 then 0x7a else if l == 14 then 0xae else 0x08
  }

  function SboxC(l: bv8): bv8 {
    if l == 0 then 0xba else if l == 1 then 0x78 else if l == 2 then 0x25 else if l == 3 then 0x2e else if l == 4 then 0x1c else
    if l == 5 then 0xa6 else if l == 6 then 0xb4 else if l == 7 then 0xc6 else if l == 8 then 0xe8 else if l == 9 then 0xdd else
    if l == 10 then 0x74 else if l == 11 then 0x1f else if l == 12 then 0x4b else if l == 13 then 0xbd else if l == 14 then 0x8b else 0x8a
  }

  function SboxD(l: bv8): bv8 {
    if l == 0 then 0x70 else if l == 1 then 0x3e else if l == 2 then 0xb5 else if l == 3 then 0x66 else if l == 4 then 0x48 else
    if l == 5 then 0x03 else if l == 6 then 0xf6 else if l == 7 then 0x0e else if l == 8 then 0x61 else if l == 9 then 0x35 else
    if l == 10 then 0x57 else if l == 11 then 0xb9 else if l == 12 then 0x86 else if l == 13 then 0xc1 else if l == 14 then 0x1d else 0x9e
  }

  function SboxE(l: bv8): bv8 {
    if l == 0 then 0xe1 else if l == 1 then 0xf8 else if l == 2 then 0x98 else if l == 3 then 0x11 else if l == 4 then 0x69 else
    if l == 5 then 0xd9 else if l == 6 then 0x8e else if l == 7 then 0x94 else if l == 8 then 0x9b else if l == 9 then 0x1e else
    if l == 10 then 0x87 else if l == 11 then 0xe9 else if l == 12 then 0xce else if l == 13 then 0x55 else if l == 14 then 0x28 else 0xdf
  }

  function SboxF(l: bv8): bv8 {
    if l == 0 then 0x8c else if l == 1 then 0xa1 else if l == 2 then 0x89 else if l == 3 then 0x0d else if l == 4 then 0xbf else
    if l == 5 then 0xe6 else if l == 6 then 0x42 else if l == 7 then 0x68 else if l == 8 then 0x41 else if l == 9 then 0x99 else
    if l == 10 then 0x2d else if l == 11 then 0x0f else if l == 12 then 0xb0 else if l == 13 then 0x54 else if l == 14 then 0xbb else 0x16
  }

  /** The substitution of InvSubBytes. */
  function Rsbox(x: bv8): bv8 {
    var h, l := x >> 4, x & 15;
    if h == 0 then Rsbox0(l)
    else if h == 1 then Rsbox1(l)
    else if h == 2 then Rsbox2(l)
    else if h == 3 then Rsbox3(l)
    else if h == 4 then Rsbox4(l)
    else if h == 5 then Rsbox5(l)
    else if h == 6 then Rsbox6(l)
    else if h == 7 then Rsbox7(l)
    else if h == 8 then Rsbox8(l)
    else if h == 9 then Rsbox9(l)
    else if h == 10 then RsboxA(l)
    else if h == 11 then RsboxB(l)
    else if h == 12 then RsboxC(l)
    else if h == 13 then RsboxD(l)
    else if h == 14 then RsboxE(l)
    else RsboxF(l)
  }

  function Rsbox0(l: bv8): bv8 {
    if l == 0 then 0x52 else if l == 1 then 0x09 else if l == 2 then 0x6a else if l == 3 then 0xd5 else if l == 4 then 0x30 else
    if l == 5 then 0x36 else if l == 6 then 0xa5 else if l == 7 then 0x38 else if l == 8 then 0xbf else if l == 9 then 0x40 else
    if l == 10 then 0xa3 else if l == 11 then 0x9e else if l == 12 then 0x81 else if l == 13 then 0xf3 else if l == 14 then 0xd7 else 0xfb
  }

  function Rsbox1(l: bv8): bv8 {
    if l == 0 then 0x7c else if l == 1 then 0xe3 else if l == 2 then 0x39 else if l == 3 then 0x82 else if l == 4 then 0x9b else
    if l == 5 then 0x2f else if l == 6 then 0xff else if l == 7 then 0x87 else if l == 8 then 0x34 else if l == 9 then 0x8e else
    if l == 10 then 0x43 else if l == 11 then 0x44 else if l == 12 then 0xc4 else if l == 13 then 0xde else if l == 14 then 0xe9 else 0xcb
  }

  function Rsbox2(l: bv8): bv8 {
    if l == 0 then 0x54 else if l == 1 then 0x7b else if l == 2 then 0x94 else if l == 3 then 0x32 else if l == 4 then 0xa6 else
    if l == 5 then 0xc2 else if l == 6 then 0x23 else if l == 7 then 0x3d else if l == 8 then 0xee else if l == 9 then 0x4c else
    if l == 10 then 0x95 else if l == 11 then 0x0b else if l == 12 then 0x42 else if l == 13 then 0xfa else if l == 14 then 0xc3 else 0x4e
  }

  function Rsbox3(l: bv8): bv8 {
    if l == 0 then 0x08 else if l == 1 then 0x2e else if l == 2 then 0xa1 else if l == 3 then 0x66 else if l == 4 then 0x28 else
    if l == 5 then 0xd9 else if l == 6 then 0x24 else if l == 7 then 0xb2 else if l == 8 then 0x76 else if l == 9 then 0x5b else
    if l == 10 then 0xa2 else if l == 11 then 0x49 else if l == 12 then 0x6d else if l == 13 then 0x8b else if l == 14 then 0xd1 else 0x25
  }

  function Rsbox4(l: bv8): bv8 {
    if l == 0 then 0x72 else if l == 1 then 0xf8 else if l == 2 then 0xf6 else if l == 3 then 0x64 else if l == 4 then 0x86 else
    if l == 5 then 0x68 else if l == 6 then 0x98 else if l == 7 then 0x16 else if l == 8 then 0xd4 else if l == 9 then 0xa4 else
    if l == 10 then 0x5c else if l == 11 then 0xcc else if l == 12 then 0x5d else if l == 13 then 0x65 else if l == 14 then 0xb6 else 0x92
  }

  function Rsbox5(l: bv8): bv8 {
    if l == 0 then 0x6c else if l == 1 then 0x70 else if l == 2 then 0x48 else if l == 3 then 0x50 else if l == 4 then 0xfd else
    if l == 5 then 0xed else if l == 6 then 0xb9 else if l == 7 then 0xda else if l == 8 then 0x5e else if l == 9 then 0x15 else
    if l == 10 then 0x46 else if l == 11 then 0x57 else if l == 12 then 0xa7 else if l == 13 then 0x8d else if l == 14 then 0x9d else 0x84
  }

  function Rsbox6(l: bv8): bv8 {
    if l == 0 then 0x90 else if l == 1 then 0xd8 else if l == 2 then 0xab else if l == 3 then 0x00 else if l == 4 then 0x8c else
    if l == 5 then 0xbc else if l == 6 then 0xd3 else if l == 7 then 0x0a else if l == 8 then 0xf7 else if l == 9 then 0xe4 else
    if l == 10 then 0x58 else if l == 11 then 0x05 else if l == 12 then 0xb8 else if l == 13 then 0xb3 else if l == 14 then 0x45 else 0x06
  }

  function Rsbox7(l: bv8): bv8 {
    if l == 0 then 0xd0 else if l == 1 then 0x2c else if l == 2 then 0x1e else if l == 3 then 0x8f else if l == 4 then 0xca else
    if l == 5 then 0x3f else if l == 6 then 0x0f else if l == 7 then 0x02 else if l == 8 then 0xc1 else if l == 9 then 0xaf else
    if l == 10 then 0xbd else if l == 11 then 0x03 else if l == 12 then 0x01 else if l == 13 then 0x13 else if l == 14 then 0x8a else 0x6b
  }

  function Rsbox8(l: bv8): bv8 {
    if l == 0 then 0x3a else if l == 1 then 0x91 else if l == 2 then 0x11 else if l == 3 then 0x41 else if l == 4 then 0x4f else
    if l == 5 then 0x67 else if l == 6 then 0xdc else if l == 7 then 0xea else if l == 8 then 0x97 else if l == 9 then 0xf2 else
    if l == 10 then 0xcf else if l == 11 then 0xce else if l == 12 then 0xf0 else if l == 13 then 0xb4 else if l == 14 then 0xe6 else 0x73
  }

  function Rsbox9(l: bv8): bv8 {
    if l == 0 then 0x96 else if l == 1 then 0xac else if l == 2 then 0x74 else if l == 3 then 0x22 else if l == 4 then 0xe7 else
    if l == 5 then 0xad else if l == 6 then 0x35 else if l == 7 then 0x85 else if l == 8 then 0xe2 else if l == 9 then 0xf9 else
    if l == 10 then 0x37 else if l == 11 then 0xe8 else if l == 12 then 0x1c else if l == 13 then 0x75 else if l == 14 then 0xdf else 0x6e
  }

  function RsboxA(l: bv8): bv8 {
    if l == 0 then 0x47 else if l == 1 then 0xf1 else if l == 2 then 0x1a else if l == 3 then 0x71 else if l == 4 then 0x1d else
    if l == 5 then 0x29 else if l == 6 then 0xc5 else if l == 7 then 0x89 else if l == 8 then 0x6f else if l == 9 then 0xb7 else
    if l == 10 then 0x62 else if l == 11 then 0x0e else if l == 12 then 0xaa else if l == 13 then 0x18 else if l == 14 then 0xbe else 0x1b
  }

  function RsboxB(l: bv8): bv8 {
    if l == 0 then 0xfc else if l == 1 then 0x56 else if l == 2 then 0x3e else if l == 3 then 0x4b else if l == 4 then 0xc6 else
    if l == 5 then 0xd2 else if l == 6 then 0x79 else if l == 7 then 0x20 else if l == 8 then 0x9a else if l == 9 then 0xdb else
    if l == 10 then 0xc0 else if l == 11 then 0xfe else if l == 12 then 0x78 else if l == 13 then 0xcd else if l == 14 then 0x5a else 0xf4
  }

  function RsboxC(l: bv8): bv8 {
    if l == 0 then 0x1f else if l == 1 then 0xdd else if l == 2 then 0xa8 else if l == 3 then 0x33 else if l == 4 then 0x88 else
    if l == 5 then 0x07 else if l == 6 then 0xc7 else if l == 7 then 0x31 else if l == 8 then 0xb1 else if l == 9 then 0x12 else
    if l == 10 then 0x10 else if l == 11 then 0x59 else if l == 12 then 0x27 else if l == 13 then 0x80 else if l == 14 then 0xec else 0x5f
  }

  function RsboxD(l: bv8): bv8 {
    if l == 0 then 0x60 else if l == 1 then 0x51 else if l == 2 then 0x7f else if l == 3 then 0xa9 else if l == 4 then 0x19 else
    if l == 5 then 0xb5 else if l == 6 then 0x4a else if l == 7 then 0x0d else if l == 8 then 0x2d else if l == 9 then 0xe5 else
    if l == 10 then 0x7a else if l == 11 then 0x9f else if l == 12 then 0x93 else if l == 13 then 0xc9 else if l == 14 then 0x9c else 0xef
  }

  function RsboxE(l: bv8): bv8 {
    if l == 0 then 0xa0 else if l == 1 then 0xe0 else if l == 2 then 0x3b else if l == 3 then 0x4d else if l == 4 then 0xae else
    if l == 5 then 0x2a else if l == 6 then 0xf5 else if l == 7 then 0xb0 else if l == 8 then 0xc8 else if l == 9 then 0xeb else
    if l == 10 then 0xbb else if l == 11 then 0x3c else if l == 12 then 0x83 else if l == 13 then 0x53 else if l == 14 then 0x99 else 0x61
  }

  function RsboxF(l: bv8): bv8 {
    if l == 0 then 0x17 else if l == 1 then 0x2b else if l == 2 then 0x04 else if l == 3 then 0x7e else if l == 4 then 0xba else
    if l == 5 then 0x77 else if l == 6 then 0xd6 else if l == 7 then 0x26 else if l == 8 then 0xe1 else if l == 9 then 0x69 else
    if l == 10 then 0x14 else if l == 11 then 0x63 else if l == 12 then 0x55 else if l == 13 then 0x21 else if l == 14 then 0x0c else 0x7d
  }

  lemma Row0(l: bv8)
    requires l < 16
    ensures Rsbox(Sbox0(l)) == 0x00 | l
  {
  }

  lemma Row1(l: bv8)
    requires l < 16
    ensures Rsbox(Sbox1(l)) == 0x10 | l
  {
  }

  lemma Row2(l: bv8)
    requires l < 16
    ensures Rsbox(Sbox2(l)) == 0x20 | l
  {
  }

  lemma Row3(l: bv8)
    requires l < 16
    ensures Rsbox(Sbox3(l)) == 0x30 | l
  {
  }

  lemma Row4(l: bv8)
    requires l < 16
    ensures Rsbox(Sbox4(l)) == 0x40 | l
  {
  }

  lemma Row5(l: bv8)
    requires l < 16
    ensures Rsbox(Sbox5(l)) == 0x50 | l
  {
  }

  lemma Row6(l: bv8)
    requires l < 16
    ensures Rsbox(Sbox6(l)) == 0x60 | l
  {
  }

  lemma Row7(l: bv8)
    requires l < 16
    ensures Rsbox(Sbox7(l)) == 0x70 | l
  {
  }

  lemma Row8(l: bv8)
    requires l < 16
    ensures Rsbox(Sbox8(l)) == 0x80 | l
  {
  }

  lemma Row9(l: bv8)
    requires l < 16
    ensures Rsbox(Sbox9(l)) == 0x90 | l
  {
  }

  lemma RowA(l: bv8)
    requires l < 16
    ensures Rsbox(SboxA(l)) == 0xa0 | l
  {
  }

  lemma RowB(l: bv8)
    requires l < 16
    ensures Rsbox(SboxB(l)) == 0xb0 | l
  {
  }

  lemma RowC(l: bv8)
    requires l < 16
    ensures Rsbox(SboxC(l)) == 0xc0 | l
  {
  }

  lemma RowD(l: bv8)
    requires l < 16
    ensures Rsbox(SboxD(l)) == 0xd0 | l
  {
  }

  lemma RowE(l: bv8)
    requires l < 16
    ensures Rsbox(SboxE(l)) == 0xe0 | l
  {
  }

  lemma RowF(l: bv8)
    requires l < 16
    ensures Rsbox(SboxF(l)) == 0xf0 | l
  {
  }

  lemma Halves(x: bv8)
    ensures ((x >> 4) << 4) | (x & 15) == x && x & 15 < 16 && x >> 4 < 16
  {
  }

  /** Substituting back. */
  lemma SboxUndone(x: bv8)
    ensures Rsbox(Sbox(x)) == x
  {
    hide Rsbox, Sbox0, Sbox1, Sbox2, Sbox3, Sbox4, Sbox5, Sbox6, Sbox7, Sbox8, Sbox9, SboxA, SboxB, SboxC, SboxD, SboxE, SboxF;
    var h, l := x >> 4, x & 15;
    Halves(x);
    if h == 0 {
      Row0(l);
    } else if h == 1 {
      Row1(l);
    } else if h == 2 {
      Row2(l);
    } else if h == 3 {
      Row3(l);
    } else if h == 4 {
      Row4(l);
    } else if h == 5 {
      Row5(l);
    } else if h == 6 {
      Row6(l);
    } else if h == 7 {
      Row7(l);
    } else if h == 8 {
      Row8(l);
    } else if h == 9 {
      Row9(l);
    } else if h == 10 {
      RowA(l);
    } else if h == 11 {
      RowB(l);
    } else if h == 12 {
      RowC(l);
    } else if h == 13 {
      RowD(l);
    } else if h == 14 {
      RowE(l);
    } else {
      RowF(l);
    }
  }
}
