/** The S-box of AES and its inverse, and what FIPS 197 defines them to be: the inverse in GF(2^8) followed by
    an affine map, and the way back. */
module AesSbox {
  import opened Bits
  import opened Gf256

  type row = seq<bv8>

  // The S-box, Figure 7 of FIPS 197: the entry of byte xy stands in row x and column y.
  const SBOX0: row := [0x63, 0x7C, 0x77, 0x7B, 0xF2, 0x6B, 0x6F, 0xC5, 0x30, 0x01, 0x67, 0x2B, 0xFE, 0xD7, 0xAB, 0x76]
  const SBOX1: row := [0xCA, 0x82, 0xC9, 0x7D, 0xFA, 0x59, 0x47, 0xF0, 0xAD, 0xD4, 0xA2, 0xAF, 0x9C, 0xA4, 0x72, 0xC0]
  const SBOX2: row := [0xB7, 0xFD, 0x93, 0x26, 0x36, 0x3F, 0xF7, 0xCC, 0x34, 0xA5, 0xE5, 0xF1, 0x71, 0xD8, 0x31, 0x15]
  const SBOX3: row := [0x04, 0xC7, 0x23, 0xC3, 0x18, 0x96, 0x05, 0x9A, 0x07, 0x12, 0x80, 0xE2, 0xEB, 0x27, 0xB2, 0x75]
  const SBOX4: row := [0x09, 0x83, 0x2C, 0x1A, 0x1B, 0x6E, 0x5A, 0xA0, 0x52, 0x3B, 0xD6, 0xB3, 0x29, 0xE3, 0x2F, 0x84]
  const SBOX5: row := [0x53, 0xD1, 0x00, 0xED, 0x20, 0xFC, 0xB1, 0x5B, 0x6A, 0xCB, 0xBE, 0x39, 0x4A, 0x4C, 0x58, 0xCF]
  const SBOX6: row := [0xD0, 0xEF, 0xAA, 0xFB, 0x43, 0x4D, 0x33, 0x85, 0x45, 0xF9, 0x02, 0x7F, 0x50, 0x3C, 0x9F, 0xA8]
  const SBOX7: row := [0x51, 0xA3, 0x40, 0x8F, 0x92, 0x9D, 0x38, 0xF5, 0xBC, 0xB6, 0xDA, 0x21, 0x10, 0xFF, 0xF3, 0xD2]
  const SBOX8: row := [0xCD, 0x0C, 0x13, 0xEC, 0x5F, 0x97, 0x44, 0x17, 0xC4, 0xA7, 0x7E, 0x3D, 0x64, 0x5D, 0x19, 0x73]
  const SBOX9: row := [0x60, 0x81, 0x4F, 0xDC, 0x22, 0x2A, 0x90, 0x88, 0x46, 0xEE, 0xB8, 0x14, 0xDE, 0x5E, 0x0B, 0xDB]
  const SBOXA: row := [0xE0, 0x32, 0x3A, 0x0A, 0x49, 0x06, 0x24, 0x5C, 0xC2, 0xD3, 0xAC, 0x62, 0x91, 0x95, 0xE4, 0x79]
  const SBOXB: row := [0xE7, 0xC8, 0x37, 0x6D, 0x8D, 0xD5, 0x4E, 0xA9, 0x6C, 0x56, 0xF4, 0xEA, 0x65, 0x7A, 0xAE, 0x08]
  const SBOXC: row := [0xBA, 0x78, 0x25, 0x2E, 0x1C, 0xA6, 0xB4, 0xC6, 0xE8, 0xDD, 0x74, 0x1F, 0x4B, 0xBD, 0x8B, 0x8A]
  const SBOXD: row := [0x70, 0x3E, 0xB5, 0x66, 0x48, 0x03, 0xF6, 0x0E, 0x61, 0x35, 0x57, 0xB9, 0x86, 0xC1, 0x1D, 0x9E]
  const SBOXE: row := [0xE1, 0xF8, 0x98, 0x11, 0x69, 0xD9, 0x8E, 0x94, 0x9B, 0x1E, 0x87, 0xE9, 0xCE, 0x55, 0x28, 0xDF]
  const SBOXF: row := [0x8C, 0xA1, 0x89, 0x0D, 0xBF, 0xE6, 0x42, 0x68, 0x41, 0x99, 0x2D, 0x0F, 0xB0, 0x54, 0xBB, 0x16]

  // The inverse S-box, Figure 14.
  const INV0: row := [0x52, 0x09, 0x6A, 0xD5, 0x30, 0x36, 0xA5, 0x38, 0xBF, 0x40, 0xA3, 0x9E, 0x81, 0xF3, 0xD7, 0xFB]
  const INV1: row := [0x7C, 0xE3, 0x39, 0x82, 0x9B, 0x2F, 0xFF, 0x87, 0x34, 0x8E, 0x43, 0x44, 0xC4, 0xDE, 0xE9, 0xCB]
  const INV2: row := [0x54, 0x7B, 0x94, 0x32, 0xA6, 0xC2, 0x23, 0x3D, 0xEE, 0x4C, 0x95, 0x0B, 0x42, 0xFA, 0xC3, 0x4E]
  const INV3: row := [0x08, 0x2E, 0xA1, 0x66, 0x28, 0xD9, 0x24, 0xB2, 0x76, 0x5B, 0xA2, 0x49, 0x6D, 0x8B, 0xD1, 0x25]
  const INV4: row := [0x72, 0xF8, 0xF6, 0x64, 0x86, 0x68, 0x98, 0x16, 0xD4, 0xA4, 0x5C, 0xCC, 0x5D, 0x65, 0xB6, 0x92]
  const INV5: row := [0x6C, 0x70, 0x48, 0x50, 0xFD, 0xED, 0xB9, 0xDA, 0x5E, 0x15, 0x46, 0x57, 0xA7, 0x8D, 0x9D, 0x84]
  const INV6: row := [0x90, 0xD8, 0xAB, 0x00, 0x8C, 0xBC, 0xD3, 0x0A, 0xF7, 0xE4, 0x58, 0x05, 0xB8, 0xB3, 0x45, 0x06]
  const INV7: row := [0xD0, 0x2C, 0x1E, 0x8F, 0xCA, 0x3F, 0x0F, 0x02, 0xC1, 0xAF, 0xBD, 0x03, 0x01, 0x13, 0x8A, 0x6B]
  const INV8: row := [0x3A, 0x91, 0x11, 0x41, 0x4F, 0x67, 0xDC, 0xEA, 0x97, 0xF2, 0xCF, 0xCE, 0xF0, 0xB4, 0xE6, 0x73]
  const INV9: row := [0x96, 0xAC, 0x74, 0x22, 0xE7, 0xAD, 0x35, 0x85, 0xE2, 0xF9, 0x37, 0xE8, 0x1C, 0x75, 0xDF, 0x6E]
  const INVA: row := [0x47, 0xF1, 0x1A, 0x71, 0x1D, 0x29, 0xC5, 0x89, 0x6F, 0xB7, 0x62, 0x0E, 0xAA, 0x18, 0xBE, 0x1B]
  const INVB: row := [0xFC, 0x56, 0x3E, 0x4B, 0xC6, 0xD2, 0x79, 0x20, 0x9A, 0xDB, 0xC0, 0xFE, 0x78, 0xCD, 0x5A, 0xF4]
  const INVC: row := [0x1F, 0xDD, 0xA8, 0x33, 0x88, 0x07, 0xC7, 0x31, 0xB1, 0x12, 0x10, 0x59, 0x27, 0x80, 0xEC, 0x5F]
  const INVD: row := [0x60, 0x51, 0x7F, 0xA9, 0x19, 0xB5, 0x4A, 0x0D, 0x2D, 0xE5, 0x7A, 0x9F, 0x93, 0xC9, 0x9C, 0xEF]
  const INVE: row := [0xA0, 0xE0, 0x3B, 0x4D, 0xAE, 0x2A, 0xF5, 0xB0, 0xC8, 0xEB, 0xBB, 0x3C, 0x83, 0x53, 0x99, 0x61]
  const INVF: row := [0x17, 0x2B, 0x04, 0x7E, 0xBA, 0x77, 0xD6, 0x26, 0xE1, 0x69, 0x14, 0x63, 0x55, 0x21, 0x0C, 0x7D]

  function SubRow(x: bv8): row {
    match x >> 4
    case 0 => SBOX0
    case 1 => SBOX1
    case 2 => SBOX2
    case 3 => SBOX3
    case 4 => SBOX4
    case 5 => SBOX5
    case 6 => SBOX6
    case 7 => SBOX7
    case 8 => SBOX8
    case 9 => SBOX9
    case 10 => SBOXA
    case 11 => SBOXB
    case 12 => SBOXC
    case 13 => SBOXD
    case 14 => SBOXE
    case _ => SBOXF
  }

  function InvSubRow(x: bv8): row {
    match x >> 4
    case 0 => INV0
    case 1 => INV1
    case 2 => INV2
    case 3 => INV3
    case 4 => INV4
    case 5 => INV5
    case 6 => INV6
    case 7 => INV7
    case 8 => INV8
    case 9 => INV9
    case 10 => INVA
    case 11 => INVB
    case 12 => INVC
    case 13 => INVD
    case 14 => INVE
    case _ => INVF
  }

  lemma Sixteen(x: bv8)
    ensures |SubRow(x)| == 16 && |InvSubRow(x)| == 16
  {
  }

  function SubBits(x: bv8): bv8 {
    Sixteen(x);
    SubRow(x)[(x & 0xF) as int]
  }

  function InvSubBits(x: bv8): bv8 {
    Sixteen(x);
    InvSubRow(x)[(x & 0xF) as int]
  }

  function Sub(x: byte): byte {
    Val(SubBits(x as bv8))
  }

  function InvSub(x: byte): byte {
    Val(InvSubBits(x as bv8))
  }

  // ---------- the affine map, section 5.1.1

  /** Bit i of the result is the sum of the bits i, i + 4, i + 5, i + 6, i + 7 of b and bit i of 0x63. */
  function AffineBits(b: bv8): bv8 {
    b ^ b.RotateLeft(1) ^ b.RotateLeft(2) ^ b.RotateLeft(3) ^ b.RotateLeft(4) ^ 0x63
  }

  /** The inverse map, section 5.3.2. */
  function UnaffineBits(s: bv8): bv8 {
    s.RotateLeft(1) ^ s.RotateLeft(3) ^ s.RotateLeft(6) ^ 0x05
  }

  function Affine(y: byte): byte {
    Val(AffineBits(y as bv8))
  }

  lemma AffineBack(b: bv8)
    ensures UnaffineBits(AffineBits(b)) == b && AffineBits(UnaffineBits(b)) == b
  {
  }

  // ---------- the tables, row by row

  /** Inverse to each other, or both zero. */
  predicate Inverses(b: bv8, u: bv8) {
    if b == 0 then u == 0 else MulByte(b, u) == 1
  }

  lemma Row0(x: bv8) requires x >> 4 == 0x0 ensures Inverses(x, UnaffineBits(SBOX0[(x & 0xF) as int])) {}
  lemma Row1(x: bv8) requires x >> 4 == 0x1 ensures Inverses(x, UnaffineBits(SBOX1[(x & 0xF) as int])) {}
  lemma Row2(x: bv8) requires x >> 4 == 0x2 ensures Inverses(x, UnaffineBits(SBOX2[(x & 0xF) as int])) {}
  lemma Row3(x: bv8) requires x >> 4 == 0x3 ensures Inverses(x, UnaffineBits(SBOX3[(x & 0xF) as int])) {}
  lemma Row4(x: bv8) requires x >> 4 == 0x4 ensures Inverses(x, UnaffineBits(SBOX4[(x & 0xF) as int])) {}
  lemma Row5(x: bv8) requires x >> 4 == 0x5 ensures Inverses(x, UnaffineBits(SBOX5[(x & 0xF) as int])) {}
  lemma Row6(x: bv8) requires x >> 4 == 0x6 ensures Inverses(x, UnaffineBits(SBOX6[(x & 0xF) as int])) {}
  lemma Row7(x: bv8) requires x >> 4 == 0x7 ensures Inverses(x, UnaffineBits(SBOX7[(x & 0xF) as int])) {}
  lemma Row8(x: bv8) requires x >> 4 == 0x8 ensures Inverses(x, UnaffineBits(SBOX8[(x & 0xF) as int])) {}
  lemma Row9(x: bv8) requires x >> 4 == 0x9 ensures Inverses(x, UnaffineBits(SBOX9[(x & 0xF) as int])) {}
  lemma RowA(x: bv8) requires x >> 4 == 0xA ensures Inverses(x, UnaffineBits(SBOXA[(x & 0xF) as int])) {}
  lemma RowB(x: bv8) requires x >> 4 == 0xB ensures Inverses(x, UnaffineBits(SBOXB[(x & 0xF) as int])) {}
  lemma RowC(x: bv8) requires x >> 4 == 0xC ensures Inverses(x, UnaffineBits(SBOXC[(x & 0xF) as int])) {}
  lemma RowD(x: bv8) requires x >> 4 == 0xD ensures Inverses(x, UnaffineBits(SBOXD[(x & 0xF) as int])) {}
  lemma RowE(x: bv8) requires x >> 4 == 0xE ensures Inverses(x, UnaffineBits(SBOXE[(x & 0xF) as int])) {}
  lemma RowF(x: bv8) requires x >> 4 == 0xF ensures Inverses(x, UnaffineBits(SBOXF[(x & 0xF) as int])) {}

  lemma Back0(s: bv8) requires s >> 4 == 0x0 ensures Inverses(UnaffineBits(s), INV0[(s & 0xF) as int]) {}
  lemma Back1(s: bv8) requires s >> 4 == 0x1 ensures Inverses(UnaffineBits(s), INV1[(s & 0xF) as int]) {}
  lemma Back2(s: bv8) requires s >> 4 == 0x2 ensures Inverses(UnaffineBits(s), INV2[(s & 0xF) as int]) {}
  lemma Back3(s: bv8) requires s >> 4 == 0x3 ensures Inverses(UnaffineBits(s), INV3[(s & 0xF) as int]) {}
  lemma Back4(s: bv8) requires s >> 4 == 0x4 ensures Inverses(UnaffineBits(s), INV4[(s & 0xF) as int]) {}
  lemma Back5(s: bv8) requires s >> 4 == 0x5 ensures Inverses(UnaffineBits(s), INV5[(s & 0xF) as int]) {}
  lemma Back6(s: bv8) requires s >> 4 == 0x6 ensures Inverses(UnaffineBits(s), INV6[(s & 0xF) as int]) {}
  lemma Back7(s: bv8) requires s >> 4 == 0x7 ensures Inverses(UnaffineBits(s), INV7[(s & 0xF) as int]) {}
  lemma Back8(s: bv8) requires s >> 4 == 0x8 ensures Inverses(UnaffineBits(s), INV8[(s & 0xF) as int]) {}
  lemma Back9(s: bv8) requires s >> 4 == 0x9 ensures Inverses(UnaffineBits(s), INV9[(s & 0xF) as int]) {}
  lemma BackA(s: bv8) requires s >> 4 == 0xA ensures Inverses(UnaffineBits(s), INVA[(s & 0xF) as int]) {}
  lemma BackB(s: bv8) requires s >> 4 == 0xB ensures Inverses(UnaffineBits(s), INVB[(s & 0xF) as int]) {}
  lemma BackC(s: bv8) requires s >> 4 == 0xC ensures Inverses(UnaffineBits(s), INVC[(s & 0xF) as int]) {}
  lemma BackD(s: bv8) requires s >> 4 == 0xD ensures Inverses(UnaffineBits(s), INVD[(s & 0xF) as int]) {}
  lemma BackE(s: bv8) requires s >> 4 == 0xE ensures Inverses(UnaffineBits(s), INVE[(s & 0xF) as int]) {}
  lemma BackF(s: bv8) requires s >> 4 == 0xF ensures Inverses(UnaffineBits(s), INVF[(s & 0xF) as int]) {}

  lemma AllInverted(x: bv8)
    ensures Inverses(x, UnaffineBits(SubBits(x)))
  {
    hide Inverses, UnaffineBits;
    match x >> 4
    case 0 => Row0(x);
    case 1 => Row1(x);
    case 2 => Row2(x);
    case 3 => Row3(x);
    case 4 => Row4(x);
    case 5 => Row5(x);
    case 6 => Row6(x);
    case 7 => Row7(x);
    case 8 => Row8(x);
    case 9 => Row9(x);
    case 10 => RowA(x);
    case 11 => RowB(x);
    case 12 => RowC(x);
    case 13 => RowD(x);
    case 14 => RowE(x);
    case _ => RowF(x);
  }

  lemma AllRestored(s: bv8)
    ensures Inverses(UnaffineBits(s), InvSubBits(s))
  {
    hide Inverses, UnaffineBits;
    match s >> 4
    case 0 => Back0(s);
    case 1 => Back1(s);
    case 2 => Back2(s);
    case 3 => Back3(s);
    case 4 => Back4(s);
    case 5 => Back5(s);
    case 6 => Back6(s);
    case 7 => Back7(s);
    case 8 => Back8(s);
    case 9 => Back9(s);
    case 10 => BackA(s);
    case 11 => BackB(s);
    case 12 => BackC(s);
    case 13 => BackD(s);
    case 14 => BackE(s);
    case _ => BackF(s);
  }

  // ---------- what the tables mean

  /** What is inverse to the same element is the same. */
  lemma InversesUnique(b: bv8, u: bv8, c: bv8)
    requires Inverses(b, u) && Inverses(u, c)
    ensures b == c
  {
    MulByteVal(b, u);
    MulByteVal(u, c);
    ValConst();
    ValInjective(b);
    ValInjective(c);
    hide MulByte, Times, Val;
    if b != 0 {
      TimesZero(Val(b));
      TimesSwap(Val(b), Val(u));
      InverseUnique(Val(b), Val(u), Val(c));
    }
  }

  /** For every byte that has an inverse, the entry is the affine image of the inverse. */
  lemma SubIsAffineOfInverse(x: byte, y: byte)
    requires Times(x, y) == 1
    ensures Sub(x) == Affine(y)
  {
    var b, c := x as bv8, y as bv8;
    var u := UnaffineBits(SubBits(b));
    ValOf(x);
    ValOf(y);
    AllInverted(b);
    AffineBack(SubBits(b));
    hide SubBits, UnaffineBits, AffineBits;
    AreInverses(c, b);
    InversesUnique(c, b, u);
  }

  lemma AreInverses(b: bv8, c: bv8)
    requires Times(Val(c), Val(b)) == 1
    ensures Inverses(b, c)
  {
    ValConst();
    TimesSwap(Val(c), Val(b));
    TimesZero(Val(c));
    MulByteVal(b, c);
    ValInjective(MulByte(b, c));
    hide MulByte, Times, Val;
  }

  /** Zero, which has no inverse, goes to the affine image of zero. */
  lemma SubOfZero()
    ensures Sub(0) == Affine(0) == 0x63
  {
  }

  lemma InvSubSub(x: byte)
    ensures InvSub(Sub(x)) == x
  {
    var b := x as bv8;
    var s := SubBits(b);
    ValOf(x);
    ValInjective(s);
    AllInverted(b);
    AllRestored(s);
    hide SubBits, InvSubBits, UnaffineBits, Inverses;
    InversesUnique(b, UnaffineBits(s), InvSubBits(s));
  }

  lemma SubInvSub(y: byte)
    ensures Sub(InvSub(y)) == y
  {
    var s := y as bv8;
    var b := InvSubBits(s);
    ValOf(y);
    ValInjective(b);
    AllInverted(b);
    AllRestored(s);
    AffineBack(s);
    AffineBack(SubBits(b));
    hide SubBits, InvSubBits, UnaffineBits, AffineBits, Inverses;
    InversesUnique(UnaffineBits(s), b, UnaffineBits(SubBits(b)));
  }
}
