/** The known answer of FIPS 197, appendix C.1, computed by the definitions of AES-128: it fixes the key
    schedule, the order of the steps of a round, and the number of rounds.  Four bytes make a column, a word
    with the first byte on top. */
module Aes128Vectors {
  import opened Bits
  import opened Bytes
  import opened AesSbox
  import opened Gf256
  import opened Aes128

  function Low(w: bv32): bv8 { (w & 0xFF) as bv8 }
  function Byte0(w: bv32): bv8 { Low(w >> 24) }
  function Byte1(w: bv32): bv8 { Low(w >> 16) }
  function Byte2(w: bv32): bv8 { Low(w >> 8) }
  function Byte3(w: bv32): bv8 { Low(w) }

  function Column(w: bv32): (s: seq<byte>)
    ensures |s| == 4
  {
    [Val(Byte0(w)), Val(Byte1(w)), Val(Byte2(w)), Val(Byte3(w))]
  }

  function Word(b0: bv8, b1: bv8, b2: bv8, b3: bv8): bv32 {
    ((b0 as bv32) << 24) | ((b1 as bv32) << 16) | ((b2 as bv32) << 8) | (b3 as bv32)
  }

  lemma WordBytes(b0: bv8, b1: bv8, b2: bv8, b3: bv8)
    ensures var w := Word(b0, b1, b2, b3); Byte0(w) == b0 && Byte1(w) == b1 && Byte2(w) == b2 && Byte3(w) == b3
  {
  }

  function Sum(a: bv32, b: bv32): bv32 {
    Word(Plus(Byte0(a), Byte0(b)), Plus(Byte1(a), Byte1(b)), Plus(Byte2(a), Byte2(b)), Plus(Byte3(a), Byte3(b)))
  }

  lemma SumColumn(a: bv32, b: bv32)
    ensures XorBytes(Column(a), Column(b)) == Column(Sum(a, b))
  {
    WordBytes(Plus(Byte0(a), Byte0(b)), Plus(Byte1(a), Byte1(b)), Plus(Byte2(a), Byte2(b)), Plus(Byte3(a), Byte3(b)));
    hide Val, XorByte, Plus, Word, Byte0, Byte1, Byte2, Byte3;
    PlusVal(Byte0(a), Byte0(b));
    PlusVal(Byte1(a), Byte1(b));
    PlusVal(Byte2(a), Byte2(b));
    PlusVal(Byte3(a), Byte3(b));
  }

  predicate Columns(x: seq<byte>, a: bv32, b: bv32, c: bv32, d: bv32) {
    |x| == 16 && ColumnAt(x, 0, a) && ColumnAt(x, 1, b) && ColumnAt(x, 2, c) && ColumnAt(x, 3, d)
  }

  predicate ColumnAt(x: seq<byte>, c: nat, w: bv32)
    requires |x| == 16 && c < 4
  {
    x[4 * c..4 * c + 4] == Column(w)
  }

  lemma ColumnBytes(x: seq<byte>, c: nat, w: bv32)
    requires |x| == 16 && c < 4 && ColumnAt(x, c, w)
    ensures x[4 * c] == Val(Byte0(w)) && x[4 * c + 1] == Val(Byte1(w))
    ensures x[4 * c + 2] == Val(Byte2(w)) && x[4 * c + 3] == Val(Byte3(w))
  {
    hide Val, Byte0, Byte1, Byte2, Byte3;
    var y := x[4 * c..4 * c + 4];
    assert y[0] == x[4 * c] && y[1] == x[4 * c + 1] && y[2] == x[4 * c + 2] && y[3] == x[4 * c + 3];
  }

  /** The bytes of s are the S-box values of the first byte of a, the second of b, and so on. */
  predicate Substituted(a: bv32, b: bv32, c: bv32, d: bv32, s: bv32) {
    && SubBits(Byte0(a)) == Byte0(s) && SubBits(Byte1(b)) == Byte1(s)
    && SubBits(Byte2(c)) == Byte2(s) && SubBits(Byte3(d)) == Byte3(s)
  }

  lemma SubVal(b: bv8)
    ensures Sub(Val(b)) == Val(SubBits(b))
  {
    ValInjective(b);
    hide SubBits;
  }

  // ---------- the matrix, on four bytes at a time

  function Mixed(w: bv32): bv32 {
    var y0, y1, y2, y3 := Byte0(w), Byte1(w), Byte2(w), Byte3(w);
    Word(Mix(y0, y1, y2, y3), Mix(y1, y2, y3, y0), Mix(y2, y3, y0, y1), Mix(y3, y0, y1, y2))
  }

  function Mix(a: bv8, b: bv8, c: bv8, d: bv8): bv8 {
    Plus(Plus(Plus(Double(a), Plus(Double(b), b)), c), d)
  }

  lemma MixIsDot(a: bv8, b: bv8, c: bv8, d: bv8)
    ensures DotBits(2, 3, 1, 1, a, b, c, d) == Mix(a, b, c, d) == DotBits(1, 2, 3, 1, d, a, b, c)
    ensures DotBits(1, 1, 2, 3, c, d, a, b) == Mix(a, b, c, d) == DotBits(3, 1, 1, 2, b, c, d, a)
  {
    Products(a);
    Products(b);
    Products(c);
    Products(d);
    hide Double, MulByte, Plus;
    var p, q := Double(a), Plus(Double(b), b);
    PlusTurn(p, q, c, d);
    PlusTurn(d, p, q, c);
    PlusTurn(c, d, p, q);
  }

  lemma PlusTurn(p: bv8, q: bv8, c: bv8, d: bv8)
    ensures Plus(Plus(Plus(p, q), c), d) == Plus(Plus(Plus(d, p), q), c)
  {
    PlusAny(Plus(Plus(p, q), c), d, 0);
    PlusAny(d, Plus(p, q), c);
    PlusAny(d, p, q);
    hide Plus;
  }

  lemma PlusAny(a: bv8, b: bv8, c: bv8)
    ensures Plus(a, b) == Plus(b, a) && Plus(a, Plus(b, c)) == Plus(Plus(a, b), c)
  {
  }

  lemma Products(y: bv8)
    ensures MulByte(1, y) == y && MulByte(2, y) == Double(y) && MulByte(3, y) == Plus(Double(y), y)
  {
  }

  // ---------- the S-box, value by value

  lemma InRow(h: bv8, k: bv8)
    requires h & 0xF == 0 && k < 16
    ensures |SubRow(h)| == 16 && SubBits(h | k) == SubRow(h)[k as int]
  {
    Sixteen(h);
    SameRow(h, k);
    hide SubRow;
  }

  lemma SameRow(h: bv8, k: bv8)
    requires h & 0xF == 0 && k < 16
    ensures SubRow(h | k) == SubRow(h) && (h | k) & 0xF == k
  {
    assert (h | k) >> 4 == h >> 4;
  }

  lemma RowEntries(h: bv8, r: row)
    requires h & 0xF == 0 && SubRow(h) == r
    ensures |r| == 16
    ensures SubBits(h | 0x0) == r[0] && SubBits(h | 0x1) == r[1] && SubBits(h | 0x2) == r[2] && SubBits(h | 0x3) == r[3]
    ensures SubBits(h | 0x4) == r[4] && SubBits(h | 0x5) == r[5] && SubBits(h | 0x6) == r[6] && SubBits(h | 0x7) == r[7]
    ensures SubBits(h | 0x8) == r[8] && SubBits(h | 0x9) == r[9]
    ensures SubBits(h | 0xA) == r[10] && SubBits(h | 0xB) == r[11]
    ensures SubBits(h | 0xC) == r[12] && SubBits(h | 0xD) == r[13]
    ensures SubBits(h | 0xE) == r[14] && SubBits(h | 0xF) == r[15]
  {
    hide SubBits, SubRow;
    InRow(h, 0); InRow(h, 1); InRow(h, 2); InRow(h, 3);
    InRow(h, 4); InRow(h, 5); InRow(h, 6); InRow(h, 7);
    InRow(h, 8); InRow(h, 9); InRow(h, 10); InRow(h, 11);
    InRow(h, 12); InRow(h, 13); InRow(h, 14); InRow(h, 15);
  }

  lemma Entries0()
    ensures SubBits(0x00) == 0x63 && SubBits(0x01) == 0x7C && SubBits(0x02) == 0x77 && SubBits(0x03) == 0x7B
    ensures SubBits(0x04) == 0xF2 && SubBits(0x05) == 0x6B && SubBits(0x06) == 0x6F && SubBits(0x07) == 0xC5
    ensures SubBits(0x08) == 0x30 && SubBits(0x09) == 0x01 && SubBits(0x0A) == 0x67 && SubBits(0x0B) == 0x2B
    ensures SubBits(0x0C) == 0xFE && SubBits(0x0D) == 0xD7 && SubBits(0x0E) == 0xAB && SubBits(0x0F) == 0x76
  {
    RowEntries(0x00, SBOX0);
    hide SubBits;
  }

  lemma Entries1()
    ensures SubBits(0x10) == 0xCA && SubBits(0x11) == 0x82 && SubBits(0x12) == 0xC9 && SubBits(0x13) == 0x7D
    ensures SubBits(0x14) == 0xFA && SubBits(0x15) == 0x59 && SubBits(0x16) == 0x47 && SubBits(0x17) == 0xF0
    ensures SubBits(0x18) == 0xAD && SubBits(0x19) == 0xD4 && SubBits(0x1A) == 0xA2 && SubBits(0x1B) == 0xAF
    ensures SubBits(0x1C) == 0x9C && SubBits(0x1D) == 0xA4 && SubBits(0x1E) == 0x72 && SubBits(0x1F) == 0xC0
  {
    RowEntries(0x10, SBOX1);
    hide SubBits;
  }

  lemma Entries2()
    ensures SubBits(0x20) == 0xB7 && SubBits(0x21) == 0xFD && SubBits(0x22) == 0x93 && SubBits(0x23) == 0x26
    ensures SubBits(0x24) == 0x36 && SubBits(0x25) == 0x3F && SubBits(0x26) == 0xF7 && SubBits(0x27) == 0xCC
    ensures SubBits(0x28) == 0x34 && SubBits(0x29) == 0xA5 && SubBits(0x2A) == 0xE5 && SubBits(0x2B) == 0xF1
    ensures SubBits(0x2C) == 0x71 && SubBits(0x2D) == 0xD8 && SubBits(0x2E) == 0x31 && SubBits(0x2F) == 0x15
  {
    RowEntries(0x20, SBOX2);
    hide SubBits;
  }

  lemma Entries3()
    ensures SubBits(0x30) == 0x04 && SubBits(0x31) == 0xC7 && SubBits(0x32) == 0x23 && SubBits(0x33) == 0xC3
    ensures SubBits(0x34) == 0x18 && SubBits(0x35) == 0x96 && SubBits(0x36) == 0x05 && SubBits(0x37) == 0x9A
    ensures SubBits(0x38) == 0x07 && SubBits(0x39) == 0x12 && SubBits(0x3A) == 0x80 && SubBits(0x3B) == 0xE2
    ensures SubBits(0x3C) == 0xEB && SubBits(0x3D) == 0x27 && SubBits(0x3E) == 0xB2 && SubBits(0x3F) == 0x75
  {
    RowEntries(0x30, SBOX3);
    hide SubBits;
  }

  lemma Entries4()
    ensures SubBits(0x40) == 0x09 && SubBits(0x41) == 0x83 && SubBits(0x42) == 0x2C && SubBits(0x43) == 0x1A
    ensures SubBits(0x44) == 0x1B && SubBits(0x45) == 0x6E && SubBits(0x46) == 0x5A && SubBits(0x47) == 0xA0
    ensures SubBits(0x48) == 0x52 && SubBits(0x49) == 0x3B && SubBits(0x4A) == 0xD6 && SubBits(0x4B) == 0xB3
    ensures SubBits(0x4C) == 0x29 && SubBits(0x4D) == 0xE3 && SubBits(0x4E) == 0x2F && SubBits(0x4F) == 0x84
  {
    RowEntries(0x40, SBOX4);
    hide SubBits;
  }

  lemma Entries5()
    ensures SubBits(0x50) == 0x53 && SubBits(0x51) == 0xD1 && SubBits(0x52) == 0x00 && SubBits(0x53) == 0xED
    ensures SubBits(0x54) == 0x20 && SubBits(0x55) == 0xFC && SubBits(0x56) == 0xB1 && SubBits(0x57) == 0x5B
    ensures SubBits(0x58) == 0x6A && SubBits(0x59) == 0xCB && SubBits(0x5A) == 0xBE && SubBits(0x5B) == 0x39
    ensures SubBits(0x5C) == 0x4A && SubBits(0x5D) == 0x4C && SubBits(0x5E) == 0x58 && SubBits(0x5F) == 0xCF
  {
    RowEntries(0x50, SBOX5);
    hide SubBits;
  }

  lemma Entries6()
    ensures SubBits(0x60) == 0xD0 && SubBits(0x61) == 0xEF && SubBits(0x62) == 0xAA && SubBits(0x63) == 0xFB
    ensures SubBits(0x64) == 0x43 && SubBits(0x65) == 0x4D && SubBits(0x66) == 0x33 && SubBits(0x67) == 0x85
    ensures SubBits(0x68) == 0x45 && SubBits(0x69) == 0xF9 && SubBits(0x6A) == 0x02 && SubBits(0x6B) == 0x7F
    ensures SubBits(0x6C) == 0x50 && SubBits(0x6D) == 0x3C && SubBits(0x6E) == 0x9F && SubBits(0x6F) == 0xA8
  {
    RowEntries(0x60, SBOX6);
    hide SubBits;
  }

  lemma Entries7()
    ensures SubBits(0x70) == 0x51 && SubBits(0x71) == 0xA3 && SubBits(0x72) == 0x40 && SubBits(0x73) == 0x8F
    ensures SubBits(0x74) == 0x92 && SubBits(0x75) == 0x9D && SubBits(0x76) == 0x38 && SubBits(0x77) == 0xF5
    ensures SubBits(0x78) == 0xBC && SubBits(0x79) == 0xB6 && SubBits(0x7A) == 0xDA && SubBits(0x7B) == 0x21
    ensures SubBits(0x7C) == 0x10 && SubBits(0x7D) == 0xFF && SubBits(0x7E) == 0xF3 && SubBits(0x7F) == 0xD2
  {
    RowEntries(0x70, SBOX7);
    hide SubBits;
  }

  lemma Entries8()
    ensures SubBits(0x80) == 0xCD && SubBits(0x81) == 0x0C && SubBits(0x82) == 0x13 && SubBits(0x83) == 0xEC
    ensures SubBits(0x84) == 0x5F && SubBits(0x85) == 0x97 && SubBits(0x86) == 0x44 && SubBits(0x87) == 0x17
    ensures SubBits(0x88) == 0xC4 && SubBits(0x89) == 0xA7 && SubBits(0x8A) == 0x7E && SubBits(0x8B) == 0x3D
    ensures SubBits(0x8C) == 0x64 && SubBits(0x8D) == 0x5D && SubBits(0x8E) == 0x19 && SubBits(0x8F) == 0x73
  {
    RowEntries(0x80, SBOX8);
    hide SubBits;
  }

  lemma Entries9()
    ensures SubBits(0x90) == 0x60 && SubBits(0x91) == 0x81 && SubBits(0x92) == 0x4F && SubBits(0x93) == 0xDC
    ensures SubBits(0x94) == 0x22 && SubBits(0x95) == 0x2A && SubBits(0x96) == 0x90 && SubBits(0x97) == 0x88
    ensures SubBits(0x98) == 0x46 && SubBits(0x99) == 0xEE && SubBits(0x9A) == 0xB8 && SubBits(0x9B) == 0x14
    ensures SubBits(0x9C) == 0xDE && SubBits(0x9D) == 0x5E && SubBits(0x9E) == 0x0B && SubBits(0x9F) == 0xDB
  {
    RowEntries(0x90, SBOX9);
    hide SubBits;
  }

  lemma EntriesA()
    ensures SubBits(0xA0) == 0xE0 && SubBits(0xA1) == 0x32 && SubBits(0xA2) == 0x3A && SubBits(0xA3) == 0x0A
    ensures SubBits(0xA4) == 0x49 && SubBits(0xA5) == 0x06 && SubBits(0xA6) == 0x24 && SubBits(0xA7) == 0x5C
    ensures SubBits(0xA8) == 0xC2 && SubBits(0xA9) == 0xD3 && SubBits(0xAA) == 0xAC && SubBits(0xAB) == 0x62
    ensures SubBits(0xAC) == 0x91 && SubBits(0xAD) == 0x95 && SubBits(0xAE) == 0xE4 && SubBits(0xAF) == 0x79
  {
    RowEntries(0xA0, SBOXA);
    hide SubBits;
  }

  lemma EntriesB()
    ensures SubBits(0xB0) == 0xE7 && SubBits(0xB1) == 0xC8 && SubBits(0xB2) == 0x37 && SubBits(0xB3) == 0x6D
    ensures SubBits(0xB4) == 0x8D && SubBits(0xB5) == 0xD5 && SubBits(0xB6) == 0x4E && SubBits(0xB7) == 0xA9
    ensures SubBits(0xB8) == 0x6C && SubBits(0xB9) == 0x56 && SubBits(0xBA) == 0xF4 && SubBits(0xBB) == 0xEA
    ensures SubBits(0xBC) == 0x65 && SubBits(0xBD) == 0x7A && SubBits(0xBE) == 0xAE && SubBits(0xBF) == 0x08
  {
    RowEntries(0xB0, SBOXB);
    hide SubBits;
  }

  lemma EntriesC()
    ensures SubBits(0xC0) == 0xBA && SubBits(0xC1) == 0x78 && SubBits(0xC2) == 0x25 && SubBits(0xC3) == 0x2E
    ensures SubBits(0xC4) == 0x1C && SubBits(0xC5) == 0xA6 && SubBits(0xC6) == 0xB4 && SubBits(0xC7) == 0xC6
    ensures SubBits(0xC8) == 0xE8 && SubBits(0xC9) == 0xDD && SubBits(0xCA) == 0x74 && SubBits(0xCB) == 0x1F
    ensures SubBits(0xCC) == 0x4B && SubBits(0xCD) == 0xBD && SubBits(0xCE) == 0x8B && SubBits(0xCF) == 0x8A
  {
    RowEntries(0xC0, SBOXC);
    hide SubBits;
  }

  lemma EntriesD()
    ensures SubBits(0xD0) == 0x70 && SubBits(0xD1) == 0x3E && SubBits(0xD2) == 0xB5 && SubBits(0xD3) == 0x66
    ensures SubBits(0xD4) == 0x48 && SubBits(0xD5) == 0x03 && SubBits(0xD6) == 0xF6 && SubBits(0xD7) == 0x0E
    ensures SubBits(0xD8) == 0x61 && SubBits(0xD9) == 0x35 && SubBits(0xDA) == 0x57 && SubBits(0xDB) == 0xB9
    ensures SubBits(0xDC) == 0x86 && SubBits(0xDD) == 0xC1 && SubBits(0xDE) == 0x1D && SubBits(0xDF) == 0x9E
  {
    RowEntries(0xD0, SBOXD);
    hide SubBits;
  }

  lemma EntriesE()
    ensures SubBits(0xE0) == 0xE1 && SubBits(0xE1) == 0xF8 && SubBits(0xE2) == 0x98 && SubBits(0xE3) == 0x11
    ensures SubBits(0xE4) == 0x69 && SubBits(0xE5) == 0xD9 && SubBits(0xE6) == 0x8E && SubBits(0xE7) == 0x94
    ensures SubBits(0xE8) == 0x9B && SubBits(0xE9) == 0x1E && SubBits(0xEA) == 0x87 && SubBits(0xEB) == 0xE9
    ensures SubBits(0xEC) == 0xCE && SubBits(0xED) == 0x55 && SubBits(0xEE) == 0x28 && SubBits(0xEF) == 0xDF
  {
    RowEntries(0xE0, SBOXE);
    hide SubBits;
  }

  lemma EntriesF()
    ensures SubBits(0xF0) == 0x8C && SubBits(0xF1) == 0xA1 && SubBits(0xF2) == 0x89 && SubBits(0xF3) == 0x0D
    ensures SubBits(0xF4) == 0xBF && SubBits(0xF5) == 0xE6 && SubBits(0xF6) == 0x42 && SubBits(0xF7) == 0x68
    ensures SubBits(0xF8) == 0x41 && SubBits(0xF9) == 0x99 && SubBits(0xFA) == 0x2D && SubBits(0xFB) == 0x0F
    ensures SubBits(0xFC) == 0xB0 && SubBits(0xFD) == 0x54 && SubBits(0xFE) == 0xBB && SubBits(0xFF) == 0x16
  {
    RowEntries(0xF0, SBOXF);
    hide SubBits;
  }

  // ---------- the key schedule, four words at a time

  predicate Words(key: seq<byte>, r: nat, k0: bv32, k1: bv32, k2: bv32, k3: bv32)
    requires |key| == 16
  {
    && KeyWord(key, 4 * r) == Column(k0) && KeyWord(key, 4 * r + 1) == Column(k1)
    && KeyWord(key, 4 * r + 2) == Column(k2) && KeyWord(key, 4 * r + 3) == Column(k3)
  }

  lemma WordsAreKey(key: seq<byte>, r: nat, k0: bv32, k1: bv32, k2: bv32, k3: bv32)
    requires |key| == 16 && Words(key, r, k0, k1, k2, k3)
    ensures Columns(RoundKey(key, r), k0, k1, k2, k3)
  {
    hide KeyWord, Column;
  }

  /** u is k turned by one byte, and substituted. */
  predicate Turned(k: bv32, u: bv32) {
    && SubBits(Byte1(k)) == Byte0(u) && SubBits(Byte2(k)) == Byte1(u)
    && SubBits(Byte3(k)) == Byte2(u) && SubBits(Byte0(k)) == Byte3(u)
  }

  lemma NextKey(key: seq<byte>, r: nat, k0: bv32, k1: bv32, k2: bv32, k3: bv32, u: bv32, rc: bv8)
    requires |key| == 16 && Words(key, r, k0, k1, k2, k3) && Rcon(r + 1) == Val(rc) && Turned(k3, u)
    ensures var w0 := Sum(k0, Sum(u, Word(rc, 0, 0, 0)));
      var w1 := Sum(k1, w0);
      var w2 := Sum(k2, w1);
      Words(key, r + 1, w0, w1, w2, Sum(k3, w2))
  {
    hide KeyWord, Rcon, Column, Sum, Word, Turned, Val;
    TurnedWord(key, r, k0, k3, u, rc);
    var w0 := Sum(k0, Sum(u, Word(rc, 0, 0, 0)));
    var w1 := Sum(k1, w0);
    var w2 := Sum(k2, w1);
    PlainWord(key, 4 * r + 5, k1, w0);
    PlainWord(key, 4 * r + 6, k2, w1);
    PlainWord(key, 4 * r + 7, k3, w2);
  }

  lemma PlainWord(key: seq<byte>, i: nat, a: bv32, b: bv32)
    requires |key| == 16 && 4 <= i && i % 4 != 0
    requires KeyWord(key, i - 4) == Column(a) && KeyWord(key, i - 1) == Column(b)
    ensures KeyWord(key, i) == Column(Sum(a, b))
  {
    WordNext(key, i);
    hide KeyWord, SubWord, RotWord, Rcon, XorBytes, Column, Sum;
    SumColumn(a, b);
  }

  lemma TurnedWord(key: seq<byte>, r: nat, a: bv32, b: bv32, u: bv32, rc: bv8)
    requires |key| == 16 && KeyWord(key, 4 * r) == Column(a) && KeyWord(key, 4 * r + 3) == Column(b)
    requires Rcon(r + 1) == Val(rc) && Turned(b, u)
    ensures KeyWord(key, 4 * (r + 1)) == Column(Sum(a, Sum(u, Word(rc, 0, 0, 0))))
  {
    hide *;
    WordNext(key, 4 * r + 4);
    FirstWord(b, u, rc, r + 1);
    SumColumn(a, Sum(u, Word(rc, 0, 0, 0)));
  }

  lemma WordNext(key: seq<byte>, i: nat)
    requires |key| == 16 && 4 <= i
    ensures var t := KeyWord(key, i - 1);
      KeyWord(key, i) == XorBytes(KeyWord(key, i - 4),
        if i % 4 == 0 then XorBytes(SubWord(RotWord(t)), [Rcon(i / 4), 0, 0, 0]) else t)
  {
    hide SubWord, RotWord, XorBytes, Rcon;
  }

  lemma FirstWord(k: bv32, u: bv32, rc: bv8, r: nat)
    requires 1 <= r && Rcon(r) == Val(rc) && Turned(k, u)
    ensures XorBytes(SubWord(RotWord(Column(k))), [Rcon(r), 0, 0, 0]) == Column(Sum(u, Word(rc, 0, 0, 0)))
  {
    Entries();
    WordBytes(rc, 0, 0, 0);
    SubVal(Byte0(k));
    SubVal(Byte1(k));
    SubVal(Byte2(k));
    SubVal(Byte3(k));
    hide Sub, SubBits, Byte0, Byte1, Byte2, Byte3, Val, Word, Sum, XorBytes, Rcon;
    assert [Rcon(r), 0, 0, 0] == Column(Word(rc, 0, 0, 0));
    SumColumn(u, Word(rc, 0, 0, 0));
  }

  // ---------- a round, four columns at a time

  lemma MixedBytes(y: bv32)
    ensures var y0, y1, y2, y3 := Val(Byte0(y)), Val(Byte1(y)), Val(Byte2(y)), Val(Byte3(y));
      Column(Mixed(y)) == [Dot(2, 3, 1, 1, y0, y1, y2, y3), Dot(1, 2, 3, 1, y0, y1, y2, y3),
                           Dot(1, 1, 2, 3, y0, y1, y2, y3), Dot(3, 1, 1, 2, y0, y1, y2, y3)]
  {
    Entries();
    var y0, y1, y2, y3 := Byte0(y), Byte1(y), Byte2(y), Byte3(y);
    WordBytes(Mix(y0, y1, y2, y3), Mix(y1, y2, y3, y0), Mix(y2, y3, y0, y1), Mix(y3, y0, y1, y2));
    hide Byte0, Byte1, Byte2, Byte3, Val, Dot, DotBits, Word, Mix;
    MixIsDot(y0, y1, y2, y3);
    MixIsDot(y1, y2, y3, y0);
    MixIsDot(y2, y3, y0, y1);
    MixIsDot(y3, y0, y1, y2);
    DotVal(2, 3, 1, 1, y0, y1, y2, y3);
    DotVal(1, 2, 3, 1, y0, y1, y2, y3);
    DotVal(1, 1, 2, 3, y0, y1, y2, y3);
    DotVal(3, 1, 1, 2, y0, y1, y2, y3);
  }

  /** The substituted column goes through the matrix and meets the round key. */
  lemma NextColumn(key: seq<byte>, s: seq<byte>, n: nat, c: nat, y: bv32, k: bv32)
    requires |key| == 16 && |s| == 16 && 1 <= n && c < 4
    requires SubbedAt(Rounds(key, s, n - 1), c, y)
    requires ColumnAt(RoundKey(key, n), c, k)
    ensures ColumnAt(Rounds(key, s, n), c, Sum(Mixed(y), k))
  {
    hide Rounds, RoundKey, Sub, Dot, Val, Byte0, Byte1, Byte2, Byte3, XorByte, Column, Mixed, Sum, ColumnAt;
    RoundColumn(key, s, n, c);
    MixedBytes(y);
    ColumnBytes(RoundKey(key, n), c, k);
    KeyedColumn(Rounds(key, s, n), c, Mixed(y), k);
  }

  lemma KeyedColumn(t: seq<byte>, c: nat, m: bv32, k: bv32)
    requires |t| == 16 && c < 4
    requires t[4 * c] == XorByte(Column(m)[0], Val(Byte0(k))) && t[4 * c + 1] == XorByte(Column(m)[1], Val(Byte1(k)))
    requires t[4 * c + 2] == XorByte(Column(m)[2], Val(Byte2(k)))
    requires t[4 * c + 3] == XorByte(Column(m)[3], Val(Byte3(k)))
    ensures ColumnAt(t, c, Sum(m, k))
  {
    SumColumn(m, k);
    hide Sum, XorByte, Byte0, Byte1, Byte2, Byte3, Val;
  }

  lemma SubColumn(a: bv32, b: bv32, c: bv32, d: bv32, s: bv32)
    requires Substituted(a, b, c, d, s)
    ensures Sub(Val(Byte0(a))) == Val(Byte0(s)) && Sub(Val(Byte1(b))) == Val(Byte1(s))
    ensures Sub(Val(Byte2(c))) == Val(Byte2(s)) && Sub(Val(Byte3(d))) == Val(Byte3(s))
  {
    SubVal(Byte0(a));
    SubVal(Byte1(b));
    SubVal(Byte2(c));
    SubVal(Byte3(d));
    hide Byte0, Byte1, Byte2, Byte3, Val, SubBits, Sub;
  }

  lemma SubColumns(x: seq<byte>, a: bv32, b: bv32, c: bv32, d: bv32, s0: bv32, s1: bv32, s2: bv32, s3: bv32)
    requires Columns(x, a, b, c, d)
    requires Substituted(a, b, c, d, s0) && Substituted(b, c, d, a, s1)
    requires Substituted(c, d, a, b, s2) && Substituted(d, a, b, c, s3)
    ensures SubbedAt(x, 0, s0) && SubbedAt(x, 1, s1) && SubbedAt(x, 2, s2) && SubbedAt(x, 3, s3)
  {
    hide Column, Sub, SubBits, Val, Byte0, Byte1, Byte2, Byte3, Substituted;
    ColumnBytes(x, 0, a);
    ColumnBytes(x, 1, b);
    ColumnBytes(x, 2, c);
    ColumnBytes(x, 3, d);
    SubColumn(a, b, c, d, s0);
    SubColumn(b, c, d, a, s1);
    SubColumn(c, d, a, b, s2);
    SubColumn(d, a, b, c, s3);
  }

  /** y is column c substituted, with the rows turned. */
  predicate SubbedAt(x: seq<byte>, c: nat, y: bv32)
    requires |x| == 16 && c < 4
  {
    && Sub(x[4 * c]) == Val(Byte0(y)) && Sub(x[(4 * c + 5) % 16]) == Val(Byte1(y))
    && Sub(x[(4 * c + 10) % 16]) == Val(Byte2(y)) && Sub(x[(4 * c + 15) % 16]) == Val(Byte3(y))
  }

  lemma NextState(key: seq<byte>, s: seq<byte>, n: nat, a: bv32, b: bv32, c: bv32, d: bv32,
                  s0: bv32, s1: bv32, s2: bv32, s3: bv32, k0: bv32, k1: bv32, k2: bv32, k3: bv32)
    requires |key| == 16 && |s| == 16 && Columns(Rounds(key, s, n), a, b, c, d)
    requires Columns(RoundKey(key, n + 1), k0, k1, k2, k3)
    requires Substituted(a, b, c, d, s0) && Substituted(b, c, d, a, s1)
    requires Substituted(c, d, a, b, s2) && Substituted(d, a, b, c, s3)
    ensures Columns(Rounds(key, s, n + 1), Sum(Mixed(s0), k0), Sum(Mixed(s1), k1),
                    Sum(Mixed(s2), k2), Sum(Mixed(s3), k3))
  {
    hide ColumnAt, SubbedAt, Substituted, Rounds, RoundKey, Sum, Mixed;
    SubColumns(Rounds(key, s, n), a, b, c, d, s0, s1, s2, s3);
    NextColumn(key, s, n + 1, 0, s0, k0);
    NextColumn(key, s, n + 1, 1, s1, k1);
    NextColumn(key, s, n + 1, 2, s2, k2);
    NextColumn(key, s, n + 1, 3, s3, k3);
  }

  lemma LastState(key: seq<byte>, s: seq<byte>, a: bv32, b: bv32, c: bv32, d: bv32,
                  s0: bv32, s1: bv32, s2: bv32, s3: bv32, k0: bv32, k1: bv32, k2: bv32, k3: bv32)
    requires |key| == 16 && |s| == 16 && Columns(Rounds(key, s, 9), a, b, c, d)
    requires Columns(RoundKey(key, 10), k0, k1, k2, k3)
    requires Substituted(a, b, c, d, s0) && Substituted(b, c, d, a, s1)
    requires Substituted(c, d, a, b, s2) && Substituted(d, a, b, c, s3)
    ensures Columns(Cipher(key, s), Sum(s0, k0), Sum(s1, k1), Sum(s2, k2), Sum(s3, k3))
  {
    hide ColumnAt, SubbedAt, Substituted, Rounds, RoundKey, Sum, Cipher;
    SubColumns(Rounds(key, s, 9), a, b, c, d, s0, s1, s2, s3);
    KeyedLast(key, s, 0, s0, k0);
    KeyedLast(key, s, 1, s1, k1);
    KeyedLast(key, s, 2, s2, k2);
    KeyedLast(key, s, 3, s3, k3);
  }

  lemma KeyedLast(key: seq<byte>, s: seq<byte>, c: nat, y: bv32, k: bv32)
    requires |key| == 16 && |s| == 16 && c < 4
    requires SubbedAt(Rounds(key, s, 9), c, y)
    requires ColumnAt(RoundKey(key, 10), c, k)
    ensures ColumnAt(Cipher(key, s), c, Sum(y, k))
  {
    assert Column(y) == [Val(Byte0(y)), Val(Byte1(y)), Val(Byte2(y)), Val(Byte3(y))];
    hide *;
    LastColumn(key, s, c);
    ColumnBytes(RoundKey(key, 10), c, k);
    KeyedColumn(Cipher(key, s), c, y, k);
  }

  lemma StartColumn(key: seq<byte>, s: seq<byte>, c: nat, y: bv32, k: bv32)
    requires |key| == 16 && |s| == 16 && c < 4
    requires ColumnAt(s, c, y) && ColumnAt(RoundKey(key, 0), c, k)
    ensures ColumnAt(Rounds(key, s, 0), c, Sum(y, k))
  {
    assert Column(y) == [Val(Byte0(y)), Val(Byte1(y)), Val(Byte2(y)), Val(Byte3(y))];
    hide *;
    FirstState(key, s, 4 * c);
    FirstState(key, s, 4 * c + 1);
    FirstState(key, s, 4 * c + 2);
    FirstState(key, s, 4 * c + 3);
    ColumnBytes(s, c, y);
    ColumnBytes(RoundKey(key, 0), c, k);
    KeyedColumn(Rounds(key, s, 0), c, y, k);
  }

  // ---------- all rounds

  /** The state and the words of the round key after n rounds, and the next round constant. */
  predicate After(key: seq<byte>, s: seq<byte>, n: nat, a: bv32, b: bv32, c: bv32, d: bv32,
                  k0: bv32, k1: bv32, k2: bv32, k3: bv32, rc: bv8)
    requires |key| == 16 && |s| == 16
  {
    Columns(Rounds(key, s, n), a, b, c, d) && Words(key, n, k0, k1, k2, k3) && Rcon(n + 1) == Val(rc)
  }

  lemma Start(key: seq<byte>, s: seq<byte>, a: bv32, b: bv32, c: bv32, d: bv32, k0: bv32, k1: bv32, k2: bv32, k3: bv32)
    requires Columns(key, k0, k1, k2, k3) && Columns(s, a, b, c, d)
    ensures After(key, s, 0, Sum(a, k0), Sum(b, k1), Sum(c, k2), Sum(d, k3), k0, k1, k2, k3, 1)
  {
    assert Rcon(1) == Val(1) by { Entries(); }
    assert Words(key, 0, k0, k1, k2, k3) by { hide Column; }
    WordsAreKey(key, 0, k0, k1, k2, k3);
    hide ColumnAt, Words, Rcon, Val, RoundKey, Rounds, Sum;
    StartColumn(key, s, 0, a, k0);
    StartColumn(key, s, 1, b, k1);
    StartColumn(key, s, 2, c, k2);
    StartColumn(key, s, 3, d, k3);
  }

  /** The substituted words are given; all the others follow. */
  lemma Advance(key: seq<byte>, s: seq<byte>, n: nat, a: bv32, b: bv32, c: bv32, d: bv32,
                k0: bv32, k1: bv32, k2: bv32, k3: bv32, rc: bv8, u: bv32, s0: bv32, s1: bv32, s2: bv32, s3: bv32)
    requires |key| == 16 && |s| == 16 && After(key, s, n, a, b, c, d, k0, k1, k2, k3, rc)
    requires Turned(k3, u) && Substituted(a, b, c, d, s0) && Substituted(b, c, d, a, s1)
    requires Substituted(c, d, a, b, s2) && Substituted(d, a, b, c, s3)
    ensures var w0 := Sum(k0, Sum(u, Word(rc, 0, 0, 0)));
      var w1 := Sum(k1, w0);
      var w2 := Sum(k2, w1);
      var w3 := Sum(k3, w2);
      After(key, s, n + 1, Sum(Mixed(s0), w0), Sum(Mixed(s1), w1), Sum(Mixed(s2), w2), Sum(Mixed(s3), w3),
            w0, w1, w2, w3, Double(rc))
  {
    hide Columns, Words, Rcon, Val, RoundKey, Rounds, Word, Sum, Mixed, Turned, Substituted, Double;
    NextRcon(n + 2, rc);
    var w0 := Sum(k0, Sum(u, Word(rc, 0, 0, 0)));
    var w1 := Sum(k1, w0);
    var w2 := Sum(k2, w1);
    var w3 := Sum(k3, w2);
    NextKey(key, n, k0, k1, k2, k3, u, rc);
    WordsAreKey(key, n + 1, w0, w1, w2, w3);
    NextState(key, s, n, a, b, c, d, s0, s1, s2, s3, w0, w1, w2, w3);
  }

  lemma NextRcon(i: nat, rc: bv8)
    requires 2 <= i && Rcon(i - 1) == Val(rc)
    ensures Rcon(i) == Val(Double(rc))
  {
    Entries();
    Products(rc);
    hide MulByte, Double, Val, Times;
    MulByteVal(2, rc);
  }

  // ---------- appendix C.1

  lemma Round1(key: seq<byte>, s: seq<byte>)
    requires |key| == 16 && |s| == 16
    requires After(key, s, 0, 0x0010_2030, 0x4050_6070, 0x8090_A0B0, 0xC0D0_E0F0,
                   0x0001_0203, 0x0405_0607, 0x0809_0A0B, 0x0C0D_0E0F, 0x01)
    ensures After(key, s, 1, 0x89D8_10E8, 0x855A_CE68, 0x2D18_43D8, 0xCB12_8FE4,
                   0xD6AA_74FD, 0xD2AF_72FA, 0xDAA6_78F1, 0xD6AB_76FE, 0x02)
  {
    Entries0(); Entries1(); Entries2(); Entries3(); Entries4(); Entries5(); Entries6(); Entries7();
    Entries8(); Entries9(); EntriesA(); EntriesB(); EntriesC(); EntriesD(); EntriesE(); EntriesF();
    hide After, SubBits;
    Advance(key, s, 0, 0x0010_2030, 0x4050_6070, 0x8090_A0B0, 0xC0D0_E0F0,
            0x0001_0203, 0x0405_0607, 0x0809_0A0B, 0x0C0D_0E0F, 0x01,
            0xD7AB_76FE, 0x6353_E08C, 0x0960_E104, 0xCD70_B751, 0xBACA_D0E7);
  }

  lemma Round2(key: seq<byte>, s: seq<byte>)
    requires |key| == 16 && |s| == 16
    requires After(key, s, 1, 0x89D8_10E8, 0x855A_CE68, 0x2D18_43D8, 0xCB12_8FE4,
                   0xD6AA_74FD, 0xD2AF_72FA, 0xDAA6_78F1, 0xD6AB_76FE, 0x02)
    ensures After(key, s, 2, 0x4915_598F, 0x55E5_D7A0, 0xDACA_94FA, 0x1F0A_63F7,
                   0xB692_CF0B, 0x643D_BDF1, 0xBE9B_C500, 0x6830_B3FE, 0x04)
  {
    Entries0(); Entries1(); Entries2(); Entries3(); Entries4(); Entries5(); Entries6(); Entries7();
    Entries8(); Entries9(); EntriesA(); EntriesB(); EntriesC(); EntriesD(); EntriesE(); EntriesF();
    hide After, SubBits;
    Advance(key, s, 1, 0x89D8_10E8, 0x855A_CE68, 0x2D18_43D8, 0xCB12_8FE4,
            0xD6AA_74FD, 0xD2AF_72FA, 0xDAA6_78F1, 0xD6AB_76FE, 0x02,
            0x6238_BBF6, 0xA7BE_1A69, 0x97AD_739B, 0xD8C9_CA45, 0x1F61_8B61);
  }

  lemma Round3(key: seq<byte>, s: seq<byte>)
    requires |key| == 16 && |s| == 16
    requires After(key, s, 2, 0x4915_598F, 0x55E5_D7A0, 0xDACA_94FA, 0x1F0A_63F7,
                   0xB692_CF0B, 0x643D_BDF1, 0xBE9B_C500, 0x6830_B3FE, 0x04)
    ensures After(key, s, 3, 0xFA63_6A28, 0x25B3_39C9, 0x4066_8A31, 0x5724_4D17,
                   0xB6FF_744E, 0xD2C2_C9BF, 0x6C59_0CBF, 0x0469_BF41, 0x08)
  {
    Entries0(); Entries1(); Entries2(); Entries3(); Entries4(); Entries5(); Entries6(); Entries7();
    Entries8(); Entries9(); EntriesA(); EntriesB(); EntriesC(); EntriesD(); EntriesE(); EntriesF();
    hide After, SubBits;
    Advance(key, s, 2, 0x4915_598F, 0x55E5_D7A0, 0xDACA_94FA, 0x1F0A_63F7,
            0xB692_CF0B, 0x643D_BDF1, 0xBE9B_C500, 0x6830_B3FE, 0x04,
            0x046D_BB45, 0x3BD9_2268, 0xFC74_FB73, 0x5767_CBE0, 0xC059_0E2D);
  }

  lemma Round4(key: seq<byte>, s: seq<byte>)
    requires |key| == 16 && |s| == 16
    requires After(key, s, 3, 0xFA63_6A28, 0x25B3_39C9, 0x4066_8A31, 0x5724_4D17,
                   0xB6FF_744E, 0xD2C2_C9BF, 0x6C59_0CBF, 0x0469_BF41, 0x08)
    ensures After(key, s, 4, 0x2472_4023, 0x6966_B3FA, 0x6ED2_7532, 0x8842_5B6C,
                   0x47F7_F7BC, 0x9535_3E03, 0xF96C_32BC, 0xFD05_8DFD, 0x10)
  {
    Entries0(); Entries1(); Entries2(); Entries3(); Entries4(); Entries5(); Entries6(); Entries7();
    Entries8(); Entries9(); EntriesA(); EntriesB(); EntriesC(); EntriesD(); EntriesE(); EntriesF();
    hide After, SubBits;
    Advance(key, s, 3, 0xFA63_6A28, 0x25B3_39C9, 0x4066_8A31, 0x5724_4D17,
            0xB6FF_744E, 0xD2C2_C9BF, 0x6C59_0CBF, 0x0469_BF41, 0x08,
            0xF908_83F2, 0x2D6D_7EF0, 0x3F33_E334, 0x0936_02DD, 0x5BFB_12C7);
  }

  lemma Round5(key: seq<byte>, s: seq<byte>)
    requires |key| == 16 && |s| == 16
    requires After(key, s, 4, 0x2472_4023, 0x6966_B3FA, 0x6ED2_7532, 0x8842_5B6C,
                   0x47F7_F7BC, 0x9535_3E03, 0xF96C_32BC, 0xFD05_8DFD, 0x10)
    ensures After(key, s, 5, 0xC816_77BC, 0x9B7A_C93B, 0x2502_7992, 0xB026_1996,
                   0x3CAA_A3E8, 0xA99F_9DEB, 0x50F3_AF57, 0xADF6_22AA, 0x20)
  {
    Entries0(); Entries1(); Entries2(); Entries3(); Entries4(); Entries5(); Entries6(); Entries7();
    Entries8(); Entries9(); EntriesA(); EntriesB(); EntriesC(); EntriesD(); EntriesE(); EntriesF();
    hide After, SubBits;
    Advance(key, s, 4, 0x2472_4023, 0x6966_B3FA, 0x6ED2_7532, 0x8842_5B6C,
            0x47F7_F7BC, 0x9535_3E03, 0xF96C_32BC, 0xFD05_8DFD, 0x10,
            0x6B5D_5454, 0x3633_9D50, 0xF9B5_3926, 0x9F2C_092D, 0xC440_6D23);
  }

  lemma Round6(key: seq<byte>, s: seq<byte>)
    requires |key| == 16 && |s| == 16
    requires After(key, s, 5, 0xC816_77BC, 0x9B7A_C93B, 0x2502_7992, 0xB026_1996,
                   0x3CAA_A3E8, 0xA99F_9DEB, 0x50F3_AF57, 0xADF6_22AA, 0x20)
    ensures After(key, s, 6, 0xC62F_E109, 0xF75E_EDC3, 0xCC79_395D, 0x84F9_CF5D,
                   0x5E39_0F7D, 0xF7A6_9296, 0xA755_3DC1, 0x0AA3_1F6B, 0x40)
  {
    Entries0(); Entries1(); Entries2(); Entries3(); Entries4(); Entries5(); Entries6(); Entries7();
    Entries8(); Entries9(); EntriesA(); EntriesB(); EntriesC(); EntriesD(); EntriesE(); EntriesF();
    hide After, SubBits;
    Advance(key, s, 5, 0xC816_77BC, 0x9B7A_C93B, 0x2502_7992, 0xB026_1996,
            0x3CAA_A3E8, 0xA99F_9DEB, 0x50F3_AF57, 0xADF6_22AA, 0x20,
            0x4293_AC95, 0xE8DA_B690, 0x1477_D465, 0x3FF7_F5E2, 0xE747_DD4F);
  }

  lemma Round7(key: seq<byte>, s: seq<byte>)
    requires |key| == 16 && |s| == 16
    requires After(key, s, 6, 0xC62F_E109, 0xF75E_EDC3, 0xCC79_395D, 0x84F9_CF5D,
                   0x5E39_0F7D, 0xF7A6_9296, 0xA755_3DC1, 0x0AA3_1F6B, 0x40)
    ensures After(key, s, 7, 0xD187_6C0F, 0x79C4_300A, 0xB455_94AD, 0xD66F_F41F,
                   0x14F9_701A, 0xE35F_E28C, 0x440A_DF4D, 0x4EA9_C026, 0x80)
  {
    Entries0(); Entries1(); Entries2(); Entries3(); Entries4(); Entries5(); Entries6(); Entries7();
    Entries8(); Entries9(); EntriesA(); EntriesB(); EntriesC(); EntriesD(); EntriesE(); EntriesF();
    hide After, SubBits;
    Advance(key, s, 6, 0xC62F_E109, 0xF75E_EDC3, 0xCC79_395D, 0x84F9_CF5D,
            0x5E39_0F7D, 0xF7A6_9296, 0xA755_3DC1, 0x0AA3_1F6B, 0x40,
            0x0AC0_7F67, 0xB458_124C, 0x68B6_8A01, 0x4B99_F82E, 0x5F15_554C);
  }

  lemma Round8(key: seq<byte>, s: seq<byte>)
    requires |key| == 16 && |s| == 16
    requires After(key, s, 7, 0xD187_6C0F, 0x79C4_300A, 0xB455_94AD, 0xD66F_F41F,
                   0x14F9_701A, 0xE35F_E28C, 0x440A_DF4D, 0x4EA9_C026, 0x80)
    ensures After(key, s, 8, 0xFDE3_BAD2, 0x05E5_D0D7, 0x3547_964E, 0xF1FE_37F1,
                   0x4743_8735, 0xA41C_65B9, 0xE016_BAF4, 0xAEBF_7AD2, 0x1B)
  {
    Entries0(); Entries1(); Entries2(); Entries3(); Entries4(); Entries5(); Entries6(); Entries7();
    Entries8(); Entries9(); EntriesA(); EntriesB(); EntriesC(); EntriesD(); EntriesE(); EntriesF();
    hide After, SubBits;
    Advance(key, s, 7, 0xD187_6C0F, 0x79C4_300A, 0xB455_94AD, 0xD66F_F41F,
            0x14F9_701A, 0xE35F_E28C, 0x440A_DF4D, 0x4EA9_C026, 0x80,
            0xD3BA_F72F, 0x3E1C_22C0, 0xB6FC_BF76, 0x8DA8_5067, 0xF617_0495);
  }

  lemma Round9(key: seq<byte>, s: seq<byte>)
    requires |key| == 16 && |s| == 16
    requires After(key, s, 8, 0xFDE3_BAD2, 0x05E5_D0D7, 0x3547_964E, 0xF1FE_37F1,
                   0x4743_8735, 0xA41C_65B9, 0xE016_BAF4, 0xAEBF_7AD2, 0x1B)
    ensures After(key, s, 9, 0xBD6E_7C3D, 0xF2B5_779E, 0x0B61_216E, 0x8B10_B689,
                   0x5499_32D1, 0xF085_5768, 0x1093_ED9C, 0xBE2C_974E, 0x36)
  {
    Entries0(); Entries1(); Entries2(); Entries3(); Entries4(); Entries5(); Entries6(); Entries7();
    Entries8(); Entries9(); EntriesA(); EntriesB(); EntriesC(); EntriesD(); EntriesE(); EntriesF();
    hide After, SubBits;
    Advance(key, s, 8, 0xFDE3_BAD2, 0x05E5_D0D7, 0x3547_964E, 0xF1FE_37F1,
            0x4743_8735, 0xA41C_65B9, 0xE016_BAF4, 0xAEBF_7AD2, 0x1B,
            0x08DA_B5E4, 0x54D9_90A1, 0x6BA0_9AB5, 0x96BB_F40E, 0xA111_702F);
  }

  lemma LastRound(key: seq<byte>, s: seq<byte>)
    requires |key| == 16 && |s| == 16
    requires After(key, s, 9, 0xBD6E_7C3D, 0xF2B5_779E, 0x0B61_216E, 0x8B10_B689,
                   0x5499_32D1, 0xF085_5768, 0x1093_ED9C, 0xBE2C_974E, 0x36)
    ensures Columns(Cipher(key, s), 0x69C4_E0D8, 0x6A7B_0430, 0xD8CD_B780, 0x70B4_C55A)
  {
    Entries0(); Entries1(); Entries2(); Entries3(); Entries4(); Entries5(); Entries6(); Entries7();
    Entries8(); Entries9(); EntriesA(); EntriesB(); EntriesC(); EntriesD(); EntriesE(); EntriesF();
    hide SubBits, Columns, Words, Rounds, Cipher, Rcon;
    NextKey(key, 9, 0x5499_32D1, 0xF085_5768, 0x1093_ED9C, 0xBE2C_974E, 0x7188_2FAE, 0x36);
    WordsAreKey(key, 10, 0x1311_1D7F, 0xE394_4A17, 0xF307_A78B, 0x4D2B_30C5);
    LastState(key, s, 0xBD6E_7C3D, 0xF2B5_779E, 0x0B61_216E, 0x8B10_B689,
              0x7AD5_FDA7, 0x89EF_4E27, 0x2BCA_100B, 0x3D9F_F59F,
              0x1311_1D7F, 0xE394_4A17, 0xF307_A78B, 0x4D2B_30C5);
  }

  lemma KeyColumns()
    ensures var x: seq<byte> :=
        [0x00, 0x01, 0x02, 0x03, 0x04, 0x05, 0x06, 0x07, 0x08, 0x09, 0x0A, 0x0B, 0x0C, 0x0D, 0x0E, 0x0F];
      Columns(x, 0x0001_0203, 0x0405_0607, 0x0809_0A0B, 0x0C0D_0E0F)
  {
    var x: seq<byte> :=
      [0x00, 0x01, 0x02, 0x03, 0x04, 0x05, 0x06, 0x07, 0x08, 0x09, 0x0A, 0x0B, 0x0C, 0x0D, 0x0E, 0x0F];
    assert Column(0x0001_0203) == [0x00, 0x01, 0x02, 0x03] == x[0..4];
    assert Column(0x0405_0607) == [0x04, 0x05, 0x06, 0x07] == x[4..8];
    assert Column(0x0809_0A0B) == [0x08, 0x09, 0x0A, 0x0B] == x[8..12];
    assert Column(0x0C0D_0E0F) == [0x0C, 0x0D, 0x0E, 0x0F] == x[12..16];
    hide Column;
  }

  lemma PlainColumns()
    ensures var x: seq<byte> :=
        [0x00, 0x11, 0x22, 0x33, 0x44, 0x55, 0x66, 0x77, 0x88, 0x99, 0xAA, 0xBB, 0xCC, 0xDD, 0xEE, 0xFF];
      Columns(x, 0x0011_2233, 0x4455_6677, 0x8899_AABB, 0xCCDD_EEFF)
  {
    var x: seq<byte> :=
      [0x00, 0x11, 0x22, 0x33, 0x44, 0x55, 0x66, 0x77, 0x88, 0x99, 0xAA, 0xBB, 0xCC, 0xDD, 0xEE, 0xFF];
    assert Column(0x0011_2233) == [0x00, 0x11, 0x22, 0x33] == x[0..4];
    assert Column(0x4455_6677) == [0x44, 0x55, 0x66, 0x77] == x[4..8];
    assert Column(0x8899_AABB) == [0x88, 0x99, 0xAA, 0xBB] == x[8..12];
    assert Column(0xCCDD_EEFF) == [0xCC, 0xDD, 0xEE, 0xFF] == x[12..16];
    hide Column;
  }

  lemma SecretColumns()
    ensures var x: seq<byte> :=
        [0x69, 0xC4, 0xE0, 0xD8, 0x6A, 0x7B, 0x04, 0x30, 0xD8, 0xCD, 0xB7, 0x80, 0x70, 0xB4, 0xC5, 0x5A];
      Columns(x, 0x69C4_E0D8, 0x6A7B_0430, 0xD8CD_B780, 0x70B4_C55A)
  {
    var x: seq<byte> :=
      [0x69, 0xC4, 0xE0, 0xD8, 0x6A, 0x7B, 0x04, 0x30, 0xD8, 0xCD, 0xB7, 0x80, 0x70, 0xB4, 0xC5, 0x5A];
    assert Column(0x69C4_E0D8) == [0x69, 0xC4, 0xE0, 0xD8] == x[0..4];
    assert Column(0x6A7B_0430) == [0x6A, 0x7B, 0x04, 0x30] == x[4..8];
    assert Column(0xD8CD_B780) == [0xD8, 0xCD, 0xB7, 0x80] == x[8..12];
    assert Column(0x70B4_C55A) == [0x70, 0xB4, 0xC5, 0x5A] == x[12..16];
    hide Column;
  }

  /** The example, both ways. */
  lemma CipherAnswer()
    ensures var key: seq<byte> :=
        [0x00, 0x01, 0x02, 0x03, 0x04, 0x05, 0x06, 0x07, 0x08, 0x09, 0x0A, 0x0B, 0x0C, 0x0D, 0x0E, 0x0F];
      var plain: seq<byte> :=
        [0x00, 0x11, 0x22, 0x33, 0x44, 0x55, 0x66, 0x77, 0x88, 0x99, 0xAA, 0xBB, 0xCC, 0xDD, 0xEE, 0xFF];
      var secret: seq<byte> :=
        [0x69, 0xC4, 0xE0, 0xD8, 0x6A, 0x7B, 0x04, 0x30, 0xD8, 0xCD, 0xB7, 0x80, 0x70, 0xB4, 0xC5, 0x5A];
      Cipher(key, plain) == secret && InvCipher(key, secret) == plain
  {
    var key: seq<byte> :=
      [0x00, 0x01, 0x02, 0x03, 0x04, 0x05, 0x06, 0x07, 0x08, 0x09, 0x0A, 0x0B, 0x0C, 0x0D, 0x0E, 0x0F];
    var plain: seq<byte> :=
      [0x00, 0x11, 0x22, 0x33, 0x44, 0x55, 0x66, 0x77, 0x88, 0x99, 0xAA, 0xBB, 0xCC, 0xDD, 0xEE, 0xFF];
    var secret: seq<byte> :=
      [0x69, 0xC4, 0xE0, 0xD8, 0x6A, 0x7B, 0x04, 0x30, 0xD8, 0xCD, 0xB7, 0x80, 0x70, 0xB4, 0xC5, 0x5A];
    hide *;
    SecretColumns();
    PlainColumns();
    KeyColumns();
    Start(key, plain, 0x0011_2233, 0x4455_6677, 0x8899_AABB, 0xCCDD_EEFF,
          0x0001_0203, 0x0405_0607, 0x0809_0A0B, 0x0C0D_0E0F);

    Round1(key, plain); Round2(key, plain); Round3(key, plain); Round4(key, plain); Round5(key, plain);
    Round6(key, plain); Round7(key, plain); Round8(key, plain); Round9(key, plain);
    LastRound(key, plain);
    SameColumns(Cipher(key, plain), secret, 0x69C4_E0D8, 0x6A7B_0430, 0xD8CD_B780, 0x70B4_C55A);
    DecryptUndoesEncrypt(key, plain);
  }

  lemma SameColumns(x: seq<byte>, y: seq<byte>, a: bv32, b: bv32, c: bv32, d: bv32)
    requires Columns(x, a, b, c, d) && Columns(y, a, b, c, d)
    ensures x == y
  {
    hide Column;
    assert x == x[0..4] + x[4..8] + x[8..12] + x[12..16];
    assert y == y[0..4] + y[4..8] + y[8..12] + y[12..16];
  }
}
