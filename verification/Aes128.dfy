/** AES-128: the in-place round functions of the software cipher, proved against the definitions
    of FIPS 197, and decryption proved to undo encryption. */
module Aes128 {
  import opened Bits
  import opened Bytes
  import opened AesSbox
  import opened Gf256
  import Gf2

  // ---------- the transformations of FIPS 197, sections 5.1 and 5.3; s[r + 4c] is row r, column c

  function SubBytes(s: seq<byte>): (t: seq<byte>)
    ensures |t| == |s|
  {
    seq(|s|, i requires 0 <= i < |s| => Sub(s[i]))
  }

  function InvSubBytes(s: seq<byte>): (t: seq<byte>)
    ensures |t| == |s|
  {
    seq(|s|, i requires 0 <= i < |s| => InvSub(s[i]))
  }

  /** The place from which row r, moved r columns to the left, takes entry i. */
  function Left(i: nat): (j: nat)
    ensures j < 16
  {
    i % 4 + 4 * ((i / 4 + i % 4) % 4)
  }

  function Right(i: nat): (j: nat)
    ensures j < 16
  {
    i % 4 + 4 * ((i / 4 + 4 - i % 4) % 4)
  }

  function ShiftRows(s: seq<byte>): (t: seq<byte>)
    requires |s| == 16
    ensures |t| == 16
  {
    seq(16, i requires 0 <= i < 16 => s[Left(i)])
  }

  function InvShiftRows(s: seq<byte>): (t: seq<byte>)
    requires |s| == 16
    ensures |t| == 16
  {
    seq(16, i requires 0 <= i < 16 => s[Right(i)])
  }

  function Dot(k0: byte, k1: byte, k2: byte, k3: byte, a: byte, b: byte, c: byte, d: byte): byte {
    XorByte(XorByte(XorByte(Times(k0, a), Times(k1, b)), Times(k2, c)), Times(k3, d))
  }

  /** Each column times the circulant matrix with first row m. */
  function MixWith(m: seq<byte>, s: seq<byte>): (t: seq<byte>)
    requires |m| == 4 && |s| == 16
    ensures |t| == 16
  {
    seq(16, i requires 0 <= i < 16 => MixEntry(m, s, i))
  }

  function MixEntry(m: seq<byte>, s: seq<byte>, i: nat): byte
    requires |m| == 4 && |s| == 16 && i < 16
  {
    var c, r := i - i % 4, i % 4;
    Dot(m[(4 - r) % 4], m[(5 - r) % 4], m[(6 - r) % 4], m[(7 - r) % 4], s[c], s[c + 1], s[c + 2], s[c + 3])
  }

  const MIX: seq<byte> := [0x02, 0x03, 0x01, 0x01]
  const INV_MIX: seq<byte> := [0x0E, 0x0B, 0x0D, 0x09]

  function MixColumns(s: seq<byte>): (t: seq<byte>)
    requires |s| == 16
    ensures |t| == 16
  {
    MixWith(MIX, s)
  }

  function InvMixColumns(s: seq<byte>): (t: seq<byte>)
    requires |s| == 16
    ensures |t| == 16
  {
    MixWith(INV_MIX, s)
  }

  // ---------- each transformation is undone by its inverse

  lemma SubBytesInverse(s: seq<byte>)
    ensures InvSubBytes(SubBytes(s)) == s && SubBytes(InvSubBytes(s)) == s
  {
    hide Sub, InvSub;
    forall i | 0 <= i < |s| ensures InvSub(Sub(s[i])) == s[i] && Sub(InvSub(s[i])) == s[i] {
      InvSubSub(s[i]);
      SubInvSub(s[i]);
    }
  }

  lemma ShiftRowsInverse(s: seq<byte>)
    requires |s| == 16
    ensures InvShiftRows(ShiftRows(s)) == s && ShiftRows(InvShiftRows(s)) == s
  {
    hide Left, Right;
    forall i | 0 <= i < 16 ensures s[Left(Right(i))] == s[i] == s[Right(Left(i))] {
      LeftRight(i);
    }
  }

  lemma LeftRight(i: nat)
    requires i < 16
    ensures Left(Right(i)) == i == Right(Left(i))
  {
    LeftRightAt(i % 4, i / 4);
  }

  lemma LeftRightAt(r: nat, c: nat)
    requires r < 4 && c < 4
    ensures Left(Right(r + 4 * c)) == r + 4 * c == Right(Left(r + 4 * c))
  {
    hide Left, Right;
    var left, right := (c + r) % 4, (c + 4 - r) % 4;
    Rotation(r, c);
    Moves(r, c);
    Moves(r, left);
    Moves(r, right);
  }

  /** Both maps, by row and column. */
  lemma Moves(r: nat, c: nat)
    requires r < 4 && c < 4
    ensures Left(r + 4 * c) == r + 4 * ((c + r) % 4) && Right(r + 4 * c) == r + 4 * ((c + 4 - r) % 4)
  {
    Place(r, c);
  }

  lemma Place(r: nat, c: nat)
    requires r < 4
    ensures (r + 4 * c) % 4 == r && (r + 4 * c) / 4 == c
  {
  }

  lemma Rotation(r: nat, c: nat)
    requires r < 4 && c < 4
    ensures ((c + 4 - r) % 4 + r) % 4 == c && ((c + r) % 4 + 4 - r) % 4 == c
  {
    if r <= c {
      assert (c + 4 - r) % 4 == c - r;
    }
    if c + r >= 4 {
      assert (c + r) % 4 == c + r - 4;
    }
  }

  function Xor4(a: nat, b: nat, c: nat, d: nat): nat {
    Xor(Xor(Xor(a, b), c), d)
  }

  lemma Xor4Add(a0: nat, a1: nat, a2: nat, a3: nat, b0: nat, b1: nat, b2: nat, b3: nat)
    ensures Xor(Xor4(a0, a1, a2, a3), Xor4(b0, b1, b2, b3)) == Xor4(Xor(a0, b0), Xor(a1, b1), Xor(a2, b2), Xor(a3, b3))
  {
    hide Xor;
    XorSwap(Xor(Xor(a0, a1), a2), a3, Xor(Xor(b0, b1), b2), b3);
    XorSwap(Xor(a0, a1), a2, Xor(b0, b1), b2);
    XorSwap(a0, a1, b0, b1);
  }

  /** A row times the sum of four products, by distributivity and associativity of the field product. */
  lemma TimesDot(p: byte, m0: byte, m1: byte, m2: byte, m3: byte, a: byte, b: byte, c: byte, d: byte)
    ensures Times(p, Dot(m0, m1, m2, m3, a, b, c, d))
         == Dot(Times(p, m0), Times(p, m1), Times(p, m2), Times(p, m3), a, b, c, d)
  {
    IsModulus();
    hide Xor, Gf2.Mul;
    var w, x, y, z := Times(m0, a), Times(m1, b), Times(m2, c), Times(m3, d);
    Gf2.MulDistributes(p, XorByte(XorByte(w, x), y), z, POLY, 8);
    Gf2.MulDistributes(p, XorByte(w, x), y, POLY, 8);
    Gf2.MulDistributes(p, w, x, POLY, 8);
    Gf2.MulAssociative(p, m0, a, POLY, 8);
    Gf2.MulAssociative(p, m1, b, POLY, 8);
    Gf2.MulAssociative(p, m2, c, POLY, 8);
    Gf2.MulAssociative(p, m3, d, POLY, 8);
  }

  /** The product of a sum of factors. */
  lemma SumTimes(q0: byte, q1: byte, q2: byte, q3: byte, a: byte)
    ensures Times(XorByte(XorByte(XorByte(q0, q1), q2), q3), a)
         == Xor4(Times(q0, a), Times(q1, a), Times(q2, a), Times(q3, a))
  {
    IsModulus();
    hide Xor, Gf2.Mul;
    Gf2.MulDistributes(a, XorByte(XorByte(q0, q1), q2), q3, POLY, 8);
    Gf2.MulDistributes(a, XorByte(q0, q1), q2, POLY, 8);
    Gf2.MulDistributes(a, q0, q1, POLY, 8);
  }

  /** p (M s) == (p M) s for a row p, the circulant matrix M with first row m, and a column s. */
  lemma RowTimesMatrix(p0: byte, p1: byte, p2: byte, p3: byte, m: seq<byte>, a: byte, b: byte, c: byte, d: byte)
    requires |m| == 4
    ensures Dot(p0, p1, p2, p3, Dot(m[0], m[1], m[2], m[3], a, b, c, d), Dot(m[3], m[0], m[1], m[2], a, b, c, d),
                Dot(m[2], m[3], m[0], m[1], a, b, c, d), Dot(m[1], m[2], m[3], m[0], a, b, c, d))
         == Dot(Dot(p0, p1, p2, p3, m[0], m[3], m[2], m[1]), Dot(p0, p1, p2, p3, m[1], m[0], m[3], m[2]),
                Dot(p0, p1, p2, p3, m[2], m[1], m[0], m[3]), Dot(p0, p1, p2, p3, m[3], m[2], m[1], m[0]), a, b, c, d)
  {
    hide Xor, Times;
    TimesDot(p0, m[0], m[1], m[2], m[3], a, b, c, d);
    TimesDot(p1, m[3], m[0], m[1], m[2], a, b, c, d);
    TimesDot(p2, m[2], m[3], m[0], m[1], a, b, c, d);
    TimesDot(p3, m[1], m[2], m[3], m[0], a, b, c, d);
    SumTimes(Times(p0, m[0]), Times(p1, m[3]), Times(p2, m[2]), Times(p3, m[1]), a);
    SumTimes(Times(p0, m[1]), Times(p1, m[0]), Times(p2, m[3]), Times(p3, m[2]), b);
    SumTimes(Times(p0, m[2]), Times(p1, m[1]), Times(p2, m[0]), Times(p3, m[3]), c);
    SumTimes(Times(p0, m[3]), Times(p1, m[2]), Times(p2, m[1]), Times(p3, m[0]), d);
    Transpose(
      Times(Times(p0, m[0]), a), Times(Times(p0, m[1]), b), Times(Times(p0, m[2]), c), Times(Times(p0, m[3]), d),
      Times(Times(p1, m[3]), a), Times(Times(p1, m[0]), b), Times(Times(p1, m[1]), c), Times(Times(p1, m[2]), d),
      Times(Times(p2, m[2]), a), Times(Times(p2, m[3]), b), Times(Times(p2, m[0]), c), Times(Times(p2, m[1]), d),
      Times(Times(p3, m[1]), a), Times(Times(p3, m[2]), b), Times(Times(p3, m[3]), c), Times(Times(p3, m[0]), d));
  }

  /** Sixteen terms summed by rows and by columns. */
  lemma Transpose(a0: nat, a1: nat, a2: nat, a3: nat, b0: nat, b1: nat, b2: nat, b3: nat,
                  c0: nat, c1: nat, c2: nat, c3: nat, d0: nat, d1: nat, d2: nat, d3: nat)
    ensures Xor4(Xor4(a0, a1, a2, a3), Xor4(b0, b1, b2, b3), Xor4(c0, c1, c2, c3), Xor4(d0, d1, d2, d3))
         == Xor4(Xor4(a0, b0, c0, d0), Xor4(a1, b1, c1, d1), Xor4(a2, b2, c2, d2), Xor4(a3, b3, c3, d3))
  {
    hide Xor;
    Xor4Add(a0, a1, a2, a3, b0, b1, b2, b3);
    Xor4Add(Xor(a0, b0), Xor(a1, b1), Xor(a2, b2), Xor(a3, b3), c0, c1, c2, c3);
    Xor4Add(Xor(Xor(a0, b0), c0), Xor(Xor(a1, b1), c1), Xor(Xor(a2, b2), c2), Xor(Xor(a3, b3), c3), d0, d1, d2, d3);
  }

  /** The circulant matrices with first rows p and m have product 1. */
  predicate InverseRows(p: seq<byte>, m: seq<byte>)
    requires |p| == 4 && |m| == 4
  {
    && Dot(p[0], p[1], p[2], p[3], m[0], m[3], m[2], m[1]) == 1
    && Dot(p[0], p[1], p[2], p[3], m[1], m[0], m[3], m[2]) == 0
    && Dot(p[0], p[1], p[2], p[3], m[2], m[1], m[0], m[3]) == 0
    && Dot(p[0], p[1], p[2], p[3], m[3], m[2], m[1], m[0]) == 0
  }

  lemma DotRotate(k0: byte, k1: byte, k2: byte, k3: byte, a: byte, b: byte, c: byte, d: byte)
    ensures Dot(k0, k1, k2, k3, a, b, c, d) == Dot(k3, k0, k1, k2, d, a, b, c)
  {
    hide Xor, Times;
    var w, x, y, z := Times(k0, a), Times(k1, b), Times(k2, c), Times(k3, d);
    XorComm(Xor(Xor(w, x), y), z);
    XorAssoc(z, Xor(w, x), y);
    XorAssoc(z, w, x);
  }

  lemma DotUnit(a: byte, b: byte, c: byte, d: byte)
    ensures Dot(1, 0, 0, 0, a, b, c, d) == a && Dot(0, 1, 0, 0, a, b, c, d) == b
    ensures Dot(0, 0, 1, 0, a, b, c, d) == c && Dot(0, 0, 0, 1, a, b, c, d) == d
  {
    TimesOne(a); TimesOne(b); TimesOne(c); TimesOne(d);
    TimesZero(a); TimesZero(b); TimesZero(c); TimesZero(d);
    hide Xor, Times;
    Gf2.XorZero(0); Gf2.XorZero(a); Gf2.XorZero(b); Gf2.XorZero(c); Gf2.XorZero(d);
  }

  /** One column mixed by m and then by p. */
  lemma ColumnInverse(p: seq<byte>, m: seq<byte>, a: byte, b: byte, c: byte, d: byte)
    requires |p| == 4 && |m| == 4 && InverseRows(p, m)
    ensures var w := Dot(m[0], m[1], m[2], m[3], a, b, c, d);
            var x := Dot(m[3], m[0], m[1], m[2], a, b, c, d);
            var y := Dot(m[2], m[3], m[0], m[1], a, b, c, d);
            var z := Dot(m[1], m[2], m[3], m[0], a, b, c, d);
            && Dot(p[0], p[1], p[2], p[3], w, x, y, z) == a && Dot(p[3], p[0], p[1], p[2], w, x, y, z) == b
            && Dot(p[2], p[3], p[0], p[1], w, x, y, z) == c && Dot(p[1], p[2], p[3], p[0], w, x, y, z) == d
  {
    hide Dot;
    DotUnit(a, b, c, d);
    RowTimesMatrix(p[0], p[1], p[2], p[3], m, a, b, c, d);
    RowTimesMatrix(p[3], p[0], p[1], p[2], m, a, b, c, d);
    RowTimesMatrix(p[2], p[3], p[0], p[1], m, a, b, c, d);
    RowTimesMatrix(p[1], p[2], p[3], p[0], m, a, b, c, d);
    RotateAll(p, m[0], m[3], m[2], m[1]);
    RotateAll(p, m[1], m[0], m[3], m[2]);
    RotateAll(p, m[2], m[1], m[0], m[3]);
    RotateAll(p, m[3], m[2], m[1], m[0]);
  }

  lemma RotateAll(p: seq<byte>, a: byte, b: byte, c: byte, d: byte)
    requires |p| == 4
    ensures var v := Dot(p[0], p[1], p[2], p[3], a, b, c, d);
            && Dot(p[3], p[0], p[1], p[2], d, a, b, c) == v && Dot(p[2], p[3], p[0], p[1], c, d, a, b) == v
            && Dot(p[1], p[2], p[3], p[0], b, c, d, a) == v
  {
    hide Dot;
    DotRotate(p[0], p[1], p[2], p[3], a, b, c, d);
    DotRotate(p[3], p[0], p[1], p[2], d, a, b, c);
    DotRotate(p[2], p[3], p[0], p[1], c, d, a, b);
  }

  lemma MixInverse(p: seq<byte>, m: seq<byte>, s: seq<byte>)
    requires |p| == 4 && |m| == 4 && |s| == 16 && InverseRows(p, m)
    ensures MixWith(p, MixWith(m, s)) == s
  {
    hide Dot, MixEntry;
    var t := MixWith(m, s);
    forall i | 0 <= i < 16 ensures MixWith(p, t)[i] == s[i] {
      var c := i / 4;
      MixedColumn(m, s, c);
      MixedColumn(p, t, c);
      ColumnInverse(p, m, s[4 * c], s[4 * c + 1], s[4 * c + 2], s[4 * c + 3]);
      assert i == 4 * c || i == 4 * c + 1 || i == 4 * c + 2 || i == 4 * c + 3;
    }
  }

  lemma MixedColumn(m: seq<byte>, s: seq<byte>, c: nat)
    requires |m| == 4 && |s| == 16 && c < 4
    ensures MixEntry(m, s, 4 * c) == Dot(m[0], m[1], m[2], m[3], s[4 * c], s[4 * c + 1], s[4 * c + 2], s[4 * c + 3])
    ensures MixEntry(m, s, 4 * c + 1) == Dot(m[3], m[0], m[1], m[2], s[4 * c], s[4 * c + 1], s[4 * c + 2], s[4 * c + 3])
    ensures MixEntry(m, s, 4 * c + 2) == Dot(m[2], m[3], m[0], m[1], s[4 * c], s[4 * c + 1], s[4 * c + 2], s[4 * c + 3])
    ensures MixEntry(m, s, 4 * c + 3) == Dot(m[1], m[2], m[3], m[0], s[4 * c], s[4 * c + 1], s[4 * c + 2], s[4 * c + 3])
  {
    hide Dot;
    Place(1, c);
    Place(2, c);
    Place(3, c);
  }

  lemma MixColumnsInverse(s: seq<byte>)
    requires |s| == 16
    ensures InvMixColumns(MixColumns(s)) == s && MixColumns(InvMixColumns(s)) == s
  {
    hide Dot;
    MatrixProducts();
    MixInverse(INV_MIX, MIX, s);
    MixInverse(MIX, INV_MIX, s);
  }

  /** A row times a column, on the bits. */
  function DotBits(p0: bv8, p1: bv8, p2: bv8, p3: bv8, a: bv8, b: bv8, c: bv8, d: bv8): bv8 {
    Plus(Plus(Plus(MulByte(p0, a), MulByte(p1, b)), MulByte(p2, c)), MulByte(p3, d))
  }

  lemma DotVal(p0: bv8, p1: bv8, p2: bv8, p3: bv8, a: bv8, b: bv8, c: bv8, d: bv8)
    ensures Dot(Val(p0), Val(p1), Val(p2), Val(p3), Val(a), Val(b), Val(c), Val(d))
         == Val(DotBits(p0, p1, p2, p3, a, b, c, d))
  {
    hide Times, MulByte, Val, Plus, XorByte;
    var w, x, y, z := MulByte(p0, a), MulByte(p1, b), MulByte(p2, c), MulByte(p3, d);
    MulByteVal(p0, a);
    MulByteVal(p1, b);
    MulByteVal(p2, c);
    MulByteVal(p3, d);
    PlusVal(w, x);
    PlusVal(Plus(w, x), y);
    PlusVal(Plus(Plus(w, x), y), z);
  }

  lemma PlusVal(a: bv8, b: bv8)
    ensures XorByte(Val(a), Val(b)) == Val(Plus(a, b))
  {
    hide Val, Xor;
    XorVal(a, b);
  }

  lemma Entries()
    ensures Val(0) == 0 && Val(1) == 1 && Val(2) == 2 && Val(3) == 3
    ensures Val(0x0E) == 0x0E && Val(0x0B) == 0x0B && Val(0x0D) == 0x0D && Val(0x09) == 0x09
  {
  }

  lemma MatrixProducts()
    ensures InverseRows(INV_MIX, MIX) && InverseRows(MIX, INV_MIX)
  {
    RowProducts();
    Entries();
    hide Dot, DotBits, Val;
    DotVal(0x0E, 0x0B, 0x0D, 0x09, 2, 1, 1, 3);
    DotVal(0x0E, 0x0B, 0x0D, 0x09, 3, 2, 1, 1);
    DotVal(0x0E, 0x0B, 0x0D, 0x09, 1, 3, 2, 1);
    DotVal(0x0E, 0x0B, 0x0D, 0x09, 1, 1, 3, 2);
    DotVal(2, 3, 1, 1, 0x0E, 0x09, 0x0D, 0x0B);
    DotVal(2, 3, 1, 1, 0x0B, 0x0E, 0x09, 0x0D);
    DotVal(2, 3, 1, 1, 0x0D, 0x0B, 0x0E, 0x09);
    DotVal(2, 3, 1, 1, 0x09, 0x0D, 0x0B, 0x0E);
  }

  lemma RowProducts()
    ensures DotBits(0x0E, 0x0B, 0x0D, 0x09, 2, 1, 1, 3) == 1 && DotBits(0x0E, 0x0B, 0x0D, 0x09, 3, 2, 1, 1) == 0
    ensures DotBits(0x0E, 0x0B, 0x0D, 0x09, 1, 3, 2, 1) == 0 && DotBits(0x0E, 0x0B, 0x0D, 0x09, 1, 1, 3, 2) == 0
    ensures DotBits(2, 3, 1, 1, 0x0E, 0x09, 0x0D, 0x0B) == 1 && DotBits(2, 3, 1, 1, 0x0B, 0x0E, 0x09, 0x0D) == 0
    ensures DotBits(2, 3, 1, 1, 0x0D, 0x0B, 0x0E, 0x09) == 0 && DotBits(2, 3, 1, 1, 0x09, 0x0D, 0x0B, 0x0E) == 0
  {
    SmallProducts();
    hide MulByte;
  }

  lemma SmallProducts()
    ensures MulByte(0x0E, 1) == 0x0E == MulByte(1, 0x0E) && MulByte(0x0E, 2) == 0x1C == MulByte(2, 0x0E)
    ensures MulByte(0x0B, 1) == 0x0B == MulByte(1, 0x0B) && MulByte(0x0B, 2) == 0x16 == MulByte(2, 0x0B)
    ensures MulByte(0x0D, 1) == 0x0D == MulByte(1, 0x0D) && MulByte(0x0D, 2) == 0x1A == MulByte(2, 0x0D)
    ensures MulByte(0x09, 1) == 0x09 == MulByte(1, 0x09) && MulByte(0x09, 2) == 0x12 == MulByte(2, 0x09)
    ensures MulByte(0x0E, 3) == 0x12 == MulByte(3, 0x0E) && MulByte(0x0B, 3) == 0x1D == MulByte(3, 0x0B)
    ensures MulByte(0x0D, 3) == 0x17 == MulByte(3, 0x0D) && MulByte(0x09, 3) == 0x1B == MulByte(3, 0x09)
  {
  }

  // ---------- the key schedule, section 5.2 of FIPS 197

  /** The round constant x^(i-1). */
  function Rcon(i: nat): byte
    requires i >= 1
  {
    if i == 1 then 1 else Times(2, Rcon(i - 1))
  }

  function SubWord(w: seq<byte>): (t: seq<byte>)
    requires |w| == 4
    ensures |t| == 4
  {
    [Sub(w[0]), Sub(w[1]), Sub(w[2]), Sub(w[3])]
  }

  function RotWord(w: seq<byte>): (t: seq<byte>)
    requires |w| == 4
    ensures |t| == 4
  {
    [w[1], w[2], w[3], w[0]]
  }

  /** Word i of the expanded key. */
  function KeyWord(key: seq<byte>, i: nat): (w: seq<byte>)
    requires |key| == 16
    ensures |w| == 4
  {
    if i < 4 then key[4 * i..4 * i + 4]
    else
      var before := KeyWord(key, i - 1);
      XorBytes(KeyWord(key, i - 4),
               if i % 4 == 0 then XorBytes(SubWord(RotWord(before)), [Rcon(i / 4), 0, 0, 0]) else before)
  }

  function RoundKey(key: seq<byte>, round: nat): (k: seq<byte>)
    requires |key| == 16
    ensures |k| == 16
  {
    KeyWord(key, 4 * round) + KeyWord(key, 4 * round + 1) + KeyWord(key, 4 * round + 2) + KeyWord(key, 4 * round + 3)
  }

  // ---------- Cipher and InvCipher, sections 5.1 and 5.3 of FIPS 197

  function Round(s: seq<byte>, k: seq<byte>): (t: seq<byte>)
    requires |s| == 16 && |k| == 16
    ensures |t| == 16
  {
    XorBytes(MixColumns(ShiftRows(SubBytes(s))), k)
  }

  function InvRound(s: seq<byte>, k: seq<byte>): (t: seq<byte>)
    requires |s| == 16 && |k| == 16
    ensures |t| == 16
  {
    InvMixColumns(XorBytes(InvSubBytes(InvShiftRows(s)), k))
  }

  /** The state after the first key addition and n rounds. */
  function Rounds(key: seq<byte>, s: seq<byte>, n: nat): (t: seq<byte>)
    requires |key| == 16 && |s| == 16
    ensures |t| == 16
  {
    if n == 0 then XorBytes(s, RoundKey(key, 0)) else Round(Rounds(key, s, n - 1), RoundKey(key, n))
  }

  function InvRounds(key: seq<byte>, s: seq<byte>, n: nat): (t: seq<byte>)
    requires |key| == 16 && |s| == 16 && n <= 10
    ensures |t| == 16
  {
    if n == 0 then XorBytes(s, RoundKey(key, 10)) else InvRound(InvRounds(key, s, n - 1), RoundKey(key, 10 - n))
  }

  function Cipher(key: seq<byte>, s: seq<byte>): (t: seq<byte>)
    requires |key| == 16 && |s| == 16
    ensures |t| == 16
  {
    XorBytes(ShiftRows(SubBytes(Rounds(key, s, 9))), RoundKey(key, 10))
  }

  function InvCipher(key: seq<byte>, s: seq<byte>): (t: seq<byte>)
    requires |key| == 16 && |s| == 16
    ensures |t| == 16
  {
    XorBytes(InvSubBytes(InvShiftRows(InvRounds(key, s, 9))), RoundKey(key, 0))
  }

  /** After n rounds, decryption has taken back the last n rounds of encryption. */
  lemma {:induction false} InvRoundsOfCipher(key: seq<byte>, s: seq<byte>, n: nat)
    requires |key| == 16 && |s| == 16 && n <= 9
    ensures InvRounds(key, Cipher(key, s), n) == ShiftRows(SubBytes(Rounds(key, s, 9 - n)))
  {
    hide RoundKey, SubBytes, ShiftRows, MixColumns, InvSubBytes, InvShiftRows, InvMixColumns, XorBytes;
    var x := Rounds(key, s, 9 - n);
    if n == 0 {
      XorBytesTwice(ShiftRows(SubBytes(x)), RoundKey(key, 10));
    } else {
      InvRoundsOfCipher(key, s, n - 1);
      var y := Rounds(key, s, 10 - n);
      ShiftRowsInverse(SubBytes(y));
      SubBytesInverse(y);
      XorBytesTwice(MixColumns(ShiftRows(SubBytes(x))), RoundKey(key, 10 - n));
      MixColumnsInverse(ShiftRows(SubBytes(x)));
    }
  }

  lemma DecryptUndoesEncrypt(key: seq<byte>, s: seq<byte>)
    requires |key| == 16 && |s| == 16
    ensures InvCipher(key, Cipher(key, s)) == s
  {
    hide RoundKey, SubBytes, ShiftRows, InvSubBytes, InvShiftRows, XorBytes, Cipher;
    InvRoundsOfCipher(key, s, 9);
    var x := Rounds(key, s, 0);
    ShiftRowsInverse(SubBytes(x));
    SubBytesInverse(x);
    XorBytesTwice(s, RoundKey(key, 0));
  }

  lemma {:induction false} RoundsOfInvCipher(key: seq<byte>, s: seq<byte>, n: nat)
    requires |key| == 16 && |s| == 16 && n <= 9
    ensures Rounds(key, InvCipher(key, s), n) == InvSubBytes(InvShiftRows(InvRounds(key, s, 9 - n)))
  {
    hide RoundKey, SubBytes, ShiftRows, MixColumns, InvSubBytes, InvShiftRows, InvMixColumns, XorBytes;
    var x := InvRounds(key, s, 9 - n);
    if n == 0 {
      XorBytesTwice(InvSubBytes(InvShiftRows(x)), RoundKey(key, 0));
    } else {
      RoundsOfInvCipher(key, s, n - 1);
      var y := InvRounds(key, s, 10 - n);
      SubBytesInverse(InvShiftRows(y));
      ShiftRowsInverse(y);
      MixColumnsInverse(XorBytes(InvSubBytes(InvShiftRows(x)), RoundKey(key, n)));
      XorBytesTwice(InvSubBytes(InvShiftRows(x)), RoundKey(key, n));
    }
  }

  lemma EncryptUndoesDecrypt(key: seq<byte>, s: seq<byte>)
    requires |key| == 16 && |s| == 16
    ensures Cipher(key, InvCipher(key, s)) == s
  {
    hide RoundKey, SubBytes, ShiftRows, InvSubBytes, InvShiftRows, XorBytes, InvCipher;
    RoundsOfInvCipher(key, s, 9);
    var x := InvRounds(key, s, 0);
    SubBytesInverse(InvShiftRows(x));
    ShiftRowsInverse(x);
    XorBytesTwice(s, RoundKey(key, 10));
  }

  // ---------- what a round does to a column, in closed form

  lemma ShiftedSub(x: seq<byte>, c: nat)
    requires |x| == 16 && c < 4
    ensures var t := ShiftRows(SubBytes(x));
      && t[4 * c] == Sub(x[4 * c]) && t[4 * c + 1] == Sub(x[(4 * c + 5) % 16])
      && t[4 * c + 2] == Sub(x[(4 * c + 10) % 16]) && t[4 * c + 3] == Sub(x[(4 * c + 15) % 16])
  {
    hide Sub;
    assert c == 0 || c == 1 || c == 2 || c == 3;
  }

  lemma InvShiftedSub(x: seq<byte>, c: nat)
    requires |x| == 16 && c < 4
    ensures var t := InvSubBytes(InvShiftRows(x));
      && t[4 * c] == InvSub(x[4 * c]) && t[4 * c + 1] == InvSub(x[(4 * c + 13) % 16])
      && t[4 * c + 2] == InvSub(x[(4 * c + 10) % 16]) && t[4 * c + 3] == InvSub(x[(4 * c + 7) % 16])
  {
    hide InvSub;
    assert c == 0 || c == 1 || c == 2 || c == 3;
  }

  lemma FirstState(key: seq<byte>, s: seq<byte>, i: nat)
    requires |key| == 16 && |s| == 16 && i < 16
    ensures Rounds(key, s, 0)[i] == XorByte(s[i], RoundKey(key, 0)[i])
    ensures InvRounds(key, s, 0)[i] == XorByte(s[i], RoundKey(key, 10)[i])
  {
    hide XorByte, RoundKey;
  }

  /** Column c after round n: the S-box, the rows turned, the matrix, and the round key. */
  lemma RoundColumn(key: seq<byte>, s: seq<byte>, n: nat, c: nat)
    requires |key| == 16 && |s| == 16 && 1 <= n && c < 4
    ensures var x, k, t := Rounds(key, s, n - 1), RoundKey(key, n), Rounds(key, s, n);
      var y0, y1 := Sub(x[4 * c]), Sub(x[(4 * c + 5) % 16]);
      var y2, y3 := Sub(x[(4 * c + 10) % 16]), Sub(x[(4 * c + 15) % 16]);
      && t[4 * c] == XorByte(Dot(2, 3, 1, 1, y0, y1, y2, y3), k[4 * c])
      && t[4 * c + 1] == XorByte(Dot(1, 2, 3, 1, y0, y1, y2, y3), k[4 * c + 1])
      && t[4 * c + 2] == XorByte(Dot(1, 1, 2, 3, y0, y1, y2, y3), k[4 * c + 2])
      && t[4 * c + 3] == XorByte(Dot(3, 1, 1, 2, y0, y1, y2, y3), k[4 * c + 3])
  {
    var x := Rounds(key, s, n - 1);
    var z := ShiftRows(SubBytes(x));
    RoundsNext(key, s, n);
    hide *;
    ShiftedSub(x, c);
    MixedWithKey(z, RoundKey(key, n), c);
  }

  lemma RoundsNext(key: seq<byte>, s: seq<byte>, n: nat)
    requires |key| == 16 && |s| == 16 && 1 <= n
    ensures Rounds(key, s, n) == XorBytes(MixColumns(ShiftRows(SubBytes(Rounds(key, s, n - 1)))), RoundKey(key, n))
    ensures n <= 9 ==> (InvRounds(key, s, n)
      == InvMixColumns(XorBytes(InvSubBytes(InvShiftRows(InvRounds(key, s, n - 1))), RoundKey(key, 10 - n))))
  {
    hide RoundKey, SubBytes, ShiftRows, MixColumns, InvSubBytes, InvShiftRows, InvMixColumns, XorBytes;
  }

  lemma MixedWithKey(z: seq<byte>, k: seq<byte>, c: nat)
    requires |z| == 16 && |k| == 16 && c < 4
    ensures var t := XorBytes(MixColumns(z), k);
      && t[4 * c] == XorByte(Dot(2, 3, 1, 1, z[4 * c], z[4 * c + 1], z[4 * c + 2], z[4 * c + 3]), k[4 * c])
      && t[4 * c + 1] == XorByte(Dot(1, 2, 3, 1, z[4 * c], z[4 * c + 1], z[4 * c + 2], z[4 * c + 3]), k[4 * c + 1])
      && t[4 * c + 2] == XorByte(Dot(1, 1, 2, 3, z[4 * c], z[4 * c + 1], z[4 * c + 2], z[4 * c + 3]), k[4 * c + 2])
      && t[4 * c + 3] == XorByte(Dot(3, 1, 1, 2, z[4 * c], z[4 * c + 1], z[4 * c + 2], z[4 * c + 3]), k[4 * c + 3])
  {
    MixTables();
    MixAt(MIX, z, c);
    assert MixColumns(z) == MixWith(MIX, z);
    hide Dot, MixEntry, MixWith, MixColumns, XorByte;
    MixedColumn(MIX, z, c);
  }

  lemma MixTables()
    ensures MIX[0] == 2 && MIX[1] == 3 && MIX[2] == 1 && MIX[3] == 1
    ensures INV_MIX[0] == 0x0E && INV_MIX[1] == 0x0B && INV_MIX[2] == 0x0D && INV_MIX[3] == 0x09
  {
  }

  lemma MixAt(m: seq<byte>, z: seq<byte>, c: nat)
    requires |m| == 4 && |z| == 16 && c < 4
    ensures var t := MixWith(m, z);
      && t[4 * c] == MixEntry(m, z, 4 * c) && t[4 * c + 1] == MixEntry(m, z, 4 * c + 1)
      && t[4 * c + 2] == MixEntry(m, z, 4 * c + 2) && t[4 * c + 3] == MixEntry(m, z, 4 * c + 3)
  {
    hide MixEntry;
  }

  lemma InvMixedAt(z: seq<byte>, c: nat)
    requires |z| == 16 && c < 4
    ensures var t := InvMixColumns(z);
      && t[4 * c] == Dot(0x0E, 0x0B, 0x0D, 0x09, z[4 * c], z[4 * c + 1], z[4 * c + 2], z[4 * c + 3])
      && t[4 * c + 1] == Dot(0x09, 0x0E, 0x0B, 0x0D, z[4 * c], z[4 * c + 1], z[4 * c + 2], z[4 * c + 3])
      && t[4 * c + 2] == Dot(0x0D, 0x09, 0x0E, 0x0B, z[4 * c], z[4 * c + 1], z[4 * c + 2], z[4 * c + 3])
      && t[4 * c + 3] == Dot(0x0B, 0x0D, 0x09, 0x0E, z[4 * c], z[4 * c + 1], z[4 * c + 2], z[4 * c + 3])
  {
    MixTables();
    MixAt(INV_MIX, z, c);
    assert InvMixColumns(z) == MixWith(INV_MIX, z);
    hide Dot, MixEntry, MixWith, InvMixColumns;
    MixedColumn(INV_MIX, z, c);
  }

  /** The last round has no matrix. */
  lemma LastColumn(key: seq<byte>, s: seq<byte>, c: nat)
    requires |key| == 16 && |s| == 16 && c < 4
    ensures var x, k, t := Rounds(key, s, 9), RoundKey(key, 10), Cipher(key, s);
      && t[4 * c] == XorByte(Sub(x[4 * c]), k[4 * c])
      && t[4 * c + 1] == XorByte(Sub(x[(4 * c + 5) % 16]), k[4 * c + 1])
      && t[4 * c + 2] == XorByte(Sub(x[(4 * c + 10) % 16]), k[4 * c + 2])
      && t[4 * c + 3] == XorByte(Sub(x[(4 * c + 15) % 16]), k[4 * c + 3])
  {
    ShiftedSub(Rounds(key, s, 9), c);
    hide Sub, XorByte, RoundKey, ShiftRows, SubBytes, Rounds;
  }

  /** Column c after n rounds of decryption, which take back the rounds 10 - n to 9: the round key goes in
      before the matrix. */
  lemma InvRoundColumn(key: seq<byte>, s: seq<byte>, n: nat, c: nat)
    requires |key| == 16 && |s| == 16 && 1 <= n <= 9 && c < 4
    ensures var x, k, t := InvRounds(key, s, n - 1), RoundKey(key, 10 - n), InvRounds(key, s, n);
      var y0, y1 := XorByte(InvSub(x[4 * c]), k[4 * c]), XorByte(InvSub(x[(4 * c + 13) % 16]), k[4 * c + 1]);
      var y2, y3 := XorByte(InvSub(x[(4 * c + 10) % 16]), k[4 * c + 2]),
        XorByte(InvSub(x[(4 * c + 7) % 16]), k[4 * c + 3]);
      && t[4 * c] == Dot(0x0E, 0x0B, 0x0D, 0x09, y0, y1, y2, y3)
      && t[4 * c + 1] == Dot(0x09, 0x0E, 0x0B, 0x0D, y0, y1, y2, y3)
      && t[4 * c + 2] == Dot(0x0D, 0x09, 0x0E, 0x0B, y0, y1, y2, y3)
      && t[4 * c + 3] == Dot(0x0B, 0x0D, 0x09, 0x0E, y0, y1, y2, y3)
  {
    var x := InvRounds(key, s, n - 1);
    var z := XorBytes(InvSubBytes(InvShiftRows(x)), RoundKey(key, 10 - n));
    RoundsNext(key, s, n);
    hide *;
    InvShiftedSub(x, c);
    InvMixedAt(z, c);
  }

  lemma InvLastColumn(key: seq<byte>, s: seq<byte>, c: nat)
    requires |key| == 16 && |s| == 16 && c < 4
    ensures var x, k, t := InvRounds(key, s, 9), RoundKey(key, 0), InvCipher(key, s);
      && t[4 * c] == XorByte(InvSub(x[4 * c]), k[4 * c])
      && t[4 * c + 1] == XorByte(InvSub(x[(4 * c + 13) % 16]), k[4 * c + 1])
      && t[4 * c + 2] == XorByte(InvSub(x[(4 * c + 10) % 16]), k[4 * c + 2])
      && t[4 * c + 3] == XorByte(InvSub(x[(4 * c + 7) % 16]), k[4 * c + 3])
  {
    InvShiftedSub(InvRounds(key, s, 9), c);
    hide InvSub, XorByte, RoundKey, InvShiftRows, InvSubBytes, InvRounds;
  }
}
