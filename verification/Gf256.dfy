/** The field GF(2^8) of AES, and its arithmetic on the bits of a byte. */
module Gf256 {
  import opened Bits
  import opened Bytes
  import Gf2

  const POLY: nat := 0x11B // x^8 + x^4 + x^3 + x + 1

  /** The product of two field elements, section 4.2 of FIPS 197. */
  function Times(a: byte, b: byte): byte {
    IsModulus();
    Gf2.Mul(a, b, POLY, 8)
  }

  lemma IsModulus()
    ensures Gf2.Modulus(POLY, 8) && Pow2(8) == 0x100
  {
  }

  /** Doubling: the byte shifted left, with 0x1b XORed in when its top bit was set. */
  function Xtime(x: byte): byte {
    Xor(2 * x, x / 0x80 * 0x1B) % 0x100
  }

  /** The product by x: the bit that leaves the byte comes back as 0x1b. */
  lemma XtimeCases(x: byte)
    ensures x < 0x80 ==> Xtime(x) == 2 * x
    ensures x >= 0x80 ==> Xtime(x) == Xor(2 * x - 0x100, 0x1B) == Xor(2 * x, POLY)
  {
    XorOneBit();
    hide Xor;
    if x < 0x80 {
      Gf2.XorZero(2 * x);
    } else {
      assert x / 0x80 * 0x1B == 0x1B;
      CarryOut(2 * x - 0x100, 2 * x);
    }
  }

  lemma CarryOut(y: nat, t: nat)
    requires y < 0x100 && t == y + 0x100
    ensures Xor(t, 0x1B) % 0x100 == Xor(y, 0x1B) == Xor(t, 0x11B)
  {
    XorOneBit();
    hide Xor, Pow2;
    XorOfSums(y, 0x1B, 1, 0, 8, 0x100);
    XorOfSums(y, 0x1B, 1, 1, 8, 0x100);
    XorBound(y, 0x1B, 8);
  }

  lemma XorOneBit()
    ensures Xor(1, 0) == 1 && Xor(1, 1) == 0 && Pow2(8) == 0x100
  {
  }

  lemma XtimeIsStep(x: byte)
    ensures Gf2.Modulus(POLY, 8) && x < Pow2(8)
    ensures Xtime(x) == Gf2.Step(x, 0, POLY, 8)
  {
    IsModulus();
    hide Xor;
    XtimeCases(x);
  }

  lemma TimesTwo(x: byte)
    ensures Times(2, x) == Xtime(x)
  {
    XtimeIsStep(x);
    hide Xor, Gf2.Step;
    Gf2.MulTurn(2, x, POLY, 8);
    Gf2.XorZero(Gf2.Mul(1, Gf2.Step(x, 0, POLY, 8), POLY, 8));
    Gf2.MulOne(Gf2.Step(x, 0, POLY, 8), POLY, 8);
  }

  lemma TimesThree(x: byte)
    ensures Times(3, x) == XorByte(Xtime(x), x)
  {
    IsModulus();
    hide Xor, Gf2.Mul;
    TimesTwo(x);
    Gf2.LowBit(3);
    Gf2.MulDistributes(x, 1, 2, POLY, 8);
    Gf2.MulOne(x, POLY, 8);
    XorComm(x, Xtime(x));
  }

  lemma TimesOne(x: byte)
    ensures Times(1, x) == x
  {
    IsModulus();
    Gf2.MulOne(x, POLY, 8);
  }

  /** The source's multiplier computes the field product. */
  method MulLoop(a0: byte, b0: byte) returns (p: byte)
    ensures p == Times(a0, b0)
  {
    IsModulus();
    hide Xor, Gf2.Step, Gf2.Mul, Xtime;
    var a: byte, b: byte := a0, b0;
    p := 0;
    Gf2.MulComm(a0, b0, POLY, 8);
    Gf2.XorZero(Times(b0, a0));
    for i := 0 to 8
      invariant b < Pow2(8 - i)
      invariant Times(a0, b0) == Xor(p, Times(b, a))
    {
      Gf2.MulTurn(b, a, POLY, 8);
      XtimeIsStep(a);
      XtimeCases(a);
      XorAssoc(p, if b % 2 == 1 then a else 0, Times(b / 2, Xtime(a)));
      Gf2.XorZero(p);
      if b % 2 == 1 {
        p := XorByte(p, a);
      }
      var hi := a >= 0x80;
      a := 2 * (a as int) % 0x100;
      if hi {
        a := XorByte(a, 0x1B);
      }
      b := b / 2;
    }
    TimesZero(a);
    Gf2.XorZero(p);
  }

  lemma TimesZero(a: byte)
    ensures Times(0, a) == 0
  {
  }

  /** An element has at most one inverse. */
  lemma InverseUnique(x: byte, y: byte, z: byte)
    requires Times(x, y) == 1 && Times(y, z) == 1
    ensures x == z
  {
    IsModulus();
    TimesOne(x);
    TimesOne(z);
    hide Gf2.Mul;
    Gf2.MulComm(x, 1, POLY, 8);
    Gf2.MulAssociative(x, y, z, POLY, 8);
  }

  lemma TimesSwap(x: byte, y: byte)
    ensures Times(x, y) == Times(y, x)
  {
    IsModulus();
    Gf2.MulComm(x, y, POLY, 8);
  }

  // ---------- bytes as bit vectors

  function Val(b: bv8): byte {
    b as int
  }

  lemma HalfVal(a: bv8)
    ensures Val(a) / 2 == Val(a >> 1) && Val(a) % 2 == Val(a & 1)
  {
  }

  lemma XorHalf(a: bv8, b: bv8, a': bv8, b': bv8)
    requires a' == a >> 1 && b' == b >> 1
    ensures Val(a ^ b) / 2 == Val(a' ^ b')
    ensures Val(a ^ b) % 2 == if Val(a) % 2 != Val(b) % 2 then 1 else 0
  {
    hide Val;
    HalfVal(a);
    HalfVal(b);
    HalfVal(a ^ b);
    assert (a ^ b) >> 1 == a' ^ b';
    Odd(a, b);
  }

  lemma Odd(a: bv8, b: bv8)
    ensures Val((a ^ b) & 1) == if Val(a & 1) != Val(b & 1) then 1 else 0
  {
  }

  lemma XorStepBits(a: bv8, b: bv8, a': bv8, b': bv8)
    requires a' == a >> 1 && b' == b >> 1 && Xor(Val(a'), Val(b')) == Val(a' ^ b')
    ensures Xor(Val(a), Val(b)) == Val(a ^ b)
  {
    hide *;
    HalfVal(a);
    HalfVal(b);
    XorHalf(a, b, a', b');
    XorHalves(Val(a), Val(b));
    SameHalves(Xor(Val(a), Val(b)), Val(a ^ b));
  }

  lemma ValZero()
    ensures Val(0) == 0 && Xor(0, 0) == 0
  {
  }

  /** XOR of bit vectors is XOR of the numbers, by their eight halves. */
  lemma XorVal(a: bv8, b: bv8)
    ensures Xor(Val(a), Val(b)) == Val(a ^ b)
  {
    ValZero();
    hide *;
    var a1, a2, a3, a4, a5, a6, a7 := a >> 1, a >> 2, a >> 3, a >> 4, a >> 5, a >> 6, a >> 7;
    var b1, b2, b3, b4, b5, b6, b7 := b >> 1, b >> 2, b >> 3, b >> 4, b >> 5, b >> 6, b >> 7;
    assert (0 as bv8) ^ 0 == 0;
    XorStepBits(a7, b7, 0, 0);
    XorStepBits(a6, b6, a7, b7);
    XorStepBits(a5, b5, a6, b6);
    XorStepBits(a4, b4, a5, b5);
    XorStepBits(a3, b3, a4, b4);
    XorStepBits(a2, b2, a3, b3);
    XorStepBits(a1, b1, a2, b2);
    XorStepBits(a, b, a1, b1);
  }

  /** Every byte is the value of its bit vector. */
  lemma ValOf(x: byte)
    ensures Val(x as bv8) == x
  {
    var b := BitsOf(x);
    ValInjective(b);
  }

  lemma ValInjective(b: bv8)
    ensures Val(b) as bv8 == b
  {
  }

  lemma {:induction false} BitsOf(n: nat) returns (b: bv8)
    requires n < 0x100
    ensures Val(b) == n
  {
    if n == 0 {
      b := 0;
    } else {
      b := BitsOf(n - 1);
      ValNext(b);
      b := b + 1;
    }
  }

  lemma ValNext(b: bv8)
    requires Val(b) < 0xFF
    ensures Val(b + 1) == Val(b) + 1
  {
  }

  /** The product by x. */
  function Double(b: bv8): bv8 {
    if b & 0x80 == 0 then b << 1 else (b << 1) ^ 0x1B
  }

  lemma DoubleVal(b: bv8)
    ensures Val(Double(b)) == Xtime(Val(b))
  {
    ValShift(b);
    ValConst();
    hide Val, Xor, Xtime;
    XtimeCases(Val(b));
    if b & 0x80 != 0 {
      XorVal(b << 1, 0x1B);
    }
  }

  lemma ValShift(b: bv8)
    ensures b & 0x80 == 0 ==> Val(b) < 0x80 && Val(b << 1) == 2 * Val(b)
    ensures b & 0x80 != 0 ==> Val(b) >= 0x80 && Val(b << 1) == 2 * Val(b) - 0x100
  {
  }

  lemma ValConst()
    ensures Val(0) == 0 && Val(1) == 1 && Val(0x1B) == 0x1B && Val(0x63) == 0x63
  {
  }

  /** The product, for a factor x of n bits: the doublings of y at the set bits of x, added up. */
  function MulBits(x: bv8, y: bv8, n: nat): bv8
    decreases n
  {
    if n == 0 then 0 else Plus(Pick(x, y), MulBits(x >> 1, Double(y), n - 1))
  }

  function Plus(a: bv8, b: bv8): bv8 {
    a ^ b
  }

  function Pick(x: bv8, y: bv8): bv8 {
    if x & 1 == 0 then 0 else y
  }

  lemma MulTurnBits(x: bv8, y: bv8, x': bv8, m: bv8)
    requires x' == x >> 1 && Times(Val(x'), Val(Double(y))) == Val(m)
    ensures Times(Val(x), Val(y)) == Val(Plus(Pick(x, y), m))
  {
    ValLow(x);
    IsModulus();
    XtimeIsStep(Val(y));
    hide Val, Xor, Gf2.Mul, Gf2.Step, Double;
    DoubleVal(y);
    HalfVal(x);
    Gf2.MulTurn(Val(x), Val(y), POLY, 8);
    ValZero();
    XorVal(Pick(x, y), m);
  }

  lemma ValLow(x: bv8)
    ensures Val(x) % 2 == if x & 1 == 0 then 0 else 1
  {
  }

  lemma {:induction false} MulBitsVal(x: bv8, y: bv8, n: nat)
    requires Val(x) < Pow2(n)
    ensures Times(Val(x), Val(y)) == Val(MulBits(x, y, n))
    decreases n
  {
    ValZero();
    if n == 0 {
      TimesZero(Val(y));
    } else {
      hide Val, Xor, Times, Pick, Double, Plus;
      HalfVal(x);
      MulBitsVal(x >> 1, Double(y), n - 1);
      MulTurnBits(x, y, x >> 1, MulBits(x >> 1, Double(y), n - 1));
    }
  }

  /** The same, written out for all eight bits. */
  function MulByte(x: bv8, y: bv8): bv8 {
    var x1, y1 := x >> 1, Double(y);
    var x2, y2 := x1 >> 1, Double(y1);
    var x3, y3 := x2 >> 1, Double(y2);
    var x4, y4 := x3 >> 1, Double(y3);
    var x5, y5 := x4 >> 1, Double(y4);
    var x6, y6 := x5 >> 1, Double(y5);
    var x7, y7 := x6 >> 1, Double(y6);
    Plus(Pick(x, y), Plus(Pick(x1, y1), Plus(Pick(x2, y2), Plus(Pick(x3, y3),
      Plus(Pick(x4, y4), Plus(Pick(x5, y5), Plus(Pick(x6, y6), Plus(Pick(x7, y7), 0))))))))
  }

  /** The product of bit vectors is the product in the field. */
  lemma MulByteVal(x: bv8, y: bv8)
    ensures Times(Val(x), Val(y)) == Val(MulByte(x, y))
  {
    assert Pow2(8) == 0x100;
    hide Times, Val, Pow2, MulByte;
    MulBitsVal(x, y, 8);
    MulByteIs(x, y);
  }

  lemma MulByteIs(x: bv8, y: bv8)
    ensures MulByte(x, y) == MulBits(x, y, 8)
  {
    hide Pick, Double, Plus, MulBits;
    var x1, y1 := x >> 1, Double(y);
    var x2, y2 := x1 >> 1, Double(y1);
    var x3, y3 := x2 >> 1, Double(y2);
    var x4, y4 := x3 >> 1, Double(y3);
    var x5, y5 := x4 >> 1, Double(y4);
    var x6, y6 := x5 >> 1, Double(y5);
    var x7, y7 := x6 >> 1, Double(y6);
    MulStep(x, y, 7);
    MulStep(x1, y1, 6);
    MulStep(x2, y2, 5);
    MulStep(x3, y3, 4);
    MulStep(x4, y4, 3);
    MulStep(x5, y5, 2);
    MulStep(x6, y6, 1);
    MulStep(x7, y7, 0);
  }

  lemma MulStep(x: bv8, y: bv8, n: nat)
    ensures MulBits(x, y, n + 1) == Plus(Pick(x, y), MulBits(x >> 1, Double(y), n))
    ensures MulBits(x, y, 0) == 0 && MulBits(x >> 1, Double(y), 0) == 0
  {
    hide Pick, Double, Plus;
  }
}
