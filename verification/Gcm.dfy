/** Galois/Counter Mode with 96-bit IVs, as NIST SP 800-38D defines it, on whole messages. */
module Gcm {
  import opened Bits
  import opened Bytes
  import opened Aead
  import Aes = Aes128
  import Gf2

  // ---------- blocks as polynomials: the leftmost bit of a block is the coefficient of x^0

  /** The bit c at the place p. */
  function At(c: nat, p: nat): nat {
    if c == 1 then p else 0
  }

  lemma AtIsProduct(c: nat, p: nat)
    requires c < 2
    ensures At(c, p) == c * p
  {
  }

  /** The n low bits of b in reverse order. */
  function RevBits(b: nat, n: nat): (r: nat)
    ensures r < Pow2(n)
    decreases n
  {
    if n == 0 then 0 else At(b % 2, Pow2(n - 1)) + RevBits(b / 2, n - 1)
  }

  function Reflect(b: byte): byte {
    assert Pow2(8) == 0x100;
    RevBits(b, 8)
  }

  function ReflectAll(s: seq<byte>): (t: seq<byte>)
    ensures |t| == |s|
  {
    seq(|s|, i requires 0 <= i < |s| => Reflect(s[i]))
  }

  function PolyOf(s: seq<byte>): nat {
    LE(ReflectAll(s))
  }

  function BlockOf(p: nat): (s: seq<byte>)
    ensures |s| == 16
  {
    ReflectAll(LeBytes(p, 16))
  }

  /** Reversing one more bit, at the top. */
  lemma {:induction false} RevTop(b: nat, c: nat, n: nat, x: nat)
    requires b < Pow2(n) && c < 2 && x == b + At(c, Pow2(n))
    ensures RevBits(x, n + 1) == 2 * RevBits(b, n) + c
    decreases n
  {
    if n == 0 {
      assert x == c && RevBits(x, 1) == c;
    } else {
      RevTop(b / 2, c, n - 1, x / 2);
      assert x % 2 == b % 2;
    }
  }

  lemma {:induction false} RevInvolution(b: nat, n: nat)
    requires b < Pow2(n)
    ensures RevBits(RevBits(b, n), n) == b
    decreases n
  {
    if n == 0 {
    } else {
      RevInvolution(b / 2, n - 1);
      RevTop(RevBits(b / 2, n - 1), b % 2, n - 1, RevBits(b, n));
    }
  }

  lemma {:induction false} RevXor(a: nat, b: nat, n: nat)
    ensures RevBits(Xor(a, b), n) == Xor(RevBits(a, n), RevBits(b, n))
    decreases n
  {
    if n == 0 {
      assert Xor(0, 0) == 0;
    } else {
      RevXor(a / 2, b / 2, n - 1);
      RevXorStep(a, b, n);
    }
  }

  lemma RevXorStep(a: nat, b: nat, n: nat)
    requires n != 0
    requires RevBits(Xor(a / 2, b / 2), n - 1) == Xor(RevBits(a / 2, n - 1), RevBits(b / 2, n - 1))
    ensures RevBits(Xor(a, b), n) == Xor(RevBits(a, n), RevBits(b, n))
  {
    hide *;
    XorHalves(a, b);
    XorBit2(a % 2, b % 2);
    RevStep(a, a / 2, a % 2, n);
    RevStep(b, b / 2, b % 2, n);
    RevStep(Xor(a, b), Xor(a / 2, b / 2), Xor(a % 2, b % 2), n);
    XorOfTops(RevBits(a / 2, n - 1), RevBits(b / 2, n - 1), a % 2, b % 2, n - 1);
  }

  lemma RevStep(b: nat, high: nat, low: nat, n: nat)
    requires n != 0 && high == b / 2 && low == b % 2
    ensures RevBits(b, n) == At(low, Pow2(n - 1)) + RevBits(high, n - 1)
  {
  }

  lemma XorOfTops(x: nat, y: nat, i: nat, j: nat, n: nat)
    requires x < Pow2(n) && y < Pow2(n) && i < 2 && j < 2
    ensures Xor(At(i, Pow2(n)) + x, At(j, Pow2(n)) + y) == At(Xor(i, j), Pow2(n)) + Xor(x, y)
  {
    XorBit2(i, j);
    hide Xor, At;
    AtIsProduct(i, Pow2(n));
    AtIsProduct(j, Pow2(n));
    AtIsProduct(Xor(i, j), Pow2(n));
    XorOfSums(x, y, i, j, n, Pow2(n));
  }

  lemma XorBit2(i: nat, j: nat)
    requires i < 2 && j < 2
    ensures Xor(i, j) == if i != j then 1 else 0
  {
  }

  lemma ReflectTwice(s: seq<byte>)
    ensures ReflectAll(ReflectAll(s)) == s
  {
    forall i | 0 <= i < |s| ensures Reflect(Reflect(s[i])) == s[i] {
      assert Pow2(8) == 0x100;
      RevInvolution(s[i], 8);
    }
  }

  /** Blocks and polynomials below x^128 are the same thing. */
  lemma BlockOfPolyOf(s: seq<byte>)
    requires |s| == 16
    ensures BlockOf(PolyOf(s)) == s && PolyOf(s) < Pow2(128)
  {
    LeBytesOfLE(ReflectAll(s));
    LEBound(ReflectAll(s));
    ReflectTwice(s);
  }

  lemma PolyOfBlockOf(p: nat)
    requires p < Pow2(128)
    ensures PolyOf(BlockOf(p)) == p
  {
    ReflectTwice(LeBytes(p, 16));
    LEOfLeBytes(p, 16);
    ModUnique(p, Pow2(128), 0, p);
  }

  lemma {:induction false} LEXor(a: seq<byte>, b: seq<byte>)
    requires |a| == |b|
    ensures LE(XorBytes(a, b)) == Xor(LE(a), LE(b))
    decreases |a|
  {
    if a == [] {
      assert Xor(0, 0) == 0;
    } else {
      assert Pow2(8) == 0x100;
      var c := XorBytes(a, b);
      assert c[1..] == XorBytes(a[1..], b[1..]) && c[0] == Xor(a[0], b[0]);
      LEStep(a);
      LEStep(b);
      LEStep(c);
      hide *;
      LEXor(a[1..], b[1..]);
      XorOfSums(a[0], b[0], LE(a[1..]), LE(b[1..]), 8, 0x100);
    }
  }

  lemma LEStep(s: seq<byte>)
    requires s != []
    ensures LE(s) == s[0] + LE(s[1..]) * 0x100
  {
  }

  /** XOR of blocks is addition of polynomials. */
  lemma PolyOfXor(a: seq<byte>, b: seq<byte>)
    requires |a| == |b|
    ensures PolyOf(XorBytes(a, b)) == Xor(PolyOf(a), PolyOf(b))
  {
    hide Xor, RevBits;
    forall i | 0 <= i < |a| ensures Reflect(XorByte(a[i], b[i])) == XorByte(Reflect(a[i]), Reflect(b[i])) {
      RevXor(a[i], b[i], 8);
    }
    assert ReflectAll(XorBytes(a, b)) == XorBytes(ReflectAll(a), ReflectAll(b));
    LEXor(ReflectAll(a), ReflectAll(b));
  }

  /** The coefficient of x^(8i + j) is bit j of byte i, counted from the left. */
  lemma PolyBit(s: seq<byte>, i: nat, j: nat)
    requires i < |s| && j < 8
    ensures BitAt(PolyOf(s), 8 * i + j) == BitAt(s[i], 7 - j)
  {
    hide BitAt, LE;
    LEBit(ReflectAll(s), i, j);
    RevBit(s[i], 8, j);
  }

  lemma {:induction false} LEBit(t: seq<byte>, i: nat, j: nat)
    requires i < |t| && j < 8
    ensures BitAt(LE(t), 8 * i + j) == BitAt(t[i], j)
    decreases i
  {
    assert Pow2(8) == 0x100;
    LEStep(t);
    hide BitAt, LE, Pow2;
    BitOfSum(t[0], LE(t[1..]), 8, 0x100, 8 * i + j);
    if i > 0 {
      LEBit(t[1..], i - 1, j);
    }
  }

  lemma {:induction false} RevBit(b: nat, n: nat, j: nat)
    requires j < n
    ensures BitAt(RevBits(b, n), j) == BitAt(b, n - 1 - j)
    decreases n
  {
    var low := RevBits(b / 2, n - 1);
    AtIsProduct(b % 2, Pow2(n - 1));
    assert RevBits(b, n) == low + b % 2 * Pow2(n - 1);
    hide RevBits, Pow2;
    BitOfSum(low, b % 2, n - 1, Pow2(n - 1), j);
    if j < n - 1 {
      RevBit(b / 2, n - 1, j);
    }
  }

  // ---------- multiplication, section 6.3

  const POLY: nat := 0x1_00000000_00000000_00000000_00000087 // x^128 + x^7 + x^2 + x + 1

  lemma IsModulus()
    ensures Gf2.Modulus(POLY, 128) && Pow2(128) == 0x1_00000000_00000000_00000000_00000000
  {
    Pow2Large();
  }

  /** The modulus is x^128 + x^7 + x^2 + x + 1. */
  lemma ModulusBits(i: nat)
    ensures BitAt(POLY, i) <==> i == 0 || i == 1 || i == 2 || i == 7 || i == 128
  {
    Pow2Large();
    assert Pow2(1) == 2;
    hide BitAt, Pow2;
    BitOfSum(0x87, 1, 128, 0x1_00000000_00000000_00000000_00000000, i);
    if i < 128 {
      LowModulusBits(i);
    } else {
      BitOfOnes(1, i - 128);
    }
  }

  lemma LowModulusBits(i: nat)
    ensures BitAt(0x87, i) <==> i == 0 || i == 1 || i == 2 || i == 7
  {
    if i >= 8 {
      assert Pow2(8) == 0x100;
      hide BitAt, Pow2;
      BitOfSum(0x87, 0, 8, 0x100, i);
      BitOfZero(i - 8);
    } else {
      assert BitAt(0x87, 0) && BitAt(0x87, 1) && BitAt(0x87, 2) && !BitAt(0x87, 3);
      assert !BitAt(0x87, 4) && !BitAt(0x87, 5) && !BitAt(0x87, 6) && BitAt(0x87, 7);
    }
  }

  function Times(a: nat, b: nat): (c: nat)
    ensures c < 0x1_00000000_00000000_00000000_00000000
  {
    IsModulus();
    Gf2.Mul(a, b, POLY, 128)
  }

  /** The product of two blocks. */
  function BlockTimes(x: seq<byte>, y: seq<byte>): (z: seq<byte>)
    ensures |z| == 16
  {
    BlockOf(Times(PolyOf(x), PolyOf(y)))
  }

  /** Read as polynomials, the product of blocks is the one block that differs from the product of its
      factors by a multiple of x^128 + x^7 + x^2 + x + 1. */
  lemma BlockTimesIsProduct(x: seq<byte>, y: seq<byte>, z: seq<byte>)
    requires |x| == 16 && |y| == 16 && |z| == 16
    ensures z == BlockTimes(x, y) <==> Gf2.Congruent(Gf2.ClMul(PolyOf(x), PolyOf(y)), PolyOf(z), POLY)
  {
    hide BlockOf, PolyOf, Gf2.Mul, Gf2.Congruent;
    IsModulus();
    PolyOfBlockOf(Times(PolyOf(x), PolyOf(y)));
    BlockOfPolyOf(z);
    Gf2.MulIsProductModulo(PolyOf(x), PolyOf(y), PolyOf(z), POLY, 128);
  }

  lemma BlockTimesLaws(x: seq<byte>, y: seq<byte>, z: seq<byte>)
    requires |x| == 16 && |y| == 16 && |z| == 16
    ensures BlockTimes(x, y) == BlockTimes(y, x)
    ensures BlockTimes(BlockTimes(x, y), z) == BlockTimes(x, BlockTimes(y, z))
    ensures BlockTimes(x, XorBytes(y, z)) == XorBytes(BlockTimes(x, y), BlockTimes(x, z))
  {
    hide BlockOf, PolyOf, Gf2.Mul;
    IsModulus();
    var a, b, c := PolyOf(x), PolyOf(y), PolyOf(z);
    Gf2.MulComm(a, b, POLY, 128);
    PolyOfBlockOf(Times(a, b));
    PolyOfBlockOf(Times(b, c));
    Gf2.MulAssociative(a, b, c, POLY, 128);
    PolyOfXor(y, z);
    Gf2.MulDistributes(a, b, c, POLY, 128);
    XorOfBlocks(Times(a, b), Times(a, c));
  }

  lemma XorOfBlocks(p: nat, q: nat)
    requires p < Pow2(128) && q < Pow2(128)
    ensures BlockOf(Xor(p, q)) == XorBytes(BlockOf(p), BlockOf(q))
  {
    hide BlockOf, PolyOf, Xor;
    PolyOfXor(BlockOf(p), BlockOf(q));
    PolyOfBlockOf(p);
    PolyOfBlockOf(q);
    BlockOfPolyOf(XorBytes(BlockOf(p), BlockOf(q)));
  }

  // ---------- GHASH, section 6.4

  function Power(h: nat, n: nat): nat {
    if n == 0 then 1 else Times(h, Power(h, n - 1))
  }

  /** X_1 * H^m + X_2 * H^(m-1) + ... + X_m * H */
  function PowerSum(xs: seq<seq<byte>>, h: nat): nat {
    if xs == [] then 0 else Xor(Times(PolyOf(xs[0]), Power(h, |xs|)), PowerSum(xs[1..], h))
  }

  /** The recurrence Y_i = (Y_(i-1) + X_i) * H, which the code follows. */
  function Chain(y: seq<byte>, xs: seq<seq<byte>>, h: seq<byte>): (z: seq<byte>)
    requires |y| == 16 && forall i :: 0 <= i < |xs| ==> |xs[i]| == 16
    ensures |z| == 16
    decreases |xs|
  {
    if xs == [] then y else Chain(BlockTimes(XorBytes(y, xs[0]), h), xs[1..], h)
  }

  lemma {:induction false} ChainIsPowerSum(y: seq<byte>, xs: seq<seq<byte>>, h: seq<byte>)
    requires |y| == 16 && forall i :: 0 <= i < |xs| ==> |xs[i]| == 16
    ensures PolyOf(Chain(y, xs, h)) == Xor(Times(PolyOf(y), Power(PolyOf(h), |xs|)), PowerSum(xs, PolyOf(h)))
    decreases |xs|
  {
    hide BlockOf, PolyOf, Xor, Times;
    var p, t, n := PolyOf(h), PolyOf(y), |xs|;
    if n == 0 {
      TimesUnit(y);
      Gf2.XorZero(t);
    } else {
      var x := PolyOf(xs[0]);
      var s := Xor(t, x);
      PolyOfXor(y, xs[0]);
      PolyOfBlockOf128(Times(s, p));
      ChainIsPowerSum(BlockTimes(XorBytes(y, xs[0]), h), xs[1..], h);
      TimesAssociative(s, p, Power(p, n - 1));
      TimesDistributes(t, x, Power(p, n));
      XorAssoc(Times(t, Power(p, n)), Times(x, Power(p, n)), PowerSum(xs[1..], p));
    }
  }

  /** From the zero block, the recurrence is GHASH. */
  lemma GhashIsPowerSum(xs: seq<seq<byte>>, h: seq<byte>)
    requires forall i :: 0 <= i < |xs| ==> |xs[i]| == 16
    ensures Chain(Zeros(16), xs, h) == BlockOf(PowerSum(xs, PolyOf(h)))
  {
    hide BlockOf, PolyOf, Xor, Times;
    ChainIsPowerSum(Zeros(16), xs, h);
    PolyOfZeros();
    TimesZero(Power(PolyOf(h), |xs|));
    Gf2.XorZero(PowerSum(xs, PolyOf(h)));
    BlockOfPolyOf(Chain(Zeros(16), xs, h));
  }

  lemma PolyOfZeros()
    ensures PolyOf(Zeros(16)) == 0
  {
    PolyOfXor(Zeros(16), Zeros(16));
    assert XorBytes(Zeros(16), Zeros(16)) == Zeros(16);
    XorSelf(PolyOf(Zeros(16)));
  }

  lemma TimesZero(a: nat)
    ensures Times(0, a) == 0
  {
  }

  lemma TimesUnit(y: seq<byte>)
    requires |y| == 16
    ensures Times(PolyOf(y), 1) == PolyOf(y)
  {
    hide PolyOf, Gf2.Mul;
    IsModulus();
    BlockOfPolyOf(y);
    Gf2.MulOne(PolyOf(y), POLY, 128);
  }

  lemma PolyOfBlockOf128(p: nat)
    requires p < 0x1_00000000_00000000_00000000_00000000
    ensures PolyOf(BlockOf(p)) == p
  {
    Pow2Large();
    PolyOfBlockOf(p);
  }

  lemma TimesDistributes(a: nat, b: nat, c: nat)
    ensures Times(Xor(a, b), c) == Xor(Times(a, c), Times(b, c))
  {
    IsModulus();
    Gf2.MulDistributes(c, a, b, POLY, 128);
  }

  lemma TimesAssociative(a: nat, b: nat, c: nat)
    ensures Times(Times(a, b), c) == Times(a, Times(b, c))
  {
    IsModulus();
    Gf2.MulAssociative(a, b, c, POLY, 128);
  }

  // ---------- GCTR and the authenticated cipher, sections 6.2, 6.5 and 7

  /** inc_32: the last four bytes count modulo 2^32, the first twelve stay; n increments at once. */
  function Inc(ctr: seq<byte>, n: nat): (c: seq<byte>)
    requires |ctr| == 16
    ensures |c| == 16
  {
    ctr[..12] + BeBytes(BE(ctr[12..]) + n, 4)
  }

  /** n bytes of the encrypted counter blocks that follow ctr. */
  function KeyStream(key: seq<byte>, ctr: seq<byte>, n: nat): (ks: seq<byte>)
    requires |key| == 16 && |ctr| == 16
    ensures |ks| == n
  {
    seq(n, i requires 0 <= i < n => Aes.Cipher(key, Inc(ctr, i / 16 + 1))[i % 16])
  }

  function J0(iv: seq<byte>): (j: seq<byte>)
    requires |iv| == 12
    ensures |j| == 16
  {
    iv + [0, 0, 0, 1]
  }

  /** The data cut into blocks, the last one filled with zeros. */
  function Padded(data: seq<byte>): (xs: seq<seq<byte>>)
    ensures forall i :: 0 <= i < |xs| ==> |xs[i]| == 16
    decreases |data|
  {
    if data == [] then [] else if |data| < 16 then [data + Zeros(16 - |data|)]
    else [data[..16]] + Padded(data[16..])
  }

  function LengthBlock(aad: seq<byte>, ct: seq<byte>): (b: seq<byte>)
    ensures |b| == 16
  {
    BeBytes(8 * |aad|, 8) + BeBytes(8 * |ct|, 8)
  }

  /** The blocks that are hashed. */
  function Hashed(aad: seq<byte>, ct: seq<byte>): (xs: seq<seq<byte>>)
    ensures forall i :: 0 <= i < |xs| ==> |xs[i]| == 16
  {
    Padded(aad) + Padded(ct) + [LengthBlock(aad, ct)]
  }

  function Tag(key: seq<byte>, iv: seq<byte>, aad: seq<byte>, ct: seq<byte>): (t: seq<byte>)
    requires |key| == 16 && |iv| == 12
    ensures |t| == 16
  {
    var h := PolyOf(Aes.Cipher(key, Zeros(16)));
    XorBytes(BlockOf(PowerSum(Hashed(aad, ct), h)), Aes.Cipher(key, J0(iv)))
  }

  function Encrypt(key: seq<byte>, iv: seq<byte>, aad: seq<byte>, pt: seq<byte>): Sealed
    requires |key| == 16 && |iv| == 12
  {
    var ct := XorBytes(pt, KeyStream(key, J0(iv), |pt|));
    Sealed(ct, Tag(key, iv, aad, ct))
  }

  function Decrypt(key: seq<byte>, iv: seq<byte>, aad: seq<byte>, ct: seq<byte>, tag: seq<byte>): Opened
    requires |key| == 16 && |iv| == 12
  {
    if tag == Tag(key, iv, aad, ct) then Accepted(XorBytes(ct, KeyStream(key, J0(iv), |ct|))) else Rejected
  }

  /** Decryption restores what encryption sealed, and accepts nothing but what encryption produces. */
  lemma DecryptEncrypt(key: seq<byte>, iv: seq<byte>, aad: seq<byte>, pt: seq<byte>, ct: seq<byte>, tag: seq<byte>)
    requires |key| == 16 && |iv| == 12
    ensures Decrypt(key, iv, aad, ct, tag) == Accepted(pt) <==> Encrypt(key, iv, aad, pt) == Sealed(ct, tag)
  {
    hide Tag, KeyStream;
    XorBytesTwice(pt, KeyStream(key, J0(iv), |pt|));
    XorBytesTwice(ct, KeyStream(key, J0(iv), |ct|));
  }

  /** The hashed blocks determine both the AAD and the ciphertext. */
  lemma HashedInjective(aad: seq<byte>, ct: seq<byte>, aad': seq<byte>, ct': seq<byte>)
    requires 8 * |aad| < 0x1_0000_0000_0000_0000 && 8 * |ct| < 0x1_0000_0000_0000_0000
    requires 8 * |aad'| < 0x1_0000_0000_0000_0000 && 8 * |ct'| < 0x1_0000_0000_0000_0000
    requires Hashed(aad, ct) == Hashed(aad', ct')
    ensures aad == aad' && ct == ct'
  {
    hide Padded, LengthBlock;
    var xs := Hashed(aad, ct);
    assert xs[|xs| - 1] == LengthBlock(aad, ct) == LengthBlock(aad', ct');
    LengthBlockInjective(aad, ct, aad', ct');
    PaddedCount(aad);
    PaddedCount(aad');
    var n := |Padded(aad)|;
    assert xs[..n] == Padded(aad) == Padded(aad');
    assert xs[n..|xs| - 1] == Padded(ct) == Padded(ct');
    PaddedInjective(aad, aad');
    PaddedInjective(ct, ct');
  }

  lemma LengthBlockInjective(aad: seq<byte>, ct: seq<byte>, aad': seq<byte>, ct': seq<byte>)
    requires 8 * |aad| < 0x1_0000_0000_0000_0000 && 8 * |ct| < 0x1_0000_0000_0000_0000
    requires 8 * |aad'| < 0x1_0000_0000_0000_0000 && 8 * |ct'| < 0x1_0000_0000_0000_0000
    requires LengthBlock(aad, ct) == LengthBlock(aad', ct')
    ensures |aad| == |aad'| && |ct| == |ct'|
  {
    hide BE, BeBytes;
    var b := LengthBlock(aad, ct);
    assert b[..8] == BeBytes(8 * |aad|, 8) == BeBytes(8 * |aad'|, 8);
    assert b[8..] == BeBytes(8 * |ct|, 8) == BeBytes(8 * |ct'|, 8);
    BitLength(8 * |aad|);
    BitLength(8 * |aad'|);
    BitLength(8 * |ct|);
    BitLength(8 * |ct'|);
  }

  lemma BitLength(n: nat)
    requires n < 0x1_0000_0000_0000_0000
    ensures BE(BeBytes(n, 8)) == n
  {
    hide BE, BeBytes, Pow2;
    Pow2Large();
    BEOfBeBytes(n, 8);
  }

  lemma {:induction false} PaddedCount(data: seq<byte>)
    ensures |Padded(data)| == (|data| + 15) / 16
    decreases |data|
  {
    if |data| < 16 {
    } else {
      PaddedCount(data[16..]);
    }
  }

  lemma {:induction false} PaddedInjective(a: seq<byte>, b: seq<byte>)
    requires |a| == |b| && Padded(a) == Padded(b)
    ensures a == b
    decreases |a|
  {
    if a == [] {
    } else if |a| < 16 {
      assert Padded(a)[0][..|a|] == a && Padded(b)[0][..|a|] == b;
    } else {
      assert Padded(a)[1..] == Padded(a[16..]) && Padded(b)[1..] == Padded(b[16..]);
      PaddedInjective(a[16..], b[16..]);
      assert a == Padded(a)[0] + a[16..] && b == Padded(b)[0] + b[16..];
    }
  }

  /** The bit lengths stand in the last block, that of the AAD first. */
  lemma LengthFields(aad: seq<byte>, ct: seq<byte>)
    requires 8 * |aad| < 0x1_0000_0000_0000_0000 && 8 * |ct| < 0x1_0000_0000_0000_0000
    ensures var xs := Hashed(aad, ct); var last := xs[|xs| - 1];
      BE(last[..8]) == 8 * |aad| && BE(last[8..]) == 8 * |ct|
  {
    hide BE, BeBytes, Padded;
    var b := LengthBlock(aad, ct);
    assert b[..8] == BeBytes(8 * |aad|, 8) && b[8..] == BeBytes(8 * |ct|, 8);
    BitLength(8 * |aad|);
    BitLength(8 * |ct|);
  }

  function Concat(xs: seq<seq<byte>>): seq<byte> {
    if xs == [] then [] else xs[0] + Concat(xs[1..])
  }

  /** The first blocks put together are the AAD, the next ones the ciphertext, each filled up with zeros. */
  lemma HashedFields(aad: seq<byte>, ct: seq<byte>)
    ensures var xs, m, n := Hashed(aad, ct), (|aad| + 15) / 16, (|ct| + 15) / 16;
      && |xs| == m + n + 1
      && Concat(xs[..m]) == aad + Zeros(16 * m - |aad|)
      && Concat(xs[m..m + n]) == ct + Zeros(16 * n - |ct|)
  {
    hide Concat, Padded;
    PaddedCount(aad);
    PaddedCount(ct);
    PaddedFields(aad);
    PaddedFields(ct);
    var xs, m, n := Hashed(aad, ct), |Padded(aad)|, |Padded(ct)|;
    assert xs[..m] == Padded(aad) && xs[m..m + n] == Padded(ct);
  }

  lemma {:induction false} PaddedFields(data: seq<byte>)
    ensures 16 * |Padded(data)| >= |data|
    ensures Concat(Padded(data)) == data + Zeros(16 * |Padded(data)| - |data|)
    decreases |data|
  {
    var xs := Padded(data);
    if data == [] {
    } else if |data| < 16 {
      assert xs[1..] == [];
    } else {
      PaddedFields(data[16..]);
      assert xs[1..] == Padded(data[16..]);
      assert data == data[..16] + data[16..];
    }
  }

  /** The first counter block: the IV, and the number 1. */
  lemma FirstCounter(iv: seq<byte>)
    requires |iv| == 12
    ensures J0(iv)[..12] == iv && BE(J0(iv)[12..]) == 1
  {
    hide BE;
    BEOf4(J0(iv)[12..]);
  }

  /** Byte i of the ciphertext comes from the block cipher on the IV followed by the number i/16 + 2. */
  lemma SealedByte(key: seq<byte>, iv: seq<byte>, aad: seq<byte>, pt: seq<byte>, i: nat)
    requires |key| == 16 && |iv| == 12 && i < |pt|
    ensures var ct := Encrypt(key, iv, aad, pt).ct;
      |ct| == |pt| && ct[i] == XorByte(pt[i], Aes.Cipher(key, iv + BeBytes(i / 16 + 2, 4))[i % 16])
  {
    hide BE, BeBytes, Aes.Cipher, Tag;
    FirstCounter(iv);
  }

  /** The tags of nothing and of one block of AAD: the hash key is the encrypted zero block, every block is
      added before the multiplication, and the result is masked with the first counter block. */
  lemma ShortTags(key: seq<byte>, iv: seq<byte>, aad: seq<byte>)
    requires |key| == 16 && |iv| == 12 && |aad| == 16
    ensures var h, mask := Aes.Cipher(key, Zeros(16)), Aes.Cipher(key, iv + [0, 0, 0, 1]);
      var lengths: seq<byte> := [0, 0, 0, 0, 0, 0, 0, 0x80, 0, 0, 0, 0, 0, 0, 0, 0];
      && Tag(key, iv, [], []) == mask
      && Tag(key, iv, aad, []) == XorBytes(BlockTimes(XorBytes(BlockTimes(aad, h), lengths), h), mask)
  {
    var h, mask := Aes.Cipher(key, Zeros(16)), Aes.Cipher(key, iv + [0, 0, 0, 1]);
    TagIsChain(key, iv, [], []);
    TagIsChain(key, iv, aad, []);
    HashedShort(aad);
    hide *;
    ChainShort(aad, [0, 0, 0, 0, 0, 0, 0, 0x80, 0, 0, 0, 0, 0, 0, 0, 0], h);
    XorZeros(mask);
  }

  lemma TagIsChain(key: seq<byte>, iv: seq<byte>, aad: seq<byte>, ct: seq<byte>)
    requires |key| == 16 && |iv| == 12
    ensures Tag(key, iv, aad, ct)
      == XorBytes(Chain(Zeros(16), Hashed(aad, ct), Aes.Cipher(key, Zeros(16))), Aes.Cipher(key, iv + [0, 0, 0, 1]))
  {
    hide Chain, Hashed, Aes.Cipher, BlockOf, PolyOf, PowerSum, XorBytes;
    GhashIsPowerSum(Hashed(aad, ct), Aes.Cipher(key, Zeros(16)));
  }

  lemma HashedShort(aad: seq<byte>)
    requires |aad| == 16
    ensures Hashed([], []) == [Zeros(16)]
    ensures Hashed(aad, []) == [aad, [0, 0, 0, 0, 0, 0, 0, 0x80, 0, 0, 0, 0, 0, 0, 0, 0]]
  {
    LengthBlocks();
    hide BeBytes;
    assert aad[16..] == [] && aad[..16] == aad;
    assert Padded([]) == [] && Padded(aad) == [aad];
  }

  lemma LengthBlocks()
    ensures BeBytes(0, 8) + BeBytes(0, 8) == Zeros(16)
    ensures BeBytes(128, 8) + BeBytes(0, 8) == [0, 0, 0, 0, 0, 0, 0, 0x80, 0, 0, 0, 0, 0, 0, 0, 0]
  {
    BeBytesOfZero(7);
    BeBytesOfZero(8);
    BeBytesStep(128, 7);
    hide BeBytes;
  }

  lemma ChainShort(x: seq<byte>, y: seq<byte>, h: seq<byte>)
    requires |x| == 16 == |y| == |h|
    ensures Chain(Zeros(16), [x, y], h) == BlockTimes(XorBytes(BlockTimes(x, h), y), h)
    ensures Chain(Zeros(16), [Zeros(16)], h) == Zeros(16)
  {
    hide *;
    XorZeros(x);
    XorZeros(Zeros(16));
    ZeroTimes(h);
    assert [x, y][1..] == [y] && [y][1..] == [] && [Zeros(16)][1..] == [];
    var z := BlockTimes(x, h);
    ChainNext(Zeros(16), [x, y], h);
    ChainNext(z, [y], h);
    ChainNone(BlockTimes(XorBytes(z, y), h), h);
    ChainNext(Zeros(16), [Zeros(16)], h);
    ChainNone(Zeros(16), h);
  }

  lemma ChainNext(y: seq<byte>, xs: seq<seq<byte>>, h: seq<byte>)
    requires |y| == 16 && xs != [] && forall i :: 0 <= i < |xs| ==> |xs[i]| == 16
    ensures Chain(y, xs, h) == Chain(BlockTimes(XorBytes(y, xs[0]), h), xs[1..], h)
  {
    hide BlockTimes, XorBytes;
  }

  lemma ChainNone(y: seq<byte>, h: seq<byte>)
    requires |y| == 16
    ensures Chain(y, [], h) == y
  {
  }

  lemma XorZeros(x: seq<byte>)
    requires |x| == 16
    ensures XorBytes(Zeros(16), x) == x
  {
    forall i | 0 <= i < 16 ensures XorByte(Zeros(16)[i], x[i]) == x[i] {
      XorNone(x[i]);
    }
  }

  lemma XorNone(x: nat)
    ensures Xor(0, x) == x
  {
  }

  lemma ZeroTimes(h: seq<byte>)
    ensures BlockTimes(Zeros(16), h) == Zeros(16)
  {
    hide PolyOf, BlockOf, Times;
    PolyOfZeros();
    TimesZero(PolyOf(h));
    BlockOfPolyOf(Zeros(16));
  }

  /** The counter blocks of a message, and the block that masks the tag, are all different. */
  lemma CounterBlocksDiffer(iv: seq<byte>, i: nat, j: nat)
    requires |iv| == 12 && i < j < 0x1_0000_0000
    ensures Inc(J0(iv), i) != Inc(J0(iv), j) && Inc(J0(iv), 0) == J0(iv)
  {
    Pow2Table();
    hide BE, BeBytes, Pow2;
    var c := BE(J0(iv)[12..]);
    var x, y := c + i, c + j;
    BEOfBeBytes(x, 4);
    BEOfBeBytes(y, 4);
    BeBytesOfBE(J0(iv)[12..]);
    assert Inc(J0(iv), i)[12..] == BeBytes(x, 4) && Inc(J0(iv), j)[12..] == BeBytes(y, 4);
    DifferentMod(x, y, 0x1_0000_0000);
  }
}
