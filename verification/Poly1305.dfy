/** Poly1305 on five 26-bit limbs, proved to compute the one-time authenticator of
    section 2.5 of RFC 8439: a polynomial in r over the integers modulo 2^130 - 5. */
module Poly1305 {
  import opened Bits
  import opened Bytes

  // ---------- the authenticator of RFC 8439, on unbounded integers

  const P: nat := 0x3_FFFFFFFF_FFFFFFFF_FFFFFFFF_FFFFFFFB // 2^130 - 5
  const TWO_128: nat := 0x1_00000000_00000000_00000000_00000000
  const CLAMP: nat := 0x0FFFFFFC_0FFFFFFC_0FFFFFFC_0FFFFFFF

  function KeyR(key: seq<byte>): nat
    requires |key| == 32
  {
    And(LE(key[..16]), CLAMP)
  }

  function KeyS(key: seq<byte>): nat
    requires |key| == 32
  {
    LE(key[16..])
  }

  /** The coefficients: each 16-byte block, and the short last one, with a 1 byte appended. */
  function Coefficients(msg: seq<byte>): seq<nat> {
    if msg == [] then []
    else if |msg| < 16 then [LE(msg + [1])]
    else [LE(msg[..16] + [1])] + Coefficients(msg[16..])
  }

  function Pow(r: nat, n: nat): nat {
    if n == 0 then 1 else r * Pow(r, n - 1)
  }

  /** c_1 * r^q + c_2 * r^(q-1) + ... + c_q * r */
  function PowerSum(cs: seq<nat>, r: nat): nat {
    if cs == [] then 0 else cs[0] * Pow(r, |cs|) + PowerSum(cs[1..], r)
  }

  function Mac(msg: seq<byte>, key: seq<byte>): (tag: seq<byte>)
    requires |key| == 32
    ensures |tag| == 16
  {
    LeBytes((PowerSum(Coefficients(msg), KeyR(key)) % P + KeyS(key)) % TWO_128, 16)
  }

  // ---------- where r and s stand in the key

  /** The clamping of section 2.5: bit i of r is bit i of the first half of the key, but for 22 bits that are zero. */
  lemma ClampBit(key: seq<byte>, i: nat)
    requires |key| == 32
    ensures BitAt(KeyR(key), i) <==>
      BitAt(LE(key[..16]), i) && i < 124 && !(28 <= i < 34) && !(60 <= i < 66) && !(92 <= i < 98)
  {
    hide And, BitAt, LE;
    AndBit(LE(key[..16]), CLAMP, i);
    MaskBit(i);
  }

  lemma MaskBit(i: nat)
    ensures BitAt(CLAMP, i) <==> i < 124 && !(28 <= i < 34) && !(60 <= i < 66) && !(92 <= i < 98)
  {
    Pow2Table();
    assert Pow2(28) == 0x1000_0000 && Pow2(34) == 0x4_0000_0000 by { Pow2Add(26, 2); Pow2Add(26, 8); }
    hide BitAt, Pow2;
    BitOfOnes(28, i);
    BitOfSum(0xFFF_FFFF, 0x3FF_FFFF_03FF_FFFF_03FF_FFFF, 34, 0x4_0000_0000, i);
    if i >= 34 {
      MaskWords(i - 34);
    }
  }

  lemma MaskWords(i: nat)
    ensures BitAt(0x3FF_FFFF_03FF_FFFF_03FF_FFFF, i) <==> i < 26 || 32 <= i < 58 || 64 <= i < 90
  {
    Pow2Table();
    hide BitAt, Pow2;
    BitOfOnes(26, i);
    BitOfSum(0x3FF_FFFF, 0x3FF_FFFF_03FF_FFFF, 32, 0x1_0000_0000, i);
    if i >= 32 {
      BitOfOnes(26, i - 32);
      BitOfSum(0x3FF_FFFF, 0x3FF_FFFF, 32, 0x1_0000_0000, i - 32);
    }
    if i >= 64 {
      BitOfOnes(26, i - 64);
    }
  }

  /** The tag of the empty message is the second half of the key. */
  lemma EmptyTag(key: seq<byte>)
    requires |key| == 32
    ensures Mac([], key) == key[16..]
  {
    Pow2Large();
    hide LE, LeBytes, Pow2, And;
    var s := key[16..];
    LEBound(s);
    LeBytesOfLE(s);
  }

  /** Apart from the second half of the key, which is added, the tag depends on the first half and the message. */
  lemma TagDifference(msg: seq<byte>, key: seq<byte>, key': seq<byte>)
    requires |key| == 32 == |key'| && key[..16] == key'[..16]
    ensures (LE(Mac(msg, key)) - LE(key[16..])) % TWO_128 == (LE(Mac(msg, key')) - LE(key'[16..])) % TWO_128
  {
    TagMinusS(msg, key);
    TagMinusS(msg, key');
  }

  lemma TagMinusS(msg: seq<byte>, key: seq<byte>)
    requires |key| == 32
    ensures (LE(Mac(msg, key)) - LE(key[16..])) % TWO_128
         == PowerSum(Coefficients(msg), And(LE(key[..16]), CLAMP)) % P % TWO_128
  {
    Pow2Large();
    hide LE, LeBytes, Pow2, And, PowerSum, Coefficients;
    var a, s := PowerSum(Coefficients(msg), KeyR(key)) % P, KeyS(key);
    var x := (a + s) % TWO_128;
    LEOfLeBytes(x, 16);
    ModUnique(x, TWO_128, 0, x);
    ModUnique(x - s, TWO_128, (a / TWO_128) - ((a + s) / TWO_128), a % TWO_128);
  }

  // ---------- Horner's rule, which the code follows

  function Horner(acc: nat, cs: seq<nat>, r: nat): nat
    decreases |cs|
  {
    if cs == [] then acc else Horner((acc + cs[0]) * r, cs[1..], r)
  }

  lemma {:induction false} HornerIsPowerSum(acc: nat, cs: seq<nat>, r: nat)
    ensures Horner(acc, cs, r) == acc * Pow(r, |cs|) + PowerSum(cs, r)
    decreases |cs|
  {
    if cs == [] {
    } else {
      var p := Pow(r, |cs| - 1);
      HornerIsPowerSum((acc + cs[0]) * r, cs[1..], r);
      MulAssoc(acc + cs[0], r, p);
      MulDistrib(acc, cs[0], r * p);
    }
  }

  lemma MulDistrib(a: int, b: int, c: int)
    ensures (a + b) * c == a * c + b * c
  {
  }

  lemma {:induction false} HornerConcat(acc: nat, cs: seq<nat>, ds: seq<nat>, r: nat)
    ensures Horner(acc, cs + ds, r) == Horner(Horner(acc, cs, r), ds, r)
    decreases |cs|
  {
    if cs == [] {
      assert cs + ds == ds;
    } else {
      assert (cs + ds)[1..] == cs[1..] + ds;
      HornerConcat((acc + cs[0]) * r, cs[1..], ds, r);
    }
  }

  /** Working modulo P after every block does not change the result modulo P. */
  lemma {:induction false} HornerMod(a: nat, b: nat, cs: seq<nat>, r: nat)
    requires a % P == b % P
    ensures Horner(a, cs, r) % P == Horner(b, cs, r) % P
    decreases |cs|
  {
    if cs == [] {
    } else {
      var k := a / P - b / P;
      assert a == b + P * k;
      assert (a + cs[0]) * r == (b + cs[0]) * r + P * (k * r) by {
        MulDistrib(b + cs[0], P * k, r);
        MulAssoc(P, k, r);
      }
      SameMod((b + cs[0]) * r, k * r);
      HornerMod((a + cs[0]) * r, (b + cs[0]) * r, cs[1..], r);
    }
  }

  lemma SameMod(x: int, k: int)
    ensures (x + P * k) % P == x % P
  {
    ModUnique(x + P * k, P, x / P + k, x % P);
  }

  // ---------- C arithmetic


  function Add32(x: u32, y: u32): u32 { (x + y) % 0x1_0000_0000 }
  function Sub32(x: u32, y: u32): u32 { (x - y) % 0x1_0000_0000 }
  function Add64(x: u64, y: u64): u64 { (x + y) % 0x1_0000_0000_0000_0000 }
  function Mul32(x: u32, y: u32): u32 { (x * y) % 0x1_0000_0000 }
  function Mul64(x: u64, y: u64): (z: u64) { (x * y) % 0x1_0000_0000_0000_0000 }

  /** `x & 0x3ffffff` */
  function Low26(x: nat): (r: nat)
    ensures r == x % 0x400_0000
  {
    Pow2Table();
    AndLowMask(x, 26);
    And(x, 0x3FF_FFFF)
  }

  /** `x >> 26` */
  function High26(x: u32): u32 {
    x / 0x400_0000
  }

  // ---------- limbs

  function Limb(low: nat, rest: nat): nat {
    low + 0x400_0000 * rest
  }

  function Limbs(h0: nat, h1: nat, h2: nat, h3: nat, h4: nat): nat {
    Limb(h0, Limb(h1, Limb(h2, Limb(h3, h4))))
  }

  function Value(h: seq<u32>): nat
    requires |h| == 5
  {
    Limbs(h[0], h[1], h[2], h[3], h[4])
  }

  /** What every iteration keeps: only h[1] may carry a few bits too many. */
  predicate HBound(h: seq<u32>) {
    |h| == 5 && h[0] < 0x400_0000 && h[1] < 0x400_0000 + 64 && h[2] < 0x400_0000 && h[3] < 0x400_0000
      && h[4] < 0x400_0000
  }

  predicate Carried(h: seq<u32>) {
    |h| == 5 && h[0] < 0x400_0000 && h[1] < 0x400_0000 && h[2] < 0x400_0000 && h[3] < 0x400_0000 && h[4] < 0x400_0000
  }

  predicate RBound(r: seq<u32>) {
    |r| == 5 && forall i :: 0 <= i < 5 ==> r[i] < 0x400_0000
  }

  // ---------- poly1305Init

  /** Masking a word whose low 26 bits are a limb with a 26-bit mask masks the limb. */
  lemma MaskLimb(w: nat, m: nat)
    requires m < 0x400_0000
    ensures And(w, m) == And(w % 0x400_0000, m)
  {
    Pow2Table();
    AndOfSums(w % 0x400_0000, m, w / 0x400_0000, 0, 26, 0x400_0000);
  }

  /** Masking the whole number is masking its limbs. */
  lemma AndLimbs(l0: nat, l1: nat, l2: nat, l3: nat, l4: nat, m0: nat, m1: nat, m2: nat, m3: nat, m4: nat)
    requires l0 < 0x400_0000 && l1 < 0x400_0000 && l2 < 0x400_0000 && l3 < 0x400_0000
    requires m0 < 0x400_0000 && m1 < 0x400_0000 && m2 < 0x400_0000 && m3 < 0x400_0000
    ensures And(Limbs(l0, l1, l2, l3, l4), Limbs(m0, m1, m2, m3, m4))
         == Limbs(And(l0, m0), And(l1, m1), And(l2, m2), And(l3, m3), And(l4, m4))
  {
    hide And, Limb;
    AndLimb(l3, m3, l4, m4);
    AndLimb(l2, m2, Limb(l3, l4), Limb(m3, m4));
    AndLimb(l1, m1, Limb(l2, Limb(l3, l4)), Limb(m2, Limb(m3, m4)));
    AndLimb(l0, m0, Limb(l1, Limb(l2, Limb(l3, l4))), Limb(m1, Limb(m2, Limb(m3, m4))));
  }

  lemma AndLimb(a: nat, c: nat, b: nat, d: nat)
    requires a < 0x400_0000 && c < 0x400_0000
    ensures And(Limb(a, b), Limb(c, d)) == Limb(And(a, c), And(b, d))
  {
    Pow2Table();
    AndOfSums(a, c, b, d, 26, 0x400_0000);
  }

  /** `b0 >> 2 | b1 << 6 | b2 << 14 | b3 << 22` */
  function LoadShift2(b0: byte, b1: byte, b2: byte, b3: byte): (w: u32)
    ensures w == b0 / 4 + 0x40 * b1 + 0x4000 * b2 + 0x40_0000 * b3
  {
    Pow2Table();
    OrFour(b0 / 4, b1 * 0x40, b2 * 0x4000, b3 * 0x40_0000, 6, 14, 22, 0x40, 0x4000, 0x40_0000);
    Or(Or(Or(b0 / 4, b1 * 0x40), b2 * 0x4000), b3 * 0x40_0000)
  }

  /** `b0 >> 4 | b1 << 4 | b2 << 12 | b3 << 20` */
  function LoadShift4(b0: byte, b1: byte, b2: byte, b3: byte): (w: u32)
    ensures w == b0 / 0x10 + 0x10 * b1 + 0x1000 * b2 + 0x10_0000 * b3
  {
    Pow2Table();
    OrFour(b0 / 0x10, b1 * 0x10, b2 * 0x1000, b3 * 0x10_0000, 4, 12, 20, 0x10, 0x1000, 0x10_0000);
    Or(Or(Or(b0 / 0x10, b1 * 0x10), b2 * 0x1000), b3 * 0x10_0000)
  }

  /** `b0 >> 6 | b1 << 2 | b2 << 10 | b3 << 18` */
  function LoadShift6(b0: byte, b1: byte, b2: byte, b3: byte): (w: u32)
    ensures w == b0 / 0x40 + 4 * b1 + 0x400 * b2 + 0x4_0000 * b3
  {
    Pow2Table();
    OrFour(b0 / 0x40, b1 * 4, b2 * 0x400, b3 * 0x4_0000, 2, 10, 18, 4, 0x400, 0x4_0000);
    Or(Or(Or(b0 / 0x40, b1 * 4), b2 * 0x400), b3 * 0x4_0000)
  }

  function Words(t0: nat, t1: nat, t2: nat, t3: nat): nat {
    t0 + 0x1_0000_0000 * t1 + 0x1_0000_0000_0000_0000 * t2 + 0x1_0000_0000_0000_0000_0000_0000 * t3
  }

  lemma LE16(k: seq<byte>)
    requires |k| == 16
    ensures LE(k) == Words(Load32LE(k[0], k[1], k[2], k[3]), Load32LE(k[4], k[5], k[6], k[7]),
                           Load32LE(k[8], k[9], k[10], k[11]), Load32LE(k[12], k[13], k[14], k[15]))
  {
    LEEmpty();
    hide LE, Load32LE;
    LE4(k, 0);
    LE4(k, 4);
    LE4(k, 8);
    LE4(k, 12);
    assert k[0..] == k && k[16..] == [];
  }

  lemma LEEmpty()
    ensures LE([]) == 0
  {
  }

  lemma LE4(k: seq<byte>, i: nat)
    requires i + 4 <= |k|
    ensures LE(k[i..]) == Load32LE(k[i], k[i + 1], k[i + 2], k[i + 3]) + 0x1_0000_0000 * LE(k[i + 4..])
  {
    hide Load32LE;
    LE1(k, i);
    LE1(k, i + 1);
    LE1(k, i + 2);
    LE1(k, i + 3);
  }

  lemma LE1(k: seq<byte>, i: nat)
    requires i < |k|
    ensures LE(k[i..]) == k[i] + 0x100 * LE(k[i + 1..])
  {
    assert k[i..][1..] == k[i + 1..];
  }

  method Poly1305Init(r: array<u32>, h: array<u32>, key: seq<byte>)
    requires r.Length == 5 && h.Length == 5 && r != h && |key| == 32
    modifies r, h
    ensures RBound(r[..]) && Value(r[..]) == KeyR(key)
    ensures HBound(h[..]) && Value(h[..]) == 0
  {
    hide And, Limb, LE, Load32LE, LoadShift2, LoadShift4, LoadShift6;
    var w0 := Load32LE(key[0], key[1], key[2], key[3]);
    var w1 := LoadShift2(key[3], key[4], key[5], key[6]);
    var w2 := LoadShift4(key[6], key[7], key[8], key[9]);
    var w3 := LoadShift6(key[9], key[10], key[11], key[12]);
    var w4 := Load32LE(key[13], key[14], key[15], key[16]);
    r[0] := And(w0, 0x3FF_FFFF);
    r[1] := And(w1, 0x3FF_FF03);
    r[2] := And(w2, 0x3FF_C0FF);
    r[3] := And(w3, 0x3F0_3FFF);
    r[4] := And(w4, 0x00F_FFFF);
    for i := 0 to 5
      modifies h
      invariant forall j :: 0 <= j < i ==> h[j] == 0
    {
      h[i] := 0;
    }
    KeyLimbs(key, w0, w1, w2, w3, w4);
    ZeroLimbs();
  }

  lemma ZeroLimbs()
    ensures Limbs(0, 0, 0, 0, 0) == 0
  {
  }

  lemma KeyLimbs(key: seq<byte>, w0: u32, w1: u32, w2: u32, w3: u32, w4: u32)
    requires |key| == 32
    requires w0 == Load32LE(key[0], key[1], key[2], key[3])
    requires w1 == LoadShift2(key[3], key[4], key[5], key[6])
    requires w2 == LoadShift4(key[6], key[7], key[8], key[9])
    requires w3 == LoadShift6(key[9], key[10], key[11], key[12])
    requires w4 == Load32LE(key[13], key[14], key[15], key[16])
    ensures KeyR(key) == Limbs(And(w0, 0x3FF_FFFF), And(w1, 0x3FF_FF03), And(w2, 0x3FF_C0FF),
                               And(w3, 0x3F0_3FFF), And(w4, 0xF_FFFF))
  {
    hide And, Limb, Load32LE, LoadShift2, LoadShift4, LoadShift6;
    var l0, l1, l2, l4 := w0 % 0x400_0000, w1 % 0x400_0000, w2 % 0x400_0000, w4 % 0x100_0000;
    KeyAsLimbs(key);
    ClampAsLimbs();
    AndLimbs(l0, l1, l2, w3, l4, 0x3FF_FFFF, 0x3FF_FF03, 0x3FF_C0FF, 0x3F0_3FFF, 0xF_FFFF);
    MaskLimb(w0, 0x3FF_FFFF);
    MaskLimb(w1, 0x3FF_FF03);
    MaskLimb(w2, 0x3FF_C0FF);
    MaskTop(w4);
  }

  lemma KeyAsLimbs(k: seq<byte>)
    requires |k| == 32
    ensures LE(k[..16]) == Limbs(Load32LE(k[0], k[1], k[2], k[3]) % 0x400_0000,
                                 LoadShift2(k[3], k[4], k[5], k[6]) % 0x400_0000,
                                 LoadShift4(k[6], k[7], k[8], k[9]) % 0x400_0000,
                                 LoadShift6(k[9], k[10], k[11], k[12]),
                                 Load32LE(k[13], k[14], k[15], k[16]) % 0x100_0000)
  {
    hide LE, Limb, Load32LE, LoadShift2, LoadShift4, LoadShift6;
    LE16(k[..16]);
    var k3: nat, k6: nat, k9: nat := k[3], k[6], k[9];
    var k4: nat, k5: nat, k7: nat, k8: nat := k[4], k[5], k[7], k[8];
    var k13: nat, k14: nat, k15: nat := k[13], k[14], k[15];
    LowBits(k[0] + 0x100 * k[1] + 0x1_0000 * k[2] + 0x100_0000 * (k3 % 4), k3 / 4);
    LowBits(k3 / 4 + (0x40 * k4 + 0x4000 * k5 + 0x40_0000 * (k6 % 0x10)), k6 / 0x10);
    LowBits(k6 / 0x10 + (0x10 * k7 + 0x1000 * k8 + 0x10_0000 * (k9 % 0x40)), k9 / 0x40);
    ModUnique(Load32LE(k[13], k[14], k[15], k[16]), 0x100_0000, k[16], k13 + 0x100 * k14 + 0x1_0000 * k15);
    WordsAsLimbs(k[0], k[1], k[2], k3 % 4, k3 / 4, k[4], k[5], k6 % 0x10, k6 / 0x10, k[7], k[8], k9 % 0x40, k9 / 0x40,
                 k[10], k[11], k[12], k[13], k[14], k[15]);
  }

  lemma LowBits(low: nat, high: nat)
    requires low < 0x400_0000
    ensures (low + 0x400_0000 * high) % 0x400_0000 == low
  {
    ModUnique(low + 0x400_0000 * high, 0x400_0000, high, low);
  }

  /** Sixteen bytes, three of them cut in two, as four 32-bit words and as five limbs. */
  lemma WordsAsLimbs(k0: nat, k1: nat, k2: nat, l3: nat, h3: nat, k4: nat, k5: nat, l6: nat, h6: nat, k7: nat,
                     k8: nat, l9: nat, h9: nat, k10: nat, k11: nat, k12: nat, k13: nat, k14: nat, k15: nat)
    ensures (k0 + 0x100 * k1 + 0x1_0000 * k2 + 0x100_0000 * (l3 + 4 * h3))
            + 0x1_0000_0000 * (k4 + 0x100 * k5 + 0x1_0000 * (l6 + 0x10 * h6) + 0x100_0000 * k7)
            + 0x1_0000_0000_0000_0000 * (k8 + 0x100 * (l9 + 0x40 * h9) + 0x1_0000 * k10 + 0x100_0000 * k11)
            + 0x1_0000_0000_0000_0000_0000_0000 * (k12 + 0x100 * k13 + 0x1_0000 * k14 + 0x100_0000 * k15)
         == Limbs(k0 + 0x100 * k1 + 0x1_0000 * k2 + 0x100_0000 * l3, h3 + 0x40 * k4 + 0x4000 * k5 + 0x40_0000 * l6,
                  h6 + 0x10 * k7 + 0x1000 * k8 + 0x10_0000 * l9, h9 + 4 * k10 + 0x400 * k11 + 0x4_0000 * k12,
                  k13 + 0x100 * k14 + 0x1_0000 * k15)
  {
  }

  lemma ClampAsLimbs()
    ensures CLAMP == Limbs(0x3FF_FFFF, 0x3FF_FF03, 0x3FF_C0FF, 0x3F0_3FFF, 0xF_FFFF)
  {
  }

  /** The mask of r[4] drops the byte key[16], which belongs to s. */
  lemma MaskTop(w: nat)
    ensures And(w, 0xF_FFFF) == And(w % 0x100_0000, 0xF_FFFF)
  {
    Pow2Table();
    AndOfSums(w % 0x100_0000, 0xF_FFFF, w / 0x100_0000, 0, 24, 0x100_0000);
  }

  // ---------- poly1305Blocks: cutting a block into limbs

  /** `((t0 >> 26) | (t1 << 6)) & 0x3ffffff` */
  function Limb1(t0: u32, t1: u32): (l: u32)
    ensures l == t0 / 0x400_0000 + 0x40 * (t1 % 0x10_0000)
  {
    Limb1Exact(t0, t1);
    Low26(Or(t0 / 0x400_0000, t1 * 0x40 % 0x1_0000_0000))
  }

  lemma Limb1Exact(t0: u32, t1: u32)
    ensures Or(t0 / 0x400_0000, t1 * 0x40 % 0x1_0000_0000) % 0x400_0000 == t0 / 0x400_0000 + 0x40 * (t1 % 0x10_0000)
  {
    hide Or;
    var q, x := t1 / 0x10_0000, 0x40 * (t1 % 0x10_0000);
    assert t1 * 0x40 == x + 0x400_0000 * q;
    OrCut(t0 / 0x400_0000, q, x, 6, 0x40);
  }

  /** `((t1 >> 20) | (t2 << 12)) & 0x3ffffff` */
  function Limb2(t1: u32, t2: u32): (l: u32)
    ensures l == t1 / 0x10_0000 + 0x1000 * (t2 % 0x4000)
  {
    Limb2Exact(t1, t2);
    Low26(Or(t1 / 0x10_0000, t2 * 0x1000 % 0x1_0000_0000))
  }

  lemma Limb2Exact(t1: u32, t2: u32)
    ensures Or(t1 / 0x10_0000, t2 * 0x1000 % 0x1_0000_0000) % 0x400_0000 == t1 / 0x10_0000 + 0x1000 * (t2 % 0x4000)
  {
    hide Or;
    var q, x := t2 / 0x4000, 0x1000 * (t2 % 0x4000);
    assert t2 * 0x1000 == x + 0x400_0000 * q;
    OrCut(t1 / 0x10_0000, q, x, 12, 0x1000);
  }

  /** `((t2 >> 14) | (t3 << 18)) & 0x3ffffff` */
  function Limb3(t2: u32, t3: u32): (l: u32)
    ensures l == t2 / 0x4000 + 0x4_0000 * (t3 % 0x100)
  {
    Limb3Exact(t2, t3);
    Low26(Or(t2 / 0x4000, t3 * 0x4_0000 % 0x1_0000_0000))
  }

  lemma Limb3Exact(t2: u32, t3: u32)
    ensures Or(t2 / 0x4000, t3 * 0x4_0000 % 0x1_0000_0000) % 0x400_0000 == t2 / 0x4000 + 0x4_0000 * (t3 % 0x100)
  {
    hide Or;
    var q, x := t3 / 0x100, 0x4_0000 * (t3 % 0x100);
    assert t3 * 0x4_0000 == x + 0x400_0000 * q;
    OrCut(t2 / 0x4000, q, x, 18, 0x4_0000);
  }

  /** `(t3 >> 8) | (padBit ? 1 << 24 : 0)` */
  function Limb4(t3: u32, padBit: bool): (l: u32)
    ensures l == t3 / 0x100 + (if padBit then 0x100_0000 else 0)
  {
    Pow2Table();
    OrDisjoint(t3 / 0x100, 0x100_0000, 24, 0x100_0000);
    Or(t3 / 0x100, if padBit then 0x100_0000 else 0)
  }

  /** Low bits beside a left-shifted word whose part q is cut off by the 26-bit mask. */
  lemma OrCut(low: nat, q: nat, x: nat, n: nat, m: nat)
    requires (n == 6 && m == 0x40) || (n == 12 && m == 0x1000) || (n == 18 && m == 0x4_0000)
    requires low < m && x % m == 0 && low + x < 0x400_0000
    ensures Or(low, (x + 0x400_0000 * q) % 0x1_0000_0000) % 0x400_0000 == low + x
  {
    hide Or, Pow2;
    var w := x + 0x400_0000 * (q % 0x40);
    ModUnique(x + 0x400_0000 * q, 0x1_0000_0000, q / 0x40, w);
    LowBits(low + x, q % 0x40);
    Pow2Table();
    assert w % m == 0;
    OrDisjoint(low, w, n, m);
  }

  // ---------- poly1305Blocks: multiplying and carrying

  /** A sum of five 64-bit products, in C arithmetic. */
  function Dot(a0: u32, b0: u32, a1: u32, b1: u32, a2: u32, b2: u32, a3: u32, b3: u32, a4: u32, b4: u32): u64 {
    Add64(Add64(Add64(Add64(Mul64(a0, b0), Mul64(a1, b1)), Mul64(a2, b2)), Mul64(a3, b3)), Mul64(a4, b4))
  }

  lemma MulBound(a: nat, b: nat, m: nat, n: nat)
    requires a <= m && b <= n
    ensures a * b <= m * n
  {
    MulMono(a, b, n);
    MulMono(n, a, m);
  }

  /** No bit of a product or of their sum is lost. */
  lemma MulExact(a: u32, b: u32, n: nat)
    requires a <= 0x800_0040 && b <= n <= 0x1400_0000
    ensures Mul64(a, b) == a * b <= 0x800_0040 * n
  {
    MulBound(a, b, 0x800_0040, n);
    var x := a * b;
    assert x <= 0x800_0040 * n <= 0x800_0040 * 0x1400_0000;
    assert Mul64(a, b) == x % 0x1_0000_0000_0000_0000;
    hide *;
    ModUnique(x, 0x1_0000_0000_0000_0000, 0, x);
  }

  lemma AddExact(p0: u64, p1: u64, p2: u64, p3: u64, p4: u64)
    requires p0 + p1 + p2 + p3 + p4 < 0x1_0000_0000_0000_0000
    ensures Add64(Add64(Add64(Add64(p0, p1), p2), p3), p4) == p0 + p1 + p2 + p3 + p4
  {
  }

  function Sum5(a0: nat, b0: nat, a1: nat, b1: nat, a2: nat, b2: nat, a3: nat, b3: nat, a4: nat, b4: nat): nat {
    a0 * b0 + a1 * b1 + a2 * b2 + a3 * b3 + a4 * b4
  }

  lemma DotExact(a0: u32, b0: u32, a1: u32, b1: u32, a2: u32, b2: u32, a3: u32, b3: u32, a4: u32, b4: u32, n: nat)
    requires a0 <= 0x800_0040 && a1 <= 0x800_0040 && a2 <= 0x800_0040 && a3 <= 0x800_0040 && a4 <= 0x800_0040
    requires b0 <= n && b1 <= n && b2 <= n && b3 <= n && b4 <= n && n <= 0x1400_0000
    ensures Dot(a0, b0, a1, b1, a2, b2, a3, b3, a4, b4) == Sum5(a0, b0, a1, b1, a2, b2, a3, b3, a4, b4)
    ensures Dot(a0, b0, a1, b1, a2, b2, a3, b3, a4, b4) <= 0x2800_0140 * n
  {
    hide Add64, Mul64;
    MulExact(a0, b0, n);
    MulExact(a1, b1, n);
    MulExact(a2, b2, n);
    MulExact(a3, b3, n);
    MulExact(a4, b4, n);
    AddExact(Mul64(a0, b0), Mul64(a1, b1), Mul64(a2, b2), Mul64(a3, b3), Mul64(a4, b4));
  }

  /** A limb number times a factor, limb by limb. */
  lemma ScaleLimbs(x0: nat, x1: nat, x2: nat, x3: nat, x4: nat, r: nat)
    ensures Limbs(x0, x1, x2, x3, x4) * r == Limbs(x0 * r, x1 * r, x2 * r, x3 * r, x4 * r)
    ensures r * Limbs(x0, x1, x2, x3, x4) == Limbs(r * x0, r * x1, r * x2, r * x3, r * x4)
  {
    ScaleLimb(x3, x4, r);
    ScaleLimb(x2, Limb(x3, x4), r);
    ScaleLimb(x1, Limb(x2, Limb(x3, x4)), r);
    ScaleLimb(x0, Limb(x1, Limb(x2, Limb(x3, x4))), r);
  }

  lemma ScaleLimb(a: nat, b: nat, r: nat)
    ensures Limb(a, b) * r == Limb(a * r, b * r) && r * Limb(a, b) == Limb(r * a, r * b)
  {
    MulDistrib(a, 0x400_0000 * b, r);
  }

  /** Twenty-five partial products in rows and, with those from 2^130 up folded in times 5, in columns. */
  lemma FoldProducts(p00: nat, p01: nat, p02: nat, p03: nat, p04: nat, p10: nat, p11: nat, p12: nat, p13: nat,
                     p14: nat, p20: nat, p21: nat, p22: nat, p23: nat, p24: nat, p30: nat, p31: nat, p32: nat,
                     p33: nat, p34: nat, p40: nat, p41: nat, p42: nat, p43: nat, p44: nat)
    returns (q: nat)
    ensures Limbs(Limbs(p00, p10, p20, p30, p40),
               Limbs(p01, p11, p21, p31, p41),
               Limbs(p02, p12, p22, p32, p42),
               Limbs(p03, p13, p23, p33, p43),
               Limbs(p04, p14, p24, p34, p44))
         == Limbs(p00 + 5 * p14 + 5 * p23 + 5 * p32 + 5 * p41,
               p01 + p10 + 5 * p24 + 5 * p33 + 5 * p42,
               p02 + p11 + p20 + 5 * p34 + 5 * p43,
               p03 + p12 + p21 + p30 + 5 * p44,
               p04 + p13 + p22 + p31 + p40) + 0x3_FFFFFFFF_FFFFFFFF_FFFFFFFF_FFFFFFFB * q
  {
    q := Limbs(p14 + p23 + p32 + p41, p24 + p33 + p42, p34 + p43, p44, 0);
  }

  /** The five column sums of the source give the product modulo 2^130 - 5. */
  lemma LimbProduct(x0: nat, x1: nat, x2: nat, x3: nat, x4: nat, r0: nat, r1: nat, r2: nat, r3: nat, r4: nat,
                    s1: nat, s2: nat, s3: nat, s4: nat)
    returns (q: nat)
    requires s1 == 5 * r1 && s2 == 5 * r2 && s3 == 5 * r3 && s4 == 5 * r4
    ensures Limbs(x0, x1, x2, x3, x4) * Limbs(r0, r1, r2, r3, r4)
         == Limbs(Sum5(x0, r0, x1, s4, x2, s3, x3, s2, x4, s1),
                  Sum5(x0, r1, x1, r0, x2, s4, x3, s3, x4, s2),
                  Sum5(x0, r2, x1, r1, x2, r0, x3, s4, x4, s3),
                  Sum5(x0, r3, x1, r2, x2, r1, x3, r0, x4, s4),
                  Sum5(x0, r4, x1, r3, x2, r2, x3, r1, x4, r0)) + 0x3_FFFFFFFF_FFFFFFFF_FFFFFFFF_FFFFFFFB * q
  {
    hide Limb;
    MulFive(x1, r4, s4); MulFive(x2, r3, s3); MulFive(x3, r2, s2); MulFive(x4, r1, s1);
    MulFive(x2, r4, s4); MulFive(x3, r3, s3); MulFive(x4, r2, s2);
    MulFive(x3, r4, s4); MulFive(x4, r3, s3); MulFive(x4, r4, s4);
    ScaleLimbs(r0, r1, r2, r3, r4, Limbs(x0, x1, x2, x3, x4));
    ScaleLimbs(x0, x1, x2, x3, x4, r0);
    ScaleLimbs(x0, x1, x2, x3, x4, r1);
    ScaleLimbs(x0, x1, x2, x3, x4, r2);
    ScaleLimbs(x0, x1, x2, x3, x4, r3);
    ScaleLimbs(x0, x1, x2, x3, x4, r4);
    q := FoldProducts(x0 * r0, x0 * r1, x0 * r2, x0 * r3, x0 * r4, x1 * r0, x1 * r1, x1 * r2, x1 * r3, x1 * r4,
                      x2 * r0, x2 * r1, x2 * r2, x2 * r3, x2 * r4, x3 * r0, x3 * r1, x3 * r2, x3 * r3, x3 * r4,
                      x4 * r0, x4 * r1, x4 * r2, x4 * r3, x4 * r4);
  }

  lemma MulFive(x: nat, r: nat, s: nat)
    requires s == 5 * r
    ensures x * s == 5 * (x * r)
  {
  }

  /** One carry pass, with the carry out of the top limb worth 5 at the bottom. */
  lemma CarryPass(d0: nat, d1: nat, d2: nat, d3: nat, d4: nat, h0: nat, h1: nat, h2: nat, h3: nat, h4: nat,
                  c0: nat, c1: nat, c2: nat, c3: nat, c4: nat, c5: nat, g0: nat)
    requires d0 == h0 + 0x400_0000 * c0
    requires d1 + c0 == h1 + 0x400_0000 * c1
    requires d2 + c1 == h2 + 0x400_0000 * c2
    requires d3 + c2 == h3 + 0x400_0000 * c3
    requires d4 + c3 == h4 + 0x400_0000 * c4
    requires h0 + 5 * c4 == g0 + 0x400_0000 * c5
    ensures Limbs(d0, d1, d2, d3, d4) == Limbs(g0, h1 + c5, h2, h3, h4) + 0x3_FFFFFFFF_FFFFFFFF_FFFFFFFF_FFFFFFFB * c4
  {
  }

  // ---------- poly1305Blocks: the loop

  /** The number a 16-byte block stands for, with the bit above its top byte when padBit is set. */
  function BlockValue(block: seq<byte>, padBit: bool): nat
    requires |block| == 16
  {
    LE(block) + (if padBit then TWO_128 else 0)
  }

  function BlockValues(data: seq<byte>, padBit: bool): seq<nat> {
    if |data| < 16 then [] else [BlockValue(data[..16], padBit)] + BlockValues(data[16..], padBit)
  }

  /** h += block, limb by limb (lines 109-122). */
  method AddBlock(h: array<u32>, block: seq<byte>, padBit: bool)
    requires h.Length == 5 && HBound(h[..]) && |block| == 16
    modifies h
    ensures Value(h[..]) == old(Value(h[..])) + BlockValue(block, padBit)
    ensures forall i :: 0 <= i < 5 ==> h[i] <= 0x800_0040
  {
    hide Add32, Limb, Low26, Limb1, Limb2, Limb3, Limb4, Load32LE, LE, Limbs, Words;
    ghost var x := h[..];
    var t0 := Load32LE(block[0], block[1], block[2], block[3]);
    var t1 := Load32LE(block[4], block[5], block[6], block[7]);
    var t2 := Load32LE(block[8], block[9], block[10], block[11]);
    var t3 := Load32LE(block[12], block[13], block[14], block[15]);
    ghost var l1, l2, l3, l4 := Limb1(t0, t1), Limb2(t1, t2), Limb3(t2, t3), Limb4(t3, padBit);
    Add32Exact(x[0], Low26(t0));
    Add32Exact(x[1], l1);
    Add32Exact(x[2], l2);
    Add32Exact(x[3], l3);
    Add32Exact(x[4], l4);
    h[0] := Add32(h[0], Low26(t0));
    h[1] := Add32(h[1], Limb1(t0, t1));
    h[2] := Add32(h[2], Limb2(t1, t2));
    h[3] := Add32(h[3], Limb3(t2, t3));
    h[4] := Add32(h[4], Limb4(t3, padBit));
    assert h[..] == [Add32(x[0], Low26(t0)), Add32(x[1], l1), Add32(x[2], l2), Add32(x[3], l3), Add32(x[4], l4)];
    AddLimbs(x[0], x[1], x[2], x[3], x[4], Low26(t0), l1, l2, l3, t3 / 0x100, padBit);
    LE16(block);
    WordLimbs(t0, t1, t2, t3);
  }

  lemma Add32Exact(x: u32, y: u32)
    requires x <= 0x400_0040 && y < 0x400_0000
    ensures Add32(x, y) == x + y <= 0x800_0040
  {
  }

  lemma AddLimbs(x0: nat, x1: nat, x2: nat, x3: nat, x4: nat, l0: nat, l1: nat, l2: nat, l3: nat, l4: nat, pad: bool)
    ensures Limbs(x0 + l0, x1 + l1, x2 + l2, x3 + l3, x4 + (l4 + (if pad then 0x100_0000 else 0)))
         == Limbs(x0, x1, x2, x3, x4) + Limbs(l0, l1, l2, l3, l4) + (if pad then TWO_128 else 0)
  {
  }

  /** The limbs of four words. */
  lemma WordLimbs(t0: u32, t1: u32, t2: u32, t3: u32)
    ensures Limbs(t0 % 0x400_0000, t0 / 0x400_0000 + 0x40 * (t1 % 0x10_0000), t1 / 0x10_0000 + 0x1000 * (t2 % 0x4000),
                  t2 / 0x4000 + 0x4_0000 * (t3 % 0x100), t3 / 0x100)
         == Words(t0, t1, t2, t3)
  {
  }

  /** The five column sums, in C arithmetic, are exact and give the product; the last one is small. */
  lemma ProductColumns(h: seq<u32>, r: seq<u32>, s1: u32, s2: u32, s3: u32, s4: u32) returns (q: nat)
    requires |h| == 5 && RBound(r) && forall i :: 0 <= i < 5 ==> h[i] <= 0x800_0040
    requires s1 == 5 * r[1] && s2 == 5 * r[2] && s3 == 5 * r[3] && s4 == 5 * r[4]
    ensures Value(h) * Value(r)
         == Limbs(Dot(h[0], r[0], h[1], s4, h[2], s3, h[3], s2, h[4], s1),
                  Dot(h[0], r[1], h[1], r[0], h[2], s4, h[3], s3, h[4], s2),
                  Dot(h[0], r[2], h[1], r[1], h[2], r[0], h[3], s4, h[4], s3),
                  Dot(h[0], r[3], h[1], r[2], h[2], r[1], h[3], r[0], h[4], s4),
                  Dot(h[0], r[4], h[1], r[3], h[2], r[2], h[3], r[1], h[4], r[0]))
                    + 0x3_FFFFFFFF_FFFFFFFF_FFFFFFFF_FFFFFFFB * q
    ensures Dot(h[0], r[0], h[1], s4, h[2], s3, h[3], s2, h[4], s1) <= 0x2800_0140 * 0x1400_0000
    ensures Dot(h[0], r[1], h[1], r[0], h[2], s4, h[3], s3, h[4], s2) <= 0x2800_0140 * 0x1400_0000
    ensures Dot(h[0], r[2], h[1], r[1], h[2], r[0], h[3], s4, h[4], s3) <= 0x2800_0140 * 0x1400_0000
    ensures Dot(h[0], r[3], h[1], r[2], h[2], r[1], h[3], r[0], h[4], s4) <= 0x2800_0140 * 0x1400_0000
    ensures Dot(h[0], r[4], h[1], r[3], h[2], r[2], h[3], r[1], h[4], r[0]) <= 0x2800_0140 * 0x400_0000
  {
    hide Dot, Limb, Sum5;
    DotExact(h[0], r[0], h[1], s4, h[2], s3, h[3], s2, h[4], s1, 0x1400_0000);
    DotExact(h[0], r[1], h[1], r[0], h[2], s4, h[3], s3, h[4], s2, 0x1400_0000);
    DotExact(h[0], r[2], h[1], r[1], h[2], r[0], h[3], s4, h[4], s3, 0x1400_0000);
    DotExact(h[0], r[3], h[1], r[2], h[2], r[1], h[3], r[0], h[4], s4, 0x1400_0000);
    DotExact(h[0], r[4], h[1], r[3], h[2], r[2], h[3], r[1], h[4], r[0], 0x400_0000);
    q := LimbProduct(h[0], h[1], h[2], h[3], h[4], r[0], r[1], r[2], r[3], r[4], s1, s2, s3, s4);
  }

  /** `uint32_t(d >> 26)` */
  function Carry(d: u64): u32 { d / 0x400_0000 % 0x1_0000_0000 }

  /** `uint32_t(d) & 0x3ffffff` */
  function Rest(d: u64): u32 { Low26(d % 0x1_0000_0000) }

  /** Narrowing to 32 bits loses nothing. */
  lemma CarryExact(d: u64) returns (carry: u32, rest: u32)
    requires d <= 0x2800_0180 * 0x1400_0000
    ensures carry == Carry(d) && rest == Rest(d) && d == rest + 0x400_0000 * carry && rest < 0x400_0000
    ensures d <= 0x2800_0180 * 0x400_0000 ==> carry <= 0x2800_0180
  {
    hide Low26;
    carry, rest := Carry(d), Rest(d);
    var w := d % 0x1_0000_0000;
    ModUnique(d, 0x400_0000, 0x40 * (d / 0x1_0000_0000) + w / 0x400_0000, w % 0x400_0000);
    assert d / 0x400_0000 < 0x1_0000_0000;
  }

  lemma Add64Exact(d: u64, c: u32)
    requires d <= 0x2800_0140 * 0x1400_0000
    ensures Add64(d, c) == d + c
  {
  }

  /** The carry out of the top limb, times 5, still fits a word; what it carries on is below 64. */
  lemma WrapExact(g0: u32, c: u32, g1: u32) returns (f: u32, f0: u32)
    requires g0 < 0x400_0000 && c <= 0x2800_0180 && g1 < 0x400_0000
    ensures f == High26(Add32(g0, Mul32(c, 5))) < 0x40 && f0 == Low26(Add32(g0, Mul32(c, 5))) < 0x400_0000
    ensures g0 + 5 * c == f0 + 0x400_0000 * f && Add32(g1, f) == g1 + f
  {
    hide Low26;
    var w := Add32(g0, Mul32(c, 5));
    assert Mul32(c, 5) == 5 * c;
    assert w == g0 + 5 * c;
    f, f0 := High26(w), Low26(w);
  }

  /** h *= r modulo 2^130 - 5, leaving h partly carried (lines 124-157). */
  method MulReduce(h: array<u32>, r: array<u32>, s1: u32, s2: u32, s3: u32, s4: u32) returns (ghost k: nat)
    requires h.Length == 5 && r.Length == 5 && h != r && RBound(r[..])
    requires forall i :: 0 <= i < 5 ==> h[i] <= 0x800_0040
    requires s1 == 5 * r[1] && s2 == 5 * r[2] && s3 == 5 * r[3] && s4 == 5 * r[4]
    modifies h
    ensures HBound(h[..])
    ensures old(Value(h[..])) * Value(r[..]) == Value(h[..]) + 0x3_FFFFFFFF_FFFFFFFF_FFFFFFFF_FFFFFFFB * k
  {
    hide Dot, Carry, Rest, Low26, High26, Limb, Add32, Mul32, Add64;
    var d0 := Dot(h[0], r[0], h[1], s4, h[2], s3, h[3], s2, h[4], s1);
    var d1 := Dot(h[0], r[1], h[1], r[0], h[2], s4, h[3], s3, h[4], s2);
    var d2 := Dot(h[0], r[2], h[1], r[1], h[2], r[0], h[3], s4, h[4], s3);
    var d3 := Dot(h[0], r[3], h[1], r[2], h[2], r[1], h[3], r[0], h[4], s4);
    var d4 := Dot(h[0], r[4], h[1], r[3], h[2], r[2], h[3], r[1], h[4], r[0]);
    ghost var q := ProductColumns(h[..], r[..], s1, s2, s3, s4);
    ghost var e0, e1, e2, e3, e4 := d0, d1, d2, d3, d4;

    var c := Carry(d0);
    h[0] := Rest(d0);
    ghost var c0, g0 := CarryExact(d0);
    Add64Exact(d1, c);
    d1 := Add64(d1, c);
    c := Carry(d1);
    h[1] := Rest(d1);
    ghost var c1, g1 := CarryExact(d1);
    Add64Exact(d2, c);
    d2 := Add64(d2, c);
    c := Carry(d2);
    h[2] := Rest(d2);
    ghost var c2, g2 := CarryExact(d2);
    Add64Exact(d3, c);
    d3 := Add64(d3, c);
    c := Carry(d3);
    h[3] := Rest(d3);
    ghost var c3, g3 := CarryExact(d3);
    Add64Exact(d4, c);
    d4 := Add64(d4, c);
    c := Carry(d4);
    h[4] := Rest(d4);
    ghost var c4, g4 := CarryExact(d4);
    h[0] := Add32(h[0], Mul32(c, 5));
    c := High26(h[0]);
    h[0] := Low26(h[0]);
    h[1] := Add32(h[1], c);
    ghost var f, f0 := WrapExact(g0, c4, g1);
    ghost var f1 := Add32(g1, f);
    assert h[..] == [f0, f1, g2, g3, g4];
    CarryPass(e0, e1, e2, e3, e4, g0, g1, g2, g3, g4, c0, c1, c2, c3, c4, f, f0);
    k := q + c4;
  }

  /** What one block does to the accumulator, modulo P. */
  lemma StepMod(v: nat, n: nat, r: nat, w: nat, k: nat, rest: seq<nat>)
    requires (v + n) * r == w + 0x3_FFFFFFFF_FFFFFFFF_FFFFFFFF_FFFFFFFB * k
    ensures Horner(v, [n] + rest, r) % P == Horner(w, rest, r) % P
  {
    assert ([n] + rest)[1..] == rest;
    SameMod(w, k);
    HornerMod((v + n) * r, w, rest, r);
  }

  method Poly1305Blocks(h: array<u32>, r: array<u32>, data: seq<byte>, padBit: bool)
    requires h.Length == 5 && r.Length == 5 && h != r && HBound(h[..]) && RBound(r[..])
    modifies h
    ensures HBound(h[..])
    ensures Value(h[..]) % P == Horner(old(Value(h[..])), BlockValues(data, padBit), Value(r[..])) % P
  {
    hide Limbs, BlockValue, Horner;
    var s1 := Mul32(r[1], 5);
    var s2 := Mul32(r[2], 5);
    var s3 := Mul32(r[3], 5);
    var s4 := Mul32(r[4], 5);
    var rest := data;
    ghost var R := Value(r[..]);
    ghost var v0 := Value(h[..]);
    while |rest| >= 16
      invariant HBound(h[..]) && Value(r[..]) == R
      invariant Horner(Value(h[..]), BlockValues(rest, padBit), R) % P == Horner(v0, BlockValues(data, padBit), R) % P
    {
      ghost var v := Value(h[..]);
      AddBlock(h, rest[..16], padBit);
      ghost var k := MulReduce(h, r, s1, s2, s3, s4);
      StepMod(v, BlockValue(rest[..16], padBit), R, Value(h[..]), k, BlockValues(rest[16..], padBit));
      rest := rest[16..];
    }
    HornerEmpty(Value(h[..]), R);
  }

  lemma HornerEmpty(v: nat, r: nat)
    ensures Horner(v, [], r) == v
  {
  }

  // ---------- poly1305Finish

  /** Carries h completely (lines 168-182).  The last carry stays within h[1]: a carry out of h[4]
      can only come from h[1] having been too large, and then little is left of it. */
  method CarryFully(h: array<u32>)
    requires h.Length == 5 && HBound(h[..])
    modifies h
    ensures Carried(h[..])
    ensures Value(h[..]) % P == old(Value(h[..])) % P
  {
    ghost var x := h[..];
    assert x[0] < 0x400_0000 && x[1] < 0x400_0040 && x[2] < 0x400_0000 && x[3] < 0x400_0000 && x[4] < 0x400_0000;
    hide *;
    ghost var c1, h1 := WordCarry(x[1]);
    var c := High26(h[1]);
    h[1] := Low26(h[1]);
    h[2] := Add32(h[2], c);
    assert h[1] == h1 && h[2] == Add32(x[2], c1);
    Add32Exact(x[2], c1);
    ghost var c2, h2 := WordCarry(Add32(x[2], c1));
    c := High26(h[2]);
    h[2] := Low26(h[2]);
    h[3] := Add32(h[3], c);
    assert h[2] == h2 && h[3] == Add32(x[3], c2);
    Add32Exact(x[3], c2);
    ghost var c3, h3 := WordCarry(Add32(x[3], c2));
    c := High26(h[3]);
    h[3] := Low26(h[3]);
    h[4] := Add32(h[4], c);
    assert h[3] == h3 && h[4] == Add32(x[4], c3);
    Add32Exact(x[4], c3);
    ghost var c4, h4 := WordCarry(Add32(x[4], c3));
    c := High26(h[4]);
    h[4] := Low26(h[4]);
    h[0] := Add32(h[0], Mul32(c, 5));
    c := High26(h[0]);
    h[0] := Low26(h[0]);
    h[1] := Add32(h[1], c);
    ghost var f, f0 := WrapExact(x[0], c4, h1);
    ghost var g1 := Add32(h1, f);
    assert h[0] == f0 && h[1] == g1;
    assert h[2] == h2 && h[3] == h3 && h[4] == h4;
    assert h[..] == [f0, g1, h2, h3, h4];
    CarriedFrom(x, h1, h2, h3, h4, c1, c2, c3, c4, f, f0, g1);
  }

  lemma CarriedFrom(x: seq<u32>, h1: u32, h2: u32, h3: u32, h4: u32, c1: u32, c2: u32, c3: u32, c4: u32, f: u32,
    f0: u32, g1: u32)
    requires HBound(x) && h1 < 0x400_0000 && h2 < 0x400_0000 && h3 < 0x400_0000 && h4 < 0x400_0000 && f0 < 0x400_0000
    requires x[1] == h1 + 0x400_0000 * c1 && x[2] + c1 == h2 + 0x400_0000 * c2
    requires x[3] + c2 == h3 + 0x400_0000 * c3 && x[4] + c3 == h4 + 0x400_0000 * c4
    requires x[0] + 5 * c4 == f0 + 0x400_0000 * f && g1 == h1 + f
    ensures Carried([f0, g1, h2, h3, h4])
    ensures Value([f0, g1, h2, h3, h4]) % P == Value(x) % P
  {
    hide Limbs;
    CarryPass(x[0], x[1], x[2], x[3], x[4], x[0], h1, h2, h3, h4, 0, c1, c2, c3, c4, f, f0);
    SameMod(Limbs(f0, g1, h2, h3, h4), c4);
  }

  lemma WordCarry(x: u32) returns (c: u32, low: u32)
    ensures c == High26(x) && low == Low26(x) && x == low + 0x400_0000 * c && low < 0x400_0000
    ensures x < 0x800_0000 ==> c <= 1
  {
    c, low := High26(x), Low26(x);
  }

  /** `(h & ~mask) | (g & mask)` chooses between h and g. */
  lemma Select(h: u32, g: u32, mask: u32)
    ensures mask == 0 ==> Or(And(h, 0xFFFF_FFFF - mask), And(g, mask)) == h
    ensures mask == 0xFFFF_FFFF ==> Or(And(h, 0xFFFF_FFFF - mask), And(g, mask)) == g
  {
    assert And(g, 0) == 0 && And(h, 0) == 0 && Or(h, 0) == h && Or(0, g) == g;
    hide And, Or;
    AllOnes(h);
    AllOnes(g);
  }

  lemma AllOnes(x: u32)
    ensures And(x, 0xFFFF_FFFF) == x
  {
    Pow2Table();
    hide And, Pow2;
    AndLowMask(x, 32);
  }

  /** Subtracts P once if h is not below it (lines 184-209). */
  method SubtractOnce(h: array<u32>)
    requires h.Length == 5 && Carried(h[..])
    modifies h
    ensures Carried(h[..])
    ensures Value(h[..]) == old(Value(h[..])) % P
  {
    ghost var x := h[..];
    assert x[0] < 0x400_0000 && x[1] < 0x400_0000 && x[2] < 0x400_0000 && x[3] < 0x400_0000 && x[4] < 0x400_0000;
    hide *;
    Add32Exact(x[0], 5);
    ghost var c0, q0 := WordCarry(Add32(x[0], 5));
    Add32Exact(x[1], c0);
    ghost var c1, q1 := WordCarry(Add32(x[1], c0));
    Add32Exact(x[2], c1);
    ghost var c2, q2 := WordCarry(Add32(x[2], c1));
    Add32Exact(x[3], c2);
    ghost var c3, q3 := WordCarry(Add32(x[3], c2));
    Add32Exact(x[4], c3);
    TopBit(Add32(x[4], c3));

    var g0 := Add32(h[0], 5);
    var c := High26(g0);
    g0 := Low26(g0);
    var g1 := Add32(h[1], c);
    c := High26(g1);
    g1 := Low26(g1);
    var g2 := Add32(h[2], c);
    c := High26(g2);
    g2 := Low26(g2);
    var g3 := Add32(h[3], c);
    c := High26(g3);
    g3 := Low26(g3);
    var g4 := Sub32(Add32(h[4], c), 0x400_0000);

    var mask := Sub32(g4 / 0x8000_0000, 1);
    SelectLimbs(h, g0, g1, g2, g3, g4, mask);
    if Add32(x[4], c3) < 0x400_0000 {
      assert h[..] == x;
    } else {
      assert h[..] == [q0, q1, q2, q3, 0];
    }
    SubtractedFrom(x, c0, c1, c2, c3, q0, q1, q2, q3);
  }

  /** Replaces h by g where the mask is set (lines 199-209). */
  method SelectLimbs(h: array<u32>, q0: u32, q1: u32, q2: u32, q3: u32, q4: u32, m: u32)
    requires h.Length == 5
    modifies h
    ensures m == 0 ==> h[..] == old(h[..])
    ensures m == 0xFFFF_FFFF ==> h[..] == [q0, q1, q2, q3, q4]
  {
    hide And, Or;
    Select(h[0], q0, m);
    Select(h[1], q1, m);
    Select(h[2], q2, m);
    Select(h[3], q3, m);
    Select(h[4], q4, m);
    var mask := m;
    var g0 := And(q0, mask);
    var g1 := And(q1, mask);
    var g2 := And(q2, mask);
    var g3 := And(q3, mask);
    var g4 := And(q4, mask);
    mask := 0xFFFF_FFFF - mask;
    h[0] := Or(And(h[0], mask), g0);
    h[1] := Or(And(h[1], mask), g1);
    h[2] := Or(And(h[2], mask), g2);
    h[3] := Or(And(h[3], mask), g3);
    h[4] := Or(And(h[4], mask), g4);
  }

  lemma SubtractedFrom(x: seq<u32>, c0: u32, c1: u32, c2: u32, c3: u32, q0: u32, q1: u32, q2: u32, q3: u32)
    requires Carried(x) && c3 <= 1
    requires q0 < 0x400_0000 && q1 < 0x400_0000 && q2 < 0x400_0000 && q3 < 0x400_0000
    requires x[0] + 5 == q0 + 0x400_0000 * c0 && x[1] + c0 == q1 + 0x400_0000 * c1
    requires x[2] + c1 == q2 + 0x400_0000 * c2 && x[3] + c2 == q3 + 0x400_0000 * c3
    ensures Value(x) % P == Value(if x[4] + c3 < 0x400_0000 then x else [q0, q1, q2, q3, 0])
    ensures Carried([q0, q1, q2, q3, 0])
  {
    hide Limbs;
    CompareWithP(x[0], x[1], x[2], x[3], x[4], c0, c1, c2, c3, q0, q1, q2, q3);
  }

  /** The sign bit of `w - (1 << 26)` makes the mask all zeros or all ones. */
  lemma TopBit(w: u32)
    requires w <= 0x400_0000
    ensures w < 0x400_0000 ==> Sub32(Sub32(w, 0x400_0000) / 0x8000_0000, 1) == 0
    ensures w == 0x400_0000 ==> Sub32(w, 0x400_0000) == 0 && Sub32(0, 1) == 0xFFFF_FFFF
  {
    if w < 0x400_0000 {
      assert Sub32(w, 0x400_0000) == w + 0xFC00_0000;
    }
  }

  /** Adding 5 to a fully carried number carries out of the top limb exactly when it is at least P,
      and what is left is then the number reduced modulo P. */
  lemma CompareWithP(x0: nat, x1: nat, x2: nat, x3: nat, x4: nat, c0: nat, c1: nat, c2: nat, c3: nat,
                     q0: nat, q1: nat, q2: nat, q3: nat)
    requires x4 < 0x400_0000 && c3 <= 1
    requires q0 < 0x400_0000 && q1 < 0x400_0000 && q2 < 0x400_0000 && q3 < 0x400_0000
    requires x0 + 5 == q0 + 0x400_0000 * c0 && x1 + c0 == q1 + 0x400_0000 * c1
    requires x2 + c1 == q2 + 0x400_0000 * c2 && x3 + c2 == q3 + 0x400_0000 * c3
    ensures Limbs(x0, x1, x2, x3, x4) % P
         == if x4 + c3 < 0x400_0000 then Limbs(x0, x1, x2, x3, x4) else Limbs(q0, q1, q2, q3, 0)
  {
    var v, g := Limbs(x0, x1, x2, x3, x4), Limbs(q0, q1, q2, q3, 0);
    assert v + 5 == g + 0x100_0000_0000_0000_0000_0000_0000 * (x4 + c3);
    assert g < 0x100_0000_0000_0000_0000_0000_0000;
    if x4 + c3 < 0x400_0000 {
      ModUnique(v, P, 0, v);
    } else {
      ModUnique(v, P, 1, g);
    }
  }

  /** `low | (y << n)` on words, where the top q of y is shifted out. */
  lemma Pack(low: nat, x: nat, q: nat, n: nat, m: nat)
    requires (n == 26 && m == 0x400_0000) || (n == 20 && m == 0x10_0000) || (n == 14 && m == 0x4000)
      || (n == 8 && m == 0x100)
    requires low < m && x % m == 0 && low + x < 0x1_0000_0000
    ensures Or(low, (x + 0x1_0000_0000 * q) % 0x1_0000_0000) == low + x
  {
    hide Or, Pow2;
    ModUnique(x + 0x1_0000_0000 * q, 0x1_0000_0000, q, x);
    Pow2Table();
    OrDisjoint(low, x, n, m);
  }

  function Pack0(h0: u32, h1: u32): nat { Or(h0, h1 * 0x400_0000 % 0x1_0000_0000) }
  function Pack1(h1: u32, h2: u32): nat { Or(h1 / 0x40, h2 * 0x10_0000 % 0x1_0000_0000) }
  function Pack2(h2: u32, h3: u32): nat { Or(h2 / 0x1000, h3 * 0x4000 % 0x1_0000_0000) }
  function Pack3(h3: u32, h4: u32): nat { Or(h3 / 0x4_0000, h4 * 0x100 % 0x1_0000_0000) }

  /** Repacking five limbs into four words drops what lies above 2^128. */
  lemma PackExact(h0: u32, h1: u32, h2: u32, h3: u32, h4: u32)
    requires Carried([h0, h1, h2, h3, h4])
    ensures Pack0(h0, h1) < 0x1_0000_0000 && Pack1(h1, h2) < 0x1_0000_0000
    ensures Pack2(h2, h3) < 0x1_0000_0000 && Pack3(h3, h4) < 0x1_0000_0000
    ensures Limbs(h0, h1, h2, h3, h4) == Words(Pack0(h0, h1), Pack1(h1, h2), Pack2(h2, h3), Pack3(h3, h4))
                                         + 0x1_00000000_00000000_00000000_00000000 * (h4 / 0x100_0000)
  {
    hide Or;
    Pack(h0, 0x400_0000 * (h1 % 0x40), h1 / 0x40, 26, 0x400_0000);
    Pack(h1 / 0x40, 0x10_0000 * (h2 % 0x1000), h2 / 0x1000, 20, 0x10_0000);
    Pack(h2 / 0x1000, 0x4000 * (h3 % 0x4_0000), h3 / 0x4_0000, 14, 0x4000);
    Pack(h3 / 0x4_0000, 0x100 * (h4 % 0x100_0000), h4 / 0x100_0000, 8, 0x100);
  }

  /** Four 32-bit additions through a 64-bit accumulator add modulo 2^128. */
  lemma AddWords(t0: u32, t1: u32, t2: u32, t3: u32, n0: u32, n1: u32, n2: u32, n3: u32, f0: u64, f1: u64, f2: u64,
    f3: u64)
    requires f0 == t0 + n0 && f1 == t1 + n1 + f0 / 0x1_0000_0000
    requires f2 == t2 + n2 + f1 / 0x1_0000_0000 && f3 == t3 + n3 + f2 / 0x1_0000_0000
    ensures Words(t0, t1, t2, t3) + Words(n0, n1, n2, n3)
         == Words(f0 % 0x1_0000_0000, f1 % 0x1_0000_0000, f2 % 0x1_0000_0000, f3 % 0x1_0000_0000)
            + 0x1_00000000_00000000_00000000_00000000 * (f3 / 0x1_0000_0000)
  {
  }

  lemma SplitWord(t: u32)
    ensures Load32LE(t % 0x100, t / 0x100 % 0x100, t / 0x1_0000 % 0x100, t / 0x100_0000 % 0x100) == t
  {
    hide Load32LE;
    var a, b, c := t / 0x100, t / 0x1_0000, t / 0x100_0000;
    assert b == a / 0x100 && c == b / 0x100 < 0x100;
    assert t == t % 0x100 + 0x100 * (a % 0x100 + 0x100 * (b % 0x100 + 0x100 * c));
  }

  /** `mac[4i..4i+4]` as the source stores a word. */
  method StoreWord(mac: array<byte>, i: nat, t: u32)
    requires i + 4 <= mac.Length
    modifies mac
    ensures Load32LE(mac[i], mac[i + 1], mac[i + 2], mac[i + 3]) == t
    ensures forall j :: 0 <= j < mac.Length && !(i <= j < i + 4) ==> mac[j] == old(mac[j])
  {
    hide Load32LE;
    SplitWord(t);
    mac[i] := t % 0x100;
    mac[i + 1] := t / 0x100 % 0x100;
    mac[i + 2] := t / 0x1_0000 % 0x100;
    mac[i + 3] := t / 0x100_0000 % 0x100;
  }

  lemma TagValue(a: nat, s: nat, mac: seq<byte>, k: nat)
    requires |mac| == 16 && a + s == LE(mac) + TWO_128 * k
    ensures mac == LeBytes((a + s) % TWO_128, 16)
  {
    Pow2Large();
    hide LE, LeBytes, Pow2;
    LEBound(mac);
    ModUnique(a + s, TWO_128, k, LE(mac));
    LeBytesOfLE(mac);
  }

  method Poly1305Finish(mac: array<byte>, h: array<u32>, key: seq<byte>)
    requires mac.Length == 16 && h.Length == 5 && HBound(h[..]) && |key| == 32
    modifies mac, h
    ensures mac[..] == LeBytes((old(Value(h[..])) % P + KeyS(key)) % TWO_128, 16)
  {
    hide Limbs, Load32LE, LE, LeBytes, Pack0, Pack1, Pack2, Pack3, Words;
    ghost var v := Value(h[..]);
    CarryFully(h);
    SubtractOnce(h);
    PackExact(h[0], h[1], h[2], h[3], h[4]);
    var t0 := Pack0(h[0], h[1]);
    var t1 := Pack1(h[1], h[2]);
    var t2 := Pack2(h[2], h[3]);
    var t3 := Pack3(h[3], h[4]);
    ghost var q := h[4] / 0x100_0000;
    assert v % P == Words(t0, t1, t2, t3) + TWO_128 * q;

    ghost var k := StoreSum(mac, t0, t1, t2, t3, key);
    TagValue(v % P, KeyS(key), mac[..], q + k);
  }

  /** Adds s to the four words with carries and stores the sum (lines 216-249). */
  method StoreSum(mac: array<byte>, t0: u32, t1: u32, t2: u32, t3: u32, key: seq<byte>) returns (ghost k: nat)
    requires mac.Length == 16 && |key| == 32
    modifies mac
    ensures Words(t0, t1, t2, t3) + KeyS(key) == LE(mac[..]) + TWO_128 * k
  {
    hide Load32LE, LE, Words;
    var n0 := Load32LE(key[16], key[17], key[18], key[19]);
    var n1 := Load32LE(key[20], key[21], key[22], key[23]);
    var n2 := Load32LE(key[24], key[25], key[26], key[27]);
    var n3 := Load32LE(key[28], key[29], key[30], key[31]);

    var f0: u64 := t0 + n0;
    var f1: u64 := t1 + n1 + f0 / 0x1_0000_0000;
    var f2: u64 := t2 + n2 + f1 / 0x1_0000_0000;
    var f3: u64 := t3 + n3 + f2 / 0x1_0000_0000;
    AddWords(t0, t1, t2, t3, n0, n1, n2, n3, f0, f1, f2, f3);

    StoreWord(mac, 0, f0 % 0x1_0000_0000);
    StoreWord(mac, 4, f1 % 0x1_0000_0000);
    StoreWord(mac, 8, f2 % 0x1_0000_0000);
    StoreWord(mac, 12, f3 % 0x1_0000_0000);
    LE16(mac[..]);
    LE16(key[16..]);
    k := f3 / 0x1_0000_0000;
  }

  // ---------- poly1305Auth

  method Poly1305Auth(mac: array<byte>, msg: seq<byte>, key: seq<byte>)
    requires mac.Length == 16 && |key| == 32
    modifies mac
    ensures mac[..] == Mac(msg, key)
  {
    hide LE, LeBytes, And, Limbs, Horner, PowerSum, BlockValue, BlockValues, Coefficients;
    var r := new u32[5];
    var h := new u32[5];
    Poly1305Init(r, h, key);
    ghost var R := KeyR(key);
    var full := |msg| - |msg| % 16;
    ghost var front, back := BlockValues(msg[..full], true), [];
    HornerEmpty(0, R);
    BlockValuesEmpty(msg[..0]);
    if full > 0 {
      Poly1305Blocks(h, r, msg[..full], true);
    }
    ghost var v := Value(h[..]);
    HornerEmpty(v, R);
    CoefficientsSplit(msg, full);
    if |msg| % 16 != 0 {
      var rem := |msg| % 16;
      var tmp := msg[full..] + [1] + Zeros(15 - rem);
      Poly1305Blocks(h, r, tmp, false);
      back := BlockValues(tmp, false);
    }
    assert Coefficients(msg) == front + back;
    Accumulated(v, Value(h[..]), front, back, R);
    Poly1305Finish(mac, h, key);
  }

  /** Two runs of the loop, one after the other. */
  lemma Accumulated(v: nat, w: nat, front: seq<nat>, back: seq<nat>, r: nat)
    requires v % P == Horner(0, front, r) % P && w % P == Horner(v, back, r) % P
    ensures w % P == PowerSum(front + back, r) % P
  {
    hide Horner, PowerSum;
    HornerMod(v, Horner(0, front, r), back, r);
    HornerConcat(0, front, back, r);
    HornerIsPowerSum(0, front + back, r);
  }

  lemma BlockValuesEmpty(s: seq<byte>)
    requires s == []
    ensures BlockValues(s, true) == []
  {
  }

  /** The coefficients of a message are the values of its full blocks, then that of the padded rest. */
  lemma {:induction false} CoefficientsSplit(msg: seq<byte>, full: nat)
    requires full == |msg| - |msg| % 16
    ensures Coefficients(msg) == BlockValues(msg[..full], true)
         + (if full == |msg| then [] else BlockValues(msg[full..] + [1] + Zeros(15 - |msg| % 16), false))
    decreases |msg|
  {
    if |msg| < 16 {
      if msg != [] { ShortBlock(msg, msg[full..] + [1] + Zeros(15 - |msg|)); }
    } else {
      var rest := msg[16..];
      CoefficientsSplit(rest, full - 16);
      FullBlock(msg[..16]);
      assert msg[..full][..16] == msg[..16] && msg[..full][16..] == rest[..full - 16];
      assert msg[full..] == rest[full - 16..];
    }
  }

  lemma FullBlock(block: seq<byte>)
    requires |block| == 16
    ensures LE(block + [1]) == BlockValue(block, true)
  {
    LEConcat(block, [1]);
    Pow2Large();
    assert LE([1]) == 1;
  }

  lemma ShortBlock(msg: seq<byte>, tmp: seq<byte>)
    requires 0 < |msg| < 16 && tmp == msg + [1] + Zeros(15 - |msg|)
    ensures BlockValues(tmp, false) == [LE(msg + [1])]
  {
    assert LE(tmp) == LE(msg + [1]) by {
      hide LE;
      LEConcat(msg + [1], Zeros(15 - |msg|));
      LEZeros(15 - |msg|);
    }
    OneBlock(tmp);
  }

  lemma OneBlock(tmp: seq<byte>)
    requires |tmp| == 16
    ensures BlockValues(tmp, false) == [LE(tmp)]
  {
    hide LE;
    assert tmp[..16] == tmp && BlockValues(tmp[16..], false) == [];
  }
}
