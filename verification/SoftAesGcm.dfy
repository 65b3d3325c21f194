/** AES-128-GCM as SoftAesGcm.cpp computes it in byte arrays, proved against module Gcm. */
module SoftAesGcm {
  import opened Bits
  import opened Bytes
  import opened Aead
  import opened Gcm
  import Aes = Aes128
  import Counter
  import Gf2
  import Soft = SoftAes128

  // ---------- gf128Mul: the shift

  /** `uint8_t((a >> 1) | (b << 7))` */
  function ShiftByte(a: byte, b: byte): (c: byte)
    ensures c == a / 2 + 0x80 * (b % 2)
  {
    ShiftByteExact(a, b);
    Or(a / 2, b * 0x80) % 0x100
  }

  lemma ShiftByteExact(a: byte, b: byte)
    ensures Or(a / 2, b * 0x80) % 0x100 == a / 2 + 0x80 * (b % 2)
  {
    assert Pow2(7) == 0x80;
    hide Or, Pow2;
    OrDisjoint(a / 2, b * 0x80, 7, 0x80);
    var x: nat, y: nat := a / 2, b;
    assert x + y * 0x80 == 0x100 * (y / 2) + (x + 0x80 * (y % 2));
    ModUnique(x + y * 0x80, 0x100, y / 2, x + 0x80 * (y % 2));
  }

  /** On coefficients, shifting right is doubling with the carry of the byte before. */
  lemma ReflectShift(a: byte, c: nat)
    requires c < 2
    ensures a / 2 + 0x80 * c < 0x100
    ensures Reflect(a / 2 + 0x80 * c) == 2 * Reflect(a) % 0x100 + c
    ensures Reflect(a) / 0x80 == a % 2
  {
    ReflectTop(a);
    var r := RevBits(a / 2, 7);
    RevTop7(a / 2, c);
    hide RevBits, Reflect;
    ModUnique(2 * Reflect(a), 0x100, a % 2, 2 * r);
    ReflectIs(a / 2 + 0x80 * c);
  }

  lemma RevTop7(b: nat, c: nat)
    requires b < 0x80 && c < 2
    ensures RevBits(b + 0x80 * c, 8) == 2 * RevBits(b, 7) + c
  {
    assert Pow2(7) == 0x80;
    RevTop(b, c, 7, b + 0x80 * c);
  }

  lemma ReflectIs(a: byte)
    ensures Reflect(a) == RevBits(a, 8)
  {
  }

  lemma ReflectTop(a: byte)
    ensures Reflect(a) == 0x80 * (a % 2) + RevBits(a / 2, 7) && RevBits(a / 2, 7) < 0x80
  {
    assert Pow2(7) == 0x80;
    hide RevBits;
    RevStep(a, a / 2, a % 2, 8);
  }

  /** The bit carried into byte j. */
  function CarryIn(t: seq<byte>, c: nat, j: nat): nat
    requires j <= |t|
  {
    if j == 0 then c else t[j - 1] / 0x80
  }

  /** Doubling a little-endian number byte by byte. */
  lemma {:induction false} LEDouble(t: seq<byte>, u: seq<byte>, c: nat)
    requires |u| == |t| && c < 2
    requires forall j :: 0 <= j < |t| ==> u[j] == 2 * (t[j] as int) % 0x100 + CarryIn(t, c, j)
    ensures LE(u) + Pow2(8 * |t|) * CarryIn(t, c, |t|) == 2 * LE(t) + c
  {
    if t == [] {
    } else {
      var t0: nat := t[0];
      forall j | 0 <= j < |t| - 1 ensures u[1..][j] == 2 * (t[1..][j] as int) % 0x100 + CarryIn(t[1..], t0 / 0x80, j) {
        assert u[j + 1] == 2 * (t[j + 1] as int) % 0x100 + CarryIn(t, c, j + 1);
      }
      LEDouble(t[1..], u[1..], t0 / 0x80);
      Pow2Byte(|t| - 1);
      MulAssoc(0x100, Pow2(8 * (|t| - 1)), CarryIn(t, c, |t|));
      assert u[0] == 2 * (t[0] as int) % 0x100 + CarryIn(t, c, 0);
      ModUnique(2 * t0, 0x100, t0 / 0x80, 2 * t0 - 0x100 * (t0 / 0x80));
      assert CarryIn(t[1..], t0 / 0x80, |t| - 1) == CarryIn(t, c, |t|);
    }
  }

  function Shifted(s: seq<byte>): (t: seq<byte>)
    ensures |t| == |s|
  {
    seq(|s|, j requires 0 <= j < |s| => ShiftByte(s[j], if j == 0 then 0 else s[j - 1]))
  }

  lemma PolyOfShifted(s: seq<byte>)
    requires |s| == 16
    ensures PolyOf(Shifted(s)) + 0x1_00000000_00000000_00000000_00000000 * ((s[15] as int) % 2) == 2 * PolyOf(s)
  {
    Pow2Large();
    hide LE, Reflect, ShiftByte, Pow2;
    var t, u := ReflectAll(s), ReflectAll(Shifted(s));
    forall j | 0 <= j < 16 ensures u[j] == 2 * (t[j] as int) % 0x100 + CarryIn(t, 0, j) {
      var c: nat := if j == 0 then 0 else (s[j - 1] as int) % 2;
      ReflectShift(s[j], c);
      if j != 0 { ReflectShift(s[j - 1], 0); }
    }
    ReflectShift(s[15], 0);
    LEDouble(t, u, 0);
  }

  // ---------- gf128Mul: the multiplier

  lemma PolyOfE1()
    ensures PolyOf([0xE1] + Zeros(15)) == 0x87
  {
    ReflectE1();
    ReflectZero();
    hide Reflect;
    var t := ReflectAll([0xE1] + Zeros(15));
    assert t == [0x87] + Zeros(15);
    assert t[1..] == Zeros(15);
    LEZeros(15);
  }

  lemma ReflectE1()
    ensures Reflect(0xE1) == 0x87
  {
    assert Pow2(8) == 0x100;
    RevInvolution(0xE1, 8);
    RevStep(0xE1, 0x70, 1, 8);
    RevStep(0x70, 0x38, 0, 7);
    RevStep(0x38, 0x1C, 0, 6);
    RevStep(0x1C, 0x0E, 0, 5);
    RevStep(0x0E, 0x07, 0, 4);
    RevStep(0x07, 0x03, 1, 3);
    RevStep(0x03, 0x01, 1, 2);
    RevStep(0x01, 0x00, 1, 1);
  }

  lemma ReflectZero()
    ensures Reflect(0) == 0
  {
    RevXor(0, 0, 8);
    XorSelf(RevBits(0, 8));
  }

  /** Shifting, and XORing 0xe1 into the first byte when a bit fell out, multiplies by x. */
  lemma MulByXIsStep(s: seq<byte>, t: seq<byte>)
    requires |s| == 16 && t == if s[15] % 2 == 1 then XorBytes(Shifted(s), [0xE1] + Zeros(15)) else Shifted(s)
    ensures Gf2.Modulus(POLY, 128) && PolyOf(s) < Pow2(128)
    ensures PolyOf(t) == Gf2.Step(PolyOf(s), 0, POLY, 128)
  {
    hide PolyOf, Shifted, Xor, Pow2;
    IsModulus();
    BlockOfPolyOf(s);
    BlockOfPolyOf(Shifted(s));
    PolyOfShifted(s);
    if s[15] % 2 == 1 {
      PolyOfE1();
      PolyOfXor(Shifted(s), [0xE1] + Zeros(15));
      XorBit2(1, 1);
      XorOfSums(PolyOf(Shifted(s)), 0x87, 1, 1, 128, 0x1_00000000_00000000_00000000_00000000);
    }
  }

  /** The shift, and the reduction when a bit left the last byte. */
  method MulByX(v: array<byte>)
    requires v.Length == 16
    modifies v
    ensures v[..] == if old(v[15]) % 2 == 1
      then XorBytes(Shifted(old(v[..])), [0xE1] + Zeros(15)) else Shifted(old(v[..]))
  {
    hide Shifted, XorByte;
    var carry := v[15] % 2;
    ShiftRight(v);
    if carry == 1 {
      XorNothing(v[..]);
      v[0] := XorByte(v[0], 0xE1);
    }
  }

  /** Shifts the whole block right by one bit, from the last byte to the first. */
  method ShiftRight(v: array<byte>)
    requires v.Length == 16
    modifies v
    ensures v[..] == Shifted(old(v[..]))
  {
    hide ShiftByte;
    ghost var s := v[..];
    var j := 15;
    while j > 0
      invariant 0 <= j <= 15
      invariant forall k :: 0 <= k <= j ==> v[k] == s[k]
      invariant forall k :: j < k < 16 ==> v[k] == ShiftByte(s[k], s[k - 1])
    {
      v[j] := ShiftByte(v[j], v[j - 1]);
      j := j - 1;
    }
    FirstByte(v[0]);
    v[0] := v[0] / 2;
  }

  lemma FirstByte(a: byte)
    ensures ShiftByte(a, 0) == a / 2
  {
  }

  lemma XorNothing(s: seq<byte>)
    ensures forall i :: 0 <= i < |s| ==> XorByte(s[i], 0) == s[i]
  {
  }

  /** XORs a block into dst. */
  method XorInto(dst: array<byte>, b: seq<byte>)
    requires dst.Length == 16 && |b| == 16
    modifies dst
    ensures dst[..] == XorBytes(old(dst[..]), b)
  {
    Soft.AddRoundKey(dst, b);
  }

  /** The polynomial still to be multiplied when bits 0..n of byte i and the bytes behind are left. */
  function Remaining(x: seq<byte>, i: nat, n: nat): nat
    requires i < |x|
  {
    Join(RevBits(x[i] % Pow2(n), n), PolyOf(x[i + 1..]), n)
  }

  lemma RemainingStart(x: seq<byte>, i: nat)
    requires i < |x|
    ensures Remaining(x, i, 8) == PolyOf(x[i..])
  {
    assert Pow2(8) == 0x100;
    hide RevBits, Pow2, Join;
    var t := ReflectAll(x[i..]);
    assert t[1..] == ReflectAll(x[i + 1..]);
    ModUnique(x[i], 0x100, 0, x[i]);
    ReflectIs(x[i]);
    JoinIsSum(Reflect(x[i]), PolyOf(x[i + 1..]), 8);
  }

  lemma RemainingEnd(x: seq<byte>, i: nat)
    requires i < |x|
    ensures Remaining(x, i, 0) == PolyOf(x[i + 1..])
  {
  }

  /** `x[i] & (1 << n)` is the next coefficient. */
  lemma RemainingStep(x: seq<byte>, i: nat, n: nat)
    requires i < |x| && n < 8
    ensures Remaining(x, i, n + 1) % 2 == (if And(x[i], Pow2(n)) != 0 then 1 else 0)
    ensures Remaining(x, i, n + 1) / 2 == Remaining(x, i, n)
  {
    hide RevBits, And, PolyOf, Pow2;
    var b: nat, q := x[i], PolyOf(x[i + 1..]);
    var low, high := RevBits(b % Pow2(n), n), RevBits(b % Pow2(n + 1), n + 1);
    var c := if And(b, Pow2(n)) != 0 then 1 else 0;
    TestBit(b, n);
    RevTop(b % Pow2(n), c, n, b % Pow2(n + 1));
    assert high == 2 * low + c && high / 2 == low && high % 2 == c;
    JoinHalves(high, q, n + 1);
  }

  /** Masking with a single bit tests it. */
  lemma {:induction false} TestBit(b: nat, n: nat)
    ensures b % Pow2(n + 1) == b % Pow2(n) + (if And(b, Pow2(n)) != 0 then Pow2(n) else 0)
    decreases n
  {
    if n == 0 {
      AndLowMask(b, 1);
    } else {
      TestBit(b / 2, n - 1);
      ModHalf(b, Pow2(n));
      ModHalf(b, Pow2(n - 1));
      AndHalves(b, Pow2(n));
    }
  }

  method Gf128Mul(output: array<byte>, x: seq<byte>, h: seq<byte>)
    requires output.Length == 16 && |x| == 16 && |h| == 16
    modifies output
    ensures output[..] == BlockTimes(x, h)
  {
    hide Gf2.Mul, Gf2.Step, Pow2, PolyOf, BlockOf, And, Xor, Remaining, RevBits, Shifted;
    IsModulus();
    var z := new byte[16](_ => 0);
    var v := new byte[16](i requires 0 <= i < 16 => h[i]);
    ghost var product := Times(PolyOf(x), PolyOf(h));
    assert z[..] == Zeros(16) && v[..] == h && x[0..] == x;
    PolyOfZeros();
    Gf2.XorZero(product);
    for i := 0 to 16
      invariant product == Xor(PolyOf(z[..]), Times(PolyOf(x[i..]), PolyOf(v[..])))
    {
      RemainingStart(x, i);
      var bit := 8;
      while bit > 0
        invariant 0 <= bit <= 8
        invariant product == Xor(PolyOf(z[..]), Times(Remaining(x, i, bit), PolyOf(v[..])))
      {
        bit := bit - 1;
        ghost var s, t := v[..], z[..];
        RemainingStep(x, i, bit);
        if And(x[i], Pow2(bit)) != 0 {
          XorInto(z, v[..]);
        }
        MulByX(v);
        MulByXIsStep(s, v[..]);
        MulTurn(product, Remaining(x, i, bit + 1), s, v[..], t, z[..]);
      }
      RemainingEnd(x, i);
    }
    TimesZero(PolyOf(v[..]));
    assert x[16..] == [];
    PolyOfEmpty();
    Gf2.XorZero(product);
    Gf2.XorZero(PolyOf(z[..]));
    BlockOfPolyOf(z[..]);
    Soft.Copy(z, output);
  }

  lemma PolyOfEmpty()
    ensures PolyOf([]) == 0
  {
  }

  /** One bit of the multiplier: z gains v when the coefficient is set, and v is multiplied by x. */
  lemma MulTurn(product: nat, r: nat, s: seq<byte>, v: seq<byte>, t: seq<byte>, z: seq<byte>)
    requires |s| == 16 && |v| == 16 && |t| == 16 && |z| == 16
    requires Gf2.Modulus(POLY, 128) && PolyOf(s) < Pow2(128) && PolyOf(v) == Gf2.Step(PolyOf(s), 0, POLY, 128)
    requires z == if r % 2 == 1 then XorBytes(t, s) else t
    requires product == Xor(PolyOf(t), Times(r, PolyOf(s)))
    ensures product == Xor(PolyOf(z), Times(r / 2, PolyOf(v)))
  {
    hide Gf2.Mul, Gf2.Step, PolyOf, Xor, Pow2;
    Gf2.MulTurn(r, PolyOf(s), POLY, 128);
    var rest := Times(r / 2, PolyOf(v));
    if r % 2 == 1 {
      PolyOfXor(t, s);
      XorAssoc(PolyOf(t), PolyOf(s), rest);
    } else {
      Gf2.XorZero(rest);
    }
  }

  // ---------- GHASH

  method GhashBlock(y: array<byte>, h: seq<byte>, block: seq<byte>)
    requires y.Length == 16 && |h| == 16 && |block| == 16
    modifies y
    ensures y[..] == BlockTimes(XorBytes(old(y[..]), block), h)
  {
    hide BlockTimes, XorBytes;
    XorInto(y, block);
    var t := new byte[16];
    Gf128Mul(t, y[..], h);
    Soft.Copy(t, y);
  }

  method GhashPadded(y: array<byte>, h: seq<byte>, data: seq<byte>)
    requires y.Length == 16 && |h| == 16
    modifies y
    ensures y[..] == Chain(old(y[..]), Padded(data), h)
  {
    hide BlockTimes, XorBytes, Chain;
    var off := 0;
    assert data[0..] == data;
    ChainEmpty(y[..], h);
    while off < |data|
      invariant off <= |data|
      invariant Chain(y[..], Padded(data[off..]), h) == Chain(old(y[..]), Padded(data), h)
    {
      var n := |data| - off;
      if n > 16 {
        n := 16;
      }
      var block := data[off..off + n] + Zeros(16 - n);
      PaddedStep(data[off..], n);
      assert data[off..][n..] == data[off + n..] && data[off..][..n] == data[off..off + n];
      ChainStep(y[..], block, Padded(data[off + n..]), h);
      GhashBlock(y, h, block);
      off := off + n;
    }
    ChainEmpty(y[..], h);
  }

  lemma PaddedStep(data: seq<byte>, n: nat)
    requires data != [] && n == if |data| > 16 then 16 else |data|
    ensures Padded(data) == [data[..n] + Zeros(16 - n)] + Padded(data[n..])
  {
    if |data| < 16 {
      ShortBlock(data, n);
    } else {
      FullBlock(data, n);
    }
  }

  lemma FullBlock(data: seq<byte>, n: nat)
    requires |data| >= 16 && n == 16
    ensures Padded(data) == [data[..n] + Zeros(16 - n)] + Padded(data[n..])
  {
    assert data[..16] + Zeros(0) == data[..16];
  }

  lemma ShortBlock(data: seq<byte>, n: nat)
    requires 0 < |data| < 16 && n == |data|
    ensures Padded(data) == [data[..n] + Zeros(16 - n)] + Padded(data[n..])
  {
    var rest := data[n..];
    assert data[..n] == data && rest == [];
    assert Padded(rest) == [];
  }

  lemma ChainStep(y: seq<byte>, x: seq<byte>, xs: seq<seq<byte>>, h: seq<byte>)
    requires |y| == 16 && |x| == 16 && forall i :: 0 <= i < |xs| ==> |xs[i]| == 16
    ensures Chain(y, [x] + xs, h) == Chain(BlockTimes(XorBytes(y, x), h), xs, h)
  {
    assert ([x] + xs)[1..] == xs;
  }

  lemma ChainEmpty(y: seq<byte>, h: seq<byte>)
    requires |y| == 16
    ensures Chain(y, [], h) == y && Padded([]) == []
  {
  }

  lemma {:induction false} ChainConcat(y: seq<byte>, xs: seq<seq<byte>>, zs: seq<seq<byte>>, h: seq<byte>)
    requires |y| == 16 && forall i :: 0 <= i < |xs| ==> |xs[i]| == 16
    requires forall i :: 0 <= i < |zs| ==> |zs[i]| == 16
    ensures Chain(y, xs + zs, h) == Chain(Chain(y, xs, h), zs, h)
    decreases |xs|
  {
    hide BlockTimes, XorBytes;
    if xs == [] {
      assert xs + zs == zs;
    } else {
      assert (xs + zs)[1..] == xs[1..] + zs;
      ChainConcat(BlockTimes(XorBytes(y, xs[0]), h), xs[1..], zs, h);
    }
  }

  // ---------- counters and the tag

  method IncCounter(ctr: array<byte>)
    requires ctr.Length == 16
    modifies ctr
    ensures ctr[..] == Inc(old(ctr[..]), 1)
  {
    hide BE, BeBytes;
    assert ctr[12..] == ctr[..][12..];
    Counter.Increment(ctr, 12);
    assert ctr[..] == ctr[..12] + ctr[12..];
  }

  /** Counting in steps. */
  lemma IncAgain(ctr: seq<byte>, n: nat)
    requires |ctr| == 16
    ensures Inc(Inc(ctr, n), 1) == Inc(ctr, n + 1)
  {
    var x := BE(ctr[12..]) + n;
    assert Inc(ctr, n)[12..] == BeBytes(x, 4) && Inc(ctr, n)[..12] == ctr[..12];
    hide BeBytes, BE;
    BEOfBeBytes(x, 4);
    BeBytesMod(x, 4);
  }

  /** The bytes of x + 1 depend on x modulo 256^n only. */
  lemma BeBytesMod(x: nat, n: nat)
    ensures BeBytes(x % Pow2(8 * n) + 1, n) == BeBytes(x + 1, n)
  {
    hide Pow2;
    BeBytesPeriod(x % Pow2(8 * n) + 1, x / Pow2(8 * n), n, x + 1);
  }

  lemma IncZero(ctr: seq<byte>)
    requires |ctr| == 16
    ensures Inc(ctr, 0) == ctr
  {
    BeBytesOfBE(ctr[12..]);
  }

  /** XORs the key stream over len bytes; the output may be the input buffer. */
  method Gctr(aes: Soft.BlockCipher, key: seq<byte>, ctr: array<byte>, input: array<byte>, output: array<byte>,
    len: nat)
    requires aes.Valid() && |key| == 16 && ctr.Length == 16
    requires len <= input.Length && len <= output.Length
    requires aes.rsbox !in {ctr, input, output} && ctr != input && ctr != output
    modifies aes, aes.rsbox, ctr, output
    ensures aes.Valid()
    ensures output[..len] == XorBytes(old(input[..len]), KeyStream(key, old(ctr[..]), len))
    ensures output[len..] == old(output[len..])
  {
    hide *;
    ghost var j, data, stream := ctr[..], input[..len], KeyStream(key, ctr[..], len);
    var ks := new byte[16];
    var off := 0;
    ghost var blocks := 0;
    IncZero(j);
    while off < len
      invariant off <= len && ctr[..] == Inc(j, blocks) && aes.Valid()
      invariant off == 16 * blocks || off == len
      invariant output[..off] == XorBytes(data, stream)[..off]
      invariant input[off..len] == data[off..]
      invariant output[len..] == old(output[len..])
    {
      IncAgain(j, blocks);
      IncCounter(ctr);
      aes.EncryptBlock(key, ctr[..], ks);
      var n := len - off;
      if n > 16 {
        n := 16;
      }
      StreamBlock(key, j, len, blocks, n);
      XorPiece(data, stream, ks[..], off, n);
      ghost var rest := output[off + n..];
      XorRun(input, output, off, n, ks[..], data, len);
      assert output[len..] == rest[len - off - n..];
      off := off + n;
      blocks := blocks + 1;
    }
  }

  lemma StreamBlock(key: seq<byte>, ctr: seq<byte>, len: nat, blocks: nat, n: nat)
    requires |key| == 16 && |ctr| == 16 && n <= 16 && 16 * blocks + n <= len
    ensures KeyStream(key, ctr, len)[16 * blocks..16 * blocks + n] == Aes.Cipher(key, Inc(ctr, blocks + 1))[..n]
  {
    hide Aes.Cipher, Inc;
  }

  method MakeJ0(iv: seq<byte>, j0: array<byte>)
    requires |iv| == 12 && j0.Length == 16
    modifies j0
    ensures j0[..] == J0(iv)
  {
    for i := 0 to 12
      invariant forall k :: 0 <= k < i ==> j0[k] == iv[k]
    {
      j0[i] := iv[i];
    }
    j0[12] := 0;
    j0[13] := 0;
    j0[14] := 0;
    j0[15] := 1;
  }

  /** Stores the eight bytes of a bit count, the lowest one at the place last. */
  method StoreLength(lenBlock: array<byte>, last: nat, bits: u64)
    requires lenBlock.Length == 16 && 7 <= last < 16
    modifies lenBlock
    ensures lenBlock[last - 7..last + 1] == BeBytes(bits, 8)
    ensures forall k :: 0 <= k < 16 && !(last - 7 <= k <= last) ==> lenBlock[k] == old(lenBlock[k])
  {
    hide BeBytes;
    BeBytesNone(bits);
    for i := 0 to 8
      invariant lenBlock[last + 1 - i..last + 1] == BeBytes(bits, i)
      invariant forall k :: 0 <= k < 16 && !(last + 1 - i <= k <= last) ==> lenBlock[k] == old(lenBlock[k])
    {
      ghost var tail := lenBlock[last + 1 - i..last + 1];
      BeBytesFront(bits, i);
      lenBlock[last - i] := bits / Pow2(8 * i) % 0x100;
      assert lenBlock[last - i..last + 1] == [lenBlock[last - i]] + tail;
    }
  }

  lemma {:induction false} BeBytesFront(x: nat, n: nat)
    ensures BeBytes(x, n + 1) == [x / Pow2(8 * n) % 0x100] + BeBytes(x, n)
    decreases n
  {
    if n == 0 {
    } else {
      BeBytesFront(x / 0x100, n - 1);
      Pow2Byte(n - 1);
      DivDiv(x, 0x100, Pow2(8 * (n - 1)));
    }
  }

  lemma DivDiv(x: nat, a: nat, b: nat)
    requires a != 0 && b != 0
    ensures a * b != 0 && x / (a * b) == x / a / b
  {
    var q, r := x / a / b, x / a % b;
    assert x / a == b * q + r;
    MulAssoc(a, b, q);
    MulMono(a, r, b - 1);
    ModUnique(x, a * b, q, a * r + x % a);
  }

  method MakeLengthBlock(aad: seq<byte>, ct: seq<byte>) returns (lenBlock: array<byte>)
    ensures fresh(lenBlock) && lenBlock.Length == 16 && lenBlock[..] == LengthBlock(aad, ct)
  {
    hide BeBytes;
    lenBlock := new byte[16](_ => 0);
    var aadBits := 8 * |aad| % 0x1_0000_0000_0000_0000;
    var ctBits := 8 * |ct| % 0x1_0000_0000_0000_0000;
    StoreLength(lenBlock, 7, aadBits);
    ghost var first := lenBlock[0..8];
    StoreLength(lenBlock, 15, ctBits);
    LengthMod(8 * |aad|);
    LengthMod(8 * |ct|);
    assert lenBlock[0..8] == first;
    assert lenBlock[..] == first + lenBlock[8..16];
  }

  method ComputeTag(aes: Soft.BlockCipher, key: seq<byte>, iv: seq<byte>, aad: seq<byte>, ct: seq<byte>,
    tag: array<byte>)
    requires aes.Valid() && |key| == 16 && |iv| == 12 && tag.Length == 16 && tag != aes.rsbox
    modifies aes, aes.rsbox, tag
    ensures aes.Valid()
    ensures tag[..] == Tag(key, iv, aad, ct)
  {
    hide Aes.Cipher, Chain, PolyOf, BlockOf, PowerSum, Padded, Hashed, Tag, J0, XorBytes, BeBytes, LengthBlock,
      BlockTimes;
    var h := new byte[16](_ => 0);
    assert h[..] == Zeros(16);
    aes.EncryptBlock(key, h[..], h);

    var y := GhashAll(h[..], aad, ct);
    var j0 := new byte[16];
    MakeJ0(iv, j0);
    var mask := new byte[16];
    aes.EncryptBlock(key, j0[..], mask);
    Soft.Copy(y, tag);
    TagParts(key, iv, aad, ct, y[..], mask[..]);
    XorInto(tag, mask[..]);
  }

  /** The chained calls over the AAD, the ciphertext and the length block. */
  method GhashAll(h: seq<byte>, aad: seq<byte>, ct: seq<byte>) returns (y: array<byte>)
    requires |h| == 16
    ensures fresh(y) && y.Length == 16
    ensures y[..] == BlockOf(PowerSum(Padded(aad) + Padded(ct) + [LengthBlock(aad, ct)], PolyOf(h)))
  {
    hide Chain, PolyOf, BlockOf, PowerSum, Padded, XorBytes, LengthBlock, BlockTimes;
    y := new byte[16](_ => 0);
    assert y[..] == Zeros(16);
    GhashPadded(y, h, aad);
    GhashPadded(y, h, ct);
    var lenBlock := MakeLengthBlock(aad, ct);
    GhashBlock(y, h, lenBlock[..]);
    ThreeParts(Padded(aad), Padded(ct), LengthBlock(aad, ct), h);
  }

  lemma TagParts(key: seq<byte>, iv: seq<byte>, aad: seq<byte>, ct: seq<byte>, y: seq<byte>, mask: seq<byte>)
    requires |key| == 16 && |iv| == 12 && mask == Aes.Cipher(key, J0(iv))
    requires y == BlockOf(PowerSum(Padded(aad) + Padded(ct) + [LengthBlock(aad, ct)],
      PolyOf(Aes.Cipher(key, Zeros(16)))))
    ensures Tag(key, iv, aad, ct) == XorBytes(y, mask)
  {
    hide Aes.Cipher, PolyOf, BlockOf, PowerSum, Padded, XorBytes, LengthBlock;
  }

  lemma LengthMod(bits: nat)
    ensures BeBytes(bits % 0x1_0000_0000_0000_0000, 8) == BeBytes(bits, 8)
  {
    Pow2Large();
    BeBytesPeriod(bits % 0x1_0000_0000_0000_0000, bits / 0x1_0000_0000_0000_0000, 8, bits);
  }

  /** The chained calls compute one GHASH of both padded parts and the length block. */
  lemma ThreeParts(a: seq<seq<byte>>, c: seq<seq<byte>>, lengths: seq<byte>, h: seq<byte>)
    requires forall i :: 0 <= i < |a| ==> |a[i]| == 16
    requires forall i :: 0 <= i < |c| ==> |c[i]| == 16
    requires |lengths| == 16
    ensures BlockTimes(XorBytes(Chain(Chain(Zeros(16), a, h), c, h), lengths), h)
         == BlockOf(PowerSum(a + c + [lengths], PolyOf(h)))
  {
    hide BlockTimes, XorBytes, PowerSum, PolyOf, BlockOf;
    ChainConcat(Zeros(16), a, c, h);
    ChainConcat(Zeros(16), a + c, [lengths], h);
    ChainStep(Chain(Zeros(16), a + c, h), lengths, [], h);
    assert [lengths] + [] == [lengths];
    ChainEmpty(BlockTimes(XorBytes(Chain(Zeros(16), a + c, h), lengths), h), h);
    GhashIsPowerSum(a + c + [lengths], h);
  }

  // ---------- SoftAesGcm::encrypt and decrypt

  method SoftEncrypt(aes: Soft.BlockCipher, key: seq<byte>, iv: seq<byte>, aad: seq<byte>,
                     input: array<byte>, output: array<byte>, len: nat, tag: array<byte>) returns (ok: bool)
    requires aes.Valid() && |key| == 16 && |iv| == 12 && tag.Length == 16
    requires len <= input.Length && len <= output.Length
    requires aes.rsbox !in {input, output, tag} && tag != output
    modifies aes, aes.rsbox, output, tag
    ensures aes.Valid() && ok
    ensures Sealed(output[..len], tag[..]) == Encrypt(key, iv, aad, old(input[..len]))
    ensures output[len..] == old(output[len..])
  {
    hide KeyStream, Tag;
    var ctr := new byte[16];
    MakeJ0(iv, ctr);
    if len > 0 {
      Gctr(aes, key, ctr, input, output, len);
    }
    ghost var ct := output[..len];
    ComputeTag(aes, key, iv, aad, output[..len], tag);
    assert output[..len] == ct;
    ok := true;
  }

  method SoftDecrypt(aes: Soft.BlockCipher, key: seq<byte>, iv: seq<byte>, aad: seq<byte>,
                     input: array<byte>, output: array<byte>, len: nat, tag: array<byte>) returns (ok: bool)
    requires aes.Valid() && |key| == 16 && |iv| == 12 && tag.Length == 16
    requires len <= input.Length && len <= output.Length
    requires aes.rsbox !in {input, output, tag}
    modifies aes, aes.rsbox, output
    ensures aes.Valid()
    ensures (if ok then Accepted(output[..len]) else Rejected) == Decrypt(key, iv, aad, old(input[..len]), old(tag[..]))
    ensures !ok ==> output[..] == old(output[..])
    ensures output[len..] == old(output[len..])
  {
    hide KeyStream, Tag;
    var expected := new byte[16];
    ComputeTag(aes, key, iv, aad, input[..len], expected);
    ok := TagsEqual(tag, expected);
    if !ok {
      return;
    }
    var ctr := new byte[16];
    MakeJ0(iv, ctr);
    if len > 0 {
      Gctr(aes, key, ctr, input, output, len);
    }
  }

  /** Sealing and opening in one and the same buffer gives the plaintext back. */
  method SealAndOpenInPlace(aes: Soft.BlockCipher, key: seq<byte>, iv: seq<byte>, aad: seq<byte>,
                            buffer: array<byte>, tag: array<byte>) returns (ok: bool)
    requires aes.Valid() && |key| == 16 && |iv| == 12 && tag.Length == 16
    requires aes.rsbox !in {buffer, tag} && tag != buffer
    modifies aes, aes.rsbox, buffer, tag
    ensures ok && buffer[..] == old(buffer[..])
  {
    hide Encrypt, Decrypt;
    ghost var pt := buffer[..];
    var len := buffer.Length;
    ok := SoftEncrypt(aes, key, iv, aad, buffer, buffer, len, tag);
    ghost var ct := buffer[..len];
    ok := SoftDecrypt(aes, key, iv, aad, buffer, buffer, len, tag);
    assert pt == old(buffer[..len]);
    DecryptEncrypt(key, iv, aad, pt, ct, tag[..]);
    assert buffer[..] == buffer[..len];
  }
}
