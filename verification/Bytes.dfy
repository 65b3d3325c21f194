/** Byte strings: their little- and big-endian values, serialisation, and word loads as C writes them. */
module Bytes {
  import opened Bits

  /** A pointer argument of the C++ interface: null, or the bytes it points to. */
  datatype Input = Null | Data(bytes: seq<byte>)

  /** The bytes an argument provides; a null pointer provides none. */
  function Content(data: Input): seq<byte> {
    if data.Null? then [] else data.bytes
  }

  function LE(s: seq<byte>): nat {
    if s == [] then 0 else s[0] + 0x100 * LE(s[1..])
  }

  function BE(s: seq<byte>): nat {
    if s == [] then 0 else 0x100 * BE(s[..|s| - 1]) + s[|s| - 1]
  }

  /** The n low bytes of x, least significant first. */
  function LeBytes(x: nat, n: nat): (s: seq<byte>)
    ensures |s| == n
  {
    if n == 0 then [] else [x % 0x100] + LeBytes(x / 0x100, n - 1)
  }

  /** The n low bytes of x, most significant first. */
  function BeBytes(x: nat, n: nat): (s: seq<byte>)
    ensures |s| == n
  {
    if n == 0 then [] else BeBytes(x / 0x100, n - 1) + [x % 0x100]
  }

  lemma BeBytesStep(x: nat, n: nat)
    ensures BeBytes(x, n + 1) == BeBytes(x / 0x100, n) + [x % 0x100]
  {
  }

  lemma BeBytesNone(x: nat)
    ensures BeBytes(x, 0) == []
  {
  }

  function Zeros(n: nat): (s: seq<byte>)
    ensures |s| == n && forall i :: 0 <= i < n ==> s[i] == 0
  {
    seq(n, _ => 0)
  }

  function XorByte(a: byte, b: byte): byte {
    assert Pow2(8) == 0x100;
    XorBound(a, b, 8);
    Xor(a, b)
  }

  function XorBytes(a: seq<byte>, b: seq<byte>): (s: seq<byte>)
    requires |a| <= |b|
    ensures |s| == |a|
    ensures forall i :: 0 <= i < |a| ==> s[i] == XorByte(a[i], b[i])
  {
    seq(|a|, i requires 0 <= i < |a| => XorByte(a[i], b[i]))
  }

  /** XORing twice with the same key stream restores the bytes. */
  lemma XorBytesTwice(a: seq<byte>, ks: seq<byte>)
    requires |a| <= |ks|
    ensures XorBytes(XorBytes(a, ks), ks) == a
  {
    forall i | 0 <= i < |a| ensures XorByte(XorByte(a[i], ks[i]), ks[i]) == a[i] {
      XorCancel(a[i], ks[i]);
    }
  }

  // ---------- values and serialisations are inverse to each other

  lemma {:induction false} LEBound(s: seq<byte>)
    ensures LE(s) < Pow2(8 * |s|)
  {
    if s == [] {
    } else {
      LEBound(s[1..]);
      Pow2Byte(|s| - 1);
    }
  }

  lemma Pow2Byte(n: nat)
    ensures Pow2(8 * (n + 1)) == 0x100 * Pow2(8 * n)
  {
    Pow2Add(8, 8 * n);
    assert Pow2(8) == 0x100;
  }

  lemma {:induction false} LEConcat(a: seq<byte>, b: seq<byte>)
    ensures LE(a + b) == LE(a) + Pow2(8 * |a|) * LE(b)
  {
    if a == [] {
      assert a + b == b;
    } else {
      LEConcat(a[1..], b);
      assert (a + b)[1..] == a[1..] + b;
      Pow2Byte(|a| - 1);
      MulAssoc(0x100, Pow2(8 * (|a| - 1)), LE(b));
    }
  }

  lemma MulAssoc(x: int, y: int, z: int)
    ensures x * (y * z) == (x * y) * z
  {
  }

  lemma {:induction false} LEOfLeBytes(x: nat, n: nat)
    ensures LE(LeBytes(x, n)) == x % Pow2(8 * n)
  {
    if n == 0 {
    } else {
      LEOfLeBytes(x / 0x100, n - 1);
      assert LeBytes(x, n)[1..] == LeBytes(x / 0x100, n - 1);
      ModBytes(x, n);
    }
  }

  /** Reduction modulo 256^n keeps the low byte and reduces the rest modulo 256^(n-1). */
  lemma ModBytes(x: nat, n: nat)
    requires n != 0
    ensures x % Pow2(8 * n) == x % 0x100 + 0x100 * (x / 0x100 % Pow2(8 * (n - 1)))
  {
    var p := Pow2(8 * (n - 1));
    Pow2Byte(n - 1);
    var q, r := x / 0x100 / p, x / 0x100 % p;
    assert x / 0x100 == p * q + r;
    MulAssoc(0x100, p, q);
    ModUnique(x, 0x100 * p, q, x % 0x100 + 0x100 * r);
  }

  lemma {:induction false} LeBytesOfLE(s: seq<byte>)
    ensures LeBytes(LE(s), |s|) == s
  {
    if s == [] {
    } else {
      LeBytesOfLE(s[1..]);
      ModUnique(LE(s), 0x100, LE(s[1..]), s[0]);
      assert s == [s[0]] + s[1..];
    }
  }

  lemma {:induction false} BEOfBeBytes(x: nat, n: nat)
    ensures BE(BeBytes(x, n)) == x % Pow2(8 * n)
  {
    if n == 0 {
    } else {
      BEOfBeBytes(x / 0x100, n - 1);
      assert BeBytes(x, n)[..n - 1] == BeBytes(x / 0x100, n - 1);
      ModBytes(x, n);
    }
  }

  lemma {:induction false} BeBytesOfBE(s: seq<byte>)
    ensures BeBytes(BE(s), |s|) == s
  {
    if s == [] {
    } else {
      var front := s[..|s| - 1];
      BeBytesOfBE(front);
      assert s == front + [s[|s| - 1]];
    }
  }

  lemma {:induction false} LEZeros(n: nat)
    ensures LE(Zeros(n)) == 0
  {
    if n == 0 {
    } else {
      LEZeros(n - 1);
      assert Zeros(n)[1..] == Zeros(n - 1);
    }
  }

  /** Adding a multiple of 256^n does not change the n low bytes. */
  lemma {:induction false} BeBytesPeriod(x: nat, q: nat, n: nat, y: nat)
    requires y == x + Pow2(8 * n) * q
    ensures BeBytes(y, n) == BeBytes(x, n)
  {
    if n == 0 {
    } else {
      Pow2Byte(n - 1);
      MulAssoc(0x100, Pow2(8 * (n - 1)), q);
      var t := Pow2(8 * (n - 1)) * q;
      assert y == x + 0x100 * t;
      assert y / 0x100 == x / 0x100 + t && y % 0x100 == x % 0x100;
      BeBytesPeriod(x / 0x100, q, n - 1, y / 0x100);
    }
  }

  // ---------- loads as the C++ source writes them

  /** `b0 | b1 << 8 | b2 << 16 | b3 << 24` is the little-endian word. */
  function Load32LE(b0: byte, b1: byte, b2: byte, b3: byte): (w: u32)
    ensures w == b0 + 0x100 * b1 + 0x1_0000 * b2 + 0x100_0000 * b3
  {
    Pow2Table();
    OrFour(b0, b1 * 0x100, b2 * 0x1_0000, b3 * 0x100_0000, 8, 16, 24, 0x100, 0x1_0000, 0x100_0000);
    Or(Or(Or(b0, b1 * 0x100), b2 * 0x1_0000), b3 * 0x100_0000)
  }

  /** `b0 << 24 | b1 << 16 | b2 << 8 | b3` is the big-endian word. */
  function Load32BE(b0: byte, b1: byte, b2: byte, b3: byte): (w: u32)
    ensures w == BE([b0, b1, b2, b3])
  {
    Load32BEExact(b0, b1, b2, b3);
    Or(Or(Or((b0 as int) * 0x100_0000, (b1 as int) * 0x1_0000), (b2 as int) * 0x100), b3)
  }

  lemma Load32BEExact(b0: byte, b1: byte, b2: byte, b3: byte)
    ensures Or(Or(Or((b0 as int) * 0x100_0000, (b1 as int) * 0x1_0000), (b2 as int) * 0x100), b3)
      == BE([b0, b1, b2, b3]) < 0x1_0000_0000
  {
    Pow2Table();
    assert BE([]) == 0;
    hide *;
    var b: seq<byte> := [b0, b1, b2, b3];
    assert b[..0] == [];
    LowHalf(b, 0, 0);
    OrZero((b0 as int) * 0x100_0000);
    BEBound(b);
  }

  /** Four bytes ORed in below x. */
  lemma LowHalf(b: seq<byte>, k: nat, x: nat)
    requires |b| == k + 4 && x == BE(b[..k]) * 0x1_0000_0000
    ensures Or(Or(Or(Or(x, (b[k] as int) * 0x100_0000), (b[k + 1] as int) * 0x1_0000), (b[k + 2] as int) * 0x100),
      b[k + 3]) == BE(b)
  {
    Pow2Table();
    hide *;
    OrNext(b, k, x, 24, 0x100_0000);
    var y := Or(x, (b[k] as int) * 0x100_0000);
    OrNext(b, k + 1, y, 16, 0x1_0000);
    y := Or(y, (b[k + 1] as int) * 0x1_0000);
    OrNext(b, k + 2, y, 8, 0x100);
    y := Or(y, (b[k + 2] as int) * 0x100);
    OrLast(b, k + 3, y);
  }

  lemma OrLast(b: seq<byte>, k: nat, x: nat)
    requires |b| == k + 1 && x == BE(b[..k]) * 0x100
    ensures Or(x, b[k]) == BE(b)
  {
    assert Pow2(0) == 1;
    hide *;
    OrNext(b, k, x, 0, 1);
    assert b[..k + 1] == b;
  }

  /** `b[0] << 56 | b[1] << 48 | ... | b[7]` is the big-endian word. */
  function Load64BE(b: seq<byte>): (w: u64)
    requires |b| == 8
    ensures w == BE(b)
  {
    Load64BEExact(b);
    Or(Or(Or(Or(Or(Or(Or((b[0] as int) * 0x100_0000_0000_0000, (b[1] as int) * 0x1_0000_0000_0000),
      (b[2] as int) * 0x100_0000_0000), (b[3] as int) * 0x1_0000_0000), (b[4] as int) * 0x100_0000),
        (b[5] as int) * 0x1_0000), (b[6] as int) * 0x100), b[7])
  }

  lemma Load64BEExact(b: seq<byte>)
    requires |b| == 8
    ensures Or(Or(Or(Or(Or(Or(Or((b[0] as int) * 0x100_0000_0000_0000, (b[1] as int) * 0x1_0000_0000_0000),
      (b[2] as int) * 0x100_0000_0000), (b[3] as int) * 0x1_0000_0000), (b[4] as int) * 0x100_0000),
        (b[5] as int) * 0x1_0000), (b[6] as int) * 0x100), b[7])
      == BE(b) < 0x1_0000_0000_0000_0000
  {
    hide *;
    Load64BEHalf(b);
    LowHalf(b, 4, Or(Or(Or((b[0] as int) * 0x100_0000_0000_0000, (b[1] as int) * 0x1_0000_0000_0000),
      (b[2] as int) * 0x100_0000_0000), (b[3] as int) * 0x1_0000_0000));
    Bound64(b);
  }

  lemma Bound64(b: seq<byte>)
    requires |b| == 8
    ensures BE(b) < 0x1_0000_0000_0000_0000
  {
    hide BE;
    BEBound(b);
    Pow2Large();
  }

  lemma Load64BEHalf(b: seq<byte>)
    requires |b| == 8
    ensures Or(Or(Or((b[0] as int) * 0x100_0000_0000_0000, (b[1] as int) * 0x1_0000_0000_0000),
      (b[2] as int) * 0x100_0000_0000), (b[3] as int) * 0x1_0000_0000)
      == BE(b[..4]) * 0x1_0000_0000
  {
    Pow2Table();
    Pow2Wide();
    assert BE([]) == 0 && b[..0] == [];
    hide *;
    OrNext(b, 0, 0, 56, 0x100_0000_0000_0000);
    OrZero((b[0] as int) * 0x100_0000_0000_0000);
    var x := (b[0] as int) * 0x100_0000_0000_0000;
    OrNext(b, 1, x, 48, 0x1_0000_0000_0000);
    x := Or(x, (b[1] as int) * 0x1_0000_0000_0000);
    OrNext(b, 2, x, 40, 0x100_0000_0000);
    x := Or(x, (b[2] as int) * 0x100_0000_0000);
    OrNext(b, 3, x, 32, 0x1_0000_0000);
  }

  lemma OrZero(x: nat)
    ensures Or(0, x) == x
  {
  }

  lemma Pow2Wide()
    ensures Pow2(40) == 0x100_0000_0000 && Pow2(48) == 0x1_0000_0000_0000 && Pow2(56) == 0x100_0000_0000_0000
  {
    Pow2Table();
    Pow2Add(32, 8);
    Pow2Add(32, 16);
    Pow2Add(32, 24);
  }

  /** One more byte ORed in, below the bytes that are there. */
  lemma OrNext(s: seq<byte>, k: nat, x: nat, n: nat, p: nat)
    requires k < |s| && p == Pow2(n) && x == BE(s[..k]) * (0x100 * p)
    ensures Or(x, (s[k] as int) * p) == BE(s[..k + 1]) * p
  {
    assert s[..k + 1] == s[..k] + [s[k]];
    BEAppend(s[..k], s[k]);
    OrAt(BE(s[..k]), s[k], x, n, p, 0x100 * p);
  }

  lemma OrAt(t: nat, b: nat, x: nat, n: nat, p: nat, q: nat)
    requires b < 0x100 && p == Pow2(n) && q == 0x100 * p && x == t * q
    ensures Or(x, b * p) == (0x100 * t + b) * p
  {
    hide *;
    assert Pow2(n + 8) == q by { Pow2Add(n, 8); Pow2Table(); }
    assert b * p < q by { MulMono(p, b + 1, 0x100); }
    ModUnique(x, q, t, 0);
    OrDisjoint(b * p, x, n + 8, q);
    assert t * q == (0x100 * t) * p by { MulAssoc(t, 0x100, p); }
    assert (0x100 * t + b) * p == (0x100 * t) * p + b * p;
  }

  lemma BEAppend(s: seq<byte>, b: byte)
    ensures BE(s + [b]) == 0x100 * BE(s) + b
  {
    assert (s + [b])[..|s|] == s;
  }

  lemma {:induction false} BEBound(s: seq<byte>)
    ensures BE(s) < Pow2(8 * |s|)
  {
    if s == [] {
    } else {
      BEBound(s[..|s| - 1]);
      Pow2Byte(|s| - 1);
    }
  }

  lemma {:induction false} BEZeros(n: nat)
    ensures BE(Zeros(n)) == 0
  {
    if n == 0 {
    } else {
      BEZeros(n - 1);
      assert Zeros(n)[..n - 1] == Zeros(n - 1);
    }
  }

  lemma {:induction false} BeBytesOfZero(n: nat)
    ensures BeBytes(0, n) == Zeros(n)
  {
    if n == 0 {
    } else {
      BeBytesOfZero(n - 1);
      assert Zeros(n) == Zeros(n - 1) + [0];
    }
  }

  // ---------- the values of short strings

  lemma BEOf4(b: seq<byte>)
    requires |b| == 4
    ensures BE(b) == 0x100_0000 * (b[0] as int) + 0x1_0000 * (b[1] as int) + 0x100 * (b[2] as int) + b[3]
  {
    BEPrefix(b, 3);
    BEPrefix(b, 2);
    BEPrefix(b, 1);
    BEPrefix(b, 0);
    assert b[..4] == b;
  }

  lemma BEOf8(b: seq<byte>)
    requires |b| == 8
    ensures BE(b) == 0x100_0000_0000_0000 * (b[0] as int) + 0x1_0000_0000_0000 * (b[1] as int)
      + 0x100_0000_0000 * (b[2] as int) + 0x1_0000_0000 * (b[3] as int) + 0x100_0000 * (b[4] as int)
      + 0x1_0000 * (b[5] as int) + 0x100 * (b[6] as int) + b[7]
  {
    hide BE;
    BEPrefix(b, 7);
    BEPrefix(b, 6);
    BEPrefix(b, 5);
    BEPrefix(b, 4);
    BEOf4(b[..4]);
    assert b[..8] == b;
  }

  lemma BEPrefix(b: seq<byte>, i: nat)
    requires i < |b|
    ensures BE(b[..i + 1]) == 0x100 * BE(b[..i]) + b[i] && BE(b[..0]) == 0
  {
    assert b[..i + 1][..i] == b[..i];
  }

  lemma LEOf4(b: seq<byte>)
    requires |b| == 4
    ensures LE(b) == b[0] + 0x100 * (b[1] as int) + 0x1_0000 * (b[2] as int) + 0x100_0000 * (b[3] as int)
  {
    LESuffix(b, 0);
    LESuffix(b, 1);
    LESuffix(b, 2);
    LESuffix(b, 3);
    assert b[0..] == b;
  }

  lemma LESuffix(b: seq<byte>, i: nat)
    requires i < |b|
    ensures LE(b[i..]) == b[i] + 0x100 * LE(b[i + 1..]) && LE(b[|b|..]) == 0
  {
    assert b[i..][1..] == b[i + 1..];
  }
}
