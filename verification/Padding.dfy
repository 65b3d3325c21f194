/** The padding of FIPS 180-4, sections 5.1.1 and 5.1.2, in whole bytes: a 1 bit, the least number of
    zeros, and the length of the message in bits, filling a whole number of blocks. */
module Padding {
  import opened Bits
  import opened Bytes

  /** The block length and the length of the length field, both in bytes. */
  predicate Shape(block: nat, field: nat) {
    (block == 64 && field == 8) || (block == 128 && field == 16)
  }

  /** After n bytes, the 0x80 and k zeros, the length field ends a block. */
  predicate Fits(n: nat, k: nat, block: nat, field: nat)
    requires Shape(block, field)
  {
    (n + 1 + k) % block == block - field
  }

  /** The least k with n + 1 + k + field a multiple of the block length. */
  function ZeroCount(n: nat, block: nat, field: nat): (k: nat)
    requires Shape(block, field)
    ensures k < block
  {
    (2 * block - field - 1 - n % block) % block
  }

  function Pad(m: seq<byte>, block: nat, field: nat): seq<byte>
    requires Shape(block, field)
  {
    PadWith(m, 8 * |m|, block, field)
  }

  /** Padding with a given number in the length field. */
  function PadWith(m: seq<byte>, bits: nat, block: nat, field: nat): seq<byte>
    requires Shape(block, field)
  {
    m + [0x80] + Zeros(ZeroCount(|m|, block, field)) + BeBytes(bits, field)
  }

  lemma ZeroCountIsLeast(n: nat, block: nat, field: nat, k: nat)
    requires Shape(block, field)
    requires Fits(n, k, block, field) && forall j: nat :: j < k ==> !Fits(n, j, block, field)
    ensures k == ZeroCount(n, block, field)
  {
    var c := ZeroCount(n, block, field);
    ZeroCountFits(n, block, field);
    assert c >= k;
    if c > k {
      DifferentMod(n + 1 + k, n + 1 + c, block);
      assert false;
    }
  }

  lemma ZeroCountFits(n: nat, block: nat, field: nat)
    requires Shape(block, field)
    ensures Fits(n, ZeroCount(n, block, field), block, field)
  {
    var q, r := n / block, n % block;
    assert n == block * q + r;
    if r <= block - field - 1 {
      assert ZeroCount(n, block, field) == block - field - 1 - r by {
        ModUnique(2 * block - field - 1 - r, block, 1, block - field - 1 - r);
      }
      ModUnique(n + 1 + ZeroCount(n, block, field), block, q, block - field);
    } else {
      assert ZeroCount(n, block, field) == 2 * block - field - 1 - r by {
        ModUnique(2 * block - field - 1 - r, block, 0, 2 * block - field - 1 - r);
      }
      ModUnique(n + 1 + ZeroCount(n, block, field), block, q + 1, block - field);
    }
  }

  /** A padded message is a whole number of blocks. */
  lemma PadLength(m: seq<byte>, bits: nat, block: nat, field: nat)
    requires Shape(block, field)
    ensures |PadWith(m, bits, block, field)| % block == 0
  {
    ZeroCountFits(|m|, block, field);
    var x := |m| + 1 + ZeroCount(|m|, block, field);
    ModUnique(x + field, block, x / block + 1, 0);
  }

  /** Padding loses nothing: messages whose length fits the field are recovered from their padding. */
  lemma PadInjective(m: seq<byte>, n: seq<byte>, block: nat, field: nat)
    requires Shape(block, field)
    requires 8 * |m| < Pow2(8 * field) && 8 * |n| < Pow2(8 * field)
    requires Pad(m, block, field) == Pad(n, block, field)
    ensures m == n
  {
    hide Pad, BE, Pow2;
    var p := Pad(m, block, field);
    LengthOfPad(m, p, block, field);
    LengthOfPad(n, p, block, field);
    assert |m| == |n|;
  }

  lemma LengthOfPad(m: seq<byte>, p: seq<byte>, block: nat, field: nat)
    requires Shape(block, field)
    requires 8 * |m| < Pow2(8 * field) && p == Pad(m, block, field)
    ensures |m| <= |p| && p[..|m|] == m && field <= |p| && BE(p[|p| - field..]) == 8 * |m|
  {
    hide BE, BeBytes, Pow2, ZeroCount;
    assert p[|p| - field..] == BeBytes(8 * |m|, field);
    BEOfBeBytes(8 * |m|, field);
    ModUnique(8 * |m|, Pow2(8 * field), 0, 8 * |m|);
  }

  /** Stores the low byte of what is left of x, from the last place to the first. */
  method StoreBigEndian(x: nat, n: nat) returns (bytes: array<byte>)
    ensures fresh(bytes) && bytes.Length == n && bytes[..] == BeBytes(x, n)
  {
    hide BeBytes;
    bytes := new byte[n];
    var rest, i := x, n;
    while i > 0
      invariant 0 <= i <= n
      invariant BeBytes(x, n) == BeBytes(rest, i) + bytes[i..]
    {
      i := i - 1;
      BeBytesStep(rest, i);
      ghost var tail := bytes[i + 1..];
      bytes[i] := rest % 0x100;
      assert bytes[i..] == [bytes[i]] + tail;
      rest := rest / 0x100;
    }
    BeBytesNone(rest);
  }

  /** The bits in n bytes, as a 64-bit counter holds them. */
  function BitCount(n: nat): u64 {
    8 * n % 0x1_0000_0000_0000_0000
  }

  lemma BitCountAdds(m: nat, n: nat)
    ensures (BitCount(m) + BitCount(n)) % 0x1_0000_0000_0000_0000 == BitCount(m + n)
  {
  }

  /** Appending no more bytes than fill the buffer. */
  lemma Tail(m: seq<byte>, n: nat, add: seq<byte>, block: nat)
    requires (block == 64 || block == 128) && n == |m| % block && n + |add| <= block
    ensures (|m| - n) % block == 0 && (m + add)[..|m| - n] == m[..|m| - n]
    ensures (m + add)[|m| - n..] == m[|m| - n..] + add
    ensures |m + add| % block == if n + |add| == block then 0 else n + |add|
  {
    var q := |m| / block;
    ModUnique(|m| - n, block, q, 0);
    if n + |add| == block {
      ModUnique(|m| + |add|, block, q + 1, 0);
    } else {
      ModUnique(|m| + |add|, block, q, n + |add|);
    }
  }

  /** The copy loop of update and of finish: n bytes of src go to the buffer from the given place on. */
  method Append(buffer: array<byte>, start: nat, src: seq<byte>, n: nat)
    requires n <= |src| && start + n <= buffer.Length
    modifies buffer
    ensures buffer[..start + n] == old(buffer[..start]) + src[..n]
    ensures buffer[start + n..] == old(buffer[start + n..])
  {
    for i := 0 to n
      invariant buffer[..start + i] == old(buffer[..start]) + src[..i]
      invariant buffer[start + i..] == old(buffer[start + i..])
    {
      ghost var before := buffer[..start + i];
      buffer[start + i] := src[i];
      assert buffer[..start + i + 1] == before + [src[i]];
      assert src[..i + 1] == src[..i] + [src[i]];
    }
  }
}
