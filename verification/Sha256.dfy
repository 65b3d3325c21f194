/** SHA-256 as FIPS 180-4 defines it: the recurrences of section 6.2 on whole messages. */
module Sha256 {
  import opened Bits
  import opened Bytes
  import opened Word32
  import opened Padding

  // ---------- functions, section 4.1.2

  function Ch(x: bv32, y: bv32, z: bv32): bv32 {
    Xor32(And32(x, y), And32(Not32(x), z))
  }

  function Maj(x: bv32, y: bv32, z: bv32): bv32 {
    Xor32(Xor32(And32(x, y), And32(x, z)), And32(y, z))
  }

  function BigSigma0(x: bv32): bv32 { Xor32(Xor32(Rotr(x, 2), Rotr(x, 13)), Rotr(x, 22)) }
  function BigSigma1(x: bv32): bv32 { Xor32(Xor32(Rotr(x, 6), Rotr(x, 11)), Rotr(x, 25)) }
  function SmallSigma0(x: bv32): bv32 { Xor32(Xor32(Rotr(x, 7), Rotr(x, 18)), Shr(x, 3)) }
  function SmallSigma1(x: bv32): bv32 { Xor32(Xor32(Rotr(x, 17), Rotr(x, 19)), Shr(x, 10)) }

  // ---------- what the functions mean, bit by bit

  lemma ChBit(x: bv32, y: bv32, z: bv32, i: bv32)
    requires i < 32
    ensures Bit(Ch(x, y, z), i) == if Bit(x, i) then Bit(y, i) else Bit(z, i)
  {
    hide Bit, And32, Xor32, Not32;
    BitOfAnd(x, y, i);
    BitOfNot(x, i);
    BitOfAnd(Not32(x), z, i);
    BitOfXor(And32(x, y), And32(Not32(x), z), i);
  }

  /** The majority of three bits. */
  lemma MajBit(x: bv32, y: bv32, z: bv32, i: bv32)
    requires i < 32
    ensures Bit(Maj(x, y, z), i) == if Bit(x, i) == Bit(y, i) then Bit(x, i) else Bit(z, i)
  {
    hide Bit, And32, Xor32;
    BitOfAnd(x, y, i);
    BitOfAnd(x, z, i);
    BitOfAnd(y, z, i);
    BitOfXor(And32(x, y), And32(x, z), i);
    BitOfXor(Xor32(And32(x, y), And32(x, z)), And32(y, z), i);
  }

  predicate Odd(a: bool, b: bool, c: bool) {
    (a != b) != c
  }

  lemma Parity(a: bv32, b: bv32, c: bv32, i: bv32)
    requires i < 32
    ensures Bit(Xor32(Xor32(a, b), c), i) == Odd(Bit(a, i), Bit(b, i), Bit(c, i))
  {
    hide Bit, Xor32;
    BitOfXor(a, b, i);
    BitOfXor(Xor32(a, b), c, i);
  }

  lemma BigSigma0Bit(x: bv32, i: bv32)
    requires i < 32
    ensures Bit(BigSigma0(x), i) == Odd(Bit(x, (i + 2) & 31), Bit(x, (i + 13) & 31), Bit(x, (i + 22) & 31))
  {
    hide Bit, Rotr, Shr, Xor32, Odd;
    Parity(Rotr(x, 2), Rotr(x, 13), Rotr(x, 22), i);
    BitOfRotr(x, 2, i);
    BitOfRotr(x, 13, i);
    BitOfRotr(x, 22, i);
  }

  lemma BigSigma1Bit(x: bv32, i: bv32)
    requires i < 32
    ensures Bit(BigSigma1(x), i) == Odd(Bit(x, (i + 6) & 31), Bit(x, (i + 11) & 31), Bit(x, (i + 25) & 31))
  {
    hide Bit, Rotr, Shr, Xor32, Odd;
    Parity(Rotr(x, 6), Rotr(x, 11), Rotr(x, 25), i);
    BitOfRotr(x, 6, i);
    BitOfRotr(x, 11, i);
    BitOfRotr(x, 25, i);
  }

  lemma SmallSigma0Bit(x: bv32, i: bv32)
    requires i < 32
    ensures Bit(SmallSigma0(x), i) == Odd(Bit(x, (i + 7) & 31), Bit(x, (i + 18) & 31), (i + 3 < 32 && Bit(x, i + 3)))
  {
    hide Bit, Rotr, Shr, Xor32, Odd;
    Parity(Rotr(x, 7), Rotr(x, 18), Shr(x, 3), i);
    BitOfRotr(x, 7, i);
    BitOfRotr(x, 18, i);
    BitOfShr(x, 3, i);
  }

  lemma SmallSigma1Bit(x: bv32, i: bv32)
    requires i < 32
    ensures Bit(SmallSigma1(x), i) == Odd(Bit(x, (i + 17) & 31), Bit(x, (i + 19) & 31), (i + 10 < 32 && Bit(x, i + 10)))
  {
    hide Bit, Rotr, Shr, Xor32, Odd;
    Parity(Rotr(x, 17), Rotr(x, 19), Shr(x, 10), i);
    BitOfRotr(x, 17, i);
    BitOfRotr(x, 19, i);
    BitOfShr(x, 10, i);
  }

  // The constants K, eight to a row.

  type row = seq<bv32>

  const K0: row := [0x428a2f98, 0x71374491, 0xb5c0fbcf, 0xe9b5dba5, 0x3956c25b, 0x59f111f1, 0x923f82a4, 0xab1c5ed5]
  const K1: row := [0xd807aa98, 0x12835b01, 0x243185be, 0x550c7dc3, 0x72be5d74, 0x80deb1fe, 0x9bdc06a7, 0xc19bf174]
  const K2: row := [0xe49b69c1, 0xefbe4786, 0x0fc19dc6, 0x240ca1cc, 0x2de92c6f, 0x4a7484aa, 0x5cb0a9dc, 0x76f988da]
  const K3: row := [0x983e5152, 0xa831c66d, 0xb00327c8, 0xbf597fc7, 0xc6e00bf3, 0xd5a79147, 0x06ca6351, 0x14292967]
  const K4: row := [0x27b70a85, 0x2e1b2138, 0x4d2c6dfc, 0x53380d13, 0x650a7354, 0x766a0abb, 0x81c2c92e, 0x92722c85]
  const K5: row := [0xa2bfe8a1, 0xa81a664b, 0xc24b8b70, 0xc76c51a3, 0xd192e819, 0xd6990624, 0xf40e3585, 0x106aa070]
  const K6: row := [0x19a4c116, 0x1e376c08, 0x2748774c, 0x34b0bcb5, 0x391c0cb3, 0x4ed8aa4a, 0x5b9cca4f, 0x682e6ff3]
  const K7: row := [0x748f82ee, 0x78a5636f, 0x84c87814, 0x8cc70208, 0x90befffa, 0xa4506ceb, 0xbef9a3f7, 0xc67178f2]

  function KRow(r: nat): row {
    match r
    case 0 => K0
    case 1 => K1
    case 2 => K2
    case 3 => K3
    case 4 => K4
    case 5 => K5
    case 6 => K6
    case _ => K7
  }

  lemma KRowLength(r: nat)
    ensures |KRow(r)| == 8
  {
  }

  function K(t: nat): bv32 {
    KRowLength(t / 8);
    KRow(t / 8)[t % 8]
  }

  // ---------- the hash computation, sections 6.2.1 and 6.2.2

  /** The eight words of a hash value, or of the working variables a, ..., h. */
  datatype Vars = Vars(a: bv32, b: bv32, c: bv32, d: bv32, e: bv32, f: bv32, g: bv32, h: bv32)

  const INITIAL := Vars(0x6a09e667, 0xbb67ae85, 0x3c6ef372, 0xa54ff53a, 0x510e527f, 0x9b05688c, 0x1f83d9ab, 0x5be0cd19)

  /** The big-endian word t of a block. */
  function BlockWord(block: seq<byte>, t: nat): (w: bv32)
    requires |block| == 64 && t < 16
  {
    BEBound(block[4 * t..4 * t + 4]);
    Pow2Table();
    ToWord(BE(block[4 * t..4 * t + 4]))
  }

  /** The message schedule. */
  function W(block: seq<byte>, t: nat): bv32
    requires |block| == 64
  {
    if t < 16 then BlockWord(block, t)
    else Add32(Add32(Add32(W(block, t - 16), SmallSigma0(W(block, t - 15))), W(block, t - 7)),
      SmallSigma1(W(block, t - 2)))
  }

  function Round(v: Vars, k: bv32, w: bv32): Vars {
    var t1 := Add32(Add32(Add32(Add32(v.h, BigSigma1(v.e)), Ch(v.e, v.f, v.g)), k), w);
    var t2 := Add32(BigSigma0(v.a), Maj(v.a, v.b, v.c));
    Vars(Add32(t1, t2), v.a, v.b, v.c, Add32(v.d, t1), v.e, v.f, v.g)
  }

  function Rounds(v: Vars, block: seq<byte>, t: nat): Vars
    requires |block| == 64 && t <= 64
    decreases t
  {
    if t == 0 then v else Round(Rounds(v, block, t - 1), K(t - 1), W(block, t - 1))
  }

  function Compress(v: Vars, block: seq<byte>): Vars
    requires |block| == 64
  {
    AddVars(v, Rounds(v, block, 64))
  }

  function AddVars(v: Vars, w: Vars): Vars {
    Vars(Add32(v.a, w.a), Add32(v.b, w.b), Add32(v.c, w.c), Add32(v.d, w.d),
         Add32(v.e, w.e), Add32(v.f, w.f), Add32(v.g, w.g), Add32(v.h, w.h))
  }

  /** The hash value after all blocks of the data. */
  function Fold(data: seq<byte>): Vars
    requires |data| % 64 == 0
  {
    if data == [] then INITIAL else Compress(Fold(data[..|data| - 64]), data[|data| - 64..])
  }

  /** Words as big-endian bytes, one after the other. */
  function WordBytes(words: seq<bv32>): (s: seq<byte>)
    ensures |s| == 4 * |words|
  {
    if words == [] then [] else WordBytes(words[..|words| - 1]) + BeBytes(FromWord(words[|words| - 1]), 4)
  }

  function Serialise(v: Vars): (s: seq<byte>)
    ensures |s| == 32
  {
    WordBytes([v.a, v.b, v.c, v.d, v.e, v.f, v.g, v.h])
  }

  function Hash(m: seq<byte>): (digest: seq<byte>)
    ensures |digest| == 32
  {
    PadLength(m, 8 * |m|, 64, 8);
    Serialise(Fold(Pad(m, 64, 8)))
  }
}
