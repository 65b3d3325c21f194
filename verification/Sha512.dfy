/** SHA-512 and SHA-384 as FIPS 180-4 defines them: the recurrences of sections 6.4 and 6.5 on whole messages. */
module Sha512 {
  import opened Bits
  import opened Bytes
  import opened Word64
  import opened Padding

  // ---------- functions, section 4.1.3

  function Ch(x: bv64, y: bv64, z: bv64): bv64 {
    Xor64(And64(x, y), And64(Not64(x), z))
  }

  function Maj(x: bv64, y: bv64, z: bv64): bv64 {
    Xor64(Xor64(And64(x, y), And64(x, z)), And64(y, z))
  }

  function BigSigma0(x: bv64): bv64 { Xor64(Xor64(Rotr(x, 28), Rotr(x, 34)), Rotr(x, 39)) }
  function BigSigma1(x: bv64): bv64 { Xor64(Xor64(Rotr(x, 14), Rotr(x, 18)), Rotr(x, 41)) }
  function SmallSigma0(x: bv64): bv64 { Xor64(Xor64(Rotr(x, 1), Rotr(x, 8)), Shr(x, 7)) }
  function SmallSigma1(x: bv64): bv64 { Xor64(Xor64(Rotr(x, 19), Rotr(x, 61)), Shr(x, 6)) }

  // ---------- what the functions mean

  /** Where x has ones, the bits are those of y; where it has zeros, those of z. */
  lemma ChSelects(x: bv64, y: bv64, z: bv64)
    ensures Ch(x, y, z) & x == y & x && Ch(x, y, z) & !x == z & !x
  {
  }

  /** Where x and y agree, the bits are theirs; where they differ, z decides. */
  lemma MajSelects(x: bv64, y: bv64, z: bv64)
    ensures Maj(x, y, z) & !(x ^ y) == x & !(x ^ y) && Maj(x, y, z) & (x ^ y) == z & (x ^ y)
  {
  }

  // The sums are those of the word turned right, or shifted, by the distances of section 4.1.3.

  lemma BigSigma0Turns(x: bv64, p: bv64, q: bv64, r: bv64)
    requires p == x.RotateRight(28) && q == x.RotateRight(34) && r == x.RotateRight(39)
    ensures BigSigma0(x) == Xor64(Xor64(p, q), r)
  {
    assert p == Rotr(x, 28) && q == Rotr(x, 34) && r == Rotr(x, 39);
    hide Rotr, Shr, Xor64;
  }

  lemma BigSigma1Turns(x: bv64, p: bv64, q: bv64, r: bv64)
    requires p == x.RotateRight(14) && q == x.RotateRight(18) && r == x.RotateRight(41)
    ensures BigSigma1(x) == Xor64(Xor64(p, q), r)
  {
    assert p == Rotr(x, 14) && q == Rotr(x, 18) && r == Rotr(x, 41);
    hide Rotr, Shr, Xor64;
  }

  lemma SmallSigma0Turns(x: bv64, p: bv64, q: bv64, r: bv64)
    requires p == x.RotateRight(1) && q == x.RotateRight(8) && r == x >> 7
    ensures SmallSigma0(x) == Xor64(Xor64(p, q), r)
  {
    assert p == Rotr(x, 1) && q == Rotr(x, 8) && r == Shr(x, 7);
    hide Rotr, Shr, Xor64;
  }

  lemma SmallSigma1Turns(x: bv64, p: bv64, q: bv64, r: bv64)
    requires p == x.RotateRight(19) && q == x.RotateRight(61) && r == x >> 6
    ensures SmallSigma1(x) == Xor64(Xor64(p, q), r)
  {
    assert p == Rotr(x, 19) && q == Rotr(x, 61) && r == Shr(x, 6);
    hide Rotr, Shr, Xor64;
  }

  // The constants K, eight to a row.

  type row = seq<bv64>

  const K0: row := [
    0x428a2f98d728ae22, 0x7137449123ef65cd, 0xb5c0fbcfec4d3b2f, 0xe9b5dba58189dbbc,
    0x3956c25bf348b538, 0x59f111f1b605d019, 0x923f82a4af194f9b, 0xab1c5ed5da6d8118
  ]
  const K1: row := [
    0xd807aa98a3030242, 0x12835b0145706fbe, 0x243185be4ee4b28c, 0x550c7dc3d5ffb4e2,
    0x72be5d74f27b896f, 0x80deb1fe3b1696b1, 0x9bdc06a725c71235, 0xc19bf174cf692694
  ]
  const K2: row := [
    0xe49b69c19ef14ad2, 0xefbe4786384f25e3, 0x0fc19dc68b8cd5b5, 0x240ca1cc77ac9c65,
    0x2de92c6f592b0275, 0x4a7484aa6ea6e483, 0x5cb0a9dcbd41fbd4, 0x76f988da831153b5
  ]
  const K3: row := [
    0x983e5152ee66dfab, 0xa831c66d2db43210, 0xb00327c898fb213f, 0xbf597fc7beef0ee4,
    0xc6e00bf33da88fc2, 0xd5a79147930aa725, 0x06ca6351e003826f, 0x142929670a0e6e70
  ]
  const K4: row := [
    0x27b70a8546d22ffc, 0x2e1b21385c26c926, 0x4d2c6dfc5ac42aed, 0x53380d139d95b3df,
    0x650a73548baf63de, 0x766a0abb3c77b2a8, 0x81c2c92e47edaee6, 0x92722c851482353b
  ]
  const K5: row := [
    0xa2bfe8a14cf10364, 0xa81a664bbc423001, 0xc24b8b70d0f89791, 0xc76c51a30654be30,
    0xd192e819d6ef5218, 0xd69906245565a910, 0xf40e35855771202a, 0x106aa07032bbd1b8
  ]
  const K6: row := [
    0x19a4c116b8d2d0c8, 0x1e376c085141ab53, 0x2748774cdf8eeb99, 0x34b0bcb5e19b48a8,
    0x391c0cb3c5c95a63, 0x4ed8aa4ae3418acb, 0x5b9cca4f7763e373, 0x682e6ff3d6b2b8a3
  ]
  const K7: row := [
    0x748f82ee5defb2fc, 0x78a5636f43172f60, 0x84c87814a1f0ab72, 0x8cc702081a6439ec,
    0x90befffa23631e28, 0xa4506cebde82bde9, 0xbef9a3f7b2c67915, 0xc67178f2e372532b
  ]
  const K8: row := [
    0xca273eceea26619c, 0xd186b8c721c0c207, 0xeada7dd6cde0eb1e, 0xf57d4f7fee6ed178,
    0x06f067aa72176fba, 0x0a637dc5a2c898a6, 0x113f9804bef90dae, 0x1b710b35131c471b
  ]
  const K9: row := [
    0x28db77f523047d84, 0x32caab7b40c72493, 0x3c9ebe0a15c9bebc, 0x431d67c49c100d4c,
    0x4cc5d4becb3e42b6, 0x597f299cfc657e2a, 0x5fcb6fab3ad6faec, 0x6c44198c4a475817
  ]

  function KRow(r: nat): row {
    match r
    case 0 => K0
    case 1 => K1
    case 2 => K2
    case 3 => K3
    case 4 => K4
    case 5 => K5
    case 6 => K6
    case 7 => K7
    case 8 => K8
    case _ => K9
  }

  lemma KRowLength(r: nat)
    ensures |KRow(r)| == 8
  {
  }

  function K(t: nat): bv64 {
    KRowLength(t / 8);
    KRow(t / 8)[t % 8]
  }

  // ---------- the hash computation, sections 6.4.1 and 6.4.2

  /** The eight words of a hash value, or of the working variables a, ..., h. */
  datatype Vars = Vars(a: bv64, b: bv64, c: bv64, d: bv64, e: bv64, f: bv64, g: bv64, h: bv64)

  const INITIAL512 := Vars(
    0x6a09e667f3bcc908, 0xbb67ae8584caa73b, 0x3c6ef372fe94f82b, 0xa54ff53a5f1d36f1,
    0x510e527fade682d1, 0x9b05688c2b3e6c1f, 0x1f83d9abfb41bd6b, 0x5be0cd19137e2179)

  const INITIAL384 := Vars(
    0xcbbb9d5dc1059ed8, 0x629a292a367cd507, 0x9159015a3070dd17, 0x152fecd8f70e5939,
    0x67332667ffc00b31, 0x8eb44a8768581511, 0xdb0c2e0d64f98fa7, 0x47b5481dbefa4fa4)

  /** The big-endian word t of a block. */
  function BlockWord(block: seq<byte>, t: nat): (w: bv64)
    requires |block| == 128 && t < 16
  {
    BEBound(block[8 * t..8 * t + 8]);
    Pow2Large();
    ToWord(BE(block[8 * t..8 * t + 8]))
  }

  /** The message schedule. */
  function W(block: seq<byte>, t: nat): bv64
    requires |block| == 128
  {
    if t < 16 then BlockWord(block, t)
    else Add64(Add64(Add64(W(block, t - 16), SmallSigma0(W(block, t - 15))), W(block, t - 7)),
      SmallSigma1(W(block, t - 2)))
  }

  function Round(v: Vars, k: bv64, w: bv64): Vars {
    var t1 := Add64(Add64(Add64(Add64(v.h, BigSigma1(v.e)), Ch(v.e, v.f, v.g)), k), w);
    var t2 := Add64(BigSigma0(v.a), Maj(v.a, v.b, v.c));
    Vars(Add64(t1, t2), v.a, v.b, v.c, Add64(v.d, t1), v.e, v.f, v.g)
  }

  function Rounds(v: Vars, block: seq<byte>, t: nat): Vars
    requires |block| == 128 && t <= 80
    decreases t
  {
    if t == 0 then v else Round(Rounds(v, block, t - 1), K(t - 1), W(block, t - 1))
  }

  function Compress(v: Vars, block: seq<byte>): Vars
    requires |block| == 128
  {
    AddVars(v, Rounds(v, block, 80))
  }

  function AddVars(v: Vars, w: Vars): Vars {
    Vars(Add64(v.a, w.a), Add64(v.b, w.b), Add64(v.c, w.c), Add64(v.d, w.d),
         Add64(v.e, w.e), Add64(v.f, w.f), Add64(v.g, w.g), Add64(v.h, w.h))
  }

  /** The hash value after all blocks of the data, from an initial value on. */
  function Fold(init: Vars, data: seq<byte>): Vars
    requires |data| % 128 == 0
  {
    if data == [] then init else Compress(Fold(init, data[..|data| - 128]), data[|data| - 128..])
  }

  /** Words as big-endian bytes, one after the other. */
  function WordBytes(words: seq<bv64>): (s: seq<byte>)
    ensures |s| == 8 * |words|
  {
    if words == [] then [] else WordBytes(words[..|words| - 1]) + BeBytes(FromWord(words[|words| - 1]), 8)
  }

  function Serialise(v: Vars): (s: seq<byte>)
    ensures |s| == 64
  {
    WordBytes([v.a, v.b, v.c, v.d, v.e, v.f, v.g, v.h])
  }

  /** The hash value after all blocks of the padded message. */
  function Final(init: Vars, m: seq<byte>): Vars {
    PadLength(m, 8 * |m|, 128, 16);
    Fold(init, Pad(m, 128, 16))
  }

  function Hash512(m: seq<byte>): (digest: seq<byte>)
    ensures |digest| == 64
  {
    Serialise(Final(INITIAL512, m))
  }

  /** SHA-384 differs in the initial value and keeps six words; section 5.3.4 and 6.5. */
  function Hash384(m: seq<byte>): (digest: seq<byte>)
    ensures |digest| == 48
  {
    Serialise(Final(INITIAL384, m))[..48]
  }

  /** A SHA-384 digest is made of the first six words. */
  lemma Hash384Words(m: seq<byte>)
    ensures var v := Final(INITIAL384, m); Hash384(m) == WordBytes([v.a, v.b, v.c, v.d, v.e, v.f])
  {
    hide Final, Serialise, WordBytes;
    SerialiseFront(Final(INITIAL384, m));
  }

  lemma SerialiseFront(v: Vars)
    ensures Serialise(v)[..48] == WordBytes([v.a, v.b, v.c, v.d, v.e, v.f])
  {
    hide WordBytes;
    FrontWords(v.a, v.b, v.c, v.d, v.e, v.f, v.g, v.h);
  }

  lemma FrontWords(a: bv64, b: bv64, c: bv64, d: bv64, e: bv64, f: bv64, g: bv64, h: bv64)
    ensures WordBytes([a, b, c, d, e, f, g, h])[..48] == WordBytes([a, b, c, d, e, f])
  {
    hide *;
    var words := [a, b, c, d, e, f];
    LastTwo(a, b, c, d, e, f, g, h);
    WordBytesNext(words, g);
    WordBytesNext(words + [g], h);
  }

  lemma LastTwo<T>(a: T, b: T, c: T, d: T, e: T, f: T, g: T, h: T)
    ensures [a, b, c, d, e, f, g, h] == ([a, b, c, d, e, f] + [g]) + [h]
  {
  }

  lemma WordBytesNext(words: seq<bv64>, x: bv64)
    ensures WordBytes(words + [x]) == WordBytes(words) + BeBytes(FromWord(x), 8)
  {
    Last(words, x);
    hide BeBytes, FromWord;
  }

  lemma Last<T>(s: seq<T>, x: T)
    ensures (s + [x])[..|s|] == s && (s + [x])[|s|] == x
  {
  }
}
