/** HMAC of RFC 2104, section 2, and HKDF of RFC 5869, over SHA-256. */
module Hmac {
  import opened Bits
  import opened Bytes
  import opened Sha256

  /** The key brought to the block length: hashed if it is longer, then filled up with zeros. */
  function BlockKey(key: seq<byte>): (k0: seq<byte>)
    ensures |k0| == 64
  {
    var short := if |key| > 64 then Hash(key) else key;
    short + Zeros(64 - |short|)
  }

  function Filled(x: byte, n: nat): (s: seq<byte>)
    ensures |s| == n && forall i :: 0 <= i < n ==> s[i] == x
  {
    seq(n, _ => x)
  }

  /** H((K XOR opad) || H((K XOR ipad) || text)) */
  function Mac(key: seq<byte>, text: seq<byte>): (mac: seq<byte>)
    ensures |mac| == 32
  {
    var k0 := BlockKey(key);
    Hash(XorBytes(k0, Filled(0x5C, 64)) + Hash(XorBytes(k0, Filled(0x36, 64)) + text))
  }

  /** A key that fits a block may be padded with zeros; a longer key may be replaced by its hash. */
  lemma KeyPadding(key: seq<byte>, j: nat, text: seq<byte>)
    ensures |key| + j <= 64 ==> Mac(key + Zeros(j), text) == Mac(key, text)
    ensures |key| > 64 ==> Mac(key, text) == Mac(Hash(key), text)
  {
    hide Hash, XorBytes;
    if |key| + j <= 64 {
      assert BlockKey(key + Zeros(j)) == BlockKey(key);
    }
  }

  /** With the bytes 0x5C and 0x36 taken off the 64 bytes of the key, what is left in front of the two hashes. */
  predicate KeyPads(key: seq<byte>, outer: seq<byte>, inner: seq<byte>) {
    && |key| == 64 == |outer| == |inner|
    && forall i :: 0 <= i < 64 ==> XorByte(outer[i], key[i]) == 0x5C && XorByte(inner[i], key[i]) == 0x36
  }

  /** For a key of one block: the outer hash has the bytes 0x5C, the inner one the bytes 0x36 and the text. */
  lemma MacFromPads(key: seq<byte>, text: seq<byte>, outer: seq<byte>, inner: seq<byte>)
    requires KeyPads(key, outer, inner)
    ensures Mac(key, text) == Hash(outer + Hash(inner + text))
  {
    hide Hash, XorByte;
    assert BlockKey(key) == key;
    forall i | 0 <= i < 64 ensures XorByte(key[i], 0x5C) == outer[i] && XorByte(key[i], 0x36) == inner[i] {
      TakeOff(outer[i], key[i]);
      TakeOff(inner[i], key[i]);
    }
    assert XorBytes(key, Filled(0x5C, 64)) == outer && XorBytes(key, Filled(0x36, 64)) == inner;
  }

  lemma TakeOff(x: byte, k: byte)
    ensures XorByte(k, XorByte(x, k)) == x
  {
    XorComm(x, k);
    XorCancel(x, k);
  }

  // ---------- HKDF of RFC 5869

  function Octet(i: nat): byte {
    i % 0x100
  }

  /** Section 2.2, with the string of zeros that stands for a salt not provided. */
  function Extract(salt: seq<byte>, ikm: seq<byte>): (prk: seq<byte>)
    ensures |prk| == 32
  {
    Mac(if salt == [] then Zeros(32) else salt, ikm)
  }

  /** The salt is the key of the MAC, and the input keying material its text. */
  lemma ExtractFromPads(salt: seq<byte>, ikm: seq<byte>, outer: seq<byte>, inner: seq<byte>)
    requires KeyPads(salt, outer, inner)
    ensures Extract(salt, ikm) == Hash(outer + Hash(inner + ikm))
  {
    hide Hash, Mac;
    MacFromPads(salt, ikm, outer, inner);
  }

  /** T(i) of section 2.3.  The counter is a single octet: after 255 it starts again from 0. */
  function T(prk: seq<byte>, info: seq<byte>, i: nat): (t: seq<byte>)
    ensures |t| == if i == 0 then 0 else 32
  {
    if i == 0 then [] else Mac(prk, T(prk, info, i - 1) + info + [Octet(i)])
  }

  /** T(1) | T(2) | ... | T(n) */
  function Blocks(prk: seq<byte>, info: seq<byte>, n: nat): (s: seq<byte>)
    ensures |s| == 32 * n
  {
    if n == 0 then [] else Blocks(prk, info, n - 1) + T(prk, info, n)
  }

  /** The first len octets of the blocks. */
  function Output(prk: seq<byte>, info: seq<byte>, len: nat): (okm: seq<byte>)
    ensures |okm| == len
  {
    Blocks(prk, info, (len + 31) / 32)[..len]
  }

  // HKDF-Expand of section 2.3 as the standard writes it, for at most 255 blocks.

  function RfcT(prk: seq<byte>, info: seq<byte>, i: byte): seq<byte> {
    if i == 0 then [] else Mac(prk, RfcT(prk, info, i - 1) + info + [i])
  }

  function RfcBlocks(prk: seq<byte>, info: seq<byte>, n: byte): seq<byte> {
    if n == 0 then [] else RfcBlocks(prk, info, n - 1) + RfcT(prk, info, n)
  }

  lemma {:induction false} BlocksAreRfc(prk: seq<byte>, info: seq<byte>, n: byte)
    ensures T(prk, info, n) == RfcT(prk, info, n) && Blocks(prk, info, n) == RfcBlocks(prk, info, n)
  {
    hide Mac;
    if n == 0 {
    } else {
      BlocksAreRfc(prk, info, n - 1);
    }
  }

  /** Up to 255 blocks the counter does not wrap and the output is that of RFC 5869. */
  lemma OutputIsRfc(prk: seq<byte>, info: seq<byte>, len: nat)
    requires len <= 255 * 32
    ensures len <= |RfcBlocks(prk, info, (len + 31) / 32)|
    ensures Output(prk, info, len) == RfcBlocks(prk, info, (len + 31) / 32)[..len]
  {
    BlocksAreRfc(prk, info, (len + 31) / 32);
  }

  /** Every block counter is written as it is exactly when there are at most 255 blocks. */
  lemma CountersFit(len: nat)
    ensures (forall i: nat | 0 < i <= (len + 31) / 32 :: Octet(i) == i) <==> len <= 255 * 32
  {
    assert Octet(256) != 256;
  }

  /** Block 256 is computed with the octet 0, and block 257 with the octet 1 of the first block. */
  lemma CounterWraps(prk: seq<byte>, info: seq<byte>)
    ensures T(prk, info, 256) == Mac(prk, T(prk, info, 255) + info + [0])
    ensures T(prk, info, 257) == Mac(prk, T(prk, info, 256) + info + [1])
  {
    hide Mac;
    assert Octet(256) == 0 && Octet(257) == 1;
  }

  lemma {:induction false} BlocksPrefix(prk: seq<byte>, info: seq<byte>, m: nat, n: nat)
    requires m <= n
    ensures Blocks(prk, info, n)[..32 * m] == Blocks(prk, info, m)
  {
    hide T;
    if m == n {
    } else {
      BlocksPrefix(prk, info, m, n - 1);
      assert Blocks(prk, info, n)[..32 * m] == Blocks(prk, info, n - 1)[..32 * m];
    }
  }

  /** A shorter output is a prefix of a longer one. */
  lemma OutputPrefix(prk: seq<byte>, info: seq<byte>, short: nat, long: nat)
    requires short <= long
    ensures Output(prk, info, long)[..short] == Output(prk, info, short)
  {
    hide Blocks;
    BlocksPrefix(prk, info, (short + 31) / 32, (long + 31) / 32);
  }

  /** The salt of zeros is the same as no key at all. */
  lemma DefaultSalt(ikm: seq<byte>)
    ensures Extract([], ikm) == Mac([], ikm)
  {
    hide Mac;
    KeyPadding([], 32, ikm);
    assert [] + Zeros(32) == Zeros(32);
  }
}
