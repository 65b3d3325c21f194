/** The CBC and CTR loops of OnChipBackend.cpp, proved against module Modes.  The ECB peripheral is
    assumed to compute the AES cipher when a call succeeds; which calls succeed is a parameter. */
module OnChip {
  import opened Bits
  import opened Bytes
  import opened Aead
  import opened Modes
  import opened Status
  import Aes = Aes128
  import Counter
  import Soft = SoftAes128

  // ---------- blocks in arrays

  /** The XOR of two blocks goes to sixteen bytes of dst. */
  method XorBlock(dst: array<byte>, at: nat, a: seq<byte>, b: seq<byte>)
    requires at + 16 <= dst.Length && |a| == 16 && |b| == 16
    modifies dst
    ensures dst[..at] == old(dst[..at]) && dst[at + 16..] == old(dst[at + 16..])
    ensures dst[at..at + 16] == XorBytes(a, b)
  {
    hide XorByte;
    for i := 0 to 16
      invariant forall k :: 0 <= k < at || at + 16 <= k < dst.Length ==> dst[k] == old(dst[k])
      invariant forall k :: 0 <= k < i ==> dst[at + k] == XorByte(a[k], b[k])
    {
      dst[at + i] := XorByte(a[i], b[i]);
    }
  }

  method CopyBlock(dst: array<byte>, src: seq<byte>, at: nat)
    requires dst.Length == 16 && at + 16 <= |src|
    modifies dst
    ensures dst[..] == src[at..at + 16]
  {
    for i := 0 to 16
      invariant forall k :: 0 <= k < i ==> dst[k] == src[at + k]
    {
      dst[i] := src[at + i];
    }
  }

  /** NrfEcb::encrypt; nothing is known of the output block of a failed call. */
  method Ecb(works: bool, key: seq<byte>, x: seq<byte>, output: array<byte>, at: nat) returns (ok: bool)
    requires |key| == 16 && |x| == 16 && at + 16 <= output.Length
    modifies output
    ensures ok == works
    ensures ok ==> output[at..at + 16] == Aes.Cipher(key, x)
    ensures output[..at] == old(output[..at]) && output[at + 16..] == old(output[at + 16..])
  {
    hide Aes.Cipher;
    ok := works;
    if ok {
      var y := Aes.Cipher(key, x);
      for i := 0 to 16
        invariant forall k :: 0 <= k < at || at + 16 <= k < output.Length ==> output[k] == old(output[k])
        invariant forall k :: 0 <= k < i ==> output[at + k] == y[k]
      {
        output[at + i] := y[i];
      }
    }
  }

  /** How many of the first n ECB calls succeed before one fails. */
  function Served(ecb: nat -> bool, n: nat): (k: nat)
    ensures k <= n && (forall i: nat :: i < k ==> ecb(i)) && (k < n ==> !ecb(k))
  {
    if n == 0 then 0
    else if Served(ecb, n - 1) == n - 1 && ecb(n - 1) then n
    else Served(ecb, n - 1)
  }

  /** The first failing call is unique. */
  lemma ServedIs(ecb: nat -> bool, n: nat, k: nat)
    requires k <= n && (forall i: nat :: i < k ==> ecb(i)) && (k < n ==> !ecb(k))
    ensures Served(ecb, n) == k
  {
  }

  // ---------- CBC encryption

  /** The blocks before a failing call are encrypted; input and output may be the same array. */
  method AesCbcEncrypt(key: seq<byte>, iv: seq<byte>, input: array<byte>, output: array<byte>, len: nat,
      ecb: nat -> bool) returns (status: CryptoStatus)
    requires |key| == 16 && |iv| == 16 && len % 16 == 0 && len <= input.Length && len <= output.Length
    modifies output
    ensures status == if Served(ecb, len / 16) == len / 16 then Ok else InternalError
    ensures var n := Served(ecb, len / 16);
      output[..16 * n] == CbcEncrypt(key, iv, old(input[..len]), n)
    ensures output[len..] == old(output[len..])
  {
    hide Aes.Cipher, XorBytes, CbcEncrypt, CipherBlock, Served;
    ghost var data, tail := input[..len], output[len..];
    var prev := new byte[16];
    CopyBlock(prev, iv, 0);
    assert prev[..] == iv;
    var off := 0;
    ghost var j: nat := 0;
    CbcStart(key, iv, data);
    while off < len
      invariant off == 16 * j <= len && fresh(prev)
      invariant prev[..] == CipherBlock(key, iv, data, j)
      invariant output[..off] == CbcEncrypt(key, iv, data, j)
      invariant input[off..len] == data[off..] && output[len..] == tail
      invariant forall i: nat :: i < j ==> ecb(i)
    {
      CbcStep(key, iv, data, j);
      Suffix(input[..], data, off, len);
      var ok := EncryptNext(ecb(off / 16), key, input, output, off, len, prev);
      if !ok {
        ServedIs(ecb, len / 16, j);
        return InternalError;
      }
      off := off + 16;
      j := j + 1;
    }
    ServedIs(ecb, len / 16, j);
    status := Ok;
  }

  lemma Suffix(s: seq<byte>, data: seq<byte>, off: nat, len: nat)
    requires off + 16 <= len == |data| && len <= |s| && s[off..len] == data[off..]
    ensures s[off..off + 16] == data[off..off + 16] && s[off + 16..len] == data[off + 16..]
  {
    assert s[off..off + 16] == s[off..len][..16] && s[off + 16..len] == s[off..len][16..];
  }

  /** One turn of the loop: the XOR with the previous block, the ECB call, and the new block is kept for the next
      turn. */
  method EncryptNext(works: bool, key: seq<byte>, input: array<byte>, output: array<byte>, off: nat, len: nat,
      prev: array<byte>) returns (ok: bool)
    requires |key| == 16 && prev.Length == 16 && prev != input && prev != output
    requires off + 16 <= len <= input.Length && len <= output.Length
    modifies output, prev
    ensures ok == works
    ensures ok ==> prev[..] == Aes.Cipher(key, XorBytes(old(input[off..off + 16]), old(prev[..])))
    ensures ok ==> output[..off + 16] == old(output[..off]) + prev[..]
    ensures output[..off] == old(output[..off]) && output[len..] == old(output[len..])
    ensures input[off + 16..len] == old(input[off + 16..len])
  {
    hide Aes.Cipher, XorBytes;
    var x := new byte[16];
    XorBlock(x, 0, input[off..off + 16], prev[..]);
    assert x[..] == x[0..16];
    ghost var rest := output[off + 16..];
    ok := Ecb(works, key, x[..], output, off);
    assert output[len..] == rest[len - off - 16..];
    assert output[off + 16..len] == rest[..len - off - 16];
    if ok {
      CopyBlock(prev, output[..], off);
      assert output[..off + 16] == output[..off] + output[off..off + 16];
    }
  }

  lemma CbcStart(key: seq<byte>, iv: seq<byte>, data: seq<byte>)
    requires |key| == 16 && |iv| == 16
    ensures CipherBlock(key, iv, data, 0) == iv && CbcEncrypt(key, iv, data, 0) == []
  {
  }

  lemma CbcStep(key: seq<byte>, iv: seq<byte>, data: seq<byte>, j: nat)
    requires |key| == 16 && |iv| == 16 && 16 * j + 16 <= |data|
    ensures CipherBlock(key, iv, data, j + 1) == Aes.Cipher(key,
      XorBytes(Block(data, j + 1), CipherBlock(key, iv, data, j)))
    ensures CbcEncrypt(key, iv, data, j + 1) == CbcEncrypt(key, iv, data, j) + CipherBlock(key, iv, data, j + 1)
  {
  }

  // ---------- CBC decryption

  /** What decryption in place leaves in block j: it is chained to the block before it in the output. */
  function InPlaceBlock(key: seq<byte>, iv: seq<byte>, ct: seq<byte>, j: nat): (p: seq<byte>)
    requires |key| == 16 && |iv| == 16 && 16 * j <= |ct|
    ensures |p| == 16
  {
    if j == 0 then iv else XorBytes(Aes.InvCipher(key, Block(ct, j)), InPlaceBlock(key, iv, ct, j - 1))
  }

  function InPlace(key: seq<byte>, iv: seq<byte>, ct: seq<byte>, n: nat): (s: seq<byte>)
    requires |key| == 16 && |iv| == 16 && 16 * n <= |ct|
    ensures |s| == 16 * n
  {
    if n == 0 then [] else InPlace(key, iv, ct, n - 1) + InPlaceBlock(key, iv, ct, n)
  }

  /** In distinct arrays this is CBC decryption.  In one array the ciphertext block is overwritten
      before it is kept for the next turn. */
  method AesCbcDecrypt(aes: Soft.BlockCipher, key: seq<byte>, iv: seq<byte>, input: array<byte>, output: array<byte>,
      len: nat) returns (status: CryptoStatus)
    requires aes.Valid() && aes.rsbox !in {input, output}
    requires |key| == 16 && |iv| == 16 && len % 16 == 0 && len <= input.Length && len <= output.Length
    modifies aes, aes.rsbox, output
    ensures aes.Valid() && status == Ok
    ensures input != output ==> output[..len] == CbcDecrypt(key, iv, old(input[..len]), len / 16)
    ensures input == output ==> output[..len] == InPlace(key, iv, old(input[..len]), len / 16)
    ensures output[len..] == old(output[len..])
  {
    hide Aes.InvCipher, XorBytes, CbcDecrypt, PlainBlock, InPlace, InPlaceBlock, Previous, Last;
    ghost var data, tail := input[..len], output[len..];
    var prev := new byte[16];
    CopyBlock(prev, iv, 0);
    assert prev[..] == iv;
    var off := 0;
    ghost var j: nat := 0;
    DecryptStart(key, iv, data);
    while off < len
      invariant off == 16 * j <= len && fresh(prev) && aes.Valid()
      invariant prev[..] == if input == output then InPlaceBlock(key, iv, data, j) else Last(iv, data, j)
      invariant output[..off] == if input == output then InPlace(key, iv, data, j) else CbcDecrypt(key, iv, data, j)
      invariant input[off..len] == data[off..] && output[len..] == tail
    {
      DecryptStep(key, iv, data, j);
      Suffix(input[..], data, off, len);
      DecryptNext(aes, key, input, output, off, len, prev);
      off := off + 16;
      j := j + 1;
    }
    status := Ok;
  }

  /** C_j, with the initialisation vector for C_0. */
  function Last(iv: seq<byte>, ct: seq<byte>, j: nat): seq<byte>
    requires |iv| == 16 && 16 * j <= |ct|
  {
    if j == 0 then iv else Block(ct, j)
  }

  lemma DecryptStart(key: seq<byte>, iv: seq<byte>, data: seq<byte>)
    requires |key| == 16 && |iv| == 16
    ensures InPlaceBlock(key, iv, data, 0) == iv == Last(iv, data, 0)
    ensures InPlace(key, iv, data, 0) == [] == CbcDecrypt(key, iv, data, 0)
  {
  }

  lemma DecryptStep(key: seq<byte>, iv: seq<byte>, data: seq<byte>, j: nat)
    requires |key| == 16 && |iv| == 16 && 16 * j + 16 <= |data|
    ensures var d := Aes.InvCipher(key, data[16 * j..16 * j + 16]);
      && |Last(iv, data, j)| == 16
      && CbcDecrypt(key, iv, data, j + 1) == CbcDecrypt(key, iv, data, j) + XorBytes(d, Last(iv, data, j))
      && InPlaceBlock(key, iv, data, j + 1) == XorBytes(d, InPlaceBlock(key, iv, data, j))
      && InPlace(key, iv, data, j + 1) == InPlace(key, iv, data, j) + InPlaceBlock(key, iv, data, j + 1)
    ensures Last(iv, data, j + 1) == data[16 * j..16 * j + 16]
  {
    hide Aes.InvCipher, XorBytes;
    assert Previous(iv, data, j + 1) == Last(iv, data, j);
  }

  /** One turn of the loop.  The block kept for the next turn is read from the input after the output is written. */
  method DecryptNext(aes: Soft.BlockCipher, key: seq<byte>, input: array<byte>, output: array<byte>, off: nat, len: nat,
      prev: array<byte>)
    requires aes.Valid() && aes.rsbox !in {input, output, prev}
    requires |key| == 16 && prev.Length == 16 && prev != input && prev != output
    requires off + 16 <= len <= input.Length && len <= output.Length
    modifies aes, aes.rsbox, output, prev
    ensures aes.Valid()
    ensures output[off..off + 16] == XorBytes(Aes.InvCipher(key, old(input[off..off + 16])), old(prev[..]))
    ensures output[..off + 16] == old(output[..off]) + output[off..off + 16]
    ensures prev[..] == if input == output then output[off..off + 16] else old(input[off..off + 16])
    ensures output[len..] == old(output[len..])
    ensures input[off + 16..len] == old(input[off + 16..len])
  {
    hide Aes.InvCipher, XorBytes;
    var block := new byte[16];
    aes.DecryptBlock(key, input[off..off + 16], block);
    ghost var front, rest := output[..off], output[off + 16..];
    XorBlock(output, off, block[..], prev[..]);
    assert output[len..] == rest[len - off - 16..];
    assert output[off + 16..len] == rest[..len - off - 16];
    CopyBlock(prev, input[..], off);
    assert output[..off + 16] == output[..off] + output[off..off + 16];
  }

  // ---------- when decryption in place is right

  lemma {:induction false} InPlaceAt(key: seq<byte>, iv: seq<byte>, ct: seq<byte>, n: nat, j: nat)
    requires |key| == 16 && |iv| == 16 && 16 * n <= |ct| && 0 < j <= n
    ensures Block(InPlace(key, iv, ct, n), j) == InPlaceBlock(key, iv, ct, j)
  {
    hide InPlaceBlock;
    if j == n {
    } else {
      InPlaceAt(key, iv, ct, n - 1, j);
      assert Block(InPlace(key, iv, ct, n), j) == Block(InPlace(key, iv, ct, n - 1), j);
    }
  }

  /** Every plaintext block but the last is the same as its ciphertext block. */
  predicate FixedBlocks(key: seq<byte>, iv: seq<byte>, ct: seq<byte>, n: nat)
    requires |key| == 16 && |iv| == 16 && |ct| == 16 * n
  {
    forall j: nat | 0 < j < n :: PlainBlock(key, iv, ct, j) == Block(ct, j)
  }

  lemma {:induction false} InPlaceOfFixed(key: seq<byte>, iv: seq<byte>, ct: seq<byte>, n: nat, j: nat)
    requires |key| == 16 && |iv| == 16 && |ct| == 16 * n && 0 < j <= n
    requires forall i: nat | 0 < i < j :: PlainBlock(key, iv, ct, i) == Block(ct, i)
    ensures InPlaceBlock(key, iv, ct, j) == PlainBlock(key, iv, ct, j)
  {
    hide XorBytes, Aes.InvCipher, Block;
    if j > 1 {
      InPlaceOfFixed(key, iv, ct, n, j - 1);
    } else {
      assert InPlaceBlock(key, iv, ct, 0) == iv;
    }
  }

  lemma XorCancels(d: seq<byte>, a: seq<byte>, b: seq<byte>)
    requires |d| == |a| == |b| && XorBytes(d, a) == XorBytes(d, b)
    ensures a == b
  {
    hide Xor;
    forall i | 0 <= i < |a| ensures a[i] == b[i] {
      assert XorByte(d[i], a[i]) == XorBytes(d, a)[i] == XorByte(d[i], b[i]);
      XorComm(d[i], a[i]);
      XorComm(d[i], b[i]);
      XorCancel(a[i], d[i]);
      XorCancel(b[i], d[i]);
    }
  }

  /** For every single input: decryption in place is right exactly when the overwritten blocks do not change. */
  lemma InPlaceExact(key: seq<byte>, iv: seq<byte>, ct: seq<byte>, n: nat)
    requires |key| == 16 && |iv| == 16 && |ct| == 16 * n
    ensures InPlace(key, iv, ct, n) == CbcDecrypt(key, iv, ct, n) <==> FixedBlocks(key, iv, ct, n)
  {
    hide XorBytes, Aes.InvCipher, Block, InPlace, CbcDecrypt, PlainBlock, InPlaceBlock;
    if FixedBlocks(key, iv, ct, n) {
      forall j: nat | 0 < j <= n ensures Block(InPlace(key, iv, ct, n), j) == Block(CbcDecrypt(key, iv, ct, n), j) {
        InPlaceAt(key, iv, ct, n, j);
        CbcDecryptBlock(key, iv, ct, n, j);
        InPlaceOfFixed(key, iv, ct, n, j);
      }
      SameBlocks(InPlace(key, iv, ct, n), CbcDecrypt(key, iv, ct, n), n);
    }
    if InPlace(key, iv, ct, n) == CbcDecrypt(key, iv, ct, n) {
      forall j: nat | 0 < j < n ensures PlainBlock(key, iv, ct, j) == Block(ct, j) {
        FixedIfEqual(key, iv, ct, n, j);
      }
    }
  }

  lemma FixedIfEqual(key: seq<byte>, iv: seq<byte>, ct: seq<byte>, n: nat, j: nat)
    requires |key| == 16 && |iv| == 16 && |ct| == 16 * n && 0 < j < n
    requires InPlace(key, iv, ct, n) == CbcDecrypt(key, iv, ct, n)
    ensures PlainBlock(key, iv, ct, j) == Block(ct, j)
  {
    hide XorBytes, Aes.InvCipher, Block, InPlace, CbcDecrypt;
    InPlaceAt(key, iv, ct, n, j);
    InPlaceAt(key, iv, ct, n, j + 1);
    CbcDecryptBlock(key, iv, ct, n, j);
    CbcDecryptBlock(key, iv, ct, n, j + 1);
    XorCancels(Aes.InvCipher(key, Block(ct, j + 1)), InPlaceBlock(key, iv, ct, j), Block(ct, j));
  }

  ghost predicate AlwaysInPlace(key: seq<byte>, n: nat)
    requires |key| == 16
  {
    forall iv: seq<byte>, ct: seq<byte> | |iv| == 16 && |ct| == 16 * n ::
      InPlace(key, iv, ct, n) == CbcDecrypt(key, iv, ct, n)
  }

  /** One array will do for all data, whatever the key, exactly when there is at most one block. */
  lemma InPlaceNeedsOneBlock(key: seq<byte>, n: nat)
    requires |key| == 16
    ensures AlwaysInPlace(key, n) <==> n <= 1
  {
    hide InPlace, CbcDecrypt, FixedBlocks;
    if n <= 1 {
      forall iv: seq<byte>, ct: seq<byte> | |iv| == 16 && |ct| == 16 * n
        ensures InPlace(key, iv, ct, n) == CbcDecrypt(key, iv, ct, n)
      {
        NoneFixed(key, iv, ct, n);
        InPlaceExact(key, iv, ct, n);
      }
    } else {
      var ct := Zeros(16 * n);
      var iv := Unlucky(key, ct, n);
      InPlaceExact(key, iv, ct, n);
    }
  }

  lemma NoneFixed(key: seq<byte>, iv: seq<byte>, ct: seq<byte>, n: nat)
    requires |key| == 16 && |iv| == 16 && |ct| == 16 * n && n <= 1
    ensures FixedBlocks(key, iv, ct, n)
  {
  }

  /** Of two initialisation vectors, one changes the first block. */
  lemma Unlucky(key: seq<byte>, ct: seq<byte>, n: nat) returns (iv: seq<byte>)
    requires |key| == 16 && |ct| == 16 * n && n > 1
    ensures |iv| == 16 && !FixedBlocks(key, iv, ct, n)
  {
    hide XorBytes, Aes.InvCipher, Block;
    var other := Zeros(16)[0 := 1];
    iv := Zeros(16);
    assert iv[0] != other[0];
    if PlainBlock(key, iv, ct, 1) == Block(ct, 1) {
      if PlainBlock(key, other, ct, 1) == Block(ct, 1) {
        XorCancels(Aes.InvCipher(key, Block(ct, 1)), iv, other);
        assert false;
      }
      iv := other;
    }
    assert PlainBlock(key, iv, ct, 1) != Block(ct, 1);
  }

  // ---------- CTR

  /** Whatever comes before a failing ECB call is encrypted; input and output may be the same array. */
  method AesCtr(key: seq<byte>, iv: seq<byte>, input: array<byte>, output: array<byte>, len: nat,
      ecb: nat -> bool) returns (status: CryptoStatus, ghost done: nat)
    requires |key| == 16 && |iv| == 16 && len <= input.Length && len <= output.Length
    modifies output
    ensures done == if Served(ecb, (len + 15) / 16) == (len + 15) / 16 then len else 16 * Served(ecb, (len + 15) / 16)
    ensures done <= len && status == if done == len then Ok else InternalError
    ensures output[..done] == Ctr(key, iv, old(input[..len]))[..done]
    ensures output[done..] == old(output[done..])
  {
    hide Aes.Cipher, Modes.Advance, Served, KeyStream, XorBytes;
    ghost var data := input[..len];
    var ctr := new byte[16];
    CopyBlock(ctr, iv, 0);
    assert ctr[..] == iv;
    var ks := new byte[16];
    var off := 0;
    ghost var j: nat := 0;
    AdvanceNone(iv);
    while off < len
      invariant off <= len && ctr[..] == Modes.Advance(iv, j) && fresh(ctr) && fresh(ks)
      invariant off == 16 * j || (off == len && 16 * j < len + 16)
      invariant off == len ==> j == (len + 15) / 16
      invariant output[..off] == Ctr(key, iv, data)[..off]
      invariant input[off..len] == data[off..]
      invariant output[off..] == old(output[off..])
      invariant forall i: nat :: i < j ==> ecb(i)
    {
      ghost var o, p := output[..], input[..];
      var ok := Ecb(ecb(off / 16), key, ctr[..], ks, 0);
      assert output[..] == o && input[..] == p;
      if !ok {
        ServedIs(ecb, (len + 15) / 16, j);
        return InternalError, off;
      }
      assert ks[..] == ks[0..16];
      var n := len - off;
      if n > 16 {
        n := 16;
      }
      StreamBlock(key, iv, len, j, n);
      XorPiece(data, KeyStream(key, iv, len), ks[..], off, n);
      XorRun(input, output, off, n, ks[..], data, len);
      NextCounter(iv, j, ctr);
      off := off + n;
      j := j + 1;
    }
    ServedIs(ecb, (len + 15) / 16, j);
    status, done := Ok, len;
  }

  lemma StreamBlock(key: seq<byte>, iv: seq<byte>, len: nat, j: nat, n: nat)
    requires |key| == 16 && |iv| == 16 && n <= 16 && 16 * j + n <= len
    ensures KeyStream(key, iv, len)[16 * j..16 * j + n] == Aes.Cipher(key, Modes.Advance(iv, j))[..n]
  {
    hide Aes.Cipher, Modes.Advance;
  }

  method NextCounter(ghost iv: seq<byte>, ghost j: nat, ctr: array<byte>)
    requires |iv| == 16 && ctr.Length == 16 && ctr[..] == Modes.Advance(iv, j)
    modifies ctr
    ensures ctr[..] == Modes.Advance(iv, j + 1)
  {
    AdvanceTwice(iv, j, 1);
    hide BE, BeBytes;
    assert ctr[0..] == ctr[..];
    Counter.Increment(ctr, 0);
    assert ctr[0..] == ctr[..];
  }
}
