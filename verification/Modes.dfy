/** The CBC and CTR modes of NIST SP 800-38A, sections 6.2 and 6.5, with AES-128. */
module Modes {
  import opened Bits
  import opened Bytes
  import opened Aead
  import Aes = Aes128

  /** Block j of the data, counting from 1. */
  function Block(data: seq<byte>, j: nat): (b: seq<byte>)
    requires 0 < j && 16 * j <= |data|
    ensures |b| == 16
  {
    data[16 * (j - 1)..16 * j]
  }

  // ---------- CBC, section 6.2

  /** C_j, with the initialisation vector for C_0. */
  function CipherBlock(key: seq<byte>, iv: seq<byte>, pt: seq<byte>, j: nat): (c: seq<byte>)
    requires |key| == 16 && |iv| == 16 && 16 * j <= |pt|
    ensures |c| == 16
  {
    if j == 0 then iv else Aes.Cipher(key, XorBytes(Block(pt, j), CipherBlock(key, iv, pt, j - 1)))
  }

  /** C_1 C_2 ... C_n */
  function CbcEncrypt(key: seq<byte>, iv: seq<byte>, pt: seq<byte>, n: nat): (ct: seq<byte>)
    requires |key| == 16 && |iv| == 16 && 16 * n <= |pt|
    ensures |ct| == 16 * n
  {
    if n == 0 then [] else CbcEncrypt(key, iv, pt, n - 1) + CipherBlock(key, iv, pt, n)
  }

  function Previous(iv: seq<byte>, ct: seq<byte>, j: nat): (b: seq<byte>)
    requires |iv| == 16 && 0 < j && 16 * j <= |ct|
    ensures |b| == 16
  {
    if j == 1 then iv else Block(ct, j - 1)
  }

  /** P_j, from C_j and C_(j-1) alone. */
  function PlainBlock(key: seq<byte>, iv: seq<byte>, ct: seq<byte>, j: nat): (p: seq<byte>)
    requires |key| == 16 && |iv| == 16 && 0 < j && 16 * j <= |ct|
    ensures |p| == 16
  {
    XorBytes(Aes.InvCipher(key, Block(ct, j)), Previous(iv, ct, j))
  }

  function CbcDecrypt(key: seq<byte>, iv: seq<byte>, ct: seq<byte>, n: nat): (pt: seq<byte>)
    requires |key| == 16 && |iv| == 16 && 16 * n <= |ct|
    ensures |pt| == 16 * n
  {
    if n == 0 then [] else CbcDecrypt(key, iv, ct, n - 1) + PlainBlock(key, iv, ct, n)
  }

  lemma {:induction false} CbcEncryptBlock(key: seq<byte>, iv: seq<byte>, pt: seq<byte>, n: nat, j: nat)
    requires |key| == 16 && |iv| == 16 && 16 * n <= |pt| && 0 < j <= n
    ensures Block(CbcEncrypt(key, iv, pt, n), j) == CipherBlock(key, iv, pt, j)
  {
    hide CipherBlock;
    if j == n {
    } else {
      CbcEncryptBlock(key, iv, pt, n - 1, j);
      assert Block(CbcEncrypt(key, iv, pt, n), j) == Block(CbcEncrypt(key, iv, pt, n - 1), j);
    }
  }

  lemma {:induction false} CbcDecryptBlock(key: seq<byte>, iv: seq<byte>, ct: seq<byte>, n: nat, j: nat)
    requires |key| == 16 && |iv| == 16 && 16 * n <= |ct| && 0 < j <= n
    ensures Block(CbcDecrypt(key, iv, ct, n), j) == PlainBlock(key, iv, ct, j)
  {
    hide PlainBlock;
    if j == n {
    } else {
      CbcDecryptBlock(key, iv, ct, n - 1, j);
      assert Block(CbcDecrypt(key, iv, ct, n), j) == Block(CbcDecrypt(key, iv, ct, n - 1), j);
    }
  }

  /** Every ciphertext block is the encryption of the plaintext block and the ciphertext block before it. */
  lemma CbcEquation(key: seq<byte>, iv: seq<byte>, pt: seq<byte>, n: nat, j: nat)
    requires |key| == 16 && |iv| == 16 && 16 * n <= |pt| && 0 < j <= n
    ensures var ct := CbcEncrypt(key, iv, pt, n);
      Block(ct, j) == Aes.Cipher(key, XorBytes(Block(pt, j), if j == 1 then iv else Block(ct, j - 1)))
  {
    hide CbcEncrypt, Block, XorBytes, Aes.Cipher;
    CbcEncryptBlock(key, iv, pt, n, j);
    if j > 1 {
      CbcEncryptBlock(key, iv, pt, n, j - 1);
    }
  }

  /** Data of whole blocks are equal when their blocks are. */
  lemma SameBlocks(a: seq<byte>, b: seq<byte>, n: nat)
    requires |a| == 16 * n == |b| && forall j: nat | 0 < j <= n :: Block(a, j) == Block(b, j)
    ensures a == b
  {
    forall i | 0 <= i < |a| ensures a[i] == b[i] {
      var j := i / 16 + 1;
      assert a[i] == Block(a, j)[i % 16] && b[i] == Block(b, j)[i % 16];
    }
  }

  /** Every whole-block message is restored, and every whole-block ciphertext decrypts to what encrypts to it. */
  lemma CbcRoundTrip(key: seq<byte>, iv: seq<byte>, data: seq<byte>, n: nat)
    requires |key| == 16 && |iv| == 16 && |data| == 16 * n
    ensures CbcDecrypt(key, iv, CbcEncrypt(key, iv, data, n), n) == data
    ensures CbcEncrypt(key, iv, CbcDecrypt(key, iv, data, n), n) == data
  {
    hide CbcEncrypt, CbcDecrypt, CipherBlock, PlainBlock, Block;
    var ct, pt := CbcEncrypt(key, iv, data, n), CbcDecrypt(key, iv, data, n);
    forall j: nat | 0 < j <= n ensures Block(CbcDecrypt(key, iv, ct, n), j) == Block(data, j) {
      CbcDecryptBlock(key, iv, ct, n, j);
      PlainOfCipher(key, iv, data, ct, n, j);
    }
    SameBlocks(CbcDecrypt(key, iv, ct, n), data, n);
    forall j: nat | 0 < j <= n ensures Block(CbcEncrypt(key, iv, pt, n), j) == Block(data, j) {
      CbcEncryptBlock(key, iv, pt, n, j);
      CipherOfPlain(key, iv, data, pt, n, j);
    }
    SameBlocks(CbcEncrypt(key, iv, pt, n), data, n);
  }

  lemma PlainOfCipher(key: seq<byte>, iv: seq<byte>, pt: seq<byte>, ct: seq<byte>, n: nat, j: nat)
    requires |key| == 16 && |iv| == 16 && |pt| == 16 * n && ct == CbcEncrypt(key, iv, pt, n) && 0 < j <= n
    ensures PlainBlock(key, iv, ct, j) == Block(pt, j)
  {
    hide CbcEncrypt, Block, XorBytes, Aes.Cipher, Aes.InvCipher;
    var prev := CipherBlock(key, iv, pt, j - 1);
    CbcEncryptBlock(key, iv, pt, n, j);
    if j > 1 {
      CbcEncryptBlock(key, iv, pt, n, j - 1);
    }
    assert Previous(iv, ct, j) == prev;
    Aes.DecryptUndoesEncrypt(key, XorBytes(Block(pt, j), prev));
    XorBytesTwice(Block(pt, j), prev);
  }

  lemma {:induction false} CipherOfPlain(key: seq<byte>, iv: seq<byte>, ct: seq<byte>, pt: seq<byte>, n: nat, j: nat)
    requires |key| == 16 && |iv| == 16 && |ct| == 16 * n && pt == CbcDecrypt(key, iv, ct, n) && 0 < j <= n
    ensures CipherBlock(key, iv, pt, j) == Block(ct, j)
  {
    hide CbcDecrypt, Block, XorBytes, Aes.Cipher, Aes.InvCipher;
    if j <= 1 {
    } else {
      CipherOfPlain(key, iv, ct, pt, n, j - 1);
    }
    var prev := CipherBlock(key, iv, pt, j - 1);
    assert prev == Previous(iv, ct, j);
    CbcDecryptBlock(key, iv, ct, n, j);
    XorBytesTwice(Aes.InvCipher(key, Block(ct, j)), prev);
    Aes.EncryptUndoesDecrypt(key, Block(ct, j));
  }

  // ---------- CTR, section 6.5

  /** The counter block n places after ctr, counting modulo 2^128. */
  function Advance(ctr: seq<byte>, n: nat): (c: seq<byte>)
    requires |ctr| == 16
    ensures |c| == 16
  {
    BeBytes(BE(ctr) + n, 16)
  }

  function KeyStream(key: seq<byte>, ctr: seq<byte>, n: nat): (ks: seq<byte>)
    requires |key| == 16 && |ctr| == 16
    ensures |ks| == n
  {
    seq(n, i requires 0 <= i < n => Aes.Cipher(key, Advance(ctr, i / 16))[i % 16])
  }

  function Ctr(key: seq<byte>, ctr: seq<byte>, data: seq<byte>): (out: seq<byte>)
    requires |key| == 16 && |ctr| == 16
    ensures |out| == |data|
  {
    XorBytes(data, KeyStream(key, ctr, |data|))
  }

  lemma CtrTwice(key: seq<byte>, ctr: seq<byte>, data: seq<byte>)
    requires |key| == 16 && |ctr| == 16
    ensures Ctr(key, ctr, Ctr(key, ctr, data)) == data
  {
    hide KeyStream;
    XorBytesTwice(data, KeyStream(key, ctr, |data|));
  }

  /** Byte i meets the encryption of the block c that is i/16 places after ctr, modulo 2^128. */
  lemma CtrByte(key: seq<byte>, ctr: seq<byte>, data: seq<byte>, i: nat, c: seq<byte>)
    requires |key| == 16 && |ctr| == 16 && i < |data|
    requires |c| == 16 && BE(c) == (BE(ctr) + i / 16) % 0x1_00000000_00000000_00000000_00000000
    ensures Ctr(key, ctr, data)[i] == XorByte(data[i], Aes.Cipher(key, c)[i % 16])
  {
    hide BE, Advance, Aes.Cipher;
    AdvanceIs(ctr, i / 16, c);
  }

  lemma AdvanceIs(ctr: seq<byte>, n: nat, c: seq<byte>)
    requires |ctr| == 16 == |c| && BE(c) == (BE(ctr) + n) % 0x1_00000000_00000000_00000000_00000000
    ensures Advance(ctr, n) == c
  {
    hide BE, BeBytes, Pow2;
    Pow2Large();
    var x := BE(ctr) + n;
    BeBytesOfBE(c);
    BeBytesPeriod(BE(c), x / Pow2(128), 16, x);
  }

  lemma AdvanceNone(ctr: seq<byte>)
    requires |ctr| == 16
    ensures Advance(ctr, 0) == ctr
  {
    hide BE, BeBytes;
    BeBytesOfBE(ctr);
  }

  lemma AdvanceTwice(ctr: seq<byte>, m: nat, n: nat)
    requires |ctr| == 16
    ensures Advance(Advance(ctr, m), n) == Advance(ctr, m + n)
  {
    hide BE, BeBytes, Pow2;
    var x := BE(ctr) + m;
    BEOfBeBytes(x, 16);
    BeBytesPeriod(x % Pow2(128) + n, x / Pow2(128), 16, x + n);
  }

  /** Up to 2^128 successive counter blocks are all different. */
  lemma CounterBlocksDiffer(ctr: seq<byte>, i: nat, j: nat)
    requires |ctr| == 16 && i < j < i + 0x1_00000000_00000000_00000000_00000000
    ensures Advance(ctr, i) != Advance(ctr, j)
  {
    hide BE, BeBytes, Pow2;
    var x, y := BE(ctr) + i, BE(ctr) + j;
    Pow2Large();
    BEOfBeBytes(x, 16);
    BEOfBeBytes(y, 16);
    DifferentMod(x, y, 0x1_00000000_00000000_00000000_00000000);
  }

  lemma KeyStreamSplits(key: seq<byte>, ctr: seq<byte>, blocks: nat, n: nat)
    requires |key| == 16 && |ctr| == 16
    ensures KeyStream(key, ctr, 16 * blocks + n) == KeyStream(key, ctr, 16 * blocks)
      + KeyStream(key, Advance(ctr, blocks), n)
  {
    hide Aes.Cipher, Advance;
    var whole, rest := KeyStream(key, ctr, 16 * blocks + n), KeyStream(key, Advance(ctr, blocks), n);
    forall i: nat | i < n ensures whole[16 * blocks + i] == rest[i] {
      ModUnique(16 * blocks + i, 16, blocks + i / 16, i % 16);
      AdvanceTwice(ctr, blocks, i / 16);
    }
  }

  /** Data may be split after any whole number of blocks if that number is added to the counter. */
  lemma CtrSplits(key: seq<byte>, ctr: seq<byte>, blocks: nat, front: seq<byte>, back: seq<byte>)
    requires |key| == 16 && |ctr| == 16 && |front| == 16 * blocks
    ensures Ctr(key, ctr, front + back) == Ctr(key, ctr, front) + Ctr(key, Advance(ctr, blocks), back)
  {
    hide KeyStream, Advance;
    KeyStreamSplits(key, ctr, blocks, |back|);
    XorBytesConcat(front, back, KeyStream(key, ctr, |front|), KeyStream(key, Advance(ctr, blocks), |back|));
  }
}
