/** What the two authenticated ciphers share: their results, the XOR with a key stream, the tag comparison. */
module Aead {
  import opened Bits
  import opened Bytes
  import Gf2

  datatype Sealed = Sealed(ct: seq<byte>, tag: seq<byte>)
  datatype Opened = Rejected | Accepted(pt: seq<byte>)

  lemma XorBytesConcat(a: seq<byte>, b: seq<byte>, s: seq<byte>, t: seq<byte>)
    requires |a| == |s| && |b| <= |t|
    ensures XorBytes(a + b, s + t) == XorBytes(a, s) + XorBytes(b, t)
  {
  }

  /** XORs n bytes of the input with the key stream, one by one, in front to back order. */
  method XorRun(input: array<byte>, output: array<byte>, off: nat, n: nat, ks: seq<byte>,
      ghost data: seq<byte>, ghost len: nat)
    requires off + n <= len <= input.Length && len <= output.Length && n <= |ks| && len == |data|
    requires input[off..len] == data[off..]
    modifies output
    ensures output[..off + n] == old(output[..off]) + XorBytes(data[off..off + n], ks)
    ensures output[off + n..] == old(output[off + n..])
    ensures input[off + n..len] == data[off + n..]
  {
    hide XorByte;
    assert forall i :: off <= i < len ==> input[i] == data[i];
    for i := 0 to n
      invariant forall k :: 0 <= k < i ==> output[off + k] == XorByte(data[off + k], ks[k])
      invariant forall k :: 0 <= k < off || off + i <= k < output.Length ==> output[k] == old(output[k])
      invariant forall k :: off + i <= k < len ==> input[k] == data[k]
    {
      output[off + i] := XorByte(input[off + i], ks[i]);
    }
  }

  /** One more piece of a stream, whose next n bytes ks begins with. */
  lemma XorPiece(data: seq<byte>, stream: seq<byte>, ks: seq<byte>, off: nat, n: nat)
    requires off + n <= |data| <= |stream| && n <= |ks| && stream[off..off + n] == ks[..n]
    ensures XorBytes(data, stream)[..off + n] == XorBytes(data, stream)[..off] + XorBytes(data[off..off + n], ks)
  {
    hide XorByte;
    assert forall i :: 0 <= i < n ==> stream[off..off + n][i] == ks[i];
  }

  /** Collects the differences of all sixteen bytes before it decides. */
  method TagsEqual(a: array<byte>, b: array<byte>) returns (equal: bool)
    requires a.Length == 16 && b.Length == 16
    ensures equal == (a[..] == b[..])
  {
    var diff := 0;
    for i := 0 to 16
      invariant (diff == 0) == (a[..i] == b[..i])
    {
      var d := XorByte(a[i], b[i]);
      ZeroXor(a[i], b[i]);
      ZeroOr(diff, d);
      diff := Or(diff, d);
      assert a[..i + 1] == a[..i] + [a[i]] && b[..i + 1] == b[..i] + [b[i]];
    }
    assert a[..16] == a[..] && b[..16] == b[..];
    equal := diff == 0;
  }

  lemma ZeroXor(a: byte, b: byte)
    ensures (XorByte(a, b) == 0) == (a == b)
  {
    hide Xor;
    XorSelf(a);
    XorCancel(a, b);
    Gf2.XorZero(b);
  }

  lemma ZeroOr(a: nat, b: nat)
    ensures (Or(a, b) == 0) == (a == 0 && b == 0)
  {
  }
}
