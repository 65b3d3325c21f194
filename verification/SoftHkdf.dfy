/** HKDF-SHA256 as SoftHkdf.cpp computes it, block by block in one array t. */
module SoftHkdf {
  import opened Bits
  import opened Bytes
  import opened Padding
  import opened Sha256
  import opened Hmac
  import opened SoftSha256

  /** HMAC of the first aLen bytes of a, then b, then the counter.  The arrays a and out may be the same. */
  method HmacSha256Parts(key: seq<byte>, a: array?<byte>, aLen: nat, b: Input, counter: byte, out: array<byte>)
    requires |key| == 32 && out.Length >= 32
    requires a == null ==> aLen == 0
    requires a != null ==> aLen <= a.Length
    modifies out
    ensures out[..32] == Mac(key, (if a == null then [] else old(a[..aLen])) + Content(b) + [counter])
    ensures out[32..] == old(out[32..])
  {
    hide Hash, Hasher.Valid, Hasher.Absorbed, XorBytes, Filled;
    ghost var first := if a == null then [] else a[..aLen];
    var k0 := new byte[64](_ => 0);
    Append(k0, 0, key, 32);
    assert k0[..] == BlockKey(key);
    var ipad, opad := Pads(k0);
    var innerDigest := new byte[32];
    InnerDigest(ipad[..], a, aLen, b, counter, innerDigest);
    var outer := new Hasher();
    assert innerDigest[..] == innerDigest[..32];
    Pass(outer, opad[..], Data(innerDigest[..]), out);
  }

  method InnerDigest(ipad: seq<byte>, a: array?<byte>, aLen: nat, b: Input, counter: byte, out: array<byte>)
    requires out.Length >= 32
    requires a == null ==> aLen == 0
    requires a != null ==> aLen <= a.Length
    modifies out
    ensures out[..32] == Hash(ipad + ((if a == null then [] else old(a[..aLen])) + Content(b) + [counter]))
    ensures out[32..] == old(out[32..])
  {
    hide Hash, Hasher.Valid, Hasher.Absorbed;
    ghost var first := if a == null then [] else a[..aLen];
    var inner := new Hasher();
    inner.Update(Data(ipad));
    if a != null && aLen > 0 {
      inner.Update(Data(a[..aLen]));
    }
    assert inner.message == ipad + first;
    if b.Data? && |b.bytes| > 0 {
      inner.Update(b);
    }
    assert inner.message == ipad + (first + Content(b));
    inner.Update(Data([counter]));
    assert inner.message == ipad + (first + Content(b) + [counter]);
    inner.Finish(out);
  }

  /** The pseudorandom key of the extract step. */
  method ExtractKey(ikm: Input, salt: seq<byte>) returns (prk: array<byte>)
    ensures fresh(prk) && prk[..] == Extract(salt, Content(ikm))
  {
    hide Mac;
    prk := new byte[32];
    if |salt| == 0 {
      HmacSha256(Zeros(32), ikm, prk);
    } else {
      HmacSha256(salt, ikm, prk);
    }
    assert prk[..] == prk[..32];
  }

  /** The output for any length. */
  method HkdfSha256(ikm: Input, salt: seq<byte>, info: Input, okm: array<byte>, okmLen: nat)
    requires okmLen <= okm.Length
    modifies okm
    ensures okm[..okmLen] == Output(Extract(salt, Content(ikm)), Content(info), okmLen)
    ensures okm[okmLen..] == old(okm[okmLen..])
  {
    FirstOctet();
    hide Extract, Mac, Blocks, T, Octet;
    var prk := ExtractKey(ikm, salt);
    ghost var key, data := prk[..], Content(info);
    var t := new byte[32];
    var tLen, outOff, counter := 0, 0, 1;
    ghost var i, tail := 0, okm[okmLen..];
    FirstBlock(key, data);
    while outOff < okmLen
      invariant prk[..] == key && fresh(prk) && fresh(t)
      invariant tLen == if i == 0 then 0 else 32
      invariant t[..tLen] == T(key, data, i) && counter == Octet(i + 1)
      invariant outOff == if 32 * i < okmLen then 32 * i else okmLen
      invariant 32 * (i - 1) < okmLen
      invariant okm[..outOff] == Blocks(key, data, i)[..outOff]
      invariant outOff == 32 * i ==> okm[..outOff] == Blocks(key, data, i)
      invariant okm[okmLen..] == tail
      decreases okmLen - outOff
    {
      var take := ExpandStep(prk[..], info, i, t, tLen, counter, okm, outOff, okmLen);
      tLen := 32;
      i := i + 1;
      outOff := outOff + take;
      NextOctet(i);
      counter := (counter + 1) % 0x100;
    }
    assert i == (okmLen + 31) / 32;
  }

  /** One turn of the loop: the next T replaces the last one in t and as much of it as is wanted goes out. */
  method ExpandStep(key: seq<byte>, info: Input, ghost i: nat, t: array<byte>, tLen: nat, counter: byte,
      okm: array<byte>, outOff: nat, okmLen: nat) returns (take: nat)
    requires |key| == 32 && t.Length == 32 && t != okm && tLen == (if i == 0 then 0 else 32)
    requires t[..tLen] == T(key, Content(info), i) && counter == Octet(i + 1)
    requires outOff == 32 * i < okmLen <= okm.Length && okm[..outOff] == Blocks(key, Content(info), i)
    modifies t, okm
    ensures take == if okmLen - outOff > 32 then 32 else okmLen - outOff
    ensures t[..] == T(key, Content(info), i + 1)
    ensures okm[..outOff + take] == Blocks(key, Content(info), i + 1)[..outOff + take]
    ensures okm[okmLen..] == old(okm[okmLen..])
  {
    hide Mac, Blocks, T, Octet;
    ghost var before := okm[..];
    HmacSha256Parts(key, if tLen > 0 then t else null, tLen, info, counter, t);
    assert okm[..] == before && t[..] == t[..32];
    take := okmLen - outOff;
    if take > 32 {
      take := 32;
    }
    NextBlock(key, Content(info), i + 1, take);
    CopyBlock(okm, outOff, okmLen, t[..], take);
  }

  method CopyBlock(okm: array<byte>, outOff: nat, okmLen: nat, t: seq<byte>, take: nat)
    requires take <= |t| && outOff + take <= okmLen <= okm.Length
    modifies okm
    ensures okm[..outOff + take] == old(okm[..outOff]) + t[..take]
    ensures okm[okmLen..] == old(okm[okmLen..])
  {
    ghost var rest := okm[outOff + take..];
    Append(okm, outOff, t, take);
    assert okm[okmLen..] == rest[okmLen - (outOff + take)..];
  }

  lemma FirstBlock(prk: seq<byte>, info: seq<byte>)
    ensures T(prk, info, 0) == [] == Blocks(prk, info, 0)
  {
  }

  lemma NextBlock(prk: seq<byte>, info: seq<byte>, i: nat, take: nat)
    requires i > 0 && take <= 32
    ensures T(prk, info, i) == Mac(prk, T(prk, info, i - 1) + info + [Octet(i)])
    ensures Blocks(prk, info, i)[..32 * (i - 1) + take] == Blocks(prk, info, i - 1) + T(prk, info, i)[..take]
  {
    hide Mac;
  }

  lemma FirstOctet()
    ensures Octet(1) == 1
  {
  }

  lemma NextOctet(i: nat)
    ensures (Octet(i) + 1) % 0x100 == Octet(i + 1)
  {
  }
}
