/** ChaCha20-Poly1305 as SoftChaChaPoly.cpp computes it in arrays, proved against module ChaCha20. */
module SoftChaChaPoly {
  import opened Bits
  import opened Bytes
  import opened Word32
  import opened Aead
  import opened ChaCha20
  import opened Padding
  import Poly1305

  // ---------- the block function

  method QuarterRound(w: array<bv32>, a: nat, b: nat, c: nat, d: nat)
    requires w.Length == 16 && Places(a, b, c, d)
    modifies w
    ensures w[..] == QuarterAt(old(w[..]), a, b, c, d)
  {
    hide Add32, Xor32, Rotl;
    ghost var s, q := w[..], Quarter(Get(w[..], a, b, c, d));
    w[a] := Add32(w[a], w[b]);
    w[d] := Xor32(w[d], w[a]);
    w[d] := Rotl(w[d], 16);
    w[c] := Add32(w[c], w[d]);
    w[b] := Xor32(w[b], w[c]);
    w[b] := Rotl(w[b], 12);
    w[a] := Add32(w[a], w[b]);
    w[d] := Xor32(w[d], w[a]);
    w[d] := Rotl(w[d], 8);
    w[c] := Add32(w[c], w[d]);
    w[b] := Xor32(w[b], w[c]);
    w[b] := Rotl(w[b], 7);
    assert w[a] == q.a && w[b] == q.b && w[c] == q.c && w[d] == q.d;
    PutIs(s, w[..], a, b, c, d, q);
  }

  lemma PutIs(s: seq<bv32>, t: seq<bv32>, a: nat, b: nat, c: nat, d: nat, q: Quad)
    requires State(s) && State(t) && Places(a, b, c, d) && Get(t, a, b, c, d) == q
    requires forall i :: 0 <= i < 16 && i !in {a, b, c, d} ==> t[i] == s[i]
    ensures t == Put(s, a, b, c, d, q)
  {
  }

  method DoubleRound(w: array<bv32>)
    requires w.Length == 16
    modifies w
    ensures w[..] == DiagonalRound(ColumnRound(old(w[..])))
  {
    hide QuarterAt;
    QuarterRound(w, 0, 4, 8, 12);
    QuarterRound(w, 1, 5, 9, 13);
    QuarterRound(w, 2, 6, 10, 14);
    QuarterRound(w, 3, 7, 11, 15);
    QuarterRound(w, 0, 5, 10, 15);
    QuarterRound(w, 1, 6, 11, 12);
    QuarterRound(w, 2, 7, 8, 13);
    QuarterRound(w, 3, 4, 9, 14);
  }

  /** n little-endian words of bytes go to the state from the given place on. */
  method LoadWords(state: array<bv32>, at: nat, bytes: seq<byte>, n: nat)
    requires |bytes| == 4 * n && at + n <= state.Length
    modifies state
    ensures state[..at + n] == old(state[..at]) + Words(bytes, n)
  {
    hide Word;
    for i := 0 to n
      invariant forall j :: 0 <= j < at ==> state[j] == old(state[j])
      invariant forall j :: 0 <= j < i ==> state[at + j] == Word(bytes, j)
    {
      LoadIsWord(bytes, i);
      state[at + i] := ToWord(Load32LE(bytes[4 * i], bytes[4 * i + 1], bytes[4 * i + 2], bytes[4 * i + 3]));
    }
  }

  lemma LoadIsWord(s: seq<byte>, i: nat)
    requires 4 * i + 4 <= |s|
    ensures Word(s, i) == ToWord(Load32LE(s[4 * i], s[4 * i + 1], s[4 * i + 2], s[4 * i + 3]))
  {
    hide Or;
    var w := s[4 * i..4 * i + 4];
    assert LE(w) == w[0] + 0x100 * LE(w[1..]);
    assert LE(w[1..]) == w[1] + 0x100 * LE(w[2..]) by { assert w[1..][1..] == w[2..]; }
    assert LE(w[2..]) == w[2] + 0x100 * LE(w[3..]) by { assert w[2..][1..] == w[3..]; }
    assert LE(w[3..]) == w[3] by { assert w[3..][1..] == []; }
  }

  lemma LeBytes4(x: u32)
    ensures LeBytes(x, 4) == [x % 0x100, x / 0x100 % 0x100, x / 0x1_0000 % 0x100, x / 0x100_0000 % 0x100]
  {
    assert x / 0x1_0000 == x / 0x100 / 0x100 && x / 0x100_0000 == x / 0x1_0000 / 0x100;
    LeBytesStep(x, 3);
    LeBytesStep(x / 0x100, 2);
    LeBytesStep(x / 0x1_0000, 1);
    LeBytesStep(x / 0x100_0000, 0);
  }

  lemma LeBytesStep(x: nat, n: nat)
    ensures LeBytes(x, n + 1) == [x % 0x100] + LeBytes(x / 0x100, n)
  {
  }

  lemma SerialiseNone()
    ensures Serialise([]) == []
  {
  }

  lemma SerialiseStep(words: seq<bv32>, i: nat)
    requires i < |words|
    ensures Serialise(words[..i + 1]) == Serialise(words[..i]) + LeBytes(FromWord(words[i]), 4)
  {
    hide LeBytes, FromWord;
    assert words[..i + 1][..i] == words[..i];
  }

  method StoreWord(w: bv32, at: nat, out: array<byte>)
    requires at + 4 <= out.Length
    modifies out
    ensures out[..at] == old(out[..at]) && out[at..at + 4] == LeBytes(FromWord(w), 4)
  {
    var x := FromWord(w);
    LeBytes4(x);
    hide LeBytes, FromWord;
    out[at] := x % 0x100;
    out[at + 1] := x / 0x100 % 0x100;
    out[at + 2] := x / 0x1_0000 % 0x100;
    out[at + 3] := x / 0x100_0000 % 0x100;
  }

  /** The sums of the two states, byte by byte. */
  method StoreSums(working: array<bv32>, state: array<bv32>, out: array<byte>)
    requires working.Length == 16 && state.Length == 16 && out.Length == 64
    modifies out
    ensures out[..] == Serialise(AddStates(old(working[..]), old(state[..])))
  {
    hide LeBytes, FromWord, Add32, Serialise;
    ghost var words := AddStates(working[..], state[..]);
    SerialiseNone();
    for i := 0 to 16
      invariant words == AddStates(working[..], state[..])
      invariant out[..4 * i] == Serialise(words[..i])
    {
      ghost var before := out[..4 * i];
      SerialiseStep(words, i);
      StoreWord(Add32(working[i], state[i]), 4 * i, out);
      assert out[..4 * i + 4] == before + LeBytes(FromWord(words[i]), 4);
    }
    assert words[..16] == words && out[..64] == out[..];
  }

  method ChachaBlock(key: seq<byte>, nonce: seq<byte>, counter: u32, out: array<byte>)
    requires |key| == 32 && |nonce| == 12 && out.Length == 64
    modifies out
    ensures out[..] == Block(key, nonce, counter)
  {
    hide Words, ColumnRound, DiagonalRound, AddStates, Serialise;
    var state := new bv32[16];
    state[0], state[1], state[2], state[3] := 0x61707865, 0x3320646e, 0x79622d32, 0x6b206574;
    assert state[..4] == [0x61707865, 0x3320646e, 0x79622d32, 0x6b206574];
    LoadWords(state, 4, key, 8);
    ghost var front := state[..12];
    state[12] := ToWord(counter);
    assert state[..13] == front + [ToWord(counter)];
    LoadWords(state, 13, nonce, 3);
    ghost var s := Start(key, nonce, counter);
    assert state[..] == state[..16] == s;
    var working := new bv32[16](i requires 0 <= i < 16 reads state => state[i]);
    assert working[..] == s;
    for i := 0 to 10
      modifies working
      invariant working[..] == Rounds(s, i)
    {
      DoubleRound(working);
    }
    assert state[..] == s;
    StoreSums(working, state, out);
  }

  /** The key stream is XORed in, 64 bytes at a time; input and output may be the same array. */
  method ChachaXor(key: seq<byte>, nonce: seq<byte>, counter: u32, input: array<byte>, output: array<byte>, len: nat)
    requires |key| == 32 && |nonce| == 12 && len <= input.Length && len <= output.Length
    modifies output
    ensures output[..len] == Crypt(key, nonce, counter, old(input[..len]))
    ensures output[len..] == old(output[len..])
  {
    hide XorBytes, KeyStream, Block, Advance;
    ghost var data, stream := input[..len], KeyStream(key, nonce, counter, len);
    var block := new byte[64];
    var off := 0;
    var c: nat := counter;
    ghost var blocks := 0;
    AdvanceNone(counter);
    while off < len
      invariant off <= len && c == Advance(counter, blocks)
      invariant off == 64 * blocks || off == len
      invariant output[..off] == XorBytes(data, stream)[..off]
      invariant input[off..len] == data[off..]
      invariant output[len..] == old(output[len..])
    {
      ChachaBlock(key, nonce, c, block);
      AdvanceOne(counter, blocks);
      c := (c + 1) % 0x1_0000_0000;
      var n := len - off;
      if n > 64 {
        n := 64;
      }
      StreamBlock(key, nonce, counter, len, blocks, n);
      XorPiece(data, stream, block[..], off, n);
      ghost var rest := output[off + n..];
      XorRun(input, output, off, n, block[..], data, len);
      assert output[len..] == rest[len - off - n..];
      off := off + n;
      blocks := blocks + 1;
    }
  }

  lemma StreamBlock(key: seq<byte>, nonce: seq<byte>, counter: u32, len: nat, blocks: nat, n: nat)
    requires |key| == 32 && |nonce| == 12 && n <= 64 && 64 * blocks + n <= len
    ensures KeyStream(key, nonce, counter, len)[64 * blocks..64 * blocks + n]
      == Block(key, nonce, Advance(counter, blocks))[..n]
  {
    hide Block, Advance;
  }

  lemma AdvanceNone(counter: u32)
    ensures Advance(counter, 0) == counter
  {
  }

  lemma AdvanceOne(counter: u32, n: nat)
    ensures (Advance(counter, n) + 1) % 0x1_0000_0000 == Advance(counter, n + 1)
  {
  }

  // ---------- the tag

  /** The bytes to authenticate fit the 512 bytes on the stack. */
  predicate FitsStack(aadLen: nat, ctLen: nat) {
    aadLen + Fill(aadLen) + ctLen + Fill(ctLen) + 16 <= 512
  }

  /** What ends up in the tag: the tag of section 2.8, or, without any notice, what was there before. */
  function TagOr(key: seq<byte>, nonce: seq<byte>, aad: seq<byte>, ct: seq<byte>, before: seq<byte>): seq<byte>
    requires |key| == 32 && |nonce| == 12
  {
    if FitsStack(|aad|, |ct|) then Tag(key, nonce, aad, ct) else before
  }

  /** The tag is that of RFC 8439 whatever the memory held before exactly when the data fit. */
  lemma TagNeedsFit(key: seq<byte>, nonce: seq<byte>, aad: seq<byte>, ct: seq<byte>)
    requires |key| == 32 && |nonce| == 12
    ensures (forall before: seq<byte> :: |before| == 16 ==>
      TagOr(key, nonce, aad, ct, before) == Tag(key, nonce, aad, ct))
      <==> FitsStack(|aad|, |ct|)
  {
    hide Tag, FitsStack;
    if !FitsStack(|aad|, |ct|) {
      var tag := Tag(key, nonce, aad, ct);
      var other: byte := if tag[0] == 0 then 1 else 0;
      var before := tag[0 := other];
      assert TagOr(key, nonce, aad, ct, before)[0] != tag[0];
    }
  }

  method AeadPoly1305(tag: array<byte>, key: seq<byte>, nonce: seq<byte>, aad: seq<byte>, ct: seq<byte>)
    requires tag.Length == 16 && |key| == 32 && |nonce| == 12
    modifies tag
    ensures tag[..] == TagOr(key, nonce, aad, ct, old(tag[..]))
  {
    hide Block, Fill, LeBytes, Poly1305.Mac;
    var block0 := new byte[64];
    ChachaBlock(key, nonce, 0, block0);
    var aadPad := (16 - |aad| % 16) % 16;
    var ctPad := (16 - |ct| % 16) % 16;
    FillIs(|aad|);
    FillIs(|ct|);
    var bufLen := |aad| + aadPad + |ct| + ctPad + 16;
    var buf := new byte[512];
    if bufLen > 512 {
      return;
    }
    Layout(buf, aad, aadPad, ct, ctPad);
    Poly1305.Poly1305Auth(tag, buf[..bufLen], block0[..32]);
  }

  lemma FillIs(n: nat)
    ensures (16 - n % 16) % 16 == Fill(n)
  {
  }

  /** The copies into the buffer, and the two lengths behind them. */
  method Layout(buf: array<byte>, aad: seq<byte>, aadPad: nat, ct: seq<byte>, ctPad: nat)
    requires aadPad == Fill(|aad|) && ctPad == Fill(|ct|)
    requires |aad| + aadPad + |ct| + ctPad + 16 <= buf.Length
    modifies buf
    ensures buf[..|aad| + aadPad + |ct| + ctPad + 16] == MacData(aad, ct)
  {
    hide LeBytes, Fill, Filled16;
    var off := AppendFilled(buf, 0, aad, aadPad);
    off := AppendFilled(buf, off, ct, ctPad);
    assert buf[..off] == Filled16(aad) + Filled16(ct);
    StoreLengths(buf, off, |aad|, |ct|);
  }

  /** A part and its zeros; neither is copied when it is empty. */
  method AppendFilled(buf: array<byte>, start: nat, part: seq<byte>, pad: nat) returns (off: nat)
    requires pad == Fill(|part|) && start + |part| + pad <= buf.Length
    modifies buf
    ensures off == start + |part| + pad
    ensures buf[..off] == old(buf[..start]) + Filled16(part)
  {
    hide Fill;
    ghost var before := buf[..start];
    off := start;
    if |part| > 0 {
      Append(buf, off, part, |part|);
      off := off + |part|;
    }
    assert buf[..off] == before + part;
    if pad > 0 {
      Append(buf, off, Zeros(pad), pad);
      off := off + pad;
    }
    assert buf[..off] == before + (part + Zeros(pad));
  }

  /** Both lengths are stored in one loop, a byte of each a turn. */
  method StoreLengths(buf: array<byte>, off: nat, aadLen: nat, ctLen: nat)
    requires off + 16 <= buf.Length
    modifies buf
    ensures buf[..off + 16] == old(buf[..off]) + LeBytes(aadLen, 8) + LeBytes(ctLen, 8)
  {
    hide LeBytes;
    var al, cl := aadLen, ctLen;
    ghost var front := buf[..off];
    for i := 0 to 8
      invariant buf[..off] == front
      invariant LeBytes(aadLen, 8) == buf[off..off + i] + LeBytes(al, 8 - i)
      invariant LeBytes(ctLen, 8) == buf[off + 8..off + 8 + i] + LeBytes(cl, 8 - i)
    {
      LeBytesStep(al, 7 - i);
      LeBytesStep(cl, 7 - i);
      StoreTwo(buf, off, i, al % 0x100, cl % 0x100);
      al := al / 0x100;
      cl := cl / 0x100;
    }
    assert buf[..off + 16] == front + buf[off..off + 8] + buf[off + 8..off + 16];
    LeBytesNone(al);
    LeBytesNone(cl);
  }

  lemma LeBytesNone(x: nat)
    ensures LeBytes(x, 0) == []
  {
  }

  method StoreTwo(buf: array<byte>, off: nat, i: nat, a: byte, c: byte)
    requires i < 8 && off + 16 <= buf.Length
    modifies buf
    ensures buf[..off] == old(buf[..off])
    ensures buf[off..off + (i + 1)] == old(buf[off..off + i]) + [a]
    ensures buf[off + 8..off + 8 + (i + 1)] == old(buf[off + 8..off + 8 + i]) + [c]
  {
    buf[off + i] := a;
    buf[off + 8 + i] := c;
  }

  // ---------- encrypt and decrypt

  /** Always reports success, even where no tag was written. */
  method SoftEncrypt(key: seq<byte>, nonce: seq<byte>, aad: seq<byte>, input: array<byte>, output: array<byte>,
      len: nat, tag: array<byte>) returns (ok: bool)
    requires |key| == 32 && |nonce| == 12 && tag.Length == 16 && tag != output
    requires len <= input.Length && len <= output.Length
    modifies output, tag
    ensures ok
    ensures output[..len] == Crypt(key, nonce, 1, old(input[..len]))
    ensures output[len..] == old(output[len..])
    ensures tag[..] == TagOr(key, nonce, aad, output[..len], old(tag[..]))
  {
    hide Crypt, TagOr;
    if len > 0 {
      ChachaXor(key, nonce, 1, input, output, len);
    }
    ghost var ct, all := output[..len], output[..];
    AeadPoly1305(tag, key, nonce, aad, output[..len]);
    assert output[..] == all && output[..len] == ct;
    ok := true;
  }

  /** The 16 bytes on the stack that receive the expected tag hold anything to begin with. */
  method SoftDecrypt(key: seq<byte>, nonce: seq<byte>, aad: seq<byte>, input: array<byte>, output: array<byte>,
      len: nat, tag: array<byte>, stack: seq<byte>) returns (ok: bool)
    requires |key| == 32 && |nonce| == 12 && tag.Length == 16 && |stack| == 16
    requires len <= input.Length && len <= output.Length
    modifies output
    ensures ok == (old(tag[..]) == TagOr(key, nonce, aad, old(input[..len]), stack))
    ensures ok ==> output[..len] == Crypt(key, nonce, 1, old(input[..len])) && output[len..] == old(output[len..])
    ensures !ok ==> output[..] == old(output[..])
  {
    hide Crypt, TagOr;
    var expected := new byte[16](i requires 0 <= i < 16 => stack[i]);
    assert expected[..] == stack;
    AeadPoly1305(expected, key, nonce, aad, input[..len]);
    ok := TagsEqual(tag, expected);
    if !ok {
      return;
    }
    if len > 0 {
      ChachaXor(key, nonce, 1, input, output, len);
    }
  }

  /** Sealing and opening in one and the same buffer: when the data fit, the tag is that of RFC 8439 and the
      plaintext comes back.  When they do not, opening compares two pieces of memory that nothing has written:
      it succeeds exactly when they happen to agree, and else leaves the ciphertext. */
  method SealAndOpenInPlace(key: seq<byte>, nonce: seq<byte>, aad: seq<byte>, buffer: array<byte>, tag: array<byte>,
      stack: seq<byte>) returns (ok: bool)
    requires |key| == 32 && |nonce| == 12 && tag.Length == 16 && tag != buffer && |stack| == 16
    modifies buffer, tag
    ensures ok == (FitsStack(|aad|, buffer.Length) || old(tag[..]) == stack)
    ensures buffer[..] == if ok then old(buffer[..]) else Crypt(key, nonce, 1, old(buffer[..]))
    ensures FitsStack(|aad|, buffer.Length) ==>
      Sealed(Crypt(key, nonce, 1, old(buffer[..])), tag[..]) == Encrypt(key, nonce, aad, old(buffer[..]))
    ensures !FitsStack(|aad|, buffer.Length) ==> tag[..] == old(tag[..])
  {
    hide Crypt, Tag, FitsStack;
    ghost var pt := buffer[..];
    var len := buffer.Length;
    assert pt == buffer[..len];
    ok := SoftEncrypt(key, nonce, aad, buffer, buffer, len, tag);
    assert buffer[..] == buffer[..len];
    ok := SoftDecrypt(key, nonce, aad, buffer, buffer, len, tag, stack);
    CryptTwice(key, nonce, 1, pt);
    assert buffer[..] == buffer[..len];
  }
}
