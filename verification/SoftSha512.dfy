/** The incremental hasher of SoftSha512.cpp: whatever way a message is split into updates,
    finish yields the SHA-512 or, after reset384, the SHA-384 digest of the whole message. */
module SoftSha512 {
  import opened Bits
  import opened Bytes
  import opened Word64
  import opened Padding
  import opened Sha512

  function StateVars(s: seq<bv64>): Vars
    requires |s| == 8
  {
    Vars(s[0], s[1], s[2], s[3], s[4], s[5], s[6], s[7])
  }

  function Initial(len: nat): Vars {
    if len == 48 then INITIAL384 else INITIAL512
  }

  lemma EmptyFold(init: Vars)
    ensures Fold(init, []) == init
  {
  }

  lemma FoldStep(init: Vars, data: seq<byte>, block: seq<byte>)
    requires |data| % 128 == 0 && |block| == 128
    ensures Fold(init, data + block) == Compress(Fold(init, data), block)
  {
    var all := data + block;
    assert all[..|all| - 128] == data && all[|all| - 128..] == block;
  }

  // ---------- processBlock

  method ExpandBlock(p: seq<byte>) returns (w: array<bv64>)
    requires |p| == 128
    ensures fresh(w) && w.Length == 80 && forall t :: 0 <= t < 80 ==> w[t] == W(p, t)
  {
    hide BlockWord, SmallSigma0, SmallSigma1, Rotr, Shr, Add64, Xor64, ToWord, W;
    w := new bv64[80];
    for i := 0 to 16
      invariant forall t :: 0 <= t < i ==> w[t] == W(p, t)
    {
      w[i] := ToWord(Load64BE(p[8 * i..8 * i + 8]));
      FirstWords(p, i);
    }
    for i := 16 to 80
      invariant forall t :: 0 <= t < i ==> w[t] == W(p, t)
    {
      var s0 := Xor64(Xor64(Rotr(w[i - 15], 1), Rotr(w[i - 15], 8)), Shr(w[i - 15], 7));
      var s1 := Xor64(Xor64(Rotr(w[i - 2], 19), Rotr(w[i - 2], 61)), Shr(w[i - 2], 6));
      LaterWords(p, i, s0, s1);
      w[i] := Add64(Add64(Add64(w[i - 16], s0), w[i - 7]), s1);
    }
  }

  lemma LaterWords(p: seq<byte>, i: nat, s0: bv64, s1: bv64)
    requires |p| == 128 && i >= 16
    requires s0 == Xor64(Xor64(Rotr(W(p, i - 15), 1), Rotr(W(p, i - 15), 8)), Shr(W(p, i - 15), 7))
    requires s1 == Xor64(Xor64(Rotr(W(p, i - 2), 19), Rotr(W(p, i - 2), 61)), Shr(W(p, i - 2), 6))
    ensures W(p, i) == Add64(Add64(Add64(W(p, i - 16), s0), W(p, i - 7)), s1)
  {
    hide Rotr, Shr, Xor64, Add64, BlockWord;
  }

  lemma FirstWords(p: seq<byte>, i: nat)
    requires |p| == 128 && i < 16
    ensures W(p, i) == ToWord(Load64BE(p[8 * i..8 * i + 8]))
  {
  }

  lemma RoundsStep(v: Vars, p: seq<byte>, t: nat)
    requires |p| == 128 && t < 80
    ensures Rounds(v, p, 0) == v
    ensures Rounds(v, p, t + 1) == Round(Rounds(v, p, t), K(t), W(p, t))
  {
    hide K, W, Round;
  }

  lemma RoundIs(v: Vars, k: bv64, w: bv64, s1: bv64, ch: bv64, s0: bv64, maj: bv64)
    requires s1 == Xor64(Xor64(Rotr(v.e, 14), Rotr(v.e, 18)), Rotr(v.e, 41))
    requires ch == Xor64(And64(v.e, v.f), And64(Not64(v.e), v.g))
    requires s0 == Xor64(Xor64(Rotr(v.a, 28), Rotr(v.a, 34)), Rotr(v.a, 39))
    requires maj == Xor64(Xor64(And64(v.a, v.b), And64(v.a, v.c)), And64(v.b, v.c))
    ensures var t1 := Add64(Add64(Add64(Add64(v.h, s1), ch), k), w);
      Round(v, k, w) == Vars(Add64(t1, Add64(s0, maj)), v.a, v.b, v.c, Add64(v.d, t1), v.e, v.f, v.g)
  {
    hide Rotr, Add64, Xor64, And64, Not64;
  }

  lemma BeBytes8(x: u64)
    ensures BeBytes(x, 8) == [x / 0x100_0000_0000_0000 % 0x100, x / 0x1_0000_0000_0000 % 0x100,
      x / 0x100_0000_0000 % 0x100, x / 0x1_0000_0000 % 0x100, x / 0x100_0000 % 0x100,
      x / 0x1_0000 % 0x100, x / 0x100 % 0x100, x % 0x100]
  {
    hide BeBytes;
    BytesAbove(x);
    var y := x / 0x1_0000_0000;
    BytesAbove(y);
    assert y / 0x100_0000 == x / 0x100_0000_0000_0000 && y / 0x1_0000 == x / 0x1_0000_0000_0000
      && y / 0x100 == x / 0x100_0000_0000;
    BeBytesStep(x, 7);
    BeBytesStep(x / 0x100, 6);
    BeBytesStep(x / 0x1_0000, 5);
    BeBytesStep(x / 0x100_0000, 4);
    BeBytesStep(y, 3);
    BeBytesStep(y / 0x100, 2);
    BeBytesStep(y / 0x1_0000, 1);
    BeBytesStep(y / 0x100_0000, 0);
    BeBytesNone(y / 0x100_0000 / 0x100);
  }

  lemma BytesAbove(x: nat)
    ensures x / 0x100 / 0x100 == x / 0x1_0000 && x / 0x1_0000 / 0x100 == x / 0x100_0000
    ensures x / 0x100_0000 / 0x100 == x / 0x1_0000_0000
  {
  }

  method StoreWord(w: bv64, at: nat, out: array<byte>)
    requires at + 8 <= out.Length
    modifies out
    ensures out[..at] == old(out[..at]) && out[at + 8..] == old(out[at + 8..])
    ensures out[at..at + 8] == BeBytes(FromWord(w), 8)
  {
    var x := FromWord(w);
    BeBytes8(x);
    hide BeBytes, FromWord;
    out[at] := x / 0x100_0000_0000_0000 % 0x100;
    out[at + 1] := x / 0x1_0000_0000_0000 % 0x100;
    out[at + 2] := x / 0x100_0000_0000 % 0x100;
    out[at + 3] := x / 0x1_0000_0000 % 0x100;
    out[at + 4] := x / 0x100_0000 % 0x100;
    out[at + 5] := x / 0x1_0000 % 0x100;
    out[at + 6] := x / 0x100 % 0x100;
    out[at + 7] := x % 0x100;
  }

  method StoreDigest(state: seq<bv64>, words: nat, out: array<byte>)
    requires |state| == 8 && words <= 8 && out.Length >= 8 * words
    modifies out
    ensures out[..8 * words] == Serialise(StateVars(state))[..8 * words]
    ensures out[8 * words..] == old(out[8 * words..])
  {
    hide BeBytes, FromWord;
    for i := 0 to words
      invariant out[..8 * i] == WordBytes(state[..i])
      invariant out[8 * words..] == old(out[8 * words..])
    {
      ghost var before := out[..8 * i];
      StoreWord(state[i], 8 * i, out);
      assert state[..i + 1][..i] == state[..i];
      assert out[..8 * i + 8] == before + BeBytes(FromWord(state[i]), 8);
    }
    WordBytesPrefix(state, words);
    assert state == [state[0], state[1], state[2], state[3], state[4], state[5], state[6], state[7]];
  }

  lemma {:induction false} WordBytesPrefix(words: seq<bv64>, n: nat)
    requires n <= |words|
    ensures WordBytes(words[..n]) == WordBytes(words)[..8 * n]
  {
    if n == |words| {
      assert words[..n] == words;
    } else {
      WordBytesPrefix(words[..|words| - 1], n);
      assert words[..|words| - 1][..n] == words[..n];
    }
  }

  // ---------- the length field

  /** The bytes that are digested: the length field holds the 64-bit counter. */
  function Padded(m: seq<byte>): (p: seq<byte>)
    ensures |p| % 128 == 0
  {
    PadLength(m, BitCount(|m|), 128, 16);
    PadWith(m, BitCount(|m|), 128, 16)
  }

  /** The digest as the hasher computes it, for messages of any length. */
  function Digest(len: nat, m: seq<byte>): (digest: seq<byte>)
    requires len == 48 || len == 64
    ensures |digest| == len
  {
    Serialise(Fold(Initial(len), Padded(m)))[..len]
  }

  /** The 128-bit length field is built from a 64-bit counter, so among the messages that FIPS 180-4
      admits (under 2^128 bits) those below 2^61 bytes, and no others, are padded as it says. */
  lemma PaddedIsFips(m: seq<byte>)
    requires 8 * |m| < 0x1_00000000_00000000_00000000_00000000
    ensures Padded(m) == Pad(m, 128, 16) <==> |m| < 0x2000_0000_0000_0000
  {
    hide BE, BeBytes, ZeroCount;
    var x, p, q := BitCount(|m|), Padded(m), Pad(m, 128, 16);
    assert p[|p| - 16..] == BeBytes(x, 16) && q[|q| - 16..] == BeBytes(8 * |m|, 16);
    Pow2Large();
    BEOfBeBytes(x, 16);
    BEOfBeBytes(8 * |m|, 16);
    hide Pow2;
    ModUnique(x, Pow2(128), 0, x);
    ModUnique(8 * |m|, Pow2(128), 0, 8 * |m|);
  }

  lemma DigestIsFips(m: seq<byte>)
    requires |m| < 0x2000_0000_0000_0000
    ensures Digest(64, m) == Hash512(m) && Digest(48, m) == Hash384(m)
  {
    hide Padded, Pad, Fold;
    PaddedIsFips(m);
  }

  class Hasher {
    const state_: array<bv64>
    var bitLen_: u64
    const buffer_: array<byte>
    var bufferLen_: nat
    var digestLen_: nat  // 48 for SHA-384, 64 for SHA-512
    ghost var message: seq<byte>  // everything hashed since the last reset

    ghost predicate Shaped() {
      state_.Length == 8 && buffer_.Length == 128 && (state_ as object) != (buffer_ as object)
    }

    /** state_ holds the hash of the completed blocks of m, and the buffer holds the rest of m. */
    ghost predicate Absorbed(m: seq<byte>)
      reads this, state_, buffer_
    {
      && Shaped()
      && (digestLen_ == 48 || digestLen_ == 64)
      && bufferLen_ == |m| % 128
      && StateVars(state_[..]) == Fold(Initial(digestLen_), m[..|m| - bufferLen_])
      && buffer_[..bufferLen_] == m[|m| - bufferLen_..]
    }

    /** The caller's array is none of the hasher's own. */
    ghost predicate Apart(out: array<byte>) {
      out != buffer_ && (out as object) != (state_ as object)
    }

    ghost predicate Valid()
      reads this, state_, buffer_
    {
      Absorbed(message) && bitLen_ == BitCount(|message|)
    }

    constructor ()
      ensures Shaped() && Valid() && message == [] && digestLen_ == 64 && fresh(state_) && fresh(buffer_)
    {
      state_ := new bv64[8];
      buffer_ := new byte[128];
      new;
      Reset();
    }

    method Reset()
      requires Shaped()
      modifies this`bitLen_, this`bufferLen_, this`digestLen_, this`message, state_
      ensures Valid() && message == [] && digestLen_ == 64
    {
      hide Fold;
      state_[0] := 0x6a09e667f3bcc908;
      state_[1] := 0xbb67ae8584caa73b;
      state_[2] := 0x3c6ef372fe94f82b;
      state_[3] := 0xa54ff53a5f1d36f1;
      state_[4] := 0x510e527fade682d1;
      state_[5] := 0x9b05688c2b3e6c1f;
      state_[6] := 0x1f83d9abfb41bd6b;
      state_[7] := 0x5be0cd19137e2179;
      bitLen_ := 0;
      bufferLen_ := 0;
      digestLen_ := 64;
      message := [];
      EmptyFold(Initial(64));
    }

    /** Selects SHA-384. */
    method Reset384()
      requires Shaped()
      modifies this`bitLen_, this`bufferLen_, this`digestLen_, this`message, state_
      ensures Valid() && message == [] && digestLen_ == 48
    {
      hide Fold;
      state_[0] := 0xcbbb9d5dc1059ed8;
      state_[1] := 0x629a292a367cd507;
      state_[2] := 0x9159015a3070dd17;
      state_[3] := 0x152fecd8f70e5939;
      state_[4] := 0x67332667ffc00b31;
      state_[5] := 0x8eb44a8768581511;
      state_[6] := 0xdb0c2e0d64f98fa7;
      state_[7] := 0x47b5481dbefa4fa4;
      bitLen_ := 0;
      bufferLen_ := 0;
      digestLen_ := 48;
      message := [];
      EmptyFold(Initial(48));
    }

    method ProcessBlock(p: seq<byte>)
      requires Shaped() && |p| == 128
      modifies state_
      ensures StateVars(state_[..]) == Compress(old(StateVars(state_[..])), p)
    {
      hide K, W, BlockWord, Rounds, Round, AddVars, Rotr, Add64, Xor64, And64, Not64;
      var w := ExpandBlock(p);
      ghost var v := StateVars(state_[..]);
      var a, b, c, d := state_[0], state_[1], state_[2], state_[3];
      var e, f, g, h := state_[4], state_[5], state_[6], state_[7];
      RoundsStep(v, p, 0);
      for i := 0 to 80
        modifies {}
        invariant Vars(a, b, c, d, e, f, g, h) == Rounds(v, p, i)
      {
        RoundsStep(v, p, i);
        var S1 := Xor64(Xor64(Rotr(e, 14), Rotr(e, 18)), Rotr(e, 41));
        var ch := Xor64(And64(e, f), And64(Not64(e), g));
        var t1 := Add64(Add64(Add64(Add64(h, S1), ch), K(i)), w[i]);
        var S0 := Xor64(Xor64(Rotr(a, 28), Rotr(a, 34)), Rotr(a, 39));
        var maj := Xor64(Xor64(And64(a, b), And64(a, c)), And64(b, c));
        var t2 := Add64(S0, maj);
        RoundIs(Vars(a, b, c, d, e, f, g, h), K(i), w[i], S1, ch, S0, maj);
        h := g;
        g := f;
        f := e;
        e := Add64(d, t1);
        d := c;
        c := b;
        b := a;
        a := Add64(t1, t2);
      }
      AddToState(a, b, c, d, e, f, g, h);
    }

    method AddToState(a: bv64, b: bv64, c: bv64, d: bv64, e: bv64, f: bv64, g: bv64, h: bv64)
      requires Shaped()
      modifies state_
      ensures StateVars(state_[..]) == AddVars(old(StateVars(state_[..])), Vars(a, b, c, d, e, f, g, h))
    {
      hide Add64;
      state_[0] := Add64(state_[0], a);
      state_[1] := Add64(state_[1], b);
      state_[2] := Add64(state_[2], c);
      state_[3] := Add64(state_[3], d);
      state_[4] := Add64(state_[4], e);
      state_[5] := Add64(state_[5], f);
      state_[6] := Add64(state_[6], g);
      state_[7] := Add64(state_[7], h);
    }

    method Update(data: Input)
      requires Valid()
      modifies this`bitLen_, this`bufferLen_, this`message, state_, buffer_
      ensures Valid()
      ensures message == old(message) + Content(data)
    {
      hide Fold, StateVars, BitCount, Initial;
      if data.Null? {
        assert message + [] == message;
        return;
      }
      var rest := data.bytes;
      BitCountAdds(|message|, |rest|);
      bitLen_ := (bitLen_ + BitCount(|rest|)) % 0x1_0000_0000_0000_0000;
      ghost var target := message + rest;
      assert Absorbed(message);
      hide Absorbed;
      while |rest| > 0
        invariant Absorbed(message) && message + rest == target
        invariant bitLen_ == BitCount(|target|)
      {
        Room();
        var take := 128 - bufferLen_;
        if take > |rest| {
          take := |rest|;
        }
        TakeBytes(rest, take);
        rest := rest[take..];
      }
    }

    /** One turn of the loop: fills the buffer, and compresses it when it is full. */
    lemma Room()
      requires Absorbed(message)
      ensures Shaped() && bufferLen_ < 128 && (digestLen_ == 48 || digestLen_ == 64)
    {
      hide Fold, StateVars, Initial;
    }

    method TakeBytes(rest: seq<byte>, take: nat)
      requires Absorbed(message) && 0 < take <= |rest| && take <= 128 - bufferLen_
      modifies this`bufferLen_, this`message, state_, buffer_
      ensures Absorbed(message) && message == old(message) + rest[..take]
    {
      hide Fold, Compress, StateVars, Initial;
      ghost var m, tail := message, buffer_[..bufferLen_];
      Append(buffer_, bufferLen_, rest, take);
      Tail(m, bufferLen_, rest[..take], 128);
      bufferLen_ := bufferLen_ + take;
      message := m + rest[..take];
      if bufferLen_ == 128 {
        FoldStep(Initial(digestLen_), m[..|m| - |tail|], tail + rest[..take]);
        assert m[..|m| - |tail|] + (tail + rest[..take]) == message;
        assert buffer_[..] == tail + rest[..take];
        ProcessBlock(buffer_[..]);
        bufferLen_ := 0;
        assert message[..|message|] == message;
      } else {
        assert message[..|message| - bufferLen_] == m[..|m| - |tail|];
        assert state_[..] == old(state_[..]);
      }
    }

    /** Writes the length block of finish directly, as update would count its bits. */
    method LastBlock(ghost m: seq<byte>, lenBits: u64)
      requires Absorbed(message) && bufferLen_ == 112
      requires message + BeBytes(lenBits, 16) == Padded(m)
      modifies state_, buffer_
      ensures StateVars(state_[..]) == Fold(Initial(digestLen_), Padded(m))
    {
      hide Fold, Compress, BeBytes, Padded, StateVars, Initial;
      var lenBytes := StoreBigEndian(lenBits, 16);
      ghost var tail := buffer_[..112];
      Append(buffer_, bufferLen_, lenBytes[..], 16);
      ghost var done, last := message[..|message| - 112], tail + BeBytes(lenBits, 16);
      assert buffer_[..] == last;
      FoldStep(Initial(digestLen_), done, last);
      assert done + last == Padded(m);
      assert state_[..] == old(state_[..]);
      ProcessBlock(buffer_[..]);
    }

    /** Nothing but the message is left in the state: a hasher with an empty message is a fresh one. */
    lemma EmptyIsFresh()
      requires Valid() && message == []
      ensures bitLen_ == 0 && bufferLen_ == 0 && StateVars(state_[..]) == Initial(digestLen_)
    {
      hide Fold, StateVars, Initial;
      EmptyFold(Initial(digestLen_));
      assert message[..0] == [];
    }

    lemma Full(m: seq<byte>, k: nat)
      requires Valid() && message == m + [0x80] + Zeros(k)
      ensures bufferLen_ == 112 <==> Fits(|m|, k, 128, 16)
    {
      hide Fold, StateVars, BitCount, Initial;
      var n := |m| + 1 + k;
      assert |message| == n && bufferLen_ == n % 128;
    }

    /** The 0x80 and the zeros of finish. */
    method AppendZeros()
      requires Valid()
      modifies this`bitLen_, this`bufferLen_, this`message, state_, buffer_
      ensures Valid() && bufferLen_ == 112
      ensures message == old(message) + [0x80] + Zeros(ZeroCount(old(|message|), 128, 16))
    {
      hide Valid, Absorbed, ZeroCount, Fits;
      ghost var m := message;
      Update(Data([0x80]));
      ghost var k := 0;
      ZeroCountFits(|m|, 128, 16);
      Full(m, 0);
      while bufferLen_ != 112
        invariant Valid() && message == m + [0x80] + Zeros(k)
        invariant bufferLen_ == 112 <==> Fits(|m|, k, 128, 16)
        invariant k <= ZeroCount(|m|, 128, 16) && forall j: nat :: j < k ==> !Fits(|m|, j, 128, 16)
        decreases ZeroCount(|m|, 128, 16) - k
      {
        Update(Data([0]));
        assert Zeros(k) + [0] == Zeros(k + 1);
        k := k + 1;
        Full(m, k);
      }
      ZeroCountIsLeast(|m|, 128, 16, k);
    }

    /** The digest of the selected variant; the hasher is left reset for SHA-512 whatever it was. */
    method Finish(out: array<byte>)
      requires Valid() && out.Length >= digestLen_ && Apart(out)
      modifies this`bitLen_, this`bufferLen_, this`digestLen_, this`message, state_, buffer_, out
      ensures Valid() && message == [] && digestLen_ == 64
      ensures out[..old(digestLen_)] == Digest(old(digestLen_), old(message))
      ensures out[old(digestLen_)..] == old(out[digestLen_..])
    {
      hide Fold, BeBytes, StateVars, BitCount, Serialise, Initial, Absorbed;
      ghost var m := message;
      var lenBits := bitLen_;
      Room();
      AppendZeros();
      LastBlock(m, lenBits);
      var words := digestLen_ / 8;
      StoreDigest(state_[..], words, out);
      Reset();
    }
  }

  method Hash384Once(input: Input, out: array<byte>)
    requires out.Length >= 48
    modifies out
    ensures out[..48] == Digest(48, Content(input))
    ensures out[48..] == old(out[48..])
  {
    hide Digest, Hasher.Valid, Hasher.Absorbed;
    var h := new Hasher();
    h.Reset384();
    h.Update(input);
    assert [] + Content(input) == Content(input);
    h.Finish(out);
  }

  method Hash512Once(input: Input, out: array<byte>)
    requires out.Length >= 64
    modifies out
    ensures out[..64] == Digest(64, Content(input))
    ensures out[64..] == old(out[64..])
  {
    hide Digest, Hasher.Valid, Hasher.Absorbed;
    var h := new Hasher();
    h.Update(input);
    assert [] + Content(input) == Content(input);
    h.Finish(out);
  }
}
