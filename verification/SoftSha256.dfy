/** The incremental hasher of SoftSha256.cpp: whatever way a message is split into updates,
    finish yields the digest of the whole message. */
module SoftSha256 {
  import opened Bits
  import opened Bytes
  import opened Word32
  import opened Padding
  import opened Sha256
  import opened Hmac

  function StateVars(s: seq<bv32>): Vars
    requires |s| == 8
  {
    Vars(s[0], s[1], s[2], s[3], s[4], s[5], s[6], s[7])
  }

  lemma EmptyFold()
    ensures Fold([]) == INITIAL
  {
  }

  lemma Start(s: seq<bv32>)
    requires s == [0x6a09e667, 0xbb67ae85, 0x3c6ef372, 0xa54ff53a, 0x510e527f, 0x9b05688c, 0x1f83d9ab, 0x5be0cd19]
    ensures StateVars(s) == Fold([])
  {
  }

  lemma FoldStep(data: seq<byte>, block: seq<byte>)
    requires |data| % 64 == 0 && |block| == 64
    ensures Fold(data + block) == Compress(Fold(data), block)
  {
    var all := data + block;
    assert all[..|all| - 64] == data && all[|all| - 64..] == block;
  }

  // ---------- processBlock

  method ExpandBlock(p: seq<byte>) returns (w: array<bv32>)
    requires |p| == 64
    ensures fresh(w) && w.Length == 64 && forall t :: 0 <= t < 64 ==> w[t] == W(p, t)
  {
    hide BlockWord, SmallSigma0, SmallSigma1, Rotr, Shr, Add32, Xor32, ToWord, W;
    w := new bv32[64];
    for i := 0 to 16
      invariant forall t :: 0 <= t < i ==> w[t] == W(p, t)
    {
      w[i] := ToWord(Load32BE(p[4 * i], p[4 * i + 1], p[4 * i + 2], p[4 * i + 3]));
      FirstWords(p, i);
    }
    for i := 16 to 64
      invariant forall t :: 0 <= t < i ==> w[t] == W(p, t)
    {
      var s0 := Xor32(Xor32(Rotr(w[i - 15], 7), Rotr(w[i - 15], 18)), Shr(w[i - 15], 3));
      var s1 := Xor32(Xor32(Rotr(w[i - 2], 17), Rotr(w[i - 2], 19)), Shr(w[i - 2], 10));
      LaterWords(p, i, s0, s1);
      w[i] := Add32(Add32(Add32(w[i - 16], s0), w[i - 7]), s1);
    }
  }

  lemma LaterWords(p: seq<byte>, i: nat, s0: bv32, s1: bv32)
    requires |p| == 64 && i >= 16
    requires s0 == Xor32(Xor32(Rotr(W(p, i - 15), 7), Rotr(W(p, i - 15), 18)), Shr(W(p, i - 15), 3))
    requires s1 == Xor32(Xor32(Rotr(W(p, i - 2), 17), Rotr(W(p, i - 2), 19)), Shr(W(p, i - 2), 10))
    ensures W(p, i) == Add32(Add32(Add32(W(p, i - 16), s0), W(p, i - 7)), s1)
  {
    hide Rotr, Shr, Xor32, Add32, BlockWord;
  }

  lemma FirstWords(p: seq<byte>, i: nat)
    requires |p| == 64 && i < 16
    ensures W(p, i) == ToWord(Load32BE(p[4 * i], p[4 * i + 1], p[4 * i + 2], p[4 * i + 3]))
  {
    assert p[4 * i..4 * i + 4] == [p[4 * i], p[4 * i + 1], p[4 * i + 2], p[4 * i + 3]];
  }

  lemma RoundsStep(v: Vars, p: seq<byte>, t: nat)
    requires |p| == 64 && t < 64
    ensures Rounds(v, p, 0) == v
    ensures Rounds(v, p, t + 1) == Round(Rounds(v, p, t), K(t), W(p, t))
  {
    hide K, W, Round;
  }

  lemma RoundIs(v: Vars, k: bv32, w: bv32, s1: bv32, ch: bv32, s0: bv32, maj: bv32)
    requires s1 == Xor32(Xor32(Rotr(v.e, 6), Rotr(v.e, 11)), Rotr(v.e, 25))
    requires ch == Xor32(And32(v.e, v.f), And32(Not32(v.e), v.g))
    requires s0 == Xor32(Xor32(Rotr(v.a, 2), Rotr(v.a, 13)), Rotr(v.a, 22))
    requires maj == Xor32(Xor32(And32(v.a, v.b), And32(v.a, v.c)), And32(v.b, v.c))
    ensures var t1 := Add32(Add32(Add32(Add32(v.h, s1), ch), k), w);
      Round(v, k, w) == Vars(Add32(t1, Add32(s0, maj)), v.a, v.b, v.c, Add32(v.d, t1), v.e, v.f, v.g)
  {
    hide Rotr, Add32, Xor32, And32, Not32;
  }

  lemma BeBytes4(x: u32)
    ensures BeBytes(x, 4) == [x / 0x100_0000 % 0x100, x / 0x1_0000 % 0x100, x / 0x100 % 0x100, x % 0x100]
  {
    assert x / 0x1_0000 == x / 0x100 / 0x100 && x / 0x100_0000 == x / 0x1_0000 / 0x100;
    BeBytesNone(x / 0x100_0000 / 0x100);
    BeBytesStep(x / 0x100_0000, 0);
    BeBytesStep(x / 0x1_0000, 1);
    BeBytesStep(x / 0x100, 2);
    BeBytesStep(x, 3);
  }

  method StoreWord(w: bv32, at: nat, out: array<byte>)
    requires at + 4 <= out.Length
    modifies out
    ensures out[..at] == old(out[..at]) && out[at + 4..] == old(out[at + 4..])
    ensures out[at..at + 4] == BeBytes(FromWord(w), 4)
  {
    var x := FromWord(w);
    BeBytes4(x);
    hide BeBytes, FromWord;
    out[at] := x / 0x100_0000 % 0x100;
    out[at + 1] := x / 0x1_0000 % 0x100;
    out[at + 2] := x / 0x100 % 0x100;
    out[at + 3] := x % 0x100;
  }

  method StoreDigest(state: seq<bv32>, out: array<byte>)
    requires |state| == 8 && out.Length >= 32
    modifies out
    ensures out[..32] == Serialise(StateVars(state))
    ensures out[32..] == old(out[32..])
  {
    hide BeBytes, FromWord;
    for i := 0 to 8
      invariant out[..4 * i] == WordBytes(state[..i])
      invariant out[32..] == old(out[32..])
    {
      ghost var before := out[..4 * i];
      StoreWord(state[i], 4 * i, out);
      assert state[..i + 1][..i] == state[..i];
      assert out[..4 * i + 4] == before + BeBytes(FromWord(state[i]), 4);
    }
    assert state[..8] == [state[0], state[1], state[2], state[3], state[4], state[5], state[6], state[7]];
  }

  /** The length field does not depend on the wrap-around of the 64-bit bit counter. */
  lemma LengthField(n: nat)
    ensures BeBytes(BitCount(n), 8) == BeBytes(8 * n, 8)
  {
    Pow2Large();
    BeBytesPeriod(8 * n % 0x1_0000_0000_0000_0000, 8 * n / 0x1_0000_0000_0000_0000, 8, 8 * n);
  }

  class Hasher {
    const state_: array<bv32>
    var bitLen_: u64
    const buffer_: array<byte>
    var bufferLen_: nat
    ghost var message: seq<byte>  // everything hashed since the last reset

    ghost predicate Shaped() {
      state_.Length == 8 && buffer_.Length == 64 && (state_ as object) != (buffer_ as object)
    }

    /** state_ holds the hash of the completed blocks of m, and the buffer holds the rest of m. */
    ghost predicate Absorbed(m: seq<byte>)
      reads this, state_, buffer_
    {
      && Shaped()
      && bufferLen_ == |m| % 64
      && StateVars(state_[..]) == Fold(m[..|m| - bufferLen_])
      && buffer_[..bufferLen_] == m[|m| - bufferLen_..]
    }

    /** The caller's array is none of the hasher's own. */
    ghost predicate Apart(out: array<byte>) {
      out != buffer_ && (out as object) != (state_ as object)
    }

    ghost predicate Valid()
      reads this, state_, buffer_
    {
      Absorbed(message) && bitLen_ == BitCount(|message|)
    }

    constructor ()
      ensures Shaped() && Valid() && message == [] && fresh(state_) && fresh(buffer_)
    {
      state_ := new bv32[8];
      buffer_ := new byte[64];
      new;
      Reset();
    }

    method Reset()
      requires Shaped()
      modifies this`bitLen_, this`bufferLen_, this`message, state_
      ensures Valid() && message == []
    {
      hide Fold, StateVars;
      state_[0] := 0x6a09e667;
      state_[1] := 0xbb67ae85;
      state_[2] := 0x3c6ef372;
      state_[3] := 0xa54ff53a;
      state_[4] := 0x510e527f;
      state_[5] := 0x9b05688c;
      state_[6] := 0x1f83d9ab;
      state_[7] := 0x5be0cd19;
      bitLen_ := 0;
      bufferLen_ := 0;
      message := [];
      Start(state_[..]);
    }

    method ProcessBlock(p: seq<byte>)
      requires Shaped() && |p| == 64
      modifies state_
      ensures StateVars(state_[..]) == Compress(old(StateVars(state_[..])), p)
    {
      hide K, W, BlockWord, Rounds, Round, AddVars, Rotr, Add32, Xor32, And32, Not32;
      var w := ExpandBlock(p);
      ghost var v := StateVars(state_[..]);
      var a, b, c, d := state_[0], state_[1], state_[2], state_[3];
      var e, f, g, h := state_[4], state_[5], state_[6], state_[7];
      RoundsStep(v, p, 0);
      for i := 0 to 64
        modifies {}
        invariant Vars(a, b, c, d, e, f, g, h) == Rounds(v, p, i)
      {
        RoundsStep(v, p, i);
        var S1 := Xor32(Xor32(Rotr(e, 6), Rotr(e, 11)), Rotr(e, 25));
        var ch := Xor32(And32(e, f), And32(Not32(e), g));
        var t1 := Add32(Add32(Add32(Add32(h, S1), ch), K(i)), w[i]);
        var S0 := Xor32(Xor32(Rotr(a, 2), Rotr(a, 13)), Rotr(a, 22));
        var maj := Xor32(Xor32(And32(a, b), And32(a, c)), And32(b, c));
        var t2 := Add32(S0, maj);
        RoundIs(Vars(a, b, c, d, e, f, g, h), K(i), w[i], S1, ch, S0, maj);
        h := g;
        g := f;
        f := e;
        e := Add32(d, t1);
        d := c;
        c := b;
        b := a;
        a := Add32(t1, t2);
      }
      AddToState(a, b, c, d, e, f, g, h);
    }

    method AddToState(a: bv32, b: bv32, c: bv32, d: bv32, e: bv32, f: bv32, g: bv32, h: bv32)
      requires Shaped()
      modifies state_
      ensures StateVars(state_[..]) == AddVars(old(StateVars(state_[..])), Vars(a, b, c, d, e, f, g, h))
    {
      hide Add32;
      state_[0] := Add32(state_[0], a);
      state_[1] := Add32(state_[1], b);
      state_[2] := Add32(state_[2], c);
      state_[3] := Add32(state_[3], d);
      state_[4] := Add32(state_[4], e);
      state_[5] := Add32(state_[5], f);
      state_[6] := Add32(state_[6], g);
      state_[7] := Add32(state_[7], h);
    }

    method Update(data: Input)
      requires Valid()
      modifies this`bitLen_, this`bufferLen_, this`message, state_, buffer_
      ensures Valid()
      ensures message == old(message) + Content(data)
    {
      hide Fold, StateVars, BitCount;
      if data.Null? {
        assert message + [] == message;
        return;
      }
      var rest := data.bytes;
      BitCountAdds(|message|, |rest|);
      bitLen_ := (bitLen_ + BitCount(|rest|)) % 0x1_0000_0000_0000_0000;
      ghost var target := message + rest;
      while |rest| > 0
        invariant Absorbed(message) && message + rest == target
        invariant bitLen_ == BitCount(|target|)
      {
        var take := 64 - bufferLen_;
        if take > |rest| {
          take := |rest|;
        }
        TakeBytes(rest, take);
        rest := rest[take..];
      }
    }

    /** One turn of the loop: fills the buffer, and compresses it when it is full. */
    method TakeBytes(rest: seq<byte>, take: nat)
      requires Absorbed(message) && 0 < take <= |rest| && take <= 64 - bufferLen_
      modifies this`bufferLen_, this`message, state_, buffer_
      ensures Absorbed(message) && message == old(message) + rest[..take]
    {
      hide Fold, Compress, StateVars;
      ghost var m, tail := message, buffer_[..bufferLen_];
      Append(buffer_, bufferLen_, rest, take);
      Tail(m, bufferLen_, rest[..take], 64);
      bufferLen_ := bufferLen_ + take;
      message := m + rest[..take];
      if bufferLen_ == 64 {
        FoldStep(m[..|m| - |tail|], tail + rest[..take]);
        assert m[..|m| - |tail|] + (tail + rest[..take]) == message;
        assert buffer_[..] == tail + rest[..take];
        ProcessBlock(buffer_[..]);
        bufferLen_ := 0;
        assert message[..|message|] == message;
      } else {
        assert message[..|message| - bufferLen_] == m[..|m| - |tail|];
        assert state_[..] == old(state_[..]);
      }
    }

    /** Writes the length block of finish directly, as update would count its bits. */
    method LastBlock(ghost m: seq<byte>, lenBits: u64)
      requires Absorbed(message) && bufferLen_ == 56
      requires message + BeBytes(8 * |m|, 8) == Pad(m, 64, 8)
      requires lenBits == BitCount(|m|)
      modifies state_, buffer_
      ensures |Pad(m, 64, 8)| % 64 == 0 && StateVars(state_[..]) == Fold(Pad(m, 64, 8))
    {
      hide Fold, Compress, BeBytes, Pad, PadWith, StateVars, BitCount;
      var lenBytes := StoreBigEndian(lenBits, 8);
      LengthField(|m|);
      PadLength(m, 8 * |m|, 64, 8);
      ghost var tail := buffer_[..56];
      Append(buffer_, bufferLen_, lenBytes[..], 8);
      ghost var done, last := message[..|message| - 56], tail + BeBytes(8 * |m|, 8);
      assert buffer_[..] == last;
      FoldStep(done, last);
      assert done + last == message + BeBytes(8 * |m|, 8);
      assert state_[..] == old(state_[..]);
      ProcessBlock(buffer_[..]);
    }

    /** Nothing but the message is left in the state: a hasher with an empty message is a fresh one. */
    lemma EmptyIsFresh()
      requires Valid() && message == []
      ensures bitLen_ == 0 && bufferLen_ == 0 && StateVars(state_[..]) == INITIAL
    {
      hide Fold, StateVars;
      EmptyFold();
      assert message[..0] == [];
    }

    lemma Full(m: seq<byte>, k: nat)
      requires Valid() && message == m + [0x80] + Zeros(k)
      ensures bufferLen_ == 56 <==> Fits(|m|, k, 64, 8)
    {
      hide Fold, StateVars, BitCount;
      var n := |m| + 1 + k;
      assert |message| == n && bufferLen_ == n % 64;
    }

    /** The 0x80 and the zeros of finish. */
    method AppendZeros()
      requires Valid()
      modifies this`bitLen_, this`bufferLen_, this`message, state_, buffer_
      ensures Valid() && bufferLen_ == 56
      ensures message == old(message) + [0x80] + Zeros(ZeroCount(old(|message|), 64, 8))
    {
      hide Valid, Absorbed, ZeroCount, Fits;
      ghost var m := message;
      Update(Data([0x80]));
      ghost var k := 0;
      ZeroCountFits(|m|, 64, 8);
      Full(m, 0);
      while bufferLen_ != 56
        invariant Valid() && message == m + [0x80] + Zeros(k)
        invariant bufferLen_ == 56 <==> Fits(|m|, k, 64, 8)
        invariant k <= ZeroCount(|m|, 64, 8) && forall j: nat :: j < k ==> !Fits(|m|, j, 64, 8)
        decreases ZeroCount(|m|, 64, 8) - k
      {
        Update(Data([0]));
        assert Zeros(k) + [0] == Zeros(k + 1);
        k := k + 1;
        Full(m, k);
      }
      ZeroCountIsLeast(|m|, 64, 8, k);
    }

    method Finish(out: array<byte>)
      requires Valid() && out.Length >= 32 && Apart(out)
      modifies this`bitLen_, this`bufferLen_, this`message, state_, buffer_, out
      ensures Valid() && message == []
      ensures out[..32] == Hash(old(message))
      ensures out[32..] == old(out[32..])
    {
      hide Fold, BeBytes, StateVars, BitCount, Serialise;
      ghost var m := message;
      var lenBits := bitLen_;
      AppendZeros();
      LastBlock(m, lenBits);
      StoreDigest(state_[..], out);
      Reset();
    }
  }

  /** The one-shot hash. */
  method HashOnce(input: Input, out: array<byte>)
    requires out.Length >= 32
    modifies out
    ensures out[..32] == Hash(Content(input))
    ensures out[32..] == old(out[32..])
  {
    hide Hash, Hasher.Valid, Hasher.Absorbed;
    var h := new Hasher();
    h.Update(input);
    assert [] + Content(input) == Content(input);
    h.Finish(out);
  }

  /** The XOR of the padded key with 0x36 and 0x5C. */
  method Pads(k0: array<byte>) returns (ipad: array<byte>, opad: array<byte>)
    requires k0.Length == 64
    ensures fresh(ipad) && ipad[..] == XorBytes(k0[..], Filled(0x36, 64))
    ensures fresh(opad) && opad[..] == XorBytes(k0[..], Filled(0x5C, 64))
  {
    hide XorByte;
    ipad, opad := new byte[64], new byte[64];
    for i := 0 to 64
      invariant forall j :: 0 <= j < i ==> ipad[j] == XorByte(k0[j], 0x36) && opad[j] == XorByte(k0[j], 0x5C)
      invariant k0[..] == old(k0[..])
    {
      ipad[i] := XorByte(k0[i], 0x36);
      opad[i] := XorByte(k0[i], 0x5C);
    }
  }

  method PadKey(key: seq<byte>) returns (k0: array<byte>)
    ensures fresh(k0) && k0[..] == BlockKey(key)
  {
    hide Hash;
    k0 := new byte[64](_ => 0);
    if |key| > 64 {
      HashOnce(Data(key), k0);
    } else {
      Append(k0, 0, key, |key|);
    }
    assert k0[..] == BlockKey(key);
  }

  /** One pass of HMAC, which leaves the hasher ready for the next pass. */
  method Pass(h: Hasher, pad: seq<byte>, text: Input, out: array<byte>)
    requires h.Valid() && h.message == [] && out.Length >= 32 && h.Apart(out)
    modifies h, h.state_, h.buffer_, out
    ensures h.Valid() && h.message == []
    ensures out[..32] == Hash(pad + Content(text))
    ensures out[32..] == old(out[32..])
  {
    hide Hash, Hasher.Valid, Hasher.Absorbed;
    h.Update(Data(pad));
    h.Update(text);
    assert h.message == pad + Content(text);
    h.Finish(out);
  }

  method HmacSha256(key: seq<byte>, msg: Input, out: array<byte>)
    requires out.Length >= 32
    modifies out
    ensures out[..32] == Mac(key, Content(msg))
    ensures out[32..] == old(out[32..])
  {
    hide Hash, Hasher.Valid, Hasher.Absorbed, BlockKey, XorBytes, Filled;
    var k0 := PadKey(key);
    var ipad, opad := Pads(k0);
    var inner := new byte[32];
    var h := new Hasher();
    Pass(h, ipad[..], msg, inner);
    assert inner[..] == inner[..32];
    Pass(h, opad[..], Data(inner[..]), out);
  }
}
