/** The in-place AES-128 block cipher of SoftAes128.cpp, proved to compute Cipher and InvCipher. */
module SoftAes128 {
  import opened Bits
  import opened Bytes
  import opened AesSbox
  import opened Gf256
  import Aes = Aes128
  import Gf2

  const RCON: seq<byte> := [0x01, 0x02, 0x04, 0x08, 0x10, 0x20, 0x40, 0x80, 0x1B, 0x36]

  lemma RconTable(i: nat)
    requires 1 <= i <= 10
    ensures RCON[i - 1] == Aes.Rcon(i)
  {
    if i > 1 {
      RconTable(i - 1);
      RconNext(i);
      TimesTwo(RCON[i - 2]);
    }
  }

  lemma RconNext(i: nat)
    requires 2 <= i <= 10
    ensures RCON[i - 1] == Xtime(RCON[i - 2])
  {
    Gf2.XorZero(0x1B);
    hide Xtime, Xor;
    XtimeCases(RCON[i - 2]);
    if i == 9 {
      assert RCON[i - 2] == 0x80;
    } else {
      assert RCON[i - 1] == 2 * (RCON[i - 2] as int);
    }
  }

  /** The word the source XORs in gives the next word of the key schedule. */
  lemma TempWord(key: seq<byte>, i: nat, t: seq<byte>)
    requires |key| == 16 && 4 <= i < 44 && t == Aes.KeyWord(key, i - 1)
    ensures Aes.KeyWord(key, i) == XorBytes(Aes.KeyWord(key, i - 4),
              if i % 4 == 0 then [XorByte(Sub(t[1]), RCON[i / 4 - 1]), Sub(t[2]), Sub(t[3]), Sub(t[0])] else t)
  {
    hide *;
    NextWord(key, i);
    if i % 4 == 0 {
      RotatedWord(t, i / 4);
    }
  }

  lemma NextWord(key: seq<byte>, i: nat)
    requires |key| == 16 && 4 <= i
    ensures var t := Aes.KeyWord(key, i - 1);
            Aes.KeyWord(key, i) == XorBytes(Aes.KeyWord(key, i - 4),
              if i % 4 == 0 then XorBytes(Aes.SubWord(Aes.RotWord(t)), [Aes.Rcon(i / 4), 0, 0, 0]) else t)
  {
  }

  lemma RotatedWord(t: seq<byte>, i: nat)
    requires |t| == 4 && 1 <= i <= 10
    ensures [XorByte(Sub(t[1]), RCON[i - 1]), Sub(t[2]), Sub(t[3]), Sub(t[0])]
         == XorBytes(Aes.SubWord(Aes.RotWord(t)), [Aes.Rcon(i), 0, 0, 0])
  {
    hide Sub, Xor, Aes.Rcon;
    RconTable(i);
    Gf2.XorZero(Sub(t[2]));
    Gf2.XorZero(Sub(t[3]));
    Gf2.XorZero(Sub(t[0]));
  }

  method KeyExpansion(key: seq<byte>) returns (roundKeys: array<byte>)
    requires |key| == 16
    ensures fresh(roundKeys) && roundKeys.Length == 176
    ensures forall r: nat | r <= 10 :: roundKeys[16 * r..16 * r + 16] == Aes.RoundKey(key, r)
  {
    hide Sub, XorByte, XorBytes, Expanded, Aes.KeyWord, Aes.RoundKey;
    roundKeys := new byte[176];
    for i := 0 to 16
      invariant forall j :: 0 <= j < i ==> roundKeys[j] == key[j]
    {
      roundKeys[i] := key[i];
    }
    FirstWords(roundKeys[..], key);
    for i := 4 to 44
      invariant Expanded(roundKeys[..], key, i)
    {
      ghost var w := roundKeys[..];
      var temp := roundKeys[4 * (i - 1)..4 * (i - 1) + 4];
      WordAt(w, key, i, i - 1);
      WordAt(w, key, i, i - 4);
      TempWord(key, i, temp);
      if i % 4 == 0 {
        temp := [XorByte(Sub(temp[1]), RCON[i / 4 - 1]), Sub(temp[2]), Sub(temp[3]), Sub(temp[0])];
      }
      ExpandWord(roundKeys, i, temp);
      ExpandedStep(w, roundKeys[..], key, i);
    }
    forall r: nat | r <= 10 ensures roundKeys[16 * r..16 * r + 16] == Aes.RoundKey(key, r) {
      FourWords(roundKeys[..], key, r);
    }
  }

  /** The first n words of w are those of the key schedule. */
  ghost predicate Expanded(w: seq<byte>, key: seq<byte>, n: nat)
    requires |key| == 16
  {
    |w| == 176 && n <= 44 && forall j: nat :: j < n ==> w[4 * j..4 * j + 4] == Aes.KeyWord(key, j)
  }

  lemma WordAt(w: seq<byte>, key: seq<byte>, n: nat, j: nat)
    requires |key| == 16 && Expanded(w, key, n) && j < n
    ensures w[4 * j..4 * j + 4] == Aes.KeyWord(key, j)
  {
  }

  lemma FirstWords(w: seq<byte>, key: seq<byte>)
    requires |key| == 16 && |w| == 176 && w[..16] == key
    ensures Expanded(w, key, 4)
  {
    forall j: nat | j < 4 ensures w[4 * j..4 * j + 4] == Aes.KeyWord(key, j) {
      assert w[..16][4 * j..4 * j + 4] == w[4 * j..4 * j + 4];
    }
  }

  lemma ExpandedStep(v: seq<byte>, w: seq<byte>, key: seq<byte>, i: nat)
    requires |key| == 16 && Expanded(v, key, i) && i < 44 && |w| == 176
    requires w[..4 * i] == v[..4 * i] && w[4 * i..4 * i + 4] == Aes.KeyWord(key, i)
    ensures Expanded(w, key, i + 1)
  {
    hide Aes.KeyWord;
    forall j: nat | j < i ensures w[4 * j..4 * j + 4] == Aes.KeyWord(key, j) {
      WordAt(v, key, i, j);
      assert w[..4 * i][4 * j..4 * j + 4] == w[4 * j..4 * j + 4] && v[..4 * i][4 * j..4 * j + 4] == v[4 * j..4 * j + 4];
    }
  }

  /** Word i of the schedule: the word four places before it, XORed with the word prepared in temp. */
  method ExpandWord(roundKeys: array<byte>, i: nat, temp: seq<byte>)
    requires roundKeys.Length == 176 && 4 <= i < 44 && |temp| == 4
    modifies roundKeys
    ensures roundKeys[..4 * i] == old(roundKeys[..4 * i])
    ensures roundKeys[4 * i..4 * i + 4] == XorBytes(old(roundKeys[4 * (i - 4)..4 * (i - 4) + 4]), temp)
  {
    hide XorByte;
    ghost var w := roundKeys[..];
    for j := 0 to 4
      invariant forall k :: 0 <= k < 4 * i ==> roundKeys[k] == w[k]
      invariant forall k :: 0 <= k < j ==> roundKeys[4 * i + k] == XorByte(w[4 * (i - 4) + k], temp[k])
    {
      roundKeys[4 * i + j] := XorByte(roundKeys[4 * (i - 4) + j], temp[j]);
    }
  }

  lemma FourWords(w: seq<byte>, key: seq<byte>, r: nat)
    requires |key| == 16 && Expanded(w, key, 44) && r <= 10
    ensures w[16 * r..16 * r + 16] == Aes.RoundKey(key, r)
  {
    hide Aes.KeyWord;
    var j := 4 * r;
    WordAt(w, key, 44, j);
    WordAt(w, key, 44, j + 1);
    WordAt(w, key, 44, j + 2);
    WordAt(w, key, 44, j + 3);
    assert w[16 * r..16 * r + 16] == w[4 * j..4 * j + 4] + w[4 * (j + 1)..4 * (j + 1) + 4]
                                   + w[4 * (j + 2)..4 * (j + 2) + 4] + w[4 * (j + 3)..4 * (j + 3) + 4];
  }

  method AddRoundKey(state: array<byte>, roundKey: seq<byte>)
    requires state.Length == 16 && |roundKey| == 16
    modifies state
    ensures state[..] == XorBytes(old(state[..]), roundKey)
  {
    hide XorByte;
    for i := 0 to 16
      invariant forall j :: 0 <= j < i ==> state[j] == XorByte(old(state[j]), roundKey[j])
      invariant forall j :: i <= j < 16 ==> state[j] == old(state[j])
    {
      state[i] := XorByte(state[i], roundKey[i]);
    }
  }

  method SubBytes(state: array<byte>)
    requires state.Length == 16
    modifies state
    ensures state[..] == Aes.SubBytes(old(state[..]))
  {
    hide Sub;
    for i := 0 to 16
      invariant forall j :: 0 <= j < i ==> state[j] == Sub(old(state[j]))
      invariant forall j :: i <= j < 16 ==> state[j] == old(state[j])
    {
      state[i] := Sub(state[i]);
    }
  }

  lemma SameBlock(a: seq<byte>, b: seq<byte>)
    requires |a| == 16 && |b| == 16
    requires a[0] == b[0] && a[1] == b[1] && a[2] == b[2] && a[3] == b[3] && a[4] == b[4] && a[5] == b[5]
    requires a[6] == b[6] && a[7] == b[7] && a[8] == b[8] && a[9] == b[9] && a[10] == b[10] && a[11] == b[11]
    requires a[12] == b[12] && a[13] == b[13] && a[14] == b[14] && a[15] == b[15]
    ensures a == b
  {
  }

  lemma ShiftedRows(s: seq<byte>) returns (t: seq<byte>)
    requires |s| == 16
    ensures t == Aes.ShiftRows(s)
    ensures t[0] == s[0] && t[1] == s[5] && t[2] == s[10] && t[3] == s[15] && t[4] == s[4] && t[5] == s[9]
      && t[6] == s[14] && t[7] == s[3]
    ensures t[8] == s[8] && t[9] == s[13] && t[10] == s[2] && t[11] == s[7] && t[12] == s[12] && t[13] == s[1]
      && t[14] == s[6] && t[15] == s[11]
  {
    t := Aes.ShiftRows(s);
  }

  lemma InvShiftedRows(s: seq<byte>) returns (t: seq<byte>)
    requires |s| == 16
    ensures t == Aes.InvShiftRows(s)
    ensures t[0] == s[0] && t[1] == s[13] && t[2] == s[10] && t[3] == s[7] && t[4] == s[4] && t[5] == s[1]
      && t[6] == s[14] && t[7] == s[11]
    ensures t[8] == s[8] && t[9] == s[5] && t[10] == s[2] && t[11] == s[15] && t[12] == s[12] && t[13] == s[9]
      && t[14] == s[6] && t[15] == s[3]
  {
    t := Aes.InvShiftRows(s);
  }

  method ShiftRows(state: array<byte>)
    requires state.Length == 16
    modifies state
    ensures state[..] == Aes.ShiftRows(old(state[..]))
  {
    hide *;
    ghost var s := state[..];
    ghost var shifted := ShiftedRows(s);
    var t := state[1];
    state[1] := state[5];
    state[5] := state[9];
    state[9] := state[13];
    state[13] := t;
    assert state[1] == s[5] && state[5] == s[9] && state[9] == s[13] && state[13] == s[1];
    t := state[2];
    state[2] := state[10];
    state[10] := t;
    t := state[6];
    state[6] := state[14];
    state[14] := t;
    assert state[2] == s[10] && state[10] == s[2] && state[6] == s[14] && state[14] == s[6];
    t := state[15];
    state[15] := state[11];
    state[11] := state[7];
    state[7] := state[3];
    state[3] := t;
    SameBlock(state[..], shifted);
  }

  method InvShiftRows(state: array<byte>)
    requires state.Length == 16
    modifies state
    ensures state[..] == Aes.InvShiftRows(old(state[..]))
  {
    hide *;
    ghost var s := state[..];
    ghost var shifted := InvShiftedRows(s);
    var t := state[13];
    state[13] := state[9];
    state[9] := state[5];
    state[5] := state[1];
    state[1] := t;
    assert state[1] == s[13] && state[5] == s[1] && state[9] == s[5] && state[13] == s[9];
    t := state[2];
    state[2] := state[10];
    state[10] := t;
    t := state[6];
    state[6] := state[14];
    state[14] := t;
    assert state[2] == s[10] && state[10] == s[2] && state[6] == s[14] && state[14] == s[6];
    t := state[3];
    state[3] := state[7];
    state[7] := state[11];
    state[11] := state[15];
    state[15] := t;
    SameBlock(state[..], shifted);
  }

  /** The rows of the source's mixColumns are those of the circulant matrix with first row 2, 3, 1, 1. */
  lemma MixRows(a: byte, b: byte, c: byte, d: byte)
    ensures Aes.Dot(2, 3, 1, 1, a, b, c, d)
         == XorByte(XorByte(XorByte(XorByte(Xtime(a), Xtime(b)), b), c), d)
    ensures Aes.Dot(1, 2, 3, 1, a, b, c, d)
         == XorByte(XorByte(XorByte(XorByte(a, Xtime(b)), Xtime(c)), c), d)
    ensures Aes.Dot(1, 1, 2, 3, a, b, c, d)
         == XorByte(XorByte(XorByte(XorByte(a, b), Xtime(c)), Xtime(d)), d)
    ensures Aes.Dot(3, 1, 1, 2, a, b, c, d)
         == XorByte(XorByte(XorByte(XorByte(Xtime(a), a), b), c), Xtime(d))
  {
    hide Xor, Times, Xtime;
    TimesOne(a); TimesOne(b); TimesOne(c); TimesOne(d);
    TimesTwo(a); TimesTwo(b); TimesTwo(c); TimesTwo(d);
    TimesThree(a); TimesThree(b); TimesThree(c); TimesThree(d);
    XorAssoc(Xtime(a), Xtime(b), b);
    XorAssoc(XorByte(a, Xtime(b)), Xtime(c), c);
    XorAssoc(XorByte(XorByte(a, b), Xtime(c)), Xtime(d), d);
  }

  method MixColumns(state: array<byte>)
    requires state.Length == 16
    modifies state
    ensures state[..] == Aes.MixColumns(old(state[..]))
  {
    hide XorByte, Aes.Dot, Xtime, Aes.MixEntry;
    ghost var s := state[..];
    for col := 0 to 4
      invariant forall j :: 0 <= j < 4 * col ==> state[j] == Aes.MixEntry(Aes.MIX, s, j)
      invariant forall j :: 4 * col <= j < 16 ==> state[j] == s[j]
    {
      var i := 4 * col;
      var a, b, c, d := state[i], state[i + 1], state[i + 2], state[i + 3];
      Aes.MixedColumn(Aes.MIX, s, col);
      MixRows(a, b, c, d);
      state[i] := XorByte(XorByte(XorByte(XorByte(Xtime(a), Xtime(b)), b), c), d);
      state[i + 1] := XorByte(XorByte(XorByte(XorByte(a, Xtime(b)), Xtime(c)), c), d);
      state[i + 2] := XorByte(XorByte(XorByte(XorByte(a, b), Xtime(c)), Xtime(d)), d);
      state[i + 3] := XorByte(XorByte(XorByte(XorByte(Xtime(a), a), b), c), Xtime(d));
    }
  }

  /** `mul(a, k0) ^ mul(b, k1) ^ mul(c, k2) ^ mul(d, k3)` */
  method MulRow(k0: byte, k1: byte, k2: byte, k3: byte, a: byte, b: byte, c: byte, d: byte) returns (r: byte)
    ensures r == Aes.Dot(k0, k1, k2, k3, a, b, c, d)
  {
    hide XorByte, Times;
    var w := MulLoop(a, k0);
    var x := MulLoop(b, k1);
    var y := MulLoop(c, k2);
    var z := MulLoop(d, k3);
    TimesSwap(a, k0);
    TimesSwap(b, k1);
    TimesSwap(c, k2);
    TimesSwap(d, k3);
    r := XorByte(XorByte(XorByte(w, x), y), z);
  }

  lemma TimesSwap(a: byte, b: byte)
    ensures Times(a, b) == Times(b, a)
  {
    IsModulus();
    Gf2.MulComm(a, b, POLY, 8);
  }

  method InvMixColumns(state: array<byte>)
    requires state.Length == 16
    modifies state
    ensures state[..] == Aes.InvMixColumns(old(state[..]))
  {
    hide Aes.Dot, Aes.MixEntry;
    ghost var s := state[..];
    for col := 0 to 4
      invariant forall j :: 0 <= j < 4 * col ==> state[j] == Aes.MixEntry(Aes.INV_MIX, s, j)
      invariant forall j :: 4 * col <= j < 16 ==> state[j] == s[j]
    {
      var i := 4 * col;
      var a, b, c, d := state[i], state[i + 1], state[i + 2], state[i + 3];
      Aes.MixedColumn(Aes.INV_MIX, s, col);
      state[i] := MulRow(0x0E, 0x0B, 0x0D, 0x09, a, b, c, d);
      state[i + 1] := MulRow(0x09, 0x0E, 0x0B, 0x0D, a, b, c, d);
      state[i + 2] := MulRow(0x0D, 0x09, 0x0E, 0x0B, a, b, c, d);
      state[i + 3] := MulRow(0x0B, 0x0D, 0x09, 0x0E, a, b, c, d);
    }
  }

  lemma SubInjective(i: byte)
    ensures forall j: byte :: j != i ==> Sub(j) != Sub(i)
  {
    hide Sub, InvSub;
    forall j: byte | j != i ensures Sub(j) != Sub(i) {
      InvSubSub(j);
      InvSubSub(i);
    }
  }

  /** The cipher with its process-wide inverse S-box, filled on first use. */
  class BlockCipher {
    const rsbox: array<byte>
    var done: bool

    ghost predicate Valid()
      reads this, rsbox
    {
      rsbox.Length == 0x100 && (done ==> forall y: byte :: rsbox[y] == InvSub(y))
    }

    constructor ()
      ensures Valid() && !done && fresh(rsbox)
    {
      rsbox := new byte[0x100];
      done := false;
    }

    method InitRsbox()
      requires Valid()
      modifies this, rsbox
      ensures Valid() && done
    {
      if done {
        return;
      }
      hide Sub, InvSub;
      for i := 0 to 0x100
        invariant !done
        invariant forall j: byte :: j < i ==> rsbox[Sub(j)] == j
      {
        SubInjective(i);
        rsbox[Sub(i)] := i;
      }
      forall y: byte ensures rsbox[y] == InvSub(y) {
        SubInvSub(y);
      }
      done := true;
    }

    method InvSubBytes(state: array<byte>)
      requires Valid() && done && state.Length == 16 && state != rsbox
      modifies state
      ensures state[..] == Aes.InvSubBytes(old(state[..]))
    {
      hide InvSub;
      for i := 0 to 16
        invariant forall j :: 0 <= j < i ==> state[j] == InvSub(old(state[j]))
        invariant forall j :: i <= j < 16 ==> state[j] == old(state[j])
      {
        state[i] := rsbox[state[i]];
      }
    }

    method Cipher(state: array<byte>, roundKeys: array<byte>, decrypt: bool, ghost key: seq<byte>)
      requires Valid() && done && state.Length == 16 && roundKeys.Length == 176 && |key| == 16
      requires state != rsbox && state != roundKeys
      requires forall r: nat | r <= 10 :: roundKeys[16 * r..16 * r + 16] == Aes.RoundKey(key, r)
      modifies state
      ensures state[..] == if decrypt then Aes.InvCipher(key, old(state[..])) else Aes.Cipher(key, old(state[..]))
    {
      hide XorBytes, Aes.RoundKey, Aes.SubBytes, Aes.ShiftRows, Aes.MixColumns;
      hide Aes.InvSubBytes, Aes.InvShiftRows, Aes.InvMixColumns;
      ghost var s := state[..];
      assert roundKeys[160..176] == Aes.RoundKey(key, 10) && roundKeys[0..16] == Aes.RoundKey(key, 0);
      if decrypt {
        AddRoundKey(state, roundKeys[160..176]);
        var round := 9;
        while round > 0
          invariant 0 <= round <= 9
          invariant state[..] == Aes.InvRounds(key, s, 9 - round)
        {
          InvShiftRows(state);
          InvSubBytes(state);
          AddRoundKey(state, roundKeys[16 * round..16 * round + 16]);
          InvMixColumns(state);
          round := round - 1;
        }
        InvShiftRows(state);
        InvSubBytes(state);
        AddRoundKey(state, roundKeys[0..16]);
      } else {
        AddRoundKey(state, roundKeys[0..16]);
        for round := 1 to 10
          invariant state[..] == Aes.Rounds(key, s, round - 1)
        {
          SubBytes(state);
          ShiftRows(state);
          MixColumns(state);
          AddRoundKey(state, roundKeys[16 * round..16 * round + 16]);
        }
        SubBytes(state);
        ShiftRows(state);
        AddRoundKey(state, roundKeys[160..176]);
      }
    }

    /** The block is read before the output is written, so `input` may be the contents of `output`. */
    method EncryptBlock(key: seq<byte>, input: seq<byte>, output: array<byte>)
      requires Valid() && |key| == 16 && |input| == 16 && output.Length == 16 && output != rsbox
      modifies this, rsbox, output
      ensures Valid()
      ensures output[..] == Aes.Cipher(key, input)
    {
      hide Aes.Cipher, Aes.InvCipher, Aes.RoundKey, InvSub;
      InitRsbox();
      var roundKeys := KeyExpansion(key);
      var state := new byte[16](i requires 0 <= i < 16 => input[i]);
      assert state[..] == input;
      Cipher(state, roundKeys, false, key);
      Copy(state, output);
    }

    method DecryptBlock(key: seq<byte>, input: seq<byte>, output: array<byte>)
      requires Valid() && |key| == 16 && |input| == 16 && output.Length == 16 && output != rsbox
      modifies this, rsbox, output
      ensures Valid()
      ensures output[..] == Aes.InvCipher(key, input)
    {
      hide Aes.Cipher, Aes.InvCipher, Aes.RoundKey, InvSub;
      InitRsbox();
      var roundKeys := KeyExpansion(key);
      var state := new byte[16](i requires 0 <= i < 16 => input[i]);
      assert state[..] == input;
      Cipher(state, roundKeys, true, key);
      Copy(state, output);
    }
  }

  method Copy(from: array<byte>, to: array<byte>)
    requires from.Length == 16 && to.Length == 16 && from != to
    modifies to
    ensures to[..] == from[..]
  {
    for i := 0 to 16
      invariant forall j :: 0 <= j < i ==> to[j] == from[j]
    {
      to[i] := from[i];
    }
  }
}
