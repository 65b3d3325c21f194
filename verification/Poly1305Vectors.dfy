/** The known answer of RFC 8439, section 2.5.2, computed by the definitions of Poly1305. */
module Poly1305Vectors {
  import opened Bits
  import opened Bytes
  import opened Poly1305

  type part = seq<byte>

  // "Cryptographic Fo", "rum Research Gro" and "up"
  const FIRST: part := [0x43, 0x72, 0x79, 0x70, 0x74, 0x6F, 0x67, 0x72, 0x61, 0x70, 0x68, 0x69, 0x63, 0x20, 0x46, 0x6F]
  const SECOND: part := [0x72, 0x75, 0x6D, 0x20, 0x52, 0x65, 0x73, 0x65, 0x61, 0x72, 0x63, 0x68, 0x20, 0x47, 0x72, 0x6F]
  const LAST: part := [0x75, 0x70]

  const R_KEY: part := [0x85, 0xD6, 0xBE, 0x78, 0x57, 0x55, 0x6D, 0x33, 0x7F, 0x44, 0x52, 0xFE, 0x42, 0xD5, 0x06, 0xA8]
  const S_KEY: part := [0x01, 0x03, 0x80, 0x8A, 0xFB, 0x0D, 0xB2, 0xFD, 0x4A, 0xBF, 0xF6, 0xAF, 0x41, 0x49, 0xF5, 0x1B]
  const TAG: part := [0xA8, 0x06, 0x1D, 0xC1, 0x30, 0x51, 0x36, 0xC6, 0xC2, 0x2B, 0x8B, 0xAF, 0x0C, 0x01, 0x27, 0xA9]

  lemma Value(k: seq<byte>, w0: nat, w1: nat, w2: nat, w3: nat)
    requires |k| == 16
    requires w0 == k[0] + 0x100 * (k[1] as int) + 0x1_0000 * (k[2] as int) + 0x100_0000 * (k[3] as int)
    requires w1 == k[4] + 0x100 * (k[5] as int) + 0x1_0000 * (k[6] as int) + 0x100_0000 * (k[7] as int)
    requires w2 == k[8] + 0x100 * (k[9] as int) + 0x1_0000 * (k[10] as int) + 0x100_0000 * (k[11] as int)
    requires w3 == k[12] + 0x100 * (k[13] as int) + 0x1_0000 * (k[14] as int) + 0x100_0000 * (k[15] as int)
    ensures LE(k) == Words(w0, w1, w2, w3)
  {
    hide LE;
    LE16(k);
  }

  lemma Values()
    ensures |R_KEY| == 16 && LE(R_KEY) == Words(0x78BED685, 0x336D5557, 0xFE52447F, 0xA806D542)
    ensures |S_KEY| == 16 && LE(S_KEY) == 0x1BF54941_AFF6BF4A_FDB20DFB_8A800301
    ensures |TAG| == 16 && LE(TAG) == 0xA927010C_AF8B2BC2_C6365130_C11D06A8
  {
    hide LE;
    Value(R_KEY, 0x78BED685, 0x336D5557, 0xFE52447F, 0xA806D542);
    Value(S_KEY, 0x8A800301, 0xFDB20DFB, 0xAFF6BF4A, 0x1BF54941);
    Value(TAG, 0xC11D06A8, 0xC6365130, 0xAF8B2BC2, 0xA927010C);
  }

  lemma BlockOne()
    ensures |FIRST| == 16 && LE(FIRST + [1]) == 0x1_6F462063_69687061_72676F74_70797243
  {
    hide LE;
    Value(FIRST, 0x70797243, 0x72676F74, 0x69687061, 0x6F462063);
    FullValue(FIRST);
  }

  lemma BlockTwo()
    ensures |SECOND| == 16 && LE(SECOND + [1]) == 0x1_6F724720_68637261_65736552_206D7572
  {
    hide LE;
    Value(SECOND, 0x206D7572, 0x65736552, 0x68637261, 0x6F724720);
    FullValue(SECOND);
  }

  lemma BlockThree()
    ensures |LAST| == 2 && LE(LAST + [1]) == 0x17075
  {
    var k := LAST + [1];
    assert k[0] == 0x75 && k[1] == 0x70 && k[2] == 1;
    hide LE;
    LESuffix(k, 0);
    LESuffix(k, 1);
    LESuffix(k, 2);
    assert k[0..] == k;
  }

  lemma FullValue(block: seq<byte>)
    requires |block| == 16
    ensures LE(block + [1]) == LE(block) + TWO_128
  {
    Pow2Large();
    assert LE([1]) == 1;
    hide LE, Pow2;
    LEConcat(block, [1]);
  }

  lemma Coefficients3(a: seq<byte>, b: seq<byte>, c: seq<byte>)
    requires |a| == 16 == |b| && 0 < |c| < 16
    ensures Coefficients(a + b + c) == [LE(a + [1]), LE(b + [1]), LE(c + [1])]
  {
    hide *;
    assert a + b + c == a + (b + c);
    CoefficientsNext(a, b + c);
    CoefficientsNext(b, c);
    CoefficientsLast(c);
  }

  lemma CoefficientsNext(a: seq<byte>, s: seq<byte>)
    requires |a| == 16
    ensures Coefficients(a + s) == [LE(a + [1])] + Coefficients(s)
  {
    assert (a + s)[..16] == a && (a + s)[16..] == s;
    hide LE;
  }

  lemma CoefficientsLast(s: seq<byte>)
    requires 0 < |s| < 16
    ensures Coefficients(s) == [LE(s + [1])]
  {
    hide LE;
  }

  // ---------- clamping, and the polynomial of degree 3

  lemma MaskedWord(w: nat)
    ensures And(w, 0xFFF_FFFC) == 4 * (w / 4 % 0x400_0000) && And(w, 0xFFF_FFFF) == w % 0x1000_0000
  {
    Pow2Table();
    Pow2Add(26, 2);
    assert And(w % 4, 0) == 0;
    hide And, Pow2;
    AndOfSums(w % 4, 0, w / 4, 0x3FF_FFFF, 2, 4);
    AndLowMask(w / 4, 26);
    AndLowMask(w, 28);
  }

  lemma Masked(w0: u32, w1: u32, w2: u32, w3: u32)
    ensures And(Words(w0, w1, w2, w3), CLAMP)
      == Words(w0 % 0x1000_0000, 4 * (w1 / 4 % 0x400_0000), 4 * (w2 / 4 % 0x400_0000), 4 * (w3 / 4 % 0x400_0000))
  {
    Pow2Table();
    hide And, Pow2;
    MaskedWord(w0);
    MaskedWord(w1);
    MaskedWord(w2);
    MaskedWord(w3);
    var p := 0x1_0000_0000;
    AndOfSums(w2, 0xFFF_FFFC, w3, 0xFFF_FFFC, 32, p);
    AndOfSums(w1, 0xFFF_FFFC, w2 + w3 * p, 0xFFF_FFFC_0FFF_FFFC, 32, p);
    AndOfSums(w0, 0xFFF_FFFF, w1 + (w2 + w3 * p) * p, 0xFFF_FFFC_0FFF_FFFC_0FFF_FFFC, 32, p);
  }

  lemma Powers(c1: nat, c2: nat, c3: nat, r: nat, x1: nat, x2: nat, x3: nat)
    requires x1 == c1 * r && x2 == (x1 + c2) * r && x3 == (x2 + c3) * r
    ensures PowerSum([c1, c2, c3], r) == x3
  {
    var cs := [c1, c2, c3];
    HornerIsPowerSum(0, cs, r);
    assert cs[1..] == [c2, c3] && cs[2..] == [c3] && cs[1..][1..] == [c3] && [c3][1..] == [];
    hide PowerSum, Pow;
    HornerNext(0, cs, r);
    HornerNext(x1, [c2, c3], r);
    HornerNext(x2, [c3], r);
    HornerEmpty(x3, r);
  }

  lemma HornerNext(acc: nat, cs: seq<nat>, r: nat)
    requires cs != []
    ensures Horner(acc, cs, r) == Horner((acc + cs[0]) * r, cs[1..], r)
  {
  }

  lemma Sum()
    ensures PowerSum([0x1_6F462063_69687061_72676F74_70797243, 0x1_6F724720_68637261_65736552_206D7572, 0x17075],
                     0x806D540_0E52447C_036D5554_08BED685) % P == 0x2_8D31B7CA_FF946C77_C8844335_369D03A7
  {
    hide PowerSum;
    Powers(0x1_6F462063_69687061_72676F74_70797243, 0x1_6F724720_68637261_65736552_206D7572, 0x17075,
      0x806D540_0E52447C_036D5554_08BED685,
      0xB83FE99_1CA66800_489155DC_D69E8426_BA277945_3994AC90_ED284034_DA565ECF,
      0x5C6EA4_74F5D58C_A0BC3653_30B612AE_3C8C7293_0099085A_0667772E_F09DACBD_0C6DB30A_F8B4178B_89A84B0D_8B699BC5,
      0x2E5EC_BAB2169E_57B276EC_8BD4F294_A37F4603_3C9827DA_0D667EE5_4F5238A3
        * 0x1_00000000_00000000_00000000_00000000_00000000_00000000_00000000_00000000
        + 0xBD304C33_04BEC885_D97750F8_E2F23C31_A138D213_CE545F5E_80766771_CDE1D622);
    ModUnique(
      0x2E5EC_BAB2169E_57B276EC_8BD4F294_A37F4603_3C9827DA_0D667EE5_4F5238A3
        * 0x1_00000000_00000000_00000000_00000000_00000000_00000000_00000000_00000000
        + 0xBD304C33_04BEC885_D97750F8_E2F23C31_A138D213_CE545F5E_80766771_CDE1D622,
      P, 0xB97B_2EAC85A7_95EC9DBB_22F53CA5_28E0B95A_C97DB107_FEC164E3_3F8719F7_6264FABE_3D0CCF6B_74CF925A_48256F81,
      0x2_8D31B7CA_FF946C77_C8844335_369D03A7);
  }

  lemma Clamped()
    ensures |R_KEY| == 16 && And(LE(R_KEY), CLAMP) == 0x806D540_0E52447C_036D5554_08BED685
  {
    ClampedWords();
    hide *;
    Values();
    Masked(0x78BED685, 0x336D5557, 0xFE52447F, 0xA806D542);
  }

  lemma ClampedWords()
    ensures Words(0x78BED685 % 0x1000_0000, 4 * (0x336D5557 / 4 % 0x400_0000),
                  4 * (0xFE52447F / 4 % 0x400_0000), 4 * (0xA806D542 / 4 % 0x400_0000))
      == 0x806D540_0E52447C_036D5554_08BED685
  {
  }

  function Total(msg: seq<byte>, rkey: seq<byte>, skey: seq<byte>): nat {
    (PowerSum(Coefficients(msg), And(LE(rkey), CLAMP)) % P + LE(skey)) % TWO_128
  }

  lemma TotalIs(rkey: seq<byte>, msg: seq<byte>, skey: seq<byte>, a: nat)
    requires PowerSum(Coefficients(msg), And(LE(rkey), CLAMP)) % P == a
    ensures Total(msg, rkey, skey) == (a + LE(skey)) % TWO_128
  {
  }

  lemma TagTotal()
    ensures |TAG| == 16 && Total(FIRST + SECOND + LAST, R_KEY, S_KEY) == LE(TAG)
  {
    hide *;
    BlockOne();
    BlockTwo();
    BlockThree();
    Clamped();
    Coefficients3(FIRST, SECOND, LAST);
    Sum();
    TotalIs(R_KEY, FIRST + SECOND + LAST, S_KEY, 0x2_8D31B7CA_FF946C77_C8844335_369D03A7);
    Values();
    Wrapped();
  }

  lemma Wrapped()
    ensures (0x2_8D31B7CA_FF946C77_C8844335_369D03A7 + 0x1BF54941_AFF6BF4A_FDB20DFB_8A800301) % TWO_128
         == 0xA927010C_AF8B2BC2_C6365130_C11D06A8
  {
    ModUnique(0x2_A927010C_AF8B2BC2_C6365130_C11D06A8, TWO_128, 2, 0xA927010C_AF8B2BC2_C6365130_C11D06A8);
  }

  lemma MacIs(msg: seq<byte>, rkey: seq<byte>, skey: seq<byte>, tag: seq<byte>)
    requires |rkey| == 16 == |skey| == |tag| && Total(msg, rkey, skey) == LE(tag)
    ensures Mac(msg, rkey + skey) == tag
  {
    var key := rkey + skey;
    assert key[..16] == rkey && key[16..] == skey;
    hide *;
    MacUnfolded(msg, key);
    LeBytesOfLE(tag);
  }

  lemma MacUnfolded(msg: seq<byte>, key: seq<byte>)
    requires |key| == 32
    ensures Mac(msg, key) == LeBytes(Total(msg, key[..16], key[16..]), 16)
  {
    hide LE, LeBytes, PowerSum, Coefficients, And;
  }

  /** The tag of "Cryptographic Forum Research Group". */
  lemma TagAnswer()
    ensures |R_KEY + S_KEY| == 32 && Mac(FIRST + SECOND + LAST, R_KEY + S_KEY) == TAG
  {
    hide *;
    Values();
    TagTotal();
    MacIs(FIRST + SECOND + LAST, R_KEY, S_KEY, TAG);
  }
}
