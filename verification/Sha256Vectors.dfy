/** What fixes the constants of Sha256, and the digest of "abc", computed by the definitions. */
module Sha256Vectors {
  import opened Bits
  import opened Bytes
  import opened Word32
  import opened Padding
  import opened Sha256

  // ---------- the constants, row by row

  lemma KRow0Is()
    ensures K(0) == 0x428a2f98 && K(1) == 0x71374491
    ensures K(2) == 0xb5c0fbcf && K(3) == 0xe9b5dba5
    ensures K(4) == 0x3956c25b && K(5) == 0x59f111f1
    ensures K(6) == 0x923f82a4 && K(7) == 0xab1c5ed5
  {
  }

  lemma KRow1Is()
    ensures K(8) == 0xd807aa98 && K(9) == 0x12835b01
    ensures K(10) == 0x243185be && K(11) == 0x550c7dc3
    ensures K(12) == 0x72be5d74 && K(13) == 0x80deb1fe
    ensures K(14) == 0x9bdc06a7 && K(15) == 0xc19bf174
  {
  }

  lemma KRow2Is()
    ensures K(16) == 0xe49b69c1 && K(17) == 0xefbe4786
    ensures K(18) == 0x0fc19dc6 && K(19) == 0x240ca1cc
    ensures K(20) == 0x2de92c6f && K(21) == 0x4a7484aa
    ensures K(22) == 0x5cb0a9dc && K(23) == 0x76f988da
  {
  }

  lemma KRow3Is()
    ensures K(24) == 0x983e5152 && K(25) == 0xa831c66d
    ensures K(26) == 0xb00327c8 && K(27) == 0xbf597fc7
    ensures K(28) == 0xc6e00bf3 && K(29) == 0xd5a79147
    ensures K(30) == 0x06ca6351 && K(31) == 0x14292967
  {
  }

  lemma KRow4Is()
    ensures K(32) == 0x27b70a85 && K(33) == 0x2e1b2138
    ensures K(34) == 0x4d2c6dfc && K(35) == 0x53380d13
    ensures K(36) == 0x650a7354 && K(37) == 0x766a0abb
    ensures K(38) == 0x81c2c92e && K(39) == 0x92722c85
  {
  }

  lemma KRow5Is()
    ensures K(40) == 0xa2bfe8a1 && K(41) == 0xa81a664b
    ensures K(42) == 0xc24b8b70 && K(43) == 0xc76c51a3
    ensures K(44) == 0xd192e819 && K(45) == 0xd6990624
    ensures K(46) == 0xf40e3585 && K(47) == 0x106aa070
  {
  }

  lemma KRow6Is()
    ensures K(48) == 0x19a4c116 && K(49) == 0x1e376c08
    ensures K(50) == 0x2748774c && K(51) == 0x34b0bcb5
    ensures K(52) == 0x391c0cb3 && K(53) == 0x4ed8aa4a
    ensures K(54) == 0x5b9cca4f && K(55) == 0x682e6ff3
  {
  }

  lemma KRow7Is()
    ensures K(56) == 0x748f82ee && K(57) == 0x78a5636f
    ensures K(58) == 0x84c87814 && K(59) == 0x8cc70208
    ensures K(60) == 0x90befffa && K(61) == 0xa4506ceb
    ensures K(62) == 0xbef9a3f7 && K(63) == 0xc67178f2
  {
  }

  // ---------- the constants are the fractional parts of roots

  /** The first 32 bits behind the binary point of the cube root of p are k. */
  predicate CubeRoot(k: bv32, p: nat) {
    var x := CubeFloor(p) * 0x1_0000_0000 + FromWord(k);
    x * x * x <= p * 0x1_0000_0000_0000_0000_0000_0000 < (x + 1) * (x + 1) * (x + 1)
  }

  /** The integer part of the cube root of a number below 512. */
  function CubeFloor(p: nat): nat {
    if p < 8 then 1 else if p < 27 then 2 else if p < 64 then 3 else if p < 125 then 4
    else if p < 216 then 5 else if p < 343 then 6 else 7
  }

  lemma CubeRootIs(k: bv32, n: u32, p: nat, x: nat)
    requires FromWord(k) == n && x == CubeFloor(p) * 0x1_0000_0000 + n
    requires x * x * x <= p * 0x1_0000_0000_0000_0000_0000_0000
    requires p * 0x1_0000_0000_0000_0000_0000_0000 < (x + 1) * (x + 1) * (x + 1)
    ensures CubeRoot(k, p)
  {
  }

  /** The eight constants from K(t) on belong to eight numbers, in this order. */
  predicate Roots(t: nat, p0: nat, p1: nat, p2: nat, p3: nat, p4: nat, p5: nat, p6: nat, p7: nat) {
    && CubeRoot(K(t), p0) && CubeRoot(K(t + 1), p1) && CubeRoot(K(t + 2), p2) && CubeRoot(K(t + 3), p3)
    && CubeRoot(K(t + 4), p4) && CubeRoot(K(t + 5), p5) && CubeRoot(K(t + 6), p6) && CubeRoot(K(t + 7), p7)
  }

  lemma KRow0IsRoots()
    ensures Roots(0, 2, 3, 5, 7, 11, 13, 17, 19)
  {
    KRow0Is();
    hide CubeRoot, K;
    CubeRootIs(0x428a2f98, 0x428a2f98, 2, 0x1_428A_2F98);
    CubeRootIs(0x71374491, 0x71374491, 3, 0x1_7137_4491);
    CubeRootIs(0xb5c0fbcf, 0xb5c0fbcf, 5, 0x1_B5C0_FBCF);
    CubeRootIs(0xe9b5dba5, 0xe9b5dba5, 7, 0x1_E9B5_DBA5);
    CubeRootIs(0x3956c25b, 0x3956c25b, 11, 0x2_3956_C25B);
    CubeRootIs(0x59f111f1, 0x59f111f1, 13, 0x2_59F1_11F1);
    CubeRootIs(0x923f82a4, 0x923f82a4, 17, 0x2_923F_82A4);
    CubeRootIs(0xab1c5ed5, 0xab1c5ed5, 19, 0x2_AB1C_5ED5);
  }

  lemma KRow1IsRoots()
    ensures Roots(8, 23, 29, 31, 37, 41, 43, 47, 53)
  {
    KRow1Is();
    hide CubeRoot, K;
    CubeRootIs(0xd807aa98, 0xd807aa98, 23, 0x2_D807_AA98);
    CubeRootIs(0x12835b01, 0x12835b01, 29, 0x3_1283_5B01);
    CubeRootIs(0x243185be, 0x243185be, 31, 0x3_2431_85BE);
    CubeRootIs(0x550c7dc3, 0x550c7dc3, 37, 0x3_550C_7DC3);
    CubeRootIs(0x72be5d74, 0x72be5d74, 41, 0x3_72BE_5D74);
    CubeRootIs(0x80deb1fe, 0x80deb1fe, 43, 0x3_80DE_B1FE);
    CubeRootIs(0x9bdc06a7, 0x9bdc06a7, 47, 0x3_9BDC_06A7);
    CubeRootIs(0xc19bf174, 0xc19bf174, 53, 0x3_C19B_F174);
  }

  lemma KRow2IsRoots()
    ensures Roots(16, 59, 61, 67, 71, 73, 79, 83, 89)
  {
    KRow2Is();
    hide CubeRoot, K;
    CubeRootIs(0xe49b69c1, 0xe49b69c1, 59, 0x3_E49B_69C1);
    CubeRootIs(0xefbe4786, 0xefbe4786, 61, 0x3_EFBE_4786);
    CubeRootIs(0x0fc19dc6, 0x0fc19dc6, 67, 0x4_0FC1_9DC6);
    CubeRootIs(0x240ca1cc, 0x240ca1cc, 71, 0x4_240C_A1CC);
    CubeRootIs(0x2de92c6f, 0x2de92c6f, 73, 0x4_2DE9_2C6F);
    CubeRootIs(0x4a7484aa, 0x4a7484aa, 79, 0x4_4A74_84AA);
    CubeRootIs(0x5cb0a9dc, 0x5cb0a9dc, 83, 0x4_5CB0_A9DC);
    CubeRootIs(0x76f988da, 0x76f988da, 89, 0x4_76F9_88DA);
  }

  lemma KRow3IsRoots()
    ensures Roots(24, 97, 101, 103, 107, 109, 113, 127, 131)
  {
    KRow3Is();
    hide CubeRoot, K;
    CubeRootIs(0x983e5152, 0x983e5152, 97, 0x4_983E_5152);
    CubeRootIs(0xa831c66d, 0xa831c66d, 101, 0x4_A831_C66D);
    CubeRootIs(0xb00327c8, 0xb00327c8, 103, 0x4_B003_27C8);
    CubeRootIs(0xbf597fc7, 0xbf597fc7, 107, 0x4_BF59_7FC7);
    CubeRootIs(0xc6e00bf3, 0xc6e00bf3, 109, 0x4_C6E0_0BF3);
    CubeRootIs(0xd5a79147, 0xd5a79147, 113, 0x4_D5A7_9147);
    CubeRootIs(0x06ca6351, 0x06ca6351, 127, 0x5_06CA_6351);
    CubeRootIs(0x14292967, 0x14292967, 131, 0x5_1429_2967);
  }

  lemma KRow4IsRoots()
    ensures Roots(32, 137, 139, 149, 151, 157, 163, 167, 173)
  {
    KRow4Is();
    hide CubeRoot, K;
    CubeRootIs(0x27b70a85, 0x27b70a85, 137, 0x5_27B7_0A85);
    CubeRootIs(0x2e1b2138, 0x2e1b2138, 139, 0x5_2E1B_2138);
    CubeRootIs(0x4d2c6dfc, 0x4d2c6dfc, 149, 0x5_4D2C_6DFC);
    CubeRootIs(0x53380d13, 0x53380d13, 151, 0x5_5338_0D13);
    CubeRootIs(0x650a7354, 0x650a7354, 157, 0x5_650A_7354);
    CubeRootIs(0x766a0abb, 0x766a0abb, 163, 0x5_766A_0ABB);
    CubeRootIs(0x81c2c92e, 0x81c2c92e, 167, 0x5_81C2_C92E);
    CubeRootIs(0x92722c85, 0x92722c85, 173, 0x5_9272_2C85);
  }

  lemma KRow5IsRoots()
    ensures Roots(40, 179, 181, 191, 193, 197, 199, 211, 223)
  {
    KRow5Is();
    hide CubeRoot, K;
    CubeRootIs(0xa2bfe8a1, 0xa2bfe8a1, 179, 0x5_A2BF_E8A1);
    CubeRootIs(0xa81a664b, 0xa81a664b, 181, 0x5_A81A_664B);
    CubeRootIs(0xc24b8b70, 0xc24b8b70, 191, 0x5_C24B_8B70);
    CubeRootIs(0xc76c51a3, 0xc76c51a3, 193, 0x5_C76C_51A3);
    CubeRootIs(0xd192e819, 0xd192e819, 197, 0x5_D192_E819);
    CubeRootIs(0xd6990624, 0xd6990624, 199, 0x5_D699_0624);
    CubeRootIs(0xf40e3585, 0xf40e3585, 211, 0x5_F40E_3585);
    CubeRootIs(0x106aa070, 0x106aa070, 223, 0x6_106A_A070);
  }

  lemma KRow6IsRoots()
    ensures Roots(48, 227, 229, 233, 239, 241, 251, 257, 263)
  {
    KRow6Is();
    hide CubeRoot, K;
    CubeRootIs(0x19a4c116, 0x19a4c116, 227, 0x6_19A4_C116);
    CubeRootIs(0x1e376c08, 0x1e376c08, 229, 0x6_1E37_6C08);
    CubeRootIs(0x2748774c, 0x2748774c, 233, 0x6_2748_774C);
    CubeRootIs(0x34b0bcb5, 0x34b0bcb5, 239, 0x6_34B0_BCB5);
    CubeRootIs(0x391c0cb3, 0x391c0cb3, 241, 0x6_391C_0CB3);
    CubeRootIs(0x4ed8aa4a, 0x4ed8aa4a, 251, 0x6_4ED8_AA4A);
    CubeRootIs(0x5b9cca4f, 0x5b9cca4f, 257, 0x6_5B9C_CA4F);
    CubeRootIs(0x682e6ff3, 0x682e6ff3, 263, 0x6_682E_6FF3);
  }

  lemma KRow7IsRoots()
    ensures Roots(56, 269, 271, 277, 281, 283, 293, 307, 311)
  {
    KRow7Is();
    hide CubeRoot, K;
    CubeRootIs(0x748f82ee, 0x748f82ee, 269, 0x6_748F_82EE);
    CubeRootIs(0x78a5636f, 0x78a5636f, 271, 0x6_78A5_636F);
    CubeRootIs(0x84c87814, 0x84c87814, 277, 0x6_84C8_7814);
    CubeRootIs(0x8cc70208, 0x8cc70208, 281, 0x6_8CC7_0208);
    CubeRootIs(0x90befffa, 0x90befffa, 283, 0x6_90BE_FFFA);
    CubeRootIs(0xa4506ceb, 0xa4506ceb, 293, 0x6_A450_6CEB);
    CubeRootIs(0xbef9a3f7, 0xbef9a3f7, 307, 0x6_BEF9_A3F7);
    CubeRootIs(0xc67178f2, 0xc67178f2, 311, 0x6_C671_78F2);
  }

  // All together, the constants belong to the first 64 primes (section 4.2.2).

  lemma FirstConstantsAreRoots()
    ensures Roots(0, 2, 3, 5, 7, 11, 13, 17, 19)
    ensures Roots(8, 23, 29, 31, 37, 41, 43, 47, 53)
    ensures Roots(16, 59, 61, 67, 71, 73, 79, 83, 89)
    ensures Roots(24, 97, 101, 103, 107, 109, 113, 127, 131)
  {
    KRow0IsRoots(); KRow1IsRoots(); KRow2IsRoots(); KRow3IsRoots();
  }

  lemma LastConstantsAreRoots()
    ensures Roots(32, 137, 139, 149, 151, 157, 163, 167, 173)
    ensures Roots(40, 179, 181, 191, 193, 197, 199, 211, 223)
    ensures Roots(48, 227, 229, 233, 239, 241, 251, 257, 263)
    ensures Roots(56, 269, 271, 277, 281, 283, 293, 307, 311)
  {
    KRow4IsRoots(); KRow5IsRoots(); KRow6IsRoots(); KRow7IsRoots();
  }

  /** The first 32 bits behind the binary point of the square root of p are k. */
  predicate SquareRoot(k: bv32, p: nat) {
    var x := SquareFloor(p) * 0x1_0000_0000 + FromWord(k);
    x * x <= p * 0x1_0000_0000_0000_0000 < (x + 1) * (x + 1)
  }

  /** The integer part of the square root of a number below 64. */
  function SquareFloor(p: nat): nat {
    if p < 4 then 1 else if p < 9 then 2 else if p < 16 then 3 else if p < 25 then 4
    else if p < 36 then 5 else if p < 49 then 6 else 7
  }

  lemma SquareRootIs(k: bv32, n: u32, p: nat, x: nat)
    requires FromWord(k) == n && x == SquareFloor(p) * 0x1_0000_0000 + n
    requires x * x <= p * 0x1_0000_0000_0000_0000 < (x + 1) * (x + 1)
    ensures SquareRoot(k, p)
  {
  }

  lemma INITIALIsRoots()
    ensures SquareRoot(INITIAL.a, 2) && SquareRoot(INITIAL.b, 3)
    ensures SquareRoot(INITIAL.c, 5) && SquareRoot(INITIAL.d, 7)
    ensures SquareRoot(INITIAL.e, 11) && SquareRoot(INITIAL.f, 13)
    ensures SquareRoot(INITIAL.g, 17) && SquareRoot(INITIAL.h, 19)
  {
    hide SquareRoot;
    SquareRootIs(0x6a09e667, 0x6a09e667, 2, 0x1_6A09_E667);
    SquareRootIs(0xbb67ae85, 0xbb67ae85, 3, 0x1_BB67_AE85);
    SquareRootIs(0x3c6ef372, 0x3c6ef372, 5, 0x2_3C6E_F372);
    SquareRootIs(0xa54ff53a, 0xa54ff53a, 7, 0x2_A54F_F53A);
    SquareRootIs(0x510e527f, 0x510e527f, 11, 0x3_510E_527F);
    SquareRootIs(0x9b05688c, 0x9b05688c, 13, 0x3_9B05_688C);
    SquareRootIs(0x1f83d9ab, 0x1f83d9ab, 17, 0x4_1F83_D9AB);
    SquareRootIs(0x5be0cd19, 0x5be0cd19, 19, 0x4_5BE0_CD19);
  }

  // ---------- the digest of "abc"

  const ABC: seq<byte> := [0x61, 0x62, 0x63]

  lemma Later(p: seq<byte>, t: nat)
    requires |p| == 64 && t >= 16
    ensures W(p, t)
      == Add32(Add32(Add32(W(p, t - 16), SmallSigma0(W(p, t - 15))), W(p, t - 7)), SmallSigma1(W(p, t - 2)))
  {
    hide BlockWord, Add32, SmallSigma0, SmallSigma1;
  }

  lemma Next(v: Vars, p: seq<byte>, t: nat)
    requires |p| == 64 && t < 64
    ensures Rounds(v, p, t + 1) == Round(Rounds(v, p, t), K(t), W(p, t))
  {
    hide K, W, Round;
  }

  // the working variables after every eighth round
  const AFTER8 := Vars(0x85a07b5f, 0xe5030380, 0x2b4209f5, 0x04409a6a, 0x0c657a79, 0x9b27a401, 0x714260ad, 0x43ada245)
  const AFTER16 := Vars(0xb0fa238e, 0xc0645fde, 0xd932eb16, 0x87912990, 0x07590dcd, 0x0b92f20c, 0x745a48de, 0x1e578218)
  const AFTER24 := Vars(0xc5d53d8d, 0xa7a3623f, 0xc2606d6d, 0x9dc68b63, 0xaa47c347, 0x49f5114a, 0xe1257970, 0x8ada8930)
  const AFTER32 := Vars(0x73b33bf5, 0xea992a22, 0xa0060b30, 0x363482c9, 0xba591112, 0x0109ab3a, 0xade79437, 0x6112a3b7)
  const AFTER40 := Vars(0x79ea687a, 0x6dc57a8a, 0x34df1604, 0x41a65cb1, 0x1efbc0a0, 0xf0781bc8, 0xa507a53d, 0x0772a26b)
  const AFTER48 := Vars(0x4172328d, 0xa14c14b0, 0x72ab4b91, 0x26628815, 0xfecf0bc6, 0xd57b94a9, 0xb7755da1, 0xa80f11f0)
  const AFTER56 := Vars(0x38cc9913, 0x3ec45cdb, 0xf5702fdb, 0x101fd28f, 0x54cb266b, 0xe50e1b4f, 0x9f4787c3, 0x529e7d00)
  const AFTER64 := Vars(0x506e3058, 0xd39a2165, 0x04d24d6c, 0xb85e2ce9, 0x5ef50f24, 0xfb121210, 0x948d25b6, 0x961f4894)

  predicate Words0(p: seq<byte>)
    requires |p| == 64
  {
    && W(p, 0) == 0x61626380 && W(p, 1) == 0x00000000 && W(p, 2) == 0x00000000 && W(p, 3) == 0x00000000
    && W(p, 4) == 0x00000000 && W(p, 5) == 0x00000000 && W(p, 6) == 0x00000000 && W(p, 7) == 0x00000000
  }

  predicate Words8(p: seq<byte>)
    requires |p| == 64
  {
    && W(p, 8) == 0x00000000 && W(p, 9) == 0x00000000 && W(p, 10) == 0x00000000 && W(p, 11) == 0x00000000
    && W(p, 12) == 0x00000000 && W(p, 13) == 0x00000000 && W(p, 14) == 0x00000000 && W(p, 15) == 0x00000018
  }

  predicate Words16(p: seq<byte>)
    requires |p| == 64
  {
    && W(p, 16) == 0x61626380 && W(p, 17) == 0x000f0000 && W(p, 18) == 0x7da86405 && W(p, 19) == 0x600003c6
    && W(p, 20) == 0x3e9d7b78 && W(p, 21) == 0x0183fc00 && W(p, 22) == 0x12dcbfdb && W(p, 23) == 0xe2e2c38e
  }

  predicate Words24(p: seq<byte>)
    requires |p| == 64
  {
    && W(p, 24) == 0xc8215c1a && W(p, 25) == 0xb73679a2 && W(p, 26) == 0xe5bc3909 && W(p, 27) == 0x32663c5b
    && W(p, 28) == 0x9d209d67 && W(p, 29) == 0xec8726cb && W(p, 30) == 0x702138a4 && W(p, 31) == 0xd3b7973b
  }

  predicate Words32(p: seq<byte>)
    requires |p| == 64
  {
    && W(p, 32) == 0x93f5997f && W(p, 33) == 0x3b68ba73 && W(p, 34) == 0xaff4ffc1 && W(p, 35) == 0xf10a5c62
    && W(p, 36) == 0x0a8b3996 && W(p, 37) == 0x72af830a && W(p, 38) == 0x9409e33e && W(p, 39) == 0x24641522
  }

  predicate Words40(p: seq<byte>)
    requires |p| == 64
  {
    && W(p, 40) == 0x9f47bf94 && W(p, 41) == 0xf0a64f5a && W(p, 42) == 0x3e246a79 && W(p, 43) == 0x27333ba3
    && W(p, 44) == 0x0c4763f2 && W(p, 45) == 0x840abf27 && W(p, 46) == 0x7a290d5d && W(p, 47) == 0x065c43da
  }

  predicate Words48(p: seq<byte>)
    requires |p| == 64
  {
    && W(p, 48) == 0xfb3e89cb && W(p, 49) == 0xcc7617db && W(p, 50) == 0xb9e66c34 && W(p, 51) == 0xa9993667
    && W(p, 52) == 0x84badedd && W(p, 53) == 0xc21462bc && W(p, 54) == 0x1487472c && W(p, 55) == 0xb20f7a99
  }

  predicate Words56(p: seq<byte>)
    requires |p| == 64
  {
    && W(p, 56) == 0xef57b9cd && W(p, 57) == 0xebe6b238 && W(p, 58) == 0x9fe3095e && W(p, 59) == 0x78bc8d4b
    && W(p, 60) == 0xa43fcf15 && W(p, 61) == 0x668b2ff8 && W(p, 62) == 0xeeaba2cc && W(p, 63) == 0x12b1edeb
  }

  lemma Schedule16(p: seq<byte>)
    requires |p| == 64 && Words0(p) && Words8(p)
    ensures Words16(p) && Words24(p)
  {
    hide W, BlockWord;
    Later(p, 16); Later(p, 17); Later(p, 18); Later(p, 19);
    Later(p, 20); Later(p, 21); Later(p, 22); Later(p, 23);
    Later(p, 24); Later(p, 25); Later(p, 26); Later(p, 27);
    Later(p, 28); Later(p, 29); Later(p, 30); Later(p, 31);
  }

  lemma Schedule32(p: seq<byte>)
    requires |p| == 64 && Words16(p) && Words24(p)
    ensures Words32(p) && Words40(p)
  {
    hide W, BlockWord;
    Later(p, 32); Later(p, 33); Later(p, 34); Later(p, 35);
    Later(p, 36); Later(p, 37); Later(p, 38); Later(p, 39);
    Later(p, 40); Later(p, 41); Later(p, 42); Later(p, 43);
    Later(p, 44); Later(p, 45); Later(p, 46); Later(p, 47);
  }

  lemma Schedule48(p: seq<byte>)
    requires |p| == 64 && Words32(p) && Words40(p)
    ensures Words48(p) && Words56(p)
  {
    hide W, BlockWord;
    Later(p, 48); Later(p, 49); Later(p, 50); Later(p, 51);
    Later(p, 52); Later(p, 53); Later(p, 54); Later(p, 55);
    Later(p, 56); Later(p, 57); Later(p, 58); Later(p, 59);
    Later(p, 60); Later(p, 61); Later(p, 62); Later(p, 63);
  }

  lemma Rounds0(p: seq<byte>)
    requires |p| == 64 && Words0(p) && Rounds(INITIAL, p, 0) == INITIAL
    ensures Rounds(INITIAL, p, 8) == AFTER8
  {
    KRow0Is();
    hide K, W, Rounds;
    Next(INITIAL, p, 0); Next(INITIAL, p, 1);
    Next(INITIAL, p, 2); Next(INITIAL, p, 3);
    Next(INITIAL, p, 4); Next(INITIAL, p, 5);
    Next(INITIAL, p, 6); Next(INITIAL, p, 7);
  }

  lemma Rounds8(p: seq<byte>)
    requires |p| == 64 && Words8(p) && Rounds(INITIAL, p, 8) == AFTER8
    ensures Rounds(INITIAL, p, 16) == AFTER16
  {
    KRow1Is();
    hide K, W, Rounds;
    Next(INITIAL, p, 8); Next(INITIAL, p, 9);
    Next(INITIAL, p, 10); Next(INITIAL, p, 11);
    Next(INITIAL, p, 12); Next(INITIAL, p, 13);
    Next(INITIAL, p, 14); Next(INITIAL, p, 15);
  }

  lemma Rounds16(p: seq<byte>)
    requires |p| == 64 && Words16(p) && Rounds(INITIAL, p, 16) == AFTER16
    ensures Rounds(INITIAL, p, 24) == AFTER24
  {
    KRow2Is();
    hide K, W, Rounds;
    Next(INITIAL, p, 16); Next(INITIAL, p, 17);
    Next(INITIAL, p, 18); Next(INITIAL, p, 19);
    Next(INITIAL, p, 20); Next(INITIAL, p, 21);
    Next(INITIAL, p, 22); Next(INITIAL, p, 23);
  }

  lemma Rounds24(p: seq<byte>)
    requires |p| == 64 && Words24(p) && Rounds(INITIAL, p, 24) == AFTER24
    ensures Rounds(INITIAL, p, 32) == AFTER32
  {
    KRow3Is();
    hide K, W, Rounds;
    Next(INITIAL, p, 24); Next(INITIAL, p, 25);
    Next(INITIAL, p, 26); Next(INITIAL, p, 27);
    Next(INITIAL, p, 28); Next(INITIAL, p, 29);
    Next(INITIAL, p, 30); Next(INITIAL, p, 31);
  }

  lemma Rounds32(p: seq<byte>)
    requires |p| == 64 && Words32(p) && Rounds(INITIAL, p, 32) == AFTER32
    ensures Rounds(INITIAL, p, 40) == AFTER40
  {
    KRow4Is();
    hide K, W, Rounds;
    Next(INITIAL, p, 32); Next(INITIAL, p, 33);
    Next(INITIAL, p, 34); Next(INITIAL, p, 35);
    Next(INITIAL, p, 36); Next(INITIAL, p, 37);
    Next(INITIAL, p, 38); Next(INITIAL, p, 39);
  }

  lemma Rounds40(p: seq<byte>)
    requires |p| == 64 && Words40(p) && Rounds(INITIAL, p, 40) == AFTER40
    ensures Rounds(INITIAL, p, 48) == AFTER48
  {
    KRow5Is();
    hide K, W, Rounds;
    Next(INITIAL, p, 40); Next(INITIAL, p, 41);
    Next(INITIAL, p, 42); Next(INITIAL, p, 43);
    Next(INITIAL, p, 44); Next(INITIAL, p, 45);
    Next(INITIAL, p, 46); Next(INITIAL, p, 47);
  }

  lemma Rounds48(p: seq<byte>)
    requires |p| == 64 && Words48(p) && Rounds(INITIAL, p, 48) == AFTER48
    ensures Rounds(INITIAL, p, 56) == AFTER56
  {
    KRow6Is();
    hide K, W, Rounds;
    Next(INITIAL, p, 48); Next(INITIAL, p, 49);
    Next(INITIAL, p, 50); Next(INITIAL, p, 51);
    Next(INITIAL, p, 52); Next(INITIAL, p, 53);
    Next(INITIAL, p, 54); Next(INITIAL, p, 55);
  }

  lemma Rounds56(p: seq<byte>)
    requires |p| == 64 && Words56(p) && Rounds(INITIAL, p, 56) == AFTER56
    ensures Rounds(INITIAL, p, 64) == AFTER64
  {
    KRow7Is();
    hide K, W, Rounds;
    Next(INITIAL, p, 56); Next(INITIAL, p, 57);
    Next(INITIAL, p, 58); Next(INITIAL, p, 59);
    Next(INITIAL, p, 60); Next(INITIAL, p, 61);
    Next(INITIAL, p, 62); Next(INITIAL, p, 63);
  }

  lemma FirstWord(p: seq<byte>, t: nat, b: seq<byte>, n: u32)
    requires |p| == 64 && t < 16 && p[4 * t..4 * t + 4] == b && BE(b) == n
    ensures W(p, t) == ToWord(n)
  {
    hide BE;
  }

  lemma ZeroWord(p: seq<byte>, t: nat)
    requires |p| == 64 && 0 < t < 15 && p[4..63] == Zeros(59)
    ensures W(p, t) == 0
  {
    assert p[4 * t..4 * t + 4] == p[4..63][4 * t - 4..4 * t + 0] == Zeros(4);
    BEZeros(4);
    FirstWord(p, t, Zeros(4), 0);
  }

  const DIGEST := Vars(0xba7816bf, 0x8f01cfea, 0x414140de, 0x5dae2223, 0xb00361a3, 0x96177a9c, 0xb410ff61, 0xf20015ad)

  lemma AbcBlock()
    ensures var p := Pad(ABC, 64, 8);
      |p| == 64 && p[..4] == [0x61, 0x62, 0x63, 0x80] && p[4..63] == Zeros(59) && p[63] == 0x18
  {
    LengthBytes();
    hide BeBytes;
    assert ZeroCount(3, 64, 8) == 52;
    var p := Pad(ABC, 64, 8);
    assert p == ABC + [0x80] + Zeros(52) + (Zeros(7) + [0x18]);
  }

  lemma LengthBytes()
    ensures BeBytes(24, 8) == Zeros(7) + [0x18]
  {
    BeBytesStep(24, 7);
    BeBytesOfZero(7);
  }

  lemma AbcWords(p: seq<byte>)
    requires |p| == 64 && p[..4] == [0x61, 0x62, 0x63, 0x80] && p[4..63] == Zeros(59) && p[63] == 0x18
    ensures Words0(p) && Words8(p)
  {
    FirstAndLast();
    hide W, BE;
    assert p[0..4] == p[..4] == [0x61, 0x62, 0x63, 0x80];
    FirstWord(p, 0, [0x61, 0x62, 0x63, 0x80], 0x6162_6380);
    assert p[60..64] == p[4..63][56..] + [p[63]] == [0, 0, 0, 0x18];
    FirstWord(p, 15, [0, 0, 0, 0x18], 0x18);
    forall t: nat | 0 < t < 15 ensures W(p, t) == 0 {
      ZeroWord(p, t);
    }
  }

  lemma FirstAndLast()
    ensures BE([0x61, 0x62, 0x63, 0x80]) == 0x6162_6380
    ensures BE([0, 0, 0, 0x18]) == 0x18
  {
    BEOf4([0x61, 0x62, 0x63, 0x80]);
    BEOf4([0, 0, 0, 0x18]);
  }

  lemma AbcRounds(p: seq<byte>)
    requires |p| == 64 && Words0(p) && Words8(p)
    ensures Rounds(INITIAL, p, 64) == AFTER64
  {
    NoRounds(p);
    Schedule16(p);
    Schedule32(p);
    Schedule48(p);
    hide *;
    Rounds0(p);
    Rounds8(p);
    Rounds16(p);
    Rounds24(p);
    Rounds32(p);
    Rounds40(p);
    Rounds48(p);
    Rounds56(p);
  }

  lemma NoRounds(p: seq<byte>)
    requires |p| == 64
    ensures Rounds(INITIAL, p, 0) == INITIAL
  {
  }

  lemma AbcFold(p: seq<byte>)
    requires |p| == 64 && Rounds(INITIAL, p, 64) == AFTER64
    ensures Fold(p) == DIGEST
  {
    hide Rounds;
    OneBlock(p);
    assert Compress(INITIAL, p) == DIGEST;
  }

  lemma OneBlock(p: seq<byte>)
    requires |p| == 64
    ensures Fold(p) == Compress(INITIAL, p)
  {
    hide Compress;
    assert p[..0] == [] && p[0..] == p && Fold([]) == INITIAL;
  }

  /** The known answer: it fixes the schedule, the order of a round, the padding and the byte order. */
  lemma AbcDigest()
    ensures Hash(ABC)
      == [0xBA, 0x78, 0x16, 0xBF] + [0x8F, 0x01, 0xCF, 0xEA]
       + [0x41, 0x41, 0x40, 0xDE] + [0x5D, 0xAE, 0x22, 0x23]
       + [0xB0, 0x03, 0x61, 0xA3] + [0x96, 0x17, 0x7A, 0x9C]
       + [0xB4, 0x10, 0xFF, 0x61] + [0xF2, 0x00, 0x15, 0xAD]
  {
    hide W, Rounds, Fold, Serialise, Pad, Words0, Words8;
    var p := Pad(ABC, 64, 8);
    AbcBlock();
    AbcWords(p);
    AbcRounds(p);
    AbcFold(p);
    DigestBytes();
  }

  lemma DigestBytes()
    ensures Serialise(DIGEST)
      == [0xBA, 0x78, 0x16, 0xBF] + [0x8F, 0x01, 0xCF, 0xEA]
       + [0x41, 0x41, 0x40, 0xDE] + [0x5D, 0xAE, 0x22, 0x23]
       + [0xB0, 0x03, 0x61, 0xA3] + [0x96, 0x17, 0x7A, 0x9C]
       + [0xB4, 0x10, 0xFF, 0x61] + [0xF2, 0x00, 0x15, 0xAD]
  {
    DigestWords();
    hide BeBytes, FromWord, WordBytes, BE;
    var v := DIGEST;
    WordIs(v.a, [0xBA, 0x78, 0x16, 0xBF]);
    WordIs(v.b, [0x8F, 0x01, 0xCF, 0xEA]);
    WordIs(v.c, [0x41, 0x41, 0x40, 0xDE]);
    WordIs(v.d, [0x5D, 0xAE, 0x22, 0x23]);
    WordIs(v.e, [0xB0, 0x03, 0x61, 0xA3]);
    WordIs(v.f, [0x96, 0x17, 0x7A, 0x9C]);
    WordIs(v.g, [0xB4, 0x10, 0xFF, 0x61]);
    WordIs(v.h, [0xF2, 0x00, 0x15, 0xAD]);
    WordBytes8(v.a, v.b, v.c, v.d, v.e, v.f, v.g, v.h);
  }

  lemma WordIs(w: bv32, b: seq<byte>)
    requires |b| == 4 && FromWord(w) == BE(b)
    ensures BeBytes(FromWord(w), 4) == b
  {
    hide FromWord, BeBytes, BE;
    BeBytesOfBE(b);
  }

  lemma DigestWords()
    ensures var v := DIGEST;
      FromWord(v.a) == BE([0xBA, 0x78, 0x16, 0xBF]) &&
      FromWord(v.b) == BE([0x8F, 0x01, 0xCF, 0xEA]) &&
      FromWord(v.c) == BE([0x41, 0x41, 0x40, 0xDE]) &&
      FromWord(v.d) == BE([0x5D, 0xAE, 0x22, 0x23]) &&
      FromWord(v.e) == BE([0xB0, 0x03, 0x61, 0xA3]) &&
      FromWord(v.f) == BE([0x96, 0x17, 0x7A, 0x9C]) &&
      FromWord(v.g) == BE([0xB4, 0x10, 0xFF, 0x61]) &&
      FromWord(v.h) == BE([0xF2, 0x00, 0x15, 0xAD])
  {
    DigestWordsFront();
    DigestWordsBack();
    hide BE, FromWord;
  }

  lemma DigestWordsFront()
    ensures var v := DIGEST;
      FromWord(v.a) == BE([0xBA, 0x78, 0x16, 0xBF]) &&
      FromWord(v.b) == BE([0x8F, 0x01, 0xCF, 0xEA]) &&
      FromWord(v.c) == BE([0x41, 0x41, 0x40, 0xDE]) &&
      FromWord(v.d) == BE([0x5D, 0xAE, 0x22, 0x23])
  {
    BEOf4([0xBA, 0x78, 0x16, 0xBF]);
    BEOf4([0x8F, 0x01, 0xCF, 0xEA]);
    BEOf4([0x41, 0x41, 0x40, 0xDE]);
    BEOf4([0x5D, 0xAE, 0x22, 0x23]);
    hide BE;
  }

  lemma DigestWordsBack()
    ensures var v := DIGEST;
      FromWord(v.e) == BE([0xB0, 0x03, 0x61, 0xA3]) &&
      FromWord(v.f) == BE([0x96, 0x17, 0x7A, 0x9C]) &&
      FromWord(v.g) == BE([0xB4, 0x10, 0xFF, 0x61]) &&
      FromWord(v.h) == BE([0xF2, 0x00, 0x15, 0xAD])
  {
    BEOf4([0xB0, 0x03, 0x61, 0xA3]);
    BEOf4([0x96, 0x17, 0x7A, 0x9C]);
    BEOf4([0xB4, 0x10, 0xFF, 0x61]);
    BEOf4([0xF2, 0x00, 0x15, 0xAD]);
    hide BE;
  }

  lemma WordBytes8(a: bv32, b: bv32, c: bv32, d: bv32, e: bv32, f: bv32, g: bv32, h: bv32)
    ensures WordBytes([a, b, c, d, e, f, g, h])
      == BeBytes(FromWord(a), 4) + BeBytes(FromWord(b), 4) + BeBytes(FromWord(c), 4) + BeBytes(FromWord(d), 4)
       + BeBytes(FromWord(e), 4) + BeBytes(FromWord(f), 4) + BeBytes(FromWord(g), 4) + BeBytes(FromWord(h), 4)
  {
    hide *;
    var s := [a, b, c, d, e, f, g, h];
    assert s[..8] == s;
    WordBytesStep(s, 7); WordBytesStep(s, 6); WordBytesStep(s, 5); WordBytesStep(s, 4);
    WordBytesStep(s, 3); WordBytesStep(s, 2); WordBytesStep(s, 1); WordBytesStep(s, 0);
  }

  lemma WordBytesStep(s: seq<bv32>, i: nat)
    requires i < |s|
    ensures WordBytes(s[..i + 1]) == WordBytes(s[..i]) + BeBytes(FromWord(s[i]), 4) && WordBytes(s[..0]) == []
  {
    hide BeBytes, FromWord;
    assert s[..i + 1][..i] == s[..i];
  }
}
