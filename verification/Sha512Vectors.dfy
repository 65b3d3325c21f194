/** What fixes the constants of Sha512, and the digest of "abc", computed by the definitions. */
module Sha512Vectors {
  import opened Bits
  import opened Bytes
  import opened Word64
  import opened Padding
  import opened Sha512

  // ---------- the constants, row by row

  lemma KRow0Is()
    ensures K(0) == 0x428a2f98d728ae22 && K(1) == 0x7137449123ef65cd
    ensures K(2) == 0xb5c0fbcfec4d3b2f && K(3) == 0xe9b5dba58189dbbc
    ensures K(4) == 0x3956c25bf348b538 && K(5) == 0x59f111f1b605d019
    ensures K(6) == 0x923f82a4af194f9b && K(7) == 0xab1c5ed5da6d8118
  {
  }

  lemma KRow1Is()
    ensures K(8) == 0xd807aa98a3030242 && K(9) == 0x12835b0145706fbe
    ensures K(10) == 0x243185be4ee4b28c && K(11) == 0x550c7dc3d5ffb4e2
    ensures K(12) == 0x72be5d74f27b896f && K(13) == 0x80deb1fe3b1696b1
    ensures K(14) == 0x9bdc06a725c71235 && K(15) == 0xc19bf174cf692694
  {
  }

  lemma KRow2Is()
    ensures K(16) == 0xe49b69c19ef14ad2 && K(17) == 0xefbe4786384f25e3
    ensures K(18) == 0x0fc19dc68b8cd5b5 && K(19) == 0x240ca1cc77ac9c65
    ensures K(20) == 0x2de92c6f592b0275 && K(21) == 0x4a7484aa6ea6e483
    ensures K(22) == 0x5cb0a9dcbd41fbd4 && K(23) == 0x76f988da831153b5
  {
  }

  lemma KRow3Is()
    ensures K(24) == 0x983e5152ee66dfab && K(25) == 0xa831c66d2db43210
    ensures K(26) == 0xb00327c898fb213f && K(27) == 0xbf597fc7beef0ee4
    ensures K(28) == 0xc6e00bf33da88fc2 && K(29) == 0xd5a79147930aa725
    ensures K(30) == 0x06ca6351e003826f && K(31) == 0x142929670a0e6e70
  {
  }

  lemma KRow4Is()
    ensures K(32) == 0x27b70a8546d22ffc && K(33) == 0x2e1b21385c26c926
    ensures K(34) == 0x4d2c6dfc5ac42aed && K(35) == 0x53380d139d95b3df
    ensures K(36) == 0x650a73548baf63de && K(37) == 0x766a0abb3c77b2a8
    ensures K(38) == 0x81c2c92e47edaee6 && K(39) == 0x92722c851482353b
  {
  }

  lemma KRow5Is()
    ensures K(40) == 0xa2bfe8a14cf10364 && K(41) == 0xa81a664bbc423001
    ensures K(42) == 0xc24b8b70d0f89791 && K(43) == 0xc76c51a30654be30
    ensures K(44) == 0xd192e819d6ef5218 && K(45) == 0xd69906245565a910
    ensures K(46) == 0xf40e35855771202a && K(47) == 0x106aa07032bbd1b8
  {
  }

  lemma KRow6Is()
    ensures K(48) == 0x19a4c116b8d2d0c8 && K(49) == 0x1e376c085141ab53
    ensures K(50) == 0x2748774cdf8eeb99 && K(51) == 0x34b0bcb5e19b48a8
    ensures K(52) == 0x391c0cb3c5c95a63 && K(53) == 0x4ed8aa4ae3418acb
    ensures K(54) == 0x5b9cca4f7763e373 && K(55) == 0x682e6ff3d6b2b8a3
  {
  }

  lemma KRow7Is()
    ensures K(56) == 0x748f82ee5defb2fc && K(57) == 0x78a5636f43172f60
    ensures K(58) == 0x84c87814a1f0ab72 && K(59) == 0x8cc702081a6439ec
    ensures K(60) == 0x90befffa23631e28 && K(61) == 0xa4506cebde82bde9
    ensures K(62) == 0xbef9a3f7b2c67915 && K(63) == 0xc67178f2e372532b
  {
  }

  lemma KRow8Is()
    ensures K(64) == 0xca273eceea26619c && K(65) == 0xd186b8c721c0c207
    ensures K(66) == 0xeada7dd6cde0eb1e && K(67) == 0xf57d4f7fee6ed178
    ensures K(68) == 0x06f067aa72176fba && K(69) == 0x0a637dc5a2c898a6
    ensures K(70) == 0x113f9804bef90dae && K(71) == 0x1b710b35131c471b
  {
  }

  lemma KRow9Is()
    ensures K(72) == 0x28db77f523047d84 && K(73) == 0x32caab7b40c72493
    ensures K(74) == 0x3c9ebe0a15c9bebc && K(75) == 0x431d67c49c100d4c
    ensures K(76) == 0x4cc5d4becb3e42b6 && K(77) == 0x597f299cfc657e2a
    ensures K(78) == 0x5fcb6fab3ad6faec && K(79) == 0x6c44198c4a475817
  {
  }

  // ---------- the constants are the fractional parts of roots

  /** The first 64 bits behind the binary point of the cube root of p are k. */
  predicate CubeRoot(k: bv64, p: nat) {
    var x := CubeFloor(p) * 0x1_0000_0000_0000_0000 + FromWord(k);
    x * x * x <= p * 0x1_0000_0000_0000_0000_0000_0000_0000_0000_0000_0000_0000_0000 < (x + 1) * (x + 1) * (x + 1)
  }

  /** The integer part of the cube root of a number below 512. */
  function CubeFloor(p: nat): nat {
    if p < 8 then 1 else if p < 27 then 2 else if p < 64 then 3 else if p < 125 then 4
    else if p < 216 then 5 else if p < 343 then 6 else 7
  }

  lemma CubeRootIs(k: bv64, n: u64, p: nat, x: nat)
    requires FromWord(k) == n && x == CubeFloor(p) * 0x1_0000_0000_0000_0000 + n
    requires x * x * x <= p * 0x1_0000_0000_0000_0000_0000_0000_0000_0000_0000_0000_0000_0000
    requires p * 0x1_0000_0000_0000_0000_0000_0000_0000_0000_0000_0000_0000_0000 < (x + 1) * (x + 1) * (x + 1)
    ensures CubeRoot(k, p)
  {
  }

  /** The eight constants from K(t) on belong to eight numbers, in this order. */
  predicate Roots(t: nat, p0: nat, p1: nat, p2: nat, p3: nat, p4: nat, p5: nat, p6: nat, p7: nat) {
    && CubeRoot(K(t), p0) && CubeRoot(K(t + 1), p1) && CubeRoot(K(t + 2), p2) && CubeRoot(K(t + 3), p3)
    && CubeRoot(K(t + 4), p4) && CubeRoot(K(t + 5), p5) && CubeRoot(K(t + 6), p6) && CubeRoot(K(t + 7), p7)
  }

  lemma KRow0IsRoots()
    ensures Roots(0, 2, 3, 5, 7, 11, 13, 17, 19)
  {
    KRow0Is();
    hide CubeRoot, K;
    CubeRootIs(0x428a2f98d728ae22, 0x428a2f98d728ae22, 2, 0x1_428A_2F98_D728_AE22);
    CubeRootIs(0x7137449123ef65cd, 0x7137449123ef65cd, 3, 0x1_7137_4491_23EF_65CD);
    CubeRootIs(0xb5c0fbcfec4d3b2f, 0xb5c0fbcfec4d3b2f, 5, 0x1_B5C0_FBCF_EC4D_3B2F);
    CubeRootIs(0xe9b5dba58189dbbc, 0xe9b5dba58189dbbc, 7, 0x1_E9B5_DBA5_8189_DBBC);
    CubeRootIs(0x3956c25bf348b538, 0x3956c25bf348b538, 11, 0x2_3956_C25B_F348_B538);
    CubeRootIs(0x59f111f1b605d019, 0x59f111f1b605d019, 13, 0x2_59F1_11F1_B605_D019);
    CubeRootIs(0x923f82a4af194f9b, 0x923f82a4af194f9b, 17, 0x2_923F_82A4_AF19_4F9B);
    CubeRootIs(0xab1c5ed5da6d8118, 0xab1c5ed5da6d8118, 19, 0x2_AB1C_5ED5_DA6D_8118);
  }

  lemma KRow1IsRoots()
    ensures Roots(8, 23, 29, 31, 37, 41, 43, 47, 53)
  {
    KRow1Is();
    hide CubeRoot, K;
    CubeRootIs(0xd807aa98a3030242, 0xd807aa98a3030242, 23, 0x2_D807_AA98_A303_0242);
    CubeRootIs(0x12835b0145706fbe, 0x12835b0145706fbe, 29, 0x3_1283_5B01_4570_6FBE);
    CubeRootIs(0x243185be4ee4b28c, 0x243185be4ee4b28c, 31, 0x3_2431_85BE_4EE4_B28C);
    CubeRootIs(0x550c7dc3d5ffb4e2, 0x550c7dc3d5ffb4e2, 37, 0x3_550C_7DC3_D5FF_B4E2);
    CubeRootIs(0x72be5d74f27b896f, 0x72be5d74f27b896f, 41, 0x3_72BE_5D74_F27B_896F);
    CubeRootIs(0x80deb1fe3b1696b1, 0x80deb1fe3b1696b1, 43, 0x3_80DE_B1FE_3B16_96B1);
    CubeRootIs(0x9bdc06a725c71235, 0x9bdc06a725c71235, 47, 0x3_9BDC_06A7_25C7_1235);
    CubeRootIs(0xc19bf174cf692694, 0xc19bf174cf692694, 53, 0x3_C19B_F174_CF69_2694);
  }

  lemma KRow2IsRoots()
    ensures Roots(16, 59, 61, 67, 71, 73, 79, 83, 89)
  {
    KRow2Is();
    hide CubeRoot, K;
    CubeRootIs(0xe49b69c19ef14ad2, 0xe49b69c19ef14ad2, 59, 0x3_E49B_69C1_9EF1_4AD2);
    CubeRootIs(0xefbe4786384f25e3, 0xefbe4786384f25e3, 61, 0x3_EFBE_4786_384F_25E3);
    CubeRootIs(0x0fc19dc68b8cd5b5, 0x0fc19dc68b8cd5b5, 67, 0x4_0FC1_9DC6_8B8C_D5B5);
    CubeRootIs(0x240ca1cc77ac9c65, 0x240ca1cc77ac9c65, 71, 0x4_240C_A1CC_77AC_9C65);
    CubeRootIs(0x2de92c6f592b0275, 0x2de92c6f592b0275, 73, 0x4_2DE9_2C6F_592B_0275);
    CubeRootIs(0x4a7484aa6ea6e483, 0x4a7484aa6ea6e483, 79, 0x4_4A74_84AA_6EA6_E483);
    CubeRootIs(0x5cb0a9dcbd41fbd4, 0x5cb0a9dcbd41fbd4, 83, 0x4_5CB0_A9DC_BD41_FBD4);
    CubeRootIs(0x76f988da831153b5, 0x76f988da831153b5, 89, 0x4_76F9_88DA_8311_53B5);
  }

  lemma KRow3IsRoots()
    ensures Roots(24, 97, 101, 103, 107, 109, 113, 127, 131)
  {
    KRow3Is();
    hide CubeRoot, K;
    CubeRootIs(0x983e5152ee66dfab, 0x983e5152ee66dfab, 97, 0x4_983E_5152_EE66_DFAB);
    CubeRootIs(0xa831c66d2db43210, 0xa831c66d2db43210, 101, 0x4_A831_C66D_2DB4_3210);
    CubeRootIs(0xb00327c898fb213f, 0xb00327c898fb213f, 103, 0x4_B003_27C8_98FB_213F);
    CubeRootIs(0xbf597fc7beef0ee4, 0xbf597fc7beef0ee4, 107, 0x4_BF59_7FC7_BEEF_0EE4);
    CubeRootIs(0xc6e00bf33da88fc2, 0xc6e00bf33da88fc2, 109, 0x4_C6E0_0BF3_3DA8_8FC2);
    CubeRootIs(0xd5a79147930aa725, 0xd5a79147930aa725, 113, 0x4_D5A7_9147_930A_A725);
    CubeRootIs(0x06ca6351e003826f, 0x06ca6351e003826f, 127, 0x5_06CA_6351_E003_826F);
    CubeRootIs(0x142929670a0e6e70, 0x142929670a0e6e70, 131, 0x5_1429_2967_0A0E_6E70);
  }

  lemma KRow4IsRoots()
    ensures Roots(32, 137, 139, 149, 151, 157, 163, 167, 173)
  {
    KRow4Is();
    hide CubeRoot, K;
    CubeRootIs(0x27b70a8546d22ffc, 0x27b70a8546d22ffc, 137, 0x5_27B7_0A85_46D2_2FFC);
    CubeRootIs(0x2e1b21385c26c926, 0x2e1b21385c26c926, 139, 0x5_2E1B_2138_5C26_C926);
    CubeRootIs(0x4d2c6dfc5ac42aed, 0x4d2c6dfc5ac42aed, 149, 0x5_4D2C_6DFC_5AC4_2AED);
    CubeRootIs(0x53380d139d95b3df, 0x53380d139d95b3df, 151, 0x5_5338_0D13_9D95_B3DF);
    CubeRootIs(0x650a73548baf63de, 0x650a73548baf63de, 157, 0x5_650A_7354_8BAF_63DE);
    CubeRootIs(0x766a0abb3c77b2a8, 0x766a0abb3c77b2a8, 163, 0x5_766A_0ABB_3C77_B2A8);
    CubeRootIs(0x81c2c92e47edaee6, 0x81c2c92e47edaee6, 167, 0x5_81C2_C92E_47ED_AEE6);
    CubeRootIs(0x92722c851482353b, 0x92722c851482353b, 173, 0x5_9272_2C85_1482_353B);
  }

  lemma KRow5IsRoots()
    ensures Roots(40, 179, 181, 191, 193, 197, 199, 211, 223)
  {
    KRow5Is();
    hide CubeRoot, K;
    CubeRootIs(0xa2bfe8a14cf10364, 0xa2bfe8a14cf10364, 179, 0x5_A2BF_E8A1_4CF1_0364);
    CubeRootIs(0xa81a664bbc423001, 0xa81a664bbc423001, 181, 0x5_A81A_664B_BC42_3001);
    CubeRootIs(0xc24b8b70d0f89791, 0xc24b8b70d0f89791, 191, 0x5_C24B_8B70_D0F8_9791);
    CubeRootIs(0xc76c51a30654be30, 0xc76c51a30654be30, 193, 0x5_C76C_51A3_0654_BE30);
    CubeRootIs(0xd192e819d6ef5218, 0xd192e819d6ef5218, 197, 0x5_D192_E819_D6EF_5218);
    CubeRootIs(0xd69906245565a910, 0xd69906245565a910, 199, 0x5_D699_0624_5565_A910);
    CubeRootIs(0xf40e35855771202a, 0xf40e35855771202a, 211, 0x5_F40E_3585_5771_202A);
    CubeRootIs(0x106aa07032bbd1b8, 0x106aa07032bbd1b8, 223, 0x6_106A_A070_32BB_D1B8);
  }

  lemma KRow6IsRoots()
    ensures Roots(48, 227, 229, 233, 239, 241, 251, 257, 263)
  {
    KRow6Is();
    hide CubeRoot, K;
    CubeRootIs(0x19a4c116b8d2d0c8, 0x19a4c116b8d2d0c8, 227, 0x6_19A4_C116_B8D2_D0C8);
    CubeRootIs(0x1e376c085141ab53, 0x1e376c085141ab53, 229, 0x6_1E37_6C08_5141_AB53);
    CubeRootIs(0x2748774cdf8eeb99, 0x2748774cdf8eeb99, 233, 0x6_2748_774C_DF8E_EB99);
    CubeRootIs(0x34b0bcb5e19b48a8, 0x34b0bcb5e19b48a8, 239, 0x6_34B0_BCB5_E19B_48A8);
    CubeRootIs(0x391c0cb3c5c95a63, 0x391c0cb3c5c95a63, 241, 0x6_391C_0CB3_C5C9_5A63);
    CubeRootIs(0x4ed8aa4ae3418acb, 0x4ed8aa4ae3418acb, 251, 0x6_4ED8_AA4A_E341_8ACB);
    CubeRootIs(0x5b9cca4f7763e373, 0x5b9cca4f7763e373, 257, 0x6_5B9C_CA4F_7763_E373);
    CubeRootIs(0x682e6ff3d6b2b8a3, 0x682e6ff3d6b2b8a3, 263, 0x6_682E_6FF3_D6B2_B8A3);
  }

  lemma KRow7IsRoots()
    ensures Roots(56, 269, 271, 277, 281, 283, 293, 307, 311)
  {
    KRow7Is();
    hide CubeRoot, K;
    CubeRootIs(0x748f82ee5defb2fc, 0x748f82ee5defb2fc, 269, 0x6_748F_82EE_5DEF_B2FC);
    CubeRootIs(0x78a5636f43172f60, 0x78a5636f43172f60, 271, 0x6_78A5_636F_4317_2F60);
    CubeRootIs(0x84c87814a1f0ab72, 0x84c87814a1f0ab72, 277, 0x6_84C8_7814_A1F0_AB72);
    CubeRootIs(0x8cc702081a6439ec, 0x8cc702081a6439ec, 281, 0x6_8CC7_0208_1A64_39EC);
    CubeRootIs(0x90befffa23631e28, 0x90befffa23631e28, 283, 0x6_90BE_FFFA_2363_1E28);
    CubeRootIs(0xa4506cebde82bde9, 0xa4506cebde82bde9, 293, 0x6_A450_6CEB_DE82_BDE9);
    CubeRootIs(0xbef9a3f7b2c67915, 0xbef9a3f7b2c67915, 307, 0x6_BEF9_A3F7_B2C6_7915);
    CubeRootIs(0xc67178f2e372532b, 0xc67178f2e372532b, 311, 0x6_C671_78F2_E372_532B);
  }

  lemma KRow8IsRoots()
    ensures Roots(64, 313, 317, 331, 337, 347, 349, 353, 359)
  {
    KRow8Is();
    hide CubeRoot, K;
    CubeRootIs(0xca273eceea26619c, 0xca273eceea26619c, 313, 0x6_CA27_3ECE_EA26_619C);
    CubeRootIs(0xd186b8c721c0c207, 0xd186b8c721c0c207, 317, 0x6_D186_B8C7_21C0_C207);
    CubeRootIs(0xeada7dd6cde0eb1e, 0xeada7dd6cde0eb1e, 331, 0x6_EADA_7DD6_CDE0_EB1E);
    CubeRootIs(0xf57d4f7fee6ed178, 0xf57d4f7fee6ed178, 337, 0x6_F57D_4F7F_EE6E_D178);
    CubeRootIs(0x06f067aa72176fba, 0x06f067aa72176fba, 347, 0x7_06F0_67AA_7217_6FBA);
    CubeRootIs(0x0a637dc5a2c898a6, 0x0a637dc5a2c898a6, 349, 0x7_0A63_7DC5_A2C8_98A6);
    CubeRootIs(0x113f9804bef90dae, 0x113f9804bef90dae, 353, 0x7_113F_9804_BEF9_0DAE);
    CubeRootIs(0x1b710b35131c471b, 0x1b710b35131c471b, 359, 0x7_1B71_0B35_131C_471B);
  }

  lemma KRow9IsRoots()
    ensures Roots(72, 367, 373, 379, 383, 389, 397, 401, 409)
  {
    KRow9Is();
    hide CubeRoot, K;
    CubeRootIs(0x28db77f523047d84, 0x28db77f523047d84, 367, 0x7_28DB_77F5_2304_7D84);
    CubeRootIs(0x32caab7b40c72493, 0x32caab7b40c72493, 373, 0x7_32CA_AB7B_40C7_2493);
    CubeRootIs(0x3c9ebe0a15c9bebc, 0x3c9ebe0a15c9bebc, 379, 0x7_3C9E_BE0A_15C9_BEBC);
    CubeRootIs(0x431d67c49c100d4c, 0x431d67c49c100d4c, 383, 0x7_431D_67C4_9C10_0D4C);
    CubeRootIs(0x4cc5d4becb3e42b6, 0x4cc5d4becb3e42b6, 389, 0x7_4CC5_D4BE_CB3E_42B6);
    CubeRootIs(0x597f299cfc657e2a, 0x597f299cfc657e2a, 397, 0x7_597F_299C_FC65_7E2A);
    CubeRootIs(0x5fcb6fab3ad6faec, 0x5fcb6fab3ad6faec, 401, 0x7_5FCB_6FAB_3AD6_FAEC);
    CubeRootIs(0x6c44198c4a475817, 0x6c44198c4a475817, 409, 0x7_6C44_198C_4A47_5817);
  }

  // All together, the constants belong to the first 80 primes (section 4.2.3).

  lemma FirstConstantsAreRoots()
    ensures Roots(0, 2, 3, 5, 7, 11, 13, 17, 19)
    ensures Roots(8, 23, 29, 31, 37, 41, 43, 47, 53)
    ensures Roots(16, 59, 61, 67, 71, 73, 79, 83, 89)
    ensures Roots(24, 97, 101, 103, 107, 109, 113, 127, 131)
  {
    KRow0IsRoots(); KRow1IsRoots(); KRow2IsRoots(); KRow3IsRoots();
  }

  lemma MiddleConstantsAreRoots()
    ensures Roots(32, 137, 139, 149, 151, 157, 163, 167, 173)
    ensures Roots(40, 179, 181, 191, 193, 197, 199, 211, 223)
    ensures Roots(48, 227, 229, 233, 239, 241, 251, 257, 263)
  {
    KRow4IsRoots(); KRow5IsRoots(); KRow6IsRoots();
  }

  lemma LastConstantsAreRoots()
    ensures Roots(56, 269, 271, 277, 281, 283, 293, 307, 311)
    ensures Roots(64, 313, 317, 331, 337, 347, 349, 353, 359)
    ensures Roots(72, 367, 373, 379, 383, 389, 397, 401, 409)
  {
    KRow7IsRoots(); KRow8IsRoots(); KRow9IsRoots();
  }

  /** The first 64 bits behind the binary point of the square root of p are k. */
  predicate SquareRoot(k: bv64, p: nat) {
    var x := SquareFloor(p) * 0x1_0000_0000_0000_0000 + FromWord(k);
    x * x <= p * 0x1_0000_0000_0000_0000_0000_0000_0000_0000 < (x + 1) * (x + 1)
  }

  /** The integer part of the square root of a number below 64. */
  function SquareFloor(p: nat): nat {
    if p < 4 then 1 else if p < 9 then 2 else if p < 16 then 3 else if p < 25 then 4
    else if p < 36 then 5 else if p < 49 then 6 else 7
  }

  lemma SquareRootIs(k: bv64, n: u64, p: nat, x: nat)
    requires FromWord(k) == n && x == SquareFloor(p) * 0x1_0000_0000_0000_0000 + n
    requires x * x <= p * 0x1_0000_0000_0000_0000_0000_0000_0000_0000 < (x + 1) * (x + 1)
    ensures SquareRoot(k, p)
  {
  }

  lemma INITIAL512IsRoots()
    ensures SquareRoot(INITIAL512.a, 2) && SquareRoot(INITIAL512.b, 3)
    ensures SquareRoot(INITIAL512.c, 5) && SquareRoot(INITIAL512.d, 7)
    ensures SquareRoot(INITIAL512.e, 11) && SquareRoot(INITIAL512.f, 13)
    ensures SquareRoot(INITIAL512.g, 17) && SquareRoot(INITIAL512.h, 19)
  {
    hide SquareRoot;
    SquareRootIs(0x6a09e667f3bcc908, 0x6a09e667f3bcc908, 2, 0x1_6A09_E667_F3BC_C908);
    SquareRootIs(0xbb67ae8584caa73b, 0xbb67ae8584caa73b, 3, 0x1_BB67_AE85_84CA_A73B);
    SquareRootIs(0x3c6ef372fe94f82b, 0x3c6ef372fe94f82b, 5, 0x2_3C6E_F372_FE94_F82B);
    SquareRootIs(0xa54ff53a5f1d36f1, 0xa54ff53a5f1d36f1, 7, 0x2_A54F_F53A_5F1D_36F1);
    SquareRootIs(0x510e527fade682d1, 0x510e527fade682d1, 11, 0x3_510E_527F_ADE6_82D1);
    SquareRootIs(0x9b05688c2b3e6c1f, 0x9b05688c2b3e6c1f, 13, 0x3_9B05_688C_2B3E_6C1F);
    SquareRootIs(0x1f83d9abfb41bd6b, 0x1f83d9abfb41bd6b, 17, 0x4_1F83_D9AB_FB41_BD6B);
    SquareRootIs(0x5be0cd19137e2179, 0x5be0cd19137e2179, 19, 0x4_5BE0_CD19_137E_2179);
  }

  lemma INITIAL384IsRoots()
    ensures SquareRoot(INITIAL384.a, 23) && SquareRoot(INITIAL384.b, 29)
    ensures SquareRoot(INITIAL384.c, 31) && SquareRoot(INITIAL384.d, 37)
    ensures SquareRoot(INITIAL384.e, 41) && SquareRoot(INITIAL384.f, 43)
    ensures SquareRoot(INITIAL384.g, 47) && SquareRoot(INITIAL384.h, 53)
  {
    hide SquareRoot;
    SquareRootIs(0xcbbb9d5dc1059ed8, 0xcbbb9d5dc1059ed8, 23, 0x4_CBBB_9D5D_C105_9ED8);
    SquareRootIs(0x629a292a367cd507, 0x629a292a367cd507, 29, 0x5_629A_292A_367C_D507);
    SquareRootIs(0x9159015a3070dd17, 0x9159015a3070dd17, 31, 0x5_9159_015A_3070_DD17);
    SquareRootIs(0x152fecd8f70e5939, 0x152fecd8f70e5939, 37, 0x6_152F_ECD8_F70E_5939);
    SquareRootIs(0x67332667ffc00b31, 0x67332667ffc00b31, 41, 0x6_6733_2667_FFC0_0B31);
    SquareRootIs(0x8eb44a8768581511, 0x8eb44a8768581511, 43, 0x6_8EB4_4A87_6858_1511);
    SquareRootIs(0xdb0c2e0d64f98fa7, 0xdb0c2e0d64f98fa7, 47, 0x6_DB0C_2E0D_64F9_8FA7);
    SquareRootIs(0x47b5481dbefa4fa4, 0x47b5481dbefa4fa4, 53, 0x7_47B5_481D_BEFA_4FA4);
  }

  // ---------- the digest of "abc"

  const ABC: seq<byte> := [0x61, 0x62, 0x63]

  lemma Later(p: seq<byte>, t: nat)
    requires |p| == 128 && t >= 16
    ensures W(p, t)
      == Add64(Add64(Add64(W(p, t - 16), SmallSigma0(W(p, t - 15))), W(p, t - 7)), SmallSigma1(W(p, t - 2)))
  {
    hide BlockWord, Add64, SmallSigma0, SmallSigma1;
  }

  lemma Next(v: Vars, p: seq<byte>, t: nat)
    requires |p| == 128 && t < 80
    ensures Rounds(v, p, t + 1) == Round(Rounds(v, p, t), K(t), W(p, t))
  {
    hide K, W, Round;
  }

  // the working variables after every eighth round
  const AFTER8 := Vars(
    0x8093d195e0054fa3, 0xc4875b0c7abc076b, 0xaf573b02403e89cd, 0xb680953951604860,
    0x86f67263a0f0ec0a, 0x5a6c781f54dcc00c, 0x96f60209b6dc35ba, 0x745aca4a342ed2e2)
  const AFTER16 := Vars(
    0x0ae07c86b1181c75, 0xfa967eed85a08028, 0x44249631255d2ca0, 0x5e41214388186c14,
    0xa77b7c035dd4c161, 0x874bfe5f6aae9f2f, 0x860acf9effba6f61, 0xcdf3bff2883fc9d9)
  const AFTER24 := Vars(
    0x4f6877b58fe55484, 0x3e2644567b709a78, 0xda34d6673d452dcf, 0x8dc5ae65569d3855,
    0xc66005f87db55233, 0x0ac2b11da8f571c6, 0x8e30ff09ad488753, 0x4bb9e66d1145bfdc)
  const AFTER32 := Vars(
    0xff4d3f1f0d46a736, 0x4c4fbbb75f1873a6, 0x74bf40f869094c63, 0xe62349090f47d30a,
    0x3cd388e119e8162e, 0x73e025d91b9efea3, 0xf0aec2fe1437f085, 0x0fcdf99710f21584)
  const AFTER40 := Vars(
    0x8e01e125b855d225, 0xb3bb8542b3376de5, 0x002bb8e4cd989567, 0x88df85b0bbe77514,
    0x0c710a47ba6a567b, 0xb49596c20feba7de, 0x66adcfa249ac7bbd, 0x8fbfd0162bbf4675)
  const AFTER48 := Vars(
    0x6b69fc1bb482feac, 0xf61e672694de2d67, 0x021fbadbabab5ac6, 0xc47c9d5c7ea8a234,
    0x35264334c03ac8ad, 0xc6bc35740d8daa9a, 0xe95c2a57572d64d9, 0x858d832ae0e8911c)
  const AFTER56 := Vars(
    0x63b460e42748817e, 0xf650857b5babda4d, 0xd63f68037ddf06aa, 0x03df11b32d42e203,
    0xc6b4dd2a9931c509, 0x9ccfb31a86df0f86, 0xa6781efe1aa1ce02, 0x504f94e40591cffa)
  const AFTER64 := Vars(
    0xab44e86276478d85, 0xa81dedbb9f19e643, 0xcfcd928c5424e2b6, 0x3857dfd2fc37d3ba,
    0xcd881ee59ca6bc53, 0x84058865d60a05fa, 0x09aee5bda1644de5, 0xa6af4e9c9f807e51)
  const AFTER72 := Vars(
    0xf15e9664b2803575, 0x7652c579cb60f19c, 0xfb6aaae5d0b6a447, 0x181839d609c79748,
    0x947c3dfafee570ef, 0xaff62c9665ff80fa, 0xe3711cb6564d112d, 0x0ada78ba2d446140)
  const AFTER80 := Vars(
    0x73a54f399fa4b1b2, 0x10d9c4c4295599f6, 0xd67806db8b148677, 0x654ef9abec389ca9,
    0xd08446aa79693ed7, 0x9bb4d39778c07f9e, 0x25c96a7768fb2aa3, 0xceb9fc3691ce8326)

  predicate Words0(p: seq<byte>)
    requires |p| == 128
  {
    && W(p, 0) == 0x6162638000000000 && W(p, 1) == 0x0000000000000000
    && W(p, 2) == 0x0000000000000000 && W(p, 3) == 0x0000000000000000
    && W(p, 4) == 0x0000000000000000 && W(p, 5) == 0x0000000000000000
    && W(p, 6) == 0x0000000000000000 && W(p, 7) == 0x0000000000000000
  }

  predicate Words8(p: seq<byte>)
    requires |p| == 128
  {
    && W(p, 8) == 0x0000000000000000 && W(p, 9) == 0x0000000000000000
    && W(p, 10) == 0x0000000000000000 && W(p, 11) == 0x0000000000000000
    && W(p, 12) == 0x0000000000000000 && W(p, 13) == 0x0000000000000000
    && W(p, 14) == 0x0000000000000000 && W(p, 15) == 0x0000000000000018
  }

  predicate Words16(p: seq<byte>)
    requires |p| == 128
  {
    && W(p, 16) == 0x6162638000000000 && W(p, 17) == 0x00030000000000c0
    && W(p, 18) == 0x0a9699a24c700003 && W(p, 19) == 0x00000c0060000603
    && W(p, 20) == 0x549ef62639858996 && W(p, 21) == 0x00c0003300003c00
    && W(p, 22) == 0x1497007a8a0e9dbc && W(p, 23) == 0x62e56500cc0780f0
  }

  predicate Words24(p: seq<byte>)
    requires |p| == 128
  {
    && W(p, 24) == 0x7760dd475a538797 && W(p, 25) == 0xf1554b711c1c0003
    && W(p, 26) == 0xca2993a4345d9ff2 && W(p, 27) == 0x5e0e66b5c783dd32
    && W(p, 28) == 0xe25a625d00494b62 && W(p, 29) == 0x9f44486fb1e4fbd2
    && W(p, 30) == 0xb31b8c2b06085f2f && W(p, 31) == 0x0e987660934142f6
  }

  predicate Words32(p: seq<byte>)
    requires |p| == 128
  {
    && W(p, 32) == 0xa4af2cfd09fbb924 && W(p, 33) == 0xad289e2e0bd53186
    && W(p, 34) == 0x3c74563aa2f9673e && W(p, 35) == 0x6ccdcd14cc14b53f
    && W(p, 36) == 0xc3f925b337f22bde && W(p, 37) == 0x5bcc77a75ad95b54
    && W(p, 38) == 0x3ec2257adca09a52 && W(p, 39) == 0x28246960001fc5eb
  }

  predicate Words40(p: seq<byte>)
    requires |p| == 128
  {
    && W(p, 40) == 0x04e33a75ce2be88a && W(p, 41) == 0x7d5314b3c359e0e7
    && W(p, 42) == 0xaef7a285ff251266 && W(p, 43) == 0x0b8472581deea04f
    && W(p, 44) == 0xb174e26eddc7b033 && W(p, 45) == 0x5d63bae58ddd88de
    && W(p, 46) == 0x4c044007b744ccbb && W(p, 47) == 0xe6a9aa4d74dc7d43
  }

  predicate Words48(p: seq<byte>)
    requires |p| == 128
  {
    && W(p, 48) == 0xebeaf1237248019c && W(p, 49) == 0x361e80b2d00f3193
    && W(p, 50) == 0x2e9839125df3b175 && W(p, 51) == 0x3319629293ad5363
    && W(p, 52) == 0x9cbc5d89ac1b89d5 && W(p, 53) == 0x275e23ffeeca50b7
    && W(p, 54) == 0x3b80d680bf69ef58 && W(p, 55) == 0x0d0696933945a125
  }

  predicate Words56(p: seq<byte>)
    requires |p| == 128
  {
    && W(p, 56) == 0x7533eabcb786ff00 && W(p, 57) == 0xb89826cee6fbf0e5
    && W(p, 58) == 0x249b4fbcad623e9f && W(p, 59) == 0x4aea9df2b02d6f1e
    && W(p, 60) == 0x2cc57475a55e8d8f && W(p, 61) == 0xb2574ae938d8be89
    && W(p, 62) == 0xc1b35a57b16d6aea && W(p, 63) == 0xcc4918b5949206bb
  }

  predicate Words64(p: seq<byte>)
    requires |p| == 128
  {
    && W(p, 64) == 0x5099c3add79f90ec && W(p, 65) == 0x5ea81d78e7660bf1
    && W(p, 66) == 0xebee6267405ac2a9 && W(p, 67) == 0xb01f21926108a4ab
    && W(p, 68) == 0x786433dd2fe65556 && W(p, 69) == 0xc54a6eaa24a0552c
    && W(p, 70) == 0xb3c8f1530bdbaa9e && W(p, 71) == 0xbb8abfe56f469338
  }

  predicate Words72(p: seq<byte>)
    requires |p| == 128
  {
    && W(p, 72) == 0xf63d4265cc1c5a78 && W(p, 73) == 0xbe8355ea73129afb
    && W(p, 74) == 0x49e2db8ebdcfbeb5 && W(p, 75) == 0x82269d4a883a3d99
    && W(p, 76) == 0xfdf53df3011f362b && W(p, 77) == 0x464af5671d71c12e
    && W(p, 78) == 0xe449b68198ec611c && W(p, 79) == 0x92aeeed1a7bcf7d2
  }

  lemma Schedule16(p: seq<byte>)
    requires |p| == 128 && Words0(p) && Words8(p)
    ensures Words16(p) && Words24(p)
  {
    hide W, BlockWord;
    Later(p, 16); Later(p, 17); Later(p, 18); Later(p, 19);
    Later(p, 20); Later(p, 21); Later(p, 22); Later(p, 23);
    Later(p, 24); Later(p, 25); Later(p, 26); Later(p, 27);
    Later(p, 28); Later(p, 29); Later(p, 30); Later(p, 31);
  }

  lemma Schedule32(p: seq<byte>)
    requires |p| == 128 && Words16(p) && Words24(p)
    ensures Words32(p) && Words40(p)
  {
    hide W, BlockWord;
    Later(p, 32); Later(p, 33); Later(p, 34); Later(p, 35);
    Later(p, 36); Later(p, 37); Later(p, 38); Later(p, 39);
    Later(p, 40); Later(p, 41); Later(p, 42); Later(p, 43);
    Later(p, 44); Later(p, 45); Later(p, 46); Later(p, 47);
  }

  lemma Schedule48(p: seq<byte>)
    requires |p| == 128 && Words32(p) && Words40(p)
    ensures Words48(p) && Words56(p)
  {
    hide W, BlockWord;
    Later(p, 48); Later(p, 49); Later(p, 50); Later(p, 51);
    Later(p, 52); Later(p, 53); Later(p, 54); Later(p, 55);
    Later(p, 56); Later(p, 57); Later(p, 58); Later(p, 59);
    Later(p, 60); Later(p, 61); Later(p, 62); Later(p, 63);
  }

  lemma Schedule64(p: seq<byte>)
    requires |p| == 128 && Words48(p) && Words56(p)
    ensures Words64(p) && Words72(p)
  {
    hide W, BlockWord;
    Later(p, 64); Later(p, 65); Later(p, 66); Later(p, 67);
    Later(p, 68); Later(p, 69); Later(p, 70); Later(p, 71);
    Later(p, 72); Later(p, 73); Later(p, 74); Later(p, 75);
    Later(p, 76); Later(p, 77); Later(p, 78); Later(p, 79);
  }

  lemma Rounds0(p: seq<byte>)
    requires |p| == 128 && Words0(p) && Rounds(INITIAL512, p, 0) == INITIAL512
    ensures Rounds(INITIAL512, p, 8) == AFTER8
  {
    KRow0Is();
    hide K, W, Rounds;
    Next(INITIAL512, p, 0); Next(INITIAL512, p, 1);
    Next(INITIAL512, p, 2); Next(INITIAL512, p, 3);
    Next(INITIAL512, p, 4); Next(INITIAL512, p, 5);
    Next(INITIAL512, p, 6); Next(INITIAL512, p, 7);
  }

  lemma Rounds8(p: seq<byte>)
    requires |p| == 128 && Words8(p) && Rounds(INITIAL512, p, 8) == AFTER8
    ensures Rounds(INITIAL512, p, 16) == AFTER16
  {
    KRow1Is();
    hide K, W, Rounds;
    Next(INITIAL512, p, 8); Next(INITIAL512, p, 9);
    Next(INITIAL512, p, 10); Next(INITIAL512, p, 11);
    Next(INITIAL512, p, 12); Next(INITIAL512, p, 13);
    Next(INITIAL512, p, 14); Next(INITIAL512, p, 15);
  }

  lemma Rounds16(p: seq<byte>)
    requires |p| == 128 && Words16(p) && Rounds(INITIAL512, p, 16) == AFTER16
    ensures Rounds(INITIAL512, p, 24) == AFTER24
  {
    KRow2Is();
    hide K, W, Rounds;
    Next(INITIAL512, p, 16); Next(INITIAL512, p, 17);
    Next(INITIAL512, p, 18); Next(INITIAL512, p, 19);
    Next(INITIAL512, p, 20); Next(INITIAL512, p, 21);
    Next(INITIAL512, p, 22); Next(INITIAL512, p, 23);
  }

  lemma Rounds24(p: seq<byte>)
    requires |p| == 128 && Words24(p) && Rounds(INITIAL512, p, 24) == AFTER24
    ensures Rounds(INITIAL512, p, 32) == AFTER32
  {
    KRow3Is();
    hide K, W, Rounds;
    Next(INITIAL512, p, 24); Next(INITIAL512, p, 25);
    Next(INITIAL512, p, 26); Next(INITIAL512, p, 27);
    Next(INITIAL512, p, 28); Next(INITIAL512, p, 29);
    Next(INITIAL512, p, 30); Next(INITIAL512, p, 31);
  }

  lemma Rounds32(p: seq<byte>)
    requires |p| == 128 && Words32(p) && Rounds(INITIAL512, p, 32) == AFTER32
    ensures Rounds(INITIAL512, p, 40) == AFTER40
  {
    KRow4Is();
    hide K, W, Rounds;
    Next(INITIAL512, p, 32); Next(INITIAL512, p, 33);
    Next(INITIAL512, p, 34); Next(INITIAL512, p, 35);
    Next(INITIAL512, p, 36); Next(INITIAL512, p, 37);
    Next(INITIAL512, p, 38); Next(INITIAL512, p, 39);
  }

  lemma Rounds40(p: seq<byte>)
    requires |p| == 128 && Words40(p) && Rounds(INITIAL512, p, 40) == AFTER40
    ensures Rounds(INITIAL512, p, 48) == AFTER48
  {
    KRow5Is();
    hide K, W, Rounds;
    Next(INITIAL512, p, 40); Next(INITIAL512, p, 41);
    Next(INITIAL512, p, 42); Next(INITIAL512, p, 43);
    Next(INITIAL512, p, 44); Next(INITIAL512, p, 45);
    Next(INITIAL512, p, 46); Next(INITIAL512, p, 47);
  }

  lemma Rounds48(p: seq<byte>)
    requires |p| == 128 && Words48(p) && Rounds(INITIAL512, p, 48) == AFTER48
    ensures Rounds(INITIAL512, p, 56) == AFTER56
  {
    KRow6Is();
    hide K, W, Rounds;
    Next(INITIAL512, p, 48); Next(INITIAL512, p, 49);
    Next(INITIAL512, p, 50); Next(INITIAL512, p, 51);
    Next(INITIAL512, p, 52); Next(INITIAL512, p, 53);
    Next(INITIAL512, p, 54); Next(INITIAL512, p, 55);
  }

  lemma Rounds56(p: seq<byte>)
    requires |p| == 128 && Words56(p) && Rounds(INITIAL512, p, 56) == AFTER56
    ensures Rounds(INITIAL512, p, 64) == AFTER64
  {
    KRow7Is();
    hide K, W, Rounds;
    Next(INITIAL512, p, 56); Next(INITIAL512, p, 57);
    Next(INITIAL512, p, 58); Next(INITIAL512, p, 59);
    Next(INITIAL512, p, 60); Next(INITIAL512, p, 61);
    Next(INITIAL512, p, 62); Next(INITIAL512, p, 63);
  }

  lemma Rounds64(p: seq<byte>)
    requires |p| == 128 && Words64(p) && Rounds(INITIAL512, p, 64) == AFTER64
    ensures Rounds(INITIAL512, p, 72) == AFTER72
  {
    KRow8Is();
    hide K, W, Rounds;
    Next(INITIAL512, p, 64); Next(INITIAL512, p, 65);
    Next(INITIAL512, p, 66); Next(INITIAL512, p, 67);
    Next(INITIAL512, p, 68); Next(INITIAL512, p, 69);
    Next(INITIAL512, p, 70); Next(INITIAL512, p, 71);
  }

  lemma Rounds72(p: seq<byte>)
    requires |p| == 128 && Words72(p) && Rounds(INITIAL512, p, 72) == AFTER72
    ensures Rounds(INITIAL512, p, 80) == AFTER80
  {
    KRow9Is();
    hide K, W, Rounds;
    Next(INITIAL512, p, 72); Next(INITIAL512, p, 73);
    Next(INITIAL512, p, 74); Next(INITIAL512, p, 75);
    Next(INITIAL512, p, 76); Next(INITIAL512, p, 77);
    Next(INITIAL512, p, 78); Next(INITIAL512, p, 79);
  }

  lemma FirstWord(p: seq<byte>, t: nat, b: seq<byte>, n: u64)
    requires |p| == 128 && t < 16 && p[8 * t..8 * t + 8] == b && BE(b) == n
    ensures W(p, t) == ToWord(n)
  {
    hide BE;
  }

  lemma ZeroWord(p: seq<byte>, t: nat)
    requires |p| == 128 && 0 < t < 15 && p[4..127] == Zeros(123)
    ensures W(p, t) == 0
  {
    assert p[8 * t..8 * t + 8] == p[4..127][8 * t - 4..8 * t + 4] == Zeros(8);
    BEZeros(8);
    FirstWord(p, t, Zeros(8), 0);
  }

  const DIGEST := Vars(
    0xddaf35a193617aba, 0xcc417349ae204131, 0x12e6fa4e89a97ea2, 0x0a9eeee64b55d39a,
    0x2192992a274fc1a8, 0x36ba3c23a3feebbd, 0x454d4423643ce80e, 0x2a9ac94fa54ca49f)

  lemma AbcBlock()
    ensures var p := Pad(ABC, 128, 16);
      |p| == 128 && p[..4] == [0x61, 0x62, 0x63, 0x80] && p[4..127] == Zeros(123) && p[127] == 0x18
  {
    LengthBytes();
    hide BeBytes;
    assert ZeroCount(3, 128, 16) == 108;
    var p := Pad(ABC, 128, 16);
    assert p == ABC + [0x80] + Zeros(108) + (Zeros(15) + [0x18]);
  }

  lemma LengthBytes()
    ensures BeBytes(24, 16) == Zeros(15) + [0x18]
  {
    BeBytesStep(24, 15);
    BeBytesOfZero(15);
  }

  lemma AbcWords(p: seq<byte>)
    requires |p| == 128 && p[..4] == [0x61, 0x62, 0x63, 0x80] && p[4..127] == Zeros(123) && p[127] == 0x18
    ensures Words0(p) && Words8(p)
  {
    FirstAndLast();
    hide W, BE;
    assert p[0..8] == p[..4] + p[4..127][..4] == [0x61, 0x62, 0x63, 0x80, 0, 0, 0, 0];
    FirstWord(p, 0, [0x61, 0x62, 0x63, 0x80, 0, 0, 0, 0], 0x6162_6380_0000_0000);
    assert p[120..128] == p[4..127][116..] + [p[127]] == [0, 0, 0, 0, 0, 0, 0, 0x18];
    FirstWord(p, 15, [0, 0, 0, 0, 0, 0, 0, 0x18], 0x18);
    forall t: nat | 0 < t < 15 ensures W(p, t) == 0 {
      ZeroWord(p, t);
    }
  }

  lemma FirstAndLast()
    ensures BE([0x61, 0x62, 0x63, 0x80, 0, 0, 0, 0]) == 0x6162_6380_0000_0000
    ensures BE([0, 0, 0, 0, 0, 0, 0, 0x18]) == 0x18
  {
    BEOf8([0x61, 0x62, 0x63, 0x80, 0, 0, 0, 0]);
    BEOf8([0, 0, 0, 0, 0, 0, 0, 0x18]);
  }

  lemma AbcRounds(p: seq<byte>)
    requires |p| == 128 && Words0(p) && Words8(p)
    ensures Rounds(INITIAL512, p, 80) == AFTER80
  {
    NoRounds(p);
    Schedule16(p);
    Schedule32(p);
    Schedule48(p);
    Schedule64(p);
    hide *;
    Rounds0(p);
    Rounds8(p);
    Rounds16(p);
    Rounds24(p);
    Rounds32(p);
    Rounds40(p);
    Rounds48(p);
    Rounds56(p);
    Rounds64(p);
    Rounds72(p);
  }

  lemma NoRounds(p: seq<byte>)
    requires |p| == 128
    ensures Rounds(INITIAL512, p, 0) == INITIAL512
  {
  }

  lemma AbcFold(p: seq<byte>)
    requires |p| == 128 && Rounds(INITIAL512, p, 80) == AFTER80
    ensures Fold(INITIAL512, p) == DIGEST
  {
    hide Rounds;
    OneBlock(p);
    assert Compress(INITIAL512, p) == DIGEST;
  }

  lemma OneBlock(p: seq<byte>)
    requires |p| == 128
    ensures Fold(INITIAL512, p) == Compress(INITIAL512, p)
  {
    hide Compress;
    assert p[..0] == [] && p[0..] == p && Fold(INITIAL512, []) == INITIAL512;
  }

  /** The known answer: it fixes the schedule, the order of a round, the padding and the byte order. */
  lemma AbcDigest()
    ensures Hash512(ABC)
      == [0xDD, 0xAF, 0x35, 0xA1, 0x93, 0x61, 0x7A, 0xBA]
       + [0xCC, 0x41, 0x73, 0x49, 0xAE, 0x20, 0x41, 0x31]
       + [0x12, 0xE6, 0xFA, 0x4E, 0x89, 0xA9, 0x7E, 0xA2]
       + [0x0A, 0x9E, 0xEE, 0xE6, 0x4B, 0x55, 0xD3, 0x9A]
       + [0x21, 0x92, 0x99, 0x2A, 0x27, 0x4F, 0xC1, 0xA8]
       + [0x36, 0xBA, 0x3C, 0x23, 0xA3, 0xFE, 0xEB, 0xBD]
       + [0x45, 0x4D, 0x44, 0x23, 0x64, 0x3C, 0xE8, 0x0E]
       + [0x2A, 0x9A, 0xC9, 0x4F, 0xA5, 0x4C, 0xA4, 0x9F]
  {
    hide W, Rounds, Fold, Serialise, Pad, Words0, Words8;
    var p := Pad(ABC, 128, 16);
    AbcBlock();
    AbcWords(p);
    AbcRounds(p);
    AbcFold(p);
    DigestBytes();
  }

  lemma DigestBytes()
    ensures Serialise(DIGEST)
      == [0xDD, 0xAF, 0x35, 0xA1, 0x93, 0x61, 0x7A, 0xBA]
       + [0xCC, 0x41, 0x73, 0x49, 0xAE, 0x20, 0x41, 0x31]
       + [0x12, 0xE6, 0xFA, 0x4E, 0x89, 0xA9, 0x7E, 0xA2]
       + [0x0A, 0x9E, 0xEE, 0xE6, 0x4B, 0x55, 0xD3, 0x9A]
       + [0x21, 0x92, 0x99, 0x2A, 0x27, 0x4F, 0xC1, 0xA8]
       + [0x36, 0xBA, 0x3C, 0x23, 0xA3, 0xFE, 0xEB, 0xBD]
       + [0x45, 0x4D, 0x44, 0x23, 0x64, 0x3C, 0xE8, 0x0E]
       + [0x2A, 0x9A, 0xC9, 0x4F, 0xA5, 0x4C, 0xA4, 0x9F]
  {
    DigestWords();
    hide BeBytes, FromWord, WordBytes, BE;
    var v := DIGEST;
    WordIs(v.a, [0xDD, 0xAF, 0x35, 0xA1, 0x93, 0x61, 0x7A, 0xBA]);
    WordIs(v.b, [0xCC, 0x41, 0x73, 0x49, 0xAE, 0x20, 0x41, 0x31]);
    WordIs(v.c, [0x12, 0xE6, 0xFA, 0x4E, 0x89, 0xA9, 0x7E, 0xA2]);
    WordIs(v.d, [0x0A, 0x9E, 0xEE, 0xE6, 0x4B, 0x55, 0xD3, 0x9A]);
    WordIs(v.e, [0x21, 0x92, 0x99, 0x2A, 0x27, 0x4F, 0xC1, 0xA8]);
    WordIs(v.f, [0x36, 0xBA, 0x3C, 0x23, 0xA3, 0xFE, 0xEB, 0xBD]);
    WordIs(v.g, [0x45, 0x4D, 0x44, 0x23, 0x64, 0x3C, 0xE8, 0x0E]);
    WordIs(v.h, [0x2A, 0x9A, 0xC9, 0x4F, 0xA5, 0x4C, 0xA4, 0x9F]);
    WordBytes8(v.a, v.b, v.c, v.d, v.e, v.f, v.g, v.h);
  }

  lemma WordIs(w: bv64, b: seq<byte>)
    requires |b| == 8 && FromWord(w) == BE(b)
    ensures BeBytes(FromWord(w), 8) == b
  {
    hide FromWord, BeBytes, BE;
    BeBytesOfBE(b);
  }

  lemma DigestWords()
    ensures var v := DIGEST;
      FromWord(v.a) == BE([0xDD, 0xAF, 0x35, 0xA1, 0x93, 0x61, 0x7A, 0xBA]) &&
      FromWord(v.b) == BE([0xCC, 0x41, 0x73, 0x49, 0xAE, 0x20, 0x41, 0x31]) &&
      FromWord(v.c) == BE([0x12, 0xE6, 0xFA, 0x4E, 0x89, 0xA9, 0x7E, 0xA2]) &&
      FromWord(v.d) == BE([0x0A, 0x9E, 0xEE, 0xE6, 0x4B, 0x55, 0xD3, 0x9A]) &&
      FromWord(v.e) == BE([0x21, 0x92, 0x99, 0x2A, 0x27, 0x4F, 0xC1, 0xA8]) &&
      FromWord(v.f) == BE([0x36, 0xBA, 0x3C, 0x23, 0xA3, 0xFE, 0xEB, 0xBD]) &&
      FromWord(v.g) == BE([0x45, 0x4D, 0x44, 0x23, 0x64, 0x3C, 0xE8, 0x0E]) &&
      FromWord(v.h) == BE([0x2A, 0x9A, 0xC9, 0x4F, 0xA5, 0x4C, 0xA4, 0x9F])
  {
    DigestWordsFront();
    DigestWordsBack();
    hide BE, FromWord;
  }

  lemma DigestWordsFront()
    ensures var v := DIGEST;
      FromWord(v.a) == BE([0xDD, 0xAF, 0x35, 0xA1, 0x93, 0x61, 0x7A, 0xBA]) &&
      FromWord(v.b) == BE([0xCC, 0x41, 0x73, 0x49, 0xAE, 0x20, 0x41, 0x31]) &&
      FromWord(v.c) == BE([0x12, 0xE6, 0xFA, 0x4E, 0x89, 0xA9, 0x7E, 0xA2]) &&
      FromWord(v.d) == BE([0x0A, 0x9E, 0xEE, 0xE6, 0x4B, 0x55, 0xD3, 0x9A])
  {
    BEOf8([0xDD, 0xAF, 0x35, 0xA1, 0x93, 0x61, 0x7A, 0xBA]);
    BEOf8([0xCC, 0x41, 0x73, 0x49, 0xAE, 0x20, 0x41, 0x31]);
    BEOf8([0x12, 0xE6, 0xFA, 0x4E, 0x89, 0xA9, 0x7E, 0xA2]);
    BEOf8([0x0A, 0x9E, 0xEE, 0xE6, 0x4B, 0x55, 0xD3, 0x9A]);
    hide BE;
  }

  lemma DigestWordsBack()
    ensures var v := DIGEST;
      FromWord(v.e) == BE([0x21, 0x92, 0x99, 0x2A, 0x27, 0x4F, 0xC1, 0xA8]) &&
      FromWord(v.f) == BE([0x36, 0xBA, 0x3C, 0x23, 0xA3, 0xFE, 0xEB, 0xBD]) &&
      FromWord(v.g) == BE([0x45, 0x4D, 0x44, 0x23, 0x64, 0x3C, 0xE8, 0x0E]) &&
      FromWord(v.h) == BE([0x2A, 0x9A, 0xC9, 0x4F, 0xA5, 0x4C, 0xA4, 0x9F])
  {
    BEOf8([0x21, 0x92, 0x99, 0x2A, 0x27, 0x4F, 0xC1, 0xA8]);
    BEOf8([0x36, 0xBA, 0x3C, 0x23, 0xA3, 0xFE, 0xEB, 0xBD]);
    BEOf8([0x45, 0x4D, 0x44, 0x23, 0x64, 0x3C, 0xE8, 0x0E]);
    BEOf8([0x2A, 0x9A, 0xC9, 0x4F, 0xA5, 0x4C, 0xA4, 0x9F]);
    hide BE;
  }

  lemma WordBytes8(a: bv64, b: bv64, c: bv64, d: bv64, e: bv64, f: bv64, g: bv64, h: bv64)
    ensures WordBytes([a, b, c, d, e, f, g, h])
      == BeBytes(FromWord(a), 8) + BeBytes(FromWord(b), 8) + BeBytes(FromWord(c), 8) + BeBytes(FromWord(d), 8)
       + BeBytes(FromWord(e), 8) + BeBytes(FromWord(f), 8) + BeBytes(FromWord(g), 8) + BeBytes(FromWord(h), 8)
  {
    hide *;
    var s := [a, b, c, d, e, f, g, h];
    assert s[..8] == s;
    WordBytesStep(s, 7); WordBytesStep(s, 6); WordBytesStep(s, 5); WordBytesStep(s, 4);
    WordBytesStep(s, 3); WordBytesStep(s, 2); WordBytesStep(s, 1); WordBytesStep(s, 0);
  }

  lemma WordBytesStep(s: seq<bv64>, i: nat)
    requires i < |s|
    ensures WordBytes(s[..i + 1]) == WordBytes(s[..i]) + BeBytes(FromWord(s[i]), 8) && WordBytes(s[..0]) == []
  {
    hide BeBytes, FromWord;
    assert s[..i + 1][..i] == s[..i];
  }
}
