/** The known answers of RFC 8439, sections 2.1.1 and 2.3.2, computed by the definitions. */
module ChaCha20Vectors {
  import opened Bits
  import opened Bytes
  import opened Word32
  import opened ChaCha20

  /** Section 2.1.1. */
  lemma QuarterAnswer()
    ensures Quarter(Quad(0x11111111, 0x01020304, 0x9b8d6f43, 0x01234567))
      == Quad(0xea2a92f4, 0xcb1cf8ce, 0x4581472e, 0x5881c4bb)
  {
  }

  // ---------- section 2.3.2: the states of the block function

  const STATE0: seq<bv32> := [
    0x61707865, 0x3320646e, 0x79622d32, 0x6b206574, 0x03020100, 0x07060504, 0x0b0a0908, 0x0f0e0d0c,
    0x13121110, 0x17161514, 0x1b1a1918, 0x1f1e1d1c, 0x00000001, 0x09000000, 0x4a000000, 0x00000000
  ]

  const STATE1: seq<bv32> := [
    0xcd52e917, 0x85ab03b4, 0xb3457395, 0xf96de7dd, 0xc4b7cd22, 0x5c2e187a, 0xc95eb461, 0x316c801a,
    0x7bf7d740, 0x7eddd644, 0xf1a1bdf5, 0x761246ca, 0x6b0d58a3, 0x6798471a, 0xd737f167, 0xf173888d
  ]

  const STATE2: seq<bv32> := [
    0xcf1a7584, 0x048927ec, 0x54051fda, 0xc244ff28, 0x901d2f40, 0x7974b81c, 0x378dcfb4, 0xcd47fd0e,
    0x2dafb216, 0x27c89cd6, 0xcd3c9aa0, 0x79fc89c7, 0x10aef18d, 0x16218765, 0x68f76705, 0x04d6ee22
  ]

  const STATE3: seq<bv32> := [
    0x03a14032, 0x66b15927, 0x9d6b6b42, 0xb84c4109, 0xa7143ae0, 0xa09b33dd, 0xa5daaf88, 0x2fd91a73,
    0xc90c6b18, 0x5a202413, 0xc20e01b6, 0x72cd6b74, 0xba35d777, 0xb360f1bf, 0x8178315b, 0x2cd11b1a
  ]

  const STATE4: seq<bv32> := [
    0x9a2d3589, 0x0b23fc4e, 0x40af3b6b, 0xceea8144, 0x0a1bffc6, 0x5e5993f7, 0x9904c2e7, 0x0d334718,
    0xe46c6354, 0xc9503229, 0x04fef5aa, 0xf8933f72, 0x2687d476, 0x54e65231, 0x3594ffc5, 0x2b3bb2ca
  ]

  const STATE5: seq<bv32> := [
    0xc53318c5, 0xca325d96, 0x7e7d11cb, 0x3404e2ca, 0x26d7cf73, 0x6088d379, 0xc0f0e9bd, 0xe310cdb9,
    0xae2ca8db, 0x42f67c72, 0x71669aca, 0x975c171d, 0x9e5ec228, 0x7d85a9f3, 0x201d0756, 0x63fa6953
  ]

  const STATE6: seq<bv32> := [
    0x04a3131a, 0x66176309, 0x0415bab1, 0x61b880a2, 0x36cc86c7, 0xbf8a4465, 0xf77dd720, 0xfc0bdc90,
    0x07d13aca, 0xeb0be9af, 0x61599491, 0x918512dc, 0x33b6686d, 0x795cc671, 0xc0049972, 0xa0a81bde
  ]

  const STATE7: seq<bv32> := [
    0x9b70f51f, 0x7ea8ac11, 0x21e54da9, 0xca393b2f, 0x93b08686, 0x6a4c50ae, 0x19212a5a, 0x9b032958,
    0xd839165e, 0x4c06e28a, 0xd3fde99e, 0x26acc13d, 0xa609f555, 0x2c246549, 0x95151853, 0x2c847a0d
  ]

  const STATE8: seq<bv32> := [
    0xca5c85dd, 0x93a4f90e, 0xd9f0df58, 0x26dd82dd, 0x982563f8, 0x712aa9ff, 0x279a61e8, 0x970f72bd,
    0x1c25931a, 0x5180bb10, 0x779c27e7, 0x54077e08, 0xa9b751fb, 0x382f3ce2, 0x8db1757d, 0xcc38080b
  ]

  const STATE9: seq<bv32> := [
    0xb6b87de6, 0x9a016148, 0x93859815, 0x4915e6cc, 0xdc33c122, 0x98e18fa3, 0x5ffbe8fc, 0xf7154b8b,
    0x28c1fcb3, 0xc4b38f9d, 0x83e2f5d7, 0x7d24b98b, 0x21078b22, 0xb193e7a3, 0xb2f49389, 0x6cde6026
  ]

  const STATE10: seq<bv32> := [
    0x837778ab, 0xe238d763, 0xa67ae21e, 0x5950bb2f, 0xc4f2d0c7, 0xfc62bb2f, 0x8fa018fc, 0x3f5ec7b7,
    0x335271c2, 0xf29489f3, 0xeabda8fc, 0x82e46ebd, 0xd19c12b4, 0xb04e16de, 0x9e83d0cb, 0x4e3c50a2
  ]

  lemma Double0()
    ensures |STATE0| == 16 && DiagonalRound(ColumnRound(STATE0)) == STATE1
  {
    ColumnRoundIs(STATE0);
    var m: seq<bv32> := [
      0xabbaa25c, 0x1efa51ea, 0x7354fbdf, 0x83d2dc69, 0x3a465196, 0x1c7e64f6, 0xb12fb628, 0xf05b6976,
      0x6b3ca454, 0x08eb14b1, 0xbf8a9ac9, 0xe444df3b, 0xdec62ed2, 0x8862cc77, 0x6e35b345, 0x52a647f1
    ];
    Columns0();
    DiagonalRoundIs(m);
    Diagonals0();
    hide Quarter, ColumnRound, DiagonalRound;
  }

  lemma Columns0()
    ensures Quarter(Quad(0x61707865, 0x03020100, 0x13121110, 0x00000001))
      == Quad(0xabbaa25c, 0x3a465196, 0x6b3ca454, 0xdec62ed2)
    ensures Quarter(Quad(0x3320646e, 0x07060504, 0x17161514, 0x09000000))
      == Quad(0x1efa51ea, 0x1c7e64f6, 0x08eb14b1, 0x8862cc77)
    ensures Quarter(Quad(0x79622d32, 0x0b0a0908, 0x1b1a1918, 0x4a000000))
      == Quad(0x7354fbdf, 0xb12fb628, 0xbf8a9ac9, 0x6e35b345)
    ensures Quarter(Quad(0x6b206574, 0x0f0e0d0c, 0x1f1e1d1c, 0x00000000))
      == Quad(0x83d2dc69, 0xf05b6976, 0xe444df3b, 0x52a647f1)
  {
  }

  lemma Diagonals0()
    ensures Quarter(Quad(0xabbaa25c, 0x1c7e64f6, 0xbf8a9ac9, 0x52a647f1))
      == Quad(0xcd52e917, 0x5c2e187a, 0xf1a1bdf5, 0xf173888d)
    ensures Quarter(Quad(0x1efa51ea, 0xb12fb628, 0xe444df3b, 0xdec62ed2))
      == Quad(0x85ab03b4, 0xc95eb461, 0x761246ca, 0x6b0d58a3)
    ensures Quarter(Quad(0x7354fbdf, 0xf05b6976, 0x6b3ca454, 0x8862cc77))
      == Quad(0xb3457395, 0x316c801a, 0x7bf7d740, 0x6798471a)
    ensures Quarter(Quad(0x83d2dc69, 0x3a465196, 0x08eb14b1, 0x6e35b345))
      == Quad(0xf96de7dd, 0xc4b7cd22, 0x7eddd644, 0xd737f167)
  {
  }

  lemma Double1()
    ensures |STATE1| == 16 && DiagonalRound(ColumnRound(STATE1)) == STATE2
  {
    ColumnRoundIs(STATE1);
    var m: seq<bv32> := [
      0xe3e1111b, 0xa6291491, 0x5a82b80c, 0x4500fd45, 0xd65b5b5b, 0xf56af099, 0x4ccc8103, 0xc94d29e2,
      0xe67aec54, 0xf7a52d82, 0xdb470914, 0xdfb40f1d, 0x7be81c0d, 0x1d92d0fd, 0x13139f8c, 0x7a26ecaa
    ];
    Columns1();
    DiagonalRoundIs(m);
    Diagonals1();
    hide Quarter, ColumnRound, DiagonalRound;
  }

  lemma Columns1()
    ensures Quarter(Quad(0xcd52e917, 0xc4b7cd22, 0x7bf7d740, 0x6b0d58a3))
      == Quad(0xe3e1111b, 0xd65b5b5b, 0xe67aec54, 0x7be81c0d)
    ensures Quarter(Quad(0x85ab03b4, 0x5c2e187a, 0x7eddd644, 0x6798471a))
      == Quad(0xa6291491, 0xf56af099, 0xf7a52d82, 0x1d92d0fd)
    ensures Quarter(Quad(0xb3457395, 0xc95eb461, 0xf1a1bdf5, 0xd737f167))
      == Quad(0x5a82b80c, 0x4ccc8103, 0xdb470914, 0x13139f8c)
    ensures Quarter(Quad(0xf96de7dd, 0x316c801a, 0x761246ca, 0xf173888d))
      == Quad(0x4500fd45, 0xc94d29e2, 0xdfb40f1d, 0x7a26ecaa)
  {
  }

  lemma Diagonals1()
    ensures Quarter(Quad(0xe3e1111b, 0xf56af099, 0xdb470914, 0x7a26ecaa))
      == Quad(0xcf1a7584, 0x7974b81c, 0xcd3c9aa0, 0x04d6ee22)
    ensures Quarter(Quad(0xa6291491, 0x4ccc8103, 0xdfb40f1d, 0x7be81c0d))
      == Quad(0x048927ec, 0x378dcfb4, 0x79fc89c7, 0x10aef18d)
    ensures Quarter(Quad(0x5a82b80c, 0xc94d29e2, 0xe67aec54, 0x1d92d0fd))
      == Quad(0x54051fda, 0xcd47fd0e, 0x2dafb216, 0x16218765)
    ensures Quarter(Quad(0x4500fd45, 0xd65b5b5b, 0xf7a52d82, 0x13139f8c))
      == Quad(0xc244ff28, 0x901d2f40, 0x27c89cd6, 0x68f76705)
  {
  }

  lemma Double2()
    ensures |STATE2| == 16 && DiagonalRound(ColumnRound(STATE2)) == STATE3
  {
    ColumnRoundIs(STATE2);
    var m: seq<bv32> := [
      0xa22695f2, 0xa908cf6c, 0xe6ae05b2, 0xfe0ff04b, 0x1ece4458, 0xe82b726f, 0x5a21ab90, 0x87698c64,
      0xf2d36da6, 0xf4dab980, 0x7baf5573, 0xa78c270d, 0x6fda6bf7, 0x65a4b0ce, 0x25e6d76e, 0x1b7b11ec
    ];
    Columns2();
    DiagonalRoundIs(m);
    Diagonals2();
    hide Quarter, ColumnRound, DiagonalRound;
  }

  lemma Columns2()
    ensures Quarter(Quad(0xcf1a7584, 0x901d2f40, 0x2dafb216, 0x10aef18d))
      == Quad(0xa22695f2, 0x1ece4458, 0xf2d36da6, 0x6fda6bf7)
    ensures Quarter(Quad(0x048927ec, 0x7974b81c, 0x27c89cd6, 0x16218765))
      == Quad(0xa908cf6c, 0xe82b726f, 0xf4dab980, 0x65a4b0ce)
    ensures Quarter(Quad(0x54051fda, 0x378dcfb4, 0xcd3c9aa0, 0x68f76705))
      == Quad(0xe6ae05b2, 0x5a21ab90, 0x7baf5573, 0x25e6d76e)
    ensures Quarter(Quad(0xc244ff28, 0xcd47fd0e, 0x79fc89c7, 0x04d6ee22))
      == Quad(0xfe0ff04b, 0x87698c64, 0xa78c270d, 0x1b7b11ec)
  {
  }

  lemma Diagonals2()
    ensures Quarter(Quad(0xa22695f2, 0xe82b726f, 0x7baf5573, 0x1b7b11ec))
      == Quad(0x03a14032, 0xa09b33dd, 0xc20e01b6, 0x2cd11b1a)
    ensures Quarter(Quad(0xa908cf6c, 0x5a21ab90, 0xa78c270d, 0x6fda6bf7))
      == Quad(0x66b15927, 0xa5daaf88, 0x72cd6b74, 0xba35d777)
    ensures Quarter(Quad(0xe6ae05b2, 0x87698c64, 0xf2d36da6, 0x65a4b0ce))
      == Quad(0x9d6b6b42, 0x2fd91a73, 0xc90c6b18, 0xb360f1bf)
    ensures Quarter(Quad(0xfe0ff04b, 0x1ece4458, 0xf4dab980, 0x25e6d76e))
      == Quad(0xb84c4109, 0xa7143ae0, 0x5a202413, 0x8178315b)
  {
  }

  lemma Double3()
    ensures |STATE3| == 16 && DiagonalRound(ColumnRound(STATE3)) == STATE4
  {
    ColumnRoundIs(STATE3);
    var m: seq<bv32> := [
      0xfecd0838, 0x160ab468, 0x9a0ddf4e, 0xbac7154a, 0xcedf6624, 0xb11de6c4, 0xbd7810ef, 0xd22b5643,
      0x1d8a33ea, 0x87dc1ca9, 0x89bd34a5, 0x5505ef62, 0xa818b852, 0xb100446a, 0x9c1d70b1, 0xa1d1befa
    ];
    Columns3();
    DiagonalRoundIs(m);
    Diagonals3();
    hide Quarter, ColumnRound, DiagonalRound;
  }

  lemma Columns3()
    ensures Quarter(Quad(0x03a14032, 0xa7143ae0, 0xc90c6b18, 0xba35d777))
      == Quad(0xfecd0838, 0xcedf6624, 0x1d8a33ea, 0xa818b852)
    ensures Quarter(Quad(0x66b15927, 0xa09b33dd, 0x5a202413, 0xb360f1bf))
      == Quad(0x160ab468, 0xb11de6c4, 0x87dc1ca9, 0xb100446a)
    ensures Quarter(Quad(0x9d6b6b42, 0xa5daaf88, 0xc20e01b6, 0x8178315b))
      == Quad(0x9a0ddf4e, 0xbd7810ef, 0x89bd34a5, 0x9c1d70b1)
    ensures Quarter(Quad(0xb84c4109, 0x2fd91a73, 0x72cd6b74, 0x2cd11b1a))
      == Quad(0xbac7154a, 0xd22b5643, 0x5505ef62, 0xa1d1befa)
  {
  }

  lemma Diagonals3()
    ensures Quarter(Quad(0xfecd0838, 0xb11de6c4, 0x89bd34a5, 0xa1d1befa))
      == Quad(0x9a2d3589, 0x5e5993f7, 0x04fef5aa, 0x2b3bb2ca)
    ensures Quarter(Quad(0x160ab468, 0xbd7810ef, 0x5505ef62, 0xa818b852))
      == Quad(0x0b23fc4e, 0x9904c2e7, 0xf8933f72, 0x2687d476)
    ensures Quarter(Quad(0x9a0ddf4e, 0xd22b5643, 0x1d8a33ea, 0xb100446a))
      == Quad(0x40af3b6b, 0x0d334718, 0xe46c6354, 0x54e65231)
    ensures Quarter(Quad(0xbac7154a, 0xcedf6624, 0x87dc1ca9, 0x9c1d70b1))
      == Quad(0xceea8144, 0x0a1bffc6, 0xc9503229, 0x3594ffc5)
  {
  }

  lemma Double4()
    ensures |STATE4| == 16 && DiagonalRound(ColumnRound(STATE4)) == STATE5
  {
    ColumnRoundIs(STATE4);
    var m: seq<bv32> := [
      0x85e7824a, 0x4940cd9e, 0xfbe7684b, 0x7335d03d, 0x1c133ea1, 0xbba40b0f, 0x9413992a, 0xa4ab2040,
      0xa3a66a86, 0xc0b4754f, 0x771b4ecb, 0x165151a1, 0xde008464, 0x34f0058b, 0x70846cfa, 0xa3271b09
    ];
    Columns4();
    DiagonalRoundIs(m);
    Diagonals4();
    hide Quarter, ColumnRound, DiagonalRound;
  }

  lemma Columns4()
    ensures Quarter(Quad(0x9a2d3589, 0x0a1bffc6, 0xe46c6354, 0x2687d476))
      == Quad(0x85e7824a, 0x1c133ea1, 0xa3a66a86, 0xde008464)
    ensures Quarter(Quad(0x0b23fc4e, 0x5e5993f7, 0xc9503229, 0x54e65231))
      == Quad(0x4940cd9e, 0xbba40b0f, 0xc0b4754f, 0x34f0058b)
    ensures Quarter(Quad(0x40af3b6b, 0x9904c2e7, 0x04fef5aa, 0x3594ffc5))
      == Quad(0xfbe7684b, 0x9413992a, 0x771b4ecb, 0x70846cfa)
    ensures Quarter(Quad(0xceea8144, 0x0d334718, 0xf8933f72, 0x2b3bb2ca))
      == Quad(0x7335d03d, 0xa4ab2040, 0x165151a1, 0xa3271b09)
  {
  }

  lemma Diagonals4()
    ensures Quarter(Quad(0x85e7824a, 0xbba40b0f, 0x771b4ecb, 0xa3271b09))
      == Quad(0xc53318c5, 0x6088d379, 0x71669aca, 0x63fa6953)
    ensures Quarter(Quad(0x4940cd9e, 0x9413992a, 0x165151a1, 0xde008464))
      == Quad(0xca325d96, 0xc0f0e9bd, 0x975c171d, 0x9e5ec228)
    ensures Quarter(Quad(0xfbe7684b, 0xa4ab2040, 0xa3a66a86, 0x34f0058b))
      == Quad(0x7e7d11cb, 0xe310cdb9, 0xae2ca8db, 0x7d85a9f3)
    ensures Quarter(Quad(0x7335d03d, 0x1c133ea1, 0xc0b4754f, 0x70846cfa))
      == Quad(0x3404e2ca, 0x26d7cf73, 0x42f67c72, 0x201d0756)
  {
  }

  lemma Double5()
    ensures |STATE5| == 16 && DiagonalRound(ColumnRound(STATE5)) == STATE6
  {
    ColumnRoundIs(STATE5);
    var m: seq<bv32> := [
      0x9950b826, 0xcac7ccc6, 0x84a67673, 0xdb3109a6, 0x2121065a, 0xc12bdadb, 0xcae3acd1, 0x594616cb,
      0x19078de2, 0x178ecc02, 0xe6adbdb2, 0x52a9d50e, 0x40ca72b3, 0x3b9bf852, 0x78690378, 0xe17d4902
    ];
    Columns5();
    DiagonalRoundIs(m);
    Diagonals5();
    hide Quarter, ColumnRound, DiagonalRound;
  }

  lemma Columns5()
    ensures Quarter(Quad(0xc53318c5, 0x26d7cf73, 0xae2ca8db, 0x9e5ec228))
      == Quad(0x9950b826, 0x2121065a, 0x19078de2, 0x40ca72b3)
    ensures Quarter(Quad(0xca325d96, 0x6088d379, 0x42f67c72, 0x7d85a9f3))
      == Quad(0xcac7ccc6, 0xc12bdadb, 0x178ecc02, 0x3b9bf852)
    ensures Quarter(Quad(0x7e7d11cb, 0xc0f0e9bd, 0x71669aca, 0x201d0756))
      == Quad(0x84a67673, 0xcae3acd1, 0xe6adbdb2, 0x78690378)
    ensures Quarter(Quad(0x3404e2ca, 0xe310cdb9, 0x975c171d, 0x63fa6953))
      == Quad(0xdb3109a6, 0x594616cb, 0x52a9d50e, 0xe17d4902)
  {
  }

  lemma Diagonals5()
    ensures Quarter(Quad(0x9950b826, 0xc12bdadb, 0xe6adbdb2, 0xe17d4902))
      == Quad(0x04a3131a, 0xbf8a4465, 0x61599491, 0xa0a81bde)
    ensures Quarter(Quad(0xcac7ccc6, 0xcae3acd1, 0x52a9d50e, 0x40ca72b3))
      == Quad(0x66176309, 0xf77dd720, 0x918512dc, 0x33b6686d)
    ensures Quarter(Quad(0x84a67673, 0x594616cb, 0x19078de2, 0x3b9bf852))
      == Quad(0x0415bab1, 0xfc0bdc90, 0x07d13aca, 0x795cc671)
    ensures Quarter(Quad(0xdb3109a6, 0x2121065a, 0x178ecc02, 0x78690378))
      == Quad(0x61b880a2, 0x36cc86c7, 0xeb0be9af, 0xc0049972)
  {
  }

  lemma Double6()
    ensures |STATE6| == 16 && DiagonalRound(ColumnRound(STATE6)) == STATE7
  {
    ColumnRoundIs(STATE6);
    var m: seq<bv32> := [
      0x57c5e6da, 0x35ce46a8, 0x0c041bb9, 0xfa91df79, 0x8e85d82f, 0xb4819d06, 0xb63be200, 0xacd221e4,
      0x434b4749, 0x1d459c00, 0x111cfe2c, 0x55942604, 0x49ee03a6, 0xd11a5554, 0xa7202e04, 0x7d2215bc
    ];
    Columns6();
    DiagonalRoundIs(m);
    Diagonals6();
    hide Quarter, ColumnRound, DiagonalRound;
  }

  lemma Columns6()
    ensures Quarter(Quad(0x04a3131a, 0x36cc86c7, 0x07d13aca, 0x33b6686d))
      == Quad(0x57c5e6da, 0x8e85d82f, 0x434b4749, 0x49ee03a6)
    ensures Quarter(Quad(0x66176309, 0xbf8a4465, 0xeb0be9af, 0x795cc671))
      == Quad(0x35ce46a8, 0xb4819d06, 0x1d459c00, 0xd11a5554)
    ensures Quarter(Quad(0x0415bab1, 0xf77dd720, 0x61599491, 0xc0049972))
      == Quad(0x0c041bb9, 0xb63be200, 0x111cfe2c, 0xa7202e04)
    ensures Quarter(Quad(0x61b880a2, 0xfc0bdc90, 0x918512dc, 0xa0a81bde))
      == Quad(0xfa91df79, 0xacd221e4, 0x55942604, 0x7d2215bc)
  {
  }

  lemma Diagonals6()
    ensures Quarter(Quad(0x57c5e6da, 0xb4819d06, 0x111cfe2c, 0x7d2215bc))
      == Quad(0x9b70f51f, 0x6a4c50ae, 0xd3fde99e, 0x2c847a0d)
    ensures Quarter(Quad(0x35ce46a8, 0xb63be200, 0x55942604, 0x49ee03a6))
      == Quad(0x7ea8ac11, 0x19212a5a, 0x26acc13d, 0xa609f555)
    ensures Quarter(Quad(0x0c041bb9, 0xacd221e4, 0x434b4749, 0xd11a5554))
      == Quad(0x21e54da9, 0x9b032958, 0xd839165e, 0x2c246549)
    ensures Quarter(Quad(0xfa91df79, 0x8e85d82f, 0x1d459c00, 0xa7202e04))
      == Quad(0xca393b2f, 0x93b08686, 0x4c06e28a, 0x95151853)
  {
  }

  lemma Double7()
    ensures |STATE7| == 16 && DiagonalRound(ColumnRound(STATE7)) == STATE8
  {
    ColumnRoundIs(STATE7);
    var m: seq<bv32> := [
      0xc0b18aee, 0x087445ba, 0x36e52ad9, 0xa777426a, 0xdeb54e9c, 0x802c883b, 0x06e86889, 0x3c002680,
      0xa82d65d4, 0x687f11eb, 0xe9d36207, 0x4242ddae, 0x4103c64e, 0x82816a91, 0xb584ca56, 0xfd0bd2b9
    ];
    Columns7();
    DiagonalRoundIs(m);
    Diagonals7();
    hide Quarter, ColumnRound, DiagonalRound;
  }

  lemma Columns7()
    ensures Quarter(Quad(0x9b70f51f, 0x93b08686, 0xd839165e, 0xa609f555))
      == Quad(0xc0b18aee, 0xdeb54e9c, 0xa82d65d4, 0x4103c64e)
    ensures Quarter(Quad(0x7ea8ac11, 0x6a4c50ae, 0x4c06e28a, 0x2c246549))
      == Quad(0x087445ba, 0x802c883b, 0x687f11eb, 0x82816a91)
    ensures Quarter(Quad(0x21e54da9, 0x19212a5a, 0xd3fde99e, 0x95151853))
      == Quad(0x36e52ad9, 0x06e86889, 0xe9d36207, 0xb584ca56)
    ensures Quarter(Quad(0xca393b2f, 0x9b032958, 0x26acc13d, 0x2c847a0d))
      == Quad(0xa777426a, 0x3c002680, 0x4242ddae, 0xfd0bd2b9)
  {
  }

  lemma Diagonals7()
    ensures Quarter(Quad(0xc0b18aee, 0x802c883b, 0xe9d36207, 0xfd0bd2b9))
      == Quad(0xca5c85dd, 0x712aa9ff, 0x779c27e7, 0xcc38080b)
    ensures Quarter(Quad(0x087445ba, 0x06e86889, 0x4242ddae, 0x4103c64e))
      == Quad(0x93a4f90e, 0x279a61e8, 0x54077e08, 0xa9b751fb)
    ensures Quarter(Quad(0x36e52ad9, 0x3c002680, 0xa82d65d4, 0x82816a91))
      == Quad(0xd9f0df58, 0x970f72bd, 0x1c25931a, 0x382f3ce2)
    ensures Quarter(Quad(0xa777426a, 0xdeb54e9c, 0x687f11eb, 0xb584ca56))
      == Quad(0x26dd82dd, 0x982563f8, 0x5180bb10, 0x8db1757d)
  {
  }

  lemma Double8()
    ensures |STATE8| == 16 && DiagonalRound(ColumnRound(STATE8)) == STATE9
  {
    ColumnRoundIs(STATE8);
    var m: seq<bv32> := [
      0x765c6e9c, 0x5ab09b11, 0x3ee7da04, 0x37c31203, 0x9046ecaa, 0x7b88d882, 0xb9b577dd, 0x156de7ed,
      0x46fa091e, 0x5117e9b5, 0x862ff22b, 0xa3fcc7a6, 0x72a5aace, 0x5fa7f1c5, 0xda563e0a, 0x5263d7ca
    ];
    Columns8();
    DiagonalRoundIs(m);
    Diagonals8();
    hide Quarter, ColumnRound, DiagonalRound;
  }

  lemma Columns8()
    ensures Quarter(Quad(0xca5c85dd, 0x982563f8, 0x1c25931a, 0xa9b751fb))
      == Quad(0x765c6e9c, 0x9046ecaa, 0x46fa091e, 0x72a5aace)
    ensures Quarter(Quad(0x93a4f90e, 0x712aa9ff, 0x5180bb10, 0x382f3ce2))
      == Quad(0x5ab09b11, 0x7b88d882, 0x5117e9b5, 0x5fa7f1c5)
    ensures Quarter(Quad(0xd9f0df58, 0x279a61e8, 0x779c27e7, 0x8db1757d))
      == Quad(0x3ee7da04, 0xb9b577dd, 0x862ff22b, 0xda563e0a)
    ensures Quarter(Quad(0x26dd82dd, 0x970f72bd, 0x54077e08, 0xcc38080b))
      == Quad(0x37c31203, 0x156de7ed, 0xa3fcc7a6, 0x5263d7ca)
  {
  }

  lemma Diagonals8()
    ensures Quarter(Quad(0x765c6e9c, 0x7b88d882, 0x862ff22b, 0x5263d7ca))
      == Quad(0xb6b87de6, 0x98e18fa3, 0x83e2f5d7, 0x6cde6026)
    ensures Quarter(Quad(0x5ab09b11, 0xb9b577dd, 0xa3fcc7a6, 0x72a5aace))
      == Quad(0x9a016148, 0x5ffbe8fc, 0x7d24b98b, 0x21078b22)
    ensures Quarter(Quad(0x3ee7da04, 0x156de7ed, 0x46fa091e, 0x5fa7f1c5))
      == Quad(0x93859815, 0xf7154b8b, 0x28c1fcb3, 0xb193e7a3)
    ensures Quarter(Quad(0x37c31203, 0x9046ecaa, 0x5117e9b5, 0xda563e0a))
      == Quad(0x4915e6cc, 0xdc33c122, 0xc4b38f9d, 0xb2f49389)
  {
  }

  lemma Double9()
    ensures |STATE9| == 16 && DiagonalRound(ColumnRound(STATE9)) == STATE10
  {
    ColumnRoundIs(STATE9);
    var m: seq<bv32> := [
      0x8a07ff15, 0x0cadc51c, 0x017c8da9, 0x4afbe5df, 0x913768fe, 0x442a0c0c, 0x598fe3bb, 0x47d18828,
      0x0a39aedc, 0xc1428029, 0x7b48135f, 0x5a5f1098, 0x2d4cfe3e, 0xe5466d1b, 0xe4ccdc13, 0x8ac92a18
    ];
    Columns9();
    DiagonalRoundIs(m);
    Diagonals9();
    hide Quarter, ColumnRound, DiagonalRound;
  }

  lemma Columns9()
    ensures Quarter(Quad(0xb6b87de6, 0xdc33c122, 0x28c1fcb3, 0x21078b22))
      == Quad(0x8a07ff15, 0x913768fe, 0x0a39aedc, 0x2d4cfe3e)
    ensures Quarter(Quad(0x9a016148, 0x98e18fa3, 0xc4b38f9d, 0xb193e7a3))
      == Quad(0x0cadc51c, 0x442a0c0c, 0xc1428029, 0xe5466d1b)
    ensures Quarter(Quad(0x93859815, 0x5ffbe8fc, 0x83e2f5d7, 0xb2f49389))
      == Quad(0x017c8da9, 0x598fe3bb, 0x7b48135f, 0xe4ccdc13)
    ensures Quarter(Quad(0x4915e6cc, 0xf7154b8b, 0x7d24b98b, 0x6cde6026))
      == Quad(0x4afbe5df, 0x47d18828, 0x5a5f1098, 0x8ac92a18)
  {
  }

  lemma Diagonals9()
    ensures Quarter(Quad(0x8a07ff15, 0x442a0c0c, 0x7b48135f, 0x8ac92a18))
      == Quad(0x837778ab, 0xfc62bb2f, 0xeabda8fc, 0x4e3c50a2)
    ensures Quarter(Quad(0x0cadc51c, 0x598fe3bb, 0x5a5f1098, 0x2d4cfe3e))
      == Quad(0xe238d763, 0x8fa018fc, 0x82e46ebd, 0xd19c12b4)
    ensures Quarter(Quad(0x017c8da9, 0x47d18828, 0x0a39aedc, 0xe5466d1b))
      == Quad(0xa67ae21e, 0x3f5ec7b7, 0x335271c2, 0xb04e16de)
    ensures Quarter(Quad(0x4afbe5df, 0x913768fe, 0xc1428029, 0xe4ccdc13))
      == Quad(0x5950bb2f, 0xc4f2d0c7, 0xf29489f3, 0x9e83d0cb)
  {
  }

  // the bytes 00 to 1f
  const KEY: seq<byte> := seq(32, i requires 0 <= i < 32 => i)

  const NONCE: seq<byte> := [0x00, 0x00, 0x00, 0x09, 0x00, 0x00, 0x00, 0x4A, 0x00, 0x00, 0x00, 0x00]

  const SUM: seq<bv32> := [
    0xe4e7f110, 0x15593bd1, 0x1fdd0f50, 0xc47120a3, 0xc7f4d1c7, 0x0368c033, 0x9aaa2204, 0x4e6cd4c3,
    0x466482d2, 0x09aa9f07, 0x05d7c214, 0xa2028bd9, 0xd19c12b5, 0xb94e16de, 0xe883d0cb, 0x4e3c50a2
  ]

  lemma WordOf(s: seq<byte>, i: nat, a: byte, b: byte, c: byte, d: byte, n: u32)
    requires 4 * i + 4 <= |s| && s[4 * i] == a && s[4 * i + 1] == b && s[4 * i + 2] == c && s[4 * i + 3] == d
    requires n == a + 0x100 * (b as int) + 0x1_0000 * (c as int) + 0x100_0000 * (d as int)
    ensures Word(s, i) == ToWord(n)
  {
    hide LE, ToWord;
    LEOf4(s[4 * i..4 * i + 4]);
  }

  lemma KeyParts()
    ensures |KEY| == 32 && forall i :: 0 <= i < 32 ==> KEY[i] == i
  {
  }

  lemma FirstKeyWords()
    ensures |KEY| == 32
    ensures Word(KEY, 0) == 0x03020100
    ensures Word(KEY, 1) == 0x07060504
    ensures Word(KEY, 2) == 0x0b0a0908
    ensures Word(KEY, 3) == 0x0f0e0d0c
  {
    KeyParts();
    hide Word;
    WordOf(KEY, 0, 0x00, 0x01, 0x02, 0x03, 0x03020100);
    WordOf(KEY, 1, 0x04, 0x05, 0x06, 0x07, 0x07060504);
    WordOf(KEY, 2, 0x08, 0x09, 0x0A, 0x0B, 0x0b0a0908);
    WordOf(KEY, 3, 0x0C, 0x0D, 0x0E, 0x0F, 0x0f0e0d0c);
  }

  lemma LastKeyWords()
    ensures |KEY| == 32
    ensures Word(KEY, 4) == 0x13121110
    ensures Word(KEY, 5) == 0x17161514
    ensures Word(KEY, 6) == 0x1b1a1918
    ensures Word(KEY, 7) == 0x1f1e1d1c
  {
    KeyParts();
    hide Word;
    WordOf(KEY, 4, 0x10, 0x11, 0x12, 0x13, 0x13121110);
    WordOf(KEY, 5, 0x14, 0x15, 0x16, 0x17, 0x17161514);
    WordOf(KEY, 6, 0x18, 0x19, 0x1A, 0x1B, 0x1b1a1918);
    WordOf(KEY, 7, 0x1C, 0x1D, 0x1E, 0x1F, 0x1f1e1d1c);
  }

  lemma KeyWords()
    ensures |KEY| == 32
    ensures Words(KEY, 8)
      == [0x03020100, 0x07060504, 0x0b0a0908, 0x0f0e0d0c, 0x13121110, 0x17161514, 0x1b1a1918, 0x1f1e1d1c]
  {
    FirstKeyWords();
    LastKeyWords();
    hide Word;
    var w := Words(KEY, 8);
    assert w[0] == Word(KEY, 0) && w[1] == Word(KEY, 1) && w[2] == Word(KEY, 2) && w[3] == Word(KEY, 3);
    assert w[4] == Word(KEY, 4) && w[5] == Word(KEY, 5) && w[6] == Word(KEY, 6) && w[7] == Word(KEY, 7);
  }

  lemma NonceParts()
    ensures |NONCE| == 12
    ensures NONCE[0] == 0x00 && NONCE[1] == 0x00 && NONCE[2] == 0x00 && NONCE[3] == 0x09
    ensures NONCE[4] == 0x00 && NONCE[5] == 0x00 && NONCE[6] == 0x00 && NONCE[7] == 0x4A
    ensures NONCE[8] == 0x00 && NONCE[9] == 0x00 && NONCE[10] == 0x00 && NONCE[11] == 0x00
  {
  }

  lemma FirstNonceWords()
    ensures |NONCE| == 12
    ensures Word(NONCE, 0) == 0x09000000
    ensures Word(NONCE, 1) == 0x4a000000
    ensures Word(NONCE, 2) == 0x00000000
  {
    NonceParts();
    hide Word;
    WordOf(NONCE, 0, 0x00, 0x00, 0x00, 0x09, 0x09000000);
    WordOf(NONCE, 1, 0x00, 0x00, 0x00, 0x4A, 0x4a000000);
    WordOf(NONCE, 2, 0x00, 0x00, 0x00, 0x00, 0x00000000);
  }

  lemma NonceWords()
    ensures |NONCE| == 12
    ensures Words(NONCE, 3)
      == [0x09000000, 0x4a000000, 0x00000000]
  {
    FirstNonceWords();
    hide Word;
    var w := Words(NONCE, 3);
    assert w[0] == Word(NONCE, 0) && w[1] == Word(NONCE, 1) && w[2] == Word(NONCE, 2);
  }

  lemma StartState()
    ensures |KEY| == 32 && |NONCE| == 12 && Start(KEY, NONCE, 1) == STATE0
  {
    KeyWords();
    NonceWords();
    hide Words;
  }

  lemma LastState()
    ensures |STATE0| == 16 && Rounds(STATE0, 10) == STATE10
  {
    RoundsNone(STATE0);
    Step0();
    Step1();
    Step2();
    Step3();
    Step4();
    Step5();
    Step6();
    Step7();
    Step8();
    Step9();
    hide *;
  }

  lemma Step0()
    ensures |STATE0| == 16 && (Rounds(STATE0, 0) == STATE0 ==> Rounds(STATE0, 1) == STATE1)
  {
    RoundsNext(STATE0, 0);
    Double0();
    hide Rounds, ColumnRound, DiagonalRound;
  }

  lemma Step1()
    ensures |STATE0| == 16 && (Rounds(STATE0, 1) == STATE1 ==> Rounds(STATE0, 2) == STATE2)
  {
    RoundsNext(STATE0, 1);
    Double1();
    hide Rounds, ColumnRound, DiagonalRound;
  }

  lemma Step2()
    ensures |STATE0| == 16 && (Rounds(STATE0, 2) == STATE2 ==> Rounds(STATE0, 3) == STATE3)
  {
    RoundsNext(STATE0, 2);
    Double2();
    hide Rounds, ColumnRound, DiagonalRound;
  }

  lemma Step3()
    ensures |STATE0| == 16 && (Rounds(STATE0, 3) == STATE3 ==> Rounds(STATE0, 4) == STATE4)
  {
    RoundsNext(STATE0, 3);
    Double3();
    hide Rounds, ColumnRound, DiagonalRound;
  }

  lemma Step4()
    ensures |STATE0| == 16 && (Rounds(STATE0, 4) == STATE4 ==> Rounds(STATE0, 5) == STATE5)
  {
    RoundsNext(STATE0, 4);
    Double4();
    hide Rounds, ColumnRound, DiagonalRound;
  }

  lemma Step5()
    ensures |STATE0| == 16 && (Rounds(STATE0, 5) == STATE5 ==> Rounds(STATE0, 6) == STATE6)
  {
    RoundsNext(STATE0, 5);
    Double5();
    hide Rounds, ColumnRound, DiagonalRound;
  }

  lemma Step6()
    ensures |STATE0| == 16 && (Rounds(STATE0, 6) == STATE6 ==> Rounds(STATE0, 7) == STATE7)
  {
    RoundsNext(STATE0, 6);
    Double6();
    hide Rounds, ColumnRound, DiagonalRound;
  }

  lemma Step7()
    ensures |STATE0| == 16 && (Rounds(STATE0, 7) == STATE7 ==> Rounds(STATE0, 8) == STATE8)
  {
    RoundsNext(STATE0, 7);
    Double7();
    hide Rounds, ColumnRound, DiagonalRound;
  }

  lemma Step8()
    ensures |STATE0| == 16 && (Rounds(STATE0, 8) == STATE8 ==> Rounds(STATE0, 9) == STATE9)
  {
    RoundsNext(STATE0, 8);
    Double8();
    hide Rounds, ColumnRound, DiagonalRound;
  }

  lemma Step9()
    ensures |STATE0| == 16 && (Rounds(STATE0, 9) == STATE9 ==> Rounds(STATE0, 10) == STATE10)
  {
    RoundsNext(STATE0, 9);
    Double9();
    hide Rounds, ColumnRound, DiagonalRound;
  }

  lemma RoundsNone(s: seq<bv32>)
    requires State(s)
    ensures Rounds(s, 0) == s
  {
  }

  lemma RoundsNext(s: seq<bv32>, n: nat)
    requires State(s)
    ensures Rounds(s, n + 1) == DiagonalRound(ColumnRound(Rounds(s, n)))
  {
    hide DiagonalRound, ColumnRound;
  }

  lemma Sums()
    ensures |STATE10| == 16 && |STATE0| == 16 && AddStates(STATE10, STATE0) == SUM
  {
  }

  lemma SumBytes()
    ensures Serialise(SUM)
      == [0x10, 0xF1, 0xE7, 0xE4] + [0xD1, 0x3B, 0x59, 0x15] + [0x50, 0x0F, 0xDD, 0x1F] + [0xA3, 0x20, 0x71, 0xC4]
       + [0xC7, 0xD1, 0xF4, 0xC7] + [0x33, 0xC0, 0x68, 0x03] + [0x04, 0x22, 0xAA, 0x9A] + [0xC3, 0xD4, 0x6C, 0x4E]
       + [0xD2, 0x82, 0x64, 0x46] + [0x07, 0x9F, 0xAA, 0x09] + [0x14, 0xC2, 0xD7, 0x05] + [0xD9, 0x8B, 0x02, 0xA2]
       + [0xB5, 0x12, 0x9C, 0xD1] + [0xDE, 0x16, 0x4E, 0xB9] + [0xCB, 0xD0, 0x83, 0xE8] + [0xA2, 0x50, 0x3C, 0x4E]
  {
    SumWords();
    SumValues0();
    SumValues4();
    SumValues8();
    SumValues12();
    hide LeBytes, FromWord, Serialise, LE;
    var s := SUM;
    assert s[..16] == s;
    BytesOf(s, 0, 0xe4e7f110, [0x10, 0xF1, 0xE7, 0xE4]);
    BytesOf(s, 1, 0x15593bd1, [0xD1, 0x3B, 0x59, 0x15]);
    BytesOf(s, 2, 0x1fdd0f50, [0x50, 0x0F, 0xDD, 0x1F]);
    BytesOf(s, 3, 0xc47120a3, [0xA3, 0x20, 0x71, 0xC4]);
    BytesOf(s, 4, 0xc7f4d1c7, [0xC7, 0xD1, 0xF4, 0xC7]);
    BytesOf(s, 5, 0x0368c033, [0x33, 0xC0, 0x68, 0x03]);
    BytesOf(s, 6, 0x9aaa2204, [0x04, 0x22, 0xAA, 0x9A]);
    BytesOf(s, 7, 0x4e6cd4c3, [0xC3, 0xD4, 0x6C, 0x4E]);
    BytesOf(s, 8, 0x466482d2, [0xD2, 0x82, 0x64, 0x46]);
    BytesOf(s, 9, 0x09aa9f07, [0x07, 0x9F, 0xAA, 0x09]);
    BytesOf(s, 10, 0x05d7c214, [0x14, 0xC2, 0xD7, 0x05]);
    BytesOf(s, 11, 0xa2028bd9, [0xD9, 0x8B, 0x02, 0xA2]);
    BytesOf(s, 12, 0xd19c12b5, [0xB5, 0x12, 0x9C, 0xD1]);
    BytesOf(s, 13, 0xb94e16de, [0xDE, 0x16, 0x4E, 0xB9]);
    BytesOf(s, 14, 0xe883d0cb, [0xCB, 0xD0, 0x83, 0xE8]);
    BytesOf(s, 15, 0x4e3c50a2, [0xA2, 0x50, 0x3C, 0x4E]);
  }

  lemma BytesOf(s: seq<bv32>, i: nat, w: bv32, b: seq<byte>)
    requires i < |s| && |b| == 4 && s[i] == w && FromWord(w) == LE(b)
    ensures Serialise(s[..i + 1]) == Serialise(s[..i]) + b && Serialise(s[..0]) == []
  {
    hide LeBytes, FromWord, LE;
    LeBytesOfLE(b);
    assert s[..i + 1][..i] == s[..i];
  }

  lemma SumWords()
    ensures |SUM| == 16
    ensures SUM[0] == 0xe4e7f110 && SUM[1] == 0x15593bd1 && SUM[2] == 0x1fdd0f50 && SUM[3] == 0xc47120a3
    ensures SUM[4] == 0xc7f4d1c7 && SUM[5] == 0x0368c033 && SUM[6] == 0x9aaa2204 && SUM[7] == 0x4e6cd4c3
    ensures SUM[8] == 0x466482d2 && SUM[9] == 0x09aa9f07 && SUM[10] == 0x05d7c214 && SUM[11] == 0xa2028bd9
    ensures SUM[12] == 0xd19c12b5 && SUM[13] == 0xb94e16de && SUM[14] == 0xe883d0cb && SUM[15] == 0x4e3c50a2
  {
  }

  lemma SumValues0()
    ensures FromWord(0xe4e7f110) == LE([0x10, 0xF1, 0xE7, 0xE4])
    ensures FromWord(0x15593bd1) == LE([0xD1, 0x3B, 0x59, 0x15])
    ensures FromWord(0x1fdd0f50) == LE([0x50, 0x0F, 0xDD, 0x1F])
    ensures FromWord(0xc47120a3) == LE([0xA3, 0x20, 0x71, 0xC4])
  {
    LEOf4([0x10, 0xF1, 0xE7, 0xE4]);
    LEOf4([0xD1, 0x3B, 0x59, 0x15]);
    LEOf4([0x50, 0x0F, 0xDD, 0x1F]);
    LEOf4([0xA3, 0x20, 0x71, 0xC4]);
    hide LE;
  }

  lemma SumValues4()
    ensures FromWord(0xc7f4d1c7) == LE([0xC7, 0xD1, 0xF4, 0xC7])
    ensures FromWord(0x0368c033) == LE([0x33, 0xC0, 0x68, 0x03])
    ensures FromWord(0x9aaa2204) == LE([0x04, 0x22, 0xAA, 0x9A])
    ensures FromWord(0x4e6cd4c3) == LE([0xC3, 0xD4, 0x6C, 0x4E])
  {
    LEOf4([0xC7, 0xD1, 0xF4, 0xC7]);
    LEOf4([0x33, 0xC0, 0x68, 0x03]);
    LEOf4([0x04, 0x22, 0xAA, 0x9A]);
    LEOf4([0xC3, 0xD4, 0x6C, 0x4E]);
    hide LE;
  }

  lemma SumValues8()
    ensures FromWord(0x466482d2) == LE([0xD2, 0x82, 0x64, 0x46])
    ensures FromWord(0x09aa9f07) == LE([0x07, 0x9F, 0xAA, 0x09])
    ensures FromWord(0x05d7c214) == LE([0x14, 0xC2, 0xD7, 0x05])
    ensures FromWord(0xa2028bd9) == LE([0xD9, 0x8B, 0x02, 0xA2])
  {
    LEOf4([0xD2, 0x82, 0x64, 0x46]);
    LEOf4([0x07, 0x9F, 0xAA, 0x09]);
    LEOf4([0x14, 0xC2, 0xD7, 0x05]);
    LEOf4([0xD9, 0x8B, 0x02, 0xA2]);
    hide LE;
  }

  lemma SumValues12()
    ensures FromWord(0xd19c12b5) == LE([0xB5, 0x12, 0x9C, 0xD1])
    ensures FromWord(0xb94e16de) == LE([0xDE, 0x16, 0x4E, 0xB9])
    ensures FromWord(0xe883d0cb) == LE([0xCB, 0xD0, 0x83, 0xE8])
    ensures FromWord(0x4e3c50a2) == LE([0xA2, 0x50, 0x3C, 0x4E])
  {
    LEOf4([0xB5, 0x12, 0x9C, 0xD1]);
    LEOf4([0xDE, 0x16, 0x4E, 0xB9]);
    LEOf4([0xCB, 0xD0, 0x83, 0xE8]);
    LEOf4([0xA2, 0x50, 0x3C, 0x4E]);
    hide LE;
  }

  /** Section 2.3.2: it fixes the ten double rounds, the constants and the order of key, counter and nonce. */
  lemma BlockAnswer()
    ensures |KEY| == 32 && |NONCE| == 12
    ensures Block(KEY, NONCE, 1)
      == [0x10, 0xF1, 0xE7, 0xE4] + [0xD1, 0x3B, 0x59, 0x15] + [0x50, 0x0F, 0xDD, 0x1F] + [0xA3, 0x20, 0x71, 0xC4]
       + [0xC7, 0xD1, 0xF4, 0xC7] + [0x33, 0xC0, 0x68, 0x03] + [0x04, 0x22, 0xAA, 0x9A] + [0xC3, 0xD4, 0x6C, 0x4E]
       + [0xD2, 0x82, 0x64, 0x46] + [0x07, 0x9F, 0xAA, 0x09] + [0x14, 0xC2, 0xD7, 0x05] + [0xD9, 0x8B, 0x02, 0xA2]
       + [0xB5, 0x12, 0x9C, 0xD1] + [0xDE, 0x16, 0x4E, 0xB9] + [0xCB, 0xD0, 0x83, 0xE8] + [0xA2, 0x50, 0x3C, 0x4E]
  {
    hide Serialise, AddStates, Rounds, Start;
    StartState();
    LastState();
    Sums();
    SumBytes();
  }
}
