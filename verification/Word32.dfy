/** The 32-bit words of C: addition wraps, and bit i of a word is the one that a right shift by i brings down. */
module Word32 {
  import opened Bits

  function ToWord(n: u32): bv32 {
    n as bv32
  }

  function FromWord(w: bv32): u32 {
    w as int
  }

  function Add32(x: bv32, y: bv32): bv32 {
    x + y
  }

  function Xor32(x: bv32, y: bv32): bv32 {
    x ^ y
  }

  function And32(x: bv32, y: bv32): bv32 {
    x & y
  }

  function Not32(x: bv32): bv32 {
    !x
  }

  function Shr(x: bv32, n: bv32): bv32
    requires n <= 32
  {
    x >> n
  }

  function Rotr(x: bv32, n: bv32): bv32
    requires n <= 32
  {
    (x >> n) | (x << (32 - n))
  }

  function Rotl(x: bv32, n: bv32): bv32
    requires n <= 32
  {
    (x << n) | (x >> (32 - n))
  }

  /** Turning left and then turning on restores the word. */
  lemma RotlBack(x: bv32, n: bv32)
    requires n <= 32
    ensures Rotl(Rotl(x, n), 32 - n) == x
  {
  }

  function Sub32(x: bv32, y: bv32): bv32 {
    x - y
  }

  predicate Bit(x: bv32, i: bv32)
    requires i < 32
  {
    (x >> i) & 1 == 1
  }

  // ---------- bit by bit

  /** A mask with a single bit. */
  predicate Single(m: bv32) {
    || m == 0x1 || m == 0x2 || m == 0x4 || m == 0x8 || m == 0x10 || m == 0x20 || m == 0x40 || m == 0x80
    || m == 0x100 || m == 0x200 || m == 0x400 || m == 0x800 || m == 0x1000 || m == 0x2000 || m == 0x4000 || m == 0x8000
    || m == 0x1_0000 || m == 0x2_0000 || m == 0x4_0000 || m == 0x8_0000 || m == 0x10_0000 || m == 0x20_0000
    || m == 0x40_0000 || m == 0x80_0000 || m == 0x100_0000 || m == 0x200_0000 || m == 0x400_0000 || m == 0x800_0000
    || m == 0x1000_0000 || m == 0x2000_0000 || m == 0x4000_0000 || m == 0x8000_0000
  }

  predicate On(x: bv32, m: bv32) {
    x & m != 0
  }

  lemma MaskOf(x: bv32, i: bv32)
    requires i < 32
    ensures Single((1 as bv32) << i) && Bit(x, i) == On(x, (1 as bv32) << i)
  {
  }

  lemma AndOn(x: bv32, y: bv32, m: bv32)
    requires Single(m)
    ensures On(x & y, m) == (On(x, m) && On(y, m))
  {
  }

  lemma XorOn(x: bv32, y: bv32, m: bv32)
    requires Single(m)
    ensures On(x ^ y, m) == (On(x, m) != On(y, m))
  {
  }

  lemma NotOn(x: bv32, m: bv32)
    requires Single(m)
    ensures On(!x, m) == !On(x, m)
  {
  }

  lemma RawBitOfAnd(x: bv32, y: bv32, i: bv32)
    requires i < 32
    ensures Bit(x & y, i) == (Bit(x, i) && Bit(y, i))
  {
    hide *;
    MaskOf(x, i);
    MaskOf(y, i);
    MaskOf(x & y, i);
    AndOn(x, y, (1 as bv32) << i);
  }

  lemma BitOfAnd(x: bv32, y: bv32, i: bv32)
    requires i < 32
    ensures Bit(And32(x, y), i) == (Bit(x, i) && Bit(y, i))
  {
    RawBitOfAnd(x, y, i);
    hide Bit;
  }

  lemma RawBitOfXor(x: bv32, y: bv32, i: bv32)
    requires i < 32
    ensures Bit(x ^ y, i) == (Bit(x, i) != Bit(y, i))
  {
    hide *;
    MaskOf(x, i);
    MaskOf(y, i);
    MaskOf(x ^ y, i);
    XorOn(x, y, (1 as bv32) << i);
  }

  lemma BitOfXor(x: bv32, y: bv32, i: bv32)
    requires i < 32
    ensures Bit(Xor32(x, y), i) == (Bit(x, i) != Bit(y, i))
  {
    RawBitOfXor(x, y, i);
    hide Bit;
  }

  lemma RawBitOfNot(x: bv32, i: bv32)
    requires i < 32
    ensures Bit(!x, i) == !Bit(x, i)
  {
    hide *;
    MaskOf(x, i);
    MaskOf(!x, i);
    NotOn(x, (1 as bv32) << i);
  }

  lemma BitOfNot(x: bv32, i: bv32)
    requires i < 32
    ensures Bit(Not32(x), i) == !Bit(x, i)
  {
    RawBitOfNot(x, i);
    hide Bit;
  }

  lemma BitOfRotr(x: bv32, n: bv32, i: bv32)
    requires i < 32 && n < 32
    ensures Bit(Rotr(x, n), i) == Bit(x, (i + n) & 31)
  {
    if i < 16 {
      BitOfRotrLow(x, n, i);
    } else {
      BitOfRotrHigh(x, n, i);
    }
  }

  lemma BitOfRotrLow(x: bv32, n: bv32, i: bv32)
    requires i < 16 && n < 32
    ensures Bit(Rotr(x, n), i) == Bit(x, (i + n) & 31)
  {
    match i
    case 0 => case 1 => case 2 => case 3 => case 4 => case 5 => case 6 => case 7 =>
    case 8 => case 9 => case 10 => case 11 => case 12 => case 13 => case 14 => case _ =>
  }

  lemma BitOfRotrHigh(x: bv32, n: bv32, i: bv32)
    requires 16 <= i < 32 && n < 32
    ensures Bit(Rotr(x, n), i) == Bit(x, (i + n) & 31)
  {
    match i
    case 16 => case 17 => case 18 => case 19 => case 20 => case 21 => case 22 => case 23 =>
    case 24 => case 25 => case 26 => case 27 => case 28 => case 29 => case 30 => case _ =>
  }

  lemma BitOfShr(x: bv32, n: bv32, i: bv32)
    requires i < 32 && n < 32
    ensures Bit(Shr(x, n), i) == (i + n < 32 && Bit(x, i + n))
  {
    if i < 16 {
      BitOfShrLow(x, n, i);
    } else {
      BitOfShrHigh(x, n, i);
    }
  }

  lemma BitOfShrLow(x: bv32, n: bv32, i: bv32)
    requires i < 16 && n < 32
    ensures Bit(Shr(x, n), i) == (i + n < 32 && Bit(x, i + n))
  {
    match i
    case 0 => case 1 => case 2 => case 3 => case 4 => case 5 => case 6 => case 7 =>
    case 8 => case 9 => case 10 => case 11 => case 12 => case 13 => case 14 => case _ =>
  }

  lemma BitOfShrHigh(x: bv32, n: bv32, i: bv32)
    requires 16 <= i < 32 && n < 32
    ensures Bit(Shr(x, n), i) == (i + n < 32 && Bit(x, i + n))
  {
    match i
    case 16 => case 17 => case 18 => case 19 => case 20 => case 21 => case 22 => case 23 =>
    case 24 => case 25 => case 26 => case 27 => case 28 => case 29 => case 30 => case _ =>
  }

  /** Turning left takes bit i to the place i + n. */
  lemma BitOfRotl(x: bv32, n: bv32, i: bv32)
    requires i < 32 && 0 < n < 32
    ensures Bit(Rotl(x, n), (i + n) & 31) == Bit(x, i)
  {
    assert Rotl(x, n) == Rotr(x, 32 - n);
    assert (((i + n) & 31) + (32 - n)) & 31 == i;
    hide Bit, Rotl, Rotr;
    BitOfRotr(x, 32 - n, (i + n) & 31);
  }
}
