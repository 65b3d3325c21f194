/** Unsigned machine words as bounded integers, and the C bitwise operators on them.

    A left shift is a multiplication by a power of two (reduced modulo the word width where C
    drops bits) and a right shift is a division, so only `&`, `|` and `^` need definitions; they
    are defined bit by bit on all natural numbers.  BitAt gives them their independent meaning. */
module Bits {
  type byte = x: int | 0 <= x < 0x100
  type u32 = x: int | 0 <= x < 0x1_0000_0000
  type u64 = x: int | 0 <= x < 0x1_0000_0000_0000_0000

  function Pow2(n: nat): (p: nat)
    ensures 1 <= p
  {
    if n == 0 then 1 else 2 * Pow2(n - 1)
  }

  /** The shift distances of the sources, as numbers. */
  lemma Pow2Table()
    ensures Pow2(2) == 4 && Pow2(4) == 0x10 && Pow2(6) == 0x40 && Pow2(8) == 0x100
    ensures Pow2(10) == 0x400 && Pow2(12) == 0x1000 && Pow2(14) == 0x4000 && Pow2(16) == 0x1_0000
    ensures Pow2(18) == 0x4_0000 && Pow2(20) == 0x10_0000 && Pow2(22) == 0x40_0000 && Pow2(24) == 0x100_0000
    ensures Pow2(26) == 0x400_0000 && Pow2(32) == 0x1_0000_0000
  {
    assert Pow2(2) == 4 && Pow2(4) == 0x10 && Pow2(6) == 0x40 && Pow2(8) == 0x100;
    Pow2Add(8, 2); Pow2Add(8, 4); Pow2Add(8, 6); Pow2Add(8, 8);
    Pow2Add(16, 2); Pow2Add(16, 4); Pow2Add(16, 6); Pow2Add(16, 8); Pow2Add(16, 10); Pow2Add(16, 16);
  }

  lemma Pow2Large()
    ensures Pow2(64) == 0x1_0000_0000_0000_0000
    ensures Pow2(128) == 0x1_00000000_00000000_00000000_00000000
  {
    Pow2Table();
    Pow2Add(32, 32);
    Pow2Add(64, 64);
  }

  function And(x: nat, y: nat): (r: nat)
    ensures r <= x && r <= y
  {
    if x == 0 || y == 0 then 0
    else 2 * And(x / 2, y / 2) + (if x % 2 == 1 && y % 2 == 1 then 1 else 0)
  }

  function Or(x: nat, y: nat): (r: nat)
    ensures x <= r && y <= r <= x + y
    decreases x + y
  {
    if x == 0 then y else if y == 0 then x
    else 2 * Or(x / 2, y / 2) + (if x % 2 == 1 || y % 2 == 1 then 1 else 0)
  }

  function Xor(x: nat, y: nat): (r: nat)
    ensures r <= x + y
    decreases x + y
  {
    if x == 0 then y else if y == 0 then x
    else 2 * Xor(x / 2, y / 2) + (if x % 2 != y % 2 then 1 else 0)
  }

  /** Bit i of x, counted from the least significant one. */
  predicate BitAt(x: nat, i: nat) {
    if i == 0 then x % 2 == 1 else BitAt(x / 2, i - 1)
  }

  // ---------- what the operators mean, bit by bit

  lemma {:induction false} AndBit(x: nat, y: nat, i: nat)
    ensures BitAt(And(x, y), i) == (BitAt(x, i) && BitAt(y, i))
    decreases i
  {
    hide And;
    AndHalves(x, y);
    if i == 0 {
    } else {
      AndBit(x / 2, y / 2, i - 1);
    }
  }

  lemma {:induction false} OrBit(x: nat, y: nat, i: nat)
    ensures BitAt(Or(x, y), i) == (BitAt(x, i) || BitAt(y, i))
    decreases i
  {
    hide Or;
    OrHalves(x, y);
    if i == 0 {
    } else {
      OrBit(x / 2, y / 2, i - 1);
    }
  }

  lemma OrHalves(x: nat, y: nat)
    ensures Or(x, y) / 2 == Or(x / 2, y / 2)
    ensures Or(x, y) % 2 == (if x % 2 == 1 || y % 2 == 1 then 1 else 0)
  {
  }

  lemma {:induction false} XorBit(x: nat, y: nat, i: nat)
    ensures BitAt(Xor(x, y), i) == (BitAt(x, i) != BitAt(y, i))
    decreases i
  {
    hide Xor;
    XorHalves(x, y);
    if i == 0 {
    } else {
      XorBit(x / 2, y / 2, i - 1);
    }
  }

  /** A number is determined by its bits. */
  lemma {:induction false} SameBits(x: nat, y: nat)
    requires forall i: nat :: BitAt(x, i) == BitAt(y, i)
    ensures x == y
    decreases x + y
  {
    if x == 0 && y == 0 {
    } else {
      forall i: nat ensures BitAt(x / 2, i) == BitAt(y / 2, i) {
        assert BitAt(x, i + 1) == BitAt(y, i + 1);
      }
      assert BitAt(x, 0) == BitAt(y, 0);
      SameBits(x / 2, y / 2);
    }
  }

  // ---------- exclusive or is a group operation

  lemma {:induction false} XorStep(x: nat, y: nat)
    ensures Xor(x, y) == 2 * Xor(x / 2, y / 2) + (if x % 2 != y % 2 then 1 else 0)
  {
  }

  lemma XorHalves(x: nat, y: nat)
    ensures Xor(x, y) / 2 == Xor(x / 2, y / 2)
    ensures Xor(x, y) % 2 == (if x % 2 != y % 2 then 1 else 0)
  {
    XorStep(x, y);
  }

  lemma {:induction false} AndStep(x: nat, y: nat)
    ensures And(x, y) == 2 * And(x / 2, y / 2) + (if x % 2 == 1 && y % 2 == 1 then 1 else 0)
  {
  }

  lemma AndHalves(x: nat, y: nat)
    ensures And(x, y) / 2 == And(x / 2, y / 2)
    ensures And(x, y) % 2 == (if x % 2 == 1 && y % 2 == 1 then 1 else 0)
  {
    AndStep(x, y);
  }

  lemma {:induction false} XorComm(x: nat, y: nat)
    ensures Xor(x, y) == Xor(y, x)
    decreases x
  {
    if x == 0 || y == 0 {
    } else {
      XorComm(x / 2, y / 2);
    }
  }

  lemma {:induction false} XorSelf(x: nat)
    ensures Xor(x, x) == 0
  {
    if x == 0 {
    } else {
      XorSelf(x / 2);
    }
  }

  lemma {:induction false} XorAssoc(x: nat, y: nat, z: nat)
    ensures Xor(Xor(x, y), z) == Xor(x, Xor(y, z))
    decreases x + y + z
  {
    if x == 0 || y == 0 || z == 0 {
    } else {
      XorAssoc(x / 2, y / 2, z / 2);
      XorHalves(x, y);
      XorHalves(y, z);
      XorHalves(Xor(x, y), z);
      XorHalves(x, Xor(y, z));
    }
  }

  /** XORing twice with the same mask restores the value. */
  lemma XorCancel(x: nat, y: nat)
    ensures Xor(Xor(x, y), y) == x
    ensures Xor(y, Xor(y, x)) == x
  {
    XorAssoc(x, y, y);
    XorAssoc(y, y, x);
    XorSelf(y);
  }

  lemma XorSwap(a: nat, b: nat, c: nat, d: nat)
    ensures Xor(Xor(a, b), Xor(c, d)) == Xor(Xor(a, c), Xor(b, d))
  {
    XorAssoc(a, b, Xor(c, d));
    XorAssoc(b, c, d);
    XorComm(b, c);
    XorAssoc(c, b, d);
    XorAssoc(a, c, Xor(b, d));
  }

  // ---------- ranges and bit fields

  lemma {:induction false} Pow2Add(m: nat, n: nat)
    ensures Pow2(m + n) == Pow2(m) * Pow2(n)
  {
    if m == 0 {
    } else {
      Pow2Add(m - 1, n);
      DoubleMul(Pow2(m - 1), Pow2(n));
    }
  }

  lemma DoubleMul(a: nat, b: nat)
    ensures 2 * (a * b) == (2 * a) * b
  {
  }

  lemma {:induction false} XorBound(x: nat, y: nat, n: nat)
    requires x < Pow2(n) && y < Pow2(n)
    ensures Xor(x, y) < Pow2(n)
    decreases n
  {
    if n == 0 || x == 0 || y == 0 {
    } else {
      XorBound(x / 2, y / 2, n - 1);
    }
  }

  /** A low field a of n bits below a high field b. */
  function Join(a: nat, b: nat, n: nat): nat
    decreases n
  {
    if n == 0 then b else 2 * Join(a / 2, b, n - 1) + a % 2
  }

  lemma {:induction false} JoinIsSum(a: nat, b: nat, n: nat)
    requires a < Pow2(n)
    ensures Join(a, b, n) == a + b * Pow2(n)
    decreases n
  {
    if n == 0 {
    } else {
      JoinIsSum(a / 2, b, n - 1);
      MulRegroup(b, Pow2(n - 1));
    }
  }

  /** The bits of two adjacent fields: b is the field above the n low bits; p is its place. */
  lemma BitOfSum(a: nat, b: nat, n: nat, p: nat, i: nat)
    requires p == Pow2(n) && a < p
    ensures BitAt(a + b * p, i) == if i < n then BitAt(a, i) else BitAt(b, i - n)
  {
    hide Join, BitAt, Pow2;
    JoinIsSum(a, b, n);
    BitOfJoin(a, b, n, i);
  }

  lemma {:induction false} BitOfJoin(a: nat, b: nat, n: nat, i: nat)
    ensures BitAt(Join(a, b, n), i) == if i < n then BitAt(a, i) else BitAt(b, i - n)
    decreases n
  {
    if n == 0 {
    } else {
      JoinHalves(a, b, n);
      hide Join;
      if i > 0 {
        BitOfJoin(a / 2, b, n - 1, i - 1);
      }
    }
  }

  lemma {:induction false} BitOfOnes(n: nat, i: nat)
    ensures BitAt(Pow2(n) - 1, i) <==> i < n
  {
    if n == 0 {
      BitOfZero(i);
    } else if i > 0 {
      BitOfOnes(n - 1, i - 1);
      assert (Pow2(n) - 1) / 2 == Pow2(n - 1) - 1;
    }
  }

  lemma {:induction false} BitOfZero(i: nat)
    ensures !BitAt(0, i)
  {
    if i > 0 {
      BitOfZero(i - 1);
    }
  }

  lemma MulRegroup(b: nat, p: nat)
    ensures b * (2 * p) == 2 * (b * p)
  {
  }

  lemma JoinHalves(a: nat, b: nat, n: nat)
    requires n != 0
    ensures Join(a, b, n) / 2 == Join(a / 2, b, n - 1) && Join(a, b, n) % 2 == a % 2
  {
  }

  lemma SameHalves(x: nat, y: nat)
    requires x / 2 == y / 2 && x % 2 == y % 2
    ensures x == y
  {
  }

  /** The operators act on two adjacent bit fields separately. */
  lemma {:induction false} XorFields(a: nat, c: nat, b: nat, d: nat, n: nat)
    requires a < Pow2(n) && c < Pow2(n)
    ensures Xor(Join(a, b, n), Join(c, d, n)) == Join(Xor(a, c), Xor(b, d), n)
    decreases n
  {
    if n == 0 {
    } else {
      XorFields(a / 2, c / 2, b, d, n - 1);
      hide Xor, Join;
      JoinHalves(a, b, n);
      JoinHalves(c, d, n);
      JoinHalves(Xor(a, c), Xor(b, d), n);
      XorHalves(a, c);
      XorHalves(Join(a, b, n), Join(c, d, n));
      SameHalves(Xor(Join(a, b, n), Join(c, d, n)), Join(Xor(a, c), Xor(b, d), n));
    }
  }

  lemma {:induction false} AndFields(a: nat, c: nat, b: nat, d: nat, n: nat)
    requires a < Pow2(n) && c < Pow2(n)
    ensures And(Join(a, b, n), Join(c, d, n)) == Join(And(a, c), And(b, d), n)
    decreases n
  {
    if n == 0 {
    } else {
      AndFields(a / 2, c / 2, b, d, n - 1);
      hide And, Join;
      JoinHalves(a, b, n);
      JoinHalves(c, d, n);
      JoinHalves(And(a, c), And(b, d), n);
      AndHalves(a, c);
      AndHalves(Join(a, b, n), Join(c, d, n));
      SameHalves(And(Join(a, b, n), Join(c, d, n)), Join(And(a, c), And(b, d), n));
    }
  }

  /** The same on sums: p is the position of the high fields. */
  lemma AndOfSums(a: nat, c: nat, b: nat, d: nat, n: nat, p: nat)
    requires p == Pow2(n) && a < p && c < p
    ensures And(a + b * p, c + d * p) == And(a, c) + And(b, d) * p
  {
    AndFields(a, c, b, d, n);
    JoinIsSum(a, b, n);
    JoinIsSum(c, d, n);
    JoinIsSum(And(a, c), And(b, d), n);
  }

  lemma XorOfSums(a: nat, c: nat, b: nat, d: nat, n: nat, p: nat)
    requires p == Pow2(n) && a < p && c < p
    ensures Xor(a + b * p, c + d * p) == Xor(a, c) + Xor(b, d) * p
  {
    XorFields(a, c, b, d, n);
    JoinIsSum(a, b, n);
    JoinIsSum(c, d, n);
    XorBound(a, c, n);
    JoinIsSum(Xor(a, c), Xor(b, d), n);
  }

  /** `x & (2^n - 1)` keeps the low n bits. */
  lemma {:induction false} AndLowMask(x: nat, n: nat)
    ensures And(x, Pow2(n) - 1) == x % Pow2(n)
    decreases n
  {
    assert And(x, 0) == 0 && x % 1 == 0;
    hide And;
    if n == 0 {
    } else {
      AndLowMask(x / 2, n - 1);
      LowMaskStep(x, Pow2(n - 1), Pow2(n));
    }
  }

  lemma LowMaskStep(x: nat, p: nat, q: nat)
    requires 1 <= p && q == 2 * p && And(x / 2, p - 1) == x / 2 % p
    ensures And(x, q - 1) == x % q
  {
    hide *;
    var mask := q - 1;
    assert mask / 2 == p - 1 && mask % 2 == 1;
    ModHalf(x, p);
    AndStep(x, mask);
  }

  lemma ModHalf(x: nat, p: nat)
    requires 1 <= p
    ensures x % (2 * p) == 2 * (x / 2 % p) + x % 2
  {
    var q := x / 2 / p;
    var r := x / 2 % p;
    assert x / 2 == p * q + r;
    assert x == (2 * p) * q + (2 * r + x % 2);
    ModUnique(x, 2 * p, q, 2 * r + x % 2);
  }

  lemma MulMono(m: nat, a: int, b: int)
    requires a <= b
    ensures m * a <= m * b
  {
  }

  lemma ModUnique(x: int, m: int, q: int, r: int)
    requires 0 < m && x == m * q + r && 0 <= r < m
    ensures x % m == r && x / m == q
  {
    var k := x / m - q;
    assert m * k == r - x % m;
    if k >= 1 {
      MulMono(m, 1, k);
      assert false;
    } else if k <= -1 {
      MulMono(m, k, -1);
      assert false;
    }
  }

  lemma DifferentMod(x: nat, y: nat, m: nat)
    requires x < y < x + m
    ensures x % m != y % m
  {
    if x % m == y % m {
      var k := y / m - x / m;
      assert y - x == m * k;
      if k >= 1 { MulMono(m, 1, k); } else { MulMono(m, k, 0); }
    }
  }

  /** ORing two numbers that share no bit position adds them. */
  lemma OrDisjoint(a: nat, x: nat, n: nat, p: nat)
    requires p == Pow2(n) && a < p && x % p == 0
    ensures Or(a, x) == a + x == Or(x, a)
  {
    hide Or, Join, Pow2;
    OrComm(a, x);
    var b := x / p;
    assert x == b * p;
    JoinIsSum(a, b, n);
    JoinIsSum(0, b, n);
    OrJoin(a, b, n);
  }

  lemma {:induction false} OrComm(x: nat, y: nat)
    ensures Or(x, y) == Or(y, x)
    decreases x
  {
    if x == 0 || y == 0 {
    } else {
      OrComm(x / 2, y / 2);
    }
  }

  lemma {:induction false} OrJoin(a: nat, b: nat, n: nat)
    requires a < Pow2(n)
    ensures Or(a, Join(0, b, n)) == Join(a, b, n)
    decreases n
  {
    if n == 0 {
    } else {
      OrJoin(a / 2, b, n - 1);
    }
  }

  /** Four disjoint fields ORed together, lowest first; p, q and s are the places of the last three. */
  lemma OrFour(a: nat, x: nat, y: nat, z: nat, i: nat, j: nat, k: nat, p: nat, q: nat, s: nat)
    requires p == Pow2(i) && q == Pow2(j) && s == Pow2(k)
    requires a < p && x % p == 0 && a + x < q && y % q == 0 && a + x + y < s && z % s == 0
    ensures Or(Or(Or(a, x), y), z) == a + x + y + z
  {
    hide Or, Pow2;
    OrDisjoint(a, x, i, p);
    OrDisjoint(Or(a, x), y, j, q);
    OrDisjoint(Or(Or(a, x), y), z, k, s);
  }
}
