/** Polynomials over GF(2), as natural numbers whose bit i is the coefficient of x^i, and
    multiplication modulo a polynomial p of degree n: the fields of AES (n = 8) and GCM (n = 128). */
module Gf2 {
  import opened Bits

  /** Product of polynomials: schoolbook multiplication without carries. */
  function ClMul(a: nat, b: nat): nat {
    if a == 0 then 0 else Xor(if a % 2 == 1 then b else 0, 2 * ClMul(a / 2, b))
  }

  predicate Modulus(p: nat, n: nat) {
    n != 0 && Pow2(n) <= p < 2 * Pow2(n)
  }

  /** The remainder of x * r + bit, for a remainder r. */
  function Step(r: nat, bit: nat, p: nat, n: nat): (s: nat)
    requires Modulus(p, n) && r < Pow2(n) && bit < 2
    ensures s < Pow2(n)
  {
    var t := 2 * r + bit;
    if t < Pow2(n) then t else
      TopBits(t, p, n);
      Xor(t, p)
  }

  /** Remainder of long division by p. */
  function Rem(a: nat, p: nat, n: nat): (r: nat)
    requires Modulus(p, n)
    ensures r < Pow2(n)
    decreases a
  {
    if a == 0 then 0 else Step(Rem(a / 2, p, n), a % 2, p, n)
  }

  function Quot(a: nat, p: nat, n: nat): nat
    requires Modulus(p, n)
    decreases a
  {
    if a == 0 then 0
    else 2 * Quot(a / 2, p, n) + (if 2 * Rem(a / 2, p, n) + a % 2 < Pow2(n) then 0 else 1)
  }

  /** Multiplication in GF(2)[x] / p. */
  function Mul(a: nat, b: nat, p: nat, n: nat): (c: nat)
    requires Modulus(p, n)
    ensures c < Pow2(n)
  {
    Rem(ClMul(a, b), p, n)
  }

  /** Of two numbers of n + 1 bits, XOR keeps the top bit when exactly one has it. */
  lemma {:induction false} TopBits(x: nat, y: nat, n: nat)
    requires x < 2 * Pow2(n) && y < 2 * Pow2(n)
    ensures Xor(x, y) < 2 * Pow2(n)
    ensures (Xor(x, y) >= Pow2(n)) == ((x >= Pow2(n)) != (y >= Pow2(n)))
    decreases n
  {
    if n == 0 {
    } else {
      TopBits(x / 2, y / 2, n - 1);
      XorHalves(x, y);
    }
  }

  // ---------- the ring of polynomials

  lemma {:induction false} ClMulZero(a: nat)
    ensures ClMul(a, 0) == 0
  {
    if a == 0 {
    } else {
      ClMulZero(a / 2);
    }
  }

  lemma XorDouble(a: nat, b: nat)
    ensures Xor(2 * a, 2 * b) == 2 * Xor(a, b)
  {
    hide Xor;
    var x, y := 2 * a, 2 * b;
    assert x / 2 == a && y / 2 == b && x % 2 == 0 && y % 2 == 0;
    XorHalves(x, y);
  }

  lemma ClMulStep(a: nat, b: nat)
    ensures ClMul(a, b) == Xor(if a % 2 == 1 then b else 0, 2 * ClMul(a / 2, b))
  {
  }

  lemma ClMulTwice(a: nat, b: nat)
    ensures ClMul(2 * a, b) == 2 * ClMul(a, b)
  {
    ClMulStep(2 * a, b);
  }

  lemma {:induction false} ClMulDouble(a: nat, b: nat)
    ensures ClMul(a, 2 * b) == 2 * ClMul(a, b)
  {
    if a == 0 {
    } else {
      ClMulDouble(a / 2, b);
      XorDouble(if a % 2 == 1 then b else 0, 2 * ClMul(a / 2, b));
    }
  }

  lemma {:induction false} ClMulXor(a: nat, b: nat, c: nat)
    ensures ClMul(a, Xor(b, c)) == Xor(ClMul(a, b), ClMul(a, c))
  {
    if a == 0 {
    } else {
      hide Xor;
      var b', c' := ClMul(a / 2, b), ClMul(a / 2, c);
      ClMulXor(a / 2, b, c);
      XorDouble(b', c');
      if a % 2 == 1 {
        XorSwap(b, 2 * b', c, 2 * c');
      } else {
        XorZero(2 * b'); XorZero(2 * c'); XorZero(2 * Xor(b', c'));
      }
    }
  }

  lemma XorZero(x: nat)
    ensures Xor(0, x) == x && Xor(x, 0) == x
  {
  }

  lemma {:induction false} ClMulComm(a: nat, b: nat)
    ensures ClMul(a, b) == ClMul(b, a)
    decreases a
  {
    if a == 0 {
      ClMulZero(b);
    } else {
      hide Xor;
      var low := a % 2;
      ClMulComm(a / 2, b);
      ClMulDouble(b, a / 2);
      LowBit(a);
      ClMulXor(b, low, 2 * (a / 2));
      if low == 1 { ClMulOne(b); } else { ClMulZero(b); }
    }
  }

  lemma LowBit(a: nat)
    ensures Xor(a % 2, 2 * (a / 2)) == a
  {
    XorHalves(a % 2, 2 * (a / 2));
    SameHalves(Xor(a % 2, 2 * (a / 2)), a);
  }

  lemma {:induction false} ClMulOne(b: nat)
    ensures ClMul(b, 1) == b
    ensures ClMul(1, b) == b
  {
    if b == 0 {
    } else {
      ClMulOne(b / 2);
      LowBit(b);
    }
  }

  lemma ClMulXorLeft(a: nat, b: nat, c: nat)
    ensures ClMul(Xor(a, b), c) == Xor(ClMul(a, c), ClMul(b, c))
  {
    ClMulComm(Xor(a, b), c);
    ClMulComm(a, c);
    ClMulComm(b, c);
    ClMulXor(c, a, b);
  }

  lemma {:induction false} ClMulAssoc(a: nat, b: nat, c: nat)
    ensures ClMul(ClMul(a, b), c) == ClMul(a, ClMul(b, c))
    decreases a
  {
    if a == 0 {
    } else {
      hide Xor;
      var x := ClMul(a / 2, b);
      ClMulAssoc(a / 2, b, c);
      ClMulTwice(x, c);
      ClMulXorLeft(if a % 2 == 1 then b else 0, 2 * x, c);
    }
  }

  // ---------- remainders

  lemma {:induction false} RemSmall(a: nat, p: nat, n: nat)
    requires Modulus(p, n) && a < Pow2(n)
    ensures Rem(a, p, n) == a
    decreases a
  {
    if a == 0 {
    } else {
      RemSmall(a / 2, p, n);
    }
  }

  lemma StepXor(r: nat, i: nat, s: nat, j: nat, p: nat, n: nat)
    requires Modulus(p, n) && r < Pow2(n) && s < Pow2(n) && i < 2 && j < 2
    ensures Xor(r, s) < Pow2(n)
    ensures Step(Xor(r, s), if i != j then 1 else 0, p, n) == Xor(Step(r, i, p, n), Step(s, j, p, n))
  {
    hide *;
    XorBound(r, s, n);
    var t, u, k := 2 * r + i, 2 * s + j, if i != j then 1 else 0;
    XorDoubled(r, i, s, j);
    StepIs(r, i, t, p, n);
    StepIs(s, j, u, p, n);
    StepIs(Xor(r, s), k, Xor(t, u), p, n);
    ReducedXor(t, u, p, n);
  }

  function Reduced(t: nat, p: nat, n: nat): nat {
    if t < Pow2(n) then t else Xor(t, p)
  }

  lemma ReducedXor(t: nat, u: nat, p: nat, n: nat)
    requires t < 2 * Pow2(n) && u < 2 * Pow2(n)
    ensures Reduced(Xor(t, u), p, n) == Xor(Reduced(t, p, n), Reduced(u, p, n))
  {
    hide Xor, Pow2;
    TopBits(t, u, n);
    SubtractOnce(t, u, p, Pow2(n));
  }

  lemma StepIs(r: nat, i: nat, t: nat, p: nat, n: nat)
    requires Modulus(p, n) && r < Pow2(n) && i < 2 && t == 2 * r + i
    ensures Step(r, i, p, n) == Reduced(t, p, n)
  {
    hide Xor, Pow2;
  }

  /** A common multiple of p subtracted where the top bit is set, before or after adding. */
  lemma SubtractOnce(t: nat, u: nat, p: nat, q: nat)
    requires (Xor(t, u) >= q) == ((t >= q) != (u >= q))
    ensures (if Xor(t, u) < q then Xor(t, u) else Xor(Xor(t, u), p))
         == Xor(if t < q then t else Xor(t, p), if u < q then u else Xor(u, p))
  {
    hide Xor;
    CancelModulus(t, u, p);
    if t < q && u < q {
      assert Xor(t, u) < q;
    } else if t < q {
      assert Xor(t, u) >= q;
    } else if u < q {
      assert Xor(t, u) >= q;
    } else {
      assert Xor(t, u) < q;
    }
  }

  lemma XorDoubled(r: nat, i: nat, s: nat, j: nat)
    requires i < 2 && j < 2
    ensures Xor(2 * r + i, 2 * s + j) == 2 * Xor(r, s) + (if i != j then 1 else 0)
  {
    hide Xor;
    var t, u := 2 * r + i, 2 * s + j;
    assert t / 2 == r && t % 2 == i && u / 2 == s && u % 2 == j;
    XorHalves(t, u);
  }

  /** Where p is subtracted from one operand or from both. */
  lemma CancelModulus(t: nat, u: nat, p: nat)
    ensures Xor(Xor(t, p), u) == Xor(Xor(t, u), p)
    ensures Xor(t, Xor(u, p)) == Xor(Xor(t, u), p)
    ensures Xor(Xor(t, p), Xor(u, p)) == Xor(t, u)
  {
    hide Xor;
    XorAssoc(t, u, p);
    XorAssoc(t, p, u);
    XorComm(p, u);
    XorSwap(t, p, u, p);
    XorSelf(p);
    XorZero(Xor(t, u));
  }

  lemma {:induction false} RemXor(a: nat, b: nat, p: nat, n: nat)
    requires Modulus(p, n)
    ensures Rem(Xor(a, b), p, n) == Xor(Rem(a, p, n), Rem(b, p, n))
    decreases a + b
  {
    if a == 0 || b == 0 {
    } else {
      RemXor(a / 2, b / 2, p, n);
      XorHalves(a, b);
      StepXor(Rem(a / 2, p, n), a % 2, Rem(b / 2, p, n), b % 2, p, n);
      RemStep(Xor(a, b), p, n);
    }
  }

  lemma RemStep(a: nat, p: nat, n: nat)
    requires Modulus(p, n)
    ensures Rem(a, p, n) == Step(Rem(a / 2, p, n), a % 2, p, n)
  {
  }

  /** Multiplying by x and reducing. */
  lemma RemDouble(a: nat, p: nat, n: nat)
    requires Modulus(p, n)
    ensures Rem(2 * a, p, n) == Step(Rem(a, p, n), 0, p, n)
  {
    hide Rem, Step;
    RemStep(2 * a, p, n);
    assert 2 * a / 2 == a && 2 * a % 2 == 0;
  }

  /** A factor may be reduced before multiplying. */
  lemma {:induction false} RemMul(a: nat, b: nat, p: nat, n: nat)
    requires Modulus(p, n)
    ensures Rem(ClMul(a, Rem(b, p, n)), p, n) == Rem(ClMul(a, b), p, n)
    decreases a
  {
    if a == 0 {
    } else {
      hide Xor, Step;
      var r := Rem(b, p, n);
      RemSmall(r, p, n);
      RemMul(a / 2, b, p, n);
      RemDouble(ClMul(a / 2, b), p, n);
      RemDouble(ClMul(a / 2, r), p, n);
      RemXor(if a % 2 == 1 then b else 0, 2 * ClMul(a / 2, b), p, n);
      RemXor(if a % 2 == 1 then r else 0, 2 * ClMul(a / 2, r), p, n);
    }
  }

  /** Rem is the remainder: it differs from its argument by a multiple of p, ... */
  lemma {:induction false} RemDivides(a: nat, p: nat, n: nat)
    requires Modulus(p, n)
    ensures a == Xor(ClMul(Quot(a, p, n), p), Rem(a, p, n))
    decreases a
  {
    if a == 0 {
    } else {
      QuotStep(a, p, n);
      RemStep(a, p, n);
      hide *;
      var q, r := Quot(a / 2, p, n), Rem(a / 2, p, n);
      RemDivides(a / 2, p, n);
      RemDividesStep(a, q, r, p, n);
    }
  }

  lemma QuotStep(a: nat, p: nat, n: nat)
    requires Modulus(p, n) && a != 0
    ensures Quot(a, p, n) == 2 * Quot(a / 2, p, n) + (if 2 * Rem(a / 2, p, n) + a % 2 < Pow2(n) then 0 else 1)
  {
  }

  lemma RemDividesStep(a: nat, q: nat, r: nat, p: nat, n: nat)
    requires Modulus(p, n) && r < Pow2(n) && a / 2 == Xor(ClMul(q, p), r)
    ensures a == Xor(ClMul(2 * q + (if 2 * r + a % 2 < Pow2(n) then 0 else 1), p), Step(r, a % 2, p, n))
  {
    hide Xor, ClMul;
    var t, d := 2 * r + a % 2, 2 * ClMul(q, p);
    XorDoubled(ClMul(q, p), 0, r, a % 2);
    ClMulTwice(q, p);
    if t >= Pow2(n) {
      var q' := 2 * q + 1;
      assert q' / 2 == q && q' % 2 == 1;
      ClMulStep(q', p);
      XorComm(p, d);
      CancelModulus(d, t, p);
    }
  }

  /** ... and it is the only number of n bits that does. */
  lemma RemUnique(a: nat, q: nat, r: nat, p: nat, n: nat)
    requires Modulus(p, n) && r < Pow2(n) && a == Xor(ClMul(q, p), r)
    ensures r == Rem(a, p, n)
  {
    hide Xor;
    RemXor(ClMul(q, p), r, p, n);
    RemSmall(r, p, n);
    RemMul(q, p, p, n);
    RemOfModulus(p, n);
    ClMulZero(q);
    RemSmall(0, p, n);
    XorZero(r);
  }

  /** a = q * p + r, as polynomials. */
  predicate Divides(a: nat, q: nat, r: nat, p: nat) {
    a == Xor(ClMul(q, p), r)
  }

  /** a and r differ by a multiple of p. */
  ghost predicate Congruent(a: nat, r: nat, p: nat) {
    exists q: nat :: Divides(a, q, r, p)
  }

  /** Multiplication modulo p, without the recurrence: c is the product in the field exactly when it has
      n bits and differs from the product of polynomials by a multiple of p. */
  lemma MulIsProductModulo(a: nat, b: nat, c: nat, p: nat, n: nat)
    requires Modulus(p, n)
    ensures c == Mul(a, b, p, n) <==> c < Pow2(n) && Congruent(ClMul(a, b), c, p)
  {
    RemIsCongruent(ClMul(a, b), c, p, n);
  }

  lemma RemIsCongruent(m: nat, c: nat, p: nat, n: nat)
    requires Modulus(p, n)
    ensures c == Rem(m, p, n) <==> c < Pow2(n) && Congruent(m, c, p)
  {
    RemDivides(m, p, n);
    assert Divides(m, Quot(m, p, n), Rem(m, p, n), p);
    if c < Pow2(n) && Congruent(m, c, p) {
      var q: nat :| Divides(m, q, c, p);
      RemUnique(m, q, c, p, n);
    }
  }

  lemma RemOfModulus(p: nat, n: nat)
    requires Modulus(p, n)
    ensures Rem(p, p, n) == 0
  {
    RemSmall(p / 2, p, n);
    RemStep(p, p, n);
    XorSelf(p);
  }

  // ---------- the field laws

  lemma MulComm(a: nat, b: nat, p: nat, n: nat)
    requires Modulus(p, n)
    ensures Mul(a, b, p, n) == Mul(b, a, p, n)
  {
    ClMulComm(a, b);
  }

  lemma MulReduced(a: nat, b: nat, p: nat, n: nat)
    requires Modulus(p, n)
    ensures Mul(Rem(a, p, n), b, p, n) == Mul(a, b, p, n) == Mul(a, Rem(b, p, n), p, n)
  {
    RemMul(a, b, p, n);
    RemMul(b, a, p, n);
    ClMulComm(a, b);
    ClMulComm(b, Rem(a, p, n));
  }

  lemma MulAssociative(a: nat, b: nat, c: nat, p: nat, n: nat)
    requires Modulus(p, n)
    ensures Mul(Mul(a, b, p, n), c, p, n) == Mul(a, Mul(b, c, p, n), p, n)
  {
    MulReduced(ClMul(a, b), c, p, n);
    MulReduced(a, ClMul(b, c), p, n);
    ClMulAssoc(a, b, c);
  }

  lemma MulDistributes(a: nat, b: nat, c: nat, p: nat, n: nat)
    requires Modulus(p, n)
    ensures Mul(a, Xor(b, c), p, n) == Xor(Mul(a, b, p, n), Mul(a, c, p, n))
    ensures Mul(Xor(b, c), a, p, n) == Xor(Mul(b, a, p, n), Mul(c, a, p, n))
  {
    ClMulXor(a, b, c);
    ClMulXorLeft(b, c, a);
    RemXor(ClMul(a, b), ClMul(a, c), p, n);
    RemXor(ClMul(b, a), ClMul(c, a), p, n);
  }

  lemma MulOne(a: nat, p: nat, n: nat)
    requires Modulus(p, n) && a < Pow2(n)
    ensures Mul(1, a, p, n) == a == Mul(a, 1, p, n)
  {
    ClMulOne(a);
    RemSmall(a, p, n);
  }

  /** One turn of a shift-and-add multiplier: the low bit of a selects b, and b is multiplied by x. */
  lemma MulTurn(a: nat, b: nat, p: nat, n: nat)
    requires Modulus(p, n) && b < Pow2(n)
    ensures Mul(a, b, p, n) == Xor(if a % 2 == 1 then b else 0, Mul(a / 2, Step(b, 0, p, n), p, n))
  {
    hide Xor, Step;
    ClMulStep(a, b);
    RemXor(if a % 2 == 1 then b else 0, 2 * ClMul(a / 2, b), p, n);
    RemSmall(if a % 2 == 1 then b else 0, p, n);
    ClMulDouble(a / 2, b);
    RemSmall(b, p, n);
    RemDouble(b, p, n);
    RemMul(a / 2, 2 * b, p, n);
  }
}
