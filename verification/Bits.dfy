/** Bitwise operators on natural numbers, bit by bit. */
module Bits {

  function Pow2(n: nat): (p: nat)
    ensures p >= 1
  {
    if n == 0 then 1 else 2 * Pow2(n - 1)
  }

  function Xor(a: nat, b: nat): nat
    decreases a + b
  {
    if a == 0 && b == 0 then 0 else 2 * Xor(a / 2, b / 2) + (a % 2 + b % 2) % 2
  }

  function And(a: nat, b: nat): nat
    decreases a
  {
    if a == 0 then 0 else 2 * And(a / 2, b / 2) + (a % 2) * (b % 2)
  }

  function Or(a: nat, b: nat): nat
    decreases a + b
  {
    if a == 0 && b == 0 then 0 else 2 * Or(a / 2, b / 2) + (if a % 2 + b % 2 > 0 then 1 else 0)
  }

  lemma {:induction false} OrNothing(a: nat)
    ensures Or(a, 0) == a
    decreases a
  {
    if a != 0 {
      OrNothing(a / 2);
    }
  }

  /** The last bit of a xor and the bits above it. */
  lemma XorUnfold(a: nat, b: nat)
    ensures Xor(a, b) / 2 == Xor(a / 2, b / 2)
    ensures Xor(a, b) % 2 == (a % 2 + b % 2) % 2
  {
  }

  lemma XorZero()
    ensures Xor(0, 0) == 0
  {
  }

  lemma SameBits(a: nat, b: nat)
    requires a / 2 == b / 2 && a % 2 == b % 2
    ensures a == b
  {
  }

  /** Xor with the same number twice changes nothing. */
  lemma {:induction false} XorInvolution(a: nat, b: nat)
    ensures Xor(Xor(a, b), b) == a
    decreases a + b
  {
    hide Xor;
    if a == 0 && b == 0 {
      XorUnfold(0, 0);
      XorZero();
    } else {
      XorInvolution(a / 2, b / 2);
      XorUnfold(a, b);
      var x := Xor(a, b);
      XorUnfold(x, b);
      SameBits(a, Xor(x, b));
    }
  }

  lemma {:induction false} XorBound(a: nat, b: nat, n: nat)
    requires a < Pow2(n) && b < Pow2(n)
    ensures Xor(a, b) < Pow2(n)
    decreases n
  {
    if n > 0 {
      XorBound(a / 2, b / 2, n - 1);
    }
  }

  lemma Pow2Values()
    ensures Pow2(8) == 256 && Pow2(16) == 0x1_0000 && Pow2(32) == 0x1_0000_0000
  {
    assert Pow2(4) == 16;
    assert Pow2(8) == 256;
    assert Pow2(12) == 4096;
    assert Pow2(16) == 0x1_0000;
    assert Pow2(20) == 0x10_0000;
    assert Pow2(24) == 0x100_0000;
    assert Pow2(28) == 0x1000_0000;
  }

  /** Masking with 2^k - 1 is the remainder modulo 2^k. */
  lemma {:induction false} AndMask(a: nat, k: nat)
    ensures And(a, Pow2(k) - 1) == a % Pow2(k)
    decreases a
  {
    hide And;
    if a == 0 {
      AndZero(a, Pow2(k) - 1);
      DivUnique(a, Pow2(k), 0, 0);
    } else if k == 0 {
      AndZero(a, 0);
    } else {
      AndMask(a / 2, k - 1);
      var p := Pow2(k - 1);
      assert Pow2(k) == 2 * p;
      AndOdd(a, p - 1);
      Halve(a, p);
    }
  }

  lemma AndOdd(a: nat, m: nat)
    requires a > 0
    ensures And(a, 2 * m + 1) == 2 * And(a / 2, m) + a % 2
  {
    var b := 2 * m + 1;
    assert b / 2 == m && b % 2 == 1;
  }

  lemma {:induction false} AndZero(a: nat, b: nat)
    requires a == 0 || b == 0
    ensures And(a, b) == 0
    decreases a
  {
    if a > 0 {
      AndZero(a / 2, b / 2);
    }
  }

  lemma Halve(a: nat, p: nat)
    requires p >= 1
    ensures a % (2 * p) == 2 * ((a / 2) % p) + a % 2
  {
    var q, r := (a / 2) / p, (a / 2) % p;
    assert a / 2 == q * p + r;
    assert a == q * (2 * p) + (2 * r + a % 2);
    DivUnique(a, 2 * p, q, 2 * r + a % 2);
  }

  lemma DivUnique(a: nat, d: nat, q: nat, r: nat)
    requires a == q * d + r && r < d
    ensures a % d == r && a / d == q
  {
    var q', r' := a / d, a % d;
    assert a == q' * d + r';
    MulStep(q', q, d);
    MulStep(q, q', d);
  }

  lemma MulStep(x: nat, y: nat, d: nat)
    ensures x < y ==> x * d + d <= y * d
  {
    if x < y {
      MulNonNegative(y - x - 1, d);
      assert (y - x - 1) * d == y * d - x * d - d;
    }
  }

  lemma MulNonNegative(a: nat, b: nat)
    ensures a * b >= 0
  {
  }
}
