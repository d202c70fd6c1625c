/** Bitwise operations of C's unsigned integers, as functions on natural numbers of a given width. */
module Bits {

  function Pow2(n: nat): (p: nat)
    ensures p > 0
  {
    if n == 0 then 1 else 2 * Pow2(n - 1)
  }

  function And(x: nat, y: nat, width: nat): (r: nat)
    ensures r < Pow2(width)
  {
    if width == 0 then 0 else 2 * And(x / 2, y / 2, width - 1) + (x % 2) * (y % 2)
  }

  function Or(x: nat, y: nat, width: nat): (r: nat)
    ensures r < Pow2(width)
  {
    if width == 0 then 0 else 2 * Or(x / 2, y / 2, width - 1) + (if x % 2 + y % 2 == 0 then 0 else 1)
  }

  function Xor(x: nat, y: nat, width: nat): (r: nat)
    ensures r < Pow2(width)
  {
    if width == 0 then 0 else 2 * Xor(x / 2, y / 2, width - 1) + (x + y) % 2
  }

  lemma {:induction false} Pow2Sum(a: nat, b: nat)
    ensures Pow2(a + b) == Pow2(a) * Pow2(b)
  {
    if a > 0 {
      Pow2Sum(a - 1, b);
      assert Pow2(a + b) == 2 * (Pow2(a - 1) * Pow2(b)) == (2 * Pow2(a - 1)) * Pow2(b);
    }
  }

  lemma PowerValues()
    ensures Pow2(0) == 1 && Pow2(8) == 0x100 && Pow2(16) == 0x1_0000 && Pow2(24) == 0x100_0000
    ensures Pow2(32) == 0x1_0000_0000 && Pow2(64) == 0x1_0000_0000_0000_0000
  {
    assert Pow2(4) == 16;
    hide Pow2;
    Pow2Sum(4, 4);
    Pow2Sum(8, 8);
    Pow2Sum(16, 8);
    Pow2Sum(16, 16);
    Pow2Sum(32, 32);
  }

  /** Halving and reducing modulo a power of two, the step of the inductions below. */
  lemma HalfOfRemainder(x: nat, n: nat)
    requires n > 0
    ensures x % Pow2(n) == 2 * (x / 2 % Pow2(n - 1)) + x % 2
  {
    var p := Pow2(n - 1);
    var q, r := x / 2 / p, x / 2 % p;
    assert x == (2 * p) * q + (2 * r + x % 2);
    assert x % (2 * p) == 2 * r + x % 2 by {
      DivModUnique(x, 2 * p, q, 2 * r + x % 2);
    }
  }

  lemma DivModUnique(x: nat, d: nat, q: nat, r: nat)
    requires d > 0 && x == d * q + r && r < d
    ensures x / d == q && x % d == r
  {
    var k := x / d - q;
    assert d * k == r - x % d;
    if k != 0 {
      MulAtLeast(d, if k > 0 then k else -k);
    }
  }

  lemma SmallRemainder(x: nat, d: nat)
    requires x <= d && d > 0
    ensures x % d == if x == d then 0 else x
  {
    DivModUnique(x, d, if x == d then 1 else 0, if x == d then 0 else x);
  }

  lemma MulAtLeast(d: nat, k: nat)
    requires k > 0
    ensures d * k >= d
  {
  }

  /** Masking with `2^n - 1` is reduction modulo `2^n`. */
  lemma {:induction false} AndMask(x: nat, n: nat, width: nat)
    requires n <= width
    ensures And(x, Pow2(n) - 1, width) == x % Pow2(n)
  {
    if width == 0 {
    } else if n == 0 {
      AndZero(x, width);
    } else {
      assert (Pow2(n) - 1) / 2 == Pow2(n - 1) - 1 && (Pow2(n) - 1) % 2 == 1;
      AndMask(x / 2, n - 1, width - 1);
      HalfOfRemainder(x, n);
    }
  }

  lemma {:induction false} AndZero(x: nat, width: nat)
    ensures And(x, 0, width) == 0
  {
    if width > 0 {
      AndZero(x / 2, width - 1);
    }
  }

  lemma ShiftIsDouble(high: nat, n: nat)
    requires n > 0
    ensures high * Pow2(n) == 2 * (high * Pow2(n - 1))
  {
    var p := Pow2(n - 1);
    assert high * (2 * p) == 2 * (high * p);
  }

  /** Numbers without a common bit: `or` is addition. */
  lemma {:induction false} OrIsSum(low: nat, high: nat, n: nat, width: nat)
    requires n <= width && low < Pow2(n) && high * Pow2(n) < Pow2(width)
    ensures Or(low, high * Pow2(n), width) == low + high * Pow2(n)
  {
    if width == 0 {
    } else if n == 0 {
      OrZero(high, width);
    } else {
      ShiftIsDouble(high, n);
      OrIsSum(low / 2, high, n - 1, width - 1);
    }
  }

  lemma {:induction false} OrSymmetric(x: nat, y: nat, width: nat)
    ensures Or(x, y, width) == Or(y, x, width)
  {
    if width > 0 {
      OrSymmetric(x / 2, y / 2, width - 1);
    }
  }

  lemma {:induction false} OrZero(y: nat, width: nat)
    requires y < Pow2(width)
    ensures Or(0, y, width) == y
  {
    if width > 0 {
      OrZero(y / 2, width - 1);
    }
  }
}
