/** Bitwise operators of C on unsigned numbers, digit by digit, and what they are in arithmetic. */
module Bits {
  import opened Powers

  const U64: nat := 0x1_0000_0000_0000_0000

  function And(a: nat, b: nat): nat
  {
    if a == 0 || b == 0 then 0 else (a % 2) * (b % 2) + 2 * And(a / 2, b / 2)
  }

  function Or(a: nat, b: nat): nat
    decreases a + b
  {
    if a == 0 then b
    else if b == 0 then a
    else (if a % 2 == 1 || b % 2 == 1 then 1 else 0) + 2 * Or(a / 2, b / 2)
  }

  function Xor(a: nat, b: nat): nat
    decreases a + b
  {
    if a == 0 then b
    else if b == 0 then a
    else (if a % 2 == b % 2 then 0 else 1) + 2 * Xor(a / 2, b / 2)
  }

  /** a without the bits of b. */
  function AndNot(a: nat, b: nat): nat
  {
    if a == 0 || b == 0 then a
    else (if b % 2 == 1 then 0 else a % 2) + 2 * AndNot(a / 2, b / 2)
  }

  function Shl(a: nat, k: nat): nat { a * Pow2(k) }

  function Shr(a: nat, k: nat): nat { DivNonNegative(a, Pow2(k)); a / Pow2(k) }

  /** 63 - count_leading_zeroes(n), for the n != 0 the builtin is defined on. */
  function Log2(n: nat): nat
    requires n > 0
  {
    if n == 1 then 0 else 1 + Log2(n / 2)
  }

  /** count_trailing_zeroes(n), for the n != 0 the builtin is defined on. */
  function Ctz(n: nat): nat
    requires n > 0
  {
    if n % 2 == 1 then 0 else 1 + Ctz(n / 2)
  }

  // ---- arithmetic meaning -------------------------------------------------------------------

  lemma {:induction false} HalveDiv(n: nat, k: nat)
    ensures n / Pow2(k + 1) == (n / 2) / Pow2(k)
    ensures n % Pow2(k + 1) == n % 2 + 2 * ((n / 2) % Pow2(k))
  {
    var d := Pow2(k);
    var q, r := (n / 2) / d, (n / 2) % d;
    assert n == 2 * (q * d + r) + n % 2;
    assert n == q * (2 * d) + (2 * r + n % 2) by { MulAssoc(q, 2, d); }
    DivModUnique(n, 2 * d, q, 2 * r + n % 2);
  }

  lemma HalveMod(n: nat, k: nat)
    ensures n % Pow2(k + 1) == n % 2 + 2 * ((n / 2) % Pow2(k))
  {
    HalveDiv(n, k);
  }

  lemma {:induction false} AndOdd(a: nat, h: nat)
    ensures And(a, 2 * h + 1) == a % 2 + 2 * And(a / 2, h)
  {
  }

  /** Masking with 2^k - 1 gives the remainder modulo 2^k. */
  lemma {:induction false} AndMask(a: nat, k: nat)
    ensures And(a, Pow2(k) - 1) == a % Pow2(k)
    decreases k
  {
    if k == 0 {
      assert Pow2(0) == 1;
    } else {
      var h := Pow2(k - 1) - 1;
      calc {
        And(a, Pow2(k) - 1);
        And(a, 2 * h + 1);
        { AndOdd(a, h); }
        a % 2 + 2 * And(a / 2, h);
        { AndMask(a / 2, k - 1); }
        a % 2 + 2 * ((a / 2) % Pow2(k - 1));
        { HalveMod(a, k - 1); }
        a % Pow2(k);
      }
    }
  }

  lemma {:induction false} AndNotIsMinus(a: nat, b: nat)
    ensures AndNot(a, b) == a - And(a, b)
    decreases a
  {
    if a != 0 && b != 0 { AndNotIsMinus(a / 2, b / 2); }
  }

  /** Clearing with 2^k - 1 rounds down to a multiple of 2^k. */
  lemma {:induction false} AndNotMask(a: nat, k: nat)
    ensures AndNot(a, Pow2(k) - 1) == a - a % Pow2(k)
  {
    AndNotIsMinus(a, Pow2(k) - 1);
    AndMask(a, k);
  }

  /** Or-ing a number below 2^k into a multiple of 2^k adds it. */
  lemma {:induction false} OrDisjoint(a: nat, b: nat, k: nat)
    requires a % Pow2(k) == 0 && b < Pow2(k)
    ensures Or(a, b) == a + b
    decreases k
  {
    if k == 0 || a == 0 || b == 0 {
    } else {
      HalveDiv(a, k - 1);
      assert (a / 2) % Pow2(k - 1) == 0 && a % 2 == 0;
      OrDisjoint(a / 2, b / 2, k - 1);
    }
  }

  /** An exclusive or with a power of two flips one bit. */
  lemma {:induction false} XorBit(a: nat, k: nat)
    ensures a / Pow2(k) % 2 == 1 ==> a >= Pow2(k)
    ensures Xor(a, Pow2(k)) == if a / Pow2(k) % 2 == 0 then a + Pow2(k) else a - Pow2(k)
    decreases k
  {
    if a == 0 {
    } else if k == 0 {
      XorZero(a / 2);
    } else {
      HalveDiv(a, k - 1);
      XorBit(a / 2, k - 1);
      XorDouble(a, Pow2(k - 1));
    }
  }

  lemma {:induction false} XorDouble(a: nat, h: nat)
    requires h > 0
    ensures Xor(a, 2 * h) == a % 2 + 2 * Xor(a / 2, h)
  {
  }

  lemma {:induction false} XorZero(a: nat)
    ensures Xor(a, 0) == a
  {
  }

  /** Clearing with a power of two clears one bit. */
  lemma {:induction false} AndNotBit(a: nat, k: nat)
    ensures a / Pow2(k) % 2 == 1 ==> a >= Pow2(k)
    ensures AndNot(a, Pow2(k)) == if a / Pow2(k) % 2 == 0 then a else a - Pow2(k)
    decreases k
  {
    if a == 0 {
    } else if k == 0 {
      assert AndNot(a / 2, 0) == a / 2;
    } else {
      HalveDiv(a, k - 1);
      AndNotBit(a / 2, k - 1);
      assert Pow2(k) % 2 == 0 && Pow2(k) / 2 == Pow2(k - 1);
    }
  }

  /** The order of the largest block that fits into n pages. */
  lemma {:induction false} Log2Bounds(n: nat)
    requires n > 0
    ensures Pow2(Log2(n)) <= n < Pow2(Log2(n) + 1)
  {
    if n > 1 {
      Log2Bounds(n / 2);
    }
  }

  /** 2^j divides n exactly up to the number of trailing zeroes. */
  lemma {:induction false} CtzDivides(n: nat, j: nat)
    requires n > 0
    ensures n % Pow2(j) == 0 <==> j <= Ctz(n)
    decreases j
  {
    if j == 0 {
    } else {
      HalveDiv(n, j - 1);
      if n % 2 == 0 { CtzDivides(n / 2, j - 1); }
    }
  }

  // ---- single bits --------------------------------------------------------------------------

  /** The k-th bit. */
  function TestBit(a: nat, k: nat): bool { a / Pow2(k) % 2 == 1 }

  lemma TestBitHalf(a: nat, k: nat)
    requires k > 0
    ensures TestBit(a, k) == TestBit(a / 2, k - 1)
  {
    HalveDiv(a, k - 1);
  }

  lemma TestBitZero(k: nat)
    ensures !TestBit(0, k)
  {
    DivModUnique(0, Pow2(k), 0, 0);
  }

  lemma {:induction false} OrDigits(a: nat, b: nat)
    requires a != 0 && b != 0
    ensures Or(a, b) / 2 == Or(a / 2, b / 2)
    ensures Or(a, b) % 2 == if a % 2 == 1 || b % 2 == 1 then 1 else 0
  {
  }

  lemma {:induction false} TestBitOr(a: nat, b: nat, k: nat)
    ensures TestBit(Or(a, b), k) == (TestBit(a, k) || TestBit(b, k))
    decreases k
  {
    if a == 0 || b == 0 {
      TestBitZero(k);
    } else {
      OrDigits(a, b);
      if k == 0 {
        assert forall x: nat :: TestBit(x, 0) <==> x % 2 == 1;
      } else {
        TestBitHalf(a, k);
        TestBitHalf(b, k);
        TestBitHalf(Or(a, b), k);
        TestBitOr(a / 2, b / 2, k - 1);
      }
    }
  }

  lemma {:induction false} AndNotDigits(a: nat, b: nat)
    requires a != 0 && b != 0
    ensures AndNot(a, b) / 2 == AndNot(a / 2, b / 2)
    ensures AndNot(a, b) % 2 == if b % 2 == 1 then 0 else a % 2
  {
  }

  lemma {:induction false} TestBitAndNot(a: nat, b: nat, k: nat)
    ensures TestBit(AndNot(a, b), k) == (TestBit(a, k) && !TestBit(b, k))
    decreases k
  {
    if a == 0 || b == 0 {
      TestBitZero(k);
    } else {
      AndNotDigits(a, b);
      if k == 0 {
        assert forall x: nat :: TestBit(x, 0) <==> x % 2 == 1;
      } else {
        TestBitHalf(a, k);
        TestBitHalf(b, k);
        TestBitHalf(AndNot(a, b), k);
        TestBitAndNot(a / 2, b / 2, k - 1);
      }
    }
  }

  lemma {:induction false} TestBitPow2(j: nat, k: nat)
    ensures TestBit(Pow2(j), k) == (j == k)
    decreases k
  {
    assert j > 0 ==> Pow2(j) == 2 * Pow2(j - 1);
    if k == 0 {
      assert Pow2(0) == 1;
    } else {
      TestBitHalf(Pow2(j), k);
      if j > 0 { TestBitPow2(j - 1, k - 1); } else { TestBitZero(k - 1); }
    }
  }

  /** One bit of a, in its place. */
  lemma {:induction false} AndBit(a: nat, k: nat)
    ensures And(a, Pow2(k)) == if TestBit(a, k) then Pow2(k) else 0
    decreases k
  {
    if a == 0 {
      TestBitZero(k);
    } else if k > 0 {
      TestBitHalf(a, k);
      AndBit(a / 2, k - 1);
    } else {
      assert And(a / 2, 0) == 0;
    }
  }

  /** Or works on the high and on the low digits apart. */
  lemma {:induction false} OrShr(a: nat, b: nat, k: nat)
    ensures Shr(Or(a, b), k) == Or(Shr(a, k), Shr(b, k))
    decreases k
  {
    if k == 0 {
      assert Pow2(0) == 1;
    } else if a == 0 || b == 0 {
      DivModUnique(0, Pow2(k), 0, 0);
      OrZero(Shr(a, k));
      OrZero(Shr(b, k));
    } else {
      OrDigits(a, b);
      HalveDiv(a, k - 1);
      HalveDiv(b, k - 1);
      HalveDiv(Or(a, b), k - 1);
      OrShr(a / 2, b / 2, k - 1);
    }
  }

  lemma {:induction false} OrMod(a: nat, b: nat, k: nat)
    ensures Or(a, b) % Pow2(k) == Or(a % Pow2(k), b % Pow2(k))
    decreases k
  {
    if k == 0 {
      assert Pow2(0) == 1;
    } else if a == 0 || b == 0 {
      DivModUnique(0, Pow2(k), 0, 0);
      OrZero(a % Pow2(k));
      OrZero(b % Pow2(k));
    } else {
      OrDigits(a, b);
      HalveMod(a, k - 1);
      HalveMod(b, k - 1);
      HalveMod(Or(a, b), k - 1);
      OrMod(a / 2, b / 2, k - 1);
      OrDouble((a / 2) % Pow2(k - 1), a % 2, (b / 2) % Pow2(k - 1), b % 2);
    }
  }

  lemma OrDouble(x: nat, i: nat, y: nat, j: nat)
    requires i < 2 && j < 2
    ensures Or(i + 2 * x, j + 2 * y) == (if i == 1 || j == 1 then 1 else 0) + 2 * Or(x, y)
  {
    OrZero(i + 2 * x);
    OrZero(x);
  }

  lemma OrZero(a: nat)
    ensures Or(a, 0) == a && Or(0, a) == a
  {
  }

  lemma SmallShr(a: nat, k: nat)
    ensures Shr(a, k) == 0 <==> a < Pow2(k)
  {
    if a < Pow2(k) { DivModUnique(a, Pow2(k), 0, a); }
  }

  /** The digits s to s + t - 1. */
  lemma {:induction false} MiddleDigits(n: nat, s: nat, t: nat)
    ensures Shr(n, s) % Pow2(t) == Shr(n % Pow2(s + t), s)
    decreases s
  {
    if s == 0 {
      assert Pow2(0) == 1;
    } else {
      var m := n % Pow2(s + t);
      HalveDiv(n, s - 1);
      HalveMod(n, s - 1 + t);
      HalveDiv(m, s - 1);
      MiddleDigits(n / 2, s - 1, t);
    }
  }
}
