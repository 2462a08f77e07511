/** Powers of two, and the arithmetic that aligned blocks rest on. */
module Powers {

  function Pow2(k: nat): (p: nat)
    ensures p >= 1
  {
    if k == 0 then 1 else 2 * Pow2(k - 1)
  }

  function Min(a: int, b: int): int { if a < b then a else b }

  function Max(a: int, b: int): int { if a < b then b else a }

  lemma {:induction false} Pow2Add(j: nat, k: nat)
    ensures Pow2(j + k) == Pow2(j) * Pow2(k)
  {
    if j == 0 {
    } else {
      Pow2Add(j - 1, k);
      assert Pow2(j + k) == 2 * Pow2((j - 1) + k);
      assert Pow2(j) * Pow2(k) == 2 * (Pow2(j - 1) * Pow2(k)) by {
        MulAssoc(2, Pow2(j - 1), Pow2(k));
      }
    }
  }

  lemma {:induction false} Pow2Monotone(j: nat, k: nat)
    requires j <= k
    ensures Pow2(j) <= Pow2(k)
    decreases k
  {
    if j < k {
      Pow2Monotone(j, k - 1);
    }
  }

  lemma MulAssoc(a: int, b: int, c: int)
    ensures (a * b) * c == a * (b * c)
  {
  }

  /** Multiples of `d` are at least `d` apart. */
  lemma MulGap(a: int, b: int, d: int)
    requires d > 0 && a < b
    ensures a * d + d <= b * d
  {
    assert b * d == a * d + (b - a) * d by { MulDistr(a, b - a, d); }
    assert (b - a) * d >= d by { MulMono(1, b - a, d); }
  }

  lemma MulDistr(a: int, b: int, d: int)
    ensures (a + b) * d == a * d + b * d
  {
  }

  lemma MulMono(a: int, b: int, d: int)
    requires a <= b && d >= 0
    ensures a * d <= b * d
  {
  }

  /** The quotient and remainder of a number are unique. */
  lemma DivModUnique(n: int, d: int, q: int, r: int)
    requires d > 0 && n == q * d + r && 0 <= r < d
    ensures n / d == q && n % d == r
  {
    var q', r' := n / d, n % d;
    assert n == q' * d + r';
    if q < q' {
      MulGap(q, q', d);
    } else if q' < q {
      MulGap(q', q, d);
    }
  }

  /** The i-th cell of pitch d fits below n exactly when i is below the quotient. */
  lemma CellFits(i: int, d: int, n: int)
    requires d > 0
    ensures i < n / d <==> i * d + d <= n
  {
    var q := n / d;
    if i < q { MulGap(i, q, d); } else { MulMono(q, i, d); }
  }

  lemma DivScale(n: int, d: int, c: int)
    requires d > 0 && c > 0
    ensures c * d > 0 && (c * n) / (c * d) == n / d
  {
    var q, r := n / d, n % d;
    MulMono(1, c, d);
    calc {
      c * n;
      c * (q * d + r);
      c * (q * d) + c * r;
      { MulAssoc(q, c, d); MulAssoc(c, q, d); }
      q * (c * d) + c * r;
    }
    assert 0 <= c * r < c * d by { MulMono(r + 1, d, c); MulMono(0, r, c); }
    DivModUnique(c * n, c * d, q, c * r);
  }

  lemma DivNonNegative(n: int, d: int)
    requires n >= 0 && d > 0
    ensures n / d >= 0
  {
    if n / d < 0 {
      MulMono(n / d, -1, d);
    }
  }

  /** A multiple of a larger power of two is a multiple of a smaller one. */
  lemma ModPow2Down(n: nat, j: nat, k: nat)
    requires j <= k && n % Pow2(k) == 0
    ensures n % Pow2(j) == 0
  {
    var q := n / Pow2(k);
    Pow2Add(k - j, j);
    assert n == q * Pow2(k);
    assert n == (q * Pow2(k - j)) * Pow2(j) by { MulAssoc(q, Pow2(k - j), Pow2(j)); }
    DivModUnique(n, Pow2(j), q * Pow2(k - j), 0);
  }
}
