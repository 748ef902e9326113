/** The division and wrap-around facts the component proofs share. */
module Arith {

  /** A nonzero multiple of m is at least m away from zero. */
  lemma MultipleFarFromZero(k: int, m: int)
    requires m > 0
    ensures k >= 1 ==> k * m >= m
    ensures k <= -1 ==> k * m <= -m
  {
  }

  /** A multiple of m strictly inside (-m, m) is zero. */
  lemma SmallMultiple(k: int, m: int, x: int)
    requires m > 0 && k * m == x && -m < x < m
    ensures x == 0 && k == 0
  {
    MultipleFarFromZero(k, m);
  }

  /** Quotient and remainder are the only pair that recompose the number. */
  lemma DivModUnique(n: int, m: int, q: int, r: int)
    requires m > 0 && n == q * m + r && 0 <= r < m
    ensures n / m == q && n % m == r
  {
    assert n == (n / m) * m + n % m;
    assert (n / m - q) * m == r - n % m by { assert (n / m - q) * m == (n / m) * m - q * m; }
    SmallMultiple(n / m - q, m, r - n % m);
  }

  lemma ModDiff(a: int, b: int, m: int)
    requires m > 0
    ensures a % m == b % m <==> (b - a) % m == 0
  {
    var qa, qb, qd := a / m, b / m, (b - a) / m;
    assert a == qa * m + a % m && b == qb * m + b % m && b - a == qd * m + (b - a) % m;
    if a % m == b % m {
      assert b - a == (qb - qa) * m + 0 by { assert (qb - qa) * m == qb * m - qa * m; }
      DivModUnique(b - a, m, qb - qa, 0);
    }
    if (b - a) % m == 0 {
      assert b == (qa + qd) * m + a % m by { assert (qa + qd) * m == qa * m + qd * m; }
      DivModUnique(b, m, qa + qd, a % m);
    }
  }

  /** Two numbers with one remainder lie at least a whole modulus apart. */
  lemma ModGap(a: int, b: int, m: int)
    requires m > 0 && a < b && a % m == b % m
    ensures b - a >= m
  {
    ModDiff(a, b, m);
    if b - a < m {
      DivModUnique(b - a, m, 0, b - a);
    }
  }

  function Pow2(k: nat): (r: nat)
    ensures r >= 1
  {
    if k == 0 then 1 else 2 * Pow2(k - 1)
  }

  lemma {:induction false} Pow2Add(a: nat, b: nat)
    ensures Pow2(a + b) == Pow2(a) * Pow2(b)
    decreases a
  {
    if a > 0 {
      Pow2Add(a - 1, b);
      assert 2 * (Pow2(a - 1) * Pow2(b)) == (2 * Pow2(a - 1)) * Pow2(b);
    }
  }

  /** The shift amounts within an octet. */
  function Sh(k: nat): (r: nat)
    requires k <= 8
    ensures 1 <= r <= 256
  {
    [1, 2, 4, 8, 16, 32, 64, 128, 256][k]
  }

  lemma {:induction false} Pow2Small(k: nat)
    requires k <= 8
    ensures Pow2(k) == Sh(k)
  {
    if k > 0 { Pow2Small(k - 1); }
  }

  lemma MulMono(a: nat, b: nat, c: nat)
    requires a <= b
    ensures a * c <= b * c
  {
  }

  /** A number below p with a digit on top of it stays below the next power. */
  lemma DigitBound(low: nat, d: nat, p: nat, base: nat)
    requires low < p && d < base
    ensures low + d * p < base * p
  {
    MulMono(d, base - 1, p);
    assert (base - 1) * p == base * p - p;
  }

  lemma AddMultiple(x: nat, q: nat, m: nat)
    requires m > 0
    ensures (x + q * m) % m == x % m
    ensures (x + q * m) / m == x / m + q
  {
    assert x == (x / m) * m + x % m;
    assert (x / m + q) * m == (x / m) * m + q * m;
    DivModUnique(x + q * m, m, x / m + q, x % m);
  }

  lemma DivDiv(x: nat, a: nat, b: nat)
    requires a > 0 && b > 0
    ensures a * b > 0 && x / (a * b) == (x / a) / b
  {
    var q := x / a;
    var r := x % a;
    assert x == q * a + r;
    var q2, r2 := q / b, q % b;
    assert q == q2 * b + r2;
    assert x == q2 * (a * b) + (r2 * a + r) by { assert (q2 * b + r2) * a == q2 * (a * b) + r2 * a; }
    DigitBound(r, r2, a, b);
    DivModUnique(x, a * b, q2, r2 * a + r);
  }
}
