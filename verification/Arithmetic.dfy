/** Facts about products, quotients and remainders, each small enough to be proved on its own. */
module Arithmetic {

  lemma MulMonotone(a: int, b: int, c: int)
    requires a <= b && 0 <= c
    ensures a * c <= b * c
  {
  }

  lemma MulNonNegative(a: int, b: int)
    requires a >= 0 && b >= 0
    ensures a * b >= 0
  {
  }

  lemma QuotientBounds(a: int, b: int)
    requires b > 0
    ensures (a / b) * b <= a < (a / b + 1) * b
    ensures a == (a / b) * b + a % b
  {
  }

  lemma ModBounds(a: int, b: int)
    requires b > 0
    ensures 0 <= a % b < b
  {
  }

  lemma ZeroQuotient(b: nat)
    requires b > 0
    ensures 0 / b == 0 && 0 % b == 0
  {
  }

  /** Euclid's characterisation of the quotient. */
  lemma QuotientUnique(a: int, b: int, q: int)
    requires b > 0 && q * b <= a < (q + 1) * b
    ensures a / b == q
  {
    QuotientBounds(a, b);
    var r := a / b;
    if r < q {
      MulMonotone(r + 1, q, b);
    } else if r > q {
      MulMonotone(q + 1, r, b);
    }
  }

  lemma DivModUnique(a: int, b: int, q: int, r: int)
    requires b > 0 && a == q * b + r && 0 <= r < b
    ensures a / b == q && a % b == r
  {
    assert (q + 1) * b == q * b + b;
    QuotientUnique(a, b, q);
    QuotientBounds(a, b);
  }

  lemma QuotientLess(x: int, b: int, m: int)
    requires b > 0
    ensures x < m * b <==> x / b < m
  {
    QuotientBounds(x, b);
    if x / b < m {
      MulMonotone(x / b + 1, m, b);
    } else {
      MulMonotone(m, x / b, b);
    }
  }

  lemma QuotientShift(x: int, b: int, m: int)
    requires b > 0
    ensures (x - m * b) / b == x / b - m
  {
    QuotientBounds(x, b);
    ModBounds(x, b);
    assert (x / b - m) * b == (x / b) * b - m * b;
    DivModUnique(x - m * b, b, x / b - m, x % b);
  }

  /** Adding a multiple of the modulus changes nothing. */
  lemma ModShift(x: int, b: int, m: int)
    requires b > 0
    ensures (x + m * b) % b == x % b
  {
    QuotientBounds(x, b);
    ModBounds(x, b);
    assert (x / b + m) * b == (x / b) * b + m * b;
    DivModUnique(x + m * b, b, x / b + m, x % b);
  }

  /** Congruent numbers stay congruent under the same scaling and shift. */
  lemma CongruentAffine(a: int, b: int, p: int, c: int, m: int)
    requires m > 0 && a % m == b % m
    ensures (a * p + c) % m == (b * p + c) % m
  {
    var k := a / m - b / m;
    QuotientBounds(a, m);
    QuotientBounds(b, m);
    assert k * m == a / m * m - b / m * m;
    assert (b + k * m) * p == b * p + k * p * m;
    ModShift(b * p + c, m, k * p);
  }

  /** Halving dividend and divisor. */
  lemma HalfDivMod(x: int, p: int)
    requires p > 0
    ensures x / (2 * p) == x / 2 / p
    ensures x % (2 * p) == 2 * (x / 2 % p) + x % 2
  {
    QuotientBounds(x / 2, p);
    ModBounds(x / 2, p);
    assert x / 2 / p * (2 * p) == 2 * (x / 2 / p * p);
    DivModUnique(x, 2 * p, x / 2 / p, 2 * (x / 2 % p) + x % 2);
  }

  function Pow2(k: nat): (p: int)
    ensures p >= 1
  {
    if k == 0 then 1 else 2 * Pow2(k - 1)
  }

  lemma {:induction false} Pow2Sum(a: nat, b: nat)
    ensures Pow2(a + b) == Pow2(b) * Pow2(a)
  {
    if b > 0 {
      Pow2Sum(a, b - 1);
      assert 2 * (Pow2(b - 1) * Pow2(a)) == (2 * Pow2(b - 1)) * Pow2(a);
    }
  }

  lemma SmallPowers()
    ensures Pow2(0) == 1 && Pow2(1) == 2 && Pow2(2) == 4 && Pow2(3) == 8 && Pow2(4) == 16 && Pow2(5) == 32
    ensures Pow2(8) == 256
  {
    assert Pow2(4) == 16;
    assert Pow2(8) == 256;
  }

  lemma WordPower()
    ensures Pow2(32) == 0x1_0000_0000
  {
    SmallPowers();
    Pow2Sum(8, 8);
    Pow2Sum(16, 16);
  }
}
