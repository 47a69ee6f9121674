/** Exact integer facts about powers of ten and decimal digit positions, the only
    arithmetic the digit search relies on (the source uses BigInt, so nothing wraps). */
module Arith {

  /** 10 ** k, as `10n ** digits` computes it. */
  function Pow10(k: nat): (r: nat)
    ensures r >= 1
  {
    if k == 0 then 1 else 10 * Pow10(k - 1)
  }

  /** Euclidean division is determined by any decomposition x == m * q + s with 0 <= s < m. */
  lemma DivModUnique(x: nat, m: nat, q: nat, s: nat)
    requires m > 0 && s < m && x == m * q + s
    ensures x / m == q && x % m == s
  {
    var q', s' := x / m, x % m;
    assert x == m * q' + s';
    if q' < q {
      var k := q - q';
      assert m * q == m * q' + m * k;
      MulAtLeast(m, k);
    } else if q' > q {
      var k := q' - q;
      assert m * q' == m * q + m * k;
      MulAtLeast(m, k);
    }
  }

  lemma MulAtLeast(m: nat, k: nat)
    requires k >= 1
    ensures m * k >= m
  {
    assert m * k == m * (k - 1) + m;
  }

  /** Peeling off the lowest digit: the low k+1 digits of p are the low k digits of p / 10
      followed by p % 10. */
  lemma ModSplitLow(p: nat, m: nat)
    requires m > 0
    ensures p % (10 * m) == 10 * ((p / 10) % m) + p % 10
  {
    var a := p / 10;
    assert a == m * (a / m) + a % m;
    assert p == 10 * a + p % 10;
    assert p == (10 * m) * (a / m) + (10 * (a % m) + p % 10);
    DivModUnique(p, 10 * m, a / m, 10 * (a % m) + p % 10);
  }

  /** Adding the next digit: the low k+1 digits of x are its low k digits plus digit k at 10^k. */
  lemma ModSplitHigh(x: nat, m: nat)
    requires m > 0
    ensures x % (10 * m) == x % m + ((x / m) % 10) * m
  {
    var q := x / m;
    var hi, digit := q / 10, q % 10;
    assert x == m * q + x % m;
    assert q == 10 * hi + digit;
    assert m * q == (10 * m) * hi + digit * m by {
      assert m * q == m * (10 * hi) + m * digit;
    }
    MulMono(digit, m, 9, m);
    DivModUnique(x, 10 * m, hi, x % m + digit * m);
  }

  /** (m * k + x) % m == x % m. */
  lemma ModMultiplePlus(k: nat, x: nat, m: nat)
    requires m > 0
    ensures (m * k + x) % m == x % m
  {
    assert x == m * (x / m) + x % m;
    assert m * k + x == m * (k + x / m) + x % m;
    DivModUnique(m * k + x, m, k + x / m, x % m);
  }

  /** Reducing the factors modulo m does not change the product modulo m. */
  lemma ModMul(a: nat, b: nat, m: nat)
    requires m > 0
    ensures ((a % m) * (b % m)) % m == (a * b) % m
  {
    var qa, ra, qb, rb := a / m, a % m, b / m, b % m;
    assert a == m * qa + ra;
    assert b == m * qb + rb;
    MulMono(0, 0, qa, b);
    MulMono(0, 0, ra, qb);
    var s: nat := qa * b + ra * qb;
    assert a * b == m * (qa * b) + ra * b by {
      Distribute(b, m * qa, ra);
      assert (m * qa) * b == m * (qa * b);
    }
    assert ra * b == m * (ra * qb) + ra * rb by {
      Distribute(ra, m * qb, rb);
      assert ra * (m * qb) == m * (ra * qb);
    }
    assert a * b == m * s + ra * rb by {
      Distribute(m, qa * b, ra * qb);
    }
    ModMultiplePlus(s, ra * rb, m);
  }

  lemma Distribute(x: int, y: int, z: int)
    ensures x * (y + z) == x * y + x * z && (y + z) * x == y * x + z * x
  {
  }

  /** Multiplication of naturals is monotone in both arguments. (Stated as an implication,
      so that it can be called before a case split on the bounds.) */
  lemma MulMono(a: nat, b: nat, x: nat, y: nat)
    ensures a <= x && b <= y ==> a * b <= x * y
  {
    if a <= x && b <= y {
      assert a * b <= x * b;
      assert x * b <= x * y;
    }
  }

  /** A remainder never exceeds the number, and a number below the modulus is its own remainder. */
  lemma ModAtMost(a: nat, m: nat)
    requires m > 0
    ensures a % m <= a
    ensures a < m ==> a % m == a
  {
    if a < m {
      DivModUnique(a, m, 0, a);
    }
  }

  /** 101 is prime: its only factorizations are 1 * 101 and 101 * 1. */
  lemma Factors101(a: nat, b: nat)
    requires a * b == 101
    ensures (a, b) == (1, 101) || (a, b) == (101, 1)
  {
    if a <= b {
      SmallerFactor101(a, b);
    } else {
      SmallerFactor101(b, a);
    }
  }

  lemma SmallerFactor101(a: nat, b: nat)
    requires a * b == 101 && a <= b
    ensures a == 1 && b == 101
  {
    MulMono(11, 11, a, b);
    assert 1 <= a <= 10;
  }

  /** The only factorization of 1 is 1 * 1. */
  lemma FactorsOfOne(a: nat, b: nat)
    requires a * b == 1
    ensures a == 1 && b == 1
  {
    MulMono(2, 1, a, b);
    MulMono(1, 2, a, b);
  }

  /** The numbers up to 101 whose last two digits are 01. */
  lemma EndsIn01(x: nat)
    requires x % 100 == 1 && x <= 101
    ensures x == 1 || x == 101
  {
    DivModUnique(x, 100, x / 100, 1);
    assert x == 100 * (x / 100) + 1;
  }
}
