/** The few facts about products and remainders the other modules need. */
module Arith {

  lemma MulAtLeast(m: nat, k: int)
    requires k >= 1
    ensures m * k >= m
  {}

  lemma Distribute(m: int, a: int, b: int)
    ensures m * (a - b) == m * a - m * b
    ensures m * (a + b) == m * a + m * b
  {}

  /** Quotient and remainder are unique. */
  lemma DivModUnique(n: int, m: int, q: int, r: int)
    requires 0 <= r < m && n == m * q + r
    ensures n / m == q && n % m == r
  {
    var q', r' := n / m, n % m;
    Quotient(n, m);
    Distribute(m, q, q');
    if q > q' {
      MulAtLeast(m, q - q');
    } else if q < q' {
      MulAtLeast(m, q' - q);
      Distribute(m, q', q);
    }
  }

  lemma Quotient(n: int, m: int)
    requires m > 0
    ensures n == m * (n / m) + n % m && 0 <= n % m < m
  {}

  /** A multiple has remainder zero, and only a multiple has. */
  lemma Multiple(n: int, m: int, k: int)
    requires m > 0 && n == m * k
    ensures n % m == 0 && n / m == k
  {
    DivModUnique(n, m, k, 0);
  }

  /** Sums, differences and multiples of multiples of d are multiples of d. */
  lemma Combine(x: int, y: int, k: int, d: int)
    requires d > 0 && x % d == 0 && y % d == 0
    ensures (x + y) % d == 0 && (x - y) % d == 0 && (x * k) % d == 0
  {
    var p, q := x / d, y / d;
    Quotient(x, d);
    Quotient(y, d);
    Distribute(d, p, q);
    Multiple(x + y, d, p + q);
    Multiple(x - y, d, p - q);
    Associate(d, p, k);
    Multiple(x * k, d, p * k);
  }

  lemma Associate(a: int, b: int, c: int)
    ensures (a * b) * c == a * (b * c)
  {}

  /** Two different multiples of m are at least m apart. */
  lemma Apart(x: int, y: int, m: int)
    requires m > 0 && x % m == 0 && y % m == 0 && x < y
    ensures x + m <= y
  {
    Combine(y, x, 1, m);
    var k := (y - x) / m;
    Quotient(y - x, m);
    if k <= 0 {
      NotPositive(m, k);
    } else {
      MulAtLeast(m, k);
    }
  }

  lemma NotPositive(m: nat, k: int)
    requires k <= 0
    ensures m * k <= 0
  {}

  /** Divisibility is transitive. */
  lemma Through(x: int, y: int, d: int)
    requires d > 0 && y > 0 && x % y == 0 && y % d == 0
    ensures x % d == 0
  {
    Quotient(x, y);
    Combine(y, y, x / y, d);
  }

  /** Taking remainders before or after multiplying gives the same remainder. */
  lemma ModMul(x: int, y: int, m: int)
    requires m > 0
    ensures ((x % m) * y) % m == (x * y) % m
  {
    var q, r := x / m, x % m;
    Quotient(x, m);
    var s := r * y;
    Quotient(s, m);
    MulSum(m, q, r, y);
    Distribute(m, q * y, s / m);
    DivModUnique(x * y, m, q * y + s / m, s % m);
  }

  /** Taking remainders before or after adding gives the same remainder. */
  lemma ModAdd(x: int, y: int, m: int)
    requires m > 0
    ensures (x % m + y) % m == (x + y) % m
  {
    var r := x % m + y;
    Quotient(x, m);
    Quotient(r, m);
    Distribute(m, x / m, r / m);
    DivModUnique(x + y, m, x / m + r / m, r % m);
  }

  lemma MulSum(m: int, q: int, r: int, y: int)
    ensures (m * q + r) * y == m * (q * y) + r * y
  {
    Associate(m, q, y);
  }
}
