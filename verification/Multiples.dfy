/** Quotients and remainders by a variable. */
module Multiples {
  lemma {:induction false} TimesGrows(d: nat, m: nat)
    ensures d >= 1 ==> d * m >= m
    ensures d * m >= 0
  {
    if d > 1 {
      TimesGrows(d - 1, m);
      assert d * m == (d - 1) * m + m;
    }
  }

  lemma NoMultipleBetween(d: int, m: nat)
    requires -1 * m < d * m < m
    ensures d == 0
  {
    if d > 0 {
      TimesGrows(d, m);
    }
  }

  /** A number splits into quotient and remainder in one way. */
  lemma SplitIsDivision(n: nat, m: nat, q: nat, r: nat)
    requires n == q * m + r && r < m
    ensures n / m == q && n % m == r
  {
    var q', r' := n / m, n % m;
    assert n == q' * m + r';
    assert (q - q') * m == q * m - q' * m;
    NoMultipleBetween(q - q', m);
  }

  /** A remainder by `a` and one by `b` above it stay below the product. */
  lemma RemainderFits(r: nat, b: nat, low: nat, a: nat)
    requires r < b && low < a
    ensures r * a + low < a * b
  {
    TimesGrows(b - r, a);
    assert (b - r) * a == b * a - r * a;
  }

  lemma Distributes(q: nat, b: nat, r: nat, a: nat)
    ensures (q * b + r) * a == q * (a * b) + r * a
  {
    assert q * (a * b) == q * b * a;
  }

  /** Dividing by `a` and then by `b` is dividing by their product. */
  lemma DivideTwice(n: nat, a: nat, b: nat)
    requires a > 0 && b > 0
    ensures a * b > 0
    ensures n / a / b == n / (a * b)
    ensures n % (a * b) == n / a % b * a + n % a
  {
    TimesGrows(a, b);
    Recombined(n, a, b);
    RemainderFits(n / a % b, b, n % a, a);
    SplitIsDivision(n, a * b, n / a / b, n / a % b * a + n % a);
  }

  lemma Recombined(n: nat, a: nat, b: nat)
    requires a > 0 && b > 0
    ensures n == n / a / b * (a * b) + (n / a % b * a + n % a)
  {
    Splits(n, a);
    Splits(n / a, b);
    Distributes(n / a / b, b, n / a % b, a);
  }

  lemma Splits(n: nat, m: nat)
    requires m > 0
    ensures n == n / m * m + n % m
  {
  }
}
