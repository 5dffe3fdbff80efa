/** Facts about integer division and remainder by a positive divisor, as used by the
    Gregorian rules (divisors 4, 100 and 400) and by the weekday count (divisor 7). */
module Arithmetic {

  /** A quotient and remainder that rebuild `n` are the quotient and remainder of `n`. */
  lemma DivModUnique(n: int, k: int, q: int, r: int)
    requires k > 0 && n == k * q + r && 0 <= r < k
    ensures n / k == q && n % k == r
  {
    var q', r' := n / k, n % k;
    assert k * (q - q') == r' - r;
    if q > q' {
      MulAtLeast(k, q - q');
    } else if q < q' {
      MulAtLeast(k, q' - q);
    }
  }

  lemma MulAtLeast(k: int, d: int)
    requires k > 0 && d >= 1
    ensures k * d >= k
  {
  }

  /** Adding `m` multiples of `k` adds `m` to the quotient and leaves the remainder. */
  lemma AddMultiple(n: int, k: int, m: int)
    requires k > 0
    ensures (n + k * m) / k == n / k + m
    ensures (n + k * m) % k == n % k
  {
    DivModUnique(n + k * m, k, n / k + m, n % k);
  }

  /** Reducing the first summand modulo `k` first gives the same remainder. */
  lemma AddMod(a: int, n: int, k: int)
    requires k > 0
    ensures (a + n) % k == (a % k + n) % k
  {
    var b := a % k + n;
    DivModUnique(a + n, k, a / k + b / k, b % k);
  }

  /** Stepping `n` up by one raises its quotient by `k` exactly when `k` divides `n`. */
  lemma DivStep(n: int, k: int)
    requires k > 0
    ensures n / k - (n - 1) / k == if n % k == 0 then 1 else 0
  {
    var q, r := (n - 1) / k, (n - 1) % k;
    if r == k - 1 {
      DivModUnique(n, k, q + 1, 0);
    } else {
      DivModUnique(n, k, q, r + 1);
    }
  }

  /** A multiple of `a * b` is a multiple of `b`. */
  lemma MultipleOfFactor(n: int, a: int, b: int)
    requires a > 0 && b > 0 && n % (a * b) == 0
    ensures n % b == 0
  {
    var q := n / (a * b);
    assert n == (a * b) * q;
    DivModUnique(n, b, a * q, 0);
  }
}
