/** Quotients and remainders. */
module Arithmetic {

  lemma MulAtLeast(n: int, d: int)
    requires n > 0 && d >= 1
    ensures n * d >= n
  {
  }

  lemma MulMonotone(n: nat, a: int, b: int)
    requires a <= b
    ensures n * a <= n * b
  {
  }

  /** The quotient and the remainder are determined. */
  lemma ModUnique(x: int, n: int, q: int, r: int)
    requires 0 <= r < n && x == n * q + r
    ensures x % n == r && x / n == q
  {
    var d := x / n - q;
    assert n * d == r - x % n;
    if d >= 1 {
      MulAtLeast(n, d);
    } else if d <= -1 {
      MulAtLeast(n, -d);
    }
  }

  lemma ShiftedMod(k: int, n: int)
    requires n > 0
    ensures (k + n) % n == k % n
  {
    ModUnique(k + n, n, k / n + 1, k % n);
  }

  /** Numbers less than n apart have different remainders. */
  lemma ModDistinct(i: int, j: int, n: int)
    requires j < i < j + n
    ensures i % n != j % n
  {
    var r := j % n + (i - j);
    assert j + (i - j) == n * (j / n) + r;
    if r < n {
      ModUnique(i, n, j / n, r);
    } else {
      ModUnique(i, n, j / n + 1, r - n);
    }
  }

  lemma Distribute(n: int, a: int, b: int)
    ensures n * a + n * b == n * (a + b)
  {
  }

  /** Reducing a summand first makes no difference. */
  lemma ModAdds(a: int, b: int, n: int)
    requires n > 0
    ensures (a % n + b) % n == (a + b) % n
  {
    var q, r := (a % n + b) / n, (a % n + b) % n;
    Distribute(n, a / n, q);
    ModUnique(a + b, n, a / n + q, r);
  }

  /** Reducing by a multiple of n first makes no difference. */
  lemma ModTwice(x: int, n: int, m: int)
    requires n > 0 && m > 0 && n * m > 0
    ensures x % (n * m) % n == x % n
  {
    var q, r := x / (n * m), x % (n * m);
    assert n * m * q == n * (m * q);
    Distribute(n, m * q, r / n);
    ModUnique(x, n, m * q + r / n, r % n);
  }

  lemma DivMonotone(a: nat, b: nat, n: nat)
    requires a <= b && n > 0
    ensures a / n <= b / n
  {
    if b / n + 1 <= a / n {
      MulMonotone(n, b / n + 1, a / n);
    }
  }
}
