/** Facts about division and remainder by a positive divisor that several models share. */
module Arithmetic {

  lemma MulGrows(n: nat, d: int)
    requires d >= 1
    ensures n * d >= n
  {
  }

  /** Quotient and remainder are determined by the division equation. */
  lemma Unique(a: int, n: nat, q: int, r: nat)
    requires n > 0 && r < n && a == n * q + r
    ensures a / n == q && a % n == r
  {
    var p := a / n;
    assert a == n * p + a % n;
    assert n * (q - p) == a % n - r;
    if q > p {
      MulGrows(n, q - p);
    } else if q < p {
      assert n * (p - q) == r - a % n;
      MulGrows(n, p - q);
    }
  }

  lemma AddMultiple(a: int, n: nat, k: int)
    requires n > 0
    ensures (a + n * k) / n == a / n + k
    ensures (a + n * k) % n == a % n
  {
    assert a + n * k == n * (a / n + k) + a % n;
    Unique(a + n * k, n, a / n + k, a % n);
  }

  lemma NextWraps(a: nat, n: nat)
    requires n > 0
    ensures (a % n + 1) % n == (a + 1) % n
  {
    assert a + 1 == (a % n + 1) + n * (a / n);
    AddMultiple(a % n + 1, n, a / n);
  }

  /** Fewer than `n` steps never come back to the same remainder. */
  lemma WrapIsInjective(a: nat, b: nat, n: nat)
    requires n > 0 && a <= b < a + n
    ensures a % n == b % n <==> a == b
  {
    var p, q := a / n, b / n;
    assert a == n * p + a % n && b == n * q + b % n;
    if a % n == b % n {
      assert b - a == n * (q - p);
      if q > p {
        MulGrows(n, q - p);
      } else if q < p {
        assert a - b == n * (p - q);
        MulGrows(n, p - q);
      }
    }
  }

  lemma WrapPeriod(a: nat, n: nat)
    requires n > 0
    ensures (a + n) % n == a % n
  {
    AddMultiple(a, n, 1);
  }

  /** Integer division against a multiplication. */
  lemma DivAtLeast(x: nat, n: nat, k: int)
    requires n > 0
    ensures x / n >= k <==> x >= k * n
  {
    var q := x / n;
    assert x == n * q + x % n;
    if q >= k {
      assert n * (q - k) >= 0;
      assert n * q == n * (q - k) + k * n;
    } else {
      MulGrows(n, k - q);
      assert n * k == n * (k - q) + n * q;
      assert k * n == n * k;
    }
  }

  lemma HalfThenDiv(x: nat, n: nat)
    requires n > 0
    ensures x / 2 / n == x / (2 * n)
  {
    var q := x / 2 / n;
    var r := (x / 2) % n;
    assert x / 2 == n * q + r;
    assert x == (2 * n) * q + (2 * r + x % 2);
    Unique(x, 2 * n, q, 2 * r + x % 2);
  }

  lemma DivShrinks(x: nat, n: nat)
    requires n >= 1
    ensures 0 <= x / n <= x
    ensures n >= 2 ==> x / n <= x / 2
  {
    DivAtLeast(x, n, 0);
    Shrinks(x, n, x / n, x % n);
  }

  lemma Shrinks(x: nat, n: nat, q: nat, r: nat)
    requires n >= 1 && x == n * q + r
    ensures q <= x
    ensures n >= 2 ==> q <= x / 2
  {
    MulBound(1, q, n, q);
    if n >= 2 {
      MulBound(2, q, n, q);
    }
  }

  lemma MulBound(a: nat, b: nat, x: nat, y: nat)
    requires a <= x && b <= y
    ensures a * b <= x * y
  {
    assert (x - a) * b >= 0 && x * b == a * b + (x - a) * b;
    assert x * (y - b) >= 0 && x * y == x * b + x * (y - b);
  }

  /** Whole multiples pass through a division in two steps as in one. */
  lemma DivInTwoSteps(x: nat, y: nat, n: nat)
    requires n > 0 && x <= y
    ensures x / n * n <= x && y / n == x / n + (y - x / n * n) / n
  {
    var q := x / n;
    assert x == n * q + x % n;
    AddMultiple(y - q * n, n, q);
    assert y - q * n + n * q == y;
  }

  lemma MulMonotone(a: nat, b: nat, n: nat)
    requires a <= b
    ensures a * n <= b * n
  {
    assert b * n == a * n + (b - a) * n;
  }

  lemma DoubleProduct(a: int, b: int)
    ensures 2 * (a * b) == (2 * a) * b
  {
  }

  lemma MulDistributes(a: int, b: int, n: int)
    ensures (a + b) * n == a * n + b * n
  {
  }

  /** The last multiple of `n` up to `t`. */
  lemma LastMultiple(t: nat, n: nat)
    requires n > 0
    ensures n * (t / n) % n == 0 && n * (t / n) <= t < n * (t / n) + n
    ensures t / n * n == n * (t / n)
  {
    var x := n * (t / n);
    assert t == x + t % n;
    Unique(x, n, t / n, 0);
  }
}
