/** The few facts about products and quotients that index arithmetic needs. */
module Arithmetic {

  lemma MulMono(a: int, b: int, n: nat)
    requires a <= b
    ensures a * n <= b * n
  {
    assert b * n - a * n == (b - a) * n >= 0;
  }

  // Two digits packed into one number can be read back.
  lemma DigitsUnique(a: nat, b: nat, c: nat, d: nat, n: nat)
    requires b < n && d < n && a * n + b == c * n + d
    ensures a == c && b == d
  {
    if a < c {
      assert (a + 1) * n == a * n + n;
      MulMono(a + 1, c, n);
    } else if c < a {
      assert (c + 1) * n == c * n + n;
      MulMono(c + 1, a, n);
    }
  }

  lemma DivMod(a: nat, n: nat, b: nat)
    requires b < n
    ensures (a * n + b) / n == a && (a * n + b) % n == b
  {
    var x := a * n + b;
    Quotient(x, n);
    DigitsUnique(a, b, x / n, x % n, n);
  }

  lemma Quotient(x: nat, n: nat)
    requires n > 0
    ensures 0 <= x / n && 0 <= x % n < n
    ensures x == x / n * n + x % n
  {
  }

  // A packed pair of digits stays below the product of their ranges.
  lemma PackBound(a: nat, m: nat, b: nat, n: nat)
    requires a < m && b < n
    ensures a * n + b < m * n
  {
    MulMono(a + 1, m, n);
    assert (a + 1) * n == a * n + n;
  }

  lemma UnpackBound(x: nat, m: nat, n: nat)
    requires n > 0 && x < m * n
    ensures x / n < m
  {
    Quotient(x, n);
    if x / n >= m {
      MulMono(m, x / n, n);
    }
  }
}
