/** Facts about products and quotients of whole numbers that the arithmetic modules share. */
module Division {

  lemma Scale(x: nat, y: nat, k: nat)
    requires x <= y
    ensures x * k <= y * k
  {
  }

  lemma Distribute(x: int, y: int, k: int)
    ensures (x - y) * k == x * k - y * k
  {
  }

  lemma SmallMultiple(x: int, d: nat)
    requires 0 < x * d + d && x * d < d
    ensures x == 0
  {
    if x >= 1 {
      Distribute(x, 1, d);
    } else if x < 0 {
      Distribute(x, -1, d);
    }
  }

  /** Quotient and remainder are determined. */
  lemma Divided(d: nat, x: int, q: int, r: nat)
    requires r < d && x == q * d + r
    ensures x / d == q && x % d == r
  {
    var q0, r0 := x / d, x % d;
    assert x == q0 * d + r0;
    Distribute(q, q0, d);
    SmallMultiple(q - q0, d);
  }

  lemma Quotient(x: nat, d: nat)
    requires d > 0
    ensures x / d * d <= x < x / d * d + d
  {
  }

  lemma QuotientMonotone(x: nat, y: nat, d: nat)
    requires x <= y && d > 0
    ensures x / d <= y / d
  {
    Quotient(x, d);
    Quotient(y, d);
    if x / d > y / d {
      Scale(y / d + 1, x / d, d);
      assert false;
    }
  }

  /** A number by its bytes. */
  lemma ByBytes(n: nat)
    ensures n == 256 * (n / 256) + n % 256
    ensures n / 256 == 256 * (n / 65536) + n / 256 % 256
    ensures n / 65536 == 256 * (n / 16777216) + n / 65536 % 256
    ensures n / 16777216 == 256 * (n / 4294967296) + n / 16777216 % 256
  {
    DividedTwice(n, 256);
    DividedTwice(n, 65536);
    DividedTwice(n, 16777216);
  }

  lemma DividedTwice(n: nat, d: nat)
    requires d > 0
    ensures n / (d * 256) == n / d / 256
  {
    var q := n / d;
    Quotient(n, d);
    Quotient(q, 256);
    NestedBounds(n, d, q, q / 256);
    Divided(d * 256, n, q / 256, n - q / 256 * (d * 256));
  }

  lemma NestedBounds(n: nat, d: nat, q: nat, p: nat)
    requires q * d <= n < q * d + d && p * 256 <= q < p * 256 + 256
    ensures p * (d * 256) <= n < p * (d * 256) + d * 256
  {
    Scale(p * 256, q, d);
    Scale(q + 1, p * 256 + 256, d);
    Distribute(q, -1, d);
    Regroup(p, d);
  }

  lemma Regroup(x: nat, d: nat)
    ensures x * 256 * d == x * (d * 256)
    ensures (x * 256 + 256) * d == x * (d * 256) + d * 256
  {
  }
}
