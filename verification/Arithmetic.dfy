/** Facts about products, quotients and remainders that the layout proofs share. */
module Arithmetic {

  lemma ProductGrows(a: nat, b: nat, d: nat)
    requires a <= b
    ensures a * d <= b * d
    ensures (a + 1) * d == a * d + d
  {
  }

  lemma QuotientBounds(n: nat, d: nat)
    requires 0 < d
    ensures n / d * d <= n < n / d * d + d
  {
    assert n == n / d * d + n % d;
  }

  lemma QuotientIs(n: nat, d: nat, q: nat)
    requires 0 < d && q * d <= n < q * d + d
    ensures n / d == q
  {
    QuotientBounds(n, d);
    var p := n / d;
    if p < q {
      ProductGrows(p, q, d);
      ProductGrows(p + 1, q, d);
    } else if q < p {
      ProductGrows(q, p, d);
      ProductGrows(q + 1, p, d);
    }
  }

  lemma Regroup(q: nat, p: nat, d: nat)
    ensures q * p * d == q * (d * p)
    ensures (q * p + p) * d == q * p * d + d * p
  {
    assert (q * p + p) * d == q * p * d + p * d;
  }

  lemma DivideTwice(n: nat, d: nat, p: nat)
    requires d > 0 && p > 0
    ensures d * p > 0 && n / d / p == n / (d * p)
  {
    var part := n / d;
    var q := part / p;
    QuotientBounds(n, d);
    QuotientBounds(part, p);
    QuotientInBounds(n, d, p, part, q);
    QuotientIs(n, d * p, q);
  }

  lemma QuotientInBounds(n: nat, d: nat, p: nat, part: nat, q: nat)
    requires d > 0 && p > 0
    requires part * d <= n < part * d + d && q * p <= part < q * p + p
    ensures d * p > 0 && q * (d * p) <= n < q * (d * p) + d * p
  {
    Regroup(q, p, d);
    var low, high := q * p, q * p + p;
    ProductGrows(low, part, d);
    ProductGrows(part + 1, high, d);
    ProductGrows(part, part, d);
    ProductGrows(1, d, p);
  }
}
