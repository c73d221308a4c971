// Products and quotients of natural numbers, in the small steps that the other modules need.
module Division {
  import opened Bytes

  lemma ProductFits(a: nat, b: nat)
    requires 0 < a < U32 && 0 < b < U32
    ensures 0 < a * b < U64
  {
    ProductGrows(a, U32, b);
    assert U32 * b <= U32 * U32 - U32;
    assert 0 < a * b;
  }

  lemma ProductGrows(a: nat, c: nat, b: nat)
    requires a <= c
    ensures a * b <= c * b
  {
    assert (c - a) * b >= 0;
  }

  lemma QuotientBounds(n: nat, d: nat)
    requires d > 0
    ensures n / d * d <= n < n / d * d + d
  {
    assert n == n / d * d + n % d;
  }

  lemma QuotientAtMost(n: nat, d: nat, k: nat)
    requires d > 0 && n < (k + 1) * d
    ensures n / d <= k
  {
    QuotientBounds(n, d);
    if n / d >= k + 1 {
      ProductGrows(k + 1, n / d, d);
    }
  }

  lemma QuotientAtLeast(n: nat, d: nat, k: nat)
    requires d > 0 && n >= k * d
    ensures n / d >= k
  {
    QuotientBounds(n, d);
    if n / d + 1 <= k {
      ProductGrows(n / d + 1, k, d);
    }
  }
}
