/** Facts about products and rounded-up quotients. */
module Arithmetic {
  import opened Common

  lemma MultiplyMonotone(p: nat, q: nat, d: nat)
    requires p <= q
    ensures p * d <= q * d
  {
    assert q * d == p * d + (q - p) * d;
  }

  lemma DivideAtLeast(a: nat, d: nat, q: nat)
    requires d > 0
    ensures a / d >= q <==> a >= q * d
  {
    var c := a / d;
    assert a == c * d + a % d;
    if c >= q {
      MultiplyMonotone(q, c, d);
    } else {
      MultiplyMonotone(c + 1, q, d);
      assert (c + 1) * d == c * d + d;
    }
  }

  /** `ceil(n / d)` is at most k exactly when k blocks of d hold n. */
  lemma CeilDivAtMost(n: nat, d: nat, k: nat)
    requires d > 0
    ensures CeilDiv(n, d) <= k <==> n <= k * d
  {
    assert (k + 1) * d == k * d + d;
    DivideAtLeast(n + d - 1, d, k + 1);
  }

  lemma CeilDivIs(n: nat, d: nat, k: nat)
    requires d > 0 && k * d < n
    ensures CeilDiv(n, d) > k
    ensures n <= k * d + d ==> CeilDiv(n, d) == k + 1
  {
    assert (k + 1) * d == k * d + d;
    CeilDivAtMost(n, d, k);
    CeilDivAtMost(n, d, k + 1);
  }

  lemma CeilDivStep(n: nat, d: nat)
    requires n > d > 0
    ensures CeilDiv(n, d) == 1 + CeilDiv(n - d, d)
  {
    var k := CeilDiv(n - d, d);
    assert (k + 1) * d == k * d + d;
    CeilDivAtMost(n - d, d, k);
    CeilDivAtMost(n, d, k + 1);
    CeilDivAtMost(n - d, d, 0);
    assert k * d == (k - 1) * d + d;
    CeilDivAtMost(n - d, d, k - 1);
    CeilDivAtMost(n, d, k);
  }
}
