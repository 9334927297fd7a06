/** Quotients and remainders are unique. */
module Arithmetic {
  lemma {:induction false} ProductAtLeast(p: nat, d: nat)
    requires d > 0
    ensures p * d >= p
  {
    if d > 1 {
      ProductAtLeast(p, d - 1);
      assert p * d == p * (d - 1) + p;
    }
  }

  lemma {:induction false} SameQuotient(p: nat, q1: nat, r1: nat, q2: nat, r2: nat)
    requires p * q1 + r1 == p * q2 + r2 && r1 < p && r2 < p
    ensures q1 == q2 && r1 == r2
  {
    if q1 < q2 {
      ProductAtLeast(p, q2 - q1);
    } else if q2 < q1 {
      ProductAtLeast(p, q1 - q2);
    }
  }

  lemma {:induction false} QuotientIs(n: nat, p: nat, q: nat, r: nat)
    requires n == p * q + r && r < p
    ensures n / p == q && n % p == r
  {
    SameQuotient(p, q, r, n / p, n % p);
  }
}
