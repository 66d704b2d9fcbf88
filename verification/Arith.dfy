/** Facts about products and quotients that the linear solver does not find. */
module Arith {

  lemma Distribute(p: int, a: int, b: int)
    ensures p * (a + b) == p * a + p * b
  {
  }

  lemma {:induction false} MulMono(a: nat, b: nat, p: nat)
    requires a <= b
    ensures a * p <= b * p && p * a <= p * b
    decreases b - a
  {
    if a < b {
      MulMono(a, b - 1, p);
      Distribute(p, b - 1, 1);
    }
  }

  /** A multiple of p strictly between -p and p is zero. */
  lemma Small(d: int, p: int)
    requires -p < p * d < p
    ensures d == 0
  {
    if d >= 1 {
      MulMono(1, d, p);
    } else if d <= -1 {
      MulMono(1, -d, p);
      Distribute(p, d, -d);
    }
  }

  /** Quotient and remainder are the only pair of their kind. */
  lemma DivUnique(x: nat, p: nat, q: nat, r: nat)
    requires r < p && x == p * q + r
    ensures q == x / p && r == x % p
  {
    Distribute(p, x / p - q, q);
    Small(x / p - q, p);
  }

  lemma DivLess(x: nat, p: nat)
    requires p > 0
    ensures x / p <= x
  {
    MulMono(1, p, x / p);
  }
}
