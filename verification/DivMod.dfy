/** Facts about products, quotients and remainders that the solver does not find by itself. */
module DivMod {
  lemma MulBounds(a: int, p: nat)
    ensures a >= 0 ==> a * p >= 0
    ensures a >= 1 ==> a * p >= p
    ensures a <= -1 ==> a * p + p <= 0
  {
  }

  /** Quotient and remainder are unique. */
  lemma EuclidUnique(p: nat, q: int, r: int, q': int, r': int)
    requires 0 <= r < p && 0 <= r' < p && q * p + r == q' * p + r'
    ensures q == q' && r == r'
  {
    assert (q - q') * p == r' - r;
    MulBounds(q - q', p);
  }

  lemma Quotient(a: nat, m: nat, q: nat, r: nat)
    requires r < m && a == r + m * q
    ensures a / m == q && a % m == r
  {
    assert a == a / m * m + a % m;
    EuclidUnique(m, q, r, a / m, a % m);
  }

  lemma QuotientBelow(v: nat, p: nat, q: nat)
    requires p > 0
    ensures 0 <= v / p
    ensures v < p * q ==> v / p < q
  {
    assert v == v / p * p + v % p;
    MulBounds(v / p, p);
    MulBounds(q - v / p, p);
  }

  lemma SmallMod(t: nat, p: nat)
    requires t < p
    ensures t % p == t
  {
    Quotient(t, p, 0, t);
  }

  lemma ModPeriod(t: nat, m: nat, p: nat)
    requires p > 0
    ensures (t + m * p) % p == t % p
  {
    assert t == t / p * p + t % p;
    assert p * (t / p + m) == t / p * p + m * p;
    Quotient(t + m * p, p, t / p + m, t % p);
  }
}
