/** Small facts about products, quotients and remainders of naturals. */
module Numbers {

  lemma Distribute(a: nat, b: nat, c: nat)
    ensures a * (b + c) == a * b + a * c
  {}

  lemma MulMonotone(a: nat, b: nat, c: nat)
    requires a <= b
    ensures c * a <= c * b
  {
    Distribute(c, a, b - a);
  }

  lemma MulPositive(a: nat, b: nat)
    requires a > 0
    ensures a * b > 0 <==> b > 0
  {}

  lemma DivModUnique(t: nat, size: nat, q: nat, r: nat)
    requires 0 <= r < size && t == q * size + r
    ensures t / size == q && t % size == r
  {
    QuotientUnique(size, q, r, t / size, t % size);
  }

  lemma QuotientUnique(size: nat, q: nat, r: nat, p: nat, s: nat)
    requires 0 <= r < size && 0 <= s < size && q * size + r == p * size + s
    ensures p == q && r == s
  {
    if p > q {
      Multiple(p, q + 1, size);
    } else if q > p {
      Multiple(q, p + 1, size);
    }
  }

  lemma Multiple(a: nat, b: nat, size: nat)
    requires a >= b
    ensures a * size >= b * size
    ensures b > 0 ==> b * size == (b - 1) * size + size
  {
    assert (a - b) * size >= 0;
  }

  lemma OneMore(q: nat, size: nat)
    ensures (q + 1) * size == q * size + size
  {}

  lemma ZeroMod(n: nat)
    requires n > 0
    ensures 0 % n == 0
  {}
}
