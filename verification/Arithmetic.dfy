/** Facts about products, quotients and remainders. */
module Arithmetic {
  lemma MulMono(a: nat, b: nat, c: nat, d: nat)
    requires a <= c && b <= d
    ensures a * b <= c * d
  {
    assert a * b <= c * b;
    assert c * b <= c * d;
  }

  lemma Square(m: nat)
    ensures (m + 1) * (m + 1) == m * m + 2 * m + 1
  {
  }

  lemma QuotientBound(x: nat, base: nat)
    requires base > 0 && x < base * base
    ensures x / base < base
  {
    if base <= x / base { MulMono(base, base, base, x / base); }
  }

  lemma MulAssoc(a: nat, b: nat, c: nat)
    ensures a * (b * c) == (a * b) * c
  {
  }

  lemma Distribute(a: nat, b: nat, c: nat, p: nat)
    ensures (a + b + c) * p == a * p + b * p + c * p
  {
  }

  lemma Euclid(x: nat, m: nat)
    requires m > 0
    ensures x == m * (x / m) + x % m
  {
  }

  lemma Gap(m: nat, a: nat, b: nat)
    requires a < b
    ensures m * a + m <= m * b
  {
    MulMono(m, a + 1, m, b);
    assert m * (a + 1) == m * a + m;
  }

  lemma DivModUnique(m: nat, q: nat, r: nat)
    requires r < m
    ensures (m * q + r) / m == q && (m * q + r) % m == r
  {
    var x := m * q + r;
    Euclid(x, m);
    var d, e := x / m, x % m;
    assert 0 <= e < m;
    if d < q { Gap(m, d, q); }
    if q < d { Gap(m, q, d); }
  }

  lemma BelowSquare(base: nat, q: nat)
    requires base * q < base * base
    ensures q < base
  {
    if base <= q { MulMono(base, base, base, q); }
  }

  lemma Small(m: nat, x: nat)
    requires x < m
    ensures x % m == x
  {
    DivModUnique(m, 0, x);
  }
}
