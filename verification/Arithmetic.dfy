/** Products and quotients the solver needs help with. */
module Arithmetic {
  lemma MulMonotone(d: nat, x: nat, y: nat)
    ensures x <= y ==> d * x <= d * y
  {}

  lemma DivUnique(m: nat, d: nat, q: nat)
    requires d > 0 && d * q <= m < d * q + d
    ensures m / d == q
  {
    var r := m / d;
    assert d * r <= m < d * r + d;
    MulMonotone(d, r + 1, q);
    MulMonotone(d, q + 1, r);
  }

  lemma DivIsMonotone(m: nat, n: nat, d: nat)
    requires d > 0 && m <= n
    ensures m / d <= n / d
  {
    MulMonotone(d, n / d + 1, m / d);
  }

  lemma RemainderUnique(x: nat, d: nat, q: nat, r: nat)
    requires r < d && x == d * q + r
    ensures x % d == r && x / d == q
  {
    DivUnique(x, d, q);
  }

  lemma MulAssociates(a: nat, b: nat, c: nat)
    ensures a * b * c == a * (b * c)
  {}

  // A multiple of d*m is a multiple of d.
  lemma RoundedMultiple(x: nat, d: nat, m: nat)
    requires d > 0 && m > 0
    ensures d * m > 0 && (x - x % (d * m)) % d == 0
  {
    var q := x / (d * m);
    assert x == d * m * q + x % (d * m);
    MulAssociates(d, m, q);
    RemainderUnique(d * (m * q), d, m * q, 0);
  }
}
