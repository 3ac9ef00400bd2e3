/** Multiples of a number leave no remainder. */
module Multiples {
  lemma TimesNonzero(m: nat, d: int)
    ensures d >= 1 ==> m * d >= m
    ensures d <= -1 ==> m * d <= 0 - m
  {
  }

  lemma Quotient(a: nat, m: nat, k: nat, r: nat, q: nat)
    requires a == m * k + r && r < m && a == m * q
    ensures r == 0
  {
    assert m * (q - k) == m * q - m * k;
    TimesNonzero(m, q - k);
  }

  lemma MultipleMod(q: nat, m: nat)
    requires m >= 1
    ensures (m * q) % m == 0
  {
    var a := m * q;
    Quotient(a, m, a / m, a % m, q);
  }
}
