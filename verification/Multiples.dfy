/** Multiples of a number, and division by it. */
module Multiples {

  lemma MultipleOf(q: nat, a: nat)
    requires a > 0
    ensures q * a % a == 0
  {
    var n := q * a;
    var d := q - n / a;
    assert d * a == n % a;
  }

  lemma {:induction false} NextMultiple(p: nat, q: nat, a: nat)
    requires p < q
    ensures p * a + a <= q * a
    decreases q
  {
    assert q * a == (q - 1) * a + a;
    if p < q - 1 { NextMultiple(p, q - 1, a); }
  }

  lemma MultiplesApart(m: nat, r: nat, a: nat)
    requires a > 0 && m % a == 0 && r % a == 0 && m < r
    ensures m + a <= r
  {
    var p, q := m / a, r / a;
    assert m == p * a && r == q * a;
    if q < p { NextMultiple(q, p, a); } else if p < q { NextMultiple(p, q, a); }
  }

  lemma MultipleTrans(a: nat, b: nat, c: nat)
    requires a > 0 && b > 0 && b % a == 0 && c % b == 0
    ensures c % a == 0
  {
    var p, q := b / a, c / b;
    assert c == q * b && b == p * a;
    assert c == (q * p) * a;
    MultipleOf(q * p, a);
  }

  lemma DivideOnce(n: nat, d: nat, q: nat, r: nat)
    requires d > 0 && n == q * d + r && r < d
    ensures n / d == q
  {
    var p := n / d;
    assert n == p * d + n % d;
    if p < q { NextMultiple(p, q, d); } else if q < p { NextMultiple(q, p, d); }
  }
}
