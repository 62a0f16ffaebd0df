/** Products and quotients by a divisor that is not a constant. */
module Arithmetic {

  function Abs(x: int): (y: nat)
    ensures y == x || y == -x
  {
    if x < 0 then -x else x
  }

  lemma Monotone(d: int, x: int, y: int)
    requires d >= 0 && x <= y
    ensures x * d <= y * d
  {
    var gap := y - x;
    assert y * d == x * d + gap * d;
  }

  lemma OneMore(q: int, d: int)
    ensures (q + 1) * d == q * d + d
  {
  }

  /** A number has one quotient and one remainder. */
  lemma Quotient(n: int, d: int, q: int, r: int)
    requires d > 0 && n == q * d + r && 0 <= r < d
    ensures n / d == q && n % d == r
  {
    var p := n / d;
    assert n == p * d + n % d;
    if p > q {
      Monotone(d, q + 1, p);
    } else if p < q {
      Monotone(d, p + 1, q);
    }
  }

  lemma MultipleOf(d: int, q: int)
    requires d > 0
    ensures q * d % d == 0 && q * d / d == q
  {
    Quotient(q * d, d, q, 0);
  }

  lemma QuotientShift(x: int, d: int, q: int)
    requires d > 0
    ensures (x + q * d) / d == x / d + q
  {
    assert x == x / d * d + x % d;
    assert (x / d + q) * d == x / d * d + q * d;
    Quotient(x + q * d, d, x / d + q, x % d);
  }

  lemma QuotientBelow(x: int, d: int, q: int)
    requires d > 0 && x < q * d
    ensures x / d < q
  {
    if x / d >= q {
      Monotone(d, q, x / d);
    }
  }

  lemma QuotientBounds(x: nat, d: int)
    requires d > 0
    ensures x / d >= 0 && 0 <= x / d * d <= x && x - d < x / d * d
  {
    var q := x / d;
    assert x == d * q + x % d;
    Monotone(d, 0, q);
  }
}
