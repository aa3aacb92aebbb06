// Division by a variable, kept in small lemmas so that no larger proof meets it.

module Arithmetic {

  lemma MulMonotone(w: int, a: int, b: int)
    requires w >= 0 && a <= b
    ensures w * a <= w * b
  {
    assert w * (b - a) >= 0;
  }

  lemma Distribute(a: int, b: int, c: int)
    ensures (a + b) * c == a * c + b * c
  {
  }

  lemma QuotientAtMost(x: int, d: int, q: int, r: int)
    requires x == d * q + r && r >= 0 && d >= 1 && q >= 0
    ensures q <= x
  {
  }

  lemma DivMod(x: nat, d: int)
    requires d > 0
    ensures x == d * (x / d) + x % d
    ensures 0 <= x / d <= x
    ensures 0 <= x % d < d
  {
    QuotientAtMost(x, d, x / d, x % d);
  }

  /** Quotient and remainder are the only pair with this shape. */
  lemma DivModUnique(x: nat, d: int, q: int, r: int)
    requires d > 0 && 0 <= r < d && x == d * q + r
    ensures x / d == q && x % d == r
  {
    DivMod(x, d);
    var p := x / d;
    assert d * (q - p) == x % d - r;
    if q > p {
      MulMonotone(d, 1, q - p);
    } else if q < p {
      MulMonotone(d, 1, p - q);
    }
  }

  lemma DivideTwice(x: nat, a: nat, b: nat)
    requires a > 0 && b > 0
    ensures a * b > 0 && x / a / b == x / (a * b)
  {
    MulMonotone(a, 1, b);
    DivMod(x, a);
    DivMod(x / a, b);
    var q, r := x / a / b, (x / a) % b * a + x % a;
    assert x == a * (b * q + (x / a) % b) + x % a;
    assert a * (b * q) == (a * b) * q;
    assert (x / a) % b * a == a * ((x / a) % b);
    MulMonotone(a, (x / a) % b, b - 1);
    MulMonotone(a, 0, (x / a) % b);
    assert a * (b - 1) == a * b - a;
    DivModUnique(x, a * b, q, r);
  }
}
