/** Facts about whole numbers that the solver does not find by itself. */
module Arithmetic {
  lemma MulMonotone(a: nat, b: nat, d: nat)
    requires a <= b
    ensures a * d <= b * d
  {
  }

  lemma DivUnique(x: nat, d: nat, q: nat, r: nat)
    requires d > 0 && r < d && x == q * d + r
    ensures x / d == q
  {
    var p := x / d;
    assert x == p * d + x % d;
    if p < q { MulMonotone(p + 1, q, d); }
    if q < p { MulMonotone(q + 1, p, d); }
  }

  lemma Associate(a: nat, b: nat, c: nat)
    ensures a * b * c == a * (b * c)
  {
  }

  lemma DivMonotone(n: nat, p: nat, q: nat)
    requires 0 < p <= q
    ensures n / q <= n / p
  {
    var x, y := n / p, n / q;
    assert n == p * x + n % p && n == q * y + n % q;
    if y > x {
      MulMonotone(x + 1, y, q);
      MulMonotone(p, q, x + 1);
    }
  }

  /** Dividing by 256 and then by `b` is dividing by their product. */
  lemma DivTwice(v: nat, b: nat)
    requires b > 0
    ensures v / 256 / b == v / (256 * b)
  {
    var q, r := v / 256, v % 256;
    var p, t := q / b, q % b;
    assert q == p * b + t;
    Associate(p, b, 256);
    DivUnique(v, 256 * b, p, 256 * t + r);
  }
}
