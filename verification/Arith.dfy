/** Facts about products and quotients that the solver does not find alone. */
module Arith {

  lemma MulMono(a: int, b: int, c: nat)
    requires a <= b
    ensures a * c <= b * c
  {
    assert (b - a) * c >= 0;
  }

  lemma DivMod(x: int, d: nat)
    requires 0 < d
    ensures x == x / d * d + x % d
  {
  }

  lemma QuotientIs(y: int, d: nat, q: int, r: int)
    requires 0 <= r < d && y == q * d + r
    ensures y / d == q
  {
    var p := y / d;
    assert y == p * d + y % d;
    if p < q { MulMono(p + 1, q, d); } else if q < p { MulMono(q + 1, p, d); }
  }

  lemma DivShift(k: int, x: int, d: nat)
    requires 0 < d
    ensures (k * d + x) / d == k + x / d
  {
    var q, r := x / d, x % d;
    assert k * d + x == (k + q) * d + r;
    QuotientIs(k * d + x, d, k + q, r);
  }

  lemma DivDiv(x: nat, a: nat, b: nat)
    requires 0 < a && 0 < b
    ensures x / a / b == x / (a * b)
  {
    var q := x / a;
    var p := q / b;
    var r := a * (q % b) + x % a;
    assert x == q * a + x % a && q == p * b + q % b;
    assert x == p * (a * b) + r by { assert (p * b) * a == p * (a * b); }
    MulMono(q % b + 1, b, a);
    QuotientIs(x, a * b, p, r);
  }

  lemma DivSum(x: nat, y: nat, z: nat, d: nat)
    requires 0 < d && x <= y + z
    ensures x / d <= y / d + z / d + 1
  {
    var qx, qy, qz := x / d, y / d, z / d;
    assert x == qx * d + x % d && y == qy * d + y % d && z == qz * d + z % d;
    assert qx * d < (qy + qz + 2) * d;
    if qx >= qy + qz + 2 { MulMono(qy + qz + 2, qx, d); }
  }

  lemma DivLess(x: nat, y: nat, d: nat)
    requires 0 < d && x + d <= y
    ensures x / d < y / d
  {
    DivShift(1, x, d);
    assert y < (y / d + 1) * d && (x / d) * d <= x by { QuotientBounds(x, d); QuotientBounds(y, d); }
    if y / d <= x / d {
      MulMono(y / d + 1, x / d + 1, d);
    }
  }

  lemma QuotientPositive(x: nat, d: nat)
    requires 0 < d
    ensures 0 <= x / d <= x
  {
    if x < x / d { MulMono(1, d, x / d); }
  }

  lemma QuotientBounds(x: nat, d: nat)
    requires 0 < d
    ensures x / d * d <= x < (x / d + 1) * d
  {
    assert (x / d + 1) * d == x / d * d + d;
  }

  lemma QuotientAtLeastOne(x: nat, d: nat)
    requires 0 < d <= x
    ensures 1 <= x / d
  {
    DivShift(1, x - d, d);
    QuotientPositive(x - d, d);
  }

  lemma QuotientSmaller(x: nat, d: nat)
    requires 2 <= d <= x
    ensures 1 <= x / d < x
  {
    QuotientAtLeastOne(x, d);
    QuotientBounds(x, d);
    MulMono(2, d, x / d);
  }
}
