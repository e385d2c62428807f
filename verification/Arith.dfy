/** Division and multiplication facts the solver needs one at a time. */
module Arith {
  lemma DivPositive(a: nat, d: nat)
    requires 1 <= d <= a
    ensures a / d >= 1
  {
  }

  lemma MulLe(a: nat, b: nat, d: nat)
    requires a <= b
    ensures a * d <= b * d
  {
  }

  lemma DivBelow(x: nat, d: nat, q: nat)
    requires d > 0 && x < q * d
    ensures x / d < q
  {
    if x / d >= q {
      MulLe(q, x / d, d);
    }
  }

  lemma DivMod(a: nat, d: nat, q: nat, r: nat)
    requires d > 0 && r < d && a == q * d + r
    ensures a / d == q && a % d == r
  {
    if a / d < q {
      MulLe(a / d + 1, q, d);
    } else if a / d > q {
      MulLe(q + 1, a / d, d);
    }
  }

  lemma FloorLe(a: nat, d: nat)
    requires d > 0
    ensures a / d * d <= a < a / d * d + d
  {
  }

  lemma FloorMultiple(a: nat, d: nat)
    requires 1 <= d <= a
    ensures d <= a / d * d <= a
  {
    DivPositive(a, d);
  }

  lemma DivUnique(v: nat, d: nat, q: nat, r: nat)
    requires d > 0 && r < d && v == q * d + r
    ensures v % d == r
  {
    DivMod(v, d, q, r);
  }
}
