/** Small facts about multiplication and division that the solver needs spelt out. */
module Arith {

  lemma MulMonotone(a: nat, b: nat, c: nat)
    requires a <= b
    ensures a * c <= b * c
  {
  }

  lemma DivMod(a: nat, d: nat)
    requires 0 < d
    ensures (a / d) * d + a % d == a && 0 <= a % d < d
  {
  }

  /** Floor division brackets its numerator, in the `d * q` shape the callers use. */
  lemma DivFloor(a: nat, d: nat)
    requires 0 < d
    ensures d * (a / d) <= a < d * (a / d) + d
  {
  }

  lemma DivBelow(a: nat, d: nat, m: nat)
    requires 0 < d && a <= m * d
    ensures a / d <= m
  {
  }

  /** Dividing a multiple of d by d gives the multiplier back. */
  lemma DivExact(m: nat, d: nat)
    requires 0 < d
    ensures (m * d) / d == m
  {
    var q := (m * d) / d;
    DivMod(m * d, d);
    if q < m {
      MulMonotone(q + 1, m, d);
    } else if m < q {
      MulMonotone(m + 1, q, d);
    }
  }
}
