/** Facts about multiplication and Euclidean division that the solver does not find unaided. */
module Arith {

  lemma MulMonotone(a: int, b: int, s: nat)
    requires a <= b
    ensures a * s <= b * s
  {
    assert b * s - a * s == (b - a) * s;
  }

  /** The quotient is the one multiple of `s` that brackets `m`. */
  lemma DivIsUnique(m: int, s: nat, q: int)
    requires s > 0 && q * s <= m < q * s + s
    ensures m / s == q && m % s == m - q * s
  {
    var d := m / s;
    assert m == d * s + m % s && 0 <= m % s < s;
    if d > q {
      MulMonotone(q + 1, d, s);
    } else if d < q {
      MulMonotone(d + 1, q, s);
    }
  }

  /** A number made of a high part above a low part below `d` splits back into them. */
  lemma SplitDigit(hi: nat, lo: nat, d: nat)
    requires 0 < d && lo < d
    ensures (hi * d + lo) / d == hi && (hi * d + lo) % d == lo
  {
    DivIsUnique(hi * d + lo, d, hi);
  }
}
