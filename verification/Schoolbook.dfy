/** Schoolbook multiplication of four-digit numbers: sixteen digit products, each cut into a high and
    a low digit, summed by columns. Digits are most significant first, as the C arrays are. */
module Schoolbook {
  import opened Bits
  import opened WordShift

  lemma {:induction false} Regroup(a: int, c: int, b: int, d: int)
    ensures a * c * (b * d) == a * b * (c * d)
  {
    MulAssoc(a, c, b * d);
    MulAssoc(c, b, d);
    MulAssoc(b, c, d);
    Commute(b, c);
    MulAssoc(a, b, c * d);
  }

  lemma {:induction false} Row(a: int, c: int, b0: int, b1: int, b2: int, b3: int, c1: int, c2: int, c3: int)
    ensures a * c * (b0 * c3 + b1 * c2 + b2 * c1 + b3)
         == a * b0 * (c * c3) + a * b1 * (c * c2) + a * b2 * (c * c1) + a * b3 * c
  {
    Regroup(a, c, b0, c3);
    Regroup(a, c, b1, c2);
    Regroup(a, c, b2, c1);
    Regroup(a, c, b3, 1);
    Spread(a * c, b0 * c3, b1 * c2, b2 * c1, b3);
  }

  lemma {:induction false} Spread(x: int, s: int, t: int, u: int, v: int)
    ensures x * (s + t + u + v) == x * s + x * t + x * u + x * v
    ensures (s + t + u + v) * x == s * x + t * x + u * x + v * x
  {}

  /** The product of two four-digit numbers with place values c3, c2, c1 and 1. */
  lemma {:induction false} Expand(a0: int, a1: int, a2: int, a3: int, b0: int, b1: int, b2: int, b3: int,
               c1: int, c2: int, c3: int)
    ensures (a0 * c3 + a1 * c2 + a2 * c1 + a3) * (b0 * c3 + b1 * c2 + b2 * c1 + b3)
         == a0 * b0 * (c3 * c3) + a0 * b1 * (c3 * c2) + a0 * b2 * (c3 * c1) + a0 * b3 * c3
          + (a1 * b0 * (c2 * c3) + a1 * b1 * (c2 * c2) + a1 * b2 * (c2 * c1) + a1 * b3 * c2)
          + (a2 * b0 * (c1 * c3) + a2 * b1 * (c1 * c2) + a2 * b2 * (c1 * c1) + a2 * b3 * c1)
          + (a3 * b0 * c3 + a3 * b1 * c2 + a3 * b2 * c1 + a3 * b3)
  {
    var b := b0 * c3 + b1 * c2 + b2 * c1 + b3;
    Spread(b, a0 * c3, a1 * c2, a2 * c1, a3);
    Row(a0, c3, b0, b1, b2, b3, c1, c2, c3);
    Row(a1, c2, b0, b1, b2, b3, c1, c2, c3);
    Row(a2, c1, b0, b1, b2, b3, c1, c2, c3);
    Row(a3, 1, b0, b1, b2, b3, c1, c2, c3);
  }

  lemma {:induction false} ProductBound(a: nat, b: nat, t: nat)
    requires a < t && b < t
    ensures 0 <= a * b <= (t - 1) * (t - 1)
    ensures 0 <= a * b < t * t
  {
    MulLe(a, t - 1, b);
    Commute(b, t - 1);
    MulLe(b, t - 1, t - 1);
    Commute(t, t - 1);
    Commute(t - 1, b);
  }
}
