/** Shift-subtract division on numbers: what every turn of the loop in divmod128 and divmod256 keeps,
    apart from the width of the words that carry it. */
module Division {
  import opened Bits
  import opened WordShift

  /** The loop invariant: `d` collects the quotient bits above bit `k`, `m` is what is left to divide,
      `c` and `a` are the divisor and the quotient bit at place `k`. Once `m` is below the divisor the
      loop ends and `c` and `a` no longer matter. */
  ghost predicate Running(l: nat, r: nat, d: nat, m: nat, c: nat, a: nat, k: nat) {
    && l == r * d + m
    && (r <= m ==>
          && a == Pow2(k)
          && c == r * Pow2(k)
          && m < 2 * c
          && d % (2 * Pow2(k)) == 0)
  }

  lemma {:induction false} Scale(r: nat, k: nat)
    requires k > 0
    ensures r * Pow2(k) == 2 * (r * Pow2(k - 1)) && Pow2(k) == 2 * Pow2(k - 1)
  {}

  lemma {:induction false} MultiplePlus(d: nat, a: nat)
    requires a > 0 && d % (2 * a) == 0
    ensures d % a == 0 && (d + a) % a == 0
  {
    var q := d / (2 * a);
    DivModOf(d, 2 * a);
    MulAssoc(q, 2, a);
    assert d == 2 * q * a + 0 && d + a == (2 * q + 1) * a + 0;
    DivModUnique(2 * q, 0, a);
    DivModUnique(2 * q + 1, 0, a);
  }

  lemma {:induction false} DistributeAdd(r: int, d: int, a: int)
    ensures r * (d + a) == r * d + r * a
  {}

  /** Moving the divisor one place down. */
  lemma {:induction false} NextPlace(l: nat, r: nat, d: nat, m: nat, c: nat, a: nat, k: nat)
    requires r > 0 && l == r * d + m && a == Pow2(k) && c == r * Pow2(k)
    requires m < c && d % a == 0
    ensures Running(l, r, d, m, c / 2, a / 2, if k > 0 then k - 1 else 0)
  {
    if k > 0 {
      Scale(r, k);
    }
  }

  /** One turn of the loop. */
  lemma {:induction false} Turn(l: nat, r: nat, d: nat, m: nat, c: nat, a: nat, k: nat)
    requires Running(l, r, d, m, c, a, k) && 0 < r <= m
    ensures var m' := if c <= m then m - c else m;
            var d' := if c <= m then Or(d, a) else d;
            Running(l, r, d', m', c / 2, a / 2, if k > 0 then k - 1 else 0)
  {
    MultiplePlus(d, a);
    if c <= m {
      assert Pow2(k + 1) == 2 * a;
      OrDisjoint(d, a, k + 1);
      DistributeAdd(r, d, a);
      NextPlace(l, r, d + a, m - c, c, a, k);
    } else {
      NextPlace(l, r, d, m, c, a, k);
    }
  }

  /** The start: aligning the highest bits overshoots by less than one place. */
  lemma {:induction false} Align(l: nat, r: nat, n: nat)
    requires 0 < r <= l < Pow2(n)
    ensures BitLen(r) <= BitLen(l) <= n
    ensures var k := BitLen(l) - BitLen(r);
      && Shl(r, k, Pow2(n)) == r * Pow2(k)
      && Shl(1, k, Pow2(n)) == Pow2(k)
      && l < 2 * (r * Pow2(k))
      && (k == 0 ==> r * Pow2(k) <= l)
  {
    BitLenBounds(l);
    BitLenBounds(r);
    BitLenWithin(l, n);
    BitLenWithin(r, BitLen(l)) by {
      assert r < Pow2(BitLen(l));
    }
    var k := BitLen(l) - BitLen(r);
    Pow2Add(BitLen(r), k);
    Pow2Add(BitLen(r) - 1, k);
    Pow2Monotone(BitLen(l), n);
    ScaleBounds(Pow2(BitLen(r) - 1), r, Pow2(BitLen(r)), 0, Pow2(k));
    MulLe(1, r, Pow2(k));
    DivModUnique(0, r * Pow2(k), Pow2(n));
    DivModUnique(0, Pow2(k), Pow2(n));
  }

  lemma {:induction false} Start(l: nat, r: nat, k: nat)
    requires r > 0 && l < 2 * (r * Pow2(k))
    requires k == 0 ==> r * Pow2(k) <= l
    ensures r * Pow2(k) <= l ==> Running(l, r, 0, l, r * Pow2(k), Pow2(k), k)
    ensures r * Pow2(k) > l ==>
      k > 0 && Running(l, r, 0, l, r * Pow2(k) / 2, Pow2(k) / 2, k - 1)
  {
    if r * Pow2(k) > l {
      Scale(r, k);
    }
  }

  /** The divisor place shrinks while the loop runs, and the word results stay in range. */
  lemma {:induction false} Progress(l: nat, r: nat, d: nat, m: nat, c: nat, a: nat, k: nat)
    requires Running(l, r, d, m, c, a, k) && 0 < r <= m
    ensures 0 <= c / 2 < c
  {
    MulLe(1, r, Pow2(k));
  }

  /** Quotient and remainder are determined by the division equation. */
  lemma {:induction false} Finish(l: nat, r: nat, d: nat, m: nat, c: nat, a: nat, k: nat)
    requires Running(l, r, d, m, c, a, k) && m < r
    ensures d == l / r && m == l % r
  {
    Commute(r, d);
    DivModUnique(d, m, r);
  }

  lemma {:induction false} SmallDividend(l: nat, r: nat)
    requires l < r
    ensures l / r == 0 && l % r == l
  {
    DivModUnique(0, l, r);
  }
}
