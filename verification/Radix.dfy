/** Positional numerals: the digits of a number in a base, most significant first and without leading
    zeros, and reading them back. */
module Radix {
  import opened Bits

  /** The minimal numeral; zero has no digits. */
  function Digits(n: nat, base: nat): (d: seq<nat>)
    requires base >= 2
    ensures forall i :: 0 <= i < |d| ==> d[i] < base
  {
    if n == 0 then [] else
      DivShrinks(n, base);
      Digits(n / base, base) + [n % base]
  }

  lemma {:induction false} DivShrinks(n: nat, base: nat)
    requires n > 0 && base >= 2
    ensures 0 <= n / base < n
  {
    if n / base >= n {
      MulLe(n, n / base, base);
      MulLe(2, base, n);
    }
  }

  /** The number a digit sequence stands for. */
  function FromDigits(d: seq<nat>, base: nat): nat {
    if d == [] then 0 else FromDigits(d[..|d| - 1], base) * base + d[|d| - 1]
  }

  lemma {:induction false} FromDigitsSnoc(d: seq<nat>, x: nat, base: nat)
    ensures FromDigits(d + [x], base) == FromDigits(d, base) * base + x
  {
    assert (d + [x])[..|d|] == d;
  }

  /** Reading the digits back gives the number. */
  lemma {:induction false} DigitsReadBack(n: nat, base: nat)
    requires base >= 2
    ensures FromDigits(Digits(n, base), base) == n
  {
    if n > 0 {
      DivShrinks(n, base);
      DigitsReadBack(n / base, base);
      DivModOf(n, base);
      var q, r := n / base, n % base;
      FromDigitsSnoc(Digits(q, base), r, base);
    }
  }

  ghost predicate IsNumeral(d: seq<nat>, base: nat) {
    (d != [] ==> d[0] != 0) && forall i :: 0 <= i < |d| ==> d[i] < base
  }

  /** The minimal numeral starts with a non-zero digit. */
  lemma {:induction false} DigitsMinimal(n: nat, base: nat)
    requires base >= 2
    ensures IsNumeral(Digits(n, base), base)
    ensures n > 0 <==> Digits(n, base) != []
  {
    if n > 0 {
      DivShrinks(n, base);
      DigitsMinimal(n / base, base);
      if n < base {
        DivModUnique(0, n, base);
      }
    }
  }

  /** It is the only one: a digit sequence without leading zero is the numeral of its value. */
  lemma {:induction false} NumeralUnique(d: seq<nat>, base: nat)
    requires base >= 2 && IsNumeral(d, base)
    ensures Digits(FromDigits(d, base), base) == d
  {
    if d != [] {
      var front, last := d[..|d| - 1], d[|d| - 1];
      NumeralUnique(front, base);
      ValueParts(d, base);
      hide FromDigits;
      var q := FromDigits(front, base);
      DigitsStep(q * base + last, base);
      assert d == front + [last];
    }
  }

  lemma {:induction false} ValueParts(d: seq<nat>, base: nat)
    requires base >= 2 && IsNumeral(d, base) && d != []
    ensures var q, last := FromDigits(d[..|d| - 1], base), d[|d| - 1];
      && FromDigits(d, base) == q * base + last > 0
      && (q * base + last) / base == q && (q * base + last) % base == last
  {
    PositiveValue(d, base);
    hide FromDigits;
    assert FromDigits(d, base) == FromDigits(d[..|d| - 1], base) * base + d[|d| - 1] by { LastPlace(d, base); }
    DivModUnique(FromDigits(d[..|d| - 1], base), d[|d| - 1], base);
  }

  lemma {:induction false} LastPlace(d: seq<nat>, base: nat)
    requires d != []
    ensures FromDigits(d, base) == FromDigits(d[..|d| - 1], base) * base + d[|d| - 1]
  {}

  lemma {:induction false} PositiveValue(d: seq<nat>, base: nat)
    requires base >= 2 && IsNumeral(d, base) && d != []
    ensures FromDigits(d, base) > 0
  {
    if |d| > 1 {
      PositiveValue(d[..|d| - 1], base);
      MulLe(1, FromDigits(d[..|d| - 1], base), base);
    }
  }

  lemma {:induction false} DigitsStep(n: nat, base: nat)
    requires base >= 2
    ensures n > 0 ==> n / base < n && Digits(n, base) == Digits(n / base, base) + [n % base]
    ensures n < base ==> n / base == 0 && n % base == n
  {
    if n > 0 {
      DivShrinks(n, base);
    }
    if n < base {
      DivModUnique(0, n, base);
    }
  }

  /** The printed form: zero prints as one digit. */
  function Numeral(n: nat, base: nat): (d: seq<nat>)
    requires base >= 2
    ensures forall i :: 0 <= i < |d| ==> d[i] < base
  {
    if n == 0 then [0] else Digits(n, base)
  }

  /** The longest numerals of `k` digits end at the `k`-th power of the base. */
  function Power(base: nat, k: nat): nat {
    if k == 0 then 1 else base * Power(base, k - 1)
  }

  lemma {:induction false} DigitsFit(n: nat, base: nat, k: nat)
    requires base >= 2
    ensures |Digits(n, base)| <= k <==> n < Power(base, k)
    decreases k
  {
    if n == 0 {
      PowerPositive(base, k);
    } else if k > 0 {
      DigitsStep(n, base);
      DigitsFit(n / base, base, k - 1);
      QuotientBound(n, base, Power(base, k - 1));
    }
  }

  lemma {:induction false} PowerPositive(base: nat, k: nat)
    requires base >= 2
    ensures Power(base, k) >= 1
  {
    if k > 0 {
      PowerPositive(base, k - 1);
    }
  }

  lemma {:induction false} QuotientBound(n: nat, b: nat, p: nat)
    requires b > 0
    ensures n / b < p <==> n < b * p
  {
    DivModOf(n, b);
    var q := n / b;
    if q < p {
      MulLe(q + 1, p, b);
    } else {
      MulLe(p, q, b);
    }
  }
}
