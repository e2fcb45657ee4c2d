/** Powers of two, shifts and the bitwise OR on natural numbers: the arithmetic that the C code's
    shift and mask operators stand for. */
module Bits {
  const TWO8: nat := 0x100
  const TWO16: nat := 0x1_0000
  const TWO32: nat := 0x1_0000_0000
  const TWO64: nat := 0x1_0000_0000_0000_0000
  const TWO128: nat := 0x1_0000_0000_0000_0000_0000_0000_0000_0000
  const TWO256: nat := 0x1_0000_0000_0000_0000_0000_0000_0000_0000_0000_0000_0000_0000_0000_0000_0000_0000

  type byte = x: int | 0 <= x < 0x100
  type uint32 = x: int | 0 <= x < 0x1_0000_0000
  type uint64 = x: int | 0 <= x < 0x1_0000_0000_0000_0000

  function Pow2(n: nat): (p: nat)
    ensures p > 0
  {
    if n == 0 then 1 else 2 * Pow2(n - 1)
  }

  lemma {:induction false} Pow2Add(m: nat, n: nat)
    ensures Pow2(m + n) == Pow2(m) * Pow2(n)
  {
    if m > 0 {
      Pow2Add(m - 1, n);
      assert Pow2(m + n) == 2 * (Pow2(m - 1) * Pow2(n));
    }
  }

  lemma {:induction false} Pow2Monotone(m: nat, n: nat)
    requires m <= n
    ensures Pow2(m) <= Pow2(n)
  {
    if m < n {
      Pow2Monotone(m, n - 1);
    }
  }

  lemma {:induction false} Pow2Square(n: nat, v: nat)
    requires Pow2(n) == v
    ensures Pow2(2 * n) == v * v
  {
    Pow2Add(n, n);
  }

  lemma {:induction false} Pow2Bytes()
    ensures Pow2(7) == 0x80 && Pow2(8) == TWO8 && Pow2(16) == TWO16
  {
    assert Pow2(3) == 8 && Pow2(4) == 16;
    Pow2Add(4, 3);
    Pow2Square(4, 16);
    Pow2Square(8, TWO8);
  }

  lemma {:induction false} Pow2Literals()
    ensures Pow2(32) == TWO32 && Pow2(64) == TWO64 && Pow2(128) == TWO128 && Pow2(256) == TWO256
  {
    Pow2Bytes();
    hide Pow2;
    Pow2Square(16, TWO16);
    Pow2Square(32, TWO32);
    Pow2Square(64, TWO64);
    Pow2Square(128, TWO128);
  }

  // ---- products, quotients and remainders ----

  lemma {:induction false} MulLe(a: int, b: int, c: nat)
    requires a <= b
    ensures a * c <= b * c
  {}

  /** A number below `m` is its own remainder, and a multiple of `m` in front of it is its quotient. */
  lemma {:induction false} DivModUnique(q: int, r: int, m: int)
    requires 0 <= r < m
    ensures (q * m + r) / m == q && (q * m + r) % m == r
  {
    var n := q * m + r;
    assert n == (n / m) * m + n % m;
    SmallMultiple(n / m - q, m);
    assert (n / m - q) * m == r - n % m;
  }

  /** The only multiple of `m` strictly between `-m` and `m` is zero. */
  lemma {:induction false} SmallMultiple(d: int, m: nat)
    requires 0 - m < d * m < m
    ensures d == 0
  {
    if d > 0 {
      MulLe(1, d, m);
    } else if d < 0 {
      MulLe(d, -1, m);
    }
  }

  lemma {:induction false} DivModOf(x: int, m: nat)
    requires m > 0
    ensures x == x / m * m + x % m && 0 <= x % m < m
  {}

  /** Adding a multiple of the modulus does not change the remainder. */
  lemma {:induction false} ModPlusMultiple(x: int, k: int, m: int)
    requires m > 0
    ensures (x + k * m) % m == x % m
  {
    DivModUnique(x / m + k, x % m, m);
    assert x + k * m == (x / m + k) * m + x % m;
  }

  /** Dividing by a product is dividing twice. */
  lemma {:induction false} DivDiv(x: nat, a: nat, b: nat)
    requires a > 0 && b > 0
    ensures a * b > 0 && x / (a * b) == x / a / b
  {
    var q, r := x / a, x % a;
    var q', r' := q / b, q % b;
    assert a * r' + r < a * b by { assert a * r' <= a * (b - 1); }
    assert x == q' * (a * b) + (a * r' + r) by {
      assert x == a * (b * q' + r') + r;
    }
    DivModUnique(q', a * r' + r, a * b);
  }

  // ---- bitwise OR ----

  /** The bitwise OR of two natural numbers, bit by bit from the least significant one. */
  function Or(a: nat, b: nat): nat
    decreases a + b
  {
    if a == 0 && b == 0 then 0
    else (if a % 2 == 1 || b % 2 == 1 then 1 else 0) + 2 * Or(a / 2, b / 2)
  }

  lemma {:induction false} OrZero(a: nat)
    ensures Or(a, 0) == a && Or(0, a) == a
  {
    if a > 0 {
      OrZero(a / 2);
    }
  }

  /** OR of numbers that share no bit is their sum. */
  lemma {:induction false} OrDisjoint(a: nat, b: nat, k: nat)
    requires b < Pow2(k) && a % Pow2(k) == 0
    ensures Or(a, b) == a + b && Or(b, a) == a + b
    decreases k
  {
    if k == 0 {
      OrZero(a);
    } else {
      var p := Pow2(k - 1);
      var q := a / Pow2(k);
      assert a == 2 * (p * q);
      DivModUnique(q, 0, p);
      assert a / 2 == q * p + 0;
      OrDisjoint(a / 2, b / 2, k - 1);
    }
  }

  lemma {:induction false} OrStep(a: nat, b: nat)
    ensures Or(a, b) == (if a % 2 == 1 || b % 2 == 1 then 1 else 0) + 2 * Or(a / 2, b / 2)
  {}

  /** OR works on the low `k` bits and on the rest separately. */
  lemma {:induction false} OrSplit(ah: nat, al: nat, bh: nat, bl: nat, k: nat)
    requires al < Pow2(k) && bl < Pow2(k)
    ensures Or(al, bl) < Pow2(k)
    ensures ah * Pow2(k) + al >= 0 && bh * Pow2(k) + bl >= 0
    ensures Or(ah * Pow2(k) + al, bh * Pow2(k) + bl) == Or(ah, bh) * Pow2(k) + Or(al, bl)
    decreases k
  {
    if k > 0 {
      var p := Pow2(k - 1);
      OrSplit(ah, al / 2, bh, bl / 2, k - 1);
      OrStep(al, bl);
      Twice(ah, p);
      Twice(bh, p);
      Twice(Or(ah, bh), p);
      OrDouble(ah * p, al, bh * p, bl);
    }
  }

  lemma {:induction false} Twice(x: nat, p: nat)
    ensures x * p >= 0 && x * (2 * p) == 2 * (x * p)
  {}

  lemma {:induction false} OrDouble(x: nat, al: nat, y: nat, bl: nat)
    ensures Or(2 * x + al, 2 * y + bl)
         == (if al % 2 == 1 || bl % 2 == 1 then 1 else 0) + 2 * Or(x + al / 2, y + bl / 2)
  {
    OrStep(2 * x + al, 2 * y + bl);
    assert (2 * x + al) / 2 == x + al / 2 && (2 * y + bl) / 2 == y + bl / 2;
  }

  /** OR of two numbers of at most `k` bits has at most `k` bits. */
  lemma {:induction false} OrBound(a: nat, b: nat, k: nat)
    requires a < Pow2(k) && b < Pow2(k)
    ensures Or(a, b) < Pow2(k)
  {
    OrSplit(0, a, 0, b, k);
  }

  /** The bitwise exclusive OR of two natural numbers. */
  function Xor(a: nat, b: nat): nat
    decreases a + b
  {
    if a == 0 && b == 0 then 0
    else (if a % 2 != b % 2 then 1 else 0) + 2 * Xor(a / 2, b / 2)
  }

  lemma {:induction false} XorStep(a: nat, b: nat)
    ensures Xor(a, b) == (if a % 2 != b % 2 then 1 else 0) + 2 * Xor(a / 2, b / 2)
  {}

  /** The second exclusive OR takes the first one back. */
  lemma {:induction false} XorTwice(a: nat, b: nat)
    ensures Xor(Xor(a, b), b) == a
    decreases a + b
  {
    if a + b > 0 {
      XorStep(a, b);
      XorStep(Xor(a, b), b);
      XorTwice(a / 2, b / 2);
      hide Xor;
      assert Xor(a, b) / 2 == Xor(a / 2, b / 2);
    }
  }

  lemma {:induction false} XorBound(a: nat, b: nat, k: nat)
    requires a < Pow2(k) && b < Pow2(k)
    ensures Xor(a, b) < Pow2(k)
    decreases k
  {
    if k > 0 {
      XorStep(a, b);
      XorBound(a / 2, b / 2, k - 1);
    }
  }

  // ---- number of significant bits ----

  /** The position of the highest set bit, counted from one; 0 for 0. */
  function BitLen(n: nat): nat
  {
    if n == 0 then 0 else 1 + BitLen(n / 2)
  }

  lemma {:induction false} BitLenHalf(n: nat)
    ensures BitLen(n) == if n == 0 then 0 else 1 + BitLen(n / 2)
  {}

  lemma {:induction false} BitLenBounds(n: nat)
    ensures n < Pow2(BitLen(n))
    ensures n > 0 ==> BitLen(n) > 0 && Pow2(BitLen(n) - 1) <= n
  {
    if n > 0 {
      BitLenBounds(n / 2);
      if n > 1 {
        assert Pow2(BitLen(n) - 1) == 2 * Pow2(BitLen(n / 2) - 1);
      }
    }
  }

  /** The bounds determine the bit length. */
  lemma {:induction false} BitLenUnique(n: nat, k: nat)
    requires k > 0 && Pow2(k - 1) <= n < Pow2(k)
    ensures BitLen(n) == k
  {
    BitLenBounds(n);
    if BitLen(n) < k {
      Pow2Monotone(BitLen(n), k - 1);
    } else if BitLen(n) > k {
      Pow2Monotone(k, BitLen(n) - 1);
    }
  }

  /** `k` further bits below a non-zero number add `k` to its length. */
  lemma {:induction false} BitLenAbove(u: nat, l: nat, k: nat)
    requires u > 0 && l < Pow2(k)
    ensures u * Pow2(k) >= 0 && BitLen(u * Pow2(k) + l) == BitLen(u) + k
  {
    BitLenBounds(u);
    var b := BitLen(u);
    Pow2Add(b - 1, k);
    Pow2Add(b, k);
    ScaleBounds(Pow2(b - 1), u, Pow2(b), l, Pow2(k));
    BitLenUnique(u * Pow2(k) + l, b + k);
  }

  lemma {:induction false} ScaleBounds(lo: nat, u: nat, hi: nat, l: nat, p: nat)
    requires lo <= u < hi && l < p
    ensures 0 <= lo * p <= u * p + l < hi * p
  {
    MulLe(lo, u, p);
    MulLe(u + 1, hi, p);
    assert (u + 1) * p == u * p + p;
  }

  lemma {:induction false} BitLenWithin(n: nat, k: nat)
    requires n < Pow2(k)
    ensures BitLen(n) <= k
  {
    BitLenBounds(n);
    if n > 0 {
      BitLenAtLeast(n, k);
    }
  }

  lemma {:induction false} BitLenAtLeast(n: nat, k: nat)
    requires 0 < n < Pow2(k)
    ensures BitLen(n) <= k
  {
    BitLenBounds(n);
    var below := BitLen(n) - 1;
    if k <= below {
      Pow2Monotone(k, below);
    }
  }
}
