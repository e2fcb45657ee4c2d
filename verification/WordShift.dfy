/** Shifting a two-word number word by word. `t` is the size of one word, split as `p * q` at the
    bit where the shift cuts it; the same facts serve 64-bit words and 128-bit halves. */
module WordShift {
  import opened Bits

  lemma {:induction false} CutWord(x: nat, p: nat, q: nat)
    requires p > 0 && q > 0
    ensures x * p / (p * q) == x / q && x * p % (p * q) == x % q * p
    ensures x % q * p + p <= p * q
    ensures x < p * q ==> x / q < p
  {
    var h, l := x / q, x % q;
    assert x == h * q + l;
    MulLe(l, q - 1, p);
    Commute(p, q);
    calc {
      x * p;
      (h * q + l) * p;
      h * q * p + l * p;
      { MulAssoc(h, q, p); }
      h * (p * q) + l * p;
    }
    DivModUnique(h, l * p, p * q);
    if x < p * q && h >= p {
      MulLe(p, h, q);
    }
  }

  lemma {:induction false} Commute(a: int, b: int)
    ensures a * b == b * a
    ensures (b - 1) * a == a * b - a
  {}

  lemma {:induction false} MulAssoc(a: int, b: int, c: int)
    ensures a * b * c == a * (b * c) == a * (c * b)
  {}

  lemma {:induction false} ExpandLeft(u: nat, l: nat, p: nat, t: nat, uh: nat, ul: nat, lh: nat, ll: nat)
    requires u * p == uh * t + ul && l * p == lh * t + ll
    ensures (u * t + l) * p == uh * (t * t) + ((ul + lh) * t + ll)
  {
    MulAssoc(u, t, p);
    MulAssoc(u, p, t);
    MulAssoc(uh, t, t);
    assert (uh * t + ul) * t == uh * t * t + ul * t;
  }

  lemma {:induction false} TwoDigits(hi: nat, lo: nat, t: nat)
    requires hi < t && lo < t
    ensures 0 <= hi * t + lo < t * t
  {
    MulLe(hi, t - 1, t);
  }

  /** A left shift by `p`, carried from the lower into the upper word, is multiplication by `p`
      modulo the square of the word size. */
  lemma {:induction false} ShiftLeft(u: nat, l: nat, p: nat, q: nat, t: nat)
    requires p > 0 && q > 0 && t == p * q
    requires u < t && l < t
    ensures u * p % t + l / q < t
    ensures (u * p % t + l / q) * t + l * p % t == (u * t + l) * p % (t * t)
  {
    CutWord(u, p, q);
    CutWord(l, p, q);
    var uh, ul, lh, ll := u / q, u * p % t, l / q, l * p % t;
    ExpandLeft(u, l, p, t, uh, ul, lh, ll);
    TwoDigits(ul + lh, ll, t);
    DivModUnique(uh, (ul + lh) * t + ll, t * t);
  }

  lemma {:induction false} ExpandRight(u: nat, l: nat, p: nat, q: nat, t: nat, uh: nat, ul: nat, lh: nat, ll: nat)
    requires t == p * q
    requires u == uh * p + ul && l == lh * p + ll
    ensures u * t + l == (uh * t + (ul * q + lh)) * p + ll
  {
    MulAssoc(uh, p, t);
    MulAssoc(uh, t, p);
    MulAssoc(ul, q, p);
    Commute(p, q);
    assert (uh * p + ul) * t == uh * p * t + ul * t;
    assert (uh * t + (ul * q + lh)) * p == uh * t * p + ul * q * p + lh * p;
  }

  lemma {:induction false} AssembleRight(u: nat, l: nat, p: nat, q: nat, t: nat, uh: nat, ul: nat, lh: nat, ll: nat)
    requires t == p * q && ll < p
    requires u == uh * p + ul && l == lh * p + ll
    ensures uh * t + (ul * q + lh) == (u * t + l) / p
  {
    ExpandRight(u, l, p, q, t, uh, ul, lh, ll);
    DivModUnique(uh * t + (ul * q + lh), ll, p);
  }

  lemma {:induction false} RightWords(u: nat, l: nat, p: nat, q: nat, t: nat)
    requires p > 0 && q > 0 && t == q * p && l < t
    ensures u * q % t == u % p * q && u * q % t + l / p < t
  {
    CutWord(u, q, p);
    CutWord(l, q, p);
  }

  /** A right shift by `p`, carried from the upper into the lower word, is division by `p`. */
  lemma {:induction false} ShiftRight(u: nat, l: nat, p: nat, q: nat, t: nat)
    requires p > 0 && q > 0 && t == p * q
    requires u < t && l < t
    ensures u * q % t + l / p < t
    ensures u / p * t + (u * q % t + l / p) == (u * t + l) / p
  {
    Commute(p, q);
    RightWords(u, l, p, q, t);
    DivModOf(u, p);
    DivModOf(l, p);
    AssembleRight(u, l, p, q, t, u / p, u % p, l / p, l % p);
  }

  // ---- carries and borrows ----

  /** Two digits of base `t` reduce modulo `t * t` by reducing the high one modulo `t`. */
  lemma {:induction false} ReduceHigh(u: int, l: nat, t: nat)
    requires l < t
    ensures u % t * t + l == (u * t + l) % (t * t)
  {
    DivModOf(u, t);
    ReduceDigits(u, u / t, u % t, l, t);
  }

  lemma {:induction false} ReduceDigits(u: int, q: int, r: nat, l: nat, t: nat)
    requires u == q * t + r && r < t && l < t
    ensures (u * t + l) % (t * t) == r * t + l
  {
    var low, square := r * t + l, t * t;
    TwoDigits(r, l, t);
    PositiveSquare(t);
    PullOut(q, r, l, t);
    LowPart(u * t + l, q, low, square);
  }

  lemma {:induction false} LowPart(n: int, q: int, low: int, square: int)
    requires 0 <= low < square && n == q * square + low
    ensures n % square == low
  {
    DivModUnique(q, low, square);
  }

  lemma {:induction false} PositiveSquare(t: nat)
    requires t > 0
    ensures t * t > 0
  {}

  lemma {:induction false} PullOut(q: int, r: int, l: int, t: int)
    ensures (q * t + r) * t + l == q * (t * t) + (r * t + l)
  {
    MulAssoc(q, t, t);
    assert (q * t + r) * t == q * t * t + r * t;
  }

  /** Addition and subtraction in unsigned words of size `m`. */
  function WrapAdd(a: nat, b: nat, m: nat): (r: nat)
    requires a < m && b < m
    ensures r < m
  {
    if a + b < m then a + b else a + b - m
  }

  function WrapSub(a: nat, b: nat, m: nat): (r: nat)
    requires a < m && b < m
    ensures r < m
  {
    if a >= b then a - b else a - b + m
  }

  lemma {:induction false} NoWrap(a: nat, b: nat, m: nat)
    requires a + b < m
    ensures WrapAdd(a, b, m) == a + b
  {}

  lemma {:induction false} NoBorrow(a: nat, b: nat, m: nat)
    requires b <= a < m
    ensures WrapSub(a, b, m) == a - b
  {}

  lemma {:induction false} WrapIsMod(a: nat, b: nat, m: nat)
    requires a < m && b < m
    ensures WrapAdd(a, b, m) == (a + b) % m && WrapSub(a, b, m) == (a - b) % m
  {
    DivModUnique(if a + b < m then 0 else 1, WrapAdd(a, b, m), m);
    DivModUnique(if a >= b then 0 else -1, WrapSub(a, b, m), m);
  }

  lemma {:induction false} ReduceTwice(x: int, d: int, t: nat)
    requires t > 0
    ensures (x % t + d) % t == (x + d) % t
  {
    var q, r := x / t, x % t;
    assert x + d == r + d + q * t;
    ModPlusMultiple(r + d, q, t);
  }

  // ---- shifts ----

  /** `value << k` in an unsigned word of size `m`. */
  function Shl(v: nat, k: nat, m: nat): (r: nat)
    requires m > 0
    ensures r < m
  {
    v * Pow2(k) % m
  }

  /** `value >> k`. */
  function Shr(v: nat, k: nat): (r: nat)
    ensures r <= v
  {
    QuotientLe(v, Pow2(k));
    v / Pow2(k)
  }

  lemma {:induction false} QuotientLe(x: nat, d: nat)
    requires d > 0
    ensures 0 <= x / d <= x
  {
    MulLe(1, d, x / d);
  }

  lemma {:induction false} NoShift(v: nat, m: nat)
    requires v < m
    ensures Shl(v, 0, m) == v && Shr(v, 0) == v
  {
    DivModUnique(0, v, m);
  }

  lemma {:induction false} HalfStep(v: nat)
    ensures Shr(v, 1) == v / 2
  {
    assert Pow2(1) == 2;
  }

  lemma {:induction false} CutAt(k: nat, n: nat)
    requires k <= n
    ensures Pow2(k) * Pow2(n - k) == Pow2(n)
  {
    Pow2Add(k, n - k);
  }

  /** Shifting everything out leaves nothing. */
  lemma {:induction false} ShiftedOut(v: nat, k: nat, n: nat)
    requires n <= k
    ensures Shl(v, k, Pow2(n)) == 0
    ensures v < Pow2(n) ==> Shr(v, k) == 0
  {
    CutAt(n, k);
    MulAssoc(v, Pow2(k - n), Pow2(n));
    DivModUnique(v * Pow2(k - n), 0, Pow2(n));
    if v < Pow2(n) {
      Pow2Monotone(n, k);
      DivModUnique(0, v, Pow2(k));
    }
  }

  /** Shifting by at least one word: `p` is the shift beyond the word size `t`. */
  lemma {:induction false} ShiftWord(u: nat, l: nat, p: nat, t: nat)
    requires u < t && l < t && p > 0
    ensures l * p % t * t == (u * t + l) * (p * t) % (t * t)
    ensures u / p == (u * t + l) / (p * t)
  {
    ExpandWord(u, l, p, t);
    ReduceHigh(l * p, 0, t);
    ModPlusMultiple(l * p * t, u * p, t * t);
    DivModUnique(u, l, t);
    Commute(p, t);
    DivDiv(u * t + l, t, p);
  }

  lemma {:induction false} ExpandWord(u: nat, l: nat, p: nat, t: nat)
    ensures (u * t + l) * (p * t) == u * p * (t * t) + l * p * t
  {
    MulAssoc(u * t + l, p, t);
    MulAssoc(u, t, p);
    MulAssoc(u, p, t);
    assert (u * t + l) * p == u * p * t + l * p;
    MulAssoc(u * p, t, t);
  }

  /** The two result words of a left shift, by the distance; a word has `n` bits. */
  lemma {:induction false} ShlByWords(u: nat, l: nat, k: nat, n: nat, t: nat, tt: nat)
    requires t == Pow2(n) && tt == t * t && u < t && l < t
    ensures 0 < k < n ==> Shl(u, k, t) + Shr(l, n - k) < t
    ensures 0 < k < n ==> (Shl(u, k, t) + Shr(l, n - k)) * t + Shl(l, k, t) == Shl(u * t + l, k, tt)
    ensures n <= k ==> Shl(l, k - n, t) * t == Shl(u * t + l, k, tt)
  {
    if 0 < k < n {
      CutAt(k, n);
      ShiftLeft(u, l, Pow2(k), Pow2(n - k), t);
    } else if n <= k {
      CutAt(k - n, k);
      ShiftWord(u, l, Pow2(k - n), t);
    }
  }

  /** The two result words of a right shift, by the distance. */
  lemma {:induction false} ShrByWords(u: nat, l: nat, k: nat, n: nat, t: nat)
    requires t == Pow2(n) && u < t && l < t
    ensures 0 < k < n ==> Shl(u, n - k, t) + Shr(l, k) < t
    ensures 0 < k < n ==> Shr(u, k) * t + (Shl(u, n - k, t) + Shr(l, k)) == Shr(u * t + l, k)
    ensures n <= k ==> Shr(u, k - n) == Shr(u * t + l, k)
  {
    if 0 < k < n {
      CutAt(k, n);
      ShiftRight(u, l, Pow2(k), Pow2(n - k), t);
    } else if n <= k {
      CutAt(k - n, k);
      ShiftWord(u, l, Pow2(k - n), t);
    }
  }
}
