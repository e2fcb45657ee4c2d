/** mul256: four-digit schoolbook multiplication with 64-bit digits. The carry of the 2^64 column is
    stored one word too high (at 2^192 instead of 2^128), so the product is exact only without it. */
module Multiply256 {
  import opened Bits
  import opened WordShift
  import opened Wide128
  import opened Wide256
  import opened Schoolbook
  import opened Multiply128

  const TWO192: nat := 0x1_0000_0000_0000_0000_0000_0000_0000_0000_0000_0000_0000_0000

  function Low64(x: nat): nat { x % TWO64 }
  function High64(x: nat): nat { x / TWO64 }

  /** The 64-bit digits of a number below 2^256, most significant first. */
  function Digits64(v: nat): (d: seq<nat>)
    ensures |d| == 4
  {
    [v / TWO192, v / TWO128 % TWO64, v / TWO64 % TWO64, v % TWO64]
  }

  /** The column sums as the C code accumulates them, most significant column first. */
  function First64(a: seq<nat>, b: seq<nat>): nat
    requires |a| == |b| == 4
  {
    Low64(Cell(a, b, 0, 0)) + High64(Cell(a, b, 0, 1)) + Low64(Cell(a, b, 1, 1)) + High64(Cell(a, b, 1, 2))
    + Low64(Cell(a, b, 2, 2)) + High64(Cell(a, b, 2, 3)) + Low64(Cell(a, b, 3, 3))
  }

  function Second64(a: seq<nat>, b: seq<nat>): nat
    requires |a| == |b| == 4
  {
    Low64(Cell(a, b, 0, 1)) + High64(Cell(a, b, 0, 2)) + Low64(Cell(a, b, 1, 2)) + High64(Cell(a, b, 1, 3))
    + Low64(Cell(a, b, 2, 3))
  }

  function Third64(a: seq<nat>, b: seq<nat>): nat
    requires |a| == |b| == 4
  {
    Low64(Cell(a, b, 0, 2)) + High64(Cell(a, b, 0, 3)) + Low64(Cell(a, b, 1, 3))
  }

  function Fourth64(a: seq<nat>, b: seq<nat>): nat
    requires |a| == |b| == 4
  {
    Low64(Cell(a, b, 0, 3))
  }

  /** What the 2^64 column carries into the 2^128 column, from the two least significant digits of
      each operand. */
  function ColumnCarry(v: nat, w: nat): nat {
    var v0, v1, w0, w1 := v % TWO64, v / TWO64 % TWO64, w % TWO64, w / TWO64 % TWO64;
    High64(Low64(v0 * w1) + High64(v0 * w0) + Low64(v1 * w0))
  }

  /** What the C code computes, given the two operands. */
  function Mul256Result(v: nat, w: nat): nat {
    (v * w + ColumnCarry(v, w) * (TWO192 - TWO128)) % TWO256
  }

  lemma {:induction false} Recombine64(p00: nat, p01: nat, p02: nat, p03: nat, p10: nat, p11: nat, p12: nat, p13: nat,
                    p20: nat, p21: nat, p22: nat, p23: nat, p30: nat, p31: nat, p32: nat, p33: nat)
    ensures
      var first := Low64(p30) + High64(p31) + Low64(p21) + High64(p22) + Low64(p12) + High64(p13) + Low64(p03);
      var second := Low64(p31) + High64(p32) + Low64(p22) + High64(p23) + Low64(p13);
      var third := Low64(p32) + High64(p33) + Low64(p23);
      var fourth := Low64(p33);
      (first * TWO192 + second * TWO128 + third * TWO64 + fourth) % TWO256
      == (p00 * (TWO192 * TWO192) + p01 * (TWO192 * TWO128) + p02 * (TWO192 * TWO64) + p03 * TWO192
          + (p10 * (TWO128 * TWO192) + p11 * (TWO128 * TWO128) + p12 * (TWO128 * TWO64) + p13 * TWO128)
          + (p20 * (TWO64 * TWO192) + p21 * (TWO64 * TWO128) + p22 * (TWO64 * TWO64) + p23 * TWO64)
          + (p30 * TWO192 + p31 * TWO128 + p32 * TWO64 + p33)) % TWO256
  {
    var first := Low64(p30) + High64(p31) + Low64(p21) + High64(p22) + Low64(p12) + High64(p13) + Low64(p03);
    var second := Low64(p31) + High64(p32) + Low64(p22) + High64(p23) + Low64(p13);
    var third := Low64(p32) + High64(p33) + Low64(p23);
    var over := High64(p30) + High64(p21) + High64(p12) + High64(p03)
              + p02 + p11 + p20 + (p01 + p10) * TWO64 + p00 * TWO128;
    ModPlusMultiple(first * TWO192 + second * TWO128 + third * TWO64 + Low64(p33), over, TWO256);
  }

  function Number64(d: seq<nat>): nat
    requires |d| == 4
  {
    d[0] * TWO192 + d[1] * TWO128 + d[2] * TWO64 + d[3]
  }

  /** The columns, put at their places, are the product modulo 2^256. */
  lemma {:induction false} ColumnsAreProduct64(a: seq<nat>, b: seq<nat>)
    requires |a| == |b| == 4
    ensures
      (First64(a, b) * TWO192 + Second64(a, b) * TWO128 + Third64(a, b) * TWO64 + Fourth64(a, b)) % TWO256
      == Number64(a) * Number64(b) % TWO256
  {
    hide Low64, High64;
    Expand(a[0], a[1], a[2], a[3], b[0], b[1], b[2], b[3], TWO64, TWO128, TWO192);
    Recombine64(a[0] * b[0], a[0] * b[1], a[0] * b[2], a[0] * b[3], a[1] * b[0], a[1] * b[1], a[1] * b[2], a[1] * b[3],
                a[2] * b[0], a[2] * b[1], a[2] * b[2], a[2] * b[3], a[3] * b[0], a[3] * b[1], a[3] * b[2], a[3] * b[3]);
  }

  lemma {:induction false} DigitsValue(v: nat)
    requires v < TWO256
    ensures Number64(Digits64(v)) == v
    ensures forall i :: 0 <= i < 4 ==> Digits64(v)[i] < TWO64
  {
    var q1, q2, q3 := v / TWO64, v / TWO64 / TWO64, v / TWO64 / TWO64 / TWO64;
    DivDiv(v, TWO64, TWO64);
    DivDiv(v, TWO128, TWO64);
    DivModOf(v, TWO64);
    DivModOf(q1, TWO64);
    DivModOf(q2, TWO64);
    assert Digits64(v) == [q3, q2 % TWO64, q1 % TWO64, v % TWO64];
    assert q3 < TWO64;
  }

  /** mul256 multiplies modulo 2^256 exactly when the 2^64 column does not carry. */
  lemma {:induction false} ExactWithoutCarry(v: nat, w: nat)
    ensures Mul256Result(v, w) == v * w % TWO256 <==> ColumnCarry(v, w) == 0
  {
    var c := ColumnCarry(v, w);
    CarryIsSmall(v, w);
    var p := v * w;
    if c != 0 && (p + c * (TWO192 - TWO128)) % TWO256 == p % TWO256 {
      SameRemainder(p, c * (TWO192 - TWO128), TWO256);
    }
  }

  lemma {:induction false} SameRemainder(p: int, d: int, m: nat)
    requires m > 0 && (p + d) % m == p % m
    ensures d % m == 0
  {
    DivModOf(p, m);
    DivModOf(p + d, m);
    var q := (p + d) / m - p / m;
    assert d == q * m + 0;
    DivModUnique(q, 0, m);
  }

  lemma {:induction false} CarryIsSmall(v: nat, w: nat)
    ensures ColumnCarry(v, w) <= 2
  {
    var v0, w0 := v % TWO64, w % TWO64;
    ProductBound(v0, w0, TWO64);
  }

  /** An input on which the product comes out wrong: (2^128 - 1) squared. */
  lemma {:induction false} CarryExample()
    ensures Mul256Result(TWO128 - 1, TWO128 - 1) != (TWO128 - 1) * (TWO128 - 1) % TWO256
  {
    assert ColumnCarry(TWO128 - 1, TWO128 - 1) == 1;
    ExactWithoutCarry(TWO128 - 1, TWO128 - 1);
  }

  // ---- the method ----

  /** A 128-bit value inside the C product table. */
  datatype Words = Words(upper: uint64, lower: uint64)

  function WordsValue(p: Words): nat { p.upper * TWO64 + p.lower }

  method ProductTable(top: array<uint64>, bottom: array<uint64>) returns (products: array2<Words>)
    requires top.Length == bottom.Length == 4
    ensures fresh(products) && products.Length0 == products.Length1 == 4
    ensures forall k, j :: 0 <= k < 4 && 0 <= j < 4 ==>
      WordsValue(products[k, j]) == Cell(top[..], bottom[..], k, j)
  {
    hide WordsValue;
    products := new Words[4, 4]((_, _) => Words(0, 0));
    var y := 3;
    while y > -1
      invariant -1 <= y <= 3
      invariant forall k, j :: 0 <= k < 4 && y < j < 4 ==> WordsValue(products[k, j]) == Cell(top[..], bottom[..], k, j)
    {
      var x := 3;
      while x > -1
        invariant -1 <= x <= 3
        invariant forall k, j :: 0 <= k < 4 && y < j < 4 ==> WordsValue(products[k, j]) == Cell(top[..], bottom[..], k, j)
        invariant forall k :: 0 <= k < 3 - x ==> WordsValue(products[k, y]) == Cell(top[..], bottom[..], k, y)
      {
        var p := WordProduct(top[x], bottom[y]);
        products[3 - x, y] := p;
        assert WordsValue(products[3 - x, y]) == Cell(top[..], bottom[..], 3 - x, y);
        x := x - 1;
      }
      y := y - 1;
    }
  }

  method WordProduct(a: uint64, b: uint64) returns (p: Words)
    ensures WordsValue(p) == a * b
  {
    ProductBound(a, b, TWO64);
    var x := new Uint128(0, a);
    var y := new Uint128(0, b);
    var product := new Uint128(0, 0);
    Mul128(x, y, product);
    DivModUnique(0, a * b, TWO128);
    p := Words(product.upper, product.lower);
  }

  /** `sum += word`, as the C code does through its scratch numbers. */
  method AddWord(sum: Uint128, word: uint64)
    requires sum.Value() + word < TWO128
    modifies sum
    ensures sum.Value() == old(sum.Value()) + word
  {
    var tmp := new Uint128(0, word);
    NoWrap(tmp.Value(), sum.Value(), TWO128);
    Add128(tmp, sum, sum);
  }

  lemma {:induction false} WordsSplit(p: Words)
    ensures p.lower == Low64(WordsValue(p)) && p.upper == High64(WordsValue(p))
  {
    DivModUnique(p.upper, p.lower, TWO64);
  }

  lemma {:induction false} TableSplit(products: array2<Words>, a: seq<nat>, b: seq<nat>, k: nat, j: nat)
    requires products.Length0 == products.Length1 == 4 && |a| == |b| == 4 && k < 4 && j < 4
    requires WordsValue(products[k, j]) == Cell(a, b, k, j)
    ensures products[k, j].lower == Low64(Cell(a, b, k, j)) && products[k, j].upper == High64(Cell(a, b, k, j))
  {
    WordsSplit(products[k, j]);
  }

  method Columns(products: array2<Words>, ghost a: seq<nat>, ghost b: seq<nat>)
    returns (first64: Uint128, second64: Uint128, third64: Uint128, fourth64: Uint128)
    requires products.Length0 == products.Length1 == 4 && |a| == |b| == 4
    requires forall k, j :: 0 <= k < 4 && 0 <= j < 4 ==> WordsValue(products[k, j]) == Cell(a, b, k, j)
    ensures fresh(first64) && fresh(second64) && fresh(third64) && fresh(fourth64)
    ensures first64.Value() == First64(a, b) && second64.Value() == Second64(a, b)
    ensures third64.Value() == Third64(a, b) && fourth64.Value() == Fourth64(a, b)
  {
    hide Uint128.Value, Cell, WordsValue;
    forall k, j | 0 <= k < 4 && 0 <= j < 4
      ensures products[k, j].lower == Low64(Cell(a, b, k, j)) && products[k, j].upper == High64(Cell(a, b, k, j))
    {
      TableSplit(products, a, b, k, j);
    }
    fourth64 := new Uint128(0, products[0, 3].lower);
    third64 := new Uint128(0, products[0, 2].lower);
    AddWord(third64, products[0, 3].upper);
    second64 := new Uint128(0, products[0, 1].lower);
    AddWord(second64, products[0, 2].upper);
    first64 := new Uint128(0, products[0, 0].lower);
    AddWord(first64, products[0, 1].upper);

    AddWord(third64, products[1, 3].lower);
    AddWord(second64, products[1, 2].lower);
    AddWord(second64, products[1, 3].upper);
    AddWord(first64, products[1, 1].lower);
    AddWord(first64, products[1, 2].upper);

    AddWord(second64, products[2, 3].lower);
    AddWord(first64, products[2, 2].lower);
    AddWord(first64, products[2, 3].upper);

    AddWord(first64, products[3, 3].lower);
  }

  lemma {:induction false} ColumnBounds64(a: seq<nat>, b: seq<nat>)
    requires |a| == |b| == 4 && forall i :: 0 <= i < 4 ==> a[i] < TWO64 && b[i] < TWO64
    ensures First64(a, b) < TWO128 && Second64(a, b) < TWO128 && Third64(a, b) < TWO128 && Fourth64(a, b) < TWO64
  {
    ProductBound(a[3], b[1], TWO64);
    ProductBound(a[2], b[2], TWO64);
    ProductBound(a[1], b[3], TWO64);
    ProductBound(a[3], b[2], TWO64);
    ProductBound(a[2], b[3], TWO64);
    ProductBound(a[3], b[3], TWO64);
  }

  /** The outer columns at the places where the C code puts them: the carry of the 2^64 column at 2^192. */
  function Outer(first: nat, third: nat): nat {
    (first * TWO192 + third * TWO64 + High64(third) * (TWO192 - TWO128)) % TWO256
  }

  lemma {:induction false} AssembleOuter(first: nat, third: nat)
    requires first < TWO128 && third < TWO128
    ensures WrapAdd(Shl(first, 64, TWO128) * TWO128, High64(third) * TWO192 + Shl(third, 64, TWO128), TWO256)
         == Outer(first, third)
  {
    Pow2Literals();
    hide Pow2;
    var f, t := Shl(first, 64, TWO128) * TWO128, High64(third) * TWO192 + Shl(third, 64, TWO128);
    assert first * TWO192 == f + first / TWO64 * TWO256;
    assert t == third * TWO64 + High64(third) * (TWO192 - TWO128);
    WrapIsMod(f, t, TWO256);
    ModPlusMultiple(f + t, first / TWO64, TWO256);
  }

  lemma {:induction false} Assemble64(first: nat, second: nat, third: nat, fourth: nat)
    requires second < TWO128 && fourth < TWO128
    ensures WrapAdd(fourth, WrapAdd(second * TWO128, Outer(first, third), TWO256), TWO256)
         == (first * TWO192 + second * TWO128 + third * TWO64 + fourth + High64(third) * (TWO192 - TWO128)) % TWO256
  {
    hide WrapAdd, High64;
    var x, s := first * TWO192 + third * TWO64 + High64(third) * (TWO192 - TWO128), second * TWO128;
    WrapIsMod(s, x % TWO256, TWO256);
    WrapIsMod(fourth, (s + x % TWO256) % TWO256, TWO256);
    AddThree(x, s, fourth, TWO256);
  }

  method SetUpperWord(number: Uint128, word: uint64)
    requires number.Value() == 0
    modifies number
    ensures number.Value() == word * TWO64
  {
    number.upper := word;
  }

  method AddOuter(first64: Uint128, third64: Uint128, target: Uint256)
    requires target.Valid() && {first64, third64} !! {target.upper, target.lower}
    modifies target.upper, target.lower
    ensures target.Value() == Outer(first64.Value(), third64.Value())
  {
    hide WrapAdd, Shl, Outer, Uint128.Value;
    AssembleOuter(first64.Value(), third64.Value());
    var target1 := new Uint256(0);
    var target2 := new Uint256(0);
    Shiftl128(first64, 64, target1.upper);
    UpperWord(third64);
    SetUpperWord(target2.upper, third64.upper);
    Shiftl128(third64, 64, target2.lower);
    Add256(target1, target2, target);
  }

  lemma {:induction false} UpperWord(n: Uint128)
    ensures n.upper == High64(n.Value())
  {}

  /** Clear the number, then fill one half. */
  method SetHalves(number: Uint256, half: Uint128, high: bool)
    requires number.Valid() && half != number.upper && half != number.lower
    modifies number.upper, number.lower
    ensures number.Value() == if high then half.Value() * TWO128 else half.Value()
  {
    hide Uint128.Value;
    Clear128(number.upper);
    Clear128(number.lower);
    if high {
      Copy128(number.upper, half);
    } else {
      Copy128(number.lower, half);
    }
  }

  method AddColumns256(first64: Uint128, second64: Uint128, third64: Uint128, fourth64: Uint128, target: Uint256)
    requires target.Valid() && {first64, second64, third64, fourth64} !! {target.upper, target.lower}
    modifies target.upper, target.lower
    ensures target.Value()
         == WrapAdd(fourth64.Value(),
                    WrapAdd(second64.Value() * TWO128, Outer(first64.Value(), third64.Value()), TWO256), TWO256)
  {
    hide WrapAdd, Outer, Uint128.Value, Uint256.Value;
    AddOuter(first64, third64, target);
    var target1 := new Uint256(0);
    var target2 := new Uint256(0);
    SetHalves(target1, second64, true);
    Add256(target1, target, target2);
    SetHalves(target1, fourth64, false);
    Add256(target1, target2, target);
  }

  lemma {:induction false} CarryFromDigits(v: nat, w: nat)
    ensures High64(Third64(Digits64(v), Digits64(w))) == ColumnCarry(v, w)
  {}

  /** Equating with the true product takes `ExactWithoutCarry`; the target may be an operand. */
  method Mul256(number1: Uint256, number2: Uint256, target: Uint256)
    requires number1.Valid() && number2.Valid() && target.Valid()
    modifies target.upper, target.lower
    ensures target.Value() == Mul256Result(old(number1.Value()), old(number2.Value()))
  {
    ghost var v, w := number1.Value(), number2.Value();
    var top := new uint64[4][number1.upper.upper, number1.upper.lower, number1.lower.upper, number1.lower.lower];
    var bottom := new uint64[4][number2.upper.upper, number2.upper.lower, number2.lower.upper, number2.lower.lower];
    assert top[..] == Digits64(v) by { WordDigits(number1); }
    assert bottom[..] == Digits64(w) by { WordDigits(number2); }
    ghost var a, b := Digits64(v), Digits64(w);
    hide *;
    var products := ProductTable(top, bottom);
    var first64, second64, third64, fourth64 := Columns(products, a, b);
    AddColumns256(first64, second64, third64, fourth64, target);
    MulValue(v, w);
  }

  lemma {:induction false} WordDigits(n: Uint256)
    ensures Digits64(n.Value()) == [n.upper.upper, n.upper.lower, n.lower.upper, n.lower.lower]
  {
    DigitsOfWords(n.upper.upper, n.upper.lower, n.lower.upper, n.lower.lower);
  }

  lemma {:induction false} DigitsOfWords(a: uint64, b: uint64, c: uint64, d: uint64)
    ensures Digits64((a * TWO64 + b) * TWO128 + (c * TWO64 + d)) == [a, b, c, d]
  {
    var v := (a * TWO64 + b) * TWO128 + (c * TWO64 + d);
    DivModUnique(a, b * TWO128 + c * TWO64 + d, TWO192);
    DivModUnique(a * TWO64 + b, c * TWO64 + d, TWO128);
    DivModUnique(a, b, TWO64);
    DivModUnique(a * TWO128 + b * TWO64 + c, d, TWO64);
    DivModUnique(a * TWO64 + b, c, TWO64);
  }

  lemma {:induction false} MulValue(v: nat, w: nat)
    requires v < TWO256 && w < TWO256
    ensures var a, b := Digits64(v), Digits64(w);
      && First64(a, b) < TWO128 && Second64(a, b) < TWO128 && Third64(a, b) < TWO128 && Fourth64(a, b) < TWO64
      && WrapAdd(Fourth64(a, b), WrapAdd(Second64(a, b) * TWO128, Outer(First64(a, b), Third64(a, b)), TWO256), TWO256)
         == Mul256Result(v, w)
  {
    hide First64, Second64, Third64, Fourth64, Digits64, Number64, ColumnCarry, WrapAdd, Low64, High64, Outer;
    var a, b := Digits64(v), Digits64(w);
    DigitsValue(v);
    DigitsValue(w);
    ColumnBounds64(a, b);
    ColumnsAreProduct64(a, b);
    CarryFromDigits(v, w);
    Assemble64(First64(a, b), Second64(a, b), Third64(a, b), Fourth64(a, b));
    SameShift(First64(a, b) * TWO192 + Second64(a, b) * TWO128 + Third64(a, b) * TWO64 + Fourth64(a, b), v * w,
              ColumnCarry(v, w) * (TWO192 - TWO128), TWO256);
  }

  lemma {:induction false} SameShift(x: int, y: int, d: int, m: nat)
    requires m > 0 && x % m == y % m
    ensures (x + d) % m == (y + d) % m
  {
    ReduceTwice(x, d, m);
    ReduceTwice(y, d, m);
  }
}
