/** mul128: the 128-bit product, by 32-bit digits. */
module Multiply128 {
  import opened Bits
  import opened WordShift
  import opened Wide128
  import opened Schoolbook

  function Low32(x: nat): nat { x % TWO32 }
  function High32(x: nat): nat { x / TWO32 }

  /** The product at [k][j] of the C array: the first index counts digits from the least significant. */
  function Cell(a: seq<nat>, b: seq<nat>, k: nat, j: nat): nat
    requires |a| == |b| == 4 && k < 4 && j < 4
  {
    a[3 - k] * b[j]
  }

  /** The four column sums of the digit products, most significant column first. */
  function Column0(a: seq<nat>, b: seq<nat>): nat
    requires |a| == |b| == 4
  {
    Low32(Cell(a, b, 0, 0)) + High32(Cell(a, b, 0, 1)) + Low32(Cell(a, b, 1, 1)) + High32(Cell(a, b, 1, 2))
    + Low32(Cell(a, b, 2, 2)) + High32(Cell(a, b, 2, 3)) + Low32(Cell(a, b, 3, 3))
  }

  function Column1(a: seq<nat>, b: seq<nat>): nat
    requires |a| == |b| == 4
  {
    Low32(Cell(a, b, 0, 1)) + High32(Cell(a, b, 0, 2)) + Low32(Cell(a, b, 1, 2)) + High32(Cell(a, b, 1, 3))
    + Low32(Cell(a, b, 2, 3))
  }

  function Column2(a: seq<nat>, b: seq<nat>): nat
    requires |a| == |b| == 4
  {
    Low32(Cell(a, b, 0, 2)) + High32(Cell(a, b, 0, 3)) + Low32(Cell(a, b, 1, 3))
  }

  function Column3(a: seq<nat>, b: seq<nat>): nat
    requires |a| == |b| == 4
  {
    Low32(Cell(a, b, 0, 3))
  }

  function Digits32(a: seq<nat>): nat
    requires |a| == 4
  {
    a[0] * 0x1_0000_0000_0000_0000_0000_0000 + a[1] * TWO64 + a[2] * TWO32 + a[3]
  }

  /** The columns recombine to the product modulo 2^128. */
  lemma {:induction false} ColumnsAreProduct(a: seq<nat>, b: seq<nat>)
    requires |a| == 4 && |b| == 4
    ensures (Column0(a, b) * 0x1_0000_0000_0000_0000_0000_0000 + Column1(a, b) * TWO64
             + Column2(a, b) * TWO32 + Column3(a, b)) % TWO128
         == Digits32(a) * Digits32(b) % TWO128
  {
    Expand(a[0], a[1], a[2], a[3], b[0], b[1], b[2], b[3], TWO32, TWO64, 0x1_0000_0000_0000_0000_0000_0000);
    Recombine(a[0] * b[0], a[0] * b[1], a[0] * b[2], a[0] * b[3], a[1] * b[0], a[1] * b[1], a[1] * b[2], a[1] * b[3],
              a[2] * b[0], a[2] * b[1], a[2] * b[2], a[2] * b[3], a[3] * b[0], a[3] * b[1], a[3] * b[2], a[3] * b[3]);
  }

  lemma {:induction false} Recombine(p00: nat, p01: nat, p02: nat, p03: nat, p10: nat, p11: nat, p12: nat, p13: nat,
                  p20: nat, p21: nat, p22: nat, p23: nat, p30: nat, p31: nat, p32: nat, p33: nat)
    ensures
      var t3 := 0x1_0000_0000_0000_0000_0000_0000;
      var first := Low32(p30) + High32(p31) + Low32(p21) + High32(p22) + Low32(p12) + High32(p13) + Low32(p03);
      var second := Low32(p31) + High32(p32) + Low32(p22) + High32(p23) + Low32(p13);
      var third := Low32(p32) + High32(p33) + Low32(p23);
      var fourth := Low32(p33);
      (first * t3 + second * TWO64 + third * TWO32 + fourth) % TWO128
      == (p00 * (t3 * t3) + p01 * (t3 * TWO64) + p02 * (t3 * TWO32) + p03 * t3
          + (p10 * (TWO64 * t3) + p11 * (TWO64 * TWO64) + p12 * (TWO64 * TWO32) + p13 * TWO64)
          + (p20 * (TWO32 * t3) + p21 * (TWO32 * TWO64) + p22 * (TWO32 * TWO32) + p23 * TWO32)
          + (p30 * t3 + p31 * TWO64 + p32 * TWO32 + p33)) % TWO128
  {
    var first := Low32(p30) + High32(p31) + Low32(p21) + High32(p22) + Low32(p12) + High32(p13) + Low32(p03);
    var second := Low32(p31) + High32(p32) + Low32(p22) + High32(p23) + Low32(p13);
    var third := Low32(p32) + High32(p33) + Low32(p23);
    var over := High32(p30) + High32(p21) + High32(p12) + High32(p03)
              + p02 + p11 + p20 + (p01 + p10) * TWO32 + p00 * TWO64;
    ModPlusMultiple(first * 0x1_0000_0000_0000_0000_0000_0000 + second * TWO64 + third * TWO32 + Low32(p33),
                    over, TWO128);
  }

  lemma {:induction false} ColumnBounds(a: seq<nat>, b: seq<nat>)
    requires |a| == 4 && |b| == 4
    requires forall i :: 0 <= i < 4 ==> a[i] < TWO32 && b[i] < TWO32
    ensures Column0(a, b) < 7 * TWO32 && Column1(a, b) < 5 * TWO32 && Column2(a, b) < 3 * TWO32
    ensures Column3(a, b) < TWO32
  {
    ProductBound(a[3], b[1], TWO32);
    ProductBound(a[2], b[2], TWO32);
    ProductBound(a[1], b[3], TWO32);
    ProductBound(a[3], b[2], TWO32);
    ProductBound(a[2], b[3], TWO32);
    ProductBound(a[3], b[3], TWO32);
  }

  /** All sixteen digit products, the reversed first index as in the C array. */
  method DigitProducts(top: array<uint64>, bottom: array<uint64>) returns (products: array2<uint64>)
    requires top.Length == bottom.Length == 4
    requires forall i :: 0 <= i < 4 ==> top[i] < TWO32 && bottom[i] < TWO32
    ensures fresh(products) && products.Length0 == products.Length1 == 4
    ensures forall k, j :: 0 <= k < 4 && 0 <= j < 4 ==> products[k, j] == Cell(top[..], bottom[..], k, j)
  {
    products := new uint64[4, 4];
    var y := 3;
    while y > -1
      invariant -1 <= y <= 3
      invariant forall k, j :: 0 <= k < 4 && y < j < 4 ==> products[k, j] == Cell(top[..], bottom[..], k, j)
    {
      var x := 3;
      while x > -1
        invariant -1 <= x <= 3
        invariant forall k, j :: 0 <= k < 4 && y < j < 4 ==> products[k, j] == Cell(top[..], bottom[..], k, j)
        invariant forall k :: 0 <= k < 3 - x ==> products[k, y] == Cell(top[..], bottom[..], k, y)
      {
        ProductBound(top[x], bottom[y], TWO32);
        products[3 - x, y] := top[x] * bottom[y];
        assert products[3 - x, y] == Cell(top[..], bottom[..], 3 - x, y);
        x := x - 1;
      }
      y := y - 1;
    }
  }

  /** Adding the columns at their places, modulo 2^128 at every step. */
  lemma {:induction false} Assemble(first: uint64, second: uint64, third: uint64, fourth: uint64)
    ensures WrapAdd(fourth, WrapAdd(second * TWO64, WrapAdd(first * TWO32 % TWO64 * TWO64, third * TWO32, TWO128),
                                    TWO128), TWO128)
         == (first * 0x1_0000_0000_0000_0000_0000_0000 + second * TWO64 + third * TWO32 + fourth) % TWO128
  {
    var f, t, s := first * TWO32 % TWO64 * TWO64, third * TWO32, second * TWO64;
    assert first * 0x1_0000_0000_0000_0000_0000_0000 == f + first / TWO32 * TWO128;
    hide WrapAdd;
    WrapIsMod(f, t, TWO128);
    WrapIsMod(s, WrapAdd(f, t, TWO128), TWO128);
    WrapIsMod(fourth, WrapAdd(s, WrapAdd(f, t, TWO128), TWO128), TWO128);
    AddThree(f + t, s, fourth, TWO128);
    ModPlusMultiple(f + t + s + fourth, first / TWO32, TWO128);
    assert f + t + s + fourth + first / TWO32 * TWO128
        == first * 0x1_0000_0000_0000_0000_0000_0000 + s + t + fourth;
  }

  lemma {:induction false} AddThree(x: int, y: int, z: int, m: nat)
    requires m > 0
    ensures (z + (y + x % m) % m) % m == (x + y + z) % m
  {
    ReduceTwice(x, y, m);
    ReduceTwice(x + y, z, m);
  }

  /** The target may be one of the operands: it is written only after both were read. */
  method Mul128(number1: Uint128, number2: Uint128, target: Uint128)
    modifies target
    ensures target.Value() == old(number1.Value()) * old(number2.Value()) % TWO128
  {
    var top := new uint64[4][High32(number1.upper), Low32(number1.upper), High32(number1.lower), Low32(number1.lower)];
    var bottom := new uint64[4][High32(number2.upper), Low32(number2.upper), High32(number2.lower), Low32(number2.lower)];
    ghost var a: seq<nat>, b: seq<nat> := top[..], bottom[..];
    ghost var product := number1.Value() * number2.Value() % TWO128;
    assert Digits32(a) == number1.Value() && Digits32(b) == number2.Value();
    var products := DigitProducts(top, bottom);
    ColumnBounds(a, b);

    var fourth32: uint64 := Low32(products[0, 3]);
    var third32: uint64 := Low32(products[0, 2]) + High32(products[0, 3]);
    var second32: uint64 := Low32(products[0, 1]) + High32(products[0, 2]);
    var first32: uint64 := Low32(products[0, 0]) + High32(products[0, 1]);

    third32 := third32 + Low32(products[1, 3]);
    second32 := second32 + (Low32(products[1, 2]) + High32(products[1, 3]));
    first32 := first32 + (Low32(products[1, 1]) + High32(products[1, 2]));

    second32 := second32 + Low32(products[2, 3]);
    first32 := first32 + (Low32(products[2, 2]) + High32(products[2, 3]));

    first32 := first32 + Low32(products[3, 3]);
    assert first32 == Column0(a, b) && second32 == Column1(a, b)
        && third32 == Column2(a, b) && fourth32 == Column3(a, b);

    ColumnsAreProduct(a, b);
    Assemble(first32, second32, third32, fourth32);
    AddColumns(first32, second32, third32, fourth32, target);
  }

  /** The end of mul128: the four columns added into the target. */
  method AddColumns(first32: uint64, second32: uint64, third32: uint64, fourth32: uint64, target: Uint128)
    modifies target
    ensures target.Value()
         == WrapAdd(fourth32, WrapAdd(second32 * TWO64,
                                      WrapAdd(first32 * TWO32 % TWO64 * TWO64, third32 * TWO32, TWO128),
                                      TWO128), TWO128)
  {
    hide WrapAdd;
    var tmp := new Uint128(first32 * TWO32 % TWO64, 0);
    var tmp2 := new Uint128(third32 / TWO32, third32 * TWO32 % TWO64);
    Add128(tmp, tmp2, target);
    tmp.upper := second32;
    tmp.lower := 0;
    Add128(tmp, target, tmp2);
    tmp.upper := 0;
    tmp.lower := fourth32;
    Add128(tmp, tmp2, target);
  }
}
