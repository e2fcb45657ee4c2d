/** The 256-bit unsigned integers of src/uint256.c: two embedded 128-bit halves. Two such numbers are
    the same object or have nothing in common, as C structs that embed their halves do. */
module Wide256 {
  import opened Bits
  import opened WordShift
  import opened Wide128

  class Uint256 {
    const upper: Uint128
    const lower: Uint128

    /** A cleared number with its lowest word set. */
    constructor (word: uint64)
      ensures fresh(upper) && fresh(lower) && Valid()
      ensures Value() == word
    {
      upper := new Uint128(0, 0);
      lower := new Uint128(0, word);
    }

    ghost predicate Valid() {
      upper != lower
    }

    ghost function Value(): (v: nat)
      reads upper, lower
      ensures v < TWO256
    {
      upper.Value() * TWO128 + lower.Value()
    }
  }

  ghost predicate Apart(a: Uint256, b: Uint256) {
    a == b || (a.upper != b.upper && a.upper != b.lower && a.lower != b.upper && a.lower != b.lower)
  }

  method Zero256(number: Uint256) returns (z: bool)
    ensures z <==> number.Value() == 0
  {
    z := Zero128(number.lower);
    if z {
      z := Zero128(number.upper);
    }
  }

  method Copy256(target: Uint256, number: Uint256)
    requires target.Valid() && number.Valid() && Apart(target, number)
    modifies target.upper, target.lower
    ensures target.Value() == old(number.Value())
  {
    Copy128(target.upper, number.upper);
    Copy128(target.lower, number.lower);
  }

  method Clear256(target: Uint256)
    requires target.Valid()
    modifies target.upper, target.lower
    ensures target.Value() == 0
  {
    Clear128(target.upper);
    Clear128(target.lower);
  }

  method Equal256(number1: Uint256, number2: Uint256) returns (e: bool)
    ensures e <==> number1.Value() == number2.Value()
  {
    e := Equal128(number1.upper, number2.upper);
    if e {
      e := Equal128(number1.lower, number2.lower);
    }
  }

  method Gt256(number1: Uint256, number2: Uint256) returns (g: bool)
    ensures g <==> number1.Value() > number2.Value()
  {
    var e := Equal128(number1.upper, number2.upper);
    if e {
      g := Gt128(number1.lower, number2.lower);
      return;
    }
    g := Gt128(number1.upper, number2.upper);
  }

  method Gte256(number1: Uint256, number2: Uint256) returns (g: bool)
    ensures g <==> number1.Value() >= number2.Value()
  {
    g := Gt256(number1, number2);
    if !g {
      g := Equal256(number1, number2);
    }
  }

  /** Addition modulo 2^256, in place on either operand. */
  method Add256(number1: Uint256, number2: Uint256, target: Uint256)
    requires number1.Valid() && number2.Valid() && target.Valid()
    requires Apart(number1, number2) && Apart(number1, target) && Apart(number2, target)
    modifies target.upper, target.lower
    ensures target.Value() == WrapAdd(old(number1.Value()), old(number2.Value()), TWO256)
  {
    hide Uint128.Value;
    AddHalves(number1.upper.Value(), number1.lower.Value(), number2.upper.Value(), number2.lower.Value());
    var tmp := new Uint128(0, 0);
    Add128(number1.upper, number2.upper, target.upper);
    Add128(number1.lower, number2.lower, tmp);
    var carried := Gt128(number1.lower, tmp);
    if carried {
      Increment128(target.upper);
    }
    Add128(number1.lower, number2.lower, target.lower);
  }

  method Increment128(number: Uint128)
    modifies number
    ensures number.Value() == WrapAdd(old(number.Value()), 1, TWO128)
  {
    var one := new Uint128(0, 1);
    Add128(number, one, number);
  }

  method Decrement128(number: Uint128)
    modifies number
    ensures number.Value() == WrapSub(old(number.Value()), 1, TWO128)
  {
    var one := new Uint128(0, 1);
    Minus128(number, one, number);
  }

  lemma {:induction false} AddHalves(u1: nat, l1: nat, u2: nat, l2: nat)
    requires u1 < TWO128 && l1 < TWO128 && u2 < TWO128 && l2 < TWO128
    ensures WrapAdd(l1, l2, TWO128) < l1 ==>
      WrapAdd(WrapAdd(u1, u2, TWO128), 1, TWO128) * TWO128 + WrapAdd(l1, l2, TWO128)
      == WrapAdd(u1 * TWO128 + l1, u2 * TWO128 + l2, TWO256)
    ensures WrapAdd(l1, l2, TWO128) >= l1 ==>
      WrapAdd(u1, u2, TWO128) * TWO128 + WrapAdd(l1, l2, TWO128)
      == WrapAdd(u1 * TWO128 + l1, u2 * TWO128 + l2, TWO256)
  {}


  /** Subtraction modulo 2^256, in place on either operand. */
  method Minus256(number1: Uint256, number2: Uint256, target: Uint256)
    requires number1.Valid() && number2.Valid() && target.Valid()
    requires Apart(number1, number2) && Apart(number1, target) && Apart(number2, target)
    modifies target.upper, target.lower
    ensures target.Value() == WrapSub(old(number1.Value()), old(number2.Value()), TWO256)
  {
    hide Uint128.Value;
    SubHalves(number1.upper.Value(), number1.lower.Value(), number2.upper.Value(), number2.lower.Value());
    var tmp := new Uint128(0, 0);
    Minus128(number1.upper, number2.upper, target.upper);
    Minus128(number1.lower, number2.lower, tmp);
    var borrowed := Gt128(tmp, number1.lower);
    if borrowed {
      Decrement128(target.upper);
    }
    Minus128(number1.lower, number2.lower, target.lower);
  }

  lemma {:induction false} SubHalves(u1: nat, l1: nat, u2: nat, l2: nat)
    requires u1 < TWO128 && l1 < TWO128 && u2 < TWO128 && l2 < TWO128
    ensures WrapSub(l1, l2, TWO128) > l1 ==>
      WrapSub(WrapSub(u1, u2, TWO128), 1, TWO128) * TWO128 + WrapSub(l1, l2, TWO128)
      == WrapSub(u1 * TWO128 + l1, u2 * TWO128 + l2, TWO256)
    ensures WrapSub(l1, l2, TWO128) <= l1 ==>
      WrapSub(u1, u2, TWO128) * TWO128 + WrapSub(l1, l2, TWO128)
      == WrapSub(u1 * TWO128 + l1, u2 * TWO128 + l2, TWO256)
  {}


  method Or256(number1: Uint256, number2: Uint256, target: Uint256)
    requires number1.Valid() && number2.Valid() && target.Valid()
    requires Apart(number1, number2) && Apart(number1, target) && Apart(number2, target)
    modifies target.upper, target.lower
    ensures target.Value() == Or(old(number1.Value()), old(number2.Value()))
  {
    hide Uint128.Value, Or;
    OrHalves(number1.upper.Value(), number1.lower.Value(), number2.upper.Value(), number2.lower.Value());
    Or128(number1.upper, number2.upper, target.upper);
    Or128(number1.lower, number2.lower, target.lower);
  }

  lemma {:induction false} OrHalves(u1: nat, l1: nat, u2: nat, l2: nat)
    requires u1 < TWO128 && l1 < TWO128 && u2 < TWO128 && l2 < TWO128
    ensures Or(u1, u2) * TWO128 + Or(l1, l2) == Or(u1 * TWO128 + l1, u2 * TWO128 + l2)
  {
    Pow2Literals();
    hide Pow2, Or;
    OrSplit(u1, l1, u2, l2, 128);
  }

  // ---- shifts ----

  method Shiftl256(number: Uint256, value: uint32, target: Uint256)
    requires number.Valid() && target.Valid() && Apart(number, target)
    modifies target.upper, target.lower
    ensures target.Value() == Shl(old(number.Value()), value, TWO256)
  {
    hide Uint128.Value, Shl, Shr, Pow2, WrapAdd;
    Pow2Literals();
    ghost var u, l := number.upper.Value(), number.lower.Value();
    ShlByWords(u, l, value, 128, TWO128, TWO256);
    if value >= 256 {
      ShiftedOut(u * TWO128 + l, value, 256);
      Clear256(target);
    } else if value == 128 {
      NoShift(l, TWO128);
      Copy128(target.upper, number.lower);
      Clear128(target.lower);
    } else if value == 0 {
      NoShift(u * TWO128 + l, TWO256);
      Copy256(target, number);
    } else if value < 128 {
      ShiftlWithin(number, value, target);
    } else {
      Shiftl128(number.lower, value - 128, target.upper);
      Clear128(target.lower);
    }
  }

  /** The two result halves of a left shift by less than half the width. */
  lemma {:induction false} ShlHalves(u: nat, l: nat, k: nat)
    requires u < TWO128 && l < TWO128 && 0 < k < 128
    ensures WrapAdd(Shl(u, k, TWO128), Shr(l, 128 - k), TWO128) * TWO128 + Shl(l, k, TWO128) == Shl(u * TWO128 + l, k, TWO256)
  {
    Pow2Literals();
    hide Shl, Shr, Pow2;
    ShlByWords(u, l, k, 128, TWO128, TWO256);
    NoWrap(Shl(u, k, TWO128), Shr(l, 128 - k), TWO128);
  }

  /** The branch of shiftl256 in which both halves keep bits. */
  method ShiftlWithin(number: Uint256, value: uint32, target: Uint256)
    requires number.Valid() && target.Valid() && Apart(number, target) && 0 < value < 128
    modifies target.upper, target.lower
    ensures target.Value() == Shl(old(number.Value()), value, TWO256)
  {
    hide Uint128.Value, Uint256.Value, Shl, Shr, Pow2, WrapAdd;
    HalvesValue(number);
    ShlHalves(number.upper.Value(), number.lower.Value(), value);
    var tmp1 := new Uint128(0, 0);
    var tmp2 := new Uint128(0, 0);
    var result := new Uint256(0);
    Shiftl128(number.upper, value, tmp1);
    Shiftr128(number.lower, 128 - value, tmp2);
    Add128(tmp1, tmp2, result.upper);
    Shiftl128(number.lower, value, result.lower);
    HalvesValue(result);
    Copy256(target, result);
  }

  lemma {:induction false} HalvesValue(n: Uint256)
    ensures n.Value() == n.upper.Value() * TWO128 + n.lower.Value()
  {}

  /** The halves of one number are distinct objects, so the 128-bit alias case cannot arise here. */
  method Shiftr256(number: Uint256, value: uint32, target: Uint256)
    requires number.Valid() && target.Valid() && Apart(number, target)
    modifies target.upper, target.lower
    ensures target.Value() == Shr(old(number.Value()), value)
  {
    hide Uint128.Value, Shl, Shr, Pow2, WrapAdd;
    Pow2Literals();
    ghost var u, l := number.upper.Value(), number.lower.Value();
    ShrByWords(u, l, value, 128, TWO128);
    if value >= 256 {
      ShiftedOut(u * TWO128 + l, value, 256);
      Clear256(target);
    } else if value == 128 {
      NoShift(u, TWO128);
      Copy128(target.lower, number.upper);
      Clear128(target.upper);
    } else if value == 0 {
      NoShift(u * TWO128 + l, TWO256);
      Copy256(target, number);
    } else if value < 128 {
      ShiftrWithin(number, value, target);
    } else {
      Shiftr128(number.upper, value - 128, target.lower);
      Clear128(target.upper);
    }
  }

  /** The two result halves of a right shift by less than half the width. */
  lemma {:induction false} ShrHalves(u: nat, l: nat, k: nat)
    requires u < TWO128 && l < TWO128 && 0 < k < 128
    ensures Shr(u, k) * TWO128 + WrapAdd(Shr(l, k), Shl(u, 128 - k, TWO128), TWO128) == Shr(u * TWO128 + l, k)
  {
    Pow2Literals();
    hide Shl, Shr, Pow2;
    ShrByWords(u, l, k, 128, TWO128);
    NoWrap(Shr(l, k), Shl(u, 128 - k, TWO128), TWO128);
  }

  /** The branch of shiftr256 in which both halves keep bits. */
  method ShiftrWithin(number: Uint256, value: uint32, target: Uint256)
    requires number.Valid() && target.Valid() && Apart(number, target) && 0 < value < 128
    modifies target.upper, target.lower
    ensures target.Value() == Shr(old(number.Value()), value)
  {
    hide Uint128.Value, Uint256.Value, Shl, Shr, Pow2, WrapAdd;
    HalvesValue(number);
    ShrHalves(number.upper.Value(), number.lower.Value(), value);
    var tmp1 := new Uint128(0, 0);
    var tmp2 := new Uint128(0, 0);
    var result := new Uint256(0);
    Shiftr128(number.upper, value, result.upper);
    Shiftr128(number.lower, value, tmp1);
    Shiftl128(number.upper, 128 - value, tmp2);
    Add128(tmp1, tmp2, result.lower);
    HalvesValue(result);
    Copy256(target, result);
  }

  // ---- bit length ----

  method Bits256(number: Uint256) returns (result: uint32)
    ensures result == BitLen(number.Value()) <= 256
  {
    hide Uint128.Value, BitLen, Shr, Pow2;
    Pow2Literals();
    BitLenWithin(number.Value(), 256);
    BitLenHalf(0);
    result := 0;
    var noUpper := Zero128(number.upper);
    if !noUpper {
      BitLenAbove(number.upper.Value(), number.lower.Value(), 128);
      result := 128;
      var up := new Uint128(0, 0);
      Copy128(up, number.upper);
      var done := Zero128(up);
      while !done
        invariant done <==> up.Value() == 0
        invariant result + BitLen(up.Value()) == BitLen(number.Value())
        decreases up.Value()
      {
        HalfStep(up.Value());
        BitLenHalf(up.Value());
        Shiftr128(up, 1, up);
        result := result + 1;
        done := Zero128(up);
      }
    } else {
      var low := new Uint128(0, 0);
      Copy128(low, number.lower);
      var done := Zero128(low);
      while !done
        invariant done <==> low.Value() == 0
        invariant result + BitLen(low.Value()) == BitLen(number.Value())
        decreases low.Value()
      {
        HalfStep(low.Value());
        BitLenHalf(low.Value());
        Shiftr128(low, 1, low);
        result := result + 1;
        done := Zero128(low);
      }
    }
  }
}
