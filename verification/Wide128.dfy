/** The 128-bit unsigned integers of src/uint256.c: two 64-bit words, results written through the
    target, which may be one of the operands. */
module Wide128 {
  import opened Bits
  import opened WordShift

  class Uint128 {
    var upper: uint64
    var lower: uint64

    constructor (upper: uint64, lower: uint64)
      ensures this.upper == upper && this.lower == lower
      ensures Value() == upper * TWO64 + lower
    {
      this.upper := upper;
      this.lower := lower;
    }

    ghost function Value(): (v: nat)
      reads this
      ensures v < TWO128
    {
      upper * TWO64 + lower
    }
  }

  // ---- comparison, copying ----

  method Zero128(number: Uint128) returns (z: bool)
    ensures z <==> number.Value() == 0
  {
    z := number.lower == 0 && number.upper == 0;
  }

  method Copy128(target: Uint128, number: Uint128)
    modifies target
    ensures target.Value() == old(number.Value())
    ensures target.upper == old(number.upper) && target.lower == old(number.lower)
  {
    target.upper := number.upper;
    target.lower := number.lower;
  }

  method Clear128(target: Uint128)
    modifies target
    ensures target.Value() == 0
  {
    target.upper := 0;
    target.lower := 0;
  }

  method Equal128(number1: Uint128, number2: Uint128) returns (e: bool)
    ensures e <==> number1.Value() == number2.Value()
  {
    e := number1.upper == number2.upper && number1.lower == number2.lower;
  }

  method Gt128(number1: Uint128, number2: Uint128) returns (g: bool)
    ensures g <==> number1.Value() > number2.Value()
  {
    if number1.upper == number2.upper {
      return number1.lower > number2.lower;
    }
    return number1.upper > number2.upper;
  }

  method Gte128(number1: Uint128, number2: Uint128) returns (g: bool)
    ensures g <==> number1.Value() >= number2.Value()
  {
    g := Gt128(number1, number2);
    if !g {
      g := Equal128(number1, number2);
    }
  }

  // ---- addition, subtraction, OR ----

  /** Addition modulo 2^128; the carry is recognised by the wrapped low word being too small. */
  method Add128(number1: Uint128, number2: Uint128, target: Uint128)
    modifies target
    ensures target.Value() == WrapAdd(old(number1.Value()), old(number2.Value()), TWO128)
  {
    var sum := WrapAdd(number1.lower, number2.lower, TWO64);
    var carry := if sum < number1.lower then 1 else 0;
    target.upper := WrapAdd(WrapAdd(number1.upper, number2.upper, TWO64), carry, TWO64);
    target.lower := sum;
  }

  /** Subtraction modulo 2^128; the borrow is recognised by the wrapped low word being too large. */
  method Minus128(number1: Uint128, number2: Uint128, target: Uint128)
    modifies target
    ensures target.Value() == WrapSub(old(number1.Value()), old(number2.Value()), TWO128)
  {
    var difference := WrapSub(number1.lower, number2.lower, TWO64);
    var borrow := if difference > number1.lower then 1 else 0;
    target.upper := WrapSub(WrapSub(number1.upper, number2.upper, TWO64), borrow, TWO64);
    target.lower := difference;
  }

  lemma {:induction false} OrWords(u1: nat, l1: nat, u2: nat, l2: nat)
    requires u1 < TWO64 && l1 < TWO64 && u2 < TWO64 && l2 < TWO64
    ensures Or(u1, u2) < TWO64 && Or(l1, l2) < TWO64
    ensures Or(u1, u2) * TWO64 + Or(l1, l2) == Or(u1 * TWO64 + l1, u2 * TWO64 + l2)
  {
    Pow2Literals();
    hide Pow2, Or;
    OrSplit(u1, l1, u2, l2, 64);
    OrBound(u1, u2, 64);
  }

  method Or128(number1: Uint128, number2: Uint128, target: Uint128)
    modifies target
    ensures target.Value() == Or(old(number1.Value()), old(number2.Value()))
  {
    OrWords(number1.upper, number1.lower, number2.upper, number2.lower);
    hide Or;
    target.upper := Or(number1.upper, number2.upper);
    target.lower := Or(number1.lower, number2.lower);
  }

  // ---- shifts ----

  method Shiftl128(number: Uint128, value: uint32, target: Uint128)
    modifies target
    ensures target.Value() == Shl(old(number.Value()), value, TWO128)
  {
    hide Shl, Shr, Pow2;
    Pow2Literals();
    ghost var u, l := number.upper, number.lower;
    ShlByWords(u, l, value, 64, TWO64, TWO128);
    if value >= 128 {
      ShiftedOut(u * TWO64 + l, value, 128);
      Clear128(target);
    } else if value == 64 {
      NoShift(l, TWO64);
      target.upper := number.lower;
      target.lower := 0;
    } else if value == 0 {
      NoShift(u * TWO64 + l, TWO128);
      Copy128(target, number);
    } else if value < 64 {
      target.upper := Shl(number.upper, value, TWO64) + Shr(number.lower, 64 - value);
      target.lower := Shl(number.lower, value, TWO64);
    } else {
      target.upper := Shl(number.lower, value - 64, TWO64);
      target.lower := 0;
    }
  }

  /** A right shift. In place, the one distance 64 goes wrong: the upper word is cleared before it
      is copied down. */
  method Shiftr128(number: Uint128, value: uint32, target: Uint128)
    modifies target
    ensures target.Value() == if value == 64 && number == target then 0 else Shr(old(number.Value()), value)
  {
    hide Shl, Shr, Pow2;
    Pow2Literals();
    ghost var u, l := number.upper, number.lower;
    ShrByWords(u, l, value, 64, TWO64);
    if value >= 128 {
      ShiftedOut(u * TWO64 + l, value, 128);
      Clear128(target);
    } else if value == 64 {
      NoShift(u, TWO64);
      target.upper := 0;
      target.lower := number.upper;
    } else if value == 0 {
      NoShift(u * TWO64 + l, TWO128);
      Copy128(target, number);
    } else if value < 64 {
      var result := new Uint128(Shr(number.upper, value),
                                Shl(number.upper, 64 - value, TWO64) + Shr(number.lower, value));
      Copy128(target, result);
    } else {
      target.lower := Shr(number.upper, value - 64);
      target.upper := 0;
    }
  }

  // ---- bit length ----

  method Bits128(number: Uint128) returns (result: uint32)
    ensures result == BitLen(number.Value()) <= 128
  {
    Pow2Literals();
    BitLenWithin(number.Value(), 128);
    result := 0;
    if number.upper != 0 {
      BitLenAbove(number.upper, number.lower, 64);
      result := 64;
      var up := number.upper;
      while up != 0
        invariant result + BitLen(up) == BitLen(number.Value())
        decreases up
      {
        up := up / 2;
        result := result + 1;
      }
    } else {
      var low := number.lower;
      while low != 0
        invariant result + BitLen(low) == BitLen(number.Value())
        decreases low
      {
        low := low / 2;
        result := result + 1;
      }
    }
  }
}
