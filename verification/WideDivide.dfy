/** divmod128 and divmod256. A zero divisor is excluded: the C loop does not end on it. The quotient
    may be written over either operand, as the radix printer does. */
module WideDivide {
  import opened Bits
  import opened WordShift
  import opened Wide128
  import opened Wide256
  import opened Division

  /** The divisor and the bit 1 moved to the highest place that does not overshoot the dividend. */
  method Align128(l: Uint128, r: Uint128, copyd: Uint128, adder: Uint128) returns (ghost k: nat)
    requires 0 < r.Value() <= l.Value()
    requires copyd != adder && copyd != l && copyd != r && adder != l && adder != r
    modifies copyd, adder
    ensures Running(l.Value(), r.Value(), 0, l.Value(), copyd.Value(), adder.Value(), k)
  {
    hide *;
    ghost var n, v := l.Value(), r.Value();
    Pow2Literals();
    Align(n, v, 128);
    var lBits := Bits128(l);
    var rBits := Bits128(r);
    var diffBits := lBits - rBits;
    var one := new Uint128(0, 1);
    Shiftl128(r, diffBits, copyd);
    Shiftl128(one, diffBits, adder);
    k := diffBits;
    Start(n, v, k);
    var over := Gt128(copyd, l);
    if over {
      Down128(copyd, adder);
      k := k - 1;
    }
  }

  method Down128(copyd: Uint128, adder: Uint128)
    requires copyd != adder
    modifies copyd, adder
    ensures copyd.Value() == old(copyd.Value()) / 2 && adder.Value() == old(adder.Value()) / 2
  {
    hide *;
    HalfStep(copyd.Value());
    HalfStep(adder.Value());
    Shiftr128(copyd, 1, copyd);
    Shiftr128(adder, 1, adder);
  }

  /** The body of the loop: subtract if the place fits, then move down. */
  method Turn128(resDiv: Uint128, resMod: Uint128, copyd: Uint128, adder: Uint128)
    requires resDiv != resMod && resDiv != copyd && resDiv != adder && resMod != copyd && resMod != adder && copyd != adder
    modifies resDiv, resMod, copyd, adder
    ensures var fits := old(copyd.Value()) <= old(resMod.Value());
      && resMod.Value() == (if fits then old(resMod.Value()) - old(copyd.Value()) else old(resMod.Value()))
      && resDiv.Value() == (if fits then Or(old(resDiv.Value()), old(adder.Value())) else old(resDiv.Value()))
    ensures copyd.Value() == old(copyd.Value()) / 2 && adder.Value() == old(adder.Value()) / 2
  {
    hide *;
    var fits := Gte128(resMod, copyd);
    if fits {
      NoBorrow(resMod.Value(), copyd.Value(), TWO128);
      Minus128(resMod, copyd, resMod);
      Or128(resDiv, adder, resDiv);
    }
    Down128(copyd, adder);
  }

  /** The loop, from the aligned start to a remainder below the divisor. */
  method Reduce128(r: Uint128, resDiv: Uint128, resMod: Uint128, copyd: Uint128, adder: Uint128, ghost k0: nat)
    requires resDiv != resMod && resDiv != copyd && resDiv != adder && resMod != copyd && resMod != adder && copyd != adder
    requires r != resDiv && r != resMod && r != copyd && r != adder
    requires r.Value() > 0 && resDiv.Value() == 0
    requires Running(resMod.Value(), r.Value(), 0, resMod.Value(), copyd.Value(), adder.Value(), k0)
    modifies resDiv, resMod, copyd, adder
    ensures resDiv.Value() == old(resMod.Value()) / r.Value()
    ensures resMod.Value() == old(resMod.Value()) % r.Value()
  {
    hide *;
    ghost var n, v, k := resMod.Value(), r.Value(), k0;
    var more := Gte128(resMod, r);
    while more
      invariant r.Value() == v
      invariant more <==> v <= resMod.Value()
      invariant Running(n, v, resDiv.Value(), resMod.Value(), copyd.Value(), adder.Value(), k)
      decreases copyd.Value()
    {
      Turn(n, v, resDiv.Value(), resMod.Value(), copyd.Value(), adder.Value(), k);
      Progress(n, v, resDiv.Value(), resMod.Value(), copyd.Value(), adder.Value(), k);
      Turn128(resDiv, resMod, copyd, adder);
      k := if k > 0 then k - 1 else 0;
      more := Gte128(resMod, r);
    }
    Finish(n, v, resDiv.Value(), resMod.Value(), copyd.Value(), adder.Value(), k);
  }

  method Divmod128(l: Uint128, r: Uint128, retDiv: Uint128, retMod: Uint128)
    requires r.Value() != 0
    requires retDiv != retMod
    modifies retDiv, retMod
    ensures retDiv.Value() == old(l.Value()) / old(r.Value())
    ensures retMod.Value() == old(l.Value()) % old(r.Value())
  {
    hide *;
    ghost var n, v := l.Value(), r.Value();
    var small := Gt128(r, l);
    if small {
      SmallDividend(n, v);
      Copy128(retMod, l);
      Clear128(retDiv);
      return;
    }
    var copyd := new Uint128(0, 0);
    var adder := new Uint128(0, 0);
    var resDiv := new Uint128(0, 0);
    var resMod := new Uint128(0, 0);
    Copy128(resMod, l);
    ghost var k := Align128(l, r, copyd, adder);
    Reduce128(r, resDiv, resMod, copyd, adder, k);
    Copy128(retDiv, resDiv);
    Copy128(retMod, resMod);
  }

  /** The divisor and the bit 1 moved to the highest place that does not overshoot the dividend. */
  method Align256(l: Uint256, r: Uint256, copyd: Uint256, adder: Uint256) returns (ghost k: nat)
    requires 0 < r.Value() <= l.Value()
    requires l.Valid() && r.Valid() && copyd.Valid() && adder.Valid()
    requires copyd != adder && copyd != l && copyd != r && adder != l && adder != r
    requires Apart(copyd, adder) && Apart(copyd, l) && Apart(copyd, r) && Apart(adder, l) && Apart(adder, r)
    modifies copyd.upper, copyd.lower, adder.upper, adder.lower
    ensures Running(l.Value(), r.Value(), 0, l.Value(), copyd.Value(), adder.Value(), k)
  {
    hide Uint128.Value, Uint256.Value, Shl, Shr, Pow2, BitLen, Or, Running, WrapSub;
    ghost var n, v := l.Value(), r.Value();
    Pow2Literals();
    Align(n, v, 256);
    var lBits := Bits256(l);
    var rBits := Bits256(r);
    var diffBits := lBits - rBits;
    var one := new Uint256(1);
    Shiftl256(r, diffBits, copyd);
    Shiftl256(one, diffBits, adder);
    k := diffBits;
    Start(n, v, k);
    var over := Gt256(copyd, l);
    if over {
      Down256(copyd, adder);
      k := k - 1;
    }
  }

  method Down256(copyd: Uint256, adder: Uint256)
    requires copyd.Valid() && adder.Valid() && copyd != adder && Apart(copyd, adder)
    modifies copyd.upper, copyd.lower, adder.upper, adder.lower
    ensures copyd.Value() == old(copyd.Value()) / 2 && adder.Value() == old(adder.Value()) / 2
  {
    hide Uint128.Value, Uint256.Value, Shl, Shr, Pow2, BitLen, Or, Running, WrapSub;
    HalfStep(copyd.Value());
    HalfStep(adder.Value());
    Shiftr256(copyd, 1, copyd);
    Shiftr256(adder, 1, adder);
  }

  /** The body of the loop: subtract if the place fits, then move down. */
  method Turn256(resDiv: Uint256, resMod: Uint256, copyd: Uint256, adder: Uint256)
    requires resDiv.Valid() && resMod.Valid() && copyd.Valid() && adder.Valid()
    requires resDiv != resMod && resDiv != copyd && resDiv != adder && resMod != copyd && resMod != adder && copyd != adder
    requires Apart(resDiv, resMod) && Apart(resDiv, copyd) && Apart(resDiv, adder)
    requires Apart(resMod, copyd) && Apart(resMod, adder) && Apart(copyd, adder)
    modifies resDiv.upper, resDiv.lower, resMod.upper, resMod.lower, copyd.upper, copyd.lower, adder.upper, adder.lower
    ensures var fits := old(copyd.Value()) <= old(resMod.Value());
      && resMod.Value() == (if fits then old(resMod.Value()) - old(copyd.Value()) else old(resMod.Value()))
      && resDiv.Value() == (if fits then Or(old(resDiv.Value()), old(adder.Value())) else old(resDiv.Value()))
    ensures copyd.Value() == old(copyd.Value()) / 2 && adder.Value() == old(adder.Value()) / 2
  {
    hide Uint128.Value, Uint256.Value, Shl, Shr, Pow2, BitLen, Or, Running, WrapSub;
    var fits := Gte256(resMod, copyd);
    if fits {
      NoBorrow(resMod.Value(), copyd.Value(), TWO256);
      Minus256(resMod, copyd, resMod);
      Or256(resDiv, adder, resDiv);
    }
    Down256(copyd, adder);
  }

  /** The loop, from the aligned start to a remainder below the divisor. */
  method Reduce256(r: Uint256, resDiv: Uint256, resMod: Uint256, copyd: Uint256, adder: Uint256, ghost k0: nat)
    requires r.Valid() && resDiv.Valid() && resMod.Valid() && copyd.Valid() && adder.Valid()
    requires resDiv != resMod && resDiv != copyd && resDiv != adder && resMod != copyd && resMod != adder && copyd != adder
    requires Apart(resDiv, resMod) && Apart(resDiv, copyd) && Apart(resDiv, adder)
    requires Apart(resMod, copyd) && Apart(resMod, adder) && Apart(copyd, adder)
    requires r != resDiv && r != resMod && r != copyd && r != adder
    requires Apart(r, resDiv) && Apart(r, resMod) && Apart(r, copyd) && Apart(r, adder)
    requires r.Value() > 0 && resDiv.Value() == 0
    requires Running(resMod.Value(), r.Value(), 0, resMod.Value(), copyd.Value(), adder.Value(), k0)
    modifies resDiv.upper, resDiv.lower, resMod.upper, resMod.lower, copyd.upper, copyd.lower, adder.upper, adder.lower
    ensures resDiv.Value() == old(resMod.Value()) / r.Value()
    ensures resMod.Value() == old(resMod.Value()) % r.Value()
  {
    hide Uint128.Value, Uint256.Value, Shl, Shr, Pow2, BitLen, Or, Running, WrapSub;
    ghost var n, v, k := resMod.Value(), r.Value(), k0;
    var more := Gte256(resMod, r);
    while more
      invariant r.Value() == v
      invariant more <==> v <= resMod.Value()
      invariant Running(n, v, resDiv.Value(), resMod.Value(), copyd.Value(), adder.Value(), k)
      decreases copyd.Value()
    {
      Turn(n, v, resDiv.Value(), resMod.Value(), copyd.Value(), adder.Value(), k);
      Progress(n, v, resDiv.Value(), resMod.Value(), copyd.Value(), adder.Value(), k);
      Turn256(resDiv, resMod, copyd, adder);
      k := if k > 0 then k - 1 else 0;
      more := Gte256(resMod, r);
    }
    Finish(n, v, resDiv.Value(), resMod.Value(), copyd.Value(), adder.Value(), k);
  }

  /** The division proper, on locals. */
  method Divide256(l: Uint256, r: Uint256) returns (resDiv: Uint256, resMod: Uint256)
    requires l.Valid() && r.Valid() && Apart(l, r) && 0 < r.Value() <= l.Value()
    ensures resDiv.Valid() && resMod.Valid()
    ensures fresh(resDiv) && fresh(resDiv.upper) && fresh(resDiv.lower)
    ensures fresh(resMod) && fresh(resMod.upper) && fresh(resMod.lower) && Apart(resDiv, resMod) && resDiv != resMod
    ensures resDiv.Value() == l.Value() / r.Value() && resMod.Value() == l.Value() % r.Value()
  {
    hide Uint128.Value, Uint256.Value, Shl, Shr, Pow2, BitLen, Or, Running, WrapSub;
    resDiv := new Uint256(0);
    resMod := new Uint256(0);
    Copy256(resMod, l);
    ReduceAligned256(l, r, resDiv, resMod);
  }

  /** The multiple of the divisor is aligned and the loop run, with `resMod` starting as the dividend. */
  method ReduceAligned256(l: Uint256, r: Uint256, resDiv: Uint256, resMod: Uint256)
    requires l.Valid() && r.Valid() && resDiv.Valid() && resMod.Valid()
    requires 0 < r.Value() <= l.Value() == resMod.Value() && resDiv.Value() == 0
    requires resDiv != resMod && Apart(resDiv, resMod)
    requires r != resDiv && r != resMod && Apart(r, resDiv) && Apart(r, resMod)
    modifies resDiv.upper, resDiv.lower, resMod.upper, resMod.lower
    ensures resDiv.Value() == old(l.Value()) / old(r.Value()) && resMod.Value() == old(l.Value()) % old(r.Value())
  {
    hide Uint128.Value, Uint256.Value, Shl, Shr, Pow2, BitLen, Or, Running, WrapSub;
    var copyd := new Uint256(0);
    var adder := new Uint256(0);
    ghost var k := Align256(l, r, copyd, adder);
    Reduce256(r, resDiv, resMod, copyd, adder, k);
  }

  method Divmod256(l: Uint256, r: Uint256, retDiv: Uint256, retMod: Uint256)
    requires r.Value() != 0
    requires l.Valid() && r.Valid() && retDiv.Valid() && retMod.Valid()
    requires retDiv != retMod && Apart(retDiv, retMod) && Apart(l, r)
    requires Apart(l, retDiv) && Apart(l, retMod) && Apart(r, retDiv) && Apart(r, retMod)
    modifies retDiv.upper, retDiv.lower, retMod.upper, retMod.lower
    ensures retDiv.Value() == old(l.Value()) / old(r.Value())
    ensures retMod.Value() == old(l.Value()) % old(r.Value())
  {
    hide Uint128.Value, Uint256.Value, Shl, Shr, Pow2, BitLen, Or, Running, WrapSub;
    ghost var n, v := l.Value(), r.Value();
    var small := Gt256(r, l);
    if small {
      SmallDividend(n, v);
      Copy256(retMod, l);
      Clear256(retDiv);
      return;
    }
    var resDiv, resMod := Divide256(l, r);
    Copy256(retDiv, resDiv);
    Copy256(retMod, resMod);
  }
}
