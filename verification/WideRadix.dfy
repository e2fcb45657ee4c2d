/** tostring128 and tostring256: repeated division by the base, then reversal in place. */
module WideRadix {
  import opened HexDigits
  import opened Sequences
  import opened Bits
  import opened Radix
  import opened Wide128
  import opened Wide256
  import opened WideDivide

  lemma {:induction false} TextConcat(c: seq<nat>, d: seq<nat>)
    requires forall i :: 0 <= i < |c| ==> c[i] < 16
    requires forall i :: 0 <= i < |d| ==> d[i] < 16
    ensures HexString(c + d, false) == HexString(c, false) + HexString(d, false)
  {}

  method ReverseString(str: array<char>, length: nat)
    requires 1 <= length <= str.Length
    modifies str
    ensures str[..length] == Reverse(old(str[..length]))
    ensures str[length..] == old(str[length..])
  {
    var i, j := 0, length - 1;
    while i < j
      invariant 0 <= i <= length && i + j == length - 1
      invariant forall k :: 0 <= k < i ==> str[k] == old(str[length - 1 - k]) && str[length - 1 - k] == old(str[k])
      invariant forall k :: i <= k <= j ==> str[k] == old(str[k])
      invariant str[length..] == old(str[length..])
    {
      str[i], str[j] := str[j], str[i];
      i, j := i + 1, j - 1;
    }
    ghost var was := old(str[..length]);
    assert forall k :: 0 <= k < length ==> str[..length][k] == was[length - 1 - k];
  }

  /** The digits written so far, least significant first, complete the numeral of what is left. */
  ghost predicate Progress(v: nat, base: nat, rest: nat, first: bool, written: string)
    requires 2 <= base <= 16
  {
    if first then rest == v && written == []
    else HexString(Numeral(v, base), false) == HexString(Digits(rest, base), false) + Reverse(written)
  }

  lemma {:induction false} WriteDigit(v: nat, base: nat, rest: nat, q: nat, d: nat, first: bool, written: string)
    requires 2 <= base <= 16 && Progress(v, base, rest, first, written)
    requires first || rest > 0
    requires q == rest / base && d == rest % base
    ensures d < 16 && Progress(v, base, q, false, written + [HexDigit(d, false)])
  {
    DigitsStep(rest, base);
    ShiftDigit(v, base, rest, q, d, first, written);
  }

  lemma {:induction false} ShiftDigit(v: nat, base: nat, rest: nat, q: nat, d: nat, first: bool, written: string)
    requires 2 <= base <= 16 && d < base && Progress(v, base, rest, first, written)
    requires first || rest > 0
    requires Numeral(rest, base) == Digits(q, base) + [d]
    ensures Progress(v, base, q, false, written + [HexDigit(d, false)])
  {
    hide Digits, HexDigit, HexString;
    TextConcat(Digits(q, base), [d]);
    ReverseSnoc(written, HexDigit(d, false));
    OneDigit(d);
  }

  lemma {:induction false} OneDigit(d: nat)
    requires d < 16
    ensures HexString([d], false) == [HexDigit(d, false)]
  {}

  lemma {:induction false} ReverseSnoc(s: string, c: char)
    ensures Reverse(s + [c]) == [c] + Reverse(s)
  {}

  lemma {:induction false} Full(v: nat, base: nat, rest: nat, written: string)
    requires 2 <= base <= 16 && Progress(v, base, rest, false, written)
    ensures rest > 0 ==> |Numeral(v, base)| > |written|
    ensures rest == 0 ==> HexString(Numeral(v, base), false) == Reverse(written) && |Numeral(v, base)| == |written|
  {
    DigitsStep(rest, base);
  }

  lemma {:induction false} StartProgress(v: nat, base: nat)
    requires 2 <= base <= 16
    ensures Progress(v, base, v, true, [])
  {}

  /** One turn of the printing loop: divide in place, write the remainder as a digit. */
  method NextDigit128(rDiv: Uint128, base: Uint128, rMod: Uint128, out: array<char>, offset: nat, ghost v: nat)
    requires rDiv != rMod && base != rDiv && base != rMod
    requires 2 <= base.Value() <= 16 && offset < out.Length
    requires Progress(v, base.Value(), rDiv.Value(), offset == 0, out[..offset])
    requires offset == 0 || rDiv.Value() > 0
    modifies rDiv, rMod, out
    ensures base.Value() == old(base.Value())
    ensures Progress(v, base.Value(), rDiv.Value(), false, out[..offset + 1])
  {
    hide *;
    ghost var rest, written := rDiv.Value(), out[..offset];
    Divmod128(rDiv, base, rDiv, rMod);
    WriteDigit(v, base.Value(), rest, rDiv.Value(), rMod.Value(), offset == 0, written);
    LowWord128(rMod);
    out[offset] := HexDigit(rMod.lower, false);
    assert out[..offset + 1] == written + [out[offset]];
  }

  /** The do-while loop: stops with `ok` when nothing is left, fails when the room is used up. */
  method PrintDigits128(rDiv: Uint128, base: Uint128, rMod: Uint128, out: array<char>, outLength: nat) returns (ok: bool, offset: nat)
    requires rDiv != rMod && base != rDiv && base != rMod
    requires 2 <= base.Value() <= 16 && 1 <= outLength < out.Length
    modifies rDiv, rMod, out
    ensures ok <==> |Numeral(old(rDiv.Value()), old(base.Value()))| <= outLength
    ensures ok ==> 1 <= offset == |Numeral(old(rDiv.Value()), old(base.Value()))|
    ensures ok ==> Reverse(out[..offset]) == HexString(Numeral(old(rDiv.Value()), old(base.Value())), false)
  {
    hide *;
    ghost var v, baseParam := rDiv.Value(), base.Value();
    offset := 0;
    StartProgress(v, baseParam);
    assert out[..offset] == [];
    while true
      invariant base.Value() == baseParam
      invariant 0 <= offset <= outLength
      invariant Progress(v, baseParam, rDiv.Value(), offset == 0, out[..offset])
      invariant offset == 0 || rDiv.Value() > 0
      decreases outLength - offset
    {
      if offset > outLength - 1 {
        Full(v, baseParam, rDiv.Value(), out[..offset]);
        return false, offset;
      }
      NextDigit128(rDiv, base, rMod, out, offset, v);
      offset := offset + 1;
      var done := Zero128(rDiv);
      if done {
        break;
      }
    }
    Full(v, baseParam, 0, out[..offset]);
    return true, offset;
  }

  /** The closing statements of tostring: terminate the digits and turn them round. */
  method Terminate(out: array<char>, offset: nat, ghost text: string)
    requires 1 <= offset < out.Length && Reverse(out[..offset]) == text
    modifies out
    ensures out[..offset] == text && out[offset] == 0 as char
  {
    out[offset] := 0 as char;
    ReverseString(out, offset);
    assert out[offset] == out[offset..][0];
  }

  /** The caller provides one cell beyond `outLength` for the terminator. */
  method Tostring128(number: Uint128, baseParam: uint32, out: array<char>, outLength: uint32) returns (ok: bool)
    requires 1 <= outLength < out.Length
    modifies out
    ensures ok <==> 2 <= baseParam <= 16 && |Numeral(number.Value(), baseParam)| <= outLength
    ensures ok ==> out[..|Numeral(number.Value(), baseParam)|] == HexString(Numeral(number.Value(), baseParam), false)
    ensures ok ==> out[|Numeral(number.Value(), baseParam)|] == 0 as char
  {
    hide *;
    if baseParam < 2 || baseParam > 16 {
      return false;
    }
    var rDiv := new Uint128(0, 0);
    var rMod := new Uint128(0, 0);
    var base := new Uint128(0, baseParam);
    Copy128(rDiv, number);
    var printed, offset := PrintDigits128(rDiv, base, rMod, out, outLength);
    if !printed {
      return false;
    }
    Terminate(out, offset, HexString(Numeral(number.Value(), baseParam), false));
    return true;
  }

  /** One turn of the printing loop: divide in place, write the remainder as a digit. */
  method NextDigit256(rDiv: Uint256, base: Uint256, rMod: Uint256, out: array<char>, offset: nat, ghost v: nat)
    requires rDiv.Valid() && rMod.Valid() && base.Valid()
    requires rDiv != rMod && base != rDiv && base != rMod
    requires Apart(rDiv, rMod) && Apart(base, rDiv) && Apart(base, rMod)
    requires 2 <= base.Value() <= 16 && offset < out.Length
    requires Progress(v, base.Value(), rDiv.Value(), offset == 0, out[..offset])
    requires offset == 0 || rDiv.Value() > 0
    modifies rDiv.upper, rDiv.lower, rMod.upper, rMod.lower, out
    ensures base.Value() == old(base.Value())
    ensures Progress(v, base.Value(), rDiv.Value(), false, out[..offset + 1])
  {
    hide Uint128.Value, Uint256.Value, HexString, Numeral, Digits, Reverse, Progress, HexDigit;
    ghost var rest, written := rDiv.Value(), out[..offset];
    Divmod256(rDiv, base, rDiv, rMod);
    WriteDigit(v, base.Value(), rest, rDiv.Value(), rMod.Value(), offset == 0, written);
    LowWord256(rMod);
    out[offset] := HexDigit(rMod.lower.lower, false);
    assert out[..offset + 1] == written + [out[offset]];
  }

  /** The do-while loop: stops with `ok` when nothing is left, fails when the room is used up. */
  method PrintDigits256(rDiv: Uint256, base: Uint256, rMod: Uint256, out: array<char>, outLength: nat) returns (ok: bool, offset: nat)
    requires rDiv.Valid() && rMod.Valid() && base.Valid()
    requires rDiv != rMod && base != rDiv && base != rMod
    requires Apart(rDiv, rMod) && Apart(base, rDiv) && Apart(base, rMod)
    requires 2 <= base.Value() <= 16 && 1 <= outLength < out.Length
    modifies rDiv.upper, rDiv.lower, rMod.upper, rMod.lower, out
    ensures ok <==> |Numeral(old(rDiv.Value()), old(base.Value()))| <= outLength
    ensures ok ==> 1 <= offset == |Numeral(old(rDiv.Value()), old(base.Value()))|
    ensures ok ==> Reverse(out[..offset]) == HexString(Numeral(old(rDiv.Value()), old(base.Value())), false)
  {
    hide Uint128.Value, Uint256.Value, HexString, Numeral, Digits, Reverse, Progress, HexDigit;
    ghost var v, baseParam := rDiv.Value(), base.Value();
    offset := 0;
    StartProgress(v, baseParam);
    assert out[..offset] == [];
    while true
      invariant base.Value() == baseParam
      invariant 0 <= offset <= outLength
      invariant Progress(v, baseParam, rDiv.Value(), offset == 0, out[..offset])
      invariant offset == 0 || rDiv.Value() > 0
      decreases outLength - offset
    {
      if offset > outLength - 1 {
        Full(v, baseParam, rDiv.Value(), out[..offset]);
        return false, offset;
      }
      NextDigit256(rDiv, base, rMod, out, offset, v);
      offset := offset + 1;
      var done := Zero256(rDiv);
      if done {
        break;
      }
    }
    Full(v, baseParam, 0, out[..offset]);
    return true, offset;
  }

  /** The caller provides one cell beyond `outLength` for the terminator. */
  method Tostring256(number: Uint256, baseParam: uint32, out: array<char>, outLength: uint32) returns (ok: bool)
    requires 1 <= outLength < out.Length && number.Valid()
    modifies out
    ensures ok <==> 2 <= baseParam <= 16 && |Numeral(number.Value(), baseParam)| <= outLength
    ensures ok ==> out[..|Numeral(number.Value(), baseParam)|] == HexString(Numeral(number.Value(), baseParam), false)
    ensures ok ==> out[|Numeral(number.Value(), baseParam)|] == 0 as char
  {
    hide Uint128.Value, Uint256.Value, HexString, Numeral, Digits, Reverse, Progress, HexDigit;
    if baseParam < 2 || baseParam > 16 {
      return false;
    }
    var rDiv := new Uint256(0);
    var rMod := new Uint256(0);
    var base := new Uint256(baseParam);
    Copy256(rDiv, number);
    var printed, offset := PrintDigits256(rDiv, base, rMod, out, outLength);
    if !printed {
      return false;
    }
    Terminate(out, offset, HexString(Numeral(number.Value(), baseParam), false));
    return true;
  }

  lemma {:induction false} LowWord128(n: Uint128)
    requires n.Value() < 16
    ensures n.lower == n.Value()
  {}

  lemma {:induction false} LowWord256(n: Uint256)
    requires n.Value() < 16
    ensures n.lower.lower == n.Value()
  {}
}
