/** Digits up to base sixteen as characters. */
module HexDigits {
  import opened Wire

  function HexDigit(d: nat, upper: bool): (c: char)
    requires d < 16
    ensures '0' <= c <= 'f'
  {
    if upper then "0123456789ABCDEF"[d] else "0123456789abcdef"[d]
  }

  function HexValue(c: char): (d: Option<nat>)
    ensures d.Some? ==> d.value < 16
  {
    if '0' <= c <= '9' then Some(c as nat - '0' as nat)
    else if 'A' <= c <= 'F' then Some(c as nat - 'A' as nat + 10)
    else if 'a' <= c <= 'f' then Some(c as nat - 'a' as nat + 10)
    else None
  }

  function HexString(d: seq<nat>, upper: bool): (s: string)
    requires forall i :: 0 <= i < |d| ==> d[i] < 16
    ensures |s| == |d|
    ensures forall i :: 0 <= i < |d| ==> s[i] == HexDigit(d[i], upper)
  {
    if d == [] then [] else HexString(d[..|d| - 1], upper) + [HexDigit(d[|d| - 1], upper)]
  }

  /** The digits themselves. */
  lemma {:induction false} SmallLetters(d: nat)
    requires d < 16
    ensures HexDigit(d, false) == (if d < 10 then ('0' as nat + d) as char else ('a' as nat + (d - 10)) as char)
    ensures HexDigit(d, true) == (if d < 10 then ('0' as nat + d) as char else ('A' as nat + (d - 10)) as char)
  {}

  lemma {:induction false} HexDigitBack(d: nat, upper: bool)
    requires d < 16
    ensures HexValue(HexDigit(d, upper)) == Some(d)
  {}
}
