/** Integer fields with a precision or with '#', and where they lose digits. */
module PrintfPrecision {
  import opened HexDigits
  import opened Sequences
  import opened Bits
  import opened Wire
  import opened Radix
  import opened Printf
  import opened PrintfField

  // ---- precision ----

  /** An integer with a precision and without '#'; the zero flag is ignored then. */
  ghost predicate PreciseField(value: nat, negative: bool, base: nat, flags: Flags) {
    value < TWO64 && 8 <= base <= 16 && flags.precision && !flags.hash && !flags.zeropad && (negative ==> value > 0)
  }

  /** The digits; zero has none when a precision is given. */
  function DigitsOf(value: nat, base: nat, flags: Flags): string
    requires 2 <= base <= 16
  {
    if value == 0 then "" else HexString(Numeral(value, base), flags.uppercase)
  }

  /** The zeros in front of `n` digits: not in fields aligned to the left, and only as far as the buffer goes. */
  function PrecisionZeros(n: nat, prec: nat, flags: Flags): nat {
    if flags.left then 0 else Missing(n, Min(prec, PRINTF_NTOA_BUFFER_SIZE))
  }

  function PrecisionSign(n: nat, negative: bool, prec: nat, flags: Flags): string {
    if n + PrecisionZeros(n, prec, flags) < PRINTF_NTOA_BUFFER_SIZE then Sign(negative, flags) else ""
  }

  lemma {:induction false} PrecisionBuffer(buf: string, negative: bool, prec: nat, width: nat, flags: Flags)
    requires |buf| <= 22 && !flags.zeropad
    ensures var marked := WithSign(ZeroPadded(buf, prec, Inner(negative, width, flags), flags), negative, flags);
      Reverse(marked) == PrecisionSign(|buf|, negative, prec, flags) + (Repeat('0', PrecisionZeros(|buf|, prec, flags)) + Reverse(buf))
  {
    var k := PrecisionZeros(|buf|, prec, flags);
    var padded := ZeroPadded(buf, prec, Inner(negative, width, flags), flags);
    hide Repeat, Reverse, WithSign, Sign;
    NoZeros();
    assert padded == buf + Repeat('0', k);
    ReverseConcat(buf, Repeat('0', k));
    ReverseSame('0', k);
    SignedReversed(padded, negative, flags);
  }

  lemma {:induction false} NoZeros()
    ensures Repeat('0', 0) == ""
  {}

  lemma {:induction false} OutRevIsPadded(buf: string, width: nat, flags: Flags)
    requires !flags.zeropad
    ensures OutRev(buf, width, flags) == Padded(Reverse(buf), width, flags.left)
  {
    hide Repeat, Reverse;
    var pad, rev := Repeat(' ', Missing(|buf|, width)), Reverse(buf);
    NothingAround(pad, rev);
  }

  lemma {:induction false} NothingAround(pad: string, rev: string)
    ensures [] + rev + pad == rev + pad && pad + rev + [] == pad + rev
  {}

  /** Sign, zeros and digits, in a field of the width. */
  lemma {:induction false} PrecisionLayout(value: nat, negative: bool, base: nat, prec: nat, width: nat, flags: Flags)
    requires PreciseField(value, negative, base, flags)
    ensures |DigitsOf(value, base, flags)| <= 22
    ensures var d := DigitsOf(value, base, flags);
      Ntoa(value, negative, base, prec, width, flags)
      == Padded(PrecisionSign(|d|, negative, prec, flags) + (Repeat('0', PrecisionZeros(|d|, prec, flags)) + d), width, flags.left)
  {
    NumeralFits(value, base);
    LowDigitsAre(value, base, flags.uppercase, PRINTF_NTOA_BUFFER_SIZE);
    var buf := if value == 0 then "" else LowDigits(value, base, flags.uppercase, PRINTF_NTOA_BUFFER_SIZE);
    assert flags.(hash := false) == flags;
    hide Repeat, Reverse, WithSign, Sign, ZeroPadded, LowDigits, Numeral, HexString, Padded, OutRev, PrecisionSign, PrecisionZeros;
    NothingReversed();
    PrecisionBuffer(buf, negative, prec, width, flags);
    OutRevIsPadded(WithSign(ZeroPadded(buf, prec, Inner(negative, width, flags), flags), negative, flags), width, flags);
  }

  lemma {:induction false} NothingReversed()
    ensures Reverse<char>([]) == []
  {}

  /** At least as many digits as the precision asks for are shown exactly when there are enough anyway, or the field is
      not aligned to the left and the precision is at most 32. */
  lemma {:induction false} PrecisionExactly(n: nat, prec: nat, flags: Flags)
    requires n <= 22
    ensures n + PrecisionZeros(n, prec, flags) >= prec <==> prec <= n || (!flags.left && prec <= PRINTF_NTOA_BUFFER_SIZE)
    ensures n + PrecisionZeros(n, prec, flags) == n || n + PrecisionZeros(n, prec, flags) <= prec
  {}

  /** The field reads back as its number exactly when the zeros leave room for a minus sign; zero needs a precision of
      at least one. */
  lemma {:induction false} PrecisionReadsBack(value: nat, negative: bool, base: nat, prec: nat, width: nat, flags: Flags)
    requires PreciseField(value, negative, base, flags) && value > 0
    ensures ReadField(Ntoa(value, negative, base, prec, width, flags), base) == Some(if negative then -(value as int) else value as int)
       <==> !negative || flags.left || prec < PRINTF_NTOA_BUFFER_SIZE
  {
    PrecisionLayout(value, negative, base, prec, width, flags);
    var d := DigitsOf(value, base, flags);
    var sign, zeros := PrecisionSign(|d|, negative, prec, flags), PrecisionZeros(|d|, prec, flags);
    PrecisionSigns(|d|, negative, prec, flags);
    PaddedReads(sign, zeros, value, base, flags.uppercase, width, flags.left);
    hide Ntoa, ReadField, Padded, Repeat, Sign, PrecisionSign, PrecisionZeros, Numeral, HexString;
  }

  lemma {:induction false} PrecisionSigns(n: nat, negative: bool, prec: nat, flags: Flags)
    requires n <= 22
    ensures PrecisionSign(n, negative, prec, flags) in {"", "-", "+", " "}
    ensures PrecisionSign(n, negative, prec, flags) == "-" <==> negative && (flags.left || prec < PRINTF_NTOA_BUFFER_SIZE)
  {}

  lemma {:induction false} PaddedReads(sign: string, zeros: nat, value: nat, base: nat, upper: bool, width: nat, left: bool)
    requires 8 <= base <= 16 && sign in {"", "-", "+", " "}
    ensures ReadField(Padded(sign + (Repeat('0', zeros) + HexString(Numeral(value, base), upper)), width, left), base)
         == Some(if sign == "-" then -(value as int) else value as int)
  {
    hide ReadField, Repeat, Numeral, HexString;
    var d := HexString(Numeral(value, base), upper);
    var piece := sign + (Repeat('0', zeros) + d);
    var missing := Missing(|piece|, width);
    FieldReads(if left then 0 else missing, sign, zeros, value, base, upper, if left then missing else 0);
    NoRepeat();
    Grouped(Repeat(' ', if left then 0 else missing), sign, Repeat('0', zeros) + d, Repeat(' ', if left then missing else 0));
  }

  lemma {:induction false} Grouped(a: string, b: string, c: string, d: string)
    ensures a + b + c + d == a + (b + c) + d && [] + (b + c) + d == b + c + d && a + (b + c) + [] == a + (b + c)
    ensures [] + b + c + d == b + c + d && a + b + c + [] == a + b + c
  {}

  /** A precision of five for 42, aligned to the left: no zeros are put in front. */
  lemma {:induction false} PrecisionLost()
    ensures PrecisionZeros(2, 5, NO_FLAGS.(left := true, precision := true)) == 0
  {}

  // ---- the prefix of '#' ----

  function Prefix(base: nat, flags: Flags): string {
    if base == 16 then (if flags.uppercase then "0X" else "0x") else "0"
  }

  /** An unsigned octal or hexadecimal number with '#', without zero padding and precision. */
  ghost predicate HashField(value: nat, base: nat, flags: Flags) {
    && 0 < value < TWO64 && (base == 8 || base == 16)
    && flags.hash && !flags.precision && !flags.zeropad && !flags.plus && !flags.space
  }

  lemma {:induction false} HashBuffer(buf: string, base: nat, width: nat, flags: Flags)
    requires 1 <= |buf| <= 22 && (base == 8 || base == 16) && !flags.precision
    ensures |buf| != width ==> Reverse(Hashed(buf, base, 0, width, flags)) == Prefix(base, flags) + Reverse(buf)
    ensures |buf| == width ==> |Hashed(buf, base, 0, width, flags)| < |Prefix(base, flags)| + |buf|
  {
    if |buf| != width {
      assert buf[..|buf|] == buf;
      if base == 16 {
        var x := if flags.uppercase then 'X' else 'x';
        assert Hashed(buf, base, 0, width, flags) == buf + [x] + ['0'];
        ReverseConcat(buf + [x], ['0']);
        ReverseConcat(buf, [x]);
        OneReversed('0');
        OneReversed(x);
        assert ['0'] + ([x] + Reverse(buf)) == ['0', x] + Reverse(buf);
      } else {
        assert Hashed(buf, base, 0, width, flags) == buf + ['0'];
        ReverseConcat(buf, ['0']);
        OneReversed('0');
      }
    }
  }

  lemma {:induction false} OneReversed(c: char)
    ensures Reverse([c]) == [c]
  {}

  /** The number is shown with its prefix exactly when the width is not the number of its digits: such a width makes the
      code drop one or two of them. */
  lemma {:induction false} HashExactly(value: nat, base: nat, width: nat, flags: Flags)
    requires HashField(value, base, flags)
    ensures Ntoa(value, false, base, 0, width, flags)
         == Padded(Prefix(base, flags) + HexString(Numeral(value, base), flags.uppercase), width, flags.left)
       <==> |Numeral(value, base)| != width
  {
    NumeralFits(value, base);
    LowDigitsAre(value, base, flags.uppercase, PRINTF_NTOA_BUFFER_SIZE);
    var buf := LowDigits(value, base, flags.uppercase, PRINTF_NTOA_BUFFER_SIZE);
    HashBuffer(buf, base, width, flags);
    HashFormat(buf, base, width, flags);
    var hashed := Hashed(buf, base, 0, width, flags);
    OutRevIsPadded(hashed, width, flags);
    hide NtoaFormat, Hashed, LowDigits, Numeral, HexString, Padded, OutRev, Prefix;
    assert |Reverse(hashed)| == |hashed|;
    PaddedLength(Reverse(hashed), width, flags.left);
    PaddedLength(Prefix(base, flags) + HexString(Numeral(value, base), flags.uppercase), width, flags.left);
  }

  lemma {:induction false} PaddedLength(s: string, width: nat, left: bool)
    ensures |Padded(s, width, left)| == if |s| < width then width else |s|
  {}

  lemma {:induction false} HashFormat(buf: string, base: nat, width: nat, flags: Flags)
    requires 1 <= |buf| <= 22 && flags.hash && !flags.precision && !flags.zeropad && !flags.plus && !flags.space
    ensures NtoaFormat(buf, false, base, 0, width, flags) == OutRev(Hashed(buf, base, 0, width, flags), width, flags)
  {
    NoZeros();
    assert buf + "" == buf;
    hide Hashed, OutRev, Repeat;
  }

  /** 0x1234 in a field of four places. */
  lemma {:induction false} DigitsLost()
    ensures Ntoa(0x1234, false, 16, 0, 4, NO_FLAGS.(hash := true)) == "0x34"
  {
    FourDigits();
    HashFormat("4321", 16, 4, NO_FLAGS.(hash := true));
    assert Hashed("4321", 16, 0, 4, NO_FLAGS.(hash := true)) == "43x0" by {
      assert "4321"[..2] == "43";
    }
    BackToFront();
    assert Repeat(' ', 0) + "0x34" == "0x34" by { NoRepeat(); }
    hide Hashed, NtoaFormat, LowDigits, Reverse, Repeat;
    assert OutRev("43x0", 4, NO_FLAGS.(hash := true)) == "" + Reverse("43x0") + "" by { NoRepeat(); }
  }

  lemma {:induction false} BackToFront()
    ensures Reverse("43x0") == "0x34"
  {
    var r := Reverse("43x0");
    assert r[0] == '0' && r[1] == 'x' && r[2] == '3' && r[3] == '4';
  }

  lemma {:induction false} FourDigits()
    ensures LowDigits(0x1234, 16, false, PRINTF_NTOA_BUFFER_SIZE) == "4321"
  {
    assert LowDigits(1, 16, false, 29) == ['1'];
    assert LowDigits(0x12, 16, false, 30) == ['2'] + ['1'];
    assert LowDigits(0x123, 16, false, 31) == ['3'] + (['2'] + ['1']);
  }
}
