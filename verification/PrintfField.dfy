/** Reading a printed integer back: the width of a field and the value it shows. */
module PrintfField {
  import opened HexDigits
  import opened Sequences
  import opened Bits
  import opened Wire
  import opened Radix
  import opened Printf

  // ---- a reader of fields ----

  function SkipSpaces(s: string): string {
    if s != [] && s[0] == ' ' then SkipSpaces(s[1..]) else s
  }

  function DropSpaces(s: string): string {
    if s != [] && s[|s| - 1] == ' ' then DropSpaces(s[..|s| - 1]) else s
  }

  function ReadDigits(s: string, base: nat): Option<nat> {
    if s == [] then Some(0)
    else
      var front, d := ReadDigits(s[..|s| - 1], base), HexValue(s[|s| - 1]);
      if front.None? || d.None? || d.value >= base then None else Some(front.value * base + d.value)
  }

  /** Spaces, a sign, digits, spaces. */
  function ReadField(s: string, base: nat): Option<int> {
    var t := DropSpaces(SkipSpaces(s));
    if t == [] then None
    else if t[0] == '-' then Negated(ReadDigits(t[1..], base))
    else if t[0] == '+' then ReadDigits(t[1..], base)
    else ReadDigits(t, base)
  }

  function Negated(d: Option<nat>): Option<int> {
    if d.None? then None else Some(-(d.value as int))
  }

  // ---- digits ----

  lemma {:induction false} CharsSnoc(d: seq<nat>, x: nat, upper: bool)
    requires (forall i :: 0 <= i < |d| ==> d[i] < 16) && x < 16
    ensures HexString(d + [x], upper) == HexString(d, upper) + [HexDigit(x, upper)]
  {
    assert (d + [x])[..|d|] == d;
  }

  lemma {:induction false} ReverseCons(c: char, s: string)
    ensures Reverse([c] + s) == Reverse(s) + [c]
  {
    assert ([c] + s)[1..] == s;
  }

  lemma {:induction false} ReverseConcat(s: string, t: string)
    ensures Reverse(s + t) == Reverse(t) + Reverse(s)
  {
    if s == [] {
      assert s + t == t && Reverse(t) + [] == Reverse(t);
    } else {
      assert s + t == [s[0]] + (s[1..] + t);
      ReverseCons(s[0], s[1..] + t);
      ReverseConcat(s[1..], t);
      assert s == [s[0]] + s[1..];
      ReverseCons(s[0], s[1..]);
      assert Reverse(t) + Reverse(s[1..]) + [s[0]] == Reverse(t) + (Reverse(s[1..]) + [s[0]]);
    }
  }

  /** The conversion buffer holds the numeral backwards, when it is long enough. */
  lemma {:induction false} LowDigitsAre(value: nat, base: nat, upper: bool, room: nat)
    requires 2 <= base <= 16 && room > 0 && |Numeral(value, base)| <= room
    ensures Reverse(LowDigits(value, base, upper, room)) == HexString(Numeral(value, base), upper)
    ensures |LowDigits(value, base, upper, room)| == |Numeral(value, base)|
    decreases room
  {
    DivModOf(value, base);
    DigitsStep(value, base);
    var q, d := value / base, value % base;
    if q == 0 {
      assert Numeral(value, base) == [] + [d];
      CharsSnoc([], d, upper);
      ReverseCons(HexDigit(d, upper), []);
    } else {
      assert Numeral(value, base) == Numeral(q, base) + [d];
      DigitsMinimal(q, base);
      LowDigitsAre(q, base, upper, room - 1);
      CharsSnoc(Numeral(q, base), d, upper);
      ReverseCons(HexDigit(d, upper), LowDigits(q, base, upper, room - 1));
    }
  }

  lemma {:induction false} ReadSnoc(s: string, c: char, base: nat)
    requires ReadDigits(s, base).Some? && HexValue(c).Some? && HexValue(c).value < base
    ensures ReadDigits(s + [c], base) == Some(ReadDigits(s, base).value * base + HexValue(c).value)
  {
    hide HexValue;
    assert (s + [c])[..|s|] == s;
  }

  /** Zeros in front do not change the number read. */
  lemma {:induction false} ReadChars(zeros: nat, d: seq<nat>, base: nat, upper: bool)
    requires 2 <= base <= 16 && forall i :: 0 <= i < |d| ==> d[i] < base
    ensures ReadDigits(Repeat('0', zeros) + HexString(d, upper), base) == Some(FromDigits(d, base))
    decreases |d| + zeros
  {
    hide HexValue, HexDigit, ReadDigits;
    if d != [] {
      var front, x := d[..|d| - 1], d[|d| - 1];
      HexDigitBack(x, upper);
      ReadChars(zeros, front, base, upper);
      ReadSnoc(Repeat('0', zeros) + HexString(front, upper), HexDigit(x, upper), base);
      assert Repeat('0', zeros) + HexString(d, upper) == Repeat('0', zeros) + HexString(front, upper) + [HexDigit(x, upper)];
    } else if zeros > 0 {
      ReadChars(zeros - 1, d, base, upper);
      ZeroDigit();
      ReadSnoc(Repeat('0', zeros - 1) + [], '0', base);
      assert Repeat('0', zeros) + HexString(d, upper) == Repeat('0', zeros - 1) + [] + ['0'];
    } else {
      NoDigits(base);
      assert Repeat('0', zeros) + HexString(d, upper) == [];
    }
  }

  lemma {:induction false} ZeroDigit()
    ensures HexValue('0') == Some(0)
  {}

  lemma {:induction false} NoDigits(base: nat)
    ensures ReadDigits([], base) == Some(0)
  {}

  lemma {:induction false} ReadNumeral(zeros: nat, value: nat, base: nat, upper: bool)
    requires 2 <= base <= 16
    ensures ReadDigits(Repeat('0', zeros) + HexString(Numeral(value, base), upper), base) == Some(value)
  {
    ReadChars(zeros, Numeral(value, base), base, upper);
    DigitsReadBack(value, base);
    assert value == 0 ==> [0][..0] == [];
  }

  // ---- spaces ----

  lemma {:induction false} RepeatCons(c: char, n: nat)
    requires n > 0
    ensures Repeat(c, n) == [c] + Repeat(c, n - 1)
  {
    if n > 1 {
      RepeatCons(c, n - 1);
    }
  }

  lemma {:induction false} SkipAll(n: nat, s: string)
    requires s != [] && s[0] != ' '
    ensures SkipSpaces(Repeat(' ', n) + s) == s
  {
    if n > 0 {
      RepeatCons(' ', n);
      SkipAll(n - 1, s);
      assert (Repeat(' ', n) + s)[1..] == Repeat(' ', n - 1) + s;
    } else {
      assert Repeat(' ', n) + s == s;
    }
  }

  lemma {:induction false} DropAll(n: nat, s: string)
    requires s != [] && s[|s| - 1] != ' '
    ensures DropSpaces(s + Repeat(' ', n)) == s
  {
    if n > 0 {
      DropAll(n - 1, s);
      assert (s + Repeat(' ', n))[..|s| + n - 1] == s + Repeat(' ', n - 1);
    } else {
      assert s + Repeat(' ', n) == s;
    }
  }

  /** What stands in front of the digits. */
  function Sign(negative: bool, flags: Flags): string {
    if negative then "-" else if flags.plus then "+" else if flags.space then " " else ""
  }

  lemma {:induction false} FirstIsPlain(zeros: nat, d: seq<nat>, base: nat, upper: bool)
    requires 2 <= base <= 16 && d != [] && forall i :: 0 <= i < |d| ==> d[i] < base
    ensures var s := Repeat('0', zeros) + HexString(d, upper);
      s != [] && s[0] !in {' ', '+', '-'} && s[|s| - 1] !in {' ', '+', '-'}
  {
    HexDigitBack(d[|d| - 1], upper);
    if zeros == 0 {
      FirstChar(d, upper);
      HexDigitBack(d[0], upper);
    }
  }

  lemma {:induction false} FirstChar(d: seq<nat>, upper: bool)
    requires d != [] && forall i :: 0 <= i < |d| ==> d[i] < 16
    ensures HexString(d, upper)[0] == HexDigit(d[0], upper)
  {
    if |d| > 1 {
      FirstChar(d[..|d| - 1], upper);
    }
  }

  lemma {:induction false} NumeralNotEmpty(value: nat, base: nat)
    requires base >= 2
    ensures Numeral(value, base) != []
  {
    DigitsMinimal(value, base);
  }

  /** A field of this form reads back as its number. */
  lemma {:induction false} FieldReads(before: nat, sign: string, zeros: nat, value: nat, base: nat, upper: bool, after: nat)
    requires 2 <= base <= 16 && sign in {"", "-", "+", " "}
    ensures ReadField(Repeat(' ', before) + sign + (Repeat('0', zeros) + HexString(Numeral(value, base), upper)) + Repeat(' ', after), base)
         == Some(if sign == "-" then -(value as int) else value as int)
  {
    hide ReadDigits, HexString, Numeral, SkipSpaces, DropSpaces, Repeat;
    var digits := Repeat('0', zeros) + HexString(Numeral(value, base), upper);
    ReadNumeral(zeros, value, base, upper);
    NumeralNotEmpty(value, base);
    FirstIsPlain(zeros, Numeral(value, base), base, upper);
    StripField(before, sign, digits, after);
    assert (sign + digits)[1..] == if sign == "" then digits[1..] else digits;
    assert sign == "" ==> sign + digits == digits;
  }

  lemma {:induction false} StripField(before: nat, sign: string, digits: string, after: nat)
    requires sign in {"", "-", "+", " "} && digits != [] && digits[0] != ' ' && digits[|digits| - 1] != ' '
    ensures DropSpaces(SkipSpaces(Repeat(' ', before) + sign + digits + Repeat(' ', after)))
         == if sign == " " then digits else sign + digits
  {
    var core := if sign == " " then digits else sign + digits;
    var skipped := if sign == " " then before + 1 else before;
    assert sign == " " ==> Repeat(' ', before) + sign == Repeat(' ', before + 1);
    assert Repeat(' ', before) + sign + digits + Repeat(' ', after) == Repeat(' ', skipped) + (core + Repeat(' ', after));
    SkipAll(skipped, core + Repeat(' ', after));
    DropAll(after, core);
  }

  // ---- integer fields ----

  /** Octal, decimal and hexadecimal numerals of 64 bits leave room in the conversion buffer. */
  lemma {:induction false} NumeralFits(value: nat, base: nat)
    requires value < TWO64 && base >= 8
    ensures 1 <= |Numeral(value, base)| <= 22
  {
    NumeralNotEmpty(value, base);
    EightPower(22);
    PowerGrows(base, 22);
    DigitsFit(value, base, 22);
  }

  lemma {:induction false} EightPower(k: nat)
    ensures k == 22 ==> Power(8, k) >= TWO64
  {
    if k == 22 {
      assert Power(8, 8) == 0x100_0000;
      assert Power(8, 16) == 0x1_0000_0000_0000;
      assert Power(8, 22) == 0x4_0000_0000_0000_0000;
    }
  }

  lemma {:induction false} PowerGrows(base: nat, k: nat)
    requires base >= 8
    ensures Power(8, k) <= Power(base, k)
  {
    if k > 0 {
      PowerGrows(base, k - 1);
      PowerPositive(8, k - 1);
      MulLe(8, base, Power(8, k - 1));
      MulLe(Power(8, k - 1), Power(base, k - 1), base);
    }
  }

  lemma {:induction false} ReverseSame(c: char, n: nat)
    ensures Reverse(Repeat(c, n)) == Repeat(c, n)
  {}

  /** The sign that is printed: zeros may have used its place. */
  function SignShown(negative: bool, width: nat, flags: Flags): string {
    if flags.zeropad && !flags.left && width > PRINTF_NTOA_BUFFER_SIZE then "" else Sign(negative, flags)
  }

  /** The zeros in front of `n` digits. */
  function ZerosShown(n: nat, negative: bool, width: nat, flags: Flags): nat {
    if flags.left || !flags.zeropad then 0 else Missing(n, Min(Inner(negative, width, flags), PRINTF_NTOA_BUFFER_SIZE))
  }

  /** The parts of an integer field without precision and '#'. */
  function Layout(d: string, negative: bool, width: nat, flags: Flags): string {
    var natural := |Sign(negative, flags)| + |d|;
    (if flags.left || flags.zeropad then [] else Repeat(' ', Missing(natural, width)))
    + SignShown(negative, width, flags)
    + (Repeat('0', ZerosShown(|d|, negative, width, flags)) + d)
    + (if flags.left then Repeat(' ', Missing(natural, width)) else [])
  }

  lemma {:induction false} SignedReversed(buf: string, negative: bool, flags: Flags)
    requires |buf| <= PRINTF_NTOA_BUFFER_SIZE
    ensures Reverse(WithSign(buf, negative, flags))
         == (if |buf| < PRINTF_NTOA_BUFFER_SIZE then Sign(negative, flags) else "") + Reverse(buf)
    ensures |WithSign(buf, negative, flags)|
         == (if |buf| < PRINTF_NTOA_BUFFER_SIZE then |Sign(negative, flags)| else 0) + |buf|
  {
    if |buf| < PRINTF_NTOA_BUFFER_SIZE && Sign(negative, flags) != "" {
      assert WithSign(buf, negative, flags) == buf + Sign(negative, flags);
    }
  }

  lemma {:induction false} ZerosReversed(buf: string, negative: bool, width: nat, flags: Flags)
    requires |buf| <= PRINTF_NTOA_BUFFER_SIZE
    ensures var padded := ZeroPadded(buf, 0, Inner(negative, width, flags), flags);
      && |padded| == ZerosShown(|buf|, negative, width, flags) + |buf|
      && Reverse(padded) == Repeat('0', ZerosShown(|buf|, negative, width, flags)) + Reverse(buf)
  {
    var k := ZerosShown(|buf|, negative, width, flags);
    assert buf + Repeat('0', 0) == buf;
    assert ZeroPadded(buf, 0, Inner(negative, width, flags), flags) == buf + Repeat('0', k);
    ReverseConcat(buf, Repeat('0', k));
    ReverseSame('0', k);
  }

  /** The conversion buffer once it has its zeros and its sign. */
  lemma {:induction false} BufferShown(buf: string, negative: bool, width: nat, flags: Flags)
    requires |buf| <= 22
    ensures var marked := WithSign(ZeroPadded(buf, 0, Inner(negative, width, flags), flags), negative, flags);
      && Reverse(marked) == SignShown(negative, width, flags) + (Repeat('0', ZerosShown(|buf|, negative, width, flags)) + Reverse(buf))
      && |marked| == |SignShown(negative, width, flags)| + ZerosShown(|buf|, negative, width, flags) + |buf|
  {
    hide ZeroPadded, WithSign, Repeat, Reverse;
    ZerosReversed(buf, negative, width, flags);
    SignedReversed(ZeroPadded(buf, 0, Inner(negative, width, flags), flags), negative, flags);
  }

  /** A field without zero padding needs as many characters as its sign and its digits. */
  lemma {:induction false} NaturalLength(n: nat, negative: bool, width: nat, flags: Flags)
    ensures flags.left || !flags.zeropad ==>
      && Inner(negative, width, flags) == width
      && |SignShown(negative, width, flags)| + ZerosShown(n, negative, width, flags) + n == |Sign(negative, flags)| + n
  {}

  lemma {:induction false} FieldLayout(buf: string, negative: bool, base: nat, width: nat, flags: Flags)
    requires |buf| <= 22 && !flags.hash
    ensures NtoaFormat(buf, negative, base, 0, width, flags) == Layout(Reverse(buf), negative, width, flags)
  {
    hide ZeroPadded, WithSign, Repeat, Reverse, Inner, SignShown, ZerosShown, Sign, Missing;
    BufferShown(buf, negative, width, flags);
    NaturalLength(|buf|, negative, width, flags);
  }

  /** An integer without precision and '#'. */
  ghost predicate PlainField(value: nat, negative: bool, base: nat, flags: Flags) {
    value < TWO64 && 8 <= base <= 16 && !flags.hash && !flags.precision && (negative ==> value > 0)
  }

  lemma {:induction false} PlainLayout(value: nat, negative: bool, base: nat, width: nat, flags: Flags)
    requires PlainField(value, negative, base, flags)
    ensures 1 <= |Numeral(value, base)| <= 22
    ensures Ntoa(value, negative, base, 0, width, flags) == Layout(HexString(Numeral(value, base), flags.uppercase), negative, width, flags)
  {
    NumeralFits(value, base);
    LowDigitsAre(value, base, flags.uppercase, PRINTF_NTOA_BUFFER_SIZE);
    var buf := LowDigits(value, base, flags.uppercase, PRINTF_NTOA_BUFFER_SIZE);
    assert flags.(hash := false) == flags;
    FieldLayout(buf, negative, base, width, flags);
  }

  /** The field is as wide as it was asked to be, or as its number needs, exactly when it need not be filled
      with more zeros than the conversion buffer takes. */
  lemma {:induction false} WidthExactly(value: nat, negative: bool, base: nat, width: nat, flags: Flags)
    requires PlainField(value, negative, base, flags)
    ensures var natural := |Sign(negative, flags)| + |Numeral(value, base)|;
      |Ntoa(value, negative, base, 0, width, flags)| == (if natural < width then width else natural)
      <==> !flags.zeropad || flags.left || width <= PRINTF_NTOA_BUFFER_SIZE
  {
    hide *;
    PlainLayout(value, negative, base, width, flags);
    PlainParts(value, negative, base, flags);
    LayoutWidth(HexString(Numeral(value, base), flags.uppercase), negative, width, flags);
  }

  lemma {:induction false} LayoutWidth(d: string, negative: bool, width: nat, flags: Flags)
    requires |d| <= 22
    ensures var natural := |Sign(negative, flags)| + |d|;
      |Layout(d, negative, width, flags)| == (if natural < width then width else natural)
      <==> !flags.zeropad || flags.left || width <= PRINTF_NTOA_BUFFER_SIZE
  {
    hide Repeat, Sign;
    assert |Sign(negative, flags)| <= 1 by { SignLength(negative, flags); }
    if flags.zeropad && !flags.left {
      ZeroPaddedWidth(|d|, negative, width, flags);
    } else {
      NaturalLength(|d|, negative, width, flags);
    }
  }

  lemma {:induction false} SignLength(negative: bool, flags: Flags)
    ensures |Sign(negative, flags)| == if negative || flags.plus || flags.space then 1 else 0
  {}

  lemma {:induction false} ZeroPaddedWidth(n: nat, negative: bool, width: nat, flags: Flags)
    requires n <= 22 && flags.zeropad && !flags.left
    ensures var natural, shown := |Sign(negative, flags)| + n, |SignShown(negative, width, flags)| + ZerosShown(n, negative, width, flags) + n;
      shown == (if natural < width then width else natural) <==> width <= PRINTF_NTOA_BUFFER_SIZE
  {
    SignLength(negative, flags);
    hide Sign;
  }

  /** The field reads back as its number exactly when it is not negative or kept its sign. */
  lemma {:induction false} ReadsBackExactly(value: nat, negative: bool, base: nat, width: nat, flags: Flags)
    requires PlainField(value, negative, base, flags)
    ensures ReadField(Ntoa(value, negative, base, 0, width, flags), base) == Some(if negative then -(value as int) else value as int)
       <==> !negative || !flags.zeropad || flags.left || width <= PRINTF_NTOA_BUFFER_SIZE
  {
    hide *;
    PlainParts(value, negative, base, flags);
    PlainLayout(value, negative, base, width, flags);
    LayoutReads(value, negative, base, width, flags);
    SignKept(negative, width, flags);
  }

  lemma {:induction false} PlainParts(value: nat, negative: bool, base: nat, flags: Flags)
    requires PlainField(value, negative, base, flags)
    ensures 8 <= base <= 16 && (negative ==> value > 0)
  {}

  lemma {:induction false} SignKept(negative: bool, width: nat, flags: Flags)
    ensures SignShown(negative, width, flags) in {"", "-", "+", " "}
    ensures SignShown(negative, width, flags) == "-"
       <==> negative && (!flags.zeropad || flags.left || width <= PRINTF_NTOA_BUFFER_SIZE)
  {}

  lemma {:induction false} LayoutReads(value: nat, negative: bool, base: nat, width: nat, flags: Flags)
    requires 8 <= base <= 16
    ensures ReadField(Layout(HexString(Numeral(value, base), flags.uppercase), negative, width, flags), base)
         == Some(if SignShown(negative, width, flags) == "-" then -(value as int) else value as int)
  {
    hide Numeral, HexString, ReadField, ZerosShown, SignShown, Sign, Missing, Repeat;
    var d := HexString(Numeral(value, base), flags.uppercase);
    var missing := Missing(|Sign(negative, flags)| + |d|, width);
    SignKept(negative, width, flags);
    NoRepeat();
    FieldReads(if flags.left || flags.zeropad then 0 else missing, SignShown(negative, width, flags),
               ZerosShown(|d|, negative, width, flags), value, base, flags.uppercase, if flags.left then missing else 0);
  }

  lemma {:induction false} NoRepeat()
    ensures Repeat(' ', 0) == []
  {}

  /** Where the spaces, the zeros and the sign go. */
  lemma {:induction false} FieldSides(value: nat, negative: bool, base: nat, width: nat, flags: Flags)
    requires PlainField(value, negative, base, flags)
    ensures var sign, d := Sign(negative, flags), HexString(Numeral(value, base), flags.uppercase);
      var room := if |sign| + |d| < width then width - (|sign| + |d|) else 0;
      && (flags.left ==> Ntoa(value, negative, base, 0, width, flags) == sign + d + Repeat(' ', room))
      && (!flags.left && !flags.zeropad ==> Ntoa(value, negative, base, 0, width, flags) == Repeat(' ', room) + sign + d)
      && (!flags.left && flags.zeropad && width <= PRINTF_NTOA_BUFFER_SIZE ==>
            Ntoa(value, negative, base, 0, width, flags) == sign + Repeat('0', room) + d)
  {
    hide *;
    PlainParts(value, negative, base, flags);
    PlainLayout(value, negative, base, width, flags);
    var d := HexString(Numeral(value, base), flags.uppercase);
    LayoutLeft(d, negative, width, flags);
    LayoutRight(d, negative, width, flags);
    LayoutZeros(d, negative, width, flags);
  }

  lemma {:induction false} LayoutLeft(d: string, negative: bool, width: nat, flags: Flags)
    ensures var sign := Sign(negative, flags);
      var room := if |sign| + |d| < width then width - (|sign| + |d|) else 0;
      flags.left ==> Layout(d, negative, width, flags) == sign + d + Repeat(' ', room)
  {
    hide Sign;
    assert Repeat('0', 0) + d == d;
  }

  lemma {:induction false} LayoutRight(d: string, negative: bool, width: nat, flags: Flags)
    ensures var sign := Sign(negative, flags);
      var room := if |sign| + |d| < width then width - (|sign| + |d|) else 0;
      !flags.left && !flags.zeropad ==> Layout(d, negative, width, flags) == Repeat(' ', room) + sign + d
  {
    hide Sign;
    assert Repeat('0', 0) + d == d;
  }

  lemma {:induction false} LayoutZeros(d: string, negative: bool, width: nat, flags: Flags)
    requires 1 <= |d| <= 22
    ensures var sign := Sign(negative, flags);
      var room := if |sign| + |d| < width then width - (|sign| + |d|) else 0;
      !flags.left && flags.zeropad && width <= PRINTF_NTOA_BUFFER_SIZE ==>
        Layout(d, negative, width, flags) == sign + Repeat('0', room) + d
  {
    if !flags.left && flags.zeropad && width <= PRINTF_NTOA_BUFFER_SIZE {
      ZerosAre(|d|, negative, width, flags);
      hide Sign, SignShown, ZerosShown, Repeat;
      assert Layout(d, negative, width, flags)
          == Sign(negative, flags) + (Repeat('0', ZerosShown(|d|, negative, width, flags)) + d);
    }
  }

  lemma {:induction false} ZerosAre(n: nat, negative: bool, width: nat, flags: Flags)
    requires 1 <= n <= 22 && !flags.left && flags.zeropad && width <= PRINTF_NTOA_BUFFER_SIZE
    ensures var sign := Sign(negative, flags);
      SignShown(negative, width, flags) == sign
      && ZerosShown(n, negative, width, flags) == if |sign| + n < width then width - (|sign| + n) else 0
  {}

  /** The base of every letter, and which of them take signed numbers. */
  lemma {:induction false} Letters(c: char)
    ensures IsInteger(c) <==> c in {'d', 'i', 'u', 'x', 'X', 'o', 'b'}
    ensures IsSigned(c) <==> c in {'d', 'i'}
    ensures BaseOf('x') == 16 && BaseOf('X') == 16 && BaseOf('o') == 8 && BaseOf('b') == 2
    ensures BaseOf('d') == 10 && BaseOf('i') == 10 && BaseOf('u') == 10
  {}

  /** The flags that act on an integer: '#' only in front of other bases than ten, capitals for 'X' alone, a sign
      shown for signed conversions alone, and zeros only where no precision is given. */
  lemma {:induction false} FlagsActing(c: char, flags: Flags)
    requires IsInteger(c)
    ensures var g := IntegerFlags(c, flags);
      && (g.hash <==> flags.hash && c !in {'d', 'i', 'u'})
      && (g.uppercase <==> flags.uppercase || c == 'X')
      && (g.plus <==> flags.plus && c in {'d', 'i'})
      && (g.space <==> flags.space && c in {'d', 'i'})
      && (g.zeropad <==> flags.zeropad && !flags.precision)
      && SameOthers(flags, g)
  {
    hide *;
    var f1 := HashActs(c, flags);
    var f2 := UppercaseActs(c, f1);
    var f3 := SignActs(c, f2);
    var f4 := ZerosAct(f3);
    SameThrough(flags, f1, f2);
    SameThrough(flags, f2, f3);
    SameThrough(flags, f3, f4);
    FlagSteps(c, flags, f1, f2, f3, f4);
  }

  lemma {:induction false} HashActs(c: char, f: Flags) returns (g: Flags)
    requires IsInteger(c)
    ensures g == if BaseOf(c) == 10 then WithoutHash(f) else f
    ensures (g.hash <==> f.hash && c !in {'d', 'i', 'u'}) && SameOthers(f, g)
    ensures g.uppercase == f.uppercase && g.plus == f.plus && g.space == f.space && g.zeropad == f.zeropad
  {
    hide WithoutHash, SameOthers;
    HashOff(f);
    SameItself(f);
    g := if BaseOf(c) == 10 then WithoutHash(f) else f;
  }

  lemma {:induction false} UppercaseActs(c: char, f: Flags) returns (g: Flags)
    ensures g == if c == 'X' then WithUppercase(f) else f
    ensures (g.uppercase <==> f.uppercase || c == 'X') && SameOthers(f, g)
    ensures g.hash == f.hash && g.plus == f.plus && g.space == f.space && g.zeropad == f.zeropad
  {
    hide WithUppercase, SameOthers;
    UppercaseOn(f);
    SameItself(f);
    g := if c == 'X' then WithUppercase(f) else f;
  }

  lemma {:induction false} SignActs(c: char, f: Flags) returns (g: Flags)
    ensures g == if !IsSigned(c) then WithoutSign(f) else f
    ensures (g.plus <==> f.plus && c in {'d', 'i'}) && (g.space <==> f.space && c in {'d', 'i'}) && SameOthers(f, g)
    ensures g.hash == f.hash && g.uppercase == f.uppercase && g.zeropad == f.zeropad
  {
    hide WithoutSign, SameOthers;
    SignOff(f);
    SameItself(f);
    g := if !IsSigned(c) then WithoutSign(f) else f;
  }

  lemma {:induction false} ZerosAct(f: Flags) returns (g: Flags)
    ensures g == if f.precision then WithoutZeros(f) else f
    ensures (g.zeropad <==> f.zeropad && !f.precision) && SameOthers(f, g)
    ensures g.hash == f.hash && g.uppercase == f.uppercase && g.plus == f.plus && g.space == f.space
  {
    hide WithoutZeros, SameOthers;
    ZerosOff(f);
    SameItself(f);
    g := if f.precision then WithoutZeros(f) else f;
  }

  lemma {:induction false} FlagSteps(c: char, flags: Flags, f1: Flags, f2: Flags, f3: Flags, f4: Flags)
    requires f1 == if BaseOf(c) == 10 then WithoutHash(flags) else flags
    requires f2 == if c == 'X' then WithUppercase(f1) else f1
    requires f3 == if !IsSigned(c) then WithoutSign(f2) else f2
    requires f4 == if f3.precision then WithoutZeros(f3) else f3
    ensures IntegerFlags(c, flags) == f4
  {
    hide BaseOf, IsSigned, WithoutHash, WithUppercase, WithoutSign, WithoutZeros;
  }

  lemma {:induction false} SameItself(f: Flags)
    ensures SameOthers(f, f)
  {}

  lemma {:induction false} SameThrough(f: Flags, g: Flags, h: Flags)
    requires SameOthers(f, g) && SameOthers(g, h)
    ensures SameOthers(f, h) && g.precision == f.precision
  {}

  ghost predicate SameOthers(f: Flags, g: Flags) {
    && f.left == g.left && f.precision == g.precision && f.byteSized == g.byteSized && f.short == g.short
    && f.long == g.long && f.longLong == g.longLong
  }

  lemma {:induction false} HashOff(f: Flags)
    ensures var g := WithoutHash(f);
      !g.hash && g.uppercase == f.uppercase && g.plus == f.plus && g.space == f.space && g.zeropad == f.zeropad && SameOthers(f, g)
  {}

  lemma {:induction false} UppercaseOn(f: Flags)
    ensures var g := WithUppercase(f);
      g.uppercase && g.hash == f.hash && g.plus == f.plus && g.space == f.space && g.zeropad == f.zeropad && SameOthers(f, g)
  {}

  lemma {:induction false} SignOff(f: Flags)
    ensures var g := WithoutSign(f);
      !g.plus && !g.space && g.hash == f.hash && g.uppercase == f.uppercase && g.zeropad == f.zeropad && SameOthers(f, g)
  {}

  lemma {:induction false} ZerosOff(f: Flags)
    ensures var g := WithoutZeros(f);
      !g.zeropad && g.hash == f.hash && g.uppercase == f.uppercase && g.plus == f.plus && g.space == f.space && SameOthers(f, g)
  {}

  /** What the letters of the length field make of an argument: numbers modulo 2^8 or 2^16, or as they are. */
  lemma {:induction false} ArgumentSizes(v: int, flags: Flags)
    requires -0x8000_0000 < v < 0x8000_0000 && !flags.long && !flags.longLong
    ensures SignedValue(v, flags).Some?
    ensures var n := SignedValue(v, flags).value;
      && (flags.byteSized ==> 0 <= n < 0x100 && (n - v) % 0x100 == 0)
      && (!flags.byteSized && flags.short ==> -0x8000 <= n < 0x8000 && (n - v) % 0x1_0000 == 0)
      && (!flags.byteSized && !flags.short ==> n == v)
    ensures v >= 0 ==> UnsignedValue(v, flags).Some?
    ensures v >= 0 ==> var n := UnsignedValue(v, flags).value;
      && (flags.byteSized ==> n < 0x100 && (n - v) % 0x100 == 0)
      && (!flags.byteSized && flags.short ==> n < 0x1_0000 && (n - v) % 0x1_0000 == 0)
      && (!flags.byteSized && !flags.short ==> n == v)
  {}

  /** With l an argument has 32 bits, with ll and j it has 64, and is taken as it is. */
  lemma {:induction false} LongArguments(v: int, flags: Flags)
    requires flags.long || flags.longLong
    ensures flags.longLong && -0x8000_0000_0000_0000 < v < 0x8000_0000_0000_0000 ==> SignedValue(v, flags) == Some(v)
    ensures flags.longLong && 0 <= v < 0x1_0000_0000_0000_0000 ==> UnsignedValue(v, flags) == Some(v)
    ensures !flags.longLong && -0x8000_0000 < v < 0x8000_0000 ==> SignedValue(v, flags) == Some(v)
    ensures !flags.longLong && 0 <= v < 0x1_0000_0000 ==> UnsignedValue(v, flags) == Some(v)
  {}

  /** The same for a whole conversion: the argument is read back from its text. */
  lemma {:induction false} ConversionReadsBack(c: char, flags: Flags, width: nat, args: seq<Arg>)
    requires IsInteger(c) && c != 'b' && !flags.precision && !flags.hash && !flags.byteSized && !flags.short
    requires Converted(c, flags, width, 0, args).Some?
    ensures ReadField(Converted(c, flags, width, 0, args).value.0, BaseOf(c)) == Some(args[0].value)
       <==> args[0].value >= 0 || !flags.zeropad || flags.left || width <= PRINTF_NTOA_BUFFER_SIZE
  {
    hide *;
    ConversionIs(c, flags, width, args);
    ReadsBackExactly(Magnitude(args[0].value), args[0].value < 0, BaseOf(c), width, IntegerFlags(c, flags));
  }

  lemma {:induction false} ConversionIs(c: char, flags: Flags, width: nat, args: seq<Arg>)
    requires IsInteger(c) && c != 'b' && !flags.precision && !flags.hash && !flags.byteSized && !flags.short
    requires Converted(c, flags, width, 0, args).Some?
    ensures args != [] && args[0].Number?
    ensures var v, fl := args[0].value, IntegerFlags(c, flags);
      && PlainField(Magnitude(v), v < 0, BaseOf(c), fl) && fl.zeropad == flags.zeropad && fl.left == flags.left
      && Converted(c, flags, width, 0, args).value.0 == Ntoa(Magnitude(v), v < 0, BaseOf(c), 0, width, fl)
      && (if v < 0 then -(Magnitude(v) as int) else Magnitude(v) as int) == v
  {
    hide Ntoa, ReadField, IntegerFlags, IsSigned, SignedValue, UnsignedValue;
    FlagsKept(c, flags);
    ValueKept(args[0].value, IntegerFlags(c, flags));
  }

  /** The flags that the field lemmas look at. */
  ghost predicate Alike(f: Flags, g: Flags) {
    && f.precision == g.precision && f.left == g.left && f.byteSized == g.byteSized && f.short == g.short
    && (f.hash ==> g.hash) && (!g.precision ==> f.zeropad == g.zeropad)
  }

  lemma {:induction false} StepsAlike(f: Flags, g: Flags)
    requires Alike(f, g)
    ensures Alike(WithoutHash(f), g) && Alike(WithUppercase(f), g) && Alike(WithoutSign(f), g)
    ensures f.precision ==> Alike(WithoutZeros(f), g)
  {}

  lemma {:induction false} FlagsKept(c: char, flags: Flags)
    ensures Alike(IntegerFlags(c, flags), flags)
  {
    hide BaseOf, IsSigned, WithoutHash, WithUppercase, WithoutSign, WithoutZeros;
    var f1 := if BaseOf(c) == 10 then WithoutHash(flags) else flags;
    var f2 := if c == 'X' then WithUppercase(f1) else f1;
    var f3 := if !IsSigned(c) then WithoutSign(f2) else f2;
    assert Alike(flags, flags);
    StepsAlike(flags, flags);
    StepsAlike(f1, flags);
    StepsAlike(f2, flags);
    StepsAlike(f3, flags);
  }

  lemma {:induction false} ValueKept(v: int, flags: Flags)
    requires !flags.byteSized && !flags.short
    ensures SignedValue(v, flags).Some? ==> SignedValue(v, flags).value == v && Magnitude(v) < TWO64
    ensures UnsignedValue(v, flags).Some? ==> UnsignedValue(v, flags).value == v && 0 <= v < TWO64
  {}

  /** The first width that loses a sign: -5 in 33 places. */
  lemma {:induction false} SignLost()
    ensures ReadField(Ntoa(5, true, 10, 0, 33, NO_FLAGS.(zeropad := true)), 10) != Some(-5)
  {
    hide Ntoa, ReadField;
    ReadsBackExactly(5, true, 10, 33, NO_FLAGS.(zeropad := true));
  }
}
