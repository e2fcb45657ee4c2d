/** What formats mean: literal text, and directives with flags, width and precision. */
module PrintfText {
  import opened HexDigits
  import opened Sequences
  import opened Bits
  import opened Wire
  import opened Radix
  import opened Printf

  // ---- literal text ----

  /** A format without '%' stands for itself. */
  lemma {:induction false} LiteralText(f: string, args: seq<Arg>)
    requires '%' !in f
    ensures Format(f, args) == Some(f)
    decreases |f|
  {
    if f != [] {
      assert f == [f[0]] + f[1..];
      LiteralText(f[1..], args);
    }
  }

  /** Text in front of a directive comes in front of its text. */
  lemma {:induction false} TextBefore(text: string, f: string, args: seq<Arg>)
    requires '%' !in text
    ensures Format(text + f, args) == if Format(f, args).None? then None else Some(text + Format(f, args).value)
    decreases |text|
  {
    if text == [] {
      assert text + f == f && (Format(f, args).Some? ==> [] + Format(f, args).value == Format(f, args).value);
    } else {
      assert text == [text[0]] + text[1..];
      assert (text + f)[1..] == text[1..] + f && (text + f)[0] == text[0];
      TextBefore(text[1..], f, args);
      hide Directive;
      if Format(f, args).Some? {
        assert [text[0]] + (text[1..] + Format(f, args).value) == text + Format(f, args).value;
      }
    }
  }

  /** A directive gives its text, and the format goes on behind it with the arguments that are left. */
  lemma {:induction false} DirectiveFirst(f: string, args: seq<Arg>)
    requires Directive(f, args).Some?
    ensures var d := Directive(f, args).value;
      Format(['%'] + f, args) == if Format(d.1, d.2).None? then None else Some(d.0 + Format(d.1, d.2).value)
  {
    assert (['%'] + f)[1..] == f;
    hide Directive;
  }

  // ---- the parts of a directive ----

  predicate IsFlag(c: char) {
    c in {'0', '-', '+', ' ', '#'}
  }

  /** The specifier: none of the characters with a meaning in front of it. */
  predicate Specifier(c: char) {
    !IsFlag(c) && !IsDigit(c) && c !in {'*', '.', 'l', 'h', 't', 'j', 'z'}
  }

  /** Every flag letter sets its flag, in any order. */
  lemma {:induction false} FlagLetters(f: string, flags: Flags)
    ensures ScanFlags(['0'] + f, flags) == ScanFlags(f, flags.(zeropad := true))
    ensures ScanFlags(['-'] + f, flags) == ScanFlags(f, flags.(left := true))
    ensures ScanFlags(['+'] + f, flags) == ScanFlags(f, flags.(plus := true))
    ensures ScanFlags([' '] + f, flags) == ScanFlags(f, flags.(space := true))
    ensures ScanFlags(['#'] + f, flags) == ScanFlags(f, flags.(hash := true))
    ensures f != [] && !IsFlag(f[0]) ==> ScanFlags(f, flags) == (flags, f)
  {
    assert (['0'] + f)[1..] == f && (['-'] + f)[1..] == f && (['+'] + f)[1..] == f && ([' '] + f)[1..] == f && (['#'] + f)[1..] == f;
  }

  /** The length letters. */
  lemma {:induction false} LengthLetters(f: string, flags: Flags)
    requires f != [] && f[0] !in {'l', 'h'}
    ensures ScanLength("l" + f, flags) == (flags.(long := true), f)
    ensures ScanLength("l" + ("l" + f), flags) == (flags.(long := true, longLong := true), f)
    ensures ScanLength("h" + f, flags) == (flags.(short := true), f)
    ensures ScanLength("h" + ("h" + f), flags) == (flags.(short := true, byteSized := true), f)
    ensures ScanLength("t" + f, flags) == (flags.(long := true), f) && ScanLength("z" + f, flags) == (flags.(long := true), f)
    ensures ScanLength("j" + f, flags) == (flags.(longLong := true), f)
  {
    assert ("l" + f)[1..] == f && ("h" + f)[1..] == f && ("t" + f)[1..] == f && ("z" + f)[1..] == f && ("j" + f)[1..] == f;
    assert ("l" + ("l" + f))[2..] == f && ("h" + ("h" + f))[2..] == f;
  }

  /** A star takes the width from the arguments; a negative one aligns to the left. */
  lemma {:induction false} StarWidth(v: int, f: string, args: seq<Arg>, flags: Flags)
    requires -0x8000_0000 < v < 0x8000_0000
    ensures ScanWidth("*" + f, [Number(v)] + args, flags)
         == Some(Scan(if v < 0 then flags.(left := true) else flags, if v < 0 then -v else v, f, args))
  {
    assert ("*" + f)[1..] == f && ([Number(v)] + args)[1..] == args;
  }

  /** A decimal number. */
  function Decimal(n: nat): (s: string)
    ensures |s| >= 1 && s[0] == HexDigit(Numeral(n, 10)[0], false)
  {
    DigitsMinimal(n, 10);
    HexString(Numeral(n, 10), false)
  }

  /** A precision of "*" is taken from the arguments, and is zero where it is negative or the point stands alone. */
  lemma {:induction false} StarPrecision(v: int, f: string, args: seq<Arg>, flags: Flags)
    requires -0x8000_0000 <= v < 0x8000_0000
    ensures ScanPrecision(".*" + f, [Number(v)] + args, flags) == Some(Scan(flags.(precision := true), if v > 0 then v else 0, f, args))
    ensures (f == [] || (!IsDigit(f[0]) && f[0] != '*')) ==> ScanPrecision("." + f, args, flags) == Some(Scan(flags.(precision := true), 0, f, args))
  {
    assert (".*" + f)[1..] == "*" + f && ("*" + f)[1..] == f && ("." + f)[1..] == f;
    assert ([Number(v)] + args)[1..] == args;
  }

  /** A character conversion takes its argument modulo 2^8. */
  lemma {:induction false} CharTaken(v: int, flags: Flags, args: seq<Arg>)
    requires -0x8000_0000 <= v < 0x8000_0000
    ensures var r := Converted('c', flags, 0, 0, [Number(v)] + args);
      r.Some? && |r.value.0| == 1 && (r.value.0[0] as int) < 0x100 && (r.value.0[0] as int - v) % 0x100 == 0 && r.value.1 == args
  {
    assert ([Number(v)] + args)[1..] == args;
  }

  /** A letter that names no conversion stands for itself. */
  lemma {:induction false} OtherLetter(c: char, flags: Flags, width: nat, precision: nat, args: seq<Arg>)
    requires c !in {'d', 'i', 'u', 'x', 'X', 'o', 'b', 'c', 's', 'f', 'F', 'e', 'E', 'g', 'G', 'p'}
    ensures Converted(c, flags, width, precision, args) == Some(([c], args))
  {}

  lemma {:induction false} DigitLetter(d: nat)
    requires d < 10
    ensures IsDigit(HexDigit(d, false)) && HexDigit(d, false) as nat - '0' as nat == d
    ensures d > 0 ==> !IsFlag(HexDigit(d, false))
  {
    SmallLetters(d);
  }

  /** _atoi goes on through digits as the numeral does. */
  lemma {:induction false} AtoiGoesOn(d: seq<nat>, rest: string, i: uint32)
    requires (forall k :: 0 <= k < |d| ==> d[k] < 10) && (rest == [] || !IsDigit(rest[0]))
    requires GoOn(i, d) < TWO32
    ensures Atoi(HexString(d, false) + rest, i) == (GoOn(i, d), rest)
    decreases |d|
  {
    hide HexDigit, HexString, Atoi, IsDigit;
    var s := HexString(d, false) + rest;
    if d == [] {
      NoDigits();
      assert s == rest;
      AtoiStops(rest, i);
    } else {
      DigitLetter(d[0]);
      GoOnGrows(i * 10 + d[0], d[1..]);
      HexCut(d);
      assert s[1..] == HexString(d[1..], false) + rest && s[0] == HexDigit(d[0], false);
      AtoiGoesOn(d[1..], rest, i * 10 + d[0]);
      AtoiTakes(s, i, d[0]);
    }
  }

  lemma {:induction false} NoDigits()
    ensures HexString([], false) == []
  {}

  lemma {:induction false} AtoiStops(f: string, i: uint32)
    requires f == [] || !IsDigit(f[0])
    ensures Atoi(f, i) == (i, f)
  {}

  lemma {:induction false} AtoiTakes(f: string, i: uint32, d: nat)
    requires f != [] && IsDigit(f[0]) && f[0] as nat - '0' as nat == d && i * 10 + d < TWO32
    ensures Atoi(f, i) == Atoi(f[1..], i * 10 + d)
  {}

  function GoOn(i: nat, d: seq<nat>): nat
    decreases |d|
  {
    if d == [] then i else GoOn(i * 10 + d[0], d[1..])
  }

  lemma {:induction false} GoOnGrows(i: nat, d: seq<nat>)
    ensures GoOn(i, d) >= i
    decreases |d|
  {
    if d != [] {
      GoOnGrows(i * 10 + d[0], d[1..]);
    }
  }

  lemma {:induction false} GoOnSnoc(i: nat, d: seq<nat>, x: nat)
    ensures GoOn(i, d + [x]) == GoOn(i, d) * 10 + x
    decreases |d|
  {
    if d == [] {
      assert [x][1..] == [] && d + [x] == [x];
    } else {
      assert (d + [x])[1..] == d[1..] + [x];
      GoOnSnoc(i * 10 + d[0], d[1..], x);
    }
  }

  lemma {:induction false} GoOnValue(d: seq<nat>)
    ensures GoOn(0, d) == FromDigits(d, 10)
    decreases |d|
  {
    if d != [] {
      GoOnValue(d[..|d| - 1]);
      GoOnSnoc(0, d[..|d| - 1], d[|d| - 1]);
      assert d == d[..|d| - 1] + [d[|d| - 1]];
    }
  }

  lemma {:induction false} HexCut(d: seq<nat>)
    requires d != [] && forall k :: 0 <= k < |d| ==> d[k] < 16
    ensures HexString(d, false)[0] == HexDigit(d[0], false) && HexString(d, false)[1..] == HexString(d[1..], false)
  {}

  /** A written number is read back. */
  lemma {:induction false} AtoiReads(n: nat, rest: string)
    requires n < TWO32 && (rest == [] || !IsDigit(rest[0]))
    ensures Atoi(Decimal(n) + rest, 0) == (n, rest)
    ensures IsDigit(Decimal(n)[0]) && (n > 0 ==> !IsFlag(Decimal(n)[0]))
  {
    var d := Numeral(n, 10);
    GoOnValue(d);
    DigitsReadBack(n, 10);
    DigitsMinimal(n, 10);
    assert n == 0 ==> [0][..0] == [];
    assert FromDigits(d, 10) == n;
    AtoiGoesOn(d, rest, 0);
    DigitLetter(d[0]);
  }

  /** The directive behind its '%': a minus sign, a width, a precision, the specifier. Zero stands for no width. */
  function Written(left: bool, width: nat, precision: Option<nat>, c: char, rest: string): string {
    (if left then "-" else "") + ((if width > 0 then Decimal(width) else "")
    + ((if precision.Some? then "." + Decimal(precision.value) else "") + ([c] + rest)))
  }

  lemma {:induction false} WidthScanned(width: nat, f: string, args: seq<Arg>, flags: Flags)
    requires width < TWO32 && f != [] && !IsDigit(f[0]) && f[0] != '*'
    ensures ScanWidth((if width > 0 then Decimal(width) else "") + f, args, flags) == Some(Scan(flags, width, f, args))
  {
    if width > 0 {
      AtoiReads(width, f);
      hide Atoi, Decimal;
      assert (Decimal(width) + f)[0] == Decimal(width)[0];
    } else {
      assert "" + f == f;
    }
  }

  lemma {:induction false} PrecisionScanned(precision: Option<nat>, f: string, args: seq<Arg>, flags: Flags)
    requires (precision.Some? ==> precision.value < TWO32) && f != [] && !IsDigit(f[0]) && f[0] != '.'
    ensures ScanPrecision((if precision.Some? then "." + Decimal(precision.value) else "") + f, args, flags)
         == Some(Scan(flags.(precision := flags.precision || precision.Some?), if precision.Some? then precision.value else 0, f, args))
  {
    hide Atoi, Decimal;
    if precision.Some? {
      var digits := Decimal(precision.value);
      AtoiReads(precision.value, f);
      DotScanned(digits, f, args, flags, precision.value);
    } else {
      assert "" + f == f;
      SameFlags(flags);
    }
  }

  lemma {:induction false} DotScanned(digits: string, f: string, args: seq<Arg>, flags: Flags, n: uint32)
    requires digits != [] && IsDigit(digits[0]) && Atoi(digits + f, 0) == (n, f)
    ensures ScanPrecision("." + digits + f, args, flags) == Some(Scan(flags.(precision := true), n, f, args))
  {
    hide Atoi;
    assert ("." + digits + f)[0] == '.' && ("." + digits + f)[1..] == digits + f && (digits + f)[0] == digits[0];
  }

  lemma {:induction false} SameFlags(flags: Flags)
    ensures flags.(precision := flags.precision) == flags
  {}

  /** The flags of such a directive. */
  function FlagsFor(left: bool, precise: bool): Flags {
    Flags(false, left, false, false, false, false, false, false, false, false, precise)
  }

  lemma {:induction false} StartFlags(left: bool, f: string)
    requires f != [] && !IsFlag(f[0])
    ensures ScanFlags((if left then "-" else "") + f, NO_FLAGS) == (FlagsFor(left, false), f)
  {
    FlagLetters(f, NO_FLAGS);
    FlagLetters(f, NO_FLAGS.(left := true));
    if !left {
      assert "" + f == f;
    }
    hide ScanFlags;
  }

  /** Width, precision and alignment of a directive are what was written. */
  lemma {:induction false} DirectiveReads(left: bool, width: nat, precision: Option<nat>, c: char, rest: string, args: seq<Arg>)
    requires width < TWO32 && (precision.Some? ==> precision.value < TWO32) && Specifier(c)
    ensures Directive(Written(left, width, precision, c, rest), args)
         == var t := Converted(c, FlagsFor(left, precision.Some?), width, if precision.Some? then precision.value else 0, args);
            if t.None? then None else Some((t.value.0, rest, t.value.1))
  {
    var tail := [c] + rest;
    var precise := (if precision.Some? then "." + Decimal(precision.value) else "") + tail;
    var wide := (if width > 0 then Decimal(width) else "") + precise;
    FirstLetters(width, precision, c, rest);
    StartFlags(left, wide);
    WidthScanned(width, precise, args, FlagsFor(left, false));
    PrecisionScanned(precision, tail, args, FlagsFor(left, false));
    LengthScanned(c, rest, FlagsFor(left, precision.Some?));
    assert tail[1..] == rest;
    hide ScanFlags, ScanWidth, ScanPrecision, ScanLength, Converted, Decimal, Atoi;
  }

  lemma {:induction false} LengthScanned(c: char, rest: string, flags: Flags)
    requires Specifier(c)
    ensures ScanLength([c] + rest, flags) == (flags, [c] + rest)
  {}

  lemma {:induction false} FirstLetters(width: nat, precision: Option<nat>, c: char, rest: string)
    requires width < TWO32 && (precision.Some? ==> precision.value < TWO32) && Specifier(c)
    ensures var precise := (if precision.Some? then "." + Decimal(precision.value) else "") + ([c] + rest);
      var wide := (if width > 0 then Decimal(width) else "") + precise;
      && precise != [] && !IsDigit(precise[0]) && precise[0] != '*'
      && wide != [] && !IsFlag(wide[0])
  {
    AtoiReads(width, []);
    hide Atoi, Decimal;
  }

  // ---- strings, characters and the percent sign ----

  /** "%s" with any alignment, width and precision: the first characters, and spaces up to the width behind or in
      front of them. */
  lemma {:induction false} StringDirective(left: bool, width: nat, precision: Option<nat>, t: string, rest: string, args: seq<Arg>)
    requires width < TWO32 && (precision.Some? ==> precision.value < TWO32)
    ensures var shown := if precision.Some? && precision.value < |t| then t[..precision.value] else t;
      var spaces := Repeat(' ', if |shown| < width then width - |shown| else 0);
      Directive(Written(left, width, precision, 's', rest), [Text(t)] + args)
      == Some((if left then shown + spaces else spaces + shown, rest, args))
  {
    hide *;
    SimpleSpecifiers();
    DirectiveReads(left, width, precision, 's', rest, [Text(t)] + args);
    StringText(left, width, precision, t, args);
  }

  lemma {:induction false} SimpleSpecifiers()
    ensures Specifier('s') && Specifier('c') && Specifier('%')
  {}

  lemma {:induction false} StringText(left: bool, width: nat, precision: Option<nat>, t: string, args: seq<Arg>)
    ensures var shown := if precision.Some? && precision.value < |t| then t[..precision.value] else t;
      var spaces := Repeat(' ', if |shown| < width then width - |shown| else 0);
      Converted('s', FlagsFor(left, precision.Some?), width, if precision.Some? then precision.value else 0, [Text(t)] + args)
      == Some((if left then shown + spaces else spaces + shown, args))
  {
    hide Repeat;
    assert ([Text(t)] + args)[0] == Text(t) && ([Text(t)] + args)[1..] == args && t[..|t|] == t;
  }

  /** "%c" likewise. */
  lemma {:induction false} CharDirective(left: bool, width: nat, c: char, rest: string, args: seq<Arg>)
    requires width < TWO32 && (c as nat) < 0x80
    ensures var spaces := Repeat(' ', if 1 < width then width - 1 else 0);
      Directive(Written(left, width, None, 'c', rest), [Number(c as nat)] + args)
      == Some((if left then [c] + spaces else spaces + [c], rest, args))
  {
    hide Directive, Written;
    DirectiveReads(left, width, None, 'c', rest, [Number(c as nat)] + args);
    assert ([Number(c as nat)] + args)[1..] == args;
    CharBack(c);
  }

  lemma {:induction false} CharBack(c: char)
    requires (c as nat) < 0x80
    ensures IntRange(c as nat) && ((c as int) % 0x100) as char == c
  {}

  /** "%%" is a percent sign and takes no argument. */
  lemma {:induction false} PercentDirective(rest: string, args: seq<Arg>)
    ensures Directive("%" + rest, args) == Some(("%", rest, args))
  {
    DirectiveReads(false, 0, None, '%', rest, args);
    PlainWritten('%', rest);
    hide Directive, Written;
  }

  /** A greeting. */
  lemma {:induction false} Greeting(name: string)
    ensures Format("Hello, " + ("%" + ("s" + "!")), [Text(name)]) == Some("Hello, " + (name + "!"))
  {
    hide Directive, Written, Format;
    StringDirective(false, 0, None, name, "!", []);
    PlainWritten('s', "!");
    assert Repeat(' ', 0) + name == name && [Text(name)] + [] == [Text(name)];
    DirectiveFirst("s" + "!", [Text(name)]);
    LiteralText("!", []);
    TextBefore("Hello, ", "%" + ("s" + "!"), [Text(name)]);
  }

  lemma {:induction false} PlainWritten(c: char, rest: string)
    ensures Written(false, 0, None, c, rest) == [c] + rest
  {
    assert "" + ("" + ("" + ([c] + rest))) == [c] + rest;
  }
}
