/** The functions of printf.c, proved against the text that the format stands for. */
module PrintfRun {
  import opened HexDigits
  import opened Sequences
  import opened Bits
  import opened Wire
  import opened Printf

  // ---- the output buffer ----

  ghost function Cells(buffer: array?<char>): seq<char>
    reads buffer
  {
    if buffer == null then [] else buffer[..]
  }

  ghost predicate Fits(buffer: array?<char>, maxlen: nat) {
    buffer != null ==> maxlen <= buffer.Length
  }

  /** The characters of `piece` from `idx` on, as far as the limit allows. */
  function Put(b: seq<char>, idx: nat, maxlen: nat, piece: string): (r: seq<char>)
    ensures |r| == |b|
    ensures forall i :: 0 <= i < |b| ==> r[i] == if idx <= i < idx + |piece| && i < maxlen then piece[i - idx] else b[i]
  {
    seq(|b|, i requires 0 <= i < |b| => if idx <= i < idx + |piece| && i < maxlen then piece[i - idx] else b[i])
  }

  ghost predicate Wrote(before: seq<char>, after: seq<char>, idx: nat, idx': nat, maxlen: nat, piece: string) {
    after == Put(before, idx, maxlen, piece) && idx' == idx + |piece|
  }

  lemma {:induction false} WroteNothing(b: seq<char>, idx: nat, maxlen: nat)
    ensures Wrote(b, b, idx, idx, maxlen, [])
  {}

  lemma {:induction false} WroteMore(b0: seq<char>, b1: seq<char>, b2: seq<char>, i0: nat, i1: nat, i2: nat, maxlen: nat, s: string, t: string)
    requires Wrote(b0, b1, i0, i1, maxlen, s) && Wrote(b1, b2, i1, i2, maxlen, t)
    ensures Wrote(b0, b2, i0, i2, maxlen, s + t)
  {}

  /** _out_buffer, and _out_null where there is no buffer. */
  method Out(character: char, buffer: array?<char>, idx: nat, maxlen: nat)
    requires Fits(buffer, maxlen)
    modifies buffer
    ensures Wrote(old(Cells(buffer)), Cells(buffer), idx, idx + 1, maxlen, [character])
  {
    if buffer != null && idx < maxlen {
      buffer[idx] := character;
    }
  }

  /** A padding loop: `count` times the same character. */
  method OutRepeat(character: char, count: nat, buffer: array?<char>, idx: nat, maxlen: nat) returns (idx': nat)
    requires Fits(buffer, maxlen)
    modifies buffer
    ensures Wrote(old(Cells(buffer)), Cells(buffer), idx, idx', maxlen, Repeat(character, count))
  {
    hide Wrote, Put;
    idx' := idx;
    WroteNothing(Cells(buffer), idx, maxlen);
    for i := 0 to count
      invariant Wrote(old(Cells(buffer)), Cells(buffer), idx, idx', maxlen, Repeat(character, i))
    {
      ghost var was, at := Cells(buffer), idx';
      Out(character, buffer, idx', maxlen);
      idx' := idx' + 1;
      WroteMore(old(Cells(buffer)), was, Cells(buffer), idx, at, idx', maxlen, Repeat(character, i), [character]);
    }
  }

  method OutRevDigits(buf: string, buffer: array?<char>, idx: nat, maxlen: nat) returns (idx': nat)
    requires Fits(buffer, maxlen)
    modifies buffer
    ensures Wrote(old(Cells(buffer)), Cells(buffer), idx, idx', maxlen, Reverse(buf))
  {
    hide Wrote, Put;
    idx' := idx;
    var len := |buf|;
    WroteNothing(Cells(buffer), idx, maxlen);
    assert buf[|buf|..] == [];
    while len > 0
      invariant 0 <= len <= |buf|
      invariant Wrote(old(Cells(buffer)), Cells(buffer), idx, idx', maxlen, Reverse(buf[len..]))
    {
      len := len - 1;
      ghost var was, at := Cells(buffer), idx';
      Out(buf[len], buffer, idx', maxlen);
      idx' := idx' + 1;
      assert Reverse(buf[len..]) == Reverse(buf[len + 1..]) + [buf[len]];
      WroteMore(old(Cells(buffer)), was, Cells(buffer), idx, at, idx', maxlen, Reverse(buf[len + 1..]), [buf[len]]);
    }
    assert buf[0..] == buf;
  }

  method OutReversed(buffer: array?<char>, idx: nat, maxlen: nat, buf: string, width: nat, flags: Flags) returns (idx': nat)
    requires Fits(buffer, maxlen)
    modifies buffer
    ensures Wrote(old(Cells(buffer)), Cells(buffer), idx, idx', maxlen, OutRev(buf, width, flags))
  {
    hide Wrote, Put, Repeat, Reverse;
    ghost var b0 := Cells(buffer);
    var missing := Missing(|buf|, width);
    var i1 := idx;
    WroteNothing(b0, idx, maxlen);
    if !flags.left && !flags.zeropad {
      i1 := OutRepeat(' ', missing, buffer, idx, maxlen);
    }
    ghost var b1, front := Cells(buffer), if !flags.left && !flags.zeropad then Repeat(' ', missing) else [];
    var i2 := OutRevDigits(buf, buffer, i1, maxlen);
    ghost var b2 := Cells(buffer);
    WroteMore(b0, b1, b2, idx, i1, i2, maxlen, front, Reverse(buf));
    idx' := i2;
    if flags.left {
      idx' := OutRepeat(' ', missing, buffer, i2, maxlen);
      WroteMore(b0, b2, Cells(buffer), idx, i2, idx', maxlen, front + Reverse(buf), Repeat(' ', missing));
    }
    assert front + Reverse(buf) + [] == front + Reverse(buf);
  }

  // ---- integers ----

  /** `while (len < length && len < PRINTF_NTOA_BUFFER_SIZE) buf[len++] = '0';` */
  method AppendZeros(buf: string, length: nat) returns (r: string)
    requires |buf| <= PRINTF_NTOA_BUFFER_SIZE
    ensures r == PadZeros(buf, length)
  {
    r := buf;
    var i := 0;
    while |r| < length && |r| < PRINTF_NTOA_BUFFER_SIZE
      invariant r == buf + Repeat('0', i)
      invariant i == 0 || |buf| + i <= Min(length, PRINTF_NTOA_BUFFER_SIZE)
      decreases PRINTF_NTOA_BUFFER_SIZE - |r|
    {
      i := i + 1;
      r := r + ['0'];
    }
  }

  method FormatInteger(buffer: array?<char>, idx: nat, maxlen: nat, digits: string, negative: bool, base: nat, prec: nat, widthParam: nat, flags: Flags)
    returns (idx': nat)
    requires Fits(buffer, maxlen) && |digits| <= PRINTF_NTOA_BUFFER_SIZE && base in {2, 8, 10, 16}
    modifies buffer
    ensures Wrote(old(Cells(buffer)), Cells(buffer), idx, idx', maxlen, NtoaFormat(digits, negative, base, prec, widthParam, flags))
  {
    hide Wrote, PadZeros, OutRev;
    var buf, width := digits, widthParam;
    if !flags.left {
      if width != 0 && flags.zeropad && (negative || flags.plus || flags.space) {
        width := width - 1;
      }
      buf := AppendZeros(buf, prec);
      if flags.zeropad {
        buf := AppendZeros(buf, width);
      }
    }
    if flags.hash {
      buf := PrefixBase(buf, base, prec, width, flags);
    }
    if |buf| < PRINTF_NTOA_BUFFER_SIZE {
      if negative {
        buf := buf + ['-'];
      } else if flags.plus {
        buf := buf + ['+'];
      } else if flags.space {
        buf := buf + [' '];
      }
    }
    idx' := OutReversed(buffer, idx, maxlen, buf, width, flags);
  }

  /** The statements under `if (flags & FLAGS_HASH)`. */
  method PrefixBase(buf: string, base: nat, prec: nat, width: nat, flags: Flags) returns (r: string)
    requires |buf| <= PRINTF_NTOA_BUFFER_SIZE && base in {2, 8, 10, 16}
    ensures r == Hashed(buf, base, prec, width, flags)
  {
    var len := |buf|;
    if !flags.precision && len != 0 && (len == prec || len == width) {
      len := len - 1;
      if len != 0 && base == 16 {
        len := len - 1;
      }
    }
    r := buf[..len];
    if base == 16 && !flags.uppercase && |r| < PRINTF_NTOA_BUFFER_SIZE {
      r := r + ['x'];
    } else if base == 16 && flags.uppercase && |r| < PRINTF_NTOA_BUFFER_SIZE {
      r := r + ['X'];
    } else if base == 2 && |r| < PRINTF_NTOA_BUFFER_SIZE {
      r := r + ['b'];
    }
    if |r| < PRINTF_NTOA_BUFFER_SIZE {
      r := r + ['0'];
    }
  }

  method PrintInteger(buffer: array?<char>, idx: nat, maxlen: nat, valueParam: nat, negative: bool, base: nat, prec: nat, width: nat, flagsParam: Flags)
    returns (idx': nat)
    requires Fits(buffer, maxlen) && base in {2, 8, 10, 16}
    modifies buffer
    ensures Wrote(old(Cells(buffer)), Cells(buffer), idx, idx', maxlen, Ntoa(valueParam, negative, base, prec, width, flagsParam))
  {
    hide Wrote, NtoaFormat;
    var value, flags := valueParam, flagsParam;
    if value == 0 {
      flags := flags.(hash := false);
    }
    var buf := "";
    if !flags.precision || value != 0 {
      buf := CollectDigits(value, base, flags.uppercase);
    }
    idx' := FormatInteger(buffer, idx, maxlen, buf, negative, base, prec, width, flags);
  }

  method CollectDigits(valueParam: nat, base: nat, uppercase: bool) returns (buf: string)
    requires base in {2, 8, 10, 16}
    ensures buf == LowDigits(valueParam, base, uppercase, PRINTF_NTOA_BUFFER_SIZE)
  {
    hide LowDigits, HexDigit;
    var value: nat := valueParam;
    buf := "";
    var more := true;
    while more
      invariant more ==> |buf| < PRINTF_NTOA_BUFFER_SIZE
      invariant LowDigits(valueParam, base, uppercase, PRINTF_NTOA_BUFFER_SIZE)
             == if more then buf + LowDigits(value, base, uppercase, PRINTF_NTOA_BUFFER_SIZE - |buf|) else buf
      decreases more, PRINTF_NTOA_BUFFER_SIZE - |buf|
    {
      LastDigits(buf, value, base, uppercase);
      buf := buf + [HexDigit(value % base, uppercase)];
      value := value / base;
      more := value != 0 && |buf| < PRINTF_NTOA_BUFFER_SIZE;
    }
  }

  lemma {:induction false} LastDigits(buf: string, value: nat, base: nat, upper: bool)
    requires 2 <= base <= 16 && |buf| < PRINTF_NTOA_BUFFER_SIZE
    ensures 0 <= value / base && 0 <= value % base < base
    ensures var next := buf + [HexDigit(value % base, upper)];
      buf + LowDigits(value, base, upper, PRINTF_NTOA_BUFFER_SIZE - |buf|)
      == if value / base != 0 && |next| < PRINTF_NTOA_BUFFER_SIZE
         then next + LowDigits(value / base, base, upper, PRINTF_NTOA_BUFFER_SIZE - |next|) else next
  {
    hide LowDigits, HexDigit;
    Quotient(value, base);
    var room := PRINTF_NTOA_BUFFER_SIZE - |buf|;
    FirstDigit(value, base, upper, room, value / base, value % base);
    var next := buf + [HexDigit(value % base, upper)];
    if value / base != 0 && room > 1 {
      Reassociate(buf, [HexDigit(value % base, upper)], LowDigits(value / base, base, upper, room - 1));
    }
  }

  lemma {:induction false} Quotient(value: nat, base: nat)
    requires base > 0
    ensures 0 <= value / base && 0 <= value % base < base
  {
    DivModOf(value, base);
    if value / base < 0 {
      MulLe(value / base, -1, base);
    }
  }

  lemma {:induction false} FirstDigit(value: nat, base: nat, upper: bool, room: nat, q: nat, d: nat)
    requires 2 <= base <= 16 && room > 0 && q == value / base && d == value % base && d < base
    ensures LowDigits(value, base, upper, room)
         == [HexDigit(d, upper)] + if q == 0 || room == 1 then [] else LowDigits(q, base, upper, room - 1)
  {
    hide HexDigit;
  }

  // ---- characters and strings ----

  method OutString(s: string, buffer: array?<char>, idx: nat, maxlen: nat) returns (idx': nat)
    requires Fits(buffer, maxlen)
    modifies buffer
    ensures Wrote(old(Cells(buffer)), Cells(buffer), idx, idx', maxlen, s)
  {
    hide Wrote, Put;
    idx' := idx;
    WroteNothing(Cells(buffer), idx, maxlen);
    for i := 0 to |s|
      invariant Wrote(old(Cells(buffer)), Cells(buffer), idx, idx', maxlen, s[..i])
    {
      ghost var was, at := Cells(buffer), idx';
      Out(s[i], buffer, idx', maxlen);
      idx' := idx' + 1;
      assert s[..i] + [s[i]] == s[..i + 1];
      WroteMore(old(Cells(buffer)), was, Cells(buffer), idx, at, idx', maxlen, s[..i], [s[i]]);
    }
    assert s[..|s|] == s;
  }

  /** The cases 'c' and 's': the text with its padding on one side. */
  method OutPadded(s: string, width: nat, left: bool, buffer: array?<char>, idx: nat, maxlen: nat) returns (idx': nat)
    requires Fits(buffer, maxlen)
    modifies buffer
    ensures Wrote(old(Cells(buffer)), Cells(buffer), idx, idx', maxlen, Padded(s, width, left))
  {
    hide Wrote, Put, Repeat;
    ghost var b0 := Cells(buffer);
    var missing := Missing(|s|, width);
    if !left {
      var i1 := OutRepeat(' ', missing, buffer, idx, maxlen);
      ghost var b1 := Cells(buffer);
      idx' := OutString(s, buffer, i1, maxlen);
      WroteMore(b0, b1, Cells(buffer), idx, i1, idx', maxlen, Repeat(' ', missing), s);
    } else {
      var i1 := OutString(s, buffer, idx, maxlen);
      ghost var b1 := Cells(buffer);
      idx' := OutRepeat(' ', missing, buffer, i1, maxlen);
      WroteMore(b0, b1, Cells(buffer), idx, i1, idx', maxlen, s, Repeat(' ', missing));
    }
  }

  // ---- the format ----

  method EvaluateFlags(format: string) returns (flags: Flags, f: string)
    ensures (flags, f) == ScanFlags(format, NO_FLAGS)
  {
    flags, f := NO_FLAGS, format;
    var n := true;
    while n
      invariant ScanFlags(format, NO_FLAGS) == if n then ScanFlags(f, flags) else (flags, f)
      decreases n, |f|
    {
      if f != [] && f[0] == '0' { flags, f := flags.(zeropad := true), f[1..]; }
      else if f != [] && f[0] == '-' { flags, f := flags.(left := true), f[1..]; }
      else if f != [] && f[0] == '+' { flags, f := flags.(plus := true), f[1..]; }
      else if f != [] && f[0] == ' ' { flags, f := flags.(space := true), f[1..]; }
      else if f != [] && f[0] == '#' { flags, f := flags.(hash := true), f[1..]; }
      else { n := false; }
    }
  }

  method ReadAtoi(str: string) returns (i: uint32, rest: string)
    ensures (i, rest) == Atoi(str, 0)
  {
    i, rest := 0, str;
    while rest != [] && IsDigit(rest[0])
      invariant Atoi(str, 0) == Atoi(rest, i)
      decreases |rest|
    {
      i := (i * 10 + (rest[0] as nat - '0' as nat)) % TWO32;
      rest := rest[1..];
    }
  }

  method EvaluateWidth(format: string, args: seq<Arg>, flagsParam: Flags) returns (flags: Flags, width: uint32, f: string, va: seq<Arg>)
    requires ScanWidth(format, args, flagsParam).Some?
    ensures Some(Scan(flags, width, f, va)) == ScanWidth(format, args, flagsParam)
  {
    flags, width, f, va := flagsParam, 0, format, args;
    if f != [] && IsDigit(f[0]) {
      width, f := ReadAtoi(f);
    } else if f != [] && f[0] == '*' {
      var w := va[0].value;
      va := va[1..];
      if w < 0 {
        flags, width := flags.(left := true), -w;
      } else {
        width := w;
      }
      f := f[1..];
    }
  }

  method EvaluatePrecision(format: string, args: seq<Arg>, flagsParam: Flags) returns (flags: Flags, precision: uint32, f: string, va: seq<Arg>)
    requires ScanPrecision(format, args, flagsParam).Some?
    ensures Some(Scan(flags, precision, f, va)) == ScanPrecision(format, args, flagsParam)
  {
    flags, precision, f, va := flagsParam, 0, format, args;
    if f != [] && f[0] == '.' {
      flags, f := flags.(precision := true), f[1..];
      if f != [] && IsDigit(f[0]) {
        precision, f := ReadAtoi(f);
      } else if f != [] && f[0] == '*' {
        var prec := va[0].value;
        va := va[1..];
        precision := if prec > 0 then prec else 0;
        f := f[1..];
      }
    }
  }

  /** The cases of the integer specifiers. */
  method ConvertInteger(c: char, flagsParam: Flags, width: nat, precision: nat, args: seq<Arg>, buffer: array?<char>, idx: nat, maxlen: nat)
    returns (idx': nat, va: seq<Arg>)
    requires Fits(buffer, maxlen) && IsInteger(c) && Converted(c, flagsParam, width, precision, args).Some?
    modifies buffer
    ensures va == Converted(c, flagsParam, width, precision, args).value.1
    ensures Wrote(old(Cells(buffer)), Cells(buffer), idx, idx', maxlen, Converted(c, flagsParam, width, precision, args).value.0)
  {
    hide *;
    Conversion(c, flagsParam, width, precision, args);
    var flags := EffectiveFlags(c, flagsParam);
    var base := BaseOf(c);
    if IsSigned(c) {
      var value := SignedValue(args[0].value, flags).value;
      MagnitudeIs(value);
      idx' := PrintInteger(buffer, idx, maxlen, if value > 0 then value else 0 - value, value < 0, base, precision, width, flags);
    } else {
      var value := UnsignedValue(args[0].value, flags).value;
      idx' := PrintInteger(buffer, idx, maxlen, value, false, base, precision, width, flags);
    }
    va := args[1..];
  }

  /** The assignments to `flags` ahead of the conversion. */
  method EffectiveFlags(c: char, flagsParam: Flags) returns (flags: Flags)
    ensures flags == IntegerFlags(c, flagsParam)
  {
    hide BaseOf, IsSigned, WithoutHash, WithUppercase, WithoutSign, WithoutZeros;
    flags := flagsParam;
    if BaseOf(c) == 10 {
      flags := WithoutHash(flags);
    }
    if c == 'X' {
      flags := WithUppercase(flags);
    }
    if !IsSigned(c) {
      flags := WithoutSign(flags);
    }
    if flags.precision {
      flags := WithoutZeros(flags);
    }
  }

  lemma {:induction false} MagnitudeIs(v: int)
    ensures Magnitude(v) == if v > 0 then v else 0 - v
  {}

  /** The conversion with its definitions spelt out. */
  lemma {:induction false} Conversion(c: char, flags: Flags, width: nat, precision: nat, args: seq<Arg>)
    requires IsInteger(c) && Converted(c, flags, width, precision, args).Some?
    ensures args != [] && args[0].Number? && BaseOf(c) in {2, 8, 10, 16}
    ensures IsSigned(c) ==>
      var v := SignedValue(args[0].value, IntegerFlags(c, flags));
      v.Some? && Converted(c, flags, width, precision, args)
        == Some((Ntoa(Magnitude(v.value), v.value < 0, BaseOf(c), precision, width, IntegerFlags(c, flags)), args[1..]))
    ensures !IsSigned(c) ==>
      var v := UnsignedValue(args[0].value, IntegerFlags(c, flags));
      v.Some? && Converted(c, flags, width, precision, args)
        == Some((Ntoa(v.value, false, BaseOf(c), precision, width, IntegerFlags(c, flags)), args[1..]))
  {
    hide Ntoa, IntegerFlags, SignedValue, UnsignedValue, Padded, Taken;
  }

  /** The switch on the specifier. */
  method Convert(c: char, flags: Flags, width: nat, precision: nat, args: seq<Arg>, buffer: array?<char>, idx: nat, maxlen: nat)
    returns (idx': nat, va: seq<Arg>)
    requires Fits(buffer, maxlen) && Converted(c, flags, width, precision, args).Some?
    modifies buffer
    ensures va == Converted(c, flags, width, precision, args).value.1
    ensures Wrote(old(Cells(buffer)), Cells(buffer), idx, idx', maxlen, Converted(c, flags, width, precision, args).value.0)
  {
    hide Wrote, Ntoa, Padded, Taken, SignedValue, UnsignedValue, IntegerFlags, BaseOf;
    if IsInteger(c) {
      idx', va := ConvertInteger(c, flags, width, precision, args, buffer, idx, maxlen);
    } else if c == 'c' {
      idx' := OutPadded([(args[0].value % 0x100) as char], width, flags.left, buffer, idx, maxlen);
      va := args[1..];
    } else if c == 's' {
      idx' := OutPadded(Taken(args[0].text, precision, flags), width, flags.left, buffer, idx, maxlen);
      va := args[1..];
    } else {
      Out(c, buffer, idx, maxlen);
      idx', va := idx + 1, args;
    }
  }

  /** One directive, from behind its '%'. */
  method TakeDirective(format: string, args: seq<Arg>, buffer: array?<char>, idx: nat, maxlen: nat) returns (idx': nat, f: string, va: seq<Arg>)
    requires Fits(buffer, maxlen) && Directive(format, args).Some?
    modifies buffer
    ensures var d := Directive(format, args).value;
      f == d.1 && va == d.2 && Wrote(old(Cells(buffer)), Cells(buffer), idx, idx', maxlen, d.0)
  {
    hide Wrote, Converted;
    var flags;
    flags, f := EvaluateFlags(format);
    var width, precision;
    flags, width, f, va := EvaluateWidth(f, args, flags);
    flags, precision, f, va := EvaluatePrecision(f, va, flags);
    var (fl, h) := ScanLength(f, flags);
    f := h;
    idx', va := Convert(f[0], fl, width, precision, va, buffer, idx, maxlen);
    f := f[1..];
  }

  /** The text from here on is a character or a directive, and the rest. */
  lemma {:induction false} FirstPiece(f: string, args: seq<Arg>)
    requires f != [] && Format(f, args).Some?
    ensures f[0] != '%' ==> Format(f[1..], args).Some? && Format(f, args).value == [f[0]] + Format(f[1..], args).value
    ensures f[0] == '%' ==>
      && Directive(f[1..], args).Some?
      && var d := Directive(f[1..], args).value;
         |d.1| < |f| && Format(d.1, d.2).Some? && Format(f, args).value == d.0 + Format(d.1, d.2).value
  {
    hide Directive;
  }

  lemma {:induction false} Reassociate(a: string, b: string, c: string)
    ensures a + (b + c) == (a + b) + c && a + [] == a
  {}

  lemma {:induction false} EmptyFormat(args: seq<Arg>)
    ensures Format([], args) == Some([])
  {}

  /** The loop over the format. */
  method Render(buffer: array?<char>, maxlen: nat, format: string, args: seq<Arg>) returns (idx: nat)
    requires Fits(buffer, maxlen) && Format(format, args).Some?
    modifies buffer
    ensures Wrote(old(Cells(buffer)), Cells(buffer), 0, idx, maxlen, Format(format, args).value)
  {
    hide Wrote, Put, Directive, Format;
    var f, va := format, args;
    idx := 0;
    ghost var b0, text, done := Cells(buffer), Format(format, args).value, "";
    WroteNothing(b0, 0, maxlen);
    while f != []
      invariant Format(f, va).Some? && text == done + Format(f, va).value
      invariant Wrote(b0, Cells(buffer), 0, idx, maxlen, done)
      decreases |f|
    {
      ghost var b1, i1, piece := Cells(buffer), idx, [f[0]];
      FirstPiece(f, va);
      if f[0] != '%' {
        Out(f[0], buffer, idx, maxlen);
        idx, f := idx + 1, f[1..];
      } else {
        piece := Directive(f[1..], va).value.0;
        idx, f, va := TakeDirective(f[1..], va, buffer, idx, maxlen);
      }
      WroteMore(b0, b1, Cells(buffer), 0, i1, idx, maxlen, done, piece);
      Reassociate(done, piece, Format(f, va).value);
      done := done + piece;
    }
    EmptyFormat(va);
    Reassociate(done, [], []);
  }

  /** _iost_vsnprintf: the untruncated length is returned, and the buffer holds what fits, terminated. */
  method Vsnprintf(buffer: array?<char>, maxlen: nat, format: string, args: seq<Arg>) returns (length: nat)
    requires Fits(buffer, maxlen) && Format(format, args).Some?
    modifies buffer
    ensures length == |Format(format, args).value|
    ensures buffer != null && maxlen > 0 ==>
      var text := Format(format, args).value;
      var shown := TerminatorAt(|text|, maxlen);
      buffer[..shown] == text[..shown] && buffer[shown] == 0 as char
    ensures buffer != null ==>
      var behind := Min(length + 1, maxlen);
      buffer[behind..] == old(buffer[behind..])
  {
    hide Wrote, Put, Format;
    ghost var b0, text := Cells(buffer), Format(format, args).value;
    var idx := Render(buffer, maxlen, format, args);
    ghost var b1 := Cells(buffer);
    if buffer != null && maxlen > 0 {
      Out(0 as char, buffer, TerminatorAt(idx, maxlen), maxlen);
    }
    WroteLength(b0, b1, idx, maxlen, text);
    if buffer != null {
      Terminated(b0, b1, Cells(buffer), idx, maxlen, text);
    }
    return idx;
  }

  lemma {:induction false} WroteLength(b0: seq<char>, b1: seq<char>, idx: nat, maxlen: nat, text: string)
    requires Wrote(b0, b1, 0, idx, maxlen, text)
    ensures idx == |text|
  {}

  /** Where the terminator goes: behind the text, or into the last cell. */
  function TerminatorAt(idx: nat, maxlen: nat): nat
    requires maxlen > 0
  {
    if idx < maxlen then idx else maxlen - 1
  }

  lemma {:induction false} Terminated(b0: seq<char>, b1: seq<char>, b2: seq<char>, idx: nat, maxlen: nat, text: string)
    requires Wrote(b0, b1, 0, idx, maxlen, text) && maxlen <= |b0|
    requires if maxlen > 0 then Wrote(b1, b2, TerminatorAt(idx, maxlen), TerminatorAt(idx, maxlen) + 1, maxlen, [0 as char]) else b2 == b1
    ensures |b2| == |b0|
    ensures maxlen > 0 ==>
      var shown := TerminatorAt(|text|, maxlen);
      b2[..shown] == text[..shown] && b2[shown] == 0 as char
    ensures var behind := Min(|text| + 1, maxlen);
      b2[behind..] == b0[behind..]
  {}
}
