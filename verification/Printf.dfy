/** The formatted output of printf.c: what a format and its arguments stand for, without any limit on the
    length. Integers, characters and strings; a result None marks what C leaves undefined. */
module Printf {
  import opened HexDigits
  import opened Sequences
  import opened Bits
  import opened Wire
  import opened Radix

  const PRINTF_NTOA_BUFFER_SIZE: nat := 32

  datatype Flags = Flags(zeropad: bool, left: bool, plus: bool, space: bool, hash: bool, uppercase: bool,
                         byteSized: bool, short: bool, long: bool, longLong: bool, precision: bool)

  const NO_FLAGS := Flags(false, false, false, false, false, false, false, false, false, false, false)

  datatype Arg = Number(value: int) | Text(text: string)

  // ---- the conversion buffer, least significant character first ----

  /** The digits that fit, at least one of them. */
  function LowDigits(value: nat, base: nat, upper: bool, room: nat): (d: string)
    requires 2 <= base <= 16 && room > 0
    ensures 1 <= |d| <= room
    decreases room
  {
    DivModOf(value, base);
    DigitsStep(value, base);
    [HexDigit(value % base, upper)]
    + if value / base == 0 || room == 1 then [] else LowDigits(value / base, base, upper, room - 1)
  }

  function Missing(length: nat, width: nat): nat {
    if length < width then width - length else 0
  }

  /** Zeros up to a length, as far as the buffer goes. */
  function PadZeros(buf: string, length: nat): (r: string)
    requires |buf| <= PRINTF_NTOA_BUFFER_SIZE
    ensures |r| <= PRINTF_NTOA_BUFFER_SIZE
  {
    buf + Repeat('0', Missing(|buf|, Min(length, PRINTF_NTOA_BUFFER_SIZE)))
  }

  function Room(buf: string, c: char): (r: string)
    requires |buf| <= PRINTF_NTOA_BUFFER_SIZE
    ensures |r| <= PRINTF_NTOA_BUFFER_SIZE
  {
    if |buf| < PRINTF_NTOA_BUFFER_SIZE then buf + [c] else buf
  }

  /** The '#' flag: a padding zero or two make room for the prefix. */
  function Hashed(buf: string, base: nat, prec: nat, width: nat, flags: Flags): (r: string)
    requires |buf| <= PRINTF_NTOA_BUFFER_SIZE
    ensures |r| <= PRINTF_NTOA_BUFFER_SIZE
  {
    var n := |buf|;
    var cut := if !flags.precision && n > 0 && (n == prec || n == width) then (if n > 1 && base == 16 then 2 else 1) else 0;
    var kept := buf[..n - cut];
    var marked := if base == 16 then Room(kept, if flags.uppercase then 'X' else 'x') else if base == 2 then Room(kept, 'b') else kept;
    Room(marked, '0')
  }

  function WithSign(buf: string, negative: bool, flags: Flags): (r: string)
    requires |buf| <= PRINTF_NTOA_BUFFER_SIZE
    ensures |r| <= PRINTF_NTOA_BUFFER_SIZE
  {
    if negative then Room(buf, '-') else if flags.plus then Room(buf, '+') else if flags.space then Room(buf, ' ') else buf
  }

  /** _out_rev */
  function OutRev(buf: string, width: nat, flags: Flags): string {
    (if !flags.left && !flags.zeropad then Repeat(' ', Missing(|buf|, width)) else [])
    + Reverse(buf)
    + (if flags.left then Repeat(' ', Missing(|buf|, width)) else [])
  }

  /** The width without the place of the sign. */
  function Inner(negative: bool, width: nat, flags: Flags): nat {
    if !flags.left && width > 0 && flags.zeropad && (negative || flags.plus || flags.space) then width - 1 else width
  }

  function ZeroPadded(buf: string, prec: nat, inner: nat, flags: Flags): (r: string)
    requires |buf| <= PRINTF_NTOA_BUFFER_SIZE
    ensures |r| <= PRINTF_NTOA_BUFFER_SIZE
  {
    if flags.left then buf
    else if flags.zeropad then PadZeros(PadZeros(buf, prec), inner)
    else PadZeros(buf, prec)
  }

  /** _ntoa_format */
  function NtoaFormat(buf: string, negative: bool, base: nat, prec: nat, width: nat, flags: Flags): string
    requires |buf| <= PRINTF_NTOA_BUFFER_SIZE
  {
    var inner := Inner(negative, width, flags);
    var padded := ZeroPadded(buf, prec, inner, flags);
    var marked := if flags.hash then Hashed(padded, base, prec, inner, flags) else padded;
    OutRev(WithSign(marked, negative, flags), inner, flags)
  }

  /** _ntoa_long and _ntoa_long_long */
  function Ntoa(value: nat, negative: bool, base: nat, prec: nat, width: nat, flags: Flags): string
    requires 2 <= base <= 16
  {
    var buf := if flags.precision && value == 0 then [] else LowDigits(value, base, flags.uppercase, PRINTF_NTOA_BUFFER_SIZE);
    NtoaFormat(buf, negative, base, prec, width, if value == 0 then flags.(hash := false) else flags)
  }

  // ---- characters and strings ----

  function Padded(piece: string, width: nat, left: bool): (s: string)
    ensures |s| == if |piece| < width then width else |piece|
  {
    if left then piece + Repeat(' ', Missing(|piece|, width)) else Repeat(' ', Missing(|piece|, width)) + piece
  }

  /** A precision limits the characters taken from the string. */
  function Taken(s: string, precision: nat, flags: Flags): string {
    if flags.precision then s[..Min(|s|, precision)] else s
  }

  // ---- directives ----

  function IsDigit(c: char): bool {
    '0' <= c <= '9'
  }

  /** The flag characters. */
  function ScanFlags(f: string, flags: Flags): (r: (Flags, string))
    ensures |r.1| <= |f|
  {
    if f == [] then (flags, f)
    else if f[0] == '0' then ScanFlags(f[1..], flags.(zeropad := true))
    else if f[0] == '-' then ScanFlags(f[1..], flags.(left := true))
    else if f[0] == '+' then ScanFlags(f[1..], flags.(plus := true))
    else if f[0] == ' ' then ScanFlags(f[1..], flags.(space := true))
    else if f[0] == '#' then ScanFlags(f[1..], flags.(hash := true))
    else (flags, f)
  }

  /** _atoi, in 32-bit arithmetic. */
  function Atoi(f: string, i: uint32): (r: (uint32, string))
    ensures |r.1| <= |f|
    ensures f != [] && IsDigit(f[0]) ==> |r.1| < |f|
  {
    if f != [] && IsDigit(f[0]) then Atoi(f[1..], (i * 10 + (f[0] as nat - '0' as nat)) % TWO32) else (i, f)
  }

  predicate IntRange(v: int) {
    -0x8000_0000 <= v < 0x8000_0000
  }

  /** What a width or precision field leaves: the flags, the number, the format and the arguments. */
  datatype Scan = Scan(flags: Flags, count: uint32, format: string, args: seq<Arg>)

  function ScanWidth(f: string, args: seq<Arg>, flags: Flags): (r: Option<Scan>)
    ensures r.Some? ==> |r.value.format| <= |f|
  {
    if f != [] && IsDigit(f[0]) then Some(Scan(flags, Atoi(f, 0).0, Atoi(f, 0).1, args))
    else if f != [] && f[0] == '*' then
      if args == [] || !args[0].Number? || !IntRange(args[0].value) || args[0].value == -0x8000_0000 then None
      else if args[0].value < 0 then Some(Scan(flags.(left := true), -args[0].value, f[1..], args[1..]))
      else Some(Scan(flags, args[0].value, f[1..], args[1..]))
    else Some(Scan(flags, 0, f, args))
  }

  function ScanPrecision(f: string, args: seq<Arg>, flags: Flags): (r: Option<Scan>)
    ensures r.Some? ==> |r.value.format| <= |f|
  {
    if f == [] || f[0] != '.' then Some(Scan(flags, 0, f, args))
    else
      var precise, g := flags.(precision := true), f[1..];
      if g != [] && IsDigit(g[0]) then Some(Scan(precise, Atoi(g, 0).0, Atoi(g, 0).1, args))
      else if g != [] && g[0] == '*' then
        if args == [] || !args[0].Number? || !IntRange(args[0].value) then None
        else Some(Scan(precise, if args[0].value > 0 then args[0].value else 0, g[1..], args[1..]))
      else Some(Scan(precise, 0, g, args))
  }

  /** The length field; int, long, size_t and ptrdiff_t have 32 bits, intmax_t and long long have 64. */
  function ScanLength(f: string, flags: Flags): (r: (Flags, string))
    ensures |r.1| <= |f|
  {
    if f == [] then (flags, f)
    else if f[0] == 'l' then
      if |f| > 1 && f[1] == 'l' then (flags.(long := true, longLong := true), f[2..]) else (flags.(long := true), f[1..])
    else if f[0] == 'h' then
      if |f| > 1 && f[1] == 'h' then (flags.(short := true, byteSized := true), f[2..]) else (flags.(short := true), f[1..])
    else if f[0] == 't' || f[0] == 'z' then (flags.(long := true), f[1..])
    else if f[0] == 'j' then (flags.(longLong := true), f[1..])
    else (flags, f)
  }

  function BaseOf(c: char): (b: nat)
    ensures b == 2 || b == 8 || b == 10 || b == 16
  {
    if c == 'x' || c == 'X' then 16 else if c == 'o' then 8 else if c == 'b' then 2 else 10
  }

  predicate IsInteger(c: char) {
    c in {'d', 'i', 'u', 'x', 'X', 'o', 'b'}
  }

  predicate IsSigned(c: char) {
    c == 'd' || c == 'i'
  }

  function WithoutHash(flags: Flags): Flags {
    flags.(hash := false)
  }

  function WithUppercase(flags: Flags): Flags {
    flags.(uppercase := true)
  }

  function WithoutSign(flags: Flags): Flags {
    flags.(plus := false, space := false)
  }

  function WithoutZeros(flags: Flags): Flags {
    flags.(zeropad := false)
  }

  /** The flags that count for an integer conversion: no '#' for decimals, capitals for X, no sign for unsigned
      numbers, and no zero padding where a precision is given. */
  function IntegerFlags(c: char, flags: Flags): Flags {
    var f1 := if BaseOf(c) == 10 then WithoutHash(flags) else flags;
    var f2 := if c == 'X' then WithUppercase(f1) else f1;
    var f3 := if !IsSigned(c) then WithoutSign(f2) else f2;
    if f3.precision then WithoutZeros(f3) else f3
  }

  /** The argument of a signed conversion; char is unsigned. */
  function SignedValue(v: int, flags: Flags): Option<int> {
    if flags.longLong then (if -0x8000_0000_0000_0000 < v < 0x8000_0000_0000_0000 then Some(v) else None)
    else if !IntRange(v) then None
    else if flags.long then (if v == -0x8000_0000 then None else Some(v))
    else if flags.byteSized then Some(v % 0x100)
    else if flags.short then Some(if v % 0x1_0000 < 0x8000 then v % 0x1_0000 else v % 0x1_0000 - 0x1_0000)
    else if v == -0x8000_0000 then None
    else Some(v)
  }

  function UnsignedValue(v: int, flags: Flags): Option<nat> {
    if flags.longLong then (if 0 <= v < TWO64 then Some(v) else None)
    else if !(0 <= v < TWO32) then None
    else if flags.long then Some(v)
    else if flags.byteSized then Some(v % 0x100)
    else if flags.short then Some(v % 0x1_0000)
    else Some(v)
  }

  function Magnitude(v: int): nat {
    if v < 0 then -v else v
  }

  /** The text of one conversion and the arguments behind it. */
  function Converted(c: char, flags: Flags, width: nat, precision: nat, args: seq<Arg>): Option<(string, seq<Arg>)> {
    if IsInteger(c) then
      var fl := IntegerFlags(c, flags);
      if args == [] || !args[0].Number? then None
      else if IsSigned(c) then
        var v := SignedValue(args[0].value, fl);
        if v.None? then None
        else Some((Ntoa(Magnitude(v.value), v.value < 0, BaseOf(c), precision, width, fl), args[1..]))
      else
        var v := UnsignedValue(args[0].value, fl);
        if v.None? then None else Some((Ntoa(v.value, false, BaseOf(c), precision, width, fl), args[1..]))
    else if c == 'c' then
      if args == [] || !args[0].Number? || !IntRange(args[0].value) then None
      else Some((Padded([(args[0].value % 0x100) as char], width, flags.left), args[1..]))
    else if c == 's' then
      if args == [] || !args[0].Text? then None
      else Some((Padded(Taken(args[0].text, precision, flags), width, flags.left), args[1..]))
    else if c in {'f', 'F', 'e', 'E', 'g', 'G', 'p'} then None
    else Some(([c], args))
  }

  /** The text of a directive, from behind its '%', with what is left of the format and of the arguments. */
  function Directive(f: string, args: seq<Arg>): (r: Option<(string, string, seq<Arg>)>)
    ensures r.Some? ==> |r.value.1| < |f|
  {
    var (flags, g) := ScanFlags(f, NO_FLAGS);
    var w := ScanWidth(g, args, flags);
    if w.None? then None else
    var p := ScanPrecision(w.value.format, w.value.args, w.value.flags);
    if p.None? then None else
    var (fl, h) := ScanLength(p.value.format, p.value.flags);
    if h == [] then None
    else
      var t := Converted(h[0], fl, w.value.count, p.value.count, p.value.args);
      if t.None? then None else Some((t.value.0, h[1..], t.value.1))
  }

  /** The whole text. */
  function Format(f: string, args: seq<Arg>): Option<string>
    decreases |f|
  {
    if f == [] then Some([])
    else if f[0] != '%' then
      var rest := Format(f[1..], args);
      if rest.None? then None else Some([f[0]] + rest.value)
    else
      var d := Directive(f[1..], args);
      if d.None? then None
      else
        var rest := Format(d.value.1, d.value.2);
        if rest.None? then None else Some(d.value.0 + rest.value)
  }
}
