/** Intel HEX files: the records, the parser as a machine that takes one line at a time, and the printer. */
module IntelHex {
  import opened HexDigits
  import opened Bits
  import opened Wire

  const PAGE: nat := 0x1_0000
  const EOL := "\r\n"

  datatype Area = Area(start: nat, data: seq<byte>)
  datatype Image = Image(areas: seq<Area>, boot: nat)

  // ---- sorted areas ----

  /** insertAreaSorted: behind the areas that do not start later. */
  function InsertSorted(areas: seq<Area>, area: Area): (r: seq<Area>)
    ensures |r| == |areas| + 1
    ensures multiset(r) == multiset(areas) + multiset{area}
    ensures SortedAreas(areas) ==> SortedAreas(r)
    ensures r[0] == if areas == [] || area.start < areas[0].start then area else areas[0]
  {
    if areas == [] then [area]
    else if area.start < areas[0].start then
      InFront(area, areas);
      [area] + areas
    else
      assert areas == [areas[0]] + areas[1..];
      Tail(areas);
      InFront(areas[0], InsertSorted(areas[1..], area));
      [areas[0]] + InsertSorted(areas[1..], area)
  }

  lemma {:induction false} InFront(a: Area, areas: seq<Area>)
    requires areas != []
    ensures SortedAreas(areas) && a.start <= areas[0].start ==> SortedAreas([a] + areas)
  {}

  lemma {:induction false} Tail(areas: seq<Area>)
    requires areas != []
    ensures SortedAreas(areas) ==> SortedAreas(areas[1..]) && forall i :: 0 <= i < |areas[1..]| ==> areas[0].start <= areas[1..][i].start
  {
    assert forall i :: 0 <= i < |areas[1..]| ==> areas[1..][i] == areas[i + 1];
  }

  predicate SortedAreas(areas: seq<Area>) {
    forall i, j :: 0 <= i < j < |areas| ==> areas[i].start <= areas[j].start
  }

  // ---- hexadecimal text ----

  function Hex(b: seq<byte>, upper: bool): (s: string)
    ensures |s| == 2 * |b|
  {
    if b == [] then [] else [HexDigit(b[0] / 16, upper), HexDigit(b[0] % 16, upper)] + Hex(b[1..], upper)
  }

  predicate IsSpace(c: char) {
    c == ' ' || '\t' <= c <= '\r'
  }

  /** bytearray.fromhex: white space is passed over between two bytes. */
  function FromHex(s: string): Option<seq<byte>> {
    if s == [] then Some([])
    else if IsSpace(s[0]) then FromHex(s[1..])
    else if |s| == 1 || HexValue(s[0]).None? || HexValue(s[1]).None? then None
    else
      var rest := FromHex(s[2..]);
      if rest.None? then None else Some([HexValue(s[0]).value * 16 + HexValue(s[1]).value] + rest.value)
  }

  lemma {:induction false} HexBack(b: seq<byte>, upper: bool)
    ensures FromHex(Hex(b, upper)) == Some(b)
  {
    if b != [] {
      HexDigitBack(b[0] / 16, upper);
      HexDigitBack(b[0] % 16, upper);
      HexBack(b[1..], upper);
      HexFirst(b, upper);
    }
  }

  lemma {:induction false} HexFirst(b: seq<byte>, upper: bool)
    requires b != [] && FromHex(Hex(b[1..], upper)) == Some(b[1..])
    requires HexValue(HexDigit(b[0] / 16, upper)) == Some(b[0] / 16) && HexValue(HexDigit(b[0] % 16, upper)) == Some(b[0] % 16)
    ensures FromHex(Hex(b, upper)) == Some(b)
  {
    hide HexDigit, HexValue;
    assert Hex(b, upper)[2..] == Hex(b[1..], upper);
    Nibbles(b[0]);
    assert [b[0]] + b[1..] == b;
  }

  lemma {:induction false} Nibbles(b: byte)
    ensures b / 16 * 16 + b % 16 == b
  {}

  lemma {:induction false} HexPlain(b: seq<byte>, upper: bool)
    ensures forall i :: 0 <= i < |Hex(b, upper)| ==> Hex(b, upper)[i] != '\r' && Hex(b, upper)[i] != '\n'
  {
    if b != [] {
      HexPlain(b[1..], upper);
      assert forall i :: 2 <= i < |Hex(b, upper)| ==> Hex(b, upper)[i] == Hex(b[1..], upper)[i - 2];
    }
  }

  // ---- records ----

  function Sum(b: seq<byte>): nat {
    if b == [] then 0 else Sum(b[..|b| - 1]) + b[|b| - 1]
  }

  function Checksum(b: seq<byte>): (c: byte) {
    -(Sum(b) as int) % 256
  }

  /** The bytes of a record together with its checksum. */
  function Sealed(r: seq<byte>): seq<byte> {
    r + [Checksum(r)]
  }

  /** Every record adds up to zero modulo 256. */
  lemma {:induction false} SealedSum(r: seq<byte>)
    ensures Sum(Sealed(r)) % 256 == 0
  {
    assert Sealed(r)[..|r|] == r;
  }

  function DataRecord(address: nat, data: seq<byte>): seq<byte>
    requires address < PAGE && |data| < 256
  {
    [|data|, address / 256, address % 256, 0x00] + data
  }

  function SelectRecord(page: nat): seq<byte>
    requires page < PAGE
  {
    [2, 0, 0, 0x04, page / 256, page % 256]
  }

  function BootRecord(boot: nat): seq<byte>
    requires boot < TWO32
  {
    [4, 0, 0, 0x05, boot / 0x100_0000, boot / PAGE % 256, boot / 256 % 256, boot % 256]
  }

  function EndRecord(): seq<byte> {
    [0, 0, 0, 0x01]
  }

  /** One line of the file. */
  function Line(r: seq<byte>, upper: bool): string {
    ":" + Hex(Sealed(r), upper) + EOL
  }

  // ---- the parser ----

  /** The parser's variables between two lines. */
  datatype Parser = Parser(areas: seq<Area>, boot: nat, startZone: Option<nat>, startFirst: Option<nat>, current: nat, zoneData: seq<byte>)

  predicate Consistent(p: Parser) {
    (p.startFirst.Some? ==> p.startZone.Some?) && (p.zoneData != [] ==> p.startFirst.Some?)
  }

  function Zone(p: Parser): Area
    requires Consistent(p) && p.startFirst.Some?
  {
    Area(p.startZone.value * PAGE + p.startFirst.value, p.zoneData)
  }

  /** The zone that is open becomes an area. */
  function EndZone(p: Parser): (q: Parser)
    requires Consistent(p)
    ensures Consistent(q) && q.zoneData == []
  {
    if p.zoneData == [] then p else Parser(InsertSorted(p.areas, Zone(p)), p.boot, None, None, 0, [])
  }

  function Start(): (p: Parser)
    ensures Consistent(p)
  {
    Parser([], 0, None, None, 0, [])
  }

  /** A data record: it continues the zone, or starts a new one. */
  function TakeData(p: Parser, address: nat, count: nat, data: seq<byte>): (q: Parser)
    requires Consistent(p) && p.startZone.Some?
    ensures Consistent(q)
  {
    var begun := if p.startFirst.None? then p.(startFirst := Some(address), current := address) else p;
    var here := if address == begun.current then begun
                else begun.(areas := InsertSorted(begun.areas, Zone(begun)), zoneData := [], startFirst := Some(address), current := address);
    here.(zoneData := here.zoneData + data, current := here.current + count)
  }

  /** One record; None where an exception is raised. */
  function Step(p: Parser, r: seq<byte>): (q: Option<Parser>)
    requires Consistent(p)
    ensures q.Some? ==> Consistent(q.value)
  {
    if |r| < 4 then None
    else if r[3] == 0x00 then
      if p.startZone.None? then None
      else Some(TakeData(p, r[1] as nat * 256 + r[2] as nat, r[0], r[4..if 4 + r[0] as nat <= |r| then 4 + r[0] as nat else |r|]))
    else if r[3] == 0x01 then Some(EndZone(p))
    else if r[3] == 0x02 || r[3] == 0x03 then None
    else if r[3] == 0x04 then
      if |r| < 6 then None else Some(EndZone(p).(startZone := Some(r[4] as nat * 256 + r[5] as nat)))
    else if r[3] == 0x05 then
      if |r| < 8 then None
      else Some(p.(boot := r[4] as nat * 0x100_0000 + r[5] as nat * PAGE + r[6] as nat * 256 + r[7] as nat))
    else Some(p)
  }

  function IsEol(c: char): bool {
    c == '\r' || c == '\n'
  }

  /** rstrip('\r\n') */
  function Strip(line: string): string {
    if line != [] && IsEol(line[|line| - 1]) then Strip(line[..|line| - 1]) else line
  }

  function StepLine(p: Parser, line: string): (q: Option<Parser>)
    requires Consistent(p)
    ensures q.Some? ==> Consistent(q.value)
  {
    var s := Strip(line);
    if s == [] then Some(p)
    else if s[0] != ':' || FromHex(s[1..]).None? then None
    else Step(p, FromHex(s[1..]).value)
  }

  /** The length of the first line, with the character that ends it. A line feed behind a carriage return ends
      an empty line of its own here; the parser passes over empty lines. */
  function LineLength(text: string): (n: nat)
    requires text != []
    ensures 0 < n <= |text|
  {
    if IsEol(text[0]) || |text| == 1 then 1 else 1 + LineLength(text[1..])
  }

  /** The lines from here to the end of the file. */
  function StepLines(p: Parser, text: string): (q: Option<Parser>)
    requires Consistent(p)
    ensures q.Some? ==> Consistent(q.value)
    decreases |text|
  {
    if text == [] then Some(p)
    else
      var n := LineLength(text);
      var q := StepLine(p, text[..n]);
      if q.None? then None else StepLines(q.value, text[n..])
  }

  function Outcome(p: Option<Parser>): Option<Image>
    requires p.Some? ==> Consistent(p.value)
  {
    if p.None? then None else Some(Image(EndZone(p.value).areas, p.value.boot))
  }

  /** IntelHexParser on a whole file. */
  function Parse(text: string): Option<Image> {
    Outcome(StepLines(Start(), text))
  }

  // ---- the printer ----

  /** The bits that the printer compares to find out whether the page changed. */
  function Upper(offset: nat): nat {
    offset / PAGE % PAGE
  }

  function Low(a: Area): nat {
    a.start % PAGE
  }

  function End(block: nat, a: Area, off: nat): nat {
    if off + block > |a.data| then |a.data| else off + block
  }

  /** The records of an area from `off` on, `oldoff` being the previous offset. From 0xF0000 on the address
      takes five hexadecimal digits, and fromhex raises an exception. */
  function AreaRecords(block: nat, a: Area, off: nat, oldoff: nat): Option<seq<seq<byte>>>
    requires 1 <= block <= 255 && a.start < TWO32
    decreases |a.data| - off
  {
    if off >= |a.data| then Some([])
    else if Low(a) + off >= 0xF_0000 then None
    else
      var rest := AreaRecords(block, a, off + block, off);
      var select := if Upper(off) != Upper(oldoff) then [SelectRecord(a.start / PAGE)] else [];
      if rest.None? then None
      else Some(select + [DataRecord((Low(a) + off) % PAGE, a.data[off..End(block, a, off)])] + rest.value)
  }

  predicate Addressable(areas: seq<Area>) {
    forall a :: a in areas ==> a.start < TWO32 && a.start + |a.data| <= TWO32
  }

  function AllRecords(block: nat, areas: seq<Area>): Option<seq<seq<byte>>>
    requires 1 <= block <= 255 && forall a :: a in areas ==> a.start < TWO32
  {
    if areas == [] then Some([])
    else
      var first, rest := AreaRecords(block, areas[0], 0, areas[0].start + PAGE), AllRecords(block, areas[1..]);
      if first.None? || rest.None? then None else Some(first.value + rest.value)
  }

  function Text(rs: seq<seq<byte>>): string {
    if rs == [] then [] else Line(rs[0], true) + Text(rs[1..])
  }

  /** The last two lines; the boot address is written with small letters. */
  function TailText(boot: nat): string
    requires boot < TWO32
  {
    Line(BootRecord(boot), false) + Line(EndRecord(), true)
  }

  /** writeTo; None where an exception is raised. */
  function Print(block: nat, image: Image): Option<string>
    requires 1 <= block <= 255 && image.boot < TWO32 && forall a :: a in image.areas ==> a.start < TWO32
  {
    var rs := AllRecords(block, image.areas);
    if rs.None? then None else Some(Text(rs.value) + TailText(image.boot))
  }
}
