/** What a parsed Intel HEX file holds: every byte of its data records, at the address the records give it. */
module IntelHexBytes {
  import opened HexDigits
  import opened Bits
  import opened Wire
  import opened IntelHex

  type Bytes = multiset<(nat, byte)>

  /** Bytes one behind the other from an address on. */
  function Placed(at: nat, data: seq<byte>): Bytes
    decreases |data|
  {
    if data == [] then multiset{} else multiset{(at, data[0])} + Placed(at + 1, data[1..])
  }

  lemma {:induction false} PlacedNothing(at: nat)
    ensures Placed(at, []) == multiset{}
  {}

  lemma {:induction false} PlacedCons(at: nat, b: byte, data: seq<byte>)
    ensures Placed(at, [b] + data) == multiset{(at, b)} + Placed(at + 1, data)
  {
    assert ([b] + data)[1..] == data;
  }

  lemma {:induction false} Together(a: Bytes, b: Bytes, c: Bytes)
    ensures a + b + c == a + (b + c) && a + b == b + a && a + multiset{} == a
  {}

  lemma {:induction false} PlacedConcat(at: nat, x: seq<byte>, y: seq<byte>)
    ensures Placed(at, x + y) == Placed(at, x) + Placed(at + |x|, y)
    decreases |x|
  {
    hide Placed;
    if x == [] {
      assert x + y == y;
      PlacedNothing(at);
      Together(Placed(at, y), multiset{}, multiset{});
    } else {
      assert x == [x[0]] + x[1..] && x + y == [x[0]] + (x[1..] + y);
      PlacedCons(at, x[0], x[1..]);
      PlacedCons(at, x[0], x[1..] + y);
      PlacedConcat(at + 1, x[1..], y);
      Together(multiset{(at, x[0])}, Placed(at + 1, x[1..]), Placed(at + |x|, y));
    }
  }

  /** The bytes of all areas. */
  function Bag(areas: seq<Area>): Bytes {
    if areas == [] then multiset{} else Placed(areas[0].start, areas[0].data) + Bag(areas[1..])
  }

  lemma {:induction false} BagCons(a: Area, areas: seq<Area>)
    ensures Bag([a] + areas) == Placed(a.start, a.data) + Bag(areas)
  {
    assert ([a] + areas)[1..] == areas;
  }

  lemma {:induction false} BagInsert(areas: seq<Area>, area: Area)
    ensures Bag(InsertSorted(areas, area)) == Bag(areas) + Placed(area.start, area.data)
  {
    hide Bag, Placed;
    InsertedFirst(areas, area);
    var here := Placed(area.start, area.data);
    if areas == [] || area.start < areas[0].start {
      BagCons(area, areas);
      Together(here, Bag(areas), multiset{});
    } else {
      var first := Placed(areas[0].start, areas[0].data);
      assert areas == [areas[0]] + areas[1..];
      BagCons(areas[0], areas[1..]);
      BagInsert(areas[1..], area);
      BagCons(areas[0], InsertSorted(areas[1..], area));
      Together(first, Bag(areas[1..]), here);
    }
  }

  lemma {:induction false} InsertedFirst(areas: seq<Area>, area: Area)
    ensures InsertSorted(areas, area)
         == if areas == [] || area.start < areas[0].start then [area] + areas else [areas[0]] + InsertSorted(areas[1..], area)
  {}

  // ---- what the lines of a file say ----

  /** The record in a line, or nothing. */
  function RecordIn(line: string): seq<byte> {
    var s := Strip(line);
    if s == [] || FromHex(s[1..]).None? then [] else FromHex(s[1..]).value
  }

  predicate IsType(r: seq<byte>, t: byte) {
    |r| >= 4 && r[3] == t
  }

  /** A data record has the bytes that it counts. */
  predicate Counts(r: seq<byte>) {
    IsType(r, 0x00) ==> 4 + r[0] as nat <= |r|
  }

  /** The bytes of a data record, behind the page that was selected. */
  function Says(r: seq<byte>, page: Option<nat>): Bytes
    requires Counts(r)
  {
    if IsType(r, 0x00) && page.Some? then Placed(page.value * 65536 + r[1] as nat * 256 + r[2] as nat, r[4..4 + r[0] as nat]) else multiset{}
  }

  /** The page that a record of type 4 selects stays selected for the records behind it. */
  function PageAfter(r: seq<byte>, page: Option<nat>): Option<nat> {
    if IsType(r, 0x04) && |r| >= 6 then Some(r[4] as nat * 256 + r[5] as nat) else page
  }

  function BootAfter(r: seq<byte>, boot: nat): nat {
    if IsType(r, 0x05) && |r| >= 8 then r[4] as nat * 0x100_0000 + r[5] as nat * 0x1_0000 + r[6] as nat * 0x100 + r[7] as nat else boot
  }

  predicate AllCount(text: string)
    decreases |text|
  {
    text != [] ==> Counts(RecordIn(text[..LineLength(text)])) && AllCount(text[LineLength(text)..])
  }

  function FileSays(text: string, page: Option<nat>): Bytes
    requires AllCount(text)
    decreases |text|
  {
    if text == [] then multiset{}
    else
      var r, rest := RecordIn(text[..LineLength(text)]), text[LineLength(text)..];
      Says(r, page) + FileSays(rest, PageAfter(r, page))
  }

  /** The last boot address in the file. */
  function LastBoot(text: string, boot: nat): nat
    decreases |text|
  {
    if text == [] then boot else LastBoot(text[LineLength(text)..], BootAfter(RecordIn(text[..LineLength(text)]), boot))
  }

  // ---- what the parser holds ----

  function OpenBytes(p: Parser): Bytes
    requires Consistent(p)
  {
    if p.startFirst.Some? then Placed(p.startZone.value * PAGE + p.startFirst.value, p.zoneData) else multiset{}
  }

  function Held(p: Parser): Bytes
    requires Consistent(p)
  {
    Bag(p.areas) + OpenBytes(p)
  }

  /** The open zone ends where the next record is expected, on the page that is selected. */
  predicate InStep(p: Parser, page: Option<nat>) {
    && Consistent(p)
    && (p.startFirst.Some? ==> p.current == p.startFirst.value + |p.zoneData|)
    && (p.startZone.Some? ==> page == p.startZone)
  }

  lemma {:induction false} EndKeeps(p: Parser, page: Option<nat>)
    requires InStep(p, page)
    ensures InStep(EndZone(p), page) && Held(EndZone(p)) == Held(p) && EndZone(p).zoneData == [] && EndZone(p).boot == p.boot
  {
    hide Bag, Placed, InsertSorted;
    if p.zoneData != [] {
      BagInsert(p.areas, Zone(p));
      Together(Bag(EndZone(p).areas), multiset{}, multiset{});
    }
  }

  lemma {:induction false} DataKeeps(p: Parser, page: Option<nat>, address: nat, data: seq<byte>)
    requires InStep(p, page) && p.startZone.Some?
    ensures var q := TakeData(p, address, |data|, data);
      InStep(q, page) && Held(q) == Held(p) + Placed(page.value * PAGE + address, data) && q.boot == p.boot
  {
    hide InsertSorted, Bag, Placed;
    if p.startFirst.None? {
      DataBegins(p, page, address, data);
    } else if address == p.current {
      DataGoesOn(p, page, data);
    } else {
      DataElsewhere(p, page, address, data);
    }
  }

  lemma {:induction false} DataBegins(p: Parser, page: Option<nat>, address: nat, data: seq<byte>)
    requires InStep(p, page) && p.startZone.Some? && p.startFirst.None?
    ensures var q := TakeData(p, address, |data|, data);
      InStep(q, page) && Held(q) == Held(p) + Placed(page.value * PAGE + address, data) && q.boot == p.boot
  {
    hide InsertSorted, Bag, Placed;
    assert p.zoneData == [] && [] + data == data;
    assert TakeData(p, address, |data|, data) == p.(startFirst := Some(address), current := address + |data|, zoneData := data);
    Together(Bag(p.areas), multiset{}, multiset{});
  }

  lemma {:induction false} DataGoesOn(p: Parser, page: Option<nat>, data: seq<byte>)
    requires InStep(p, page) && p.startFirst.Some?
    ensures p.startZone.Some?
    ensures var q := TakeData(p, p.current, |data|, data);
      InStep(q, page) && Held(q) == Held(p) + Placed(page.value * PAGE + p.current, data) && q.boot == p.boot
  {
    hide InsertSorted, Bag, Placed;
    var at := page.value * PAGE + p.startFirst.value;
    assert TakeData(p, p.current, |data|, data) == p.(zoneData := p.zoneData + data, current := p.current + |data|);
    PlacedConcat(at, p.zoneData, data);
    Together(Bag(p.areas), Placed(at, p.zoneData), Placed(at + |p.zoneData|, data));
  }

  lemma {:induction false} DataElsewhere(p: Parser, page: Option<nat>, address: nat, data: seq<byte>)
    requires InStep(p, page) && p.startFirst.Some? && address != p.current
    ensures p.startZone.Some?
    ensures var q := TakeData(p, address, |data|, data);
      InStep(q, page) && Held(q) == Held(p) + Placed(page.value * PAGE + address, data) && q.boot == p.boot
  {
    hide InsertSorted, Bag, Placed;
    assert [] + data == data;
    assert TakeData(p, address, |data|, data)
        == p.(areas := InsertSorted(p.areas, Zone(p)), startFirst := Some(address), current := address + |data|, zoneData := data);
    BagInsert(p.areas, Zone(p));
  }

  lemma {:induction false} Reselected(p: Parser, page: Option<nat>, next: nat)
    requires InStep(p, page) && p.zoneData == []
    ensures InStep(p.(startZone := Some(next)), Some(next)) && Held(p.(startZone := Some(next))) == Held(p)
  {
    hide Bag;
  }

  lemma {:induction false} StepKeeps(p: Parser, page: Option<nat>, r: seq<byte>)
    requires InStep(p, page) && Counts(r) && Step(p, r).Some?
    ensures var q := Step(p, r).value;
      InStep(q, PageAfter(r, page)) && Held(q) == Held(p) + Says(r, page) && q.boot == BootAfter(r, p.boot)
  {
    hide TakeData, EndZone, Bag, Placed;
    Together(Held(p), multiset{}, multiset{});
    EndKeeps(p, page);
    if r[3] == 0x00 {
      DataKeeps(p, page, r[1] as nat * 256 + r[2] as nat, r[4..4 + r[0] as nat]);
    } else if r[3] == 0x04 {
      Reselected(EndZone(p), page, r[4] as nat * 256 + r[5] as nat);
    }
  }

  lemma {:induction false} LineKeeps(p: Parser, page: Option<nat>, line: string)
    requires InStep(p, page) && Counts(RecordIn(line)) && StepLine(p, line).Some?
    ensures var q, r := StepLine(p, line).value, RecordIn(line);
      InStep(q, PageAfter(r, page)) && Held(q) == Held(p) + Says(r, page) && q.boot == BootAfter(r, p.boot)
  {
    hide Strip, FromHex, Step, Held;
    if Strip(line) != [] {
      StepKeeps(p, page, RecordIn(line));
    }
  }

  lemma {:induction false} Open(p: Parser, page: Option<nat>)
    requires InStep(p, page)
    ensures Consistent(p)
  {}

  lemma {:induction false} LinesKeep(p: Parser, page: Option<nat>, text: string)
    requires InStep(p, page) && AllCount(text) && StepLines(p, text).Some?
    ensures var q := StepLines(p, text).value;
      && (exists last :: InStep(q, last)) && Held(q) == Held(p) + FileSays(text, page) && q.boot == LastBoot(text, p.boot)
    decreases |text|
  {
    hide InStep, Held, StepLine, RecordIn, Counts, Says, PageAfter, BootAfter;
    if text != [] {
      var n := LineLength(text);
      Open(p, page);
      LineKeeps(p, page, text[..n]);
      Together(Held(p), Says(RecordIn(text[..n]), page), FileSays(text[n..], PageAfter(RecordIn(text[..n]), page)));
      LinesKeep(StepLine(p, text[..n]).value, PageAfter(RecordIn(text[..n]), page), text[n..]);
    }
  }

  lemma {:induction false} AtStart()
    ensures InStep(Start(), None) && Held(Start()) == multiset{} && Start().boot == 0
  {}

  lemma {:induction false} AreasHold(p: Parser, page: Option<nat>)
    requires InStep(p, page)
    ensures Bag(EndZone(p).areas) == Held(p)
  {
    EndKeeps(p, page);
    assert OpenBytes(EndZone(p)) == multiset{};
  }

  /** No byte is lost, added or moved: the areas hold exactly the bytes of the data records, each at the address that
      its record and the page selected before it give, as often as it is there; and the boot address is the last. */
  lemma {:induction false} BytesKept(text: string)
    requires AllCount(text) && Parse(text).Some?
    ensures Bag(Parse(text).value.areas) == FileSays(text, None) && Parse(text).value.boot == LastBoot(text, 0)
  {
    hide InStep, Held, StepLines, EndZone, Bag;
    AtStart();
    LinesKeep(Start(), None, text);
    var p := StepLines(Start(), text).value;
    var last :| InStep(p, last);
    AreasHold(p, last);
    ParsedIs(text);
  }

  lemma {:induction false} ParsedIs(text: string)
    requires StepLines(Start(), text).Some?
    ensures var p := StepLines(Start(), text).value;
      Parse(text) == Some(Image(EndZone(p).areas, p.boot))
  {
    hide StepLines, EndZone;
  }

  /** The records that are refused: too short, of the types 2 and 3, and data before any page is selected. */
  lemma {:induction false} RefusedExactly(p: Parser, r: seq<byte>)
    requires Consistent(p)
    ensures Step(p, r).None?
       <==> || |r| < 4 || IsType(r, 0x02) || IsType(r, 0x03) || (IsType(r, 0x04) && |r| < 6) || (IsType(r, 0x05) && |r| < 8)
            || (IsType(r, 0x00) && p.startZone.None?)
  {
    hide TakeData, EndZone;
  }

  /** A line that begins with anything but a colon ends the reading with an exception. */
  lemma {:induction false} OtherLine(p: Parser, line: string)
    requires Consistent(p) && line != [] && line[0] !in {':', '\r', '\n'}
    ensures StepLine(p, line).None?
  {
    StripKeepsFirst(line);
    hide Strip, FromHex, Step;
  }

  /** White space between the bytes of a line is passed over; a character that is no digit, or a digit without a
      second one, is refused. */
  lemma {:induction false} HexSpaces(s: string)
    ensures forall c | c in {' ', '\t', '\n', '\r', 11 as char, 12 as char} :: FromHex([c] + s) == FromHex(s)
    ensures s != [] && !IsSpace(s[0]) && HexValue(s[0]).None? ==> FromHex(s) == None
    ensures |s| == 1 && !IsSpace(s[0]) ==> FromHex(s) == None
    ensures |s| >= 2 && !IsSpace(s[0]) && HexValue(s[1]).None? ==> FromHex(s) == None
  {
    hide HexValue;
    forall c | c in {' ', '\t', '\n', '\r', 11 as char, 12 as char} ensures FromHex([c] + s) == FromHex(s) {
      assert ([c] + s)[1..] == s;
    }
  }

  lemma {:induction false} StripKeepsFirst(line: string)
    requires line != [] && !IsEol(line[0])
    ensures Strip(line) != [] && Strip(line)[0] == line[0]
  {
    if IsEol(line[|line| - 1]) {
      StripKeepsFirst(line[..|line| - 1]);
    }
  }

  lemma {:induction false} StepSorts(p: Parser, r: seq<byte>)
    requires Consistent(p) && SortedAreas(p.areas) && Step(p, r).Some?
    ensures SortedAreas(Step(p, r).value.areas)
  {
    hide SortedAreas;
  }

  lemma {:induction false} LinesSort(p: Parser, text: string)
    requires Consistent(p) && SortedAreas(p.areas) && StepLines(p, text).Some?
    ensures SortedAreas(EndZone(StepLines(p, text).value).areas)
    decreases |text|
  {
    hide Step, SortedAreas, Strip, FromHex;
    if text != [] {
      var line := text[..LineLength(text)];
      if Strip(line) != [] {
        StepSorts(p, RecordIn(line));
      }
      hide StepLine;
      LinesSort(StepLine(p, line).value, text[LineLength(text)..]);
    }
  }

  /** The areas of a parsed file are in the order of their addresses. */
  lemma {:induction false} ParsedSorted(text: string)
    requires Parse(text).Some?
    ensures SortedAreas(Parse(text).value.areas)
  {
    LinesSort(Start(), text);
    ParsedIs(text);
    hide StepLines, EndZone, SortedAreas;
  }
}
