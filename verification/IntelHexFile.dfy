/** The classes of hexParser.py, proved against the records and the parser machine. */
module IntelHexFile {
  import opened HexDigits
  import opened Bits
  import opened Wire
  import opened IntelHex
  import opened IntelHexTrip

  method InsertAreaSorted(areas: seq<Area>, area: Area) returns (r: seq<Area>)
    ensures r == InsertSorted(areas, area)
  {
    var i := 0;
    assert areas[..0] + InsertSorted(areas[0..], area) == InsertSorted(areas, area);
    while i < |areas|
      invariant 0 <= i <= |areas|
      invariant InsertSorted(areas, area) == areas[..i] + InsertSorted(areas[i..], area)
    {
      Passes(areas, i, area);
      if area.start < areas[i].start {
        break;
      }
      i := i + 1;
    }
    Lands(areas, i, area);
    r := areas[..i] + [area] + areas[i..];
  }

  lemma {:induction false} Passes(areas: seq<Area>, i: nat, area: Area)
    requires i < |areas|
    ensures area.start >= areas[i].start ==>
      areas[..i] + InsertSorted(areas[i..], area) == areas[..i + 1] + InsertSorted(areas[i + 1..], area)
  {
    hide SortedAreas;
    assert areas[i..][1..] == areas[i + 1..];
    assert areas[..i + 1] == areas[..i] + [areas[i]];
    Joined(areas[..i], areas[i], InsertSorted(areas[i + 1..], area));
  }

  lemma {:induction false} Joined(a: seq<Area>, b: Area, c: seq<Area>)
    ensures a + ([b] + c) == a + [b] + c
  {}

  lemma {:induction false} Lands(areas: seq<Area>, i: nat, area: Area)
    requires i <= |areas| && (i < |areas| ==> area.start < areas[i].start)
    ensures areas[..i] + InsertSorted(areas[i..], area) == areas[..i] + [area] + areas[i..]
  {}

  class IntelHexParser {
    var bootAddr: nat
    var areas: seq<Area>

    constructor ()
      ensures areas == [] && bootAddr == 0
    {
      areas, bootAddr := [], 0;
    }

    /** The parser's fields and the variables of its loop together. */
    ghost function Now(startZone: Option<nat>, startFirst: Option<nat>, current: nat, zoneData: seq<byte>): Parser
      reads this
    {
      Parser(areas, bootAddr, startZone, startFirst, current, zoneData)
    }

    method AddArea(area: Area)
      modifies this`areas
      ensures areas == InsertSorted(old(areas), area)
    {
      areas := InsertAreaSorted(areas, area);
    }

    /** `if len(zoneData) != 0:` and the statements under it. */
    method CloseZone(startZone: Option<nat>, startFirst: Option<nat>, current: nat, zoneData: seq<byte>)
      returns (startZone': Option<nat>, startFirst': Option<nat>, current': nat)
      requires Consistent(Now(startZone, startFirst, current, zoneData))
      modifies this`areas
      ensures Now(startZone', startFirst', current', []) == EndZone(old(Now(startZone, startFirst, current, zoneData)))
    {
      hide InsertSorted;
      if |zoneData| != 0 {
        AddArea(Area(startZone.value * PAGE + startFirst.value, zoneData));
        return None, None, 0;
      }
      return startZone, startFirst, current;
    }

    /** A record of type 00. */
    method DataBranch(data: seq<byte>, startZone: Option<nat>, startFirst: Option<nat>, current: nat, zoneData: seq<byte>)
      returns (startFirst': Option<nat>, current': nat, zoneData': seq<byte>)
      requires Consistent(Now(startZone, startFirst, current, zoneData)) && startZone.Some? && |data| >= 4
      modifies this`areas
      ensures Now(startZone, startFirst', current', zoneData')
           == TakeData(old(Now(startZone, startFirst, current, zoneData)), data[1] as nat * 256 + data[2] as nat, data[0],
                       data[4..if 4 + data[0] as nat <= |data| then 4 + data[0] as nat else |data|])
    {
      hide InsertSorted;
      var count: nat, address := data[0], data[1] as nat * 256 + data[2] as nat;
      startFirst', current', zoneData' := startFirst, current, zoneData;
      if startFirst'.None? {
        startFirst' := Some(address);
        current' := address;
      }
      if address != current' {
        AddArea(Area(startZone.value * PAGE + startFirst'.value, zoneData'));
        zoneData' := [];
        startFirst' := Some(address);
        current' := address;
      }
      zoneData' := zoneData' + data[4..if 4 + count <= |data| then 4 + count else |data|];
      current' := current' + count;
    }

    /** The body of the loop on a line that is not empty, from its bytes on. */
    method TakeRecord(data: seq<byte>, startZone: Option<nat>, startFirst: Option<nat>, current: nat, zoneData: seq<byte>)
      returns (ok: bool, startZone': Option<nat>, startFirst': Option<nat>, current': nat, zoneData': seq<byte>)
      requires Consistent(Now(startZone, startFirst, current, zoneData))
      modifies this
      ensures ok <==> Step(old(Now(startZone, startFirst, current, zoneData)), data).Some?
      ensures ok ==>
        Now(startZone', startFirst', current', zoneData') == Step(old(Now(startZone, startFirst, current, zoneData)), data).value
    {
      startZone', startFirst', current', zoneData' := startZone, startFirst, current, zoneData;
      if |data| < 4 {
        return false, startZone', startFirst', current', zoneData';
      }
      var recordType := data[3];
      ok := true;
      if recordType == 0x00 {
        if startZone.None? {
          return false, startZone', startFirst', current', zoneData';
        }
        startFirst', current', zoneData' := DataBranch(data, startZone, startFirst, current, zoneData);
      }
      if recordType == 0x01 {
        startZone', startFirst', current' := CloseZone(startZone, startFirst, current, zoneData);
        zoneData' := [];
      }
      if recordType == 0x02 || recordType == 0x03 {
        return false, startZone', startFirst', current', zoneData';
      }
      if recordType == 0x04 {
        startZone', startFirst', current' := CloseZone(startZone, startFirst, current, zoneData);
        zoneData' := [];
        if |data| < 6 {
          return false, startZone', startFirst', current', zoneData';
        }
        startZone' := Some(data[4] as nat * 256 + data[5] as nat);
      }
      if recordType == 0x05 {
        if |data| < 8 {
          return false, startZone', startFirst', current', zoneData';
        }
        bootAddr := data[4] as nat * 0x100_0000 + data[5] as nat * PAGE + data[6] as nat * 256 + data[7] as nat;
      }
    }

    /** The lines of the file one after the other, and the tail add of the last zone. */
    method Read(file: string) returns (ok: bool)
      requires areas == [] && bootAddr == 0
      modifies this
      ensures ok <==> Parse(file).Some?
      ensures ok ==> Image(areas, bootAddr) == Parse(file).value
    {
      hide Step, EndZone, FromHex, Strip;
      var startZone: Option<nat>, startFirst: Option<nat>, current: nat, zoneData: seq<byte> := None, None, 0, [];
      var rest := file;
      while rest != []
        invariant Consistent(Now(startZone, startFirst, current, zoneData))
        invariant StepLines(Start(), file) == StepLines(Now(startZone, startFirst, current, zoneData), rest)
        decreases |rest|
      {
        var n := LineLength(rest);
        var line := Strip(rest[..n]);
        ghost var before := Now(startZone, startFirst, current, zoneData);
        if |line| != 0 {
          if line[0] != ':' || FromHex(line[1..]).None? {
            return false;
          }
          var taken;
          taken, startZone, startFirst, current, zoneData := TakeRecord(FromHex(line[1..]).value, startZone, startFirst, current, zoneData);
          if !taken {
            return false;
          }
        }
        assert StepLine(before, rest[..n]) == Some(Now(startZone, startFirst, current, zoneData));
        rest := rest[n..];
      }
      startZone, startFirst, current := CloseZone(startZone, startFirst, current, zoneData);
      return true;
    }
  }

  lemma {:induction false} OneInserted(base: seq<Area>, areas: seq<Area>, i: nat)
    requires i < |areas|
    ensures InsertAll(base, areas[i..]) == InsertAll(InsertSorted(base, areas[i]), areas[i + 1..])
  {
    hide InsertSorted, SortedAreas;
    assert areas[i..][1..] == areas[i + 1..];
  }

  lemma {:induction false} SortedInserted(areas: seq<Area>)
    ensures SortedAreas(areas) ==> InsertAll([], areas) == areas
  {
    hide InsertAll, SortedAreas;
    if SortedAreas(areas) {
      assert [] + areas == areas;
      InsertedInOrder([], areas);
    }
  }

  lemma {:induction false} AllInserted(base: seq<Area>, areas: seq<Area>)
    ensures InsertAll(base, areas[|areas|..]) == base
  {}

  class IntelHexPrinter {
    var areas: seq<Area>
    var bootAddr: nat

    /** Bound to what a parser has read: the areas are inserted again one by one. */
    constructor (parser: IntelHexParser)
      ensures areas == InsertAll([], parser.areas) && bootAddr == parser.bootAddr
      ensures SortedAreas(parser.areas) ==> areas == parser.areas
    {
      areas, bootAddr := [], parser.bootAddr;
      new;
      hide InsertAll, InsertSorted, SortedAreas;
      TakeAreas(parser);
      SortedInserted(parser.areas);
    }

    /** The loop of the constructor. */
    method TakeAreas(parser: IntelHexParser)
      modifies this`areas
      ensures areas == InsertAll(old(areas), parser.areas)
    {
      hide InsertAll, InsertSorted, SortedAreas;
      assert parser.areas[0..] == parser.areas;
      for i := 0 to |parser.areas|
        invariant InsertAll(areas, parser.areas[i..]) == InsertAll(old(areas), parser.areas)
      {
        OneInserted(areas, parser.areas, i);
        AddArea(parser.areas[i].start, parser.areas[i].data, false);
      }
      AllInserted(areas, parser.areas);
    }

    method AddArea(startaddress: nat, data: seq<byte>, insertFirst: bool)
      modifies this`areas
      ensures areas == if insertFirst then [Area(startaddress, data)] + old(areas)
                       else InsertSorted(old(areas), Area(startaddress, data))
    {
      if insertFirst {
        areas := [Area(startaddress, data)] + areas;
      } else {
        areas := InsertAreaSorted(areas, Area(startaddress, data));
      }
    }

    /** writeTo, with the whole text of the file as its result. */
    method WriteTo(blocksize: nat) returns (ok: bool, file: string)
      requires 1 <= blocksize <= 255 && bootAddr < TWO32 && forall a :: a in areas ==> a.start < TWO32
      ensures ok <==> Print(blocksize, Image(areas, bootAddr)).Some?
      ensures ok ==> file == Print(blocksize, Image(areas, bootAddr)).value
    {
      hide Line, AreaRecords, AllRecords, Text, TailText;
      file := "";
      ghost var done: seq<seq<byte>> := [];
      ghost var all := AllRecords(blocksize, areas);
      assert areas[0..] == areas;
      assert Text(done) == "" by { NoText(); }
      for i := 0 to |areas|
        invariant all.Some? <==> AllRecords(blocksize, areas[i..]).Some?
        invariant all.Some? ==> all.value == done + AllRecords(blocksize, areas[i..]).value
        invariant file == Text(done)
      {
        FromHere(blocksize, areas, i);
        var area := areas[i];
        var written;
        written, file := WriteArea(file, area, blocksize);
        if !written {
          return false, file;
        }
        ghost var records := AreaRecords(blocksize, area, 0, area.start + PAGE).value;
        TextConcat(done, records);
        done := done + records;
      }
      NothingFrom(blocksize, areas);
      assert done + [] == done;
      file := WriteTail(file);
      return true, file;
    }

    /** The two records behind the areas. */
    method WriteTail(file: string) returns (file': string)
      requires bootAddr < TWO32
      ensures file' == file + TailText(bootAddr)
    {
      hide Hex, BootRecord;
      var bootRecord := BootRecord(bootAddr);
      var cks := ChecksumOf(bootRecord);
      file' := file + (":" + Hex(bootRecord + [cks], false) + EOL);
      EndLine();
      file' := file' + (":00000001FF" + EOL);
    }
  }

  lemma {:induction false} NoText()
    ensures Text([]) == ""
  {}

  lemma {:induction false} FromHere(block: nat, areas: seq<Area>, i: nat)
    requires 1 <= block <= 255 && (forall a :: a in areas ==> a.start < TWO32) && i < |areas|
    ensures var first, rest := AreaRecords(block, areas[i], 0, areas[i].start + PAGE), AllRecords(block, areas[i + 1..]);
      AllRecords(block, areas[i..]) == if first.None? || rest.None? then None else Some(first.value + rest.value)
  {
    hide AreaRecords;
    assert areas[i..][1..] == areas[i + 1..];
  }

  lemma {:induction false} NothingFrom(block: nat, areas: seq<Area>)
    requires 1 <= block <= 255
    ensures AllRecords(block, areas[|areas|..]) == Some([])
  {}

  lemma {:induction false} EndLine()
    ensures Line(EndRecord(), true) == ":00000001FF" + EOL
  {
    EndSum();
    EndHex();
    hide Hex, Sum;
    assert Sealed(EndRecord()) == [0, 0, 0, 1, 0xFF];
  }

  lemma {:induction false} EndSum()
    ensures Sum(EndRecord()) == 1
  {
    hide Sum;
    NoSum();
    SumSnoc([], 0);
    SumSnoc([0], 0);
    SumSnoc([0, 0], 0);
    SumSnoc([0, 0, 0], 1);
    assert [] + [0] == [0] && [0] + [0] == [0, 0] && [0, 0] + [0] == [0, 0, 0] && [0, 0, 0] + [1] == EndRecord();
  }

  lemma {:induction false} NoSum()
    ensures Sum([]) == 0
  {}

  lemma {:induction false} EndHex()
    ensures Hex([0, 0, 0, 1, 0xFF], true) == "00000001FF"
  {
    hide Hex;
    HexStep(0, [0, 0, 1, 0xFF]);
    HexStep(0, [0, 1, 0xFF]);
    HexStep(0, [1, 0xFF]);
    HexStep(1, [0xFF]);
    HexStep(0xFF, []);
    NoHex();
    assert [0] + [0, 0, 1, 0xFF] == [0, 0, 0, 1, 0xFF] && [0] + [0, 1, 0xFF] == [0, 0, 1, 0xFF];
    assert [0] + [1, 0xFF] == [0, 1, 0xFF] && [1] + [0xFF] == [1, 0xFF] && [0xFF] + [] == [0xFF];
    assert Hex([0xFF], true) == "FF" && Hex([1, 0xFF], true) == "01FF";
    assert Hex([0, 1, 0xFF], true) == "0001FF" && Hex([0, 0, 1, 0xFF], true) == "000001FF";
  }

  lemma {:induction false} NoHex()
    ensures Hex([], true) == ""
  {}

  lemma {:induction false} SumSnoc(b: seq<byte>, last: byte)
    ensures Sum(b + [last]) == Sum(b) + last
  {
    assert (b + [last])[..|b|] == b;
  }

  lemma {:induction false} HexStep(b: byte, rest: seq<byte>)
    ensures Hex([b] + rest, true) == [HexDigit(b / 16, true), HexDigit(b % 16, true)] + Hex(rest, true)
  {}

  lemma {:induction false} FirstText(rs: seq<seq<byte>>, ts: seq<seq<byte>>, line: string)
    requires rs != [] && Text(rs[1..] + ts) == Text(rs[1..]) + Text(ts) && line == Line(rs[0], true)
    ensures Text(rs + ts) == Text(rs) + Text(ts)
  {
    hide Line;
    assert (rs + ts)[1..] == rs[1..] + ts && (rs + ts)[0] == rs[0];
    assert line + (Text(rs[1..]) + Text(ts)) == line + Text(rs[1..]) + Text(ts);
  }

  lemma {:induction false} TextConcat(rs: seq<seq<byte>>, ts: seq<seq<byte>>)
    ensures Text(rs + ts) == Text(rs) + Text(ts)
  {
    hide Line;
    if rs == [] {
      assert rs + ts == ts;
    } else {
      TextConcat(rs[1..], ts);
      FirstText(rs, ts, Line(rs[0], true));
    }
  }

  method ChecksumOf(bin: seq<byte>) returns (cks: byte)
    ensures cks == Checksum(bin)
  {
    var sum: nat := 0;
    for i := 0 to |bin|
      invariant sum == Sum(bin[..i])
    {
      assert bin[..i + 1][..i] == bin[..i];
      sum := sum + bin[i];
    }
    assert bin[..|bin|] == bin;
    cks := -(sum as int) % 256;
  }

  /** _emit_binary: the line that is appended to the file. */
  method EmitBinary(file: string, bin: seq<byte>) returns (file': string)
    ensures file' == file + Line(bin, true)
  {
    var cks := ChecksumOf(bin);
    file' := file + (":" + Hex(bin + [cks], true) + EOL);
  }

  /** The loop over the offsets of one area. */
  method WriteArea(file: string, area: Area, blocksize: nat) returns (ok: bool, file': string)
    requires 1 <= blocksize <= 255 && area.start < TWO32
    ensures ok <==> AreaRecords(blocksize, area, 0, area.start + PAGE).Some?
    ensures ok ==> file' == file + Text(AreaRecords(blocksize, area, 0, area.start + PAGE).value)
  {
    var off: nat, oldoff: nat := 0, area.start + PAGE;
    file' := file;
    ghost var done: seq<seq<byte>> := [];
    ghost var all := AreaRecords(blocksize, area, 0, area.start + PAGE);
    hide Line, SelectRecord, DataRecord, Upper, Low, AreaRecords, Text;
    NoText();
    while off < |area.data|
      invariant all.Some? <==> AreaRecords(blocksize, area, off, oldoff).Some?
      invariant all.Some? ==> all.value == done + AreaRecords(blocksize, area, off, oldoff).value
      invariant file' == file + Text(done)
      decreases |area.data| - off
    {
      NextRecords(blocksize, area, off, oldoff);
      if Low(area) + off >= 0xF_0000 {
        return false, file';
      }
      file', done := WriteRecords(file, file', area, blocksize, off, oldoff, done);
      oldoff := off;
      off := off + blocksize;
    }
    NoneFrom(blocksize, area, off, oldoff);
    assert done + [] == done;
    ok := true;
  }

  /** The records for one offset. */
  method WriteRecords(ghost start: string, file: string, area: Area, blocksize: nat, off: nat, oldoff: nat, ghost done: seq<seq<byte>>)
    returns (file': string, ghost done': seq<seq<byte>>)
    requires 1 <= blocksize <= 255 && area.start < TWO32 && off < |area.data| && Low(area) + off < 0xF_0000
    requires file == start + Text(done)
    ensures file' == start + Text(done')
    ensures var first, rest := AreaRecords(blocksize, area, off, oldoff), AreaRecords(blocksize, area, off + blocksize, off);
      (first.Some? <==> rest.Some?) && (first.Some? ==> done + first.value == done' + rest.value)
  {
    hide Line, SelectRecord, DataRecord, Upper, Low, AreaRecords, Text;
    NextRecords(blocksize, area, off, oldoff);
    ghost var select := if Upper(off) != Upper(oldoff) then [SelectRecord(area.start / PAGE)] else [];
    file' := file;
    if Upper(off) != Upper(oldoff) {
      file' := EmitBinary(file', SelectRecord(area.start / PAGE));
    }
    var piece := area.data[off..if off + blocksize > |area.data| then |area.data| else off + blocksize];
    var record := DataRecord((Low(area) + off) % PAGE, piece);
    file' := EmitBinary(file', record);
    done' := done + (select + [record]);
    TextEmitted(done, select, record);
    ghost var rest := AreaRecords(blocksize, area, off + blocksize, off);
    if rest.Some? {
      Regroup(done, select, [record], rest.value);
    }
  }

  lemma {:induction false} TextEmitted(rs: seq<seq<byte>>, select: seq<seq<byte>>, r: seq<byte>)
    requires |select| <= 1
    ensures Text(rs + (select + [r])) == Text(rs) + (if select == [] then [] else Line(select[0], true)) + Line(r, true)
  {
    hide Line, Text;
    if select == [] {
      assert rs + (select + [r]) == rs + [r];
    } else {
      assert rs + (select + [r]) == rs + [select[0]] + [r];
      TextSnoc(rs, select[0]);
    }
    TextSnoc(rs + select, r);
    assert rs + select == if select == [] then rs else rs + [select[0]];
  }

  lemma {:induction false} Regroup(a: seq<seq<byte>>, b: seq<seq<byte>>, c: seq<seq<byte>>, d: seq<seq<byte>>)
    ensures a + (b + c + d) == a + (b + c) + d
  {}

  lemma {:induction false} NextRecords(block: nat, a: Area, off: nat, oldoff: nat)
    requires 1 <= block <= 255 && a.start < TWO32 && off < |a.data|
    ensures |a.data[off..End(block, a, off)]| < 256
    ensures AreaRecords(block, a, off, oldoff)
         == if Low(a) + off >= 0xF_0000 || AreaRecords(block, a, off + block, off).None? then None
            else Some((if Upper(off) != Upper(oldoff) then [SelectRecord(a.start / PAGE)] else [])
                      + [DataRecord((Low(a) + off) % PAGE, a.data[off..End(block, a, off)])]
                      + AreaRecords(block, a, off + block, off).value)
  {
    hide DataRecord, SelectRecord, Upper, Low;
  }

  lemma {:induction false} NoneFrom(block: nat, a: Area, off: nat, oldoff: nat)
    requires 1 <= block <= 255 && a.start < TWO32 && off >= |a.data|
    ensures AreaRecords(block, a, off, oldoff) == Some([])
  {}

  lemma {:induction false} TextSnoc(rs: seq<seq<byte>>, r: seq<byte>)
    ensures Text(rs + [r]) == Text(rs) + Line(r, true)
  {
    hide Line;
    if rs != [] {
      TextSnoc(rs[1..], r);
      assert (rs + [r])[1..] == rs[1..] + [r];
    }
  }

  /** The file ends with the boot address and the end record. */
  lemma {:induction false} PrintEnds(block: nat, image: Image) returns (records: string)
    requires 1 <= block <= 255 && image.boot < TWO32 && (forall a :: a in image.areas ==> a.start < TWO32) && Print(block, image).Some?
    ensures Print(block, image) == Some(records + Line(BootRecord(image.boot), false) + ":00000001FF" + EOL)
  {
    EndLine();
    hide Line, Text, AllRecords;
    records := Text(AllRecords(block, image.areas).value);
    assert records + (Line(BootRecord(image.boot), false) + (":00000001FF" + EOL)) == records + Line(BootRecord(image.boot), false) + ":00000001FF" + EOL;
  }

  /** The data records among the records. */
  function OnlyData(rs: seq<seq<byte>>): seq<seq<byte>> {
    if rs == [] then [] else (if |rs[0]| >= 4 && rs[0][3] == 0 then [rs[0]] else []) + OnlyData(rs[1..])
  }

  lemma {:induction false} OnlyDataFirst(select: seq<seq<byte>>, data: seq<byte>, rest: seq<seq<byte>>)
    requires |data| >= 4 && data[3] == 0 && (select == [] || (|select| == 1 && |select[0]| >= 4 && select[0][3] != 0))
    ensures OnlyData(select + [data] + rest) == [data] + OnlyData(rest)
  {
    var all := select + [data] + rest;
    if select == [] {
      assert all[0] == data && all[1..] == rest;
    } else {
      assert all[0] == select[0] && all[1..] == [data] + rest && ([data] + rest)[1..] == rest;
      assert OnlyData(all) == [] + OnlyData([data] + rest) == OnlyData([data] + rest);
    }
  }

  /** Data record `j` of an area has the bytes from `j` block sizes on, and their address in its page. */
  lemma {:induction false} RecordPlaces(block: nat, a: Area, off: nat, oldoff: nat, j: nat)
    requires 1 <= block <= 255 && a.start < TWO32 && AreaRecords(block, a, off, oldoff).Some?
    ensures 0 <= j * block
    ensures var rs, at := OnlyData(AreaRecords(block, a, off, oldoff).value), off + j * block;
      && (j < |rs| <==> at < |a.data|)
      && (j < |rs| ==> |a.data[at..End(block, a, at)]| < 256 && rs[j] == DataRecord((Low(a) + at) % PAGE, a.data[at..End(block, a, at)]))
    decreases |a.data| - off
  {
    hide DataRecord, SelectRecord, Upper, Low, AreaRecords, OnlyData;
    BlocksOn(j, block);
    if off >= |a.data| {
      NoneFrom(block, a, off, oldoff);
      NoData();
    } else {
      NextRecords(block, a, off, oldoff);
      var select := if Upper(off) != Upper(oldoff) then [SelectRecord(a.start / PAGE)] else [];
      var data := DataRecord((Low(a) + off) % PAGE, a.data[off..End(block, a, off)]);
      RecordTypes(a.start / PAGE, (Low(a) + off) % PAGE, a.data[off..End(block, a, off)]);
      OnlyDataFirst(select, data, AreaRecords(block, a, off + block, off).value);
      if j > 0 {
        RecordPlaces(block, a, off + block, off, j - 1);
      }
    }
  }

  lemma {:induction false} BlocksOn(j: nat, block: nat)
    ensures 0 <= j * block && (j > 0 ==> j * block == block + (j - 1) * block) && (j == 0 ==> j * block == 0)
  {}

  lemma {:induction false} NoData()
    ensures OnlyData([]) == []
  {}

  lemma {:induction false} RecordTypes(page: nat, address: nat, data: seq<byte>)
    requires page < PAGE && address < PAGE && |data| < 256
    ensures |SelectRecord(page)| >= 4 && SelectRecord(page)[3] != 0 && |DataRecord(address, data)| >= 4 && DataRecord(address, data)[3] == 0
  {}

  // ---- lines letter by letter ----

  lemma {:induction false} SumCons(b: byte, rest: seq<byte>)
    ensures Sum([b] + rest) == b + Sum(rest)
    decreases |rest|
  {
    if rest == [] {
      assert [b] + rest == [] + [b];
      SumSnoc([], b);
      NoSum();
    } else {
      var front, last := rest[..|rest| - 1], rest[|rest| - 1];
      assert [b] + rest == ([b] + front) + [last] && rest == front + [last];
      SumCons(b, front);
      SumSnoc([b] + front, last);
      SumSnoc(front, last);
    }
  }

  lemma {:induction false} LineOf(r: seq<byte>, bytes: seq<byte>, text: string, upper: bool)
    requires Sealed(r) == bytes && Hex(bytes, upper) == text
    ensures Line(r, upper) == ":" + text + EOL
  {}

  lemma {:induction false} DataBytes()
    ensures DataRecord(0x0030, [0x02, 0x33, 0x7A]) == [0x03, 0x00, 0x30, 0x00, 0x02, 0x33, 0x7A]
    ensures Sealed(DataRecord(0x0030, [0x02, 0x33, 0x7A])) == [0x03, 0x00, 0x30, 0x00, 0x02, 0x33, 0x7A, 0x1E]
  {
    hide Sum;
    Sevens(0x03, 0x00, 0x30, 0x00, 0x02, 0x33, 0x7A);
    assert DataRecord(0x0030, [0x02, 0x33, 0x7A]) == [0x03, 0x00, 0x30, 0x00, 0x02, 0x33, 0x7A];
  }

  lemma {:induction false} DataTail()
    ensures Hex([0x30, 0x00, 0x02, 0x33, 0x7A, 0x1E], true) == "300002337A1E"
  {
    hide Hex;
    SixHex(0x30, 0x00, 0x02, 0x33, 0x7A, 0x1E, true);
  }

  lemma {:induction false} DataText()
    ensures Hex([0x03, 0x00, 0x30, 0x00, 0x02, 0x33, 0x7A, 0x1E], true) == "0300300002337A1E"
  {
    hide Hex;
    Eights(0x03, 0x00, 0x30, 0x00, 0x02, 0x33, 0x7A, 0x1E, true);
    DataTail();
  }

  /** Three bytes at 0x0030. */
  lemma {:induction false} DataLine()
    ensures Line(DataRecord(0x0030, [0x02, 0x33, 0x7A]), true) == ":" + "0300300002337A1E" + EOL
  {
    hide Sealed, Hex, DataRecord;
    DataBytes();
    DataText();
    LineOf(DataRecord(0x0030, [0x02, 0x33, 0x7A]), [0x03, 0x00, 0x30, 0x00, 0x02, 0x33, 0x7A, 0x1E], "0300300002337A1E", true);
  }

  lemma {:induction false} SelectBytes()
    ensures Sealed(SelectRecord(0x0800)) == [0x02, 0x00, 0x00, 0x04, 0x08, 0x00, 0xF2]
  {
    hide Sum;
    Sixes(0x02, 0x00, 0x00, 0x04, 0x08, 0x00);
    assert SelectRecord(0x0800) == [0x02, 0x00, 0x00, 0x04, 0x08, 0x00];
  }

  lemma {:induction false} SelectText()
    ensures Hex([0x02, 0x00, 0x00, 0x04, 0x08, 0x00, 0xF2], true) == "020000040800F2"
  {
    hide Hex;
    HexCons(0x02, [0x00, 0x00, 0x04, 0x08, 0x00, 0xF2], true);
    assert [0x02] + [0x00, 0x00, 0x04, 0x08, 0x00, 0xF2] == [0x02, 0x00, 0x00, 0x04, 0x08, 0x00, 0xF2];
    SixHex(0x00, 0x00, 0x04, 0x08, 0x00, 0xF2, true);
  }

  /** The page 0x0800. */
  lemma {:induction false} SelectLine()
    ensures Line(SelectRecord(0x0800), true) == ":" + "020000040800F2" + EOL
  {
    hide Sealed, Hex, SelectRecord;
    SelectBytes();
    SelectText();
    LineOf(SelectRecord(0x0800), [0x02, 0x00, 0x00, 0x04, 0x08, 0x00, 0xF2], "020000040800F2", true);
  }

  lemma {:induction false} BootBytes()
    ensures Sealed(BootRecord(0xCD)) == [0x04, 0x00, 0x00, 0x05, 0x00, 0x00, 0x00, 0xCD, 0x2A]
  {
    hide Sum;
    var r := BootRecord(0xCD);
    assert r == [0x04, 0x00, 0x00, 0x05, 0x00, 0x00, 0x00, 0xCD];
    SumCons(0x04, [0x00, 0x00, 0x05, 0x00, 0x00, 0x00, 0xCD]);
    assert [0x04] + [0x00, 0x00, 0x05, 0x00, 0x00, 0x00, 0xCD] == r;
    Sevens(0x00, 0x00, 0x05, 0x00, 0x00, 0x00, 0xCD);
  }

  lemma {:induction false} BootTail()
    ensures Hex([0x05, 0x00, 0x00, 0x00, 0xCD, 0x2A], false) == "05000000cd2a"
  {
    hide Hex;
    SixHex(0x05, 0x00, 0x00, 0x00, 0xCD, 0x2A, false);
  }

  lemma {:induction false} BootText()
    ensures Hex([0x04, 0x00, 0x00, 0x05, 0x00, 0x00, 0x00, 0xCD, 0x2A], false) == "04000005000000cd2a"
  {
    hide Hex;
    var tail := [0x05, 0x00, 0x00, 0x00, 0xCD, 0x2A];
    BootTail();
    HexCons(0x00, tail, false);
    HexCons(0x00, [0x00] + tail, false);
    HexCons(0x04, [0x00] + ([0x00] + tail), false);
    assert [0x04] + ([0x00] + ([0x00] + tail)) == [0x04, 0x00, 0x00, 0x05, 0x00, 0x00, 0x00, 0xCD, 0x2A];
  }

  /** The boot address 0xCD, in small letters. */
  lemma {:induction false} BootLine()
    ensures Line(BootRecord(0xCD), false) == ":" + "04000005000000cd2a" + EOL
  {
    hide Sealed, Hex, BootRecord;
    BootBytes();
    BootText();
    LineOf(BootRecord(0xCD), [0x04, 0x00, 0x00, 0x05, 0x00, 0x00, 0x00, 0xCD, 0x2A], "04000005000000cd2a", false);
  }

  lemma {:induction false} HexCons(b: byte, rest: seq<byte>, upper: bool)
    ensures Hex([b] + rest, upper) == [HexDigit(b / 16, upper), HexDigit(b % 16, upper)] + Hex(rest, upper)
  {
    assert ([b] + rest)[1..] == rest;
  }

  lemma {:induction false} Sixes(a: byte, b: byte, c: byte, d: byte, e: byte, f: byte)
    ensures Sum([a, b, c, d, e, f]) == a + b + c + d + e + f
  {
    hide Sum;
    NoSum();
    SumSnoc([], a);
    SumSnoc([a], b);
    SumSnoc([a, b], c);
    SumSnoc([a, b, c], d);
    SumSnoc([a, b, c, d], e);
    SumSnoc([a, b, c, d, e], f);
    assert [] + [a] == [a] && [a] + [b] == [a, b] && [a, b] + [c] == [a, b, c] && [a, b, c] + [d] == [a, b, c, d];
    assert [a, b, c, d] + [e] == [a, b, c, d, e] && [a, b, c, d, e] + [f] == [a, b, c, d, e, f];
  }

  lemma {:induction false} Sevens(a: byte, b: byte, c: byte, d: byte, e: byte, f: byte, g: byte)
    ensures Sum([a, b, c, d, e, f, g]) == a + b + c + d + e + f + g
  {
    hide Sum;
    Sixes(a, b, c, d, e, f);
    SumSnoc([a, b, c, d, e, f], g);
    assert [a, b, c, d, e, f] + [g] == [a, b, c, d, e, f, g];
  }

  /** Two digits for every byte. */
  lemma {:induction false} SixHex(a: byte, b: byte, c: byte, d: byte, e: byte, f: byte, upper: bool)
    ensures Hex([a, b, c, d, e, f], upper)
         == [HexDigit(a / 16, upper), HexDigit(a % 16, upper), HexDigit(b / 16, upper), HexDigit(b % 16, upper),
             HexDigit(c / 16, upper), HexDigit(c % 16, upper), HexDigit(d / 16, upper), HexDigit(d % 16, upper),
             HexDigit(e / 16, upper), HexDigit(e % 16, upper), HexDigit(f / 16, upper), HexDigit(f % 16, upper)]
  {
    hide Hex, HexDigit;
    HexCons(a, [b, c, d, e, f], upper);
    HexCons(b, [c, d, e, f], upper);
    HexCons(c, [d, e, f], upper);
    HexCons(d, [e, f], upper);
    HexCons(e, [f], upper);
    HexCons(f, [], upper);
    HexOfNothing(upper);
    assert [a] + [b, c, d, e, f] == [a, b, c, d, e, f] && [b] + [c, d, e, f] == [b, c, d, e, f] && [c] + [d, e, f] == [c, d, e, f];
    assert [d] + [e, f] == [d, e, f] && [e] + [f] == [e, f] && [f] + [] == [f];
  }

  lemma {:induction false} HexOfNothing(upper: bool)
    ensures Hex([], upper) == []
  {}

  lemma {:induction false} Eights(a: byte, b: byte, c: byte, d: byte, e: byte, f: byte, g: byte, h: byte, upper: bool)
    ensures Hex([a, b, c, d, e, f, g, h], upper)
         == [HexDigit(a / 16, upper), HexDigit(a % 16, upper), HexDigit(b / 16, upper), HexDigit(b % 16, upper)]
            + Hex([c, d, e, f, g, h], upper)
  {
    hide Hex, HexDigit;
    HexCons(a, [b, c, d, e, f, g, h], upper);
    HexCons(b, [c, d, e, f, g, h], upper);
    assert [a] + [b, c, d, e, f, g, h] == [a, b, c, d, e, f, g, h] && [b] + [c, d, e, f, g, h] == [b, c, d, e, f, g, h];
  }
}
