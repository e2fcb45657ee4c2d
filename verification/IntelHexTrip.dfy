/** What the parser makes of a file that the printer wrote. */
module IntelHexTrip {
  import opened Sequences
  import opened Bits
  import opened Wire
  import opened IntelHex

  // ---- lines ----

  lemma {:induction false} StripEol(s: string, c: char)
    requires s != [] && !IsEol(s[|s| - 1]) && IsEol(c)
    ensures Strip(s + [c]) == s
  {
    assert (s + [c])[..|s|] == s;
  }

  lemma {:induction false} FirstLine(s: string, c: char, text: string)
    requires IsEol(c) && forall i :: 0 <= i < |s| ==> !IsEol(s[i])
    ensures LineLength(s + [c] + text) == |s| + 1
  {
    if s == [] {
      assert (s + [c] + text)[0] == c;
    } else {
      FirstLine(s[1..], c, text);
      assert (s + [c] + text)[1..] == s[1..] + [c] + text;
      assert (s + [c] + text)[0] == s[0];
    }
  }

  /** The line feed that follows a carriage return changes nothing. */
  lemma {:induction false} EmptyLine(p: Parser, text: string)
    requires Consistent(p)
    ensures StepLines(p, ['\n'] + text) == StepLines(p, text)
  {
    FirstLine([], '\n', text);
    assert [] + ['\n'] + text == ['\n'] + text;
    assert (['\n'] + text)[..1] == ['\n'] && (['\n'] + text)[1..] == text;
    assert ['\n'][..0] == [];
    hide Step, FromHex, LineLength;
    assert Strip(['\n']) == Strip([]) == [];
  }

  lemma {:induction false} LineParts(r: seq<byte>, upper: bool)
    ensures var s := [':'] + Hex(Sealed(r), upper);
      && Line(r, upper) == s + ['\r'] + ['\n'] && Strip(s + ['\r']) == s
      && forall i :: 0 <= i < |s| ==> !IsEol(s[i])
  {
    HexPlain(Sealed(r), upper);
    hide Hex, Sealed;
    StripEol([':'] + Hex(Sealed(r), upper), '\r');
  }

  /** A printed line is parsed as the record it was printed from. */
  lemma {:induction false} OneLine(p: Parser, r: seq<byte>, upper: bool, text: string)
    requires Consistent(p)
    ensures StepLines(p, Line(r, upper) + text)
         == if Step(p, Sealed(r)).None? then None else StepLines(Step(p, Sealed(r)).value, text)
  {
    hide *;
    LineParts(r, upper);
    HexBack(Sealed(r), upper);
    var s := [':'] + Hex(Sealed(r), upper);
    CarriageReturn();
    FirstLine(s, '\r', ['\n'] + text);
    Regroup(s, text);
    LineTaken(p, s, ['\n'] + text, Sealed(r));
    var q := Step(p, Sealed(r));
    if q.Some? {
      EmptyLine(q.value, text);
    }
  }

  lemma {:induction false} CarriageReturn()
    ensures IsEol('\r')
  {}

  lemma {:induction false} Regroup(s: string, text: string)
    ensures s + ['\r'] + ['\n'] + text == s + ['\r'] + (['\n'] + text)
  {}

  lemma {:induction false} LineTaken(p: Parser, s: string, text: string, record: seq<byte>)
    requires Consistent(p) && s != [] && s[0] == ':' && FromHex(s[1..]) == Some(record)
    requires Strip(s + ['\r']) == s && LineLength(s + ['\r'] + text) == |s| + 1
    ensures StepLines(p, s + ['\r'] + text) == if Step(p, record).None? then None else StepLines(Step(p, record).value, text)
  {
    hide Strip, Step, FromHex, LineLength;
    assert (s + ['\r'] + text)[..|s| + 1] == s + ['\r'] && (s + ['\r'] + text)[|s| + 1..] == text;
  }

  /** The parser on records. */
  function Run(p: Parser, rs: seq<seq<byte>>): (q: Option<Parser>)
    requires Consistent(p)
    ensures q.Some? ==> Consistent(q.value)
    decreases |rs|
  {
    if rs == [] then Some(p)
    else
      var q := Step(p, Sealed(rs[0]));
      if q.None? then None else Run(q.value, rs[1..])
  }

  lemma {:induction false} RunText(p: Parser, rs: seq<seq<byte>>, text: string)
    requires Consistent(p)
    ensures StepLines(p, Text(rs) + text) == if Run(p, rs).None? then None else StepLines(Run(p, rs).value, text)
    decreases |rs|
  {
    hide Step, Sealed, Line, Consistent, StepLines;
    if rs == [] {
      assert Text(rs) + text == text;
    } else {
      assert Text(rs) + text == Line(rs[0], true) + (Text(rs[1..]) + text);
      OneLine(p, rs[0], true, Text(rs[1..]) + text);
      var q := Step(p, Sealed(rs[0]));
      if q.Some? {
        RunText(q.value, rs[1..], text);
      }
    }
  }

  lemma {:induction false} RunConcat(p: Parser, rs: seq<seq<byte>>, ts: seq<seq<byte>>)
    requires Consistent(p)
    ensures Run(p, rs + ts) == if Run(p, rs).None? then None else Run(Run(p, rs).value, ts)
    decreases |rs|
  {
    hide Step, Sealed, Consistent;
    if rs == [] {
      assert rs + ts == ts;
    } else {
      assert (rs + ts)[0] == rs[0] && (rs + ts)[1..] == rs[1..] + ts;
      var q := Step(p, Sealed(rs[0]));
      if q.Some? {
        RunConcat(q.value, rs[1..], ts);
      }
    }
  }

  // ---- records ----

  lemma {:induction false} Word16Back(n: nat)
    requires n < PAGE
    ensures n / 256 * 256 + n % 256 == n
  {}

  lemma {:induction false} StepData(p: Parser, address: nat, data: seq<byte>)
    requires Consistent(p) && address < PAGE && |data| < 256
    ensures Step(p, Sealed(DataRecord(address, data)))
         == if p.startZone.None? then None else Some(TakeData(p, address, |data|, data))
  {
    var r := Sealed(DataRecord(address, data));
    hide TakeData, Consistent, Checksum;
    Word16Back(address);
    assert r == DataRecord(address, data) + [Checksum(DataRecord(address, data))];
    assert r[4..4 + |data|] == data;
  }

  lemma {:induction false} StepSelect(p: Parser, page: nat)
    requires Consistent(p) && page < PAGE
    ensures Step(p, Sealed(SelectRecord(page))) == Some(EndZone(p).(startZone := Some(page)))
  {
    hide EndZone, Consistent, Checksum;
    Word16Back(page);
  }

  lemma {:induction false} FourBytes(n: nat)
    requires n < TWO32
    ensures n / 0x100_0000 * 0x100_0000 + n / PAGE % 256 * PAGE + n / 256 % 256 * 256 + n % 256 == n
  {
    DivDiv(n, 256, 256);
    DivDiv(n, PAGE, 256);
    var a := n / 256;
    var b := a / 256;
    DivModOf(n, 256);
    DivModOf(a, 256);
    DivModOf(b, 256);
  }

  lemma {:induction false} StepBoot(p: Parser, boot: nat)
    requires Consistent(p) && boot < TWO32
    ensures Step(p, Sealed(BootRecord(boot))) == Some(p.(boot := boot)) && Consistent(p.(boot := boot))
    ensures EndZone(p.(boot := boot)) == EndZone(p).(boot := boot)
  {
    hide Checksum, InsertSorted, TakeData;
    FourBytes(boot);
    var r := BootRecord(boot);
    assert Sealed(r) == r + [Checksum(r)];
  }

  lemma {:induction false} StepEnd(p: Parser)
    requires Consistent(p)
    ensures Step(p, Sealed(EndRecord())) == Some(EndZone(p)) && EndZone(EndZone(p)) == EndZone(p)
  {}

  lemma {:induction false} NoLines(p: Parser)
    requires Consistent(p)
    ensures StepLines(p, []) == Some(p)
  {}

  /** The two records at the end of every file. */
  lemma {:induction false} RunTail(p: Parser, boot: nat)
    requires Consistent(p) && boot < TWO32
    ensures Outcome(StepLines(p, TailText(boot))) == Some(Image(EndZone(p).areas, boot))
  {
    hide Step, Sealed, BootRecord, EndRecord, Line, EndZone, StepLines, Consistent;
    StepBoot(p, boot);
    var q := p.(boot := boot);
    StepEnd(q);
    OneLine(p, BootRecord(boot), false, Line(EndRecord(), true));
    assert Line(EndRecord(), true) + [] == Line(EndRecord(), true);
    OneLine(q, EndRecord(), true, []);
    NoLines(EndZone(q));
  }

  // ---- areas ----

  /** Where the last record of `n` bytes starts. */
  function LastStart(block: nat, n: nat): nat
    requires block > 0
  {
    if n == 0 then 0 else n - 1 - Remainder(n - 1, block)
  }

  function Remainder(n: nat, block: nat): (r: nat)
    requires block > 0
    ensures r < block && r <= n
  {
    DivModOf(n, block);
    MulLe(0, n / block, block);
    n % block
  }

  /** Every record of the area starts inside the page in which the area starts. */
  predicate InPage(block: nat, a: Area)
    requires block > 0
  {
    Low(a) + LastStart(block, |a.data|) < PAGE
  }

  /** The areas that come back from the file. */
  predicate Faithful(block: nat, a: Area)
    requires block > 0
  {
    a.data != [] && a.start < 0xFFFF_0000 && InPage(block, a)
  }

  lemma {:induction false} RecordStart(block: nat, off: nat, n: nat)
    requires block > 0 && off < n && Remainder(off, block) == 0
    ensures off <= LastStart(block, n) && Remainder(off + block, block) == 0
    ensures off + block >= n ==> off == LastStart(block, n)
  {
    ModPlusMultiple(off, 1, block);
    var r := Remainder(n - 1, block);
    DivModOf(off, block);
    DivModOf(n - 1, block);
    var q, j := (n - 1) / block, off / block;
    if j > q {
      MulLe(q + 1, j, block);
    }
    MulLe(j, q, block);
    if off + block >= n && j < q {
      MulLe(j + 1, q, block);
    }
  }

  /** The parser with the first bytes of an area in its zone. */
  function Within(areas: seq<Area>, boot: nat, a: Area, off: nat): (p: Parser)
    ensures Consistent(p)
  {
    var m := Min(off, |a.data|);
    Parser(areas, boot, Some(a.start / PAGE), Some(Low(a)), Low(a) + m, a.data[..m])
  }

  /** The records from `off` on, in the page of the area. */
  lemma {:induction false} AreaStep(block: nat, a: Area, off: nat, oldoff: nat)
    requires 1 <= block <= 255 && a.start < TWO32 && off < |a.data| && Low(a) + off < PAGE
    requires AreaRecords(block, a, off + block, off).Some?
    ensures off < End(block, a, off) <= |a.data| && |a.data[off..End(block, a, off)]| <= 255
    ensures AreaRecords(block, a, off, oldoff)
         == Some((if Upper(off) != Upper(oldoff) then [SelectRecord(a.start / PAGE)] else [])
                 + [DataRecord(Low(a) + off, a.data[off..End(block, a, off)])] + AreaRecords(block, a, off + block, off).value)
  {
    hide DataRecord, SelectRecord, Upper, Low;
    assert (Low(a) + off) % PAGE == Low(a) + off;
  }

  lemma {:induction false} RunOne(p: Parser, r: seq<byte>, rs: seq<seq<byte>>)
    requires Consistent(p)
    ensures Run(p, [] + [r] + rs) == Run(p, [r] + rs)
    ensures Run(p, [r] + rs) == if Step(p, Sealed(r)).None? then None else Run(Step(p, Sealed(r)).value, rs)
  {
    hide Step, Sealed;
    assert [] + [r] + rs == [r] + rs && ([r] + rs)[1..] == rs;
  }

  lemma {:induction false} RunTwo(p: Parser, r: seq<byte>, t: seq<byte>, rs: seq<seq<byte>>)
    requires Consistent(p) && Step(p, Sealed(r)).Some? && Step(Step(p, Sealed(r)).value, Sealed(t)).Some?
    ensures Run(p, [r] + [t] + rs) == Run(Step(Step(p, Sealed(r)).value, Sealed(t)).value, rs)
  {
    hide Step, Sealed, Run;
    assert [r] + [t] + rs == [r] + ([t] + rs);
    RunOne(p, r, [t] + rs);
    RunOne(Step(p, Sealed(r)).value, t, rs);
  }

  lemma {:induction false} PageStart(off: nat)
    requires off < PAGE
    ensures Upper(off) == 0
  {}

  lemma {:induction false} NothingLeft(block: nat, a: Area, off: nat, oldoff: nat, areas: seq<Area>, boot: nat)
    requires 1 <= block <= 255 && a.start < TWO32 && off >= |a.data|
    ensures AreaRecords(block, a, off, oldoff) == Some([])
    ensures Run(Within(areas, boot, a, off), []) == Some(Within(areas, boot, a, |a.data|))
  {}

  /** What a caller of the printer has to check, with the definitions spelt out. */
  lemma {:induction false} FaithfulParts(block: nat, a: Area)
    requires block > 0 && Faithful(block, a)
    ensures a.data != [] && a.start < 0xFFFF_0000 && a.start < TWO32 && Low(a) + LastStart(block, |a.data|) < PAGE
  {}

  lemma {:induction false} DataRun(block: nat, a: Area, areas: seq<Area>, boot: nat, off: nat)
    requires 1 <= block <= 255 && Faithful(block, a) && block <= off && Remainder(off, block) == 0
    ensures a.start < TWO32 && AreaRecords(block, a, off, off - block).Some?
    ensures Run(Within(areas, boot, a, off), AreaRecords(block, a, off, off - block).value) == Some(Within(areas, boot, a, |a.data|))
    decreases |a.data| - off
  {
    hide *;
    FaithfulParts(block, a);
    if off < |a.data| {
      RecordStart(block, off, |a.data|);
      DataRun(block, a, areas, boot, off + block);
      PageSmall();
      PageStart(off);
      PageStart(off - block);
      AreaStep(block, a, off, off - block);
      var piece := a.data[off..End(block, a, off)];
      DataTurn(block, a, areas, boot, off);
      RunOne(Within(areas, boot, a, off), DataRecord(Low(a) + off, piece), AreaRecords(block, a, off + block, off).value);
    } else {
      NothingLeft(block, a, off, off - block, areas, boot);
    }
  }

  lemma {:induction false} PageSmall()
    ensures PAGE == 0x1_0000 && TWO32 == 0x1_0000_0000
  {}

  /** A record that continues the zone. */
  lemma {:induction false} DataTurn(block: nat, a: Area, areas: seq<Area>, boot: nat, off: nat)
    requires 1 <= block <= 255 && off < |a.data| && Low(a) + off < PAGE
    ensures off < End(block, a, off) <= |a.data| && |a.data[off..End(block, a, off)]| <= 255
    ensures Step(Within(areas, boot, a, off), Sealed(DataRecord(Low(a) + off, a.data[off..End(block, a, off)])))
         == Some(Within(areas, boot, a, off + block))
  {
    hide Step, Sealed, DataRecord, Low;
    var piece := a.data[off..End(block, a, off)];
    assert |piece| <= 255;
    StepData(Within(areas, boot, a, off), Low(a) + off, piece);
    assert a.data[..off] + piece == a.data[..Min(off + block, |a.data|)];
  }

  /** Between two areas the zone is never empty but begun. */
  predicate Ready(p: Parser) {
    Consistent(p) && (p.zoneData == [] ==> p.startFirst.None?)
  }

  /** The select record that starts an area closes the one before. */
  lemma {:induction false} AreaRun(block: nat, a: Area, p: Parser)
    requires 1 <= block <= 255 && Faithful(block, a) && Ready(p)
    ensures a.start < TWO32 && AreaRecords(block, a, 0, a.start + PAGE).Some?
    ensures Consistent(p) && Run(p, AreaRecords(block, a, 0, a.start + PAGE).value) == Some(Within(EndZone(p).areas, p.boot, a, |a.data|))
  {
    hide *;
    ReadyParts(p);
    FaithfulParts(block, a);
    PageSmall();
    BlockStart(block);
    RecordStart(block, 0, |a.data|);
    DataRun(block, a, EndZone(p).areas, p.boot, block);
    AreaStep(block, a, 0, a.start + PAGE);
    FirstTurns(block, a, p);
    var rest := AreaRecords(block, a, block, 0).value;
    var select, record := SelectRecord(a.start / PAGE), DataRecord(Low(a), a.data[0..End(block, a, 0)]);
    RunTwo(p, select, record, rest);
  }

  lemma {:induction false} ReadyParts(p: Parser)
    requires Ready(p)
    ensures Consistent(p)
  {}

  lemma {:induction false} BlockStart(block: nat)
    requires block > 0
    ensures Remainder(0, block) == 0 && Remainder(block, block) == 0
  {
    ModPlusMultiple(0, 1, block);
  }

  lemma {:induction false} FirstTurns(block: nat, a: Area, p: Parser)
    requires 1 <= block <= 255 && a.data != [] && a.start < 0xFFFF_0000 && Ready(p) && Consistent(p)
    ensures 0 < End(block, a, 0) <= |a.data| && |a.data[0..End(block, a, 0)]| <= 255 && Low(a) < PAGE
    ensures Upper(0) != Upper(a.start + PAGE)
    ensures var q := Step(p, Sealed(SelectRecord(a.start / PAGE)));
      && q.Some? && Consistent(q.value)
      && Step(q.value, Sealed(DataRecord(Low(a), a.data[0..End(block, a, 0)]))) == Some(Within(EndZone(p).areas, p.boot, a, block))
  {
    hide Step, Sealed, DataRecord, SelectRecord;
    StepSelect(p, a.start / PAGE);
    var q := EndZone(p).(startZone := Some(a.start / PAGE));
    var piece := a.data[0..End(block, a, 0)];
    StepData(q, Low(a), piece);
    assert [] + piece == a.data[..Min(block, |a.data|)];
  }

  // ---- files ----

  /** The areas in the order in which the parser adds them. */
  function InsertAll(base: seq<Area>, areas: seq<Area>): (r: seq<Area>)
    ensures SortedAreas(base) ==> SortedAreas(r)
    ensures multiset(r) == multiset(base) + multiset(areas)
    decreases |areas|
  {
    if areas == [] then base
    else
      assert areas == [areas[0]] + areas[1..];
      InsertAll(InsertSorted(base, areas[0]), areas[1..])
  }

  predicate AllFaithful(block: nat, areas: seq<Area>)
    requires block > 0
  {
    forall a :: a in areas ==> Faithful(block, a)
  }

  lemma {:induction false} FileRun(block: nat, areas: seq<Area>, p: Parser)
    requires 1 <= block <= 255 && AllFaithful(block, areas) && Ready(p)
    ensures Consistent(p) && (forall a :: a in areas ==> a.start < TWO32)
    ensures AllRecords(block, areas).Some? && Run(p, AllRecords(block, areas).value).Some?
    ensures var q := Run(p, AllRecords(block, areas).value).value;
      EndZone(q).areas == InsertAll(EndZone(p).areas, areas)
    decreases |areas|
  {
    hide *;
    ReadyParts(p);
    AddressesFit(block, areas);
    if areas == [] {
      NoRecords(block, areas, p);
    } else {
      var a := areas[0];
      Splits(block, areas, p);
      AreaRun(block, a, p);
      var q := Within(EndZone(p).areas, p.boot, a, |a.data|);
      WholeZone(EndZone(p).areas, p.boot, a);
      FileRun(block, areas[1..], q);
      RunConcat(p, AreaRecords(block, a, 0, a.start + PAGE).value, AllRecords(block, areas[1..]).value);
    }
  }

  lemma {:induction false} AddressesFit(block: nat, areas: seq<Area>)
    requires block > 0 && AllFaithful(block, areas)
    ensures forall a :: a in areas ==> a.start < TWO32
  {
    hide InPage;
    assert forall a :: a in areas ==> Faithful(block, a);
  }

  lemma {:induction false} NoRecords(block: nat, areas: seq<Area>, p: Parser)
    requires 1 <= block <= 255 && Consistent(p) && areas == []
    ensures AllRecords(block, areas) == Some([]) && Run(p, []) == Some(p) && InsertAll(EndZone(p).areas, areas) == EndZone(p).areas
  {}

  lemma {:induction false} Splits(block: nat, areas: seq<Area>, p: Parser)
    requires 1 <= block <= 255 && AllFaithful(block, areas) && Consistent(p) && areas != []
    ensures Faithful(block, areas[0]) && areas[0].data != [] && AllFaithful(block, areas[1..])
    ensures forall a :: a in areas ==> a.start < TWO32
    ensures var first, rest := AreaRecords(block, areas[0], 0, areas[0].start + PAGE), AllRecords(block, areas[1..]);
      AllRecords(block, areas) == if first.None? || rest.None? then None else Some(first.value + rest.value)
    ensures InsertAll(EndZone(p).areas, areas) == InsertAll(InsertSorted(EndZone(p).areas, areas[0]), areas[1..])
  {
    hide AreaRecords, InsertSorted, EndZone, InPage;
    assert forall a :: a in areas ==> Faithful(block, a);
  }

  lemma {:induction false} WholeZone(areas: seq<Area>, boot: nat, a: Area)
    requires a.data != []
    ensures var q := Within(areas, boot, a, |a.data|);
      Ready(q) && EndZone(q).areas == InsertSorted(areas, a)
  {
    hide InsertSorted;
    StartParts(a);
    assert a.data[..|a.data|] == a.data;
  }

  lemma {:induction false} StartParts(a: Area)
    ensures Area(a.start / PAGE * PAGE + Low(a), a.data) == a
  {}

  /** Printing and parsing sorts the areas, as long as each of them can be written. */
  lemma {:induction false} PrintedParses(block: nat, image: Image)
    requires 1 <= block <= 255 && image.boot < TWO32 && AllFaithful(block, image.areas)
    ensures Print(block, image).Some?
    ensures Parse(Print(block, image).value) == Some(Image(InsertAll([], image.areas), image.boot))
  {
    FileRun(block, image.areas, Start());
    var rs := AllRecords(block, image.areas).value;
    assert EndZone(Start()) == Start();
    hide Run, AllRecords, InsertAll, EndZone, TailText, Text, Faithful, StepLines;
    RunText(Start(), rs, TailText(image.boot));
    RunTail(Run(Start(), rs).value, image.boot);
  }

  // ---- only those areas come back ----

  lemma {:induction false} InsertedInOrder(base: seq<Area>, areas: seq<Area>)
    requires SortedAreas(base + areas)
    ensures InsertAll(base, areas) == base + areas
    decreases |areas|
  {
    if areas == [] {
      assert base + areas == base;
    } else {
      assert base + areas == base + [areas[0]] + areas[1..];
      forall i | 0 <= i < |base| ensures base[i].start <= areas[0].start {
        assert (base + areas)[i].start <= (base + areas)[|base|].start;
      }
      InsertedLast(base, areas[0]);
      InsertedInOrder(base + [areas[0]], areas[1..]);
    }
  }

  lemma {:induction false} InsertedLast(areas: seq<Area>, a: Area)
    requires forall i :: 0 <= i < |areas| ==> areas[i].start <= a.start
    ensures InsertSorted(areas, a) == areas + [a]
  {
    if areas != [] {
      InsertedLast(areas[1..], a);
    }
  }

  /** The records that the printer writes for areas. */
  predicate Plain(r: seq<byte>) {
    && |r| >= 4
    && (r[3] == 0x00 || r[3] == 0x04)
    && (r[3] == 0x00 ==> r[0] > 0 && |r| == 4 + r[0] as nat)
    && (r[3] == 0x04 ==> |r| == 6 && r[4] as nat * 256 + r[5] as nat < 0xFFFF)
  }

  predicate Written(a: Area) {
    a.data != [] && a.start < 0xFFFF_0000
  }

  /** The parser on plain records: areas in order, none of them empty or in the last page. */
  predicate Tidy(p: Parser) {
    && Consistent(p)
    && SortedAreas(p.areas) && (forall a :: a in p.areas ==> Written(a))
    && (p.startZone.Some? ==> p.startZone.value < 0xFFFF)
    && (p.startFirst.Some? ==> p.startFirst.value < PAGE && p.zoneData != [])
  }

  /** The areas that the parser has, the open zone included. */
  function Total(p: Parser): nat {
    |p.areas| + if p.zoneData == [] then 0 else 1
  }

  lemma {:induction false} EndTidy(p: Parser)
    requires Tidy(p)
    ensures Tidy(EndZone(p)) && EndZone(p).startFirst.None? && |EndZone(p).areas| == Total(p) == Total(EndZone(p))
  {
    if p.zoneData != [] {
      InsertedWritten(p.areas, Zone(p));
    }
    hide SortedAreas;
  }

  lemma {:induction false} InsertedWritten(areas: seq<Area>, area: Area)
    requires (forall a :: a in areas ==> Written(a)) && Written(area)
    ensures forall a :: a in InsertSorted(areas, area) ==> Written(a)
  {
    var r := InsertSorted(areas, area);
    forall a | a in r ensures Written(a) {
      assert a in multiset(r);
    }
  }

  lemma {:induction false} TakeTidy(p: Parser, address: nat, data: seq<byte>)
    requires Tidy(p) && p.startZone.Some? && address < PAGE && data != []
    ensures var q := TakeData(p, address, |data|, data);
      && Tidy(q) && q.zoneData != [] && q.startFirst.Some? && q.current == address + |data|
      && Total(q) == if p.zoneData == [] || address != p.current then Total(p) + 1 else Total(p)
  {
    if p.startFirst.Some? && address != p.current {
      InsertedWritten(p.areas, Zone(p));
    }
    hide SortedAreas, Written;
  }

  lemma {:induction false} StepPlain(p: Parser, r: seq<byte>)
    requires Tidy(p) && Plain(r)
    ensures var q := Step(p, Sealed(r));
      q.Some? ==> Tidy(q.value) && Total(q.value) >= Total(p)
  {
    hide TakeData, EndZone, Tidy, Total, Checksum;
    TidyParts(p);
    var sealed := Sealed(r);
    assert sealed == r + [Checksum(r)] && forall i :: 0 <= i < |r| ==> sealed[i] == r[i];
    if r[3] == 0x00 && p.startZone.Some? {
      assert sealed[4..4 + r[0] as nat] == r[4..];
      TakeTidy(p, r[1] as nat * 256 + r[2] as nat, r[4..]);
    } else if r[3] == 0x04 {
      EndTidy(p);
      Selected(EndZone(p), r[4] as nat * 256 + r[5] as nat);
    }
  }

  lemma {:induction false} TidyParts(p: Parser)
    requires Tidy(p)
    ensures Consistent(p)
  {}

  lemma {:induction false} Selected(p: Parser, page: nat)
    requires Tidy(p) && page < 0xFFFF
    ensures Tidy(p.(startZone := Some(page))) && Total(p.(startZone := Some(page))) == Total(p)
  {}

  predicate AllPlain(rs: seq<seq<byte>>) {
    forall r :: r in rs ==> Plain(r)
  }

  lemma {:induction false} RunPlain(p: Parser, rs: seq<seq<byte>>)
    requires Tidy(p) && AllPlain(rs)
    ensures Consistent(p) && (Run(p, rs).Some? ==> Tidy(Run(p, rs).value) && Total(Run(p, rs).value) >= Total(p))
    decreases |rs|
  {
    hide Step, Sealed, Tidy, Total, Plain;
    TidyParts(p);
    if rs != [] {
      StepPlain(p, rs[0]);
      var q := Step(p, Sealed(rs[0]));
      if q.Some? {
        RunPlain(q.value, rs[1..]);
      }
    }
  }

  /** An area in the last page of the address space is written without a select record. */
  lemma {:induction false} AreaPlain(block: nat, a: Area, off: nat, oldoff: nat)
    requires 1 <= block <= 255 && a.start < TWO32 && a.start + |a.data| <= TWO32
    requires a.start >= 0xFFFF_0000 && off < |a.data| ==> Upper(oldoff) == 0
    ensures AreaRecords(block, a, off, oldoff).Some? ==> AllPlain(AreaRecords(block, a, off, oldoff).value)
    decreases |a.data| - off
  {
    if off < |a.data| && AreaRecords(block, a, off, oldoff).Some? {
      if a.start >= 0xFFFF_0000 {
        PageStart(off);
      }
      AreaPlain(block, a, off + block, off);
      hide AreaRecords, Upper, Low;
      assert Plain(DataRecord((Low(a) + off) % PAGE, a.data[off..End(block, a, off)]));
      if a.start < 0xFFFF_0000 {
        Word16Back(a.start / PAGE);
        assert Plain(SelectRecord(a.start / PAGE));
      }
    }
  }

  lemma {:induction false} FilePlain(block: nat, areas: seq<Area>)
    requires 1 <= block <= 255 && Addressable(areas)
    ensures AllRecords(block, areas).Some? ==> AllPlain(AllRecords(block, areas).value)
    decreases |areas|
  {
    if areas != [] {
      assert areas[0] in areas && Addressable(areas[1..]);
      LastPage(areas[0].start);
      AreaPlain(block, areas[0], 0, areas[0].start + PAGE);
      FilePlain(block, areas[1..]);
      hide AreaRecords, Plain, Upper;
    }
  }

  lemma {:induction false} LastPage(start: nat)
    requires start < TWO32
    ensures Upper(start + PAGE) == 0 <==> start >= 0xFFFF_0000
  {}

  /** What the parser holds behind the areas decides the outcome. */
  lemma {:induction false} FileOutcome(block: nat, image: Image)
    requires 1 <= block <= 255 && image.boot < TWO32 && Addressable(image.areas)
    requires Print(block, image).Some? && Parse(Print(block, image).value).Some?
    ensures AllRecords(block, image.areas).Some? && Run(Start(), AllRecords(block, image.areas).value).Some?
    ensures Parse(Print(block, image).value)
         == Some(Image(EndZone(Run(Start(), AllRecords(block, image.areas).value).value).areas, image.boot))
  {
    var rs := AllRecords(block, image.areas).value;
    hide Run, AllRecords, EndZone, TailText, Text, StepLines;
    RunText(Start(), rs, TailText(image.boot));
    RunTail(Run(Start(), rs).value, image.boot);
  }

  /** Whatever was printed, the parser finds areas in order, none of them empty or in the last page. */
  lemma {:induction false} ParsedTidy(block: nat, image: Image)
    requires 1 <= block <= 255 && image.boot < TWO32 && Addressable(image.areas)
    requires Print(block, image).Some? && Parse(Print(block, image).value).Some?
    ensures AllRecords(block, image.areas).Some? && Run(Start(), AllRecords(block, image.areas).value).Some?
    ensures var r, p := Parse(Print(block, image).value).value, Run(Start(), AllRecords(block, image.areas).value).value;
      SortedAreas(r.areas) && (forall a :: a in r.areas ==> Written(a)) && |r.areas| == Total(p)
  {
    hide Run, AllRecords, EndZone, Print, Parse, Plain, Total;
    FileOutcome(block, image);
    FilePlain(block, image.areas);
    var rs := AllRecords(block, image.areas).value;
    assert Tidy(Start());
    RunPlain(Start(), rs);
    EndTidy(Run(Start(), rs).value);
  }

  // ---- every area adds one, an area that leaves its page adds another ----

  lemma {:induction false} Unfolded(block: nat, a: Area, off: nat, oldoff: nat)
    requires 1 <= block <= 255 && a.start < TWO32 && off < |a.data| && AreaRecords(block, a, off, oldoff).Some?
    ensures off < End(block, a, off) <= |a.data| && 0 < |a.data[off..End(block, a, off)]| <= 255
    ensures off + block < |a.data| ==> End(block, a, off) == off + block
    ensures (Low(a) + off) % PAGE < PAGE && AreaRecords(block, a, off + block, off).Some?
    ensures AreaRecords(block, a, off, oldoff).value
         == (if Upper(off) != Upper(oldoff) then [SelectRecord(a.start / PAGE)] else [])
            + [DataRecord((Low(a) + off) % PAGE, a.data[off..End(block, a, off)])] + AreaRecords(block, a, off + block, off).value
  {
    hide DataRecord, SelectRecord, Upper, Low;
  }

  /** The records for one offset: perhaps a select record, and a data record. */
  lemma {:induction false} Counted(p: Parser, page: nat, select: bool, address: nat, data: seq<byte>, rest: seq<seq<byte>>)
    returns (q: Parser)
    requires Tidy(p) && page < 0xFFFF && address < PAGE && 0 < |data| <= 255
    requires select || p.startZone.Some?
    ensures Consistent(p) && Consistent(q)
    ensures
      && Tidy(q) && q.zoneData != [] && q.startZone.Some? && q.current == address + |data|
      && Total(q) == (if select || p.zoneData == [] || address != p.current then Total(p) + 1 else Total(p))
      && Run(p, (if select then [SelectRecord(page)] else []) + [DataRecord(address, data)] + rest) == Run(q, rest)
  {
    TidyParts(p);
    hide Step, Sealed, DataRecord, SelectRecord, Run, TakeData, EndZone, Tidy;
    if select {
      StepSelect(p, page);
      EndTidy(p);
      Selected(EndZone(p), page);
      var selected := EndZone(p).(startZone := Some(page));
      TidyParts(selected);
      StepData(selected, address, data);
      TakeTidy(selected, address, data);
      q := TakeData(selected, address, |data|, data);
      RunTwo(p, SelectRecord(page), DataRecord(address, data), rest);
    } else {
      StepData(p, address, data);
      TakeTidy(p, address, data);
      q := TakeData(p, address, |data|, data);
      RunOne(p, DataRecord(address, data), rest);
    }
  }

  lemma {:induction false} PlainRest(block: nat, a: Area, off: nat, oldoff: nat, p: Parser)
    requires 1 <= block <= 255 && a.start < 0xFFFF_0000 && Addressable([a]) && Tidy(p)
    requires AreaRecords(block, a, off, oldoff).Some? && Run(p, AreaRecords(block, a, off, oldoff).value).Some?
    ensures var q := Run(p, AreaRecords(block, a, off, oldoff).value).value;
      Tidy(q) && Total(q) >= Total(p)
  {
    assert a in [a];
    AreaPlain(block, a, off, oldoff);
    RunPlain(p, AreaRecords(block, a, off, oldoff).value);
  }

  /** Behind the page the parser expects an address that no record has: one area becomes two. */
  lemma {:induction false} CrossingCount(block: nat, a: Area, off: nat, p: Parser)
    requires 1 <= block <= 255 && a.start < 0xFFFF_0000 && Addressable([a]) && !InPage(block, a) && Tidy(p)
    requires block <= off < |a.data| && Remainder(off, block) == 0
    requires p.startZone.Some? && p.zoneData != [] && p.current == Low(a) + off
    requires a.start < TWO32 && AreaRecords(block, a, off, off - block).Some?
    requires Run(p, AreaRecords(block, a, off, off - block).value).Some?
    ensures Total(Run(p, AreaRecords(block, a, off, off - block).value).value) > Total(p)
    decreases |a.data| - off
  {
    hide *;
    PageSmall();
    Unfolded(block, a, off, off - block);
    var address, data := (Low(a) + off) % PAGE, a.data[off..End(block, a, off)];
    var rest := AreaRecords(block, a, off + block, off);
    var select := Upper(off) != Upper(off - block);
    var q := Counted(p, a.start / PAGE, select, address, data, rest.value);
    if Low(a) + off < PAGE {
      StillInside(block, a, off);
      CrossingCount(block, a, off + block, q);
    } else {
      PlainRest(block, a, off + block, off, q);
    }
  }

  lemma {:induction false} StillInside(block: nat, a: Area, off: nat)
    requires block > 0 && !InPage(block, a) && off < |a.data| && Remainder(off, block) == 0 && Low(a) + off < PAGE
    ensures off + block < |a.data| && Remainder(off + block, block) == 0
    ensures (Low(a) + off) % PAGE == Low(a) + off
  {
    RecordStart(block, off, |a.data|);
    hide LastStart, Remainder;
  }

  lemma {:induction false} AreaCount(block: nat, a: Area, p: Parser)
    requires 1 <= block <= 255 && Written(a) && Addressable([a]) && Tidy(p)
    requires a.start < TWO32 && AreaRecords(block, a, 0, a.start + PAGE).Some?
    requires Run(p, AreaRecords(block, a, 0, a.start + PAGE).value).Some?
    ensures var q := Run(p, AreaRecords(block, a, 0, a.start + PAGE).value).value;
      Tidy(q) && Total(q) >= Total(p) + 1 && (!InPage(block, a) ==> Total(q) >= Total(p) + 2)
  {
    hide *;
    PageSmall();
    WrittenParts(a);
    PageStart(0);
    LastPage(a.start);
    Unfolded(block, a, 0, a.start + PAGE);
    var address, data := (Low(a) + 0) % PAGE, a.data[0..End(block, a, 0)];
    var rest := AreaRecords(block, a, 0 + block, 0);
    var select := Upper(0) != Upper(a.start + PAGE);
    var q := Counted(p, a.start / PAGE, select, address, data, rest.value);
    PlainRest(block, a, 0 + block, 0, q);
    if !InPage(block, a) {
      BlockStart(block);
      LowSmall(a);
      StillInside(block, a, 0);
      CrossingCount(block, a, block, q);
    }
  }

  lemma {:induction false} WrittenParts(a: Area)
    requires Written(a)
    ensures a.data != [] && a.start < 0xFFFF_0000
  {}

  lemma {:induction false} LowSmall(a: Area)
    ensures Low(a) < PAGE
  {}

  lemma {:induction false} FileCount(block: nat, areas: seq<Area>, p: Parser)
    requires 1 <= block <= 255 && Addressable(areas) && (forall a :: a in areas ==> Written(a)) && Tidy(p)
    requires AllRecords(block, areas).Some? && Run(p, AllRecords(block, areas).value).Some?
    ensures var q := Run(p, AllRecords(block, areas).value).value;
      Tidy(q) && Total(q) >= Total(p) + |areas| && (Total(q) == Total(p) + |areas| ==> AllFaithful(block, areas))
    decreases |areas|
  {
    hide Run, AreaRecords, Tidy, Total, InPage, Written;
    TidyParts(p);
    if areas != [] {
      var a := areas[0];
      assert a in areas && areas == [a] + areas[1..];
      var first, rest := AreaRecords(block, a, 0, a.start + PAGE).value, AllRecords(block, areas[1..]).value;
      RunConcat(p, first, rest);
      AreaCount(block, a, p);
      FileCount(block, areas[1..], Run(p, first).value);
      WrittenParts(a);
    } else {
      NoRecords(block, areas, p);
    }
  }

  /** The file gives the same image back exactly when the areas are sorted and each of them is not empty, starts
      below the last page and has no record that starts behind its page. */
  lemma {:induction false} RoundTripExactly(block: nat, image: Image)
    requires 1 <= block <= 255 && image.boot < TWO32 && Addressable(image.areas)
    ensures (Print(block, image).Some? && Parse(Print(block, image).value) == Some(image))
       <==> SortedAreas(image.areas) && AllFaithful(block, image.areas)
  {
    hide Run, AllRecords, EndZone, Print, Parse, SortedAreas, Written, Tidy, Total, AllFaithful;
    if SortedAreas(image.areas) && AllFaithful(block, image.areas) {
      PrintedParses(block, image);
      assert [] + image.areas == image.areas;
      InsertedInOrder([], image.areas);
    }
    if Print(block, image).Some? && Parse(Print(block, image).value) == Some(image) {
      ParsedTidy(block, image);
      StartTidy();
      FileCount(block, image.areas, Start());
    }
  }

  lemma {:induction false} StartTidy()
    ensures Tidy(Start()) && Total(Start()) == 0
  {}

  /** A byte in the last page: no page is written for it. */
  lemma {:induction false} LastPageLost()
    ensures var image := Image([Area(0xFFFF_0000, [1])], 0);
      !(Print(32, image).Some? && Parse(Print(32, image).value) == Some(image))
  {
    hide Print, Parse;
    var image := Image([Area(0xFFFF_0000, [1])], 0);
    RoundTripExactly(32, image);
    hide InPage;
    assert image.areas[0] in image.areas && !Faithful(32, image.areas[0]);
  }
}
