/** A device that keeps what it is sent pending until it is told to flush, and the order of the commands of `load`. */
module FlashDevice {
  import opened Sequences
  import opened Bits
  import opened Wire
  import opened FlashLoader

  // ---- flushing ----

  datatype Device = Device(base: int, pending: Memory, stored: Memory)

  function Obey(d: Device, command: Command): Device {
    match command
    case SelectSegment(address) => d.(base := address)
    case LoadSegmentChunk(offset, chunk) => d.(pending := Write(d.pending, d.base + offset, chunk))
    case FlushSegment => Device(d.base, map[], d.stored + d.pending)
    case CrcSegment(_) => d
  }

  function ObeyAll(d: Device, commands: seq<Command>): Device
    decreases |commands|
  {
    if commands == [] then d else ObeyAll(Obey(d, commands[0]), commands[1..])
  }

  lemma {:induction false} ObeySplit(d: Device, a: seq<Command>, b: seq<Command>)
    ensures ObeyAll(d, a + b) == ObeyAll(ObeyAll(d, a), b)
    decreases |a|
  {
    if a == [] {
      assert a + b == b;
    } else {
      assert (a + b)[1..] == a[1..] + b;
      ObeySplit(Obey(d, a[0]), a[1..], b);
    }
  }

  lemma {:induction false} WriteMerge(s: Memory, p: Memory, at: int, data: seq<byte>)
    ensures s + Write(p, at, data) == Write(s + p, at, data)
    decreases |data|
  {
    if data != [] {
      assert s + p[at := data[0]] == (s + p)[at := data[0]];
      WriteMerge(s, p[at := data[0]], at + 1, data[1..]);
    }
  }

  /** What is stored and what is pending together are what a device without flushing has written. */
  lemma {:induction false} Combined(d: Device, commands: seq<Command>)
    ensures var e := ObeyAll(d, commands);
      (e.base, e.stored + e.pending) == Replay(commands, d.base, d.stored + d.pending)
    decreases |commands|
  {
    if commands != [] {
      if commands[0].LoadSegmentChunk? {
        WriteMerge(d.stored, d.pending, d.base + commands[0].offset, commands[0].chunk);
      } else if commands[0].FlushSegment? {
        assert d.stored + d.pending + map[] == d.stored + d.pending;
      }
      Combined(Obey(d, commands[0]), commands[1..]);
    }
  }

  lemma {:induction false} TailFlushes(o: Options, length: nat, d: Device)
    ensures ObeyAll(d, Tail(o, length)).pending == map[]
  {
    var t := Tail(o, length);
    assert t[1..] == if o.doCrc then [CrcSegment(length)] else [];
    assert [CrcSegment(length)][1..] == [];
    var f := Obey(d, t[0]);
    assert ObeyAll(f, [CrcSegment(length)]) == ObeyAll(Obey(f, CrcSegment(length)), []);
  }

  lemma {:induction false} AreaFlushes(o: Options, initial: int, area: Area, d: Device)
    requires Ends(o, |area.data|) && AreaCommands(o, initial, area).Some? && d.pending == map[]
    ensures ObeyAll(d, AreaCommands(o, initial, area).value).pending == map[]
  {
    var select := SelectSegment(area.start - initial);
    if area.data == [] {
      assert [select][1..] == [];
    } else {
      var chunks := if o.reverse then Backward(o, area.data, |area.data|).value else Forward(o, area.data, 0).value;
      assert AreaCommands(o, initial, area).value == [select] + (chunks + Tail(o, |area.data|));
      hide AreaCommands, Forward, Backward, Tail, Ends, Obey;
      ObeySplit(d, [select], chunks + Tail(o, |area.data|));
      ObeySplit(ObeyAll(d, [select]), chunks, Tail(o, |area.data|));
      TailFlushes(o, |area.data|, ObeyAll(ObeyAll(d, [select]), chunks));
    }
  }

  lemma {:induction false} CommandsFlush(o: Options, initial: int, areas: seq<Area>, d: Device)
    requires AllEnd(o, areas) && Commands(o, initial, areas).Some? && d.pending == map[]
    ensures ObeyAll(d, Commands(o, initial, areas).value).pending == map[]
    decreases |areas|
  {
    if areas != [] {
      hide AreaCommands, Ends;
      var first, rest := AreaCommands(o, initial, areas[0]).value, Commands(o, initial, areas[1..]).value;
      AreaFlushes(o, initial, areas[0], d);
      ObeySplit(d, first, rest);
      CommandsFlush(o, initial, areas[1..], ObeyAll(d, first));
    }
  }

  /** After `load` nothing is pending, and the stored memory holds the areas at their relative addresses and
      elsewhere what it held. */
  lemma {:induction false} LoadStores(o: Options, initial: int, areas: seq<Area>, d: Device)
    requires AllEnd(o, areas) && Disjoint(areas) && Load(o, initial, areas).Some? && d.pending == map[]
    ensures var e := ObeyAll(d, Load(o, initial, areas).value);
      e.pending == map[] && HoldsImage(initial, areas, d.stored, e.stored)
  {
    var order := if o.reverse then Reverse(areas) else areas;
    assert AllEnd(o, order);
    assert Load(o, initial, areas) == Commands(o, initial, order);
    hide Load, Commands, AllEnd, HoldsImage, Replay, ObeyAll, Disjoint;
    CommandsFlush(o, initial, order, d);
    Combined(d, Load(o, initial, areas).value);
    LoadsImage(o, initial, areas, d.base, d.stored);
    assert d.stored + map[] == d.stored;
    var e := ObeyAll(d, Load(o, initial, areas).value);
    assert e.stored + map[] == e.stored;
  }

  // ---- the order of the commands ----

  /** The commands without the chunks. */
  function Frame(commands: seq<Command>): seq<Command> {
    if commands == [] then []
    else (if commands[0].LoadSegmentChunk? then [] else [commands[0]]) + Frame(commands[1..])
  }

  /** For every area a select command with its relative address, and for one with data a flush, and behind it a
      checksum of its length where checksums are asked for. */
  function FrameOf(initial: int, areas: seq<Area>, doCrc: bool): seq<Command> {
    if areas == [] then []
    else
      var a := areas[0];
      [SelectSegment(a.start - initial)] + (if a.data == [] then [] else [FlushSegment])
      + (if a.data != [] && doCrc then [CrcSegment(|a.data|)] else []) + FrameOf(initial, areas[1..], doCrc)
  }

  lemma {:induction false} FrameFirst(a: seq<Command>)
    requires a != []
    ensures Frame(a) == (if a[0].LoadSegmentChunk? then [] else [a[0]]) + Frame(a[1..])
  {}

  lemma {:induction false} Regroup(a: seq<Command>, b: seq<Command>, c: seq<Command>)
    ensures a + (b + c) == a + b + c && [] + c == c
  {}

  lemma {:induction false} NoFrame()
    ensures Frame([]) == []
  {}

  lemma {:induction false} FrameSplit(a: seq<Command>, b: seq<Command>)
    ensures Frame(a + b) == Frame(a) + Frame(b)
    decreases |a|
  {
    hide Frame;
    if a == [] {
      NoFrame();
      assert a + b == b && [] + Frame(b) == Frame(b);
    } else {
      FrameSplit(a[1..], b);
      var first := if a[0].LoadSegmentChunk? then [] else [a[0]];
      FrameFirst(a);
      FrameFirst(a + b);
      assert (a + b)[1..] == a[1..] + b && (a + b)[0] == a[0];
      Regroup(first, Frame(a[1..]), Frame(b));
    }
  }

  lemma {:induction false} OnlyChunks(commands: seq<Command>)
    requires forall c :: c in commands ==> c.LoadSegmentChunk?
    ensures Frame(commands) == []
    decreases |commands|
  {
    if commands != [] {
      OnlyChunks(commands[1..]);
    }
  }

  lemma {:induction false} FrameFew(commands: seq<Command>)
    requires |commands| <= 2 && forall c :: c in commands ==> !c.LoadSegmentChunk?
    ensures Frame(commands) == commands
  {
    if |commands| == 1 {
      assert commands[1..] == [];
    } else if |commands| == 2 {
      assert commands[1..] == [commands[1]] && [commands[1]][1..] == [];
      assert Frame([commands[1]]) == [commands[1]];
    }
  }

  lemma {:induction false} ForwardChunks(o: Options, data: seq<byte>, offset: nat)
    requires offset <= |data| && Ends(o, |data| - offset) && Forward(o, data, offset).Some?
    ensures forall c :: c in Forward(o, data, offset).value ==> c.LoadSegmentChunk?
    decreases |data| - offset
  {
    if offset < |data| {
      var next := ForwardStep(o, data, offset);
      hide Forward, Ends, ChunkLength;
      ForwardChunks(o, data, next);
    }
  }

  lemma {:induction false} BackwardChunks(o: Options, data: seq<byte>, offset: nat)
    requires offset <= |data| && Ends(o, offset) && Backward(o, data, offset).Some?
    ensures forall c :: c in Backward(o, data, offset).value ==> c.LoadSegmentChunk?
    decreases offset
  {
    if offset > 0 {
      var next := BackwardStep(o, data, offset);
      hide Backward, Ends, ChunkLength;
      BackwardChunks(o, data, next);
    }
  }

  lemma {:induction false} AreaFrame(o: Options, initial: int, area: Area)
    requires Ends(o, |area.data|) && AreaCommands(o, initial, area).Some?
    ensures Frame(AreaCommands(o, initial, area).value)
         == [SelectSegment(area.start - initial)] + (if area.data == [] then [] else [FlushSegment])
            + (if area.data != [] && o.doCrc then [CrcSegment(|area.data|)] else [])
  {
    hide Frame, Forward, Backward, Ends;
    var select := [SelectSegment(area.start - initial)];
    FrameFew(select);
    if area.data != [] {
      var chunks := if o.reverse then Backward(o, area.data, |area.data|).value else Forward(o, area.data, 0).value;
      if o.reverse {
        BackwardChunks(o, area.data, |area.data|);
      } else {
        ForwardChunks(o, area.data, 0);
      }
      var tail := Tail(o, |area.data|);
      FrameFew(tail);
      OnlyChunks(chunks);
      FrameSplit(chunks, tail);
      FrameSplit(select, chunks + tail);
      Regroup(select, [], tail);
    }
  }

  /** The areas are taken in their order, or in reverse, and the commands around the chunks are exactly these. */
  lemma {:induction false} LoadFrame(o: Options, initial: int, areas: seq<Area>)
    requires AllEnd(o, areas) && Load(o, initial, areas).Some?
    ensures Frame(Load(o, initial, areas).value) == FrameOf(initial, if o.reverse then Reverse(areas) else areas, o.doCrc)
  {
    var order := if o.reverse then Reverse(areas) else areas;
    assert AllEnd(o, order);
    CommandsFrame(o, initial, order);
    hide Commands, Frame, FrameOf;
  }

  lemma {:induction false} CommandsFrame(o: Options, initial: int, areas: seq<Area>)
    requires AllEnd(o, areas) && Commands(o, initial, areas).Some?
    ensures Frame(Commands(o, initial, areas).value) == FrameOf(initial, areas, o.doCrc)
    decreases |areas|
  {
    if areas != [] {
      hide AreaCommands, Ends;
      AreaFrame(o, initial, areas[0]);
      CommandsFrame(o, initial, areas[1..]);
      FrameSplit(AreaCommands(o, initial, areas[0]).value, Commands(o, initial, areas[1..]).value);
    }
  }

  // ---- the sizes of the chunks ----

  /** A full chunk: the largest multiple of 16 within the room. */
  function Full(o: Options): int {
    Limit(o) - Limit(o) % 16
  }

  /** Without a fixed block length a chunk is full as long as more is left than there is room for; the last one takes
      what is left. */
  lemma {:induction false} PlainChunk(o: Options, length: nat)
    requires o.block == 0
    ensures ChunkLength(o, length) == Some(if length > Limit(o) then Full(o) else length)
  {}

  /** With a fixed block length the chunk is cut to the largest multiple of it, and fails where there is none. */
  lemma {:induction false} BlockChunk(o: Options, length: nat)
    requires o.block > 0 && length > 0 && Limit(o) >= 16
    ensures var room := if length > Limit(o) then Full(o) else length;
      match ChunkLength(o, length)
      case None => room < o.block
      case Some(c) => c % o.block == 0 && room - o.block < c <= room
  {
    var room := if length > Limit(o) then Full(o) else length;
    BlockPart(room, o.block);
    ModPlusMultiple(room - room % o.block, 0, o.block);
    RoundedDown(room, o.block);
  }

  lemma {:induction false} RoundedDown(n: int, b: nat)
    requires b > 0
    ensures (n - n % b) % b == 0
  {
    DivModOf(n, b);
    ModPlusMultiple(0, n / b, b);
  }

  /** Forward: chunk `j` lies `j` full chunks behind the start. */
  lemma {:induction false} ForwardPlaces(o: Options, data: seq<byte>, offset: nat, j: nat)
    requires o.block == 0 && Limit(o) >= 16 && offset <= |data| && Ends(o, |data| - offset)
    requires Forward(o, data, offset).Some? && j < |Forward(o, data, offset).value|
    ensures 0 <= j * Full(o) && offset + j * Full(o) < |data|
    ensures var at, left := offset + j * Full(o), |data| - (offset + j * Full(o));
      && Forward(o, data, offset).value[j] == LoadSegmentChunk(at, data[at..if left > Limit(o) then at + Full(o) else |data|])
      && (j == |Forward(o, data, offset).value| - 1 <==> left <= Limit(o))
    decreases j
  {
    hide Ends, ChunkLength, Forward;
    if offset == |data| {
      ForwardMore(o, data, offset);
    }
    var next := ForwardStep(o, data, offset);
    PlainChunk(o, |data| - offset);
    if j > 0 {
      ForwardMore(o, data, next);
      assert next == offset + Full(o);
      ForwardPlaces(o, data, next, j - 1);
      assert (j - 1) * Full(o) + Full(o) == j * Full(o);
    } else {
      ForwardMore(o, data, next);
    }
  }

  lemma {:induction false} ForwardMore(o: Options, data: seq<byte>, offset: nat)
    requires offset <= |data| && Ends(o, |data| - offset) && Forward(o, data, offset).Some?
    ensures Forward(o, data, offset).value == [] <==> offset == |data|
  {
    if offset < |data| {
      var next := ForwardStep(o, data, offset);
    }
  }

  /** In reverse: chunk `j` ends `j` full chunks before the end. */
  lemma {:induction false} BackwardPlaces(o: Options, data: seq<byte>, offset: nat, j: nat)
    requires o.block == 0 && Limit(o) >= 16 && offset <= |data| && Ends(o, offset)
    requires Backward(o, data, offset).Some? && j < |Backward(o, data, offset).value|
    ensures 0 <= j * Full(o) && offset - j * Full(o) > 0
    ensures offset - j * Full(o) > Limit(o) ==> 0 <= offset - j * Full(o) - Full(o)
    ensures var end := offset - j * Full(o);
      var at := if end > Limit(o) then end - Full(o) else 0;
      Backward(o, data, offset).value[j] == LoadSegmentChunk(at, data[at..end])
    ensures j == |Backward(o, data, offset).value| - 1 <==> offset - j * Full(o) <= Limit(o)
    decreases j
  {
    hide Ends, ChunkLength, Backward;
    if offset == 0 {
      BackwardMore(o, data, offset);
    }
    var next := BackwardStep(o, data, offset);
    PlainChunk(o, offset);
    BackwardMore(o, data, next);
    if j > 0 {
      assert next == offset - Full(o);
      BackwardPlaces(o, data, next, j - 1);
      assert (j - 1) * Full(o) + Full(o) == j * Full(o);
    }
  }

  lemma {:induction false} BackwardMore(o: Options, data: seq<byte>, offset: nat)
    requires offset <= |data| && Ends(o, offset) && Backward(o, data, offset).Some?
    ensures Backward(o, data, offset).value == [] <==> offset == 0
  {
    if offset > 0 {
      var next := BackwardStep(o, data, offset);
    }
  }
}
