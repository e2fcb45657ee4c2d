/** Loading a flash image: the chunks that the loader sends for every area, forward or in reverse, and what
    a device that replays them has in its memory. */
module FlashLoader {
  import opened Sequences
  import opened Bits
  import opened Wire
  import SC = SecureChannel

  const LOAD_SEGMENT_CHUNK_HEADER_LENGTH: int := 3
  const MIN_PADDING_LENGTH: int := 1
  const SCP_MAC_LENGTH: int := 14
  const MAX_SEGMENT: nat := 0x1_0000

  datatype Area = Area(start: nat, data: seq<byte>)

  /** The commands that `load` exchanges with the device. */
  datatype Command =
    | SelectSegment(address: int)
    | LoadSegmentChunk(offset: int, chunk: seq<byte>)
    | FlushSegment
    | CrcSegment(length: nat)

  /** What the caller of `load` chooses: the size limit of an APDU, the size of clear data blocks (zero for
      none), the direction, and whether checksums are sent. */
  datatype Options = Options(maxLength: int, block: nat, reverse: bool, doCrc: bool)

  /** Room for chunk data in an APDU. */
  function Limit(o: Options): int {
    o.maxLength - LOAD_SEGMENT_CHUNK_HEADER_LENGTH - MIN_PADDING_LENGTH - SCP_MAC_LENGTH
  }

  /** The length of the next chunk when `length` bytes are left; None where an exception is raised. The
      remainder of a negative number is not negative, as in Python. */
  function ChunkLength(o: Options, length: nat): Option<int> {
    var c := if length > Limit(o) then Limit(o) - Limit(o) % 16 else length;
    if o.block > 0 && c % o.block != 0 then (if c < o.block then None else Some(c - c % o.block)) else Some(c)
  }

  /** The loop over an area of this length comes to an end. */
  predicate Ends(o: Options, length: nat) {
    length <= Limit(o) || Limit(o) >= 16 || (o.block > 0 && (Limit(o) - Limit(o) % 16) % o.block != 0)
  }

  /** A chunk makes progress exactly where the loop ends. */
  lemma {:induction false} ProgressExactly(o: Options, length: nat)
    requires length > 0
    ensures Ends(o, length) <==> ChunkLength(o, length).None? || 0 < ChunkLength(o, length).value
    ensures Ends(o, length) && ChunkLength(o, length).Some? ==> ChunkLength(o, length).value <= length
  {
    var c := if length > Limit(o) then Limit(o) - Limit(o) % 16 else length;
    if o.block > 0 {
      BlockPart(c, o.block);
    }
  }

  lemma {:induction false} BlockPart(c: int, block: nat)
    requires block > 0
    ensures 0 <= c % block < block
    ensures c >= block ==> c - c % block > 0
    ensures c <= 0 && c % block == 0 ==> c <= 0
  {
    DivModOf(c, block);
  }

  lemma {:induction false} StillEnds(o: Options, length: nat, c: nat)
    requires Ends(o, length) && ChunkLength(o, length) == Some(c) && 0 < c <= length
    ensures Ends(o, length - c)
  {
    if length > Limit(o) && Limit(o) < 16 {
      var d := Limit(o) - Limit(o) % 16;
      BlockPart(d, o.block);
    }
  }

  // ---- the chunks of one area ----

  /** From `offset` to the end. */
  function Forward(o: Options, data: seq<byte>, offset: nat): (r: Option<seq<Command>>)
    requires offset <= |data| && Ends(o, |data| - offset)
    decreases |data| - offset
  {
    if offset == |data| then Some([])
    else
      ProgressExactly(o, |data| - offset);
      var c := ChunkLength(o, |data| - offset);
      if c.None? then None
      else
        StillEnds(o, |data| - offset, c.value);
        var rest := Forward(o, data, offset + c.value);
        if rest.None? then None else Some([LoadSegmentChunk(offset, data[offset..offset + c.value])] + rest.value)
  }

  /** From `offset` down to the start. */
  function Backward(o: Options, data: seq<byte>, offset: nat): (r: Option<seq<Command>>)
    requires offset <= |data| && Ends(o, offset)
    decreases offset
  {
    if offset == 0 then Some([])
    else
      ProgressExactly(o, offset);
      var c := ChunkLength(o, offset);
      if c.None? then None
      else
        StillEnds(o, offset, c.value);
        var rest := Backward(o, data, offset - c.value);
        if rest.None? then None else Some([LoadSegmentChunk(offset - c.value, data[offset - c.value..offset])] + rest.value)
  }

  /** The address fits the four bytes of the select command; struct.pack raises an exception where it does not. */
  predicate Selectable(address: int) {
    0 <= address < TWO32
  }

  /** The commands of one area; None where an exception is raised. */
  function AreaCommands(o: Options, initial: int, area: Area): Option<seq<Command>>
    requires Ends(o, |area.data|)
  {
    if !Selectable(area.start - initial) then None
    else if |area.data| == 0 then Some([SelectSegment(area.start - initial)])
    else if |area.data| > MAX_SEGMENT then None
    else
      var chunks := if o.reverse then Backward(o, area.data, |area.data|) else Forward(o, area.data, 0);
      if chunks.None? then None
      else Some([SelectSegment(area.start - initial)] + (chunks.value + Tail(o, |area.data|)))
  }

  /** What follows the chunks of an area. */
  function Tail(o: Options, length: nat): seq<Command> {
    if o.doCrc then [FlushSegment, CrcSegment(length)] else [FlushSegment]
  }

  predicate AllEnd(o: Options, areas: seq<Area>) {
    forall a :: a in areas ==> Ends(o, |a.data|)
  }

  /** The areas one after the other. */
  function Commands(o: Options, initial: int, areas: seq<Area>): Option<seq<Command>>
    requires AllEnd(o, areas)
  {
    if areas == [] then Some([])
    else
      var first, rest := AreaCommands(o, initial, areas[0]), Commands(o, initial, areas[1..]);
      if first.None? || rest.None? then None else Some(first.value + rest.value)
  }

  /** `load`. */
  function Load(o: Options, initial: int, areas: seq<Area>): Option<seq<Command>>
    requires AllEnd(o, areas)
  {
    var order := if o.reverse then Reverse(areas) else areas;
    assert AllEnd(o, order);
    Commands(o, initial, order)
  }

  // ---- replaying the commands ----

  type Memory = map<int, byte>

  function Write(m: Memory, at: int, data: seq<byte>): (w: Memory)
    decreases |data|
  {
    if data == [] then m else Write(m[at := data[0]], at + 1, data[1..])
  }

  /** What is found at an address after a write. */
  lemma {:induction false} WriteGets(m: Memory, at: int, data: seq<byte>, x: int)
    ensures at <= x < at + |data| ==> Stored(Write(m, at, data), x, data[x - at])
    ensures !(at <= x < at + |data|) ==> SameAt(m, Write(m, at, data), x)
    decreases |data|
  {
    if data != [] {
      WriteGets(m[at := data[0]], at + 1, data[1..], x);
    }
  }

  predicate Stored(w: Memory, at: int, value: byte) {
    at in w && w[at] == value
  }

  predicate SameAt(m: Memory, w: Memory, at: int) {
    (at in w <==> at in m) && (at in w ==> w[at] == m[at])
  }

  lemma {:induction false} SameEverywhere(m: Memory, w: Memory)
    requires forall x: int :: SameAt(m, w, x)
    ensures m == w
  {
    assert m.Keys == w.Keys by {
      forall x ensures x in m <==> x in w {
        assert SameAt(m, w, x);
      }
    }
    forall x | x in m ensures w[x] == m[x] {
      assert SameAt(m, w, x);
    }
  }

  /** The device writes chunks relative to the selected segment. */
  function Replay(commands: seq<Command>, base: int, m: Memory): (int, Memory)
  {
    if commands == [] then (base, m)
    else
      match commands[0]
      case SelectSegment(address) => Replay(commands[1..], address, m)
      case LoadSegmentChunk(offset, chunk) => Replay(commands[1..], base, Write(m, base + offset, chunk))
      case _ => Replay(commands[1..], base, m)
  }

  lemma {:induction false} WriteTwice(m: Memory, at: int, x: seq<byte>, y: seq<byte>)
    ensures Write(Write(m, at, x), at + |x|, y) == Write(m, at, x + y)
    ensures Write(Write(m, at + |x|, y), at, x) == Write(m, at, x + y)
  {
    var whole, up, down := Write(m, at, x + y), Write(Write(m, at, x), at + |x|, y), Write(Write(m, at + |x|, y), at, x);
    forall a: int ensures SameAt(up, whole, a) && SameAt(down, whole, a) {
      hide Write;
      WriteGets(m, at, x + y, a);
      WriteGets(m, at, x, a);
      WriteGets(Write(m, at, x), at + |x|, y, a);
      WriteGets(m, at + |x|, y, a);
      WriteGets(Write(m, at + |x|, y), at, x, a);
    }
    hide Write;
    SameEverywhere(up, whole);
    SameEverywhere(down, whole);
  }

  lemma {:induction false} WriteNothing(m: Memory, at: int)
    ensures Write(m, at, []) == m
  {}

  lemma {:induction false} ReplayChunk(offset: int, chunk: seq<byte>, rest: seq<Command>, base: int, m: Memory)
    ensures Replay([LoadSegmentChunk(offset, chunk)] + rest, base, m) == Replay(rest, base, Write(m, base + offset, chunk))
  {
    assert ([LoadSegmentChunk(offset, chunk)] + rest)[1..] == rest;
  }

  lemma {:induction false} ForwardStep(o: Options, data: seq<byte>, offset: nat) returns (next: nat)
    requires offset < |data| && Ends(o, |data| - offset) && Forward(o, data, offset).Some?
    ensures offset < next <= |data| && Ends(o, |data| - next) && Forward(o, data, next).Some?
    ensures ChunkLength(o, |data| - offset) == Some(next - offset)
    ensures Forward(o, data, offset).value == [LoadSegmentChunk(offset, data[offset..next])] + Forward(o, data, next).value
  {
    ProgressExactly(o, |data| - offset);
    next := offset + ChunkLength(o, |data| - offset).value;
    StillEnds(o, |data| - offset, next - offset);
    hide ChunkLength, Ends;
  }

  /** Forward chunks write the rest of the area in place. */
  lemma {:induction false} ForwardWrites(o: Options, data: seq<byte>, offset: nat, base: int, m: Memory)
    requires offset <= |data| && Ends(o, |data| - offset) && Forward(o, data, offset).Some?
    ensures Replay(Forward(o, data, offset).value, base, m) == (base, Write(m, base + offset, data[offset..]))
    decreases |data| - offset
  {
    if offset == |data| {
      WriteNothing(m, base + offset);
    } else {
      var next := ForwardStep(o, data, offset);
      hide *;
      ReplayChunk(offset, data[offset..next], Forward(o, data, next).value, base, m);
      ForwardWrites(o, data, next, base, Write(m, base + offset, data[offset..next]));
      WriteTwice(m, base + offset, data[offset..next], data[next..]);
      assert data[offset..next] + data[next..] == data[offset..];
    }
  }

  lemma {:induction false} BackwardStep(o: Options, data: seq<byte>, offset: nat) returns (next: nat)
    requires 0 < offset <= |data| && Ends(o, offset) && Backward(o, data, offset).Some?
    ensures next < offset && Ends(o, next) && Backward(o, data, next).Some?
    ensures ChunkLength(o, offset) == Some(offset - next)
    ensures Backward(o, data, offset).value == [LoadSegmentChunk(next, data[next..offset])] + Backward(o, data, next).value
  {
    ProgressExactly(o, offset);
    next := offset - ChunkLength(o, offset).value;
    StillEnds(o, offset, offset - next);
    hide ChunkLength, Ends;
  }

  /** Backward chunks write the front of the area in place. */
  lemma {:induction false} BackwardWrites(o: Options, data: seq<byte>, offset: nat, base: int, m: Memory)
    requires offset <= |data| && Ends(o, offset) && Backward(o, data, offset).Some?
    ensures Replay(Backward(o, data, offset).value, base, m) == (base, Write(m, base, data[..offset]))
    decreases offset
  {
    if offset == 0 {
      WriteNothing(m, base);
    } else {
      var next := BackwardStep(o, data, offset);
      hide *;
      ReplayChunk(next, data[next..offset], Backward(o, data, next).value, base, m);
      BackwardWrites(o, data, next, base, Write(m, base + next, data[next..offset]));
      WriteTwice(m, base, data[..next], data[next..offset]);
      assert data[..next] + data[next..offset] == data[..offset];
    }
  }

  // ---- whole images ----

  lemma {:induction false} ReplaySplit(a: seq<Command>, b: seq<Command>, base: int, m: Memory)
    ensures Replay(a + b, base, m) == Replay(b, Replay(a, base, m).0, Replay(a, base, m).1)
    decreases |a|
  {
    if a == [] {
      assert a + b == b;
    } else {
      assert (a + b)[1..] == a[1..] + b && (a + b)[0] == a[0];
      match a[0]
      case SelectSegment(address) => ReplaySplit(a[1..], b, address, m);
      case LoadSegmentChunk(offset, chunk) => ReplaySplit(a[1..], b, base, Write(m, base + offset, chunk));
      case _ => ReplaySplit(a[1..], b, base, m);
    }
  }

  /** The memory with the areas written one after the other. */
  function Image(initial: int, areas: seq<Area>, m: Memory): Memory {
    if areas == [] then m else Image(initial, areas[1..], Write(m, areas[0].start - initial, areas[0].data))
  }

  lemma {:induction false} AreaWrites(o: Options, initial: int, area: Area, base: int, m: Memory)
    requires Ends(o, |area.data|) && AreaCommands(o, initial, area).Some?
    ensures Replay(AreaCommands(o, initial, area).value, base, m).1 == Write(m, area.start - initial, area.data)
  {
    var at := area.start - initial;
    if area.data == [] {
      WriteNothing(m, at);
      assert [SelectSegment(at)][1..] == [];
    } else {
      var chunks := if o.reverse then Backward(o, area.data, |area.data|).value else Forward(o, area.data, 0).value;
      assert AreaCommands(o, initial, area).value == [SelectSegment(at)] + (chunks + Tail(o, |area.data|));
      hide AreaCommands, Forward, Backward, Tail, Replay, Write, Ends;
      ChunksWrite(o, area.data, at, m);
      ReplaySplit(chunks, Tail(o, |area.data|), at, m);
      TailWritesNothing(o, |area.data|, at, Write(m, at, area.data));
      ReplaySelect(at, chunks + Tail(o, |area.data|), base, m);
    }
  }

  lemma {:induction false} ReplaySelect(address: int, rest: seq<Command>, base: int, m: Memory)
    ensures Replay([SelectSegment(address)] + rest, base, m) == Replay(rest, address, m)
  {
    assert ([SelectSegment(address)] + rest)[1..] == rest;
  }

  lemma {:induction false} ChunksWrite(o: Options, data: seq<byte>, base: int, m: Memory)
    requires Ends(o, |data|)
    requires (if o.reverse then Backward(o, data, |data|) else Forward(o, data, 0)).Some?
    ensures Replay((if o.reverse then Backward(o, data, |data|) else Forward(o, data, 0)).value, base, m) == (base, Write(m, base, data))
  {
    hide Forward, Backward, Replay, Write, Ends;
    assert data[0..] == data && data[..|data|] == data;
    if o.reverse {
      BackwardWrites(o, data, |data|, base, m);
    } else {
      ForwardWrites(o, data, 0, base, m);
    }
  }

  lemma {:induction false} TailWritesNothing(o: Options, length: nat, base: int, m: Memory)
    ensures Replay(Tail(o, length), base, m) == (base, m)
  {
    var t := Tail(o, length);
    assert t[1..] == if o.doCrc then [CrcSegment(length)] else [];
    assert [CrcSegment(length)][1..] == [];
    assert Replay([CrcSegment(length)], base, m) == Replay([], base, m);
    assert Replay(t, base, m) == Replay(t[1..], base, m);
  }

  lemma {:induction false} CommandsWrite(o: Options, initial: int, areas: seq<Area>, base: int, m: Memory)
    requires AllEnd(o, areas) && Commands(o, initial, areas).Some?
    ensures Replay(Commands(o, initial, areas).value, base, m).1 == Image(initial, areas, m)
    decreases |areas|
  {
    if areas != [] {
      hide AreaCommands, Write, Ends;
      var first, rest := AreaCommands(o, initial, areas[0]).value, Commands(o, initial, areas[1..]).value;
      AreaWrites(o, initial, areas[0], base, m);
      ReplaySplit(first, rest, base, m);
      CommandsWrite(o, initial, areas[1..], Replay(first, base, m).0, Write(m, areas[0].start - initial, areas[0].data));
    }
  }

  // ---- disjoint areas ----

  predicate Covers(a: Area, x: int) {
    a.start <= x < a.start + |a.data|
  }

  ghost predicate Disjoint(areas: seq<Area>) {
    forall i, j, x :: 0 <= i < |areas| && 0 <= j < |areas| && Covers(areas[i], x) && Covers(areas[j], x) ==> i == j
  }

  ghost predicate Uncovered(areas: seq<Area>, x: int) {
    forall i :: 0 <= i < |areas| ==> !Covers(areas[i], x)
  }

  /** The memory holds the areas at their addresses relative to `initial`, and elsewhere what it held. */
  ghost predicate HoldsImage(initial: int, areas: seq<Area>, m: Memory, w: Memory) {
    && (forall i, x :: 0 <= i < |areas| && Covers(areas[i], x) ==> Stored(w, x - initial, areas[i].data[x - areas[i].start]))
    && (forall x :: Uncovered(areas, x) ==> SameAt(m, w, x - initial))
  }

  lemma {:induction false} ImageHolds(initial: int, areas: seq<Area>, m: Memory)
    requires Disjoint(areas)
    ensures HoldsImage(initial, areas, m, Image(initial, areas, m))
    decreases |areas|
  {
    if areas != [] {
      var a, rest := areas[0], areas[1..];
      var m1 := Write(m, a.start - initial, a.data);
      var w := Image(initial, areas, m);
      assert Disjoint(rest) by {
        forall i, j, x | 0 <= i < |rest| && 0 <= j < |rest| && Covers(rest[i], x) && Covers(rest[j], x) ensures i == j {
          assert rest[i] == areas[i + 1] && rest[j] == areas[j + 1];
        }
      }
      ImageHolds(initial, rest, m1);
      hide Write, Image;
      forall i, x | 0 <= i < |areas| && Covers(areas[i], x)
        ensures Stored(w, x - initial, areas[i].data[x - areas[i].start])
      {
        if i > 0 {
          assert areas[i] == rest[i - 1];
        } else {
          FirstUncovered(areas, x);
          WriteGets(m, a.start - initial, a.data, x - initial);
          assert SameAt(m1, w, x - initial);
        }
      }
      forall x | Uncovered(areas, x) ensures SameAt(m, w, x - initial) {
        RestUncovered(areas, x);
        WriteGets(m, a.start - initial, a.data, x - initial);
        assert SameAt(m1, w, x - initial) && !Covers(a, x);
      }
    }
  }

  lemma {:induction false} FirstUncovered(areas: seq<Area>, x: int)
    requires areas != [] && Disjoint(areas) && Covers(areas[0], x)
    ensures Uncovered(areas[1..], x)
  {
    forall i | 0 <= i < |areas[1..]| ensures !Covers(areas[1..][i], x) {
      assert areas[1..][i] == areas[i + 1];
    }
  }

  lemma {:induction false} RestUncovered(areas: seq<Area>, x: int)
    requires areas != [] && Uncovered(areas, x)
    ensures Uncovered(areas[1..], x)
  {
    forall i | 0 <= i < |areas[1..]| ensures !Covers(areas[1..][i], x) {
      assert areas[1..][i] == areas[i + 1];
    }
  }

  /** The image is determined by the areas. */
  lemma {:induction false} ImageUnique(initial: int, areas: seq<Area>, m: Memory, w1: Memory, w2: Memory)
    requires HoldsImage(initial, areas, m, w1) && HoldsImage(initial, areas, m, w2)
    ensures w1 == w2
  {
    forall at: int ensures SameAt(w1, w2, at) {
      var x := at + initial;
      assert x - initial == at;
      if Uncovered(areas, x) {
        assert SameAt(m, w1, x - initial) && SameAt(m, w2, x - initial);
      } else {
        var i :| 0 <= i < |areas| && Covers(areas[i], x);
        assert Stored(w1, x - initial, areas[i].data[x - areas[i].start]) && Stored(w2, x - initial, areas[i].data[x - areas[i].start]);
      }
    }
    SameEverywhere(w1, w2);
  }

  /** The order of the areas does not matter. */
  lemma {:induction false} HoldsReversed(initial: int, areas: seq<Area>, m: Memory, w: Memory)
    requires HoldsImage(initial, Reverse(areas), m, w)
    ensures HoldsImage(initial, areas, m, w)
  {
    var r, n := Reverse(areas), |areas|;
    forall i, x | 0 <= i < n && Covers(areas[i], x) ensures Stored(w, x - initial, areas[i].data[x - areas[i].start]) {
      assert r[n - 1 - i] == areas[i];
    }
    forall x | Uncovered(areas, x) ensures SameAt(m, w, x - initial) {
      assert Uncovered(r, x);
    }
  }

  lemma {:induction false} ReversedDisjoint(areas: seq<Area>)
    requires Disjoint(areas)
    ensures Disjoint(Reverse(areas))
  {
    var r, n := Reverse(areas), |areas|;
    forall i, j, x | 0 <= i < n && 0 <= j < n && Covers(r[i], x) && Covers(r[j], x) ensures i == j {
      assert r[i] == areas[n - 1 - i] && r[j] == areas[n - 1 - j];
    }
  }

  /** Replaying what `load` sends puts every area at its relative address, in either direction. */
  lemma {:induction false} LoadsImage(o: Options, initial: int, areas: seq<Area>, base: int, m: Memory)
    requires AllEnd(o, areas) && Disjoint(areas) && Load(o, initial, areas).Some?
    ensures HoldsImage(initial, areas, m, Replay(Load(o, initial, areas).value, base, m).1)
  {
    var order := if o.reverse then Reverse(areas) else areas;
    assert AllEnd(o, order);
    CommandsWrite(o, initial, order, base, m);
    if o.reverse {
      ReversedDisjoint(areas);
      ImageHolds(initial, order, m);
      hide HoldsImage;
      HoldsReversed(initial, areas, m, Image(initial, order, m));
    } else {
      ImageHolds(initial, areas, m);
    }
  }

  /** Forward and reverse loading, with whatever limits, leave the same memory. */
  lemma {:induction false} DirectionsAgree(o: Options, p: Options, initial: int, areas: seq<Area>, base: int, m: Memory)
    requires AllEnd(o, areas) && AllEnd(p, areas) && Disjoint(areas)
    requires Load(o, initial, areas).Some? && Load(p, initial, areas).Some?
    ensures Replay(Load(o, initial, areas).value, base, m).1 == Replay(Load(p, initial, areas).value, base, m).1
  {
    hide *;
    LoadsImage(o, initial, areas, base, m);
    LoadsImage(p, initial, areas, base, m);
    ImageUnique(initial, areas, m, Replay(Load(o, initial, areas).value, base, m).1, Replay(Load(p, initial, areas).value, base, m).1);
  }

  // ---- sizes ----

  /** A chunk command lies inside its area and inside the limit. */
  predicate Sized(o: Options, length: nat, command: Command) {
    command.LoadSegmentChunk? ==>
      0 <= command.offset && command.chunk != [] && command.offset + |command.chunk| <= length && |command.chunk| <= Limit(o)
  }

  predicate AllSized(o: Options, length: nat, commands: seq<Command>) {
    forall c :: c in commands ==> Sized(o, length, c)
  }

  lemma {:induction false} WithinLimit(o: Options, length: nat)
    requires length > 0 && ChunkLength(o, length).Some?
    ensures ChunkLength(o, length).value <= Limit(o)
  {
    var c := if length > Limit(o) then Limit(o) - Limit(o) % 16 else length;
    if o.block > 0 {
      BlockPart(c, o.block);
    }
  }

  lemma {:induction false} ForwardSized(o: Options, data: seq<byte>, offset: nat)
    requires offset <= |data| && Ends(o, |data| - offset) && Forward(o, data, offset).Some?
    ensures AllSized(o, |data|, Forward(o, data, offset).value)
    decreases |data| - offset
  {
    if offset < |data| {
      var next := ForwardStep(o, data, offset);
      WithinLimit(o, |data| - offset);
      hide Forward, ChunkLength, Ends, Limit;
      ForwardSized(o, data, next);
    }
  }

  lemma {:induction false} BackwardSized(o: Options, data: seq<byte>, offset: nat)
    requires offset <= |data| && Ends(o, offset) && Backward(o, data, offset).Some?
    ensures AllSized(o, |data|, Backward(o, data, offset).value)
    decreases offset
  {
    if offset > 0 {
      var next := BackwardStep(o, data, offset);
      WithinLimit(o, offset);
      hide Backward, ChunkLength, Ends, Limit;
      BackwardSized(o, data, next);
    }
  }

  lemma {:induction false} AreaSized(o: Options, initial: int, area: Area)
    requires Ends(o, |area.data|) && AreaCommands(o, initial, area).Some?
    ensures AllSized(o, MAX_SEGMENT, AreaCommands(o, initial, area).value)
  {
    if area.data != [] {
      if o.reverse {
        BackwardSized(o, area.data, |area.data|);
      } else {
        ForwardSized(o, area.data, 0);
      }
    }
    hide Forward, Backward, Ends, Limit;
  }

  /** Every chunk offset fits its two bytes, and no chunk is empty or over the limit. */
  lemma {:induction false} LoadSized(o: Options, initial: int, areas: seq<Area>)
    requires AllEnd(o, areas) && Commands(o, initial, areas).Some?
    ensures AllSized(o, MAX_SEGMENT, Commands(o, initial, areas).value)
    decreases |areas|
  {
    if areas != [] {
      hide AreaCommands, Ends, Sized;
      AreaSized(o, initial, areas[0]);
      LoadSized(o, initial, areas[1..]);
    }
  }

  /** The payload of loadSegmentChunk. */
  function ChunkPayload(offset: nat, chunk: seq<byte>): seq<byte>
    requires offset < MAX_SEGMENT
  {
    [6, offset / 256, offset % 256] + chunk
  }

  lemma {:induction false} PaddedLength(data: seq<byte>)
    ensures |SC.Pad(data)| == 16 * (|data| / 16 + 1)
  {}

  /** For a limit of at most 254 bytes the wrapped chunk fits the one-byte length field of its APDU; it stays
      below the limit itself exactly when its last block does. */
  lemma {:induction false} WrappedChunk(o: Options, end: SC.End, offset: nat, chunk: seq<byte>)
    requires o.maxLength <= 254 && offset < MAX_SEGMENT && |chunk| <= Limit(o)
    ensures |SC.Wrap(end, ChunkPayload(offset, chunk)).1| <= 254
    ensures end.keys.Version3? ==>
      (|SC.Wrap(end, ChunkPayload(offset, chunk)).1| <= o.maxLength <==> (|chunk| + 3) / 16 < (o.maxLength - 14) / 16)
  {
    PaddedLength(ChunkPayload(offset, chunk));
    hide SC.Pad, SC.CbcEncrypt;
  }

  /** The last chunk of an area may go over the limit: 222 bytes under a limit of 240 become 254. */
  lemma {:induction false} LastChunkOverLimit(e: SC.Cipher, m: SC.Cipher, iv: SC.Block, chunk: seq<byte>)
    requires |chunk| == 222
    ensures var o := Options(240, 0, false, true);
      ChunkLength(o, 222) == Some(222) && |SC.Wrap(SC.End(SC.Version3(e, m), iv, iv, iv), ChunkPayload(0, chunk)).1| == 254
  {
    PaddedLength(ChunkPayload(0, chunk));
    hide SC.Pad, SC.CbcEncrypt;
  }

  // ---- load ----

  lemma {:induction false} ForwardAlways(o: Options, data: seq<byte>, offset: nat)
    requires offset <= |data| && Ends(o, |data| - offset) && o.block == 0
    ensures Forward(o, data, offset).Some?
    decreases |data| - offset
  {
    if offset < |data| {
      ProgressExactly(o, |data| - offset);
      StillEnds(o, |data| - offset, ChunkLength(o, |data| - offset).value);
      ForwardAlways(o, data, offset + ChunkLength(o, |data| - offset).value);
    }
  }

  lemma {:induction false} BackwardAlways(o: Options, data: seq<byte>, offset: nat)
    requires offset <= |data| && Ends(o, offset) && o.block == 0
    ensures Backward(o, data, offset).Some?
    decreases offset
  {
    if offset > 0 {
      ProgressExactly(o, offset);
      StillEnds(o, offset, ChunkLength(o, offset).value);
      BackwardAlways(o, data, offset - ChunkLength(o, offset).value);
    }
  }

  /** Without a fixed block length only an area over 64 KiB, or one outside the 32-bit address space, makes the
      loader give up. */
  lemma {:induction false} LoadsExactly(o: Options, initial: int, areas: seq<Area>)
    requires AllEnd(o, areas) && o.block == 0
    ensures Commands(o, initial, areas).Some?
       <==> forall a :: a in areas ==> |a.data| <= 0x1_0000 && 0 <= a.start - initial < 0x1_0000_0000
    decreases |areas|
  {
    if areas != [] {
      var a := areas[0];
      ForwardAlways(o, a.data, 0);
      BackwardAlways(o, a.data, |a.data|);
      hide Forward, Backward, Ends;
      LoadsExactly(o, initial, areas[1..]);
      assert areas == [a] + areas[1..];
    }
  }

  /** Commands already sent, and the ones to come if no exception ends them. */
  ghost function Behind(sent: seq<Command>, rest: Option<seq<Command>>): Option<seq<Command>> {
    if rest.None? then None else Some(sent + rest.value)
  }

  lemma {:induction false} BehindNothing(rest: Option<seq<Command>>, sent: seq<Command>)
    ensures Behind([], rest) == rest && Behind(sent, Some([])) == Some(sent) && Behind(sent, None) == None
  {
    if rest.Some? {
      assert [] + rest.value == rest.value;
    }
    assert sent + [] == sent;
  }

  lemma {:induction false} BehindMore(sent: seq<Command>, more: seq<Command>, rest: Option<seq<Command>>)
    ensures Behind(sent, Behind(more, rest)) == Behind(sent + more, rest)
  {
    if rest.Some? {
      assert sent + (more + rest.value) == sent + more + rest.value;
    }
  }

  lemma {:induction false} ForwardTurn(o: Options, data: seq<byte>, offset: nat)
    requires offset < |data| && Ends(o, |data| - offset)
    ensures var c := ChunkLength(o, |data| - offset);
      if c.None? then Forward(o, data, offset) == None else (
        && 0 < c.value <= |data| - offset && Ends(o, |data| - offset - c.value)
        && Forward(o, data, offset) == Behind([LoadSegmentChunk(offset, data[offset..offset + c.value])], Forward(o, data, offset + c.value)))
  {
    ProgressExactly(o, |data| - offset);
    if ChunkLength(o, |data| - offset).Some? {
      StillEnds(o, |data| - offset, ChunkLength(o, |data| - offset).value);
    }
    hide ChunkLength, Ends;
  }

  lemma {:induction false} BackwardTurn(o: Options, data: seq<byte>, offset: nat)
    requires 0 < offset <= |data| && Ends(o, offset)
    ensures var c := ChunkLength(o, offset);
      if c.None? then Backward(o, data, offset) == None else (
        && 0 < c.value <= offset && Ends(o, offset - c.value)
        && Backward(o, data, offset) == Behind([LoadSegmentChunk(offset - c.value, data[offset - c.value..offset])], Backward(o, data, offset - c.value)))
  {
    ProgressExactly(o, offset);
    if ChunkLength(o, offset).Some? {
      StillEnds(o, offset, ChunkLength(o, offset).value);
    }
    hide ChunkLength, Ends;
  }

  /** The chunk loop of `load` over one area, forward. */
  method LoadForward(o: Options, data: seq<byte>) returns (r: Option<seq<Command>>)
    requires Ends(o, |data|)
    ensures r == Forward(o, data, 0)
  {
    hide Ends, ChunkLength, Behind;
    var sent: seq<Command> := [];
    var offset, length := 0, |data|;
    BehindNothing(Forward(o, data, 0), []);
    while length > 0
      invariant offset + length == |data| && 0 <= length && Ends(o, length)
      invariant Forward(o, data, 0) == Behind(sent, Forward(o, data, offset))
    {
      hide Forward;
      ForwardTurn(o, data, offset);
      var chunkLen := ChunkLength(o, length);
      if chunkLen.None? {
        BehindNothing(None, sent);
        return None;
      }
      var command := LoadSegmentChunk(offset, data[offset..offset + chunkLen.value]);
      BehindMore(sent, [command], Forward(o, data, offset + chunkLen.value));
      sent := sent + [command];
      offset := offset + chunkLen.value;
      length := length - chunkLen.value;
    }
    BehindNothing(None, sent);
    return Some(sent);
  }

  /** The chunk loop of `load` over one area, in reverse. */
  method LoadBackward(o: Options, data: seq<byte>) returns (r: Option<seq<Command>>)
    requires Ends(o, |data|)
    ensures r == Backward(o, data, |data|)
  {
    hide Ends, ChunkLength, Behind;
    var sent: seq<Command> := [];
    var offset, length := |data|, |data|;
    BehindNothing(Backward(o, data, |data|), []);
    while length > 0
      invariant offset == length && 0 <= length <= |data| && Ends(o, length)
      invariant Backward(o, data, |data|) == Behind(sent, Backward(o, data, offset))
    {
      hide Backward;
      BackwardTurn(o, data, offset);
      var chunkLen := ChunkLength(o, length);
      if chunkLen.None? {
        BehindNothing(None, sent);
        return None;
      }
      var command := LoadSegmentChunk(offset - chunkLen.value, data[offset - chunkLen.value..offset]);
      BehindMore(sent, [command], Backward(o, data, offset - chunkLen.value));
      sent := sent + [command];
      offset := offset - chunkLen.value;
      length := length - chunkLen.value;
    }
    BehindNothing(None, sent);
    return Some(sent);
  }

  /** The body of the loop of `load`: one area. */
  method LoadArea(o: Options, initial: int, area: Area) returns (r: Option<seq<Command>>)
    requires Ends(o, |area.data|)
    ensures r == AreaCommands(o, initial, area)
  {
    hide Forward, Backward, Ends;
    if !Selectable(area.start - initial) {
      return None;
    }
    if |area.data| == 0 {
      return Some([SelectSegment(area.start - initial)]);
    }
    if |area.data| > MAX_SEGMENT {
      return None;
    }
    var chunks;
    if o.reverse {
      chunks := LoadBackward(o, area.data);
    } else {
      chunks := LoadForward(o, area.data);
    }
    if chunks.None? {
      return None;
    }
    return Some([SelectSegment(area.start - initial)] + (chunks.value + Tail(o, |area.data|)));
  }

  /** `load`: what is exchanged with the device, or None where an exception is raised. */
  method LoadAreas(o: Options, initial: int, areas: seq<Area>) returns (r: Option<seq<Command>>)
    requires AllEnd(o, areas)
    ensures r == Load(o, initial, areas)
  {
    var order := if o.reverse then Reverse(areas) else areas;
    assert AllEnd(o, order);
    assert Load(o, initial, areas) == Commands(o, initial, order);
    var sent: seq<Command> := [];
    BehindNothing(Commands(o, initial, order), []);
    assert order[0..] == order;
    for i := 0 to |order|
      invariant Commands(o, initial, order) == Behind(sent, Commands(o, initial, order[i..]))
    {
      hide Ends, Behind, Commands, AreaCommands, Load, Reverse;
      assert order[i..][1..] == order[i + 1..] && order[i..][0] == order[i];
      var one := LoadArea(o, initial, order[i]);
      AreaThen(o, initial, order[i..], one);
      if one.None? {
        BehindNothing(None, sent);
        return None;
      }
      BehindMore(sent, one.value, Commands(o, initial, order[i + 1..]));
      sent := sent + one.value;
    }
    BehindNothing(None, sent);
    return Some(sent);
  }

  lemma {:induction false} AreaThen(o: Options, initial: int, areas: seq<Area>, one: Option<seq<Command>>)
    requires AllEnd(o, areas) && areas != [] && AreaCommands(o, initial, areas[0]) == one
    ensures Commands(o, initial, areas) == if one.None? then None else Behind(one.value, Commands(o, initial, areas[1..]))
  {
    hide AreaCommands, Ends;
  }
}
