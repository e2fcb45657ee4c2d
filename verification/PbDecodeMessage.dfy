/** pb_decode.c over streams: fields of every kind, and the decoding loop with its bitmap of required fields. */
module PbDecodeMessage {
  import opened Bits
  import opened Wire
  import opened PbTypes
  import opened PbFormat
  import opened PbIterator
  import opened PbBitmap
  import opened PbIn
  import opened PbDecode
  import U = PbUnknown
  import R = PbRequired
  import P = PbParse

  // ---- one value ----

  /** The decoder of a value, by the type of its field. */
  method DecodeItem(stream: IStream, f: Field, was: Value) returns (ok: bool, v: Value)
    requires stream.Valid() && WellFormedField(f) && (f.ltype.SUBMESSAGE? ==> ItemShape(f, was))
    modifies stream
    ensures stream.End() <= old(stream.End()) && (ok ==> stream.End() == old(stream.End()))
    ensures stream.Valid() && Gets(P.DecodeItem(f, was, old(stream.Rest())), ok, v, stream.Rest())
    decreases f, 1
  {
    hide *;
    match f.ltype
    case VARINT => ok, v := DecVarint(stream, f, was);
    case UVARINT => ok, v := DecUvarint(stream, f, was);
    case SVARINT => ok, v := DecSvarint(stream, f, was);
    case FIXED32 => ok, v := DecFixed(stream, f, was);
    case FIXED64 => ok, v := DecFixed(stream, f, was);
    case BYTES => ok, v := DecBytes(stream, f, was);
    case STRING => ok, v := DecString(stream, f, was);
    case FIXED_LENGTH_BYTES => ok, v := DecFixedLengthBytes(stream, f, was);
    case SUBMESSAGE(sub) => ok, v := DecSubmessage(stream, f, sub, was);
  }

  lemma {:induction false} SubmessageFails(f: Field, was: Value, b: seq<byte>)
    requires WellFormedField(f) && f.ltype.SUBMESSAGE? && ItemShape(f, was) && P.TakeDelimited(b).None?
    ensures P.DecodeItem(f, was, b) == None
  {
    hide P.TakeDelimited;
  }

  lemma {:induction false} SubmessageGets(f: Field, sub: seq<Field>, was: Value, b: seq<byte>)
    requires WellFormedField(f) && f.ltype == SUBMESSAGE(sub) && ItemShape(f, was) && P.TakeDelimited(b).Some?
    ensures WellFormed(sub) && was.Struct? && MessageShape(sub, was.slots)
    ensures U.Start(f, sub, was) == was.slots || f.htype.REPEATED?
    ensures SlotsShape(sub, was.slots) && (f.htype.REPEATED? ==> U.Start(f, sub, was) == SetDefaults(sub, was.slots))
    ensures var t := P.TakeDelimited(b).value;
      var r := P.DecodeNoInit(sub, U.Start(f, sub, was), t.0);
      P.DecodeItem(f, was, b) == if r.None? then None else Some((Struct(r.value.0), t.1))
  {
    DefaultsShape(sub, was.slots);
    hide P.TakeDelimited, P.DecodeNoInit, SetDefaults, MessageShape, SlotsShape, WellFormed;
  }

  /** pb_dec_submessage. */
  method DecSubmessage(stream: IStream, f: Field, sub: seq<Field>, was: Value) returns (ok: bool, v: Value)
    requires stream.Valid() && WellFormedField(f) && f.ltype == SUBMESSAGE(sub) && ItemShape(f, was)
    modifies stream
    ensures stream.End() <= old(stream.End()) && (ok ==> stream.End() == old(stream.End()))
    ensures stream.Valid() && Gets(P.DecodeItem(f, was, old(stream.Rest())), ok, v, stream.Rest())
    decreases f, 0
  {
    hide P.TakeDelimited, P.DecodeItem, P.DecodeNoInit, SetDefaults, MessageShape, SlotsShape, WellFormed, ItemShape, WellFormedField, U.Start;
    ghost var b := stream.Rest();
    var status, substream := MakeSubstream(stream);
    if !status {
      SubmessageFails(f, was, b);
      return false, was;
    }
    SubmessageGets(f, sub, was, b);
    var slots: seq<Slot>;
    if f.htype.REPEATED? {
      status, slots := Decode(substream, sub, was.slots);
    } else {
      status, slots := DecodeNoInit(substream, sub, was.slots);
    }
    var closed := CloseSubstream(stream, substream);
    return closed && status, Struct(slots);
  }

  // ---- one field ----

  lemma {:induction false} PackedEnds(f: Field, r: Slot, b: seq<byte>)
    requires WellFormedField(f) && f.htype.REPEATED? && Packable(f.ltype) && FieldShape(f, r)
    ensures b == [] ==> P.DecodePacked(f, r, b) == Some(r)
    ensures b != [] && r.size >= f.arraySize ==> P.DecodePacked(f, r, b) == None
  {
    hide P.DecodeItem;
  }

  lemma {:induction false} PackedTurn(f: Field, r: Slot, b: seq<byte>)
    requires WellFormedField(f) && f.htype.REPEATED? && Packable(f.ltype) && FieldShape(f, r)
    requires b != [] && r.size < f.arraySize
    ensures r.size < |r.items| == f.arraySize
    ensures var item := P.DecodeItem(f, r.items[r.size], b);
      if item.None? then P.DecodePacked(f, r, b) == None else (
        && FieldShape(f, Slot(r.size + 1, r.items[r.size := item.value.0]))
        && P.DecodePacked(f, r, b) == P.DecodePacked(f, Slot(r.size + 1, r.items[r.size := item.value.0]), item.value.1))
  {
    hide P.DecodeItem, ItemShape;
  }

  lemma {:induction false} PackedRecord(f: Field, s: Slot, b: seq<byte>)
    requires WellFormedField(f) && f.htype.REPEATED? && Packable(f.ltype) && FieldShape(f, s)
    ensures P.DecodeRepeated(f, s, WT_STRING, b)
         == if P.TakeDelimited(b).None? then None
            else if P.DecodePacked(f, s, P.TakeDelimited(b).value.0).None? then None
            else Some((P.DecodePacked(f, s, P.TakeDelimited(b).value.0).value, P.TakeDelimited(b).value.1))
  {
    hide P.TakeDelimited, P.DecodePacked;
  }

  /** The packed branch of decode_static_field. */
  method DecodePackedArray(stream: IStream, f: Field, s: Slot) returns (ok: bool, r: Slot)
    requires stream.Valid() && WellFormedField(f) && f.htype.REPEATED? && Packable(f.ltype) && FieldShape(f, s)
    modifies stream
    ensures stream.End() <= old(stream.End()) && (ok ==> stream.End() == old(stream.End()))
    ensures stream.Valid() && Gets(P.DecodeRepeated(f, s, WT_STRING, old(stream.Rest())), ok, r, stream.Rest())
    decreases f, 2, 1
  {
    ghost var b := stream.Rest();
    PackedRecord(f, s, b);
    hide P.TakeDelimited, P.DecodeItem, P.DecodePacked, P.DecodeRepeated, ItemShape, WellFormedField, FieldShape, Packable;
    var made, substream := MakeSubstream(stream);
    if !made {
      return false, s;
    }
    var status;
    status, r := DecodeEntries(substream, f, s);
    if substream.bytesLeft != 0 {
      return false, r;
    }
    var closed := CloseSubstream(stream, substream);
    return closed && status, r;
  }

  /** The loop over a packed array; it leaves bytes over where an item is malformed or the array is full. */
  method DecodeEntries(substream: IStream, f: Field, s: Slot) returns (status: bool, r: Slot)
    requires substream.Valid() && WellFormedField(f) && f.htype.REPEATED? && Packable(f.ltype) && FieldShape(f, s)
    modifies substream
    ensures substream.Valid() && substream.End() <= old(substream.End()) && (status ==> substream.End() == old(substream.End()))
    ensures status && substream.bytesLeft == 0 ==> P.DecodePacked(f, s, old(substream.Rest())) == Some(r)
    ensures !status || substream.bytesLeft != 0 ==> P.DecodePacked(f, s, old(substream.Rest())) == None
    decreases f, 2, 0
  {
    hide P.DecodePacked, P.DecodeItem, ItemShape, FieldShape, WellFormedField;
    status, r := true, s;
    while substream.bytesLeft > 0 && r.size < f.arraySize
      invariant substream.Valid() && substream.End() == old(substream.End()) && FieldShape(f, r)
      invariant P.DecodePacked(f, s, old(substream.Rest())) == P.DecodePacked(f, r, substream.Rest())
      decreases substream.bytesLeft
    {
      PackedTurn(f, r, substream.Rest());
      var item: Value;
      status, item := DecodeItem(substream, f, r.items[r.size]);
      if !status {
        return;
      }
      r := Slot(r.size + 1, r.items[r.size := item]);
    }
    PackedEnds(f, r, substream.Rest());
  }

  /** The value a single record starts from. */
  ghost function Before(f: Field, s: Slot): Value
    requires WellFormedField(f) && FieldShape(f, s) && !f.htype.REPEATED?
  {
    ZeroItemShape(f);
    if f.htype.ONEOF? && f.ltype.SUBMESSAGE? then DefaultItem(f, ZeroItem(f)) else s.items[0]
  }

  lemma {:induction false} SingleRecord(f: Field, s: Slot, wireType: nat, b: seq<byte>)
    requires WellFormedField(f) && FieldShape(f, s) && !f.htype.REPEATED?
    ensures |s.items| == 1 && (f.ltype.SUBMESSAGE? ==> ItemShape(f, Before(f, s)))
    ensures f.htype.ONEOF? && f.ltype.SUBMESSAGE? ==>
      ItemShape(f, ZeroItem(f)) && WellFormed(f.ltype.fields) && SlotsShape(f.ltype.fields, ZeroItem(f).slots)
      && Before(f, s) == Struct(SetDefaults(f.ltype.fields, ZeroItem(f).slots))
    ensures var d := P.DecodeItem(f, Before(f, s), b);
      var size := if f.htype.ONEOF? then f.tag else if f.htype.OPTIONAL? && f.sizeOffset != 0 then 1 else s.size;
      P.DecodeField(f, s, wireType, b) == if d.None? then None else Some((Slot(size, [d.value.0]), d.value.1))
  {
    ZeroItemShape(f);
    DefaultItemShape(f, ZeroItem(f));
    if f.ltype.SUBMESSAGE? {
      OwnSlots(f.ltype.fields, ZeroItem(f).slots);
    }
    hide P.DecodeItem, ZeroItem, SlotsShape, SetDefaults, MessageShape, WellFormed;
  }

  lemma {:induction false} EntryRecord(f: Field, s: Slot, wireType: nat, b: seq<byte>)
    requires WellFormedField(f) && FieldShape(f, s) && f.htype.REPEATED?
    ensures P.DecodeField(f, s, wireType, b) == P.DecodeRepeated(f, s, wireType, b)
    ensures |s.items| == f.arraySize && (s.size < f.arraySize ==> ItemShape(f, s.items[s.size]))
    ensures wireType != WT_STRING || !Packable(f.ltype) ==>
      P.DecodeRepeated(f, s, wireType, b)
        == if s.size >= f.arraySize then None
           else var d := P.DecodeItem(f, s.items[s.size], b);
             if d.None? then None else Some((Slot(s.size + 1, s.items[s.size := d.value.0]), d.value.1))
  {
    hide P.DecodeItem;
  }

  /** decode_static_field. */
  method DecodeStaticField(stream: IStream, wireType: nat, f: Field, s: Slot) returns (ok: bool, r: Slot)
    requires stream.Valid() && WellFormedField(f) && FieldShape(f, s)
    modifies stream
    ensures stream.End() <= old(stream.End()) && (ok ==> stream.End() == old(stream.End()))
    ensures stream.Valid() && Gets(P.DecodeField(f, s, wireType, old(stream.Rest())), ok, r, stream.Rest())
    decreases f, 3
  {
    ghost var b := stream.Rest();
    hide P.DecodeField, P.DecodeRepeated, P.DecodeItem, ItemShape, FieldShape, WellFormedField, DefaultItem, ZeroItem, SlotsShape, SetDefaults, Packable;
    var v: Value;
    match f.htype
    case REQUIRED =>
      SingleRecord(f, s, wireType, b);
      ok, v := DecodeItem(stream, f, s.items[0]);
      r := Slot(s.size, [v]);
    case OPTIONAL =>
      SingleRecord(f, s, wireType, b);
      var size := s.size;
      if f.sizeOffset != 0 {
        size := 1;
      }
      ok, v := DecodeItem(stream, f, s.items[0]);
      r := Slot(size, [v]);
    case REPEATED =>
      EntryRecord(f, s, wireType, b);
      if wireType == WT_STRING && Packable(f.ltype) {
        ok, r := DecodePackedArray(stream, f, s);
      } else if s.size >= f.arraySize {
        ok, r := false, Slot(s.size + 1, s.items);
      } else {
        ok, v := DecodeItem(stream, f, s.items[s.size]);
        r := Slot(s.size + 1, s.items[s.size := v]);
      }
    case ONEOF =>
      SingleRecord(f, s, wireType, b);
      v := s.items[0];
      if f.ltype.SUBMESSAGE? {
        var slots := MessageSetToDefaults(f.ltype.fields, ZeroItem(f).slots);
        v := Struct(slots);
      }
      ok, v := DecodeItem(stream, f, v);
      r := Slot(f.tag, [v]);
  }

  // ---- messages ----

  /** Number of required fields, found by walking the iterator to the end. */
  method CountRequired(iter: FieldIter) returns (count: nat)
    requires iter.InStep() && WellFormed(iter.start)
    modifies iter
    ensures count == RequiredBefore(iter.start, |iter.start|)
  {
    hide DataOffset, Extent, Shares, WellFormedField;
    TagsNotZero(iter.start);
    var reqFieldCount := iter.requiredFieldIndex;
    var lastType := Entry(iter.start, iter.pos).htype;
    ghost var last := iter.pos;
    var more := iter.Next();
    while more
      invariant iter.InStep() && last <= |iter.start| && reqFieldCount == RequiredBefore(iter.start, last)
      invariant lastType == Entry(iter.start, last).htype
      invariant if more then iter.pos == last + 1 < |iter.start| else last + 1 == |iter.start| || iter.start == []
      invariant !more ==> iter.pos == 0
      decreases |iter.start| - last, more
    {
      reqFieldCount := iter.requiredFieldIndex;
      lastType := Entry(iter.start, iter.pos).htype;
      last := iter.pos;
      more := iter.Next();
    }
    if lastType.REQUIRED? && Entry(iter.start, iter.pos).tag != 0 {
      reqFieldCount := reqFieldCount + 1;
    }
    return reqFieldCount;
  }

  /** The decoding loop in the middle: what it has still to do is what the whole had to do. */
  ghost predicate Loop(fields: seq<Field>, all: Parsed<P.State>, st: P.State, rest: seq<byte>)
    requires WellFormed(fields)
  {
    P.StateShape(fields, st) && all == P.DecodeLoop(fields, st, rest) && Indices(fields, st.seen)
  }

  /** Only indices of checked fields are marked. */
  ghost predicate Indices(fields: seq<Field>, seen: set<nat>) {
    forall x | x in seen :: x < RequiredBefore(fields, |fields|) && x < PB_MAX_REQUIRED_FIELDS
  }

  lemma {:induction false} LoopStarts(fields: seq<Field>, slots: seq<Slot>, b: seq<byte>)
    requires WellFormed(fields) && MessageShape(fields, slots)
    ensures P.StateShape(fields, P.State(slots, 0, {}))
    ensures Loop(fields, P.DecodeLoop(fields, P.State(slots, 0, {}), b), P.State(slots, 0, {}), b)
  {
    hide P.DecodeLoop;
  }

  lemma {:induction false} LoopHere(fields: seq<Field>, all: Parsed<P.State>, st: P.State, b: seq<byte>)
    requires WellFormed(fields) && Loop(fields, all, st, b)
    ensures P.OnField(fields, st.pos) && Indices(fields, st.seen)
  {}

  /** What the loop does at an unreadable key and at an end mark. */
  lemma {:induction false} TurnWithoutRecord(fields: seq<Field>, all: Parsed<P.State>, st: P.State, b: seq<byte>)
    requires WellFormed(fields) && Loop(fields, all, st, b) && b != []
    ensures P.DecodeTag(b).Malformed? ==> all == None
    ensures P.DecodeTag(b).EndMark? ==> all == Some((st, P.DecodeTag(b).rest))
  {
    hide P.DecodeTag, P.Find, P.SkipField, P.DecodeField, MessageShape, WellFormed, RequiredBefore;
  }

  lemma {:induction false} TurnOnUnknown(fields: seq<Field>, all: Parsed<P.State>, st: P.State, b: seq<byte>)
    requires WellFormed(fields) && Loop(fields, all, st, b) && b != [] && P.DecodeTag(b).Found? && P.OnField(fields, st.pos)
    ensures P.Find(fields, st.pos, P.DecodeTag(b).tag) == P.Terminator ==> all == None
    ensures P.Find(fields, st.pos, P.DecodeTag(b).tag) == P.NotFound ==>
      var skipped := P.SkipField(P.DecodeTag(b).wireType, P.DecodeTag(b).rest);
      if skipped.None? then all == None else Loop(fields, all, st, skipped.value)
  {
    hide P.DecodeTag, P.Find, P.SkipField, P.DecodeField, MessageShape, WellFormed, RequiredBefore;
  }

  lemma {:induction false} TurnOnField(fields: seq<Field>, all: Parsed<P.State>, st: P.State, b: seq<byte>, i: nat)
    requires WellFormed(fields) && Loop(fields, all, st, b) && b != [] && P.DecodeTag(b).Found?
    requires P.Find(fields, st.pos, P.DecodeTag(b).tag) == P.At(i) && i < |fields|
    ensures WellFormedField(fields[i]) && SlotOf(fields, i) < |st.slots| && FieldShape(fields[i], st.slots[SlotOf(fields, i)])
    ensures var d := P.DecodeField(fields[i], st.slots[SlotOf(fields, i)], P.DecodeTag(b).wireType, P.DecodeTag(b).rest);
      if d.None? then all == None
      else Loop(fields, all, P.State(st.slots[SlotOf(fields, i) := d.value.0], i, P.Mark(fields, i, st.seen)), d.value.1)
  {
    AtField(fields, st, b, i);
    MarkBelow(fields, i, st.seen);
    hide P.DecodeTag, P.Find, P.DecodeField, P.DecodeLoop, P.StateShape, P.Mark, RequiredBefore, WellFormed, WellFormedField, FieldShape, SlotOf, Indices;
  }

  lemma {:induction false} AtField(fields: seq<Field>, st: P.State, b: seq<byte>, i: nat)
    requires WellFormed(fields) && P.StateShape(fields, st) && b != [] && P.DecodeTag(b).Found?
    requires P.Find(fields, st.pos, P.DecodeTag(b).tag) == P.At(i) && i < |fields|
    ensures WellFormedField(fields[i]) && SlotOf(fields, i) < |st.slots| && FieldShape(fields[i], st.slots[SlotOf(fields, i)])
    ensures var d := P.DecodeField(fields[i], st.slots[SlotOf(fields, i)], P.DecodeTag(b).wireType, P.DecodeTag(b).rest);
      if d.None? then P.DecodeLoop(fields, st, b) == None
      else
        var next := P.State(st.slots[SlotOf(fields, i) := d.value.0], i, P.Mark(fields, i, st.seen));
        P.StateShape(fields, next) && P.DecodeLoop(fields, st, b) == P.DecodeLoop(fields, next, d.value.1)
  {
    hide *;
    SlotAt(fields, st, i);
    LoopAt(fields, st, b, i);
    var d := P.DecodeField(fields[i], st.slots[SlotOf(fields, i)], P.DecodeTag(b).wireType, P.DecodeTag(b).rest);
    if d.Some? {
      P.StoreShape(fields, st.slots, i, d.value.0);
      Onward(fields, st.slots[SlotOf(fields, i) := d.value.0], i, P.Mark(fields, i, st.seen));
    }
  }

  lemma {:induction false} SlotAt(fields: seq<Field>, st: P.State, i: nat)
    requires WellFormed(fields) && P.StateShape(fields, st) && i < |fields|
    ensures WellFormedField(fields[i]) && SlotOf(fields, i) < |st.slots| && FieldShape(fields[i], st.slots[SlotOf(fields, i)])
    ensures MessageShape(fields, st.slots)
  {}

  lemma {:induction false} Onward(fields: seq<Field>, slots: seq<Slot>, i: nat, seen: set<nat>)
    requires MessageShape(fields, slots) && i < |fields|
    ensures P.StateShape(fields, P.State(slots, i, seen))
  {
    hide MessageShape;
  }

  /** The loop at a record of field `i`. */
  lemma {:induction false} LoopAt(fields: seq<Field>, st: P.State, b: seq<byte>, i: nat)
    requires WellFormed(fields) && P.StateShape(fields, st) && b != [] && P.DecodeTag(b).Found?
    requires P.Find(fields, st.pos, P.DecodeTag(b).tag) == P.At(i) && i < |fields|
    requires WellFormedField(fields[i]) && SlotOf(fields, i) < |st.slots| && FieldShape(fields[i], st.slots[SlotOf(fields, i)])
    ensures var d := P.DecodeField(fields[i], st.slots[SlotOf(fields, i)], P.DecodeTag(b).wireType, P.DecodeTag(b).rest);
      if d.None? then P.DecodeLoop(fields, st, b) == None
      else
        var next := P.State(st.slots[SlotOf(fields, i) := d.value.0], i, P.Mark(fields, i, st.seen));
        P.StateShape(fields, next) ==> P.DecodeLoop(fields, st, b) == P.DecodeLoop(fields, next, d.value.1)
  {
    hide P.DecodeTag, P.Find, P.SkipField, P.DecodeField, P.Mark, P.StateShape, WellFormed, WellFormedField, FieldShape, SlotOf, MessageShape;
  }

  lemma {:induction false} MarkBelow(fields: seq<Field>, i: nat, seen: set<nat>)
    requires i < |fields| && Indices(fields, seen)
    ensures Indices(fields, P.Mark(fields, i, seen))
  {
    IndexBelow(fields, i);
  }

  lemma {:induction false} IndexBelow(fields: seq<Field>, i: nat)
    requires i < |fields|
    ensures fields[i].htype.REQUIRED? ==> RequiredBefore(fields, i) < RequiredBefore(fields, |fields|)
  {
    R.RequiredMonotone(fields, i + 1, |fields|);
  }

  lemma {:induction false} LoopEnds(fields: seq<Field>, all: Parsed<P.State>, st: P.State, rest: seq<byte>)
    requires WellFormed(fields) && Loop(fields, all, st, rest) && rest == []
    ensures all == Some((st, rest)) && Indices(fields, st.seen)
  {}

  /** One record: its value is stored, and its presence noted. */
  method DecodeRecord(stream: IStream, wireType: nat, fields: seq<Field>, i: nat, slots: seq<Slot>, index: nat, bitmap: Bitmap)
    returns (ok: bool, r: seq<Slot>)
    requires stream.Valid() && bitmap.Valid() && i < |fields| && index == RequiredBefore(fields, i)
    requires WellFormedField(fields[i]) && SlotOf(fields, i) < |slots| && FieldShape(fields[i], slots[SlotOf(fields, i)])
    modifies stream, bitmap, bitmap.words
    ensures stream.Valid() && bitmap.Valid()
    ensures stream.End() <= old(stream.End()) && (ok ==> stream.End() == old(stream.End()))
    ensures bitmap.seen == P.Mark(fields, i, old(bitmap.seen))
    ensures var d := P.DecodeField(fields[i], slots[SlotOf(fields, i)], wireType, old(stream.Rest()));
      (ok <==> d.Some?) && (ok ==> r == slots[SlotOf(fields, i) := d.value.0] && stream.Rest() == d.value.1)
    decreases fields[i], 4
  {
    hide P.DecodeField, WellFormedField, FieldShape, SlotOf, RequiredBefore, Holds;
    if fields[i].htype.REQUIRED? && index < PB_MAX_REQUIRED_FIELDS {
      bitmap.Mark(index);
    }
    var s: Slot;
    ok, s := DecodeStaticField(stream, wireType, fields[i], slots[SlotOf(fields, i)]);
    r := slots[SlotOf(fields, i) := s];
  }

  /** One turn of the loop of pb_decode_noinit. */
  method DecodeTurn(stream: IStream, fields: seq<Field>, slots: seq<Slot>, iter: FieldIter, bitmap: Bitmap, ghost all: Parsed<P.State>)
    returns (ok: bool, ended: bool, r: seq<Slot>)
    requires stream.Valid() && stream.bytesLeft != 0 && WellFormed(fields)
    requires iter.InStep() && iter.start == fields && bitmap.Valid()
    requires Loop(fields, all, P.State(slots, iter.pos, bitmap.seen), stream.Rest())
    modifies stream, iter, bitmap, bitmap.words
    ensures stream.Valid() && iter.InStep() && bitmap.Valid()
    ensures stream.End() <= old(stream.End()) && (ok ==> stream.End() == old(stream.End()))
    ensures !ok ==> all == None
    ensures ok && ended ==> all == Some((P.State(r, iter.pos, bitmap.seen), stream.Rest())) && Indices(fields, bitmap.seen)
    ensures ok && !ended ==> Loop(fields, all, P.State(r, iter.pos, bitmap.seen), stream.Rest()) && stream.bytesLeft < old(stream.bytesLeft)
    decreases fields, 5
  {
    ghost var b, st := stream.Rest(), P.State(slots, iter.pos, bitmap.seen);
    hide Loop, P.DecodeTag, P.Find, P.SkipField, P.DecodeField, P.DecodeLoop, P.StateShape, P.Mark, P.OnField, Bitmap.Valid, WellFormed,
         MessageShape, FieldShape, WellFormedField, SlotOf, RequiredBefore, DataOffset, Indices;
    LoopHere(fields, all, st, b);
    r, ended := slots, false;
    var status, wireType, tag, eof := PbIn.DecodeTag(stream);
    if !status {
      TurnWithoutRecord(fields, all, st, b);
      return eof, eof, slots;
    }
    var found := iter.Find(tag);
    if !found {
      ok := DecodeUnknown(stream, wireType, fields, all, st, b);
      return;
    }
    if iter.pos == |fields| {
      TurnOnUnknown(fields, all, st, b);
      // the terminator of an empty message type, whose data_size no decoder accepts
      return false, false, slots;
    }
    assert P.Find(fields, st.pos, tag) == P.At(iter.pos);
    ok, r := DecodeKnown(stream, wireType, fields, slots, iter, bitmap, all, st, b);
  }

  /** The end of a turn, on a field that is not in the descriptor. */
  method DecodeUnknown(stream: IStream, wireType: nat, fields: seq<Field>, ghost all: Parsed<P.State>, ghost st: P.State, ghost b: seq<byte>)
    returns (ok: bool)
    requires stream.Valid() && WellFormed(fields) && Loop(fields, all, st, b) && b != []
    requires P.DecodeTag(b).Found? && P.DecodeTag(b).wireType == wireType && P.DecodeTag(b).rest == stream.Rest()
    requires P.OnField(fields, st.pos) && P.Find(fields, st.pos, P.DecodeTag(b).tag) == P.NotFound
    modifies stream
    ensures stream.Valid() && stream.End() == old(stream.End()) && (ok ==> stream.bytesLeft <= old(stream.bytesLeft))
    ensures if ok then Loop(fields, all, st, stream.Rest()) else all == None
  {
    hide Loop, P.DecodeTag, P.Find, P.SkipField, P.OnField, WellFormed;
    TurnOnUnknown(fields, all, st, b);
    ok := PbIn.SkipField(stream, wireType);
  }

  /** The end of a turn, on a field of the descriptor. */
  method DecodeKnown(stream: IStream, wireType: nat, fields: seq<Field>, slots: seq<Slot>, iter: FieldIter, bitmap: Bitmap,
                     ghost all: Parsed<P.State>, ghost st: P.State, ghost b: seq<byte>)
    returns (ok: bool, r: seq<Slot>)
    requires stream.Valid() && WellFormed(fields) && iter.InStep() && iter.start == fields && bitmap.Valid()
    requires slots == st.slots && bitmap.seen == st.seen && Loop(fields, all, st, b) && b != []
    requires P.DecodeTag(b).Found? && P.DecodeTag(b).wireType == wireType && P.DecodeTag(b).rest == stream.Rest()
    requires P.OnField(fields, st.pos) && P.Find(fields, st.pos, P.DecodeTag(b).tag) == P.At(iter.pos)
    modifies stream, bitmap, bitmap.words
    ensures stream.Valid() && bitmap.Valid()
    ensures stream.End() <= old(stream.End()) && (ok ==> stream.End() == old(stream.End()))
    ensures !ok ==> all == None
    ensures ok ==> Loop(fields, all, P.State(r, iter.pos, bitmap.seen), stream.Rest()) && stream.bytesLeft <= old(stream.bytesLeft)
    decreases fields, 4
  {
    hide Loop, P.DecodeTag, P.Find, P.DecodeField, P.DecodeLoop, P.StateShape, P.Mark, P.OnField, Bitmap.Valid, WellFormed,
         MessageShape, FieldShape, WellFormedField, SlotOf, RequiredBefore, DataOffset, Indices;
    TurnOnField(fields, all, st, b, iter.pos);
    ok, r := DecodeRecord(stream, wireType, fields, iter.pos, slots, iter.requiredFieldIndex, bitmap);
  }

  /** The loop of pb_decode_noinit. */
  method DecodeRecords(stream: IStream, fields: seq<Field>, slots: seq<Slot>, iter: FieldIter, bitmap: Bitmap)
    returns (ok: bool, r: seq<Slot>)
    requires stream.Valid() && WellFormed(fields) && MessageShape(fields, slots)
    requires iter.InStep() && iter.start == fields && iter.pos == 0 && bitmap.Valid() && bitmap.seen == {}
    modifies stream, iter, bitmap, bitmap.words
    ensures stream.Valid() && iter.InStep() && bitmap.Valid()
    ensures stream.End() <= old(stream.End()) && (ok ==> stream.End() == old(stream.End()))
    ensures P.StateShape(fields, P.State(slots, 0, {}))
    ensures var all := P.DecodeLoop(fields, P.State(slots, 0, {}), old(stream.Rest()));
      (ok <==> all.Some?) && (ok ==> all.value == (P.State(r, iter.pos, bitmap.seen), stream.Rest()))
    ensures ok ==> Indices(fields, bitmap.seen)
    decreases fields, 6
  {
    LoopStarts(fields, slots, stream.Rest());
    ghost var all := P.DecodeLoop(fields, P.State(slots, 0, {}), stream.Rest());
    hide *;
    ok, r := true, slots;
    var ended := false;
    while stream.bytesLeft != 0 && !ended
      invariant stream.Valid() && stream.End() == old(stream.End())
      invariant iter.InStep() && bitmap.Valid()
      invariant ended ==> all == Some((P.State(r, iter.pos, bitmap.seen), stream.Rest())) && Indices(fields, bitmap.seen)
      invariant !ended ==> Loop(fields, all, P.State(r, iter.pos, bitmap.seen), stream.Rest())
      decreases !ended, stream.bytesLeft
    {
      ok, ended, r := DecodeTurn(stream, fields, r, iter, bitmap, all);
      if !ok {
        return;
      }
    }
    if !ended {
      LoopEnds(fields, all, P.State(r, iter.pos, bitmap.seen), stream.Rest());
    }
  }

  /** pb_decode_noinit. */
  method DecodeNoInit(stream: IStream, fields: seq<Field>, slots: seq<Slot>) returns (ok: bool, r: seq<Slot>)
    requires stream.Valid() && WellFormed(fields) && MessageShape(fields, slots)
    modifies stream
    ensures stream.End() <= old(stream.End()) && (ok ==> stream.End() == old(stream.End()))
    ensures stream.Valid() && Gets(P.DecodeNoInit(fields, slots, old(stream.Rest())), ok, r, stream.Rest())
    decreases fields, 7
  {
    hide P.DecodeLoop, WellFormed, MessageShape, Holds, DataOffset, RequiredBefore;
    var bitmap := new Bitmap();
    var iter := new FieldIter(fields, 0);
    ok, r := DecodeRecords(stream, fields, slots, iter, bitmap);
    if !ok {
      return;
    }
    var reqFieldCount := CountRequired(iter);
    if reqFieldCount > PB_MAX_REQUIRED_FIELDS {
      reqFieldCount := PB_MAX_REQUIRED_FIELDS;
    }
    ok := bitmap.Complete(reqFieldCount);
  }

  /** pb_decode. */
  method Decode(stream: IStream, fields: seq<Field>, slots: seq<Slot>) returns (ok: bool, r: seq<Slot>)
    requires stream.Valid() && WellFormed(fields) && MessageShape(fields, slots)
    modifies stream
    ensures stream.End() <= old(stream.End()) && (ok ==> stream.End() == old(stream.End()))
    ensures stream.Valid() && Gets(P.Decode(fields, slots, old(stream.Rest())), ok, r, stream.Rest())
    decreases fields, 8
  {
    P.DecodeResets(fields, slots, stream.Rest());
    hide *;
    var reset := MessageSetToDefaults(fields, slots);
    ok, r := DecodeNoInit(stream, fields, reset);
  }
}
