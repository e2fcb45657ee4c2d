/** The round trip of whole messages: the decoding loop follows the fields in the order they were written. */
module PbMessageTrip {
  import opened Bits
  import opened Wire
  import opened PbTypes
  import opened PbFormat
  import opened PbParse
  import opened PbRoundTrip
  import opened PbTrip
  import opened PbDefaults

  // ---- the state between two fields ----

  /** The field still has the value that pb_message_set_to_defaults gave it. */
  ghost predicate Fresh(f: Field, r: Slot)
    requires FieldShape(f, r)
  {
    if f.htype.ONEOF? then r.size != f.tag else DefaultSlot(f, r) == r
  }

  ghost predicate Decoded(fields: seq<Field>, m: seq<Slot>, st: State, j: nat)
    requires MessageShape(fields, m) && StateShape(fields, st) && j < |fields|
  {
    && FieldShape(fields[j], m[SlotOf(fields, j)]) && FieldShape(fields[j], st.slots[SlotOf(fields, j)])
    && SameField(fields[j], m[SlotOf(fields, j)], st.slots[SlotOf(fields, j)])
  }

  ghost predicate Untouched(fields: seq<Field>, st: State, j: nat)
    requires StateShape(fields, st) && j < |fields|
  {
    FieldShape(fields[j], st.slots[SlotOf(fields, j)]) && Fresh(fields[j], st.slots[SlotOf(fields, j)])
  }

  ghost predicate Counted(fields: seq<Field>, seen: set<nat>, j: nat)
    requires j < |fields|
  {
    fields[j].htype.REQUIRED? && RequiredBefore(fields, j) < PB_MAX_REQUIRED_FIELDS ==> RequiredBefore(fields, j) in seen
  }

  /** The fields before `i` are decoded, those after it are fresh. */
  ghost predicate Around(fields: seq<Field>, m: seq<Slot>, st: State, i: nat)
    requires MessageShape(fields, m)
  {
    && StateShape(fields, st)
    && (forall j | 0 <= j < |fields| && j < i :: Decoded(fields, m, st, j))
    && (forall j | i < j < |fields| :: Untouched(fields, st, j))
    && (forall j | 0 <= j < |fields| && j < i :: Counted(fields, st.seen, j))
  }

  ghost predicate Between(fields: seq<Field>, m: seq<Slot>, st: State, i: nat)
    requires MessageShape(fields, m)
  {
    Around(fields, m, st, i) && (i < |fields| ==> Untouched(fields, st, i))
  }

  /** The state after a record of field `i`. */
  ghost function Advance(fields: seq<Field>, st: State, i: nat, s: Slot): State
    requires StateShape(fields, st) && i < |fields|
  {
    State(st.slots[SlotOf(fields, i) := s], i, Mark(fields, i, st.seen))
  }

  lemma {:induction false} AdvanceShape(fields: seq<Field>, st: State, i: nat, s: Slot)
    requires WellFormed(fields) && StateShape(fields, st) && i < |fields| && FieldShape(fields[i], s)
    requires fields[i].htype.ONEOF? ==> s.size == fields[i].tag
    ensures StateShape(fields, Advance(fields, st, i, s))
  {
    StoreShape(fields, st.slots, i, s);
  }

  /** A record of field `i` leaves the other fields as they were. */
  lemma {:induction false} AdvanceAround(fields: seq<Field>, m: seq<Slot>, st: State, i: nat, s: Slot)
    requires WellFormed(fields) && MessageShape(fields, m) && i < |fields| && Around(fields, m, st, i)
    requires FieldShape(fields[i], s)
    requires fields[i].htype.ONEOF? ==> s.size == fields[i].tag == m[SlotOf(fields, i)].size
    ensures Around(fields, m, Advance(fields, st, i, s), i)
  {
    AdvanceShape(fields, st, i, s);
    forall j | 0 <= j < |fields| && j != i
      ensures j < i ==> Decoded(fields, m, Advance(fields, st, i, s), j)
      ensures i < j ==> Untouched(fields, Advance(fields, st, i, s), j)
      ensures j < i ==> Counted(fields, Mark(fields, i, st.seen), j)
    {
      assert j < i ==> Decoded(fields, m, st, j) && Counted(fields, st.seen, j);
      OtherSlot(fields, m, st, i, s, j);
    }
  }

  lemma {:induction false} OtherSlot(fields: seq<Field>, m: seq<Slot>, st: State, i: nat, s: Slot, j: nat)
    requires WellFormed(fields) && MessageShape(fields, m) && i < |fields| && StateShape(fields, st)
    requires FieldShape(fields[i], s) && StateShape(fields, Advance(fields, st, i, s))
    requires fields[i].htype.ONEOF? ==> s.size == fields[i].tag == m[SlotOf(fields, i)].size
    requires j < |fields| && j != i
    ensures Decoded(fields, m, st, j) ==> Decoded(fields, m, Advance(fields, st, i, s), j)
    ensures Untouched(fields, st, j) ==> Untouched(fields, Advance(fields, st, i, s), j)
  {
    assert fields[j].tag != fields[i].tag;
    var after := Advance(fields, st, i, s);
    assert FieldShape(fields[j], m[SlotOf(fields, j)]) && FieldShape(fields[j], after.slots[SlotOf(fields, j)]);
    hide FieldShape, RequiredBefore;
    if SlotOf(fields, j) == SlotOf(fields, i) {
      assert fields[j].htype.ONEOF? && fields[i].htype.ONEOF?;
    }
  }

  /** With field `i` in place, the loop is between `i` and `i + 1`. */
  lemma {:induction false} Next(fields: seq<Field>, m: seq<Slot>, st: State, i: nat)
    requires WellFormed(fields) && MessageShape(fields, m) && i < |fields| && Around(fields, m, st, i)
    requires Decoded(fields, m, st, i) && Counted(fields, st.seen, i)
    ensures Between(fields, m, st, i + 1)
  {
    hide Decoded, Untouched, Counted, StateShape, MessageShape, WellFormed;
  }

  /** One turn of the loop on a record of field `i`. */
  lemma {:induction false} Record(fields: seq<Field>, st: State, i: nat, wireType: nat, body: seq<byte>)
    requires WellFormed(fields) && StateShape(fields, st) && i < |fields| && wireType < 8
    ensures FieldShape(fields[i], st.slots[SlotOf(fields, i)])
    ensures var d := DecodeField(fields[i], st.slots[SlotOf(fields, i)], wireType, body);
      if d.None? then DecodeLoop(fields, st, Key(fields[i].tag, wireType) + body) == None else (
        && StateShape(fields, Advance(fields, st, i, d.value.0))
        && DecodeLoop(fields, st, Key(fields[i].tag, wireType) + body)
             == DecodeLoop(fields, Advance(fields, st, i, d.value.0), d.value.1))
  {
    hide DecodeTag, Key, Find, DecodeField;
    KeyRoundTrip(fields[i].tag, wireType, body);
    FindExact(fields, st.pos, fields[i].tag);
    var s := st.slots[SlotOf(fields, i)];
    assert FieldShape(fields[i], s);
    var d := DecodeField(fields[i], s, wireType, body);
    if d.Some? {
      AdvanceShape(fields, st, i, d.value.0);
    }
  }

  // ---- arrays ----

  /** The entries stored so far carry the first items of `src`. */
  ghost predicate Filled(f: Field, src: seq<Value>, r: Slot)
    requires f.htype.REPEATED? && FieldShape(f, r) && forall v | v in src :: ItemShape(f, v)
  {
    r.size <= |src| <= f.arraySize && forall k | 0 <= k < |src| && k < r.size :: SameItem(f, src[k], r.items[k])
  }

  lemma {:induction false} Store(f: Field, src: seq<Value>, r: Slot, v: Value)
    requires f.htype.REPEATED? && FieldShape(f, r) && forall v | v in src :: ItemShape(f, v)
    requires Filled(f, src, r) && r.size < |src| && ItemShape(f, v) && SameItem(f, src[r.size], v)
    ensures FieldShape(f, Slot(r.size + 1, r.items[r.size := v])) && Filled(f, src, Slot(r.size + 1, r.items[r.size := v]))
  {}

  lemma {:induction false} NumberBytes(f: Field, v: Value)
    requires WellFormedField(f) && Packable(f.ltype) && ItemShape(f, v)
    ensures EncodeItem(f, v).Some? && EncodeItem(f, v).value != []
  {}

  lemma {:induction false} NumberItem(f: Field, v: Value, was: Value, e: seq<byte>, tail: seq<byte>)
    requires WellFormedField(f) && ItemShape(f, v) && Packable(f.ltype)
    requires EncodeItem(f, v) == Some(e)
    ensures ItemBack(f, v, was, e, tail)
  {
    match f.ltype
    case VARINT => VarintTrip(f, v, was, e, tail);
    case UVARINT => UvarintTrip(f, v, was, e, tail);
    case SVARINT => SvarintTrip(f, v, was, e, tail);
    case _ => FixedTrip(f, v, was, e, tail);
  }

  /** The rest of a packed array. */
  lemma {:induction false} PackedTrip(f: Field, src: seq<Value>, r: Slot)
    requires WellFormedField(f) && f.htype.REPEATED? && Packable(f.ltype)
    requires FieldShape(f, r) && (forall v | v in src :: ItemShape(f, v)) && Filled(f, src, r)
    ensures EncodeItems(f, src[r.size..]).Some?
    ensures var d := DecodePacked(f, r, EncodeItems(f, src[r.size..]).value);
      d.Some? && d.value.size == |src| && Filled(f, src, d.value)
    decreases |src| - r.size
  {
    hide EncodeItem, DecodeItem;
    if r.size < |src| {
      var c := r.size;
      NumberBytes(f, src[c]);
      var e, more := EncodeItem(f, src[c]).value, EncodeItems(f, src[c..][1..]);
      assert src[c..][1..] == src[c + 1..];
      PackedStep(f, src, r, e, if more.Some? then more.value else []);
      var next := Slot(c + 1, r.items[c := DecodeItem(f, r.items[c], e + (if more.Some? then more.value else [])).value.0]);
      PackedTrip(f, src, next);
    }
  }

  lemma {:induction false} PackedStep(f: Field, src: seq<Value>, r: Slot, e: seq<byte>, more: seq<byte>)
    requires WellFormedField(f) && f.htype.REPEATED? && Packable(f.ltype)
    requires FieldShape(f, r) && (forall v | v in src :: ItemShape(f, v)) && Filled(f, src, r)
    requires r.size < |src| && EncodeItem(f, src[r.size]) == Some(e)
    ensures e != []
    ensures DecodeItem(f, r.items[r.size], e + more).Some?
    ensures var next := Slot(r.size + 1, r.items[r.size := DecodeItem(f, r.items[r.size], e + more).value.0]);
      FieldShape(f, next) && Filled(f, src, next) && DecodePacked(f, r, e + more) == DecodePacked(f, next, more)
  {
    NumberBytes(f, src[r.size]);
    hide EncodeItem, DecodeItem;
    NumberItem(f, src[r.size], r.items[r.size], e, more);
    Store(f, src, r, DecodeItem(f, r.items[r.size], e + more).value.0);
  }

  // ---- items, records, the loop ----

  /** The decoder may start from this value: a submessage that is not an array entry has its defaults. */
  ghost predicate Ready(f: Field, was: Value)
    requires WellFormedField(f)
  {
    f.ltype.SUBMESSAGE? ==> ItemShape(f, was) && (f.htype.REPEATED? || DefaultItem(f, was) == was)
  }

  lemma {:induction false} ItemTrip(f: Field, v: Value, was: Value, e: seq<byte>, tail: seq<byte>)
    requires WellFormedField(f) && ItemShape(f, v) && Ready(f, was)
    requires EncodeItem(f, v) == Some(e) && |e| < TWO32
    ensures ItemBack(f, v, was, e, tail)
    decreases f, 0, 0
  {
    match f.ltype
    case SUBMESSAGE(sub) => SubmessageTrip(f, sub, v, was, e, tail);
    case STRING => StringTrip(f, v, was, e, tail);
    case BYTES => BytesTrip(f, v, was, e, tail);
    case FIXED_LENGTH_BYTES => FixedLengthTrip(f, v, was, e, tail);
    case _ => NumberItem(f, v, was, e, tail);
  }

  lemma {:induction false} SubmessageTrip(f: Field, sub: seq<Field>, v: Value, was: Value, e: seq<byte>, tail: seq<byte>)
    requires WellFormedField(f) && ItemShape(f, v) && Ready(f, was) && f.ltype == SUBMESSAGE(sub)
    requires EncodeItem(f, v) == Some(e) && |e| < TWO32
    ensures ItemBack(f, v, was, e, tail)
    decreases sub, 9
  {
    var content := EncodeFrom(sub, v.slots, 0).value;
    DefaultsShape(sub, was.slots);
    DefaultsTwice(sub, was.slots);
    hide EncodeFrom, DecodeNoInit, TakeDelimited, SetDefaults, SameMessage, TerminatedFrom, MessageShape, SlotsShape, Delimited, Complete, WellFormed;
    var start := if f.htype.REPEATED? then SetDefaults(sub, was.slots) else was.slots;
    MessageTrip(sub, v.slots, start, content);
    ContentBack(f, sub, v, was, start, content, tail);
  }

  lemma {:induction false} ContentBack(f: Field, sub: seq<Field>, v: Value, was: Value, start: seq<Slot>, content: seq<byte>, tail: seq<byte>)
    requires WellFormedField(f) && ItemShape(f, v) && ItemShape(f, was) && f.ltype == SUBMESSAGE(sub) && |content| < TWO32
    requires SlotsShape(sub, was.slots) && MessageShape(sub, start)
    requires start == if f.htype.REPEATED? then SetDefaults(sub, was.slots) else was.slots
    requires var r := DecodeNoInit(sub, start, content);
      if TerminatedFrom(sub, v.slots, 0) then r.Some? && SameMessage(sub, v.slots, r.value.0) else r == None
    ensures ItemBack(f, v, was, Delimited(content), tail)
  {
    hide DecodeNoInit, TakeDelimited, SetDefaults, SameMessage, TerminatedFrom, SlotsShape, Delimited, MessageShape, WellFormed;
    DelimitedRoundTrip(content, tail);
  }

  lemma {:induction false} MessageTrip(fields: seq<Field>, m: seq<Slot>, start: seq<Slot>, e: seq<byte>)
    requires WellFormed(fields) && MessageShape(fields, m) && MessageShape(fields, start)
    requires SlotsShape(fields, start) && SetDefaults(fields, start) == start
    requires EncodeFrom(fields, m, 0) == Some(e) && |e| < TWO32
    ensures var r := DecodeNoInit(fields, start, e);
      if TerminatedFrom(fields, m, 0) then r.Some? && r.value.1 == [] && SameMessage(fields, m, r.value.0) else r == None
    decreases fields, 8
  {
    hide *;
    Starts(fields, m, start);
    LoopTrip(fields, m, State(start, 0, {}), 0, e);
    Ends(fields, m, start, e);
  }

  lemma {:induction false} Starts(fields: seq<Field>, m: seq<Slot>, start: seq<Slot>)
    requires WellFormed(fields) && MessageShape(fields, m) && MessageShape(fields, start)
    requires SlotsShape(fields, start) && SetDefaults(fields, start) == start
    ensures StateShape(fields, State(start, 0, {})) && Between(fields, m, State(start, 0, {}), 0)
  {
    forall j | 0 <= j < |fields| ensures Untouched(fields, State(start, 0, {}), j) {
      assert SetDefaults(fields, start)[SlotOf(fields, j)] == DefaultSlot(fields[SlotOf(fields, j)], start[SlotOf(fields, j)]);
      assert FieldShape(fields[j], start[SlotOf(fields, j)]);
    }
  }

  /** When the loop is through, all required fields were seen. */
  lemma {:induction false} Ends(fields: seq<Field>, m: seq<Slot>, start: seq<Slot>, e: seq<byte>)
    requires WellFormed(fields) && MessageShape(fields, m) && MessageShape(fields, start) && StateShape(fields, State(start, 0, {}))
    requires LoopBack(fields, m, 0, DecodeLoop(fields, State(start, 0, {}), e))
    ensures var r := DecodeNoInit(fields, start, e);
      if TerminatedFrom(fields, m, 0) then r.Some? && r.value.1 == [] && SameMessage(fields, m, r.value.0) else r == None
  {
    hide TerminatedFrom, DecodeLoop, Complete, RequiredBefore, Around, SlotOf, SameMessage, WellFormed;
    var r := DecodeLoop(fields, State(start, 0, {}), e);
    if r.Some? {
      AllSeen(fields, m, r.value.0);
      AllSame(fields, m, r.value.0);
    }
  }

  lemma {:induction false} AllSame(fields: seq<Field>, m: seq<Slot>, st: State)
    requires MessageShape(fields, m) && Between(fields, m, st, |fields|)
    ensures SameMessage(fields, m, st.slots)
  {
    hide SameField, SlotOf, FieldShape, RequiredBefore, Counted;
    forall j | 0 <= j < |fields|
      ensures FieldShape(fields[j], m[SlotOf(fields, j)]) && FieldShape(fields[j], st.slots[SlotOf(fields, j)])
      ensures SameField(fields[j], m[SlotOf(fields, j)], st.slots[SlotOf(fields, j)])
    {
      assert Decoded(fields, m, st, j);
    }
  }

  lemma {:induction false} AllSeen(fields: seq<Field>, m: seq<Slot>, st: State)
    requires WellFormed(fields) && MessageShape(fields, m) && Between(fields, m, st, |fields|)
    ensures Complete(fields, st.seen)
  {
    hide Decoded, Untouched, StateShape, MessageShape, WellFormed;
    forall n: nat | n < RequiredBefore(fields, |fields|) && n < PB_MAX_REQUIRED_FIELDS ensures n in st.seen {
      var j := NthRequired(fields, |fields|, n);
      assert Counted(fields, st.seen, j);
    }
  }

  /** Every count below the total is the index of some required field. */
  lemma {:induction false} NthRequired(fields: seq<Field>, i: nat, n: nat) returns (j: nat)
    requires i <= |fields| && n < RequiredBefore(fields, i)
    ensures j < i && fields[j].htype.REQUIRED? && RequiredBefore(fields, j) == n
  {
    if n < RequiredBefore(fields, i - 1) {
      j := NthRequired(fields, i - 1, n);
    } else {
      j := i - 1;
    }
  }

  /** What LoopTrip says of the answer of the loop. */
  ghost predicate LoopBack(fields: seq<Field>, m: seq<Slot>, i: nat, r: Parsed<State>)
    requires MessageShape(fields, m) && i <= |fields|
  {
    if TerminatedFrom(fields, m, i) then r.Some? && r.value.1 == [] && Between(fields, m, r.value.0, |fields|) else r == None
  }

  /** After the records `e` of field `i` the loop goes on with the next field, or it has failed. */
  ghost predicate FieldBack(fields: seq<Field>, m: seq<Slot>, st: State, i: nat, ok: bool, e: seq<byte>, rest: seq<byte>, next: State)
    requires WellFormed(fields) && MessageShape(fields, m) && StateShape(fields, st) && i < |fields|
  {
    if ok then Between(fields, m, next, i + 1) && DecodeLoop(fields, st, e + rest) == DecodeLoop(fields, next, rest)
    else DecodeLoop(fields, st, e + rest) == None
  }

  lemma {:induction false} Here(fields: seq<Field>, m: seq<Slot>, st: State, i: nat)
    requires WellFormed(fields) && MessageShape(fields, m) && i < |fields| && Between(fields, m, st, i)
    ensures StateShape(fields, st) && Around(fields, m, st, i)
    ensures WellFormedField(fields[i]) && SlotOf(fields, i) < |st.slots| == |m|
    ensures FieldShape(fields[i], st.slots[SlotOf(fields, i)]) && FieldShape(fields[i], m[SlotOf(fields, i)])
    ensures Fresh(fields[i], st.slots[SlotOf(fields, i)])
  {}

  lemma {:induction false} FieldParts(fields: seq<Field>, m: seq<Slot>, i: nat, e: seq<byte>)
    requires MessageShape(fields, m) && i < |fields| && EncodeFrom(fields, m, i) == Some(e)
    ensures FieldShape(fields[i], m[SlotOf(fields, i)])
    ensures EncodeField(fields[i], m[SlotOf(fields, i)]).Some? && EncodeFrom(fields, m, i + 1).Some?
    ensures e == EncodeField(fields[i], m[SlotOf(fields, i)]).value + EncodeFrom(fields, m, i + 1).value
    ensures TerminatedFrom(fields, m, i)
       <==> TerminatedField(fields[i], m[SlotOf(fields, i)]) && TerminatedFrom(fields, m, i + 1)
  {
    assert FieldShape(fields[i], m[SlotOf(fields, i)]);
    hide EncodeField, TerminatedField, FieldShape;
  }

  lemma {:induction false} LoopStep(fields: seq<Field>, m: seq<Slot>, st: State, i: nat, next: State, e: seq<byte>, head: seq<byte>, rest: seq<byte>)
    requires WellFormed(fields) && MessageShape(fields, m) && i < |fields| && StateShape(fields, st)
    requires e == head + rest && FieldShape(fields[i], m[SlotOf(fields, i)])
    requires TerminatedFrom(fields, m, i)
        <==> TerminatedField(fields[i], m[SlotOf(fields, i)]) && TerminatedFrom(fields, m, i + 1)
    requires FieldBack(fields, m, st, i, TerminatedField(fields[i], m[SlotOf(fields, i)]), head, rest, next)
    requires TerminatedField(fields[i], m[SlotOf(fields, i)]) ==>
        StateShape(fields, next) && LoopBack(fields, m, i + 1, DecodeLoop(fields, next, rest))
    ensures LoopBack(fields, m, i, DecodeLoop(fields, st, e))
  {
    hide DecodeLoop, TerminatedField, TerminatedFrom, Between, StateShape, MessageShape, WellFormed, FieldShape, SlotOf;
  }

  lemma {:induction false} LoopTrip(fields: seq<Field>, m: seq<Slot>, st: State, i: nat, e: seq<byte>)
    requires WellFormed(fields) && MessageShape(fields, m) && i <= |fields| && Between(fields, m, st, i)
    requires EncodeFrom(fields, m, i) == Some(e) && |e| < TWO32
    ensures StateShape(fields, st) && LoopBack(fields, m, i, DecodeLoop(fields, st, e))
    decreases fields, 7, |fields| - i
  {
    hide *;
    if i == |fields| {
      LoopEnd(fields, m, st, e);
    } else {
      Here(fields, m, st, i);
      FieldParts(fields, m, i, e);
      var head, rest := EncodeField(fields[i], m[SlotOf(fields, i)]).value, EncodeFrom(fields, m, i + 1).value;
      var next := FieldTrip(fields, m, st, i, head, rest);
      if TerminatedField(fields[i], m[SlotOf(fields, i)]) {
        BackIsBetween(fields, m, st, i, head, rest, next);
        LoopTrip(fields, m, next, i + 1, rest);
      }
      LoopStep(fields, m, st, i, next, e, head, rest);
    }
  }

  lemma {:induction false} LoopEnd(fields: seq<Field>, m: seq<Slot>, st: State, e: seq<byte>)
    requires WellFormed(fields) && MessageShape(fields, m) && Between(fields, m, st, |fields|)
    requires EncodeFrom(fields, m, |fields|) == Some(e)
    ensures StateShape(fields, st) && LoopBack(fields, m, |fields|, DecodeLoop(fields, st, e))
  {}

  lemma {:induction false} BackIsBetween(fields: seq<Field>, m: seq<Slot>, st: State, i: nat, e: seq<byte>, rest: seq<byte>, next: State)
    requires WellFormed(fields) && MessageShape(fields, m) && StateShape(fields, st) && i < |fields|
    requires FieldBack(fields, m, st, i, true, e, rest, next)
    ensures Between(fields, m, next, i + 1)
  {}

  /** The records of one field. */
  lemma {:induction false} FieldTrip(fields: seq<Field>, m: seq<Slot>, st: State, i: nat, e: seq<byte>, rest: seq<byte>) returns (next: State)
    requires WellFormed(fields) && MessageShape(fields, m) && i < |fields| && Between(fields, m, st, i)
    requires FieldShape(fields[i], m[SlotOf(fields, i)]) && StateShape(fields, st)
    requires EncodeField(fields[i], m[SlotOf(fields, i)]) == Some(e) && |e| < TWO32
    ensures FieldBack(fields, m, st, i, TerminatedField(fields[i], m[SlotOf(fields, i)]), e, rest, next)
    decreases fields, 6, 0
  {
    hide *;
    if fields[i].htype.REPEATED? {
      next := ArrayTrip(fields, m, st, i, e, rest);
    } else if e == [] {
      SkippedDone(fields, m, st, i);
      StayedBack(fields, m, st, i, e, rest);
      next := st;
    } else {
      next := SingleTrip(fields, m, st, i, e, rest);
    }
  }

  lemma {:induction false} StayedBack(fields: seq<Field>, m: seq<Slot>, st: State, i: nat, e: seq<byte>, rest: seq<byte>)
    requires WellFormed(fields) && MessageShape(fields, m) && StateShape(fields, st) && i < |fields|
    requires e == [] && Between(fields, m, st, i + 1)
    ensures FieldBack(fields, m, st, i, true, e, rest, st)
  {
    assert e + rest == rest;
  }

  lemma {:induction false} SkippedDone(fields: seq<Field>, m: seq<Slot>, st: State, i: nat)
    requires WellFormed(fields) && MessageShape(fields, m) && i < |fields| && Between(fields, m, st, i)
    requires FieldShape(fields[i], m[SlotOf(fields, i)]) && !fields[i].htype.REPEATED?
    requires EncodeField(fields[i], m[SlotOf(fields, i)]) == Some([])
    ensures TerminatedField(fields[i], m[SlotOf(fields, i)]) && Between(fields, m, st, i + 1)
  {
    assert FieldShape(fields[i], st.slots[SlotOf(fields, i)]);
    NotEncoded(fields[i], m[SlotOf(fields, i)], st.slots[SlotOf(fields, i)]);
    hide Around, SameField, FieldShape, EncodeField, SlotOf, TerminatedField;
    Next(fields, m, st, i);
  }

  lemma {:induction false} KeyBytes(tag: nat, wireType: nat)
    ensures Key(tag, wireType) != []
  {}

  lemma {:induction false} NotEncoded(f: Field, s: Slot, r: Slot)
    requires WellFormedField(f) && FieldShape(f, s) && FieldShape(f, r) && !f.htype.REPEATED?
    requires EncodeField(f, s) == Some([]) && Fresh(f, r)
    ensures !f.htype.REQUIRED? && SameField(f, s, r) && TerminatedField(f, s)
  {
    hide EncodeItem, Key;
    KeyBytes(f.tag, WireType(f.ltype));
    if f.htype.OPTIONAL? {
      DefaultExactly(f, r.items[0]);
      if !HasFlag(f) {
        LeftOutIsDefault(f, s.items[0], r.items[0]);
      }
    }
  }

  // ---- a field present once ----

  /** The field is encoded, in one record. */
  ghost predicate Once(f: Field, s: Slot)
    requires FieldShape(f, s)
  {
    && !f.htype.REPEATED?
    && (f.htype.OPTIONAL? ==> Present(f, s))
    && (f.htype.ONEOF? ==> s.size == f.tag)
  }

  lemma {:induction false} RecordParts(f: Field, s: Slot, e: seq<byte>)
    requires FieldShape(f, s) && !f.htype.REPEATED? && EncodeField(f, s) == Some(e) && e != []
    ensures Once(f, s) && |s.items| == 1 && ItemShape(f, s.items[0])
    ensures EncodeItem(f, s.items[0]).Some? && e == Key(f.tag, WireType(f.ltype)) + EncodeItem(f, s.items[0]).value
    ensures TerminatedField(f, s) <==> TerminatedItem(f, s.items[0])
  {
    hide EncodeItem, Key, TerminatedItem, Present, ItemShape;
  }

  lemma {:induction false} SingleTrip(fields: seq<Field>, m: seq<Slot>, st: State, i: nat, e: seq<byte>, rest: seq<byte>) returns (next: State)
    requires WellFormed(fields) && MessageShape(fields, m) && i < |fields| && Between(fields, m, st, i)
    requires FieldShape(fields[i], m[SlotOf(fields, i)]) && !fields[i].htype.REPEATED? && StateShape(fields, st)
    requires EncodeField(fields[i], m[SlotOf(fields, i)]) == Some(e) && e != [] && |e| < TWO32
    ensures FieldBack(fields, m, st, i, TerminatedField(fields[i], m[SlotOf(fields, i)]), e, rest, next)
    decreases fields, 5, 0
  {
    hide *;
    Here(fields, m, st, i);
    var f, s, r := fields[i], m[SlotOf(fields, i)], st.slots[SlotOf(fields, i)];
    RecordParts(f, s, e);
    var item := EncodeItem(f, s.items[0]).value;
    assert e + rest == Key(f.tag, WireType(f.ltype)) + (item + rest);
    RecordTrip(f, s, r, item, rest);
    next := SingleRecord(fields, m, st, i, item, rest);
  }

  /** What the decoder of the field says to its one record. */
  ghost predicate RecordBack(f: Field, s: Slot, rest: seq<byte>, d: Parsed<Slot>)
    requires FieldShape(f, s) && Once(f, s) && (d.Some? ==> FieldShape(f, d.value.0))
  {
    if TerminatedItem(f, s.items[0]) then d.Some? && d.value.1 == rest && SameField(f, s, d.value.0) else d == None
  }

  lemma {:induction false} SingleRecord(fields: seq<Field>, m: seq<Slot>, st: State, i: nat, item: seq<byte>, rest: seq<byte>) returns (next: State)
    requires WellFormed(fields) && MessageShape(fields, m) && i < |fields| && StateShape(fields, st) && Around(fields, m, st, i)
    requires FieldShape(fields[i], m[SlotOf(fields, i)]) && FieldShape(fields[i], st.slots[SlotOf(fields, i)])
    requires Once(fields[i], m[SlotOf(fields, i)])
    requires RecordBack(fields[i], m[SlotOf(fields, i)], rest, DecodeField(fields[i], st.slots[SlotOf(fields, i)], WireType(fields[i].ltype), item + rest))
    ensures FieldBack(fields, m, st, i, TerminatedItem(fields[i], m[SlotOf(fields, i)].items[0]),
                      Key(fields[i].tag, WireType(fields[i].ltype)) + item, rest, next)
  {
    StoredAt(fields, m, st, i);
    RecordMeans(fields[i], m[SlotOf(fields, i)], rest,
                DecodeField(fields[i], st.slots[SlotOf(fields, i)], WireType(fields[i].ltype), item + rest));
    hide *;
    var f, s, r := fields[i], m[SlotOf(fields, i)], st.slots[SlotOf(fields, i)];
    var d := DecodeField(f, r, WireType(f.ltype), item + rest);
    var e := Key(f.tag, WireType(f.ltype)) + item;
    Reassociate(Key(f.tag, WireType(f.ltype)), item, rest);
    Record(fields, st, i, WireType(f.ltype), item + rest);
    next := st;
    if TerminatedItem(f, s.items[0]) {
      next := Advance(fields, st, i, d.value.0);
      SingleDone(fields, m, st, i, d.value.0);
      IsBack(fields, m, st, i, e, rest, next);
    } else {
      FailedBack(fields, m, st, i, e, rest, next);
    }
  }

  lemma {:induction false} Reassociate(a: seq<byte>, b: seq<byte>, c: seq<byte>)
    ensures a + b + c == a + (b + c)
  {}

  lemma {:induction false} StoredAt(fields: seq<Field>, m: seq<Slot>, st: State, i: nat)
    requires MessageShape(fields, m) && i < |fields| && StateShape(fields, st)
    ensures SlotOf(fields, i) < |st.slots| == |m|
  {}

  lemma {:induction false} RecordMeans(f: Field, s: Slot, rest: seq<byte>, d: Parsed<Slot>)
    requires FieldShape(f, s) && Once(f, s) && (d.Some? ==> FieldShape(f, d.value.0)) && RecordBack(f, s, rest, d)
    ensures |s.items| == 1 && (f.htype.ONEOF? ==> s.size == f.tag)
    ensures if TerminatedItem(f, s.items[0]) then d.Some? && d.value.1 == rest && SameField(f, s, d.value.0) else d == None
  {}

  lemma {:induction false} SingleDone(fields: seq<Field>, m: seq<Slot>, st: State, i: nat, s: Slot)
    requires WellFormed(fields) && MessageShape(fields, m) && i < |fields| && Around(fields, m, st, i)
    requires FieldShape(fields[i], s) && FieldShape(fields[i], m[SlotOf(fields, i)])
    requires fields[i].htype.ONEOF? ==> s.size == fields[i].tag == m[SlotOf(fields, i)].size
    requires SameField(fields[i], m[SlotOf(fields, i)], s)
    ensures StateShape(fields, Advance(fields, st, i, s)) && Between(fields, m, Advance(fields, st, i, s), i + 1)
  {
    AdvanceAround(fields, m, st, i, s);
    hide Around, SameField, FieldShape;
    Next(fields, m, Advance(fields, st, i, s), i);
  }

  /** The record of a field that is present once. */
  lemma {:induction false} RecordTrip(f: Field, s: Slot, r: Slot, item: seq<byte>, rest: seq<byte>)
    requires WellFormedField(f) && FieldShape(f, s) && FieldShape(f, r) && Fresh(f, r) && Once(f, s)
    requires EncodeItem(f, s.items[0]) == Some(item) && |item| < TWO32
    ensures RecordBack(f, s, rest, DecodeField(f, r, WireType(f.ltype), item + rest))
    decreases f, 1, 0
  {
    ZeroItemShape(f);
    DefaultItemTwice(f, ZeroItem(f));
    var was := if f.htype.ONEOF? && f.ltype.SUBMESSAGE? then DefaultItem(f, ZeroItem(f)) else r.items[0];
    ItemTrip(f, s.items[0], was, item, rest);
    hide DecodeItem, EncodeItem, TerminatedItem, SameItem, ItemShape, DefaultItem, ZeroItem;
  }

  // ---- a field that is an array ----

  lemma {:induction false} ArrayTrip(fields: seq<Field>, m: seq<Slot>, st: State, i: nat, e: seq<byte>, rest: seq<byte>) returns (next: State)
    requires WellFormed(fields) && MessageShape(fields, m) && i < |fields| && Between(fields, m, st, i)
    requires FieldShape(fields[i], m[SlotOf(fields, i)]) && fields[i].htype.REPEATED? && StateShape(fields, st)
    requires EncodeField(fields[i], m[SlotOf(fields, i)]) == Some(e) && |e| < TWO32
    ensures FieldBack(fields, m, st, i, TerminatedField(fields[i], m[SlotOf(fields, i)]), e, rest, next)
    decreases fields, 5, 0
  {
    Here(fields, m, st, i);
    ArrayParts(fields[i], m[i], e);
    var f, s, r := fields[i], m[i], st.slots[i];
    hide *;
    next := st;
    if s.size == 0 {
      EmptyArray(fields, m, st, i);
      StayedBack(fields, m, st, i, e, rest);
    } else if Packable(f.ltype) {
      next := PackedArrayTrip(fields, m, st, i, EncodeItems(f, s.items[..s.size]).value, rest);
    } else {
      assert s.items[..s.size][0..] == s.items[..s.size];
      next := RecordsTrip(fields, m, st, i, s.items[..s.size], e, rest);
    }
  }

  lemma {:induction false} ArrayParts(f: Field, s: Slot, e: seq<byte>)
    requires WellFormedField(f) && FieldShape(f, s) && f.htype.REPEATED? && EncodeField(f, s) == Some(e)
    ensures s.size <= f.arraySize == |s.items| && forall v | v in s.items :: ItemShape(f, v)
    ensures TerminatedField(f, s) <==> TerminatedItems(f, s.items[..s.size])
    ensures Packable(f.ltype) ==> TerminatedField(f, s)
    ensures s.size == 0 ==> e == [] && TerminatedField(f, s)
    ensures s.size > 0 && Packable(f.ltype) ==>
      EncodeItems(f, s.items[..s.size]).Some? && e == Key(f.tag, WT_STRING) + Delimited(EncodeItems(f, s.items[..s.size]).value)
    ensures s.size > 0 && !Packable(f.ltype) ==> EncodeTagged(f, s.items[..s.size]) == Some(e)
  {
    hide EncodeItem, EncodeItems, EncodeTagged, Key;
  }

  lemma {:induction false} EmptyArray(fields: seq<Field>, m: seq<Slot>, st: State, i: nat)
    requires WellFormed(fields) && MessageShape(fields, m) && i < |fields| && Between(fields, m, st, i)
    requires fields[i].htype.REPEATED? && m[i].size == 0
    ensures Between(fields, m, st, i + 1)
  {
    Here(fields, m, st, i);
    assert SameField(fields[i], m[i], st.slots[i]);
    hide Around, SameField, FieldShape;
    Next(fields, m, st, i);
  }

  lemma {:induction false} PackedArrayTrip(fields: seq<Field>, m: seq<Slot>, st: State, i: nat, content: seq<byte>, rest: seq<byte>) returns (next: State)
    requires WellFormed(fields) && MessageShape(fields, m) && i < |fields| && Between(fields, m, st, i) && StateShape(fields, st)
    requires fields[i].htype.REPEATED? && FieldShape(fields[i], m[i]) && Packable(fields[i].ltype)
    requires m[i].size <= fields[i].arraySize && EncodeItems(fields[i], m[i].items[..m[i].size]) == Some(content) && |content| < TWO32
    ensures FieldBack(fields, m, st, i, true, Key(fields[i].tag, WT_STRING) + Delimited(content), rest, next)
  {
    hide *;
    ArrayHere(fields, m, st, i);
    var f, s, r := fields[i], m[i], st.slots[i];
    var src := s.items[..s.size];
    assert src[0..] == src;
    PackedTrip(f, src, r);
    PackedRecord(f, r, content, rest);
    var d := DecodePacked(f, r, content).value;
    FilledIsSame(f, s, d);
    Reassociate(Key(f.tag, WT_STRING), Delimited(content), rest);
    Record(fields, st, i, WT_STRING, Delimited(content) + rest);
    next := Advance(fields, st, i, d);
    SingleDone(fields, m, st, i, d);
    IsBack(fields, m, st, i, Key(f.tag, WT_STRING) + Delimited(content), rest, next);
  }

  /** An array that has not been decoded yet is empty. */
  lemma {:induction false} ArrayHere(fields: seq<Field>, m: seq<Slot>, st: State, i: nat)
    requires WellFormed(fields) && MessageShape(fields, m) && i < |fields| && Between(fields, m, st, i)
    requires fields[i].htype.REPEATED? && FieldShape(fields[i], m[i]) && m[i].size <= fields[i].arraySize
    ensures StateShape(fields, st) && Around(fields, m, st, i) && WellFormedField(fields[i]) && SlotOf(fields, i) == i < |st.slots| == |m|
    ensures FieldShape(fields[i], st.slots[i]) && m[i].size <= |m[i].items|
    ensures var src := m[i].items[..m[i].size];
      (forall v | v in src :: ItemShape(fields[i], v)) && Filled(fields[i], src, st.slots[i]) && st.slots[i].size == 0
    ensures WT_STRING < 8
  {
    Here(fields, m, st, i);
  }

  lemma {:induction false} IsBack(fields: seq<Field>, m: seq<Slot>, st: State, i: nat, e: seq<byte>, rest: seq<byte>, next: State)
    requires WellFormed(fields) && MessageShape(fields, m) && StateShape(fields, st) && i < |fields|
    requires Between(fields, m, next, i + 1) && StateShape(fields, next) && DecodeLoop(fields, st, e + rest) == DecodeLoop(fields, next, rest)
    ensures FieldBack(fields, m, st, i, true, e, rest, next)
  {}

  lemma {:induction false} PackedRecord(f: Field, r: Slot, content: seq<byte>, rest: seq<byte>)
    requires WellFormedField(f) && f.htype.REPEATED? && FieldShape(f, r) && Packable(f.ltype) && |content| < TWO32
    requires DecodePacked(f, r, content).Some?
    ensures DecodeField(f, r, WT_STRING, Delimited(content) + rest) == Some((DecodePacked(f, r, content).value, rest))
  {
    hide DecodePacked, Delimited, TakeDelimited, FieldShape;
    DelimitedRoundTrip(content, rest);
  }

  lemma {:induction false} FilledIsSame(f: Field, s: Slot, r: Slot)
    requires f.htype.REPEATED? && FieldShape(f, s) && FieldShape(f, r) && s.size <= f.arraySize
    requires Filled(f, s.items[..s.size], r) && r.size == s.size
    ensures SameField(f, s, r)
  {
    forall k | 0 <= k < s.size && k < f.arraySize ensures SameItem(f, s.items[k], r.items[k]) {
      assert s.items[..s.size][k] == s.items[k];
    }
  }

  lemma {:induction false} EntryParts(f: Field, src: seq<Value>, c: nat, e: seq<byte>)
    requires (forall v | v in src :: ItemShape(f, v)) && c < |src| && EncodeTagged(f, src[c..]) == Some(e)
    ensures EncodeItem(f, src[c]).Some? && EncodeTagged(f, src[c + 1..]).Some?
    ensures e == Key(f.tag, WireType(f.ltype)) + EncodeItem(f, src[c]).value + EncodeTagged(f, src[c + 1..]).value
    ensures TerminatedItems(f, src[c..]) <==> TerminatedItem(f, src[c]) && TerminatedItems(f, src[c + 1..])
  {
    assert src[c..][1..] == src[c + 1..] && src[c..] == [src[c]] + src[c + 1..];
    hide EncodeItem, TerminatedItem, ItemShape, Key;
  }

  /** The decoder puts the next entry behind those it has. */
  lemma {:induction false} EntryRecord(f: Field, src: seq<Value>, r: Slot, item: seq<byte>, tail: seq<byte>)
    requires WellFormedField(f) && f.htype.REPEATED? && !Packable(f.ltype) && FieldShape(f, r)
    requires (forall v | v in src :: ItemShape(f, v)) && Filled(f, src, r) && r.size < |src|
    requires ItemBack(f, src[r.size], r.items[r.size], item, tail)
    ensures var d := DecodeField(f, r, WireType(f.ltype), item + tail);
      if TerminatedItem(f, src[r.size])
      then d.Some? && d.value.1 == tail && d.value.0.size == r.size + 1 && Filled(f, src, d.value.0)
      else d == None
  {
    hide DecodeItem, TerminatedItem, SameItem, ItemShape;
    var v := DecodeItem(f, r.items[r.size], item + tail);
    if v.Some? {
      Store(f, src, r, v.value.0);
    }
  }

  lemma {:induction false} EntriesHere(fields: seq<Field>, m: seq<Slot>, st: State, i: nat, src: seq<Value>)
    requires WellFormed(fields) && MessageShape(fields, m) && i < |fields| && StateShape(fields, st)
    requires fields[i].htype.REPEATED? && FieldShape(fields[i], m[i]) && FieldShape(fields[i], st.slots[i])
    requires m[i].size <= fields[i].arraySize && src == m[i].items[..m[i].size] && Filled(fields[i], src, st.slots[i])
    ensures WellFormedField(fields[i]) && |st.slots| == |fields| == |m|
    ensures forall v | v in src :: ItemShape(fields[i], v)
    ensures st.slots[i].size <= |src| <= |st.slots[i].items|
  {}

  lemma {:induction false} EntryTrip(f: Field, src: seq<Value>, r: Slot, item: seq<byte>, tail: seq<byte>)
    requires WellFormedField(f) && f.htype.REPEATED? && FieldShape(f, r)
    requires (forall v | v in src :: ItemShape(f, v)) && Filled(f, src, r) && r.size < |src|
    requires EncodeItem(f, src[r.size]) == Some(item) && |item| < TWO32
    ensures ItemBack(f, src[r.size], r.items[r.size], item, tail)
    decreases f, 1, 0
  {
    ItemTrip(f, src[r.size], r.items[r.size], item, tail);
  }

  lemma {:induction false} EntryAdvance(fields: seq<Field>, m: seq<Slot>, st: State, i: nat, s: Slot)
    requires WellFormed(fields) && MessageShape(fields, m) && i < |fields| && Around(fields, m, st, i)
    requires fields[i].htype.REPEATED? && FieldShape(fields[i], s)
    ensures StateShape(fields, Advance(fields, st, i, s)) && Around(fields, m, Advance(fields, st, i, s), i)
    ensures i < |Advance(fields, st, i, s).slots| && Advance(fields, st, i, s).slots[i] == s
  {
    AdvanceAround(fields, m, st, i, s);
  }

  lemma {:induction false} Regroup(a: seq<byte>, b: seq<byte>, c: seq<byte>, d: seq<byte>)
    ensures a + b + c + d == a + (b + (c + d))
  {}

  lemma {:induction false} StoredWithin(fields: seq<Field>, m: seq<Slot>, st: State, i: nat)
    requires WellFormed(fields) && MessageShape(fields, m) && i < |fields| && StateShape(fields, st)
    ensures |st.slots| == |fields| && WellFormedField(fields[i])
  {}

  lemma {:induction false} EntryStep(fields: seq<Field>, m: seq<Slot>, st: State, i: nat, src: seq<Value>, e: seq<byte>, item: seq<byte>, more: seq<byte>, rest: seq<byte>)
    returns (onward: State)
    requires WellFormed(fields) && MessageShape(fields, m) && i < |fields| && StateShape(fields, st) && Around(fields, m, st, i)
    requires fields[i].htype.REPEATED? && FieldShape(fields[i], st.slots[i]) && !Packable(fields[i].ltype)
    requires (forall v | v in src :: ItemShape(fields[i], v)) && Filled(fields[i], src, st.slots[i])
    requires st.slots[i].size < |src| && st.slots[i].size < |st.slots[i].items|
    requires e == Key(fields[i].tag, WireType(fields[i].ltype)) + item + more
    requires ItemBack(fields[i], src[st.slots[i].size], st.slots[i].items[st.slots[i].size], item, more + rest)
    ensures if TerminatedItem(fields[i], src[st.slots[i].size]) then (
        && StateShape(fields, onward) && Around(fields, m, onward, i) && i < |onward.slots|
        && onward.slots[i].size == st.slots[i].size + 1 && FieldShape(fields[i], onward.slots[i])
        && Filled(fields[i], src, onward.slots[i])
        && DecodeLoop(fields, st, e + rest) == DecodeLoop(fields, onward, more + rest))
      else DecodeLoop(fields, st, e + rest) == None
  {
    StoredWithin(fields, m, st, i);
    hide *;
    EntryRecord(fields[i], src, st.slots[i], item, more + rest);
    Regroup(Key(fields[i].tag, WireType(fields[i].ltype)), item, more, rest);
    var body := item + (more + rest);
    Record(fields, st, i, WireType(fields[i].ltype), body);
    var d := DecodeField(fields[i], st.slots[i], WireType(fields[i].ltype), body);
    onward := st;
    if d.Some? {
      onward := Advance(fields, st, i, d.value.0);
      EntryAdvance(fields, m, st, i, d.value.0);
    }
  }

  lemma {:induction false} BackEarlier(fields: seq<Field>, m: seq<Slot>, st: State, onward: State, i: nat, ok: bool,
                    e: seq<byte>, more: seq<byte>, rest: seq<byte>, next: State)
    requires WellFormed(fields) && MessageShape(fields, m) && i < |fields| && StateShape(fields, st) && StateShape(fields, onward)
    requires DecodeLoop(fields, st, e + rest) == DecodeLoop(fields, onward, more + rest)
    requires FieldBack(fields, m, onward, i, ok, more, rest, next)
    ensures FieldBack(fields, m, st, i, ok, e, rest, next)
  {
    hide DecodeLoop, Between, StateShape;
  }

  lemma {:induction false} FailedBack(fields: seq<Field>, m: seq<Slot>, st: State, i: nat, e: seq<byte>, rest: seq<byte>, next: State)
    requires WellFormed(fields) && MessageShape(fields, m) && i < |fields| && StateShape(fields, st)
    requires DecodeLoop(fields, st, e + rest) == None
    ensures FieldBack(fields, m, st, i, false, e, rest, next)
  {}

  lemma {:induction false} ArrayDone(fields: seq<Field>, m: seq<Slot>, st: State, i: nat, src: seq<Value>)
    requires WellFormed(fields) && MessageShape(fields, m) && i < |fields| && StateShape(fields, st) && Around(fields, m, st, i)
    requires fields[i].htype.REPEATED? && FieldShape(fields[i], m[i]) && FieldShape(fields[i], st.slots[i])
    requires m[i].size <= fields[i].arraySize && src == m[i].items[..m[i].size] && Filled(fields[i], src, st.slots[i])
    requires st.slots[i].size == |src|
    ensures Between(fields, m, st, i + 1) && TerminatedItems(fields[i], src[st.slots[i].size..])
    ensures EncodeTagged(fields[i], src[st.slots[i].size..]) == Some([])
  {
    FilledIsSame(fields[i], m[i], st.slots[i]);
    hide Around, SameField;
    Next(fields, m, st, i);
  }

  /** The entries from the ones already stored on, each in a record of its own. */
  lemma {:induction false} RecordsTrip(fields: seq<Field>, m: seq<Slot>, st: State, i: nat, src: seq<Value>, e: seq<byte>, rest: seq<byte>)
    returns (next: State)
    requires WellFormed(fields) && MessageShape(fields, m) && i < |fields| && StateShape(fields, st) && Around(fields, m, st, i)
    requires fields[i].htype.REPEATED? && FieldShape(fields[i], m[i]) && FieldShape(fields[i], st.slots[i]) && !Packable(fields[i].ltype)
    requires m[i].size <= fields[i].arraySize && src == m[i].items[..m[i].size] && Filled(fields[i], src, st.slots[i])
    requires EncodeTagged(fields[i], src[st.slots[i].size..]) == Some(e) && |e| < TWO32
    ensures FieldBack(fields, m, st, i, TerminatedItems(fields[i], src[st.slots[i].size..]), e, rest, next)
    decreases fields, 4, |src| - st.slots[i].size
  {
    EntriesHere(fields, m, st, i, src);
    hide *;
    var c := st.slots[i].size;
    next := st;
    if c == |src| {
      ArrayDone(fields, m, st, i, src);
      StayedBack(fields, m, st, i, e, rest);
    } else {
      EntryParts(fields[i], src, c, e);
      var item, more := EncodeItem(fields[i], src[c]).value, EncodeTagged(fields[i], src[c + 1..]).value;
      EntryTrip(fields[i], src, st.slots[i], item, more + rest);
      var onward := EntryStep(fields, m, st, i, src, e, item, more, rest);
      if TerminatedItem(fields[i], src[c]) {
        next := RecordsTrip(fields, m, onward, i, src, more, rest);
        BackEarlier(fields, m, st, onward, i, TerminatedItems(fields[i], src[c + 1..]), e, more, rest, next);
      } else {
        FailedBack(fields, m, st, i, e, rest, next);
      }
    }
  }

  // ---- the round trip ----

  /** pb_decode of what pb_encode wrote: it succeeds exactly when the encoded strings were terminated, it
      then consumes every byte and gives the message back, whatever the destination held before. */
  lemma {:induction false} RoundTrip(fields: seq<Field>, m: seq<Slot>, dest: seq<Slot>)
    requires WellFormed(fields) && MessageShape(fields, m) && MessageShape(fields, dest)
    requires EncodeMessage(fields, m).Some? && |EncodeMessage(fields, m).value| < TWO32
    ensures var r := Decode(fields, dest, EncodeMessage(fields, m).value);
      && (r.Some? <==> Terminated(fields, m))
      && (r.Some? ==> r.value.1 == [] && SameMessage(fields, m, r.value.0))
  {
    DecodeResets(fields, dest, EncodeMessage(fields, m).value);
    DefaultsTwice(fields, dest);
    hide EncodeFrom, DecodeNoInit, SetDefaults, SameMessage, TerminatedFrom, MessageShape, WellFormed, Decode, SlotsShape;
    MessageTrip(fields, m, SetDefaults(fields, dest), EncodeMessage(fields, m).value);
  }

  /** A string that fills its array: one letter in a member of one byte. */
  lemma {:induction false} UnterminatedExample(dest: seq<Slot>)
    requires MessageShape([Field(1, STRING, REQUIRED, 0, 0, 1, 0, None)], dest)
    ensures var fields, m := [Field(1, STRING, REQUIRED, 0, 0, 1, 0, None)], [Slot(0, [Blob([65])])];
      && WellFormed(fields) && MessageShape(fields, m) && EncodeMessage(fields, m).Some?
      && Decode(fields, dest, EncodeMessage(fields, m).value) == None
  {
    var f, s := Field(1, STRING, REQUIRED, 0, 0, 1, 0, None), Slot(0, [Blob([65])]);
    assert WellFormedField(f) && FieldShape(f, s) && !TerminatedField(f, s);
    assert MessageShape([f], [s]) && WellFormed([f]);
    SmallMessage(f, s);
    hide *;
    RoundTrip([f], [s], dest);
  }

  lemma {:induction false} OneByte()
    ensures |Varint(10)| == 1 && |Varint(1)| == 1
  {}

  lemma {:induction false} SmallMessage(f: Field, s: Slot)
    requires f == Field(1, STRING, REQUIRED, 0, 0, 1, 0, None) && s == Slot(0, [Blob([65])])
    requires WellFormed([f]) && MessageShape([f], [s])
    ensures EncodeMessage([f], [s]).Some? && |EncodeMessage([f], [s]).value| < TWO32 && !Terminated([f], [s])
  {
    hide Varint;
    EncodeStep([f], [s], 0);
    assert EncodeItem(f, s.items[0]) == Some(Delimited([65]));
    assert EncodeField(f, s) == Some(Tag(f) + Delimited([65]));
    assert |Tag(f)| == 1 && |Delimited([65])| == 2 by { OneByte(); }
    assert !TerminatedFrom([f], [s], 0);
  }
}
