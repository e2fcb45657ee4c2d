/** What pb_decode has stored stays within its members, so it can be encoded again and comes back the same. */
module PbStored {
  import opened Bits
  import opened Wire
  import opened PbTypes
  import opened PbFormat
  import opened PbParse
  import opened PbRoundTrip
  import opened PbMessageTrip

  // ---- values that fit their members ----

  /** Bytes with their size, strings with their NUL. */
  predicate StoredItem(f: Field, v: Value)
    requires ItemShape(f, v)
    decreases f, 0
  {
    match f.ltype
    case BYTES => |v.b| + 1 <= f.dataSize
    case STRING => |v.b| + 1 <= f.dataSize
    case SUBMESSAGE(sub) => Stored(sub, v.slots)
    case _ => true
  }

  /** No more entries than there is room for. */
  predicate StoredField(f: Field, s: Slot)
    requires FieldShape(f, s)
    decreases f, 1
  {
    match f.htype
    case REQUIRED => StoredItem(f, s.items[0])
    case OPTIONAL => StoredItem(f, s.items[0])
    case REPEATED => s.size <= f.arraySize && forall k | 0 <= k < s.size && k < f.arraySize :: StoredItem(f, s.items[k])
    case ONEOF => s.size == f.tag ==> StoredItem(f, s.items[0])
  }

  predicate Stored(fields: seq<Field>, m: seq<Slot>)
    requires MessageShape(fields, m)
    decreases fields, 2
  {
    forall i | 0 <= i < |fields| :: FieldShape(fields[i], m[SlotOf(fields, i)]) && StoredField(fields[i], m[SlotOf(fields, i)])
  }

  /** Members of strings and bytes are not empty arrays, and declared defaults fit them. */
  predicate DefaultsFitField(f: Field)
    requires WellFormedField(f)
    decreases f, 0
  {
    match f.ltype
    case BYTES => f.dataSize >= 1 && (f.ptr.Some? ==> |f.ptr.value.b| + 1 <= f.dataSize)
    case STRING => f.dataSize >= 1 && (f.ptr.Some? ==> |f.ptr.value.b| + 1 <= f.dataSize)
    case SUBMESSAGE(sub) => DefaultsFit(sub)
    case _ => true
  }

  predicate DefaultsFit(fields: seq<Field>)
    requires WellFormed(fields)
    decreases fields, 1
  {
    forall i | 0 <= i < |fields| :: DefaultsFitField(fields[i])
  }

  // ---- defaults ----

  lemma {:induction false} DefaultStored(f: Field, v: Value)
    requires WellFormedField(f) && DefaultsFitField(f) && ItemShape(f, v)
    ensures ItemShape(f, DefaultItem(f, v)) && StoredItem(f, DefaultItem(f, v))
    decreases f, 0
  {
    DefaultItemShape(f, v);
    match f.ltype
    case SUBMESSAGE(sub) => ResetStored(sub, v.slots);
    case _ =>
  }

  lemma {:induction false} ResetStored(fields: seq<Field>, slots: seq<Slot>)
    requires WellFormed(fields) && DefaultsFit(fields) && MessageShape(fields, slots)
    ensures SlotsShape(fields, slots) && MessageShape(fields, SetDefaults(fields, slots)) && Stored(fields, SetDefaults(fields, slots))
    decreases fields, 2
  {
    DefaultsShape(fields, slots);
    var r := SetDefaults(fields, slots);
    forall i | 0 <= i < |fields| ensures FieldShape(fields[i], r[SlotOf(fields, i)]) && StoredField(fields[i], r[SlotOf(fields, i)]) {
      assert FieldShape(fields[i], slots[SlotOf(fields, i)]) && FieldShape(fields[i], r[SlotOf(fields, i)]);
      if fields[i].htype.REQUIRED? || fields[i].htype.OPTIONAL? {
        DefaultStored(fields[i], slots[i].items[0]);
      }
    }
  }

  // ---- decoding ----

  lemma {:induction false} ItemStored(f: Field, was: Value, b: seq<byte>)
    requires WellFormedField(f) && DefaultsFitField(f) && (f.ltype.SUBMESSAGE? ==> ItemShape(f, was)) && DecodeItem(f, was, b).Some?
    requires f.ltype.SUBMESSAGE? ==> f.htype.REPEATED? || StoredItem(f, was)
    ensures StoredItem(f, DecodeItem(f, was, b).value.0)
    decreases f, |b|, 0, 0
  {
    if f.ltype.SUBMESSAGE? {
      var sub := f.ltype.fields;
      OwnSlots(sub, was.slots);
      DefaultsShape(sub, was.slots);
      ResetStored(sub, was.slots);
      var start := if f.htype.REPEATED? then SetDefaults(sub, was.slots) else was.slots;
      MessageStored(sub, start, TakeDelimited(b).value.0);
    }
    hide DecodeVarint, DecodeVarint32, DecodeNoInit, SetDefaults, MessageShape, Stored, WellFormed, DefaultsFit;
  }

  lemma {:induction false} PackedStored(f: Field, s: Slot, b: seq<byte>)
    requires WellFormedField(f) && DefaultsFitField(f) && f.htype.REPEATED? && Packable(f.ltype) && FieldShape(f, s) && StoredField(f, s)
    requires DecodePacked(f, s, b).Some?
    ensures StoredField(f, DecodePacked(f, s, b).value)
    decreases f, |b|, 1, 0
  {
    hide DecodeItem, ItemShape;
    if b != [] {
      var item := DecodeItem(f, s.items[s.size], b).value;
      PackedStored(f, Slot(s.size + 1, s.items[s.size := item.0]), item.1);
    }
  }

  lemma {:induction false} FieldStored(f: Field, s: Slot, wireType: nat, b: seq<byte>)
    requires WellFormedField(f) && DefaultsFitField(f) && FieldShape(f, s) && StoredField(f, s)
    requires DecodeField(f, s, wireType, b).Some?
    ensures StoredField(f, DecodeField(f, s, wireType, b).value.0)
    decreases f, |b|, 3, 0
  {
    match f.htype
    case REQUIRED =>
      ItemStored(f, s.items[0], b);
      hide DecodeItem, ItemShape, StoredItem;
    case OPTIONAL =>
      ItemStored(f, s.items[0], b);
      hide DecodeItem, ItemShape, StoredItem;
    case REPEATED =>
      RepeatedStored(f, s, wireType, b);
    case ONEOF =>
      ZeroItemShape(f);
      DefaultStored(f, ZeroItem(f));
      ItemStored(f, if f.ltype.SUBMESSAGE? then DefaultItem(f, ZeroItem(f)) else s.items[0], b);
      hide DecodeItem, ItemShape, StoredItem, DefaultItem, ZeroItem;
  }

  lemma {:induction false} RepeatedStored(f: Field, s: Slot, wireType: nat, b: seq<byte>)
    requires WellFormedField(f) && DefaultsFitField(f) && f.htype.REPEATED? && FieldShape(f, s) && StoredField(f, s)
    requires DecodeRepeated(f, s, wireType, b).Some?
    ensures StoredField(f, DecodeRepeated(f, s, wireType, b).value.0)
    decreases f, |b|, 2, 0
  {
    if wireType == WT_STRING && Packable(f.ltype) {
      PackedStored(f, s, TakeDelimited(b).value.0);
      hide DecodePacked, TakeDelimited, FieldShape, StoredField;
    } else {
      ItemStored(f, s.items[s.size], b);
      hide DecodeItem, ItemShape, StoredItem;
    }
  }

  lemma {:induction false} LoopStored(fields: seq<Field>, st: State, b: seq<byte>)
    requires WellFormed(fields) && DefaultsFit(fields) && StateShape(fields, st) && Stored(fields, st.slots)
    requires DecodeLoop(fields, st, b).Some?
    ensures Stored(fields, DecodeLoop(fields, st, b).value.0.slots)
    decreases fields, |b|, 4, 0
  {
    if b != [] && DecodeTag(b).Found? {
      var key := DecodeTag(b);
      match Find(fields, st.pos, key.tag)
      case NotFound =>
        hide Stored, DecodeField;
        LoopStored(fields, st, SkipField(key.wireType, key.rest).value);
      case At(i) =>
        var k := SlotOf(fields, i);
        assert FieldShape(fields[i], st.slots[k]) && StoredField(fields[i], st.slots[k]);
        var d := DecodeField(fields[i], st.slots[k], key.wireType, key.rest).value;
        FieldStored(fields[i], st.slots[k], key.wireType, key.rest);
        StoreShape(fields, st.slots, i, d.0);
        StoredAfter(fields, st.slots, i, d.0);
        hide Stored, DecodeField, StoredField, FieldShape, WellFormed, DefaultsFit, StateShape, MessageShape;
        LoopStored(fields, State(st.slots[k := d.0], i, Mark(fields, i, st.seen)), d.1);
      case Terminator =>
    }
  }

  lemma {:induction false} StoredAfter(fields: seq<Field>, m: seq<Slot>, i: nat, s: Slot)
    requires WellFormed(fields) && MessageShape(fields, m) && Stored(fields, m) && i < |fields|
    requires FieldShape(fields[i], s) && StoredField(fields[i], s) && (fields[i].htype.ONEOF? ==> s.size == fields[i].tag)
    requires MessageShape(fields, m[SlotOf(fields, i) := s])
    ensures Stored(fields, m[SlotOf(fields, i) := s])
  {
    var after := m[SlotOf(fields, i) := s];
    forall j | 0 <= j < |fields| ensures FieldShape(fields[j], after[SlotOf(fields, j)]) && StoredField(fields[j], after[SlotOf(fields, j)]) {
      assert FieldShape(fields[j], after[SlotOf(fields, j)]);
      if j != i && SlotOf(fields, j) == SlotOf(fields, i) {
        assert fields[j].htype.ONEOF? && fields[i].htype.ONEOF? && fields[j].tag != fields[i].tag;
      }
    }
  }

  lemma {:induction false} MessageStored(fields: seq<Field>, start: seq<Slot>, b: seq<byte>)
    requires WellFormed(fields) && DefaultsFit(fields) && MessageShape(fields, start) && Stored(fields, start)
    requires DecodeNoInit(fields, start, b).Some?
    ensures Stored(fields, DecodeNoInit(fields, start, b).value.0)
    decreases fields, |b|, 5, 0
  {
    assert StateShape(fields, State(start, 0, {}));
    hide Stored, DecodeLoop, MessageShape, WellFormed, DefaultsFit, Complete;
    LoopStored(fields, State(start, 0, {}), b);
  }

  // ---- encoding ----

  lemma {:induction false} ItemEncodes(f: Field, v: Value)
    requires WellFormedField(f) && ItemShape(f, v) && StoredItem(f, v)
    ensures EncodeItem(f, v).Some? && TerminatedItem(f, v)
    decreases f, 0, 0
  {
    match f.ltype
    case SUBMESSAGE(sub) => FromEncodes(sub, v.slots, 0);
    case _ =>
  }

  lemma {:induction false} ItemsEncode(f: Field, items: seq<Value>)
    requires WellFormedField(f) && forall v | v in items :: ItemShape(f, v) && StoredItem(f, v)
    ensures EncodeItems(f, items).Some? && EncodeTagged(f, items).Some? && TerminatedItems(f, items)
    decreases f, 1, |items|
  {
    if items != [] {
      ItemEncodes(f, items[0]);
      ItemsEncode(f, items[1..]);
      assert items == [items[0]] + items[1..];
      hide EncodeItem, ItemShape, StoredItem, TerminatedItem;
    }
  }

  lemma {:induction false} FieldEncodes(f: Field, s: Slot)
    requires WellFormedField(f) && FieldShape(f, s) && StoredField(f, s)
    ensures EncodeField(f, s).Some? && TerminatedField(f, s)
    decreases f, 3, 0
  {
    match f.htype
    case REQUIRED => ItemEncodes(f, s.items[0]);
    case OPTIONAL =>
      ItemEncodes(f, s.items[0]);
      hide EncodeItem, ItemShape, StoredItem, TerminatedItem, Present;
    case ONEOF =>
      if s.size == f.tag {
        ItemEncodes(f, s.items[0]);
      }
    case REPEATED =>
      ArrayEncodes(f, s);
  }

  lemma {:induction false} ArrayEncodes(f: Field, s: Slot)
    requires WellFormedField(f) && f.htype.REPEATED? && FieldShape(f, s) && StoredField(f, s)
    ensures EncodeField(f, s).Some? && TerminatedField(f, s)
    decreases f, 2, 0
  {
    var items := s.items[..s.size];
    forall v | v in items ensures ItemShape(f, v) && StoredItem(f, v) {
      var k :| 0 <= k < |items| && items[k] == v;
      assert s.items[k] == v && v in s.items;
    }
    ItemsEncode(f, items);
    hide EncodeItems, EncodeTagged, ItemShape, StoredItem, TerminatedItems;
  }

  lemma {:induction false} FromEncodes(fields: seq<Field>, m: seq<Slot>, i: nat)
    requires WellFormed(fields) && MessageShape(fields, m) && Stored(fields, m) && i <= |fields|
    ensures EncodeFrom(fields, m, i).Some? && TerminatedFrom(fields, m, i)
    decreases fields, 4, |fields| - i
  {
    hide *;
    if i < |fields| {
      StoredHere(fields, m, i);
      FieldEncodes(fields[i], m[SlotOf(fields, i)]);
      EncodeStep(fields, m, i);
      FromEncodes(fields, m, i + 1);
      FirstEncodes(fields, m, i);
    } else {
      NoneEncodes(fields, m);
    }
  }

  lemma {:induction false} StoredHere(fields: seq<Field>, m: seq<Slot>, i: nat)
    requires WellFormed(fields) && MessageShape(fields, m) && Stored(fields, m) && i < |fields|
    ensures SlotOf(fields, i) < |m| && FieldShape(fields[i], m[SlotOf(fields, i)]) && StoredField(fields[i], m[SlotOf(fields, i)])
    ensures WellFormedField(fields[i])
  {}

  lemma {:induction false} FirstEncodes(fields: seq<Field>, m: seq<Slot>, i: nat)
    requires MessageShape(fields, m) && i < |fields| && SlotOf(fields, i) < |m| && FieldShape(fields[i], m[SlotOf(fields, i)])
    requires EncodeField(fields[i], m[SlotOf(fields, i)]).Some? && TerminatedField(fields[i], m[SlotOf(fields, i)])
    requires EncodeFrom(fields, m, i + 1).Some? && TerminatedFrom(fields, m, i + 1)
    ensures EncodeFrom(fields, m, i).Some? && TerminatedFrom(fields, m, i)
  {
    hide EncodeField, TerminatedField, FieldShape, MessageShape, SlotOf;
  }

  lemma {:induction false} NoneEncodes(fields: seq<Field>, m: seq<Slot>)
    requires MessageShape(fields, m)
    ensures EncodeFrom(fields, m, |fields|).Some? && TerminatedFrom(fields, m, |fields|)
  {}

  /** Whatever pb_decode accepts, it has stored within its members: every count within its array, bytes and strings
      within theirs. So it can be encoded, its strings are terminated, and decoding what was encoded gives the same
      message again, whatever struct it goes into. */
  lemma {:induction false} DecodedComesBack(fields: seq<Field>, dest: seq<Slot>, b: seq<byte>, other: seq<Slot>)
    requires WellFormed(fields) && DefaultsFit(fields) && MessageShape(fields, dest) && MessageShape(fields, other)
    requires Decode(fields, dest, b).Some?
    ensures var m := Decode(fields, dest, b).value.0;
      && Stored(fields, m) && EncodeMessage(fields, m).Some? && Terminated(fields, m)
      && (|EncodeMessage(fields, m).value| < TWO32 ==>
            var r := Decode(fields, other, EncodeMessage(fields, m).value);
            r.Some? && r.value.1 == [] && SameMessage(fields, m, r.value.0))
  {
    hide *;
    DecodeResets(fields, dest, b);
    ResetStored(fields, dest);
    MessageStored(fields, SetDefaults(fields, dest), b);
    var m := Decode(fields, dest, b).value.0;
    WholeEncodes(fields, m);
    if |EncodeMessage(fields, m).value| < TWO32 {
      RoundTrip(fields, m, other);
    }
  }

  lemma {:induction false} WholeEncodes(fields: seq<Field>, m: seq<Slot>)
    requires WellFormed(fields) && MessageShape(fields, m) && Stored(fields, m)
    ensures EncodeMessage(fields, m).Some? && Terminated(fields, m)
  {
    hide EncodeFrom, TerminatedFrom, Stored;
    FromEncodes(fields, m, 0);
  }
}
