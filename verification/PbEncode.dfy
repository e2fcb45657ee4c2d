/** pb_encode.c over streams: the same code counts into a sizing stream and writes into a buffer. */
module PbEncode {
  import opened Bits
  import opened Wire
  import opened PbTypes
  import opened PbFormat
  import opened PbStream
  import opened PbPut
  import opened PbIterator
  import F = PbFormat

  // ---- sizes fit size_t ----

  predicate Short(e: Encoded) {
    e.Some? ==> |e.value| < TWO64
  }

  /** size_t holds the encoded size of every embedded message. */
  predicate MeasurableItem(f: Field, v: Value)
    requires ItemShape(f, v)
    decreases f, 0
  {
    match f.ltype
    case SUBMESSAGE(sub) => MeasurableFrom(sub, v.slots, 0) && Short(EncodeFrom(sub, v.slots, 0))
    case _ => true
  }

  predicate MeasurableField(f: Field, s: Slot)
    requires FieldShape(f, s)
    decreases f, 1
  {
    match f.htype
    case REPEATED => forall v | v in s.items :: MeasurableItem(f, v)
    case ONEOF => s.size == f.tag ==> MeasurableItem(f, s.items[0])
    case _ => MeasurableItem(f, s.items[0])
  }

  predicate MeasurableFrom(fields: seq<Field>, m: seq<Slot>, i: nat)
    requires MessageShape(fields, m) && i <= |fields|
    decreases fields, 2, |fields| - i
  {
    i < |fields| ==>
      FieldShape(fields[i], m[SlotOf(fields, i)]) && MeasurableField(fields[i], m[SlotOf(fields, i)]) && MeasurableFrom(fields, m, i + 1)
  }

  // ---- the part already encoded ----

  /** The encoding of the fields before position `i`. */
  ghost function EncodeUpto(fields: seq<Field>, m: seq<Slot>, i: nat): Encoded
    requires MessageShape(fields, m) && i <= |fields|
    decreases i
  {
    if i == 0 then Some([])
    else
      EncodeStep(fields, m, i - 1);
      Cat(EncodeUpto(fields, m, i - 1), EncodeField(fields[i - 1], m[SlotOf(fields, i - 1)]))
  }

  lemma {:induction false} CatAssoc(a: Encoded, b: Encoded, c: Encoded)
    ensures Cat(Cat(a, b), c) == Cat(a, Cat(b, c))
  {
    if a.Some? && b.Some? && c.Some? {
      assert (a.value + b.value) + c.value == a.value + (b.value + c.value);
    }
  }

  lemma {:induction false} UptoAndFrom(fields: seq<Field>, m: seq<Slot>, i: nat)
    requires MessageShape(fields, m) && i <= |fields|
    ensures Cat(EncodeUpto(fields, m, i), EncodeFrom(fields, m, i)) == EncodeMessage(fields, m)
    decreases i
  {
    if i == 0 {
      NothingBefore(EncodeFrom(fields, m, 0));
    } else {
      EncodeStep(fields, m, i - 1);
      CatAssoc(EncodeUpto(fields, m, i - 1), EncodeField(fields[i - 1], m[SlotOf(fields, i - 1)]), EncodeFrom(fields, m, i));
      hide EncodeFrom, EncodeField, Cat, MessageShape, SlotOf;
      UptoAndFrom(fields, m, i - 1);
    }
  }

  lemma {:induction false} NothingBefore(e: Encoded)
    ensures Cat(Some([]), e) == e && Cat(e, Some([])) == e
  {
    if e.Some? {
      assert [] + e.value == e.value && e.value + [] == e.value;
    }
  }

  lemma {:induction false} MeasurableAt(fields: seq<Field>, m: seq<Slot>, i: nat, j: nat)
    requires MessageShape(fields, m) && i <= j < |fields| && MeasurableFrom(fields, m, i)
    ensures FieldShape(fields[j], m[SlotOf(fields, j)]) && MeasurableField(fields[j], m[SlotOf(fields, j)])
    decreases j - i
  {
    hide FieldShape, MeasurableField, MessageShape, SlotOf;
    if i < j {
      MeasurableAt(fields, m, i + 1, j);
    }
  }

  // ---- presence ----

  /** pb_check_proto3_default_value. */
  method CheckDefault(f: Field, s: Slot) returns (b: bool)
    requires WellFormedField(f) && FieldShape(f, s)
    ensures b == IsDefault(f, s)
    decreases f, 1
  {
    if f.htype.REQUIRED? {
      return false;
    } else if f.htype.REPEATED? || f.htype.ONEOF? {
      return s.size == 0;
    } else if f.sizeOffset != 0 {
      return s.size == 0;
    }
    match f.ltype
    case BYTES => return s.items[0].b == [];
    case STRING => return s.items[0].b == [];
    case FIXED_LENGTH_BYTES => return f.dataSize == 0;
    case SUBMESSAGE(sub) => b := CheckAllDefault(sub, s.items[0].slots);
    case _ => return s.items[0].n == 0;
  }

  ghost predicate DefaultAt(fields: seq<Field>, slots: seq<Slot>, j: nat)
    requires MessageShape(fields, slots) && j < |fields|
  {
    FieldShape(fields[j], slots[SlotOf(fields, j)]) && IsDefault(fields[j], slots[SlotOf(fields, j)])
  }

  lemma {:induction false} AllDefaultAt(fields: seq<Field>, slots: seq<Slot>)
    requires MessageShape(fields, slots)
    ensures AllDefault(fields, slots) <==> forall j | 0 <= j < |fields| :: DefaultAt(fields, slots, j)
  {
    hide IsDefault, SlotOf, FieldShape;
    forall j | 0 <= j < |fields|
      ensures FieldShape(fields[j], slots[SlotOf(fields, j)])
      ensures DefaultAt(fields, slots, j) <==> IsDefault(fields[j], slots[SlotOf(fields, j)])
    {
      assert FieldShape(fields[j], slots[SlotOf(fields, j)]);
    }
  }

  lemma {:induction false} SlotHere(fields: seq<Field>, slots: seq<Slot>, i: nat)
    requires WellFormed(fields) && MessageShape(fields, slots) && i < |fields|
    ensures SlotOf(fields, i) < |slots| && FieldShape(fields[i], slots[SlotOf(fields, i)]) && WellFormedField(fields[i])
  {
    assert FieldShape(fields[i], slots[SlotOf(fields, i)]);
  }

  lemma {:induction false} DefaultHere(fields: seq<Field>, slots: seq<Slot>, i: nat)
    requires MessageShape(fields, slots) && i < |fields| && FieldShape(fields[i], slots[SlotOf(fields, i)])
    ensures DefaultAt(fields, slots, i) <==> IsDefault(fields[i], slots[SlotOf(fields, i)])
  {
    hide IsDefault, SlotOf, FieldShape, MessageShape;
  }

  method CheckAllDefault(fields: seq<Field>, slots: seq<Slot>) returns (b: bool)
    requires WellFormed(fields) && MessageShape(fields, slots)
    ensures b == AllDefault(fields, slots)
    decreases fields, 2
  {
    hide *;
    AllDefaultAt(fields, slots);
    var iter := new FieldIter(fields, 0);
    var more := iter.Begin();
    ghost var i := 0;
    while more
      invariant iter.InStep() && i <= |fields|
      invariant if more then iter.pos == i < |fields| else i == |fields|
      invariant forall j | 0 <= j < i :: DefaultAt(fields, slots, j)
      decreases |fields| - i
    {
      SlotHere(fields, slots, i);
      DefaultHere(fields, slots, i);
      var default := CheckDefault(fields[iter.pos], slots[SlotOf(fields, iter.pos)]);
      if !default {
        return false;
      }
      more := iter.Next();
      i := i + 1;
    }
    return true;
  }

  // ---- values, arrays, fields, messages ----

  lemma {:induction false} MessageParts(f: Field, sub: seq<Field>, v: Value)
    requires WellFormedField(f) && ItemShape(f, v) && f.ltype == SUBMESSAGE(sub)
    ensures WellFormed(sub) && v.Struct? && MessageShape(sub, v.slots)
    ensures MeasurableItem(f, v) ==> MeasurableFrom(sub, v.slots, 0) && Short(EncodeFrom(sub, v.slots, 0))
    ensures F.EncodeItem(f, v)
         == if EncodeFrom(sub, v.slots, 0).Some? then Some(Delimited(EncodeFrom(sub, v.slots, 0).value)) else None
  {
    hide EncodeFrom, MeasurableFrom, WellFormed, MessageShape;
  }

  /** The encoder of a value, by the type of its field. */
  method EncodeItem(stream: OStream, f: Field, v: Value) returns (ok: bool)
    requires Roomy(stream.Now()) && WellFormedField(f) && ItemShape(f, v) && MeasurableItem(f, v)
    modifies stream`state, stream`bytesWritten, stream.buffer
    ensures Puts(old(stream.Now()), F.EncodeItem(f, v), ok, stream.Now())
    decreases f, 0, 0
  {
    if f.ltype.SUBMESSAGE? {
      hide *;
      MessageParts(f, f.ltype.fields, v);
      ok := EncodeSubmessage(stream, f.ltype.fields, v.slots);
    } else {
      ok := EncodeScalar(stream, f, v);
    }
  }

  method EncodeScalar(stream: OStream, f: Field, v: Value) returns (ok: bool)
    requires Roomy(stream.Now()) && WellFormedField(f) && ItemShape(f, v) && !f.ltype.SUBMESSAGE?
    modifies stream`state, stream`bytesWritten, stream.buffer
    ensures Puts(old(stream.Now()), F.EncodeItem(f, v), ok, stream.Now())
  {
    hide Puts, Roomy, Varint, LittleEndian, Delimited, SignedFits, UnsignedFits, ZigZag;
    Fails(stream.Now(), None);
    match f.ltype
    case VARINT =>
      if f.dataSize == 1 || f.dataSize == 2 || f.dataSize == 4 || f.dataSize == 8 {
        ok := EncodeVarint(stream, ToWord(v.n));
      } else {
        ok := false;
      }
    case UVARINT =>
      if f.dataSize == 1 || f.dataSize == 2 || f.dataSize == 4 || f.dataSize == 8 {
        ok := EncodeVarint(stream, v.n);
      } else {
        ok := false;
      }
    case SVARINT =>
      if f.dataSize == 1 || f.dataSize == 2 || f.dataSize == 4 || f.dataSize == 8 {
        ok := EncodeSvarint(stream, v.n);
      } else {
        ok := false;
      }
    case FIXED32 => ok := EncodeFixed32(stream, v.n);
    case FIXED64 => ok := EncodeFixed64(stream, v.n);
    case BYTES =>
      if |v.b| + 1 > f.dataSize {
        ok := false;
      } else {
        ok := EncodeString(stream, v.b);
      }
    case STRING =>
      var size := 0;
      while size < f.dataSize && size < |v.b|
        invariant size <= |v.b|
      {
        size := size + 1;
      }
      assert v.b[..size] == v.b;
      ok := EncodeString(stream, v.b[..size]);
    case FIXED_LENGTH_BYTES => ok := EncodeString(stream, v.b);
  }

  /** pb_encode_submessage: the first pass counts, the second writes as many bytes. */
  method EncodeSubmessage(stream: OStream, fields: seq<Field>, slots: seq<Slot>) returns (ok: bool)
    requires Roomy(stream.Now()) && WellFormed(fields) && MessageShape(fields, slots)
    requires MeasurableFrom(fields, slots, 0) && Short(EncodeFrom(fields, slots, 0))
    modifies stream`state, stream`bytesWritten, stream.buffer
    ensures Puts(old(stream.Now()),
                 if EncodeFrom(fields, slots, 0).Some? then Some(Delimited(EncodeFrom(fields, slots, 0).value)) else None,
                 ok, stream.Now())
    decreases fields, 4, 1
  {
    ghost var e := EncodeFrom(fields, slots, 0);
    ghost var before := stream.Now();
    Nothing(before);
    Fails(before, None);
    hide EncodeFrom, MeasurableFrom, WellFormed, MessageShape, Puts, Varint;
    var substream := new OStream.Sizing();
    var status := Encode(substream, fields, slots);
    CountExact(e, status, substream.Now());
    if !status {
      return false;
    }
    var size := substream.bytesWritten;
    status := EncodeVarint(stream, size);
    ghost var middle := stream.Now();
    if !status {
      Stops(before, Some(Varint(size)), middle, e);
      return false;
    }
    RoomLeft(before, Some(Varint(size)), true, middle);
    if !stream.callback {
      ok := stream.WriteNull(size);
      Counted(middle, e, stream.Now());
      Then(before, Some(Varint(size)), middle, e, true, stream.Now());
      return;
    }
    if stream.bytesWritten + size > stream.maxSize {
      Fails(middle, e);
      Then(before, Some(Varint(size)), middle, e, false, middle);
      return false;
    }
    ok := WriteEmbedded(stream, substream, fields, slots, size);
    Then(before, Some(Varint(size)), middle, e, ok, stream.Now());
  }

  /** The second pass of pb_encode_submessage, through a substream limited to the counted size. */
  method WriteEmbedded(stream: OStream, substream: OStream, fields: seq<Field>, slots: seq<Slot>, size: nat) returns (ok: bool)
    requires stream != substream && WellFormed(fields) && MessageShape(fields, slots) && MeasurableFrom(fields, slots, 0)
    requires EncodeFrom(fields, slots, 0).Some? && size == |EncodeFrom(fields, slots, 0).value|
    requires Roomy(stream.Now()) && stream.callback && stream.bytesWritten + size <= stream.maxSize
    modifies stream`state, stream`bytesWritten, stream.buffer, substream
    ensures ok && Puts(old(stream.Now()), EncodeFrom(fields, slots, 0), true, stream.Now())
    decreases fields, 4, 0
  {
    hide EncodeFrom, MeasurableFrom, WellFormed, MessageShape, Puts;
    ghost var e := EncodeFrom(fields, slots, 0);
    ghost var before := stream.Now();
    substream.callback, substream.buffer := true, stream.buffer;
    substream.state, substream.maxSize, substream.bytesWritten := stream.state, size, 0;
    assert substream.Now() == Out(false, before.buf, before.state, size, 0);
    var status := Encode(substream, fields, slots);
    stream.bytesWritten := stream.bytesWritten + substream.bytesWritten;
    stream.state := substream.state;
    Embedded(before, e, substream.Now(), status, stream.Now());
    // so the error "submsg size changed" is not reachable
    assert substream.bytesWritten == size;
    return substream.bytesWritten == size && status;
  }

  /** A fresh sizing stream ends with the length of the encoding. */
  lemma {:induction false} CountExact(e: Encoded, ok: bool, r: Out)
    requires Puts(Out(true, [], 0, 0, 0), e, ok, r)
    ensures ok <==> e.Some?
    ensures ok ==> r.written == |e.value|
  {}

  lemma {:induction false} Counted(o: Out, e: Encoded, r: Out)
    requires o.sizing && e.Some? && r == o.(written := o.written + |e.value|)
    ensures Puts(o, e, true, r)
  {}

  /** The second pass through a stream limited to the counted size. */
  lemma {:induction false} Embedded(o: Out, e: Encoded, sub: Out, ok: bool, r: Out)
    requires Roomy(o) && !o.sizing && e.Some? && Fits(o, |e.value|)
    requires Puts(Out(false, o.buf, o.state, |e.value|, 0), e, ok, sub)
    requires r == Out(false, sub.buf, sub.state, o.max, o.written + sub.written)
    ensures ok && sub.written == |e.value| && Puts(o, e, true, r)
  {}

  // ---- arrays ----

  lemma {:induction false} FixedItems(f: Field, items: seq<Value>, width: nat)
    requires (f.ltype.FIXED32? && width == 4) || (f.ltype.FIXED64? && width == 8)
    requires forall v | v in items :: ItemShape(f, v)
    ensures EncodeItems(f, items).Some? && |EncodeItems(f, items).value| == width * |items|
  {
    if items != [] {
      FixedItems(f, items[1..], width);
    }
  }

  lemma {:induction false} NumberTen(f: Field, v: Value)
    requires WellFormedField(f) && Packable(f.ltype) && ItemShape(f, v)
    ensures F.EncodeItem(f, v).Some? && |F.EncodeItem(f, v).value| <= 10
  {
    hide Varint, SignedFits, UnsignedFits, LittleEndian;
    match f.ltype
    case VARINT => VarintTen(ToWord(v.n));
    case UVARINT => VarintTen(v.n);
    case SVARINT => VarintTen(ZigZag(v.n));
    case FIXED32 =>
    case FIXED64 =>
  }

  lemma {:induction false} NumberItems(f: Field, items: seq<Value>)
    requires WellFormedField(f) && Packable(f.ltype) && forall v | v in items :: ItemShape(f, v)
    ensures EncodeItems(f, items).Some? && |EncodeItems(f, items).value| <= 10 * |items|
  {
    hide F.EncodeItem, WellFormedField, Packable, ItemShape;
    if items != [] {
      NumberItems(f, items[1..]);
      NumberTen(f, items[0]);
    }
  }

  lemma {:induction false} ItemsCat(f: Field, a: seq<Value>, b: seq<Value>)
    requires (forall v | v in a :: ItemShape(f, v)) && (forall v | v in b :: ItemShape(f, v))
    ensures forall v | v in a + b :: ItemShape(f, v)
    ensures EncodeItems(f, a + b) == Cat(EncodeItems(f, a), EncodeItems(f, b))
  {
    hide F.EncodeItem, ItemShape;
    if a == [] {
      assert a + b == b;
      NothingBefore(EncodeItems(f, b));
    } else {
      assert (a + b)[1..] == a[1..] + b;
      ItemsCat(f, a[1..], b);
      CatAssoc(F.EncodeItem(f, a[0]), EncodeItems(f, a[1..]), EncodeItems(f, b));
    }
  }

  lemma {:induction false} TaggedCat(f: Field, a: seq<Value>, b: seq<Value>)
    requires (forall v | v in a :: ItemShape(f, v)) && (forall v | v in b :: ItemShape(f, v))
    ensures forall v | v in a + b :: ItemShape(f, v)
    ensures EncodeTagged(f, a + b) == Cat(EncodeTagged(f, a), EncodeTagged(f, b))
  {
    hide F.EncodeItem, ItemShape, Tag;
    if a == [] {
      assert a + b == b;
      NothingBefore(EncodeTagged(f, b));
    } else {
      assert (a + b)[1..] == a[1..] + b;
      TaggedCat(f, a[1..], b);
      CatAssoc(Cat(Some(Tag(f)), F.EncodeItem(f, a[0])), EncodeTagged(f, a[1..]), EncodeTagged(f, b));
    }
  }

  /** The first items, the next one, and the rest. */
  lemma {:induction false} ItemsAround(f: Field, items: seq<Value>, i: nat)
    requires i < |items| && forall v | v in items :: ItemShape(f, v)
    ensures Cat(EncodeItems(f, items[..i]), F.EncodeItem(f, items[i])) == EncodeItems(f, items[..i + 1])
    ensures Cat(EncodeItems(f, items[..i + 1]), EncodeItems(f, items[i + 1..])) == EncodeItems(f, items)
    ensures Cat(EncodeTagged(f, items[..i]), Cat(Some(Tag(f)), F.EncodeItem(f, items[i]))) == EncodeTagged(f, items[..i + 1])
    ensures Cat(EncodeTagged(f, items[..i + 1]), EncodeTagged(f, items[i + 1..])) == EncodeTagged(f, items)
  {
    OneItem(f, items[i]);
    hide F.EncodeItem, EncodeItems, EncodeTagged, ItemShape, Tag, Cat;
    assert items[..i + 1] == items[..i] + [items[i]] && items == items[..i + 1] + items[i + 1..];
    ItemsCat(f, items[..i], [items[i]]);
    ItemsCat(f, items[..i + 1], items[i + 1..]);
    TaggedCat(f, items[..i], [items[i]]);
    TaggedCat(f, items[..i + 1], items[i + 1..]);
  }

  lemma {:induction false} OneItem(f: Field, v: Value)
    requires ItemShape(f, v)
    ensures EncodeItems(f, [v]) == F.EncodeItem(f, v) && EncodeTagged(f, [v]) == Cat(Some(Tag(f)), F.EncodeItem(f, v))
  {
    hide F.EncodeItem, ItemShape, Tag;
    assert [v][1..] == [];
    NothingBefore(F.EncodeItem(f, v));
    NothingBefore(Cat(Some(Tag(f)), F.EncodeItem(f, v)));
  }

  /** The items of a packed array, into the stream or into the counter. */
  method EncodePacked(stream: OStream, f: Field, items: seq<Value>) returns (ok: bool)
    requires Roomy(stream.Now()) && WellFormedField(f) && (forall v | v in items :: ItemShape(f, v)) && Packable(f.ltype)
    modifies stream`state, stream`bytesWritten, stream.buffer
    ensures Puts(old(stream.Now()), EncodeItems(f, items), ok, stream.Now())
  {
    ghost var start := stream.Now();
    Nothing(start);
    assert items[..0] == [];
    hide Puts, Roomy, F.EncodeItem, ItemShape, WellFormedField;
    for i := 0 to |items|
      invariant Puts(start, EncodeItems(f, items[..i]), true, stream.Now())
    {
      hide EncodeItems;
      ghost var here := stream.Now();
      RoomLeft(start, EncodeItems(f, items[..i]), true, here);
      ItemsAround(f, items, i);
      var status := EncodeScalar(stream, f, items[i]);
      Then(start, EncodeItems(f, items[..i]), here, F.EncodeItem(f, items[i]), status, stream.Now());
      if !status {
        Stops(start, EncodeItems(f, items[..i + 1]), stream.Now(), EncodeItems(f, items[i + 1..]));
        return false;
      }
    }
    assert items[..|items|] == items;
    return true;
  }

  /** The items of an array whose type is not packed, each behind its key. */
  method EncodeUnpacked(stream: OStream, f: Field, items: seq<Value>) returns (ok: bool)
    requires Roomy(stream.Now()) && WellFormedField(f) && forall v | v in items :: ItemShape(f, v) && MeasurableItem(f, v)
    modifies stream`state, stream`bytesWritten, stream.buffer
    ensures Puts(old(stream.Now()), EncodeTagged(f, items), ok, stream.Now())
    decreases f, 1
  {
    ghost var start := stream.Now();
    Nothing(start);
    assert items[..0] == [];
    hide Puts, Roomy, F.EncodeItem, ItemShape, WellFormedField, MeasurableItem;
    for i := 0 to |items|
      invariant Puts(start, EncodeTagged(f, items[..i]), true, stream.Now())
    {
      hide EncodeTagged;
      ghost var here := stream.Now();
      RoomLeft(start, EncodeTagged(f, items[..i]), true, here);
      ItemsAround(f, items, i);
      var status := EncodeRecord(stream, f, items[i]);
      Then(start, EncodeTagged(f, items[..i]), here, Cat(Some(Tag(f)), F.EncodeItem(f, items[i])), status, stream.Now());
      if !status {
        Stops(start, EncodeTagged(f, items[..i + 1]), stream.Now(), EncodeTagged(f, items[i + 1..]));
        return false;
      }
    }
    assert items[..|items|] == items;
    return true;
  }

  /** pb_encode_tag_for_field, then the value. */
  method EncodeRecord(stream: OStream, f: Field, v: Value) returns (ok: bool)
    requires Roomy(stream.Now()) && WellFormedField(f) && ItemShape(f, v) && MeasurableItem(f, v)
    modifies stream`state, stream`bytesWritten, stream.buffer
    ensures Puts(old(stream.Now()), Cat(Some(Tag(f)), F.EncodeItem(f, v)), ok, stream.Now())
    decreases f, 0, 1
  {
    ghost var start := stream.Now();
    TagFits(f);
    hide Puts, Roomy, F.EncodeItem, ItemShape, WellFormedField, MeasurableItem, Key;
    ok := EncodeTag(stream, WireType(f.ltype), f.tag);
    ghost var middle := stream.Now();
    if !ok {
      Stops(start, Some(Tag(f)), middle, F.EncodeItem(f, v));
      return;
    }
    RoomLeft(start, Some(Tag(f)), true, middle);
    ok := EncodeItem(stream, f, v);
    Then(start, Some(Tag(f)), middle, F.EncodeItem(f, v), ok, stream.Now());
  }

  lemma {:induction false} TagFits(f: Field)
    requires WellFormedField(f)
    ensures f.tag < TWO32 && f.arraySize <= PB_SIZE_MAX
  {}

  /** encode_array. */
  method EncodeArray(stream: OStream, f: Field, count: nat, items: seq<Value>) returns (ok: bool)
    requires Roomy(stream.Now()) && WellFormedField(f)
    requires |items| == f.arraySize && forall v | v in items :: ItemShape(f, v) && MeasurableItem(f, v)
    modifies stream`state, stream`bytesWritten, stream.buffer
    ensures Puts(old(stream.Now()), F.EncodeArray(f, count, items), ok, stream.Now())
    decreases f, 2
  {
    Nothing(stream.Now());
    Fails(stream.Now(), None);
    if count == 0 {
      return true;
    }
    if count > f.arraySize {
      return false;
    }
    if Packable(f.ltype) {
      hide Puts, Roomy, F.EncodeItem, EncodeItems, ItemShape, WellFormedField, MeasurableItem, Varint;
      ok := EncodePackedArray(stream, f, items[..count]);
    } else {
      hide Puts, Roomy, F.EncodeItem, EncodeItems, ItemShape, WellFormedField, MeasurableItem, Varint, EncodeTagged;
      ok := EncodeUnpacked(stream, f, items[..count]);
    }
  }

  /** The packed branch of encode_array: key, total size, data. */
  method EncodePackedArray(stream: OStream, f: Field, items: seq<Value>) returns (ok: bool)
    requires Roomy(stream.Now()) && WellFormedField(f) && Packable(f.ltype)
    requires |items| <= f.arraySize && forall v | v in items :: ItemShape(f, v)
    modifies stream`state, stream`bytesWritten, stream.buffer
    ensures EncodeItems(f, items).Some?
    ensures Puts(old(stream.Now()), Some(Key(f.tag, WT_STRING) + Delimited(EncodeItems(f, items).value)), ok, stream.Now())
  {
    TagFits(f);
    NumberItems(f, items);
    hide Puts, Roomy, F.EncodeItem, EncodeItems, ItemShape, WellFormedField, Varint, Key;
    ghost var content := EncodeItems(f, items).value;
    ghost var start := stream.Now();
    ok := EncodeTag(stream, WT_STRING, f.tag);
    ghost var middle := stream.Now();
    if !ok {
      Stops(start, Some(Key(f.tag, WT_STRING)), middle, Some(Delimited(content)));
      return;
    }
    RoomLeft(start, Some(Key(f.tag, WT_STRING)), true, middle);
    ok := EncodeSizedItems(stream, f, items);
    Then(start, Some(Key(f.tag, WT_STRING)), middle, Some(Delimited(content)), ok, stream.Now());
  }

  method PackedSize(f: Field, items: seq<Value>) returns (size: nat)
    requires WellFormedField(f) && Packable(f.ltype) && forall v | v in items :: ItemShape(f, v)
    ensures EncodeItems(f, items).Some? && size == |EncodeItems(f, items).value|
  {
    if f.ltype.FIXED32? {
      FixedItems(f, items, 4);
      size := 4 * |items|;
    } else if f.ltype.FIXED64? {
      FixedItems(f, items, 8);
      size := 8 * |items|;
    } else {
      NumberItems(f, items);
      var sizestream := new OStream.Sizing();
      var status := EncodePacked(sizestream, f, items);
      assert status;
      size := sizestream.bytesWritten;
    }
  }

  method EncodeSizedItems(stream: OStream, f: Field, items: seq<Value>) returns (ok: bool)
    requires Roomy(stream.Now()) && WellFormedField(f) && Packable(f.ltype)
    requires |items| <= f.arraySize && forall v | v in items :: ItemShape(f, v)
    modifies stream`state, stream`bytesWritten, stream.buffer
    ensures EncodeItems(f, items).Some?
    ensures Puts(old(stream.Now()), Some(Delimited(EncodeItems(f, items).value)), ok, stream.Now())
  {
    TagFits(f);
    NumberItems(f, items);
    hide Puts, Roomy, F.EncodeItem, EncodeItems, ItemShape, WellFormedField, Varint;
    ghost var content := EncodeItems(f, items).value;
    ghost var start := stream.Now();
    var size := PackedSize(f, items);
    ok := EncodeVarint(stream, size);
    ghost var middle := stream.Now();
    if !ok {
      Stops(start, Some(Varint(size)), middle, Some(content));
      return;
    }
    RoomLeft(start, Some(Varint(size)), true, middle);
    if !stream.callback {
      ok := stream.WriteNull(size);
      Counted(middle, Some(content), stream.Now());
    } else {
      ok := EncodePacked(stream, f, items);
    }
    Then(start, Some(Varint(size)), middle, Some(content), ok, stream.Now());
  }

  // ---- fields and messages ----

  lemma {:induction false} ItemsHere(f: Field, s: Slot)
    requires FieldShape(f, s) && MeasurableField(f, s)
    ensures f.htype.REPEATED? ==> |s.items| == f.arraySize && forall v | v in s.items :: ItemShape(f, v) && MeasurableItem(f, v)
    ensures !f.htype.REPEATED? ==> |s.items| == 1
    ensures f.htype.REQUIRED? || f.htype.OPTIONAL? || (f.htype.ONEOF? && s.size == f.tag) ==>
      ItemShape(f, s.items[0]) && MeasurableItem(f, s.items[0])
  {
    hide ItemShape, MeasurableItem;
  }

  /** encode_basic_field. */
  method EncodeBasicField(stream: OStream, f: Field, s: Slot) returns (ok: bool)
    requires Roomy(stream.Now()) && WellFormedField(f) && FieldShape(f, s) && MeasurableField(f, s)
    modifies stream`state, stream`bytesWritten, stream.buffer
    ensures Puts(old(stream.Now()), F.EncodeField(f, s), ok, stream.Now())
    decreases f, 3
  {
    ItemsHere(f, s);
    Nothing(stream.Now());
    hide Puts, Roomy, F.EncodeItem, F.EncodeArray, ItemShape, WellFormedField, MeasurableItem, MeasurableField, IsDefaultItem, Tag, Cat;
    var present := true;
    if f.htype.OPTIONAL? {
      if f.sizeOffset != 0 {
        present := s.size != 0;
      } else {
        var default := CheckDefault(f, s);
        present := !default;
      }
    }
    match f.htype
    case REQUIRED => ok := EncodeRecord(stream, f, s.items[0]);
    case OPTIONAL =>
      ok := true;
      if present {
        ok := EncodeRecord(stream, f, s.items[0]);
      }
    case REPEATED => ok := EncodeArray(stream, f, s.size, s.items);
    case ONEOF =>
      ok := true;
      if s.size == f.tag {
        ok := EncodeRecord(stream, f, s.items[0]);
      }
  }

  lemma {:induction false} UptoStep(fields: seq<Field>, m: seq<Slot>, i: nat)
    requires MessageShape(fields, m) && i < |fields| && FieldShape(fields[i], m[SlotOf(fields, i)])
    ensures EncodeUpto(fields, m, i + 1) == Cat(EncodeUpto(fields, m, i), F.EncodeField(fields[i], m[SlotOf(fields, i)]))
    ensures Cat(EncodeUpto(fields, m, i + 1), EncodeFrom(fields, m, i + 1)) == EncodeMessage(fields, m)
  {
    UptoAndFrom(fields, m, i + 1);
    hide EncodeFrom, F.EncodeField, MessageShape, FieldShape, Cat, SlotOf;
  }

  lemma {:induction false} UptoAll(fields: seq<Field>, m: seq<Slot>)
    requires MessageShape(fields, m)
    ensures EncodeUpto(fields, m, 0) == Some([]) && EncodeUpto(fields, m, |fields|) == EncodeFrom(fields, m, 0)
  {
    UptoAndFrom(fields, m, |fields|);
    NothingBefore(EncodeUpto(fields, m, |fields|));
  }

  /** pb_encode. */
  method Encode(stream: OStream, fields: seq<Field>, slots: seq<Slot>) returns (ok: bool)
    requires Roomy(stream.Now()) && WellFormed(fields) && MessageShape(fields, slots) && MeasurableFrom(fields, slots, 0)
    modifies stream`state, stream`bytesWritten, stream.buffer
    ensures Puts(old(stream.Now()), EncodeFrom(fields, slots, 0), ok, stream.Now())
    decreases fields, 3
  {
    hide *;
    ghost var start := stream.Now();
    UptoAll(fields, slots);
    Nothing(start);
    var iter := new FieldIter(fields, 0);
    var more := iter.Begin();
    ghost var i := 0;
    while more
      invariant iter.InStep() && i <= |fields|
      invariant if more then iter.pos == i < |fields| else i == |fields|
      invariant Puts(start, EncodeUpto(fields, slots, i), true, stream.Now())
      decreases |fields| - i
    {
      ghost var here := stream.Now();
      RoomLeft(start, EncodeUpto(fields, slots, i), true, here);
      SlotHere(fields, slots, i);
      MeasurableAt(fields, slots, 0, i);
      UptoStep(fields, slots, i);
      var status := EncodeBasicField(stream, fields[iter.pos], slots[SlotOf(fields, iter.pos)]);
      Then(start, EncodeUpto(fields, slots, i), here, F.EncodeField(fields[i], slots[SlotOf(fields, i)]), status, stream.Now());
      if !status {
        Stops(start, EncodeUpto(fields, slots, i + 1), stream.Now(), EncodeFrom(fields, slots, i + 1));
        WholeMessage(fields, slots);
        return false;
      }
      more := iter.Next();
      i := i + 1;
    }
    return true;
  }

  lemma {:induction false} WholeMessage(fields: seq<Field>, m: seq<Slot>)
    requires MessageShape(fields, m)
    ensures EncodeMessage(fields, m) == EncodeFrom(fields, m, 0)
  {}

  /** pb_get_encoded_size: exact. */
  method GetEncodedSize(fields: seq<Field>, slots: seq<Slot>) returns (ok: bool, size: nat)
    requires WellFormed(fields) && MessageShape(fields, slots) && MeasurableFrom(fields, slots, 0)
    ensures ok <==> EncodeMessage(fields, slots).Some?
    ensures ok ==> size == |EncodeMessage(fields, slots).value|
  {
    hide EncodeFrom, MeasurableFrom, WellFormed, MessageShape;
    size := 0;
    var stream := new OStream.Sizing();
    ok := Encode(stream, fields, slots);
    if ok {
      size := stream.bytesWritten;
    }
  }
}
