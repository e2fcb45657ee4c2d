/** The encoding of a message: what pb_encode writes, as a function of the struct. */
module PbFormat {
  import opened Bits
  import opened Wire
  import opened PbTypes

  /** A byte string, or the failure of an encoder. */
  type Encoded = Option<seq<byte>>

  function Cat(a: Encoded, b: Encoded): Encoded {
    if a.Some? && b.Some? then Some(a.value + b.value) else None
  }

  const WT_VARINT: nat := 0
  const WT_64BIT: nat := 1
  const WT_STRING: nat := 2
  const WT_32BIT: nat := 5

  function WireType(t: LType): (w: nat)
    ensures w <= 5
  {
    match t
    case VARINT => WT_VARINT
    case UVARINT => WT_VARINT
    case SVARINT => WT_VARINT
    case FIXED32 => WT_32BIT
    case FIXED64 => WT_64BIT
    case _ => WT_STRING
  }

  /** A key: the field number and the wire type in one varint. */
  function Key(tag: nat, wireType: nat): seq<byte> {
    Varint(tag * 8 + wireType)
  }

  function Tag(f: Field): seq<byte> {
    Key(f.tag, WireType(f.ltype))
  }

  /** A length-delimited value. */
  function Delimited(b: seq<byte>): seq<byte> {
    Varint(|b|) + b
  }

  // ---- presence ----

  /** pb_check_proto3_default_value: whether a field may be left out. */
  predicate IsDefault(f: Field, s: Slot)
    requires FieldShape(f, s)
    decreases f, 1
  {
    match f.htype
    case REQUIRED => false
    case REPEATED => s.size == 0
    case ONEOF => s.size == 0
    case OPTIONAL => if HasFlag(f) then s.size == 0 else IsDefaultItem(f, s.items[0])
  }

  predicate IsDefaultItem(f: Field, v: Value)
    requires ItemShape(f, v)
    decreases f, 0
  {
    match f.ltype
    case BYTES => v.b == []
    case STRING => v.b == []
    case FIXED_LENGTH_BYTES => f.dataSize == 0
    case SUBMESSAGE(sub) => AllDefault(sub, v.slots)
    case _ => v.n == 0
  }

  predicate AllDefault(fields: seq<Field>, slots: seq<Slot>)
    requires MessageShape(fields, slots)
    decreases fields, 2
  {
    forall i | 0 <= i < |fields| :: IsDefault(fields[i], slots[SlotOf(fields, i)])
  }

  predicate Present(f: Field, s: Slot)
    requires FieldShape(f, s) && f.htype.OPTIONAL?
  {
    if HasFlag(f) then s.size != 0 else !IsDefaultItem(f, s.items[0])
  }

  // ---- items, arrays, fields, messages ----

  function EncodeItem(f: Field, v: Value): Encoded
    requires ItemShape(f, v)
    decreases f, 0, 0
  {
    match f.ltype
    case VARINT => if IntSize(f.dataSize) then Some(Varint(ToWord(v.n))) else None
    case UVARINT => if IntSize(f.dataSize) then Some(Varint(v.n)) else None
    case SVARINT => if IntSize(f.dataSize) then Some(Varint(ZigZag(v.n))) else None
    case FIXED32 => Some(LittleEndian(v.n, 4))
    case FIXED64 => Some(LittleEndian(v.n, 8))
    case BYTES => if |v.b| + 1 > f.dataSize then None else Some(Delimited(v.b))
    case STRING => Some(Delimited(v.b))
    case FIXED_LENGTH_BYTES => Some(Delimited(v.b))
    case SUBMESSAGE(sub) =>
      var e := EncodeFrom(sub, v.slots, 0);
      if e.Some? then Some(Delimited(e.value)) else None
  }

  /** Items one after the other, as inside a packed array. */
  function EncodeItems(f: Field, items: seq<Value>): Encoded
    requires forall v | v in items :: ItemShape(f, v)
    decreases f, 1, |items|
  {
    if items == [] then Some([])
    else Cat(EncodeItem(f, items[0]), EncodeItems(f, items[1..]))
  }

  /** Items each behind its own key. */
  function EncodeTagged(f: Field, items: seq<Value>): Encoded
    requires forall v | v in items :: ItemShape(f, v)
    decreases f, 1, |items|
  {
    if items == [] then Some([])
    else Cat(Cat(Some(Tag(f)), EncodeItem(f, items[0])), EncodeTagged(f, items[1..]))
  }

  function EncodeArray(f: Field, count: nat, items: seq<Value>): Encoded
    requires |items| == f.arraySize && forall v | v in items :: ItemShape(f, v)
    decreases f, 2, 0
  {
    if count == 0 then Some([])
    else if count > f.arraySize then None
    else if Packable(f.ltype) then
      var e := EncodeItems(f, items[..count]);
      if e.Some? then Some(Key(f.tag, WT_STRING) + Delimited(e.value)) else None
    else EncodeTagged(f, items[..count])
  }

  function EncodeField(f: Field, s: Slot): Encoded
    requires FieldShape(f, s)
    decreases f, 3, 0
  {
    match f.htype
    case REQUIRED => Cat(Some(Tag(f)), EncodeItem(f, s.items[0]))
    case OPTIONAL => if Present(f, s) then Cat(Some(Tag(f)), EncodeItem(f, s.items[0])) else Some([])
    case REPEATED => EncodeArray(f, s.size, s.items)
    case ONEOF => if s.size == f.tag then Cat(Some(Tag(f)), EncodeItem(f, s.items[0])) else Some([])
  }

  /** The fields from position `i` on. */
  function EncodeFrom(fields: seq<Field>, slots: seq<Slot>, i: nat): Encoded
    requires MessageShape(fields, slots) && i <= |fields|
    decreases fields, 4, |fields| - i
  {
    if i == |fields| then Some([])
    else
      assert FieldShape(fields[i], slots[SlotOf(fields, i)]);
      Cat(EncodeField(fields[i], slots[SlotOf(fields, i)]), EncodeFrom(fields, slots, i + 1))
  }

  /** The encoding from a position on is that of its field and that from the next position on. */
  lemma {:induction false} EncodeStep(fields: seq<Field>, slots: seq<Slot>, i: nat)
    requires MessageShape(fields, slots) && i < |fields|
    ensures FieldShape(fields[i], slots[SlotOf(fields, i)])
    ensures EncodeFrom(fields, slots, i) == Cat(EncodeField(fields[i], slots[SlotOf(fields, i)]), EncodeFrom(fields, slots, i + 1))
  {
    hide EncodeField, FieldShape;
    assert FieldShape(fields[i], slots[SlotOf(fields, i)]);
  }

  function EncodeMessage(fields: seq<Field>, slots: seq<Slot>): Encoded
    requires MessageShape(fields, slots)
  {
    EncodeFrom(fields, slots, 0)
  }
}
