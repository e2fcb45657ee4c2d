/** nanopb field descriptors and the message structs they describe, for static allocation and the
    default 8-bit pb_size_t. */
module PbTypes {
  import opened Sequences
  import opened Bits
  import opened Wire

  const PB_SIZE_MAX: nat := 255
  const PB_MAX_REQUIRED_FIELDS: nat := 64

  datatype LType =
    | VARINT | UVARINT | SVARINT | FIXED32 | FIXED64
    | BYTES | STRING | SUBMESSAGE(fields: seq<Field>) | FIXED_LENGTH_BYTES

  datatype HType = REQUIRED | OPTIONAL | REPEATED | ONEOF

  /** One pb_field_t. `ptr` is the default value of a field that is not a submessage; the terminator of
      the C array is the end of the sequence. */
  datatype Field = Field(
    tag: nat, ltype: LType, htype: HType,
    dataOffset: nat, sizeOffset: int, dataSize: nat, arraySize: nat, ptr: Option<Value>)

  /** The content of one data member: a number, the used bytes of a bytes member, the characters of a
      char array before its NUL, or an embedded struct. */
  datatype Value = Num(n: int) | Blob(b: seq<byte>) | Struct(slots: seq<Slot>)

  /** A member with its has_, _count or which_ companion (`size`). */
  datatype Slot = Slot(size: nat, items: seq<Value>)

  predicate Packable(t: LType) {
    t.VARINT? || t.UVARINT? || t.SVARINT? || t.FIXED32? || t.FIXED64?
  }

  /** Optional fields without a has_ flag are the singular fields of proto3. */
  predicate HasFlag(f: Field) {
    f.sizeOffset != 0
  }

  /** A oneof member after the first one shares the storage of the member before it. */
  predicate Shares(fields: seq<Field>, i: nat)
    requires i < |fields|
  {
    i > 0 && fields[i].htype.ONEOF? && fields[i - 1].htype.ONEOF? && fields[i].dataOffset == PB_SIZE_MAX
  }

  /** The slot that holds field `i`: its own, or that of the first member of its union. */
  function SlotOf(fields: seq<Field>, i: nat): (k: nat)
    requires i < |fields|
    ensures k <= i
    ensures !fields[i].htype.ONEOF? ==> k == i
    ensures fields[i].htype.ONEOF? ==> fields[k].htype.ONEOF?
  {
    if Shares(fields, i) then SlotOf(fields, i - 1) else i
  }

  /** Number of required fields before position `i`. */
  function RequiredBefore(fields: seq<Field>, i: nat): (n: nat)
    requires i <= |fields|
    ensures n <= i
  {
    if i == 0 then 0 else RequiredBefore(fields, i - 1) + (if fields[i - 1].htype.REQUIRED? then 1 else 0)
  }

  // ---- the shape of a struct in memory ----

  predicate ItemShape(f: Field, v: Value)
    decreases f, 0
  {
    match f.ltype
    case VARINT => v.Num? && -TWO63 <= v.n < TWO63 && (IntSize(f.dataSize) ==> SignedFits(v.n, f.dataSize))
    case SVARINT => v.Num? && -TWO63 <= v.n < TWO63 && (IntSize(f.dataSize) ==> SignedFits(v.n, f.dataSize))
    case UVARINT => v.Num? && 0 <= v.n < TWO64 && (IntSize(f.dataSize) ==> UnsignedFits(v.n, f.dataSize))
    case FIXED32 => v.Num? && 0 <= v.n < TWO32
    case FIXED64 => v.Num? && 0 <= v.n < TWO64
    case BYTES => v.Blob? && |v.b| <= PB_SIZE_MAX
    case STRING => v.Blob? && |v.b| <= f.dataSize && 0 !in v.b
    case FIXED_LENGTH_BYTES => v.Blob? && |v.b| == f.dataSize
    case SUBMESSAGE(sub) => v.Struct? && MessageShape(sub, v.slots)
  }

  predicate FieldShape(f: Field, s: Slot)
    decreases f, 1
  {
    match f.htype
    case REQUIRED => |s.items| == 1 && ItemShape(f, s.items[0])
    case OPTIONAL => |s.items| == 1 && ItemShape(f, s.items[0])
    case REPEATED => |s.items| == f.arraySize && forall v | v in s.items :: ItemShape(f, v)
    case ONEOF => |s.items| == 1 && (s.size == f.tag ==> ItemShape(f, s.items[0]))
  }

  predicate MessageShape(fields: seq<Field>, slots: seq<Slot>)
    decreases fields, 2
  {
    |slots| == |fields| && forall i | 0 <= i < |fields| :: FieldShape(fields[i], slots[SlotOf(fields, i)])
  }

  /** The part of the shape that concerns each slot by itself. */
  predicate SlotsShape(fields: seq<Field>, slots: seq<Slot>) {
    && |slots| == |fields|
    && forall i | 0 <= i < |fields| :: FieldShape(fields[i], slots[i]) || fields[i].htype.ONEOF?
  }

  lemma {:induction false} OwnSlots(fields: seq<Field>, slots: seq<Slot>)
    requires MessageShape(fields, slots)
    ensures SlotsShape(fields, slots)
  {
    forall i | 0 <= i < |fields| ensures FieldShape(fields[i], slots[i]) || fields[i].htype.ONEOF? {
      assert FieldShape(fields[i], slots[SlotOf(fields, i)]);
    }
  }

  // ---- descriptors as the generator emits them ----

  predicate WellFormedField(f: Field)
    decreases f, 0
  {
    && 1 <= f.tag <= PB_SIZE_MAX
    && f.dataSize <= PB_SIZE_MAX && f.arraySize <= PB_SIZE_MAX
    && (f.htype.REPEATED? || f.htype.ONEOF? ==> f.sizeOffset != 0)
    && (f.ptr.Some? ==> !f.ltype.SUBMESSAGE? && ItemShape(f, f.ptr.value))
    && (f.htype.OPTIONAL? && f.sizeOffset == 0 ==> f.ptr.None?)
    && (match f.ltype
        case VARINT => IntSize(f.dataSize)
        case UVARINT => IntSize(f.dataSize)
        case SVARINT => IntSize(f.dataSize)
        case SUBMESSAGE(sub) => WellFormed(sub)
        case _ => true)
  }

  predicate WellFormed(fields: seq<Field>)
    decreases fields, 1
  {
    && (forall i | 0 <= i < |fields| :: WellFormedField(fields[i]))
    && (forall i, j | 0 <= i < j < |fields| :: fields[i].tag != fields[j].tag)
    && SharedCompanions(fields)
  }

  /** The members of a union have one which_ member, so their offsets to it agree. */
  predicate SharedCompanions(fields: seq<Field>) {
    forall i | 0 < i < |fields| && Shares(fields, i) :: fields[i].sizeOffset == fields[i - 1].sizeOffset
  }

  // ---- default values ----

  /** memset to zero. */
  function ZeroItem(f: Field): Value
    decreases f, 0
  {
    match f.ltype
    case BYTES => Blob([])
    case STRING => Blob([])
    case FIXED_LENGTH_BYTES => Blob(Zeros(f.dataSize))
    case SUBMESSAGE(sub) => Struct(ZeroSlots(sub))
    case _ => Num(0)
  }

  function ZeroSlot(f: Field): Slot
    decreases f, 1
  {
    match f.htype
    case REPEATED => Slot(0, Copies(ZeroItem(f), f.arraySize))
    case ONEOF => Slot(0, [Num(0)])
    case _ => Slot(0, [ZeroItem(f)])
  }

  function Copies(v: Value, n: nat): (s: seq<Value>)
    ensures |s| == n && forall x | x in s :: x == v
  {
    if n == 0 then [] else [v] + Copies(v, n - 1)
  }

  function ZeroSlots(fields: seq<Field>): (s: seq<Slot>)
    ensures |s| == |fields|
    ensures forall i | 0 <= i < |fields| :: s[i] == ZeroSlot(fields[i])
    decreases fields, 2
  {
    if fields == [] then [] else [ZeroSlot(fields[0])] + ZeroSlots(fields[1..])
  }

  /** pb_field_set_to_default: the data of an optional field is reset with its flag, the items of an
      array and the storage of a union are left as they are. */
  function DefaultItem(f: Field, v: Value): Value
    requires ItemShape(f, v)
    decreases f, 0
  {
    match f.ltype
    case SUBMESSAGE(sub) =>
      OwnSlots(sub, v.slots);
      Struct(SetDefaults(sub, v.slots))
    case _ => if f.ptr.Some? then f.ptr.value else ZeroItem(f)
  }

  function DefaultSlot(f: Field, s: Slot): Slot
    requires FieldShape(f, s) || f.htype.ONEOF?
    decreases f, 1
  {
    match f.htype
    case REPEATED => Slot(0, s.items)
    case ONEOF => Slot(0, s.items)
    case REQUIRED => Slot(s.size, [DefaultItem(f, s.items[0])])
    case OPTIONAL => Slot(if HasFlag(f) then 0 else s.size, [DefaultItem(f, s.items[0])])
  }

  /** pb_message_set_to_defaults. */
  function SetDefaults(fields: seq<Field>, slots: seq<Slot>): (r: seq<Slot>)
    requires SlotsShape(fields, slots)
    ensures |r| == |fields|
    ensures forall i | 0 <= i < |fields| :: r[i] == DefaultSlot(fields[i], slots[i])
    decreases fields, 2
  {
    if fields == [] then [] else [DefaultSlot(fields[0], slots[0])] + SetDefaults(fields[1..], slots[1..])
  }

  // ---- defaults keep the shape ----

  lemma {:induction false} ZeroItemShape(f: Field)
    requires WellFormedField(f)
    ensures ItemShape(f, ZeroItem(f))
    decreases f, 0
  {
    match f.ltype
    case SUBMESSAGE(sub) => ZeroSlotsShape(sub);
    case _ =>
  }

  lemma {:induction false} ZeroSlotsShape(fields: seq<Field>)
    requires WellFormed(fields)
    ensures MessageShape(fields, ZeroSlots(fields))
    decreases fields, 2
  {
    forall i | 0 <= i < |fields| ensures FieldShape(fields[i], ZeroSlots(fields)[SlotOf(fields, i)]) {
      ZeroItemShape(fields[i]);
    }
  }

  lemma {:induction false} DefaultItemShape(f: Field, v: Value)
    requires WellFormedField(f) && ItemShape(f, v)
    ensures ItemShape(f, DefaultItem(f, v))
    decreases f, 0
  {
    match f.ltype
    case SUBMESSAGE(sub) => DefaultsShape(sub, v.slots);
    case _ => ZeroItemShape(f);
  }

  /** Resetting a struct leaves a struct of the same shape. */
  lemma {:induction false} DefaultsShape(fields: seq<Field>, slots: seq<Slot>)
    requires WellFormed(fields) && MessageShape(fields, slots)
    ensures SlotsShape(fields, slots)
    ensures MessageShape(fields, SetDefaults(fields, slots))
    decreases fields, 2
  {
    OwnSlots(fields, slots);
    forall i | 0 <= i < |fields| ensures FieldShape(fields[i], SetDefaults(fields, slots)[SlotOf(fields, i)]) {
      var k := SlotOf(fields, i);
      assert FieldShape(fields[i], slots[k]);
      if fields[i].htype.REQUIRED? || fields[i].htype.OPTIONAL? {
        DefaultItemShape(fields[i], slots[i].items[0]);
      }
    }
  }
}
