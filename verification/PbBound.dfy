/** The size the generator computes bounds what the encoder writes. */
module PbBound {
  import opened Bits
  import opened Wire
  import opened PbTypes
  import opened PbFormat
  import G = PbMaxSize

  // ---- the descriptor of a declaration ----

  /** sizeof the C type of an integer field. */
  function Width(d: G.Decl): nat {
    if d.intSize.Some? then d.intSize.value
    else if d.pbtype.INT64? || d.pbtype.UINT64? || d.pbtype.SINT64? then 8 else 4
  }

  predicate HasNegative(values: seq<int>) {
    exists v | v in values :: v < 0
  }

  predicate DescribesType(d: G.Decl, f: Field)
    decreases d, 0
  {
    match d.pbtype
    case BOOL => f.ltype.VARINT? && f.dataSize == 1
    case DOUBLE => f.ltype.FIXED64?
    case FLOAT => f.ltype.FIXED32?
    case FIXED32 => f.ltype.FIXED32?
    case FIXED64 => f.ltype.FIXED64?
    case SFIXED32 => f.ltype.FIXED32?
    case SFIXED64 => f.ltype.FIXED64?
    case INT32 => f.ltype.VARINT? && f.dataSize == Width(d)
    case INT64 => f.ltype.VARINT? && f.dataSize == Width(d)
    case SINT32 => f.ltype.SVARINT? && f.dataSize == Width(d)
    case SINT64 => f.ltype.SVARINT? && f.dataSize == Width(d)
    case UINT32 => f.ltype.UVARINT? && f.dataSize == Width(d)
    case UINT64 => f.ltype.UVARINT? && f.dataSize == Width(d)
    case ENUM(values, width) => (if HasNegative(values) then f.ltype.VARINT? else f.ltype.UVARINT?) && f.dataSize == width
    case STRING(maxSize) => f.ltype.STRING? && f.dataSize == maxSize
    case BYTES(maxSize) => f.ltype.BYTES? && f.dataSize == maxSize + 1
    case FIXED_LENGTH_BYTES(maxSize) => f.ltype.FIXED_LENGTH_BYTES? && f.dataSize == maxSize
    case MESSAGE(entries) => f.ltype.SUBMESSAGE? && Describes(entries, f.ltype.fields, 0)
  }

  /** The pb_field_t that the generator writes for a field outside a oneof. */
  predicate DescribesField(d: G.Decl, f: Field)
    decreases d, 1
  {
    && f.tag == d.tag && DescribesType(d, f)
    && (match d.rules
        case REQUIRED => f.htype.REQUIRED?
        case OPTIONAL => f.htype.OPTIONAL?
        case SINGULAR => f.htype.OPTIONAL?
        case REPEATED(maxCount) => f.htype.REPEATED? && f.arraySize == maxCount)
  }

  predicate DescribesMembers(members: seq<G.Decl>, fields: seq<Field>, i: nat)
    decreases members, 2
  {
    i + |members| <= |fields|
    && forall k | 0 <= k < |members| :: DescribesMember(members, fields, i, k)
  }

  predicate DescribesMember(members: seq<G.Decl>, fields: seq<Field>, i: nat, k: nat)
    requires i + |members| <= |fields| && k < |members|
    decreases members, 1
  {
    && fields[i + k].htype.ONEOF? && fields[i + k].tag == members[k].tag && DescribesType(members[k], fields[i + k])
    && !members[k].rules.REPEATED? && (Shares(fields, i + k) <==> k > 0)
  }

  predicate DescribesEntry(e: G.Entry, fields: seq<Field>, i: nat)
    decreases e, 3
  {
    match e
    case Single(d) => i < |fields| && DescribesField(d, fields[i])
    case OneOf(members) => DescribesMembers(members, fields, i)
  }

  /** Positions an entry takes in the descriptor. */
  function Span(e: G.Entry): nat {
    match e
    case Single(_) => 1
    case OneOf(members) => |members|
  }

  /** The descriptor from position `i` on belongs to these entries. */
  predicate Describes(entries: seq<G.Entry>, fields: seq<Field>, i: nat)
    decreases entries, 4
  {
    if entries == [] then i == |fields|
    else
      && i + Span(entries[0]) <= |fields|
      && DescribesEntry(entries[0], fields, i) && Describes(entries[1..], fields, i + Span(entries[0]))
  }

  // ---- values within the announced sizes ----

  const TWO34: int := 0x4_0000_0000
  const TWO35: int := 0x8_0000_0000

  /** The value of an enum member takes no more bytes than some declared value. */
  predicate ModestEnum(values: seq<int>, n: int) {
    G.EnumSize(values).Some? ==> G.EnumSize(values).value == 10 || 0 <= n < Pow2(7 * G.EnumSize(values).value)
  }

  /** The value takes no more bytes than the generator announces for its type. A member may hold more than the
      declared type: other numbers in an enum or a bool, and 64-bit numbers where int_size widened the member. */
  predicate ModestItem(d: G.Decl, f: Field, v: Value)
    requires DescribesType(d, f) && ItemShape(f, v)
    decreases d, 0
  {
    match d.pbtype
    case BOOL => 0 <= v.n < 0x80
    case ENUM(values, _) => ModestEnum(values, v.n)
    case UINT32 => v.n < TWO35
    case SINT32 => -TWO34 <= v.n < TWO34
    case MESSAGE(entries) => Modest(entries, f.ltype.fields, 0, v.slots)
    case _ => true
  }

  /** What is encoded of the field is modest. */
  predicate ModestField(d: G.Decl, f: Field, s: Slot)
    requires DescribesType(d, f) && FieldShape(f, s)
    decreases d, 1
  {
    match f.htype
    case REQUIRED => ModestItem(d, f, s.items[0])
    case OPTIONAL => Present(f, s) ==> ModestItem(d, f, s.items[0])
    case ONEOF => s.size == f.tag ==> ModestItem(d, f, s.items[0])
    case REPEATED => forall k | 0 <= k < f.arraySize && k < s.size :: ModestItem(d, f, s.items[k])
  }

  predicate ModestMembers(members: seq<G.Decl>, fields: seq<Field>, i: nat, m: seq<Slot>)
    requires MessageShape(fields, m) && DescribesMembers(members, fields, i)
    decreases members, 2
  {
    forall k | 0 <= k < |members| ::
      DescribesMember(members, fields, i, k) && FieldShape(fields[i + k], m[SlotOf(fields, i + k)])
      && ModestField(members[k], fields[i + k], m[SlotOf(fields, i + k)])
  }

  predicate ModestEntry(e: G.Entry, fields: seq<Field>, i: nat, m: seq<Slot>)
    requires DescribesEntry(e, fields, i) && MessageShape(fields, m)
    decreases e, 3
  {
    match e
    case Single(d) =>
      assert DescribesField(d, fields[i]);
      FieldShape(fields[i], m[SlotOf(fields, i)]) && ModestField(d, fields[i], m[SlotOf(fields, i)])
    case OneOf(members) => ModestMembers(members, fields, i, m)
  }

  predicate Modest(entries: seq<G.Entry>, fields: seq<Field>, i: nat, m: seq<Slot>)
    requires Describes(entries, fields, i) && MessageShape(fields, m)
    decreases entries, 4
  {
    entries != [] ==>
      ModestEntry(entries[0], fields, i, m) && Modest(entries[1..], fields, i + Span(entries[0]), m)
  }

  // ---- numbers ----

  lemma {:induction false} Lengths(v: nat)
    ensures v < 128 ==> |Varint(v)| <= 1
    ensures v < TWO14 ==> |Varint(v)| <= 2
    ensures v < TWO32 ==> |Varint(v)| <= 5
    ensures v < TWO64 ==> |Varint(v)| <= 10
  {
    Pow2Literals();
    Pow2Bytes();
    Pow2Add(7, 7);
    Pow2Monotone(32, 35);
    Pow2Monotone(64, 70);
    hide Pow2;
    VarintLength(v, 1);
    VarintLength(v, 2);
    VarintLength(v, 5);
    VarintLength(v, 10);
  }

  const TWO14: nat := 0x4000

  /** A key takes as much room as the field number alone: the wire type fills bits that are there anyway. */
  lemma {:induction false} KeyLength(tag: nat, wireType: nat)
    requires wireType < 8 && G.VarintMaxSize(tag * 8).Some?
    ensures |Key(tag, wireType)| <= G.VarintMaxSize(tag * 8).value <= 10 && 1 <= G.VarintMaxSize(tag * 8).value
  {
    hide *;
    TagBits(tag);
    var k := G.VarintMaxSize(tag * 8).value;
    KeyBelow(tag, wireType, k);
    VarintLength(tag * 8 + wireType, k);
    KeyIsVarint(tag, wireType);
  }

  lemma {:induction false} KeyIsVarint(tag: nat, wireType: nat)
    ensures Key(tag, wireType) == Varint(tag * 8 + wireType)
  {}

  lemma {:induction false} TagBits(tag: nat)
    requires G.VarintMaxSize(tag * 8).Some?
    ensures tag * 8 < Pow2(7 * G.VarintMaxSize(tag * 8).value) && 1 <= G.VarintMaxSize(tag * 8).value <= 10
  {
    hide G.LengthFrom, Pow2;
    G.LengthFromSufficient(tag * 8, 1);
  }

  lemma {:induction false} KeyBelow(tag: nat, wireType: nat, k: nat)
    requires wireType < 8 && k >= 1 && tag * 8 < Pow2(7 * k)
    ensures tag * 8 + wireType < Pow2(7 * k)
  {
    Eighth(k);
    hide Pow2;
  }

  lemma {:induction false} Eighth(k: nat)
    requires k >= 1
    ensures Pow2(7 * k) == 8 * Pow2(7 * k - 3)
  {
    assert Pow2(3) == 8;
    Pow2Add(3, 7 * k - 3);
  }
}
