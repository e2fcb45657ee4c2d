/** Decoding: what pb_decode_noinit does to a struct, as a function of the struct and the input. */
module PbParse {
  import opened Sequences
  import opened Bits
  import opened Wire
  import opened PbTypes
  import opened PbFormat

  // ---- tags, unknown fields, raw bytes ----

  datatype TagResult =
    | Malformed
    | EndMark(rest: seq<byte>)                                   // a zero key ends the message
    | Found(tag: nat, wireType: nat, rest: seq<byte>)

  function DecodeTag(b: seq<byte>): (r: TagResult)
    ensures r.Found? ==> |r.rest| < |b| && r.rest == b[|b| - |r.rest|..] && r.tag * 8 + r.wireType > 0
    ensures r.EndMark? ==> |r.rest| < |b| && r.rest == b[|b| - |r.rest|..]
  {
    var key := DecodeVarint32(b);
    if key.None? then Malformed
    else if key.value.0 == 0 then EndMark(key.value.1)
    else Found(key.value.0 / 8, key.value.0 % 8, key.value.1)
  }

  /** Exactly `n` bytes from the front. */
  function Take(b: seq<byte>, n: nat): (r: Parsed<seq<byte>>)
    ensures r.Some? ==> r.value.0 + r.value.1 == b && |r.value.0| == n
    ensures r.Some? ==> r.value.1 == b[|b| - |r.value.1|..]
    ensures r.Some? <==> n <= |b|
  {
    if n <= |b| then Some((b[..n], b[n..])) else None
  }

  /** A length and that many bytes: the content of a substream, and what follows it in the parent. */
  function TakeDelimited(b: seq<byte>): (r: Parsed<seq<byte>>)
    ensures r.Some? ==> |r.value.0| + |r.value.1| < |b| && r.value.1 == b[|b| - |r.value.1|..]
  {
    var size := DecodeVarint32(b);
    if size.None? then None else Take(size.value.1, size.value.0)
  }

  /** pb_skip_varint: any number of bytes with the top bit set, and one without. */
  function SkipVarint(b: seq<byte>): (r: Option<seq<byte>>)
    ensures r.Some? ==> |r.value| < |b| && r.value == b[|b| - |r.value|..]
  {
    if b == [] then None else if b[0] >= 128 then SkipVarint(b[1..]) else Some(b[1..])
  }

  function SkipField(wireType: nat, b: seq<byte>): (r: Option<seq<byte>>)
    ensures r.Some? ==> |r.value| <= |b| && r.value == b[|b| - |r.value|..]
  {
    if wireType == WT_VARINT then SkipVarint(b)
    else if wireType == WT_64BIT then (if |b| < 8 then None else Some(b[8..]))
    else if wireType == WT_STRING then
      var s := TakeDelimited(b);
      if s.None? then None else Some(s.value.1)
    else if wireType == WT_32BIT then (if |b| < 4 then None else Some(b[4..]))
    else None
  }

  // ---- finding a field ----

  /** The answer of pb_field_iter_find. The terminator is found only in an empty descriptor, where the
      iterator rests on it, and only with tag 0. */
  datatype FindResult = NotFound | Terminator | At(i: nat)

  /** The first field with the tag among the next `n` positions from `pos`, cyclically. */
  function FindWithin(fields: seq<Field>, pos: nat, tag: nat, n: nat): (r: FindResult)
    requires pos < |fields|
    ensures !r.Terminator?
    ensures r.At? ==> r.i < |fields| && fields[r.i].tag == tag
    decreases n
  {
    if n == 0 then NotFound
    else if fields[pos].tag == tag then At(pos)
    else FindWithin(fields, NextPos(fields, pos), tag, n - 1)
  }

  function NextPos(fields: seq<Field>, pos: nat): (p: nat)
    requires pos < |fields|
    ensures p < |fields|
  {
    if pos + 1 == |fields| then 0 else pos + 1
  }

  /** A position of the iterator: on a field, or on the terminator of an empty descriptor. */
  predicate OnField(fields: seq<Field>, pos: nat) {
    pos < |fields| || (fields == [] && pos == 0)
  }

  function Find(fields: seq<Field>, pos: nat, tag: nat): (r: FindResult)
    requires OnField(fields, pos)
    ensures r.At? ==> r.i < |fields| && fields[r.i].tag == tag
    ensures r.Terminator? ==> fields == []
  {
    if fields == [] then (if tag == 0 then Terminator else NotFound)
    else FindWithin(fields, pos, tag, |fields|)
  }

  // ---- decoding values ----

  /** The characters before the first NUL. */
  function CString(b: seq<byte>): (s: seq<byte>)
    ensures 0 !in s && |s| <= |b|
  {
    if b == [] || b[0] == 0 then [] else [b[0]] + CString(b[1..])
  }

  /** The signed number a varint stands for: fields of at most 32 bits look at the low 32 bits. */
  function VarintValue(u: uint64, size: nat): int {
    Pow2Literals();
    if size == 8 then Signed(u, 64) else Signed(u % TWO32, 32)
  }

  function DecodeItem(f: Field, was: Value, b: seq<byte>): (r: Parsed<Value>)
    requires WellFormedField(f)
    requires f.ltype.SUBMESSAGE? ==> ItemShape(f, was)
    ensures r.Some? ==> ItemShape(f, r.value.0)
    ensures r.Some? ==> |r.value.1| < |b|
    decreases f, |b|, 0, 0
  {
    match f.ltype
    case VARINT =>
      var u := DecodeVarint(b);
      if u.None? then None
      else
        var n := VarintValue(u.value.0, f.dataSize);
        if SignedFits(n, f.dataSize) then SignedBound(n, f.dataSize); Some((Num(n), u.value.1)) else None
    case UVARINT =>
      var u := DecodeVarint(b);
      if u.None? || !UnsignedFits(u.value.0, f.dataSize) then None else Some((Num(u.value.0), u.value.1))
    case SVARINT =>
      var u := DecodeVarint(b);
      if u.None? || !SignedFits(UnZigZag(u.value.0), f.dataSize) then None
      else Some((Num(UnZigZag(u.value.0)), u.value.1))
    case FIXED32 =>
      var t := Take(b, 4);
      if t.None? then None
      else FromLittleEndianBound(t.value.0); Pow2Literals(); Some((Num(FromLittleEndian(t.value.0)), t.value.1))
    case FIXED64 =>
      var t := Take(b, 8);
      if t.None? then None
      else FromLittleEndianBound(t.value.0); Pow2Literals(); Some((Num(FromLittleEndian(t.value.0)), t.value.1))
    case BYTES =>
      var t := TakeSized(b, f.dataSize - 1);
      if t.None? then None else Some((Blob(t.value.0), t.value.1))
    case STRING =>
      var t := TakeSized(b, f.dataSize - 1);
      if t.None? then None else Some((Blob(CString(t.value.0)), t.value.1))
    case FIXED_LENGTH_BYTES =>
      var size := DecodeVarint32(b);
      if size.None? then None
      else if size.value.0 == 0 then Some((Blob(Zeros(f.dataSize)), size.value.1))
      else if size.value.0 != f.dataSize then None
      else
        var t := Take(size.value.1, f.dataSize);
        if t.None? then None else Some((Blob(t.value.0), t.value.1))
    case SUBMESSAGE(sub) =>
      var t := TakeDelimited(b);
      if t.None? then None
      else
        DefaultsShape(sub, was.slots);
        var start := if f.htype.REPEATED? then SetDefaults(sub, was.slots) else was.slots;
        var r := DecodeNoInit(sub, start, t.value.0);
        if r.None? then None else Some((Struct(r.value.0), t.value.1))
  }

  /** A delimited value of at most `limit` bytes. */
  function TakeSized(b: seq<byte>, limit: int): (r: Parsed<seq<byte>>)
    ensures r.Some? ==> |r.value.0| <= limit
    ensures r.Some? ==> |r.value.0| + |r.value.1| < |b|
  {
    var size := DecodeVarint32(b);
    if size.None? || size.value.0 > limit then None else Take(size.value.1, size.value.0)
  }

  lemma {:induction false} SignedBound(n: int, size: nat)
    requires SignedFits(n, size) && IntSize(size)
    ensures -TWO63 <= n < TWO63
  {
    Pow2Literals();
    Pow2Monotone(8 * size - 1, 63);
    assert Pow2(64) == 2 * Pow2(63);
    assert Pow2(8 * size) == 2 * Pow2(8 * size - 1);
  }

  /** A packed array, item after item into the free entries. */
  function DecodePacked(f: Field, s: Slot, b: seq<byte>): (r: Option<Slot>)
    requires WellFormedField(f) && f.htype.REPEATED? && Packable(f.ltype) && FieldShape(f, s)
    ensures r.Some? ==> FieldShape(f, r.value)
    decreases f, |b|, 1, 0
  {
    if b == [] then Some(s)
    else if s.size >= f.arraySize then None
    else
      var item := DecodeItem(f, s.items[s.size], b);
      if item.None? then None
      else DecodePacked(f, Slot(s.size + 1, s.items[s.size := item.value.0]), item.value.1)
  }

  function DecodeRepeated(f: Field, s: Slot, wireType: nat, b: seq<byte>): (r: Parsed<Slot>)
    requires WellFormedField(f) && f.htype.REPEATED? && FieldShape(f, s)
    ensures r.Some? ==> FieldShape(f, r.value.0) && |r.value.1| < |b|
    decreases f, |b|, 2, 0
  {
    if wireType == WT_STRING && Packable(f.ltype) then
      var t := TakeDelimited(b);
      if t.None? then None
      else
        var packed := DecodePacked(f, s, t.value.0);
        if packed.None? then None else Some((packed.value, t.value.1))
    else if s.size >= f.arraySize then None
    else
      var v := DecodeItem(f, s.items[s.size], b);
      if v.None? then None else Some((Slot(s.size + 1, s.items[s.size := v.value.0]), v.value.1))
  }

  /** decode_static_field: the slot of the field after one record. */
  function DecodeField(f: Field, s: Slot, wireType: nat, b: seq<byte>): (r: Parsed<Slot>)
    requires WellFormedField(f)
    requires FieldShape(f, s)
    ensures r.Some? ==> FieldShape(f, r.value.0)
    ensures r.Some? && f.htype.ONEOF? ==> r.value.0.size == f.tag
    ensures r.Some? ==> |r.value.1| < |b|
    decreases f, |b|, 3, 0
  {
    match f.htype
    case REQUIRED =>
      var v := DecodeItem(f, s.items[0], b);
      if v.None? then None else Some((Slot(s.size, [v.value.0]), v.value.1))
    case OPTIONAL =>
      var v := DecodeItem(f, s.items[0], b);
      if v.None? then None else Some((Slot(if HasFlag(f) then 1 else s.size, [v.value.0]), v.value.1))
    case REPEATED => DecodeRepeated(f, s, wireType, b)
    case ONEOF =>
      ZeroItemShape(f);
      var was := if f.ltype.SUBMESSAGE? then DefaultItem(f, ZeroItem(f)) else s.items[0];
      DefaultItemShape(f, ZeroItem(f));
      var v := DecodeItem(f, was, b);
      if v.None? then None else Some((Slot(f.tag, [v.value.0]), v.value.1))
  }

  // ---- decoding messages ----

  /** The struct, the iterator position and the required fields seen so far, by their index. */
  datatype State = State(slots: seq<Slot>, pos: nat, seen: set<nat>)

  predicate StateShape(fields: seq<Field>, st: State) {
    MessageShape(fields, st.slots) && OnField(fields, st.pos)
  }

  function Mark(fields: seq<Field>, i: nat, seen: set<nat>): set<nat>
    requires i < |fields|
  {
    if fields[i].htype.REQUIRED? && RequiredBefore(fields, i) < PB_MAX_REQUIRED_FIELDS
    then seen + {RequiredBefore(fields, i)} else seen
  }

  /** The loop of pb_decode_noinit. */
  function DecodeLoop(fields: seq<Field>, st: State, b: seq<byte>): (r: Parsed<State>)
    requires WellFormed(fields) && StateShape(fields, st)
    ensures r.Some? ==> StateShape(fields, r.value.0)
    ensures r.Some? ==> |r.value.1| <= |b|
    decreases fields, |b|, 4, 0
  {
    if b == [] then Some((st, []))
    else
      match DecodeTag(b)
      case Malformed => None
      case EndMark(rest) => Some((st, rest))
      case Found(tag, wireType, rest) =>
        match Find(fields, st.pos, tag)
        case Terminator => None
        case NotFound =>
          var skipped := SkipField(wireType, rest);
          if skipped.None? then None else DecodeLoop(fields, st, skipped.value)
        case At(i) =>
          var k := SlotOf(fields, i);
          assert FieldShape(fields[i], st.slots[k]);
          var d := DecodeField(fields[i], st.slots[k], wireType, rest);
          if d.None? then None
          else
            StoreShape(fields, st.slots, i, d.value.0);
            DecodeLoop(fields, State(st.slots[k := d.value.0], i, Mark(fields, i, st.seen)), d.value.1)
  }

  /** Storing a field back keeps the shape, also for the other members of its union. */
  lemma {:induction false} StoreShape(fields: seq<Field>, slots: seq<Slot>, i: nat, s: Slot)
    requires MessageShape(fields, slots) && i < |fields| && FieldShape(fields[i], s) && WellFormed(fields)
    requires fields[i].htype.ONEOF? ==> s.size == fields[i].tag
    ensures MessageShape(fields, slots[SlotOf(fields, i) := s])
  {
    var k := SlotOf(fields, i);
    var after := slots[k := s];
    forall j | 0 <= j < |fields| ensures FieldShape(fields[j], after[SlotOf(fields, j)]) {
      assert FieldShape(fields[j], slots[SlotOf(fields, j)]);
      if j != i && SlotOf(fields, j) == k {
        assert fields[j].htype.ONEOF? && fields[i].htype.ONEOF?;
        assert fields[j].tag != fields[i].tag;
      }
    }
  }

  /** All of the first 64 required fields were seen. */
  predicate Complete(fields: seq<Field>, seen: set<nat>) {
    forall n: nat | n < RequiredBefore(fields, |fields|) && n < PB_MAX_REQUIRED_FIELDS :: n in seen
  }

  function DecodeNoInit(fields: seq<Field>, slots: seq<Slot>, b: seq<byte>): (r: Parsed<seq<Slot>>)
    requires WellFormed(fields) && MessageShape(fields, slots)
    ensures r.Some? ==> MessageShape(fields, r.value.0)
    ensures r.Some? ==> |r.value.1| <= |b|
    decreases fields, |b|, 5, 0
  {
    var r := DecodeLoop(fields, State(slots, 0, {}), b);
    if r.None? || !Complete(fields, r.value.0.seen) then None
    else Some((r.value.0.slots, r.value.1))
  }

  /** pb_decode: set the defaults, then decode. */
  function Decode(fields: seq<Field>, slots: seq<Slot>, b: seq<byte>): (r: Parsed<seq<Slot>>)
    requires WellFormed(fields) && MessageShape(fields, slots)
    ensures r.Some? ==> MessageShape(fields, r.value.0)
    ensures r.Some? ==> |r.value.1| <= |b|
  {
    DefaultsShape(fields, slots);
    DecodeNoInit(fields, SetDefaults(fields, slots), b)
  }

  /** pb_decode on a struct is the decoding of its reset struct. */
  lemma {:induction false} DecodeResets(fields: seq<Field>, dest: seq<Slot>, b: seq<byte>)
    requires WellFormed(fields) && MessageShape(fields, dest)
    ensures SlotsShape(fields, dest) && MessageShape(fields, SetDefaults(fields, dest))
    ensures Decode(fields, dest, b) == DecodeNoInit(fields, SetDefaults(fields, dest), b)
  {
    DefaultsShape(fields, dest);
    hide DecodeNoInit, SetDefaults, MessageShape, WellFormed;
  }
}
