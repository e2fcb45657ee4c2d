/** Bytes behind a value do not change how it is read, and fields the descriptor does not know are invisible. */
module PbUnknown {
  import opened Bits
  import opened Wire
  import opened PbTypes
  import opened PbFormat
  import opened PbParse
  import opened PbTrip

  // ---- a value is read without looking behind it ----

  /** The same value, with the appended bytes left over. */
  function Longer<T>(r: Parsed<T>, more: seq<byte>): Parsed<T> {
    if r.Some? then Some((r.value.0, r.value.1 + more)) else None
  }

  lemma {:induction false} TagExtends(b: seq<byte>, more: seq<byte>)
    requires DecodeTag(b).Found?
    ensures DecodeTag(b + more) == Found(DecodeTag(b).tag, DecodeTag(b).wireType, DecodeTag(b).rest + more)
  {
    Varint32Extends(b, more);
  }

  lemma {:induction false} TakeExtends(b: seq<byte>, n: nat, more: seq<byte>)
    requires n <= |b|
    ensures Take(b + more, n) == Longer(Take(b, n), more)
  {
    assert (b + more)[..n] == b[..n] && (b + more)[n..] == b[n..] + more;
  }

  lemma {:induction false} DelimitedExtends(b: seq<byte>, more: seq<byte>)
    requires TakeDelimited(b).Some?
    ensures TakeDelimited(b + more) == Longer(TakeDelimited(b), more)
  {
    Varint32Extends(b, more);
    var size := DecodeVarint32(b).value;
    TakeExtends(size.1, size.0, more);
  }

  lemma {:induction false} SizedExtends(b: seq<byte>, limit: int, more: seq<byte>)
    requires TakeSized(b, limit).Some?
    ensures TakeSized(b + more, limit) == Longer(TakeSized(b, limit), more)
  {
    Varint32Extends(b, more);
    var size := DecodeVarint32(b).value;
    TakeExtends(size.1, size.0, more);
  }

  lemma {:induction false} SkipVarintExtends(b: seq<byte>, more: seq<byte>)
    requires SkipVarint(b).Some?
    ensures SkipVarint(b + more) == Some(SkipVarint(b).value + more)
  {
    assert (b + more)[1..] == b[1..] + more;
    if b[0] >= 128 {
      SkipVarintExtends(b[1..], more);
    }
  }

  lemma {:induction false} SkipExtends(wireType: nat, b: seq<byte>, more: seq<byte>)
    requires SkipField(wireType, b).Some?
    ensures SkipField(wireType, b + more) == Some(SkipField(wireType, b).value + more)
  {
    if wireType == WT_VARINT {
      SkipVarintExtends(b, more);
    } else if wireType == WT_STRING {
      DelimitedExtends(b, more);
    } else if wireType == WT_64BIT {
      assert (b + more)[8..] == b[8..] + more;
    } else {
      assert (b + more)[4..] == b[4..] + more;
    }
  }

  lemma {:induction false} NumberExtends(f: Field, was: Value, b: seq<byte>, more: seq<byte>)
    requires WellFormedField(f) && Packable(f.ltype) && DecodeItem(f, was, b).Some?
    ensures DecodeItem(f, was, b + more) == Longer(DecodeItem(f, was, b), more)
  {
    hide VarintFrom, SignedFits, UnsignedFits, VarintValue, UnZigZag, FromLittleEndian, WellFormedField;
    match f.ltype
    case VARINT => VarintExtends(b, more, 0, 0);
    case UVARINT => VarintExtends(b, more, 0, 0);
    case SVARINT => VarintExtends(b, more, 0, 0);
    case FIXED32 => TakeExtends(b, 4, more);
    case FIXED64 => TakeExtends(b, 8, more);
  }

  lemma {:induction false} FixedLengthExtends(f: Field, was: Value, b: seq<byte>, more: seq<byte>)
    requires WellFormedField(f) && f.ltype.FIXED_LENGTH_BYTES? && DecodeItem(f, was, b).Some?
    ensures DecodeItem(f, was, b + more) == Longer(DecodeItem(f, was, b), more)
  {
    Varint32Extends(b, more);
    var size := DecodeVarint32(b).value;
    if size.0 != 0 {
      TakeExtends(size.1, f.dataSize, more);
    }
  }

  lemma {:induction false} ItemExtends(f: Field, was: Value, b: seq<byte>, more: seq<byte>)
    requires WellFormedField(f) && (f.ltype.SUBMESSAGE? ==> ItemShape(f, was)) && DecodeItem(f, was, b).Some?
    ensures DecodeItem(f, was, b + more) == Longer(DecodeItem(f, was, b), more)
  {
    hide TakeSized, TakeDelimited, CString, DecodeNoInit, SetDefaults, SlotsShape;
    match f.ltype
    case BYTES => SizedExtends(b, f.dataSize - 1, more);
    case STRING => SizedExtends(b, f.dataSize - 1, more);
    case SUBMESSAGE(sub) => DelimitedExtends(b, more);
    case FIXED_LENGTH_BYTES => FixedLengthExtends(f, was, b, more);
    case _ => NumberExtends(f, was, b, more);
  }

  lemma {:induction false} FieldExtends(f: Field, s: Slot, wireType: nat, b: seq<byte>, more: seq<byte>)
    requires WellFormedField(f) && FieldShape(f, s) && DecodeField(f, s, wireType, b).Some?
    ensures DecodeField(f, s, wireType, b + more) == Longer(DecodeField(f, s, wireType, b), more)
  {
    hide DecodeItem, DecodePacked, TakeDelimited, ItemShape, DefaultItem, ZeroItem, WellFormedField;
    if f.htype.REPEATED? && wireType == WT_STRING && Packable(f.ltype) {
      DelimitedExtends(b, more);
    } else if f.htype.REPEATED? {
      ItemExtends(f, s.items[s.size], b, more);
    } else if f.htype.ONEOF? {
      ZeroItemShape(f);
      DefaultItemShape(f, ZeroItem(f));
      ItemExtends(f, if f.ltype.SUBMESSAGE? then DefaultItem(f, ZeroItem(f)) else s.items[0], b, more);
    } else {
      ItemExtends(f, s.items[0], b, more);
    }
  }

  // ---- turns of the decoding loop ----

  /** One turn of the loop of pb_decode_noinit on a record that is there; none at an end mark, at the end
      of the input or on an error. */
  function Turn(fields: seq<Field>, st: State, b: seq<byte>): (r: Parsed<State>)
    requires WellFormed(fields) && StateShape(fields, st)
    ensures r.Some? ==> StateShape(fields, r.value.0) && |r.value.1| < |b|
  {
    var key := DecodeTag(b);
    if b == [] || !key.Found? then None
    else
      match Find(fields, st.pos, key.tag)
      case Terminator => None
      case NotFound =>
        var skipped := SkipField(key.wireType, key.rest);
        if skipped.None? then None else Some((st, skipped.value))
      case At(i) =>
        var k := SlotOf(fields, i);
        assert FieldShape(fields[i], st.slots[k]);
        var d := DecodeField(fields[i], st.slots[k], key.wireType, key.rest);
        if d.None? then None
        else
          StoreShape(fields, st.slots, i, d.value.0);
          Some((State(st.slots[k := d.value.0], i, Mark(fields, i, st.seen)), d.value.1))
  }

  lemma {:induction false} TurnIsStep(fields: seq<Field>, st: State, b: seq<byte>)
    requires WellFormed(fields) && StateShape(fields, st) && Turn(fields, st, b).Some?
    ensures DecodeLoop(fields, st, b) == DecodeLoop(fields, Turn(fields, st, b).value.0, Turn(fields, st, b).value.1)
  {
    hide DecodeTag, Find, SkipField, DecodeField, SlotOf, WellFormed, StateShape, FieldShape;
  }

  lemma {:induction false} TurnExtends(fields: seq<Field>, st: State, b: seq<byte>, more: seq<byte>)
    requires WellFormed(fields) && StateShape(fields, st) && Turn(fields, st, b).Some?
    ensures Turn(fields, st, b + more) == Longer(Turn(fields, st, b), more)
  {
    TagExtends(b, more);
    var key := DecodeTag(b);
    match Find(fields, st.pos, key.tag)
    case NotFound => SkipExtends(key.wireType, key.rest, more);
    case At(i) =>
      assert FieldShape(fields[i], st.slots[SlotOf(fields, i)]);
      FieldExtends(fields[i], st.slots[SlotOf(fields, i)], key.wireType, key.rest, more);
    case Terminator =>
  }

  /** `p` is a whole number of records for the decoder, and takes it from `st` to `st'`. */
  ghost predicate Boundary(fields: seq<Field>, st: State, p: seq<byte>, st': State)
    requires WellFormed(fields) && StateShape(fields, st)
    decreases |p|
  {
    if p == [] then st' == st
    else
      var t := Turn(fields, st, p);
      t.Some? && Boundary(fields, t.value.0, t.value.1, st')
  }

  /** Behind whole records the loop goes on with what follows. */
  lemma {:induction false} GoesOn(fields: seq<Field>, st: State, p: seq<byte>, st': State, q: seq<byte>)
    requires WellFormed(fields) && StateShape(fields, st) && Boundary(fields, st, p, st')
    ensures StateShape(fields, st') && DecodeLoop(fields, st, p + q) == DecodeLoop(fields, st', q)
    decreases |p|
  {
    hide Turn, DecodeLoop, WellFormed, StateShape;
    if p == [] {
      assert p + q == q;
    } else {
      TurnExtends(fields, st, p, q);
      TurnIsStep(fields, st, p + q);
      var t := Turn(fields, st, p).value;
      GoesOn(fields, t.0, t.1, st', q);
    }
  }

  // ---- unknown fields ----

  /** `u` is one well-formed record that no field of the descriptor claims. */
  predicate Unknown(fields: seq<Field>, u: seq<byte>) {
    && DecodeTag(u).Found?
    && SkipField(DecodeTag(u).wireType, DecodeTag(u).rest) == Some([])
    && forall f | f in fields :: f.tag != DecodeTag(u).tag
  }

  lemma {:induction false} UnknownTurn(fields: seq<Field>, st: State, u: seq<byte>)
    requires WellFormed(fields) && StateShape(fields, st) && Unknown(fields, u)
    requires fields != [] || DecodeTag(u).tag != 0
    ensures Turn(fields, st, u) == Some((st, []))
  {
    if fields != [] {
      FindExact(fields, st.pos, DecodeTag(u).tag);
    }
  }

  /** An unknown record at a boundary changes nothing: result, struct and bytes left are the same. */
  lemma {:induction false} UnknownInvisible(fields: seq<Field>, st: State, p: seq<byte>, st': State, u: seq<byte>, q: seq<byte>)
    requires WellFormed(fields) && StateShape(fields, st) && Boundary(fields, st, p, st') && Unknown(fields, u)
    requires fields != [] || DecodeTag(u).tag != 0
    ensures DecodeLoop(fields, st, p + u + q) == DecodeLoop(fields, st, p + q)
  {
    hide *;
    GoesOn(fields, st, p, st', q);
    GoesOn(fields, st, p, st', u + q);
    UnknownTurn(fields, st', u);
    OneBoundary(fields, st', u);
    GoesOn(fields, st', u, st', q);
    assert p + u + q == p + (u + q);
  }

  lemma {:induction false} OneBoundary(fields: seq<Field>, st: State, u: seq<byte>)
    requires WellFormed(fields) && StateShape(fields, st) && Turn(fields, st, u) == Some((st, []))
    ensures Boundary(fields, st, u, st)
  {
    hide Turn;
  }

  /** For a whole message the records are counted from the reset struct. */
  ghost predicate MessageBoundary(fields: seq<Field>, dest: seq<Slot>, p: seq<byte>)
    requires WellFormed(fields) && MessageShape(fields, dest)
  {
    DefaultsShape(fields, dest);
    exists st' :: Boundary(fields, State(SetDefaults(fields, dest), 0, {}), p, st')
  }

  lemma {:induction false} MessageUnknownInvisible(fields: seq<Field>, dest: seq<Slot>, p: seq<byte>, u: seq<byte>, q: seq<byte>)
    requires WellFormed(fields) && MessageShape(fields, dest) && MessageBoundary(fields, dest, p) && Unknown(fields, u)
    requires fields != [] || DecodeTag(u).tag != 0
    ensures Decode(fields, dest, p + u + q) == Decode(fields, dest, p + q)
  {
    DefaultsShape(fields, dest);
    var st := State(SetDefaults(fields, dest), 0, {});
    var st' :| Boundary(fields, st, p, st');
    UnknownInvisible(fields, st, p, st', u, q);
    hide DecodeLoop, Complete, SetDefaults, Boundary, Unknown;
  }

  /** The one exception: the terminator of an empty message type answers to tag 0. */
  lemma {:induction false} KeyZeroOfEmptyType(st: State, u: seq<byte>, q: seq<byte>)
    requires StateShape([], st) && Unknown([], u) && DecodeTag(u).tag == 0
    ensures DecodeLoop([], st, u + q) == None
    ensures DecodeLoop([], st, []) == Some((st, []))
  {
    TagExtends(u, q);
  }

  /** Inside a submessage as well: only what its records say matters to the parent, which is advanced by
      exactly the declared length, even where the submessage ends early at an end mark. */
  lemma {:induction false} SubmessageAdvance(f: Field, was: Value, b: seq<byte>)
    requires WellFormedField(f) && f.ltype.SUBMESSAGE? && ItemShape(f, was) && DecodeItem(f, was, b).Some?
    ensures var size := DecodeVarint32(b);
      size.Some? && size.value.0 <= |size.value.1| && DecodeItem(f, was, b).value.1 == size.value.1[size.value.0..]
  {}

  lemma {:induction false} NestedUnknownInvisible(f: Field, sub: seq<Field>, was: Value, p: seq<byte>, u: seq<byte>, q: seq<byte>, tail: seq<byte>)
    requires WellFormedField(f) && f.ltype == SUBMESSAGE(sub) && ItemShape(f, was)
    requires |p + u + q| < TWO32 && Unknown(sub, u) && (sub != [] || DecodeTag(u).tag != 0)
    requires exists st' :: Boundary(sub, State(Start(f, sub, was), 0, {}), p, st')
    ensures DecodeItem(f, was, Delimited(p + u + q) + tail) == DecodeItem(f, was, Delimited(p + q) + tail)
  {
    var start := Start(f, sub, was);
    var st' :| Boundary(sub, State(start, 0, {}), p, st');
    hide DecodeLoop, Complete, SetDefaults, Boundary, Unknown, MessageShape, WellFormed, DecodeItem, Delimited, Start;
    UnknownInvisible(sub, State(start, 0, {}), p, st', u, q);
    ContentDecides(f, sub, was, p + u + q, tail);
    ContentDecides(f, sub, was, p + q, tail);
  }

  /** The struct the decoder of a submessage starts from. */
  function Start(f: Field, sub: seq<Field>, was: Value): (start: seq<Slot>)
    requires WellFormedField(f) && f.ltype == SUBMESSAGE(sub) && ItemShape(f, was)
    ensures MessageShape(sub, start)
  {
    DefaultsShape(sub, was.slots);
    if f.htype.REPEATED? then SetDefaults(sub, was.slots) else was.slots
  }

  lemma {:induction false} ContentDecides(f: Field, sub: seq<Field>, was: Value, content: seq<byte>, tail: seq<byte>)
    requires WellFormedField(f) && f.ltype == SUBMESSAGE(sub) && ItemShape(f, was) && |content| < TWO32
    ensures var r := DecodeNoInit(sub, Start(f, sub, was), content);
      DecodeItem(f, was, Delimited(content) + tail) == if r.None? then None else Some((Struct(r.value.0), tail))
  {
    DelimitedRoundTrip(content, tail);
    hide DecodeNoInit, TakeDelimited, Delimited, SetDefaults, SlotsShape, MessageShape, WellFormed;
  }
}
