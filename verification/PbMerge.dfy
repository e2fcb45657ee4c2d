/** Encodings put one behind the other: a second occurrence of a field replaces a number or a string, is merged into
    a submessage and appended to an array. */
module PbMerge {
  import opened Bits
  import opened Wire
  import opened PbTypes
  import opened PbFormat
  import opened PbParse
  import opened PbUnknown
  import opened PbRequired
  import T = PbTrip

  // ---- the struct alone decides how the loop goes on ----

  /** The same struct, with what was seen in one state seen in the other. */
  ghost predicate Like(st: State, other: State) {
    st.slots == other.slots && st.seen <= other.seen
  }

  ghost predicate LikeTurns(t: Parsed<State>, u: Parsed<State>) {
    && (t.Some? <==> u.Some?)
    && (t.Some? ==> Like(t.value.0, u.value.0) && t.value.1 == u.value.1)
  }

  lemma {:induction false} FoundAlike(fields: seq<Field>, p: nat, q: nat, tag: nat)
    requires WellFormed(fields) && OnField(fields, p) && OnField(fields, q)
    ensures Find(fields, p, tag) == Find(fields, q, tag)
  {
    if fields != [] {
      T.FindExact(fields, p, tag);
      T.FindExact(fields, q, tag);
      if i :| 0 <= i < |fields| && fields[i].tag == tag {
        assert Find(fields, p, tag) == At(i);
      }
    }
  }

  lemma {:induction false} TurnsAlike(fields: seq<Field>, st: State, other: State, b: seq<byte>)
    requires WellFormed(fields) && StateShape(fields, st) && StateShape(fields, other) && Like(st, other)
    ensures LikeTurns(Turn(fields, st, b), Turn(fields, other, b))
  {
    hide DecodeField, SkipField, DecodeTag, FieldShape, Find, WellFormed, SlotOf, Mark, StateShape;
    var key := DecodeTag(b);
    if b != [] && key.Found? {
      StatesHere(fields, st, other);
      FoundAlike(fields, st.pos, other.pos, key.tag);
      match Find(fields, st.pos, key.tag)
      case At(i) => MarksAlike(fields, i, st.seen, other.seen);
      case _ =>
    }
  }

  lemma {:induction false} StatesHere(fields: seq<Field>, st: State, other: State)
    requires StateShape(fields, st) && StateShape(fields, other)
    ensures OnField(fields, st.pos) && OnField(fields, other.pos)
  {}

  lemma {:induction false} MarksAlike(fields: seq<Field>, i: nat, seen: set<nat>, more: set<nat>)
    requires i < |fields| && seen <= more
    ensures Mark(fields, i, seen) <= Mark(fields, i, more)
  {}

  /** Without a record that is there the loop ends in its state, or fails. */
  lemma {:induction false} LoopEnds(fields: seq<Field>, st: State, b: seq<byte>)
    requires WellFormed(fields) && StateShape(fields, st) && Turn(fields, st, b).None?
    ensures DecodeLoop(fields, st, b)
         == if b == [] then Some((st, [])) else if DecodeTag(b).EndMark? then Some((st, DecodeTag(b).rest)) else None
  {
    hide DecodeTag, Find, SkipField, DecodeField, SlotOf, WellFormed, StateShape, FieldShape;
  }

  /** Neither the position of the iterator nor the fields seen before matter to what is stored. */
  lemma {:induction false} LoopsAlike(fields: seq<Field>, st: State, other: State, b: seq<byte>)
    requires WellFormed(fields) && StateShape(fields, st) && StateShape(fields, other) && Like(st, other)
    ensures LikeTurns(DecodeLoop(fields, st, b), DecodeLoop(fields, other, b))
    decreases |b|
  {
    hide Turn, DecodeLoop, WellFormed, StateShape, DecodeTag;
    TurnsAlike(fields, st, other, b);
    if Turn(fields, st, b).None? {
      LoopEnds(fields, st, b);
      LoopEnds(fields, other, b);
    } else {
      TurnIsStep(fields, st, b);
      TurnIsStep(fields, other, b);
      LoopsAlike(fields, Turn(fields, st, b).value.0, Turn(fields, other, b).value.0, Turn(fields, st, b).value.1);
    }
  }

  lemma {:induction false} OccursAlike(fields: seq<Field>, st: State, other: State, b: seq<byte>, tag: nat)
    requires WellFormed(fields) && StateShape(fields, st) && StateShape(fields, other) && Like(st, other)
    ensures Occurs(fields, st, b, tag) <==> Occurs(fields, other, b, tag)
    decreases |b|
  {
    hide Turn, WellFormed, StateShape, DecodeTag;
    TurnsAlike(fields, st, other, b);
    if Turn(fields, st, b).Some? {
      OccursAlike(fields, Turn(fields, st, b).value.0, Turn(fields, other, b).value.0, Turn(fields, st, b).value.1, tag);
    }
  }

  /** Records behind whole records. */
  lemma {:induction false} OccursInEither(fields: seq<Field>, st: State, p: seq<byte>, st': State, q: seq<byte>, tag: nat)
    requires WellFormed(fields) && StateShape(fields, st) && Boundary(fields, st, p, st')
    ensures StateShape(fields, st')
    ensures Occurs(fields, st, p + q, tag) <==> Occurs(fields, st, p, tag) || Occurs(fields, st', q, tag)
    decreases |p|
  {
    hide Turn, WellFormed, StateShape, DecodeTag;
    if p == [] {
      assert p + q == q;
      NoTurn(fields, st);
    } else {
      var t := Turn(fields, st, p).value;
      TurnExtends(fields, st, p, q);
      SameTag(fields, st, p, q);
      OccursInEither(fields, t.0, t.1, st', q, tag);
    }
  }

  lemma {:induction false} NoTurn(fields: seq<Field>, st: State)
    requires WellFormed(fields) && StateShape(fields, st)
    ensures Turn(fields, st, []).None?
  {}

  lemma {:induction false} SameTag(fields: seq<Field>, st: State, p: seq<byte>, q: seq<byte>)
    requires WellFormed(fields) && StateShape(fields, st) && Turn(fields, st, p).Some?
    ensures DecodeTag(p).Found? && DecodeTag(p + q).Found? && DecodeTag(p + q).tag == DecodeTag(p).tag
  {
    TagExtends(p, q);
    hide Find, SkipField, DecodeField;
  }

  // ---- messages ----

  /** Whole records `p` with `q` behind them: `q` is decoded into the struct that `p` has left, and each of the first
      64 required fields must occur in one of the two. */
  lemma {:induction false} Merges(fields: seq<Field>, start: seq<Slot>, p: seq<byte>, st: State, q: seq<byte>)
    requires WellFormed(fields) && MessageShape(fields, start) && StateShape(fields, State(start, 0, {}))
    requires Boundary(fields, State(start, 0, {}), p, st)
    ensures MessageShape(fields, st.slots) && StateShape(fields, State(st.slots, 0, {}))
    ensures var r, loop := DecodeNoInit(fields, start, p + q), DecodeLoop(fields, State(st.slots, 0, {}), q);
      && (r.Some? ==> loop.Some? && r.value == (loop.value.0.slots, loop.value.1))
      && (r.Some? <==> loop.Some? && EachInEither(fields, start, p, st.slots, q))
    ensures DecodeNoInit(fields, st.slots, q).Some? ==> DecodeNoInit(fields, start, p + q) == DecodeNoInit(fields, st.slots, q)
  {
    hide *;
    GoesOn(fields, State(start, 0, {}), p, st, q);
    var again := Again(fields, st);
    LoopsAlike(fields, again, st, q);
    Likes(DecodeLoop(fields, again, q), DecodeLoop(fields, st, q));
    NeededInEither(fields, start, p, st, q);
    NoInitIs(fields, start, p + q);
    NoInitIs(fields, st.slots, q);
  }

  /** Every field whose presence is checked occurs in `p` or in `q`. */
  ghost predicate EachInEither(fields: seq<Field>, start: seq<Slot>, p: seq<byte>, merged: seq<Slot>, q: seq<byte>)
    requires WellFormed(fields) && StateShape(fields, State(start, 0, {})) && StateShape(fields, State(merged, 0, {}))
  {
    forall i | 0 <= i < |fields| && Checked(fields, i) ::
      Occurs(fields, State(start, 0, {}), p, fields[i].tag) || Occurs(fields, State(merged, 0, {}), q, fields[i].tag)
  }

  lemma {:induction false} NeededInEither(fields: seq<Field>, start: seq<Slot>, p: seq<byte>, st: State, q: seq<byte>)
    requires WellFormed(fields) && MessageShape(fields, start) && StateShape(fields, State(start, 0, {})) && MessageShape(fields, st.slots)
    requires Boundary(fields, State(start, 0, {}), p, st) && StateShape(fields, st) && StateShape(fields, State(st.slots, 0, {}))
    requires Like(State(st.slots, 0, {}), st)
    ensures DecodeNoInit(fields, start, p + q).Some?
       <==> DecodeLoop(fields, State(start, 0, {}), p + q).Some? && EachInEither(fields, start, p, st.slots, q)
    ensures DecodeNoInit(fields, st.slots, q).Some?
        ==> DecodeLoop(fields, State(st.slots, 0, {}), q).Some? && EachInEither(fields, start, p, st.slots, q)
  {
    hide DecodeNoInit, DecodeLoop, Occurs, Boundary, WellFormed, MessageShape, StateShape, Checked, Like;
    var first, again := State(start, 0, {}), State(st.slots, 0, {});
    forall i | 0 <= i < |fields| && Checked(fields, i)
      ensures Occurs(fields, first, p + q, fields[i].tag)
         <==> Occurs(fields, first, p, fields[i].tag) || Occurs(fields, again, q, fields[i].tag)
    {
      OccursInEither(fields, first, p, st, q, fields[i].tag);
      OccursAlike(fields, again, st, q, fields[i].tag);
    }
    AcceptedIffComplete(fields, start, p + q);
    AcceptedIffComplete(fields, st.slots, q);
  }

  lemma {:induction false} Again(fields: seq<Field>, st: State) returns (again: State)
    requires StateShape(fields, st)
    ensures MessageShape(fields, st.slots) && again == State(st.slots, 0, {}) && StateShape(fields, again) && Like(again, st)
  {
    again := State(st.slots, 0, {});
    hide MessageShape;
  }

  lemma {:induction false} Likes(t: Parsed<State>, u: Parsed<State>)
    requires LikeTurns(t, u)
    ensures t.Some? <==> u.Some?
    ensures t.Some? ==> t.value.0.slots == u.value.0.slots && t.value.1 == u.value.1
  {}

  lemma {:induction false} NoInitIs(fields: seq<Field>, start: seq<Slot>, b: seq<byte>)
    requires WellFormed(fields) && MessageShape(fields, start) && StateShape(fields, State(start, 0, {}))
    ensures DecodeNoInit(fields, start, b).Some? ==>
      var loop := DecodeLoop(fields, State(start, 0, {}), b);
      loop.Some? && DecodeNoInit(fields, start, b).value == (loop.value.0.slots, loop.value.1)
  {
    hide DecodeLoop, Complete, MessageShape, StateShape, WellFormed;
  }

  // ---- fields that occur again ----

  /** A submessage outside arrays and unions: two records are read as one with their contents put together. */
  lemma {:induction false} SubmessageMerges(f: Field, was: Value, p: seq<byte>, st: State, q: seq<byte>, tail: seq<byte>)
    requires WellFormedField(f) && f.ltype.SUBMESSAGE? && !f.htype.REPEATED? && ItemShape(f, was) && |p + q| < TWO32
    requires MessageShape(f.ltype.fields, was.slots) && StateShape(f.ltype.fields, State(was.slots, 0, {}))
    requires WellFormed(f.ltype.fields) && Boundary(f.ltype.fields, State(was.slots, 0, {}), p, st)
    requires DecodeItem(f, was, Delimited(p) + tail).Some?
    ensures var once := DecodeItem(f, was, Delimited(p) + tail).value.0;
      && ItemShape(f, once)
      && (DecodeItem(f, once, Delimited(q) + tail).Some? ==>
            DecodeItem(f, was, Delimited(p + q) + tail) == DecodeItem(f, once, Delimited(q) + tail))
  {
    var sub := f.ltype.fields;
    hide *;
    StartIs(f, sub, was);
    ContentDecides(f, sub, was, p, tail);
    var once := DecodeItem(f, was, Delimited(p) + tail).value.0;
    Merges(sub, was.slots, p, st, []);
    Merges(sub, was.slots, p, st, q);
    assert p + [] == p;
    AtEnd(sub, st.slots);
    assert once == Struct(st.slots);
    StartIs(f, sub, once);
    ContentDecides(f, sub, once, q, tail);
    ContentDecides(f, sub, was, p + q, tail);
  }

  lemma {:induction false} StartIs(f: Field, sub: seq<Field>, was: Value)
    requires WellFormedField(f) && f.ltype == SUBMESSAGE(sub) && !f.htype.REPEATED? && ItemShape(f, was)
    ensures was.Struct? && MessageShape(sub, was.slots) && WellFormed(sub) && Start(f, sub, was) == was.slots
  {}

  lemma {:induction false} AtEnd(fields: seq<Field>, slots: seq<Slot>)
    requires WellFormed(fields) && MessageShape(fields, slots) && StateShape(fields, State(slots, 0, {}))
    ensures DecodeLoop(fields, State(slots, 0, {}), []) == Some((State(slots, 0, {}), []))
  {}

  /** Any other value, and any member of a union, is read without regard to what the field held: the last record
      wins. The wire type in its key is not looked at. */
  lemma {:induction false} LastWins(f: Field, s: Slot, t: Slot, w: nat, v: nat, b: seq<byte>)
    requires WellFormedField(f) && FieldShape(f, s) && FieldShape(f, t)
    requires f.htype.ONEOF? || (!f.htype.REPEATED? && !f.ltype.SUBMESSAGE?)
    ensures var r, u := DecodeField(f, s, w, b), DecodeField(f, t, v, b);
      && (r.Some? <==> u.Some?)
      && (r.Some? ==> r.value.0.items == u.value.0.items && r.value.1 == u.value.1)
  {
    hide ItemShape, WellFormedField;
    ZeroItemShape(f);
    DefaultItemShape(f, ZeroItem(f));
    if !f.ltype.SUBMESSAGE? {
      AnyItem(f, s.items[0], t.items[0], b);
    }
    hide DecodeItem, DefaultItem, ZeroItem;
  }

  /** A record sets the flag of an optional field that has one, and the choice of a union, and no other companion of a
      single value. */
  lemma {:induction false} SetsCompanion(f: Field, s: Slot, w: nat, b: seq<byte>)
    requires WellFormedField(f) && FieldShape(f, s) && !f.htype.REPEATED? && DecodeField(f, s, w, b).Some?
    ensures DecodeField(f, s, w, b).value.0.size
         == if f.htype.ONEOF? then f.tag else if f.htype.OPTIONAL? && f.sizeOffset != 0 then 1 else s.size
  {
    hide DecodeItem, ItemShape, WellFormedField, DefaultItem, ZeroItem;
  }

  lemma {:induction false} AnyItem(f: Field, was: Value, other: Value, b: seq<byte>)
    requires WellFormedField(f) && !f.ltype.SUBMESSAGE?
    ensures DecodeItem(f, was, b) == DecodeItem(f, other, b)
  {
    hide DecodeVarint, DecodeVarint32, Take, TakeSized, CString, SignedFits, UnsignedFits, WellFormedField, VarintValue, UnZigZag, FromLittleEndian;
  }

  /** A record of an array goes behind the entries that are there. */
  lemma {:induction false} Appends(f: Field, s: Slot, w: nat, b: seq<byte>)
    requires WellFormedField(f) && f.htype.REPEATED? && FieldShape(f, s) && DecodeField(f, s, w, b).Some?
    ensures var r := DecodeField(f, s, w, b).value.0;
      && |r.items| == |s.items| && s.size <= r.size && (s.size <= |s.items| ==> r.size <= |r.items| && r.items[..s.size] == s.items[..s.size])
      && (w != WT_STRING || !Packable(f.ltype) ==> r.size == s.size + 1)
  {
    hide DecodeItem, ItemShape, WellFormedField;
    if w == WT_STRING && Packable(f.ltype) {
      PackedAppends(f, s, TakeDelimited(b).value.0);
      hide DecodePacked, TakeDelimited;
    }
  }

  lemma {:induction false} PackedAppends(f: Field, s: Slot, b: seq<byte>)
    requires WellFormedField(f) && f.htype.REPEATED? && Packable(f.ltype) && FieldShape(f, s) && DecodePacked(f, s, b).Some?
    ensures var r := DecodePacked(f, s, b).value;
      && |r.items| == |s.items| && s.size <= r.size && (s.size <= |s.items| ==> r.size <= |r.items| && r.items[..s.size] == s.items[..s.size])
    decreases |b|
  {
    hide DecodeItem, ItemShape, WellFormedField;
    if b != [] {
      var item := DecodeItem(f, s.items[s.size], b).value;
      PackedAppends(f, Slot(s.size + 1, s.items[s.size := item.0]), item.1);
    }
  }

  /** A full array takes no record but a packed one without content. */
  lemma {:induction false} FullRefuses(f: Field, s: Slot, w: nat, b: seq<byte>)
    requires WellFormedField(f) && f.htype.REPEATED? && FieldShape(f, s) && s.size >= f.arraySize
    ensures DecodeField(f, s, w, b).Some?
       <==> w == WT_STRING && Packable(f.ltype) && TakeDelimited(b).Some? && TakeDelimited(b).value.0 == []
    ensures DecodeField(f, s, w, b).Some? ==> DecodeField(f, s, w, b).value.0 == s
  {
    hide DecodeItem, ItemShape, WellFormedField, TakeDelimited;
    assert DecodeField(f, s, w, b) == DecodeRepeated(f, s, w, b);
    if w == WT_STRING && Packable(f.ltype) && TakeDelimited(b).Some? {
      var content := TakeDelimited(b).value.0;
      assert DecodePacked(f, s, content) == if content == [] then Some(s) else None;
    }
  }

  /** A packed array may come in several records. */
  lemma {:induction false} PackedJoins(f: Field, s: Slot, a: seq<byte>, b: seq<byte>)
    requires WellFormedField(f) && f.htype.REPEATED? && Packable(f.ltype) && FieldShape(f, s) && DecodePacked(f, s, a).Some?
    ensures DecodePacked(f, s, a + b) == DecodePacked(f, DecodePacked(f, s, a).value, b)
    decreases |a|
  {
    hide DecodeItem, ItemShape, WellFormedField;
    if a == [] {
      assert a + b == b;
    } else {
      ItemExtends(f, s.items[s.size], a, b);
      var item := DecodeItem(f, s.items[s.size], a).value;
      assert a + b != [];
      PackedJoins(f, Slot(s.size + 1, s.items[s.size := item.0]), item.1, b);
    }
  }
}
