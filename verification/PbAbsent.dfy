/** What pb_decode leaves in the fields that do not occur in the input. */
module PbAbsent {
  import opened Bits
  import opened Wire
  import opened PbTypes
  import opened PbFormat
  import opened PbParse
  import opened PbDefaults
  import opened PbUnknown
  import opened PbRequired

  /** None of the fields that live in slot `k` comes up on the way through `b`. */
  ghost predicate Absent(fields: seq<Field>, st: State, b: seq<byte>, k: nat)
    requires WellFormed(fields) && StateShape(fields, st)
  {
    forall j | 0 <= j < |fields| && SlotOf(fields, j) == k :: !Occurs(fields, st, b, fields[j].tag)
  }

  lemma {:induction false} TurnKeeps(fields: seq<Field>, st: State, b: seq<byte>, k: nat)
    requires WellFormed(fields) && StateShape(fields, st) && Turn(fields, st, b).Some? && Absent(fields, st, b, k) && k < |st.slots|
    ensures var t := Turn(fields, st, b).value;
      |t.0.slots| == |st.slots| && t.0.slots[k] == st.slots[k] && Absent(fields, t.0, t.1, k)
  {
    hide DecodeField, SkipField, DecodeTag, FieldShape;
    var t := Turn(fields, st, b).value;
    forall j | 0 <= j < |fields| && SlotOf(fields, j) == k
      ensures DecodeTag(b).tag != fields[j].tag && !Occurs(fields, t.0, t.1, fields[j].tag)
    {
      assert !Occurs(fields, st, b, fields[j].tag);
    }
    match Find(fields, st.pos, DecodeTag(b).tag)
    case At(i) => assert fields[i].tag == DecodeTag(b).tag;
    case _ =>
  }

  /** Their slot is as it was. */
  lemma {:induction false} LoopKeeps(fields: seq<Field>, st: State, b: seq<byte>, k: nat)
    requires WellFormed(fields) && StateShape(fields, st) && DecodeLoop(fields, st, b).Some? && Absent(fields, st, b, k) && k < |st.slots|
    ensures k < |DecodeLoop(fields, st, b).value.0.slots| && DecodeLoop(fields, st, b).value.0.slots[k] == st.slots[k]
    decreases |b|
  {
    hide Turn, DecodeLoop, Occurs, WellFormed, StateShape;
    if Turn(fields, st, b).None? {
      LoopIsTurns(fields, st, b);
    } else {
      TurnKeeps(fields, st, b, k);
      TurnIsStep(fields, st, b);
      LoopKeeps(fields, Turn(fields, st, b).value.0, Turn(fields, st, b).value.1, k);
    }
  }

  lemma {:induction false} StartShape(fields: seq<Field>, start: seq<Slot>)
    requires MessageShape(fields, start)
    ensures StateShape(fields, State(start, 0, {})) && |start| == |fields|
  {}

  /** From a struct with the declared defaults, the fields that do not occur keep them. */
  lemma {:induction false} AbsentIsInitial(fields: seq<Field>, start: seq<Slot>, b: seq<byte>, i: nat)
    requires WellFormed(fields) && MessageShape(fields, start) && Initial(fields, start) && i < |fields|
    requires DecodeNoInit(fields, start, b).Some?
    requires StateShape(fields, State(start, 0, {})) && Absent(fields, State(start, 0, {}), b, SlotOf(fields, i))
    ensures |DecodeNoInit(fields, start, b).value.0| == |fields|
    ensures InitialField(fields[i], DecodeNoInit(fields, start, b).value.0[SlotOf(fields, i)])
  {
    StartShape(fields, start);
    StartShape(fields, DecodeNoInit(fields, start, b).value.0);
    LoopKeeps(fields, State(start, 0, {}), b, SlotOf(fields, i));
    assert InitialField(fields[SlotOf(fields, i)], start[SlotOf(fields, i)]);
    hide DecodeLoop, Complete, HoldsDefault;
  }

  /** pb_decode starts from the declared defaults, whatever the struct held, and a field that does not occur in
      the input has its default afterwards: no flag, no entry, no choice, the declared value. */
  lemma {:induction false} DecodeAbsent(fields: seq<Field>, dest: seq<Slot>, b: seq<byte>) returns (start: seq<Slot>)
    requires WellFormed(fields) && MessageShape(fields, dest)
    ensures MessageShape(fields, start) && StateShape(fields, State(start, 0, {})) && Initial(fields, start)
    ensures Decode(fields, dest, b) == DecodeNoInit(fields, start, b)
    ensures Decode(fields, dest, b).Some? ==> |Decode(fields, dest, b).value.0| == |fields|
    ensures Decode(fields, dest, b).Some? ==>
      forall i | 0 <= i < |fields| && Absent(fields, State(start, 0, {}), b, SlotOf(fields, i)) ::
        InitialField(fields[i], Decode(fields, dest, b).value.0[SlotOf(fields, i)])
  {
    DecodeResets(fields, dest, b);
    ResetIsInitial(fields, dest);
    start := SetDefaults(fields, dest);
    StartShape(fields, start);
    hide Decode, DecodeNoInit, Initial, InitialField, Absent, WellFormed, MessageShape, StateShape, SetDefaults, SlotOf;
    if Decode(fields, dest, b).Some? {
      StartShape(fields, Decode(fields, dest, b).value.0);
      forall i | 0 <= i < |fields| && Absent(fields, State(start, 0, {}), b, SlotOf(fields, i))
        ensures InitialField(fields[i], Decode(fields, dest, b).value.0[SlotOf(fields, i)])
      {
        AbsentIsInitial(fields, start, b, i);
      }
    }
  }

  /** An empty input is a message with all fields at their defaults, if none of them is required. */
  lemma {:induction false} EmptyInput(fields: seq<Field>, dest: seq<Slot>)
    requires WellFormed(fields) && MessageShape(fields, dest) && forall f | f in fields :: !f.htype.REQUIRED?
    ensures var r := Decode(fields, dest, []);
      r.Some? && r.value.1 == [] && Initial(fields, r.value.0)
  {
    DecodeResets(fields, dest, []);
    ResetIsInitial(fields, dest);
    NoneRequired(fields, |fields|);
    hide Initial, WellFormed, MessageShape, SetDefaults;
  }

  /** A zero byte in place of a key ends the message; what follows it is left. */
  lemma {:induction false} ZeroEnds(fields: seq<Field>, dest: seq<Slot>, rest: seq<byte>)
    requires WellFormed(fields) && MessageShape(fields, dest) && forall f | f in fields :: !f.htype.REQUIRED?
    ensures DecodeTag([0] + rest) == EndMark(rest)
    ensures var r := Decode(fields, dest, [0] + rest);
      r.Some? && r.value.1 == rest && Initial(fields, r.value.0)
  {
    assert ([0] + rest)[1..] == rest;
    DecodeResets(fields, dest, [0] + rest);
    ResetIsInitial(fields, dest);
    NoneRequired(fields, |fields|);
    hide Initial, WellFormed, MessageShape, SetDefaults, DecodeVarint32;
    ZeroKey(rest);
  }

  lemma {:induction false} ZeroKey(rest: seq<byte>)
    ensures DecodeVarint32([0] + rest) == Some((0, rest))
  {
    assert ([0] + rest)[1..] == rest;
  }

  lemma {:induction false} NoneRequired(fields: seq<Field>, i: nat)
    requires i <= |fields| && forall f | f in fields :: !f.htype.REQUIRED?
    ensures RequiredBefore(fields, i) == 0
  {
    if i > 0 {
      NoneRequired(fields, i - 1);
    }
  }

  /** Inside a submessage as well: an entry of an array, and a submessage that has its defaults, are decoded from a
      struct with the declared defaults, and keep them where nothing occurs. */
  lemma {:induction false} SubmessageAbsent(f: Field, was: Value, b: seq<byte>) returns (start: seq<Slot>)
    requires WellFormedField(f) && f.ltype.SUBMESSAGE? && ItemShape(f, was) && (f.htype.REPEATED? || HoldsDefault(f, was))
    requires DecodeItem(f, was, b).Some?
    ensures TakeDelimited(b).Some? && WellFormed(f.ltype.fields) && MessageShape(f.ltype.fields, start) && Initial(f.ltype.fields, start)
    ensures StateShape(f.ltype.fields, State(start, 0, {}))
    ensures var fields, content, r := f.ltype.fields, TakeDelimited(b).value.0, DecodeItem(f, was, b).value.0;
      && |r.slots| == |fields|
      && forall i | 0 <= i < |fields| && Absent(fields, State(start, 0, {}), content, SlotOf(fields, i)) ::
        InitialField(fields[i], r.slots[SlotOf(fields, i)])
  {
    var fields := f.ltype.fields;
    OwnSlots(fields, was.slots);
    DefaultsShape(fields, was.slots);
    ResetIsInitial(fields, was.slots);
    start := if f.htype.REPEATED? then SetDefaults(fields, was.slots) else was.slots;
    StartShape(fields, start);
    var content, r := TakeDelimited(b).value.0, DecodeItem(f, was, b).value.0;
    assert r.slots == DecodeNoInit(fields, start, content).value.0;
    hide DecodeItem, DecodeNoInit, Initial, InitialField, Absent, WellFormed, MessageShape, StateShape, SetDefaults, SlotOf;
    StartShape(fields, r.slots);
    forall i | 0 <= i < |fields| && Absent(fields, State(start, 0, {}), content, SlotOf(fields, i))
      ensures InitialField(fields[i], r.slots[SlotOf(fields, i)])
    {
      AbsentIsInitial(fields, start, content, i);
    }
  }
}
