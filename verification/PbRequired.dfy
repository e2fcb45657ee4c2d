/** Required fields: a message is accepted exactly when the first 64 of them occurred in the input. */
module PbRequired {
  import opened Bits
  import opened PbTypes
  import opened PbParse
  import opened PbTrip
  import opened PbMessageTrip
  import opened PbUnknown

  lemma {:induction false} RequiredMonotone(fields: seq<Field>, i: nat, j: nat)
    requires i <= j <= |fields|
    ensures RequiredBefore(fields, i) <= RequiredBefore(fields, j)
    decreases j - i
  {
    if i < j {
      RequiredMonotone(fields, i, j - 1);
    }
  }

  /** The index of a required field is its own. */
  lemma {:induction false} RequiredIndex(fields: seq<Field>, i: nat, j: nat)
    requires i < |fields| && j < |fields| && fields[i].htype.REQUIRED? && fields[j].htype.REQUIRED?
    requires RequiredBefore(fields, i) == RequiredBefore(fields, j)
    ensures i == j
  {
    if i < j {
      RequiredMonotone(fields, i + 1, j);
    } else if j < i {
      RequiredMonotone(fields, j + 1, i);
    }
  }

  /** The decoder comes to a record with this tag on its way through `b`. */
  ghost predicate Occurs(fields: seq<Field>, st: State, b: seq<byte>, tag: nat)
    requires WellFormed(fields) && StateShape(fields, st)
    decreases |b|
  {
    var t := Turn(fields, st, b);
    t.Some? && (DecodeTag(b).tag == tag || Occurs(fields, t.value.0, t.value.1, tag))
  }

  /** Field `i` is one whose presence is checked. */
  predicate Checked(fields: seq<Field>, i: nat) {
    i < |fields| && fields[i].htype.REQUIRED? && RequiredBefore(fields, i) < 64
  }

  lemma {:induction false} TurnMarks(fields: seq<Field>, st: State, b: seq<byte>, i: nat)
    requires WellFormed(fields) && StateShape(fields, st) && Turn(fields, st, b).Some? && Checked(fields, i)
    ensures RequiredBefore(fields, i) in Turn(fields, st, b).value.0.seen
       <==> RequiredBefore(fields, i) in st.seen || DecodeTag(b).tag == fields[i].tag
  {
    var key := DecodeTag(b);
    if fields != [] {
      FindExact(fields, st.pos, key.tag);
    }
    match Find(fields, st.pos, key.tag)
    case At(k) =>
      assert key.tag == fields[i].tag ==> k == i;
      if Checked(fields, k) && RequiredBefore(fields, k) == RequiredBefore(fields, i) {
        RequiredIndex(fields, k, i);
      }
    case _ =>
  }

  lemma {:induction false} LoopIsTurns(fields: seq<Field>, st: State, b: seq<byte>)
    requires WellFormed(fields) && StateShape(fields, st) && DecodeLoop(fields, st, b).Some? && Turn(fields, st, b).None?
    ensures DecodeLoop(fields, st, b).value.0 == st
  {
    hide DecodeTag, Find, SkipField, DecodeField, SlotOf, WellFormed, StateShape, FieldShape;
  }

  lemma {:induction false} SeenExactly(fields: seq<Field>, st: State, b: seq<byte>, i: nat)
    requires WellFormed(fields) && StateShape(fields, st) && DecodeLoop(fields, st, b).Some? && Checked(fields, i)
    ensures RequiredBefore(fields, i) in DecodeLoop(fields, st, b).value.0.seen
       <==> RequiredBefore(fields, i) in st.seen || Occurs(fields, st, b, fields[i].tag)
    decreases |b|
  {
    hide Turn, DecodeLoop, WellFormed, StateShape, RequiredBefore, DecodeTag;
    if Turn(fields, st, b).None? {
      LoopIsTurns(fields, st, b);
    } else {
      var t := Turn(fields, st, b).value;
      TurnIsStep(fields, st, b);
      TurnMarks(fields, st, b, i);
      SeenExactly(fields, t.0, t.1, i);
    }
  }

  /** Of an input that the loop gets through, pb_decode_noinit accepts exactly those in which each of the
      first 64 required fields occurs. */
  lemma {:induction false} AcceptedIffComplete(fields: seq<Field>, slots: seq<Slot>, b: seq<byte>)
    requires WellFormed(fields) && MessageShape(fields, slots)
    ensures StateShape(fields, State(slots, 0, {}))
    ensures DecodeNoInit(fields, slots, b).Some?
       <==> && DecodeLoop(fields, State(slots, 0, {}), b).Some?
            && forall i | 0 <= i < |fields| && Checked(fields, i) :: Occurs(fields, State(slots, 0, {}), b, fields[i].tag)
  {
    var st := State(slots, 0, {});
    assert StateShape(fields, st);
    hide DecodeLoop, Occurs, WellFormed, MessageShape, RequiredBefore;
    if DecodeLoop(fields, st, b).Some? {
      var seen := DecodeLoop(fields, st, b).value.0.seen;
      forall i | 0 <= i < |fields| && Checked(fields, i)
        ensures RequiredBefore(fields, i) in seen <==> Occurs(fields, st, b, fields[i].tag)
      {
        SeenExactly(fields, st, b, i);
      }
      CompleteByField(fields, seen);
    }
  }

  lemma {:induction false} CompleteByField(fields: seq<Field>, seen: set<nat>)
    ensures Complete(fields, seen) <==> forall i | 0 <= i < |fields| && Checked(fields, i) :: RequiredBefore(fields, i) in seen
  {
    if forall i | 0 <= i < |fields| && Checked(fields, i) :: RequiredBefore(fields, i) in seen {
      forall n: nat | n < RequiredBefore(fields, |fields|) && n < PB_MAX_REQUIRED_FIELDS ensures n in seen {
        var i := NthRequired(fields, |fields|, n);
        assert Checked(fields, i);
      }
    }
    forall i | 0 <= i < |fields| && Checked(fields, i) ensures RequiredBefore(fields, i) < RequiredBefore(fields, |fields|) {
      RequiredMonotone(fields, i + 1, |fields|);
    }
  }
}
