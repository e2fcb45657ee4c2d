/** What a struct holds before anything is decoded into it: the declared defaults, zeros where there are none. */
module PbDefaults {
  import opened PbTypes

  /** The value that the message type declares for the field: its default, or zero, nothing, no characters. */
  predicate HoldsDefault(f: Field, v: Value)
    decreases f, 0
  {
    match f.ltype
    case SUBMESSAGE(sub) => v.Struct? && Initial(sub, v.slots)
    case BYTES => v == if f.ptr.Some? then f.ptr.value else Blob([])
    case STRING => v == if f.ptr.Some? then f.ptr.value else Blob([])
    case FIXED_LENGTH_BYTES =>
      if f.ptr.Some? then v == f.ptr.value
      else v.Blob? && |v.b| == f.dataSize && forall i :: 0 <= i < |v.b| ==> v.b[i] == 0
    case _ => v == if f.ptr.Some? then f.ptr.value else Num(0)
  }

  /** No has_ flag, no entry, no choice is set, and the data of a single field is the default. */
  predicate InitialField(f: Field, s: Slot)
    decreases f, 1
  {
    match f.htype
    case REQUIRED => |s.items| == 1 && HoldsDefault(f, s.items[0])
    case OPTIONAL => |s.items| == 1 && (HasFlag(f) ==> s.size == 0) && HoldsDefault(f, s.items[0])
    case REPEATED => s.size == 0
    case ONEOF => s.size == 0
  }

  predicate Initial(fields: seq<Field>, slots: seq<Slot>)
    decreases fields, 2
  {
    |slots| == |fields| && forall i | 0 <= i < |fields| :: InitialField(fields[i], slots[i])
  }

  lemma {:induction false} ResetItem(f: Field, v: Value)
    requires ItemShape(f, v)
    ensures HoldsDefault(f, DefaultItem(f, v))
    decreases f, 0
  {
    match f.ltype
    case SUBMESSAGE(sub) =>
      OwnSlots(sub, v.slots);
      ResetIsInitial(sub, v.slots);
    case _ =>
  }

  /** Resetting gives the declared defaults, in submessages at every depth, and keeps the entries of arrays and
      the storage of unions. */
  lemma {:induction false} ResetIsInitial(fields: seq<Field>, slots: seq<Slot>)
    requires SlotsShape(fields, slots)
    ensures Initial(fields, SetDefaults(fields, slots))
    ensures forall i | 0 <= i < |fields| && (fields[i].htype.REPEATED? || fields[i].htype.ONEOF?) ::
      SetDefaults(fields, slots)[i].items == slots[i].items
    decreases fields, 2
  {
    forall i | 0 <= i < |fields| ensures InitialField(fields[i], SetDefaults(fields, slots)[i]) {
      if fields[i].htype.REQUIRED? || fields[i].htype.OPTIONAL? {
        ResetItem(fields[i], slots[i].items[0]);
      }
    }
  }

  lemma {:induction false} HeldItem(f: Field, v: Value)
    requires ItemShape(f, v) && HoldsDefault(f, v)
    ensures DefaultItem(f, v) == v
    decreases f, 0
  {
    match f.ltype
    case SUBMESSAGE(sub) =>
      OwnSlots(sub, v.slots);
      InitialIsReset(sub, v.slots);
    case FIXED_LENGTH_BYTES =>
      if f.ptr.None? {
        assert v.b == ZeroItem(f).b;
      }
    case _ =>
  }

  /** A struct with the declared defaults is one that resetting does not change. */
  lemma {:induction false} InitialIsReset(fields: seq<Field>, slots: seq<Slot>)
    requires SlotsShape(fields, slots) && Initial(fields, slots)
    ensures SetDefaults(fields, slots) == slots
    decreases fields, 2
  {
    forall i | 0 <= i < |fields| ensures SetDefaults(fields, slots)[i] == slots[i] {
      assert InitialField(fields[i], slots[i]);
      if fields[i].htype.REQUIRED? || fields[i].htype.OPTIONAL? {
        HeldItem(fields[i], slots[i].items[0]);
        assert slots[i].items == [slots[i].items[0]];
      }
    }
  }

  /** The value is the default exactly when resetting leaves it alone. */
  lemma {:induction false} DefaultExactly(f: Field, v: Value)
    requires ItemShape(f, v)
    ensures HoldsDefault(f, v) <==> DefaultItem(f, v) == v
  {
    ResetItem(f, v);
    if HoldsDefault(f, v) {
      HeldItem(f, v);
    }
  }
}
