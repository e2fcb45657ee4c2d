/** Decoding what was encoded gives the message back. */
module PbRoundTrip {
  import opened PbTypes
  import opened PbFormat
  import opened PbDefaults

  // ---- equality of messages ----

  /** `r` carries the value `v`. Storage that the message does not use is not compared. */
  predicate SameItem(f: Field, v: Value, r: Value)
    requires ItemShape(f, v) && ItemShape(f, r)
    decreases f, 0
  {
    match f.ltype
    case SUBMESSAGE(sub) => SameMessage(sub, v.slots, r.slots)
    case _ => v == r
  }

  predicate SameField(f: Field, s: Slot, r: Slot)
    requires FieldShape(f, s) && FieldShape(f, r)
    decreases f, 1
  {
    match f.htype
    case REQUIRED => SameItem(f, s.items[0], r.items[0])
    case OPTIONAL =>
      if HasFlag(f) && s.size == 0 then r.size == 0 && HoldsDefault(f, r.items[0])
      else (HasFlag(f) ==> r.size != 0) && SameItem(f, s.items[0], r.items[0])
    case REPEATED => r.size == s.size && forall k | 0 <= k < s.size && k < f.arraySize :: SameItem(f, s.items[k], r.items[k])
    case ONEOF => (s.size == f.tag <==> r.size == f.tag) && (s.size == f.tag ==> SameItem(f, s.items[0], r.items[0]))
  }

  predicate SameMessage(fields: seq<Field>, m: seq<Slot>, r: seq<Slot>)
    requires MessageShape(fields, m) && MessageShape(fields, r)
    decreases fields, 2
  {
    forall i | 0 <= i < |fields| :: SameField(fields[i], m[SlotOf(fields, i)], r[SlotOf(fields, i)])
  }

  // ---- terminated strings ----

  /** Every string that is encoded has its NUL inside its array. */
  predicate TerminatedItem(f: Field, v: Value)
    requires ItemShape(f, v)
    decreases f, 0
  {
    match f.ltype
    case STRING => |v.b| < f.dataSize
    case SUBMESSAGE(sub) => TerminatedFrom(sub, v.slots, 0)
    case _ => true
  }

  predicate TerminatedItems(f: Field, items: seq<Value>)
    requires forall v | v in items :: ItemShape(f, v)
    decreases f, 1
  {
    forall v | v in items :: TerminatedItem(f, v)
  }

  predicate TerminatedField(f: Field, s: Slot)
    requires FieldShape(f, s)
    decreases f, 2
  {
    match f.htype
    case REQUIRED => TerminatedItem(f, s.items[0])
    case OPTIONAL => Present(f, s) ==> TerminatedItem(f, s.items[0])
    case REPEATED => s.size <= f.arraySize ==> TerminatedItems(f, s.items[..s.size])
    case ONEOF => s.size == f.tag ==> TerminatedItem(f, s.items[0])
  }

  predicate TerminatedFrom(fields: seq<Field>, m: seq<Slot>, i: nat)
    requires MessageShape(fields, m) && i <= |fields|
    decreases fields, 3, |fields| - i
  {
    i < |fields| ==>
      FieldShape(fields[i], m[SlotOf(fields, i)]) && TerminatedField(fields[i], m[SlotOf(fields, i)]) && TerminatedFrom(fields, m, i + 1)
  }

  predicate Terminated(fields: seq<Field>, m: seq<Slot>)
    requires MessageShape(fields, m)
  {
    TerminatedFrom(fields, m, 0)
  }

  // ---- defaults ----

  /** Resetting twice is resetting once. */
  lemma {:induction false} DefaultItemTwice(f: Field, v: Value)
    requires WellFormedField(f) && ItemShape(f, v)
    ensures ItemShape(f, DefaultItem(f, v)) && DefaultItem(f, DefaultItem(f, v)) == DefaultItem(f, v)
    decreases f, 0
  {
    DefaultItemShape(f, v);
    match f.ltype
    case SUBMESSAGE(sub) => DefaultsTwice(sub, v.slots);
    case _ =>
  }

  lemma {:induction false} DefaultsTwice(fields: seq<Field>, slots: seq<Slot>)
    requires WellFormed(fields) && MessageShape(fields, slots)
    ensures SlotsShape(fields, slots) && SlotsShape(fields, SetDefaults(fields, slots))
    ensures SetDefaults(fields, SetDefaults(fields, slots)) == SetDefaults(fields, slots)
    decreases fields, 2
  {
    DefaultsShape(fields, slots);
    OwnSlots(fields, SetDefaults(fields, slots));
    var once := SetDefaults(fields, slots);
    forall i | 0 <= i < |fields| ensures SetDefaults(fields, once)[i] == once[i] {
      if fields[i].htype.REQUIRED? || fields[i].htype.OPTIONAL? {
        assert FieldShape(fields[i], slots[SlotOf(fields, i)]);
        DefaultItemTwice(fields[i], slots[i].items[0]);
      }
    }
  }

  /** A value that may be left out of a proto3 message is the one the decoder starts with. */
  lemma {:induction false} LeftOutIsDefault(f: Field, v: Value, r: Value)
    requires WellFormedField(f) && f.ptr.None? && ItemShape(f, v) && ItemShape(f, r)
    requires IsDefaultItem(f, v) && DefaultItem(f, r) == r
    ensures SameItem(f, v, r)
    decreases f, 0
  {
    match f.ltype
    case SUBMESSAGE(sub) => AllLeftOut(sub, v.slots, r.slots);
    case _ =>
  }

  lemma {:induction false} AllLeftOut(fields: seq<Field>, m: seq<Slot>, r: seq<Slot>)
    requires WellFormed(fields) && MessageShape(fields, m) && MessageShape(fields, r)
    requires SlotsShape(fields, r) && SetDefaults(fields, r) == r
    requires AllDefault(fields, m)
    ensures SameMessage(fields, m, r)
    decreases fields, 2
  {
    forall i | 0 <= i < |fields| ensures SameField(fields[i], m[SlotOf(fields, i)], r[SlotOf(fields, i)]) {
      assert IsDefault(fields[i], m[SlotOf(fields, i)]) && FieldShape(fields[i], r[SlotOf(fields, i)]);
      assert SetDefaults(fields, r)[SlotOf(fields, i)] == r[SlotOf(fields, i)];
      if fields[i].htype.OPTIONAL? {
        DefaultExactly(fields[i], r[i].items[0]);
        if !HasFlag(fields[i]) {
          LeftOutIsDefault(fields[i], m[i].items[0], r[i].items[0]);
        }
      }
    }
  }
}
