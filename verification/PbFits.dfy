/** When pb_encode succeeds: exactly for the messages whose counts and bytes are within their members. */
module PbFits {
  import opened Bits
  import opened Wire
  import opened PbTypes
  import opened PbFormat
  import opened PbPresence

  /** Bytes leave room for their size; a submessage fits as a message. */
  predicate FitsItem(f: Field, v: Value)
    requires ItemShape(f, v)
    decreases f, 0
  {
    match f.ltype
    case BYTES => |v.b| < f.dataSize
    case SUBMESSAGE(sub) => Fits(sub, v.slots)
    case _ => true
  }

  /** What will be written fits: the used entries of an array, a value that is there. */
  predicate FitsField(f: Field, s: Slot)
    requires FieldShape(f, s)
    decreases f, 1
  {
    match f.htype
    case REQUIRED => FitsItem(f, s.items[0])
    case OPTIONAL => FitsItem(f, s.items[0]) || (HasFlag(f) && s.size == 0) || (!HasFlag(f) && Nothing(f, s.items[0]))
    case REPEATED => s.size <= f.arraySize && forall k | 0 <= k < s.size && k < f.arraySize :: FitsItem(f, s.items[k])
    case ONEOF => s.size == f.tag ==> FitsItem(f, s.items[0])
  }

  predicate Fits(fields: seq<Field>, m: seq<Slot>)
    requires MessageShape(fields, m)
    decreases fields, 2
  {
    forall i | 0 <= i < |fields| :: FieldShape(fields[i], m[SlotOf(fields, i)]) && FitsField(fields[i], m[SlotOf(fields, i)])
  }

  lemma {:induction false} ItemExactly(f: Field, v: Value)
    requires WellFormedField(f) && ItemShape(f, v)
    ensures EncodeItem(f, v).Some? <==> FitsItem(f, v)
    decreases f, 0, 0
  {
    match f.ltype
    case SUBMESSAGE(sub) =>
      FromExactly(sub, v.slots, 0);
      WholeFits(sub, v.slots);
      hide EncodeFrom, Fits, FitsFrom, MessageShape, WellFormed;
    case _ =>
  }

  ghost predicate AllFit(f: Field, items: seq<Value>)
    requires forall v | v in items :: ItemShape(f, v)
  {
    forall k | 0 <= k < |items| :: FitsItem(f, items[k])
  }

  lemma {:induction false} ItemsExactly(f: Field, items: seq<Value>)
    requires WellFormedField(f) && forall v | v in items :: ItemShape(f, v)
    ensures EncodeItems(f, items).Some? <==> AllFit(f, items)
    ensures EncodeTagged(f, items).Some? <==> AllFit(f, items)
    decreases f, 1, |items|
  {
    if items != [] {
      ItemExactly(f, items[0]);
      ItemsExactly(f, items[1..]);
      hide EncodeItem, ItemShape, FitsItem;
      assert AllFit(f, items) <==> FitsItem(f, items[0]) && AllFit(f, items[1..]);
    }
  }

  lemma {:induction false} FieldExactly(f: Field, s: Slot)
    requires WellFormedField(f) && FieldShape(f, s)
    ensures EncodeField(f, s).Some? <==> FitsField(f, s)
    decreases f, 3, 0
  {
    match f.htype
    case REQUIRED => ItemExactly(f, s.items[0]);
    case OPTIONAL =>
      ItemExactly(f, s.items[0]);
      NothingExactly(f, s.items[0]);
      hide EncodeItem, ItemShape, FitsItem, Nothing, IsDefaultItem;
    case ONEOF =>
      if s.size == f.tag {
        ItemExactly(f, s.items[0]);
      }
    case REPEATED =>
      ArrayExactly(f, s);
  }

  lemma {:induction false} ArrayExactly(f: Field, s: Slot)
    requires WellFormedField(f) && f.htype.REPEATED? && FieldShape(f, s)
    ensures EncodeField(f, s).Some? <==> FitsField(f, s)
    decreases f, 2, 0
  {
    if s.size <= f.arraySize {
      ItemsExactly(f, s.items[..s.size]);
    }
    hide EncodeItems, EncodeTagged, ItemShape, FitsItem;
  }

  ghost predicate FitsFrom(fields: seq<Field>, m: seq<Slot>, i: nat)
    requires MessageShape(fields, m)
  {
    forall j | i <= j < |fields| :: FieldShape(fields[j], m[SlotOf(fields, j)]) && FitsField(fields[j], m[SlotOf(fields, j)])
  }

  lemma {:induction false} FromExactly(fields: seq<Field>, m: seq<Slot>, i: nat)
    requires WellFormed(fields) && MessageShape(fields, m) && i <= |fields|
    ensures EncodeFrom(fields, m, i).Some? <==> FitsFrom(fields, m, i)
    decreases fields, 4, |fields| - i
  {
    hide *;
    if i < |fields| {
      SlotHere(fields, m, i);
      FieldExactly(fields[i], m[SlotOf(fields, i)]);
      EncodeStep(fields, m, i);
      FromExactly(fields, m, i + 1);
      BothThere(EncodeField(fields[i], m[SlotOf(fields, i)]), EncodeFrom(fields, m, i + 1));
      FitsOn(fields, m, i);
    } else {
      NoneLeft(fields, m);
    }
  }

  lemma {:induction false} BothThere(a: Encoded, b: Encoded)
    ensures Cat(a, b).Some? <==> a.Some? && b.Some?
  {}

  lemma {:induction false} FitsOn(fields: seq<Field>, m: seq<Slot>, i: nat)
    requires MessageShape(fields, m) && i < |fields| && SlotOf(fields, i) < |m| && FieldShape(fields[i], m[SlotOf(fields, i)])
    ensures FitsFrom(fields, m, i) <==> FitsField(fields[i], m[SlotOf(fields, i)]) && FitsFrom(fields, m, i + 1)
  {
    hide FitsField, FieldShape, SlotOf, MessageShape;
  }

  lemma {:induction false} NoneLeft(fields: seq<Field>, m: seq<Slot>)
    requires MessageShape(fields, m)
    ensures EncodeFrom(fields, m, |fields|).Some? && FitsFrom(fields, m, |fields|)
  {}

  lemma {:induction false} WholeFits(fields: seq<Field>, m: seq<Slot>)
    requires MessageShape(fields, m)
    ensures Fits(fields, m) <==> FitsFrom(fields, m, 0)
  {
    hide FitsField, FieldShape, MessageShape, SlotOf;
  }

  /** A message can be encoded exactly when it fits. */
  lemma {:induction false} EncodesExactly(fields: seq<Field>, m: seq<Slot>)
    requires WellFormed(fields) && MessageShape(fields, m)
    ensures EncodeMessage(fields, m).Some? <==> Fits(fields, m)
  {
    FromExactly(fields, m, 0);
    WholeFits(fields, m);
    hide EncodeFrom, Fits, FitsFrom, MessageShape, WellFormed;
  }
}
