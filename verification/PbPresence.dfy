/** What pb_encode leaves out: proto3 fields that hold nothing. */
module PbPresence {
  import opened Bits
  import opened Wire
  import opened PbTypes
  import opened PbFormat

  /** The choice of no union is set. */
  predicate NoChoice(fields: seq<Field>, m: seq<Slot>)
    requires |m| == |fields|
  {
    forall i | 0 <= i < |fields| && fields[i].htype.ONEOF? :: m[SlotOf(fields, i)].size == 0
  }

  /** The value says nothing: the number 0, no characters, no bytes, a submessage that writes no byte. */
  predicate Nothing(f: Field, v: Value)
    requires ItemShape(f, v)
  {
    match f.ltype
    case BYTES => |v.b| == 0
    case STRING => |v.b| == 0
    case FIXED_LENGTH_BYTES => f.dataSize == 0
    case SUBMESSAGE(sub) => EncodeMessage(sub, v.slots) == Some([]) && NoChoice(sub, v.slots)
    case _ => v.n == 0
  }

  lemma {:induction false} KeyNotEmpty(tag: nat, wireType: nat)
    ensures Key(tag, wireType) != []
  {}

  /** A proto3 field contributes no byte exactly when its value says nothing. */
  lemma {:induction false} LeftOutExactly(f: Field, s: Slot)
    requires WellFormedField(f) && f.htype.OPTIONAL? && !HasFlag(f) && FieldShape(f, s)
    ensures EncodeField(f, s) == Some([]) <==> Nothing(f, s.items[0])
    decreases f, 1
  {
    KeyNotEmpty(f.tag, WireType(f.ltype));
    NothingExactly(f, s.items[0]);
    hide Key, EncodeItem, Nothing, IsDefaultItem, ItemShape;
  }

  lemma {:induction false} NothingExactly(f: Field, v: Value)
    requires WellFormedField(f) && ItemShape(f, v)
    ensures Nothing(f, v) <==> IsDefaultItem(f, v)
    decreases f, 0
  {
    if f.ltype.SUBMESSAGE? {
      var sub := f.ltype.fields;
      SilentFrom(sub, v.slots, 0);
      hide EncodeFrom, IsDefault, MessageShape, NoChoice;
      assert AllDefault(sub, v.slots) <==> DefaultFrom(sub, v.slots, 0) by { AllFrom(sub, v.slots); }
    }
  }

  ghost predicate DefaultFrom(fields: seq<Field>, m: seq<Slot>, i: nat)
    requires MessageShape(fields, m)
  {
    forall j | i <= j < |fields| :: FieldShape(fields[j], m[SlotOf(fields, j)]) && IsDefault(fields[j], m[SlotOf(fields, j)])
  }

  lemma {:induction false} AllFrom(fields: seq<Field>, m: seq<Slot>)
    requires MessageShape(fields, m)
    ensures AllDefault(fields, m) <==> DefaultFrom(fields, m, 0)
  {
    hide IsDefault, SlotOf;
    if AllDefault(fields, m) {
      forall j | 0 <= j < |fields| ensures FieldShape(fields[j], m[SlotOf(fields, j)]) && IsDefault(fields[j], m[SlotOf(fields, j)]) {
        assert FieldShape(fields[j], m[SlotOf(fields, j)]);
      }
    }
  }

  /** The choices of the unions from position `i` on are not set. */
  ghost predicate NoChoiceFrom(fields: seq<Field>, m: seq<Slot>, i: nat)
    requires |m| == |fields|
  {
    forall j | i <= j < |fields| && fields[j].htype.ONEOF? :: m[SlotOf(fields, j)].size == 0
  }

  /** The fields from position `i` on write nothing, and no union there has a choice, exactly when each of them
      may be left out. */
  lemma {:induction false} SilentFrom(fields: seq<Field>, m: seq<Slot>, i: nat)
    requires WellFormed(fields) && MessageShape(fields, m) && i <= |fields|
    ensures EncodeFrom(fields, m, i) == Some([]) && NoChoiceFrom(fields, m, i) <==> DefaultFrom(fields, m, i)
    decreases fields, 3, |fields| - i
  {
    hide *;
    if i < |fields| {
      SlotHere(fields, m, i);
      EncodeStep(fields, m, i);
      SilentFrom(fields, m, i + 1);
      SilentField(fields[i], m[SlotOf(fields, i)]);
      CatNothing(EncodeField(fields[i], m[SlotOf(fields, i)]), EncodeFrom(fields, m, i + 1));
      DefaultsOn(fields, m, i);
    } else {
      SilentEnd(fields, m);
    }
  }

  lemma {:induction false} SlotHere(fields: seq<Field>, m: seq<Slot>, i: nat)
    requires WellFormed(fields) && MessageShape(fields, m) && i < |fields|
    ensures WellFormedField(fields[i]) && SlotOf(fields, i) < |m| == |fields| && FieldShape(fields[i], m[SlotOf(fields, i)])
  {}

  lemma {:induction false} CatNothing(a: Encoded, b: Encoded)
    ensures Cat(a, b) == Some([]) <==> a == Some([]) && b == Some([])
  {
    if a.Some? && b.Some? {
      assert |a.value + b.value| == |a.value| + |b.value|;
      assert a.value + b.value == [] <==> a.value == [] && b.value == [];
    }
  }

  lemma {:induction false} DefaultsOn(fields: seq<Field>, m: seq<Slot>, i: nat)
    requires MessageShape(fields, m) && i < |fields| && SlotOf(fields, i) < |m| == |fields| && FieldShape(fields[i], m[SlotOf(fields, i)])
    ensures DefaultFrom(fields, m, i) <==> IsDefault(fields[i], m[SlotOf(fields, i)]) && DefaultFrom(fields, m, i + 1)
    ensures NoChoiceFrom(fields, m, i)
       <==> (fields[i].htype.ONEOF? ==> m[SlotOf(fields, i)].size == 0) && NoChoiceFrom(fields, m, i + 1)
  {
    hide IsDefault, FieldShape, SlotOf, MessageShape;
  }

  lemma {:induction false} SilentEnd(fields: seq<Field>, m: seq<Slot>)
    requires MessageShape(fields, m)
    ensures |m| == |fields| && EncodeFrom(fields, m, |fields|) == Some([])
    ensures NoChoiceFrom(fields, m, |fields|) && DefaultFrom(fields, m, |fields|)
  {}

  lemma {:induction false} SilentField(f: Field, s: Slot)
    requires WellFormedField(f) && FieldShape(f, s)
    ensures EncodeField(f, s) == Some([]) && (f.htype.ONEOF? ==> s.size == 0) <==> IsDefault(f, s)
    decreases f, 2
  {
    KeyNotEmpty(f.tag, WireType(f.ltype));
    KeyNotEmpty(f.tag, WT_STRING);
    match f.htype
    case REQUIRED =>
    case OPTIONAL =>
      hide Key, EncodeItem, IsDefaultItem, ItemShape;
    case ONEOF =>
      hide Key, EncodeItem, ItemShape;
    case REPEATED =>
      if 0 < s.size <= f.arraySize {
        ArrayNotEmpty(f, s);
      }
      hide Key, EncodeItem, EncodeItems, EncodeTagged, ItemShape;
  }

  lemma {:induction false} ArrayNotEmpty(f: Field, s: Slot)
    requires FieldShape(f, s) && f.htype.REPEATED? && 0 < s.size <= f.arraySize
    ensures EncodeField(f, s) != Some([])
  {
    hide Key, EncodeItem, EncodeItems, EncodeTagged, ItemShape, Delimited;
    KeyNotEmpty(f.tag, WT_STRING);
    var items := s.items[..s.size];
    assert items != [];
    if !Packable(f.ltype) {
      TaggedNotEmpty(f, items);
    }
  }

  lemma {:induction false} TaggedNotEmpty(f: Field, items: seq<Value>)
    requires items != [] && forall v | v in items :: ItemShape(f, v)
    ensures EncodeTagged(f, items) != Some([])
  {
    hide Key, EncodeItem, ItemShape;
    KeyNotEmpty(f.tag, WireType(f.ltype));
  }

  // ---- structs of zeros ----

  /** Cleared memory: no flag, no entry, no choice, zeros in the data. */
  predicate ZeroItem(f: Field, v: Value)
    decreases f, 0
  {
    match f.ltype
    case BYTES => v == Blob([])
    case STRING => v == Blob([])
    case FIXED_LENGTH_BYTES => v.Blob? && forall i :: 0 <= i < |v.b| ==> v.b[i] == 0
    case SUBMESSAGE(sub) => v.Struct? && ZeroMessage(sub, v.slots)
    case _ => v == Num(0)
  }

  predicate ZeroMessage(fields: seq<Field>, m: seq<Slot>)
    decreases fields, 1
  {
    && |m| == |fields|
    && forall i | 0 <= i < |fields| :: m[i].size == 0 && (fields[i].htype.OPTIONAL? ==> |m[i].items| == 1 && ZeroItem(fields[i], m[i].items[0]))
  }

  /** Nothing in the message is written when it holds zeros: no field is required, and no proto3 field has bytes of
      a fixed length, at any depth. */
  predicate Quiet(fields: seq<Field>)
    decreases fields, 1
  {
    forall i | 0 <= i < |fields| :: QuietField(fields[i])
  }

  predicate QuietField(f: Field)
    decreases f, 0
  {
    && !f.htype.REQUIRED?
    && (f.htype.OPTIONAL? && !HasFlag(f) ==>
          && (f.ltype.FIXED_LENGTH_BYTES? ==> f.dataSize == 0)
          && (f.ltype.SUBMESSAGE? ==> Quiet(f.ltype.fields)))
  }

  /** A struct of zeros has encoded size 0 exactly for such messages. */
  lemma {:induction false} ZerosExactly(fields: seq<Field>, m: seq<Slot>)
    requires WellFormed(fields) && MessageShape(fields, m) && ZeroMessage(fields, m)
    ensures EncodeMessage(fields, m) == Some([]) <==> Quiet(fields)
    decreases fields, 5
  {
    ZerosFrom(fields, m, 0);
    hide EncodeFrom, MessageShape, ZeroMessage, QuietField, WellFormed;
  }

  ghost predicate QuietFrom(fields: seq<Field>, i: nat) {
    forall j | i <= j < |fields| :: QuietField(fields[j])
  }

  lemma {:induction false} ZerosFrom(fields: seq<Field>, m: seq<Slot>, i: nat)
    requires WellFormed(fields) && MessageShape(fields, m) && ZeroMessage(fields, m) && i <= |fields|
    ensures EncodeFrom(fields, m, i) == Some([]) <==> QuietFrom(fields, i)
    decreases fields, 4, |fields| - i
  {
    hide *;
    if i < |fields| {
      SlotHere(fields, m, i);
      ZerosHere(fields, m, i);
      EncodeStep(fields, m, i);
      ZerosFrom(fields, m, i + 1);
      ZeroField(fields[i], m[SlotOf(fields, i)]);
      CatNothing(EncodeField(fields[i], m[SlotOf(fields, i)]), EncodeFrom(fields, m, i + 1));
      QuietOn(fields, i);
    } else {
      SilentEnd(fields, m);
      QuietEnd(fields);
    }
  }

  lemma {:induction false} ZerosHere(fields: seq<Field>, m: seq<Slot>, i: nat)
    requires MessageShape(fields, m) && ZeroMessage(fields, m) && i < |fields|
    ensures m[SlotOf(fields, i)].size == 0
    ensures fields[i].htype.OPTIONAL? ==> |m[SlotOf(fields, i)].items| == 1 && ZeroItem(fields[i], m[SlotOf(fields, i)].items[0])
  {}

  lemma {:induction false} QuietOn(fields: seq<Field>, i: nat)
    requires i < |fields|
    ensures QuietFrom(fields, i) <==> QuietField(fields[i]) && QuietFrom(fields, i + 1)
  {
    hide QuietField;
  }

  lemma {:induction false} QuietEnd(fields: seq<Field>)
    ensures QuietFrom(fields, |fields|)
  {}

  lemma {:induction false} ZeroField(f: Field, s: Slot)
    requires WellFormedField(f) && FieldShape(f, s) && s.size == 0 && (f.htype.OPTIONAL? ==> ZeroItem(f, s.items[0]))
    ensures EncodeField(f, s) == Some([]) <==> QuietField(f)
    decreases f, 1
  {
    KeyNotEmpty(f.tag, WireType(f.ltype));
    if f.htype.OPTIONAL? && !HasFlag(f) {
      LeftOutExactly(f, s);
      if f.ltype.SUBMESSAGE? {
        ZerosExactly(f.ltype.fields, s.items[0].slots);
      }
    }
    hide Key, EncodeItem, EncodeItems, EncodeTagged, ItemShape, EncodeFrom;
  }

  // ---- a stray choice ----

  /** A submessage whose union holds the number of no member writes no byte, and is nevertheless written. */
  lemma {:induction false} StrayChoice()
    ensures var sub := [Field(1, VARINT, ONEOF, 0, 4, 4, 0, None)];
      var fields, m := [Field(2, SUBMESSAGE(sub), OPTIONAL, 0, 0, 8, 0, None)], [Slot(0, [Struct([Slot(9, [Num(0)])])])];
      && WellFormed(fields) && MessageShape(fields, m) && EncodeMessage(sub, [Slot(9, [Num(0)])]) == Some([])
      && EncodeMessage(fields, m) == Some([0x12, 0])
  {
    var g := Field(1, VARINT, ONEOF, 0, 4, 4, 0, None);
    var t := Slot(9, [Num(0)]);
    assert WellFormedField(g) && FieldShape(g, t) && EncodeField(g, t) == Some([]);
    Alone(g, t);
    var f := Field(2, SUBMESSAGE([g]), OPTIONAL, 0, 0, 8, 0, None);
    var s := Slot(0, [Struct([t])]);
    assert WellFormedField(f) && FieldShape(f, s);
    Alone(f, s);
    LeftOutExactly(f, s);
    assert [g][0] == g && [t][SlotOf([g], 0)].size == 9;
    assert !NoChoice([g], [t]);
    StrayBytes(f, s, [g], [t]);
  }

  lemma {:induction false} StrayBytes(f: Field, s: Slot, sub: seq<Field>, m: seq<Slot>)
    requires f == Field(2, SUBMESSAGE(sub), OPTIONAL, 0, 0, 8, 0, None) && s == Slot(0, [Struct(m)]) && FieldShape(f, s)
    requires MessageShape(sub, m) && EncodeMessage(sub, m) == Some([]) && EncodeField(f, s) != Some([])
    ensures EncodeField(f, s) == Some([0x12, 0])
  {
    assert Varint(0) == [0] && [0] + [] == [0];
    assert EncodeItem(f, s.items[0]) == Some([0]);
    assert Tag(f) == [0x12];
    hide Key, EncodeItem, EncodeMessage, ItemShape;
    assert [0x12] + [0] == [0x12, 0];
  }

  lemma {:induction false} Alone(f: Field, s: Slot)
    requires WellFormedField(f) && FieldShape(f, s)
    ensures WellFormed([f]) && MessageShape([f], [s]) && EncodeMessage([f], [s]) == EncodeField(f, s)
  {
    hide FieldShape, EncodeField, WellFormedField;
    assert [f][0] == f && [s][0] == s;
    assert MessageShape([f], [s]);
    EncodeStep([f], [s], 0);
    if EncodeField(f, s).Some? {
      assert EncodeField(f, s).value + [] == EncodeField(f, s).value;
    }
  }
}
