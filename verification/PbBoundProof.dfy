/** Proof that the generated maximum size is a bound, and where it is not. */
module PbBoundProof {
  import opened Bits
  import opened Wire
  import opened PbTypes
  import opened PbFormat
  import opened PbBound
  import G = PbMaxSize

  // ---- one value ----

  /** The bytes of a varint in a member with a sign: negative numbers take ten. */
  lemma {:induction false} WordLength(n: int, k: nat)
    requires -TWO63 <= n < TWO63 && 1 <= k <= 10
    ensures |Varint(ToWord(n))| <= k <==> k == 10 || 0 <= n < Pow2(7 * k)
  {
    TopPower();
    VarintLength(ToWord(n), k);
    if k < 10 {
      Pow2Monotone(7 * k, 63);
    }
    hide Pow2, Varint;
  }

  lemma {:induction false} TopPower()
    ensures Pow2(63) == TWO63 && Pow2(70) > TWO64
  {
    Pow2Literals();
    assert Pow2(64) == 2 * Pow2(63);
    hide Pow2;
    Pow2Add(64, 6);
    Pow2Monotone(1, 6);
    SmallPowers();
  }

  lemma {:induction false} SmallPowers()
    ensures Pow2(1) == 2 && Pow2(7) == 0x80
  {}

  /** The bytes of a varint in an unsigned member. */
  lemma {:induction false} UnsignedLength(n: nat, k: nat)
    requires n < TWO64 && 1 <= k <= 10
    ensures |Varint(n)| <= k <==> k == 10 || n < Pow2(7 * k)
  {
    TopPower();
    VarintLength(n, k);
    hide Pow2, Varint;
  }

  lemma {:induction false} FivePower()
    ensures Pow2(35) == TWO35
  {
    Pow2Literals();
    hide Pow2;
    Pow2Add(32, 3);
    EightIs();
  }

  lemma {:induction false} EightIs()
    ensures Pow2(3) == 8
  {}

  /** One number takes at most the announced size exactly when it is modest. */
  lemma {:induction false} NumberExactly(d: G.Decl, f: Field, v: Value)
    requires DescribesType(d, f) && WellFormedField(f) && ItemShape(f, v) && G.TypeSize(d.pbtype).Some?
    requires f.ltype.VARINT? || f.ltype.UVARINT? || f.ltype.SVARINT?
    ensures EncodeItem(f, v).Some?
    ensures |EncodeItem(f, v).value| <= G.TypeSize(d.pbtype).value <==> ModestItem(d, f, v)
  {
    hide Pow2, Varint, ToWord, ZigZag, SignedFits, UnsignedFits, G.EnumSize;
    SmallPowers();
    FivePower();
    if d.pbtype.ENUM? {
      EnumSmall(d.pbtype.values);
    }
    var size := G.TypeSize(d.pbtype).value;
    match f.ltype
    case VARINT => WordLength(v.n, size);
    case UVARINT => UnsignedLength(v.n, size);
    case SVARINT =>
      ZigZagRange(v.n);
      UnsignedLength(ZigZag(v.n), size);
  }

  lemma {:induction false} ZigZagRange(n: int)
    requires -TWO63 <= n < TWO63
    ensures 0 <= ZigZag(n) < TWO64
    ensures ZigZag(n) < TWO35 <==> -TWO34 <= n < TWO34
  {
    ZigZagRoundTrip(n);
    hide ZigZag, UnZigZag;
  }

  lemma {:induction false} DelimitedBound(content: seq<byte>, max: nat)
    requires |content| <= max && G.VarintMaxSize(max).Some?
    ensures |Delimited(content)| <= max + G.VarintMaxSize(max).value
  {
    G.VarintMaxSizeBounds(max, |content|);
  }

  /** A value that is not a submessage takes at most the announced size exactly when it is modest. */
  lemma {:induction false} ItemSizeExactly(d: G.Decl, f: Field, v: Value)
    requires DescribesType(d, f) && WellFormedField(f) && ItemShape(f, v) && !d.pbtype.MESSAGE?
    requires EncodeItem(f, v).Some? && G.TypeSize(d.pbtype).Some?
    ensures |EncodeItem(f, v).value| <= G.TypeSize(d.pbtype).value <==> ModestItem(d, f, v)
  {
    hide Varint, ToWord, ZigZag, G.VarintMaxSize, UnsignedFits, SignedFits, ModestEnum, G.EnumSize;
    match d.pbtype
    case STRING(max) => DelimitedBound(v.b, max);
    case BYTES(max) => DelimitedBound(v.b, max);
    case FIXED_LENGTH_BYTES(max) => DelimitedBound(v.b, max);
    case DOUBLE =>
    case FLOAT =>
    case FIXED32 =>
    case FIXED64 =>
    case SFIXED32 =>
    case SFIXED64 =>
    case _ => NumberExactly(d, f, v);
  }

  /** One modest value takes at most the size of its type. */
  lemma {:induction false} ItemBound(d: G.Decl, f: Field, v: Value, e: seq<byte>)
    requires DescribesType(d, f) && WellFormedField(f) && ItemShape(f, v) && ModestItem(d, f, v)
    requires EncodeItem(f, v) == Some(e) && G.TypeSize(d.pbtype).Some?
    ensures |e| <= G.TypeSize(d.pbtype).value
    decreases d, 0
  {
    hide Varint, ToWord, ZigZag, G.VarintMaxSize, UnsignedFits, SignedFits, ModestEnum, G.EnumSize;
    if d.pbtype.MESSAGE? {
      var entries := d.pbtype.entries;
      var content := EncodeFrom(f.ltype.fields, v.slots, 0).value;
      MessageBound(entries, f.ltype.fields, 0, v.slots, content);
      DelimitedBound(content, G.MessageSize(entries).value);
    } else {
      ItemSizeExactly(d, f, v);
    }
  }

  // ---- arrays ----

  lemma {:induction false} ItemsBound(d: G.Decl, f: Field, items: seq<Value>, e: seq<byte>)
    requires DescribesType(d, f) && WellFormedField(f) && G.TypeSize(d.pbtype).Some?
    requires (forall v | v in items :: ItemShape(f, v)) && (forall v | v in items :: ModestItem(d, f, v))
    requires EncodeItems(f, items) == Some(e)
    ensures |e| <= G.Times(G.TypeSize(d.pbtype).value, |items|)
    decreases d, 1, |items|
  {
    if items != [] {
      var more := EncodeItems(f, items[1..]).value;
      ItemBound(d, f, items[0], EncodeItem(f, items[0]).value);
      ItemsBound(d, f, items[1..], more);
      OneMore(G.TypeSize(d.pbtype).value, |items|);
    }
  }

  lemma {:induction false} OneMore(a: nat, n: nat)
    requires n > 0
    ensures G.Times(a, n) == G.Times(a, n - 1) + a
  {}

  lemma {:induction false} TaggedBound(d: G.Decl, f: Field, items: seq<Value>, e: seq<byte>)
    requires DescribesType(d, f) && WellFormedField(f) && f.tag == d.tag
    requires G.TypeSize(d.pbtype).Some? && G.VarintMaxSize(d.tag * 8).Some?
    requires (forall v | v in items :: ItemShape(f, v)) && (forall v | v in items :: ModestItem(d, f, v))
    requires EncodeTagged(f, items) == Some(e)
    ensures |e| <= G.Times(G.TypeSize(d.pbtype).value + G.VarintMaxSize(d.tag * 8).value, |items|)
    decreases d, 1, |items|
  {
    hide Key, G.VarintMaxSize;
    if items != [] {
      var more := EncodeTagged(f, items[1..]).value;
      ItemBound(d, f, items[0], EncodeItem(f, items[0]).value);
      KeyLength(f.tag, WireType(f.ltype));
      TaggedBound(d, f, items[1..], more);
      OneMore(G.TypeSize(d.pbtype).value + G.VarintMaxSize(d.tag * 8).value, |items|);
    }
  }

  lemma {:induction false} MoreEntries(a: nat, n: nat, max: nat)
    requires n <= max
    ensures G.Times(a, n) <= G.Times(a, max)
  {
    MulLe(n, max, a);
  }

  /** A packed array with its key and length, against the unpacked array the generator counts. */
  lemma {:induction false} PackedFits(key: nat, size: nat, count: nat, max: nat, content: nat, prefix: nat)
    requires 1 <= key && size <= 10 && 1 <= count <= max <= 255
    requires content <= G.Times(size, count)
    requires content < 128 ==> prefix <= 1
    requires content < TWO14 ==> prefix <= 2
    ensures key + prefix + content <= G.Times(size + key, max) + if max == 1 then 1 else 0
  {
    assert G.Times(size + key, max) == size * max + key * max;
    MulLe(count, max, size);
    MulLe(size, 10, count);
    assert content <= 10 * count;
    if max >= 3 {
      MulLe(3, max, key);
    } else if max == 2 {
      assert prefix <= 1;
    }
  }

  lemma {:induction false} PackableSmall(d: G.Decl, f: Field)
    requires DescribesType(d, f) && Packable(f.ltype) && G.TypeSize(d.pbtype).Some?
    ensures G.TypeSize(d.pbtype).value <= 10
  {
    hide G.VarintMaxSize;
    if d.pbtype.ENUM? {
      EnumSmall(d.pbtype.values);
    }
  }

  lemma {:induction false} EnumSmall(values: seq<int>)
    requires G.EnumSize(values).Some?
    ensures 1 <= G.EnumSize(values).value <= 10
  {
    VarintSmall(values[0]);
    hide G.VarintMaxSize;
    if |values| > 1 {
      EnumSmall(values[1..]);
    }
  }

  lemma {:induction false} VarintSmall(v: int)
    requires G.VarintMaxSize(v).Some?
    ensures 1 <= G.VarintMaxSize(v).value <= 10
  {
    hide G.LengthFrom;
    G.LengthFromSufficient(if v < 0 then TWO64 - v else v, 1);
  }

  lemma {:induction false} ArrayBound(d: G.Decl, f: Field, s: Slot, e: seq<byte>)
    requires DescribesField(d, f) && WellFormedField(f) && FieldShape(f, s) && f.htype.REPEATED? && ModestField(d, f, s)
    requires EncodeField(f, s) == Some(e) && G.FieldSize(d).Some?
    ensures |e| <= G.FieldSize(d).value
    decreases d, 2
  {
    hide *;
    ArrayHere(d, f);
    EncodedArray(f, s, e);
    SizeParts(d);
    if s.size > 0 {
      ModestPrefix(d, f, s);
      if Packable(f.ltype) {
        PackedBound(d, f, s.items[..s.size], EncodeItems(f, s.items[..s.size]).value);
      } else {
        TaggedBound(d, f, s.items[..s.size], e);
        MoreEntries(G.TypeSize(d.pbtype).value + G.VarintMaxSize(d.tag * 8).value, s.size, d.rules.maxCount);
      }
    }
  }

  lemma {:induction false} PackedBound(d: G.Decl, f: Field, items: seq<Value>, content: seq<byte>)
    requires DescribesType(d, f) && WellFormedField(f) && f.tag == d.tag && Packable(f.ltype)
    requires d.rules.REPEATED? && 1 <= |items| <= d.rules.maxCount <= 255
    requires G.TypeSize(d.pbtype).Some? && G.VarintMaxSize(d.tag * 8).Some?
    requires (forall v | v in items :: ItemShape(f, v)) && (forall v | v in items :: ModestItem(d, f, v))
    requires EncodeItems(f, items) == Some(content)
    ensures |Key(f.tag, WT_STRING)| + |Varint(|content|)| + |content|
         <= G.Times(G.TypeSize(d.pbtype).value + G.VarintMaxSize(d.tag * 8).value, d.rules.maxCount) + if d.rules.maxCount == 1 then 1 else 0
    decreases d, 1, |items| + 1
  {
    hide Key, Varint, EncodeItems, G.TypeSize, G.VarintMaxSize, G.Times, DescribesType, ItemShape, ModestItem, WellFormedField, Packable;
    ItemsBound(d, f, items, content);
    KeyLength(f.tag, WT_STRING);
    PackableSmall(d, f);
    Lengths(|content|);
    PackedFits(G.VarintMaxSize(d.tag * 8).value, G.TypeSize(d.pbtype).value, |items|, d.rules.maxCount, |content|, |Varint(|content|)|);
  }

  lemma {:induction false} ArrayHere(d: G.Decl, f: Field)
    requires DescribesField(d, f) && WellFormedField(f) && f.htype.REPEATED?
    ensures f.tag == d.tag && DescribesType(d, f) && d.rules.REPEATED? && f.arraySize == d.rules.maxCount <= 255
  {}

  lemma {:induction false} SizeParts(d: G.Decl)
    requires G.FieldSize(d).Some?
    ensures G.TypeSize(d.pbtype).Some? && G.VarintMaxSize(d.tag * 8).Some?
    ensures var one := G.TypeSize(d.pbtype).value + G.VarintMaxSize(d.tag * 8).value;
      G.FieldSize(d).value
        == if d.rules.REPEATED? then G.Times(one, d.rules.maxCount) + (if d.rules.maxCount == 1 then 1 else 0) else one
  {
    hide G.TypeSize, G.VarintMaxSize, G.Times;
  }

  lemma {:induction false} EncodedArray(f: Field, s: Slot, e: seq<byte>)
    requires WellFormedField(f) && FieldShape(f, s) && f.htype.REPEATED? && EncodeField(f, s) == Some(e)
    ensures s.size <= f.arraySize == |s.items| && forall v | v in s.items[..s.size] :: ItemShape(f, v)
    ensures s.size == 0 ==> e == []
    ensures s.size > 0 && Packable(f.ltype) ==> EncodeItems(f, s.items[..s.size]).Some?
    ensures s.size > 0 && Packable(f.ltype) ==>
      var content := EncodeItems(f, s.items[..s.size]).value;
      |e| == |Key(f.tag, WT_STRING)| + |Varint(|content|)| + |content|
    ensures s.size > 0 && !Packable(f.ltype) ==> EncodeTagged(f, s.items[..s.size]) == Some(e)
  {
    hide EncodeItem, EncodeItems, EncodeTagged, Key, Varint, ItemShape;
  }

  lemma {:induction false} ModestPrefix(d: G.Decl, f: Field, s: Slot)
    requires DescribesType(d, f) && FieldShape(f, s) && f.htype.REPEATED? && ModestField(d, f, s) && s.size <= f.arraySize
    ensures forall v | v in s.items[..s.size] :: ItemShape(f, v)
    ensures forall v | v in s.items[..s.size] :: ModestItem(d, f, v)
  {
    var items := s.items[..s.size];
    forall v | v in items ensures ItemShape(f, v) && ModestItem(d, f, v) {
      var k :| 0 <= k < |items| && items[k] == v;
      assert s.items[k] == v;
    }
  }

  // ---- fields ----

  lemma {:induction false} SingleBound(d: G.Decl, f: Field, s: Slot, e: seq<byte>)
    requires DescribesType(d, f) && f.tag == d.tag && WellFormedField(f) && FieldShape(f, s)
    requires !f.htype.REPEATED? && !d.rules.REPEATED? && ModestField(d, f, s)
    requires EncodeField(f, s) == Some(e) && G.FieldSize(d).Some?
    ensures |e| <= G.FieldSize(d).value
    ensures f.htype.ONEOF? && s.size != f.tag ==> e == []
    decreases d, 2
  {
    if e != [] {
      var item := EncodeItem(f, s.items[0]).value;
      KeyLength(f.tag, WireType(f.ltype));
      hide Key, G.VarintMaxSize, DescribesType, ModestItem, EncodeItem;
      ItemBound(d, f, s.items[0], item);
    }
  }

  /** The oneof that starts at position `i` holds its member `j`. */
  predicate Chosen(fields: seq<Field>, m: seq<Slot>, i: nat, j: nat)
    requires i + j < |fields| <= |m|
  {
    m[SlotOf(fields, i + j)].size == fields[i + j].tag
  }

  /** Of the members from `k` on at most the active one is encoded. */
  lemma {:induction false} MembersBound(members: seq<G.Decl>, fields: seq<Field>, i: nat, k: nat, m: seq<Slot>, e: seq<byte>, rest: seq<byte>)
    requires WellFormed(fields) && MessageShape(fields, m) && DescribesMembers(members, fields, i) && ModestMembers(members, fields, i, m)
    requires k <= |members| && G.MembersSize(members[k..]).Some?
    requires EncodeFrom(fields, m, i + k) == Some(e) && EncodeFrom(fields, m, i + |members|) == Some(rest)
    ensures |e| <= |rest| + G.MembersSize(members[k..]).value
    ensures |fields| == |m| && i + |members| <= |fields|
    ensures (forall j | k <= j < |members| :: !Chosen(fields, m, i, j)) ==> |e| <= |rest|
    decreases members, 2, |members| - k
  {
    hide *;
    MembersFit(members, fields, i, m);
    if k == |members| {
      NoMembers(members);
    } else {
      MembersParts(members, k);
      EncodeSuffix(fields, m, i + k, 1);
      var tail := EncodeFrom(fields, m, i + k + 1).value;
      MemberStep(members, fields, i, k, m, e, tail);
      assert i + (k + 1) == i + k + 1;
      MembersBound(members, fields, i, k + 1, m, tail, rest);
      if Chosen(fields, m, i, k) {
        OthersInactive(members, fields, i, k, m);
      }
    }
  }

  lemma {:induction false} MembersFit(members: seq<G.Decl>, fields: seq<Field>, i: nat, m: seq<Slot>)
    requires DescribesMembers(members, fields, i) && MessageShape(fields, m)
    ensures i + |members| <= |fields| == |m|
  {}

  lemma {:induction false} NoMembers(members: seq<G.Decl>)
    ensures G.MembersSize(members[|members|..]) == Some(0)
  {}

  lemma {:induction false} MembersParts(members: seq<G.Decl>, k: nat)
    requires k < |members| && G.MembersSize(members[k..]).Some?
    ensures G.FieldSize(members[k]).Some? && G.MembersSize(members[k + 1..]).Some?
    ensures G.FieldSize(members[k]).value <= G.MembersSize(members[k..]).value
    ensures G.MembersSize(members[k + 1..]).value <= G.MembersSize(members[k..]).value
  {
    hide G.FieldSize;
    assert members[k..][1..] == members[k + 1..];
  }

  lemma {:induction false} MemberStep(members: seq<G.Decl>, fields: seq<Field>, i: nat, k: nat, m: seq<Slot>, e: seq<byte>, tail: seq<byte>)
    requires WellFormed(fields) && MessageShape(fields, m) && DescribesMembers(members, fields, i) && ModestMembers(members, fields, i, m)
    requires k < |members| && G.FieldSize(members[k]).Some?
    requires EncodeFrom(fields, m, i + k) == Some(e) && EncodeFrom(fields, m, i + k + 1) == Some(tail)
    ensures |e| <= |tail| + G.FieldSize(members[k]).value
    ensures |fields| == |m| && i + |members| <= |fields|
    ensures !Chosen(fields, m, i, k) ==> e == tail
    decreases members, 1
  {
    var f, s, d := fields[i + k], m[SlotOf(fields, i + k)], members[k];
    assert DescribesMember(members, fields, i, k) && FieldShape(f, s) && ModestField(d, f, s);
    var head := EncodeField(f, s).value;
    assert e == head + tail;
    hide EncodeFrom, EncodeField, DescribesMembers, ModestMembers, ModestField, MessageShape, SlotOf, G.FieldSize;
    SingleBound(d, f, s, head);
  }

  lemma {:induction false} OthersInactive(members: seq<G.Decl>, fields: seq<Field>, i: nat, k: nat, m: seq<Slot>)
    requires WellFormed(fields) && MessageShape(fields, m) && DescribesMembers(members, fields, i)
    requires k < |members| && Chosen(fields, m, i, k)
    ensures forall j | k < j < |members| :: !Chosen(fields, m, i, j)
  {
    forall j | k < j < |members| ensures !Chosen(fields, m, i, j) {
      OtherInactive(members, fields, i, k, j, m);
    }
  }

  lemma {:induction false} OtherInactive(members: seq<G.Decl>, fields: seq<Field>, i: nat, k: nat, j: nat, m: seq<Slot>)
    requires WellFormed(fields) && MessageShape(fields, m) && DescribesMembers(members, fields, i)
    requires k < j < |members| && Chosen(fields, m, i, k)
    ensures !Chosen(fields, m, i, j)
  {
    hide DescribesMember, SlotOf, MessageShape;
    OneSlot(members, fields, i, k);
    OneSlot(members, fields, i, j);
    assert fields[i + j].tag != fields[i + k].tag;
  }

  /** The members of a oneof live in one slot. */
  lemma {:induction false} OneSlot(members: seq<G.Decl>, fields: seq<Field>, i: nat, k: nat)
    requires DescribesMembers(members, fields, i) && k < |members|
    ensures SlotOf(fields, i + k) == i
  {
    assert DescribesMember(members, fields, i, k);
    if k > 0 {
      OneSlot(members, fields, i, k - 1);
    }
  }

  lemma {:induction false} EncodeSuffix(fields: seq<Field>, m: seq<Slot>, i: nat, n: nat)
    requires MessageShape(fields, m) && i + n <= |fields| && EncodeFrom(fields, m, i).Some?
    ensures EncodeFrom(fields, m, i + n).Some?
    decreases n
  {
    hide EncodeFrom, EncodeField, FieldShape, MessageShape, SlotOf;
    if n > 0 {
      EncodeStep(fields, m, i);
      EncodeSuffix(fields, m, i + 1, n - 1);
    }
  }

  lemma {:induction false} EntryBound(entry: G.Entry, fields: seq<Field>, i: nat, m: seq<Slot>, e: seq<byte>, rest: seq<byte>)
    requires WellFormed(fields) && MessageShape(fields, m) && DescribesEntry(entry, fields, i) && ModestEntry(entry, fields, i, m)
    requires G.EntrySize(entry).Some? && i + Span(entry) <= |fields|
    requires EncodeFrom(fields, m, i) == Some(e) && EncodeFrom(fields, m, i + Span(entry)) == Some(rest)
    ensures |e| <= |rest| + G.EntrySize(entry).value
    decreases entry, 3
  {
    hide EncodeFrom, DescribesType, DescribesMembers, ModestMembers, ModestField, MessageShape, WellFormed, G.FieldSize,
         G.MembersSize, SlotOf, FieldShape;
    match entry
    case Single(d) => SingleEntryBound(d, fields, i, m, e, rest);
    case OneOf(members) => OneOfBound(members, fields, i, m, e, rest);
  }

  lemma {:induction false} OneOfBound(members: seq<G.Decl>, fields: seq<Field>, i: nat, m: seq<Slot>, e: seq<byte>, rest: seq<byte>)
    requires WellFormed(fields) && MessageShape(fields, m) && DescribesMembers(members, fields, i) && ModestMembers(members, fields, i, m)
    requires G.MembersSize(members).Some?
    requires EncodeFrom(fields, m, i) == Some(e) && EncodeFrom(fields, m, i + |members|) == Some(rest)
    ensures |e| <= |rest| + G.MembersSize(members).value
    decreases members, 3
  {
    hide *;
    assert members[0..] == members && i + 0 == i;
    MembersFit(members, fields, i, m);
    MembersBound(members, fields, i, 0, m, e, rest);
  }

  lemma {:induction false} SingleEntryBound(d: G.Decl, fields: seq<Field>, i: nat, m: seq<Slot>, e: seq<byte>, rest: seq<byte>)
    requires WellFormed(fields) && MessageShape(fields, m) && i < |fields| && DescribesField(d, fields[i])
    requires FieldShape(fields[i], m[SlotOf(fields, i)]) && DescribesType(d, fields[i]) && ModestField(d, fields[i], m[SlotOf(fields, i)])
    requires G.FieldSize(d).Some? && EncodeFrom(fields, m, i) == Some(e) && EncodeFrom(fields, m, i + 1) == Some(rest)
    ensures |e| <= |rest| + G.FieldSize(d).value
    decreases d, 3
  {
    var f, s := fields[i], m[SlotOf(fields, i)];
    var head := EncodeField(f, s).value;
    assert e == head + rest;
    hide EncodeFrom, EncodeField, MessageShape, SlotOf, G.FieldSize, ModestField, DescribesType, FieldShape;
    if f.htype.REPEATED? {
      ArrayBound(d, f, s, head);
    } else {
      SingleBound(d, f, s, head);
    }
  }

  /** pb_encode writes at most Message.encoded_size bytes. */
  lemma {:induction false} MessageBound(entries: seq<G.Entry>, fields: seq<Field>, i: nat, m: seq<Slot>, e: seq<byte>)
    requires WellFormed(fields) && Describes(entries, fields, i) && MessageShape(fields, m) && i <= |fields| && Modest(entries, fields, i, m)
    requires G.MessageSize(entries).Some? && EncodeFrom(fields, m, i) == Some(e)
    ensures |e| <= G.MessageSize(entries).value
    decreases entries, 4
  {
    hide *;
    if entries != [] {
      MessageParts(entries, fields, i, m);
      var n := Span(entries[0]);
      EncodeSuffix(fields, m, i, n);
      var rest := EncodeFrom(fields, m, i + n).value;
      EntryBound(entries[0], fields, i, m, e, rest);
      MessageBound(entries[1..], fields, i + n, m, rest);
    } else {
      NothingLeft(entries, fields, m, i, e);
    }
  }

  lemma {:induction false} NothingLeft(entries: seq<G.Entry>, fields: seq<Field>, m: seq<Slot>, i: nat, e: seq<byte>)
    requires entries == [] && Describes(entries, fields, i) && MessageShape(fields, m) && i <= |fields| && EncodeFrom(fields, m, i) == Some(e)
    ensures e == []
  {}

  lemma {:induction false} MessageParts(entries: seq<G.Entry>, fields: seq<Field>, i: nat, m: seq<Slot>)
    requires entries != [] && Describes(entries, fields, i) && MessageShape(fields, m) && Modest(entries, fields, i, m)
    requires G.MessageSize(entries).Some?
    ensures i + Span(entries[0]) <= |fields|
    ensures DescribesEntry(entries[0], fields, i) && Describes(entries[1..], fields, i + Span(entries[0]))
    ensures ModestEntry(entries[0], fields, i, m) && Modest(entries[1..], fields, i + Span(entries[0]), m)
    ensures G.EntrySize(entries[0]).Some? && G.MessageSize(entries[1..]).Some?
    ensures G.MessageSize(entries).value == G.EntrySize(entries[0]).value + G.MessageSize(entries[1..]).value
  {
    hide DescribesEntry, ModestEntry, G.EntrySize, MessageShape, Span;
  }

  /** The generated maximum size of a message bounds every value of it in which all numbers are modest. */
  lemma {:induction false} EncodedSizeIsBound(entries: seq<G.Entry>, fields: seq<Field>, m: seq<Slot>)
    requires WellFormed(fields) && Describes(entries, fields, 0) && G.MessageSize(entries).Some?
    requires MessageShape(fields, m) && Modest(entries, fields, 0, m)
    ensures EncodeMessage(fields, m).Some? ==> |EncodeMessage(fields, m).value| <= G.MessageSize(entries).value
  {
    if EncodeMessage(fields, m).Some? {
      MessageBound(entries, fields, 0, m, EncodeMessage(fields, m).value);
    }
  }
}
