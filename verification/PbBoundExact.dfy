/** Exactly when the generated size bounds every value of a type, and every message of one field. */
module PbBoundExact {
  import opened Bits
  import opened Wire
  import opened PbTypes
  import opened PbFormat
  import opened PbBound
  import opened PbBoundProof
  import opened PbRoundTrip
  import P = PbParse
  import T = PbMessageTrip
  import G = PbMaxSize

  // ---- types ----

  /** An int_size option made a 32-bit type wider, but the size of the type stayed at five bytes. */
  predicate Widened(d: G.Decl) {
    (d.pbtype.UINT32? || d.pbtype.SINT32?) && d.intSize == Some(8)
  }

  /** The longest varint of an unsigned member of this many bytes. */
  function WidthLength(width: nat): nat {
    if width == 1 then 2 else if width == 2 then 3 else if width == 4 then 5 else 10
  }

  /** Whatever a member of the type holds, it takes no more than the announced size. */
  predicate TypeFits(d: G.Decl) {
    match d.pbtype
    case BOOL => false
    case ENUM(values, width) =>
      G.EnumSize(values).Some? ==> HasNegative(values) || WidthLength(width) <= G.EnumSize(values).value
    case _ => !Widened(d)
  }

  /** Values of the declared type are modest, as long as the type is not widened. */
  lemma {:induction false} DeclaredIsModest(d: G.Decl, f: Field, v: Value)
    requires DescribesType(d, f) && WellFormedField(f) && ItemShape(f, v) && !d.pbtype.MESSAGE? && !Widened(d)
    requires d.pbtype.BOOL? ==> v.n == 0 || v.n == 1
    requires d.pbtype.ENUM? ==> v.n in d.pbtype.values
    ensures ModestItem(d, f, v)
  {
    match d.pbtype
    case ENUM(values, _) =>
      if G.EnumSize(values).Some? {
        DeclaredEnum(values, v.n);
      }
    case UINT32 => NarrowUnsigned(f.dataSize, v.n);
    case SINT32 => NarrowSigned(f.dataSize, v.n);
    case _ =>
  }

  lemma {:induction false} DeclaredEnum(values: seq<int>, n: int)
    requires G.EnumSize(values).Some? && n in values && -TWO63 <= n < TWO64
    ensures ModestEnum(values, n)
  {
    hide Pow2, Varint, G.VarintMaxSize;
    DeclaredLength(values, n);
    EnumSmall(values);
    if n >= 0 {
      UnsignedLength(n, G.EnumSize(values).value);
    }
  }

  lemma {:induction false} DeclaredLength(values: seq<int>, n: int)
    requires G.EnumSize(values).Some? && n in values && -TWO63 <= n
    ensures n >= 0 ==> |Varint(n)| <= G.EnumSize(values).value
    ensures n < 0 ==> G.EnumSize(values).value >= 10
  {
    hide Varint, G.VarintMaxSize;
    if n == values[0] {
      if n < 0 {
        G.NegativeMaxSize(n);
      } else {
        G.VarintMaxSizeBounds(n, n);
      }
    } else {
      assert n in values[1..];
      DeclaredLength(values[1..], n);
    }
  }

  lemma {:induction false} NarrowUnsigned(size: nat, n: int)
    requires IntSize(size) && UnsignedFits(n, size) && size != 8
    ensures n < TWO35
  {
    Pow2Literals();
    Pow2Monotone(8 * size, 32);
  }

  lemma {:induction false} NarrowSigned(size: nat, n: int)
    requires IntSize(size) && SignedFits(n, size) && size != 8
    ensures -TWO34 <= n < TWO34
  {
    Pow2Literals();
    Pow2Monotone(8 * size - 1, 32);
  }

  // ---- the widest value of a type ----

  /** A value that takes the most bytes, of a type whose announced size is not enough. */
  function Widest(d: G.Decl): Value {
    match d.pbtype
    case UINT32 => Num(TWO64 - 1)
    case SINT32 => Num(-TWO63)
    case ENUM(_, width) => Num(Pow2(8 * width) - 1)
    case _ => Num(-1)
  }

  function WidestLength(d: G.Decl): nat {
    if d.pbtype.ENUM? then WidthLength(d.pbtype.width) else 10
  }

  /** The bounds of an unsigned member against the groups of seven bits. */
  lemma {:induction false} WidthPowers(width: nat)
    requires IntSize(width)
    ensures Pow2(7 * (WidthLength(width) - 1)) < Pow2(8 * width) <= Pow2(7 * WidthLength(width))
    ensures 2 <= WidthLength(width) <= 10 && 1 < Pow2(8 * width) <= TWO64
  {
    Pow2Literals();
    var k := WidthLength(width);
    Pow2Monotone(7 * (k - 1) + 1, 8 * width);
    Pow2Monotone(8 * width, 7 * k);
    Pow2Monotone(8 * width, 64);
    assert Pow2(7 * (k - 1) + 1) == 2 * Pow2(7 * (k - 1));
    hide Pow2;
  }

  /** No value of the member takes more bytes. */
  lemma {:induction false} NoLonger(d: G.Decl, f: Field, v: Value)
    requires DescribesType(d, f) && WellFormedField(f) && ItemShape(f, v) && !TypeFits(d) && G.TypeSize(d.pbtype).Some?
    ensures EncodeItem(f, v).Some? && |EncodeItem(f, v).value| <= WidestLength(d)
  {
    hide Varint, ToWord, ZigZag, Pow2, SignedFits;
    match f.ltype
    case VARINT => WordLength(v.n, 10);
    case SVARINT =>
      ZigZagRange(v.n);
      UnsignedLength(ZigZag(v.n), 10);
    case UVARINT =>
      if d.pbtype.ENUM? {
        WidthPowers(f.dataSize);
        UnsignedLength(v.n, WidestLength(d));
      } else {
        UnsignedLength(v.n, 10);
      }
  }

  lemma {:induction false} LongWords()
    ensures |Varint(TWO64 - 1)| == 10 && |Varint(ToWord(-1))| == 10
  {
    TopPower();
    hide Pow2;
    VarintLength(TWO64 - 1, 9);
    VarintLength(TWO64 - 1, 10);
  }

  lemma {:induction false} WidestSigned()
    ensures SignedFits(-TWO63, 8) && ZigZag(-TWO63) == TWO64 - 1
    ensures SignedFits(-1, 1) && UnsignedFits(TWO64 - 1, 8)
  {
    Pow2Literals();
    assert Pow2(64) == 2 * Pow2(63);
    hide Pow2;
    ZigZagRoundTrip(-TWO63);
    SmallPowers();
  }

  /** The widest value takes that many bytes, and more than announced. */
  lemma {:induction false} WidestItem(d: G.Decl, f: Field)
    requires DescribesType(d, f) && WellFormedField(f) && !TypeFits(d) && G.TypeSize(d.pbtype).Some?
    ensures ItemShape(f, Widest(d)) && Widest(d).n != 0
    ensures EncodeItem(f, Widest(d)).Some? && |EncodeItem(f, Widest(d)).value| == WidestLength(d) > G.TypeSize(d.pbtype).value
  {
    hide Varint, ToWord, ZigZag, Pow2, SignedFits, UnsignedFits, G.EnumSize;
    LongWords();
    WidestSigned();
    if d.pbtype.ENUM? {
      WidestEnum(f.dataSize);
    }
  }

  lemma {:induction false} WidestEnum(width: nat)
    requires IntSize(width)
    ensures UnsignedFits(Pow2(8 * width) - 1, width) && 0 < Pow2(8 * width) - 1 < TWO64
    ensures |Varint(Pow2(8 * width) - 1)| == WidthLength(width)
  {
    WidthPowers(width);
    hide Pow2;
    VarintLength(Pow2(8 * width) - 1, WidthLength(width));
    VarintLength(Pow2(8 * width) - 1, WidthLength(width) - 1);
  }

  lemma {:induction false} AllModest(d: G.Decl, f: Field, v: Value)
    requires DescribesType(d, f) && WellFormedField(f) && ItemShape(f, v) && TypeFits(d) && !d.pbtype.MESSAGE?
    ensures ModestItem(d, f, v)
  {
    match d.pbtype
    case ENUM(values, width) =>
      if G.EnumSize(values).Some? {
        EnumModest(values, width, v.n);
      }
    case UINT32 => NarrowUnsigned(f.dataSize, v.n);
    case SINT32 => NarrowSigned(f.dataSize, v.n);
    case _ =>
  }

  lemma {:induction false} EnumModest(values: seq<int>, width: nat, n: int)
    requires G.EnumSize(values).Some? && IntSize(width)
    requires HasNegative(values) || (UnsignedFits(n, width) && WidthLength(width) <= G.EnumSize(values).value)
    ensures ModestEnum(values, n)
  {
    EnumSmall(values);
    hide Pow2;
    if HasNegative(values) {
      var v :| v in values && v < 0;
      NegativeDeclared(values, v);
    } else {
      WidthPowers(width);
      Pow2Monotone(7 * WidthLength(width), 7 * G.EnumSize(values).value);
    }
  }

  /** A declared negative number makes the size ten. */
  lemma {:induction false} NegativeDeclared(values: seq<int>, v: int)
    requires G.EnumSize(values).Some? && v in values && v < 0
    ensures G.EnumSize(values).value >= 10
  {
    if v == values[0] {
      NegativeIsTen(v);
    } else {
      assert v in values[1..];
      NegativeDeclared(values[1..], v);
    }
  }

  lemma {:induction false} NegativeIsTen(v: int)
    requires G.VarintMaxSize(v).Some? && v < 0
    ensures G.VarintMaxSize(v).value >= 10
  {
    hide Pow2, G.LengthFrom;
    G.LengthFromSufficient(TWO64 - v, 1);
    TopPower();
    var k := G.VarintMaxSize(v).value;
    if k < 10 {
      Pow2Monotone(7 * k, 63);
    }
  }

  ghost predicate BoundedItems(d: G.Decl, f: Field)
    requires DescribesType(d, f) && G.TypeSize(d.pbtype).Some?
  {
    forall v | ItemShape(f, v) && EncodeItem(f, v).Some? :: |EncodeItem(f, v).value| <= G.TypeSize(d.pbtype).value
  }

  /** For a type that is not a message, the announced size bounds whatever its member can hold, exactly when the
      type is not bool, is not widened by int_size and, for an enum, has a negative value or one as long as the
      member is wide. */
  lemma {:induction false} TypeSizeExactly(d: G.Decl, f: Field)
    requires DescribesType(d, f) && WellFormedField(f) && !d.pbtype.MESSAGE? && G.TypeSize(d.pbtype).Some?
    ensures BoundedItems(d, f) <==> TypeFits(d)
  {
    hide ItemShape, EncodeItem, ModestItem, G.TypeSize, TypeFits;
    if TypeFits(d) {
      forall v | ItemShape(f, v) && EncodeItem(f, v).Some? ensures |EncodeItem(f, v).value| <= G.TypeSize(d.pbtype).value {
        AllModest(d, f, v);
        ItemSizeExactly(d, f, v);
      }
    } else {
      WidestItem(d, f);
    }
  }

  // ---- messages whose types all fit ----

  predicate Fits(d: G.Decl)
    decreases d, 0
  {
    TypeFits(d) && (d.pbtype.MESSAGE? ==> AllFit(d.pbtype.entries))
  }

  predicate EntryFits(e: G.Entry)
    decreases e, 1
  {
    match e
    case Single(d) => Fits(d)
    case OneOf(members) => forall d | d in members :: Fits(d)
  }

  /** The types of all fields fit, at every depth. */
  predicate AllFit(entries: seq<G.Entry>)
    decreases entries, 2
  {
    forall e | e in entries :: EntryFits(e)
  }

  lemma {:induction false} ItemModest(d: G.Decl, f: Field, v: Value)
    requires DescribesType(d, f) && WellFormedField(f) && ItemShape(f, v) && Fits(d)
    ensures ModestItem(d, f, v)
    decreases d, 0
  {
    if d.pbtype.MESSAGE? {
      MessageModest(d.pbtype.entries, f.ltype.fields, 0, v.slots);
    } else {
      AllModest(d, f, v);
    }
  }

  lemma {:induction false} FieldModest(d: G.Decl, f: Field, s: Slot)
    requires DescribesType(d, f) && WellFormedField(f) && FieldShape(f, s) && Fits(d)
    ensures ModestField(d, f, s)
    decreases d, 1
  {
    hide DescribesType, WellFormedField, Fits, ItemShape, ModestItem;
    if f.htype.REPEATED? {
      forall k | 0 <= k < f.arraySize && k < s.size ensures ModestItem(d, f, s.items[k]) {
        ItemModest(d, f, s.items[k]);
      }
    } else if f.htype.ONEOF? && s.size != f.tag {
    } else {
      ItemModest(d, f, s.items[0]);
    }
  }

  lemma {:induction false} EntryModest(e: G.Entry, fields: seq<Field>, i: nat, m: seq<Slot>)
    requires WellFormed(fields) && MessageShape(fields, m) && DescribesEntry(e, fields, i) && EntryFits(e)
    ensures ModestEntry(e, fields, i, m)
    decreases e, 3
  {
    hide DescribesType, WellFormedField, Fits, FieldShape, ModestField, SlotOf;
    match e
    case Single(d) =>
      assert FieldShape(fields[i], m[SlotOf(fields, i)]);
      FieldFacts(d, fields[i]);
      FieldModest(d, fields[i], m[SlotOf(fields, i)]);
    case OneOf(members) =>
      forall k | 0 <= k < |members|
        ensures DescribesMember(members, fields, i, k) && FieldShape(fields[i + k], m[SlotOf(fields, i + k)])
        ensures ModestField(members[k], fields[i + k], m[SlotOf(fields, i + k)])
      {
        assert DescribesMember(members, fields, i, k);
        assert FieldShape(fields[i + k], m[SlotOf(fields, i + k)]);
        FieldModest(members[k], fields[i + k], m[SlotOf(fields, i + k)]);
      }
  }

  lemma {:induction false} MessageModest(entries: seq<G.Entry>, fields: seq<Field>, i: nat, m: seq<Slot>)
    requires WellFormed(fields) && MessageShape(fields, m) && Describes(entries, fields, i) && AllFit(entries)
    ensures Modest(entries, fields, i, m)
    decreases entries, 4
  {
    if entries != [] {
      hide DescribesEntry, EntryFits, ModestEntry, WellFormed, MessageShape;
      EntryModest(entries[0], fields, i, m);
      MessageModest(entries[1..], fields, i + Span(entries[0]), m);
    }
  }

  /** No value of the message takes more bytes than the generator announces. */
  ghost predicate Bounded(entries: seq<G.Entry>, fields: seq<Field>)
    requires G.MessageSize(entries).Some?
  {
    forall m | MessageShape(fields, m) && EncodeMessage(fields, m).Some? ::
      |EncodeMessage(fields, m).value| <= G.MessageSize(entries).value
  }

  /** Where the types of all fields fit, the announced size bounds every value of the message. */
  lemma {:induction false} FittingBounded(entries: seq<G.Entry>, fields: seq<Field>)
    requires WellFormed(fields) && Describes(entries, fields, 0) && AllFit(entries) && G.MessageSize(entries).Some?
    ensures Bounded(entries, fields)
  {
    hide EncodeMessage, MessageShape, Modest, WellFormed, Describes, G.MessageSize, AllFit;
    forall m | MessageShape(fields, m) && EncodeMessage(fields, m).Some?
      ensures |EncodeMessage(fields, m).value| <= G.MessageSize(entries).value
    {
      MessageModest(entries, fields, 0, m);
      EncodedSizeIsBound(entries, fields, m);
    }
  }

  // ---- messages of one field ----

  /** The field holds its widest value wherever it can. */
  function Fullest(d: G.Decl, f: Field): Slot {
    match f.htype
    case REPEATED => Slot(f.arraySize, Copies(Widest(d), f.arraySize))
    case _ => Slot(1, [Widest(d)])
  }

  /** What the packed array takes with its widest values. */
  function FullArray(d: G.Decl, f: Field): nat {
    if f.arraySize == 0 then 0
    else
      var content := G.Times(WidestLength(d), f.arraySize);
      |Key(f.tag, WT_STRING)| + |Varint(content)| + content
  }

  lemma {:induction false} CopiesLength(d: G.Decl, f: Field, n: nat)
    requires DescribesType(d, f) && WellFormedField(f) && !TypeFits(d) && G.TypeSize(d.pbtype).Some?
    ensures forall v | v in Copies(Widest(d), n) :: ItemShape(f, v)
    ensures EncodeItems(f, Copies(Widest(d), n)).Some?
    ensures |EncodeItems(f, Copies(Widest(d), n)).value| == G.Times(WidestLength(d), n)
  {
    hide Widest, ItemShape, EncodeItem, TypeFits, DescribesType, WellFormedField, WidestLength, G.TypeSize, G.Times;
    WidestItem(d, f);
    NoTimes(WidestLength(d));
    if n > 0 {
      CopiesLength(d, f, n - 1);
      assert Copies(Widest(d), n)[1..] == Copies(Widest(d), n - 1);
      OneMore(WidestLength(d), n);
    }
  }

  lemma {:induction false} NoTimes(a: nat)
    ensures G.Times(a, 0) == 0
  {}

  lemma {:induction false} ItemsNoLonger(d: G.Decl, f: Field, items: seq<Value>)
    requires DescribesType(d, f) && WellFormedField(f) && !TypeFits(d) && G.TypeSize(d.pbtype).Some?
    requires forall v | v in items :: ItemShape(f, v)
    ensures EncodeItems(f, items).Some? && |EncodeItems(f, items).value| <= G.Times(WidestLength(d), |items|)
    decreases |items|
  {
    hide ItemShape, EncodeItem, TypeFits, DescribesType, WellFormedField, WidestLength;
    if items != [] {
      NoLonger(d, f, items[0]);
      ItemsNoLonger(d, f, items[1..]);
      OneMore(WidestLength(d), |items|);
    }
  }

  lemma {:induction false} VarintMonotone(a: nat, b: nat)
    requires a <= b
    ensures 1 <= |Varint(a)| <= |Varint(b)|
  {
    NotEmpty(a);
    NotEmpty(b);
    VarintLength(b, |Varint(b)|);
    VarintLength(a, |Varint(b)|);
  }

  lemma {:induction false} NotEmpty(n: nat)
    ensures |Varint(n)| >= 1
  {}

  /** The announced size of a key is the size of the key. */
  lemma {:induction false} KeyExactly(tag: nat, wireType: nat)
    requires tag <= PB_SIZE_MAX && wireType < 8
    ensures G.VarintMaxSize(tag * 8) == Some(|Key(tag, wireType)|)
  {
    Pow2Bytes();
    Pow2Add(7, 7);
    hide Pow2;
    VarintLength(tag * 8 + wireType, 1);
    VarintLength(tag * 8 + wireType, 2);
    NotEmpty(tag * 8 + wireType);
    SmallLength(tag * 8);
    hide G.LengthFrom, Varint;
  }

  lemma {:induction false} SmallLength(m: nat)
    requires Pow2(7) == 0x80 && Pow2(14) == 0x4000 && m < 0x4000
    ensures G.LengthFrom(m, 1) == Some(if m < 0x80 then 1 else 2)
  {
    hide Pow2;
    assert m / Pow2(14) == 0;
    assert G.LengthFrom(m, 2) == Some(2);
  }

  /** A type that does not fit is one of the packable ones. */
  lemma {:induction false} FieldFacts(d: G.Decl, f: Field)
    requires DescribesField(d, f) && WellFormedField(f)
    ensures d.tag == f.tag <= PB_SIZE_MAX && DescribesType(d, f) && !f.htype.ONEOF?
    ensures (f.htype.REPEATED? <==> d.rules.REPEATED?) && (d.rules.REPEATED? ==> d.rules.maxCount == f.arraySize)
    ensures !TypeFits(d) && !d.pbtype.MESSAGE? ==> Packable(f.ltype)
  {}

  lemma {:induction false} FullestShape(d: G.Decl, f: Field)
    requires DescribesField(d, f) && WellFormedField(f) && !TypeFits(d) && G.TypeSize(d.pbtype).Some?
    ensures FieldShape(f, Fullest(d, f))
  {
    FieldFacts(d, f);
    WidestItem(d, f);
    hide Widest, ItemShape, TypeFits;
  }

  /** What the field takes with its widest values. */
  lemma {:induction false} FullestLength(d: G.Decl, f: Field)
    requires DescribesField(d, f) && WellFormedField(f) && !TypeFits(d) && G.FieldSize(d).Some? && !d.pbtype.MESSAGE?
    requires FieldShape(f, Fullest(d, f))
    ensures EncodeField(f, Fullest(d, f)).Some?
    ensures f.htype.REPEATED? ==> |EncodeField(f, Fullest(d, f)).value| == FullArray(d, f)
    ensures !f.htype.REPEATED? ==> |EncodeField(f, Fullest(d, f)).value| > G.FieldSize(d).value
  {
    FieldFacts(d, f);
    SizeParts(d);
    WidestItem(d, f);
    KeyExactly(f.tag, WireType(f.ltype));
    if f.htype.REPEATED? {
      ArrayLength(d, f);
    } else {
      WidestPresent(d, f);
    }
    hide Widest, ItemShape, EncodeItem, EncodeArray, Varint, TypeFits, G.TypeSize, G.VarintMaxSize, G.FieldSize, WidestLength;
  }

  lemma {:induction false} WidestPresent(d: G.Decl, f: Field)
    requires ItemShape(f, Widest(d)) && Widest(d).n != 0 && Packable(f.ltype) && !f.htype.REPEATED?
    requires FieldShape(f, Fullest(d, f))
    ensures f.htype.OPTIONAL? ==> Present(f, Fullest(d, f))
  {
    hide Widest;
  }

  lemma {:induction false} ArrayLength(d: G.Decl, f: Field)
    requires DescribesType(d, f) && WellFormedField(f) && !TypeFits(d) && G.TypeSize(d.pbtype).Some? && Packable(f.ltype)
    requires f.htype.REPEATED? && FieldShape(f, Fullest(d, f))
    ensures EncodeArray(f, f.arraySize, Copies(Widest(d), f.arraySize)).Some?
    ensures |EncodeArray(f, f.arraySize, Copies(Widest(d), f.arraySize)).value| == FullArray(d, f)
  {
    var items := Copies(Widest(d), f.arraySize);
    assert items[..f.arraySize] == items;
    CopiesLength(d, f, f.arraySize);
    hide Varint, EncodeItems, ItemShape, Widest, TypeFits, G.Times;
  }

  lemma {:induction false} OneField(d: G.Decl, f: Field, s: Slot)
    requires WellFormed([f]) && Describes([G.Single(d)], [f], 0)
    ensures DescribesField(d, f) && WellFormedField(f)
    ensures G.MessageSize([G.Single(d)]) == G.FieldSize(d)
    ensures FieldShape(f, s) ==> MessageShape([f], [s]) && EncodeMessage([f], [s]) == EncodeField(f, s)
  {
    hide FieldShape, DescribesField, EncodeField, G.FieldSize, WellFormedField;
    assert [G.Single(d)][1..] == [] && [f][0] == f && [s][0] == s;
    assert DescribesEntry(G.Single(d), [f], 0);
    if FieldShape(f, s) {
      assert MessageShape([f], [s]);
      EncodeStep([f], [s], 0);
      if EncodeField(f, s).Some? {
        assert EncodeField(f, s).value + [] == EncodeField(f, s).value;
      }
    }
  }

  /** The size of a message of one field that is not a submessage bounds whatever the message can hold exactly when
      the type fits, or when the field is an array whose announced room is enough for its widest values. */
  lemma {:induction false} OneFieldExactly(d: G.Decl, f: Field)
    requires WellFormed([f]) && Describes([G.Single(d)], [f], 0) && !d.pbtype.MESSAGE? && G.MessageSize([G.Single(d)]).Some?
    ensures G.MessageSize([G.Single(d)]) == G.FieldSize(d)
    ensures Bounded([G.Single(d)], [f]) <==> TypeFits(d) || (f.htype.REPEATED? && FullArray(d, f) <= G.FieldSize(d).value)
  {
    hide *;
    OneField(d, f, Fullest(d, f));
    if TypeFits(d) {
      FittingField(d);
      FittingBounded([G.Single(d)], [f]);
    } else if f.htype.REPEATED? && FullArray(d, f) <= G.FieldSize(d).value {
      RoomyBounded(d, f);
    } else {
      Exceeds(d, f);
      NotBounded([G.Single(d)], [f], [Fullest(d, f)]);
    }
  }

  lemma {:induction false} NotBounded(entries: seq<G.Entry>, fields: seq<Field>, m: seq<Slot>)
    requires G.MessageSize(entries).Some? && MessageShape(fields, m) && EncodeMessage(fields, m).Some?
    requires |EncodeMessage(fields, m).value| > G.MessageSize(entries).value
    ensures !Bounded(entries, fields)
  {}

  /** The message that goes over the announced size. */
  lemma {:induction false} Exceeds(d: G.Decl, f: Field)
    requires WellFormed([f]) && Describes([G.Single(d)], [f], 0) && !d.pbtype.MESSAGE? && G.MessageSize([G.Single(d)]).Some?
    requires !TypeFits(d) && (f.htype.REPEATED? ==> G.FieldSize(d).Some? && FullArray(d, f) > G.FieldSize(d).value)
    ensures var m := [Fullest(d, f)];
      MessageShape([f], m) && EncodeMessage([f], m).Some? && |EncodeMessage([f], m).value| > G.MessageSize([G.Single(d)]).value
  {
    hide *;
    OneField(d, f, Fullest(d, f));
    SizeParts(d);
    FullestShape(d, f);
    FullestLength(d, f);
  }

  lemma {:induction false} FittingField(d: G.Decl)
    requires TypeFits(d) && !d.pbtype.MESSAGE?
    ensures AllFit([G.Single(d)])
  {
    assert Fits(d) && EntryFits(G.Single(d));
  }

  lemma {:induction false} RoomyBounded(d: G.Decl, f: Field)
    requires WellFormed([f]) && Describes([G.Single(d)], [f], 0) && !d.pbtype.MESSAGE? && G.MessageSize([G.Single(d)]).Some?
    requires !TypeFits(d) && f.htype.REPEATED? && G.FieldSize(d).Some? && FullArray(d, f) <= G.FieldSize(d).value
    ensures Bounded([G.Single(d)], [f])
  {
    hide EncodeMessage, MessageShape, WellFormed, Describes, G.MessageSize, TypeFits, FullArray;
    forall m | MessageShape([f], m) && EncodeMessage([f], m).Some?
      ensures |EncodeMessage([f], m).value| <= G.MessageSize([G.Single(d)]).value
    {
      OnlySlot(f, m);
      OneField(d, f, m[0]);
      ArrayNoLonger(d, f, m[0]);
    }
  }

  lemma {:induction false} OnlySlot(f: Field, m: seq<Slot>)
    requires MessageShape([f], m)
    ensures m == [m[0]] && FieldShape(f, m[0])
  {
    assert [f][0] == f;
  }

  lemma {:induction false} ArrayNoLonger(d: G.Decl, f: Field, s: Slot)
    requires DescribesField(d, f) && WellFormedField(f) && !TypeFits(d) && !d.pbtype.MESSAGE? && G.FieldSize(d).Some?
    requires f.htype.REPEATED? && FieldShape(f, s) && EncodeField(f, s).Some?
    ensures |EncodeField(f, s).value| <= FullArray(d, f)
  {
    hide FieldShape, WellFormedField, DescribesField, TypeFits, EncodeField, EncodeItems, EncodeTagged, Varint, Key, G.FieldSize, G.TypeSize, G.Times,
         WidestLength, ItemShape;
    FieldFacts(d, f);
    SizeParts(d);
    EncodedArray(f, s, EncodeField(f, s).value);
    if s.size > 0 {
      var items := s.items[..s.size];
      ItemsNoLonger(d, f, items);
      MoreEntries(WidestLength(d), s.size, f.arraySize);
      VarintMonotone(|EncodeItems(f, items).value|, G.Times(WidestLength(d), f.arraySize));
    }
  }

  // ---- the decoder stores such values ----

  /** The bytes of the longest value are accepted, so what pb_decode has stored may be longer than announced. */
  lemma {:induction false} StoredTooLong(d: G.Decl, f: Field, dest: seq<Slot>)
    requires WellFormed([f]) && Describes([G.Single(d)], [f], 0) && !d.pbtype.MESSAGE? && G.MessageSize([G.Single(d)]).Some?
    requires !TypeFits(d) && !f.htype.REPEATED? && MessageShape([f], dest)
    ensures var m := [Fullest(d, f)];
      && MessageShape([f], m) && EncodeMessage([f], m).Some? && |EncodeMessage([f], m).value| > G.MessageSize([G.Single(d)]).value
      && var r := P.Decode([f], dest, EncodeMessage([f], m).value);
         r.Some? && r.value.1 == [] && SameMessage([f], m, r.value.0)
  {
    hide *;
    Exceeds(d, f);
    var m := [Fullest(d, f)];
    NumbersTerminated(d, f, m);
    T.RoundTrip([f], m, dest);
  }

  lemma {:induction false} NumbersTerminated(d: G.Decl, f: Field, m: seq<Slot>)
    requires WellFormed([f]) && Describes([G.Single(d)], [f], 0) && !d.pbtype.MESSAGE? && G.MessageSize([G.Single(d)]).Some?
    requires !TypeFits(d) && !f.htype.REPEATED? && m == [Fullest(d, f)] && MessageShape([f], m) && EncodeMessage([f], m).Some?
    ensures Terminated([f], m) && |EncodeMessage([f], m).value| < TWO32
  {
    hide *;
    OneField(d, f, m[0]);
    FieldFacts(d, f);
    OnlySlot(f, m);
    SizeParts(d);
    ShortNumber(d, f, m[0]);
    OneTerminated(f, m);
  }

  lemma {:induction false} ShortNumber(d: G.Decl, f: Field, s: Slot)
    requires DescribesType(d, f) && WellFormedField(f) && !TypeFits(d) && G.TypeSize(d.pbtype).Some?
    requires Packable(f.ltype) && !f.htype.REPEATED? && FieldShape(f, s) && EncodeField(f, s).Some? && f.tag <= PB_SIZE_MAX
    ensures |EncodeField(f, s).value| < TWO32
  {
    hide DescribesType, WellFormedField, TypeFits, G.TypeSize, ItemShape, EncodeItem, Present, Key;
    if EncodeField(f, s).value != [] {
      NoLonger(d, f, s.items[0]);
      KeyShort(f.tag, WireType(f.ltype));
    }
  }

  lemma {:induction false} KeyShort(tag: nat, wireType: nat)
    requires tag <= PB_SIZE_MAX && wireType < 8
    ensures |Key(tag, wireType)| <= 5
  {
    Lengths(tag * 8 + wireType);
    hide Varint;
  }

  lemma {:induction false} OneTerminated(f: Field, m: seq<Slot>)
    requires Packable(f.ltype) && !f.htype.REPEATED? && MessageShape([f], m)
    ensures Terminated([f], m)
  {
    hide ItemShape, Present;
    assert [f][0] == f;
    assert TerminatedFrom([f], m, 1);
    assert TerminatedField(f, m[0]);
  }

  // ---- examples: a required field with tag 1 ----

  function Required(t: G.PbType, intSize: Option<nat>): G.Decl {
    G.Decl(1, t, intSize, G.REQUIRED)
  }

  lemma {:induction false} RequiredSize(d: G.Decl, size: nat)
    requires d == Required(d.pbtype, d.intSize) && G.TypeSize(d.pbtype) == Some(size)
    ensures G.MessageSize([G.Single(d)]) == Some(size + 1)
  {
    hide G.TypeSize, G.VarintMaxSize, Key;
    KeyExactly(1, WT_VARINT);
    OneKey();
    SingleSize(d, size);
    hide G.FieldSize;
    assert [G.Single(d)][1..] == [] && G.EntrySize(G.Single(d)) == Some(size + 1);
  }

  lemma {:induction false} SingleSize(d: G.Decl, size: nat)
    requires !d.rules.REPEATED? && G.TypeSize(d.pbtype) == Some(size) && G.VarintMaxSize(d.tag * 8) == Some(1)
    ensures G.FieldSize(d) == Some(size + 1)
  {
    hide G.TypeSize, G.VarintMaxSize;
  }

  lemma {:induction false} OneKey()
    ensures Key(1, WT_VARINT) == [8]
  {}

  lemma {:induction false} RequiredShape(d: G.Decl, f: Field)
    requires DescribesField(d, f) && WellFormedField(f)
    ensures WellFormed([f]) && Describes([G.Single(d)], [f], 0)
  {
    hide DescribesField, WellFormedField;
    assert [G.Single(d)][1..] == [] && [f][0] == f && Describes([], [f], 1);
    assert DescribesEntry(G.Single(d), [f], 0);
  }

  lemma {:induction false} RequiredBytes(f: Field, s: Slot, e: seq<byte>)
    requires f.htype.REQUIRED? && f.tag == 1 && WireType(f.ltype) == WT_VARINT && FieldShape(f, s) && EncodeItem(f, s.items[0]) == Some(e)
    ensures EncodeField(f, s) == Some([8] + e)
  {
    hide EncodeItem, ItemShape;
    OneKey();
  }

  /** A required uint32 of int_size 64: six bytes announced, eleven written. */
  lemma {:induction false} WidenedExample()
    ensures var d, f := Required(G.UINT32, Some(8)), Field(1, UVARINT, REQUIRED, 0, 0, 8, 0, None);
      var m := [Slot(1, [Num(TWO64 - 1)])];
      && WellFormed([f]) && Describes([G.Single(d)], [f], 0) && G.MessageSize([G.Single(d)]) == Some(6)
      && MessageShape([f], m) && EncodeMessage([f], m).Some? && |EncodeMessage([f], m).value| == 11
  {
    hide WellFormed, Describes, MessageShape, EncodeMessage, G.MessageSize, G.EnumSize;
    var d, f := Required(G.UINT32, Some(8)), Field(1, UVARINT, REQUIRED, 0, 0, 8, 0, None);
    RequiredSize(d, 5);
    ElevenBytes(d, f);
  }

  /** A required bool that holds -1, which pb_decode stores there: two bytes announced, eleven written. */
  lemma {:induction false} NegativeBool(dest: seq<Slot>)
    requires MessageShape([Field(1, VARINT, REQUIRED, 0, 0, 1, 0, None)], dest)
    ensures var d, f := Required(G.BOOL, None), Field(1, VARINT, REQUIRED, 0, 0, 1, 0, None);
      var m := [Slot(1, [Num(-1)])];
      && WellFormed([f]) && Describes([G.Single(d)], [f], 0) && G.MessageSize([G.Single(d)]) == Some(2)
      && MessageShape([f], m) && EncodeMessage([f], m).Some? && |EncodeMessage([f], m).value| == 11
      && var r := P.Decode([f], dest, EncodeMessage([f], m).value);
         r.Some? && r.value.1 == [] && SameMessage([f], m, r.value.0)
  {
    hide EncodeMessage, P.Decode, SameMessage, MessageShape, WellFormed, Describes, G.MessageSize, G.EnumSize;
    var d, f := Required(G.BOOL, None), Field(1, VARINT, REQUIRED, 0, 0, 1, 0, None);
    RequiredSize(d, 1);
    ElevenBytes(d, f);
    StoredTooLong(d, f, dest);
  }

  lemma {:induction false} ElevenBytes(d: G.Decl, f: Field)
    requires DescribesField(d, f) && WellFormedField(f) && f.htype.REQUIRED? && f.tag == 1 && WireType(f.ltype) == WT_VARINT
    requires !TypeFits(d) && !d.pbtype.MESSAGE? && !d.pbtype.ENUM? && G.TypeSize(d.pbtype).Some?
    ensures WellFormed([f]) && Describes([G.Single(d)], [f], 0)
    ensures var m := [Slot(1, [Widest(d)])];
      MessageShape([f], m) && EncodeMessage([f], m).Some? && |EncodeMessage([f], m).value| == 11
  {
    RequiredShape(d, f);
    WidestItem(d, f);
    hide WellFormed, Describes, DescribesField, WellFormedField, TypeFits, Widest, G.TypeSize, EncodeItem, ItemShape, EncodeMessage, MessageShape, EncodeField;
    var s := Slot(1, [Widest(d)]);
    assert FieldShape(f, s);
    OneField(d, f, s);
    RequiredBytes(f, s, EncodeItem(f, Widest(d)).value);
  }

  /** An enum of 0 and 1 that holds 300, which pb_decode has stored there: two bytes announced, three written. */
  lemma {:induction false} UndeclaredEnum(dest: seq<Slot>)
    requires MessageShape([Field(1, UVARINT, REQUIRED, 0, 0, 4, 0, None)], dest)
    ensures var d, f := Required(G.ENUM([0, 1], 4), None), Field(1, UVARINT, REQUIRED, 0, 0, 4, 0, None);
      && WellFormed([f]) && Describes([G.Single(d)], [f], 0) && G.MessageSize([G.Single(d)]) == Some(2)
      && var r := P.Decode([f], dest, [8, 0xAC, 2]);
         && r.Some? && r.value.1 == [] && r.value.0[0].items == [Num(300)]
         && EncodeMessage([f], r.value.0) == Some([8, 0xAC, 2])
  {
    var d, f := Required(G.ENUM([0, 1], 4), None), Field(1, UVARINT, REQUIRED, 0, 0, 4, 0, None);
    hide *;
    var s := Slot(1, [Num(300)]);
    SmallEnumField(d, f);
    ThreeBytes(f);
    OneField(d, f, s);
    OneTerminated(f, [s]);
    T.RoundTrip([f], [s], dest);
    SameNumber(f, s, P.Decode([f], dest, [8, 0xAC, 2]).value.0);
    var r := P.Decode([f], dest, [8, 0xAC, 2]).value.0;
    ThreeBytesAgain(f, s, r);
    OneField(d, f, r[0]);
  }

  lemma {:induction false} SmallEnumField(d: G.Decl, f: Field)
    requires d == Required(G.ENUM([0, 1], 4), None) && f == Field(1, UVARINT, REQUIRED, 0, 0, 4, 0, None)
    ensures WellFormed([f]) && Describes([G.Single(d)], [f], 0) && G.MessageSize([G.Single(d)]) == Some(2)
  {
    hide G.EnumSize, G.MessageSize, Describes, WellFormed;
    SmallEnum();
    RequiredSize(d, 1);
    RequiredShape(d, f);
  }

  lemma {:induction false} SmallEnum()
    ensures G.TypeSize(G.ENUM([0, 1], 4)) == Some(1) && !HasNegative([0, 1])
  {
    assert [0, 1][1..] == [1] && Pow2(7) == 0x80;
    hide Pow2;
    assert G.VarintMaxSize(0) == Some(1) && G.VarintMaxSize(1) == Some(1);
    assert G.EnumSize([1]) == Some(1);
  }

  lemma {:induction false} ThreeBytes(f: Field)
    requires f == Field(1, UVARINT, REQUIRED, 0, 0, 4, 0, None)
    ensures FieldShape(f, Slot(1, [Num(300)])) && EncodeField(f, Slot(1, [Num(300)])) == Some([8, 0xAC, 2])
    ensures Packable(f.ltype) && !f.htype.REPEATED? && TWO32 > 3
  {
    Pow2Literals();
    hide Pow2;
    assert Varint(300) == [0xAC, 2];
    hide Varint;
    RequiredBytes(f, Slot(1, [Num(300)]), [0xAC, 2]);
    assert [8] + [0xAC, 2] == [8, 0xAC, 2];
  }

  lemma {:induction false} SameNumber(f: Field, s: Slot, r: seq<Slot>)
    requires f.ltype.UVARINT? && f.htype.REQUIRED? && MessageShape([f], [s]) && MessageShape([f], r) && SameMessage([f], [s], r)
    ensures r == [r[0]] && FieldShape(f, r[0]) && r[0].items == s.items
  {
    assert [f][0] == f;
    OnlySlot(f, r);
    OnlySlot(f, [s]);
    assert SameField(f, s, r[0]);
  }

  lemma {:induction false} ThreeBytesAgain(f: Field, s: Slot, r: seq<Slot>)
    requires f.htype.REQUIRED? && FieldShape(f, s) && r != [] && FieldShape(f, r[0]) && r[0].items == s.items
    ensures EncodeField(f, r[0]) == EncodeField(f, s)
  {}
}
