/** The sizes the generator announces are not larger than they need be. */
module PbAttained {
  import opened Sequences
  import opened Bits
  import opened Wire
  import opened PbTypes
  import opened PbFormat
  import opened PbBound
  import opened PbBoundProof
  import opened PbBoundExact
  import G = PbMaxSize

  // ---- varints ----

  lemma {:induction false} LengthFromLeast(m: nat, i: nat)
    requires 1 <= i && G.LengthFrom(m, i).Some?
    ensures i <= G.LengthFrom(m, i).value
    ensures forall j :: i <= j < G.LengthFrom(m, i).value ==> m >= Pow2(7 * j)
    decreases 11 - i
  {
    hide Pow2;
    if m / Pow2(7 * i) != 0 {
      LengthFromLeast(m, i + 1);
      if m < Pow2(7 * i) {
        G.DivBelow(m, Pow2(7 * i));
      }
    }
  }

  /** varint_max_size of a number is the length of its varint. */
  lemma {:induction false} VarintMaxExactly(m: nat)
    requires G.VarintMaxSize(m).Some?
    ensures G.VarintMaxSize(m).value == |Varint(m)|
  {
    hide Pow2, G.LengthFrom, Varint;
    var k := G.VarintMaxSize(m).value;
    G.LengthFromSufficient(m, 1);
    LengthFromLeast(m, 1);
    VarintLength(m, k);
    if k > 1 {
      assert m >= Pow2(7 * (k - 1));
      VarintLength(m, k - 1);
    } else {
      NotEmpty(m);
    }
  }

  // ---- types ----

  /** The member can hold every value that the enum declares. */
  predicate Holdable(d: G.Decl) {
    d.pbtype.ENUM? && IntSize(d.pbtype.width) ==>
      forall v | v in d.pbtype.values ::
        if HasNegative(d.pbtype.values) then SignedFits(v, d.pbtype.width) else UnsignedFits(v, d.pbtype.width)
  }

  lemma {:induction false} Fives()
    ensures |Varint(TWO32 - 1)| == 5
    ensures UnsignedFits(TWO32 - 1, 4) && SignedFits(-TWO31, 4) && ZigZag(-TWO31) == TWO32 - 1 && SignedFits(-1, 4)
  {
    Pow2Literals();
    Pow2Monotone(28, 31);
    Pow2Monotone(32, 35);
    assert Pow2(32) == 2 * Pow2(31);
    Pow2Monotone(1, 31);
    SmallPowers();
    hide Pow2, Varint, ZigZag;
    VarintLength(TWO32 - 1, 4);
    VarintLength(TWO32 - 1, 5);
    ZigZagRoundTrip(-TWO31);
  }

  lemma {:induction false} Tens()
    ensures |Varint(TWO64 - 1)| == 10 && |Varint(ToWord(-1))| == 10
    ensures UnsignedFits(TWO64 - 1, 8) && SignedFits(-TWO63, 8) && ZigZag(-TWO63) == TWO64 - 1 && SignedFits(-1, 8)
  {
    LongWords();
    WidestSigned();
    Pow2Literals();
    assert Pow2(64) == 2 * Pow2(63);
    hide Pow2;
  }

  /** The value that takes most bytes of those that fit the announced size. */
  function Longest(t: G.PbType): Value {
    match t
    case UINT32 => Num(TWO32 - 1)
    case UINT64 => Num(TWO64 - 1)
    case SINT32 => Num(-TWO31)
    case SINT64 => Num(-TWO63)
    case INT32 => Num(-1)
    case INT64 => Num(-1)
    case STRING(max) => Blob(Repeat(1, max))
    case BYTES(max) => Blob(Repeat(1, max))
    case FIXED_LENGTH_BYTES(max) => Blob(Repeat(1, max))
    case _ => Num(0)
  }

  lemma {:induction false} NumberAttained(d: G.Decl, f: Field)
    requires DescribesType(d, f) && WellFormedField(f) && d.intSize.None?
    requires d.pbtype.BOOL? || SignedType(d.pbtype) || d.pbtype.UINT32? || d.pbtype.UINT64? || d.pbtype.SINT32? || d.pbtype.SINT64?
    ensures var v := Longest(d.pbtype);
      ItemShape(f, v) && EncodeItem(f, v).Some? && |EncodeItem(f, v).value| == G.TypeSize(d.pbtype).value
  {
    hide Varint, ToWord, ZigZag, Pow2, SignedFits, UnsignedFits;
    Fives();
    Tens();
    ZeroNumber();
  }

  lemma {:induction false} ZeroNumber()
    ensures |Varint(ToWord(0))| == 1 && SignedFits(0, 1)
  {}

  predicate SignedType(t: G.PbType) {
    t.INT32? || t.INT64?
  }

  lemma {:induction false} BlobAttained(d: G.Decl, f: Field, max: nat)
    requires DescribesType(d, f) && WellFormedField(f) && G.TypeSize(d.pbtype).Some?
    requires d.pbtype == G.STRING(max) || d.pbtype == G.BYTES(max) || d.pbtype == G.FIXED_LENGTH_BYTES(max)
    ensures var v := Blob(Repeat(1, max));
      ItemShape(f, v) && EncodeItem(f, v).Some? && |EncodeItem(f, v).value| == G.TypeSize(d.pbtype).value
  {
    hide Varint, G.VarintMaxSize;
    VarintMaxExactly(max);
  }

  lemma {:induction false} EnumAttained(values: seq<int>) returns (v: int)
    requires G.EnumSize(values).Some? && forall x | x in values :: -TWO63 <= x < TWO64
    ensures v in values
    ensures v >= 0 ==> |Varint(v)| == G.EnumSize(values).value
    ensures v < 0 ==> |Varint(ToWord(v))| == G.EnumSize(values).value == 10
    decreases |values|
  {
    hide Varint, ToWord, G.VarintMaxSize;
    v := values[0];
    assert v in values;
    forall x | x in values[1..] ensures -TWO63 <= x < TWO64 {
      assert x in values;
    }
    if v < 0 {
      G.NegativeMaxSize(v);
      NegativeDeclared(values, v);
      EnumSmall(values);
    } else {
      VarintMaxExactly(v);
      if |values| > 1 && G.EnumSize(values[1..]).value > G.VarintMaxSize(v).value {
        v := EnumAttained(values[1..]);
      }
    }
  }

  /** Some value of the type takes exactly the announced size, for every type but messages, without int_size. */
  lemma {:induction false} SizeAttained(d: G.Decl, f: Field) returns (v: Value)
    requires DescribesType(d, f) && WellFormedField(f) && !d.pbtype.MESSAGE? && d.intSize.None? && Holdable(d)
    requires G.TypeSize(d.pbtype).Some?
    ensures ItemShape(f, v) && EncodeItem(f, v).Some? && |EncodeItem(f, v).value| == G.TypeSize(d.pbtype).value
  {
    v := Longest(d.pbtype);
    match d.pbtype
    case STRING(max) => BlobAttained(d, f, max);
    case BYTES(max) => BlobAttained(d, f, max);
    case FIXED_LENGTH_BYTES(max) => BlobAttained(d, f, max);
    case ENUM(values, width) =>
      HoldableRange(d, values, width);
      var n := EnumAttained(values);
      v := Num(n);
      EnumItem(d, f, n);
    case DOUBLE =>
    case FLOAT =>
    case FIXED32 =>
    case FIXED64 =>
    case SFIXED32 =>
    case SFIXED64 =>
    case _ => NumberAttained(d, f);
  }

  lemma {:induction false} MemberRange(n: int, width: nat)
    requires IntSize(width)
    ensures SignedFits(n, width) ==> -TWO63 <= n < TWO63
    ensures UnsignedFits(n, width) ==> 0 <= n < TWO64
  {
    TopPower();
    Pow2Literals();
    Pow2Monotone(8 * width, 64);
    Pow2Monotone(8 * width - 1, 63);
    hide Pow2;
  }

  lemma {:induction false} HoldableRange(d: G.Decl, values: seq<int>, width: nat)
    requires d.pbtype == G.ENUM(values, width) && Holdable(d) && IntSize(width)
    ensures forall x | x in values :: -TWO63 <= x < TWO64
  {
    hide SignedFits, UnsignedFits, HasNegative;
    forall x | x in values ensures -TWO63 <= x < TWO64 {
      MemberRange(x, width);
    }
  }

  lemma {:induction false} EnumItem(d: G.Decl, f: Field, n: int)
    requires DescribesType(d, f) && WellFormedField(f) && d.pbtype.ENUM? && Holdable(d) && n in d.pbtype.values && -TWO63 <= n < TWO64
    ensures ItemShape(f, Num(n)) && EncodeItem(f, Num(n)).Some?
    ensures EncodeItem(f, Num(n)).value == if n < 0 then Varint(ToWord(n)) else Varint(n)
  {
    hide SignedFits, UnsignedFits, Varint;
    MemberRange(n, f.dataSize);
  }

  // ---- fields and messages ----

  /** The largest of the members of a oneof. */
  lemma {:induction false} MembersLargest(members: seq<G.Decl>)
    requires G.MembersSize(members).Some?
    ensures forall d | d in members :: G.FieldSize(d).Some? && G.FieldSize(d).value <= G.MembersSize(members).value
    ensures members != [] ==> exists d | d in members :: G.FieldSize(d) == G.MembersSize(members)
    ensures members == [] ==> G.MembersSize(members) == Some(0)
    decreases |members|
  {
    hide G.FieldSize;
    if members != [] {
      MembersLargest(members[1..]);
      assert members == [members[0]] + members[1..];
      assert members[0] in members;
      if members[1..] == [] {
        assert G.MembersSize([]) == Some(0);
      }
    }
  }

  /** A message of one field that is no array takes exactly the announced size with its longest value. */
  lemma {:induction false} OneFieldAttained(d: G.Decl, f: Field) returns (m: seq<Slot>)
    requires WellFormed([f]) && Describes([G.Single(d)], [f], 0) && !d.pbtype.MESSAGE? && d.intSize.None? && Holdable(d)
    requires !f.htype.REPEATED? && (f.htype.OPTIONAL? ==> HasFlag(f)) && G.MessageSize([G.Single(d)]).Some?
    ensures MessageShape([f], m) && EncodeMessage([f], m).Some?
    ensures |EncodeMessage([f], m).value| == G.MessageSize([G.Single(d)]).value
  {
    OneField(d, f, Slot(1, [Num(0)]));
    FieldFacts(d, f);
    SizeParts(d);
    var v := SizeAttained(d, f);
    var s := Slot(1, [v]);
    OneField(d, f, s);
    KeyExactly(f.tag, WireType(f.ltype));
    hide G.TypeSize, G.VarintMaxSize, G.FieldSize, G.MessageSize, EncodeMessage, EncodeItem, ItemShape, Key, MessageShape, Describes;
    assert FieldShape(f, s);
    m := [s];
  }

  /** An array of strings or bytes, filled with its longest values, takes exactly the announced size, but for the byte
      that is added where there is room for one entry only. */
  lemma {:induction false} ArrayAttained(d: G.Decl, f: Field) returns (s: Slot)
    requires DescribesField(d, f) && WellFormedField(f) && f.htype.REPEATED? && f.arraySize > 0 && G.FieldSize(d).Some?
    requires d.pbtype.STRING? || d.pbtype.BYTES? || d.pbtype.FIXED_LENGTH_BYTES?
    ensures FieldShape(f, s) && EncodeField(f, s).Some?
    ensures |EncodeField(f, s).value| + (if f.arraySize == 1 then 1 else 0) == G.FieldSize(d).value
  {
    hide *;
    FieldFacts(d, f);
    SizeParts(d);
    var v := Longest(d.pbtype);
    LongestBlob(d, f);
    KeyExactly(f.tag, WireType(f.ltype));
    s := Slot(f.arraySize, Copies(v, f.arraySize));
    CopiesTagged(f, v, f.arraySize);
    FullTagged(f, v, s);
    SameSum(|EncodeItem(f, v).value|, |Tag(f)|);
  }

  lemma {:induction false} SameSum(a: nat, b: nat)
    ensures a + b == b + a
  {}

  lemma {:induction false} LongestBlob(d: G.Decl, f: Field)
    requires DescribesType(d, f) && WellFormedField(f) && G.TypeSize(d.pbtype).Some?
    requires d.pbtype.STRING? || d.pbtype.BYTES? || d.pbtype.FIXED_LENGTH_BYTES?
    ensures !Packable(f.ltype) && Tag(f) == Key(f.tag, WireType(f.ltype)) && WireType(f.ltype) < 8
    ensures var v := Longest(d.pbtype);
      ItemShape(f, v) && EncodeItem(f, v).Some? && |EncodeItem(f, v).value| == G.TypeSize(d.pbtype).value
  {
    BlobAttained(d, f, d.pbtype.maxSize);
    hide EncodeItem, ItemShape, G.TypeSize, Key;
  }

  lemma {:induction false} FullTagged(f: Field, v: Value, s: Slot)
    requires f.htype.REPEATED? && f.arraySize > 0 && !Packable(f.ltype) && s == Slot(f.arraySize, Copies(v, f.arraySize))
    requires ItemShape(f, v)
    ensures FieldShape(f, s) && (forall x | x in Copies(v, f.arraySize) :: ItemShape(f, x))
    ensures EncodeField(f, s) == EncodeTagged(f, Copies(v, f.arraySize))
  {
    hide EncodeTagged, ItemShape;
    assert s.items[..s.size] == s.items;
  }

  lemma {:induction false} CopiesTagged(f: Field, v: Value, n: nat)
    requires ItemShape(f, v) && EncodeItem(f, v).Some?
    ensures forall x | x in Copies(v, n) :: ItemShape(f, x)
    ensures EncodeTagged(f, Copies(v, n)).Some?
    ensures |EncodeTagged(f, Copies(v, n)).value| == G.Times(|EncodeItem(f, v).value| + |Tag(f)|, n)
  {
    hide ItemShape, EncodeItem, Key, G.Times;
    NoTimes(|EncodeItem(f, v).value| + |Tag(f)|);
    if n > 0 {
      CopiesTagged(f, v, n - 1);
      assert Copies(v, n)[1..] == Copies(v, n - 1);
      OneMore(|EncodeItem(f, v).value| + |Tag(f)|, n);
    }
  }

  // ---- when a size is known ----

  /** varint_max_size has an answer for numbers of at most ten groups of seven bits. */
  predicate InTen(maxValue: int) {
    (if maxValue < 0 then TWO64 - maxValue else maxValue) < Pow2(70)
  }

  lemma {:induction false} LengthKnown(m: nat, i: nat)
    requires 1 <= i <= 10
    ensures G.LengthFrom(m, i).Some? <==> m < Pow2(70)
    decreases 10 - i
  {
    hide Pow2;
    Pow2Monotone(7 * i, 70);
    if m / Pow2(7 * i) == 0 {
      G.SmallQuotient(m, Pow2(7 * i));
    } else if i < 10 {
      LengthKnown(m, i + 1);
      NotBelow(m, Pow2(7 * i));
    } else {
      NotBelow(m, Pow2(70));
      NoLength(m);
    }
  }

  lemma {:induction false} NoLength(m: nat)
    ensures G.LengthFrom(m, 11) == None
  {}

  lemma {:induction false} NotBelow(m: nat, p: nat)
    requires p > 0 && m / p != 0
    ensures m >= p
  {}

  lemma {:induction false} VarintMaxKnown(maxValue: int)
    ensures G.VarintMaxSize(maxValue).Some? <==> InTen(maxValue)
  {
    LengthKnown(if maxValue < 0 then TWO64 - maxValue else maxValue, 1);
    hide Pow2;
  }

  predicate AllInTen(values: seq<int>) {
    forall v | v in values :: InTen(v)
  }

  lemma {:induction false} FirstInTen(values: seq<int>)
    requires values != []
    ensures AllInTen(values) <==> InTen(values[0]) && AllInTen(values[1..])
  {
    hide InTen;
    assert values == [values[0]] + values[1..];
  }

  lemma {:induction false} EnumKnown(values: seq<int>)
    ensures G.EnumSize(values).Some? <==> values != [] && AllInTen(values)
  {
    hide InTen, AllInTen, G.VarintMaxSize;
    if values != [] {
      VarintMaxKnown(values[0]);
      FirstInTen(values);
      if |values| == 1 {
        NoneInTen(values[1..]);
      } else {
        EnumKnown(values[1..]);
      }
    }
  }

  lemma {:induction false} NoneInTen(values: seq<int>)
    requires values == []
    ensures AllInTen(values)
  {}

  /** The size of a type is known exactly when its enum has values and its lengths are in the range of varints. */
  lemma {:induction false} KnownExactly(t: G.PbType)
    ensures G.TypeSize(t).Some? <==>
      match t
      case ENUM(values, _) => values != [] && AllInTen(values)
      case STRING(max) => InTen(max)
      case BYTES(max) => InTen(max)
      case FIXED_LENGTH_BYTES(max) => InTen(max)
      case MESSAGE(entries) => G.MessageSize(entries).Some? && InTen(G.MessageSize(entries).value)
      case _ => true
  {
    hide InTen, AllInTen, G.VarintMaxSize, G.EnumSize;
    match t
    case ENUM(values, _) => EnumKnown(values);
    case STRING(max) => VarintMaxKnown(max);
    case BYTES(max) => VarintMaxKnown(max);
    case FIXED_LENGTH_BYTES(max) => VarintMaxKnown(max);
    case MESSAGE(entries) =>
      if G.MessageSize(entries).Some? {
        VarintMaxKnown(G.MessageSize(entries).value);
      }
    case _ =>
  }

  /** A field's size is known exactly when its type's is and its key is in range. */
  lemma {:induction false} FieldKnownExactly(d: G.Decl)
    ensures G.FieldSize(d).Some? <==> G.TypeSize(d.pbtype).Some? && InTen(d.tag * 8)
  {
    VarintMaxKnown(d.tag * 8);
    hide InTen, G.TypeSize, G.VarintMaxSize;
  }

  /** A oneof's size is known exactly when those of all its members are. */
  lemma {:induction false} MembersKnownExactly(members: seq<G.Decl>)
    ensures G.MembersSize(members).Some? <==> forall d | d in members :: G.FieldSize(d).Some?
  {
    hide G.FieldSize;
    if members != [] {
      MembersKnownExactly(members[1..]);
      assert members == [members[0]] + members[1..];
      FirstKnown(members);
    } else {
      assert G.MembersSize([]) == Some(0);
    }
  }

  lemma {:induction false} FirstKnown(members: seq<G.Decl>)
    requires members != []
    ensures G.MembersSize(members).Some? <==> G.FieldSize(members[0]).Some? && G.MembersSize(members[1..]).Some?
  {
    hide G.FieldSize;
  }

  lemma {:induction false} PlusGroups(a: Option<nat>, b: Option<nat>, c: Option<nat>)
    ensures G.Plus(a, G.Plus(b, c)) == G.Plus(G.Plus(a, b), c) && G.Plus(Some(0), c) == c && G.Plus(c, Some(0)) == c
  {}

  /** The sizes of the fields of a message add up, nothing else is counted. */
  lemma {:induction false} SizesAdd(a: seq<G.Entry>, b: seq<G.Entry>)
    ensures G.MessageSize(a + b) == G.Plus(G.MessageSize(a), G.MessageSize(b))
    decreases |a|
  {
    if a == [] {
      assert a + b == b;
    } else {
      assert (a + b)[1..] == a[1..] + b && (a + b)[0] == a[0];
      SizesAdd(a[1..], b);
      PlusGroups(G.EntrySize(a[0]), G.MessageSize(a[1..]), G.MessageSize(b));
    }
  }
}
