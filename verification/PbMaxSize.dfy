/** The generator's message declarations and the maximum encoded sizes it computes for them. */
module PbMaxSize {
  import opened Bits
  import opened Wire

  /** Field types, with the values of an enum and the `max_size` of a string or bytes field. */
  datatype PbType =
    | BOOL | DOUBLE | FLOAT | FIXED32 | FIXED64 | SFIXED32 | SFIXED64
    | INT32 | INT64 | SINT32 | SINT64 | UINT32 | UINT64
    | ENUM(values: seq<int>, width: nat)
    | STRING(maxSize: nat) | BYTES(maxSize: nat) | FIXED_LENGTH_BYTES(maxSize: nat)
    | MESSAGE(entries: seq<Entry>)

  datatype Rules = REQUIRED | OPTIONAL | SINGULAR | REPEATED(maxCount: nat)

  /** A statically allocated field; `intSize` is the width in bytes that an int_size option asks for. */
  datatype Decl = Decl(tag: nat, pbtype: PbType, intSize: Option<nat>, rules: Rules)

  /** A field of a message, or a oneof with its members by rising tag. */
  datatype Entry = Single(d: Decl) | OneOf(members: seq<Decl>)

  // ---- varint_max_size ----

  /** The first of the lengths i, ..., 10 whose bits are enough for `m`. */
  function LengthFrom(m: nat, i: nat): (r: Option<nat>)
    decreases 11 - i
  {
    if i > 10 then None else if m / Pow2(7 * i) == 0 then Some(i) else LengthFrom(m, i + 1)
  }

  /** varint_max_size; None where it raises ValueError. */
  function VarintMaxSize(maxValue: int): Option<nat> {
    LengthFrom(if maxValue < 0 then TWO64 - maxValue else maxValue, 1)
  }

  method VarintMaxSizeLoop(maxValue: int) returns (r: Option<nat>)
    ensures r == VarintMaxSize(maxValue)
  {
    hide Pow2;
    var m: int := maxValue;
    if maxValue < 0 {
      m := TWO64 - maxValue;
    }
    for i := 1 to 11
      invariant LengthFrom(m, 1) == LengthFrom(m, i)
    {
      if m / Pow2(i * 7) == 0 {
        return Some(i);
      }
    }
    return None;
  }

  lemma {:induction false} LengthFromSufficient(m: nat, i: nat)
    requires LengthFrom(m, i).Some? && 1 <= i
    ensures m < Pow2(7 * LengthFrom(m, i).value) && 1 <= LengthFrom(m, i).value <= 10
    decreases 11 - i
  {
    hide Pow2;
    if m / Pow2(7 * i) == 0 {
      SmallQuotient(m, Pow2(7 * i));
    } else {
      LengthFromSufficient(m, i + 1);
    }
  }

  lemma {:induction false} SmallQuotient(m: nat, p: nat)
    requires p > 0 && m / p == 0
    ensures m < p
  {}

  /** No value up to the maximum takes more bytes than varint_max_size says. */
  lemma {:induction false} VarintMaxSizeBounds(maxValue: nat, v: nat)
    requires VarintMaxSize(maxValue).Some? && v <= maxValue
    ensures 1 <= VarintMaxSize(maxValue).value <= 10
    ensures |Varint(v)| <= VarintMaxSize(maxValue).value
  {
    LengthFromSufficient(maxValue, 1);
    VarintLength(v, VarintMaxSize(maxValue).value);
  }

  /** A negative number is encoded as a 64-bit word, in ten bytes. */
  lemma {:induction false} NegativeMaxSize(maxValue: int)
    requires -TWO63 <= maxValue < 0
    ensures VarintMaxSize(maxValue) == Some(10) && |Varint(ToWord(maxValue))| == 10
  {
    TopPowers();
    hide Pow2, Varint, LengthFrom;
    VarintLength(ToWord(maxValue), 9);
    VarintLength(ToWord(maxValue), 10);
    LongOnly(TWO64 - maxValue, 1);
  }

  lemma {:induction false} TopPowers()
    ensures Pow2(63) == TWO63 && Pow2(70) == TWO63 * 128
  {
    Pow2Literals();
    Pow2Bytes();
    assert Pow2(64) == 2 * Pow2(63);
    hide Pow2;
    Pow2Add(63, 7);
  }

  lemma {:induction false} LongOnly(m: nat, i: nat)
    requires Pow2(63) <= m < Pow2(70) && 1 <= i <= 10
    ensures LengthFrom(m, i) == Some(10)
    decreases 10 - i
  {
    hide Pow2;
    if i < 10 {
      Pow2Monotone(7 * i, 63);
      DivAtLeast(m, Pow2(7 * i));
      LongOnly(m, i + 1);
    } else {
      DivBelow(m, Pow2(70));
    }
  }

  lemma {:induction false} DivAtLeast(m: nat, p: nat)
    requires 0 < p <= m
    ensures m / p != 0
  {}

  lemma {:induction false} DivBelow(m: nat, p: nat)
    requires m < p
    ensures m / p == 0
  {}

  // ---- encoded_size ----

  function Plus(a: Option<nat>, b: Option<nat>): Option<nat> {
    if a.Some? && b.Some? then Some(a.value + b.value) else None
  }

  function Larger(a: nat, b: nat): nat {
    if b > a then b else a
  }

  /** Enum.encoded_size: the maximum over the declared values. */
  function EnumSize(values: seq<int>): Option<nat> {
    if values == [] then None
    else if |values| == 1 then VarintMaxSize(values[0])
    else
      var rest, first := EnumSize(values[1..]), VarintMaxSize(values[0]);
      if rest.None? || first.None? then None else Some(Larger(first.value, rest.value))
  }

  /** The size of one value without its key. */
  function TypeSize(t: PbType): Option<nat>
    decreases t, 0
  {
    match t
    case BOOL => Some(1)
    case DOUBLE => Some(8)
    case FLOAT => Some(4)
    case FIXED32 => Some(4)
    case FIXED64 => Some(8)
    case SFIXED32 => Some(4)
    case SFIXED64 => Some(8)
    case INT32 => Some(10)
    case INT64 => Some(10)
    case SINT32 => Some(5)
    case SINT64 => Some(10)
    case UINT32 => Some(5)
    case UINT64 => Some(10)
    case ENUM(values, _) => EnumSize(values)
    case STRING(maxSize) => Plus(VarintMaxSize(maxSize), Some(maxSize))
    case BYTES(maxSize) => Plus(VarintMaxSize(maxSize), Some(maxSize))
    case FIXED_LENGTH_BYTES(maxSize) => Plus(VarintMaxSize(maxSize), Some(maxSize))
    case MESSAGE(entries) =>
      var size := MessageSize(entries);
      if size.None? then None else Plus(size, VarintMaxSize(size.value))
  }

  /** Field.encoded_size. */
  function FieldSize(d: Decl): Option<nat>
    decreases d, 1
  {
    var one := Plus(TypeSize(d.pbtype), VarintMaxSize(d.tag * 8));
    if d.rules.REPEATED? && one.Some? then
      Some(Times(one.value, d.rules.maxCount) + if d.rules.maxCount == 1 then 1 else 0)
    else one
  }

  function Times(a: nat, b: nat): nat {
    a * b
  }

  /** The largest of the sizes of the members. */
  function MembersSize(members: seq<Decl>): Option<nat>
    decreases members, 2
  {
    if members == [] then Some(0)
    else
      var first, rest := FieldSize(members[0]), MembersSize(members[1..]);
      if first.None? || rest.None? then None else Some(Larger(rest.value, first.value))
  }

  function EntrySize(e: Entry): Option<nat>
    decreases e, 3
  {
    match e
    case Single(d) => FieldSize(d)
    case OneOf(members) => MembersSize(members)
  }

  /** Message.encoded_size: the sum over the fields. */
  function MessageSize(entries: seq<Entry>): Option<nat>
    decreases entries, 4
  {
    if entries == [] then Some(0) else Plus(EntrySize(entries[0]), MessageSize(entries[1..]))
  }

  method MembersSizeLoop(members: seq<Decl>) returns (r: Option<nat>)
    ensures r == MembersSize(members)
  {
    var largest := 0;
    for i := 0 to |members|
      invariant MembersSize(members).Some? <==> MembersSize(members[i..]).Some?
      invariant MembersSize(members).Some? ==>
          MembersSize(members).value == Larger(largest, MembersSize(members[i..]).value)
    {
      assert members[i..][1..] == members[i + 1..];
      var size := FieldSize(members[i]);
      if size.None? {
        return None;
      }
      if size.value > largest {
        largest := size.value;
      }
    }
    return Some(largest);
  }

  method MessageSizeLoop(entries: seq<Entry>) returns (r: Option<nat>)
    ensures r == MessageSize(entries)
  {
    var size := 0;
    for i := 0 to |entries|
      invariant MessageSize(entries) == Plus(Some(size), MessageSize(entries[i..]))
    {
      assert entries[i..][1..] == entries[i + 1..];
      var fsize := EntrySize(entries[i]);
      if fsize.None? {
        return None;
      }
      size := size + fsize.value;
    }
    return Some(size);
  }
}
