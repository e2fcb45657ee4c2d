/** pb_decode.c over streams: field decoders, defaults and the decoding loop with its bitmap of required fields. */
module PbDecode {
  import opened Sequences
  import opened Bits
  import opened Wire
  import opened PbTypes
  import opened PbDefaults
  import opened PbIterator
  import opened PbIn
  import P = PbParse

  // ---- default values ----

  /** pb_field_set_to_default. */
  method FieldSetToDefault(f: Field, s: Slot) returns (r: Slot)
    requires WellFormedField(f) && (FieldShape(f, s) || f.htype.ONEOF?)
    ensures r == DefaultSlot(f, s)
    decreases f, 0
  {
    var size, items, initData := s.size, s.items, true;
    if f.htype.OPTIONAL? && f.sizeOffset != 0 {
      size := 0;
    } else if f.htype.REPEATED? || f.htype.ONEOF? {
      size := 0;
      initData := false;
    }
    if initData {
      if f.ltype.SUBMESSAGE? {
        var sub := f.ltype.fields;
        assert ItemShape(f, items[0]);
        OwnSlots(sub, items[0].slots);
        var slots := MessageSetToDefaults(sub, items[0].slots);
        items := [Struct(slots)];
      } else if f.ptr.Some? {
        items := [f.ptr.value];
      } else {
        items := [ZeroItem(f)];
      }
    }
    return Slot(size, items);
  }

  lemma {:induction false} ResetHere(fields: seq<Field>, slots: seq<Slot>, i: nat, r: seq<Slot>)
    requires WellFormed(fields) && SlotsShape(fields, slots) && i < |fields| && ResetUpto(fields, slots, r, i)
    ensures |r| == |fields| && r[i] == slots[i]
    ensures WellFormedField(fields[i]) && (FieldShape(fields[i], slots[i]) || fields[i].htype.ONEOF?)
    ensures SetDefaults(fields, slots)[i] == DefaultSlot(fields[i], slots[i])
  {}

  lemma {:induction false} ResetStart(fields: seq<Field>, slots: seq<Slot>)
    requires SlotsShape(fields, slots)
    ensures ResetUpto(fields, slots, slots, 0)
  {}

  /** pb_message_set_to_defaults. */
  method MessageSetToDefaults(fields: seq<Field>, slots: seq<Slot>) returns (r: seq<Slot>)
    requires WellFormed(fields) && SlotsShape(fields, slots)
    ensures r == SetDefaults(fields, slots)
    ensures Initial(fields, r)
    ensures forall i | 0 <= i < |fields| && (fields[i].htype.REPEATED? || fields[i].htype.ONEOF?) :: r[i].items == slots[i].items
    decreases fields, 1
  {
    hide *;
    var iter := new FieldIter(fields, 0);
    r := slots;
    ResetStart(fields, slots);
    var more := iter.Begin();
    ghost var i := 0;
    while more
      invariant iter.InStep() && i <= |fields|
      invariant if more then iter.pos == i < |fields| else i == |fields|
      invariant ResetUpto(fields, slots, r, i)
      decreases |fields| - i
    {
      ResetHere(fields, slots, i, r);
      var s := FieldSetToDefault(fields[iter.pos], r[iter.pos]);
      ResetStep(fields, slots, r, i, s);
      r := r[iter.pos := s];
      more := iter.Next();
      i := i + 1;
    }
    ResetDone(fields, slots, r);
    ResetIsInitial(fields, slots);
    SameLength(fields, slots);
  }

  lemma {:induction false} SameLength(fields: seq<Field>, slots: seq<Slot>)
    requires SlotsShape(fields, slots)
    ensures |slots| == |fields|
  {}

  /** The slots before `i` have their defaults, the others are as they were. */
  ghost predicate ResetUpto(fields: seq<Field>, slots: seq<Slot>, r: seq<Slot>, i: nat)
    requires SlotsShape(fields, slots)
  {
    && |r| == |slots|
    && (forall j | 0 <= j < i && j < |slots| :: r[j] == SetDefaults(fields, slots)[j])
    && (forall j | i <= j < |slots| :: r[j] == slots[j])
  }

  lemma {:induction false} ResetStep(fields: seq<Field>, slots: seq<Slot>, r: seq<Slot>, i: nat, s: Slot)
    requires SlotsShape(fields, slots) && i < |fields| == |r| && ResetUpto(fields, slots, r, i)
    requires s == SetDefaults(fields, slots)[i]
    ensures ResetUpto(fields, slots, r[i := s], i + 1)
  {
    hide SetDefaults, FieldShape;
  }

  lemma {:induction false} ResetDone(fields: seq<Field>, slots: seq<Slot>, r: seq<Slot>)
    requires SlotsShape(fields, slots) && ResetUpto(fields, slots, r, |fields|)
    ensures r == SetDefaults(fields, slots)
  {
    hide SetDefaults, FieldShape;
  }

  // ---- numbers in C types ----

  /** A cast to a signed type of `size` bytes. */
  function Clamp(n: int, size: nat): int
    requires size >= 1
  {
    Signed(n % Pow2(8 * size), 8 * size)
  }

  lemma {:induction false} Residue(n: int, p: int)
    requires p > 0 && -p <= n < p
    ensures n >= 0 ==> n % p == n
    ensures n < 0 ==> n % p == n + p
  {
    if n >= 0 {
      DivModUnique(0, n, p);
    } else {
      ModPlusMultiple(n, 1, p);
      DivModUnique(0, n + p, p);
    }
  }

  /** A cast keeps exactly the numbers of the type. */
  lemma {:induction false} ClampIff(n: int, size: nat)
    requires size >= 1
    ensures Clamp(n, size) == n <==> SignedFits(n, size)
  {
    var p, h := Pow2(8 * size), Pow2(8 * size - 1);
    assert p == 2 * h;
    hide Pow2;
    if -h <= n < h {
      Residue(n, p);
    }
  }

  lemma {:induction false} ClampUnsignedIff(n: nat, size: nat)
    ensures n % Pow2(8 * size) == n <==> UnsignedFits(n, size)
  {
    hide Pow2;
    if n < Pow2(8 * size) {
      Residue(n, Pow2(8 * size));
    }
  }

  /** pb_dec_varint. */
  method DecVarint(stream: IStream, f: Field, was: Value) returns (ok: bool, v: Value)
    requires stream.Valid() && WellFormedField(f) && f.ltype.VARINT?
    modifies stream
    ensures stream.End() == old(stream.End())
    ensures stream.Valid() && Gets(P.DecodeItem(f, was, old(stream.Rest())), ok, v, stream.Rest())
  {
    hide Wire.DecodeVarint, SignedFits, Pow2;
    var status, value := PbIn.DecodeVarint(stream);
    if !status {
      return false, was;
    }
    var svalue := P.VarintValue(value, f.dataSize);
    ClampIff(svalue, f.dataSize);
    if Clamp(svalue, f.dataSize) != svalue {
      return false, was;
    }
    return true, Num(svalue);
  }

  /** pb_dec_uvarint. */
  method DecUvarint(stream: IStream, f: Field, was: Value) returns (ok: bool, v: Value)
    requires stream.Valid() && WellFormedField(f) && f.ltype.UVARINT?
    modifies stream
    ensures stream.End() == old(stream.End())
    ensures stream.Valid() && Gets(P.DecodeItem(f, was, old(stream.Rest())), ok, v, stream.Rest())
  {
    hide Wire.DecodeVarint, UnsignedFits, Pow2;
    var status, value := PbIn.DecodeVarint(stream);
    if !status {
      return false, was;
    }
    ClampUnsignedIff(value, f.dataSize);
    if value % Pow2(8 * f.dataSize) != value {
      return false, was;
    }
    return true, Num(value);
  }

  /** pb_dec_svarint. */
  method DecSvarint(stream: IStream, f: Field, was: Value) returns (ok: bool, v: Value)
    requires stream.Valid() && WellFormedField(f) && f.ltype.SVARINT?
    modifies stream
    ensures stream.End() == old(stream.End())
    ensures stream.Valid() && Gets(P.DecodeItem(f, was, old(stream.Rest())), ok, v, stream.Rest())
  {
    hide Wire.DecodeVarint, SignedFits, Pow2;
    var status, value := PbIn.DecodeVarint(stream);
    if !status {
      return false, was;
    }
    ClampIff(UnZigZag(value), f.dataSize);
    if Clamp(UnZigZag(value), f.dataSize) != UnZigZag(value) {
      return false, was;
    }
    return true, Num(UnZigZag(value));
  }

  /** pb_dec_fixed32 and pb_dec_fixed64: the bytes are put together from the least significant one. */
  method DecFixed(stream: IStream, f: Field, was: Value) returns (ok: bool, v: Value)
    requires stream.Valid() && WellFormedField(f) && (f.ltype.FIXED32? || f.ltype.FIXED64?)
    modifies stream
    ensures stream.End() == old(stream.End())
    ensures stream.Valid() && Gets(P.DecodeItem(f, was, old(stream.Rest())), ok, v, stream.Rest())
  {
    hide FromLittleEndian, P.Take;
    var status, bytes := stream.Read(if f.ltype.FIXED32? then 4 else 8);
    if !status {
      return false, was;
    }
    return true, Num(FromLittleEndian(bytes));
  }

  /** pb_dec_bytes. */
  method DecBytes(stream: IStream, f: Field, was: Value) returns (ok: bool, v: Value)
    requires stream.Valid() && WellFormedField(f) && f.ltype.BYTES?
    modifies stream
    ensures stream.End() == old(stream.End())
    ensures stream.Valid() && Gets(P.DecodeItem(f, was, old(stream.Rest())), ok, v, stream.Rest())
  {
    hide Wire.DecodeVarint32, P.Take;
    var status, size, _ := PbIn.DecodeVarint32(stream);
    if !status {
      return false, was;
    }
    if size > PB_SIZE_MAX {
      return false, was;
    }
    var allocSize := size + 1;
    if allocSize > f.dataSize {
      return false, was;
    }
    var read, bytes := stream.Read(size);
    return read, Blob(bytes);
  }

  /** pb_dec_string. */
  method DecString(stream: IStream, f: Field, was: Value) returns (ok: bool, v: Value)
    requires stream.Valid() && WellFormedField(f) && f.ltype.STRING?
    modifies stream
    ensures stream.End() == old(stream.End())
    ensures stream.Valid() && Gets(P.DecodeItem(f, was, old(stream.Rest())), ok, v, stream.Rest())
  {
    hide Wire.DecodeVarint32, P.Take, P.CString;
    var status, size, _ := PbIn.DecodeVarint32(stream);
    if !status {
      return false, was;
    }
    var allocSize: nat := (size + 1) % TWO32;
    if allocSize < size || allocSize > f.dataSize {
      return false, was;
    }
    var read, bytes := stream.Read(size);
    return read, Blob(P.CString(bytes));
  }

  /** pb_dec_fixed_length_bytes. */
  method DecFixedLengthBytes(stream: IStream, f: Field, was: Value) returns (ok: bool, v: Value)
    requires stream.Valid() && WellFormedField(f) && f.ltype.FIXED_LENGTH_BYTES?
    modifies stream
    ensures stream.End() == old(stream.End())
    ensures stream.Valid() && Gets(P.DecodeItem(f, was, old(stream.Rest())), ok, v, stream.Rest())
  {
    hide Wire.DecodeVarint32, P.Take, Zeros;
    var status, size, _ := PbIn.DecodeVarint32(stream);
    if !status {
      return false, was;
    }
    if size > PB_SIZE_MAX {
      return false, was;
    }
    if size == 0 {
      return true, Blob(Zeros(f.dataSize));
    }
    if size != f.dataSize {
      return false, was;
    }
    var read, bytes := stream.Read(f.dataSize);
    return read, Blob(bytes);
  }
}
