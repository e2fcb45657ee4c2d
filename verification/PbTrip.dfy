/** The round trip, value by value and then field by field. */
module PbTrip {
  import opened Sequences
  import opened Bits
  import opened Wire
  import opened PbTypes
  import opened PbFormat
  import opened PbParse
  import opened PbRoundTrip

  // ---- finding the field of a key ----

  /** Steps from `pos` to `i` around the descriptor. */
  function Ahead(n: nat, pos: nat, i: nat): (d: nat)
    requires pos < n && i < n
    ensures d < n
  {
    if i >= pos then i - pos else i + n - pos
  }

  lemma {:induction false} FindWithinReaches(fields: seq<Field>, pos: nat, i: nat, n: nat)
    requires WellFormed(fields) && pos < |fields| && i < |fields| && Ahead(|fields|, pos, i) < n
    ensures FindWithin(fields, pos, fields[i].tag, n) == At(i)
    decreases n
  {
    if pos != i {
      assert fields[pos].tag != fields[i].tag;
      FindWithinReaches(fields, NextPos(fields, pos), i, n - 1);
    }
  }

  lemma {:induction false} FindWithinMisses(fields: seq<Field>, pos: nat, tag: nat, n: nat)
    requires pos < |fields| && forall f | f in fields :: f.tag != tag
    ensures FindWithin(fields, pos, tag, n) == NotFound
    decreases n
  {
    if n > 0 {
      FindWithinMisses(fields, NextPos(fields, pos), tag, n - 1);
    }
  }

  /** Whatever the iterator position, the lookup answers by the tag alone. */
  lemma {:induction false} FindExact(fields: seq<Field>, pos: nat, tag: nat)
    requires WellFormed(fields) && OnField(fields, pos) && fields != []
    ensures forall i | 0 <= i < |fields| && fields[i].tag == tag :: Find(fields, pos, tag) == At(i)
    ensures (forall f | f in fields :: f.tag != tag) ==> Find(fields, pos, tag) == NotFound
  {
    forall i | 0 <= i < |fields| && fields[i].tag == tag ensures Find(fields, pos, tag) == At(i) {
      FindWithinReaches(fields, pos, i, |fields|);
    }
    if forall f | f in fields :: f.tag != tag {
      FindWithinMisses(fields, pos, tag, |fields|);
    }
  }

  /** The key of a field, read back. */
  lemma {:induction false} KeyRoundTrip(tag: nat, wireType: nat, tail: seq<byte>)
    requires 1 <= tag <= PB_SIZE_MAX && wireType < 8
    ensures DecodeTag(Key(tag, wireType) + tail) == Found(tag, wireType, tail)
  {
    Varint32RoundTrip(tag * 8 + wireType, tail);
  }

  // ---- scalars ----

  /** The low 32 bits of a small negative number, read as a signed word. */
  lemma {:induction false} SignExtended(n: int, half: int)
    requires 0 < half <= TWO31 && -half <= n < half
    ensures -TWO63 <= n < TWO63 && ToWord(n) % TWO32 == if n < 0 then n + TWO32 else n
  {}

  lemma {:induction false} SignedWord(n: int, size: nat)
    requires IntSize(size) && SignedFits(n, size)
    ensures -TWO63 <= n < TWO63 && VarintValue(ToWord(n), size) == n
  {
    SignedBound(n, size);
    Pow2Literals();
    assert Pow2(64) == 2 * Pow2(63) && Pow2(32) == 2 * Pow2(31) && Pow2(8 * size) == 2 * Pow2(8 * size - 1);
    hide Pow2;
    if size != 8 {
      Pow2Monotone(8 * size - 1, 31);
      SignExtended(n, Pow2(8 * size - 1));
    }
  }

  lemma {:induction false} DelimitedRoundTrip(content: seq<byte>, tail: seq<byte>)
    requires |content| < TWO32
    ensures DecodeVarint32(Delimited(content) + tail) == Some((|content|, content + tail))
    ensures TakeDelimited(Delimited(content) + tail) == Some((content, tail))
    ensures Take(content + tail, |content|) == Some((content, tail))
  {
    Varint32RoundTrip(|content|, content + tail);
    assert Delimited(content) + tail == Varint(|content|) + (content + tail);
    assert (content + tail)[..|content|] == content && (content + tail)[|content|..] == tail;
  }

  lemma {:induction false} NoNul(s: seq<byte>)
    requires 0 !in s
    ensures CString(s) == s
  {
    if s != [] {
      NoNul(s[1..]);
    }
  }

  lemma {:induction false} TakePrefix(a: seq<byte>, tail: seq<byte>)
    ensures Take(a + tail, |a|) == Some((a, tail))
  {
    assert (a + tail)[..|a|] == a && (a + tail)[|a|..] == tail;
  }

  /** What one value of a field decodes to, given what was encoded for it. */
  ghost predicate ItemBack(f: Field, v: Value, was: Value, e: seq<byte>, tail: seq<byte>)
    requires WellFormedField(f) && ItemShape(f, v) && (f.ltype.SUBMESSAGE? ==> ItemShape(f, was))
  {
    var r := DecodeItem(f, was, e + tail);
    if TerminatedItem(f, v) then r.Some? && r.value.1 == tail && SameItem(f, v, r.value.0) else r.None?
  }

  lemma {:induction false} VarintTrip(f: Field, v: Value, was: Value, e: seq<byte>, tail: seq<byte>)
    requires WellFormedField(f) && ItemShape(f, v) && f.ltype.VARINT?
    requires EncodeItem(f, v) == Some(e)
    ensures ItemBack(f, v, was, e, tail)
  {
    SignedWord(v.n, f.dataSize);
    VarintRoundTrip(ToWord(v.n), tail);
    hide Varint, DecodeVarint, ToWord, VarintValue, SignedFits;
  }

  lemma {:induction false} UvarintTrip(f: Field, v: Value, was: Value, e: seq<byte>, tail: seq<byte>)
    requires WellFormedField(f) && ItemShape(f, v) && f.ltype.UVARINT?
    requires EncodeItem(f, v) == Some(e)
    ensures ItemBack(f, v, was, e, tail)
  {
    VarintRoundTrip(v.n, tail);
    hide Varint, DecodeVarint, UnsignedFits;
  }

  lemma {:induction false} SvarintTrip(f: Field, v: Value, was: Value, e: seq<byte>, tail: seq<byte>)
    requires WellFormedField(f) && ItemShape(f, v) && f.ltype.SVARINT?
    requires EncodeItem(f, v) == Some(e)
    ensures ItemBack(f, v, was, e, tail)
  {
    VarintRoundTrip(ZigZag(v.n), tail);
    ZigZagRoundTrip(v.n);
    hide Varint, DecodeVarint, ZigZag, UnZigZag, SignedFits;
  }

  lemma {:induction false} FixedTrip(f: Field, v: Value, was: Value, e: seq<byte>, tail: seq<byte>)
    requires WellFormedField(f) && ItemShape(f, v) && (f.ltype.FIXED32? || f.ltype.FIXED64?)
    requires EncodeItem(f, v) == Some(e)
    ensures ItemBack(f, v, was, e, tail)
  {
    Pow2Literals();
    hide Pow2, Take, LittleEndian, FromLittleEndian;
    TakePrefix(e, tail);
    FixedRoundTrip(v.n, |e|);
  }

  lemma {:induction false} StringTrip(f: Field, v: Value, was: Value, e: seq<byte>, tail: seq<byte>)
    requires WellFormedField(f) && ItemShape(f, v) && f.ltype.STRING?
    requires EncodeItem(f, v) == Some(e) && |e| < TWO32
    ensures ItemBack(f, v, was, e, tail)
  {
    hide DecodeVarint32, Varint, Take, CString;
    DelimitedRoundTrip(v.b, tail);
    NoNul(v.b);
  }

  lemma {:induction false} BytesTrip(f: Field, v: Value, was: Value, e: seq<byte>, tail: seq<byte>)
    requires WellFormedField(f) && ItemShape(f, v) && f.ltype.BYTES?
    requires EncodeItem(f, v) == Some(e) && |e| < TWO32
    ensures ItemBack(f, v, was, e, tail)
  {
    hide DecodeVarint32, Varint, Take;
    DelimitedRoundTrip(v.b, tail);
  }

  lemma {:induction false} FixedLengthTrip(f: Field, v: Value, was: Value, e: seq<byte>, tail: seq<byte>)
    requires WellFormedField(f) && ItemShape(f, v) && f.ltype.FIXED_LENGTH_BYTES?
    requires EncodeItem(f, v) == Some(e) && |e| < TWO32
    ensures ItemBack(f, v, was, e, tail)
  {
    hide DecodeVarint32, Varint, Take;
    DelimitedRoundTrip(v.b, tail);
    if v.b == [] {
      assert v.b + tail == tail;
      assert Zeros(f.dataSize) == v.b;
    }
  }
}
