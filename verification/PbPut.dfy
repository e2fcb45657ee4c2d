/** The scalar encoders of pb_encode.c, over streams. */
module PbPut {
  import opened Bits
  import opened Wire
  import opened PbFormat
  import opened PbStream

  /** The varint loop in the middle: `i` bytes are out and `v` is left; the last byte of a finished loop
      still has its top bit set. */
  ghost predicate VarintSoFar(value: nat, out: seq<byte>, v: nat) {
    if v > 0 then Varint(value) == out + Varint(v)
    else out != [] && out[|out| - 1] >= 128 && Varint(value) == out[..|out| - 1] + [out[|out| - 1] - 128]
  }

  lemma {:induction false} VarintTurn(value: nat, out: seq<byte>, v: nat)
    requires v > 0 && VarintSoFar(value, out, v)
    ensures VarintSoFar(value, out + [v % 128 + 128], v / 128)
    ensures |out| < |Varint(value)|
  {
    var next := out + [v % 128 + 128];
    if v < 128 {
      assert next[..|next| - 1] == out;
    } else {
      assert out + ([v % 128 + 128] + Varint(v / 128)) == next + Varint(v / 128);
    }
  }

  lemma {:induction false} VarintTen(value: uint64)
    ensures |Varint(value)| <= 10
  {
    Pow2Literals();
    Pow2Monotone(64, 70);
    VarintLength(value, 10);
  }

  /** pb_encode_varint. */
  method EncodeVarint(stream: OStream, value: uint64) returns (ok: bool)
    requires Roomy(stream.Now())
    modifies stream`state, stream`bytesWritten, stream.buffer
    ensures Puts(old(stream.Now()), Some(Varint(value)), ok, stream.Now())
  {
    hide Puts, Roomy;
    if value <= 0x7F {
      ok := stream.Write([value]);
      return;
    }
    VarintTen(value);
    var buffer := new byte[10];
    var i, v := 0, value;
    while v != 0
      invariant 0 <= i <= 10 && (v == 0 ==> i > 0)
      invariant VarintSoFar(value, buffer[..i], v)
      invariant stream.Now() == old(stream.Now())
      decreases v
    {
      VarintTurn(value, buffer[..i], v);
      assert i < 10;
      buffer[i] := v % 128 + 128;
      assert buffer[..i + 1] == buffer[..i] + [v % 128 + 128];
      v := v / 128;
      i := i + 1;
    }
    buffer[i - 1] := buffer[i - 1] - 128;
    assert buffer[..i] == Varint(value);
    ok := stream.Write(buffer[..i]);
  }

  /** pb_encode_svarint. */
  method EncodeSvarint(stream: OStream, value: int) returns (ok: bool)
    requires Roomy(stream.Now()) && -TWO63 <= value < TWO63
    modifies stream`state, stream`bytesWritten, stream.buffer
    ensures Puts(old(stream.Now()), Some(Varint(ZigZag(value))), ok, stream.Now())
  {
    hide Puts, Roomy;
    var zigzagged: uint64;
    if value < 0 {
      zigzagged := TWO64 - 1 - ToWord(value) * 2 % TWO64;
    } else {
      zigzagged := ToWord(value) * 2 % TWO64;
    }
    ok := EncodeVarint(stream, zigzagged);
  }

  lemma {:induction false} LittleEndianAt(n: nat, k: nat, j: nat)
    requires j < k
    ensures LittleEndian(n, k)[j] == n / Pow2(8 * j) % 256
  {
    if j > 0 {
      LittleEndianAt(n / 256, k - 1, j - 1);
      Pow2Bytes();
      Pow2Add(8, 8 * (j - 1));
      DivDiv(n, 256, Pow2(8 * (j - 1)));
      assert LittleEndian(n, k)[j] == LittleEndian(n / 256, k - 1)[j - 1];
    }
  }

  lemma {:induction false} BytePowers()
    ensures Pow2(0) == 1 && Pow2(8) == 0x100 && Pow2(16) == 0x1_0000 && Pow2(24) == 0x100_0000 && Pow2(32) == 0x1_0000_0000
    ensures Pow2(40) == 0x100_0000_0000 && Pow2(48) == 0x1_0000_0000_0000 && Pow2(56) == 0x100_0000_0000_0000
  {
    Pow2Literals();
    Pow2Bytes();
    assert Pow2(0) == 1;
    hide Pow2;
    Pow2Add(8, 16);
    Pow2Add(8, 32);
    Pow2Add(16, 32);
    Pow2Add(8, 48);
  }

  lemma {:induction false} FourBytes(n: uint32)
    ensures LittleEndian(n, 4) == [n % 256, n / 0x100 % 256, n / 0x1_0000 % 256, n / 0x100_0000 % 256]
  {
    BytePowers();
    hide LittleEndian, Pow2;
    LittleEndianAt(n, 4, 0);
    LittleEndianAt(n, 4, 1);
    LittleEndianAt(n, 4, 2);
    LittleEndianAt(n, 4, 3);
  }

  /** pb_encode_fixed32. */
  method EncodeFixed32(stream: OStream, value: uint32) returns (ok: bool)
    requires Roomy(stream.Now())
    modifies stream`state, stream`bytesWritten, stream.buffer
    ensures Puts(old(stream.Now()), Some(LittleEndian(value, 4)), ok, stream.Now())
  {
    hide Puts, Roomy;
    FourBytes(value);
    ok := stream.Write([value % 256, value / 0x100 % 256, value / 0x1_0000 % 256, value / 0x100_0000 % 256]);
  }

  lemma {:induction false} EightBytes(n: uint64)
    ensures LittleEndian(n, 8) == [n % 256, n / 0x100 % 256, n / 0x1_0000 % 256, n / 0x100_0000 % 256,
                                   n / 0x1_0000_0000 % 256, n / 0x100_0000_0000 % 256,
                                   n / 0x1_0000_0000_0000 % 256, n / 0x100_0000_0000_0000 % 256]
  {
    BytePowers();
    hide LittleEndian, Pow2;
    LittleEndianAt(n, 8, 0);
    LittleEndianAt(n, 8, 1);
    LittleEndianAt(n, 8, 2);
    LittleEndianAt(n, 8, 3);
    LittleEndianAt(n, 8, 4);
    LittleEndianAt(n, 8, 5);
    LittleEndianAt(n, 8, 6);
    LittleEndianAt(n, 8, 7);
  }

  /** pb_encode_fixed64. */
  method EncodeFixed64(stream: OStream, value: uint64) returns (ok: bool)
    requires Roomy(stream.Now())
    modifies stream`state, stream`bytesWritten, stream.buffer
    ensures Puts(old(stream.Now()), Some(LittleEndian(value, 8)), ok, stream.Now())
  {
    hide Puts, Roomy;
    EightBytes(value);
    ok := stream.Write([value % 256, value / 0x100 % 256, value / 0x1_0000 % 256, value / 0x100_0000 % 256,
                        value / 0x1_0000_0000 % 256, value / 0x100_0000_0000 % 256,
                        value / 0x1_0000_0000_0000 % 256, value / 0x100_0000_0000_0000 % 256]);
  }

  /** pb_encode_tag. */
  method EncodeTag(stream: OStream, wireType: nat, fieldNumber: uint32) returns (ok: bool)
    requires Roomy(stream.Now()) && wireType < 8
    modifies stream`state, stream`bytesWritten, stream.buffer
    ensures Puts(old(stream.Now()), Some(Key(fieldNumber, wireType)), ok, stream.Now())
  {
    assert Pow2(3) == 8;
    hide Puts, Roomy, Varint;
    OrDisjoint(fieldNumber * 8, wireType, 3);
    ok := EncodeVarint(stream, Or(fieldNumber * 8, wireType));
  }

  /** pb_encode_string. */
  method EncodeString(stream: OStream, data: seq<byte>) returns (ok: bool)
    requires Roomy(stream.Now()) && |data| < TWO64
    modifies stream`state, stream`bytesWritten, stream.buffer
    ensures Puts(old(stream.Now()), Some(Delimited(data)), ok, stream.Now())
  {
    ghost var start := stream.Now();
    hide Puts, Roomy, Varint;
    ok := EncodeVarint(stream, |data|);
    ghost var middle := stream.Now();
    if !ok {
      Stops(start, Some(Varint(|data|)), middle, Some(data));
      return;
    }
    RoomLeft(start, Some(Varint(|data|)), ok, middle);
    ok := stream.Write(data);
    Then(start, Some(Varint(|data|)), middle, Some(data), ok, stream.Now());
  }

  lemma {:induction false} RoomLeft(o: Out, e: Encoded, ok: bool, r: Out)
    requires Puts(o, e, ok, r)
    ensures Roomy(r) && r.sizing == o.sizing
  {}
}
