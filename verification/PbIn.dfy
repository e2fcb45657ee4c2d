/** Input streams and the scalar decoders of pb_decode.c. */
module PbIn {
  import opened Bits
  import opened WordShift
  import opened Wire
  import opened PbParse

  /** A reader of `r` succeeds exactly when there is a result, returns it and leaves what is left. */
  ghost predicate Gets<T(!new)>(r: Parsed<T>, ok: bool, v: T, rest: seq<byte>) {
    (ok <==> r.Some?) && (ok ==> v == r.value.0 && rest == r.value.1)
  }

  class IStream {
    const source: seq<byte>
    var state: nat
    var bytesLeft: nat

    ghost predicate Valid()
      reads this
    {
      state + bytesLeft <= |source|
    }

    /** The bytes the stream may still read. */
    ghost function Rest(): seq<byte>
      requires Valid()
      reads this
    {
      source[state..state + bytesLeft]
    }

    /** Where the limit of the stream lies in its source. */
    ghost function End(): nat
      reads this
    {
      state + bytesLeft
    }

    /** pb_istream_from_buffer. */
    constructor FromBuffer(buf: seq<byte>)
      ensures Valid() && source == buf && Rest() == buf
    {
      source, state, bytesLeft := buf, 0, |buf|;
    }

    /** A copy of the struct with another limit. */
    constructor Limited(parent: IStream, size: nat)
      requires parent.Valid() && size <= parent.bytesLeft
      ensures Valid() && source == parent.source && state == parent.state && bytesLeft == size
    {
      source, state, bytesLeft := parent.source, parent.state, size;
    }

    /** pb_read into a buffer. */
    method Read(count: nat) returns (ok: bool, buf: seq<byte>)
      requires Valid()
      modifies this
      ensures End() == old(End())
      ensures Valid() && Gets(Take(old(Rest()), count), ok, buf, Rest())
      ensures !ok ==> Rest() == old(Rest())
    {
      buf := [];
      if bytesLeft < count {
        return false, buf;
      }
      var from := state;
      state := state + count;
      for i := 0 to count
        invariant buf == source[from..from + i]
        invariant state == from + count && bytesLeft == old(bytesLeft)
      {
        buf := buf + [source[from + i]];
      }
      bytesLeft := bytesLeft - count;
      assert buf == old(Rest())[..count];
      return true, buf;
    }

    /** pb_read into a null pointer. */
    method Skip(count: nat) returns (ok: bool)
      requires Valid()
      modifies this
      ensures End() == old(End())
      ensures Valid() && ok == (count <= |old(Rest())|)
      ensures Rest() == if ok then old(Rest())[count..] else old(Rest())
      ensures state == old(state) + (if ok then count else 0) && bytesLeft == old(bytesLeft) - (if ok then count else 0)
    {
      if bytesLeft < count {
        return false;
      }
      state := state + count;
      bytesLeft := bytesLeft - count;
      return true;
    }

    /** pb_readbyte. */
    method ReadByte() returns (ok: bool, b: byte)
      requires Valid()
      modifies this
      ensures End() == old(End())
      ensures Valid() && ok == (old(Rest()) != [])
      ensures ok ==> old(Rest()) == [b] + Rest()
      ensures !ok ==> Rest() == old(Rest())
    {
      if bytesLeft == 0 {
        return false, 0;
      }
      b := source[state];
      state := state + 1;
      bytesLeft := bytesLeft - 1;
      return true, b;
    }
  }

  // ---- varints ----

  /** Seven more bits above the lower ones already read; OR is addition here, also where the top is cut. */
  lemma {:induction false} SevenBits(acc: nat, x: nat, bitpos: nat, width: nat)
    requires bitpos < width && acc < Pow2(bitpos) && x < 128
    ensures 0 <= x * Pow2(bitpos)
    ensures Or(acc, x * Pow2(bitpos) % Pow2(width)) == (acc + x * Pow2(bitpos)) % Pow2(width)
    ensures bitpos + 7 <= width ==> (acc + x * Pow2(bitpos)) % Pow2(width) < Pow2(bitpos + 7)
  {
    hide Pow2, Or;
    var p, q := Pow2(bitpos), Pow2(width - bitpos);
    Pow2Add(bitpos, width - bitpos);
    CutProduct(acc, x, p, q);
    DivModUnique(x % q, 0, p);
    OrDisjoint(x % q * p, acc, bitpos);
    if bitpos + 7 <= width {
      SevenFit(acc, x, bitpos, width);
    }
  }

  lemma {:induction false} SevenFit(acc: nat, x: nat, bitpos: nat, width: nat)
    requires bitpos + 7 <= width && acc < Pow2(bitpos) && x < 128
    ensures 0 <= x * Pow2(bitpos) && (acc + x * Pow2(bitpos)) % Pow2(width) < Pow2(bitpos + 7)
  {
    Pow2Bytes();
    Pow2Add(bitpos, 7);
    Pow2Monotone(bitpos + 7, width);
    hide Pow2;
    SmallProduct(acc, x, Pow2(bitpos));
    DivModUnique(0, acc + x * Pow2(bitpos), Pow2(width));
  }

  lemma {:induction false} SmallProduct(acc: nat, x: nat, p: nat)
    requires acc < p && x < 128
    ensures 0 <= x * p && acc + x * p < p * 0x80
  {
    MulLe(x, 127, p);
  }

  lemma {:induction false} CutProduct(acc: nat, x: nat, p: nat, q: nat)
    requires acc < p && q > 0
    ensures 0 <= p * q && p * q > 0 && 0 <= x * p && 0 <= x % q * p
    ensures x * p % (p * q) == x % q * p
    ensures (acc + x * p) % (p * q) == acc + x % q * p
  {
    var a, b := x / q, x % q;
    assert x == a * q + b;
    assert x * p == a * (p * q) + b * p by {
      assert (a * q + b) * p == a * q * p + b * p;
      assert a * q * p == a * (p * q);
    }
    MulLe(b + 1, q, p);
    assert (b + 1) * p == b * p + p;
    assert q * p == p * q;
    DivModUnique(a, b * p, p * q);
    DivModUnique(a, acc + b * p, p * q);
  }

  lemma {:induction false} Seven64(acc: nat, x: nat, bitpos: nat)
    requires bitpos < 64 && acc < Pow2(bitpos) && x < 128
    ensures 0 <= x * Pow2(bitpos) && Or(acc, Shl(x, bitpos, TWO64)) == (acc + x * Pow2(bitpos)) % TWO64
    ensures bitpos + 7 < 64 ==> Or(acc, Shl(x, bitpos, TWO64)) < Pow2(bitpos + 7)
  {
    Pow2Literals();
    SevenBits(acc, x, bitpos, 64);
    hide Pow2, Or;
  }

  lemma {:induction false} Seven32(acc: nat, x: nat, bitpos: nat)
    requires bitpos < 32 && acc < Pow2(bitpos) && x < 128
    ensures 0 <= x * Pow2(bitpos) && Or(acc, Shl(x, bitpos, TWO32)) == (acc + x * Pow2(bitpos)) % TWO32
    ensures bitpos + 7 < 32 ==> Or(acc, Shl(x, bitpos, TWO32)) < Pow2(bitpos + 7)
  {
    Pow2Literals();
    SevenBits(acc, x, bitpos, 32);
    hide Pow2, Or;
  }

  lemma {:induction false} VarintByteRead(b: byte, rest: seq<byte>, bitpos: nat, acc: uint64)
    requires bitpos < 64 && acc < Pow2(bitpos)
    ensures var acc' := Or(acc, Shl(b % 128, bitpos, TWO64));
      && acc' < TWO64 && (bitpos + 7 < 64 ==> acc' < Pow2(bitpos + 7))
      && VarintFrom([b] + rest, bitpos, acc) == if b < 128 then Some((acc', rest)) else VarintFrom(rest, bitpos + 7, acc')
  {
    Seven64(acc, b % 128, bitpos);
    hide Pow2, Or, Shl;
    assert ([b] + rest)[1..] == rest;
  }

  /** pb_decode_varint. */
  method DecodeVarint(stream: IStream) returns (ok: bool, dest: uint64)
    requires stream.Valid()
    modifies stream
    ensures stream.End() == old(stream.End())
    ensures stream.Valid() && Gets(Wire.DecodeVarint(old(stream.Rest())), ok, dest, stream.Rest())
  {
    hide VarintFrom, Pow2, Or, Shl;
    var bitpos := 0;
    var result: uint64 := 0;
    var more := true;
    assert 0 < Pow2(0);
    while more
      invariant stream.End() == old(stream.End())
      invariant stream.Valid() && (more && bitpos < 64 ==> result < Pow2(bitpos))
      invariant VarintFrom(old(stream.Rest()), 0, 0)
             == if more then VarintFrom(stream.Rest(), bitpos, result) else Some((result, stream.Rest()))
      decreases more, |stream.Rest()|
    {
      ghost var here := stream.Rest();
      VarintStops(here, bitpos, result);
      if bitpos >= 64 {
        return false, 0;
      }
      var status, b := stream.ReadByte();
      if !status {
        return false, 0;
      }
      VarintByteRead(b, stream.Rest(), bitpos, result);
      result := Or(result, Shl(b % 128, bitpos, TWO64));
      bitpos := bitpos + 7;
      more := b >= 128;
    }
    return true, result;
  }

  lemma {:induction false} VarintStops(b: seq<byte>, bitpos: nat, acc: uint64)
    ensures bitpos >= 64 || b == [] ==> VarintFrom(b, bitpos, acc) == None
  {}

  lemma {:induction false} Varint32ByteRead(b: byte, rest: seq<byte>, bitpos: nat, acc: uint32)
    requires bitpos < 32 && acc < Pow2(bitpos)
    ensures var acc' := Or(acc, Shl(b % 128, bitpos, TWO32));
      && acc' < TWO32 && (bitpos + 7 < 32 ==> acc' < Pow2(bitpos + 7))
      && Varint32From([b] + rest, bitpos, acc)
           == if b >= 128 then Varint32From(rest, bitpos + 7, acc')
              else if bitpos + 7 == 35 && b / 16 % 8 != 0 then None
              else Some((acc', rest))
  {
    Seven32(acc, b % 128, bitpos);
    hide Pow2, Or, Shl;
    assert ([b] + rest)[1..] == rest;
  }

  lemma {:induction false} Varint32HighByte(b: byte, rest: seq<byte>, bitpos: nat, acc: uint32)
    requires bitpos >= 32
    ensures Varint32From([b] + rest, bitpos, acc)
         == if b % 128 != 0 && (acc < TWO31 || b != (if bitpos < 63 then 0xFF else 0x01)) then None
            else if b >= 128 then Varint32From(rest, bitpos + 7, acc)
            else Some((acc, rest))
  {
    assert ([b] + rest)[1..] == rest;
  }

  /** pb_decode_varint32_eof; `eof` is set where the input ends before the first byte. */
  method DecodeVarint32(stream: IStream) returns (ok: bool, dest: uint32, eof: bool)
    requires stream.Valid()
    modifies stream
    ensures stream.End() == old(stream.End())
    ensures stream.Valid() && Gets(Wire.DecodeVarint32(old(stream.Rest())), ok, dest, stream.Rest())
    ensures eof <==> old(stream.Rest()) == []
  {
    var status, b := stream.ReadByte();
    if !status {
      return false, 0, stream.bytesLeft == 0;
    }
    assert old(stream.Rest())[1..] == stream.Rest();
    if b < 128 {
      return true, b, false;
    }
    eof := false;
    ok, dest := DecodeMultibyte(stream, b % 128);
  }

  /** The multi-byte case of pb_decode_varint32_eof. */
  method DecodeMultibyte(stream: IStream, first: nat) returns (ok: bool, dest: uint32)
    requires stream.Valid() && first < 128
    modifies stream
    ensures stream.End() == old(stream.End())
    ensures stream.Valid() && Gets(Varint32From(old(stream.Rest()), 7, first), ok, dest, stream.Rest())
  {
    Pow2Bytes();
    hide Varint32From, Pow2, Or, Shl;
    var bitpos := 7;
    var result: uint32 := first;
    var more := true;
    while more
      invariant stream.End() == old(stream.End())
      invariant stream.Valid() && 7 <= bitpos && (more && bitpos < 32 ==> result < Pow2(bitpos))
      invariant Varint32From(old(stream.Rest()), 7, first)
             == if more then Varint32From(stream.Rest(), bitpos, result) else Some((result, stream.Rest()))
      decreases more, |stream.Rest()|
    {
      Varint32Stops(stream.Rest(), bitpos, result);
      var status, b := stream.ReadByte();
      if !status {
        return false, 0;
      }
      if bitpos >= 32 {
        Varint32HighByte(b, stream.Rest(), bitpos, result);
        var signExtension := if bitpos < 63 then 0xFF else 0x01;
        if b % 128 != 0 && (result < TWO31 || b != signExtension) {
          return false, 0;
        }
      } else {
        Varint32ByteRead(b, stream.Rest(), bitpos, result);
        result := Or(result, Shl(b % 128, bitpos, TWO32));
      }
      bitpos := bitpos + 7;
      more := b >= 128;
      if !more && bitpos == 35 && b / 16 % 8 != 0 {
        return false, 0;
      }
    }
    return true, result;
  }

  lemma {:induction false} Varint32Stops(b: seq<byte>, bitpos: nat, acc: uint32)
    ensures b == [] ==> Varint32From(b, bitpos, acc) == None
  {}

  // ---- keys, skipping, substreams ----

  /** pb_decode_tag. */
  method DecodeTag(stream: IStream) returns (ok: bool, wireType: nat, tag: nat, eof: bool)
    requires stream.Valid()
    modifies stream
    ensures stream.End() == old(stream.End())
    ensures stream.Valid()
    ensures match PbParse.DecodeTag(old(stream.Rest()))
      case Malformed => !ok && eof == (old(stream.Rest()) == [])
      case EndMark(rest) => !ok && eof && stream.Rest() == rest
      case Found(t, w, rest) => ok && tag == t && wireType == w && stream.Rest() == rest
  {
    hide Wire.DecodeVarint32;
    wireType, tag := 0, 0;
    var status, temp, atEnd := DecodeVarint32(stream);
    if !status {
      EmptyIsMalformed(old(stream.Rest()));
      return false, 0, 0, atEnd;
    }
    if temp == 0 {
      return false, 0, 0, true;
    }
    return true, temp % 8, temp / 8, false;
  }

  lemma {:induction false} EmptyIsMalformed(b: seq<byte>)
    ensures b == [] ==> PbParse.DecodeTag(b) == Malformed
  {}

  /** pb_skip_varint. */
  method SkipVarint(stream: IStream) returns (ok: bool)
    requires stream.Valid()
    modifies stream
    ensures stream.End() == old(stream.End())
    ensures stream.Valid()
    ensures ok <==> PbParse.SkipVarint(old(stream.Rest())).Some?
    ensures ok ==> stream.Rest() == PbParse.SkipVarint(old(stream.Rest())).value
  {
    var more := true;
    while more
      invariant stream.End() == old(stream.End())
      invariant stream.Valid()
      invariant PbParse.SkipVarint(old(stream.Rest())) == if more then PbParse.SkipVarint(stream.Rest()) else Some(stream.Rest())
      decreases more, |stream.Rest()|
    {
      ghost var here := stream.Rest();
      var status, b := stream.ReadByte();
      if !status {
        return false;
      }
      assert here[1..] == stream.Rest();
      more := b >= 128;
    }
    return true;
  }

  /** pb_skip_string. */
  method SkipString(stream: IStream) returns (ok: bool)
    requires stream.Valid()
    modifies stream
    ensures stream.End() == old(stream.End())
    ensures stream.Valid()
    ensures ok <==> TakeDelimited(old(stream.Rest())).Some?
    ensures ok ==> stream.Rest() == TakeDelimited(old(stream.Rest())).value.1
  {
    hide Wire.DecodeVarint32;
    var status, length, _ := DecodeVarint32(stream);
    if !status {
      return false;
    }
    ok := stream.Skip(length);
  }

  /** pb_skip_field. */
  method SkipField(stream: IStream, wireType: nat) returns (ok: bool)
    requires stream.Valid()
    modifies stream
    ensures stream.End() == old(stream.End())
    ensures stream.Valid()
    ensures ok <==> PbParse.SkipField(wireType, old(stream.Rest())).Some?
    ensures ok ==> stream.Rest() == PbParse.SkipField(wireType, old(stream.Rest())).value
  {
    hide TakeDelimited, PbParse.SkipVarint;
    match wireType
    case 0 => ok := SkipVarint(stream);
    case 1 => ok := stream.Skip(8);
    case 2 => ok := SkipString(stream);
    case 5 => ok := stream.Skip(4);
    case _ => ok := false;
  }

  /** pb_make_string_substream: the parent's limit already excludes the substream, its position not yet. */
  method MakeSubstream(stream: IStream) returns (ok: bool, substream: IStream)
    requires stream.Valid()
    modifies stream
    ensures stream.Valid() && substream.Valid() && fresh(substream)
    ensures ok <==> TakeDelimited(old(stream.Rest())).Some?
    ensures ok ==> substream.Rest() == TakeDelimited(old(stream.Rest())).value.0
    ensures ok ==> substream.source == stream.source && substream.state == stream.state
    ensures ok ==> substream.End() + stream.bytesLeft == old(stream.End()) <= |stream.source|
    ensures !ok ==> stream.End() == old(stream.End())
    ensures ok ==>
      var behind := stream.state + substream.bytesLeft;
      TakeDelimited(old(stream.Rest())).value.1 == stream.source[behind..behind + stream.bytesLeft]
  {
    hide Wire.DecodeVarint32, TakeDelimited;
    ghost var input := stream.Rest();
    substream := new IStream.Limited(stream, 0);
    var status, size, _ := DecodeVarint32(stream);
    Announced(input);
    if !status || stream.bytesLeft < size {
      return false, substream;
    }
    substream := SplitOff(stream, size);
    return true, substream;
  }

  method SplitOff(stream: IStream, size: nat) returns (substream: IStream)
    requires stream.Valid() && size <= stream.bytesLeft
    modifies stream
    ensures stream.Valid() && substream.Valid() && fresh(substream)
    ensures substream.source == stream.source && substream.state == stream.state
    ensures stream.state == old(stream.state) && substream.bytesLeft == size && stream.bytesLeft == old(stream.bytesLeft) - size
    ensures Take(old(stream.Rest()), size)
         == Some((substream.Rest(), stream.source[stream.state + size..stream.state + size + stream.bytesLeft]))
  {
    ghost var after := stream.Rest();
    substream := new IStream.Limited(stream, size);
    stream.bytesLeft := stream.bytesLeft - size;
    assert substream.Rest() == after[..size];
    assert after[size..] == stream.source[stream.state + size..stream.state + size + stream.bytesLeft];
  }

  lemma {:induction false} Announced(b: seq<byte>)
    ensures var size := Wire.DecodeVarint32(b);
      TakeDelimited(b) == if size.None? then None else Take(size.value.1, size.value.0)
  {}

  /** pb_close_string_substream: what the reader left is skipped, and the parent moves behind it. */
  method CloseSubstream(stream: IStream, substream: IStream) returns (ok: bool)
    requires stream.Valid() && substream.Valid() && stream != substream && substream.source == stream.source
    requires substream.End() + stream.bytesLeft <= |stream.source|
    modifies stream, substream
    ensures ok && stream.Valid() && stream.state == old(substream.End()) && stream.bytesLeft == old(stream.bytesLeft)
  {
    if substream.bytesLeft != 0 {
      var status := substream.Skip(substream.bytesLeft);
      if !status {
        return false;
      }
    }
    stream.state := substream.state;
    return true;
  }
}
