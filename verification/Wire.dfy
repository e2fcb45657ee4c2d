/** The scalar wire formats of the Protocol Buffers Encoding specification ("Base 128 Varints" and
    following) as nanopb writes and reads them: what each encoder emits, what each decoder accepts. */
module Wire {
  import opened Bits

  datatype Option<+T> = None | Some(value: T)

  /** A value read from the front of the input, and the bytes after it. */
  type Parsed<T> = Option<(T, seq<byte>)>

  const TWO31: int := 0x8000_0000
  const TWO63: int := 0x8000_0000_0000_0000

  // ---- varints ----

  /** Seven bits a byte, least significant first, the top bit on all bytes but the last. */
  function Varint(v: nat): (b: seq<byte>)
    ensures |b| >= 1
  {
    if v < 128 then [v] else [v % 128 + 128] + Varint(v / 128)
  }

  /** pb_decode_varint after `bitpos / 7` bytes with value `acc`; bits above 64 are shifted out. */
  function VarintFrom(b: seq<byte>, bitpos: nat, acc: nat): (r: Parsed<uint64>)
    requires acc < TWO64
    ensures r.Some? ==> |r.value.1| < |b| && r.value.1 == b[|b| - |r.value.1|..]
    decreases |b|
  {
    if bitpos >= 64 || b == [] then None
    else
      var acc' := (acc + b[0] % 128 * Pow2(bitpos)) % TWO64;
      if b[0] < 128 then Some((acc', b[1..])) else VarintFrom(b[1..], bitpos + 7, acc')
  }

  function DecodeVarint(b: seq<byte>): (r: Parsed<uint64>)
    ensures r.Some? ==> |r.value.1| < |b| && r.value.1 == b[|b| - |r.value.1|..]
  {
    VarintFrom(b, 0, 0)
  }

  /** The multi-byte case of pb_decode_varint32_eof: above bit 32 only zero bits or the sign extension
      of a negative number may follow. */
  function Varint32From(b: seq<byte>, bitpos: nat, acc: nat): (r: Parsed<uint32>)
    requires acc < TWO32
    ensures r.Some? ==> |r.value.1| < |b| && r.value.1 == b[|b| - |r.value.1|..]
    decreases |b|
  {
    if b == [] then None
    else if bitpos >= 32 && b[0] % 128 != 0 && (acc < TWO31 || b[0] != (if bitpos < 63 then 0xFF else 0x01)) then None
    else
      var acc' := if bitpos >= 32 then acc else (acc + b[0] % 128 * Pow2(bitpos)) % TWO32;
      if b[0] >= 128 then Varint32From(b[1..], bitpos + 7, acc')
      else if bitpos + 7 == 35 && b[0] / 16 % 8 != 0 then None
      else Some((acc', b[1..]))
  }

  function DecodeVarint32(b: seq<byte>): (r: Parsed<uint32>)
    ensures r.Some? ==> |r.value.1| < |b| && r.value.1 == b[|b| - |r.value.1|..]
  {
    if b == [] then None
    else if b[0] < 128 then Some((b[0], b[1..]))
    else Varint32From(b[1..], 7, b[0] % 128)
  }

  lemma {:induction false} VarintStep(v: nat, bitpos: nat, acc: nat)
    requires v >= 128
    ensures v % 128 * Pow2(bitpos) + v / 128 * Pow2(bitpos + 7) == v * Pow2(bitpos)
    ensures 0 <= v % 128 * Pow2(bitpos)
    ensures Pow2(bitpos + 7) <= v * Pow2(bitpos)
    ensures acc < Pow2(bitpos) ==> acc + v % 128 * Pow2(bitpos) < Pow2(bitpos + 7)
  {
    Pow2Add(7, bitpos);
    Pow2Bytes();
    var q, r, p := v / 128, v % 128, Pow2(bitpos);
    Split(q, r, p);
    MulLe(128, v, p);
    MulLe(r, 127, p);
  }

  lemma {:induction false} Split(q: nat, r: nat, p: nat)
    ensures (q * 128 + r) * p == r * p + q * (0x80 * p)
  {}

  lemma {:induction false} VarintByte(x: byte, rest: seq<byte>, bitpos: nat, acc: nat)
    requires bitpos < 64 && 0 <= x % 128 * Pow2(bitpos) && acc + x % 128 * Pow2(bitpos) < TWO64
    ensures var acc' := acc + x % 128 * Pow2(bitpos);
      VarintFrom([x] + rest, bitpos, acc) == if x < 128 then Some((acc', rest)) else VarintFrom(rest, bitpos + 7, acc')
  {
    assert ([x] + rest)[1..] == rest;
    hide Pow2;
    DivModUnique(0, acc + x % 128 * Pow2(bitpos), TWO64);
  }

  lemma {:induction false} BitposBound(v: nat, bitpos: nat)
    requires v >= 128 && 0 <= v * Pow2(bitpos) < TWO64
    ensures bitpos + 7 < 64
  {
    VarintStep(v, bitpos, 0);
    Pow2Literals();
    if bitpos + 7 >= 64 {
      Pow2Monotone(64, bitpos + 7);
    }
  }

  /** A varint decodes to its value, whatever follows it. */
  lemma {:induction false} VarintRoundTripFrom(v: nat, tail: seq<byte>, bitpos: nat, acc: nat)
    requires acc < Pow2(bitpos) && 0 <= v * Pow2(bitpos) && acc + v * Pow2(bitpos) < TWO64 && bitpos < 64
    ensures VarintFrom(Varint(v) + tail, bitpos, acc) == Some((acc + v * Pow2(bitpos), tail))
    decreases v
  {
    hide VarintFrom, Pow2;
    if v < 128 {
      VarintByte(v, tail, bitpos, acc);
    } else {
      VarintStep(v, bitpos, acc);
      BitposBound(v, bitpos);
      var lo := v % 128;
      assert Varint(v) + tail == [lo + 128] + (Varint(v / 128) + tail);
      VarintByte(lo + 128, Varint(v / 128) + tail, bitpos, acc);
      VarintRoundTripFrom(v / 128, tail, bitpos + 7, acc + lo * Pow2(bitpos));
    }
  }

  lemma {:induction false} VarintRoundTrip(v: uint64, tail: seq<byte>)
    ensures DecodeVarint(Varint(v) + tail) == Some((v, tail))
  {
    assert Pow2(0) == 1;
    VarintRoundTripFrom(v, tail, 0, 0);
  }

  lemma {:induction false} Varint32Byte(x: byte, rest: seq<byte>, bitpos: nat, acc: nat)
    requires bitpos < 32 && 0 <= x % 128 * Pow2(bitpos) && acc + x % 128 * Pow2(bitpos) < TWO32
    requires x < 128 && bitpos + 7 == 35 ==> x < 16
    ensures var acc' := acc + x % 128 * Pow2(bitpos);
      Varint32From([x] + rest, bitpos, acc) == if x < 128 then Some((acc', rest)) else Varint32From(rest, bitpos + 7, acc')
  {
    assert ([x] + rest)[1..] == rest;
    hide Pow2;
    DivModUnique(0, acc + x % 128 * Pow2(bitpos), TWO32);
  }

  lemma {:induction false} Bitpos32Bound(v: nat, bitpos: nat)
    requires 0 <= v * Pow2(bitpos) < TWO32
    ensures v >= 128 ==> bitpos + 7 < 32
    ensures bitpos == 28 ==> v < 16
  {
    Pow2Literals();
    if v >= 128 {
      VarintStep(v, bitpos, 0);
      if bitpos + 7 >= 32 {
        Pow2Monotone(32, bitpos + 7);
      }
    }
    assert Pow2(4) == 16;
    Pow2Add(4, 28);
    if bitpos == 28 && v >= 16 {
      MulLe(16, v, Pow2(28));
    }
  }

  lemma {:induction false} Varint32RoundTripFrom(v: nat, tail: seq<byte>, bitpos: nat, acc: nat)
    requires acc < Pow2(bitpos) && 0 <= v * Pow2(bitpos) && acc + v * Pow2(bitpos) < TWO32 && bitpos < 32
    ensures Varint32From(Varint(v) + tail, bitpos, acc) == Some((acc + v * Pow2(bitpos), tail))
    decreases v
  {
    hide Varint32From, Pow2;
    Bitpos32Bound(v, bitpos);
    if v < 128 {
      Varint32Byte(v, tail, bitpos, acc);
    } else {
      VarintStep(v, bitpos, acc);
      var lo := v % 128;
      assert Varint(v) + tail == [lo + 128] + (Varint(v / 128) + tail);
      Varint32Byte(lo + 128, Varint(v / 128) + tail, bitpos, acc);
      Varint32RoundTripFrom(v / 128, tail, bitpos + 7, acc + lo * Pow2(bitpos));
    }
  }

  lemma {:induction false} Varint32Tail(q: nat, lo: nat, tail: seq<byte>)
    requires lo < 128 && lo + q * 128 < TWO32
    ensures Varint32From(Varint(q) + tail, 7, lo) == Some((lo + q * 128, tail))
  {
    Pow2Bytes();
    hide Pow2, Varint, Varint32From;
    assert q * Pow2(7) == q * 128;
    Varint32RoundTripFrom(q, tail, 7, lo);
  }

  /** The reader of keys and lengths accepts every canonical varint below 2^32. */
  lemma {:induction false} Varint32RoundTrip(v: uint32, tail: seq<byte>)
    ensures DecodeVarint32(Varint(v) + tail) == Some((v, tail))
  {
    if v < 128 {
      assert ([v] + tail)[1..] == tail;
    } else {
      var lo := v % 128;
      assert Varint(v) + tail == [lo + 128] + (Varint(v / 128) + tail);
      hide Varint, Varint32From, DecodeVarint32;
      Varint32First(lo, Varint(v / 128) + tail);
      Varint32Tail(v / 128, lo, tail);
    }
  }

  lemma {:induction false} Varint32First(lo: nat, rest: seq<byte>)
    requires lo < 128
    ensures DecodeVarint32([lo + 128] + rest) == Varint32From(rest, 7, lo)
  {
    hide Varint32From;
    assert ([lo + 128] + rest)[1..] == rest;
    DivModUnique(1, lo, 128);
  }

  /** The number of bytes: one for every started group of seven bits. */
  lemma {:induction false} VarintLength(v: nat, k: nat)
    requires k >= 1
    ensures |Varint(v)| <= k <==> v < Pow2(7 * k)
    decreases k
  {
    Pow2Bytes();
    if k == 1 {
    } else {
      Pow2Add(7, 7 * (k - 1));
      Pow2Monotone(7, 7 * k);
      if v >= 128 {
        VarintLength(v / 128, k - 1);
      }
    }
  }

  // ---- signed numbers in 64-bit words ----

  /** `(uint64_t)value` of a signed 64-bit number. */
  function ToWord(v: int): uint64
    requires -TWO63 <= v < TWO63
  {
    if v < 0 then v + TWO64 else v
  }

  /** The signed number that a word of `bits` bits holds. */
  function Signed(u: nat, bits: nat): int
    requires bits >= 1 && u < Pow2(bits)
  {
    if u < Pow2(bits - 1) then u else u - Pow2(bits)
  }

  /** The zigzag word as pb_encode_svarint computes it. */
  function ZigZag(v: int): uint64
    requires -TWO63 <= v < TWO63
  {
    if v < 0 then TWO64 - 1 - ToWord(v) * 2 % TWO64 else ToWord(v) * 2 % TWO64
  }

  /** The number as pb_decode_svarint computes it: the complement of the half for odd words. */
  function UnZigZag(u: uint64): (v: int)
    ensures -TWO63 <= v < TWO63
  {
    if u % 2 == 1 then TWO64 - 1 - u / 2 - TWO64 else u / 2
  }

  /** Zigzag maps 0, -1, 1, -2, ... to 0, 1, 2, 3, ... and back. */
  lemma {:induction false} ZigZagRoundTrip(v: int)
    requires -TWO63 <= v < TWO63
    ensures ZigZag(v) == if v >= 0 then 2 * v else -2 * v - 1
    ensures UnZigZag(ZigZag(v)) == v
  {}

  /** `n` is a signed number of `size` bytes. */
  predicate SignedFits(n: int, size: nat) {
    size >= 1 && 0 <= n + Pow2(8 * size - 1) < Pow2(8 * size)
  }

  predicate UnsignedFits(n: int, size: nat) {
    0 <= n < Pow2(8 * size)
  }

  predicate IntSize(size: nat) {
    size == 1 || size == 2 || size == 4 || size == 8
  }

  // ---- fixed-width numbers ----

  /** The `k` low bytes of `n`, least significant first. */
  function LittleEndian(n: nat, k: nat): (b: seq<byte>)
    ensures |b| == k
  {
    if k == 0 then [] else [n % 256] + LittleEndian(n / 256, k - 1)
  }

  function FromLittleEndian(b: seq<byte>): nat {
    if b == [] then 0 else b[0] + 256 * FromLittleEndian(b[1..])
  }

  lemma {:induction false} FixedRoundTrip(n: nat, k: nat)
    requires n < Pow2(8 * k)
    ensures FromLittleEndian(LittleEndian(n, k)) == n
  {
    if k > 0 {
      Pow2Bytes();
      Pow2Add(8, 8 * (k - 1));
      FixedRoundTrip(n / 256, k - 1);
      assert LittleEndian(n, k)[1..] == LittleEndian(n / 256, k - 1);
    }
  }

  lemma {:induction false} FromLittleEndianBound(b: seq<byte>)
    ensures FromLittleEndian(b) < Pow2(8 * |b|)
  {
    if b != [] {
      Pow2Bytes();
      Pow2Add(8, 8 * (|b| - 1));
      FromLittleEndianBound(b[1..]);
    }
  }

  // ---- reading on ----

  /** Bytes appended after a complete varint are left unread. */
  lemma {:induction false} VarintExtends(b: seq<byte>, more: seq<byte>, bitpos: nat, acc: nat)
    requires acc < TWO64 && VarintFrom(b, bitpos, acc).Some?
    ensures VarintFrom(b + more, bitpos, acc)
         == Some((VarintFrom(b, bitpos, acc).value.0, VarintFrom(b, bitpos, acc).value.1 + more))
    decreases |b|
  {
    assert (b + more)[1..] == b[1..] + more;
    if b[0] >= 128 {
      VarintExtends(b[1..], more, bitpos + 7, (acc + b[0] % 128 * Pow2(bitpos)) % TWO64);
    }
  }

  lemma {:induction false} Varint32MoreExtends(b: seq<byte>, more: seq<byte>, bitpos: nat, acc: nat)
    requires acc < TWO32 && Varint32From(b, bitpos, acc).Some?
    ensures Varint32From(b + more, bitpos, acc)
         == Some((Varint32From(b, bitpos, acc).value.0, Varint32From(b, bitpos, acc).value.1 + more))
    decreases |b|
  {
    assert (b + more)[1..] == b[1..] + more;
    if b[0] >= 128 {
      Varint32MoreExtends(b[1..], more, bitpos + 7,
                          if bitpos >= 32 then acc else (acc + b[0] % 128 * Pow2(bitpos)) % TWO32);
    }
  }

  lemma {:induction false} Varint32Extends(b: seq<byte>, more: seq<byte>)
    requires DecodeVarint32(b).Some?
    ensures DecodeVarint32(b + more) == Some((DecodeVarint32(b).value.0, DecodeVarint32(b).value.1 + more))
  {
    assert (b + more)[1..] == b[1..] + more;
    if b[0] >= 128 {
      Varint32MoreExtends(b[1..], more, 7, b[0] % 128);
    }
  }
}
