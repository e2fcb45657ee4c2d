/** Readers without their writers: every varint, skipping, and byte strings of the Protocol Buffers Encoding
    specification. */
module PbExamples {
  import opened Bits
  import opened Wire
  import opened PbTypes
  import opened PbFormat
  import opened PbParse
  import opened PbPresence
  import T = PbTrip

  // ---- varints of any form ----

  /** The first byte without the top bit is at position `k`. */
  predicate Terminated(b: seq<byte>, k: nat) {
    k < |b| && b[k] < 128 && forall i :: 0 <= i < k ==> b[i] >= 128
  }

  /** The groups of seven bits of the bytes from `i` to `k`, least significant first. */
  function Groups(b: seq<byte>, i: nat, k: nat): nat
    requires k < |b|
    decreases k + 1 - i
  {
    if i > k then 0 else b[i] % 128 + 128 * Groups(b, i + 1, k)
  }

  /** What the bytes from `i` on add to a number. */
  function Weight(b: seq<byte>, i: nat, k: nat): int
    requires k < |b|
  {
    Groups(b, i, k) * Pow2(7 * i)
  }

  lemma {:induction false} VarintFromGroups(b: seq<byte>, i: nat, k: nat, acc: nat)
    requires Terminated(b, k) && i <= k && acc < TWO64
    ensures VarintFrom(b[i..], 7 * i, acc) == if k < 10 then Some(((acc + Weight(b, i, k)) % TWO64, b[k + 1..])) else None
    decreases k - i
  {
    hide VarintFrom, Pow2, Weight;
    if 7 * i >= 64 {
      TenGroups(i, k);
      VarintFails(b[i..], 7 * i, acc);
    } else {
      var acc' := VarintAdds(b[i..], 7 * i, acc);
      assert b[i..][1..] == b[i + 1..] && b[i..][0] == b[i];
      if i < k {
        VarintFromGroups(b, i + 1, k, acc');
        WeightStep(b, i, k);
        if k < 10 {
          ReduceSum(acc + Place(b[i], 7 * i), Weight(b, i + 1, k), TWO64);
        }
      } else {
        WeightEnd(b, k);
      }
    }
  }

  /** A byte at its place. */
  function Place(x: byte, bitpos: nat): int {
    x % 128 * Pow2(bitpos)
  }

  lemma {:induction false} VarintAdds(b: seq<byte>, bitpos: nat, acc: nat) returns (acc': nat)
    requires acc < TWO64 && b != [] && bitpos < 64
    ensures acc' == (acc + Place(b[0], bitpos)) % TWO64 && acc' < TWO64
    ensures VarintFrom(b, bitpos, acc) == if b[0] < 128 then Some((acc', b[1..])) else VarintFrom(b[1..], bitpos + 7, acc')
  {
    NotNegative(b[0] % 128, Pow2(bitpos));
    acc' := (acc + Place(b[0], bitpos)) % TWO64;
  }

  lemma {:induction false} VarintFails(b: seq<byte>, bitpos: nat, acc: nat)
    requires acc < TWO64 && bitpos >= 64
    ensures VarintFrom(b, bitpos, acc) == None
  {}

  lemma {:induction false} WeightStep(b: seq<byte>, i: nat, k: nat)
    requires i < k < |b|
    ensures Weight(b, i, k) == Place(b[i], 7 * i) + Weight(b, i + 1, k)
  {
    NextPower(i);
    SplitGroups(b[i] % 128, Groups(b, i + 1, k), Pow2(7 * i));
    hide Pow2;
  }

  lemma {:induction false} WeightEnd(b: seq<byte>, k: nat)
    requires k < |b|
    ensures Weight(b, k, k) == Place(b[k], 7 * k)
  {
    hide Pow2;
    assert Groups(b, k, k) == b[k] % 128;
  }

  lemma {:induction false} TenGroups(i: nat, k: nat)
    requires 7 * i >= 64 && i <= k
    ensures k >= 10
  {}

  lemma {:induction false} NotNegative(a: nat, b: nat)
    ensures 0 <= a * b
  {}

  lemma {:induction false} NextPower(i: nat)
    ensures Pow2(7 * (i + 1)) == 0x80 * Pow2(7 * i)
  {
    Pow2Add(7, 7 * i);
    Pow2Bytes();
  }

  lemma {:induction false} SplitGroups(a: nat, g: nat, p: nat)
    ensures 0 <= g * (0x80 * p) && (a + 128 * g) * p == a * p + g * (0x80 * p) && 0 <= (a + 128 * g) * p
  {}

  lemma {:induction false} ReduceSum(x: int, y: int, m: nat)
    requires m > 0
    ensures (x % m + y) % m == (x + y) % m
  {
    DivModOf(x, m);
    ModPlusMultiple(x % m + y, x / m, m);
  }

  /** pb_decode_varint on any input: with the last byte among the first ten it gives the groups of seven bits put
      together, modulo 2^64, in however many bytes they come; otherwise it fails. */
  lemma {:induction false} VarintExactly(b: seq<byte>, k: nat)
    requires Terminated(b, k)
    ensures DecodeVarint(b) == if k < 10 then Some((Groups(b, 0, k) % TWO64, b[k + 1..])) else None
  {
    VarintFromGroups(b, 0, k, 0);
    assert b[0..] == b && Pow2(0) == 1;
    assert Weight(b, 0, k) == Groups(b, 0, k);
  }

  /** Without a last byte there is no varint. */
  lemma {:induction false} NoVarint(b: seq<byte>, bitpos: nat, acc: nat)
    requires acc < TWO64 && forall i :: 0 <= i < |b| ==> b[i] >= 128
    ensures VarintFrom(b, bitpos, acc) == None && SkipVarint(b) == None
    decreases |b|
  {
    if b != [] {
      NotNegative(b[0] % 128, Pow2(bitpos));
      DivModOf(acc + b[0] % 128 * Pow2(bitpos), TWO64);
      NoVarint(b[1..], bitpos + 7, (acc + b[0] % 128 * Pow2(bitpos)) % TWO64);
    }
  }

  // ---- varints of 32 bits ----

  /** A byte whose seven bits lie above bit 32: no bits, or the sign extension of a number with bit 31 set. */
  predicate Above(number: nat, i: nat, x: byte) {
    x % 128 == 0 || (number >= TWO31 && x == if i < 9 then 0xFF else 0x01)
  }

  predicate AllAbove(b: seq<byte>, number: nat, i: nat, k: nat)
    requires k < |b|
  {
    forall j :: i <= j <= k ==> Above(number, j, b[j])
  }

  lemma {:induction false} AboveFrom(b: seq<byte>, i: nat, k: nat, acc: nat)
    requires Terminated(b, k) && 5 <= i <= k && acc < TWO32
    ensures Varint32From(b[i..], 7 * i, acc) == if AllAbove(b, acc, i, k) then Some((acc, b[k + 1..])) else None
    decreases k - i
  {
    assert b[i..][1..] == b[i + 1..] && b[i..][0] == b[i];
    if i < k {
      AboveFrom(b, i + 1, k, acc);
      assert AllAbove(b, acc, i, k) <==> Above(acc, i, b[i]) && AllAbove(b, acc, i + 1, k);
    }
    Varint32Above(b[i..], i, acc);
    hide Varint32From;
  }

  lemma {:induction false} Varint32Above(b: seq<byte>, i: nat, acc: nat)
    requires b != [] && i >= 5 && acc < TWO32
    ensures Varint32From(b, 7 * i, acc)
         == if !Above(acc, i, b[0]) then None else if b[0] >= 128 then Varint32From(b[1..], 7 * (i + 1), acc) else Some((acc, b[1..]))
  {
    assert 7 * (i + 1) == 7 * i + 7;
  }

  lemma {:induction false} Varint32Adds(b: seq<byte>, i: nat, acc: nat) returns (acc': nat)
    requires b != [] && i <= 4 && acc < TWO32
    ensures acc' == (acc + Place(b[0], 7 * i)) % TWO32 && acc' < TWO32
    ensures Varint32From(b, 7 * i, acc)
         == if b[0] >= 128 then Varint32From(b[1..], 7 * (i + 1), acc')
            else if i == 4 && b[0] >= 16 then None else Some((acc', b[1..]))
  {
    NotNegative(b[0] % 128, Pow2(7 * i));
    acc' := (acc + Place(b[0], 7 * i)) % TWO32;
    assert 7 * (i + 1) == 7 * i + 7;
  }

  function Fifth(k: nat): nat {
    if k < 4 then k else 4
  }

  lemma {:induction false} NothingAbove(b: seq<byte>, k: nat)
    requires k < |b|
    ensures k < 5 ==> forall number: nat :: AllAbove(b, number, 5, k)
  {}

  lemma {:induction false} Varint32FromGroups(b: seq<byte>, i: nat, k: nat, acc: nat)
    requires Terminated(b, k) && i <= Fifth(k) && acc < TWO32
    ensures var number := (acc + Weight(b, i, Fifth(k))) % TWO32;
      Varint32From(b[i..], 7 * i, acc) == if (k == 4 ==> b[4] < 16) && AllAbove(b, number, 5, k) then Some((number, b[k + 1..])) else None
    decreases k - i
  {
    hide Varint32From, Pow2, Weight, AllAbove, Place;
    NothingAbove(b, k);
    var acc' := Varint32Adds(b[i..], i, acc);
    assert b[i..][1..] == b[i + 1..] && b[i..][0] == b[i];
    if i < Fifth(k) {
      Varint32FromGroups(b, i + 1, k, acc');
      WeightStep(b, i, Fifth(k));
      ReduceSum(acc + Place(b[i], 7 * i), Weight(b, i + 1, Fifth(k)), TWO32);
    } else {
      WeightEnd(b, Fifth(k));
      if i < k {
        AboveFrom(b, 5, k, acc');
      }
    }
  }

  /** The reader of keys and lengths on any input: the number is taken modulo 2^32 from the first five groups. It is
      refused exactly when the fifth byte is the last and has bits above bit 32, or a later byte has bits that are not
      the sign extension. */
  lemma {:induction false} Varint32Exactly(b: seq<byte>, k: nat)
    requires Terminated(b, k)
    ensures var number := Groups(b, 0, Fifth(k)) % TWO32;
      DecodeVarint32(b) == if (k == 4 ==> b[4] < 16) && AllAbove(b, number, 5, k) then Some((number, b[k + 1..])) else None
  {
    assert b[0..] == b;
    Varint32FromGroups(b, 0, k, 0);
    WeightOfAll(b, Fifth(k));
    Varint32First(b);
    hide Varint32From, DecodeVarint32, AllAbove, Groups, Weight;
  }

  lemma {:induction false} WeightOfAll(b: seq<byte>, k: nat)
    requires k < |b|
    ensures Weight(b, 0, k) == Groups(b, 0, k)
  {
    assert Pow2(0) == 1;
  }

  lemma {:induction false} Varint32First(b: seq<byte>)
    requires b != []
    ensures DecodeVarint32(b) == Varint32From(b, 0, 0)
  {
    assert Pow2(0) == 1;
  }

  /** The bits of the fifth byte above bit 32 are overlooked where more bytes follow: this is the number 7 * 2^32, and
      it is read as 0. */
  lemma {:induction false} OverflowMissed()
    ensures var b: seq<byte> := [0x80, 0x80, 0x80, 0x80, 0xF0, 0x00];
      DecodeVarint32(b) == Some((0, [])) && DecodeVarint(b) == Some((7 * TWO32, []))
  {
    hide *;
    var b: seq<byte> := [0x80, 0x80, 0x80, 0x80, 0xF0, 0x00];
    SixBytesEnd(b);
    Varint32Exactly(b, 5);
    VarintExactly(b, 5);
    GroupsOfSix(b);
    SevenTimes();
  }

  lemma {:induction false} SevenTimes()
    ensures Fifth(5) == 4 && 7 * TWO32 % TWO32 == 0 && 7 * TWO32 % TWO64 == 7 * TWO32
  {}

  lemma {:induction false} SixBytesEnd(b: seq<byte>)
    requires b == [0x80, 0x80, 0x80, 0x80, 0xF0, 0x00]
    ensures Terminated(b, 5) && AllAbove(b, 0, 5, 5) && b[6..] == []
  {}

  lemma {:induction false} GroupsOfSix(b: seq<byte>)
    requires b == [0x80, 0x80, 0x80, 0x80, 0xF0, 0x00]
    ensures Groups(b, 0, 5) == 7 * TWO32 && Groups(b, 0, 4) == 7 * TWO32
  {
    assert Groups(b, 5, 5) == 0 && Groups(b, 5, 4) == 0;
    assert Groups(b, 4, 5) == 0x70 && Groups(b, 4, 4) == 0x70;
    assert Groups(b, 3, 5) == 0x3800 && Groups(b, 3, 4) == 0x3800;
    assert Groups(b, 2, 5) == 0x1C_0000 && Groups(b, 2, 4) == 0x1C_0000;
    assert Groups(b, 1, 5) == 0xE00_0000 && Groups(b, 1, 4) == 0xE00_0000;
  }

  // ---- skipping ----

  /** Skipping takes a varint of any length. */
  lemma {:induction false} SkipVarintExactly(b: seq<byte>, k: nat)
    requires Terminated(b, k)
    ensures SkipVarint(b) == Some(b[k + 1..])
    decreases k
  {
    if k > 0 {
      SkipVarintExactly(b[1..], k - 1);
      assert b[1..][k..] == b[k + 1..];
    }
  }

  lemma {:induction false} VarintTerminated(v: nat, tail: seq<byte>)
    ensures Terminated(Varint(v) + tail, |Varint(v)| - 1)
    decreases v
  {
    if v >= 128 {
      VarintTerminated(v / 128, tail);
      var b, c := Varint(v) + tail, Varint(v / 128) + tail;
      assert b == [v % 128 + 128] + c;
      assert forall i :: 1 <= i < |Varint(v)| ==> b[i] == c[i - 1];
    }
  }

  /** Skipping a value of the wire type in which it was encoded leaves exactly what follows it. */
  lemma {:induction false} SkipsEncoded(f: Field, v: Value, e: seq<byte>, tail: seq<byte>)
    requires ItemShape(f, v) && EncodeItem(f, v) == Some(e) && |e| < TWO32
    ensures SkipField(WireType(f.ltype), e + tail) == Some(tail)
  {
    hide Varint, EncodeFrom, SkipField, LittleEndian, ToWord, ZigZag, Delimited, MessageShape;
    match f.ltype
    case VARINT => SkipsVarint(ToWord(v.n), tail);
    case UVARINT => SkipsVarint(v.n, tail);
    case SVARINT => SkipsVarint(ZigZag(v.n), tail);
    case FIXED32 => SkipsFixed(e, tail);
    case FIXED64 => SkipsFixed(e, tail);
    case SUBMESSAGE(sub) => SkipsDelimited(EncodeFrom(sub, v.slots, 0).value, tail);
    case _ => SkipsDelimited(v.b, tail);
  }

  lemma {:induction false} SkipsFixed(e: seq<byte>, tail: seq<byte>)
    ensures |e| == 4 ==> SkipField(WT_32BIT, e + tail) == Some(tail)
    ensures |e| == 8 ==> SkipField(WT_64BIT, e + tail) == Some(tail)
  {
    assert (e + tail)[|e|..] == tail;
  }

  lemma {:induction false} SkipsDelimited(content: seq<byte>, tail: seq<byte>)
    requires |Delimited(content)| < TWO32
    ensures SkipField(WT_STRING, Delimited(content) + tail) == Some(tail)
  {
    T.DelimitedRoundTrip(content, tail);
    hide Varint, TakeDelimited;
  }

  lemma {:induction false} SkipsVarint(n: nat, tail: seq<byte>)
    ensures SkipField(WT_VARINT, Varint(n) + tail) == Some(tail)
  {
    VarintTerminated(n, tail);
    SkipVarintExactly(Varint(n) + tail, |Varint(n)| - 1);
    assert (Varint(n) + tail)[|Varint(n)|..] == tail;
  }

  /** Groups and unassigned wire types cannot be skipped. */
  lemma {:induction false} SkipFails(wireType: nat, b: seq<byte>)
    requires wireType !in {0, 1, 2, 5}
    ensures SkipField(wireType, b) == None
  {}

  /** Only a key of zero ends a message; the field number zero with any other wire type is an ordinary key. */
  lemma {:induction false} KeyZero(w: byte, rest: seq<byte>)
    requires w < 8
    ensures DecodeTag([w] + rest) == if w == 0 then EndMark(rest) else Found(0, w, rest)
  {
    assert ([w] + rest)[1..] == rest;
  }

  // ---- delimited values ----

  lemma {:induction false} UpToNul(b: seq<byte>)
    ensures var s := CString(b);
      |s| <= |b| && s == b[..|s|] && 0 !in s && (|s| < |b| ==> b[|s|] == 0)
  {
    if b != [] && b[0] != 0 {
      UpToNul(b[1..]);
      var s := CString(b[1..]);
      assert b[..|s| + 1] == [b[0]] + b[1..][..|s|];
    }
  }

  /** Bytes are stored as they come, and a string up to its first NUL, exactly when there is room for them and one
      more; bytes of a fixed length exactly when they are that long, or none, which stands for zeros. */
  lemma {:induction false} DelimitedExactly(f: Field, was: Value, content: seq<byte>, tail: seq<byte>)
    requires WellFormedField(f) && (f.ltype.BYTES? || f.ltype.STRING? || f.ltype.FIXED_LENGTH_BYTES?) && |content| < TWO32
    ensures var r := DecodeItem(f, was, Delimited(content) + tail);
      && (r.Some? <==> if f.ltype.FIXED_LENGTH_BYTES? then content == [] || |content| == f.dataSize else |content| < f.dataSize)
      && (r.Some? ==> r.value.0.Blob? && r.value.1 == tail)
      && (r.Some? && f.ltype.BYTES? ==> r.value.0.b == content)
      && (r.Some? && f.ltype.STRING? ==> var s := r.value.0.b;
            |s| <= |content| && s == content[..|s|] && 0 !in s && (|s| < |content| ==> content[|s|] == 0))
      && (r.Some? && f.ltype.FIXED_LENGTH_BYTES? ==>
            |r.value.0.b| == f.dataSize && if content == [] then forall k :: 0 <= k < f.dataSize ==> r.value.0.b[k] == 0 else r.value.0.b == content)
  {
    T.DelimitedRoundTrip(content, tail);
    UpToNul(content);
    hide DecodeVarint32, Delimited, Take, CString;
    if f.ltype.FIXED_LENGTH_BYTES? && content == [] {
      assert content + tail == tail;
    }
  }

  // ---- numbers in members of 32 bits ----

  /** Which number a member takes from a varint: the one that agrees with it in the low 32 bits, or in all 64 for a
      member of eight bytes; stored exactly when the member can hold it. */
  lemma {:induction false} SignedExactly(f: Field, was: Value, b: seq<byte>, n: int)
    requires WellFormedField(f) && f.ltype.VARINT? && DecodeVarint(b).Some?
    requires if f.dataSize == 8 then -TWO63 <= n < TWO63 && (n - DecodeVarint(b).value.0) % TWO64 == 0
             else -TWO31 <= n < TWO31 && (n - DecodeVarint(b).value.0) % TWO32 == 0
    ensures DecodeItem(f, was, b) == if SignedFits(n, f.dataSize) then Some((Num(n), DecodeVarint(b).value.1)) else None
  {
    OneNumber(DecodeVarint(b).value.0, f.dataSize, n);
    hide DecodeVarint, SignedFits, VarintValue;
  }

  /** An unsigned member takes the whole varint, exactly when it can hold it; a zigzag member the number whose word it
      is, exactly when it can hold that. */
  lemma {:induction false} UnsignedExactly(f: Field, was: Value, b: seq<byte>, n: int)
    requires WellFormedField(f) && DecodeVarint(b).Some? && -TWO63 <= n < TWO63
    ensures f.ltype.UVARINT? ==> var u := DecodeVarint(b).value;
      DecodeItem(f, was, b) == if u.0 < Pow2(8 * f.dataSize) then Some((Num(u.0), u.1)) else None
    ensures f.ltype.SVARINT? && DecodeVarint(b).value.0 == (if n >= 0 then 2 * n else -2 * n - 1) ==>
      DecodeItem(f, was, b) == if SignedFits(n, f.dataSize) then Some((Num(n), DecodeVarint(b).value.1)) else None
  {
    ZigZagRoundTrip(n);
    hide DecodeVarint, SignedFits, Pow2, UnZigZag, ZigZag;
  }

  /** Members of fixed width take the number of their bytes, least significant first, and fail where bytes are missing. */
  lemma {:induction false} FixedExactly(f: Field, was: Value, b: seq<byte>, n: nat)
    requires WellFormedField(f) && (f.ltype.FIXED32? || f.ltype.FIXED64?)
    ensures var k := if f.ltype.FIXED32? then 4 else 8;
      && (DecodeItem(f, was, b).Some? <==> k <= |b|)
      && (k <= |b| && n < Pow2(8 * k) && b[..k] == LittleEndian(n, k) ==> DecodeItem(f, was, b) == Some((Num(n), b[k..])))
  {
    hide LittleEndian, FromLittleEndian, Pow2;
    var k := if f.ltype.FIXED32? then 4 else 8;
    if k <= |b| && n < Pow2(8 * k) && b[..k] == LittleEndian(n, k) {
      FixedRoundTrip(n, k);
    }
  }

  /** Where there is no varint, no number is taken. */
  lemma {:induction false} NoNumber(f: Field, was: Value, b: seq<byte>)
    requires WellFormedField(f) && (f.ltype.VARINT? || f.ltype.UVARINT? || f.ltype.SVARINT?) && DecodeVarint(b).None?
    ensures DecodeItem(f, was, b) == None
  {
    hide DecodeVarint;
  }

  lemma {:induction false} OneNumber(u: uint64, size: nat, n: int)
    requires if size == 8 then -TWO63 <= n < TWO63 && (n - u) % TWO64 == 0 else -TWO31 <= n < TWO31 && (n - u) % TWO32 == 0
    ensures VarintValue(u, size) == n
  {
    hide *;
    ValueIs(u, size);
    if size == 8 {
      CentredResidue(u, n, TWO64, TWO63);
    } else {
      CentredResidue(u, n, TWO32, TWO31);
    }
  }

  lemma {:induction false} ValueIs(u: uint64, size: nat)
    ensures VarintValue(u, size)
         == if size == 8 then (if u % TWO64 < TWO63 then u % TWO64 else u % TWO64 - TWO64)
            else if u % TWO32 < TWO31 then u % TWO32 else u % TWO32 - TWO32
  {
    HalfWords();
    hide Pow2;
  }

  lemma {:induction false} HalfWords()
    ensures Pow2(31) == TWO31 && Pow2(63) == TWO63 && Pow2(32) == TWO32 && Pow2(64) == TWO64
  {
    Pow2Literals();
    assert Pow2(32) == 2 * Pow2(31) && Pow2(64) == 2 * Pow2(63);
  }

  lemma {:induction false} CentredResidue(u: nat, n: int, m: int, half: int)
    requires (m == TWO32 && half == TWO31) || (m == TWO64 && half == TWO63)
    requires -half <= n < half && (n - u) % m == 0
    ensures n == if u % m < half then u % m else u % m - m
  {
    assert n - u == (n - u) / m * m && u == u / m * m + u % m;
    var k := (n - u) / m + u / m;
    assert n == u % m + k * m;
    if n >= 0 {
      assert k == 0;
    } else {
      assert k == -1;
    }
  }

  /** A negative number that another encoder has put into five bytes, as a word of 32 bits, is read as itself. */
  lemma {:induction false} FiveByteNegative(f: Field, was: Value, n: int, tail: seq<byte>)
    requires WellFormedField(f) && f.ltype.VARINT? && f.dataSize == 4 && -TWO31 <= n < 0
    ensures |Varint(n + TWO32)| == 5 && DecodeItem(f, was, Varint(n + TWO32) + tail) == Some((Num(n), tail))
  {
    FiveBytes(n + TWO32);
    VarintRoundTrip(n + TWO32, tail);
    NegativeWord(n);
    hide Varint, Pow2, Signed, SignedFits, DecodeVarint;
  }

  lemma {:induction false} FiveBytes(u: nat)
    requires TWO31 <= u < TWO32
    ensures |Varint(u)| == 5
  {
    Pow2Literals();
    Pow2Monotone(28, 31);
    Pow2Monotone(32, 35);
    assert Pow2(32) == 2 * Pow2(31);
    hide Pow2, Varint;
    VarintLength(u, 4);
    VarintLength(u, 5);
  }

  lemma {:induction false} NegativeWord(n: int)
    requires -TWO31 <= n < 0
    ensures VarintValue(n + TWO32, 4) == n && SignedFits(n, 4)
  {
    HalfWords();
    ValueIs(n + TWO32, 4);
    hide Pow2, VarintValue;
  }

  // ---- byte strings of the specification ----

  /** Encoding a message of one field is encoding the field. */
  lemma {:induction false} OnlyField(f: Field, s: Slot, e: seq<byte>)
    requires WellFormedField(f) && FieldShape(f, s) && EncodeField(f, s) == Some(e)
    ensures WellFormed([f]) && MessageShape([f], [s]) && EncodeMessage([f], [s]) == Some(e)
  {
    hide FieldShape, EncodeField, WellFormedField;
    Alone(f, s);
  }

  /** 150 in a varint field 1: 08 96 01. */
  lemma {:induction false} Varint150()
    ensures var f, s := Field(1, VARINT, REQUIRED, 0, 0, 4, 0, None), Slot(0, [Num(150)]);
      MessageShape([f], [s]) && EncodeMessage([f], [s]) == Some([0x08, 0x96, 0x01])
  {
    hide Varint, Pow2, SignedFits, ToWord, Key;
    var f, s := Field(1, VARINT, REQUIRED, 0, 0, 4, 0, None), Slot(0, [Num(150)]);
    Fits150();
    Bytes150();
    assert EncodeItem(f, Num(150)) == Some([0x96, 0x01]);
    assert [0x08] + [0x96, 0x01] == [0x08, 0x96, 0x01];
    OnlyField(f, s, [0x08, 0x96, 0x01]);
  }

  lemma {:induction false} Bytes150()
    ensures Varint(150) == [0x96, 0x01] && Key(1, WT_VARINT) == [0x08]
  {
    assert Varint(150) == [0x96] + [0x01] && [0x96] + [0x01] == [0x96, 0x01];
  }

  lemma {:induction false} Fits150()
    ensures SignedFits(150, 4) && ToWord(150) == 150
  {
    Pow2Monotone(8, 31);
    Pow2Bytes();
  }

  /** "testing" in a string field 2: 12 07 74 65 73 74 69 6E 67. */
  lemma {:induction false} StringTesting()
    ensures var f, s := Field(2, STRING, REQUIRED, 0, 0, 40, 0, None), Slot(0, [Blob([0x74, 0x65, 0x73, 0x74, 0x69, 0x6E, 0x67])]);
      MessageShape([f], [s]) && EncodeMessage([f], [s]) == Some([0x12, 0x07, 0x74, 0x65, 0x73, 0x74, 0x69, 0x6E, 0x67])
  {
    var t: seq<byte> := [0x74, 0x65, 0x73, 0x74, 0x69, 0x6E, 0x67];
    var f, s := Field(2, STRING, REQUIRED, 0, 0, 40, 0, None), Slot(0, [Blob(t)]);
    assert Delimited(t) == [0x07] + t && Tag(f) == [0x12];
    assert [0x12] + ([0x07] + t) == [0x12, 0x07, 0x74, 0x65, 0x73, 0x74, 0x69, 0x6E, 0x67];
    hide Varint;
    OnlyField(f, s, [0x12, 0x07, 0x74, 0x65, 0x73, 0x74, 0x69, 0x6E, 0x67]);
  }

  /** A message with 150 in its field 1, embedded in field 3: 1A 03 08 96 01. */
  lemma {:induction false} Embedded150()
    ensures var sub, m := [Field(1, VARINT, REQUIRED, 0, 0, 4, 0, None)], [Slot(0, [Num(150)])];
      var f, s := Field(3, SUBMESSAGE(sub), REQUIRED, 0, 0, 4, 0, None), Slot(0, [Struct(m)]);
      MessageShape([f], [s]) && EncodeMessage([f], [s]) == Some([0x1A, 0x03, 0x08, 0x96, 0x01])
  {
    var g, t := Field(1, VARINT, REQUIRED, 0, 0, 4, 0, None), Slot(0, [Num(150)]);
    var f, s := Field(3, SUBMESSAGE([g]), REQUIRED, 0, 0, 4, 0, None), Slot(0, [Struct([t])]);
    Varint150();
    Alone150(g, t);
    assert Delimited([0x08, 0x96, 0x01]) == [0x03] + [0x08, 0x96, 0x01] && Tag(f) == [0x1A];
    assert [0x1A] + ([0x03] + [0x08, 0x96, 0x01]) == [0x1A, 0x03, 0x08, 0x96, 0x01];
    hide Varint, EncodeFrom, MessageShape, WellFormed;
    OnlyField(f, s, [0x1A, 0x03, 0x08, 0x96, 0x01]);
  }

  lemma {:induction false} Alone150(g: Field, t: Slot)
    requires g == Field(1, VARINT, REQUIRED, 0, 0, 4, 0, None) && t == Slot(0, [Num(150)])
    ensures WellFormed([g]) && MessageShape([g], [t])
  {
    Fits150();
    assert WellFormedField(g) && FieldShape(g, t);
    Alone(g, t);
  }

  /** 3, 270 and 86942 packed in field 4: 22 06 03 8E 02 9E A7 05. */
  lemma {:induction false} PackedThree()
    ensures var f, s := Field(4, UVARINT, REPEATED, 0, 1, 4, 3, None), Slot(3, [Num(3), Num(270), Num(86942)]);
      MessageShape([f], [s]) && EncodeMessage([f], [s]) == Some([0x22, 0x06, 0x03, 0x8E, 0x02, 0x9E, 0xA7, 0x05])
  {
    var f, s := Field(4, UVARINT, REPEATED, 0, 1, 4, 3, None), Slot(3, [Num(3), Num(270), Num(86942)]);
    hide Varint, EncodeItems, Key, Delimited, UnsignedFits;
    ThreeItems(f);
    assert s.items[..3] == [Num(3), Num(270), Num(86942)];
    SixBytes();
    PackedKey();
    assert [0x22] + ([0x06] + [0x03, 0x8E, 0x02, 0x9E, 0xA7, 0x05]) == [0x22, 0x06, 0x03, 0x8E, 0x02, 0x9E, 0xA7, 0x05];
    OnlyField(f, s, [0x22, 0x06, 0x03, 0x8E, 0x02, 0x9E, 0xA7, 0x05]);
  }

  lemma {:induction false} PackedKey()
    ensures Key(4, WT_STRING) == [0x22]
  {}

  lemma {:induction false} SixBytes()
    ensures Delimited([0x03, 0x8E, 0x02, 0x9E, 0xA7, 0x05]) == [0x06] + [0x03, 0x8E, 0x02, 0x9E, 0xA7, 0x05]
  {}

  lemma {:induction false} ThreeItems(f: Field)
    requires f == Field(4, UVARINT, REPEATED, 0, 1, 4, 3, None)
    ensures ItemShape(f, Num(3)) && ItemShape(f, Num(270)) && ItemShape(f, Num(86942))
    ensures EncodeItems(f, [Num(3), Num(270), Num(86942)]) == Some([0x03, 0x8E, 0x02, 0x9E, 0xA7, 0x05])
  {
    WordFits(270);
    WordFits(3);
    WordFits(86942);
    hide UnsignedFits, Varint;
    assert Varint(3) == [0x03] && Varint(270) == [0x8E, 0x02] && Varint(86942) == [0x9E, 0xA7, 0x05] by { ThreeVarints(); }
    ItemBytes(f, [Num(3), Num(270), Num(86942)], [0x03]);
    ItemBytes(f, [Num(270), Num(86942)], [0x8E, 0x02]);
    ItemBytes(f, [Num(86942)], [0x9E, 0xA7, 0x05]);
    assert [Num(3), Num(270), Num(86942)][1..] == [Num(270), Num(86942)];
    assert [Num(270), Num(86942)][1..] == [Num(86942)] && [Num(86942)][1..] == [];
    assert EncodeItems(f, []) == Some([]) && [0x9E, 0xA7, 0x05] + [] == [0x9E, 0xA7, 0x05];
    assert EncodeItems(f, [Num(86942)]) == Some([0x9E, 0xA7, 0x05]);
    assert [0x8E, 0x02] + [0x9E, 0xA7, 0x05] == [0x8E, 0x02, 0x9E, 0xA7, 0x05];
    assert [0x03] + [0x8E, 0x02, 0x9E, 0xA7, 0x05] == [0x03, 0x8E, 0x02, 0x9E, 0xA7, 0x05];
  }

  lemma {:induction false} ItemBytes(f: Field, items: seq<Value>, e: seq<byte>)
    requires items != [] && (forall v | v in items :: ItemShape(f, v)) && f.ltype.UVARINT? && f.dataSize == 4
    requires items[0].Num? && items[0].n >= 0 && Varint(items[0].n) == e
    ensures EncodeItems(f, items) == Cat(Some(e), EncodeItems(f, items[1..]))
  {
    hide Varint;
  }

  lemma {:induction false} WordFits(n: nat)
    requires n < TWO31
    ensures UnsignedFits(n, 4)
  {
    Pow2Literals();
    hide Pow2;
  }

  lemma {:induction false} ThreeVarints()
    ensures Varint(3) == [0x03] && Varint(270) == [0x8E, 0x02] && Varint(86942) == [0x9E, 0xA7, 0x05]
  {
    assert Varint(2) == [2] && Varint(5) == [5] && Varint(679) == [0xA7] + [5];
    assert [0x8E] + [0x02] == [0x8E, 0x02] && [0x9E] + ([0xA7] + [0x05]) == [0x9E, 0xA7, 0x05];
  }

  /** 1 in a fixed32 field 5 and in a fixed64 field 6: 2D 01 00 00 00 and 31 01 00 00 00 00 00 00 00. */
  lemma {:induction false} FixedOnes()
    ensures var f, s := Field(5, FIXED32, REQUIRED, 0, 0, 4, 0, None), Slot(0, [Num(1)]);
      MessageShape([f], [s]) && EncodeMessage([f], [s]) == Some([0x2D, 1, 0, 0, 0])
    ensures var f, s := Field(6, FIXED64, REQUIRED, 0, 0, 8, 0, None), Slot(0, [Num(1)]);
      MessageShape([f], [s]) && EncodeMessage([f], [s]) == Some([0x31, 1, 0, 0, 0, 0, 0, 0, 0])
  {
    hide *;
    FixedOne(Field(5, FIXED32, REQUIRED, 0, 0, 4, 0, None), [0x2D], [1, 0, 0, 0]);
    FixedOne(Field(6, FIXED64, REQUIRED, 0, 0, 8, 0, None), [0x31], [1, 0, 0, 0, 0, 0, 0, 0]);
    assert [0x2D] + [1, 0, 0, 0] == [0x2D, 1, 0, 0, 0] && [0x31] + [1, 0, 0, 0, 0, 0, 0, 0] == [0x31, 1, 0, 0, 0, 0, 0, 0, 0];
  }

  lemma {:induction false} FixedOne(f: Field, key: seq<byte>, value: seq<byte>)
    requires || (f == Field(5, FIXED32, REQUIRED, 0, 0, 4, 0, None) && key == [0x2D] && value == [1, 0, 0, 0])
             || (f == Field(6, FIXED64, REQUIRED, 0, 0, 8, 0, None) && key == [0x31] && value == [1, 0, 0, 0, 0, 0, 0, 0])
    ensures MessageShape([f], [Slot(0, [Num(1)])]) && EncodeMessage([f], [Slot(0, [Num(1)])]) == Some(key + value)
  {
    hide Varint, LittleEndian, Key;
    OnesBytes();
    FixedKeys(f);
    OnlyField(f, Slot(0, [Num(1)]), key + value);
  }

  lemma {:induction false} FixedKeys(f: Field)
    ensures f.tag == 5 && f.ltype.FIXED32? ==> Tag(f) == [0x2D]
    ensures f.tag == 6 && f.ltype.FIXED64? ==> Tag(f) == [0x31]
  {}

  lemma {:induction false} OnesBytes()
    ensures LittleEndian(1, 4) == [1, 0, 0, 0] && LittleEndian(1, 8) == [1, 0, 0, 0, 0, 0, 0, 0]
  {
    ZeroBytes(3);
    ZeroBytes(7);
  }

  lemma {:induction false} ZeroBytes(k: nat)
    ensures |LittleEndian(0, k)| == k && forall i :: 0 <= i < k ==> LittleEndian(0, k)[i] == 0
  {
    if k > 0 {
      ZeroBytes(k - 1);
    }
  }
}
