/** The secure channel between the loader and a device: CBC encryption with ISO/IEC 9797-1 padding method 2,
    and in version 3 a truncated CBC-MAC, all with vectors that both ends carry on from message to message. */
module SecureChannel {
  import opened Sequences
  import opened Bits
  import opened Wire

  const BLOCK: nat := 16
  const SCP_MAC_LENGTH: nat := 14

  type Block = b: seq<byte> | |b| == 16 witness seq(16, _ => 0)

  /** A block cipher under some key. */
  datatype Cipher = Cipher(enc: Block -> Block, dec: Block -> Block)

  /** Encryption is a permutation of the blocks, undone by decryption. */
  ghost predicate Permutation(c: Cipher) {
    forall b: Block :: c.dec(c.enc(b)) == b
  }

  // ---- blocks ----

  function XorByte(a: byte, b: byte): byte {
    Pow2Bytes();
    XorBound(a, b, 8);
    Xor(a, b)
  }

  function XorBlock(a: Block, b: Block): Block {
    seq(16, i requires 0 <= i < 16 => XorByte(a[i], b[i]))
  }

  lemma {:induction false} XorBlockTwice(a: Block, b: Block)
    ensures XorBlock(XorBlock(a, b), b) == a
  {
    forall i | 0 <= i < 16 ensures XorBlock(XorBlock(a, b), b)[i] == a[i] {
      XorTwice(a[i], b[i]);
    }
  }

  predicate Aligned(b: seq<byte>) {
    |b| % 16 == 0
  }

  function CbcEncrypt(c: Cipher, iv: Block, p: seq<byte>): (e: seq<byte>)
    requires Aligned(p)
    ensures |e| == |p|
    decreases |p|
  {
    if p == [] then [] else
      var block := c.enc(XorBlock(p[..16], iv));
      block + CbcEncrypt(c, block, p[16..])
  }

  function CbcDecrypt(c: Cipher, iv: Block, e: seq<byte>): (p: seq<byte>)
    requires Aligned(e)
    ensures |p| == |e|
    decreases |e|
  {
    if e == [] then [] else XorBlock(c.dec(e[..16]), iv) + CbcDecrypt(c, e[..16], e[16..])
  }

  lemma {:induction false} CbcRoundTrip(c: Cipher, iv: Block, p: seq<byte>)
    requires Aligned(p) && Permutation(c)
    ensures CbcDecrypt(c, iv, CbcEncrypt(c, iv, p)) == p
    decreases |p|
  {
    if p != [] {
      var block: Block := c.enc(XorBlock(p[..16], iv));
      var e := CbcEncrypt(c, iv, p);
      assert e[..16] == block && e[16..] == CbcEncrypt(c, block, p[16..]);
      CbcRoundTrip(c, block, p[16..]);
      XorBlockTwice(p[..16], iv);
      assert p == p[..16] + p[16..];
    }
  }

  // ---- padding ----

  /** Zero bytes after the mark, up to the next block boundary. */
  function FillLength(n: nat): (k: nat)
    ensures k < 16 && (n + 1 + k) % 16 == 0
  {
    15 - n % 16
  }

  function Pad(data: seq<byte>): (p: seq<byte>)
    ensures Aligned(p) && |data| < |p| <= |data| + 16
  {
    data + [0x80] + Zeros(FillLength(|data|))
  }

  /** The last mark at or before position `l`. */
  function UnpadFrom(p: seq<byte>, l: int): (r: Option<seq<byte>>)
    requires -1 <= l < |p|
    decreases l + 1
  {
    if l == -1 then None else if p[l] == 0x80 then Some(p[..l]) else UnpadFrom(p, l - 1)
  }

  function Unpad(p: seq<byte>): Option<seq<byte>> {
    UnpadFrom(p, |p| - 1)
  }

  lemma {:induction false} UnpadReaches(p: seq<byte>, mark: nat, l: int)
    requires mark <= l < |p| && p[mark] == 0x80 && forall i :: mark < i <= l ==> p[i] == 0
    ensures UnpadFrom(p, l) == Some(p[..mark])
    decreases l
  {
    if l > mark {
      UnpadReaches(p, mark, l - 1);
    }
  }

  lemma {:induction false} PadRoundTrip(data: seq<byte>)
    ensures Unpad(Pad(data)) == Some(data)
  {
    UnpadReaches(Pad(data), |data|, |Pad(data)| - 1);
    assert Pad(data)[..|data|] == data;
  }

  // ---- the two ends ----

  datatype Keys = NoKeys | Version2(cipher: Cipher) | Version3(encryption: Cipher, mac: Cipher)

  /** What one end of the channel remembers. */
  datatype End = End(keys: Keys, iv: Block, encIv: Block, macIv: Block)

  ghost predicate Usable(keys: Keys) {
    match keys
    case NoKeys => true
    case Version2(c) => Permutation(c)
    case Version3(e, _) => Permutation(e)
  }

  function LastBlock(b: seq<byte>): Block
    requires |b| >= 16
  {
    b[|b| - 16..]
  }

  /** scpWrap. */
  function Wrap(a: End, data: seq<byte>): (End, seq<byte>) {
    if a.keys.NoKeys? || data == [] then (a, data)
    else
      match a.keys
      case Version2(c) =>
        var e := CbcEncrypt(c, a.iv, Pad(data));
        (a.(iv := LastBlock(e)), e)
      case Version3(encryption, mac) =>
        var e := CbcEncrypt(encryption, a.encIv, Pad(data));
        var m := LastBlock(CbcEncrypt(mac, a.macIv, e));
        (a.(encIv := LastBlock(e), macIv := m), e + m[16 - SCP_MAC_LENGTH..])
  }

  /** scpUnwrap; None where it raises an exception. A reply of two bytes is a bare status and passes as it is.
      The library refuses data that is not a whole number of blocks. */
  function Unwrap(b: End, data: seq<byte>): (End, Option<seq<byte>>) {
    if b.keys.NoKeys? || data == [] || |data| == 2 then (b, Some(data))
    else
      match b.keys
      case Version2(c) =>
        if !Aligned(data) then (b, None)
        else
          var plain := Unpad(CbcDecrypt(c, b.iv, data));
          (if plain.Some? then b.(iv := LastBlock(data)) else b, plain)
      case Version3(encryption, mac) =>
        if |data| < SCP_MAC_LENGTH + 16 || !Aligned(data[..|data| - SCP_MAC_LENGTH]) then (b, None)
        else
          var e, tag := data[..|data| - SCP_MAC_LENGTH], data[|data| - SCP_MAC_LENGTH..];
          var m := LastBlock(CbcEncrypt(mac, b.macIv, e));
          if m[16 - SCP_MAC_LENGTH..] != tag then (b.(macIv := m), None)
          else (b.(macIv := m, encIv := LastBlock(e)), Unpad(CbcDecrypt(encryption, b.encIv, e)))
  }

  /** What one end wraps the other end unwraps, and the two stay in step. */
  lemma {:induction false} Delivered(end: End, data: seq<byte>)
    requires Usable(end.keys)
    ensures Unwrap(end, Wrap(end, data).1) == (Wrap(end, data).0, Some(data))
  {
    if end.keys.NoKeys? || data == [] {
    } else {
      PadRoundTrip(data);
      match end.keys
      case Version2(c) => CbcRoundTrip(c, end.iv, Pad(data));
      case Version3(encryption, mac) =>
        CbcRoundTrip(encryption, end.encIv, Pad(data));
        var e := CbcEncrypt(encryption, end.encIv, Pad(data));
        var tag := LastBlock(CbcEncrypt(mac, end.macIv, e))[16 - SCP_MAC_LENGTH..];
        assert (e + tag)[..|e|] == e && (e + tag)[|e|..] == tag;
    }
  }

  // ---- conversations ----

  /** A payload with its direction. */
  datatype Message = FromHost(data: seq<byte>) | FromDevice(data: seq<byte>)

  /** A run of the channel: the two ends after it, and what each receiver got. */
  function Talk(host: End, device: End, messages: seq<Message>): (End, End, seq<Option<seq<byte>>>)
    decreases |messages|
  {
    if messages == [] then (host, device, [])
    else
      match messages[0]
      case FromHost(data) =>
        var (h, wrapped) := Wrap(host, data);
        var (d, got) := Unwrap(device, wrapped);
        var (h', d', rest) := Talk(h, d, messages[1..]);
        (h', d', [got] + rest)
      case FromDevice(data) =>
        var (d, wrapped) := Wrap(device, data);
        var (h, got) := Unwrap(host, wrapped);
        var (h', d', rest) := Talk(h, d, messages[1..]);
        (h', d', [got] + rest)
  }

  function Payloads(messages: seq<Message>): seq<Option<seq<byte>>> {
    seq(|messages|, i requires 0 <= i < |messages| => Some(messages[i].data))
  }

  /** Ends that start with the same keys and vectors deliver every sequence of payloads in either direction
      unchanged, without an exception, and still agree afterwards. */
  lemma {:induction false} Conversation(end: End, messages: seq<Message>)
    requires Usable(end.keys)
    ensures var (h, d, got) := Talk(end, end, messages);
      h == d && h.keys == end.keys && got == Payloads(messages)
    decreases |messages|
  {
    if messages != [] {
      var data := messages[0].data;
      Delivered(end, data);
      KeysKept(end, data);
      var next := Wrap(end, data).0;
      hide Wrap, Unwrap;
      Conversation(next, messages[1..]);
      assert Payloads(messages) == [Some(data)] + Payloads(messages[1..]);
    }
  }

  lemma {:induction false} KeysKept(end: End, data: seq<byte>)
    ensures Wrap(end, data).0.keys == end.keys
  {}

  // ---- HexLoader ----

  /** The channel part of HexLoader. The CBC modes are the library's. */
  class HexLoader {
    const keys: Keys
    var iv: Block
    var scpEncIv: Block
    var scpMacIv: Block

    ghost function Now(): End
      reads this
    {
      End(keys, iv, scpEncIv, scpMacIv)
    }

    constructor (k: Keys)
      ensures keys == k && Now() == End(k, Zeros(16), Zeros(16), Zeros(16))
    {
      keys, iv, scpEncIv, scpMacIv := k, Zeros(16), Zeros(16), Zeros(16);
    }

    method PadLoop(data: seq<byte>) returns (paddedData: seq<byte>)
      ensures paddedData == Pad(data)
    {
      paddedData := data + [0x80];
      ghost var k := 0;
      while |paddedData| % 16 != 0
        invariant k <= FillLength(|data|) && paddedData == data + [0x80] + Zeros(k)
        decreases FillLength(|data|) - k
      {
        PadNotYet(|data|, k);
        assert Zeros(k) + [0] == Zeros(k + 1);
        assert (data + [0x80] + Zeros(k)) + [0] == data + [0x80] + (Zeros(k) + [0]);
        paddedData := paddedData + [0];
        k := k + 1;
      }
      PadDone(|data|, k);
    }

    /** The scan for the padding mark; None where it raises an exception. */
    method UnpadLoop(data: seq<byte>) returns (r: Option<seq<byte>>)
      requires data != []
      ensures r == Unpad(data)
    {
      var l := |data| - 1;
      while data[l] != 0x80
        invariant 0 <= l < |data|
        invariant Unpad(data) == UnpadFrom(data, l)
        decreases l
      {
        l := l - 1;
        if l == -1 {
          return None;
        }
      }
      return Some(data[..l]);
    }

    method ScpWrap(data: seq<byte>) returns (wrapped: seq<byte>)
      modifies this
      ensures (Now(), wrapped) == Wrap(old(Now()), data)
    {
      if keys.NoKeys? || |data| == 0 {
        return data;
      }
      var paddedData := PadLoop(data);
      match keys
      case Version3(encryption, mac) =>
        var encryptedData := CbcEncrypt(encryption, scpEncIv, paddedData);
        scpEncIv := LastBlock(encryptedData);
        var macData := CbcEncrypt(mac, scpMacIv, encryptedData);
        scpMacIv := LastBlock(macData);
        wrapped := encryptedData + scpMacIv[16 - SCP_MAC_LENGTH..];
      case Version2(cipher) =>
        wrapped := CbcEncrypt(cipher, iv, paddedData);
        iv := LastBlock(wrapped);
    }

    /** None where an exception is raised. */
    method ScpUnwrap(data: seq<byte>) returns (decryptedData: Option<seq<byte>>)
      modifies this
      ensures (Now(), decryptedData) == Unwrap(old(Now()), data)
    {
      if keys.NoKeys? || |data| == 0 || |data| == 2 {
        return Some(data);
      }
      match keys
      case Version3(encryption, mac) =>
        if |data| < SCP_MAC_LENGTH + 16 || !Aligned(data[..|data| - SCP_MAC_LENGTH]) {
          return None;
        }
        var e := data[..|data| - SCP_MAC_LENGTH];
        var macData := CbcEncrypt(mac, scpMacIv, e);
        scpMacIv := LastBlock(macData);
        if scpMacIv[16 - SCP_MAC_LENGTH..] != data[|data| - SCP_MAC_LENGTH..] {
          return None;
        }
        var plain := CbcDecrypt(encryption, scpEncIv, e);
        scpEncIv := LastBlock(e);
        decryptedData := UnpadLoop(plain);
      case Version2(cipher) =>
        if !Aligned(data) {
          return None;
        }
        decryptedData := UnpadLoop(CbcDecrypt(cipher, iv, data));
        if decryptedData.Some? {
          iv := LastBlock(data);
        }
    }
  }

  lemma {:induction false} PadNotYet(n: nat, k: nat)
    requires k <= FillLength(n) && (n + 1 + k) % 16 != 0
    ensures k < FillLength(n)
  {}

  lemma {:induction false} PadDone(n: nat, k: nat)
    requires k <= FillLength(n) && (n + 1 + k) % 16 == 0
    ensures k == FillLength(n)
  {}
}
