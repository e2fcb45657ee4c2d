/** The host side of a signing session: the chunking loop of sendApdu against the device. */
module SigningHost {
  import opened Bits
  import opened Wire
  import opened Signing
  import opened SigningRun
  import opened SigningDevice

  const EXCHANGE_CHUNK_SIZE: nat := 255

  /** Buffer.slice: the end is cut at the length. */
  function Slice(b: seq<byte>, from: nat, to: nat): seq<byte>
    requires from <= |b| && from <= to
  {
    b[from..if to <= |b| then to else |b|]
  }

  /** Exchanges of a session that goes through: the chunks, and the empty one. */
  function Exchanges(n: nat): nat {
    (n + 254) / 255 + 1
  }

  /** The bytes sent after `count` chunks. */
  ghost predicate SentAll(n: nat, offset: nat, count: nat) {
    offset == (if 255 * count <= n then 255 * count else n) && (count > 0 ==> 255 * (count - 1) < n)
  }

  lemma {:induction false} NextChunk(n: nat, offset: nat, count: nat)
    requires SentAll(n, offset, count) && offset < n
    ensures SentAll(n, if offset + 255 <= n then offset + 255 else n, count + 1)
  {}

  lemma {:induction false} LastChunk(n: nat, count: nat)
    requires SentAll(n, n, count)
    ensures count + 1 == Exchanges(n)
  {}

  /** transport.send: the reply, or None where it throws because the status word is not success. */
  method Send(device: Device, p1: byte, p2: byte, chunk: seq<byte>) returns (reply: Option<seq<byte>>)
    requires device.Valid() && |chunk| <= 255
    modifies device, device.msgBody
    ensures device.Valid()
    ensures var r := Exchange(device.keys, old(device.Now()), Header(p1, p2, chunk));
      device.Now() == r.0 && (reply.Some? <==> Accepted(r.1)) && (reply.Some? ==> reply == r.1)
  {
    reply := device.Exchange([CLA, INS_SIGN_MESSAGE, p1, p2, |chunk|] + chunk);
    if reply.Some? && !(|reply.value| >= 2 && reply.value[|reply.value| - 2..] == StatusBytes(SW_OK)) {
      reply := None;
    }
  }

  /** The data with which the loop ends. */
  ghost predicate Finished(k: Keys, path: seq<uint32>, message: seq<byte>, data: seq<byte>, exchanges: nat)
    requires ValidPath(path)
  {
    && |PathBytes(path) + message| <= MAX_MSG_SIZE && exchanges == Exchanges(|PathBytes(path) + message|)
    && data == k.sign(path, k.hash(message)) + [0] + [0x90, 0x00]
  }

  lemma {:induction false} Truncated(k: Keys, path: seq<uint32>, message: seq<byte>, data: seq<byte>, exchanges: nat)
    requires ValidPath(path) && Finished(k, path, message, data, exchanges)
    ensures |data| >= 3 && data[..|data| - 3] == k.sign(path, k.hash(message))
    ensures |PathBytes(path) + message| <= MAX_MSG_SIZE && exchanges == Exchanges(|PathBytes(path) + message|)
  {
    hide PathBytes, Exchanges;
  }

  /** The chunks up to `offset` are collected. */
  ghost predicate Sending(c: Context, buffer: seq<byte>, offset: nat, count: nat) {
    && Good(c) && offset <= |buffer| && offset <= MAX_MSG_SIZE
    && SentAll(|buffer|, offset, count) && Collected(c) == buffer[..offset]
  }

  lemma {:induction false} Starts(buffer: seq<byte>)
    ensures Sending(Cleared(), buffer, 0, 0)
  {
    assert Collected(Cleared()) == [] == buffer[..0];
  }

  /** What becomes of a chunk that is not empty. */
  lemma {:induction false} ChunkSent(k: Keys, c: Context, buffer: seq<byte>, offset: nat, count: nat, chunk: seq<byte>)
    requires Sized(k) && Sending(c, buffer, offset, count) && offset < |buffer|
    requires chunk == Slice(buffer, offset, offset + EXCHANGE_CHUNK_SIZE)
    ensures 0 < |chunk| <= 255
    ensures var r := Exchange(k, c, Header(P1_SILENT, P2_MORE, chunk));
      if Accepted(r.1)
      then r.1 == Some([0x90, 0x00]) && Sending(r.0, buffer, offset + |chunk|, count + 1)
      else |buffer| > MAX_MSG_SIZE && r.0 == Cleared()
  {
    hide Exchange, Cleared, Header, SentAll, Accepted;
    ChunkStep(k, c, P1_SILENT, chunk);
    BareReplies();
    SlicedOn(c, buffer, offset, count, chunk);
    var r := Exchange(k, c, Header(P1_SILENT, P2_MORE, chunk));
    if offset + |chunk| <= MAX_MSG_SIZE {
      CollectedOn(c, r.0, buffer, offset, count, chunk);
    }
  }

  /** The slice is what follows the bytes sent so far. */
  lemma {:induction false} SlicedOn(c: Context, buffer: seq<byte>, offset: nat, count: nat, chunk: seq<byte>)
    requires Sending(c, buffer, offset, count) && offset < |buffer|
    requires chunk == Slice(buffer, offset, offset + EXCHANGE_CHUNK_SIZE)
    ensures c.length == offset && 0 < |chunk| <= 255 && offset + |chunk| <= |buffer|
    ensures buffer[..offset] + chunk == buffer[..offset + |chunk|] && SentAll(|buffer|, offset + |chunk|, count + 1)
  {
    assert |Collected(c)| == c.length;
    NextChunk(|buffer|, offset, count);
  }

  lemma {:induction false} CollectedOn(c: Context, c': Context, buffer: seq<byte>, offset: nat, count: nat, chunk: seq<byte>)
    requires Sending(c, buffer, offset, count) && Good(c') && Collected(c') == Collected(c) + chunk
    requires offset + |chunk| <= |buffer| && offset + |chunk| <= MAX_MSG_SIZE
    requires buffer[..offset] + chunk == buffer[..offset + |chunk|] && SentAll(|buffer|, offset + |chunk|, count + 1)
    ensures Sending(c', buffer, offset + |chunk|, count + 1)
  {
    hide SentAll;
  }

  /** What becomes of the empty chunk. */
  lemma {:induction false} FinalSent(k: Keys, c: Context, path: seq<uint32>, message: seq<byte>, count: nat)
    requires Sized(k) && ValidPath(path) && Sending(c, PathBytes(path) + message, |PathBytes(path) + message|, count)
    ensures var r := Exchange(k, c, Header(P1_SILENT, P2_MORE, []));
      r.0 == Cleared() && Accepted(r.1) && |r.1.value| > 2 && Finished(k, path, message, r.1.value, count + 1)
  {
    Okay(k.sign(path, k.hash(message)) + [0]);
    var buffer := PathBytes(path) + message;
    assert buffer[..|buffer|] == buffer;
    assert |Collected(c)| == c.length;
    FinalStep(k, c, path, message);
    LastChunk(|buffer|, count);
    hide Exchange, Cleared, Header, PathBytes, SentAll, Exchanges, Accepted;
  }

  lemma {:induction false} Okay(front: seq<byte>)
    ensures Accepted(Some(front + [0x90, 0x00])) && |front + [0x90, 0x00]| == |front| + 2
  {
    assert StatusBytes(SW_OK) == [0x90, 0x00];
    assert (front + [0x90, 0x00])[|front|..] == [0x90, 0x00];
  }

  lemma {:induction false} BareReplies()
    ensures Accepted(Some([0x90, 0x00])) && !Accepted(Some([0x67, 0x00]))
  {
    hide Accepted;
    Okay([]);
    assert [] + [0x90, 0x00] == [0x90, 0x00];
    LengthError();
  }

  /** The reply that the loop of sendApdu keeps: a bare success becomes empty data. */
  function Kept(data: seq<byte>): seq<byte> {
    if |data| == 2 && (data[0] as nat) * 256 + (data[1] as nat) == SW_OK then [] else data
  }

  /** A turn of the loop of sendApdu with something left to send. */
  method SendPart(device: Device, buffer: seq<byte>, offset: nat, ghost count: nat) returns (ok: bool, data: seq<byte>, sent: nat)
    requires device.Valid() && Sending(device.Now(), buffer, offset, count) && offset < |buffer|
    modifies device, device.msgBody
    ensures device.Valid()
    ensures if ok then |data| == 0 && 0 < sent && Sending(device.Now(), buffer, offset + sent, count + 1)
            else |buffer| > MAX_MSG_SIZE && device.Now() == Cleared()
  {
    var chunk := Slice(buffer, offset, offset + EXCHANGE_CHUNK_SIZE);
    ChunkSent(device.keys, device.Now(), buffer, offset, count, chunk);
    hide Cleared, Exchange, Accepted, Header, Sending;
    var reply := Send(device, P1_SILENT, P2_MORE, chunk);
    if reply.None? {
      return false, [], |chunk|;
    }
    return true, Kept(reply.value), |chunk|;
  }

  /** The turn of the loop of sendApdu with nothing left to send. */
  method SendEnd(device: Device, path: seq<uint32>, message: seq<byte>, ghost count: nat) returns (data: seq<byte>)
    requires device.Valid() && ValidPath(path)
    requires Sending(device.Now(), PathBytes(path) + message, |PathBytes(path) + message|, count)
    modifies device, device.msgBody
    ensures device.Valid()
    ensures |data| != 0 && Finished(device.keys, path, message, data, count + 1) && device.Now() == Cleared()
  {
    FinalSent(device.keys, device.Now(), path, message, count);
    hide Cleared, Exchange, Accepted, Header, Sending, Finished;
    var reply := Send(device, P1_SILENT, P2_MORE, []);
    data := Kept(reply.value);
  }

  lemma {:induction false} SendingWithin(c: Context, buffer: seq<byte>, offset: nat, count: nat)
    requires Sending(c, buffer, offset, count)
    ensures offset <= |buffer|
  {}

  /** sendApdu for signing, with P1 = SILENT and P2 = MORE, from a cleared device. With room for the message
      the host gets the signature of its hash under the path, after one exchange for every started chunk and
      one more; without room it gets an exception. The device is cleared again either way, so sessions can
      follow one another. */
  method SendApdu(device: Device, path: seq<uint32>, message: seq<byte>) returns (result: Option<seq<byte>>, exchanges: nat)
    requires device.Valid() && device.Now() == Cleared() && ValidPath(path)
    modifies device, device.msgBody
    ensures device.Valid() && device.Now() == Cleared()
    ensures var n := |PathBytes(path) + message|;
      if n <= 512
      then result == Some(device.keys.sign(path, device.keys.hash(message))) && exchanges == Exchanges(n)
      else result == None
  {
    var buffer := PathBytes(path) + message;
    hide *;
    Starts(buffer);
    var data: seq<byte> := [];
    var offset := 0;
    exchanges := 0;
    while |data| == 0
      invariant device.Valid()
      invariant |data| == 0 ==> Sending(device.Now(), buffer, offset, exchanges)
      invariant |data| != 0 ==> Finished(device.keys, path, message, data, exchanges) && device.Now() == Cleared()
      decreases |data| == 0, |buffer| - offset
    {
      SendingWithin(device.Now(), buffer, offset, exchanges);
      if offset < |buffer| {
        var ok, sent;
        ok, data, sent := SendPart(device, buffer, offset, exchanges);
        if !ok {
          return None, exchanges + 1;
        }
        offset := offset + sent;
      } else {
        data := SendEnd(device, path, message, exchanges);
      }
      exchanges := exchanges + 1;
    }
    Truncated(device.keys, path, message, data, exchanges);
    return Some(data[..|data| - 3]), exchanges;
  }
}
