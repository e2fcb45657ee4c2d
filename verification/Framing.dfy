/** Splitting commands into HID packets and putting responses together again. */
module Framing {
  import opened Sequences
  import opened Bits

  const TAG_APDU: byte := 0x05

  // ---- packets ----

  function Word16(n: nat): (b: seq<byte>)
    requires n < TWO16
    ensures |b| == 2
  {
    [n / 256, n % 256]
  }

  function FromWord16(b: seq<byte>): nat
    requires |b| == 2
  {
    (b[0] as nat) * 256 + (b[1] as nat)
  }

  /** Channel, tag and sequence number. */
  function Header(channel: nat, sequenceIdx: nat): (h: seq<byte>)
    requires channel < TWO16 && sequenceIdx < TWO16
    ensures |h| == 5
  {
    Word16(channel) + [TAG_APDU] + Word16(sequenceIdx)
  }

  /** The sequence numbers from here on fit their two bytes. */
  predicate InSequence(sequenceIdx: nat, length: nat) {
    sequenceIdx + length < TWO16 + 1
  }

  /** The packets after the first one, without padding. */
  function Packets(channel: nat, rest: seq<byte>, packetSize: nat, sequenceIdx: nat): (b: seq<byte>)
    requires channel < TWO16 && packetSize >= 7 && InSequence(sequenceIdx, |rest|)
    decreases |rest|
  {
    if rest == [] then []
    else
      var n := Min(|rest|, packetSize - 5);
      Header(channel, sequenceIdx) + rest[..n] + Packets(channel, rest[n..], packetSize, sequenceIdx + 1)
  }

  /** Everything but the padding. */
  function Frame(channel: nat, command: seq<byte>, packetSize: nat): (b: seq<byte>)
    requires channel < TWO16 && packetSize >= 7 && |command| < TWO16
    ensures |b| >= 7
  {
    var n := Min(|command|, packetSize - 7);
    Header(channel, 0) + Word16(|command|) + command[..n] + Packets(channel, command[n..], packetSize, 1)
  }

  /** Zero bytes up to a multiple of the packet size. */
  function PadLength(length: nat, packetSize: nat): (k: nat)
    requires packetSize > 0
    ensures k < packetSize && (length + k) % packetSize == 0
  {
    PadFits(length, packetSize);
    if length % packetSize == 0 then 0 else packetSize - length % packetSize
  }

  lemma {:induction false} PadFits(length: nat, packetSize: nat)
    requires packetSize > 0
    ensures 0 <= length % packetSize < packetSize
    ensures length % packetSize != 0 ==> (length + (packetSize - length % packetSize)) % packetSize == 0
  {
    DivModOf(length, packetSize);
    NextMultiple(length / packetSize, length % packetSize, packetSize);
  }

  lemma {:induction false} NextMultiple(q: nat, r: nat, m: nat)
    requires r < m
    ensures (q * m + r + (m - r)) % m == 0
  {
    assert q * m + r + (m - r) == (q + 1) * m;
    DivModUnique(q + 1, 0, m);
  }

  /** Before the padding is complete the length is no multiple of the packet size. */
  lemma {:induction false} PadIsLeast(length: nat, packetSize: nat, k: nat)
    requires packetSize > 0 && k < PadLength(length, packetSize)
    ensures (length + k) % packetSize != 0
  {
    DivModOf(length, packetSize);
    var q, r := length / packetSize, length % packetSize;
    NotMultiple(q, r, k, packetSize);
  }

  lemma {:induction false} NotMultiple(q: nat, r: nat, k: nat, m: nat)
    requires 0 < r && r + k < m
    ensures (q * m + r + k) % m != 0
  {
    DivModUnique(q, r + k, m);
  }

  /** wrapCommandAPDU for HID. */
  function Wrap(channel: nat, command: seq<byte>, packetSize: nat): seq<byte>
    requires channel < TWO16 && packetSize >= 7 && |command| < TWO16
  {
    var frame := Frame(channel, command, packetSize);
    frame + Zeros(PadLength(|frame|, packetSize))
  }

  // ---- putting together ----

  datatype Outcome = Incomplete | Invalid | Complete(data: seq<byte>)

  // ---- the bytes of the packets ----

  /** At this place: channel, tag 5 and sequence number, most significant byte first, and then the data. */
  ghost predicate PacketAt(b: seq<byte>, at: nat, channel: nat, sequenceIdx: nat, data: seq<byte>) {
    && at + 5 + |data| <= |b|
    && b[at..at + 5] == [channel / 256, channel % 256, 0x05, sequenceIdx / 256, sequenceIdx % 256]
    && b[at + 5..at + 5 + |data|] == data
  }

  /** The part of the command in packet `k` of those after the first. */
  function Part(rest: seq<byte>, packetSize: nat, k: nat): (part: seq<byte>)
    requires packetSize >= 7 && 0 <= Times(k, packetSize - 5) <= |rest|
  {
    var from := Times(k, packetSize - 5);
    rest[from..from + Min(|rest| - from, packetSize - 5)]
  }

  /** Packet `k` of those after the first. */
  lemma {:induction false} PacketBytes(channel: nat, rest: seq<byte>, packetSize: nat, sequenceIdx: nat, k: nat)
    requires channel < TWO16 && packetSize >= 7 && InSequence(sequenceIdx, |rest|)
    requires Times(k, packetSize - 5) < |rest|
    ensures 0 <= Times(k, packetSize) && 0 <= Times(k, packetSize - 5)
    ensures PacketAt(Packets(channel, rest, packetSize, sequenceIdx), Times(k, packetSize), channel, sequenceIdx + k, Part(rest, packetSize, k))
    decreases k
  {
    hide Packets, Times, PacketAt;
    var n := Min(|rest|, packetSize - 5);
    var more := Packets(channel, rest[n..], packetSize, sequenceIdx + 1);
    PacketsUnfold(channel, rest, packetSize, sequenceIdx, n);
    NoTimes(packetSize);
    NoTimes(packetSize - 5);
    if k == 0 {
      FirstAt(channel, sequenceIdx, rest[..n], more);
      assert Part(rest, packetSize, 0) == rest[..n];
    } else {
      TimesAtLeast(k, packetSize - 5);
      OneFewer(k, packetSize);
      OneFewer(k, packetSize - 5);
      PacketBytes(channel, rest[n..], packetSize, sequenceIdx + 1, k - 1);
      var head := Header(channel, sequenceIdx) + rest[..n];
      AtBehind(head, more, Times(k - 1, packetSize), channel, sequenceIdx + k, Part(rest[n..], packetSize, k - 1));
      assert Part(rest[n..], packetSize, k - 1) == Part(rest, packetSize, k);
    }
  }

  lemma {:induction false} FirstAt(channel: nat, sequenceIdx: nat, data: seq<byte>, more: seq<byte>)
    requires channel < TWO16 && sequenceIdx < TWO16
    ensures PacketAt(Header(channel, sequenceIdx) + data + more, 0, channel, sequenceIdx, data)
  {
    var h := Header(channel, sequenceIdx);
    assert h == [channel / 256, channel % 256, 0x05, sequenceIdx / 256, sequenceIdx % 256];
    assert (h + data + more)[0..5] == h && (h + data + more)[5..5 + |data|] == data;
  }

  lemma {:induction false} AtBehind(head: seq<byte>, more: seq<byte>, at: nat, channel: nat, sequenceIdx: nat, data: seq<byte>)
    requires PacketAt(more, at, channel, sequenceIdx, data)
    ensures PacketAt(head + more, |head| + at, channel, sequenceIdx, data)
  {
    assert (head + more)[|head| + at..|head| + at + 5] == more[at..at + 5];
    assert (head + more)[|head| + at + 5..|head| + at + 5 + |data|] == more[at + 5..at + 5 + |data|];
  }

  lemma {:induction false} NoTimes(p: nat)
    ensures Times(0, p) == 0
  {}

  lemma {:induction false} OneFewer(k: nat, p: nat)
    requires k > 0
    ensures Times(k, p) == Times(k - 1, p) + p && Times(k - 1, p) >= 0
  {}

  lemma {:induction false} TimesAtLeast(k: nat, p: nat)
    requires k > 0
    ensures Times(k, p) >= p
  {
    OneFewer(k, p);
  }

  /** The first packet has the length of the command between its header and the first bytes. */
  lemma {:induction false} FirstPacketBytes(channel: nat, command: seq<byte>, packetSize: nat)
    requires channel < TWO16 && packetSize >= 7 && |command| < TWO16
    ensures var w, n := Wrap(channel, command, packetSize), Min(|command|, packetSize - 7);
      && |w| >= 7 + n
      && w[..7] == [channel / 256, channel % 256, 0x05, 0, 0, |command| / 256, |command| % 256]
      && w[7..7 + n] == command[..n]
      && w[7 + n..7 + n + |Packets(channel, command[n..], packetSize, 1)|] == Packets(channel, command[n..], packetSize, 1)
      && forall i :: 7 + n + |Packets(channel, command[n..], packetSize, 1)| <= i < |w| ==> w[i] == 0
  {
    hide Packets;
  }

  function Prepend(front: seq<byte>, o: Outcome): Outcome {
    if o.Complete? then Complete(front + o.data) else o
  }

  /** The header at the front is the expected one. */
  predicate Heads(b: seq<byte>, channel: nat, sequenceIdx: nat) {
    |b| >= 5 && FromWord16(b[..2]) == channel && b[2] == TAG_APDU && FromWord16(b[3..5]) == sequenceIdx
  }

  /** The loop over the packets after the first one; `missing` bytes are still to come. A packet cut short
      raises an exception like a wrong header. */
  function UnwrapMore(channel: nat, b: seq<byte>, packetSize: nat, sequenceIdx: nat, missing: nat): Outcome
    requires packetSize >= 7
    decreases |b|
  {
    if missing == 0 then Complete([])
    else if b == [] then Incomplete
    else if !Heads(b, channel, sequenceIdx) then Invalid
    else
      var n := Min(missing, packetSize - 5);
      if |b| < 5 + n then Invalid
      else Prepend(b[5..5 + n], UnwrapMore(channel, b[5 + n..], packetSize, sequenceIdx + 1, missing - n))
  }

  /** unwrapResponseAPDU for HID. */
  function Unwrap(channel: nat, data: seq<byte>, packetSize: nat): Outcome
    requires packetSize >= 7
  {
    if |data| < 12 then Incomplete
    else if !Heads(data, channel, 0) then Invalid
    else
      var responseLength := FromWord16(data[5..7]);
      if |data| < 7 + responseLength then Incomplete
      else
        var n := Min(responseLength, packetSize - 7);
        Prepend(data[7..7 + n], UnwrapMore(channel, data[7 + n..], packetSize, 1, responseLength - n))
  }

  // ---- the two undo each other ----

  lemma {:induction false} WordBack(n: nat)
    requires n < TWO16
    ensures FromWord16(Word16(n)) == n
  {}

  lemma {:induction false} HeaderBack(channel: nat, sequenceIdx: nat, rest: seq<byte>)
    requires channel < TWO16 && sequenceIdx < TWO16
    ensures Heads(Header(channel, sequenceIdx) + rest, channel, sequenceIdx)
  {
    var b := Header(channel, sequenceIdx) + rest;
    assert b[..2] == Word16(channel) && b[3..5] == Word16(sequenceIdx);
    WordBack(channel);
    WordBack(sequenceIdx);
  }

  /** The front of a packet stream. */
  lemma {:induction false} PacketsStep(channel: nat, rest: seq<byte>, packetSize: nat, sequenceIdx: nat, tail: seq<byte>)
    requires channel < TWO16 && packetSize >= 7 && InSequence(sequenceIdx, |rest|) && rest != []
    ensures var n := Min(|rest|, packetSize - 5);
      var b := Packets(channel, rest, packetSize, sequenceIdx) + tail;
      && |b| >= 5 + n && Heads(b, channel, sequenceIdx) && b[5..5 + n] == rest[..n]
      && b[5 + n..] == Packets(channel, rest[n..], packetSize, sequenceIdx + 1) + tail
  {
    var n := Min(|rest|, packetSize - 5);
    var more := Packets(channel, rest[n..], packetSize, sequenceIdx + 1);
    PacketsUnfold(channel, rest, packetSize, sequenceIdx, n);
    HeaderBack(channel, sequenceIdx, rest[..n] + (more + tail));
    hide Header, Heads, Packets;
    Regroup(Header(channel, sequenceIdx), rest[..n], more, tail);
    Sliced(Header(channel, sequenceIdx), rest[..n], more + tail);
  }

  lemma {:induction false} PacketsUnfold(channel: nat, rest: seq<byte>, packetSize: nat, sequenceIdx: nat, n: nat)
    requires channel < TWO16 && packetSize >= 7 && InSequence(sequenceIdx, |rest|) && rest != [] && n == Min(|rest|, packetSize - 5)
    ensures Packets(channel, rest, packetSize, sequenceIdx)
         == Header(channel, sequenceIdx) + rest[..n] + Packets(channel, rest[n..], packetSize, sequenceIdx + 1)
  {
    hide Header;
  }

  lemma {:induction false} Regroup(a: seq<byte>, b: seq<byte>, c: seq<byte>, d: seq<byte>)
    ensures a + b + c + d == a + (b + (c + d))
  {}

  lemma {:induction false} Sliced(h: seq<byte>, x: seq<byte>, y: seq<byte>)
    ensures (h + (x + y))[|h|..|h| + |x|] == x && (h + (x + y))[|h| + |x|..] == y
  {}

  lemma {:induction false} MoreBack(channel: nat, rest: seq<byte>, packetSize: nat, sequenceIdx: nat, tail: seq<byte>)
    requires channel < TWO16 && packetSize >= 7 && InSequence(sequenceIdx, |rest|)
    ensures UnwrapMore(channel, Packets(channel, rest, packetSize, sequenceIdx) + tail, packetSize, sequenceIdx, |rest|) == Complete(rest)
    decreases |rest|
  {
    if rest != [] {
      var n := Min(|rest|, packetSize - 5);
      PacketsStep(channel, rest, packetSize, sequenceIdx, tail);
      hide Packets, Heads;
      MoreBack(channel, rest[n..], packetSize, sequenceIdx + 1, tail);
      assert rest[..n] + rest[n..] == rest;
    }
  }

  lemma {:induction false} FrameStep(channel: nat, command: seq<byte>, packetSize: nat, tail: seq<byte>)
    requires channel < TWO16 && packetSize >= 7 && |command| < TWO16
    ensures var n := Min(|command|, packetSize - 7);
      var b := Frame(channel, command, packetSize) + tail;
      && |b| >= 7 + n && Heads(b, channel, 0) && FromWord16(b[5..7]) == |command| && b[7..7 + n] == command[..n]
      && b[7 + n..] == Packets(channel, command[n..], packetSize, 1) + tail
  {
    var n := Min(|command|, packetSize - 7);
    var more := Packets(channel, command[n..], packetSize, 1);
    var h, l, x := Header(channel, 0), Word16(|command|), command[..n];
    assert Frame(channel, command, packetSize) == h + l + x + more;
    HeaderBack(channel, 0, l + (x + (more + tail)));
    WordBack(|command|);
    hide Header, Heads, Packets, Frame, Word16, FromWord16;
    Regroup(h, l, x, more + tail);
    assert h + l + x + more + tail == h + l + x + (more + tail);
    Sliced(h, l, x + (more + tail));
    Sliced(h + l, x, more + tail);
    assert h + l + (x + (more + tail)) == h + (l + (x + (more + tail)));
  }

  lemma {:induction false} PacketsLonger(channel: nat, rest: seq<byte>, packetSize: nat, sequenceIdx: nat)
    requires channel < TWO16 && packetSize >= 7 && InSequence(sequenceIdx, |rest|)
    ensures |Packets(channel, rest, packetSize, sequenceIdx)| >= |rest|
    decreases |rest|
  {
    if rest != [] {
      PacketsLonger(channel, rest[Min(|rest|, packetSize - 5)..], packetSize, sequenceIdx + 1);
    }
  }

  /** With at least twelve bytes, what was framed is put together again, whatever follows it. */
  lemma {:induction false} FrameBack(channel: nat, command: seq<byte>, packetSize: nat, tail: seq<byte>)
    requires channel < TWO16 && packetSize >= 7 && |command| < TWO16
    requires |Frame(channel, command, packetSize) + tail| >= 12
    ensures Unwrap(channel, Frame(channel, command, packetSize) + tail, packetSize) == Complete(command)
  {
    hide Packets, Heads, Frame, UnwrapMore, FromWord16;
    var n := Min(|command|, packetSize - 7);
    FrameStep(channel, command, packetSize, tail);
    MoreBack(channel, command[n..], packetSize, 1, tail);
    PacketsLonger(channel, command[n..], packetSize, 1);
    assert command[..n] + command[n..] == command;
  }

  /** The round trip holds exactly when the packets have twelve bytes together, which a packet size of
      twelve guarantees; bytes after the last packet do not change it. */
  lemma {:induction false} RoundTrip(channel: nat, command: seq<byte>, packetSize: nat, tail: seq<byte>)
    requires channel < TWO16 && packetSize >= 7 && |command| < TWO16
    ensures var w := Wrap(channel, command, packetSize);
      && Unwrap(channel, w, packetSize) == (if |w| >= 12 then Complete(command) else Incomplete)
      && (|w| >= 12 ==> Unwrap(channel, w + tail, packetSize) == Complete(command))
      && (packetSize >= 12 ==> |w| >= 12)
  {
    var frame := Frame(channel, command, packetSize);
    var pad := Zeros(PadLength(|frame|, packetSize));
    WholePackets(|frame| + |pad|, packetSize);
    assert (frame + pad) + tail == frame + (pad + tail);
    hide Frame, Unwrap, PadLength;
    if |frame + pad| >= 12 {
      FrameBack(channel, command, packetSize, pad);
      FrameBack(channel, command, packetSize, pad + tail);
    } else {
      TooShort(channel, frame + pad, packetSize);
    }
  }

  /** The empty command in a packet of seven bytes. */
  lemma {:induction false} ShortCommandLost(channel: nat)
    requires channel < TWO16
    ensures Unwrap(channel, Wrap(channel, [], 7), 7) == Incomplete
  {
    hide Unwrap;
    RoundTrip(channel, [], 7, []);
    assert |Frame(channel, [], 7)| == 7;
  }

  lemma {:induction false} TooShort(channel: nat, data: seq<byte>, packetSize: nat)
    requires packetSize >= 7 && |data| < 12
    ensures Unwrap(channel, data, packetSize) == Incomplete
  {}

  lemma {:induction false} WholePackets(n: nat, packetSize: nat)
    requires packetSize > 0 && n % packetSize == 0 && n > 0
    ensures n >= packetSize
  {
    DivModOf(n, packetSize);
    if n / packetSize < 1 {
      MulLe(n / packetSize, 0, packetSize);
    }
  }

  // ---- what is accepted ----

  predicate StartsWith(b: seq<byte>, front: seq<byte>) {
    |front| <= |b| && b[..|front|] == front
  }

  /** A header that passes has these bytes. */
  lemma {:induction false} HeadBytes(b: seq<byte>, channel: nat, sequenceIdx: nat)
    requires channel < TWO16 && sequenceIdx < TWO16 && Heads(b, channel, sequenceIdx)
    ensures StartsWith(b, Header(channel, sequenceIdx))
  {
    BytesOfWord(b[..2]);
    BytesOfWord(b[3..5]);
    assert b[..5] == b[..2] + [b[2]] + b[3..5];
  }

  lemma {:induction false} BytesOfWord(b: seq<byte>)
    requires |b| == 2
    ensures FromWord16(b) < TWO16 && Word16(FromWord16(b)) == b
  {
    assert b == [b[0], b[1]];
  }

  lemma {:induction false} StartsOn(b: seq<byte>, head: seq<byte>, more: seq<byte>)
    requires StartsWith(b, head) && StartsWith(b[|head|..], more)
    ensures StartsWith(b, head + more)
  {
    assert b[..|head + more|] == b[..|head|] + b[|head|..][..|more|];
  }

  lemma {:induction false} CompletedParts(front: seq<byte>, o: Outcome, data: seq<byte>)
    requires Prepend(front, o) == Complete(data)
    ensures o.Complete? && data == front + o.data
  {}

  /** What the loop puts together has come in packets. */
  lemma {:induction false} MoreExactly(channel: nat, b: seq<byte>, packetSize: nat, sequenceIdx: nat, missing: nat, data: seq<byte>)
    requires channel < TWO16 && packetSize >= 7 && InSequence(sequenceIdx, missing)
    requires UnwrapMore(channel, b, packetSize, sequenceIdx, missing) == Complete(data)
    ensures |data| == missing && StartsWith(b, Packets(channel, data, packetSize, sequenceIdx))
    decreases |b|
  {
    hide Packets, Heads, Header, StartsWith, Prepend;
    if missing == 0 {
      NoPackets(channel, [], packetSize, sequenceIdx);
      NoFront(b);
    } else {
      var n := Min(missing, packetSize - 5);
      var o := UnwrapMore(channel, b[5 + n..], packetSize, sequenceIdx + 1, missing - n);
      CompletedParts(b[5..5 + n], o, data);
      MoreExactly(channel, b[5 + n..], packetSize, sequenceIdx + 1, missing - n, o.data);
      assert data[..n] == b[5..5 + n] && data[n..] == o.data;
      PacketsUnfold(channel, data, packetSize, sequenceIdx, n);
      HeadBytes(b, channel, sequenceIdx);
      FrontOf(b, Header(channel, sequenceIdx), n);
      StartsOn(b, Header(channel, sequenceIdx) + data[..n], Packets(channel, data[n..], packetSize, sequenceIdx + 1));
    }
  }

  lemma {:induction false} NoFront(b: seq<byte>)
    ensures StartsWith(b, [])
  {}

  lemma {:induction false} FrontOf(b: seq<byte>, head: seq<byte>, n: nat)
    requires StartsWith(b, head) && |head| + n <= |b|
    ensures StartsWith(b, head + b[|head|..|head| + n])
  {
    assert b[..|head| + n] == b[..|head|] + b[|head|..|head| + n];
  }

  /** A response is put together exactly when it comes in its packets: the channel, the tag and the sequence numbers
      are right, and every packet is whole. */
  lemma {:induction false} UnwrapExactly(channel: nat, data: seq<byte>, packetSize: nat, command: seq<byte>)
    requires channel < TWO16 && packetSize >= 7 && |command| < TWO16
    ensures Unwrap(channel, data, packetSize) == Complete(command)
       <==> |data| >= 12 && StartsWith(data, Frame(channel, command, packetSize))
  {
    if |data| >= 12 && StartsWith(data, Frame(channel, command, packetSize)) {
      var frame := Frame(channel, command, packetSize);
      assert data == frame + data[|frame|..];
      FrameBack(channel, command, packetSize, data[|frame|..]);
    } else if Unwrap(channel, data, packetSize) == Complete(command) {
      UnwrapFramed(channel, data, packetSize, command);
    }
    hide Unwrap, Frame;
  }

  /** A packet with another header is an exception, in the first place and in any other, and so is one cut short. */
  lemma {:induction false} WrongPacket(channel: nat, b: seq<byte>, packetSize: nat, sequenceIdx: nat, missing: nat)
    requires channel < TWO16 && packetSize >= 7 && sequenceIdx < TWO16
    ensures |b| >= 12 && !StartsWith(b, Header(channel, 0)) ==> Unwrap(channel, b, packetSize) == Invalid
    ensures missing > 0 && b != [] && !StartsWith(b, Header(channel, sequenceIdx)) ==>
      UnwrapMore(channel, b, packetSize, sequenceIdx, missing) == Invalid
    ensures missing > 0 && b != [] && |b| < 5 + Min(missing, packetSize - 5) ==>
      UnwrapMore(channel, b, packetSize, sequenceIdx, missing) == Invalid
  {
    hide Header, StartsWith, Heads;
    if Heads(b, channel, 0) {
      HeadBytes(b, channel, 0);
    }
    if Heads(b, channel, sequenceIdx) {
      HeadBytes(b, channel, sequenceIdx);
    }
  }

  lemma {:induction false} UnwrapFramed(channel: nat, data: seq<byte>, packetSize: nat, command: seq<byte>)
    requires channel < TWO16 && packetSize >= 7 && |command| < TWO16 && Unwrap(channel, data, packetSize) == Complete(command)
    ensures |data| >= 12 && StartsWith(data, Frame(channel, command, packetSize))
  {
    hide Packets, Heads, Header, StartsWith, Prepend, UnwrapMore, Word16, FromWord16;
    BytesOfWord(data[5..7]);
    var length := FromWord16(data[5..7]);
    var n := Min(length, packetSize - 7);
    var o := UnwrapMore(channel, data[7 + n..], packetSize, 1, length - n);
    CompletedParts(data[7..7 + n], o, command);
    MoreExactly(channel, data[7 + n..], packetSize, 1, length - n, o.data);
    assert command[..n] == data[7..7 + n] && command[n..] == o.data && |command| == length;
    HeadBytes(data, channel, 0);
    FrontOf(data, Header(channel, 0), 2);
    FrontOf(data, Header(channel, 0) + Word16(length), n);
    StartsOn(data, Header(channel, 0) + Word16(length) + command[..n], Packets(channel, command[n..], packetSize, 1));
  }

  // ---- prefixes ----

  /** The front of a prefix is the front of the whole. */
  lemma {:induction false} PrefixFront(b: seq<byte>, x: nat, channel: nat, sequenceIdx: nat)
    requires 5 <= x <= |b|
    ensures Heads(b[..x], channel, sequenceIdx) <==> Heads(b, channel, sequenceIdx)
  {
    assert b[..x][..2] == b[..2] && b[..x][3..5] == b[3..5];
  }

  lemma {:induction false} PrefixBack(b: seq<byte>, n: nat, p: nat, x: nat)
    requires n <= p <= x <= |b|
    ensures b[..x][n..p] == b[n..p] && b[..x][p..] == b[p..][..x - p]
  {}

  /** The bytes of `k` packets. */
  function Times(k: nat, packetSize: nat): nat {
    k * packetSize
  }

  lemma {:induction false} OneLess(m: nat, p: nat)
    requires m >= 1
    ensures Times(m, p) == Times(m - 1, p) + p
  {}

  lemma {:induction false} Fewer(m: nat, k: nat, p: nat)
    requires m <= k
    ensures Times(m, p) <= Times(k, p) && Times(0, p) == 0
  {
    MulLe(m, k, p);
  }

  lemma {:induction false} AtLeastTwo(k: nat, p: nat)
    requires k >= 2
    ensures Times(k, p) >= 2 * p
  {
    MulLe(2, k, p);
  }

  /** Some, but not all of the packets. */
  lemma {:induction false} MorePrefix(channel: nat, rest: seq<byte>, packetSize: nat, sequenceIdx: nat, pad: seq<byte>, k: nat, m: nat)
    requires channel < TWO16 && packetSize >= 7 && InSequence(sequenceIdx, |rest|) && |pad| < packetSize
    requires |Packets(channel, rest, packetSize, sequenceIdx) + pad| == Times(k, packetSize) && m < k
    ensures 0 <= Times(m, packetSize) <= |Packets(channel, rest, packetSize, sequenceIdx) + pad|
    ensures UnwrapMore(channel, (Packets(channel, rest, packetSize, sequenceIdx) + pad)[..Times(m, packetSize)], packetSize, sequenceIdx, |rest|) == Incomplete
    decreases m
  {
    hide Times, Packets, UnwrapMore, Heads;
    var p, all := packetSize, Packets(channel, rest, packetSize, sequenceIdx) + pad;
    Fewer(m, k, p);
    if rest == [] {
      NoPackets(channel, rest, p, sequenceIdx);
      OneLess(k, p);
    } else if m == 0 {
      UnwrapEnds(channel, all[..0], p, sequenceIdx, |rest|);
    } else {
      AtLeastTwo(k, p);
      ShortStream(channel, rest, p, sequenceIdx);
      PacketsStep(channel, rest, p, sequenceIdx, pad);
      OneLess(k, p);
      OneLess(m, p);
      MorePrefix(channel, rest[p - 5..], p, sequenceIdx + 1, pad, k - 1, m - 1);
      MiddleOnly(channel, all, p, sequenceIdx, Times(m, p), |rest|);
    }
  }

  /** A full packet further on in a prefix. */
  lemma {:induction false} MiddleOnly(channel: nat, all: seq<byte>, p: nat, sequenceIdx: nat, x: nat, missing: nat)
    requires p >= 7 && p <= x <= |all| && Heads(all, channel, sequenceIdx) && missing > p - 5
    requires UnwrapMore(channel, all[p..][..x - p], p, sequenceIdx + 1, missing - (p - 5)) == Incomplete
    ensures UnwrapMore(channel, all[..x], p, sequenceIdx, missing) == Incomplete
  {
    PrefixFront(all, x, channel, sequenceIdx);
    PrefixBack(all, 5, p, x);
    UnwrapTurn(channel, all[..x], p, sequenceIdx, missing);
    hide Heads, UnwrapMore;
  }

  lemma {:induction false} ShortStream(channel: nat, rest: seq<byte>, packetSize: nat, sequenceIdx: nat)
    requires channel < TWO16 && packetSize >= 7 && InSequence(sequenceIdx, |rest|) && rest != []
    ensures |rest| <= packetSize - 5 ==> |Packets(channel, rest, packetSize, sequenceIdx)| <= packetSize
  {
    if |rest| <= packetSize - 5 {
      assert rest[|rest|..] == [];
    }
  }

  /** Of a command in `k` packets, any smaller number of packets is not enough. */
  lemma {:induction false} ProperPrefix(channel: nat, command: seq<byte>, packetSize: nat, k: nat, m: nat)
    requires channel < TWO16 && packetSize >= 7 && |command| < TWO16
    requires |Wrap(channel, command, packetSize)| == Times(k, packetSize) && m < k
    ensures 0 <= Times(m, packetSize) <= |Wrap(channel, command, packetSize)|
    ensures Unwrap(channel, Wrap(channel, command, packetSize)[..Times(m, packetSize)], packetSize) == Incomplete
  {
    hide Times;
    var p, all := packetSize, Wrap(channel, command, packetSize);
    var pad := Zeros(PadLength(|Frame(channel, command, p)|, p));
    Fewer(m, k, p);
    if Times(m, p) < 12 {
      TooShort(channel, all[..Times(m, p)], p);
    } else {
      FirstPrefix(channel, command, p, pad, k, m);
    }
  }

  lemma {:induction false} FirstPrefix(channel: nat, command: seq<byte>, packetSize: nat, pad: seq<byte>, k: nat, m: nat)
    requires channel < TWO16 && packetSize >= 7 && |command| < TWO16 && |pad| < packetSize
    requires |Frame(channel, command, packetSize) + pad| == Times(k, packetSize) && 1 <= m < k && 12 <= Times(m, packetSize) <= Times(k, packetSize)
    ensures Unwrap(channel, (Frame(channel, command, packetSize) + pad)[..Times(m, packetSize)], packetSize) == Incomplete
  {
    hide Times, Packets, Heads, Frame, Unwrap, UnwrapMore, FromWord16;
    var p, all := packetSize, Frame(channel, command, packetSize) + pad;
    AtLeastTwo(k, p);
    ShortFrame(channel, command, p);
    FrameStep(channel, command, p, pad);
    OneLess(k, p);
    OneLess(m, p);
    MorePrefix(channel, command[p - 7..], p, 1, pad, k - 1, m - 1);
    FrontOnly(channel, all, p, Times(m, p), |command|);
  }

  /** The first packet of a prefix, when it is full. */
  lemma {:induction false} FrontOnly(channel: nat, all: seq<byte>, p: nat, x: nat, length: nat)
    requires p >= 7 && 12 <= x <= |all| && p <= x && Heads(all, channel, 0) && FromWord16(all[5..7]) == length && length > p - 7
    requires UnwrapMore(channel, all[p..][..x - p], p, 1, length - (p - 7)) == Incomplete
    ensures Unwrap(channel, all[..x], p) == Incomplete
  {
    hide Heads, UnwrapMore, FromWord16;
    PrefixFront(all, x, channel, 0);
    PrefixBack(all, 7, p, x);
    assert all[..x][5..7] == all[5..7];
  }

  lemma {:induction false} ShortFrame(channel: nat, command: seq<byte>, packetSize: nat)
    requires channel < TWO16 && packetSize >= 7 && |command| < TWO16
    ensures |command| <= packetSize - 7 ==> |Frame(channel, command, packetSize)| <= packetSize
  {
    if |command| <= packetSize - 7 {
      assert command[|command|..] == [];
    }
  }

  // ---- the loops ----

  /** wrapCommandAPDU for HID. */
  method WrapCommandApdu(channel: nat, command: seq<byte>, packetSize: nat) returns (result: seq<byte>)
    requires channel < TWO16 && packetSize >= 7 && |command| < TWO16
    ensures result == Wrap(channel, command, packetSize)
  {
    hide Packets, Header, PadLength;
    var sequenceIdx := 0;
    var offset := 0;
    result := Header(channel, sequenceIdx) + Word16(|command|);
    sequenceIdx := sequenceIdx + 1;
    var blockSize := if |command| > packetSize - 7 then packetSize - 7 else |command|;
    result := result + command[offset..offset + blockSize];
    offset := offset + blockSize;
    assert Frame(channel, command, packetSize) == result + Packets(channel, command[offset..], packetSize, sequenceIdx);
    hide Frame;
    while offset != |command|
      invariant offset <= |command| && InSequence(sequenceIdx, |command| - offset) && sequenceIdx >= 1
      invariant Frame(channel, command, packetSize) == result + Packets(channel, command[offset..], packetSize, sequenceIdx)
      decreases |command| - offset
    {
      var size := if |command| - offset > packetSize - 5 then packetSize - 5 else |command| - offset;
      ghost var rest := command[offset..];
      PacketsUnfold(channel, rest, packetSize, sequenceIdx, size);
      assert rest[..size] == command[offset..offset + size] && rest[size..] == command[offset + size..];
      Regroup(result, Header(channel, sequenceIdx), rest[..size], Packets(channel, rest[size..], packetSize, sequenceIdx + 1));
      assert Header(channel, sequenceIdx) + rest[..size] + Packets(channel, rest[size..], packetSize, sequenceIdx + 1)
          == Header(channel, sequenceIdx) + (rest[..size] + Packets(channel, rest[size..], packetSize, sequenceIdx + 1));
      result := result + Header(channel, sequenceIdx) + command[offset..offset + size];
      sequenceIdx := sequenceIdx + 1;
      offset := offset + size;
    }
    NoPackets(channel, command[offset..], packetSize, sequenceIdx);
    assert result + [] == result;
    result := PadPackets(result, packetSize);
  }

  lemma {:induction false} NoPackets(channel: nat, rest: seq<byte>, packetSize: nat, sequenceIdx: nat)
    requires channel < TWO16 && packetSize >= 7 && InSequence(sequenceIdx, |rest|) && rest == []
    ensures Packets(channel, rest, packetSize, sequenceIdx) == []
  {}

  method PadPackets(frame: seq<byte>, packetSize: nat) returns (result: seq<byte>)
    requires packetSize > 0
    ensures result == frame + Zeros(PadLength(|frame|, packetSize))
  {
    result := frame;
    ghost var k := 0;
    while Over(|result|, packetSize)
      invariant k <= PadLength(|frame|, packetSize) && result == frame + Zeros(k)
      decreases PadLength(|frame|, packetSize) - k
    {
      PadGoesOn(|frame|, packetSize, k);
      assert Zeros(k + 1) == Zeros(k) + [0];
      result := result + [0];
      k := k + 1;
    }
    PadStops(|frame|, packetSize, k);
  }

  predicate Over(n: nat, packetSize: nat)
    requires packetSize > 0
  {
    n % packetSize != 0
  }

  lemma {:induction false} PadGoesOn(length: nat, packetSize: nat, k: nat)
    requires packetSize > 0 && k <= PadLength(length, packetSize) && Over(length + k, packetSize)
    ensures k < PadLength(length, packetSize)
  {}

  lemma {:induction false} PadStops(length: nat, packetSize: nat, k: nat)
    requires packetSize > 0 && k <= PadLength(length, packetSize) && !Over(length + k, packetSize)
    ensures k == PadLength(length, packetSize)
  {
    if k < PadLength(length, packetSize) {
      PadIsLeast(length, packetSize, k);
    }
  }

  /** unwrapResponseAPDU for HID. */
  method UnwrapResponseApdu(channel: nat, data: seq<byte>, packetSize: nat) returns (o: Outcome)
    requires packetSize >= 7
    ensures o == Unwrap(channel, data, packetSize)
  {
    if |data| < 12 {
      return Incomplete;
    }
    if FromWord16(data[..2]) != channel || data[2] != TAG_APDU || FromWord16(data[3..5]) != 0 {
      return Invalid;
    }
    var responseLength := FromWord16(data[5..7]);
    if |data| < 7 + responseLength {
      return Incomplete;
    }
    var blockSize := if responseLength > packetSize - 7 then packetSize - 7 else responseLength;
    var result := data[7..7 + blockSize];
    o := UnwrapLoop(channel, data, packetSize, result, 7 + blockSize, responseLength);
  }

  /** The loop of unwrapResponseAPDU. */
  method UnwrapLoop(channel: nat, data: seq<byte>, packetSize: nat, first: seq<byte>, start: nat, responseLength: nat) returns (o: Outcome)
    requires packetSize >= 7 && |first| <= responseLength && start <= |data|
    ensures o == Prepend(first, UnwrapMore(channel, data[start..], packetSize, 1, responseLength - |first|))
  {
    hide UnwrapMore, FromWord16, Prepend, Heads;
    var result, offset, sequenceIdx := first, start, 0;
    ghost var all := Prepend(first, UnwrapMore(channel, data[start..], packetSize, 1, responseLength - |first|));
    while |result| != responseLength
      invariant |result| <= responseLength && start <= offset <= |data|
      invariant all == Prepend(result, UnwrapMore(channel, data[offset..], packetSize, sequenceIdx + 1, responseLength - |result|))
      decreases |data| - offset
    {
      ghost var b := data[offset..];
      sequenceIdx := sequenceIdx + 1;
      PrependOutcome(result);
      if offset == |data| {
        UnwrapEnds(channel, b, packetSize, sequenceIdx, responseLength - |result|);
        return Incomplete;
      }
      UnwrapTurn(channel, b, packetSize, sequenceIdx, responseLength - |result|);
      HeadsAt(data, offset, channel, sequenceIdx);
      if |data| - offset < 5 {
        return Invalid;
      }
      if FromWord16(data[offset..offset + 2]) != channel || data[offset + 2] != TAG_APDU
         || FromWord16(data[offset + 3..offset + 5]) != sequenceIdx {
        return Invalid;
      }
      offset := offset + 5;
      var missing := responseLength - |result|;
      var blockSize := if missing > packetSize - 5 then packetSize - 5 else missing;
      if |data| - offset < blockSize {
        return Invalid;
      }
      ghost var more := UnwrapMore(channel, b[5 + blockSize..], packetSize, sequenceIdx + 1, missing - blockSize);
      SliceOfSlice(data, offset - 5, 5, blockSize);
      PrependTwice(result, b[5..5 + blockSize], more);
      result := result + data[offset..offset + blockSize];
      offset := offset + blockSize;
    }
    UnwrapEnds(channel, data[offset..], packetSize, sequenceIdx + 1, 0);
    PrependOutcome(result);
    return Complete(result);
  }

  lemma {:induction false} PrependOutcome(front: seq<byte>)
    ensures Prepend(front, Incomplete) == Incomplete && Prepend(front, Invalid) == Invalid && Prepend(front, Complete([])) == Complete(front)
  {
    assert front + [] == front;
  }

  lemma {:induction false} HeadsAt(data: seq<byte>, offset: nat, channel: nat, sequenceIdx: nat)
    requires offset <= |data|
    ensures Heads(data[offset..], channel, sequenceIdx)
       <==> && offset + 5 <= |data| && FromWord16(data[offset..offset + 2]) == channel && data[offset + 2] == TAG_APDU
            && FromWord16(data[offset + 3..offset + 5]) == sequenceIdx
  {
    if offset + 5 <= |data| {
      assert data[offset..][..2] == data[offset..offset + 2] && data[offset..][3..5] == data[offset + 3..offset + 5];
    }
  }

  lemma {:induction false} SliceOfSlice(data: seq<byte>, from: nat, a: nat, n: nat)
    requires from + a + n <= |data|
    ensures data[from..][a..a + n] == data[from + a..from + a + n] && data[from..][a + n..] == data[from + a + n..]
  {}

  lemma {:induction false} UnwrapEnds(channel: nat, b: seq<byte>, packetSize: nat, sequenceIdx: nat, missing: nat)
    requires packetSize >= 7
    ensures missing == 0 ==> UnwrapMore(channel, b, packetSize, sequenceIdx, missing) == Complete([])
    ensures missing > 0 && b == [] ==> UnwrapMore(channel, b, packetSize, sequenceIdx, missing) == Incomplete
  {}

  lemma {:induction false} UnwrapTurn(channel: nat, b: seq<byte>, packetSize: nat, sequenceIdx: nat, missing: nat)
    requires packetSize >= 7 && missing > 0 && b != []
    ensures var n := Min(missing, packetSize - 5);
      UnwrapMore(channel, b, packetSize, sequenceIdx, missing)
        == if !Heads(b, channel, sequenceIdx) || |b| < 5 + n then Invalid
           else Prepend(b[5..5 + n], UnwrapMore(channel, b[5 + n..], packetSize, sequenceIdx + 1, missing - n))
  {
    hide Heads;
  }

  lemma {:induction false} PrependTwice(a: seq<byte>, b: seq<byte>, o: Outcome)
    ensures Prepend(a, Prepend(b, o)) == Prepend(a + b, o)
  {
    if o.Complete? {
      assert a + (b + o.data) == a + b + o.data;
    }
  }
}
