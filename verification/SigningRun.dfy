/** Runs of the signing protocol: what is collected, what is signed, and what is left behind. */
module SigningRun {
  import opened Bits
  import opened Wire
  import opened Signing

  // ---- every reachable state ----

  /** The context after any sequence of APDUs and button events. No message is ever longer than the buffer. */
  ghost function Run(k: Keys, c: Context, events: seq<Event>): (r: Context)
    requires Good(c) && Sized(k)
    ensures Good(r) && |Collected(r)| <= 512
    decreases |events|
  {
    if events == [] then c else Run(k, Step(k, c, events[0]).0, events[1..])
  }

  // ---- failures and other instructions ----

  /** The exceptions the handlers throw. */
  ghost predicate Known(o: Outcome) {
    o.Throw? ==> o.sw == SW_OK || o.sw / 0x1000 == 6
  }

  lemma {:induction false} DispatchKnown(k: Keys, c: Context, apdu: seq<byte>)
    requires Good(c) && Sized(k) && apdu != [] && Dispatch(k, c, apdu).Some?
    ensures Known(Dispatch(k, c, apdu).value)
  {
    hide SignMessage, ReadMessage, ReadBip32, Cleared;
  }

  lemma {:induction false} EndsInStatus(tx: seq<byte>, sw: nat)
    ensures |tx + StatusBytes(sw)| >= 2 && (tx + StatusBytes(sw))[|tx + StatusBytes(sw)| - 2..] == StatusBytes(sw)
  {}

  lemma {:induction false} CaughtClears(o: Outcome)
    requires Known(o)
    ensures Catch(o).1.Some? && !Accepted(Catch(o).1) ==> Catch(o).0 == Cleared()
    ensures Accepted(Catch(o).1) <==> o.Throw? && o.sw == SW_OK
  {
    if o.Throw? {
      EndsInStatus(o.tx, o.sw);
    }
  }

  /** Every reply that is not a success leaves the context cleared. */
  lemma {:induction false} FailureClears(k: Keys, c: Context, e: Event)
    requires Good(c) && Sized(k) && Step(k, c, e).1.Some? && !Accepted(Step(k, c, e).1)
    ensures Step(k, c, e).0 == Cleared()
  {
    hide HandleSign, Cleared, Dispatch;
    match e
    case Button(_) =>
      if c.pending.Some? {
        EndsInStatus(c.pending.value, SW_OK);
      }
    case Apdu(apdu) =>
      if apdu != [] && Dispatch(k, c, apdu).Some? {
        DispatchKnown(k, c, apdu);
        CaughtClears(Dispatch(k, c, apdu).value);
      }
  }

  lemma {:induction false} LengthError()
    ensures !Accepted(Some([0x67, 0x00]))
  {
    assert [0x67, 0x00][0..][0] == 0x67;
  }

  /** A well-formed APDU of this application: its length byte is right, and it has data or asks for more. */
  predicate Formed(apdu: seq<byte>) {
    |apdu| >= 5 && apdu[0] == 0xE0 && (apdu[4] as nat) + 5 == |apdu| && (apdu[4] != 0 || apdu[3] >= 0x80)
  }

  /** The answers to APDUs that no handler takes, byte by byte; all but the echo leave the context cleared. */
  lemma {:induction false} PlainReplies(k: Keys, c: Context, apdu: seq<byte>)
    requires Good(c) && Sized(k) && apdu != []
    ensures apdu[0] != 0xE0 ==> Exchange(k, c, apdu) == (Cleared(), Some([0x6E, 0x00]))
    ensures apdu[0] == 0xE0 && !Formed(apdu) ==> Exchange(k, c, apdu) == (Cleared(), Some([0x67, 0x00]))
    ensures Formed(apdu) && apdu[1] !in {0x00, 0x01, 0x02, 0x04, 0x08, 0xFF} ==> Exchange(k, c, apdu) == (Cleared(), Some([0x6D, 0x00]))
    ensures Formed(apdu) && apdu[1] == 0x08 && (apdu[2] > 0x01 || apdu[3] > 0x80) ==> Exchange(k, c, apdu) == (Cleared(), Some([0x6B, 0x00]))
    ensures Formed(apdu) && apdu[1] == 0x00 ==> Exchange(k, c, apdu) == (Cleared(), Some([0x90, 0x00]))
    ensures Formed(apdu) && apdu[1] == 0x01 ==> Exchange(k, c, apdu) == (c, Some(apdu + [0x90, 0x00]))
    ensures Formed(apdu) && apdu[1] == 0x02 ==> Exchange(k, c, apdu) == (c, Some(k.configuration + [0x90, 0x00]))
    ensures Formed(apdu) && apdu[1] == 0x04 && k.publicKey(apdu).Some? ==>
      Exchange(k, c, apdu) == (c, Some(k.publicKey(apdu).value + [0x90, 0x00]))
    ensures Formed(apdu) && apdu[1] == 0x04 && k.publicKey(apdu).None? ==> Exchange(k, c, apdu) == (Cleared(), Some([0x6F, 0x00]))
    ensures Formed(apdu) && apdu[1] == 0xFF ==> Exchange(k, c, apdu) == (Cleared(), None)
  {
    hide Cleared, ReadMessage, SignMessage, ReadBip32;
    if |apdu| >= 5 {
      P1P2Exactly(apdu[2], apdu[3]);
    }
    hide P1P2Ok;
    assert [] + StatusBytes(SW_CLA_NOT_SUPPORTED) == [0x6E, 0x00] && [] + StatusBytes(SW_WRONG_LENGTH) == [0x67, 0x00];
    assert [] + StatusBytes(SW_INS_NOT_SUPPORTED) == [0x6D, 0x00] && [] + StatusBytes(SW_INVALID_P1P2) == [0x6B, 0x00];
    assert [] + StatusBytes(SW_INTERNAL_ERROR) == [0x6F, 0x00];
    assert [] + StatusBytes(SW_OK) == [0x90, 0x00];
  }

  predicate IsInstruction(apdu: seq<byte>, ins: byte) {
    |apdu| >= 5 && apdu[1] == ins
  }

  /** A success of another instruction than signing and reset does not touch the sign context. */
  lemma {:induction false} OthersKeep(k: Keys, c: Context, apdu: seq<byte>)
    requires Good(c) && Sized(k) && Accepted(Exchange(k, c, apdu).1)
    requires !IsInstruction(apdu, INS_SIGN_MESSAGE) && !IsInstruction(apdu, INS_RESET)
    ensures Exchange(k, c, apdu).0 == c
  {
    hide HandleSign, Cleared;
    if apdu != [] && Dispatch(k, c, apdu).Some? {
      DispatchKnown(k, c, apdu);
      CaughtClears(Dispatch(k, c, apdu).value);
    }
  }

  /** P2 may ask for more data only together with the binary format. */
  lemma {:induction false} P1P2Exactly(p1: byte, p2: byte)
    ensures P1P2Ok(p1, p2) <==> p1 <= P1_SILENT && p2 <= P2_MORE
  {}

  /** Exceptions of any other kind are answered with 68 00 and their low eleven bits, and clear the context. */
  lemma {:induction false} OtherExceptions(c: Context, e: nat, tx: seq<byte>)
    requires e / 0x1000 != 6 && e / 0x1000 != 9
    ensures Catch(Throw(c, e, tx)) == (Cleared(), Some(tx + [0x68 + e % 0x800 / 0x100, e % 0x800 % 0x100]))
  {
    hide *;
    OtherStatus(e % 0x800);
    OtherCaught(c, e, tx);
  }

  lemma {:induction false} OtherStatus(low: nat)
    requires low < 0x800
    ensures StatusBytes(0x6800 + low) == [0x68 + low / 0x100, low % 0x100]
  {}

  lemma {:induction false} OtherCaught(c: Context, e: nat, tx: seq<byte>)
    requires e / 0x1000 != 6 && e / 0x1000 != 9
    ensures Catch(Throw(c, e, tx)) == (Cleared(), Some(tx + StatusBytes(0x6800 + e % 0x800)))
  {
    hide Cleared, StatusBytes;
  }

  // ---- collecting ----

  function Header(p1: byte, p2: byte, data: seq<byte>): seq<byte>
    requires |data| <= 255
  {
    [CLA, INS_SIGN_MESSAGE, p1, p2, |data|] + data
  }

  /** A chunk of a message: a sign APDU that asks for more and is not empty. */
  predicate IsChunk(apdu: seq<byte>) {
    |apdu| > 5 && apdu[1] == INS_SIGN_MESSAGE && apdu[3] >= P2_MORE
  }

  /** A chunk is appended while there is room; otherwise the message is dropped. */
  lemma {:induction false} ChunkStep(k: Keys, c: Context, p1: byte, chunk: seq<byte>)
    requires Good(c) && Sized(k) && p1 <= P1_SILENT && 1 <= |chunk| <= 255
    ensures var (c', reply) := Exchange(k, c, Header(p1, P2_MORE, chunk));
      if c.length + |chunk| <= 512
      then Collected(c') == Collected(c) + chunk && c'.pending == c.pending && reply == Some([0x90, 0x00])
      else c' == Cleared() && reply == Some([0x67, 0x00])
  {
    hide Cleared;
    var apdu := Header(p1, P2_MORE, chunk);
    assert apdu[5..] == chunk;
    assert Dispatch(k, c, apdu) == Some(HandleSign(k, c, p1, P2_MORE, chunk));
    assert [] + StatusBytes(SW_OK) == [0x90, 0x00] && [] + StatusBytes(SW_WRONG_LENGTH) == [0x67, 0x00];
    P1P2Exactly(p1, P2_MORE);
    hide Dispatch, P1P2Ok, StatusBytes, SignMessage;
  }

  /** Whatever is accepted of a chunk is appended. */
  lemma {:induction false} AcceptedChunk(k: Keys, c: Context, apdu: seq<byte>)
    requires Good(c) && Sized(k) && IsChunk(apdu) && Accepted(Exchange(k, c, apdu).1)
    ensures Collected(Exchange(k, c, apdu).0) == Collected(c) + apdu[5..]
  {
    hide Accepted, Cleared, SignMessage;
    if Dispatch(k, c, apdu).Some? {
      DispatchKnown(k, c, apdu);
      CaughtClears(Dispatch(k, c, apdu).value);
    }
  }

  /** All events are answered with success, and of the sign instruction there are only chunks. */
  ghost predicate Feeding(k: Keys, c: Context, events: seq<Event>)
    requires Good(c) && Sized(k)
    decreases |events|
  {
    events != [] ==>
      && events[0].Apdu? && Accepted(Step(k, c, events[0]).1)
      && (IsInstruction(events[0].bytes, INS_SIGN_MESSAGE) ==> IsChunk(events[0].bytes))
      && !IsInstruction(events[0].bytes, INS_RESET)
      && Feeding(k, Step(k, c, events[0]).0, events[1..])
  }

  /** The data of the chunks, in order. */
  function Fed(events: seq<Event>): seq<byte> {
    if events == [] then []
    else FedBy(events[0]) + Fed(events[1..])
  }

  /** Whatever other successful instructions come in between, the device collects exactly the chunks. */
  lemma {:induction false} CollectsChunks(k: Keys, c: Context, events: seq<Event>)
    requires Good(c) && Sized(k) && Feeding(k, c, events)
    ensures Collected(Run(k, c, events)) == Collected(c) + Fed(events)
    decreases |events|
  {
    if events == [] {
      assert Collected(c) + [] == Collected(c);
    } else {
      FeedStep(k, c, events);
      hide *;
      CollectsChunks(k, Step(k, c, events[0]).0, events[1..]);
      Regroup(Collected(c), FedBy(events[0]), Fed(events[1..]));
    }
  }

  lemma {:induction false} Regroup(a: seq<byte>, b: seq<byte>, d: seq<byte>)
    ensures a + b + d == a + (b + d)
  {}

  function FedBy(e: Event): seq<byte> {
    if e.Apdu? && IsChunk(e.bytes) then e.bytes[5..] else []
  }

  lemma {:induction false} FeedStep(k: Keys, c: Context, events: seq<Event>)
    requires Good(c) && Sized(k) && events != [] && Feeding(k, c, events)
    ensures Feeding(k, Step(k, c, events[0]).0, events[1..]) && Fed(events) == FedBy(events[0]) + Fed(events[1..])
    ensures Run(k, c, events) == Run(k, Step(k, c, events[0]).0, events[1..])
    ensures Collected(Step(k, c, events[0]).0) == Collected(c) + FedBy(events[0])
  {
    hide Exchange, Accepted, Collected;
    if IsChunk(events[0].bytes) {
      AcceptedChunk(k, c, events[0].bytes);
    } else {
      OthersKeep(k, c, events[0].bytes);
      assert Collected(c) + [] == Collected(c);
    }
  }

  // ---- signing ----

  lemma {:induction false} WordBack(x: uint32)
    ensures ReadWord(BigEndian(x), 0) == x
  {}

  lemma {:induction false} WordAt(path: seq<uint32>, i: nat)
    requires i < |path|
    ensures Words(path)[4 * i..4 * i + 4] == BigEndian(path[i])
    decreases i
  {
    if i > 0 {
      WordAt(path[1..], i - 1);
      assert Words(path)[4 * i..4 * i + 4] == Words(path[1..])[4 * (i - 1)..4 * (i - 1) + 4];
    }
  }

  /** The device reads back the path that the host wrote. */
  lemma {:induction false} PathBack(b: seq<byte>, path: seq<uint32>, n: nat)
    requires n <= |path| < 256 && 1 + 4 * |path| <= |b| && b[..1 + 4 * |path|] == PathBytes(path)
    ensures ReadPath(b, n) == path[..n]
    decreases n
  {
    if n > 0 {
      PathBack(b, path, n - 1);
      WordHeld(b, path, n - 1);
      hide ReadWord, PathBytes;
      assert path[..n] == path[..n - 1] + [path[n - 1]];
    }
  }

  lemma {:induction false} WordHeld(b: seq<byte>, path: seq<uint32>, i: nat)
    requires i < |path| < 256 && 1 + 4 * |path| <= |b| && b[..1 + 4 * |path|] == PathBytes(path)
    ensures ReadWord(b, 1 + 4 * i) == path[i]
  {
    WordAt(path, i);
    WordBack(path[i]);
    hide Words, BigEndian;
    forall j | 0 <= j < 4 ensures b[1 + 4 * i + j] == BigEndian(path[i])[j] {
      assert b[1 + 4 * i + j] == b[..1 + 4 * |path|][1 + 4 * i + j] == Words(path)[4 * i + j] == Words(path)[4 * i..4 * i + 4][j];
    }
  }

  /** The collected message is the path and then the message proper. */
  ghost predicate Holds(c: Context, path: seq<uint32>, message: seq<byte>) {
    Good(c) && ValidPath(path) && c.length == 1 + 4 * |path| + |message| && Collected(c) == PathBytes(path) + message
  }

  lemma {:induction false} PathHeld(c: Context, path: seq<uint32>, message: seq<byte>)
    requires Holds(c, path, message)
    ensures c.body[..1 + 4 * |path|] == PathBytes(path) && c.body[1 + 4 * |path|..c.length] == message
    ensures ReadBip32(c.body, c.length) == Some(path)
  {
    var n := 1 + 4 * |path|;
    assert c.body[..n] == Collected(c)[..n] == PathBytes(path);
    assert c.body[n..c.length] == Collected(c)[n..] == message;
    assert c.body[0] == c.body[..n][0];
    PathBack(c.body, path, |path|);
    assert path[..|path|] == path;
  }

  /** The hashed signature of the collected message; the path stays in front, where it is read again. */
  lemma {:induction false} SignsHash(k: Keys, c: Context, path: seq<uint32>, message: seq<byte>)
    requires Sized(k) && Holds(c, path, message)
    ensures var r := SignMessage(k, c, true);
      && r.Some? && r.value.1 == k.sign(path, k.hash(message))
      && ReadBip32(r.value.0.body, r.value.0.length) == Some(path)
  {
    PathHeld(c, path, message);
    var h := k.hash(message);
    assert h[..32] == h;
    Rehashed(c.body, path, h);
    hide ReadBip32, Holds, PathBytes, ReadPath;
  }

  /** With the hash in place of the message the path is still read in front of it. */
  lemma {:induction false} Rehashed(b: seq<byte>, path: seq<uint32>, h: seq<byte>)
    requires |b| == MAX_MSG_SIZE && ValidPath(path) && |h| == 32 && b[..1 + 4 * |path|] == PathBytes(path)
    ensures var n := 1 + 4 * |path|;
      ReadBip32(b[..n] + h + b[n + |h|..], 32) == Some(path)
  {
    var n := 1 + 4 * |path|;
    var body := b[..n] + h + b[n + |h|..];
    assert body[..n] == PathBytes(path) && body[0] == body[..n][0];
    PathBack(body, path, |path|);
    hide ReadPath;
    assert path[..|path|] == path;
  }

  /** The empty chunk ends the message: the device signs the hash of what followed the path, under that
      path, sends the signature and forgets everything. */
  lemma {:induction false} FinalStep(k: Keys, c: Context, path: seq<uint32>, message: seq<byte>)
    requires Sized(k) && Holds(c, path, message)
    ensures Exchange(k, c, Header(P1_SILENT, P2_MORE, []))
         == (Cleared(), Some(k.sign(path, k.hash(message)) + [0] + [0x90, 0x00]))
  {
    var apdu := Header(P1_SILENT, P2_MORE, []);
    assert apdu[5..] == [];
    assert c.body[..c.length] + [] + c.body[c.length..] == c.body;
    assert ReadMessage(c, []) == Some(c);
    SignsHash(k, c, path, message);
    assert StatusBytes(SW_OK) == [0x90, 0x00];
    hide SignMessage, ReadBip32, Cleared, Holds, ReadMessage, StatusBytes;
  }

  lemma {:induction false} BytesBack(b: seq<byte>, at: nat)
    requires at + 4 <= |b|
    ensures BigEndian(ReadWord(b, at)) == b[at..at + 4]
  {}

  /** A path that is read is the one whose bytes are there. */
  lemma {:induction false} PathFrom(b: seq<byte>, n: nat)
    requires 1 + 4 * n <= |b|
    ensures Words(ReadPath(b, n)) == b[1..1 + 4 * n]
  {
    if n > 0 {
      PathFrom(b, n - 1);
      BytesBack(b, 4 * n - 3);
      WordsAppend(ReadPath(b, n - 1), ReadWord(b, 4 * n - 3));
      assert b[1..1 + 4 * n] == b[1..1 + 4 * (n - 1)] + b[4 * n - 3..4 * n + 1];
      hide BigEndian, ReadWord;
    }
  }

  lemma {:induction false} WordsAppend(path: seq<uint32>, x: uint32)
    ensures Words(path + [x]) == Words(path) + BigEndian(x)
  {
    hide BigEndian;
    if path == [] {
      assert path + [x] == [x] && [x][1..] == [];
      assert BigEndian(x) + [] == BigEndian(x);
    } else {
      WordsAppend(path[1..], x);
      assert (path + [x])[1..] == path[1..] + [x];
      Regroup(BigEndian(path[0]), Words(path[1..]), BigEndian(x));
    }
  }

  /** The message starts with the number of elements of a path, one to five, and that many elements. */
  predicate StartsWithPath(m: seq<byte>) {
    m != [] && 1 <= m[0] <= 5 && 1 + 4 * m[0] <= |m|
  }

  lemma {:induction false} PathThere(c: Context) returns (path: seq<uint32>, message: seq<byte>)
    requires Good(c) && StartsWithPath(Collected(c))
    ensures Holds(c, path, message)
  {
    var m := Collected(c);
    var n: nat := m[0];
    path, message := ReadPath(m, n), m[1 + 4 * n..];
    PathFrom(m, n);
    assert PathBytes(path) == m[..1 + 4 * n] by {
      hide ReadPath, Words;
      assert m[..1 + 4 * n] == [n] + m[1..1 + 4 * n];
    }
    hide PathBytes, ReadPath;
    assert m == m[..1 + 4 * n] + message;
  }

  /** The device signs at the end of a message exactly when the message starts with a path, and then the hash of all
      that follows the path; any other message is refused. Both ways the context is cleared. */
  lemma {:induction false} FinalExactly(k: Keys, c: Context) returns (path: seq<uint32>, message: seq<byte>)
    requires Good(c) && Sized(k)
    ensures var r := Exchange(k, c, Header(P1_SILENT, P2_MORE, []));
      && r.0 == Cleared()
      && (StartsWithPath(Collected(c)) ==> Holds(c, path, message) && r.1 == Some(k.sign(path, k.hash(message)) + [0] + [0x90, 0x00]))
      && (!StartsWithPath(Collected(c)) ==> r.1 == Some([0x67, 0x00]))
  {
    path, message := [], [];
    if StartsWithPath(Collected(c)) {
      path, message := PathThere(c);
      FinalStep(k, c, path, message);
      hide Exchange, Cleared, Holds, StartsWithPath, Header;
    } else {
      NoPathRefused(k, c);
      hide Exchange, Cleared, Holds, StartsWithPath, Header;
    }
  }

  lemma {:induction false} NoPathRefused(k: Keys, c: Context)
    requires Good(c) && Sized(k) && !StartsWithPath(Collected(c))
    ensures Exchange(k, c, Header(P1_SILENT, P2_MORE, [])) == (Cleared(), Some([0x67, 0x00]))
  {
    var apdu := Header(P1_SILENT, P2_MORE, []);
    assert apdu[5..] == [];
    assert c.body[..c.length] + [] + c.body[c.length..] == c.body;
    assert ReadMessage(c, []) == Some(c);
    NoPathRead(k, c);
    assert [] + StatusBytes(SW_WRONG_LENGTH) == [0x67, 0x00];
    hide SignMessage, ReadBip32, Cleared, ReadMessage, StatusBytes, StartsWithPath;
  }

  lemma {:induction false} NoPathRead(k: Keys, c: Context)
    requires Good(c) && Sized(k) && !StartsWithPath(Collected(c))
    ensures SignMessage(k, c, true).None?
  {
    if c.length > 0 {
      assert Collected(c)[0] == c.body[0];
    }
    hide SignUnder, ReadPath;
  }

  /** From a cleared context: after all chunks of a path and a message, in whatever company, the empty
      chunk gets the signature of exactly this message. */
  lemma {:induction false} SignsWhatWasFed(k: Keys, events: seq<Event>, path: seq<uint32>, message: seq<byte>)
    requires Sized(k) && Feeding(k, Cleared(), events) && ValidPath(path) && Fed(events) == PathBytes(path) + message
    ensures var c := Run(k, Cleared(), events);
      Exchange(k, c, Header(P1_SILENT, P2_MORE, [])) == (Cleared(), Some(k.sign(path, k.hash(message)) + [0] + [0x90, 0x00]))
  {
    CollectsChunks(k, Cleared(), events);
    var c := Run(k, Cleared(), events);
    assert Collected(Cleared()) == [];
    assert [] + Fed(events) == Fed(events);
    assert |Collected(c)| == c.length;
    FinalStep(k, c, path, message);
  }

  // ---- the raw mode ----

  /** One APDU without P2_MORE signs the message itself. The path is read again against what is left of the
      length, so a short message is refused. */
  lemma {:induction false} RawExactly(k: Keys, p2: byte, path: seq<uint32>, message: seq<byte>)
    requires Sized(k) && ValidPath(path) && |PathBytes(path) + message| <= 255 && p2 < P2_MORE
    ensures var r := Exchange(k, Cleared(), Header(P1_SILENT, p2, PathBytes(path) + message));
      && (Accepted(r.1) <==> message == [] || 1 + 4 * |path| <= |message|)
      && r.0 == Cleared()
      && (Accepted(r.1) ==>
            var signature := if message == [] then [] else k.sign(path, message);
            var text := if p2 == 0x01 then k.hex(signature) else if p2 == 0x02 then k.base58(signature) else signature;
            r.1 == Some(text + [0] + [0x90, 0x00]))
  {
    Exported(k, p2, if message == [] then [] else k.sign(path, message));
    var apdu := Header(P1_SILENT, p2, PathBytes(path) + message);
    RawDispatch(k, p2, PathBytes(path) + message);
    RawHandled(k, p2, path, message);
    hide HandleSign, Cleared, Export, Header, PathBytes, Dispatch, Catch, Accepted, Clears, StatusBytes, StatusOf, ValidPath, Sized;
    CaughtClears(Dispatch(k, Cleared(), apdu).value);
    CaughtReply(Dispatch(k, Cleared(), apdu).value);
  }

  /** Hexadecimal for P2 = 1, base58 for P2 = 2, the bytes themselves for any other P2. */
  lemma {:induction false} Exported(k: Keys, p2: byte, signature: seq<byte>)
    ensures Export(k, p2, signature) == if p2 == 0x01 then k.hex(signature) else if p2 == 0x02 then k.base58(signature) else signature
  {}

  lemma {:induction false} CaughtReply(o: Outcome)
    requires o.Throw? && Known(o)
    ensures Catch(o).1.Some?
    ensures o.sw == SW_OK ==> Catch(o) == (o.c, Some(o.tx + [0x90, 0x00]))
  {
    assert StatusBytes(SW_OK) == [0x90, 0x00];
  }

  lemma {:induction false} RawDispatch(k: Keys, p2: byte, data: seq<byte>)
    requires Sized(k) && 0 < |data| <= 255
    ensures Header(P1_SILENT, p2, data) != []
    ensures Dispatch(k, Cleared(), Header(P1_SILENT, p2, data)) == Some(HandleSign(k, Cleared(), P1_SILENT, p2, data))
  {
    assert Header(P1_SILENT, p2, data)[5..] == data;
    hide HandleSign, Cleared;
  }

  lemma {:induction false} RawHandled(k: Keys, p2: byte, path: seq<uint32>, message: seq<byte>)
    requires Sized(k) && ValidPath(path) && |PathBytes(path) + message| <= 255 && p2 < P2_MORE
    ensures var o := HandleSign(k, Cleared(), P1_SILENT, p2, PathBytes(path) + message);
      && o.Throw? && Known(o)
      && (o.sw == SW_OK <==> message == [] || 1 + 4 * |path| <= |message|)
      && (o.sw == SW_OK ==> o.c == Cleared() && o.tx == Export(k, p2, if message == [] then [] else k.sign(path, message)) + [0])
  {
    var data := PathBytes(path) + message;
    P1P2Exactly(P1_SILENT, p2);
    var c := ReadMessage(Cleared(), data).value;
    assert Collected(c) == data;
    RawSigned(k, c, path, message);
    hide SignMessage, Cleared, Export, ReadMessage, ReadBip32, P1P2Ok;
  }

  lemma {:induction false} RawSigned(k: Keys, c: Context, path: seq<uint32>, message: seq<byte>)
    requires Sized(k) && Holds(c, path, message) && |message| < 256
    ensures var r := SignMessage(k, c, false);
      && r.Some? && r.value.1 == (if message == [] then [] else k.sign(path, message))
      && (ReadBip32(r.value.0.body, r.value.0.length).Some? <==> message == [] || 1 + 4 * |path| <= |message|)
  {
    PathHeld(c, path, message);
    var n := 1 + 4 * |path|;
    assert c.body[..n] + message + c.body[n + |message|..] == c.body;
    assert message[..|message|] == message;
    hide ReadPath;
  }

  /** Without hashing only the low eight bits of the length count: of a message of 256 bytes or more a prefix is
      signed, and of one of 256 bytes nothing. */
  lemma {:induction false} RawSignsPrefix(k: Keys, c: Context, path: seq<uint32>, message: seq<byte>)
    requires Sized(k) && Holds(c, path, message)
    ensures var r, prefix := SignMessage(k, c, false), message[..|message| % 256];
      && r.Some? && r.value.1 == (if prefix == [] then [] else k.sign(path, prefix))
      && (prefix == message <==> |message| < 256)
  {
    PathHeld(c, path, message);
    var n := 1 + 4 * |path|;
    assert c.body[n..c.length] == message;
    hide ReadPath;
  }

  /** The path 44' as the host sends it: one element, most significant byte first. */
  lemma {:induction false} PathExample()
    ensures PathBytes([0x8000_002C]) == [1, 0x80, 0x00, 0x00, 0x2C]
  {
    assert [0x8000_002C][..0] == [];
    assert Words([]) == [] && [] + [0x80, 0x00, 0x00, 0x2C] == [0x80, 0x00, 0x00, 0x2C];
  }

  /** One byte under the path 0': refused. */
  lemma {:induction false} ShortRawRefused(k: Keys)
    requires Sized(k)
    ensures !Accepted(Exchange(k, Cleared(), Header(P1_SILENT, P2_BIN, PathBytes([0x8000_0000]) + [1])).1)
  {
    hide Exchange, Accepted, Header, Cleared;
    RawExactly(k, P2_BIN, [0x8000_0000], [1]);
  }
}
