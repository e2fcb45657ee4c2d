/** Signing with the user's consent: under P1 = CONFIRM the answer waits for the approve button. */
module SigningConfirm {
  import opened Bits
  import opened Wire
  import opened Signing
  import opened SigningRun

  /** The APDU completes a message: it is not a chunk with more to come. */
  predicate Completes(p2: byte, data: seq<byte>) {
    p2 < P2_MORE || data == []
  }

  lemma {:induction false} SignDispatch(k: Keys, c: Context, p1: byte, p2: byte, data: seq<byte>)
    requires Good(c) && Sized(k) && |data| <= 255
    ensures Header(p1, p2, data) != []
    ensures Exchange(k, c, Header(p1, p2, data))
         == if data == [] && p2 < P2_MORE then (Cleared(), Some([0x67, 0x00])) else Catch(HandleSign(k, c, p1, p2, data))
  {
    var apdu := Header(p1, p2, data);
    assert apdu[5..] == data;
    hide HandleSign, Cleared;
    assert [] + StatusBytes(SW_WRONG_LENGTH) == [0x67, 0x00];
  }

  /** Where P1 = SILENT is answered with a signature, P1 = CONFIRM is answered with nothing; the button to approve
      then sends exactly that answer, the button to reject sends 69 85 alone, and both leave the context cleared.
      In all other cases the two are answered alike. */
  lemma {:induction false} ConfirmAsksFirst(k: Keys, c: Context, p2: byte, data: seq<byte>)
    requires Good(c) && Sized(k) && |data| <= 255
    ensures var silent, asked := Exchange(k, c, Header(P1_SILENT, p2, data)), Exchange(k, c, Header(P1_CONFIRM, p2, data));
      if Accepted(silent.1) && Completes(p2, data) then (
        && asked.1 == None && asked.0 != Cleared() && silent.0 == Cleared()
        && Press(asked.0, true) == silent
        && Press(asked.0, false) == (Cleared(), Some([0x69, 0x85])))
      else asked == silent
  {
    hide *;
    SignDispatch(k, c, P1_SILENT, p2, data);
    SignDispatch(k, c, P1_CONFIRM, p2, data);
    if data == [] && p2 < P2_MORE {
      LengthError();
    } else {
      var o, q := HandleSign(k, c, P1_SILENT, p2, data), HandleSign(k, c, P1_CONFIRM, p2, data);
      ConfirmHandled(k, c, p2, data);
      SilentCaught(o);
      AskedCaught(o, q);
      RejectBytes();
    }
  }

  /** The handler with and without the question. */
  lemma {:induction false} ConfirmHandled(k: Keys, c: Context, p2: byte, data: seq<byte>)
    requires Good(c) && Sized(k)
    ensures var o, q := HandleSign(k, c, P1_SILENT, p2, data), HandleSign(k, c, P1_CONFIRM, p2, data);
      && o.Throw? && (o.sw == SW_OK || o.sw / 0x1000 == 6)
      && (if o.sw == SW_OK && Completes(p2, data) then o.c == Cleared() && q.Asks? && q.c.pending == Some(o.tx) else q == o)
      && (Completes(p2, data) || o.tx == [])
      && (o.sw != SW_OK ==> o.tx == [])
  {
    P1P2Exactly(P1_SILENT, p2);
    P1P2Exactly(P1_CONFIRM, p2);
    hide SignMessage, ReadMessage, ReadBip32, Cleared, Export, P1P2Ok;
  }

  lemma {:induction false} SilentCaught(o: Outcome)
    requires o.Throw? && (o.sw == SW_OK || o.sw / 0x1000 == 6)
    ensures Accepted(Catch(o).1) <==> o.sw == SW_OK
    ensures o.sw == SW_OK ==> Catch(o) == (o.c, Some(o.tx + StatusBytes(SW_OK)))
  {
    EndsInStatus(o.tx, o.sw);
  }

  lemma {:induction false} AskedCaught(o: Outcome, q: Outcome)
    requires o.Throw?
    ensures q.Asks? && q.c.pending == Some(o.tx) ==>
      && Catch(q) == (q.c, None) && q.c != Cleared()
      && Press(q.c, true) == (Cleared(), Some(o.tx + StatusBytes(SW_OK)))
      && Press(q.c, false) == (Cleared(), Some(StatusBytes(SW_USER_REJECTED)))
  {}

  lemma {:induction false} RejectBytes()
    ensures StatusBytes(SW_USER_REJECTED) == [0x69, 0x85]
  {}

  /** The whole message with consent: the completing APDU is not answered and the context is not cleared; then the
      user decides whether the signature of exactly this message is sent. */
  lemma {:induction false} ConfirmedMessage(k: Keys, c: Context, path: seq<uint32>, message: seq<byte>)
    requires Sized(k) && Holds(c, path, message)
    ensures var asked := Exchange(k, c, Header(P1_CONFIRM, P2_MORE, []));
      && asked.1 == None && asked.0 != Cleared() && Waiting(asked.0, path, k.hash(message))
      && Press(asked.0, true) == (Cleared(), Some(k.sign(path, k.hash(message)) + [0] + [0x90, 0x00]))
      && Press(asked.0, false) == (Cleared(), Some([0x69, 0x85]))
  {
    FinalStep(k, c, path, message);
    HoldsGood(c, path, message);
    ConfirmAsksFirst(k, c, P2_MORE, []);
    hide Exchange, Cleared, Header, Accepted, Holds, Press;
    SignatureAccepted(k.sign(path, k.hash(message)) + [0]);
    AskedKeeps(k, c, path, message);
  }

  /** What the context holds meanwhile: the path, and the hash in place of the message. */
  ghost predicate Waiting(c: Context, path: seq<uint32>, hash: seq<byte>) {
    Good(c) && ValidPath(path) && c.length == |hash| == 32 && c.body[..1 + 4 * |path| + 32] == PathBytes(path) + hash
  }

  lemma {:induction false} AskedKeeps(k: Keys, c: Context, path: seq<uint32>, message: seq<byte>)
    requires Sized(k) && Holds(c, path, message)
    requires Exchange(k, c, Header(P1_CONFIRM, P2_MORE, [])).1 == None
    ensures Waiting(Exchange(k, c, Header(P1_CONFIRM, P2_MORE, [])).0, path, k.hash(message))
  {
    hide *;
    HoldsGood(c, path, message);
    SignDispatch(k, c, P1_CONFIRM, P2_MORE, []);
    HashHeld(k, c, path, message);
    AsksWith(k, c);
    var c1 := SignMessage(k, c, true).value.0;
    SameWaiting(c1, Exchange(k, c, Header(P1_CONFIRM, P2_MORE, [])).0, path, k.hash(message));
  }

  lemma {:induction false} AsksWith(k: Keys, c: Context)
    requires Good(c) && Sized(k) && SignMessage(k, c, true).Some?
    ensures var r, c1 := Catch(HandleSign(k, c, P1_CONFIRM, P2_MORE, [])), SignMessage(k, c, true).value.0;
      r.1 == None ==> r.0.body == c1.body && r.0.length == c1.length
  {
    assert c.body[..c.length] + [] + c.body[c.length..] == c.body;
    assert ReadMessage(c, []) == Some(c);
    hide SignMessage, ReadMessage, ReadBip32, Export, Cleared, StatusBytes, Sized;
  }

  lemma {:induction false} SameWaiting(c: Context, d: Context, path: seq<uint32>, hash: seq<byte>)
    requires Waiting(c, path, hash) && d.body == c.body && d.length == c.length
    ensures Waiting(d, path, hash)
  {}

  lemma {:induction false} HashHeld(k: Keys, c: Context, path: seq<uint32>, message: seq<byte>)
    requires Sized(k) && Holds(c, path, message)
    ensures SignMessage(k, c, true).Some? && Waiting(SignMessage(k, c, true).value.0, path, k.hash(message))
  {
    PathHeld(c, path, message);
    var n, h := 1 + 4 * |path|, k.hash(message);
    assert SignMessage(k, c, true) == Some(SignUnder(k, c, path, true));
    hide PathBytes, ReadBip32, ReadPath, Holds;
    var body := c.body[..n] + h + c.body[n + |h|..];
    assert body[..n + 32] == c.body[..n] + h;
  }

  lemma {:induction false} HoldsGood(c: Context, path: seq<uint32>, message: seq<byte>)
    requires Holds(c, path, message)
    ensures Good(c)
  {}

  lemma {:induction false} SignatureAccepted(tx: seq<byte>)
    ensures Accepted(Some(tx + [0x90, 0x00]))
  {
    assert StatusBytes(SW_OK) == [0x90, 0x00];
    EndsInStatus(tx, SW_OK);
  }

  // ---- runs ----

  /** Signing is asked for with consent, and the user does not approve. */
  predicate Unapproved(e: Event) {
    match e
    case Apdu(apdu) => |apdu| >= 5 && apdu[1] == INS_SIGN_MESSAGE ==> apdu[2] == P1_CONFIRM
    case Button(approve) => !approve
  }

  /** Other instructions are answered in the same way whatever the signing context holds. */
  predicate Signs(e: Event) {
    e.Button? || IsInstruction(e.bytes, INS_SIGN_MESSAGE)
  }

  lemma {:induction false} OthersAnswer(k: Keys, c: Context, d: Context, apdu: seq<byte>)
    requires Good(c) && Good(d) && Sized(k) && !IsInstruction(apdu, INS_SIGN_MESSAGE)
    ensures Exchange(k, c, apdu).1 == Exchange(k, d, apdu).1
  {
    hide HandleSign, Cleared;
  }

  /** Without approval the answer to a sign APDU or a button is nothing or a bare status. */
  lemma {:induction false} UnapprovedStep(k: Keys, c: Context, e: Event)
    requires Good(c) && Sized(k) && Unapproved(e) && Signs(e)
    ensures var reply := Step(k, c, e).1;
      reply == None || |reply.value| == 2
  {
    hide Cleared;
    match e
    case Button(_) =>
    case Apdu(apdu) =>
      if Dispatch(k, c, apdu).Some? && Dispatch(k, c, apdu).value.Throw? {
        BareThrow(k, c, apdu);
      }
  }

  lemma {:induction false} BareThrow(k: Keys, c: Context, apdu: seq<byte>)
    requires Good(c) && Sized(k) && IsInstruction(apdu, INS_SIGN_MESSAGE) && apdu[2] == P1_CONFIRM
    requires Dispatch(k, c, apdu).Some? && Dispatch(k, c, apdu).value.Throw?
    ensures Dispatch(k, c, apdu).value.tx == []
  {
    hide SignMessage, ReadMessage, ReadBip32, Cleared, Export, P1P2Ok;
  }

  /** The replies of a run. */
  ghost function Replies(k: Keys, c: Context, events: seq<Event>): (r: seq<Option<seq<byte>>>)
    requires Good(c) && Sized(k)
    ensures |r| == |events|
    decreases |events|
  {
    if events == [] then [] else [Step(k, c, events[0]).1] + Replies(k, Step(k, c, events[0]).0, events[1..])
  }

  /** In a run in which signing is asked for with consent and the user approves nothing, no sign APDU and no button
      is answered with more than a status: no signature leaves the device. */
  lemma {:induction false} NothingUnapproved(k: Keys, c: Context, events: seq<Event>)
    requires Good(c) && Sized(k) && forall e :: e in events ==> Unapproved(e)
    ensures forall i :: 0 <= i < |events| && Signs(events[i]) ==>
      Replies(k, c, events)[i] == None || |Replies(k, c, events)[i].value| == 2
    decreases |events|
  {
    if events != [] {
      hide Step, Unapproved, Signs;
      assert events[0] in events;
      if Signs(events[0]) {
        UnapprovedStep(k, c, events[0]);
      }
      var c' := Step(k, c, events[0]).0;
      NothingUnapproved(k, c', events[1..]);
      var r := Replies(k, c, events);
      forall i | 0 <= i < |events| && Signs(events[i]) ensures r[i] == None || |r[i].value| == 2 {
        if i > 0 {
          assert events[1..][i - 1] == events[i] && r[i] == Replies(k, c', events[1..])[i - 1];
        }
      }
    }
  }
}
