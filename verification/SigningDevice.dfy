/** The two programs of the signing protocol: the device with its static context, and the host loop that
    sends a message to it in chunks. */
module SigningDevice {
  import opened Sequences
  import opened Bits
  import opened Wire
  import opened Signing

  /** No exception, or the status word of one. */
  type Thrown = Option<nat>

  class Device {
    const keys: Keys
    const msgBody: array<byte>
    var msgLength: nat
    var outputLength: nat
    var pending: Option<seq<byte>>

    ghost predicate Valid()
      reads this
    {
      msgBody.Length == MAX_MSG_SIZE && msgLength <= MAX_MSG_SIZE && Sized(keys)
    }

    ghost function Now(): Context
      reads this, msgBody
    {
      Context(msgBody[..], msgLength, outputLength, pending)
    }

    constructor (k: Keys)
      requires Sized(k)
      ensures Valid() && keys == k && Now() == Cleared() && fresh(msgBody)
    {
      keys := k;
      msgBody := new byte[MAX_MSG_SIZE](_ => 0);
      msgLength, outputLength, pending := 0, 0, None;
      new;
      assert msgBody[..] == Zeros(MAX_MSG_SIZE);
    }

    /** clear_context_sign_message. */
    method Clear()
      requires Valid()
      modifies this, msgBody
      ensures Valid() && Now() == Cleared()
    {
      forall i | 0 <= i < msgBody.Length {
        msgBody[i] := 0;
      }
      msgLength, outputLength, pending := 0, 0, None;
      assert msgBody[..] == Zeros(MAX_MSG_SIZE);
    }

    /** os_memmove into the message buffer. */
    method Store(at: nat, data: seq<byte>)
      requires at + |data| <= msgBody.Length
      modifies msgBody
      ensures msgBody[..] == old(msgBody[..at]) + data + old(msgBody[at + |data|..])
    {
      for i := 0 to |data|
        invariant msgBody[..] == old(msgBody[..at]) + data[..i] + old(msgBody[at + i..])
      {
        msgBody[at + i] := data[i];
      }
    }

    /** read_message. */
    method ReadMessage(buffer: seq<byte>) returns (t: Thrown)
      requires Valid()
      modifies this`msgLength, msgBody
      ensures Valid()
      ensures match Signing.ReadMessage(old(Now()), buffer)
        case None => t == Some(SW_WRONG_LENGTH) && Now() == old(Now())
        case Some(c) => t == None && Now() == c
    {
      if msgLength + |buffer| > MAX_MSG_SIZE {
        return Some(SW_WRONG_LENGTH);
      }
      if |buffer| != 0 {
        Store(msgLength, buffer);
        msgLength := msgLength + |buffer|;
      } else {
        assert msgBody[..] == msgBody[..msgLength] + buffer + msgBody[msgLength + |buffer|..];
      }
      return None;
    }

    /** io_read_bip32 on the message buffer. */
    method ReadPath(bufferLength: nat) returns (t: Thrown, path: seq<uint32>)
      requires Valid()
      ensures match ReadBip32(msgBody[..], bufferLength)
        case None => t == Some(SW_WRONG_LENGTH)
        case Some(p) => t == None && path == p
    {
      path := [];
      var length := msgBody[0];
      if length < 1 || length > BIP32_PATH_LENGTH || (bufferLength != 0 && 4 * length > bufferLength - 1) {
        return Some(SW_WRONG_LENGTH), [];
      }
      for i := 0 to length
        invariant path == Signing.ReadPath(msgBody[..], i)
      {
        var at := 1 + 4 * i;
        path := path + [(msgBody[at] as nat) * 0x100_0000 + (msgBody[at + 1] as nat) * 0x1_0000
                        + (msgBody[at + 2] as nat) * 0x100 + (msgBody[at + 3] as nat)];
      }
      return None, path;
    }

    /** sign_message. */
    method SignMessage(hashBeforeSign: bool) returns (t: Thrown, signature: seq<byte>)
      requires Valid()
      modifies this, msgBody
      ensures Valid()
      ensures match Signing.SignMessage(keys, old(Now()), hashBeforeSign)
        case None => t == Some(SW_WRONG_LENGTH) && Now() == old(Now())
        case Some(r) => t == None && Now() == r.0 && signature == r.1
    {
      signature := [];
      if msgLength == 0 {
        return Some(SW_WRONG_LENGTH), [];
      }
      if msgLength > MAX_MSG_SIZE {
        return Some(SW_WRONG_LENGTH), [];
      }
      var status, path := ReadPath(msgLength);
      if status.Some? {
        return status, [];
      }
      signature := SignUnder(path, hashBeforeSign);
      return None, signature;
    }

    /** The rest of sign_message. */
    method SignUnder(path: seq<uint32>, hashBeforeSign: bool) returns (signature: seq<byte>)
      requires Valid() && ValidPath(path) && 1 + 4 * |path| <= msgLength
      modifies this, msgBody
      ensures Valid() && (Now(), signature) == Signing.SignUnder(keys, old(Now()), path, hashBeforeSign)
    {
      ghost var c := Now();
      var msgOffset := 1 + 4 * |path|;
      var message := msgBody[msgOffset..msgLength];
      assert message == c.body[msgOffset..c.length];
      msgLength := msgLength - msgOffset;
      if hashBeforeSign {
        var hash := keys.hash(message);
        Store(msgOffset, hash);
        msgLength := |hash|;
      } else {
        assert c.body[..msgOffset] + message + c.body[msgOffset + |message|..] == c.body;
      }
      ghost var signed := if hashBeforeSign then keys.hash(message) else message;
      assert msgBody[..] == c.body[..msgOffset] + signed + c.body[msgOffset + |signed|..];
      signature := SignCut(path, msgOffset, signed);
    }

    /** iost_sign, with its 8-bit length. */
    method SignCut(path: seq<uint32>, msgOffset: nat, ghost signed: seq<byte>) returns (signature: seq<byte>)
      requires Valid() && msgOffset + |signed| <= |msgBody[..]| && msgBody[..][msgOffset..msgOffset + |signed|] == signed
      requires msgLength == |signed|
      modifies this`outputLength
      ensures signature == var cut := signed[..|signed| % 256]; if cut == [] then [] else keys.sign(path, cut)
      ensures outputLength == |signature|
    {
      var hashLength := msgLength % 256;
      assert msgBody[msgOffset..msgOffset + hashLength] == signed[..hashLength];
      signature := [];
      if hashLength != 0 {
        signature := keys.sign(path, msgBody[msgOffset..msgOffset + hashLength]);
      }
      outputLength := |signature|;
    }

    /** handle_sign_message; `t` is None when the user is asked. */
    method HandleSign(p1: byte, p2: byte, buffer: seq<byte>) returns (t: Thrown, tx: seq<byte>)
      requires Valid()
      modifies this, msgBody
      ensures Valid()
      ensures match Signing.HandleSign(keys, old(Now()), p1, p2, buffer)
        case Throw(c, sw, out) => t == Some(sw) && tx == out && Now() == c
        case Asks(c) => t == None && Now() == c
    {
      hide Signing.ReadMessage, Signing.SignMessage, ReadBip32, Cleared;
      tx := [];
      if p1 != P1_CONFIRM && p1 != P1_SILENT {
        return Some(SW_INVALID_P1P2), [];
      }
      var top := if p2 >= P2_MORE then P2_MORE else 0;
      if p2 != P2_MORE && top != P2_BIN && top != P2_HEX && top != P2_BASE58 {
        return Some(SW_INVALID_P1P2), [];
      }
      t := ReadMessage(buffer);
      if t.Some? {
        return;
      }
      var signature;
      if top != P2_MORE || |buffer| == 0 {
        t, signature := SignMessage(|buffer| == 0);
        if t.Some? {
          return;
        }
      } else {
        return Some(SW_OK), [];
      }
      var path;
      t, path := ReadPath(msgLength);
      if t.Some? {
        return;
      }
      tx := Export(keys, p2, signature) + [0];
      if p1 != P1_CONFIRM {
        Clear();
        return Some(SW_OK), tx;
      }
      outputLength, pending := |tx| - 1, Some(tx);
      return None, tx;
    }

    /** The approve button on the right and the reject button on the left: io_exchange_status with what the handler
        left in the buffer, or with nothing. Without a question on the screen the buttons have other meanings. */
    method Press(approve: bool) returns (reply: Option<seq<byte>>)
      requires Valid()
      modifies this, msgBody
      ensures Valid()
      ensures (Now(), reply) == Signing.Press(old(Now()), approve)
    {
      hide Cleared;
      if pending.None? {
        return None;
      }
      if !approve {
        reply := Some(StatusBytes(SW_USER_REJECTED));
      } else {
        reply := Some(pending.value + StatusBytes(SW_OK));
      }
      Clear();
    }

    /** One turn of app_main: `reply` is None where nothing is sent back. */
    method Exchange(apdu: seq<byte>) returns (reply: Option<seq<byte>>)
      requires Valid()
      modifies this, msgBody
      ensures Valid()
      ensures (Now(), reply) == Signing.Exchange(keys, old(Now()), apdu)
    {
      hide Signing.HandleSign, Cleared;
      if |apdu| < 1 {
        Clear();
        return None;
      }
      var e, tx: seq<byte> := SW_OK, [];
      if apdu[0] != CLA {
        e := SW_CLA_NOT_SUPPORTED;
      } else if |apdu| < 5 || (apdu[4] == 0 && apdu[3] < P2_MORE) || (apdu[4] as nat) + 5 != |apdu| {
        e := SW_WRONG_LENGTH;
      } else {
        match apdu[1]
        case 0x00 => Clear();
        case 0x01 => tx := apdu;
        case 0x02 => tx := keys.configuration;
        case 0x04 =>
          var answer := keys.publicKey(apdu);
          if answer.Some? {
            tx := answer.value;
          } else {
            e := SW_INTERNAL_ERROR;
          }
        case 0x08 =>
          var t;
          t, tx := HandleSign(apdu[2], apdu[3], apdu[5..]);
          if t.None? {
            return None;
          }
          e := t.value;
        case 0xFF =>
          Clear();
          return None;
        case _ => e := SW_INS_NOT_SUPPORTED;
      }
      var sw := e;
      if e / 0x1000 == 6 {
        Clear();
      } else if e / 0x1000 != 9 {
        Clear();
        sw := 0x6800 + e % 0x800;
      }
      return Some(tx + StatusBytes(sw));
    }
  }
}
