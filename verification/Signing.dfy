/** The device side of message signing as a state machine: what every APDU does to the sign context, and
    the reply it gets. */
module Signing {
  import opened Sequences
  import opened Bits
  import opened Wire

  const MAX_MSG_SIZE: nat := 512
  const BIP32_PATH_LENGTH: nat := 5

  const CLA: byte := 0xE0
  const INS_RESET: byte := 0x00
  const INS_ECHO: byte := 0x01
  const INS_GET_CONFIGURATION: byte := 0x02
  const INS_GET_PUBLIC_KEY: byte := 0x04
  const INS_SIGN_MESSAGE: byte := 0x08
  const INS_RETURN_TO_DASHBOARD: byte := 0xFF
  const P1_CONFIRM: byte := 0x00
  const P1_SILENT: byte := 0x01
  const P2_BIN: byte := 0x00
  const P2_HEX: byte := 0x01
  const P2_BASE58: byte := 0x02
  const P2_MORE: byte := 0x80

  const SW_OK: nat := 0x9000
  const SW_WRONG_LENGTH: nat := 0x6700
  const SW_USER_REJECTED: nat := 0x6985
  const SW_INTERNAL_ERROR: nat := 0x6F00
  const SW_INVALID_P1P2: nat := 0x6B00
  const SW_INS_NOT_SUPPORTED: nat := 0x6D00
  const SW_CLA_NOT_SUPPORTED: nat := 0x6E00

  /** What the device computes with its seed, left uninterpreted: the hash, the signature under a path,
      the base58 text and the hexadecimal text of bytes, the answers to the other instructions. */
  datatype Keys = Keys(
    hash: seq<byte> -> seq<byte>,
    sign: (seq<uint32>, seq<byte>) -> seq<byte>,
    base58: seq<byte> -> seq<byte>,
    hex: seq<byte> -> seq<byte>,
    publicKey: seq<byte> -> Option<seq<byte>>,
    configuration: seq<byte>)

  ghost predicate Sized(k: Keys) {
    && (forall m :: |k.hash(m)| == 32)
    && (forall path, m :: |k.sign(path, m)| == 64)
    && (forall m :: |k.base58(m)| <= 2 * |m|) && (forall m :: |k.hex(m)| == 2 * |m|)
  }

  /** sign_tx_context_t, and the reply that waits for the approve button. */
  datatype Context = Context(body: seq<byte>, length: nat, output: nat, pending: Option<seq<byte>>)

  /** clear_context_sign_message. */
  function Cleared(): Context {
    Context(Zeros(MAX_MSG_SIZE), 0, 0, None)
  }

  predicate Good(c: Context) {
    |c.body| == MAX_MSG_SIZE && c.length <= MAX_MSG_SIZE
  }

  /** The message collected so far. */
  function Collected(c: Context): seq<byte>
    requires Good(c)
  {
    c.body[..c.length]
  }

  // ---- BIP32 paths ----

  function BigEndian(x: uint32): (b: seq<byte>)
    ensures |b| == 4
  {
    [x / 256 / 256 / 256, x / 256 / 256 % 256, x / 256 % 256, x % 256]
  }

  function ReadWord(b: seq<byte>, at: nat): uint32
    requires at + 4 <= |b|
  {
    (b[at] as nat) * 0x100_0000 + (b[at + 1] as nat) * 0x1_0000 + (b[at + 2] as nat) * 0x100 + (b[at + 3] as nat)
  }

  function Words(path: seq<uint32>): (b: seq<byte>)
    ensures |b| == 4 * |path|
  {
    if path == [] then [] else BigEndian(path[0]) + Words(path[1..])
  }

  predicate ValidPath(path: seq<uint32>) {
    1 <= |path| <= BIP32_PATH_LENGTH
  }

  /** bufferFromBip32: the number of elements, then each of them. */
  function PathBytes(path: seq<uint32>): (b: seq<byte>)
    requires |path| < 256
    ensures |b| == 1 + 4 * |path|
  {
    [|path|] + Words(path)
  }

  function ReadPath(b: seq<byte>, n: nat): (path: seq<uint32>)
    requires 1 + 4 * n <= |b|
    ensures |path| == n
  {
    if n == 0 then [] else ReadPath(b, n - 1) + [ReadWord(b, 4 * n - 3)]
  }

  /** io_read_bip32. The comparison is one of unsigned numbers, so a length of zero passes it. */
  function ReadBip32(b: seq<byte>, length: nat): (r: Option<seq<uint32>>)
    requires |b| >= 21
    ensures r.Some? ==> ValidPath(r.value)
  {
    var n := b[0];
    if n < 1 || n > BIP32_PATH_LENGTH || (length > 0 && 4 * n > length - 1) then None
    else Some(ReadPath(b, n))
  }

  // ---- sign_message.c ----

  /** read_message. */
  function ReadMessage(c: Context, data: seq<byte>): (r: Option<Context>)
    requires Good(c)
    ensures r.Some? ==> Good(r.value)
  {
    if c.length + |data| > MAX_MSG_SIZE then None
    else Some(c.(body := c.body[..c.length] + data + c.body[c.length + |data|..], length := c.length + |data|))
  }

  /** What sign_message does once it has the path: the message is hashed in place and signed. iost_sign
      takes an 8-bit length. */
  function SignUnder(k: Keys, c: Context, path: seq<uint32>, hashFirst: bool): (r: (Context, seq<byte>))
    requires Good(c) && Sized(k) && ValidPath(path) && 1 + 4 * |path| <= c.length
    ensures Good(r.0)
  {
    var offset := 1 + 4 * |path|;
    var message := c.body[offset..c.length];
    var signed := if hashFirst then k.hash(message) else message;
    var body := c.body[..offset] + signed + c.body[offset + |signed|..];
    var cut := signed[..|signed| % 256];
    var signature := if cut == [] then [] else k.sign(path, cut);
    (c.(body := body, length := |signed|, output := |signature|), signature)
  }

  /** sign_message: the context after it, and the signature. */
  function SignMessage(k: Keys, c: Context, hashFirst: bool): (r: Option<(Context, seq<byte>)>)
    requires Good(c) && Sized(k)
    ensures r.Some? ==> Good(r.value.0)
  {
    if c.length == 0 then None
    else
      var path := ReadBip32(c.body, c.length);
      if path.None? then None else Some(SignUnder(k, c, path.value, hashFirst))
  }

  /** The signature in the encoding that P2 asks for. */
  function Export(k: Keys, p2: byte, signature: seq<byte>): seq<byte> {
    if p2 == P2_HEX then k.hex(signature)
    else if p2 == P2_BASE58 then k.base58(signature)
    else signature
  }

  /** io_check_p1p2; `p2 & P2_MORE` keeps only the top bit, so below it every value passes as P2_BIN. */
  predicate P1P2Ok(p1: byte, p2: byte) {
    var top := if p2 >= P2_MORE then P2_MORE else 0;
    && (p1 == P1_CONFIRM || p1 == P1_SILENT)
    && (p2 == P2_MORE || top == P2_BIN || top == P2_HEX || top == P2_BASE58)
  }

  /** What a handler leaves: an exception with what is in the reply so far, or a question to the user. */
  datatype Outcome = Throw(c: Context, sw: nat, tx: seq<byte>) | Asks(c: Context)

  /** handle_sign_message. */
  function HandleSign(k: Keys, c: Context, p1: byte, p2: byte, data: seq<byte>): (o: Outcome)
    requires Good(c) && Sized(k)
    ensures Good(o.c)
  {
    if !P1P2Ok(p1, p2) then Throw(c, SW_INVALID_P1P2, [])
    else
      var read := ReadMessage(c, data);
      if read.None? then Throw(c, SW_WRONG_LENGTH, [])
      else if p2 >= P2_MORE && data != [] then Throw(read.value, SW_OK, [])
      else
        var signed := SignMessage(k, read.value, data == []);
        if signed.None? then Throw(read.value, SW_WRONG_LENGTH, [])
        else
          var c1 := signed.value.0;
          if ReadBip32(c1.body, c1.length).None? then Throw(c1, SW_WRONG_LENGTH, [])
          else
            var tx := Export(k, p2, signed.value.1) + [0];
            if p1 != P1_CONFIRM then Throw(Cleared(), SW_OK, tx)
            else Asks(c1.(output := |tx| - 1, pending := Some(tx)))
  }

  // ---- main.c ----

  function StatusBytes(sw: nat): seq<byte> {
    [sw / 256 % 256, sw % 256]
  }

  /** CATCH_OTHER: the status word of an exception, and whether it clears the contexts. */
  function StatusOf(e: nat): nat {
    if e / 0x1000 == 6 || e / 0x1000 == 9 then e else 0x6800 + e % 0x800
  }

  predicate Clears(e: nat) {
    e / 0x1000 != 9
  }

  function Catch(o: Outcome): (r: (Context, Option<seq<byte>>))
    ensures Good(o.c) ==> Good(r.0)
  {
    match o
    case Throw(c, e, tx) => (if Clears(e) then Cleared() else c, Some(tx + StatusBytes(StatusOf(e))))
    case Asks(c) => (c, None)
  }

  /** The checks of the main loop and the switch over the instructions. */
  function Dispatch(k: Keys, c: Context, apdu: seq<byte>): (o: Option<Outcome>)
    requires Good(c) && Sized(k) && apdu != []
    ensures o.Some? ==> Good(o.value.c)
  {
    if apdu[0] != CLA then Some(Throw(c, SW_CLA_NOT_SUPPORTED, []))
    else if |apdu| < 5 || (apdu[4] == 0 && apdu[3] < P2_MORE) || (apdu[4] as nat) + 5 != |apdu| then Some(Throw(c, SW_WRONG_LENGTH, []))
    else
      var ins, p1, p2, data := apdu[1], apdu[2], apdu[3], apdu[5..];
      if ins == INS_RESET then Some(Throw(Cleared(), SW_OK, []))
      else if ins == INS_ECHO then Some(Throw(c, SW_OK, apdu))
      else if ins == INS_GET_CONFIGURATION then Some(Throw(c, SW_OK, k.configuration))
      else if ins == INS_GET_PUBLIC_KEY then
        if k.publicKey(apdu).Some? then Some(Throw(c, SW_OK, k.publicKey(apdu).value)) else Some(Throw(c, SW_INTERNAL_ERROR, []))
      else if ins == INS_SIGN_MESSAGE then Some(HandleSign(k, c, p1, p2, data))
      else if ins == INS_RETURN_TO_DASHBOARD then None
      else Some(Throw(c, SW_INS_NOT_SUPPORTED, []))
  }

  /** One turn of the main loop. A reset and a return to the dashboard start the application anew. */
  function Exchange(k: Keys, c: Context, apdu: seq<byte>): (r: (Context, Option<seq<byte>>))
    requires Good(c) && Sized(k)
    ensures Good(r.0)
  {
    if apdu == [] || Dispatch(k, c, apdu).None? then (Cleared(), None) else Catch(Dispatch(k, c, apdu).value)
  }

  /** The approve or reject button; it matters only while a reply waits for it. */
  function Press(c: Context, approve: bool): (r: (Context, Option<seq<byte>>))
    ensures Good(c) ==> Good(r.0)
  {
    if c.pending.None? then (c, None)
    else if approve then (Cleared(), Some(c.pending.value + StatusBytes(SW_OK)))
    else (Cleared(), Some(StatusBytes(SW_USER_REJECTED)))
  }

  datatype Event = Apdu(bytes: seq<byte>) | Button(approve: bool)

  function Step(k: Keys, c: Context, e: Event): (r: (Context, Option<seq<byte>>))
    requires Good(c) && Sized(k)
    ensures Good(r.0)
  {
    match e
    case Apdu(bytes) => Exchange(k, c, bytes)
    case Button(approve) => Press(c, approve)
  }

  ghost predicate Accepted(reply: Option<seq<byte>>) {
    reply.Some? && |reply.value| >= 2 && reply.value[|reply.value| - 2..] == StatusBytes(SW_OK)
  }
}
