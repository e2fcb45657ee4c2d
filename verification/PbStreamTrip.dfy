/** The round trip on the streams themselves. */
module PbStreamTrip {
  import opened Bits
  import opened PbTypes
  import opened PbFormat
  import opened PbRoundTrip
  import opened PbStream
  import opened PbIn
  import E = PbEncode
  import D = PbDecodeMessage
  import P = PbParse
  import T = PbMessageTrip

  /** A decoder that gets the bytes an encoder has put gives the message back. */
  lemma {:induction false} PutThenGet(fields: seq<Field>, m: seq<Slot>, dest: seq<Slot>, before: Out, after: Out, b: seq<byte>,
                                      decoded: bool, r: seq<Slot>, rest: seq<byte>)
    requires WellFormed(fields) && MessageShape(fields, m) && MessageShape(fields, dest)
    requires !before.sizing && Roomy(before) && |before.buf| < TWO32
    requires Puts(before, EncodeMessage(fields, m), true, after) && b == after.buf[before.state..after.state]
    requires Gets(P.Decode(fields, dest, b), decoded, r, rest)
    ensures decoded <==> Terminated(fields, m)
    ensures decoded ==> rest == [] && MessageShape(fields, r) && SameMessage(fields, m, r)
  {
    hide EncodeMessage, WellFormed, MessageShape, Terminated, SameMessage, P.Decode;
    T.RoundTrip(fields, m, dest);
  }

  /** A client: pb_encode into a buffer, then pb_decode from the bytes written. */
  method EncodeThenDecode(fields: seq<Field>, m: seq<Slot>, dest: seq<Slot>, buf: array<byte>) returns (encoded: bool, decoded: bool, r: seq<Slot>)
    requires WellFormed(fields) && MessageShape(fields, m) && MessageShape(fields, dest)
    requires E.MeasurableFrom(fields, m, 0) && buf.Length < TWO32
    modifies buf
    ensures encoded <==> EncodeMessage(fields, m).Some? && |EncodeMessage(fields, m).value| <= buf.Length
    ensures decoded <==> encoded && Terminated(fields, m)
    ensures decoded ==> MessageShape(fields, r) && SameMessage(fields, m, r)
  {
    hide WellFormed, MessageShape, EncodeFrom, E.MeasurableFrom, Terminated, SameMessage, P.Decode;
    var output := new OStream.FromBuffer(buf, buf.Length);
    ghost var before := output.Now();
    encoded := E.Encode(output, fields, m);
    decoded, r := false, dest;
    if encoded {
      ghost var after := output.Now();
      var input := new IStream.FromBuffer(buf[..output.state]);
      decoded, r := D.Decode(input, fields, dest);
      PutThenGet(fields, m, dest, before, after, buf[..output.state], decoded, r, input.Rest());
    }
  }
}
