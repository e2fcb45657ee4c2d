/** Output streams: a sizing stream only counts, a buffer stream also stores. */
module PbStream {
  import opened Bits
  import opened Wire
  import opened PbFormat

  /** What an output stream holds at one moment. */
  datatype Out = Out(sizing: bool, buf: seq<byte>, state: nat, max: nat, written: nat)

  /** The bytes that may still be written lie inside the buffer. */
  predicate Roomy(o: Out) {
    !o.sizing ==> o.written <= o.max && o.state + (o.max - o.written) <= |o.buf|
  }

  predicate Fits(o: Out, n: nat) {
    o.sizing || o.written + n <= o.max
  }

  /** An encoder of `e` takes the stream from `o` to `r`. It succeeds exactly when there is something to
      encode and it fits, then exactly the bytes of `e` were added, and a sizing stream counted as many.
      Nothing before the old or behind the new position is touched, whether it succeeds or not. */
  ghost predicate Puts(o: Out, e: Encoded, ok: bool, r: Out) {
    && r.sizing == o.sizing && r.max == o.max && |r.buf| == |o.buf| && Roomy(r)
    && (ok <==> e.Some? && Fits(o, |e.value|))
    && (ok ==> r.written == o.written + |e.value|)
    && (o.sizing ==> r.buf == o.buf)
    && (!o.sizing ==>
          && o.written <= r.written && r.state == o.state + (r.written - o.written) <= |r.buf|
          && r.buf[..o.state] == o.buf[..o.state] && r.buf[r.state..] == o.buf[r.state..]
          && (ok ==> r.buf[o.state..r.state] == e.value))
  }

  /** One encoder after another. */
  lemma {:induction false} Then(o: Out, a: Encoded, p: Out, b: Encoded, ok: bool, r: Out)
    requires Roomy(o) && Puts(o, a, true, p) && Puts(p, b, ok, r)
    ensures Puts(o, Cat(a, b), ok, r)
  {
    if !o.sizing {
      assert r.buf[..o.state] == r.buf[..p.state][..o.state] == p.buf[..o.state];
      assert p.buf[r.state..] == p.buf[p.state..][r.state - p.state..] == o.buf[r.state..];
      if ok {
        assert r.buf[o.state..p.state] == r.buf[..p.state][o.state..] == p.buf[o.state..p.state];
        assert r.buf[o.state..r.state] == r.buf[o.state..p.state] + r.buf[p.state..r.state];
      }
    }
  }

  /** The first encoder fails: so does the whole. */
  lemma {:induction false} Stops(o: Out, a: Encoded, p: Out, b: Encoded)
    requires Roomy(o) && Puts(o, a, false, p)
    ensures Puts(o, Cat(a, b), false, p)
  {}

  lemma {:induction false} Nothing(o: Out)
    requires Roomy(o)
    ensures Puts(o, Some([]), true, o)
  {}

  /** An encoder that fails before it writes. */
  lemma {:induction false} Fails(o: Out, e: Encoded)
    requires Roomy(o) && (e.None? || !Fits(o, |e.value|))
    ensures Puts(o, e, false, o)
  {}

  class OStream {
    var callback: bool          // absent for a sizing stream
    var buffer: array<byte>
    var state: nat
    var maxSize: nat
    var bytesWritten: nat

    ghost function Now(): Out
      reads this, buffer
    {
      Out(!callback, buffer[..], state, maxSize, bytesWritten)
    }

    /** pb_ostream_from_buffer. */
    constructor FromBuffer(buf: array<byte>, bufsize: nat)
      requires bufsize <= buf.Length
      ensures buffer == buf && Now() == Out(false, buf[..], 0, bufsize, 0)
    {
      callback, buffer, state, maxSize, bytesWritten := true, buf, 0, bufsize, 0;
    }

    /** PB_OSTREAM_SIZING. */
    constructor Sizing()
      ensures fresh(buffer) && Now() == Out(true, [], 0, 0, 0)
    {
      var none := new byte[0];
      callback, buffer, state, maxSize, bytesWritten := false, none, 0, 0, 0;
    }

    /** buf_write. */
    method BufWrite(data: seq<byte>)
      requires state + |data| <= buffer.Length
      modifies this`state, buffer
      ensures state == old(state) + |data|
      ensures buffer[..] == old(buffer[..state]) + data + old(buffer[state + |data|..])
    {
      var dest := state;
      state := dest + |data|;
      for i := 0 to |data|
        invariant state == dest + |data|
        invariant forall k :: 0 <= k < i ==> buffer[dest + k] == data[k]
        invariant forall k :: 0 <= k < dest || dest + i <= k < buffer.Length ==> buffer[k] == old(buffer[k])
      {
        buffer[dest + i] := data[i];
      }
      assert buffer[dest..state] == data;
    }

    /** pb_write. */
    method Write(data: seq<byte>) returns (ok: bool)
      requires Roomy(Now())
      modifies this`state, this`bytesWritten, buffer
      ensures Puts(old(Now()), Some(data), ok, Now())
    {
      if callback {
        if bytesWritten + |data| > maxSize {
          return false;
        }
        BufWrite(data);
        assert buffer[..old(state)] == old(buffer[..state]);
        assert buffer[state..] == old(buffer[state + |data|..]);
        assert buffer[..][old(state)..state] == data;
      }
      bytesWritten := bytesWritten + |data|;
      return true;
    }

    /** pb_write of `count` bytes from a null pointer, which only a sizing stream may be given. */
    method WriteNull(count: nat) returns (ok: bool)
      requires !callback
      modifies this`bytesWritten
      ensures ok && bytesWritten == old(bytesWritten) + count
    {
      bytesWritten := bytesWritten + count;
      return true;
    }
  }
}
