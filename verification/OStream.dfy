/**
 Output streams (pb_ostream_t): a memory buffer, or no buffer at all for measuring.
 */
module OutputStreams {
  import opened Wire
  import opened State
  import opened Memory

  /** A stream at one moment: the bytes of its buffer, if it has one, and its counters. */
  datatype Snapshot = Snapshot(buffer: Option<seq<byte>>, state: nat, maxSize: nat, bytesWritten: nat) {
    ghost predicate Valid() {
      buffer.Some? ==> bytesWritten <= maxSize && state + (maxSize - bytesWritten) <= |buffer.value|
    }

    /** Whether n more bytes fit. */
    ghost predicate Fits(n: nat) {
      buffer.Some? ==> bytesWritten + n <= maxSize
    }

    /** The end of the part of the buffer the stream may write. */
    ghost function Limit(): int {
      state + maxSize - bytesWritten
    }
  }

  /** From s to t, e was appended: the counter and the position moved by |e|, the bytes before the
      old position and behind the new one are as before. */
  ghost predicate Wrote(s: Snapshot, t: Snapshot, e: seq<byte>)
    requires s.Valid() && t.Valid()
  {
    && t.bytesWritten == s.bytesWritten + |e|
    && (s.buffer.Some? && t.buffer.Some? ==>
          && s.state + |e| == t.state <= |s.buffer.value|
          && t.buffer.value[..t.state] == s.buffer.value[..s.state] + e
          && t.buffer.value[t.state..] == s.buffer.value[t.state..])
  }

  /** Success or not, nothing outside the stream's own part of the buffer was touched. */
  ghost predicate Confined(s: Snapshot, t: Snapshot)
    requires s.Valid() && t.Valid()
  {
    && t.maxSize == s.maxSize && (t.buffer.Some? <==> s.buffer.Some?)
    && (s.buffer.Some? ==>
          && |t.buffer.value| == |s.buffer.value|
          && t.Limit() == s.Limit() && s.state <= t.state
          && t.buffer.value[..s.state] == s.buffer.value[..s.state]
          && t.buffer.value[t.Limit()..] == s.buffer.value[s.Limit()..])
  }

  /** The outcome of writing e, None standing for data that cannot be encoded: it succeeds exactly
      when there is something to write and it fits. */
  ghost predicate Did(s: Snapshot, t: Snapshot, ok: bool, e: Option<seq<byte>>) {
    && s.Valid() && t.Valid() && Confined(s, t)
    && (ok <==> e.Some? && s.Fits(|e.value|))
    && (ok ==> Wrote(s, t, e.value))
  }

  /** Writing a and then b is writing a + b. */
  lemma DidThen(s: Snapshot, t: Snapshot, u: Snapshot, a: seq<byte>, ok: bool, b: Option<seq<byte>>)
    requires Did(s, t, true, Some(a)) && Did(t, u, ok, b)
    ensures Did(s, u, ok, if b.None? then None else Some(a + b.value))
  {
    if s.buffer.Some? {
      var x, y, z := s.buffer.value, t.buffer.value, u.buffer.value;
      assert z[..s.state] == z[..t.state][..s.state];
      if ok {
        assert x[t.state..][|b.value|..] == x[u.state..];
        assert y[u.state..] == y[t.state..][|b.value|..];
        assert (x[..s.state] + a) + b.value == x[..s.state] + (a + b.value);
      }
    }
  }

  /** When a could not be written, neither can anything that begins with a. */
  lemma DidNot(s: Snapshot, t: Snapshot, a: Option<seq<byte>>, b: Option<seq<byte>>)
    requires Did(s, t, false, a)
    requires a.Some? && b.Some? ==> |a.value| <= |b.value|
    requires a.None? ==> b.None?
    ensures Did(s, t, false, b)
  {
  }

  /** Copying e into the buffer and moving the counters is writing e. */
  lemma Written(s: Snapshot, t: Snapshot, e: seq<byte>)
    requires s.Valid() && s.Fits(|e|) && (t.buffer.Some? <==> s.buffer.Some?)
    requires t.maxSize == s.maxSize && t.bytesWritten == s.bytesWritten + |e|
    requires s.buffer.Some? ==>
               && t.state == s.state + |e| && Only(s.buffer.value, t.buffer.value, s.state, |e|)
               && t.buffer.value[s.state..t.state] == e
    ensures Did(s, t, true, Some(e))
  {
    if s.buffer.Some? {
      var x, y := s.buffer.value, t.buffer.value;
      assert y[..s.state] == x[..s.state];
      assert y[..t.state] == y[..s.state] + y[s.state..t.state];
      assert y[t.state..] == x[t.state..];
      assert y[t.Limit()..] == x[t.Limit()..];
    }
  }

  lemma DidNothing(s: Snapshot)
    requires s.Valid()
    ensures Did(s, s, true, Some([]))
  {
    if s.buffer.Some? {
      assert s.buffer.value[..s.state] + [] == s.buffer.value[..s.state];
    }
  }

  class OStream {
    /** null for a sizing stream, which only counts. */
    const buf: array?<byte>
    var state: nat
    var maxSize: nat
    var bytesWritten: nat

    ghost function Now(): Snapshot
      reads this, buf
    {
      Snapshot(if buf == null then None else Some(buf[..]), state, maxSize, bytesWritten)
    }

    ghost predicate Valid()
      reads this, buf
    {
      Now().Valid()
    }

    constructor FromBuffer(b: array<byte>, size: nat)
      requires size <= b.Length
      ensures Valid() && buf == b && state == 0 && maxSize == size && bytesWritten == 0
    {
      buf := b;
      state, maxSize, bytesWritten := 0, size, 0;
    }

    /** PB_OSTREAM_SIZING */
    constructor Sizing()
      ensures Valid() && buf == null && bytesWritten == 0
    {
      buf := null;
      state, maxSize, bytesWritten := 0, 0, 0;
    }

    /** A substream that may write exactly `size` bytes at the position of this stream. */
    constructor Substream(stream: OStream, size: nat)
      requires stream.Valid() && stream.buf != null && stream.bytesWritten + size <= stream.maxSize
      ensures Valid() && buf == stream.buf && state == stream.state && maxSize == size && bytesWritten == 0
    {
      buf := stream.buf;
      state, maxSize, bytesWritten := stream.state, size, 0;
    }

    /** pb_write */
    method Write(bytes: seq<byte>) returns (ok: bool)
      requires Valid()
      modifies this, buf
      ensures Did(old(Now()), Now(), ok, Some(bytes))
      ensures !ok ==> buf != null && buf[..] == old(buf[..])
    {
      ghost var before := Now();
      if buf != null {
        if bytesWritten + |bytes| > maxSize {
          return false;
        }
        Fill(buf, state, bytes);
        state := state + |bytes|;
      }
      bytesWritten := bytesWritten + |bytes|;
      Written(before, Now(), bytes);
      return true;
    }

    /** pb_write on a sizing stream, without data. */
    method Count(n: nat)
      requires Valid() && buf == null
      modifies this
      ensures Now() == old(Now()).(bytesWritten := old(bytesWritten) + n)
    {
      bytesWritten := bytesWritten + n;
    }
  }
}
