/**
 The encoder and the decoder at work together: programs that measure, write and read back.
 */
module Codec {
  import opened Wire
  import opened Descriptor
  import opened State
  import opened EncodeSpec
  import opened IntactMessages
  import opened InputStreams
  import opened OutputStreams
  import Encoder
  import Decoder
  import DecodeSpec

  /** Measuring predicts writing: pb_get_encoded_size gives n, and pb_encode into the first `room`
      bytes of a buffer succeeds exactly when n fits; then it writes n bytes. Whatever happens,
      nothing behind the room is touched. */
  method MeasureAndEncode(fields: seq<Field>, mem: array<byte>, at: int, ghost size: nat, buf: array<byte>, room: nat)
    returns (sized: bool, n: nat, written: bool, length: nat)
    requires WellFormed(fields, size) && 0 <= at && at + size <= mem.Length
    requires buf != mem && room <= buf.Length
    modifies buf
    ensures sized <==> Enc(fields, mem[at..at + size]).Some?
    ensures written <==> sized && n <= room
    ensures written ==>
              && length == n && Enc(fields, mem[at..at + size]) == Some(buf[..n])
              && buf[n..] == old(buf[n..])
    ensures buf[room..] == old(buf[room..])
  {
    hide WellFormed, Enc;
    sized, n := Encoder.GetEncodedSize(fields, mem, at, size);
    var stream := new OStream.FromBuffer(buf, room);
    ghost var before := buf[..];
    written := Encoder.Encode(stream, fields, mem, at, size);
    length := stream.bytesWritten;
    if written {
      ghost var e := Enc(fields, mem[at..at + size]).value;
      assert before[..0] + e == e;
    }
  }

  /** The round trip in the code: a struct is written to a buffer, and the bytes written are decoded
      into other memory, whatever that holds. Decoding uses all the bytes if it succeeds, and the
      message is the same if and only if the struct was intact. */
  method EncodeAndDecode(
    fields: seq<Field>, mem: array<byte>, at: int, ghost size: nat, buf: array<byte>, dest: array<byte>, to: int)
    returns (written: bool, decoded: bool, left: nat)
    requires WellFormed(fields, size) && 0 <= at && at + size <= mem.Length
    requires 0 <= to && to + size <= dest.Length && buf != mem && dest != mem
    requires Short(fields, mem[at..at + size])
    modifies buf, dest
    ensures written <==>
            Enc(fields, mem[at..at + size]).Some? && |Enc(fields, mem[at..at + size]).value| <= buf.Length
    ensures decoded ==> written && left == 0
    ensures written ==>
              (Intact(fields, mem[at..at + size]) <==>
               decoded && Entries(View(fields, dest[to..to + size])) == Entries(View(fields, mem[at..at + size])))
  {
    hide WellFormed, Enc, Intact, Entries, View, Short, DecodeSpec.Decode;
    ghost var m := mem[at..at + size];
    decoded, left := false, 0;
    var out := new OStream.FromBuffer(buf, buf.Length);
    ghost var before := buf[..];
    written := Encoder.Encode(out, fields, mem, at, size);
    if !written {
      return;
    }
    ghost var e := Enc(fields, m).value;
    assert before[..0] + e == e;
    var bytes := buf[..out.bytesWritten];
    assert Enc(fields, m) == Some(bytes);
    RoundTripExact(fields, m, bytes);
    var input := new IStream.FromBuffer(bytes, |bytes|);
    assert bytes[..|bytes|] == bytes;
    decoded := Decoder.Decode(input, fields, dest, to, size);
    left := input.bytesLeft;
    assert mem[at..at + size] == m;
  }
}
