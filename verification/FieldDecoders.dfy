/**
 The decoders of single items (pb_dec_*): they read from a stream and fill the variable at an
 address.
 */
module FieldDecoders {
  import opened Wire
  import opened Descriptor
  import opened State
  import opened DecodeSpec
  import opened Iterator
  import opened Memory
  import opened InputStreams

  /** What decoding one item of f from s gives: the value, and the bytes behind it. */
  ghost function ItemStep(f: Field, s: seq<byte>, into: seq<FieldState>): (r: Option<(Value, seq<byte>)>)
    ensures r.Some? ==> |r.value.1| <= |s|
  {
    var (p, rest) :- Frame(ItemFraming(f.ltype), s);
    var v :- ItemValue(f, p, into);
    Some((v, rest))
  }

  /** The outcome of a decoder agrees with r. */
  ghost predicate Agrees<T>(r: Option<(T, seq<byte>)>, ok: bool, v: T, rest: seq<byte>) {
    (ok <==> r.Some?) && (ok ==> r.value == (v, rest))
  }

  lemma {:induction false} ChunkStep(f: Field, s: seq<byte>)
    requires f.ltype.Bytes? || f.ltype.String? || f.ltype.FixedLengthBytes?
    ensures ItemStep(f, s, []) ==
            var chunk := TakeChunk(s);
            if chunk.None? then None
            else
              var v := ChunkValue(f, chunk.value.0);
              if v.None? then None else Some((v.value, chunk.value.1))
  {
    hide TakeChunk, ChunkValue, Frame, DecodeInto, WordValue, FieldOk;
    ChunkFraming(s);
  }

  lemma ChunkFraming(s: seq<byte>)
    ensures var r := TakeChunk(s);
            Frame(AsChunk, s) == if r.None? then None else Some((Chunk(r.value.0), r.value.1))
  {
    hide TakeChunk;
  }

  /** pb_dec_uvarint */
  method DecUvarint(stream: IStream, f: Field, mem: array<byte>, at: int) returns (ok: bool)
    requires f.ltype.Uvarint?
    requires stream.Valid() && 0 <= at && at + f.dataSize <= mem.Length
    modifies stream, mem
    ensures stream.Valid() && stream.Limit() == old(stream.Limit())
    ensures Only(old(mem[..]), mem[..], at, f.dataSize)
    ensures Agrees(ItemStep(f, old(stream.Remaining()), []), ok, Word(mem[at..at + f.dataSize]), stream.Remaining())
  {
    hide DecVarint, LE, ToLE, Pow;
    var value;
    ok, value := stream.DecodeVarint();
    if !ok {
      return;
    }
    if f.dataSize != 1 && f.dataSize != 2 && f.dataSize != 4 && f.dataSize != 8 {
      return false;
    }
    var clamped := ToUnsigned(value, f.dataSize);
    Store(mem, at, f.dataSize, clamped);
    if clamped != value {
      return false;
    }
  }

  /** pb_dec_varint and pb_dec_svarint */
  method DecSignedVarint(stream: IStream, f: Field, mem: array<byte>, at: int) returns (ok: bool)
    requires f.ltype.Varint? || f.ltype.Svarint?
    requires stream.Valid() && 0 <= at && at + f.dataSize <= mem.Length
    modifies stream, mem
    ensures stream.Valid() && stream.Limit() == old(stream.Limit())
    ensures Only(old(mem[..]), mem[..], at, f.dataSize)
    ensures Agrees(ItemStep(f, old(stream.Remaining()), []), ok, Word(mem[at..at + f.dataSize]), stream.Remaining())
  {
    hide DecVarint, LE, ToLE, Pow, Signed, Unsigned, UnZigZag;
    var svalue: int;
    if f.ltype.Svarint? {
      ok, svalue := stream.DecodeSvarint();
      if !ok {
        return;
      }
    } else {
      var value;
      ok, value := stream.DecodeVarint();
      if !ok {
        return;
      }
      if f.dataSize == 8 {
        svalue := ToSigned(value, 8);
      } else {
        svalue := ToSigned(value % TWO_32, 4);
      }
    }
    if f.dataSize != 1 && f.dataSize != 2 && f.dataSize != 4 && f.dataSize != 8 {
      return false;
    }
    var pattern := ToUnsigned(svalue, f.dataSize);
    Store(mem, at, f.dataSize, pattern);
    var clamped := ToSigned(pattern, f.dataSize);
    if clamped != svalue {
      return false;
    }
  }

  /** pb_dec_fixed32 and pb_dec_fixed64: the bytes are put together to a word, and the word is stored. */
  method DecFixed(stream: IStream, f: Field, mem: array<byte>, at: int) returns (ok: bool)
    requires (f.ltype.Fixed32? && f.dataSize == 4) || (f.ltype.Fixed64? && f.dataSize == 8)
    requires stream.Valid() && 0 <= at && at + f.dataSize <= mem.Length
    modifies stream, mem
    ensures stream.Valid() && stream.Limit() == old(stream.Limit())
    ensures Only(old(mem[..]), mem[..], at, f.dataSize)
    ensures Agrees(ItemStep(f, old(stream.Remaining()), []), ok, Word(mem[at..at + f.dataSize]), stream.Remaining())
  {
    var n := f.dataSize;
    var bytes := new byte[n](_ => 0);
    ok := stream.Read(bytes, 0, n);
    if !ok {
      return;
    }
    var value := Load(bytes, 0, n);
    ToLELE(bytes[0..n]);
    Store(mem, at, n, value);
  }

  /** pb_dec_bytes */
  method DecBytes(stream: IStream, f: Field, mem: array<byte>, at: int) returns (ok: bool)
    requires f.ltype.Bytes? && FieldOk(f)
    requires stream.Valid() && 0 <= at && at + f.dataSize <= mem.Length
    modifies stream, mem
    ensures stream.Valid() && stream.Limit() == old(stream.Limit())
    ensures Only(old(mem[..]), mem[..], at, f.dataSize)
    ensures Agrees(ItemStep(f, old(stream.Remaining()), []), ok,
                   Blob(BytesPayload(mem[at..at + f.dataSize])), stream.Remaining())
    ensures var chunk := TakeChunk(old(stream.Remaining()));
            && (ok <==> chunk.Some? && |chunk.value.0| <= SizeMax() && SIZE_WIDTH + |chunk.value.0| <= f.dataSize)
            && (ok ==>
                  && LE(mem[at..at + SIZE_WIDTH]) == |chunk.value.0|
                  && mem[at + SIZE_WIDTH..at + SIZE_WIDTH + |chunk.value.0|] == chunk.value.0)
  {
    hide DecVarint32, LE, ToLE, Pow, FieldOk, BytesPayload, ItemStep;
    ChunkStep(f, stream.Remaining());
    assert f.dataSize >= SIZE_WIDTH by {
      BytesFieldOk(f);
    }
    ghost var s := stream.Remaining();
    var size;
    ok, size := stream.DecodeVarint32();
    if !ok {
      return;
    }
    ghost var rest := stream.Remaining();
    var sizeMax := ComputeSizeMax();
    if size > sizeMax {
      return false;
    }
    if SIZE_WIDTH + size > f.dataSize {
      return false;
    }
    Store(mem, at, SIZE_WIDTH, size);
    ghost var head := mem[at..at + SIZE_WIDTH];
    ok := stream.Read(mem, at + SIZE_WIDTH, size);
    if ok {
      assert mem[at..at + SIZE_WIDTH] == head;
      LEToLE(size, SIZE_WIDTH);
      BytesView(mem[..], at, f.dataSize, size);
      assert TakeChunk(s) == Some((rest[..size], rest[size..]));
    }
  }

  /** A length and that many bytes behind it are a bytes value. */
  lemma BytesView(m: seq<byte>, at: int, n: nat, size: nat)
    requires 0 <= at && at + n <= |m| && SIZE_WIDTH + size <= n && size <= SizeMax()
    requires m[at..at + SIZE_WIDTH] == ToLE(size, SIZE_WIDTH)
    ensures BytesPayload(m[at..at + n]) == m[at + SIZE_WIDTH..at + SIZE_WIDTH + size]
  {
    hide LE, ToLE, Pow;
    LEToLE(size, SIZE_WIDTH);
    SubSlice(m, at, n, 0, SIZE_WIDTH);
    SubSlice(m, at, n, SIZE_WIDTH, size);
  }

  lemma BytesFieldOk(f: Field)
    requires f.ltype.Bytes? && FieldOk(f)
    ensures f.dataSize >= SIZE_WIDTH
  {
  }

  /** A NUL written behind a string ends it. */
  lemma CStrTerminated(d: seq<byte>, body: seq<byte>)
    requires |body| < |d| && d[..|body|] == body && d[|body|] == 0
    ensures CStr(d) == CStr(body)
  {
    hide CStr;
    var n := |CStr(body)|;
    assert d[..n] == body[..n];
    if n < |body| {
      assert d[n] == body[n];
    }
    CStrUnique(d, n);
  }

  /** pb_dec_string: the terminator is written whether or not the read succeeded. */
  method DecString(stream: IStream, f: Field, mem: array<byte>, at: int) returns (ok: bool)
    requires f.ltype.String?
    requires stream.Valid() && 0 <= at && at + f.dataSize <= mem.Length
    modifies stream, mem
    ensures stream.Valid() && stream.Limit() == old(stream.Limit())
    ensures Only(old(mem[..]), mem[..], at, f.dataSize)
    ensures Agrees(ItemStep(f, old(stream.Remaining()), []), ok,
                   Text(CStr(mem[at..at + f.dataSize])), stream.Remaining())
    ensures var chunk := TakeChunk(old(stream.Remaining()));
            && (ok <==> chunk.Some? && |chunk.value.0| < f.dataSize)
            && (ok ==> mem[at..at + |chunk.value.0|] == chunk.value.0 && mem[at + |chunk.value.0|] == 0)
  {
    hide DecVarint32, CStr, ItemStep;
    ChunkStep(f, stream.Remaining());
    ghost var s := stream.Remaining();
    var size;
    ok, size := stream.DecodeVarint32();
    if !ok {
      return;
    }
    ghost var rest := stream.Remaining();
    if size + 1 > f.dataSize {
      return false;
    }
    var status := stream.Read(mem, at, size);
    ghost var text := mem[at..at + size];
    mem[at + size] := 0;
    if status {
      ghost var d := mem[at..at + f.dataSize];
      SubSlice(mem[..], at, f.dataSize, 0, size);
      assert mem[at..at + size] == text;
      CStrTerminated(d, text);
      assert TakeChunk(s) == Some((rest[..size], rest[size..]));
    }
    return status;
  }

  /** pb_dec_fixed_length_bytes: an empty value stands for all zeros. */
  method DecFixedLengthBytes(stream: IStream, f: Field, mem: array<byte>, at: int) returns (ok: bool)
    requires f.ltype.FixedLengthBytes?
    requires stream.Valid() && 0 <= at && at + f.dataSize <= mem.Length
    modifies stream, mem
    ensures stream.Valid() && stream.Limit() == old(stream.Limit())
    ensures Only(old(mem[..]), mem[..], at, f.dataSize)
    ensures Agrees(ItemStep(f, old(stream.Remaining()), []), ok, Blob(mem[at..at + f.dataSize]), stream.Remaining())
    ensures var chunk := TakeChunk(old(stream.Remaining()));
            && (ok <==> chunk.Some? && |chunk.value.0| <= SizeMax() &&
                        (chunk.value.0 == [] || |chunk.value.0| == f.dataSize))
            && (ok ==> mem[at..at + f.dataSize] == if chunk.value.0 == [] then Zeros(f.dataSize) else chunk.value.0)
  {
    hide DecVarint32, ItemStep;
    ChunkStep(f, stream.Remaining());
    ghost var s := stream.Remaining();
    var size;
    ok, size := stream.DecodeVarint32();
    if !ok {
      return;
    }
    ghost var rest := stream.Remaining();
    var sizeMax := ComputeSizeMax();
    if size > sizeMax {
      return false;
    }
    if size == 0 {
      Fill(mem, at, Zeros(f.dataSize));
      assert TakeChunk(s) == Some(([], rest));
      return true;
    }
    if size != f.dataSize {
      return false;
    }
    ok := stream.Read(mem, at, f.dataSize);
    if ok {
      assert TakeChunk(s) == Some((rest[..size], rest[size..]));
    }
  }
}
