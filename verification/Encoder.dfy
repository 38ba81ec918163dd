/**
 The encoder (pb_encode.c): it walks a struct in memory with the field iterator and writes to an
 output stream.
 */
module Encoder {
  import opened Wire
  import opened Descriptor
  import opened Scalars
  import opened State
  import opened DecodeSpec
  import opened EncodeSpec
  import opened Iterator
  import opened InputStreams
  import opened Memory
  import opened OutputStreams

  // ---------------------------------------------------------------- writers of the wire format

  /** pb_encode_varint */
  method EncodeVarint(stream: OStream, value: nat) returns (ok: bool)
    requires stream.Valid() && value < TWO_64
    modifies stream, stream.buf
    ensures Did(old(stream.Now()), stream.Now(), ok, Some(EncVarint(value)))
  {
    if value <= 0x7F {
      ok := stream.Write([value]);
      return;
    }
    var buffer, i := VarintBytes(value);
    ok := stream.Write(buffer[..i]);
  }

  /** The loop of pb_encode_varint: ten bytes are always enough. */
  method VarintBytes(value: nat) returns (buffer: array<byte>, i: nat)
    requires 0x7F < value < TWO_64
    ensures fresh(buffer) && i <= buffer.Length == 10
    ensures buffer[..i] == EncVarint(value)
  {
    hide EncVarint;
    VarintLength(value);
    buffer := new byte[10](_ => 0);
    var v := value;
    i := 0;
    while v != 0
      invariant 0 <= i <= 10
      invariant v != 0 ==> buffer[..i] + EncVarint(v) == EncVarint(value)
      invariant v == 0 ==>
                  && i > 0 && buffer[i - 1] >= 128
                  && buffer[..i - 1] + [buffer[i - 1] - 128] == EncVarint(value)
      decreases v
    {
      ghost var done := buffer[..i];
      VarintDigit(v);
      assert |done + EncVarint(v)| <= 10;
      assert v >= 128 ==> done + EncVarint(v) == done + [v % 128 + 128] + EncVarint(v / 128);
      buffer[i] := v % 128 + 128;
      assert buffer[..i] == done;
      v := v / 128;
      i := i + 1;
      assert buffer[..i] == done + [buffer[i - 1]];
    }
    buffer[i - 1] := buffer[i - 1] - 128;
    assert buffer[..i] == buffer[..i - 1] + [buffer[i - 1]];
  }

  lemma VarintDigit(v: nat)
    ensures v >= 128 ==> EncVarint(v) == [v % 128 + 128] + EncVarint(v / 128) && v / 128 > 0
    ensures v < 128 ==> EncVarint(v) == [v] && v / 128 == 0 && v % 128 == v
  {
  }

  lemma VarintLength(value: nat)
    requires value < TWO_64
    ensures |EncVarint(value)| <= 10
  {
    hide EncVarint, DecVarint;
    VarintRoundTrip(value, []);
  }

  /** pb_encode_svarint */
  method EncodeSvarint(stream: OStream, value: int) returns (ok: bool)
    requires stream.Valid() && InRange(value, 8)
    modifies stream, stream.buf
    ensures Did(old(stream.Now()), stream.Now(), ok, Some(EncVarint(ZigZag(value))))
  {
    Pow256Values();
    var zigzagged: nat;
    if value < 0 {
      zigzagged := TWO_64 - 1 - ((value + TWO_64) * 2) % TWO_64;
    } else {
      zigzagged := (value * 2) % TWO_64;
    }
    ok := EncodeVarint(stream, zigzagged);
  }

  /** pb_encode_fixed32 and pb_encode_fixed64 */
  method EncodeFixed(stream: OStream, mem: array<byte>, at: int, n: nat) returns (ok: bool)
    requires stream.Valid() && stream.buf != mem && 0 <= at && at + n <= mem.Length
    modifies stream, stream.buf
    ensures Did(old(stream.Now()), stream.Now(), ok, Some(mem[at..at + n]))
  {
    var value := Load(mem, at, n);
    ToLELE(mem[at..at + n]);
    ok := stream.Write(ToLE(value, n));
  }

  /** pb_encode_tag */
  method EncodeTag(stream: OStream, wireType: nat, fieldNumber: nat) returns (ok: bool)
    requires stream.Valid() && wireType < 8 && fieldNumber < TWO_32
    modifies stream, stream.buf
    ensures Did(old(stream.Now()), stream.Now(), ok, Some(EncTag(wireType, fieldNumber)))
  {
    ok := EncodeVarint(stream, fieldNumber * 8 + wireType);
  }

  /** pb_encode_tag_for_field */
  method EncodeTagForField(stream: OStream, f: Field) returns (ok: bool)
    requires stream.Valid() && FieldOk(f)
    modifies stream, stream.buf
    ensures Did(old(stream.Now()), stream.Now(), ok, Some(EncTag(WireTypeOf(f.ltype), f.tag)))
  {
    var wireType := match f.ltype
                    case Varint | Uvarint | Svarint => WT_VARINT
                    case Fixed32 => WT_32BIT
                    case Fixed64 => WT_64BIT
                    case _ => WT_STRING;
    ok := EncodeTag(stream, wireType, f.tag);
  }

  /** pb_encode_string */
  method EncodeString(stream: OStream, bytes: seq<byte>) returns (ok: bool)
    requires stream.Valid()
    modifies stream, stream.buf
    ensures Did(old(stream.Now()), stream.Now(), ok, Some(Lengthed(bytes)))
  {
    hide Did, EncVarint;
    ghost var s := stream.Now();
    ok := EncodeVarint(stream, |bytes| % TWO_64);
    ghost var t := stream.Now();
    if !ok {
      DidNot(s, t, Some(EncVarint(|bytes| % TWO_64)), Some(Lengthed(bytes)));
      return;
    }
    assert t.Valid() by {
      DidValid(s, t, true, Some(EncVarint(|bytes| % TWO_64)));
    }
    ok := stream.Write(bytes);
    DidThen(s, t, stream.Now(), EncVarint(|bytes| % TWO_64), ok, Some(bytes));
  }

  lemma DidValid(s: Snapshot, t: Snapshot, ok: bool, e: Option<seq<byte>>)
    requires Did(s, t, ok, e)
    ensures s.Valid() && t.Valid() && (t.buffer.Some? <==> s.buffer.Some?)
  {
  }

  // ---------------------------------------------------------------- field encoders

  /** pb_enc_varint, pb_enc_uvarint and pb_enc_svarint */
  method EncNumberField(stream: OStream, f: Field, mem: array<byte>, at: int) returns (ok: bool)
    requires f.ltype.Varint? || f.ltype.Uvarint? || f.ltype.Svarint?
    requires stream.Valid() && stream.buf != mem && 0 <= at && at + f.dataSize <= mem.Length
    modifies stream, stream.buf
    ensures Did(old(stream.Now()), stream.Now(), ok, EncWord(f.ltype, mem[at..at + f.dataSize]))
  {
    if f.dataSize != 1 && f.dataSize != 2 && f.dataSize != 4 && f.dataSize != 8 {
      return false;
    }
    hide Did, LE, Pow, EncVarint, ZigZag;
    ghost var d := mem[at..at + f.dataSize];
    SignedVariable(d);
    var u := Load(mem, at, f.dataSize);
    var v := ToSigned(u, f.dataSize);
    match f.ltype {
      case Uvarint => ok := EncodeVarint(stream, u);
      case Svarint => ok := EncodeSvarint(stream, v);
      case Varint => ok := EncodeVarint(stream, v % TWO_64);
    }
  }

  lemma SignedVariable(d: seq<byte>)
    requires WordSize(|d|)
    ensures LE(d) < TWO_64 && InRange(Signed(LE(d), |d|), 8)
    ensures Unsigned(Signed(LE(d), |d|), 8) == Signed(LE(d), |d|) % TWO_64
  {
    Pow256Values();
    LEBound(d);
    UnsignedSigned(LE(d), |d|);
  }

  /** pb_enc_bytes */
  method EncBytes(stream: OStream, f: Field, mem: array<byte>, at: int) returns (ok: bool)
    requires f.ltype.Bytes? && FieldOk(f)
    requires stream.Valid() && stream.buf != mem && 0 <= at && at + f.dataSize <= mem.Length
    modifies stream, stream.buf
    ensures Did(old(stream.Now()), stream.Now(), ok, EncodeSpec.EncItem(f, mem[at..at + f.dataSize]))
  {
    hide Did, LE, Lengthed, WellFormed;
    ghost var d := mem[at..at + f.dataSize];
    SubSlice(mem[..], at, f.dataSize, 0, SIZE_WIDTH);
    DidFail(stream.Now());
    var size := Load(mem, at, SIZE_WIDTH);
    if SIZE_WIDTH + size > f.dataSize {
      return false;
    }
    SubSlice(mem[..], at, f.dataSize, SIZE_WIDTH, size);
    assert BytesPayload(d) == mem[at + SIZE_WIDTH..at + SIZE_WIDTH + size];
    ok := EncodeString(stream, mem[at + SIZE_WIDTH..at + SIZE_WIDTH + size]);
  }

  /** pb_enc_string: the length is found by looking for the terminator inside the buffer. */
  method EncString(stream: OStream, f: Field, mem: array<byte>, at: int) returns (ok: bool)
    requires f.ltype.String? && FieldOk(f)
    requires stream.Valid() && stream.buf != mem && 0 <= at && at + f.dataSize <= mem.Length
    modifies stream, stream.buf
    ensures Did(old(stream.Now()), stream.Now(), ok, EncodeSpec.EncItem(f, mem[at..at + f.dataSize]))
  {
    hide Did, CStr, Lengthed, WellFormed;
    ghost var d := mem[at..at + f.dataSize];
    var size := 0;
    while size < f.dataSize && mem[at + size] != 0
      invariant 0 <= size <= f.dataSize && 0 !in d[..size]
    {
      assert d[..size + 1] == d[..size] + [d[size]];
      size := size + 1;
    }
    CStrUnique(d, size);
    assert mem[at..at + size] == d[..size];
    ok := EncodeString(stream, mem[at..at + size]);
  }

  /** pb_check_proto3_default_value */
  method CheckDefault(f: Field, mem: array<byte>, at: int) returns (zero: bool)
    requires FieldOk(f) && 0 <= at && at + f.dataSize <= mem.Length
    ensures zero <==> IsDefault(f, mem[at..at + f.dataSize])
    decreases f, 1
  {
    hide IsDefault, WellFormed;
    ghost var d := mem[at..at + f.dataSize];
    DefaultCases(f, d);
    if f.ltype.Bytes? {
      SubSlice(mem[..], at, f.dataSize, 0, SIZE_WIDTH);
      var size := Load(mem, at, SIZE_WIDTH);
      return size == 0;
    } else if f.ltype.String? {
      return mem[at] == 0;
    } else if f.ltype.FixedLengthBytes? {
      return f.dataSize == 0;
    } else if f.ltype.Submessage? {
      zero := CheckFieldsDefault(f, mem, at);
    } else {
      var i := 0;
      while i < f.dataSize
        invariant 0 <= i <= f.dataSize && forall k :: 0 <= k < i ==> d[k] == 0
      {
        assert d[i] == mem[at + i];
        if mem[at + i] != 0 {
          return false;
        }
        i := i + 1;
      }
      return true;
    }
  }

  lemma {:induction false} DefaultCases(f: Field, d: seq<byte>)
    requires FieldOk(f) && |d| == f.dataSize
    ensures f.ltype.Bytes? ==> (IsDefault(f, d) <==> LE(d[..SIZE_WIDTH]) == 0)
    ensures f.ltype.String? ==> (IsDefault(f, d) <==> d[0] == 0)
    ensures f.ltype.FixedLengthBytes? ==> (IsDefault(f, d) <==> f.dataSize == 0)
    ensures f.ltype.Packable() ==> (IsDefault(f, d) <==> forall k :: 0 <= k < |d| ==> d[k] == 0)
  {
    hide WellFormed, LE;
  }

  lemma {:induction false} DefaultFields(f: Field, d: seq<byte>)
    requires FieldOk(f) && |d| == f.dataSize && f.ltype.Submessage?
    ensures IsDefault(f, d) <==> forall i :: 0 <= i < |f.ptr.fields| ==> IsDefaultAt(f.ptr.fields, i, d)
  {
    hide WellFormed, FirstItem, Data;
    SubmessageOk(f);
    var sub := f.ptr.fields;
    forall i | 0 <= i < |sub|
      ensures FieldOk(sub[i])
      ensures IsDefaultAt(sub, i, d) <==> IsDefault(sub[i], FirstItem(sub[i], Data(sub, i, d)))
    {
      EntryFits(sub, |d|, i);
    }
  }

  /** The submessage branch of pb_check_proto3_default_value: every inner field must be zero. */
  method CheckFieldsDefault(f: Field, mem: array<byte>, at: int) returns (zero: bool)
    requires FieldOk(f) && f.ltype.Submessage? && 0 <= at && at + f.dataSize <= mem.Length
    ensures zero <==> IsDefault(f, mem[at..at + f.dataSize])
    decreases f, 0
  {
    hide WellFormed, FieldOk, FirstItem, IsDefault, Off, MemberSize;
    ghost var d := mem[at..at + f.dataSize];
    SubmessageOk(f);
    DefaultFields(f, d);
    var sub := f.ptr.fields;
    IsWalkable(sub, f.dataSize);
    var iter := new FieldIter();
    var nonEmpty := iter.Begin(sub, at);
    if nonEmpty {
      while true
        invariant iter.Valid() && iter.start == sub && iter.destStruct == at && iter.pos < |sub|
        invariant forall j :: 0 <= j < iter.pos ==> IsDefaultAt(sub, j, d)
        decreases |sub| - iter.pos
      {
        ghost var i := iter.pos;
        EntryInMemory(sub, i, mem, at, f.dataSize);
        var inner := CheckDefault(sub[iter.pos], mem, iter.pData);
        assert mem[at..at + f.dataSize] == d;
        assert inner <==> IsDefaultAt(sub, i, d);
        if !inner {
          return false;
        }
        var more := iter.Next();
        if !more {
          break;
        }
      }
    }
    return true;
  }

  /** Where the slices of entry i are when the struct is at address `at`. */
  lemma EntryInMemory(fields: seq<Field>, i: nat, mem: array<byte>, at: int, size: nat)
    requires WellFormed(fields, size) && i < |fields| && 0 <= at && at + size <= mem.Length
    ensures var f, pData, m := fields[i], at + Off(fields, i), mem[at..at + size];
            && FieldOk(f)
            && pData + MemberSize(f) <= mem.Length && f.dataSize <= MemberSize(f)
            && Data(fields, i, m) == mem[pData..pData + MemberSize(f)]
            && FirstItem(f, Data(fields, i, m)) == mem[pData..pData + f.dataSize]
            && (SizeLen(f) > 0 ==>
                  && 0 <= pData + f.sizeOffset && pData + f.sizeOffset + SizeLen(f) <= mem.Length
                  && Cell(fields, i, m) == mem[pData + f.sizeOffset..pData + f.sizeOffset + SizeLen(f)])
  {
    hide WellFormed, Off, FieldOk, MemberSize, FirstItem;
    EntryFits(fields, size, i);
    var f, off := fields[i], Off(fields, i);
    SubSlice(mem[..], at, size, off, MemberSize(f));
    FirstItemSlice(f, mem[..], at + off);
    if SizeLen(f) > 0 {
      SubSlice(mem[..], at, size, SizeAt(fields, i), SizeLen(f));
    }
  }

  lemma FirstItemSlice(f: Field, m: seq<byte>, pData: int)
    requires FieldOk(f) && f.dataSize <= MemberSize(f) && 0 <= pData && pData + MemberSize(f) <= |m|
    ensures FirstItem(f, m[pData..pData + MemberSize(f)]) == m[pData..pData + f.dataSize]
  {
    SubSlice(m, pData, MemberSize(f), 0, f.dataSize);
  }

  // ---------------------------------------------------------------- entries

  /** The encoder of the field's type, one item. */
  method EncodeItem(stream: OStream, f: Field, mem: array<byte>, at: int) returns (ok: bool)
    requires FieldOk(f)
    requires stream.Valid() && stream.buf != mem && 0 <= at && at + f.dataSize <= mem.Length
    modifies stream, stream.buf
    ensures Did(old(stream.Now()), stream.Now(), ok, EncItem(f, mem[at..at + f.dataSize]))
    decreases f, 0
  {
    hide Did, WellFormed, EncVarint, EncNumber;
    match f.ltype {
      case Varint | Uvarint | Svarint => ok := EncNumberField(stream, f, mem, at);
      case Fixed32 => ok := EncodeFixed(stream, mem, at, 4);
      case Fixed64 => ok := EncodeFixed(stream, mem, at, 8);
      case Bytes => ok := EncBytes(stream, f, mem, at);
      case String => ok := EncString(stream, f, mem, at);
      case Submessage => ok := EncodeSubmessage(stream, f.ptr.fields, mem, at, f.dataSize);
      case FixedLengthBytes => ok := EncodeString(stream, mem[at..at + f.dataSize]);
    }
  }

  /** A tag and an item. */
  method EncodeTagged(stream: OStream, f: Field, mem: array<byte>, at: int) returns (ok: bool)
    requires FieldOk(f)
    requires stream.Valid() && stream.buf != mem && 0 <= at && at + f.dataSize <= mem.Length
    modifies stream, stream.buf
    ensures Did(old(stream.Now()), stream.Now(), ok, EncTagged(f, mem[at..at + f.dataSize]))
    decreases f, 1
  {
    hide Did, EncItem, FieldOk, EncTag;
    ghost var s, d := stream.Now(), mem[at..at + f.dataSize];
    ghost var tag := EncTag(WireTypeOf(f.ltype), f.tag);
    ok := EncodeTagForField(stream, f);
    ghost var t := stream.Now();
    if !ok {
      DidNot(s, t, Some(tag), EncTagged(f, d));
      return;
    }
    DidValid(s, t, ok, Some(tag));
    ok := EncodeItem(stream, f, mem, at);
    DidThen(s, t, stream.Now(), tag, ok, EncItem(f, d));
  }

  /** pb_encode_submessage: once to learn the size, once for real. The branch for a size that
      changed in between is never taken. */
  method EncodeSubmessage(
    stream: OStream, fields: seq<Field>, mem: array<byte>, at: int, ghost size: nat)
    returns (ok: bool)
    requires WellFormed(fields, size)
    requires stream.Valid() && stream.buf != mem && 0 <= at && at + size <= mem.Length
    modifies stream, stream.buf
    ensures Did(old(stream.Now()), stream.Now(), ok, EncDelimited(fields, mem[at..at + size]))
    decreases fields, 3
  {
    hide Enc, WellFormed, EncVarint;
    ghost var s, m := stream.Now(), mem[at..at + size];
    var substream := new OStream.Sizing();
    ok := Encode(substream, fields, mem, at, size);
    if !ok {
      return;
    }
    ghost var body := Enc(fields, m).value;
    var length := substream.bytesWritten;
    assert length == |body|;
    ok := EncodeVarint(stream, length % TWO_64);
    ghost var t := stream.Now();
    if !ok {
      DidNot(s, t, Some(EncVarint(length % TWO_64)), Some(Lengthed(body)));
      return;
    }
    if stream.buf == null {
      stream.Count(length);
      DidThen(s, t, stream.Now(), EncVarint(length % TWO_64), true, Some(body));
      return true;
    }
    if stream.bytesWritten + length > stream.maxSize {
      assert Did(t, stream.Now(), false, Some(body));
      DidThen(s, t, stream.Now(), EncVarint(length % TWO_64), false, Some(body));
      return false;
    }
    substream := new OStream.Substream(stream, length);
    ghost var inner := substream.Now();
    var status := Encode(substream, fields, mem, at, size);
    assert status && substream.bytesWritten == length;
    stream.bytesWritten := stream.bytesWritten + substream.bytesWritten;
    stream.state := substream.state;
    if substream.bytesWritten != length {
      assert false;
    }
    assert Did(t, stream.Now(), true, Some(body)) by {
      SubstreamDone(t, inner, substream.Now(), stream.Now(), body);
    }
    DidThen(s, t, stream.Now(), EncVarint(length % TWO_64), true, Some(body));
    return status;
  }

  /** What a full substream wrote, seen from the stream around it. */
  lemma SubstreamDone(t: Snapshot, inner: Snapshot, inner': Snapshot, u: Snapshot, body: seq<byte>)
    requires t.Valid() && t.buffer.Some? && t.Fits(|body|)
    requires inner == Snapshot(t.buffer, t.state, |body|, 0)
    requires Did(inner, inner', true, Some(body))
    requires u == Snapshot(inner'.buffer, inner'.state, t.maxSize, t.bytesWritten + |body|)
    ensures Did(t, u, true, Some(body))
  {
    var x, y := t.buffer.value, u.buffer.value;
    assert y[u.state..] == x[u.state..];
    assert y[u.Limit()..] == y[u.state..][u.Limit() - u.state..];
    assert x[u.Limit()..] == x[u.state..][u.Limit() - u.state..];
  }

  lemma {:induction false} EncItemsPrefix(f: Field, d: seq<byte>, i: nat, count: nat, tagged: bool)
    requires FieldOk(f) && |d| == f.dataSize * f.arraySize && i <= count <= f.arraySize
    ensures EncItems(f, d, count, tagged).Some? ==>
              EncItems(f, d, i, tagged).Some? &&
              |EncItems(f, d, i, tagged).value| <= |EncItems(f, d, count, tagged).value|
    decreases count
  {
    hide FieldOk, EncItem, EncTagged;
    if i < count {
      EncItemsPrefix(f, d, i, count - 1, tagged);
    }
  }

  lemma {:induction false} FixedItems(f: Field, d: seq<byte>, count: nat)
    requires FieldOk(f) && |d| == f.dataSize * f.arraySize && count <= f.arraySize
    requires f.ltype.Fixed32? || f.ltype.Fixed64?
    ensures EncItems(f, d, count, false).Some? && |EncItems(f, d, count, false).value| == f.dataSize * count
    decreases count
  {
    if count > 0 {
      FixedItems(f, d, count - 1);
    }
  }

  /** The loops of encode_array over the first `count` items. */
  method EncodeItems(
    stream: OStream, f: Field, mem: array<byte>, pData: int, count: nat, tagged: bool)
    returns (ok: bool)
    requires FieldOk(f) && count <= f.arraySize
    requires stream.Valid() && stream.buf != mem && 0 <= pData && pData + f.dataSize * f.arraySize <= mem.Length
    modifies stream, stream.buf
    ensures Did(old(stream.Now()), stream.Now(), ok,
                EncItems(f, mem[pData..pData + f.dataSize * f.arraySize], count, tagged))
    decreases f, 2, 0
  {
    hide Did, FieldOk, EncItem, EncTagged, Item;
    ghost var s, d := stream.Now(), mem[pData..pData + f.dataSize * f.arraySize];
    var i, p := 0, pData;
    DidNothing(s);
    while i < count
      invariant 0 <= i <= count && p == pData + i * f.dataSize
      invariant Did(s, stream.Now(), true, EncItems(f, d, i, tagged))
      decreases count - i
    {
      ghost var t := stream.Now();
      ghost var before := EncItems(f, d, i, tagged);
      DidSome(s, t, before);
      ItemSlice(mem[..], pData, f.dataSize, i, f.arraySize);
      ghost var last := Item(d, f.dataSize, i, f.arraySize);
      ghost var item := if tagged then EncTagged(f, last) else EncItem(f, last);
      if tagged {
        ok := EncodeTagged(stream, f, mem, p);
      } else {
        ok := EncodeItem(stream, f, mem, p);
      }
      DidThen(s, t, stream.Now(), before.value, ok, item);
      if !ok {
        EncItemsPrefix(f, d, i + 1, count, tagged);
        DidNot(s, stream.Now(), EncItems(f, d, i + 1, tagged), EncItems(f, d, count, tagged));
        return;
      }
      p := p + f.dataSize;
      i := i + 1;
    }
    return true;
  }

  lemma DidSome(s: Snapshot, t: Snapshot, e: Option<seq<byte>>)
    requires Did(s, t, true, e)
    ensures e.Some? && s.Valid() && t.Valid()
    ensures t.bytesWritten == s.bytesWritten + |e.value|
    ensures t.buffer.Some? <==> s.buffer.Some?
  {
  }

  lemma DidFail(s: Snapshot)
    requires s.Valid()
    ensures Did(s, s, false, None)
  {
  }

  /** encode_array */
  method EncodeArray(stream: OStream, f: Field, mem: array<byte>, pData: int, count: nat) returns (ok: bool)
    requires FieldOk(f)
    requires stream.Valid() && stream.buf != mem && 0 <= pData && pData + f.dataSize * f.arraySize <= mem.Length
    modifies stream, stream.buf
    ensures Did(old(stream.Now()), stream.Now(), ok,
                EncArray(f, mem[pData..pData + f.dataSize * f.arraySize], count))
    decreases f, 3
  {
    hide Did, EncItems, EncItem, EncVarint;
    ghost var s, d := stream.Now(), mem[pData..pData + f.dataSize * f.arraySize];
    if count == 0 {
      DidNothing(s);
      return true;
    }
    if count > f.arraySize {
      DidFail(s);
      return false;
    }
    if f.ltype.Packable() {
      ok := EncodePacked(stream, f, mem, pData, count);
    } else {
      ok := EncodeItems(stream, f, mem, pData, count, true);
    }
  }

  /** The packed branch: tag, size, items. The size of varints is found with a sizing stream. */
  method EncodePacked(stream: OStream, f: Field, mem: array<byte>, pData: int, count: nat) returns (ok: bool)
    requires FieldOk(f) && f.ltype.Packable() && 0 < count <= f.arraySize
    requires stream.Valid() && stream.buf != mem && 0 <= pData && pData + f.dataSize * f.arraySize <= mem.Length
    modifies stream, stream.buf
    ensures Did(old(stream.Now()), stream.Now(), ok,
                EncArray(f, mem[pData..pData + f.dataSize * f.arraySize], count))
    decreases f, 2, 2
  {
    hide Did, EncItems, EncItem, EncVarint, EncTag, Lengthed;
    ghost var s, d := stream.Now(), mem[pData..pData + f.dataSize * f.arraySize];
    ghost var tag, items := EncTag(WT_STRING, f.tag), EncItems(f, d, count, false);
    ok := EncodeTag(stream, WT_STRING, f.tag);
    ghost var t := stream.Now();
    if !ok {
      DidNot(s, t, Some(tag), EncArray(f, d, count));
      return;
    }
    DidSome(s, t, Some(tag));
    var size: nat;
    if f.ltype.Fixed32? {
      FixedItems(f, d, count);
      size := 4 * count;
    } else if f.ltype.Fixed64? {
      FixedItems(f, d, count);
      size := 8 * count;
    } else {
      var sizestream := new OStream.Sizing();
      ghost var zero := sizestream.Now();
      ok := EncodeItems(sizestream, f, mem, pData, count, false);
      if !ok {
        SizingFails(zero, sizestream.Now(), items);
        DidFail(t);
        DidThen(s, t, t, tag, false, None);
        return;
      }
      DidSome(zero, sizestream.Now(), items);
      size := sizestream.bytesWritten;
    }
    ghost var body := items.value;
    assert size == |body|;
    ok := EncodeSized(stream, f, mem, pData, count, size, body);
    DidThen(s, t, stream.Now(), tag, ok, Some(Lengthed(body)));
  }

  lemma SizingFails(s: Snapshot, t: Snapshot, e: Option<seq<byte>>)
    requires s.buffer.None? && Did(s, t, false, e)
    ensures e.None?
  {
  }

  /** The size of a packed array and its items, once the size is known. */
  method EncodeSized(
    stream: OStream, f: Field, mem: array<byte>, pData: int, count: nat, size: nat, ghost body: seq<byte>)
    returns (ok: bool)
    requires FieldOk(f) && count <= f.arraySize
    requires stream.Valid() && stream.buf != mem && 0 <= pData && pData + f.dataSize * f.arraySize <= mem.Length
    requires EncItems(f, mem[pData..pData + f.dataSize * f.arraySize], count, false) == Some(body) && size == |body|
    modifies stream, stream.buf
    ensures Did(old(stream.Now()), stream.Now(), ok, Some(Lengthed(body)))
    decreases f, 2, 1
  {
    hide Did, EncItems, EncItem, EncVarint;
    ghost var s, length := stream.Now(), EncVarint(size % TWO_64);
    ok := EncodeVarint(stream, size % TWO_64);
    ghost var t := stream.Now();
    if !ok {
      DidNot(s, t, Some(length), Some(Lengthed(body)));
      return;
    }
    DidSome(s, t, Some(length));
    if stream.buf == null {
      stream.Count(size);
      Counted(t, stream.Now(), body);
      ok := true;
    } else {
      ok := EncodeItems(stream, f, mem, pData, count, false);
    }
    DidThen(s, t, stream.Now(), length, ok, Some(body));
  }

  lemma Counted(s: Snapshot, t: Snapshot, e: seq<byte>)
    requires s.Valid() && s.buffer.None? && t == s.(bytesWritten := s.bytesWritten + |e|)
    ensures Did(s, t, true, Some(e))
  {
  }

  /** encode_basic_field for a static field: data at pData, size variable at pData + size_offset. */
  method EncodeBasicField(stream: OStream, f: Field, mem: array<byte>, pData: int) returns (ok: bool)
    requires FieldOk(f) && f.dataSize <= MemberSize(f)
    requires stream.Valid() && stream.buf != mem && 0 <= pData && pData + MemberSize(f) <= mem.Length
    requires SizeLen(f) > 0 ==> 0 <= pData + f.sizeOffset && pData + f.sizeOffset + SizeLen(f) <= mem.Length
    modifies stream, stream.buf
    ensures Did(old(stream.Now()), stream.Now(), ok,
                EncEntry(f, mem[pData..pData + MemberSize(f)],
                         if SizeLen(f) == 0 then [] else mem[pData + f.sizeOffset..pData + f.sizeOffset + SizeLen(f)]))
    decreases f, 4
  {
    hide Did, EncTagged, EncArray, IsDefault;
    DidNothing(stream.Now());
    var pSize := pData + f.sizeOffset;
    match f.htype {
      case Required => ok := EncodeTagged(stream, f, mem, pData);
      case Optional =>
        var present: bool;
        if f.sizeOffset != 0 {
          present := mem[pSize] != 0;
        } else {
          var zero := CheckDefault(f, mem, pData);
          present := !zero;
        }
        if present {
          ok := EncodeTagged(stream, f, mem, pData);
        } else {
          ok := true;
        }
      case Repeated =>
        var count := Load(mem, pSize, SIZE_WIDTH);
        ok := EncodeArray(stream, f, mem, pData, count);
      case Oneof =>
        var which := Load(mem, pSize, SIZE_WIDTH);
        if which == f.tag {
          ok := EncodeTagged(stream, f, mem, pData);
        } else {
          ok := true;
        }
    }
  }

  // ---------------------------------------------------------------- messages

  lemma {:induction false} EncUpToPrefix(fields: seq<Field>, i: nat, n: nat, m: seq<byte>)
    requires WellFormed(fields, |m|) && i <= n <= |fields|
    ensures EncUpTo(fields, n, m).Some? ==>
              EncUpTo(fields, i, m).Some? && |EncUpTo(fields, i, m).value| <= |EncUpTo(fields, n, m).value|
    decreases n
  {
    hide WellFormed, EncField;
    if i < n {
      EncUpToStep(fields, n, m);
      EncUpToPrefix(fields, i, n - 1, m);
    }
  }

  lemma EncNothing(fields: seq<Field>, m: seq<byte>)
    requires WellFormed(fields, |m|)
    ensures EncUpTo(fields, 0, m) == Some([]) && Enc(fields, m) == EncUpTo(fields, |fields|, m)
  {
    hide WellFormed;
  }

  /** The bytes of entry i are those of its slices in memory. */
  lemma EntrySlices(fields: seq<Field>, i: nat, mem: array<byte>, at: int, size: nat)
    requires WellFormed(fields, size) && i < |fields| && 0 <= at && at + size <= mem.Length
    ensures var f, pData := fields[i], at + Off(fields, i);
            && FieldOk(f)
            && pData + MemberSize(f) <= mem.Length && f.dataSize <= MemberSize(f)
            && (SizeLen(f) > 0 ==>
                  0 <= pData + f.sizeOffset && pData + f.sizeOffset + SizeLen(f) <= mem.Length)
            && EncField(fields, i, mem[at..at + size]) ==
               EncEntry(f, mem[pData..pData + MemberSize(f)],
                        if SizeLen(f) == 0 then [] else mem[pData + f.sizeOffset..pData + f.sizeOffset + SizeLen(f)])
  {
    hide WellFormed, Off, FieldOk, MemberSize, FirstItem, EncEntry, Data;
    EntryInMemory(fields, i, mem, at, size);
  }

  /** pb_encode: it succeeds exactly when every field can be encoded and the whole message fits, and
      then appends the encoding of the message; a sizing stream counts its length. */
  method Encode(stream: OStream, fields: seq<Field>, mem: array<byte>, at: int, ghost size: nat) returns (ok: bool)
    requires WellFormed(fields, size)
    requires stream.Valid() && stream.buf != mem && 0 <= at && at + size <= mem.Length
    modifies stream, stream.buf
    ensures Did(old(stream.Now()), stream.Now(), ok, Enc(fields, mem[at..at + size]))
    decreases fields, 2
  {
    hide Did, EncEntry, EncUpTo, EncField, WellFormed, FieldOk, Off, MemberSize;
    ghost var s, m := stream.Now(), mem[at..at + size];
    DidNothing(s);
    EncNothing(fields, m);
    IsWalkable(fields, size);
    var iter := new FieldIter();
    var nonEmpty := iter.Begin(fields, at);
    if !nonEmpty {
      return true;
    }
    while true
      invariant iter.Valid() && iter.start == fields && iter.destStruct == at && iter.pos < |fields|
      invariant Did(s, stream.Now(), true, EncUpTo(fields, iter.pos, m))
      decreases |fields| - iter.pos
    {
      ghost var i, t := iter.pos, stream.Now();
      DidSome(s, t, EncUpTo(fields, i, m));
      EntrySlices(fields, i, mem, at, size);
      ok := EncodeBasicField(stream, fields[iter.pos], mem, iter.pData);
      EncUpToStep(fields, i + 1, m);
      DidThen(s, t, stream.Now(), EncUpTo(fields, i, m).value, ok, EncField(fields, i, m));
      if !ok {
        EncUpToPrefix(fields, i + 1, |fields|, m);
        DidNot(s, stream.Now(), EncUpTo(fields, i + 1, m), Enc(fields, m));
        return;
      }
      var more := iter.Next();
      if !more {
        return true;
      }
    }
  }

  /** pb_encode_delimited */
  method EncodeDelimited(
    stream: OStream, fields: seq<Field>, mem: array<byte>, at: int, ghost size: nat)
    returns (ok: bool)
    requires WellFormed(fields, size)
    requires stream.Valid() && stream.buf != mem && 0 <= at && at + size <= mem.Length
    modifies stream, stream.buf
    ensures Did(old(stream.Now()), stream.Now(), ok, EncDelimited(fields, mem[at..at + size]))
  {
    ok := EncodeSubmessage(stream, fields, mem, at, size);
  }

  /** pb_get_encoded_size */
  method GetEncodedSize(fields: seq<Field>, mem: array<byte>, at: int, ghost size: nat) returns (ok: bool, length: nat)
    requires WellFormed(fields, size) && 0 <= at && at + size <= mem.Length
    ensures ok <==> Enc(fields, mem[at..at + size]).Some?
    ensures ok ==> length == |Enc(fields, mem[at..at + size]).value|
  {
    var stream := new OStream.Sizing();
    ok := Encode(stream, fields, mem, at, size);
    length := stream.bytesWritten;
  }
}
