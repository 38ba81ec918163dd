/**
 The decoder (pb_decode.c): it reads fields from a stream and fills a struct in memory at the
 addresses the field iterator gives.
 */
module Decoder {
  import opened Wire
  import opened Descriptor
  import opened State
  import opened DecodeSpec
  import opened DecodeLaws
  import opened RepeatedLaws
  import opened RequiredFields
  import opened Iterator
  import opened Memory
  import opened InputStreams
  import opened FieldDecoders
  import opened EntryMemory
  import opened Initializer

  // ---------------------------------------------------------------- one item

  /** What an item is decoded into: a submessage that is not an array element is merged into what is
      in memory. */
  ghost function IntoOf(f: Field, d: seq<byte>): seq<FieldState>
    requires FieldOk(f) && |d| == f.dataSize
  {
    if !f.ltype.Submessage? then []
    else if f.htype.Repeated? then Defaults(f.ptr.fields)
    else View(f.ptr.fields, d)
  }

  /** The decoder of the field's type. */
  method DecodeItem(stream: IStream, f: Field, mem: array<byte>, at: int) returns (ok: bool)
    requires FieldOk(f) && stream.Valid() && 0 <= at && at + f.dataSize <= mem.Length
    modifies stream, mem
    ensures stream.Valid() && stream.Limit() <= old(stream.Limit())
    ensures ok ==> stream.Limit() == old(stream.Limit())
    ensures Only(old(mem[..]), mem[..], at, f.dataSize)
    ensures Agrees(ItemStep(f, old(stream.Remaining()), IntoOf(f, old(mem[at..at + f.dataSize]))), ok,
                   ViewValue(f, mem[at..at + f.dataSize]), stream.Remaining())
    decreases f, 1
  {
    hide ItemStep, WellFormed, View;
    match f.ltype {
      case Varint | Svarint => ok := DecSignedVarint(stream, f, mem, at);
      case Uvarint => ok := DecUvarint(stream, f, mem, at);
      case Fixed32 | Fixed64 => ok := DecFixed(stream, f, mem, at);
      case Bytes => ok := DecBytes(stream, f, mem, at);
      case String => ok := DecString(stream, f, mem, at);
      case Submessage => ok := DecSubmessage(stream, f, mem, at);
      case FixedLengthBytes => ok := DecFixedLengthBytes(stream, f, mem, at);
    }
  }

  /** pb_dec_submessage. An array element is initialised first. */
  method DecSubmessage(stream: IStream, f: Field, mem: array<byte>, at: int) returns (ok: bool)
    requires FieldOk(f) && f.ltype.Submessage? && stream.Valid() && 0 <= at && at + f.dataSize <= mem.Length
    modifies stream, mem
    ensures stream.Valid() && stream.Limit() <= old(stream.Limit())
    ensures ok ==> stream.Limit() == old(stream.Limit())
    ensures Only(old(mem[..]), mem[..], at, f.dataSize)
    ensures Agrees(ItemStep(f, old(stream.Remaining()), IntoOf(f, old(mem[at..at + f.dataSize]))), ok,
                   ViewValue(f, mem[at..at + f.dataSize]), stream.Remaining())
    decreases f, 0
  {
    hide WellFormed, DecodeInto, View, TakeChunk;
    ghost var s, d := stream.Remaining(), mem[at..at + f.dataSize];
    ghost var limit := stream.Limit();
    var fields := f.ptr.fields;
    var substream: IStream?;
    ok, substream := stream.MakeStringSubstream();
    if !ok {
      return;
    }
    var status: bool;
    if f.htype.Repeated? {
      status := Decode(substream, fields, mem, at, f.dataSize);
    } else {
      status := DecodeNoinit(substream, fields, mem, at, f.dataSize);
    }
    var closed := stream.CloseStringSubstream(substream);
    if !closed {
      assert false;
    }
    ghost var chunk := TakeChunk(s).value;
    assert ItemStep(f, s, IntoOf(f, d)) ==
           var r := DecodeInto(fields, chunk.0, IntoOf(f, d));
           if r.None? then None else Some((Message(r.value.0), chunk.1));
    if status {
      assert stream.Limit() == limit;
      assert stream.Remaining() == chunk.1;
    }
    return status;
  }

  // ---------------------------------------------------------------- one field

  /** What one field does to its entry: the new state, and the bytes behind the field. */
  ghost function EntryStep(f: Field, wireType: nat, s: seq<byte>, fs: FieldState): (r: Option<(FieldState, seq<byte>)>)
    ensures r.Some? ==> |r.value.1| <= |s|
  {
    var (p, rest) :- Frame(FieldFraming(f, wireType), s);
    var e :- ApplyEntry(f, p, fs);
    Some((e, rest))
  }

  lemma {:induction false} LeafStep(f: Field, s: seq<byte>, into: seq<FieldState>, into2: seq<FieldState>)
    requires !f.ltype.Submessage?
    ensures ItemStep(f, s, into) == ItemStep(f, s, into2)
  {
    hide ItemValue, Frame;
    if Frame(ItemFraming(f.ltype), s).Some? {
      LeafIgnoresInner(f, Frame(ItemFraming(f.ltype), s).value.0, into, into2);
    }
  }

  /** A required or optional entry takes the item. */
  lemma {:induction false} SingleStep(f: Field, wireType: nat, s: seq<byte>, d: seq<byte>, c: seq<byte>)
    requires FieldOk(f) && (f.htype.Required? || f.htype.Optional?) && |d| == f.dataSize && |c| == SizeLen(f)
    ensures MemberSize(f) == f.dataSize
    ensures var r := ItemStep(f, s, IntoOf(f, d));
            EntryStep(f, wireType, s, ViewEntry(f, d, c)) ==
            if r.None? then None
            else
              var e := if f.htype.Optional? && f.sizeOffset != 0 then Opt(true, r.value.0) else One(r.value.0);
              Some((e, r.value.1))
  {
    hide ItemValue, Frame, View, WellFormed;
    if !f.ltype.Submessage? {
      LeafStep(f, s, IntoOf(f, d), Inner(ViewEntry(f, d, c)));
    }
  }

  /** A union member takes the item, decoded from its defaults. */
  lemma {:induction false} MemberStep(f: Field, wireType: nat, s: seq<byte>, fs: FieldState)
    requires f.htype.Oneof?
    ensures var r := ItemStep(f, s, Defaults(SubFieldsOf(f)));
            EntryStep(f, wireType, s, fs) == if r.None? then None else Some((Alt(Some(r.value.0)), r.value.1))
  {
    hide ItemValue, Frame;
  }

  /** A record of an array that is not packed appends one item. */
  lemma {:induction false} ElementStep(f: Field, wireType: nat, s: seq<byte>, count: nat, items: seq<Value>)
    requires f.htype.Repeated? && !Packed(f, wireType)
    ensures var r := ItemStep(f, s, Defaults(SubFieldsOf(f)));
            EntryStep(f, wireType, s, Many(count, items)) ==
            if r.None? || count >= f.arraySize then None
            else Some((Many(count + 1, items + [r.value.0]), r.value.1))
  {
    hide ItemValue, Frame;
    var r := Frame(ItemFraming(f.ltype), s);
    if r.Some? {
      assert !(f.ltype.Packable() && r.value.0.Chunk?);
      assert ApplyEntry(f, r.value.0, Many(count, items)) == AppendItem(f, r.value.0, count, items);
    }
  }

  /** A packed record appends the items of its body. */
  lemma {:induction false} PackedStep(f: Field, wireType: nat, s: seq<byte>, count: nat, items: seq<Value>)
    requires Packed(f, wireType)
    ensures var chunk := TakeChunk(s);
            EntryStep(f, wireType, s, Many(count, items)) ==
            if chunk.None? then None
            else
              var e := AppendPacked(f, chunk.value.0, count, items);
              if e.None? then None else Some((e.value, chunk.value.1))
  {
    hide TakeChunk, ItemValue;
    assert Frame(FieldFraming(f, wireType), s) ==
           if TakeChunk(s).None? then None else Some((Chunk(TakeChunk(s).value.0), TakeChunk(s).value.1));
  }

  /** Required and optional fields: set the has variable, then decode the item. */
  method DecodeSingle(stream: IStream, wireType: nat, f: Field, mem: array<byte>, pData: int) returns (ok: bool)
    requires FieldOk(f) && Placed(f, pData, mem.Length) && stream.Valid() && (f.htype.Required? || f.htype.Optional?)
    modifies stream, mem
    ensures stream.Valid() && stream.Limit() <= old(stream.Limit())
    ensures ok ==> stream.Limit() == old(stream.Limit())
    ensures OnlyField(f, pData, old(mem[..]), mem[..])
    ensures Agrees(EntryStep(f, wireType, old(stream.Remaining()), EntryView(f, old(mem[..]), pData)), ok,
                   EntryView(f, mem[..], pData), stream.Remaining())
    ensures f.htype.Optional? && f.sizeOffset != 0 ==> CellOf(f, mem[..], pData) == [1]
    decreases f, 2
  {
    hide ItemStep, EntryStep, FieldOk, ViewValue, MemberSize, IntoOf;
    ghost var s, m := stream.Remaining(), mem[..];
    ghost var d, c := DataOf(f, m, pData), CellOf(f, m, pData);
    assert MemberSize(f) == f.dataSize by {
      SingleSize(f);
    }
    SingleStep(f, wireType, s, d, c);
    if f.htype.Optional? && f.sizeOffset != 0 {
      mem[pData + f.sizeOffset] := 1;
    }
    ghost var m1 := mem[..];
    assert mem[pData..pData + f.dataSize] == d;
    ok := DecodeItem(stream, f, mem, pData);
    DataKeepsCell(f, m1, mem[..], pData, f.dataSize);
    assert DataOf(f, mem[..], pData) == mem[pData..pData + f.dataSize];
  }

  /** A union member: set the which variable; a submessage is cleared and gets its defaults, then the
      item is decoded. */
  method DecodeMember(stream: IStream, wireType: nat, f: Field, mem: array<byte>, pData: int) returns (ok: bool)
    requires FieldOk(f) && Placed(f, pData, mem.Length) && stream.Valid() && f.htype.Oneof?
    modifies stream, mem
    ensures stream.Valid() && stream.Limit() <= old(stream.Limit())
    ensures ok ==> stream.Limit() == old(stream.Limit())
    ensures OnlyField(f, pData, old(mem[..]), mem[..])
    ensures Agrees(EntryStep(f, wireType, old(stream.Remaining()), EntryView(f, old(mem[..]), pData)), ok,
                   EntryView(f, mem[..], pData), stream.Remaining())
    ensures LE(CellOf(f, mem[..], pData)) == f.tag
    decreases f, 2
  {
    hide ItemStep, EntryStep, FieldOk, ViewValue, MemberSize, LE, IntoOf;
    ghost var s, m := stream.Remaining(), mem[..];
    assert MemberSize(f) == f.dataSize by {
      SingleSize(f);
    }
    MemberStep(f, wireType, s, EntryView(f, m, pData));
    SelectMember(f, mem, pData);
    ghost var m1 := mem[..];
    if !f.ltype.Submessage? {
      LeafStep(f, s, IntoOf(f, mem[pData..pData + f.dataSize]), Defaults(SubFieldsOf(f)));
    }
    ok := DecodeItem(stream, f, mem, pData);
    DataKeepsCell(f, m1, mem[..], pData, f.dataSize);
    assert DataOf(f, mem[..], pData) == mem[pData..pData + f.dataSize];
  }

  /** The which variable set, and the storage of a submessage reset. */
  method SelectMember(f: Field, mem: array<byte>, pData: int)
    requires FieldOk(f) && Placed(f, pData, mem.Length) && f.htype.Oneof?
    modifies mem
    ensures OnlyField(f, pData, old(mem[..]), mem[..])
    ensures LE(CellOf(f, mem[..], pData)) == f.tag
    ensures f.ltype.Submessage? ==> IntoOf(f, mem[pData..pData + f.dataSize]) == Defaults(SubFieldsOf(f))
  {
    hide FieldOk, MemberSize, LE, ToLE, View, WellFormed;
    assert MemberSize(f) == f.dataSize by {
      SingleSize(f);
    }
    Store(mem, pData + f.sizeOffset, SIZE_WIDTH, f.tag);
    ghost var m1 := mem[..];
    TagFits(f);
    LEToLE(f.tag, SIZE_WIDTH);
    if f.ltype.Submessage? {
      SubmessageOk(f);
      Fill(mem, pData, Zeros(f.dataSize));
      MessageSetToDefaults(f.ptr.fields, mem, pData, f.dataSize);
    }
    DataKeepsCell(f, m1, mem[..], pData, f.dataSize);
  }

  lemma TagFits(f: Field)
    requires FieldOk(f)
    ensures f.tag < Pow(256, SIZE_WIDTH) && f.arraySize < Pow(256, SIZE_WIDTH)
  {
    hide WellFormed;
  }

  /** One element of an array that is not packed: the count goes up before the item is decoded. */
  method DecodeElement(stream: IStream, wireType: nat, f: Field, mem: array<byte>, pData: int) returns (ok: bool)
    requires FieldOk(f) && Placed(f, pData, mem.Length) && stream.Valid() && f.htype.Repeated? && !Packed(f, wireType)
    modifies stream, mem
    ensures stream.Valid() && stream.Limit() <= old(stream.Limit())
    ensures ok ==> stream.Limit() == old(stream.Limit())
    ensures OnlyField(f, pData, old(mem[..]), mem[..])
    ensures Agrees(EntryStep(f, wireType, old(stream.Remaining()), EntryView(f, old(mem[..]), pData)), ok,
                   EntryView(f, mem[..], pData), stream.Remaining())
    decreases f, 2
  {
    hide ItemStep, EntryStep, FieldOk, ViewValue, MemberSize, LE, ToLE, ItemAt, ViewItems, DataOf, CellOf,
      DiffersOnlyIn;
    ghost var s, m := stream.Remaining(), mem[..];
    CountCell(f, m, pData);
    var pSize := pData + f.sizeOffset;
    var count := Load(mem, pSize, SIZE_WIDTH);
    assert count == LE(CellOf(f, m, pData));
    ArraySize(f);
    DiffersNot(m, pData, MemberSize(f), pSize, SizeLen(f));
    ElementStep(f, wireType, s, count, ViewItems(f, DataOf(f, m, pData), count));
    if count >= f.arraySize {
      return false;
    }
    var pItem := ComputeItem(f, pData, count);
    ItemPlaced(f, m, pData, count);
    Store(mem, pSize, SIZE_WIDTH, count + 1);
    ghost var m1 := mem[..];
    SameLength(m, m1, pSize, SIZE_WIDTH, pSize, 0);
    CountStored(f, m1, pData, count + 1);
    if f.ltype.Submessage? {
      SubmessageOk(f);
    } else {
      LeafStep(f, s, IntoOf(f, mem[pItem..pItem + f.dataSize]), Defaults(SubFieldsOf(f)));
    }
    ok := DecodeItem(stream, f, mem, pItem);
    SameLength(m1, mem[..], pItem, f.dataSize, pItem, 0);
    ItemKeepsCell(f, m1, mem[..], pData, count);
    OnlyTwice(m, m1, mem[..], pItem, f.dataSize, pSize, SIZE_WIDTH);
    ItemAppended(f, m, mem[..], pData, count);
  }

  lemma CountCell(f: Field, m: seq<byte>, pData: int)
    requires Placed(f, pData, |m|) && f.htype.Repeated?
    ensures SizeLen(f) == SIZE_WIDTH
    ensures CellOf(f, m, pData) == m[pData + f.sizeOffset..pData + f.sizeOffset + SIZE_WIDTH]
  {
  }

  lemma CountStored(f: Field, m: seq<byte>, pData: int, count: nat)
    requires FieldOk(f) && Placed(f, pData, |m|) && f.htype.Repeated? && count <= f.arraySize
    requires m[pData + f.sizeOffset..pData + f.sizeOffset + SIZE_WIDTH] == ToLE(count, SIZE_WIDTH)
    ensures LE(CellOf(f, m, pData)) == count
  {
    hide FieldOk, LE, ToLE;
    TagFits(f);
    LEToLE(count, SIZE_WIDTH);
  }

  /** The count is not touched by writing an element. */
  lemma ItemKeepsCell(f: Field, m: seq<byte>, m': seq<byte>, pData: int, k: nat)
    requires FieldOk(f) && Placed(f, pData, |m|) && |m'| == |m| && f.htype.Repeated? && k < f.arraySize
    requires Only(m, m', ItemAt(f, pData, k), f.dataSize)
    ensures CellOf(f, m', pData) == CellOf(f, m, pData)
  {
    hide FieldOk, ItemAt, MemberSize;
    ItemPlaced(f, m, pData, k);
    RangeKept(m, m', ItemAt(f, pData, k), f.dataSize, ItemAt(f, pData, k), 0, pData + f.sizeOffset, SizeLen(f));
  }

  lemma DiffersNot(m: seq<byte>, a: int, la: nat, c: int, lc: nat)
    ensures DiffersOnlyIn(m, m, a, la, c, lc)
  {
  }

  lemma OnlyTwice(m: seq<byte>, m1: seq<byte>, m2: seq<byte>, a: int, la: nat, c: int, lc: nat)
    requires Only(m, m1, c, lc) && Only(m1, m2, a, la)
    ensures DiffersOnlyIn(m, m2, a, la, c, lc)
  {
  }

  lemma ArraySize(f: Field)
    requires FieldOk(f) && f.htype.Repeated?
    ensures MemberSize(f) == f.dataSize * f.arraySize
  {
  }

  method ComputeItem(f: Field, pData: int, k: nat) returns (at: int)
    ensures at == ItemAt(f, pData, k)
  {
    at := pData + f.dataSize * k;
  }

  lemma {:induction false} PackedItemStep(f: Field, s: seq<byte>, into: seq<FieldState>, count: nat, items: seq<Value>)
    requires f.ltype.Packable() && s != [] && count < f.arraySize
    ensures var r := ItemStep(f, s, into);
            && (r.Some? ==> |r.value.1| < |s|)
            && AppendPacked(f, s, count, items) ==
               if r.None? then None else AppendPacked(f, r.value.1, count + 1, items + [r.value.0])
  {
    hide Frame, WordValue, ItemStep;
    NumberStep(f, s, into);
  }

  lemma {:induction false} NumberStep(f: Field, s: seq<byte>, into: seq<FieldState>)
    requires f.ltype.Packable() && s != []
    ensures var r := Frame(ItemFraming(f.ltype), s);
            ItemStep(f, s, into) ==
            if r.None? then None
            else
              var v := WordValue(f.ltype, f.dataSize, r.value.0);
              if v.None? then None else Some((v.value, r.value.1))
  {
    hide Frame, WordValue, DecodeInto, ChunkValue;
  }

  /** One turn of the loop over a packed body. */
  method DecodePackedItem(
    substream: IStream, f: Field, mem: array<byte>, pData: int, count: nat, ghost items: seq<Value>)
    returns (ok: bool)
    requires FieldOk(f) && Placed(f, pData, mem.Length) && f.htype.Repeated? && f.ltype.Packable()
    requires substream.Valid() && substream.bytesLeft > 0 && count < f.arraySize
    requires EntryView(f, mem[..], pData) == Many(count, items)
    modifies substream, mem
    ensures substream.Valid() && substream.Limit() <= old(substream.Limit())
    ensures OnlyField(f, pData, old(mem[..]), mem[..])
    ensures !ok ==> AppendPacked(f, old(substream.Remaining()), count, items) == None
    ensures ok ==>
              && substream.Limit() == old(substream.Limit()) && substream.bytesLeft < old(substream.bytesLeft)
              && EntryView(f, mem[..], pData).Many? && EntryView(f, mem[..], pData).count == count + 1
              && AppendPacked(f, old(substream.Remaining()), count, items) ==
                 AppendPacked(f, substream.Remaining(), count + 1, EntryView(f, mem[..], pData).items)
    decreases f, 2
  {
    hide ItemStep, FieldOk, ViewValue, MemberSize, LE, ToLE, ItemAt, ViewItems, DataOf, CellOf, DiffersOnlyIn,
      AppendPacked;
    ghost var s, m := substream.Remaining(), mem[..];
    CountCell(f, m, pData);
    ArraySize(f);
    var pItem := ComputeItem(f, pData, count);
    ItemPlaced(f, m, pData, count);
    PackedItemStep(f, s, IntoOf(f, mem[pItem..pItem + f.dataSize]), count, items);
    ok := DecodeItem(substream, f, mem, pItem);
    ghost var m1 := mem[..];
    SameLength(m, m1, pItem, f.dataSize, pItem, 0);
    ItemInEntry(f, m, m1, pData, count);
    if !ok {
      return;
    }
    ghost var v := ViewValue(f, mem[pItem..pItem + f.dataSize]);
    Store(mem, pData + f.sizeOffset, SIZE_WIDTH, count + 1);
    ghost var m2 := mem[..];
    SameLength(m1, m2, pData + f.sizeOffset, SIZE_WIDTH, pData + f.sizeOffset, 0);
    CountStored(f, m2, pData, count + 1);
    OnlyTwiceReversed(m, m1, m2, pItem, f.dataSize, pData + f.sizeOffset, SIZE_WIDTH);
    CountKeepsItem(f, m1, m2, pData, count);
    ItemAppended(f, m, m2, pData, count);
  }

  lemma OnlyTwiceReversed(m: seq<byte>, m1: seq<byte>, m2: seq<byte>, a: int, la: nat, c: int, lc: nat)
    requires Only(m, m1, a, la) && Only(m1, m2, c, lc)
    ensures DiffersOnlyIn(m, m2, a, la, c, lc)
  {
  }

  lemma ItemInEntry(f: Field, m: seq<byte>, m': seq<byte>, pData: int, k: nat)
    requires FieldOk(f) && Placed(f, pData, |m|) && |m'| == |m| && f.htype.Repeated? && k < f.arraySize
    requires Only(m, m', ItemAt(f, pData, k), f.dataSize)
    ensures OnlyField(f, pData, m, m')
  {
    hide FieldOk, ItemAt, MemberSize;
    ItemPlaced(f, m, pData, k);
  }

  /** An element is not touched by writing the count. */
  lemma CountKeepsItem(f: Field, m: seq<byte>, m': seq<byte>, pData: int, k: nat)
    requires FieldOk(f) && Placed(f, pData, |m|) && |m'| == |m| && f.htype.Repeated? && k < f.arraySize
    requires Only(m, m', pData + f.sizeOffset, SizeLen(f))
    ensures 0 <= ItemAt(f, pData, k) && ItemAt(f, pData, k) + f.dataSize <= |m|
    ensures var at := ItemAt(f, pData, k);
            m'[at..at + f.dataSize] == m[at..at + f.dataSize]
  {
    hide FieldOk, ItemAt, MemberSize;
    ItemPlaced(f, m, pData, k);
    RangeKept(m, m', pData + f.sizeOffset, SizeLen(f), pData + f.sizeOffset, 0, ItemAt(f, pData, k), f.dataSize);
  }

  lemma PackedOverflow(f: Field, s: seq<byte>, count: nat, items: seq<Value>)
    requires f.ltype.Packable() && s != [] && count >= f.arraySize
    ensures AppendPacked(f, s, count, items) == None
  {
  }

  /** The packed branch of decode_static_field. */
  method DecodePacked(stream: IStream, wireType: nat, f: Field, mem: array<byte>, pData: int) returns (ok: bool)
    requires FieldOk(f) && Placed(f, pData, mem.Length) && stream.Valid() && Packed(f, wireType)
    modifies stream, mem
    ensures stream.Valid() && stream.Limit() <= old(stream.Limit())
    ensures ok ==> stream.Limit() == old(stream.Limit())
    ensures OnlyField(f, pData, old(mem[..]), mem[..])
    ensures Agrees(EntryStep(f, wireType, old(stream.Remaining()), EntryView(f, old(mem[..]), pData)), ok,
                   EntryView(f, mem[..], pData), stream.Remaining())
    decreases f, 3
  {
    hide EntryStep, FieldOk, MemberSize, LE, ViewItems, DataOf, CellOf, DiffersOnlyIn, AppendPacked, TakeChunk;
    ghost var s, m := stream.Remaining(), mem[..];
    ghost var limit := stream.Limit();
    CountCell(f, m, pData);
    ArraySize(f);
    DiffersNot(m, pData, MemberSize(f), pData + f.sizeOffset, SizeLen(f));
    var count: nat := Load(mem, pData + f.sizeOffset, SIZE_WIDTH);
    ghost var items := ViewItems(f, DataOf(f, m, pData), count);
    PackedStep(f, wireType, s, count, items);
    var substream: IStream?;
    ok, substream := stream.MakeStringSubstream();
    if !ok {
      return;
    }
    ghost var chunk, end := TakeChunk(s).value, substream.Limit();
    ghost var target := AppendPacked(f, chunk.0, count, items);
    ghost var booked := (stream.state, stream.bytesLeft);
    var status := true;
    while substream.bytesLeft > 0 && count < f.arraySize
      invariant substream.Valid() && substream.Limit() == end && substream.source == stream.source
      invariant stream.state == booked.0 && stream.bytesLeft == booked.1
      invariant status && OnlyField(f, pData, m, mem[..])
      invariant EntryView(f, mem[..], pData) == Many(count, items)
      invariant AppendPacked(f, substream.Remaining(), count, items) == target
      decreases substream.bytesLeft
    {
      ghost var m1 := mem[..];
      var decoded := DecodePackedItem(substream, f, mem, pData, count, items);
      OnlyAgain(m, m1, mem[..], pData, MemberSize(f), pData + f.sizeOffset, SizeLen(f));
      if !decoded {
        status := false;
        break;
      }
      count := count + 1;
      items := EntryView(f, mem[..], pData).items;
    }
    if substream.bytesLeft != 0 {
      if status {
        PackedOverflow(f, substream.Remaining(), count, items);
      }
      return false;
    }
    if status {
      PackedEmpty(f, count, items);
    }
    var closed := stream.CloseStringSubstream(substream);
    if !closed {
      assert false;
    }
    return status;
  }

  lemma OnlyAgain(m: seq<byte>, m1: seq<byte>, m2: seq<byte>, a: int, la: nat, c: int, lc: nat)
    requires DiffersOnlyIn(m, m1, a, la, c, lc) && DiffersOnlyIn(m1, m2, a, la, c, lc)
    ensures DiffersOnlyIn(m, m2, a, la, c, lc)
  {
  }

  /** decode_static_field */
  method DecodeStaticField(stream: IStream, wireType: nat, f: Field, mem: array<byte>, pData: int) returns (ok: bool)
    requires FieldOk(f) && Placed(f, pData, mem.Length) && stream.Valid()
    modifies stream, mem
    ensures stream.Valid() && stream.Limit() <= old(stream.Limit())
    ensures ok ==> stream.Limit() == old(stream.Limit())
    ensures OnlyField(f, pData, old(mem[..]), mem[..])
    ensures Agrees(EntryStep(f, wireType, old(stream.Remaining()), EntryView(f, old(mem[..]), pData)), ok,
                   EntryView(f, mem[..], pData), stream.Remaining())
    ensures f.htype.Oneof? ==> LE(CellOf(f, mem[..], pData)) == f.tag
    decreases f, 4
  {
    hide EntryStep, FieldOk, EntryView, CellOf, OnlyField, Placed;
    match f.htype {
      case Required => ok := DecodeSingle(stream, wireType, f, mem, pData);
      case Optional => ok := DecodeSingle(stream, wireType, f, mem, pData);
      case Repeated =>
        if wireType == WT_STRING && f.ltype.Packable() {
          ok := DecodePacked(stream, wireType, f, mem, pData);
        } else {
          ok := DecodeElement(stream, wireType, f, mem, pData);
        }
      case Oneof => ok := DecodeMember(stream, wireType, f, mem, pData);
    }
  }

  // ---------------------------------------------------------------- messages

  /** One turn of the field loop on a known field. */
  lemma {:induction false} LoopKnown(
    fields: seq<Field>, s: seq<byte>, st: seq<FieldState>, seen: set<nat>, wireType: nat, s': seq<byte>, i: nat)
    requires |st| == |fields| && s != [] && i < |fields| && DistinctTags(fields)
    requires DecodeSpec.DecodeTag(s) == Tag(fields[i].tag, wireType, s')
    ensures var r := EntryStep(fields[i], wireType, s', st[i]);
            Loop(fields, s, st, seen) ==
            if r.None? then None
            else Loop(fields, r.value.1, SetEntry(fields, i, r.value.0, st),
                      if fields[i].htype.Required? then seen + {i} else seen)
  {
    hide DecodeSpec.DecodeTag, Frame, Find, ItemValue, AppendPacked, AppendItem;
    FindUnique(fields, i);
    var how := FieldFraming(fields[i], wireType);
    assert ParseRecord(fields, s) ==
           if Frame(how, s').None? then Malformed
           else Record(fields[i].tag, Frame(how, s').value.0, Frame(how, s').value.1);
    if Frame(how, s').Some? {
      var (p, rest) := Frame(how, s').value;
      var e := ApplyEntry(fields[i], p, st[i]);
      assert ApplyRecord(fields, fields[i].tag, p, st, seen) ==
             if e.None? then None
             else Some((SetEntry(fields, i, e.value, st), if fields[i].htype.Required? then seen + {i} else seen));
    }
  }

  lemma {:induction false} LoopUnknown(
    fields: seq<Field>, s: seq<byte>, st: seq<FieldState>, seen: set<nat>, tag: nat, wireType: nat, s': seq<byte>)
    requires |st| == |fields| && s != [] && Find(fields, tag).None? && !(fields == [] && tag == 0)
    requires DecodeSpec.DecodeTag(s) == Tag(tag, wireType, s')
    ensures var how := UnknownFraming(wireType);
            Loop(fields, s, st, seen) ==
            if how.None? || Frame(how.value, s').None? then None
            else Loop(fields, Frame(how.value, s').value.1, st, seen)
  {
    hide DecodeSpec.DecodeTag, Frame, Find;
  }

  lemma {:induction false} LoopStops(fields: seq<Field>, s: seq<byte>, st: seq<FieldState>, seen: set<nat>)
    requires |st| == |fields|
    ensures s == [] ==> Loop(fields, s, st, seen) == Some(Outcome(st, seen, []))
    ensures s != [] && DecodeSpec.DecodeTag(s).TagEnd? ==>
              Loop(fields, s, st, seen) == Some(Outcome(st, seen, DecodeSpec.DecodeTag(s).rest))
    ensures s != [] && DecodeSpec.DecodeTag(s).TagError? ==> Loop(fields, s, st, seen) == None
    ensures s != [] && fields == [] && DecodeSpec.DecodeTag(s).Tag? && DecodeSpec.DecodeTag(s).tag == 0 ==>
              Loop(fields, s, st, seen) == None
  {
    hide DecodeSpec.DecodeTag, Frame;
  }

  lemma TerminatorFails(s: seq<byte>)
    ensures ItemStep(LAST_FIELD, s, []) == None
  {
  }

  lemma FieldFacts(fields: seq<Field>, size: nat)
    requires WellFormed(fields, size)
    ensures DistinctTags(fields) && RequiredCountOk(fields)
    ensures forall i :: 0 <= i < |fields| ==> FieldOk(fields[i])
  {
    hide Layout, FieldOk, UnionsAligned;
  }

  lemma FindNothing(fields: seq<Field>, tag: nat)
    requires forall i :: 0 <= i < |fields| ==> FieldOk(fields[i])
    requires forall i :: 0 <= i < |fields| ==> !Matches(fields[i], tag)
    ensures Find(fields, tag).None?
  {
    hide WellFormed;
    forall i | 0 <= i < |fields|
      ensures fields[i].tag != tag
    {
      assert FieldOk(fields[i]);
    }
  }

  /** A required field found by the iterator is marked in the words. */
  method MarkSeen(
    iter: FieldIter, fieldsSeen: seq<nat>, ghost seen: set<nat>)
    returns (words: seq<nat>, ghost now: set<nat>)
    requires iter.Valid() && iter.pos < |iter.start| && RequiredCountOk(iter.start)
    requires OnlyRequired(iter.start, seen) && Holds(fieldsSeen, Ordinals(iter.start, seen))
    ensures now == if iter.start[iter.pos].htype.Required? then seen + {iter.pos} else seen
    ensures OnlyRequired(iter.start, now) && Holds(words, Ordinals(iter.start, now)) && |words| == 2
  {
    hide Ordinals, RequiredBefore;
    words, now := fieldsSeen, seen;
    if iter.start[iter.pos].htype.Required? {
      OrdinalFits(iter.start, iter.pos);
      HoldsMore(fieldsSeen, Ordinals(iter.start, seen), RequiredBefore(iter.start, iter.pos));
      OrdinalsAdd(iter.start, seen, iter.pos);
      now := seen + {iter.pos};
      if iter.requiredFieldIndex < 64 {
        var word := iter.requiredFieldIndex / 32;
        words := fieldsSeen[word := OrBit(fieldsSeen[word], iter.requiredFieldIndex % 32)];
      }
    }
  }

  const NO_EXTENSIONS: nat := 0xFFFF_FFFF

  /** A field without entry: the placeholder of the extensions is looked for once, and since no
      extension is registered the field is skipped. Without a placeholder the iterator stays. */
  method SkipUnknown(stream: IStream, iter: FieldIter, tag: nat, wireType: nat, extensionRangeStart: nat)
    returns (ok: bool, rangeStart: nat)
    requires stream.Valid() && iter.Valid()
    modifies stream, iter
    ensures stream.Valid() && stream.Limit() == old(stream.Limit())
    ensures iter.Valid() && iter.start == old(iter.start) && iter.destStruct == old(iter.destStruct)
    ensures (forall i :: 0 <= i < |iter.start| ==> !iter.start[i].ltype.Extension?) ==> iter.pos == old(iter.pos)
    ensures ok <==> UnknownFraming(wireType).Some? &&
                    Frame(UnknownFraming(wireType).value, old(stream.Remaining())).Some?
    ensures ok ==> Frame(UnknownFraming(wireType).value, old(stream.Remaining())).value.1 == stream.Remaining()
  {
    hide Walkable, Off, Frame;
    rangeStart := extensionRangeStart;
    if tag >= rangeStart {
      var found := iter.FindExtension();
      if !found {
        rangeStart := NO_EXTENSIONS;
      } else {
        rangeStart := FieldAt(iter.start, iter.pos).tag;
      }
      // An empty list of extensions decodes nothing, whatever the tag.
    }
    ok := stream.SkipField(wireType);
  }

  /** A known field is decoded into its place in the struct. */
  method DecodeKnown(
    stream: IStream, wireType: nat, fields: seq<Field>, i: nat, mem: array<byte>, pData: int,
    ghost at: int, ghost size: nat)
    returns (ok: bool)
    requires WellFormed(fields, size) && i < |fields| && pData == at + Off(fields, i)
    requires stream.Valid() && 0 <= at && at + size <= mem.Length
    modifies stream, mem
    ensures stream.Valid() && stream.Limit() <= old(stream.Limit())
    ensures ok ==> stream.Limit() == old(stream.Limit())
    ensures Only(old(mem[..]), mem[..], at, size)
    ensures var st := View(fields, old(mem[at..at + size]));
            var r := EntryStep(fields[i], wireType, old(stream.Remaining()), st[i]);
            && (ok <==> r.Some?)
            && (ok ==>
                  && stream.Remaining() == r.value.1
                  && View(fields, mem[at..at + size]) == SetEntry(fields, i, r.value.0, st))
    decreases fields, 0
  {
    hide WellFormed, Off, FieldOk, Placed, EntryView, CellOf, EntryStep, RequiredBefore, SetEntry, View;
    ghost var m := mem[..];
    EntryPlaced(fields, i, m, at, size);
    ok := DecodeStaticField(stream, wireType, fields[i], mem, pData);
    FieldWritten(fields, i, m, mem[..], at, size);
  }

  /** The number of required fields, found by walking the iterator to its end. */
  method CountRequired(iter: FieldIter) returns (count: nat)
    requires iter.Valid()
    modifies iter
    ensures iter.start == old(iter.start)
    ensures count == RequiredBefore(iter.start, |iter.start|)
  {
    var lastType: HType;
    while true
      invariant iter.Valid() && iter.start == old(iter.start)
      decreases |iter.start| - iter.pos
    {
      count := iter.requiredFieldIndex;
      lastType := FieldAt(iter.start, iter.pos).htype;
      var more := iter.Next();
      if !more {
        break;
      }
    }
    // The last entry is not counted by the iterator itself.
    if lastType.Required? && FieldAt(iter.start, iter.pos).tag != 0 {
      count := count + 1;
    }
  }

  /** The final check on the words. */
  method CheckRequired(fieldsSeen: seq<nat>, count: nat) returns (complete: bool)
    requires |fieldsSeen| == 2 && (count == 0 || (count < 64 && count % 32 != 0))
    ensures complete <==> WordsComplete(fieldsSeen, count)
  {
    if count == 0 {
      return true;
    }
    var i := 0;
    while i < count / 32
      invariant 0 <= i <= count / 32 && forall j :: 0 <= j < i ==> fieldsSeen[j] == ALL_BITS
    {
      if fieldsSeen[i] != ALL_BITS {
        return false;
      }
      i := i + 1;
    }
    MaskValue(count % 32);
    return fieldsSeen[count / 32] == ALL_BITS / Pow(2, 32 - count % 32);
  }

  /** The check at the end of pb_decode_noinit. */
  method AllSeen(iter: FieldIter, fieldsSeen: seq<nat>, ghost seen: set<nat>) returns (complete: bool)
    requires iter.Valid() && RequiredCountOk(iter.start)
    requires OnlyRequired(iter.start, seen) && Holds(fieldsSeen, Ordinals(iter.start, seen))
    modifies iter
    ensures complete <==> AllRequired(old(iter.start), seen)
  {
    hide Ordinals, RequiredBefore;
    ghost var fields := iter.start;
    var count := CountRequired(iter);
    BitmaskRefinesSet(fields, fieldsSeen, seen);
    assert RequiredCountOk(fields) && count == RequiredBefore(fields, |fields|);
    complete := CheckRequired(fieldsSeen, count);
  }

  /** pb_decode_noinit */
  method DecodeNoinit(
    stream: IStream, fields: seq<Field>, mem: array<byte>, at: int, ghost size: nat)
    returns (ok: bool)
    requires WellFormed(fields, size) && stream.Valid() && 0 <= at && at + size <= mem.Length
    modifies stream, mem
    ensures stream.Valid() && stream.Limit() <= old(stream.Limit())
    ensures ok ==> stream.Limit() == old(stream.Limit())
    ensures Only(old(mem[..]), mem[..], at, size)
    ensures Agrees(DecodeInto(fields, old(stream.Remaining()), View(fields, old(mem[at..at + size]))), ok,
                   View(fields, mem[at..at + size]), stream.Remaining())
    decreases fields, 1
  {
    hide WellFormed, Off, Loop, View, EntryStep, SetEntry, Find, Holds, Ordinals, DecodeSpec.DecodeTag, Frame, FieldOk;
    ghost var seen, m := {}, mem[..];
    ghost var out := Loop(fields, stream.Remaining(), View(fields, mem[at..at + size]), {});
    ghost var limit := stream.Limit();
    FieldFacts(fields, size);
    IsWalkable(fields, size);
    var fieldsSeen: seq<nat> := [0, 0];
    var extensionRangeStart: nat := 0;
    NothingSeen(fields);
    var iter := new FieldIter();
    var nonEmpty := iter.Begin(fields, at);
    while stream.bytesLeft != 0
      invariant stream.Valid() && stream.Limit() == limit
      invariant iter.Valid() && iter.start == fields && iter.destStruct == at
      invariant |fieldsSeen| == 2 && OnlyRequired(fields, seen) && Holds(fieldsSeen, Ordinals(fields, seen))
      invariant Only(m, mem[..], at, size)
      invariant Loop(fields, stream.Remaining(), View(fields, mem[at..at + size]), seen) == out
      decreases stream.bytesLeft
    {
      ghost var s, st, m1 := stream.Remaining(), View(fields, mem[at..at + size]), mem[..];
      LoopStops(fields, s, st, seen);
      var tagged, wireType, tag, eof := stream.DecodeTag();
      if !tagged {
        if eof {
          break;
        }
        return false;
      }
      ghost var s' := stream.Remaining();
      var found := iter.Find(tag);
      if !found {
        FindNothing(fields, tag);
        LoopUnknown(fields, s, st, seen, tag, wireType, s');
        var skipped;
        skipped, extensionRangeStart := SkipUnknown(stream, iter, tag, wireType, extensionRangeStart);
        if !skipped {
          return false;
        }
      } else if iter.pos == |iter.start| {
        // The terminator of an empty message, found under tag 0: its data_size is invalid.
        TerminatorFails(s');
        var decoded := DecSignedVarint(stream, LAST_FIELD, mem, iter.pData);
        OnlyAgain(m, m1, mem[..], at, size, at, 0);
        return decoded;
      } else {
        LoopKnown(fields, s, st, seen, wireType, s', iter.pos);
        fieldsSeen, seen := MarkSeen(iter, fieldsSeen, seen);
        var decoded := DecodeKnown(stream, wireType, iter.start, iter.pos, mem, iter.pData, at, size);
        OnlyAgain(m, m1, mem[..], at, size, at, 0);
        if !decoded {
          return false;
        }
      }
    }
    LoopStops(fields, stream.Remaining(), View(fields, mem[at..at + size]), seen);
    assert out == Some(Outcome(View(fields, mem[at..at + size]), seen, stream.Remaining()));
    ok := AllSeen(iter, fieldsSeen, seen);
  }

  lemma NothingSeen(fields: seq<Field>)
    ensures Holds([0, 0], Ordinals(fields, {}))
  {
    forall o | 0 <= o < 64
      ensures !Bit([0, 0][o / 32], o % 32)
    {
      NoBits(o % 32);
    }
  }

  /** pb_decode */
  method Decode(stream: IStream, fields: seq<Field>, mem: array<byte>, at: int, ghost size: nat) returns (ok: bool)
    requires WellFormed(fields, size) && stream.Valid() && 0 <= at && at + size <= mem.Length
    modifies stream, mem
    ensures stream.Valid() && stream.Limit() <= old(stream.Limit())
    ensures ok ==> stream.Limit() == old(stream.Limit())
    ensures Only(old(mem[..]), mem[..], at, size)
    ensures Agrees(DecodeSpec.Decode(fields, old(stream.Remaining())), ok,
                   View(fields, mem[at..at + size]), stream.Remaining())
    decreases fields, 2
  {
    hide WellFormed, DecodeInto, View;
    MessageSetToDefaults(fields, mem, at, size);
    ok := DecodeNoinit(stream, fields, mem, at, size);
  }

  /** pb_decode_delimited */
  method DecodeDelimited(
    stream: IStream, fields: seq<Field>, mem: array<byte>, at: int, ghost size: nat)
    returns (ok: bool)
    requires WellFormed(fields, size) && stream.Valid() && 0 <= at && at + size <= mem.Length
    modifies stream, mem
    ensures stream.Valid() && stream.Limit() <= old(stream.Limit())
    ensures ok ==> stream.Limit() == old(stream.Limit())
    ensures Only(old(mem[..]), mem[..], at, size)
    ensures Agrees(DecodeSpec.DecodeDelimited(fields, old(stream.Remaining())), ok,
                   View(fields, mem[at..at + size]), stream.Remaining())
  {
    hide WellFormed, DecodeSpec.Decode, View, TakeChunk;
    ghost var s, limit := stream.Remaining(), stream.Limit();
    var substream: IStream?;
    ok, substream := stream.MakeStringSubstream();
    if !ok {
      return;
    }
    var status := Decode(substream, fields, mem, at, size);
    var closed := stream.CloseStringSubstream(substream);
    if !closed {
      assert false;
    }
    return status;
  }
}
