/**
 Decoding what was encoded.
 */
module RoundTrip {
  import opened Wire
  import opened Descriptor
  import opened Scalars
  import opened State
  import opened DecodeSpec
  import opened DecodeLaws
  import opened RepeatedLaws
  import opened EncodeSpec

  // ---------------------------------------------------------------- the echo of a message

  /** What comes back for one item: its own value, unless it is a string without terminator. */
  ghost function EchoItem(f: Field, d: seq<byte>): Option<Value>
    requires FieldOk(f) && |d| == f.dataSize
    decreases f, 0
  {
    if f.ltype.Submessage? then
      var st :- Echo(f.ptr.fields, d);
      Some(Message(st))
    else if f.ltype.String? && 0 !in d then None
    else Some(LeafValue(f.ltype, d))
  }

  ghost function EchoItems(f: Field, d: seq<byte>, count: nat): (r: Option<seq<Value>>)
    requires FieldOk(f) && |d| == f.dataSize * f.arraySize && count <= f.arraySize
    ensures r.Some? ==> |r.value| == count
    decreases f, 1, count
  {
    if count == 0 then Some([])
    else
      var before :- EchoItems(f, d, count - 1);
      var v :- EchoItem(f, Item(d, f.dataSize, count - 1, f.arraySize));
      Some(before + [v])
  }

  /** What comes back for an entry: a field that was not written comes back as its default. */
  ghost function EchoEntry(f: Field, d: seq<byte>, c: seq<byte>): Option<FieldState>
    requires FieldOk(f) && |d| == MemberSize(f) && |c| == SizeLen(f)
    decreases f, 2
  {
    match f.htype
    case Required =>
      var v :- EchoItem(f, d);
      Some(One(v))
    case Optional =>
      if f.sizeOffset == 0 then
        if IsDefault(f, d) then Some(One(DefaultValue(f)))
        else
          var v :- EchoItem(f, d);
          Some(One(v))
      else if c[0] != 0 then
        var v :- EchoItem(f, d);
        Some(Opt(true, v))
      else Some(Opt(false, DefaultValue(f)))
    case Repeated =>
      if LE(c) > f.arraySize then None
      else
        var items :- EchoItems(f, d, LE(c));
        Some(Many(LE(c), items))
    case Oneof =>
      if LE(c) == f.tag then
        var v :- EchoItem(f, d);
        Some(Alt(Some(v)))
      else Some(Alt(None))
  }

  /** The state after the first n entries have come back. */
  ghost function EchoUpTo(fields: seq<Field>, n: nat, m: seq<byte>): (r: Option<seq<FieldState>>)
    requires WellFormed(fields, |m|) && n <= |fields|
    ensures r.Some? ==> |r.value| == |fields|
    decreases fields, 1, n
  {
    if n == 0 then Some(Defaults(fields))
    else
      var st :- EchoUpTo(fields, n - 1, m);
      var e :- EchoEntry(fields[n - 1], Data(fields, n - 1, m), Cell(fields, n - 1, m));
      Some(st[n - 1 := e])
  }

  ghost function Echo(fields: seq<Field>, m: seq<byte>): (r: Option<seq<FieldState>>)
    requires WellFormed(fields, |m|)
    ensures r.Some? ==> |r.value| == |fields|
    decreases fields, 2
  {
    EchoUpTo(fields, |fields|, m)
  }

  ghost function EchoAt(fields: seq<Field>, i: nat, m: seq<byte>): Option<FieldState>
    requires WellFormed(fields, |m|) && i < |fields|
  {
    EchoEntry(fields[i], Data(fields, i, m), Cell(fields, i, m))
  }

  lemma {:induction false} EchoUpToStep(fields: seq<Field>, n: nat, m: seq<byte>)
    requires WellFormed(fields, |m|) && 0 < n <= |fields|
    ensures var before, e := EchoUpTo(fields, n - 1, m), EchoAt(fields, n - 1, m);
            EchoUpTo(fields, n, m) ==
            if before.None? || e.None? then None else Some(before.value[n - 1 := e.value])
  {
    hide WellFormed, EchoItem, EchoItems;
  }

  lemma {:induction false} EchoUpToAt(fields: seq<Field>, n: nat, m: seq<byte>)
    requires WellFormed(fields, |m|) && n <= |fields|
    ensures EchoUpTo(fields, n, m).Some? <==> forall j :: 0 <= j < n ==> EchoAt(fields, j, m).Some?
    ensures EchoUpTo(fields, n, m).Some? ==>
              forall j :: 0 <= j < |fields| ==>
                EchoUpTo(fields, n, m).value[j] ==
                if j < n then EchoAt(fields, j, m).value else DefaultAt(fields[j])
    decreases n
  {
    hide DefaultAt, WellFormed, EchoAt;
    if n > 0 {
      EchoUpToStep(fields, n, m);
      EchoUpToAt(fields, n - 1, m);
    }
  }

  // ---------------------------------------------------------------- one item

  /** The payload written for an item. */
  ghost function EncPayload(f: Field, d: seq<byte>): Payload
    requires FieldOk(f) && |d| == f.dataSize && EncItem(f, d).Some?
  {
    match f.ltype
    case Varint | Uvarint | Svarint => Number(EncNumber(f.ltype, d).value)
    case Fixed32 | Fixed64 => Bits(d)
    case Bytes => Chunk(BytesPayload(d))
    case String => Chunk(CStr(d))
    case Submessage => Chunk(Enc(f.ptr.fields, d).value)
    case _ => Chunk(d)
  }

  lemma {:induction false} ItemFrames(f: Field, d: seq<byte>, t: seq<byte>)
    requires FieldOk(f) && |d| == f.dataSize && EncItem(f, d).Some? && ShortItem(f, d)
    ensures Frame(ItemFraming(f.ltype), EncItem(f, d).value + t) == Some((EncPayload(f, d), t))
    ensures EncItem(f, d).value != []
  {
    hide Enc, WellFormed, EncNumber, EncVarint, BytesPayload, CStr, LE, Frame, Lengthed, ShortItem;
    var e := EncItem(f, d).value;
    match f.ltype
    case Varint | Uvarint | Svarint => NumberFrames(EncNumber(f.ltype, d).value, t);
    case Fixed32 | Fixed64 => BitsFrame(d, t);
    case Bytes | String | Submessage | FixedLengthBytes =>
      var body := EncPayload(f, d).body;
      assert e == Lengthed(body);
      ShortBody(f, d);
      ChunkFrames(body, t);
  }

  /** Bytes and strings are no longer than their buffers. */
  lemma {:induction false} ShortBody(f: Field, d: seq<byte>)
    requires FieldOk(f) && |d| == f.dataSize && EncItem(f, d).Some? && ShortItem(f, d) && !f.ltype.Packable()
    ensures EncPayload(f, d).Chunk? && |EncPayload(f, d).body| < TWO_32
  {
    hide Enc, WellFormed, Short, LE;
    assert f.dataSize <= SizeMax();
  }

  lemma NumberFrames(n: nat, t: seq<byte>)
    requires n < TWO_64
    ensures Frame(AsNumber, EncVarint(n) + t) == Some((Number(n), t))
  {
    hide EncVarint, RawVarint, DecVarint;
    VarintRoundTrip(n, t);
  }

  lemma BitsFrame(d: seq<byte>, t: seq<byte>)
    ensures Frame(AsBits(|d|), d + t) == Some((Bits(d), t))
  {
    assert (d + t)[..|d|] == d && (d + t)[|d|..] == t;
  }

  lemma ChunkFrames(body: seq<byte>, t: seq<byte>)
    requires |body| < TWO_32
    ensures Frame(AsChunk, Lengthed(body) + t) == Some((Chunk(body), t))
    ensures Lengthed(body) != []
  {
    hide EncVarint, TakeChunk;
    LengthPrefixed(body, t);
  }

  lemma StringEcho(d: seq<byte>)
    ensures 0 in d <==> |CStr(d)| < |d|
    ensures CStr(CStr(d)) == CStr(d)
  {
    var r := CStr(d);
    assert r[..|r|] == r;
    CStrUnique(r, |r|);
    if |r| == |d| {
      assert d[..|r|] == d;
    }
  }

  /** Decoding that payload gives the echo of the item. */
  lemma {:induction false} ItemDecodes(f: Field, d: seq<byte>)
    requires FieldOk(f) && |d| == f.dataSize && EncItem(f, d).Some? && ShortItem(f, d)
    ensures ItemValue(f, EncPayload(f, d), Defaults(SubFieldsOf(f))) == EchoItem(f, d)
    decreases f, 1
  {
    hide Loop, EncVarint, Pow;
    match f.ltype
    case Varint | Uvarint | Svarint =>
      NumberRoundTrip(f.ltype, d);
    case Fixed32 | Fixed64 =>
    case Bytes =>
      LEBound(d[..SIZE_WIDTH]);
    case String =>
      StringEcho(d);
    case Submessage =>
      MessageDecodes(f.ptr.fields, d);
      assert DecodeInto(f.ptr.fields, Enc(f.ptr.fields, d).value, Defaults(f.ptr.fields)) ==
             Decode(f.ptr.fields, Enc(f.ptr.fields, d).value);
    case FixedLengthBytes =>
      if d == [] {
        assert Zeros(f.dataSize) == d;
      }
  }

  lemma {:induction false} TaggedIsRecord(fields: seq<Field>, i: nat, d: seq<byte>)
    requires i < |fields| && DistinctTags(fields) && FieldOk(fields[i]) && |d| == fields[i].dataSize
    requires fields[i].htype.Repeated? ==> !fields[i].ltype.Packable()
    requires EncTagged(fields[i], d).Some? && ShortItem(fields[i], d)
    ensures EncItem(fields[i], d).Some?
    ensures Find(fields, fields[i].tag) == Some(i)
    ensures IsRecord(fields, EncTagged(fields[i], d).value, fields[i].tag, EncPayload(fields[i], d))
  {
    hide EncItem, EncPayload, Frame, ParseRecord, WellFormed, ShortItem;
    var f := fields[i];
    var e := EncItem(f, d).value;
    ItemFrames(f, d, []);
    assert e + [] == e;
    ParseTagged(fields, i, WireTypeOf(f.ltype), e);
  }

  // ---------------------------------------------------------------- arrays

  lemma {:induction false} PackedItemsDecode(f: Field, d: seq<byte>, count: nat, t: seq<byte>)
    requires FieldOk(f) && f.ltype.Packable() && |d| == f.dataSize * f.arraySize && count <= f.arraySize
    requires EncItems(f, d, count, false).Some?
    ensures EchoItems(f, d, count).Some?
    ensures AppendPacked(f, EncItems(f, d, count, false).value + t, 0, []) ==
            AppendPacked(f, t, count, EchoItems(f, d, count).value)
    decreases f, 2, count
  {
    hide WordValue, Frame, EncItem, FieldOk, EncPayload;
    if count == 0 {
      assert [] + t == t;
    } else {
      var last := Item(d, f.dataSize, count - 1, f.arraySize);
      var before, item := EncItems(f, d, count - 1, false).value, EncItem(f, last).value;
      assert before + item + t == before + (item + t);
      PackedItemsDecode(f, d, count - 1, item + t);
      ItemFrames(f, last, t);
      ItemDecodes(f, last);
      assert item + t != [];
    }
  }

  lemma EmptyFramed(fields: seq<Field>)
    ensures Framed(fields, [])
  {
  }

  lemma {:induction false} UnpackedStep(
    fields: seq<Field>, i: nat, d: seq<byte>, count: nat, items: seq<Value>, st: seq<FieldState>, seen: set<nat>)
    requires i < |fields| == |st| && FieldOk(fields[i]) && Find(fields, fields[i].tag) == Some(i)
    requires fields[i].htype.Repeated? && !fields[i].ltype.Packable() && |d| == fields[i].dataSize
    requires EncItem(fields[i], d).Some?
    requires ItemValue(fields[i], EncPayload(fields[i], d), Defaults(SubFieldsOf(fields[i]))) == EchoItem(fields[i], d)
    requires count < fields[i].arraySize && st[i] == Many(count, items)
    ensures ApplyRecord(fields, fields[i].tag, EncPayload(fields[i], d), st, seen) ==
            var v := EchoItem(fields[i], d);
            if v.None? then None else Some((st[i := Many(count + 1, items + [v.value])], seen))
  {
    hide ItemValue, EncItem, EncPayload, FieldOk, Find;
    SetEntryPlain(fields, i, st);
    var f, p := fields[i], EncPayload(fields[i], d);
    var v := EchoItem(f, d);
    assert AppendItem(f, p, count, items) == if v.None? then None else Some(Many(count + 1, items + [v.value]));
    assert Apply(fields, i, p, st) == if v.None? then None else Some(st[i := Many(count + 1, items + [v.value])]);
  }

  lemma {:induction false} UnpackedItemsDecode(
    fields: seq<Field>, i: nat, d: seq<byte>, count: nat, t: seq<byte>, st: seq<FieldState>, seen: set<nat>)
    requires i < |fields| == |st| && DistinctTags(fields) && FieldOk(fields[i])
    requires fields[i].htype.Repeated? && !fields[i].ltype.Packable()
    requires |d| == fields[i].dataSize * fields[i].arraySize && count <= fields[i].arraySize
    requires st[i] == Many(0, [])
    requires EncItems(fields[i], d, count, true).Some? && ShortItems(fields[i], d, count)
    ensures Framed(fields, EncItems(fields[i], d, count, true).value)
    ensures var r := EchoItems(fields[i], d, count);
            Loop(fields, EncItems(fields[i], d, count, true).value + t, st, seen) ==
            if r.None? then None else Loop(fields, t, st[i := Many(count, r.value)], seen)
    decreases fields[i], 2, count
  {
    hide Loop, ParseRecord, IsRecord, Framed, ApplyRecord, Find, EncTagged, EncItem, EncPayload, FieldOk, DistinctTags,
      ShortItem;
    var f := fields[i];
    if count == 0 {
      assert [] + t == t;
      EmptyFramed(fields);
      assert st[i := Many(0, [])] == st;
    } else {
      var last := Item(d, f.dataSize, count - 1, f.arraySize);
      var before, item := EncItems(f, d, count - 1, true).value, EncTagged(f, last).value;
      assert before + item + t == before + (item + t);
      UnpackedItemsDecode(fields, i, d, count - 1, item + t, st, seen);
      TaggedIsRecord(fields, i, last);
      ItemDecodes(f, last);
      var r := EchoItems(f, d, count - 1);
      if r.Some? {
        var st1 := st[i := Many(count - 1, r.value)];
        LoopRecord(fields, item, f.tag, EncPayload(f, last), t, st1, seen);
        UnpackedStep(fields, i, last, count - 1, r.value, st1, seen);
        UpdateTwice(st, i, st1[i]);
      }
      RecordFramed(fields, item, f.tag, EncPayload(f, last));
      FramedConcat(fields, before, item);
    }
  }

  // ---------------------------------------------------------------- one field

  /** st holds the default of entry i, and no other member of its union is active. */
  ghost predicate Fresh(fields: seq<Field>, i: nat, st: seq<FieldState>)
    requires i < |fields|
  {
    && |st| == |fields| && st[i] == DefaultAt(fields[i])
    && forall j :: 0 <= j < |fields| && SameUnion(fields, i, j) ==> st[j] == Alt(None)
  }

  /** The records r of entry i turn st into its echo. */
  ghost predicate DecodesTo(
    fields: seq<Field>, i: nat, r: seq<byte>, st: seq<FieldState>, seen: set<nat>, e: Option<FieldState>)
    requires i < |fields| == |st|
  {
    && Framed(fields, r)
    && Loop(fields, r, st, seen) ==
       if e.None? then None
       else Some(Outcome(st[i := e.value], if fields[i].htype.Required? then seen + {i} else seen, []))
  }

  lemma AbsentDecodes(fields: seq<Field>, i: nat, st: seq<FieldState>, seen: set<nat>)
    requires i < |fields| == |st| && !fields[i].htype.Required?
    ensures DecodesTo(fields, i, [], st, seen, Some(st[i]))
  {
    assert st[i := st[i]] == st;
  }

  /** One record of entry i. */
  lemma RecordDecodes(
    fields: seq<Field>, i: nat, r: seq<byte>, p: Payload, st: seq<FieldState>, seen: set<nat>, e: Option<FieldState>)
    requires i < |fields| && Fresh(fields, i, st)
    requires Find(fields, fields[i].tag) == Some(i) && IsRecord(fields, r, fields[i].tag, p)
    requires ApplyEntry(fields[i], p, st[i]) == e
    ensures DecodesTo(fields, i, r, st, seen, e)
  {
    hide ParseRecord, ApplyEntry, Find;
    LoopRecord(fields, r, fields[i].tag, p, [], st, seen);
    assert r + [] == r;
    if e.Some? {
      FreshUpdate(fields, i, e.value, st);
    }
  }

  /** A single tagged item. */
  lemma {:induction false} TaggedDecodes(fields: seq<Field>, i: nat, d: seq<byte>, st: seq<FieldState>, seen: set<nat>)
    requires i < |fields| && Fresh(fields, i, st) && !fields[i].htype.Repeated?
    requires DistinctTags(fields) && FieldOk(fields[i]) && |d| == fields[i].dataSize
    requires EncTagged(fields[i], d).Some? && ShortItem(fields[i], d)
    ensures var f, v := fields[i], EchoItem(fields[i], d);
            DecodesTo(fields, i, EncTagged(f, d).value, st, seen,
                      if v.None? then None
                      else if f.htype.Oneof? then Some(Alt(v))
                      else if f.htype.Optional? && f.sizeOffset != 0 then Some(Opt(true, v.value))
                      else Some(One(v.value)))
    decreases fields[i], 2
  {
    hide ParseRecord, IsRecord, Find, ItemValue, EncTagged, EncPayload, FieldOk, DistinctTags, EchoItem, Defaults,
      DecodesTo, ShortItem;
    var f := fields[i];
    TaggedIsRecord(fields, i, d);
    var r, p := EncTagged(f, d).value, EncPayload(f, d);
    ItemDecodes(f, d);
    if f.ltype.Submessage? && !f.htype.Oneof? {
      assert Inner(st[i]) == Defaults(SubFieldsOf(f)) by {
        DefaultInner(f);
      }
    } else if !f.ltype.Submessage? {
      LeafIgnoresInner(f, p, Inner(st[i]), Defaults(SubFieldsOf(f)));
    }
    RecordDecodes(fields, i, r, p, st, seen, ApplyEntry(f, p, st[i]));
  }

  lemma FreshUpdate(fields: seq<Field>, i: nat, e: FieldState, st: seq<FieldState>)
    requires i < |fields| && Fresh(fields, i, st)
    ensures SetEntry(fields, i, e, st) == st[i := e]
  {
    hide DefaultAt;
  }

  lemma DefaultInner(f: Field)
    requires FieldOk(f) && f.ltype.Submessage? && (f.htype.Required? || f.htype.Optional?)
    ensures Inner(DefaultAt(f)) == Defaults(SubFieldsOf(f))
  {
  }

  lemma {:induction false} ArrayDecodes(
    fields: seq<Field>, i: nat, d: seq<byte>, count: nat, st: seq<FieldState>, seen: set<nat>)
    requires i < |fields| && Fresh(fields, i, st) && fields[i].htype.Repeated?
    requires DistinctTags(fields) && FieldOk(fields[i]) && |d| == fields[i].dataSize * fields[i].arraySize
    requires EncArray(fields[i], d, count).Some? && (count <= fields[i].arraySize ==> ShortItems(fields[i], d, count))
    ensures count <= fields[i].arraySize
    ensures var items := EchoItems(fields[i], d, count);
            DecodesTo(fields, i, EncArray(fields[i], d, count).value, st, seen,
                      if items.None? then None else Some(Many(count, items.value)))
    decreases fields[i], 4
  {
    hide ParseRecord, ItemValue, EncItems, FieldOk, DistinctTags, AppendPacked, DecodesTo;
    if count == 0 {
      AbsentDecodes(fields, i, st, seen);
    } else if fields[i].ltype.Packable() {
      PackedArrayDecodes(fields, i, d, count, st, seen);
    } else {
      UnpackedArrayDecodes(fields, i, d, count, st, seen);
    }
  }

  lemma {:induction false} UnpackedArrayDecodes(
    fields: seq<Field>, i: nat, d: seq<byte>, count: nat, st: seq<FieldState>, seen: set<nat>)
    requires i < |fields| == |st| && st[i] == Many(0, []) && fields[i].htype.Repeated? && !fields[i].ltype.Packable()
    requires DistinctTags(fields) && FieldOk(fields[i]) && |d| == fields[i].dataSize * fields[i].arraySize
    requires count <= fields[i].arraySize
    requires EncItems(fields[i], d, count, true).Some? && ShortItems(fields[i], d, count)
    ensures var items := EchoItems(fields[i], d, count);
            DecodesTo(fields, i, EncItems(fields[i], d, count, true).value, st, seen,
                      if items.None? then None else Some(Many(count, items.value)))
    decreases fields[i], 3
  {
    hide ParseRecord, ItemValue, EncItems, EchoItems, FieldOk, DistinctTags, Framed;
    var r := EncItems(fields[i], d, count, true).value;
    UnpackedItemsDecode(fields, i, d, count, [], st, seen);
    assert r + [] == r;
  }

  lemma {:induction false} PackedArrayDecodes(
    fields: seq<Field>, i: nat, d: seq<byte>, count: nat, st: seq<FieldState>, seen: set<nat>)
    requires i < |fields| && Fresh(fields, i, st) && fields[i].htype.Repeated? && fields[i].ltype.Packable()
    requires DistinctTags(fields) && FieldOk(fields[i]) && |d| == fields[i].dataSize * fields[i].arraySize
    requires 0 < count <= fields[i].arraySize
    requires EncArray(fields[i], d, count).Some? && ShortItems(fields[i], d, count)
    ensures var items := EchoItems(fields[i], d, count);
            DecodesTo(fields, i, EncArray(fields[i], d, count).value, st, seen,
                      if items.None? then None else Some(Many(count, items.value)))
    decreases fields[i], 3
  {
    hide ParseRecord, IsRecord, ItemValue, EncItems, EchoItems, FieldOk, DistinctTags, AppendPacked, Framed, EncTag,
      Find;
    var f := fields[i];
    var body, r := EncItems(f, d, count, false).value, EncArray(f, d, count).value;
    PackedIsRecord(fields, i, body);
    PackedItemsDecode(f, d, count, []);
    assert body + [] == body;
    PackedEmpty(f, count, EchoItems(f, d, count).value);
    RecordDecodes(fields, i, r, Chunk(body), st, seen, ApplyEntry(f, Chunk(body), st[i]));
  }

  lemma {:induction false} PackedIsRecord(fields: seq<Field>, i: nat, body: seq<byte>)
    requires i < |fields| && DistinctTags(fields) && FieldOk(fields[i])
    requires fields[i].htype.Repeated? && fields[i].ltype.Packable() && |body| < TWO_32
    ensures Find(fields, fields[i].tag) == Some(i)
    ensures IsRecord(fields, EncTag(WT_STRING, fields[i].tag) + Lengthed(body), fields[i].tag, Chunk(body))
  {
    hide ParseRecord, EncVarint, DecVarint32;
    LengthPrefixed(body, []);
    assert EncVarint(|body|) + body + [] == Lengthed(body);
    ParseTagged(fields, i, WT_STRING, Lengthed(body));
  }

  lemma {:induction false} FieldDecodes(fields: seq<Field>, i: nat, m: seq<byte>, st: seq<FieldState>, seen: set<nat>)
    requires WellFormed(fields, |m|) && i < |fields| == |st| && st[i] == DefaultAt(fields[i])
    requires !fields[i].htype.Oneof? || LE(Cell(fields, i, m)) == fields[i].tag ==> Fresh(fields, i, st)
    requires EncField(fields, i, m).Some? && ShortAt(fields, i, m)
    ensures DecodesTo(fields, i, EncField(fields, i, m).value, st, seen, EchoAt(fields, i, m))
    decreases fields, 3
  {
    hide EncTagged, EncArray, EchoItem, EchoItems, DecodesTo, Layout, DefaultValue;
    var f, d, c := fields[i], Data(fields, i, m), Cell(fields, i, m);
    assert FieldOk(f) && DistinctTags(fields);
    match f.htype
    case Required => TaggedDecodes(fields, i, d, st, seen);
    case Optional =>
      if if f.sizeOffset == 0 then IsDefault(f, d) else c[0] == 0 {
        AbsentDecodes(fields, i, st, seen);
      } else {
        TaggedDecodes(fields, i, d, st, seen);
      }
    case Repeated => ArrayDecodes(fields, i, d, LE(c), st, seen);
    case Oneof =>
      if LE(c) == f.tag {
        TaggedDecodes(fields, i, d, st, seen);
      } else {
        AbsentDecodes(fields, i, st, seen);
      }
  }

  // ---------------------------------------------------------------- the whole message

  ghost function RequiredUpTo(fields: seq<Field>, n: nat): set<nat>
    requires n <= |fields|
  {
    set j | 0 <= j < n && fields[j].htype.Required?
  }

  /** When entry n is about to be decoded its state is fresh, unless another member of its union
      has been decoded. */
  lemma {:induction false} FreshUpTo(fields: seq<Field>, n: nat, m: seq<byte>)
    requires WellFormed(fields, |m|) && n < |fields| && EchoUpTo(fields, n, m).Some?
    ensures EchoUpTo(fields, n, m).value[n] == DefaultAt(fields[n])
    ensures !fields[n].htype.Oneof? || LE(Cell(fields, n, m)) == fields[n].tag ==>
              Fresh(fields, n, EchoUpTo(fields, n, m).value)
  {
    hide WellFormed, EchoUpTo, EchoAt;
    EchoUpToAt(fields, n, m);
    var st := EchoUpTo(fields, n, m).value;
    forall j | 0 <= j < |fields| && SameUnion(fields, n, j) && LE(Cell(fields, n, m)) == fields[n].tag
      ensures st[j] == Alt(None)
    {
      if j < n {
        InactiveEcho(fields, n, m, j);
      } else if j == n {
      }
    }
  }

  lemma InactiveEcho(fields: seq<Field>, i: nat, m: seq<byte>, j: nat)
    requires WellFormed(fields, |m|) && i < |fields| && j < |fields| && i != j && SameUnion(fields, i, j)
    requires LE(Cell(fields, i, m)) == fields[i].tag
    ensures EchoAt(fields, j, m) == Some(Alt(None))
  {
    hide Layout, FieldOk, EchoItem;
    assert Cell(fields, j, m) == Cell(fields, i, m);
    assert fields[j].tag != fields[i].tag;
  }

  lemma {:induction false} UpToDecodes(fields: seq<Field>, n: nat, m: seq<byte>)
    requires WellFormed(fields, |m|) && n <= |fields|
    requires EncUpTo(fields, n, m).Some? && Short(fields, m)
    ensures Framed(fields, EncUpTo(fields, n, m).value)
    ensures var e := EchoUpTo(fields, n, m);
            Loop(fields, EncUpTo(fields, n, m).value, Defaults(fields), {}) ==
            if e.None? then None else Some(Outcome(e.value, RequiredUpTo(fields, n), []))
    decreases fields, 4, n
  {
    hide WellFormed, Loop, Framed, EncField, EchoAt, DecodesTo, ShortAt;
    if n == 0 {
      assert RequiredUpTo(fields, 0) == {};
      NothingDecodes(fields);
    } else {
      EncUpToStep(fields, n, m);
      EchoUpToStep(fields, n, m);
      var before, r := EncUpTo(fields, n - 1, m).value, EncField(fields, n - 1, m).value;
      UpToDecodes(fields, n - 1, m);
      FieldDecodes(fields, n - 1, m, Defaults(fields), {});
      var st := EchoUpTo(fields, n - 1, m);
      if st.Some? {
        FreshUpTo(fields, n - 1, m);
        FieldDecodes(fields, n - 1, m, st.value, RequiredUpTo(fields, n - 1));
      }
      OneMoreField(fields, n, before, r, st, EchoAt(fields, n - 1, m));
    }
  }

  lemma NothingDecodes(fields: seq<Field>)
    ensures Framed(fields, []) && Loop(fields, [], Defaults(fields), {}) == Some(Outcome(Defaults(fields), {}, []))
  {
  }

  lemma OneMoreField(
    fields: seq<Field>, n: nat, before: seq<byte>, r: seq<byte>, st: Option<seq<FieldState>>, e: Option<FieldState>)
    requires 0 < n <= |fields| && (st.Some? ==> |st.value| == |fields|)
    requires Framed(fields, before)
    requires Loop(fields, before, Defaults(fields), {}) ==
             if st.None? then None else Some(Outcome(st.value, RequiredUpTo(fields, n - 1), []))
    requires DecodesTo(fields, n - 1, r, if st.Some? then st.value else Defaults(fields),
                       if st.Some? then RequiredUpTo(fields, n - 1) else {}, e)
    ensures Framed(fields, before + r)
    ensures Loop(fields, before + r, Defaults(fields), {}) ==
            if st.None? || e.None? then None
            else Some(Outcome(st.value[n - 1 := e.value], RequiredUpTo(fields, n), []))
  {
    hide Loop, Framed;
    LoopConcat(fields, before, r, Defaults(fields), {});
    FramedConcat(fields, before, r);
    var more := if fields[n - 1].htype.Required? then {n - 1} else {};
    assert RequiredUpTo(fields, n) == RequiredUpTo(fields, n - 1) + more;
    assert RequiredUpTo(fields, n - 1) + {} == RequiredUpTo(fields, n - 1);
  }

  lemma {:induction false} MessageDecodes(fields: seq<Field>, m: seq<byte>)
    requires WellFormed(fields, |m|) && Enc(fields, m).Some? && Short(fields, m)
    ensures var e := Echo(fields, m);
            Decode(fields, Enc(fields, m).value) == if e.None? then None else Some((e.value, []))
    decreases fields, 5
  {
    hide WellFormed, EncUpTo, EchoUpTo, Short;
    UpToDecodes(fields, |fields|, m);
  }
}
