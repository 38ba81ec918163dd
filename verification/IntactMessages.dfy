/**
 Exactly when a message survives encoding and decoding.
 */
module IntactMessages {
  import opened Wire
  import opened Descriptor
  import opened State
  import opened DecodeSpec
  import opened EncodeSpec
  import opened RoundTrip

  // ---------------------------------------------------------------- messages equal to the default

  /** The item has the default value of its field. */
  ghost predicate QuietItem(f: Field, d: seq<byte>)
    requires FieldOk(f) && |d| == f.dataSize
    decreases f, 0
  {
    if f.ltype.Submessage? then Quiet(f.ptr.fields, d) else LeafValue(f.ltype, d) == DefaultValue(f)
  }

  ghost predicate QuietEntry(f: Field, d: seq<byte>, c: seq<byte>)
    requires FieldOk(f) && |d| == MemberSize(f) && |c| == SizeLen(f)
    decreases f, 1
  {
    match f.htype
    case Required => QuietItem(f, d)
    case Optional => if f.sizeOffset == 0 then QuietItem(f, d) else c[0] == 0
    case Repeated => LE(c) == 0
    case Oneof => LE(c) != f.tag
  }

  /** No optional field is present, no array has items, no union has an active member, and every
      other field has its default value. */
  ghost predicate Quiet(fields: seq<Field>, m: seq<byte>)
    requires WellFormed(fields, |m|)
    decreases fields
  {
    forall i :: 0 <= i < |fields| ==> QuietEntry(fields[i], Data(fields, i, m), Cell(fields, i, m))
  }

  lemma EntriesEqual(a: seq<FieldState>, b: seq<FieldState>)
    requires |a| == |b|
    ensures Entries(a) == Entries(b) <==> forall i :: 0 <= i < |a| ==> EntryOf(a[i]) == EntryOf(b[i])
  {
    hide EntryOf;
    if Entries(a) == Entries(b) {
      forall i | 0 <= i < |a|
        ensures EntryOf(a[i]) == EntryOf(b[i])
      {
        assert Entries(a)[i] == Entries(b)[i];
      }
    }
  }

  lemma {:induction false} QuietItemExact(f: Field, d: seq<byte>)
    requires FieldOk(f) && |d| == f.dataSize
    ensures QuietItem(f, d) <==> Contents(ViewValue(f, d)) == Contents(DefaultValue(f))
    decreases f, 0
  {
    hide LeafValue, Entries;
    if f.ltype.Submessage? {
      QuietExact(f.ptr.fields, d);
    } else {
      LeafContents(f.ltype, d);
      LeafContents(f.ltype, if f.ptr.Default? then f.ptr.bytes else Zeros(f.dataSize));
    }
  }

  lemma LeafContents(ltype: LType, d: seq<byte>)
    ensures Contents(LeafValue(ltype, d)) == Scalar(LeafValue(ltype, d))
  {
  }

  lemma {:induction false} QuietEntryExact(f: Field, d: seq<byte>, c: seq<byte>)
    requires FieldOk(f) && |d| == MemberSize(f) && |c| == SizeLen(f)
    ensures QuietEntry(f, d, c) <==> EntryOf(ViewEntry(f, d, c)) == EntryOf(DefaultAt(f))
    decreases f, 1
  {
    hide Contents, ViewValue, DefaultValue, QuietItem;
    if f.htype.Required? || (f.htype.Optional? && f.sizeOffset == 0) {
      QuietItemExact(f, d);
    } else if f.htype.Repeated? {
      var items := ViewItems(f, d, LE(c));
      assert EntryOf(Many(LE(c), items)).contents == [] <==> |items| == 0;
      assert EntryOf(Many(0, [])).contents == [];
    }
  }

  lemma {:induction false} QuietExact(fields: seq<Field>, m: seq<byte>)
    requires WellFormed(fields, |m|)
    ensures Quiet(fields, m) <==> Entries(View(fields, m)) == Entries(Defaults(fields))
    decreases fields
  {
    hide QuietEntry, ViewEntry, EntryOf, Entries, DefaultAt, Layout;
    var a, b := View(fields, m), Defaults(fields);
    EntriesEqual(a, b);
    forall i | 0 <= i < |fields|
      ensures QuietEntry(fields[i], Data(fields, i, m), Cell(fields, i, m)) <==> EntryOf(a[i]) == EntryOf(b[i])
    {
      QuietEntryExact(fields[i], Data(fields, i, m), Cell(fields, i, m));
    }
  }

  // ---------------------------------------------------------------- messages that survive

  /** A string must be terminated inside its buffer. */
  ghost predicate IntactItem(f: Field, d: seq<byte>)
    requires FieldOk(f) && |d| == f.dataSize
    decreases f, 0
  {
    if f.ltype.Submessage? then Intact(f.ptr.fields, d) else f.ltype.String? ==> 0 in d
  }

  /** What is written must be intact, and a has-less field that is taken for zero must really be
      the default. */
  ghost predicate IntactEntry(f: Field, d: seq<byte>, c: seq<byte>)
    requires FieldOk(f) && |d| == MemberSize(f) && |c| == SizeLen(f)
    decreases f, 1
  {
    match f.htype
    case Required => IntactItem(f, d)
    case Optional =>
      if f.sizeOffset == 0 then (if IsDefault(f, d) then QuietItem(f, d) else IntactItem(f, d))
      else c[0] != 0 ==> IntactItem(f, d)
    case Repeated =>
      forall k :: 0 <= k < Min(LE(c), f.arraySize) ==> IntactItem(f, Item(d, f.dataSize, k, f.arraySize))
    case Oneof => LE(c) == f.tag ==> IntactItem(f, d)
  }

  ghost predicate Intact(fields: seq<Field>, m: seq<byte>)
    requires WellFormed(fields, |m|)
    decreases fields, 1
  {
    forall i :: 0 <= i < |fields| ==> IntactAt(fields, i, m)
  }

  ghost predicate IntactAt(fields: seq<Field>, i: nat, m: seq<byte>)
    requires WellFormed(fields, |m|) && i < |fields|
    decreases fields, 0
  {
    IntactEntry(fields[i], Data(fields, i, m), Cell(fields, i, m))
  }

  // ---------------------------------------------------------------- the condition is exact

  lemma {:induction false} EncItemsEach(f: Field, d: seq<byte>, count: nat, tagged: bool)
    requires FieldOk(f) && |d| == f.dataSize * f.arraySize && count <= f.arraySize
    requires EncItems(f, d, count, tagged).Some?
    ensures forall k :: 0 <= k < count ==>
              var item := EncItem(f, Item(d, f.dataSize, k, f.arraySize));
              item.Some? && |item.value| <= |EncItems(f, d, count, tagged).value|
    decreases count
  {
    hide FieldOk, EncItem;
    if count > 0 {
      EncItemsEach(f, d, count - 1, tagged);
      assert tagged ==> EncTagged(f, Item(d, f.dataSize, count - 1, f.arraySize)).Some?;
    }
  }

  lemma {:induction false} EchoItemsEach(f: Field, d: seq<byte>, count: nat)
    requires FieldOk(f) && |d| == f.dataSize * f.arraySize && count <= f.arraySize
    ensures EchoItems(f, d, count).Some? <==>
            forall k :: 0 <= k < count ==> EchoItem(f, Item(d, f.dataSize, k, f.arraySize)).Some?
    ensures EchoItems(f, d, count).Some? ==>
              forall k :: 0 <= k < count ==>
                EchoItems(f, d, count).value[k] == EchoItem(f, Item(d, f.dataSize, k, f.arraySize)).value
    decreases count
  {
    hide FieldOk, EchoItem;
    if count > 0 {
      EchoItemsEach(f, d, count - 1);
      assert EchoItems(f, d, count).Some? <==>
             EchoItems(f, d, count - 1).Some? && EchoItem(f, Item(d, f.dataSize, count - 1, f.arraySize)).Some?;
    }
  }

  lemma {:induction false} EncUpToEach(fields: seq<Field>, n: nat, m: seq<byte>)
    requires WellFormed(fields, |m|) && n <= |fields| && EncUpTo(fields, n, m).Some?
    ensures forall i :: 0 <= i < n ==>
              EncField(fields, i, m).Some? && |EncField(fields, i, m).value| <= |EncUpTo(fields, n, m).value|
    decreases n
  {
    hide WellFormed, EncField;
    if n > 0 {
      EncUpToStep(fields, n, m);
      EncUpToEach(fields, n - 1, m);
    }
  }

  lemma {:induction false} ItemExact(f: Field, d: seq<byte>)
    requires FieldOk(f) && |d| == f.dataSize && EncItem(f, d).Some?
    ensures IntactItem(f, d) <==> EchoItem(f, d).Some? && Contents(EchoItem(f, d).value) == Contents(ViewValue(f, d))
    decreases f, 0
  {
    hide LeafValue, Entries;
    if f.ltype.Submessage? {
      MessageExact(f.ptr.fields, d);
    }
  }

  lemma {:induction false} ItemsExact(f: Field, d: seq<byte>, count: nat)
    requires FieldOk(f) && |d| == f.dataSize * f.arraySize && count <= f.arraySize
    requires forall k :: 0 <= k < count ==> EncItem(f, Item(d, f.dataSize, k, f.arraySize)).Some?
    ensures (forall k :: 0 <= k < count ==> IntactItem(f, Item(d, f.dataSize, k, f.arraySize))) <==>
            && EchoItems(f, d, count).Some?
            && EntryOf(Many(count, EchoItems(f, d, count).value)) == EntryOf(Many(count, ViewItems(f, d, count)))
    decreases f, 1
  {
    hide IntactItem, EchoItem, EncItem, Contents, ViewValue, FieldOk;
    EchoItemsEach(f, d, count);
    forall k | 0 <= k < count
      ensures var x := Item(d, f.dataSize, k, f.arraySize);
              IntactItem(f, x) <==> EchoItem(f, x).Some? && Contents(EchoItem(f, x).value) == Contents(ViewValue(f, x))
    {
      ItemExact(f, Item(d, f.dataSize, k, f.arraySize));
    }
    if EchoItems(f, d, count).Some? {
      ManyEqual(count, EchoItems(f, d, count).value, ViewItems(f, d, count));
    }
  }

  lemma ManyEqual(count: nat, a: seq<Value>, b: seq<Value>)
    requires |a| == |b|
    ensures EntryOf(Many(count, a)) == EntryOf(Many(count, b)) <==>
            forall k :: 0 <= k < |a| ==> Contents(a[k]) == Contents(b[k])
  {
    hide Contents;
    var x, y := EntryOf(Many(count, a)).contents, EntryOf(Many(count, b)).contents;
    if x == y {
      forall k | 0 <= k < |a|
        ensures Contents(a[k]) == Contents(b[k])
      {
        assert x[k] == y[k];
      }
    }
  }

  lemma {:induction false} EntryExact(f: Field, d: seq<byte>, c: seq<byte>)
    requires FieldOk(f) && |d| == MemberSize(f) && |c| == SizeLen(f) && EncEntry(f, d, c).Some?
    ensures IntactEntry(f, d, c) <==>
            EchoEntry(f, d, c).Some? && EntryOf(EchoEntry(f, d, c).value) == EntryOf(ViewEntry(f, d, c))
    decreases f, 2
  {
    hide IntactItem, EchoItem, EchoItems, EncItem, EncItems, Contents, ViewValue, ViewItems, DefaultValue, IsDefault,
      QuietItem;
    match f.htype
    case Required => ItemExact(f, d);
    case Optional =>
      if f.sizeOffset == 0 {
        if IsDefault(f, d) {
          QuietItemExact(f, d);
        } else {
          ItemExact(f, d);
        }
      } else if c[0] != 0 {
        ItemExact(f, d);
      }
    case Repeated =>
      var count := LE(c);
      assert count <= f.arraySize;
      if count > 0 {
        EncItemsEach(f, d, count, !f.ltype.Packable());
      }
      ItemsExact(f, d, count);
    case Oneof =>
      if LE(c) == f.tag {
        ItemExact(f, d);
      }
  }

  lemma {:induction false} EchoEach(fields: seq<Field>, m: seq<byte>)
    requires WellFormed(fields, |m|)
    ensures Echo(fields, m).Some? <==> forall i :: 0 <= i < |fields| ==> EchoAt(fields, i, m).Some?
    ensures Echo(fields, m).Some? ==>
              forall i :: 0 <= i < |fields| ==> Echo(fields, m).value[i] == EchoAt(fields, i, m).value
  {
    hide WellFormed, EchoAt;
    EchoUpToAt(fields, |fields|, m);
  }

  lemma {:induction false} EntryExactAt(fields: seq<Field>, i: nat, m: seq<byte>)
    requires WellFormed(fields, |m|) && i < |fields| && EncField(fields, i, m).Some?
    ensures IntactAt(fields, i, m) <==>
            EchoAt(fields, i, m).Some? && EntryOf(EchoAt(fields, i, m).value) == EntryOf(ViewAt(fields, i, m))
    decreases fields, 0
  {
    hide IntactEntry, EchoEntry, EncEntry, ViewEntry, EntryOf, Layout;
    EntryExact(fields[i], Data(fields, i, m), Cell(fields, i, m));
  }

  lemma {:induction false} MessageExact(fields: seq<Field>, m: seq<byte>)
    requires WellFormed(fields, |m|) && Enc(fields, m).Some?
    ensures Intact(fields, m) <==> Echo(fields, m).Some? && Entries(Echo(fields, m).value) == Entries(View(fields, m))
    decreases fields, 1
  {
    hide WellFormed, IntactEntry, EchoAt, ViewEntry, EncField, EntryOf, Entries, Echo;
    EncUpToEach(fields, |fields|, m);
    EchoEach(fields, m);
    var echo, view := Echo(fields, m), View(fields, m);
    forall i | 0 <= i < |fields|
      ensures IntactAt(fields, i, m) ==> EchoAt(fields, i, m).Some?
      ensures echo.Some? ==> (IntactAt(fields, i, m) <==> EntryOf(echo.value[i]) == EntryOf(view[i]))
    {
      EntryExactAt(fields, i, m);
      assert view[i] == ViewAt(fields, i, m);
    }
    if echo.Some? {
      EntriesEqual(echo.value, view);
    }
  }

  // ---------------------------------------------------------------- short messages

  lemma {:induction false} SmallItem(f: Field, d: seq<byte>)
    requires FieldOk(f) && |d| == f.dataSize && EncItem(f, d).Some? && |EncItem(f, d).value| < TWO_32
    ensures ShortItem(f, d)
    decreases f, 0
  {
    hide EncVarint;
    if f.ltype.Submessage? {
      SmallIsShort(f.ptr.fields, d);
    }
  }

  lemma {:induction false} SmallItems(f: Field, d: seq<byte>, count: nat)
    requires FieldOk(f) && |d| == f.dataSize * f.arraySize && count <= f.arraySize
    requires EncArray(f, d, count).Some? && |EncArray(f, d, count).value| < TWO_32
    ensures ShortItems(f, d, count)
    decreases f, 1
  {
    hide EncItem, EncItems, EncVarint, FieldOk, ShortItem;
    if f.ltype.Packable() {
      if count == 0 {
        assert EncItems(f, d, 0, false) == Some([]) by {
          NoItems(f, d);
        }
      }
    } else if count > 0 {
      EncItemsEach(f, d, count, true);
      forall k | 0 <= k < count
        ensures ShortItem(f, Item(d, f.dataSize, k, f.arraySize))
      {
        SmallItem(f, Item(d, f.dataSize, k, f.arraySize));
      }
    }
  }

  lemma {:induction false} NoItems(f: Field, d: seq<byte>)
    requires FieldOk(f) && |d| == f.dataSize * f.arraySize
    ensures EncItems(f, d, 0, false) == Some([])
  {
    hide FieldOk;
  }

  lemma {:induction false} SmallEntry(f: Field, d: seq<byte>, c: seq<byte>)
    requires FieldOk(f) && |d| == MemberSize(f) && |c| == SizeLen(f)
    requires EncEntry(f, d, c).Some? && |EncEntry(f, d, c).value| < TWO_32
    ensures ShortEntry(f, d, c)
    decreases f, 2
  {
    hide EncItem, EncArray, IsDefault, ShortItem, ShortItems;
    if f.htype.Repeated? {
      if LE(c) <= f.arraySize {
        SmallItems(f, d, LE(c));
      }
    } else if EncTagged(f, d).Some? && EncEntry(f, d, c) == EncTagged(f, d) {
      SmallItem(f, d);
    }
  }

  /** A message shorter than 2^32 bytes has no length the decoder cannot read. */
  lemma {:induction false} SmallIsShort(fields: seq<Field>, m: seq<byte>)
    requires WellFormed(fields, |m|) && Enc(fields, m).Some? && |Enc(fields, m).value| < TWO_32
    ensures Short(fields, m)
    decreases fields, 0
  {
    hide EncEntry, EncUpTo, ShortEntry, Layout;
    EncUpToEach(fields, |fields|, m);
    forall i | 0 <= i < |fields|
      ensures ShortAt(fields, i, m)
    {
      assert FieldOk(fields[i]);
      assert EncField(fields, i, m).Some? && |EncField(fields, i, m).value| < TWO_32;
      SmallEntry(fields[i], Data(fields, i, m), Cell(fields, i, m));
    }
  }

  /** The round trip. Whenever a struct can be encoded, decoding those bytes either fails or uses
      all of them; and it gives back the same message if and only if the struct is intact. */
  lemma RoundTripExact(fields: seq<Field>, m: seq<byte>, b: seq<byte>)
    requires WellFormed(fields, |m|) && Enc(fields, m) == Some(b) && Short(fields, m)
    ensures Decode(fields, b).Some? ==> Decode(fields, b).value.1 == []
    ensures Intact(fields, m) <==>
            Decode(fields, b).Some? && Entries(Decode(fields, b).value.0) == Entries(View(fields, m))
  {
    hide WellFormed, Enc, Decode, Echo, Intact, Entries, Short;
    MessageDecodes(fields, m);
    MessageExact(fields, m);
  }
}
