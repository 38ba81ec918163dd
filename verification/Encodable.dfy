/**
 Exactly when a message can be encoded, room aside.
 */
module Encodable {
  import opened Wire
  import opened Descriptor
  import opened Scalars
  import opened State
  import opened EncodeSpec

  /** The variable has a supported width, and a bytes value fits into its buffer. */
  ghost predicate CanEncodeItem(f: Field, d: seq<byte>)
    requires FieldOk(f) && |d| == f.dataSize
    decreases f, 0
  {
    match f.ltype
    case Varint | Uvarint | Svarint => WordSize(f.dataSize)
    case Bytes => SIZE_WIDTH + LE(d[..SIZE_WIDTH]) <= f.dataSize
    case Submessage => CanEncode(f.ptr.fields, d)
    case _ => true
  }

  /** What is present can be encoded; an array holds no more items than it has room for. */
  ghost predicate CanEncodeEntry(f: Field, d: seq<byte>, c: seq<byte>)
    requires FieldOk(f) && |d| == MemberSize(f) && |c| == SizeLen(f)
    decreases f, 1
  {
    match f.htype
    case Required => CanEncodeItem(f, d)
    case Optional => (if f.sizeOffset == 0 then !IsDefault(f, d) else c[0] != 0) ==> CanEncodeItem(f, d)
    case Repeated =>
      && LE(c) <= f.arraySize
      && forall k :: 0 <= k < LE(c) ==> CanEncodeItem(f, Item(d, f.dataSize, k, f.arraySize))
    case Oneof => LE(c) == f.tag ==> CanEncodeItem(f, d)
  }

  ghost predicate CanEncodeAt(fields: seq<Field>, i: nat, m: seq<byte>)
    requires WellFormed(fields, |m|) && i < |fields|
    decreases fields, 0
  {
    CanEncodeEntry(fields[i], Data(fields, i, m), Cell(fields, i, m))
  }

  ghost predicate CanEncode(fields: seq<Field>, m: seq<byte>)
    requires WellFormed(fields, |m|)
    decreases fields, 1
  {
    forall i :: 0 <= i < |fields| ==> CanEncodeAt(fields, i, m)
  }

  lemma {:induction false} ItemEncodes(f: Field, d: seq<byte>)
    requires FieldOk(f) && |d| == f.dataSize
    ensures EncItem(f, d).Some? <==> CanEncodeItem(f, d)
    decreases f, 0
  {
    hide EncVarint, LE, WellFormed, Enc, CanEncode;
    if f.ltype.Submessage? {
      MessageEncodes(f.ptr.fields, d);
    }
  }

  lemma {:induction false} ItemsEncode(f: Field, d: seq<byte>, count: nat, tagged: bool)
    requires FieldOk(f) && |d| == f.dataSize * f.arraySize && count <= f.arraySize
    ensures EncItems(f, d, count, tagged).Some? <==>
            forall k :: 0 <= k < count ==> CanEncodeItem(f, Item(d, f.dataSize, k, f.arraySize))
    decreases f, 1, count
  {
    hide FieldOk, EncItem, CanEncodeItem, EncTag, EncVarint;
    if count > 0 {
      var last := Item(d, f.dataSize, count - 1, f.arraySize);
      ItemsEncode(f, d, count - 1, tagged);
      ItemEncodes(f, last);
      assert EncTagged(f, last).Some? <==> EncItem(f, last).Some?;
      assert EncItems(f, d, count, tagged).Some? <==>
             EncItems(f, d, count - 1, tagged).Some? && EncItem(f, last).Some?;
    }
  }

  lemma {:induction false} EntryEncodes(f: Field, d: seq<byte>, c: seq<byte>)
    requires FieldOk(f) && |d| == MemberSize(f) && |c| == SizeLen(f)
    ensures EncEntry(f, d, c).Some? <==> CanEncodeEntry(f, d, c)
    decreases f, 2
  {
    hide EncItem, EncItems, EncTag, EncVarint, IsDefault, CanEncodeItem;
    if f.htype.Repeated? {
      if LE(c) <= f.arraySize {
        ItemsEncode(f, d, LE(c), !f.ltype.Packable());
      }
    } else {
      ItemEncodes(f, d);
    }
  }

  lemma {:induction false} FieldEncodes(fields: seq<Field>, i: nat, m: seq<byte>)
    requires WellFormed(fields, |m|) && i < |fields|
    ensures EncField(fields, i, m).Some? <==> CanEncodeAt(fields, i, m)
    decreases fields, 2
  {
    hide EncEntry, CanEncodeEntry, Layout;
    EntryEncodes(fields[i], Data(fields, i, m), Cell(fields, i, m));
  }

  lemma {:induction false} UpToEncodes(fields: seq<Field>, n: nat, m: seq<byte>)
    requires WellFormed(fields, |m|) && n <= |fields|
    ensures EncUpTo(fields, n, m).Some? <==> forall i :: 0 <= i < n ==> CanEncodeAt(fields, i, m)
    decreases fields, 3, n
  {
    hide WellFormed, EncField, CanEncodeEntry;
    if n > 0 {
      UpToEncodes(fields, n - 1, m);
      EncUpToStep(fields, n, m);
      FieldEncodes(fields, n - 1, m);
    }
  }

  /** A message can be encoded if and only if everything present in it fits: counts their arrays,
      bytes their buffers, and numbers have a width of 1, 2, 4 or 8 bytes. */
  lemma {:induction false} MessageEncodes(fields: seq<Field>, m: seq<byte>)
    requires WellFormed(fields, |m|)
    ensures Enc(fields, m).Some? <==> CanEncode(fields, m)
    decreases fields, 4
  {
    hide WellFormed, EncField, EncEntry, CanEncodeEntry;
    UpToEncodes(fields, |fields|, m);
    if EncUpTo(fields, |fields|, m).Some? {
      assert forall i :: 0 <= i < |fields| ==> CanEncodeAt(fields, i, m);
    } else {
      var i :| 0 <= i < |fields| && !CanEncodeAt(fields, i, m);
      assert !CanEncode(fields, m);
    }
  }
}
