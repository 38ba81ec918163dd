/**
 What the encoder puts on the wire, told by a reader that knows nothing about the descriptor.
 */
module WireLaws {
  import opened Wire
  import opened Descriptor
  import opened Scalars
  import opened State
  import opened DecodeSpec
  import opened DecodeLaws
  import opened RepeatedLaws
  import opened EncodeSpec
  import opened RoundTrip

  // ---------------------------------------------------------------- wire types

  /** The wire types of the Protocol Buffers encoding. */
  function StandardWireType(ltype: LType): nat {
    match ltype
    case Varint | Uvarint | Svarint => 0
    case Fixed64 => 1
    case Bytes | String | Submessage | FixedLengthBytes | Extension => 2
    case Fixed32 => 5
  }

  lemma {:induction false} VarintTakes(v: nat, t: seq<byte>)
    ensures VarintEnds(EncVarint(v) + t, |EncVarint(v)|)
    decreases v
  {
    if v >= 128 {
      VarintTakes(v / 128, t);
      var s, more := EncVarint(v) + t, EncVarint(v / 128) + t;
      assert s == [s[0]] + more;
      assert forall j :: 0 < j < |s| ==> s[j] == more[j - 1];
    }
  }

  /** An encoded item is a payload of the standard wire type of its field. */
  lemma {:induction false} ItemPayloadTakes(f: Field, d: seq<byte>, t: seq<byte>)
    requires FieldOk(f) && |d| == f.dataSize && EncItem(f, d).Some? && ShortItem(f, d)
    ensures PayloadTakes(StandardWireType(f.ltype), EncItem(f, d).value + t, |EncItem(f, d).value|)
  {
    hide Enc, WellFormed, EncNumber, EncVarint, BytesPayload, CStr, LE, Lengthed, ShortItem, DecVarint32, VarintEnds;
    match f.ltype
    case Varint | Uvarint | Svarint => VarintTakes(EncNumber(f.ltype, d).value, t);
    case Fixed32 | Fixed64 =>
    case Bytes | String | Submessage | FixedLengthBytes =>
      ShortBody(f, d);
      LengthedTakes(EncPayload(f, d).body, t);
  }

  lemma LengthedTakes(body: seq<byte>, t: seq<byte>)
    requires |body| < TWO_32
    ensures PayloadTakes(2, Lengthed(body) + t, |Lengthed(body)|)
  {
    hide EncVarint, DecVarint32, RawVarint;
    Varint32RoundTrip(|body|, body + t);
    assert Lengthed(body) + t == EncVarint(|body|) + (body + t);
  }

  /** Every single field is written with its number and the standard wire type, and a reader that
      does not declare it, whatever else it declares, finds its end. */
  lemma {:induction false} TaggedSkippable(f: Field, d: seq<byte>, other: seq<Field>, t: seq<byte>)
    requires FieldOk(f) && |d| == f.dataSize && EncTagged(f, d).Some? && ShortItem(f, d)
    requires Find(other, f.tag).None?
    ensures EncItem(f, d).Some?
    ensures DecodeTag(EncTagged(f, d).value + t) ==
            Tag(f.tag, StandardWireType(f.ltype), EncItem(f, d).value + t)
    ensures var r := ParseRecord(other, EncTagged(f, d).value + t);
            r.Record? && r.tag == f.tag && r.rest == t
  {
    hide EncItem, PayloadTakes, DecodeTag, EncTag, ParseRecord, ShortItem, Find, WellFormed;
    var item := EncItem(f, d).value;
    var w := StandardWireType(f.ltype);
    assert w == WireTypeOf(f.ltype);
    assert EncTagged(f, d).value + t == EncTag(w, f.tag) + (item + t);
    TagRoundTrip(w, f.tag, item + t);
    ItemPayloadTakes(f, d, t);
    UndeclaredRecord(other, f.tag, w, item + t);
    assert (item + t)[|item|..] == t;
  }

  // ---------------------------------------------------------------- arrays

  /** A nonempty array of scalars is one record of wire type 2 that holds all its items, even when
      it holds a single one. */
  lemma {:induction false} ScalarsArePacked(f: Field, d: seq<byte>, count: nat, other: seq<Field>, t: seq<byte>)
    requires FieldOk(f) && |d| == f.dataSize * f.arraySize && f.ltype.Packable()
    requires 0 < count <= f.arraySize && EncArray(f, d, count).Some? && ShortItems(f, d, count)
    requires Find(other, f.tag).None?
    ensures EncItems(f, d, count, false).Some?
    ensures DecodeTag(EncArray(f, d, count).value + t) ==
            Tag(f.tag, 2, Lengthed(EncItems(f, d, count, false).value) + t)
    ensures var r := ParseRecord(other, EncArray(f, d, count).value + t);
            r.Record? && r.tag == f.tag && r.rest == t
  {
    hide EncItems, PayloadTakes, DecodeTag, EncTag, ParseRecord, Lengthed, Find, WellFormed;
    var body := EncItems(f, d, count, false).value;
    assert EncArray(f, d, count).value + t == EncTag(2, f.tag) + (Lengthed(body) + t);
    TagRoundTrip(2, f.tag, Lengthed(body) + t);
    LengthedTakes(body, t);
    UndeclaredRecord(other, f.tag, 2, Lengthed(body) + t);
    assert (Lengthed(body) + t)[|Lengthed(body)|..] == t;
  }

  // ---------------------------------------------------------------- what is left out

  /** The field holds zero: no text, no bytes, a number of zero bytes, or zeros all the way down. */
  ghost predicate HoldsZero(f: Field, d: seq<byte>)
    requires FieldOk(f) && |d| == f.dataSize
    decreases f
  {
    if f.ltype.Submessage? then
      forall i :: 0 <= i < |f.ptr.fields| ==>
        HoldsZero(f.ptr.fields[i], FirstItem(f.ptr.fields[i], Data(f.ptr.fields, i, d)))
    else if f.ltype.String? then CStr(d) == []
    else if f.ltype.Bytes? then d[..SIZE_WIDTH] == Zeros(SIZE_WIDTH)
    else if f.ltype.FixedLengthBytes? then d == []
    else d == Zeros(f.dataSize)
  }

  lemma {:induction false} DefaultIsZero(f: Field, d: seq<byte>)
    requires FieldOk(f) && |d| == f.dataSize
    ensures IsDefault(f, d) <==> HoldsZero(f, d)
    decreases f
  {
    hide Layout, LE, FirstItem, Data;
    if f.ltype.Submessage? {
      var sub := f.ptr.fields;
      forall i | 0 <= i < |sub|
        ensures FieldOk(sub[i])
        ensures IsDefault(sub[i], FirstItem(sub[i], Data(sub, i, d))) <==>
                HoldsZero(sub[i], FirstItem(sub[i], Data(sub, i, d)))
      {
        DefaultIsZero(sub[i], FirstItem(sub[i], Data(sub, i, d)));
      }
    } else {
      LeafIsZero(f, d);
    }
  }

  lemma {:induction false} LeafIsZero(f: Field, d: seq<byte>)
    requires FieldOk(f) && |d| == f.dataSize && !f.ltype.Submessage?
    ensures IsDefault(f, d) <==> HoldsZero(f, d)
  {
    hide WellFormed, LE, CStr;
    if f.ltype.Bytes? {
      ZeroNumber(d[..SIZE_WIDTH]);
    } else if f.ltype.String? {
      NoText(d);
    } else if f.ltype.Packable() {
      assert (forall k :: 0 <= k < |d| ==> d[k] == 0) <==> d == Zeros(|d|);
    }
  }

  lemma NoText(d: seq<byte>)
    requires d != []
    ensures CStr(d) == [] <==> d[0] == 0
  {
  }

  lemma {:induction false} ZeroNumber(s: seq<byte>)
    ensures LE(s) == 0 <==> s == Zeros(|s|)
  {
    if s != [] {
      ZeroNumber(s[1..]);
      assert s == [s[0]] + s[1..] && Zeros(|s|) == [0] + Zeros(|s| - 1);
    }
  }

  /** What it takes for an entry to be left out: a has variable that is not set; without one, a field
      that holds zero; no items; another member of the union. Required fields are always written. */
  ghost predicate LeftOut(f: Field, d: seq<byte>, c: seq<byte>)
    requires FieldOk(f) && |d| == MemberSize(f) && |c| == SizeLen(f)
  {
    match f.htype
    case Required => false
    case Optional => if f.sizeOffset != 0 then c == [0] else HoldsZero(f, d)
    case Repeated => LE(c) == 0
    case Oneof => LE(c) != f.tag
  }

  lemma {:induction false} EntryLeftOut(f: Field, d: seq<byte>, c: seq<byte>)
    requires FieldOk(f) && |d| == MemberSize(f) && |c| == SizeLen(f)
    ensures EncEntry(f, d, c) == Some([]) <==> LeftOut(f, d, c)
  {
    hide EncItem, EncItems, EncTagged, EncTag, IsDefault, HoldsZero, LE, WellFormed;
    if f.htype.Repeated? {
      if 0 < LE(c) <= f.arraySize && !f.ltype.Packable() {
        SomeItem(f, d, LE(c));
      }
    } else {
      TaggedNotEmpty(f, d);
      if f.htype.Optional? && f.sizeOffset == 0 {
        DefaultIsZero(f, d);
      }
    }
  }

  lemma {:induction false} TaggedNotEmpty(f: Field, d: seq<byte>)
    requires FieldOk(f) && |d| == f.dataSize
    ensures EncTagged(f, d) != Some([])
  {
    hide EncItem, EncTag, WellFormed;
  }

  lemma {:induction false} SomeItem(f: Field, d: seq<byte>, count: nat)
    requires FieldOk(f) && |d| == f.dataSize * f.arraySize && 0 < count <= f.arraySize
    ensures EncItems(f, d, count, true) != Some([])
  {
    hide EncItem, EncTagged, FieldOk, WellFormed;
    TaggedNotEmpty(f, Item(d, f.dataSize, count - 1, f.arraySize));
  }

  /** Exactly when an entry of a message leaves no bytes. */
  lemma {:induction false} FieldLeftOut(fields: seq<Field>, i: nat, m: seq<byte>)
    requires WellFormed(fields, |m|) && i < |fields|
    ensures FieldOk(fields[i])
    ensures EncField(fields, i, m) == Some([]) <==> LeftOut(fields[i], Data(fields, i, m), Cell(fields, i, m))
  {
    hide Layout, EncEntry, LeftOut;
    EntryLeftOut(fields[i], Data(fields, i, m), Cell(fields, i, m));
  }

  // ---------------------------------------------------------------- order

  /** The fields are written in the order of the descriptor: the bytes of entry i stand right behind
      those of the entries before it. */
  lemma {:induction false} FieldsInOrder(fields: seq<Field>, i: nat, n: nat, m: seq<byte>)
    requires WellFormed(fields, |m|) && i < n <= |fields| && EncUpTo(fields, n, m).Some?
    ensures EncUpTo(fields, i, m).Some? && EncField(fields, i, m).Some?
    ensures EncUpTo(fields, i, m).value + EncField(fields, i, m).value <= EncUpTo(fields, n, m).value
    decreases n
  {
    hide WellFormed, EncField;
    EncUpToStep(fields, n, m);
    if i < n - 1 {
      FieldsInOrder(fields, i, n - 1, m);
    }
  }
}
