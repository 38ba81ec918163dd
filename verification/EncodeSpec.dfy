/**
 What encoding means: the bytes written for a struct held in memory m.
 */
module EncodeSpec {
  import opened Wire
  import opened Descriptor
  import opened Scalars
  import opened State
  import opened DecodeSpec

  /** A body behind its length; the length goes through a cast to 64 bits. */
  function Lengthed(body: seq<byte>): seq<byte> {
    EncVarint(|body| % TWO_64) + body
  }

  function WireTypeOf(ltype: LType): nat {
    match ltype
    case Varint | Uvarint | Svarint => WT_VARINT
    case Fixed32 => WT_32BIT
    case Fixed64 => WT_64BIT
    case _ => WT_STRING
  }

  function EncWord(ltype: LType, d: seq<byte>): Option<seq<byte>>
    requires ltype.Packable()
  {
    if ltype.Fixed32? || ltype.Fixed64? then Some(d)
    else
      var n :- EncNumber(ltype, d);
      Some(EncVarint(n))
  }

  /** pb_check_proto3_default_value. It looks at the data of each inner field, never at a has,
      count or which variable, and at the first item of an array only. */
  ghost predicate IsDefault(f: Field, d: seq<byte>)
    requires FieldOk(f) && |d| == f.dataSize
    decreases f
  {
    match f.ltype
    case Bytes => LE(d[..SIZE_WIDTH]) == 0
    case String => d[0] == 0
    case FixedLengthBytes => f.dataSize == 0
    case Submessage =>
      var sub := f.ptr.fields;
      forall i :: 0 <= i < |sub| ==> IsDefault(sub[i], FirstItem(sub[i], Data(sub, i, d)))
    case Varint | Uvarint | Svarint | Fixed32 | Fixed64 => forall k :: 0 <= k < |d| ==> d[k] == 0
    case Extension => false
  }

  ghost predicate IsDefaultAt(fields: seq<Field>, i: nat, m: seq<byte>)
    requires WellFormed(fields, |m|) && i < |fields|
  {
    IsDefault(fields[i], FirstItem(fields[i], Data(fields, i, m)))
  }

  /** The data_size bytes at the start of an entry with data d. */
  ghost function FirstItem(f: Field, d: seq<byte>): (r: seq<byte>)
    requires FieldOk(f) && |d| == MemberSize(f)
    ensures |r| == f.dataSize
  {
    if f.htype.Repeated? then Item(d, f.dataSize, 0, f.arraySize) else d
  }

  /** One item without its tag. */
  ghost function EncItem(f: Field, d: seq<byte>): Option<seq<byte>>
    requires FieldOk(f) && |d| == f.dataSize
    decreases f, 0
  {
    match f.ltype
    case Bytes => if SIZE_WIDTH + LE(d[..SIZE_WIDTH]) > f.dataSize then None else Some(Lengthed(BytesPayload(d)))
    case String => Some(Lengthed(CStr(d)))
    case Submessage =>
      var body :- Enc(f.ptr.fields, d);
      Some(Lengthed(body))
    case FixedLengthBytes => Some(Lengthed(d))
    case Varint | Uvarint | Svarint | Fixed32 | Fixed64 => EncWord(f.ltype, d)
    case Extension => None
  }

  ghost function EncTagged(f: Field, d: seq<byte>): Option<seq<byte>>
    requires FieldOk(f) && |d| == f.dataSize
    decreases f, 1
  {
    var item :- EncItem(f, d);
    Some(EncTag(WireTypeOf(f.ltype), f.tag) + item)
  }

  /** The first `count` items of an array, with or without a tag before each. */
  ghost function EncItems(f: Field, d: seq<byte>, count: nat, tagged: bool): Option<seq<byte>>
    requires FieldOk(f) && |d| == f.dataSize * f.arraySize && count <= f.arraySize
    decreases f, 2, count
  {
    if count == 0 then Some([])
    else
      var before :- EncItems(f, d, count - 1, tagged);
      var last := Item(d, f.dataSize, count - 1, f.arraySize);
      var item :- if tagged then EncTagged(f, last) else EncItem(f, last);
      Some(before + item)
  }

  /** encode_array: scalars are always packed. */
  ghost function EncArray(f: Field, d: seq<byte>, count: nat): Option<seq<byte>>
    requires FieldOk(f) && |d| == f.dataSize * f.arraySize
    decreases f, 3
  {
    if count == 0 then Some([])
    else if count > f.arraySize then None
    else if f.ltype.Packable() then
      var body :- EncItems(f, d, count, false);
      Some(EncTag(WT_STRING, f.tag) + Lengthed(body))
    else EncItems(f, d, count, true)
  }

  /** encode_basic_field for an entry with data d and size variable c. */
  ghost function EncEntry(f: Field, d: seq<byte>, c: seq<byte>): Option<seq<byte>>
    requires FieldOk(f) && |d| == MemberSize(f) && |c| == SizeLen(f)
    decreases f, 4
  {
    match f.htype
    case Required => EncTagged(f, d)
    case Optional =>
      var present := if f.sizeOffset == 0 then !IsDefault(f, d) else c[0] != 0;
      if present then EncTagged(f, d) else Some([])
    case Repeated => EncArray(f, d, LE(c))
    case Oneof => if LE(c) == f.tag then EncTagged(f, d) else Some([])
  }

  /** The first n entries. */
  ghost function EncUpTo(fields: seq<Field>, n: nat, m: seq<byte>): Option<seq<byte>>
    requires WellFormed(fields, |m|) && n <= |fields|
    decreases fields, 1, n
  {
    if n == 0 then Some([])
    else
      var before :- EncUpTo(fields, n - 1, m);
      var field :- EncEntry(fields[n - 1], Data(fields, n - 1, m), Cell(fields, n - 1, m));
      Some(before + field)
  }

  /** pb_encode */
  ghost function Enc(fields: seq<Field>, m: seq<byte>): Option<seq<byte>>
    requires WellFormed(fields, |m|)
    decreases fields, 2
  {
    EncUpTo(fields, |fields|, m)
  }

  /** The bytes of entry i. */
  ghost function EncField(fields: seq<Field>, i: nat, m: seq<byte>): Option<seq<byte>>
    requires WellFormed(fields, |m|) && i < |fields|
  {
    EncEntry(fields[i], Data(fields, i, m), Cell(fields, i, m))
  }

  lemma EncUpToStep(fields: seq<Field>, n: nat, m: seq<byte>)
    requires WellFormed(fields, |m|) && 0 < n <= |fields|
    ensures var before, field := EncUpTo(fields, n - 1, m), EncField(fields, n - 1, m);
            EncUpTo(fields, n, m) ==
            if before.None? || field.None? then None else Some(before.value + field.value)
  {
    hide WellFormed;
  }

  // ---------------------------------------------------------------- lengths the decoder can read

  /** The submessage body of an item, and the bodies inside it, are shorter than 2^32 bytes. */
  ghost predicate ShortItem(f: Field, d: seq<byte>)
    requires FieldOk(f) && |d| == f.dataSize
    decreases f, 0
  {
    f.ltype.Submessage? ==>
      && (Enc(f.ptr.fields, d).Some? ==> |Enc(f.ptr.fields, d).value| < TWO_32)
      && Short(f.ptr.fields, d)
  }

  /** A packed body, or the bodies of the single items. */
  ghost predicate ShortItems(f: Field, d: seq<byte>, count: nat)
    requires FieldOk(f) && |d| == f.dataSize * f.arraySize && count <= f.arraySize
    decreases f, 1
  {
    if f.ltype.Packable() then EncItems(f, d, count, false).Some? ==> |EncItems(f, d, count, false).value| < TWO_32
    else forall k :: 0 <= k < count ==> ShortItem(f, Item(d, f.dataSize, k, f.arraySize))
  }

  ghost predicate ShortEntry(f: Field, d: seq<byte>, c: seq<byte>)
    requires FieldOk(f) && |d| == MemberSize(f) && |c| == SizeLen(f)
    decreases f, 2
  {
    match f.htype
    case Required => ShortItem(f, d)
    case Optional => (if f.sizeOffset == 0 then !IsDefault(f, d) else c[0] != 0) ==> ShortItem(f, d)
    case Repeated => LE(c) <= f.arraySize ==> ShortItems(f, d, LE(c))
    case Oneof => LE(c) == f.tag ==> ShortItem(f, d)
  }

  ghost predicate ShortAt(fields: seq<Field>, i: nat, m: seq<byte>)
    requires WellFormed(fields, |m|) && i < |fields|
    decreases fields, 0
  {
    ShortEntry(fields[i], Data(fields, i, m), Cell(fields, i, m))
  }

  /** Every length written for the message, at any depth, is below 2^32: the decoder reads lengths
      with a 32-bit varint. The message itself may be longer. */
  ghost predicate Short(fields: seq<Field>, m: seq<byte>)
    requires WellFormed(fields, |m|)
    decreases fields, 1
  {
    forall i :: 0 <= i < |fields| ==> ShortAt(fields, i, m)
  }

  /** pb_encode_delimited */
  ghost function EncDelimited(fields: seq<Field>, m: seq<byte>): Option<seq<byte>>
    requires WellFormed(fields, |m|)
  {
    var body :- Enc(fields, m);
    Some(Lengthed(body))
  }
}
