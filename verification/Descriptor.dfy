/**
 Field descriptors (pb_field_t) and the struct layout they describe.
 */
module Descriptor {
  import opened Wire

  datatype LType = Varint | Uvarint | Svarint | Fixed32 | Fixed64
                 | Bytes | String | Submessage | Extension | FixedLengthBytes
  {
    predicate Packable() {
      Varint? || Uvarint? || Svarint? || Fixed32? || Fixed64?
    }
  }

  datatype HType = Required | Optional | Repeated | Oneof

  datatype AType = Static | Pointer | Callback

  /** What the `ptr` of a descriptor entry refers to. */
  datatype Ptr = Null | Default(bytes: seq<byte>) | SubFields(fields: seq<Field>)

  /** One descriptor entry. The terminating entry of the C array is left out of a `seq<Field>`;
      FieldAt puts it back. */
  datatype Field = Field(
    tag: nat, ltype: LType, htype: HType, atype: AType,
    dataOffset: nat, sizeOffset: int, dataSize: nat, arraySize: nat, ptr: Ptr)

  /** sizeof(pb_size_t): 1 by default, 2 with PB_FIELD_16BIT, 4 with PB_FIELD_32BIT.
      It has no value here, so everything below holds for all three builds. */
  type SizeWidth = w: nat | w == 1 || w == 2 || w == 4 witness 1
  const SIZE_WIDTH: SizeWidth

  /** sizeof(void*) */
  const POINTER_SIZE: nat

  ghost function SizeMax(): (m: nat)
    ensures m + 1 == Pow(256, SIZE_WIDTH)
    ensures 255 <= m < TWO_32
  {
    Pow256Values();
    Pow(256, SIZE_WIDTH) - 1
  }

  const LAST_FIELD := Field(0, Varint, Required, Static, 0, 0, 0, 0, Null)

  /** The entry at index i of the C array, terminator included. */
  function FieldAt(fields: seq<Field>, i: nat): Field
    requires i <= |fields|
  {
    if i < |fields| then fields[i] else LAST_FIELD
  }

  // ---------------------------------------------------------------- layout

  /** Bytes that field f takes up in the struct. */
  function MemberSize(f: Field): nat {
    if f.atype.Static? && f.htype.Repeated? then f.dataSize * f.arraySize
    else if f.atype.Pointer? then POINTER_SIZE
    else f.dataSize
  }

  /** Entry i continues the union of the entry before it. */
  ghost predicate ContinuesUnion(fields: seq<Field>, i: nat)
    requires 0 < i < |fields|
  {
    fields[i - 1].htype.Oneof? && fields[i].htype.Oneof? && fields[i].dataOffset == SizeMax()
  }

  /** The struct offset of entry i, recovered from the relative offsets. */
  ghost function Off(fields: seq<Field>, i: nat): nat
    requires i < |fields|
  {
    if i == 0 then fields[0].dataOffset
    else if ContinuesUnion(fields, i) then Off(fields, i - 1)
    else Off(fields, i - 1) + MemberSize(fields[i - 1]) + fields[i].dataOffset
  }

  /** Where the has, count or which variable of entry i is. */
  ghost function SizeAt(fields: seq<Field>, i: nat): int
    requires i < |fields|
  {
    Off(fields, i) + fields[i].sizeOffset
  }

  /** The width of that variable: a bool, a pb_size_t, or nothing. */
  function SizeLen(f: Field): nat {
    match f.htype
    case Required => 0
    case Optional => if f.sizeOffset == 0 then 0 else 1
    case Repeated => SIZE_WIDTH
    case Oneof => SIZE_WIDTH
  }

  /** Members of one union are the oneof entries that share a which variable. */
  ghost predicate SameUnion(fields: seq<Field>, i: nat, j: nat)
    requires i < |fields| && j < |fields|
  {
    fields[i].htype.Oneof? && fields[j].htype.Oneof? && SizeAt(fields, i) == SizeAt(fields, j)
  }

  ghost function RequiredBefore(fields: seq<Field>, i: nat): (n: nat)
    requires i <= |fields|
    ensures n <= i
  {
    if i == 0 then 0 else RequiredBefore(fields, i - 1) + if fields[i - 1].htype.Required? then 1 else 0
  }

  ghost predicate Apart(a: int, la: nat, b: int, lb: nat) {
    a + la <= b || b + lb <= a
  }

  // ---------------------------------------------------------------- well-formed descriptors

  /** The entries describe a struct of `size` bytes: everything is inside it, and nothing overlaps
      except the members of one union. */
  ghost predicate Layout(fields: seq<Field>, size: nat) {
    && (forall i :: 0 <= i < |fields| ==> Off(fields, i) + MemberSize(fields[i]) <= size)
    && (forall i :: 0 <= i < |fields| && SizeLen(fields[i]) > 0 ==>
          0 <= SizeAt(fields, i) && SizeAt(fields, i) + SizeLen(fields[i]) <= size)
    && (forall i, j :: 0 <= i < |fields| && 0 <= j < |fields| && i != j && !SameUnion(fields, i, j) ==>
          Apart(Off(fields, i), MemberSize(fields[i]), Off(fields, j), MemberSize(fields[j])))
    && (forall i, j :: 0 <= i < |fields| && 0 <= j < |fields| && SizeLen(fields[i]) > 0 ==>
          Apart(SizeAt(fields, i), SizeLen(fields[i]), Off(fields, j), MemberSize(fields[j])))
    && (forall i, j ::
          0 <= i < |fields| && 0 <= j < |fields| && i != j && !SameUnion(fields, i, j) &&
          SizeLen(fields[i]) > 0 && SizeLen(fields[j]) > 0 ==>
            Apart(SizeAt(fields, i), SizeLen(fields[i]), SizeAt(fields, j), SizeLen(fields[j])))
  }

  lemma EntriesApart(fields: seq<Field>, size: nat, i: nat, j: nat)
    requires Layout(fields, size)
    requires i < |fields| && j < |fields| && i != j && !SameUnion(fields, i, j)
    ensures Apart(Off(fields, i), MemberSize(fields[i]), Off(fields, j), MemberSize(fields[j]))
    ensures SizeLen(fields[i]) > 0 ==>
              Apart(SizeAt(fields, i), SizeLen(fields[i]), Off(fields, j), MemberSize(fields[j]))
    ensures SizeLen(fields[j]) > 0 ==>
              Apart(SizeAt(fields, j), SizeLen(fields[j]), Off(fields, i), MemberSize(fields[i]))
    ensures SizeLen(fields[i]) > 0 && SizeLen(fields[j]) > 0 ==>
              Apart(SizeAt(fields, i), SizeLen(fields[i]), SizeAt(fields, j), SizeLen(fields[j]))
  {
  }

  /** Entries that continue a union have the size_offset of the entry before. */
  ghost predicate UnionsAligned(fields: seq<Field>) {
    forall i :: 0 < i < |fields| && ContinuesUnion(fields, i) ==> fields[i].sizeOffset == fields[i - 1].sizeOffset
  }

  ghost predicate DistinctTags(fields: seq<Field>) {
    forall i, j :: 0 <= i < j < |fields| ==> fields[i].tag != fields[j].tag
  }

  /** The counts for which the final word of the required-field check is shifted by 1..31 and
      lies inside the two words that are kept. */
  ghost predicate RequiredCountOk(fields: seq<Field>) {
    var r := RequiredBefore(fields, |fields|);
    r == 0 || (r < 64 && r % 32 != 0)
  }

  /** A statically allocated entry as the PB_*_STATIC macros write it. */
  ghost predicate FieldOk(f: Field)
    decreases f
  {
    && f.atype.Static? && !f.ltype.Extension?
    && 0 < f.tag <= SizeMax() && f.tag < 0x2000_0000
    && f.dataSize <= SizeMax() && f.arraySize <= SizeMax()
    && (f.htype.Repeated? ==> f.sizeOffset != 0 && f.dataSize > 0 && f.arraySize > 0)
    && (f.htype.Oneof? ==> f.sizeOffset != 0)
    && (f.ltype.Fixed32? ==> f.dataSize == 4)
    && (f.ltype.Fixed64? ==> f.dataSize == 8)
    && (f.ltype.Bytes? ==> f.dataSize >= SIZE_WIDTH)
    && (f.ltype.String? ==> f.dataSize >= 1)
    && (if f.ltype.Submessage?
        then f.ptr.SubFields? && WellFormed(f.ptr.fields, f.dataSize)
        else !f.ptr.SubFields? && (f.ptr.Default? ==> |f.ptr.bytes| == f.dataSize))
  }

  /** The descriptor of a statically allocated message type held in a struct of `size` bytes. */
  ghost predicate WellFormed(fields: seq<Field>, size: nat)
    decreases fields
  {
    && (forall i :: 0 <= i < |fields| ==> FieldOk(fields[i]))
    && DistinctTags(fields)
    && RequiredCountOk(fields)
    && UnionsAligned(fields)
    && Layout(fields, size)
  }

  /** Entry i and its size variable are inside the struct. */
  lemma EntryFits(fields: seq<Field>, size: nat, i: nat)
    requires WellFormed(fields, size) && i < |fields|
    ensures FieldOk(fields[i]) && fields[i].dataSize <= MemberSize(fields[i])
    ensures Off(fields, i) + MemberSize(fields[i]) <= size
    ensures SizeLen(fields[i]) > 0 ==> 0 <= SizeAt(fields, i) && SizeAt(fields, i) + SizeLen(fields[i]) <= size
  {
    hide DistinctTags, RequiredCountOk, UnionsAligned, Apart, Off, MemberSize;
    FirstItemFits(fields[i]);
  }

  lemma FirstItemFits(f: Field)
    requires FieldOk(f)
    ensures f.dataSize <= MemberSize(f)
  {
    hide WellFormed;
    if f.htype.Repeated? {
      AtLeastOne(f.dataSize, f.arraySize);
    }
  }

  lemma AtLeastOne(size: nat, count: nat)
    requires count > 0
    ensures size <= size * count
  {
    assert size * (count - 1) >= 0;
  }

  lemma SubmessageOk(f: Field)
    requires FieldOk(f) && f.ltype.Submessage?
    ensures f.ptr.SubFields? && WellFormed(f.ptr.fields, f.dataSize)
  {
    hide WellFormed;
  }

  // ---------------------------------------------------------------- the offset macros

  /** Which of PB_DATAOFFSET_FIRST, PB_DATAOFFSET_OTHER and PB_DATAOFFSET_UNION an entry uses. */
  datatype Placement = First | Other | Union

  /** offs and sizes give offsetof() of the member and of its has, count or which variable for
      every entry; each data_offset was filled in by its placement, and each size_offset by pb_delta. */
  ghost predicate LaidOutByMacros(fields: seq<Field>, places: seq<Placement>, offs: seq<nat>, sizes: seq<nat>) {
    && |places| == |offs| == |fields| == |sizes|
    && (forall i :: 0 <= i < |fields| ==>
          if SizeLen(fields[i]) > 0 then sizes[i] == offs[i] + fields[i].sizeOffset else fields[i].sizeOffset == 0)
    && forall i :: 0 <= i < |fields| ==> DataOffsetFilled(fields, places[i], offs, sizes, i)
  }

  ghost predicate DataOffsetFilled(fields: seq<Field>, place: Placement, offs: seq<nat>, sizes: seq<nat>, i: nat)
    requires i < |fields| == |offs| == |sizes|
  {
    match place
    case First => i == 0 && fields[i].dataOffset == offs[i]
    case Other => 0 < i && fields[i].dataOffset == offs[i] - offs[i - 1] - MemberSize(fields[i - 1])
    case Union =>
      && 0 < i && fields[i - 1].htype.Oneof? && fields[i].htype.Oneof?
      && fields[i].dataOffset == SizeMax() && offs[i] == offs[i - 1] && sizes[i] == sizes[i - 1]
  }

  /** An entry behind a gap of exactly PB_SIZE_MAX bytes, with a oneof member on both sides of the
      gap: the iterator takes it for a further member of the union before it. */
  ghost predicate MistakenForUnion(fields: seq<Field>, places: seq<Placement>, i: nat)
    requires i < |fields| == |places|
  {
    places[i].Other? && 0 < i && ContinuesUnion(fields, i)
  }

  ghost predicate NoneMistaken(fields: seq<Field>, places: seq<Placement>)
    requires |fields| == |places|
  {
    forall i :: 0 <= i < |fields| ==> !MistakenForUnion(fields, places, i)
  }

  /** Up to the first mistaken entry the relative offsets lead back to the addresses the compiler
      gave to the macros. */
  lemma {:induction false} AddressRecovered(
    fields: seq<Field>, places: seq<Placement>, offs: seq<nat>, sizes: seq<nat>, i: nat)
    requires LaidOutByMacros(fields, places, offs, sizes) && i < |fields|
    requires forall j :: 0 <= j <= i ==> !MistakenForUnion(fields, places, j)
    ensures Off(fields, i) == offs[i]
    ensures SizeLen(fields[i]) > 0 ==> SizeAt(fields, i) == sizes[i]
  {
    hide MemberSize;
    assert DataOffsetFilled(fields, places[i], offs, sizes, i);
    if i > 0 {
      AddressRecovered(fields, places, offs, sizes, i - 1);
      assert !MistakenForUnion(fields, places, i);
      assert ContinuesUnion(fields, i) <==> places[i].Union?;
      assert Off(fields, i) == offs[i];
    }
  }

  /** A mistaken entry is looked for at the address of the entry before it, which is wrong. */
  lemma {:induction false} MistakenMisplaced(
    fields: seq<Field>, places: seq<Placement>, offs: seq<nat>, sizes: seq<nat>, i: nat)
    requires LaidOutByMacros(fields, places, offs, sizes) && i < |fields| && MistakenForUnion(fields, places, i)
    requires Off(fields, i - 1) == offs[i - 1]
    ensures Off(fields, i) != offs[i]
  {
  }

  /** All addresses are recovered if and only if no entry is mistaken for a union member. */
  lemma AddressesRecovered(fields: seq<Field>, places: seq<Placement>, offs: seq<nat>, sizes: seq<nat>)
    requires LaidOutByMacros(fields, places, offs, sizes)
    ensures (forall i :: 0 <= i < |fields| ==> Off(fields, i) == offs[i]) <==> NoneMistaken(fields, places)
    ensures NoneMistaken(fields, places) ==>
              forall i :: 0 <= i < |fields| && SizeLen(fields[i]) > 0 ==> SizeAt(fields, i) == sizes[i]
  {
    hide DataOffsetFilled, MistakenForUnion, Off, SizeLen;
    if NoneMistaken(fields, places) {
      forall i | 0 <= i < |fields|
        ensures Off(fields, i) == offs[i]
        ensures SizeLen(fields[i]) > 0 ==> SizeAt(fields, i) == sizes[i]
      {
        AddressRecovered(fields, places, offs, sizes, i);
      }
    } else {
      var i :| 0 <= i < |fields| && MistakenForUnion(fields, places, i);
      NotFirst(fields, places, i);
      if Off(fields, i - 1) == offs[i - 1] {
        MistakenMisplaced(fields, places, offs, sizes, i);
      }
    }
  }

  lemma NotFirst(fields: seq<Field>, places: seq<Placement>, i: nat)
    requires i < |fields| == |places| && MistakenForUnion(fields, places, i)
    ensures i > 0
  {
  }

  /** Two oneofs of one byte each with PB_SIZE_MAX bytes between them: the second is not found. */
  lemma GapMistaken()
    ensures var gap := SizeMax();
            var fields := [
              Field(1, Uvarint, Oneof, Static, SIZE_WIDTH, -(SIZE_WIDTH as int), 1, 0, Null),
              Field(2, Uvarint, Oneof, Static, gap, 1, 1, 0, Null)];
            var offs, sizes := [SIZE_WIDTH, SIZE_WIDTH + 1 + gap], [0, SIZE_WIDTH + 2 + gap];
            && LaidOutByMacros(fields, [First, Other], offs, sizes)
            && Off(fields, 1) == SIZE_WIDTH != offs[1]
  {
  }

  /** The members of a C struct of `size` bytes, at the given offsets: inside it and apart, except
      for the members of one union, which are those with a common which variable. */
  ghost predicate StructMembers(fields: seq<Field>, offs: seq<nat>, sizes: seq<nat>, size: nat)
    requires |offs| == |fields| == |sizes|
  {
    && (forall i :: 0 <= i < |fields| ==> offs[i] + MemberSize(fields[i]) <= size)
    && (forall i :: 0 <= i < |fields| && SizeLen(fields[i]) > 0 ==> sizes[i] + SizeLen(fields[i]) <= size)
    && (forall i, j :: 0 <= i < |fields| && 0 <= j < |fields| && i != j && !OneUnion(fields, sizes, i, j) ==>
          Apart(offs[i], MemberSize(fields[i]), offs[j], MemberSize(fields[j])))
    && (forall i, j :: 0 <= i < |fields| && 0 <= j < |fields| && SizeLen(fields[i]) > 0 ==>
          Apart(sizes[i], SizeLen(fields[i]), offs[j], MemberSize(fields[j])))
    && (forall i, j ::
          0 <= i < |fields| && 0 <= j < |fields| && i != j && !OneUnion(fields, sizes, i, j) &&
          SizeLen(fields[i]) > 0 && SizeLen(fields[j]) > 0 ==>
            Apart(sizes[i], SizeLen(fields[i]), sizes[j], SizeLen(fields[j])))
  }

  ghost predicate OneUnion(fields: seq<Field>, sizes: seq<nat>, i: nat, j: nat)
    requires i < |fields| == |sizes| && j < |fields|
  {
    fields[i].htype.Oneof? && fields[j].htype.Oneof? && sizes[i] == sizes[j]
  }

  /** What the macros write for a C struct is a descriptor with the layout of that struct. */
  lemma MacrosGiveLayout(
    fields: seq<Field>, places: seq<Placement>, offs: seq<nat>, sizes: seq<nat>, size: nat)
    requires LaidOutByMacros(fields, places, offs, sizes) && NoneMistaken(fields, places)
    requires StructMembers(fields, offs, sizes, size)
    ensures Layout(fields, size) && UnionsAligned(fields)
  {
    hide Off, MemberSize, Apart;
    AddressesRecovered(fields, places, offs, sizes);
    MacrosAlignUnions(fields, places, offs, sizes);
    assert forall i, j :: 0 <= i < |fields| && 0 <= j < |fields| ==>
             (SameUnion(fields, i, j) <==> OneUnion(fields, sizes, i, j));
  }

  lemma MacrosAlignUnions(fields: seq<Field>, places: seq<Placement>, offs: seq<nat>, sizes: seq<nat>)
    requires LaidOutByMacros(fields, places, offs, sizes) && NoneMistaken(fields, places)
    ensures UnionsAligned(fields)
  {
    hide Off, MemberSize;
    forall i | 0 < i < |fields| && ContinuesUnion(fields, i)
      ensures fields[i].sizeOffset == fields[i - 1].sizeOffset
    {
      assert !MistakenForUnion(fields, places, i);
    }
  }
}
