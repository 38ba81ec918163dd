/**
 One entry of a struct, seen from the addresses the iterator gives for it.
 */
module EntryMemory {
  import opened Wire
  import opened Descriptor
  import opened State
  import opened DecodeSpec
  import opened Memory

  /** The entry with data at pData is inside memory, and its size variable is apart from its data. */
  ghost predicate Placed(f: Field, pData: int, len: nat) {
    && 0 <= pData && pData + MemberSize(f) <= len && f.dataSize <= MemberSize(f)
    && (SizeLen(f) > 0 ==>
          && 0 <= pData + f.sizeOffset && pData + f.sizeOffset + SizeLen(f) <= len
          && Apart(pData + f.sizeOffset, SizeLen(f), pData, MemberSize(f)))
  }

  ghost function CellOf(f: Field, m: seq<byte>, pData: int): (c: seq<byte>)
    requires Placed(f, pData, |m|)
    ensures |c| == SizeLen(f)
  {
    if SizeLen(f) == 0 then [] else m[pData + f.sizeOffset..pData + f.sizeOffset + SizeLen(f)]
  }

  ghost function DataOf(f: Field, m: seq<byte>, pData: int): (d: seq<byte>)
    requires Placed(f, pData, |m|)
    ensures |d| == MemberSize(f)
  {
    m[pData..pData + MemberSize(f)]
  }

  ghost function EntryView(f: Field, m: seq<byte>, pData: int): FieldState
    requires FieldOk(f) && Placed(f, pData, |m|)
  {
    ViewEntry(f, DataOf(f, m, pData), CellOf(f, m, pData))
  }

  /** Nothing outside the data and the size variable of the entry changed. */
  ghost predicate OnlyField(f: Field, pData: int, m: seq<byte>, m': seq<byte>) {
    DiffersOnlyIn(m, m', pData, MemberSize(f), pData + f.sizeOffset, SizeLen(f))
  }

  lemma EntryPlaced(fields: seq<Field>, i: nat, m: seq<byte>, at: int, size: nat)
    requires WellFormed(fields, size) && i < |fields| && 0 <= at && at + size <= |m|
    ensures FieldOk(fields[i]) && Placed(fields[i], at + Off(fields, i), |m|)
    ensures Data(fields, i, m[at..at + size]) == DataOf(fields[i], m, at + Off(fields, i))
    ensures Cell(fields, i, m[at..at + size]) == CellOf(fields[i], m, at + Off(fields, i))
    ensures EntryView(fields[i], m, at + Off(fields, i)) == ViewAt(fields, i, m[at..at + size])
  {
    hide WellFormed, Off, FieldOk, MemberSize, ViewEntry;
    var f, off := fields[i], Off(fields, i);
    EntryFits(fields, size, i);
    SubSlice(m, at, size, off, MemberSize(f));
    if SizeLen(f) > 0 {
      CellApart(fields, size, i);
      SubSlice(m, at, size, SizeAt(fields, i), SizeLen(f));
    }
  }

  lemma CellApart(fields: seq<Field>, size: nat, i: nat)
    requires WellFormed(fields, size) && i < |fields| && SizeLen(fields[i]) > 0
    ensures Apart(SizeAt(fields, i), SizeLen(fields[i]), Off(fields, i), MemberSize(fields[i]))
  {
    hide FieldOk, Off, MemberSize, Apart, DistinctTags, RequiredCountOk, UnionsAligned;
  }

  /** What changed around an address, seen inside the struct that starts at `at`. */
  lemma Localize(m: seq<byte>, m': seq<byte>, at: int, size: nat, a: int, la: nat, c: int, lc: nat)
    requires DiffersOnlyIn(m, m', at + a, la, at + c, lc) && 0 <= at && at + size <= |m|
    ensures DiffersOnlyIn(m[at..at + size], m'[at..at + size], a, la, c, lc)
  {
  }

  lemma Globalize(m: seq<byte>, m': seq<byte>, at: int, size: nat, a: int, la: nat, c: int, lc: nat)
    requires DiffersOnlyIn(m, m', a, la, c, lc)
    requires at <= a && a + la <= at + size && (lc > 0 ==> at <= c && c + lc <= at + size)
    ensures Only(m, m', at, size)
  {
  }

  lemma EntryWritten(fields: seq<Field>, i: nat, m: seq<byte>, m': seq<byte>, at: int, size: nat)
    requires WellFormed(fields, size) && i < |fields| && 0 <= at && at + size <= |m|
    requires OnlyField(fields[i], at + Off(fields, i), m, m')
    ensures OnlyEntry(fields, i, m[at..at + size], m'[at..at + size])
    ensures Only(m, m', at, size)
  {
    hide WellFormed, Off, FieldOk, MemberSize, DiffersOnlyIn;
    var f, off := fields[i], Off(fields, i);
    EntryFits(fields, size, i);
    assert at + off + f.sizeOffset == at + SizeAt(fields, i);
    assert |m'| == |m| by {
      SameLength(m, m', at + off, MemberSize(f), at + off + f.sizeOffset, SizeLen(f));
    }
    Localize(m, m', at, size, off, MemberSize(f), SizeAt(fields, i), SizeLen(f));
    Globalize(m, m', at, size, at + off, MemberSize(f), at + off + f.sizeOffset, SizeLen(f));
  }

  lemma SameLength(m: seq<byte>, m': seq<byte>, a: int, la: nat, c: int, lc: nat)
    requires DiffersOnlyIn(m, m', a, la, c, lc)
    ensures |m'| == |m|
  {
  }

  /** Giving entry i the state e in memory gives it that state in the message, and no other entry is
      affected but the other members of its union. */
  lemma ViewSet(fields: seq<Field>, i: nat, m: seq<byte>, m': seq<byte>, e: FieldState)
    requires WellFormed(fields, |m|) && i < |fields| && OnlyEntry(fields, i, m, m')
    requires |m'| == |m| && ViewAt(fields, i, m') == e
    requires fields[i].htype.Oneof? ==>
               LE(Cell(fields, i, m')) == fields[i].tag || LE(Cell(fields, i, m')) == 0
    ensures View(fields, m') == SetEntry(fields, i, e, View(fields, m))
  {
    hide WellFormed, ViewEntry, OnlyEntry, SameUnion, Cell, Data;
    forall j | 0 <= j < |fields|
      ensures ViewAt(fields, j, m') ==
              if j == i then e else if SameUnion(fields, i, j) then Alt(None) else ViewAt(fields, j, m)
    {
      if j != i {
        if SameUnion(fields, i, j) {
          UnionMember(fields, i, j);
          OtherMembersInactive(fields, i, m', j);
        } else {
          WriteKeepsOthers(fields, i, m, m', j);
        }
      }
    }
    assert forall j :: 0 <= j < |fields| ==> View(fields, m')[j] == ViewAt(fields, j, m');
    assert forall j :: 0 <= j < |fields| ==> View(fields, m)[j] == ViewAt(fields, j, m);
  }

  lemma UnionMember(fields: seq<Field>, i: nat, j: nat)
    requires i < |fields| && j < |fields| && SameUnion(fields, i, j)
    ensures fields[i].htype.Oneof?
  {
  }

  /** The size variable is not touched by writing the data. */
  lemma DataKeepsCell(f: Field, m: seq<byte>, m': seq<byte>, pData: int, n: nat)
    requires Placed(f, pData, |m|) && n <= MemberSize(f) && Only(m, m', pData, n)
    ensures |m'| == |m| && CellOf(f, m', pData) == CellOf(f, m, pData)
  {
    hide MemberSize;
    if SizeLen(f) > 0 {
      RangeKept(m, m', pData, n, pData, 0, pData + f.sizeOffset, SizeLen(f));
    }
  }

  /** Entry i written at its address, seen in the whole message. */
  lemma FieldWritten(fields: seq<Field>, i: nat, m: seq<byte>, m': seq<byte>, at: int, size: nat)
    requires WellFormed(fields, size) && i < |fields| && 0 <= at && at + size <= |m|
    requires OnlyField(fields[i], at + Off(fields, i), m, m') && |m'| == |m|
    requires FieldOk(fields[i]) && Placed(fields[i], at + Off(fields, i), |m|)
    requires fields[i].htype.Oneof? ==>
               LE(CellOf(fields[i], m', at + Off(fields, i))) == fields[i].tag ||
               LE(CellOf(fields[i], m', at + Off(fields, i))) == 0
    ensures Only(m, m', at, size)
    ensures View(fields, m'[at..at + size]) ==
            SetEntry(fields, i, EntryView(fields[i], m', at + Off(fields, i)), View(fields, m[at..at + size]))
    ensures View(fields, m[at..at + size])[i] == EntryView(fields[i], m, at + Off(fields, i))
  {
    hide WellFormed, Off, EntryView, FieldOk, Placed, OnlyField, OnlyEntry, CellOf, Cell, Data, ViewEntry, SetEntry;
    EntryWritten(fields, i, m, m', at, size);
    EntryPlaced(fields, i, m, at, size);
    EntryPlaced(fields, i, m', at, size);
    ViewSet(fields, i, m[at..at + size], m'[at..at + size], EntryView(fields[i], m', at + Off(fields, i)));
  }

  // ---------------------------------------------------------------- array elements

  lemma ItemsApart(size: nat, j: nat, k: nat)
    requires j < k
    ensures j * size + size <= k * size
  {
    assert k * size == j * size + size + (k - j - 1) * size;
    if k - j - 1 > 0 && size > 0 {
      MulBound(size, k - j - 1);
    }
  }

  /** Where element k of an array entry is. */
  ghost function ItemAt(f: Field, pData: int, k: nat): int {
    pData + k * f.dataSize
  }

  lemma ItemPlaced(f: Field, m: seq<byte>, pData: int, k: nat)
    requires FieldOk(f) && f.htype.Repeated? && Placed(f, pData, |m|) && k < f.arraySize
    ensures MemberSize(f) == f.dataSize * f.arraySize
    ensures pData <= ItemAt(f, pData, k) && ItemAt(f, pData, k) + f.dataSize <= pData + MemberSize(f)
    ensures Item(DataOf(f, m, pData), f.dataSize, k, f.arraySize) ==
            m[ItemAt(f, pData, k)..ItemAt(f, pData, k) + f.dataSize]
    ensures ItemAt(f, pData, k + 1) == ItemAt(f, pData, k) + f.dataSize
  {
    ItemSlice(m, pData, f.dataSize, k, f.arraySize);
  }

  /** Writing element k and a count of k + 1 appends that element to the first k. */
  lemma ItemAppended(f: Field, m: seq<byte>, m': seq<byte>, pData: int, k: nat)
    requires FieldOk(f) && f.htype.Repeated? && Placed(f, pData, |m|) && |m'| == |m| && k < f.arraySize
    requires DiffersOnlyIn(m, m', ItemAt(f, pData, k), f.dataSize, pData + f.sizeOffset, SizeLen(f))
    requires LE(CellOf(f, m', pData)) == k + 1
    ensures OnlyField(f, pData, m, m')
    ensures 0 <= ItemAt(f, pData, k) && ItemAt(f, pData, k) + f.dataSize <= |m|
    ensures EntryView(f, m', pData) ==
            Many(k + 1, ViewItems(f, DataOf(f, m, pData), k) +
                        [ViewValue(f, m'[ItemAt(f, pData, k)..ItemAt(f, pData, k) + f.dataSize])])
  {
    hide FieldOk, WellFormed, ViewValue, LE, Item, ItemAt, DataOf;
    ItemPlaced(f, m, pData, k);
    ItemPlaced(f, m', pData, k);
    var d, d' := DataOf(f, m, pData), DataOf(f, m', pData);
    forall j | 0 <= j < k
      ensures Item(d', f.dataSize, j, f.arraySize) == Item(d, f.dataSize, j, f.arraySize)
    {
      ItemPlaced(f, m, pData, j);
      ItemPlaced(f, m', pData, j);
      ItemAtBefore(f, pData, j, k);
      RangeKept(m, m', ItemAt(f, pData, k), f.dataSize, pData + f.sizeOffset, SizeLen(f),
                ItemAt(f, pData, j), f.dataSize);
    }
    assert ViewItems(f, d', k + 1) ==
           ViewItems(f, d, k) + [ViewValue(f, Item(d', f.dataSize, k, f.arraySize))];
  }

  lemma ItemAtBefore(f: Field, pData: int, j: nat, k: nat)
    requires j < k
    ensures ItemAt(f, pData, j) + f.dataSize <= ItemAt(f, pData, k)
  {
    ItemsApart(f.dataSize, j, k);
  }
}
