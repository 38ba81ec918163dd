/**
 Setting a struct to its defaults (pb_message_set_to_defaults).
 */
module Initializer {
  import opened Wire
  import opened Descriptor
  import opened State
  import opened DecodeSpec
  import opened Iterator
  import opened Memory
  import opened EntryMemory

  // ---------------------------------------------------------------- initialised memory

  /** The bytes of one field: those of the descriptor, or zeros; a submessage is initialised itself. */
  ghost predicate InitialisedItem(f: Field, d: seq<byte>)
    requires FieldOk(f) && |d| == f.dataSize
    decreases f, 0
  {
    if f.ltype.Submessage? then Initialised(f.ptr.fields, d)
    else d == if f.ptr.Default? then f.ptr.bytes else Zeros(f.dataSize)
  }

  /** The payload of an optional field is initialised along with its has; arrays and unions have a
      zero count or which variable and keep their contents. */
  ghost predicate InitialisedEntry(f: Field, d: seq<byte>, c: seq<byte>)
    requires FieldOk(f) && |d| == MemberSize(f) && |c| == SizeLen(f)
    decreases f, 1
  {
    match f.htype
    case Required => InitialisedItem(f, d)
    case Optional => InitialisedItem(f, d) && (f.sizeOffset != 0 ==> c == [0])
    case Repeated => LE(c) == 0
    case Oneof => LE(c) == 0
  }

  /** The entry with data at pData is initialised. */
  ghost predicate InitialisedIn(f: Field, m: seq<byte>, pData: int)
    requires FieldOk(f) && Placed(f, pData, |m|)
  {
    InitialisedEntry(f, DataOf(f, m, pData), CellOf(f, m, pData))
  }

  ghost predicate InitialisedAt(fields: seq<Field>, i: nat, m: seq<byte>)
    requires WellFormed(fields, |m|) && i < |fields|
    decreases fields, 0
  {
    InitialisedEntry(fields[i], Data(fields, i, m), Cell(fields, i, m))
  }

  ghost predicate Initialised(fields: seq<Field>, m: seq<byte>)
    requires WellFormed(fields, |m|)
    decreases fields, 1
  {
    forall i :: 0 <= i < |fields| ==> InitialisedAt(fields, i, m)
  }

  ghost predicate InitialisedUpTo(fields: seq<Field>, n: nat, m: seq<byte>)
    requires WellFormed(fields, |m|) && n <= |fields|
  {
    forall i :: 0 <= i < n ==> InitialisedAt(fields, i, m)
  }

  lemma {:induction false} AllInitialised(fields: seq<Field>, m: seq<byte>)
    requires WellFormed(fields, |m|) && InitialisedUpTo(fields, |fields|, m)
    ensures Initialised(fields, m)
  {
    hide WellFormed, InitialisedEntry;
  }

  // ---------------------------------------------------------------- the initializer

  /** pb_field_set_to_default: the payload of an optional field is initialised along with its has;
      the contents of arrays and unions are left alone. */
  method FieldSetToDefault(f: Field, mem: array<byte>, pData: int)
    requires FieldOk(f) && Placed(f, pData, mem.Length)
    modifies mem
    ensures OnlyField(f, pData, old(mem[..]), mem[..])
    ensures EntryView(f, mem[..], pData) == DefaultAt(f)
    ensures f.htype.Oneof? ==> LE(CellOf(f, mem[..], pData)) == 0
    ensures InitialisedIn(f, mem[..], pData)
    decreases f
  {
    hide FieldOk, MemberSize, ViewValue, ViewItems, DefaultValue, LE, ToLE, InitialisedItem;
    var pSize := pData + f.sizeOffset;
    if f.htype.Optional? && pSize != pData {
      mem[pSize] := 0;
    } else if f.htype.Repeated? || f.htype.Oneof? {
      Store(mem, pSize, SIZE_WIDTH, 0);
      ZeroCell(f, mem[..], pData);
      return;
    }
    ghost var m1 := mem[..];
    assert MemberSize(f) == f.dataSize by {
      SingleSize(f);
    }
    SetItemToDefault(f, mem, pData);
    assert DataOf(f, mem[..], pData) == mem[pData..pData + f.dataSize];
    DataKeepsCell(f, m1, mem[..], pData, f.dataSize);
  }

  lemma SingleSize(f: Field)
    requires FieldOk(f) && !f.htype.Repeated?
    ensures MemberSize(f) == f.dataSize
  {
  }

  /** The data of one field set to its default value. */
  method SetItemToDefault(f: Field, mem: array<byte>, at: int)
    requires FieldOk(f) && 0 <= at && at + f.dataSize <= mem.Length
    modifies mem
    ensures Only(old(mem[..]), mem[..], at, f.dataSize)
    ensures ViewValue(f, mem[at..at + f.dataSize]) == DefaultValue(f)
    ensures InitialisedItem(f, mem[at..at + f.dataSize])
    decreases f, 0
  {
    hide WellFormed, View, InitialisedAt;
    if f.ltype.Submessage? {
      MessageSetToDefaults(f.ptr.fields, mem, at, f.dataSize);
    } else if f.ptr.Default? {
      Fill(mem, at, f.ptr.bytes);
    } else {
      Fill(mem, at, Zeros(f.dataSize));
    }
  }

  lemma ZeroCell(f: Field, m: seq<byte>, pData: int)
    requires FieldOk(f) && Placed(f, pData, |m|) && (f.htype.Repeated? || f.htype.Oneof?)
    requires CellOf(f, m, pData) == ToLE(0, SIZE_WIDTH)
    ensures LE(CellOf(f, m, pData)) == 0
    ensures EntryView(f, m, pData) == DefaultAt(f)
  {
    hide ViewValue, WellFormed;
    PowPositive(256, SIZE_WIDTH);
    LEToLE(0, SIZE_WIDTH);
    if f.htype.Repeated? {
      assert ViewItems(f, DataOf(f, m, pData), 0) == [];
    }
  }

  /** pb_message_set_to_defaults */
  method MessageSetToDefaults(fields: seq<Field>, mem: array<byte>, at: int, ghost size: nat)
    requires WellFormed(fields, size) && 0 <= at && at + size <= mem.Length
    modifies mem
    ensures Only(old(mem[..]), mem[..], at, size)
    ensures View(fields, mem[at..at + size]) == Defaults(fields)
    ensures Initialised(fields, mem[at..at + size])
    decreases fields
  {
    hide WellFormed, Off, EntryView, ViewEntry, DefaultAt, FieldOk, Placed, SetEntry, InitialisedEntry, DataOf, CellOf;
    IsWalkable(fields, size);
    var iter := new FieldIter();
    var nonEmpty := iter.Begin(fields, at);
    if !nonEmpty {
      AllInitialised(fields, mem[at..at + size]);
      return;
    }
    while true
      invariant iter.Valid() && iter.start == fields && iter.destStruct == at && iter.pos < |fields|
      invariant Only(old(mem[..]), mem[..], at, size)
      invariant DefaultsUpTo(fields, iter.pos, mem[at..at + size])
      invariant InitialisedUpTo(fields, iter.pos, mem[at..at + size])
      decreases |fields| - iter.pos
    {
      ghost var i, m := iter.pos, mem[..];
      EntryPlaced(fields, i, m, at, size);
      FieldSetToDefault(fields[iter.pos], mem, iter.pData);
      SameLength(m, mem[..], iter.pData, MemberSize(fields[i]), iter.pSize, SizeLen(fields[i]));
      DefaultWritten(fields, i, fields[i], at + Off(fields, i), m, mem[..], at, m[at..at + size], mem[at..at + size]);
      BytesWritten(fields, i, fields[i], at + Off(fields, i), m, mem[..], at, m[at..at + size], mem[at..at + size]);
      var more := iter.Next();
      if !more {
        break;
      }
    }
    assert View(fields, mem[at..at + size]) == Defaults(fields);
    AllInitialised(fields, mem[at..at + size]);
  }

  /** One more entry is initialised. */
  lemma BytesWritten(
    fields: seq<Field>, i: nat, f: Field, pData: int, m: seq<byte>, m': seq<byte>, at: int,
    d: seq<byte>, d': seq<byte>)
    requires FieldOk(f) && Placed(f, pData, |m'|) && InitialisedIn(f, m', pData) && OnlyField(f, pData, m, m')
    requires i < |fields| && f == fields[i] && pData == at + Off(fields, i)
    requires 0 <= at && at + |d| <= |m| == |m'| && d == m[at..at + |d|] && d' == m'[at..at + |d|]
    requires WellFormed(fields, |d|) && |d'| == |d| && InitialisedUpTo(fields, i, d)
    ensures InitialisedUpTo(fields, i + 1, d')
  {
    hide WellFormed, Off, FieldOk, Placed, OnlyField, OnlyEntry, DataOf, CellOf, Data, Cell, InitialisedEntry,
      DiffersOnlyIn, InitialisedUpTo, EntryView, ViewAt;
    EntryPlaced(fields, i, m', at, |d|);
    EntryWritten(fields, i, m, m', at, |d|);
    BytesKept(fields, i, d, d');
  }

  /** The earlier entries keep their bytes, or, in a union, a zero which variable. */
  lemma BytesKept(fields: seq<Field>, i: nat, m: seq<byte>, m': seq<byte>)
    requires WellFormed(fields, |m|) && i < |fields| && |m'| == |m| && OnlyEntry(fields, i, m, m')
    requires InitialisedUpTo(fields, i, m) && InitialisedAt(fields, i, m')
    ensures InitialisedUpTo(fields, i + 1, m')
  {
    hide WellFormed, OnlyEntry, Data, Cell, InitialisedEntry, SameUnion;
    forall j | 0 <= j < i
      ensures InitialisedAt(fields, j, m')
    {
      if SameUnion(fields, i, j) {
        UnionInitialised(fields, i, j, m');
      } else {
        WriteKeepsSlices(fields, i, m, m', j);
        SameBytes(fields, j, m, m');
      }
    }
  }

  lemma {:induction false} SameBytes(fields: seq<Field>, j: nat, m: seq<byte>, m': seq<byte>)
    requires WellFormed(fields, |m|) && |m'| == |m| && j < |fields|
    requires Data(fields, j, m') == Data(fields, j, m) && Cell(fields, j, m') == Cell(fields, j, m)
    requires InitialisedAt(fields, j, m)
    ensures InitialisedAt(fields, j, m')
  {
    hide Layout, Data, Cell, InitialisedItem, InitialisedEntry;
  }

  lemma {:induction false} UnionInitialised(fields: seq<Field>, i: nat, j: nat, m: seq<byte>)
    requires WellFormed(fields, |m|) && i < |fields| && j < |fields| && SameUnion(fields, i, j)
    requires InitialisedAt(fields, i, m)
    ensures InitialisedAt(fields, j, m)
  {
    hide WellFormed, InitialisedItem;
    assert Cell(fields, j, m) == Cell(fields, i, m);
  }

  ghost predicate DefaultsUpTo(fields: seq<Field>, n: nat, m: seq<byte>)
    requires WellFormed(fields, |m|) && n <= |fields|
  {
    forall j :: 0 <= j < n ==> View(fields, m)[j] == DefaultAt(fields[j])
  }

  /** One more entry has its default. */
  lemma DefaultWritten(
    fields: seq<Field>, i: nat, f: Field, pData: int, m: seq<byte>, m': seq<byte>, at: int,
    d: seq<byte>, d': seq<byte>)
    requires FieldOk(f) && Placed(f, pData, |m'|) && OnlyField(f, pData, m, m')
    requires EntryView(f, m', pData) == DefaultAt(f) && (f.htype.Oneof? ==> LE(CellOf(f, m', pData)) == 0)
    requires i < |fields| && f == fields[i] && pData == at + Off(fields, i)
    requires 0 <= at && at + |d| <= |m| == |m'| && d == m[at..at + |d|] && d' == m'[at..at + |d|]
    requires WellFormed(fields, |d|) && |d'| == |d| && DefaultsUpTo(fields, i, d)
    ensures Only(m, m', at, |d|)
    ensures DefaultsUpTo(fields, i + 1, d')
  {
    hide WellFormed, Off, EntryView, FieldOk, Placed, View, CellOf;
    FieldWritten(fields, i, m, m', at, |d|);
  }
}
