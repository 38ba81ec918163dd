/**
 What the bytes of a C struct mean under its descriptor.

 FieldState is what the decoder can tell apart; it keeps the payload of an absent optional field,
 because a later submessage is merged into it. Entry is the protobuf message itself.
 */
module State {
  import opened Wire
  import opened Descriptor

  datatype Value =
    | Word(raw: seq<byte>)
    | Text(chars: seq<byte>)
    | Blob(bytes: seq<byte>)
    | Message(fields: seq<FieldState>)

  datatype FieldState =
    | One(value: Value)
    | Opt(has: bool, value: Value)
    | Many(count: nat, items: seq<Value>)
    | Alt(active: Option<Value>)

  function Min(a: nat, b: nat): nat {
    if a < b then a else b
  }

  /** The characters before the first NUL. */
  function CStr(s: seq<byte>): (r: seq<byte>)
    ensures |r| <= |s| && r == s[..|r|]
    ensures 0 !in r
    ensures |r| < |s| ==> s[|r|] == 0
  {
    if s == [] || s[0] == 0 then [] else [s[0]] + CStr(s[1..])
  }

  lemma {:induction false} CStrUnique(s: seq<byte>, n: nat)
    requires n <= |s| && 0 !in s[..n] && (n < |s| ==> s[n] == 0)
    ensures CStr(s) == s[..n]
  {
    if n > 0 {
      assert s[0] in s[..n];
      assert forall b :: b in s[1..][..n - 1] ==> b in s[..n];
      CStrUnique(s[1..], n - 1);
      assert s[..n] == [s[0]] + s[1..][..n - 1];
    }
  }

  // ---------------------------------------------------------------- slices of the struct

  ghost function Data(fields: seq<Field>, i: nat, m: seq<byte>): (d: seq<byte>)
    requires WellFormed(fields, |m|) && i < |fields|
    ensures |d| == MemberSize(fields[i])
  {
    m[Off(fields, i)..Off(fields, i) + MemberSize(fields[i])]
  }

  /** The has, count or which variable; nothing for an entry that has none. */
  ghost function Cell(fields: seq<Field>, i: nat, m: seq<byte>): (c: seq<byte>)
    requires WellFormed(fields, |m|) && i < |fields|
    ensures |c| == SizeLen(fields[i])
  {
    if SizeLen(fields[i]) == 0 then []
    else m[SizeAt(fields, i)..SizeAt(fields, i) + SizeLen(fields[i])]
  }

  lemma ItemBounds(size: nat, k: nat, n: nat)
    requires k < n
    ensures 0 <= k * size <= k * size + size <= size * n
  {
    assert (k + 1) * size <= n * size;
  }

  /** Element k of an array of n elements. */
  ghost function Item(d: seq<byte>, size: nat, k: nat, n: nat): (r: seq<byte>)
    requires k < n && |d| == size * n
    ensures |r| == size
  {
    ItemBounds(size, k, n);
    d[k * size..k * size + size]
  }

  lemma SubSlice(m: seq<byte>, a: int, n: nat, o: int, k: nat)
    requires 0 <= a && a + n <= |m| && 0 <= o && o + k <= n
    ensures m[a..a + n][o..o + k] == m[a + o..a + o + k]
  {
    var x, y := m[a..a + n][o..o + k], m[a + o..a + o + k];
    assert |x| == |y|;
    forall i | 0 <= i < |x|
      ensures x[i] == y[i]
    {
    }
  }

  /** Element k of the array at address `at`. */
  lemma ItemSlice(m: seq<byte>, at: int, size: nat, k: nat, n: nat)
    requires k < n && 0 <= at && at + size * n <= |m|
    ensures at <= at + k * size <= at + k * size + size <= at + size * n
    ensures Item(m[at..at + size * n], size, k, n) == m[at + k * size..at + k * size + size]
    ensures (k + 1) * size == k * size + size
  {
    ItemBounds(size, k, n);
    SubSlice(m, at, size * n, k * size, size);
  }

  // ---------------------------------------------------------------- views

  function BytesPayload(d: seq<byte>): seq<byte> {
    if |d| < SIZE_WIDTH then [] else d[SIZE_WIDTH..Min(SIZE_WIDTH + LE(d[..SIZE_WIDTH]), |d|)]
  }

  /** The value of a field that is not a submessage. */
  function LeafValue(ltype: LType, d: seq<byte>): Value {
    match ltype
    case Bytes => Blob(BytesPayload(d))
    case String => Text(CStr(d))
    case FixedLengthBytes => Blob(d)
    case _ => Word(d)
  }

  /** The value held by one item of field f. */
  ghost function ViewValue(f: Field, d: seq<byte>): Value
    requires FieldOk(f) && |d| == f.dataSize
    decreases f, 0
  {
    if f.ltype.Submessage? then Message(View(f.ptr.fields, d)) else LeafValue(f.ltype, d)
  }

  /** The items of an array that holds `count` of them. */
  ghost function ViewItems(f: Field, d: seq<byte>, count: nat): (items: seq<Value>)
    requires FieldOk(f) && |d| == f.dataSize * f.arraySize
    ensures |items| == Min(count, f.arraySize)
    decreases f, 1
  {
    seq(Min(count, f.arraySize), k requires 0 <= k < Min(count, f.arraySize) =>
      ViewValue(f, Item(d, f.dataSize, k, f.arraySize)))
  }

  /** The state of an entry with data d and size variable c. */
  ghost function ViewEntry(f: Field, d: seq<byte>, c: seq<byte>): FieldState
    requires FieldOk(f) && |d| == MemberSize(f) && |c| == SizeLen(f)
    decreases f, 2
  {
    match f.htype
    case Required => One(ViewValue(f, d))
    case Optional => if f.sizeOffset == 0 then One(ViewValue(f, d)) else Opt(c[0] != 0, ViewValue(f, d))
    case Repeated => Many(LE(c), ViewItems(f, d, LE(c)))
    case Oneof => if LE(c) == f.tag then Alt(Some(ViewValue(f, d))) else Alt(None)
  }

  ghost function ViewAt(fields: seq<Field>, i: nat, m: seq<byte>): FieldState
    requires WellFormed(fields, |m|) && i < |fields|
    decreases fields, 0
  {
    ViewEntry(fields[i], Data(fields, i, m), Cell(fields, i, m))
  }

  ghost function View(fields: seq<Field>, m: seq<byte>): (st: seq<FieldState>)
    requires WellFormed(fields, |m|)
    ensures |st| == |fields|
    decreases fields, 1
  {
    seq(|fields|, i requires 0 <= i < |fields| => ViewAt(fields, i, m))
  }

  // ---------------------------------------------------------------- defaults

  function SubFieldsOf(f: Field): seq<Field> {
    if f.ptr.SubFields? then f.ptr.fields else []
  }

  function DefaultValue(f: Field): Value
    decreases f, 0
  {
    if f.ltype.Submessage? then Message(if f.ptr.SubFields? then Defaults(f.ptr.fields) else [])
    else LeafValue(f.ltype, if f.ptr.Default? then f.ptr.bytes else Zeros(f.dataSize))
  }

  function DefaultAt(f: Field): FieldState
    decreases f, 1
  {
    match f.htype
    case Required => One(DefaultValue(f))
    case Optional => if f.sizeOffset == 0 then One(DefaultValue(f)) else Opt(false, DefaultValue(f))
    case Repeated => Many(0, [])
    case Oneof => Alt(None)
  }

  /** The state of a freshly initialised message. */
  function Defaults(fields: seq<Field>): (st: seq<FieldState>)
    ensures |st| == |fields|
    decreases fields, 2
  {
    seq(|fields|, i requires 0 <= i < |fields| => DefaultAt(fields[i]))
  }

  // ---------------------------------------------------------------- the message

  /** The protobuf message: payloads of absent fields do not count. */
  datatype Content = Scalar(value: Value) | Nested(entries: seq<Entry>)
  datatype Entry = Absent | Single(content: Content) | List(contents: seq<Content>)

  ghost function Contents(v: Value): Content
    decreases v
  {
    if v.Message? then Nested(Entries(v.fields)) else Scalar(v)
  }

  ghost function EntryOf(fs: FieldState): Entry
    decreases fs
  {
    match fs
    case One(v) => Single(Contents(v))
    case Opt(has, v) => if has then Single(Contents(v)) else Absent
    case Many(_, items) => List(seq(|items|, k requires 0 <= k < |items| => Contents(items[k])))
    case Alt(None) => Absent
    case Alt(Some(v)) => Single(Contents(v))
  }

  ghost function Entries(st: seq<FieldState>): (es: seq<Entry>)
    ensures |es| == |st|
    decreases st
  {
    seq(|st|, i requires 0 <= i < |st| => EntryOf(st[i]))
  }

  // ---------------------------------------------------------------- writes to the struct

  /** m' differs from m at most in two ranges. */
  ghost predicate DiffersOnlyIn(m: seq<byte>, m': seq<byte>, a: int, la: nat, c: int, lc: nat) {
    && |m'| == |m|
    && forall x :: 0 <= x < |m| && !(a <= x < a + la) && !(c <= x < c + lc) ==> m'[x] == m[x]
  }

  /** m' differs from m at most in the data and the size variable of entry i. */
  ghost predicate OnlyEntry(fields: seq<Field>, i: nat, m: seq<byte>, m': seq<byte>)
    requires i < |fields|
  {
    DiffersOnlyIn(m, m', Off(fields, i), MemberSize(fields[i]), SizeAt(fields, i), SizeLen(fields[i]))
  }

  lemma RangeKept(m: seq<byte>, m': seq<byte>, a: int, la: nat, c: int, lc: nat, lo: int, len: nat)
    requires DiffersOnlyIn(m, m', a, la, c, lc)
    requires Apart(a, la, lo, len) && (lc > 0 ==> Apart(c, lc, lo, len))
    requires 0 <= lo && lo + len <= |m|
    ensures m'[lo..lo + len] == m[lo..lo + len]
  {
  }

  /** Writing entry i leaves the data and the size variable of every other entry as they were,
      other members of its union aside. */
  lemma WriteKeepsSlices(fields: seq<Field>, i: nat, m: seq<byte>, m': seq<byte>, j: nat)
    requires WellFormed(fields, |m|) && i < |fields| && j < |fields| && j != i
    requires OnlyEntry(fields, i, m, m') && !SameUnion(fields, i, j)
    ensures Data(fields, j, m') == Data(fields, j, m)
    ensures Cell(fields, j, m') == Cell(fields, j, m)
  {
    hide Off, MemberSize, FieldOk;
    var a, la, c, lc := Off(fields, i), MemberSize(fields[i]), SizeAt(fields, i), SizeLen(fields[i]);
    EntriesApart(fields, |m|, i, j);
    RangeKept(m, m', a, la, c, lc, Off(fields, j), MemberSize(fields[j]));
    if SizeLen(fields[j]) > 0 {
      RangeKept(m, m', a, la, c, lc, SizeAt(fields, j), SizeLen(fields[j]));
    }
  }

  lemma WriteKeepsOthers(fields: seq<Field>, i: nat, m: seq<byte>, m': seq<byte>, j: nat)
    requires WellFormed(fields, |m|) && i < |fields| && j < |fields| && j != i
    requires OnlyEntry(fields, i, m, m') && !SameUnion(fields, i, j)
    ensures ViewAt(fields, j, m') == ViewAt(fields, j, m)
  {
    WriteKeepsSlices(fields, i, m, m', j);
  }

  /** With the tag of member i, or nothing, in the which variable, no other member is active. */
  lemma OtherMembersInactive(fields: seq<Field>, i: nat, m: seq<byte>, j: nat)
    requires WellFormed(fields, |m|) && i < |fields| && j < |fields| && j != i
    requires SameUnion(fields, i, j)
    requires LE(Cell(fields, i, m)) == fields[i].tag || LE(Cell(fields, i, m)) == 0
    ensures ViewAt(fields, j, m) == Alt(None)
  {
    assert Cell(fields, j, m) == Cell(fields, i, m);
    assert fields[i].tag != fields[j].tag;
    assert FieldOk(fields[j]);
  }
}
