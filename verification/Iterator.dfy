/**
 The field iterator (pb_field_iter_t): it walks a descriptor and keeps a running address.
 */
module Iterator {
  import opened Wire
  import opened Descriptor

  ghost function OffsetOf(fields: seq<Field>, i: nat): nat
    requires i <= |fields|
  {
    if i < |fields| then Off(fields, i) else LAST_FIELD.dataOffset
  }

  /** The entry answers to this tag in a search. */
  predicate Matches(f: Field, tag: nat) {
    f.tag == tag && !f.ltype.Extension?
  }

  /** What the iterator relies on: only the terminator has tag 0, and the members of a union give
      the same distance to their which variable. */
  ghost predicate Walkable(fields: seq<Field>) {
    && (forall i :: 0 <= i < |fields| ==> fields[i].tag != 0)
    && UnionsAligned(fields)
  }

  lemma IsWalkable(fields: seq<Field>, size: nat)
    requires WellFormed(fields, size)
    ensures Walkable(fields)
  {
    hide Layout, DistinctTags, RequiredCountOk, ContinuesUnion;
    forall i | 0 <= i < |fields|
      ensures fields[i].tag != 0
    {
      assert FieldOk(fields[i]);
    }
  }

  /** Where a search lands depends on the tag only, not on where it started: two iterators over one
      struct that stand on entries with the same tag are in the same state. */
  lemma SearchLandsOnce(a: FieldIter, b: FieldIter, tag: nat)
    requires a.Valid() && b.Valid() && a.start == b.start && a.destStruct == b.destStruct
    requires DistinctTags(a.start)
    requires Matches(FieldAt(a.start, a.pos), tag) && Matches(FieldAt(b.start, b.pos), tag)
    ensures a.pos == b.pos && a.pData == b.pData && a.pSize == b.pSize
    ensures a.requiredFieldIndex == b.requiredFieldIndex
  {
    hide UnionsAligned, Off;
  }

  class FieldIter {
    var start: seq<Field>
    var pos: nat
    var requiredFieldIndex: nat
    var destStruct: int
    var pData: int
    var pSize: int

    /** The address invariant: whatever steps were taken, the addresses and the count of required
        fields are those of the entry at `pos`. The terminator is reached in an empty message only. */
    ghost predicate Valid()
      reads this
    {
      && Walkable(start)
      && pos <= |start| && (pos == |start| ==> start == [])
      && pData == destStruct + OffsetOf(start, pos)
      && pSize == pData + FieldAt(start, pos).sizeOffset
      && requiredFieldIndex == RequiredBefore(start, pos)
    }

    /** The struct before pb_field_iter_begin has filled it in. */
    constructor () {
      start, pos, requiredFieldIndex, destStruct, pData, pSize := [], 0, 0, 0, 0, 0;
    }

    /** pb_field_iter_begin */
    method Begin(fields: seq<Field>, dest: int) returns (nonEmpty: bool)
      requires Walkable(fields)
      modifies this
      ensures Valid() && start == fields && destStruct == dest && pos == 0
      ensures nonEmpty <==> fields != []
    {
      start := fields;
      pos := 0;
      requiredFieldIndex := 0;
      destStruct := dest;
      pData := dest + FieldAt(fields, 0).dataOffset;
      pSize := pData + FieldAt(fields, 0).sizeOffset;
      return FieldAt(fields, 0).tag != 0;
    }

    /** pb_field_iter_next: one step, back to the first entry after the last one. */
    method Next() returns (more: bool)
      requires Valid()
      modifies this
      ensures Valid() && start == old(start) && destStruct == old(destStruct)
      ensures more <==> old(pos) + 1 < |start|
      ensures pos == if more then old(pos) + 1 else 0
    {
      var prev := FieldAt(start, pos);
      if prev.tag == 0 {
        return false;
      }
      pos := pos + 1;
      var cur := FieldAt(start, pos);
      if cur.tag == 0 {
        var nonEmpty := Begin(start, destStruct);
        return false;
      }
      var prevSize := prev.dataSize;
      var sizeMax := ComputeSizeMax();
      if prev.htype.Oneof? && cur.htype.Oneof? && cur.dataOffset == sizeMax {
        // Union members share one address, and one which variable: neither pointer moves.
        return true;
      } else if prev.atype.Static? && prev.htype.Repeated? {
        prevSize := prevSize * prev.arraySize;
      } else if prev.atype.Pointer? {
        prevSize := POINTER_SIZE;
      }
      if prev.htype.Required? {
        requiredFieldIndex := requiredFieldIndex + 1;
      }
      pData := pData + prevSize + cur.dataOffset;
      pSize := pData + cur.sizeOffset;
      return true;
    }

    /** pb_field_iter_find: a circular search from the current entry. */
    method Find(tag: nat) returns (found: bool)
      requires Valid()
      modifies this
      ensures Valid() && start == old(start) && destStruct == old(destStruct)
      ensures found ==> Matches(FieldAt(start, pos), tag)
      ensures !found ==> pos == old(pos) && !Matches(FieldAt(start, pos), tag) &&
                         forall i :: 0 <= i < |start| ==> !Matches(start[i], tag)
    {
      var begin := pos;
      ghost var seen := 0;
      while true
        invariant Valid() && start == old(start) && destStruct == old(destStruct)
        invariant seen == 0 || seen < |start|
        invariant pos == if begin + seen < |start| || seen == 0 then begin + seen else begin + seen - |start|
        invariant forall i :: begin <= i < begin + seen && i < |start| ==> !Matches(start[i], tag)
        invariant forall i :: 0 <= i < begin + seen - |start| ==> !Matches(start[i], tag)
        decreases |start| - seen
      {
        if Matches(FieldAt(start, pos), tag) {
          return true;
        }
        var more := Next();
        seen := seen + 1;
        if pos == begin {
          return false;
        }
      }
    }

    /** find_extension_field: a circular search for the placeholder of the extensions. */
    method FindExtension() returns (found: bool)
      requires Valid()
      modifies this
      ensures Valid() && start == old(start) && destStruct == old(destStruct)
      ensures found ==> FieldAt(start, pos).ltype.Extension?
      ensures !found ==> pos == old(pos) && forall i :: 0 <= i < |start| ==> !start[i].ltype.Extension?
    {
      var begin := pos;
      ghost var seen := 0;
      while true
        invariant Valid() && start == old(start) && destStruct == old(destStruct)
        invariant seen == 0 || seen < |start|
        invariant pos == if begin + seen < |start| || seen == 0 then begin + seen else begin + seen - |start|
        invariant forall i :: begin <= i < begin + seen && i < |start| ==> !start[i].ltype.Extension?
        invariant forall i :: 0 <= i < begin + seen - |start| ==> !start[i].ltype.Extension?
        decreases |start| - seen
      {
        if FieldAt(start, pos).ltype.Extension? {
          return true;
        }
        var more := Next();
        seen := seen + 1;
        if pos == begin {
          return false;
        }
      }
    }
  }

  method ComputeSizeMax() returns (m: nat)
    ensures m == SizeMax()
  {
    m := Pow(256, SIZE_WIDTH);
    m := m - 1;
  }
}
