/**
 The worked examples of the Protocol Buffers encoding guide, byte by byte.
 */
module GuideExamples {
  import opened Wire
  import opened Descriptor
  import opened Scalars
  import opened State
  import opened EncodeSpec

  /** A required field of the given type and size; only its number, type and size matter here. */
  function Plain(tag: nat, ltype: LType, size: nat): Field {
    Field(tag, ltype, Required, Static, 0, 0, size, 0, Null)
  }

  lemma Varints()
    ensures EncVarint(1) == [1] && EncVarint(3) == [3]
    ensures EncVarint(150) == [0x96, 1]
    ensures EncVarint(270) == [0x8E, 2]
    ensures EncVarint(86942) == [0x9E, 0xA7, 5]
  {
    assert EncVarint(86942) == [0x9E] + EncVarint(679) && EncVarint(679) == [0xA7] + EncVarint(5);
  }

  lemma Tags()
    ensures EncTag(0, 1) == [0x08] && EncTag(1, 1) == [0x09] && EncTag(5, 1) == [0x0D]
    ensures EncTag(2, 2) == [0x12] && EncTag(2, 4) == [0x22]
  {
  }

  lemma Numbers(a: byte)
    ensures LE([a, 0, 0, 0]) == a
    ensures LE([a, 1, 0, 0]) == a + 256
    ensures LE([a, 0x53, 1, 0]) == a + 0x15300
  {
    assert LE([0, 0]) == 0 && LE([0]) == 0;
    assert [a, 0, 0, 0][1..] == [0, 0, 0] && [a, 1, 0, 0][1..] == [1, 0, 0];
    assert [a, 0x53, 1, 0][1..] == [0x53, 1, 0] && [0x53, 1, 0][1..] == [1, 0] && [1, 0][1..] == [0];
    assert [0, 0, 0][1..] == [0, 0] && [1, 0, 0][1..] == [0, 0] && [0, 0][1..] == [0];
  }

  /** "A Simple Message": 150 in field 1 is 08 96 01. */
  lemma SimpleMessage()
    ensures EncTagged(Plain(1, Uvarint, 4), [150, 0, 0, 0]) == Some([0x08, 0x96, 1])
  {
    hide EncVarint, EncTag, LE;
    Varints();
    Tags();
    Numbers(150);
    assert [0x08] + [0x96, 1] == [0x08, 0x96, 1];
  }

  /** "Non-varint Numbers": fixed32 has wire type 5 and fixed64 wire type 1, lowest byte first. */
  lemma FixedNumbers()
    ensures EncTagged(Plain(1, Fixed32, 4), [4, 3, 2, 1]) == Some([0x0D, 4, 3, 2, 1])
    ensures EncTagged(Plain(1, Fixed64, 8), [8, 7, 6, 5, 4, 3, 2, 1]) == Some([0x09, 8, 7, 6, 5, 4, 3, 2, 1])
  {
    hide EncVarint, EncTag, LE;
    Tags();
    assert [0x0D] + [4, 3, 2, 1] == [0x0D, 4, 3, 2, 1];
    assert [0x09] + [8, 7, 6, 5, 4, 3, 2, 1] == [0x09, 8, 7, 6, 5, 4, 3, 2, 1];
  }

  const PACKED: Field := Field(4, Uvarint, Repeated, Static, 4, -4, 4, 3, Null)

  const PACKED_DATA: seq<byte> := [3, 0, 0, 0, 0x0E, 1, 0, 0, 0x9E, 0x53, 1, 0]

  lemma PackedItems()
    requires FieldOk(PACKED)
    ensures EncItem(PACKED, Item(PACKED_DATA, 4, 0, 3)) == Some([3])
    ensures EncItem(PACKED, Item(PACKED_DATA, 4, 1, 3)) == Some([0x8E, 2])
    ensures EncItem(PACKED, Item(PACKED_DATA, 4, 2, 3)) == Some([0x9E, 0xA7, 5])
  {
    hide EncVarint, LE, FieldOk, Pow;
    Varints();
    Numbers(3);
    Numbers(0x0E);
    Numbers(0x9E);
    assert PACKED_DATA[0..4] == [3, 0, 0, 0];
    assert PACKED_DATA[4..8] == [0x0E, 1, 0, 0];
    assert PACKED_DATA[8..12] == [0x9E, 0x53, 1, 0];
  }

  /** "Packed Repeated Fields": 3, 270 and 86942 in field 4 are 22 06 03 8E 02 9E A7 05. */
  lemma PackedArray()
    ensures FieldOk(PACKED)
    ensures EncArray(PACKED, PACKED_DATA, 3) == Some([0x22, 6, 3, 0x8E, 2, 0x9E, 0xA7, 5])
  {
    hide EncVarint, EncTag, EncItem, LE, Pow, Item;
    PackedItems();
    Tags();
    assert EncItems(PACKED, PACKED_DATA, 0, false) == Some([]);
    var nothing: seq<byte> := [];
    assert nothing + [3] == [3];
    assert EncItems(PACKED, PACKED_DATA, 1, false) == Some([3]);
    assert [3] + [0x8E, 2] == [3, 0x8E, 2];
    assert EncItems(PACKED, PACKED_DATA, 2, false) == Some([3, 0x8E, 2]);
    assert [3, 0x8E, 2] + [0x9E, 0xA7, 5] == [3, 0x8E, 2, 0x9E, 0xA7, 5];
    assert EncVarint(6) == [6] by {
      VarintSix();
    }
    assert Lengthed([3, 0x8E, 2, 0x9E, 0xA7, 5]) == [6, 3, 0x8E, 2, 0x9E, 0xA7, 5];
    assert [0x22] + [6, 3, 0x8E, 2, 0x9E, 0xA7, 5] == [0x22, 6, 3, 0x8E, 2, 0x9E, 0xA7, 5];
  }

  lemma VarintSix()
    ensures EncVarint(6) == [6]
  {
  }
}
