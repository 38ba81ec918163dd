/**
 Messages that do not survive the round trip: one witness for each half of the condition.
 */
module LostMessages {
  import opened Wire
  import opened Descriptor
  import opened State
  import opened DecodeSpec
  import opened EncodeSpec
  import opened RoundTrip
  import opened IntactMessages

  // ---------------------------------------------------------------- a has-less submessage

  /** message Inner { optional int8 flag = 1; } and message Outer { Inner inner = 1; } without has */
  const FLAG: Field := Field(1, Varint, Optional, Static, 1, -1, 1, 0, Null)
  const INNER: Field := Field(1, Submessage, Optional, Static, 0, 0, 2, 0, SubFields([FLAG]))

  const LOST: seq<byte> := [1, 0]

  lemma ExampleWellFormed()
    ensures WellFormed([FLAG], 2) && WellFormed([INNER], 2)
    ensures Data([INNER], 0, LOST) == LOST && Cell([INNER], 0, LOST) == []
    ensures Data([FLAG], 0, LOST) == [0] && Cell([FLAG], 0, LOST) == [1]
  {
    assert WellFormed([FLAG], 2);
    assert FieldOk(INNER);
  }

  lemma {:induction false} ExampleNotWritten()
    requires WellFormed([FLAG], 2) && WellFormed([INNER], 2)
    ensures Enc([INNER], LOST) == Some([])
  {
    hide Layout, FieldOk, Pow, EncTagged;
    ExampleWellFormed();
    assert IsDefault(FLAG, [0]);
    assert IsDefault(INNER, LOST);
    assert EncField([INNER], 0, LOST) == Some([]);
    assert EncUpTo([INNER], 0, LOST) == Some([]);
    var nothing: seq<byte> := [];
    assert nothing + nothing == nothing;
    assert EncUpTo([INNER], |[INNER]|, LOST) == Some(nothing);
  }

  lemma {:induction false} ExampleNotIntact()
    requires WellFormed([FLAG], 2) && WellFormed([INNER], 2)
    ensures !Intact([INNER], LOST)
  {
    hide Layout, FieldOk, Pow;
    ExampleWellFormed();
    assert IsDefault(FLAG, [0]);
    assert IsDefault(INNER, LOST);
    assert !QuietEntry(FLAG, [0], [1]);
    assert !Quiet([FLAG], LOST);
    assert !QuietItem(INNER, LOST);
    assert !IntactAt([INNER], 0, LOST);
  }

  /** A has-less submessage whose only content is a present zero is not written at all, and comes
      back as a different message. */
  lemma ZeroSubmessageLost()
    ensures WellFormed([INNER], 2)
    ensures Enc([INNER], LOST) == Some([])
    ensures Decode([INNER], []).Some?
    ensures Entries(Decode([INNER], []).value.0) != Entries(View([INNER], LOST))
  {
    hide WellFormed, Enc, Intact, Entries, Defaults, Short;
    ExampleWellFormed();
    ExampleNotWritten();
    ExampleNotIntact();
    SmallIsShort([INNER], LOST);
    RoundTripExact([INNER], LOST, []);
    assert Loop([INNER], [], Defaults([INNER]), {}) == Some(Outcome(Defaults([INNER]), {}, []));
  }

  // ---------------------------------------------------------------- a string without terminator

  /** message Label { required string name = 1; } with room for one character */
  const NAME: Field := Field(1, String, Required, Static, 0, 0, 1, 0, Null)

  const FULL: seq<byte> := [65]

  lemma FullWellFormed()
    ensures WellFormed([NAME], 1)
    ensures Data([NAME], 0, FULL) == FULL && Cell([NAME], 0, FULL) == []
  {
    assert FieldOk(NAME);
  }

  lemma {:induction false} FullWritten()
    requires WellFormed([NAME], 1)
    ensures Enc([NAME], FULL) == Some([10, 1, 65])
  {
    hide Layout, FieldOk, Pow;
    FullWellFormed();
    assert CStr(FULL) == FULL by {
      CStrUnique(FULL, 1);
    }
    assert EncVarint(1) == [1] && Lengthed(FULL) == [1, 65];
    assert EncItem(NAME, FULL) == Some([1, 65]);
    assert EncTag(WireTypeOf(NAME.ltype), NAME.tag) == [10] && [10] + [1, 65] == [10, 1, 65];
    assert EncTagged(NAME, FULL) == Some([10, 1, 65]);
    assert EncField([NAME], 0, FULL) == Some([10, 1, 65]);
    assert EncUpTo([NAME], 0, FULL) == Some([]);
    EncUpToStep([NAME], 1, FULL);
    var nothing: seq<byte> := [];
    assert nothing + [10, 1, 65] == [10, 1, 65];
    assert Enc([NAME], FULL) == EncUpTo([NAME], |[NAME]|, FULL);
  }

  lemma {:induction false} FullHasNoEcho()
    requires WellFormed([NAME], 1)
    ensures Echo([NAME], FULL).None?
  {
    hide Layout, FieldOk, Pow;
    FullWellFormed();
    assert EchoItem(NAME, FULL).None?;
    assert EchoAt([NAME], 0, FULL).None?;
    EchoUpToStep([NAME], 1, FULL);
    assert Echo([NAME], FULL) == EchoUpTo([NAME], |[NAME]|, FULL);
  }

  /** A string that fills its buffer is written, but its encoding is refused by the decoder. */
  lemma FullStringRefused()
    ensures WellFormed([NAME], 1)
    ensures Enc([NAME], FULL) == Some([10, 1, 65])
    ensures Decode([NAME], [10, 1, 65]).None?
  {
    hide WellFormed, Enc, Echo, Decode, Short;
    FullWellFormed();
    FullWritten();
    FullHasNoEcho();
    SmallIsShort([NAME], FULL);
    MessageDecodes([NAME], FULL);
  }
}
