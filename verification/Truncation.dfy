/**
 Messages that are cut off: exactly which prefixes of a message the decoder accepts.
 */
module Truncation {
  import opened Wire
  import opened Descriptor
  import opened State
  import opened DecodeSpec
  import opened DecodeLaws
  import opened RepeatedLaws

  // ---------------------------------------------------------------- where a cut falls

  /** How many bytes the first record of s takes. */
  function RecordLength(fields: seq<Field>, s: seq<byte>): (k: nat)
    requires ParseRecord(fields, s).Record?
    ensures 0 < k <= |s| && s[k..] == ParseRecord(fields, s).rest
  {
    var rest := ParseRecord(fields, s).rest;
    assert |rest| < |s| && rest == s[|s| - |rest|..];
    |s| - |rest|
  }

  /** How many of them belong to its tag. */
  function TagLength(s: seq<byte>): (k: nat)
    requires DecodeTag(s).Tag?
    ensures 0 < k <= |s|
  {
    |s| - |DecodeTag(s).rest|
  }

  /** The length of the complete records among the first n bytes. */
  ghost function Whole(fields: seq<Field>, s: seq<byte>, n: nat): (w: nat)
    requires Framed(fields, s) && n <= |s|
    ensures w <= n
    decreases |s|
  {
    if s == [] || RecordLength(fields, s) > n then 0
    else
      var k := RecordLength(fields, s);
      k + Whole(fields, s[k..], n - k)
  }

  /** The cut after n bytes lies between two records or strictly inside a tag. */
  ghost predicate CleanCut(fields: seq<Field>, s: seq<byte>, n: nat)
    requires Framed(fields, s) && n <= |s|
    decreases |s|
  {
    if s == [] then true
    else
      var k := RecordLength(fields, s);
      if k <= n then CleanCut(fields, s[k..], n - k) else n < TagLength(s)
  }

  // ---------------------------------------------------------------- the parts of a record, cut

  lemma {:induction false} VarintCut(s: seq<byte>, limit: nat, n: nat)
    requires RawVarint(s, limit).Some? && n < |s| - |RawVarint(s, limit).value.1|
    ensures RawVarint(s[..n], limit).None?
    decreases limit
  {
    if n > 0 && s[0] >= 128 {
      VarintCut(s[1..], limit - 1, n - 1);
      assert s[..n][1..] == s[1..][..n - 1];
    }
  }

  lemma {:induction false} SkipCut(s: seq<byte>, n: nat)
    requires SkipVarint(s).Some? && n < |s| - |SkipVarint(s).value|
    ensures SkipVarint(s[..n]).None?
    decreases |s|
  {
    if n > 0 && s[0] >= 128 {
      SkipCut(s[1..], n - 1);
      assert s[..n][1..] == s[1..][..n - 1];
    }
  }

  lemma ChunkCut(s: seq<byte>, n: nat)
    requires TakeChunk(s).Some? && n < |s| - |TakeChunk(s).value.1|
    ensures TakeChunk(s[..n]).None?
  {
    hide RawVarint;
    var head := |s| - |DecVarint32(s).value.1|;
    if n < head {
      VarintCut(s, 5, n);
    } else {
      VarintAlone(s, 5, n);
      assert |s[..n][head..]| == n - head;
    }
  }

  lemma FrameCut(how: Framing, s: seq<byte>, n: nat)
    requires Frame(how, s).Some? && n < |s| - |Frame(how, s).value.1|
    ensures Frame(how, s[..n]).None?
  {
    hide RawVarint, SkipVarint, TakeChunk;
    match how
    case AsNumber => VarintCut(s, 10, n);
    case AsBits(_) =>
    case AsChunk => ChunkCut(s, n);
    case AsSkippedVarint => SkipCut(s, n);
  }

  /** A record cut inside its tag looks like the end of the message; cut anywhere behind the tag it
      is malformed. */
  lemma RecordCut(fields: seq<Field>, s: seq<byte>, n: nat)
    requires ParseRecord(fields, s).Record? && 0 < n < RecordLength(fields, s)
    ensures ParseRecord(fields, s[..n]) == if n < TagLength(s) then End([]) else Malformed
  {
    hide Frame, RawVarint, FramingFor;
    var Tag(tag, wireType, s') := DecodeTag(s);
    var t := TagLength(s);
    if n < t {
      VarintCut(s, 5, n);
      RawVarintLimit(s, 5, 5);
    } else {
      TagAlone(s, n);
      FrameCut(FramingFor(fields, tag, wireType).value, s', n - t);
      assert s[..n][t..] == s'[..n - t];
    }
  }

  // ---------------------------------------------------------------- the message, cut

  lemma PrefixSplit(s: seq<byte>, k: nat, n: nat)
    requires k <= n <= |s|
    ensures s[..n] == s[..k] + s[k..][..n - k]
  {
  }

  /** The field loop on a cut message does what it does on the complete records in it, and then
      ends at a clean cut and fails at any other. */
  lemma {:induction false} LoopCut(fields: seq<Field>, s: seq<byte>, n: nat, st: seq<FieldState>, seen: set<nat>)
    requires |st| == |fields| && Framed(fields, s) && n <= |s|
    ensures Loop(fields, s[..n], st, seen) ==
            if CleanCut(fields, s, n) then Loop(fields, s[..Whole(fields, s, n)], st, seen) else None
    decreases |s|
  {
    hide ParseRecord, ApplyRecord, DecodeTag, Loop, TagLength;
    if s == [] {
      assert s[..n] == s[..Whole(fields, s, n)];
    } else if RecordLength(fields, s) <= n {
      var Record(tag, p, rest) := ParseRecord(fields, s);
      var k := RecordLength(fields, s);
      RecordAlone(fields, s);
      var w := Whole(fields, rest, n - k);
      PrefixSplit(s, k, n);
      PrefixSplit(s, k, k + w);
      LoopRecord(fields, s[..k], tag, p, rest[..n - k], st, seen);
      LoopRecord(fields, s[..k], tag, p, rest[..w], st, seen);
      var next := ApplyRecord(fields, tag, p, st, seen);
      if next.Some? {
        LoopCut(fields, rest, n - k, next.value.0, next.value.1);
      }
    } else {
      LoopCutRecord(fields, s, n, st, seen);
    }
  }

  lemma LoopCutRecord(fields: seq<Field>, s: seq<byte>, n: nat, st: seq<FieldState>, seen: set<nat>)
    requires |st| == |fields| && ParseRecord(fields, s).Record? && n < RecordLength(fields, s)
    ensures Loop(fields, s[..n], st, seen) ==
            if n < TagLength(s) then Loop(fields, s[..0], st, seen) else None
  {
    hide ParseRecord, ApplyRecord, DecodeTag;
    TagInRecord(fields, s);
    if n > 0 {
      RecordCut(fields, s, n);
    }
  }

  lemma TagInRecord(fields: seq<Field>, s: seq<byte>)
    requires ParseRecord(fields, s).Record?
    ensures DecodeTag(s).Tag? && TagLength(s) > 0
  {
    hide DecodeTag;
  }

  /** Truncation. A message cut off after n bytes is accepted if and only if the cut is clean and the
      complete records before it are accepted; then they are what it decodes to. */
  lemma TruncatedMessage(fields: seq<Field>, s: seq<byte>, n: nat, st: seq<FieldState>)
    requires Framed(fields, s) && n <= |s|
    ensures DecodeInto(fields, s[..n], st) ==
            if CleanCut(fields, s, n) then DecodeInto(fields, s[..Whole(fields, s, n)], st) else None
  {
    hide Loop, Framed, CleanCut, Whole;
    if |st| == |fields| {
      LoopCut(fields, s, n, st, {});
    }
  }

  /** For a message that decodes and has no required fields, the cut alone decides. */
  lemma TruncationAccepted(fields: seq<Field>, s: seq<byte>, n: nat, st: seq<FieldState>)
    requires Framed(fields, s) && n <= |s| && DecodeInto(fields, s, st).Some?
    requires forall i :: 0 <= i < |fields| ==> !fields[i].htype.Required?
    ensures DecodeInto(fields, s[..n], st).Some? <==> CleanCut(fields, s, n)
  {
    hide Loop, Framed, CleanCut, Whole;
    TruncatedMessage(fields, s, n, st);
    var w := Whole(fields, s, n);
    WholeFramed(fields, s, n);
    LoopConcat(fields, s[..w], s[w..], st, {});
    assert s[..w] + s[w..] == s;
  }

  lemma {:induction false} WholeFramed(fields: seq<Field>, s: seq<byte>, n: nat)
    requires Framed(fields, s) && n <= |s|
    ensures Framed(fields, s[..Whole(fields, s, n)])
    decreases |s|
  {
    hide ParseRecord;
    if s != [] && RecordLength(fields, s) <= n {
      var Record(tag, p, rest) := ParseRecord(fields, s);
      var k := RecordLength(fields, s);
      var w := Whole(fields, rest, n - k);
      RecordAlone(fields, s);
      WholeFramed(fields, rest, n - k);
      PrefixSplit(s, k, k + w);
      RecordFramed(fields, s[..k], tag, p);
      FramedConcat(fields, s[..k], rest[..w]);
    }
  }

  // ---------------------------------------------------------------- a witness

  /** message Far { uint8 value = 16; }: its tag takes two bytes. */
  const FAR: Field := Field(16, Uvarint, Optional, Static, 0, 0, 1, 0, Null)

  const FIVE: seq<byte> := [128, 1, 5]

  lemma FarTag()
    ensures EncTag(0, 16) == [128, 1] && EncVarint(5) == [5]
    ensures EncTag(0, 16) + EncVarint(5) == FIVE
  {
    assert EncVarint(128) == [128] + EncVarint(1);
  }

  lemma FarFrames()
    ensures Frame(AsNumber, EncVarint(5)) == Some((Number(5), []))
  {
    hide EncVarint, RawVarint;
    VarintRoundTrip(5, []);
    assert EncVarint(5) + [] == EncVarint(5);
  }

  lemma FarRecord()
    ensures ParseRecord([FAR], FIVE) == Record(16, Number(5), [])
    ensures DecodeTag(FIVE) == Tag(16, 0, EncVarint(5))
  {
    hide EncVarint, EncTag, RawVarint, Frame, DecodeTag, ParseRecord;
    FarTag();
    FarFrames();
    TagRoundTrip(0, 16, EncVarint(5));
    ParseTagged([FAR], 0, 0, EncVarint(5));
  }

  /** The message 16: 5 without its last two bytes ends inside the tag. It is accepted, as empty. */
  lemma CutOffTagAccepted()
    ensures Framed([FAR], FIVE)
    ensures CleanCut([FAR], FIVE, 1) && Whole([FAR], FIVE, 1) == 0
    ensures Decode([FAR], FIVE[..1]) == Some((Defaults([FAR]), []))
  {
    hide Defaults, Loop, ParseRecord, DecodeTag, EncVarint, EncTag;
    FarTag();
    FarRecord();
    LoopCut([FAR], FIVE, 1, Defaults([FAR]), {});
    NothingLoops([FAR], Defaults([FAR]));
    assert [FAR][0] == FAR;
  }

  lemma NothingLoops(fields: seq<Field>, st: seq<FieldState>)
    requires |st| == |fields|
    ensures Loop(fields, [], st, {}) == Some(Outcome(st, {}, []))
  {
  }
}
