/**
 Laws of the decoder, for every descriptor, every state and every byte string made of complete
 records.
 */
module DecodeLaws {
  import opened Wire
  import opened Descriptor
  import opened State
  import opened DecodeSpec

  // ---------------------------------------------------------------- complete records

  /** s is exactly one complete record with this tag and payload. */
  ghost predicate IsRecord(fields: seq<Field>, s: seq<byte>, tag: nat, p: Payload) {
    s != [] && ParseRecord(fields, s) == Record(tag, p, [])
  }

  /** s is made of complete records: no terminator and nothing cut off. */
  ghost predicate Framed(fields: seq<Field>, s: seq<byte>)
    decreases |s|
  {
    s == [] || (ParseRecord(fields, s).Record? && Framed(fields, ParseRecord(fields, s).rest))
  }

  lemma {:induction false} SkipVarintExtends(s: seq<byte>, t: seq<byte>)
    requires SkipVarint(s).Some?
    ensures SkipVarint(s + t) == Some(SkipVarint(s).value + t)
    decreases |s|
  {
    assert (s + t)[1..] == s[1..] + t;
    if s[0] >= 128 {
      SkipVarintExtends(s[1..], t);
    }
  }

  lemma DecVarint32Extends(s: seq<byte>, t: seq<byte>)
    requires DecVarint32(s).Some?
    ensures DecVarint32(s + t) == Some((DecVarint32(s).value.0, DecVarint32(s).value.1 + t))
  {
    RawVarintPrefix(s, 5, t);
  }

  lemma FrameExtends(how: Framing, s: seq<byte>, t: seq<byte>)
    requires Frame(how, s).Some?
    ensures Frame(how, s + t) == Some((Frame(how, s).value.0, Frame(how, s).value.1 + t))
  {
    match how
    case AsNumber => RawVarintPrefix(s, 10, t);
    case AsBits(n) =>
      assert (s + t)[..n] == s[..n] && (s + t)[n..] == s[n..] + t;
    case AsChunk =>
      DecVarint32Extends(s, t);
      var (n, rest) := DecVarint32(s).value;
      assert (rest + t)[..n] == rest[..n] && (rest + t)[n..] == rest[n..] + t;
    case AsSkippedVarint => SkipVarintExtends(s, t);
  }

  /** Where a record ends, and what it says, does not depend on what follows. */
  lemma RecordExtends(fields: seq<Field>, s: seq<byte>, t: seq<byte>)
    requires ParseRecord(fields, s).Record?
    ensures ParseRecord(fields, s + t) == ParseRecord(fields, s).(rest := ParseRecord(fields, s).rest + t)
  {
    hide DecVarint32, Frame, FramingFor;
    DecVarint32Extends(s, t);
    var (word, s') := DecVarint32(s).value;
    FrameExtends(FramingFor(fields, word / 8, word % 8).value, s', t);
  }

  lemma RecordFramed(fields: seq<Field>, s: seq<byte>, tag: nat, p: Payload)
    requires IsRecord(fields, s, tag, p)
    ensures Framed(fields, s)
  {
  }

  lemma {:induction false} FramedConcat(fields: seq<Field>, a: seq<byte>, b: seq<byte>)
    requires Framed(fields, a) && Framed(fields, b)
    ensures Framed(fields, a + b)
    decreases |a|
  {
    if a == [] {
      assert a + b == b;
    } else {
      RecordExtends(fields, a, b);
      FramedConcat(fields, ParseRecord(fields, a).rest, b);
    }
  }

  // ---------------------------------------------------------------- concatenation

  /** Running the field loop on a++b is running it on a and then on b. */
  lemma {:induction false} LoopConcat(
    fields: seq<Field>, a: seq<byte>, b: seq<byte>, st: seq<FieldState>, seen: set<nat>)
    requires |st| == |fields| && Framed(fields, a)
    ensures var r := Loop(fields, a, st, seen);
            && (r.Some? ==> r.value.rest == [])
            && Loop(fields, a + b, st, seen) ==
               if r.None? then None else Loop(fields, b, r.value.st, r.value.seen)
    decreases |a|
  {
    if a == [] {
      assert a + b == b;
    } else {
      RecordExtends(fields, a, b);
      var Record(tag, p, rest) := ParseRecord(fields, a);
      var next := ApplyRecord(fields, tag, p, st, seen);
      if next.Some? {
        LoopConcat(fields, rest, b, next.value.0, next.value.1);
      }
    }
  }

  /** The required fields seen before play no part in what the loop does to the message. */
  lemma {:induction false} LoopSeen(fields: seq<Field>, s: seq<byte>, st: seq<FieldState>, seen: set<nat>)
    requires |st| == |fields|
    ensures var r, r0 := Loop(fields, s, st, seen), Loop(fields, s, st, {});
            && (r.Some? <==> r0.Some?)
            && (r.Some? ==> r.value == Outcome(r0.value.st, seen + r0.value.seen, r0.value.rest))
    decreases |s|
  {
    hide ParseRecord, Apply, Find;
    if s != [] && ParseRecord(fields, s).Record? {
      var Record(tag, p, rest) := ParseRecord(fields, s);
      var next, next0 := ApplyRecord(fields, tag, p, st, seen), ApplyRecord(fields, tag, p, st, {});
      if next.Some? {
        LoopSeen(fields, rest, next.value.0, next.value.1);
        LoopSeen(fields, rest, next.value.0, next0.value.1);
        assert next.value.1 == seen + next0.value.1;
      }
    }
  }

  /** Merging: for a message type without required fields, decoding a++b into a message equals
      decoding a into it and then b into the result, in success and in outcome. */
  lemma DecodeConcatenation(fields: seq<Field>, a: seq<byte>, b: seq<byte>, st: seq<FieldState>)
    requires Framed(fields, a) && |st| == |fields|
    requires forall i :: 0 <= i < |fields| ==> !fields[i].htype.Required?
    ensures DecodeInto(fields, a + b, st) ==
            if DecodeInto(fields, a, st).None? then None else DecodeInto(fields, b, DecodeInto(fields, a, st).value.0)
  {
    LoopConcat(fields, a, b, st, {});
    var r := Loop(fields, a, st, {});
    if r.Some? {
      LoopSeen(fields, b, r.value.st, r.value.seen);
    }
  }

  /** With required fields the same holds of the message, and the fields may be spread over the
      two parts. */
  lemma DecodeConcatenationRequired(fields: seq<Field>, a: seq<byte>, b: seq<byte>, st: seq<FieldState>)
    requires Framed(fields, a) && |st| == |fields|
    ensures var r := Loop(fields, a, st, {});
            DecodeInto(fields, a + b, st) ==
            if r.None? then None
            else
              var r' := Loop(fields, b, r.value.st, {});
              if r'.Some? && AllRequired(fields, r.value.seen + r'.value.seen)
              then Some((r'.value.st, r'.value.rest)) else None
  {
    LoopConcat(fields, a, b, st, {});
    var r := Loop(fields, a, st, {});
    if r.Some? {
      LoopSeen(fields, b, r.value.st, r.value.seen);
    }
  }

  lemma ZeroTagEnds(fields: seq<Field>, b: seq<byte>)
    ensures ParseRecord(fields, [0] + b) == End(b)
  {
    hide Frame, FramingFor;
    assert ([0] + b)[1..] == b;
    assert RawVarint([0] + b, 5) == Some((0, b));
  }

  /** Completeness of the first part matters: behind a zero tag nothing is read any more. */
  lemma ZeroTagHidesTheRest(fields: seq<Field>, a: seq<byte>, b: seq<byte>, st: seq<FieldState>, seen: set<nat>)
    requires |st| == |fields| && Framed(fields, a)
    ensures var r := Loop(fields, a, st, seen);
            Loop(fields, a + ([0] + b), st, seen) ==
            if r.None? then None else Some(r.value.(rest := b))
  {
    hide ParseRecord, ApplyRecord;
    LoopConcat(fields, a, [0] + b, st, seen);
    ZeroTagEnds(fields, b);
  }

  // ---------------------------------------------------------------- setting entries

  lemma SetEntryPlain(fields: seq<Field>, i: nat, st: seq<FieldState>)
    requires i < |fields| == |st| && !fields[i].htype.Oneof?
    ensures forall e :: SetEntry(fields, i, e, st) == st[i := e]
  {
    forall e
      ensures SetEntry(fields, i, e, st) == st[i := e]
    {
    }
  }

  /** Of two updates of one entry, or of members of one union, only the second remains. */
  lemma SetEntryTwice(fields: seq<Field>, i: nat, e: FieldState, j: nat, e2: FieldState, st: seq<FieldState>)
    requires i < |fields| == |st| && j < |fields| && (i == j || SameUnion(fields, i, j))
    ensures SetEntry(fields, j, e2, SetEntry(fields, i, e, st)) == SetEntry(fields, j, e2, st)
  {
  }

  /** Only a submessage is decoded into what was there before. */
  lemma {:induction false} LeafIgnoresInner(f: Field, p: Payload, into: seq<FieldState>, into2: seq<FieldState>)
    requires !f.ltype.Submessage?
    ensures ItemValue(f, p, into) == ItemValue(f, p, into2)
  {
  }

  // ---------------------------------------------------------------- order of fields

  /** The two tags are stored apart: different fields that are not members of one union. */
  ghost predicate Independent(fields: seq<Field>, tag1: nat, tag2: nat) {
    var i, j := Find(fields, tag1), Find(fields, tag2);
    tag1 != tag2 && (i.Some? && j.Some? ==> !SameUnion(fields, i.value, j.value))
  }

  /** What a record does to its own entry depends on that entry only. */
  lemma ApplyLocal(fields: seq<Field>, i: nat, p: Payload, st: seq<FieldState>, st2: seq<FieldState>)
    requires i < |fields| == |st| == |st2| && st[i] == st2[i]
    ensures Apply(fields, i, p, st).Some? <==> Apply(fields, i, p, st2).Some?
    ensures Apply(fields, i, p, st).Some? ==>
              forall j :: 0 <= j < |fields| ==>
                if j == i then Apply(fields, i, p, st).value[j] == Apply(fields, i, p, st2).value[j]
                else if SameUnion(fields, i, j) then Apply(fields, i, p, st).value[j] == Alt(None)
                else Apply(fields, i, p, st).value[j] == st[j]
  {
  }

  lemma ApplyCommutes(fields: seq<Field>, i: nat, p: Payload, j: nat, q: Payload, st: seq<FieldState>)
    requires i < |fields| == |st| && j < |fields| && i != j && !SameUnion(fields, i, j)
    ensures var pq, qp := Apply(fields, i, p, st), Apply(fields, j, q, st);
            (if pq.None? then None else Apply(fields, j, q, pq.value)) ==
            (if qp.None? then None else Apply(fields, i, p, qp.value))
  {
    var pq, qp := Apply(fields, i, p, st), Apply(fields, j, q, st);
    ApplyLocal(fields, i, p, st, st);
    ApplyLocal(fields, j, q, st, st);
    if pq.Some? {
      ApplyLocal(fields, j, q, st, pq.value);
      ApplyLocal(fields, j, q, pq.value, pq.value);
    }
    if qp.Some? {
      ApplyLocal(fields, i, p, st, qp.value);
      ApplyLocal(fields, i, p, qp.value, qp.value);
    }
    if pq.Some? && qp.Some? {
      var a, b := Apply(fields, j, q, pq.value).value, Apply(fields, i, p, qp.value).value;
      assert forall k :: 0 <= k < |fields| ==> a[k] == b[k];
      assert a == b;
    }
  }

  lemma ApplyRecordCommutes(
    fields: seq<Field>, tag1: nat, p: Payload, tag2: nat, q: Payload, st: seq<FieldState>, seen: set<nat>)
    requires |st| == |fields| && Independent(fields, tag1, tag2)
    ensures var pq, qp := ApplyRecord(fields, tag1, p, st, seen), ApplyRecord(fields, tag2, q, st, seen);
            (if pq.None? then None else ApplyRecord(fields, tag2, q, pq.value.0, pq.value.1)) ==
            (if qp.None? then None else ApplyRecord(fields, tag1, p, qp.value.0, qp.value.1))
  {
    hide Apply;
    var i, j := Find(fields, tag1), Find(fields, tag2);
    if i.Some? && j.Some? {
      ApplyCommutes(fields, i.value, p, j.value, q, st);
      assert seen + {i.value} + {j.value} == seen + {j.value} + {i.value};
    }
  }

  lemma LoopRecord(
    fields: seq<Field>, r: seq<byte>, tag: nat, p: Payload, b: seq<byte>, st: seq<FieldState>, seen: set<nat>)
    requires |st| == |fields| && IsRecord(fields, r, tag, p)
    ensures Framed(fields, r)
    ensures var next := ApplyRecord(fields, tag, p, st, seen);
            Loop(fields, r + b, st, seen) ==
            if next.None? then None else Loop(fields, b, next.value.0, next.value.1)
  {
    RecordExtends(fields, r, b);
    assert [] + b == b;
  }

  /** Two neighbouring complete fields of different storage may change places, anywhere in a
      message: neither success nor the result changes. */
  lemma FieldOrderIndependence(
    fields: seq<Field>, a: seq<byte>, r1: seq<byte>, tag1: nat, p1: Payload, r2: seq<byte>, tag2: nat, p2: Payload,
    b: seq<byte>, st: seq<FieldState>)
    requires Framed(fields, a) && IsRecord(fields, r1, tag1, p1) && IsRecord(fields, r2, tag2, p2)
    requires Independent(fields, tag1, tag2)
    ensures DecodeInto(fields, a + (r1 + (r2 + b)), st) == DecodeInto(fields, a + (r2 + (r1 + b)), st)
  {
    hide Loop, ParseRecord, ApplyRecord, IsRecord, Framed, Independent;
    if |st| == |fields| {
      LoopConcat(fields, a, r1 + (r2 + b), st, {});
      LoopConcat(fields, a, r2 + (r1 + b), st, {});
      var o := Loop(fields, a, st, {});
      if o.Some? {
        var st1, seen1 := o.value.st, o.value.seen;
        LoopRecord(fields, r1, tag1, p1, r2 + b, st1, seen1);
        LoopRecord(fields, r2, tag2, p2, r1 + b, st1, seen1);
        ApplyRecordCommutes(fields, tag1, p1, tag2, p2, st1, seen1);
        var pq, qp := ApplyRecord(fields, tag1, p1, st1, seen1), ApplyRecord(fields, tag2, p2, st1, seen1);
        if pq.Some? {
          LoopRecord(fields, r2, tag2, p2, b, pq.value.0, pq.value.1);
        }
        if qp.Some? {
          LoopRecord(fields, r1, tag1, p1, b, qp.value.0, qp.value.1);
        }
      }
    }
  }

  // ---------------------------------------------------------------- unknown fields

  /** The records of s whose tags the descriptor declares. */
  ghost function KnownRecords(fields: seq<Field>, s: seq<byte>): seq<byte>
    requires Framed(fields, s)
    decreases |s|
  {
    if s == [] then []
    else
      var Record(tag, p, rest) := ParseRecord(fields, s);
      (if Find(fields, tag).Some? then s[..|s| - |rest|] else []) + KnownRecords(fields, rest)
  }

  lemma {:induction false} VarintAlone(s: seq<byte>, limit: nat, n: nat)
    requires RawVarint(s, limit).Some? && |s| - |RawVarint(s, limit).value.1| <= n <= |s|
    ensures RawVarint(s[..n], limit) ==
            Some((RawVarint(s, limit).value.0, s[..n][|s| - |RawVarint(s, limit).value.1|..]))
    decreases limit
  {
    var rest := RawVarint(s, limit).value.1;
    var k := |s| - |rest|;
    if s[0] < 128 {
      assert s[..n][1..] == s[1..n];
    } else {
      VarintAlone(s[1..], limit - 1, n - 1);
      assert s[..n][1..] == s[1..][..n - 1];
      assert s[1..][..n - 1][k - 1..] == s[..n][k..];
    }
  }

  lemma {:induction false} SkipAlone(s: seq<byte>)
    requires SkipVarint(s).Some?
    ensures SkipVarint(s[..|s| - |SkipVarint(s).value|]) == Some([])
    decreases |s|
  {
    var n := |s| - |SkipVarint(s).value|;
    if s[0] >= 128 {
      SkipAlone(s[1..]);
      assert s[..n][1..] == s[1..][..n - 1];
    }
  }

  lemma TakeChunkAlone(s: seq<byte>, n: nat)
    requires TakeChunk(s).Some? && n == |s| - |TakeChunk(s).value.1|
    ensures TakeChunk(s[..n]) == Some((TakeChunk(s).value.0, []))
  {
    hide RawVarint;
    VarintAlone(s, 5, n);
    var (len, tail) := DecVarint32(s).value;
    assert s[..n][|s| - |tail|..] == tail[..len];
    assert tail[..len][..len] == tail[..len];
  }

  lemma FrameAlone(how: Framing, s: seq<byte>, n: nat)
    requires Frame(how, s).Some? && n == |s| - |Frame(how, s).value.1|
    ensures Frame(how, s[..n]) == Some((Frame(how, s).value.0, []))
  {
    hide RawVarint, SkipVarint, TakeChunk;
    match how
    case AsNumber => VarintAlone(s, 10, n);
    case AsBits(k) => assert s[..n][..k] == s[..k];
    case AsChunk => TakeChunkAlone(s, n);
    case AsSkippedVarint => SkipAlone(s);
  }

  /** A record taken out of its surroundings is the same record. */
  lemma RecordAlone(fields: seq<Field>, s: seq<byte>)
    requires ParseRecord(fields, s).Record?
    ensures var Record(tag, p, rest) := ParseRecord(fields, s);
            IsRecord(fields, s[..|s| - |rest|], tag, p)
  {
    hide Frame, DecodeTag, FramingFor;
    var Tag(tag, wireType, s') := DecodeTag(s);
    var how := FramingFor(fields, tag, wireType).value;
    var rest := Frame(how, s').value.1;
    var n := |s| - |rest|;
    TagAlone(s, n);
    FrameAlone(how, s', |s'| - |rest|);
    assert s[..n][|s| - |s'|..] == s'[..|s'| - |rest|];
  }

  lemma TagAlone(s: seq<byte>, n: nat)
    requires DecodeTag(s).Tag? && |s| - |DecodeTag(s).rest| <= n <= |s|
    ensures DecodeTag(s[..n]) == DecodeTag(s).(rest := s[..n][|s| - |DecodeTag(s).rest|..])
  {
    hide RawVarint;
    VarintAlone(s, 5, n);
  }

  /** Unknown fields are transparent: dropping every record with an undeclared tag changes neither
      success nor the result. */
  lemma {:induction false} UnknownFieldsTransparent(
    fields: seq<Field>, s: seq<byte>, st: seq<FieldState>, seen: set<nat>)
    requires |st| == |fields| && Framed(fields, s)
    ensures Loop(fields, KnownRecords(fields, s), st, seen) == Loop(fields, s, st, seen)
    decreases |s|
  {
    hide ParseRecord, Apply;
    if s != [] {
      var Record(tag, p, rest) := ParseRecord(fields, s);
      var next := ApplyRecord(fields, tag, p, st, seen);
      if next.Some? {
        UnknownFieldsTransparent(fields, rest, next.value.0, next.value.1);
      }
      if Find(fields, tag).Some? {
        RecordAlone(fields, s);
        LoopRecord(fields, s[..|s| - |rest|], tag, p, KnownRecords(fields, rest), st, seen);
      } else {
        assert KnownRecords(fields, s) == KnownRecords(fields, rest);
      }
    }
  }

  /** The same seen as insertion: a record with an undeclared tag between complete records. */
  lemma UnknownFieldInserted(
    fields: seq<Field>, a: seq<byte>, u: seq<byte>, tag: nat, p: Payload, b: seq<byte>, st: seq<FieldState>)
    requires Framed(fields, a) && IsRecord(fields, u, tag, p) && Find(fields, tag).None?
    ensures DecodeInto(fields, a + (u + b), st) == DecodeInto(fields, a + b, st)
  {
    hide Loop, ParseRecord, Apply, IsRecord, Framed;
    if |st| == |fields| {
      LoopConcat(fields, a, u + b, st, {});
      LoopConcat(fields, a, b, st, {});
      var o := Loop(fields, a, st, {});
      if o.Some? {
        LoopRecord(fields, u, tag, p, b, o.value.st, o.value.seen);
      }
    }
  }

  // ---------------------------------------------------------------- payloads of undeclared fields

  /** By the wire type alone, a payload at the start of s takes k bytes: a varint of any length, eight
      bytes, a length and that many bytes, or four bytes. The other wire types have no payload. */
  ghost predicate PayloadTakes(wireType: nat, s: seq<byte>, k: nat) {
    match wireType
    case 0 => VarintEnds(s, k)
    case 1 => k == 8 <= |s|
    case 2 =>
      var length := DecVarint32(s);
      length.Some? && k == |s| - |length.value.1| + length.value.0 <= |s|
    case 5 => k == 4 <= |s|
    case _ => false
  }

  /** What is left when the payload of an undeclared field is skipped. */
  ghost function SkipUndeclared(wireType: nat, s: seq<byte>): Option<seq<byte>> {
    var how :- UnknownFraming(wireType);
    var r :- Frame(how, s);
    Some(r.1)
  }

  lemma {:induction false} SkipVarintExact(s: seq<byte>)
    ensures SkipVarint(s).Some? ==> VarintEnds(s, |s| - |SkipVarint(s).value|)
    ensures forall k :: 0 <= k && VarintEnds(s, k) ==> SkipVarint(s) == Some(s[k..])
    decreases |s|
  {
    if s != [] && s[0] >= 128 {
      SkipVarintExact(s[1..]);
      forall k | 0 <= k && VarintEnds(s, k)
        ensures SkipVarint(s) == Some(s[k..])
      {
        assert k > 1 && VarintEnds(s[1..], k - 1);
        assert s[1..][k - 1..] == s[k..];
      }
    }
  }

  /** Skipping consumes exactly the payload of wire types 0, 1, 2 and 5, and fails when there is
      none. */
  lemma SkipUndeclaredExact(wireType: nat, s: seq<byte>)
    ensures SkipUndeclared(wireType, s).Some? ==>
              var rest := SkipUndeclared(wireType, s).value;
              |rest| <= |s| && PayloadTakes(wireType, s, |s| - |rest|)
    ensures forall k :: 0 <= k && PayloadTakes(wireType, s, k) ==> SkipUndeclared(wireType, s) == Some(s[k..])
  {
    hide SkipVarint, DecVarint32, VarintEnds;
    SkipVarintExact(s);
    if wireType == 2 && DecVarint32(s).Some? {
      var (n, rest) := DecVarint32(s).value;
      LengthIsSuffix(s);
      if n <= |rest| {
        assert s[|s| - |rest| + n..] == s[|s| - |rest|..][n..];
      }
    }
  }

  lemma LengthIsSuffix(s: seq<byte>)
    requires DecVarint32(s).Some?
    ensures var rest := DecVarint32(s).value.1;
            |rest| < |s| && rest == s[|s| - |rest|..]
  {
    hide RawVarint;
    assert RawVarint(s, 5).Some?;
  }

  /** An undeclared field is a record exactly when its payload is there, and then ends with it. Field
      number 0 counts as undeclared, except in an empty message, which refuses it. */
  lemma UndeclaredRecord(fields: seq<Field>, tag: nat, wireType: nat, s: seq<byte>)
    requires tag < 0x2000_0000 && wireType < 8 && (tag > 0 || wireType > 0) && Find(fields, tag).None?
    ensures fields == [] && tag == 0 ==> ParseRecord(fields, EncTag(wireType, tag) + s) == Malformed
    ensures fields != [] || tag > 0 ==>
              var r := ParseRecord(fields, EncTag(wireType, tag) + s);
              && (r.Record? ==> r.tag == tag && |r.rest| <= |s| && PayloadTakes(wireType, s, |s| - |r.rest|))
              && forall k :: 0 <= k && PayloadTakes(wireType, s, k) ==> r.Record? && r.rest == s[k..]
  {
    hide Frame, UnknownFraming, PayloadTakes, DecodeTag, EncTag, Find;
    TagRoundTrip(wireType, tag, s);
    SkipUndeclaredExact(wireType, s);
  }

  /** The wire type of a declared field matters to arrays of scalars only: everything else is decoded
      by the type of the field. */
  lemma WireTypeIgnored(fields: seq<Field>, tag: nat, wireType: nat, wireType2: nat, s: seq<byte>)
    requires 0 < tag < 0x2000_0000 && wireType < 8 && wireType2 < 8 && Find(fields, tag).Some?
    requires var f := fields[Find(fields, tag).value];
             f.htype.Repeated? && f.ltype.Packable() ==> (wireType == 2 <==> wireType2 == 2)
    ensures ParseRecord(fields, EncTag(wireType, tag) + s) == ParseRecord(fields, EncTag(wireType2, tag) + s)
  {
    hide Frame, DecodeTag, EncTag, Find;
    TagRoundTrip(wireType, tag, s);
    TagRoundTrip(wireType2, tag, s);
  }

  // ---------------------------------------------------------------- fields that are not there

  /** Some record of the message, up to its end, has this tag. */
  predicate HasRecord(fields: seq<Field>, s: seq<byte>, tag: nat)
    decreases |s|
  {
    if s == [] then false
    else
      match ParseRecord(fields, s)
      case Record(t, _, rest) => t == tag || HasRecord(fields, rest, tag)
      case _ => false
  }

  lemma {:induction false} RequiredMarked(fields: seq<Field>, s: seq<byte>, st: seq<FieldState>, seen: set<nat>, i: nat)
    requires |st| == |fields| && DistinctTags(fields) && i < |fields| && Loop(fields, s, st, seen).Some?
    ensures i in Loop(fields, s, st, seen).value.seen <==>
            i in seen || (fields[i].htype.Required? && HasRecord(fields, s, fields[i].tag))
    decreases |s|
  {
    hide ParseRecord, Apply, Find;
    if s != [] && ParseRecord(fields, s).Record? {
      var Record(tag, p, rest) := ParseRecord(fields, s);
      var next := ApplyRecord(fields, tag, p, st, seen).value;
      RequiredMarked(fields, rest, next.0, next.1, i);
      if Find(fields, tag).None? {
        assert tag != fields[i].tag;
      }
    }
  }

  /** A message whose fields are all accepted is accepted if and only if it has a record of every
      required field. */
  lemma RequiredPresent(fields: seq<Field>, s: seq<byte>, st: seq<FieldState>)
    requires |st| == |fields| && DistinctTags(fields) && Loop(fields, s, st, {}).Some?
    ensures DecodeInto(fields, s, st).Some? <==>
            forall i :: 0 <= i < |fields| && fields[i].htype.Required? ==> HasRecord(fields, s, fields[i].tag)
  {
    hide Loop, HasRecord;
    forall i | 0 <= i < |fields|
      ensures i in Loop(fields, s, st, {}).value.seen <==>
              fields[i].htype.Required? && HasRecord(fields, s, fields[i].tag)
    {
      RequiredMarked(fields, s, st, {}, i);
    }
  }

  /** Neither entry i nor another member of its union has a record. */
  ghost predicate NoRecord(fields: seq<Field>, s: seq<byte>, i: nat)
    requires i < |fields|
  {
    forall j :: 0 <= j < |fields| && (j == i || SameUnion(fields, i, j)) ==> !HasRecord(fields, s, fields[j].tag)
  }

  lemma RecordKeepsOthers(
    fields: seq<Field>, tag: nat, p: Payload, st: seq<FieldState>, seen: set<nat>, i: nat)
    requires |st| == |fields| && i < |fields| && ApplyRecord(fields, tag, p, st, seen).Some?
    requires fields[i].tag != tag
    requires forall j :: 0 <= j < |fields| && SameUnion(fields, i, j) ==> fields[j].tag != tag
    ensures ApplyRecord(fields, tag, p, st, seen).value.0[i] == st[i]
  {
    hide ApplyEntry, Find, SameUnion;
    if Find(fields, tag).Some? {
      UnionSymmetric(fields, i, Find(fields, tag).value);
    }
  }

  /** A field without record keeps its state. */
  lemma {:induction false} AbsentFieldKept(
    fields: seq<Field>, s: seq<byte>, st: seq<FieldState>, seen: set<nat>, i: nat)
    requires |st| == |fields| && i < |fields| && Loop(fields, s, st, seen).Some? && NoRecord(fields, s, i)
    ensures Loop(fields, s, st, seen).value.st[i] == st[i]
    decreases |s|
  {
    hide ParseRecord, ApplyRecord, SameUnion;
    if s != [] && ParseRecord(fields, s).Record? {
      var Record(tag, p, rest) := ParseRecord(fields, s);
      var next := ApplyRecord(fields, tag, p, st, seen).value;
      forall j | 0 <= j < |fields| && (j == i || SameUnion(fields, i, j))
        ensures fields[j].tag != tag && !HasRecord(fields, rest, fields[j].tag)
      {
        assert !HasRecord(fields, s, fields[j].tag);
      }
      RecordKeepsOthers(fields, tag, p, st, seen, i);
      AbsentFieldKept(fields, rest, next.0, next.1, i);
      assert Loop(fields, s, st, seen) == Loop(fields, rest, next.0, next.1);
    }
  }

  lemma UnionSymmetric(fields: seq<Field>, i: nat, j: nat)
    requires i < |fields| && j < |fields|
    ensures SameUnion(fields, i, j) <==> SameUnion(fields, j, i)
  {
  }

  /** The default of the descriptor: the bytes it gives, or zeros, in every field at every depth;
      optional fields are absent, arrays empty and unions inactive. */
  ghost predicate HoldsDefault(f: Field, v: Value)
    decreases f, 0
  {
    var bytes := if f.ptr.Default? then f.ptr.bytes else Zeros(f.dataSize);
    match f.ltype
    case Submessage =>
      && v.Message? && |v.fields| == |SubFieldsOf(f)|
      && (f.ptr.SubFields? ==> forall i :: 0 <= i < |f.ptr.fields| ==> DefaultEntry(f.ptr.fields[i], v.fields[i]))
    case String => v == Text(CStr(bytes))
    case Bytes => v == Blob(BytesPayload(bytes))
    case FixedLengthBytes => v == Blob(bytes)
    case _ => v == Word(bytes)
  }

  ghost predicate DefaultEntry(f: Field, fs: FieldState)
    decreases f, 1
  {
    match f.htype
    case Required => fs.One? && HoldsDefault(f, fs.value)
    case Optional =>
      if f.sizeOffset == 0 then fs.One? && HoldsDefault(f, fs.value)
      else fs.Opt? && !fs.has && HoldsDefault(f, fs.value)
    case Repeated => fs == Many(0, [])
    case Oneof => fs == Alt(None)
  }

  lemma {:induction false} DefaultMeaning(f: Field)
    ensures HoldsDefault(f, DefaultValue(f))
    ensures DefaultEntry(f, DefaultAt(f))
    decreases f
  {
    if f.ltype.Submessage? && f.ptr.SubFields? {
      var sub := f.ptr.fields;
      forall i | 0 <= i < |sub|
        ensures DefaultEntry(sub[i], Defaults(sub)[i])
      {
        DefaultMeaning(sub[i]);
      }
    }
  }

  /** pb_decode gives a field without record the default of its descriptor. */
  lemma {:induction false} AbsentFieldDefault(fields: seq<Field>, s: seq<byte>, i: nat)
    requires i < |fields| && Decode(fields, s).Some? && NoRecord(fields, s, i)
    ensures DefaultEntry(fields[i], Decode(fields, s).value.0[i])
  {
    hide Loop, NoRecord, DefaultEntry, HoldsDefault;
    AbsentFieldKept(fields, s, Defaults(fields), {}, i);
    DefaultMeaning(fields[i]);
    assert Decode(fields, s).value.0[i] == DefaultAt(fields[i]);
  }
}
