/**
 Length-prefixed messages written one after the other.
 */
module Delimited {
  import opened Wire
  import opened Descriptor
  import opened State
  import opened DecodeSpec
  import opened RepeatedLaws
  import opened EncodeSpec
  import opened IntactMessages

  ghost predicate AllStructs(fields: seq<Field>, ms: seq<seq<byte>>) {
    forall k :: 0 <= k < |ms| ==> WellFormed(fields, |ms[k]|)
  }

  /** pb_encode_delimited, once for each struct. */
  ghost function WriteAll(fields: seq<Field>, ms: seq<seq<byte>>): Option<seq<byte>>
    requires AllStructs(fields, ms)
  {
    if ms == [] then Some([])
    else
      var first :- EncDelimited(fields, ms[0]);
      var others :- WriteAll(fields, ms[1..]);
      Some(first + others)
  }

  /** pb_decode_delimited, n times; the states read and the bytes after the last message. */
  ghost function ReadAll(fields: seq<Field>, n: nat, s: seq<byte>): (r: Option<(seq<seq<FieldState>>, seq<byte>)>)
    ensures r.Some? ==> |r.value.0| == n
    decreases n
  {
    if n == 0 then Some(([], s))
    else
      var (st, rest) :- DecodeDelimited(fields, s);
      var (sts, end) :- ReadAll(fields, n - 1, rest);
      Some(([st] + sts, end))
  }

  /** A delimited message is its body decoded alone, and the stream goes on behind the body, wherever
      in the body the message ended. */
  lemma DelimitedBody(fields: seq<Field>, body: seq<byte>, t: seq<byte>)
    requires |body| < TWO_32
    ensures DecodeDelimited(fields, EncVarint(|body|) + body + t) ==
            if Decode(fields, body).None? then None else Some((Decode(fields, body).value.0, t))
  {
    hide Decode, TakeChunk, EncVarint;
    LengthPrefixed(body, t);
  }

  /** The length in front of each message is one the decoder can read. */
  ghost predicate ShortMessages(fields: seq<Field>, ms: seq<seq<byte>>)
    requires AllStructs(fields, ms)
  {
    forall k :: 0 <= k < |ms| ==> Enc(fields, ms[k]).Some? ==> |Enc(fields, ms[k]).value| < TWO_32
  }

  /** One message: whatever it holds, a successful read stops exactly at what follows; and it gives
      back the same message if and only if the struct is intact. */
  lemma ReadOne(fields: seq<Field>, m: seq<byte>, t: seq<byte>)
    requires WellFormed(fields, |m|) && Enc(fields, m).Some? && |Enc(fields, m).value| < TWO_32
    ensures EncDelimited(fields, m).Some?
    ensures var r := DecodeDelimited(fields, EncDelimited(fields, m).value + t);
            && (r.Some? ==> r.value.1 == t)
            && (Intact(fields, m) <==> r.Some? && Entries(r.value.0) == Entries(View(fields, m)))
  {
    hide WellFormed, Intact, Enc, Decode, Entries, TakeChunk, EncVarint, Short;
    var body := Enc(fields, m).value;
    LengthPrefixed(body, t);
    SmallIsShort(fields, m);
    RoundTripExact(fields, m, body);
  }

  /** The list read is the list written. */
  ghost predicate ReadBack(
    fields: seq<Field>, ms: seq<seq<byte>>, t: seq<byte>, r: Option<(seq<seq<FieldState>>, seq<byte>)>)
    requires AllStructs(fields, ms)
  {
    && r.Some? && |r.value.0| == |ms| && r.value.1 == t
    && forall k :: 0 <= k < |ms| ==> Entries(r.value.0[k]) == Entries(View(fields, ms[k]))
  }

  /** The list is read back when its first message and the list behind it are. */
  lemma ReadBackStep(fields: seq<Field>, ms: seq<seq<byte>>, t: seq<byte>, s: seq<byte>, s1: seq<byte>)
    requires ms != [] && AllStructs(fields, ms)
    requires DecodeDelimited(fields, s).Some? ==> DecodeDelimited(fields, s).value.1 == s1
    ensures var r := DecodeDelimited(fields, s);
            ReadBack(fields, ms, t, ReadAll(fields, |ms|, s)) <==>
            && r.Some? && Entries(r.value.0) == Entries(View(fields, ms[0]))
            && ReadBack(fields, ms[1..], t, ReadAll(fields, |ms| - 1, s1))
  {
    hide WellFormed, DecodeDelimited, Entries, View;
    var r, r1 := DecodeDelimited(fields, s), ReadAll(fields, |ms| - 1, s1);
    if r.Some? && r1.Some? {
      var all := ReadAll(fields, |ms|, s);
      assert all == Some(([r.value.0] + r1.value.0, r1.value.1));
      assert forall k :: 0 < k < |ms| ==> all.value.0[k] == r1.value.0[k - 1] && ms[k] == ms[1..][k - 1];
      assert forall k :: 0 <= k < |ms| - 1 ==> r1.value.0[k] == all.value.0[k + 1] && ms[1..][k] == ms[k + 1];
    }
  }

  /** A list of messages of any total length is read back as the same list, every read stopping
      exactly at the next message, if and only if all the structs are intact. */
  lemma {:induction false} DelimitedRoundTrip(fields: seq<Field>, ms: seq<seq<byte>>, t: seq<byte>)
    requires AllStructs(fields, ms) && ShortMessages(fields, ms) && WriteAll(fields, ms).Some?
    ensures (forall k :: 0 <= k < |ms| ==> Intact(fields, ms[k])) <==>
            ReadBack(fields, ms, t, ReadAll(fields, |ms|, WriteAll(fields, ms).value + t))
    decreases |ms|
  {
    hide WellFormed, Intact, Enc, DecodeDelimited, Entries, View, ReadBack;
    if ms == [] {
      assert [] + t == t;
      NothingToRead(fields, t);
    } else {
      var first, others := EncDelimited(fields, ms[0]).value, WriteAll(fields, ms[1..]).value;
      assert first + others + t == first + (others + t);
      ReadOne(fields, ms[0], others + t);
      DelimitedRoundTrip(fields, ms[1..], t);
      ReadBackStep(fields, ms, t, first + (others + t), others + t);
      assert forall k :: 0 < k < |ms| ==> ms[k] == ms[1..][k - 1];
      assert forall k :: 0 <= k < |ms| - 1 ==> ms[1..][k] == ms[k + 1];
    }
  }

  lemma NothingToRead(fields: seq<Field>, t: seq<byte>)
    ensures ReadBack(fields, [], t, ReadAll(fields, 0, t))
  {
  }
}
