/**
 What decoding means. A byte string is cut into records by the tags and the descriptor alone;
 each record then updates the state of one field.
 */
module DecodeSpec {
  import opened Wire
  import opened Descriptor
  import opened Scalars
  import opened State

  const WT_VARINT := 0
  const WT_64BIT := 1
  const WT_STRING := 2
  const WT_32BIT := 5

  // ---------------------------------------------------------------- framing

  /** What stands behind a tag. */
  datatype Payload = Number(v: nat) | Bits(raw: seq<byte>) | Chunk(body: seq<byte>) | Skipped {
    function Size(): nat {
      if Chunk? then |body| else 0
    }
  }

  /** How the bytes behind a tag are delimited. */
  datatype Framing = AsNumber | AsBits(n: nat) | AsChunk | AsSkippedVarint

  /** pb_skip_varint puts no limit on the length. */
  function SkipVarint(s: seq<byte>): (r: Option<seq<byte>>)
    ensures r.Some? ==> |r.value| < |s| && r.value == s[|s| - |r.value|..]
  {
    if s == [] then None else if s[0] < 128 then Some(s[1..]) else SkipVarint(s[1..])
  }

  /** A length as a 32-bit varint, and that many bytes. */
  function TakeChunk(s: seq<byte>): (r: Option<(seq<byte>, seq<byte>)>)
    ensures r.Some? ==> |r.value.0| + |r.value.1| < |s| && r.value.1 == s[|s| - |r.value.1|..]
  {
    var (n, rest) :- DecVarint32(s);
    if |rest| < n then None else Some((rest[..n], rest[n..]))
  }

  function Frame(how: Framing, s: seq<byte>): (r: Option<(Payload, seq<byte>)>)
    ensures r.Some? ==> r.value.0.Size() <= |s| && |r.value.1| <= |s| && r.value.1 == s[|s| - |r.value.1|..]
    ensures r.Some? && (how.AsBits? ==> how.n > 0) ==> |r.value.1| < |s|
    ensures r.Some? && how.AsNumber? ==> r.value.0.Number? && r.value.0.v < TWO_64
    ensures r.Some? && how.AsBits? ==> r.value.0.Bits? && |r.value.0.raw| == how.n
    ensures r.Some? && how.AsChunk? ==> r.value.0.Chunk?
  {
    match how
    case AsNumber =>
      var (v, rest) :- DecVarint(s);
      Some((Number(v), rest))
    case AsBits(n) => if |s| < n then None else Some((Bits(s[..n]), s[n..]))
    case AsChunk =>
      var (body, rest) :- TakeChunk(s);
      Some((Chunk(body), rest))
    case AsSkippedVarint =>
      var rest :- SkipVarint(s);
      Some((Skipped, rest))
  }

  /** The decoder of a field looks at the wire type only to tell packed arrays apart. */
  predicate Packed(f: Field, wireType: nat) {
    f.htype.Repeated? && wireType == WT_STRING && f.ltype.Packable()
  }

  function ItemFraming(ltype: LType): Framing {
    match ltype
    case Varint | Uvarint | Svarint => AsNumber
    case Fixed32 => AsBits(4)
    case Fixed64 => AsBits(8)
    case _ => AsChunk
  }

  function FieldFraming(f: Field, wireType: nat): Framing {
    if Packed(f, wireType) then AsChunk else ItemFraming(f.ltype)
  }

  function UnknownFraming(wireType: nat): Option<Framing> {
    if wireType == WT_VARINT then Some(AsSkippedVarint)
    else if wireType == WT_64BIT then Some(AsBits(8))
    else if wireType == WT_STRING then Some(AsChunk)
    else if wireType == WT_32BIT then Some(AsBits(4))
    else None
  }

  /** The index of the entry with this tag. */
  function Find(fields: seq<Field>, tag: nat): (r: Option<nat>)
    ensures r.Some? ==> r.value < |fields| && fields[r.value].tag == tag
    ensures r.None? ==> forall i :: 0 <= i < |fields| ==> fields[i].tag != tag
    decreases fields
  {
    if fields == [] then None
    else if fields[|fields| - 1].tag == tag then Some(|fields| - 1)
    else Find(fields[..|fields| - 1], tag)
  }

  datatype Record = End(rest: seq<byte>) | Malformed | Record(tag: nat, payload: Payload, rest: seq<byte>)

  datatype TagResult = TagEnd(rest: seq<byte>) | TagError | Tag(tag: nat, wireType: nat, rest: seq<byte>)

  /** A zero word ends the message, and so does a tag cut off by the end of the stream. */
  function DecodeTag(s: seq<byte>): (r: TagResult)
    ensures r.Tag? ==> |r.rest| < |s| && r.rest == s[|s| - |r.rest|..]
    ensures r.Tag? ==> r.tag < 0x2000_0000 && r.wireType < 8 && (r.tag > 0 || r.wireType > 0)
  {
    match DecVarint32(s)
    case None => if |s| <= 5 then TagEnd([]) else TagError
    case Some((word, rest)) => if word == 0 then TagEnd(rest) else Tag(word / 8, word % 8, rest)
  }

  /** Every tag written for a field number below 2^29 is recovered. */
  lemma TagRoundTrip(wireType: nat, tag: nat, t: seq<byte>)
    requires wireType < 8 && tag < 0x2000_0000 && (tag > 0 || wireType > 0)
    ensures DecodeTag(EncTag(wireType, tag) + t) == Tag(tag, wireType, t)
    ensures |EncTag(wireType, tag)| <= 5
  {
    hide EncVarint, RawVarint;
    Varint32RoundTrip(tag * 8 + wireType, t);
  }

  /** A tag is a varint of at most five bytes; the message ends at a zero word, or when the stream ends
      before such a varint does. Five bytes that do not end a varint are an error unless they are the
      last ones. */
  lemma TagMeaning(s: seq<byte>)
    ensures forall k: nat :: k <= 5 && VarintEnds(s, k) ==>
              var word := Groups(s[..k]) % TWO_32;
              DecodeTag(s) == if word == 0 then TagEnd(s[k..]) else Tag(word / 8, word % 8, s[k..])
    ensures (forall k: nat :: k <= 5 ==> !VarintEnds(s, k)) ==>
              DecodeTag(s) == if |s| <= 5 then TagEnd([]) else TagError
  {
    hide Groups, RawVarint, VarintEnds;
    forall k: nat | k <= 5 && VarintEnds(s, k)
      ensures k <= |s| && DecVarint32(s) == Some((Groups(s[..k]) % TWO_32, s[k..]))
    {
      VarintEndsInside(s, k);
      VarintsRead(s, k);
    }
    RawVarintMeaning(s, 5);
  }

  lemma VarintEndsInside(s: seq<byte>, k: nat)
    requires VarintEnds(s, k)
    ensures 0 < k <= |s|
  {
  }

  function FramingFor(fields: seq<Field>, tag: nat, wireType: nat): Option<Framing> {
    match Find(fields, tag)
    case Some(i) => Some(FieldFraming(fields[i], wireType))
    case None =>
      // In an empty message the search finds the terminator under tag 0; it cannot be decoded.
      if fields == [] && tag == 0 then None else UnknownFraming(wireType)
  }

  function ParseRecord(fields: seq<Field>, s: seq<byte>): (r: Record)
    ensures r.Record? ==> r.payload.Size() < |s| && |r.rest| < |s| && r.rest == s[|s| - |r.rest|..]
  {
    match DecodeTag(s)
    case TagEnd(rest) => End(rest)
    case TagError => Malformed
    case Tag(tag, wireType, s') =>
      match FramingFor(fields, tag, wireType)
      case None => Malformed
      case Some(how) =>
        match Frame(how, s')
        case None => Malformed
        case Some((p, rest)) => Record(tag, p, rest)
  }

  // ---------------------------------------------------------------- updating fields

  /** The value a scalar payload stands for. */
  function WordValue(ltype: LType, size: nat, p: Payload): Option<Value> {
    match ltype
    case Varint | Uvarint | Svarint =>
      if !p.Number? || p.v >= TWO_64 then None
      else
        var raw :- DecNumber(ltype, size, p.v);
        Some(Word(raw))
    case _ => if p.Bits? then Some(Word(p.raw)) else None
  }

  /** pb_dec_bytes, pb_dec_string and pb_dec_fixed_length_bytes on a length-delimited body. */
  ghost function ChunkValue(f: Field, body: seq<byte>): Option<Value>
    requires !f.ltype.Submessage?
  {
    match f.ltype
    case Bytes => if |body| > SizeMax() || SIZE_WIDTH + |body| > f.dataSize then None else Some(Blob(body))
    case String => if |body| + 1 > f.dataSize then None else Some(Text(CStr(body)))
    case FixedLengthBytes =>
      if |body| > SizeMax() then None
      else if |body| == 0 then Some(Blob(Zeros(f.dataSize)))
      else if |body| != f.dataSize then None
      else Some(Blob(body))
    case _ => None
  }

  /** The new value of one item of f; a submessage is decoded into the state `into`. */
  ghost function ItemValue(f: Field, p: Payload, into: seq<FieldState>): Option<Value>
    decreases p.Size(), 2
  {
    if f.ltype.Packable() then WordValue(f.ltype, f.dataSize, p)
    else if !p.Chunk? then None
    else if f.ltype.Submessage? then
      var r :- DecodeInto(SubFieldsOf(f), p.body, into);
      Some(Message(r.0))
    else ChunkValue(f, p.body)
  }

  /** Appending the items of a packed body; all of them must fit. */
  ghost function AppendPacked(f: Field, body: seq<byte>, count: nat, items: seq<Value>): (r: Option<FieldState>)
    requires f.ltype.Packable()
    ensures r.Some? ==> r.value.Many?
    decreases |body|
  {
    if body == [] then Some(Many(count, items))
    else if count >= f.arraySize then None
    else
      var (p, rest) :- Frame(ItemFraming(f.ltype), body);
      var v :- WordValue(f.ltype, f.dataSize, p);
      AppendPacked(f, rest, count + 1, items + [v])
  }

  ghost function AppendItem(f: Field, p: Payload, count: nat, items: seq<Value>): (r: Option<FieldState>)
    ensures r.Some? ==> r.value.Many?
    decreases p.Size(), 3
  {
    if count >= f.arraySize then None
    else
      var v :- ItemValue(f, p, Defaults(SubFieldsOf(f)));
      Some(Many(count + 1, items + [v]))
  }

  /** The message a further submessage record is merged into. */
  function Inner(fs: FieldState): seq<FieldState> {
    match fs
    case One(Message(st)) => st
    case Opt(_, Message(st)) => st
    case _ => []
  }

  /** decode_static_field: what a payload does to the state of its own entry. A packable array
      with a length-delimited payload is packed. A union member starts from its defaults. */
  ghost function ApplyEntry(f: Field, p: Payload, fs: FieldState): Option<FieldState>
    decreases p.Size(), 4
  {
    match f.htype
    case Required =>
      var v :- ItemValue(f, p, Inner(fs));
      Some(One(v))
    case Optional =>
      var v :- ItemValue(f, p, Inner(fs));
      Some(if f.sizeOffset == 0 then One(v) else Opt(true, v))
    case Repeated =>
      if !fs.Many? then None
      else if f.ltype.Packable() && p.Chunk? then AppendPacked(f, p.body, fs.count, fs.items)
      else AppendItem(f, p, fs.count, fs.items)
    case Oneof =>
      var v :- ItemValue(f, p, Defaults(SubFieldsOf(f)));
      Some(Alt(Some(v)))
  }

  /** Entry i gets the state e; if it is a union member, the other members become inactive. */
  ghost function SetEntry(fields: seq<Field>, i: nat, e: FieldState, st: seq<FieldState>): (st': seq<FieldState>)
    requires i < |fields| == |st|
    ensures |st'| == |st|
  {
    seq(|st|, j requires 0 <= j < |st| =>
      if j == i then e else if SameUnion(fields, i, j) then Alt(None) else st[j])
  }

  ghost function Apply(fields: seq<Field>, i: nat, p: Payload, st: seq<FieldState>): (r: Option<seq<FieldState>>)
    requires i < |fields|
    ensures r.Some? ==> |r.value| == |st| == |fields|
    decreases p.Size(), 5
  {
    if |st| != |fields| then None
    else
      var e :- ApplyEntry(fields[i], p, st[i]);
      Some(SetEntry(fields, i, e, st))
  }

  /** One record: the new state and the required fields seen so far. Unknown tags change nothing. */
  ghost function ApplyRecord(
    fields: seq<Field>, tag: nat, p: Payload, st: seq<FieldState>, seen: set<nat>
  ): (r: Option<(seq<FieldState>, set<nat>)>)
    requires |st| == |fields|
    ensures r.Some? ==> |r.value.0| == |fields|
    decreases p.Size(), 6
  {
    match Find(fields, tag)
    case None => Some((st, seen))
    case Some(i) =>
      var st' :- Apply(fields, i, p, st);
      Some((st', if fields[i].htype.Required? then seen + {i} else seen))
  }

  datatype Outcome = Outcome(st: seq<FieldState>, seen: set<nat>, rest: seq<byte>)

  /** The field loop. */
  ghost function Loop(fields: seq<Field>, s: seq<byte>, st: seq<FieldState>, seen: set<nat>): (r: Option<Outcome>)
    requires |st| == |fields|
    ensures r.Some? ==> |r.value.st| == |fields|
    decreases |s|, 0
  {
    if s == [] then Some(Outcome(st, seen, []))
    else
      match ParseRecord(fields, s)
      case End(rest) => Some(Outcome(st, seen, rest))
      case Malformed => None
      case Record(tag, p, rest) =>
        var (st', seen') :- ApplyRecord(fields, tag, p, st, seen);
        Loop(fields, rest, st', seen')
  }

  ghost predicate AllRequired(fields: seq<Field>, seen: set<nat>) {
    forall i :: 0 <= i < |fields| && fields[i].htype.Required? ==> i in seen
  }

  /** pb_decode_noinit: the new state and the bytes left over. */
  ghost function DecodeInto(
    fields: seq<Field>, s: seq<byte>, st: seq<FieldState>): (r: Option<(seq<FieldState>, seq<byte>)>)
    ensures r.Some? ==> |r.value.0| == |fields|
    decreases |s|, 1
  {
    if |st| != |fields| then None
    else
      var out :- Loop(fields, s, st, {});
      if AllRequired(fields, out.seen) then Some((out.st, out.rest)) else None
  }

  /** pb_decode */
  ghost function Decode(fields: seq<Field>, s: seq<byte>): Option<(seq<FieldState>, seq<byte>)> {
    DecodeInto(fields, s, Defaults(fields))
  }

  /** pb_decode_delimited */
  ghost function DecodeDelimited(fields: seq<Field>, s: seq<byte>): Option<(seq<FieldState>, seq<byte>)> {
    var (body, rest) :- TakeChunk(s);
    var r :- Decode(fields, body);
    Some((r.0, rest))
  }
}
