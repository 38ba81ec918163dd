/**
 What several records of one field amount to: packed and unpacked arrays, merged submessages, and
 the last one wins.
 */
module RepeatedLaws {
  import opened Wire
  import opened Descriptor
  import opened State
  import opened DecodeSpec
  import opened DecodeLaws

  // ---------------------------------------------------------------- arrays of scalars

  /** e is one encoded item of a packable type. */
  ghost predicate IsItem(f: Field, e: seq<byte>) {
    var r := Frame(ItemFraming(f.ltype), e);
    f.ltype.Packable() && e != [] && r.Some? && r.value.1 == []
  }

  ghost function ItemPayload(f: Field, e: seq<byte>): (p: Payload)
    requires IsItem(f, e)
    ensures !p.Chunk?
  {
    Frame(ItemFraming(f.ltype), e).value.0
  }

  ghost predicate AreItems(f: Field, items: seq<seq<byte>>) {
    forall k :: 0 <= k < |items| ==> IsItem(f, items[k])
  }

  function Flat(items: seq<seq<byte>>): seq<byte> {
    if items == [] then [] else items[0] + Flat(items[1..])
  }

  /** The items appended one after the other; all of them must fit. */
  ghost function AppendAll(f: Field, items: seq<seq<byte>>, count: nat, values: seq<Value>): (r: Option<FieldState>)
    requires AreItems(f, items)
    ensures r.Some? ==> r.value.Many?
  {
    if items == [] then Some(Many(count, values))
    else
      var next :- AppendItem(f, ItemPayload(f, items[0]), count, values);
      AppendAll(f, items[1..], next.count, next.items)
  }

  lemma {:induction false} AppendAllConcat(
    f: Field, xs: seq<seq<byte>>, ys: seq<seq<byte>>, count: nat, values: seq<Value>)
    requires AreItems(f, xs) && AreItems(f, ys)
    ensures AreItems(f, xs + ys)
    ensures var r := AppendAll(f, xs, count, values);
            && (r.Some? ==> r.value.Many?)
            && AppendAll(f, xs + ys, count, values) ==
               if r.None? then None else AppendAll(f, ys, r.value.count, r.value.items)
    decreases |xs|
  {
    hide AppendItem, IsItem;
    if xs == [] {
      assert xs + ys == ys;
    } else {
      assert (xs + ys)[1..] == xs[1..] + ys;
      var next := AppendItem(f, ItemPayload(f, xs[0]), count, values);
      if next.Some? {
        AppendAllConcat(f, xs[1..], ys, next.value.count, next.value.items);
      } else {
        assert AreItems(f, xs + ys);
      }
    }
  }

  lemma {:induction false} PackedIsAppendAll(f: Field, items: seq<seq<byte>>, count: nat, values: seq<Value>)
    requires f.ltype.Packable() && AreItems(f, items)
    ensures AppendPacked(f, Flat(items), count, values) == AppendAll(f, items, count, values)
    decreases |items|
  {
    hide WordValue, Frame;
    if items != [] {
      assert IsItem(f, items[0]);
      FrameExtends(ItemFraming(f.ltype), items[0], Flat(items[1..]));
      var p := ItemPayload(f, items[0]);
      var v := WordValue(f.ltype, f.dataSize, p);
      assert [] + Flat(items[1..]) == Flat(items[1..]);
      assert Flat(items) != [] && Frame(ItemFraming(f.ltype), Flat(items)) == Some((p, Flat(items[1..])));
      assert ItemValue(f, p, Defaults(SubFieldsOf(f))) == v;
      if v.Some? && count < f.arraySize {
        PackedIsAppendAll(f, items[1..], count + 1, values + [v.value]);
      }
    }
  }

  lemma PackedEmpty(f: Field, count: nat, items: seq<Value>)
    requires f.ltype.Packable()
    ensures AppendPacked(f, [], count, items) == Some(Many(count, items))
  {
  }

  /** A record of a repeated field: a packed run of items, or one item alone under any wire type
      other than the length-delimited one. */
  datatype Piece = Run(items: seq<seq<byte>>) | Alone(item: seq<byte>, wireType: nat)

  ghost predicate PieceOk(f: Field, piece: Piece) {
    match piece
    case Run(items) => AreItems(f, items) && |Flat(items)| < TWO_32
    case Alone(item, wireType) => IsItem(f, item) && wireType < 8 && wireType != WT_STRING
  }

  function PieceBytes(f: Field, piece: Piece): seq<byte> {
    match piece
    case Run(items) => EncTag(WT_STRING, f.tag) + (EncVarint(|Flat(items)|) + Flat(items))
    case Alone(item, wireType) => EncTag(wireType, f.tag) + item
  }

  function PieceItems(piece: Piece): seq<seq<byte>> {
    match piece
    case Run(items) => items
    case Alone(item, _) => [item]
  }

  ghost predicate PiecesOk(f: Field, pieces: seq<Piece>) {
    forall k :: 0 <= k < |pieces| ==> PieceOk(f, pieces[k])
  }

  function DeliveryBytes(f: Field, pieces: seq<Piece>): seq<byte> {
    if pieces == [] then [] else PieceBytes(f, pieces[0]) + DeliveryBytes(f, pieces[1..])
  }

  function DeliveredItems(pieces: seq<Piece>): seq<seq<byte>> {
    if pieces == [] then [] else PieceItems(pieces[0]) + DeliveredItems(pieces[1..])
  }

  lemma {:induction false} DeliveredItemsOk(f: Field, pieces: seq<Piece>)
    requires PiecesOk(f, pieces)
    ensures AreItems(f, DeliveredItems(pieces))
  {
    if pieces != [] {
      assert PieceOk(f, pieces[0]);
      DeliveredItemsOk(f, pieces[1..]);
    }
  }

  lemma LengthPrefixed(body: seq<byte>, t: seq<byte>)
    requires |body| < TWO_32
    ensures TakeChunk(EncVarint(|body|) + body + t) == Some((body, t))
  {
    hide EncVarint, DecVarint32, RawVarint;
    Varint32RoundTrip(|body|, body + t);
    assert EncVarint(|body|) + body + t == EncVarint(|body|) + (body + t);
    assert (body + t)[..|body|] == body && (body + t)[|body|..] == t;
  }

  lemma FindUnique(fields: seq<Field>, i: nat)
    requires i < |fields| && DistinctTags(fields)
    ensures Find(fields, fields[i].tag) == Some(i)
  {
    hide Find;
  }

  lemma ParseTagged(fields: seq<Field>, i: nat, wireType: nat, s: seq<byte>)
    requires i < |fields| && DistinctTags(fields)
    requires wireType < 8 && 0 < fields[i].tag < 0x2000_0000
    requires Frame(FieldFraming(fields[i], wireType), s).Some?
    ensures Find(fields, fields[i].tag) == Some(i)
    ensures var (p, rest) := Frame(FieldFraming(fields[i], wireType), s).value;
            ParseRecord(fields, EncTag(wireType, fields[i].tag) + s) == Record(fields[i].tag, p, rest)
  {
    hide EncTag, Frame, FieldFraming, Find, DecodeTag;
    FindUnique(fields, i);
    TagRoundTrip(wireType, fields[i].tag, s);
  }

  /** The payload of a piece. */
  ghost function PiecePayload(f: Field, piece: Piece): Payload
    requires PieceOk(f, piece)
  {
    match piece
    case Run(items) => Chunk(Flat(items))
    case Alone(item, _) => ItemPayload(f, item)
  }

  lemma PieceIsRecord(fields: seq<Field>, i: nat, piece: Piece)
    requires i < |fields| && DistinctTags(fields) && FieldOk(fields[i])
    requires fields[i].htype.Repeated? && fields[i].ltype.Packable() && PieceOk(fields[i], piece)
    ensures Find(fields, fields[i].tag) == Some(i)
    ensures IsRecord(fields, PieceBytes(fields[i], piece), fields[i].tag, PiecePayload(fields[i], piece))
  {
    var f := fields[i];
    match piece
    case Run(items) =>
      var s := EncVarint(|Flat(items)|) + Flat(items);
      LengthPrefixed(Flat(items), []);
      assert s + [] == s;
      ParseTagged(fields, i, WT_STRING, s);
    case Alone(item, wireType) =>
      ParseTagged(fields, i, wireType, item);
  }

  lemma {:induction false} PieceApplies(fields: seq<Field>, i: nat, piece: Piece, st: seq<FieldState>)
    requires i < |fields| == |st| && st[i].Many?
    requires fields[i].htype.Repeated? && fields[i].ltype.Packable() && PieceOk(fields[i], piece)
    ensures AreItems(fields[i], PieceItems(piece))
    ensures var r := AppendAll(fields[i], PieceItems(piece), st[i].count, st[i].items);
            Apply(fields, i, PiecePayload(fields[i], piece), st) == if r.None? then None else Some(st[i := r.value])
  {
    var f := fields[i];
    SetEntryPlain(fields, i, st);
    match piece
    case Run(items) =>
      PackedIsAppendAll(f, items, st[i].count, st[i].items);
    case Alone(item, _) =>
      var r := AppendItem(f, ItemPayload(f, item), st[i].count, st[i].items);
      assert [item][1..] == [];
  }

  /** However the items of a packable array are delivered, they are appended one by one. */
  lemma {:induction false} Delivered(
    fields: seq<Field>, i: nat, pieces: seq<Piece>, b: seq<byte>, st: seq<FieldState>, seen: set<nat>)
    requires i < |fields| == |st| && st[i].Many?
    requires DistinctTags(fields) && FieldOk(fields[i]) && fields[i].htype.Repeated? && fields[i].ltype.Packable()
    requires PiecesOk(fields[i], pieces)
    ensures AreItems(fields[i], DeliveredItems(pieces))
    ensures var r := AppendAll(fields[i], DeliveredItems(pieces), st[i].count, st[i].items);
            Loop(fields, DeliveryBytes(fields[i], pieces) + b, st, seen) ==
            if r.None? then None else Loop(fields, b, st[i := r.value], seen)
    decreases |pieces|
  {
    hide Loop, ParseRecord, Apply, AppendAll, FieldOk;
    var f := fields[i];
    DeliveredItemsOk(f, pieces);
    if pieces == [] {
      assert [] + b == b;
      AppendNone(f, st[i]);
      assert st[i := st[i]] == st;
    } else {
      var piece, more := pieces[0], pieces[1..];
      assert PieceOk(f, piece);
      DeliveredItemsOk(f, more);
      PieceIsRecord(fields, i, piece);
      PieceApplies(fields, i, piece, st);
      var tail := DeliveryBytes(f, more) + b;
      assert DeliveryBytes(f, pieces) + b == PieceBytes(f, piece) + tail;
      LoopRecord(fields, PieceBytes(f, piece), f.tag, PiecePayload(f, piece), tail, st, seen);
      AppendAllConcat(f, PieceItems(piece), DeliveredItems(more), st[i].count, st[i].items);
      var r := AppendAll(f, PieceItems(piece), st[i].count, st[i].items);
      if r.Some? {
        Delivered(fields, i, more, b, st[i := r.value], seen);
        var r' := AppendAll(f, DeliveredItems(more), r.value.count, r.value.items);
        if r'.Some? {
          assert st[i := r.value][i := r'.value] == st[i := r'.value];
        }
      }
    }
  }

  lemma AppendNone(f: Field, fs: FieldState)
    requires fs.Many?
    ensures AppendAll(f, [], fs.count, fs.items) == Some(fs)
  {
  }

  /** Packed and unpacked agree: one packed record, several packed chunks, single records, or any
      mix of them leave the same array and overflow in the same cases, anywhere in a message. */
  lemma PackedUnpackedAgree(
    fields: seq<Field>, i: nat, ps: seq<Piece>, qs: seq<Piece>, b: seq<byte>, st: seq<FieldState>, seen: set<nat>)
    requires i < |fields| == |st| && st[i].Many?
    requires DistinctTags(fields) && FieldOk(fields[i]) && fields[i].htype.Repeated? && fields[i].ltype.Packable()
    requires PiecesOk(fields[i], ps) && PiecesOk(fields[i], qs)
    requires DeliveredItems(ps) == DeliveredItems(qs)
    ensures Loop(fields, DeliveryBytes(fields[i], ps) + b, st, seen) ==
            Loop(fields, DeliveryBytes(fields[i], qs) + b, st, seen)
  {
    Delivered(fields, i, ps, b, st, seen);
    Delivered(fields, i, qs, b, st, seen);
  }

  /** Overflow: the items are accepted exactly when each survives its cast and all fit. */
  lemma {:induction false} AppendAllExact(f: Field, items: seq<seq<byte>>, count: nat, values: seq<Value>)
    requires AreItems(f, items) && f.ltype.Packable()
    ensures AppendAll(f, items, count, values).Some? <==>
            && (items == [] || count + |items| <= f.arraySize)
            && forall k :: 0 <= k < |items| ==> WordValue(f.ltype, f.dataSize, ItemPayload(f, items[k])).Some?
    ensures AppendAll(f, items, count, values).Some? ==>
              var Many(c, vs) := AppendAll(f, items, count, values).value;
              && c == count + |items| && |vs| == |values| + |items| && vs[..|values|] == values
              && forall k :: 0 <= k < |items| ==>
                   Some(vs[|values| + k]) == WordValue(f.ltype, f.dataSize, ItemPayload(f, items[k]))
    decreases |items|
  {
    hide WordValue, Frame, IsItem;
    if items != [] {
      var v := WordValue(f.ltype, f.dataSize, ItemPayload(f, items[0]));
      assert ItemValue(f, ItemPayload(f, items[0]), Defaults(SubFieldsOf(f))) == v;
      var more := items[1..];
      assert forall k :: 0 < k < |items| ==> items[k] == more[k - 1];
      assert forall k :: 0 <= k < |more| ==> more[k] == items[k + 1];
      if count < f.arraySize && v.Some? {
        AppendAllExact(f, more, count + 1, values + [v.value]);
        var r := AppendAll(f, items, count, values);
        assert r == AppendAll(f, more, count + 1, values + [v.value]);
        if r.Some? {
          var vs := r.value.items;
          assert vs[..|values| + 1] == values + [v.value];
          assert vs[..|values|] == vs[..|values| + 1][..|values|];
          assert vs[|values|] == vs[..|values| + 1][|values|];
          forall k | 0 <= k < |items|
            ensures Some(vs[|values| + k]) == WordValue(f.ltype, f.dataSize, ItemPayload(f, items[k]))
          {
            if k > 0 {
              assert Some(vs[|values + [v.value]| + (k - 1)]) ==
                     WordValue(f.ltype, f.dataSize, ItemPayload(f, more[k - 1]));
            }
          }
        }
      }
    }
  }

  // ---------------------------------------------------------------- merging and replacing

  /** Embedded merging: two records of one submessage field do what the concatenated body does. */
  lemma SubmessageMerge(fields: seq<Field>, i: nat, a: seq<byte>, b: seq<byte>, st: seq<FieldState>)
    requires i < |fields| == |st|
    requires fields[i].ltype.Submessage? && (fields[i].htype.Required? || fields[i].htype.Optional?)
    requires var sub := SubFieldsOf(fields[i]);
             Framed(sub, a) && (forall j :: 0 <= j < |sub| ==> !sub[j].htype.Required?)
    ensures var r := Apply(fields, i, Chunk(a), st);
            (if r.None? then None else Apply(fields, i, Chunk(b), r.value)) == Apply(fields, i, Chunk(a + b), st)
  {
    hide DecodeInto, Framed;
    var sub, into := SubFieldsOf(fields[i]), Inner(st[i]);
    ApplySubmessage(fields, i, a, st);
    ApplySubmessage(fields, i, a + b, st);
    if |into| == |sub| {
      DecodeConcatenation(sub, a, b, into);
    } else {
      WrongShape(sub, a, into);
      WrongShape(sub, a + b, into);
    }
    var r := Apply(fields, i, Chunk(a), st);
    if r.Some? {
      ApplySubmessage(fields, i, b, r.value);
      UpdateTwice(st, i, r.value[i]);
    }
  }

  /** The state of a required or optional submessage field after a record was merged into it. */
  function Merged(f: Field, inner: seq<FieldState>): FieldState {
    if f.htype.Optional? && f.sizeOffset != 0 then Opt(true, Message(inner)) else One(Message(inner))
  }

  /** What the records a and b together leave of the inner state `into`; `enough` tells whether the
      required fields seen in a and in b suffice. */
  ghost function MergeBoth(
    f: Field, a: seq<byte>, b: seq<byte>, into: seq<FieldState>, enough: (set<nat>, set<nat>) -> bool)
    : Option<FieldState>
    requires |into| == |SubFieldsOf(f)|
  {
    var ra :- Loop(SubFieldsOf(f), a, into, {});
    var rb :- Loop(SubFieldsOf(f), b, ra.st, {});
    if enough(ra.seen, rb.seen) then Some(Merged(f, rb.st)) else None
  }

  /** With required inner fields the merge is the same, but what is checked differs: one record with
      the concatenated body must contain them all, two records must contain them all each. */
  lemma SubmessageMergeRequired(fields: seq<Field>, i: nat, a: seq<byte>, b: seq<byte>, st: seq<FieldState>)
    requires i < |fields| == |st| && |Inner(st[i])| == |SubFieldsOf(fields[i])|
    requires fields[i].ltype.Submessage? && (fields[i].htype.Required? || fields[i].htype.Optional?)
    requires Framed(SubFieldsOf(fields[i]), a)
    ensures var sub, into := SubFieldsOf(fields[i]), Inner(st[i]);
            var together := MergeBoth(fields[i], a, b, into, (x, y) => AllRequired(sub, x + y));
            Apply(fields, i, Chunk(a + b), st) == if together.None? then None else Some(st[i := together.value])
    ensures var sub, into := SubFieldsOf(fields[i]), Inner(st[i]);
            var each := MergeBoth(fields[i], a, b, into, (x, y) => AllRequired(sub, x) && AllRequired(sub, y));
            var r := Apply(fields, i, Chunk(a), st);
            (if r.None? then None else Apply(fields, i, Chunk(b), r.value)) ==
            if each.None? then None else Some(st[i := each.value])
  {
    hide Loop, Framed, Apply, AllRequired;
    var sub, into := SubFieldsOf(fields[i]), Inner(st[i]);
    ApplySubmessage(fields, i, a, st);
    ApplySubmessage(fields, i, a + b, st);
    DecodeConcatenationRequired(sub, a, b, into);
    var r := Apply(fields, i, Chunk(a), st);
    if r.Some? {
      ApplySubmessage(fields, i, b, r.value);
      UpdateTwice(st, i, r.value[i]);
    }
  }

  lemma UpdateTwice(st: seq<FieldState>, i: nat, e: FieldState)
    requires i < |st|
    ensures forall e2 {:trigger st[i := e][i := e2]} {:trigger st[i := e2]} :: st[i := e][i := e2] == st[i := e2]
  {
    assert forall e2 {:trigger st[i := e2]} :: st[i := e][i := e2] == st[i := e2];
  }

  lemma WrongShape(fields: seq<Field>, s: seq<byte>, st: seq<FieldState>)
    requires |st| != |fields|
    ensures DecodeInto(fields, s, st).None?
  {
  }

  /** A submessage record replaces the inner state by the decoded one. */
  lemma {:induction false} ApplySubmessage(fields: seq<Field>, i: nat, body: seq<byte>, st: seq<FieldState>)
    requires i < |fields| == |st|
    requires fields[i].ltype.Submessage? && (fields[i].htype.Required? || fields[i].htype.Optional?)
    ensures var r := DecodeInto(SubFieldsOf(fields[i]), body, Inner(st[i]));
            Apply(fields, i, Chunk(body), st) ==
            if r.None? then None
            else Some(st[i := Merged(fields[i], r.value.0)])
  {
    hide DecodeInto;
    SetEntryPlain(fields, i, st);
    var r := DecodeInto(SubFieldsOf(fields[i]), body, Inner(st[i]));
    assert ItemValue(fields[i], Chunk(body), Inner(st[i])) == if r.None? then None else Some(Message(r.value.0));
  }

  /** A submessage in an array or in a union is decoded alone, from its defaults, whatever was there
      before. */
  lemma {:induction false} FreshSubmessage(fields: seq<Field>, i: nat, body: seq<byte>, st: seq<FieldState>)
    requires i < |fields| == |st|
    requires fields[i].ltype.Submessage? && (fields[i].htype.Oneof? || (fields[i].htype.Repeated? && st[i].Many?))
    ensures var f, r := fields[i], Decode(SubFieldsOf(fields[i]), body);
            var next := Apply(fields, i, Chunk(body), st);
            && (next.Some? <==> r.Some? && (f.htype.Repeated? ==> st[i].count < f.arraySize))
            && (next.Some? ==>
                  var v := Message(r.value.0);
                  next.value[i] ==
                  if f.htype.Oneof? then Alt(Some(v)) else Many(st[i].count + 1, st[i].items + [v]))
  {
    hide DecodeInto;
    var f, into := fields[i], Defaults(SubFieldsOf(fields[i]));
    var r := DecodeInto(SubFieldsOf(f), body, into);
    assert r == Decode(SubFieldsOf(f), body);
    assert ItemValue(f, Chunk(body), into) == if r.None? then None else Some(Message(r.value.0));
    var e := ApplyEntry(f, Chunk(body), st[i]);
    if f.htype.Oneof? {
      assert e == if r.None? then None else Some(Alt(Some(Message(r.value.0))));
    } else {
      assert e == AppendItem(f, Chunk(body), st[i].count, st[i].items);
      assert e == if r.None? || st[i].count >= f.arraySize then None
                  else Some(Many(st[i].count + 1, st[i].items + [Message(r.value.0)]));
    }
  }

  /** The last one wins: of two accepted records for one scalar, string or bytes field, or for two
      members of one union (submessages included), only the second counts. */
  lemma LastOneWins(fields: seq<Field>, i: nat, p: Payload, j: nat, q: Payload, st: seq<FieldState>)
    requires i < |fields| == |st| && j < |fields| && Apply(fields, i, p, st).Some?
    requires if i == j then !fields[i].htype.Repeated? && (fields[i].htype.Oneof? || !fields[i].ltype.Submessage?)
             else SameUnion(fields, i, j)
    ensures Apply(fields, j, q, Apply(fields, i, p, st).value) == Apply(fields, j, q, st)
  {
    hide ApplyEntry, DecodeInto;
    EntryIndependent(fields[j], q, st[j], Apply(fields, i, p, st).value[j]);
    var e1, e2 := ApplyEntry(fields[i], p, st[i]).value, ApplyEntry(fields[j], q, st[j]);
    if e2.Some? {
      SetEntryTwice(fields, i, e1, j, e2.value, st);
    }
  }

  lemma {:induction false} EntryIndependent(f: Field, q: Payload, fs: FieldState, fs2: FieldState)
    requires !f.htype.Repeated? && (f.htype.Oneof? || !f.ltype.Submessage?)
    ensures ApplyEntry(f, q, fs) == ApplyEntry(f, q, fs2)
  {
    hide DecodeInto;
    if !f.htype.Oneof? {
      assert ItemValue(f, q, Inner(fs)) == ItemValue(f, q, Inner(fs2));
    }
  }
}
