# nanopb codec

A model of the nanopb 0.3.8 Protocol Buffers codec that the app ships under
`Get together/Pods/nanopb/`: the table-driven encoder (`pb_encode.c`), the table-driven decoder
(`pb_decode.c`), the field iterator (`pb_common.c`) and the descriptor layout (`pb.h`). The wire
format is the one of the Protocol Buffers encoding guide ("Base 128 Varints", "Message Structure",
"Length-Delimited Records", "Packed Repeated Fields", "Last One Wins").

The project has two levels.

- **Meaning.** `Wire`, `Descriptor`, `Scalars`, `State`, `DecodeSpec` and `EncodeSpec` say what a
  descriptor, a C struct (a byte sequence), an encoding and a decoding are. Decoding is split into
  framing (cutting bytes into records, by tags and descriptor alone) and updating (what a record does
  to the state of one field). `DecodeLaws`, `RepeatedLaws`, `Truncation`, `Encodable`,
  `WireLaws`, `GuideExamples`, `RoundTrip`, `IntactMessages`, `LostMessages` and `Delimited` prove the laws of the format about these functions, for every descriptor, nested to any
  depth, every state and every byte string.
- **Code.** `Memory`, `IStream`, `OStream`, `Iterator`, `RequiredFields`, `FieldDecoders`,
  `EntryMemory`, `Initializer`, `Encoder` and `Decoder` are the C code: stream and iterator objects
  that are updated in place, one byte array that holds the struct, and methods with the branches,
  loops and error exits of the source. Every method is proved to do what the functions of the first
  level say, to touch no byte outside its field, struct or slice, and to terminate. The laws therefore
  hold of the code; `Codec` runs encoder and decoder together and states the round trip about them.

The main results are, in this order: `IntactMessages.RoundTripExact`, `Decoder.DecodeNoinit` and
`Encoder.Encode` (the code meets the meaning), `Codec.EncodeAndDecode` and `Codec.MeasureAndEncode` (the
same about runs of the code), `DecodeLaws.DecodeConcatenation`, `DecodeLaws.FieldOrderIndependence`,
`DecodeLaws.UnknownFieldsTransparent`, `RepeatedLaws.PackedUnpackedAgree`, `Truncation.TruncatedMessage`,
`Delimited.DelimitedRoundTrip`, `RequiredFields.BitmaskRefinesSet`, `Descriptor.AddressesRecovered` and
`Descriptor.MacrosGiveLayout` with `Iterator.FieldIter.Next`, and `Iterator.FieldIter.Find`.

How to read the two states: `State.View` is everything the decoder can tell apart in a struct,
including the payload of an absent optional field, because a later submessage is merged into it.
`State.Entries` is the protobuf message: payloads of absent fields, unused array slots and inactive
union members do not count. `DecodeInto` (pb_decode_noinit) maps a state to a state; two messages are
the same when their `Entries` are.

Where the code and what is said about it differ, the model follows the code.

- The decoder accepts a message whose last tag is cut off by the end of the stream (pb_decode.c:258-264),
  and stops at a zero tag word (pb_decode.c:266-270). "Every truncation is an error" is therefore false:
  `Truncation.CutOffTagAccepted` is an accepted one, and `Truncation.TruncatedMessage` says for every cut of
  every message whether it is accepted. `DecodeLaws.ZeroTagHidesTheRest` shows what the zero tag means for
  the merging that pb_decode.h:74-75 allows: the first part must be made of complete fields.
- A message is not always given back by decoding its encoding. A field without a has variable is left out
  when it looks like zero, and for a submessage only the data of the inner fields is looked at
  (pb_encode.c:225-266). `IntactMessages.RoundTripExact` gives the exact condition, `Intact`, and
  `LostMessages.ZeroSubmessageLost` a message that is lost. A string that fills its buffer without a
  terminator is written by the encoder but refused by the decoder; that is the other half of `Intact`, with
  the witness `LostMessages.FullStringRefused`.
- The required-field check shifts a 32-bit word by `32 - (r & 31)` and looks at word `r >> 5`
  (pb_decode.c:947), which C defines only when the number r of required fields is 0, or below 64 and not
  a multiple of 32. `Descriptor.RequiredCountOk` is that condition and part of `WellFormed`.
- A union member that is a submessage is cleared when it is seen again, not merged (pb_decode.c:415-424).
  `RepeatedLaws.SubmessageMerge` and `RepeatedLaws.LastOneWins` say which fields merge and which replace.
- The iterator recognises a union member by a data_offset of PB_SIZE_MAX between two oneof entries
  (pb_common.c:44-46). A gap of that many bytes between two different oneofs looks the same.
  `Descriptor.AddressesRecovered` is exact about it, and `Descriptor.GapMistaken` is such a struct.

## Model

| member | source | states |
|---|---|---|
| IntactMessages.RoundTripExact | Get together/Pods/nanopb/pb_encode.c:451-473 | for every descriptor and every struct that can be encoded with lengths below 2^32: decoding the bytes gives the same message if and only if the struct is intact (strings terminated, has-less fields that look like zero really are the default), and a successful decoding uses all the bytes |
| IntactMessages.SmallIsShort | Get together/Pods/nanopb/pb_decode.c:322-335 | an encoding below 2^32 bytes has no longer length inside, at any depth |
| Codec.EncodeAndDecode | Get together/Pods/nanopb/pb_decode.c:955-967 | the round trip of the code: encoding succeeds exactly when the message can be encoded and fits the buffer; decoding the bytes written into other memory, whatever it holds, leaves no bytes over and gives the same message if and only if the struct was intact |
| Codec.MeasureAndEncode | Get together/Pods/nanopb/pb_encode.c:480-489 | pb_get_encoded_size gives n, and pb_encode into a limited room succeeds exactly when n fits, writes exactly the n bytes of the encoding, and never touches what is behind |
| Encodable.MessageEncodes | Get together/Pods/nanopb/pb_encode.c:116-201 | a message can be encoded if and only if everything present in it fits: counts their arrays, bytes their buffers, and numbers are 1, 2, 4 or 8 bytes wide |
| Truncation.TruncatedMessage | Get together/Pods/nanopb/pb_decode.c:251-275 | a message cut off after n bytes decodes to what the complete records in it decode to when the cut lies between two records or strictly inside a tag, and is refused at every other cut |
| Truncation.TruncationAccepted | Get together/Pods/nanopb/pb_decode.c:863-917 | for an accepted message without required fields, a truncation is accepted if and only if the cut is such a clean one |
| Truncation.RecordCut | Get together/Pods/nanopb/pb_decode.c:173-287 | a record cut inside its tag reads as the end of the message, and cut anywhere behind the tag as an error |
| Truncation.CutOffTagAccepted | Get together/Pods/nanopb/pb_decode.c:258-264 | a concrete message cut inside its first tag is accepted as an empty one |
| IntactMessages.MessageExact | Get together/Pods/nanopb/pb_encode.c:205-267 | the state that comes back (`Echo`) is the same message exactly for intact structs, at every nesting depth |
| IntactMessages.QuietExact | Get together/Pods/nanopb/pb_decode.c:835-846 | a struct is the default message if and only if no optional is present, no array has items, no union is active and every other field has its default |
| RoundTrip.MessageDecodes | Get together/Pods/nanopb/pb_decode.c:955-967 | decoding an encoded message yields exactly its echo, with no bytes left, and fails exactly when there is no echo |
| RoundTrip.UpToDecodes | Get together/Pods/nanopb/pb_encode.c:457-470 | after the first n encoded entries the field loop holds the echo of those n, the defaults of the rest, and has seen exactly the required ones among them |
| RoundTrip.FieldDecodes | Get together/Pods/nanopb/pb_encode.c:271-349 | the records written for one entry turn its fresh state into its echo and touch no other entry |
| RoundTrip.ItemDecodes | Get together/Pods/nanopb/pb_decode.c:1165-1379 | each type's decoder undoes its encoder on one item, submessages included |
| RoundTrip.ItemFrames | Get together/Pods/nanopb/pb_encode.c:652-777 | whatever follows an encoded item, its payload is delimited exactly |
| WireLaws.TaggedSkippable | Get together/Pods/nanopb/pb_encode.c:559-590 | every single field is written with its number and wire type 0 for varints, 1 for fixed64, 5 for fixed32 and 2 for the rest, and a reader that does not declare it finds exactly its end |
| WireLaws.ScalarsArePacked | Get together/Pods/nanopb/pb_encode.c:129-171 | a nonempty array of scalars, even of one item, is exactly one record of wire type 2 |
| WireLaws.FieldLeftOut | Get together/Pods/nanopb/pb_encode.c:285-342 | an entry leaves no bytes if and only if its has variable is 0, or, without one, it holds zero (no text, no bytes, zero bytes, zeros all the way down a submessage), or its count is 0, or another member of its union is active; required fields always leave some |
| WireLaws.DefaultIsZero | Get together/Pods/nanopb/pb_encode.c:205-267 | the recursive zero test finds exactly the fields that hold zero in that sense |
| WireLaws.FieldsInOrder | Get together/Pods/nanopb/pb_encode.c:457-470 | the bytes of an entry stand right behind those of the entries before it in the descriptor |
| GuideExamples.SimpleMessage | Get together/Pods/nanopb/pb_encode.c:494-514 | 150 in field 1 is 08 96 01, as in the encoding guide |
| GuideExamples.FixedNumbers | Get together/Pods/nanopb/pb_encode.c:527-576 | a fixed32 in field 1 begins with 0D and a fixed64 with 09, lowest byte first |
| GuideExamples.PackedArray | Get together/Pods/nanopb/pb_encode.c:130-171 | 3, 270 and 86942 in field 4 are 22 06 03 8E 02 9E A7 05, as in the encoding guide |
| Delimited.DelimitedRoundTrip | Get together/Pods/nanopb/pb_decode.c:969-982 | a list of messages of any total length, written back to back with pb_encode_delimited, is read back as the same list with the following bytes untouched, if and only if all the structs are intact |
| Delimited.ReadOne | Get together/Pods/nanopb/pb_encode.c:475-478 | a successful read of one delimited message stops exactly at what follows, and gives back the same message if and only if the struct is intact |
| Delimited.DelimitedBody | Get together/Pods/nanopb/pb_decode.c:969-982 | a delimited message is its body decoded alone, and the stream goes on behind the body wherever in it the message ended |
| LostMessages.ZeroSubmessageLost | Get together/Pods/nanopb/pb_encode.c:225-244 | a concrete has-less submessage with a present zero inside: nothing is written, decoding succeeds and gives a different message |
| LostMessages.FullStringRefused | Get together/Pods/nanopb/pb_encode.c:755-762 | a concrete string that fills its buffer: it is written, and the decoder refuses the bytes |
| DecodeLaws.DecodeConcatenation | Get together/Pods/nanopb/pb_decode.c:852-953 | without required fields, decoding a++b into a message equals decoding a into it and then b into the result, in success, state and bytes left |
| DecodeLaws.DecodeConcatenationRequired | Get together/Pods/nanopb/pb_decode.c:908-949 | with required fields the same, except that both parts together must contain them all |
| DecodeLaws.LoopConcat | Get together/Pods/nanopb/pb_decode.c:863-917 | the field loop on a++b is the loop on a followed by the loop on b, carrying message and required fields over |
| DecodeLaws.LoopSeen | Get together/Pods/nanopb/pb_decode.c:908-913 | which required fields were seen before has no influence on what the loop does to the message |
| DecodeLaws.RecordExtends | Get together/Pods/nanopb/pb_decode.c:251-275 | where a record ends and what it says does not depend on the bytes behind it |
| DecodeLaws.ZeroTagHidesTheRest | Get together/Pods/nanopb/pb_decode.c:266-270 | behind a zero tag word nothing is read: the loop stops with everything after it left over |
| DecodeLaws.FieldOrderIndependence | Get together/Pods/nanopb/pb_decode.c:863-917 | anywhere in a message, two neighbouring complete fields with different tags that are not in one union may be swapped: success, result and leftover bytes stay the same |
| DecodeLaws.ApplyCommutes | Get together/Pods/nanopb/pb_decode.c:356-429 | updates of two entries outside one union commute, including when one of them fails |
| DecodeLaws.ApplyRecordCommutes | Get together/Pods/nanopb/pb_decode.c:877-916 | so do whole records, declared or unknown, together with the required fields they mark |
| DecodeLaws.UnknownFieldsTransparent | Get together/Pods/nanopb/pb_decode.c:877-906 | dropping every record with an undeclared tag from a message changes neither success nor the decoded message |
| DecodeLaws.UnknownFieldInserted | Get together/Pods/nanopb/pb_decode.c:902-905 | one complete undeclared field inserted between complete fields changes nothing |
| DecodeLaws.SkipUndeclaredExact | Get together/Pods/nanopb/pb_decode.c:277-287 | by the wire type alone, skipping takes a varint up to its last byte (0), eight bytes (1), a length and that many bytes (2) or four bytes (5), fails exactly when they are not there, and refuses 3, 4, 6 and 7 |
| DecodeLaws.UndeclaredRecord | Get together/Pods/nanopb/pb_decode.c:877-906 | an undeclared field is a record exactly when such a payload stands behind its tag, and ends with it; number 0 is refused in an empty message |
| DecodeLaws.WireTypeIgnored | Get together/Pods/nanopb/pb_decode.c:356-429 | a declared field is decoded by its own type whatever the wire type says, arrays of scalars aside |
| DecodeLaws.RequiredPresent | Get together/Pods/nanopb/pb_decode.c:908-949 | a message whose fields are all accepted is accepted if and only if it has a record of every required field |
| DecodeLaws.AbsentFieldKept | Get together/Pods/nanopb/pb_decode.c:863-917 | a field without record, and without record of its union, keeps its state |
| DecodeLaws.AbsentFieldDefault | Get together/Pods/nanopb/pb_decode.c:955-967 | after pb_decode such a field has the default bytes of its descriptor, or zeros, at every depth; optionals are absent, arrays empty, unions inactive |
| DecodeLaws.RecordAlone | Get together/Pods/nanopb/pb_decode.c:231-287 | a record cut out of its surroundings is the same record: reading or skipping it consumed exactly its bytes |
| RepeatedLaws.PackedUnpackedAgree | Get together/Pods/nanopb/pb_decode.c:374-413 | a packable array delivered as packed runs, single records or any mix of both leaves the same array, fails in the same cases and lets the rest of the message continue identically |
| RepeatedLaws.Delivered | Get together/Pods/nanopb/pb_decode.c:374-413 | every such delivery is the one-by-one appending of its items |
| RepeatedLaws.PackedIsAppendAll | Get together/Pods/nanopb/pb_decode.c:385-399 | a packed body appends its items in order, all or nothing |
| RepeatedLaws.AppendAllExact | Get together/Pods/nanopb/pb_decode.c:408-409 | the items are accepted exactly when each survives its cast and they all fit into array_size; then the count grows by their number, the old elements stay and the new ones follow in order |
| RepeatedLaws.SubmessageMerge | Get together/Pods/nanopb/pb_decode.c:1346-1351 | two records of one submessage field without required fields do what one record with the concatenated bodies does |
| RepeatedLaws.SubmessageMergeRequired | Get together/Pods/nanopb/pb_decode.c:1334-1356 | with required inner fields the merged content is the same; one record with both bodies is accepted when they contain all of them together, two records only when each contains all of them |
| RepeatedLaws.FreshSubmessage | Get together/Pods/nanopb/pb_decode.c:1346-1351 | a submessage in an array or a union is decoded alone from its defaults, whatever was there |
| RepeatedLaws.LastOneWins | Get together/Pods/nanopb/pb_decode.c:415-424 | of two records for one scalar, string or bytes field, or for two members of one union (submessages included), only the second counts |
| RepeatedLaws.ParseTagged | Get together/Pods/nanopb/pb_encode.c:553-557 | a tag written by the encoder selects its own entry and the framing of that entry |
| DecodeSpec.DecodeTag | Get together/Pods/nanopb/pb_decode.c:251-275 | a decoded tag is below 2^29 with a wire type below 8, is not zero, and consumes at least one byte |
| DecodeSpec.TagMeaning | Get together/Pods/nanopb/pb_decode.c:251-275 | the tag is the low 32 bits of a varint of at most five bytes; a zero word or a stream of at most five unfinished bytes is a clean end, a longer unfinished one an error |
| DecodeSpec.TagRoundTrip | Get together/Pods/nanopb/pb_encode.c:553-557 | every tag word for a field number below 2^29 is recovered by pb_decode_tag, in at most five bytes |
| DecodeSpec.ParseRecord | Get together/Pods/nanopb/pb_decode.c:863-906 | every record consumes at least one byte and its body is strictly shorter than what was left, so the loop and the nested loops end on every input |
| DecodeSpec.Frame | Get together/Pods/nanopb/pb_decode.c:277-287 | what a field consumes is a prefix of the stream and never more than what is left |
| Wire.VarintRoundTrip | Get together/Pods/nanopb/pb_encode.c:494-514 | every 64-bit value takes at most ten bytes and is read back, whatever follows |
| Wire.EncVarintLength | Get together/Pods/nanopb/pb_encode.c:505-511 | the length of a varint is the least k >= 1 with v < 128^k |
| Wire.Varint32RoundTrip | Get together/Pods/nanopb/pb_decode.c:173-207 | every 32-bit value takes at most five bytes and is read back by the 32-bit reader |
| Wire.Varint32Refines64 | Get together/Pods/nanopb/pb_decode.c:173-229 | the 32-bit reader succeeds exactly on the varints that end within five bytes, consumes what the 64-bit reader consumes and returns its value modulo 2^32 |
| Wire.VarintsRead | Get together/Pods/nanopb/pb_decode.c:173-229 | a varint of k bytes is read exactly when k is at most ten, or five, as the number of its seven-bit groups modulo 2^64, or 2^32, and nothing behind it is consumed |
| Wire.RawVarintPrefix | Get together/Pods/nanopb/pb_decode.c:209-229 | bytes behind a varint have no influence on how it is read |
| Wire.ZigZagBijection | Get together/Pods/nanopb/pb_encode.c:516-525 | zig-zag is a bijection between int64 and uint64, and maps v to 2v or -2v-1 |
| Scalars.NumberRoundTrip | Get together/Pods/nanopb/pb_decode.c:1165-1248 | a varint, uvarint or svarint variable of 1, 2, 4 or 8 bytes comes back unchanged for every content, minimum values included |
| Scalars.NumberMeaning | Get together/Pods/nanopb/pb_encode.c:652-704 | the number written for a variable of any width stands for its value as a 64-bit number: int fields are sign-extended |
| Scalars.NegativeTakesTen | Get together/Pods/nanopb/pb_encode.c:652-668 | a negative int variable of any width takes ten bytes |
| Scalars.WiderReader | Get together/Pods/nanopb/pb_decode.c:1165-1248 | a reader with a variable at least as wide gets the same value, for all three types |
| Scalars.NarrowReader | Get together/Pods/nanopb/pb_decode.c:1173-1197 | an int variable narrower than 64 bits takes the value x exactly from the numbers that agree with x in their low 32 bits |
| Scalars.SignExtension | Get together/Pods/nanopb/pb_decode.c:1173-1182 | widening a signed value to 64 bits and cutting it back to 32 loses nothing |
| Scalars.DecNumberExact | Get together/Pods/nanopb/pb_decode.c:1165-1248 | a number is accepted exactly when the value the decoder sees in it is in the range of the variable, and the variable then holds that value; for int fields narrower than 64 bits the value seen is that of the low 32 bits |
| Descriptor.AddressesRecovered | Get together/Pods/nanopb/pb.h:391-401 | the offsets recovered from a descriptor that the offset macros filled in are those offsetof gave, for every entry, if and only if no entry behind a gap of PB_SIZE_MAX bytes between two oneofs is mistaken for a union member; the size variables are then found too |
| Descriptor.GapMistaken | Get together/Pods/nanopb/pb_common.c:44-50 | a concrete descriptor with such a gap: the second oneof is looked for at the address of the first |
| Descriptor.MacrosGiveLayout | Get together/Pods/nanopb/pb.h:403-428 | what the macros write for a C struct whose members are inside it and apart (members of one union aside) is a descriptor whose recovered addresses are inside the struct and apart in the same way |
| State.WriteKeepsOthers | Get together/Pods/nanopb/pb_decode.c:356-429 | writing the bytes of one entry leaves the state of every entry outside its union as it was |
| State.OtherMembersInactive | Get together/Pods/nanopb/pb_decode.c:416-416 | after a member's tag, or zero, is stored in the which variable no other member is active |
| EntryMemory.ViewSet | Get together/Pods/nanopb/pb_decode.c:356-429 | a write to one entry's bytes changes the state of the whole message exactly as `SetEntry` says |
| EntryMemory.FieldWritten | Get together/Pods/nanopb/pb_common.c:72-73 | the same at the addresses the iterator gives, for a struct anywhere in memory |
| EntryMemory.ItemAppended | Get together/Pods/nanopb/pb_decode.c:387-393 | writing element k and the count k + 1 appends that element and keeps the first k |
| Iterator.FieldIter.Begin | Get together/Pods/nanopb/pb_common.c:8-18 | establishes the address invariant at the first entry and tells whether there is one |
| Iterator.FieldIter.Next | Get together/Pods/nanopb/pb_common.c:20-76 | keeps the address invariant (pData is the struct base plus the entry's absolute offset, pSize its size variable, required_field_index the number of required entries before it) on every step, inside unions and over the wrap-around |
| Iterator.FieldIter.Find | Get together/Pods/nanopb/pb_common.c:78-95 | the circular search from any position ends within one cycle, lands on an entry with the tag if there is one, and otherwise leaves the iterator where it was |
| Iterator.SearchLandsOnce | Get together/Pods/nanopb/pb_common.c:78-95 | with distinct tags the state after a successful search is the same whatever the start |
| Iterator.FieldIter.FindExtension | Get together/Pods/nanopb/pb_decode.c:748-760 | the same circular search for an extension placeholder; without one the iterator stays where it was |
| Memory.Load | Get together/Pods/nanopb/pb_encode.c:652-686 | reading a variable gives the number its bytes stand for |
| Memory.Store | Get together/Pods/nanopb/pb_decode.c:1184-1194 | storing a variable writes the low bytes of the value and nothing else |
| Memory.Fill | Get together/Pods/nanopb/pb_decode.c:805-814 | memcpy and memset: exactly the given bytes at the given place |
| InputStreams.ReadNext | Get together/Pods/nanopb/pb_decode.c:215-225 | the loop invariant of the varint readers: one more byte adds its seven bits above those read before |
| InputStreams.ShiftIn | Get together/Pods/nanopb/pb_decode.c:223-224 | shifting a byte's bits into a 64-bit or 32-bit word agrees with the unbounded value modulo the word |
| InputStreams.IStream.FromBuffer | Get together/Pods/nanopb/pb_decode.c:145-167 | a stream over the first size bytes of a buffer |
| InputStreams.IStream.Read | Get together/Pods/nanopb/pb_decode.c:76-123 | succeeds exactly when enough bytes are left, copies them, keeps position plus bytes left, and changes nothing on failure |
| InputStreams.IStream.Skip | Get together/Pods/nanopb/pb_decode.c:91-123 | the same without a destination |
| InputStreams.IStream.ReadByte | Get together/Pods/nanopb/pb_decode.c:127-143 | one byte, the ledger kept |
| InputStreams.IStream.DecodeVarint | Get together/Pods/nanopb/pb_decode.c:209-229 | the shift loop computes the varint modulo 2^64, consumes exactly it, and fails exactly when it does not end within ten bytes or within the stream |
| InputStreams.IStream.DecodeVarint32 | Get together/Pods/nanopb/pb_decode.c:173-207 | the same modulo 2^32 within five bytes; after a failure no bytes are left exactly when at most five were there |
| InputStreams.IStream.DecodeSvarint | Get together/Pods/nanopb/pb_decode.c:1118-1130 | the inverse zig-zag of the varint |
| InputStreams.IStream.SkipVarint | Get together/Pods/nanopb/pb_decode.c:231-240 | skips exactly one varint of any length |
| InputStreams.IStream.SkipString | Get together/Pods/nanopb/pb_decode.c:242-249 | skips exactly one length-delimited chunk |
| InputStreams.IStream.DecodeTag | Get together/Pods/nanopb/pb_decode.c:251-275 | tag, clean end or error, as `DecodeSpec.DecodeTag` |
| InputStreams.IStream.SkipField | Get together/Pods/nanopb/pb_decode.c:277-287 | consumes exactly the payload the wire type announces (a varint, 8 bytes, a length and its bytes, 4 bytes) and fails exactly when there is none, with the ledger kept |
| InputStreams.IStream.MakeStringSubstream | Get together/Pods/nanopb/pb_decode.c:322-335 | opening a slice: the substream may hand out exactly the chunk, its bytes are booked out of the parent, and what the parent keeps is exactly what follows the chunk |
| InputStreams.IStream.CloseStringSubstream | Get together/Pods/nanopb/pb_decode.c:337-350 | closing sets the parent to the end of the slice, whatever the substream had left, and never fails |
| RequiredFields.HoldsMore | Get together/Pods/nanopb/pb_decode.c:911-912 | or-ing a bit into the words adds exactly that ordinal to the set they stand for |
| RequiredFields.LowBits | Get together/Pods/nanopb/pb_decode.c:947-947 | a word equals 2^n - 1 exactly when its set bits are the n lowest |
| RequiredFields.MaskValue | Get together/Pods/nanopb/pb_decode.c:947-947 | allbits >> (32 - n) is 2^n - 1 |
| RequiredFields.WordsCompleteExact | Get together/Pods/nanopb/pb_decode.c:937-949 | the test on the words passes exactly when all r ordinals are in the set |
| RequiredFields.OrdinalsComplete | Get together/Pods/nanopb/pb_common.c:65-70 | the ordinals below the count are all there exactly when every required entry was seen |
| RequiredFields.BitmaskRefinesSet | Get together/Pods/nanopb/pb_decode.c:908-952 | the final test on the bitmask passes if and only if every required field of the descriptor was seen |
| FieldDecoders.DecUvarint | Get together/Pods/nanopb/pb_decode.c:1202-1224 | reads, narrows, stores and checks as `Scalars.DecNumber`, inside the variable only |
| FieldDecoders.DecSignedVarint | Get together/Pods/nanopb/pb_decode.c:1165-1200 | the same for int and sint fields, with the cut to 32 bits for narrower int fields |
| FieldDecoders.DecFixed | Get together/Pods/nanopb/pb_decode.c:1132-1163 | four or eight bytes put together and stored are the bytes read |
| FieldDecoders.DecBytes | Get together/Pods/nanopb/pb_decode.c:1262-1297 | accepted exactly when the bytes fit behind the length variable; then that variable holds their number and they follow |
| FieldDecoders.DecString | Get together/Pods/nanopb/pb_decode.c:1299-1332 | accepted exactly when there is room for a terminator; then the characters and a NUL are in the buffer |
| FieldDecoders.DecFixedLengthBytes | Get together/Pods/nanopb/pb_decode.c:1358-1379 | accepted exactly when there are data_size bytes, which are stored, or none, which stands for zeros |
| Initializer.FieldSetToDefault | Get together/Pods/nanopb/pb_decode.c:763-833 | one entry has the default bytes of its descriptor, or zeros, and its has, count or which variable is 0, whatever was there, and nothing else changed; that is its default state |
| Initializer.MessageSetToDefaults | Get together/Pods/nanopb/pb_decode.c:835-846 | the same for the whole struct, byte by byte at every depth, whatever was in memory |
| Decoder.DecodeItem | Get together/Pods/nanopb/pb_decode.c:361-367 | the decoder of the type does what `ItemValue` says and stays inside the item |
| Decoder.DecSubmessage | Get together/Pods/nanopb/pb_decode.c:1334-1356 | merges into the struct in place, an array element starts from its defaults; the parent stream ends exactly behind the slice |
| Decoder.DecodeSingle | Get together/Pods/nanopb/pb_decode.c:366-372 | the has variable is 1 afterwards; with the decoded item that is `ApplyEntry` on the entry |
| Decoder.DecodeMember | Get together/Pods/nanopb/pb_decode.c:415-424 | the member becomes the active one, a submessage is reset first |
| Decoder.DecodeElement | Get together/Pods/nanopb/pb_decode.c:403-413 | one element appended, or an overflow error |
| Decoder.DecodePacked | Get together/Pods/nanopb/pb_decode.c:374-402 | the elements of the slice appended in place, with the overflow and the broken element refused; on success the stream ends behind the slice |
| Decoder.DecodeStaticField | Get together/Pods/nanopb/pb_decode.c:356-429 | one field does to its entry what `ApplyEntry` says and writes nowhere else |
| Decoder.SkipUnknown | Get together/Pods/nanopb/pb_decode.c:877-906 | with no extension registered an undeclared field is skipped, whether or not the descriptor has a placeholder; without one the iterator does not move |
| Decoder.MarkSeen | Get together/Pods/nanopb/pb_decode.c:908-913 | the words hold exactly the ordinals of the required fields seen so far |
| Decoder.CountRequired | Get together/Pods/nanopb/pb_decode.c:925-935 | walking the iterator to its end from anywhere, with the fix-up for the last entry, counts the required fields |
| Decoder.AllSeen | Get together/Pods/nanopb/pb_decode.c:919-950 | wherever the iterator stands, the final check on the words succeeds exactly when every required field was seen |
| Decoder.CheckRequired | Get together/Pods/nanopb/pb_decode.c:937-949 | the loop over whole words and the masked word is `WordsComplete` |
| Decoder.DecodeNoinit | Get together/Pods/nanopb/pb_decode.c:852-953 | pb_decode_noinit on a struct in memory is `DecodeInto` on its state: same success, same state, same bytes left, nothing written outside the struct, and the ledger kept |
| Decoder.Decode | Get together/Pods/nanopb/pb_decode.c:955-967 | success and the decoded state depend only on the bytes, not on what was in memory |
| Decoder.DecodeDelimited | Get together/Pods/nanopb/pb_decode.c:969-982 | the same for a length-prefixed message, leaving the stream exactly behind it |
| OutputStreams.DidThen | Get together/Pods/nanopb/pb_encode.c:91-109 | writing a and then b is writing a + b, including where it fails |
| OutputStreams.OStream.FromBuffer | Get together/Pods/nanopb/pb_encode.c:74-89 | a stream that may write the first size bytes of a buffer |
| OutputStreams.OStream.Write | Get together/Pods/nanopb/pb_encode.c:62-109 | appends the bytes, or fails untouched exactly when they do not fit; a sizing stream counts |
| Encoder.VarintBytes | Get together/Pods/nanopb/pb_encode.c:496-511 | the loop fills a ten-byte buffer with the varint and never overruns it |
| Encoder.EncodeVarint | Get together/Pods/nanopb/pb_encode.c:494-514 | appends the varint |
| Encoder.EncodeSvarint | Get together/Pods/nanopb/pb_encode.c:516-525 | appends the varint of the zig-zag value |
| Encoder.EncodeFixed | Get together/Pods/nanopb/pb_encode.c:527-551 | appends the word, lowest byte first |
| Encoder.EncodeTagForField | Get together/Pods/nanopb/pb_encode.c:559-590 | appends the tag word with the wire type of the field's type, which `WireLaws.TaggedSkippable` fixes |
| Encoder.EncodeString | Get together/Pods/nanopb/pb_encode.c:592-598 | appends length and bytes |
| Encoder.EncNumberField | Get together/Pods/nanopb/pb_encode.c:652-704 | appends the 64-bit number of a variable of 1, 2, 4 or 8 bytes, which `Scalars.NumberMeaning` fixes, and refuses other sizes |
| Encoder.EncBytes | Get together/Pods/nanopb/pb_encode.c:718-737 | appends the bytes, or refuses a length beyond the buffer |
| Encoder.EncString | Get together/Pods/nanopb/pb_encode.c:739-763 | finds the terminator or the end of the buffer and appends the text |
| Encoder.CheckDefault | Get together/Pods/nanopb/pb_encode.c:205-267 | the recursive zero test is `IsDefault` |
| Encoder.EncodeArray | Get together/Pods/nanopb/pb_encode.c:116-201 | nothing for no items, an error beyond array_size, scalars packed, others tagged one by one |
| Encoder.EncodePacked | Get together/Pods/nanopb/pb_encode.c:130-171 | the size found beforehand, by a product or a sizing stream, is the size of what is then written |
| Encoder.EncodeBasicField | Get together/Pods/nanopb/pb_encode.c:271-349 | one entry by its has, count or which variable, or by the zero test; `WireLaws.FieldLeftOut` fixes when it writes nothing |
| Encoder.EncodeSubmessage | Get together/Pods/nanopb/pb_encode.c:600-648 | the sizing pass and the write agree at every nesting depth, so the branch for a changed size is dead; the substream stays inside its slice |
| Encoder.Encode | Get together/Pods/nanopb/pb_encode.c:451-473 | pb_encode succeeds exactly when the message can be encoded and fits, then appends its encoding; nothing outside the stream's room is touched |
| Encoder.EncodeDelimited | Get together/Pods/nanopb/pb_encode.c:475-478 | the same with the length in front |
| Encoder.GetEncodedSize | Get together/Pods/nanopb/pb_encode.c:480-489 | the exact length of the encoding, or failure exactly when there is none |

## Left out

- RoundTripExact: every length inside the encoding, of a submessage or of a packed array, is below 2^32 (`Short`). The decoder reads lengths with a 32-bit varint, and what it makes of a longer one is not stated. The message itself may have any length, and `SmallIsShort` gives the condition for all messages below 2^32 bytes.
- DelimitedRoundTrip: the length in front of each message is below 2^32, for the same reason.
- PackedUnpackedAgree: a single record may have any wire type but 2, and each packed run is shorter than 2^32 bytes, the longest length the decoder can read.
- DecodeConcatenation: the first part must be made of complete fields; a cut-off tag or a zero tag ends the message, see `ZeroTagHidesTheRest`.
- Pointer fields, `allocate_field` and `pb_release`: PB_ENABLE_MALLOC is off in this pod.
- Callback fields and custom stream callbacks: their behaviour is user code. Streams are memory buffers, or the sizing stream.
- Extension fields: no extension is registered, so `decode_extension` and `encode_extension_field` do nothing, and a well-formed descriptor has no placeholder for them. The search for the placeholder is modelled.
- Error messages: success or failure only.
- `size_t`: unbounded here, apart from the cast of lengths to 64 bits, so overflow of a size computation is not modelled.
- Host representation: little-endian memory, two's complement; float and double are 32-bit and 64-bit words; struct padding is free space between entries. PB_NO_PACKED_STRUCTS has no influence.
- Type bytes: the masks of `pb.h` are modelled as three enumerations, and `|=` of disjoint bits as an addition.
- Self-referential descriptors: a statically allocated struct cannot contain itself. `DecodeInto` itself recurses on the bytes left only.
- Counts of required fields that are 64 or more, or nonzero multiples of 32: the check is undefined in C for them.
- The input buffer: a value rather than an array, because nothing writes to it.
- The app itself and the other pods: view code and interface declarations without bodies.
