# Verified model of the SMOLO+ message codec and order handling

The app SMOLO+ ships nanopb 0.3.8, a table-driven Protocol Buffers encoder and decoder, and turns order
snapshots into bills that guests pay in parts. This project models both in Dafny and proves what they promise.

`dafny verify dfyconfig.toml` checks everything.

**The codec.** A descriptor (`Descriptor.Field`) is an entry of a `pb_field_t` array; a message is a sequence of
slots, one per entry, with the members of a union sharing one. The configuration is the one the app builds with:
`PB_FIELD_32BIT` and no `PB_ENABLE_MALLOC`.

- `Varint`, `Scalars`: base-128 varints, zigzag, narrow fields, fixed-width words.
- `DecodeSpec`, `EncodeSpec`: what decoder and encoder compute, as functions of bytes and messages.
- `WireFormat`, `WireExamples`: the bytes themselves, digit by digit and on the documentation's example messages.
- `SentRecords`: which records a message is encoded to, and which values are not sent; `ZeroTags`: where a message ends.
- `DefaultValues`, `Initialised`: what fields that were not sent hold, in the message and in the bytes of the struct.
- `Delivery`, `Evolution`, `RoundTrip`: encode, then decode, with the same or another version of the descriptor.
- `Truncation`: which prefixes of an encoded message are accepted.
- `Merging`, `PackedRuns`, `DecodeSafety`, `RequiredBits`, `FailedRuns`: laws of the decoder on arbitrary input.
- `InputStream`, `OutputStream`, `FieldIterator`: streams and iterator as they run, updating state in place.
- `StructLayout`: which bytes of a C struct represent which message; `ArrayCounts`: when its array counts are in bounds.
- `MemoryCells`, `StructMemory`: the decoder as it runs, storing through the iterator's pointers into a byte array,
  proved to compute what `DecodeSpec` says on every input.
- `StaleEntries`, `StaleExample`: what a failed decode leaves behind.
- `Encoder`, `StructEncode`: the two-pass encoder as it runs, proved to compute what `EncodeSpec` says, and its loads
  from struct memory.
- `Allocation`: size arithmetic and growth of packed pointer arrays.

**The orders.** `OrderBuilder` builds parallel nested lists from an order's tree, `OrderArrival` collects orders as their
IDs and snapshots come in, `TableMerge` flattens the orders of each table into a bill, `SplitPayment` selects
quantities to pay (`PaymentCounts`: how many), and `OrderFlow` joins them; `LateBills` is about bills that are merged twice.

Where code and expectation differ, the model follows the code:

- A tag that cannot be read because the input ends counts as a normal end, so some truncated messages are accepted:
  exactly those `Truncation.TruncatedIff` describes.
- The last-word comparison of the required-field check shifts by 32 when the required count is a nonzero multiple
  of 32, which C leaves undefined, and it reads past the two words from 64 on. `RequiredBits.UndefinedIff` says exactly
  when that happens; `Decodable` asks for tracked counts at every depth. On other descriptors `DecodeSpec` is still a
  function, but says nothing about the code.
- An array entry is counted before it is decoded. When the length prefix of a submessage entry cannot be read, the entry
  stays as it was before the call, and so do the counts inside it. `StructMemory.DecodeAt` says exactly when a failed
  decode leaves a count beyond its array_size; `StaleExample.FailedDecode` is a case.
- A message that fits its struct need not survive the round trip: an unterminated string is sent but refused by the
  reader, and contents of absent fields are lost. `RoundTrip.EncodeThenDecode` says exactly when it does.
- An empty descriptor's terminator matches tag 0, so a record with tag 0 and a nonzero wire type is rejected there
  and skipped everywhere else.
- Bill rows are labelled by looking equal groups up, so equal groups get the first one's label
  (`TableMerge.LabelsRightIff`).
- The selected table's name starts out empty, so a run of the payment screen fails if it begins with a tap on a table
  with an empty name, and in no other case (`SplitPayment.RunSafe`).
- When an order becomes known after all earlier ones were complete, the earlier ones are listed again: the merge bills
  them twice and misses the new one (`OrderArrival.LateOrder`), and first taps on the new bills fail
  (`LateBills.LaterBillsFail`); `OrderArrival.OnceIff` and `OrderFlow.SafeIffFirst` say when all is well.
- The bill's own list of item IDs is always empty, because the accumulator is cleared after each order.

## Model

| member | source | states |
|---|---|---|
| `Delivery.LoopArrives` | SMOLO+/Pods/nanopb/pb_decode.c:863-917 | The same from any intermediate state of the record loop, for any suffix of the writer's entries and any bytes after them |
| `Delivery.RecordStep` | SMOLO+/Pods/nanopb/pb_decode.c:863-917 | One encoded record moves the reader by exactly one delivery, or by nothing if its tag is unknown |
| `Delivery.RunStep` | SMOLO+/Pods/nanopb/pb_decode.c:374-400 | One packed record appends its whole run or fails, and an unknown one is skipped whole |
| `Records.SkipItem` | SMOLO+/Pods/nanopb/pb_decode.c:231-287 | Skipping an encoded item consumes exactly its bytes, whatever its type or nesting |
| `Records.ReadTagBytes` | SMOLO+/Pods/nanopb/pb_decode.c:251-275 | The tag decoder inverts the tag encoder for every nonzero tag below 2^29 and every wire type |
| `Records.ScalarArrives` | SMOLO+/Pods/nanopb/pb_decode.c:1165-1260 | A scalar written for one width and read at another arrives as the reader's width check decides, consuming exactly its bytes |
| `Records.ScalarSurvives` | SMOLO+/Pods/nanopb/pb_encode.c:652-716 | At equal widths every value the cell can hold arrives unchanged |
| `Records.RunSurvives` | SMOLO+/Pods/nanopb/pb_encode.c:116-201 | A packed run arrives whole, in order, exactly when the array has room for it |
| `EncodeSpec.FitsEncodes` | SMOLO+/Pods/nanopb/pb_encode.c:451-473 | The encoder reports no error on any message that fits its struct |
| `RoundTrip.EncodeThenDecode` | SMOLO+/Pods/nanopb/pb_encode.c:451-473 | For every well-formed descriptor the decoder can run on (nested messages, unions, arrays, defaults) and every message that fits its struct with 32-bit lengths: encoding succeeds, and decoding gives the same message with nothing left over if and only if every sent string is terminated and every absent part holds its default |
| `RoundTrip.DecodeAfterEncode` | SMOLO+/Pods/nanopb/pb_decode.c:835-967 | Without that restriction, decoding what was encoded fails exactly on an unterminated sent string and otherwise yields the canonical form of the message |
| `RoundTrip.CanonFixed` | SMOLO+/Pods/nanopb/pb_encode.c:205-267 | A message is its own canonical form if and only if absent fields, at every depth, are at their defaults, unions name a known member or none, and no string holds a zero byte |
| `RoundTrip.AcceptsOwn` | SMOLO+/Pods/nanopb/pb_decode.c:1299-1332 | A struct has room for its own messages exactly as far as their sent strings end inside their buffers |
| `Evolution.DecodeProjects` | SMOLO+/Pods/nanopb/pb_decode.c:852-953 | Decoding with another version of the descriptor (entries dropped, added or reordered, array and string capacities changed, entries newly required, at any depth) succeeds exactly if the reader requires nothing the writer does not know and has room for what it is sent, and then yields exactly the projection onto the common entries |
| `Evolution.ProjectionOfEntry` | SMOLO+/Pods/nanopb/pb_decode.c:877-906 | What that projection is, entry by entry: the sent slot if the writer knows and sent the entry, otherwise the reader's default |
| `Evolution.ProjectionOfUnion` | SMOLO+/Pods/nanopb/pb_decode.c:763-846 | A union none of whose members known to the reader was sent reads as empty |
| `Evolution.ProjectLast` | SMOLO+/Pods/nanopb/pb_decode.c:416-424 | When several records land in one union, the last one sent decides its content |
| `Delivery.MessageArrives` | SMOLO+/Pods/nanopb/pb_decode.c:852-953 | Decoding with any compatible reader descriptor whose required counts the check can handle, on top of any struct contents, what the writer encoded equals delivery on values: tags matched, unknown entries dropped, submessages merged, arrays appended up to capacity |
| `Truncation.TruncatedIff` | SMOLO+/Pods/nanopb/pb_decode.c:251-275 | A proper prefix of an encoded message is accepted if and only if the cut lies between two of its top-level records or inside the tag of one, and every required entry has its record before the cut |
| `Truncation.LoopCut` | SMOLO+/Pods/nanopb/pb_decode.c:863-917 | The record loop on a prefix of a record sequence fails exactly if the cut lies behind a tag, and otherwise has met exactly the entries of the whole records |
| `Truncation.CutDelimited` | SMOLO+/Pods/nanopb/pb_decode.c:322-335 | No proper prefix of a length-delimited payload can be taken |
| `Truncation.HalfTagAccepted` | SMOLO+/Pods/nanopb/pb_decode.c:258-264 | A concrete truncated message that is accepted: half of a two-byte tag |
| `SentRecords.ImplicitSent` | SMOLO+/Pods/nanopb/pb_encode.c:205-284 | A field without a has_ cell writes nothing if and only if its value is 0, empty bytes, a string that is empty or starts with 0, or a fixed length of 0; any other value is its tag and its item |
| `SentRecords.EncodedHeads` | SMOLO+/Pods/nanopb/pb_encode.c:271-387 | Read without a descriptor, an encoded message has exactly the records its entries should send, by field number and wire type, in the descriptor's order: one per present value, one packed record per nonempty array of numbers, one per item of other arrays |
| `SentRecords.HeadsUnique` | SMOLO+/Pods/nanopb/pb_decode.c:251-287 | There is only one way to read a byte string as records |
| `SentRecords.EncodesIff` | SMOLO+/Pods/nanopb/pb_encode.c:116-201 | The encoder reports an error exactly if something it sends is an array over its array_size or bytes over their buffer |
| `StructEncode.ImplicitInMemory` | SMOLO+/Pods/nanopb/pb_encode.c:205-267 | On struct memory: a field without a has_ cell is left out if and only if its bytes are zero, as far as its type reads them: all of an integer, the size of bytes, the first byte of a string |
| `ZeroTags.ZeroEnds` | SMOLO+/Pods/nanopb/pb_decode.c:266-270 | A zero byte in place of a tag ends the message, and all behind it is left |
| `ZeroTags.UnreadableTag` | SMOLO+/Pods/nanopb/pb_decode.c:258-264 | A tag that cannot be read ends the message exactly if at most five bytes are left, and is an error otherwise |
| `ZeroTags.ReadableTag` | SMOLO+/Pods/nanopb/pb_decode.c:266-274 | Any other input starts with a number: only a zero, overlong or not, ends the message |
| `ZeroTags.ZeroTerminated` | SMOLO+/Pods/nanopb/pb_decode.c:266-270 | Whole records followed by a zero byte decode like the records alone, and exactly what follows the zero is left |
| `ZeroTags.NestedZero` | SMOLO+/Pods/nanopb/pb_decode.c:1334-1356 | The same inside a submessage, whose declared length still decides where the outer message goes on |
| `ZeroTags.EncodedThenZero` | SMOLO+/Pods/nanopb/pb_decode.c:266-270 | An encoded message followed by a zero byte and anything else decodes to the message's canonical form and leaves exactly the rest |
| `WireFormat.VarintByte` | SMOLO+/Pods/nanopb/pb_encode.c:494-514 | Byte k of a varint: group k of seven bits, low groups first, and a continuation bit on all bytes but the last |
| `WireFormat.VarintLength` | SMOLO+/Pods/nanopb/pb_encode.c:494-514 | n bytes exactly for the values of n groups |
| `WireFormat.ReadGroup` | SMOLO+/Pods/nanopb/pb_decode.c:209-229 | Reading, canonical or overlong: group k of the value is in byte k |
| `WireFormat.ReadBound` | SMOLO+/Pods/nanopb/pb_decode.c:209-229 | And nothing is above the last group read |
| `WireFormat.WordByte` | SMOLO+/Pods/nanopb/pb_encode.c:527-551 | Byte k of a fixed-width word, low byte first |
| `WireFormat.TagByte` | SMOLO+/Pods/nanopb/pb_encode.c:553-557 | The wire type is in the low three bits of a tag, the field number above them; one byte up to number 15 |
| `WireFormat.NegativeTakesTen` | SMOLO+/Pods/nanopb/pb_encode.c:652-668 | A negative number of a plain signed field takes ten bytes at any width |
| `WireFormat.AnyWidth` | SMOLO+/Pods/nanopb/pb_decode.c:1165-1248 | A number arrives unchanged in a cell of any width that can hold it, whatever width it was sent from |
| `WireFormat.UnknownWireFails` | SMOLO+/Pods/nanopb/pb_decode.c:277-287 | An unknown field with a wire type for groups, or an unassigned one, is an error |
| `WireFormat.UnknownIsSkipped` | SMOLO+/Pods/nanopb/pb_decode.c:277-287 | Unknown fields of the other wire types change nothing |
| `WireFormat.WireIgnored` | SMOLO+/Pods/nanopb/pb_decode.c:356-429 | The wire type of a known field only tells a packed run from a single item |
| `WireFormat.FixedLengthRead` | SMOLO+/Pods/nanopb/pb_decode.c:1358-1379 | Fixed-length bytes: an empty record is zeros, any other wrong length an error |
| `WireFormat.NumberZero` | SMOLO+/Pods/nanopb/pb_decode.c:877-894 | Field number 0 with a nonzero wire type: an error in a descriptor without entries, skipped in every other |
| `WireExamples.Number150` | SMOLO+/Pods/nanopb/pb_encode.c:494-514 | int32 150 in field 1 is 08 96 01 |
| `WireExamples.TextTesting` | SMOLO+/Pods/nanopb/pb_encode.c:592-598 | The text "testing" in field 2 is 12 07 and its bytes |
| `WireExamples.NestedNumber150` | SMOLO+/Pods/nanopb/pb_encode.c:600-648 | The first message nested in field 3 is 1A 03 08 96 01 |
| `WireExamples.PackedNumbers` | SMOLO+/Pods/nanopb/pb_encode.c:116-170 | 3, 270 and 86942 packed in field 6 are 32 06 03 8E 02 9E A7 05 |
| `WireExamples.Fixed32One` | SMOLO+/Pods/nanopb/pb_encode.c:527-538 | fixed32 1 in field 1 is 0D 01 00 00 00 |
| `WireExamples.FirstTags` | SMOLO+/Pods/nanopb/pb_encode.c:559-588 | The tag byte of field 1 for every type |
| `Merging.LastRecordWins` | SMOLO+/Pods/nanopb/pb_decode.c:356-429 | For numbers, strings, bytes and union members the last record decides, whatever was there |
| `Merging.ArrayGrows` | SMOLO+/Pods/nanopb/pb_decode.c:374-413 | A record for an array keeps the items there and puts new ones behind them |
| `Merging.NewItemIsFresh` | SMOLO+/Pods/nanopb/pb_decode.c:402-413 | The item a single record adds does not depend on those before it |
| `Merging.PartsMerge` | SMOLO+/Pods/nanopb/pb_decode.c:1334-1356 | A submessage sent in two records is merged: the same as one record with both contents |
| `Merging.NewSubmessage` | SMOLO+/Pods/nanopb/pb_decode.c:402-424 | An array item or union member is what pb_decode makes of its content alone, whatever was there before; where its length ends, the outer message goes on |
| `DefaultValues.DefaultsDeclared` | SMOLO+/Pods/nanopb/pb_decode.c:763-846 | After pb_message_set_to_defaults a field without a submessage holds the value its ptr leads to, or zero of its type without one; nothing is present, arrays are empty, unions name no member, at every depth |
| `DefaultValues.UnnamedDeclared` | SMOLO+/Pods/nanopb/pb_decode.c:955-967 | After an accepted decode, an entry whose slot no record names still holds that |
| `DefaultValues.EmptyMessage` | SMOLO+/Pods/nanopb/pb_decode.c:852-953 | The empty message is accepted if nothing is required, and leaves everything as declared |
| `DefaultValues.DefaultFive` | SMOLO+/Pods/nanopb/pb_decode.c:808-811 | An optional int32 with default 5, absent from the input, is 5 |
| `Initialised.HoldsInit` | SMOLO+/Pods/nanopb/pb_decode.c:763-846 | Struct bytes that represent the default message hold, at every depth, the value each ptr leads to or zero bytes, and every has_, count and which_ cell is zero |
| `Merging.ConcatenationIsMerge` | SMOLO+/Pods/nanopb/pb_decode.c:852-917 | Decoding a and then b into one struct equals decoding a followed by b, when a consists of whole records |
| `Merging.MergeRequiredUnion` | SMOLO+/Pods/nanopb/pb_decode.c:919-950 | For the concatenation it suffices that each required field occurs in either half |
| `Merging.LoopConcat` | SMOLO+/Pods/nanopb/pb_decode.c:863-917 | The record loop on a followed by b is the loop on b from the state in which a ended |
| `PackedRuns.SplitsAgree` | SMOLO+/Pods/nanopb/pb_decode.c:374-413 | Any two splits of one value list into packed runs and single records decode to the same result, success or failure, in any message context |
| `PackedRuns.ChunksDecode` | SMOLO+/Pods/nanopb/pb_decode.c:374-413 | Any such split appends all values in order if they fit array_size, and fails otherwise |
| `DecodeSafety.LoopFits` | SMOLO+/Pods/nanopb/pb_decode.c:852-917 | Whatever input the loop accepts, all values are in range, all strings within capacity and all counts within array_size, at every depth |
| `DecodeSafety.DecodedFitsAndEncodes` | SMOLO+/Pods/nanopb/pb_decode.c:955-967 | Everything the decoder accepts can be encoded again |
| `DecodeSafety.LoopFrame` | SMOLO+/Pods/nanopb/pb_decode.c:356-429 | In an accepted input, a slot none of whose entries occurred is unchanged |
| `DecodeSafety.StoreFits` | SMOLO+/Pods/nanopb/pb_decode.c:414-424 | Storing one entry keeps every other entry valid, switching off its union mates |
| `Descriptor.DefaultsAt` | SMOLO+/Pods/nanopb/pb_decode.c:835-846 | Default initialisation fills slots entry by entry, although union members share one: each slot holds the default of every entry in it; `DefaultValues.DefaultsDeclared` says which values those are |
| `Descriptor.DefaultsFit` | SMOLO+/Pods/nanopb/pb_decode.c:763-846 | Default initialisation yields a message that fits the struct, at every depth |
| `Descriptor.SharedSlot` | SMOLO+/Pods/nanopb/pb_common.c:41-50 | Two entries share memory only if both are members of a union |
| `FailedRuns.Stale` | SMOLO+/Pods/nanopb/pb_decode.c:402-413 | Where a failed run leaves an array entry that was counted but never initialised: the path leads through submessages of the descriptor to an item, below array_size, of a submessage array |
| `FailedRuns.StaleFails` | SMOLO+/Pods/nanopb/pb_decode.c:402-413 | Only runs that fail leave such an entry |
| `FailedRuns.DecodedEnd` | SMOLO+/Pods/nanopb/pb_decode.c:356-429 | Where a decoded record ends does not depend on what the struct held |
| `StaleEntries.FailedDeepIff` | SMOLO+/Pods/nanopb/pb_decode.c:402-413 | A failed run leaves every array count within array_size, at every depth, if and only if no entry is left stale, or the stale one lies inside a union, or its bytes before the run had their counts within bounds |
| `StaleEntries.OwnStaleIff` | SMOLO+/Pods/nanopb/pb_decode.c:402-413 | That condition for an entry of one of the struct's own arrays, read off the struct before the run |
| `StaleEntries.ZerosDeep` | SMOLO+/Pods/nanopb/pb_decode.c:415-424 | Cleared memory has all counts within bounds, so an entry left stale inside a union, which is cleared first, always has |
| `StaleEntries.OldSince` | SMOLO+/Pods/nanopb/pb_decode.c:1334-1356 | A stale entry's bytes are those from before all the records of the run, inside merged submessages too |
| `StaleExample.TagOnlyIsStale` | SMOLO+/Pods/nanopb/pb_decode.c:402-413 | A concrete input, a tag and nothing else, that leaves a stale entry |
| `RequiredBits.RequiredCheckIsExact` | SMOLO+/Pods/nanopb/pb_decode.c:919-950 | Wherever the comparison of words is defined in C, it passes if and only if every required entry was met; it is defined for all tracked counts, and on a complete message for no others |
| `RequiredBits.UndefinedIff` | SMOLO+/Pods/nanopb/pb_decode.c:937-949 | The shift by 32 - (n & 31) or the word index is undefined exactly at an untracked count whose whole words are full |
| `RequiredBits.ThirtyTwoRequired` | SMOLO+/Pods/nanopb/pb_decode.c:947 | A concrete case: a well-formed descriptor of 32 required entries, all of them met |
| `RequiredBits.CompleteButUndefined` | SMOLO+/Pods/nanopb/pb_decode.c:937-949 | At every untracked count there is a well-formed descriptor whose complete messages meet the undefined case |
| `RequiredBits.ShiftedMask` | SMOLO+/Pods/nanopb/pb_decode.c:947 | The shifted word has exactly the low bits of the remaining fields set |
| `RequiredBits.MarksNext` | SMOLO+/Pods/nanopb/pb_decode.c:908-913 | Meeting an entry sets exactly its own bit if it is required and among the first 64, and changes nothing otherwise |
| `RequiredBits.CheckIsExact` | SMOLO+/Pods/nanopb/pb_decode.c:936-949 | On index sets: where defined, the words are right exactly when no index below the count is missing |
| `Varint.RoundTrip64` | SMOLO+/Pods/nanopb/pb_encode.c:494-514 | Every 64-bit value encodes in 1 to 10 bytes, and from that encoding followed by any bytes decodes to itself, leaving exactly those bytes |
| `Varint.RoundTrip32` | SMOLO+/Pods/nanopb/pb_decode.c:173-207 | The same for 32-bit values, in 1 to 5 bytes |
| `Varint.EncodingIsMinimal` | SMOLO+/Pods/nanopb/pb_encode.c:494-514 | No byte string that decodes to a value is shorter than its encoding |
| `Varint.Varint32AgreesWith64` | SMOLO+/Pods/nanopb/pb_decode.c:173-229 | The 32-bit decoder succeeds exactly on varints that end within five bytes, with the 64-bit result mod 2^32 and the same rest |
| `Varint.ReadFails` | SMOLO+/Pods/nanopb/pb_decode.c:209-229 | Reading fails exactly when all bytes up to the limit or the end carry the continuation bit |
| `Varint.SkipEncoded` | SMOLO+/Pods/nanopb/pb_decode.c:231-240 | Skipping an encoded varint leaves exactly what follows it |
| `Scalars.ZigZagBijection` | SMOLO+/Pods/nanopb/pb_encode.c:516-525 | Zigzag maps int64 one-to-one onto uint64, and the decoder's formula is its inverse on both sides |
| `Scalars.ZigZagInterleaves` | SMOLO+/Pods/nanopb/pb_encode.c:516-525 | 0, -1, 1, -2, ... are sent as 0, 1, 2, 3, ... |
| `Scalars.UnZigZagInterleaves` | SMOLO+/Pods/nanopb/pb_decode.c:1226-1248 | And read back so |
| `Scalars.VarintRoundTrip` | SMOLO+/Pods/nanopb/pb_decode.c:1165-1200 | Signed varint fields of widths 1, 2, 4 and 8 decode to what was encoded |
| `Scalars.VarintAccepts` | SMOLO+/Pods/nanopb/pb_decode.c:1165-1200 | A signed field accepts exactly the words whose value, after the int32 truncation of narrow fields, fits the width |
| `Scalars.UVarintAccepts` | SMOLO+/Pods/nanopb/pb_decode.c:1202-1224 | An unsigned field accepts exactly the words that fit its width, unchanged |
| `Scalars.SVarintRoundTrip` | SMOLO+/Pods/nanopb/pb_decode.c:1226-1248 | Zigzag fields of every width decode to what was encoded |
| `Scalars.LittleEndianRoundTrip` | SMOLO+/Pods/nanopb/pb_decode.c:1132-1163 | Fixed-width words decode to what was encoded |
| `InputStream.IStream.Read` | SMOLO+/Pods/nanopb/pb_decode.c:91-123 | Delivers the next count bytes and keeps position plus bytes_left, or changes nothing when too few are left |
| `InputStream.IStream.ReadByte` | SMOLO+/Pods/nanopb/pb_decode.c:127-143 | The next byte, and the same conservation |
| `InputStream.IStream.DecodeVarint` | SMOLO+/Pods/nanopb/pb_decode.c:209-229 | The shifting byte loop computes the mathematical reading mod 2^64, with the same failures and the same rest |
| `InputStream.IStream.DecodeVarint32` | SMOLO+/Pods/nanopb/pb_decode.c:173-207 | The same for 32 bits and five bytes; after a failure the stream is empty exactly if at most five bytes were left |
| `InputStream.IStream.DecodeTag` | SMOLO+/Pods/nanopb/pb_decode.c:251-275 | Tag, wire type and rest; an unreadable tag counts as a normal end exactly when it empties the stream, and so does a zero (`ZeroTags.ZeroEnds`), with which the rest stays in the stream |
| `InputStream.IStream.SkipOneVarint` | SMOLO+/Pods/nanopb/pb_decode.c:231-240 | Consumes exactly one varint, or fails at the end of the input |
| `InputStream.IStream.SkipString` | SMOLO+/Pods/nanopb/pb_decode.c:242-249 | Consumes exactly the length prefix and the declared length |
| `InputStream.IStream.Skip` | SMOLO+/Pods/nanopb/pb_decode.c:277-287 | Consumes what the wire type prescribes and rejects unknown wire types |
| `InputStream.IStream.MakeSubstream` | SMOLO+/Pods/nanopb/pb_decode.c:322-335 | The substream holds exactly the delimited bytes; the parent keeps the bytes after them |
| `InputStream.IStream.CloseSubstream` | SMOLO+/Pods/nanopb/pb_decode.c:337-350 | However little was read, the parent continues right behind the declared length |
| `FieldIterator.PointersAreTrue` | SMOLO+/Pods/nanopb/pb.h:391-401 | For every struct layout, the iterator's recomputed data and size pointers are the true offsets the macros were given, unions included |
| `FieldIterator.FieldIter.Next` | SMOLO+/Pods/nanopb/pb_common.c:20-76 | One step of the cycle; pointers, required index and slot stay those of the current entry |
| `FieldIterator.FieldIter.Begin` | SMOLO+/Pods/nanopb/pb_common.c:8-18 | The iterator stands at the first entry |
| `FieldIterator.FieldIter.Seek` | SMOLO+/Pods/nanopb/pb_common.c:78-95 | From any position the search ends, and finds the entry exactly if the tag occurs; otherwise it returns to where it started |
| `StructMemory.DecodeAt` | SMOLO+/Pods/nanopb/pb_decode.c:955-967 | On raw bytes, whatever the struct held: the result and the rest of the input are the specified ones, and on success the struct's bytes represent the specified message. Accepted or not, nothing outside the struct is written and entries without a record are at their defaults. After a failure array counts are within array_size at every depth if and only if the input leaves no stale entry or the struct had those counts within bounds in that place before the call; nothing else can be out of bounds |
| `StructMemory.DecodeNoInitAt` | SMOLO+/Pods/nanopb/pb_decode.c:852-953 | The same on top of bytes that represent a message; on any other contents still nothing outside the struct is written, the struct's own counts within bounds stay there, and entries not met keep their bytes: only entries named by a record of the input are met, and on success exactly those |
| `StructMemory.DecodeRecordsAt` | SMOLO+/Pods/nanopb/pb_decode.c:863-917 | The loop keeps the bytes representing the specified intermediate message, and knows exactly the entries touched, also when it fails |
| `StructMemory.DecodeRecordAt` | SMOLO+/Pods/nanopb/pb_decode.c:877-916 | One turn: the entry with the tag is marked, decoded and the only one changed; a record for no entry is skipped, and memory is as before |
| `StructMemory.DecodeStaticFieldAt` | SMOLO+/Pods/nanopb/pb_decode.c:356-429 | Only the entry's own data bytes and its has/count/which bytes change, on success and on failure; from a represented slot they come to represent the specified one |
| `StructMemory.DecodeRunAt` | SMOLO+/Pods/nanopb/pb_decode.c:374-400 | A packed record: every item lands in its own place inside the array, and count and items represent the appended run |
| `StructMemory.DecodeSingleAt` | SMOLO+/Pods/nanopb/pb_decode.c:402-413 | A single array record: counted first, then decoded behind the last item; nothing behind the new count is written, and no entry at all if the length prefix fails |
| `StructMemory.DecodeUnionAt` | SMOLO+/Pods/nanopb/pb_decode.c:415-424 | Only the union's bytes and which cell change; the cell names the member even on failure |
| `StructMemory.DecodeSingularAt` | SMOLO+/Pods/nanopb/pb_decode.c:366-372 | has is set whether or not the item is then accepted; the item is decoded on top of the old one |
| `StructMemory.DecSubmessageAt` | SMOLO+/Pods/nanopb/pb_decode.c:1334-1356 | A nested message is decoded inside its own data_size bytes, merging or after initialisation; on failure its counts are in bounds at every depth up to a stale entry, which has its old bytes, and a failed prefix writes nothing |
| `StructMemory.CheckRequired` | SMOLO+/Pods/nanopb/pb_decode.c:919-950 | Counting by running the iterator to its end and comparing words decides the check, wherever it is defined |
| `StructMemory.DecodeDelimitedAt` | SMOLO+/Pods/nanopb/pb_decode.c:969-982 | Accepts exactly a readable prefix with an acceptable message behind it, and then stands behind the declared length, however early the inner decoder stopped. Without the prefix nothing is written; after an inner failure as many bytes are left as lie behind the declared length, and the struct is as pb_decode leaves it |
| `StructMemory.CountsKept` | SMOLO+/Pods/nanopb/pb_common.c:41-76 | Bytes of one entry changing cannot push another array's count out of bounds |
| `MemoryCells.DecWordAt` | SMOLO+/Pods/nanopb/pb_decode.c:1165-1248 | Once the varint is read its cast value is stored, even when the width check then rejects it; if accepted, the bytes represent the value; without a varint nothing is written |
| `MemoryCells.DecFixedAt` | SMOLO+/Pods/nanopb/pb_decode.c:1250-1260 | Fixed-width words, stored as read |
| `MemoryCells.DecBytesAt` | SMOLO+/Pods/nanopb/pb_decode.c:1262-1297 | Size word and content inside data_size bytes, representing the content |
| `MemoryCells.DecStringAt` | SMOLO+/Pods/nanopb/pb_decode.c:1299-1332 | Content and terminator inside data_size bytes, representing the content |
| `MemoryCells.DecFixedLengthAt` | SMOLO+/Pods/nanopb/pb_decode.c:1358-1379 | Content inside data_size bytes, zeros for an empty one |
| `MemoryCells.DecodePackedAt` | SMOLO+/Pods/nanopb/pb_decode.c:384-396 | The packed loop on memory: items are stored one behind the other until substream or array is exhausted |
| `MemoryCells.SetDefaultsAt` | SMOLO+/Pods/nanopb/pb_decode.c:835-846 | Initialisation writes only the struct, and its bytes then represent the default message, at every depth; has_, count and which_ cells are zero and data cells hold the value of ptr or zeros (`Initialised.InitAll`); the contents of arrays and unions, also of those inside submessages, are left as they were |
| `MemoryCells.FieldDefaultAt` | SMOLO+/Pods/nanopb/pb_decode.c:763-833 | One entry's data and cell come to represent its default: the bytes represent the value ptr leads to, or are zero |
| `StaleExample.FailedDecode` | SMOLO+/Pods/nanopb/pb_decode.c:402-413 | Running the decoder on that input over memory of ones: it fails and leaves a nested array count beyond its array_size |
| `StaleExample.ZerosAreFine` | SMOLO+/Pods/nanopb/pb_decode.c:402-413 | The same input leaves cleared memory with all counts within bounds |
| `StructLayout.GeneratedIsLaid` | SMOLO+/Pods/nanopb/pb.h:391-401 | A descriptor generated from a struct is laid out in it as decoder and encoder need it if and only if the struct's members and cells, at their true offsets, are in bounds and apart |
| `StructLayout.EntryStored` | SMOLO+/Pods/nanopb/pb_decode.c:356-429 | If one entry's bytes change to represent a slot, the struct represents the message with that slot replaced: other entries are untouched and union mates are switched off |
| `StructLayout.EntryKept` | SMOLO+/Pods/nanopb/pb_common.c:41-76 | Entries in other slots still represent what they did |
| `StructLayout.SharedBytes` | SMOLO+/Pods/nanopb/pb_common.c:41-50 | Union members start at the same byte and share their which cell |
| `StructLayout.ImageHolds` | SMOLO+/Pods/nanopb/pb_decode.c:803-822 | The bytes copied from ptr represent the value it leads to, and without ptr the bytes are zeros, which represent zero of every type |
| `StructLayout.LoadsBack` | SMOLO+/Pods/nanopb/pb_encode.c:652-716 | Loading an integer cell through its C type yields the represented value, at every width |
| `ArrayCounts.HoldsDeep` | SMOLO+/Pods/nanopb/pb_decode.c:374-413 | Bytes that represent a message have every array count within array_size, at every depth |
| `ArrayCounts.CountsStored` | SMOLO+/Pods/nanopb/pb_decode.c:402-413 | One entry's failed decode leaves all other counts in bounds, and its own up to a stale entry |
| `Encoder.EncodeToBuffer` | SMOLO+/Pods/nanopb/pb_encode.c:451-473 | Writes the specified bytes and nothing else if they fit the buffer, and fails if and only if they do not or the message has no encoding. `SentRecords.EncodedHeads` says which records these are, `WireFormat` which bytes |
| `Encoder.GetEncodedSize` | SMOLO+/Pods/nanopb/pb_encode.c:480-489 | Returns exactly the number of bytes a real encode writes, and succeeds exactly when there is an encoding, which is `SentRecords.EncodesIff` |
| `Encoder.Encode` | SMOLO+/Pods/nanopb/pb_encode.c:451-473 | On a sizing stream and on a bounded window alike: the same bytes are counted or written, success exactly if they fit |
| `Encoder.EncodeSubmessage` | SMOLO+/Pods/nanopb/pb_encode.c:600-648 | Size pass and write pass agree: length prefix and content, or failure before anything outside the window changes |
| `Encoder.EncodeInWindow` | SMOLO+/Pods/nanopb/pb_encode.c:623-648 | The second pass always succeeds with the size of the first: "submsg size changed" is unreachable, at every depth |
| `Encoder.EncodePacked` | SMOLO+/Pods/nanopb/pb_encode.c:116-201 | One tag, the payload size computed beforehand, then exactly that payload; nothing for an empty array |
| `Encoder.PackedSize` | SMOLO+/Pods/nanopb/pb_encode.c:136-155 | The precomputed payload size, by multiplication or by a sizing pass, is the payload's length |
| `Encoder.EncodePackedItems` | SMOLO+/Pods/nanopb/pb_encode.c:163-170 | The item loop writes the concatenated items |
| `Encoder.EncodeUnpacked` | SMOLO+/Pods/nanopb/pb_encode.c:172-198 | One tagged record per item, in order |
| `Encoder.EncodeBasicField` | SMOLO+/Pods/nanopb/pb_encode.c:271-349 | The five presence rules; which values of a field without a has_ cell are left out is `SentRecords.ImplicitSent`, and in memory `StructEncode.ImplicitInMemory` |
| `Encoder.VarintBytes` | SMOLO+/Pods/nanopb/pb_encode.c:494-514 | The buffer loop produces the minimal varint |
| `Encoder.EncodeTag` | SMOLO+/Pods/nanopb/pb_encode.c:553-557 | The tag word |
| `Encoder.EncodeString` | SMOLO+/Pods/nanopb/pb_encode.c:592-598 | Length prefix and bytes |
| `Encoder.StringLength` | SMOLO+/Pods/nanopb/pb_encode.c:739-763 | The bounded scan stops at the first zero byte or at the capacity |
| `OutputStream.OStream.Write` | SMOLO+/Pods/nanopb/pb_encode.c:91-109 | Counts, or copies into the window; refused exactly if the bytes do not fit, and then nothing changes outside the window |
| `OutputStream.OStream.Copy` | SMOLO+/Pods/nanopb/pb_encode.c:62-72 | Exactly the written bytes change |
| `OutputStream.EmitsBoth` | SMOLO+/Pods/nanopb/pb_encode.c:91-109 | Two writes in a row are one write of the concatenation, on sizing and bounded streams, in success and in failure |
| `StructEncode.LoadedAll` | SMOLO+/Pods/nanopb/pb_encode.c:451-473 | What the encoder loads from a struct through typed pointers encodes like the message its bytes represent, at every depth, unions and unterminated strings included |
| `StructEncode.LoadedAt` | SMOLO+/Pods/nanopb/pb_common.c:41-50 | In a union, only the member the which cell names is loaded |
| `StructEncode.EncoderCell` | SMOLO+/Pods/nanopb/pb_encode.c:280-284 | The cell the encoder finds by the entry's own size_offset is the one the decoder wrote through the iterator, inside unions as well |
| `StructEncode.EncodeAt` | SMOLO+/Pods/nanopb/pb_encode.c:451-473 | Encoding a struct in memory writes exactly the encoding of the represented message, if it fits the buffer, and the buffer behind it stays as it was |
| `StructEncode.RoundTripAt` | SMOLO+/Pods/nanopb/pb_encode.c:451-473 | Encoding a struct in memory and decoding into another, whatever that held, succeeds exactly if the sent strings are terminated; the second struct then represents the canonical form of the message, which is the message itself exactly if it is normal |
| `Allocation.AcceptedIffFits` | SMOLO+/Pods/nanopb/pb_decode.c:436-469 | The half-word shortcut with division accepts a request if and only if it is not empty and the product of the sizes fits size_t |
| `Allocation.Allocate` | SMOLO+/Pods/nanopb/pb_decode.c:436-469 | Refuses exactly those requests; otherwise the block has the requested bytes and keeps the old ones |
| `Allocation.Grow` | SMOLO+/Pods/nanopb/pb_decode.c:547-558 | The rounded-up guess always gives a larger block that fits size_t: no packed growth is refused |
| `Allocation.DecodePackedPointer` | SMOLO+/Pods/nanopb/pb_decode.c:530-584 | The loop accepts exactly what an array of PB_SIZE_MAX entries would accept, with the same items in the block; every store is inside the block, whose size fits size_t |
| `Allocation.DecodeEntry` | SMOLO+/Pods/nanopb/pb_decode.c:561-578 | One item goes to the first free place; all other bytes of the block stay |
| `OrderFlow.Serve` | SMOLO+/SMOLO+/Views/FertiggestelltVC.swift:134-638 | A reload, then orders arriving in any interleaving of IDs and snapshots: the lists are what the events lead to. When the last snapshot completes the known orders, the payment screen starts in its invariant if and only if no earlier snapshot had done so; then every order is listed once, every bill holds exactly its table's items and names its orders with their item IDs, a run fails exactly if it starts with a tap on a table without a name, and, if orders are announced with their own tables, each of these has exactly one bill and all that was ordered is billed |
| `OrderFlow.SafeIffFirst` | SMOLO+/SMOLO+/Views/FertiggestelltVC.swift:551-611 | The bills on the screen satisfy the payment invariant if and only if they come from a single merge |
| `OrderFlow.MergeBillsAll` | SMOLO+/SMOLO+/Views/FertiggestelltVC.swift:565-638 | If every order's table is a key, each has exactly one bill, and the billed quantity is the ordered quantity |
| `LateBills.LateTrigger` | SMOLO+/SMOLO+/Views/FertiggestelltVC.swift:551-560 | When a later snapshot completes the known orders, the first table has two bills |
| `LateBills.LaterBillsFail` | SMOLO+/SMOLO+/Views/FertiggestelltVC.swift:575-620 | The counts on a later merge's bills are filed under their section within that merge, so on a fresh screen every first tap on such a bill fails |
| `OrderFlow.BillIsTheOrders` | SMOLO+/SMOLO+/Views/FertiggestelltVC.swift:565-638 | Row by row, a table's bill holds name, price and quantity of exactly the items of its orders' trees, in order |
| `OrderFlow.BillNamesOrders` | SMOLO+/SMOLO+/Views/FertiggestelltVC.swift:608-613 | The bill's BestellungID names exactly the orders with its table, and gives for each the IDs of its items, level with the order's rows; of orders with the same ID the last one counts |
| `OrderFlow.DistinctOrders` | SMOLO+/SMOLO+/Views/FertiggestelltVC.swift:608-613 | With distinct order IDs: an order is named on a bill if and only if it was placed at that table, and with its own items' IDs |
| `OrderFlow.EntriesInOrder` | SMOLO+/SMOLO+/Views/FertiggestelltVC.swift:578-611 | The items of earlier orders come first on the bill |
| `OrderFlow.RowHolds` | SMOLO+/SMOLO+/Views/FertiggestelltVC.swift:579-610 | Every item of an order has its row, counted through the tree's groups and lists |
| `OrderFlow.BillLabels` | SMOLO+/SMOLO+/Views/FertiggestelltVC.swift:582-592 | A bill's rows carry their own category and subcategory if and only if none of the table's orders has two equal groups or two equal lists in a group |
| `OrderFlow.BillsReady` | SMOLO+/SMOLO+/Views/FertiggestelltVC.swift:565-638 | The merge of any counted orders gives right bills (rows, quantities, and for each order its item IDs), and every run of the payment screen on them is safe, with the one exception |
| `OrderFlow.FlatColumn` | SMOLO+/SMOLO+/Views/FertiggestelltVC.swift:579-610 | Flattening a nested column lists that attribute of the tree's items in order |
| `LateBills.BillsStay` | SMOLO+/SMOLO+/Views/FertiggestelltVC.swift:551-620 | Later events only add bills behind the present ones |
| `OrderArrival.OnceIff` | SMOLO+/SMOLO+/Views/FertiggestelltVC.swift:551-560 | Each order is listed once and merged once if and only if no earlier snapshot had already completed the orders known at its time |
| `OrderArrival.LateOrder` | SMOLO+/SMOLO+/Views/FertiggestelltVC.swift:551-560 | An order that becomes known after another was complete: the first is listed and billed twice, the second is never billed |
| `OrderArrival.AllArrived` | SMOLO+/SMOLO+/Views/FertiggestelltVC.swift:551-553 | When the counts agree, every known order has its lists, so nothing missing is unwrapped |
| `OrderArrival.OrderList.SnapshotArrived` | SMOLO+/SMOLO+/Views/FertiggestelltVC.swift:160-560 | One snapshot: the order's lists are read, and if it completes the known orders, all of them are appended and merged as the event history says |
| `OrderArrival.OrderList.KeyArrived` | SMOLO+/SMOLO+/Views/FertiggestelltVC.swift:134-156 | One order ID with its table becomes known |
| `OrderArrival.OrderList.AppendAll` | SMOLO+/SMOLO+/Views/FertiggestelltVC.swift:552-560 | The loop over the known orders appends each order as its tree stands in the dictionaries, and merges when the list reaches the known length |
| `OrderArrival.OrderList.ReadOrder` | SMOLO+/SMOLO+/Views/FertiggestelltVC.swift:553 | The nine dictionaries and the table yield the order built from the tree |
| `OrderArrival.OrderList.Reload` | SMOLO+/SMOLO+/Views/FertiggestelltVC.swift:1043-1067 | Empties the lists, keeps the tables' keys |
| `OrderBuilder.Builder.LoadAll` | SMOLO+/SMOLO+/Views/FertiggestelltVC.swift:134-156 | After reload and loading any orders with distinct IDs, each order's nine lists equal its own tree, although comments and litres are not cleared |
| `OrderBuilder.Builder.LoadOrder` | SMOLO+/SMOLO+/Views/FertiggestelltVC.swift:160-516 | The branching builder yields the nested comprehension of the tree in every column and leaves other orders alone |
| `OrderBuilder.Builder.ReadCategory` | SMOLO+/SMOLO+/Views/FertiggestelltVC.swift:172-516 | One more category extends every list by exactly that category |
| `OrderBuilder.Builder.EnterList` | SMOLO+/SMOLO+/Views/FertiggestelltVC.swift:177-275 | The subcategory name opens a new group or joins the current one, with its expanded flag |
| `OrderBuilder.Builder.ChoosePlace` | SMOLO+/SMOLO+/Views/FertiggestelltVC.swift:186-516 | The four branches choose the place that keeps the columns equal to the tree read so far |
| `OrderBuilder.Builder.PutItem` | SMOLO+/SMOLO+/Views/FertiggestelltVC.swift:189-234 | All six columns are extended by the same item at the same place |
| `OrderBuilder.Builder.Reload` | SMOLO+/SMOLO+/Views/FertiggestelltVC.swift:1043-1067 | Clears all dictionaries but comments and litres |
| `OrderBuilder.PutExtends` | SMOLO+/SMOLO+/Views/FertiggestelltVC.swift:189-234 | Putting an item at the right place is extending the nested comprehension |
| `OrderBuilder.LoadedAtPlace` | SMOLO+/SMOLO+/Views/FertiggestelltVC.swift:160-516 | Place by place, what the nine lists of a loaded order hold: the category, the subcategory and each attribute of the item there |
| `OrderBuilder.BuiltAtPlace` | SMOLO+/SMOLO+/Views/FertiggestelltVC.swift:553-620 | The same of the order handed to the merge |
| `OrderBuilder.BuiltOrderIsAligned` | SMOLO+/SMOLO+/Views/FertiggestelltVC.swift:551-553 | All columns of a built order have one nested shape |
| `TableMerge.Merge` | SMOLO+/SMOLO+/Views/FertiggestelltVC.swift:565-638 | One bill per table key: the loops compute the concatenated flattening of the table's orders in every column; `OrderFlow.BillsReady` says what these hold |
| `TableMerge.MergeOne` | SMOLO+/SMOLO+/Views/FertiggestelltVC.swift:579-611 | One table, with paid counts zero for every row; `OrderFlow.BillIsTheOrders` and `OrderFlow.BillNamesOrders` say what it holds |
| `TableMerge.QuantityConserved` | SMOLO+/SMOLO+/Views/FertiggestelltVC.swift:565-638 | Total quantity over all bills equals the total over orders whose table is a key, each counted once |
| `TableMerge.RowsAreLevel` | SMOLO+/SMOLO+/Views/FertiggestelltVC.swift:579-611 | Categories, subcategories, names, prices and quantities of a bill have equal length |
| `TableMerge.RowLabelsRightIff` | SMOLO+/SMOLO+/Views/FertiggestelltVC.swift:582-592 | Row by row, an order's rows carry their own category and subcategory names if and only if no two groups, and no two lists of a group, are equal |
| `TableMerge.LabelsRightIff` | SMOLO+/SMOLO+/Views/FertiggestelltVC.swift:582-592 | Rows carry their own category and subcategory names if and only if no two groups, and no two lists of a group, are equal: the code looks both up by equality |
| `TableMerge.TwinsAreMislabelled` | SMOLO+/SMOLO+/Views/FertiggestelltVC.swift:582-592 | A concrete order with two equal groups whose second group is labelled with the first one's category |
| `TableMerge.AppendLabels` | SMOLO+/SMOLO+/Views/FertiggestelltVC.swift:582-592 | The loops append one label of each kind per row |
| `PaymentCounts.TapCounts` | SMOLO+/SMOLO+/Views/FertiggestelltVC.swift:829-871 | A tap on a row of a safe screen shows that table's bill with one more of the row selected, up to what was ordered, counted from the bill if the table was on it and from the list otherwise; other rows and all lists stay |
| `PaymentCounts.PayAllCounts` | SMOLO+/SMOLO+/Views/FertiggestelltVC.swift:763-780 | Pay-all makes the selected counts equal the ordered ones, in the list and on the bill |
| `PaymentCounts.UnpayCounts` | SMOLO+/SMOLO+/Views/FertiggestelltVC.swift:875-881 | A tap on the bill selects one less of the row, down to none; other rows and all lists stay |
| `PaymentCounts.TapsCount` | SMOLO+/SMOLO+/Views/FertiggestelltVC.swift:829-871 | k taps on a row, from any safe screen, select k more of it, up to what was ordered, and nothing else |
| `PaymentCounts.FreshTaps` | SMOLO+/SMOLO+/Views/FertiggestelltVC.swift:565-871 | After a fresh merge, k taps on a row select min(k, ordered) of it and nothing else |
| `SplitPayment.RunSafe` | SMOLO+/SMOLO+/Views/FertiggestelltVC.swift:763-884 | Over every run of row taps, pay-all and un-pay from a safe screen: it fails if and only if nothing is selected yet and its first action taps a table without a name; otherwise 0 <= paid <= ordered on every row and the selected name is the bill's table |
| `SplitPayment.FreshRun` | SMOLO+/SMOLO+/Views/FertiggestelltVC.swift:565-884 | The same from any fresh merge of distinct table names |
| `SplitPayment.StepSafe` | SMOLO+/SMOLO+/Views/FertiggestelltVC.swift:829-884 | Each action with its redraw fails exactly in that case; otherwise it keeps the invariant, looks up no missing section and leaves a table selected |
| `SplitPayment.FreshMergeSafe` | SMOLO+/SMOLO+/Views/FertiggestelltVC.swift:565-638 | A fresh merge of distinct names establishes the invariant |
| `SplitPayment.NamelessTableCrashes` | SMOLO+/SMOLO+/Views/FertiggestelltVC.swift:858-866 | A concrete screen with one table without a name, on which the first tap fails |
| `SplitPayment.FirstTapCrashes` | SMOLO+/SMOLO+/Views/FertiggestelltVC.swift:858-866 | On a fresh screen a first tap fails exactly on a table whose name is empty |
| `SplitPayment.PaymentScreen.SelectRow` | SMOLO+/SMOLO+/Views/FertiggestelltVC.swift:852-871 | A tap on a row is the specified step: another table replaces the bill, and the count rises unless all are selected; `PaymentCounts.TapCounts` gives the counts |
| `SplitPayment.PaymentScreen.SelectAll` | SMOLO+/SMOLO+/Views/FertiggestelltVC.swift:763-780 | Pay-all sets every count of the table to the ordered quantity |
| `SplitPayment.PaymentScreen.Unpay` | SMOLO+/SMOLO+/Views/FertiggestelltVC.swift:875-881 | A tap on the bill lowers the count unless it is zero |
| `SplitPayment.PaymentScreen.RedrawBill` | SMOLO+/SMOLO+/Views/FertiggestelltVC.swift:829-842 | Drawing every row finds the bill's section again |

## Left out

- Callback fields, extension fields and custom streams: they run foreign code. Streams are memory buffers or sizing streams.
- Pointer fields beyond size arithmetic and packed growth: release, reallocation failure and aliasing need a heap model, and the app builds without them.
- Implicit-presence submessages: their emptiness test reads raw struct bytes, so `WellFormedField` excludes them.
- Cyclic descriptors: not expressible, because statically allocated structs embed their submessages, so descriptors are finite trees. `DecodeSpec.RunLoop` terminates by the remaining input alone; only initialisation uses the depth of the descriptor.
- Error messages, pb_encode_delimited, and read_raw_value, which only callbacks use.
- Wrap-around of size_t in byte counters, and lengths of 2^64 or more: `Encoder` requires lengths that fit a 64-bit varint.
- Float and double values: the codec moves their 32- or 64-bit patterns, which is what fixed-width fields hold here.
- Bytes behind a string's content: a string slot is the decoded bytes, and memory behind their terminator is free.
- StructMemory.DecodeNoInitAt: what is written, and counts inside submessages, are specified for structs whose bytes represent a message; for other contents only where it writes, and the own counts.
- Byte order other than little-endian, which is that of the devices the app runs on.
- Allocation.Allocate: a reallocation that finds no memory; new bytes are zero here and unspecified in C.
- OrderArrival.OrderList.SnapshotArrived: callbacks run one at a time, as the database delivers them; every order has extras, whose list the code unwraps as well.
- OrderArrival.OrderList.KeyArrived: a reload registers a second observer beside the first one, so an order added after it is announced twice; here every order is announced once.
- LateBills.LaterBillsFail: the screen right after the merge, with nothing selected yet; `SplitPayment.RunSafe` and the rest of the payment run assume bills of a single merge.
- OrderBuilder.Builder.LoadOrder: distinct keys on each level and no empty category or subcategory, which the database never stores; of the Information node only the table is modelled, extras and their prices are not.
- OrderBuilder.Builder.ChoosePlace: the copies of the item branch for the first and later categories and lists are one method that chooses the place, followed by one that stores.
- SplitPayment.RunSafe: the bill is redrawn right after each action, and runs end at a reload, which keeps the old bill.
- Total price, database reads and writes, search, other screens, cells, headers and animations: user interface and network, or further copies of the order builder.
