# Models of the networking and serialization code vendored by MusicDiary

MusicDiary's own code is view controllers over Firestore. Its algorithms are in the vendored code below
`MusicDiary/Pods`. This project models four pieces of it and proves what they are for.

**The nanopb codec** (`pb_encode.c`, `pb_decode.c`, `pb_common.c`). A message type is a table of field
descriptors, a message is a struct. `Words`, `Varint` and `Wire` are the wire format; `Schema` is tables and
struct contents; `Encoding` and `Decoding` say which bytes a message gives and what bytes do to a struct.
These are functions on values. The classes and methods of `InputStream`, `OutputStream`, `Iterator`,
`RequiredFields`, `Decoder` and `Encoder` do it the way the C code does: streams with a position and a count,
substreams, a wrapping iterator with running offsets, a bitmap, a destination struct updated in place, a sizing
pass before each nested or packed write. Each is proved to compute its function for all inputs.
The main theorems are then about the functions: decoding an encoded message is merging (`Merging`), hence the
round trip and schema evolution (`Evolution`, `Dropping`) and concatenation (`Concatenation`); what merging leaves
in each slot and when it fails (`MergeResults`); what arbitrary input can leave behind (`Soundness`, `Shapes`);
growing packed arrays in allocated storage (`PointerArrays`). `RoundTrips` runs encoder and decoder in a row.
The functions themselves are held to laws that do not go through their definitions: `WireFormat` says what the
bytes mean, in numbers; `Presence` which fields are sent, on the bytes; `RecordLaws` what one record does, by
comparing it with other records; `Schema.DefaultsUntouched` what a default is, by the table. `Example` is one message
with a field of every kind.
The format is that of the Protocol Buffers "Encoding" specification.

**AuthenticationInterceptor** (Alamofire). `AuthenticationModel` is a state machine whose events are the
atomic steps: the lock blocks, the blocks of the serial queue, completions, and calls between their steps. Its
theorems hold for every interleaving. `AuthenticationRuns` says what the calls of a run are told.
`Authentication` is the class; its methods are the steps.

**AutoPurgingImageCache** (AlamofireImage). `ImageCache`: insert and purge are separate blocks on a queue, and
other blocks may come between them. The class invariant is the accounting.

**MultipartFormData** (Alamofire). `MultipartLayout` is the text of a form and a reader for its blocks,
`MultipartParts` reads the blocks as header lines and body; `Multipart` has the two encoders, under arbitrary short
reads and writes.

The build modelled is the one the pods are configured for: 32-bit `pb_size_t`, malloc enabled, a 64-bit
`size_t`. Bit operations on unsigned words are written as arithmetic or as the bitwise "or" of two naturals; the
cuts to 8, 32 and 64 bits are explicit. Where a promise of the code's documentation and the code differ, the model
follows the code:

- The 32-bit varint reader does not accept exactly the values that fit. It also accepts ten-byte varints with bits 31
  and 63 set in which each seven-bit group from bit 35 to bit 62 is all zeros or all ones on its own; bits 32 to 34
  are not examined. `Varints.Varint32OnWritten` gives the set, `Varints.AcceptedMisfit` a value outside both 32-bit
  values and sign extensions.
- The bit counter of that reader is an 8-bit variable and wraps in the 38th byte, whose bits then land in the low end
  of the word (`WireFormat.CounterWraps`); up to there `WireFormat.Varint32Meaning` says what any bytes are read as.
- A C string that fills its buffer is encoded but not accepted back (`Soundness.StringBuffer`, and
  `Soundness.FullStringLost` for one such string;
  `Evolution.DecodeIsView` for whole messages).
- In a message type without fields the iterator rests on the all-zero terminator, so a record with field number
  zero and a nonzero wire type is read as a bool instead of being skipped (`Merging.UnknownRecord` says exactly when
  records are skipped, `Merging.ZeroRecordIsRead` is such a record).
- The streaming multipart writer drops what the output has no space for without an error, and does not compare
  declared lengths. Its output is the text the in-memory encoder returns exactly when that fits
  (`Multipart.FormCut` is a form that does not); the in-memory encoder also fails on a wrong length.

Terms used below. A message is *clean* when it is as the decoder would leave it: absent fields at their defaults,
bools 0 or 1, no bytes after a string's terminator. Two tables *agree* when fields with one tag have the same rule,
type and sizes, at every level, the writer has the fields the reader requires, and the reader joins in one union only
fields that the writer has in one union.

## Model

| member | source | states |
|---|---|---|
| Evolution.RoundTrip | MusicDiary/Pods/nanopb/pb_decode.c:1084-1096 | A clean message of any table (nested, repeated, optional, oneof and implicit-presence fields) encodes without error, and decoding its bytes into a fresh struct gives the same message back, all bytes consumed |
| Evolution.ViewClean | MusicDiary/Pods/nanopb/pb_decode.c:1084-1096 | Whatever a message holds in fields it does not send, what any reader decodes from it is in normal form: absent fields at their defaults, bools 0 or 1, strings cut at their terminator |
| RoundTrips.EncodeAndDecode | MusicDiary/Pods/nanopb/pb_decode.c:1084-1096 | The encoder and then the decoder, run on every message that lies in its struct: success exactly when the buffer is large enough and no string sent fills its own buffer, and then the struct is the message in normal form, itself if it is clean |
| RoundTrips.OkIsHeld | MusicDiary/Pods/nanopb/pb_encode.c:528-550 | Every valid message meets what the encoder asks of its caller |
| MergeResults.DecodeMerges | MusicDiary/Pods/nanopb/pb_decode.c:934-1030 | Decoding an encoded message into any struct, under any agreeing reader table: it fails if and only if some field the message has, taken alone against the struct as it was, would overflow its array, has a string without room for its terminator, or meets a union tag that names no field, there or inside a submessage; otherwise each slot the message has a field for takes it up (scalars replaced, arrays appended, submessages merged, unions merged or started over) and every other slot stays |
| MergeResults.MergeResult | MusicDiary/Pods/nanopb/pb_decode.c:406-483 | The fold of the records, one occurrence at a time, leaves just that struct and fails in just those cases |
| MergeResults.FailsSomewhere | MusicDiary/Pods/nanopb/pb_decode.c:406-483 | The failing condition is one over the fields of the message, each looked at against the struct before decoding |
| MergeResults.ItemsArrive | MusicDiary/Pods/nanopb/pb_decode.c:424-464 | A whole array arriving at another appends all its elements, or fails, exactly when the two together exceed array_size or an element fails |
| MergeResults.FailsFresh | MusicDiary/Pods/nanopb/pb_decode.c:1084-1096 | Into a fresh struct only a string that fills its buffer can fail, at any depth |
| MergeResults.MergedShaped | MusicDiary/Pods/nanopb/pb_decode.c:406-483 | Merging keeps a struct one of the table's C type |
| Merging.DecodeIsMerge | MusicDiary/Pods/nanopb/pb_decode.c:934-1030 | The bytes drop out: decoding an encoded message into any struct is folding its occurrences into the struct in order, and fails exactly when the fold does |
| Merging.DecodeOfEncodeFrom | MusicDiary/Pods/nanopb/pb_decode.c:952-1030 | The same with any bytes after the message: the record loop fails on the message or goes on with those bytes |
| Merging.UnknownRecord | MusicDiary/Pods/nanopb/pb_decode.c:966-995 | A record of a field the table lacks is skipped by its wire type whatever its payload, if and only if the table is not empty or the field number is not zero |
| Merging.ZeroRecordIsRead | MusicDiary/Pods/nanopb/pb_decode.c:966-995 | The witness: in an empty table field number zero with payload 01 is read as a bool and accepted, while skipping it would be an error for every wire type |
| Evolution.DecodeIsView | MusicDiary/Pods/nanopb/pb_decode.c:966-995 | Forward and backward compatibility: every reader whose known fields agree with the writer's gets the message merged into defaults: unknown fields skipped, absent ones at their defaults. It fails if and only if the message sends it a string that fills its buffer, at some depth |
| Dropping.ForwardCompatibility | MusicDiary/Pods/nanopb/pb_decode.c:278-331 | A clean message decoded under its table less any fields, at any depth, is exactly the message less those fields; a union that held a dropped member and has others left is unset |
| Dropping.DecodeAfterDropping | MusicDiary/Pods/nanopb/pb_decode.c:966-995 | The same for every message that lies in its struct: what the full table would give, less those fields; it fails if and only if a string in a field that is left fills its buffer |
| Dropping.ProjectionExactly | MusicDiary/Pods/nanopb/pb_decode.c:466-479 | Dropping a field takes out one slot and changes nothing else if and only if the message does not hold that field as a member of a union that the reader still has |
| Dropping.ViewPruned | MusicDiary/Pods/nanopb/pb_decode.c:1525-1547 | The same for a field inside submessages: it goes from every value on the way there, array elements and union members included |
| Dropping.DroppedFieldAgrees | MusicDiary/Pods/nanopb/pb_decode.c:966-995 | Dropping any field from a reader table, the first member of a union included, keeps it a reader of the same messages |
| Dropping.NarrowedSubmessageAgrees | MusicDiary/Pods/nanopb/pb_decode.c:1525-1547 | The same inside submessages, at any depth: replacing a nested table by a reader of it |
| Dropping.DroppedFromView | MusicDiary/Pods/nanopb/pb_decode.c:966-995 | What the reader sees without the field: its own slot goes, a union it shared and held reads unset, every other slot is as it was |
| Dropping.DefaultsPruned | MusicDiary/Pods/nanopb/pb_decode.c:845-928 | Dropping a field at any depth commutes with setting defaults |
| Concatenation.ConcatenationIsSequencing | MusicDiary/Pods/nanopb/pb_decode.c:934-1030 | For every table and every input: decoding s1 + s2 is decoding s1 and then s2 into the same struct, if s1 is read to its end without a zero tag; required fields may come from either part |
| Concatenation.ConcatenationWithoutRequired | MusicDiary/Pods/nanopb/pb_decode.c:934-1030 | With no required field, decoding s1 + s2 equals decoding s1 (which succeeds without a zero tag) and then s2, a failure on s2 included |
| Concatenation.MergesAfterInput | MusicDiary/Pods/nanopb/pb_decode.c:934-1030 | An encoded message after any input read to its end, into any struct: decoding fails if and only if a field of the message fails against what the input left, and otherwise merges the message into that, slot by slot; required fields may come from the message |
| Concatenation.MergesAfterDecoding | MusicDiary/Pods/nanopb/pb_decode.c:1084-1096 | The same after any input a decoder accepted |
| Concatenation.ConcatenationMerges | MusicDiary/Pods/nanopb/pb_decode.c:406-483 | Two encoded messages in a row: decoding fails if and only if the first sends a string that fills its buffer or a field of the second fails against the reader's view of the first, and otherwise gives the second merged into that view |
| Concatenation.LoopExtends | MusicDiary/Pods/nanopb/pb_decode.c:952-1030 | Bytes after a zero tag are never looked at; without one, the record loop goes on exactly with the appended bytes |
| Soundness.DecodedIsFormed | MusicDiary/Pods/nanopb/pb_decode.c:1084-1096 | Whatever the input bytes, a decoder that succeeds leaves integers inside their fields, strings and arrays inside their buffers and union tags naming a member, and the encoder accepts the result |
| Soundness.DecodedComesBack | MusicDiary/Pods/nanopb/pb_decode.c:1084-1096 | Whatever was accepted is clean if and only if no string in it has a zero byte; with lengths below 2^32 it can be sent and is accepted again, and comes back unchanged in exactly that case |
| Soundness.TidyIsClean | MusicDiary/Pods/nanopb/pb_decode.c:1487-1523 | A struct as the decoder leaves it is clean if and only if its strings are free of zero bytes, at every depth |
| Soundness.FormedTagsKnown | MusicDiary/Pods/nanopb/pb_decode.c:1137-1168 | In a struct the decoder left every union tag is known, so the release of a union's old contents never fails there |
| Soundness.FullStringLost | MusicDiary/Pods/nanopb/pb_encode.c:873-897 | The witness: three letters in three bytes are encoded as 03 41 42 43, which the decoder of the same field rejects |
| Shapes.LoopShaped | MusicDiary/Pods/nanopb/pb_decode.c:952-1030 | Decoding keeps a struct one of the table's C type, even one with counts beyond their arrays or unknown union tags |
| Soundness.PackedIsUnpacked | MusicDiary/Pods/nanopb/pb_decode.c:424-464 | The packed record of an array and one record per element do the same to the reader: both append the elements, or both fail when array_size would be exceeded |
| Soundness.StringBuffer | MusicDiary/Pods/nanopb/pb_encode.c:873-897 | A string is sent whenever it lies in its buffer, even without room for the terminator, and is read back if and only if it leaves that room: for a string that fills the buffer the round trip is false |
| Encoding.MessageEncodes | MusicDiary/Pods/nanopb/pb_encode.c:528-550 | A message that lies in its struct, its strings terminated or not, is encoded without error |
| Merging.RecordTheorem | MusicDiary/Pods/nanopb/pb_decode.c:952-1030 | One written record acts on any agreeing reader as one store, or is skipped whole if the reader lacks the field |
| Merging.PackedRecordTheorem | MusicDiary/Pods/nanopb/pb_decode.c:424-452 | A packed record acts as the stores of its elements, up to the size of the array |
| Merging.FieldTheorem | MusicDiary/Pods/nanopb/pb_encode.c:341-426 | All the bytes written for a field act on the reader as its occurrences, one after the other |
| Merging.ValueTheorem | MusicDiary/Pods/nanopb/pb_decode.c:1525-1547 | The decoder of a field undoes its encoder; a submessage is merged into what is there, or into defaults for an array element |
| Merging.ScalarRoundTrip | MusicDiary/Pods/nanopb/pb_decode.c:1334-1443 | Every scalar of every type and width survives encoding and decoding, negatives included, up to normal form (bools 0 or 1, strings cut at the terminator), but for a string that fills its buffer, which is rejected |
| Merging.SkipWritten | MusicDiary/Pods/nanopb/pb_decode.c:321-331 | Skipping an unknown field consumes exactly the payload that was written for it |
| Evolution.ZeroIsDefault | MusicDiary/Pods/nanopb/pb_encode.c:238-334 | What the implicit-presence check calls zero is the default the decoder restores, through submessages |
| Evolution.CleanView | MusicDiary/Pods/nanopb/pb_decode.c:845-928 | A clean message is its own view: omitted fields are those at their defaults |
| RecordLaws.SubmessageRecordsJoin | MusicDiary/Pods/nanopb/pb_decode.c:406-483 | Two records of a submessage do what one record with both payloads does, failures of the second included, for required, optional and union members: a member that stays active is merged into, never reset |
| RecordLaws.EncodedReadToEnd | MusicDiary/Pods/nanopb/pb_decode.c:952-1030 | What that law asks of the first payload holds of every encoded message |
| RecordLaws.LastScalarWins | MusicDiary/Pods/nanopb/pb_decode.c:406-483 | After two records of a scalar the struct is as after the second alone |
| RecordLaws.UnionStartsOver | MusicDiary/Pods/nanopb/pb_decode.c:466-479 | Where another known member is active, or none, a record leaves exactly what it leaves on an unset union |
| RecordLaws.UnionFirstMember | MusicDiary/Pods/nanopb/pb_decode.c:466-479 | On an unset union a submessage member is decoded as a message of its own, from defaults, and stored under its tag |
| RecordLaws.UnionOfUnknown | MusicDiary/Pods/nanopb/pb_decode.c:1137-1168 | Where the union tag names no field every record of a member is an error |
| RecordLaws.ElementRecord | MusicDiary/Pods/nanopb/pb_decode.c:453-464 | An array element is decoded as a message of its own and appended, unless the array is full |
| RecordLaws.LoopKeeps | MusicDiary/Pods/nanopb/pb_decode.c:952-1030 | The record loop changes no slot but those of fields it found records of |
| RecordLaws.UnreachedIsInitial | MusicDiary/Pods/nanopb/pb_decode.c:845-928 | Whatever input is accepted, a field without records holds the default of its own descriptor, at every level of a submessage; its has_ flag is off, its array empty, its union unset |
| Schema.DefaultsUntouched | MusicDiary/Pods/nanopb/pb_decode.c:866-900 | Exactly one struct agrees with the table in that way, and it is the one set up before decoding |
| RecordLaws.ZeroTagEnds | MusicDiary/Pods/nanopb/pb_decode.c:298-319 | A zero tag ends the message with success and leaves the bytes after it unread |
| Presence.ZeroScalarOmitted | MusicDiary/Pods/nanopb/pb_encode.c:238-334 | An implicit-presence scalar is left out if and only if it is an integer 0, no bytes, or a string whose first character is its terminator; bytes of fixed length only if that length is 0 |
| Presence.EmptySubmessageOmitted | MusicDiary/Pods/nanopb/pb_encode.c:238-334 | An implicit submessage the decoder can leave is left out if and only if its own body encodes to no bytes |
| Presence.ZeroIsSilent | MusicDiary/Pods/nanopb/pb_encode.c:238-334 | For such a struct the recursive zero check holds if and only if it encodes to no bytes |
| Presence.FieldOmitted | MusicDiary/Pods/nanopb/pb_encode.c:341-426 | Every other field: required ones are always sent, optional ones by their has_ flag, arrays when they have elements, union members when active, on the bytes and in both directions |
| Presence.FieldsInOrder | MusicDiary/Pods/nanopb/pb_encode.c:528-550 | The encoding is the bytes of the fields in table order, split at any field, and fails if and only if one of them does |
| Presence.ArrayRecords | MusicDiary/Pods/nanopb/pb_encode.c:147-236 | Numbers and bools go into one record of wire type 2 with their encodings in a row, all other elements into a record each; more elements than array_size are an error |
| Example.ExampleEncoded | MusicDiary/Pods/nanopb/pb_encode.c:528-550 | A message with a field of every kind and its bytes, the examples of the Protocol Buffers specification among them |
| Example.ExampleDecoded | MusicDiary/Pods/nanopb/pb_decode.c:1084-1096 | Those bytes give the message back |
| Varints.VarintRoundTrip | MusicDiary/Pods/nanopb/pb_decode.c:255-275 | Every 64-bit value is read back, with exactly its bytes consumed |
| Varints.VarintLength | MusicDiary/Pods/nanopb/pb_encode.c:608-628 | A value takes at most k bytes if and only if it fits in 7k bits |
| Varints.VarintAtMostTen | MusicDiary/Pods/nanopb/pb_encode.c:608-628 | No 64-bit value takes more than the ten bytes of the buffer |
| Varints.Varint32OnWritten | MusicDiary/Pods/nanopb/pb_decode.c:187-247 | On the writer's output, for every 64-bit value, the 32-bit reader accepts if and only if the value is below 2^32, or has bits 31 and 63 set with each of the four seven-bit groups from bit 35 to bit 62 all zeros or all ones; it returns the value mod 2^32 |
| Varints.AcceptedMisfit | MusicDiary/Pods/nanopb/pb_decode.c:203-229 | The witness: 2^63 + 2^31 is accepted, as 2^31 |
| Varints.Varint32Ranges | MusicDiary/Pods/nanopb/pb_decode.c:187-247 | Returns v below 2^32, v mod 2^32 from 2^64 - 2^31 on, and rejects everything in [2^32, 2^63) |
| Varints.HighAcceptedMeaning | MusicDiary/Pods/nanopb/pb_decode.c:203-229 | The byte tests past the fifth byte amount to one condition on the value: bit 31, and four groups each all zeros or all ones under a last byte 01 |
| Varints.ZigzagRoundTrip | MusicDiary/Pods/nanopb/pb_decode.c:1285-1297 | Zigzag maps every signed 64-bit value to a word and back, 0, -1, 1, -2, ... to 0, 1, 2, 3, ... |
| Varints.SignedRoundTrip | MusicDiary/Pods/nanopb/pb_decode.c:1345-1380 | A signed value survives its two's-complement word, and a 32-bit one also survives the cut to 32 bits |
| Varints.SkipVarintWritten | MusicDiary/Pods/nanopb/pb_decode.c:278-287 | Skipping consumes exactly a written varint, of any length |
| WireFormat.VarintMeaning | MusicDiary/Pods/nanopb/pb_decode.c:255-275 | On any bytes: the reader takes up to ten bytes, through the first without its top bit, and the word is the sum of their seven-bit groups mod 2^64 |
| WireFormat.Varint32Meaning | MusicDiary/Pods/nanopb/pb_decode.c:187-247 | On any varint of up to 37 bytes: the low 32 bits of the first five groups; the fifth byte, if last, must fit, and later bytes carry no bits or those of a sign extension, else it is an error |
| WireFormat.CounterWraps | MusicDiary/Pods/nanopb/pb_decode.c:187-247 | The witness beyond that: 37 bytes 80 and a byte 01 are read as 8, because the 8-bit bit counter has wrapped; the 64-bit reader rejects them |
| Wire.ReadTagWritten | MusicDiary/Pods/nanopb/pb_encode.c:669-673 | A written tag is read back as field number and wire type |
| Wire.FixedRoundTrip | MusicDiary/Pods/nanopb/pb_encode.c:641-667 | Fixed-width words survive their little-endian bytes, at any width |
| Wire.ReadDelimitedWritten | MusicDiary/Pods/nanopb/pb_encode.c:709-715 | Length-delimited data is read back whole |
| WireFormat.SkipByNumber | MusicDiary/Pods/nanopb/pb_decode.c:321-331 | Wire types 0, 1, 2 and 5 end a payload after a varint of any length, eight bytes, a length and as many bytes, four bytes; the others are errors |
| WireFormat.RecordBytes | MusicDiary/Pods/nanopb/pb_encode.c:675-707 | A record is the varint of eight times the field number plus 0, 1, 2 or 5 by its type, and the payload |
| WireFormat.ScalarBytes | MusicDiary/Pods/nanopb/pb_encode.c:769-912 | The payload of each scalar type: two's complement, zigzag, little-endian bytes, length and data |
| WireFormat.FixedIsLittleEndian | MusicDiary/Pods/nanopb/pb_encode.c:641-667 | Byte i of a fixed word holds bits 8i to 8i + 7, at any width |
| WireFormat.SignedRead | MusicDiary/Pods/nanopb/pb_decode.c:1345-1380 | Any varint in a signed field: up to 32 bits the field reads the low 32 bits of the word as a signed number, 64 bits the whole word, and accepts exactly what fits |
| WireFormat.UnsignedRead | MusicDiary/Pods/nanopb/pb_decode.c:1382-1404 | Any varint in an unsigned field is the word, accepted exactly when it fits |
| WireFormat.ZigzagRead | MusicDiary/Pods/nanopb/pb_decode.c:1406-1428 | Even words count up from 0 and odd ones down from -1, accepted exactly when they fit |
| WireFormat.OtherScalarsRead | MusicDiary/Pods/nanopb/pb_decode.c:1334-1445 | Bools are 0 or 1 by their 32-bit word; a fixed word is the number with those little-endian bytes |
| WireFormat.DataRead | MusicDiary/Pods/nanopb/pb_decode.c:1447-1571 | Bytes must fit behind their four-byte count, strings leave a byte for the terminator, bytes of fixed length come whole or as zeros |
| Iterators.WalkIsLayout | MusicDiary/Pods/nanopb/pb_common.c:29-85 | The running data and size offsets are the absolute offsets the compiler laid out, through arrays, pointers and unions |
| Iterators.SlotIsPlace | MusicDiary/Pods/nanopb/pb.h:398-408 | Fields that share a slot of the message model share a place in the struct |
| Iterators.SlotsApart | MusicDiary/Pods/nanopb/pb_common.c:55-85 | Fields in different slots do not overlap: a later slot starts behind the last field stored in the earlier one |
| Iterators.StorageApart | MusicDiary/Pods/nanopb/pb_common.c:55-85 | Outside unions a static array keeps data_size times array_size bytes to itself, a pointer eight, any other field data_size |
| Iterators.FieldIter.Begin | MusicDiary/Pods/nanopb/pb_common.c:8-27 | Begins at the first field with its closed-form offsets; false exactly for an empty table |
| Iterators.FieldIter.Next | MusicDiary/Pods/nanopb/pb_common.c:29-85 | Keeps pData, pSize and the required-field index at their closed forms for the new position, wrap-around included |
| Iterators.FieldIter.Find | MusicDiary/Pods/nanopb/pb_common.c:87-104 | Terminates from any position; with unique tags it is a table lookup, and a failed search ends where it began |
| InputStreams.InputStream.Read | MusicDiary/Pods/nanopb/pb_decode.c:102-139 | Hands out exactly the next bytes or fails without effect; position + bytes_left is constant |
| InputStreams.InputStream.ReadByte | MusicDiary/Pods/nanopb/pb_decode.c:141-157 | Succeeds exactly when a byte is left, and takes that byte alone |
| InputStreams.InputStream.DecodeVarint32Eof | MusicDiary/Pods/nanopb/pb_decode.c:187-247 | The byte loop with its 8-bit bit counter computes the 32-bit parse; eof exactly on an empty stream |
| InputStreams.InputStream.DecodeVarint | MusicDiary/Pods/nanopb/pb_decode.c:255-275 | The loop computes the 64-bit parse and consumes exactly it |
| InputStreams.InputStream.DecodeSvarint | MusicDiary/Pods/nanopb/pb_decode.c:1285-1297 | Reads the zigzag of a varint |
| InputStreams.InputStream.DecodeFixed32 | MusicDiary/Pods/nanopb/pb_decode.c:1299-1312 | Four shifted bytes make the little-endian word |
| InputStreams.InputStream.DecodeFixed64 | MusicDiary/Pods/nanopb/pb_decode.c:1314-1331 | Eight shifted bytes make the little-endian word |
| InputStreams.InputStream.SkipVarintBytes | MusicDiary/Pods/nanopb/pb_decode.c:278-287 | Skips through the first byte without a continuation bit |
| InputStreams.InputStream.SkipString | MusicDiary/Pods/nanopb/pb_decode.c:289-296 | Skips a length and that many bytes, or fails |
| InputStreams.InputStream.Skip | MusicDiary/Pods/nanopb/pb_decode.c:321-331 | Skips one payload of the given wire type; group types are rejected |
| InputStreams.InputStream.DecodeTag | MusicDiary/Pods/nanopb/pb_decode.c:298-319 | Splits field number and wire type; a zero tag or the end of the stream ends the message |
| InputStreams.InputStream.MakeSubstream | MusicDiary/Pods/nanopb/pb_decode.c:372-385 | The substream covers exactly the delimited bytes, the parent keeps the rest |
| InputStreams.InputStream.CloseSubstream | MusicDiary/Pods/nanopb/pb_decode.c:387-400 | The parent ends up behind the whole substream, also when it was not read to its end |
| RequiredFields.CheckRequired | MusicDiary/Pods/nanopb/pb_decode.c:1039-1079 | Reports exactly whether one of the first 64 required fields never occurred, for any table and from any iterator position |
| RequiredFields.AllSeen | MusicDiary/Pods/nanopb/pb_decode.c:1058-1079 | The word-by-word comparison with all-ones patterns is membership of every checked index |
| RequiredFields.CountToEnd | MusicDiary/Pods/nanopb/pb_decode.c:1041-1056 | Walking the iterator to the end of the table counts its required fields |
| RequiredFields.RecordField | MusicDiary/Pods/nanopb/pb_decode.c:1021-1026 | Setting bit index & 31 of word index >> 5 records exactly the field seen |
| RequiredFields.MaskIsOnes | MusicDiary/Pods/nanopb/pb_decode.c:1058-1079 | A word is r one-bits if and only if it holds the first r indices and no later ones |
| RequiredFields.SetBit | MusicDiary/Pods/nanopb/pb_decode.c:1021-1026 | Or-ing a bit in adds that index to the set, whether or not it was there |
| RequiredFields.IndicesComplete | MusicDiary/Pods/nanopb/pb_decode.c:1039-1079 | All tracked fields were seen if and only if all indices below min(count, 64) are recorded |
| RequiredFields.FirstSixtyFour | MusicDiary/Pods/nanopb/pb_decode.c:1039-1079 | Something is missing if and only if a required field never occurred that has fewer than 64 required fields before it |
| Decoder.Decode | MusicDiary/Pods/nanopb/pb_decode.c:1084-1096 | Sets defaults and decodes: succeeds exactly when the specification does, with its struct and its stopping point |
| Decoder.DecodeNoinit | MusicDiary/Pods/nanopb/pb_decode.c:934-1082 | The in-place record loop with its moving iterator and bitmap computes the specified result on the struct it is given, and terminates on every input |
| Decoder.DecodeRecord | MusicDiary/Pods/nanopb/pb_decode.c:952-1030 | One turn of the loop is one step of the specified loop and uses up at least a byte |
| Decoder.DecodeStaticField | MusicDiary/Pods/nanopb/pb_decode.c:406-483 | Each rule (required, optional, repeated, packed, oneof) updates exactly its slot |
| Decoder.DecodePackedArray | MusicDiary/Pods/nanopb/pb_decode.c:424-452 | Elements land in place until the payload ends; overflow and malformed elements fail |
| Decoder.DecodeUnionMember | MusicDiary/Pods/nanopb/pb_decode.c:466-479 | A union reset happens exactly when the tag changes; a submessage that stays active is merged into |
| Decoder.ReleaseUnion | MusicDiary/Pods/nanopb/pb_decode.c:1137-1168 | Finds the old member by its tag and returns to the new one; fails exactly on a tag that names no field |
| Decoder.DecSubmessage | MusicDiary/Pods/nanopb/pb_decode.c:1525-1547 | The parent advances by exactly the length prefix and the declared size, even when the child stops early |
| Decoder.DecValue | MusicDiary/Pods/nanopb/pb_decode.c:1334-1565 | Every value decoder computes its specified parse |
| Decoder.DecVarint | MusicDiary/Pods/nanopb/pb_decode.c:1345-1380 | Narrowing to 1, 2, 4 or 8 bytes succeeds exactly when the signed value fits |
| Decoder.DecUvarint | MusicDiary/Pods/nanopb/pb_decode.c:1382-1404 | Narrowing succeeds exactly when the unsigned value fits |
| Decoder.DecSvarint | MusicDiary/Pods/nanopb/pb_decode.c:1406-1428 | Narrowing succeeds exactly when the zigzag value fits |
| Decoder.DecBool | MusicDiary/Pods/nanopb/pb_decode.c:1334-1343 | Any nonzero 32-bit varint is true |
| Decoder.DecFixed32 | MusicDiary/Pods/nanopb/pb_decode.c:1430-1434 | A 32-bit word is stored as it is |
| Decoder.DecFixed64 | MusicDiary/Pods/nanopb/pb_decode.c:1436-1445 | A 64-bit word is stored as it is |
| Decoder.DecBytes | MusicDiary/Pods/nanopb/pb_decode.c:1447-1485 | Accepts exactly the lengths that fit behind the length member |
| Decoder.DecString | MusicDiary/Pods/nanopb/pb_decode.c:1487-1523 | Accepts exactly the lengths that leave room for the terminator |
| Decoder.DecFixedLengthBytes | MusicDiary/Pods/nanopb/pb_decode.c:1549-1571 | An empty payload zeroes the field; otherwise only the exact length is accepted |
| Decoder.SetToDefaults | MusicDiary/Pods/nanopb/pb_decode.c:845-928 | Every slot takes the default of its descriptor, at every level, a union its reset tag, whatever was there |
| Decoder.CastKeeps | MusicDiary/Pods/nanopb/pb_decode.c:1345-1380 | Storing and comparing again detects exactly the values that do not fit |
| OutputStreams.VarintGroups | MusicDiary/Pods/nanopb/pb_encode.c:608-628 | The buffer loop produces the varint, in at most ten bytes |
| OutputStreams.OutputStream.Write | MusicDiary/Pods/nanopb/pb_encode.c:103-132 | Writes all or nothing, exactly when it fits; nothing at or beyond the limit changes |
| OutputStreams.OutputStream.EncodeVarint | MusicDiary/Pods/nanopb/pb_encode.c:608-628 | Emits the varint under that promise |
| OutputStreams.OutputStream.EncodeSvarint | MusicDiary/Pods/nanopb/pb_encode.c:630-639 | Emits the zigzag varint |
| OutputStreams.OutputStream.EncodeFixed32 | MusicDiary/Pods/nanopb/pb_encode.c:641-651 | Emits the little-endian word |
| OutputStreams.OutputStream.EncodeFixed64 | MusicDiary/Pods/nanopb/pb_encode.c:653-667 | Emits the little-endian word |
| OutputStreams.OutputStream.EncodeTag | MusicDiary/Pods/nanopb/pb_encode.c:669-673 | Emits field number and wire type |
| OutputStreams.OutputStream.EncodeString | MusicDiary/Pods/nanopb/pb_encode.c:709-715 | Emits length and bytes; fails exactly when the two together do not fit |
| Encoder.EncodeToBuffer | MusicDiary/Pods/nanopb/pb_encode.c:74-124 | Encoding into capacity n succeeds if and only if the encoded size is at most n, leaves exactly the encoding at the front, and never changes a byte at or beyond n |
| Encoder.GetEncodedSize | MusicDiary/Pods/nanopb/pb_encode.c:567-576 | The sizing pass counts exactly the bytes the writing pass emits, at every nesting depth |
| Encoder.EncodeSubmessage | MusicDiary/Pods/nanopb/pb_encode.c:717-765 | The second pass writes exactly as many bytes as the first counted, so the size-changed error is never taken; the substream stays inside the parent |
| Encoder.Step | MusicDiary/Pods/nanopb/pb_encode.c:103-132 | One turn of a writing loop: a write that does not fit ends it inside the limit, one that fits extends what was written |
| Encoder.Encode | MusicDiary/Pods/nanopb/pb_encode.c:528-550 | Walking the table emits the fields in order, or fails without touching anything past the limit |
| Encoder.EncField | MusicDiary/Pods/nanopb/pb_encode.c:341-426 | Emits the bytes of the field, which `Presence.FieldOmitted` and `Presence.ZeroScalarOmitted` say are none exactly when it is absent |
| Encoder.EncArray | MusicDiary/Pods/nanopb/pb_encode.c:147-236 | Packed or one record per element; a count beyond array_size is an error and an empty array is silent |
| Encoder.PackedSize | MusicDiary/Pods/nanopb/pb_encode.c:162-201 | Multiplication and the sizing stream agree with the payload that is written |
| Encoder.PackedWords | MusicDiary/Pods/nanopb/pb_encode.c:177-186 | A packed payload of fixed words is width times count bytes |
| Encoder.EncPackedArray | MusicDiary/Pods/nanopb/pb_encode.c:162-214 | Tag, length and payload as one record |
| Encoder.EncEach | MusicDiary/Pods/nanopb/pb_encode.c:215-233 | One tagged record for each element, in order |
| Encoder.EncScalar | MusicDiary/Pods/nanopb/pb_encode.c:769-912 | Each scalar encoder emits its specified bytes; bytes and widths that do not fit are errors |
| Encoder.CheckProto3DefaultValue | MusicDiary/Pods/nanopb/pb_encode.c:238-334 | The zero check of implicit presence, through submessages: what `Presence.ZeroScalarOmitted` and `Presence.ZeroIsSilent` say on the bytes |
| Encoder.StringLength | MusicDiary/Pods/nanopb/pb_encode.c:873-897 | The bounded length is that of the C string in the buffer |
| PointerArrays.SizeCheckIsExact | MusicDiary/Pods/nanopb/pb_decode.c:511-521 | The overflow check passes if and only if both sizes are nonzero and their product fits in size_t |
| PointerArrays.PointerField.Allocate | MusicDiary/Pods/nanopb/pb_decode.c:490-533 | Growth keeps the entries in use; on failure the old storage stays |
| PointerArrays.PointerField.Reserve | MusicDiary/Pods/nanopb/pb_decode.c:616-637 | After growth there is room for one more element, and the allocated length never exceeds PB_SIZE_MAX |
| PointerArrays.GrownIsEstimate | MusicDiary/Pods/nanopb/pb_decode.c:622-630 | Storage grows by the number of elements the remaining bytes can hold, rounded upwards, or by one near the limit |
| PointerArrays.GrownByWords | MusicDiary/Pods/nanopb/pb_decode.c:622-630 | For fixed words that is exactly the number of words left |
| PointerArrays.PointerField.DecodeElements | MusicDiary/Pods/nanopb/pb_decode.c:610-655 | The loop appends exactly the run of elements; fixed words are allocated once, in an array of just the final length |
| PointerArrays.PointerField.DecodeElement | MusicDiary/Pods/nanopb/pb_decode.c:616-655 | The element is written below the allocated length |
| PointerArrays.PointerField.DecodePacked | MusicDiary/Pods/nanopb/pb_decode.c:598-660 | With memory enough, succeeds exactly when the payload is a run of elements that brings the array to at most PB_SIZE_MAX, and appends exactly those |
| AuthenticationModel.EveryRunIsSafe | MusicDiary/Pods/Alamofire/Source/AuthenticationInterceptor.swift:250-402 | Over every interleaving: at most one refresh under way and exactly while refreshing; nothing waits otherwise; each call in exactly one place; refreshes within the window's rate |
| AuthenticationModel.QuietMeansAnswered | MusicDiary/Pods/Alamofire/Source/AuthenticationInterceptor.swift:370-402 | When nothing is left to do, every call has had its completion called exactly once |
| AuthenticationModel.EveryRunEnds | MusicDiary/Pods/Alamofire/Source/AuthenticationInterceptor.swift:330-402 | Every run without new calls and with fresh credentials ends, within a bound known beforehand, however its refreshes end and its steps interleave |
| AuthenticationModel.EveryFullRunAnswers | MusicDiary/Pods/Alamofire/Source/AuthenticationInterceptor.swift:330-402 | When such a run cannot go on, nothing is left to do and every call made has been answered exactly once |
| AuthenticationModel.SettlingStep | MusicDiary/Pods/Alamofire/Source/AuthenticationInterceptor.swift:330-402 | Each of its steps lowers the bound: a refresh can only bring as many steps as there are calls waiting |
| AuthenticationModel.EveryCallCanBeAnswered | MusicDiary/Pods/Alamofire/Source/AuthenticationInterceptor.swift:330-402 | Such a run to the end exists from every state of a run |
| AuthenticationModel.Drains | MusicDiary/Pods/Alamofire/Source/AuthenticationInterceptor.swift:330-402 | It exists from any state at all |
| AuthenticationModel.NeverStuck | MusicDiary/Pods/Alamofire/Source/AuthenticationInterceptor.swift:330-353 | While a call is unanswered, some step other than a new call can be taken |
| AuthenticationModel.OneRefreshKept | MusicDiary/Pods/Alamofire/Source/AuthenticationInterceptor.swift:330-353 | Every step keeps: one refresh queued or outstanding exactly while refreshing, and empty waiting lists otherwise |
| AuthenticationModel.ConservedKept | MusicDiary/Pods/Alamofire/Source/AuthenticationInterceptor.swift:250-402 | Every step keeps each call in exactly one place, so none is lost, answered twice or invented |
| AuthenticationModel.RateLimitKept | MusicDiary/Pods/Alamofire/Source/AuthenticationInterceptor.swift:355-368 | Every step keeps: no closed interval of the window's length holds more refresh starts than allowed |
| AuthenticationModel.RefreshKeepsRate | MusicDiary/Pods/Alamofire/Source/AuthenticationInterceptor.swift:330-368 | This holds although the clock is read once for the check and again for the recorded timestamp |
| AuthenticationModel.FailAllDrains | MusicDiary/Pods/Alamofire/Source/AuthenticationInterceptor.swift:388-402 | A failed refresh answers all waiting calls with the error, adapts before retries, in order of arrival, and changes nothing else |
| AuthenticationModel.ResumeAllDrains | MusicDiary/Pods/Alamofire/Source/AuthenticationInterceptor.swift:370-386 | A successful refresh's block adapts every waiting request, in order, each with its completion called before the next, whatever the credential and the clock answer, and then tells every waiting retry to retry, in order |
| AuthenticationModel.AdaptsSettle | MusicDiary/Pods/Alamofire/Source/AuthenticationInterceptor.swift:250-289 | Those requests, when no refresh can start: all deferred during one, all refused without a credential, all given the current credential while it is fresh, completed in order |
| AuthenticationModel.AdaptsSplit | MusicDiary/Pods/Alamofire/Source/AuthenticationInterceptor.swift:250-289 | Those requests, when the credential turns stale at one of them: the ones before it are given the credential; then a refresh starts and all the others wait for it, or, with the window used up, that one fails together with all that waits and the list goes on after it |
| AuthenticationModel.RetriesResume | MusicDiary/Pods/Alamofire/Source/AuthenticationInterceptor.swift:381-386 | The retry half of that block alone |
| AuthenticationRuns.RefreshBrings | MusicDiary/Pods/Alamofire/Source/AuthenticationInterceptor.swift:370-386 | From any state with a refresh outstanding and an empty queue: the refresh succeeds with credential c and its block runs while c is fresh; then every waiting adapt is given c and every waiting retry told to retry, in order, and c is the credential |
| AuthenticationRuns.RefreshFails | MusicDiary/Pods/Alamofire/Source/AuthenticationInterceptor.swift:388-402 | The same with a failure: every waiting call is given the error, in order, and the credential stays |
| AuthenticationRuns.EachIsRun | MusicDiary/Pods/Alamofire/Source/AuthenticationInterceptor.swift:370-402 | Running a block call by call is a run of the queue's own steps |
| AuthenticationRuns.CredentialIsLast | MusicDiary/Pods/Alamofire/Source/AuthenticationInterceptor.swift:370-371 | After every run the credential is the one last set or last brought by a refresh |
| AuthenticationRuns.AdaptAtLock | MusicDiary/Pods/Alamofire/Source/AuthenticationInterceptor.swift:250-289 | The whole effect of a call of adapt: deferred, refused, given the current credential, or starting a refresh with it, exactly when fewer than maximumAttempts starts lie in the window that ends now; otherwise it fails with all that waits |
| AuthenticationRuns.RetryAtLock | MusicDiary/Pods/Alamofire/Source/AuthenticationInterceptor.swift:319-368 | The whole effect of a retry at the lock, with the credential it read and the same condition |
| AuthenticationRuns.RetryRead | MusicDiary/Pods/Alamofire/Source/AuthenticationInterceptor.swift:293-317 | What retry answers before the lock, and when it goes on to it |
| AuthenticationRuns.ExcessiveIsFull | MusicDiary/Pods/Alamofire/Source/AuthenticationInterceptor.swift:355-368 | The count is the number of starts recorded between the window's beginning and now, compared with maximumAttempts |
| AuthenticationRuns.StartsPastAlways | MusicDiary/Pods/Alamofire/Source/AuthenticationInterceptor.swift:337-338 | Over every run the recorded starts lie in the past, which that condition relies on |
| AuthenticationRuns.AnswersStayForGood | MusicDiary/Pods/Alamofire/Source/AuthenticationInterceptor.swift:278-402 | Over every run an answer once decided for a call stays that answer until it is delivered, and delivered answers stay in order |
| AuthenticationRuns.AnsweredInKind | MusicDiary/Pods/Alamofire/Source/AuthenticationInterceptor.swift:250-402 | Over every run adapt calls are only adapted, with a credential there was, retry calls only retried, errors are those that occurred, and refreshes are started with a credential there was |
| Authentication.AuthenticationInterceptor.constructor | MusicDiary/Pods/Alamofire/Source/AuthenticationInterceptor.swift:240-246 | A new interceptor meets the safety invariant |
| Authentication.AuthenticationInterceptor.Adapt | MusicDiary/Pods/Alamofire/Source/AuthenticationInterceptor.swift:250-289 | The method is the adapt step of the model, and keeps the safety invariant |
| Authentication.AuthenticationInterceptor.RetryRead | MusicDiary/Pods/Alamofire/Source/AuthenticationInterceptor.swift:293-317 | The part of retry before the lock is one step, which reads the credential and keeps the safety invariant |
| Authentication.AuthenticationInterceptor.RetryLock | MusicDiary/Pods/Alamofire/Source/AuthenticationInterceptor.swift:319-325 | The lock block of retry is another step, with the credential read earlier, and keeps the safety invariant |
| Authentication.AuthenticationInterceptor.Refresh | MusicDiary/Pods/Alamofire/Source/AuthenticationInterceptor.swift:330-353 | Refuses when excessive, otherwise records the timestamp, sets the flag and queues the start |
| Authentication.AuthenticationInterceptor.IsRefreshExcessive | MusicDiary/Pods/Alamofire/Source/AuthenticationInterceptor.swift:355-368 | The counting loop decides whether the window that ends now is used up |
| Authentication.AuthenticationInterceptor.HandleRefreshSuccess | MusicDiary/Pods/Alamofire/Source/AuthenticationInterceptor.swift:370-386 | Stores the new credential, empties both lists into one queued block and stops refreshing |
| Authentication.AuthenticationInterceptor.HandleRefreshFailure | MusicDiary/Pods/Alamofire/Source/AuthenticationInterceptor.swift:388-402 | Empties both lists into one queued block that carries the error |
| Authentication.AuthenticationInterceptor.RunQueueStep | MusicDiary/Pods/Alamofire/Source/AuthenticationInterceptor.swift:370-402 | One action of the block at the head of the serial queue, which keeps the safety invariant |
| Authentication.AuthenticationInterceptor.Complete | MusicDiary/Pods/Alamofire/Source/AuthenticationInterceptor.swift:278-287 | A call that left the lock has its completion called, once |
| Authentication.AuthenticationInterceptor.RefreshCompleted | MusicDiary/Pods/Alamofire/Source/AuthenticationInterceptor.swift:342-352 | The authenticator's completion, inside the lock; the safety invariant holds again after it |
| ImageCache.AutoPurgingImageCache.RunPurge | MusicDiary/Pods/AlamofireImage/Source/ImageCache.swift:193-220 | A triggered purge evicts the shortest least-recently-accessed prefix that brings usage to at most the preferred level; otherwise nothing changes; afterwards usage is at most capacity |
| ImageCache.AutoPurgingImageCache.Evict | MusicDiary/Pods/AlamofireImage/Source/ImageCache.swift:207-219 | The loop stops at the first entry that reaches the wanted number of bytes, and bytes are conserved |
| ImageCache.AutoPurgingImageCache.RunInsert | MusicDiary/Pods/AlamofireImage/Source/ImageCache.swift:182-191 | Replacing an entry keeps the usage exact: it changes by the new size less the replaced one |
| ImageCache.AutoPurgingImageCache.DispatchInsert | MusicDiary/Pods/AlamofireImage/Source/ImageCache.swift:181-192 | Queues the insert block; a purge block is now owed |
| ImageCache.AutoPurgingImageCache.DispatchPurge | MusicDiary/Pods/AlamofireImage/Source/ImageCache.swift:193-220 | Queues the purge block, so that usage over capacity always has a purge still coming |
| ImageCache.AutoPurgingImageCache.RemoveImage | MusicDiary/Pods/AlamofireImage/Source/ImageCache.swift:264-277 | Removes exactly that entry and its bytes |
| ImageCache.AutoPurgingImageCache.RemoveImages | MusicDiary/Pods/AlamofireImage/Source/ImageCache.swift:242-258 | Removes exactly the entries whose key starts with the request's key |
| ImageCache.AutoPurgingImageCache.RemoveAllImages | MusicDiary/Pods/AlamofireImage/Source/ImageCache.swift:281-295 | Empties the cache and its usage |
| ImageCache.AutoPurgingImageCache.GetImage | MusicDiary/Pods/AlamofireImage/Source/ImageCache.swift:314-324 | A hit refreshes one access date and nothing else |
| ImageCache.OrderTotal | MusicDiary/Pods/AlamofireImage/Source/ImageCache.swift:197-205 | The entries in sorted order add up to the usage of the dictionary |
| ImageCache.OrderExists | MusicDiary/Pods/AlamofireImage/Source/ImageCache.swift:197-205 | Every dictionary has an order by access date, so a purge can always run |
| ImageCache.FollowAppend | MusicDiary/Pods/AlamofireImage/Source/ImageCache.swift:181-220 | Dispatching keeps: every queued insert has a purge of its own behind it, or about to be queued |
| ImageCache.FollowTail | MusicDiary/Pods/AlamofireImage/Source/ImageCache.swift:181-220 | Running a block keeps that too |
| MultipartLayout.FormReadsBackInFull | MusicDiary/Pods/Alamofire/Source/MultipartFormData.swift:322-338 | A reader of section 5.1.1 of RFC 2046 gets back all the parts, in order and unchanged, if and only if the delimiter begins in none of them and only the last one carries a closing flag |
| MultipartLayout.AddedPartLost | MusicDiary/Pods/Alamofire/Source/MultipartFormData.swift:329-330 | The witness: a part behind one that still closes the form is not read |
| MultipartLayout.FormReadsBack | MusicDiary/Pods/Alamofire/Source/MultipartFormData.swift:64-77 | What such a reader gets in general is the parts up to the first closing one, if and only if the delimiter begins in none of those |
| MultipartLayout.FreshFormReadsBack | MusicDiary/Pods/Alamofire/Source/MultipartFormData.swift:322-338 | For a fresh form that is every part |
| MultipartLayout.FindDelimiter | MusicDiary/Pods/Alamofire/Source/MultipartFormData.swift:64-77 | The first delimiter found behind a block is the written one exactly when the block is unbroken |
| MultipartParts.FormComesBack | MusicDiary/Pods/Alamofire/Source/MultipartFormData.swift:322-400 | A form comes back as its parts, each with its header lines and its body, if and only if the delimiter begins in no block, only the last part closes the form, no header name has the separator and no name or value a line break |
| MultipartParts.FreshFormComesBack | MusicDiary/Pods/Alamofire/Source/MultipartFormData.swift:322-400 | The same for a fresh form |
| MultipartParts.PartComesBack | MusicDiary/Pods/Alamofire/Source/MultipartFormData.swift:394-400 | Header lines up to CR LF, each split at its first colon and space, and the body after the empty line: what was written comes back if and only if the headers are plain |
| MultipartParts.ReadIsText | MusicDiary/Pods/Alamofire/Source/MultipartFormData.swift:394-400 | Whatever a block is read as, it is the text of that |
| MultipartParts.TwoPartText | MusicDiary/Pods/Alamofire/Source/MultipartFormData.swift:64-77 | The text of a form of two parts, byte by byte |
| Multipart.MultipartFormData.Encode | MusicDiary/Pods/Alamofire/Source/MultipartFormData.swift:322-338 | Succeeds exactly when no part was rejected, no stream fails and every stream has its declared length, and then returns the form's text, whatever the chunking of the reads |
| Multipart.MultipartFormData.WriteEncodedData | MusicDiary/Pods/Alamofire/Source/MultipartFormData.swift:347-371 | Under any short reads and short writes the output is the same text, cut where the space ran out: it is the whole text if and only if that fits; the cut raises no error, and declared lengths are not compared |
| Multipart.FormCut | MusicDiary/Pods/Alamofire/Source/MultipartFormData.swift:493-509 | The witness: a form of 17 bytes into an output with room for 16 |
| Multipart.BodyPart.EncodeBodyStream | MusicDiary/Pods/Alamofire/Source/MultipartFormData.swift:402-431 | The read loop collects the whole stream, then compares its length |
| Multipart.BodyPart.WriteBodyStream | MusicDiary/Pods/Alamofire/Source/MultipartFormData.swift:452-476 | The copy loop passes on the whole stream, whatever the chunks |
| Multipart.BodyPart.WriteBuffer | MusicDiary/Pods/Alamofire/Source/MultipartFormData.swift:493-509 | The retry loop writes all that there is space for, in order |
| Multipart.MultipartFormData.SetFlags | MusicDiary/Pods/Alamofire/Source/MultipartFormData.swift:329-330 | Flags the first and last part and clears nothing |
| Multipart.MultipartFormData.Append | MusicDiary/Pods/Alamofire/Source/MultipartFormData.swift:307-310 | Adds an unflagged part behind the others |

## Left out

- Callback fields, extensions, fixed-count repeated fields, custom streams and the `PB_WITHOUT_64BIT` branch: they run unseen user code or repeat the argument with more cases.
- Pointer fields other than the growth of packed arrays (`pb_release`, allocated strings, bytes and submessages).
- `pb_decode_delimited`, `pb_decode_nullterminated` and their encoding counterparts: a length or a zero byte around the modelled calls.
- Error messages: success or failure only. After a failed decode nothing is said about the partly filled struct except its shape.
- Struct padding, alignment and pointer casts: fields are typed slots, a union is one slot; `Iterators.WalkIsLayout` relates slots to offsets. Contents of a union whose tag is zero, and of arrays beyond their count, are not modelled; nor is the byte that a record with field number zero stores for an empty table.
- Decoder.DecodeNoinit: the destination is a struct of the table's C type in which the contents of a union are those of the member its tag names, if it names one (predicate `Shapes.Shaped`); reading storage as another type is not modelled.
- Decoder.DecSubmessage: the nested struct is copied out and back in rather than updated through a pointer, so aliasing between a struct and its parts is not captured.
- Encoder.EncodeSubmessage: `size_t` wrap-around is not modelled; encoded lengths are assumed below 2^64 (predicate `Encoder.Held`).
- MergeResults.DecodeMerges: readers that join in one union fields the writer keeps apart are left to `Merging.DecodeIsMerge`, which has no such condition; for them the slots depend on the order of the records.
- Evolution.RoundTrip: lengths on the wire are assumed below 2^32, which the 32-bit length reader needs.
- WireFormat.Varint32Meaning: longer varints, for which the 8-bit counter wraps and groups land in the word again, are modelled in `Varints.ReadVarint32From` but not summed up.
- PointerArrays.PointerField.DecodePacked: `realloc` is modelled by a bound on the memory there is, and storage as an array of decoded values.
- URL requests, real dispatch queues and the network. Nothing is claimed about a refresh using the newest credential: `retry` reads it before it takes the lock.
- AuthenticationModel.RateLimitKept: the clock is real-valued and never goes back; the window does not change after construction.
- Iterators.SlotsApart: gaps are unsigned, as the descriptor holds them; that the shorter members of a union lie inside it is the compiler's layout and not derived.
- AuthenticationModel.EveryCallCanBeAnswered: the run exists; that the platform's queues and the authenticator take its steps is not modelled.
- AuthenticationModel.EveryRunIsSafe: assumes that the authenticator completes each refresh at most once.
- Image decoding, sizes computed from pixels, memory-warning notifications and cache keys made from URLs. Entries are values in the dictionary, images and dates are opaque, and the byte total does not wrap.
- ImageCache.AutoPurgingImageCache.RunPurge: the sort is any order by access date, given as a parameter with its specification; `ImageCache.OrderExists` shows there is one.
- Multipart.MultipartFormData.WriteEncodedData: file checks, and opening and closing of streams; an output stream that has run out of space stays so.
- MIME lookup, random boundaries, appending files, and character encoding: headers and boundaries are byte strings.
- The rest of Alamofire (requests, sessions, validation, server trust) and the app's own code: plumbing around system frameworks.
