# Verified model of the ja-bridge data paths

This project models, in Dafny, the code of `ja-bridge` that turns data into bytes and back or keeps
linked structures, and proves what that code is for:

* **nanopb** (`pb_encode.c`, `pb_decode.c`, `pb_common.c`, `pb.h`): the descriptor-driven encoder and
  decoder for Protocol Buffers. A descriptor is a tree of field records packed into 32-bit words; a
  message maps the offset of a field to what the structure holds there. Streams are classes with a
  buffer, a position and a limit, and every method is proved against a function on byte strings:
  `EncodeSpec.Wire` for the writer, `DecodeSpec.DecodeMessage` for the reader. The two functions are
  written independently of each other and meet in `RoundTrip`.
* **cJSON** (`src/cJSON.c`): parser, printer, comparison and child list. `JsonSpec.Render` is the
  text of a tree, `JsonSpec.ParseValue` the tree in a text; the cursor-moving parser and the printer
  with its growing buffer are proved against them, and they meet in `JsonRoundTrip`.
* **Task lists** (`src/list.h`, `src/task_queue.h`): circular doubly linked lists on the heap, and
  runs of operations on two of them.
* **Calendar** (`src/ign.h`): the loops of `nolocks_localtime` against the closed POSIX formula.
* **Stand-alone conversions**: floats written as doubles and read back, and UTF-8 validation.

`dafny verify dfyconfig.toml` checks everything.

## Layout

| file | content |
|---|---|
| `Bytes`, `BitField` | machine integers, parse results, shared facts, bits as arithmetic |
| `Varint` | base-128 numbers and zigzag on byte strings |
| `OutputStream`, `InputStream` | `pb_ostream_t`, `pb_istream_t` and the primitive writers and readers |
| `Descriptor` | packed field records and the circular field iterator |
| `Message`, `EncodeSpec`, `DecodeSpec` | messages, their wire format, and what a decoder makes of bytes |
| `Encoder`, `Decoder` | the codec, refining the two specifications |
| `Structures`, `Layout` | generated structures: which messages they hold and encode, and how long an encoding gets |
| `WireForms` | each kind of record and what is read from any bytes, against the numbers of the Protocol Buffers encoding |
| `ScalarRoundTrip`, `RoundTrip`, `Framing`, `Records`, `PackedArrays`, `Canonical` | what holds of the two specifications together |
| `BridgeMessages` | the messages the bridge gets from its server |
| `JsonStrings`, `JsonSpec`, `JsonParser`, `JsonPrinter`, `JsonRoundTrip`, `JsonDocument`, `JsonCompare`, `ChildList` | cJSON |
| `JsonGrammar`, `JsonText` | the parser and the printer against the grammar of RFC 8259 |
| `TaskList`, `Calendar`, `FloatConversion`, `Utf8Text` | the smaller cores |

## Where the code does not do what one might expect

* The encoder writes any length, the decoder reads lengths below 2^32 only: a message comes back if
  and only if every submessage in it is shorter (`RoundTrip.MessageInverts`). Inside a structure whose
  fields lie in it as C lays them out no length gets that long, up to 8190 structures inside each other
  (`Layout.StructureRoundTrip`); the length in front of a delimited message can (`Framing.TooLongToRead`).
* A single element that arrives at a full array is rejected, but the count has been raised by then: it
  is one more than the array has elements (`Records.ArrayLeftBound`).
* A NaN double whose highest 24 mantissa bits are all ones is read as the float -0.0, and one where
  they are all zeros as infinity (`FloatConversion.DoubleAsFloat`).
* A JSON object with two members of one name and different values does not compare equal to its own
  duplicate (`JsonCompare.ComparedExactly` says exactly when two trees compare equal).
* Half of a surrogate pair alone is a string by section 7 of RFC 8259, but is rejected, and an escaped
  zero ends the string (`Utf8Text.LiteralIsDecoded`). Four characters that are not hexadecimal digits are
  such a zero as well (`Utf8Text.NoNumber`).
* After the last of several children is detached, an appended child is lost
  (`ChildList.DetachLastThenAppend`). An appended child keeps its `next`, so that the list goes on into
  whatever that was (`ChildList.AddItemToArray`).
* The loop that works off the tasks being done moves the first one to the waiting list and then looks
  for the next one behind it, among the waiting tasks; if there are none it takes the head of that list
  for a task (`TaskList.TaskQueues.FirstTurns`).
* A printed tree takes one byte more of a preallocated buffer than its text and terminator
  (`JsonPrinter.PrintPreallocated`).
* Times before the Epoch are not broken down into a date, although the POSIX formula holds for the
  fields (`Calendar.TmBuffer.NolocksLocaltime`).

## Model

| member | source | states |
|---|---|---|
| Varint.EncodeIsMinimal | ja-bridge/pb_encode.c:541-590 | the varint of n is a base-128 form of n with no superfluous final digit |
| Varint.MinimalIsEncode | ja-bridge/pb_encode.c:541-590 | there is only one such form, so the two together fix every byte |
| Varint.EncodeAtMostTen | ja-bridge/pb_encode.c:541-573 | a 64-bit number takes at most ten bytes, the size of the writer's buffer |
| Varint.Decode64Inverts | ja-bridge/pb_decode.c:238-258 | the 64-bit reader gives back every 64-bit number the writer wrote, whatever follows |
| Varint.SkipInverts | ja-bridge/pb_decode.c:261-270 | skipping passes over exactly the varint |
| Varint.Decode32OfEncode | ja-bridge/pb_decode.c:170-236 | on encodings of numbers below 2^63 the 32-bit reader accepts exactly those below 2^32, unchanged |
| Varint.Decode32IsLowHalf | ja-bridge/pb_decode.c:170-258 | up to ten bytes, what the 32-bit reader accepts is the low half of what the 64-bit reader reads, over the same bytes |
| Varint.DigitsRead | ja-bridge/pb_decode.c:238-270 | any base-128 digits, minimal or not: the 64-bit reader takes up to ten and drops what is above 64 bits, skipping takes any number |
| Varint.PaddedRead | ja-bridge/pb_decode.c:170-236 | the 32-bit reader takes numbers below 2^32 with any zero digits behind them |
| Varint.TopRead | ja-bridge/pb_decode.c:195-213 | of the numbers from 2^63 on the 32-bit reader takes exactly those where bit 31 is set and each group of seven bits above bit 34 repeats one bit |
| Varint.NegativeRead | ja-bridge/pb_decode.c:195-213 | so it takes the ten bytes of a negative 32-bit number |
| Varint.DecodeIsLocal | ja-bridge/pb_decode.c:170-270 | bytes behind an accepted varint do not matter and are left alone |
| Varint.UnZigZagInverts | ja-bridge/pb_decode.c:1345-1357 | zigzag decoding undoes zigzag encoding for all 64-bit integers |
| Varint.ZigZagInverts | ja-bridge/pb_encode.c:593-602 | and the other way round for all 64-bit words |
| OutputStream.OStream.BufWrite | ja-bridge/pb_encode.c:52-62 | the data are appended behind what the buffer holds |
| OutputStream.OStream.Write | ja-bridge/pb_encode.c:81-105 | writes all or nothing: fails exactly when the data do not fit; a sizing stream only counts |
| OutputStream.OStream.EncodeVarint32 | ja-bridge/pb_encode.c:541-573 | the split low and high loops emit exactly the varint of high * 2^32 + low |
| OutputStream.OStream.EncodeVarint | ja-bridge/pb_encode.c:575-590 | the one-byte fast path and the general path emit the varint of the value |
| OutputStream.OStream.EncodeSVarint | ja-bridge/pb_encode.c:593-602 | emits the varint of the zigzag form |
| OutputStream.OStream.EncodeFixed32 | ja-bridge/pb_encode.c:604-613 | four bytes, little-endian |
| OutputStream.OStream.EncodeFixed64 | ja-bridge/pb_encode.c:616-629 | eight bytes, little-endian |
| OutputStream.OStream.EncodeString | ja-bridge/pb_encode.c:673-679 | the length prefix and the data |
| InputStream.IStream.Read | ja-bridge/pb_decode.c:85-120 | reads exactly count bytes or fails |
| InputStream.IStream.DecodeVarint32 | ja-bridge/pb_decode.c:170-236 | the shifting loop with its tolerance for sign extension computes the 32-bit reading of the digits, with a shift counter that does not wrap |
| InputStream.IStream.DecodeVarint | ja-bridge/pb_decode.c:238-258 | the loop computes the 64-bit reading of the digits, and fails without a final digit within ten bytes |
| InputStream.IStream.SkipUnknown | ja-bridge/pb_decode.c:303-316 | skips one value by its wire type |
| InputStream.IStream.DecodeTag | ja-bridge/pb_decode.c:286-301 | field number and wire type of a record |
| InputStream.IStream.DecodeSVarint | ja-bridge/pb_decode.c:1345-1357 | reads a zigzag number |
| InputStream.IStream.DecodeFixed32 | ja-bridge/pb_decode.c:1359-1379 | reads four bytes, little-endian |
| InputStream.IStream.DecodeFixed64 | ja-bridge/pb_decode.c:1382-1407 | reads eight bytes, little-endian |
| InputStream.IStream.MakeSubstream | ja-bridge/pb_decode.c:357-370 | the substream holds exactly the announced bytes, the parent those behind them |
| InputStream.IStream.CloseSubstream | ja-bridge/pb_decode.c:372-385 | whatever was read from it, the parent continues exactly at the end of the substream |
| Descriptor.LoadedExactly | ja-bridge/pb.h:671-709 | which fields come back from the 1, 2, 4 and 8 word packings as they were: all but one-word fields with another array size than 1 and wide ones with a size offset of more than seven bits |
| Descriptor.PackedFormat | ja-bridge/pb.h:643-690 | the words of each format are the parts that the table in the header lists, lowest bits first |
| Descriptor.FitsExactly | ja-bridge/pb.h:696-710 | a field can be bound with a width exactly if each part fits into the bits that the format has for it |
| Descriptor.WordsTell | ja-bridge/pb.h:671-690 | two fields have the same words exactly if the iterator loads the same values for them: packing loses nothing else |
| Descriptor.WordsAt | ja-bridge/pb.h:671-690 | the words of a field start where the widths of the earlier fields end |
| Descriptor.FieldIter.LoadDescriptorValues | ja-bridge/pb_common.c:8-107 | unpacks the values of the current field, in all four formats |
| Descriptor.FieldIter.AdvanceIterator | ja-bridge/pb_common.c:109-145 | the three running indices stay the prefix sums over the earlier fields, round the circle |
| Descriptor.FieldIter.Next | ja-bridge/pb_common.c:179-184 | goes round the fields and says when it wrapped |
| Descriptor.FieldIter.Find | ja-bridge/pb_common.c:186-223 | the search with the six-bit filter finds a field with that tag exactly when there is one, from any start, in at most field_count steps, and otherwise ends where it began |
| Decoder.FindField | ja-bridge/pb_common.c:186-223 | with distinct tags it finds what a linear search finds |
| Encoder.PackedSize | ja-bridge/pb_encode.c:141-172 | the length computed from the count or by a counting pass is the length of the packed data |
| Encoder.EncodeArray | ja-bridge/pb_encode.c:122-234 | writes the packed or unpacked form of the elements, or fails when it has none or there is no room |
| Encoder.CheckProto3Default | ja-bridge/pb_encode.c:238-327 | computes the zero test of a field, at any depth of submessages; which values pass it is told by WireForms.ZeroIsOmitted and OmittedSubmessage |
| EncodeSpec.DefaultIsSilent | ja-bridge/pb_encode.c:238-327 | the zero test holds exactly for the slots that leave nothing on the wire; of a oneof the members that are not selected do so as well |
| WireForms.NumberForm | ja-bridge/pb_encode.c:740-786 | bool, int, uint and sint fields: key with wire type 0 and the varint of n, of 2^64 + n for negative ints, of 2n or -2n - 1 for sints |
| WireForms.FixedForm | ja-bridge/pb_encode.c:604-629 | fixed-width fields: key with wire type 5 or 1 and the bytes of the number, lowest first |
| WireForms.DelimitedForm | ja-bridge/pb_encode.c:673-729 | bytes, strings, submessages and inline bytes: key with wire type 2, the length and the contents |
| WireForms.PackedForm | ja-bridge/pb_encode.c:135-190 | an array of numbers is one record with wire type 2 |
| WireForms.ElementsInOrder | ja-bridge/pb_encode.c:191-231 | an array that is not packed is one record for each element, in order |
| WireForms.FieldsInOrder | ja-bridge/pb_encode.c:480-502 | a message is what its fields leave, in the order of the descriptor |
| WireForms.ZeroIsOmitted | ja-bridge/pb_encode.c:307-325 | a singular number, byte array or string leaves nothing on the wire exactly if it is 0 or empty |
| WireForms.OmittedSubmessage | ja-bridge/pb_encode.c:290-305 | a singular submessage leaves nothing exactly if it holds its defaults and has, at any depth, no required field and no inline bytes that are always there |
| WireForms.DefaultForm | ja-bridge/pb_decode.c:873-948 | an initialised field has no elements, no member, is absent, or is zero in every byte |
| WireForms.NumberRead | ja-bridge/pb_decode.c:1414-1484 | for every 64-bit number on the wire: an int, uint or sint field takes the number its type makes of it if that fits into the field, and rejects it otherwise |
| WireForms.BoolRead | ja-bridge/pb_decode.c:1409-1412 | a bool is 1 for every number but 0, and numbers from 2^32 on are rejected |
| WireForms.FixedRead | ja-bridge/pb_decode.c:1359-1407 | for any four or eight bytes, the number with the lowest first |
| WireForms.DelimitedRead | ja-bridge/pb_decode.c:1511-1672 | for any contents: byte arrays and strings are taken exactly if there is room for them, a string up to its first zero; inline bytes exactly with their size, or empty as zeros |
| WireForms.WrongSize | ja-bridge/pb_encode.c:740-811 | numbers in fields of any other size than those of their type are neither written nor read |
| WireForms.ValueCut | ja-bridge/pb_decode.c:85-120 | an element that is cut off anywhere is rejected, submessages included |
| WireForms.WireTypeForm | ja-bridge/pb_decode.c:391-417 | each type has just one wire type |
| WireForms.SkipForm | ja-bridge/pb_decode.c:303-316 | skipping fixed-width values; groups and undefined wire types are rejected |
| WireForms.SkipDelimited | ja-bridge/pb_decode.c:272-284 | skipping delimited values, of any length and wherever cut |
| WireForms.ZeroKey | ja-bridge/pb_decode.c:1028-1038 | a zero key ends a null-terminated message, and is an error in any other |
| WireForms.WrongWireType | ja-bridge/pb_decode.c:453-541 | a record of a known field with a wire type not its own is rejected, packed numbers excepted |
| Encoder.EncodeField | ja-bridge/pb_encode.c:386-440 | writes what the wire format has for the slot, and nothing for absent ones |
| Encoder.EncodeSubmessage | ja-bridge/pb_encode.c:681-729 | the second pass writes what the first counted: the "submsg size changed" error cannot happen |
| Encoder.Encode | ja-bridge/pb_encode.c:480-502 | writes exactly the wire form of the message, fails exactly when a field has none or the stream has no room; a sizing stream counts the same number |
| Encoder.GetEncodedSize | ja-bridge/pb_encode.c:525-534 | is the number of bytes that encoding writes |
| Encoder.EncodeEx | ja-bridge/pb_encode.c:504-523 | the delimited and the null-terminated form |
| Encoder.EncVarint | ja-bridge/pb_encode.c:740-786 | an integer of 1, 2, 4 or 8 bytes in the form its type asks for |
| Encoder.EncBytes | ja-bridge/pb_encode.c:813-832 | a byte array with its length, unless it is longer than its storage |
| Encoder.EncString | ja-bridge/pb_encode.c:834-885 | a string up to its terminator, with its length |
| Decoder.DecVarint | ja-bridge/pb_decode.c:1414-1484 | accepts exactly the numbers that fit into the field's width |
| Decoder.DecBytes | ja-bridge/pb_decode.c:1511-1549 | accepts exactly the lengths the storage has room for |
| Decoder.DecString | ja-bridge/pb_decode.c:1551-1599 | the same for strings, with a byte for the terminator |
| Decoder.DecSubmessage | ja-bridge/pb_decode.c:1601-1648 | decodes a submessage from its substream, starting again from its defaults |
| Decoder.DecodePackedField | ja-bridge/pb_decode.c:471-505 | takes elements until the chunk or the array is used up, and fails if a byte is left or an element is malformed; also then the elements and the count are those up to there |
| Decoder.DecodeStaticField | ja-bridge/pb_decode.c:453-541 | what each kind of field does with a record; of an array also what a rejected record leaves in it, the raised count included |
| Decoder.MessageSetToDefaults | ja-bridge/pb_decode.c:950-983 | whatever the structure held, every field ends up with its default |
| Decoder.MarkRequired | ja-bridge/pb_decode.c:1095-1100 | the bits set in the two words are those of the required fields seen so far and this one |
| Decoder.DecodeKnownField | ja-bridge/pb_decode.c:1071-1104 | one record of a known field, with the books on required and fixed-count fields kept; a rejected one leaves what it stored in the array |
| Decoder.CheckRequired | ja-bridge/pb_decode.c:1113-1153 | the words of the bit set with the partial mask decide whether all required fields were seen |
| Decoder.DecodeInner | ja-bridge/pb_decode.c:989-1156 | decodes a message as the specification does and leaves the stream behind what it read; accepted or not, the message is what the records up to there made of it |
| Decoder.DecodeEx | ja-bridge/pb_decode.c:1158-1184 | the same with the options for framing and initialisation |
| BitField.LowOnes | ja-bridge/pb_decode.c:1113-1153 | comparing with all ones or a shifted mask is asking whether all low bits are set |
| BitField.BitOr | ja-bridge/pb_decode.c:1095-1100 | setting a bit with or sets that one and keeps the others |
| ScalarRoundTrip.VarintInverts | ja-bridge/pb_encode.c:740-786 | reading undoes writing for every width and signedness |
| ScalarRoundTrip.ScalarInverts | ja-bridge/pb_decode.c:419-451 | reading undoes writing for every type but submessages, whatever follows |
| ScalarRoundTrip.PrefixInverts | ja-bridge/pb_decode.c:357-385 | a length prefix is read back exactly when the length is below 2^32 |
| ScalarRoundTrip.PackedAllInverts | ja-bridge/pb_decode.c:471-505 | a packed array is read back behind the elements already there |
| Structures.MessageEncodes | ja-bridge/pb_encode.c:480-502 | a message that a structure holds has an encoding exactly if it fits: at every depth, arrays within their size, byte arrays and strings with room for their size and terminator, known types; nothing is asked of what is not written |
| RoundTrip.ValueInverts | ja-bridge/pb_decode.c:419-451 | the same for all elements, submessages at any depth included, with the exact condition |
| RoundTrip.FieldsInvert | ja-bridge/pb_decode.c:989-1104 | reading the records of the fields from i on fills in exactly those fields |
| RoundTrip.MessageInverts | ja-bridge/pb_decode.c:989-1156 | for every generated descriptor and every message its structure holds that fits, decoding the encoding gives back the message and consumes all bytes, if and only if every submessage is shorter than 2^32 bytes |
| Layout.MessageBound | ja-bridge/pb_encode.c:480-502 | the encoding of a structure with n structures inside each other has at most 16 + 8n bytes for each byte of it, and no length in it reaches 2^32 |
| Layout.StructureRoundTrip | ja-bridge/pb_decode.c:989-1156 | so every message that fits into a structure comes back from its encoding, without a condition on lengths |
| Framing.FramedRoundTrip | ja-bridge/pb_encode.c:504-523 | the same for the delimited and the null-terminated form, with anything behind it left untouched |
| Framing.FrameForm | ja-bridge/pb_encode.c:504-523 | a frame is the length in front of the message or a zero byte behind it |
| Framing.NoInitContinues | ja-bridge/pb_decode.c:1158-1184 | decoding a second piece without initialising goes on where the first ended, delimited or not |
| Framing.StructuresFit | ja-bridge/pb_encode.c:504-523 | for structures the framed forms come back as well, except exactly delimited messages of 2^32 bytes and more |
| Framing.TooLongToRead | ja-bridge/pb_decode.c:357-370 | a message that is encoded, and rejected in its delimited form |
| Framing.NullTerminatedInverts | ja-bridge/pb_decode.c:1028-1038 | a zero tag ends a null-terminated message and what follows is left |
| Framing.StreamRoundTrip | ja-bridge/pb_decode.c:1158-1176 | any number of framed messages written back to back are read back one by one |
| BridgeMessages.ServerEventRoundTrip | ja-bridge/src/ign.pb.h:318-354 | every message from the server that fits its structure comes back in each framing: no length in it is too long |
| BridgeMessages.LockJobForm | ja-bridge/src/ign.pb.h:318-322 | the bytes of a command for a lock, for every name and command |
| BridgeMessages.EveryTypeFormed | ja-bridge/pb.h:540-583 | a structure with every type and kind of field that is modelled meets what the theorems assume of structures |
| Records.RecordsFold | ja-bridge/pb_decode.c:1014-1104 | decoding is a fold over records: x followed by y is y decoded from the state x leaves |
| Records.DecodeIsFold | ja-bridge/pb_decode.c:989-1156 | without required and fixed-count fields, decoding two pieces with no initialisation in between is decoding their concatenation |
| Records.UnknownRecordIgnored | ja-bridge/pb_decode.c:1040-1069 | a record with a tag of no field, between two records, changes nothing |
| Records.FieldIsSkip | ja-bridge/pb_decode.c:303-316 | a field that accepts a record moves on by exactly what skipping the record would |
| Records.RecordsSee | ja-bridge/pb_decode.c:1095-1100 | the required fields seen are those whose tags occur in the input |
| Records.RequiredBeforeCounts | ja-bridge/pb_common.c:134-137 | the index of a required field is the number of required fields in front of it |
| Records.AcceptedIffRequiredPresent | ja-bridge/pb_decode.c:1113-1153 | if all records decode and no fixed-count array is short, a message is accepted exactly when each required field with an index below 64 occurs |
| Records.RecordsBound | ja-bridge/pb_decode.c:471-541 | on accepted input, no array and no running count of a fixed-count array gets beyond the storage |
| Records.ReachedBound | ja-bridge/pb_decode.c:471-541 | for all input, accepted or rejected part-way, no array has more elements than its storage when decoding ends, those of the rejected record included |
| Records.DecodedArraysFit | ja-bridge/pb_decode.c:989-1156 | the same from an initialised structure, without a condition on the bytes |
| Records.ArrayLeftBound | ja-bridge/pb_decode.c:471-515 | after any record of an array, accepted or not, the elements are inside and the count is at most one too many: exactly when a single element arrives at a full array |
| Records.EarlierElementsStay | ja-bridge/pb_decode.c:453-541 | whatever a record holds, the elements received before it stay; a rejected single one adds nothing |
| Records.FieldLeaves | ja-bridge/pb_decode.c:471-515 | an accepted record leaves as many as it counts, within the storage |
| PackedArrays.ChunksConcatenate | ja-bridge/pb_decode.c:471-515 | any mixture of packed chunks and single records decodes to the concatenation, exactly if that fits; a fixed-count array is filled anew when the decoder comes to it from another one |
| PackedArrays.ChunksAccepted | ja-bridge/pb_decode.c:1014-1112 | a message of such chunks is accepted exactly if they fit, and with a fixed count exactly if they fill the array |
| PackedArrays.BrokenChunk | ja-bridge/pb_decode.c:471-505 | of a packed array that breaks off, exactly the elements in front of the first malformed one are kept, as far as there is room |
| PackedArrays.BrokenMessage | ja-bridge/pb_decode.c:471-505 | so far has the message got when decoding ends there: the array has those elements, nothing else has changed, and not even that if another fixed-count array is short |
| Canonical.MessageSound | ja-bridge/pb_decode.c:989-1156 | from initialised structures, whatever bytes are accepted, the message is one the structure holds, with known selectors, and one that fits |
| Canonical.AcceptedIsReencoded | ja-bridge/pb_decode.c:989-1156 | accepted bytes may be one of many encodings of their message; encoding it again gives one that decodes to the same message |
| JsonStrings.StringRoundTrip | ja-bridge/src/cJSON.c:767-1015 | what is printed for a C string is parsed back, whatever follows |
| JsonStrings.EscapeAllPrintable | ja-bridge/src/cJSON.c:896-1015 | printed strings hold no raw control character and no zero |
| JsonStrings.TwoPassBound | ja-bridge/src/cJSON.c:780-871 | from any position, in step with the scan or not, and whether the literal is well-formed or not, the second pass writes no more than the scan allowed for |
| JsonStrings.TextFits | ja-bridge/src/cJSON.c:780-871 | for every literal, malformed or not, what is written and a terminator fit into the allocation |
| JsonParser.ParseHex4 | ja-bridge/src/cJSON.c:609-642 | four hexadecimal digits, or zero |
| JsonParser.WriteUtf8 | ja-bridge/src/cJSON.c:710-758 | the loop from the last byte to the first writes the UTF-8 form of the code point |
| JsonParser.Utf16LiteralToUtf8 | ja-bridge/src/cJSON.c:646-764 | an escape or a surrogate pair is read, checked and written as UTF-8, inside the storage |
| JsonParser.ParseBuffer.SkipWhitespace | ja-bridge/src/cJSON.c:1032-1055 | skips, stepping back at the end; the cursor stays in front of the end |
| JsonParser.ParseBuffer.ScanString | ja-bridge/src/cJSON.c:780-802 | finds the closing quote and counts the escapes |
| JsonParser.ParseBuffer.UnescapeInto | ja-bridge/src/cJSON.c:813-871 | the second pass computes the text and never leaves storage of the size the first pass computed |
| JsonParser.ParseBuffer.ParseStringLiteral | ja-bridge/src/cJSON.c:767-893 | both passes together |
| JsonParser.ParseBuffer.ParseNumberLiteral | ja-bridge/src/cJSON.c:301-375 | takes what strtod takes of at most 63 number characters |
| JsonParser.ParseBuffer.ParseNext | ja-bridge/src/cJSON.c:1306-1358 | computes the value in front of the cursor; on success the cursor has moved forward and is inside, and the depth is restored |
| JsonParser.ParseBuffer.ParseArrayText | ja-bridge/src/cJSON.c:1435-1526 | the same for arrays, steps back included; the recursion terminates |
| JsonParser.ParseBuffer.ParseObjectText | ja-bridge/src/cJSON.c:1591-1697 | the same for objects |
| JsonParser.ParseWithLengthOpts | ja-bridge/src/cJSON.c:1089-1166 | a whole document: byte order mark, white space, and the check for trailing text |
| JsonRoundTrip.ValueInverts | ja-bridge/src/cJSON.c:1306-1358 | parsing a printed tree, formatted or not, at any depth and whatever delimiter follows, gives back the tree if it nests no deeper than the limit, and fails otherwise |
| JsonRoundTrip.DocumentRoundTrip | ja-bridge/src/cJSON.c:1089-1166 | the same for whole documents, with nothing left but the terminator |
| JsonRoundTrip.ValueNests | ja-bridge/src/cJSON.c:1435-1445 | whatever the text, an accepted tree nests within the limit |
| JsonRoundTrip.AcceptedIsReprinted | ja-bridge/src/cJSON.c:1089-1166 | whatever document is accepted, its tree printed, formatted or not, and parsed again is the same |
| JsonGrammar.NumberParsed | ja-bridge/src/cJSON.c:301-375 | for every number of section 6 of RFC 8259: the token given to strtod is all of it, or its first 63 characters, and it is the value if strtod takes it |
| JsonGrammar.ValueParsed | ja-bridge/src/cJSON.c:1306-1358 | every text of the grammar of RFC 8259, with blanks anywhere and characters in any spelling, is parsed to the tree it stands for; it is rejected exactly if that nests too deeply or half of a surrogate pair stands alone |
| JsonGrammar.DocumentParsed | ja-bridge/src/cJSON.c:1056-1166 | the same for documents, with a byte order mark and blanks around; a required terminator may follow blanks only |
| JsonGrammar.NotParsed | ja-bridge/src/cJSON.c:1306-1358 | what starts like no value is rejected, and the words are taken whole or not at all |
| JsonText.PrintedIsGrammatical | ja-bridge/src/cJSON.c:1361-1432 | what is printed, formatted or not, is a text of the grammar that stands for the tree |
| JsonText.PrintedIsShortest | ja-bridge/src/cJSON.c:896-1015 | no text of the grammar with the same numbers stands for the tree and is shorter than the unformatted one: nothing is escaped or spaced that need not be |
| JsonText.LinesForward | ja-bridge/src/cJSON.c:1700-1809 | formatted, each member has its own line, with tabs, colon and tab in front of its value, and the closing brace has one tab less |
| JsonText.ItemsForward | ja-bridge/src/cJSON.c:1529-1588 | formatted, elements stand in one line with a comma and a space between them |
| JsonText.DeeperIsIndented | ja-bridge/src/cJSON.c:1700-1809 | one level deeper, the formatted text is the same with one more tab in every line |
| JsonPrinter.PrintBuffer.Ensure | ja-bridge/src/cJSON.c:435-520 | room for the bytes asked for and one more, exactly if the limit allows it; growing keeps the text written so far and doubles what is needed, up to INT_MAX |
| JsonPrinter.PrintBuffer.UpdateOffset | ja-bridge/src/cJSON.c:523-534 | the cursor moves to the terminator of the text |
| JsonPrinter.PrintBuffer.CountEscapes | ja-bridge/src/cJSON.c:923-947 | the first loop counts exactly what the second one writes |
| JsonPrinter.PrintBuffer.PrintStringPtr | ja-bridge/src/cJSON.c:896-1015 | writes the quoted form of the string, exactly if it fits |
| JsonPrinter.PrintBuffer.PrintValue | ja-bridge/src/cJSON.c:1361-1432 | writes the text of the tree behind what is there, and fails exactly when text, terminator and one byte do not fit |
| JsonPrinter.PrintBuffer.PrintArray | ja-bridge/src/cJSON.c:1529-1588 | the same for arrays |
| JsonPrinter.PrintBuffer.PrintObject | ja-bridge/src/cJSON.c:1700-1809 | the same for objects, with tabs and line ends when formatted |
| JsonPrinter.Print | ja-bridge/src/cJSON.c:1181-1244 | the text and its terminator in storage of just that size |
| JsonPrinter.PrintBuffered | ja-bridge/src/cJSON.c:1256-1284 | the same in storage that starts with a size the caller chose |
| JsonPrinter.PrintPreallocated | ja-bridge/src/cJSON.c:1286-1303 | succeeds exactly if the caller's storage has one byte more than text and terminator |
| JsonDocument.PrintAndParse | ja-bridge/src/cJSON.c:1089-1253 | printing and parsing gives back the tree exactly if the text fits INT_MAX and the tree nests within the limit |
| JsonCompare.CaseInsensitiveStrcmp | ja-bridge/src/cJSON.c:129-148 | zero exactly for names of one length that are byte by byte equal or an ASCII letter in its two cases |
| JsonCompare.FoldForm | ja-bridge/src/cJSON.c:129-148 | folding identifies exactly those names |
| JsonCompare.GetObjectItem | ja-bridge/src/cJSON.c:1866-1897 | the first member with such a name, or with exactly the name when case matters; none if there is none |
| JsonCompare.Compare | ja-bridge/src/cJSON.c:2941-3064 | computes, with its loops in both directions, what the lemmas below characterise |
| JsonCompare.ComparedPlain | ja-bridge/src/cJSON.c:2964-3021 | values without children are compared as they are, arrays element by element |
| JsonCompare.ComparedExactly | ja-bridge/src/cJSON.c:2941-3064 | for all trees: compare equal if and only if equal with objects as unordered maps and no object has members of one name with different values |
| JsonCompare.ComparedDistinct | ja-bridge/src/cJSON.c:2941-3064 | without duplicate names, exactly equality as maps |
| JsonCompare.ComparedWithCopy | ja-bridge/src/cJSON.c:2964-2968 | a tree compares equal to its duplicate, so that the early exit for one pointer makes no difference, exactly if it has no members of one name with different values |
| JsonCompare.DuplicateNameDiffers | ja-bridge/src/cJSON.c:3023-3059 | a tree that does not compare equal to its duplicate |
| JsonCompare.Duplicate | ja-bridge/src/cJSON.c:2665-2742 | the same tree, or without recursion the same without children |
| ChildList.GetArrayItem | ja-bridge/src/cJSON.c:1837-1854 | the element at the index, null behind the end |
| ChildList.AddItemToArray | ja-bridge/src/cJSON.c:1942-1982 | with the tail unset or true, links the item in at the end and makes the tail true, and the list is well formed exactly if it was empty or the item had no next; with a detached element there, the new one is lost |
| ChildList.InsertItemInArray | ja-bridge/src/cJSON.c:2252-2279 | inserts in front of the element at the index or appends, keeps the tail unset or true; well formed exactly if the item had no next where it is appended to others |
| ChildList.InsertedAt | ja-bridge/src/cJSON.c:2252-2279 | the inserted element has the index or is the last, and the others keep their order |
| ChildList.DetachItemViaPointer | ja-bridge/src/cJSON.c:2182-2210 | takes the element out; the tail stays unset or true except exactly when the last of several elements goes and the first points to it, as it then still does |
| ChildList.DetachLastThenAppend | ja-bridge/src/cJSON.c:2182-2210 | after that, an appended item hangs behind the detached one and is not in the list |
| ChildList.AttachParsed | ja-bridge/src/cJSON.c:1471-1515 | the list the parser builds is well linked and leaves the tail unset |
| TaskList.ListAdd | ja-bridge/src/list.h:53-75 | links a new entry in behind the head; the list stays circular and inversely linked |
| TaskList.ListDelEntry | ja-bridge/src/list.h:95-106 | links an entry out |
| TaskList.LinksTell | ja-bridge/src/list.h:137-150 | the tests for the last entry and the empty list tell what they say |
| TaskList.Search | ja-bridge/src/list.h:211-212 | the traversal stops at the first task with that message id |
| TaskList.FindTaskByMsgID | ja-bridge/src/task_queue.h:47-57 | the first task with that message id, or null |
| TaskList.NextTask | ja-bridge/src/task_queue.h:36-41 | the task behind, null behind the last one; asked with the head of another list, the head of its own |
| TaskList.IsEmpty | ja-bridge/src/task_queue.h:43-45 | holds exactly for the empty list |
| TaskList.TaskQueues.InsertTask | ja-bridge/src/task_queue.h:4-11 | puts a new task at the front of one list; the other is as before |
| TaskList.TaskQueues.DeleteTask | ja-bridge/src/task_queue.h:13-16 | takes out the node it is given |
| TaskList.TaskQueues.DeleteTaskByMsgID | ja-bridge/src/task_queue.h:22-34 | takes out exactly the first task with that message id |
| TaskList.TaskQueues.Unlink | ja-bridge/src/list.h:97-106 | a node of either list is linked out, the rest in order, the other list as before |
| TaskList.TaskQueues.MoveTask | ja-bridge/src/task_queue.h:18-20 | a node of either list goes from its place to the front of either list |
| TaskList.TaskQueues.MoveTaskByMsgID | ja-bridge/src/ign.c:663-671 | the first task with that message id goes to the front of either list |
| TaskList.TaskQueues.FirstTurns | ja-bridge/src/ign.c:792-806 | the second node the loop looks at is the first of the waiting tasks, or the head of their list, and never the second of the tasks being done |
| TaskList.Execute | ja-bridge/src/task_queue.h:4-57 | every run of operations, by message id or on any node, keeps both lists circular and apart, and does to them what it does to their values |
| TaskList.DeletedTells | ja-bridge/src/task_queue.h:22-34 | on values: the first task with the id goes, nothing else changes |
| TaskList.MovedTells | ja-bridge/src/ign.c:663-671 | on values: the first task with the id goes to the front of the other list, or of its own |
| TaskList.NodeTells | ja-bridge/src/task_queue.h:13-20 | on values: the same for the task at any place |
| TaskList.MoveConserves | ja-bridge/src/list.h:122-131 | moving any task of either list conserves the tasks of both lists together |
| TaskList.RunConserves | ja-bridge/src/task_queue.h:4-34 | over every run, the tasks left and the tasks deleted are those at the start and those inserted |
| Calendar.YearLength | ja-bridge/src/ign.h:103-108 | the leap year rule is the difference of the closed formula between two years |
| Calendar.CountYears | ja-bridge/src/ign.h:130-139 | the loop over the years finds the year and the day in it |
| Calendar.MonthsByFormula | ja-bridge/src/ign.h:141-153 | the table of month lengths adds up to a closed formula without a table |
| Calendar.CountMonths | ja-bridge/src/ign.h:141-153 | the loop over the months finds the month and the day in it, by that formula |
| Calendar.WeekdayIsRemainder | ja-bridge/src/ign.h:124-127 | the remainder is the day of the week, counted day by day from a Thursday |
| Calendar.TmBuffer.NolocksLocaltime | ja-bridge/src/ign.h:110-155 | the fields satisfy the formula of section 4.16 of POSIX.1-2017 for every time, and are a date in the calendar exactly for times from the Epoch on; month and day are those of the closed formula for the day of the year |
| Calendar.OrderPreserved | ja-bridge/src/ign.h:110-155 | on dates, earlier field by field is earlier in seconds |
| Calendar.DateIsUnique | ja-bridge/src/ign.h:110-155 | no other date has the same seconds |
| FloatConversion.FloatAsDouble | ja-bridge/pb_encode.c:912-957 | the double has the sign and exactly the magnitude of the float, denormalised ones included |
| FloatConversion.OneIsOne | ja-bridge/pb_decode.c:1674-1734 | 1.0 has the same magnitude in both formats, which fixes their units |
| FloatConversion.DoubleAsFloat | ja-bridge/pb_decode.c:1674-1734 | the float keeps the sign and is the nearest one, ties away from zero (section 4.3.1 of IEEE 754-2008), carries and overflow included; and what becomes of each NaN |
| FloatConversion.InRangeRounds | ja-bridge/pb_decode.c:1690-1731 | rounding half up on the highest 24 bits is rounding the number, denormalised results included |
| FloatConversion.RoundingIsUnique | ja-bridge/pb_decode.c:1674-1734 | the nearest float with that rule for ties is determined |
| FloatConversion.ThereAndBack | ja-bridge/pb_decode.c:1674-1734 | every 32-bit pattern comes back, NaNs included |
| Utf8Text.ValidateUtf8 | ja-bridge/pb_common.c:282-333 | accepts exactly the strings of the grammar in section 4 of RFC 3629 without U+FFFE and U+FFFF, and never reads past the terminator |
| Utf8Text.FirstChar | ja-bridge/pb_common.c:282-333 | the grammar divides a text into characters in one way only, told by their first bytes |
| Utf8Text.EncodedIsChar | ja-bridge/src/cJSON.c:700-758 | what is written for a code point is in the grammar exactly unless it is a surrogate |
| Utf8Text.CharIsEncoded | ja-bridge/src/cJSON.c:700-758 | every character of the grammar is what is written for its code point |
| Utf8Text.EncodingIsInjective | ja-bridge/src/cJSON.c:700-758 | the code point can be read back |
| Utf8Text.EscapeReadsBack | ja-bridge/src/cJSON.c:646-708 | every escape of a code point, with digits of either case and surrogate pairs included (section 7 of RFC 8259), is read as that code point; a lone surrogate is rejected |
| Utf8Text.TextIsDecoded | ja-bridge/src/cJSON.c:813-868 | any text of the string grammar, unescaped characters, two-character escapes and units in any mixture, comes out as the UTF-8 of its code points, and is rejected exactly if half of a surrogate pair stands alone |
| Utf8Text.LiteralIsDecoded | ja-bridge/src/cJSON.c:767-893 | the same for the whole literal: its end is found, and what follows it is left |
| Utf8Text.UnknownEscape | ja-bridge/src/cJSON.c:853-868 | a character that has no meaning behind a backslash rejects the literal |
| Utf8Text.NoNumber | ja-bridge/src/cJSON.c:609-642 | four characters that are not all hexadecimal digits count as the number zero |
| Utf8Text.StorageForm | ja-bridge/src/cJSON.c:780-808 | the first pass allocates a byte for each byte between the quotes, less one for each escape, and two more |
| Utf8Text.EncodedTextIsUtf8 | ja-bridge/src/cJSON.c:700-758 | the encoding of any series of code points is in the grammar of UTF-8 |
| Utf8Text.LiteralsAreUtf8 | ja-bridge/src/cJSON.c:646-700 | an escape that is not rejected never ends up as a surrogate |

## Left out

- Callbacks, custom streams, extensions, pointer fields and default values of descriptors: user code or allocation; descriptors with such fields are not `Supported`.
- Error message texts: methods say whether they fail, not with which message.
- What a structure holds behind a string's terminator, behind the count of an array, in absent optionals and in the unreceived part of fixed-count arrays: a message is what a reader of the structure may look at.
- Integer conversions of 16-bit counters (`pb_size_t`) and of `size_t` beyond the conversion of lengths to 64 bits: counters are unbounded.
- Merging of repeated occurrences of one submessage field: the code starts again from the defaults, and so does the model.
- InputStream.IStream.DecodeVarint32: the shift counter does not wrap. Where `uint_fast8_t` has eight bits the source begins anew after 37 bytes with the top bit set: it reads 37 bytes 0x80 and then 0x01 as 8, where the model rejects them. What is said of all input (Decoder, Records, Canonical) is meant with this reading of such varints.
- Varint.Decode32IsLowHalf: says nothing beyond ten bytes.
- RoundTrip.MessageInverts: assumes for each oneof a selector of one of its fields or 0, and speaks of encodings below 2^63 bytes; those of structures are (Layout.StructureRoundTrip).
- Layout.StructureRoundTrip: says nothing of descriptors with more than 8190 structures inside each other; padding, flags and counts are not part of the layout.
- PackedArrays.ChunksConcatenate: assumes less than 2^59 elements in one chunk.
- Canonical.AcceptedIsReencoded: assumes that no array has a fixed count, since one that is not received holds elements nobody knows.
- Records.DecodeIsFold: assumes no required and no fixed-count fields, since the books on them are kept per call.
- Records.AcceptedIffRequiredPresent: assumes that no fixed-count array is short, which fails by itself.
- Decoder.DecodeStaticField: stores of elements are values of a sequence, not writes into a C structure; of a rejected record only what it leaves in an array is told, not the half-written element or what it leaves in other fields.
- JsonParser.ParseBuffer.ParseNext: builds trees as values; the links of the nodes are modelled in ChildList only. Failure of allocation is not modelled.
- JsonParser.ParseWithLengthOpts: assumes a text that ends with a zero byte, as `cJSON_ParseWithOpts` passes it; `parse_string` looks at the first character without a test (ja-bridge/src/cJSON.c:775), which is inside because of that zero.
- JsonParser.ParseBuffer.ParseNumberLiteral: which prefix strtod takes is a parameter, and a number is its text; the locale is the C locale.
- JsonPrinter.PrintBuffer.PrintNumber: the text of a number is given, as sprintf makes it.
- JsonPrinter.PrintBuffer.Ensure: failure of allocation is not modelled.
- JsonRoundTrip.AcceptedIsReprinted: assumes a strtod that takes all of a token that it has returned.
- JsonCompare.Compare: works on values, so two different nodes are compared even where the source sees one pointer; numbers are compared exactly, without the tolerance of compare_double.
- JsonCompare.Duplicate: the copy is a value; the links it rebuilds are those of a parsed list.
- ChildList.AddItemToArray: an item handed over must not be in a list, which the source does not check.
- Raw and reference items, cJSON_ReplaceItemViaPointer, cJSON_Minify and the helper constructors of cJSON.
- TaskList.TaskQueues.DeleteTask: the poison pointers are null, and freeing is not modelled.
- TaskList.TaskQueues.MoveTask: the payload pointers of a task are left out; its state does not change while it is in a list.
- TaskList.TaskQueues.FirstTurns: the handler that is called for each task and the lock are left out.
- Calendar.TmBuffer.NolocksLocaltime: years beyond the range of int are not cut.
- FloatConversion.FloatAsDouble: the 64-bit word is returned instead of written to a stream.
- The main loop, MQTT, HTTPS, BLE, logging and generated code of the repository.
