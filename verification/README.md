# A verified model of the lwpb codec

lwpb encodes and decodes Protocol Buffers messages in C, with Python bindings, a decoder into C structs, a small
RPC framing and some record tools around it. This project models the parts of it where correctness is not obvious
and proves what they are for. `dafny verify dfyconfig.toml` checks all of it.

The codec works on a tree of items (`Format`): plain values, packed fields and nested messages, in encoding order.
`Enc` is the wire format as a recursive function on such a tree, and `Parse` is decoding as a recursive descent that
produces the handler calls. Everything that runs is proved against these two.

- `Wire`, `Scalars`: varints, little-endian words, and the conversions of every scalar type at its machine width.
- `Vectors`: encodings from the repository's vectors, which pin the format's constants. The other numbers and choices the
  proofs rest on are pinned where they are defined, by statements that do not use their names: what is on the wire for
  every value, what is read for every wire value, the nesting limit, the magic number and the result codes.
- `Buffers`, `Encoder`, `EncoderRuns`: the stack encoder. All frames share one array, a child starts ten bytes past its
  parent's position and is moved left when it is closed. Each call refines a step on the open levels; every legal
  sequence of calls that succeeds and closes what it opened has written the encoding of a tree.
- `Reads`, `Parser`, `Decoder`: the decoding loop with its frame stack, packed mode and jump out of the inner loop. It
  makes the calls of the recursive parse, on truncated inputs too, and terminates because the bytes left in all frames together,
  and then the depth, go down.
- `RoundTrip`, `EventOrder`, `UnknownFields`, `Truncation`: decoding inverts encoding; the order in which handlers are
  called; exactly when undeclared fields are skipped; and what becomes of every prefix of an encoding.
- `DictEncoder`, `ObjectBytes`, `DictDecoder`, `DictBuilder`: Python dicts to bytes in two passes, and back through handlers that fill
  nested dicts in place. `ObjectBytes` says what the bytes are from the object alone, field by field and value by
  value. Dicts live in a store at addresses, since the context stack refers to them too.
- `Codec`: encoders and decoders put together.
- `StructDecoder`: the decoder's events written into the memory of C structs.
- `Accepted`: every byte string the decoder accepts is a tree, so that what the dict and struct decoders do with
  encodings they do with all accepted messages.
- `Rpc`: request frames, and finding the service and method they name.
- `Percent`, `Flatten`, `RecordStream`: lines of escaped values, flat records, length-prefixed records.

Six things the code does are not what its comments, documentation or format say; the model follows the code, shows an
input on which they differ and says exactly when they coincide.

- Fields with undeclared numbers are meant to be skipped, but the descriptor of the field before is kept and used for
  them (src/lwpb/core/decoder.c:333, 372-376, 410-412). `UnknownFields.SkipsUnknownFieldsExactlyWhenTidy` gives the
  condition, on the bytes alone; `UnknownFields.UnknownFieldIsNotSkipped` and `UnknownFields.UnknownStringIsNotSkipped`
  are four and five bytes that do not meet it.
- The struct decoder counts elements from the last change of field, so interleaved repeated fields overwrite each other
  (TODO:4), and it never compares the count with the room (src/lwpb/utils/struct_decoder.c:53 compares `count` with
  itself). `StructDecoder.RightExactlyWhenContiguous` and `StructDecoder.InsideExactlyWhenRunsCounted` give the
  conditions, for whole trees; `StructDecoder.InterleavedOverwrites` and `StructDecoder.OneTooMany` are trees that do
  not meet them.
- `unflatten` makes a list element anew for every path through it (python/flat.py:23-26), so elements with more than
  one scalar are lost. `Flatten.UnflattenExactly` gives the condition, for every order of the items, and
  `Flatten.ElementLost` a record with such an element.
- A varint read looks at its first byte before it looks at the length (src/lwpb/core/decoder.c:159), although running
  out of bytes is documented to be reported (src/lwpb/core/decoder.c:151-152). Such a read has a status of its own,
  `PastEnd`; `Truncation.KeyAlone` is one byte that leads there. For every prefix of every encoding
  `Truncation.CutMessage` says which of success, the documented error and a read past the end it meets.
- The format lets a request header's fields come in any order, but a method is looked up only in a service already found
  (src/lwpb/rpc/socket_helper.c:109-110). `Rpc.FoundInAnyOrder` says when it is found.
- The errors of encoding a request's header into its 128 bytes are ignored (src/lwpb/rpc/socket_helper.c:46-50).
  `Rpc.HeaderLength` says which names fit, and `Rpc.SentDecodes` what a receiver makes of the header when they do not:
  behind a service name of 124 bytes it even accepts it, without the method.

## Model

| member | source | states |
|---|---|---|
| Wire.VarintLength | src/lwpb/core/encoder.c:38-53 | a varint takes at most k bytes exactly when the value is below 128^k |
| Wire.VarintBounds | src/lwpb/core/encoder.c:38-53 | 32-bit keys take at most 5 bytes, 64-bit values at most 10, and 5 bytes suffice exactly below 2^35 |
| Wire.VarintMonotone | python/encoder.c:88-157 | larger values never have shorter varints, on which the dry run's over-estimate rests |
| Wire.VarintRoundTrip | src/lwpb/core/decoder.c:154-168 | reading a written varint gives the value and takes exactly its bytes, whatever follows, for every 64-bit value |
| Wire.VarintTruncated | src/lwpb/core/decoder.c:161-162 | every strict prefix of a varint is recognised as too short |
| Wire.LeRoundTrip | src/lwpb/core/decoder.c:177-209 | a little-endian word read back is the value written |
| Wire.UnLeRoundTrip | src/lwpb/core/encoder.c:62-100 | writing back a word that was read gives the same bytes, and k bytes hold a value below 256^k |
| Scalars.ToWire | src/lwpb/core/encoder.c:327-401 | the wire value of a field's value has the wire type of the field's type |
| Scalars.FromWire | src/lwpb/core/decoder.c:429-481 | whatever is on the wire, the value handed on fits the field's C type |
| Scalars.WireNumber | src/lwpb/core/encoder.c:327-401 | the number on the wire for every value of every type: 64-bit two's complement for all plain varints, enums and bools included, twice the magnitude for zig-zag types, two's complement of the own width for fixed words |
| Scalars.ReadNumber | src/lwpb/core/decoder.c:429-481 | the value read for every wire value of every type: the one number of the C type's range congruent to it, for zig-zag types to its half, complemented if it is odd |
| Scalars.NegativeTakesTen | src/lwpb/core/encoder.c:336-385 | negative int32, int64, bool and enum values take ten bytes |
| Scalars.ZigZag32 | src/lwpb/core/encoder.c:344-348 | the 32-bit shift and exclusive or map n to 2n, or to -2n-1 for a negative n, at the ends of the range too |
| Scalars.ZigZag64 | src/lwpb/core/encoder.c:357-361 | the same for 64 bits |
| Scalars.ScalarRoundTrip | src/lwpb/core/decoder.c:429-481 | every value of every scalar type survives conversion to the wire and back |
| Scalars.SignedLengths | src/lwpb/core/encoder.c:336-361 | zig-zag values take k bytes exactly when -2^(7k-1) <= n < 2^(7k-1); negative plain integers always take ten |
| Format.EncConcat | src/lwpb/core/encoder.c:294-456 | fields added one group after the other are encoded one group after the other |
| Format.HeaderFitsReserve | src/lwpb/core/encoder.c:189-195 | key and length never take more than the ten reserved bytes for a body below 2^35 |
| Format.ReserveIsTight | src/lwpb/core/encoder.c:189-195 | for field numbers from 2^25 on, key and length fit the reserve exactly when the body is below 2^35 |
| Format.EncWithinNeed | src/lwpb/core/encoder.c:205-219 | the finished bytes end no later than the highest byte written while they were made |
| Format.DrySuffices | python/encoder.c:88-157 | the dry run's size is at least the encoded length and at least the highest byte the second pass writes, counting bytes that are later moved left |
| Format.DryItemSuffices | python/encoder.c:101-145 | the same for one value, its reserve and over-long length included |
| Format.NeedConcat | python/encoder.c:64-157 | the room two parts need one after the other |
| Format.DryConcat | python/encoder.c:64-157 | dry-run sizes add up part by part |
| Vectors.EnumBytes | test/generated/test_full_vectors.inc:4-6 | enums at the one-, two-byte boundaries are encoded as in the repository's vectors |
| Vectors.StringBytes | test/generated/test_full_vectors.inc:12-13 | the same for strings with keys of one and two bytes |
| Vectors.ZigZagBytes | test/generated/test_full_vectors.inc:25 | the same for a negative zig-zag integer |
| Vectors.FixedBytes | test/generated/test_full_vectors.inc:29 | the same for a negative fixed word |
| Vectors.NestedBytes | python/test/truthdb.txt:108-109 | the same for a nested message |
| Vectors.ListBytes | test/generated/test_full_vectors.inc:169-212 | the same for an object with a list, as two records or, for a packed field, as one |
| Buffers.BufInit | src/lwpb/core/buf.c:29-34 | a fresh cursor is within its memory, has used nothing and has everything left |
| Buffers.PutVarint | src/lwpb/core/encoder.c:38-53 | writes the varint at the cursor and nothing else; when room runs out, as many of its bytes as fill it |
| Buffers.Put32 | src/lwpb/core/encoder.c:62-74 | writes four little-endian bytes, or nothing at all |
| Buffers.Put64 | src/lwpb/core/encoder.c:83-100 | writes eight little-endian bytes, or nothing at all |
| Buffers.MoveLeft | src/lwpb/utils/utils.c:34-45 | an overlapping move to the left leaves the source's old bytes at the destination and all other bytes alone |
| Buffers.CopyIn | src/lwpb/utils/utils.c:23-32 | copies bytes in and leaves all others alone |
| Buffers.WroteThen | src/lwpb/core/encoder.c:403-453 | two writes in a row are one write of both |
| Encoder.FramesOrdered | src/lwpb/core/encoder.c:189-195 | every frame starts at least the reserve past the position of every frame around it |
| Encoder.LevelsAfterWrite | src/lwpb/core/encoder.c:412-453 | a write at the innermost position appends to the innermost level and touches no level around it |
| Encoder.LevelsAfterPush | src/lwpb/core/encoder.c:181-197 | pushing a frame behind the reserve opens an empty level and keeps the stack's shape |
| Encoder.LevelsAfterPop | src/lwpb/core/encoder.c:119-124 | popping a frame leaves the other levels as they were |
| Encoder.AddIsStep | src/lwpb/core/encoder.c:294-456 | what adding a value does to the array is what the step says about the levels |
| Encoder.CloseIsStep | src/lwpb/core/encoder.c:205-219 | closing a child appends key, length and body to the parent and never runs out of room |
| Encoder.RecordWithinReserve | src/lwpb/core/encoder.c:189-195 | a closed body's record takes no more than the reserve and the body did |
| Encoder.PutField | src/lwpb/core/encoder.c:403-453 | writes the key, unless in packed mode, and the wire value, or exactly how much of them when there is no room; a body in the same array may overlap its destination |
| Encoder.PutWire | src/lwpb/core/encoder.c:418-453 | writes the wire value of the field's type |
| Encoder.PutBody | src/lwpb/core/encoder.c:429-444 | writes length and body, copied in or moved left |
| Encoder.PutBytes | src/lwpb/core/encoder.c:433-443 | the body itself, all of it or nothing, copied in or moved left |
| Encoder.Encoder.Init | src/lwpb/core/encoder.c:132-135 | a new encoder has no open message |
| Encoder.Encoder.Start | src/lwpb/core/encoder.c:144-156 | one open message with nothing in it and the whole buffer left |
| Encoder.Encoder.Finish | src/lwpb/core/encoder.c:163-166 | the size is that of the outermost level, which the buffer starts with |
| Encoder.Encoder.Belongs | src/lwpb/core/encoder.c:319-323 | the loop finds exactly the fields of the open message |
| Encoder.Encoder.AddField | src/lwpb/core/encoder.c:294-456 | which error a field gets, and the bytes written when it gets none, or when room runs out, to the byte; all frames around the innermost are unchanged |
| Encoder.Encoder.AddValue | src/lwpb/core/encoder.c:294-456 | adding a value is the step on the open levels, errors included |
| Encoder.Encoder.NestedStart | src/lwpb/core/encoder.c:174-198 | opening a message is the step; it counts as pushed even when the reserve does not fit, and the frames around are unchanged |
| Encoder.Encoder.PackedStart | src/lwpb/core/encoder.c:227-257 | opening a packed field is the step, and packed mode is entered only on success |
| Encoder.Encoder.Push | src/lwpb/core/encoder.c:181-197 | the child starts the reserve past its parent's position and ends where the parent ends |
| Encoder.Encoder.AddBody | src/lwpb/core/encoder.c:216-218 | adding a popped frame's body never runs out of room |
| Encoder.Encoder.NestedEnd | src/lwpb/core/encoder.c:205-219 | closing a message is the step and never reports the end of the buffer |
| Encoder.Encoder.PackedEnd | src/lwpb/core/encoder.c:264-283 | closing a packed field is the step, leaves packed mode and never reports the end of the buffer |
| EncoderRuns.Call | src/lwpb/core/encoder.c:174-456 | every call is the step on the abstract state, and a close never reports the end of the buffer |
| EncoderRuns.Drive | src/lwpb/core/encoder.c:144-456 | a sequence of calls on the encoder is a run of steps, up to the first error |
| EncoderRuns.RunConcat | src/lwpb/core/encoder.c:144-456 | running calls one part after the other |
| EncoderRuns.RunTree | src/lwpb/core/encoder.c:174-456 | the calls for a tree append its encoding exactly when what it needs fits the room left, and run out of room otherwise |
| EncoderRuns.RunNested | src/lwpb/core/encoder.c:174-219 | the same for a nested message around any body |
| EncoderRuns.RunAdds | src/lwpb/core/encoder.c:310-316 | the same for the values of a packed field |
| EncoderRuns.SplitRun | src/lwpb/core/encoder.c:174-283 | any run that does not fail, up to the end of the level it starts in, consists of the calls of a tree |
| EncoderRuns.CompleteRunEncodesTree | src/lwpb/core/encoder.c:144-456 | every legal run from a fresh encoder that succeeds and closes all it opened has written exactly the encoding of a well-typed tree |
| EncoderRuns.EncodeTree | src/lwpb/core/encoder.c:144-456 | encoding a tree succeeds exactly when what it needs fits the buffer, and then the buffer holds its encoding |
| EncoderRuns.EncodeMessage | src/lwpb/core/encoder.c:144-166 | the encoder itself, from start to finish: error or encoding as above |
| Parser.Lookup | src/lwpb/core/decoder.c:371-376 | the field found is declared with the number; none is found exactly when none has it |
| Parser.ReadWire | src/lwpb/core/decoder.c:380-408 | a wire value read has the wire type asked for and lies within the bytes given |
| Parser.ReadField | src/lwpb/core/decoder.c:364-433 | a field takes at least one byte and no more than there are, and a body less than its field |
| Reads.DecodeVarint | src/lwpb/core/decoder.c:154-168 | reads the varint at the cursor, 64 bits of it, and moves past exactly its bytes, or reports the end of the buffer |
| Reads.Decode32 | src/lwpb/core/decoder.c:177-187 | reads four little-endian bytes, or reports the end of the buffer |
| Reads.Decode64 | src/lwpb/core/decoder.c:196-209 | reads eight little-endian bytes, or reports the end of the buffer |
| Reads.DecodeWire | src/lwpb/core/decoder.c:380-408 | reads the wire value of a wire type; a string is the bytes just passed |
| Reads.FindField | src/lwpb/core/decoder.c:371-376 | the loop finds the first field with the number |
| Reads.ReadNext | src/lwpb/core/decoder.c:363-408 | reads key and wire value, keeping the last field's descriptor when the number is not declared |
| Decoder.StackMove | src/lwpb/core/decoder.c:358-398 | passing bytes keeps the stack's shape and takes them off the bytes left |
| Decoder.StackPush | src/lwpb/core/decoder.c:418-427 | a body already passed over can be pushed as a frame inside its parent's consumed bytes |
| Decoder.ComeMove | src/lwpb/core/decoder.c:358-497 | what is still to come after a field has been passed |
| Decoder.ComePush | src/lwpb/core/decoder.c:418-492 | a body pushed as a frame and decoded by the same loop amounts to decoding it recursively |
| Decoder.ComePop | src/lwpb/core/decoder.c:499-508 | an exhausted frame's end and the frames around it are what is still to come |
| Decoder.ComeElement | src/lwpb/core/decoder.c:360-361 | an element of a packed field is the next event |
| Decoder.Decoder.constructor | src/lwpb/core/decoder.c:261-267 | a decoder has a stack of the maximum depth |
| Decoder.Decoder.Decode | src/lwpb/core/decoder.c:325-515 | the handler calls, the result and the bytes used are those of the recursive parse, truncated inputs and undeclared fields included, and the loop ends |
| Decoder.Decoder.Start | src/lwpb/core/decoder.c:339-344 | the whole parse is still to come |
| Decoder.Decoder.Begin | src/lwpb/core/decoder.c:352-355 | a frame's start is reported exactly when nothing of it has been decoded |
| Decoder.Decoder.End | src/lwpb/core/decoder.c:499-508 | reports the end and pops; the total of events made and to come stays the same |
| Decoder.Decoder.DecodeOne | src/lwpb/core/decoder.c:358-497 | every pass keeps that total, uses up bytes, and reports the end of the buffer only where the parse does |
| Decoder.Decoder.Dispatch | src/lwpb/core/decoder.c:410-496 | skips, opens a packed field or a message, or reports a value, as the parse does |
| Decoder.Decoder.SkipField | src/lwpb/core/decoder.c:410-412 | passing over a field without a descriptor makes no event and keeps the total of events made and to come |
| Decoder.Decoder.ReportValue | src/lwpb/core/decoder.c:429-496 | reporting a value keeps that total |
| Decoder.Decoder.OpenBody | src/lwpb/core/decoder.c:414-492 | opening a frame for a body, announced by an event unless it is a packed field, keeps that total |
| Decoder.Decoder.Push | src/lwpb/core/decoder.c:418-427 | pushes a frame; packed mode is on exactly for a packed field's |
| Decoder.Decoder.DecodeElement | src/lwpb/core/decoder.c:360-361 | decodes one element of a packed field |
| RoundTrip.WireRoundTrip | src/lwpb/core/decoder.c:380-408 | reading a written wire value gives it back and takes exactly its bytes |
| RoundTrip.RecordRoundTrip | src/lwpb/core/decoder.c:363-408 | reading a written field finds its descriptor and wire value, whatever was decoded before |
| RoundTrip.ElementsRoundTrip | src/lwpb/core/decoder.c:360-361 | the elements of a packed field come back in order |
| RoundTrip.FieldsRoundTrip | src/lwpb/core/decoder.c:346-509 | decoding the encoding of a message's fields gives exactly the tree's events |
| RoundTrip.MessageRoundTrip | src/lwpb/core/decoder.c:325-515 | decoding the encoding of any well-typed tree succeeds and makes exactly the tree's handler calls, in encoding order |
| RoundTrip.AcceptedExactlyWhenShallow | src/lwpb/core/decoder.c:248-253 | the encoding of a well-typed tree is accepted exactly when it nests less than 32 deep, packed fields counted |
| EventOrder.FollowConcat | src/lwpb/core/decoder.c:346-509 | following the open frames through one sequence of events after another |
| EventOrder.FieldsOrderly | src/lwpb/core/decoder.c:346-509 | the events of a message's fields leave the open frames as they were |
| EventOrder.HandlersSeeNestedFrames | src/lwpb/core/decoder.c:346-509 | for every byte string, starts and ends are properly nested and report the depth, one start per frame and right after a message's field event, values fit their fields, and an accepted message closes every frame |
| UnknownFields.KeepingAgainstSkipping | src/lwpb/core/decoder.c:371-412 | compared with a decoder that skips undeclared fields, the events are the same on clean input and more on any other |
| UnknownFields.CleanExactlyWhenTidy | src/lwpb/core/decoder.c:363-412 | of a message that a skipping decoder accepts, this one accepts the same without meeting an undeclared number once a descriptor is kept, exactly when undeclared numbers come before the first declared one only |
| UnknownFields.SkipsUnknownFieldsExactlyWhenTidy | src/lwpb/core/decoder.c:410-412 | a skipping decoder accepts all that this one does; of what it accepts, this one makes the same handler calls and succeeds exactly when no undeclared field follows a declared one |
| UnknownFields.UnknownFieldIsNotSkipped | src/lwpb/core/decoder.c:372-376 | four bytes on which an undeclared field is reported as a second value of the field before |
| UnknownFields.UnknownStringIsNotSkipped | src/lwpb/core/decoder.c:372-376 | five bytes that a skipping decoder accepts and on which this one takes an undeclared string for the integer before |
| Truncation.WireCut | src/lwpb/core/decoder.c:380-408 | a wire value that breaks off is a read past the end when it is a varint or a length without any byte, and the end of the buffer otherwise |
| Truncation.RecordCut | src/lwpb/core/decoder.c:363-408 | a record that breaks off right behind its key, of a varint or a length, is a read past the end, and anywhere else the end of the buffer |
| Truncation.FieldsCut | src/lwpb/core/decoder.c:346-408 | of the fields of a message cut off anywhere, the whole ones are reported and the status is decided by where the cut is |
| Truncation.CutMessage | src/lwpb/core/decoder.c:325-515 | every prefix of the encoding of every well-typed tree: success exactly between the outermost records, a read past the end exactly behind the key of a varint or a length, the end of the buffer everywhere else, after the events of the whole items before |
| Truncation.KeyAlone | src/lwpb/core/decoder.c:154-168 | one byte, a key, on which the decoder reads past the end |
| Accepted.ElementsFound | src/lwpb/core/decoder.c:360-361 | the events of any accepted packed body are those of a list of values that fit |
| Accepted.FieldsFound | src/lwpb/core/decoder.c:346-509 | the events of the fields of any accepted message are those of a tree |
| Accepted.AcceptedIsTree | src/lwpb/core/decoder.c:325-515 | for every byte string that is accepted there is a well-typed tree whose events are the handler calls made, of declared fields only when undeclared ones are skipped |
| Accepted.AcceptedIsDeclaredTree | src/lwpb/core/decoder.c:410-412 | the tree has declared fields only when no undeclared field follows a declared one |
| Accepted.AcceptedIsMerged | python/decoder.c:155-168 | whatever bytes are accepted, no undeclared field behind a declared one, the dict decoder ends with an empty context stack and a normal dict, the merge of the tree the bytes are |
| Accepted.AcceptedIsPlaced | src/lwpb/utils/struct_decoder.c:251-263 | whatever bytes are accepted, if the tree they are fits the structs, every occurrence is in its own element and nothing else is written |
| DictEncoder.EncodeVarint | src/lwpb/core/encoder2.c:37-54 | the length without a buffer is that of the bytes written with one |
| DictEncoder.Encode32 | src/lwpb/core/encoder2.c:63-75 | four little-endian bytes, counted or written |
| DictEncoder.Encode64 | src/lwpb/core/encoder2.c:84-101 | eight little-endian bytes, counted or written |
| DictEncoder.Encoder2.constructor | src/lwpb/core/encoder2.c:109-124 | a new encoder is not in packed mode |
| DictEncoder.Encoder2.PackedStart | src/lwpb/core/encoder2.c:132-139 | enters packed mode |
| DictEncoder.Encoder2.PackedEnd | src/lwpb/core/encoder2.c:146-151 | leaves packed mode |
| DictEncoder.Encoder2.AddField | src/lwpb/core/encoder2.c:162-308 | counts a field's bytes, or writes exactly those in place, a body of the same buffer moving left |
| DictEncoder.EncodeWire | src/lwpb/core/encoder2.c:268-305 | the same for the wire value |
| DictEncoder.EncodeBody | src/lwpb/core/encoder2.c:279-296 | the same for length and body |
| DictEncoder.PlaceBody | src/lwpb/core/encoder2.c:279-296 | the body itself, copied in or moved left |
| DictEncoder.ItemsDeclared | python/encoder.c:64-157 | the tree of an object uses only declared fields |
| DictEncoder.FieldsRoom | python/encoder.c:64-157 | a field has room in the tree's need behind the fields before it |
| DictEncoder.ObjectEncode | python/encoder.c:39-158 | without a buffer the dry-run size; with one the length of the tree's encoding, written in place, nothing outside the tree's need being touched |
| DictEncoder.FieldEncode | python/encoder.c:64-155 | the same for one field, a packed one behind its reserve |
| DictEncoder.ElementsEncode | python/encoder.c:103-136 | the same for the elements of a packed field |
| DictEncoder.ValuesEncode | python/encoder.c:103-136 | the same for the values of any other field |
| DictEncoder.ValueEncode | python/encoder.c:103-136 | the same for one value, a nested message behind its reserve |
| DictEncoder.Encode | python/encoder.c:161-208 | two passes, the second into a buffer of exactly the first one's size, return the encoding of the object's tree |
| ObjectBytes.RecordForEachValue | python/encoder.c:103-146 | a field that is not repeated or not declared packed: one record with its own key for every value, in list order, numbers included |
| ObjectBytes.ValuesInOneRecord | python/encoder.c:91-152 | a repeated field declared packed: its values without keys, in list order |
| ObjectBytes.FieldIsItsPart | src/include/lwpb/core/types.h:157-160 | which of the two a field is, from its label and its packed option alone |
| ObjectBytes.ObjectIsItsFields | python/encoder.c:64-157 | the encoding of an object is its fields' bytes, in declaration order, nothing for a name that is missing |
| DictDecoder.HandleConcat | python/decoder.c:168 | handling events one part after the other |
| DictDecoder.MergeConcat | python/decoder.c:86-131 | decoding messages one after the other into a dict is decoding their concatenation: the last value wins, lists grow, nested messages are merged |
| DictDecoder.ValueFilled | python/decoder.c:86-126 | storing a value changes the innermost dict under the field's name and no other dict |
| DictDecoder.OpenFresh | python/decoder.c:88-131 | a nested message's new dict is empty, is stored under the field's name and becomes the innermost |
| DictDecoder.CloseFilled | python/decoder.c:50-66 | once a nested dict is popped, the dict around it has changed only by it |
| DictDecoder.ReadSame | python/decoder.c:109-126 | a dict reads the same as long as no dict inside it has changed, whatever else has |
| DictDecoder.Fill | python/decoder.c:50-133 | handling a message's events merges the message into the innermost dict in place, changes no other dict and leaves the context stack as it was |
| DictDecoder.TreeMerges | python/decoder.c:135-168 | handling the events of any tree leaves an empty context stack and an empty dict with the tree merged into it |
| DictDecoder.DecodeMerges | python/decoder.c:155-168 | decoding the encoding of any tree leaves an empty context stack and an empty dict with the tree merged into it |
| DictDecoder.MergeItemsOf | python/encoder.c:64-157 | merging the tree of a normal dict into an empty one gives it back |
| DictDecoder.MergeNormal | python/decoder.c:109-126 | decoding only ever makes normal dicts: declared names, repeated fields as non-empty lists |
| DictDecoder.DictRoundTrip | python/decoder.c:50-168 | an object comes back from its encoding as it was exactly when it is a normal dict, and the context stack ends empty |
| DictBuilder.ContextStackDepth | python/decoder.c:50-133 | at every point of every run, whatever the bytes, the context stack is as deep as the open messages, packed fields not counted; no field finds it empty, and success leaves it empty |
| DictBuilder.DictBuilder.constructor | python/decoder.c:155-158 | starts with one empty dict on the context stack |
| DictBuilder.DictBuilder.MsgEndHandler | python/decoder.c:50-66 | pops the context stack unless a packed field ends |
| DictBuilder.DictBuilder.FieldHandler | python/decoder.c:68-133 | stores the value, or makes or acquires the nested dict and pushes it |
| DictBuilder.DictBuilder.Put | python/decoder.c:109-126 | appends for repeated fields, replaces for others |
| DictBuilder.DictBuilder.Decode | python/decoder.c:135-192 | the builder is in the state the events of the parse lead to, and returns a dict exactly when the message is complete |
| Codec.EncodersAgree | src/lwpb/core/encoder.c:144-456 | for every object, the stack encoder's calls for its fields in descriptor order are legal, succeed in any buffer of the dry run's size and leave the encoding of the object's tree |
| Codec.EncodeBothWays | python/encoder.c:161-208 | run on the same object, the stack encoder leaves in its buffer the bytes that the two-pass encoder returns |
| Codec.Transmit | src/lwpb/core/decoder.c:325-515 | encoding a tree and decoding the buffer reports exactly the tree's events and uses all bytes, or runs out of room exactly when the need exceeds the buffer |
| Codec.DumpAndLoad | python/encoder.c:161-208 | encoding a Python object and decoding the bytes gives the same object exactly when it is a normal dict |
| StructDecoder.Find | src/lwpb/utils/struct_decoder.c:25-34 | the first entry for a field, or none when there is none |
| StructDecoder.StoredNumber | src/lwpb/utils/struct_decoder.c:55-100 | reading an element as its C type gives back the value |
| StructDecoder.StoredString | src/lwpb/utils/struct_decoder.c:101-106 | a string element is a NUL-terminated prefix of the string, cut off only where the element is full |
| StructDecoder.StoredBytes | src/lwpb/utils/struct_decoder.c:108-112 | a bytes element is a prefix of the value, cut off only where the element is full |
| StructDecoder.DepthFollowsDecoder | src/lwpb/utils/struct_decoder.c:120-162 | at every point of a run the struct decoder's depth is the decoder's less one |
| StructDecoder.CountsExactlyWhenContiguous | src/lwpb/utils/struct_decoder.c:47-50 | counting elements from the last change of field numbers every occurrence rightly exactly when occurrences are contiguous |
| StructDecoder.NumberedWhole | src/lwpb/utils/struct_decoder.c:47-50 | the numbering is right at every level of a tree exactly when occurrences are contiguous at every level |
| StructDecoder.RightExactlyWhenContiguous | src/lwpb/utils/struct_decoder.c:36-50 | the elements filled, nested structs included, are those the occurrences belong to exactly when occurrences are contiguous at every level |
| StructDecoder.InterleavedOverwrites | src/lwpb/utils/struct_decoder.c:47-50 | fields that come as a, b, a: the second a is written over the first |
| StructDecoder.InsideExactlyWhenRunsCounted | src/lwpb/utils/struct_decoder.c:36-53 | every element filled lies in its own field's array, at every level, exactly when no field occurs more often in a row than there is room for |
| StructDecoder.WritesInside | src/lwpb/utils/struct_decoder.c:36-117 | as long as that holds nothing outside the outermost struct is written, contiguous or not |
| StructDecoder.OneTooMany | src/lwpb/utils/struct_decoder.c:52-53 | a field with room for one number that occurs twice: the second is written right behind the struct |
| StructDecoder.RunItems | src/lwpb/utils/struct_decoder.c:39-179 | the handlers make exactly the writes for the message's items, counting as they count, and leave the frames around alone |
| StructDecoder.RunNested | src/lwpb/utils/struct_decoder.c:120-162 | a nested message goes to the next element of its entry, whatever was decoded inside it |
| StructDecoder.PlacedAsDecoded | src/lwpb/utils/struct_decoder.c:47-50 | for contiguous occurrences, at every level, the writes go where the occurrences belong |
| StructDecoder.CellsApart | src/include/lwpb/utils/struct_map.h:71-93 | different elements of a struct have no byte in common |
| StructDecoder.PlacedApart | src/lwpb/utils/struct_decoder.c:39-162 | the writes of a tree are apart from each other and inside the elements they are for |
| StructDecoder.SeparateWritesStay | src/lwpb/utils/struct_decoder.c:36-37 | writes apart from each other are all there at the end, and nothing else has changed |
| StructDecoder.OccurrencePlaced | src/lwpb/utils/struct_decoder.c:36-37 | the k-th occurrence of a field is written at base + offset + k times the element size |
| StructDecoder.BodyPlaced | src/lwpb/utils/struct_decoder.c:132-140 | the k-th nested message of a field is written at base + offset + k times its struct's size |
| StructDecoder.TreePlacement | src/lwpb/utils/struct_decoder.c:120-179 | handling the events of a tree: every occurrence is in its element of its own struct, all inside the outermost one, no other byte has changed, and the depth is back at -1 |
| StructDecoder.StructPlacement | src/lwpb/utils/struct_decoder.c:251-263 | decoding the encoding of such a tree succeeds and has that effect |
| StructDecoder.StructDecoder.constructor | src/lwpb/utils/struct_decoder.c:189-204 | a struct decoder has a stack of the maximum depth |
| StructDecoder.StructDecoder.FindMapField | src/lwpb/utils/struct_decoder.c:25-34 | the loop finds the first entry of a mapped field |
| StructDecoder.StructDecoder.FieldHandler | src/lwpb/utils/struct_decoder.c:39-118 | writes one element, at an index that starts over when the field changes |
| StructDecoder.StructDecoder.MsgStartHandler | src/lwpb/utils/struct_decoder.c:120-146 | enters the outermost struct, or the next element of the entry just announced |
| StructDecoder.StructDecoder.MsgEndHandler | src/lwpb/utils/struct_decoder.c:148-162 | leaves the innermost struct |
| StructDecoder.StructDecoder.Decode | src/lwpb/utils/struct_decoder.c:251-263 | result and state are those the parse and its events lead to, on truncated messages too; for bytes that are a mapped tree exactly the writes for the tree have been made |
| Rpc.EncodeHeader | src/lwpb/rpc/socket_helper.c:45-50 | three adds whose errors are ignored: the header buffer's bytes, exactly |
| Rpc.HeaderSentWhole | src/lwpb/rpc/socket_helper.c:45-50 | a header that fits is sent as it is |
| Rpc.HeaderLength | src/lwpb/rpc/socket_helper.c:42-50 | how long a header is, and that it fits exactly when the two names have at most 122 bytes together |
| Rpc.HeaderRecordBytes | src/lwpb/rpc/socket_helper.c:45-49 | the header's records: keys 0x08, 0x12 and 0x1a, type 0 |
| Rpc.RequestBytes | src/lwpb/rpc/socket_helper.c:28-58 | a whole request byte for byte: the magic number, both lengths highest byte first, header and message |
| Rpc.SentDecodes | src/lwpb/rpc/socket_helper.c:45-50 | what decoding makes of every header that is sent: success exactly when it fits or the service name has 124 bytes, a read past the end when it has 123, the end of the buffer otherwise |
| Rpc.SentIsReceived | src/lwpb/rpc/socket_helper.c:126-162 | so says the receiver of any request sent, whatever comes behind it |
| Rpc.SendRequest | src/lwpb/rpc/socket_helper.c:37-59 | the frame sent carries what is in the header's buffer, its true length, and the whole body; it is the request when the header fits its 128 bytes |
| Rpc.IndexOf | src/lwpb/rpc/socket_helper.c:98-107 | the first of the names equal to the one given |
| Rpc.ParseRequest | src/lwpb/rpc/socket_helper.c:126-162 | a whole request's header and body lie within what was received |
| Rpc.ReceivedBytes | src/lwpb/rpc/socket_helper.c:126-149 | what becomes of any bytes received, from the bytes: twelve of them, de ad be af in front, then lengths highest byte first |
| Rpc.ResultCodes | src/lwpb/rpc/socket_helper.h:46-50 | 0, 1 and 2, and the codec's own 4 for a header that breaks off, each for exactly one outcome |
| Rpc.TypeRead | src/lwpb/rpc/socket_helper.c:93-94 | a request's type is read as a signed 32-bit number, whatever varint it comes as |
| Rpc.RequestParser.FieldHandler | src/lwpb/rpc/socket_helper.c:83-124 | looks up service and method as they are decoded, a method only in a service already found |
| Rpc.RequestParser.Search | src/lwpb/rpc/socket_helper.c:98-120 | the search loop stops at the first name that is equal |
| Rpc.RequestParser.Receive | src/lwpb/rpc/socket_helper.c:126-162 | result code and header info for everything that can be received, and what stays as it was; a failed header decode passes its own code on |
| Rpc.RequestRoundTrip | src/lwpb/rpc/socket_helper.c:126-162 | a request, whatever comes behind it, is parsed as a whole, with the first service and method of its names and its body |
| Rpc.CalleeFound | src/lwpb/rpc/socket_helper.c:95-123 | the service and method found are the ones called exactly when no earlier one has the same name |
| Rpc.RequestTruncated | src/lwpb/rpc/socket_helper.c:133-146 | every strict prefix of a request is reported as incomplete |
| Rpc.FoundInAnyOrder | src/lwpb/rpc/socket_helper.c:83-124 | decoding any header with one service and one method, other fields in between, in any order: the first service of the name is found wherever it is, and a method exactly when the service comes first and has one of the name |
| Percent.EscapeRoundTrip | python/percent/codec.py:69-73 | unescaping undoes escaping for every byte string and every set of safe characters |
| Percent.EscapedOneIs | python/percent/codec.py:24-27 | each character's escape: two percent signs, itself when it is safe, or a percent sign and two lower-case digits |
| Percent.CodeCharIsTable | python/percent/codec.py:29-32 | a code stands for a character only if it is one of the table's lower-case or upper-case codes |
| Percent.NeverWrittenExactly | python/percent/codec.py:24-27 | a character that is not safe is in no escaped value exactly when it is not a percent sign, not a digit, and not a letter in the code of an unsafe character |
| Percent.RecoversExactly | python/percent/codec.py:37-63 | every list of n values is recovered from its line exactly when line ends are not safe and, for n > 1, the delimiter is no line end and in no escaped value |
| Percent.SplitJoin | python/percent/codec.py:56-58 | splitting at most n-1 times undoes joining n values of which all but the last are free of the delimiter |
| Percent.SplitExactly | python/percent/codec.py:56-58 | joining the pieces gives the line; all but the last are free of the delimiter, and the last unless there are as many as allowed |
| Percent.StripExactly | python/percent/codec.py:58 | a line loses exactly the carriage returns and line feeds at its end |
| Percent.SafeSetIs | python/percent/codec.py:23 | a character is left as it is exactly when it is safe, not unsafe and not the delimiter |
| Percent.PercentCodec.constructor | python/percent/codec.py:19-34 | the tables hold the escape of every character and the character of every code |
| Percent.PercentCodec.FillChrtohex | python/percent/codec.py:24-27 | the table of escapes |
| Percent.PercentCodec.FillHextochr | python/percent/codec.py:29-32 | the table of codes |
| Percent.PercentCodec.Escape | python/percent/codec.py:69-70 | escaping by the table is escaping by the rule |
| Percent.PercentCodec.Unescape | python/percent/codec.py:72-73 | unescaping by pattern and table is unescaping by the rule; a mixed-case code is not in the table and fails |
| Percent.PercentCodec.Encode | python/percent/codec.py:37-51 | the line joined from the escaped values of the fields, a missing one empty |
| Percent.PercentCodec.Decode | python/percent/codec.py:54-66 | the record of the line's unescaped values, or failure on a code that is not in the table |
| Percent.PercentCodec.Transcribe | python/percent/codec.py:37-66 | encoding a flat record and decoding the line gives every field of the codec its value, a missing one an empty string |
| RecordStream.RecordComesBackExactly | python/lwpb/stream.py:30-54 | a record is read back as written exactly when its length fits 32 bits |
| RecordStream.RecordBytes | python/lwpb/stream.py:68-72 | a record starts with its length modulo 2^32, lowest byte first |
| RecordStream.ReadBytes | python/lwpb/stream.py:44-54 | what is read at the front of any bytes, from the four bytes there |
| RecordStream.SeekFinds | python/pblookup.py:114-118 | seeking to the sum of 4 + length over the earlier records reads the record |
| RecordStream.ReadsBack | python/lwpb/stream.py:18-54 | a stream cut off anywhere gives its whole records, in order, and then what is there of the next |
| RecordStream.StreamRoundTrip | python/lwpb/stream.py:18-72 | every sequence of records that fit is read back as it was written |
| RecordStream.StreamWriter.WriteRaw | python/lwpb/stream.py:68-72 | appends one record to the stream |
| RecordStream.StreamReader.Seek | python/pblookup.py:114-118 | moves the position and nothing else |
| RecordStream.StreamReader.ReadRaw | python/lwpb/stream.py:30-54 | reads the next record, notes its offset, length and number, and sets the end flag only where no whole length is left, having used up what is |
| RecordStream.StreamReader.Records | python/lwpb/stream.py:18-54 | iterating gives all records that are left, each with its offset |
| Flatten.MadeAnew | python/flat.py:16-27 | an object with one scalar is rebuilt from the scalar's path alone |
| Flatten.ElementSet | python/flat.py:23-27 | setting a list element leaves the others alone and fills a gap with None |
| Flatten.ElementForgotten | python/flat.py:23-31 | what a list element was before does not matter, however long the path through it |
| Flatten.KeptWhenPresent | python/flat.py:28-31 | nothing changes when there is something at a path of keys already |
| Flatten.KeyAdded | python/flat.py:28-31 | a key new in a dict is added, with a list or a dict as the next part asks, and no other key changes |
| Flatten.SuitsContainer | python/flat.py:23-31 | an insertion fails where a part does not suit its container |
| Flatten.InsertKeepsSingle | python/flat.py:10-31 | inserting a path never makes a list element with more than one scalar |
| Flatten.InsertBuilds | python/flat.py:10-31 | inserting a further scalar of a tree adds it to what is there of the tree |
| Flatten.UnflattenExactly | python/flat.py:4-33 | whatever the order of the items, a dict of non-empty containers comes back exactly when no list element has more than one scalar |
| Flatten.ElementLost | python/flat.py:23-27 | a list element with two scalars comes back with the one inserted last |
| Flatten.DecimalRoundTrip | python/flat.py:23-24 | an index written out is read back |
| Flatten.PartIs | python/flat.py:16-24 | a part is an index exactly when it is digits only, at least one, read with base ten |
| Flatten.PathRoundTrip | python/flat.py:8-9 | a path of plain keys and indices is read back from its dotted key |
| Flatten.Flatten | python/flat.py:36-58 | the flat dict holds exactly the scalars of the object, each under its path's key |
| Flatten.AddPrefixed | python/flat.py:50-54 | puts the items of a part under longer keys and keeps all others |
| Flatten.Unflatten | python/flat.py:4-33 | what is rebuilt is the result of inserting the items in some order |
| Flatten.FlattenAndBack | python/flat.py:4-58 | flattening a record and rebuilding it gives it back exactly when no list element has more than one scalar |

## Left out

- Decoder.Decoder.Decode: inputs on which the source leaves defined behaviour are excluded by its precondition: a varint
  read at the very end of the bytes given (src/lwpb/core/decoder.c:159), which `Parse` reports as `PastEnd`, and as
  `Unmodelled` a varint of more than ten bytes (a shift by 70), a wire value of another type than its field (the
  handler is given whatever the members of a union share), strings or messages in packed fields, an unknown wire type
  for a known field, and nesting beyond 32 frames. The events before are in the parse; what happens next is not.
- Reads.DecodeVarint: a cursor at the end of the bytes is excluded, since the source reads the byte behind them there, and
  so are varints of more than ten bytes.
- UnknownFields.KeepingAgainstSkipping: compares messages that this decoder accepts in the model;
  `UnknownFields.SkipsUnknownFieldsExactlyWhenTidy` has no such premise.
- Encoder.Legal: excluded are calls the source asserts against (nesting beyond 32, a packed field inside a packed field,
  the end of one that is not open, fields of another kind than the call is for), and besides them packed strings or
  messages, bodies of 2^35 bytes or more and messages added as ready-made bytes.
- Encoder.Encoder.NestedStart: a nested message opened in packed mode is excluded. The source does not assert against it
  and pushes a frame with packed mode still on, in which only the message's own field is then accepted, without a key.
- Encoder.Encoder.NestedEnd: closing a nested message in packed mode is excluded likewise.
- EncoderRuns.Drive: a run stops at the first error. A frame whose reserve did not fit has no buffer in the source, and
  nothing is said about calls made after that.
- Buffers.MoveLeft: only moves to the left, which is all the encoders do; the loop for moves to the right
  (src/lwpb/utils/utils.c:46-49) never ends and is not part of the model.
- DictEncoder.Encode: objects that cannot be encoded are excluded (the error return is -1 in an unsigned size), as is a
  dry-run size of 2^35 or more; allocation always succeeds.
- DictDecoder.OnField: storing under a name that already holds an object of another kind is modelled as leaving it
  unchanged; only clashing names can lead there. Scalar conversions between Python and C are taken as the identity.
- DictBuilder.DictBuilder.Decode: the handlers are called with the decoder's events after they have been made, not in
  between; they never act on the decoder. The inputs that `Decoder.Decoder.Decode` excludes are excluded.
- StructDecoder.StructDecoder.Decode: fields that are not mapped (the search runs off its end) and packed fields (their
  frames are taken for structs) are excluded, and so are the inputs that `Decoder.Decoder.Decode` excludes. Memory is a
  map from addresses to bytes, with little-endian words; reading one byte past a string while copying it
  (src/lwpb/utils/struct_decoder.c:103) is not modelled.
- Rpc.SendRequest: the lengths are words of 32 bits, and longer bodies are excluded. Sockets, responses and the state
  machines around them are left out.
- Rpc.RequestParser.Receive: headers that `Decoder.Decoder.Decode` excludes are excluded.
- Percent.PercentCodec.Encode: only single-character delimiters, and records that are flat already: the call that flattens
  them (python/percent/codec.py:39) is not part of it. No fields at all is excluded, because decoding then fails on
  the first value.
- Percent.PercentCodec.Decode: gives the flat record; the call that unflattens it (python/percent/codec.py:65) is not part
  of it.
- Percent.PercentCodec.Transcribe: the round trip of flat records; what flattening and unflattening lose is said by
  `Flatten.FlattenAndBack`.
- Flatten.Insert: the walk into the tree is a recursion on values; references held during the walk are not modelled.
  Keys with dots or made of digits, empty containers and None are excluded from the round trip.
- Flatten.Unflatten: a numeric part met in a dict is taken as a failure. In the source it fails only when the number is
  not below the number of the dict's keys; below, it is stored as an integer key (python/flat.py:23-27), which the
  model's dicts do not have. It cannot happen to the keys of a flattened record.
- RecordStream.StreamReader.ReadRaw: decoding the record's bytes is not part of it, and the stream can always tell its
  position.
- Descriptors are compared by value with an identity number in place of the address; `msg_desc` is an index.
- Floats and doubles are bit patterns. Groups, extensions and default values do not exist in the codec.
- Handlers that the user registers, debug printing, error texts, descriptor loading, reference counts and the Python type
  tables are left out, as are the command-line tools and the remaining RPC transports: they forward or print.
