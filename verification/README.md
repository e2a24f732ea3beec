# Verified model of the wire codec and the core pipes

A Dafny model of the four hardest parts of the repository, with proofs:

- **Wire codec** (`crates/mojo-rs-wire`): the struct packer, the encoder that appends objects to one
  growing buffer and patches relative pointers, the validating decoder with its moving frontier,
  message headers and whole messages.
- **Data pipes** (`data_pipe.rs`, `ring_buffer.rs`): a producer and a consumer, each with its own
  view of one shared ring of bytes, brought together lazily by queues of byte counts.
- **Signals, traps and waits** (`signal.rs`, `pipe.rs`, `trap.rs`, `wait.rs` and the signal half of
  `data_pipe.rs`): callbacks collected under one lock and called later under another.
- **Handle table** (`handle.rs`): slot reuse with generations of which a value keeps 12 bits.

## How it is laid out

| files | what they hold |
|---|---|
| `Results`, `WireErrors`, `CoreErrors`, `Bytes` | absent values, error codes, little-endian bytes, bits and growing buffers |
| `Pack`, `PackLayout`, `FirstFit`, `PackVersions`, `Packer` | the packer's passes as functions, what their output is and that it is first fit, how it depends on the version, and the packer as it runs |
| `Schema`, `LayoutFacts`, `Pointers` | types, values, conformance of one to the other, and slots |
| `Encode`, `EncodeFrame`, `EncodeTotal`, `Encoder` | the encoder as functions, what each call may change, when it succeeds, and the encoder object |
| `Decode`, `DecodeSound`, `DecodeBudget`, `Decoder` | the decoder as functions, what it returns on any bytes, what that can cost, and the decoder object |
| `Wire`, `RoundTrip`, `WireFormat` | decoding undoes encoding, and the bytes in between |
| `Acceptance`, `Evolution`, `Compatibility` | what the decoder accepts from senders that lay messages out in their own way, or have another version of the schema |
| `CodecLimits`, `CodecOverlap` | the values the round trip leaves out: when each kind comes back, and what becomes of parts written over one another |
| `Message`, `HeaderWriter`, `Depth`, `EndToEnd` | headers and whole messages, how deeply a value nests, and the end-to-end results |
| `MessageLimits`, `HandleCount` | whole messages that do not come back, and what a message's handle count is |
| `Ring`, `Fifo`, `DataPipe` | the ring buffer, the bounded queue a pipe is measured against, and the pair of endpoints |
| `Signals`, `MessagePipe`, `Watching`, `Trap`, `TrapRuns`, `TrapEvents`, `TrapTruth`, `Wait` | due watches and the notification law, message pipes, pending callbacks, the trap, its interleavings, its events and whether they are true, and the waiter |
| `HandleTable` | the handle table |

Code that changes things step by step is a class or a method with loops, proved against a function
of its inputs or of the state before; what the code is for is then proved about those functions.
`Encoder` and `Decoder` compute exactly `Encode` and `Decode`, `Packer` computes `Pack`, and the
round trip, soundness and cost results are about those. Two things are stated as interleaved steps
and not as one object: a trap among endpoints that change on their own (`TrapRuns`) and a thread
that parks (`Wait`). They meet the pipes in one predicate, `Signals.AllLawful`: every step of either
kind of pipe is proved to change its two ends only so (`DataPipe.Do`, `MessagePipe.Do`), the step
systems allow exactly such changes (`Watching.CanOperate`), and `Watching.PipeOperates` puts a pipe's
two ends among any others. An end's signals are always those its facts give: whether its peer is
closed, and whether it has data or room.

Where the code and its comments differ, the model follows the code:

- `register_watch` on a closed message-pipe end is commented as firing at once
  (`crates/mojo-rs-core/src/pipe.rs:204-207`); it drops the watch, and so does the model.
- A message header of a later version may be longer than version 3's and is accepted, but the payload
  is read behind byte 56 of it, wherever the header ends and its payload pointer leads
  (`crates/mojo-rs-wire/src/validate.rs:66-78`, `Acceptance.PayloadPlace`).
- The encoder writes a non-nullable struct in place, into a slot the packer made for a pointer
  (`crates/mojo-rs-wire/src/value.rs:478-486`), so that its fields lie behind the slot, and likewise a
  union inlined in another's payload. The decoder reads a struct union member through a pointer
  (`crates/mojo-rs-wire/src/value.rs:1231`), which the encoder has not written.

What the round trip asks of a schema is `Schema.SchemaOk`, that every struct in it can be packed, and
of a value `Schema.Conforms`. What comes back conforms to its schema in the decoder's sense
(`EndToEnd.ValidationIsSound`); what is sent must conform and meet five conditions more, and each of
them has its own result over all values of its kind:

- a struct's version has the full size and newer fields hold their defaults: `CodecLimits.StaleBack`,
  and for a newer inlined union, whose default cannot be written, `CodecLimits.NoNullUnion`;
- nothing absent leaves a slot that cannot be read: `CodecLimits.AbsentBack`,
  `CodecLimits.NullableHandleBack`;
- no struct that is not nullable is a union member: `CodecLimits.StructMember`;
- a nullable scalar is a struct field: `CodecLimits.ScalarMember`;
- only the last field of a struct's layout is written past its slot, with nothing appended before it.
  Where this is broken one part is written over another, and what was there comes back exactly when
  the bytes happen to be the same: `CodecOverlap.InPlaceExact`, `CodecOverlap.InlinedExact`, and the
  families of messages behind them in `CodecOverlap`.

`MessageLimits.PayloadDecides` carries each of these over from a struct in a buffer to a whole message
behind any header, and `MessageLimits.FailingMessages` names messages, one for each of these conditions and
for the first two below, that are encoded and do not come back.

The decoder's own sense excludes what no message gives back: strings with a NUL
(`CodecLimits.StringBack`), the value of a nullable boolean (`CodecLimits.NullableBoolBack`), a null
inlined union in a struct that has its version (`CodecLimits.NullInlinedUnion`), numbers and enums out of range
(`RoundTrip.TwosComplement`, `RoundTrip.EnumSlot`), interfaces below the schema's version
(`RoundTrip.InterfaceSlot`).

## Model

| member | source | states |
|---|---|---|
| EndToEnd.MessageRoundTrip | crates/mojo-rs-wire/src/validate.rs:48-85 | a serialized header and a conforming payload, once encoded, validate to exactly that payload, and to exactly that header with its payload pointer filled in, if and only if the header is consistent, the message is within the receiver's size limit and the payload nests no deeper than the receiver allows |
| Depth.DepthExact | crates/mojo-rs-wire/src/value.rs:891-901 | a value that conforms with some depth to spare conforms with any other exactly when it nests no deeper |
| EndToEnd.EmptyPayload | crates/mojo-rs-wire/src/validate.rs:48-85 | the least case with nothing left to assume: every consistent header with an empty payload encodes within 64 bytes and validates back to itself |
| EndToEnd.EncodeAccepts | crates/mojo-rs-wire/src/value.rs:291-326 | every conforming payload no deeper than the encoder's limit is encoded, after any header bytes |
| EndToEnd.ValidationIsSound | crates/mojo-rs-wire/src/validate.rs:48-85 | whatever bytes validate, the payload is a value of the schema within the depth limit and the attached handles |
| EndToEnd.ValidationDoesNotAmplify | crates/mojo-rs-wire/src/value.rs:866-889 | for any bytes and schema, eight bytes per array and string plus all their element bytes fit in the message that validated |
| HandleCount.MessageCount | crates/mojo-rs-wire/src/value.rs:457-466 | a message's handle count is the number of its handle slots that do not hold the sentinel |
| HandleCount.OwnCount | crates/mojo-rs-wire/src/value.rs:1112-1119 | a message validated with as many handles as it counts comes back, given what every message must meet, if and only if every index in it is the sentinel or below the count |
| MessageLimits.PayloadDecides | crates/mojo-rs-wire/src/validate.rs:48-85 | whatever the header and the value, the message comes back if and only if its header is consistent, it is within the size limit, and its payload struct decodes to what was sent where it stands |
| MessageLimits.StringMessage | crates/mojo-rs-wire/src/value.rs:1275-1303 | a message of one string comes back if and only if it has no NUL, for every string, header and receiver |
| MessageLimits.HandleMessage | crates/mojo-rs-wire/src/value.rs:1112-1119 | a message of one absent nullable handle comes back if and only if handles come with it |
| MessageLimits.BoolMessage | crates/mojo-rs-wire/src/value.rs:391-401 | a message of one nullable boolean comes back if and only if it is absent |
| MessageLimits.StaleMessage | crates/mojo-rs-wire/src/value.rs:1011-1041 | a version-0 message of two numbers in the same 8 bytes, the second of version 1, comes back if and only if the second is 0 |
| MessageLimits.PairMessage | crates/mojo-rs-wire/src/value.rs:478-486 | a message `{struct {a}, b}` comes back if and only if a and b share the low bytes of the narrower |
| MessageLimits.UnionMessage | crates/mojo-rs-wire/src/value.rs:1231-1262 | a message `{union {struct {n}}}` is encoded and never comes back |
| MessageLimits.WrappedMessage | crates/mojo-rs-wire/src/value.rs:619 | a message `{union {n}}` with n a present nullable scalar is encoded and never comes back |
| MessageLimits.FailingMessages | crates/mojo-rs-wire/src/validate.rs:48-85 | seven messages, one of each of these kinds, that are encoded and for no receiver come back |
| Encoder.EncodeWhole | crates/mojo-rs-wire/src/value.rs:291-326 | the encoder object computes `Message.EncodeMessage` on every header, schema and value |
| Encoder.Encoder.EncodeStructAt | crates/mojo-rs-wire/src/value.rs:350-414 | packing, reserving, writing the header and looping over the packed fields leaves the buffer and handle count `Encode.EncodeStruct` names, or fails with its error |
| Encoder.Encoder.EncodeFieldAt | crates/mojo-rs-wire/src/value.rs:433-556 | one field written in place computes `Encode.EncodeField`, all value and type mismatches included |
| Encoder.Encoder.EncodeArrayBodyAt | crates/mojo-rs-wire/src/value.rs:663-722 | reserving an array and looping over its elements computes `Encode.EncodeArrayBody` |
| Encoder.Encoder.EncodeMapObject | crates/mojo-rs-wire/src/value.rs:764-800 | both arrays of a map, their pointers and the depth count, or the key count mismatch |
| Decoder.Validate | crates/mojo-rs-wire/src/validate.rs:48-85 | header checks followed by a decoder object compute `Message.ValidateMessage` on any bytes |
| Decoder.Decoder.Claim | crates/mojo-rs-wire/src/value.rs:866-889 | a claim is taken exactly when it is non-empty, in the message and not behind the frontier, and all claims so far are in bounds, increasing and disjoint |
| Decoder.Decoder.ReadStructBody | crates/mojo-rs-wire/src/value.rs:975-1079 | the loop over packed fields computes `Decode.DecodeStructBody`, and claims stay in order even when it fails |
| Decoder.Decoder.ReadField | crates/mojo-rs-wire/src/value.rs:1081-1192 | one field read computes `Decode.DecodeField`, every rejection included |
| Decoder.Decoder.ReadArrayBody | crates/mojo-rs-wire/src/value.rs:1321-1393 | the header checks, the claim and the loop over elements compute `Decode.DecodeArrayBody` |
| Decoder.Decoder.ReadMapAt | crates/mojo-rs-wire/src/value.rs:1426-1458 | claim, pointers and both arrays compute `Decode.DecodeMapAt`, unequal counts rejected |
| RoundTrip.RtStruct | crates/mojo-rs-wire/src/value.rs:948-1079 | a conforming struct, encoded at the end of a buffer and claimed or in place in the last slot of another, decodes to itself from any finished message that agrees with that buffer, with a frontier that never passes the encoder's allocations |
| RoundTrip.RtField | crates/mojo-rs-wire/src/value.rs:433-556 | the same for a field slot of any type, in-place structs and inlined unions included: whatever else lies in the message, the value comes back and no claim is refused, as long as a value written past its slot ends the buffer |
| RoundTrip.RtUnion | crates/mojo-rs-wire/src/value.rs:559-621 | the same for unions, inlined, pointed to, and inlined in one another, with their tag and payload slot |
| RoundTrip.RtBody | crates/mojo-rs-wire/src/value.rs:663-722 | the same for array bodies, element by element in claim order |
| RoundTrip.RtMapAt | crates/mojo-rs-wire/src/value.rs:764-800 | the same for maps: keys are allocated and claimed before values |
| RoundTrip.RtStringAt | crates/mojo-rs-wire/src/value.rs:1275-1303 | the same for strings, with terminator and padding |
| RoundTrip.ZeroDecodes | crates/mojo-rs-wire/src/value.rs:401-408 | the zero bytes left for an absent nullable scalar decode, for every type for which they are said to, without moving the frontier |
| RoundTrip.TwosComplement | crates/mojo-rs-wire/src/value.rs:451-456 | a number survives its fixed width if and only if it is in that width's range |
| RoundTrip.EnumSlot | crates/mojo-rs-wire/src/value.rs:1111 | an enum written as 32 signed bits comes back as itself if and only if it is between 0 and 2^32, and otherwise modulo 2^32 |
| RoundTrip.InterfaceSlot | crates/mojo-rs-wire/src/value.rs:1167-1178 | an interface comes back with the larger version, hence as itself if and only if its version is not below the schema's |
| Evolution.EvolvedStruct | crates/mojo-rs-wire/src/value.rs:948-1079 | on any bytes: what a decoder makes of a struct under a schema, one with an older version of that schema, with fewer fields in structs anywhere in it, accepts too and makes the same without the newer fields, with a frontier no further |
| Evolution.OlderLayout | crates/mojo-rs-wire/src/pack.rs:343-445 | the older struct's layout is the newer one's cut to its version, the sizes up to that version are the same, and from there on no smaller |
| Compatibility.OlderValidates | crates/mojo-rs-wire/src/validate.rs:48-85 | whatever message validates under the newer schema validates under the older one, to the same header and the narrowed payload |
| Compatibility.NewerStruct | crates/mojo-rs-wire/src/value.rs:1011-1027 | a conforming struct encoded under the newer schema decodes under the older one to its values without the newer fields |
| Compatibility.NewerSender | crates/mojo-rs-wire/src/validate.rs:48-85 | and so does a whole message, with any consistent header and within the receiver's limits |
| Compatibility.OlderStruct | crates/mojo-rs-wire/src/value.rs:1011-1041 | a conforming struct encoded under a schema, at a version below the fields appended to it since, decodes under the newer one to its values and then the defaults |
| Compatibility.OlderSender | crates/mojo-rs-wire/src/validate.rs:48-85 | and so does a whole message |
| Acceptance.NumberArray | crates/mojo-rs-wire/src/value.rs:1321-1393 | an array of numbers is accepted if and only if its declared size holds its elements, lies in the message and is not behind the frontier, whatever its padding; then its elements are the bytes in order |
| Acceptance.StringObject | crates/mojo-rs-wire/src/value.rs:1275-1303 | the same for strings: a NUL follows the bytes, which are UTF-8 and hold none |
| Acceptance.MapObject | crates/mojo-rs-wire/src/value.rs:1426-1458 | a map is accepted with any declared size from 24 on, if and only if both its arrays are, one after the other, and are equally long |
| Acceptance.UnionObject | crates/mojo-rs-wire/src/value.rs:1199-1226 | a union of its own must declare 16 bytes, an inlined one anything, and its tag must be a member's |
| Acceptance.HeaderAccepted | crates/mojo-rs-wire/src/message.rs:73-168 | a header is accepted if and only if its size is its version's, or from 56 on for later versions, its flags make sense and its payload pointer is not null |
| Acceptance.PayloadPlace | crates/mojo-rs-wire/src/validate.rs:66-78 | the payload is read behind the known part of the header, whatever the header's own size and pointer say |
| WireFormat.LittleEndian | crates/mojo-rs-wire/src/value.rs:274-287 | byte i of a number is the number divided by 256^i, modulo 256 |
| WireFormat.StructBytes | crates/mojo-rs-wire/src/value.rs:350-374 | a struct starts with its size and version, then zeros |
| WireFormat.UnionBytes | crates/mojo-rs-wire/src/value.rs:559-577 | a union is 16, its tag, and eight bytes of payload |
| WireFormat.MapBytes | crates/mojo-rs-wire/src/value.rs:764-800 | a map is 24, 0, and two pointers |
| WireFormat.StringBytes | crates/mojo-rs-wire/src/value.rs:625-644 | a string is its padded size, its length, its bytes, a NUL and zeros up to a multiple of 8 |
| WireFormat.NumberArrayBytes | crates/mojo-rs-wire/src/value.rs:663-722 | an array of numbers is its padded size, its count, the numbers one after another, and zeros |
| WireFormat.PointerIs | crates/mojo-rs-wire/src/pointer.rs:30-50 | a pointer forward is the distance from its own slot |
| EncodeFrame.StructExtends | crates/mojo-rs-wire/src/value.rs:803-811 | encoding an object at the end of the buffer changes nothing that was there |
| EncodeFrame.FieldFrames | crates/mojo-rs-wire/src/value.rs:433-556 | encoding a field, with all it refers to, changes of the existing buffer only the field's own slot |
| EncodeFrame.FieldsFrame | crates/mojo-rs-wire/src/value.rs:350-414 | encoding a struct's fields changes of the existing buffer only the struct's own bytes after its header |
| RoundTrip.FieldsKeep | crates/mojo-rs-wire/src/value.rs:376-411 | later fields leave every earlier field's slot alone, down to the single bit of a packed boolean |
| EncodeTotal.OkStruct | crates/mojo-rs-wire/src/value.rs:350-414 | a conforming struct within the depth limit always encodes, so no index leaves the buffer |
| EncodeTotal.MissingIsNull | crates/mojo-rs-wire/src/value.rs:376-384 | a struct given too few values is encoded as if the others were Null, and values beyond its fields are not looked at |
| EncodeTotal.WrongElementIsEmpty | crates/mojo-rs-wire/src/value.rs:724-748 | an array element that is no string or array is written as an empty one, and one that is no map is refused |
| EncodeTotal.MapRefused | crates/mojo-rs-wire/src/value.rs:764-800 | unequal numbers of keys and values are refused before the depth is, which is from 64 on |
| EncodeTotal.ArrayRefused | crates/mojo-rs-wire/src/value.rs:653-661 | an array below 64 others is refused |
| DecodeSound.SoundStruct | crates/mojo-rs-wire/src/value.rs:975-1079 | on any bytes a decoded struct conforms: field counts, union tags, handle indices, map sizes, strings, depth, and defaults for fields newer than its version |
| DecodeSound.NonNullableNeverNull | crates/mojo-rs-wire/src/pack.rs:319-341 | a non-nullable string, array, map, struct or pointed-to union field of a decoded struct is never Null, at any version |
| DecodeSound.InlinedUnionNullIffNewer | crates/mojo-rs-wire/src/pack.rs:116-126 | an inlined union field of a decoded struct, nullable or not, is Null if and only if it is newer than the struct's version |
| DecodeBudget.PayStruct | crates/mojo-rs-wire/src/value.rs:1275-1393 | the footprint of what a struct decodes to is at most the frontier's advance |
| DecodeBudget.PayBody | crates/mojo-rs-wire/src/value.rs:1321-1393 | the same for array bodies, which pay for header and elements by their own claim |
| CodecLimits.StaleVersion | crates/mojo-rs-wire/src/value.rs:1011-1026 | the header of a struct written at full size is accepted if and only if the version is at least the newest field's or its own size is the full one |
| CodecLimits.NullInlinedUnion | crates/mojo-rs-wire/src/value.rs:1139-1143 | an inlined union may be written as Null and never comes back as Null |
| CodecLimits.NullableBoolLost | crates/mojo-rs-wire/src/value.rs:1045-1056 | on any bytes, a present nullable boolean comes back holding the default of its slot, never a boolean |
| CodecLimits.NullableBoolBack | crates/mojo-rs-wire/src/value.rs:391-401 | with everything else in order, a nullable boolean field comes back if and only if it is absent, or present without its value |
| CodecLimits.StaleBack | crates/mojo-rs-wire/src/value.rs:1011-1041 | a struct of any version, whatever its newer fields hold, comes back if and only if its version's size is the full one and the newer fields hold their defaults |
| CodecLimits.NoNullUnion | crates/mojo-rs-wire/src/value.rs:494-556 | the encoder refuses a struct in which an inlined union that is not nullable is Null, so a newer one cannot be sent at its default |
| CodecLimits.StringBack | crates/mojo-rs-wire/src/value.rs:1275-1303 | with everything else in order, a string field comes back if and only if no byte of it is 0 |
| CodecLimits.AbsentBack | crates/mojo-rs-wire/src/value.rs:401-408 | with everything else in order, an absent nullable scalar comes back if and only if the zero bytes left in its slot can be read as a value: not a handle without handles, a bare reference, or an inlined union of no members or of such a first one |
| CodecLimits.NullableHandleBack | crates/mojo-rs-wire/src/value.rs:1112-1119 | with everything else in order, a nullable handle comes back if and only if it is present or the message carries handles |
| CodecLimits.StructMember | crates/mojo-rs-wire/src/value.rs:1231-1262 | a non-nullable struct in a union's payload is read from behind itself, further by 2^32 for each version: it comes back if and only if it stands there once more, and never for a version above 0 or when nothing follows |
| CodecLimits.ScalarMember | crates/mojo-rs-wire/src/value.rs:619 | as a union member a nullable scalar is accepted only wrapped or null, and no wrapped one comes back |
| CodecOverlap.SlotExact | crates/mojo-rs-wire/src/value.rs:433-470 | a number, boolean, enum, handle or endpoint comes back from its slot if and only if the message has the bytes, or the one bit, that were written there |
| CodecOverlap.InPlaceExact | crates/mojo-rs-wire/src/value.rs:478-486 | a struct of such fields written in place, over anything, comes back if and only if the message still has in the end a header of its version and what was written in every in-version slot |
| CodecOverlap.InlinedExact | crates/mojo-rs-wire/src/value.rs:559-577 | a union of such a value inlined anywhere comes back if and only if the message still has its tag and payload slot |
| CodecOverlap.StructThenNumberBack | crates/mojo-rs-wire/src/value.rs:478-486 | `{struct {a}, b}` with numbers of any two kinds comes back if and only if a and b share the low bytes of the narrower |
| CodecOverlap.UnionThenNumberBack | crates/mojo-rs-wire/src/value.rs:559-577 | `{union {union {a}}, b}` with both unions inlined comes back if and only if a and b share the low bytes of the narrower |
| CodecOverlap.StringThenStructBack | crates/mojo-rs-wire/src/value.rs:478-486 | `{string, struct {a}}` comes back if and only if a, written over the string's size, covers the string and stays within the message |
| CodecOverlap.StructInUnionRejected | crates/mojo-rs-wire/src/value.rs:1231 | a message that ends with `{union {struct {n}}}` is always rejected, for every number n |
| LayoutFacts.IndexOnce | crates/mojo-rs-wire/src/pack.rs:250-300 | each declared field has one packed field, and only a nullable scalar a second |
| LayoutFacts.LastEnds | crates/mojo-rs-wire/src/pack.rs:402-407 | a struct or inlined union that is last in the layout ends the struct, with no padding behind it |
| PackLayout.PackIsLayout | crates/mojo-rs-wire/src/pack.rs:250-436 | packing accepts exactly the lists with orderly versions, and then places exactly the expanded fields, aligned, in rising order, bit-disjoint, inside a size that is a multiple of 8 |
| PackLayout.LayoutIsDisjoint | crates/mojo-rs-wire/src/pack.rs:229-244 | any two placed fields differ in (offset, bit) and share no bit; only booleans share a byte |
| PackLayout.PlaceFromLaid | crates/mojo-rs-wire/src/pack.rs:343-380 | placing keeps a correct layout correct and inserts one field without moving another |
| FirstFit.PackIsFirstFit | crates/mojo-rs-wire/src/pack.rs:343-380 | the packer's layout is the first-fit one and no other: each field in its order goes right behind the first field before which and behind which it has room, a boolean into the next bit |
| FirstFit.NothingBefore | crates/mojo-rs-wire/src/pack.rs:350-378 | every aligned offset before the one a field gets overlaps a field placed before it |
| PackVersions.LayoutIsVersionStable | crates/mojo-rs-wire/src/pack.rs:343-445 | packing only the fields up to a version gives them the places they have in the whole, and the version table's size is that packing's |
| PackVersions.InVersionInBounds | crates/mojo-rs-wire/src/value.rs:1034-1041 | a field in a version lies inside that version's size on the wire, so the decoder never skips it |
| PackVersions.FullSizeAtMax | crates/mojo-rs-wire/src/pack.rs:439-445 | from the newest field's version on, the table gives the full size |
| Packer.PackAll | crates/mojo-rs-wire/src/pack.rs:250-436 | the packer's loops compute `Pack.PackFields`, rejections included |
| Packer.PlaceOne | crates/mojo-rs-wire/src/pack.rs:350-378 | the inner loop with its early exit computes `Pack.Place`, which is first fit |
| Packer.Versions | crates/mojo-rs-wire/src/pack.rs:415-429 | the running maximum over fields in ordinal order computes `Pack.VersionInfo` |
| HeaderWriter.SerializeHeader | crates/mojo-rs-wire/src/message.rs:178-206 | filling a zeroed buffer field by field gives exactly the header's bytes in wire order |
| Pointers.PointerRound | crates/mojo-rs-wire/src/pointer.rs:30-50 | a relative pointer leads back to its target from any slot, and is null exactly when it points at its own slot |
| Bytes.FromLERound | crates/mojo-rs-wire/src/value.rs:274-287 | little-endian bytes give a number back modulo the width, and exactly when it fits |
| Bytes.SetBitExact | crates/mojo-rs-wire/src/value.rs:441-446 | setting or clearing one bit changes that bit and no other |
| Ring.RingBuffer.Write | crates/mojo-rs-core/src/ring_buffer.rs:212-225 | appends exactly the longest prefix that fits, across the wrap, and touches no other byte of the mapping |
| Ring.RingBuffer.WriteAll | crates/mojo-rs-core/src/ring_buffer.rs:229-237 | appends everything or changes nothing |
| Ring.RingBuffer.Read | crates/mojo-rs-core/src/ring_buffer.rs:241-246 | returns and removes the longest available prefix |
| Ring.RingBuffer.Peek | crates/mojo-rs-core/src/ring_buffer.rs:259-268 | returns the longest available prefix from both chunks, changing nothing |
| Ring.RingBuffer.DiscardAll | crates/mojo-rs-core/src/ring_buffer.rs:291-306 | removes exactly `n` bytes from the front or none |
| Ring.RingBuffer.ExtendDataRange | crates/mojo-rs-core/src/ring_buffer.rs:310-317 | the next `n` bytes of memory join the data, or nothing does when they cannot fit |
| Ring.RingBuffer.Deserialize | crates/mojo-rs-core/src/ring_buffer.rs:364-379 | adopts a range exactly when it belongs to a buffer of this capacity |
| Ring.TransferView | crates/mojo-rs-core/src/ring_buffer.rs:355-379 | a serialized view restored over the same bytes holds the same data, for capacities that fit in 32 bits |
| DataPipe.Pair.Write | crates/mojo-rs-core/src/data_pipe.rs:231-274 | takes all it is given or as many bytes as fit, or none for each of five reasons exactly where it applies; is the write of a bounded queue whatever the views lag, keeps the pair consistent, and notifies whoever became due |
| DataPipe.Pair.Read | crates/mojo-rs-core/src/data_pipe.rs:348-457 | returns the front of the unread bytes, or their number, or fails, each exactly when the flags, sizes and state say; takes what it returned if it neither failed, peeked nor queried, and otherwise nothing |
| DataPipe.Pair.BeginWrite | crates/mojo-rs-core/src/data_pipe.rs:283-299 | the span is the first free stretch behind all unread data |
| DataPipe.Pair.FillSpan | crates/mojo-rs-core/src/data_pipe.rs:283-331 | writing anywhere in the span, at any time before it ends, changes no unread byte |
| DataPipe.Pair.EndWrite | crates/mojo-rs-core/src/data_pipe.rs:305-331 | the first bytes of the span join the queue if and only if a write is under way and they are whole elements within its span, which includes the whole span |
| DataPipe.Pair.BeginRead | crates/mojo-rs-core/src/data_pipe.rs:463-480 | the span is the front of the unread data |
| DataPipe.Pair.EndRead | crates/mojo-rs-core/src/data_pipe.rs:486-512 | the first bytes of the span leave the queue, failing as EndWrite does |
| DataPipe.Pair.FlushProducer | crates/mojo-rs-core/src/data_pipe.rs:593-612 | draining the producer's parcels always succeeds, brings its view level with the consumer's, and changes neither queue nor signals |
| DataPipe.Pair.FlushConsumer | crates/mojo-rs-core/src/data_pipe.rs:593-619 | draining the consumer's parcels always succeeds, shows it every unread byte, and changes neither queue nor signals |
| DataPipe.Pair.QuerySignals | crates/mojo-rs-core/src/data_pipe.rs:516-524 | answers the signals as they were before its own flush |
| DataPipe.Pair.CloseProducer | crates/mojo-rs-core/src/data_pipe.rs:527-547 | cancels the end's own live watchers and collects exactly the peer's due ones, both lawfully |
| DataPipe.Pair.CloseConsumer | crates/mojo-rs-core/src/data_pipe.rs:527-547 | the same from the other end |
| DataPipe.Pair.SignalsTellTheTruth | crates/mojo-rs-core/src/data_pipe.rs:653-695 | readable if and only if there is unread data, writable if and only if there is room and a peer, new data only beyond an active read span; and what is satisfiable: everything of its kind while the peer is open, and then only what is satisfied |
| DataPipe.Pair.TransfersIffSignalled | crates/mojo-rs-core/src/data_pipe.rs:256-261 | with no two-phase operation, a nonzero aligned partial transfer moves bytes if and only if its signal is satisfied |
| DataPipe.Pair.ToldIsLawful | crates/mojo-rs-core/src/data_pipe.rs:700-718 | notifying both ends of what became due, with watchers and closed flags as they were, is a lawful change of the two |
| Signals.ClosedPeerSettles | crates/mojo-rs-core/src/data_pipe.rs:653-695 | once the peer is closed satisfied equals satisfiable, at both ends of a data pipe |
| DataPipe.ReadIsQuiet | crates/mojo-rs-core/src/data_pipe.rs:423-429 | taking data away never makes one of the reader's own watches due, so reads need not notify them |
| DataPipe.PartialWriteWhole | crates/mojo-rs-core/src/data_pipe.rs:173-208 | partial writes never split an element if and only if the room is a whole number of elements, which creation does not check |
| DataPipe.Do | crates/mojo-rs-core/src/data_pipe.rs:231-567 | any one step takes a prefix of the queue and adds to its end exactly the bytes its result names: the accepted prefix of a write, the bytes returned by a read or as many as it discarded, the first bytes of its span when a two-phase operation ends; leaves what a lent span shows alone, except for the client's own filling; and changes its two ends lawfully, or registers or cancels one watch |
| DataPipe.Run | crates/mojo-rs-core/src/data_pipe.rs:231-567 | over every run the bytes the steps' results say were accepted, those of two-phase writes being what their spans held, are those they say were returned or discarded, followed by the unread ones; and if the element size divides the capacity all sizes, offsets and parcels stay whole |
| DataPipe.PeekThenRead | crates/mojo-rs-core/src/data_pipe.rs:396-457 | in every run, a peek is followed by the same queue, and the same read made at once without peeking returns and takes the same bytes |
| DataPipe.FilledIsWritten | crates/mojo-rs-core/src/data_pipe.rs:283-331 | over every run what a client puts in its write span, and does not fill over, is what joins the stream when it ends the write, whatever happens between |
| DataPipe.ShownIsRead | crates/mojo-rs-core/src/data_pipe.rs:463-512 | over every run a read span goes on showing what it showed when it was lent, whatever the producer does, and that is what leaves the stream when the read ends |
| DataPipe.WatchClosedEnd | crates/mojo-rs-core/src/data_pipe.rs:549-567 | on an end closed with the peer still open, any watch is dropped, and when the peer closes too it is due and nothing has been collected |
| DataPipe.ClosedConsumerLosesWakeup | crates/mojo-rs-core/src/data_pipe.rs:549-567 | a new pipe's consumer closes, watches for the peer's closing, not due, and is not called when the producer closes |
| Signals.CollectExact | crates/mojo-rs-core/src/data_pipe.rs:700-718 | collected are exactly the callbacks of live watchers whose signals are satisfied or unsatisfiable |
| Signals.CollectWatchers | crates/mojo-rs-core/src/pipe.rs:297-310 | the walk over the watchers computes that collection |
| Signals.CancellationsExact | crates/mojo-rs-core/src/pipe.rs:315-326 | closing collects one cancellation for exactly each watcher still live |
| Signals.MaskContains | crates/mojo-rs-core/src/signal.rs:41-43 | the bit test for containment is set inclusion |
| Signals.MaskUnion | crates/mojo-rs-core/src/signal.rs:51-56 | or of masks is union of sets |
| Signals.DueForeverExact | crates/mojo-rs-core/src/data_pipe.rs:653-695 | on a closed end a watch is due in every later state if and only if the end is a message pipe's, the peer is closed, or the watch is empty or names a signal the end never has; otherwise it is not due while the end is idle, and is once the peer closes |
| MessagePipe.Pipe.Write | crates/mojo-rs-core/src/pipe.rs:95-117 | appends one whole message to the peer's queue, or fails and changes nothing |
| MessagePipe.Pipe.Read | crates/mojo-rs-core/src/pipe.rs:126-163 | takes exactly the first message of an open end, unless a limit below its length is given and discarding is not allowed: then, and only then, it is too large, with that length, and the whole state is as it was |
| MessagePipe.ReadAgain | crates/mojo-rs-core/src/pipe.rs:146-156 | a read that found the message too large, repeated with the size it was told, gets that message |
| MessagePipe.Pipe.Close | crates/mojo-rs-core/src/pipe.rs:166-186 | closes once, cancels its own watchers, tells the peer's, and leaves both queues |
| MessagePipe.ReadConserves | crates/mojo-rs-core/src/pipe.rs:146-156 | the byte count never saturates and putting a message back undoes taking it |
| MessagePipe.SignalsTellTheTruth | crates/mojo-rs-core/src/pipe.rs:267-290 | each signal says what the operations would do, and each is satisfiable exactly as long as it can come: reading while the peer is open or something is queued, writing while the peer is open; an exceeded quota never comes, and a closed end can satisfy nothing |
| MessagePipe.Do | crates/mojo-rs-core/src/pipe.rs:95-240 | any one step sends and delivers exactly the message its result names, changes its two ends lawfully, or registers or cancels one watch, and makes no signal satisfiable that was not |
| MessagePipe.Run | crates/mojo-rs-core/src/pipe.rs:95-186 | over every run, per direction, the messages whose writing was accepted are those that reads returned, followed by the queue; byte counts are exact and closed flags agree |
| Trap.Trap.Arm | crates/mojo-rs-core/src/trap.rs:165-210 | arming reports a true event for each trigger in the way, and nothing else, and arms if and only if there is none |
| Trap.ScanTells | crates/mojo-rs-core/src/trap.rs:171-200 | each of those events is for a live trigger, about the state its endpoint answered, succeeded if satisfied and failed if unsatisfiable or watching nothing |
| Trap.ScanExact | crates/mojo-rs-core/src/trap.rs:171-200 | nothing stands in the way if and only if every live trigger watches something and none is due |
| Trap.Trap.HandleWatch | crates/mojo-rs-core/src/trap.rs:214-273 | a change disarms once and tells its trigger, with success if and only if the callback's state satisfies it; a cancellation removes its trigger and tells it, armed or not |
| Trap.Trap.RemoveTrigger | crates/mojo-rs-core/src/trap.rs:139-156 | removes the first live trigger of a context and sends its cancellation, or reports none |
| Trap.Trap.Close | crates/mojo-rs-core/src/trap.rs:286-302 | drains the triggers and cancels exactly the live ones, in order |
| Watching.OperateKeeps | crates/mojo-rs-core/src/pipe.rs:95-186 | no lawful pipe operation leaves a standing watch due without a callback pending |
| Watching.PipeOperates | crates/mojo-rs-core/src/pipe.rs:95-186 | what a pipe's operation does lawfully to its two ends is a step of any world that has them among its endpoints |
| TrapRuns.NoLostWakeup | crates/mojo-rs-core/src/trap.rs:165-273 | in every reachable state of every interleaving, each live trigger of an armed trap that is due has a callback pending that will fire or remove it, and watches something |
| TrapRuns.StepKeeps | crates/mojo-rs-core/src/trap.rs:119-302 | every single step keeps the invariant behind that, arming taking one step per trigger |
| TrapRuns.AddExact | crates/mojo-rs-core/src/trap.rs:119-136 | in any state of any run, with nothing pending for its context, pushing a trigger keeps the whole invariant if and only if its context is its own, while armed its end is open and it is not due there, and on a closed end it is due for good |
| TrapRuns.AddGuarantee | crates/mojo-rs-core/src/trap.rs:119-136 | with a context of its own, a trigger is covered by the wakeup guarantee in every continuation if and only if it is fit in that sense: for every unfit one there is a run that loses its wakeup |
| TrapRuns.UnfitReachable | crates/mojo-rs-core/src/trap.rs:119-136 | each way of being unfit occurs in some run: a closed data-pipe end, armed or not, and a due trigger while armed |
| TrapRuns.SharedContextLoses | crates/mojo-rs-core/src/trap.rs:214-273 | with a context another live trigger has, an unfit trigger loses its wakeup in some run, and so does a fit one alone with its context on an open end, on a data pipe or while armed: its cancellation removes the other trigger |
| TrapRuns.SharedReachable | crates/mojo-rs-core/src/trap.rs:119-136 | such a state is reached from the start |
| TrapRuns.ClosedDataEndLosesWakeup | crates/mojo-rs-core/src/data_pipe.rs:549-567 | on a data pipe's closed end, in any state and for any watch, arming is refused if and only if the watch is due already, and the peer's closing makes it due with no callback collected |
| TrapEvents.EventAccounting | crates/mojo-rs-core/src/trap.rs:139-302 | over every run armed is successful arms less changes delivered, and every trigger is live or has been sent one cancellation, its last event |
| TrapTruth.EventsTell | crates/mojo-rs-core/src/trap.rs:165-273 | over every run each event carries its own trigger's context, and succeeds if and only if the trigger watches something that the event's state satisfies |
| TrapTruth.FailuresAreTrue | crates/mojo-rs-core/src/trap.rs:255-262 | and, where no context is used again with something left of its last use for other signals, fails if and only if it watches nothing or something unsatisfiable in that state |
| TrapTruth.CallTruth | crates/mojo-rs-core/src/trap.rs:231-273 | what a callback makes an armed trap tell is true if and only if the callback's state was due for the trigger it is given to |
| TrapTruth.MixedContextMisleads | crates/mojo-rs-core/src/trap.rs:231-273 | a run in which a context is used again too early: a new trigger is told that it failed, with a state in which what it watches can still come |
| Wait.ParkedIsWoken | crates/mojo-rs-core/src/wait.rs:40-125 | in every reachable state a parked thread not yet woken whose signals are due has a wake callback pending, and one that is woken has a notification pending |
| Wait.WaitEndsClean | crates/mojo-rs-core/src/wait.rs:40-113 | a wait that has ended left no live watch, and reports success only with a state that satisfies its signals |
| Wait.EndDecided | crates/mojo-rs-core/src/wait.rs:40-113 | a wait that has ended did so at a step that decided it: at a look with the satisfied state it returns, with an error for unsatisfiable signals, or, with neither, past the deadline |
| Wait.LookEnds | crates/mojo-rs-core/src/wait.rs:46-77 | every look at satisfied or unsatisfiable signals ends the wait so |
| Wait.RegisterGuarantee | crates/mojo-rs-core/src/wait.rs:65-113 | a thread about to register, not woken and with nothing pending for it, is in every continuation owed a callback whenever it is parked and due, if and only if its end is open or its signals are due for good |
| Wait.ClosedEndStrands | crates/mojo-rs-core/src/wait.rs:65-113 | on a closed end where they are not, a run that strands it, from every such state: the end falls idle, it parks, the peer closes |
| Wait.StrandedReachable | crates/mojo-rs-core/src/wait.rs:65-113 | every closed end and every signals not due there for good are met with by such a thread, from a fresh start |
| HandleTable.EncodeExact | crates/mojo-rs-core/src/handle.rs:236-238 | a packed value gives the slot back and the generation modulo 4096 |
| HandleTable.Table.Add | crates/mojo-rs-core/src/handle.rs:131-144 | issues a value never issued before, or fails only when all slots are live |
| HandleTable.Table.Get | crates/mojo-rs-core/src/handle.rs:147-163 | a value resolves exactly from issue until close, unless its generation is 4096 |
| HandleTable.Table.CloseSlot | crates/mojo-rs-core/src/handle.rs:167-186 | ends the meaning of one live value and of no other; a stale one changes nothing |
| HandleTable.Table.Duplicate | crates/mojo-rs-core/src/handle.rs:189-206 | look-up and new entry with nothing between: a new value for the same dispatcher, with every failure |
| HandleTable.Table.LookUp | crates/mojo-rs-core/src/handle.rs:189-193 | the first of its two lock steps finds the dispatcher the value means, if it may be duplicated |
| HandleTable.Table.Allocate | crates/mojo-rs-core/src/handle.rs:210-233 | takes the last freed slot or a new one, at the next generation |
| HandleTable.Table.RetiredSlot | crates/mojo-rs-core/src/handle.rs:210-238 | a slot at generation 4096 is never free and nothing resolves or closes it |
| HandleTable.UseUpSlot | crates/mojo-rs-core/src/handle.rs:210-238 | adding and closing in turn, 4096 adds on one slot, reaches generation 4096: the last value issued was never closed and means nothing |
| HandleTable.Do | crates/mojo-rs-core/src/handle.rs:131-206 | one step issues or ends exactly the value its result names, and a second entry is for what the earlier look-up found, whatever was closed since |
| HandleTable.Run | crates/mojo-rs-core/src/handle.rs:131-237 | over every run, with duplications in two steps that others may come between, the values the results name as issued are pairwise distinct and each for the dispatcher its step was asked for, the closed ones are those whose close told a dispatcher and never resolve again, and all others resolve unless issued at generation 4096 |

## Left out

Bounds of the model:

- Sizes, offsets and counts are unbounded naturals where the code uses `usize`; the `checked_add` and
  `checked_mul` failures and the unchecked additions on pointers near 2^64 are not modelled. The
  casts to 32 bits on the wire are.
- A vector index the code would panic on is the error `OutOfBounds`; it cannot occur for conforming
  values, and parsing a header shorter than its declared version is the case where it can.
- Message bytes, ring memory and spans are sequences and one array with (start, length) pairs:
  `Mapping`, `Span` addresses and the two shared mappings of one region are not part of this model.
- A lock-protected operation is one step. Lock poisoning and callbacks that call back into the same
  trap are not modelled. The deadline of a wait may pass at any look.
- What an encoder, a decoder or its depth count holds after an error is not specified; the caller
  gives them up. The decoder's claims stay in order even then.
- UTF-8 is the grammar of section 4 of RFC 3629 in place of the library's check.
- The numbers of the wire are one type `Num` with ten kinds, F32 and F64 as bit patterns; type and
  field names are dropped, and so is the `linked_value` index, which nothing here reads.
- Explicit ordinals, which no caller sets, and the library's stable sort are taken as given: sorting
  is an insertion by key.

Callers' obligations taken as given, because the code relies on them:

- Data pipes: write operations on the producer and read operations on the consumer, with as many
  elements as `num_bytes` says; a two-phase span is written only between its begin and its end; the
  parcels fit in 32 bits because the capacity does.
- Traps: a context is used again for other signals only when no watch and no callback of its last use is
  left (`TrapTruth.FailuresAreTrue`, `TrapTruth.MixedContextMisleads`).
- Traps: a trigger is added with a context no live one has, while the trap is armed only on an open
  end where it is not due, and on a closed end only when it is due for good. `TrapRuns.AddGuarantee`
  says that these are needed and enough, `TrapRuns.SharedContextLoses` why contexts matter.
- Waits: one thread to a waiter, and on a closed end only for signals due for good, which is needed
  and enough (`Wait.RegisterGuarantee`).
- Handles are closed with the slot they were issued with.

Stated weaker than one might:

- TrapEvents.EventAccounting: orders events by when the trap's lock decides them, because two
  threads may call the client in another order; one thread calls in this order.
- EndToEnd.MessageRoundTrip: covers values in `Conforms`; some outside it come back too, because
  parts written over one another may hold the same bytes, and because a null member of a union that
  is a nullable scalar over a nullable reference is read from zero bytes. `CodecOverlap` and
  `CodecLimits` say when.
- CodecLimits.AbsentBack: leaves out nullable scalars over an inlined union whose first member is itself
  an inlined union, since that one is read past the slot, from whatever follows it.
- CodecOverlap.InPlaceExact: for structs of numbers, booleans, enums, handles and endpoints, whose slots
  hold all there is to them; where a reference is written over, what comes back depends on its target.
- CodecOverlap.InlinedExact: for unions of the same kinds of value.
- HandleCount.OwnCount: leaves out messages that count no handles and hold something absent that cannot
  be read without them; for a field of a struct `CodecLimits.AbsentBack` says that it is rejected.
- TrapRuns.AddGuarantee: asks for a context of its own, because without one there are states that lose
  the wakeup of a trigger fit in every other way (`TrapRuns.SharedContextLoses`).
- TrapRuns.SharedContextLoses: goes one way. Two triggers of one context on one end, say, are cancelled
  together, and whether one can be without the other depends on watches still to be cancelled.
- Compatibility.OlderStruct: for fields appended to the struct itself, since a newer receiver takes a
  header of a version between two of its own only with exactly that version's size.
- Evolution.EvolvedStruct: for unions with the same members, because a decoder refuses a tag it does not
  know.
- DecodeSound.SoundStruct: does not claim that pointer targets are aligned, because the decoder never checks.

Not part of this model:

- `mojo-rs-platform`, shared buffers, the ipcz router, system wrappers, drivers and tools.
- Error name tables, case files, comparison and normalising helpers.
