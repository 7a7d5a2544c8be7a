# Verified models of the vendored protocol cores

The application vendors two C and C++ libraries whose correctness everything above them rests on:
nanopb, a table-driven Protocol Buffers codec, and BoringSSL, the TLS and DTLS stack. This project
models their cores in Dafny 4.11 and proves what they are for. `dafny verify dfyconfig.toml` checks
all of it. I/O, clocks, randomness, cryptography and memory exhaustion are parameters or arbitrary
choices of the model, so what is proved holds whatever they do.

**nanopb** (`Nanopb*.dfy`). Descriptions are finite trees of fields, structs are matching trees of
slots (members of a oneof share one). `NanopbWire` to `NanopbDecode` define what is written and read as
functions; `NanopbOStream`, `NanopbPbEncode`, `NanopbIStream`, `NanopbFieldIter` and `NanopbPbDecode` are the
code as it runs, over buffers, substreams, an iterator that wraps around and words of required-field
bits, each method tied to those functions. The main results are the message round trip
(`NanopbRoundTrip`), proved exactly: it holds of a struct if and only if the struct survives, a condition on
its contents and its description; its converse, that whatever is accepted encodes again to the same
message (`NanopbReencode`); that what is written is the wire format record by record (`NanopbFormat`) and what each
occurrence of a field does (`NanopbOccurrence`); that concatenation is merging and unknown fields are transparent (`NanopbMerge`), that
the sizing pass agrees with the writing pass at every depth, that the required-field check is exact,
and that the implicit-presence test means exactly "nothing is written".

**DTLS handshake transport** (`Dtls*.dfy`). `DtlsReassembly` and `DtlsReceiver` are the receiver: a bitmask
per message and a ring of seven messages. `DtlsTransport` proves its properties over whole runs against a
network that loses, repeats and reorders. `DtlsFlight` and `DtlsSender` are the sender, which cuts messages to
an MTU, resumes after failed writes and retransmits; `DtlsEndToEnd` puts the two together.
`DtlsReplay` is the replay window as a refinement of a set of numbers, and `DtlsRecords` the two live write
epochs, whose records never share a number. `DtlsInput` is the receiving side as a whole, with the
change of keys, and `DtlsDelivery` takes a flight from the sender's log of sealed records through the
window to the handshake on the other side, down to the receiving code on the bytes of the records. The standard is RFC 6347, sections 4.1, 4.1.2.6 and
4.2.2 to 4.2.4.

**TLS** (`Tls*.dfy`, `CipherChoice.dfy`, `Handshake*.dfy`). `TlsWrite` is the write path with its three
places where bytes can wait. `CipherChoice` is the server's choice among equal-preference groups.
`HandshakeClient` and `HandshakeServer` are the two state machines for TLS 1.0 to 1.2, full and resumed, for
every combination of negotiated options; `HandshakePair` runs them against each other under any
scheduling and proves that they never fail, never both wait, and finish in agreement (section 7.3 of
RFC 5246). A Finished carries the transcript that its sender has hashed, and the receiver compares it with
its own, so agreement on every message is part of the result. `HandshakeSoundness` puts each machine
alone against a peer that sends whatever it likes: it finishes only through a legal conversation, and
`HandshakeFlights` writes the conversations out; `HandshakeAlone` shows that the two ways of running a side agree.

**Reference counts** (`Refcount*.dfy`). Any number of threads interleave the compare-and-swap loops step by
step, with spurious failures, against the counter that is changed under a lock.

`Words.dfy` holds machine words, shifts and bits. Methods that work in place carry the property in their
`ensures`; lemmas then prove what follows over whole messages and whole runs.

## What the code does that its documentation does not say

- The 32-bit varint decoder accepts any number of padding bytes, so only the end of the stream bounds its
  loop, and it counts its shift in an 8-bit variable that wraps (pb_decode.c:182-242). The model has the wrap.
  It looks at the upper bits of the fifth byte only if that is the last one, so a padded length of 2^32 is taken
  for 0: `LongLengthCutOff`.
- A zero field key ends a message wherever it stands; an empty description matches tag 0 with its
  terminator and then fails on its data size (pb_common.c:78-95, pb_decode.c:1317-1318).
- A field with implicit presence and a default other than zero does not survive the round trip:
  `ImplicitPresenceExact` is an input. A string without a terminator inside its array encodes but does not
  decode: `TerminationExact`. `RoundTripExact` has the exact condition for whole messages.
- A handshake fragment numbered seven beyond the read sequence passes the test that ignores fragments "too
  far in the future" and is then an error (d1_both.cc:380-385 against 267-271): `GenuineAccepted`.
- When sealing fails in the middle of a packet, `outgoing_written` and `outgoing_offset` stay ahead of
  what was sent; only a failed write restores them (d1_both.cc:751-753, 798-812), so a later flush can
  succeed although a message never reached the wire: `FlushMissesMessage` is an input,
  `WholeFlightExactly` and `FlushFlight` have the exact condition.
- With `SSL_OP_NO_QUERY_MTU` and no MTU set, the assertion that the MTU is large enough can fail
  (d1_both.cc:615-632): `UpdateMtu` says exactly when it holds.
- `ssl3_write_app_data` with a length below what the interrupted write has sent forgets how much that was
  (s3_pkt.cc:143-157), so a later retry is not continued where it stopped. While an application record
  waits, an alert is refused even if a flushed flight has already carried the record's bytes out.
- A preference list whose last in-group flag is 1 has its last group ignored: `ChooseAmong` is exact for
  every list, `OpenGroupIgnored` is the instance.

## Model

| member | source | states |
|---|---|---|
| NanopbWire.VarintAtMostTen | InstagramProject/Pods/nanopb/pb_encode.c:574-594 | a 64-bit varint takes 1 to 10 bytes |
| NanopbWire.VarintAtMostFive | InstagramProject/Pods/nanopb/pb_encode.c:574-594 | a 32-bit varint takes 1 to 5 bytes |
| NanopbWire.Dec64Inverts | InstagramProject/Pods/nanopb/pb_decode.c:250-270 | the 64-bit decoder gives every u64 back from its encoding and leaves the rest of the stream untouched |
| NanopbWire.Dec32Inverts | InstagramProject/Pods/nanopb/pb_decode.c:182-242 | the 32-bit decoder inverts the encoder on every u32 and on the sign-extended encoding of every negative i32 |
| NanopbWire.DecodersAgree | InstagramProject/Pods/nanopb/pb_decode.c:182-270 | where both decoders accept an input they stop at the same byte and agree modulo 2^32 |
| NanopbWire.Dec64Bound | InstagramProject/Pods/nanopb/pb_decode.c:250-270 | what the 64-bit decoder accepts fits 64 bits |
| NanopbWire.Dec32Bound | InstagramProject/Pods/nanopb/pb_decode.c:182-242 | what the 32-bit decoder accepts fits 32 bits, whatever the padding |
| NanopbWire.Dec32Refuses | InstagramProject/Pods/nanopb/pb_decode.c:182-242 | a length of 2^32 or more, up to 63 bits, is refused in its shortest form |
| NanopbWire.Dec32Longest | InstagramProject/Pods/nanopb/pb_decode.c:182-242 | a length of 2^63 or more is refused exactly unless bit 31 is set and each seven-bit group above it is all zeros or all ones |
| NanopbWire.ZigZagInverse | InstagramProject/Pods/nanopb/pb_encode.c:596-605 | the shift-and-complement form round-trips every i64 through a 64-bit code |
| NanopbWire.ZigZagOnto | InstagramProject/Pods/nanopb/pb_decode.c:1240-1252 | every 64-bit code decodes to an i64 that encodes to it |
| NanopbWire.ZigZagOrder | InstagramProject/Pods/nanopb/pb_encode.c:596-605 | values of small magnitude get small codes: 2i for i not negative, -2i - 1 for the others |
| NanopbWire.LittleEndianInverse | InstagramProject/Pods/nanopb/pb_decode.c:1254-1286 | fixed-width values read back as written |
| NanopbReaders.ReadTagInverts | InstagramProject/Pods/nanopb/pb_decode.c:293-314 | a field key reads back as the wire type and the field number it was written from, for every field number that fits the 32-bit tag word |
| NanopbReaders.DelimitedInverts | InstagramProject/Pods/nanopb/pb_decode.c:367-380 | a length prefix with its payload reads back as the payload, and the bytes after it stay |
| NanopbReaders.SkipFieldLocal | InstagramProject/Pods/nanopb/pb_decode.c:316-326 | skipping looks only at the field: bytes behind a whole field do not change how it is skipped |
| NanopbEncode.PackedSize | InstagramProject/Pods/nanopb/pb_encode.c:143-170 | the sizing loop over packed entries: at most ten bytes an entry, and exactly 4 or 8 for fixed-width entries |
| NanopbEncode.DefaultMeansEmpty | InstagramProject/Pods/nanopb/pb_encode.c:215-303 | the implicit-presence test holds of a message exactly if encoding it writes nothing and no oneof selector is set, at every depth |
| NanopbEncode.DefaultIffEmpty | InstagramProject/Pods/nanopb/pb_encode.c:215-392 | with valid oneof selectors the test holds exactly if encoding writes nothing |
| NanopbFormat.ValueWritten | InstagramProject/Pods/nanopb/pb_encode.c:640-672 | the key of a value is 8 times the field number plus 0 for the varint types, 1 for eight bytes, 5 for four, 2 for the rest, and its payload is the varint, the little-endian bytes, or length and bytes |
| NanopbFormat.ZeroMeansDefault | InstagramProject/Pods/nanopb/pb_encode.c:215-303 | the implicit-presence test by literal value: zero, no bytes, an empty string, a submessage that writes nothing |
| NanopbFormat.MessageWritten | InstagramProject/Pods/nanopb/pb_encode.c:307-392 | what is written is exactly the list of records that the wire format asks for, in the order of the description: none for an absent field, one for a packed array, one for each entry of any other array |
| NanopbFormat.EncodableExactly | InstagramProject/Pods/nanopb/pb_encode.c:494-516 | encoding succeeds exactly if, at every depth, what is written has counts within the arrays, bytes that fit with their length, and integers of 1, 2, 4 or 8 bytes |
| NanopbFormat.RecordSkipped | InstagramProject/Pods/nanopb/pb_decode.c:316-326 | a record of each wire type is skipped to its exact end |
| NanopbFormat.EncodingSkipped | InstagramProject/Pods/nanopb/pb_decode.c:940-960 | a whole encoding is skipped by every reader that declares none of its fields, or none at all |
| NanopbMessage.DefaultTyped | InstagramProject/Pods/nanopb/pb_decode.c:812-895 | the defaults that pb_decode starts from match the description, in every slot |
| NanopbDecode.UpdateTyped | InstagramProject/Pods/nanopb/pb_decode.c:401-475 | decoding a field keeps the struct in the shape of its description, also when it switches a oneof to another member |
| NanopbMerge.LoopLocal | InstagramProject/Pods/nanopb/pb_decode.c:919-986 | the tag loop on x ++ y is the tag loop on x and then on y, or stops where it stopped in x at a zero tag |
| NanopbMerge.ConcatIsMerge | InstagramProject/Pods/nanopb/pb_decode.h:70-80 | pb_decode_noinit of x ++ y is decoding x and then y into the same struct, when x is whole fields without a zero tag and both succeed |
| NanopbMerge.UnknownFieldsTransparent | InstagramProject/Pods/nanopb/pb_decode.c:273-326 | inserting a well-formed field with an undeclared tag at a field boundary changes nothing, neither the struct nor whether decoding succeeds |
| NanopbOccurrence.ValueOccurs | InstagramProject/Pods/nanopb/pb_decode.c:401-475 | one more value under any wire type: the last scalar wins, an array gets one more entry even if it could have been packed, a oneof is switched |
| NanopbOccurrence.PackedOccurs | InstagramProject/Pods/nanopb/pb_decode.c:427-455 | a packed chunk adds its entries behind those that are there |
| NanopbOccurrence.FullArrayRefuses | InstagramProject/Pods/nanopb/pb_decode.c:427-465 | an array that is full takes no more, packed or not |
| NanopbOccurrence.SubmessageOccurs | InstagramProject/Pods/nanopb/pb_decode.c:1463-1485 | a submessage is decoded onto what its field holds, a new array entry and a oneof onto the defaults |
| NanopbOccurrence.SubmessagesMerge | InstagramProject/Pods/nanopb/pb_decode.c:1475-1480 | two occurrences: a required or optional submessage is merged, an array has two entries, in a oneof the second counts |
| NanopbOccurrence.SubmessageInParts | InstagramProject/Pods/nanopb/pb_decode.h:70-80 | a required or optional submessage sent in two parts is the same as one sent whole |
| NanopbOccurrence.RequiredExactly | InstagramProject/Pods/nanopb/pb_decode.c:988-1046 | decoding succeeds exactly if the loop does and every required field with fewer than 64 required ones before it was met |
| NanopbOccurrence.SignedExactly | InstagramProject/Pods/nanopb/pb_decode.c:1289-1328 | a signed integer is the low 32 bits (64 for eight-byte fields) of any varint, and is refused exactly if it does not fit the field |
| NanopbOccurrence.UnsignedExactly | InstagramProject/Pods/nanopb/pb_decode.c:1330-1362 | an unsigned integer is refused exactly if it does not fit the field |
| NanopbOccurrence.ZigZagExactly | InstagramProject/Pods/nanopb/pb_decode.c:1364-1389 | a zig-zag integer is refused exactly if it does not fit the field |
| NanopbOccurrence.PayloadsExactly | InstagramProject/Pods/nanopb/pb_decode.c:1391-1461 | bytes are taken exactly if they fit with their length, strings with their terminator, fixed-length bytes if they have the length, and no bytes stand for all zeros |
| NanopbOccurrence.ZeroEnds | InstagramProject/Pods/nanopb/pb_decode.c:919-940 | a zero byte ends the message, whatever follows |
| NanopbOccurrence.NumberZero | InstagramProject/Pods/nanopb/pb_common.c:78-95 | a message type without fields refuses field number 0, any other skips it |
| NanopbOccurrence.OtherWireTypesFail | InstagramProject/Pods/nanopb/pb_decode.c:316-326 | groups and reserved wire types cannot be skipped |
| NanopbOccurrence.NothingDecodes | InstagramProject/Pods/nanopb/pb_decode.c:812-895 | from no bytes at all: flags and selectors off, arrays empty, everything else initial or zero |
| NanopbOccurrence.Dec64Accepts | InstagramProject/Pods/nanopb/pb_decode.c:250-270 | a varint is accepted exactly if it ends within ten bytes |
| NanopbOccurrence.LongLengthCutOff | InstagramProject/Pods/nanopb/pb_decode.c:203-236 | an input where the upper bits are lost: 2^32 with one byte of padding behind it is taken for 0 |
| NanopbOccurrence.PaddingComesRound | InstagramProject/Pods/nanopb/pb_decode.c:182-242 | the 8-bit bit position wraps: behind 37 bytes of padding a byte counts again |
| NanopbRoundTrip.IntRoundTrip | InstagramProject/Pods/nanopb/pb_decode.c:1289-1389 | every integer type of every size decodes to the value that was encoded, negative values through sign extension included |
| NanopbRoundTrip.StringRoundTrip | InstagramProject/Pods/nanopb/pb_decode.c:1428-1461 | a string terminated inside its array decodes to the same C string |
| NanopbRoundTrip.TerminationExact | InstagramProject/Pods/nanopb/pb_decode.c:1437-1454 | an encoded string decodes, and to the same C string, exactly if it was terminated inside its array; otherwise it is refused |
| NanopbRoundTrip.DelimitedExact | InstagramProject/Pods/nanopb/pb_decode.c:367-380 | a delimited payload is read back exactly if it is below 4 GiB |
| NanopbRoundTrip.BytesRoundTrip | InstagramProject/Pods/nanopb/pb_decode.c:1391-1426 | byte strings decode to what was encoded |
| NanopbRoundTrip.PackedRoundTrip | InstagramProject/Pods/nanopb/pb_decode.c:427-455 | decoding the first n packed entries and going on is going on with those n values, in order |
| NanopbRoundTrip.ItemsRoundTrip | InstagramProject/Pods/nanopb/pb_decode.c:457-470 | unpacked repeated entries decode in order, each to the same value exactly if it survives; the first that is not read stops the decoder and does not survive |
| NanopbRoundTrip.UnwrittenMsg | InstagramProject/Pods/nanopb/pb_encode.c:215-303 | a submessage that is not written looks like the defaults it decodes to exactly if it survives, at every depth |
| NanopbRoundTrip.ValueRoundTrip | InstagramProject/Pods/nanopb/pb_decode.c:401-425 | one value, submessages included, is read back and looks the same exactly if it survives |
| NanopbRoundTrip.MsgRoundTrip | InstagramProject/Pods/nanopb/pb_decode.c:901-1049 | the induction behind the round trip, over the defaults and at every depth: decoding the encoding leaves nothing, and succeeds with a message that looks the same exactly if the message survives |
| NanopbRoundTrip.RoundTripExact | InstagramProject/Pods/nanopb/pb_decode.c:1051-1063 | for every well-formed description and every encodable struct of it: pb_decode of pb_encode(m) succeeds with a message that cannot be told from m exactly if, at every depth, oneof selectors are valid, what is written is terminated and fits its length prefix, and what is not written for implicit presence decodes to a default that is itself not written; if it succeeds, it consumes exactly the bytes written |
| NanopbRoundTrip.RoundTrip | InstagramProject/Pods/nanopb/pb_decode.c:1051-1063 | the same for every struct that survives, of any length: success, exactly the bytes written consumed, and a message that no program following the description can tell from m |
| NanopbRoundTrip.SoundSurvives | InstagramProject/Pods/nanopb/pb_encode.c:332-339 | if the default of every field with implicit presence is the value that is not written, every struct whose written contents are sound survives |
| NanopbReencode.NoInitKept | InstagramProject/Pods/nanopb/pb_decode.c:901-1049 | whatever bytes are accepted, decoding keeps every slot encodable and every oneof selector valid |
| NanopbReencode.AcceptedReencodes | InstagramProject/Pods/nanopb/pb_decode.c:1051-1063 | whatever bytes pb_decode accepts, the message can be encoded again, and (with such defaults, below 4 GiB) that encoding decodes to the same message |
| NanopbCodec.SameMsgEncodes | InstagramProject/Pods/nanopb/pb_encode.c:494-516 | structs that cannot be told apart are written as the same bytes |
| NanopbCodec.ReencodeStable | InstagramProject/Pods/nanopb/pb_encode.c:494-516 | encoding what was decoded from an encoding gives the same bytes |
| NanopbCodec.Transfer | InstagramProject/Pods/nanopb/pb_decode.c:1051-1063 | encoder and decoder through one buffer: sending works exactly if the encoding exists and fits, and what comes back looks like the original exactly if that survives |
| NanopbCodec.ImplicitPresenceExact | InstagramProject/Pods/nanopb/pb_encode.c:332-339 | an instance of RoundTripExact: in a message of one field with implicit presence an unwritten value survives exactly if the declared default is itself not written |
| NanopbFieldIter.OffsetOfHome | InstagramProject/Pods/nanopb/pb_common.c:46-51 | the members of a oneof are at one address |
| NanopbFieldIter.SlotsDisjoint | InstagramProject/Pods/nanopb/pb_common.c:41-72 | data of different slots does not overlap: a later slot starts at or after the end of the last entry of an earlier one |
| NanopbFieldIter.FieldIter.constructor | InstagramProject/Pods/nanopb/pb_common.c:8-18 | the iterator starts at the first entry with the position, address and required index of a fresh walk |
| NanopbFieldIter.FieldIter.Next | InstagramProject/Pods/nanopb/pb_common.c:20-76 | after next, from any position, address and required index are those of a fresh walk to the new entry; at the end it wraps to the first entry and reports it |
| NanopbFieldIter.FieldIter.Find | InstagramProject/Pods/nanopb/pb_common.c:78-95 | from any position: finds an entry with the tag if there is one and stays in place if not; the terminator of an empty description matches tag 0 |
| NanopbOStream.InSequence | InstagramProject/Pods/nanopb/pb_encode.c:101-119 | two writes in a row are one write of both pieces, with the failure of the second |
| NanopbOStream.FillVarint | InstagramProject/Pods/nanopb/pb_encode.c:574-594 | the group loop of pb_encode_varint fills its buffer with the encoding of the value |
| NanopbOStream.OStream.BufWrite | InstagramProject/Pods/nanopb/pb_encode.c:72-82 | the bytes land after what was written, and nothing else in memory changes |
| NanopbOStream.OStream.Write | InstagramProject/Pods/nanopb/pb_encode.c:101-119 | succeeds exactly if the bytes fit; then the stream grew by exactly them; otherwise the error is that the stream is full |
| NanopbOStream.OStream.EncodeVarint | InstagramProject/Pods/nanopb/pb_encode.c:574-594 | writes the varint or fails because it does not fit |
| NanopbOStream.OStream.EncodeTag | InstagramProject/Pods/nanopb/pb_encode.c:635-639 | writes the field key |
| NanopbPbEncode.EncodeSVarint | InstagramProject/Pods/nanopb/pb_encode.c:596-605 | writes the varint of the zig-zag form |
| NanopbPbEncode.EncodeInt | InstagramProject/Pods/nanopb/pb_encode.c:734-808 | writes the encoding of the integer for its type and size; an unsupported size is an error |
| NanopbPbEncode.EncodeString | InstagramProject/Pods/nanopb/pb_encode.c:674-680 | writes length and bytes |
| NanopbPbEncode.StringLength | InstagramProject/Pods/nanopb/pb_encode.c:831-855 | the strnlen loop finds the length up to the first zero or the end of the array |
| NanopbPbEncode.CheckDefaultValue | InstagramProject/Pods/nanopb/pb_encode.c:215-303 | the recursive test computes the implicit-presence predicate |
| NanopbPbEncode.EncodeValue | InstagramProject/Pods/nanopb/pb_encode.c:810-868 | writes the encoding of one value, submessages included |
| NanopbPbEncode.EncodeSubmessage | InstagramProject/Pods/nanopb/pb_encode.c:682-730 | writes length prefix and message; the "submsg size changed" error is unreachable at every depth |
| NanopbPbEncode.EncodeArray | InstagramProject/Pods/nanopb/pb_encode.c:126-211 | writes the array packed or unpacked; more entries than the array holds is an error |
| NanopbPbEncode.EncodePacked | InstagramProject/Pods/nanopb/pb_encode.c:143-182 | the size computed in the first pass is the number of bytes the second pass writes |
| NanopbPbEncode.EncodeBasicField | InstagramProject/Pods/nanopb/pb_encode.c:307-392 | writes key and data of a present field and nothing for an absent one |
| NanopbPbEncode.PbEncode | InstagramProject/Pods/nanopb/pb_encode.c:494-516 | writes the encoding of the message: succeeds exactly if it exists and fits, on a buffer stream and on a sizing stream |
| NanopbPbEncode.GetEncodedSize | InstagramProject/Pods/nanopb/pb_encode.c:533-542 | reports the length of the encoding, exactly when it exists |
| NanopbPbEncode.SizeThenEncode | InstagramProject/Pods/nanopb/pb_encode.c:533-542 | sizing and writing agree: encoding into a buffer succeeds exactly if the reported size fits, fills exactly that many bytes and leaves the rest |
| NanopbIStream.IStream.Read | InstagramProject/Pods/nanopb/pb_decode.c:100-132 | reads exactly the count or fails without passing the end; position plus bytes left is invariant |
| NanopbIStream.IStream.DecodeVarint | InstagramProject/Pods/nanopb/pb_decode.c:250-270 | the loop computes the 64-bit decoder |
| NanopbIStream.IStream.DecodeVarint32 | InstagramProject/Pods/nanopb/pb_decode.c:182-242 | the loop computes the 32-bit decoder, its end-of-stream answer and its 8-bit shift counter |
| NanopbIStream.IStream.DecodeFixed | InstagramProject/Pods/nanopb/pb_decode.c:1254-1286 | reads four or eight little-endian bytes |
| NanopbIStream.IStream.Skip | InstagramProject/Pods/nanopb/pb_decode.c:316-326 | passes exactly the field, or fails |
| NanopbIStream.IStream.DecodeTag | InstagramProject/Pods/nanopb/pb_decode.c:293-314 | reads a key; a zero word ends the message and a missing one is the end of the stream |
| NanopbIStream.IStream.MakeSubstream | InstagramProject/Pods/nanopb/pb_decode.c:367-380 | the child gets exactly the delimited bytes, the parent keeps exactly the rest |
| NanopbIStream.IStream.CloseSubstream | InstagramProject/Pods/nanopb/pb_decode.c:382-395 | however much the child read, the parent stands after prefix and payload |
| NanopbPbDecode.WordStep | InstagramProject/Pods/nanopb/pb_decode.c:959-964 | setting the bit of a required field keeps each 32-bit word exact, also across the word boundary |
| NanopbPbDecode.TrackedExact | InstagramProject/Pods/nanopb/pb_decode.c:1014-1043 | all of the first 64 required fields occurred exactly if every tracked number is marked |
| NanopbPbDecode.WordsExact | InstagramProject/Pods/nanopb/pb_decode.c:1024-1043 | comparing whole words decides whether every tracked required field occurred |
| NanopbPbDecode.CheckRequired | InstagramProject/Pods/nanopb/pb_decode.c:988-1046 | from any iterator position the final check succeeds exactly if each of the first 64 required fields was decoded |
| NanopbPbDecode.DecodeStaticField | InstagramProject/Pods/nanopb/pb_decode.c:401-475 | decodes one field into its slot, by type and multiplicity |
| NanopbPbDecode.DecodeSubmessage | InstagramProject/Pods/nanopb/pb_decode.c:1463-1485 | decodes a submessage through a substream; terminates because the bytes left decrease |
| NanopbPbDecode.DecodePackedArray | InstagramProject/Pods/nanopb/pb_decode.c:427-455 | decodes packed entries until the substream is empty; too many entries are an error |
| NanopbPbDecode.PbDecodeNoInit | InstagramProject/Pods/nanopb/pb_decode.c:901-1049 | computes the decoding function: same success, same struct, same bytes left |
| NanopbPbDecode.PbDecode | InstagramProject/Pods/nanopb/pb_decode.c:1051-1063 | starts from the defaults and computes the decoding function |
| DtlsFragment.ParseInverts | InstagramProject/Pods/BoringSSL-GRPC/ssl/d1_both.cc:459-473 | a fragment is read back as it was written, whatever follows it in the record |
| DtlsFragment.SerializeInverts | InstagramProject/Pods/BoringSSL-GRPC/ssl/d1_both.cc:459-473 | what is parsed was written that way: parsing loses nothing |
| DtlsReassembly.BitRangeBits | InstagramProject/Pods/BoringSSL-GRPC/ssl/d1_both.cc:203-205 | bit_range sets exactly the bits from start to end |
| DtlsReassembly.MarkRange | InstagramProject/Pods/BoringSSL-GRPC/ssl/d1_both.cc:225-237 | marking adds exactly the positions from start to end to the bitmask, within a byte and across bytes |
| DtlsReassembly.ByteComplete | InstagramProject/Pods/BoringSSL-GRPC/ssl/d1_both.cc:239-247 | comparing a byte with its low bits set decides whether those positions are all marked |
| DtlsReassembly.AllMarked | InstagramProject/Pods/BoringSSL-GRPC/ssl/d1_both.cc:239-247 | the completeness loop answers whether every position of the body is marked |
| DtlsReassembly.HmFragment.constructor | InstagramProject/Pods/BoringSSL-GRPC/ssl/d1_both.cc:152-199 | a new message has its header written and no byte received; an empty one is complete at once |
| DtlsReassembly.HmFragment.Mark | InstagramProject/Pods/BoringSSL-GRPC/ssl/d1_both.cc:211-251 | the bitmask denotes exactly the union of the ranges received and is freed exactly when the union is the whole body |
| DtlsReassembly.HmFragment.Deliver | InstagramProject/Pods/BoringSSL-GRPC/ssl/d1_both.cc:397-401 | the content of the message is overwritten by the piece, and what has arrived grows by exactly its range |
| DtlsReceiver.AcceptKeepsRing | InstagramProject/Pods/BoringSSL-GRPC/ssl/d1_both.cc:350-402 | any fragment, whatever it claims, keeps the ring invariant: slot k holds a message congruent to k mod 7 inside the window |
| DtlsReceiver.RecordKeepsRing | InstagramProject/Pods/BoringSSL-GRPC/ssl/d1_both.cc:350-402 | so does any record, whatever its bytes |
| DtlsReceiver.AcceptExactly | InstagramProject/Pods/BoringSSL-GRPC/ssl/d1_both.cc:365-388 | what becomes of a fragment, by its numbers alone: which error it is, whether it is dropped, and that one taken touches no slot but its own |
| DtlsReceiver.AcceptStores | InstagramProject/Pods/BoringSSL-GRPC/ssl/d1_both.cc:387-402 | a fragment that is taken puts exactly its bytes at exactly its places, and changes nothing of a message that is complete |
| DtlsReceiver.SlotIsMessage | InstagramProject/Pods/BoringSSL-GRPC/ssl/d1_both.cc:274-276 | whoever is in the slot of a message inside the window is that message: the assertion never fails |
| DtlsReceiver.NextKeepsRing | InstagramProject/Pods/BoringSSL-GRPC/ssl/d1_both.cc:426-438 | handing a message up keeps the ring invariant, also when the 16-bit counter wraps |
| DtlsReceiver.DtlsRead.Insert | InstagramProject/Pods/BoringSSL-GRPC/ssl/d1_both.cc:287-294 | the first fragment of a message creates it in its slot and leaves the others as they were |
| DtlsReceiver.DtlsRead.GetIncoming | InstagramProject/Pods/BoringSSL-GRPC/ssl/d1_both.cc:265-295 | returns the message of the fragment, or refuses it for the window or for a mismatch and changes nothing |
| DtlsReceiver.DtlsRead.Fill | InstagramProject/Pods/BoringSSL-GRPC/ssl/d1_both.cc:390-402 | merges the piece into the message in its slot, unless that is complete |
| DtlsReceiver.DtlsRead.OpenFragment | InstagramProject/Pods/BoringSSL-GRPC/ssl/d1_both.cc:350-402 | one turn of the loop does to the ring exactly what Accept says, with the same error |
| DtlsReceiver.DtlsRead.OpenRecord | InstagramProject/Pods/BoringSSL-GRPC/ssl/d1_both.cc:342-405 | the plaintext of a handshake record is its fragments in order; an error stops the reading and keeps what came before |
| DtlsReceiver.DtlsRead.GetMessage | InstagramProject/Pods/BoringSSL-GRPC/ssl/d1_both.cc:408-424 | answers exactly if the current message is complete, with its header and all of its body |
| DtlsReceiver.DtlsRead.NextMessage | InstagramProject/Pods/BoringSSL-GRPC/ssl/d1_both.cc:426-438 | frees the slot and moves to the next number |
| DtlsInput.RecordKeepsCurrent | InstagramProject/Pods/BoringSSL-GRPC/ssl/d1_both.cc:387-402 | a message that is complete stays as it is until it is handed up, whatever else arrives |
| DtlsInput.Reader.OpenHandshake | InstagramProject/Pods/BoringSSL-GRPC/ssl/d1_both.cc:297-406 | what every record comes to, by its type and the keys in use: a handshake record goes into the ring, a ChangeCipherSpec is remembered once and only in the clear, application data is an error in the clear and dropped otherwise, anything else is an error; a record that does not open changes nothing |
| DtlsInput.Reader.OpenChangeCipherSpec | InstagramProject/Pods/BoringSSL-GRPC/ssl/d1_both.cc:475-492 | takes a ChangeCipherSpec that was remembered and reads nothing, or else reads a record with every effect that reading it has, and succeeds exactly if it is one |
| DtlsInput.Reader.GetMessage | InstagramProject/Pods/BoringSSL-GRPC/ssl/d1_both.cc:408-424 | hands out the current message exactly if it is complete, and marks it as at hand |
| DtlsInput.Reader.NextMessage | InstagramProject/Pods/BoringSSL-GRPC/ssl/d1_both.cc:426-438 | lets go of the message at hand |
| DtlsInput.Reader.HasUnprocessed | InstagramProject/Pods/BoringSSL-GRPC/ssl/d1_both.cc:440-457 | answers whether a ChangeCipherSpec or any message other than the one at hand is left over |
| DtlsInput.Reader.SetReadState | InstagramProject/Pods/BoringSSL-GRPC/ssl/dtls_method.cc:81-95 | the keys change exactly if nothing is left over in the ring; the new epoch starts with an empty window and holds at most the message at hand |
| DtlsTransport.GenuineAccepted | InstagramProject/Pods/BoringSSL-GRPC/ssl/d1_both.cc:350-388 | a genuine fragment is turned down exactly when it is too long or its number is the read sequence plus 7; the number plus 7 is an error, not ignored |
| DtlsTransport.RecordUnfolds | InstagramProject/Pods/BoringSSL-GRPC/ssl/d1_both.cc:342-349 | a record of several fragments is read as those fragments |
| DtlsTransport.StepKeepsInv | InstagramProject/Pods/BoringSSL-GRPC/ssl/d1_both.cc:297-438 | every genuine record and every request for a message keeps what is held and handed up in agreement with what was sent |
| DtlsTransport.RingAlwaysOk | InstagramProject/Pods/BoringSSL-GRPC/ssl/d1_both.cc:297-438 | whatever bytes the records consist of and of whatever epochs they are, after every run the ring invariant holds and the read sequence has counted the messages handed up |
| DtlsTransport.NothingAfterError | InstagramProject/Pods/BoringSSL-GRPC/ssl/d1_both.cc:297-406 | after an error no record is looked at any more |
| DtlsTransport.RecordIsFed | InstagramProject/Pods/BoringSSL-GRPC/ssl/d1_both.cc:342-405 | a record in which something is wrong ends the connection, and the fragments before it stay |
| DtlsTransport.RunIsFeedAll | InstagramProject/Pods/BoringSSL-GRPC/ssl/d1_both.cc:342-406 | a run of genuine records is a run of raw plaintexts |
| DtlsTransport.RunKeepsInv | InstagramProject/Pods/BoringSSL-GRPC/ssl/d1_both.cc:297-438 | the agreement holds over every run of genuine records |
| DtlsTransport.OnlySentMessagesHandedUp | InstagramProject/Pods/BoringSSL-GRPC/ssl/d1_both.cc:350-438 | in every run with loss, repetition and reordering, what is handed up is a prefix of what was sent, byte for byte, each message once |
| DtlsTransport.RunExact | InstagramProject/Pods/BoringSSL-GRPC/ssl/d1_both.cc:350-402 | in every run of a flight, each slot still wanted holds exactly the union of the ranges that arrived |
| DtlsTransport.CompleteExactlyWhenArrived | InstagramProject/Pods/BoringSSL-GRPC/ssl/d1_both.cc:350-402 | within a flight of at most seven messages nothing genuine is turned down, and a message is complete exactly when all of it has arrived |
| DtlsTransport.Drain | InstagramProject/Pods/BoringSSL-GRPC/ssl/d1_both.cc:408-438 | complete messages are handed up one after the other |
| DtlsTransport.FlightDeliverable | InstagramProject/Pods/BoringSSL-GRPC/ssl/d1_both.cc:350-438 | once every range of a flight has arrived at least once, asking for the messages hands up the whole flight |
| DtlsReplay.ToU64Be | InstagramProject/Pods/BoringSSL-GRPC/ssl/dtls_record.cc:128-136 | the shift-and-or loop computes the big-endian value |
| DtlsReplay.Bitmap.ShouldDiscard | InstagramProject/Pods/BoringSSL-GRPC/ssl/dtls_record.cc:140-150 | a record number is turned away exactly if it was recorded or is 64 or more behind a recorded one |
| DtlsReplay.Bitmap.Record | InstagramProject/Pods/BoringSSL-GRPC/ssl/dtls_record.cc:155-175 | bit i stands for maximum minus i exactly if that number was recorded; the set grows by exactly the number |
| DtlsReplay.ThroughExactly | InstagramProject/Pods/BoringSSL-GRPC/ssl/dtls_record.cc:140-175 | over any run from an empty window a number gets through exactly if it first arrives less than 64 behind everything before it |
| DtlsReplay.ThroughOnce | InstagramProject/Pods/BoringSSL-GRPC/ssl/dtls_record.cc:140-175 | over any run no number gets through twice |
| DtlsReplay.GetsThroughExactly | InstagramProject/Pods/BoringSSL-GRPC/ssl/dtls_record.cc:140-175 | an arrival gets through exactly if nothing equal to it and nothing 64 or more ahead of it has come before, whatever became of the earlier arrivals |
| DtlsReplay.LetThrough | InstagramProject/Pods/BoringSSL-GRPC/ssl/dtls_record.cc:128-175 | the bitmap itself over any sequence of records: each is let through exactly by that rule |
| DtlsReplay.RecordNumber | InstagramProject/Pods/BoringSSL-GRPC/ssl/dtls_record.cc:225-227 | the eight header bytes are the epoch in the top 16 bits and the 48-bit sequence number |
| DtlsReplay.ParsedFields | InstagramProject/Pods/BoringSSL-GRPC/ssl/dtls_record.cc:189-218 | what the parser reads are the bytes of the thirteen-byte header, and it wants the whole record of a legal length |
| DtlsReplay.RecordReader.OpenRecord | InstagramProject/Pods/BoringSSL-GRPC/ssl/dtls_record.cc:177-272 | a record is accepted exactly if it is well-formed, of this version and epoch, no replay, decrypts, and is not too long; its outcome and the bytes taken off the input are exact in each case; the tests are on the bytes of the header, with any DTLS version in the clear and the version in use under keys; only an accepted record has its number recorded; no number is accepted twice until the epoch wraps |
| DtlsReplay.RecordReader.SetReadState | InstagramProject/Pods/BoringSSL-GRPC/ssl/dtls_method.cc:81-95 | the part of the change of keys that concerns records: a new epoch with an empty window, unless it is refused |
| DtlsRecords.SequenceUpdate | InstagramProject/Pods/BoringSSL-GRPC/ssl/tls_record.cc:154-163 | counts up in place as a big-endian number and fails exactly when it comes round to zero; the bytes before it stay |
| DtlsRecords.Carry | InstagramProject/Pods/BoringSSL-GRPC/ssl/tls_record.cc:154-163 | adding one behind a run of 0xff bytes |
| DtlsRecords.HeaderInverts | InstagramProject/Pods/BoringSSL-GRPC/ssl/dtls_record.cc:318-346 | the receiver reads off a record the epoch and number under which it was sealed |
| DtlsRecords.HeaderLabels | InstagramProject/Pods/BoringSSL-GRPC/ssl/dtls_record.cc:318-346 | the bytes of a sealed record say its type, version, epoch, number and length |
| DtlsRecords.DistinctToReceiver | InstagramProject/Pods/BoringSSL-GRPC/ssl/dtls_record.cc:225-228 | records with different epoch or number look different to the replay window |
| DtlsRecords.GrowingIsDistinct | InstagramProject/Pods/BoringSSL-GRPC/ssl/dtls_record.cc:294-351 | numbers that grow within each epoch are pairwise distinct with their epochs |
| DtlsRecords.RecordWriter.SealRecord | InstagramProject/Pods/BoringSSL-GRPC/ssl/dtls_record.cc:294-351 | a sealed record carries the next number of its epoch; until a counter comes round the numbers of each epoch only grow, so that no epoch and number is used twice; sealing fails only if the cipher does, a counter has come round, or there is no room |
| DtlsRecords.RecordWriter.SetWriteState | InstagramProject/Pods/BoringSSL-GRPC/ssl/dtls_method.cc:97-107 | the current counter becomes the previous epoch's and a new one starts at zero; numbers still only grow |
| DtlsFlight.AdvanceIncreases | InstagramProject/Pods/BoringSSL-GRPC/ssl/d1_both.cc:722-733 | every record of a flight moves (written, offset) forward in lexicographic order |
| DtlsFlight.WalkConcat | InstagramProject/Pods/BoringSSL-GRPC/ssl/d1_both.cc:796-815 | going on from where sending stands continues the same walk |
| DtlsFlight.AdvanceDone | InstagramProject/Pods/BoringSSL-GRPC/ssl/d1_both.cc:690-733 | each record adds exactly its piece to what was sent of its message |
| DtlsFlight.Partition | InstagramProject/Pods/BoringSSL-GRPC/ssl/d1_both.cc:644-780 | the pieces of each message follow each other without gap or overlap and make up the part that was passed; each ChangeCipherSpec passed was sent once |
| DtlsFlight.Contiguous | InstagramProject/Pods/BoringSSL-GRPC/ssl/d1_both.cc:709-717 | each piece starts where the earlier pieces of its message end |
| DtlsFlight.WholeFlightSent | InstagramProject/Pods/BoringSSL-GRPC/ssl/d1_both.cc:782-827 | a completed flight carries every message exactly and every ChangeCipherSpec once |
| DtlsFlight.TakenOrLost | InstagramProject/Pods/BoringSSL-GRPC/ssl/d1_both.cc:782-827 | however writing and sealing fail: of every message, what lies before the position was either taken by the network or sealed into a packet that was given up, and nothing is both |
| DtlsFlight.NothingLostExactly | InstagramProject/Pods/BoringSSL-GRPC/ssl/d1_both.cc:782-827 | what the network took leads exactly to where sending stands if and only if no packet was given up with records in it |
| DtlsFlight.WholeFlightExactly | InstagramProject/Pods/BoringSSL-GRPC/ssl/d1_both.cc:782-834 | a flight that came to its end is whole on the wire, every message with its body and every ChangeCipherSpec, if and only if no packet was given up with records in it |
| DtlsFlight.FlushMissesMessage | InstagramProject/Pods/BoringSSL-GRPC/ssl/d1_both.cc:751-753 | two messages; sealing the second into the packet of the first fails, the next flush succeeds, and the first message is missing |
| DtlsFlight.ReplayGrows | InstagramProject/Pods/BoringSSL-GRPC/ssl/d1_both.cc:555-594 | adding a message changes nothing about what was sent and lost |
| DtlsSender.SealedGenuine | InstagramProject/Pods/BoringSSL-GRPC/ssl/d1_both.cc:709-733 | every handshake record sealed is a piece of one of the messages |
| DtlsSender.FlightSender.AddOutgoing | InstagramProject/Pods/BoringSSL-GRPC/ssl/d1_both.cc:555-594 | adds to the flight or starts a new one after a flushed one; refuses an eighth message |
| DtlsSender.FlightSender.AddMessage | InstagramProject/Pods/BoringSSL-GRPC/ssl/d1_both.cc:511-594 | the header assembled and patched is that of one whole fragment with the next message number, and that is what is added to the transcript |
| DtlsSender.FlightSender.AddChangeCipherSpec | InstagramProject/Pods/BoringSSL-GRPC/ssl/d1_both.cc:600-602 | a ChangeCipherSpec goes into the flight under the current epoch, is no message and is not hashed |
| DtlsSender.FlightSender.SealUnit | InstagramProject/Pods/BoringSSL-GRPC/ssl/d1_both.cc:666-722 | seals one record of the flight under the epoch of its message and logs it |
| DtlsSender.FlightSender.SealPiece | InstagramProject/Pods/BoringSSL-GRPC/ssl/d1_both.cc:695-733 | the piece is as large as the room allows, and the message is finished only if all of the rest fits |
| DtlsSender.FlightSender.SealNextMessage | InstagramProject/Pods/BoringSSL-GRPC/ssl/d1_both.cc:644-734 | the record sealed is the next of the walk, with the type, the epoch and the fragment of its message, and fits; no progress is reported exactly if the message can be sealed and the room is too small for one body byte; messages of the current epoch and of the one before are sealed and fail only if the cipher does, a counter has come round or the room is absurd, all others are an error; the parse failures are unreachable |
| DtlsSender.FlightSender.SealNextPacket | InstagramProject/Pods/BoringSSL-GRPC/ssl/d1_both.cc:739-780 | seals the next records one by one in their order, and the position moves by exactly those, also when sealing fails in the middle; a packet is a non-empty run of them, fits, and has no room for one more; the MTU is reported too small only if not even one record fits, and then nothing moves |
| DtlsSender.FlightSender.UpdateMtu | InstagramProject/Pods/BoringSSL-GRPC/ssl/d1_both.cc:615-632 | the MTU is at least the minimum afterwards exactly if it was before or may be queried; a queried value is used if it is in range and the default otherwise |
| DtlsSender.FlightSender.SendPacket | InstagramProject/Pods/BoringSSL-GRPC/ssl/d1_both.cc:793-816 | a packet is taken, refused and taken back, or given up, and the account of taken and lost records says which |
| DtlsSender.FlightSender.SendFlight | InstagramProject/Pods/BoringSSL-GRPC/ssl/d1_both.cc:782-827 | however often writing fails and resumes, what the network took is the part of the flight up to where sending stands exactly if nothing is lost, and only a failed sealing loses records, exactly those of the packet given up; packets keep within the MTU; the loop ends; it stops early only if the network, the cipher or the MTU fails it |
| DtlsSender.FlightSender.FlushFlight | InstagramProject/Pods/BoringSSL-GRPC/ssl/d1_both.cc:829-834 | a flush that succeeds has put the whole flight on the wire if and only if nothing of the flight was lost before the call |
| DtlsSender.FlightSender.Retransmit | InstagramProject/Pods/BoringSSL-GRPC/ssl/d1_both.cc:836-845 | a successful retransmission is the whole flight again from its start |
| DtlsEndToEnd.PiecesGenuine | InstagramProject/Pods/BoringSSL-GRPC/ssl/d1_both.cc:709-717 | under any MTU the records carry pieces of the sender's messages and nothing else |
| DtlsEndToEnd.PiecesCover | InstagramProject/Pods/BoringSSL-GRPC/ssl/d1_both.cc:644-780 | the pieces sent so far cover of each message exactly the part that was passed |
| DtlsEndToEnd.CompleteSendingArrives | InstagramProject/Pods/BoringSSL-GRPC/ssl/d1_both.cc:644-845 | if every piece of one complete sending arrived at some time, everything has arrived |
| DtlsEndToEnd.FlightGetsThrough | InstagramProject/Pods/BoringSSL-GRPC/ssl/d1_both.cc:350-845 | retransmission under any MTU, a network that loses, repeats and reorders, and a receiver at the start of the flight; if every piece of some complete sending got through, the whole flight is handed up, and never anything but the sender's messages in order |
| DtlsDelivery.BytesAsLogged | InstagramProject/Pods/BoringSSL-GRPC/ssl/dtls_record.cc:177-259 | on its bytes a sealed record is accepted exactly if it has the epoch, the version and a legal length and its logged number is not stale |
| DtlsDelivery.GetsInExactly | InstagramProject/Pods/BoringSSL-GRPC/ssl/dtls_record.cc:225-259 | in any run of any epoch a sealed record passes the reader exactly if it has not come before and no record sealed 64 or more after it has: it is never taken for a replay of another, retransmissions included |
| DtlsDelivery.LatestGetsIn | InstagramProject/Pods/BoringSSL-GRPC/ssl/dtls_record.cc:225-259 | a record sealed after all those that have arrived, such as a retransmission, gets in |
| DtlsDelivery.SendingArrives | InstagramProject/Pods/BoringSSL-GRPC/ssl/d1_both.cc:644-845 | if every record of a sending gets past the window, every piece of it reaches the ring |
| DtlsDelivery.FlightArrives | InstagramProject/Pods/BoringSSL-GRPC/ssl/d1_both.cc:350-845 | end to end, from the sender as it is through the replay window to the ring: the sender is at the end of its flight and lost nothing, the network brought its records in any order and number, and every record of the sending got in; then the whole flight is handed up, and never anything but the sender's messages in order |
| DtlsDelivery.BringOne | InstagramProject/Pods/BoringSSL-GRPC/ssl/d1_both.cc:297-406 | one record through the receiving code, on its bytes: the window and the ring change as the run says |
| DtlsDelivery.AskOne | InstagramProject/Pods/BoringSSL-GRPC/ssl/d1_both.cc:408-438 | getting a message and going past it hands up what the run says |
| DtlsDelivery.Receive | InstagramProject/Pods/BoringSSL-GRPC/ssl/d1_both.cc:297-438 | the receiving code from its start over everything the network brings and the handshake asks: the ring, the messages handed up and whether the connection lives are those of the run that FlightArrives is about |
| Refcount.LockedCount.Increment | InstagramProject/Pods/BoringSSL-GRPC/crypto/refcount_lock.c:29-35 | adds one unless saturated |
| Refcount.LockedCount.DecAndTestZero | InstagramProject/Pods/BoringSSL-GRPC/crypto/refcount_lock.c:37-51 | aborts at zero, keeps the saturated value, and otherwise takes one off and tells whether zero is reached |
| Refcount.StepKeepsOk | InstagramProject/Pods/BoringSSL-GRPC/crypto/refcount_c11.c:37-65 | no step of any interleaving wraps the counter or leaves saturation |
| Refcount.StepRefinesLocked | InstagramProject/Pods/BoringSSL-GRPC/crypto/refcount_c11.c:37-65 | every step, also with a spurious failure, does nothing to the counter or exactly one locked call |
| Refcount.Linearizes | InstagramProject/Pods/BoringSSL-GRPC/crypto/refcount_c11.c:37-65 | every interleaving of any number of threads is a sequence of locked calls with the same results and the same counter |
| Refcount.ReplayedCall | InstagramProject/Pods/BoringSSL-GRPC/crypto/refcount_lock.c:28-51 | each call of the log, made on the locked counter at its turn, ends as the log says |
| Refcount.Serially | InstagramProject/Pods/BoringSSL-GRPC/crypto/refcount_lock.c:28-51 | the calls of any interleaving, run one after the other on the locked counter object, give the same answers and the same count |
| Refcount.OneEffectPerCall | InstagramProject/Pods/BoringSSL-GRPC/crypto/refcount_c11.c:37-65 | each call takes effect exactly once, after it is made and before it answers, with the answer it gives |
| Refcount.SaturationAbsorbs | InstagramProject/Pods/BoringSSL-GRPC/crypto/refcount_c11.c:41-46 | from saturation on nothing is counted and no release is the last |
| RefcountHolders.DoKeepsSound | InstagramProject/Pods/BoringSSL-GRPC/crypto/refcount_c11.c:49-65 | each step of threads that keep to the rules keeps the counter equal to the references held, until saturation |
| RefcountHolders.HoldersMayGive | InstagramProject/Pods/BoringSSL-GRPC/crypto/refcount_c11.c:37-65 | a holder may pass a reference to another thread: one less here, one more there |
| RefcountHolders.CanBeReleased | InstagramProject/Pods/BoringSSL-GRPC/crypto/refcount_c11.c:50-65 | the object can always be brought to its end: there is a run in which everybody releases everything and one release is told it was the last |
| RefcountHolders.TotalZero | InstagramProject/Pods/BoringSSL-GRPC/crypto/refcount_c11.c:37-65 | the references counted are none exactly if every thread has given up what it held |
| RefcountHolders.HoldersMay | InstagramProject/Pods/BoringSSL-GRPC/crypto/refcount_c11.c:37-65 | a holder may take and release references at any time, nobody else may, and a call once made goes on |
| RefcountHolders.LastReleaseOnce | InstagramProject/Pods/BoringSSL-GRPC/crypto/refcount_c11.c:49-65 | if threads take and release only what they hold, no call aborts, and exactly one release is told it was the last if all have been released, none otherwise and none after saturation |
| TlsBuffer.SSLBuffer.EnsureCap | InstagramProject/Pods/BoringSSL-GRPC/ssl/ssl_buffer.cc:47-81 | makes room without touching the contents; refuses more than 0xffff |
| TlsBuffer.SSLBuffer.Write | InstagramProject/Pods/BoringSSL-GRPC/ssl/ssl_buffer.cc:83-88 | appends the bytes |
| TlsBuffer.SSLBuffer.Consume | InstagramProject/Pods/BoringSSL-GRPC/ssl/ssl_buffer.cc:90-97 | takes exactly so many bytes off the front |
| TlsWrite.Writer.PushBuffer | InstagramProject/Pods/BoringSSL-GRPC/ssl/ssl_buffer.cc:242-249 | whatever part the transport takes moves from the buffer to the wire |
| TlsWrite.Writer.FlushBuffer | InstagramProject/Pods/BoringSSL-GRPC/ssl/ssl_buffer.cc:239-252 | succeeds only with an empty buffer, and loses and repeats nothing when it is interrupted |
| TlsWrite.Writer.FlushFlight | InstagramProject/Pods/BoringSSL-GRPC/ssl/s3_both.cc:231-279 | buffer before flight, in any parts, resumable; it succeeds exactly if writing is not shut down, the flight has a legal length, the transport takes everything and its flush succeeds, and then all sealed bytes are on the wire in sealing order |
| TlsWrite.Writer.AddRecordToFlight | InstagramProject/Pods/BoringSSL-GRPC/ssl/s3_both.cc:135-165 | the record is sealed behind everything that waits, or the cipher fails and nothing changes |
| TlsWrite.Writer.AddMessage | InstagramProject/Pods/BoringSSL-GRPC/ssl/s3_both.cc:184-205 | the message is sealed in records that concatenate to it, all of the fragment size but the last; it fails only if the cipher does |
| TlsWrite.Writer.WritePending | InstagramProject/Pods/BoringSSL-GRPC/ssl/s3_pkt.cc:202-218 | goes on with the waiting record and succeeds exactly if the transport does; a shorter retry, another buffer or another type is refused and writes nothing |
| TlsWrite.Writer.MoveFlight | InstagramProject/Pods/BoringSSL-GRPC/ssl/s3_pkt.cc:256-268 | the unflushed flight goes in front of the new record |
| TlsWrite.Writer.SealAndRemember | InstagramProject/Pods/BoringSSL-GRPC/ssl/s3_pkt.cc:250-284 | seals one record behind the flight that waits and remembers the arguments; it fails only for lack of room, memory or a cipher |
| TlsWrite.Writer.DoWrite | InstagramProject/Pods/BoringSSL-GRPC/ssl/s3_pkt.cc:221-289 | seals one record of the type and data, or goes on with the waiting one and seals nothing; it succeeds exactly if the call is a legal one and transport, cipher and allocator do not fail, and then the record has left |
| TlsWrite.Writer.DispatchAlert | InstagramProject/Pods/BoringSSL-GRPC/ssl/s3_pkt.cc:405-423 | an alert cannot be written while a record of another type waits, even if the bytes of that record have left |
| TlsWrite.Writer.WriteChunk | InstagramProject/Pods/BoringSSL-GRPC/ssl/s3_pkt.cc:163-199 | one turn of the loop keeps the account of sealed application bytes |
| TlsWrite.Writer.WriteAppData | InstagramProject/Pods/BoringSSL-GRPC/ssl/s3_pkt.cc:129-200 | when the caller repeats its bytes, each is sealed exactly once and in order over any number of interrupted calls; success reports exactly the bytes sealed, and a legal call succeeds unless transport, cipher or allocator fail; every record is full but perhaps the last, and with partial writes a call reports after its first one; a length below what was sent loses the account |
| CipherChoice.ChooseAmong | InstagramProject/Pods/BoringSSL-GRPC/ssl/handshake_server.cc:385-423 | one pass returns the cipher that the other side lists first within the first closed group with a usable shared cipher, and none exactly if no closed group has one |
| CipherChoice.BestIsChosen | InstagramProject/Pods/BoringSSL-GRPC/ssl/handshake_server.cc:398-420 | the least place found in the first group with a candidate is the specified choice |
| CipherChoice.ChoiceUnique | InstagramProject/Pods/BoringSSL-GRPC/ssl/internal.h:1860-1888 | the specification determines the cipher |
| CipherChoice.ChosenExactly | InstagramProject/Pods/BoringSSL-GRPC/ssl/handshake_server.cc:385-423 | some cipher meets the specification of the choice exactly if a usable shared cipher is in a group that ends |
| CipherChoice.OpenGroupIgnored | InstagramProject/Pods/BoringSSL-GRPC/ssl/handshake_server.cc:416-423 | a list that leaves its last group open: a usable shared cipher exists and none is chosen |
| CipherChoice.ByFields | InstagramProject/Pods/BoringSSL-GRPC/ssl/handshake_server.cc:392-397 | a candidate is in both lists, its versions include the one in use, and its key exchange and authentication meet the masks |
| CipherChoice.ChooseCipher | InstagramProject/Pods/BoringSSL-GRPC/ssl/handshake_server.cc:357-424 | under server preference with a closed last group none is chosen exactly if no usable cipher is shared; under client preference the client's first usable shared cipher is chosen; what is chosen is in both lists and right in version, key exchange and authentication |
| HandshakeScript.SayOnward | InstagramProject/Pods/BoringSSL-GRPC/ssl/handshake.cc:176-184 | saying the next thing of the script keeps the conversation |
| HandshakeScript.TakeOnward | InstagramProject/Pods/BoringSSL-GRPC/ssl/s3_both.cc:562-583 | going past the next message keeps the conversation, and that message is the next of the script |
| HandshakeScript.RightTranscript | InstagramProject/Pods/BoringSSL-GRPC/ssl/handshake.cc:431-476 | a Finished made or checked at its place protects exactly what was said before it |
| HandshakeClient.FinishedOnward | InstagramProject/Pods/BoringSSL-GRPC/ssl/handshake_client.cc:1457-1512 | the client's last flight is ChangeCipherSpec, the negotiated messages and a Finished over its transcript |
| HandshakeClient.FinishedAccepted | InstagramProject/Pods/BoringSSL-GRPC/ssl/handshake_client.cc:1658-1672 | the server's Finished matches the client's transcript |
| HandshakeClient.WorkOk | InstagramProject/Pods/BoringSSL-GRPC/ssl/handshake_client.cc:1707-1789 | each turn of the client does the next thing of the script, meets nothing unexpected, and comes closer to the end unless it waits |
| HandshakeClient.Handshake.Drive | InstagramProject/Pods/BoringSSL-GRPC/ssl/handshake_client.cc:1707-1789 | the loop ends, waiting or done, further along the same script |
| HandshakeServer.FinishedOnward | InstagramProject/Pods/BoringSSL-GRPC/ssl/handshake_server.cc:1463-1509 | the server's last flight is its ticket, ChangeCipherSpec and a Finished over its transcript |
| HandshakeServer.FinishedAccepted | InstagramProject/Pods/BoringSSL-GRPC/ssl/handshake_server.cc:1439-1461 | the client's Finished matches the server's transcript |
| HandshakeServer.WorkOk | InstagramProject/Pods/BoringSSL-GRPC/ssl/handshake_server.cc:1539-1621 | each turn of the server does the next thing of the script, meets nothing unexpected, and comes closer to the end unless it waits |
| HandshakeServer.Handshake.Drive | InstagramProject/Pods/BoringSSL-GRPC/ssl/handshake_server.cc:1539-1621 | the loop ends, waiting or done, further along the same script |
| HandshakePair.PushOnward | InstagramProject/Pods/BoringSSL-GRPC/ssl/handshake.cc:501-507 | sending any part of a flight keeps what is still to come |
| HandshakePair.Pulled | InstagramProject/Pods/BoringSSL-GRPC/ssl/handshake.cc:509-548 | the record read next has the kind and the keys that the reader waits for |
| HandshakePair.StepKeepsInv | InstagramProject/Pods/BoringSSL-GRPC/ssl/handshake.cc:491-628 | whatever either side does next, both stay on the script |
| HandshakePair.NothingUnexpected | InstagramProject/Pods/BoringSSL-GRPC/ssl/handshake.cc:491-628 | under any scheduling, any partial sending and any retries neither side ever fails: no unexpected message or record, no wrong Finished, no leftover data at a key change |
| HandshakePair.SamePoint | InstagramProject/Pods/BoringSSL-GRPC/ssl/handshake.cc:491-628 | with nothing on its way both sides stand at the same point of the conversation |
| HandshakePair.NeverBothIdle | InstagramProject/Pods/BoringSSL-GRPC/ssl/handshake.cc:491-628 | unless both are done, somebody can go on |
| HandshakePair.StepCounts | InstagramProject/Pods/BoringSSL-GRPC/ssl/handshake.cc:491-628 | whatever is done that is not a retry brings the end closer or changes nothing |
| HandshakePair.NeverStuck | InstagramProject/Pods/BoringSSL-GRPC/ssl/handshake.cc:491-628 | after any run, unless both are done there is a move that changes something and is no retry: the two never both wait |
| HandshakePair.Completes | InstagramProject/Pods/BoringSSL-GRPC/ssl/handshake.cc:491-628 | after any run the two can go on and both finish |
| HandshakePair.RunsEnd | InstagramProject/Pods/BoringSSL-GRPC/ssl/handshake.cc:491-628 | every run ends: at most 3902 moves that change something, and one more for each retry |
| HandshakePair.RunsAreShort | InstagramProject/Pods/BoringSSL-GRPC/ssl/handshake.cc:491-628 | a run in which every move changes something has at most 3902 moves and two for each time an operation asks to be called again |
| HandshakePair.Agreement | InstagramProject/Pods/BoringSSL-GRPC/ssl/handshake.cc:380-476 | when both are done, both have the same transcript, with exactly one Finished from each side, sent once and verified once |
| HandshakeSoundness.RerouteStatus | InstagramProject/Pods/BoringSSL-GRPC/ssl/handshake_client.cc:821-869 | whether the server staples a response does not change what was said before |
| HandshakeSoundness.RerouteKey | InstagramProject/Pods/BoringSSL-GRPC/ssl/handshake_client.cc:891-1071 | neither does its key exchange message |
| HandshakeSoundness.RerouteRequest | InstagramProject/Pods/BoringSSL-GRPC/ssl/handshake_client.cc:1073-1143 | nor its certificate request |
| HandshakeSoundness.ClientTurn | InstagramProject/Pods/BoringSSL-GRPC/ssl/handshake_client.cc:1707-1789 | whatever messages have arrived, a turn of the client stays on a legal conversation or fails |
| HandshakeSoundness.ClientGets | InstagramProject/Pods/BoringSSL-GRPC/ssl/handshake.cc:509-548 | a record of the wrong kind, or under the wrong keys, fails; any other leaves the client on its conversation |
| HandshakeSoundness.ClientSound | InstagramProject/Pods/BoringSSL-GRPC/ssl/handshake_client.cc:385-1789 | against a server that sends any records with any messages at any time: a client that has not failed has been through a beginning of a legal conversation, and one that is done through all of one; the stapled response is only expected with certificate ciphers (t1_lib.cc:1051-1064) |
| HandshakeSoundness.ServerTurn | InstagramProject/Pods/BoringSSL-GRPC/ssl/handshake_server.cc:1539-1621 | whatever messages have arrived, a turn of the server stays on a legal conversation or fails |
| HandshakeSoundness.ServerSound | InstagramProject/Pods/BoringSSL-GRPC/ssl/handshake_server.cc:426-1621 | against a client that sends anything at any time: a server that has not failed has been through a beginning of a legal conversation, and one that is done through all of one |
| HandshakeAlone.ClientAlone | InstagramProject/Pods/BoringSSL-GRPC/ssl/handshake_client.cc:1707-1789 | whatever becomes of a client in a handshake with the server machine can become of it with an arbitrary peer, so what is proved of arbitrary peers covers those runs |
| HandshakeAlone.ServerAlone | InstagramProject/Pods/BoringSSL-GRPC/ssl/handshake_server.cc:1539-1621 | the same for the server |
| HandshakeAlone.ClientCanFinish | InstagramProject/Pods/BoringSSL-GRPC/ssl/handshake_client.cc:1707-1789 | for every combination of options there is a peer with which the client finishes |
| HandshakeAlone.ServerCanFinish | InstagramProject/Pods/BoringSSL-GRPC/ssl/handshake_server.cc:1539-1621 | for every combination of options there is a peer with which the server finishes |
| HandshakeFlights.ScriptIsConversation | InstagramProject/Pods/BoringSSL-GRPC/ssl/handshake_server.cc:1539-1621 | the script of both machines is the conversation of section 7.3 of RFC 5246, written out for each kind of cipher, full and resumed, with every option at its place |
| HandshakeFlights.PairConversation | InstagramProject/Pods/BoringSSL-GRPC/ssl/handshake.cc:491-628 | when both sides are done, both have been through exactly this conversation |
| HandshakeFlights.ClientConversation | InstagramProject/Pods/BoringSSL-GRPC/ssl/handshake_client.cc:385-1789 | a client that is done against any peer has been through such a conversation: it has seen the server's certificate with RSA and ECDHE, the key exchange with ECDHE and ECDHE_PSK, and always the Finished |
| HandshakeFlights.ServerConversation | InstagramProject/Pods/BoringSSL-GRPC/ssl/handshake_server.cc:426-1621 | a server that is done against any peer has been through such a conversation, with the client's key exchange, its Finished, and its certificate message if it was asked |
| HandshakeFlights.KindsAreMessages | InstagramProject/Pods/BoringSSL-GRPC/ssl/handshake.cc:431-476 | the transcript is all the messages said so far, in order |
| HandshakeFlights.FalseStart | InstagramProject/Pods/BoringSSL-GRPC/ssl/handshake_client.cc:1514-1563 | a client that returns early, against any peer, has false start agreed on in a full handshake and all of its own messages sent; only the server's last flight is left |
| HandshakeFlights.ReturnsEarly | InstagramProject/Pods/BoringSSL-GRPC/ssl/handshake_client.cc:1538-1563 | the only turn that returns early is the one after the client's last flight, and it does so exactly if false start is agreed on and the session is new |
| HandshakeFlights.ClientAsksAgain | InstagramProject/Pods/BoringSSL-GRPC/ssl/handshake_client.cc:871-1510 | the client waits for the application exactly in verifying a chain, choosing a certificate, signing, and the Channel ID key |
| HandshakeFlights.ServerAsksAgain | InstagramProject/Pods/BoringSSL-GRPC/ssl/handshake_server.cc:432-1266 | the server waits for it exactly in its callbacks, verifying a chain, signing with an ECDHE cipher and decrypting with an RSA one |
| HandshakeFlights.NothingLostByAsking | InstagramProject/Pods/BoringSSL-GRPC/ssl/handshake_server.cc:432-1266 | a side that waits for the application has said and taken nothing in that turn |
| HandshakeFlights.ClientChecksFinished | InstagramProject/Pods/BoringSSL-GRPC/ssl/handshake_client.cc:1658-1672 | the client takes the server's Finished exactly if it protects all the messages so far |
| HandshakeFlights.ServerChecksFinished | InstagramProject/Pods/BoringSSL-GRPC/ssl/handshake_server.cc:1439-1461 | the server takes the client's Finished exactly if it protects all the messages so far |
| HandshakeFlights.ClientWantsCertificate | InstagramProject/Pods/BoringSSL-GRPC/ssl/handshake_client.cc:771-819 | with a certificate cipher anything but a certificate with a chain is an error |
| HandshakeFlights.CertificateMustSign | InstagramProject/Pods/BoringSSL-GRPC/ssl/handshake_server.cc:946-1000 | a client that sends a certificate has to sign next, and one that sends an empty one is not asked to |
| HandshakeFlights.PullIsFeed | InstagramProject/Pods/BoringSSL-GRPC/ssl/handshake.cc:509-548 | a side of the pair reads a record just as it would read it from any peer |

## Left out

- Swift sources, Firebase: user interface and network clients, nothing to prove.
- nanopb callbacks, extensions, pointer fields (`PB_ENABLE_MALLOC`), `PB_WITHOUT_64BIT`, fixed-count arrays and custom stream callbacks: foreign calls or other configurations.
- nanopb memory layout: a struct is modelled by the values of its slots; array entries beyond the count, characters after a string's terminator and the content of an unset oneof are not part of it. `NanopbFieldIter` covers the address arithmetic.
- nanopb error strings: the encoder's first error is told apart by kind, the decoder's errors are not.
- NanopbRoundTrip.RoundTripExact: for field numbers below 2^29, the limit of the language, and for encodings below 2^63 bytes; structs that survive need no bound (`RoundTrip`).
- NanopbReencode.AcceptedReencodes: for declared defaults that are values of their fields (`Sane`), as the generator writes them.
- NanopbPbEncode.SizeThenEncode: `size_t` is unbounded in the sizing loops, and no submessage is to reach 2^64 bytes (`SizesFitMsg`).
- NanopbMerge.ConcatIsMerge: when the whole input fails nothing is said about the struct left behind.
- DTLS and TLS cryptography: sealing and opening are arbitrary operations that may fail and that stay within the cipher's overhead.
- DtlsReplay.RecordReader.OpenRecord: what an alert does is not modelled; `DtlsInput.Reader.OpenHandshake` takes it as a parameter.
- DtlsTransport.FlightDeliverable: for flights of at most seven messages in epoch 0 and fewer than 65536 messages in all; in epoch 1 the code accepts only the current message.
- DtlsRecords.RecordWriter.SealRecord: for input and output that do not overlap; the aliasing test is not modelled.
- DtlsDelivery.FlightArrives: for a flight sent in epoch 0 to a reader in epoch 0, where records are in the clear; records that the sender did not seal are taken to be dropped.
- DTLS timers, HelloVerifyRequest and the message callbacks.
- TlsWrite.Writer.WriteAppData: without early data; buffers are addresses and contents, so a caller that changes bytes between retries is seen only through its address.
- TlsWrite.Writer.AddRecordToFlight: for the types its callers pass, which never include application data.
- CipherChoice.ChooseCipher: the client's list is already parsed; a list that does not parse gives no cipher.
- Handshake machines: stepped as functions on the state, because the theorem is about their interleaving; message bodies other than certificate presence and Finished are opaque, so parse errors, failing callbacks and failing cryptography do not occur. A server that insists on a client certificate, SSL 3.0, renegotiation, handoff and TLS 1.3 are not modelled.
- HandshakePair.NothingUnexpected: each message is one record on a reliable channel; splitting a message over records is the subject of `TlsWrite` and of code (`parse_message`) that is not part of this model.
- Refcount memory ordering: the steps are sequentially consistent, as the default orders of the C11 operations are.
- Session ASN.1, CPU probing, error tables, thread wrappers: flat or platform glue.
