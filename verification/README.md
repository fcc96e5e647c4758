# Handshake transport and wire codec: a verified model

Four vendored cores of the app under `TrainingBud/Pods`, modelled in Dafny and proved.

- **nanopb** (`Nanopb*.dfy`), the Protocol Buffers wire codec. `NanopbSchema`,
  `NanopbDecode` and `NanopbEncode` say on values what a message type, decoding and
  encoding are; `NanopbIStream`, `NanopbIterator`, `NanopbDecoder` and `NanopbEncoder`
  are the C code's streams, field iterator and loops, each proved to compute exactly
  that. `NanopbRoundTrip`, `NanopbMerge`, `NanopbOccurrences`, `NanopbWire`,
  `NanopbOverlong` and `NanopbRequired` prove the laws of the format about the values:
  decoding undoes encoding, concatenation merges, a field that occurs again counts as the
  format says, what is written is the wire format and ignored by readers that do not know
  its fields, exactly which varints are accepted, and the required-field check is exact.
- **DTLS handshake transport** (`Dtls*.dfy`; RFC 6347). `DtlsReassembly` and
  `DtlsReceiver` are the bitmask and the seven-slot ring as they are updated in place,
  `DtlsSender` cuts, resumes and retransmits a flight, `DtlsReplay` and `DtlsEpochs` are
  the record layer's window and counters over whole runs, and `DtlsEndToEnd` puts sender,
  network and receiver together. `DtlsReader` is the running receiver on the running record
  layer, each call proved to be the reader's part of an event there.
- **TLS up to 1.2** (`Tls*.dfy`; RFC 5246). `TlsCore` is the handshake object both sides
  share, `TlsClient` and `TlsServer` are every `do_*` step and the two drivers. Each step
  is proved to be a move of a small machine on values (`TlsClientSide`, `TlsServerSide`),
  whose invariant says what is known in each state. `TlsRun` is `ssl_run_handshake`, and
  its module `TlsPair` joins a client and a server. `TlsTranscript` has the reason they
  agree: each speaks only in its turn. `TlsMatch` proves that the two machines fit: neither
  refuses what the other one says. `TlsFraming` and `TlsStreams` are the records below.
- **Small pieces**: the saturating reference count (`Refcount.dfy`), the branch-free masks
  and the RSA premaster choice (`ConstantTime.dfy`, `Premaster.dfy`), and the choice of a
  cipher suite with equal-preference groups (`CipherChoice.dfy`).

What the model takes from outside is an input of each call and may be anything: for a step
of the handshake an `Env` (parsing of extensions, certificates' verdicts, cryptography,
callbacks, allocation), for a record what the AEAD makes of it (`Seal`, `Sealing`), for a
flush or a read what the transport does. Contracts say what comes of which input, so a step
fails exactly if one of its own reasons is there. A Finished MAC and a CertificateVerify
signature are symbolic terms that say what they cover.

## Where the code differs from what one would expect

- `pb_enc_string` writes a string that fills its array without a terminator, and the
  decoder refuses it; and it reads length prefixes into 32 bits. `MessageRoundTrip`
  therefore has an exact condition, `Readable`.
- `pb_decode_varint32` holds its bit position in eight bits, so it reads a varint of more
  than 36 bytes as a wrong number (`Varint32Exactly`, `Varint32Wraps`).
- Field number 0 is skipped like any unlisted field, except by a message type without
  fields, where decoding fails (`FieldZero`, `FieldZeroInserted`).
- A DTLS fragment numbered exactly seven past the next message is let through by the loop
  and then refused as an internal error; one further ahead is ignored
  (`RefusedAtWindowEnd`).
- `dtls1_open_handshake` would refuse a Finished that comes again after it was taken
  (`EpochOneRefuses`), but neither machine reads in the handshake any more by then
  (`TlsRun.Inv`, kept by `RunHandshake`). The record goes to `dtls1_open_app_data`, which
  answers with the last flight, so an honest peer raises no alert (`HonestIsQuiet`).
- When a record counter wraps, the call fails but nothing remembers it; the next seal uses
  the first number again (`FreshExactly`, `CounterWrapReuses`). 65536 cipher changes would
  bring the first epoch back (`EpochWrapReuses`, `EpochWrapAcceptsTwice`), but the code does
  not renegotiate over DTLS.
- In the lock-free reference count an abort can come after an increment that the locked
  version would have had before it (`AbortMayComeLate`); with callers that own what they
  count there is none (`ExactlyOneZero`).
- With preference flags whose last byte is 1, `ssl3_choose_cipher` can miss a shared cipher
  (`OpenGroupIsMissed`). Flags built by the library end in 0.
- The agreement of transcripts needs no agreement on the negotiated options: an in-order
  channel and turn-taking are enough (`TlsTranscript.Comparable`). That neither side refuses
  the other needs one thing more: the client reads in the ServerHello what the server meant
  by it (`TlsMatch.Understood`).

## Model

| member | source | states |
|---|---|---|
| `NanopbVarint.EncodeVarintTenBytes` | TrainingBud/Pods/nanopb/pb_encode.c:574-594 | every 64-bit value takes one to ten bytes |
| `NanopbVarint.Varint64RoundTrip` | TrainingBud/Pods/nanopb/pb_encode.c:574-594 | every 64-bit value decodes back and the rest of the stream is intact |
| `NanopbVarint.Varint32RoundTrip` | TrainingBud/Pods/nanopb/pb_decode.c:182-247 | every 32-bit value decodes back with the 32-bit decoder too |
| `NanopbVarint.Varint32RefusesLong` | TrainingBud/Pods/nanopb/pb_decode.c:207-243 | and every number of 33 to 63 bits is refused |
| `NanopbVarint.Varint32AcceptsNegative` | TrainingBud/Pods/nanopb/pb_decode.c:196-236 | the ten-byte sign-extended form of every negative int32 is accepted and read as its low 32 bits |
| `NanopbVarint.VarintDecodersAgree` | TrainingBud/Pods/nanopb/pb_decode.c:182-270 | whenever both decoders accept a stream they read the same bytes and agree modulo 2^32 |
| `NanopbOverlong.Varint64Exactly` | TrainingBud/Pods/nanopb/pb_decode.c:250-270 | a varint of up to ten bytes, canonical or not, is read as its number modulo 2^64; a longer one is refused |
| `NanopbOverlong.Varint32Exactly` | TrainingBud/Pods/nanopb/pb_decode.c:182-247 | a varint of up to 36 bytes is read as the low 32 bits of its first five digits, and refused if and only if it has five bytes and is too large, or more of which one is neither padding nor sign extension |
| `NanopbOverlong.UnfinishedIsRefused` | TrainingBud/Pods/nanopb/pb_decode.c:182-270 | a stream that ends before its varint does is refused by both |
| `NanopbOverlong.Varint32Wraps` | TrainingBud/Pods/nanopb/pb_decode.c:207-236 | past 36 bytes the bit position, held in eight bits, wraps: a longer varint is read as a wrong number |
| `NanopbVarint.DecodedVarintsFit` | TrainingBud/Pods/nanopb/pb_decode.c:182-270 | what the decoders return fits the width of their result |
| `NanopbVarint.ZigZagRoundTrip` | TrainingBud/Pods/nanopb/pb_encode.c:596-605 | zig-zag coding is injective on int64, fits 64 bits and is undone by pb_decode_svarint |
| `NanopbSchema.Defaults` | TrainingBud/Pods/nanopb/pb_decode.c:812-895 | every field starts from its own default, and the result is a well-typed struct |
| `NanopbSchema.Find` | TrainingBud/Pods/nanopb/pb_common.c:78-95 | a search from the beginning ends at the first field with the tag, and fails exactly when there is none |
| `NanopbDecode.DecodedScalarHolds` | TrainingBud/Pods/nanopb/pb_decode.c:1289-1508 | no decoder ever stores a number its cell cannot hold or bytes past the end of one |
| `NanopbIStream.IStream.constructor` | TrainingBud/Pods/nanopb/pb_decode.c:154-176 | a buffer stream may read the whole buffer |
| `NanopbIStream.IStream.Read` | TrainingBud/Pods/nanopb/pb_decode.c:85-132 | succeeds exactly when enough bytes are left, hands out those bytes, and never moves the end of the stream |
| `NanopbIStream.IStream.ReadByte` | TrainingBud/Pods/nanopb/pb_decode.c:136-152 | succeeds exactly on a nonempty stream with its first byte |
| `NanopbIStream.IStream.ReadVarint32` | TrainingBud/Pods/nanopb/pb_decode.c:182-247 | the loop computes DecodeVarint32 and reports the end of the stream exactly on an empty one |
| `NanopbIStream.IStream.ReadVarint64` | TrainingBud/Pods/nanopb/pb_decode.c:250-270 | the loop computes DecodeVarint64 |
| `NanopbIStream.IStream.PassVarint` | TrainingBud/Pods/nanopb/pb_decode.c:273-282 | the loop passes over exactly the varint SkipVarint describes |
| `NanopbIStream.IStream.ReadTag` | TrainingBud/Pods/nanopb/pb_decode.c:293-314 | computes DecodeTag, the end of a message included |
| `NanopbIStream.IStream.MakeSubstream` | TrainingBud/Pods/nanopb/pb_decode.c:367-380 | the bytes of the parent are split: the substream's, then the parent's; their sum is conserved |
| `NanopbIStream.IStream.CloseSubstream` | TrainingBud/Pods/nanopb/pb_decode.c:382-395 | the parent resumes after the substream's end whatever was left unread |
| `NanopbIStream.IStream.PassField` | TrainingBud/Pods/nanopb/pb_decode.c:284-326 | passes over exactly what SkipField describes |
| `NanopbIterator.FieldIter.Begin` | TrainingBud/Pods/nanopb/pb_common.c:8-18 | positions the iterator at the first field with the addresses and required index of that field |
| `NanopbIterator.FieldIter.Next` | TrainingBud/Pods/nanopb/pb_common.c:20-76 | steps cyclically; addresses and required_field_index are always those of the position (its invariant) |
| `NanopbIterator.FieldIter.Find` | TrainingBud/Pods/nanopb/pb_common.c:78-95 | finds the first match ahead, cyclically; without one it is back where it began; ends even on an empty list |
| `NanopbIterator.FindFromAnywhere` | TrainingBud/Pods/nanopb/pb_common.c:78-95 | from any start: same position, required index, pData and pSize as a search from the beginning |
| `NanopbDecoder.DecVarint` | TrainingBud/Pods/nanopb/pb_decode.c:1289-1372 | the integer decoders compute DecodeScalar, range checks included |
| `NanopbDecoder.DecFixed` | TrainingBud/Pods/nanopb/pb_decode.c:1254-1286 | the fixed-width decoders compute DecodeScalar, little-endian |
| `NanopbDecoder.DecLength` | TrainingBud/Pods/nanopb/pb_decode.c:1391-1508 | the bytes and string decoders compute DecodeScalar, every overflow refused |
| `NanopbDecoder.DecPacked` | TrainingBud/Pods/nanopb/pb_decode.c:419-448 | the packed branch computes DecodePacked on the substream; leftover bytes are an error |
| `NanopbDecoder.CheckSeen` | TrainingBud/Pods/nanopb/pb_decode.c:1027-1045 | whole words, then the remaining bits: true exactly when every required bit is set |
| `NanopbDecoder.SetToDefaults` | TrainingBud/Pods/nanopb/pb_decode.c:884-895 | the iterator loop computes Defaults |
| `NanopbDecoder.DecVal` | TrainingBud/Pods/nanopb/pb_decode.c:1289-1508 | every decoder of the table computes DecodeVal and leaves the stream's end where it was |
| `NanopbDecoder.DecSubmessage` | TrainingBud/Pods/nanopb/pb_decode.c:1463-1485 | a submessage is decoded over what its struct held |
| `NanopbDecoder.DecSlot` | TrainingBud/Pods/nanopb/pb_decode.c:401-475 | decode_static_field computes DecodeSlot for every kind of field; what a further occurrence does is `NanopbOccurrences` |
| `NanopbDecoder.FieldTurn` | TrainingBud/Pods/nanopb/pb_decode.c:919-997 | one turn of the field loop is one unfolding of DecodeLoop, with fields_seen as its bit set |
| `NanopbDecoder.CheckRequired` | TrainingBud/Pods/nanopb/pb_decode.c:1006-1046 | walking to the end counts the required fields; true exactly when the first 64 of them were all seen |
| `NanopbDecoder.PbDecodeNoinit` | TrainingBud/Pods/nanopb/pb_decode.c:901-1049 | the whole loop computes DecodeNoinit; stream position plus bytes left is conserved |
| `NanopbDecoder.PbDecode` | TrainingBud/Pods/nanopb/pb_decode.c:1051-1063 | computes Decode: whatever the struct held before, it starts from the defaults |
| `NanopbEncoder.OStream.Write` | TrainingBud/Pods/nanopb/pb_encode.c:72-119 | a sizing stream counts; a writing stream takes the bytes exactly when they fit and touches nothing past its limit |
| `NanopbEncoder.OStream.Within` | TrainingBud/Pods/nanopb/pb_encode.c:708-716 | the substream writes at the parent's place and has exactly the given room |
| `NanopbEncoder.WriteVarint` | TrainingBud/Pods/nanopb/pb_encode.c:574-594 | puts out EncodeVarint on either kind of stream, or fails exactly when it does not fit |
| `NanopbEncoder.WriteString` | TrainingBud/Pods/nanopb/pb_encode.c:674-680 | puts out a length and the bytes |
| `NanopbEncoder.EncScalar` | TrainingBud/Pods/nanopb/pb_encode.c:734-868 | every scalar encoder puts out EncodeScalar |
| `NanopbEncoder.PackedSize` | TrainingBud/Pods/nanopb/pb_encode.c:145-165 | the size computed by multiplication or by a sizing stream is the encoding's length |
| `NanopbEncoder.EncPackedArray` | TrainingBud/Pods/nanopb/pb_encode.c:139-181 | the length prefix and the items agree in a writing stream, the same bytes are counted in a sizing one |
| `NanopbEncoder.WriteBlock` | TrainingBud/Pods/nanopb/pb_encode.c:167-181 | after the length, exactly that many bytes |
| `NanopbEncoder.EncArray` | TrainingBud/Pods/nanopb/pb_encode.c:126-211 | encode_array puts out EncodeArray; too many items fail |
| `NanopbEncoder.EncItems` | TrainingBud/Pods/nanopb/pb_encode.c:182-208 | each item has its tag |
| `NanopbEncoder.EncVal` | TrainingBud/Pods/nanopb/pb_encode.c:734-868 | every encoder of the table puts out EncodeVal |
| `NanopbEncoder.EncSlot` | TrainingBud/Pods/nanopb/pb_encode.c:307-392 | encode_basic_field puts out EncodeSlot: required, has_, proto3 default, repeated and oneof |
| `NanopbEncoder.PbEncode` | TrainingBud/Pods/nanopb/pb_encode.c:494-516 | on any stream: succeeds exactly when the message encodes and fits, and puts out exactly its encoding |
| `NanopbEncoder.EncodeSubmessage` | TrainingBud/Pods/nanopb/pb_encode.c:682-730 | the sizing run and the writing run agree; `submsg size changed` is unreachable |
| `NanopbEncoder.WriteBody` | TrainingBud/Pods/nanopb/pb_encode.c:702-729 | the second run fills its substream exactly |
| `NanopbEncoder.GetEncodedSize` | TrainingBud/Pods/nanopb/pb_encode.c:533-542 | the computed size is the length of the encoding |
| `NanopbEncoder.EncodeIntoBuffer` | TrainingBud/Pods/nanopb/pb_encode.c:84-119 | encoding into a buffer succeeds exactly when the computed size fits, and nothing past the size given is written |
| `NanopbRoundTrip.ScalarRoundTrip` | TrainingBud/Pods/nanopb/pb_decode.c:1289-1508 | decoding undoes encoding for every scalar type, except a full-width string, which is refused |
| `NanopbRoundTrip.PackedRoundTrip` | TrainingBud/Pods/nanopb/pb_encode.c:139-181 | packed items come back appended to those already there |
| `NanopbRoundTrip.PayloadRoundTrip` | TrainingBud/Pods/nanopb/pb_decode.c:367-380 | a length-delimited payload is found again if and only if its length fits 32 bits |
| `NanopbRoundTrip.ItemsRoundTrip` | TrainingBud/Pods/nanopb/pb_decode.c:449-459 | unpacked items come back one by one |
| `NanopbRoundTrip.ValRoundTrip` | TrainingBud/Pods/nanopb/pb_decode.c:1463-1485 | any value comes back, nested messages in their canonical form, if and only if it is readable |
| `NanopbRoundTrip.SubmessageRoundTrip` | TrainingBud/Pods/nanopb/pb_encode.c:682-730 | a submessage comes back as a fresh one, if and only if it is readable and takes less than 2^32 bytes |
| `NanopbRoundTrip.SlotRoundTrip` | TrainingBud/Pods/nanopb/pb_decode.c:401-475 | one field's encoding, read by the field loop, sets that field and marks it seen |
| `NanopbRoundTrip.LoopRoundTrip` | TrainingBud/Pods/nanopb/pb_decode.c:919-997 | the rest of an encoding, read from any field on, however long it is |
| `NanopbRoundTrip.MessageRoundTrip` | TrainingBud/Pods/nanopb/pb_decode.c:901-1063 | for every message and type: decoding its encoding consumes every byte and gives the same message, absent fields at their defaults, if and only if no string in it fills its array and every submessage and packed array takes less than 2^32 bytes; otherwise decoding fails |
| `NanopbMerge.SkipLocal` | TrainingBud/Pods/nanopb/pb_decode.c:316-326 | skipping a field does not look at what follows it |
| `NanopbMerge.SlotLocal` | TrainingBud/Pods/nanopb/pb_decode.c:401-475 | nor does decoding one |
| `NanopbMerge.LoopConcat` | TrainingBud/Pods/nanopb/pb_decode.c:919-997 | the field loop over a concatenation is the loops one after the other |
| `NanopbMerge.ZeroEndsMessage` | TrainingBud/Pods/nanopb/pb_decode.c:293-314 | a zero byte at a field boundary ends the message, whatever follows it, which stays unread |
| `NanopbMerge.DecodeConcatenation` | TrainingBud/Pods/nanopb/pb_decode.c:901-1049 | decoding a concatenation without re-initialising equals decoding the parts in turn; the second part need not repeat the required fields |
| `NanopbMerge.SubmessageMerge` | TrainingBud/Pods/nanopb/pb_decode.c:1463-1485 | two occurrences of a submessage merge like one with both payloads |
| `NanopbMerge.UnknownFieldsIgnored` | TrainingBud/Pods/nanopb/pb_decode.c:933-963 | unlisted fields inserted at a field boundary change nothing, whether or not the message decodes |
| `NanopbMerge.FieldZero` | TrainingBud/Pods/nanopb/pb_common.c:78-95 | a message type without fields fails on any stream that starts with field number 0; with fields, it goes on after that field |
| `NanopbMerge.FieldZeroInserted` | TrainingBud/Pods/nanopb/pb_common.c:78-95 | a field numbered 0 inserted at a field boundary changes nothing if and only if the type has fields or the message does not decode anyway |
| `NanopbWire.WrittenIsSkipped` | TrainingBud/Pods/nanopb/pb_decode.c:293-326 | a number, eight bytes, a block or four bytes, written with its field number and wire type 0, 1, 2 or 5, is read as that number and wire type and skipped whole |
| `NanopbWire.SkipExactly` | TrainingBud/Pods/nanopb/pb_decode.c:273-326 | what is skipped: wire type 0 one varint of any length, 1 eight bytes, 5 four, 2 a length and as many bytes; every other wire type is refused |
| `NanopbWire.TaggedIsWritten` | TrainingBud/Pods/nanopb/pb_encode.c:640-670 | every field type is written as such a value, its wire type by number: 0 for the integer types, 1 for fixed64, 5 for fixed32, 2 for the rest |
| `NanopbWire.TaggedIsSkipped` | TrainingBud/Pods/nanopb/pb_encode.c:640-670 | so whatever field is written, any reader reads its number and that wire type and can skip it exactly |
| `NanopbWire.InOrder` | TrainingBud/Pods/nanopb/pb_encode.c:494-516 | a message is its fields one after the other, in the order of its type |
| `NanopbWire.EncodingIsUnknown` | TrainingBud/Pods/nanopb/pb_encode.c:494-516 | a whole encoding is a run of such fields to a type that lists none of its numbers |
| `NanopbWire.EncodingIsIgnored` | TrainingBud/Pods/nanopb/pb_decode.c:933-963 | so a reader of a type that shares none of its fields ignores all of it, wherever it is inserted |
| `NanopbWire.VarintDigit` | TrainingBud/Pods/nanopb/pb_encode.c:574-594 | the bytes of a varint are the base-128 digits, least significant first, as few as possible |
| `NanopbWire.FixedIsLittleEndian` | TrainingBud/Pods/nanopb/pb_encode.c:607-634 | four or eight bytes, least significant first |
| `NanopbWire.ZigZagIs` | TrainingBud/Pods/nanopb/pb_encode.c:596-605 | the codes alternate: 0, -1, 1, -2, 2 and so on |
| `NanopbWire.MessageIsEmpty` | TrainingBud/Pods/nanopb/pb_encode.c:213-305 | a message takes no bytes if and only if no field says anything: none required, absent ones, empty arrays, and without presence zeros and submessages that take none themselves |
| `NanopbWire.EncodesExactly` | TrainingBud/Pods/nanopb/pb_encode.c:126-211 | encoding fails if and only if, in a field that would be written, an array has more items than room or a byte string does not fit its cell |
| `NanopbWire.SubstreamExactly` | TrainingBud/Pods/nanopb/pb_decode.c:367-380 | a substream is a length and exactly as many bytes |
| `NanopbWire.IntExactly` | TrainingBud/Pods/nanopb/pb_decode.c:1289-1325 | which numbers an integer field takes: the low 32 bits, or 64, as a signed number, refused exactly if the cell is too small |
| `NanopbWire.LengthExactly` | TrainingBud/Pods/nanopb/pb_decode.c:1391-1508 | which byte strings are taken: all there and fitting their cell, strings with room for a terminator and up to their first NUL, fixed-length bytes fully or not at all |
| `NanopbOccurrences.AnyOrder` | TrainingBud/Pods/nanopb/pb_decode.c:919-997 | occurrences of different fields, not of one oneof, may come in any order |
| `NanopbOccurrences.LastOneWins` | TrainingBud/Pods/nanopb/pb_decode.c:401-475 | a scalar that occurs again, or a oneof member after any member of the same oneof, counts alone |
| `NanopbOccurrences.GivenScalar` | TrainingBud/Pods/nanopb/pb_decode.c:401-475 | and counts as its value, whatever the slot held |
| `NanopbOccurrences.SubmessageOver` | TrainingBud/Pods/nanopb/pb_decode.c:414-417 | an occurrence of a required, optional or proto3 submessage is decoded over what its slot holds |
| `NanopbOccurrences.SubmessagesMerge` | TrainingBud/Pods/nanopb/pb_decode.c:1463-1485 | so two occurrences decode as one with both payloads end to end, from any struct; refused exactly if the second payload is, read over the first |
| `NanopbOccurrences.PackedAppends` | TrainingBud/Pods/nanopb/pb_decode.c:419-448 | a packed payload appends all its numbers to what the array held, if and only if they are well-formed and there is room |
| `NanopbOccurrences.UnpackedIsPacked` | TrainingBud/Pods/nanopb/pb_decode.c:419-459 | the same numbers one by one append the same items |
| `NanopbOccurrences.PackedOrNot` | TrainingBud/Pods/nanopb/pb_decode.c:419-459 | so either form of an array means the same, in any message and whatever the array held |
| `NanopbOccurrences.ItemAppends` | TrainingBud/Pods/nanopb/pb_decode.c:449-459 | an item of any other type is decoded afresh and appended, if and only if there is room |
| `NanopbRequired.SeenExactly` | TrainingBud/Pods/nanopb/pb_decode.c:988-993 | a field's bit in fields_seen is set exactly when the field occurred |
| `NanopbRequired.RequiredCheckIsExact` | TrainingBud/Pods/nanopb/pb_decode.c:1006-1046 | pb_decode_noinit succeeds if and only if its loop does and each of the first 64 required fields occurred |
| `DtlsMessage.FragmentRoundTrip` | TrainingBud/Pods/BoringSSL-GRPC/ssl/d1_both.cc:702-713 | parsing undoes writing and leaves what follows |
| `DtlsReassembly.HmFragment.constructor` | TrainingBud/Pods/BoringSSL-GRPC/ssl/d1_both.cc:152-199 | a new fragment has nothing; an empty message is complete at once |
| `DtlsReassembly.HmFragment.Mark` | TrainingBud/Pods/BoringSSL-GRPC/ssl/d1_both.cc:211-251 | the range joins the covered set; no bit at or past msg_len is ever set (the invariant); the bitmask is freed exactly when all bytes are covered |
| `DtlsReassembly.HmFragment.Place` | TrainingBud/Pods/BoringSSL-GRPC/ssl/d1_both.cc:393-402 | the body bytes are laid down at their offset and marked; a complete message is left alone |
| `DtlsReassembly.HmFragment.FreedWhenComplete` | TrainingBud/Pods/BoringSSL-GRPC/ssl/d1_both.cc:255-259 | the bitmask is there exactly while something is missing |
| `DtlsReassembly.SetBits` | TrainingBud/Pods/BoringSSL-GRPC/ssl/d1_both.cc:226-236 | the three-way bit setting sets exactly the bits of the range |
| `DtlsReassembly.IsFull` | TrainingBud/Pods/BoringSSL-GRPC/ssl/d1_both.cc:238-250 | the check over bytes and a last partial byte: true exactly when every bit of the message is set |
| `DtlsReceive.CurrentIsNext` | TrainingBud/Pods/BoringSSL-GRPC/ssl/d1_both.cc:408-424 | the message handed out is the one numbered handshake_read_seq |
| `DtlsReceive.OpenAppDataExactly` | TrainingBud/Pods/BoringSSL-GRPC/ssl/d1_pkt.cc:131-184 | once the handshake is over: a Finished that comes again asks for the last flight by its first fragment alone, data is handed on, and everything else fails with its alert |
| `DtlsReceive.ReceiveConcat` | TrainingBud/Pods/BoringSSL-GRPC/ssl/d1_both.cc:348-405 | a record is read to its end: what follows fragments that raise no alert is read as a record of its own would be, over what they left |
| `DtlsReceive.StrayBytes` | TrainingBud/Pods/BoringSSL-GRPC/ssl/d1_both.cc:352-360 | bytes too few for a header after such fragments are a decode_error |
| `DtlsReceive.AcceptExactly` | TrainingBud/Pods/BoringSSL-GRPC/ssl/d1_both.cc:362-391 | any fragment from anyone: which are refused, with which alert, and which are ignored; all others join their message |
| `DtlsReceive.AcceptJoins` | TrainingBud/Pods/BoringSSL-GRPC/ssl/d1_both.cc:387-402 | and what that changes: the header is noted, the bytes carried are there, no other byte and no other message changes, and a complete one is left alone |
| `DtlsReceive.ReceiveKeeps` | TrainingBud/Pods/BoringSSL-GRPC/ssl/d1_both.cc:348-405 | whatever a record is, good or bad: no message loses a byte, and a complete one stays as it is |
| `DtlsReceive.RefusedAtWindowEnd` | TrainingBud/Pods/BoringSSL-GRPC/ssl/d1_both.cc:267-271 | the internal error is raised if and only if the number is exactly seven past the next one, which the loop lets through |
| `DtlsReceiver.Receiver.CurrentComplete` | TrainingBud/Pods/BoringSSL-GRPC/ssl/d1_both.cc:255-259 | true exactly when the next message is complete |
| `DtlsReceiver.Receiver.IncomingMessage` | TrainingBud/Pods/BoringSSL-GRPC/ssl/d1_both.cc:265-295 | finds or creates the slot's object; `frag->seq == msg_hdr->seq` follows from the ring invariant |
| `DtlsReceiver.Receiver.AcceptFragment` | TrainingBud/Pods/BoringSSL-GRPC/ssl/d1_both.cc:362-402 | one turn of the loop computes Accept, alerts included |
| `DtlsReceiver.Receiver.Fill` | TrainingBud/Pods/BoringSSL-GRPC/ssl/d1_both.cc:393-402 | copying and marking change only that message |
| `DtlsReceiver.Receiver.ReadFragments` | TrainingBud/Pods/BoringSSL-GRPC/ssl/d1_both.cc:350-405 | the loop over a record computes Receive, all of its fragments |
| `DtlsReceiver.Receiver.OpenHandshake` | TrainingBud/Pods/BoringSSL-GRPC/ssl/d1_both.cc:297-406 | the switch on the record type: application data, ChangeCipherSpec, handshake, anything else |
| `DtlsReceiver.Receiver.OpenChangeCipherSpec` | TrainingBud/Pods/BoringSSL-GRPC/ssl/d1_both.cc:475-490 | takes a noted ChangeCipherSpec without reading, else reads one record as dtls1_open_handshake does and succeeds exactly if it is a well-formed unencrypted ChangeCipherSpec; none stays noted |
| `DtlsReceiver.Receiver.GetMessage` | TrainingBud/Pods/BoringSSL-GRPC/ssl/d1_both.cc:408-424 | raw is header and body of the current message, as one whole fragment |
| `DtlsReceiver.Receiver.NextMessage` | TrainingBud/Pods/BoringSSL-GRPC/ssl/d1_both.cc:426-438 | empties the slot and advances |
| `DtlsReceiver.Receiver.HasUnprocessedData` | TrainingBud/Pods/BoringSSL-GRPC/ssl/d1_both.cc:440-457 | true exactly if a ChangeCipherSpec is noted or a slot other than the current message's is occupied |
| `DtlsReceiver.Receiver.SetReadState` | TrainingBud/Pods/BoringSSL-GRPC/ssl/dtls_method.cc:81-95 | the read epoch changes exactly if nothing of the old one is left |
| `DtlsFlight.PathThen` | TrainingBud/Pods/BoringSSL-GRPC/ssl/d1_both.cc:739-780 | cuts compose |
| `DtlsFlight.PathProgress` | TrainingBud/Pods/BoringSSL-GRPC/ssl/d1_both.cc:739-780 | every nonempty packet strictly lowers (messages left, bytes left) |
| `DtlsFlight.PathTakes` | TrainingBud/Pods/BoringSSL-GRPC/ssl/d1_both.cc:739-780 | a path through the flight has at most as many records as the rest has bytes and messages |
| `DtlsFlight.FragmentsPartition` | TrainingBud/Pods/BoringSSL-GRPC/ssl/d1_both.cc:680-734 | the fragments of a message are consecutive slices of its body |
| `DtlsFlight.WholeFlight` | TrainingBud/Pods/BoringSSL-GRPC/ssl/d1_both.cc:739-780 | a whole flight carries each body exactly once; an empty body gets exactly one empty fragment |
| `DtlsFlight.RawIsWhole` | TrainingBud/Pods/BoringSSL-GRPC/ssl/d1_both.cc:511-537 | what init_message and finish_message build parses back as the whole message |
| `DtlsSender.Sender.AddOutgoing` | TrainingBud/Pods/BoringSSL-GRPC/ssl/d1_both.cc:555-594 | a flushed flight is dropped first; the message joins the flight with its epoch and, unless ChangeCipherSpec, the transcript |
| `DtlsSender.Sender.BuildMessage` | TrainingBud/Pods/BoringSSL-GRPC/ssl/d1_both.cc:511-537 | the built message is the header with both lengths equal, then the body |
| `DtlsSender.Sender.AddMessage` | TrainingBud/Pods/BoringSSL-GRPC/ssl/d1_both.cc:596-598 | the bytes hashed are the bytes queued; fails exactly if the body is too long for its header or the flight is full, and then hashes nothing and spends no number |
| `DtlsSender.Sender.SealRecord` | TrainingBud/Pods/BoringSSL-GRPC/ssl/dtls_record.cc:294-351 | succeeds if and only if the AEAD seals, the room suffices, the record is not too long and the counter does not wrap; the record uses the next number of its epoch, a wrapped counter fails the call and spends the number, and nothing else is sealed |
| `DtlsSender.Sender.SetWriteState` | TrainingBud/Pods/BoringSSL-GRPC/ssl/dtls_method.cc:97-107 | the current write state becomes the previous one and numbers start over |
| `DtlsSender.Sender.SealNextMessage` | TrainingBud/Pods/BoringSSL-GRPC/ssl/d1_both.cc:644-734 | no progress exactly when the message is live and the room is too small for one byte of it; an error exactly when it is dead or its record cannot be sealed; otherwise the record continues the flight with all that is left of the message, or with exactly maxOut less the overhead when that is less |
| `DtlsSender.Sender.SealFragment` | TrainingBud/Pods/BoringSSL-GRPC/ssl/d1_both.cc:679-733 | the fragment carries all that is left of the body if it fits and exactly the room if not, at the offset reached; success exactly if it is all |
| `DtlsSender.Sender.PacketTurn` | TrainingBud/Pods/BoringSSL-GRPC/ssl/d1_both.cc:748-778 | one turn of the packet loop: a record more and the rest of the room, or the packet is as full as it can be |
| `DtlsSender.Sender.SealNextPacket` | TrainingBud/Pods/BoringSSL-GRPC/ssl/d1_both.cc:739-780 | a packet is a nonempty path through the flight, at most the MTU, one record a message, with strict progress, and full: it ends the flight, or its last record fills it with part of a message, or the next message does not begin in what is left; too small exactly if the next message is live and its smallest record does not fit; never failing if no AEAD refuses, no counter is near its end and no message is of a dead epoch |
| `DtlsSender.Sender.SendFlight` | TrainingBud/Pods/BoringSSL-GRPC/ssl/d1_both.cc:782-827 | the packets taken form a path, each as full as it can be; a refused write restores the position they lead to; sent if and only if all is out and flushed, refused only where the transport refused, failing only for the reasons of SealNextPacket; only seals, and no cipher change, join the history |
| `DtlsSender.Sender.FlushFlight` | TrainingBud/Pods/BoringSSL-GRPC/ssl/d1_both.cc:829-834 | the flight counts as complete from now on; otherwise as SendFlight |
| `DtlsSender.Sender.Retransmit` | TrainingBud/Pods/BoringSSL-GRPC/ssl/d1_both.cc:836-845 | from the start at any MTU; if all is sent, it is the whole flight again; never failing under the same conditions |
| `DtlsSender.SenderIsFresh` | TrainingBud/Pods/BoringSSL-GRPC/ssl/dtls_record.cc:294-351 | whatever a sender did before the epoch wraps: no epoch and number were sealed twice if and only if nothing was sealed past a counter's wrap |
| `DtlsEpochs.PairsAreFresh` | TrainingBud/Pods/BoringSSL-GRPC/ssl/dtls_record.cc:294-351 | across any interleaving of seals under either live epoch, retransmissions and cipher changes, no (epoch, sequence) pair is used twice until a counter or the epoch wraps |
| `DtlsEpochs.FreshExactly` | TrainingBud/Pods/BoringSSL-GRPC/ssl/dtls_record.cc:294-351 | for every run before the epoch wraps: no pair is used twice if and only if nothing is sealed in an epoch after its counter came back to zero |
| `DtlsEpochs.CounterWrapReuses` | TrainingBud/Pods/BoringSSL-GRPC/ssl/tls_record.cc:154-163 | the shortest such run: after 2^48 seals in an epoch the first pair is used again |
| `DtlsEpochs.EpochWrapReuses` | TrainingBud/Pods/BoringSSL-GRPC/ssl/dtls_method.cc:97-107 | one run past the bound: after 65536 cipher changes the first pair would be used again |
| `DtlsReplay.Bitmap.ShouldDiscard` | TrainingBud/Pods/BoringSSL-GRPC/ssl/dtls_record.cc:140-150 | discards exactly what was recorded or lies 64 or more below something recorded |
| `DtlsReplay.Bitmap.Record` | TrainingBud/Pods/BoringSSL-GRPC/ssl/dtls_record.cc:155-175 | the shifted window keeps describing the full history |
| `DtlsReplay.AcceptedAtMostOnce` | TrainingBud/Pods/BoringSSL-GRPC/ssl/dtls_record.cc:225-259 | within an epoch each number is accepted at most once, whatever arrives |
| `DtlsReplay.PairAcceptedAtMostOnce` | TrainingBud/Pods/BoringSSL-GRPC/ssl/dtls_method.cc:81-95 | over a whole run with epoch changes each (epoch, sequence) is accepted at most once until the 16-bit epoch wraps |
| `DtlsReplay.EpochWrapAcceptsTwice` | TrainingBud/Pods/BoringSSL-GRPC/ssl/dtls_method.cc:81-95 | one run past the bound: after the wrap the same record would be accepted again |
| `DtlsReplay.RecordReader.OpenRecord` | TrainingBud/Pods/BoringSSL-GRPC/ssl/dtls_record.cc:177-272 | records of other epochs, stale ones and ones that do not open leave the window unchanged |
| `DtlsReplay.RecordReader.SetReadState` | TrainingBud/Pods/BoringSSL-GRPC/ssl/dtls_method.cc:81-95 | a cipher change starts an empty window in the next epoch |
| `DtlsEndToEnd.PathIsHonest` | TrainingBud/Pods/BoringSSL-GRPC/ssl/d1_both.cc:694-733 | whatever the cuts, every record sent is a piece of a queued message, or its ChangeCipherSpec, in its epoch |
| `DtlsEndToEnd.AcceptKeepsFaithful` | TrainingBud/Pods/BoringSSL-GRPC/ssl/d1_both.cc:362-402 | an honest fragment keeps all that is held in agreement with the sender's messages, and is refused if and only if the reader is in epoch 1 and expects another message |
| `DtlsEndToEnd.AcceptAddsOnly` | TrainingBud/Pods/BoringSSL-GRPC/ssl/d1_both.cc:387-402 | a fragment adds no byte it does not carry |
| `DtlsEndToEnd.DeliveredInOrder` | TrainingBud/Pods/BoringSSL-GRPC/ssl/d1_both.cc:297-438 | for a flight of at most seven messages over any epochs, cut and retransmitted at any MTUs, its pieces put together in records in any way, under any loss, repetition and reordering and with key changes in between: only the sender's messages, in order, each once, raw identical to what was hashed; an alert if and only if a fragment came out of turn |
| `DtlsEndToEnd.Begins` | TrainingBud/Pods/BoringSSL-GRPC/ssl/d1_both.cc:265-295 | an empty ring at the first number of a flight is where every run may begin |
| `DtlsEndToEnd.Ends` | TrainingBud/Pods/BoringSSL-GRPC/ssl/d1_both.cc:426-434 | when all messages of a flight are handed over the ring is empty again, at the next flight's first number |
| `DtlsEndToEnd.EpochOneRefuses` | TrainingBud/Pods/BoringSSL-GRPC/ssl/d1_both.cc:373-378 | were dtls1_open_handshake called again in epoch 1: an alert if and only if a record of that epoch is delivered after the Finished was taken |
| `DtlsEndToEnd.EpochZeroIsQuiet` | TrainingBud/Pods/BoringSSL-GRPC/ssl/d1_both.cc:373-378 | in epoch 0 nothing the handshake reads can come out of turn |
| `DtlsEndToEnd.HonestIsQuiet` | TrainingBud/Pods/BoringSSL-GRPC/ssl/d1_pkt.cc:131-184 | over a whole run from epoch 0: if the keys change just before the Finished, and records go to the handshake until it is taken and to the application's reads after that, an honest peer's flight raises no alert, whatever the network does to it |
| `DtlsEndToEnd.KeysMayChange` | TrainingBud/Pods/BoringSSL-GRPC/ssl/dtls_method.cc:81-95 | once all messages of the reader's epoch are handed over, nothing is left over: the keys may change if and only if the ChangeCipherSpec is noted |
| `DtlsEndToEnd.GotExactly` | TrainingBud/Pods/BoringSSL-GRPC/ssl/d1_both.cc:348-402 | over a whole run: a byte of a message was handed over or is there if and only if it was, or a record carrying it was delivered in its epoch and not refused |
| `DtlsEndToEnd.FlightArrives` | TrainingBud/Pods/BoringSSL-GRPC/ssl/d1_both.cc:387-402 | over a whole run from an empty ring: a message was handed over or is complete if and only if each of its bytes was delivered in time, whatever cuts they came from |
| `DtlsEndToEnd.FlightDelivered` | TrainingBud/Pods/BoringSSL-GRPC/ssl/d1_both.cc:408-438 | then what was handed over and what can be taken now is the whole flight, in order, byte for byte, its last message in the next epoch included |
| `DtlsEndToEnd.OnePassSuffices` | TrainingBud/Pods/BoringSSL-GRPC/ssl/d1_both.cc:783-845 | one whole pass over the flight at any MTUs is enough for every message it queues |
| `DtlsReader.Reader.OpenHandshake` | TrainingBud/Pods/BoringSSL-GRPC/ssl/dtls_record.cc:177-272 | a record that the record layer drops changes nothing; any other is heard exactly as the end-to-end model says, alerts included |
| `DtlsReader.Reader.OpenAppRecord` | TrainingBud/Pods/BoringSSL-GRPC/ssl/d1_pkt.cc:131-184 | likewise for a handshake record that comes once the handshake is over |
| `DtlsReader.Reader.TakeMessage` | TrainingBud/Pods/BoringSSL-GRPC/ssl/d1_both.cc:408-434 | hands over the current message, header and all, exactly if it is complete |
| `DtlsReader.Reader.ChangeKeys` | TrainingBud/Pods/BoringSSL-GRPC/ssl/d1_both.cc:475-490 | the noted ChangeCipherSpec is taken and the keys change, exactly if nothing of the old epoch is left |
| `ConstantTime.Msb` | TrainingBud/Pods/BoringSSL-GRPC/crypto/internal.h:244-246 | all ones if the top bit is set, else zero |
| `ConstantTime.Lt` | TrainingBud/Pods/BoringSSL-GRPC/crypto/internal.h:249-282 | all ones if and only if a < b, on all 64-bit words |
| `ConstantTime.Ge` | TrainingBud/Pods/BoringSSL-GRPC/crypto/internal.h:291-294 | all ones if and only if a >= b |
| `ConstantTime.IsZero` | TrainingBud/Pods/BoringSSL-GRPC/crypto/internal.h:303-316 | all ones if and only if a is zero |
| `ConstantTime.Eq` | TrainingBud/Pods/BoringSSL-GRPC/crypto/internal.h:325-328 | all ones if and only if the words are equal |
| `ConstantTime.Select` | TrainingBud/Pods/BoringSSL-GRPC/crypto/internal.h:351-355 | one argument or the other, for the two masks |
| `ConstantTime8.Lt8` | TrainingBud/Pods/BoringSSL-GRPC/crypto/internal.h:286-288 | the same as a byte |
| `ConstantTime8.Ge8` | TrainingBud/Pods/BoringSSL-GRPC/crypto/internal.h:298-300 | the same as a byte |
| `ConstantTime8.IsZero8` | TrainingBud/Pods/BoringSSL-GRPC/crypto/internal.h:320-322 | the same as a byte |
| `ConstantTime8.Eq8` | TrainingBud/Pods/BoringSSL-GRPC/crypto/internal.h:332-334 | the same as a byte |
| `ConstantTime8.Select8` | TrainingBud/Pods/BoringSSL-GRPC/crypto/internal.h:359-362 | the same on bytes, though the widened mask has more bits |
| `Premaster.UnpadPad` | TrainingBud/Pods/BoringSSL-GRPC/ssl/handshake_server.cc:1149-1168 | what section 7.2.1 of RFC 3447 pads, the specification used here unpads |
| `Premaster.CheckPadding` | TrainingBud/Pods/BoringSSL-GRPC/ssl/handshake_server.cc:1152-1159 | the mask is all ones exactly for 00 02, nonzero bytes, 00 just before the last 48 |
| `Premaster.ChosenIf` | TrainingBud/Pods/BoringSSL-GRPC/ssl/handshake_server.cc:1149-1178 | looking for the 00 at that fixed place decides the same as searching for the first 00 |
| `Premaster.SelectPremaster` | TrainingBud/Pods/BoringSSL-GRPC/ssl/handshake_server.cc:1125-1178 | the branch-free code leaves the decrypted tail if PKCS #1 decoding yields 48 bytes with the right version, else the random value; too small or short decryptions fail |
| `Refcount.LockedCount.Inc` | TrainingBud/Pods/BoringSSL-GRPC/crypto/refcount_lock.c:29-35 | adds one unless saturated |
| `Refcount.LockedCount.DecAndTestZero` | TrainingBud/Pods/BoringSSL-GRPC/crypto/refcount_lock.c:37-51 | subtracts one unless saturated and reports zero; aborts exactly at zero |
| `Refcount.Refines` | TrainingBud/Pods/BoringSSL-GRPC/crypto/refcount_c11.c:37-65 | under any interleaving and spurious failure the calls take effect one after the other as on the locked count, with its results, and a saturated count stays saturated |
| `Refcount.FailureMeansProgress` | TrainingBud/Pods/BoringSSL-GRPC/crypto/refcount_c11.c:41-46 | a compare-exchange that fails for a reason fails because another call took effect meanwhile |
| `Refcount.AbortMeansZero` | TrainingBud/Pods/BoringSSL-GRPC/crypto/refcount_c11.c:53-55 | an abort means the count was zero when the thread looked |
| `Refcount.AbortMayComeLate` | TrainingBud/Pods/BoringSSL-GRPC/crypto/refcount_c11.c:53-55 | but the locked version need not abort in the same order: an increment may have come between |
| `Refcount.ExactlyOneZero` | TrainingBud/Pods/BoringSSL-GRPC/crypto/refcount_c11.c:49-65 | from a count equal to the references held: no abort, the count stays that number or saturates, and exactly one decrement reports zero if it gets there |
| `Refcount.ZeroIsLast` | TrainingBud/Pods/BoringSSL-GRPC/crypto/refcount_c11.c:49-65 | when zero has been reported nobody holds or uses a reference |
| `CipherChoice.First` | TrainingBud/Pods/BoringSSL-GRPC/crypto/stack/stack.c:226-241 | the first index of a cipher in an unsorted stack, if it is there |
| `CipherChoice.CompatibleServerCiphers` | TrainingBud/Pods/BoringSSL-GRPC/ssl/handshake_server.cc:323-355 | for every suite of the cipher table: the masks and version bounds let it through if and only if the version allows it and the server has the certificate, the shared group or the pre-shared key it needs |
| `CipherChoice.Choose` | TrainingBud/Pods/BoringSSL-GRPC/ssl/handshake_server.cc:387-423 | the loop returns the cipher listed earliest by the other side among the usable ones of the first group that has any; nothing exactly when no usable cipher is in a closed group |
| `CipherChoice.ChooseCipher` | TrainingBud/Pods/BoringSSL-GRPC/ssl/handshake_server.cc:357-424 | the two preference modes; what is chosen is in both lists and one the server has the keys for; no cipher if the list does not parse |
| `CipherChoice.NothingSharedIff` | TrainingBud/Pods/BoringSSL-GRPC/ssl/internal.h:1860-1893 | if the last flag is 0, nothing is chosen exactly when nothing usable is shared |
| `CipherChoice.OpenGroupIsMissed` | TrainingBud/Pods/BoringSSL-GRPC/ssl/handshake_server.cc:415-420 | with a last flag of 1 a shared cipher is missed |
| `CipherChoice.WithoutGroups` | TrainingBud/Pods/BoringSSL-GRPC/ssl/handshake_server.cc:380-410 | without groups: the first cipher of the priority list that both can use |
| `CipherChoice.BestIsUnique` | TrainingBud/Pods/BoringSSL-GRPC/ssl/internal.h:1860-1893 | the specification determines the result |
| `TlsTranscript.SameStart` | TrainingBud/Pods/BoringSSL-GRPC/ssl/s3_both.cc:184-205 | two sides that speak only in turn over in-order channels agree on every position both have |
| `TlsTranscript.Comparable` | TrainingBud/Pods/BoringSSL-GRPC/ssl/handshake.cc:215-222 | so one transcript is always the start of the other |
| `TlsTranscript.FinishedAgrees` | TrainingBud/Pods/BoringSSL-GRPC/ssl/handshake.cc:380-476 | when a Finished is about to be checked, its sender's transcript was the same when it made it, and the check succeeds |
| `TlsTranscript.MasterSecretAgrees` | TrainingBud/Pods/BoringSSL-GRPC/ssl/handshake_client.cc:1356-1366 | both master secrets cover the same messages, up to and including ClientKeyExchange |
| `TlsScript.Fill` | TrainingBud/Pods/BoringSSL-GRPC/ssl/handshake_client.cc:1707-1789 | a message at its place extends the order of RFC 5246 section 7.3 |
| `TlsScript.Skip` | TrainingBud/Pods/BoringSSL-GRPC/ssl/handshake_client.cc:1707-1789 | an optional place may stay empty |
| `TlsCore.Hs.HashMessage` | TrainingBud/Pods/BoringSSL-GRPC/ssl/handshake.cc:215-222 | the message read joins the transcript, in the peer's turn |
| `TlsCore.Hs.NextMessage` | TrainingBud/Pods/BoringSSL-GRPC/ssl/s3_both.cc:562-583 | the message hashed leaves the inbox; what was received is what the transcript says the peer said |
| `TlsCore.Hs.NextMessageAndRestart` | TrainingBud/Pods/BoringSSL-GRPC/ssl/handshake_client.cc:520-525 | after HelloVerifyRequest the transcript starts over |
| `TlsCore.Hs.AddMessage` | TrainingBud/Pods/BoringSSL-GRPC/ssl/s3_both.cc:184-205 | the message joins flight and transcript, in this side's turn, unless it cannot be allocated; never while the flight is being written |
| `TlsCore.Hs.AddChangeCipherSpec` | TrainingBud/Pods/BoringSSL-GRPC/ssl/s3_both.cc:207-218 | joins the flight only |
| `TlsCore.Hs.GenerateMasterSecret` | TrainingBud/Pods/BoringSSL-GRPC/ssl/handshake_client.cc:1356-1366 | the master secret covers the transcript as it is |
| `TlsCore.Hs.GetFinished` | TrainingBud/Pods/BoringSSL-GRPC/ssl/handshake.cc:380-429 | succeeds if and only if the peer's Finished over the transcript before it comes next and nothing fails outside; it then joins the transcript |
| `TlsCore.Hs.SendFinished` | TrainingBud/Pods/BoringSSL-GRPC/ssl/handshake.cc:431-476 | the Finished covers the transcript before it |
| `TlsCore.Hs.VerifyPeerCert` | TrainingBud/Pods/BoringSSL-GRPC/ssl/handshake.cc:285-360 | certificates count as verified exactly after a good verdict; a bad one fails, a retry changes nothing |
| `TlsClientSide.MoveLeads` | TrainingBud/Pods/BoringSSL-GRPC/ssl/handshake_client.cc:1707-1789 | every step keeps what the client knows in each state (order of messages, whose turn it is, certificates verified, Finished checked) and strictly lowers the rank, though the state graph has a cycle |
| `TlsClientSide.HelloSent` | TrainingBud/Pods/BoringSSL-GRPC/ssl/handshake_client.cc:445-451 | the first message, with the offered session or none |
| `TlsClientSide.HelloSentAgain` | TrainingBud/Pods/BoringSSL-GRPC/ssl/handshake_client.cc:522-532 | the first message of the transcript that counts |
| `TlsClientSide.ServerHelloTaken` | TrainingBud/Pods/BoringSSL-GRPC/ssl/handshake_client.cc:672-758 | the hellos are passed, resuming or not |
| `TlsClientSide.CertificateTaken` | TrainingBud/Pods/BoringSSL-GRPC/ssl/handshake_client.cc:771-819 | a certificate comes exactly with certificate ciphers |
| `TlsClientSide.StatusTaken` | TrainingBud/Pods/BoringSSL-GRPC/ssl/handshake_client.cc:821-869 | the status, if it comes, comes next |
| `TlsClientSide.CertificateVerified` | TrainingBud/Pods/BoringSSL-GRPC/ssl/handshake_client.cc:871-889 | past this state every certificate received is verified |
| `TlsClientSide.KeyExchangeTaken` | TrainingBud/Pods/BoringSSL-GRPC/ssl/handshake_client.cc:891-1071 | with certificates the key exchange is signed |
| `TlsClientSide.RequestTaken` | TrainingBud/Pods/BoringSSL-GRPC/ssl/handshake_client.cc:1073-1143 | a request is remembered |
| `TlsClientSide.HelloDoneTaken` | TrainingBud/Pods/BoringSSL-GRPC/ssl/handshake_client.cc:1145-1167 | the turn passes to the client |
| `TlsClientSide.ClientCertificateSent` | TrainingBud/Pods/BoringSSL-GRPC/ssl/handshake_client.cc:1169-1215 | a certificate answers exactly a request |
| `TlsClientSide.ClientKeyExchangeSent` | TrainingBud/Pods/BoringSSL-GRPC/ssl/handshake_client.cc:1356-1370 | the one ClientKeyExchange fixes what the master secret covers |
| `TlsClientSide.VerifySent` | TrainingBud/Pods/BoringSSL-GRPC/ssl/handshake_client.cc:1373-1455 | CertificateVerify keeps its place |
| `TlsClientSide.FinalFlightSent` | TrainingBud/Pods/BoringSSL-GRPC/ssl/handshake_client.cc:1471-1511 | NextProtocol and Channel ID exactly as negotiated, then Finished |
| `TlsClientSide.TicketTaken` | TrainingBud/Pods/BoringSSL-GRPC/ssl/handshake_client.cc:1566-1647 | a ticket comes before the server's Finished |
| `TlsClientSide.ServerFinishedTaken` | TrainingBud/Pods/BoringSSL-GRPC/ssl/handshake_client.cc:1658-1672 | in a full handshake only the end is left |
| `TlsClientSide.ServerFinishedTakenResumed` | TrainingBud/Pods/BoringSSL-GRPC/ssl/handshake_client.cc:1658-1672 | resuming, the client's Finished is left |
| `TlsClient.WriteClientHello` | TrainingBud/Pods/BoringSSL-GRPC/ssl/handshake_client.cc:290-340 | one ClientHello in flight and transcript |
| `TlsClient.DoStartConnect` | TrainingBud/Pods/BoringSSL-GRPC/ssl/handshake_client.cc:385-452 | sends the ClientHello; an unusable session is dropped |
| `TlsClient.DoEnterEarlyData` | TrainingBud/Pods/BoringSSL-GRPC/ssl/handshake_client.cc:454-489 | adds ChangeCipherSpec exactly when early data was offered |
| `TlsClient.DoReadHelloVerifyRequest` | TrainingBud/Pods/BoringSSL-GRPC/ssl/handshake_client.cc:491-533 | taken exactly if one comes next over DTLS: it restarts the transcript and sends the ClientHello again; any other message is left for the next state |
| `TlsClient.ChooseSessionAndCipher` | TrainingBud/Pods/BoringSSL-GRPC/ssl/handshake_client.cc:621-693 | the session is resumed if echoed, else dropped |
| `TlsClient.TakeServerHello` | TrainingBud/Pods/BoringSSL-GRPC/ssl/handshake_client.cc:695-759 | the rest of the ServerHello: hashed, taken, and on to the first state of a full or a resumed handshake |
| `TlsClient.DoReadServerHello` | TrainingBud/Pods/BoringSSL-GRPC/ssl/handshake_client.cc:535-759 | takes the ServerHello and goes on resuming or not; TLS 1.3 leaves it in place; early data and an older version fail |
| `TlsClient.DoTls13` | TrainingBud/Pods/BoringSSL-GRPC/ssl/handshake_client.cc:761-769 | the TLS 1.3 machine ends the handshake or waits |
| `TlsClient.DoReadServerCertificate` | TrainingBud/Pods/BoringSSL-GRPC/ssl/handshake_client.cc:771-819 | takes a nonempty chain exactly with certificate ciphers |
| `TlsClient.DoReadCertificateStatus` | TrainingBud/Pods/BoringSSL-GRPC/ssl/handshake_client.cc:821-869 | taken exactly if it was announced and comes next; anything else is left in place |
| `TlsClient.DoVerifyServerCertificate` | TrainingBud/Pods/BoringSSL-GRPC/ssl/handshake_client.cc:871-889 | goes on only after a good verdict, with certificate ciphers |
| `TlsClient.DoReadServerKeyExchange` | TrainingBud/Pods/BoringSSL-GRPC/ssl/handshake_client.cc:891-1071 | taken exactly if it comes next; required with ECDHE, refused with RSA key exchange, signature checked with certificates |
| `TlsClient.DoReadCertificateRequest` | TrainingBud/Pods/BoringSSL-GRPC/ssl/handshake_client.cc:1073-1143 | with certificate ciphers taken exactly if it comes next, and left exactly if ServerHelloDone does; any other message fails; without them nothing is looked at |
| `TlsClient.DoReadServerHelloDone` | TrainingBud/Pods/BoringSSL-GRPC/ssl/handshake_client.cc:1145-1167 | takes only an empty ServerHelloDone |
| `TlsClient.DoSendClientCertificate` | TrainingBud/Pods/BoringSSL-GRPC/ssl/handshake_client.cc:1169-1215 | sends a chain exactly if asked |
| `TlsClient.DoSendClientKeyExchange` | TrainingBud/Pods/BoringSSL-GRPC/ssl/handshake_client.cc:1220-1371 | sends the message and derives the master secret over the transcript that includes it |
| `TlsClient.DoSendClientCertificateVerify` | TrainingBud/Pods/BoringSSL-GRPC/ssl/handshake_client.cc:1373-1455 | signs the transcript exactly if asked and a certificate is there |
| `TlsClient.AddIfNegotiated` | TrainingBud/Pods/BoringSSL-GRPC/ssl/handshake_client.cc:1475-1503 | one message exactly if negotiated |
| `TlsClient.AddFinalFlight` | TrainingBud/Pods/BoringSSL-GRPC/ssl/handshake_client.cc:1475-1507 | NextProtocol, Channel ID, Finished, each over all before it |
| `TlsClient.DoSendClientFinished` | TrainingBud/Pods/BoringSSL-GRPC/ssl/handshake_client.cc:1457-1512 | ChangeCipherSpec, then the final flight; waits for the Channel ID key first |
| `TlsClient.CanFalseStart` | TrainingBud/Pods/BoringSSL-GRPC/ssl/handshake_client.cc:1514-1536 | allowed only in TLS 1.2 with ECDHE and an AEAD, never in DTLS |
| `TlsClient.DoFinishFlight` | TrainingBud/Pods/BoringSSL-GRPC/ssl/handshake_client.cc:1538-1564 | ends a resumed handshake; in a full one the application may write early only under can_false_start |
| `TlsClient.DoReadSessionTicket` | TrainingBud/Pods/BoringSSL-GRPC/ssl/handshake_client.cc:1566-1647 | taken exactly if one is expected, and then no other message will do; an empty one cancels the expectation |
| `TlsClient.DoProcessChangeCipherSpec` | TrainingBud/Pods/BoringSSL-GRPC/ssl/handshake_client.cc:1649-1656 | new read keys before the Finished |
| `TlsClient.DoReadServerFinished` | TrainingBud/Pods/BoringSSL-GRPC/ssl/handshake_client.cc:1658-1672 | goes on only after the server's Finished over this transcript |
| `TlsClient.DoFinishClientHandshake` | TrainingBud/Pods/BoringSSL-GRPC/ssl/handshake_client.cc:1674-1705 | done, or failing on an allocation |
| `TlsClient.ClientHandshake` | TrainingBud/Pods/BoringSSL-GRPC/ssl/handshake_client.cc:1707-1789 | the driver ends: the rank falls on every ssl_hs_ok and never rises on a wait; waiting for a message means there is none; waiting for any record means the server's Finished is still to come; done only in state_done; if nothing goes wrong outside it fails only because the next message, still in place, is out of place, and waits only for the transport |
| `TlsClient.ClientStep` | TrainingBud/Pods/BoringSSL-GRPC/ssl/handshake_client.cc:1707-1789 | one step of any state: keeps all that is known, passes over no optional message, and if nothing goes wrong outside it fails only for what the next message is |
| `TlsClient.StillNonePassed` | TrainingBud/Pods/BoringSSL-GRPC/ssl/handshake_client.cc:821-1143 | a step that looks at the next message and goes on either takes it or leaves one of another kind |
| `TlsClient.NothingPassedOver` | TrainingBud/Pods/BoringSSL-GRPC/ssl/handshake_client.cc:491-1143 | over whole runs: what is next to be read is never of the kind of an optional place that was left empty |
| `TlsClient.DoneMeans` | TrainingBud/Pods/BoringSSL-GRPC/ssl/handshake_client.cc:1674-1705 | in state_done the transcript is a whole handshake of RFC 5246 section 7.3, the Finished was checked, every certificate verified, an ECDHE key exchange signed |
| `TlsServerSide.MoveLeads` | TrainingBud/Pods/BoringSSL-GRPC/ssl/handshake_server.cc:1539-1621 | every step keeps what the server knows in each state and strictly lowers the rank, though the state graph has a cycle |
| `TlsServerSide.Preparing` | TrainingBud/Pods/BoringSSL-GRPC/ssl/handshake_server.cc:426-560 | nothing is hashed before the parameters are selected |
| `TlsServerSide.ClientHelloTaken` | TrainingBud/Pods/BoringSSL-GRPC/ssl/handshake_server.cc:635-683 | the ClientHello is the first message; a certificate is requested only in a full handshake with certificate ciphers |
| `TlsServerSide.ServerHelloSent` | TrainingBud/Pods/BoringSSL-GRPC/ssl/handshake_server.cc:729-751 | the hellos are passed, resuming or not |
| `TlsServerSide.CertificateSent` | TrainingBud/Pods/BoringSSL-GRPC/ssl/handshake_server.cc:754-785 | a certificate goes exactly with certificate ciphers |
| `TlsServerSide.CertificateAndStatusSent` | TrainingBud/Pods/BoringSSL-GRPC/ssl/handshake_server.cc:770-785 | the status follows it |
| `TlsServerSide.KeyExchangeSent` | TrainingBud/Pods/BoringSSL-GRPC/ssl/handshake_server.cc:842-912 | an ECDHE cipher always gets its key exchange |
| `TlsServerSide.RequestAndHelloDoneSent` | TrainingBud/Pods/BoringSSL-GRPC/ssl/handshake_server.cc:914-947 | the request precedes ServerHelloDone, which passes the turn |
| `TlsServerSide.ClientCertificateTaken` | TrainingBud/Pods/BoringSSL-GRPC/ssl/handshake_server.cc:949-1040 | a client chain comes exactly after a request |
| `TlsServerSide.CertificateVerified` | TrainingBud/Pods/BoringSSL-GRPC/ssl/handshake_server.cc:1042-1056 | past this state a nonempty chain is verified |
| `TlsServerSide.ClientKeyExchangeTaken` | TrainingBud/Pods/BoringSSL-GRPC/ssl/handshake_server.cc:1252-1266 | the one ClientKeyExchange fixes what the master secret covers |
| `TlsServerSide.VerifyTaken` | TrainingBud/Pods/BoringSSL-GRPC/ssl/handshake_server.cc:1269-1363 | a client certificate's CertificateVerify signs all before it |
| `TlsServerSide.OptionalTaken` | TrainingBud/Pods/BoringSSL-GRPC/ssl/handshake_server.cc:1379-1437 | NextProtocol and Channel ID exactly as negotiated |
| `TlsServerSide.ClientFinishedTaken` | TrainingBud/Pods/BoringSSL-GRPC/ssl/handshake_server.cc:1439-1461 | the client's Finished covers all before it |
| `TlsServerSide.TicketAndFinishedSent` | TrainingBud/Pods/BoringSSL-GRPC/ssl/handshake_server.cc:1463-1509 | ticket, then Finished |
| `TlsServer.DoStartAccept` | TrainingBud/Pods/BoringSSL-GRPC/ssl/handshake_server.cc:426-430 | goes on to read the ClientHello |
| `TlsServer.DoReadClientHello` | TrainingBud/Pods/BoringSSL-GRPC/ssl/handshake_server.cc:432-510 | looks at the ClientHello and leaves it; retries and handoff change nothing |
| `TlsServer.DoSelectCertificate` | TrainingBud/Pods/BoringSSL-GRPC/ssl/handshake_server.cc:512-560 | chooses a cipher or fails; TLS 1.3 goes its own way |
| `TlsServer.DoTls13` | TrainingBud/Pods/BoringSSL-GRPC/ssl/handshake_server.cc:562-570 | the TLS 1.3 machine ends the handshake or waits |
| `TlsServer.SelectSession` | TrainingBud/Pods/BoringSSL-GRPC/ssl/handshake_server.cc:586-657 | a certificate is requested only in a full handshake with certificate ciphers; waiting for the session changes nothing |
| `TlsServer.DoSelectParameters` | TrainingBud/Pods/BoringSSL-GRPC/ssl/handshake_server.cc:572-684 | takes the ClientHello into the transcript; a certificate is asked for exactly if configured, in a full handshake with certificate ciphers and no Channel ID instead |
| `TlsServer.DropChannelId` | TrainingBud/Pods/BoringSSL-GRPC/ssl/handshake_server.cc:689-702 | Channel ID survives only with ECDHE |
| `TlsServer.DoSendServerHello` | TrainingBud/Pods/BoringSSL-GRPC/ssl/handshake_server.cc:686-752 | sends the ServerHello and goes on resuming or not |
| `TlsServer.AddCertificate` | TrainingBud/Pods/BoringSSL-GRPC/ssl/handshake_server.cc:758-785 | the certificate and, if expected, its status; fails without a certificate |
| `TlsServer.DoSendServerCertificate` | TrainingBud/Pods/BoringSSL-GRPC/ssl/handshake_server.cc:754-840 | both exactly with certificate ciphers; parameters exactly if required or a PSK hint is set |
| `TlsServer.DoSendServerKeyExchange` | TrainingBud/Pods/BoringSSL-GRPC/ssl/handshake_server.cc:842-912 | sends the parameters exactly if there are any; a signing retry changes nothing |
| `TlsServer.DoSendServerHelloDone` | TrainingBud/Pods/BoringSSL-GRPC/ssl/handshake_server.cc:914-947 | a request exactly if wanted, then ServerHelloDone |
| `TlsServer.DoReadClientCertificate` | TrainingBud/Pods/BoringSSL-GRPC/ssl/handshake_server.cc:949-1040 | takes a chain exactly if requested |
| `TlsServer.DoVerifyClientCertificate` | TrainingBud/Pods/BoringSSL-GRPC/ssl/handshake_server.cc:1042-1056 | a nonempty chain passes only with a good verdict |
| `TlsServer.DoReadClientKeyExchange` | TrainingBud/Pods/BoringSSL-GRPC/ssl/handshake_server.cc:1058-1267 | hashes the message, then derives the master secret over the transcript that includes it |
| `TlsServer.DoReadClientCertificateVerify` | TrainingBud/Pods/BoringSSL-GRPC/ssl/handshake_server.cc:1269-1363 | required exactly if a chain came, and then no other message will do; its signature is over the transcript before it |
| `TlsServer.DoReadChangeCipherSpec` | TrainingBud/Pods/BoringSSL-GRPC/ssl/handshake_server.cc:1365-1368 | waits for ChangeCipherSpec |
| `TlsServer.DoProcessChangeCipherSpec` | TrainingBud/Pods/BoringSSL-GRPC/ssl/handshake_server.cc:1370-1377 | new read keys |
| `TlsServer.DoReadNextProto` | TrainingBud/Pods/BoringSSL-GRPC/ssl/handshake_server.cc:1379-1413 | taken exactly if negotiated |
| `TlsServer.DoReadChannelId` | TrainingBud/Pods/BoringSSL-GRPC/ssl/handshake_server.cc:1415-1437 | taken exactly if negotiated, after its signature |
| `TlsServer.DoReadClientFinished` | TrainingBud/Pods/BoringSSL-GRPC/ssl/handshake_server.cc:1439-1461 | goes on only after the client's Finished over this transcript |
| `TlsServer.AddTicket` | TrainingBud/Pods/BoringSSL-GRPC/ssl/handshake_server.cc:1466-1497 | a ticket exactly if promised |
| `TlsServer.DoSendServerFinished` | TrainingBud/Pods/BoringSSL-GRPC/ssl/handshake_server.cc:1463-1509 | the ticket under the old keys, ChangeCipherSpec, Finished |
| `TlsServer.DoFinishServerHandshake` | TrainingBud/Pods/BoringSSL-GRPC/ssl/handshake_server.cc:1511-1537 | done |
| `TlsServer.ServerHandshake` | TrainingBud/Pods/BoringSSL-GRPC/ssl/handshake_server.cc:1539-1621 | the driver ends: the rank falls on every ssl_hs_ok and never rises on a wait; waiting for a message means there is none; waiting for any record means the client's Finished is still to come; done only in state_done; if nothing goes wrong outside it fails only because the next message is out of place, and waits only for the transport |
| `TlsServer.ServerStep` | TrainingBud/Pods/BoringSSL-GRPC/ssl/handshake_server.cc:1539-1621 | one step of any state: keeps all that is known, and if nothing goes wrong outside it fails only for what the next message is |
| `TlsServer.DoneMeans` | TrainingBud/Pods/BoringSSL-GRPC/ssl/handshake_server.cc:1511-1537 | in state_done the transcript is a whole handshake, the Finished was checked, and a client's chain was verified and its CertificateVerify checked |
| `TlsRun.FlushFlight` | TrainingBud/Pods/BoringSSL-GRPC/ssl/s3_both.cc:231-279 | all or nothing at message level; a refused flush loses nothing |
| `TlsRun.Receive` | TrainingBud/Pods/BoringSSL-GRPC/ssl/s3_both.cc:474-560 | what arrives joins the inbox, which is empty then |
| `TlsRun.RunHandshake` | TrainingBud/Pods/BoringSSL-GRPC/ssl/handshake.cc:491-628 | between calls a half-written flight implies the wait is for the flush; a record is waited for only while the peer's Finished is still to come; success without an early return means state_done; an early return means early data or False Start; exactly the flushed flights are written and exactly what was brought is taken in; it returns -1 only if the transport blocks, the application is asked, or a step failed, and that one for one of its own reasons |
| `TlsRun.Resolve` | TrainingBud/Pods/BoringSSL-GRPC/ssl/handshake.cc:500-580 | what a wait comes to: it stops exactly if the transport does not do what is waited for |
| `TlsRun.CompleteIsSafe` | TrainingBud/Pods/BoringSSL-GRPC/ssl/handshake.cc:491-628 | whole-run safety of both sides: no completion without the peer's Finished checked, every certificate verified, a client's CertificateVerify checked |
| `TlsRun.Fresh` | TrainingBud/Pods/BoringSSL-GRPC/ssl/handshake.cc:127-163 | a new connection satisfies the run invariant |
| `TlsPair.JoinedInOrder` | TrainingBud/Pods/BoringSSL-GRPC/ssl/s3_both.cc:184-279 | what each side took and has waiting is the start of what the other side said |
| `TlsPair.ClientsCheckSucceeds` | TrainingBud/Pods/BoringSSL-GRPC/ssl/handshake_client.cc:1658-1672 | when the client is to check the server's Finished, the server's transcript was the same when it made it, and the check succeeds; full or resumed |
| `TlsPair.ServersCheckSucceeds` | TrainingBud/Pods/BoringSSL-GRPC/ssl/handshake_server.cc:1439-1461 | the same for the client's Finished |
| `TlsPair.SameMasterSecret` | TrainingBud/Pods/BoringSSL-GRPC/ssl/handshake_server.cc:1252-1262 | both sides derive the master secret over the same prefix ending in ClientKeyExchange |
| `TlsPair.SameTranscript` | TrainingBud/Pods/BoringSSL-GRPC/ssl/handshake.cc:380-476 | two completed sides have the same transcript |
| `TlsPair.JointRun` | TrainingBud/Pods/BoringSSL-GRPC/ssl/handshake.cc:491-628 | a client and a server called in any order over in-order channels that may be slow, fail or stop: what each took in and what is on its way is what the other wrote |
| `TlsPair.Call` | TrainingBud/Pods/BoringSSL-GRPC/ssl/handshake.cc:491-628 | one call of either side keeps the two linked, and fails only as RunHandshake says |
| `TlsPair.ServerNeverVerifies` | TrainingBud/Pods/BoringSSL-GRPC/ssl/handshake_server.cc:1539-1621 | a server up to TLS 1.2 never sends a HelloVerifyRequest |
| `TlsPair.LinkedIsJoined` | TrainingBud/Pods/BoringSSL-GRPC/ssl/handshake.cc:491-628 | so between any two calls of such a run two sides that did not fail or go to TLS 1.3 satisfy the hypothesis of all agreement results |
| `TlsPair.FreshAreLinked` | TrainingBud/Pods/BoringSSL-GRPC/ssl/handshake.cc:115-150 | two new connections begin such a run |
| `TlsPair.AcceptedMeansAgreed` | TrainingBud/Pods/BoringSSL-GRPC/ssl/handshake.cc:401-413 | even over a hostile channel, if the Finished accepted is one the peer sent, the transcripts agree up to it |
| `TlsMatch.NextPlace` | TrainingBud/Pods/BoringSSL-GRPC/ssl/handshake_client.cc:1707-1789 | two sides that chose differently which optional messages to send, of which one goes on where the other stands: the choices agreed so far, and the next message is that of the next place filled |
| `TlsMatch.ClientNeverRefuses` | TrainingBud/Pods/BoringSSL-GRPC/ssl/handshake_client.cc:535-1672 | whatever a server of this library says next, a client that read its hello as it was meant does not refuse it, in any state |
| `TlsMatch.ServerNeverRefuses` | TrainingBud/Pods/BoringSSL-GRPC/ssl/handshake_server.cc:949-1461 | nor the server what such a client says next |
| `TlsMatch.NothingRefused` | TrainingBud/Pods/BoringSSL-GRPC/ssl/handshake.cc:491-628 | so between any two steps of two joined sides neither refuses what it has or what is on its way |
| `TlsMatch.ClientMisunderstood` | TrainingBud/Pods/BoringSSL-GRPC/ssl/handshake.cc:491-628 | if a call of the client fails in a joint run though nothing went wrong outside, it read something else in the ServerHello than the server meant |
| `TlsMatch.ServerMisunderstood` | TrainingBud/Pods/BoringSSL-GRPC/ssl/handshake.cc:491-628 | likewise for the server |
| `TlsFraming.ChunksPartition` | TrainingBud/Pods/BoringSSL-GRPC/ssl/s3_both.cc:184-195 | for every max_send_fragment: nothing lost or repeated, none too long, all but the last full, at least one |
| `TlsFraming.ParseRaw` | TrainingBud/Pods/BoringSSL-GRPC/ssl/s3_both.cc:399-425 | a built message parses back, whatever follows |
| `TlsFraming.RawOfParsed` | TrainingBud/Pods/BoringSSL-GRPC/ssl/s3_both.cc:399-425 | what parses is what stands at the front |
| `TlsFraming.ParseMore` | TrainingBud/Pods/BoringSSL-GRPC/ssl/s3_both.cc:399-425 | more bytes do not change a complete message |
| `TlsFraming.DrainMore` | TrainingBud/Pods/BoringSSL-GRPC/ssl/s3_both.cc:427-439 | taking messages early and late gives the same as taking them once |
| `TlsFraming.DeliverIsDrain` | TrainingBud/Pods/BoringSSL-GRPC/ssl/s3_both.cc:441-560 | however a stream is cut into records, none is refused and the messages handed out are those of the stream |
| `TlsFraming.AnySplitDelivers` | TrainingBud/Pods/BoringSSL-GRPC/ssl/s3_both.cc:399-583 | for every record split: exactly the messages added, nothing left over |
| `TlsFraming.FramingRoundTrip` | TrainingBud/Pods/BoringSSL-GRPC/ssl/s3_both.cc:167-205 | from ssl3_add_message at any limits to ssl3_get_message: exactly the messages added |
| `TlsStreams.FlightBuffer.AddRecord` | TrainingBud/Pods/BoringSSL-GRPC/ssl/s3_both.cc:135-165 | one sealed record more exactly if sealing works; requires that the flight is not being written |
| `TlsStreams.FlightBuffer.AddMessage` | TrainingBud/Pods/BoringSSL-GRPC/ssl/s3_both.cc:184-205 | the do-while loop seals exactly Chunks of the message, and fails if and only if one of those seals does |
| `TlsStreams.FlightBuffer.AddChangeCipherSpec` | TrainingBud/Pods/BoringSSL-GRPC/ssl/s3_both.cc:207-218 | one ChangeCipherSpec record more |
| `TlsStreams.FlightBuffer.Flush` | TrainingBud/Pods/BoringSSL-GRPC/ssl/s3_both.cc:231-279 | every byte goes out once and in order, as much as the transport takes; done if and only if the connection is ready, everything is taken and the transport flushes; a refused flush resumes at that byte; a finished one drops the flight |
| `TlsStreams.MessageReader.GetMessage` | TrainingBud/Pods/BoringSSL-GRPC/ssl/s3_both.cc:427-439 | the front message exactly when it is complete |
| `TlsStreams.MessageReader.NextMessage` | TrainingBud/Pods/BoringSSL-GRPC/ssl/s3_both.cc:562-583 | removes exactly the front message |
| `TlsStreams.MessageReader.CanAcceptHandshakeData` | TrainingBud/Pods/BoringSSL-GRPC/ssl/s3_both.cc:441-459 | refuses exactly while a message is complete or one too long is begun |
| `TlsStreams.MessageReader.HasUnprocessedHandshakeData` | TrainingBud/Pods/BoringSSL-GRPC/ssl/s3_both.cc:461-472 | true exactly if there is more than the current message |
| `TlsStreams.MessageReader.OpenHandshake` | TrainingBud/Pods/BoringSSL-GRPC/ssl/s3_both.cc:531-559 | succeeds if and only if reading is not closed, a message is wanted, and a handshake record opens and fits; it is appended whole; close_notify ends the reading, and every failure has its alert |
| `TlsStreams.MessageReader.ProcessAlert` | TrainingBud/Pods/BoringSSL-GRPC/ssl/tls_record.cc:551-601 | close_notify ends the reading, up to four warnings in a row are let pass, anything else fails |
| `TlsStreams.MessageReader.ReadAll` | TrainingBud/Pods/BoringSSL-GRPC/ssl/s3_both.cc:474-583 | the loop of opening and taking hands out Deliver's messages |
| `TlsStreams.MessageReader.DrainBuffer` | TrainingBud/Pods/BoringSSL-GRPC/ssl/s3_both.cc:562-583 | taking until none is complete computes Drain |

## Left out

nanopb:
- Callbacks, extensions, pointer fields and the `PB_ENABLE_MALLOC`, `PB_WITHOUT_64BIT` and `PB_OLD_CALLBACK_STYLE` variants: user code or raw heap. Field sizes are those of `PB_FIELD_32BIT`.
- Fixed-count repeated fields, whose proto3 default check reads the array as its count: the model has a count for every repeated field.
- Destination structs are values that each step replaces, not memory written in place; addresses appear only in the iterator.
- Delimited and null-terminated variants (`pb_decode_delimited`, `pb_encode_nullterminated`): thin wrappers.
- Streams other than buffers, and lengths that overflow `size_t`: lengths are unbounded naturals, and `NanopbEncoder.LengthsFit` asks that they fit 64 bits.
- NanopbRoundTrip.MessageRoundTrip: asks for an encoding below 2^63 bytes, which is more than any object can have.
- NanopbMerge.DecodeConcatenation: asks that the first part ends without a zero tag, which would end the message.
- NanopbIStream.IStream.PassField: wire type 2 with the 32-bit limit on lengths only.

DTLS:
- Timers, MTU discovery, the write buffer, message callbacks and the BIO itself: a retransmission may happen at any time with any MTU, and a write is taken or refused.
- Record headers are not bytes: a record is its epoch, number and payload; the AEAD opens it or not.
- Alerts sent by the sender (`dtls1_add_alert`) and SSL 3.0.
- DtlsReceiver.Receiver.NextMessage: does not set `flight_has_reply`, which belongs to the sender and matters only to when its flight is dropped after the handshake.
- DtlsEndToEnd.DeliveredInOrder: excludes the wrap of the 16-bit message number, since 65536 is not a multiple of seven. Going on after an alert, and delivering a record twice, are allowed to the network although the connection and the replay window stop most of that.
- DtlsSender.Sender.SendFlight: after a failure to seal the position stays where it got to, as in the code; only a refused write restores it.

TLS:
- TLS 1.3, QUIC-like early data beyond the one ChangeCipherSpec, SSLv2 hello conversion, SSL 3.0 special cases, renegotiation, handoff after it begins, and fuzzer mode.
- TlsClient.DoTls13: any outcome of the TLS 1.3 machine; nothing is claimed about transcripts there.
- TlsServer.DoTls13: likewise.
- TlsClient.CanFalseStart: the ALPN and NPN condition is an input.
- TlsClient.DoFinishClientHandshake: establishing the session object is left out, so it is done or fails on an allocation.
- TlsServer.DoFinishServerHandshake: likewise, and it is done.
- TlsCore.Hs.VerifyPeerCert: the verdict stands for custom callback, `SSL_VERIFY_NONE` and the X.509 method together.
- ChangeCipherSpec is not placed among the messages of the in-order channel: its arrival is an event of the transport, and that no handshake bytes are left over then is an outcome of the key change.
- Alerts sent, information callbacks, session cache, tickets' contents and the bodies of messages other than Finished and CertificateVerify.
- TlsRun.FlushFlight: an empty flight also takes an event of the transport; byte offsets are in TlsStreams.
- TlsMatch.NothingRefused: that two sides never get stuck by refusing each other, not that a run completes, which is up to the transport and the application.
- TlsMatch.ClientMisunderstood: reading the ServerHello is an input, so what the two understand by it is a hypothesis of the pair.
- TlsStreams.MessageReader.OpenHandshake: past a server's first record, which may be an SSLv2 hello; a record is what it opens to; alerts as up to TLS 1.2.
- The contents of sealed records and the write buffer shared with application data.

Elsewhere:
- The Swift app, the workshop playgrounds and the other vendored libraries: interface and database plumbing.
- Premaster.SelectPremaster: words are 64 bits wide; the running time, which is why the code has no branches, is not modelled.
- Refcount.Refines: memory orders weaker than sequential consistency are not modelled.
- CipherChoice.Choose: flags are 0 or 1, as their definition says.
- CipherChoice.CompatibleServerCiphers: which certificate is configured and whether a group is shared are inputs.
