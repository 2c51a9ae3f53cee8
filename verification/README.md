# A verified model of the protocol code under ProjectF02/Pods

The project models the three protocol implementations in the repository that do the hardest work, and
proves properties of them over all inputs and all runs.

* **nanopb** (`Pb*.dfy`): the descriptor-driven Protocol Buffers encoder and decoder. `PbWire`,
  `PbMessage` and `PbFormat` say on values what the bytes of a message are and what decoding means;
  `PbLaws`, `PbRoundTrip`, `PbExact`, `PbSkip`, `PbMerge` and `PbEncodable` prove the laws; `PbStream`, `PbIterator`, `PbRequired`,
  `PbEncoder` and `PbDecoder` are the code, on streams over byte arrays, proved to compute exactly that.
* **DTLS** (`Dtls*.dfy`, after RFC 6347 sections 4.1.2.6, 4.2.2, 4.2.3 and 4.2.4): reassembly of
  handshake messages from fragments, in-order delivery over an unreliable network, the replay window,
  unique record numbers, and the sender that cuts a flight into packets. `DtlsDelivery`, `DtlsFlight`,
  `DtlsSending` and the first halves of `DtlsReplay` and `DtlsSequence` are state machines on values with
  their theorems; `DtlsReassembly`, `DtlsReceiver`, `DtlsRecord`, `DtlsSender` and the classes are the code.
* **TLS** (`Tls*.dfy`, after RFC 5246 sections 6.2.1, 7.3, 7.4.1.2 and 7.4.8): the server handshake
  machine with its driver, the choice of the cipher suite, and the write path for application data.

What the peer, the network, the transport, callbacks, clocks, memory allocation and cryptography do is
a parameter. In `TlsHandshake` the choices that a step makes once and for all are the fields of an
arbitrary environment (`Env`), and what a single turn meets is a parameter of that turn (`Turn`).

Main theorems: `PbExact.RoundTripExactly`, `PbLaws.ConcatenationIsMerge`, `PbLaws.UnknownFieldInvisible`,
`PbSkip.NewFieldInvisible`, `PbMerge.SubmessagesMerge`, `PbEncodable.DecodeEncodeDecode`,
`PbEncoder.EncodeSubmessage`, `DtlsDelivery.InOrderDelivery`, `DtlsFlight.WrittenFlightIsDelivered`,
`DtlsSending.SentExactlyUnlessSealFailed`, `DtlsSending.FlightReachesEnd`, `DtlsReplay.WindowRefinesSet`,
`DtlsSequence.UniqueRecordNumbers`, `TlsWrite.WriteExactlyOnce`, `TlsCipher.ChooseCipher`,
`TlsProtocol.CompletedRun` and what follows from it.

Where the code does not keep a promise, the model follows the code and states the exact condition:

* `pb_encode` writes a string that fills its buffer without a terminator; `pb_decode` has no room for
  it. The round trip holds exactly if every string that is sent is terminated (`PbExact.RoundTripExactly`).
* In an empty message type a field numbered 0 is an error instead of being skipped
  (`PbLaws.ZeroTagInEmptyMessage`); `PbLaws.UnknownFieldInvisible` covers every other unknown field.
* `send_flight` rewinds when the transport does not take a packet, but not when sealing fails in the
  middle of one; the records sealed before are then never written. What any sequence of calls has written
  tiles the messages exactly if that has not happened (`DtlsSending.SentExactlyUnlessSealFailed`, with an
  instance in `DtlsSending.SealFailureLosesRecord`); a retransmission starts afresh.
* A sequence counter that wraps around fails once and then starts again at 0
  (`DtlsSequence.WrapRepeats`, `DtlsSequence.EpochOverflowRepeats`).
* `ssl3_write_app_data` called again with a length below `wnum` is refused but forgets `wnum`. If a
  record is pending and the buffer must not move, no later call succeeds; if the buffer may move, or no
  record is pending, a later call can report data that was sealed twice (`TlsWrite.Writer.WriteAppData`,
  `TlsWrite.ShortRetryLosesPlace`, `TlsWrite.ShortRetrySealsTwice`).
* A group of equally preferred suites that is never closed hides its members from `ssl3_choose_cipher`
  (`TlsCipher.ChooseCipher`).

## Model

| member | source | states |
|---|---|---|
| `PbWire.VarintRoundTrip` | ProjectF02/Pods/nanopb/pb_encode.c:494-514 | a varint reads back, whatever follows it |
| `PbWire.EncVarintFits` | ProjectF02/Pods/nanopb/pb_encode.c:494-514 | a 64-bit value takes at most 10 bytes, a 32-bit value at most 5 |
| `PbWire.EncVarintShortest` | ProjectF02/Pods/nanopb/pb_encode.c:494-514 | no byte string that reads as the same number is shorter than what the encoder emits |
| `PbWire.Varint64RoundTrip` | ProjectF02/Pods/nanopb/pb_decode.c:209-229 | pb_decode_varint recovers every 64-bit value from its encoding |
| `PbWire.Varint32RoundTrip` | ProjectF02/Pods/nanopb/pb_decode.c:173-207 | pb_decode_varint32 recovers every 32-bit value from its encoding |
| `PbWire.Varint32AgreesWithVarint64` | ProjectF02/Pods/nanopb/pb_decode.c:173-229 | the 32-bit decoder succeeds exactly on complete encodings of at most five bytes, with the 64-bit result modulo 2^32 and the same rest |
| `PbWire.ZigZagRoundTrip` | ProjectF02/Pods/nanopb/pb_encode.c:516-525 | zig-zag decoding recovers every signed 64-bit value |
| `PbWire.UnZigZagRoundTrip` | ProjectF02/Pods/nanopb/pb_decode.c:1118-1130 | and zig-zag encoding recovers every unsigned 64-bit value |
| `PbWire.LittleEndianRoundTrip` | ProjectF02/Pods/nanopb/pb_encode.c:527-551 | fixed-width values read back |
| `PbWire.DelimitedRoundTrip` | ProjectF02/Pods/nanopb/pb_encode.c:592-598 | a length-prefixed block reads back, whatever follows it |
| `PbMessage.DefaultsFit` | ProjectF02/Pods/nanopb/pb_decode.c:763-850 | the defaults of every well-formed message type are a message of that type |
| `PbMessage.CStringIsPrefix` | ProjectF02/Pods/nanopb/pb_encode.c:739-763 | the string that is sent is the data up to the terminator |
| `PbFormat.DecTurn` | ProjectF02/Pods/nanopb/pb_decode.c:867-922 | one field read from the input leaves a message of the same type, and consumes at least one byte |
| `PbFormat.DecodeNoInit` | ProjectF02/Pods/nanopb/pb_decode.c:852-953 | whatever the input, a successful decode yields a message of the type |
| `PbLaws.TurnLocal` | ProjectF02/Pods/nanopb/pb_decode.c:867-922 | decoding one field depends on the bytes it consumes, not on what follows |
| `PbLaws.LoopSplit` | ProjectF02/Pods/nanopb/pb_decode.c:867-922 | decoding whole fields and then more is decoding them one after the other |
| `PbLaws.LoopSeesRequired` | ProjectF02/Pods/nanopb/pb_decode.c:924-950 | the required fields marked seen are those that the input held |
| `PbLaws.UnsignedInRange` | ProjectF02/Pods/nanopb/pb_decode.c:1202-1224 | an unsigned number is stored exactly if it is in the range of the field, and is an error otherwise |
| `PbLaws.ZigZagInRange` | ProjectF02/Pods/nanopb/pb_decode.c:1226-1248 | so is a zig-zag number |
| `PbLaws.SignedInRange` | ProjectF02/Pods/nanopb/pb_decode.c:1165-1200 | a signed number is reduced to 32 bits unless the field has 64, and is then stored exactly if it is in range |
| `PbLaws.BlobInRange` | ProjectF02/Pods/nanopb/pb_decode.c:1262-1380 | bytes and strings are stored exactly if they fit with their size or terminator, fixed-length bytes if they have their length or none |
| `PbWire.LittleEndianDigit` | ProjectF02/Pods/nanopb/pb_encode.c:527-551 | byte i of a fixed-width number is its digit i to the base 256 |
| `PbWire.VarintDigit` | ProjectF02/Pods/nanopb/pb_encode.c:494-514 | byte i of a varint is its digit i to the base 128, with the high bit in all bytes but the last |
| `PbSkip.SkipWidths` | ProjectF02/Pods/nanopb/pb_decode.c:277-287 | wire type 1 skips exactly eight bytes, type 5 four, type 0 to the first byte without the high bit; others are errors |
| `PbSkip.SkipsVarint` | ProjectF02/Pods/nanopb/pb_decode.c:231-240 | and exactly that byte is the last |
| `PbSkip.SkipsBlock` | ProjectF02/Pods/nanopb/pb_decode.c:242-249 | wire type 2 skips the length prefix and its block, and fails if the block is cut |
| `PbSkip.ValueSkips` | ProjectF02/Pods/nanopb/pb_encode.c:559-590 | what the encoder writes for a value is skipped whole by the wire type it writes for the field |
| `PbSkip.KeyByte` | ProjectF02/Pods/nanopb/pb_encode.c:553-590 | the key of a field numbered below 16: the number and wire type 0, 1, 2 or 5, with the widths of fixed fields |
| `PbSkip.TaggedInvisible` | ProjectF02/Pods/nanopb/pb_decode.c:877-906 | a field as the encoder writes it is passed over by a reader whose descriptor lacks it |
| `PbSkip.CellInvisible` | ProjectF02/Pods/nanopb/pb_decode.c:877-906 | the same under any repetition rule, packed or not |
| `PbSkip.StrangerInvisible` | ProjectF02/Pods/nanopb/pb_decode.c:877-906 | and for a whole message of which the reader knows no field |
| `PbSkip.NewFieldInvisible` | ProjectF02/Pods/nanopb/pb_decode.c:852-953 | a message with a field that the reader lacks, at any field boundary, decodes exactly as without it |
| `PbSkip.ZeroTerminates` | ProjectF02/Pods/nanopb/pb_decode.c:251-275 | a zero in place of a tag ends the message, and what is behind it is not looked at |
| `PbSkip.BrokenTag` | ProjectF02/Pods/nanopb/pb_decode.c:251-275 | a tag that breaks off within five bytes counts as the end, a longer one is an error |
| `PbMerge.SubmessagesMerge` | ProjectF02/Pods/nanopb/pb_decode.c:1334-1356 | a required or optional submessage that arrives in two pieces is the one whose body is both pieces together |
| `PbMerge.MergeKeepsFirst` | ProjectF02/Pods/nanopb/pb_decode.c:1334-1356 | a field of it that the second piece does not mention keeps the value of the first |
| `PbMerge.LoopKeepsOthers` | ProjectF02/Pods/nanopb/pb_decode.c:852-953 | any field that the input does not mention keeps the value that was there |
| `PbMerge.ArmStartsAfresh` | ProjectF02/Pods/nanopb/pb_decode.c:415-424 | in contrast, a submessage in a union starts from defaults each time |
| `PbMerge.ElementStartsAfresh` | ProjectF02/Pods/nanopb/pb_decode.c:404-413 | and so does an element of an array, which goes to its end; a full array is an error |
| `PbMerge.UnpackedAppends` | ProjectF02/Pods/nanopb/pb_decode.c:404-413 | an item behind its own tag is appended to a packable array too; a full array is an error |
| `PbMerge.PackedAppends` | ProjectF02/Pods/nanopb/pb_decode.c:377-402 | a packed array is appended to the items that are there, if all of it fits |
| `PbMerge.WireTypeIgnored` | ProjectF02/Pods/nanopb/pb_decode.c:356-434 | the wire type of a known field plays no part but to tell a packed array from an item |
| `PbMerge.RequiredMissing` | ProjectF02/Pods/nanopb/pb_decode.c:924-950 | a message without one of its required fields is an error |
| `PbMerge.EmptyInput` | ProjectF02/Pods/nanopb/pb_decode.c:955-967 | no input gives the default of every field, at every depth, and is an error exactly if there is a required field |
| `PbEncodable.WrittenExactly` | ProjectF02/Pods/nanopb/pb_encode.c:451-473 | the encoder succeeds exactly if counts are within their arrays, the sizes of the integers that are sent are 1, 2, 4 or 8, and the bytes that are sent are within their field |
| `PbEncodable.LeftOutExactly` | ProjectF02/Pods/nanopb/pb_encode.c:205-351 | nothing is written exactly for the zero of a field without presence, an unset flag, an empty array, and a union member that is not current |
| `PbEncodable.ElementsGood` | ProjectF02/Pods/nanopb/pb_decode.c:374-413 | whatever the input, no array is filled beyond its size |
| `PbEncodable.DecodedIsEncodable` | ProjectF02/Pods/nanopb/pb_decode.c:955-967 | whatever the input, a decoded message is one that the encoder accepts |
| `PbEncodable.DecodeEncodeDecode` | ProjectF02/Pods/nanopb/pb_decode.c:955-967 | decoding, encoding and decoding again gives what decoding alone gave, in canonical form |
| `PbLaws.ConcatenationIsMerge` | ProjectF02/Pods/nanopb/pb_decode.c:852-953 | decoding a and then b into the same message is decoding a followed by b; the whole is malformed exactly if b is; PbMerge says what becomes of a field that is in both |
| `PbLaws.UnknownFieldInvisible` | ProjectF02/Pods/nanopb/pb_decode.c:877-906 | a whole unknown field at any field boundary changes neither the outcome nor the message |
| `PbLaws.ZeroTagInEmptyMessage` | ProjectF02/Pods/nanopb/pb_common.c:78-95 | the exact exception: in an empty message type a field numbered 0, however encoded, is an error at every field boundary |
| `PbRoundTrip.NumberRoundTrip` | ProjectF02/Pods/nanopb/pb_decode.c:1165-1260 | every integer and fixed field value reads back, with the sign extension that negative 32-bit values get |
| `PbRoundTrip.BlobRoundTrip` | ProjectF02/Pods/nanopb/pb_decode.c:1262-1332 | bytes and fixed-length bytes read back; a string does exactly if it leaves room for its terminator |
| `PbRoundTrip.PackedRoundTrip` | ProjectF02/Pods/nanopb/pb_encode.c:129-172 | the items of a packed array read back |
| `PbRoundTrip.ItemsRoundTrip` | ProjectF02/Pods/nanopb/pb_encode.c:173-199 | the items of an unpacked array read back |
| `PbRoundTrip.CellRoundTrip` | ProjectF02/Pods/nanopb/pb_encode.c:271-351 | one field of a message, of any kind, reads back into the message decoded so far |
| `PbRoundTrip.MessageRoundTrip` | ProjectF02/Pods/nanopb/pb_encode.c:451-473 | pb_decode accepts what pb_encode writes, uses it up and rebuilds the message, with nested submessages, arrays and oneofs |
| `PbExact.RoundTripExactly` | ProjectF02/Pods/nanopb/pb_decode.c:1299-1332 | it does so exactly if every string that is sent leaves room for its terminator, which the encoder does not check |
| `PbExact.DecodedEncodesTheSame` | ProjectF02/Pods/nanopb/pb_encode.c:451-473 | what the round trip may change is only what is never sent: the decoded message encodes to the same bytes |
| `PbStream.IStream.Read` | ProjectF02/Pods/nanopb/pb_decode.c:91-125 | reads exactly that many bytes of the window or fails |
| `PbStream.DecodeVarint` | ProjectF02/Pods/nanopb/pb_decode.c:209-229 | the shifting loop computes the value of the varint, fails on more than ten bytes, and stays in its window |
| `PbStream.DecodeVarint32` | ProjectF02/Pods/nanopb/pb_decode.c:173-207 | the same for 32 bits, in wrapping arithmetic |
| `PbStream.SkipVarint` | ProjectF02/Pods/nanopb/pb_decode.c:231-240 | skips to the end of the varint |
| `PbStream.MakeSubstream` | ProjectF02/Pods/nanopb/pb_decode.c:322-335 | the substream is the announced block, and parent count and substream end make up the old end |
| `PbStream.CloseSubstream` | ProjectF02/Pods/nanopb/pb_decode.c:337-350 | whatever the substream has left, the parent continues behind the block |
| `PbStream.DecodeTag` | ProjectF02/Pods/nanopb/pb_decode.c:251-275 | reads a tag, or says end of input for no bytes and for a zero |
| `PbStream.SkipField` | ProjectF02/Pods/nanopb/pb_decode.c:277-287 | skips the payload of each wire type |
| `PbStream.OStream.Write` | ProjectF02/Pods/nanopb/pb_encode.c:91-114 | succeeds exactly if there is room, and writes nowhere else; a sizing stream only counts |
| `PbStream.EncodeVarint` | ProjectF02/Pods/nanopb/pb_encode.c:494-514 | writes the varint if there is room |
| `PbStream.EncodeSVarint` | ProjectF02/Pods/nanopb/pb_encode.c:516-525 | writes the zig-zag varint of a signed value |
| `PbIterator.LayoutDescribes` | ProjectF02/Pods/nanopb/pb_common.c:20-76 | the offsets that the generated tables encode describe every well-formed table |
| `PbIterator.FieldIter.Begin` | ProjectF02/Pods/nanopb/pb_common.c:8-18 | stands on the first field, with its address |
| `PbIterator.FieldIter.Next` | ProjectF02/Pods/nanopb/pb_common.c:20-76 | after any number of calls the data pointer is the declared offset of the current field, in unions and after arrays too, and the required index counts the required fields before it |
| `PbIterator.FieldIter.Find` | ProjectF02/Pods/nanopb/pb_common.c:78-95 | stops at the one field with the tag, or returns to where it started |
| `PbRequired.CheckRequired` | ProjectF02/Pods/nanopb/pb_decode.c:924-950 | the check of the bitmap words succeeds exactly if every required field was seen |
| `PbRequired.RequiredFromIs` | ProjectF02/Pods/nanopb/pb_decode.c:924-950 | the required fields have the indices 0, 1, ... up to their number |
| `PbEncoder.EncodeMessage` | ProjectF02/Pods/nanopb/pb_encode.c:451-473 | succeeds exactly if the encoding is defined and fits, writes exactly it, and touches nothing else |
| `PbEncoder.EncodeSubmessage` | ProjectF02/Pods/nanopb/pb_encode.c:600-648 | the sizing pass finds the size of the real pass at every depth, so "submsg size changed" is never raised and the inner stream is never full |
| `PbEncoder.EncodeBody` | ProjectF02/Pods/nanopb/pb_encode.c:614-648 | the real pass fills a stream of exactly the announced size |
| `PbEncoder.GetEncodedSize` | ProjectF02/Pods/nanopb/pb_encode.c:480-489 | the size of what pb_encode writes |
| `PbEncoder.EncodeField` | ProjectF02/Pods/nanopb/pb_encode.c:271-351 | required, optional, repeated and oneof fields, with the has_ flag, the zero check and the oneof choice |
| `PbEncoder.EncodeArray` | ProjectF02/Pods/nanopb/pb_encode.c:116-203 | packed or item by item; the count must not exceed the size |
| `PbEncoder.EncodePacked` | ProjectF02/Pods/nanopb/pb_encode.c:129-172 | the announced length is the length of the items |
| `PbEncoder.EncodeItem` | ProjectF02/Pods/nanopb/pb_encode.c:652-778 | one value of any type |
| `PbEncoder.FixedSize` | ProjectF02/Pods/nanopb/pb_encode.c:135-143 | the size of a packed fixed-width array is the number of items times the width |
| `PbEncoder.StringLength` | ProjectF02/Pods/nanopb/pb_encode.c:739-763 | the characters before the terminator |
| `PbDecoder.Decode` | ProjectF02/Pods/nanopb/pb_decode.c:955-967 | in code: defaults, then the fields, with the window restored and never left |
| `PbDecoder.DecodeMessage` | ProjectF02/Pods/nanopb/pb_decode.c:852-953 | the loop over the input with iterator, bitmap and final check computes the decoding |
| `PbDecoder.CheckFieldsSeen` | ProjectF02/Pods/nanopb/pb_decode.c:924-950 | the check at the end succeeds exactly if all required fields were seen |
| `PbDecoder.DecodeTurn` | ProjectF02/Pods/nanopb/pb_decode.c:867-922 | one turn of it: tag, find, skip or decode |
| `PbDecoder.DecodeField` | ProjectF02/Pods/nanopb/pb_decode.c:356-434 | each kind of field into its place: a submessage over the one that is there (PbMerge), a oneof arm from defaults |
| `PbDecoder.DecodeInPlace` | ProjectF02/Pods/nanopb/pb_decode.c:366-372 | the required and optional cases: over the value that is there, and the flag is set |
| `PbDecoder.DecodeRepeated` | ProjectF02/Pods/nanopb/pb_decode.c:374-413 | packed or single items are appended as long as there is room |
| `PbDecoder.DecodePacked` | ProjectF02/Pods/nanopb/pb_decode.c:377-402 | items until the block is used up or the array is full |
| `PbDecoder.DecodeSubmessage` | ProjectF02/Pods/nanopb/pb_decode.c:1334-1356 | a submessage in its block, into the struct that is there; the parent goes on behind the block |
| `PbDecoder.DecodeNumber` | ProjectF02/Pods/nanopb/pb_decode.c:1165-1260 | integers with range checks, fixed-width values |
| `PbDecoder.DecodeBlob` | ProjectF02/Pods/nanopb/pb_decode.c:1262-1380 | bytes, strings and fixed-length bytes, with their size checks |
| `PbDecoder.MessageSetToDefaults` | ProjectF02/Pods/nanopb/pb_decode.c:835-850 | every field gets its default |
| `DtlsReassembly.BitRangeBits` | ProjectF02/Pods/BoringSSL/ssl/d1_both.cc:203-206 | bit_range sets the bits from start to end and no other |
| `DtlsReassembly.HmFragment.constructor` | ProjectF02/Pods/BoringSSL/ssl/d1_both.cc:152-198 | nothing has arrived; no mask exactly for an empty message |
| `DtlsReassembly.HmFragment.Mark` | ProjectF02/Pods/BoringSSL/ssl/d1_both.cc:211-251 | the marked positions are added, none beyond the message, and the mask is released exactly when all have arrived |
| `DtlsReassembly.HmFragment.MarkMask` | ProjectF02/Pods/BoringSSL/ssl/d1_both.cc:217-231 | the first byte, the whole bytes and the last byte of the mask get exactly the bits of the range |
| `DtlsReassembly.HmFragment.IsComplete` | ProjectF02/Pods/BoringSSL/ssl/d1_both.cc:233-250 | says whether every position has arrived |
| `DtlsReassembly.MarkedMask` | ProjectF02/Pods/BoringSSL/ssl/d1_both.cc:217-231 | marking byte by byte marks the range |
| `DtlsFragment.HeaderLayout` | ProjectF02/Pods/BoringSSL/ssl/d1_both.cc:692-703 | the bytes of the header: type, length, number, offset and length of the slice, most significant first |
| `DtlsFragment.FragmentRoundTrip` | ProjectF02/Pods/BoringSSL/ssl/d1_both.cc:459-473 | parsing a fragment undoes assembling it, whatever follows |
| `DtlsDelivery.Receive` | ProjectF02/Pods/BoringSSL/ssl/d1_both.cc:265-293 | every fragment leaves slot i holding a message numbered i modulo 7 inside the window, or is an error |
| `DtlsDelivery.ReceiveFailsExactly` | ProjectF02/Pods/BoringSSL/ssl/d1_both.cc:265-293 | a fragment is fatal exactly if it reaches beyond its message, its message is too long, it is out of turn in an encrypted epoch, it is exactly seven messages ahead, or it contradicts the type or length of its message |
| `DtlsDelivery.HonestReceived` | ProjectF02/Pods/BoringSSL/ssl/d1_both.cc:358-401 | a true slice is fatal only in the middle three cases, and one of a message processed before or too far ahead changes nothing |
| `DtlsDelivery.AllReceived` | ProjectF02/Pods/BoringSSL/ssl/d1_both.cc:338-401 | true slices are received without an error exactly if the limits allow each of them |
| `DtlsDelivery.RecordReceived` | ProjectF02/Pods/BoringSSL/ssl/d1_both.cc:297-406 | the same for the slices of a record |
| `DtlsDelivery.RunFailsExactly` | ProjectF02/Pods/BoringSSL/ssl/d1_both.cc:297-438 | a run over records of true slices fails exactly at a slice that is not allowed where the run has got to |
| `DtlsDelivery.NearbyRunSucceeds` | ProjectF02/Pods/BoringSSL/ssl/d1_both.cc:297-438 | while the sender is at most seven messages ahead, the epoch is not encrypted and messages are not too long, no run fails, whatever is repeated or reordered |
| `DtlsDelivery.SameSlotSameNumber` | ProjectF02/Pods/BoringSSL/ssl/d1_both.cc:265-293 | two numbers in the window share a slot only if they are equal |
| `DtlsDelivery.RecordAgrees` | ProjectF02/Pods/BoringSSL/ssl/d1_both.cc:297-406 | a record of true slices keeps every stored byte the byte the sender sent |
| `DtlsDelivery.CurrentIsNext` | ProjectF02/Pods/BoringSSL/ssl/d1_both.cc:408-438 | what is handed out is the next message of the sender |
| `DtlsDelivery.InOrderDelivery` | ProjectF02/Pods/BoringSSL/ssl/d1_both.cc:265-438 | whatever true slices arrive, in whatever order and however often, messages 0, 1, 2, ... are handed out exactly once each; the run ends in an error exactly if a slice arrives that the limits do not allow |
| `DtlsDelivery.CoveredMessageIsDelivered` | ProjectF02/Pods/BoringSSL/ssl/d1_both.cc:265-438 | once slices that cover the next message and are allowed have arrived, nothing has failed and it is handed out |
| `DtlsDelivery.CoveredMessageIsReady` | ProjectF02/Pods/BoringSSL/ssl/d1_both.cc:265-438 | the same for every message in the window: it is complete in its slot |
| `DtlsDelivery.ReadyMessagesDelivered` | ProjectF02/Pods/BoringSSL/ssl/d1_both.cc:408-438 | complete messages are handed out one after the other |
| `DtlsReceiver.CompleteIsReleased` | ProjectF02/Pods/BoringSSL/ssl/d1_both.cc:255-263 | a message is complete exactly when its mask is gone |
| `DtlsReceiver.Store` | ProjectF02/Pods/BoringSSL/ssl/d1_both.cc:386-396 | the copy and the mark add exactly the slice |
| `DtlsReceiver.DtlsState.GetIncomingMessage` | ProjectF02/Pods/BoringSSL/ssl/d1_both.cc:265-293 | finds or makes the slot of the message, and rejects another type or length |
| `DtlsReceiver.DtlsState.ReceiveFragment` | ProjectF02/Pods/BoringSSL/ssl/d1_both.cc:338-401 | one fragment: exactly the step of the model, for every fragment |
| `DtlsReceiver.DtlsState.OpenHandshake` | ProjectF02/Pods/BoringSSL/ssl/d1_both.cc:297-406 | one record: fragment after fragment, or an error |
| `DtlsReceiver.DtlsState.GetMessage` | ProjectF02/Pods/BoringSSL/ssl/d1_both.cc:408-424 | the next message, once it is complete |
| `DtlsReceiver.DtlsState.NextMessage` | ProjectF02/Pods/BoringSSL/ssl/d1_both.cc:426-438 | the slot is freed and the number goes up |
| `DtlsReplay.ShiftBit` | ProjectF02/Pods/BoringSSL/ssl/dtls_record.cc:162-170 | shifting the window moves its bits |
| `DtlsReplay.DiscardExactly` | ProjectF02/Pods/BoringSSL/ssl/dtls_record.cc:140-150 | a number is discarded exactly if it was recorded or lies 64 or more behind the maximum |
| `DtlsReplay.RecordRemembers` | ProjectF02/Pods/BoringSSL/ssl/dtls_record.cc:155-175 | after recording, bit i is set exactly if the maximum minus i was recorded |
| `DtlsReplay.WindowRefinesSet` | ProjectF02/Pods/BoringSSL/ssl/dtls_record.cc:140-175 | over every run the window accepts what an unbounded memory would |
| `DtlsReplay.NoReplay` | ProjectF02/Pods/BoringSSL/ssl/dtls_record.cc:140-175 | no number is accepted twice in an epoch |
| `DtlsReplay.Bitmap.ShouldDiscard` | ProjectF02/Pods/BoringSSL/ssl/dtls_record.cc:140-150 | the query in code |
| `DtlsReplay.Bitmap.Record` | ProjectF02/Pods/BoringSSL/ssl/dtls_record.cc:155-175 | the update in code |
| `DtlsRecord.ToU64Be` | ProjectF02/Pods/BoringSSL/ssl/dtls_record.cc:128-135 | the big-endian number of the eight bytes |
| `DtlsRecord.SealedRecordOpens` | ProjectF02/Pods/BoringSSL/ssl/dtls_record.cc:309-342 | the header that sealing writes is the one that opening reads: type, version, epoch, number, body |
| `DtlsRecord.SealedRecordAccepted` | ProjectF02/Pods/BoringSSL/ssl/dtls_record.cc:177-272 | a record as sealing writes it is accepted with its plaintext exactly if its epoch and version are those being read and its number is new |
| `DtlsRecord.ReadState.OpenRecord` | ProjectF02/Pods/BoringSSL/ssl/dtls_record.cc:177-272 | the outcome of the model in every case; what is accepted is remembered, and no number is accepted twice |
| `DtlsRecord.ReadState.SetReadState` | ProjectF02/Pods/BoringSSL/ssl/dtls_method.cc:80-95 | a new epoch with an empty window; refused with handshake data left over |
| `DtlsSequence.SequenceUpdate` | ProjectF02/Pods/BoringSSL/ssl/tls_record.cc:154-163 | counts up; after the greatest number comes zero, with a failure |
| `DtlsSequence.BigEndianInjective` | ProjectF02/Pods/BoringSSL/ssl/dtls_record.cc:128-135 | different byte strings are different numbers |
| `DtlsSequence.WriteState.SealRecord` | ProjectF02/Pods/BoringSSL/ssl/dtls_record.cc:294-351 | the record carries the number of its epoch, which is used up as soon as the cipher has sealed |
| `DtlsSequence.WriteState.SetWriteState` | ProjectF02/Pods/BoringSSL/ssl/dtls_method.cc:97-107 | the epoch goes up, the numbers of the old one are kept |
| `DtlsSequence.NumbersAccounted` | ProjectF02/Pods/BoringSSL/ssl/dtls_record.cc:294-351 | until a counter wraps, the numbers used in the last two epochs are exactly those below the counters, each once |
| `DtlsSequence.UniqueRecordNumbers` | ProjectF02/Pods/BoringSSL/ssl/dtls_record.cc:294-351 | over any interleaving of seals, retransmissions and key changes no epoch and number are used twice, until a counter wraps |
| `DtlsSequence.WrapRepeats` | ProjectF02/Pods/BoringSSL/ssl/tls_record.cc:154-163 | the condition is exact: after the failure of a wrap the next record with the same keys repeats a number |
| `DtlsSequence.EpochOverflowRepeats` | ProjectF02/Pods/BoringSSL/ssl/dtls_method.cc:97-107 | and so it does after 2^16 changes of keys |
| `DtlsFlight.NextSlice` | ProjectF02/Pods/BoringSSL/ssl/d1_both.cc:682-710 | the fragment that is assembled is the next slice of the message |
| `DtlsFlight.FlightTiles` | ProjectF02/Pods/BoringSSL/ssl/d1_both.cc:630-813 | records that walk through the flight carry each message exactly once, contiguous and in order |
| `DtlsFlight.WalkCarries` | ProjectF02/Pods/BoringSSL/ssl/d1_both.cc:630-813 | and records written so far carry exactly what lies before the cursor |
| `DtlsFlight.WalkAdvances` | ProjectF02/Pods/BoringSSL/ssl/d1_both.cc:725-766 | every record moves the cursor forward |
| `DtlsFlight.FragmentsHonest` | ProjectF02/Pods/BoringSSL/ssl/d1_both.cc:682-710 | every fragment sent is a true slice of a message |
| `DtlsFlight.WrittenFlightIsDelivered` | ProjectF02/Pods/BoringSSL/ssl/d1_both.cc:630-813 | end to end: once the fragments of a written flight have arrived, in any order, with repetitions and among other true slices that the limits allow, nothing has failed and the receiver hands out the messages of the flight from the one it waits for on, each once and in order |
| `DtlsFlight.FlightSupplies` | ProjectF02/Pods/BoringSSL/ssl/d1_both.cc:630-813 | the fragments of a written flight carry all of each of its messages |
| `DtlsSending.SealDecides` | ProjectF02/Pods/BoringSSL/ssl/d1_both.cc:630-720 | a record is sealed exactly if the keys of the epoch are there, the message is well formed, there is room for a record with one byte of it, and the cipher works; for lack of room there is no progress, and anything else is an error |
| `DtlsSending.KeysChange` | ProjectF02/Pods/BoringSSL/ssl/d1_both.cc:636-642 | after a change of keys messages of the old epoch keep their cipher, those of the new one get the new one, older ones none |
| `DtlsSending.PacketIsFull` | ProjectF02/Pods/BoringSSL/ssl/d1_both.cc:722-766 | a packet takes as much of the flight as possible: it ends only at the end of the flight, within a message whose part fills it, or where the next message does not fit |
| `DtlsSending.PacketSeals` | ProjectF02/Pods/BoringSSL/ssl/d1_both.cc:725-766 | with keys, well-formed messages, a working cipher and room for one byte of each message, a packet is never empty and never fails |
| `DtlsSending.FlightReachesEnd` | ProjectF02/Pods/BoringSSL/ssl/d1_both.cc:768-813 | then, and if the transport takes every packet, a flight is sent to its end, however large its messages |
| `DtlsSending.RoundFailsShort` | ProjectF02/Pods/BoringSSL/ssl/d1_both.cc:785-804 | a packet that is not written leaves the cursor short of the end |
| `DtlsSending.SealsTheNext` | ProjectF02/Pods/BoringSSL/ssl/d1_both.cc:630-720 | a record that is sealed is the next step of the walk and fits the room; a part of a message fills it |
| `DtlsSending.PacketPlays` | ProjectF02/Pods/BoringSSL/ssl/d1_both.cc:725-766 | the events of a packet are sealings of consecutive records and at most one failure at the end, and nothing is written |
| `DtlsSending.RoundPlays` | ProjectF02/Pods/BoringSSL/ssl/d1_both.cc:785-804 | a packet that is written moves the cursor on, one that is refused moves it back |
| `DtlsSending.FlightLeads` | ProjectF02/Pods/BoringSSL/ssl/d1_both.cc:768-813 | a call leaves no packet open, and a failure or refusal is its last event |
| `DtlsSending.LosesAtTheEnd` | ProjectF02/Pods/BoringSSL/ssl/d1_both.cc:785-804 | a call loses records only if it ends with a failure to seal, so a refused write loses nothing |
| `DtlsSending.LosesInParts` | ProjectF02/Pods/BoringSSL/ssl/d1_both.cc:768-813 | calls lose what each of them loses |
| `DtlsSending.TilesExactlyUnlessSealFailed` | ProjectF02/Pods/BoringSSL/ssl/d1_both.cc:768-813 | whatever happened, what was written leads from the start of the flight to the cursor exactly if no sealing failed after a record of the same packet was sealed; if one did, less was written than the cursor has passed |
| `DtlsSending.SentExactlyUnlessSealFailed` | ProjectF02/Pods/BoringSSL/ssl/d1_both.cc:630-813 | the same over any sequence of calls, with any keys, MTUs, sealing results and write results; at the end of the flight every message is then carried exactly once |
| `DtlsSending.SealFailureLosesRecord` | ProjectF02/Pods/BoringSSL/ssl/d1_both.cc:785-804 | two calls for a flight of two handshake messages: sealing the second message fails, the other call succeeds, the cursor is at the end, and the first message was never written |
| `DtlsSender.DtlsSender.AddMessage` | ProjectF02/Pods/BoringSSL/ssl/d1_both.cc:511-584 | the message is serialized with the next number and takes the next place behind the earlier messages, at most seven |
| `DtlsSender.DtlsSender.AddOutgoing` | ProjectF02/Pods/BoringSSL/ssl/d1_both.cc:541-580 | a finished flight is discarded first; at most seven messages; the earlier ones and what was written of them stay |
| `DtlsSender.DtlsSender.SealNextMessage` | ProjectF02/Pods/BoringSSL/ssl/d1_both.cc:630-720 | what the model seals, for every outcome of the cipher, with all that SealDecides and SealsTheNext say of it; the cursor moves within the message |
| `DtlsSender.DtlsSender.SealNextPacket` | ProjectF02/Pods/BoringSSL/ssl/d1_both.cc:725-766 | a walk from the old cursor to the new one that fits, with exactly the events of the model; it succeeds exactly if something was sealed and no sealing failed |
| `DtlsSender.DtlsSender.UpdateMtu` | ProjectF02/Pods/BoringSSL/ssl/d1_both.cc:601-618 | the MTU is at least the minimum unless queries are off |
| `DtlsSender.DtlsSender.SendPacket` | ProjectF02/Pods/BoringSSL/ssl/d1_both.cc:785-804 | a packet that the transport does not take is rewound and marks the connection as wanting to write; one that cannot be sealed does neither |
| `DtlsSender.DtlsSender.SendFlight` | ProjectF02/Pods/BoringSSL/ssl/d1_both.cc:768-813 | terminates with exactly the events of the model; every packet written fits the MTU; success means exactly that sending started, the cursor is at the end and the transport flushed, and then this call lost nothing; it is certain if nothing fails and one byte of each message fits the MTU; a call that loses records returns -1 without wanting to write |
| `DtlsSender.DtlsSender.FlushFlight` | ProjectF02/Pods/BoringSSL/ssl/d1_both.cc:815-820 | the same, and the flight is complete |
| `DtlsSender.DtlsSender.RetransmitOutgoingMessages` | ProjectF02/Pods/BoringSSL/ssl/d1_both.cc:822-831 | success, under the same conditions, means that this pass alone carried every message exactly once |
| `DtlsSender.DtlsSender.TilesExactlyUnlessLost` | ProjectF02/Pods/BoringSSL/ssl/d1_both.cc:768-813 | over any sequence of method calls: what was written since the start of the flight leads to the cursor exactly if no sealing failed after a record of the same packet was sealed |
| `DtlsSender.DtlsSender.WrittenFlight` | ProjectF02/Pods/BoringSSL/ssl/d1_both.cc:768-813 | if so, and the cursor is at the end, every message was carried exactly once |
| `DtlsSender.DtlsSender.WrittenFlightIsHandedOut` | ProjectF02/Pods/BoringSSL/ssl/d1_both.cc:768-813 | and a receiver that waits for this flight and whose limits allow it then hands out all its messages in order |
| `DtlsSender.DtlsSender.WritePacket` | ProjectF02/Pods/BoringSSL/ssl/d1_both.cc:792-801 | write or rewind |
| `TlsWrite.WriteExactlyOnce` | ProjectF02/Pods/BoringSSL/ssl/s3_pkt.cc:129-289 | over any run of calls by a caller that retries with the same buffer and at least the same length: what was sealed and reported is the concatenation of the prefixes the calls reported, and what was sealed beyond that is the start of the data to be retried |
| `TlsWrite.Writer.WriteAppData` | ProjectF02/Pods/BoringSSL/ssl/s3_pkt.cc:129-200 | one call: a positive result reports a prefix sealed exactly once, in records within max_send_fragment; after any other result the same call can be made again, with what has gone out within the length; a retry shorter than wnum forgets it, and a pending record is then stuck for good unless the buffer may move; if nothing fails, the result is the whole length, or with partial writes the first record |
| `TlsWrite.Writer.WriteRecords` | ProjectF02/Pods/BoringSSL/ssl/s3_pkt.cc:158-199 | the loop over the records; what has gone out stays within the length |
| `TlsWrite.Writer.WriteOne` | ProjectF02/Pods/BoringSSL/ssl/s3_pkt.cc:160-196 | one turn of it |
| `TlsWrite.Writer.DoWrite` | ProjectF02/Pods/BoringSSL/ssl/s3_pkt.cc:221-289 | a pending record first, otherwise one new record |
| `TlsWrite.Writer.WritePending` | ProjectF02/Pods/BoringSSL/ssl/s3_pkt.cc:202-218 | refused unless type, buffer and length match; done exactly when the buffer is flushed |
| `TlsWrite.Writer.SealToBuffer` | ProjectF02/Pods/BoringSSL/ssl/s3_pkt.cc:254-285 | waiting handshake data and then the record go into the buffer |
| `TlsWrite.WriteBuffer.Flush` | ProjectF02/Pods/BoringSSL/ssl/ssl_buffer.cc:239-252 | the transport gets the bytes in order, none lost |
| `TlsWrite.ShortRetryLosesPlace` | ProjectF02/Pods/BoringSSL/ssl/s3_pkt.cc:143-159 | an instance: first record out, second pending; after a retry that is too short, a retry with a moving buffer seals the second record again and reports all the data |
| `TlsWrite.ShortRetrySealsTwice` | ProjectF02/Pods/BoringSSL/ssl/s3_pkt.cc:143-159 | an instance without a pending record and without a moving buffer: the first record is sealed again |
| `TlsWrite.MatchesContinues` | ProjectF02/Pods/BoringSSL/ssl/s3_pkt.cc:143-159 | forgetting a nonzero wnum always breaks the match of data and sealed bytes |
| `TlsCipher.ListRoundTrip` | ProjectF02/Pods/BoringSSL/ssl/handshake_server.cc:293-321 | the code points of the client list read back |
| `TlsCipher.ParseClientCipherList` | ProjectF02/Pods/BoringSSL/ssl/handshake_server.cc:293-321 | unknown suites are skipped, an odd length is an error |
| `TlsCipher.ChooseCipher` | ProjectF02/Pods/BoringSSL/ssl/handshake_server.cc:393-423 | the suite of lowest rank in the other list within the first group with a usable suite; none exactly if there is none, for well-formed flags, and otherwise exactly if its group is never closed |
| `TlsCipher.ChoiceUnique` | ProjectF02/Pods/BoringSSL/ssl/handshake_server.cc:357-424 | the specification admits one answer |
| `TlsCipher.UngroupedChoice` | ProjectF02/Pods/BoringSSL/ssl/handshake_server.cc:375-383 | with the client preference the answer is the first usable suite |
| `TlsCipher.SelectCipher` | ProjectF02/Pods/BoringSSL/ssl/handshake_server.cc:357-424 | the whole choice from the bytes of the client list |
| `TlsCipher.SharesABit` | ProjectF02/Pods/BoringSSL/ssl/handshake_server.cc:396-402 | the masks of a suite and of the server match exactly if they have one bit in common |
| `TlsCipher.KeyExchangesApart` | ProjectF02/Pods/BoringSSL/ssl/internal.h:416-429 | the key exchanges are single, different bits |
| `TlsCipher.CredentialsNeeded` | ProjectF02/Pods/BoringSSL/ssl/handshake_server.cc:327-355 | a suite can be used exactly if the version fits, RSA key exchange finds an RSA certificate, ECDHE a shared group, PSK a PSK, and there is a certificate of its kind or a PSK |
| `TlsCipher.CredentialsDecide` | ProjectF02/Pods/BoringSSL/ssl/handshake_server.cc:327-355 | a suite is supported exactly if the version fits, one of its key exchanges has what it needs, and one of its ways to authenticate is there |
| `TlsProtocol.RankDrops` | ProjectF02/Pods/BoringSSL/ssl/handshake_server.cc:1539-1615 | every successful step lowers a rank that depends on resumption |
| `TlsProtocol.StepsAreBounded` | ProjectF02/Pods/BoringSSL/ssl/handshake_server.cc:1539-1615 | so at most twenty steps succeed |
| `TlsProtocol.RunOnTrack` | ProjectF02/Pods/BoringSSL/ssl/handshake_server.cc:426-1537 | in every run, whatever retries occur, the state and the number of successful steps determine everything that has happened |
| `TlsProtocol.CompletedRun` | ProjectF02/Pods/BoringSSL/ssl/handshake_server.cc:426-1537 | every completed run did exactly the events of a full handshake or of a resumption, in order |
| `TlsProtocol.RunOfSteps` | ProjectF02/Pods/BoringSSL/ssl/handshake_server.cc:1539-1615 | as long as nothing is refused, runs of every number of steps exist |
| `TlsProtocol.CompletedExactlyUnlessRefused` | ProjectF02/Pods/BoringSSL/ssl/handshake_server.cc:949-1040 | a completed run exists exactly if the answer to the certificate request is not one that the server refuses |
| `TlsProtocol.FinishedOnceAndInOrder` | ProjectF02/Pods/BoringSSL/ssl/handshake_server.cc:1439-1509 | the client Finished is checked once, after the read keys, the server Finished sent once, after the write keys; client first in a full handshake, server first in a resumption |
| `TlsProtocol.ClientAuthenticatedBeforeChangeCipherSpec` | ProjectF02/Pods/BoringSSL/ssl/handshake_server.cc:949-1363 | with a required certificate: a chain that is not empty, its verification and an accepted CertificateVerify come before ChangeCipherSpec |
| `TlsProtocol.NoUncheckedChain` | ProjectF02/Pods/BoringSSL/ssl/handshake_server.cc:1042-1056 | every chain received is verified, and its signature too, before the client Finished counts |
| `TlsHandshake.ServerHandshake.DoReadClientHello` | ProjectF02/Pods/BoringSSL/ssl/handshake_server.cc:432-510 | a step of the model that succeeds exactly if its message is there and its checks pass, as for all the following |
| `TlsHandshake.ServerHandshake.DoSelectCertificate` | ProjectF02/Pods/BoringSSL/ssl/handshake_server.cc:512-560 | waits for the certificate callback; TLS 1.3 goes its own way |
| `TlsHandshake.ServerHandshake.DoSelectParameters` | ProjectF02/Pods/BoringSSL/ssl/handshake_server.cc:572-684 | session or not, and whether to ask for a certificate |
| `TlsHandshake.ServerHandshake.DoSendServerHello` | ProjectF02/Pods/BoringSSL/ssl/handshake_server.cc:686-752 | Channel ID is dropped without ECDHE or without recorded hashes; resumption skips to the server Finished |
| `TlsHandshake.ServerHandshake.DoSendServerCertificate` | ProjectF02/Pods/BoringSSL/ssl/handshake_server.cc:754-840 | Certificate and CertificateStatus only for certificate suites |
| `TlsHandshake.ServerHandshake.DoSendServerKeyExchange` | ProjectF02/Pods/BoringSSL/ssl/handshake_server.cc:842-912 | only if there are parameters; a pending signature changes nothing |
| `TlsHandshake.ServerHandshake.DoSendServerHelloDone` | ProjectF02/Pods/BoringSSL/ssl/handshake_server.cc:914-947 | CertificateRequest first if a certificate is asked for; then flush |
| `TlsHandshake.ServerHandshake.DoReadClientCertificate` | ProjectF02/Pods/BoringSSL/ssl/handshake_server.cc:949-1040 | an empty chain or, in SSL 3.0, no message only if no certificate is required |
| `TlsHandshake.ServerHandshake.DoVerifyClientCertificate` | ProjectF02/Pods/BoringSSL/ssl/handshake_server.cc:1042-1056 | a chain that is not empty must be verified; a pending verification changes nothing |
| `TlsHandshake.ServerHandshake.DoReadClientKeyExchange` | ProjectF02/Pods/BoringSSL/ssl/handshake_server.cc:1058-1267 | exactly ClientKeyExchange; a pending decryption changes nothing |
| `TlsHandshake.ServerHandshake.DoReadClientCertificateVerify` | ProjectF02/Pods/BoringSSL/ssl/handshake_server.cc:1269-1363 | required exactly if there is a client certificate |
| `TlsHandshake.ServerHandshake.DoReadChangeCipherSpec` | ProjectF02/Pods/BoringSSL/ssl/handshake_server.cc:1365-1368 | nothing but waiting for ChangeCipherSpec |
| `TlsHandshake.ServerHandshake.DoProcessChangeCipherSpec` | ProjectF02/Pods/BoringSSL/ssl/handshake_server.cc:1370-1377 | installs the read keys |
| `TlsHandshake.ServerHandshake.DoReadNextProto` | ProjectF02/Pods/BoringSSL/ssl/handshake_server.cc:1379-1413 | required exactly if negotiated |
| `TlsHandshake.ServerHandshake.DoReadChannelId` | ProjectF02/Pods/BoringSSL/ssl/handshake_server.cc:1415-1437 | required exactly if negotiated |
| `TlsHandshake.ServerHandshake.DoReadClientFinished` | ProjectF02/Pods/BoringSSL/ssl/handshake_server.cc:1439-1461 | checked; then the server Finished in a full handshake, the end in a resumption |
| `TlsHandshake.ServerHandshake.DoSendServerFinished` | ProjectF02/Pods/BoringSSL/ssl/handshake_server.cc:1463-1509 | ticket if due, ChangeCipherSpec, write keys, Finished; then flush |
| `TlsHandshake.ServerHandshake.DoFinishServerHandshake` | ProjectF02/Pods/BoringSSL/ssl/handshake_server.cc:1511-1537 | the end |
| `TlsHandshake.ServerHandshake.ServerHandshakeLoop` | ProjectF02/Pods/BoringSSL/ssl/handshake_server.cc:1539-1621 | terminates; it extends the run of the model that was there before; if every turn meets what it needs, it stops only for a flush, for ChangeCipherSpec, or at the end |
| `TlsHandshake.ServerHandshake.OneTurn` | ProjectF02/Pods/BoringSSL/ssl/handshake_server.cc:1539-1608 | one turn of it: the run grows by one step |
| `TlsHandshake.ServerHandshake.RunHandshake` | ProjectF02/Pods/BoringSSL/ssl/handshake.cc:491-628 | over any number of calls the run and what has happened are kept and extended; a completed handshake did exactly what a completed run does; an error is never left; if every turn meets what it needs and the transport does not block, the handshake is completed |
| `PbFormat.ReadTag` | ProjectF02/Pods/nanopb/pb_decode.c:251-275 | the tag, the end of input, or a malformed tag |
| `PbFormat.Skip` | ProjectF02/Pods/nanopb/pb_decode.c:277-287 | what is left after a field of each wire type |
| `PbFormat.Find` | ProjectF02/Pods/nanopb/pb_common.c:78-95 | the index of the field with a tag, or the length of the table |
| `PbFormat.DecField` | ProjectF02/Pods/nanopb/pb_decode.c:356-434 | one field decoded into the message keeps the message of its type |
| `PbFormat.Decode` | ProjectF02/Pods/nanopb/pb_decode.c:955-967 | a successful decode of any input yields a message of the type |
| `PbLaws.LoopSeen` | ProjectF02/Pods/nanopb/pb_decode.c:908-913 | which fields are marked seen does not depend on those marked before |
| `PbRoundTrip.ValueRoundTrip` | ProjectF02/Pods/nanopb/pb_decode.c:1334-1356 | every value reads back, submessages included, whatever the struct held before |
| `PbRoundTrip.TaggedRoundTrip` | ProjectF02/Pods/nanopb/pb_encode.c:553-590 | a tagged value reads back into its field |
| `PbRoundTrip.LoopRoundTrip` | ProjectF02/Pods/nanopb/pb_encode.c:451-473 | the fields from any point on read back into the message decoded so far |
| `PbExact.CanonSame` | ProjectF02/Pods/nanopb/pb_encode.c:205-269 | what the encoder leaves out of a message encodes to nothing either way |
| `PbStream.IStream.ReadByte` | ProjectF02/Pods/nanopb/pb_decode.c:127-143 | the next byte of the window |
| `PbStream.SkipString` | ProjectF02/Pods/nanopb/pb_decode.c:242-249 | skips a length-prefixed block |
| `PbStream.FillVarint` | ProjectF02/Pods/nanopb/pb_encode.c:494-514 | the buffer loop of the encoder produces the varint |
| `PbIterator.FieldIter.constructor` | ProjectF02/Pods/nanopb/pb_common.c:8-18 | a fresh iterator is valid |
| `PbRequired.MarkSeen` | ProjectF02/Pods/nanopb/pb_decode.c:908-913 | one more index in the set |
| `PbRequired.CountRequired` | ProjectF02/Pods/nanopb/pb_decode.c:925-936 | the count of required fields by walking the iterator once round |
| `PbEncoder.EncodeLoop` | ProjectF02/Pods/nanopb/pb_encode.c:458-470 | the loop over the fields writes them one after the other |
| `PbEncoder.EncodeNext` | ProjectF02/Pods/nanopb/pb_encode.c:458-470 | one turn of it |
| `PbEncoder.EncodeTagged` | ProjectF02/Pods/nanopb/pb_encode.c:271-351 | tag and value |
| `PbEncoder.EncodeTagForField` | ProjectF02/Pods/nanopb/pb_encode.c:559-590 | the tag with the wire type of the field, which ValueSkips and KeyByte fix |
| `PbEncoder.EncodeString` | ProjectF02/Pods/nanopb/pb_encode.c:592-598 | length and block |
| `PbEncoder.EncodeFixed32` | ProjectF02/Pods/nanopb/pb_encode.c:527-536 | four bytes, least significant first |
| `PbEncoder.EncodeFixed64` | ProjectF02/Pods/nanopb/pb_encode.c:538-551 | eight bytes, least significant first |
| `PbEncoder.EncodeNumber` | ProjectF02/Pods/nanopb/pb_encode.c:652-716 | every integer and fixed type |
| `PbEncoder.EncodeEach` | ProjectF02/Pods/nanopb/pb_encode.c:173-199 | tag and value for each item |
| `PbEncoder.PackedSize` | ProjectF02/Pods/nanopb/pb_encode.c:135-156 | the size of the packed items, by sizing them |
| `PbEncoder.EncodePackedBody` | ProjectF02/Pods/nanopb/pb_encode.c:163-171 | the packed items one after the other |
| `PbEncoder.EncodeSized` | ProjectF02/Pods/nanopb/pb_encode.c:609-648 | length and real pass together fit exactly if the sized encoding does |
| `PbDecoder.DecodeLoop` | ProjectF02/Pods/nanopb/pb_decode.c:867-922 | the loop over the input with its bitmap |
| `PbDecoder.DecodeKnown` | ProjectF02/Pods/nanopb/pb_decode.c:908-917 | a known field is marked and decoded |
| `PbDecoder.DecodeFixed` | ProjectF02/Pods/nanopb/pb_decode.c:1132-1160 | four or eight bytes, least significant first |
| `PbDecoder.FieldSetToDefault` | ProjectF02/Pods/nanopb/pb_decode.c:763-833 | the default of a field |
| `PbDecoder.DecodeItem` | ProjectF02/Pods/nanopb/pb_decode.c:1165-1380 | one value of any type |
| `PbDecoder.InitialValue` | ProjectF02/Pods/nanopb/pb_decode.c:415-424 | what the arm of a oneof starts from |
| `DtlsDelivery.RunDelivers` | ProjectF02/Pods/BoringSSL/ssl/d1_both.cc:297-438 | from any state that agrees with the sender a run hands out the next messages in order |
| `DtlsDelivery.BytesStay` | ProjectF02/Pods/BoringSSL/ssl/d1_both.cc:297-406 | a byte that has arrived stays, and one that is supplied arrives |
| `DtlsReceiver.DtlsState.NewMessage` | ProjectF02/Pods/BoringSSL/ssl/d1_both.cc:152-198 | an empty slot gets an empty message |
| `DtlsReplay.SlideRemembers` | ProjectF02/Pods/BoringSSL/ssl/dtls_record.cc:160-170 | sliding keeps what the window remembers |
| `DtlsSequence.Carry` | ProjectF02/Pods/BoringSSL/ssl/tls_record.cc:154-163 | adding one with carries is adding one |
| `DtlsSender.DtlsSender.SealChangeCipherSpec` | ProjectF02/Pods/BoringSSL/ssl/d1_both.cc:647-663 | the ChangeCipherSpec half |
| `DtlsSender.DtlsSender.SealFragment` | ProjectF02/Pods/BoringSSL/ssl/d1_both.cc:664-720 | the handshake half, with the parsing of the stored message |
| `DtlsSender.DtlsSender.SendPackets` | ProjectF02/Pods/BoringSSL/ssl/d1_both.cc:782-804 | the loop of send_flight: the events of the model, packet after packet |
| `DtlsSender.DtlsSender.SetWriteState` | ProjectF02/Pods/BoringSSL/ssl/dtls_method.cc:97-107 | the old cipher stays for retransmissions, the new one takes its place, the epoch goes up |
| `DtlsFlight.WalkSupplies` | ProjectF02/Pods/BoringSSL/ssl/d1_both.cc:630-813 | every byte that the walk passes is in one of the fragments |
| `TlsWrite.WriteBuffer.Append` | ProjectF02/Pods/BoringSSL/ssl/s3_pkt.cc:254-275 | bytes go to the end of the buffer |
| `TlsCipher.Skip` | ProjectF02/Pods/BoringSSL/ssl/handshake_server.cc:415-420 | a suite that is not usable leaves the search as it is, or ends it at the end of a group |
| `TlsCipher.Take` | ProjectF02/Pods/BoringSSL/ssl/handshake_server.cc:403-413 | a usable suite lowers the minimum, or ends the search |
| `TlsProtocol.StaysOnTrack` | ProjectF02/Pods/BoringSSL/ssl/handshake_server.cc:1539-1615 | every step and every retry keeps this |
| `TlsHandshake.ServerHandshake.DoStartAccept` | ProjectF02/Pods/BoringSSL/ssl/handshake_server.cc:426-430 | the first step |
| `TlsHandshake.ServerHandshake.DoTls13` | ProjectF02/Pods/BoringSSL/ssl/handshake_server.cc:562-570 | the TLS 1.3 machine, as one step |
| `TlsHandshake.ServerHandshake.DoStep` | ProjectF02/Pods/BoringSSL/ssl/handshake_server.cc:1539-1608 | the switch over the states |
| `TlsHandshake.ServerHandshake.DecideCertRequest` | ProjectF02/Pods/BoringSSL/ssl/handshake_server.cc:637-655 | a certificate is asked for with VERIFY_PEER, unless Channel ID stands in for it or the suite has no certificates |
| `TlsHandshake.ServerHandshake.Resolve` | ProjectF02/Pods/BoringSSL/ssl/handshake.cc:491-610 | what the handshake waited for is there; state and earlier events stay |

## Left out

* nanopb: callback fields, extensions, pointer allocation, custom streams, error strings,
  `pb_decode_delimited`, `pb_encode_delimited` and `pb_release`.
* nanopb: singular (proto3) submessage fields, whose zero check ignores counts and has_ flags; such
  descriptors are not well formed here.
* nanopb: messages of 4 GiB and more, whose length prefixes the 32-bit decoder cannot read; sizes that
  overflow `size_t` are excluded by `PbEncoder.CountableAll`.
* nanopb: what a failed decode leaves in the destination struct.
- PbRequired.CheckRequired: does not model 32 or at least 64 required fields, for which the shift and the index at pb_decode.c:947 are undefined; the two bitmap words are modelled as their 64 bits.
- PbDecoder.DecodeSubmessage: decodes a submessage in a struct of its own that is copied back, so that the aliasing of a struct and its parts is not captured.
- DtlsReassembly.HmFragment.constructor: leaves out the twelve header bytes in front of the body, which are a function of the other fields.
- DtlsDelivery.InOrderDelivery: is for fewer than 2^16 messages, because ring indexing modulo 7 does not survive the wrap of the number.
- DtlsReceiver.DtlsState.OpenHandshake: takes the plaintext of a handshake record; ChangeCipherSpec and alert records, the early-finish retransmission and the timers are not modelled.
- DtlsSequence.WriteState.SealRecord: takes what the cipher makes of the plaintext as a parameter; the check for aliased buffers is not modelled.
- DtlsSender.DtlsSender.AddMessage: requires a message number below 2^16.
- DtlsSender.DtlsSender.SealNextMessage: the length of a sealed record is any length up to the documented overhead.
- TlsWrite.Writer.WriteAppData: takes buffers from their start, so that a retry with a pointer into the middle of the old buffer is not covered, and is without early data, alerts in between and the splitting of CBC records.
- TlsCipher.SelectCipher: requires that the last group of the server list is closed, as ssl_create_cipher_list leaves it.
- TlsHandshake.ServerHandshake.DoReadClientHello: negotiation of version, extensions and parameters is an arbitrary outcome; so are the contents of all messages.
- TlsHandshake.ServerHandshake.DoSelectCertificate: whether there is a shared cipher suite is an arbitrary outcome here; the choice itself is in TlsCipher.
- TlsHandshake.ServerHandshake.DoSelectParameters: whether there is a session that can be resumed is a field of the environment.
- TlsHandshake.ServerHandshake.DoReadClientKeyExchange: the key exchange itself and its constant-time padding check are not modelled.
* TLS: the TLS 1.3 machine, which is one opaque step; theorems about completed handshakes are for TLS 1.2 and
  below; the client side; changes of the verify mode during a handshake.
* Cryptography, certificates, sockets, clocks and memory allocation are abstract verdicts.
* The app's own Swift code and the other pods: view code and plumbing.
