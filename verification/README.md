# Verified models of three vendored protocol cores

The iOS app of this repository carries two C libraries whose code is protocol logic:
BoringSSL's TLS/DTLS stack and the nanopb codec. This project models three of their
cores in Dafny and proves what they are for.

**DTLS handshake transport.** A sender cuts a flight of at most seven messages into
fragments under an MTU, rewinds after a failed write, and retransmits under other MTUs
and across an epoch change. A receiver checks a replay window and reassembles messages
in a ring of seven, each with a bit mask. The network loses, duplicates and reorders.
It also forges: under a cipher a forgery is discarded, but in epoch 0 the cipher is null
and opens whatever arrives, so there only the epoch and the replay check can stop it.
`replay_window`, `reassembly`, `handshake_wire`, `dtls_receive_model` and `dtls_reader`
are the receiver, `dtls_send_model`, `dtls_flight`, `dtls_nonces` and `dtls_writer` the
sender, `dtls_epochs` says with which key each record is sealed, and `dtls_system`,
`dtls_forgery`, `dtls_completeness` and `dtls_delivery` are the two together.

**nanopb.** A descriptor-driven encoder with a sizing pass and a writing pass, and a
decoder over substreams with a field iterator and a bit mask of required fields.
`pb_wire`, `pb_descriptor`, `pb_encode_model` and `pb_decode_model` say what is written
and read; `pb_decode_laws`, `pb_missing`, `pb_round_trip` and `pb_presence` prove the laws,
`pb_format` the bytes of the wire format in numbers;
`pb_iterator`, `pb_output`, `pb_encoder`, `pb_required`, `pb_input` and `pb_decoder` are
the code over streams, proved to do just that.

**TLS 1.0 - 1.2.** The output path (`tls_output_model`, `tls_output`, `ssl_buffer`,
`tls_flush`, `tls_delivery`, `tls_writer`), the choice of a cipher suite (`tls_cipher_choice`), and the product of
the client and the server handshake machine (`tls_handshake_model`,
`tls_handshake_script`, `tls_handshake`, `tls_handshake_runs`, `tls_client`,
`tls_server`).

Code that updates state in place is modelled by classes and loops, and each method is
proved to be a function of the old state; the theorems are about those functions over
every input and every run. `dafny verify dfyconfig.toml` checks everything.

## Where the code and its promises part

- `d1_both.cc:380-386` is meant to ignore fragments from beyond the window, but a
  number exactly 7 ahead passes that test and is refused with an error by
  `d1_both.cc:267-270`. `DtlsSystem.GenuineFragment` has the exact condition.
- `ssl_aead_ctx.cc:231-235`: the null cipher of epoch 0 opens every record. A forged one
  can pass for a handshake message there (`DtlsForgery.ForgedFirstMessage`), so
  `DtlsSystem.SafeDelivery` asks that each forgery of epoch 0 be stopped by the epoch or
  the replay check. `DtlsForgery.HarmlessExactly` is the exact condition: a forger who may
  choose content and payload does no harm iff the header is stopped or no slot of the ring
  can still take in bytes.
- `SSLBuffer` keeps its offset in 16 bits and `EnsureCap` grants capacities up to
  0xffff at an offset of up to 7. `TlsFlush.RecordConservedExactly`: a record behind the
  rest of a flight reaches the transport unharmed, whatever it holds and however it is
  taken, iff slack, rest and record are at most 2^16 bytes together.
  `TlsFlush.SlackIsSent` is an input beyond that, where a byte of the slack is sent in
  place of the last one. Without a flight that waits a record always fits
  (`TlsWriter.NoFlightAllFit`).
- A string that fills its buffer without a terminator is encoded but cannot be decoded:
  `PbRoundTrip.RoundTrip` holds iff every string present leaves room for a terminator.
- The final check of required fields shifts a 32-bit word by 32 when a message has
  exactly 32 required fields, and indexes past its array at 64; neither is defined
  in C. `PbRequired.RequiredCheckIsExact` covers all other counts below 64.
- A tag cut off by the end of the stream, wherever that is, ends a message without an
  error (`PbDecodeLaws.EndsOfMessage`).
- A shorter retry of a blocked TLS write is refused but forgets the progress made
  (`TlsOutput.ShorterRetryForgets`); after that, a retry that succeeds has sealed bytes
  twice (`TlsOutput.ForgottenIsSealedAgain`).

## Model

| member | source | states |
|---|---|---|
| `ReplayWindow.Bitmap.ShouldDiscard` | ios/gradekeep/Pods/BoringSSL/ssl/dtls_record.cc:138-150 | true exactly for a number recorded since the last clearing or 64 or more behind the largest of them |
| `ReplayWindow.Bitmap.Record` | ios/gradekeep/Pods/BoringSSL/ssl/dtls_record.cc:152-175 | adds the number to those recorded, and the 64-bit map still has set just the bits of the recorded numbers in the window, whatever the jump |
| `ReplayWindow.DiscardIsExact` | ios/gradekeep/Pods/BoringSSL/ssl/dtls_record.cc:138-175 | over every run of an epoch a number is discarded iff it was accepted before or lies 64 or more behind the largest accepted one, across jumps of any size |
| `ReplayWindow.AcceptedOnce` | ios/gradekeep/Pods/BoringSSL/ssl/dtls_record.cc:225-259 | no sequence number is accepted twice in an epoch |
| `Reassembly.BitRangeExact` | ios/gradekeep/Pods/BoringSSL/ssl/d1_both.cc:201-205 | the byte built by `bit_range` has exactly the bits from `start` to `end` |
| `Reassembly.HmFragment.MarkBits` | ios/gradekeep/Pods/BoringSSL/ssl/d1_both.cc:222-236 | after marking a range a body position is in the mask iff it was before or lies in the range, and no bit at or above the message length is ever set |
| `Reassembly.HmFragment.IsComplete` | ios/gradekeep/Pods/BoringSSL/ssl/d1_both.cc:238-250 | the byte-wise test for all ones succeeds iff every position of the body is marked, and then the last partial byte is judged by its own bits only |
| `Reassembly.HmFragment.Mark` | ios/gradekeep/Pods/BoringSSL/ssl/d1_both.cc:207-251 | adds the range to the set of received positions and drops the mask exactly when that set is the whole body |
| `HandshakeWire.ParseSerialized` | ios/gradekeep/Pods/BoringSSL/ssl/d1_both.cc:459-473 | parsing the bytes of a serialized fragment, whatever follows, gives back the fragment and what follows |
| `HandshakeWire.HeaderBytes` | ios/gradekeep/Pods/BoringSSL/ssl/d1_both.cc:459-473 | the twelve header bytes as numbers: type, and length, number, offset and fragment length with the high byte first |
| `HandshakeWire.ParsedIsSerialized` | ios/gradekeep/Pods/BoringSSL/ssl/d1_both.cc:459-473 | nothing else parses: a fragment is read iff header and body are there, and then the bytes are its serialization and what follows |
| `DtlsReceiveModel.RingAlwaysHolds` | ios/gradekeep/Pods/BoringSSL/ssl/d1_both.cc:265-295 | in every run, with ChangeCipherSpecs taken, any number of epoch changes and of 16-bit wraps, an occupied slot `i` holds a message of the window with number congruent to `i` modulo 7, so the assertion that slot and header numbers agree cannot fail |
| `DtlsReceiveModel.RefusedExactly` | ios/gradekeep/Pods/BoringSSL/ssl/d1_both.cc:364-403 | any fragment is refused, without effect, iff it or its message is too long, epoch 1 expects another message, it is seven ahead, or it disagrees with its slot |
| `DtlsReceiveModel.CcsTakenExactly` | ios/gradekeep/Pods/BoringSSL/ssl/d1_both.cc:475-490 | a ChangeCipherSpec is taken iff one is pending or the record read now is a new, well-formed one of epoch 0; a pending one is taken without reading |
| `DtlsReceiveModel.EpochChangeExactly` | ios/gradekeep/Pods/BoringSSL/ssl/dtls_method.cc:81-95 | while a ChangeCipherSpec is pending the read epoch cannot change; once it is taken the epoch changes iff no slot but the current message is occupied |
| `DtlsReceiveModel.OpenCcsIsOpenThenTake` | ios/gradekeep/Pods/BoringSSL/ssl/d1_both.cc:475-490 | waiting for a ChangeCipherSpec is reading a record, if none is pending, and clearing the flag, even when the record is refused or dropped |
| `DtlsReceiveModel.NextKeepsRing` | ios/gradekeep/Pods/BoringSSL/ssl/d1_both.cc:426-438 | releasing the complete message that is due keeps the ring sound, also when `handshake_read_seq` wraps from 65535 to 0 |
| `DtlsReceiveModel.CurrentIsDue` | ios/gradekeep/Pods/BoringSSL/ssl/d1_both.cc:255-263 | the message in the slot that is due next has exactly the sequence number that is due |
| `DtlsReader.Reader.NewMessage` | ios/gradekeep/Pods/BoringSSL/ssl/d1_both.cc:152-199 | a new message is empty: no position received, a mask of its own, its header in front of its body |
| `DtlsReader.Reader.GetIncomingMessage` | ios/gradekeep/Pods/BoringSSL/ssl/d1_both.cc:265-295 | creates the message in its vacant slot, or returns the one there; refuses a number outside the window and a fragment that disagrees in type or length, with the right alert |
| `DtlsReader.Reader.AcceptFragment` | ios/gradekeep/Pods/BoringSSL/ssl/d1_both.cc:364-403 | one fragment: bounds, epoch and window checks in the order of the source, then copy and mark; the other six messages and their buffers are untouched |
| `DtlsReader.Reader.AcceptRecord` | ios/gradekeep/Pods/BoringSSL/ssl/d1_both.cc:364-405 | all the fragments of a record in order, stopping at the first that is refused |
| `DtlsReader.Reader.OpenHandshake` | ios/gradekeep/Pods/BoringSSL/ssl/d1_both.cc:297-406 | a record that is not expected is discarded without effect; any other has its number recorded and its content handled by type; which are expected is said over every run by `DtlsDelivery.DiscardedExactlyInRuns`, and what becomes of them by `DtlsDelivery.TakenInByContent` |
| `DtlsReader.Reader.OpenChangeCipherSpec` | ios/gradekeep/Pods/BoringSSL/ssl/d1_both.cc:475-490 | success means that no ChangeCipherSpec is pending any more; a pending one is taken and nothing else changes |
| `DtlsReader.Reader.GetMessage` | ios/gradekeep/Pods/BoringSSL/ssl/d1_both.cc:408-424 | reports a message exactly when the one due is complete, with its type and whole body |
| `DtlsReader.Reader.NextMessage` | ios/gradekeep/Pods/BoringSSL/ssl/d1_both.cc:426-438 | frees the slot of the message due and advances the number modulo 2^16 |
| `DtlsReader.Reader.HasUnprocessedHandshakeData` | ios/gradekeep/Pods/BoringSSL/ssl/d1_both.cc:440-457 | true iff a ChangeCipherSpec is pending or some slot other than the current message is occupied |
| `DtlsReader.Reader.SetReadState` | ios/gradekeep/Pods/BoringSSL/ssl/dtls_method.cc:81-95 | refused iff data of the old epoch is left over; otherwise the next epoch starts with an empty window |
| `DtlsSystem.GenuineFragment` | ios/gradekeep/Pods/BoringSSL/ssl/d1_both.cc:352-403 | a fragment cut from a queued message never spoils what was reassembled, and is refused exactly when it is over the limit, when epoch 1 expects another message, or when its number is exactly 7 ahead of the one due; numbers further ahead are ignored |
| `DtlsSystem.SevenAheadIsRefused` | ios/gradekeep/Pods/BoringSSL/ssl/d1_both.cc:265-270 | at a concrete state: message 7 is refused with an error before anything has arrived, message 8 is ignored |
| `DtlsSystem.CompleteIsTheMessage` | ios/gradekeep/Pods/BoringSSL/ssl/d1_both.cc:203-251 | a complete message has the type and body that were queued under its number |
| `DtlsSystem.StepKeepsInv` | ios/gradekeep/Pods/BoringSSL/ssl/d1_both.cc:352-438 | every event of either endpoint or of the network, except a forgery that gets through in epoch 0, keeps: each record ever sent carries a piece of the message queued under its number, and each slot agrees with that message |
| `DtlsSystem.SafeDelivery` | ios/gradekeep/Pods/BoringSSL/ssl/d1_both.cc:352-438 | for every run of flights, MTUs, failed writes, retransmissions, epoch changes, losses, duplications and reorderings, in which each forgery arrives at read epoch 1 or later or is stopped by the epoch or replay check, the messages delivered are the first messages queued: same types, bodies and order |
| `DtlsForgery.DiscardedExactly` | ios/gradekeep/Pods/BoringSSL/ssl/ssl_aead_ctx.cc:228-235 | a forged record is discarded, and has no effect, iff the read epoch is not 0, its epoch differs or the replay window has it; the null cipher opens every other |
| `DtlsForgery.HarmlessExactly` | ios/gradekeep/Pods/BoringSSL/ssl/dtls_record.cc:225-256 | every content and payload a forger may choose leaves the ring in agreement with the queue iff the header is stopped or no slot of the window can still take in bytes |
| `DtlsForgery.ForgeryIsDelivered` | ios/gradekeep/Pods/BoringSSL/ssl/d1_both.cc:297-424 | whenever nothing of the message due has arrived, one forged record under any header that is not stopped makes the handshake receive a message that was not queued |
| `DtlsForgery.ForgedFirstMessage` | ios/gradekeep/Pods/BoringSSL/ssl/d1_both.cc:297-424 | at an input: the body [5] is queued and the body [6] is delivered |
| `DtlsCompleteness.FragmentKeepsReceiver` | ios/gradekeep/Pods/BoringSSL/ssl/d1_both.cc:380-402 | a genuine fragment raises no error iff it is within the limit, not exactly seven ahead, and in epoch 1 of the message due; then it leaves its bytes in the ring, unless it is too far ahead, and takes nothing away |
| `DtlsCompleteness.ProcessCovers` | ios/gradekeep/Pods/BoringSSL/ssl/d1_both.cc:364-438 | over any genuine inputs, in any epoch, with messages taken in between, no error is raised iff each fragment is acceptable in its turn, and then each one not ignored as too far ahead is covered: its message was taken or has those bytes |
| `DtlsCompleteness.OnePassCompletes` | ios/gradekeep/Pods/BoringSSL/ssl/d1_both.cc:822-831 | once every fragment of one retransmitted flight has been heard, in any order and mixed with those of other passes and flights, an error was raised iff some fragment was not acceptable in its turn, and if none was, every message of the flight was taken or is complete with the queued type and body |
| `DtlsDelivery.DiscardedExactlyInRuns` | ios/gradekeep/Pods/BoringSSL/ssl/dtls_record.cc:225-256 | over every run and through every change of epoch, a record is discarded as a record iff its epoch is not the current one, its number was taken in before or is 64 or more behind another, or a cipher is in place and it does not authenticate |
| `DtlsDelivery.TakenInByContent` | ios/gradekeep/Pods/BoringSSL/ssl/d1_both.cc:297-406 | a record taken in is an error if longer than 16384 bytes; handshake records go to reassembly, a ChangeCipherSpec of epoch 0 is noted, alerts are reported, application data is an error in epoch 0 and discarded later, all else is an error |
| `DtlsDelivery.RecordsCover` | ios/gradekeep/Pods/BoringSSL/ssl/d1_both.cc:297-438 | over sealed records, replays and reordering, and handshake calls, in any epochs, an error arises iff a record taken in was not acceptable in its turn, and if none does, each fragment heard is in the ring or was taken |
| `DtlsDelivery.FlightIsReceived` | ios/gradekeep/Pods/BoringSSL/ssl/d1_both.cc:822-831 | once the records of one retransmitted flight have been taken in, each in its epoch, every message of the flight was taken or is complete with the queued type and body |
| `DtlsFlight.SealPacketTiles` | ios/gradekeep/Pods/BoringSSL/ssl/d1_both.cc:725-766 | a packet fits its buffer, and its records are the contiguous pieces of the flight from the old cursor to the new one |
| `DtlsFlight.SendFlightTiles` | ios/gradekeep/Pods/BoringSSL/ssl/d1_both.cc:768-813 | every packet of a pass fits the MTU; the packets written tile the flight from the old cursor to the new one, to the very end on success and up to the failed packet otherwise |
| `DtlsFlight.EachByteOnce` | ios/gradekeep/Pods/BoringSSL/ssl/d1_both.cc:683-714 | records that tile from one cursor to another carry each byte in between exactly once and no other byte |
| `DtlsFlight.EachMessageAppears` | ios/gradekeep/Pods/BoringSSL/ssl/d1_both.cc:683-714 | every message passed over has a piece among the records, even an empty one |
| `DtlsFlight.SendFlightSucceeds` | ios/gradekeep/Pods/BoringSSL/ssl/d1_both.cc:768-813 | with room for one body byte a pass ends early only at a failed write, unless a record counter wraps |
| `DtlsFlight.PassTerminates` | ios/gradekeep/Pods/BoringSSL/ssl/d1_both.cc:768-813 | a pass needs no more packets than the bytes and messages that remain: with that many successful writes the whole flight is sent |
| `DtlsFlight.QueueingKeepsCursor` | ios/gradekeep/Pods/BoringSSL/ssl/d1_both.cc:500-584 | a message is refused iff a flight under way holds seven; else it comes last, in the current epoch, behind the cursor, and a flight that was complete is dropped with its cursor |
| `DtlsFlight.QueuedIsSent` | ios/gradekeep/Pods/BoringSSL/ssl/d1_both.cc:768-820 | a flush that reports success after a message was queued has sent each of its bytes once |
| `DtlsFlight.FlushCloses` | ios/gradekeep/Pods/BoringSSL/ssl/d1_both.cc:815-831 | a flush closes the flight, a retransmission leaves that as it is, and neither changes what is queued |
| `DtlsEpochs.FlightSealedFor` | ios/gradekeep/Pods/BoringSSL/ssl/d1_both.cc:630-723 | every record that a pass writes has the epoch in which its message was queued and the length that the cipher of that epoch gives it, also after a change of epoch |
| `DtlsEpochs.FragmentHasItsEpoch` | ios/gradekeep/Pods/BoringSSL/ssl/d1_both.cc:636-642 | said of single records: a fragment has the epoch of the message with its number |
| `DtlsEpochs.OldMessageOldEpoch` | ios/gradekeep/Pods/BoringSSL/ssl/dtls_record.cc:305-315 | at an input: a message of epoch 0 sent in epoch 1 takes the next number of epoch 0 |
| `DtlsEpochs.PacketsAreFull` | ios/gradekeep/Pods/BoringSSL/ssl/d1_both.cc:725-766 | a packet ends at the end of the flight, with a piece that takes all the room left, or where not one byte more fits |
| `DtlsWriter.MessageIsOneWholeFragment` | ios/gradekeep/Pods/BoringSSL/ssl/d1_both.cc:511-539 | a stored message is the serialization of one fragment that holds its whole body |
| `DtlsWriter.Writer.AddHandshakeMessage` | ios/gradekeep/Pods/BoringSSL/ssl/d1_both.cc:541-584 | starts a new flight if the last one is complete, refuses an eighth message, and otherwise queues the message under the next number and the current epoch |
| `DtlsWriter.Writer.SetWriteState` | ios/gradekeep/Pods/BoringSSL/ssl/dtls_method.cc:97-107 | the next epoch starts at number 0 with the new cipher; what was queued before is still sealed with the cipher and the counter it had, and no nonce comes back, unless the 16-bit epoch wraps |
| `DtlsWriter.Writer.Seal` | ios/gradekeep/Pods/BoringSSL/ssl/dtls_record.cc:294-351 | fails iff the record does not fit, reaches 2^16 bytes or takes the last number; else it holds what it was given; at most one number is used up, a failure included, and while no counter has wrapped it was never used before |
| `DtlsWriter.Writer.SealNextMessage` | ios/gradekeep/Pods/BoringSSL/ssl/d1_both.cc:630-723 | seals the piece of the current message that fits and moves the offset past it, in the epoch in which the message was queued, as `DtlsEpochs.FlightSealedFor` proves of every pass |
| `DtlsWriter.Writer.SealNextPacket` | ios/gradekeep/Pods/BoringSSL/ssl/d1_both.cc:725-766 | fills a packet with as many records as fit; fails if not even one does |
| `DtlsWriter.Writer.Send` | ios/gradekeep/Pods/BoringSSL/ssl/d1_both.cc:768-813 | writes packets until the flight is sent or a write fails, which puts the cursor back to the start of that packet |
| `DtlsWriter.Writer.RetransmitOutgoing` | ios/gradekeep/Pods/BoringSSL/ssl/d1_both.cc:822-831 | every packet fits the MTU, and those written are the contiguous pieces of the flight from its first byte to the cursor, to the very end on success |
| `DtlsNonces.NoncesNeverRepeat` | ios/gradekeep/Pods/BoringSSL/ssl/dtls_record.cc:294-351 | while no counter and no epoch has wrapped, no two sealed records share an epoch and sequence number, through any number of retransmissions of flights that span two epochs |
| `DtlsNonces.OverflowRepeats` | ios/gradekeep/Pods/BoringSSL/ssl/dtls_record.cc:294-351 | the condition is needed: after a counter wraps the next record reuses the first number |
| `PbWire.Varint64RoundTrip` | ios/gradekeep/Pods/nanopb/pb_encode.c:494-514 | decoding an encoded 64-bit value gives it back and consumes just its 1 to 10 bytes |
| `PbWire.VarintIsMinimal` | ios/gradekeep/Pods/nanopb/pb_encode.c:494-514 | no shorter byte string decodes to the same value |
| `PbWire.DecodersAgree` | ios/gradekeep/Pods/nanopb/pb_decode.c:173-240 | when the 32-bit decoder succeeds the 64-bit decoder and the skipper consume the same bytes and the values agree modulo 2^32; when the 64-bit decoder succeeds so does the skipper |
| `PbWire.ZigzagRoundTrip` | ios/gradekeep/Pods/nanopb/pb_decode.c:1118-1130 | zigzag maps each int64 to 2n or -2n-1 and back |
| `PbWire.LittleEndianRoundTrip` | ios/gradekeep/Pods/nanopb/pb_decode.c:1132-1163 | reading the bytes of a fixed-width word gives the word back |
| `PbWire.CountedRoundTrip` | ios/gradekeep/Pods/nanopb/pb_decode.c:322-335 | a counted string shorter than 2^32 is read back exactly, whatever follows |
| `PbIterator.FieldIter.constructor` | ios/gradekeep/Pods/nanopb/pb_common.c:8-18 | the iterator starts at the first field with every pointer where a fresh walk puts it |
| `PbIterator.FieldIter.Next` | ios/gradekeep/Pods/nanopb/pb_common.c:20-76 | after advancing or wrapping, the data pointer, the size pointer and the required index are those of a fresh walk to the same field |
| `PbIterator.FieldIter.Find` | ios/gradekeep/Pods/nanopb/pb_common.c:78-95 | from any position, succeeds iff the tag exists, with coherent pointers; otherwise it is back where it began |
| `PbIterator.RequiredIndicesDiffer` | ios/gradekeep/Pods/nanopb/pb_common.c:65-70 | different required fields have different indices, all below the count |
| `PbDescriptor.FindIsUnique` | ios/gradekeep/Pods/nanopb/pb_common.c:78-95 | in a descriptor with distinct tags a search finds just the field asked for |
| `PbDescriptor.DefaultsTyped` | ios/gradekeep/Pods/nanopb/pb_decode.c:763-846 | setting defaults gives every field, at every depth, a value of its type |
| `PbOutput.OStream.Write` | ios/gradekeep/Pods/nanopb/pb_encode.c:91-112 | a sizing stream only counts; a writing stream writes the bytes at its position iff they fit and changes nothing outside its region |
| `PbOutput.OStream.EncodeVarint` | ios/gradekeep/Pods/nanopb/pb_encode.c:494-514 | outputs the shortest varint; ten bytes of scratch space suffice |
| `PbEncoder.EncodeSubmessage` | ios/gradekeep/Pods/nanopb/pb_encode.c:600-648 | outputs the size and then the content at every depth, on sizing and writing streams alike; the size never changes between the passes |
| `PbEncoder.SubstreamWrites` | ios/gradekeep/Pods/nanopb/pb_encode.c:625-647 | what a substream of exactly the right size writes is what its parent would have written |
| `PbEncoder.EncodePackedArray` | ios/gradekeep/Pods/nanopb/pb_encode.c:130-168 | outputs tag, size and data of a packed array, the size being found by a dry run |
| `PbEncoder.EncodeArray` | ios/gradekeep/Pods/nanopb/pb_encode.c:119-201 | nothing for an empty array, an error for one over capacity, else all the entries |
| `PbEncoder.EncodeField` | ios/gradekeep/Pods/nanopb/pb_encode.c:269-343 | outputs a field iff it is present: has_ flag, which_ tag, count, or a nonzero value |
| `PbEncoder.Encode` | ios/gradekeep/Pods/nanopb/pb_encode.c:451-473 | outputs the present fields in descriptor order; it succeeds exactly when they are encodable and fit, and then has written just their bytes, whose format `PbFormat.MessageFormat` gives in numbers |
| `PbEncoder.GetEncodedSize` | ios/gradekeep/Pods/nanopb/pb_encode.c:480-489 | the size reported is the number of bytes the encoder writes |
| `PbEncoder.EncodeToBuffer` | ios/gradekeep/Pods/nanopb/pb_encode.c:91-108 | encoding into a buffer succeeds exactly when the capacity is at least the encoded size, fills just that prefix, and never reports a changed size |
| `PbFormat.MessageFormat` | ios/gradekeep/Pods/nanopb/pb_encode.c:451-591 | a struct encodes to its fields in descriptor order, each the varint of 8 * tag + k with k 0, 1, 5 or 2 by type and then its payload; required fields always, optional ones by has_ flag, proto3 ones unless zero, unions by choice, arrays of integers packed |
| `PbFormat.VarintByte` | ios/gradekeep/Pods/nanopb/pb_encode.c:494-514 | byte j of a varint holds bits 7j to 7j+6, with bit 7 set in all but the last, which is zero only for zero |
| `PbFormat.LittleEndianByte` | ios/gradekeep/Pods/nanopb/pb_encode.c:527-551 | byte j of a fixed-width word holds bits 8j to 8j+7 |
| `PbFormat.KnownBytes` | ios/gradekeep/Pods/nanopb/pb.h:309-316 | at inputs: 150 under tag 1 is 08 96 01, a fixed32 7 is 0D 07 00 00 00, a fixed64 begins with 09, a string with 0A |
| `PbFormat.OversizeFails` | ios/gradekeep/Pods/nanopb/pb_encode.c:119-201 | an array over its capacity, bytes over their buffer and an integer of unknown size are errors |
| `PbFormat.LongestVarints` | ios/gradekeep/Pods/nanopb/pb_decode.c:173-229 | a varint that ends with byte k is read iff k is below 5 or 10, by the 32-bit and the 64-bit reader, and just to there |
| `PbFormat.GroupsDigit` | ios/gradekeep/Pods/nanopb/pb_decode.c:173-229 | byte j of a varint that is read gives bits 7j to 7j+6 of its value, minimal or not |
| `PbInput.IStream.DecodeVarint32` | ios/gradekeep/Pods/nanopb/pb_decode.c:173-207 | reads at most five groups, keeping the value modulo 2^32, and on failure leaves just the bytes not read |
| `PbInput.IStream.DecodeVarint` | ios/gradekeep/Pods/nanopb/pb_decode.c:209-229 | reads at most ten groups, keeping the value modulo 2^64 |
| `PbInput.IStream.SkipField` | ios/gradekeep/Pods/nanopb/pb_decode.c:231-287 | skips a varint, 8 or 4 bytes, or a counted string, and refuses other wire types |
| `PbInput.IStream.DecodeTag` | ios/gradekeep/Pods/nanopb/pb_decode.c:251-275 | a zero tag and a tag cut off by the end of the stream end the message; other failures are errors |
| `PbInput.IStream.MakeStringSubstream` | ios/gradekeep/Pods/nanopb/pb_decode.c:322-335 | the substream has exactly the bytes of the string and its parent those after it |
| `PbInput.IStream.CloseStringSubstream` | ios/gradekeep/Pods/nanopb/pb_decode.c:337-350 | the parent continues after the string even if the substream was not read to its end |
| `PbDecoder.DecodeInt` | ios/gradekeep/Pods/nanopb/pb_decode.c:1165-1248 | succeeds iff a varint can be read and its integer - sign-extended, zigzag or unsigned - fits the C type of the field, and yields just that integer |
| `PbDecodeLaws.DecIntExactly` | ios/gradekeep/Pods/nanopb/pb_decode.c:1165-1248 | the casts of the source keep an integer exactly when it fits the C type, and are found out otherwise |
| `PbDecodeLaws.BlobsExactly` | ios/gradekeep/Pods/nanopb/pb_decode.c:1262-1386 | bytes are accepted iff their buffer has room, strings iff it has room for a terminator too, fixed-length bytes iff they have that length or none, which gives zeros |
| `PbDecoder.DecodeBlob` | ios/gradekeep/Pods/nanopb/pb_decode.c:1262-1379 | checks the length against the buffer, for strings with room for a terminator, and reads that many bytes; an empty fixed-length field is all zeros |
| `PbDecoder.DecodePacked` | ios/gradekeep/Pods/nanopb/pb_decode.c:375-402 | appends the entries of a packed array and fails if one is bad or the capacity is exceeded |
| `PbDecoder.DecodeField` | ios/gradekeep/Pods/nanopb/pb_decode.c:356-429 | reads a field by its rule: sets has_, appends, or selects the union member after resetting it |
| `PbDecoder.DecodeSubmessage` | ios/gradekeep/Pods/nanopb/pb_decode.c:1334-1356 | decodes into the struct already there, or into a fresh one for array entries |
| `PbDecoder.DecodeNoinit` | ios/gradekeep/Pods/nanopb/pb_decode.c:852-953 | the loop with its iterator and bit mask gives just what the model decodes, of which `PbMissing.DecodesExactly` says when it succeeds: iff all fields can be read and none that is required is missing |
| `PbMissing.DecodesExactly` | ios/gradekeep/Pods/nanopb/pb_decode.c:852-953 | decoding succeeds iff field after field can be read and some field boundary carries the tag of each required field |
| `PbMissing.NestedExactly` | ios/gradekeep/Pods/nanopb/pb_decode.c:1334-1356 | the same of the contents of a submessage, at every level, in the struct already there or a fresh one |
| `PbRequired.RequiredCheckIsExact` | ios/gradekeep/Pods/nanopb/pb_decode.c:919-950 | the two-word mask comparison succeeds iff every required field occurred, for any number of required fields below 64 other than 32 |
| `PbRequired.MarkTracks` | ios/gradekeep/Pods/nanopb/pb_decode.c:908-913 | setting the bit of a field keeps: a bit is set iff the required field with that index occurred |
| `PbDecodeLaws.StepExtend` | ios/gradekeep/Pods/nanopb/pb_decode.c:863-917 | reading one whole field does not depend on what follows it |
| `PbDecodeLaws.ConcatenationIsMerge` | ios/gradekeep/Pods/nanopb/pb_decode.c:852-953 | if `a` is whole fields and decoding `a` and then `b` into one struct succeeds, decoding `a + b` succeeds with the same struct |
| `PbDecodeLaws.SubmessagesMerge` | ios/gradekeep/Pods/nanopb/pb_decode.c:1334-1356 | two occurrences of an optional or required submessage are merged recursively: they act as one occurrence with the contents concatenated |
| `PbDecodeLaws.UnpackedIsPacked` | ios/gradekeep/Pods/nanopb/pb_decode.c:374-413 | an entry of an array of integers has the same effect by itself and in a packed string |
| `PbDecodeLaws.EndsOfMessage` | ios/gradekeep/Pods/nanopb/pb_decode.c:258-270 | whole fields are needed: a zero tag of any length hides all that follows, a tag of up to five bytes that is cut off is accepted in silence, a longer one is an error |
| `PbDecodeLaws.SkipIsExact` | ios/gradekeep/Pods/nanopb/pb_decode.c:231-287 | skipping ends just at the end of a payload iff it is well formed for its wire type, overlong varints included, and then whatever follows it |
| `PbDecodeLaws.UnknownFieldIsInvisible` | ios/gradekeep/Pods/nanopb/pb_decode.c:877-906 | a well-formed field with an unknown tag, its varints minimal or not, inserted at any field boundary changes neither the result nor the struct |
| `PbDecodeLaws.DecKeepsTyped` | ios/gradekeep/Pods/nanopb/pb_decode.c:852-953 | whatever bytes arrive, decoding keeps integers in their C types, strings and byte arrays in their buffers and arrays in their capacity |
| `PbRoundTrip.IntRoundTrip` | ios/gradekeep/Pods/nanopb/pb_decode.c:1165-1248 | every value of an 8-, 16-, 32- or 64-bit integer field survives encoding and decoding |
| `PbRoundTrip.TypedEncodes` | ios/gradekeep/Pods/nanopb/pb_encode.c:451-473 | a struct whose values have their types always encodes |
| `PbRoundTrip.FieldRoundTrip` | ios/gradekeep/Pods/nanopb/pb_encode.c:269-343 | the decoder reads back one whole field, of any rule and type, and goes on with what follows; it fails iff a string in it has no terminator |
| `PbRoundTrip.ReadsBack` | ios/gradekeep/Pods/nanopb/pb_decode.c:852-953 | reading an encoding consumes exactly its bytes, sees every required field and rebuilds the struct up to presence, iff every string present leaves room for its terminator |
| `PbRoundTrip.RoundTrip` | ios/gradekeep/Pods/nanopb/pb_decode.c:955-967 | for every descriptor tree and well-typed struct, decoding the encoding gives the struct up to presence, or fails, and which of the two is decided by the terminators |
| `PbPresence.EncodesTheSame` | ios/gradekeep/Pods/nanopb/pb_encode.c:451-473 | what the round trip may change is invisible: the rebuilt struct encodes to the same bytes |
| `SslBuffer.SSLBuffer.EnsureCap` | ios/gradekeep/Pods/BoringSSL/ssl/ssl_buffer.cc:47-81 | grows iff at most 0xffff bytes are asked for, and keeps the contents |
| `SslBuffer.SSLBuffer.Consume` | ios/gradekeep/Pods/BoringSSL/ssl/ssl_buffer.cc:90-97 | moves the 16-bit offset and drops just the first bytes of the contents if it does not wrap or nothing is left |
| `SslBuffer.ConsumeIsExact` | ios/gradekeep/Pods/BoringSSL/ssl/ssl_buffer.cc:90-97 | consuming leaves the rest of the contents, whatever the memory holds, iff the 16-bit offset does not wrap or nothing is left |
| `TlsFlush.WholeFlushes` | ios/gradekeep/Pods/BoringSSL/ssl/ssl_buffer.cc:239-252 | while the window ends within 2^16 the 16-bit flush loop and the flush of a plain byte sequence hand over the same bytes |
| `TlsFlush.RecordConservedExactly` | ios/gradekeep/Pods/BoringSSL/ssl/s3_pkt.cc:246-275 | a record behind the rest of a flight is conserved by the 16-bit buffer, for every content, slack and transport, iff slack, rest and record are at most 2^16 bytes together |
| `TlsFlush.SlackIsSent` | ios/gradekeep/Pods/BoringSSL/ssl/ssl_buffer.cc:90-97 | at an input: with offset 7 and 0xffff bytes, 0xfffe and then one taken, byte 5 of the slack is sent instead of the last byte |
| `TlsWriter.Writer.FlushWriteBuffer` | ios/gradekeep/Pods/BoringSSL/ssl/ssl_buffer.cc:239-252 | on every buffer hands the transport what the 16-bit loop does, and nothing but the front of the contents, in order, if the window ends within 2^16 |
| `TlsWriter.Writer.AddRecordToFlight` | ios/gradekeep/Pods/BoringSSL/ssl/s3_both.cc:135-165 | seals just this content and appends the sealed bytes to the flight, or changes neither the records nor the flight |
| `TlsWriter.Writer.AddHandshakeMessage` | ios/gradekeep/Pods/BoringSSL/ssl/s3_both.cc:184-205 | seals the message in records of limited size |
| `TlsWriter.Writer.FlushPendingFlight` | ios/gradekeep/Pods/BoringSSL/ssl/s3_both.cc:231-279 | writes the buffer first and then the flight from where the last call stopped; on success neither is left; how much it writes is said by `TlsDelivery.FlushDelivers` |
| `TlsWriter.Writer.WritePendingRecord` | ios/gradekeep/Pods/BoringSSL/ssl/s3_pkt.cc:202-218 | refuses exactly a retry that is shorter, of another type, or of another buffer unless that may move; otherwise reports the length of the record once, when the buffer is empty, and keeps it pending until then |
| `TlsWriter.Writer.WriteRecord` | ios/gradekeep/Pods/BoringSSL/ssl/s3_pkt.cc:221-289 | finishes a pending record first; otherwise puts the unsent flight in front of the new record in the buffer; what it reports lies within the data, and it follows the model if the record just written fits, as `TlsFlush.RecordConservedExactly` needs |
| `TlsWriter.Writer.WriteApplicationData` | ios/gradekeep/Pods/BoringSSL/ssl/s3_pkt.cc:129-200 | carries on where the last call stopped, record by record, and remembers where it stops, provided that the records it actually writes fit |
| `TlsWriter.NoFlightAllFit` | ios/gradekeep/Pods/BoringSSL/ssl/ssl_buffer.cc:225-237 | with no flight waiting, every record of every write fits, by the bound that the source asserts |
| `TlsDelivery.FlushDelivers` | ios/gradekeep/Pods/BoringSSL/ssl/s3_both.cc:231-279 | a flush hands over exactly the longest front of what is unsent that the answers of the transport sum up to, and reports success iff that was all and the transport was flushed |
| `TlsDelivery.WriteDelivers` | ios/gradekeep/Pods/BoringSSL/ssl/s3_pkt.cc:202-289 | an attempt on a record hands over the longest front of the pending bytes, or of flight and new record, that the answers allow, and reports the record iff that was all |
| `TlsDelivery.AppWriteFinishes` | ios/gradekeep/Pods/BoringSSL/ssl/s3_pkt.cc:129-200 | a write or the retry of one reports the whole buffer, or its first record with partial writes, unless it is blocked, and then every answer before the refusal took at least a byte |
| `TlsDelivery.MessagesJoin` | ios/gradekeep/Pods/BoringSSL/ssl/s3_both.cc:135-205 | with a cipher that does not fail every handshake message joins the flight |
| `TlsOutput.MessageIsCut` | ios/gradekeep/Pods/BoringSSL/ssl/s3_both.cc:184-205 | a handshake message is sealed in records of at most the given size whose contents in order are the message; an empty one takes one record |
| `TlsOutput.DoWriteCases` | ios/gradekeep/Pods/BoringSSL/ssl/s3_pkt.cc:221-289 | an attempt reports the pending record, or seals nothing, or seals one record, and conserves every byte |
| `TlsOutput.TransportKeepsOrder` | ios/gradekeep/Pods/BoringSSL/ssl/s3_pkt.cc:129-289 | in every run whose records fit the 16-bit buffer (`TlsFlush.RecordConservedExactly` has the exact condition, which only a flight that waits can break), transport bytes, write buffer and unsent flight are together the sealed records in sealing order |
| `TlsOutput.RetriesSealOnce` | ios/gradekeep/Pods/BoringSSL/ssl/s3_pkt.cc:129-218 | retrying a write with the same buffer and length, with handshake messages, alerts and flushes in between, seals each byte it reports exactly once and in order |
| `TlsOutput.ShorterRetryForgets` | ios/gradekeep/Pods/BoringSSL/ssl/s3_pkt.cc:141-157 | a write is refused for its length iff it is shorter than what was already sealed, and then that progress is forgotten |
| `TlsOutput.ForgottenIsSealedAgain` | ios/gradekeep/Pods/BoringSSL/ssl/s3_pkt.cc:129-200 | at an input: after such a refusal the retry that succeeds has sealed its second byte twice |
| `TlsCipherChoice.Choose` | ios/gradekeep/Pods/BoringSSL/ssl/handshake_server.cc:391-424 | the choice is usable, in the first terminated group with a usable cipher, and first of that group in the other list; none is chosen iff no terminated group has a usable cipher |
| `TlsCipherChoice.ChooseCipher` | ios/gradekeep/Pods/BoringSSL/ssl/handshake_server.cc:357-424 | with server preference the client decides within the server's groups, without it the client's first usable cipher is taken; none iff no cipher is usable, given that the last group is terminated |
| `TlsHandshakeScript.ClientFollowsScript` | ios/gradekeep/Pods/BoringSSL/ssl/handshake_client.cc:1701-1783 | from its start the client says and expects exactly the message flow of the standard, for every set of options |
| `TlsHandshakeScript.ServerFollowsScript` | ios/gradekeep/Pods/BoringSSL/ssl/handshake_server.cc:1527-1609 | from its start the server says and expects exactly the same flow |
| `TlsHandshake.ClientMoves` | ios/gradekeep/Pods/BoringSSL/ssl/handshake_client.cc:572-1699 | every step of the client takes or says just what comes next in the flow, or waits for it; given an honest inbox none is an error |
| `TlsHandshake.ServerMoves` | ios/gradekeep/Pods/BoringSSL/ssl/handshake_server.cc:568-1525 | the same for the server |
| `TlsHandshakeRuns.ResolveInStep` | ios/gradekeep/Pods/BoringSSL/ssl/handshake.cc:482-597 | resolving a wait loses nothing, and a record that arrives is the one expected |
| `TlsHandshakeRuns.StepKeepsInv` | ios/gradekeep/Pods/BoringSSL/ssl/handshake.cc:482-614 | after every step one side is ahead of the other by just the items on the way, and their transcripts differ by just those messages |
| `TlsHandshakeRuns.NeverAnError` | ios/gradekeep/Pods/BoringSSL/ssl/handshake.cc:371-420 | on no schedule, with any retries and partial flushes, is a message unexpected, a Finished check failed, a record of the wrong type or data left over at a change of cipher |
| `TlsHandshakeRuns.TranscriptsAgree` | ios/gradekeep/Pods/BoringSSL/ssl/handshake.cc:212-219 | when both are done the transcripts are equal and consist of every message of the flow, said once and hashed once on each side, and nothing is left on the way |
| `TlsHandshakeRuns.NoDeadlock` | ios/gradekeep/Pods/BoringSSL/ssl/handshake.cc:482-614 | two sides that both wait for the other always have an item on the way |
| `TlsHandshakeRuns.Completes` | ios/gradekeep/Pods/BoringSSL/ssl/handshake.cc:482-614 | on every schedule that keeps giving each side turns in which its transport takes something and asks for retries only finitely often, from every reachable state, both sides finish, stay finished and have equal transcripts |
| `TlsHandshakeRuns.AtIsRun` | ios/gradekeep/Pods/BoringSSL/ssl/handshake.cc:482-614 | the states of an endless schedule are those of the finite runs of its beginnings, so no error arises on it either |
| `TlsHandshakeRuns.RetriesMustEnd` | ios/gradekeep/Pods/BoringSSL/ssl/handshake_client.cc:883-895 | finitely many retries is needed: a certificate check that asks for a retry forever keeps a full handshake from finishing |
| `TlsClient.ClientHandshake.ReadServerCertificate` | ios/gradekeep/Pods/BoringSSL/ssl/handshake_client.cc:777-825 | with certificates in use an empty chain and any other message are errors, and just a Certificate is hashed; without, nothing is touched; ready for its part of the flow, it does just what comes next |
| `TlsClient.ClientHandshake.ReadCertificateStatus` | ios/gradekeep/Pods/BoringSSL/ssl/handshake_client.cc:827-875 | never an error: hashes the status iff one is expected and there, and leaves any other message for the next state; ready for its part of the flow, it does just what comes next |
| `TlsClient.ClientHandshake.ReadServerKeyExchange` | ios/gradekeep/Pods/BoringSSL/ssl/handshake_client.cc:897-1077 | hashes the message iff it is a key exchange; another message is an error iff the cipher requires one, and is left untouched otherwise; ready for its part of the flow, it does just what comes next |
| `TlsClient.ClientHandshake.ReadCertificateRequest` | ios/gradekeep/Pods/BoringSSL/ssl/handshake_client.cc:1079-1149 | hashes a request and notes it; an error iff certificates are in use and the message is neither a request nor ServerHelloDone, which is left for the next state; ready for its part of the flow, it does just what comes next |
| `TlsClient.ClientHandshake.SendClientFinished` | ios/gradekeep/Pods/BoringSSL/ssl/handshake_client.cc:1463-1518 | a retry, asked for iff a Channel ID is signed, says nothing; else a change of cipher, the optional messages and a Finished over the whole transcript until then join the flight; ready for its part of the flow, it does just what comes next |
| `TlsClient.ClientHandshake.ReadSessionTicket` | ios/gradekeep/Pods/BoringSSL/ssl/handshake_client.cc:1560-1641 | an error iff a ticket is expected and another message is there; hashes the ticket iff it goes on with one expected; ready for its part of the flow, it does just what comes next |
| `TlsClient.ClientHandshake.ReadServerFinished` | ios/gradekeep/Pods/BoringSSL/ssl/handshake_client.cc:1652-1666 | an error for any message but the Finished over its own transcript; goes on iff that was hashed; ready for its part of the flow, it does just what comes next |
| `TlsClient.ClientHandshake.Handshake` | ios/gradekeep/Pods/BoringSSL/ssl/handshake_client.cc:1701-1783 | the loop runs the states until one waits, fails or is the last |
| `TlsClient.Connection.RunHandshake` | ios/gradekeep/Pods/BoringSSL/ssl/handshake.cc:482-614 | a call is a run of single steps of this side, whatever the other side does; 1 means done, and -1 that it failed, the transport is full, nothing has arrived or a step asked to be retried |
| `TlsServer.ServerHandshake.SelectParameters` | ios/gradekeep/Pods/BoringSSL/ssl/handshake_server.cc:568-680 | goes on iff the ClientHello is there and nothing asynchronous is left to do, and only then hashes it; otherwise nothing changes; ready for its part of the flow, it does just what comes next |
| `TlsServer.ServerHandshake.SendServerCertificate` | ios/gradekeep/Pods/BoringSSL/ssl/handshake_server.cc:742-828 | with certificates in use a nonempty chain and, if promised, the status join flight and transcript; without, nothing does; ready for its part of the flow, it does just what comes next |
| `TlsServer.ServerHandshake.SendServerKeyExchange` | ios/gradekeep/Pods/BoringSSL/ssl/handshake_server.cc:830-900 | a retried signature has said nothing yet; else the key exchange is said iff there is one; ready for its part of the flow, it does just what comes next |
| `TlsServer.ServerHandshake.ReadClientCertificate` | ios/gradekeep/Pods/BoringSSL/ssl/handshake_server.cc:937-1028 | reads the answer to its request; an empty one is an error iff a certificate is required, and decides whether a key of the client is known; ready for its part of the flow, it does just what comes next |
| `TlsServer.ServerHandshake.ReadClientKeyExchange` | ios/gradekeep/Pods/BoringSSL/ssl/handshake_server.cc:1046-1255 | an error for any other message; a retried decryption leaves the message unread and unhashed; goes on iff it was hashed; ready for its part of the flow, it does just what comes next |
| `TlsServer.ServerHandshake.SendServerFinished` | ios/gradekeep/Pods/BoringSSL/ssl/handshake_server.cc:1451-1497 | ticket if expected, change of cipher, and a Finished over the whole transcript until then join the flight, which is to be flushed; ready for its part of the flow, it does just what comes next |
| `TlsServer.ServerHandshake.Handshake` | ios/gradekeep/Pods/BoringSSL/ssl/handshake_server.cc:1527-1609 | the loop runs the states until one waits, fails or is the last |
| `TlsServer.Connection.RunHandshake` | ios/gradekeep/Pods/BoringSSL/ssl/handshake.cc:482-614 | a call is a run of single steps of this side, whatever the other side does; 1 means done, and -1 that it failed, the transport is full, nothing has arrived or a step asked to be retried |

## Left out

DTLS:
- DtlsSystem.SafeDelivery: a sender queues fewer than 65536 messages; beyond that 16-bit numbers repeat and the promise is not made.
- DtlsReader.Reader.OpenHandshake: `authentic` stands for the AEAD, and epoch 0 for the null cipher, also should the 16-bit read epoch wrap; record headers are already parsed, alerts are reported and not handled, the version check is omitted.
- DtlsReader.Reader.NewMessage: the body of a new message is zero where malloc leaves it undefined; allocation failure is not modelled.
- DtlsWriter.Writer.Seal: the ciphertext is not represented, only the epoch, sequence number, content and length of the record; the buffer it is built in is not shared with the input.
- DtlsNonces.NoncesNeverRepeat: until the first failed seal and while the write epoch has not wrapped.
- Timers, BIO and MTU queries: any MTU, any result of a write and a timer at any moment are events. ChangeCipherSpec ordering against messages is not part of the delivered sequence.

nanopb:
- Callback, pointer and extension fields, `pb_release` and `PB_BUFFER_ONLY`: static allocation only.
- PbEncoder.EncodeField: a submessage without has_ flag is excluded by the descriptor condition, because `pb_encode.c:225-265` judges a repeated field in it by memory behind its count.
- PbEncoder.Encode: stream positions and counters are unbounded integers, so sums of size_t do not wrap; a value of another type than its field, which C does not have, is an error.
- PbDecoder.DecodeNoinit: the destination struct is taken and returned as a value; what a failed decode leaves in it, and stale bytes after a terminator or behind a count, are not represented.
- PbInput.IStream.DecodeVarint32: the bits joined with `|` are added, being disjoint.
- PbIterator.FieldIter.Next: byte offsets follow the descriptor; that the C layout agrees with them is the generator's promise. The decoder addresses the struct by member, not by byte.
- PbRoundTrip.RoundTrip: encodings shorter than 2^32 bytes, as the decoder reads 32-bit lengths.

TLS:
- TlsWriter.Writer.WriteRecord: sealing is an abstract function of the record's index; a failed seal leaves the index as it was. Early data, key updates and the info callbacks are left out.
- TlsOutput.TransportKeepsOrder: the buffer is a sequence without a 16-bit offset, to which the code corresponds as long as records fit; a record joins the flight only while the flight is not being written, as the source asserts.
- TlsHandshakeRuns.NeverAnError: honest peers; what negotiation, certificate checks and cryptography decide is an option both agree on or a retry, and a Finished value stands for the transcript it covers.
- TlsClient.Connection.RunHandshake: one item is one record; coalesced and fragmented handshake records are not modelled here. DTLS's HelloVerifyRequest, False Start, renegotiation, SSL 3.0, V2ClientHello and TLS 1.3 are left out.
- TlsCipherChoice.ChooseCipher: the masks of the server's configuration and the parsed client list are inputs.

The Swift and JavaScript code of the app, `SSL_SESSION` serialization, certificate parsing and key loading are not modelled.
