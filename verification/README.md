# Transport and handshake of BoringSSL, verified

This project models the parts of the BoringSSL copy under
`code/ios/Pods/BoringSSL-GRPC/src` whose behaviour is hardest to see from any one
function, and proves what holds of them over whole runs.

* **DTLS handshake transport.** A sender keeps a flight of messages, cuts each
  into fragments that fit the MTU, rolls back when the transport refuses a packet,
  and sends the flight again, perhaps with a smaller MTU and other keys. A
  receiver takes records through an epoch check and a 64-bit replay window, puts
  fragments into a ring of messages with a bitmask each, and delivers messages in
  order (`Reassembly`, `ReplayWindow`, `DtlsWire`, `DtlsReader`, `DtlsReadState`,
  `DtlsWriter`, `DtlsWriteState`). `DtlsFlight` and `DtlsHistory` state what every
  run of a sender keeps, `DtlsSystem` puts sender, network and receiver together,
  `DtlsLog` and `DtlsProgress` say when messages arrive, `DtlsRecords`, `DtlsCcs`
  and `DtlsSends` what becomes of each record and each call, `DtlsOverrun` and
  `DtlsLimits` where the guarantees end, `Nonce` and `DtlsNonces` that no nonce is
  used twice. The protocol is that of sections 4.1.2.6, 4.2.2, 4.2.3 and 4.2.6 of RFC 6347.
* **TLS stream transport.** Handshake bytes wait in `pending_hs_data`, records in
  `pending_flight`, and a write buffer stands in front of a transport that takes
  part of what it is offered, or nothing (`TlsBuffer`, `TlsWriter`,
  `TlsWriteState`). `TlsStream`, `TlsFraming` and `TlsAppData` say that no byte is
  lost, repeated or reordered, `TlsOverflow` up to which buffer size, `TlsAnswers`
  what each call answers and when everything has left, `TlsReader` and
  `TlsRoundTrip` that the other side gets the messages back (section 5.1 of RFC
  8446).
* **Encrypted ClientHello.** Two writers put the same extensions into an inner and
  an outer hello; the inner one is compressed by reference to the outer one, and
  expanded with one forward cursor (`Extensions`, `HelloWriter`, `HelloTypes`,
  `EchHello`, `EchRoundTrip`; draft-ietf-tls-esni-13, Appendix B). `EchInner` and
  `EchDecode` say which hellos the server accepts and why it refuses the others.
* **Session encoding, client handshake, cipher choice** (`Der`, `SslSession`,
  `SessionFormat`; `ClientHandshake`, `HandshakeSafety`, `HandshakeProgress`,
  `Handshaker`; `ChooseCipher`). `WireFormats` gives the bytes of headers,
  extensions and hellos one by one.
* **Two refinements**: the lock-free reference count of the locked one
  (`RefCount`), and the branch-free choice of the RSA premaster secret of the
  branching rule in section 7.4.7.1 of RFC 5246 (`RsaPremaster`).

Each stateful part has two layers: a datatype with functions that give each
operation on values, and a class whose methods update fields, arrays and loops as
the code does and are proved equal to those functions. The theorems are about the
functions and their runs, and so hold of the classes: some say what every run
keeps, others what one call answers and does, in which cases exactly, told by
numbers, bytes and records instead of by the functions. `Bits` and `Bytes` hold shared
arithmetic. Protection is ideal: a record opens under the keys it was sealed with,
and nothing else opens.

Two results are limits that a connection can meet, each an exact condition:

* The write buffer's offset has 16 bits. A buffer asked to hold more than 65529
  bytes can lose bytes after a partial write; at most 65529 it never does
  (`TlsOverflow.ConservationExact`, `TlsBuffer.ConsumeExact`).
* An MTU beyond what a record's length can express (`ssl/ssl_lib.cc:1815-1821`
  takes any) is not cut down, and a message of 65523 bytes then cannot be sent;
  with any smaller MTU a packet that is due is always sealed
  (`DtlsLimits.MtuExact`).

Four more are exact limits of the functions' own interfaces, which their callers
keep well within:

* Message numbers have 16 bits. A sender 65537 messages ahead of the receiver can
  have the wrong message delivered; at most 65536 ahead it cannot
  (`DtlsOverrun.DeliveryExact`). DTLS does not renegotiate
  (`ssl/ssl_lib.cc:410-413`), so no connection queues so many.
* Epochs have 16 bits too: record numbers are apart exactly up to 65535 changes of
  the write keys (`DtlsLimits.EpochsExact`); a connection makes one.
* A record fails to seal exactly at the last of its 48-bit numbers
  (`DtlsLimits.CounterExact`).
* `choose_cipher` can return null although a cipher is acceptable, exactly if the
  flags leave the last group open (`ChooseCipher.NoneExact`); the parser of cipher
  lists always ends it (`ssl/ssl_cipher.cc:992-996`).

Where comments and code differ, the model does what the code does. Fragments too
far in the future are said to be ignored (`ssl/d1_both.cc:379-384`), but one
exactly N ahead passes and then is an error. The final extension is said to be
non-empty (`ssl/extensions.cc:3497-3504`), but `last_was_empty` is overwritten by
table entries that write nothing.

## Model

| member | source | states |
|---|---|---|
| `DtlsSystem.DeliveredIsPrefixOfSent` | code/ios/Pods/BoringSSL-GRPC/src/ssl/d1_both.cc:296-437 | In every run of a sender that cuts, retransmits, is refused and re-cuts under changing MTUs and keys, over a network that loses, duplicates and reorders records and injects others that open under no keys, the receiver delivers the first messages sent, in order and once, each byte for byte with its 12-byte header, and each put together from records of one read epoch; the sender is at most 65536 messages ahead |
| `DtlsOverrun.DeliveryExact` | code/ios/Pods/BoringSSL-GRPC/src/ssl/d1_both.cc:379-384 | All runs whose sender is at most `most` messages ahead of the receiver deliver a prefix of what was sent if and only if `most` is at most 65536: the exact bound the 16-bit message number allows |
| `DtlsOverrun.Overrun` | code/ios/Pods/BoringSSL-GRPC/src/ssl/d1_both.cc:550-589 | The run that shows it: 65537 messages queued and sent, of which only the last arrives; it has the number of the first and is delivered in its place |
| `DtlsOverrun.AheadBySent` | code/ios/Pods/BoringSSL-GRPC/src/ssl/d1_both.cc:550-589 | A run is never further ahead than the number of messages it sends, so up to 65536 messages need no pacing |
| `DtlsSystem.PeekedIsNext` | code/ios/Pods/BoringSSL-GRPC/src/ssl/d1_both.cc:407-423 | What get_message shows is always the next message sent, before it is taken |
| `DtlsSystem.AcceptedOnce` | code/ios/Pods/BoringSSL-GRPC/src/ssl/dtls_record.cc:225-259 | In every run, across epoch changes and whatever the pace, no record number is accepted twice under the same keys |
| `DtlsSystem.NumberIsUnambiguous` | code/ios/Pods/BoringSSL-GRPC/src/ssl/dtls_record.cc:140-150 | A record that the epoch check and the replay window let through, and whose 16-bit message number is in the current window, belongs to the very message of the transcript that number stands for, though numbers repeat: the replay window separates the rounds |
| `DtlsSystem.StepKeepsOk` | code/ios/Pods/BoringSSL-GRPC/src/ssl/d1_both.cc:296-437 | Every step of sender, network and receiver, in pace, keeps the invariant: each slot agrees with the message it is for, in every byte received |
| `DtlsProgress.CoveredIsComplete` | code/ios/Pods/BoringSSL-GRPC/src/ssl/d1_both.cc:386-402 | In every run in pace: once every byte of a message has arrived in some record that is read, and at least one record of an empty message, in any order, with duplicates and whatever else the network brings, the message is whole or already taken, and get_message returns it, byte for byte, if it is next. Read means: sealed under the receiver's keys, a fresh number within 64 of the highest, near, not too long, and next in epoch 1 |
| `DtlsProgress.FlightDelivered` | code/ios/Pods/BoringSSL-GRPC/src/ssl/d1_both.cc:768-811 | In every run in pace: when a flight has been written to its end and all its records have arrived and were read, and what came before it has been taken, as many calls as there are messages left take all that was sent, byte for byte |
| `DtlsProgress.FlightArrives` | code/ios/Pods/BoringSSL-GRPC/src/ssl/d1_both.cc:768-811 | In every run in pace: each message of a flight whose records, those the transport took since the last rewind, have all arrived and were read, is whole or taken |
| `DtlsProgress.RunLearns` | code/ios/Pods/BoringSSL-GRPC/src/ssl/d1_both.cc:386-437 | A byte that is read once stays known, through every later step, until its message is taken |
| `DtlsProgress.ReadLearns` | code/ios/Pods/BoringSSL-GRPC/src/ssl/d1_both.cc:352-402 | A record that is read leaves every byte it carries in the slot of its message, whatever was there |
| `DtlsLog.StepKeepsLog` | code/ios/Pods/BoringSSL-GRPC/src/ssl/d1_both.cc:768-829 | Every sender event keeps that each record taken since the last rewind is one that was sealed, and belongs to the message of the flight it tiles |
| `DtlsHistory.StepKeepsHistory` | code/ios/Pods/BoringSSL-GRPC/src/ssl/d1_both.cc:550-589 | In every step of the sender: once N later messages are queued, nothing more is sealed for a message, and no record is sealed under keys older than its message |
| `DtlsHistory.LaterMessageHigherNumber` | code/ios/Pods/BoringSSL-GRPC/src/ssl/dtls_record.cc:294-351 | Under the same keys, a record of a later message (N or more further on) has the higher record number |
| `DtlsFlight.NoNumberReuse` | code/ios/Pods/BoringSSL-GRPC/src/ssl/dtls_record.cc:294-351 | In every run up to the first failed seal, with rewinds, retransmissions in the previous epoch, refused packets and key changes, records sealed under the same keys have strictly ascending 64-bit numbers |
| `DtlsFlight.NoWireNumberReuse` | code/ios/Pods/BoringSSL-GRPC/src/ssl/dtls_method.cc:101-114 | While fewer than 65536 write keys have been installed, no two sealed records of a run share their epoch and 48-bit sequence number |
| `DtlsLimits.CounterExact` | code/ios/Pods/BoringSSL-GRPC/src/ssl/tls_record.cc:154-163 | A record that fits fails to seal exactly at the last number of its 48-bit counter; the counter is then at zero, and whatever is sealed next repeats the first number of the epoch, which is why runs end at a failed seal |
| `DtlsLimits.EpochsExact` | code/ios/Pods/BoringSSL-GRPC/src/ssl/dtls_method.cc:101-114 | No two records of a run share epoch and sequence number, over all runs with at most `most` key changes, if and only if `most` is less than 65536 |
| `DtlsFlight.LogTilesFlight` | code/ios/Pods/BoringSSL-GRPC/src/ssl/d1_both.cc:630-811 | In every run the records accepted since the last rewind tile the flight from its start to the current position: contiguous, without overlap, one fragment for an empty body, refused packets rolled back |
| `DtlsFlight.FlightSentExactly` | code/ios/Pods/BoringSSL-GRPC/src/ssl/d1_both.cc:630-811 | When a flight has been written to its end, the accepted fragments of each message join to exactly its body |
| `DtlsFlight.TileGathers` | code/ios/Pods/BoringSSL-GRPC/src/ssl/d1_both.cc:679-718 | Records that tile from one position to another carry, for every message, exactly the bytes between the two |
| `DtlsFlight.PacketSpec` | code/ios/Pods/BoringSSL-GRPC/src/ssl/d1_both.cc:725-766 | Every packet sealed is not empty, takes at most the MTU, and its records are the next pieces of the flight |
| `DtlsFlight.PacketProgress` | code/ios/Pods/BoringSSL-GRPC/src/ssl/d1_both.cc:768-811 | Each accepted packet strictly decreases (messages left, bytes left): send_flight ends |
| `DtlsFlight.SendLoopIsRun` | code/ios/Pods/BoringSSL-GRPC/src/ssl/d1_both.cc:768-811 | The loop of send_flight is a run of packet attempts against the transport's answers, every accepted packet fits the MTU, and without a refusal it ends with the whole flight written |
| `DtlsLimits.MtuExact` | code/ios/Pods/BoringSSL-GRPC/src/ssl/d1_both.cc:725-766 | Over all runs: whenever a packet is due, with keys, counters and room for a fragment, sealing it succeeds, if and only if the MTU is one a record's length field can express; a larger MTU is not cut down, and a message of 65523 bytes fails |
| `DtlsFlight.PacketSucceeds` | code/ios/Pods/BoringSSL-GRPC/src/ssl/d1_both.cc:725-766 | The half of this that holds of any state: with such an MTU a packet that is due is sealed |
| `DtlsFlight.SealRecordSpec` | code/ios/Pods/BoringSSL-GRPC/src/ssl/dtls_record.cc:294-351 | A sealed record carries the chosen generation's number and plaintext, only the counter of that generation moves, and its length is header plus ciphertext length within the room |
| `DtlsFlight.SealNextSpec` | code/ios/Pods/BoringSSL-GRPC/src/ssl/d1_both.cc:630-718 | One fragment or ChangeCipherSpec is the next piece of the flight, under the keys of the message's epoch, within the room given |
| `DtlsFlight.StepKeepsOk` | code/ios/Pods/BoringSSL-GRPC/src/ssl/d1_both.cc:495-597 | Every sender event keeps the invariant: queue, position, epochs and message numbers agree, and records are numbered in order |
| `DtlsWriter.CiphertextLen` | code/ios/Pods/BoringSSL-GRPC/src/ssl/ssl_aead_ctx.cc:199-213 | A record's ciphertext is never longer than its plaintext and the overhead allowed for |
| `DtlsNonces.NoNonceReuse` | code/ios/Pods/BoringSSL-GRPC/src/ssl/ssl_aead_ctx.cc:345-389 | In every run no two records sealed under the same keys use the same nonce, for the prefixed and the exclusive-or construction |
| `Nonce.NonceInjective` | code/ios/Pods/BoringSSL-GRPC/src/ssl/ssl_aead_ctx.cc:345-389 | Different sequence numbers give different nonces in every construction |
| `Nonce.NonceAt` | code/ios/Pods/BoringSSL-GRPC/src/ssl/ssl_aead_ctx.cc:345-389 | The nonce byte by byte: the sequence number bit by bit under the last eight bytes of the fixed part, the others fixed; or behind the fixed part as it is |
| `Nonce.SealNonce` | code/ios/Pods/BoringSSL-GRPC/src/ssl/ssl_aead_ctx.cc:345-389 | Assembling the nonce for sealing yields the nonce of the sequence number, and puts the explicit part in front exactly when it is included in the record |
| `Nonce.OpenNonce` | code/ios/Pods/BoringSSL-GRPC/src/ssl/ssl_aead_ctx.cc:267-301 | Opening assembles the nonce from the record or the expected number, and fails exactly for a record too short to hold it |
| `Nonce.RoundTrip` | code/ios/Pods/BoringSSL-GRPC/src/ssl/ssl_aead_ctx.cc:241-389 | The receiver assembles the very nonce the sender used and finds the ciphertext behind it |
| `Nonce.SequenceUpdate` | code/ios/Pods/BoringSSL-GRPC/src/ssl/tls_record.cc:154-163 | Adding one in place, big-endian: reports success exactly if the number does not overflow, and is all zeros if it does |
| `DtlsWire.ParseEncodeFragment` | code/ios/Pods/BoringSSL-GRPC/src/ssl/d1_both.cc:454-468 | A fragment with its 12-byte header reads back, whatever follows it |
| `DtlsWire.EncodeParseFragment` | code/ios/Pods/BoringSSL-GRPC/src/ssl/d1_both.cc:454-468 | Whatever reads as a fragment is the encoding of what was read |
| `DtlsWire.ParsedIsMessage` | code/ios/Pods/BoringSSL-GRPC/src/ssl/d1_both.cc:506-532 | Only one byte string reads back as a given message |
| `WireFormats.FragmentBytes` | code/ios/Pods/BoringSSL-GRPC/src/ssl/d1_both.cc:506-532 | The twelve header bytes of a fragment, each by its number |
| `WireFormats.WholeBytes` | code/ios/Pods/BoringSSL-GRPC/src/ssl/d1_both.cc:151-180 | And those of a message as it is filed and handed on |
| `DtlsReader.SameResidue` | code/ios/Pods/BoringSSL-GRPC/src/ssl/d1_both.cc:264-294 | The assertion in dtls1_get_incoming_message cannot fail: an occupied slot holds the message with the fragment's number |
| `DtlsReader.OpenKeepsRing` | code/ios/Pods/BoringSSL-GRPC/src/ssl/d1_both.cc:296-405 | A slot that is not free holds a message of the window, at its number modulo N, assembled from records of one epoch; a record, whatever it is, keeps this |
| `DtlsReader.GetKeepsRing` | code/ios/Pods/BoringSSL-GRPC/src/ssl/d1_both.cc:407-423 | So does get_message |
| `DtlsReader.NextKeepsRing` | code/ios/Pods/BoringSSL-GRPC/src/ssl/d1_both.cc:425-437 | So does next_message, also where the 16-bit number wraps to zero |
| `DtlsReader.SetReadStateKeepsRing` | code/ios/Pods/BoringSSL-GRPC/src/ssl/dtls_method.cc:80-99 | So does a change of read keys, which is refused while handshake data is left |
| `DtlsReadState.ReadState.constructor` | code/ios/Pods/BoringSSL-GRPC/src/ssl/d1_lib.cc:88-107 | A new connection has an empty ring, epoch zero and an empty replay window |
| `DtlsReadState.ReadState.GetIncoming` | code/ios/Pods/BoringSSL-GRPC/src/ssl/d1_both.cc:264-294 | Finds the slot of a fragment or makes it, refuses a fragment that disagrees in type or length, and changes no other slot |
| `DtlsReadState.ReadState.Fill` | code/ios/Pods/BoringSSL-GRPC/src/ssl/d1_both.cc:392-401 | Copies the fragment into its message and marks its bytes, unless the message is complete |
| `DtlsReadState.ReadState.AcceptFragment` | code/ios/Pods/BoringSSL-GRPC/src/ssl/d1_both.cc:352-402 | One fragment: bounds, epoch and window checks, then the slot; new state and alert are those of the specification, including the fragment exactly N ahead, which is an error |
| `DtlsReadState.ReadState.AcceptPayload` | code/ios/Pods/BoringSSL-GRPC/src/ssl/d1_both.cc:349-404 | The loop over a record's fragments |
| `DtlsReadState.ReadState.OpenRec` | code/ios/Pods/BoringSSL-GRPC/src/ssl/dtls_record.cc:225-271 | Epoch and replay checks, protection, then the window learns the number; a record that does not open leaves the window alone |
| `DtlsReadState.ReadState.OpenHandshakeRecord` | code/ios/Pods/BoringSSL-GRPC/src/ssl/d1_both.cc:296-405 | A whole record, in place, ends as the step on values does, whose every outcome the `DtlsRecords` theorems tell: passed over, an error, an alert, a ChangeCipherSpec remembered, or fragments taken in |
| `DtlsReadState.ReadState.OpenCcsRecord` | code/ios/Pods/BoringSSL-GRPC/src/ssl/d1_both.cc:470-485 | A remembered ChangeCipherSpec is used up without a look at the record; otherwise the record is read, and the caller told to go on unless it brought one (`DtlsRecords.TakeCcs`) |
| `DtlsRecords.CcsExact` | code/ios/Pods/BoringSSL-GRPC/src/ssl/d1_both.cc:322-337 | A ChangeCipherSpec record that opens succeeds, and is remembered, if and only if no read keys were installed yet and its body is the one byte 1; with keys, or with another body, it is the one or the other error; the messages are not touched |
| `DtlsRecords.NotForTheHandshake` | code/ios/Pods/BoringSSL-GRPC/src/ssl/d1_both.cc:309-346 | A record over 16384 bytes is an error; an alert is handed on; application data is an error before there are keys and discarded after; any other type is an error; none changes more than the set of seen numbers |
| `DtlsRecords.PassedOver` | code/ios/Pods/BoringSSL-GRPC/src/ssl/dtls_record.cc:225-259 | A record of another epoch, with a number seen before or 64 or more behind, or that does not open, changes nothing |
| `DtlsRecords.TakeCcs` | code/ios/Pods/BoringSSL-GRPC/src/ssl/d1_both.cc:470-485 | Waiting for a ChangeCipherSpec succeeds if and only if one was remembered or this record is one; then none is left; a handshake record meanwhile is taken in |
| `DtlsRecords.FragmentExact` | code/ios/Pods/BoringSSL-GRPC/src/ssl/d1_both.cc:352-402 | A fragment fails with exactly the alert for its fault: over its message or too long, not the next in epoch 1, exactly seven ahead, or at odds with what has come; otherwise one of the next seven messages has its bytes now, byte for byte, and any other changes nothing |
| `DtlsRecords.KeysExact` | code/ios/Pods/BoringSSL-GRPC/src/ssl/dtls_method.cc:80-99 | Read keys change if and only if every message that has begun to arrive is the one being handled; then numbers and ChangeCipherSpec start anew |
| `DtlsCcs.CcsExactOverRuns` | code/ios/Pods/BoringSSL-GRPC/src/ssl/d1_both.cc:322-337 | In every run of sender, network and receiver: before the first read keys the receiver knows of a ChangeCipherSpec if and only if one the sender sealed has been opened; afterwards it knows of none |
| `DtlsCcs.SentCcsArrives` | code/ios/Pods/BoringSSL-GRPC/src/ssl/d1_both.cc:322-337 | A ChangeCipherSpec the sender sealed is known of once it arrives, before the first read keys and within 64 numbers, also when it is a repetition |
| `DtlsReadState.ReadState.GetCurrent` | code/ios/Pods/BoringSSL-GRPC/src/ssl/d1_both.cc:407-423 | Returns the current message, whole, exactly if it is complete |
| `DtlsReadState.ReadState.Next` | code/ios/Pods/BoringSSL-GRPC/src/ssl/d1_both.cc:425-437 | Frees the current slot and advances the 16-bit number by one; no other slot changes |
| `DtlsReadState.ReadState.Unprocessed` | code/ios/Pods/BoringSSL-GRPC/src/ssl/d1_both.cc:439-452 | True exactly if a received fragment is left that next_message has not passed |
| `DtlsReadState.ReadState.NewReadKeys` | code/ios/Pods/BoringSSL-GRPC/src/ssl/dtls_method.cc:80-99 | Fails with data left over; otherwise the epoch advances with 16 bits and the replay window forgets everything |
| `Reassembly.BitRangeBits` | code/ios/Pods/BoringSSL-GRPC/src/ssl/d1_both.cc:202-204 | Bit i of bit_range(start, end) is set exactly if start <= i < end, although it is computed on wider words |
| `Reassembly.HmFragment.constructor` | code/ios/Pods/BoringSSL-GRPC/src/ssl/d1_both.cc:151-198 | A new message has its header written for the whole body and no byte received; an empty message is complete |
| `Reassembly.HmFragment.Mark` | code/ios/Pods/BoringSSL-GRPC/src/ssl/d1_both.cc:210-250 | The set of bytes known grows by exactly [start, end); the bitmask shows this set, no bit at or past the length is set, and it is dropped exactly when all bytes are known |
| `Reassembly.HmFragment.Receive` | code/ios/Pods/BoringSSL-GRPC/src/ssl/d1_both.cc:392-401 | Copying a fragment in and marking it merges exactly its bytes into the message |
| `Reassembly.HmFragment.KnowsComplete` | code/ios/Pods/BoringSSL-GRPC/src/ssl/d1_both.cc:254-258 | The bitmask is gone exactly when every byte of the message is there |
| `Reassembly.HmFragment.KnowsRaw` | code/ios/Pods/BoringSSL-GRPC/src/ssl/d1_both.cc:407-423 | Then the buffer is the message, header included |
| `Reassembly.SetRange` | code/ios/Pods/BoringSSL-GRPC/src/ssl/d1_both.cc:225-235 | The three-part update of the mask sets exactly the bits of the range, for every start and end |
| `Reassembly.AllSet` | code/ios/Pods/BoringSSL-GRPC/src/ssl/d1_both.cc:237-249 | The completeness test holds exactly if every byte below the length was covered |
| `ReplayWindow.Window.ShouldDiscard` | code/ios/Pods/BoringSSL-GRPC/src/ssl/dtls_record.cc:140-150 | A number is discarded exactly if it was recorded or lies 64 or more below the highest recorded |
| `ReplayWindow.Window.Record` | code/ios/Pods/BoringSSL-GRPC/src/ssl/dtls_record.cc:155-175 | Recording adds exactly this number to the recorded set, although the map has 64 bits and slides |
| `ReplayWindow.Window.Reset` | code/ios/Pods/BoringSSL-GRPC/src/ssl/dtls_method.cc:91-93 | A new epoch forgets all numbers |
| `ReplayWindow.SlideShows` | code/ios/Pods/BoringSSL-GRPC/src/ssl/dtls_record.cc:160-169 | Sliding the map keeps it in step with the recorded set, also for slides of 64 and more |
| `DtlsWriteState.WriteState.constructor` | code/ios/Pods/BoringSSL-GRPC/src/ssl/d1_lib.cc:88-107 | A new sender has no messages, no MTU, epoch zero and numbers from zero |
| `DtlsWriteState.WriteState.ClearOutgoing` | code/ios/Pods/BoringSSL-GRPC/src/ssl/d1_both.cc:495-504 | Forgets the flight and the reply flag, keeps all counters |
| `DtlsWriteState.WriteState.Add` | code/ios/Pods/BoringSSL-GRPC/src/ssl/d1_both.cc:550-589 | Queues a message or ChangeCipherSpec with the current epoch; refuses during a flush and when the array is full; only a message takes a number, of 16 bits; a completed flight is replaced |
| `DtlsWriteState.WriteState.Seal` | code/ios/Pods/BoringSSL-GRPC/src/ssl/dtls_record.cc:294-351 | Seals under the current or the previous keys, with the number of that epoch; the counter fails and restarts at the end of its 48 bits |
| `DtlsWriteState.WriteState.SealNextMessage` | code/ios/Pods/BoringSSL-GRPC/src/ssl/d1_both.cc:630-718 | The next ChangeCipherSpec or the largest fragment that fits; no progress if not one byte fits |
| `DtlsWriteState.WriteState.SealNextPacket` | code/ios/Pods/BoringSSL-GRPC/src/ssl/d1_both.cc:725-766 | Seals until the packet is full, a message is cut or the flight ends |
| `DtlsWriteState.WriteState.SendRound` | code/ios/Pods/BoringSSL-GRPC/src/ssl/d1_both.cc:775-807 | A packet is sealed and offered; when the transport refuses it the position goes back, and after a failed seal it does not |
| `DtlsFlight.SentWhole` | code/ios/Pods/BoringSSL-GRPC/src/ssl/d1_both.cc:768-811 | send_flight reports success only when the whole flight was written, in packets that fit the MTU, and the transport's own flush succeeded |
| `DtlsWriteState.WriteState.SendFlight` | code/ios/Pods/BoringSSL-GRPC/src/ssl/d1_both.cc:768-811 | Refuses once writing is shut down or without a transport, settles the MTU, and then accepts packets, calls, state and outcome as the loop proved above, for every sequence of answers, the last flush included |
| `DtlsWriteState.WriteState.FlushFlight` | code/ios/Pods/BoringSSL-GRPC/src/ssl/d1_both.cc:813-818 | Marks the flight complete and sends it |
| `DtlsWriteState.WriteState.HandleTimeout` | code/ios/Pods/BoringSSL-GRPC/src/ssl/d1_lib.cc:248-268 | Past twelve timeouts gives up; otherwise rewinds, perhaps with a smaller MTU, and sends the flight again |
| `DtlsSends.MtuChosen` | code/ios/Pods/BoringSSL-GRPC/src/ssl/d1_both.cc:601-618 | An MTU of 228 or more is kept; a smaller one becomes what the transport names between 228 and 2^30, or else 1472, unless it must not be asked |
| `DtlsSends.MtuAfterTimeout` | code/ios/Pods/BoringSSL-GRPC/src/ssl/d1_lib.cc:168-190 | The first two timeouts leave the MTU alone; from the third on it is what the transport names between 228 and 2^30, if it may be asked |
| `DtlsSends.AddExact` | code/ios/Pods/BoringSSL-GRPC/src/ssl/d1_both.cc:550-589 | What a flight takes in: at most seven messages of at most 2^32 - 1 bytes, at its end and under the current epoch; a finished flight is replaced; a ChangeCipherSpec takes no message number and no part in the transcript |
| `DtlsSends.SealExact` | code/ios/Pods/BoringSSL-GRPC/src/ssl/dtls_record.cc:294-351 | A record is sealed if and only if its keys exist, it fits its room and its 16-bit length, and its counter is not at its last number; then it has epoch and number in the 16 and 48 bits, and just that counter moves on by one |
| `DtlsSends.NextExact` | code/ios/Pods/BoringSSL-GRPC/src/ssl/d1_both.cc:630-718 | Without room for one byte nothing happens; otherwise a fragment takes all that is left of the message, or exactly as much as there is room for |
| `DtlsSends.PacketIsFull` | code/ios/Pods/BoringSSL-GRPC/src/ssl/d1_both.cc:725-766 | A packet that does not finish the flight is full: what is left of the MTU does not take another byte of it |
| `DtlsSends.SendExact` | code/ios/Pods/BoringSSL-GRPC/src/ssl/d1_both.cc:768-811 | A flush does nothing if and only if writing is shut down; it is done only if the transport took every packet and the flush behind them, and is turned away only by the last of its answers |
| `DtlsSends.FlushSucceeds` | code/ios/Pods/BoringSSL-GRPC/src/ssl/d1_both.cc:768-811 | With room for a fragment, keys for every message, as many numbers left as there are bytes and messages, and a willing transport, one flush sends the whole flight |
| `DtlsSends.TagExact` | code/ios/Pods/BoringSSL-GRPC/src/ssl/ssl_aead_ctx.cc:199-213 | What is added behind the plaintext: the tag of an AEAD; of a block cipher the MAC and at least one byte of padding, up to the next whole block |
| `DtlsWriteState.WriteState.SetWriteState` | code/ios/Pods/BoringSSL-GRPC/src/ssl/dtls_method.cc:101-114 | The epoch advances with 16 bits, current keys and counter become the previous ones, and the new counter starts at zero |
| `DtlsWriteState.BuildMessage` | code/ios/Pods/BoringSSL-GRPC/src/ssl/d1_both.cc:506-532 | Building a message with its length written last, over the copied fragment length, yields the message with a header for one whole fragment |
| `TlsStream.WireConservation` | code/ios/Pods/BoringSSL-GRPC/src/ssl/s3_pkt.cc:199-295 | In every interleaving of handshake messages, application writes, alerts, key changes and flushes, with any partial writes and refusals: bytes on the wire, then the write buffer, then the rest of the pending flight, are the sealed records in seal order; no request to the write buffer exceeds 65529 bytes |
| `TlsOverflow.ConservationExact` | code/ios/Pods/BoringSSL-GRPC/src/ssl/ssl_buffer.cc:79-116 | With memory aligned as malloc aligns it, this conservation holds for all runs that ask at most `most` bytes of the write buffer if and only if `most` is at most 65529: beyond it the 16-bit offset wraps with bytes left |
| `TlsOverflow.LostByte` | code/ios/Pods/BoringSSL-GRPC/src/ssl/s3_pkt.cc:254-279 | The run that shows it: TLS 1.3 keys, a 49058-byte handshake message that waits, and 16384 bytes of application data behind it; the alignment puts the contents at offset 7, and the transport takes all but the last byte |
| `TlsBuffer.ConsumeExact` | code/ios/Pods/BoringSSL-GRPC/src/ssl/ssl_buffer.cc:109-116 | Consuming n bytes leaves exactly the rest of the contents, whatever the memory holds, if and only if the 16-bit offset does not wrap or nothing is left |
| `TlsFraming.HandshakeFraming` | code/ios/Pods/BoringSSL-GRPC/src/ssl/s3_both.cc:188-264 | In every run without a failed seal: the plaintexts of the handshake records, then what is pending, are the handshake messages added, in order, and each record has between 1 and max_send_fragment bytes |
| `TlsReader.DeliversTheStream` | code/ios/Pods/BoringSSL-GRPC/src/ssl/s3_both.cc:477-559 | However a stream of messages is cut into record payloads and however asking and taking interleave, a reader delivers the first messages of the stream, and all of them once it has everything |
| `TlsReader.RunAccounts` | code/ios/Pods/BoringSSL-GRPC/src/ssl/s3_both.cc:640-661 | Nothing received is lost or repeated: the messages delivered and what is held are the bytes received |
| `TlsReader.ReadsFirst` | code/ios/Pods/BoringSSL-GRPC/src/ssl/s3_both.cc:477-503 | A buffer that starts with a message reads as exactly that message once it holds all of it, and asks for more before |
| `TlsRoundTrip.HandshakeRoundTrip` | code/ios/Pods/BoringSSL-GRPC/src/ssl/s3_both.cc:188-264 | A reader fed the payloads of the first records of any run of the writer delivers the first of the messages added, and exactly all of them when it has every record and nothing is pending |
| `TlsAppData.ResumedWrite` | code/ios/Pods/BoringSSL-GRPC/src/ssl/s3_pkt.cc:131-197 | However often a write is turned away, whatever is sent in between, and however the buffer grows meanwhile: when it succeeds with r, exactly the first r bytes of the buffer were sealed as application data, once and in order, and what was sealed before never exceeds the buffer |
| `TlsAppData.EarlyDataLimit` | code/ios/Pods/BoringSSL-GRPC/src/ssl/s3_pkt.cc:160-188 | In every run early data stays within the ticket's limit |
| `TlsBuffer.GrownKeeps` | code/ios/Pods/BoringSSL-GRPC/src/ssl/ssl_buffer.cc:50-100 | Growing keeps the contents, succeeds exactly below 65536 bytes and then gives the room asked for; failing changes nothing |
| `TlsBuffer.GrownExact` | code/ios/Pods/BoringSSL-GRPC/src/ssl/ssl_buffer.cc:50-100 | A buffer that is large enough stays as it is; up to five bytes are kept in place; more go to new memory at the offset that aligns what follows the header |
| `TlsBuffer.SSLBuffer.constructor` | code/ios/Pods/BoringSSL-GRPC/src/ssl/internal.h:1213-1268 | An empty buffer owns no memory |
| `TlsBuffer.SSLBuffer.Clear` | code/ios/Pods/BoringSSL-GRPC/src/ssl/ssl_buffer.cc:39-48 | Frees the memory, keeps the inline bytes, and has no contents |
| `TlsBuffer.SSLBuffer.EnsureCap` | code/ios/Pods/BoringSSL-GRPC/src/ssl/ssl_buffer.cc:50-100 | Makes room exactly below 65536 bytes, inline up to five, else in new memory at the offset that aligns what follows the header, and keeps the contents |
| `TlsBuffer.AlignedOffset` | code/ios/Pods/BoringSSL-GRPC/src/ssl/ssl_buffer.cc:79-81 | The offset is less than 8 and makes the body behind the header start at a multiple of 8 |
| `TlsBuffer.SSLBuffer.Append` | code/ios/Pods/BoringSSL-GRPC/src/ssl/ssl_buffer.cc:102-107 | The contents grow by exactly these bytes, at the back |
| `TlsBuffer.SSLBuffer.Consume` | code/ios/Pods/BoringSSL-GRPC/src/ssl/ssl_buffer.cc:109-116 | The contents lose exactly the first n bytes while the 16-bit offset does not wrap or nothing is left |
| `TlsWriteState.WriteState.constructor` | code/ios/Pods/BoringSSL-GRPC/src/ssl/s3_lib.cc:186-208 | A new writer has nothing pending and the null cipher |
| `TlsWriteState.WriteState.SealRecord` | code/ios/Pods/BoringSSL-GRPC/src/ssl/tls_record.cc:514-546 | One record sealed into the room given, or none; the records sealed grow by it |
| `TlsWriteState.WriteState.AddRecordToFlight` | code/ios/Pods/BoringSSL-GRPC/src/ssl/s3_both.cc:137-169 | A record sealed to the end of the pending flight |
| `TlsWriteState.WriteState.FlushPendingHsData` | code/ios/Pods/BoringSSL-GRPC/src/ssl/s3_both.cc:244-264 | Pending handshake bytes become one record of the flight |
| `TlsWriteState.WriteState.AddHandshakeMessage` | code/ios/Pods/BoringSSL-GRPC/src/ssl/s3_both.cc:188-242 | Under the null cipher one record for each chunk, otherwise packed into pending data, which is flushed when full |
| `TlsAnswers.PackAnswer` | code/ios/Pods/BoringSSL-GRPC/src/ssl/s3_both.cc:205-229 | A message is packed behind what is pending: only records of exactly max_send_fragment bytes are sealed, what is pending never exceeds one, and it fails exactly when sealing does |
| `TlsAnswers.ChunksAnswer` | code/ios/Pods/BoringSSL-GRPC/src/ssl/s3_both.cc:196-206 | Under the null cipher a message is sealed at once, every record but its last exactly full, and what was pending stays |
| `TlsWriteState.WriteState.AddCcs` | code/ios/Pods/BoringSSL-GRPC/src/ssl/s3_both.cc:266-282 | Pending bytes first, then the ChangeCipherSpec record |
| `TlsAnswers.CcsAnswer` | code/ios/Pods/BoringSSL-GRPC/src/ssl/s3_both.cc:266-282 | Behind everything pending comes one record of type 20 with the byte 1; it fails exactly when sealing does |
| `TlsWriteState.WriteState.FlushWriteBuffer` | code/ios/Pods/BoringSSL-GRPC/src/ssl/ssl_buffer.cc:259-272 | Writes until the buffer is empty or the transport refuses; what it took left the front of the buffer |
| `TlsWriteState.WriteState.WritePendingFlight` | code/ios/Pods/BoringSSL-GRPC/src/ssl/s3_both.cc:331-343 | Writes the flight from its offset until all is written or the transport refuses |
| `TlsWriteState.WriteState.Flush` | code/ios/Pods/BoringSSL-GRPC/src/ssl/s3_both.cc:284-353 | Flushing in place ends as the function on values does, whose answer and effect the `TlsAnswers` theorems tell for every case |
| `TlsAnswers.FlushWrites` | code/ios/Pods/BoringSSL-GRPC/src/ssl/s3_both.cc:314-352 | On an open connection, with something to flush: the answer is 1 if and only if the transport turned nothing away, and then the write buffer, the rest of the flight and the pending handshake bytes are on the wire, in this order, and nothing is left; otherwise it is the refusal, what was taken is on the wire and the rest is kept |
| `TlsAnswers.FlushWithoutWriting` | code/ios/Pods/BoringSSL-GRPC/src/ssl/s3_both.cc:285-312 | The answer is -1, and nothing is written, if pending bytes cannot be sealed, if writing is shut down and there is a flight, or if this is over 2^31 - 1 bytes; it is 1, and nothing changes, if there is nothing to flush |
| `TlsAnswers.FlushSucceeds` | code/ios/Pods/BoringSSL-GRPC/src/ssl/s3_both.cc:284-353 | A willing transport has everything after one flush |
| `TlsWriteState.WriteState.WritePendingRecord` | code/ios/Pods/BoringSSL-GRPC/src/ssl/s3_pkt.cc:199-216 | Refuses a retry with a shorter or different buffer or another type; otherwise writes on and reports the record's full length |
| `TlsWriteState.WriteState.FillBuffer` | code/ios/Pods/BoringSSL-GRPC/src/ssl/s3_pkt.cc:254-279 | Moves the unsent flight into the buffer and seals the new record behind it |
| `TlsWriteState.WriteState.DoTlsWrite` | code/ios/Pods/BoringSSL-GRPC/src/ssl/s3_pkt.cc:218-295 | A pending record is only continued; otherwise pending handshake bytes, flight and the new record go out together, or nothing for an empty write with nothing to send |
| `TlsAnswers.WritePendingAnswer` | code/ios/Pods/BoringSSL-GRPC/src/ssl/s3_pkt.cc:199-216 | A retry with less, with another buffer without leave to move it, or of another type gets -1 and changes nothing; any other is done, with the length of the record, if and only if the transport turned nothing away, and stays pending otherwise |
| `TlsAnswers.WriteWrites` | code/ios/Pods/BoringSSL-GRPC/src/ssl/s3_pkt.cc:218-295 | A record that can be written is: behind the rest of the flight and the pending handshake bytes, with all of them sealed once; it is done, or pending with its rest in the write buffer |
| `TlsAnswers.WriteWithoutWriting` | code/ios/Pods/BoringSSL-GRPC/src/ssl/s3_pkt.cc:225-262 | No record is begun, and nothing written, if it is over 16384 bytes, if bytes are in the way, if the pending ones cannot be sealed, if there is nothing to send, or if it would take 65536 bytes |
| `TlsAnswers.BodyAligned` | code/ios/Pods/BoringSSL-GRPC/src/ssl/ssl_buffer.cc:50-100 | The body of the record behind the flight comes to lie at an address that is a multiple of eight |
| `TlsWriteState.WriteState.WriteAppData` | code/ios/Pods/BoringSSL-GRPC/src/ssl/s3_pkt.cc:131-197 | The loop over the caller's buffer from where the last call stopped, within the early data limit |
| `TlsAnswers.AppWrites` | code/ios/Pods/BoringSSL-GRPC/src/ssl/s3_pkt.cc:131-197 | How far a write gets when nothing is in its way: one record, of at most max_send_fragment and the early data left, with partial writes; otherwise everything, or all early data that is allowed, and then the handshake has to go on |
| `TlsAnswers.AppRefused` | code/ios/Pods/BoringSSL-GRPC/src/ssl/s3_pkt.cc:138-167 | -1 and no byte for a writer that was shut down, for less data than before, and once no early data is left |
| `TlsAnswers.AppFlag` | code/ios/Pods/BoringSSL-GRPC/src/ssl/s3_pkt.cc:160-188 | The caller is told to go on with the handshake only when this call ran into the limit of early data; then, and only then, no more is written early |
| `TlsWriteState.WriteState.SendAlertRecord` | code/ios/Pods/BoringSSL-GRPC/src/ssl/s3_pkt.cc:396-422 | Shuts writing down with close_notify or with an error, remembers the alert, and sends it unless data is still in the buffer; only a warning close_notify or another fatal alert may be asked for |
| `TlsWriteState.WriteState.DispatchAlertRecord` | code/ios/Pods/BoringSSL-GRPC/src/ssl/s3_pkt.cc:424-450 | The remembered alert as a record of its own; when it is through it is no longer due, and a fatal one is flushed, whatever comes of that |
| `TlsAnswers.SendAnswer` | code/ios/Pods/BoringSSL-GRPC/src/ssl/s3_pkt.cc:396-422 | A second closing alert is refused; the first shuts writing down, and is dispatched at once unless bytes are in the write buffer |
| `TlsAnswers.AlertWrites` | code/ios/Pods/BoringSSL-GRPC/src/ssl/s3_pkt.cc:424-450 | The alert is a record of type 21 with two bytes, level and description; it is no longer due if and only if the transport took it all |
| `TlsAnswers.AlertResumes` | code/ios/Pods/BoringSSL-GRPC/src/ssl/s3_pkt.cc:424-450 | An alert whose record is pending goes on where it stopped; behind another pending record it waits |
| `TlsWriteState.WriteState.NewWriteKeys` | code/ios/Pods/BoringSSL-GRPC/src/ssl/tls_method.cc:117-144 | Pending handshake bytes are sealed under the old keys before the new ones take over |
| `TlsAnswers.KeysAnswer` | code/ios/Pods/BoringSSL-GRPC/src/ssl/tls_method.cc:117-144 | New keys are in place if and only if what was pending could be sealed under the old ones |
| `TlsReader.TlsReadState.AppendHandshakeData` | code/ios/Pods/BoringSSL-GRPC/src/ssl/s3_both.cc:552-559 | The bytes held grow by exactly the payload, behind what was there |
| `TlsReader.TlsReadState.GetMessage` | code/ios/Pods/BoringSSL-GRPC/src/ssl/s3_both.cc:505-517 | Returns the one message the bytes held begin with, exactly if they begin with one, and takes nothing |
| `WireFormats.MessageRead` | code/ios/Pods/BoringSSL-GRPC/src/ssl/s3_both.cc:477-503 | What the bytes held begin with, told by its first four bytes: a message, or how many bytes there must be |
| `TlsReader.TlsReadState.NextMessage` | code/ios/Pods/BoringSSL-GRPC/src/ssl/s3_both.cc:640-661 | The message at the front followed by what is held after is what was held before; the buffer goes when it is empty after the handshake |
| `TlsReader.TlsReadState.CanAcceptHandshakeData` | code/ios/Pods/BoringSSL-GRPC/src/ssl/s3_both.cc:519-537 | An internal error exactly if some message is held whole; with a header held, more is accepted exactly if what is held begins a longer message within the limit |
| `TlsReader.TlsReadState.Unprocessed` | code/ios/Pods/BoringSSL-GRPC/src/ssl/s3_both.cc:539-550 | True exactly if something is held other than just the message being read |
| `TlsReader.UnprocessedExact` | code/ios/Pods/BoringSSL-GRPC/src/ssl/s3_both.cc:505-550 | Unprocessed is, before a message was asked for, anything held; once it was shown, what is behind it; once it was taken, what is left |
| `EchRoundTrip.DecodeEncode` | code/ios/Pods/BoringSSL-GRPC/src/ssl/encrypted_client_hello.cc:125-253 | For every table of extensions, order, GREASE, PSK and padding whose parts fit their length prefixes: decoding the encoded inner hello, with any number of zeros behind it, against the outer hello written from the same state returns exactly the real inner hello if some entry writes an encrypted_client_hello of the byte 1 and some entry lists versions, none up to TLS 1.2; and an invalid inner hello otherwise |
| `EchRoundTrip.ExpandExactly` | code/ios/Pods/BoringSSL-GRPC/src/ssl/encrypted_client_hello.cc:199-230 | For every well-formed outer hello the forward cursor expands a list exactly if it is a subsequence of the outer types; otherwise an extension is not found |
| `EchRoundTrip.ExpandSub` | code/ios/Pods/BoringSSL-GRPC/src/ssl/encrypted_client_hello.cc:199-230 | A subsequence of the outer extensions, named by their distinct types, expands to itself, bodies included |
| `EchRoundTrip.ExtensionsRoundTrip` | code/ios/Pods/BoringSSL-GRPC/src/ssl/extensions.cc:3318-3424 | Expanding what the inner writer encodes against what the outer writer wrote yields the real extensions |
| `EchRoundTrip.AllCompressedSub` | code/ios/Pods/BoringSSL-GRPC/src/ssl/extensions.cc:3426-3550 | What the inner writer compresses, GREASE included, is a subsequence of what the outer writer writes, in every order |
| `EchHello.DecodeInner` | code/ios/Pods/BoringSSL-GRPC/src/ssl/encrypted_client_hello.cc:125-253 | The decoder as the code runs it, loop by loop, ends as the function on values does, whose every outcome the `EchDecode` theorems tell |
| `EchInner.ValidExact` | code/ios/Pods/BoringSSL-GRPC/src/ssl/encrypted_client_hello.cc:81-123 | Of all hellos that can be written, the server takes for an inner one exactly those with distinct extension types, an encrypted_client_hello (0xfe0d) of the one byte 1, and a supported_versions (43) that lists 1 to 127 versions, none of 0x0300 to 0x0303, 0xfeff and 0xfefd |
| `EchInner.VersionsExact` | code/ios/Pods/BoringSSL-GRPC/src/ssl/encrypted_client_hello.cc:107-121 | A list of versions passes if and only if none is SSL 3.0, TLS 1.0 to 1.2 or DTLS 1.0 or 1.2 |
| `EchInner.ReadIsHello` | code/ios/Pods/BoringSSL-GRPC/src/ssl/extensions.cc:221-284 | Whatever reads as a ClientHello has fields of the allowed sizes and distinct extension types, and is what is written for them, or ends before its extensions and has none |
| `EchInner.WrittenReads` | code/ios/Pods/BoringSSL-GRPC/src/ssl/extensions.cc:221-284 | What is written for such fields reads back, whatever follows, if the extensions are well-formed and distinct, and does not read otherwise |
| `EchDecode.Refusals` | code/ios/Pods/BoringSSL-GRPC/src/ssl/encrypted_client_hello.cc:128-156 | What is no ClientHello is refused; so is anything but zeros behind one, with another error; so is a hello without extensions or with a session ID |
| `EchDecode.WithoutReference` | code/ios/Pods/BoringSSL-GRPC/src/ssl/encrypted_client_hello.cc:170-178 | A hello that refers to nothing is returned as it is, with the outer session ID, if it is an inner hello |
| `EchDecode.WithReference` | code/ios/Pods/BoringSSL-GRPC/src/ssl/encrypted_client_hello.cc:179-240 | A hello that lists types not in the outer hello, or not in its order, is refused; otherwise exactly the outer extensions of these types, in this order, take the place of the list, and the result is returned if it is an inner hello |
| `EchHello.ExpandOuter` | code/ios/Pods/BoringSSL-GRPC/src/ssl/encrypted_client_hello.cc:199-230 | The nested loops over the list and the one cursor compute the expansion |
| `EchHello.ParseWrite` | code/ios/Pods/BoringSSL-GRPC/src/ssl/encrypted_client_hello.cc:61-79 | A hello that is written reads back, whatever follows it |
| `EchRoundTrip.PaddingLength` | code/ios/Pods/BoringSSL-GRPC/src/ssl/encrypted_client_hello.cc:796-810 | The zeros added cover the padding of the name and fill the last 32 bytes, and are the fewest that do |
| `EchRoundTrip.PaddedLength` | code/ios/Pods/BoringSSL-GRPC/src/ssl/encrypted_client_hello.cc:796-810 | The padded length is the least multiple of 32 that holds the hello and the padding for the name |
| `EchRoundTrip.PaddingHidesName` | code/ios/Pods/BoringSSL-GRPC/src/ssl/encrypted_client_hello.cc:796-810 | Two hellos that differ only in a name within the maximum, or in having one, are padded to the same length |
| `HelloTypes.RealTypesDistinct` | code/ios/Pods/BoringSSL-GRPC/src/ssl/extensions.cc:3318-3424 | The real inner hello has pairwise distinct extension types, in every order |
| `HelloTypes.EncodedTypesDistinct` | code/ios/Pods/BoringSSL-GRPC/src/ssl/extensions.cc:3387-3421 | So has its encoded form |
| `HelloTypes.OuterTypesDistinct` | code/ios/Pods/BoringSSL-GRPC/src/ssl/extensions.cc:3426-3550 | And so has the outer hello, with both GREASE values, padding and PSK |
| `HelloWriter.GreaseDiffers` | code/ios/Pods/BoringSSL-GRPC/src/ssl/handshake.cc:445-465 | As words of 16 bits the two fake extension types have the form of GREASE values and differ, for all seeds |
| `HelloWriter.GreaseFromSeeds` | code/ios/Pods/BoringSSL-GRPC/src/ssl/handshake.cc:445-465 | Each carries the upper half of its seed in both bytes; only when the two are the same, the second is changed, by one bit in each |
| `HelloWriter.GreaseSeedsOk` | code/ios/Pods/BoringSSL-GRPC/src/ssl/handshake.cc:445-465 | As extension types they are as every theorem about the hellos asks, for all seeds |
| `HelloTypes.SeedsDistinct` | code/ios/Pods/BoringSSL-GRPC/src/ssl/extensions.cc:3270-3292 | For all seeds of the shuffle and of GREASE: the inner hello, its encoded form and the outer hello have pairwise distinct extension types |
| `EchRoundTrip.DecodeEncodeSeeds` | code/ios/Pods/BoringSSL-GRPC/src/ssl/encrypted_client_hello.cc:125-253 | The round trip, for all seeds of the shuffle and of GREASE |
| `EchRoundTrip.ExpandPlaces` | code/ios/Pods/BoringSSL-GRPC/src/ssl/encrypted_client_hello.cc:199-230 | A list expands exactly if its types are found at ascending places among the outer types |
| `HelloWriter.SetupPermutation` | code/ios/Pods/BoringSSL-GRPC/src/ssl/extensions.cc:3270-3292 | From any seeds the shuffle makes a permutation of the table, by the swaps its seeds name |
| `HelloWriter.ShuffleReaches` | code/ios/Pods/BoringSSL-GRPC/src/ssl/extensions.cc:3280-3289 | And every permutation comes out for some seeds |
| `HelloWriter.WriteInner` | code/ios/Pods/BoringSSL-GRPC/src/ssl/extensions.cc:3318-3424 | Writes the real and the encoded extensions of the inner hello at once, fails exactly when a length prefix is too small, and the sent bits name exactly the table entries written |
| `HelloWriter.WriteOuter` | code/ios/Pods/BoringSSL-GRPC/src/ssl/extensions.cc:3426-3550 | Writes GREASE, the table in order, GREASE, padding and PSK, omits an empty block, fails exactly when it is too long, and the sent bits name exactly the entries written |
| `HelloWriter.PaddingAvoidsRange` | code/ios/Pods/BoringSSL-GRPC/src/ssl/extensions.cc:3495-3526 | With its padding no hello is 256 to 511 bytes long; padding is never empty, and is added exactly when the length needs it or the last table entry wrote an empty body |
| `HelloWriter.PaddingExact` | code/ios/Pods/BoringSSL-GRPC/src/ssl/extensions.cc:3493-3526 | Padding fills a hello of 256 to 511 bytes up to 512, or takes the five bytes that are the least; outside this range it is one byte behind an empty extension, and none otherwise |
| `WireFormats.HelloAvoidsRange` | code/ios/Pods/BoringSSL-GRPC/src/ssl/extensions.cc:3493-3526 | A whole padded hello message, its header and all its extensions included, is never 256 to 511 bytes long |
| `WireFormats.LastNotEmpty` | code/ios/Pods/BoringSSL-GRPC/src/ssl/extensions.cc:3493-3526 | A padded hello without a pre_shared_key ends with an extension that is not empty, when GREASE is sent or the last table entry wrote one |
| `WireFormats.HelloLists` | code/ios/Pods/BoringSSL-GRPC/src/ssl/extensions.cc:3318-3550 | The order of extensions: empty GREASE first, the table, GREASE of one zero byte, padding (21), pre_shared_key (41) last; in the encoded inner hello one ech_outer_extensions (0xfd00) lists the types that are repeated |
| `WireFormats.HelloBytes` | code/ios/Pods/BoringSSL-GRPC/src/ssl/encrypted_client_hello.cc:61-79 | A ClientHello byte by byte, with its length prefixes of one, two, one and two bytes |
| `Extensions.CheckDuplicates` | code/ios/Pods/BoringSSL-GRPC/src/ssl/extensions.cc:157-205 | Count, gather, sort and compare accept a block exactly if it is well-formed and its types are distinct |
| `Extensions.CountExtensions` | code/ios/Pods/BoringSSL-GRPC/src/ssl/extensions.cc:158-171 | The first pass counts the extensions of a well-formed block and fails on any other |
| `Extensions.GatherTypes` | code/ios/Pods/BoringSSL-GRPC/src/ssl/extensions.cc:182-193 | The second pass gathers the types of exactly that many extensions |
| `Extensions.AllDiffer` | code/ios/Pods/BoringSSL-GRPC/src/ssl/extensions.cc:195-204 | Sorting and comparing neighbours decides whether all types differ |
| `Extensions.ParseEncode` | code/ios/Pods/BoringSSL-GRPC/src/ssl/extensions.cc:160-171 | Extensions written one after the other read back |
| `Extensions.EncodeParse` | code/ios/Pods/BoringSSL-GRPC/src/ssl/extensions.cc:160-171 | A block that reads as extensions is their encoding and nothing else |
| `WireFormats.ExtensionBytes` | code/ios/Pods/BoringSSL-GRPC/src/ssl/extensions.cc:160-171 | An extension byte by byte: type, length, body |
| `Extensions.FindIn` | code/ios/Pods/BoringSSL-GRPC/src/ssl/extensions.cc:283-303 | Looking up a type finds the extension and splits the block around it |
| `Extensions.FindAbsent` | code/ios/Pods/BoringSSL-GRPC/src/ssl/extensions.cc:283-303 | And finds nothing for a type that is not there |
| `SslSession.ParseSerialize` | code/ios/Pods/BoringSSL-GRPC/src/ssl/ssl_asn1.cc:206-435 | For every well-formed session within the length limits, what is printed parses to the same session, except for the certificates when only their hash is kept, and for session ID and ticket in the form for tickets; the printed form is that of `SessionFormat.Layout` |
| `SslSession.BodyBack` | code/ios/Pods/BoringSSL-GRPC/src/ssl/ssl_asn1.cc:555-809 | The same for the fields inside the sequence: every field comes back, and each default is what absence stands for |
| `SessionFormat.Layout` | code/ios/Pods/BoringSSL-GRPC/src/ssl/ssl_asn1.cc:206-435 | The printed form: a sequence (0x30) of structure version 1, protocol version, the two bytes of the cipher, session ID, secret, time under 0xa1 and timeout under 0xa2, and then each field that is there, by its meaning, under its own identifier from 0xa3 for the certificate and 0xa4 for the session ID context to 0xbe for the peer's ALPS |
| `SessionFormat.LaidIs` | code/ios/Pods/BoringSSL-GRPC/src/ssl/ssl_asn1.cc:153-204 | Any 24 optional fields are written under the identifiers 0xa3 to 0xa6, 0xa8 to 0xaa, 0xad to 0xb3 and 0xb5 to 0xbe, in this order, and each is found under its own |
| `SessionFormat.FieldsAre` | code/ios/Pods/BoringSSL-GRPC/src/ssl/ssl_asn1.cc:233-435 | Which field is which, when it is there and how its content is encoded |
| `SessionFormat.ParsedIsBounded` | code/ios/Pods/BoringSSL-GRPC/src/ssl/ssl_asn1.cc:555-809 | Whatever bytes parse, the session is within the bounds of a session: known version and cipher, ID of at most 32 bytes, secret of at most 48, context of at most 32, hash of at most 64, a certificate hash of 32, no zero byte in the PSK identity, and every number in its width |
| `SessionFormat.Reprinted` | code/ios/Pods/BoringSSL-GRPC/src/ssl/ssl_asn1.cc:555-809 | A session that was parsed and is printed again parses to itself, but for what is not kept |
| `SslSession.ChainBack` | code/ios/Pods/BoringSSL-GRPC/src/ssl/ssl_asn1.cc:340-355 | The certificates behind the first, joined, split into the same certificates |
| `Der.FieldsBack` | code/ios/Pods/BoringSSL-GRPC/src/crypto/bytestring/cbs.c:513-598 | Because fields are printed in ascending tag order, asking for each tag in turn finds exactly the fields that are there |
| `Der.OptionalBack` | code/ios/Pods/BoringSSL-GRPC/src/crypto/bytestring/cbs.c:513-528 | An optional field is found if it is there, and passed over if what follows has a higher tag |
| `Der.ElementBack` | code/ios/Pods/BoringSSL-GRPC/src/crypto/bytestring/cbb.c:201-285 | An element with a tag number below 31, of up to 0xfffffffe bytes, reads back, with the one length form that the reader accepts |
| `SessionFormat.ElementIs` | code/ios/Pods/BoringSSL-GRPC/src/crypto/bytestring/cbb.c:201-285 | An element byte by byte: tag, length in the fewest bytes, body |
| `SessionFormat.ReadIsElement` | code/ios/Pods/BoringSSL-GRPC/src/crypto/bytestring/cbs.c:286-400 | Whatever reads as an element is its one encoding |
| `Der.IntegerBack` | code/ios/Pods/BoringSSL-GRPC/src/crypto/bytestring/cbb.c:505-538 | Every 64-bit integer, with its minimal form and leading zero where needed, reads back |
| `SessionFormat.IntegerIs` | code/ios/Pods/BoringSSL-GRPC/src/crypto/bytestring/cbb.c:505-538 | The body of an integer has one to nine bytes, stands for the number, does not look negative and has no zero to spare |
| `SessionFormat.OneUint` | code/ios/Pods/BoringSSL-GRPC/src/crypto/bytestring/cbs.c:451-471 | Whatever reads as an unsigned integer is its one encoding |
| `Der.SplitChain` | code/ios/Pods/BoringSSL-GRPC/src/ssl/ssl_asn1.cc:725-739 | The loop over the certificate chain splits it into its elements or fails |
| `HandshakeSafety.CompletedSafely` | code/ios/Pods/BoringSSL-GRPC/src/ssl/handshake_client.cc:997-1839 | Every run of the client below TLS 1.3 that reaches the end: in a full handshake a key exchange message came before the client's Finished, and before it the certificate was verified, if the cipher authenticates by one, and the server's key exchange parameters were checked, if the cipher has it send some; in a resumption the certificate was verified before that Finished if reverification is asked for; read keys were installed once, directly after a ChangeCipherSpec was opened; the server's Finished was verified once, after them; write keys were installed once, directly after ChangeCipherSpec was sent; the client sent one Finished of any kind, directly after them, and in a resumption after the server's; and ECH was not rejected |
| `HandshakeSafety.SuccessAuthenticated` | code/ios/Pods/BoringSSL-GRPC/src/ssl/handshake_client.cc:1634-1699 | The same authentication, parameters included, for every call that succeeds below TLS 1.3, false start included; only the early return with early keys, before the ServerHello, is excepted |
| `HandshakeSafety.VerifiedBeforeKeyExchange` | code/ios/Pods/BoringSSL-GRPC/src/ssl/handshake_client.cc:997-1209 | In every run, finished or not, a ClientKeyExchange comes after the certificate was verified, for a cipher that authenticates by one, and after the server's parameters were checked, for a cipher that has some; that a finished full handshake has one is part of CompletedSafely |
| `HandshakeProgress.HandshakeCompletes` | code/ios/Pods/BoringSSL-GRPC/src/ssl/handshake_client.cc:1841-1929 | For every configuration, cipher and choice of the server: if no check fails, every message comes and the transport does its part, the client gets from the start to the end, by a full handshake, a resumption or TLS 1.3, as the server chooses |
| `HandshakeProgress.SmoothRunCompletes` | code/ios/Pods/BoringSSL-GRPC/src/ssl/handshake_client.cc:1841-1929 | From any state: a run in which no step is at fault or lacks anything reaches the end |
| `HandshakeProgress.FailsExactly` | code/ios/Pods/BoringSSL-GRPC/src/ssl/handshake_client.cc:441-1839 | A step of the machine fails if and only if something is wrong: a message that may not come here, a failed check, an invalid certificate, a ServerHello that does not fit, trailing bytes, a Finished that does not match, a rejected ECH at the end; no failed check is ever passed over |
| `HandshakeProgress.FailsOnTheWay` | code/ios/Pods/BoringSSL-GRPC/src/ssl/handshake_client.cc:441-1839 | A step that fails has done a part of what it was to do, from the beginning; nothing, if its first check fails |
| `HandshakeProgress.WaitsExactly` | code/ios/Pods/BoringSSL-GRPC/src/ssl/handshake_client.cc:441-1839 | A step that lacks a message, a verdict on the certificate, a client certificate or a signature waits for just that, and changes nothing; any other that does not fail leaves its state |
| `HandshakeProgress.GoesOn` | code/ios/Pods/BoringSSL-GRPC/src/ssl/handshake_client.cc:441-1839 | And then goes on to the next state of a full handshake, but for the six places where the machine branches; what it adds to what was done, and what the driver has to do before the next step, false start included, is told exactly |
| `HandshakeProgress.Settles` | code/ios/Pods/BoringSSL-GRPC/src/ssl/handshake_client.cc:441-1839 | And what it settles of session, ECH, early data, negotiated parameters and client authentication |
| `HandshakeProgress.EarnedInRuns` | code/ios/Pods/BoringSSL-GRPC/src/ssl/handshake_client.cc:441-1839 | In every run: a client certificate is asked for only in a full handshake by a server that shows its own, and sent only if asked for; early writes are possible only with early keys or after a false start |
| `HandshakeProgress.DriverExact` | code/ios/Pods/BoringSSL-GRPC/src/ssl/handshake.cc:590-735 | The driver goes on if and only if what was waited for is there; otherwise it tells the caller what the transport answered, an error, or that it is its turn; nothing is lost |
| `HandshakeSafety.RoundsSound` | code/ios/Pods/BoringSSL-GRPC/src/ssl/handshake_client.cc:1841-1929 | Every run of driver and machine keeps what makes the server authenticated, state by state |
| `HandshakeSafety.NoSuccessOnEchReject` | code/ios/Pods/BoringSSL-GRPC/src/ssl/handshake.cc:720-751 | Below TLS 1.3 no call to the driver returns success after ECH was rejected, by early return or completion |
| `HandshakeSafety.ErrorsStick` | code/ios/Pods/BoringSSL-GRPC/src/ssl/handshake.cc:596-600 | After an error nothing changes, and every call returns the error |
| `HandshakeSafety.RoundsAfter` | code/ios/Pods/BoringSSL-GRPC/src/ssl/handshake_client.cc:1841-1929 | Every run of driver and machine keeps the invariant that ties each state to what was done before it |
| `Handshaker.ClientHs.constructor` | code/ios/Pods/BoringSSL-GRPC/src/ssl/handshake.cc:127-172 | A handshake starts in its first state with nothing done |
| `Handshaker.ClientHs.StartConnectStep` | code/ios/Pods/BoringSSL-GRPC/src/ssl/handshake_client.cc:441-534 | Nothing is waited for before a ClientHello is sent, and early data is offered only with a session, above TLS 1.2 and not in DTLS; the order of acts is kept |
| `Handshaker.ClientHs.EnterEarlyDataStep` | code/ios/Pods/BoringSSL-GRPC/src/ssl/handshake_client.cc:536-564 | An early ChangeCipherSpec is sent only when early data was offered; the order of acts is kept |
| `Handshaker.ClientHs.EarlyReverifyStep` | code/ios/Pods/BoringSSL-GRPC/src/ssl/handshake_client.cc:566-598 | The early keys are released only after the certificate is verified again; the order of acts is kept |
| `Handshaker.ClientHs.HelloVerifyRequestStep` | code/ios/Pods/BoringSSL-GRPC/src/ssl/handshake_client.cc:600-646 | A second ClientHello answers a HelloVerifyRequest and nothing else; the order of acts is kept |
| `Handshaker.ClientHs.ServerHelloStep` | code/ios/Pods/BoringSSL-GRPC/src/ssl/handshake_client.cc:680-889 | Below TLS 1.3 there is no early data, ECH counts as rejected if it was offered, and then, or without a session, nothing is resumed; the order of acts is kept |
| `Handshaker.ClientHs.ServerHello12Step` | code/ios/Pods/BoringSSL-GRPC/src/ssl/handshake_client.cc:680-889 | A session is resumed only if one was offered, it fits the connection and ECH was not rejected; otherwise a new one is begun. With TLS 1.3 enabled, a downgrade is refused; the order of acts is kept |
| `Handshaker.ClientHs.Tls13Step` | code/ios/Pods/BoringSSL-GRPC/src/ssl/handshake_client.cc:891-899 | TLS 1.3 ends before anything else is done; the order of acts is kept |
| `Handshaker.ClientHs.ServerCertificateStep` | code/ios/Pods/BoringSSL-GRPC/src/ssl/handshake_client.cc:901-946 | A cipher that authenticates by certificate goes on only with one; the order of acts is kept |
| `Handshaker.ClientHs.CertificateStatusStep` | code/ios/Pods/BoringSSL-GRPC/src/ssl/handshake_client.cc:948-995 | A status that was announced is waited for, but need not come; the order of acts is kept |
| `Handshaker.ClientHs.VerifyStep` | code/ios/Pods/BoringSSL-GRPC/src/ssl/handshake_client.cc:997-1015 | There is no way on without a verified certificate, if the cipher needs one; the order of acts is kept |
| `Handshaker.ClientHs.ReverifyStep` | code/ios/Pods/BoringSSL-GRPC/src/ssl/handshake_client.cc:1017-1032 | Nor is a session resumed without it, where that is asked for; the order of acts is kept |
| `Handshaker.ClientHs.ServerKeyExchangeStep` | code/ios/Pods/BoringSSL-GRPC/src/ssl/handshake_client.cc:1034-1209 | Goes on if and only if the message came and passed its checks, or another came and the cipher does not need it; the check is noted exactly when it was passed; the order of acts is kept |
| `Handshaker.ClientHs.CertificateRequestStep` | code/ios/Pods/BoringSSL-GRPC/src/ssl/handshake_client.cc:1211-1281 | A client certificate is asked for only by a CertificateRequest, of a server that shows its own; the order of acts is kept |
| `Handshaker.ClientHs.ServerHelloDoneStep` | code/ios/Pods/BoringSSL-GRPC/src/ssl/handshake_client.cc:1283-1312 | The server's flight ends with ServerHelloDone and nothing behind it; the order of acts is kept |
| `Handshaker.ClientHs.ClientCertificateStep` | code/ios/Pods/BoringSSL-GRPC/src/ssl/handshake_client.cc:1314-1354 | A Certificate is sent only when asked for, and empty after ECH was rejected; the order of acts is kept |
| `Handshaker.ClientHs.ClientKeyExchangeStep` | code/ios/Pods/BoringSSL-GRPC/src/ssl/handshake_client.cc:1359-1524 | The key exchange message goes out only to a server whose certificate, if it needs one, was verified; the order of acts is kept |
| `Handshaker.ClientHs.CertificateVerifyStep` | code/ios/Pods/BoringSSL-GRPC/src/ssl/handshake_client.cc:1526-1586 | A client that sent a certificate signs, and no other does; the order of acts is kept |
| `Handshaker.ClientHs.ClientFinishedStep` | code/ios/Pods/BoringSSL-GRPC/src/ssl/handshake_client.cc:1588-1632 | ChangeCipherSpec, the new keys and Finished, in this order and for the first time; in a resumption after the server's; the order of acts is kept |
| `Handshaker.ClientHs.FinishFlightStep` | code/ios/Pods/BoringSSL-GRPC/src/ssl/handshake_client.cc:1673-1699 | A resumption is over with the server's Finished verified; false start needs a strong cipher and never follows a rejected ECH; the order of acts is kept |
| `Handshaker.ClientHs.SessionTicketStep` | code/ios/Pods/BoringSSL-GRPC/src/ssl/handshake_client.cc:1701-1767 | A ticket that was announced must come, and then a ChangeCipherSpec; the order of acts is kept |
| `Handshaker.ClientHs.ReadKeysStep` | code/ios/Pods/BoringSSL-GRPC/src/ssl/handshake_client.cc:1769-1776 | The read keys change directly after a ChangeCipherSpec, for the first time; the order of acts is kept |
| `Handshaker.ClientHs.ServerFinishedStep` | code/ios/Pods/BoringSSL-GRPC/src/ssl/handshake_client.cc:1778-1792 | The server's Finished is verified under the new read keys, for the first time; the order of acts is kept |
| `Handshaker.ClientHs.FinishStep` | code/ios/Pods/BoringSSL-GRPC/src/ssl/handshake_client.cc:1794-1839 | Success means that ECH was not rejected and that, below TLS 1.3, both sides have new keys and both Finished messages are there; the order of acts is kept |
| `Handshaker.ClientHs.ClientHandshake` | code/ios/Pods/BoringSSL-GRPC/src/ssl/handshake_client.cc:1841-1929 | The loop over the states ends for every sequence of answers, by a rank on state and resumption, keeps the order of acts, and reports success exactly at the end |
| `Handshaker.ClientHs.RunRound` | code/ios/Pods/BoringSSL-GRPC/src/ssl/handshake.cc:588-756 | One round keeps what is claimed between rounds; success means that ECH was not rejected, that below TLS 1.3 the server was authenticated before the client's Finished (but for a return with early keys), and that the handshake is at its end or returns early; after an error nothing changes |
| `Handshaker.ClientHs.ResolveWait` | code/ios/Pods/BoringSSL-GRPC/src/ssl/handshake.cc:590-735 | The machine goes on only when it is ready for its next step, a ChangeCipherSpec is noted exactly when it was opened, and otherwise at most the wait is cleared; the one success is an early return without ECH rejected |
| `Handshaker.ClientHs.RunHandshake` | code/ios/Pods/BoringSSL-GRPC/src/ssl/handshake.cc:588-756 | Rounds until one of them returns, with the state and results of the runs the safety theorems are about; success means what it means for a round |
| `ChooseCipher.Choose` | code/ios/Pods/BoringSSL-GRPC/src/ssl/handshake_server.cc:330-397 | Returns the other side's favourite among the acceptable ciphers of the first group that has one; null exactly if every acceptable entry is in a group that never ends |
| `ChooseCipher.BestUnique` | code/ios/Pods/BoringSSL-GRPC/src/ssl/handshake_server.cc:330-397 | This choice is unique |
| `ChooseCipher.NoneExact` | code/ios/Pods/BoringSSL-GRPC/src/ssl/handshake_server.cc:363-395 | Null means that no cipher is acceptable, for all lists of the other side, if and only if the flags end every group |
| `ChooseCipher.WithoutGroups` | code/ios/Pods/BoringSSL-GRPC/src/ssl/handshake_server.cc:374-386 | Without groups it is the first acceptable entry |
| `RefCount.LockFreeRefinesLocked` | code/ios/Pods/BoringSSL-GRPC/src/crypto/refcount_c11.c:37-65 | For any number of threads, every interleaving and every spurious failure: the count and the value returned to each thread are those of the locked operations, applied one after the other in the order they took effect |
| `RefCount.StepAtomic` | code/ios/Pods/BoringSSL-GRPC/src/crypto/refcount_c11.c:37-65 | Each single step of a thread (read, compare-and-swap, return) keeps this |
| `RefCount.FailureMeansProgress` | code/ios/Pods/BoringSSL-GRPC/src/crypto/refcount_c11.c:40-46 | A thread whose expected value is out of date was overtaken by an operation that took effect since it read |
| `RefCount.SaturationAbsorbs` | code/ios/Pods/BoringSSL-GRPC/src/crypto/refcount_lock.c:29-51 | Once saturated the count never changes |
| `RefCount.Accounting` | code/ios/Pods/BoringSSL-GRPC/src/crypto/refcount_lock.c:29-51 | Until it saturates, the count is the initial one plus increments less decrements |
| `RefCount.ExactCount` | code/ios/Pods/BoringSSL-GRPC/src/crypto/refcount_lock.c:29-51 | As long as increments and decrements do not add up to 4294967295, the count is exact |
| `RefCount.ExactReports` | code/ios/Pods/BoringSSL-GRPC/src/crypto/refcount_lock.c:37-51 | And each decrement reports zero if and only if it took the last reference, and aborts if and only if there was none |
| `RefCount.Saturated` | code/ios/Pods/BoringSSL-GRPC/src/crypto/refcount_lock.c:29-51 | Once they do, the count is 4294967295 for good and no decrement reports zero |
| `RefCount.SoloCompletes` | code/ios/Pods/BoringSSL-GRPC/src/crypto/refcount_c11.c:37-65 | A thread that is not disturbed finishes its operation in two steps after the call, with the effect and result of the locked one |
| `RefCount.OneZeroPerLife` | code/ios/Pods/BoringSSL-GRPC/src/crypto/refcount_lock.c:37-51 | Between two decrements that report zero there is an increment from zero: one such report per life |
| `RefCount.LockedCount.Increment` | code/ios/Pods/BoringSSL-GRPC/src/crypto/refcount_lock.c:29-35 | The locked increment is the atomic operation of the refinement |
| `RefCount.LockedCount.DecAndTestZero` | code/ios/Pods/BoringSSL-GRPC/src/crypto/refcount_lock.c:37-51 | The locked decrement, which aborts at zero |
| `RsaPremaster.SelectPremaster` | code/ios/Pods/BoringSSL-GRPC/src/ssl/handshake_server.cc:1428-1457 | For every block of at least 59 bytes: the last 48 bytes exactly if the block is 00 02, padding without zeros, 00, and a secret that begins with the version; otherwise the random secret; a shorter block fails and changes nothing |
| `RsaPremaster.CheckPadding` | code/ios/Pods/BoringSSL-GRPC/src/ssl/handshake_server.cc:1436-1450 | The accumulated mask is all ones exactly if every check passes, and all zeros otherwise |
| `RsaPremaster.IsZeroWMeans` | code/ios/Pods/BoringSSL-GRPC/src/crypto/internal.h:372-386 | The word-wide zero test is all ones for zero and all zeros otherwise |
| `RsaPremaster.Eq8Means` | code/ios/Pods/BoringSSL-GRPC/src/crypto/internal.h:394-405 | Equality of bytes as a mask |
| `RsaPremaster.Select8Means` | code/ios/Pods/BoringSSL-GRPC/src/crypto/internal.h:420-440 | Selection by a mask takes the one value or the other |

## Left out

- DtlsSystem.DeliveredIsPrefixOfSent: asks that the sender be at most 65536 messages ahead, because it is false beyond (`DtlsOverrun.DeliveryExact`).
- TlsStream.WireConservation: asks that the write buffer never be asked for more than 65529 bytes, because it is false beyond (`TlsOverflow.ConservationExact`).
- DtlsFlight.NoNumberReuse: covers runs up to the first failed seal; `DtlsLimits.CounterExact` says when that is, and what a further seal does.
- DtlsFlight.PacketSucceeds: for an MTU within the longest record length; `DtlsLimits.MtuExact` is exact.
- DtlsWriteState.WriteState.FlushFlight: starting the retransmission timer.
- DtlsReadState.ReadState.OpenRec: takes a record as a value with type, number and sealed body; record header bytes, version checks and the split of a datagram into records are not modelled.
- Forgery under the null cipher: an unprotected record that nobody sealed. The network can only repeat sealed records or send what does not open.
- DtlsWriteState.WriteState.HandleTimeout: the number of timeouts is an argument; the check that the timer has expired, starting, doubling and stopping it, and the clock, are left out.
- TlsWriteState.WriteState.DispatchAlertRecord: the QUIC branch and the callbacks.
- Warning alert counts, message and info callbacks, error queues, memory failure, BIO details, QUIC, V2ClientHello, renegotiation, handoff.
- The bytes of HelloVerifyRequest cookies and of the DTLS cookie field in a ClientHello.
- TlsWriteState.WriteState.WriteAppData: lengths are natural numbers, so the check for a negative length and the checks for overflow of size_t are left out; the caller's buffer address is a number.
- Changing max_send_fragment during a connection, and early data counted for a record that completes after early data has ended.
- TlsWriteState.WriteState.SealRecord: a record's bytes come from an arbitrary function of the number sealed, type and plaintext, which may fail.
- Splitting of TLS 1.0 CBC records, and reading TLS records; the reader is given payloads.
- Nonce.NonceInjective: the constructions that use the sequence number; the random per-record IV of CBC ciphers in TLS 1.1 and later is left out.
- EchRoundTrip.DecodeEncode: extension callbacks are a table of arbitrary bodies of distinct types; encryption, HPKE and the configuration list are left out.
- Extensions.Sort: an insertion sort stands for qsort.
- HandshakeSafety.NoSuccessOnEchReject: says something below TLS 1.3 only, because the TLS 1.3 state never rejects ECH in the model.
- HandshakeSafety.CompletedSafely: TLS 1.3 is one state without inner steps, and the checks inside a state (parsing, signatures, certificates) are one outcome, success or failure, of the environment.
- Handshaker.ClientHs.StartConnectStep: message contents are left out; the log records which decisive acts happened in which order.
- SslSession.ParseSerialize: printing and parsing are functions, because the code is a straight line of builder and cursor calls; only the chain loop is a method. Fields that are not printed and X.509 object caching are left out, as are tags of 31 and more.
- RefCount.LockFreeRefinesLocked: the aborting thread stops at its own next step while others may go on until then; memory order is sequentially consistent.
- ChooseCipher.Choose: starts from the client's list; choose_cipher also returns null when that list does not parse.
- Server handshake, certificate handling and extension callbacks: they would repeat the shapes proved here.
