# ProtoEmb: verified model

ProtoEmb is a stop-and-wait serial protocol and a schema compiler that generates its codecs. This project models both
halves in Dafny and proves what they promise.

**The link.** `Checksum.dfy` (CRC-8/MAXIM), `Framing.dfy` (frames and a declarative division of a byte stream),
`HostParser.dfy` (the host's eight-state parser), `DeviceRuntime.dfy` and `DeviceReplies.dfy` (the generated device runtime),
`MessageQueue.dfy`, `Storage.dfy`, `HostClient.dfy` and `ClientObject.dfy` (the host client and what it is made of),
`ClientRuns.dfy`, `ClientTiming.dfy` and `PeriodicRuns.dfy` (what holds in every run of the client), `Link.dfy` (client and device joined by two
lossless byte channels, as a step relation with one inductive invariant).

**The compiler and its codecs.** `TopoSort.dfy` and `LayoutPass.dfy` (dependency order and sizes of named types),
`Schema.dfy` (widths, offsets, tiling), `RemapTables.dfy`, `BitStrings.dfy` and `Packing.dfy` (`pack_bits`, `unpack_bits`),
`LeafCodec.dfy` and `LeafLimits.dfy` (scaled, offset, raw and sign-extended numbers and enums, in C and in Rust),
`Codec.dfy` (packed values as bit strings), `GeneratedCodec.dfy` and `MessageCodec.dfy` (the generated encoders and decoders
over a byte buffer), `CrossLanguage.dfy` (C and Rust agree on the bytes), `WireImage.dfy` (the wire image number by number), `TypedDispatch.dfy` (command ids and the typed
facade), `DeclaredRanges.dfy` (from the ranges a schema declares to the values that arrive). `Bytes.dfy` and `Arithmetic.dfy`
serve both halves.

The source's mutable objects and in-place loops are classes and methods with loops; each is tied to a specification function,
and the theorems are about those functions. Clocks, transport results and application callbacks are parameters.

Where the code does less than its documentation or its checks suggest, the model follows the code and proves when it meets the
promise:

- The width check of `validate_schema` compares with all bits of a field, presence bit and elements together. A range fits
  exactly when the needed bits are at most an element's (`LeafLimits.WidthCheckByShape`, which also says exactly which fields
  fool the check). The check is exact for plain fields and arrays of one element (`LeafLimits.SingleCheckIsExact`); a longer
  array and an optional that pass and lose a value are `LeafLimits.ArrayCheckIsTooWeak` and `LeafLimits.OptionalCheckIsTooWeak`.
- A raw field without a minimum loses negative numbers when it is narrower than its type (`LeafLimits.RawNegativeIsLost`);
  `LeafLimits.UnscaledRoundTripExactly` gives the exact condition for raw and unscaled numbers in both languages.
- The Rust decoder does not sign-extend: on fewer than 32 bits a signed number without a minimum survives exactly when it is
  not negative and fits the width, and on 32 bits exactly when its scaled value is a 32-bit signed number
  (`LeafLimits.SignedRoundTripExactly`, `LeafLimits.RustLosesSign`).
- The Rust decoder of a plain unsigned field with a scale and a minimum adds the two before dividing. From the minimum up no
  number survives there, and everywhere else a number survives exactly when its distance fits the width
  (`LeafLimits.FromMinimumRoundTripExactly`, `LeafLimits.RustScalarAddsFirst`).
- An accepted typed READ whose wire size exceeds the device's limit, and an accepted query whose output does, are not answered
  at all, not even with a NACK. `DeviceReplies.ReplyOnce` gives the exact condition for silence, and
  `DeviceReplies.OversizedIsSilent` an instance of each.
- `FrameParser::reset` is documented to return to the initial state, but keeps the last source address
  (`HostParser.FrameParser.Reset`).

## Model

| member | source | states |
|---|---|---|
| Checksum.Crc8 | framing/src/lib.rs:85-99 | the two nested loops compute the bit-serial CRC-8/MAXIM register over the bits of the data, LSB first |
| Checksum.KnownChecksums | framing/src/lib.rs:371-380 | the checksums named there: 0 for no bytes and for 0x00, 0x5E for 0x01 |
| Checksum.StepOnVectors | core/templates/protocol_runtime.c.j2:16-34 | one turn of the inner loop on 8-bit registers is one step of the bit-serial register |
| Checksum.ShiftIsLinear | framing/src/lib.rs:85-99 | the CRC register is linear over exclusive or, in its start value and its input |
| Checksum.ShiftKeepsParity | framing/src/lib.rs:85-99 | the parity of the register is the parity of its start value and of all input bits |
| Checksum.ZerosAreInvertible | framing/src/lib.rs:85-99 | feeding zeros reaches the zero register only from the zero register |
| Checksum.ReturnsModulo127 | framing/src/lib.rs:85-99 | n zero inputs bring the register 0x01 back to itself exactly when 127 divides n |
| Checksum.BurstLeavesResidue | framing/src/lib.rs:85-99 | a nonzero window of at most 8 bits, anywhere among zeros, leaves a nonzero residue |
| Checksum.UndetectedIffResidueZero | framing/src/lib.rs:329-336 | a corrupted code word still passes the CRC comparison exactly when the error pattern has residue zero |
| Checksum.OddErrorsAreDetected | framing/src/lib.rs:329-336 | no odd number of bit flips in payload and CRC passes the comparison |
| Checksum.BurstErrorsAreDetected | framing/src/lib.rs:329-336 | no nonzero burst within 8 consecutive bits, across bytes or not, passes the comparison |
| Checksum.TwoBitErrorsPassExactly | framing/src/lib.rs:329-336 | two flipped bits pass the comparison exactly when 127 divides their distance, so in a payload of up to 14 bytes never |
| Framing.BuildReadFrame | framing/src/lib.rs:106-141 | the builders produce the READ encoding, with and without a source byte |
| Framing.BuildWriteFrame | framing/src/lib.rs:113-158 | the builders produce the WRITE encoding for any payload; the 16-bit cut of the length is the same for both length bytes |
| Framing.FrameBytes | framing/src/lib.rs:3-12 | the frames of both directions byte by byte: SYNC 0x55, source if there is one, type, command, and for types with data the length low byte first, the data and its CRC |
| Framing.GoodIsEncoding | framing/src/lib.rs:239-349 | whatever is accepted at the head of a stream is byte for byte the encoding of a valid frame |
| Framing.EncodingIsGood | framing/src/lib.rs:239-349 | a valid frame at the head of a stream is taken for itself, whatever follows |
| Framing.PrefixIsIncomplete | framing/src/lib.rs:239-349 | no proper part of a valid frame is taken for anything |
| Framing.ScanIsSound | framing/src/lib.rs:239-361 | every frame of the division of a stream is the exact encoding of its own segment |
| Framing.ScanIsOrdered | framing/src/lib.rs:239-361 | the segments are disjoint and in stream order |
| Framing.ScanIsShort | framing/src/lib.rs:239-361 | a stream of n bytes has at most n / 3 units |
| Framing.ScanIsComplete | framing/src/lib.rs:239-361 | valid frames, each after SYNC-free garbage, are divided into exactly those frames, in both directions and both addressing modes |
| HostParser.FrameParser.constructor | framing/src/lib.rs:199-218 | a new parser is in its initial state |
| HostParser.FrameParser.Reset | framing/src/lib.rs:226-234 | reset clears everything but the addressing mode and the last source |
| HostParser.FrameParser.Feed | framing/src/lib.rs:239-349 | one byte through the eight-state machine is one step of the specification, and keeps the counters and buffer consistent |
| HostParser.FrameParser.FeedBytes | framing/src/lib.rs:351-360 | a slice is the run of its bytes, with the frames in order |
| HostParser.Step | framing/src/lib.rs:239-349 | every byte keeps the parser's invariant: buffer length equals received, which stays below a length of at most 4096 in the payload state |
| HostParser.RunConcat | framing/src/lib.rs:351-360 | the frames do not depend on how the stream is cut into chunks |
| HostParser.ParserFollowsScan | framing/src/lib.rs:239-361 | on every byte stream the emitted frames are those of the declarative division |
| HostParser.FramesComeFromTheStream | framing/src/lib.rs:239-361 | each emitted frame encodes a segment of the stream; segments are disjoint, in order, and at most a third of the bytes in number |
| HostParser.FramesAreParsed | framing/src/lib.rs:239-361 | valid frames with SYNC-free garbage around them come out as exactly that list |
| HostParser.FrameRun | framing/src/lib.rs:239-349 | one valid frame from Sync is emitted, with its source, and leaves the parser in Sync |
| HostParser.HostReads | framing/src/lib.rs:239-349 | given literally these bytes, the host emits exactly that NACK, ACK, DATA or NOTIFICATION; a byte other than 0x55, a type over 3 and a length over 4096 leave it in Sync with nothing emitted |
| HostParser.BytesToSyncDecreases | framing/src/lib.rs:239-349 | outside Sync a measure strictly decreases with every byte |
| HostParser.BytesToSyncBound | framing/src/lib.rs:239-349 | the measure is at most 4101, or 4102 with addressing, in every state |
| HostParser.Resynchronises | framing/src/lib.rs:239-349 | that many bytes without SYNC always end in Sync |
| HostParser.RecoversTheNextFrame | framing/src/lib.rs:239-349 | after them the next valid frame is parsed, whatever came before |
| HostParser.DamagedFrameIsDropped | framing/src/lib.rs:329-336 | a frame with a failing CRC emits nothing and ends in Sync |
| HostParser.ErrorsAreDetected | framing/src/lib.rs:239-349 | an odd number of flips, a burst within 8 bits, or two flips at a distance that 127 does not divide (any two, with up to 14 payload bytes), in the payload and CRC of a DATA or NOTIFICATION frame: nothing is emitted for it, and the next frame still parses |
| DeviceRuntime.Step | core/templates/protocol_runtime.c.j2:315-414 | every byte keeps the device parser's invariant: the index stays below the length in the payload state |
| DeviceRuntime.Runtime.constructor | core/templates/protocol_runtime.c.j2:303-313 | initialisation gives a zeroed parser in Sync |
| DeviceRuntime.Runtime.SendFrame | core/templates/protocol_runtime.c.j2:43-90 | the separate writes of header, payload and CRC are one encoded frame; a payload over the limit sends nothing |
| DeviceRuntime.Runtime.DispatchRead | core/templates/protocol_runtime.c.j2:158-198 | what a READ sends: exactly wire-size bytes for a typed one, the callback's bytes within the limit for a raw one, NACK otherwise |
| DeviceRuntime.Runtime.DispatchWrite | core/templates/protocol_runtime.c.j2:200-301 | what a WRITE sends, for all payload kinds, commands and queries, and which handler it reaches: the decoded one only with a payload of its exact size |
| DeviceRuntime.Runtime.FeedByte | core/templates/protocol_runtime.c.j2:315-414 | one byte through the seven-state machine is one step, and sends the reply to the request it completes, if any |
| DeviceRuntime.Runtime.Tick | core/templates/protocol_runtime.c.j2:416-433 | a frame open for longer than the timeout, on a wrapping 32-bit clock, is abandoned, and nothing else changes |
| DeviceReplies.DeviceFollowsScan | core/templates/protocol_runtime.c.j2:315-414 | from Sync, the completed requests of any stream are the units of its division, one for one: the device's parser inverts the host's builders |
| DeviceReplies.DeviceReads | core/templates/protocol_runtime.c.j2:315-414 | given literally these bytes, the device makes exactly that READ, WRITE or damaged WRITE of them, and is back in Sync |
| DeviceReplies.ReplyOnce | core/templates/protocol_runtime.c.j2:102-301 | the reply is NACK exactly when the command is unknown, the frame damaged, the payload of the wrong form, the callback refuses or a raw READ is over the limit; ACK exactly when a command accepts; DATA, with the callback's payload, exactly when a READ or query does; there is none exactly when an accepted typed READ has a wire size over the limit or an accepted query an output over it |
| DeviceReplies.AnswerIsUnique | core/templates/protocol_runtime.c.j2:102-301 | that determines the frame: no two frames answer one request and callback result |
| DeviceReplies.ReplyBytes | core/templates/protocol_runtime.c.j2:43-90 | the bytes of an ACK, a NACK and a DATA reply, one by one |
| DeviceReplies.HandlerIsChosen | core/templates/protocol_runtime.c.j2:200-301 | the decoded callback is reached exactly by a struct of its wire size, a bool of at least one byte or an empty payload where none is asked; the raw one exactly by a struct of another size or a raw message |
| DeviceReplies.OversizedIsSilent | core/templates/protocol_runtime.c.j2:140-198 | a typed READ and a query that are accepted and get no reply |
| DeviceReplies.OneReplyPerRequest | core/templates/protocol_runtime.c.j2:315-414 | with typed responses and outputs within the limit, the sent frames are the answers to the requests and to what the callbacks returned for them, one for one and in order, from any state |
| DeviceReplies.DeviceRepliesOnce | core/templates/protocol_runtime.c.j2:315-414 | for any stream: one reply per complete frame, the answer to that frame, one NACK per WRITE with a bad CRC, in stream order |
| MessageQueue.PriorityQueue.PushMessage | runtime/src/queue.rs:72-89 | a push replaces the first message of that key on its level in place, or appends |
| MessageQueue.PriorityQueue.PopMessage | runtime/src/queue.rs:93-99 | a pop takes the head of HIGH, else of LOW |
| MessageQueue.PushConserves | runtime/src/queue.rs:72-89 | a push adds its message, takes out what it replaces, and nothing else |
| MessageQueue.PushKeepsPlaces | runtime/src/queue.rs:72-89 | the replaced message had the same key and level and gives up its place in line; the other level is untouched |
| MessageQueue.PushKeepsUniqueKeys | runtime/src/queue.rs:72-89 | each coalesce key stays unique on its level |
| Storage.RingBuffer.Push | runtime/src/storage.rs:50-57 | overwriting at head appends to the abstract log of all pushes |
| Storage.RingBuffer.Latest | runtime/src/storage.rs:60-70 | the latest entry is the last push |
| Storage.RingBuffer.ReadAll | runtime/src/storage.rs:74-90 | the last min(capacity, n) pushes, oldest first |
| Storage.RingBuffer.ReadSince | runtime/src/storage.rs:98-119 | the backward walk with wrap-around returns the pushes after the given sequence number that are still held, and the current number |
| Storage.RingBuffer.Clear | runtime/src/storage.rs:142-149 | clearing empties the log and restarts the sequence numbers |
| Storage.DataStore.Register | runtime/src/storage.rs:169-171 | registering gives the command a new empty ring and leaves the others |
| Storage.DataStore.StorePayload | runtime/src/storage.rs:179-183 | a payload goes to its command's ring, or nowhere if there is none |
| Storage.DataStore.ClearAll | runtime/src/storage.rs:217-221 | clearing empties every ring and keeps the registrations |
| Storage.SinceIsSuffix | runtime/src/storage.rs:74-119 | `read_since(s)` is the log from max(s, seq - len) on, and `read_since(0)` equals `read_all` |
| Storage.ReaderLosesNothing | runtime/src/storage.rs:92-119 | a reader that feeds back the sequence number and sees at most `capacity` pushes between reads collects the whole log, once |
| Storage.ReaderLosesOverflow | runtime/src/storage.rs:92-119 | a read returns all pushes since the last one exactly when they are at most `capacity`; otherwise the oldest are missing |
| ClientObject.Client.WriteRequest | runtime/src/client.rs:173-195 | a write is queued last on HIGH, as the bytes of a WRITE of that command and data, without a key, expecting ACK |
| ClientObject.Client.QueryRequest | runtime/src/client.rs:182-195 | a query is queued like a write, expecting DATA |
| ClientObject.Client.ReadRequest | runtime/src/client.rs:156-165 | a read is queued at its priority and key, expecting DATA |
| ClientObject.Client.HandleFrame | runtime/src/client.rs:264-337 | matching by command and kind: the new state and the event for each frame, late DATA included |
| ClientObject.Client.CheckResponseTimeout | runtime/src/client.rs:238-246 | the pending request is given up, with one event for its frame, exactly when its timeout has passed since it was sent; otherwise nothing happens |
| ClientObject.Client.EnqueuePeriodicAt | runtime/src/client.rs:465-484 | the loop advances every entry and pushes the due reads in order |
| ClientObject.Client.TryFlush | runtime/src/client.rs:340-364 | with nothing pending, one message is popped, written and becomes pending, or is lost to a write error |
| ClientObject.Client.Poll | runtime/src/client.rs:205-255 | one poll is: the frames of the bytes read, a read error if any, timeout check, schedule, flush, each at its own reading of the clock |
| ClientObject.Client.RegisterPeriodic | runtime/src/client.rs:401-445 | a registration replaces an earlier one of the same command and gives it a new ring |
| ClientObject.Client.UnregisterPeriodic | runtime/src/client.rs:451-453 | entries of the command go, the others and all storage stay |
| HostClient.ReadStep | runtime/src/client.rs:214-236 | the read loop goes on exactly after a full buffer |
| HostClient.ReadEnds | runtime/src/client.rs:214-236 | without a chunk of data it ends, with an error exactly if the read failed |
| HostClient.FrameIsExact | runtime/src/client.rs:264-337 | a frame clears the pending request exactly if it answers it, stores exactly a DATA payload of a command with storage, and is reported as itself, or as the trouble with the expected and the received command when it does not answer the pending request |
| HostClient.TimeoutIsExact | runtime/src/client.rs:238-246 | a check clears the pending request exactly when now is at least its timeout after it was sent, reports exactly its frame, and changes nothing else |
| HostClient.SendingIsExact | runtime/src/client.rs:340-364 | exactly when nothing is pending, the head of HIGH, else of LOW, is taken; once written it is pending from now on, for its own timeout or else the client's |
| HostClient.RegistrationIsExact | runtime/src/client.rs:424-453 | a registration leaves one unscheduled entry for its command, with its interval and timeout, and a new ring of its capacity; a removal takes exactly the command's entries |
| ClientRuns.MessagesAreConserved | runtime/src/client.rs:205-364 | in every run each message is exactly one of replaced, cleared, queued, lost or sent, counting copies; each sent one is answered by a fitting reply, timed out, or the one pending; no key is queued twice on a level |
| ClientRuns.GivenUpAfterItsTimeout | runtime/src/client.rs:238-246 | in every run a request is given up no earlier than its timeout after it was sent: its own if it has one, the client's otherwise |
| ClientRuns.WritesAreSentFrames | runtime/src/client.rs:340-364 | the bytes written are the frames of the sent messages, in order |
| ClientRuns.OnlyFittingRepliesSettle | runtime/src/client.rs:264-337 | a frame clears the pending request exactly when its command and kind fit |
| ClientRuns.OneFrameAtATime | runtime/src/client.rs:340-364 | in every run, when a frame is written every frame before it has been answered or given up |
| ClientRuns.OneQueuedReadPerCommand | runtime/src/client.rs:424-484 | periodic polling never queues two reads of a command |
| HostClient.PeriodicKeyIsUnique | runtime/src/client.rs:434-434 | the keys of periodic reads of two commands are equal exactly when the commands are |
| HostClient.PeriodicKeyIsDecimal | runtime/src/client.rs:434-434 | the key is "periodic_" and the command in decimal |
| ClientRuns.PeriodicReadsReplaceTheirOwn | runtime/src/client.rs:465-484 | in every run, what a periodic read replaces in the queue is a periodic read of the same command, or a message that a caller queued under that command's key |
| ClientRuns.StoreAgreesWithEvents | runtime/src/client.rs:304-333 | in every run the ring of a command has the capacity of its latest registration, holds the last min(capacity, n) payloads of the n DATA events since that or a clear, and seq is n |
| ClientTiming.PollSteps | runtime/src/client.rs:205-255 | up to sending, a poll leaves HIGH alone, and a request survives it only within its timeout |
| ClientTiming.PollIsOp | runtime/src/client.rs:205-255 | the polls of the timing theorems are the polls of the client object, with the frames that the bytes read make of the parser's state |
| ClientTiming.HighMessagesAreSentInTime | runtime/src/client.rs:238-364 | with polls at most G apart and timeouts at most T, a HIGH message behind k others, or its in-place replacement, is taken to be sent within (k + 1) * (T + G), after exactly k others, whatever frames come in |
| ClientTiming.WaitingKeepsPlace | runtime/src/queue.rs:72-99 | until then it, or its in-place replacement, moves up exactly one place per message taken |
| ClientTiming.AdvanceStaysOnGrid | runtime/src/client.rs:465-484 | after every look the next read is due in (now, now + I] |
| PeriodicRuns.WindowHoldsInRuns | runtime/src/client.rs:460-484 | in every run after a registration, any window of length W holds at most ceil(W / I) + 1 of the reads queued for the command, stalls included |
| PeriodicRuns.RateHoldsInRuns | runtime/src/client.rs:460-484 | in every run with gaps of at most I, exactly floor((now - t0) / I) + 1 reads of the command have been queued: lateness does not drift the rate |
| ClientTiming.EntryFollowsSchedule | runtime/src/client.rs:424-484 | within one registration an entry evolves only by the instants of the polls |
| PeriodicRuns.OneReadWhenDue | runtime/src/client.rs:465-484 | a look at the schedule queues one read of a command when its entry is due, and none otherwise |
| PeriodicRuns.ActKeepsOneEntry | runtime/src/client.rs:424-453 | every action keeps at most one entry per command |
| PeriodicRuns.QueuedReadsAreDue | runtime/src/client.rs:424-484 | within one registration the reads a run queues for a command are the due instants of its entry, one for one |
| PeriodicRuns.RegisteredReads | runtime/src/client.rs:424-484 | in every run after a registration the reads queued for the command are LOW READ frames under its key, expect DATA, and wait as long as the registration says |
| Link.ReplyCompletes | core/templates/protocol_runtime.c.j2:158-301 | the device's reply to a request made with the matching call completes that request at the host |
| Link.LimitsAreExact | framing/src/lib.rs:17-18 | the link's assumption on a device: its payload limit is at most the host's 4096, and its typed responses are within it |
| Link.ReadArrives | runtime/src/client.rs:156-165 | the bytes that a read enqueues are completed by a device in Sync as exactly that READ, leave it in Sync, and suit the link |
| Link.WriteArrives | runtime/src/client.rs:173-195 | the bytes that a write or query enqueues are completed as exactly one WRITE of that command and data, leave the device in Sync, and suit the link |
| Link.StepKeeps | runtime/src/client.rs:205-364 | every step of host, device and channels keeps the invariant of the link |
| Link.LinkIsSafe | runtime/src/client.rs:205-364 | in every run without timeouts and transport errors no reply is reported as mismatched or unexpected; each request but a pending last one is completed by exactly one event, in send order, which says what the device's callback answered: Ack exactly if a command accepted, Data with its output exactly if a READ or query did, Nack exactly if it was refused; when nothing is pending no byte of a request or reply is left in a channel or parser |
| Link.WriteIsReported | runtime/src/client.rs:173-364 | what is reported for a write or query is the answer to exactly that command and data |
| Link.ReadIsReported | runtime/src/client.rs:156-364 | what is reported for a read is the answer to exactly that command |
| Link.SuitsOnce | framing/src/lib.rs:239-349 | a frame carries one request at most |
| Link.DeviceTakesBytes | core/templates/protocol_runtime.c.j2:315-414 | the device can always take the next byte of a request under way |
| Link.PollCompletes | runtime/src/client.rs:205-255 | once the device has a request in full, a poll that reads everything completes it |
| Link.DeviceTakesAll | core/templates/protocol_runtime.c.j2:315-414 | from every reachable state, as many device steps as bytes are under way can be taken, whatever is answered within the limit; then nothing is under way and the host's side is as it was |
| Link.RequestCompletes | runtime/src/client.rs:205-255 | every pending request can be completed: after those steps, one poll before its timeout that reads everything reports one more reply, for this request and saying what the callback answered to it |
| TopoSort.Sorter.Visit | core/generate.py:152-163 | the recursive visit terminates and either extends the order with all it reaches, or returns a walk that closes a cycle |
| TopoSort.Sort | core/generate.py:137-167 | the result is a permutation of all names with every referenced type before its users, or a real cycle; a cycle is reported exactly when there is one; without references the definition order is kept |
| TopoSort.OrderedIsAcyclic | core/generate.py:137-167 | a complete order excludes cycles |
| BitStrings.CeilLog2 | core/generate.py:85-90 | the exact ceiling of the binary logarithm: the least width whose numbers reach n - 1 |
| Schema.EnumBitsAreLeast | core/generate.py:85-90 | enum and tag widths hold every index, and no smaller width of at least one bit does |
| Schema.DerivedWidthIsLeast | core/generate.py:114-125 | the width derived from a range holds every scaled step of [min, max], and no smaller width does |
| Schema.NumberWidth | core/generate.py:107-134 | a number field has its explicit bits; else, with both bounds, the least width from 1 up that holds every scaled step of its range; else the width of its type |
| Schema.IndexWidth | core/generate.py:97-103 | a bool has one bit, and an enum the least width from 1 up that holds its indices |
| Schema.UnionWidth | core/generate.py:188-232 | a union has a tag of the least width and the payload of its widest variant |
| Schema.WireSizeIsLeast | core/generate.py:293-407 | the wire size is the least number of bytes that hold all bits |
| Schema.VariantFits | core/generate.py:188-232 | every variant's payload fits after the tag |
| Schema.NextOffset | core/generate.py:356-361 | each bit offset is the previous one plus the previous field's flag and elements |
| Schema.LayoutTiles | core/generate.py:310-361 | presence bits and elements tile [0, total_bits): every bit belongs to exactly one piece, none beyond to any |
| LayoutPass.ProcessTypes | core/generate.py:293-407 | the loop over the dependency order gives every type the total bits, wire size and field offsets of the type tree its references unfold to, and marks the embedded ones; it stops with a real cycle exactly when there is one |
| LayoutPass.ResolveIsExact | core/generate.py:293-407 | the type tree of a name: a union of its variants, none raw, or its members in order, with their shapes, each a leaf or the tree of the name it mentions |
| LayoutPass.SizeUnion | core/generate.py:182-232 | the union loop gives tag bits plus the largest payload |
| LayoutPass.SizeStruct | core/generate.py:310-407 | the field loop gives offsets and total from the stored sizes of the children |
| LayoutPass.AcceptedTypesRoundTrip | core/generate.py:293-407 | in every acyclic schema of well-formed leaves, each type's values in range are decoded from their encoding |
| RemapTables.DenseTable | core/templates/protocol.h.j2:54-66 | the dense table maps every value up to the largest to its index, 0 where undeclared |
| RemapTables.SortByValue | core/generate.py:289-291 | the sorted table is a sorted permutation of the variants |
| RemapTables.ValueToWire | core/templates/protocol.h.j2:75-96 | the binary search terminates and finds the entry of a value, or returns 0 |
| RemapTables.SearchValue | core/templates/protocol.h.j2:67-96 | on the emitted table the search gives the wire index of every byte |
| RemapTables.LookUpBothWays | core/templates/protocol.h.j2:54-96 | dense and sorted lookups agree on every value up to the largest |
| RemapTables.RemapIsInverse | core/templates/protocol.h.j2:46-96 | value to wire and WIRE_TO_VALUE are inverse both ways |
| RemapTables.IndexFitsByte | core/generate.py:277-288 | distinct byte values are at most 256, so an index fits the table's byte |
| RemapTables.IndexFitsWidth | core/generate.py:85-90 | every index fits the computed width |
| Packing.PackBits | core/templates/protocol.c.j2:15-27 | the loop ors exactly the low bits of the value in at the offset and changes nothing else |
| Packing.UnpackBits | core/templates/protocol.c.j2:29-43 | the loop returns the number of exactly the bits at the offset |
| Packing.PlacedReadsBack | core/templates/protocol.c.j2:15-43 | into clear bits, what was packed is what is read |
| Packing.PlacedElsewhere | core/templates/protocol.c.j2:15-43 | packing one range leaves every disjoint range as it was |
| LeafCodec.SignedWire | core/templates/protocol.c.j2:45-59 | `sign_extend` of the low bits of a signed number of that width is the number |
| LeafCodec.SignExtendIsExact | core/templates/protocol.c.j2:45-59 | `sign_extend` of any word of that width: itself, or less the weight above it when its top bit is set |
| LeafCodec.MachineArithmetic | core/templates/protocol.c.j2:61-79 | the casts keep a number modulo the size of the type and stay in it, and division rounds toward zero |
| LeafCodec.TypeRanges | core/generate.py:126-134 | the six integer types hold exactly their two's complement ranges; Rust holds every number as i32 or u32 |
| LeafCodec.LeafRoundTrip | core/templates/protocol.c.j2:61-79 | bools, enums, remap enums and raw, offset, sign-extended and scaled integers in range survive the wire, in C and Rust, with casts and truncating division |
| LeafLimits.DeclaredRangeFits | core/generate.py:114-125 | every value of a declared range is in the range of the round trip |
| LeafLimits.RawRangeFits | core/templates/protocol.c.j2:65-75 | so is every scaled value of a raw field's declared range that its type holds |
| LeafLimits.RangeFitsExactly | core/generate.py:686-697 | an explicit width carries the declared range exactly when it is at least the derived one |
| LeafLimits.WidthCheckByShape | core/generate.py:686-697 | for every shape: which ranges fit, that they pass the check, and exactly which fields fool it |
| LeafLimits.SingleCheckIsExact | core/generate.py:686-697 | for plain fields and arrays of one element the check accepts exactly the sufficient widths |
| LeafLimits.ArrayCheckIsTooWeak | core/generate.py:686-697 | an array that passes with elements too narrow, and a value that is lost |
| LeafLimits.OptionalCheckIsTooWeak | core/generate.py:686-697 | an optional that passes with a value too narrow, and a value that is lost |
| LeafLimits.UnscaledRoundTripExactly | core/templates/protocol.c.j2:66-77 | a raw or unscaled number, unless C sign-extends it, survives if and only if its distance from the minimum, modulo the width of its storage, fits the field, in C and Rust |
| LeafLimits.SignedRoundTripExactly | core/templates/protocol.rs.j2:542-546 | a signed number without a minimum survives if and only if the width holds it, with its sign in C and on 32 bits, without on fewer bits in Rust |
| LeafLimits.FromMinimumRoundTripExactly | core/templates/protocol.rs.j2:542-553 | from the minimum up, an unsigned number, or a scaled signed one on at most 31 bits, survives if and only if its scaled distance fits the field, in C and Rust, and never in a plain Rust field that adds first |
| LeafLimits.WholeTypeFitsExactly | core/generate.py:126-134 | without scale or minimum, on at least the bits of its type, C carries every value of the type, and Rust all but the negative ones on fewer than 32 bits |
| LeafLimits.RustStaysInRange | core/templates/protocol.rs.j2:25-26 | up to 31 bits, Rust's plain subtraction and addition of the minimum never overflow |
| LeafLimits.RawNegativeIsLost | core/templates/protocol.c.j2:66-75 | a negative raw number without a minimum that does not survive |
| LeafLimits.RustScalarAddsFirst | core/templates/protocol.rs.j2:549-550 | a value that the Rust field decoder misreads and the Rust element decoder does not |
| LeafLimits.RustLosesSign | core/templates/protocol.rs.j2:542-546 | a negative value that Rust misreads and C does not |
| GeneratedCodec.PackLeaf | core/templates/protocol.c.j2:62-70 | the leaf macro places exactly the specified bits |
| GeneratedCodec.LeafFromC | core/templates/protocol.c.j2:71-79 | the C expressions make the specified value |
| GeneratedCodec.LeafFromRust | core/templates/protocol.rs.j2:52-62 | so do the Rust expressions, for elements and for plain fields |
| GeneratedCodec.Pack | core/templates/protocol.c.j2:293-348 | packing a type at any base ors in exactly its bits and changes no other |
| GeneratedCodec.PackUnion | core/templates/protocol.c.j2:106-119 | tag and payload of the variant, the rest of the payload region untouched |
| GeneratedCodec.PackStruct | core/templates/protocol.c.j2:295-348 | the fields at their offsets are the fields' bits one after the other |
| GeneratedCodec.PackField | core/templates/protocol.c.j2:298-310 | array elements one element width apart, or a presence bit and the value behind it |
| GeneratedCodec.Unpack | core/templates/protocol.c.j2:486-540 | unpacking a type at any base reads exactly the value of its window |
| GeneratedCodec.UnpackUnion | core/templates/protocol.c.j2:121-134 | the tag selects the payload; an unknown tag leaves it cleared in C and gives the default in Rust |
| GeneratedCodec.UnpackStruct | core/templates/protocol.c.j2:488-540 | all fields, each from its offset |
| Codec.RoundTrip | core/templates/protocol.c.j2:295-540 | every value in range of every packed type, through nested structs, arrays, optionals and unions, is read back from its bits, in C and Rust |
| Codec.NestingIsInlining | core/templates/protocol.c.j2:309-310 | a plain nested struct is written like the struct with the child's fields in its place, at the same size |
| Codec.NestingReadsInline | core/templates/protocol.c.j2:502-503 | and read like it, from any bits |
| MessageCodec.EncodeWithHelper | core/templates/protocol.c.j2:350-354 | clearing and packing at 0 gives the wire image and touches no byte beyond the wire size |
| MessageCodec.EncodeFlat | core/templates/protocol.c.j2:200-255 | the in-place encoder of a struct without nested types gives the same image |
| MessageCodec.EncodeBothForms | core/templates/protocol.c.j2:200-354 | the flat encoder and the pack helper produce the same bytes, so embedding a struct elsewhere changes nothing |
| MessageCodec.DecodeMessage | core/templates/protocol.c.j2:542-546 | decoding reads the specified value from the first wire-size bytes |
| MessageCodec.ImageIsUnique | core/templates/protocol.c.j2:350-354 | a value has one wire image |
| MessageCodec.ImageReadsBack | core/templates/protocol.c.j2:350-546 | decode of encode is the identity on values in range |
| MessageCodec.PackedReadsBack | core/templates/protocol.c.j2:295-540 | packing at any base into clear bits and unpacking there is the identity, and bits outside [base, base + total_bits) stay |
| CrossLanguage.SameBits | core/templates/protocol.rs.j2:19-28 | every packed value has the same bits in C and in Rust |
| CrossLanguage.SameImage | core/templates/protocol.rs.j2:388-499 | and the same wire image |
| WireImage.BytesAreTheirBits | core/templates/protocol.c.j2:15-43 | a byte is the number of its eight bits, least significant first |
| WireImage.LeafIsWrittenAs | core/templates/protocol.c.j2:61-70 | the number on the wire: 1 or 0 for a bool, the index for an enum, and for a number its scaled distance from the minimum, modulo its width |
| WireImage.UnknownIndexIsReadAs | core/templates/protocol.rs.j2:52-62 | an index that no variant has is the default in Rust and the bare number in C |
| WireImage.PieceIsAt | core/templates/protocol.c.j2:295-348 | every presence bit and element of a struct stands at its layout offset and holds its value; the pieces are all there is |
| WireImage.AbsentIsReadAs | core/templates/protocol.c.j2:502-540 | an optional is absent exactly when its presence bit is clear, whatever follows |
| WireImage.UnionIsWrittenAs | core/templates/protocol.c.j2:106-119 | a union is its variant's index, the payload, and zeros up to the widest variant |
| WireImage.UnknownTagIsReadAs | core/templates/protocol.c.j2:121-134 | an unknown tag is kept with a cleared payload in C, and is the first variant's default in Rust |
| TypedDispatch.ValidateMessages | core/generate.py:709-777 | no error is reported exactly when the schema is accepted, and then no two messages with a response share a command id |
| TypedDispatch.RejectedExactly | core/generate.py:709-777 | a schema is rejected exactly for a message by itself, or for two messages of one registry with one id |
| TypedDispatch.FieldsAreRejectedExactly | core/generate.py:714-742 | a message is rejected by itself for exactly five reasons: neither id nor response, a period without an id or not positive, an unknown request or response |
| TypedDispatch.RegistriesAreExact | core/generate.py:749-777 | which messages share the READ, WRITE and DATA ids, in their own fields |
| TypedDispatch.FirstArm | core/templates/protocol.rs.j2:692-703 | the match takes the first message of the id |
| TypedDispatch.DispatchFindsMessage | core/templates/protocol.rs.j2:692-703 | in an accepted schema every DATA payload is decoded as its own message, with the value encoded |
| TypedDispatch.DeviceDataReachesItsMessage | core/templates/protocol.rs.j2:692-703 | what the C device encodes for a message is returned by the Rust facade as that message and value |
| TypedDispatch.TypedDataOverTheWire | core/templates/protocol_runtime.c.j2:158-178 | the same through frame encoding and the host's parser |
| TypedDispatch.AcceptedSchemaDispatches | core/generate.py:293-407 | for a schema that the layout pass and the validation accept: a message's value, encoded in C in the size the pass computed, arrives through the host's parser and is decoded as that message and value |
| TypedDispatch.UnknownExactly | core/templates/protocol.rs.j2:692-703 | a payload comes back undecoded, and intact, exactly when no message has the id or it is shorter than that message's wire size |
| TypedDispatch.LaterDuplicateIsShadowed | core/generate.py:766-777 | without unique DATA ids a later message is never returned |
| DeclaredRanges.DeclaredLeafFits | core/generate.py:100-134 | where the bits of an element hold its declared range, or its type when there is none, every declared value is in the range of the round trip |
| DeclaredRanges.DeclaredFits | core/generate.py:310-361 | so is every value of a packed type whose leaves are all in their declared ranges, through structs, arrays, optionals and unions |
| DeclaredRanges.DeclaredValuesRoundTrip | core/generate.py:293-407 | in an acyclic schema whose element widths hold their declared ranges, every declared value of every type is decoded from its encoding |
| DeclaredRanges.DeclaredValuesDispatch | core/templates/protocol.rs.j2:692-703 | and every declared value of a DATA-producing message, encoded in C in the size the pass computed, arrives through the host's parser and is decoded as that message and value |

## Left out

- Aligned encoding, `float` fields, fractional scales, 64-bit fields, packed strings, and the TypeScript target: none of them is part of the packed 32-bit codec that the theorems are about.
- Serial and PTY transports, the NDJSON bridge, the WASM bindings, logging, the command line, YAML loading, template rendering and name casing. A transport is the results of its reads and writes.
- Failing `sendBytes` on the device, and null pointers: sends are taken to work.
- DeviceRuntime.Runtime.DispatchWrite: what a callback does with the request it is given is not modelled, only what it answers; the decoding of a typed request is that of `GeneratedCodec.Unpack`.
- Link.LinkIsSafe: no response timeout and no device timeout fires, no read or write of the host fails, requests are made with the call that matches the device's message kind, callback outputs and payloads are within the limits, and the channels lose nothing. Outside these assumptions the host may report mismatches, and a late DATA may complete a later read of the same command; the code does not promise otherwise.
- ClientTiming.HighMessagesAreSentInTime: the queue is not cleared. LOW messages have no bound, since HIGH can starve them.
- ClientRuns.StoreAgreesWithEvents: callers that push payloads into the store themselves are not modelled.
- Storage.RingBuffer.Push: the sequence number is unbounded, where the source has 64 bits. The constructor requires a positive capacity, since the source panics on zero.
- HostParser.FramesComeFromTheStream: a NOTIFICATION does not report its command byte, so the segment is the encoding with whatever command byte it carries.
- GeneratedCodec.Pack: bit offsets are unbounded, where the generated code has 32 bits. A bit field's shift and the or of a clear bit in `unpack_bits` are arithmetic on the value.
- LeafCodec.LeafRoundTrip: C's signed overflow, which the language leaves undefined, and Rust's plain `- min` and `+ min`, which stop a debug build on overflow, are taken to wrap, as Rust does in release builds. Distances of up to 31 bits never get there (`LeafLimits.RustStaysInRange`). A read past the end of WIRE_TO_VALUE is the value `Unset`.
- LeafLimits.FromMinimumRoundTripExactly: below the minimum, and on 32 bits for scaled signed numbers with a minimum, some numbers survive by accident of the wrap-around, so the equivalence is stated from the minimum up, and for signed numbers up to 31 bits.
- Schema.WellFormed: scales are at least 1, widths 1 to 32 bits, enums have at most 256 variants. Union variants are leaves, as validation requires; a union's `raw_storage` is ignored, as in the generator.
- LayoutPass.ProcessTypes: packed types only, so the error for mixed encodings does not arise; Python's recursion limit is not modelled, and the pairs of kind and name are the names, whose kind the schema gives.
- TypedDispatch.ValidateMessages: node names, priorities, malformed `command_frame` strings, periods that are not integers and requests that are not strings are not modelled.
- TypedDispatch.DispatchFindsMessage: values are those that the Rust decoder keeps (`Codec.Fits` for Rust), by the exact conditions above. Notifications are decoded by the same `decode` and have no dispatch.
