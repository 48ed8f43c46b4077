# MSP v1 parser, dispatcher and executors — a Dafny model

This project models the core of `msp_parser.cpp`. That program reads a byte stream of MultiWii Serial Protocol (MSP v1) frames from a flight controller:

    '$' 'M' ('<' | '>') LEN CMD payload[LEN] CHECKSUM

`CHECKSUM` is the xor of `LEN`, `CMD` and every payload byte.

- **Parser.** `MspMessageParser` rebuilds each frame byte by byte and hands every frame whose checksum matches to a message handler.
- **Handler.** `MspMessageHandler` copies the message record into the frame buffer of its own copy of the `FlightDataModel`. It then asks its `MspCommandDispatcher` to run every executor registered for the message's command.
- **Executors.** They update the shared flight model:
  - STATUS sets the armed flag.
  - ATTITUDE sets roll, pitch and heading.
  - FC_VARIANT sets the identifier.
  - The RC console executor sets the channels.
  - The RC alink forwarder computes the link figures to send.

The Dafny modules follow that structure:

| module | file | contents |
|---|---|---|
| `Octets`, `MspTypes` | `msp_types.dfy` | bytes, the command enumeration and `toMspCommand`, the message record, the xor fold |
| `MspParser` | `msp_parser.dfy` | the parser state machine (`Step`), its reachable-state invariant, feeding a byte sequence |
| `MspFrames` | `msp_frames.dfy` | building frames, and the round trip, rejection and recovery properties of the parser |
| `FlightData` | `flight_data.dfy` | `FlightDataModel` and `copyToFrameBuffer` |
| `Executors` | `executors.dfy` | the five executors, little-endian field decoding, the semantics of `strncmp` |
| `Dispatcher` | `dispatcher.dfy` | executor chains, registration, dispatch, the start-up wiring in `main` |
| `MessageHandler` | `message_handler.dfy` | the handler, the byte loop, separation of the two models, an end-to-end scenario |

## How the model is stated

- **Pure functions.** Every operation is a pure function on immutable records.
  - The parser is a record of state, message under construction and payload index. `Step` returns the next parser and the message it emits, if any.
  - An executor returns the updated model and, for the alink forwarder, the report it would send.
- **Two models.** The handler stores its model by value (line 468), while the dispatcher keeps a reference to the caller's model (lines 392-393, 427, 442). The model therefore keeps two records:
  - `Handler.own` receives the frame-buffer copies;
  - `Session.shared` receives the executors' updates.
- **Bytes and fields.**
  - Bytes are `bv8`, so xor and masks are native.
  - `uint16_t` and `int16_t` fields are integer ranges.
  - Little-endian decoding of 16-bit fields is written out, with two's complement for the signed ones.

## Model

| member | source | states |
|---|---|---|
| `Octets.LengthByte` | msp_parser.cpp:86 | a payload length below 256 fits the `uint8_t` size field without change |
| `Octets.LengthByteOfByte` | msp_parser.cpp:86 | converting the size byte to a length and back gives the same byte |
| `MspTypes.ToMspCommand` | msp_parser.cpp:225-233 | the command a byte maps to is UNKNOWN or the enumerator whose value is that byte |
| `MspTypes.CommandMapping` | msp_parser.cpp:225-233 | each of ids 101, 102, 105 and 108 maps to the enumerator with that value; any other id maps to UNKNOWN, in both directions |
| `MspTypes.CommandIdRoundTrip` | msp_parser.cpp:26-32 | mapping an enumerator's underlying value gives that enumerator back, UNKNOWN (255) included |
| `MspTypes.UnknownIdsShareOneSlot` | msp_parser.cpp:225-233 | two different raw ids map to the same command only if both are unknown: the raw id of an unknown command is lost |
| `MspTypes.XorAllConcat` | msp_parser.cpp:170-190 | the running xor checksum of a concatenation is the xor of the parts' checksums |
| `MspTypes.XorAllUpdate` | msp_parser.cpp:190 | changing one byte by a mask changes the running xor by that mask |
| `MspParser.Reset` | msp_parser.cpp:215-220 | the reset parser is idle and satisfies the reachable-state invariant |
| `MspParser.Step` | msp_parser.cpp:140-204 | one byte keeps the payload index in bounds; a message is emitted exactly when the state is CHECKSUM and the byte equals the running checksum; the emitted message is the one assembled; the parser is reset after the checksum byte whether or not it matched |
| `MspParser.StepValid` | msp_parser.cpp:140-204 | every step keeps the reachable-state invariant: the running checksum is the xor of LEN, CMD and the payload read so far, the bytes past the index are zero, and an emitted message is well formed |
| `MspParser.Feed` | msp_parser.cpp:652-658 | feeding a byte sequence in order keeps the parser in a state a step accepts and emits at most one message per byte |
| `MspParser.FeedAppend` | msp_parser.cpp:655-657 | feeding `a + b` is feeding `a` and then `b`, with the emitted messages concatenated |
| `MspParser.FeedValid` | msp_parser.cpp:140-204 | from a reachable state, any byte sequence leads to a reachable state and emits only well-formed messages |
| `MspParser.IdleScan` | msp_parser.cpp:142-146 | in IDLE only `$` moves to VERSION; any other byte leaves the parser as it was |
| `MspParser.MarkerMismatchResets` | msp_parser.cpp:148-164 | a byte other than `M` in VERSION, or other than `<` or `>` in DIRECTION, resets the parser |
| `MspParser.DirectionMarks` | msp_parser.cpp:156-166 | `<` gives OUTBOUND and `>` gives INBOUND, and the parser moves to SIZE |
| `MspParser.EveryLengthAccepted` | msp_parser.cpp:168-178 | every size byte moves to CMD with the size and the checksum set to it: the `> 256` test never fires on a `uint8_t` |
| `MspParser.CommandByte` | msp_parser.cpp:180-186 | the command byte is xored into the checksum and mapped to a command; size 0 goes straight to CHECKSUM, any other size to PAYLOAD |
| `MspParser.PayloadByte` | msp_parser.cpp:188-194 | a payload byte is stored at the index, the index advances, and the parser moves to CHECKSUM exactly when the index reaches the size |
| `MspParser.DoubleDollarDoesNotStart` | msp_parser.cpp:148-154 | `$ $ M` does not start a frame: the second `$` resets the parser in VERSION instead of restarting |
| `MspFrames.RoundTrip` | msp_parser.cpp:140-204 | after any noise without `$`, an encoded frame is decoded to exactly one message carrying its direction, mapped command, length and zero-padded payload, and the parser ends reset |
| `MspFrames.ReEncode` | msp_parser.cpp:140-204 | a well-formed message (every emitted message is one, by `FeedValid`) encoded again from its own fields is decoded back to the same message |
| `MspFrames.ReEncodedChecksum` | msp_parser.cpp:170-190 | recomputing a frame checksum from the command byte a message's checksum implies and its payload reproduces the stored checksum: LEN and the payload cancel |
| `MspFrames.WellFormedIsDecoded` | msp_parser.cpp:168-194 | a well-formed message (zero past its size, checksum consistent with its command) is exactly what a frame of its direction, its payload prefix and the command byte its checksum implies decodes to |
| `MspFrames.BadChecksumRejected` | msp_parser.cpp:196-202 | a frame whose checksum byte does not match emits nothing and leaves the parser reset |
| `MspFrames.CorruptionRejected` | msp_parser.cpp:181-197 | xoring one payload byte, the command byte or the checksum byte with any non-zero mask makes the frame rejected |
| `MspFrames.DirectionFlipAccepted` | msp_parser.cpp:156-170 | the direction marker is not covered by the checksum: turning `<` into `>` by one bit flip still gives an accepted, INBOUND message |
| `MspFrames.RecoversAfterBadFrame` | msp_parser.cpp:196-202 | after a rejected frame, the next frame is decoded normally |
| `MspFrames.ResyncAfterAnyPrefix` | msp_parser.cpp:140-204 | whatever bytes came before, once they leave the parser reset, the next frame is decoded after the messages they produced |
| `MspFrames.StrayDollarLosesFrame` | msp_parser.cpp:142-154 | a stray `$` right before a frame swallows the frame's own `$` as its VERSION byte, so the frame is lost |
| `MspFrames.ZeroLengthFrame` | msp_parser.cpp:184-185 | `$M<` 00 66 66 is accepted as an FC_VARIANT message of size 0 with an all-zero payload |
| `FlightData.InitialModel` | msp_parser.cpp:40-50 | a default-constructed model is disarmed, with zero attitude, channels, identifier and cursor |
| `FlightData.CopyToFrameBuffer` | msp_parser.cpp:66-72 | data lands at the cursor, or at 0 when it would overrun the buffer; the cursor advances by the data's length and stays within the buffer; every other buffer byte and every other field is unchanged |
| `FlightData.FlushExactlyWhenFull` | msp_parser.cpp:66-72 | a copy that fits advances the cursor by its length from where it was; one that does not fit flushes first, leaving the cursor at the copy's length |
| `Executors.U16LE` | msp_parser.cpp:312 | a channel read from two payload bytes has the first as its low byte (value modulo 256) and the second as its high byte (value divided by 256) |
| `Executors.U16LERoundTrip` | msp_parser.cpp:312 | a 16-bit channel value split into its low and high byte and read back is the same value |
| `Executors.U16BytesRoundTrip` | msp_parser.cpp:312 | two payload bytes read as a channel and split again give the same bytes |
| `Executors.I16LE` | msp_parser.cpp:267-269 | a signed field read from two bytes is the two's-complement value congruent, modulo 65536, to the unsigned field with those bytes |
| `Executors.I16LESign` | msp_parser.cpp:267-269 | a signed field is negative exactly when bit 7 of its high byte is set |
| `Executors.I16RoundTrip` | msp_parser.cpp:267-269 | a signed 16-bit value stored as two bytes and read back is the same value |
| `Executors.I16BytesRoundTrip` | msp_parser.cpp:267-269 | two bytes read as a signed field and stored again give the same bytes |
| `Executors.StrnEqual` | msp_parser.cpp:288-290 | the model of `strncmp(a, b, n) == 0` holds exactly when the C strings in `a` and `b`, cut at `n`, are equal |
| `Executors.StrnEqualIsCStr` | msp_parser.cpp:288-290 | `strncmp(a, b, n) == 0` holds exactly when the C strings in `a` and `b`, cut at `n`, are equal |
| `Executors.CStrFromAgree` | msp_parser.cpp:288-290 | a C string cut at `n` depends only on the first `n` bytes |
| `Executors.StatusUpdate` | msp_parser.cpp:247-258 | only the armed flag may change; a message of at most 6 bytes changes nothing; otherwise armed is set exactly when bit 0 of payload byte 6 is set |
| `Executors.AttitudeUpdate` | msp_parser.cpp:263-277 | only roll, pitch and heading may change; a message under 6 bytes changes nothing; otherwise they are the signed little-endian fields at offsets 0, 2 and 4 |
| `Executors.FcVariantUpdate` | msp_parser.cpp:282-301 | only the identifier may change; a message under 4 bytes, or one that `strncmp` finds equal, changes nothing; otherwise the identifier is payload bytes 0-3 followed by NUL |
| `Executors.FcVariantAdopts` | msp_parser.cpp:286-293 | after a FC_VARIANT message of at least 4 bytes, the identifier reads as the same C string as the payload cut at 4 |
| `Executors.FcVariantIdempotent` | msp_parser.cpp:287-298 | a second identical FC_VARIANT message changes nothing |
| `Executors.RcConsoleUpdate` | msp_parser.cpp:308-322 | only the channels may change; a message under 32 bytes changes nothing; otherwise channels 0-15 are stored as the little-endian payload pairs and channels 16 and 17 keep their values |
| `Executors.AlinkFigures` | msp_parser.cpp:356-358 | link quality is channel 8; the lost and recovered counts are five-bit values |
| `Executors.AlinkLostIsMask` | msp_parser.cpp:357 | for any channels, lost is `& 0x1F` taken on the low byte channel 10 is stored as, which is where its five low bits are |
| `Executors.AlinkRecoveredIsMask` | msp_parser.cpp:358 | for any channels, recovered is `lo >> 5` or-ed with `(hi & 0x03) << 3`, on the bytes channel 11 is stored as, which are bits 5-9 of the channel, as `(v >> 5) & 0x1F` selects |
| `Executors.ByteBits5To9` | msp_parser.cpp:358 | the bit-operation form of bits 5-9 of a little-endian field equals `lo / 32 + 8 * (hi % 4)` |
| `Executors.AlinkReportOf` | msp_parser.cpp:347-377 | the forwarder sends a report exactly when the message has at least 32 bytes, and the report holds the figures of the model's channels |
| `Executors.Execute` | msp_parser.cpp:104-108 | no executor touches the frame buffer or its cursor; only the alink forwarder reports, only for messages of at least 32 bytes, and it leaves the model unchanged |
| `Executors.ExecuteIdempotent` | msp_parser.cpp:247-322 | running any executor twice on the same message gives the same result as running it once |
| `Executors.Bits5To9OfField` | msp_parser.cpp:358 | `(v >> 5) & 0x1F` of a little-endian field is bits 5-7 of the low byte plus bits 0-1 of the high byte |
| `Executors.RcFiguresFromPayload` | msp_parser.cpp:311-358 | after an RC message of at least 32 bytes, link quality is payload bytes 16-17 read as a little-endian value, lost is payload byte 20 modulo 32, and recovered is `p[22] / 32 + 8 * (p[23] % 4)` |
| `Dispatcher.Register` | msp_parser.cpp:407-409 | the executor goes at the end of its command's chain, creating the entry if needed; every other chain is unchanged |
| `Dispatcher.RunChain` | msp_parser.cpp:417-419 | running a chain never touches the frame buffer, sends at most one report per executor, and sends none without an alink forwarder |
| `Dispatcher.RunChainAppend` | msp_parser.cpp:417-419 | running the chain `a + b` is running `a` and then `b` on the model `a` left, with the reports concatenated |
| `Dispatcher.Dispatch` | msp_parser.cpp:414-424 | a command without an entry changes nothing and sends nothing; dispatch never touches the frame buffer |
| `Dispatcher.DispatchAfterRegister` | msp_parser.cpp:407-419 | after registering `e` for `c`, a `c` message runs the old chain and then `e`; messages for other commands are dispatched as before |
| `Dispatcher.NewDispatcher` | msp_parser.cpp:392-401 | a new dispatcher has exactly one executor each for STATUS, ATTITUDE and FC_VARIANT, and none for RC or UNKNOWN |
| `Dispatcher.WireRc` | msp_parser.cpp:636-643 | start-up adds the console executor to RC and then the alink forwarder, only when `outPort > 0`; other commands are unaffected |
| `Dispatcher.UnknownIsIgnored` | msp_parser.cpp:414-424 | with the start-up wiring, an UNKNOWN message changes nothing and sends nothing |
| `Dispatcher.RcChain` | msp_parser.cpp:636-643 | at start-up the RC chain is the console executor, followed by the alink forwarder exactly when `outPort > 0` |
| `Dispatcher.RunConsole` | msp_parser.cpp:308-322 | the console executor alone stores the channels of an RC message of at least 32 bytes, leaves a shorter one without effect, and sends no report |
| `Dispatcher.RunConsoleThenForwarder` | msp_parser.cpp:308-358 | console then forwarder: the forwarder reports the figures of the channels the console just stored, and only for messages of at least 32 bytes |
| `Dispatcher.RcDispatch` | msp_parser.cpp:308-358 | with the start-up wiring, an RC message under 32 bytes changes nothing; a longer one stores the channels and, with an outbound port, reports the figures of the channels just stored |
| `Dispatcher.BaseDispatch` | msp_parser.cpp:396-398 | with the start-up wiring, STATUS, ATTITUDE and FC_VARIANT messages run their one executor and send nothing |
| `MessageHandler.MessageImage` | msp_parser.cpp:78-89 | the in-memory record of a message is 260 bytes: the direction's `uint8_t` value (0 OUTBOUND, 1 INBOUND), command value, size, checksum, then the 256-byte payload |
| `MessageHandler.MessageImageRoundTrip` | msp_parser.cpp:78-89 | the message can be read back from its record image |
| `MessageHandler.NewHandler` | msp_parser.cpp:440-444 | a new handler holds a copy of the model and a new dispatcher |
| `MessageHandler.OnMessage` | msp_parser.cpp:446-457 | the handler's copy changes only in buffer and cursor, and the cursor ends between 260 and the buffer size; the shared model is updated by dispatch and its buffer is untouched |
| `MessageHandler.OnMessageStoresImage` | msp_parser.cpp:446-457 | after a message, its 260-byte image sits just before the cursor of the handler's own buffer |
| `MessageHandler.OnMessageCursorCycle` | msp_parser.cpp:66-72 | starting from an image boundary, the own cursor runs 260, 520, 780 and then flushes back to 260 |
| `MessageHandler.HandleAll` | msp_parser.cpp:446-457 | handling messages in order keeps the dispatcher, the handler copy's flight fields, and the shared buffer and cursor unchanged |
| `MessageHandler.StartSession` | msp_parser.cpp:628-646 | start-up: reset parser, the handler holding a copy of the shared model, and the RC executors wired in |
| `MessageHandler.ProcessByte` | msp_parser.cpp:196-202 | the parser steps; when no message is emitted, nothing else changes and nothing is sent |
| `MessageHandler.Process` | msp_parser.cpp:652-658 | the read loop leaves the parser where feeding the same bytes leaves it and never changes the dispatcher; `ProcessParsesThenHandles` gives the rest |
| `MessageHandler.ProcessParsesThenHandles` | msp_parser.cpp:652-658 | processing bytes one at a time equals parsing them all and then handling the emitted messages in order |
| `MessageHandler.ProcessSeparation` | msp_parser.cpp:446-469 | over any input, the shared model's frame buffer and cursor are never touched, and the handler's copy changes only in its frame buffer and cursor |
| `MessageHandler.ArmingScenario` | msp_parser.cpp:247-258 | from start-up, the frame `$M<` 07 65 00 00 00 00 00 00 01 plus checksum sets the shared model's armed flag, changes nothing else there, and sends nothing |

## Left out

- **Input and output.** Sockets, files, `recvfrom`/`sendto`, `time`, `snprintf` and console output are left out:
  - The read loop of `main` is modelled only as feeding bytes in order (`Process`).
  - The alink forwarder returns the figures it would format and send, not the UDP datagram.
  - The mocked RSSI fields and the timestamp of that datagram are not modelled.
- **Verbose logging.** The `verbose` flag and every `cout` it guards are left out; they do not change any model field.
- **Argument parsing and sources.** `createInputSource`, the argument checks of `main` and the socket constructor and its exception are left out. They are I/O set-up and do not reach the modelled state; `outPort` is a parameter.
- **Flushing.** `flushFrameBuffer` only logs and rewinds the cursor; the model keeps only the rewind.
- **Host assumptions.** Assumed: a little-endian host with no padding in `MspMessage`. The source reads 16-bit fields by reinterpreting payload bytes and copies the message record with `sizeof`.
- **Integer widths.** `uint16_t` and `int16_t` are integer ranges. `AlinkFigures` computes `& 0x1F` and `>> 5` as `% 32` and `/ 32`. The bit operations themselves are proved equal to these on the two bytes each channel is stored as (`AlinkLostIsMask`, `AlinkRecoveredIsMask`), not on a 16-bit word.
- **Payload index.** The `uint16_t` payload index `m_bufPtr` is unbounded in the model. The invariant keeps it below 256, so it never wraps.
- `FlightData.CopyToFrameBuffer`: requires data no longer than the buffer. The source does not check this, but a longer copy would overrun the array even after the flush. The program's only caller copies 260 bytes.

## Behaviour worth knowing

- **Unknown command ids.** Every id other than 101, 102, 105 and 108 maps to UNKNOWN (255), so the raw id of an unknown command is lost (`UnknownIdsShareOneSlot`).
- **Dead length check.** The `> 256` test at msp_parser.cpp:173 can never fire, because the size is a `uint8_t`: every length 0-255 is accepted (`EveryLengthAccepted`).
- **Checksum coverage.** The direction marker is outside the checksum, so turning `<` into `>` by one bit flip still gives an accepted frame (`DirectionFlipAccepted`).
- **Resynchronisation.** It holds after any bytes that leave the parser reset (`ResyncAfterAnyPrefix`). It fails when a stray `$` immediately precedes a frame: the frame's `$` is read as the VERSION byte, the parser resets, and the frame is lost (`StrayDollarLosesFrame`).
- **Alink comments.** The comment at msp_parser.cpp:349-350 names channel 9 as link quality and channel 11 as holding both counts. Lines 356-358 read channel index 8 for link quality, channel 10 for lost and channel 11 for recovered. The model follows the code (`AlinkFigures`).
- **Split model.** The handler's frame buffer belongs to its own copy of the model, not to the shared model the executors update (`ProcessSeparation`).
