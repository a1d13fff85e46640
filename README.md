# ESP32 bridge: serial framing, checksum, byte queue, router and command dispatcher

This project is a Dafny model of the serial link of an ESP32 bridge firmware. A host and the
microcontroller exchange JSON documents over a UART, using these pieces:

- **COBS byte stuffing** (`Cobs`, `cobs.dfy`). The encoder back-patches a placeholder code
  byte for each run of non-zero bytes. The decoder walks the run chain and rejects a 0 code
  byte or a run that overruns the input.
- **CRC-8/SMBUS** (`Crc8Calc`, `crc8.dfy`): polynomial 0x07, initial value 0x00, bits taken
  most significant first.
- **A single-producer, single-consumer byte queue** (`RingBuffers`, `ring_buffer.dfy`). Its
  header marks `push` for an interrupt handler and `pop` for a task, but no code in the
  firmware creates one. It is a 512-slot circular array with a write index and a read index,
  and one slot is always kept free.
- **The publish/subscribe router** (`SerialIo`, `serial_io.dfy`). It frames a document as
  `COBS([channel] ++ msgpack(doc) ++ [crc8]) ++ [0x00]`. On receipt it collects bytes up to
  each `0x00`, unstuffs them, checks the length and the CRC, decodes the MessagePack payload
  and calls the handler subscribed to the channel. A packet that fails a check makes it print
  a text line on the same port as the frames. The line has no `0x00`, so a receiver that frames
  the same way reads it as the start of the next frame.
- **The signalling task's command switch** (`Signaling`, `signaling.dfy`). It hashes the
  request's `command` string with a 64-bit polynomial hash and answers "ping" and
  "get_water_level" on channel 254.
- **JSON documents** (`JsonDoc`, `json_doc.dfy`) are flat ordered objects of scalar members.
- **Shared definitions:** `bytes.dfy` holds the byte type and `wrappers.dfy` holds `Option`.

Each imperative routine of the firmware is a method with the same loop. The method is proved
equal to a specification function, and the lemmas state the properties of that function:
- the COBS round trip and the encoder's exact overhead;
- CRC linearity, detection of any single-byte error and the catalogue check value;
- the receive path delivering exactly the published document;
- the diagnostic lines joining the next frame, and losing it when the two are short.

`RingBuffer` and `SerialIO` are classes whose methods update their fields in place.

## Model

| member | source | states |
|---|---|---|
| Cobs.CodeOf | src/serial_coms/cobs_transcoder.cpp:31 | the code byte of a run with `n` data bytes has value `n + 1`, for `n` up to 254 |
| Cobs.EncodeBytes | src/serial_coms/cobs_transcoder.cpp:8-44 | the back-patching encoder's output equals the run-chain encoding `Encode(input)` and contains no 0x00 byte |
| Cobs.Encode | src/serial_coms/cobs_transcoder.cpp:8-44 | the encoding of a message holds no 0x00 byte, and the run-chain decoder turns it back into the message |
| Cobs.EncoderOnZero | src/serial_coms/cobs_transcoder.cpp:21-27 | a zero input byte patches the open run's code, opens a new placeholder with code 1, and keeps the encoder invariant |
| Cobs.EncoderOnFullRun | src/serial_coms/cobs_transcoder.cpp:29-38 | a non-zero byte that brings the code to 0xFF closes the run with code 0xFF and opens a new placeholder, keeping the invariant |
| Cobs.EncoderOnData | src/serial_coms/cobs_transcoder.cpp:30-31 | any other non-zero byte is appended to the open run and its code grows by one, keeping the invariant |
| Cobs.EncoderFinish | src/serial_coms/cobs_transcoder.cpp:42-43 | patching the last code byte after the loop yields exactly `Encode(input)` |
| Cobs.EncodeZeroFree | src/serial_coms/cobs_transcoder.cpp:8-44 | an encoding never contains 0x00, so the 0x00 delimiter is unambiguous |
| Cobs.EncodeLength | src/serial_coms/cobs_transcoder.cpp:11 | the encoding is at least one byte longer than its input and at most `1 + |s| / 254` bytes longer, so the `+ 2` reservation holds for inputs up to 507 bytes |
| Cobs.EncodeRunLengthExact | src/serial_coms/cobs_transcoder.cpp:19-42 | with the bytes `run` already open, the encoding holds the data, one code byte for the last run, one more for each full run that the open run and the leading non-zero bytes fill, and the full runs after the first zero |
| Cobs.EncodeLengthExact | src/serial_coms/cobs_transcoder.cpp:8-44 | the encoding is exactly `|s| + 1 + Splits(s)` bytes long; `Splits` counts one per 254 bytes in each maximal stretch of non-zero bytes |
| Cobs.FirstCode | src/serial_coms/cobs_transcoder.cpp:19-42 | the first code byte is 0xFF exactly when the input starts with 254 non-zero bytes, and otherwise it is the number of leading non-zero bytes plus one |
| Cobs.EmptyEncoding | src/serial_coms/cobs_transcoder.cpp:15-43 | the empty message encodes as `[0x01]` |
| Cobs.FinalCodeByte | src/serial_coms/cobs_transcoder.cpp:15-42 | a message of exactly 254 non-zero bytes encodes as 0xFF, the bytes, then a closing 0x01 |
| Cobs.DecodeRuns | src/serial_coms/cobs_transcoder.cpp:46-73 | a successful decoding is never longer than its input |
| Cobs.DecoderReject | src/serial_coms/cobs_transcoder.cpp:54-58 | a code byte of 0, or a run reaching past the end at any position, makes the whole result empty |
| Cobs.CopyRun | src/serial_coms/cobs_transcoder.cpp:59-65 | the inner copy loop appends exactly the run's `code - 1` data bytes and stops right after them |
| Cobs.DecoderStep | src/serial_coms/cobs_transcoder.cpp:59-69 | a well-formed run (data bytes, plus a zero unless the code is 0xFF or the input has ended) keeps the outer loop invariant |
| Cobs.DecodeBytes | src/serial_coms/cobs_transcoder.cpp:46-73 | the decoder's output equals `Decode(input)` and is no longer than the input; a leading code 0 or an overlong first run gives the empty result |
| Cobs.Decode | src/serial_coms/cobs_transcoder.cpp:46-73 | the decoded bytes are never more than the input bytes; an input whose first code byte is 0 or runs past its end decodes to the empty sequence |
| Cobs.DecodeBlock | src/serial_coms/cobs_transcoder.cpp:53-69 | a code byte, its data bytes and a tail decode as the data, then the implicit zero when the code is below 0xFF and the tail is non-empty, then the tail's decoding |
| Cobs.DecodeEncodeRun | src/serial_coms/cobs_transcoder.cpp:8-73 | decoding the encoding of `s`, with the bytes `run` already open, succeeds and gives `run + s` |
| Cobs.RoundTrip | src/serial_coms/cobs_transcoder.cpp:8-73 | `decode(encode(s)) == s` for every byte sequence, including empty, all-zero and longer-than-254 inputs |
| Crc8Calc.Shift | src/serial_coms/crc8_calc.cpp:14-17 | bit 0 of the new register is set exactly when bit 7 of the old one was, that is, exactly when the polynomial 0x07 was subtracted |
| Crc8Calc.Step | src/serial_coms/crc8_calc.cpp:11-18 | one byte step (XOR, then eight bit steps) leaves 0 in the register exactly when the byte equals the register |
| Crc8Calc.Crc8 | src/serial_coms/crc8_calc.cpp:5-22 | appending the checksum to the data brings the register back to 0 |
| Crc8Calc.ComputeCrc8 | src/serial_coms/crc8_calc.cpp:5-22 | the firmware's byte loop around an 8-step bit loop computes `Crc8(data)`, the fold of the byte step from register 0x00 |
| Crc8Calc.EmptyCrc | src/serial_coms/crc8_calc.h:5 | the checksum of no bytes is the initial value 0x00 |
| Crc8Calc.CrcAppend | src/serial_coms/crc8_calc.cpp:9-19 | feeding `a` and then `b` gives the same register as feeding `a + b` |
| Crc8Calc.CrcSnoc | src/serial_coms/crc8_calc.cpp:11-19 | one more byte is one more step from the earlier checksum |
| Crc8Calc.ShiftXor | src/serial_coms/crc8_calc.cpp:13-16 | one bit step (shift, then XOR 0x07 if bit 7 was set) is linear over XOR |
| Crc8Calc.StepXor | src/serial_coms/crc8_calc.cpp:11-19 | one byte step is linear over XOR in the register and the byte together |
| Crc8Calc.FoldXor | src/serial_coms/crc8_calc.cpp:9-20 | folding any XOR-linear step over the bytewise XOR of two equal-length inputs gives the XOR of the two folds |
| Crc8Calc.StepLinear | src/serial_coms/crc8_calc.cpp:11-19 | the byte step is XOR-linear for all registers and bytes |
| Crc8Calc.CrcFromXor | src/serial_coms/crc8_calc.cpp:9-20 | the register after the bytewise XOR of two inputs, from the XOR of two starting registers, is the XOR of the two registers |
| Crc8Calc.Crc8Xor | src/serial_coms/crc8_calc.cpp:5-22 | with initial value 0 and no final XOR, the checksum of the bytewise XOR of two equal-length messages is the XOR of their checksums |
| Crc8Calc.ShiftInjective | src/serial_coms/crc8_calc.cpp:13-16 | distinct registers stay distinct after one bit step |
| Crc8Calc.StepInjective | src/serial_coms/crc8_calc.cpp:11-19 | distinct registers stay distinct after one byte step |
| Crc8Calc.CrcFromInjective | src/serial_coms/crc8_calc.cpp:9-20 | distinct registers stay distinct whatever bytes follow |
| Crc8Calc.SingleByteError | src/serial_coms/crc8_calc.cpp:5-22 | any non-zero error pattern confined to one byte changes the checksum |
| Crc8Calc.SingleBitError | src/serial_coms/crc8_calc.cpp:5-22 | flipping any one bit of a message changes its checksum |
| Crc8Calc.CrcPrefix | src/serial_coms/crc8_calc.cpp:9-20 | the checksum of a prefix one byte longer is one more step |
| Crc8Calc.CheckValue | src/serial_coms/crc8_calc.h:5-6 | the checksum of ASCII "123456789" is 0xF4, the catalogue check value of CRC-8/SMBUS |
| RingBuffers.RingBuffer.Count | src/serial_coms/ring_buffer.h:18-20 | the number of queued bytes is at most 511, is zero exactly when `head == tail`, and is the distance from `tail` forward to `head` |
| RingBuffers.RingBuffer.Contents | src/serial_coms/ring_buffer.h:18-20 | the queued bytes, oldest first, are the array slots from `tail` forward, modulo 512 |
| RingBuffers.RingBuffer.constructor | src/serial_coms/ring_buffer.cpp:3 | a new buffer has both indices at 0 and holds nothing |
| RingBuffers.RingBuffer.Push | src/serial_coms/ring_buffer.cpp:5-15 | the push succeeds exactly when fewer than 511 bytes are queued; then the byte joins the back and `head` advances modulo 512; otherwise nothing changes |
| RingBuffers.RingBuffer.Pop | src/serial_coms/ring_buffer.cpp:17-26 | the pop succeeds exactly when the queue is non-empty; then it returns the oldest byte, drops it, and advances `tail` modulo 512; otherwise nothing changes |
| RingBuffers.RingBuffer.IsEmpty | src/serial_coms/ring_buffer.cpp:28-31 | `head == tail` holds exactly when the queue holds no bytes |
| RingBuffers.RingBuffer.Clear | src/serial_coms/ring_buffer.cpp:33-36 | resetting both indices to 0 empties the queue |
| JsonDoc.Lookup | src/tasks/signaling_control.cpp:49 | a key is found exactly when it is among the document's keys, and the value found is stored under it |
| JsonDoc.Assign | src/tasks/signaling_control.cpp:57-59 | assigning an existing key keeps the member count, and assigning a new key appends the member |
| JsonDoc.StringOr | src/tasks/signaling_control.cpp:49 | `doc[key] | fallback` gives the stored string when there is one, and the fallback otherwise |
| JsonDoc.GetSetSame | src/tasks/signaling_control.cpp:57-59 | after `doc[key] = v`, reading `key` gives `v` |
| JsonDoc.GetSetOther | src/tasks/signaling_control.cpp:57-59 | `doc[key] = v` leaves every other key's value as it was |
| JsonDoc.KeysSet | src/tasks/signaling_control.cpp:57-59 | an assignment adds its key to the document and no other key |
| JsonDoc.SetUnique | src/tasks/signaling_control.cpp:57-59 | assigning by key never gives a document two members with the same key |
| JsonDoc.LookupUnique | src/tasks/signaling_control.cpp:49 | in a document with unique keys, reading a key finds the value of the member stored under it |
| SerialIo.ChannelByte | src/serial_coms/serial_io.cpp:21 | the `int` channel is narrowed to the byte `channel mod 256` |
| SerialIo.Packet | src/serial_coms/serial_io.cpp:18-28 | a packet is two bytes longer than the MessagePack payload: the channel byte, the payload, and a last byte equal to the CRC-8 of the bytes before it |
| SerialIo.Frame | src/serial_coms/serial_io.cpp:16-34 | a published frame is at least two bytes long and ends in 0x00, has no other 0x00, and unstuffing what precedes the 0x00 gives the packet back |
| SerialIo.Process | src/serial_coms/serial_io.cpp:73-106 | a packet is too short exactly when it has fewer than 3 bytes, and fails the CRC exactly when it is long enough and its last byte differs from the CRC-8 of the others; a packet passing both checks is dropped when MessagePack rejects the payload, and otherwise goes to the handler subscribed to byte 0 with the decoded document, or to no one when there is none |
| SerialIo.Calls | src/serial_coms/serial_io.cpp:101-105 | a packet causes at most one handler call; it causes one exactly when it is dispatched, and the call passes the dispatched handler the decoded document |
| SerialIo.PacketAccepted | src/serial_coms/serial_io.cpp:73-106 | a packet built by publish passes the length and CRC checks and reaches the channel's handler with the document, or calls nothing when no handler is subscribed |
| SerialIo.MessageByteError | src/serial_coms/serial_io.cpp:81-88 | a non-zero error in one byte before the checksum byte makes the CRC test fail |
| SerialIo.ChecksumByteError | src/serial_coms/serial_io.cpp:81-88 | a non-zero error in the checksum byte makes the CRC test fail |
| SerialIo.CorruptedByteRejected | src/serial_coms/serial_io.cpp:73-106 | any non-zero error in one byte of a packet whose checksum matched, in the channel, the payload or the checksum, makes the packet a CRC mismatch that calls no handler |
| SerialIo.CorruptedPacketRejected | src/serial_coms/serial_io.cpp:81-88 | any single-bit corruption of a packet whose checksum matched is rejected as a CRC mismatch |
| SerialIo.Accept | src/serial_coms/serial_io.cpp:56-69 | one byte keeps the completed frames and adds one exactly when a 0x00 ends a non-empty collection; 0x00 is never collected |
| SerialIo.Feed | src/serial_coms/serial_io.cpp:48-71 | feeding bytes keeps the earlier frames and completes at most one frame per byte |
| SerialIo.Handle | src/serial_coms/serial_io.cpp:59-64 | the completed frames cause at most one handler call each |
| SerialIo.Diagnostic | src/serial_coms/serial_io.cpp:75-98 | a packet writes a line exactly when it is too short, fails the CRC or fails to decode, and nothing when it passes all three checks; no line holds 0x00 |
| SerialIo.TooShortText | src/serial_coms/serial_io.cpp:77 | the bytes written for a short packet spell "Packet too short" followed by CR LF, as `println` ends a line |
| SerialIo.CrcMismatchText | src/serial_coms/serial_io.cpp:86 | the bytes written for a checksum failure spell "CRC mismatch" followed by CR LF |
| SerialIo.DecodeFailedText | src/serial_coms/serial_io.cpp:97 | the bytes written for a MessagePack failure spell "MsgPack decoding failed" followed by CR LF |
| SerialIo.Diagnostics | src/serial_coms/serial_io.cpp:59-64 | the lines that the completed frames cause, in order, hold no 0x00 |
| SerialIo.DiagnosticsNext | src/serial_coms/serial_io.cpp:59-64 | one more completed frame adds its packet's line after the earlier ones |
| SerialIo.FeedZeroFree | src/serial_coms/serial_io.cpp:48-71 | the collected bytes never hold 0x00, and every completed frame is non-empty and free of 0x00 |
| SerialIo.FeedCollects | src/serial_coms/serial_io.cpp:66-69 | bytes without 0x00 are only appended to the collection buffer |
| SerialIo.AcceptCalls | src/serial_coms/serial_io.cpp:56-69 | a 0x00 clears the buffer and, when the buffer was non-empty, adds the calls and the line of its packet; any other byte is appended |
| SerialIo.HandleNext | src/serial_coms/serial_io.cpp:59-64 | a completed frame adds the calls of its packet after the earlier ones |
| SerialIo.ReceiveFrame | src/serial_coms/serial_io.cpp:48-71 | an idle receiver fed a published frame completes exactly one frame, which decodes to the published packet |
| SerialIo.Loopback | src/serial_coms/serial_io.cpp:16-106 | publishing a document and feeding the bytes to an idle receiver calls the channel's handler exactly once with that document, or calls nothing when no handler is subscribed |
| SerialIo.LineJoinsNextFrame | src/serial_coms/serial_io.cpp:75-99 | a diagnostic line followed by a published frame reaches an idle receiver as one frame that holds the line and the stuffed packet |
| SerialIo.LineSwallowsShortFrame | src/serial_coms/serial_io.cpp:75-99 | the line's first byte is a COBS code of at least 0x43, so when the line and the next frame total at most 67 bytes the joined frame decodes to nothing and is rejected as too short; the published document is lost |
| SerialIo.SerialIO.constructor | src/serial_coms/serial_io.h:33-34 | a new router has no subscriptions, an empty buffer, and has written and called nothing |
| SerialIo.SerialIO.Subscribe | src/serial_coms/serial_io.cpp:11-14 | the channel's handler is replaced, and nothing else changes |
| SerialIo.SerialIO.Publish | src/serial_coms/serial_io.cpp:16-46 | exactly the frame `COBS([channel] ++ msgpack ++ [crc8]) ++ [0x00]` is written after the earlier output |
| SerialIo.SerialIO.ProcessPacket | src/serial_coms/serial_io.cpp:73-106 | the handler calls are exactly those that `Process` prescribes for the packet, and the port output grows by exactly the packet's diagnostic line |
| SerialIo.SerialIO.OnByte | src/serial_coms/serial_io.cpp:56-69 | one byte is either collected, or (on a 0x00 ending a non-empty frame) the frame is decoded and processed, its calls and its diagnostic line are added, and the buffer is cleared |
| SerialIo.SerialIO.UpdateSubscriber | src/serial_coms/serial_io.cpp:48-71 | draining the input leaves the buffer, the handler calls and the written lines that the byte-by-byte receiver `Feed` with `Handle` and `Diagnostics` prescribes |
| Signaling.HashStr | src/tasks/signaling_control.cpp:11-14 | the polynomial hash `h * 31 + c` wraps modulo 2^64 and stays below 2^64 |
| Signaling.HashAppend | src/tasks/signaling_control.cpp:11-14 | the hash of a concatenation continues from the hash of its NUL-free first part |
| Signaling.HashStopsAtNul | src/tasks/signaling_control.cpp:13 | everything from the first NUL on is ignored |
| Signaling.PingValue | src/tasks/signaling_control.cpp:54 | `hash_str("ping")` is 3441010 |
| Signaling.WaterLevelValue | src/tasks/signaling_control.cpp:63 | `hash_str("get_water_level")` is 5242512494040445683 |
| Signaling.UnknownValue | src/tasks/signaling_control.cpp:49 | `hash_str("unknown")` is 107089341514 |
| Signaling.PioHValue | src/tasks/signaling_control.cpp:54 | `hash_str("pioH")` is 3441010, the same as "ping" |
| Signaling.CaseLabels | src/tasks/signaling_control.cpp:52-70 | the two case labels have these values and are distinct |
| Signaling.CommandOf | src/tasks/signaling_control.cpp:49 | the command is the request's `command` string when it has one, and "unknown" when the member is missing or not a string |
| Signaling.GetHighWater | src/tasks/signaling_control.cpp:18-39 | the function leaves the document unchanged, since its whole body is commented out |
| Signaling.PingResponse | src/tasks/signaling_control.cpp:57-59 | the "ping" answer holds exactly msg "pong", status 200 and the timestamp, in that order |
| Signaling.WaterLevelResponse | src/tasks/signaling_control.cpp:66-68 | the "get_water_level" answer holds exactly status 200 and the timestamp |
| Signaling.Respond | src/tasks/signaling_control.cpp:52-75 | a reply is produced exactly when the command's hash is one of the two case labels, and it is always on channel 254 |
| Signaling.PingReply | src/tasks/signaling_control.cpp:54-61 | "ping" is answered on channel 254 with exactly msg "pong", status 200 and the timestamp, in that order |
| Signaling.WaterLevelReply | src/tasks/signaling_control.cpp:63-70 | "get_water_level" is answered on channel 254 with exactly status 200 and the timestamp |
| Signaling.MissingCommandIgnored | src/tasks/signaling_control.cpp:49-74 | a request with no `command` string is read as "unknown", which no case matches, so nothing is published |
| Signaling.HostPingIgnored | stresstest.py:37 | the host's request `{'cmd': 'ping'}` has no `command` member, so the firmware does not answer it |
| Signaling.ReplyByHash | src/tasks/signaling_control.cpp:50-52 | two commands with equal hashes get the same reply |
| Signaling.PingCollision | src/tasks/signaling_control.cpp:52-54 | the distinct command "pioH" collides with "ping" and is answered with "pong" |
| Signaling.HandleRequest | src/tasks/signaling_control.cpp:48-75 | serving a request appends to the port output exactly the frame of `Respond`'s reply, or nothing; subscriptions, buffer and handler calls are untouched |

## Left out

- MessagePack (ArduinoJson's `serializeMsgPack`/`deserializeMsgPack`) is not part of this
  model. The codec is a pair of function values supplied by the caller, and lemmas that need
  a round trip state it as a precondition.
- JSON documents are flat objects of null, boolean, integer and string members. Nested arrays
  and objects, floating point and ArduinoJson's memory pool are not modelled.
- The UART is modelled as the sequence of bytes available to read (`UpdateSubscriber`'s
  argument) and as a log of every byte written to it (`SerialIO.output`): frames and the
  packet handler's diagnostic lines. `begin`, `flush` and
  `readBytes` are hardware set-up with nothing to model.
- SerialIO.UpdateSubscriber: the `read() < 0` break is not modelled. `read` only returns -1
  when no byte is available, and the loop tests availability first.
- Handler calls are recorded as `Event`s in a ghost log. The callbacks' own effects, such as
  the echo handler registered in `main.cpp`, are not modelled.
- The `subscribe(int, JsonDocument&, SubscriptionCallback)` overload declared in
  `serial_io.h` is never defined in the repository, so there is nothing to model.
- RingBuffers.RingBuffer: the `std::atomic` indices are plain fields. The single-producer
  (interrupt) and single-consumer (task) concurrency is not modelled.
- RingBuffers.RingBuffer.Pop: on failure it returns 0, where the firmware leaves its
  by-reference argument unchanged.
- Signaling.HashStr: the command string comes from the host, so it can hold any bytes. The
  firmware hashes its UTF-8 bytes one `char` at a time, and a byte above 0x7F counts as a
  negative number where `char` is signed. The model hashes code points instead, so `Respond`
  agrees with the firmware only for ASCII commands. The two case labels are ASCII.
- The signalling task's FreeRTOS queue, its 20 ms delay loop, task creation
  (`setupSignalingControl`) and its `LOG_WEBSERIALLN` messages, which go to the web console
  or nowhere, are left out. `millis()` is a parameter.
- Cobs.DecodeBytes: the firmware re-tests `idx >= input.size()` before each copied byte. The
  run-length test before the copy already excludes that case, as `CopyRun`'s precondition
  shows, so the model has no branch for it.
