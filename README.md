# MILAUR serial framing, host and device

The MILAUR robot's host computer and its XMEGA microcontroller talk over a
serial link. They use a small framing protocol. The top two bits of a type
(opcode) byte give the frame's length class:

- `00`: no payload.
- `01`: one payload byte.
- `10`: two payload bytes.
- `11`: N bytes. A length byte follows, then that many payload bytes.

Bits 5 and 4 both set mark a device-side error.

This project models both ends of that protocol in Dafny and proves properties
of the model.

- **Host (`communication.py`).**
  - The per-frame body of `read_packets`, as a decoding step over a finite
    byte stream with a read cursor. A bounded run of that step is given as a
    function and as a loop method.
  - `write_packet`, as an encoding function and a loop method.
  - The three lookup tables (`byte_type_defs`, `action_dict`,
    `poll_messages`), and how `MILAUR_Communicator` layers its entries onto
    the base tables.
- **Device (`usart.c`).**
  - The circular byte buffer (`buffer_push`, `buffer_pop`), as a class over
    an array.
  - The resolver's global state (counters, message caches, error flag and
    queues), as a class whose methods are proved to follow pure
    specification functions:
    - `resolve_single_input`: incremental parser.
    - `resolve_single_output`: incremental serialiser.
    - `resolve_buffers`: scheduler loop with a byte budget.
    - `wipe_in_buffer` and `wipe_out_buffer`.
- **Link.** The two ends together:
  - What the host reads from what the device sends.
  - What the device parses from what the host writes.

Modules:

| file | module | models |
|---|---|---|
| wrappers.dfy | `Wrappers` | `Option`, bytes as `bv8` |
| host_profile.dfy | `HostProfile` | the host's tables and the MILAUR profile |
| host_decoder.dfy | `HostDecoder` | `read_packets`, one frame at a time and bounded runs |
| host_encoder.dfy | `HostEncoder` | `write_packet` |
| device_framing.dfy | `DeviceFraming` | the device's parser and serialiser as state-transition functions; wire form; round trips |
| device_buffer.dfy | `UsartBuffer` | `Buffer`, `buffer_push`, `buffer_pop` |
| device_usart.dfy | `Usart` | resolver state, `resolve_*`, `wipe_*`; the scheduler's specification and its lemmas |
| link.dfy | `Link` | host/device agreement |

Modelling choices:

- **Length byte.** The host's N-byte length byte is read as an unsigned byte
  value, 0 to 255. This is a modelling choice, not the code's behaviour: at
  communication.py:134-135 the one-character string returned by `read(1)` is
  passed to `read` as it is.
- **Poll values.** A `poll_messages` value is either an integer or a string.
  Python's `chr` accepts only an integer in 0..255. Anything else makes the
  write fail before any byte is sent.
- **Header constants.** The device's type constants come from headers that
  are not part of this model. They are taken as the four classes of the top
  two bits under mask `0xC0` (`NO_DATA` `0x00`, `1B` `0x40`, `2B` `0x80`,
  `NB` `0xC0`). `OK` is taken as 0. `BUFFER_ERROR_TYPE` is taken as `0x30`
  and `MESSAGE_ERROR_TYPE` as `0x31`. Both are then no-data types, so the
  size-0 message `resolve_buffers` queues for an error is sent as one byte.
  The MILAUR host registers its error handler at 0xF0, an N-byte type; if an
  error code were such a type, that size-0 message would hit the serialiser
  runaway described under "## Left out".
- **Turns.** `IN_QUEUE` and `OUT_QUEUE` are taken to be 0 and 1, so that
  `(turn + 1) % 2` switches between them (`Usart.Flip`).
- **Message queues.** `queue_push`, `queue_pop`, `out_queue` and `start_ok`
  are defined outside usart.c. The queues are modelled as sequences with a
  fixed capacity, and a push fails when the queue is full. The input and
  output queues share one capacity. `out_queue` is modelled as "the output
  queue is not empty".
- **Data buffers.** A `malloc`ed data buffer is modelled as a zero-filled
  sequence of the allocated size. A store outside it is dropped, and a load
  outside it reads 0.

A class-0 frame's handler gets `read(0)`, the empty string, not `None`
(`HostDecoder.TableFrame`).

## Model

| member | source | states |
|---|---|---|
| HostProfile.BaseProfile | ros/MILAUR_xmega_driver/src/communication.py:60-71 | the generic communicator has no handlers and the length table has exactly the keys 0x00, 0x40, 0x80 |
| HostProfile.Extend | ros/MILAUR_xmega_driver/src/communication.py:180-191 | `dict.update` semantics: the key set is the union; added keys take the new value; every other key keeps its old value; the length table is unchanged |
| HostProfile.MilaurTables | ros/MILAUR_xmega_driver/src/communication.py:165-191 | the MILAUR profile registers handlers for exactly 0xF0, 0xC0, 0x40; it polls exactly the base name plus robot_start, motors and debug; the base entry '0F' survives as a string |
| HostProfile.MilaurProfile | ros/MILAUR_xmega_driver/src/communication.py:165-191 | the MILAUR communicator's tables: the base tables updated with the device's entries; `MilaurTables` states exactly which entries it ends up with |
| HostDecoder.ReadFrame | ros/MILAUR_xmega_driver/src/communication.py:108-139 | a decoded frame consumes at least its opcode and never reads past the input; its opcode and error flag are the byte at the cursor; at the end of input the read blocks |
| HostDecoder.DecodeStep | ros/MILAUR_xmega_driver/src/communication.py:108-139 | one iteration of the read loop as written; `TableFrame`, `NByteFrame` and `UnrecognisedFrame` state its three cases, and `TableClassDropsPayload` its inverted length test |
| HostDecoder.DecodeStepIntended | ros/MILAUR_xmega_driver/src/communication.py:116-125 | the same iteration with the length test the intended way round; `IntendedTableFrame` states its table-length case |
| HostDecoder.TableClasses | ros/MILAUR_xmega_driver/src/communication.py:67-71 | an opcode's length class is in the table iff the opcode is below 0xC0; the table then gives `op >> 6` bytes |
| HostDecoder.ErrorFlagBits | ros/MILAUR_xmega_driver/src/communication.py:103-104 | the error flag is exactly "bits 5 and 4 both set"; setting or clearing them never changes the length class |
| HostDecoder.TableFrame | ros/MILAUR_xmega_driver/src/communication.py:116-127 | as written, a table-length frame consumes only its opcode; the handler found by exact opcode gets the empty read for class 0 and `None` for classes 1 and 2; with no handler nothing is called |
| HostDecoder.NByteFrame | ros/MILAUR_xmega_driver/src/communication.py:130-137 | a registered class-11 opcode, a length byte L and L bytes form one frame, anywhere in the stream; the handler gets exactly those L bytes and decoding resumes right after them |
| HostDecoder.UnrecognisedFrame | ros/MILAUR_xmega_driver/src/communication.py:138-139 | an unregistered class-11 opcode consumes only itself and calls nothing |
| HostDecoder.ConsumptionIgnoresErrorBits | ros/MILAUR_xmega_driver/src/communication.py:111-137 | two opcodes with the same length class and registration status consume the same bytes, and block on the same inputs |
| HostDecoder.DecodeRun | ros/MILAUR_xmega_driver/src/communication.py:106-139 | the bounded loop yields at most `fuel` frames and its cursor only moves forward, staying within the input |
| HostDecoder.ReadPackets | ros/MILAUR_xmega_driver/src/communication.py:106-139 | the loop method returns exactly the frames and cursor of the bounded run, in the order handlers are called |
| HostDecoder.DecodeStepExtends | ros/MILAUR_xmega_driver/src/communication.py:108-137 | decoding a frame never looks past its last byte: appending input changes nothing |
| HostDecoder.DecodeStepShift | ros/MILAUR_xmega_driver/src/communication.py:108-139 | a frame decodes the same wherever it sits in the stream |
| HostDecoder.DecodeRunShift | ros/MILAUR_xmega_driver/src/communication.py:106-139 | the bounded loop decodes the same frames after any prefix, with the cursor shifted by that prefix |
| HostDecoder.FirstFrameThenRest | ros/MILAUR_xmega_driver/src/communication.py:106-139 | a complete frame at the head of the stream is dispatched first; the loop then goes on as if the stream started after it |
| HostDecoder.RepeatedFrames | ros/MILAUR_xmega_driver/src/communication.py:106-139 | no state carries over between frames: k copies of a frame give k identical dispatches and consume exactly those bytes |
| HostDecoder.NunchuckScenario | ros/MILAUR_xmega_driver/src/communication.py:130-137 | 0xC0, 6 and six bytes reach the nunchuck handler intact and consume 8 bytes |
| HostDecoder.TwoTestFrames | ros/MILAUR_xmega_driver/src/communication.py:116-125 | two 0x40 opcodes call the test handler twice with `None` and consume two bytes |
| HostDecoder.TableClassDropsPayload | ros/MILAUR_xmega_driver/src/communication.py:118-121 | as written, the data byte of a 0x40 frame is decoded as a new opcode |
| HostDecoder.IntendedTableFrame | ros/MILAUR_xmega_driver/src/communication.py:116-125 | with the length test the intended way round, a table-length frame consumes `1 + (op >> 6)` bytes and its handler gets the payload bytes (`None` for class 0) |
| HostEncoder.Chr | ros/MILAUR_xmega_driver/src/communication.py:153 | `chr` succeeds exactly on integers in 0..255 |
| HostEncoder.Encode | ros/MILAUR_xmega_driver/src/communication.py:141-162 | an unregistered name writes nothing; a value `chr` rejects writes nothing; otherwise the opcode `chr` gives is followed by the payload bytes in order, with no length byte |
| HostEncoder.WritePacket | ros/MILAUR_xmega_driver/src/communication.py:149-162 | the byte-by-byte write loop produces exactly what `Encode` specifies |
| HostEncoder.MotorsExample | ros/MILAUR_xmega_driver/src/communication.py:149-158 | 'motors' with payload [1, 2] writes 0x80, 1, 2 |
| HostEncoder.UnregisteredNameWritesNothing | ros/MILAUR_xmega_driver/src/communication.py:216 | 'init_towbot_poll', written by the nunchuck handler, is not registered and writes nothing |
| HostEncoder.ExamplePollMessageFails | ros/MILAUR_xmega_driver/src/communication.py:63-65 | the base entry 'example_poll_msg' stores the string '0F', which `chr` rejects; nothing is written |
| DeviceFraming.Store | xmega/usart.c:138 | a store writes the byte at its index and leaves every other byte and the length unchanged |
| DeviceFraming.ByteAt | xmega/usart.c:164 | a load inside the buffer returns the stored byte |
| DeviceFraming.ParseByte | xmega/usart.c:113-145 | one call of `resolve_single_input`, as written or with the completion test corrected; `ParseFirst` states the type byte, `ParseNextNbSize` the length byte, `ParseNextFixed` and `ParseNextNbData` the data bytes, and `NbFirstDataAsWritten` the as-written N-byte completion |
| DeviceFraming.EmitByte | xmega/usart.c:149-179 | one call of `resolve_single_output`; `EmitFirst` states the type byte, `EmitNextFixed` and `EmitNextNb` the size and data bytes, and `EmitPrefix` a whole message |
| DeviceFraming.Complete | xmega/usart.c:141-145 | a message is completed exactly when it is a no-data type or the completion test holds; the parser then holds it at count 0; otherwise the count goes up by one |
| DeviceFraming.Sent | xmega/usart.c:167-178 | the byte is pushed; the count returns to 0 exactly for a no-data type or after the last data byte |
| DeviceFraming.Wire | xmega/usart.c:153-165 | a message's wire form starts with its type byte |
| DeviceFraming.FixedSize | xmega/usart.c:159 | for each class under mask 0xC0, `type >> 6` is that class's number (0, 1, 2 or 3) |
| DeviceFraming.EmitFirst | xmega/usart.c:153-159 | at count 0 the serialiser takes the first queued message, forces its size, and pushes its type byte |
| DeviceFraming.EmitNextFixed | xmega/usart.c:162-164 | for a 1- or 2-byte type, call `j` pushes data byte `j - 1`; the last one resets the count |
| DeviceFraming.EmitNextNb | xmega/usart.c:160-164 | for an N-byte type, call 1 pushes the size and call `j` pushes data byte `j - 2`; the last one resets the count |
| DeviceFraming.EmitNext | xmega/usart.c:160-178 | every later call pushes the next byte of the wire form |
| DeviceFraming.EmitPrefix | xmega/usart.c:149-179 | after `j` calls on a queued message the serialiser has pushed the first `j` bytes of its wire form; after the last one the message is off the queue and the count is 0 |
| DeviceFraming.ParseFirst | xmega/usart.c:121-132 | the type byte starts a message sized by its class (2 as a placeholder for N-byte) with a zeroed buffer; a no-data type completes at once |
| DeviceFraming.ParseNextFixed | xmega/usart.c:136-139 | a data byte of a 1- or 2-byte type is stored at `in_count - 1`; the message completes when `offset + 1 == size` |
| DeviceFraming.ParseNextNbSize | xmega/usart.c:133-135 | the second byte of an N-byte message becomes its size and sizes its zeroed buffer; this holds for the code as written when the size is at least 1, and for the corrected parser for every size (a size of 0 then completes the message) |
| DeviceFraming.ParseNextNbData | xmega/usart.c:136-139 | with the completion test corrected, an N-byte data byte is stored at `in_count - 2` and the last one completes the message |
| DeviceFraming.ParseNext | xmega/usart.c:133-145 | for the code as written on fixed-length types, and for the corrected parser on every type: every later byte of a wire form is stored in its place, and the last one completes the message |
| DeviceFraming.TraceStep | xmega/usart.c:113-146 | for the code as written on fixed-length types, and for the corrected parser on every type: the parser takes each wire byte from one intermediate result to the next |
| DeviceFraming.TraceSteps | xmega/usart.c:113-146 | for the code as written on fixed-length types, and for the corrected parser on every type: the parser follows the intermediate results along a whole wire form and completes only at its last byte |
| DeviceFraming.ParsePrefix | xmega/usart.c:113-146 | for the code as written on fixed-length types, and for the corrected parser on every type: after `j` bytes of a wire form the parser holds the bytes received so far, and only the last byte completes a message |
| DeviceFraming.ReceivedAll | xmega/usart.c:136-140 | once the whole wire form has arrived the parser holds the message with its size normalised |
| DeviceFraming.FixedRoundTrip | xmega/usart.c:113-179 | for no-data, 1-byte and 2-byte types, the serialiser emits the message's wire form, and the parser as written turns it back into exactly that message |
| DeviceFraming.NbHeader | xmega/usart.c:121-135 | type and length byte of an N-byte frame leave the parser at count 2 with a zeroed buffer of the announced size |
| DeviceFraming.NbFirstDataAsWritten | xmega/usart.c:139 | as written, the first data byte of an N-byte message completes it, whatever its length |
| DeviceFraming.NbFrameCompletesEarly | xmega/usart.c:133-145 | as written, an N-byte frame of length >= 2 is queued after 3 bytes, with all but its first data byte zero |
| DeviceFraming.CorrectedEmptyNb | xmega/usart.c:133-135 | the corrected parser completes an N-byte message whose length byte is 0 on that byte, with no data |
| DeviceFraming.CorrectedRoundTrip | xmega/usart.c:113-179 | with the completion test corrected, every message the serialiser finishes, N-byte included, is reassembled exactly |
| UsartBuffer.Buffer.Contents | xmega/usart.c:51-64 | the buffer holds fewer than MAX bytes, as many as the distance from `start` to `end` around the ring |
| UsartBuffer.Buffer.constructor | xmega/usart.c:41-42 | `calloc`: both indices 0, the buffer empty |
| UsartBuffer.Buffer.IsEmpty | xmega/usart.c:60 | `start == end` holds exactly when the buffer holds no bytes |
| UsartBuffer.Buffer.IsFull | xmega/usart.c:52 | `(end + 1) % MAX == start` holds exactly when the buffer holds MAX - 1 bytes |
| UsartBuffer.Buffer.Push | xmega/usart.c:51-56 | on a full buffer: BUFFER_ERROR_TYPE and no change; otherwise OK, the byte stored at `end`, `end` advanced modulo MAX, and the byte added at the back of the contents; `start` never moves; with `Pop`, this gives first-in first-out order |
| UsartBuffer.Buffer.Pop | xmega/usart.c:59-64 | on an empty buffer: BUFFER_ERROR_TYPE and no change; otherwise OK, the oldest byte returned, `start` advanced modulo MAX, and the contents lose their first byte; `end` never moves |
| UsartBuffer.Buffer.Wipe | xmega/usart.c:68 | `start := end` empties the buffer and leaves `end` alone |
| UsartBuffer.PushPopFifo | xmega/usart.c:51-64 | two bytes pushed onto an empty buffer of at least three slots come out in the order they went in |
| Usart.QueuePush | xmega/usart.c:142-143 | a push succeeds exactly when the queue has room, and then appends the message |
| Usart.ChooseTurn | xmega/usart.c:92-94 | the input side is chosen only when input waits; while there is work, the output side is chosen only when the output buffer has room and `start_ok` holds |
| Usart.HasWork | xmega/usart.c:87-89 | the loop condition without the budget; `UsartState.HasWorkNow` proves the index-level condition equal to it |
| Usart.InputTurn | xmega/usart.c:113-146 | one input turn on the abstract state; `InputTurnEffect` states its effect |
| Usart.InputTurnEffect | xmega/usart.c:113-146 | an input turn takes exactly the first input byte and leaves the output side alone; a completed message is queued when the input queue has room, otherwise it is dropped and `error` becomes MESSAGE_ERROR_TYPE |
| Usart.OutputTurn | xmega/usart.c:149-179 | one output turn on the abstract state; `OutputTurnEffect` states its effect |
| Usart.OutputTurnEffect | xmega/usart.c:149-179 | an output turn leaves the input side and `error` alone, appends at most one byte to the output buffer, and takes at most the head of the output queue |
| Usart.ReportError | xmega/usart.c:101-107 | the error handling at the end of an iteration; `ReportErrorEffect` and `ReportErrorQueuesMessage` state its effect |
| Usart.ReportErrorEffect | xmega/usart.c:101-107 | the flag is cleared; nothing but the output queue changes, and it gains at most one message at its back |
| Usart.Iterate | xmega/usart.c:90-108 | one pass of the loop body; `IterateEffect` states its effect |
| Usart.IterateEffect | xmega/usart.c:90-108 | after one iteration no error is pending and output has only been appended; an input turn takes the first input byte, an output turn leaves the input side alone |
| Usart.ResolveFrom | xmega/usart.c:80-109 | the loop stops only when the budget is spent or no work is left, and never runs more iterations than its budget |
| Usart.ResolveBuffersSpec | xmega/usart.c:80-109 | `resolve_buffers` on the abstract state, starting on the input side; `ResolveFrom`, `ResolveFeedsParser`, `ResolveClearsError` and `ResolveWithoutStart` state its properties |
| Usart.FoldAppend | xmega/usart.c:113-146 | feeding the parser two runs of bytes is feeding it their concatenation |
| Usart.IterateFeeds | xmega/usart.c:87-109 | provided the input queue has room for one message per pending input byte: one iteration either feeds exactly the first input byte to the parser and queues what it completes, or leaves the input side alone; output bytes are only appended |
| Usart.FeedsTrans | xmega/usart.c:87-109 | feeding a run and then another is feeding their concatenation |
| Usart.FedStep | xmega/usart.c:87-109 | one more iteration feeds at most one more byte per unit of budget |
| Usart.FedIterate | xmega/usart.c:87-109 | provided the input queue has room for one message per pending input byte: an iteration followed by the rest of the loop feeds at most one byte per unit of budget |
| Usart.ResolveFeedsParser | xmega/usart.c:80-146 | provided the input queue has room for one message per pending input byte: `resolve_buffers` consumes a prefix of the input buffer, at most one byte per unit of budget; it feeds exactly those bytes in order to the parser and queues every message they complete; output is only appended. With a full queue a completed message is dropped and `error` set to MESSAGE_ERROR_TYPE (`InputTurn`), which this lemma does not describe |
| Usart.ResolveClearsError | xmega/usart.c:101-107 | after at least one iteration, `error` is OK |
| Usart.ResolveWithoutStart | xmega/usart.c:87-98 | without `start_ok`, each iteration takes one input byte until the budget or the input runs out, and the output buffer is left alone |
| Usart.ReportErrorQueuesMessage | xmega/usart.c:101-107 | provided the output queue has room: a pending error becomes a size-0 message of that type at the back of the output queue, and the flag is reset. With a full queue the error message is lost and only the flag is reset (`ReportError`) |
| Usart.UsartState.constructor | xmega/usart.c:40-47 | `initialize_usart`'s state: two empty buffers of the same length, both counts 0, no error |
| Usart.UsartState.WipeInBuffer | xmega/usart.c:67-70 | pending input is dropped and `in_count` is 0; `end` and everything else is unchanged |
| Usart.UsartState.WipeOutBuffer | xmega/usart.c:72-75 | pending output is dropped and `out_count` is 0; `end` and everything else is unchanged |
| Usart.UsartState.AbsorbInputByte | xmega/usart.c:120-140 | the in-place update of `m_in` and the completion test are exactly one step of the parser as written |
| Usart.UsartState.ResolveSingleInput | xmega/usart.c:113-146 | the new device state is one input step: one byte popped and parsed; a completed message queued, or MESSAGE_ERROR_TYPE when the queue is full; the count reset |
| Usart.UsartState.NextOutputByte | xmega/usart.c:153-165 | the byte chosen and the update of `m_out` and the queue are exactly one step of the serialiser |
| Usart.UsartState.ResolveSingleOutput | xmega/usart.c:149-179 | the new device state is one output step: one serialiser byte pushed (dropped when the buffer is full), and the count advanced or reset |
| Usart.UsartState.HasWorkNow | xmega/usart.c:87-89 | the loop condition read off the buffer indices is the abstract "work available" |
| Usart.UsartState.NextTurn | xmega/usart.c:92-94 | the turn computed from the indices is the turn rule on the abstract state |
| Usart.UsartState.ResolveTurn | xmega/usart.c:97-98 | dispatches to the input step or the output step |
| Usart.UsartState.ReportPendingError | xmega/usart.c:101-107 | the new state queues a pending error as a size-0 message and clears the flag |
| Usart.UsartState.Iteration | xmega/usart.c:90-108 | one pass of the loop body is one step of the scheduler specification |
| Usart.UsartState.ResolveBuffers | xmega/usart.c:80-109 | the final device state is the scheduler specification applied to the initial state and budget |
| Link.FixedFrameReadByIntendedHost | xmega/usart.c:153-165 | a fixed-length message the device sends is read by a host with the intended length test as one frame of exactly its wire length; the handler gets the data that went on the wire |
| Link.NbFrameReadByHost | ros/MILAUR_xmega_driver/src/communication.py:130-137 | an N-byte message the device sends is read by the host, as written, as one frame of exactly its wire length, and the registered handler gets its data |
| Link.NbWire | xmega/usart.c:160-165 | an N-byte message's wire form is type, size, then exactly `size` data bytes |
| Link.HostWriteParsedByDevice | ros/MILAUR_xmega_driver/src/communication.py:149-158 | what the host writes for a registered fixed-length opcode, with the payload its class calls for, is parsed by the device, as written, into exactly that message |

## Left out

- ROS plumbing (node, subscriber, publisher, `got_poll_msg`, `got_data_msg`): adapters over libraries outside this model.
- Opening the serial port and the unbounded `while True` loop: the port is a finite byte sequence, and the loop is bounded by a frame count.
- A read past the end of the stream: it blocks in the source; the model reports `Blocked` and consumes nothing.
- Python 2 string semantics: a payload is a byte sequence, and `read(0)` is the empty sequence.
- Handler bodies and `err_log`: they only print; the model keeps only the identity of the handler called.
- The `print "Data, "` in `write_packet`: output to the console, not to the link.
- Hardware register setup in `initialize_usart` and the `USARTC0.CTRLA` and `usart_busy_flag` writes in `resolve_single_output`: memory-mapped I/O.
- The interrupt handlers: their logic is `buffer_push` / `buffer_pop` plus a flag, covered by the buffer contracts; interrupt concurrency is not modelled.
- `malloc` and `free`: data buffers are sequences; a freshly allocated one is zero-filled.
- `queue_push`, `queue_pop`, `out_queue`, `start_ok` and the header constants are not part of this model; their stand-ins are described above.
- Usart.UsartState.ResolveSingleInput: requires a non-empty input buffer, as at its only call site; on an empty buffer the C code parses an uninitialised byte.
- UsartBuffer.Buffer.Pop: on an empty buffer it returns 0 as the byte, where the C code leaves the caller's variable unset.
- HostEncoder.Chr: states when `chr` succeeds, not the numeric value of the byte it returns; `MotorsExample` pins the value for 'motors'.
- An N-byte output message of size 0 is never finished by the serialiser (`offset + 1 == size` never holds); the round-trip lemmas exclude it (`DeviceFraming.Serialisable`) and do not describe that runaway.

## Findings

| source | as written | input that shows it | evidently intended | confidence | as-written member | corrected member |
|---|---|---|---|---|---|---|
| ros/MILAUR_xmega_driver/src/communication.py:118-121 | a table-length frame reads its payload only when the table length is 0 (`read(0)`); for lengths 1 and 2 it reads nothing and passes `None` | bytes 0x40, 0x05: 0x05 is decoded as a new opcode instead of as 0x40's data byte | read `n` payload bytes when `n > 0`, pass `None` otherwise | not executed | HostDecoder.TableClassDropsPayload | HostDecoder.IntendedTableFrame |
| xmega/usart.c:139 | the completion test parses as `NB ? (offset + 2) : (offset + 1 == size)`, which is non-zero for every N-byte data byte | bytes 0xC0, 0x03, d: the message is queued after its first data byte and the parser is back at count 0, so the remaining data bytes are taken as a new message | `offset + 1 == size` for every class, the test the serialiser uses at usart.c:175; in the corrected parser, an N-byte message whose length byte is 0 also completes on that byte | not executed | DeviceFraming.NbFrameCompletesEarly | DeviceFraming.CorrectedRoundTrip |

The rest of the model follows the code as written:

- The host's read loop uses `DecodeStep`.
- The device's resolver uses the parser with the completion test as written.

The corrected behaviour is the same definition with its flag set:

- `DecodeStepIntended` on the host.
- `ParseByte(…, true)` on the device.

The round trip proved for the corrected behaviour is `Link.FixedFrameReadByIntendedHost` on the host and `DeviceFraming.CorrectedRoundTrip` on the device.
