# ros2serial, modelled and proved

ros2serial connects a microcontroller to ROS 2 over a byte stream. This project models its hard parts and proves what
they promise, over all inputs and all runs:

- the **Micro-CDR buffer** (`ucdr`), with alignment, byte orders, a sticky error flag and an on-full callback that lets a
  value straddle two fragments, and the **serializers and deserializers that `make_libraries.py` emits** for a message type;
- **rosserial framing** between two parties: `publish` and the nine-mode `spinOnce` on the device, `write_message` and the
  read chain over `AsyncReadBuffer` on the server, and the **topic negotiation** on top of them;
- the **float/double conversion** for AVR boards, the **32-bit time arithmetic**, and the **XBee API frames**.

Values and pure logic are datatypes and functions. What the source updates in place is a class here: `UcdrBuffer`,
`AsyncReadBuffer`, `Receiver` and `Registry` (both parts of `Session`), `Transmitter`, `Table` and `Device` (parts of
`NodeHandle_`), `Time`, `Duration`, `Clock`, `APIFrame`, `Writer` (`SimpleCdr`). Each of their methods is proved to do to the
object's value what a function says, and the theorems are about those functions. `dafny verify dfyconfig.toml` checks all.

| file | about |
|---|---|
| Bytes, CdrFlat | bytes; the reference semantics of CDR: one flat memory, padding from the offset alone |
| CdrCursor, CdrArrays, CdrRuns | the ucdr functions on a buffer of fragments, and whole runs of calls |
| CdrBuffer | the same as a class on byte arrays |
| Messages, Alignment, MessageCode | type trees, emitted code, round trip, layout; the emitted code on the class |
| Frames | the frame format, and what it means that a dispatch is backed by a frame |
| DeviceParser, SpinOnce | the byte machine of `spinOnce` as a function; `spinOnce` itself |
| ServerChain, AsyncRead, SimpleCdr, Session | the read chain as a function; the buffer; the writer; the session |
| Outbox, NodeHandle | what `publish` sends, as a function; `publish` and the announcements |
| Routing, Slots | the session's maps; the device's tables |
| RosSide | what rclcpp writes and reads, and when it agrees with the device |
| EndToEnd | both sides together |
| AvrFloat, RosTime, XBee | the remaining parts |

Where the code does not do what one would expect, the lemmas say exactly when it does:

- `Alignment.LayoutAgrees`, `RosSide.WritersAgreeIff`: fields lie where CDR puts them, and the device writes what rclcpp
  writes, if and only if the value has no 8-byte primitive, since the device counts the 4-byte header in the alignment.
  `RosSide.DoubleFromDevice`, `RosSide.DoubleFromRos` and `EndToEnd.DoubleIsMisdelivered` say what becomes of a double.
- `Outbox.CompleteIffFits`, `Outbox.TruncatedIsSent`: `publish` ignores the CDR error flag. The payload is complete if and
  only if the layout fits; a family of messages that do not fit is sent truncated.
- `Outbox.EndsIff`: a `publish` that is not silenced returns if and only if its message leaves room for the checksum or the
  CDR buffer has 70 or more, or 9 to 11 bytes; otherwise the complaint about the dropped message calls itself for ever.
- `DeviceParser.SyncFoundIffQuiet`, `ServerChain.SyncFoundIffQuiet`: a frame behind a stray 0xff is lost. Behind noise in
  which no sync pair is recognised, both sides see the start of a frame if and only if the noise is `Quiet`.
  `AfterBadLength` (both modules): after a bad length checksum the device goes on five bytes after the frame's start and the
  server seven.
- `DeviceParser.FrameFaultsIff`: a frame takes the device out of defined behaviour if and only if its payload does not fit
  message_in or its topic is below 100 and has no branch of its own.
- `CdrRuns.AlignIsPaddingIff`: `ucdr_align_to` is the padding of the aligned calls if and only if that does not go beyond the
  current fragment.
- `SpinOnce.Device.LateBeforeWrap`: in the last 20 ms before the millisecond clock wraps around, a message whose sync byte has
  come is given up by the next call of `spinOnce`, however soon that is.
- `Routing.ServiceIsRoutedIffFirst`: if the announcement of a service's publisher is lost once, so that its subscriber is
  announced first, requests are never routed to the proxy, however often the topics are negotiated again.
- `Session.WriteMessage`: messages of 65528 bytes or more are not sent; an exception leaves the function.
  `Session.ChecksumEndsIff`: for 65536 bytes or more the checksum loop before it does not end.
- `AvrFloat.TinyIsZeroIff`: doubles below 2^-150 become zero if and only if the top 24 bits of their mantissa are zero.
  `AvrFloat.NarrowedIsNear`: rounding is to the nearest float if and only if the bits that are looked at are not all ones or
  the others make no difference.
- `RosTime.PlusAddsIff`, `RosTime.ClockIsExactIff`, `RosTime.PlusDiff`, `RosTime.SpanRestoredIff`: the conditions under which
  the 32-bit arithmetic is exact. Signed normalisation leaves a nanosecond count of exactly 10^9 alone.
- `XBee.ParseAccepts`: besides whole frames, `parse` accepts a header with a negative length that ends in 0xff.
- In `AsyncReadBuffer`, a read over the capacity leaves the request recorded; the resync that `read_failed` attempts is then
  refused, and the session stops (`Session.Receiver.Ask`), although the comment in the source expects it to go on.

## Model

| member | source | states |
|---|---|---|
| CdrCursor.ShortcutIsAlignment | rosserial_stm32/ros_lib/ucdr/common.c:172-186 | in every error-free buffer the last-data-size shortcut and the 32-bit cast give the alignment of the offset, which is the least padding |
| CdrCursor.CheckFinalAbs | rosserial_stm32/ros_lib/ucdr/common.c:35-47 | asking the callback for the next fragment changes nothing in the concatenated view; without a next fragment it sets the error |
| CdrCursor.AdvanceAbs | rosserial_stm32/ros_lib/ucdr/common.c:188-209 | advancing over fragments is a skip in the flat memory, error at its end included |
| CdrCursor.SerializeAbs | rosserial_stm32/ros_lib/ucdr/types/basic.c:56-123 | padding, whole and split placement and rollback amount to one aligned store in the flat memory |
| CdrCursor.DeserializeAbs | rosserial_stm32/ros_lib/ucdr/types/basic.c:176-244 | the same for reading a value, across fragments |
| CdrArrays.ArrayToBufferAbs | rosserial_stm32/ros_lib/ucdr/types/array.c:33-58 | the chunked copy stores the block contiguously in the flat memory, as much of it as fits |
| CdrArrays.BufferToArrayAbs | rosserial_stm32/ros_lib/ucdr/types/array.c:60-85 | the chunked copy reads a contiguous block of the flat memory |
| CdrArrays.SerializeArrayAbs | rosserial_stm32/ros_lib/ucdr/types/array.c:87-108 | block copy and element loop both refine the flat array store |
| CdrArrays.DeserializeArrayAbs | rosserial_stm32/ros_lib/ucdr/types/array.c:128-149 | likewise for reading |
| CdrRuns.SerializeSequenceAbs | rosserial_stm32/ros_lib/ucdr/types/sequence.c:42-53 | count and elements refine the flat sequence store |
| CdrRuns.DeserializeSequenceAbs | rosserial_stm32/ros_lib/ucdr/types/sequence.c:58-69 | count, capacity test and elements refine the flat sequence read |
| CdrFlat.WireIs | rosserial_stm32/ros_lib/ucdr/types/basic.c:33-65 | in the order of the little-endian machine the wire has the memory image itself, in the other the image backwards |
| CdrFlat.CountIsRead | rosserial_stm32/ros_lib/ucdr/types/sequence.c:26-36 | the count that a sequence read takes is the number of its four bytes, least significant first |
| CdrFlat.CountIsReadBackwards | rosserial_stm32/ros_lib/ucdr/types/sequence.c:26-36 | and most significant first in the opposite order |
| CdrRuns.RunRefinesFlat | rosserial_stm32/ros_lib/ucdr/common.c:28-72 | every run of calls keeps the buffer invariant (a nonzero last_data_size divides the offset) and the fragment sizes, and does what the flat reference does |
| CdrRuns.ReachableIsValid | rosserial_stm32/ros_lib/ucdr/common.c:140-209 | in every buffer that any calls, alignments and resets can reach the invariant holds, and without an error the alignment shortcut is the plain padding |
| CdrRuns.AlignIsPaddingIff | rosserial_stm32/ros_lib/ucdr/common.c:156-170 | ucdr_align_to is the padding of the aligned calls if and only if it stays in the current fragment |
| CdrRuns.LooseIsRunnable | rosserial_stm32/ros_lib/ucdr/types/basic.c:74-101 | in machine order, in the last fragment, and after an error, no value is split in the opposite byte order |
| CdrRuns.FragmentsAreInvisible | rosserial_stm32/ros_lib/ucdr/common.c:35-72 | runs over any fragments of at least 8 bytes, in machine order or splitting no value in the other, leave in their concatenation what they leave in one large buffer, read the same, agree on the error, and fill every fragment before the current one with what the one buffer holds there |
| CdrRuns.ErrorIsFinal | rosserial_stm32/ros_lib/ucdr/common.c:28-47 | once the error is set no run of calls changes contents, position or offset, or reads anything |
| CdrRuns.OverCapacityReadsNothing | rosserial_stm32/ros_lib/ucdr/types/sequence.c:26-36 | a sequence length over the capacity sets the error and no element is read |
| CdrBuffer.UcdrBuffer.constructor | rosserial_stm32/ros_lib/ucdr/common.c:113-131 | a valid buffer over a part of an array, at the given offset and byte order |
| CdrBuffer.UcdrBuffer.CheckFinalBehavior | rosserial_stm32/ros_lib/ucdr/common.c:35-47 | the value of the buffer becomes that of CheckFinal |
| CdrBuffer.UcdrBuffer.NextRoom | rosserial_stm32/ros_lib/ucdr/common.c:49-72 | how many bytes can be used at once, in the fragment that is then current |
| CdrBuffer.UcdrBuffer.AdvanceBuffer | rosserial_stm32/ros_lib/ucdr/common.c:188-209 | the loop over fragments computes Advance |
| CdrBuffer.UcdrBuffer.Reset | rosserial_stm32/ros_lib/ucdr/common.c:140-154 | to a position in the current buffer and its offset, error cleared, contents kept |
| CdrBuffer.UcdrBuffer.Align | rosserial_stm32/ros_lib/ucdr/common.c:156-170 | computes AlignTo |
| CdrBuffer.UcdrBuffer.SerializeByte | rosserial_stm32/ros_lib/ucdr/types/basic.c:22-31 | stores one byte as Serialize does; nothing outside the buffers changes |
| CdrBuffer.UcdrBuffer.SerializeValue | rosserial_stm32/ros_lib/ucdr/types/basic.c:56-123 | stores a 2-, 4- or 8-byte value as Serialize does, split over two arrays if need be, with rollback; nothing outside the buffers changes |
| CdrBuffer.UcdrBuffer.DeserializeByte | rosserial_stm32/ros_lib/ucdr/types/basic.c:142-151 | reads one byte as Deserialize does, or leaves the target alone |
| CdrBuffer.UcdrBuffer.DeserializeValue | rosserial_stm32/ros_lib/ucdr/types/basic.c:176-244 | reads a value as Deserialize does, from one or two arrays |
| CdrBuffer.UcdrBuffer.CopyToBuffer | rosserial_stm32/ros_lib/ucdr/types/array.c:33-58 | the memcpy loop computes ArrayToBuffer; nothing outside the buffers changes |
| CdrBuffer.UcdrBuffer.CopyFromBuffer | rosserial_stm32/ros_lib/ucdr/types/array.c:60-85 | the memcpy loop computes BufferToArray |
| CdrBuffer.UcdrBuffer.SerializeElements | rosserial_stm32/ros_lib/ucdr/types/array.c:87-108 | computes SerializeArray |
| CdrBuffer.UcdrBuffer.DeserializeElements | rosserial_stm32/ros_lib/ucdr/types/array.c:128-149 | computes DeserializeArray |
| CdrBuffer.UcdrBuffer.SerializeCounted | rosserial_stm32/ros_lib/ucdr/types/sequence.c:42-53 | computes SerializeSequence |
| CdrBuffer.UcdrBuffer.DeserializeCounted | rosserial_stm32/ros_lib/ucdr/types/sequence.c:26-69 | computes DeserializeSequence |
| Messages.RoundTrip | rosserial_stm32/rosserial_stm32/make_libraries.py:85-217 | for every type tree and value that serializes without an error, in either byte order, the emitted deserializer reads the value back from any buffer holding those bytes and stops at the same offset |
| Messages.FieldsRoundTrip | rosserial_stm32/rosserial_stm32/make_libraries.py:355-373 | the same for the fields of a message |
| Messages.ElemsRoundTrip | rosserial_stm32/rosserial_stm32/make_libraries.py:180-217 | the same for the element loops of arrays |
| Messages.StringRoundTrip | rosserial_stm32/rosserial_stm32/make_libraries.py:131-152 | a NUL-free string comes back from the pointer into the buffer |
| Messages.ArrayRoundTrip | rosserial_stm32/ros_lib/ucdr/types/array.c:87-149 | what the library stores of an array without an error, as a block or element by element, it reads back, in either byte order |
| Messages.SequenceRoundTrip | rosserial_stm32/ros_lib/ucdr/types/sequence.c:42-69 | likewise a sequence, count and elements, up to the capacity |
| Messages.SerAhead | rosserial_stm32/rosserial_stm32/make_libraries.py:355-363 | serialization only moves on, keeps the bytes before it and does nothing after an error |
| MessageCode.CdrSerialize | rosserial_stm32/rosserial_stm32/make_libraries.py:85-192 | the emitted serializer on the array-based buffer computes Ser; nothing outside the buffer changes |
| MessageCode.SerializeElems | rosserial_stm32/rosserial_stm32/make_libraries.py:180-192 | the emitted loop serializes the elements in order |
| MessageCode.EmitString | rosserial_stm32/ros_lib/ucdr/types/string.c:24-37 | a string is the sequence of its characters and the NUL |
| MessageCode.CdrDeserialize | rosserial_stm32/rosserial_stm32/make_libraries.py:89-217 | the emitted deserializer on the array-based buffer computes Des |
| MessageCode.DeserializeElems | rosserial_stm32/rosserial_stm32/make_libraries.py:194-217 | the emitted loop reads the elements in order and ends when one fails |
| MessageCode.SerializeHeader | rosserial_stm32/ros_lib/ros/cdr.h:81-114 | writes the encapsulation header through the buffer |
| MessageCode.DeserializeHeader | rosserial_stm32/ros_lib/ros/cdr.h:54-79 | reads the encapsulation header, false when the dummy byte is not zero |
| Alignment.HeaderBytes | rosserial_stm32/ros_lib/ros/cdr.h:81-114 | the header is the bytes 0, 1, 0, 0 |
| Alignment.LayoutAgrees | rosserial_stm32/ros_lib/ucdr/common.c:179-186 | behind the header all field offsets agree with CDR if and only if no 8-byte primitive is written (section 9.3 of CORBA 3.3 Part 2) |
| Alignment.SerFollowsLayout | rosserial_stm32/rosserial_stm32/make_libraries.py:355-363 | without an error the serializer ends where the layout ends |
| Alignment.SerLaysOut | rosserial_stm32/rosserial_stm32/make_libraries.py:355-363 | without an error the wire bytes of every primitive and every string lie exactly at their offsets in the layout |
| Alignment.SerLaysOutPlainly | rosserial_stm32/ros_lib/ucdr/types/basic.c:62-65 | in machine order the memory image of every primitive itself lies at its offset, and of every string and array count the four bytes of its number |
| Alignment.StringOnWire | rosserial_stm32/ros_lib/ucdr/types/string.c:24-37 | the bytes of a string by value: count with the NUL, characters, NUL |
| Alignment.ArrayCountLies | rosserial_stm32/rosserial_stm32/make_libraries.py:182-185 | in front of a variable array lies its number of elements, by value |
| Alignment.SerFits | rosserial_stm32/ros_lib/ucdr/types/basic.c:103-123 | serialization ends without an error if and only if the layout fits the memory |
| Frames.FrameBytes | rosserial_server/include/rosserial_server/session.h:343-353 | every byte of a frame by value: sync, length, topic id, payload, and the two checksums by the sums they complete |
| DeviceParser.StepInv | rosserial_stm32/ros_lib/ros/node_handle.h:245-374 | each byte keeps the machine at the frame prefix that the history ends with (in MODE_MESSAGE bytes_ > 0 and index_ + bytes_ is the declared length), and a dispatch is backed by the frame that ends with this byte |
| DeviceParser.FeedSound | rosserial_stm32/ros_lib/ros/node_handle.h:226-376 | on every byte stream, each dispatch is backed by exactly one well-formed frame for its topic and payload, and frames do not overlap |
| DeviceParser.SpinSound | rosserial_stm32/ros_lib/ros/node_handle.h:203-376 | the same over every run of spinOnce calls, message timeouts included |
| DeviceParser.FeedFrame | rosserial_stm32/ros_lib/ros/node_handle.h:245-374 | a frame with a dispatchable topic that fits message_in is dispatched once, byte for byte, and left in message_in |
| DeviceParser.FeedStream | rosserial_stm32/ros_lib/ros/node_handle.h:226-376 | any sequence of frames with quiet noise between them is dispatched exactly once each, in order |
| DeviceParser.SplitIsInvisible | rosserial_stm32/ros_lib/ros/node_handle.h:203-388 | how the bytes are split over calls does not matter as long as no message times out |
| DeviceParser.SpinComplete | rosserial_stm32/ros_lib/ros/node_handle.h:203-388 | completeness over any split into calls |
| DeviceParser.SpinCompletePlain | rosserial_stm32/ros_lib/ros/node_handle.h:203-388 | in particular with noise free of 0xff |
| DeviceParser.FrameFaultsIff | rosserial_stm32/ros_lib/ros/node_handle.h:246-252 | a frame with a valid topic makes the code write behind message_in, or use a slot below zero, if and only if its payload is longer than message_in or its topic is below 100 and not special |
| DeviceParser.SyncFoundIffQuiet | rosserial_stm32/ros_lib/ros/node_handle.h:254-283 | behind noise without a sync pair a frame start is recognised if and only if the noise is quiet |
| DeviceParser.AfterBadLength | rosserial_stm32/ros_lib/ros/node_handle.h:284-306 | after a bad length checksum the machine hunts from the next byte on |
| SpinOnce.ElapsedIs | rosserial_stm32/ros_lib/ros/node_handle.h:209-212 | the timers measure how much later it is, across wraparound of the clock |
| SpinOnce.Device.LateIff | rosserial_stm32/ros_lib/ros/node_handle.h:216-223 | a message is given up if and only if a call begins more than 20 ms after the call with its sync byte, as long as the clock does not wrap around |
| SpinOnce.Device.LateBeforeWrap | rosserial_stm32/ros_lib/ros/node_handle.h:216-223 | in the last 20 ms before it wraps around, every message is given up by the next call |
| SpinOnce.RequestSays | rosserial_stm32/ros_lib/ros/node_handle.h:399-404 | both fields of the time request are 0x78563412 |
| SpinOnce.Device.Enter | rosserial_stm32/ros_lib/ros/node_handle.h:207-223 | the timeouts at the start: a configured node that is entered d ms after its last sync stays configured if and only if d <= 4400, across wraparound of the clock; and when the message under way is given up |
| SpinOnce.Device.Leave | rosserial_stm32/ros_lib/ros/node_handle.h:378-385 | the time is asked for if and only if the node is configured and it is more than 2000 ms later, across wraparound of the clock |
| SpinOnce.Device.Take | rosserial_stm32/ros_lib/ros/node_handle.h:244-336 | one byte on the fields and message_in does what the pure machine does |
| SpinOnce.Device.Handle | rosserial_stm32/ros_lib/ros/node_handle.h:254-283 | the effects besides the machine: what is logged, when spinOnce returns, the whole change of configured_, of the wire and of the message timeout, the readings of the clock, and that hunting ends exactly after more than 2000 ms |
| SpinOnce.Device.Dispatch | rosserial_stm32/ros_lib/ros/node_handle.h:333-374 | the branches for the special ids, and whose callback is called for any other |
| SpinOnce.Device.SubscriberIsCalled | rosserial_stm32/ros_lib/ros/node_handle.h:363-371 | a message under the id that a subscriber was registered with is for that subscriber |
| SpinOnce.Device.SpinOnce | rosserial_stm32/ros_lib/ros/node_handle.h:203-388 | for any input and clock readings, machine and dispatches are those of the pure machine on the bytes consumed, which are all unless the time is up or the topics were asked for; the subscribers called are those in the slots of the topics dispatched, in order; the wire grows by whole frames only; SPIN_ERR exactly on a request for topics, which is answered in full; otherwise the node is configured afterwards only if it was, in time, and was not told to stop |
| SpinOnce.Device.RequestSyncTime | rosserial_stm32/ros_lib/ros/node_handle.h:399-406 | publishes the time request |
| SpinOnce.Device.NegotiateTopics | rosserial_stm32/ros_lib/ros/node_handle.h:492-521 | publishes the announcements of both tables, publishers first, and the node is configured |
| ServerChain.ChunksAreInvisible | rosserial_server/include/rosserial_server/session.h:218-322 | wherever the hardware cuts the byte stream, stage, unread bytes and dispatches are those of the whole stream |
| ServerChain.ReactInv | rosserial_server/include/rosserial_server/session.h:222-322 | each callback keeps the chain at the frame prefix that the history ends with |
| ServerChain.ChainSound | rosserial_server/include/rosserial_server/session.h:218-322 | on every byte stream, each dispatch is backed by one well-formed frame, and frames do not overlap |
| ServerChain.ChainFrame | rosserial_server/include/rosserial_server/session.h:247-322 | a whole frame is dispatched once, byte for byte |
| ServerChain.ChainStream | rosserial_server/include/rosserial_server/session.h:218-322 | any sequence of frames that fit, with quiet noise between them, is dispatched exactly once each, in order |
| ServerChain.SyncFoundIffQuiet | rosserial_server/include/rosserial_server/session.h:222-245 | behind noise without a sync pair a frame start is recognised if and only if the noise is quiet |
| ServerChain.AfterBadLength | rosserial_server/include/rosserial_server/session.h:247-258 | after a bad length checksum the chain goes on seven bytes after the start of the frame |
| AsyncRead.AsyncReadBuffer.Read | rosserial_server/include/rosserial_server/async_read_buffer.h:208-271 | each outcome and when it happens; a hardware read always has room for what is still needed; delivered is the front of the queue; nothing is lost or reordered |
| AsyncRead.AsyncReadBuffer.Completed | rosserial_server/include/rosserial_server/async_read_buffer.h:294-342 | whatever the hardware gives is queued behind, and the request is served from the front |
| AsyncRead.AsyncReadBuffer.Succeed | rosserial_server/include/rosserial_server/async_read_buffer.h:348-378 | hands out the requested bytes and keeps the rest |
| AsyncRead.AsyncReadBuffer.Shift | rosserial_server/include/rosserial_server/async_read_buffer.h:250-255 | the memmove keeps the queue |
| AsyncRead.AsyncReadBuffer.Failed | rosserial_server/include/rosserial_server/async_read_buffer.h:296-312 | an error clears the request and is reported unless the read was aborted |
| Session.Receiver.OnBytes | rosserial_server/include/rosserial_server/session.h:218-322 | for every stream and every way the hardware chunks it, the session's stage, queue and dispatches equal those of the pure chain on all bytes received |
| Session.Receiver.Callback | rosserial_server/include/rosserial_server/session.h:222-322 | the callback at each stage does what React says |
| Session.Receiver.Ask | rosserial_server/include/rosserial_server/session.h:324-335 | the next read is served, waits for the hardware, or, over the capacity, ends in a stopped session |
| Session.ChecksumOf | rosserial_server/include/rosserial_server/session.h:467-481 | where it ends, the wrapping byte sum is the sum modulo 256 |
| Session.ChecksumEndsIff | rosserial_server/include/rosserial_server/session.h:467-481 | the loop with its 16-bit counter ends if and only if the buffer has fewer than 65536 bytes |
| Session.WriteMessage | rosserial_server/include/rosserial_server/session.h:343-368 | exactly the frame for topic and message, or an exception if and only if the frame length exceeds 16 bits |
| SimpleCdr.Writer.PutBytes | rosserial_server/include/rosserial_server/simplecdr.h:37-44 | appends the bytes if and only if there is space, else writes nothing |
| SimpleCdr.Writer.PutU16 | rosserial_server/include/rosserial_server/simplecdr.h:28-35 | appends low byte and high byte if and only if there is space |
| SimpleCdr.Writer.PutByte | rosserial_server/include/rosserial_server/simplecdr.h:20-26 | appends the byte if and only if there is space |
| Outbox.CompleteIffFits | rosserial_stm32/ros_lib/ros/node_handle.h:535-542 | the CDR error flag is clear if and only if the layout fits the buffer, and then the payload reaches exactly to its end |
| Outbox.ComplaintIsSentIff | rosserial_stm32/ros_lib/ros/node_handle.h:562-575 | the complaint about a dropped message goes out if and only if the CDR buffer has 70 or more, or 9 to 11 bytes |
| Outbox.EndsIff | rosserial_stm32/ros_lib/ros/node_handle.h:562-575 | publish returns if and only if its message or the complaint goes out; otherwise it calls itself at every depth |
| Outbox.PublishingStreams | rosserial_stm32/ros_lib/ros/node_handle.h:523-576 | every call adds a stream of well-formed frames: none, the message with exactly the bytes serialized, or the complaint |
| Outbox.ResultIsLength | rosserial_stm32/ros_lib/ros/node_handle.h:564-575 | the result is the number of bytes written, -1 for a dropped message, 0 for a silenced one |
| Outbox.ComplaintSays | rosserial_stm32/ros_lib/ros/node_handle.h:573 | level and text of the complaint, by value |
| Outbox.TopicOf | rosserial_stm32/ros_lib/ros/node_handle.h:550-551 | an id of 16 bits goes out as itself |
| Outbox.PayloadDecodes | rosserial_stm32/ros_lib/ros/node_handle.h:535-542 | a receiver with the payload at the start of its buffer reads header and value back |
| Outbox.TruncatedIsSent | rosserial_stm32/ros_lib/ros/node_handle.h:540-570 | messages that leave one byte for their last field are sent although the error flag is set |
| NodeHandle.Transmitter.Encode | rosserial_stm32/ros_lib/ros/node_handle.h:534-542 | message_out behind its header holds the encapsulated serialization, error flag included |
| NodeHandle.Transmitter.Transmit | rosserial_stm32/ros_lib/ros/node_handle.h:555-569 | the wire gets exactly one frame for topic and payload |
| NodeHandle.Transmitter.Publish | rosserial_stm32/ros_lib/ros/node_handle.h:523-576 | for every id, type and value: nothing while not configured, else one frame of the message, else one frame of the complaint; result code and termination |
| NodeHandle.AnnounceTable | rosserial_stm32/ros_lib/ros/node_handle.h:496-519 | one TopicInfo for every slot that is taken, in slot order |
| Slots.Table.Register | rosserial_stm32/ros_lib/ros/node_handle.h:444-472 | the first empty slot is taken and the id set to match it, false if there is none; every registered id leads back to its own slot |
| Slots.Table.ViewIsOwn | rosserial_stm32/ros_lib/ros/node_handle.h:444-472 | what every registration keeps is what the routing lemmas ask of a table |
| Slots.TablesAreCoherent | rosserial_stm32/ros_lib/ros/node_handle.h:444-472 | ids are from 100 on, and two announcements with one id are the same |
| Slots.InfoIsReported | rosserial_stm32/ros_lib/ros/node_handle.h:500-505 | the announcement and the buffer size read from a TopicInfo are those that were made |
| Slots.RoutingAgreement | rosserial_server/include/rosserial_server/session.h:490-644 | after one full negotiation, and whatever is announced again later, each publisher id maps to the handler for its slot, each service proxy replies to its subscriber slot, and the setup handlers are in place |
| Routing.SetupsAreKept | rosserial_server/include/rosserial_server/session.h:113-133 | no run of announcements with ids from 100 on rebinds a setup handler |
| Routing.HandlersAreKept | rosserial_server/include/rosserial_server/session.h:120-129 | after any such run exactly the ids 0 to 5, 7 and 10 are bound below 100, each to its own handler: 7 to the log, 10 to the time |
| Routing.EndpointIs | rosserial_stm32/ros_lib/ros/service_server.h:54-79 | the ids that announcements are sent under, by number |
| Routing.UnpairedSendsNowhere | rosserial_server/include/rosserial_server/topic_handlers.h:155-162 | as long as no subscriber of its service was announced, a proxy sends to id 65535 |
| Routing.TopicIsRouted | rosserial_server/include/rosserial_server/session.h:490-509 | an announced topic publisher reaches the handler for its topic, whatever was announced before |
| Routing.ServiceIsRoutedIffFirst | rosserial_server/include/rosserial_server/session.h:541-644 | a service publisher's id is bound to its proxy if and only if it was the first announcement of the service |
| Routing.ServiceRepliesTo | rosserial_server/include/rosserial_server/session.h:569-644 | a proxy sends to the id of the subscriber announced for its service |
| Routing.NegotiationRoutes | rosserial_server/include/rosserial_server/session.h:490-644 | publishers first, then subscribers, then anything coherent: everything is routed |
| Routing.Registry.constructor | rosserial_server/include/rosserial_server/session.h:113-133 | the setup handlers of a started session |
| Routing.Registry.Stop | rosserial_server/include/rosserial_server/session.h:135-163 | an active session forgets everything, once, and sends the frame that stops the device |
| Routing.Registry.SetupPublisher | rosserial_server/include/rosserial_server/session.h:490-509 | binds the id to a new handler, or changes nothing if it cannot be made |
| Routing.Registry.SetupSubscriber | rosserial_server/include/rosserial_server/session.h:511-533 | records the subscription, or changes nothing if it cannot be made |
| Routing.Registry.SetupClientPublisher | rosserial_server/include/rosserial_server/session.h:541-567 | makes and binds the proxy only if there is none for the name |
| Routing.Registry.SetupClientSubscriber | rosserial_server/include/rosserial_server/session.h:569-592 | likewise, and sets where the proxy replies |
| Routing.Registry.SetupServerPublisher | rosserial_server/include/rosserial_server/session.h:597-618 | makes and binds the proxy only if there is none for the name |
| Routing.Registry.SetupServerSubscriber | rosserial_server/include/rosserial_server/session.h:620-644 | likewise, and sets where the proxy sends |
| Routing.Registry.AnnouncedAll | rosserial_server/include/rosserial_server/session.h:283-288 | a run of announcements, each through the handler bound to its id, leaves the maps of the pure run |
| RosSide.WritersAgreeIff | rosserial_stm32/ros_lib/ros/cdr.h:81-114 | the payloads that rclcpp and the device write for a value are equal if and only if it has no 8-byte primitive; otherwise their lengths differ by four |
| RosSide.RosReadsDevice | rosserial_server/include/rosserial_server/topic_handlers.h:78-86 | what the device published, a reader that aligns from behind the header reads, without 8-byte primitives |
| RosSide.DeviceReadsRos | rosserial_stm32/ros_lib/ros/node_handle.h:363-369 | what such a writer wrote, the device reads, without 8-byte primitives |
| RosSide.DoubleIsMisread | rosserial_stm32/ros_lib/ucdr/common.c:179-186 | of one payload the device takes bytes 8 to 16 for a double and rclcpp bytes 4 to 12 |
| RosSide.DoubleFromDevice | rosserial_stm32/ros_lib/ucdr/common.c:179-186 | a double from the device is read as itself by rclcpp if and only if its halves and the padding are equal |
| RosSide.DoubleFromRos | rosserial_stm32/ros_lib/ucdr/common.c:179-186 | a double from rclcpp is read as itself by the device if and only if its halves and what lies behind the payload are equal |
| EndToEnd.DeviceToServer | rosserial_stm32/ros_lib/ros/node_handle.h:523-576 | whatever the device publishes in a run, fitting or not, configured or not, the server chain dispatches exactly the frames sent, once each and in order; under id modulo 2^16 with exactly the bytes serialized, or one complaint; each message that may be sent and fits is one frame under its id, whose payload the device's code reads back, and rclcpp too unless it has an 8-byte primitive |
| EndToEnd.ServerToDevice | rosserial_server/include/rosserial_server/session.h:343-353 | what rclcpp writes is dispatched once on the device, byte for byte, and read from message_in as the value unless it has an 8-byte primitive |
| EndToEnd.DoubleIsMisdelivered | rosserial_server/include/rosserial_server/session.h:343-353 | every double with unequal halves is read from message_in as another value |
| EndToEnd.Relay | rosserial_server/include/rosserial_server/session.h:343-368 | the same through write_message, with its exception |
| EndToEnd.ToldIsApplied | rosserial_server/include/rosserial_server/session.h:283-302 | processing dispatched announcements, each through the callback of its topic, applies them one after the other |
| EndToEnd.PublisherIsHeard | rosserial_stm32/ros_lib/ros/publisher.h:53-56 | once the negotiation was processed, a fitting message of a registered publisher is dispatched once, under the id of its slot, to the callback made for that slot, and decodes to the value |
| EndToEnd.TimeRequestIsHeard | rosserial_server/include/rosserial_server/session.h:660-695 | the time request is dispatched to the handler for the time, after any run of announcements |
| EndToEnd.ComplaintIsHeard | rosserial_server/include/rosserial_server/session.h:646-658 | what is sent in place of a message that is too long is dispatched to the handler for the log, and decodes to the complaint where that fits |
| EndToEnd.StopIsHeard | rosserial_server/include/rosserial_server/session.h:157-159 | the frame of a stopping session is dispatched once by an idle device, as topic 11 |
| EndToEnd.NegotiationAgrees | rosserial_stm32/ros_lib/ros/node_handle.h:492-521 | the announcements on the wire are dispatched and read as they were made, buffer sizes included, and processing what was dispatched leaves the session's maps in agreement with both tables |
| AvrFloat.Serialize | rosserial_stm32/ros_lib/ros/msg.h:66-113 | for every bit pattern, the eight bytes of the double Widened, denormal loop included |
| AvrFloat.Deserialize | rosserial_stm32/ros_lib/ros/msg.h:127-185 | for every eight bytes, the bit pattern of the float Narrowed |
| AvrFloat.WidenedIsExact | rosserial_stm32/ros_lib/ros/msg.h:71-99 | for every finite float the double denotes the same real number |
| AvrFloat.WidenedSpecial | rosserial_stm32/ros_lib/ros/msg.h:76-79 | the double is infinite, or a NaN, if and only if the float is |
| AvrFloat.RoundTrip | rosserial_stm32/ros_lib/ros/msg.h:66-185 | every 32-bit pattern comes back through the eight bytes, the sign cleared only for -0.0 and negative NaNs |
| AvrFloat.NarrowedIsNear | rosserial_stm32/ros_lib/ros/msg.h:127-185 | less than one ulp away for all doubles down to 2^-150, and at most half an ulp under an exact condition |
| AvrFloat.UnitIsUlp | rosserial_stm32/ros_lib/ros/msg.h:145-176 | the unit of NarrowedIsNear is the ulp of the resulting float |
| AvrFloat.TinyIsZeroIff | rosserial_stm32/ros_lib/ros/msg.h:158-161 | a double too small for a float becomes zero if and only if the top bits of its mantissa are zero |
| AvrFloat.TinyIsTiny | rosserial_stm32/ros_lib/ros/msg.h:158-161 | doubles in that branch are below 2^-150, so that zero is the nearest float |
| AvrFloat.LargeIsInfinite | rosserial_stm32/ros_lib/ros/msg.h:145-153 | beyond the floats the result is infinite; a NaN stays one if and only if its top bits say so |
| RosTime.Time.Normalize | rosserial_stm32/ros_lib/time.cpp:39-45 | normalizeSecNSec in place |
| RosTime.NormalizedKeeps | rosserial_stm32/ros_lib/time.cpp:39-45 | nanoseconds end below 10^9 and the instant is kept modulo 2^32 seconds |
| RosTime.Time.Add | rosserial_stm32/ros_lib/time.cpp:55-61 | += in place, with all wraparounds |
| RosTime.Time.Subtract | rosserial_stm32/ros_lib/time.cpp:63-68 | -= in place, with all wraparounds |
| RosTime.Time.Minus | rosserial_stm32/ros_lib/time.cpp:70-78 | the difference, from unsigned operands |
| RosTime.PlusAddsIff | rosserial_stm32/ros_lib/time.cpp:55-61 | += adds if and only if the nanoseconds with the borrowed second fit 32 bits |
| RosTime.LessSubtractsIff | rosserial_stm32/ros_lib/time.cpp:63-68 | -= subtracts if and only if the same holds |
| RosTime.PlusLess | rosserial_stm32/ros_lib/time.cpp:55-68 | (t += d) -= d restores t, across wraparound |
| RosTime.DiffIsElapsed | rosserial_stm32/ros_lib/time.cpp:70-78 | the difference is the elapsed time modulo 2^32 seconds, in canonical form |
| RosTime.PlusDiff | rosserial_stm32/ros_lib/time.cpp:55-78 | (t + d) - t equals d if and only if d is canonical, and always has its total, unless a carry meets the largest int32 |
| RosTime.NormalizeSigned | rosserial_stm32/ros_lib/duration.cpp:40-57 | the two loops keep the total, end within 0..10^9, and say when they end in 10^9 |
| RosTime.NormalSpansFit | rosserial_stm32/ros_lib/duration.cpp:59-73 | sums and differences of normalised nanoseconds stay within int32 |
| RosTime.Duration.Add | rosserial_stm32/ros_lib/duration.cpp:59-65 | += in place |
| RosTime.Duration.Subtract | rosserial_stm32/ros_lib/duration.cpp:67-73 | -= in place |
| RosTime.SpanArithmetic | rosserial_stm32/ros_lib/duration.cpp:59-73 | results are normalised and totals add and subtract |
| RosTime.SpanRestoredIff | rosserial_stm32/ros_lib/duration.cpp:59-73 | (a += b) -= b restores a if and only if a is canonical or b has no nanoseconds |
| RosTime.Clock.Now | rosserial_stm32/ros_lib/ros/node_handle.h:421-429 | the time shown at a tick |
| RosTime.Clock.SetNow | rosserial_stm32/ros_lib/ros/node_handle.h:431-437 | the offset after setNow at a tick |
| RosTime.Clock.SyncTime | rosserial_stm32/ros_lib/ros/node_handle.h:408-419 | the offset after syncTime |
| RosTime.ClockIsExactIff | rosserial_stm32/ros_lib/ros/node_handle.h:421-437 | now shows the set time plus the ticks in between, modulo 2^32 seconds, if and only if setNow had room for the nanoseconds, as it always has below 2 * 10^9 |
| RosTime.SyncIsExact | rosserial_stm32/ros_lib/ros/node_handle.h:408-437 | syncTime makes up for the ticks between request and use |
| XBee.RoundTrip | pending/rosserial_xbee/src/xbee/base.py:102-143 | for every payload up to 32767 bytes, escaped or not, behind any start-byte-free prefix, the reader returns exactly the payload and stops at the end of the frame |
| XBee.AllAreRead | pending/rosserial_xbee/src/xbee/base.py:102-143 | sequences of frames are read exactly once each, in order |
| XBee.OutputIsTransparent | pending/rosserial_xbee/src/xbee/frame.py:82-121 | in escaped mode the start byte occurs only as the frame start, and XON and XOFF never |
| XBee.OutputBytes | pending/rosserial_xbee/src/xbee/frame.py:72-102 | every byte of an unescaped frame by value |
| XBee.OutputEscaped | pending/rosserial_xbee/src/xbee/frame.py:94-102 | an escaped frame is the same, escaped behind its start byte |
| XBee.EscapedByte | pending/rosserial_xbee/src/xbee/frame.py:105-121 | what stands for each special byte, by value |
| XBee.EscapedBytes | pending/rosserial_xbee/src/xbee/frame.py:105-121 | and bytes are escaped one by one |
| XBee.ParseAccepts | pending/rosserial_xbee/src/xbee/frame.py:156-179 | parse accepts exactly whole frames and headers with a negative length that end in 0xff |
| XBee.WaitSound | pending/rosserial_xbee/src/xbee/base.py:102-143 | on every input, what the reader returns was made of the bytes since some start byte and accepted by parse |
| XBee.WaitForFrame | pending/rosserial_xbee/src/xbee/base.py:102-143 | the loop with its mode and frame computes Wait |
| XBee.EscapeAll | pending/rosserial_xbee/src/xbee/frame.py:105-121 | the loop computes Escaped |
| XBee.APIFrame.Emit | pending/rosserial_xbee/src/xbee/frame.py:82-102 | the bytes of a new frame, or an exception if and only if the length is over 32767 |
| XBee.APIFrame.FillByte | pending/rosserial_xbee/src/xbee/frame.py:123-139 | adds, unescapes or remembers an escape as Fill does |
| XBee.APIFrame.ParseRaw | pending/rosserial_xbee/src/xbee/frame.py:156-179 | data and verdict of Parse, or another exception if and only if the length field is missing |
| XBee.APIFrame.Checksum | pending/rosserial_xbee/src/xbee/frame.py:29-47 | the byte that brings the sum to 0xff |
| XBee.APIFrame.Verify | pending/rosserial_xbee/src/xbee/frame.py:49-70 | true for exactly that byte |

## Left out

- CdrCursor.SerializeAbs, CdrBuffer.UcdrBuffer.SerializeValue and all that is built on them: a value in the opposite byte order that is split over two fragments is outside the preconditions, because that branch of ucdr/types/basic.c writes behind the fragment.
- The return values of the sequence functions, which are true for length 0 even after a failed header: the lemmas speak of the error flag.
- Two message shapes that the emitted code does not handle: fixed arrays of strings (the emitted name loses its brackets) and variable arrays whose elements hold variable arrays (they would share one inner array). realloc and the scratch element of variable arrays are not modelled.
- Messages.DesString: a string length of zero or beyond the buffer would make the emitted code look outside it; the model ends there with a failed read.
- MessageCode.CdrDeserialize: a variable array whose count cannot be read leaves an uninitialised count in the emitted code; the model ends there with a failed read.
- SpinOnce.Device.SpinOnce: requires that declared lengths fit message_in and that a topic below 100 is a special id, since the code leaves defined behaviour otherwise; checksum_ does not overflow in the model.
- SpinOnce.Device.Dispatch: what the callbacks of subscribers do, publishing included, is foreign code, and the time of an ID_TIME message is modelled in RosTime.Clock.SyncTime rather than read from the buffer there.
- NodeHandle.Transmitter.Publish: requires what Outbox.EndsIff shows to be needed for its return, and output sizes below 65536 bytes, because the header has 16 bits for the length.
- Session.ChecksumOf, Session.WriteMessage, Session.Receiver: buffers below 65536 bytes, because the checksum loop does not end otherwise (Session.ChecksumEndsIff); the capacity in the source is 8191.
- Routing.Registry: the names of topics that the session keeps for its log messages.
- AsyncRead.AsyncReadBuffer.Read: the retry counter is a static variable shared by all sessions in the source, and a field here. Bytes that its reset drops after a fourth refused read are outside the conservation statement.
- Session: counting unrecognised topics, the sync watchdog, the timers, and the socket.
- Routing.Registry.AnnouncedAll: ROS can make every handler; handlers that cannot be made are in the contracts of the single setup functions.
- rclcpp, asio, message lookup, MD5 warnings and logging are foreign calls. Handlers are tokens; rclcpp's serialization is represented by plain little-endian CDR, read and written as in RosSide. Its strings may hold NUL characters, which the model's values do not.
- Waiting and timeouts of service calls, which depend on threads.
- Parsing of .msg and .srv text, header text, and copying of files.
- fastcdr.h and serialization.h, which the node does not use; ring buffers and board headers; the copies under pending/.
- Duration scaling by double, toSec and fromSec: native floating point.
- XBee `_split_response` and `_build_command`: table-driven and easy.
