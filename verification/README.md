# Fish, modelled and verified in Dafny

Fish is a C++ network and RPC framework. This project models the parts of it whose correctness
spans several functions or a whole run, and proves what they keep.

| core | model and proofs | classes over the same state |
|---|---|---|
| io_uring loop and connection life cycle | `RingModel`, `RingProofs`, `RingRounds` | `UringLoop` (`Uring.dfy`) |
| bytes given to `Channel::send` | `SendPath` | `SendPath.ChannelBuffers` |
| loop and buffers together | `Network` | |
| growing read and write buffer | `BufferModel` | `NetBuffer` (`Buffer.dfy`) |
| binary serializer | `Bytes`, `SerialModel`, `SerialProofs`, `SerialOrder`, `StandardOrder`, `SerialAsWritten` | `SerializerClass` (`Serializer.dfy`) |
| remote call dispatch and type descriptors | `Dispatch`, `Descriptor` | `Dispatch.RpcProvider`, `Descriptor.ParaMes` |
| asynchronous log pipeline | `LogModel`, `LogProofs` | `LogPipeline` (`LogThread.dfy`) |
| log lines, numbers, file names | `LogLine` (`LogStream.dfy`), `Digits` | `LogLine.LogStream`, `Digits.LogFile` |
| timer wheel | `TimerModel`, `TimerProofs` | `TimerWheel` (`Timer.dfy`) |
| loop with temporary tasks | `LoopModel`, `LoopProofs` | `TempTaskLoop` (`Loop.dfy`) |

Each concurrent part is a state machine: a state, the steps the environment and the code can take,
and `Exec` over any sequence of steps. A step that is not enabled does not happen, so a lemma about
every sequence of steps is a lemma about every interleaving. An assertion of the source on the state
a machine holds is an outcome of that machine, and safety is that no run has it. `RingModel` holds
the table, the flags and the slots; the assertions inside a channel's buffers are outcomes of
`SendPath` and `Network`, which say exactly which completions fail them.

Beside each machine but `Network` stands the object the program updates, as a class: its methods
change the fields the way the source does, loop by loop, and a ghost copy of the machine's state
shows that each method takes exactly the step, or the steps, the machine has for it. What is proved
about runs therefore holds of the classes.

`Sequences` and `Wrappers` hold what several modules share. `dafny verify dfyconfig.toml` checks
the project.

## How the code is read

- One step is one critical section, one completion or one call. `Channel::send` on a live channel,
  the body of `apendMessage`, `beginInCurrentThread`'s three checks and one tick's collection are
  atomic. The explicit unlock at `source/base/log/log_thread.cpp:69` is read as releasing the guard.
- A coroutine is its control state: armed, resumed or finished. `newChannel->task() = ...`
  (`source/net/uring_io.cpp:323`) is read as storing it.
- In `RingModel` the test at `source/net/uring_io.cpp:136` is a free choice "more data"; every
  invariant there holds for both answers. `SendPath` has it as meant, a test of the send buffer, and
  as written, a test of the read buffer's free window; in `Network` the answer is always the one the
  code computes.
- Kernel answers, clock readings, the order of completions and what callbacks do are parameters.
- Division and remainder truncate towards zero where the operands can be negative (`Digits`,
  `TimerModel`). 32-bit and 64-bit conversions are written out where they can matter (`BufferModel`,
  `LogLine`).
- Floating-point numbers in the serializer are 4- and 8-byte patterns.

## What the code does not do, and when it does

Where the code falls short of what it is for, the model keeps the code, and a lemma says exactly
when the two agree.

- A write completion looks at the read buffer's free window to see whether to send more, and sends
  that window. It reaches `reduseSend` exactly when the read buffer stands on its last byte
  (`DrainsExactly`). Anywhere else the bytes of the window follow the ones given to `send`, and
  taking one of them fails the assertion in `eraseData`: one outstanding write is safe exactly in
  that position (`WindowExactly`), and with reads going on in between only if the buffer has a
  single byte (`EverySendCanFail`). `SecondWriteFails` finds the failing run from every state of the
  loop with one write in the kernel.
- A completion that asks for a further write never gives its slot back. Every slot is back when
  nothing is in flight exactly if no completion found the read buffer off its last byte
  (`SlotsAsWritten`; `SlotsComeBack` for any test), and after `queue_size - 1` such completions
  nothing is ever issued again (`StalledAsWritten`, `StalledForever`, `StallExample`).
- A failed write is passed on as a length: bytes already sent come back into the send buffer, or its
  read index leaves the array, and no assertion says so. The line stays orderly exactly for results
  that are no errors (`ResultExactly`).
- `Channel::send` asks for everything the send buffer holds, also while an earlier request for the
  same bytes is outstanding. With the test as meant the bytes arrive once and in order exactly when
  each send finds `sendFlag_` at 0 (`SendExactly`).
- `Buffer::input` sets the write index to the new size when it grows, and then copies outside. It
  is right exactly when it need not grow (`BufferModel.AsWrittenExactly`). After growth the array is
  full and the length `disWrite` computes wraps around (`FullAfterGrowth`, `WindowInside`). `eraseData` and
  `already` compute with lengths cast to int, which can wrap around (`EraseExactly`,
  `EraseExamples`, `AlreadyExactly`).
- `output_string` copies into a string it never gives a size. Reading any object of a supported type
  leaves the object with every text emptied, or overruns the storage of the empty string
  (`ReadsBlank`). An object reads back exactly if it has no character in it (`TextsAreLost`), and
  all objects of a type do exactly if the type is supported and has no text (`RoundTripAsWritten`).
- Set-like containers read their elements with `output`, which knows scalars and strings only. Even
  with `output_string` repaired, the round trip holds for every object of a type exactly if the type
  has no other set elements (`RoundTripExactly`).
- `findType` describes the second part of a pair or map with the type of the first: two types share
  a descriptor exactly when they agree up to second parts (`AsWrittenTellsApart`).
- The collection loop of a timer tick steps over the element behind an erased one. It collects what
  is due exactly when a task that is not due stands behind each due one
  (`TimerProofs.AsWrittenExactly`). The slot is a quotient where the comment asks for a remainder;
  both are in range, and they agree exactly in two cases (`SlotIsIntended`). Lateness does not depend
  on the slot chosen.
- A second thread can begin a closed loop while the first still runs its batch. Tasks run in the
  order of adding exactly if nobody was inside (`OrderNeedsOneThread`).
- Within a batch the log file holds the blocks newest first; the file is in the order of appending
  exactly when no swap took more than one block (`FileOrder`). The overflow notice keeps
  `sizeof` a pointer, 8 characters, of its text, and discards the block being filled, not the
  oldest one as the comment beside it says. `apendMessage` does not look whether a chunk fits
  (`AppendFits`), and the guard of `writeIn` wraps around (`LogStream.WriteIn`).

## Model

| member | source | states |
|---|---|---|
| RingProofs.StepKeeps | source/net/uring_io.cpp:102-150 | every step of loop, user or kernel from a state of the invariant passes the assertions on table and flags and leads to such a state: queues, in-flight requests, flags and table agree; what completions do to the buffers is in Network.StepKeeps |
| RingProofs.RunsAreSafe | source/net/uring_io.cpp:161-274 | in every run no lookup or flag assertion fails, at most queue_size - 1 entries are prepared between two submits, what is taken from each queue is a prefix of what was queued, and the entries of each kind prepared since the last submit are, in order, what was taken last |
| RingProofs.EveryChannelCounted | source/net/channel.cpp:10-51 | in every run, for every channel: sendFlag is its queued plus in-flight writes, it has exactly one read pending until a close is asked for and none after, no request names a descriptor outside the table, and each identity is in the table or was closed exactly once |
| RingProofs.ClosedOnceAndQuiet | source/net/channel.cpp:10-25 | the close callback runs exactly at a read that ends without outstanding writes or at the last write after a deferred close, for a channel not closed before, and no request still points to that channel |
| RingProofs.RearmKeeps | source/net/framework.cpp:18-21 | the awaiting coroutine queues the one next read, and the invariant stays |
| RingProofs.SlotsComeBack | source/net/uring_io.cpp:138-146 | with nothing in flight all slots are free if and only if no completion ever queued a further write |
| RingProofs.StalledForever | source/net/uring_io.cpp:138-141 | once queue_size - 1 completions have queued further writes, no continuation ever prepares a request again |
| RingProofs.StallExample | source/net/uring_io.cpp:138-141 | a concrete run of five steps that gets there and leaves a read waiting |
| RingProofs.TakesAllItCan | source/net/uring_io.cpp:161-264 | either hand-over prepares a front of its queue in order, one slot each, and leaves an empty queue or no free slot |
| RingRounds.OneCompletion | source/net/uring_io.cpp:88-150 | a reported completion is an enabled step that cannot fail, and the completions behind it stay reported |
| RingRounds.SendsEffect | source/net/channel.cpp:28-41 | any sequence of sends puts into the send queue exactly those on channels of the table without a close request, in order, and adds to each flag the number of its own |
| RingRounds.ReadDoes | source/net/uring_io.cpp:102-121 | both kinds of READ completion channel by channel: what is queued, which flags grow and by how much, which close flag goes up |
| RingRounds.WroteEffect | source/net/uring_io.cpp:124-146 | a WRITE completion queues one more write without a slot, or drops one flag, with the deferred close exactly at zero, and gives the slot back |
| RingRounds.RoundEffect | source/net/uring_io.cpp:79-150 | all completions of a round in closed form: the reads and writes queued, in order, the slots given back, and for every channel its flag, its close flag and whether it is still in the table |
| UringLoop.Channel.Send | source/net/channel.cpp:28-41 | nothing after a close request, otherwise the descriptor goes to the end of the send queue and the flag grows by one; the machine takes its send step |
| UringLoop.Channel.Close | source/net/channel.cpp:10-25 | with writes outstanding only the close flag goes up, otherwise callback and removal; the machine takes its close step |
| UringLoop.Channel.ReduceSend | source/net/channel.cpp:43-51 | the flag drops by one, and the channel leaves the table exactly if that makes it zero after a close request |
| UringLoop.Uring.constructor | source/net/uring_io.cpp:15-16 | starts in the machine's first state, with queue_size - 1 free slots |
| UringLoop.Uring.AddNewFd | source/net/uring_io.cpp:310-326 | for a descriptor the operating system may hand out, the table assertion holds, a channel with flag 0 and no close request enters the table, and one read of it is queued |
| UringLoop.Uring.RemoveFd | source/net/uring_io.cpp:293-308 | exactly this descriptor leaves the table |
| UringLoop.Uring.TakeSome | source/net/uring_io.cpp:167-185 | in both branches what is taken and what stays make up the queue in order, each descriptor taken costs a slot, and something stays only if no slot is left |
| UringLoop.Uring.Prepare | source/net/uring_io.cpp:188-215 | one entry per descriptor in order, each with the descriptor's own channel |
| UringLoop.Uring.BeginRecv | source/net/uring_io.cpp:161-216 | a front of the receive queue becomes as many READ entries in order, each with its own channel, each costs a slot, and afterwards the queue is empty or no slot is left |
| UringLoop.Uring.BeginSend | source/net/uring_io.cpp:219-274 | the same for the send queue and WRITE entries |
| UringLoop.Uring.Callback | Fish/net/channel.h:57-61 | a callback that sends on any channels, in any order: the send queue grows by exactly those sends whose channel is in the table without a close request, in order, and each flag by the number of its own |
| UringLoop.Uring.Resume | source/net/uring_io.cpp:61-77 | the resumed coroutine closes on an empty view, otherwise calls back and queues the next read |
| UringLoop.Uring.Await | source/net/framework.cpp:18-21 | the awaiting coroutine queues one read of its channel and is armed again |
| UringLoop.Uring.HandleRead | source/net/uring_io.cpp:105-121 | data: the callback's sends are queued and counted, then one read of the descriptor; no data: the channel leaves the table, or its close flag goes up while writes are outstanding; a slot is back, and nothing else changes |
| UringLoop.Uring.HandleWrite | source/net/uring_io.cpp:138-146 | more to send: one write is queued again, no flag moves and no slot is back; otherwise the flag drops by one, the channel leaves the table at zero after a close request, and a slot is back |
| UringLoop.Uring.EventLoop | source/net/uring_io.cpp:79-159 | a round over any reported completions: what waited plus the reads of all data completions, and what waited plus all sends of callbacks and further writes, are split into what is prepared and what waits for slots; slots add up; a channel is gone exactly if a close was asked for and its flag, plus writes queued less writes completed, is zero; the state stays reachable |
| SendPath.BytesArriveOnce | source/net/channel.cpp:28-41 | with the test as meant: if each send waits for the one before and no write fails, then however the kernel splits writes and whatever is read meanwhile, no erase assertion fails and the kernel has taken the given bytes once, in order, all of them when nothing is outstanding |
| SendPath.SendExactly | source/net/channel.cpp:34-40 | with the test as meant, a send keeps the line orderly, for every continuation of successful completions, if and only if no request is outstanding or there is nothing to write |
| SendPath.TakenExactly | source/net/uring_io.cpp:132-141 | each result of a completion, negative ones with the casts of the code: which erases a prefix, brings bytes back, leaves the array or fails the assertion, and what is asked for next |
| SendPath.DrainsExactly | source/net/uring_io.cpp:136-146 | reduseSend is reached, as meant, when the send buffer is empty; as written, when the read buffer stands on its last byte |
| SendPath.ResultExactly | source/net/uring_io.cpp:130-136 | the line stays orderly after a completion, for every continuation of successful ones, if and only if its result is not negative |
| SendPath.WindowExactly | source/net/uring_io.cpp:134-141 | as written, one outstanding request stays orderly, for every continuation of successful completions, if and only if the read buffer stands on its last byte |
| SendPath.EverySendCanFail | source/net/uring_io.cpp:134-141 | with reads in between, if and only if the read buffer has a single byte |
| SendPath.FreshExamples | source/net/uring_io.cpp:130-141 | on a fresh connection of any size from 2: one byte sent and two completions of one byte fail the assertion as written, and any error result takes the read index out of the array |
| SendPath.ChannelBuffers.constructor | source/net/channel.cpp:5-8 | two empty buffers, nothing outstanding |
| SendPath.ChannelBuffers.Send | source/net/channel.cpp:34-40 | over the real buffer: the view goes behind the unread bytes, a request for all of them goes behind the outstanding ones, and the flag grows by one |
| SendPath.ChannelBuffers.AlreadyRead | source/net/uring_io.cpp:118 | over the real buffer: the bytes stored in the window go behind the readable ones |
| SendPath.ChannelBuffers.Completed | source/net/uring_io.cpp:132-146 | over the real buffers, for every result the kernel may report: more than is unread fails the assertion or leaves the array, and so does an error that reaches back too far; otherwise exactly the bytes taken are erased and, on the last byte of the read buffer, the flag drops, anywhere else its window is asked for |
| SendPath.ChannelBuffers.Ask | source/net/uring_io.cpp:134-146 | on the last byte of the read buffer the flag drops by one and nothing is asked for; anywhere else the request is the rest of the array behind the write index but its last byte |
| Network.NetworkIsSafe | source/net/uring_io.cpp:79-159 | in every run of users, loop and kernel with the code's own tests no lookup or flag assertion fails; while no buffer fails either, the ring is in a state of its own runs and each channel has as many requests outstanding as sendFlag says |
| Network.InTable | source/net/uring_io.cpp:195-214 | every completed request belongs to a channel of the table, and the window a pending read was offered is still the free one when it completes |
| Network.StepKeeps | source/net/uring_io.cpp:88-150 | each event fails no lookup, and keeps the invariant of ring and buffers together unless a buffer fails |
| Network.ReadExactly | source/net/uring_io.cpp:109-121 | a read completion fails a buffer if and only if it is an error, errno is set and it reaches back before the unread bytes; and whether by assertion or by index |
| Network.WriteExactly | source/net/uring_io.cpp:132-146 | a write completion fails if and only if its error moves the read index out of the array or it took more than the buffer holds; otherwise it gives its slot back if and only if the read buffer stands on its last byte |
| Network.SlotsAsWritten | source/net/uring_io.cpp:134-146 | in every run the free slots, the entries in flight and the completions that found the read buffer off its last byte make up queue_size - 1, so with nothing in flight all are back if and only if there was none |
| Network.StalledAsWritten | source/net/uring_io.cpp:134-146 | after queue_size - 1 such completions no continuation prepares a request |
| Network.SecondWriteFails | source/net/uring_io.cpp:134-141 | from every state of the loop with one write in the kernel, a free slot and the read buffer off its last byte there is a run of four events in which eraseData fails |
| Network.WaitingExample | source/net/uring_io.cpp:134-141 | a run of four events to such a state on every ring of three entries or more |
| BufferModel.InputAppends | source/net/buffer.cpp:20-39 | with or without growth the copy stays inside and the readable bytes are the old ones followed by the new ones |
| BufferModel.AsWrittenExactly | source/net/buffer.cpp:23-38 | the write index as written keeps the copy inside, and agrees with the intended one, if and only if no growth is needed |
| BufferModel.WindowInside | source/net/buffer.cpp:46-52 | the window computed with unsigned wrap-around lies inside if and only if the array is not full |
| BufferModel.FullAfterGrowth | source/net/buffer.cpp:20-52 | input leaves the array full if and only if the new bytes reach its end, so always after growth |
| BufferModel.EraseExactly | source/net/buffer.cpp:54-66 | erasing drops exactly the prefix, or fails its assertion when there is less, if and only if the erased end fits an int or its truncation fails the assertion |
| BufferModel.EraseExamples | source/net/buffer.cpp:54-66 | a length at which the cast, and one at which the sum, makes it go wrong |
| BufferModel.EraseNegative | source/net/buffer.cpp:54-66 | a negative result passed on as a length passes the assertion and moves the read index back by it |
| BufferModel.AlreadyExactly | source/net/buffer.cpp:68-73 | marking bytes moves the index, or fails when the array would be full, if and only if the sum fits or its truncation fails |
| BufferModel.RefinesQueue | source/net/buffer.cpp:20-79 | over every sequence of input, fill, erase and clear by a caller that keeps to the rules: no failure, indices in order, and the readable bytes are all bytes added minus the erased prefix |
| BufferModel.FilledStaysOpen | source/net/buffer.cpp:46-73 | a buffer only filled through its window keeps its size, and every window it offers is inside |
| NetBuffer.Buffer.constructor | source/net/buffer.cpp:6-9 | an empty buffer of the given size |
| NetBuffer.Buffer.Copy | source/net/buffer.cpp:36 | the in-place copy overwrites exactly the stretch at the offset |
| NetBuffer.Buffer.Input | source/net/buffer.cpp:20-39 | appends the view to the readable bytes: in the same array with the read index kept if it fits behind the write index, otherwise in a new one that it fills |
| NetBuffer.Buffer.Grow | source/net/buffer.cpp:25-33 | a new array with the unread bytes in front and room for exactly the new ones |
| NetBuffer.Buffer.DisRead | source/net/buffer.cpp:41-44 | the readable bytes |
| NetBuffer.Buffer.DisWrite | source/net/buffer.cpp:46-52 | offset and wrapped length, inside if and only if the array is not full |
| NetBuffer.Buffer.EraseData | source/net/buffer.cpp:54-66 | drops a prefix of the readable bytes when there are enough: the read index moves, or both indices are reset when none is left |
| NetBuffer.Buffer.Already | source/net/buffer.cpp:68-73 | moves the write index, and succeeds as long as the array does not get full |
| NetBuffer.Buffer.Clear | source/net/buffer.cpp:75-79 | nothing is readable |
| SerialModel.BitsRoundTrip | source/rpc/serialize_buf.cpp:27-66 | every fixed-width value, signed ones in two's complement, reads back from its little-endian bytes |
| SerialModel.BytesOfValue | source/rpc/serialize_buf.cpp:27-66 | what is written is congruent to the value modulo 256 to its width, and its byte i is digit i of that number in base 256 |
| SerialProofs.EncodeSize | source/rpc/serialize_buf.cpp:27-66 | an object takes the widths of its scalars, its characters and eight bytes for each length and count, and a container begins with its count |
| SerialProofs.RoundTrip | Fish/rpc/serializer.h:198-532 | with the result of output_string sized, for every supported nested type, target and object: reading what was written, followed by any bytes, gives the target the object's value and leaves exactly those bytes |
| SerialProofs.RoundTripExactly | Fish/rpc/serializer.h:291-393 | with the result of output_string sized, the round trip into fresh objects holds for all objects of a type if and only if no set-like container in it has an element `output` cannot read |
| SerialProofs.BrokenIsBroken | Fish/rpc/serializer.h:291-393 | for every other type a concrete object that is misread |
| SerialProofs.PrefixFree | Fish/rpc/serializer.h:205-532 | equal bytes from two objects of one type mean equal objects and equal rests |
| SerialOrder.ReadsThenFills | Fish/rpc/serializer.h:212-507 | reading a container off any bytes is reading the claimed number of items and then filling the target with them |
| SerialOrder.ReadingMerges | Fish/rpc/serializer.h:212-507 | for any bytes, claimed count and target: vector replaced, list and deque extended, multisets gain every entry, multimaps behind those with the same key, sets take the union, maps keep existing keys and then the earliest decoded |
| SerialOrder.OrderDoesNotMatter | Fish/rpc/serializer.h:291-507 | two iteration orders of one content, in a multimap with the same order under each key, read back as the same collection with the same multiplicities, into any target |
| SerialOrder.Canonical | Fish/rpc/serializer.h:306-341 | for any strict total order of the values of each type, equal objects built from ordered containers, multimaps included, are walked identically and give identical bytes |
| StandardOrder.StandardIsTotal | Fish/rpc/serializer.h:291-341 | the order the library compares keys with, item by item, is strict and total on the values of every type |
| StandardOrder.BytesLessExactly | Fish/rpc/serializer.h:291-341 | strings are ordered as the library does: a proper beginning first, otherwise by the first character that differs |
| StandardOrder.SameBytes | Fish/rpc/serializer.h:306-482 | so equal objects built from ordered containers give identical bytes, with no premise on the order |
| SerializerClass.SeriBuf.Input | source/rpc/serialize_buf.cpp:7-12 | bytes go to the end |
| SerializerClass.SeriBuf.Output | source/rpc/serialize_buf.cpp:14-25 | bytes come off the front, at most what is there |
| SerializerClass.SeriBuf.InputScalar | source/rpc/serialize_buf.cpp:27-66 | appends bytes from which the value, and nothing more, reads back; on an empty buffer in front of any rest |
| SerializerClass.SeriBuf.InputString | source/rpc/serialize_buf.cpp:75-80 | appends the length and the characters |
| SerializerClass.SeriBuf.OutputScalar | source/rpc/serialize_buf.cpp:88-150 | consumes the width and gives the value, or empties the buffer when it is short |
| SerializerClass.SeriBuf.OutputString | source/rpc/serialize_buf.cpp:151-160 | with the result sized first: consumes length and characters and gives the text, or empties the buffer |
| SerializerClass.SeriBuf.OutputStringAsWritten | source/rpc/serialize_buf.cpp:151-160 | the result is empty whatever was written, or the copy overruns the storage of an empty string |
| SerialAsWritten.ReadsBlank | source/rpc/serialize_buf.cpp:151-160 | as written, reading any object of a supported type into any target gives the object with every text emptied and consumes its bytes, unless a text is longer than the storage of an empty string, which is then overrun |
| SerialAsWritten.ReadsSilent | source/rpc/serialize_buf.cpp:151-160 | as written, no bytes at all make a text appear in a target that has none |
| SerialAsWritten.TextsAreLost | source/rpc/serialize_buf.cpp:151-160 | as written, an object of a supported type reads back if and only if it has no character in it |
| SerialAsWritten.RoundTripAsWritten | Fish/rpc/serializer.h:133-196 | as written, all objects of a type read back if and only if the type is supported and has no text |
| SerializerClass.Serializer.Write | Fish/rpc/serializer.h:205-532 | appends exactly the encoding, recursively over the type |
| SerializerClass.Serializer.WriteItems | Fish/rpc/serializer.h:228-237 | the loop appends the count and the items in iteration order |
| SerializerClass.Serializer.Read | Fish/rpc/serializer.h:198-532 | consumes and returns exactly what decoding the buffer gives, recursively over the type |
| SerializerClass.Serializer.ReadAll | Fish/rpc/serializer.h:217-224 | the loop over the claimed count inserts item after item |
| SerializerClass.Serializer.ReadItem | Fish/rpc/serializer.h:299-301 | set-like containers read an element with `output`, the others with the operator |
| SerializerClass.SeriesRecovered | source/rpc/serialize_buf.cpp:7-25 | any series of values of any supported types comes back through the byte queue, value by value, with what follows untouched |
| Dispatch.RpcProvider.RegisterMethod | Fish/provider/rpc_provider.h:26-35 | the latest registration of a name counts, the others stay |
| Dispatch.RpcProvider.Run | Fish/provider/rpc_provider.h:37-41 | an unregistered name throws and leaves both buffers alone, but gets an empty entry; a registered one consumes exactly its argument bytes and appends exactly the encoded result |
| Dispatch.RpcProvider.RunMethod | Fish/provider/rpc_provider.h:46-76 | the same for the wrapped function, also when both serializers are one; void appends nothing |
| Dispatch.RemoteCall | Fish/provider/rpc_provider.h:46-76 | for every signature of supported types: the callee gets the caller's arguments, and the caller reads back what a local call returns |
| Descriptor.DescPrefixFree | Fish/rpc/rpc.h:243-277 | with the second part described by its own type, no descriptor is the beginning of another, so it tells the type |
| Descriptor.AsWrittenDoubles | Fish/rpc/rpc.h:262-271 | the descriptor as written is the descriptor of the type with every second part replaced by the first |
| Descriptor.AsWrittenTellsApart | Fish/rpc/rpc.h:262-271 | as written two types share a descriptor if and only if they agree up to second parts, and a type keeps its own if and only if its second parts repeat the first |
| Descriptor.SameDescriptor | Fish/rpc/rpc.h:262-271 | two different pair types with one descriptor |
| Descriptor.CodesInOrder | Fish/rpc/rpc.h:20-50 | the codes are the type identifiers in the order of the header |
| Descriptor.ParaMes.FindType | Fish/rpc/rpc.h:243-277 | appends the descriptor as written |
| LogProofs.StepKeeps | source/base/log/log_thread.cpp:49-174 | each append, swap, write, return and end of flush passes its assertions, loses no block and keeps the invariant |
| LogProofs.LogIsSafe | source/base/log/log_thread.cpp:49-174 | over every interleaving: five blocks in all, at most five to write, returning a block never fails; appended messages are written, buffered or discarded, none twice; the file is the batches in order, each newest block first |
| LogProofs.WrittenAndBuffered | source/base/log/log_thread.cpp:157-174 | what was not discarded is on disk or in a waiting block, with multiplicities |
| LogProofs.DropsOnlyWhenAllWait | source/base/log/log_thread.cpp:74-89 | messages are discarded exactly by an append that finds no room while the other four blocks all await the disk, and then exactly the current block's |
| LogProofs.AppendFits | source/base/log/log_thread.cpp:54-65 | the copy stays inside the block if and only if the chunk fits behind the notice, or fits a block and none is overwritten for it |
| LogProofs.ChangesExactly | source/base/log/log_thread.cpp:58-83 | an append moves a block to the ready ones, or takes one from the pool, exactly if the chunk does not fit behind the current text and a block is free; it discards exactly if none is; otherwise the chunk goes behind the text |
| LogProofs.FileOrder | source/base/log/log_thread.cpp:163-173 | between flushes the file is in the order of appending if and only if no swap ever took more than one block |
| LogPipeline.MyQueue.TryPop | Fish/base/safe_queue.h:30-39 | the newest element leaves, or nothing when empty |
| LogPipeline.MyQueue.Push | Fish/base/safe_queue.h:41-49 | the element is kept if and only if the pool is not full |
| LogPipeline.LogThread.constructor | source/base/log/log_thread.cpp:11-22 | one current block and bufNum - 1 in the pool |
| LogPipeline.LogThread.FreeSize | Fish/base/log/log_thread.h:38 | the room is the block size less the fill index, which is the length of what the block holds, and is never negative |
| LogPipeline.LogThread.ChangeBuf | source/base/log/log_thread.cpp:74-89 | takes the machine's step: exchange for a free block, or overwrite the current one with the notice |
| LogPipeline.LogThread.Exchange | source/base/log/log_thread.cpp:78-82 | the current block goes behind the ready ones with its length, a free one takes its place |
| LogPipeline.LogThread.Overwrite | source/base/log/log_thread.cpp:83-88 | the block holds the first eight characters of the notice and nothing else |
| LogPipeline.LogThread.ApendMessage | source/base/log/log_thread.cpp:49-65 | a chunk that fits goes behind the current text and no block moves; otherwise with a free block the current one goes behind the ready ones and the chunk stands alone in the free one, and without one the chunk stands behind the notice; the answer is whether the copy stayed inside |
| LogPipeline.LogThread.SwapBuffers | source/base/log/log_thread.cpp:111-116 | both assertions hold and the ready blocks become the batch |
| LogPipeline.LogThread.FlushOne | source/base/log/log_thread.cpp:163-173 | the newest block of the batch is appended to the file and returned to the pool |
| LogPipeline.LogThread.FlushToFile | source/base/log/log_thread.cpp:157-174 | the loop writes the whole batch, newest first, and changes nothing else |
| LogPipeline.LogThread.LogRound | source/base/log/log_thread.cpp:103-118 | one round writes all ready blocks and leaves none waiting |
| LogLine.WholeLine | source/base/log/log_buffer.cpp:6-16 | a line is taken whole if and only if it fits under the head level, in particular any line of up to 254 characters |
| LogLine.AcceptedLast | source/base/log/log_buffer.cpp:6-16 | each further piece of a line is taken exactly if it fits behind what was taken, also after one that did not |
| LogLine.LogStream.WriteIn | source/base/log/log_buffer.cpp:6-16 | the piece is appended if and only if it fits; the copy leaves the buffer if and only if the unsigned sum wraps around |
| LogLine.LogStream.WriteEnd | source/base/log/log_buffer.cpp:17-23 | the two line-end characters stay inside the buffer, and the answer is whether the low level is reached |
| LogLine.LogStream.End | source/base/log/log_stream.cpp:126-139 | the line is ended, the buffer handed over once nearly full, each chunk fits a fresh or overwritten block, and between lines the index is below the low level |
| LogLine.LogStream.Line | source/base/log/log_stream.cpp:126-139 | any pieces and then end: the accepted pieces go out in order, nothing is lost between chunk and buffer |
| LogLine.LogStream.Lines | source/base/log/log_buffer.cpp:6-23 | over any run of lines what is handed over and pending is their text in order, and every chunk fits a block |
| Digits.DecimalRoundTrip | source/base/log/log_stream.cpp:14-34 | every signed or unsigned 64-bit value, the minimum included, reads back from its text, which has no leading zero and at most 20 characters |
| Digits.ReverseInPlace | source/base/log/log_stream.cpp:31 | the first characters are reversed in place, the others untouched |
| Digits.WriteDigits | source/base/log/log_stream.cpp:19-24 | the digit loop under truncating division writes the digits, least significant first |
| Digits.Convert | source/base/log/log_stream.cpp:15-34 | leaves the decimal text, terminated, in the caller's buffer |
| Digits.SuffixesDiffer | source/base/log/log_file.cpp:98-111 | file suffixes of one process are distinct and shorter than 16 characters |
| Digits.SuffixAt | source/base/log/log_file.cpp:98-111 | character i behind the underscore is decimal digit i of the number, the lowest first |
| Digits.NamesDiffer | source/base/log/log_file.cpp:73-89 | whole file names agree only if the numbers and everything in front of them do, so no name is used twice |
| Digits.LogFile.GetNum | source/base/log/log_file.cpp:98-111 | leaves the suffix of the next number, touches nothing behind it, and counts |
| Digits.WriteLow | source/base/log/log_file.cpp:102-106 | the digit loop writes the digits in loop order from the given place |
| TimerModel.QuotRem | source/base/timer.cpp:78-82 | truncating quotient and remainder make up the dividend |
| TimerModel.SlotCount | source/base/timer.cpp:54-59 | the number of slots is the largest whose intervals fit a second, at least 1 |
| TimerModel.SlotInRange | source/base/timer.cpp:76-82 | the computed slot is in range for every delay, negative ones included, and is 1 if the shifted index reaches timeNum and 0 otherwise |
| TimerModel.SlotIsIntended | source/base/timer.cpp:80-82 | it is the slot the comment asks for if and only if the shifted index is 0 or timeNum + 1 |
| TimerProofs.Partition | source/base/timer.cpp:216-226 | collecting splits a slot into the due and the others, none lost |
| TimerProofs.PartitionInOrder | source/base/timer.cpp:214-227 | the due tasks and the others both keep the order they have in the slot |
| TimerProofs.AsWrittenExactly | source/base/timer.cpp:216-226 | the loop as written, which steps over the element behind an erased one, collects exactly what is due if and only if a task that is not due stands behind each due one |
| TimerProofs.ExecKeeps | source/base/timer.cpp:203-245 | every run of additions and ticks keeps the invariant |
| TimerProofs.AtMostOnceAndNotEarly | source/base/timer.cpp:203-245 | in every run each added task is in exactly one of a slot, the time-out list or the finished ones, so it runs at most once, and never before its time |
| TimerProofs.Lateness | source/base/timer.cpp:214-241 | a waiting task is taken within its distance to the index plus one ticks once due, or within timeNum ticks of becoming due |
| TimerProofs.AddedIsServed | source/base/timer.cpp:74-91 | an added task is taken, and has run when that tick is over, once timeNum ticks began at or after its time, whatever happens in between |
| TimerWheel.EraseDue | source/base/timer.cpp:216-226 | the loop that visits every element and erases in place gives the due tasks and the rest, both in order |
| TimerWheel.Timer.constructor | source/base/timer.cpp:54-59 | an empty wheel of 1000 / timeInterval slots at index 0 |
| TimerWheel.Timer.AddOnceTask | source/base/timer.cpp:74-91 | the slot arithmetic stays in range, and the new task with its time point goes behind the tasks of slot 1 if the shifted index reaches timeNum, of slot 0 otherwise; no other slot changes |
| TimerWheel.Timer.TakeDue | source/base/timer.cpp:209-227 | the tasks of the current slot that are due leave it and no other, and no other slot changes |
| TimerWheel.Timer.Work | source/base/timer.cpp:229-235 | a task runs once, and one new task for each of its delays, in order, goes into the wheel |
| TimerWheel.Timer.Tick | source/base/timer.cpp:207-242 | a tick runs exactly the due tasks of the slot, once each and in order, makes all the additions they ask for in that order, and moves the index on by one round the wheel |
| LoopProofs.EveryTaskOnce | source/base/loop.cpp:39-56 | over every run, with any number of threads, each added task is run, in a batch or waiting, in exactly one of these |
| LoopProofs.FirstInFirstOut | source/base/loop.cpp:39-56 | in every run in which the loop is begun by one thread at a time: tasks run, rest of the batch and waiting tasks are, in this order, the history of additions, those by running tasks included |
| LoopProofs.EntersExactly | source/base/loop.cpp:20-35 | over all steps a thread gets into the loop exactly if it begins it with a main function set, the flag down and no loop of its own, and then the flag is up |
| LoopProofs.OneThreadPerClose | source/base/loop.cpp:20-35 | over every run no thread gets in twice, and never more threads than there were closes, plus one while the flag is up |
| LoopProofs.OrderNeedsOneThread | source/base/loop.cpp:22-35 | after a thread is let in, every continuation without a further one keeps the order if and only if nobody was still inside |
| TempTaskLoop.Loop.AddTempTask | source/base/loop.cpp:82-87 | a new task goes behind all waiting ones |
| TempTaskLoop.Loop.CloseLoop | source/base/loop.cpp:77-80 | takes the machine's close step: the flag goes down, nothing else changes |
| TempTaskLoop.Loop.SetTask | source/base/loop.cpp:69-75 | throws exactly while the flag is up, and then changes nothing |
| TempTaskLoop.Loop.Enter | source/base/loop.cpp:20-35 | the three checks let a thread in exactly if it has no loop yet, a main function is set and the flag is down; then it is among the loopers and the flag is up, and a call that throws changes neither |
| TempTaskLoop.Loop.RunBatch | source/base/loop.cpp:52-55 | the loop runs every task of the batch once, in order; every addition the tasks make is waiting afterwards, in order, and the flag is down if one of them closed the loop |
| TempTaskLoop.Loop.Turn | source/base/loop.cpp:39-56 | one round runs exactly what waited at the swap, the additions of the main function last, in order; what the tasks added waits afterwards, a close lowered the flag, and with the flag down at the test nothing changes |

## Left out

- StepKeeps: in `RingProofs` the assertions inside `eraseData` and `already` are no outcomes; `Network.StepKeeps` has them, and `ReadExactly` and `WriteExactly` say when they fail.
- RunsAreSafe: the same; `Network.NetworkIsSafe` is about runs with them.
- HandleRead: `alreadyRead` and the view the coroutine sees are in `SendPath.ChannelBuffers` and `Network`; the class takes the result as no bytes, an empty view or data.
- HandleWrite: `eraseWrite` and the test on the buffer are in `SendPath.ChannelBuffers.Completed`; the class takes the answer of the test.
- EventLoop: callbacks send on channels of the table; sends on channels no longer there, and from other threads at any moment, are left to the machine's steps.
- Callback: the same.
- BytesArriveOnce: about the test as meant; `WindowExactly` is about the test as written.
- Send: a request shows the bytes the buffer held when it was queued. Pointers into a buffer that grows, or is written to again, while a request is outstanding are not modelled.
- EraseExactly: the overflow of an int sum, which C++ leaves undefined, wraps around.
- OutputScalar: when the bytes run out the source goes on with a partly filled variable; the model stops with None.
- Read: a claimed count that makes `resize` throw is not modelled; the count is taken as a number.
- OutputString: the result is sized first; `OutputStringAsWritten` is the code as it is. When the bytes run out it ends as None.
- ReadAll: the loop ends with None when the bytes run out, where the source goes on with partly filled items.
- RoundTrip: about `output_string` with its result sized; `SerialAsWritten.ReadsBlank` is about the code as it is.
- Write: an iteration order is given with the object. Floating-point keys are told apart and ordered by bit pattern: the two zeros are two keys, as they are not in C++, and what is not a number has a place in the order.
- Run: a call whose argument bytes run out ends as `Short` with the argument buffer empty; the source calls the function all the same.
- RunMethod: a call whose argument bytes run out ends as `Short`; the source calls the function with partly filled arguments.
- RunMethod: a tuple is nested pairs closed by a unit, which gives the same bytes in the same order.
- RegisterMethod: a registered function is a function of its arguments' values.
- FindType: bool does not compile there and tuples describe themselves as nothing; both are outside `Describable`. Default construction of the described types is not modelled.
- ApendMessage: when the copy would leave the block the method stops before it; waking the log thread is not modelled; the log thread may take a step whenever something is ready.
- FlushOne: a file write takes the whole block; partial and failed writes and the change to a new file are not modelled.
- Tick: one clock reading serves a whole tick and the tasks it runs; the machine allows a later reading at each of them. The waiting before a tick is not modelled.
- AddOnceTask: the slot locks are left out; adding is one step. The clock does not go back and `1 <= timeInterval <= 1000`.
- Turn: `beginInCurrentThread` does not end unless the flag goes down, so the class has its entry and one round; `Exec` over any steps covers all rounds. A thread that already runs another loop object is not told apart.
- Enter: the test and the setting of the flag are one step.
- GetNum: the counter is taken below the largest int, where its increment would overflow.
- WriteIn: when the copy would leave the buffer the method stops before it.
- `vector<bool>`, C strings with embedded zeros and string views are not among the types.
- Sockets, liburing calls, coroutine frames, `shared_ptr` lifetimes, `io_uring_get_sqe` returning null, threads and locks themselves: environment, or replaced by control states and atomic steps.
- Repeatable timer tasks: their time point is never advanced and removal touches only the map, so the code does not decide their period.
- `source/rpc/protocol.cpp`, `source/rpc/protocol_manager.cpp`, `source/rpc/heart_manager.cpp`: the header is written as raw bytes and read as digits, and the heartbeat is unfinished, so there is no round trip to state.
- Registry, server set-up, configuration, address and file classes, `double` formatting: calls into libraries or plain forwarding.
