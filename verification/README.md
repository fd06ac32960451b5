# Verification of libremo's hard parts

libremo is a small RPC library: calls are encoded into packets, sent over a TCP channel or
looped back, decoded, executed, and answered. This project models its protocols and
algorithms in Dafny and proves what they promise.

`dafny verify dfyconfig.toml` checks everything.

## Structure

| part | files |
|---|---|
| TCP framing, partial sends, reassembly | `Bytes`, `Framing`, `Packets`, `Sockets`, `TcpChannel` |
| Loopback calls and their codec | `Codec`, `Pointers`, `Rpc`, `Nesting`, `Exceptions`, `Formatter`, `BinaryWriter`, `BinaryReader`, `DynamicCall`, `RemoteEndpoint` |
| Timer thread | `TimerProtocol` (all interleavings), `TimerProgress` (what gets done), `IntrusiveList`, `TimerThread` (the operations on the list) |
| Active object | `ActiveProtocol` (all interleavings), `Active` (queue and worker loop) |
| Polling a changing set of sockets | `SocketSet` |
| Addresses | `Url` |

Code that changes state is written as classes and loops, and each such method is proved
against a specification: a function of the old state, a function of the bytes in a buffer,
or the step of a protocol. The properties are then proved about the specifications.

**Framing.** A socket decides freely how many bytes each `send` and `recv` moves, and the pool
decides whether there is a packet when one is asked for. When there is none for the bytes behind a
complete frame, the code throws after the frame was moved out of the channel, and both are gone.
`RunConserves` says exactly when that matters: the frames handed to the observer followed by the
bytes in the receive buffer are the bytes received if and only if no call had bytes behind a
complete frame and no packet for them; otherwise at least five bytes are missing. `LosingRun` is
such a run, in which the channel afterwards delivers a payload nobody sent. Without a loss the
payloads delivered are a prefix of those sent, also after an exception of the socket has broken off
the last send (`DeliveredDespiteBreak`); if the sender goes on after it, payloads arrive that nobody
sent (`SentAfterBreak`). The receiver hands on at most one frame per call, so complete frames can
wait in the buffer although nothing more is coming. `BacklogLaw` says how many were delivered after
n calls: the smallest value, over all j up to n, of the frames complete after j calls plus the n - j
calls since. `FrameHeldBack` is an example of a frame that stays behind, `AllDeliveredIff` the exact
condition under which none does. A full receive buffer makes the next read ask for no bytes, which
looks like a shutdown of the peer; this cannot happen exactly when every frame fits into the buffer
(`NeverFullIff`).

**Loopback calls.** What a caller gets is stated twice. `CallReturns`, `CallThrows` and
`RefusedCall` say it in terms of the function's own body: its result and pointees, its exception, or
why it was not reached. `LoopbackIsDirect` says that the bytes make no difference. Bound functions
are arbitrary: a function's next action depends on its arguments and on the outcomes of the calls it
has made itself. By `LoopbackIsDirect`, encoding the call, decoding it into values and pointers into
the packet, running the function, letting it write through these pointers, encoding the pointees
behind the result, and copying them back amounts to the direct call, with the same result, pointees
and exceptions, for nested calls too. The only difference is the codec's: a float or double whose
top byte is 0x80 is sent without that byte, because the test for zero also stops on negative zero,
and loses its sign bit (`ScalarLaw`, `SignLost`). `RemoteEndpoint.Call` is proved against the direct
call on the heap: the writer's and reader's loops, the log formatter that runs over every packet
before it is handled, the pointers into the packet, the packet pool, and nested calls through the
same endpoint, with all packets back in the pool in the same order whether the call returns or
throws. That a function works on the packet and not on the caller's memory shows when it has written
through its pointers and the call then ends with an exception: its own, or the one thrown when its
reply gets no packet or does not fit into it. Called directly, it has changed the caller's memory,
while through the loopback the write stays in the packet; `WritesAreLost` gives a call of either
kind. `LoopbackIsInPlaceIff` compares the loopback with calls on the caller's own memory: a call and
all calls made in it end alike exactly if none of them is of this kind. A call runs out of a pool of
k packets exactly if more than k calls nest, or a function returns k deep, since its reply takes one
more packet (`PacketsNeeded`): 15 deep always works with the pool of 16, and 16 deep works exactly
if no function returns there (`SixteenPackets`); calls whose nesting never ends are among those that
run out. On the real endpoint a packet is asked for in vain exactly in these calls
(`RemoteEndpoint.Call`). Calls that do not run out of packets cannot tell the size of the pool
(`PoolInvisible`).

**Timers.** The worker reads trigger times one by one while other threads reset timers; adding
and removing needs the list lock. The code does not guarantee that the worker never oversleeps: the
trigger time of the chosen timer is read a second time after the choice, and a reset in between
makes the worker sleep past another timer. `OversleepingIsReachable` is a run in which nobody is
about to wake the worker and a listed timer is overdue. A reset is safe if it does not concern the
timer that the worker is just choosing, or makes it due no later than every other listed timer
(`SafeReset`). If all resets are safe the worker never oversleeps, whatever else happens
(`SafeResetsSuffice`); after the choice a reset makes it oversleep exactly if it is not safe
(`ResetAfterChoice`), and during the scan exactly if, moreover, no timer still to be looked at is
due before the one being chosen (`ResetDuringScan`). The comment in `src/utils/timer.cpp:212` calls the test after the wait
sufficient; that test guards against firing the wrong timer, not against this. Firing, bounded
bypass, wake-ups and shutdown are proved without that proviso. The worker's pass over the real list
is a run of the protocol also while other threads reset timers (`NextWait`).

What the worker does get done is proved as well: a listed timer that is due fires, whatever else is
listed, after at most as many rounds as there are timers (`DueTimerFires`); a change of the list
wakes the worker, which starts again (`ChangeIsSeen`); a removed timer stays silent, and one that is
reset rests for a full interval, in every run (`RemovedStaysSilent`, `RestsAfterReset`).

**Active object.** In every interleaving the executed calls are the first ones put, in order; at
termination they are all the calls before the first empty one. Once an empty call has been put,
the number of steps the worker still takes is known in advance, and it is never stuck. The queue
and the worker's loop are a run of these steps.

**Socket set.** Whatever the callbacks do within given permissions to remove sockets and to throw,
every socket that was ready is served exactly once and nothing is read out of range, if and only if
no socket that is ready may remove one below its own, or throw while one below its own is ready
(`ExactlyOnceIff`). Removing such a socket makes a callback run twice (`RemovingBelow`), or lets the
walk leave the vectors (`RemovingAll`). An exception, which only the worker catches, ends the walk,
and the sockets below wait for the next one (`ThrowShows`). For callbacks that keep to the
condition, `Poll` makes exactly the calls for which the operating system reported data or a hang-up,
from the last socket to the first (`PolitePoll`).

**Addresses.** Printing a parsed address gives the text again, for every text; parsing a printed
address gives the address again exactly if it is canonical.

## Assumptions

- The host is little-endian: scalars and pointees are byte sequences, least significant first.
- Arguments are evaluated from right to left, which the program relies on; `EvaluationOrder` shows
  that no other order gives every parameter its own argument.
- Different pointer arguments of a caller point to different memory outside the packets.
- Strings and names contain no NUL; no function returns a string or a pointer.
- A function keeps its type: results of the declared type, pointees of unchanged size. A body that
  breaks this is taken to throw. The number of calls made by one invocation is bounded.
- A scalar that announces more bytes than its type has is undefined in the program and an error here.
- A socket that keeps answering "would block" eventually makes progress while sending.
- The due check of a timer and the reset behind it are one step.
- One thread sends on a channel, and one call is in progress on an endpoint, apart from nested ones.

## Model

| member | source | states |
|---|---|---|
| Framing.StepConserves | src/l1_transport/tcp/tcp-channel.cpp:183-226 | one call of the receiver neither loses, repeats nor reorders bytes, unless bytes stand behind a complete frame and there is no packet for them: then at least five bytes are lost |
| Framing.RunConserves | src/l1_transport/tcp/tcp-channel.cpp:135-227 | over any run, delivered frames followed by the receive buffer are exactly the bytes received if and only if no call had bytes behind a complete frame and no packet for them |
| Framing.LosingRun | src/l1_transport/tcp/tcp-channel.cpp:197-208 | a run that loses a frame and then delivers a payload that was never sent |
| Framing.DeliveredIsPrefix | src/l1_transport/tcp/tcp-channel.cpp:135-227 | however the stream is split, while no call had bytes behind a complete frame and no packet for them, the payloads delivered are a prefix of those sent and the buffer is a prefix of the rest of the stream |
| Framing.DeliveredDespiteBreak | src/l1_transport/tcp/tcp-channel.cpp:95-131 | if nothing was sent after a send had broken off, the payloads delivered are a prefix of those sent completely, and the buffer is a prefix of the rest of the intended stream |
| Framing.SentAfterBreak | src/l1_transport/tcp/tcp-channel.cpp:95-131 | an example: a send after one that broke off makes the receiver deliver a payload nobody sent |
| Framing.UniqueParse | src/l1_transport/channel.cpp:124-141 | a stream of length-prefixed frames can be read in one way only |
| Framing.OneFramePerCall | src/l1_transport/tcp/tcp-channel.cpp:186-226 | a call delivers exactly one frame when the front frame is complete, and none otherwise, unless it loses the frame |
| Framing.BacklogLaw | src/l1_transport/tcp/tcp-channel.cpp:186-226 | while no frame is lost, the number of frames delivered after n calls is the minimum over j of the frames complete after j calls plus n - j |
| Framing.AllDeliveredIff | src/l1_transport/tcp/tcp-channel.cpp:186-226 | while no frame is lost, every complete frame has been delivered exactly if no final stretch of calls completed more frames than it had calls |
| Framing.FrameHeldBack | src/l1_transport/tcp/tcp-channel.cpp:202-226 | a run in which a complete frame stays in the buffer |
| Framing.RoomLeft | src/l1_transport/tcp/tcp-channel.cpp:152-153 | if every frame fits into the buffer and none is lost it is never full between calls; with payloads of at most 896 bytes there is room for four bytes |
| Framing.NeverFullIff | src/l1_transport/tcp/tcp-channel.cpp:152-175 | however the stream is split, while no frame is lost, the buffer never fills up, and a read never asks for zero bytes, exactly when every frame fits |
| Framing.FrameByFrame | src/l1_transport/tcp/tcp-channel.cpp:183-226 | frames read one by one are all delivered and leave the buffer empty |
| Framing.FrameBytes | src/l1_transport/tcp/tcp-channel.cpp:70-83 | a frame is the payload behind four bytes that give its length, least significant first |
| Packets.Buffer.GrowRight | src/l1_transport/buffer.cpp:112-123 | succeeds exactly while the capacity suffices, and otherwise changes nothing; the new bytes lie behind the old ones, inside the memory |
| Packets.Buffer.GrowLeft | src/l1_transport/buffer.cpp:127-138 | the same to the left: the view starts n bytes earlier and still ends where it did |
| Packets.Buffer.Access | src/l1_transport/buffer.cpp:72-94 | an access succeeds exactly if it lies inside the view, and then addresses memory that holds the view's bytes at that offset |
| Packets.Packet.SetHeaderCapacity | src/l1_transport/packet.cpp:58-67 | header and payload are empty, meet at the border, and fill the memory between them |
| Packets.Packet.DropHeader | src/l1_transport/packet.cpp:78-87 | the payload is the old one without its first n bytes; the capacity stays, so the view may no longer grow |
| Packets.Packet.Recycle | src/utils/recycling.h:92-103 | a packet from a pool returns to its front as good as new; one without a pool is refused |
| Packets.RecyclingPool.Add | src/utils/recycling.h:40-47 | the packet becomes the first of the free list, which stays linked and free of sharing |
| Packets.RecyclingPool.Take | src/utils/recycling.h:49-64 | the first free packet is handed out, fresh, knowing its pool and apart from the rest; null exactly when none is free |
| Sockets.Socket.Send | src/l0_system/socket.cpp:351-398 | moves some prefix of the bytes to the peer, or none, or fails |
| Sockets.Socket.Recv | src/l0_system/socket.cpp:402-440 | moves some bytes that were sent to the buffer; zero bytes requested look like a shutdown |
| TcpChannels.TcpChannel.PrepareToSend | src/l1_transport/tcp/tcp-channel.cpp:70-83 | the packet's bytes are the payload length followed by what they were |
| TcpChannels.TcpChannel.DoSend | src/l1_transport/tcp/tcp-channel.cpp:95-131 | through any number of partial sends exactly the packet's bytes reach the wire, once and in order; if the socket fails, a proper prefix of them |
| TcpChannels.TcpChannel.Send | src/l1_transport/channel.cpp:77-81 | the wire grows by the frame of the payload, or by as much of it as was taken before an exception; by nothing if the packet has no room for the length |
| TcpChannels.TcpChannel.DeterminePacketSize | src/l1_transport/channel.cpp:124-141 | the size of the complete frame at the front, or 0 |
| TcpChannels.TcpChannel.CopyExcess | src/l1_transport/tcp/tcp-channel.cpp:203-223 | the bytes behind the frame move to the next packet and leave this one |
| TcpChannels.TcpChannel.KeepExcess | src/l1_transport/tcp/tcp-channel.cpp:202-223 | bytes behind the frame move to a fresh packet; that fails exactly if there are some and the pool has no packet |
| TcpChannels.TcpChannel.CutFront | src/l1_transport/tcp/tcp-channel.cpp:197-226 | the front frame's payload is delivered and the bytes behind it stay buffered; exactly if there are such bytes and no packet for them, frame and bytes are lost |
| TcpChannels.TcpChannel.Receive | src/l1_transport/channel.cpp:85-92 | the observer gets the payload without the frame header |
| TcpChannels.TcpChannel.ReceiveChunk | src/l1_transport/tcp/tcp-channel.cpp:135-227 | every outcome of a call, given the pool's answers, is the stated step of the framing protocol on the bytes it read; a frame is lost exactly if bytes stand behind it and there is no packet for them; a shutdown closes the channel, by the peer unless it was closing |
| TcpChannels.StepMeans | src/l1_transport/channel.cpp:96-104 | what each outcome means: the bytes held and read are the delivered frame followed by those kept, or all are kept, or none; the new state after a shutdown; nothing changes when the socket fails or there is no packet |
| TcpChannels.DeliveredArePrefixOfSent | src/l1_transport/tcp/tcp-channel.cpp:95-227 | between two channels, if nothing was sent after a send had broken off and no call had bytes behind a complete frame and no packet for them, the payloads delivered are a prefix of those sent completely, and the next read has room |
| Codec.ScalarLaw | src/l1_transport/writer.h:73-98 | the bytes sent, filled up with zeros, are the scalar's bytes but for the sign bit of a float whose top byte is 0x80 |
| Codec.SignLost | src/l1_transport/writer.h:79-87 | a scalar comes back unchanged exactly if it is no float with top byte 0x80 |
| Codec.FewestBytes | src/l1_transport/writer.h:79-97 | no scalar could be sent in fewer bytes and be decoded to the same |
| Codec.WireSizeIs | src/l1_transport/writer.h:79-97 | the bytes sent reach up to the last one that is not zero, the lost sign bit aside |
| Codec.HeaderRoundTrip | src/l1_transport/reader.h:106-119 | type and number of bytes are recovered from every header byte the writer makes, pointers included |
| Codec.DecodeEncode | src/l1_transport/reader.cpp:83-151 | wherever an encoded value stands in a buffer, decoding it gives the value and stops exactly behind it |
| Codec.DecodeEncodeAll | src/l1_transport/reader.cpp:75-78 | an argument list is recovered value by value, with the place of every pointee |
| Codec.DecodeCallBytes | src/l1_transport/reader.cpp:53-79 | name and arguments are recovered from every call packet |
| Codec.TypeCodes | src/l0_system/types.h:30-45 | the codes and sizes of the types in numbers |
| Codec.ScalarBytes | src/l1_transport/writer.h:73-98 | a scalar is sent as the number of its bytes and its type code in one byte, and then its low bytes |
| Codec.OtherBytes | src/l1_transport/writer.cpp:34-110 | the bytes of null, void, bool, string and pointer in numbers |
| Codec.PacketBytes | src/l1_transport/packet.h:46-51 | a call packet in numbers, with its arguments in order |
| Codec.ScalarRead | src/l1_transport/reader.h:121-139 | a scalar with any number of bytes, also more than it needs, is read with zeros for those not sent; missing bytes are an error |
| Codec.HeaderRead | src/l1_transport/reader.cpp:83-151 | null, void and bool are read from their header alone, whatever number of bytes it announces |
| Codec.RejectedValue | src/l1_transport/reader.cpp:83-151 | which header bytes are rejected for their type, and when bytes are missing |
| Codec.RejectedCall | src/l1_transport/reader.cpp:53-79 | exactly which buffers are refused as no call packet, or for want of a function's name |
| Rpc.CallSize | src/l1_transport/writer.h:46-55 | a call packet has 1 + (name length + 2) + the arguments' costs bytes |
| Formatter.ConsumesTheSame | src/l1_transport/reader.cpp:231-324 | on every buffer, well-formed or not, formatter and decoder consume the same bytes and fail alike; of types the decoder rejects, the formatter consumes the header, and the text of a pointer to a string |
| Formatter.LogsWhatDecodes | src/l1_transport/reader.cpp:195-200 | whatever can be decoded is logged to the end, value by value |
| Formatter.DecodableIsLogged | src/l1_transport/reader.cpp:180-204 | logging a call packet that can be decoded does not throw |
| Formatter.CallIsLogged | src/l1_transport/reader.cpp:180-204 | every call packet that is written can be logged: the loop prints each argument and ends at the end of the buffer |
| Formatter.ReplyIsLogged | src/l1_transport/reader.cpp:208-227 | every reply that is written can be logged: the result and each pointee, to the end of the buffer |
| Formatter.LoggedAnyway | src/l1_transport/reader.cpp:155-227 | empty packets and those of other types are logged without an exception |
| Rpc.ReplyReadToTheEnd | src/l1_transport/reader.h:67-91 | reading a reply ends exactly at its last byte |
| BinaryWriters.CountBytes | src/l1_transport/writer.h:79-87 | the clearing loop finds the least number of bytes after which the value compares equal to zero |
| BinaryWriters.BinaryWriter.WriteScalar | src/l1_transport/writer.h:73-98 | appends the scalar's encoding, or as much of it as fits, and tells which |
| BinaryWriters.BinaryWriter.WritePointer | src/l1_transport/writer.h:108-127 | the same for a pointee |
| BinaryWriters.BinaryWriter.WriteText | src/l1_transport/writer.cpp:34-46 | the same for a string |
| BinaryWriters.BinaryWriter.WriteValue | src/l1_transport/writer.cpp:57-61 | the same for any value |
| BinaryWriters.BinaryWriter.WriteCall | src/l1_transport/writer.h:46-55 | appends the call packet for the arguments as they are in memory; succeeds exactly if all of it fits |
| BinaryWriters.BinaryWriter.WriteResult | src/l1_transport/writer.h:57-69 | appends the result and, in order, what the pointer arguments point to in the call packet |
| BinaryReaders.BinaryReader.ReadType | src/l1_transport/reader.h:106-119 | type and modifier of the next byte |
| BinaryReaders.BinaryReader.ReadScalar | src/l1_transport/reader.h:126-137 | the value of the next n bytes, the rest zero |
| BinaryReaders.BinaryReader.ReadPtr | src/l1_transport/reader.h:141-149 | a pointer to the next bytes of the packet, if they are there |
| BinaryReaders.BinaryReader.ReadCstr | src/l1_transport/reader.h:165-171 | the text up to the next NUL, and an error if there is none |
| BinaryReaders.BinaryReader.ReadTypedValue | src/l1_transport/reader.cpp:83-151 | decodes one value and moves behind it, for every buffer |
| BinaryReaders.BinaryReader.ReadCall | src/l1_transport/reader.cpp:53-79 | decodes a call packet, for every buffer |
| BinaryReaders.BinaryReader.ReadOutParam | src/l1_transport/reader.h:81-91 | copies the next pointee to the caller's memory if its type is the pointer's |
| BinaryReaders.BinaryReader.ReadOutParams | src/l1_transport/reader.h:74 | every caller pointer receives its pointee, in order; other arguments are left alone |
| BinaryReaders.BinaryReader.ReadResult | src/l1_transport/reader.h:67-77 | result and pointees of a reply, for every buffer, and where the reader stops |
| BinaryReaders.BinaryReader.FormatValue | src/l1_transport/reader.cpp:231-324 | consumes the bytes of one value, or throws, as specified, for every buffer |
| BinaryReaders.BinaryReader.FormatRest | src/l1_transport/reader.cpp:195-200 | the loop over the remaining values ends at the end of the buffer or throws |
| BinaryReaders.BinaryReader.ToString | src/l1_transport/reader.cpp:155-227 | logging a whole packet throws exactly when specified, for every buffer |
| Pointers.DecodedLayout | src/l1_transport/reader.h:141-149 | whatever the decoder accepts, the places it hands out lie in the packet and do not overlap |
| Pointers.DerefEncoded | src/l3_rpc/remote_endpoint.cpp:100-104 | through the decoded arguments the function sees the values the caller passed |
| Pointers.DerefPoked | src/l3_rpc/remote_endpoint.cpp:104-109 | after the function has written through its pointers, each argument reads as the function left it, undisturbed by the other writes |
| Rpc.ServeEncoded | src/l3_rpc/remote_endpoint.cpp:98-113 | serving an encoded call runs the function on the caller's values and answers with what it left |
| Rpc.ReadOutEncoded | src/l1_transport/reader.h:79-103 | the caller's pointers receive the pointees in the order in which they were written |
| Rpc.AnswerEnding | src/l1_transport/reader.h:67-77 | reading the reply ends the call as the direct call ends, with the same result and pointees |
| Rpc.LoopbackIsDirect | src/l3_rpc/remote_endpoint.tpp.h:25-38 | for every function, argument list and pool, nested calls included, the loopback call ends exactly as the direct call: same result, pointees and exceptions |
| Rpc.PlainCall | src/l3_rpc/remote_endpoint.tpp.h:25-38 | without floats that lose a sign bit the caller gets the function's own result and pointees, whatever calls the function makes itself |
| Rpc.CallReturns | src/l3_rpc/function.h:54-58 | if the body, after the calls it made, returns a result of its type and has written pointees, the caller gets exactly these; without a packet for the reply, or with one too small, the stated exception |
| Rpc.CallThrows | src/l3_rpc/function.h:54-58 | if the body throws, the caller gets that exception |
| Rpc.RefusedCall | src/l3_rpc/local_endpoint.cpp:129-140 | the exception of every call that does not reach the function: no packet, no room in it, name not bound, wrong number of arguments, wrong type |
| Rpc.TypeInHeader | src/l1_transport/reader.h:106-119 | the type that is checked is the one in the header, also for values that lose a sign bit |
| Rpc.ReplyPacket | src/l1_transport/writer.h:57-69 | a reply in numbers: the result and then the pointees, in the order of the arguments |
| Rpc.RejectedReply | src/l1_transport/reader.h:67-103 | exactly which buffers are refused as no reply, and which pointees for their type |
| Exceptions.LoopbackIsInPlaceIff | src/l3_rpc/remote_endpoint.cpp:98-113 | a call and all calls made in it end through the loopback as they do on the caller's own memory, if and only if in none of them the function changes its pointees and then throws, or returns and finds no packet for its reply or no room in it |
| Exceptions.WritesAreLost | src/l3_rpc/remote_endpoint.cpp:98-113 | examples: a function writes through its pointer and throws, or returns with no packet left for its reply; the caller finds the write after the call in place and not after the loopback |
| Exceptions.InPlaceThrows | src/l3_rpc/function.h:54-58 | the call in place: a function that throws leaves in the caller's memory what it wrote there |
| Nesting.PoolInvisible | src/l3_rpc/remote_endpoint.cpp:135-142 | a call that does not run out of packets behaves the same whatever the size of the pool |
| Nesting.PacketsNeeded | src/l3_rpc/remote_endpoint.cpp:98-142 | for every call, also one whose nesting never ends: it runs out of k packets exactly if more than k calls are in progress at once, or k are when a function returns |
| Nesting.PacketsForetold | src/l3_rpc/remote_endpoint.cpp:98-142 | a run that has enough packets tells with how few it would have run out: k are too few exactly if more than k of its calls are in progress at once, or k are when a function returns |
| Nesting.SixteenPackets | src/l3_rpc/remote_endpoint.cpp:29-33 | with the pool of 16, every call runs out of packets exactly if calls nest more than 16 deep or a function returns 16 deep; 15 deep always works |
| Nesting.DepthSuffices | src/l3_rpc/remote_endpoint.cpp:29-33 | with k packets, calls nested less than k deep never run out of them |
| Nesting.ChainDepth | src/l3_rpc/remote_endpoint.cpp:98-142 | an example: n + 1 returning calls nested in each other succeed exactly with at least n + 2 packets |
| DynamicCalls.CheckArgs | src/l3_rpc/function.cpp:61-80 | no error exactly if the arguments have the number and, one by one, the types of the parameters; the number is checked first |
| DynamicCalls.FetchArgs | src/l3_rpc/dynamic_call.h:52-58 | evaluated from right to left, every parameter gets its own argument |
| DynamicCalls.EvaluationOrder | src/l3_rpc/dynamic_call.h:24-35 | the parameters get their own arguments for all lists exactly if they are evaluated from right to left |
| DynamicCalls.StorePointees | src/l3_rpc/dynamic_call.h:52-58 | writing through the pointers changes the packet where they point and nowhere else |
| RemoteEndpoints.RemoteEndpoint.constructor | src/l3_rpc/remote_endpoint.cpp:29-46 | the endpoint starts with 16 free packets |
| RemoteEndpoints.RemoteEndpoint.AllocPackets | src/l3_rpc/remote_endpoint.cpp:125-131 | the pool holds 16 different packets, each once |
| RemoteEndpoints.RemoteEndpoint.TakePacket | src/l3_rpc/remote_endpoint.cpp:135-142 | a fresh packet apart from all free ones, or none exactly if the pool is empty |
| RemoteEndpoints.RemoteEndpoint.Call | src/l3_rpc/remote_endpoint.tpp.h:25-38 | ends as the direct call: result and caller memory, or the exception with the memory untouched; the packets are back in the pool in the same order; a packet was asked for in vain exactly if the call is one that runs out of them |
| RemoteEndpoints.ChainOnNewEndpoint | src/l3_rpc/remote_endpoint.cpp:29-46 | on a new endpoint, calls nested 15 deep return and deeper ones run out of packets |
| RemoteEndpoints.RemoteEndpoint.SendPacket | src/l3_rpc/remote_endpoint.cpp:56-70 | for every packet: if it cannot be logged, the call fails with that exception and nothing else happens; otherwise it is handled |
| RemoteEndpoints.RemoteEndpoint.HandlePacket | src/l3_rpc/remote_endpoint.cpp:74-94 | a call packet is served, a result packet is kept for the caller; an empty payload behind header bytes throws; anything else is ignored without effect |
| RemoteEndpoints.RemoteEndpoint.HandleCall | src/l3_rpc/remote_endpoint.cpp:98-113 | for every packet: the answer specified for its bytes arrives in a packet from the pool, or the exception, with the pool as before |
| RemoteEndpoints.RemoteEndpoint.TakeReply | src/l3_rpc/remote_endpoint.tpp.h:34-37 | the reply is read into the caller's memory and its packet returns to the pool |
| RemoteEndpoints.RemoteEndpoint.Invoke | src/l3_rpc/function.h:54-58 | looks up, checks and runs the function; the packet then holds what it wrote through its pointers |
| RemoteEndpoints.RemoteEndpoint.RunBody | src/l3_rpc/function.h:54-58 | a body's nested calls go through the same endpoint and leave pool and packets as they were; its end and its pointees are those specified, also if it throws |
| TimerProtocol.TriggersRise | src/utils/timer.cpp:87-91 | no step makes a timer due earlier |
| TimerProtocol.InvAlways | src/utils/timer.cpp:147-229 | in every interleaving: the list has no duplicates, the worker's choice covers all listed timers, and a worker asleep with the cancel flag set has a notification coming |
| TimerProtocol.SafeResetsSuffice | src/utils/timer.cpp:87-91 | the worker never sleeps past a listed timer in any run whose resets are safe: not of the timer being chosen, or leaving it due no later than the other listed ones |
| TimerProtocol.NeverOversleeps | src/utils/timer.cpp:199-226 | nor in any run in which the chosen timer still has the time it was chosen for; without a deadline the worker sleeps only if there are no timers |
| TimerProtocol.ResetAfterChoice | src/utils/timer.cpp:201-207 | a reset after the choice makes the worker oversleep exactly if it is not safe |
| TimerProtocol.ResetDuringScan | src/utils/timer.cpp:233-257 | a reset of the timer being chosen, during the scan, makes the worker oversleep, undisturbed otherwise, exactly if no timer still to be looked at is due before it and the reset is not safe |
| TimerProtocol.OversleepingIsReachable | src/utils/timer.cpp:201-208 | a run in which the worker sleeps until 15, nobody is about to wake it, and at time 14 a listed timer that was due at 12 has not fired |
| TimerProtocol.FiresOnlyWhenDue | src/utils/timer.cpp:209-220 | a firing timer is listed and due, and is set a full interval ahead |
| TimerProtocol.FiringsSpaced | src/utils/timer.cpp:207-220 | firings of one timer are at least its interval apart |
| TimerProtocol.FiringRate | src/utils/timer.cpp:207-220 | a window of length L holds at most L / interval + 1 firings of a timer |
| TimerProtocol.BoundedBypass | src/utils/timer.cpp:199-221 | once a timer is due, each other timer fires at most once before it, while the list does not change and no wait is cut short |
| TimerProtocol.ShutdownProgress | src/utils/timer.cpp:147-155 | after a shutdown every step of the worker brings it closer to its end, and no other step takes it back |
| TimerProtocol.NeverStuckInShutdown | src/utils/timer.cpp:147-229 | until then it has a step to take or a notification on its way |
| TimerProtocol.CleanShutdown | src/l0_system/worker.cpp:113-124 | after a shutdown the worker takes at most five more steps and enters its action at most once more |
| TimerProtocol.UndisturbedChoice | src/utils/timer.cpp:199-208 | undisturbed, the worker sleeps for the first of the timers with the smallest trigger time, which is then at the back |
| TimerProgress.TimeoutFiresIff | src/utils/timer.cpp:209-220 | a wait that reaches its deadline fires the timer exactly if it is still at the back of the list with the trigger time slept for; otherwise nothing changes |
| TimerProgress.DueTimerFires | src/utils/timer.cpp:193-257 | a listed timer that is due fires after at most as many rounds of the worker as there are timers, if nobody interferes |
| TimerProgress.SleeperFires | src/utils/timer.cpp:199-220 | the worker sleeps until the first of the timers with the smallest trigger time is due, and then fires it |
| TimerProgress.AddChanges | src/utils/timer.cpp:159-171 | a new timer goes behind the others and the worker is signalled; a listed one changes nothing |
| TimerProgress.RemoveChanges | src/utils/timer.cpp:175-187 | a timer is removed from between the others, which keep their order, and the worker is signalled |
| TimerProgress.ListIsFree | src/utils/timer.cpp:159-187 | only the choosing worker keeps others, and callbacks, from adding and removing timers |
| TimerProgress.ChangeIsSeen | src/utils/timer.cpp:159-187 | a waiting worker is woken by a change of the list and starts again with the new one |
| TimerProgress.RemovedStaysSilent | src/utils/timer.cpp:175-187 | in every run, a removed timer does not fire before it is added again |
| TimerProgress.RestsAfterReset | src/utils/timer.cpp:87-91 | in every run, a timer that is reset does not fire for a full interval |
| TimerProgress.NewTimer | src/utils/timer.cpp:56-68 | a new timer is unlisted and due an interval after its creation |
| TimerProgress.WhatCanHappen | src/utils/timer.cpp:147-229 | which steps are possible when: time, resets, and spurious wake-ups always, the rest as stated |
| TimerProgress.NeverStuck | src/utils/timer.cpp:193-229 | the worker has a step to take unless it waits or is done |
| TimerProgress.CallbackEnds | src/l0_system/worker.cpp:113-124 | after a callback that throws, the worker first tests whether to terminate; after one that returns it goes on |
| TimerProgress.EndsOnRequest | src/l0_system/worker.cpp:113-124 | in every run the worker ends only if termination was requested, and then at its next test |
| IntrusiveList.List.PushFront | src/utils/list.cpp:53-70 | the links spell the item followed by the old sequence |
| IntrusiveList.List.PushBack | src/utils/list.cpp:74-91 | the links spell the old sequence followed by the item |
| IntrusiveList.List.Remove | src/utils/list.cpp:95-120 | the links spell the old sequence without the item, whose links are null |
| IntrusiveList.List.MoveToBack | src/utils/list.h:136-139 | the item goes to the back, the others keep their order |
| IntrusiveList.List.MoveToFront | src/utils/list.h:132-135 | the item goes to the front, the others keep their order |
| IntrusiveList.List.Contains | src/utils/list.h:141-143 | an item's list field tells exactly whether it is in the list |
| TimerThreads.TimerThread.Create | src/utils/timer.cpp:56-68 | a new timer is a full interval from its first firing; the step of the protocol |
| TimerThreads.TimerThread.Reset | src/utils/timer.cpp:87-91 | on the real timers, exactly the protocol's step |
| TimerThreads.TimerThread.Add | src/utils/timer.cpp:159-171 | on the real list, exactly the protocol's step, for listed and unlisted timers |
| TimerThreads.TimerThread.Remove | src/utils/timer.cpp:175-187 | the same |
| TimerThreads.TimerThread.RequestTermination | src/utils/timer.cpp:149 | the first half of a shutdown |
| TimerThreads.TimerThread.SignalStop | src/utils/timer.cpp:150-153 | the second half |
| TimerThreads.TimerThread.GetNextTimer | src/utils/timer.cpp:233-257 | on the real list, while other threads reset timers, the scan is a run of the protocol; if nobody does, it ends and finds the first of the timers with the smallest trigger time |
| TimerThreads.TimerThread.NextWait | src/utils/timer.cpp:199-225 | one pass of the worker up to its wait, while other threads reset timers, is a run of the protocol and ends asleep until the chosen timer's trigger time |
| TimerThreads.TimerThread.Expire | src/utils/timer.cpp:209-220 | the end of a wait is the protocol's step; the timer fires, and is set a full interval ahead, exactly if it is still last in the list with the same trigger time |
| SocketSets.SocketSet.Add | src/l0_system/socket.cpp:635-657 | both vectors grow by the socket and stay aligned |
| SocketSets.SocketSet.Remove | src/l0_system/socket.cpp:661-683 | the first occurrence leaves both vectors, the others keep their order; a socket that is not there changes nothing |
| SocketSets.SocketSet.Poll | src/l0_system/socket.cpp:687-723 | walks the set from the last to the first index and calls the callbacks until one throws; polite callbacks are called exactly for the sockets reported with data or a hang-up, last to first, and the number of those with data is returned |
| SocketSets.ExactlyOnceIff | src/l0_system/socket.cpp:706-720 | in a set of different sockets, whatever callbacks do within a permission to remove sockets and to throw, every socket that was ready is served exactly once, in descending order, and nothing is read out of range, if and only if no ready socket may remove one below its own, or throw while one below its own is ready |
| SocketSets.ThrowShows | src/l0_system/worker.cpp:114-124 | an exception ends the walk: of the calls due, exactly those for the sockets below are not made |
| SocketSets.PoliteWalk | src/l0_system/socket.cpp:706-720 | a walk whose callbacks keep away from the sockets still to be visited, and throw only if none of these is ready, serves every ready socket exactly once |
| SocketSets.PolitePoll | src/l0_system/socket.cpp:706-723 | in terms of what the operating system reports: one call for each socket with data or a hang-up, to the right callback, from the last to the first; the receive events counted are the sockets with data |
| SocketSets.SelfRemovalIsPolite | src/l0_system/socket.cpp:706-709 | so it does if callbacks remove only their own socket, whatever they add, and none throws while a socket below its own is ready |
| SocketSets.RemovingBelow | src/l0_system/socket.cpp:706-720 | an example: a callback that removes a socket below its own is called a second time |
| SocketSets.RemovingAll | src/l0_system/socket.cpp:706-720 | an example: a callback that removes both sockets makes the walk read beyond the vectors |
| ActiveProtocol.InvAlways | src/utils/active.h:41-68 | in every interleaving what was put is what was taken followed by the queue, and a worker asleep has a notification coming as soon as there is an item |
| ActiveProtocol.ExecutedInOrder | src/utils/active.cpp:70-78 | the executed calls are the first ones put, once each; at termination all before the first empty one, whether they threw or not |
| ActiveProtocol.OneStepCloser | src/l0_system/worker.cpp:114-124 | once an empty call was put, exactly the worker's steps bring it closer to its end |
| ActiveProtocol.EndsOnTime | src/utils/active.cpp:55-59 | the worker is gone exactly when it has made the number of steps known at the shutdown |
| ActiveProtocol.NeverStuck | src/utils/active.h:53-68 | until then it can move, or a notification on its way lets it |
| ActiveProtocol.WhatCanHappen | src/utils/active.h:41-68 | which steps are possible when; a call counts as executed whether it returns or throws |
| ActiveObjects.ActiveQueue.Put | src/utils/active.h:41-51 | the item goes to the back, and then a notification is given: two steps of the protocol |
| ActiveObjects.ActiveQueue.Wait | src/utils/active.h:59-61 | the worker sleeps until a notification, or wakes for no reason, and looks again; what is put meanwhile is in the queue |
| ActiveObjects.ActiveQueue.Get | src/utils/active.h:53-68 | through any number of wake-ups, a run of the protocol that ends with the first item taken; nothing put meanwhile is lost |
| ActiveObjects.ActiveObject.Action | src/utils/active.cpp:70-78 | takes one item: a call is executed and what it puts goes behind the queue, whether it throws or not; an empty one requests termination |
| ActiveObjects.ActiveObject.Run | src/l0_system/worker.cpp:114-124 | the loop is a run of the protocol up to the worker's end, with exactly the calls executed that were put before the first empty one, in order |
| Urls.PrintParse | src/l1_transport/url.cpp:57-102 | printing a parsed text gives the text, for every text |
| Urls.ParseIsCanonical | src/l1_transport/url.cpp:57-82 | what the parser returns is canonical |
| Urls.ParsePrint | src/l1_transport/url.cpp:57-102 | parsing a printed address gives the address exactly if it is canonical |
| Urls.SplitJoin | src/l1_transport/url.cpp:64-69 | splitting joined protocols gives them back if none contains a dot |
| Urls.TwoProtocols | src/l1_transport/url.cpp:57-82 | an address a.b://host/rest is taken apart at these characters, whatever its parts contain otherwise |
| Urls.OneProtocol | src/l1_transport/url.cpp:57-82 | the same for a://host and for a host alone |
| Urls.Url.FromString | src/l1_transport/url.cpp:57-82 | the loop over the dots computes the specified parse |
| Urls.Url.ToString | src/l1_transport/url.cpp:86-102 | the loop prints the specified text |

## Left out

- System calls, address resolution and blocking modes: sockets choose the number of bytes they move.
- The transport's packet pool: a TCP channel gets a fresh packet or none, at will.
- Log texts: only the bytes the formatter consumes, and its exceptions, are modelled; every packet is logged.
- `TcpThread`, `TcpTransport` and `utils/async`: they depend on operating-system events.
- Array lengths (`arraysize_t`) and `type_any`: the reader always uses length 1 and rejects `type_any`.
- Pointers to const as arguments: the reader's overload for them skips the copy back.
- String and pointer results: they would point into a recycled packet.
- Several callers at once on one endpoint: the reply slot is a single field without a lock.
- `LocalEndpoint` registration and names: the bound functions are a map.
- Object lifetime, destructors of lists, and items constructed into a list.
- Writes through pointers in the middle of a function: they take effect when it ends, so that a nested call
  cannot pass one of them on and see it change.
- Deferred calls that call `terminate()` themselves, and the worker's startup and shutdown hooks.
