# Verified model of the euryale transport stack

Stheno's middleware moves packets between peers over `euryale`: a packet is marshalled into a chain of message blocks,
queued and written piece by piece, cut up arbitrarily by the network, and put together again by the receiving channel.
This project models that path end to end in Dafny, together with the callback protocols that sit on top of it and the
self-contained algorithms beside it, and proves what the code promises about them for all inputs and all runs.

`dafny verify dfyconfig.toml` checks everything.

## How it is organised

| file | models |
|---|---|
| `Bytes.dfy` | octets and facts about concatenation |
| `Framing.dfy`, `PacketChannel.dfy` | the frame format as a function of the bytes, and the channel that reassembles packets in a growing buffer |
| `StreamOutput.dfy` | the output queue drained by partial writes |
| `Transport.dfy` | sender, network and receiver as one state machine over all interleavings |
| `Codec.dfy`, `CodecLaws.dfy` | the unaligned encoding as functions on values, and what it looks like on the wire |
| `ByteOutputStream.dfy`, `Marshalling.dfy` | the chain of blocks, size prediction, the stream and datagram paths |
| `ByteInputStream.dfy`, `Serialization.dfy` | the read calls, and writer and reader put together |
| `RequestGroup.dfy` | requests, engine map, futures and a group that waits for all of them |
| `ChannelManager.dfy` | channels that are added, removed and closed re-entrantly |
| `EditDistance.dfy`, `Swap.dfy`, `LongDouble.dfy` | Levenshtein distance, unrolled byte swaps, binary64 to binary128 |
| `ServiceParams.dfy`, `UUIDText.dfy`, `HierarchicalPath.dfy` | service parameters on the wire, the text form of identifiers, slash-separated paths |

Code that changes state step by step is modelled by classes, arrays and loops, each method proved against a function of
its inputs or its old state; the laws are lemmas about those functions. `Transport` steps by the very functions that the
contracts of `StreamOutput.HandleOutput` and `PacketChannel.HandleInputParsePacket` name. The header, the packet and its
factory, which are template parameters, are a header length between 1 and 1024, a function from header bytes to a body
length or failure, and a factory that consumes exactly the body. What the socket offers, when a deadline passes, whether
a queue is full and which packets the handler takes are given in advance, as arguments and fields, and the results hold
for all of them; so they do for all constants of the buffer growth policy. The configuration is the one compiled: no
alignment, no swapping on read, version 1.2 of the encoding.

## What the proofs showed about the code

- The value of a widened number is kept exactly when its 64-bit exponent field is not zero: zeros and subnormals are
  re-biased like normal numbers and denote something else, although the way back restores them bit for bit.
- The datagram path consolidates from the current block. A packet with a block at or above the copy threshold loses
  everything in front of that block.
- `setCloseListener` tests and assigns under the channel's lock, but `close` releases that lock before it marks the
  channel and looks for the listener. A close that looks between test and assignment, with no other call attending to
  the channel, leaves it in the manager's map, closed and never announced; nothing else does.
- A synchronous send or receive that fails calls `close` with the channel's lock held, and its callback waits for the
  manager's lock; a call that holds that lock and waits for the channel's completes the deadlock. A program can get there
  exactly if it uses some channel both with the manager and for synchronous sends or receives.
- A group wait that times out before all children are completed can deadlock in `detach`, over the group's and the
  child's lock or over the child's and the engine's; one that ends by success cannot. A thread that waits before `open`
  may sleep although all children are final: the group is signalled only if the last count is made by `onEvent`.
- The capacity a receive buffer grows to is a 32-bit sum; for announced bodies where it wraps it does not cover the body.
- A present but empty blob of service parameters comes back as no blob.
- `next_size` is documented as giving the second smallest suitable size; it gives the smallest one strictly larger.
- The pre-check of array reads multiplies in 32 bits; reads are exact all the same, because `adjust` checks again.

## Model

| member | source | states |
|---|---|---|
| `Transport.EndToEnd` | euryale/src/org/cracs/euryale/net/AbstractStreamChannel.h:594-634 | in every interleaving of queueing, partial writes, partial delivery, reads and parses, the packets queued are exactly those the run was given, each once and in order; the packets delivered are a prefix of those; no bad header is ever in front; and a block reported written has all its bytes and all earlier ones with the socket |
| `Transport.EnqueuedIsGiven` | euryale/src/org/cracs/euryale/net/AbstractStreamChannel.h:627-634 | queueing a packet queues it once, and nothing else queues anything |
| `Transport.StepKeepsInv` | euryale/src/org/cracs/euryale/net/PacketChannel.h:298-335 | every step keeps the conservation law: bytes accepted by the socket = frames of delivered packets, then the unconsumed, arrived and in-flight bytes, in that order |
| `Transport.InvMeansPrefix` | euryale/src/org/cracs/euryale/net/PacketChannel.h:378-530 | what is on the way decodes, without remainder, to exactly the packets not delivered yet |
| `Transport.QuiescentIsComplete` | euryale/src/org/cracs/euryale/net/PacketChannel.h:298-335 | when nothing is on the way and no packet is left to parse, every packet the run was given was delivered |
| `Transport.EveryStepMakesProgress` | euryale/src/org/cracs/euryale/net/AbstractStreamChannel.h:594-623 | every effective step but queueing strictly reduces the work left, so runs without new packets end |
| `Transport.NotStuck` | euryale/src/org/cracs/euryale/net/AbstractStreamChannel.h:594-623 | while a queued packet is undelivered, some step changes the state |
| `Framing.GrowthCoversBody` | euryale/src/org/cracs/euryale/net/PacketChannel.h:464-473 | the grown receive buffer covers the announced body if and only if the 32-bit sum of the three sizes does not wrap |
| `Framing.GrowthWraps` | euryale/src/org/cracs/euryale/net/PacketChannel.h:464-473 | a one-octet header announcing the largest body makes the sum wrap to the initial capacity |
| `Framing.DecodeSound` | euryale/src/org/cracs/euryale/net/PacketChannel.h:378-530 | the one-shot decode loses and invents nothing: frames of its packets followed by the rest are the input, and the rest holds no packet |
| `Framing.DecodeStops` | euryale/src/org/cracs/euryale/net/PacketChannel.h:378-530 | the decode stops exactly at a bad header, or where the bytes are too few for a header or its body |
| `Framing.DecodeRoundTrip` | euryale/src/org/cracs/euryale/net/PacketChannel.h:378-530 | decoding the frames of any packets followed by any bytes gives the packets, then the decode of those bytes |
| `Framing.FragmentationIndependence` | euryale/src/org/cracs/euryale/net/PacketChannel.h:298-335 | for every way of cutting a stream into reads, decoding after each read gives the one-shot decode |
| `Framing.FramesInjective` | euryale/src/org/cracs/euryale/net/PacketChannel.h:378-530 | a byte string is the frames of at most one packet sequence |
| `PacketChannels.PacketChannel.HandleInputParsePacket` | euryale/src/org/cracs/euryale/net/PacketChannel.h:378-530 | returns the first packet of the one-shot decode of the unconsumed bytes if there is one and removes exactly its frame; -1 exactly for a bad header in front; keeps the buffer invariant |
| `PacketChannels.PacketChannel.TakeHeader` | euryale/src/org/cracs/euryale/net/PacketChannel.h:456-493 | steps over a header and, if body bytes are missing, moves the rest to the base of a buffer that covers the whole body; the buffer grows exactly when the missing bytes do not fit |
| `PacketChannels.PacketChannel.ReadInputBuffer` | euryale/src/org/cracs/euryale/net/PacketChannel.h:245-267 | entered only with free space; takes exactly what the socket offers, up to that, and appends it to the unconsumed bytes; -1 exactly when the socket is silent, and then nothing changed |
| `PacketChannels.PacketChannel.ReceivePacket` | euryale/src/org/cracs/euryale/net/PacketChannel.h:154-206 | a complete packet is returned without touching the socket; otherwise bytes are read until one is complete; without a deadline the call fails, and closes the channel, only at a bad header or when the socket falls silent with no packet buffered; refused in asynchronous mode |
| `PacketChannels.PacketChannel.Asynchronous` | euryale/src/org/cracs/euryale/net/PacketChannel.h:208-235 | the flush hands over every complete packet up to the first the handler refuses; the switch succeeds exactly if all are taken, no bad header follows and there is a reactor; a bad header closes the channel |
| `PacketChannels.PacketChannel.HandleInput` | euryale/src/org/cracs/euryale/net/PacketChannel.h:298-335 | one read, then every complete packet up to the first the handler refuses; it succeeds exactly if the socket was not silent, all were taken and no bad header follows, and then the packets delivered are the one-shot decode of all bytes received, whatever modes and reads they came by |
| `PacketChannels.PacketChannel.Drain` | euryale/src/org/cracs/euryale/net/PacketChannel.h:298-335 | the loop over complete packets ends; it delivers exactly the packets of the one-shot decode up to the first refused, and its result says whether all were taken and whether a bad header follows |
| `PacketChannels.PacketChannel.DeliveredIsDecode` | euryale/src/org/cracs/euryale/net/PacketChannel.h:378-530 | at every moment the one-shot decode of all bytes received is what was delivered, then what is waiting |
| `PacketChannels.PacketChannel.DrainedMeaning` | euryale/src/org/cracs/euryale/net/PacketChannel.h:245-267 | a drained channel holds no packet and always has free space; every read is entered in that state |
| `StreamOutputs.SenderConserves` | euryale/src/org/cracs/euryale/net/AbstractStreamChannel.h:594-634 | written and owed bytes always make up, in order, everything queued |
| `StreamOutputs.WriteAppends` | euryale/src/org/cracs/euryale/net/AbstractStreamChannel.h:594-623 | a partial write appends to the accepted bytes exactly the next bytes owed |
| `StreamOutputs.StreamOutput.QueueOutput` | euryale/src/org/cracs/euryale/net/AbstractStreamChannel.h:627-634 | queues behind everything queued so far, unless the queue is full, on an open channel and on a closed one |
| `StreamOutputs.StreamOutput.HandleOutput` | euryale/src/org/cracs/euryale/net/AbstractStreamChannel.h:594-623 | one callback is one partial write of the head block, of exactly what the socket takes: it stays at the head while it has bytes left and leaves in state ES_SUCCESS otherwise; it fails exactly when the socket does, or when the head cannot be put back |
| `StreamOutputs.StreamOutput.SendSync` | euryale/src/org/cracs/euryale/net/AbstractStreamChannel.h:324-349 | the socket takes exactly what it offers to of what a block still has, or fails and the channel closes |
| `StreamOutputs.StreamOutput.SuccessMeansWritten` | euryale/src/org/cracs/euryale/net/AbstractStreamChannel.h:594-623 | a block is in state ES_SUCCESS only once its bytes and those of all earlier blocks are with the socket |
| `EditDistance.LD` | euryale/src/org/cracs/euryale/common/uuid/UUIDDistance.cpp:43-98 | the matrix loop returns the recurrence's value, for all strings including empty ones |
| `EditDistance.NextCell` | euryale/src/org/cracs/euryale/common/uuid/UUIDDistance.cpp:82-88 | a cell computed from its three neighbours with the source's minimum is the distance of the longer prefixes |
| `EditDistance.DistIsShortest` | euryale/src/org/cracs/euryale/common/uuid/UUIDDistance.cpp:43-98 | that value is the length of the shortest insert/delete/substitute script: one of that length exists and none is shorter |
| `EditDistance.DistBounds` | euryale/src/org/cracs/euryale/common/uuid/UUIDDistance.cpp:43-98 | it lies between the difference and the maximum of the two lengths |
| `EditDistance.DistSymmetric` | euryale/src/org/cracs/euryale/common/uuid/UUIDDistance.cpp:43-98 | it is symmetric |
| `EditDistance.DistZero` | euryale/src/org/cracs/euryale/common/uuid/UUIDDistance.cpp:43-98 | it is zero exactly on equal strings |
| `EditDistance.Triangle` | euryale/src/org/cracs/euryale/common/uuid/UUIDDistance.cpp:43-98 | it satisfies the triangle inequality |
| `CodecLaws.OnTheWire` | euryale/src/org/cracs/euryale/common/io/ByteOutputStream.cpp:129-413 | what every kind of item looks like on the wire, said without the reader: numbers by the weights of their octets in the host's order, strings as a length field counting the terminator, the octets and a zero, wide strings as a byte count and their low octets, booleans as 0 or 1 |
| `CodecLaws.OnABigEndianWire` | euryale/src/org/cracs/euryale/common/io/ByteOutputStream.cpp:304-326 | the octets of a short string and of a short on a big-endian host |
| `CodecLaws.FailsExactly` | euryale/src/org/cracs/euryale/common/io/ByteInputStream.cpp:278-631 | for arbitrary bytes a read fails exactly when fewer are there than it needs, or a wide character announces a foreign width |
| `CodecLaws.LeavesExactly` | euryale/src/org/cracs/euryale/common/io/ByteInputStream.cpp:278-631 | for arbitrary bytes a successful read leaves all but what it needed, and a partial last wide character |
| `CodecLaws.MeansExactly` | euryale/src/org/cracs/euryale/common/io/ByteInputStream.cpp:278-631 | for arbitrary bytes what a successful read returns, said without the writer: the number of the octets, a string up to its first zero, any non-zero octet as true, a two-octet wide character sign-extended |
| `Codec.ItemRoundTrip` | euryale/src/org/cracs/euryale/common/io/ByteInputStream.cpp:278-631 | parsing the encoding of any item followed by any bytes returns the item as it reads back and leaves exactly those bytes |
| `Codec.SequenceRoundTrip` | euryale/src/org/cracs/euryale/common/io/ByteInputStream.cpp:278-631 | the same for every sequence of items |
| `Codec.FaithfulExactly` | euryale/src/org/cracs/euryale/common/io/ByteOutputStream.cpp:247-413 | an item reads back unchanged if and only if it has no embedded NUL (strings) and its wide characters fit the wire width; a single two-byte one, which is sign-extended, must be below 0x8000 or at least 0xFFFF8000 |
| `Codec.SequenceFaithfulExactly` | euryale/src/org/cracs/euryale/common/io/ByteOutputStream.cpp:173-413 | a sequence reads back unchanged if and only if every item in it does |
| `Codec.WideTextRoundTrip` | euryale/src/org/cracs/euryale/common/io/ByteOutputStream.cpp:339-381 | a wide string, whose length field counts bytes, reads back narrowed and cut at its first NUL |
| `Codec.TextRoundTrip` | euryale/src/org/cracs/euryale/common/io/ByteOutputStream.cpp:304-326 | a string reads back up to its first NUL |
| `ByteOutputStreams.FirstSize` | euryale/src/org/cracs/euryale/Types.inl:206-233 | the smallest buffer size of the growth ladder that holds the request |
| `ByteOutputStreams.NextSize` | euryale/src/org/cracs/euryale/Types.inl:236-255 | the smallest buffer size strictly larger than the request |
| `ByteOutputStreams.SmallestIsLeast` | euryale/src/org/cracs/euryale/Types.inl:206-255 | no other size of the ladder that is large enough is smaller |
| `ByteOutputStreams.LadderDoubles` | euryale/src/org/cracs/euryale/Types.inl:206-233 | below the limit of exponential growth the sizes are the buffer size times powers of two |
| `ByteOutputStreams.LadderClimbs` | euryale/src/org/cracs/euryale/Types.inl:206-233 | from the limit on they grow by one chunk at a time |
| `ByteOutputStreams.ByteOutputStream.Adjust` | euryale/src/org/cracs/euryale/common/io/ByteOutputStream.h:149-177 | reserves the bytes at the end of the current block, or in exactly one new block when they do not fit or the block is not writable |
| `ByteOutputStreams.ByteOutputStream.GrowAndAdjust` | euryale/src/org/cracs/euryale/common/io/ByteOutputStream.h:76-147 | appends exactly one block of the stream's own, of the smallest size above both the bytes wanted and the size of the block so far, and reserves in it; earlier blocks keep their buffers and offsets |
| `ByteOutputStreams.ByteOutputStream.WriteArray` | euryale/src/org/cracs/euryale/common/io/ByteOutputStream.cpp:129-170 | the chain's contents grow by exactly the bytes written, in the same block if there is room, and the current block stays the last link |
| `ByteOutputStreams.ByteOutputStream.WriteBlock` | euryale/src/org/cracs/euryale/common/io/ByteOutputStream.cpp:514-567 | one caller block is copied when it is small and fits or is not owned, and shared otherwise; the contents grow by its bytes and it is not modified |
| `ByteOutputStreams.ByteOutputStream.WriteOctetArrayMb` | euryale/src/org/cracs/euryale/common/io/ByteOutputStream.cpp:514-567 | for a chain of any length the contents grow by the chain's bytes and neither the caller's blocks nor their buffers change |
| `ByteOutputStreams.ByteOutputStream.Reset` | euryale/src/org/cracs/euryale/common/io/ByteOutputStream.cpp:587-606 | starts over with the first block as the whole, empty chain |
| `ByteOutputStreams.TotalLength` | euryale/src/org/cracs/euryale/Types.cpp:565-576 | the number of live bytes of a chain |
| `ByteOutputStreams.Consolidate` | euryale/src/org/cracs/euryale/Types.cpp:582-620 | a single block of the smallest sufficient size holding exactly the chain's bytes, padded with zeros |
| `Marshalling.WriteItem` | euryale/src/org/cracs/euryale/common/io/ByteOutputStream.cpp:173-413 | writing an item appends exactly its encoding, across any block boundary |
| `Marshalling.StreamSize.AddItem` | euryale/src/org/cracs/euryale/common/io/StreamSize.cpp:92-235 | the predicted size grows by exactly the length of the encoding |
| `Marshalling.StreamSize.AddBlocks` | euryale/src/org/cracs/euryale/common/io/StreamSize.h:187-198 | a chain adds the length of its first block once per link, which is its length when it is one block |
| `Marshalling.PredictSize` | euryale/src/org/cracs/euryale/common/io/StreamSize.cpp:92-235 | the predicted size of a script of items and single blocks is exactly the number of bytes it writes |
| `Marshalling.SerializePacket` | euryale/src/org/cracs/euryale/net/PacketChannel.h:269-288 | the stream path always yields the whole packet, for every script, copy threshold and growth policy |
| `Marshalling.SerializeDatagram` | euryale/src/org/cracs/euryale/net/PacketDatagramChannel.h:181-195 | the datagram path, which consolidates from the current block, yields the whole packet if every block is below the copy threshold; for a positive threshold if and only if every block at or above it is the only part with bytes and, if its buffer is full, has no empty block that owns its data behind it; for a threshold of zero the same, without empty caller blocks |
| `Serialization.DatagramLosesFront` | euryale/src/org/cracs/euryale/net/PacketDatagramChannel.h:181-195 | for every positive threshold a packet that the datagram path cuts short |
| `Serialization.ReadBackItems` | euryale/src/org/cracs/euryale/common/io/ByteInputStream.cpp:278-631 | the read calls, one after the other, return every item and leave exactly the rest |
| `Serialization.RoundTrip` | euryale/src/org/cracs/euryale/common/io/ByteOutputStream.cpp:129-606 | items written through any growing chain, consolidated and read come back, unchanged if and only if each is faithful |
| `ByteInputStreams.ByteInputStream.Adjust` | euryale/src/org/cracs/euryale/common/io/ByteInputStream.cpp:1390-1411 | steps over the bytes if they are there and otherwise clears the good bit and stays |
| `ByteInputStreams.ByteInputStream.ReadArray` | euryale/src/org/cracs/euryale/common/io/ByteInputStream.cpp:488-528 | succeeds, on a good stream, if and only if the true product fits what remains, also where the 32-bit pre-check wraps; the good bit never comes back |
| `ByteInputStreams.ByteInputStream.ReadString` | euryale/src/org/cracs/euryale/common/io/ByteInputStream.cpp:359-399 | returns what the value-level parse says or fails with it; a zero length is the empty string |
| `ByteInputStreams.ByteInputStream.ReadWString` | euryale/src/org/cracs/euryale/common/io/ByteInputStream.cpp:415-485 | the same for wide strings; a partial last character is left unread |
| `ByteInputStreams.ByteInputStream.ReadBools` | euryale/src/org/cracs/euryale/common/io/ByteInputStream.cpp:565-583 | reads flags one by one, any non-zero octet being true, if and only if all are there |
| `ByteInputStreams.ByteInputStream.ReadWChar` | euryale/src/org/cracs/euryale/common/io/ByteInputStream.cpp:279-356 | a width octet and that many bytes, a two-byte value being sign-extended |
| `ByteInputStreams.ByteInputStream.ReadItem` | euryale/src/org/cracs/euryale/common/io/ByteInputStream.cpp:278-631 | every read call agrees with the value-level parse in value, position and failure |
| `ByteInputStreams.ByteInputStream.SkipString` | euryale/src/org/cracs/euryale/common/io/ByteInputStream.cpp:700-711 | skips exactly what reading would consume, and fails when reading would |
| `ChannelManagers.ExactlyOnce` | euryale/src/org/cracs/euryale/net/StreamChannelGroup.h:71-129 | for every interleaving, under the manager's and the channels' locks, of add, both removes, close and failing synchronous sends by any number of threads, a channel is never announced closed before it is closed, nor more often than accepted, and once all calls have returned exactly the channels that left the map were announced, once per acceptance, and all of them are closed |
| `ChannelManagers.AddedOnce` | euryale/src/org/cracs/euryale/net/StreamChannelGroup.h:71-91 | in every run a channel is announced as added at most once, and once all calls have returned if and only if it got its listener |
| `ChannelManagers.LateCloseHasNoEffect` | euryale/src/org/cracs/euryale/net/AbstractStreamChannel.h:424-436 | closing a channel that is closed, directly or through a send, returns at once and changes nothing |
| `ChannelManagers.StepKeepsBalance` | euryale/src/org/cracs/euryale/net/StreamChannelGroup.h:71-129 | every step of every thread keeps the balance of accepted, bound, owed and made notifications |
| `ChannelManagers.StepsRunOut` | euryale/src/org/cracs/euryale/net/AbstractStreamChannel.h:424-472 | the remove, close, onClose, remove recursion terminates: every step uses up a bounded budget |
| `ChannelManagers.RunKeepsInv` | euryale/src/org/cracs/euryale/net/StreamChannelGroup.h:71-129 | every step keeps: one holder per lock, a channel being added is in the map, inside setCloseListener's window it has no listener, and a channel in the map without a listener is being added or removed |
| `ChannelManagers.LeftBehindExactly` | euryale/src/org/cracs/euryale/net/AbstractStreamChannel.h:213-226 | once all calls have returned, a channel in the map is open and will call back if and only if the run did not lose it: no close looked for the listener between setCloseListener's test and assignment with no other call attending to the channel, or it was added or removed again later; otherwise it is in the map, closed, and its last acceptance is never announced |
| `ChannelManagers.LostExactly` | euryale/src/org/cracs/euryale/net/AbstractStreamChannel.h:424-472 | step by step: a channel is closed, in the map and unattended after a step exactly when it was before or this step loses it |
| `ChannelManagers.NoneLeftBehind` | euryale/src/org/cracs/euryale/net/AbstractStreamChannel.h:213-226 | in every run in which no close looks for the listener inside that window, every channel in the map is open and will call back once all calls have returned |
| `ChannelManagers.LeavingBehindExactly` | euryale/src/org/cracs/euryale/net/AbstractStreamChannel.h:424-472 | over all programs: some run leaves a channel behind if and only if the program both adds it and closes it itself |
| `ChannelManagers.LeftBehindByRace` | euryale/src/org/cracs/euryale/net/AbstractStreamChannel.h:213-226 | for every such channel a run, under the locks, that loses it: close passes its locked test, setCloseListener passes its own, close marks the channel and finds no listener |
| `ChannelManagers.ClearingListenerHasNoEffect` | euryale/src/org/cracs/euryale/net/AbstractStreamChannel.h:213-226 | setting the close listener to null leaves the channel as it was |
| `ChannelManagers.ProgressOrDeadlock` | euryale/src/org/cracs/euryale/net/StreamChannelGroup.h:82-129 | in every run, as long as some call has not returned, some thread can run, or one thread holds the manager's lock and waits for a channel's whose holder waits for the manager's |
| `ChannelManagers.DeadlockExactly` | euryale/src/org/cracs/euryale/net/AbstractStreamChannel.h:231-349 | over all programs, given by the set of calls they make: some run deadlocks if and only if there is a channel that the program both adds to the manager and uses for synchronous sends or receives |
| `ChannelManagers.DeadlockComesFrom` | euryale/src/org/cracs/euryale/net/AbstractStreamChannel.h:231-349 | in every deadlock one of the two threads is a synchronous send or receive on a channel that was added |
| `ChannelManagers.SendCanDeadlock` | euryale/src/org/cracs/euryale/net/AbstractStreamChannel.h:231-349 | for every such channel a run that deadlocks: a send that fails calls close with the channel's lock held, and a second add waits for it with the manager's |
| `ChannelManagers.NoDeadlockWithoutSends` | euryale/src/org/cracs/euryale/net/StreamChannelGroup.h:82-129 | in every run of a program with no such channel some thread can run as long as some call has not returned |
| `ChannelManagers.DeadlockForever` | euryale/src/org/cracs/euryale/net/AbstractStreamChannel.h:424-472 | two threads so entangled never move again, whatever the others do |
| `RequestGroups.GroupCompletion` | euryale/src/org/cracs/euryale/net/RequestGroup.h:57-200 | in every run with distinct children added before open, the finished counter never exceeds the number of final children and equals it once open has returned and no completion is on its way; the group is in ES_SUCCESS only when all children are final; and when they are and no completion is on its way, it is in ES_SUCCESS if and only if the last count was made by onEvent and not by open's look, which is so if open returned before it had counted them all |
| `RequestGroups.WaitOutcome` | euryale/src/org/cracs/euryale/net/RequestGroup.h:93-130 | in every run a group that is detaching or has returned is in ES_TIMEOUT if its wait timed out, and otherwise in ES_SUCCESS with every child counted and final |
| `RequestGroups.WaitLeaves` | euryale/src/org/cracs/euryale/net/RequestGroup.h:93-130 | a thread leaves its wait at once exactly if all children are counted, and later exactly at success or on timeout |
| `RequestGroups.RequestOutcome` | euryale/src/org/cracs/euryale/net/ChannelRequest.h:146-205 | in every run a request holds exactly the replies that reached it, at most one; it is in ES_SUCCESS only with a reply and otherwise cancelled, an answered one only by a group that is done waiting |
| `RequestGroups.EveryGroupCanSucceed` | euryale/src/org/cracs/euryale/net/RequestGroup.h:57-235 | for any requests and values there is a run in which a group of just these is opened, waits, has each request answered with its value, and returns from its wait in ES_SUCCESS |
| `RequestGroups.ReplyLands` | euryale/src/org/cracs/euryale/net/ChannelRequestEngine.h:67-102 | while no one holds the group's lock, a reply to a request that is not completed can run to its end: the request holds it, is out of the map, and a listening group has counted it once |
| `RequestGroups.OpenReturns` | euryale/src/org/cracs/euryale/net/RequestGroup.h:132-157 | opening never has to wait and ends with every child final or listened to |
| `RequestGroups.StepKeepsInv` | euryale/src/org/cracs/euryale/net/ChannelRequestEngine.h:67-123 | every step of requests, engine, group and waiter keeps the counting invariant; a replied request is told once and then unbound |
| `RequestGroups.NoMissedWakeUp` | euryale/src/org/cracs/euryale/net/RequestGroup.h:93-157 | a thread that began waiting after open finds ES_SUCCESS as soon as all children are final and no completion is on its way |
| `RequestGroups.WaitBeforeOpenSleeps` | euryale/src/org/cracs/euryale/net/RequestGroup.h:93-157 | a thread that waits before open can sleep although every child is final, the last count having been made by open's look |
| `RequestGroups.NoLateEffects` | euryale/src/org/cracs/euryale/net/RequestGroup.h:219-235 | once the group's wait has returned, every child is cancelled, none listens and no new reply can reach one, however the run goes on |
| `RequestGroups.TimeoutCanDeadlock` | euryale/src/org/cracs/euryale/net/RequestGroup.h:93-130 | a timeout that strikes while a completion is on its way stops both: detach and completion take the two locks in opposite order |
| `RequestGroups.DetachBlocksExactly` | euryale/src/org/cracs/euryale/net/RequestGroup.h:219-235 | some continuation blocks a detach for good if and only if a child yet to be let go of has not been completed or has a completion on its way |
| `RequestGroups.DetachReturns` | euryale/src/org/cracs/euryale/net/RequestGroup.h:219-235 | if no such child is left, detach never has to wait under any continuation and returns after as many turns as it has steps left |
| `RequestGroups.ThreatCanBlock` | euryale/src/org/cracs/euryale/net/ChannelRequest.h:146-173 | if there is one, a continuation that deadlocks: over the group's and the child's lock, or over the child's and the engine's |
| `RequestGroups.BlockedForever` | euryale/src/org/cracs/euryale/net/ChannelRequest.h:146-205 | once blocked, the wait never returns, whatever other threads do |
| `RequestGroups.SuccessIsSafe` | euryale/src/org/cracs/euryale/net/RequestGroup.h:93-130 | a wait that ends by success leaves no such child, so its detach always returns |
| `RequestGroups.EventFuture.SetFuture` | euryale/src/org/cracs/euryale/event/EventFuture.h:52-77 | a result is accepted exactly while the list has not been handed out, in order, and completes the future at the expected size |
| `RequestGroups.EventFuture.Detach` | euryale/src/org/cracs/euryale/event/EventFuture.h:118-136 | the list handed out holds every accepted result in order, and is handed out once |
| `ByteSwaps.Swap2Array` | euryale/src/org/cracs/euryale/Types.cpp:53-277 | for every n > 0, word size, byte order and permitted alignment, the memory afterwards is the old one with the n target elements holding the byte-reversed source elements; every word access is aligned |
| `ByteSwaps.Swap4Array` | euryale/src/org/cracs/euryale/Types.cpp:279-481 | the same for four-byte elements |
| `ByteSwaps.Swap2` | euryale/src/org/cracs/euryale/Types.inl:77-105 | one two-byte element reversed |
| `ByteSwaps.Swap4` | euryale/src/org/cracs/euryale/Types.inl:108-137 | one four-byte element reversed |
| `ByteSwaps.PairsBy64` | euryale/src/org/cracs/euryale/Types.cpp:130-226 | the 64-bit masks and shifts exchange the octets of four elements, stored whole or in quarters, in both byte orders |
| `ByteSwaps.PairsBy32` | euryale/src/org/cracs/euryale/Types.cpp:141-257 | the 32-bit masks and shifts do the same through two words loaded before the first store |
| `ByteSwaps.QuadsBy64` | euryale/src/org/cracs/euryale/Types.cpp:311-398 | four four-byte elements through two 64-bit words, stored whole or in halves |
| `ByteSwaps.QuadsBy32` | euryale/src/org/cracs/euryale/Types.cpp:399-466 | four four-byte elements through four 32-bit words |
| `Elements.OneByOneIsSwapped` | euryale/src/org/cracs/euryale/Types.cpp:53-277 | the unrolled result is that of the simple loop over single elements, whenever the copy does not overwrite what it has yet to read |
| `Elements.SwappedAt` | euryale/src/org/cracs/euryale/Types.cpp:53-277 | octet j of an element is the mirrored octet of the source element |
| `Elements.SwappedOutside` | euryale/src/org/cracs/euryale/Types.cpp:53-277 | nothing outside the target changes |
| `Elements.SelfInverse` | euryale/src/org/cracs/euryale/Types.cpp:53-277 | swapping there and back restores the source region |
| `Elements.SelfInverseInPlace` | euryale/src/org/cracs/euryale/Types.cpp:279-481 | swapping in place twice restores the whole memory |
| `LongDoubles.LongDouble.Assign` | euryale/src/org/cracs/euryale/Types.cpp:638-707 | the nibble-shifting loop produces the widened pattern, in either byte order |
| `LongDoubles.LongDouble.ToNative` | euryale/src/org/cracs/euryale/Types.cpp:729-804 | the reverse loop produces the narrowed pattern |
| `LongDoubles.BitsRoundTrip` | euryale/src/org/cracs/euryale/Types.cpp:638-804 | every 64-bit pattern, zeros, subnormals, infinities and NaNs included, survives widening and narrowing |
| `LongDoubles.NativeRoundTrip` | euryale/src/org/cracs/euryale/Types.cpp:638-804 | the same through memory, in either byte order |
| `LongDoubles.FractionWidens` | euryale/src/org/cracs/euryale/Types.cpp:676-695 | the fraction moves up by sixty bits and no digit changes |
| `LongDoubles.FractionNarrows` | euryale/src/org/cracs/euryale/Types.cpp:729-804 | narrowing any 128-bit pattern keeps the leading 52 bits of its fraction |
| `LongDoubles.HeadNarrows` | euryale/src/org/cracs/euryale/Types.cpp:729-804 | the exponent of any 128-bit pattern is re-biased modulo eleven bits; in the range of the 64-bit format sign and exponent are kept |
| `LongDoubles.ValueKeptExactly` | euryale/src/org/cracs/euryale/Types.cpp:638-707 | the 128-bit pattern denotes the same number if and only if the exponent field of the 64-bit one is not zero |
| `LongDoubles.ZeroIsNotKept` | euryale/src/org/cracs/euryale/Types.cpp:655-674 | zero is widened to a pattern that denotes a tiny positive number |
| `ServiceParameters.ServiceParams.Serialize` | stheno/src/org/cracs/stheno/service/ServiceParams.cpp:72-83 | appends identifier, optional fault-tolerance block, 32-bit length and the bytes of a blob held in any chain, which is not modified |
| `ServiceParameters.ServiceParams.Deserialize` | stheno/src/org/cracs/stheno/service/ServiceParams.cpp:85-99 | from the wire form followed by any bytes, restores identifier and fault-tolerance block, takes as much of the blob as the length field announces and leaves exactly what follows |
| `ServiceParameters.Layout` | stheno/src/org/cracs/stheno/service/ServiceParams.cpp:72-118 | the octets: a length and the identifier, a flag and behind a set one the replica count and the policy, a 32-bit length and the blob |
| `ServiceParameters.RoundTrip` | stheno/src/org/cracs/stheno/service/ServiceParams.cpp:72-140 | identifier and fault-tolerance block always come back; the blob does if and only if there is none or its length is neither zero nor beyond 32 bits |
| `ServiceParameters.EmptyBlobIsLost` | stheno/src/org/cracs/stheno/service/ServiceParams.cpp:72-99 | parameters with a present but empty blob that come back without one |
| `ServiceParameters.WriteFt` | stheno/src/org/cracs/stheno/service/FTServiceParams.cpp:40-43 | the presence flag, the replica count and the policy octet |
| `ServiceParameters.ReadFt` | stheno/src/org/cracs/stheno/service/FTServiceParams.cpp:45-48 | reads back exactly what was written |
| `ServiceParameters.ReadSid` | euryale/src/org/cracs/euryale/common/uuid/UUID.cpp:424-443 | reads back exactly the key that was written |
| `UUIDText.ToString` | euryale/src/org/cracs/euryale/common/uuid/UUID.cpp:346-373 | two upper-case hexadecimal digits for every octet |
| `UUIDText.Parse` | euryale/src/org/cracs/euryale/common/uuid/UUID.cpp:375-397 | the empty string and odd lengths are rejected, and of a hexadecimal string every two digits give one octet |
| `UUIDText.PrintAndParse` | euryale/src/org/cracs/euryale/common/uuid/UUID.cpp:346-397 | parsing the printed form returns the key, for every key but the empty one |
| `UUIDText.PrintedScanned` | euryale/src/org/cracs/euryale/common/uuid/UUID.cpp:346-397 | printing a parsed even-length hexadecimal string gives its upper-case form |
| `UUIDText.Compare` | euryale/src/org/cracs/euryale/common/uuid/UUID.cpp:168-173 | comparing text forms is the unsigned lexicographic order of the octets, zero exactly when the raw data test says equal |
| `UUIDText.SameDataExactly` | euryale/src/org/cracs/euryale/common/uuid/UUID.cpp:1031-1037 | the raw data test is equality |
| `HierarchicalPaths.HierarchicalPath.ParsePath` | euryale/src/org/cracs/euryale/common/HierarchicalPath.cpp:42-70 | fails exactly for paths of two or more characters that do not start with a slash; otherwise the canonical path is the closed input and equals a slash followed by each component and a slash |
| `HierarchicalPaths.SplitsUniquely` | euryale/src/org/cracs/euryale/common/HierarchicalPath.cpp:42-70 | a path has at most one list of slash-free components |
| `HierarchicalPaths.ParseAgain` | euryale/src/org/cracs/euryale/common/HierarchicalPath.cpp:42-70 | parsing the canonical path again changes neither path nor components |
| `HierarchicalPaths.AppendPaths` | euryale/src/org/cracs/euryale/common/HierarchicalPath.h:94-105 | exactly one slash lies between the two paths where either side has one |
| `HierarchicalPaths.ParseAppended` | euryale/src/org/cracs/euryale/common/HierarchicalPath.h:94-105 | the components of the appended path are those of the first, then those of the second with a leading slash supplied if missing |

## Left out

- PacketChannels.PacketChannel.HandleInput: announced body sizes whose 32-bit growth sum wraps are excluded by `Wire.Bounded`; `Framing.GrowthCoversBody` says exactly which those are.
- PacketChannels.PacketChannel.ReceivePacket: the factory always returns a packet of the announced size; a factory that fails or reads past its body is not modelled.
- PacketChannels.PacketChannel.HandleInputParsePacket: a bad header is deleted while `m_header` still points to it, and neither `receivePacket` nor `asynchronous` tests `m_close`; the model notes this (`dangling`) and says nothing about a call that would read the deleted header.
- ByteInputStreams.ByteInputStream.ReadWChar: requires the width octet to be the host's own; with another one the original writes as many bytes as the peer says into one variable.
- UUIDText.Parse: the characters are hexadecimal digits; what `sscanf` does with blanks, signs and other characters is not modelled.
- HierarchicalPaths.AppendPaths: the first path is not empty; the original reads in front of an empty one.
- EditDistance.LD: integers are unbounded; strings so long that the product of their lengths exceeds 32 bits are not modelled.
- Codec.TextRoundTrip: strings of 4 GiB and more, whose length field wraps, are excluded by `Encodable`.
- Marshalling.SerializeDatagram: message parts are single blocks; `StreamSize` adds the first block's length once per link, as `AddBlocks` states. With a threshold of zero, scripts with an empty caller block are left aside.
- ByteOutputStreams.Consolidate: the branch for a destination that is the source, which the callers never take.
- ByteOutputStreams.ByteOutputStream.Grow: the branch for a current block that already has a successor, which `Valid` rules out.
- RequestGroups.StepKeepsInv: a value-level step machine over the locks of group, request and engine; aliasing between objects, several requests contending for one engine's lock, adding after `open` and direct cancels are not modelled. `m_disableClearMap`, which `ChannelRequest` never initialises, is taken as false.
- ChannelManagers.ExactlyOnce: a value-level step machine with a call stack per thread; channel identifiers are distinct, and closes that must not call back are not modelled.
- ByteSwaps.Swap2Array: the inline assembly and intrinsic branches are not modelled; source and target lie in one flat memory.
- `ChannelManager::close` and the iterator it relies on.
- The synchronous send loop, which repeats `SendSync` until the block is empty and ends only if the socket keeps accepting bytes.
- Eight-byte scalars, whose upper half is lost by a 32-bit store; list helpers, which repeat the codec; codeset translators; other versions of the encoding.
- Allocation failure, object lifetimes, reference counts and copying of identifiers.
- The older `RDRStream`, `FlatHierarchicalPath`, the parent path of `HierarchicalPath`, execution flows, deadlines, service states and the Stheno core.
