# Verified model of iocom

iocom replicates byte arrays ("memory blocks") between two ends of a lossless byte
stream. This project models its protocol stack in Dafny and proves what the stack is
for: the receiver only ever sees whole snapshots of the sender's block, in order;
flow control never locks up; frames survive any splitting of the stream; no data frame
arrives before its target exists; a stream carried in replicated blocks loses nothing.
Around the stack it models iocom's self-contained algorithms (streamer ring, memory
pool, signal range search, device number table, switchbox multiplexing, signal index).

How the parts fit together:

- **Replication.** `Bytes`, `Blocks`, `Compression`, `SourceBuffer`, `DataFrames` and
  `TargetBuffer` specify one operation each on values; `SourceObject`, `TargetObject`,
  `SenderObject` and the array methods of `Compression` are the code itself, classes
  and arrays changed in place, proved equal to those functions. `Replication` runs both
  ends as a state machine over writes, sends, frame emissions, deliveries, receives and
  reconnections and proves snapshot consistency over every run.
- **Framing.** `Framing`, `InfoCodec`, `FrameReader` and `ReaderObject` cover headers,
  block information and the reader that does not know a frame's length until part of
  it has come. `Transport` shows that data frames over a byte stream behave as the FIFO
  of frames `Replication` assumes.
- **Flow control.** `FlowControl` has the wrapping counters and the checks made on
  them, `FlowProtocol` the two ends with unbounded counters beside the real ones.
- **Block information.** `BlockInfo`: which buffers exist when, at both ends.
- **Streamer.** `Ring`, `StreamerRing`, `StreamerSession`, `StreamerProgress`: the ring,
  its use over arbitrarily delayed copies of head, tail and buffer, the step machines on
  top, and that their transfers complete or fail at both ends.
- **Others.** `Pool`, `SignalRange`, `DeviceNumbers`, `SwitchboxRing`, `Switchbox` and
  `SwitchboxPass`, `SignalIndex`.

Four findings about the code are stated as theorems with the exact condition:

- A network name is lost when the device name is empty (`InfoCodec.InfoRoundTrip`).
- A streamer reader that asks for less than what its last copy offers, on the call on
  which it sees the writer's completion, loses the rest (`StreamerSession.CompletionIsExact`,
  `ShortReadLoses`, `LossIsPossible`); asking for the ring's capacity is always safe.
- The signal index compares full names but stores cut ones, so a signal whose memory block
  name is too long for its field is stored again each time it is added
  (`SignalIndex.AddedDistinct`, `LongNamesRepeat`). Device names are cut before they get
  there (extensions/dynamicio/ioc_dyn_root.c:734-737), block names are not.
- The multiplexing loop's `continue` at code/ioc_switchbox_socket.c:1046 re-tests the loop
  without advancing to the next client, so it never ends when room for a header and a byte
  runs out between the first client's turn and the last's. It ends if and only if there is at
  most one client, no room to begin with, or room to serve all clients but the last
  completely and one header and byte more (`SwitchboxPass.PassEndsIff`, `PassCanHang`).
  The pass as it is meant, which stops when nothing more fits, always ends
  (`SwitchboxPass.MuxPass`, `ServesBeginning`), and the loop as written does the same
  whenever it ends (`EndsAsMeant`).

Where code and comments differ, the model follows the code: `ioc_compress` refuses ranges
of fewer than four bytes where its comment says three.

`dafny verify dfyconfig.toml` checks the project.

## Model

| member | source | states |
|---|---|---|
| Replication.SnapshotConsistency | code/ioc_memory_block.c:901-1024 | After any run, the receiver's block is its initial contents, or exactly the sender's whole block at an earlier synchronize that took a snapshot |
| Replication.SnapshotsAdvance | code/ioc_target_buffer.c:335-427 | The snapshot the receiver shows never goes back in time along a run |
| Replication.LogHoldsBlocks | code/ioc_source_buffer.c:408-542 | The recorded snapshots are the sender's blocks at the synchronize times, in order |
| Replication.NextKeepsInv | code/ioc_connection_send.c:198-364 | Convergence invariant, kept by every action: applying all frames in flight and then the unsent part of delta to the receiver's data yields the snapshots one after another, and every byte where block and snapshot differ is in the dirty range |
| Replication.RunInv | code/ioc_source_buffer.c:408-542 | The invariant holds in every state of every run |
| Replication.DeliverKeepsInv | code/ioc_connection_receive.c:583-631 | Storing the next frame in flight never fails, and keeps the invariant |
| Replication.ReconnectKeepsInv | code/ioc_connection.c:756-775 | When both ends have noticed the loss, starting again with new buffers and a key frame keeps the invariant |
| Replication.LoseKeepsInv | code/ioc_connection.c:756-775 | Either end may lose the connection first: while the other still sends into the void or receives what is on the way, the invariant holds |
| Replication.ChainEmit | code/ioc_connection_send.c:198-364 | A frame emitted at the end of the wire takes over exactly what was pending |
| Replication.ChainSynchronize | code/ioc_source_buffer.c:429-514 | A new snapshot joins behind all frames in flight without disturbing them |
| Replication.QuiescentMeansEqual | code/ioc_source_buffer.c:330-383 | With nothing dirty, unsent, in flight or unreceived, both blocks are equal |
| Replication.CanSettle | code/ioc_memory_block.c:831-1024 | From every state with the invariant, sends, emissions, deliveries and receives alone lead to a quiescent state in which the receiver has the sender's current block |
| Replication.CanConverge | code/ioc_connection.c:756-775 | From every state with the invariant, broken connections included, the receiver can come to hold the sender's present block without another write |
| SourceBuffers.SnapshotTaken | code/ioc_source_buffer.c:408-542 | What a synchronize leaves to be sent turns a receiver holding the previous snapshot (or, for a key frame, anything) into the block as it is now |
| SourceBuffers.WriteKeepsValid | code/ioc_memory_block.c:614-677 | Any write keeps every byte that differs from the snapshot inside the dirty range |
| SourceBuffers.IdleSynchronize | code/ioc_source_buffer.c:429-490 | A synchronize that takes no snapshot changes at most the dirty range, and then the last snapshot is the block as it is, or the previous one is still being sent |
| SourceBuffers.WriteStores | code/ioc_memory_block.c:645-669 | The bytes a write stores, at which addresses, and that all others stay |
| SourceBuffers.InvalidateTight | code/ioc_source_buffer.c:340-375 | The dirty range covers old range and changes and no more than it must: ends of a change below 256 bytes are bytes that really differ |
| SourceBuffers.SendsOnlyChanges | code/ioc_source_buffer.c:429-504 | A key frame sends the whole block; otherwise the dirty range cut to its first and last changed byte, and nothing exactly when nothing differs |
| SourceBuffers.DeltaApplied | code/ioc_source_buffer.c:492-514 | Adding the delta bytes modulo 256 to the old snapshot gives the block |
| SourceBuffers.KeyApplied | code/ioc_source_buffer.c:440-450 | A key frame turns any receiver contents into the block |
| SourceObjects.SourceBuffer.Invalidate | code/ioc_source_buffer.c:330-383 | In place: the dirty range grows by the changed bytes, shrunk to those that really differ |
| SourceObjects.SourceBuffer.Write | code/ioc_memory_block.c:614-677 | In place: exactly the bytes from the address on, as far as the block reaches, become the data, byte for byte; nothing else changes; the change is invalidated |
| SourceObjects.SourceBuffer.WriteText | code/ioc_memory_block.c:651-669 | The field becomes the string, cut or followed by zeros, byte for byte; without a string it is cleared |
| SourceObjects.SourceBuffer.Synchronize | code/ioc_source_buffer.c:408-542 | In place: snapshot, delta and range are those of the value-level synchronize |
| SourceObjects.SourceBuffer.EncodeDelta | code/ioc_source_buffer.c:492-497 | The loop writes block minus snapshot, modulo 256, over exactly the range |
| SourceObjects.SourceBuffer.ReallyChanged | code/ioc_source_buffer.c:347-361 | The shrink loops find the first and last differing byte, or that there is none |
| DataFrames.Fragmentation | code/ioc_connection_send.c:230-353 | For any series of attempts, accepted frames cover the range of one synchronize contiguously, once each and in order; the complete flag is on the last only; each accepted frame shrinks the rest; cancelled attempts change nothing |
| DataFrames.FrameCarries | code/ioc_connection_send.c:230-353 | An accepted frame decodes at the receiver to exactly the next k bytes of the source, k > 0, complete exactly when nothing remains |
| DataFrames.FragmentCarries | code/ioc_connection_send.c:230-278 | Compressed or copied, a fragment decodes to the bytes it consumed |
| DataFrames.FragmentNeverGrows | code/ioc_connection_send.c:262-275 | Compression is used exactly where it makes the payload shorter |
| DataFrames.CancelledIff | code/ioc_connection_send.c:277-287 | A frame is cancelled exactly when header and payload do not fit the room on air |
| TargetBuffers.StoreShows | code/ioc_connection_receive.c:583-631 | A stored frame changes only pending data; only a complete frame makes the whole of it ready for the application |
| TargetBuffers.SynchronizeShows | code/ioc_target_buffer.c:335-427 | After a synchronize the buffer is the whole new data, though only the changed range is copied |
| TargetBuffers.ReceiveShows | code/ioc_memory_block.c:901-1024 | After a receive the block is the last completed snapshot, though only the ready range is copied |
| TargetBuffers.ReadyTight | code/ioc_target_buffer.c:374-426 | The range reported to the application grows by no more than what has changed |
| TargetBuffers.StoreRefuses | code/ioc_connection_receive.c:583-631 | A frame is refused exactly when it starts behind the block or is corrupted, and then block and snapshot stay |
| TargetObjects.TargetBuffer.Store | code/ioc_connection_receive.c:583-631 | In place: decoding into the target and marking it, or refusing a frame that does not fit, as specified |
| TargetObjects.TargetBuffer.Synchronize | code/ioc_target_buffer.c:335-427 | In place: as specified on values |
| TargetObjects.TargetBuffer.Receive | code/ioc_memory_block.c:901-1024 | In place: as specified on values |
| Blocks.ShrinkRange | code/ioc_target_buffer.c:374-386 | The two loops over arrays find exactly the shrunken range |
| Compression.PackUnpack | code/ioc_compress.c:60-117 | Unpacking what was packed yields exactly the bytes consumed, for every source, destination size and receiver room |
| Compression.PackFills | code/ioc_compress.c:83-87 | Packing stops only when the next literal run and its count do not fit |
| Compression.ZerosShrink | code/ioc_compress.c:93-109 | n zeros pack to two bytes for each 255 of them |
| Compression.PackExample | code/ioc_compress.c:60-117 | The compressed bytes of one literal, four zeros and one literal |
| Compression.UnpackTruncated | code/ioc_compress.c:164-230 | A literal count that runs past the end of the data is reported |
| Compression.Compress | code/ioc_compress.c:60-117 | On arrays: either -1 with the start unchanged, or 0 < r <= dst_sz with r smaller than the bytes consumed and the packed bytes stored; n zeros take two bytes for each 255; the loops end |
| Compression.Uncompress | code/ioc_compress.c:164-230 | On arrays: stores, or adds modulo 256, exactly the unpacked bytes and nothing else, or reports corrupt data |
| Compression.ScanLiteral | code/ioc_compress.c:72-81 | The literal run: every byte nonzero or right before a nonzero byte, up to two zeros, one zero at the window's end, or the end of the window of 255 |
| Compression.ScanZeros | code/ioc_compress.c:93-102 | The zero run: all zeros up to the next nonzero byte or the end of the window |
| SenderObjects.Sender.MakeDataFrame | code/ioc_connection_send.c:198-364 | In place: emits exactly the specified frame in its printed form, which fits the room on air, and advances source and frame number, or is cancelled by flow control and leaves both unchanged |
| SenderObjects.Sender.GenerateHeader | code/ioc_connection_send.c:794-875 | Prints the variable-width header with the flag bits and extra flags for the widths of identifier and address, data size and checksum still zero |
| SenderObjects.Sender.FinishFrame | code/ioc_connection_send.c:316-363 | The finished buffer is the specified frame, with data size and checksum filled in |
| SenderObjects.Sender.SetFlags | code/ioc_connection_send.c:298-353 | Or-ing in the compressed and complete bits gives the flags byte of the emitted frame |
| SenderObjects.Sender.PutUint | code/ioc_connection_send.c:1038-1067 | Prints a number in one, two or four bytes, low byte first, and sets the flag bit for its width |
| SenderObjects.Sender.SendAcknowledge | code/ioc_connection_send.c:480-533 | The buffer holds the acknowledge of all bytes received, which are then acknowledged |
| SenderObjects.Sender.AcknowledgeAsNeeded | code/ioc_connection_send.c:612-661 | Refuses exactly when there is no room for an acknowledge; otherwise acknowledges exactly when one is due |
| SenderObjects.Sender.WriteToStream | code/ioc_connection_send.c:678-766 | Partial writes give out the pending bytes in order and count them |
| SenderObjects.Sender.TakeAcknowledge | code/ioc_connection_receive.c:131-138 | The count taken prints as the acknowledge it came in; when the peer had received `count` of `sent` bytes, the checked difference is now exactly `sent - count` |
| Framing.FrameRoundTrip | code/ioc_connection_send.c:794-875 | For all 32-bit block identifiers and addresses, serial and socket: the receiver decodes a printed frame to the same header, flags and data |
| Framing.NeededIsSize | code/ioc_connection_receive.c:237-422 | The size the reader computes from the first bytes is header plus data size |
| Framing.FixedLayout | code/ioc_connection.h:156-162 | Frame number, checksum, flag bits and data size stand where and as the format says, for both layouts |
| Framing.AddressLayout | code/ioc_connection.h:168-170 | Extra flags, block identifier, address and data follow, numbers low byte first in one, two or four bytes |
| Framing.UintRoundTrip | code/ioc_connection_receive.c:713-734 | Numbers printed in one, two or four bytes are read back, and exactly their bytes consumed |
| InfoCodec.InfoRoundTrip | code/ioc_memory_block_info.c:396-430 | Block information decodes to the same fields if and only if the device has a name or the network has none |
| InfoCodec.InfoDecodes | code/ioc_connection_send.c:381-457 | Block information decodes to what was sent, with the network name only if there is a device name |
| InfoCodec.NetworkNameLost | code/ioc_connection_send.c:381-457 | A concrete block whose network name does not arrive |
| InfoCodec.InfoOnWire | code/ioc_memory_block_info.h:75-81 | The bytes of one block's information |
| InfoCodec.LongNameRefused | code/ioc_connection_receive.c:651-671 | A name is refused exactly when it does not fit its field or has not come whole |
| InfoCodec.ValidIff | code/ioc_memory_block_info.h:33-41 | Which names and numbers can be sent |
| FrameReader.ReadsOneFrame | code/ioc_connection_receive.c:237-422 | On a well-formed frame, for any delivery, the reader ends with the whole frame and not a byte more, or waits inside it; it never fails |
| FrameReader.ReaderYieldsFrames | code/ioc_connection_receive.c:237-422 | For any frames and acknowledges in sequence and any splitting, repeated reads yield a beginning of those frames, the rest still waiting; they never fail or overrun a frame |
| FrameReader.ReaderYieldsAll | code/ioc_connection_receive.c:237-422 | When as many reads find data as there are bytes, whatever other reads come between, exactly the whole sequence is yielded and the stream used up |
| FrameReader.WrongNumberFails | code/ioc_connection_receive.c:396-411 | Anything but an acknowledge or the expected frame number is an error at its first byte |
| FrameReader.TooBigFails | code/ioc_connection_receive.c:258-345 | A frame longer than the frame buffer is an error as soon as its size is known |
| FrameReader.NumbersCycle | code/ioc_connection_receive.c:177-184 | Frame numbers are 0 and then 1 to 200 over and over |
| FrameReader.EncodedInSequence | code/ioc_connection_send.c:291-296 | Sender and receiver frame numbers stay in step through 0, 1..200, 1.. |
| FrameReader.EncodedDataDecodes | code/ioc_connection_receive.c:147-193 | A printed data frame passes the checksum test and decodes to what was sent |
| FrameReader.ChecksumIff | code/ioc_connection_receive.c:147-165 | A checksum is accepted if and only if it is that of the frame with zeros in its place |
| FrameReader.MessagesArrive | code/ioc_connection_receive.c:55-213 | Whatever messages are sent are read back frame by frame from a stream that delivers in any pieces, and all of them once as many reads have found data as there are bytes |
| FrameReader.AckRoundTrip | code/ioc_connection_send.c:505-519 | An acknowledge carries the count modulo 2^16 or 2^24 |
| FrameReader.AckLayout | code/ioc_connection_send.c:505-519 | The bytes of an acknowledge |
| ReaderObjects.FrameBuffer.ReadFrame | code/ioc_connection_receive.c:237-422 | The loop over the frame buffer returns, keeps and consumes exactly what the specified reader does, and never overruns the buffer |
| ReaderObjects.FrameBuffer.Measure | code/ioc_connection_receive.c:258-345 | The size branches of both layouts compute the specified frame size, and refuse exactly the frames that do not fit the buffer |
| Transport.FramesCross | code/ioc_connection_receive.c:449-500 | Data frames sent over a stream that splits reads in any way arrive as a FIFO: the same frames, in order, none invented, and all of them after enough reads that find data |
| FlowControl.MaskedIsExact | code/ioc_connection_send.c:280-287 | The masked difference of wrapping counters is the true difference |
| FlowProtocol.InAirBound | code/ioc_connection_send.c:637-644 | Unacknowledged bytes with the pending frame stay within the acknowledge limit plus one acknowledge per keep-alive since the last checked send; the checked difference is their exact number |
| FlowProtocol.ChecksAreExact | code/ioc_connection_send.c:277-287 | The checks before a send compare the true number of unacknowledged bytes with the data limit and the acknowledge limit |
| FlowProtocol.AcksGoFirst | code/ioc_connection_send.c:76-101 | No data frame is made while an acknowledge is due or has no room |
| FlowProtocol.FirstAckForced | code/ioc_connection.c:923-928 | A fresh connection starts with an acknowledge at either end, which has room, before any data |
| FlowProtocol.LimitValues | code/ioc_connection.h:57-112 | The configured limits in numbers |
| FlowProtocol.AckDueExactly | code/ioc_connection.c:925-929 | An acknowledge is due exactly before the first one or when the threshold is reached |
| FlowProtocol.NextKeepsInv | code/ioc_connection_send.c:612-661 | Every step of either end keeps the counting invariant |
| FlowProtocol.ReachableInAir | code/ioc_connection_send.c:698-712 | The bound at both ends, in every reachable state |
| FlowProtocol.SerialOutstanding | code/ioc_connection.h:79-87 | Without keep-alives a serial peer never has more than 255 bytes outstanding |
| FlowProtocol.SocketOutstanding | code/ioc_connection.h:88-112 | A socket peer never has more than 44 frames and 520 bytes outstanding without keep-alives |
| FlowProtocol.NeverBothRefused | code/ioc_connection.h:65-111 | With nothing in transit, not both ends are refused room for an acknowledge |
| FlowProtocol.NoLockUp | code/ioc_connection.h:65-111 | In every reachable quiet state where data is refused, one end may send an acknowledge that is due |
| FlowProtocol.CanMakeRoom | code/ioc_connection_send.c:612-661 | From every state with the invariant and no keep-alives, acknowledging, writing and reading alone lead to one where a frame of any permitted size may be made |
| BlockInfo.InfoBeforeData | code/ioc_connection_receive.c:449-475 | In every run, in both directions, an arriving data frame finds its target buffer, and it belongs to the block it was made from |
| BlockInfo.LinksAgree | code/ioc_memory_block_info.c:683-845 | When nothing is left to send, one end's source buffers are exactly the other's target buffers, with identifiers crossed over |
| BlockInfo.CanSettle | code/ioc_memory_block_info.c:188-332 | From every reachable state, sending and hearing information alone leads to an end where the ends agree on every link, and every pair of matching blocks the device had not announced before is linked at both ends in each direction both allow |
| BlockInfo.MatchingBlocksLink | code/ioc_memory_block_info.c:496-662 | Received information links a known block in every direction both ends allow |
| BlockInfo.DynamicBlockLinks | code/ioc_memory_block_info.c:538-573 | Information about an unknown block creates one with the same direction flags and links it in each of them |
| BlockInfo.OneLinkPerBlock | code/ioc_memory_block_info.c:683-845 | In every run, each end has at most one source and one target buffer for a block |
| BlockInfo.DataGetsThrough | code/ioc_connection_send.c:138-173 | Once everything is announced, every linked source buffer with a remote identifier can send, and its data finds the target of its block |
| BlockInfo.NextKeepsInv | code/ioc_connection_send.c:128-173 | Every action keeps: data in flight is preceded by the information that creates its target |
| BlockInfo.SendInfoControlKeeps | code/ioc_memory_block_info.c:188-332 | Sending information of the next unannounced buffer, and moving both cursors, keeps the invariant |
| BlockInfo.TargetOf | code/ioc_connection_receive.c:462-475 | The target found has the frame's block identifier; none is found only if none has it |
| Ring.WriteInternal | code/ioc_streamer.c:1277-1329 | Stores as many bytes as are free, around the ring, and nothing else |
| Ring.ReadInternal | code/ioc_streamer.c:1202-1261 | Returns the oldest bytes, at most as many as asked for, and moves the tail unless peeking; -1 and an unmoved tail exactly when a move it makes finds the block disconnected |
| StreamerRing.StreamIsPrefix | code/ioc_streamer.c:535-557 | For every interleaving with arbitrarily delayed head, tail and buffer, the bytes taken are a prefix of the bytes accepted |
| StreamerRing.NextKeepsInv | code/ioc_streamer.c:1202-1329 | Every action keeps that no slot is overwritten before its byte is taken, in any copy in flight |
| StreamerRing.AvailableIs | code/ioc_streamer.c:1077-1102 | What the reader computes from head and tail as available is exactly what it has not taken of the published bytes it looked at |
| StreamerRing.FreeIs | code/ioc_streamer.c:1277-1329 | What the writer computes as free is all but one slot less what it does not know to be taken |
| StreamerSession.CompletionIsExact | code/ioc_streamer.c:492-645 | For both directions, any calls and any timeouts: a reader in its completed step has every accepted byte if and only if its completing read was not cut short |
| StreamerSession.GenerousReaderGetsAll | code/ioc_streamer.c:1026-1184 | A reader that always asks for the ring's capacity and completes has every byte the writer accepted |
| StreamerSession.ShortReadLoses | code/ioc_streamer.c:675-815 | A completing read that asks for less than is offered loses bytes |
| StreamerSession.LossIsPossible | code/ioc_streamer.c:842-998 | A concrete run in which this happens |
| StreamerSession.NextKeepsInv | code/ioc_streamer.c:492-998 | Every call of the four step machines and every delivery keeps the session invariant |
| StreamerProgress.TransferCompletes | code/ioc_streamer.c:492-1184 | For both directions, any ring that holds a byte and any data: a run without timeout or interrupt after which both ends are completed and the reader has exactly the data |
| StreamerProgress.AbortReachesBoth | code/ioc_streamer.c:492-1184 | An interrupt at either end of a running transfer, in either direction, can bring both ends to rest without a timeout |
| StreamerProgress.WriterTimesOut | code/ioc_streamer.c:842-998 | An elapsed timeout ends every waiting step of a writer |
| StreamerProgress.ReaderTimesOut | code/ioc_streamer.c:675-815 | An elapsed timeout ends every waiting step of a reader |
| StreamerProgress.StalledFails | code/ioc_streamer.c:535-575 | A transfer that finds the ring full, or empty, fails once its timeout has elapsed, and waits before; one that can move bytes goes on |
| StreamerProgress.Waits | code/ioc_streamer.c:492-1184 | Before its timeout, an end that waits for the other to open, close or stop changes nothing |
| StreamerProgress.InterruptFails | code/ioc_streamer.c:492-1184 | An interrupt, or a failing block move, fails a transfer that is being opened or under way |
| StreamerProgress.DeviceOpensIff | code/ioc_streamer.c:516-533 | A device opens exactly on a command that is running or completed |
| StreamerProgress.Disconnects | code/ioc_streamer.c:492-530 | A lost connection ends a session at once and resets its state signal |
| Pool.Partition | code/ioc_memory.c:128-189 | Every address below poolpos, and no other, is in exactly one block, in use or released |
| Pool.MemoryPool.Malloc | code/ioc_memory.c:128-189 | Takes a released block of exactly the size if there is one, else fresh pool; fails if and only if neither is possible; keeps partition and chains |
| Pool.MemoryPool.Free | code/ioc_memory.c:214-266 | The block becomes a released block of its size and nothing else changes hands; keeps partition and chains |
| Pool.TakeSecond | code/ioc_memory.c:157-163 | Relinking around the second block keeps distinct head sizes and one size per chain |
| Pool.TakeOnlyInside | code/ioc_memory.c:164-169 | Unlinking a chain's only block keeps all other chains |
| Pool.PutSecond | code/ioc_memory.c:252-260 | Linking behind the head keeps the chains |
| Pool.PutFirst | code/ioc_memory.c:262-265 | A block of a new size becomes the first chain |
| SignalRange.GetSignalRange | code/ioc_signal_addr.c:117-209 | Null exactly when no signal is touched; otherwise an interval that holds every touched signal, with at most the outermost untouched and only when the range ends in the hole beside it; exact without holes |
| SignalRange.Search | code/ioc_signal_addr.c:142-164 | Either binary search separates the signals that end before the address from those that start after it |
| SignalRange.TouchesIsOverlap | code/ioc_signal_addr.c:86-96 | A signal is touched exactly when it shares an address with the range |
| SignalRange.BytesAreFewest | code/ioc_signal_addr.c:36-66 | A status byte and the fewest bytes that hold all elements of any type; a single boolean lives in the status byte |
| DeviceNumbers.Reservations.Reserve | code/ioc_auto_device_nr.c:114-159 | For an identifier that is not all zeros: a number in range; a remembered identifier gets its number back, otherwise the next number of the cycle is given and the registration recorded |
| DeviceNumbers.Reservations.GetAutomatic | code/ioc_auto_device_nr.c:51-68 | A reserved number is given exactly to identifiers with a nonzero byte; it is in range, the one remembered if there is one, and remembered afterwards |
| DeviceNumbers.Reservations.Register | code/ioc_auto_device_nr.c:122-159 | An unknown identifier gets the next number of the cycle and replaces the oldest registration |
| DeviceNumbers.Reservations.SelectRow | code/ioc_auto_device_nr.c:135-151 | The loop finds the first row with the smallest replacement key |
| DeviceNumbers.SmallestIsOldest | code/ioc_auto_device_nr.c:131-151 | That row is the first unused one or that of the oldest registration, across wrap-around |
| DeviceNumbers.KeyFollowsAge | code/ioc_auto_device_nr.c:131-151 | The replacement key grows with the time of registration, also when numbers have started over |
| DeviceNumbers.TableHoldsLatest | code/ioc_auto_device_nr.c:114-159 | After unboundedly many registrations the table holds exactly the last ones, each with its own number |
| DeviceNumbers.NumbersDistinct | code/ioc_auto_device_nr.c:122-130 | Nonzero numbers in the table are in range and pairwise distinct |
| SwitchboxRing.RingMove | code/ioc_switchbox_util.c:130-179 | Moves a prefix of one FIFO queue to the end of another, limited by request, contents and space, for any sizes and wrap points |
| SwitchboxRing.CopyAround | code/ioc_switchbox_util.c:150-172 | The copy loop stores exactly the wanted bytes across both wrap points |
| Switchbox.ClientsKeepOrder | code/ioc_switchbox_socket.c:1037-1157 | In every run the shared bytes parse as headers with exactly the announced payload, and what a client receives is a prefix of what its peer wrote, all of it when nothing is on the way |
| Switchbox.CanDeliver | code/ioc_switchbox_socket.c:1037-1157 | From every reachable state, everything a client has written can reach its peer through ring buffers of any size that hold a header and a byte |
| Switchbox.NextKeepsInv | code/ioc_switchbox_socket.c:1037-1157 | Every multiplexing, transport and demultiplexing step conserves each client's bytes in order |
| Switchbox.HeaderRoundTrip | code/ioc_switchbox_util.c:40-111 | Client identifier and length survive the message header |
| Switchbox.HeaderLayout | code/ioc_switchbox_util.c:101-106 | The header's bytes, low byte first; positive lengths announce data |
| Switchbox.MessageMeans | code/ioc_switchbox_socket.c:1057-1062 | A message brings its payload to its client and nothing to others |
| Switchbox.MuxClient | code/ioc_switchbox_socket.c:1041-1065 | On ring buffers: appends a header and as many of the client's bytes as fit, or nothing; the step of the system for this client |
| Switchbox.DemuxClient | code/ioc_switchbox_socket.c:1118-1142 | On ring buffers: hands over the announced bytes that are there and fit; the step of the system |
| SwitchboxPass.PassEndsIff | code/ioc_switchbox_socket.c:1037-1069 | The loop as written ends if and only if there is at most one client, no room at the start, or room for all clients but the last and a header and a byte |
| SwitchboxPass.PassCanHang | code/ioc_switchbox_socket.c:1045-1046 | Two clients with one byte each and room for one message: the loop never ends |
| SwitchboxPass.ServesBeginning | code/ioc_switchbox_socket.c:1037-1069 | The intended pass serves a beginning of the clients, all before the last one served completely, and stops only when nothing more fits; the others are untouched |
| SwitchboxPass.EndsAsMeant | code/ioc_switchbox_socket.c:1037-1069 | Whenever the loop as written ends, it has done exactly what the intended pass does |
| SwitchboxPass.ServeIsRun | code/ioc_switchbox_socket.c:1037-1069 | The intended pass is a run of multiplexing steps of the system, so every client's bytes keep their order through it |
| SwitchboxPass.MuxPass | code/ioc_switchbox_socket.c:1037-1069 | On ring buffers, for any number of clients: the pass with the early exit leaves all queues as the intended pass does |
| SignalIndex.Network.Add | extensions/dynamicio/ioc_dyn_network.c:130-191 | Returns the stored signal of a known key, else appends the signal with its names cut to their fields; keeps keys distinct if the names fit |
| SignalIndex.Network.Find | extensions/dynamicio/ioc_dyn_network.c:210-250 | The first entry in order of insertion with the wanted name, of the wanted block, device and number wherever those are given; nothing exactly if there is none |
| SignalIndex.Network.BlockDeleted | extensions/dynamicio/ioc_dyn_network.c:271-332 | The index becomes that of the list without the block's signals; keeps keys distinct |
| SignalIndex.WithoutIs | extensions/dynamicio/ioc_dyn_network.c:287-318 | Deletion removes exactly the entries with the block's name, device and number, and keeps keys distinct |
| SignalIndex.KeysStayUnique | extensions/dynamicio/ioc_dyn_network.c:130-332 | Over every sequence of additions with fitting names and deletions, each key is at most once in a bucket and in at most one bucket |
| SignalIndex.BucketDistinct | extensions/dynamicio/ioc_dyn_network.c:149-169 | A bucket holds each key at most once when the list does, and nothing that is not in the list |
| SignalIndex.DeletedStaysAway | extensions/dynamicio/ioc_dyn_network.c:287-318 | After a deletion the block has no entry until one of its signals is added again, whatever else happens |
| SignalIndex.BucketFirstMatch | extensions/dynamicio/ioc_dyn_network.c:210-250 | Searching one bucket finds what searching everything finds |
| SignalIndex.FirstMatchIs | extensions/dynamicio/ioc_dyn_network.c:222-247 | What a match is, field by field, for the entry found and for all before it |
| SignalIndex.AddedDistinct | extensions/dynamicio/ioc_dyn_network.c:130-191 | Keys stay distinct if and only if the names fit their fields or no entry has the cut key |
| SignalIndex.LongNamesRepeat | extensions/dynamicio/ioc_dyn_network.c:130-191 | Adding a signal with too long names twice stores its key twice |
| SignalIndex.Hash | extensions/dynamicio/ioc_dyn_root.c:847-865 | The loop computes the 32-bit hash sum |
| SignalIndex.HashIsSum | extensions/dynamicio/ioc_dyn_root.c:847-865 | The hash is the sum of the characters times the primes in turn, modulo 2^32 |

## Left out

- Sockets, TLS, serial ports, threads, mutexes, events and timers: a stream is a FIFO delivered in any pieces, a timeout an arbitrary choice, an operation atomic as under ioc_lock.
- Bidirectional blocks, static blocks, block resizing, and more than one connection per target block.
- Cloud-only and floor blocks, removal of blocks from a connection, and network authorization.
- Authentication, first handshake, certificates, lighthouse, end points and the life cycle of connections beyond a reset.
- Forwarding of received blocks to further connections, and local writes to a block that is a target.
- SourceObjects.SourceBuffer.Write: byte swapping on big-endian processors.
- Immediate synchronization and the round-robin choice among several source buffers: one block is followed through the stack.
- Block identifiers above 32767, which do not fit the signed 16-bit remote identifier; equal block sizes at both ends are assumed.
- os_checksum: any function may stand for it, so nothing is said about detecting damaged frames.
- FlowControl.Limits: `keepAlive` bounds the keep-alive bytes between two checked sends, since unlimited keep-alives would overrun the masked counters; limits are fixed as after authentication.
- Compression.Compress: the two loop conditions that read a byte before testing the count are swapped; the byte read never affects the result.
- SenderObjects.Sender.MakeDataFrame: bytes of the frame buffer beyond the used part are not described; bits are set by arithmetic.
- InfoCodec.InfoDecodes: a received information frame that ends too early is rejected here, where the code reads on in its buffer.
- InfoCodec.ValidIff: the field size of network names is set outside the repository; 24 bytes are assumed, and 16 for the other names.
- BlockInfo.NextKeepsInv: linked lists and cursor pointers are sequences and positions on values, so updates in place are not captured; names and numbers that identify a block are one key.
- StreamerSession.NextKeepsInv: the step machines are functions on values, each call works on one snapshot, and the peek flag is only in `Ring.ReadInternal`; a failed block move is an arbitrary choice of each call.
- Streamer open, close, flush, error reporting and the control stream callbacks.
- Pool.MemoryPool.Malloc: the records inside released blocks are a map from addresses; that a block is large enough for its record is a debug assertion in the code. Allocation without a static pool is foreign.
- SignalRange.GetSignalRange: addresses are unbounded integers.
- DeviceNumbers.Reservations.Reserve: loading and saving persistent data; the table starts empty.
- Translation of automatic device numbers in block information, and numbers for devices that are not reserved, which are random.
- SwitchboxRing.RingMove: negative counts, which no caller passes; osal_ringbuf functions are taken to leave one slot unused.
- Switchbox.ClientsKeepOrder: clients coming and going, and the dropping of data for unknown clients; which client a pass starts with is any.
- SignalIndex.Network.Add: a chain is a sequence rather than linked nodes; a failing allocation, memory block shortcuts and disposal of empty networks are not modelled.
- Bricks, JPEG, JSON parsing, parameters, nicknames, generator scripts and board setup.
