# Verified model of an RTSP media server

The server reads H.264 and AAC files through a double buffer, cuts them into frames on a pool of
worker threads, packs each frame into RTP packets on a timer, and sends the packets to every client
that has set up and played a track, over the client's RTSP connection (TCP) or over UDP. One
event-loop thread accepts clients, reads their requests and fires the timers.

This project models that path from the bytes of a file to the bytes a client receives and proves
what each part promises. Operations that change state are classes and methods; each is proved to act
as a function on the state as a value, and the promises are lemmas about those functions. The
methods of `MediaSession` and `RtspConnection` that change lists state the new lists outright instead;
client histories (`Streaming.dfy`) are a machine of their own.

| file | part of the server |
|---|---|
| `RingBuffer.dfy`, `RingEnd.dfy`, `RingBufferClass.dfy` | the double-buffered file reader and its iterators, what it shows behind the end of the file, and the same in place |
| `AnnexB.dfy` | the byte stream format: splitting into NAL units and joining them |
| `H264Splitter.dfy`, `H264Exact.dfy`, `H264Long.dfy`, `H264Source.dfy` | the splitter as written, when it is exact on files that fit the two arrays and on files of any length, and the same in place |
| `Adts.dfy`, `AdtsEnd.dfy`, `AdtsReplay.dfy`, `AacSource.dfy` | ADTS header and frame stepping, the end of the file, files that are served again, and the same in place |
| `ThreadPool.dfy`, `Prefetch.dfy`, `PrefetchOnPool.dfy`, `Pipeline.dfy` | the worker pool, prefetching (the same for both kinds of source), prefetching on that pool, and file to sink end to end |
| `H264Packets.dfy`, `AacPackets.dfy`, `Sinks.dfy` | RTP payloads (RFC 6184, RFC 3640), numbering, and the sinks in place |
| `Rtp.dfy`, `Delivery.dfy`, `Session.dfy` | RTP header (RFC 3550), interleaved framing (RFC 2326), fan-out, and the same in place |
| `Streaming.dfy`, `Datagrams.dfy`, `StreamContents.dfy`, `ConcreteRuns.dfy` | clients, tracks and frames over whole runs, for TCP and for UDP clients; what their packets carry; runs down to the bytes on the wire |
| `Reassembly.dfy` | what a client rebuilds from all it is sent |
| `Serving.dfy`, `EndToEnd.dfy`, `AudioEndToEnd.dfy`, `WholeFile.dfy` | prefetching, sinks and clients as one machine; from a file's bytes to the client's NAL units or audio frames; a run that serves both files to their ends |
| `EventLoop.dfy`, `ServerLoop.dfy` | the event loop with deferred close, and the same in place |
| `Bytes.dfy`, `Bits.dfy` | bytes, and masks and shifts with their arithmetic |

System calls are parameters: the file is a byte sequence, `accept` yields a descriptor that is not
registered, `epoll_wait` yields a batch of distinct registered descriptors, a send is complete.
A section under a mutex is one atomic step.

## Where the code and its purpose part

The model follows the code. These are the places where the code does not do what it is for, with the
lemma that says exactly when.

- Every crossing of an array boundary reads a block, also one made by a temporary from `it + k`, so
  a boundary crossed twice loses a block unless the end of the file was reached
  (`Ring.SecondCrossingSkips`). The splitter is exact on files of any length that keep clear of that
  (`H264Long.ClearIsExact`), and short NAL units alone are no protection
  (`H264Long.ShortUnitsAreLost`).
- `+=` takes a jump that ends exactly at twice the capacity and leaves the iterator one past its array
  (`Ring.JumpEqualsSteps`).
- `operator==` asks for different arrays. The last NAL unit of a file is emitted because of it; and an
  iterator on a start code at file size minus capacity is taken for the end
  (`H264Exact.TakenForEnd`). All files of a size are split exactly if and only if the size leaves four
  bytes of the two arrays free (`H264Exact.ExactIffItFits`).
- A fragmented frame is copied from index 1 but counted from index 0, so every frame of more than 1400
  bytes arrives with one more byte behind it (`H264Packets.FrameArrivesIffItIsIntact`,
  `Reassembly.AllArriveIffAllIntact`).
- The audio sink copies every frame of more than 1398 bytes past the end of its buffer
  (`AacPackets.FrameArrivesIffItFitsTheBuffer`), and such frames come out of AAC files
  (`AudioEndToEnd.LongAacFrameOverruns`). The video sink never does (`H264Packets.NeverOverruns`).
- `in[3] & 0x04 >> 2` reads bit 0 instead of bit 2 (`Adts.ParseInvertsPrintIff`).
- ADTS frames that straddle the two arrays are not read (`Adts.ReadsAllIffAllFit`).
- Behind the end of a file of at least two arrays the reader sees the bytes of an older block. The calls
  after the last frame return nothing and stay there if and only if no syncword is there
  (`AdtsEnd.EndsQuietlyIff`); a file that fills its last array has the frames of its last two blocks
  served again for ever (`AdtsReplay.LastBlocksAreReplayed`).
- An empty result does not start the next prefetch task: after eight of them `ReadFrame`, and with it
  the event-loop thread, waits for ever. A waiting `ReadFrame` can still return if and only if its
  source has more to deliver before its eighth empty result (`Prefetch.ReadFrameCanReturnIff`), and
  every source that has an eighth empty result can block the server (`Prefetch.SourceCanBlock`).
- Two tracks whose channels agree in their low byte cannot be told apart
  (`Rtp.TracksSeparateIffChannelsDiffer`).
- The destructor of a connection takes its first receiver out of track 0 and its second out of track
  1, whatever their SETUPs named, and reaches past the end of its list after exactly one. It cleans up
  if and only if every SETUP that named a track was the first and named track 0, or the second and
  named track 1, and there was not just one (`Session.NoneLeftIff`, `Session.RtspConnection.Destroy`);
  with the two the other way round both receivers stay in the lists (`Session.ReversedSetupsStay`).

## Model

| member | source | states |
|---|---|---|
| Ring.LoadHolds | src/helper/RingBuffer.cpp:20-54 | a load fills the array with the bytes of the file from the position reached |
| Ring.LoadIsNewest | src/helper/RingBuffer.cpp:20-54 | loading the other array puts the following block there, keeps this one, and knows the end of the file exactly |
| Ring.ReloadIsNewest | src/helper/RingBuffer.cpp:20-54 | loading the same array again replaces its block by the following one |
| Ring.StepAdvances | src/helper/RingBuffer.cpp:73-102 | an iterator equals end() exactly at the end of the file; before it, it reads the file's byte at its position and ++ moves to the next position, also across a boundary |
| Ring.JumpEqualsSteps | src/helper/RingBuffer.cpp:88-124 | for jumps shorter than both arrays, += leaves iterator, arrays, end-of-file state and file position as repeated ++ does if and only if it crosses at most one boundary |
| Ring.JumpStaysIff | src/helper/RingBuffer.cpp:104-130 | a jump moves nothing if and only if it is none or goes further than twice the capacity; exactly there it leaves the iterator one past its array |
| Ring.SliceIsFileSlice | include/helper/RingBuffer.h:103-138 | between iterators in one resident block or two consecutive ones, GetDataBetween is the file's slice and GetSizeBetween its length |
| Ring.SliceIsBounded | include/helper/RingBuffer.h:110-138 | no slice is as long as both arrays |
| Ring.SecondCrossingSkips | src/helper/RingBuffer.cpp:88-130 | any look-ahead over a boundary followed by the steps that take the iterator over it leaves it one block too far, unless the end of the file was reached |
| RingEnd.LookAheadShows | src/live/H264MediaSource.cpp:6-20 | a look-ahead that stays in its array, or happens when the end is known, changes nothing and shows the file, then zeros or the bytes two arrays earlier |
| RingEnd.JumpBeside | src/helper/RingBuffer.cpp:104-130 | moving on over one boundary at most keeps the iterator in the newest block with only old bytes beside it |
| RingBufferClass.RingBuffer.constructor | src/helper/RingBuffer.cpp:7-18 | the arrays start zeroed with the first block in array 0 |
| RingBufferClass.RingBuffer.ReadFile | src/helper/RingBuffer.cpp:20-54 | the in-place load is the load on values, and returns -1 exactly when the end was met before |
| RingBufferClass.RingBuffer.Advance | src/helper/RingBuffer.cpp:88-102 | ++ in place is ++ on values |
| RingBufferClass.RingBuffer.AdvanceBy | src/helper/RingBuffer.cpp:104-130 | += in place is += on values |
| RingBufferClass.RingBuffer.GetDataBetween | include/helper/RingBuffer.h:110-138 | the copy out of the arrays is the slice on values, or the error for a negative size |
| RingBufferClass.RingBuffer.Traverse | src/helper/RingBuffer.cpp:69-102 | reading from begin() while != end() terminates and emits exactly the file, for every file and capacity |
| AnnexB.JoinInvertsSplit | src/live/H264MediaSource.cpp:41-98 | joining the units that splitting yields gives the file back if and only if it is empty or begins with a start code |
| AnnexB.SplitIsCanonical | src/live/H264MediaSource.cpp:41-98 | no unit that splitting yields holds a start code, and none before a 3-byte code ends in 00 |
| AnnexB.SplitInvertsJoin | src/live/H264MediaSource.cpp:6-20 | splitting a joined list yields the list if and only if every code has 3 or 4 bytes, no NAL holds a code and none before a 3-byte code ends in 00 |
| H264Splitter.StepProgresses | src/live/H264MediaSource.cpp:68-76 | the scan loop makes progress whatever the look-aheads load, so it ends for every file |
| H264Splitter.ThrowsIff | include/helper/RingBuffer.h:103-138 | a call throws if and only if the unit ends in the array it begins in, in front of its beginning; it has moved on nowhere then |
| H264Exact.ScanState | src/live/H264MediaSource.cpp:66-76 | on a file shorter than both arrays the scan stops at the next start code or the end of the file, and loads the second block only if its look-ahead reaches it |
| H264Exact.NotTakenForEnd | src/live/H264MediaSource.cpp:48-51 | in files that leave four bytes free the inverted comparison never takes a start code for the end |
| H264Exact.GetFrameState | src/live/H264MediaSource.cpp:41-98 | one call returns the bytes between its start code and the next one or the end, and stands there afterwards |
| H264Exact.FitsIsExact | src/live/H264MediaSource.cpp:41-98 | call after call returns the units of the file in order, the last one included, and then empty results for ever |
| H264Exact.JoinedUnitsComeBack | src/live/H264MediaSource.cpp:41-98 | units written to a file that leaves four bytes free come back unchanged, wherever the boundary between the arrays falls |
| H264Exact.TakenForEnd | src/live/H264MediaSource.cpp:77-80 | a start code at file size minus capacity that reaches into the second array is taken for the end, and the call neither returns its unit nor moves on |
| H264Exact.ExactIffItFits | src/live/H264MediaSource.cpp:41-98 | all files of a size are split exactly if and only if the size leaves four bytes of the two arrays free |
| H264Long.ClearIsExact | src/live/H264MediaSource.cpp:41-98 | files of any length are split exactly if no start code and no look-ahead for one crosses a block boundary before the last block, no unit extends over two boundaries, and no start code seems to stand behind the end |
| H264Long.BlockFileIsClear | src/live/H264MediaSource.cpp:41-98 | such files exist with any number of blocks |
| H264Long.ShortUnitsAreLost | src/live/H264MediaSource.cpp:83-88 | a file of three short units whose second start code ends at a boundary: the second unit comes out with a byte of the block after the one it lies in |
| H264Source.H264MediaSource.FindCode | src/live/H264MediaSource.cpp:6-20 | looking for a start code in place, loads included, is the search on values |
| H264Source.H264MediaSource.GetFrameFromFile | src/live/H264MediaSource.cpp:41-98 | the scan loop in place returns what the splitter on values returns and leaves the reader where it does |
| H264Source.H264MediaSource.CacheTask | src/live/H264MediaSource.cpp:132-151 | the task appends the fetched frame unless it is empty |
| H264Source.H264MediaSource.TakeFrame | src/live/H264MediaSource.cpp:107-108 | ReadFrame takes the first queued frame and keeps the rest |
| ThreadPool.StepKeepsInvariant | include/helper/ThreadPool.h:32-87 | every step keeps: accepted is started followed by queued, a wake-up exists for every queued task while a worker sleeps, workers return only after stop with nothing queued |
| ThreadPool.PoolIsSafe | include/helper/ThreadPool.h:32-75 | in every reachable state tasks have started once each in order of acceptance, and a non-empty queue has a worker up or a notification pending |
| ThreadPool.StoppedAcceptsNothing | include/helper/ThreadPool.h:66-69 | after stop no task is accepted |
| ThreadPool.ShutdownCompletes | include/helper/ThreadPool.h:77-87 | after stop only boundedly many steps remain, and when none remains every worker has returned and every accepted task has started |
| ThreadPool.NotificationGoesOut | include/helper/ThreadPool.h:73 | a pending notification can always go out, to a sleeper if there is one and otherwise to nobody |
| ThreadPool.OneWorker | include/helper/ThreadPool.h:32-87 | a run: a worker sleeps, is woken by a task, the pool is stopped and refuses another, the worker finishes and returns |
| Prefetch.StepKeepsInvariant | src/live/H264MediaSource.cpp:100-151 | every step of any source, worker or the loop keeps eight credits per source and file order |
| Prefetch.PrefetchRefinesReading | src/live/H264MediaSource.cpp:24-31 | under every interleaving of any number of sources and workers, delivered then queued frames are the non-empty results so far in file order, and tasks, frames, refill and empty results are eight |
| Prefetch.UnreadSourceFetchesEight | include/live/H264MediaSource.h:46 | a source that is never read from has fetched at most eight results, and exactly eight when nothing but reading can happen |
| Prefetch.ReadFrameReturns | src/live/H264MediaSource.cpp:100-114 | while ReadFrame waits only boundedly many steps happen besides unasked wake-ups, and it is stuck without a frame only if its source has returned eight empty results |
| Prefetch.ExhaustedWaits | src/live/H264MediaSource.cpp:100-114 | once everything before the eighth empty result has been delivered, a waiting ReadFrame waits in every continuation |
| Prefetch.ReadFrameCanReturnIff | src/live/H264MediaSource.cpp:100-151 | a waiting ReadFrame can still get a frame if and only if not everything before the eighth empty result has been delivered |
| Prefetch.SourceCanBlock | src/live/H264MediaSource.cpp:24-31 | for every source with an eighth empty result there is a run that ends stuck in it |
| Prefetch.BothCanBeDelivered | src/live/H264MediaSource.cpp:100-151 | and a run in which two sources have both delivered everything before it is stuck |
| Prefetch.EmptyFileBlocks | src/live/H264MediaSource.cpp:100-151 | for instance with one source, one worker and an empty file |
| Prefetch.MaximalRun | src/live/H264MediaSource.cpp:100-151 | a run that can go no further has the loop blocked on a source that delivered exactly the non-empty results before its eighth empty one |
| Prefetch.EighthEmptyIsUnique | src/live/H264MediaSource.cpp:138-145 | there is at most one such place in the file |
| PrefetchOnPool.RunIsPrefetchRun | include/helper/ThreadPool.h:32-75 | every run of the pipeline on workers that sleep, are notified and test their predicate is a run of the pipeline with workers that are always ready |
| PrefetchOnPool.RunIsPoolRun | include/helper/ThreadPool.h:32-75 | and a run of the thread pool |
| PrefetchOnPool.PrefetchRunIsRun | include/helper/ThreadPool.h:32-75 | and every run of the pipeline can be carried out on the pool, with no spurious wake-up of a worker |
| PrefetchOnPool.FreeWorkerMoves | include/helper/ThreadPool.h:37-44 | whenever a task is queued and a worker is free, one is awake or a notification is on its way to one asleep: no wake-up is lost |
| PrefetchOnPool.PoolRefinesReading | src/live/H264MediaSource.cpp:24-31 | on the pool too, delivered then queued frames are the non-empty results so far in file order |
| PrefetchOnPool.ReadFrameReturns | src/live/H264MediaSource.cpp:100-114 | while ReadFrame waits only boundedly many steps happen, notifications and sleeping workers counted and unasked wake-ups aside, and it is stuck only after eight empty results |
| PrefetchOnPool.ReadFrameCanReturnIff | src/live/H264MediaSource.cpp:100-151 | on the pool a waiting ReadFrame can still get a frame if and only if not everything before the eighth empty result has been delivered |
| Pipeline.SinkGetsBeginning | src/live/H264MediaSource.cpp:41-151 | for every file that is split exactly, of any length, the frames delivered are at every moment the beginning of its non-empty NAL units |
| Pipeline.FileReachesSink | src/live/H264MediaSource.cpp:41-151 | for every file that is split exactly, when the server is blocked on the source the sink has received its non-empty NAL units in order, all of them unless eight units are empty |
| H264Packets.MasksAreDigits | include/live/H264MediaSink.h:104-110 | FU indicator, FU header and NAL type are what the masks of the source give |
| H264Packets.FragmentsAreWellFormed | include/live/H264MediaSink.h:95-136 | ceil(n/1400) >= 2 fragments, start bit on the first only, end bit on the last only, one NRI and type, no payload above 1402 bytes, consecutive sequence numbers, one timestamp |
| H264Packets.LongFrameArrivesWithOneMoreByte | include/live/H264MediaSink.h:95-136 | a frame of more than 1400 bytes is reassembled as the frame with its F bit cleared and the one byte behind it |
| H264Packets.FrameArrivesIffItIsIntact | include/live/H264MediaSink.h:47-136 | a receiver gets back exactly the frame if and only if it has 1 to 1400 bytes and its type is 1 to 23 |
| H264Packets.NeverOverruns | include/live/H264MediaSink.h:47-136 | no packet of a video frame is larger than the room in the sink's buffer |
| H264Packets.CountingFromOneIsExact | include/live/H264MediaSink.h:95-97 | repaired: counting over size - 1 makes reassembly exact for every longer frame with F bit 0 |
| H264Packets.IsTimedIff | include/live/H264MediaSink.h:66-67 | with the masks of the source: the clock stands still exactly for an empty frame and for an SPS or PPS of at most 1400 bytes |
| H264Packets.HeaderMoves | include/live/H264MediaSink.h:34-138 | a frame moves the clock by 12000/FPS unless it is one of those, counts 0, 1 or ceil(n/1400) packets, and changes nothing else in the header |
| H264Packets.HeaderCounts | include/live/H264MediaSink.h:60-138 | over any list of frames the sink's header counts its packets mod 2^16 and its ticks mod 2^32 and changes in nothing else |
| H264Packets.SequenceNumbers | include/live/H264MediaSink.h:60-136 | packet k of any list of frames has sequence number first + k mod 2^16 |
| H264Packets.Timestamps | include/live/H264MediaSink.h:66-138 | all packets of frame i carry 12000/FPS times the number of earlier timed frames, mod 2^32; empty frames and single-packet SPS or PPS are not timed |
| AacPackets.MasksAreDigits | include/live/AACMediaSink.h:52-53 | the AU header's masks and shifts are the size's 8 high and 5 low bits |
| AacPackets.SizeFieldHoldsIff | include/live/AACMediaSink.h:50-53 | the 13-bit size field by itself is right if and only if the frame is shorter than 8192 bytes |
| AacPackets.FrameArrivesIffItFitsTheBuffer | include/live/AACMediaSink.h:45-60 | a receiver gets the frame if and only if it has 1 to 1398 bytes; all longer ones overrun the buffer |
| AacPackets.AacNumbering | include/live/AACMediaSink.h:60-65 | after k frames the header has moved by k and by 1024 k, mod 2^16 and 2^32 |
| Sinks.Sink.constructor | include/live/Sink.h:21-37 | the header has version 2, the payload type and the ssrc, and all else in it, sequence number and timestamp included, is zero |
| Sinks.Sink.SendRtpPacket | include/live/Sink.h:57-60 | every live receiver of the track gets the packet in network byte order; the sink's own header stays as it is |
| Sinks.Sink.SendH264Frame | include/live/H264MediaSink.h:34-145 | the loop over one reused buffer sends exactly the frame's packets, in order, to the track's receivers, and leaves the header the next frame needs, its timestamp stated with the source's own test |
| Sinks.Sink.MoveClock | include/live/H264MediaSink.h:64-138 | the clock moves by 12000/FPS unless the frame is empty, or an SPS or PPS in one packet |
| Sinks.Sink.SendFragments | include/live/H264MediaSink.h:95-136 | the fragment loop sends all packets of the frame and counts each one |
| Sinks.Sink.SendAacFrame | include/live/AACMediaSink.h:35-72 | an AAC frame that fits goes out as one packet with its AU header, an empty one does nothing, and one that does not fit is reported where the copy would leave the buffer |
| Rtp.Htons | src/live/MediaSession.cpp:53 | the swapped number lies in memory with its high byte first |
| Rtp.Htonl | src/live/MediaSession.cpp:54-55 | the swapped number lies in memory with its high byte first |
| Rtp.MasksAreDigits | src/live/Rtp.cpp:76-77 | the length bytes of the prefix are what the masks of the source give |
| Rtp.ParseInvertsWire | include/live/Rtp.h:10-30 | a receiver reading the header by section 5.1 of RFC 3550 gets back every field and the payload |
| Rtp.DemuxAppend | src/live/Rtp.cpp:70-84 | a framed packet behind a stream is one more packet for a receiver by section 10.12 of RFC 2326 |
| Rtp.TracksSeparateIffChannelsDiffer | src/live/Rtp.cpp:70-84 | every interleaving of two tracks on one connection is told apart if and only if the channels differ mod 256 |
| Rtp.BothTracksAreFound | src/live/Rtp.cpp:70-84 | with different low bytes, the packets of either track are found on its channel, whole and in order |
| Delivery.BroadcastDemux | src/live/MediaSession.cpp:48-62 | packets fanned out to any receivers arrive whole and in order on the channel of the client's live receiver and on no other channel of its stream |
| Delivery.BroadcastDatagrams | src/live/MediaSession.cpp:48-62 | a live UDP receiver is sent one datagram per packet, in order, whatever the TCP receivers' prefixes did to the shared buffer |
| Delivery.WithoutLast | src/live/MediaSession.cpp:64-73 | removing the receiver added last gives the list back |
| Session.RtpConnection.SendFrame | src/live/Rtp.cpp:55-68 | a live receiver sends the packet over its transport, one that is not alive sends nothing and reports it |
| Session.RtpConnection.SendPacketOverTcp | src/live/Rtp.cpp:70-84 | writing the prefix into the shared packet and sending sends exactly one interleaved frame |
| Session.RtpConnection.SendPacketOverUdp | src/live/Rtp.cpp:86-96 | header and payload go out as one datagram, without the prefix |
| Session.MediaSession.AddSink | src/live/MediaSession.cpp:13-30 | the track becomes alive, its receivers and the other track are untouched |
| Session.MediaSession.AddRtpConnection | src/live/MediaSession.cpp:31-41 | the receiver is appended to its track and the other track is untouched |
| Session.MediaSession.RemoveRtpConnection | src/live/MediaSession.cpp:64-73 | the receiver is taken out of its track and the other track is untouched |
| Session.MediaSession.HandleSessionSend | src/live/MediaSession.cpp:48-62 | the loop over the receivers with in-place byte swaps and prefixes is the fan-out of the packet as it was handed over, and the payload is unchanged |
| Session.RtspConnection.HandleSetup | src/live/RtspConnection.cpp:17-82 | a new receiver, not alive, is kept by the client and added to the named track, and to no list if the name is none |
| Session.RtspConnection.HandlePlay | src/live/RtspConnection.cpp:97-115 | every receiver of the client becomes alive and no other one in the session's lists changes |
| Session.RtspConnection.Destroy | src/live/RtspConnection.cpp:196-199 | the client's first receiver leaves track 0 and its second one track 1; the destructor stays in bounds and leaves none of them in a list if and only if there was not just one SETUP and each that named a track named its own number |
| Session.NoneLeftIff | src/live/RtspConnection.cpp:196-199 | with no SETUP or at least two, none of the client's receivers stays in a list if and only if every SETUP that named a track is number 0 naming track 0 or number 1 naming track 1 |
| Session.ReversedSetupsStay | src/live/RtspConnection.cpp:17-40 | for instance track 1 and then track 0: the lists keep both receivers, whoever else is in them |
| Session.RtspConnection.SetUpReversedPlayAndClose | src/live/RtspConnection.cpp:17-207 | the same in place: both receivers are still in the session's lists when the client is gone |
| Session.RtspConnection.SetUpPlayAndClose | src/live/RtspConnection.cpp:17-207 | two SETUPs, PLAY and the destructor leave the session's lists as they were |
| Streaming.StepKeepsShape | src/live/RtspConnection.cpp:17-207 | every event keeps the tracks' lists duplicate-free and equal to the open clients' receivers |
| Streaming.ClientGetsItsFrames | src/live/RtspConnection.cpp:97-115 | in every run each client has been sent, per track, nothing before PLAY and then exactly all packets of every frame sent |
| Streaming.SetupMakes | src/live/RtspConnection.cpp:28-64 | SETUP adds to the named track a receiver with exactly the transport, socket and channel it names, not alive, with nothing sent |
| Streaming.NamedIsUsed | src/live/RtspConnection.cpp:28-64 | in every run a client's receivers are what its SETUPs named, until it closes |
| Streaming.OthersDoNotMatter | src/live/MediaSession.cpp:48-73 | in any two runs with the same requests of a client and the same frames of a track, the client has been sent the same packets on it, and its receiver is alive in both or in neither |
| Streaming.OthersEventChangesNothing | src/live/MediaSession.cpp:48-73 | another client's request and a frame of the other track change nothing that the client is sent |
| Streaming.SequenceIsConsecutive | src/live/MediaSession.cpp:48-62 | a client's packets on a track have consecutive sequence numbers mod 2^16 from whenever it joined |
| Streaming.ClientReadsItsTracks | src/live/Rtp.cpp:55-84 | a TCP client reading its connection as interleaved frames finds exactly those packets on a channel that it named for one of its tracks alone |
| Datagrams.ClientIsSentItsTrack | src/live/Rtp.cpp:55-96 | the datagrams sent from the UDP socket of a client's SETUP are exactly those packets, one each, in order |
| StreamContents.PacketsCarryTheirTrack | include/live/Sink.h:27-36 | in every run every packet of a client carries version 2, payload type 96 for video and 97 for audio, its track's ssrc and no flags |
| StreamContents.BytesOfHeader | include/live/Rtp.h:10-30 | the twelve bytes in front of the payload, one by one |
| StreamContents.HeaderTellsTheTime | include/live/AACMediaSink.h:60-65 | over any run an audio sink's clock has moved by 1024 for every non-empty frame and a video sink's by 480 for every one but an SPS or PPS in one packet, mod 2^32, and its numbers count its packets mod 2^16 |
| StreamContents.PacketsTellTheTime | include/live/H264MediaSink.h:47-138 | a playing client's packets of a frame carry that clock and those numbers, whenever it joined |
| StreamContents.NothingBeforePlay | src/live/Rtp.cpp:55-58 | a client that has not sent PLAY has been sent nothing |
| StreamContents.PlayStarts | src/live/RtspConnection.cpp:97-115 | PLAY makes all tracks play that the client has set up, and those that play go on |
| StreamContents.ClosedGetsNothing | src/live/RtspConnection.cpp:187-207 | nothing is written to a connection that is closed |
| ConcreteRuns.FirstFrameGoesOut | src/live/Rtp.cpp:55-96 | a client that sets up both tracks, over TCP or UDP, and plays is sent the first short frame of either, byte by byte, and nothing else |
| ConcreteRuns.ClosedClientIsLeftOut | src/live/RtspConnection.cpp:187-207 | such a client can close, leaves both lists empty, and is sent nothing of what comes then |
| Reassembly.FrameIsReceived | include/live/H264MediaSink.h:34-145 | whatever a receiver holds, from a frame's packets it makes exactly what arrives of the frame, for frames of any size and type |
| Reassembly.ClientRebuildsFrames | include/live/H264MediaSink.h:34-145 | a client reassembling all it was sent has, in order, what arrives of every video frame since its PLAY |
| Reassembly.AllArriveIffAllIntact | include/live/H264MediaSink.h:47-136 | a client ends up with exactly the frames sent if and only if every one of them is intact |
| Reassembly.TcpClientRebuildsFrames | src/live/Rtp.cpp:55-84 | from the raw bytes of its connection a TCP client rebuilds what arrives of every video frame since PLAY |
| Reassembly.UdpClientRebuildsFrames | src/live/Rtp.cpp:55-96 | from its datagrams a UDP client rebuilds the same |
| Reassembly.ClientRebuildsAudio | include/live/AACMediaSink.h:35-72 | a client reading the AU headers has exactly the non-empty audio frames since its PLAY |
| Reassembly.TcpClientRebuildsAudio | src/live/Rtp.cpp:55-84 | from the raw bytes of its connection a TCP client has exactly the audio frames since its PLAY |
| Reassembly.UdpClientRebuildsAudio | src/live/Rtp.cpp:55-96 | and a UDP client from its datagrams |
| Serving.RunsBoth | include/live/Sink.h:69-75 | a run of the whole server is a run of the prefetch pipeline and one of the clients and sinks |
| Serving.SentIsDelivered | include/live/Sink.h:69-75 | in every run the frames sent on a track and the frame in hand are exactly the frames ReadFrame has delivered |
| Serving.SeesTheLastFrames | src/live/RtspConnection.cpp:97-115 | a client that plays has seen exactly the frames of a track sent last |
| EndToEnd.FileIsSent | src/live/H264MediaSource.cpp:41-151 | for every file that is split exactly, in every run the frames sent are the beginning of its non-empty NAL units, and when the server waits for more and nothing can happen, all of them unless eight units are empty |
| EndToEnd.FileReachesTcpClient | src/live/Rtp.cpp:55-84 | for every file that is split exactly, in every run, at every moment and whenever it sent PLAY, a TCP client rebuilds from the bytes of its connection what arrives of the last frames sent, which are a piece of the file; exactly those if and only if all are intact |
| EndToEnd.FileReachesUdpClient | src/live/Rtp.cpp:55-96 | the same for the datagrams sent to a UDP client |
| EndToEnd.ReadableFileReachesClients | src/live/H264MediaSource.cpp:41-151 | both hold for every file that leaves four bytes of the two arrays free and for every file of any length that keeps clear of the boundaries |
| AudioEndToEnd.AudioIsSent | src/live/AACMediaSource.cpp:18-70 | for an AAC file of frames that fit and are quiet behind the end, the frames sent are in every run the beginning of its bodies, and all of them when the server waits for more and nothing can happen |
| AudioEndToEnd.AudioReachesTcpClient | src/live/Rtp.cpp:55-84 | in every run, at every moment and whenever it sent PLAY, a TCP client reads from the bytes of its connection exactly the last audio frames sent, which are a piece of the file |
| AudioEndToEnd.AudioReachesUdpClient | src/live/Rtp.cpp:55-96 | the same for the datagrams sent to a UDP client |
| AudioEndToEnd.LongAacFrameOverruns | src/live/AACMediaSource.cpp:33-49 | every body of 1399 to 8184 bytes can be read from a file and overruns the audio sink's buffer |
| WholeFile.EverythingCanReachClient | include/live/Sink.h:69-75 | whatever the two sources hold, as long as no audio frame is too long, there is a run in which a client is sent all that either has before its eighth empty result |
| WholeFile.WholeFilesCanReachClient | include/live/Sink.h:69-75 | for every video file that is split exactly with fewer than eight empty units and every AAC file that fits and is quiet with bodies of at most 1398 bytes, there is one run in which a client is sent both from the first frame to the last |
| EventLoop.CloseSucceedsIff | src/live/RtspServer.cpp:108-123 | the assertion holds for every entry if and only if the list is duplicate-free and names open connections |
| EventLoop.TriggersErasePending | include/helper/Scheduler.h:73-80 | between two polls each disconnected client is erased exactly once and nobody else is |
| EventLoop.PollDispatchesAll | src/helper/Poller.cpp:121-167 | every descriptor of a batch is found whatever earlier handlers did; accepted ones are registered, gone ones queued in order, the trigger queued once |
| EventLoop.RoundEffect | include/helper/Scheduler.h:62-68 | the exact effect of one turn of the loop on connections, list and timers |
| EventLoop.LoopNeverFails | include/helper/Scheduler.h:62-80 | in every run no assertion or lookup fails and after every turn: event keys are the listener and the connections, disjoint from the timers, the list is a duplicate-free subset, the trigger is queued once iff the list is non-empty; listener and timers are those of the start, and each is found when it is ready |
| EventLoop.ClientComesAndGoes | src/live/RtspServer.cpp:79-123 | a run: a client is accepted while a timer fires, sends a request, goes, and is erased at the next turn |
| ServerLoop.Server.HandleDisConnect | src/live/RtspServer.cpp:94-102 | queueing in place is queueing on values |
| ServerLoop.Server.HandleCloseConnect | src/live/RtspServer.cpp:108-123 | the erasing loop with its assertion, in place, is the one on values |
| ServerLoop.Server.HandleTriggerEvent | include/helper/Scheduler.h:73-80 | the draining loop in place is the one on values |
| ServerLoop.Server.Poll | src/helper/Poller.cpp:137-161 | the dispatch loop in place finds every descriptor and does what the one on values does |
| ServerLoop.Server.constructor | include/live/Sink.h:25 | no connections, the listener registered, the timers given, nothing pending |
| ServerLoop.Server.RunLoop | include/helper/Scheduler.h:62-68 | over any possible rounds the loop in place never fails, ends in a consistent state and keeps its timers |
| Adts.MasksAreDigits | include/live/AACMediaSource.h:73-91 | the parser's masks and shifts, operator precedence included, are the digits the model works with |
| Adts.ParsePrint | include/live/AACMediaSource.h:68-99 | the parser reads back every printed field, except that copyrightIdentificationStart comes out as bit 11 of the frame length |
| Adts.ParseInvertsPrintIff | include/live/AACMediaSource.h:85 | parsing inverts printing if and only if those two bits agree |
| Adts.ThrowsIff | src/live/AACMediaSource.cpp:40-45 | a call throws if and only if a whole header with syncword is there and the frame length in it is below seven |
| Adts.ReadsIffFits | src/live/AACMediaSource.cpp:33-49 | a call returns the frame's body and moves on to the next frame if and only if the frame lies in one block, or its body alone starts the file's last block |
| Adts.ReadsAllIffAllFit | src/live/AACMediaSource.cpp:33-49 | for a file of frames of any length, the calls return all bodies in order, moving from frame to frame, if and only if every frame fits |
| AdtsEnd.EndIsQuietIff | src/live/AACMediaSource.cpp:37-41 | a reader at the end of the file gets the empty frame and stays if and only if the file is shorter than both arrays or no syncword stands two arrays before its end |
| AdtsEnd.EndsQuietlyIff | src/live/AACMediaSource.cpp:33-49 | for every file of frames that fit the bodies come back in order, and the call after the last one returns the empty frame and stays if and only if it is quiet behind the end |
| AdtsEnd.FramesComeBack | src/live/AACMediaSource.cpp:33-49 | if it is quiet behind the end, the bodies are followed by empty results for ever |
| AdtsEnd.ShortFileFits | src/live/AACMediaSource.cpp:33-49 | in a file of at most one array every frame fits |
| AdtsReplay.LastBlocksAreReplayed | src/live/AACMediaSource.cpp:33-49 | a file whose length is a multiple of the capacity and at least two arrays has the frames of its last two blocks served again, round and round |
| AdtsReplay.ServedAgain | src/live/AACMediaSource.cpp:33-49 | for instance two frames of eight bytes and arrays of eight bytes: the third call returns the first body |
| AacSource.AACMediaSource.GetFrameFromFile | src/live/AACMediaSource.cpp:33-49 | the in-place stepping returns what the one on values returns and leaves the reader where it does |
| AacSource.AACMediaSource.CacheTask | src/live/AACMediaSource.cpp:54-70 | the task appends the fetched frame unless it is empty |
| AacSource.AACMediaSource.TakeFrame | src/live/AACMediaSource.cpp:26-27 | ReadFrame takes the first queued frame and keeps the rest |

## Left out

- Failures of system calls: `fopen`, `accept`, `epoll_ctl`, `epoll_wait`; and sends that send less than asked, which the code ignores.
- RTSP text: parsing requests, formatting replies and SDP; a request is an already parsed one, and replies are not part of a client's stream.
- Looking a session up by name, several sessions, stopping timers, timer periods, the wall clock; ssrc and session ids are parameters.
- Weak memory: a section under a mutex is one step.
- Thread pool, prefetching and client histories are machines on values with explicit steps, not objects shared by threads; futures returned by `enqueue` are not modelled.
- Iterators are values; the move constructor, which clears its source, is not modelled.
- Splitting with a capacity below 4, where one look-ahead could cross twice (the program uses 2^20), and ADTS with a capacity below 8.
- H264Exact.ExactIffItFits: asks for capacity 6 or more, because below it a file of that size has no room for the two units of the counterexample.
- A repaired reader and splitter for files larger than the two arrays; the model has the code as it is.
- Adts.ReadsAllIffAllFit: headers without checksum and bodies of at least one byte; a frame with a checksum or an empty body is not modelled as an input file, though the reader accepts any bytes.
- Session.RtspConnection.HandleSetup: the transport is given; port selection, the address that datagrams are sent to and the RTCP sockets are left out.
- H264Long.ClearIsExact: one direction only; a file that does not keep clear can still come out right, for instance when the block that is lost repeats the one before.
- Streaming.StepKeepsShape: clients set up nothing, or track 0 and then track 1, before closing. SETUPs that name no track aside, these are the clients after which `Session.NoneLeftIff` finds the lists clean; after others the lists hold receivers that no longer exist, or the destructor has reached past the end of its own, and what the program does then is not defined. A client that sets up otherwise and never closes is not modelled.
- Serving.SentIsDelivered: what the program does after an audio frame has overrun the sink's buffer is not modelled; runs end there.
- Session.MediaSession.AddSink: the sink itself is not stored in the track; a sink knows its session and track instead.
- Session.MediaSession.constructor: tracks start not alive; the program leaves the flag uninitialised until a sink is added.
