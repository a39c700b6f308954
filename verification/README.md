# Verified model of yaice

A Dafny model of the parts of the yaice game-server framework whose correctness is a matter of state,
order or arithmetic, with proofs about all their runs:

* the reliable send path of a TCP session: the acknowledged window, session resume, the batching
  writer, the frame reader, and what they give together (`SendWindow`, `Outbox`, `Framing`,
  `ByteOrder`, `Conn`, `Resume`, `Messages`);
* the table-driven CRC-32 (`Crc32`, `CrcTable`, `BitFold`);
* the LRU cache with a pinning filter, expiry and read-through (`Lru`, `LruCache`, `LruRuns`, `LruContents`);
* the sharded batch writer (`ShardExecutor`, `ShardManager`);
* snowflake ids (`Snowflake`, `Word64`), two-level GUIDs (`Guid`) and the service life cycle (`Lifecycle`).

`dafny verify dfyconfig.toml` checks everything.

## How it is modelled

An object that the program updates in place is a class with the same fields, and each of its methods is
proved equal to an operation on a plain value (`Window`, `Box`, a sequence of entries, `Exec`, `Worker`,
`Words`). The theorems are about those operations, over whole runs.

Concurrency is a sequence of events, each one critical section, one atomic add, one non-blocking channel
operation or one socket write, in whatever order they happen; a theorem for every such sequence is a
theorem for every interleaving of any number of threads.

What comes from outside is an input: clock readings, what the database hook, `BulkWrite`, the GUID
allocator and the socket answer, when a read deadline passes, what `Pack` returns, what `Unpack` accepts, which branch a `select` takes, the order of
a map range.

Some statements differ from what one would like to be true of the code. Each is proved as it is, with
the exact condition for it:

* Resume. `CheckServerAck` accepts an acknowledgement below the stored one, and then the acknowledged
  count and the window no longer fit together. `SendWindow.LowResumeLoses` is such a run, and
  `SendWindow.ResumeLosesNothing` says exactly which runs lose nothing: those where every stored
  acknowledgement is at least the number of messages already dropped. `SendWindow.MonotoneResume` is the
  case of acknowledgements that never fall below the stored one.
* Read timeouts. After a read deadline the loop looks for a header next, also in the middle of a frame. A
  stream of frames is delivered whole if and only if no deadline passes inside a frame
  (`Framing.TimeoutsHarmless`). Otherwise messages that nobody sent can be delivered:
  `Framing.TimeoutInvents` is a message of five bytes that is delivered as one of a single byte.
* Failed writes. The writer stops after one, but nothing keeps other goroutines from writing to the same
  socket before the connection is closed, or after a failed flush on cancellation, which does not close it.
  What they write is sure to be read as what it is if and only if the failed write stopped between two
  frames (`Framing.TearHarmless`); `Framing.TearMerges` is what can happen otherwise.
* The cache's size bound. `LruRuns.ValueFilterBreaksBound` is a run that exceeds it.
  `LruRuns.ExactSizeBound` says that a run stays within the bound if and only if no `Put` in it, on a
  cache at the bound, turns an entry the filter refuses into one it lets go. A filter that looks at keys
  only never does that (`LruRuns.SizeBound`).
* GUIDs. They repeat after some failed allocations. `Guid.ExactlyWhenUnique` says that the ids of a run
  are all different if and only if no allocation in it clashes with an earlier one, which one can see from
  the high words alone, with the last call as the boundary case. `Guid.BadRolloverClashes` and
  `Guid.FailedStartRepeats` are what that means for failed allocations.
* Snowflake. An id can equal the clock error 3001, and ids go down when a clock passes the end of the 42
  bits above the node. `Snowflake.ExactlyWhenSentinel` and `Snowflake.ExactlyWhenIncreasing` say in which
  runs, whatever the clock does.

## Model

| member | source | states |
|---|---|---|
| SendWindow.AckWindow | network/tcp_net/conn.go:129-155 | with any number of senders between push, count and enqueue, any acknowledgements and no resume: acknowledged count plus window length is the sent count plus the senders between push and count, the window is the history above the acknowledged count, and the bounds check of an acknowledgement within the sent count never fails |
| SendWindow.TraceConsistent | network/tcp_net/conn.go:263-267 | on every interleaving, resume included, the window is a suffix of the accepted messages, the sent count is short by the senders in between, and only accepted messages are queued, replayed or taken by the writer |
| SendWindow.StepKeepsConsistent | network/tcp_net/conn.go:217-261 | no step other than storing a resume acknowledgement changes how far the acknowledged count is ahead of the messages dropped |
| SendWindow.UpdateKeepsSuffix | network/tcp_net/conn.go:248-261 | an acknowledgement drops from the front exactly as many messages as it adds to the count, or does nothing |
| SendWindow.ResumeLosesNothing | service.go:346-351 | a run with resumes never drops an unacknowledged message if and only if each stored acknowledgement covers what was dropped before |
| SendWindow.MonotoneResume | service.go:346-351 | when no resume acknowledgement is below the stored one, the window is the history from some point at or below the acknowledged count |
| SendWindow.LosslessMeaning | network/tcp_net/conn.go:39-43 | in such a state every unacknowledged accepted message is pending, in its place |
| SendWindow.LossMeaning | network/tcp_net/conn.go:217-221 | otherwise the window is shorter than the unacknowledged part of the history |
| SendWindow.LowResumeLoses | network/tcp_net/conn.go:229-246 | a concrete run in which a low acknowledgement passes the test and the only unacknowledged message is gone |
| SendWindow.CheckMeaning | network/tcp_net/conn.go:229-246 | the resume test accepts exactly the acknowledgements up to the received count and up to the end of the history plus the drift |
| SendWindow.CountersCount | network/tcp_net/conn.go:45-53 | on every interleaving the history is what was pushed, and the sent and received counts are the numbers of sends and receipts counted |
| SendWindow.SendRun | network/tcp_net/conn.go:129-155 | AsyncSend that nothing interrupts: the message joins history and window, is counted, and is queued below 5000 |
| SendWindow.TokenCheckRun | service.go:346-351 | a token check that nothing interrupts is the session's check, acknowledgement, store, copy and offers, and leaves the resumed window and the replayed queue |
| SendWindow.ResumedMeans | service.go:349-350 | the resumed window has the acknowledgement stored in any case and the counts unchanged; messages are dropped only on the connection's own token, for an acknowledgement ahead of the stored one, of messages sent and still there |
| SendWindow.ReplayAddsLongestPrefix | network/tcp_net/conn.go:269-288 | a replay that nothing interrupts appends to the queue exactly the longest prefix of the pending messages that fits |
| SendWindow.InterleavedReplay | network/tcp_net/conn.go:269-288 | whatever senders, the writer and other handlers do between its sends, what a replay has queued and what it has left are the window it copied, in order |
| SendWindow.ReplayEnds | network/tcp_net/conn.go:277-287 | when it stops it has queued a prefix of that window: all of it if and only if nothing was left, and otherwise the queue was full at that moment |
| SendWindow.SendersKeepOrder | network/tcp_net/conn.go:129-155 | on every interleaving, replays included: what the writer took and can take holds each sender's offers in order, and these are some of its own messages, in its order, none more often than it pushed it |
| SendWindow.QueueIsEnqueued | network/tcp_net/conn.go:148-154 | on every interleaving, what the writer took and can take is exactly what senders and replays put on the queue, in that order |
| SendWindow.ReplayIsEnqueued | network/tcp_net/conn.go:277-287 | what a replay put on the queue is part of that, in its order |
| SendWindow.CompleteReplayIsQueued | network/tcp_net/conn.go:269-288 | after a replay that found nothing left, the writer gets the whole window it copied, in order, after what was queued before the copy |
| Conn.Conn.AsyncSend | network/tcp_net/conn.go:129-155 | on an open connection the message is recorded and counted, and queued if there is room; a full queue is reported but the message stays pending |
| Conn.Conn.CheckServerAck | network/tcp_net/conn.go:229-246 | the branches compute the test of the model |
| Conn.Conn.UpdateServerAck | network/tcp_net/conn.go:248-261 | the in-place trim is the model's acknowledgement |
| Conn.Conn.ProcessPendingMessages | network/tcp_net/conn.go:271-288 | the replay loop is the model's replay, and touches only the queue |
| Conn.Conn.BatchWriteLoop | network/tcp_net/conn.go:296-381 | the writer's loop, on every schedule and whatever the socket answers, has the effect of the outbox model; a failed write closes the connection and ends the loop |
| Conn.Conn.Turn | network/tcp_net/conn.go:307-379 | one branch of the select, cancellation, queue, timer and the failures of each, is one step of the model |
| Conn.Conn.AddToBatch | network/tcp_net/conn.go:340-366 | below the limit the data joins the batch; from the limit on the batch goes out first, then the data in its own write |
| Conn.Conn.SyncSend | network/tcp_net/conn.go:157-173 | one write of the given bytes while the socket is there |
| Conn.Conn.Close | network/tcp_net/conn.go:180-203 | the first call cancels the context that both loops watch and gives up the socket; later calls change nothing |
| Conn.HandleTokenCheck | service.go:343-370 | for a player on file: the test on that connection, the acknowledgement on the current one, then on the one on file the acknowledgement is stored, counts stay, the window is as resumed (as it was when the token came in elsewhere), the replay and the reply follow; a failed test closes it and changes no window; an unknown player's connection goes on file under its session; the reply is made of the current session and the answering connection's received count; every other connection is left alone |
| Conn.Server.GetConn | network/tcp_net/server.go:157-161 | finds what is on file under a key, or nothing |
| Conn.Server.AddConn | network/tcp_net/server.go:143-148 | files a connection under its session id and counts it |
| Conn.HandleLogicMessage | service.go:373-378 | counts the message and applies its acknowledgement |
| Outbox.WireIntegrity | network/tcp_net/conn.go:296-381 | for every schedule and whatever the socket answers: the bytes written are whole frames, an interleaving of packed messages and synchronous frames each in its own order; the batch is whole frames under 8192 bytes, the next ones; a write that failed took the front of those or of the one message that was to follow, and only synchronous frames come after it |
| Outbox.WireIsReadBack | network/tcp_net/conn.go:383-446 | when the frames are length-prefixed, the reader delivers exactly the bodies of the frames written, in order; after a failed write also the complete frames of that, and the frames that others wrote after it if it stopped between two frames |
| Outbox.QueueConserves | network/tcp_net/conn.go:148-154 | between senders and writer nothing is lost, invented or reordered |
| Outbox.FlushDrains | network/tcp_net/conn.go:308-378 | the timer, and a cancellation, put the whole batch on the wire if the socket takes it |
| Outbox.PackedOne | network/tcp_net/conn.go:325-337 | raw bytes go out as they are, a message as what Pack makes of it, and anything else, or a message Pack gives up on, is dropped |
| Outbox.ReceiveWrites | network/tcp_net/conn.go:339-366 | a received message waits in the batch below 8192 bytes; from there on batch and message go out, in that order |
| Outbox.ReceiveDrops | network/tcp_net/conn.go:325-337 | what cannot be packed changes nothing but the queue |
| Outbox.StepGoesOn | network/tcp_net/conn.go:306-379 | one event of a running loop leaves it running exactly when it is not a cancellation and no write of it fails, and closes the connection exactly when a write outside a cancellation fails |
| Outbox.LoopGoesOn | network/tcp_net/conn.go:306-379 | on every schedule: still running if and only if not cancelled and no write failed; closed by the writer if and only if a write failed |
| Outbox.FailureLeaves | network/tcp_net/conn.go:341-374 | what the socket has of a failed write is the front of the buffer being written, and what was not written stays |
| Resume.WriterCanDrain | network/tcp_net/conn.go:306-379 | a running writer whose writes succeed empties queue and batch in one turn for each item and a tick |
| Outbox.FailureCloses | network/tcp_net/conn.go:344-375 | a failed write ends the loop, and but for a cancellation closes the connection |
| Outbox.EndedLoopIsSilent | network/tcp_net/conn.go:308-378 | once the loop has ended nothing of the queue or the batch is written any more, and what the socket still takes is exactly what others write themselves |
| Framing.ReadLoop | network/tcp_net/conn.go:383-465 | the loop with its reused buffer, over a stream in which read deadlines pass at any places, delivers exactly the bodies of the reading function and ends for the same reason |
| Framing.ReadFrame | network/tcp_net/conn.go:406-443 | one turn: header, length limits, body, acceptance, end of stream inside or between the two |
| Framing.TurnMeans | network/tcp_net/conn.go:406-443 | which turn it is, by the bytes there are: delivered, rejected, cut short, at the end, or a length outside 1 to 1048576 |
| Framing.ClosedForGood | network/tcp_net/conn.go:414-440 | after a bad length or a rejected message nothing that arrives later is read |
| Framing.FramesReadBack | network/tcp_net/conn.go:414-429 | frames written one after the other are read back whatever follows |
| Framing.TornThenMore | network/tcp_net/conn.go:383-446 | of a stream of frames that breaks off anywhere the complete ones are delivered, and frames after the break too if it lies between two frames |
| Framing.PrefixReadsBack | network/tcp_net/conn.go:383-446 | a stream of frames that breaks off for good is read as the frames that are complete |
| Framing.TearHarmless | network/tcp_net/conn.go:341-356 | whatever is written after a failed write is read as what it is, by every reader, if and only if the failed write stopped between two frames |
| Framing.TearMerges | network/tcp_net/conn.go:414-429 | after a write that stopped right behind a length, later frames are delivered as one message |
| Framing.TimeoutsHarmless | network/tcp_net/conn.go:452-465 | a stream of frames cut by read timeouts is delivered whole if and only if every cut lies between two frames |
| Framing.TimeoutUnpacks | network/tcp_net/conn.go:406-446 | with a deadline right behind a length, a body that is made of frames is delivered as those |
| Framing.TimeoutInvents | network/tcp_net/conn.go:406-446 | a concrete stream from which a message is delivered that nobody sent |
| Framing.DeliveredWasFramed | network/tcp_net/conn.go:383-446 | any stream is the frames of what was delivered and a rest from which no frame can be taken |
| ByteOrder.IntRoundTrip | utils/tool.go:27-56 | every int32 survives the trip to four bytes and back |
| ByteOrder.BytesRoundTrip | utils/tool.go:27-56 | every four bytes survive the trip to an int32 and back |
| ByteOrder.BigEndianOrder | utils/tool.go:27-32 | most significant byte first: the order of the bytes is the order of the 32-bit words, so numeric order within each sign and negative numbers last |
| Resume.UnacknowledgedIsDelivered | service.go:343-371 | senders, acknowledgements, handlers and the writer running between any two steps of the replay: when nothing unacknowledged was lost before the copy, the replay met no full queue, and the writer drained its queue without a failed write, the peer of the connection replayed on has read, in this order, what was queued before the copy and every unacknowledged message |
| Resume.EachIsDelivered | service.go:343-371 | in particular the body of each of them |
| Resume.DrainedQueueIsOnTheWire | network/tcp_net/conn.go:296-381 | from any moment of a writer's life: once it has drained queue and batch, the bytes written since are the frames its batch held, then the queue's messages, then those accepted meanwhile, in order, between the synchronous frames |
| Crc32.GenerateCRCCheckCode | utils/crc.go:61-69 | the table loop, seeds at every byte included, returns the bit-serial CRC-32 as a non-negative 32-bit value |
| Crc32.TableIsRight | utils/crc.go:5-58 | each of the 256 entries is eight clocks of its index |
| Crc32.LookUpIsEightClocks | utils/crc.go:65 | the middle line of the loop, one look-up and shift, is eight clocks of the register on the byte |
| Crc32.Streaming | utils/crc.go:61-69 | the loop, started from the checksum of a prefix and run over the rest, gives the checksum of the whole |
| Crc32.ZeroByteCounts | utils/crc.go:61-69 | the checksum of one zero byte is 0xD202EF8D, that of the empty message 0 |
| Crc32.Affine | utils/crc.go:61-69 | the checksum is affine over exclusive or of equally long messages |
| Crc32.BurstDetected | utils/crc.go:61-69 | two messages of one length that differ only within 32 consecutive bits, at any bit position, never have the same checksum |
| Crc32.FourByteWindowDetected | utils/crc.go:61-69 | nor two that differ only within 4 consecutive bytes |
| LruCache.LRUCache.Put | cache/cache_mgr.go:121-166 | on map and list in place, Put is the sequence operation; map and list still hold each item once and agree |
| LruCache.LRUCache.Get | cache/cache_mgr.go:65-118 | likewise Get, for hit, miss with and without a load, and expiry |
| LruCache.LRUCache.Delete | cache/cache_mgr.go:169-178 | likewise Delete, with its answer |
| LruCache.LRUCache.Clear | cache/cache_mgr.go:181-187 | empties both |
| LruCache.LRUCache.Len | cache/cache_mgr.go:190-195 | the map's size is the number of entries in the list |
| LruCache.LRUCache.EvictOldestEligible | cache/cache_mgr.go:198-214 | removes the last entry that the filter lets go, if any, and says so |
| LruCache.LRUCache.CleanExpiredEligible | cache/cache_mgr.go:217-233 | in any map order, deleting on the way: leaves exactly the entries that are not both expired and eligible, in order, and returns the drop in size |
| LruCache.LRUCache.RemoveEligible | cache/cache_mgr.go:236-260 | in any map order, collecting first: leaves exactly the refused entries, in order, and returns the drop in size |
| LruCache.LRUCache.RemoveItem | cache/cache_mgr.go:263-268 | takes an item out of list and map together |
| LruCache.FindInOrder | cache/cache_mgr.go:17-22 | a key is in the map exactly when it is in the list, at its item's own element |
| Lru.RetainIsSubsequence | cache/cache_mgr.go:217-260 | a cleaner keeps an entry if and only if it is not doomed, keeps the order of what stays, and keeps keys unique |
| LruRuns.ExactSizeBound | cache/cache_mgr.go:86-98 | for any filter: a run keeps the size within the minimum size or one more than the pinned entries if and only if none of its steps unpins an entry of a cache at the bound |
| LruRuns.StepBounded | cache/cache_mgr.go:126-136 | the same for one operation: only a Put on a cached key, from a refused value to an eligible one, can exceed the bound, and does when the cache is at it |
| LruRuns.SizeBound | cache/cache_mgr.go:86-98 | in particular a filter that looks at keys only keeps the bound on every run |
| LruRuns.CoreSweepNeverFires | cache/cache_mgr.go:162-165 | without a filter and with a core size at least that bound, an insertion never sweeps |
| LruRuns.ValueFilterBreaksBound | cache/cache_mgr.go:126-136 | a run with a filter on values that exceeds the bound |
| LruRuns.PinnedStays | cache/cache_mgr.go:14-15 | for any filter: what it refuses stays cached and refused all through a run if and only if no operation clears, deletes it by name, or puts an eligible value in its place |
| LruRuns.TrueLru | cache/cache_mgr.go:198-214 | after every run the list is in exact order of last successful use, and the victim is the least recently used eligible entry, everything older being refused |
| LruRuns.Transparent | cache/cache_mgr.go:65-118 | over a store that every Put also reaches, Get answers as the store would unless the cached copy is expired, and then nothing |
| LruRuns.PutThenGet | cache/cache_mgr.go:65-166 | a value put is returned until its time to live has passed, for ever without one, unless the sweep of its own insertion already found it expired; then what a miss answers |
| LruContents.ContentsAfter | cache/cache_mgr.go:65-260 | exactly what is cached after any operation: the entries it does not take away (evicted only at the minimum size and only the oldest eligible one, swept only above the core size and only if expired and eligible, and so on for each operation) and what it brings in, with its deadline |
| LruContents.GrowsByOne | cache/cache_mgr.go:141-165 | below the minimum and core size an insertion adds one entry and loses none |
| LruContents.EntryStays | cache/cache_mgr.go:65-260 | an entry stays over a run, as it is, if and only if no operation of the run takes it away |
| ShardExecutor.Executor.Loop | database/shard_manager.go:61-104 | the loop, on every schedule, has the effect of the executor model |
| ShardExecutor.Executor.Submit | database/shard_manager.go:51-58 | accepts exactly when there is room, at the end of the queue, or when the loop is waiting, which then gets the event itself |
| ShardExecutor.Executor.WriteBatch | database/shard_manager.go:107-129 | writes the batch, then runs exactly the callbacks there are, by index and in order, each with the batch's error |
| ShardExecutor.Conservation | database/shard_manager.go:61-129 | on every schedule accepted events are flushed, held or queued, in order; batches have between 1 and max(1, batchSize) models, those of their events; each callback due has run once with its batch's error |
| ShardExecutor.EachCallbackOnce | database/shard_manager.go:107-129 | on every schedule each written event with a callback has had it run exactly once, by index, in the order written, with what BulkWrite answered for its batch; nothing else was run |
| ShardExecutor.WhenWritten | database/shard_manager.go:69-103 | a batch is written from batchSize events on, or on a tick or a cancellation if there is anything, of exactly the events collected and with that answer |
| ShardExecutor.LoopGoesOn | database/shard_manager.go:80-103 | the loop is running exactly as long as it was not cancelled |
| ShardExecutor.LoopCanWriteAll | database/shard_manager.go:80-97 | a running loop writes all there is in one turn for each queued event and a tick |
| ShardExecutor.TickWritesAll | database/shard_manager.go:95-97 | after a tick nothing collected is unwritten |
| ShardExecutor.CancelledLeavesOnlyTheQueue | database/shard_manager.go:98-138 | after cancellation the events never written and never called back are exactly those in the queue |
| ShardManager.Manager.GetOrCreateExecutor | database/shard_manager.go:281-301 | returns the executor on file, or files a new one |
| ShardManager.Manager.Submit | database/shard_manager.go:304-311 | sends to the shard's executor, waiting loop included, and leaves the others on file |
| ShardManager.OneExecutorPerShard | database/shard_manager.go:281-301 | on every interleaving all calls for a shard return one executor, and calls for two shards two |
| ShardManager.ExecutorsRun | database/shard_manager.go:281-311 | however everything interleaves, each executor runs as one does on its own, on exactly the submissions sent to it and the steps of its loop |
| ShardManager.WhenCreated | database/shard_manager.go:281-301 | a look finds the executor on file at once; exactly the first write section for a shard creates one |
| ShardManager.SubmitAlone | database/shard_manager.go:304-311 | a submission that nothing interrupts ends at the end of its shard's queue if there is room |
| ShardManager.ShardOrder | database/shard_manager.go:281-311 | a shard's events are written in the order its submissions were accepted |
| Snowflake.SnowflakeIdWorker.NextId | utils/snowflake.go:92-121 | the method with its busy wait is the id function of state and clock readings |
| Snowflake.CreateSnowflakeWorker | utils/snowflake.go:73-87 | succeeds exactly for node numbers 0 to 31 |
| Snowflake.NextMeans | utils/snowflake.go:98-118 | a later reading starts a new count at 0, the same one goes on counting to 4095, then the first later reading is taken; a clock that went back changes nothing and gives 3001 |
| Snowflake.IdMeans | utils/snowflake.go:117-120 | an id in the range decodes to that reading, that count and the node |
| Snowflake.FullMillisecond | utils/snowflake.go:103-119 | a new millisecond is good for 4096 ids, numbered from 0 in the order of the calls |
| Snowflake.ExactlyWhenIncreasing | utils/snowflake.go:92-121 | whatever the clock does, backward jumps and times before the epoch included: the ids of a run strictly increase if and only if each new time is larger in the 42 bits above the node than the one used before it |
| Snowflake.ExactlyWhenSentinel | utils/snowflake.go:103-119 | a run issues the clock error as an id if and only if the worker is on node (0, 0) and reaches sequence 3001 at a time equal to the epoch in those bits |
| Snowflake.FreshWorkerRun | utils/snowflake.go:92-121 | so the ids of a fresh worker strictly increase and none is the clock error as long as the times it accepts lie within 2^42 milliseconds after the epoch (twice the 41 bits the layout plans for) |
| Snowflake.RunIncreases | utils/snowflake.go:92-121 | the same from any state, each id decoding to the worker's node |
| Snowflake.OutcomeMeaning | utils/snowflake.go:98-116 | 3001 comes back exactly when the clock went backwards or the id is that number, and the wait goes on exactly while no reading has passed the last timestamp |
| Snowflake.PackingDecodes | utils/snowflake.go:28-46 | time, datacenter, worker and sequence can be read back from an id, whose sign bit is clear exactly for the first 2^41 milliseconds |
| Snowflake.PackingWraps | utils/snowflake.go:119 | ids come round again after 2^42 milliseconds, so the range is as long as it can be |
| Snowflake.PackIsTheWord | utils/snowflake.go:119 | the 64-bit word that the shifts and ors build stands for the number that the model's formula gives, for every time |
| Snowflake.EveryTimeHasAWord | utils/snowflake.go:119 | every time since or before the epoch has its two's complement word |
| Word64.FieldsValue | utils/snowflake.go:119 | or and shifts of fields are sum and products modulo 2^64 |
| Snowflake.MachineWord | utils/snowflake.go:119 | on 64-bit words shifts and masks recover the fields |
| Snowflake.NodesNeverCollide | utils/snowflake.go:119 | runs of workers on different nodes have no id in common, whatever their clocks do |
| Snowflake.SentinelClash | utils/snowflake.go:103 | exactly when an id equals the clock error |
| Guid.GuidManager.GetGuid | core/guid.go:42-57 | the two package variables advance as in the model, and the id is their join |
| Guid.IdParts | core/guid.go:42-57 | an id is the allocator's word as given, or the old one, above a counter that starts at 1 without a word and at 0 after a rollover |
| Guid.ExactlyWhenUnique | core/guid.go:42-57 | whatever the allocator answers, over any number of rollovers: the ids of sequential calls are all different if and only if no allocation clashes with an earlier one |
| Guid.BadRolloverClashes | core/guid.go:49-52 | at any rollover, a failed allocation or one that names a high word already started clashes, unless no further call comes |
| Guid.NeverRepeats | core/guid.go:42-57 | in particular, no id repeats when allocations succeed with unused high words other than 0 |
| Guid.FailedRolloverRepeats | core/guid.go:49-52 | for instance, a failed allocation at the very first rollover makes the next but one call return the first id again |
| Guid.FailedStartRepeats | core/guid.go:43-46 | as long as allocations fail or are answered with 0, every call returns 1 |
| Lifecycle.Service.Start | service.go:112-174 | alone, succeeds exactly from Stopped with every step succeeding, and otherwise restores the state |
| Lifecycle.Service.Stop | service.go:177-212 | alone, succeeds exactly from Running |
| Lifecycle.AloneIsService | service.go:112-212 | Start and Stop by a caller alone, as steps of the system, come to what the methods promise |
| Lifecycle.WhatStepsDo | service.go:444-458 | who gets in, and the state each way out leaves, whatever others do |
| Lifecycle.StartsAndStops | service.go:112-212 | on every schedule the service runs exactly while one more start has succeeded than stops have begun |
| Lifecycle.EverySchedule | service.go:444-458 | with any number of callers at most one is in a transition, and each unguarded write is Starting to Running, Starting to Stopped or Stopping to Stopped |

## Left out

- Sockets, MongoDB, gRPC, HMAC, logging, configuration, the HTTP server and generated code: input and output, or libraries not in the repository.
- Conn.Conn.BatchWriteLoop: the branch for a closed queue, because nothing in the repository closes one; and a close by another goroutine, after which the loop's writes go to a socket that is no longer there (a schedule ends before it, or lets the writes fail).
- Conn.Conn.SyncSend: covers writes that succeed; a failing one never returns, because its error path asks for the lock it holds.
- Conn.HandleTokenCheck: starts once the token and the server are there; the errors before that touch no connection.
- Framing.ReadLoop: covers a stream up to its end; a close from elsewhere only cuts the run short.
- `Unpack` results: what is kept of the reused body buffer after a message was handled is not modelled, nor is the handler.
- `Pack`: the one in the repository returns nil; it is a parameter, assumed to emit frames only where a theorem says so.
- int64 counters: acknowledgements and counts are unbounded integers, so the wrap-around of a difference of two acknowledgements more than 2^63 apart is not modelled.
- The client's side of the protocol, `ClearPendingMessages`, and what else the server does with its connections: accepting, timing out and removing them.
- `CheckCRCCodeRight`: its loop has no way to end within the buffer.
- `container/list`: the list is a sequence of element objects, so the library's own pointers are not modelled.
- Guid.ExactlyWhenUnique: covers sequential calls, because the code takes no lock around its two variables.
- Executors with a negative batch or queue size, which cannot be created, and the index creation and query methods.
- `GlobalMQ`, `ProtocalNumber`, `convertToBin`, map merging and file readers: no property beyond their bodies.
