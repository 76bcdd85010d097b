# lite_monitor: a Dafny model of the sender, queues, framing, connection pool and codecs

This project models the parts of lite_monitor that carry protocol, concurrency or codec logic,
and states and proves what they guarantee for every input and every run. `dafny verify
dfyconfig.toml` checks it all.

| files | component |
|---|---|
| Sender.dfy, SenderSystem.dfy, SenderCalls.dfy, SenderDrain.dfy | the batching sender: its packets and fields, its worker thread among callers of enqueue and stop, what each call and step does, its shutdown |
| RingBuffer.dfy, RingMonitor.dfy | the blocking ring buffer: the circular array, and any number of threads on its two condition variables |
| TcpDeframer.dfy | the 0xAA/0xFF framing of the trapper server and its receive buffers |
| ConnectionPool.dfy, PoolSystem.dfy, PoolShutdown.dfy | the database connection pool: its critical sections, any number of callers with the destructor, what shutdown does to those still inside |
| Crc16.dfy | CRC16-Modbus |
| ChunkedCodec.dfy, ChunkedIo.dfy, Base64.dfy, UrlCodec.dfy | chunked coding, base64 and percent-encoding of the vendored cpp-httplib |
| Basics.dfy | shared types |

How the model is built:

- An object that updates its fields is a class whose methods are proved equal to functions on
  values (`SenderCore`, `RingSpec`, `PoolSpec`, `Process`, `Read`). The concurrent systems use the
  same functions as their steps, so a theorem about all runs is about the code of the methods.
- A concurrent system is a state, a datatype of steps, `Enabled` and `Apply`; a run is any
  sequence of enabled steps. A step is one critical section, one system call, one notification
  or one read of a shared flag. Outcomes of the environment (connect, bytes taken by the kernel,
  time-outs, spurious wake-ups, which waiter a notification picks) are parameters of the steps
  and are quantified over. History (arrival numbers, packets per connection, deleted
  connections) is kept in the state and read by no step.
- Errors are values: a constructor that throws returns null, a wait that does not return is a
  result, a time-out exception is a result, the stream of a reader can end or fail.

Results about the code that its interfaces do not promise, or that contradict what they suggest:

- The sender's queue may exceed maxQueueSize by a whole batch, because a rollback does not look
  at the limit; this bound is exact (`QueueBounded`, `BoundIsReached`).
- Without further enqueues, stop() of the sender returns only when everything in flight and queued
  has been sent (`ExitsIffAllSent`). While no send is completed it does not return
  (`NothingSentNeverExits`), whether connects fail (`UnreachableNeverExits`) or the server accepts
  every connection and lets every send fail (`RefusedForever`). Once nothing fails any more it
  returns, after exactly the packets needed (`StopDrains`, `DrainTerminates`). With batchSize 0 and
  items queued it never does (`ZeroBatchNeverExits`).
- The doubling of the backoff can overflow an int exactly when maxBackoffMs is negative or above
  2^30 - 1 (`BackoffNeverOverflowsIff`).
- handleRead of the trapper server keeps the result of read in a size_t, so the test for a
  negative result never holds and processBuffer is never reached: no frame is ever delivered
  through it (`TcpServer.HandleRead`). The framing theorems are about processBuffer driven by
  "append, then process".
- The chunked reader also reports success when the data of a chunk is not followed by CRLF; the
  streams it accepts are characterised exactly (`AcceptsExactly`, `BrokenExample`).
- A chunked transfer that breaks off can pass for a finished body: it does exactly when the stream
  ends cleanly just before the final LF of some chunk (`TruncationAcceptedIff`, `ReadableIff`,
  `CutExample`). When the provider loop reports success, its output is readable exactly when done()
  was called in a round it got to (`DriveReadableIff`); an empty write ends the loop before that
  (`EmptyWriteTruncates`).
- A caller waiting for a connection at shutdown may be left asleep beside an idle one until its
  time-out, since its wait does not look at the flag: exactly when nothing is idle, a lease is out
  and at least two callers wait as the flag is set (`LeftAsleepIff`, `LeftAsleepExample`).
- The pool's destructor is certain to outlast the deleters only if every lease was returned, and
  its notifications sent, before shutdown began (`DestructorEndsLastIff`), and certain to leave no
  caller inside only if nobody was inside then (`DestructorEndsAloneIff`).
- The packet length prefix is right exactly for bodies below 2^32 bytes (`PacketReceivedIff`).
- to_utf8 drops surrogates and numbers from 0x110000 silently (`Utf8RoundTrip`).

## Model

| member | source | states |
|---|---|---|
| SenderSystem.NothingLostOrReordered | src/sender/sender.cpp:39-118 | in every interleaving of the worker with enqueue and stop, the enqueued items are exactly those sent, dropped, in flight and queued, each once; sent, in flight and queue together are in arrival order across drops and rollbacks; both counters equal the histories |
| SenderSystem.QueueBounded | src/sender/sender.cpp:205-213 | queue plus batch in flight never exceeds maxQueueSize + batchSize, and the queue alone never exceeds maxQueueSize while a batch is out |
| SenderCalls.BatchTakenIff | src/sender/sender.cpp:69-92 | in every reachable state, when the wait is over the worker takes the oldest min(batchSize, size) items if and only if something is queued and there are batchSize items, the flush time is reached or stop was called; otherwise nothing moves |
| SenderCalls.DropsOldest | src/sender/sender.cpp:39-51 | in every reachable state enqueue puts its item last, and drops an item exactly with the queue at its limit: the one enqueued before all others still queued |
| SenderCalls.FieldsCount | src/sender/sender.cpp:28-129 | over every run the items enqueued are those of the calls in order, the running flag is down exactly after a call of stop, reconnectCount is the number of failed connects, and the backoff follows the failed connects since the last delivery |
| SenderCalls.FailedSendGoesOn | src/sender/sender.cpp:103-108 | after a failed send the worker can only put the batch back, close, and try to connect once; the queue is then the batch before what was queued |
| SenderDrain.BoundIsReached | src/sender/sender.cpp:61-118 | for all options some run fills the queue to maxQueueSize + batchSize, so the bound cannot be lowered |
| SenderSystem.ReceiversGetWhatWasSent | src/sender/sender.cpp:96-115 | on every connection ever used, a length-prefix receiver gets exactly the bodies of the jobs completed there, with less than one packet left over; the batches of those jobs over all connections are exactly the items counted as sent |
| SenderSystem.ReceiverDuringSend | src/sender/sender.cpp:177-203 | while a packet is being sent the receiver has the earlier bodies only, and the current one from its last byte on |
| SenderSystem.SocketDiscipline | src/sender/sender.cpp:96-157 | in every reachable state a call of send, however it ends, needs an open connection that was never cut and a connect needs none open; the backoff is 500 ms doubled once per failure since the last delivery, capped; with a cap from 0 to 2^30 - 1 the doubling does not overflow |
| SenderDrain.BackoffNeverOverflowsIff | src/sender/sender.cpp:127 | over all runs the doubling stays within an int if and only if maxBackoffMs is from 0 to 2^30 - 1 |
| SenderSystem.ExitIsDrained | src/sender/sender.cpp:65-74 | the worker leaves its loop only when stopped and with every item enqueued so far sent or dropped |
| SenderDrain.StopDrains | src/sender/sender.cpp:65-117 | in whatever reachable state of its loop stop finds the worker, without enqueues and further failures it leaves the loop after exactly one packet for a batch that is out and the batches needed for the queue (a batch about to be rolled back counts with the queue), with everything in flight and queued sent in order |
| SenderDrain.DrainTerminates | src/sender/sender.cpp:65-117 | from every reachable state of the loop, running with items unsent or stopped, every smooth step but an interrupted send and a wait below the batch size lowers a measure, and until the exit one is possible |
| SenderDrain.DrainExists | src/sender/sender.cpp:65-117 | so from every such state a failure-free run sends everything in order and, after stop, leaves the loop |
| SenderDrain.ExitsIffAllSent | src/sender/sender.cpp:65-117 | after stop and without enqueues, whatever fails on the way: out of the loop means all in flight and queued was sent in order, and at the head the loop ends exactly then |
| SenderDrain.CeilIsQuotient | src/sender/sender.cpp:86 | the packet count of StopDrains is the queue length over the batch size, rounded up |
| SenderDrain.NothingSentNeverExits | src/sender/sender.cpp:65-129 | on every run without a completed send, from any point of the loop with items in flight or queued, the worker never leaves its loop, stopped or not, and nothing is counted as sent |
| SenderDrain.UnreachableNeverExits | src/sender/sender.cpp:65-129 | in particular while every connection attempt fails |
| SenderDrain.RefusedForever | src/sender/sender.cpp:96-108 | a server that accepts every connection and lets every send fail keeps a worker, stopped or not, going for any number of rounds with nothing changed and no connect failing |
| SenderDrain.ZeroBatchNeverExits | src/sender/sender.cpp:65-117 | with batchSize 0 a worker with items queued never leaves its loop and never sends one, whatever the server does |
| SenderDrain.SendAllIsARun | src/sender/sender.cpp:177-203 | the sendAll loop against any kernel replies is a run of the send steps with the same bytes and the same end |
| SenderWire.ReceivePackets | src/sender/sender.cpp:159-175 | a receiver recovers exactly the bodies of a concatenation of packets followed by a proper part of one more |
| SenderWire.PacketReceivedIff | src/sender/sender.cpp:165-174 | a packet is received as its body if and only if the body is below 2^32 bytes |
| SenderObject.SendAllPrefix | src/sender/sender.cpp:177-203 | sendAll succeeds exactly when the whole packet was taken, and otherwise a proper prefix of it was |
| SenderObject.SendAllIff | src/sender/sender.cpp:177-203 | sendAll succeeds if and only if what the kernel is ready to take before it refuses adds up to the data, interruptions counting for nothing; the bytes taken are the first of them up to that sum |
| SenderObject.Sender.Enqueue | src/sender/sender.cpp:39-51 | in place: drop the oldest when full, append, count the drop |
| SenderObject.Sender.DrainBatch | src/sender/sender.cpp:84-92 | the move loop takes the first min(batchSize, size) items in order and leaves the rest |
| SenderObject.Sender.RollbackBatch | src/sender/sender.cpp:205-213 | the reverse push_front loop puts the batch back before the queue in its old order |
| SenderObject.Sender.Reconnect | src/sender/sender.cpp:120-157 | success opens a fresh connection; failure closes it, counts and doubles the backoff up to the cap |
| SenderObject.Sender.SendPacket | src/sender/sender.cpp:177-203 | the offset loop puts on the wire what `SendAll` says, and succeeds exactly when that is the whole packet, which is when the kernel is ready to take as much |
| SenderObject.Sender.SendBatch | src/sender/sender.cpp:96-115 | one batch: connect if needed, build, send, and on failure roll back, close and try to reconnect; the new state in every case |
| RingMonitor.NeverLosesWakeup | src/common/utils/ring_buffer.h:22-65 | for any threads and interleaving: before stop a parked consumer means the items are covered by owed notifications and woken consumers, symmetrically for producers; after stop a thread is parked only while a stopper still owes its notify_all; accepted items are removed ones followed by the contents, within capacity |
| RingMonitor.NobodySleepsBesideWork | src/common/utils/ring_buffer.h:22-65 | when nothing can move without a new call, parked consumers mean an empty queue, parked producers a full one, never both, and none is parked after stop |
| RingMonitor.StoppedForGood | src/common/utils/ring_buffer.h:57-65 | in every run, once one stop has sent its last notification no thread is ever parked again and nothing more is accepted, whatever other stops still owe |
| RingMonitor.PushEnds | src/common/utils/ring_buffer.h:22-37 | at any moment of any run a push, called or woken, is refused exactly after stop, parks exactly on an open full ring, and otherwise appends its item |
| RingMonitor.PopEnds | src/common/utils/ring_buffer.h:40-55 | at any moment of any run a pop, called or woken, ends without an item exactly on a stopped empty ring, parks exactly on an open empty one, and otherwise takes the oldest item |
| RingMonitor.WokenThreadsMove | src/common/utils/ring_buffer.h:22-65 | a thread that is neither outside nor parked can always take its next step |
| RingMonitor.StepKeepsInv | src/common/utils/ring_buffer.h:22-65 | every critical section, notification and spurious wake-up keeps the invariant behind these results |
| RingSpec.StopDrains | src/common/utils/ring_buffer.h:39-65 | after stop, pushes are refused without effect and any number of pops returns the remaining items in order and then only the end |
| RingBuffer.RingBuffer.Create | src/common/utils/ring_buffer.h:12-19 | capacity zero is rejected, any other gives an empty queue |
| RingBuffer.RingBuffer.PushLocked | src/common/utils/ring_buffer.h:22-37 | on the circular array, the locked part of push is `RingSpec.Push` on the sequence it represents, and keeps tail = (head + size) mod capacity |
| RingBuffer.RingBuffer.PopLocked | src/common/utils/ring_buffer.h:40-55 | the locked part of pop is `RingSpec.Pop`: it returns and removes the oldest item |
| TcpDeframer.ChunkingIndependence | src/core/trapper/tcp_server.cpp:206-245 | however a stream is cut into appended pieces, processing after each gives the same frames and leftover as the whole stream at once |
| TcpDeframer.ProcessIsAutomaton | src/core/trapper/tcp_server.cpp:206-245 | one call on a buffer delivers what a byte-at-a-time automaton delivers, and the leftover is that automaton's state |
| TcpDeframer.EveryByteAccounted | src/core/trapper/tcp_server.cpp:206-245 | the buffer is exactly head-free noise and complete frames in order, then a leftover that is empty or begins with the head byte and has no tail byte |
| TcpDeframer.PartitionIsDelivered | src/core/trapper/tcp_server.cpp:210-244 | any tail-free payloads framed between head-free noise are delivered exactly, in order |
| TcpDeframer.ProcessIffPartition | src/core/trapper/tcp_server.cpp:206-245 | a result is the one delivered if and only if the buffer can be partitioned that way |
| TcpDeframer.ConnectionDelivery | src/core/trapper/tcp_server.cpp:142-245 | in any interleaving of any connections, each gets the frames and keeps the leftover of its own byte stream since it was last accepted or closed, whatever an earlier connection on its descriptor left |
| TcpDeframer.ConnectionsIndependent | src/core/trapper/tcp_server.cpp:83-84 | what a connection is sent and has left depends on its own events only |
| TcpDeframer.WithoutCallback | src/core/trapper/tcp_server.cpp:240-243 | without a callback frames leave the buffer all the same and nothing is delivered |
| TcpDeframer.FramingExample | src/core/trapper/tcp_server.cpp:210-238 | a concrete buffer with noise, a frame and the beginning of another |
| TcpDeframer.TcpServer.ProcessBuffer | src/core/trapper/tcp_server.cpp:206-245 | the in-place erase loop computes `Process` on the connection's buffer, terminates, and fires the callback once per frame if one is set |
| TcpDeframer.TcpServer.HandleRead | src/core/trapper/tcp_server.cpp:170-191 | whatever arrives and however the read loop ends, the test for a negative result and processBuffer are dead code and nothing is delivered: end of file closes the connection, an error becomes a huge append length |
| PoolSystem.PoolConserved | src/core/db/db_operator.cpp:102-185 | in every run idle plus leased equals what the constructor admitted, and every connection created is exactly once among idle, leased and deleted |
| PoolSystem.DestroyedDeletesAll | src/core/db/db_operator.cpp:120-139 | when the destructor is done no lease is out and every connection ever created was deleted exactly once |
| PoolSystem.GetEnds | src/core/db/db_operator.cpp:141-166 | at any moment of any run getConnection throws exactly when its time is up with nothing idle, returns null exactly after the flag was set and it is called or finds a connection idle, waits on exactly with nothing idle, and otherwise leases the connection idle longest |
| PoolSystem.GivenBack | src/core/db/db_operator.cpp:167-176 | a connection given back alive is idle again, last, and nothing is created or deleted; one given back dead is deleted and one that did not exist before is idle in its place |
| PoolSystem.DeadStaysOut | src/core/db/db_operator.cpp:168-176 | a deleted connection is never idle or leased afterwards, whatever follows |
| PoolSystem.DeleterEnds | src/core/db/db_operator.cpp:178-183 | a deleter wakes one waiting caller if there is one, notifies the destructor exactly if shutdown has begun when it looks, and wakes it exactly if it is parked |
| PoolSystem.ExitEnds | src/core/db/db_operator.cpp:128-138 | the destructor goes on exactly when no lease is out, and then deletes the idle connections, the longest idle first; otherwise it parks |
| PoolSystem.AwakeAgentsMove | src/core/db/db_operator.cpp:141-184 | an agent that is neither outside, parked nor holding a lease can always take its next step |
| PoolSystem.ActiveOnlyFalls | src/core/db/db_operator.cpp:141-166 | after the shutdown flag is set no lease is granted and the active count never rises |
| PoolSystem.NobodySleepsBesideWork | src/core/db/db_operator.cpp:120-185 | when no agent can move by itself, a parked destructor means an outstanding lease, and before shutdown a parked caller means an empty pool |
| PoolShutdown.LeftAsleepIff | src/core/db/db_operator.cpp:120-184 | a run of the shutdown that leaves a caller parked beside an idle connection, with no agent able to move, exists if and only if at the flag nothing is idle, a lease is out and at least two callers are in their wait |
| PoolShutdown.LeftAsleepExample | src/core/db/db_operator.cpp:151-179 | a concrete run of one connection and three callers that does so |
| PoolShutdown.DestructorEndsLastIff | src/core/db/db_operator.cpp:128-184 | the destructor surely ends after the last deleter if and only if nothing was leased or being returned when shutdown began |
| PoolShutdown.DestructorEndsAloneIff | src/core/db/db_operator.cpp:120-184 | it surely leaves nobody inside, callers included, if and only if nobody was inside when shutdown began |
| PoolSystem.StepKeepsInv | src/core/db/db_operator.cpp:120-185 | every step keeps conservation, exclusivity, the exit handshake and the wake-up count |
| PoolSpec.ConstructAccounts | src/core/db/db_operator.cpp:102-118 | the constructor keeps exactly the connections that succeed, in order, and deletes the others, in order, nothing twice |
| ConnectionPool.DBConnectionPool.constructor | src/core/db/db_operator.cpp:102-118 | the creation loop computes `Construct` |
| ConnectionPool.DBConnectionPool.GetConnectionStart | src/core/db/db_operator.cpp:141-166 | getConnection up to its wait: null, must wait, or the oldest idle connection leased |
| ConnectionPool.DBConnectionPool.GetConnectionResume | src/core/db/db_operator.cpp:151-166 | getConnection resumed from its wait, before or after the deadline |
| ConnectionPool.DBConnectionPool.ReturnConnection | src/core/db/db_operator.cpp:167-177 | the deleter's section: a dead connection is deleted and replaced, the pool grows by one, the count falls by one |
| ConnectionPool.DBConnectionPool.CloseAll | src/core/db/db_operator.cpp:132-138 | the final loop deletes every idle connection in order |
| Crc16.ComputeCrc | src/common/utils/checksum_utils.h:13-26 | the nested loops over an array compute the fold `Crc` of its first bytes |
| Crc16.VerifyCrc | src/common/utils/checksum_utils.h:45-47 | accepts exactly the checksum of the data |
| Crc16.FeedConcat | src/common/utils/checksum_utils.h:13-26 | the checksum of a concatenation continues from the register of its first part |
| Crc16.FeedIsBitSerial | src/common/utils/checksum_utils.h:13-26 | the byte loop equals the bit-serial register of section 6.2.2 of the MODBUS over Serial Line guide, least significant bit first |
| Crc16.WorkedExample | src/common/utils/checksum_utils.h:13-26 | the worked example of section 6.2.2 of that guide: 02 07 has the checksum 1241 |
| Crc16.RoundLinear | src/common/utils/checksum_utils.h:18-22 | one shift/xor round is linear over GF(2) |
| Crc16.RoundInjective | src/common/utils/checksum_utils.h:18-22 | one round can be undone, because the generator has its top bit set |
| Crc16.BurstDetected | src/common/utils/checksum_utils.h:13-26 | messages of any length that differ only within 16 consecutive bits, at any alignment, have different checksums |
| Crc16.AdjacentBytesDetected | src/common/utils/checksum_utils.h:13-26 | so do messages that differ only within two adjacent bytes |
| Crc16.OddErrorsDetected | src/common/utils/checksum_utils.h:13-26 | so do messages that differ in an odd number of bits anywhere |
| Crc16.ResidueZero | src/common/utils/checksum_utils.h:13-26 | a message with two more bytes has checksum zero if and only if they are its own checksum, low byte first |
| ChunkedCodec.RoundTrip | thirdpart/include/http/httplib.h:3348-3386 | the reader succeeds on the coding of any non-empty writes, delivers their concatenation and stops at the end of the coding |
| ChunkedCodec.AcceptsExactly | thirdpart/include/http/httplib.h:3348-3386 | the reader reports success if and only if the stream is a finished body or breaks off with something other than CRLF after a chunk's data |
| ChunkedCodec.BrokenIsAccepted | thirdpart/include/http/httplib.h:3372-3385 | in the second case it delivers the data so far and ignores every later chunk |
| ChunkedCodec.BrokenExample | thirdpart/include/http/httplib.h:3372-3385 | a concrete malformed body that is reported as complete |
| ChunkedCodec.TruncationAcceptedIff | thirdpart/include/http/httplib.h:3348-3386 | a coding cut off anywhere is accepted if and only if the stream ends cleanly just before the final LF of some chunk; it then delivers the writes up to that chunk |
| ChunkedCodec.TruncatedIsRefused | thirdpart/include/http/httplib.h:3348-3386 | without the last chunk the same bytes are refused |
| ChunkedCodec.HexValueInverts | thirdpart/include/http/httplib.h:1898-1906 | base-16 parsing inverts the digit loop for every number |
| ChunkedCodec.HexLineParses | thirdpart/include/http/httplib.h:3361-3366 | strtoul reads a printed size back as itself, saturating at ULONG_MAX, whatever follows that is no digit and no x |
| ChunkedCodec.StrToUlReads | thirdpart/include/http/httplib.h:3361-3366 | strtoul reads any numeral of white space, sign, prefix and digits as the C standard lays it out: its value, saturated, negated modulo 2^64 after a minus, and its end |
| ChunkedCodec.StrToUlReadsNothing | thirdpart/include/http/httplib.h:3361-3363 | without a digit behind white space and sign nothing is converted |
| ChunkedCodec.HexIsCanonical | thirdpart/include/http/httplib.h:1898-1906 | a printed size has lower-case digits and no leading zero |
| ChunkedCodec.FromIToHex | thirdpart/include/http/httplib.h:1898-1906 | the do-while loop prints the number so that strtoul reads it back |
| ChunkedIo.WriteThenRead | thirdpart/include/http/httplib.h:3571-3647 | end to end: however the provider spreads its non-empty writes and the final done() over its rounds, the loop succeeds and the reader gets back their concatenation |
| ChunkedIo.ReadableIff | thirdpart/include/http/httplib.h:3578-3630 | what any calls on the sink put out, failed writes included, is accepted by the reader if and only if done() was among them and got out whole, or it was cut off just before the final LF of a chunk and the stream ends cleanly; the body is the writes before done(), or up to that chunk |
| ChunkedIo.CutExample | thirdpart/include/http/httplib.h:3578-3600 | a concrete failed write whose output is read as a complete body, and the whole coding of that body |
| ChunkedIo.DriveReadableIff | thirdpart/include/http/httplib.h:3571-3647 | the same for the provider loop over any rounds; when it reports success its output is readable if and only if done() was called in a round it got to |
| ChunkedIo.DriveIsCalls | thirdpart/include/http/httplib.h:3634-3647 | the loop does what the calls of the rounds it gets to do, reports success only if no write failed, and a failed write if one did and no round cancelled |
| ChunkedIo.DriveErrorIff | thirdpart/include/http/httplib.h:3634-3647 | the loop ends as cancelled if and only if a round it gets to returns false, and as a failed write if and only if one that returns true did not get its bytes out |
| ChunkedIo.ProviderOffset | thirdpart/include/http/httplib.h:3574-3639 | every round the loop gets to is called with the offset equal to the payload bytes written before |
| ChunkedIo.EmptyWriteTruncates | thirdpart/include/http/httplib.h:3578-3647 | an empty write that ends any round stops the loop with success and a body the reader refuses, however the writes before it are spread over the rounds |
| ChunkedIo.ChunkedWriter.WriteContentChunked | thirdpart/include/http/httplib.h:3634-3647 | the provider loop computes `Drive`, with its cancelled and failed ends |
| ChunkedIo.ChunkedWriter.WriteData | thirdpart/include/http/httplib.h:3485-3493 | the write loop puts out everything, or what the peer takes before it fails, through any finite number of writes that take nothing |
| ChunkedIo.LineReader.Append | thirdpart/include/http/httplib.h:2217-2228 | appending extends the line by one byte across the spill from the fixed buffer to the growable one |
| ChunkedIo.LineReader.GetLine | thirdpart/include/http/httplib.h:2191-2215 | the byte loop reads up to and including the first LF, with its results at the end of the stream and on an error |
| ChunkedIo.ReadContentWithLength | thirdpart/include/http/httplib.h:3296-3316 | delivers exactly the requested bytes, or all there are and failure, whatever pieces reads return; when the receiver or the progress callback refuses, it fails with a first part delivered and the rest left in the stream |
| ChunkedIo.ReadContentChunked | thirdpart/include/http/httplib.h:3348-3386 | the reading loop computes `Read`, however the bytes arrive; when the receiver refuses, it fails with a first part of the same body delivered |
| Base64.EncodeBase64 | thirdpart/include/http/httplib.h:1942-1968 | the accumulator loop, with 32-bit wrap-around, computes the encoding of section 4 of RFC 4648, of length 4*ceil(n/3), which decodes to the input |
| Base64.RoundTrip | thirdpart/include/http/httplib.h:1942-1968 | a strict RFC 4648 decoder inverts the encoding of every input |
| Base64.DecodesOnlyEncodings | thirdpart/include/http/httplib.h:1942-1968 | that decoder accepts nothing but encodings |
| Base64.TestVector | thirdpart/include/http/httplib.h:1942-1968 | a test vector of section 10 of RFC 4648 |
| Base64.EncodedLength | thirdpart/include/http/httplib.h:1963-1965 | the padded length is 4*ceil(n/3) |
| Base64.AccumulatorLow | thirdpart/include/http/httplib.h:1953 | wrapping the 32-bit accumulator keeps the last two bytes in its low 16 bits |
| Base64.AccumulatorReads | thirdpart/include/http/httplib.h:1956 | every read of the accumulator depends on those bits only |
| UrlCodec.RoundTrip | thirdpart/include/http/httplib.h:2021-2109 | decode_url inverts encode_query_param on every byte string, whether or not plus is read as space |
| UrlCodec.LeftAloneIff | thirdpart/include/http/httplib.h:2026-2036 | a byte stands for itself if and only if it is an ASCII letter, a digit or one of nine marks; any other becomes a percent sign and its two upper-case hex digits |
| UrlCodec.EncodingIsSafe | thirdpart/include/http/httplib.h:2021-2040 | the encoding holds only such bytes and percent signs, each followed by two upper-case hex digits, and so no delimiter of a URL or query |
| UrlCodec.EncodeQueryParam | thirdpart/include/http/httplib.h:2021-2040 | the encoding loop, and that decoding its result gives the input |
| UrlCodec.DecodeUrl | thirdpart/include/http/httplib.h:2074-2109 | the decoding loop over any string, malformed escapes and %uXXXX included |
| UrlCodec.DecodeReads | thirdpart/include/http/httplib.h:2074-2109 | character by character: two-digit escapes are their byte, %u and four digits their code point, plus a space if asked for, and everything else, malformed escapes included, itself |
| UrlCodec.HexDigits | thirdpart/include/http/httplib.h:1867-1879 | the hex digits in either case have the values of their places and no other byte is one |
| UrlCodec.FromHexToI | thirdpart/include/http/httplib.h:1881-1896 | the digit loop, stopping at the first non-digit or the end of the string |
| UrlCodec.Utf8RoundTrip | thirdpart/include/http/httplib.h:1908-1938 | a strict UTF-8 decoder inverts to_utf8 exactly on the Unicode scalar values; everything else gives no bytes |

## Left out

- Sockets, epoll, errno, clocks and sleeping: their outcomes are parameters; how long a wait or a backoff lasts is not modelled.
- C++ data races: each critical section and each read of an atomic flag is one step; the unlocked look at the queue in the sender's loop condition is read as atomic.
- The overlap of push and pop inside the element's own move operations: an item is a value.
- SenderSystem: the JSON text of a batch is an arbitrary byte string, and an exception from dump is not modelled; the unsigned 64-bit counters are unbounded; the backoff is an unbounded int, which is exact while maxBackoffMs is from 0 to 2^30 - 1; maxQueueSize 0 is excluded, because the source then pops from an empty deque.
- SenderObject.Sender.SendBatch: the run loop itself is given as steps in SenderSystem, because enqueue and stop run between its parts.
- SenderSystem.ReceiversGetWhatWasSent: says what the kernel took, not what a peer saw after a lost connection.
- TcpDeframer.TcpServer.HandleRead: the huge append length is taken to raise the length error of std::string; a callback that calls back into the server is not modelled; file descriptors and the send buffers are left out.
- PoolSystem: the model ends when the destructor returns, so what late deleters and callers still parked on the condition variable do to the destroyed object is not modelled; a lease is returned by one deleter call.
- ConnectionPool.DBConnectionPool.ReturnConnection: whether a replacement connects is not modelled, since the source pushes it either way; queries and batchInsert belong to the MySQL library.
- ChunkedIo.ReadContentChunked: where exactly a refusal stops depends on the pieces reads return and is not stated; compressors other than the identity are left out.
- ChunkedIo.ChunkedWriter.WriteData: a write that takes no bytes for ever is not modelled.
- UrlCodec.FromHexToI: the int accumulator is unbounded; decode_url passes at most four digits.
- UrlCodec.EncodeQueryParam: isalnum is that of the C locale.
- MultipartFormDataParser, TLS, regex routing, redirects and headers of cpp-httplib; serialization in message.h; configuration, logging, paths, DBResult, HTTP routes and the empty housekeeper classes.
