# A Dafny model of the server's pools, codecs and vendored helpers

The project models seven files of the repository and proves what they promise.

- **Connection pool** (`mysqlPool.cc`). `PoolProtocol.dfy` has the pool as a state machine: the
  idle queue with its time stamps, the connections callers hold, those closed or deleted, the
  counter and the clock. Every region under `_queueLock` is one step. `MysqlPool.dfy` has the
  class; each method is proved to take one step.
- **Thread pool** (`ThreadPool.cc`). `ThreadPoolProtocol.dfy` has the workers' program counters,
  the queue and the condition variable, with spurious wake-ups and a scheduler that picks the
  waiter `notify` wakes. `ThreadPool.dfy` has the class.
  `ThreadPoolProgress.dfy` follows the tasks: that all admitted ones are called, and that the pool
  comes to rest.
- **Codecs and header**. `DelimiterCodec.dfy` (`codec.cc`), `LengthCodec.dfy` (`codec.h` of
  `Project2_client`), `HeaderCodec.dfy` (the 49-byte header, both ways) and `Server.dfy`
  (`dealMessage`). `Framing.dfy` has what both stream parsers share, with the proof that chunks
  make no difference; `Buffers.dfy` has the readable region of muduo's buffer.
- **linked_ptr** (`gtest-linked_ptr.h`). `LinkedPtr.dfy` has the circles of `next_` pointers on
  the heap. `Ownership.dfy` has the same circles as values, and the promise about sharing and
  deletion over whole runs.
- **FloatingPoint** (`gtest-internal.h`). `FloatingPoint.dfy` and `Bits.dfy`, for every width,
  over the encoding of section 3.4 of IEEE 754-2008.
- `Helpers.dfy` has the few definitions that several of these share.

What the outside world answers is a parameter: which connections fail their ping, the readings
of the clock, what the database returns, which waiter wakes, how a stream is cut into chunks.

## Where the code does not do what one would expect

- The scanner and `getOneConnect` can call `front()` on an empty queue. `ScanFaultIff` and
  `GetFaultIff` say exactly when; `ScannerFaultIsReachable` is a run that gets there with every
  connection alive, and `GetFaultIsReachable` one where the only connection has died.
- `dealMessage` cuts the key where the *user name's* field has its first blank
  (`server.cc:91`). `KeyRoundTripIff`, `KeyReencodesIff` and `DecodeIsStableIff` say exactly when
  the key survives.
- A length header survives only for messages of at most 65536 bytes, and a payload only if it
  has no delimiter in it, although both `send`s accept anything: `RoundTripIff` in each codec.
- `AlmostEquals` is not transitive: `NotTransitive`. `ChainedMatches` says exactly when two
  matches make a third.
- `linked_ptr` deletes an object twice if its raw pointer is captured twice, as its header warns:
  `DoubleCaptureDeletesTwice`. `RunIsSoundIff` says exactly when its promise holds, and
  `RunConserves` what holds regardless.
- The comment at `mysqlPool.cc:252` (a young head means a young queue) is right, because every
  push refreshes the stamp: `EvictExact`.

## Model

| member | source | states |
|---|---|---|
| `PoolProtocol.InitialInv` | log_time_server/log_time_server/mysqlPool.cc:11-31 | what the constructor leaves satisfies the invariant of all runs |
| `PoolProtocol.StepKeepsInv` | log_time_server/log_time_server/mysqlPool.cc:126-256 | every step of producer, consumer, deleter and scanner keeps: the counter equals idle plus checked-out connections, each connection is in one place once, none closed is in use, the queue is sorted by idle-start time |
| `PoolProtocol.RunKeepsInv` | log_time_server/log_time_server/mysqlPool.cc:11-256 | so in every state of every interleaving |
| `PoolProtocol.PushKeepsOrder` | log_time_server/log_time_server/mysqlPool.cc:138-142 | a push with a fresh stamp keeps the queue sorted and duplicate-free |
| `PoolProtocol.DropDeadExact` | log_time_server/log_time_server/mysqlPool.cc:206-210 | the ping loop removes exactly the dead prefix of the queue and closes and uncounts just those |
| `PoolProtocol.GetHandsFirstLive` | log_time_server/log_time_server/mysqlPool.cc:206-223 | the connection handed out is the first live one, was idle, was not checked out and is not closed |
| `PoolProtocol.GetFaultIff` | log_time_server/log_time_server/mysqlPool.cc:206-211 | getOneConnect reads the front of an empty queue iff every idle connection is dead |
| `PoolProtocol.GetFaultIsReachable` | log_time_server/log_time_server/mysqlPool.cc:206-211 | a legal state of a run, as the constructor leaves it, in which that happens |
| `PoolProtocol.EvictPrefix` | log_time_server/log_time_server/mysqlPool.cc:241-254 | for any queue, the idle loop removes a prefix of connections, each expired at its own check, and stops at initCount or at an unexpired head |
| `PoolProtocol.EvictExact` | log_time_server/log_time_server/mysqlPool.cc:241-254 | with the sorted queue the break is exact: at most initCount connections are left or no remaining idle one had expired when the head was checked; eviction never goes below initCount |
| `PoolProtocol.EvictFaultIff` | log_time_server/log_time_server/mysqlPool.cc:241-243 | the idle loop reads the front of an empty queue iff more than initCount connections are checked out and every idle one expires at its turn |
| `PoolProtocol.ScanExact` | log_time_server/log_time_server/mysqlPool.cc:235-254 | a whole scanner round: which connections go as dead, which as idle for maxIdleTime * 1000 or more, and why it stops |
| `PoolProtocol.ScanFaultIff` | log_time_server/log_time_server/mysqlPool.cc:235-254 | a whole round faults iff more than initCount connections are checked out and everything behind the dead front of the queue expires at its turn |
| `PoolProtocol.ScannerFaultIsReachable` | log_time_server/log_time_server/mysqlPool.cc:241-243 | a concrete run from the start, all connections alive, into that fault |
| `PoolProtocol.GoneForGood` | log_time_server/log_time_server/mysqlPool.cc:206-210 | a connection once closed or deleted is never queued or handed out later in the run |
| `PoolProtocol.StepPopulation` | log_time_server/log_time_server/mysqlPool.cc:136-143 | one step never passes maxCount, nor falls below initCount unless a ping finds a dead connection |
| `PoolProtocol.PopulationBounds` | log_time_server/log_time_server/mysqlPool.cc:136-256 | so over whole runs: at most the larger of the initially connected and maxCount; at least the smaller of the initially connected and initCount while nothing dies |
| `PoolProtocol.ProduceExact` | log_time_server/log_time_server/mysqlPool.cc:136-143 | on an empty queue the producer makes and queues a connection iff the population is below maxCount; otherwise nothing changes |
| `PoolProtocol.ProducedIsHandedOut` | log_time_server/log_time_server/mysqlPool.cc:136-223 | a Get after it hands out just that connection, if it is alive |
| `PoolProtocol.ServesUpToMaxCount` | log_time_server/log_time_server/mysqlPool.cc:136-223 | from any state with an empty queue, as many new connections as fit below maxCount are made and handed out, in a run of such steps |
| `PoolProtocol.IdleSinceItsStamp` | log_time_server/log_time_server/mysqlPool.cc:140-217 | in every run a queued connection has been queued, with its stamp, ever since the producer or its last return put it at the end at just that time |
| `MysqlPool.MysqlPool.constructor` | log_time_server/log_time_server/mysqlPool.cc:11-31 | the loop queues and counts exactly the attempts that connected, each with the reading made for it |
| `MysqlPool.MysqlPool.Produce` | log_time_server/log_time_server/mysqlPool.cc:136-143 | is the protocol's step, whether or not the new connection connected |
| `MysqlPool.MysqlPool.GetOneConnect` | log_time_server/log_time_server/mysqlPool.cc:185-224 | time-out without effect on an empty queue; otherwise the step and the connection it hands out, or the fault |
| `MysqlPool.MysqlPool.Return` | log_time_server/log_time_server/mysqlPool.cc:212-219 | the deleter is the protocol's step |
| `MysqlPool.MysqlPool.Scan` | log_time_server/log_time_server/mysqlPool.cc:235-254 | the round is the protocol's step, or the fault |
| `MysqlPool.MysqlPool.Destroy` | log_time_server/log_time_server/mysqlPool.cc:258-266 | everything idle is closed; the counter ends at what callers still hold |
| `ThreadPoolProtocol.StepKeepsInv` | log_time_server/log_time_server/ThreadPool.cc:49-118 | every step keeps: while anyone sleeps, at least as many workers at the loop test or in take as tasks queued; nobody asleep after a stop, nobody returned before one, accepted tasks are the taken ones then the queue |
| `ThreadPoolProtocol.RunKeepsInv` | log_time_server/log_time_server/ThreadPool.cc:30-118 | so at every point of every run from start, under every interleaving and spurious wake-up |
| `ThreadPoolProtocol.NoLostWakeup` | log_time_server/log_time_server/ThreadPool.cc:68-101 | in every running state of every run: while any worker sleeps in wait, at least as many are on their way to take, busy ones not counted, as tasks are queued; so at least min(queue length, n) are awake |
| `ThreadPoolProtocol.HeadIsTakenByAnAwakeWorker` | log_time_server/log_time_server/ThreadPool.cc:86-118 | whenever a task is queued and some worker is not busy in a task, which is so while any sleeps, one takes the oldest by at most two steps of its own and no notify; only when all are busy must one finish first |
| `ThreadPoolProtocol.LogsGrow` | log_time_server/log_time_server/ThreadPool.cc:78-98 | no accepted or taken task is ever dropped or reordered |
| `ThreadPoolProtocol.ExactlyOnce` | log_time_server/log_time_server/ThreadPool.cc:78-98 | the k-th accepted task is taken by exactly one Take step, the k-th that takes anything |
| `ThreadPoolProtocol.StoppedStep` | log_time_server/log_time_server/ThreadPool.cc:49-55 | after a stop every worker step lowers a measure and no other step changes anything |
| `ThreadPoolProtocol.AfterStop` | log_time_server/log_time_server/ThreadPool.cc:77-118 | any run of a stopped pool: steps bounded by the measure, at most one more task per worker and only for one already in take, nothing accepted, unstarted tasks left in order |
| `ThreadPoolProtocol.StopEndsEveryRun` | log_time_server/log_time_server/ThreadPool.cc:49-60 | the same for the rest of any run from start that comes to a stop, with at most 3n steps |
| `ThreadPoolProtocol.StoppedAndStuckMeansDone` | log_time_server/log_time_server/ThreadPool.cc:56-59 | when no worker step is left all workers have returned, so the joins return |
| `ThreadPoolProgress.AdmittedIsAccepted` | log_time_server/log_time_server/ThreadPool.cc:30-84 | in every run from start: with workers, accepted are just the tasks given to run before the first stop, in order; without workers, all are called inline; running_ is set until that stop |
| `ThreadPoolProgress.WorkerMoves` | log_time_server/log_time_server/ThreadPool.cc:77-118 | what moves a worker from each place and where to; in particular one run wakes at most one sleeper |
| `ThreadPoolProgress.TakenIsCalled` | log_time_server/log_time_server/ThreadPool.cc:113-116 | the worker that takes the k-th task is in that task right after, unless it is empty |
| `ThreadPoolProgress.CallsConserved` | log_time_server/log_time_server/ThreadPool.cc:111-118 | at every point of every run: tasks taken but the empty ones = calls ended + workers in a task |
| `ThreadPoolProgress.NoBusyWaiting` | log_time_server/log_time_server/ThreadPool.cc:86-118 | in every run, while the pool runs, the workers have together taken at most two steps each, four per run and one per spurious wake-up |
| `ThreadPoolProgress.QuietMeansAllDone` | log_time_server/log_time_server/ThreadPool.cc:66-118 | when no worker of a running pool has a step left, every task given to run has been taken, in order, every call has ended, and all workers sleep |
| `ThreadPoolProgress.ReturnedMeansCallsEnded` | log_time_server/log_time_server/ThreadPool.cc:49-60 | when all workers have returned, every call of a taken task has ended |
| `ThreadPool.ThreadPool.Start` | log_time_server/log_time_server/ThreadPool.cc:30-42 | n workers at the loop test, running set |
| `ThreadPool.ThreadPool.Notify` | log_time_server/log_time_server/ThreadPool.cc:81 | wakes one waiter if there is one, of the scheduler's choice |
| `ThreadPool.ThreadPool.RunTask` | log_time_server/log_time_server/ThreadPool.cc:68-84 | run is the protocol's step: inline without workers, refused after stop, else queued with a notify |
| `ThreadPool.ThreadPool.StopRunning` | log_time_server/log_time_server/ThreadPool.cc:51-55 | clears running_ and wakes every waiter |
| `ThreadPool.ThreadPool.TestLoop` | log_time_server/log_time_server/ThreadPool.cc:111 | the loop test is the protocol's step |
| `ThreadPool.ThreadPool.TakeTask` | log_time_server/log_time_server/ThreadPool.cc:88-114 | one pass of take is the protocol's step; an empty task is taken but not called |
| `DelimiterCodec.FindEndOfFrame` | log_time_server/log_time_server/codec.cc:13 | behind a delimiter-free message the first match is the frame's own delimiter; none straddles |
| `DelimiterCodec.SplitReproducesStream` | log_time_server/log_time_server/codec.cc:9-24 | for every stream: messages each with the delimiter, then the residue, are the stream; no delimiter inside any of them |
| `DelimiterCodec.SplitOfFrames` | log_time_server/log_time_server/codec.cc:9-43 | parsing printed delimiter-free payloads and a residue gives them back |
| `DelimiterCodec.SplitCharacterised` | log_time_server/log_time_server/codec.cc:9-24 | parsing is the only such reading of a stream |
| `DelimiterCodec.RoundTripIff` | log_time_server/log_time_server/codec.cc:5-43 | in any chunks, payloads arrive as that list with an empty residue iff none holds the delimiter |
| `DelimiterCodec.SplitResumes` | log_time_server/log_time_server/codec.cc:5-25 | a later chunk is parsed from the residue as if all had come at once, also with the cut inside a delimiter |
| `Framing.ChunkIndependence` | log_time_server/log_time_server/codec.cc:5-25 | for any parser that resumes, successive calls on chunks deliver and leave what one call on the whole stream does |
| `DelimiterCodec.AnyChunks` | log_time_server/log_time_server/codec.cc:5-25 | so for the delimiter parser, from an empty buffer |
| `DelimiterCodec.LengthHeaderCodec.OnMessage` | log_time_server/log_time_server/codec.cc:5-25 | the loop delivers and leaves what the parse says, and ends |
| `LengthCodec.HeaderBytes` | Project2_client/Project2_client/codec.h:28-59 | network byte order, by arithmetic: the four bytes of a length, most significant first, and the signed length of four bytes |
| `LengthCodec.InvalidIff` | Project2_client/Project2_client/codec.h:31 | the receiver rejects a header iff its four bytes, as an unsigned number, exceed 65536 |
| `LengthCodec.LimitOnTheWire` | Project2_client/Project2_client/codec.h:31-42 | behind 00 01 00 00 a message of 65536 bytes is delivered, behind 00 01 00 01 nothing is |
| `LengthCodec.DecodeEncode` | Project2_client/Project2_client/codec.h:57-58 | big-endian decoding inverts encoding on all 32-bit signed lengths |
| `LengthCodec.EncodeDecode` | Project2_client/Project2_client/codec.h:28-30 | and encoding inverts decoding on all headers |
| `LengthCodec.ParseReproducesStream` | Project2_client/Project2_client/codec.h:25-48 | delivered frames then the buffer are the bytes received; what is left has no whole valid frame in front |
| `LengthCodec.ParseCharacterised` | Project2_client/Project2_client/codec.h:25-61 | parsing is the only such reading of a stream |
| `LengthCodec.ParseResumes` | Project2_client/Project2_client/codec.h:21-49 | a later chunk is parsed from the buffer as if all had come at once |
| `LengthCodec.AnyChunks` | Project2_client/Project2_client/codec.h:21-49 | any cutting into chunks makes no difference |
| `LengthCodec.FeedConserves` | Project2_client/Project2_client/codec.h:21-49 | over any chunks the delivered frames and the buffered bytes are all bytes received, in order |
| `LengthCodec.RoundTripIff` | Project2_client/Project2_client/codec.h:21-61 | under any chunking the messages sent arrive, with an empty buffer, iff none exceeds 65536 bytes |
| `LengthCodec.InvalidIsSticky` | Project2_client/Project2_client/codec.h:31-36 | behind an invalid length nothing is delivered or consumed in any later run |
| `LengthCodec.OversizeEndsStream` | Project2_client/Project2_client/codec.h:31-58 | a message whose 32-bit size is out of range ends delivery right there |
| `LengthCodec.LengthHeaderCodec.OnMessage` | Project2_client/Project2_client/codec.h:21-49 | the loop delivers and leaves what the parse says, and shuts down iff it stops at four bytes that exceed 65536 |
| `LengthCodec.LengthHeaderCodec.Send` | Project2_client/Project2_client/codec.h:52-61 | the wire is four bytes that are, most significant first, the size modulo 2^32, and the message |
| `HeaderCodec.Send` | log_time_server/log_time_server/codec.cc:28-45 | memset and five memcpys build the five padded fields; then, from byte 49 on, the body and "@%&)" |
| `HeaderCodec.PayloadFields` | log_time_server/log_time_server/codec.cc:33-40 | the fields lie at bytes 0, 8, 12, 44 and 48, padded with blanks, the body at 49 |
| `HeaderCodec.TextRoundTripIff` | log_time_server/log_time_server/server.cc:53-84 | a text comes back from its field iff it is blank-free and not empty, or fills the field and starts with a blank |
| `HeaderCodec.KeyRoundTripIff` | log_time_server/log_time_server/server.cc:86-96 | exactly when the decoded key is the key sent, for every user field |
| `HeaderCodec.KeyReencodesIff` | log_time_server/log_time_server/server.cc:86-96 | exactly when the decoded key fills the header as the original did |
| `HeaderCodec.HeaderRoundTripIff` | log_time_server/log_time_server/server.cc:53-100 | exactly which whole messages decode to themselves |
| `HeaderCodec.OrdinaryRoundTrip` | log_time_server/log_time_server/server.cc:53-100 | blank-free fields all survive but the key, which re-encodes iff the user name is as long, and is else cut to its length |
| `HeaderCodec.DecodeIsStableIff` | log_time_server/log_time_server/server.cc:53-113 | for every message of 49 bytes or more: what was decoded decodes to itself again, unless a blank-led user field emptied a key |
| `Server.Respond` | log_time_server/log_time_server/server.cc:102-143 | every reply fits the five header fields, for every message and database answer |
| `Server.ComServer.DealMessage` | log_time_server/log_time_server/server.cc:47-146 | sends, erases and shuts down exactly as the response says |
| `Server.ReplyVocabulary` | log_time_server/log_time_server/server.cc:102-137 | RSUPJ only for RQUPJ with GZIP, RSDPJ only for RQDPJ, TXT iff the body is FAIL; side, user name and key of the request |
| `Server.ResponseIff` | log_time_server/log_time_server/server.cc:51-143 | by the bytes of the message: exactly which are answered and which lose the connection, whatever follows the blank behind the command |
| `Server.ReplyContents` | log_time_server/log_time_server/server.cc:102-137 | by the bytes of the request: an upload is answered TXT with SUCC iff the insert went through and else FAIL; a download with what the query gave, TXT iff that is FAIL and else GZIP |
| `Server.ReplyBytes` | log_time_server/log_time_server/server.cc:53-137 | the whole reply, byte by byte from the bytes of the request, user name and key included |
| `Server.ReplyRoundTripIff` | log_time_server/log_time_server/server.cc:113-135 | exactly which replies decode to themselves |
| `Server.CommandIff` | log_time_server/log_time_server/server.cc:53-62 | a message has a command shorter than its field iff it starts with it and one blank |
| `Server.ComServer.DealAll` | log_time_server/log_time_server/server.cc:147-151 | the tasks of one connection, one after the other: all replies in that order, and shut down once per dropped message |
| `Server.Conversation` | log_time_server/log_time_server/server.cc:147-151 | any list of delimiter-free requests in any chunks is delivered as sent; if they decode to themselves each gets the response meant for it, in whatever order they are dealt with, all replies decode to themselves, and the bytes DealAll hands to send, in any chunks, come back as those replies iff none has a delimiter in it |
| `Server.ReplyArrives` | log_time_server/log_time_server/server.cc:113-135 | its reply carries its user name, key and side, decodes to itself, and, if delimiter-free, comes back as one message |
| `LinkedPtr.LinkedPtr.WalkTo` | dblayer/include/gtest/internal/gtest-linked_ptr.h:111-125 | the loop of join and depart ends, at the one pointer of the circle whose next leads to the given one |
| `LinkedPtr.LinkedPtr.Join` | dblayer/include/gtest/internal/gtest-linked_ptr.h:109-116 | the walk ends before ptr and the circle becomes the old one with this put in there |
| `LinkedPtr.LinkedPtr.LeaveCircle` | dblayer/include/gtest/internal/gtest-linked_ptr.h:121-129 | true iff the circle was a singleton; else the circle becomes the old one without this |
| `LinkedPtr.LinkedPtr.Leave` | dblayer/include/gtest/internal/gtest-linked_ptr.h:194-196 | all circles of the heap stay well-formed, this one loses this, others are untouched; the last one out deletes |
| `LinkedPtr.LinkedPtr.TakeOver` | dblayer/include/gtest/internal/gtest-linked_ptr.h:198-201 | a new singleton circle, others untouched |
| `LinkedPtr.LinkedPtr.Share` | dblayer/include/gtest/internal/gtest-linked_ptr.h:203-209 | joins the source's circle, or its own if the source is null |
| `LinkedPtr.LinkedPtr.FromRaw` | dblayer/include/gtest/internal/gtest-linked_ptr.h:142 | construction from a raw pointer is the operation on circles |
| `LinkedPtr.LinkedPtr.FromCopy` | dblayer/include/gtest/internal/gtest-linked_ptr.h:147-150 | so is copy construction |
| `LinkedPtr.LinkedPtr.Assign` | dblayer/include/gtest/internal/gtest-linked_ptr.h:159-165 | so is assignment, without effect on itself; after it both pointers hold the object the source held |
| `LinkedPtr.LinkedPtr.Reset` | dblayer/include/gtest/internal/gtest-linked_ptr.h:168-171 | so is reset |
| `LinkedPtr.LinkedPtr.Destroy` | dblayer/include/gtest/internal/gtest-linked_ptr.h:143 | so is destruction |
| `Ownership.DepartKeepsWellFormed` | dblayer/include/gtest/internal/gtest-linked_ptr.h:121-129 | departing keeps every pointer on exactly one circle whose members agree on it |
| `Ownership.CopyKeepsWellFormed` | dblayer/include/gtest/internal/gtest-linked_ptr.h:203-209 | so does joining |
| `Ownership.RunKeepsWellFormed` | dblayer/include/gtest/internal/gtest-linked_ptr.h:142-209 | by induction, every state of every run has well-formed circles, which its operations are defined on |
| `Ownership.ApplyMeans` | dblayer/include/gtest/internal/gtest-linked_ptr.h:142-209 | what every public operation leaves: after assignment or copy the pointer holds the object of the source and stands right before it on its circle; after construction or reset it is alone with the raw pointer; all other pointers keep their values and each other |
| `Ownership.DepartDeletesLast` | dblayer/include/gtest/internal/gtest-linked_ptr.h:194-196 | departing deletes the object iff its last owner leaves |
| `Ownership.ApplyKeepsSound` | dblayer/include/gtest/internal/gtest-linked_ptr.h:142-209 | one operation deletes exactly the objects that lose their last owner, at most one and once |
| `Ownership.RunIsSound` | dblayer/include/gtest/internal/gtest-linked_ptr.h:32-36 | over every run with no raw pointer captured twice: sharing is being on one circle, alive is having an owner, nothing is deleted twice |
| `Ownership.RunIsSoundIff` | dblayer/include/gtest/internal/gtest-linked_ptr.h:32-45 | at every point of every run the promise holds iff no raw pointer has been captured twice |
| `Ownership.RunConserves` | dblayer/include/gtest/internal/gtest-linked_ptr.h:194-209 | in every run, whatever is captured: captures of an object are its deletions plus the circles that still stand for it |
| `Ownership.DeletedAsOftenAsCaptured` | dblayer/include/gtest/internal/gtest-linked_ptr.h:43-45 | in every run no object is deleted more often than captured, and as often iff no pointer to it is left |
| `Ownership.SoundMeans` | dblayer/include/gtest/internal/gtest-linked_ptr.h:32-36 | the same for two given pointers and one object, both directions |
| `Ownership.AssignFreesSourceIff` | dblayer/include/gtest/internal/gtest-linked_ptr.h:159-165 | although depart runs first, assignment frees the object about to be shared only from a different circle with the same object, so never in those runs |
| `Ownership.DoubleCaptureDeletesTwice` | dblayer/include/gtest/internal/gtest-linked_ptr.h:43-45 | a run of four operations that captures one raw pointer twice and deletes its object twice |
| `FloatingPoint.BiasedIsSigned` | dblayer/include/gtest/internal/gtest-internal.h:441-449 | the biased form is 2^(N-1) plus the signed magnitude, without wrap-around |
| `FloatingPoint.DistanceIsAbs` | dblayer/include/gtest/internal/gtest-internal.h:453-458 | the unsigned distance is the absolute difference of the signed magnitudes |
| `FloatingPoint.DistanceIsMetric` | dblayer/include/gtest/internal/gtest-internal.h:453-458 | symmetric, triangle inequality, zero iff equal bits or two zeros |
| `FloatingPoint.FractionMaskValue` | dblayer/include/gtest/internal/gtest-internal.h:339-340 | the shifted complement is 2^F - 1 |
| `FloatingPoint.ExponentMaskValue` | dblayer/include/gtest/internal/gtest-internal.h:343 | the complement of the other two masks is the bit pattern of infinity |
| `FloatingPoint.NanIff` | dblayer/include/gtest/internal/gtest-internal.h:398-402 | the mask test holds iff the magnitude lies above infinity's |
| `FloatingPoint.AlmostEqualsIff` | dblayer/include/gtest/internal/gtest-internal.h:410-417 | exactly which pairs are accepted |
| `FloatingPoint.AlmostEqualsLaws` | dblayer/include/gtest/internal/gtest-internal.h:410-417 | symmetric, reflexive iff not a NaN, false with a NaN, true of the two zeros |
| `FloatingPoint.ChainedMatches` | dblayer/include/gtest/internal/gtest-internal.h:357 | two chained matches make a third iff the middle number is not strictly between the others or the two distances add up to at most 4; they are never more than 8 ULPs apart |
| `FloatingPoint.NotTransitive` | dblayer/include/gtest/internal/gtest-internal.h:357 | and the bound is met, for every type with three fraction bits or more: 4 ULPs match, 5 and 8 do not |
| `FloatingPoint.UnitInLastPlace` | dblayer/include/gtest/internal/gtest-internal.h:345-357 | neighbouring magnitudes differ in value by one ULP, also across binades and at the subnormals |
| `FloatingPoint.OrderIsNumeric` | dblayer/include/gtest/internal/gtest-internal.h:426-449 | the biased form orders words as the numbers they encode |
| `FloatingPoint.NextUp` | dblayer/include/gtest/internal/gtest-internal.h:404-417 | the distance counts representable numbers: one step of it is one neighbour, with nothing in between |
| `FloatingPoint.InfinityNeighbours` | dblayer/include/gtest/internal/gtest-internal.h:404-409 | infinity is almost equal to exactly the four largest finite numbers and itself |

## Left out

- Sockets, the event loop, logging and muduo's `Buffer` beyond its readable region; `conn->send` and `shutdown` are logs.
- Buffers over 2^31 bytes, where the cast of `find` to `int` in `codec.cc:13` would go wrong: buffers here have any length and positions are not cut.
- The width of the pool's `int` settings and counter, and of the product of `_maxIdleTime` with 1000: they are unbounded here. The clock readings are compared with that product as the code does, whatever unit they have.
- MySQL itself: pings, inserts and queries are answers from outside, SQL texts and their fixed-size buffers are not modelled.
- The wake-ups of the connection pool: the deleter and the scanner never notify, so nothing is claimed about how long a caller waits.
- `loadConfigFile`, the singleton, and the exit of the process when no connection could be made.
- The life of a connection object closed by `mysqlClose`, which the pool neither deletes nor uses again: it counts as gone.
- `MysqlPool.MysqlPool.Return`: requires that the connection is checked out, which `shared_ptr` sees to by calling its deleter once.
- `HeaderCodec.Send`: requires texts that fit their fields, as the copies do; what longer ones overwrite is not modelled.
- `Server.ComServer.DealMessage`: takes the connection for a query as given, as the code dereferences it unchecked.
- Exceptions and aborts in tasks, the thread-init callback, `queueSize`, and races on `running_`: its reads and writes are atomic steps. `run` comes after `start` has returned, and a pool is started once.
- `ThreadPool.ThreadPool.StopRunning`: ends before the joins; that they return is `StopEndsEveryRun` with `StoppedAndStuckMeansDone`, for tasks that return.
- The reuse of memory: an `Address` in `Ownership` is an object's identity, so an object that the allocator puts where a deleted one was is another one, and capturing it is not a second capture.
- The mutex of `linked_ptr` and copies between pointer types: operations are atomic and all pointers have one type.
- The arithmetic of floats: `FloatingPoint` looks at bits only, and values are exact integers in units of the smallest subnormal.
- The rest of gtest, the database layer, gzip, the demos and the duplicate copies of these files.
