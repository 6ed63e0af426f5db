# trains-valkey: replication, rejoin and wire protocol

This project models the parts of `crates/trains-valkey` that decide whether a
replicated Redis stays one Redis, and proves what they promise.

* **Apply machine.** Every node consumes one totally ordered, at-least-once stream
  of write operations, drops repetitions with a watermark and window per origin,
  applies the rest to a store, and logs them in a bounded ring buffer
  (`Dedup`, `DeliveredLog`, `Replication`). The store is any deterministic state
  machine (`Wire.Machine`): the theorems hold for every store whose state and reply
  are a function of its state and the command. The in-memory store is one; a redis
  process that expires keys by its clock is not.
* **Rejoin.** A returning node pulls a snapshot or an incremental tail from the
  survivors, round by round, through failures at any frame, and may be promoted
  (`StateTransfer`, `Proxy.PassiveReplica`).
* **Driver.** Ids for client writes, the waiting clients, and their answers
  (`Driver`, `Replicas`, `Proxy.DriverState`).
* **Cluster.** All of it as a step system over an abstract total-order broadcast,
  with crashes, stale restarts, lost and damaged transfers and promotions
  (`Cluster`, `Safety`), when a node may take up the stream (`Resuming`), what a
  promoted node can promise its clients (`Promotion`), and what clients may rely on in
  whole runs (`Guarantees`).
* **Ring, gate, codec, store.** Successor computation (`Ring`), connection
  admission (`Gate`), RESP2 (`Framing`, `Requests`, `RespDecoding`, `Replies`, on
  the byte-level text of `Text`), the in-memory store (`Store`, `StoreCommands`,
  `StoreInverses`, `MemStores`) and the resolution of non-deterministic writes (`Effects`,
  `Classify`).

Code that changes state step by step is written as classes and loops, each proved
equal to a function on values; the properties are lemmas about those functions.
`Dedup.WriteDedup`, `DeliveredLog.RingLog`, `Replicas.Replica`,
`Proxy.PassiveReplica`, `Proxy.DriverState`, `Ring.RingView`, `Gate.ConnGate`,
`RespDecoding.RespDecoder` and `MemStores.MemStore` are the source's objects.
Where a number is read from or printed to text, the reader and printer are
parameters (`Requests.Decoder`, `Replies.Reader`, `Store.Rules`), and so are the
largest sizes that the allocator serves at once; `Resp2`, `ReplyReader` and
`MEM_RULES` are the source's own readers and printers, and lemmas show that they
meet what the theorems ask of them.

## Where the code differs from its documentation

* `replica.rs:84-119` counts on every origin issuing ids from one counter that
  starts at 0. After a promotion `next_rid` restarts at 0 while the dedup state is
  inherited (`proxy.rs:617`, `proxy.rs:631-633`). An id that the node had used and
  that the seed covers is then never answered
  (`Driver.ReusedIdIsNeverAnswered`, `Driver.AnsweredIffIdNotInherited`). An id it
  had used whose old broadcast is still to be ordered wakes the wrong client
  (`Safety.WrongAckIsReachable`, a run from a fresh cluster; it relies on the broadcast
  ordering an excluded node's old write after the node's promotion, which the kernel
  decides). So a promotion serves all its clients exactly when the node never broadcast
  before (`Promotion.PromotionServesIffNeverWrote`); that the answers which are given
  are right takes exactly a seed that covers its earlier broadcasts
  (`Promotion.AnswersRightIffCovered`). The guarantees for clients over whole runs hold
  in all runs whose promotions are covered in this sense (`Guarantees`). In runs in
  which no node is promoted after it has written, ids are even unique as documented
  (`Safety.RunFreshIds`), and such runs are covered.
* A caught-up passive replica can move backwards: a survivor that has applied less
  than the replica answers with its older snapshot, which replaces the newer state
  that clients were reading (`StateTransfer.AnswerMovesBackIff` says exactly when,
  `Safety.MovingBackIsReachable` is a run). The remark that the head index never goes
  backwards (`delivered_log.rs:116-119`) is about appending only.
* An error reply leaves the store unchanged except for GETSET on a hash or set
  (`store.rs:138-141`). SADD without members on a missing key leaves an empty set
  (`store.rs:246-261`). SREM and HDEL that empty a key leave its TTL
  (`store.rs:237-239`, `store.rs:274-276`). `Store.Rules.EveryWriteObeysTheLaws`
  states these as the only exceptions, each as an if-and-only-if.
* DECRBY negates its operand first (`store.rs:532-533`), so it does not subtract the
  smallest 64-bit integer; `Store.Rules.IncrMovesCounter` says exactly when it does.
* A reply text that holds a line feed or ends in a carriage return is encoded as it
  is and is not read back (`resp.rs:51-86`); `Replies.ReplyRoundTripIffReadable`.
* A header with a count or length that the allocator refuses is not reported as an
  error (`resp.rs:246`, `resp.rs:151`, `resp.rs:162`): a size that overflows panics, an
  allocator that fails aborts the process. The model has either as `OutOfMemory`.
* "Effect may no-op" (`effect.rs:29-33`) is not all: two SPOPs resolved before either
  is delivered hand the same member to two clients. `Effects.SpopsReplyDisjointIff`
  says exactly when they do not.

## Model

| member | source | states |
|---|---|---|
| Dedup.FirstSeenIsSetInsert | crates/trains-valkey/src/replica.rs:144-154 | One `first_seen` call answers and updates exactly as insertion into an unbounded set of (origin, id) pairs. |
| Dedup.CallsAnswerAsASet | crates/trains-valkey/src/replica.rs:134-154 | For every call sequence the i-th answer says whether the i-th pair occurred before it. |
| Dedup.DedupCanonical | crates/trains-valkey/src/replica.rs:72-90 | The representation is canonical: two states standing for the same applied set are equal. |
| Dedup.CallsForgetOrder | crates/trains-valkey/src/replica.rs:101-119 | The arrival order leaves no trace in the state. |
| Dedup.WindowBound | crates/trains-valkey/src/replica.rs:101-130 | The out-of-order window never holds more than the gap between the watermark and the largest applied id. |
| Dedup.FifoKeepsWindowEmpty | crates/trains-valkey/src/replica.rs:101-119 | When each origin's first deliveries arrive in id order from 0, the window is empty after every step and the watermark counts that origin's applied operations. |
| Dedup.RecordId | crates/trains-valkey/src/replica.rs:101-119 | The insert-and-sweep loop adds exactly one id and leaves no id adjacent to the watermark in the window. |
| Dedup.WriteDedup.FirstSeenOp | crates/trains-valkey/src/replica.rs:147-154 | The mutable form: the answer says whether the pair was new, and the applied set grows by exactly this pair. |
| DeliveredLog.AppendTracks | crates/trains-valkey/src/delivered_log.rs:116-128 | Appending keeps the log equal to the last min(cap, appended since start or resume) operations of the history, consecutively indexed up to the head. |
| DeliveredLog.EntriesFromIsSuffix | crates/trains-valkey/src/delivered_log.rs:173-187 | `entries_from(x)` is the history from the later of x and the low-water index. |
| DeliveredLog.CanServeIffTailComplete | crates/trains-valkey/src/delivered_log.rs:163-187 | `can_serve_from(x)` holds if and only if x is not ahead of the head and `entries_from(x)` is the whole history from x. |
| DeliveredLog.RingLog.AppendOp | crates/trains-valkey/src/delivered_log.rs:120-128 | The push-and-evict loop, with the assigned index and the operations appended since the start or resume. |
| DeliveredLog.RingLog.Tail | crates/trains-valkey/src/delivered_log.rs:169-187 | The returned tail, and that the guard reports its completeness exactly, whatever history came before the log was resumed. |
| Replication.DeliverStep | crates/trains-valkey/src/replica.rs:472-493 | A repeated operation changes nothing at all; a new one extends the applied history by itself and earns the reply of its position in a plain replay, or the reply resolved at its origin. |
| Replication.DeliverExecutes | crates/trains-valkey/src/replica.rs:472-493 | A known operation changes nothing and gets no reply. A new one is executed: the store becomes what the machine makes of it with the command that its arguments spell, the reply is the one carried for the client if there is one and the machine's otherwise; empty arguments are an error that leaves the store alone. Its key is recorded and the index moves by one. |
| Replication.ReplayExecutes | crates/trains-valkey/src/replica.rs:472-493 | The plain replay that other results compare with is such an execution, from the machine's initial state, position by position. |
| Replication.DeliverAllTrace | crates/trains-valkey/src/replica.rs:435-493 | Delivering a stream passes through store states in which exactly its new operations are executed, in order and once each, each with the reply of its execution. |
| Replication.SameHistorySameState | crates/trains-valkey/src/lib.rs:8-24 | Two nodes with the same applied history have equal stores, dedup states and heads. |
| Replication.DeliverAllIsFresh | crates/trains-valkey/src/replica.rs:435-493 | Delivering any stream takes a node to its history plus the stream's first occurrences. |
| Replication.RedeliveryChangesNothing | crates/trains-valkey/src/replica.rs:435-493 | Re-deliveries of earlier operations and undecodable payloads, inserted anywhere in a stream, leave store, dedup, head and log unchanged. |
| Replication.BatchingIsInvisible | crates/trains-valkey/src/replica.rs:435-456 | How deliveries are grouped into batches does not matter. |
| StateTransfer.BuildShape | crates/trains-valkey/src/replica.rs:505-528 | A snapshot is sent if and only if the peer asks with 0 or outside the retained window. It carries the survivor's own store, dedup state, index and view, with an empty tail; otherwise the tail is exactly the missing part of the history. |
| StateTransfer.DeliverAtIndex | crates/trains-valkey/src/replica.rs:472-493 | Delivering position i of the order to a node at h with i not beyond h is absorbed or is one step forward. |
| StateTransfer.TailAdvances | crates/trains-valkey/src/replica.rs:423-430 | Replaying an overlapping tail ends at the further of the two positions and counts exactly the operations that were missing. |
| StateTransfer.TailStopsAtBadFrame | crates/trains-valkey/src/replica.rs:424-425 | A frame that does not decode ends the replay with exactly the frames before it applied. |
| StateTransfer.TransferMeans | crates/trains-valkey/src/replica.rs:411-431 | Applying any transfer: it succeeds if and only if all of it decodes; the node is the snapshot's store, dedup state and index, when there is one, with the frames before the first bad one delivered on top; a snapshot that does not decode changes nothing. |
| StateTransfer.TransferKeepsRejoiner | crates/trains-valkey/src/proxy.rs:1045-1072 | A transfer that is a truthful answer to `have`, damaged at any place or intact, from a survivor ahead, behind or overlapping: it succeeds if and only if it is intact, success puts even a node with an arbitrary stale store into a prefix state, and failure never takes a synchronised node out of one. |
| StateTransfer.TransferCatchesUp | crates/trains-valkey/src/replica.rs:411-431 | After a complete exchange the peer has the survivor's store, dedup state and head, with the number of applied operations; applying the tail again applies nothing. |
| StateTransfer.AnswerMovesBackIff | crates/trains-valkey/src/proxy.rs:1045-1072 | An intact answer takes a synchronised rejoiner back if and only if it is a snapshot of a survivor behind it; asked with the rejoiner's own position, if and only if the survivor is behind that. |
| Driver.RunAccounted | crates/trains-valkey/src/proxy.rs:737-848 | Whatever the ring delivers, every issued id is either waiting or answered exactly once, to its own client. |
| Driver.PumpAllPumps | crates/trains-valkey/src/proxy.rs:799-848 | Pumping any stream executes its new operations, in order and once each, and wakes exactly the clients that waited for them, each with the reply that its operation earned. |
| Driver.WaitsOrIsAnswered | crates/trains-valkey/src/proxy.rs:824-841 | A waiting client goes on waiting, or is answered under its own id with an operation that was delivered. |
| Driver.WritesAreIssued | crates/trains-valkey/src/proxy.rs:737-794 | The i-th client write of a run is broadcast under id i, with its own arguments and carried reply, on behalf of its own client. |
| Driver.AnswersReachWriters | crates/trains-valkey/src/proxy.rs:824-841 | In every run, whatever the ring delivers, each answer goes to the client whose write was given the answered id. |
| Driver.AnswersAreForWrites | crates/trains-valkey/src/proxy.rs:737-848 | If the ring delivers under a node's id only what it broadcast or ids it inherited, each answer is for that very write: its client, its arguments, and the reply of its place in the order. |
| Driver.RunExplained | crates/trains-valkey/src/proxy.rs:737-848 | If the ring delivers under a node's id only what it broadcast or ids it inherited, an issued id is waiting if and only if it is inherited or not yet applied, and every answer is for the broadcast operation, sent after it was applied and logged, with the reply of its position. |
| Driver.ReusedIdIsNeverAnswered | crates/trains-valkey/src/proxy.rs:613-634 | A write given an id that the starting dedup state already holds stays unanswered in every run. |
| Driver.AnsweredIffIdNotInherited | crates/trains-valkey/src/proxy.rs:824-841 | On such a ring, delivering a waiting write answers its client if and only if its id was not inherited. |
| Driver.PromotedFirstWriteHangs | crates/trains-valkey/src/proxy.rs:613-634 | A concrete promotion after which the first client write is never answered, whatever follows. |
| Cluster.DeliverKeepsPrefix | crates/trains-valkey/src/proxy.rs:814-842 | A node in a prefix state, whose stream from the cursor can be resumed, stays such a node, and a new operation is exactly the next of the order. |
| Cluster.ResumableStep | crates/trains-valkey/src/proxy.rs:631-659 | The payload under the cursor of a resumable stream is undecodable, known, or exactly the next operation of the order; the rest is resumable again. |
| Cluster.ResumableGrows | crates/trains-valkey/src/proxy.rs:631-659 | A stream that can be resumed can still be when the ring orders more. |
| Resuming.OnTrackIffResumable | crates/trains-valkey/src/proxy.rs:631-659 | However the ring goes on, every delivery from a cursor leaves a node with the operations of a prefix of the order, if and only if the stream from there brings the keys that it lacks, in order. |
| Resuming.PrefixKeptIffResumable | crates/trains-valkey/src/proxy.rs:631-659 | However the ring goes on, every delivery leaves the node in a prefix state, if and only if `Resumable`, the condition of the promotion step, holds. |
| Resuming.ResumableReachesEnd | crates/trains-valkey/src/proxy.rs:647-659 | A resumable stream takes the node to the end of the order. |
| Resuming.NoGapIsResumable | crates/trains-valkey/src/proxy.rs:647-659 | A ring that skips nothing can be resumed. |
| Resuming.RedeliveredGapIsResumable | crates/trains-valkey/src/proxy.rs:647-659 | So can a concrete ring that skipped operations and delivers them again in order. |
| Resuming.PrefixKeptIffNotAhead | crates/trains-valkey/src/replica.rs:472-493 | Delivering position i of the order to a node at h leaves it in some prefix state if and only if i is not beyond h. |
| Cluster.NextInv | crates/trains-valkey/src/proxy.rs:599-734 | Every step of the cluster keeps the invariant: prefix states, truthful transfers under way, accounted clients and explained acknowledgements. |
| Cluster.RunInv | crates/trains-valkey/src/lib.rs:8-24 | In every state of every run, every active node and every rejoiner that completed a transfer is in a prefix state of one order. |
| Safety.Agreement | crates/trains-valkey/src/lib.rs:8-24 | In every run a caught-up node's store is the replay of the first `head` operations of one order, and two such nodes at equal heads have equal stores and dedup states. |
| Safety.Convergence | crates/trains-valkey/src/lib.rs:13-24 | In every run, an active node that has consumed the whole stream has applied the whole order: its store is the replay of all of it. |
| Safety.RunExtends | crates/trains-valkey/src/lib.rs:22-24 | Nothing ordered, broadcast or acknowledged is ever taken back. |
| Safety.AckIsDurable | crates/trains-valkey/src/lib.rs:8-24 | An operation whose delivery answered a client keeps its place at every later point of the run, and every caught-up node past this place has applied it with the replied result. |
| Safety.RunFreshIds | crates/trains-valkey/src/replica.rs:72-83 | In every run in which no node is promoted after it has written, no two broadcasts share an id and every active node's next id is new. |
| Safety.NextFreshIds | crates/trains-valkey/src/proxy.rs:613-634 | Every step keeps this, except a promotion of a node that has written. |
| Safety.AckedBeforeIssuedIsOrderedBefore | crates/trains-valkey/src/lib.rs:13-24 | In every run, an operation whose delivery answered a client before another write is broadcast comes before that write in the order. |
| Guarantees.RunKept | crates/trains-valkey/src/proxy.rs:737-848 | In every run whose promotions are covered (each starts from a state that covers what its node broadcast before): every active node answers only for its clients' own writes, every acknowledgement is for the acknowledged client's write, and none is repeated. |
| Guarantees.OwnWriteAcked | crates/trains-valkey/src/command.rs:54-58 | In every such run an acknowledged client's own write is in the order and the reply is the one its position earned. |
| Guarantees.RealTimeOrder | crates/trains-valkey/src/lib.rs:13-24 | In every such run a write acknowledged before another one is broadcast comes before it in the order. |
| Guarantees.EachWriteAckedOnce | crates/trains-valkey/src/proxy.rs:836-841 | In every such run each broadcast is acknowledged at most once, over all incarnations of its node. |
| Guarantees.NoPromotionAfterWriteIsCovered | crates/trains-valkey/src/proxy.rs:613-634 | Runs in which no node is promoted after it has written are such runs. |
| Guarantees.ReadYourWrites | crates/trains-valkey/src/lib.rs:13-21 | While the node that acknowledged a write stays up, its store is the replay of the order beyond that write; in every run for the operation answered for, in covered runs for the client's write. |
| Safety.MovingBackIsReachable | crates/trains-valkey/src/proxy.rs:928-950 | For every store machine a run from a fresh cluster takes a caught-up passive replica back to an empty state. |
| Safety.ReusedIdAcksTheWrongWrite | crates/trains-valkey/src/proxy.rs:824-841 | With an older broadcast of the same id still to be ordered, two steps answer a client whose own write is then shut out for good. |
| Safety.WrongAckIsReachable | crates/trains-valkey/src/proxy.rs:613-634 | For every store machine a run from a fresh cluster acknowledges a write that is not in the order and whose key another operation holds there. |
| Safety.ShutOutForGood | crates/trains-valkey/src/replica.rs:472-493 | A write whose key another operation holds in the order never gets into it, in any continuation. |
| Promotion.TrustedRun | crates/trains-valkey/src/proxy.rs:737-848 | A promoted node whose seed covers its own earlier broadcasts answers only for its clients' own writes, in every run. |
| Promotion.UncoveredMisanswers | crates/trains-valkey/src/proxy.rs:613-634 | From any uncovered broadcast, steps are constructed that end in a wrong answer. |
| Promotion.AnswersRightIffCovered | crates/trains-valkey/src/proxy.rs:613-634 | All answers that the new incarnation gives are right, in every continuation without another crash of the node, if and only if the seeded dedup state covers everything its earlier incarnations broadcast. |
| Promotion.PromotionServesIffNeverWrote | crates/trains-valkey/src/proxy.rs:613-634 | All its answers are right and no client is left waiting under an id that was applied already, in every such continuation, if and only if the node had never broadcast before. |
| Promotion.EarlierBroadcastHarms | crates/trains-valkey/src/proxy.rs:613-634 | After any earlier broadcast of the node, steps are constructed that end in a wrong answer or in a dropped write. |
| Ring.NextAliveIsNext | crates/trains-valkey/src/proxy.rs:1232-1239 | `next_alive` is the live node at the smallest forward distance, or the node itself when no other is live, for every ring size and dead set. |
| Ring.SuccessorInList | crates/trains-valkey/src/proxy.rs:1232-1239 | The successor of the i-th live node is the next live node in increasing order, wrapping. |
| Ring.OneCycle | crates/trains-valkey/src/proxy.rs:1232-1239 | From any live node the successor pointers visit every live node exactly once and come back to the start. |
| Ring.ExcludeChangesOnePointer | crates/trains-valkey/src/proxy.rs:1154-1175 | Excluding a node changes only the pointer that led to it, which then leads to its successor. |
| Ring.OnePredecessor | crates/trains-valkey/src/proxy.rs:1154-1175 | Exactly one live node points at any live node, so exactly one pointer changes. |
| Ring.ScanForward | crates/trains-valkey/src/proxy.rs:1233-1239 | The scan loop terminates by cyclic distance and finds the next live node. |
| Ring.SuccessorAfterChanges | crates/trains-valkey/src/proxy.rs:1154-1202 | After any sequence of exclusions and readmissions a node is taken for dead exactly if the last change about it excluded it, and `succ` is the next live node. |
| Ring.RingView.Promoted | crates/trains-valkey/src/proxy.rs:631-645 | Promotion seeds the dead set without the node itself and the matching successor. |
| Ring.RingView.ExcludeNode | crates/trains-valkey/src/proxy.rs:1155-1175 | `succ` equals `next_alive` after every exclusion, and changes only if the victim was the successor. |
| Ring.RingView.ReadmitNode | crates/trains-valkey/src/proxy.rs:1177-1202 | Readmission restores the dead set and the successor from before the exclusion. |
| Gate.NextInv | crates/trains-valkey/src/proxy.rs:109-153 | Each atomic section keeps the permits, the exact per-address counts and the absence of zero entries. |
| Gate.CapsHold | crates/trains-valkey/src/proxy.rs:65-88 | Under every interleaving permits in use stay within the pool, every address within its cap, an entry exists exactly for addresses with admitted connections, and the saturating decrement never saturates. |
| Gate.GateRecovers | crates/trains-valkey/src/proxy.rs:78-82 | When every connection is gone the gate is as it was at the start. |
| Gate.ConnGate.TryAcquire | crates/trains-valkey/src/proxy.rs:113-114 | A permit is taken if and only if one is left, exactly one, and no address count changes. |
| Gate.ConnGate.CheckAddress | crates/trains-valkey/src/proxy.rs:115-125 | Admission happens if and only if the address has fewer than the cap of admitted connections, and then counts one more there and nowhere else. |
| Gate.ConnGate.DecrementAddress | crates/trains-valkey/src/proxy.rs:143-153 | Dropping a guard takes exactly one off its address and nothing off others, removing the entry at zero. |
| Gate.ConnGate.ReleasePermit | crates/trains-valkey/src/proxy.rs:137-141 | Only a rejected or already uncounted connection gives its permit back, and then exactly one. |
| Framing.Framer.ChunkingIsInvisible | crates/trains-valkey/src/proxy.rs:515-530 | For every byte stream, malformed ones included, and every way of cutting it into chunks: the same commands before the first error, the same error, and without an error the same bytes left over. |
| Requests.Decoder.ParseStable | crates/trains-valkey/src/resp.rs:216-294 | Once a buffer yields a command or an error, appended bytes do not change the verdict. |
| Requests.Decoder.UsedBounds | crates/trains-valkey/src/resp.rs:201-209 | Each decoded command consumes at least one byte and no more than there are. |
| Requests.Decoder.ParseFront | crates/trains-valkey/src/resp.rs:223-275 | The loop over bulk elements, equal to the recursive reading for every buffer, with a count that the allocator refuses as an outcome. |
| Requests.InlineIsRead | crates/trains-valkey/src/resp.rs:279-294 | Any words free of blanks, within any blanks, ended by LF or CRLF, are taken as exactly those words, and exactly the line is used, whatever follows. |
| Requests.EveryLineSpreads | crates/trains-valkey/src/resp.rs:288-292 | Every line is made of such words and blanks, so no other inline line is left. |
| Requests.Decoder.InlineCommandIsRead | crates/trains-valkey/src/resp.rs:216-294 | The same from the front of the parser, for every line that does not start with `*`. |
| Requests.Decoder.HeaderVerdicts | crates/trains-valkey/src/resp.rs:223-246 | What a multibulk header makes of any text: an error when it is no number, an empty command when it is not positive, a refused allocation when it is too large. |
| Requests.Decoder.ElementVerdicts | crates/trains-valkey/src/resp.rs:248-275 | What any element line and the bytes behind it make of the element: not a bulk, a length that is no number, a negative length, bytes still missing, a payload not ended by CRLF, or exactly the payload. |
| Requests.Decoder.BadElementFails | crates/trains-valkey/src/resp.rs:247-275 | Behind any number of good elements the first bad one fails the request with its error, and an unfinished one leaves it waiting. |
| Requests.RequestBytes | crates/trains-valkey/src/resp.rs:110-118 | The bytes of a request on the wire. |
| Requests.Decoder.RequestRoundTrip | crates/trains-valkey/src/resp.rs:110-118 | Parsing an encoded request followed by any bytes returns that argument vector, binary-safe, and takes exactly the encoding. |
| Requests.Decoder.RequestPrefixNeedsMore | crates/trains-valkey/src/resp.rs:223-275 | Every proper prefix of an encoded request needs more bytes. |
| Requests.Resp2ReadsPrinted | crates/trains-valkey/src/resp.rs:232-262 | The source's header reader reads back every printed size, which is what the round trip asks of it. |
| Requests.PipelineSurvivesChunking | crates/trains-valkey/src/resp.rs:196-209 | A pipeline of encoded requests, cut in any way, is decoded to exactly those requests. |
| Requests.EncodeRequestInto | crates/trains-valkey/src/resp.rs:110-118 | The append loop produces the encoding that the round trip is about. |
| RespDecoding.DrainBuffer | crates/trains-valkey/src/proxy.rs:515-530 | The drain loop terminates and takes exactly the commands the buffer holds. |
| RespDecoding.DecodeRequests | crates/trains-valkey/src/proxy.rs:515-530 | A connection fed chunk by chunk yields what its whole byte stream decodes to in one piece. |
| Replies.ReplyRoundTripIffReadable | crates/trains-valkey/src/resp.rs:51-176 | Reading an encoded reply tree followed by any bytes returns the tree and leaves those bytes, if and only if no text in it holds a line feed or ends in a carriage return and the allocator serves its sizes. |
| Replies.Reader.ReadIsReadable | crates/trains-valkey/src/resp.rs:126-168 | Every reply ever read has only such texts and sizes. |
| Replies.Reader.ReadNext | crates/trains-valkey/src/resp.rs:129-176 | The reader with its loop over array elements, for every input, errors and refused allocations included. |
| Replies.Reader.ReplyVerdicts | crates/trains-valkey/src/resp.rs:129-176 | What the first line makes of the reply: end of input, an empty line, an unknown marker, a bad number, texts decoded lossily, negative sizes as the two nils, short payloads and refused sizes. |
| Replies.ReplyBytes | crates/trains-valkey/src/resp.rs:51-86 | The bytes of each kind of reply on the wire, as in `+OK` with CR and LF. |
| Replies.EncodeInto | crates/trains-valkey/src/resp.rs:51-86 | The encoder appends exactly the encoding that the round trip is about. |
| Text.ParseOfFormat | crates/trains-valkey/src/resp.rs:120-126 | Printing any 64-bit integer and reading it back through UTF-8 check, trim and parse gives it back. |
| Text.NumeralIsRead | crates/trains-valkey/src/resp.rs:120-126 | Blanks around an optional sign and digits are read as the value that the digits spell in base ten, if it fits 64 bits, and as nothing otherwise. |
| Text.OnlyNumeralsAreRead | crates/trains-valkey/src/resp.rs:120-126 | Nothing else is read as a number. |
| Text.PrintedPlainly | crates/trains-valkey/src/resp.rs:51-86 | Numbers are printed without leading zeros, negative ones with a minus sign. |
| Text.NameIsRaised | crates/trains-valkey/src/command.rs:27-31 | An ASCII command name in lower or mixed case goes by its upper-case form; what is no letter is kept. |
| Text.ValidIffEncoded | crates/trains-valkey/src/resp.rs:120-126 | The UTF-8 check accepts exactly the encodings of sequences of Unicode scalar values. |
| Text.LossyPieces | crates/trains-valkey/src/command.rs:27-31 | Lossy decoding keeps every encoded scalar value and puts the replacement character for a byte that starts none. |
| Text.LossyIsValid | crates/trains-valkey/src/command.rs:27-31 | Lossy decoding of any bytes gives valid UTF-8 (and, by `LossyOfValid`, changes nothing that was valid). |
| Store.Rules.EveryWriteObeysTheLaws | crates/trains-valkey/src/store.rs:113-296 | For every modelled write on every store: an error changes nothing except for GETSET on a hash or set; keys that are not named are untouched; no empty collection appears except for SADD without members on a missing key; no TTL loses its key except when SREM or HDEL empties a key that has one. |
| Store.MemRulesLawful | crates/trains-valkey/src/store.rs:98-101 | The source's integer reader and printer fit together, which is what the store theorems ask of them. |
| Store.GetsetFailsAfterWriting | crates/trains-valkey/src/store.rs:134-145 | A concrete GETSET that replies an error and changes the store. |
| Store.SaddLeavesEmptySet | crates/trains-valkey/src/store.rs:246-261 | A concrete SADD that leaves an empty set behind. |
| Store.SremLeavesTtl | crates/trains-valkey/src/store.rs:262-282 | A concrete SREM that leaves a TTL without its key. |
| Store.Rules.IncrMovesCounter | crates/trains-valkey/src/store.rs:523-553 | A counter command replies the number before, moved by its amount, within 64 bits; DECRBY subtracts if and only if its operand is not the smallest 64-bit integer. |
| Store.Rules.IncrReplyIsStored | crates/trains-valkey/src/store.rs:523-553 | What is stored reads back as the reply. |
| Store.Rules.IncrementsCompose | crates/trains-valkey/src/store.rs:523-553 | Two increments are one by their sum, as long as none overflows. |
| Store.Rules.HincrbyErrorUnchanged | crates/trains-valkey/src/store.rs:583-607 | Although HINCRBY creates the hash entry first, an error reply means an unchanged store. |
| StoreInverses.SremUndoesSaddIff | crates/trains-valkey/src/store.rs:246-282 | SREM takes back an SADD with the same operands if and only if none of the members was there before and the key did not hold an empty set. |
| StoreInverses.RenameBackRestoresIff | crates/trains-valkey/src/store.rs:189-209 | Renaming back restores the store if and only if the target had neither a value nor a TTL, or was the key itself. |
| StoreInverses.LastValueWins | crates/trains-valkey/src/store.rs:555-581 | Among repeated fields the last value wins, and fields that are not named are kept. |
| StoreCommands.SetCommand | crates/trains-valkey/src/store.rs:115-122 | SET stores the value and clears the TTL, over whatever was there. |
| StoreCommands.SetnxCommand | crates/trains-valkey/src/store.rs:123-133 | SETNX stores the value only where there is none, keeps the TTL and replies whether it did. |
| StoreCommands.GetsetCommand | crates/trains-valkey/src/store.rs:134-145 | GETSET stores the value, clears the TTL and replies the old string or nil; on a hash or set it stores, keeps the TTL and replies an error. |
| StoreCommands.AppendCommand | crates/trains-valkey/src/store.rs:146-158 | APPEND leaves the old text followed by the new one and replies the whole length. |
| StoreCommands.CounterCommand | crates/trains-valkey/src/store.rs:523-553 | INCR, DECR, INCRBY and DECRBY store and reply the number before moved by the amount, a missing key counting as 0; a text that is no number, another kind of value, or a sum beyond 64 bits is its error and changes nothing. |
| StoreCommands.HincrbyCommand | crates/trains-valkey/src/store.rs:583-607 | HINCRBY does so with one field and keeps the others. |
| StoreCommands.DelCommand | crates/trains-valkey/src/store.rs:159-170 | DEL and UNLINK remove exactly the named keys, with their TTLs, and reply how many there were. |
| StoreCommands.ExpireCommand | crates/trains-valkey/src/store.rs:172-180 | EXPIRE and its variants record the number given, or 0, as the TTL of an existing key. |
| StoreCommands.PersistCommand | crates/trains-valkey/src/store.rs:181-188 | PERSIST drops the TTL and replies whether there was one. |
| StoreCommands.RenameCommand | crates/trains-valkey/src/store.rs:189-209 | RENAME moves value and TTL over whatever the target held, and keeps all other keys. |
| StoreCommands.HsetCommand | crates/trains-valkey/src/store.rs:555-581 | HSET writes the pairs, the last value of a repeated field staying and other fields being kept, and replies how many fields are new. |
| StoreCommands.HmsetCommand | crates/trains-valkey/src/store.rs:555-581 | HMSET does the same and replies OK. |
| StoreCommands.HsetnxCommand | crates/trains-valkey/src/store.rs:211-225 | HSETNX writes a field only where there is none and replies whether it did. |
| StoreCommands.HdelCommand | crates/trains-valkey/src/store.rs:226-244 | HDEL removes exactly the named fields, replies how many there were, and removes a hash that becomes empty. |
| StoreCommands.SaddCommand | crates/trains-valkey/src/store.rs:246-261 | SADD leaves the old members and the named ones and replies how many are new. |
| StoreCommands.SremCommand | crates/trains-valkey/src/store.rs:262-282 | SREM removes exactly the named members, replies how many there were, and removes a set that becomes empty. |
| StoreCommands.FlushCommand | crates/trains-valkey/src/store.rs:283-287 | FLUSHDB and FLUSHALL leave an empty store. |
| StoreCommands.OtherCommand | crates/trains-valkey/src/store.rs:292-294 | Every other name is refused and changes nothing. |
| MemStores.AddMembers | crates/trains-valkey/src/store.rs:252-260 | The operand loop counts exactly the growth of the set, for any repeated operands. |
| MemStores.RemoveMembers | crates/trains-valkey/src/store.rs:266-273 | The operand loop counts exactly the members removed, for any repeated operands. |
| MemStores.RemoveKeys | crates/trains-valkey/src/store.rs:159-170 | The operand loop counts exactly the entries removed, for any repeated operands. |
| MemStores.PutFields | crates/trains-valkey/src/store.rs:555-581 | The pair loop counts exactly the new fields, for any repeated fields. |
| MemStores.MemStore.ApplyCommand | crates/trains-valkey/src/store.rs:113-296 | The in-place store computes the value-level store machine, state and reply, for every command. |
| MemStores.MemStore.StringWrite | crates/trains-valkey/src/store.rs:115-158 | SET, SETNX, GETSET and APPEND in place. |
| MemStores.MemStore.KeyWrite | crates/trains-valkey/src/store.rs:172-209 | EXPIRE, PERSIST and RENAME in place. |
| MemStores.MemStore.Hincrby | crates/trains-valkey/src/store.rs:583-607 | HINCRBY in place, with the entry created before the field is looked at. |
| Effects.SortedLists | crates/trains-valkey/src/effect.rs:67-78 | The listing that SPOP chooses from is the set in ascending byte order, without repetition. |
| Effects.OneListing | crates/trains-valkey/src/effect.rs:67-78 | A set has only one ascending listing. |
| Effects.SmembersLists | crates/trains-valkey/src/effect.rs:67-78 | SMEMBERS answers the members in ascending order, or the wrong-type error. |
| Effects.SpopOutcome | crates/trains-valkey/src/effect.rs:63-114 | The exact outcome of every SPOP: without a count the least member, as a bulk, or nil; with one, that many of the least members as far as there are any, as an array, or the empty array; the SREM names the same members in the same order; and its three errors. |
| Effects.GetAfterSet | crates/trains-valkey/src/store.rs:308-312 | GET answers what SET stored, at that key and at no other. |
| Effects.SpopBroadcast | crates/trains-valkey/src/effect.rs:63-114 | The broadcast is an SREM of exactly the replied members, min(count, size) members of the set at the origin. |
| Effects.SpopEffectAtOrigin | crates/trains-valkey/src/effect.rs:63-114 | Applied to the state it was resolved on, the effect removes exactly the replied members and touches nothing else. |
| Effects.SpopEffectElsewhere | crates/trains-valkey/src/effect.rs:29-33 | After any interleaved writes, on any replica, the effect still removes only replied members of that key. |
| Effects.SpopImmediateIff | crates/trains-valkey/src/effect.rs:63-114 | SPOP is answered without a broadcast if and only if nothing is to be removed or the command is malformed. |
| Effects.SpopsReplyDisjointIff | crates/trains-valkey/src/effect.rs:29-33 | Two broadcast SPOPs reply different members if and only if the sets they were resolved on share none, or one of them asks for too few to reach the least member they share. |
| Effects.SpopsOfOneStateShare | crates/trains-valkey/src/effect.rs:29-33 | Two SPOPs resolved on the same set always share a member; with only removals between them they share one exactly if a member the first handed out is still there. |
| Classify.StoreWritesAreDeterministic | crates/trains-valkey/src/classify.rs:31-67 | Every write that the in-memory store implements is broadcast as it is. |
| Classify.SpopIsResolved | crates/trains-valkey/src/effect.rs:51-60 | SPOP is not: it is resolved first. |
| Replicas.AppliedByIsFresh | crates/trains-valkey/src/replica.rs:435-456 | The writes reported by a step are the stream's first occurrences, once each, in order, with the replies of their positions. |
| Replicas.AbsorbExecutes | crates/trains-valkey/src/replica.rs:435-493 | The writes reported by a step are executed in order from the store before it to the store after it, and carry the replies of those executions. |
| Replicas.RoutedPayloads | crates/trains-valkey/src/replica.rs:435-464 | The delivered stream is every payload of every batch among the outputs, in order, and nothing else. |
| Replicas.RoutedTrains | crates/trains-valkey/src/replica.rs:435-464 | What is forwarded is every train among the outputs, in order, and nothing else. |
| Replicas.RoutedHints | crates/trains-valkey/src/proxy.rs:808-847 | The victims reported are those of every crash declaration, in order. |
| Replicas.Replica.ApplyDelivered | crates/trains-valkey/src/replica.rs:472-493 | Dedup, apply and log in place, equal to one delivery; a new operation is executed on the store as `Replication.DeliverExecutes` says. |
| Replicas.Replica.Absorb | crates/trains-valkey/src/replica.rs:435-464 | The loops over kernel outputs execute exactly the new operations of the delivered stream, report them with their replies and forward every train in order. |
| Replicas.Replica.BroadcastWrite | crates/trains-valkey/src/replica.rs:343-364 | An id is consumed if and only if something was broadcast. |
| Replicas.Replica.Handle | crates/trains-valkey/src/replica.rs:317-337 | A read answers what the store answers and changes nothing; an unsupported command is an error; a replicable write is broadcast as it is, a resolved one as its effect with the origin's reply, under the next id, and what the kernel delivers in answer is applied and its trains are forwarded. |
| Replicas.Replica.BuildStateTransfer | crates/trains-valkey/src/replica.rs:400-402 | The survivor side, equal to the transfer the lemmas are about. |
| Replicas.Replica.ImportSnapshot | crates/trains-valkey/src/replica.rs:261-277 | Importing replaces store and dedup state and resumes the log at the snapshot's index, leaving `next_rid` alone. |
| Replicas.Replica.ApplyStateTransfer | crates/trains-valkey/src/replica.rs:411-431 | The rejoiner side with all its failure outcomes. |
| Proxy.RoundKeepsRejoiner | crates/trains-valkey/src/proxy.rs:928-983 | A whole catch-up round over any mix of survivors and failures: a node with an arbitrary stale store is in a prefix state as soon as one transfer applied, and one that was in a prefix state stays in one. |
| Proxy.RoundEnds | crates/trains-valkey/src/proxy.rs:931-950 | A round goes on past survivors that are down and transfers that do not decode, and ends at the first one that decodes: it is served if and only if there is one, the node is that transfer applied on top of what the failed ones left, and there was progress if and only if it brought a snapshot or applied an operation. |
| Proxy.IntactIsServed | crates/trains-valkey/src/proxy.rs:934-950 | If any survivor's answer arrives intact, the round is served, whatever came before it. |
| Proxy.SeedIsPrefix | crates/trains-valkey/src/proxy.rs:985-1036 | The seed of a promotion is a prefix state, whatever the node held before. |
| Proxy.FinalMeans | crates/trains-valkey/src/proxy.rs:990-1036 | The last fetch finds a view if and only if some fetch is a snapshot that decodes and carries one; it is the first such view, and the node is that snapshot with its tail delivered; otherwise nothing changes. |
| Proxy.DecideMeans | crates/trains-valkey/src/proxy.rs:743-762 | What is done with a write request, class by class: sent as it is, answered, sent as what it resolves to with the origin's reply, or refused. |
| Proxy.PassiveReplica.CatchUpRound | crates/trains-valkey/src/proxy.rs:928-969 | The round loop: served if and only if some fetch brought a transfer that decodes, ended by the first such one, with the `idle` bookkeeping and the exact promotion condition. |
| Proxy.PassiveReplica.FinalSnapshot | crates/trains-valkey/src/proxy.rs:990-1036 | The last fetch: a view if and only if some fetch is a snapshot that carries one, and the first such view; without one nothing changes. |
| Proxy.DriverState.HandleWriteRequest | crates/trains-valkey/src/proxy.rs:737-794 | A write is answered at once or gets the next id and is broadcast; then the requesting client itself waits under that id, or was answered already under it. A failed encoding consumes no id. |
| Proxy.DriverState.BroadcastFor | crates/trains-valkey/src/proxy.rs:768-785 | Booking the requesting client under the next id, and pumping what the kernel answers to the broadcast. |
| Proxy.DriverState.PumpOutputs | crates/trains-valkey/src/proxy.rs:799-848 | The loops execute exactly the new operations of the delivered stream on the store, wake exactly the clients that waited for them with the replies of those executions, and pass on every train and every crash declaration in order. |
| Proxy.DriverState.ServeStateTransfer | crates/trains-valkey/src/proxy.rs:863-880 | The transfer served from live driver state, with its view. |

## Left out

* The TRAINS kernel, failure detector, view-change state machine and TLS transport
  are not part of this model; the cluster runs over one abstract order that contains
  only what was broadcast. Trains, protocol snapshots and views are opaque.
* Whether the ring brings a promoted node everything that its snapshot lacks is decided
  in the kernel; it is the enabling condition `Resumable` of the promotion step, shown
  exact by `Resuming.OnTrackIffResumable` and `Resuming.PrefixKeptIffResumable`.
* The promotion step of the cluster installs an undamaged answer; a fetch that fails
  or does not decode is a lost transfer there and is followed in detail by
  `Proxy.FinalState`.
* bincode: decoding is assumed to invert encoding; every decode failure is kept as an
  outcome.
* Float arithmetic of INCRBYFLOAT and HINCRBYFLOAT: an arbitrary function `floats`.
* The redis backend, the async listener and client tasks, chaos and command-line
  drivers, benches and scripts: sockets and load generation.
* 64-bit wrap-around of request ids, watermarks and log indexes, and running out of
  memory while a buffer or store grows step by step.
* `OriginDedup` is a value inside the dedup map rather than an object of its own.
* DECRBY of the smallest 64-bit integer wraps as in a build without overflow checks;
  with checks the source panics.
* Reads of the store other than SMEMBERS and GET: they change nothing.
* `snapshot_sorted`, export and import of the store as bytes: a snapshot carries the
  store value itself.
* The warning logged when a dedup window grows large: no entry is ever dropped.
* The socket behind a successor change: claims are about `succ`, which promotion
  sets without retargeting the transport (`proxy.rs:643`).
* The passive replica holds its pieces in a replica object, which applies transfers
  the same way.
