# A verified model of rcproxy

rcproxy is a single-threaded Redis Cluster proxy. It reads RESP requests from clients, splits MGET, DEL and MSET into
one fragment per hash slot, sends the fragments over pooled connections to the Redis nodes, follows MOVED and ASK,
reassembles the answers and releases them to the client in request order. This project models its core in Dafny and
proves what it promises, in five layers:

- **Tasks and wake-ups** (`LockFreeQueue`, `Solo`, `Poller`, `Turns`). The Michael–Scott queue and the eventfd protocol on
  top of it, one step per atomic load, compare-and-swap, add or store, for any number of threads and any interleaving.
  Main results: the queue is linearizable to a FIFO sequence, an operation that runs alone finishes, no wake-up is lost
  although the length counter is updated late, and a turn of the poller runs the tasks that were there.
- **Fragments and replies** (`Message`, `Proxy`, `Runs`, `Wires`, `Outcomes`, `Endings`, `Answers`, `IntrusiveQueue`). A
  state machine over whole runs with any number of clients and server connections. Main results: replies reach a client
  once each and in order, fragments are conserved across redirects and errors and are on the connections they were sent
  to, what a client is told follows from the replies of the run, and exactly which replies and redirects make a run panic.
- **RESP and sharding** (`Bytes`, `Reply`, `Command`, `CommandStream`, `Splitting`, `ClientSession`, `Closing`,
  `ReplyStream`, `Sharding`, `Mget`). Decoders and encoders over byte sequences. Main results: decoding does not depend on how the stream is cut into
  reads, for any bytes, the k-th reply belongs to the k-th request, and split commands mean what the unsplit ones mean.
- **Buffers** (`PowerOfTwo`, `Chunks`, `Ring`, `LinkedList`, `Elastic`, `Outbound`, `Connection`). Classes whose methods
  refine append, prefix and drop on one byte sequence. Main result: under arbitrary short writes the bytes sent and
  the bytes buffered are the bytes handed in.
- **Slots and pools** (`Slot`, `SlicePool`, `ConnPool`). Main results: the table-driven hash is CRC-16/XMODEM, pooled
  memory never overlaps memory in use, and the connection pool rotates.

Code that the source writes as a loop over a cursor, an array or linked nodes is a method or a class here, proved
against a function; protocols are step functions with invariants over all runs. `dafny verify dfyconfig.toml` checks
everything.

Findings about the code, each stated as a lemma:

- `Slot.HashTagsAgree`: the hash tag of a key is the one of the Redis Cluster specification, section "Hash tags", exactly
  if no closing brace precedes the first tag.
- `ClientSession.CrashesExactly`, `ClientSession.CrashesAtAnyLimit`, `ClientSession.NilExactly`: an array header with a
  count below one, such as `*0`, decodes to no message and no error, and the dispatcher dereferences the nil message. That
  crashes the proxy unless a QUIT stands before it; memory aside, no other bytes of a client do.
- `ClientSession.NilBehindQuit`: behind a QUIT it depends on the size limit, because over the limit QUIT is not recognized.
- `Closing.EmptyCountStalls`: an array header without a count makes the connection wait for ever.
- `Answers.PanicsExactly`, `Answers.ErrorReplyPanics`: the replies that a handler panics on, among them every error reply
  to an MGET fragment.
- `Outcomes.DelErrorAnswered`: an error reply to a DEL fragment is counted as minus one key.
- `Endings.CrashesExactly`, `Endings.LateRedirect`: a redirect of a fragment whose message was already released by an
  error panics too; while writes to clients return no error, a run crashes in these ways and no other.
- `ClientSession.LimitDependsOnCut`: over the size limit, what is delivered depends on how the stream is cut.
- `SlicePool.OverlapExactly`: returning a slice that is still in use makes pooled and live memory overlap.

The environment is made of parameters: the kernel's answers to writes, the results of dialling, the routes and redirect
targets, the order in which maps are walked, the pointers a free list hands out, and the scheduler.

## Model

| member | source | states |
|---|---|---|
| `LockFreeQueue.Linearizable` | core/internal/queue/lock_free_queue.go:104-153 | Every interleaving of any number of Enqueue and Dequeue calls, step by step, is a run of an atomic FIFO queue: a task enters at its linking CAS, leaves at its head CAS, and an empty answer is right at the load of a nil next. |
| `LockFreeQueue.RunKeepsInv` | core/internal/queue/lock_free_queue.go:98-153 | In every reachable state the linked nodes form one list, head never passes tail, tail lags by at most one node, what each thread has loaded is still meaningful, and the length counter is exact up to pending adds. |
| `LockFreeQueue.AccessEffect` | core/internal/queue/lock_free_queue.go:104-153 | One atomic access appends exactly the task of the linking thread, removes exactly the oldest task, or leaves the queued tasks alone, and keeps the list well formed. |
| `LockFreeQueue.AccessOwn` | core/internal/queue/lock_free_queue.go:104-153 | The facts a thread relies on hold again after its own access; in particular next is never nil where its value is read. |
| `LockFreeQueue.AccessOther` | core/internal/queue/lock_free_queue.go:104-153 | No access of one thread invalidates what another thread has loaded. |
| `LockFreeQueue.LinkKeepsMemory` | core/internal/queue/lock_free_queue.go:107-118 | Linking at the last node keeps one list in which the new node follows. |
| `LockFreeQueue.LinkAppends` | core/internal/queue/lock_free_queue.go:107-118 | Linking appends the task to the queued tasks and to the log of everything ever linked. |
| `LockFreeQueue.TakesOldest` | core/internal/queue/lock_free_queue.go:143-149 | A successful head CAS returns the oldest task not yet taken. |
| `LockFreeQueue.NilNextSeesEmpty` | core/internal/queue/lock_free_queue.go:131-141 | A nil next loaded from head means the queue is empty at that very load. |
| `LockFreeQueue.LengthCounts` | core/internal/queue/lock_free_queue.go:104-158 | length equals the queued tasks, minus those linked but not counted, plus those taken but not yet uncounted, so it may be zero or negative for a while. |
| `LockFreeQueue.AdvanceReaches` | core/internal/queue/lock_free_queue.go:104-153 | What any access of a reachable queue does to the log of linked tasks and to the number taken, and that no thread ever dereferences nil. |
| `Poller.NoLostWakeup` | core/internal/netpoll/epoll_default_poller.go:89-115 | Whenever the poller waits, the eventfd is not signalled and a task is queued, some trigger has linked its task and not yet finished its CAS and write: no wake-up is lost. |
| `Poller.SingleToken` | core/internal/netpoll/epoll_default_poller.go:150-184 | Pending eventfd writes, the eventfd counter and the turn of the poller hold one wake-up token between them at most, and exactly one while the flag is set, until the poller stops; so the counter stays at most one. |
| `Poller.TasksRunOnceInOrder` | core/internal/netpoll/epoll_default_poller.go:150-175 | The tasks of each queue run once each, in the order in which they were linked, and while the poller waits only queued tasks have not run. |
| `Turns.ChoresDone` | core/internal/netpoll/epoll_default_poller.go:149-176 | Among any other threads: when the poller is about to clear the flag, it has run every urgent task that was linked when the turn began, and every other such task or exactly 256 of them in this turn, never more. |
| `Turns.TurnAlone` | core/internal/netpoll/epoll_default_poller.go:143-184 | A poller that has been woken up and is not interfered with runs all urgent tasks and the first 256 of the others, in order, then waits, and has signalled itself exactly if tasks are left. |
| `Turns.QueuedTasksRun` | core/internal/netpoll/epoll_default_poller.go:119-184 | While a task is queued and no trigger is at work, a waiting poller wakes up and does that. |
| `Turns.ShutdownStops` | core/internal/netpoll/epoll_default_poller.go:153-157 | A task that asks for a shutdown is run, and the poller stops at once. |
| `Turns.StoppedStays` | core/internal/netpoll/epoll_default_poller.go:153-174 | After that no task is run any more, whatever the other threads do. |
| `Turns.TriggerAlone` | core/internal/netpoll/epoll_default_poller.go:89-115 | From every reachable state a trigger that is not interfered with puts its task behind all others of its queue and leaves the flag set, writes the eventfd exactly if the flag was clear, and changes nothing else. |
| `Solo.DequeueAlone` | core/internal/queue/lock_free_queue.go:129-153 | From every state that keeps the invariant, wherever other threads were stopped, a Dequeue that runs alone returns the oldest task, or that there is none, after at most eleven accesses. |
| `Solo.EnqueueAlone` | core/internal/queue/lock_free_queue.go:104-125 | And an Enqueue puts its task behind all others after at most ten. |
| `Poller.RunKeepsInv` | core/internal/netpoll/epoll_default_poller.go:89-184 | Every interleaving of triggers and the poller keeps the roles of the threads, the token count and the cover of queued tasks. |
| `Poller.ApplyKeepsInv` | core/internal/netpoll/epoll_default_poller.go:89-184 | Each single step of a trigger, the kernel or the poller keeps that invariant. |
| `Poller.ZeroLengthIsCovered` | core/internal/netpoll/epoll_default_poller.go:177-184 | A length that reads zero although a task is queued means a trigger is still in flight, which is why the re-check may trust it. |
| `Runs.ExactlyOnceInOrder` | core/eventloop.go:187-307 | In every run, up to and including its end by a crash or a shutdown, the bytes released to a client can be cut so that the i-th piece is the reply of its i-th request, with no byte left over; the rest of its requests is queued and one of these is not done, and once none of its fragments is outstanding all requests are answered. |
| `Runs.BodiesInTurn` | core/eventloop.go:258-264 | The bodies of a list of messages, written one after the other, can be cut in that way. |
| `Runs.OneAnswer` | core/eventloop.go:258-264 | So a client with one answered request has got exactly the bytes of its reply. |
| `Runs.FragmentsConserved` | core/connection.go:156-222 | In every reachable state FragDoneNumber is the number of Done fragments, Done means all of them, and an open fragment is at exactly one position of exactly one server queue, across redirects and the error path, if and only if it is not lost. |
| `Runs.LostExactly` | core/server/server_c.go:193-213 | A fragment is lost if and only if a redirect of it in the run found no connection. |
| `Runs.RunKeepsInv` | core/eventloop.go:187-307 | The protocol invariant holds after every run of requests, write signals, replies and redirects of any number of clients and servers. |
| `Runs.OutputOnlyGrows` | core/eventloop.go:252-300 | What was released to a client is never changed or taken back later in a run. |
| `Runs.ForwardedAsRequested` | core/server/server_c.go:67-112 | The messages a client is owed are the ones dispatched for it, in dispatch order. |
| `Runs.RequestsRemembered` | core/message.go:45-68 | At any later time in a run a message still has the owner, command, keys and slots of the request it was made from. |
| `Outcomes.RunAccounts` | core/connection.go:183-221 | In every run a message is what its replies have made of it: it has failed if and only if one of them was over the limit or, to an MGET, listed nothing, and it says so with the error for that reply; otherwise each fragment holds the bytes and the type of the one reply it got, or none. |
| `Outcomes.ReplyCame` | core/connection.go:156-181 | The reply of a fragment is that of an action of the run that was about this fragment while it was open. |
| `Outcomes.SingleEndToEnd` | core/codec_s.go:266-277 | Through any run: a request that is not split is answered with the bytes of the reply to its only fragment, or with the size error if these are over the limit. |
| `Outcomes.MgetEndToEnd` | core/codec_s.go:182-219 | Through any run: once an MGET is done, and the shards that replied did so with the values of their keys, it is answered like the unsplit MGET on the keys of the request, or with the size error exactly if that reply is over the limit. |
| `Outcomes.DelEndToEnd` | core/codec_s.go:248-264 | Through any run: a DEL is answered with the count of the unsplit DEL as a RESP integer, whatever order the shards ran and replied in, unless a reply was over the limit. |
| `Outcomes.DelSums` | core/codec_s.go:248-264 | Whatever the shards reply to a DEL, within the limit, the client gets the sum of the counts in 64 bits. |
| `Outcomes.DelCounts` | core/codec_s.go:249-250 | A RESP integer counts what it says, and an error whose text is no number counts as minus one. |
| `Outcomes.DelErrorAnswered` | core/codec_s.go:248-264 | So a DEL on one shard that answers with such an error is answered with `:-1`. |
| `Outcomes.MsetEndToEnd` | core/codec_s.go:221-246 | Through any run with decoded replies: an MSET is answered with `+OK` exactly if the reply of every shard starts with `+OK`, with the size error if one was over the limit and with the unknown error otherwise, and whatever order the shards ran in they leave the store of the unsplit MSET. |
| `Outcomes.TooLargeExactly` | core/connection.go:186-196 | A message other than MGET fails if and only if one of its replies was over the limit. |
| `Answers.FailsExactly` | core/connection.go:183-207 | For one reply: a message fails exactly on a reply that is over the limit, or that is to an MGET and lists nothing, and its body is then the error text for it; any other reply is recorded as it came. |
| `Wires.QueuesExactly` | core/connection.go:156-181 | In every run that goes on, the fragments on the wire of a connection are those it was given by routes and redirects and has written, in the order given and without those it has replied to, and the others wait in the same order; all of it is computed from the actions alone. |
| `Wires.StepQueues` | core/server/server_c.go:193-218 | One action changes the queues thus: a request waits behind the others on the connections of its route, a write signal puts all that waits on the wire, a reply takes the oldest off it, and a redirect queues that one on the connection it leads to; nothing else moves. |
| `Wires.RoutedExactly` | core/server/server_c.go:67-112 | A fragment is given to a connection by a request exactly if the route says so. |
| `Wires.DispatchQueues` | core/server/server_c.go:67-112 | The loop over the fragments queues them on their connections in the order of the route. |
| `Answers.PanicsExactly` | core/connection.go:190-207 | A handler panics on a reply if and only if, within the limit, it is a DEL body under three bytes, an MGET reply whose first line holds no count that make accepts, or the last MGET reply to arrive when some key of the request has no item at its first place. |
| `Answers.PiecesExactly` | core/codec_s.go:203-211 | The merge reads past an answer exactly if it does so for one of the keys. |
| `Endings.CrashesExactly` | core/connection.go:156-222 | A run has crashed if and only if its last action was a redirect, with a target, of a fragment whose message was released and not recycled, or a reply that panics as above; no earlier action was. |
| `Endings.StopsExactly` | core/eventloop.go:215-218 | The engine has shut down if and only if the last reply was one about authentication that finished a message; nothing is released by it. |
| `Endings.NoCrash` | core/connection.go:156-222 | A condition on each reply by itself, whatever its siblings, that rules crashes out over whole runs: redirects are not fatal and every reply has an item at the first place of each key of its own fragment. |
| `Endings.DecodedReplies` | core/codec_s.go:130-146 | A decoded reply is followed as a redirect exactly if it starts with `-MOVED` or `-ASK`, and is about authentication exactly if it starts with one of four texts. |
| `Endings.OpenNotReleased` | core/server/server_c.go:193-218 | A redirect is never fatal while its fragment still waits for a reply. |
| `Endings.GenuineDelIsSafe` | core/codec_s.go:248-264 | On a reply that the decoder produced the DEL handler never panics. |
| `Endings.LateRedirect` | core/server/server_c.go:193-218 | For every request that is split in two, and every decoded reply over the limit that is neither a redirect nor about authentication, there is a run of decoded requests and replies that panics: that reply releases the message while the other fragment is on the wire, and a MOVED for that one writes to a nil map. |
| `Endings.LateRedirectPanics` | core/server/server_c.go:193-218 | So there is one for every MSET of two keys in different slots. |
| `Endings.LateRedirectMget` | core/server/server_c.go:193-218 | And for every MGET of two keys in different slots, when the first value is as long as the limit. |
| `Endings.LateRedirectExample` | core/server/server_c.go:193-218 | Such a run with concrete keys. |
| `Proxy.StepKeepsInv` | core/eventloop.go:187-307 | Each request, write signal or reply keeps the protocol invariant. |
| `Proxy.DispatchEffect` | core/server/server_c.go:67-112 | The dispatch loop places every fragment of the message at one new position and moves no other. |
| `Proxy.PopEffect` | core/connection.go:550-558 | Taking the head of a queue leaves every other fragment where it was and the head nowhere. |
| `Proxy.PushEffect` | core/connection.go:538-548 | Enqueueing a fragment that is nowhere puts it at one position. |
| `Proxy.FlushEffect` | core/connection.go:313-359 | The write signal moves fragments to the wire without losing or doubling any. |
| `Proxy.MovePlaces` | core/server/server_c.go:193-218 | A redirect moves the fragment from one server queue to exactly one other. |
| `Proxy.CompletePlaces` | core/connection.go:183-221 | A reply takes its fragment off the queues and may only close fragments of the same message. |
| `Proxy.CompleteOwner` | core/eventloop.go:225-300 | The message that just became done was queued, what was released before is unchanged, and the queue is released exactly when all of it is done. |
| `Proxy.CompleteClients` | core/eventloop.go:225-300 | A finished message changes what its own client is owed and nothing for any other client. |
| `Proxy.RequestClients` | core/server/server_c.go:42-112 | A forwarded request is owed to its client, once, after all earlier ones. |
| `Message.OnReplyKeepsInv` | core/connection.go:183-221 | After any reply the counters are exact, the slots done are the old ones and this one (or all, on the error path), and a finished reply is what the recorded answers add up to. |
| `Message.FailInv` | core/connection.go:209-219 | The error path closes every fragment and leaves the error as the reply. |
| `Message.RecordedInv` | core/connection.go:190-194 | Counting a reply for an open fragment keeps counter, arrival order and partial DEL sum exact. |
| `Message.OnMgetInv` | core/codec_s.go:182-219 | MGET waits for all fragments, then the reply is the merge of all answers. |
| `Message.OnMsetInv` | core/codec_s.go:221-246 | MSET waits for all fragments, then the reply reflects every one of them. |
| `Message.OnDelInv` | core/codec_s.go:248-264 | DEL waits for all fragments, then the reply is the 64-bit sum of every count. |
| `Message.OnOtherInv` | core/codec_s.go:266-277 | An unsplit request has one fragment, whose reply is passed on. |
| `Message.DecodedForwardable` | core/codec_c.go:36-114 | Every message the client decoder produces has at least one fragment, one per slot of its keys, and several only for MGET, DEL and MSET. |
| `Message.NewMsgInv` | core/message.go:45-68 | A new message satisfies the invariant with nothing answered. |
| `Message.OpenIsNotDone` | core/connection.go:183-186 | While a fragment is open its message is neither done nor failed. |
| `Answers.MgetAnswer` | core/codec_s.go:182-219 | If every shard answered its fragment with the values of its keys, the client gets the unsplit reply byte for byte, or the size error. |
| `Answers.DelAnswer` | core/codec_s.go:248-264 | The client gets the count of the unsplit DEL, for any order of execution and any order of arrival. |
| `Answers.MsetAnswer` | core/codec_s.go:221-246 | MSET answers OK exactly if every shard did, and otherwise the one error. |
| `Answers.SingleAnswer` | core/codec_s.go:266-277 | A request that is not split is answered with the bytes of its only fragment. |
| `Answers.SumPermutes` | core/codec_s.go:248-252 | The DEL sum does not depend on the order of arrival. |
| `Answers.NoPanic` | core/connection.go:190-207 | A reply that serves the keys of its own fragment does not panic, now or when the other fragments complete. |
| `Answers.ArrayHandled` | core/codec_s.go:279-304 | An array of as many plain values as the fragment has keys is such a reply. |
| `Answers.ErrorReplyPanics` | core/codec_s.go:279-284 | An error reply to an MGET fragment panics unless its text is a number, which no Redis error is. |
| `Sharding.ShardedDel` | core/codec_c.go:240-257 | Running the DEL fragments in any order leaves the store, and adds up to the count, of the unsplit DEL, duplicate keys included. |
| `Sharding.ShardedMset` | core/codec_c.go:259-278 | Running the MSET fragments in any order leaves the store of the unsplit MSET. |
| `Sharding.MsetLastWins` | core/codec_c.go:138-168 | For every key the last pair of the request decides. |
| `Sharding.GroupsPartition` | core/codec_c.go:116-136 | There is a group for exactly the slots that occur, holding the elements of that slot in request order. |
| `Sharding.GroupsKeepMultiplicity` | core/codec_c.go:116-136 | The fragments together carry every key exactly as often as the request, and only in its own slot. |
| `Sharding.FragmentIsStable` | core/codec_c.go:221-257 | Decoding an MGET or DEL fragment gives one slot and the identical bytes again. |
| `Sharding.PairFragmentIsStable` | core/codec_c.go:259-278 | The same for an MSET fragment. |
| `Mget.MgetReassembles` | core/codec_s.go:182-219 | The merged reply is byte for byte the unsplit reply in request order, for duplicate keys, missing keys and values of any bytes; over the limit it is the error. |
| `Mget.ItemsRoundTrip` | core/codec_s.go:279-304 | parseMGet recovers exactly the encodings of the values of a shard reply, including values that contain line ends. |
| `Mget.ParseItemsLoop` | core/codec_s.go:279-304 | The loop of parseMGet computes its specification; None is exactly a first line that is missing or whose count is bad, negative or more than make accepts. |
| `Mget.MergeLoop` | core/codec_s.go:197-218 | The nested merge loop computes the merge specification, index panics included. |
| `Mget.FindPiece` | core/codec_s.go:204-210 | The inner loop finds the reply of the first occurrence of a key in its fragment. |
| `ClientSession.ChunksDoNotMatter` | core/eventloop.go:147-185 | For any bytes at all: however they are cut into reads, within the limit, and whether or not the decoder works on the receive buffer itself, the same messages are delivered in the same order and the connection stays open, is closed by a QUIT or an invalid request, or crashes just as if all bytes had come at once. |
| `ClientSession.ChunkingIndependent` | core/codec_c.go:36-114 | So of a stream of encoded requests the messages up to and including the first QUIT are delivered, each once and in order, and none behind it; the connection is closed exactly if there is a QUIT, and otherwise nothing is left over. |
| `ClientSession.UpToQuit` | core/server/server_c.go:60-62 | What a connection takes of a stream of requests is a prefix of it, which is the whole stream or ends with a QUIT, and has no other QUIT in it. |
| `ClientSession.LimitDependsOnCut` | core/codec_c.go:79-81 | Over the limit it does depend: two requests that fit one by one are delivered, up to a QUIT, when they come one by one, and not when they come together. |
| `ClientSession.CrashesExactly` | core/eventloop.go:147-173 | However a client cuts its bytes into reads, within the limit, the proxy crashes if and only if a complete array header with a count below one stands at their start or behind complete requests of which none is a QUIT. |
| `ClientSession.CrashesAtAnyLimit` | core/codec_c.go:50-81 | Whatever the limit: such a header crashes the proxy, and nothing crashes it but a header with a count below one at the start or behind complete requests, a QUIT among them or not. |
| `Closing.ClosesExactly` | core/eventloop.go:147-173 | However a client cuts its bytes into reads, within the limit, the proxy hangs up if and only if a QUIT or something that is no request stands at their start or behind complete requests of which none is a QUIT. |
| `Closing.DrainCloses` | core/eventloop.go:147-173 | One drain of a buffer closes under exactly that condition, for any limit. |
| `Closing.InlineCloses` | core/eventloop.go:150-153 | A first line that does not start with an asterisk closes the connection, whatever follows. |
| `Closing.EmptyCountStalls` | core/eventloop.go:154-157 | An array header without a count makes the connection wait for ever: whatever follows, nothing is delivered and the connection is not closed. |
| `ClientSession.NilBehindQuit` | core/server/server_c.go:60-62 | Between the two the limit decides: with `*0` behind a QUIT in one buffer, the connection is closed if the buffer is within the limit, and the proxy crashes if it is over it, because the QUIT then is a request that is too large. |
| `ClientSession.QuitAlone` | core/server/server_c.go:60-62 | In a read of its own, within the limit, a QUIT closes the connection whatever comes behind it; so over the limit the cut decides as well. |
| `ClientSession.QuitBytes` | core/server/server_c.go:60-62 | The bytes of that example. |
| `ClientSession.DrainCrashes` | core/eventloop.go:147-173 | One drain of a buffer crashes under exactly that condition, for any limit and any bytes. |
| `ClientSession.NilExactly` | core/codec_c.go:50-57 | Decode returns neither a message nor an error exactly if the first line is complete, starts with an asterisk and its count, read with 64-bit wrap-around, is below one. |
| `ClientSession.NilExamples` | core/server/server_c.go:42-48 | Two such requests of four and five bytes, and the crash in the dispatcher, which dereferences the nil message. |
| `ClientSession.DecodeStable` | core/codec_c.go:36-114 | On arbitrary bytes: once Decode delivers, crashes or closes, it does the same with more bytes behind, as long as no buffer is over the limit or every one is. |
| `ClientSession.DecodeNormal` | core/codec_c.go:63-75 | Lower case in place does not change what a later Decode of the same buffer yields. |
| `ClientSession.DrainMore` | core/eventloop.go:147-185 | Draining before more bytes arrive and draining after all have arrived come to the same, a QUIT in between included. |
| `CommandStream.DecodeLies` | core/codec_c.go:36-114 | With a complete request in front, Decode consumes exactly that request and yields its message, whatever follows. |
| `Splitting.KindExactly` | core/codec/commands.go:487-525 | How a request that fits the limit is treated is decided by its name, in any letter case, and by the number of its arguments: six exact conditions on the bytes of the name. |
| `Splitting.KeysAreSplit` | core/codec_c.go:87-98 | Every MGET and every DEL with a key becomes one fragment for each slot that one of its keys has, and each fragment is the request with the keys of its slot, in order. |
| `Splitting.PairsAreSplit` | core/codec_c.go:99-104 | The same for every MSET of pairs, which stay together. |
| `Splitting.OthersAreWhole` | core/codec_c.go:105-112 | Any other request goes out whole, its name in lower case, to the slot of its first argument, for EVAL and EVALSHA of its third, and to slot 0 without that argument. |
| `Splitting.InSlotPicks` | core/codec_c.go:116-136 | The list of a slot is picked from the request at increasing positions, which are all the positions of that slot. |
| `CommandStream.DecodeCut` | core/codec_c.go:36-114 | On every strict prefix of a request Decode waits and never reports an invalid message. |
| `ClientSession.DrainStream` | core/eventloop.go:147-185 | The read loop takes a stream of encoded requests to its end or to its first QUIT. |
| `ClientSession.DrainLoop` | core/eventloop.go:147-185 | The read loop as written computes the drain: it waits after every error but an invalid request, which closes the connection as QUIT does, and a nil message crashes. |
| `CommandStream.ArgLies` | core/codec_c.go:280-307 | parseLine reads exactly one encoded argument of any bytes. |
| `CommandStream.ArgCut` | core/codec_c.go:280-307 | parseLine waits on every strict prefix of one. |
| `Command.DecodeLoop` | core/codec_c.go:36-114 | The decoder as written, over a moving cursor, computes the decoding specification. |
| `Command.ParseArgAt` | core/codec_c.go:280-307 | parseLine over the cursor: value, cursor and every error path. |
| `Command.ParseArgs` | core/codec_c.go:116-136 | Parsing n arguments yields n values and a cursor inside the buffer. |
| `Command.Frag1` | core/codec_c.go:116-136 | Reading the keys and sorting them into slots on the way gives the groups of the whole key list. |
| `Command.Frag2` | core/codec_c.go:138-168 | The same for key and value pairs. |
| `Command.BuildRequests` | core/codec_c.go:221-257 | Whatever order the slot map is walked in, each slot gets one RESP array of its keys. |
| `Command.BuildPairRequests` | core/codec_c.go:259-278 | The same for MSET pairs. |
| `Command.BuildCommand` | core/codec_c.go:221-238 | Appending piece by piece builds the RESP array of the arguments. |
| `Command.SkipArgs` | core/codec_c.go:170-219 | Skipping the arguments of an unsplit command ends at their end, and picks the argument that decides the slot. |
| `Reply.ReplyLies` | core/codec_s.go:111-180 | Wherever an encoded value of any nesting depth lies in a stream, readReply stops exactly at its end and reports its type. |
| `Reply.ReplyWords` | core/codec_s.go:118-146 | Whatever the bytes of an accepted reply, its type is MOVED, ASK, OK or PONG exactly if it starts with `-MOVED`, `-ASK`, `+OK` or `+PONG`. |
| `Reply.AuthTexts` | core/codec_s.go:131-141 | And one of the three types about authentication exactly if it starts with the texts for it, which are given literally. |
| `Reply.PlainLines` | core/codec_s.go:118-146 | Any other line that starts with a minus is an error, and with a plus a status. |
| `Reply.LinesAccepted` | core/codec_s.go:111-146 | Such a line is accepted whatever it says, up to its end. |
| `Reply.ReplyCut` | core/codec_s.go:111-180 | On every strict prefix of an encoded value readReply waits and never reports an invalid reply. |
| `Reply.ReplyStable` | core/codec_s.go:111-180 | On arbitrary bytes: once readReply accepts or rejects, more bytes never change the outcome. |
| `Reply.ReadReply` | core/codec_s.go:111-180 | Every successful call consumes at least three bytes and stays inside the buffer. |
| `Reply.ReadReplyAt` | core/codec_s.go:111-180 | The recursive reader over the mutable cursor computes the specification and terminates. |
| `Reply.ReadRepliesAt` | core/codec_s.go:166-177 | The loop over the items of an array computes the specification. |
| `ReplyStream.RepliesPaired` | core/connection.go:156-174 | However handshake and replies are cut into reads, and however reads interleave with the sending of requests, the k-th reply is attached to the k-th fragment sent; nothing is left over and the loop never gets stuck, provided no reply overtakes its request. |
| `ReplyStream.CutsDoNotMatter` | core/connection.go:156-174 | For any bytes at all from Redis, also during the handshake: reads between two requests can be cut in any way, and the same replies are attached to the same fragments and the link waits, or its loop gets stuck, in the same state. |
| `ReplyStream.DrainMore` | core/eventloop.go:187-215 | Bytes that arrive in two parts leave the link as they leave it when they arrive at once. |
| `ReplyStream.SreadMore` | core/codec_s.go:45-109 | What one round of the loop decides on arbitrary bytes it decides with more bytes behind, and a wait can be taken up where it was left, with the handshake already stripped or not. |
| `ReplyStream.NeverStuck` | core/eventloop.go:187-215 | A reply is never complete without a fragment to take it, so the read loop always ends waiting. |
| `ReplyStream.DrainStream` | core/eventloop.go:187-215 | The read loop takes every complete reply in order and keeps the rest. |
| `ReplyStream.DrainLoop` | core/eventloop.go:187-215 | The loop as written computes that drain. |
| `ReplyStream.HelloTaken` | core/codec_s.go:45-69 | A complete successful handshake is stripped and nothing behind it is touched. |
| `ReplyStream.HelloWaits` | core/codec_s.go:71-81 | A partial handshake waits. |
| `ReplyStream.HandshakeTexts` | core/codec_s.go:40-69 | The bytes of a successful handshake with one command and with two. |
| `ReplyStream.HelloRefused` | core/codec_s.go:45-109 | An error in place of the handshake is taken for the reply to the oldest fragment, and without a fragment the loop gets stuck. |
| `ReplyStream.HelloGarbage` | core/codec_s.go:72-75 | Bytes that are no line of status or error get it stuck during the handshake. |
| `ReplyStream.Unpaired` | core/eventloop.go:187-212 | After the handshake an invalid reply, and a reply that no fragment waits for, get the loop stuck; any other unfinished reply is waited for. |
| `ReplyStream.ReplyDecoded` | core/codec_s.go:83-109 | A complete reply goes to the oldest fragment with exactly its own bytes; without a fragment it is an error. |
| `Bytes.ParseLenLoop` | core/codec.go:23-42 | The digit loop computes the length specification with 64-bit wrap-around, the -1 shortcut and both errors. |
| `Bytes.ParseLenItoa` | core/codec.go:23-42 | Every number that fits an int survives printing and parsing. |
| `Bytes.LineLies` | core/codec/buff.go:105-124 | A complete line is read up to its line end and no further. |
| `Bytes.LineCut` | core/codec/buff.go:105-124 | A line without its end waits. |
| `Bytes.LineStable` | core/codec/buff.go:105-124 | A line once read, or rejected, is the same with more bytes behind it. |
| `Bytes.ReadNStable` | core/codec/buff.go:81-91 | So are n bytes once read. |
| `Bytes.Buffer.Line` | core/codec/buff.go:105-124 | Returns the line at the cursor without its line end and moves behind it; a missing, too short or badly ended line is its own error. |
| `Bytes.Buffer.Next` | core/codec/buff.go:81-91 | The cursor moves past the n bytes, or stays if there are fewer. |
| `Slot.SlotIsStandardCrc` | core/pkg/hashkit/crc16.go:74-80 | For every key the slot computed with the unmasked 32-bit table-driven accumulator is CRC-16/XMODEM modulo 16384. |
| `Slot.TableIsBitwise` | core/pkg/hashkit/crc16.go:24-57 | Every table entry is eight bitwise steps with polynomial 0x1021. |
| `Slot.StepAgrees` | core/pkg/hashkit/crc16.go:74-80 | The low half of the accumulator follows the bitwise definition byte by byte, whatever the high half holds. |
| `Slot.CrcAgrees` | core/pkg/hashkit/crc16.go:74-80 | So the low half after any key is its CRC-16. |
| `Slot.HashLoop` | core/pkg/hashkit/crc16.go:74-80 | The loop computes the table-driven slot. |
| `Slot.Hash` | core/pkg/hashkit/crc16.go:59-72 | Every slot is below 16384. |
| `Slot.HashTagsAgree` | core/pkg/hashkit/crc16.go:59-72 | The hashed substring is the one that the Redis Cluster hash tag rule selects if and only if the key has no closing brace before its first tag. |
| `Slot.StrayBraceExample` | core/pkg/hashkit/crc16.go:59-72 | A key for which it is not. |
| `Slot.LetterSlots` | core/pkg/hashkit/crc16.go:59-80 | Two keys with the slots that Redis reports for them. |
| `IntrusiveQueue.Queue.PushTail` | core/message.go:366-376 | Appends one node to the sequence that the links spell, in both directions. |
| `IntrusiveQueue.Queue.PopHead` | core/message.go:378-391 | Removes the oldest node of that sequence and unlinks it; nothing on an empty queue. |
| `IntrusiveQueue.Queue.PopTail` | core/message.go:393-406 | Removes the newest node of that sequence. |
| `IntrusiveQueue.Queue.AllDone` | core/message.go:351-360 | True exactly if every queued message is done. |
| `IntrusiveQueue.Queue.Empty` | core/message.go:362-364 | True exactly if no message is queued. |
| `IntrusiveQueue.Queue.Drain` | core/eventloop.go:293-300 | The release loop takes every message out, oldest first. |
| `PowerOfTwo.CeilIsLeast` | core/internal/toolkit/math.go:19-30 | The result is the least power of two, from two on, that is not below n; the panic is exactly for numbers over the largest one. |
| `PowerOfTwo.FillBitsFills` | core/internal/toolkit/math.go:44-52 | Six shifts set every bit below the highest one, for every number of at most 64 bits. |
| `PowerOfTwo.SmearStep` | core/internal/toolkit/math.go:44-52 | Each shift doubles the run of ones below the highest bit. |
| `Ring.Buffer.constructor` | core/pkg/buffer/ring/ring_buffer.go:55-66 | A new ring is empty and has the least power of two, from two on, that holds the size asked for. |
| `Ring.Buffer.Write` | core/pkg/buffer/ring/ring_buffer.go:216-250 | Appends exactly the input, growing if needed. |
| `Ring.Buffer.Place` | core/pkg/buffer/ring/ring_buffer.go:227-248 | Each of the three copy cases, wrap-around included, appends the input. |
| `Ring.Buffer.Grow` | core/pkg/buffer/ring/ring_buffer.go:486-521 | Reaches the capacity asked for and keeps the contents across the wrap-around. |
| `Ring.NewCapacity` | core/pkg/buffer/ring/ring_buffer.go:486-509 | In 64-bit arithmetic: the growth loop ends, reaches what is wanted also when a step overflows, doubles below the threshold, overshoots by at most a quarter above it, and panics exactly for a first size over 2^62. |
| `Ring.Buffer.Read` | core/pkg/buffer/ring/ring_buffer.go:150-191 | Returns the longest available prefix up to n bytes and drops it; the empty error exactly if nothing is buffered. |
| `Ring.Buffer.Take` | core/pkg/buffer/ring/ring_buffer.go:158-190 | Copying one or two stretches of the array yields the prefix, and moving the read position drops it. |
| `Ring.Buffer.ReadByte` | core/pkg/buffer/ring/ring_buffer.go:194-208 | Returns and drops the first byte. |
| `Ring.Buffer.Peek` | core/pkg/buffer/ring/ring_buffer.go:70-103 | The two slices together are the first n bytes, or all. |
| `Ring.Buffer.PeekAll` | core/pkg/buffer/ring/ring_buffer.go:106-122 | The two slices together are the contents. |
| `Ring.Buffer.Discard` | core/pkg/buffer/ring/ring_buffer.go:125-137 | Drops exactly the smaller of n and what is buffered; nothing for n not positive. |
| `Ring.Buffer.Bytes` | core/pkg/buffer/ring/ring_buffer.go:316-339 | A copy of the contents. |
| `Ring.Buffer.Buffered` | core/pkg/buffer/ring/ring_buffer.go:269-282 | The length of the contents. |
| `Ring.Buffer.Available` | core/pkg/buffer/ring/ring_buffer.go:295-308 | Together with what is buffered it is always the size. |
| `Ring.Buffer.Reset` | core/pkg/buffer/ring/ring_buffer.go:481-484 | Empties the ring and keeps its array. |
| `Ring.WriteWrapped` | core/pkg/buffer/ring/ring_buffer.go:227-236 | Writing past the end of the array appends to the byte sequence. |
| `Ring.Advance` | core/pkg/buffer/ring/ring_buffer.go:125-137 | Moving the read position modulo the size drops a prefix. |
| `LinkedList.Buffer.Pop` | core/pkg/buffer/linkedlist/linked_list_buffer.go:225-238 | Removes the first chunk; head, tail, size and bytes agree with the nodes again. |
| `LinkedList.Buffer.PushFrontNode` | core/pkg/buffer/linkedlist/linked_list_buffer.go:241-254 | Puts a chunk in front, all counters agreeing. |
| `LinkedList.Buffer.PushBackNode` | core/pkg/buffer/linkedlist/linked_list_buffer.go:257-270 | Puts a chunk at the end, all counters agreeing. |
| `LinkedList.Buffer.PushBack` | core/pkg/buffer/linkedlist/linked_list_buffer.go:76-84 | Appends exactly the input; an empty one changes nothing. |
| `LinkedList.Buffer.Read` | core/pkg/buffer/linkedlist/linked_list_buffer.go:43-62 | Returns and drops the longest available prefix up to n bytes, splitting a chunk where needed. |
| `LinkedList.Buffer.Discard` | core/pkg/buffer/linkedlist/linked_list_buffer.go:128-148 | Drops exactly the smaller of n and what is buffered. |
| `LinkedList.Buffer.PeekWithBytes` | core/pkg/buffer/linkedlist/linked_list_buffer.go:104-125 | Non-empty slices whose bytes are a prefix of the given slices and the list, long enough or complete. |
| `LinkedList.Buffer.Reset` | core/pkg/buffer/linkedlist/linked_list_buffer.go:213-222 | Empties the list. |
| `LinkedList.Buffer.Buffered` | core/pkg/buffer/linkedlist/linked_list_buffer.go:203-205 | The number of bytes in all chunks. |
| `LinkedList.Buffer.IsEmpty` | core/pkg/buffer/linkedlist/linked_list_buffer.go:208-210 | A nil head means exactly that no byte is buffered. |
| `Elastic.RingBuffer.Write` | core/pkg/buffer/elastic/elastic_ring_buffer.go:107-112 | Appends the input, taking a ring from the pool when there is none. |
| `Elastic.RingBuffer.Discard` | core/pkg/buffer/elastic/elastic_ring_buffer.go:62-69 | Drops a prefix, and an emptied ring is given back. |
| `Elastic.RingBuffer.Read` | core/pkg/buffer/elastic/elastic_ring_buffer.go:82-89 | Returns and drops a prefix, and an emptied ring is given back. |
| `Elastic.RingBuffer.Peek` | core/pkg/buffer/elastic/elastic_ring_buffer.go:54-59 | The first n bytes, or all, also without a ring. |
| `Elastic.RingBuffer.Done` | core/pkg/buffer/elastic/elastic_ring_buffer.go:45-50 | The ring is given back exactly if nothing is buffered. |
| `Elastic.RingBuffer.Reset` | core/pkg/buffer/elastic/elastic_ring_buffer.go:199-204 | Nothing is buffered afterwards. |
| `Elastic.Buffer.Write` | core/pkg/buffer/elastic/elastic_ring_list_buffer.go:82-96 | Appends exactly the input, to the ring, to the list or split between them. |
| `Elastic.Buffer.Writev` | core/pkg/buffer/elastic/elastic_ring_list_buffer.go:99-130 | Appends the concatenation of the slices, whichever way it is spread. |
| `Elastic.Buffer.Spread` | core/pkg/buffer/elastic/elastic_ring_list_buffer.go:111-129 | The main loop: every slice once and in order, also around the slice that is split. |
| `Elastic.Buffer.Read` | core/pkg/buffer/elastic/elastic_ring_list_buffer.go:44-53 | Returns and drops a prefix of ring and list together. |
| `Elastic.Buffer.Peek` | core/pkg/buffer/elastic/elastic_ring_list_buffer.go:56-65 | A prefix of the contents of at least n bytes, or all of them, and a first slice to write if anything is buffered. |
| `Elastic.Buffer.Discard` | core/pkg/buffer/elastic/elastic_ring_list_buffer.go:68-79 | Drops exactly the smaller of n and what is buffered, across the border of ring and list. |
| `Elastic.Buffer.Buffered` | core/pkg/buffer/elastic/elastic_ring_list_buffer.go:152-154 | The length of the contents. |
| `Elastic.Buffer.IsEmpty` | core/pkg/buffer/elastic/elastic_ring_list_buffer.go:157-159 | True exactly if nothing is buffered. |
| `Outbound.Connection.Write` | core/connection.go:129-154 | Exactly what the kernel took is sent, nothing while older bytes are buffered; bytes sent and bytes buffered stay the bytes handed in, in order; and the socket is watched whenever bytes are left. |
| `Outbound.Connection.Writev` | core/connection.go:232-270 | The same for a list of slices, across the slice in which the kernel stopped; nothing happens on a closed connection. |
| `Outbound.CutSent` | core/connection.go:254-268 | Cutting the slice in which the kernel stopped leaves exactly the bytes not yet sent. |
| `Outbound.Connection.WriteAll` | core/eventloop.go:266-286 | Writing any number of slices 1024 at a time hands them all in, in order, while the connection is open; after a failure the rest is not handed in. |
| `Outbound.Connection.Offer` | core/eventloop.go:315-326 | What the event loop offers is the front of the buffered bytes in at most 1024 slices, and never nothing. |
| `Outbound.Connection.OnWritable` | core/eventloop.go:315-345 | Exactly the bytes that the kernel takes of the offer are sent and dropped, so draining makes progress; would-block drops nothing. |
| `Connection.Inbound.Peek` | core/connection.go:428-452 | The first n unread bytes across the kept and the new part, an error for too many, all for n not positive. |
| `Connection.Inbound.Discard` | core/connection.go:454-474 | Drops n bytes across both parts; everything if n is not positive or too large. |
| `Connection.Inbound.Keep` | core/eventloop.go:183-183 | What a read event leaves unread is there in front at the next one. |
| `Connection.Inbound.Fill` | core/eventloop.go:121-133 | New bytes come behind the ones kept. |
| `Connection.Server.HandleWriteSignal` | core/connection.go:313-359 | The requests are handed to the socket in the order in which their fragments enter the queue that replies are paired with. |
| `Connection.Server.MoveFrags` | core/connection.go:330-339 | Every waiting fragment moves to that queue, in order. |
| `Connection.Server.DequeueInFrag` | core/connection.go:550-558 | Takes the oldest fragment on the wire. |
| `Connection.Server.EnqueueOutFrag` | core/connection.go:538-548 | The fragment waits behind the others. |
| `SlicePool.PoolIsSafe` | core/pkg/pool/byteslice/byteslice.go:44-80 | In every run of Get, Put and re-slicing every slice and pooled pointer stays inside its array, even if slices are returned twice; and if they are not, live and pooled memory never overlap. |
| `SlicePool.OverlapExactly` | core/pkg/pool/byteslice/byteslice.go:65-76 | A step makes memory overlap if and only if it returns a slice that stays in use and that the pool keeps. |
| `SlicePool.StepKeepsBacked` | core/pkg/pool/byteslice/byteslice.go:44-76 | Each step keeps every block inside its array. |
| `SlicePool.StepKeepsDisjoint` | core/pkg/pool/byteslice/byteslice.go:44-76 | Each disciplined step keeps all blocks apart. |
| `SlicePool.IndexIsCeil` | core/pkg/pool/byteslice/byteslice.go:78-80 | The class of a size is the least power of two not below it. |
| `SlicePool.ClassServes` | core/pkg/pool/byteslice/byteslice.go:65-76 | A returned slice goes to the largest class it can serve. |
| `SlicePool.RoundTrip` | core/pkg/pool/byteslice/byteslice.go:44-76 | A slice that came from Get goes back to the class it came from. |
| `SlicePool.GetGives` | core/pkg/pool/byteslice/byteslice.go:44-62 | Get gives a slice of exactly the length asked for, with at least that capacity, and touches no other block. |
| `SlicePool.Recycled` | core/pkg/pool/byteslice/byteslice.go:44-76 | A slice from Get that is returned serves the next request of its class with the same memory. |
| `SlicePool.Resliced` | core/pkg/pool/byteslice/byteslice.go:44-62 | Dropping the first bytes of a slice leaves its last ones where they were, with the same end. |
| `SlicePool.ClassesSuffice` | core/pkg/pool/byteslice/byteslice.go:44-76 | 32 classes are enough for every size served. |
| `ConnPool.Rotation` | core/redis_pool.go:69-107 | While the connections of a full pool stay open, as many Gets as it has connections return each once, in the same order every time. |
| `ConnPool.GetSound` | core/redis_pool.go:69-107 | Get returns none or an open connection that the pool holds, and the pool never holds more than maxActive. |
| `ConnPool.FillsUp` | core/redis_pool.go:69-107 | A pool that starts empty holds one more connection after every Get until it is full, in dialling order. |
| `ConnPool.StaysFull` | core/redis_pool.go:69-107 | After that it keeps the same connections while they stay open. |
| `ConnPool.RotateSound` | core/redis_pool.go:84-106 | Get fails exactly if nothing held is open and dialling fails. |
| `ConnPool.Pool.Get` | core/redis_pool.go:69-107 | The loop over the linked list terminates and computes that rotation. |
| `ConnPool.Pool.PopBack` | core/redis_pool.go:241-251 | Takes the connection used longest ago off the list. |
| `ConnPool.Pool.PushFront` | core/redis_pool.go:229-239 | Puts a connection at the other end. |

## Left out

- LockFreeQueue.LengthCounts: the counter is an unbounded integer here, because a 32-bit wrap needs over two billion queued tasks.
- Poller.NoLostWakeup: a write to the eventfd succeeds or returns EAGAIN; what a trigger or the poller does after any other error is left out.
- Runs.ExactlyOnceInOrder: counts forwarded requests only, because locally answered commands (PING, AUTH, QUIT, errors) are written to the client directly and not queued; connections stay open during the run and request timeouts are off, as configured by default.
- Runs.ForwardedAsRequested: every slot of a dispatched request finds a connection; a dispatch that fails half way answers an error locally.
- Endings.CrashesExactly: the runs are of forwarded requests, and writes to clients return no error; when `writev` returns one, the log calls at `core/eventloop.go:273` and `core/eventloop.go:284` dereference a nil message. The crash on a nil request is that of `ClientSession.CrashesExactly`, and running out of memory is left out.
- Turns.TurnAlone: no task of the turn asks for a shutdown; one that does stops the poller after it.
- Wires.QueuesExactly: once a run has crashed or stopped the queues are those before its last action.
- Command.Decode: the command table is reduced to the names that decide how a request is split; and to QUIT, which closes the connection; the argument-count and unknown-command answers of the other commands only lead to local replies.
- Command.DecodeLoop: the size hints of the two maps are not modelled, because they only reserve memory; running out of it is left out.
- Mget.ParseItemsLoop: a count that make accepts, up to 2^44 strings, always gets its memory here.
- ClientSession.DrainLoop: local answers are written without a socket failure; in the source a failed write ends the loop too, and so does a connection that was closed by it.
- ClientSession.CrashesExactly: buffered bytes stay within the message limit; above it `ClientSession.CrashesAtAnyLimit` gives both directions apart from a nil request behind a QUIT, where the answer depends on the limit and on the cut (`ClientSession.NilBehindQuit`, `ClientSession.QuitAlone`).
- Closing.ClosesExactly: buffered bytes stay within the message limit, because above it a QUIT is not recognized.
- ClientSession.ChunksDoNotMatter: buffered bytes stay within the message limit, because above it the statement is false (`ClientSession.LimitDependsOnCut`).
- ReplyStream.RepliesPaired: what is done with a fragment that got its reply is left out; in the source a reply about authentication that finishes a message, and a handler that panics, end the loop, so that later replies are not attached (`Endings.StopsExactly`, `Endings.CrashesExactly`).
- ReplyStream.DrainLoop: an invalid reply leaves the loop of the source retrying for ever; the model stops there and says so. It does not stop at a reply about authentication or at a handler that panics.
- Ring.Buffer.Grow: a first write of more than 2^62 bytes, for which the source panics, gets the capacity it asks for.
- Connection.Inbound.Peek: the byte slices returned are values; that they alias the receive buffer until the next call is not modelled, except for the lower-casing of command names in `ClientSession`.
- Elastic.RingBuffer.Write: a ring taken from the ring pool is a new object of any size, because the pool resets rings before handing them out; pool calibration is left out.
- Outbound.Connection.Writev: on a closed connection the kernel refuses the descriptor, that is, its number has not been given to another socket since.
- Outbound.Connection.OnWritable: the last flush of a connection that is being closed is left out, and nothing is claimed about bytes still buffered when the socket fails.
- ConnPool.Pool.Get: which connections are open is an input of each call; banning, monitoring and slave selection are left out.
- Sockets, epoll and kqueue calls, listeners, configuration, logging, statistics, the web endpoints and the cluster-topology refresh: foreign calls or plumbing.
- Ring `ReadFrom`, `WriteTo`, `Rewind`, `WriteByte` and the list's `ReadFrom`, `WriteTo`, `PushFront`: not on the proxy's paths.
- The timeout tree: ordered by time stamps only.
- Parsing of the address and slot inside a redirect reply: the target is a parameter.
