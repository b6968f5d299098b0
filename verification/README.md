# Verification of the soft bus core

A Dafny model of the parts of the distributed soft bus that carry its hardest promises, and proofs
of those promises for every input, every run and every interleaving.

- **Lock-free ring queue** (`QueueMachine.dfy`, `RingQueue.dfy`). The multi-producer, multi-consumer
  operations are an interleaving machine over 32-bit words, one step per shared access, with counters
  that do not wrap beside it. The single-producer, single-consumer operations are a class.
- **Authentication session** (`AuthSession.dfy`, `AuthProtocol.dfy`). One session as a state machine
  and as the object that is updated in place; then two honest peers over first-in first-out channels
  with the device authentication service as an oracle that reports the key before success. Timeouts,
  loss of trust and failed posts may strike anywhere.
- **Old and new handshake** (`P2pHandshake.dfy`). The status-based P2P join of the auth manager against
  the session state machine.
- **Looper** (`IntrusiveList.dfy`, `LooperRuns.dfy`, `MessageLooper.dfy`). The circular list refines a
  sequence; the looper on that list refines a machine; scheduling and conservation hold over its runs.
- **Record allocator** (`RecordDatabase.dfy`). The bitmap, its nested loops and address arithmetic.
- **Session keys** (`SessionKeys.dfy`). Rotation, lookup and the ciphertext frame over an ideal AES-GCM
  (sections 7.1 and 7.2 of NIST SP 800-38D).
- **Packets, byte order, numbers** (`Bytes.dfy`, `PacketStream.dfy`, `SequenceNumbers.dfy`).
- **Send rate** (`SendRate.dfy`). The 32-bit formulas against integer formulas.
- `Bits.dfy` holds 32-bit words and the C bit operators, `Options.dfy` a value that may be missing.

`dafny verify dfyconfig.toml` checks the whole project.

## Where the code and its promises part

- The unit-count test of the queue accepts zero (`RingQueue.PowerTestAccepts`, `RingQueue.CreateQueue`).
- The looper stamps a message before it takes the lock, so dispatch order can break
  (`LooperRuns.EarlyStampBreaksOrder`); `LooperRuns.DispatchOrderExactly` says exactly when it does not.
- The old and the new handshake part at a second key, and at an info that comes when key and info are
  there, unless it comes after the pass, before any further ack, and repeats the accepted info
  (`P2pHandshake.SameOutcomeExactly`); infos repeated before the key change nothing. The old one can
  report a second pass (`P2pHandshake.OldPassesExactly`, `P2pHandshake.OnePassExactly`).
- A key lookup finds the oldest key of an index, not the newest (`SessionKeys.ReusedIndexFindsOldKey`).
- An oversized packet is refused but its payload is read as the next packets (`PacketStream.FrontPacket`,
  `PacketStream.PayloadIsReadAsPacket`).
- The MTU check admits sizes at which the rate formula wraps (`SendRate.NoWrapExactly`,
  `SendRate.FirstUnsafeMtu`). It divides by zero when neither side has a share of air time left, which
  two rates below 8 Mbps bring about at every MTU and two top rates at MTU 22370
  (`SendRate.ComputableExactly`, `SendRate.DividesByZero`).
- The size of the record block and the length of an encrypted frame are computed without a test that
  they fit their type (`RecordDatabase.DatabaseInit` and `HugeRecordsGetNoBlock`,
  `SessionKeys.SessionKeyList.EncryptInner` and `LongestMessageRunsOver`).

## Assumptions

- Shared accesses of the queue are sequentially consistent, and fewer than 2^32 head advances happen
  between a thread's head read and its swap (`Timely`); `RunKeepsExactly` says exactly when a schedule
  without that bound keeps the invariant, and `StaleSwapOverfills` gives one that does not. Unit counts are powers of two from 1 to 8192.
- Handlers run to completion and a state change is in force for the next message; the framework
  that queues messages is not part of this model.
- Locks, allocations within their stated limits and bounded copies succeed, also for length zero; what posting, unpacking and
  the authentication service return comes in as parameters. Clocks and random bytes are parameters.
- A head of 24 bytes is read in one piece. A payload read returns at least one byte or an error; a
  read of zero bytes at the end of the stream would make the source loop for ever.
- Message delays and packet lengths plus heads stay within their integer types. No allocation gives
  more than 2^63 - 1 bytes. Transmit rates are at most 2500 where a result says so; the source checks
  only the receive rate.

## Model

| member | source | states |
|---|---|---|
| QueueMachine.CountersStayOrdered | core/common/include/softbus_queue.h:144-325 | In every interleaving of any number of producers and consumers: consumer tail <= consumer head <= producer tail <= producer head <= consumer tail + mask on counters without wrap-around, and the four 32-bit words are those counters modulo 2^32 |
| QueueMachine.FirstInFirstOut | core/common/include/softbus_queue.h:144-325 | In every interleaving the values returned by dequeues are a prefix of the values whose enqueue was accepted, in that order, each at most once, with at most unitNum - 1 outstanding |
| QueueMachine.StepRefinesFifo | core/common/include/softbus_queue.h:144-325 | Every single step refines a queue: publishing appends the caller's value, a won consumer swap takes the oldest value, a release returns the value its thread took, and no other step changes the queue |
| QueueMachine.SlotsNeverClash | core/common/include/softbus_queue.h:182-322 | A store goes to a position that is reserved and unpublished and leaves every other live slot as it was; a load reads a published, unreleased position and gets the value stored for it, through the masked 32-bit index |
| QueueMachine.RefusalsAreExact | core/common/include/softbus_queue.h:158-303 | QUEUE_FULL and QUEUE_EMPTY are returned exactly when the true distance is a multiple of 2^32; below 2^32 that means all unitNum - 1 units were reserved, or every published value was claimed, when the tail was read |
| QueueMachine.EventsAreExact | core/common/include/softbus_queue.h:144-325 | In every interleaving, for every thread wherever it stands: QUEUE_INVAL is returned exactly to an idle thread that enqueues the null pointer; a step inside an enqueue of v goes on inside it with v or returns success of v or QUEUE_FULL, a step inside a dequeue likewise; whenever QUEUE_FULL is returned, within 2^32, all usable units are reserved, and whenever QUEUE_EMPTY, every published value is claimed; no other thread moves |
| QueueMachine.LoneThreadFinishes | core/common/include/softbus_queue.h:158-322 | The loops make progress: from every state of every interleaving, a thread inside an operation returns its answer within nine moves of its own when no other thread holds a position on its side and its head is less than 2^32 advances old; so a failed swap reads the head again and no wait is for the thread itself |
| QueueMachine.CountIsExact | core/common/queue/softbus_queue.c:71-86 | On a snapshot the masked difference of the 32-bit tails is the number of accepted values that no dequeue has returned |
| QueueMachine.QuietMeansSettled | core/common/include/softbus_queue.h:195-325 | When no operation is under way, every reservation is published and every claim released, so heads equal tails and nothing is stuck |
| QueueMachine.StepKeeps | core/common/include/softbus_queue.h:144-325 | Every step of every thread in which a successful swap finds room keeps the whole invariant: order, words, slots, one owner per reserved or claimed position, and each thread's local variables |
| QueueMachine.RunKeepsExactly | core/common/include/softbus_queue.h:144-325 | For every schedule, timely or not: the invariant holds after every prefix if and only if every swap that succeeded found a free unit or an unclaimed value |
| QueueMachine.StepKeepsExactly | core/common/include/softbus_queue.h:177-303 | A step keeps the invariant if and only if a swap that succeeds in it finds a free unit or an unclaimed value |
| QueueMachine.TimelyRunIsRoomy | core/common/include/softbus_queue.h:177-303 | With fewer than 2^32 head advances between a thread's head read and its swap, every swap that succeeds in a run finds room |
| QueueMachine.StaleSwapOverfills | core/common/include/softbus_queue.h:144-205 | A schedule of two threads in which every step is timely but the last, a swap on a head that has come round to the same word: it succeeds on a full ring and breaks the order, so the timing assumption is needed |
| RingQueue.PowerTestAccepts | core/common/queue/softbus_queue.c:30-53 | The unit-count test accepts exactly zero and the powers of two |
| RingQueue.MaskedSlot | core/common/include/softbus_queue.h:125-128 | For a power-of-two unit count, masking the 32-bit word gives the position modulo the unit count |
| RingQueue.WindowGrows | core/common/include/softbus_queue.h:125-139 | Storing at the producer's slot appends to the live window and changes no other live value |
| RingQueue.LockFreeQueue.Init | core/common/queue/softbus_queue.c:30-53 | Initialisation accepts exactly zero and powers of two, and yields an empty queue for a count that matches the node array |
| RingQueue.LockFreeQueue.SingleProducerEnqueue | core/common/include/softbus_queue.h:95-142 | Null is invalid, a queue with mask values is full, otherwise the value is appended to the contents |
| RingQueue.LockFreeQueue.SingleConsumerDequeue | core/common/include/softbus_queue.h:208-259 | An empty queue is refused and unchanged, otherwise the oldest value is removed and returned |
| RingQueue.LockFreeQueue.Count | core/common/queue/softbus_queue.c:71-86 | The masked difference of the tails is the number of queued values, across wrap-around |
| RingQueue.CreateQueue | core/common/queue/softbus_queue.c:88-108 | Creation succeeds exactly for powers of two up to 8192 and for zero; zero yields a queue without nodes whose mask is all ones |
| AuthSession.OneEarnedVerdict | core/authentication/src/auth_session_fsm.c:197-212 | Over any messages and any failures a session gives at most one verdict; success means: authentication succeeded, own info posted, recorded peer info received, and off WiFi an ack posted and received |
| AuthSession.NothingAfterVerdict | core/authentication/src/auth_session_fsm.c:85-106 | After the verdict no message changes the session or causes an action |
| AuthSession.MessagesDecide | core/authentication/src/auth_session_fsm.c:248-462 | While no verdict was given, the received messages alone decide the phase, the info kept for later, the recorded peer info and whether the close ack was noted |
| AuthSession.ActionsExactly | core/authentication/src/auth_session_fsm.c:197-487 | After any inputs without a verdict, each action (every post, start, replay, key storing, and the verdict with each of its ten codes) is appended if and only if the messages so far, the new message, the link, the side and the outcomes are the ones for it; a verdict comes last |
| AuthSession.DistrustAndTimeoutEnd | core/authentication/src/auth_session_fsm.c:214-230 | Whatever came before, a distrusted device ends the session with exactly the verdict not trusted, and a timeout with exactly the verdict timed out |
| AuthSession.StartExactly | core/authentication/src/auth_session_fsm.c:232-246 | Before any message a server did nothing, and a client posted its device id or ended with the failure to sync it |
| AuthSession.HandleRemembers | core/authentication/src/auth_session_fsm.c:214-487 | Every reaction keeps what the session knows of its past: which phase implies which messages received and which posts made |
| AuthSession.ReactionVerdicts | core/authentication/src/auth_session_fsm.c:197-230 | A reaction emits one verdict exactly when it ends the session, and a dead session does nothing |
| AuthSession.AuthFsm.constructor | core/authentication/src/auth_session_fsm.c:232-246 | A fresh session; the client posts its device id or completes with failure |
| AuthSession.AuthFsm.CompleteAuthSession | core/authentication/src/auth_session_fsm.c:197-212 | Exactly one verdict is appended and the session becomes dead |
| AuthSession.AuthFsm.Process | core/authentication/src/auth_session_fsm.c:279-487 | The process function of the current phase does to the object exactly what `Handle` does to its value, including unknown and late messages; on a live session loss of trust and timeout append exactly their verdict and end it |
| AuthSession.AuthFsm.HandleMsgRecvDeviceId | core/authentication/src/auth_session_fsm.c:248-277 | Server answers with its id, client starts authentication; each failure has its own code |
| AuthSession.AuthFsm.TrySyncDeviceInfo | core/authentication/src/auth_session_fsm.c:324-341 | A WiFi server posts nothing and succeeds; the other known links post the device info; an unknown link fails |
| AuthSession.AuthFsm.HandleMsgAuthResult | core/authentication/src/auth_session_fsm.c:343-365 | A failed result ends the session; a successful one posts, replays saved info and enters the device-info phase |
| AuthSession.AuthFsm.HandleMsgRecvDeviceInfo | core/authentication/src/auth_session_fsm.c:415-448 | Accepts the info; WiFi ends with success, other links send an ack and end only if an ack was received before |
| AuthSession.AuthFsm.HandleMsgRecvCloseAck | core/authentication/src/auth_session_fsm.c:450-462 | Ends with success if the info was received, otherwise remembers the ack |
| AuthProtocol.PassMeansAccepted | core/authentication/src/auth_session_fsm.c:415-462 | Off WiFi: in every run, if a side passes, the other side has accepted exactly this side's device info and has sent its ack |
| AuthProtocol.WifiClientPassMeansServerPassed | core/authentication/src/auth_session_fsm.c:415-448 | On WiFi: in every run, if the client passes, the server has passed and not failed, and each holds the other's info |
| AuthProtocol.RunOneVerdict | core/authentication/src/auth_session_fsm.c:197-212 | In every run of two peers no side both passes and fails |
| AuthProtocol.DistrustIsFinal | core/authentication/src/auth_session_fsm.c:214-230 | In every run, a live side that takes a loss of trust or a timeout from its queue has failed and never passes, whatever happens later |
| AuthProtocol.DistrustTakesEffect | core/authentication/src/auth_session_fsm.c:214-230 | In every run, when a live side loses trust or its timer runs out, it is over at the latest when it has processed what was queued before and this message, whatever the outcomes |
| AuthProtocol.EntriesExactly | core/authentication/src/auth_session_fsm.c:279-487 | What every event other than processing puts into a queue and onto a wire, and that it changes no session |
| AuthProtocol.NothingArrivesTooSoon | core/authentication/src/auth_session_fsm.c:384-413 | In every run device info never reaches a session in the device-id phase, and a close ack never reaches one outside the device-info phase |
| AuthProtocol.NothingIsLost | core/authentication/src/auth_session_fsm.c:367-382 | In every run a posted device info is on the wire, queued, saved or accepted while its receiver lives, and a sent ack is on the wire, queued or recorded |
| AuthProtocol.EarlyInfoIsReplayed | core/authentication/src/auth_session_fsm.c:343-382 | In every run, what a live side has saved is the other side's posted info, saved while authenticating, and the reaction that enters the device-info phase queues it again |
| AuthProtocol.KeyComesFirst | core/authentication/src/auth_session_fsm.c:309-365 | In every run a side posts its device info, accepts the other's, sends an ack or passes only after it has reacted to its session key |
| AuthProtocol.QuietMeansBothPassed | core/authentication/src/auth_session_fsm.c:343-462 | No deadlock: when both authentications succeeded, nothing is in transit and nothing failed, both sides have passed |
| AuthProtocol.SmoothRunsDoNotFail | core/authentication/src/auth_session_fsm.c:214-487 | A run without outside trouble never ends a side with failure, in any order of steps |
| AuthProtocol.SmoothRunsPass | core/authentication/src/auth_session_fsm.c:343-462 | A run without outside trouble that has come to rest has passed on both sides |
| AuthProtocol.ExtendsToRest | core/authentication/src/auth_session_fsm.c:232-462 | No dead end: every run without outside trouble on a known link extends to one at rest with both sides passed, unless the client's authentication service finished before anything was sent to start the server's |
| AuthProtocol.RestExactly | core/authentication/src/auth_session_fsm.c:232-462 | Such a run can come to rest after two successful authentications if and only if it is not in that one stuck situation |
| AuthProtocol.StuckForever | core/authentication/src/auth_session_fsm.c:301-307 | From that situation no continuation leads out |
| AuthProtocol.HonestRunPasses | core/authentication/src/auth_session_fsm.c:232-462 | On every known link, WiFi included, there is a run without outside trouble that comes to rest with both sides passed |
| AuthProtocol.StepKeeps | core/authentication/src/auth_session_fsm.c:214-487 | Every delivery, reaction, oracle report, timeout and loss of trust keeps the two-party invariant |
| P2pHandshake.SameOutcome | core/authentication/src/auth_manager.c:785-839 | For one key, any infos before it, none once key and info are there, and any acks, in any order: the old status handshake and the new state machine post the same infos, send the same single ack, accept the same info and report the same passes: one exactly when info came and an ack came after the key |
| P2pHandshake.SameOutcomeExactly | core/authentication/src/auth_manager.c:672-897 | For every sequence of happenings in any order and number, the outcomes agree after every prefix if and only if each happening was allowed by what was seen before it: no second key, and no info once key and info are there unless it comes after the pass, before any further ack, and repeats the accepted info (or the replay is still to be taken) |
| P2pHandshake.FirstStrayDiverges | core/authentication/src/auth_manager.c:672-897 | The first happening that is not allowed makes the outcomes differ at once |
| P2pHandshake.TwoKeysNeverAgree | core/authentication/src/auth_manager.c:672-717 | After a second key the outcomes never agree again |
| P2pHandshake.OldPassesExactly | core/authentication/src/auth_manager.c:785-839 | For every sequence of happenings the old handshake reports one pass per completion, told by positions: an info or ack that joins the other since the last key, or an info after an ack that followed both |
| P2pHandshake.OldOutcomeExactly | core/authentication/src/auth_manager.c:672-897 | For every sequence of happenings the old handshake has posted one info per key, sent one ack per answer, reported one pass per completion, and accepted the last info once there was a key; answers and completions are defined by the positions of the happenings |
| P2pHandshake.OnePassExactly | core/authentication/src/auth_manager.c:785-839 | With at most one key the old handshake reports at most one pass if and only if no info follows an ack before which came an info, and a key followed by another ack |
| P2pHandshake.ReplayDrains | core/authentication/src/auth_session_fsm.c:343-365 | Every allowed sequence can be completed by taking the replayed message, so `SameOutcome` covers it |
| P2pHandshake.RunsMatched | core/authentication/src/auth_manager.c:672-897 | After every allowed sequence the two machines stand in one relation that fixes status, saved data and outcome from what has happened |
| P2pHandshake.SecondKeyDiffers | core/authentication/src/auth_manager.c:672-717 | A failing input of `SameOutcomeExactly`: with a second key only the new machine passes |
| P2pHandshake.SecondInfoDiffers | core/authentication/src/auth_manager.c:805-839 | A failing input of `SameOutcomeExactly`: a second info after the key is acked again by the new machine only |
| P2pHandshake.PassReportedTwice | core/authentication/src/auth_manager.c:785-839 | A failing input of `OnePassExactly`: a late ack and a repeated info make the old handshake pass twice |
| P2pHandshake.AuthManager.OnSessionKeyReturned | core/authentication/src/auth_manager.c:672-717 | The key moves the status through sync to finished, posts the device info once and takes up saved peer info |
| P2pHandshake.AuthManager.PostSyncData | core/authentication/src/auth_connection.c:112-172 | After the post the status is finished and saved peer info is handled and cleared |
| P2pHandshake.AuthManager.HandlePeerSyncDeviceInfo | core/authentication/src/auth_manager.c:853-897 | Info before the key or during the sync is saved, otherwise reported |
| P2pHandshake.AuthManager.ReportSyncDeviceInfoResults | core/authentication/src/auth_manager.c:805-839 | Sends the ack and waits, or sends the ack and passes when the peer's ack came first |
| P2pHandshake.AuthManager.ReceiveCloseAck | core/authentication/src/auth_manager.c:785-803 | Passes when waiting for the ack, otherwise waits for the peer's info |
| IntrusiveList.ListInit | core/common/include/common_list.h:33-37 | A node linked to itself is a ring of one |
| IntrusiveList.ListAdd | core/common/include/common_list.h:46-52 | Insertion behind position k of a ring of any length; behind the head this prepends |
| IntrusiveList.ListTailInsert | core/common/include/common_list.h:55-58 | Insertion in front of an element at its position; in front of the head this appends |
| IntrusiveList.ListDelete | core/common/include/common_list.h:67-75 | Removes exactly that node, leaves it linked to itself so that a second deletion changes nothing, and only self-links a node with a null link |
| IntrusiveList.IsListEmpty | core/common/include/common_list.h:77-80 | True exactly for a ring of the head alone |
| IntrusiveList.RemoveWhere | core/common/include/common_list.h:111-137 | Safe iteration that deletes the current node visits every original node once in order, and leaves exactly the nodes the test spared, linked in their order |
| IntrusiveList.SurvivorsEntries | core/common/include/common_list.h:111-137 | The entries of the surviving nodes are the entries that fail the test, in order |
| IntrusiveList.FilterParts | core/common/include/common_list.h:111-137 | Every element goes to exactly one of the kept and the removed list and keeps its place among its neighbours there |
| LooperRuns.PendingStaysSorted | core/common/message_handler/message_handler.c:286-301 | In every run the pending list is strictly sorted by due time and, among equal due times, by order of posting; the size field is its length modulo 2^32; nothing is dispatched before its due time |
| LooperRuns.DispatchOrderExactly | core/common/message_handler/message_handler.c:134-169 | In every run the dispatches come in order of due time and posting if and only if no dispatched message had been inserted after the dispatch of one that was due later |
| LooperRuns.AtomicPostsDispatchInOrder | core/common/message_handler/message_handler.c:310-320 | If time stamp and insertion are one step, every run dispatches in order |
| LooperRuns.EarlyStampBreaksOrder | core/common/message_handler/message_handler.c:310-320 | With the stamp taken before the lock, as written, a concrete run dispatches out of order |
| LooperRuns.FreedExactlyOnce | core/common/message_handler/message_handler.c:459-504 | In every run no message is freed twice, and after destruction every posted message has been freed exactly once |
| LooperRuns.RemovedNeverHandled | core/common/message_handler/message_handler.c:331-358 | A rejected, removed or destroyed message is never dispatched, and a dispatched one is freed as handled |
| LooperRuns.StepsAreExact | core/common/message_handler/message_handler.c:91-504 | In every run, what each step does: a post is rejected or joins the pending in order; a take dispatches the first message by due time and post order if and only if the loop is free, not stopped and some message is due; a removal frees exactly the pending messages of the handler that the caller's test accepts, in order; finish, stop, exit and destruction, with everything they leave alone |
| LooperRuns.NoDispatchAfterStop | core/common/message_handler/message_handler.c:111-186 | Once the looper was told to stop, nothing is dispatched in any continuation |
| LooperRuns.OnlyHandledDispatched | core/common/message_handler/message_handler.c:251-264 | In no run is a message without handler pending or dispatched |
| LooperRuns.StepKeeps | core/common/message_handler/message_handler.c:91-358 | Every step keeps sortedness, the size field, conservation of each message, the order facts and the fates |
| LooperRuns.InsertSorted | core/common/message_handler/message_handler.c:286-301 | Insertion in front of the first later message keeps the list sorted and stable and adds exactly the new message |
| LooperRuns.WithoutConserves | core/common/message_handler/message_handler.c:331-358 | Removal splits every message's count between what stays and what is freed |
| LooperRuns.WithoutSorted | core/common/message_handler/message_handler.c:331-358 | Removal keeps the order of the rest |
| MessageLooper.InsertAt | core/common/message_handler/message_handler.c:286-300 | The position found by the loop is the position of the sorted insertion |
| MessageLooper.LooperContext.constructor | core/common/message_handler/message_handler.c:373-412 | An empty looper whose thread runs |
| MessageLooper.LooperContext.FindInsertionPoint | core/common/message_handler/message_handler.c:286-297 | Walking the ring finds the first node that is due later, or the head |
| MessageLooper.LooperContext.PostMessageAtTime | core/common/message_handler/message_handler.c:251-308 | On the pointer ring: exactly the abstract post, including the rejected cases and the size field |
| MessageLooper.LooperContext.PostMessageDelay | core/common/message_handler/message_handler.c:310-320 | The due time is the clock plus the delay in microseconds |
| MessageLooper.LooperContext.TakeDue | core/common/message_handler/message_handler.c:111-161 | On the pointer ring, at any later clock reading: the first message is unlinked exactly when it is due and the looper is not stopped |
| MessageLooper.LooperContext.FinishHandling | core/common/message_handler/message_handler.c:176-179 | The handled message is freed once and no message is current |
| MessageLooper.LooperContext.RemoveMessageCustom | core/common/message_handler/message_handler.c:331-358 | On the pointer ring: nothing changes unless running and not stopped; otherwise exactly the messages of that handler that the caller's test accepts are unlinked and freed as removed, in order, and the others stay in order |
| MessageLooper.LooperContext.RequestStop | core/common/message_handler/message_handler.c:467-473 | Destruction first sets the stop flag and changes nothing else |
| MessageLooper.LooperContext.LeaveLoop | core/common/message_handler/message_handler.c:181-186 | The loop thread leaves only with no message in hand |
| MessageLooper.LooperContext.Destroy | core/common/message_handler/message_handler.c:484-500 | Every remaining message is freed in order and the ring is empty |
| RecordDatabase.RunInRange | components/nstackx/nstackx_ctrl/core/nstackx_database.c:134-203 | Over every run of allocations and frees the used records lie below the limit, so there are at most that many |
| RecordDatabase.AllocInRange | components/nstackx/nstackx_ctrl/core/nstackx_database.c:134-168 | Below the limit an allocation returns the lowest free record, which lies below the limit although the loops never look at it; at the limit it returns nothing |
| RecordDatabase.LowestFreeIsBelow | components/nstackx/nstackx_ctrl/core/nstackx_database.c:144-166 | The counting argument: with fewer than n records used, the lowest free one is below n |
| RecordDatabase.NotHandedOutTwice | components/nstackx/nstackx_ctrl/core/nstackx_database.c:134-203 | A used record stays used and no allocation returns it until an address inside it is freed |
| RecordDatabase.EnumerationIsComplete | components/nstackx/nstackx_ctrl/core/nstackx_database.c:109-132 | Repeated calls from -1 return every used record exactly once in ascending order |
| RecordDatabase.AddressTest | components/nstackx/nstackx_ctrl/core/nstackx_database.c:40-46 | The signed-unsigned-signed computation accepts exactly the addresses inside the block and finds their record |
| RecordDatabase.AddressOf | components/nstackx/nstackx_ctrl/core/nstackx_database.c:68-71 | The address of a record leads back to the record |
| RecordDatabase.BlockRecords | components/nstackx/nstackx_ctrl/core/nstackx_database.c:245-245 | The block holds all records if and only if the product of count and size does not leave 64 bits |
| RecordDatabase.TestBit | components/nstackx/nstackx_ctrl/core/nstackx_database.c:49-66 | Masking with a shifted one tests that bit |
| RecordDatabase.RowFull | components/nstackx/nstackx_ctrl/core/nstackx_database.c:149-152 | A row is skipped exactly when all 32 records of it are used |
| RecordDatabase.Database.constructor | components/nstackx/nstackx_ctrl/core/nstackx_database.c:231-258 | An empty map with one row more than the count divided by 32, usable exactly when the block holds all records |
| RecordDatabase.Database.FindFree | components/nstackx/nstackx_ctrl/core/nstackx_database.c:149-156 | The nested loops find the lowest clear bit of the map |
| RecordDatabase.Database.AllocRecord | components/nstackx/nstackx_ctrl/core/nstackx_database.c:134-168 | Fails exactly at the limit; otherwise returns the lowest free record, zeroed over its whole size, adds exactly it to the used set, keeps the count equal to the number of set bits, touches no other record |
| RecordDatabase.Database.FreeRecord | components/nstackx/nstackx_ctrl/core/nstackx_database.c:179-203 | Succeeds exactly for addresses inside a used record, and removes exactly that record from the used set |
| RecordDatabase.Database.IsRecordOccupied | components/nstackx/nstackx_ctrl/core/nstackx_database.c:49-66 | True exactly for a used record |
| RecordDatabase.Database.SearchRecord | components/nstackx/nstackx_ctrl/core/nstackx_database.c:73-98 | The row-skipping search returns the first used record whose content the callback accepts, with every used record below it rejected; nothing only if the callback rejects all used records or is missing |
| RecordDatabase.Database.GetNextRecord | components/nstackx/nstackx_ctrl/core/nstackx_database.c:109-132 | The first used record above the index, or nothing if there is none; the index moved even on failure, negative indices starting at 0, and nothing from 2^32 - 1 on |
| RecordDatabase.DatabaseInit | components/nstackx/nstackx_ctrl/core/nstackx_database.c:223-259 | Refuses exactly zero counts, zero sizes and blocks beyond 2^63 bytes; the database is valid if and only if the product of count and size does not leave 64 bits |
| RecordDatabase.HugeRecordsGetNoBlock | components/nstackx/nstackx_ctrl/core/nstackx_database.c:237-256 | A failing input: two records of 2^63 bytes yield a database of two records whose block holds none |
| Bytes.XorSwap | adapter/common/kernel/liteos_a/softbus_adapter_socket.c:38-40 | Three exclusive ors exchange two different cells and touch no other |
| Bytes.ShiftByte | adapter/common/kernel/liteos_a/softbus_adapter_socket.c:33-44 | The in-place loop reverses the first bytes and keeps the rest, for every size an int8_t can hold |
| Bytes.ReverseTwice | adapter/common/kernel/liteos_a/softbus_adapter_socket.c:33-44 | Reversal is its own inverse |
| Bytes.IsLittleEndian | adapter/common/kernel/liteos_a/softbus_adapter_socket.c:493-501 | The network-order test tells the host order |
| Bytes.ProcByteOrder | adapter/common/kernel/liteos_a/softbus_adapter_socket.c:503-510 | Bytes are reversed exactly on a big-endian host |
| Bytes.ConvertOrder | adapter/common/kernel/liteos_a/softbus_adapter_socket.c:512-552 | The conversions through memory compute the order change for 2, 4 and 8 bytes |
| Bytes.ConvertedIsLittleEndian | adapter/common/kernel/liteos_a/softbus_adapter_socket.c:512-531 | On either host the memory of a converted value is its little-endian form |
| Bytes.ConvertBack | adapter/common/kernel/liteos_a/softbus_adapter_socket.c:533-552 | On either host a value read from little-endian memory is converted back to what was sent |
| Bytes.ReadIsLittleEndian | adapter/common/kernel/liteos_a/softbus_adapter_socket.c:533-552 | On any host, arbitrary memory that is read and converted gives its little-endian value |
| Bytes.LittleEndianWord | adapter/common/kernel/liteos_a/softbus_adapter_socket.c:533-540 | The value of four bytes, by their weights |
| PacketStream.HeadSurvives | core/authentication/src/auth_tcp_connection.c:67-110 | A head packed on any host is unpacked unchanged on any host, with signed and unsigned fields |
| PacketStream.EventExactly | core/authentication/src/auth_tcp_connection.c:92-242 | On arbitrary bytes and any host: an event delivers if and only if 24 bytes are there, the little-endian value of the first four is 0xBABEFACE, that of bytes 20 to 23 is at most 65536, and the payload is there; the packet is then the signed fields and those bytes; a wrong magic number or an oversized length consumes exactly the head, and a cut-off head or payload uses up the input |
| PacketStream.EncodeLayout | core/authentication/src/auth_tcp_connection.c:67-90 | The wire form of a packet by byte positions: magic number, module, sequence number, flag and length as little-endian words, then the payload |
| PacketStream.FrontPacket | core/authentication/src/auth_tcp_connection.c:218-242 | A packet at the front of the stream is delivered exactly when its payload is at most 64 KiB; otherwise only its head is consumed and the payload stays in the stream |
| PacketStream.PayloadIsReadAsPacket | core/authentication/src/auth_tcp_connection.c:227-230 | If the payload of an oversized packet begins with the bytes of a packet, that packet is delivered although nobody posted it |
| PacketStream.StreamIsDelivered | core/authentication/src/auth_tcp_connection.c:160-242 | A list of packets is delivered as sent, in order, on either host order, if and only if none exceeds 64 KiB |
| PacketStream.DeliveredIsAllowed | core/authentication/src/auth_tcp_connection.c:227-230 | Whatever bytes arrive, no delivered payload exceeds 64 KiB |
| PacketStream.PackHead | core/authentication/src/auth_tcp_connection.c:74-84 | The five fields are stored one after the other in little-endian order and nothing behind them changes |
| PacketStream.PackSocketPkt | core/authentication/src/auth_tcp_connection.c:67-90 | Fills head and payload, or refuses a buffer that is too short and leaves it |
| PacketStream.SocketPostBytes | core/authentication/src/auth_tcp_connection.c:382-415 | What is handed to the socket is the encoded packet, or nothing if its buffer exceeds the allocator's 512 MiB |
| PacketStream.Connection.UnpackSocketPkt | core/authentication/src/auth_tcp_connection.c:92-110 | Refuses fewer than 24 bytes, otherwise reads the five fields |
| PacketStream.Connection.RecvPacketHead | core/authentication/src/auth_tcp_connection.c:160-174 | Reads a whole head or consumes the short rest and fails |
| PacketStream.Connection.RecvPacketData | core/authentication/src/auth_tcp_connection.c:176-194 | For every choice of positive read sizes the payload is the next bytes of the stream |
| PacketStream.Connection.ProcessSocketInEvent | core/authentication/src/auth_tcp_connection.c:218-242 | One event delivers if and only if the unread bytes begin with an acceptable packet in the sense of `EventExactly`, delivers that packet, and leaves exactly what follows it, what follows a refused head, or nothing |
| PacketStream.Connection.ServeAll | core/authentication/src/auth_tcp_connection.c:265-274 | Serving events until the input is used up delivers exactly the specified packets, for every fragmentation |
| PacketStream.Transfer | core/authentication/src/auth_tcp_connection.c:160-415 | Posting on one host, any fragmentation, serving on another, with separate byte orders and the allocator's limit: the packets arrive as sent if and only if none exceeds 64 KiB |
| SessionKeys.ListIsNewestTen | core/authentication/src/auth_session_key.c:38-116 | After any history of additions the list is the ten newest keys in order |
| SessionKeys.LookupUntilTenLater | core/authentication/src/auth_session_key.c:142-161 | With distinct indices a key is found if and only if at most nine keys were added after it |
| SessionKeys.LookupIsOldestKept | core/authentication/src/auth_session_key.c:142-161 | For any history and index the lookup gives the oldest kept key of that index, or nothing |
| SessionKeys.FoundExactly | core/authentication/src/auth_session_key.c:142-161 | An added key is found under its index if and only if the oldest kept addition of that index carries the same key |
| SessionKeys.ReusedIndexFindsOldKey | core/authentication/src/auth_session_key.c:142-161 | With a reused index the newest key is not the one found |
| SessionKeys.SurvivesRotation | core/authentication/src/auth_session_key.c:163-272 | With distinct indices, what is encrypted under the sender's latest key decrypts to the same bytes on a receiver that added that key, if and only if at most nine keys were added later, for any byte orders of the hosts |
| SessionKeys.SurvivesHistory | core/authentication/src/auth_session_key.c:163-272 | For any history of the receiver, a frame is 32 bytes longer than its message, decrypts to it when the oldest kept key of the index is the sender's, and is refused when no kept key has the index |
| SessionKeys.EncryptedIsSealed | adapter/common/mbedtls/softbus_adapter_crypto.c:238-258 | A frame piece by piece: index in little-endian order, a vector of the index in the sender's byte order followed by random bytes 4 to 11, and the cipher's text and tag for exactly that vector |
| SessionKeys.VectorsDiffer | adapter/common/mbedtls/softbus_adapter_crypto.c:244-248 | Two frames have the same vector if and only if their index words and their random bytes 4 to 11 agree, so under one key different random bytes mean different vectors |
| SessionKeys.DecryptExactly | core/authentication/src/auth_session_key.c:196-272 | For arbitrary frames and lists: refused outside the sizes that can be handled, otherwise opened with the first key whose index is the signed little-endian value of the first four bytes, by the cipher on the named positions, if that key has a usable size; refused without such a key |
| SessionKeys.FrameLength | adapter/common/mbedtls/softbus_adapter_crypto.c:48-88 | The frame is exactly 32 bytes longer than the message |
| SessionKeys.OpensFrame | adapter/common/mbedtls/softbus_adapter_crypto.c:90-120 | Cutting vector, ciphertext and tag out of the frame and decrypting gives the message back |
| SessionKeys.IndexSurvives | core/authentication/src/auth_session_key.c:177-205 | The key index is recovered on any host |
| SessionKeys.RefusedWithoutKey | core/authentication/src/auth_session_key.c:204-210 | Without a key of that index the frame is refused |
| SessionKeys.SomeCipherIsIdeal | adapter/common/mbedtls/softbus_adapter_crypto.c:48-120 | The assumption on the cipher can be met |
| SessionKeys.SessionKeyList.RemoveOldKey | core/authentication/src/auth_session_key.c:38-54 | Drops the oldest key exactly above the limit |
| SessionKeys.SessionKeyList.AddSessionKey | core/authentication/src/auth_session_key.c:97-116 | Appends the key with the current time and trims to the limit |
| SessionKeys.SessionKeyList.GetLatestSessionKey | core/authentication/src/auth_session_key.c:118-140 | Gives the newest key, sets exactly its time of use, fails on an empty list |
| SessionKeys.SessionKeyList.GetSessionKeyByIndex | core/authentication/src/auth_session_key.c:142-161 | Gives the first key of that index, sets exactly that entry's time of use, changes no key |
| SessionKeys.SessionKeyList.EncryptInner | core/authentication/src/auth_session_key.c:228-249 | Seals the message under the latest key if and only if the message is not empty, its frame is at most 512 MiB, and there is a latest key of 16, 24 or 32 bytes; every frame carries the index in bytes 0 to 3, the index in the sender's byte order in bytes 4 to 7, random bytes 4 to 11 in bytes 8 to 15, then the cipher's output for that vector; for a length sum beyond 32 bits a write passes the end of the buffer exactly when not even the index fits or the key is usable |
| SessionKeys.BufferExactly | core/authentication/src/auth_session_key.c:235-236 | The computed buffer holds the frame if and only if the message is not within 32 bytes of 2^32; the longest message gets 31 bytes |
| SessionKeys.LongestMessageRunsOver | core/authentication/src/auth_session_key.c:228-249 | A failing input: the longest message under any usable key runs over its buffer |
| SessionKeys.EncryptData | core/authentication/src/auth_session_key.c:163-194 | Fills the buffer with index, vector, ciphertext and tag, in the source's order of writes and tests; what vector and frame hold byte by byte is `EncryptedIsSealed` and the contract of `EncryptInner` |
| SessionKeys.SessionKeyList.DecryptInner | core/authentication/src/auth_session_key.c:196-272 | Opens the frame with the key it names, or fails |
| SessionKeys.AesGcmEncrypt | adapter/common/mbedtls/softbus_adapter_crypto.c:48-88 | Vector, ciphertext and tag are written behind the index once the key is accepted, whatever the order of the copies |
| SessionKeys.AesGcmDecrypt | adapter/common/mbedtls/softbus_adapter_crypto.c:90-120 | Decrypts the pieces of the input unless key size or signed length forbid it |
| SequenceNumbers.CollisionsExactly | core/authentication/src/auth_common.c:43-60 | Numbers are nonnegative as 64-bit values, and two calls draw equal numbers, or numbers with equal lower 32 bits, if and only if they are a multiple of 8388607 calls apart on the same side |
| SequenceNumbers.ConsecutiveCallsDiffer | core/authentication/src/auth_common.c:43-60 | Any 8388607 consecutive calls with any mix of sides draw distinct numbers with distinct lower 32 bits |
| SequenceNumbers.NextPeriodRepeats | core/authentication/src/auth_common.c:43-60 | The bound is tight |
| SequenceNumbers.RemoteTakesOppositeRole | core/authentication/src/auth_common.c:68-72 | Parity gives the remote end the opposite role |
| SequenceNumbers.CounterClosed | core/authentication/src/auth_common.c:45-49 | The wrapping counter in closed form |
| SequenceNumbers.SeqIsSum | core/authentication/src/auth_common.c:50-54 | Shift, mask and or put the id above 24 bits of counter and side |
| SequenceNumbers.SequenceSource.constructor | core/authentication/src/auth_common.c:89-94 | The id is the microsecond part of the time |
| SequenceNumbers.SequenceSource.GetSeq | core/authentication/src/auth_common.c:43-60 | Call number n returns the id times 2^24 plus 2 (n mod 8388607) + 2, plus one on the server, so client numbers are even and server numbers odd |
| SendRate.WlanRateExact | components/nstackx/nstackx_congestion/core/nstackx_congestion.c:117-141 | For MTU 65 to 22369 and rates up to 2500 with one at least 8: every 32-bit intermediate equals its integer value, both shares are 1 to 999, the combined rate is at most either side's own, the packet count fits 16 bits and is at least 3 |
| SendRate.NoWrapExactly | components/nstackx/nstackx_congestion/core/nstackx_congestion.c:69-141 | For every admitted MTU and rates of which one reaches 8 Mbps, every intermediate is exact if and only if the scaled frame sizes of both sides stay below 2^32 |
| SendRate.ThetaExactly | components/nstackx/nstackx_congestion/core/nstackx_congestion.c:95-103 | For every MTU the share of air time is exact if and only if 1000 times MTU times frame count stays below 2^32 |
| SendRate.ThetaInRange | components/nstackx/nstackx_congestion/core/nstackx_congestion.c:95-103 | While the scaled size fits, the share is exact, positive and below 1000 |
| SendRate.ThetaBounds | components/nstackx/nstackx_congestion/core/nstackx_congestion.c:95-103 | For every admitted MTU, wrapped or not, the share is below 1000, and zero exactly when the reduced scaled size is smaller than the total size |
| SendRate.FirstUnsafeMtu | components/nstackx/nstackx_congestion/core/nstackx_congestion.c:95-103 | At MTU 22370 and the top rate the share comes out as 0 instead of 978 |
| SendRate.AssembleBound | components/nstackx/nstackx_congestion/core/nstackx_congestion.c:69-73 | At most 192 frames are assembled at negotiable rates |
| SendRate.CombinedBelowBoth | components/nstackx/nstackx_congestion/core/nstackx_congestion.c:130-131 | The combined rate is at most what either side reaches alone |
| SendRate.ComputableExactly | components/nstackx/nstackx_congestion/core/nstackx_congestion.c:128-131 | For every admitted MTU the formula divides by zero if and only if neither side has a share of air time left |
| SendRate.FittingSideSurvives | components/nstackx/nstackx_congestion/core/nstackx_congestion.c:95-131 | While its scaled size fits, a side keeps its share if and only if it reaches 8 Mbps |
| SendRate.DividesByZero | components/nstackx/nstackx_congestion/core/nstackx_congestion.c:128-131 | Two rates below 8 Mbps divide by zero at every MTU, and so do two rates of 2500 at MTU 22370 |
| SendRate.GetWlanSendRate | components/nstackx/nstackx_congestion/core/nstackx_congestion.c:117-141 | Refuses exactly invalid receive rates, divides by zero exactly when not computable, otherwise gives the clamped 16-bit packet count |
| SendRate.P2pRateExact | components/nstackx/nstackx_congestion/core/nstackx_congestion.c:143-164 | In the safe region the P2P count is exact and the 16-bit cap is never reached |
| SendRate.FasterSpeedExactly | components/nstackx/nstackx_congestion/core/nstackx_congestion.c:146-151 | The P2P speed times 8 is at most the larger transmit rate, which is below it plus 8 |
| SendRate.ShareNumbers | components/nstackx/nstackx_congestion/core/nstackx_congestion.c:69-103 | The frame count and the share of the air time, by the source's numbers: 8 frames per 100 Mbps, 277 microseconds, 44 bytes a frame, per thousand, each rounded down |
| SendRate.WlanNumbers | components/nstackx/nstackx_congestion/core/nstackx_congestion.c:117-141 | The combined rate of both directions and the packets per 5 ms at 2^20 bytes a second with 42 bytes of heads, each quotient rounded down |
| SendRate.P2pNumbers | components/nstackx/nstackx_congestion/core/nstackx_congestion.c:143-164 | The P2P rate and its packets, each quotient rounded down |
| SendRate.ClampedNumbers | components/nstackx/nstackx_congestion/core/nstackx_congestion.c:75-164 | At least three packets, and a fifth more up to 65535 |
| SendRate.GetP2pSendRate | components/nstackx/nstackx_congestion/core/nstackx_congestion.c:75-164 | Divides by zero exactly when a divisor is zero, otherwise gives the clamped, enhanced packet count of the faster transmitter |
| SendRate.GetCongestSendRate | components/nstackx/nstackx_congestion/core/nstackx_congestion.c:166-195 | Refuses exactly MTUs outside 65 to 65536, unknown connections and, on WLAN, receive rates outside 1 to 2500; at negotiable rates WLAN divides by zero if and only if neither side survives and P2P never, and where the scaled sizes fit the result is the clamped integer formula, at least 3 |

## Left out

- Progress under a given scheduler: no claim that a thread among others or a waiting peer eventually moves, only that a thread that moves alone finishes, that nothing is lost, that rest means settled, and that a smooth authentication run can always be completed.
- Weak memory: the barriers of the queue are taken to order all accesses.
- QueueSizeCalc and its cache-line rounding: arithmetic without a law of its own.
- The WiFi branch of the old handshake and the rest of the auth manager: it depends on callbacks that are not part of this model.
- The session list lookups by sequence number and connection: plain first-match scans.
- DupSessionKeyList, DestroySessionKeyList and the update timer of session keys.
- Hex coding of bytes: a table lookup per byte, independent of everything modelled here. The 32-bit flag helpers: their intended masks are unclear.
- The rate formulas for direct messages: the same shape as the WLAN formula.
- SessionKeys.SessionKeyList: the list is a sequence here, because the pointer ring is shown to refine one in IntrusiveList.
- Sockets, threads, timers, JSON, logging and the cipher itself.
