# A verified model of TinyHttpServer

TinyHttpServer is a C++ reactor in the style of muduo: an event loop over epoll, a timer queue on a 4-ary heap, TCP
connections with buffered output, a double-buffered asynchronous log, an HTTP request parser, a thread pool and a
wheel of buckets that closes idle connections. This project models those parts in Dafny and proves what each of them
keeps over every run.

| file | models |
|---|---|
| `SourceForm.dfy` | the choice between the source as written and as evidently meant |
| `CppArithmetic.dfy` | truncating division |
| `TimerNode.dfy`, `FourHeap.dfy` | `src/base/timernode.h`, `src/base/four_heap.cc`: sifts, index map, best-first search |
| `FourHeapAsWritten.dfy`, `FourHeapSearch.dfy` | exactly when the literal text of the heap keeps its order and answers a search |
| `TimerQueue.dfy` | `src/base/timerqueue.cc`: add, cancel, extend, expiry round, armed descriptor |
| `EventLoop.dfy` | `src/event/eventloop.cc`: functor hand-off and wakeups between threads |
| `Buffer.dfy` | `src/base/buffer.h`, `src/base/buffer.cc` |
| `TcpConnection.dfy` | the outgoing byte stream and half-close of `src/server/tcpconnection.cc` |
| `Lifecycle.dfy` | a connection across `src/server/tcpserver.cc`, `tcpconnection.cc`, `src/event/epoller.cc`, `channel.cc` |
| `Log.dfy` | `src/base/log.cc` after init |
| `HttpRequest.dfy`, `FormDecoding.dfy` | `src/http/httprequest.cc` |
| `ThreadPool.dfy` | `src/threadpool.h` |
| `IdleWheel.dfy` | `src/httpserver.cc`, `src/httpserver.h`, `src/server/entry.h` |

Objects used by one thread at a time are classes whose methods change their fields, each proved against a function of
the old state. Protocols between threads are state machines: one step is one critical section or one atomic access,
a step that is not enabled leaves the state alone, and so a theorem over all sequences of steps is a theorem over all
interleavings. What a run has sent, queued, logged or accepted is computed from its steps by functions of their own
(`KeptOf`, `TakenOf`, `QueuedOf`, `LinesOf`, `AcceptedOf`, `FinishedOf`, `AskedOf`) and compared with the state. Results of system calls, readings of the clock, what callbacks do and the order of equal deadlines are
arguments or left open.

## Where the source departs from its intent

The model follows the text, shows an input on which it fails, and states exactly when it does what is meant. Where the
meaning is plain, the meant form is modelled beside it, selected by `SourceForm.Form`.

- `src/base/four_heap.cc:31` and `:52`: `pos << 2 + 1` is `pos << 3`. What the literal sift keeps in order:
  `SiftIsOrderedIff`, and for reset and extend, replacement, removal `RetimedIsOrderedAsWrittenIff`,
  `RefitIsOrderedIff`, `RemovedIsOrderedIff`; when it gives the intended heap: `SiftsAgreeIff`, `SiftsAgreeBelowIff`;
  a failing heap: `LaterDeadlineIsNotSifted`.
- `src/base/four_heap.cc:73`: sift-up climbs one level. `PushIsOrderedIff`, `FrontAfterPushIff`, over whole runs of
  pushes `FrontAfterPushesIff`; a failing heap: `PushLosesTheFront`.
- `src/base/four_heap.cc:139-140`: pop does not sift. `PopIsOrderedIff`.
- `src/base/four_heap.cc:63`: the decrement at the root wraps, but narrows to -1, which ends the loop as meant.
  `ParentOfArgumentMeaning`.
- `src/base/four_heap.cc:178` and `:191`: get_k is max-first and looks for children nearer the root. It is right
  exactly when nothing below the root has expired, on any heap: `GetKIsRightIff`.
- `src/base/timerqueue.cc:150-154`: a repeating timer that a callback cancels once is reset through an absent index.
  `LookupKeepsIndexIff`, `RoundAsWrittenIff`.
- `src/base/timernode.h:27`: the interval is kept in whole seconds. `RepeatsAtItsIntervalIff`.
- `src/base/timerqueue.cc:147` says resets only lengthen; what they need is a deadline not earlier than the heap
  parent's: `RetimedIsOrderedIff`. A callback that extends its own timer breaks that: `ShortenedTimerStaysBehind`.
- `src/base/timerqueue.cc:130-143` never reads the timer descriptor, so it stays readable until it is set again, which
  a round does exactly when it leaves a timer: `HandleRead`, `Reset`, `RoundEmptiesIff`; the last one-shot timer is
  the failing input: `LastTimerIsNotRearmed`.
- `src/base/timerqueue.h:42-43`: the id counters are not initialised; the model starts them at 0.
- `src/event/eventloop.cc:92`: a quit before loop() is overwritten. `QuitSurvivesIff`, `QuitBeforeLoopIsOverwritten`.
- `src/event/eventloop.cc:158`: a functor that the loop thread queues while `calling_` is false and no drain is still to
  come does not wake the next poll: before loop(), and from destructors of the functors just run, at line 196, after
  line 195 has cleared `calling_`. `OwnPushIsSafeIff`; failing runs: `FunctorQueuedBeforeLoopWaits`,
  `FunctorQueuedOnReleaseWaits`.
- `src/server/tcpconnection.cc:211-216`: the half-close after draining never happens. `ShutdownTakesEffectIff`.
- `src/event/epoller.cc:84`: the assertion is inverted. `UpdateFailsIff`, `StoppedReadingCannotRestart`,
  `HangupAfterStopReadFails`.
- `src/server/tcpconnection.cc:337-355`: handle_close_ leaves `reading_` set, and both start_read and stop_read act on
  a closed connection and register its channel again; the destruction, a second close, or the channel's destructor
  (`src/event/channel.cc:15`) then fails its assertion. Exactly when an assertion fails: `EventFailsIff`, over whole runs
  `ConnectionFailsIff`, `DestroyFailsOnReadersIff`, `ReleaseFailsOnRegisteredIff`; failing runs:
  `StartReadAfterCloseFails`, `StopReadAfterCloseFails`, `StopReadAfterDestroyFails`.
- `src/event/channel.cc:43-69`: one poll result may reach handle_close_ through two handlers. `PollResultFailsIff`.
- `src/http/httprequest.cc:69-72`: a body without a line end stays in the buffer, and so does what follows the first
  line end of a body. `NothingIsLeftIff` says when nothing stays, `LeftoverIsHarmlessIff` that only then the next request
  is itself, and `LeftoverJoinsNextRequest` and `LeftoverLineComesFirst` what becomes of it.
- `src/http/httprequest.cc:194-199`: an escape is not decoded, and `:211`: the last pair of a form is dropped when its
  value is empty or its key came before. When the pairs come back all the same, for every list of pairs and every set
  of escaped characters: `DecodeInvertsPrintIff`, `DistinctPairsComeBackIff`; a failing form: `EscapeIsNotDecoded`.
- `src/threadpool.h:102-111`: without workers the destructor leaves tasks behind. `DestructorLeavesNothingIff`.

## Model

| member | source | states |
|---|---|---|
| `TimerNodes.RepeatsAtItsIntervalIff` | src/base/timernode.h:22-32 | a repeating timer comes back after its given interval iff that is a whole number of seconds |
| `TimerNodes.DueAt` | src/base/timerqueue.cc:15-22 | a descriptor never becomes readable before its timer or within 100 microseconds |
| `TimerNodes.TimeFromNow` | src/base/timerqueue.cc:15-26 | the seconds and nanoseconds set are in range and denote exactly the due instant |
| `FourHeaps.ParentOfArgumentMeaning` | src/base/four_heap.cc:63 | the machine arithmetic of the parent index, wrap at the root included, is -1 for the root and the 4-ary parent elsewhere |
| `FourHeaps.FrontIsMinimum` | src/base/four_heap.cc:121-124 | in an ordered heap no slot is earlier than the front |
| `FourHeaps.FrontIsMinimumOfContents` | src/base/four_heap.cc:121-124 | the front is a minimum over exactly the stored timers |
| `FourHeaps.MinChildPicks` | src/base/four_heap.cc:36-49 | the scan stops exactly when no scanned slot is earlier, and otherwise picks a minimum of them |
| `FourHeaps.SiftedDownOrdered` | src/base/four_heap.cc:27-57 | sift-down of a heap ordered around one slot restores order iff that slot is not earlier than its parent |
| `FourHeaps.SiftedUpOrdered` | src/base/four_heap.cc:59-77 | sift-up, as intended, restores order when only one slot is too early |
| `FourHeaps.RefittedOrdered` | src/base/four_heap.cc:90-93 | whatever is written into one slot, sifting down and else up restores order |
| `FourHeaps.RemovedOrdered` | src/base/four_heap.cc:79-94 | removing any position keeps order |
| `FourHeaps.PushedOrdered` | src/base/four_heap.cc:96-109 | pushing keeps order |
| `FourHeaps.RetimedIsOrderedIff` | src/base/four_heap.cc:158-163 | changing a deadline and sifting down keeps order iff the new deadline is not earlier than the parent's |
| `FourHeaps.SwapKeepsContents` | src/base/four_heap.cc:19-25 | swapping two slots with their index entries keeps the bijection and the stored collection |
| `FourHeaps.DropLastContents` | src/base/four_heap.cc:87-89 | dropping the last slot with its index entry removes exactly that timer |
| `FourHeaps.SearchIsComplete` | src/base/four_heap.cc:181-196 | every unvisited node has an ancestor in the frontier, so a frontier with nothing expired hides nothing expired |
| `FourHeaps.VisitCloses` | src/base/four_heap.cc:184-191 | visiting a frontier node moves the frontier to its children and nowhere else |
| `FourHeaps.PushChild` | src/base/four_heap.cc:191-195 | pushing the next child keeps every node at most once in queue or result |
| `FourHeaps.SearchResult` | src/base/four_heap.cc:170-198 | a search that stops on a later deadline has found exactly the expired timers, each once |
| `FourHeaps.PushChildren` | src/base/four_heap.cc:191-195 | after the loop the frontier is closed again and nothing in it precedes what was found |
| `FourHeaps.FourHeap.Clear` | src/base/four_heap.cc:13-17 | nothing stored, nothing indexed |
| `FourHeaps.FourHeap.Swap` | src/base/four_heap.cc:19-25 | new heap, same bijection and contents, in both forms |
| `FourHeaps.FourHeap.SmallestChild` | src/base/four_heap.cc:37-45 | the inner loop computes the minimal child |
| `FourHeaps.FourHeap.SiftDown` | src/base/four_heap.cc:27-57 | the loop computes the sift of the specification, counts zero iff nothing moved, and keeps bijection and contents |
| `FourHeaps.FourHeap.SiftUp` | src/base/four_heap.cc:59-77 | the loop computes the sift of its form and keeps bijection and contents |
| `FourHeaps.FourHeap.Destroy` | src/base/four_heap.cc:79-94 | the index stays a bijection and exactly the timer at the position goes |
| `FourHeaps.FourHeap.Push` | src/base/four_heap.cc:96-119 | stores or replaces exactly this timer, keeps the bijection, and order as intended |
| `FourHeaps.FourHeap.Front` | src/base/four_heap.cc:121-124 | a stored timer, minimal in a valid intended heap |
| `FourHeaps.FourHeap.Pop` | src/base/four_heap.cc:136-141 | removes exactly the front timer, keeps order as intended |
| `FourHeaps.FourHeap.Remove` | src/base/four_heap.cc:143-151 | answers whether the id was stored, and removes exactly it |
| `FourHeaps.FourHeap.Reset` | src/base/four_heap.cc:158-163 | changes exactly one deadline; a later one keeps order as intended |
| `FourHeaps.FourHeap.Extend` | src/base/four_heap.cc:200-208 | changes exactly one timer, by the function that `ExtensionsAddUp` pins down; a later deadline keeps order as intended |
| `FourHeaps.FourHeap.GetK` | src/base/four_heap.cc:170-198 | terminates, leaves the heap alone, and answers exactly the timers due at ts, each once, in deadline order |
| `FourHeapAsWritten.PushIsOrderedIff` | src/base/four_heap.cc:59-109 | as written a push keeps order iff the node stays, reaches the root in one step, or is not earlier than its grandparent |
| `FourHeapAsWritten.FrontAfterPushIff` | src/base/four_heap.cc:59-109 | as written front() stays a minimum after a push iff at most four timers were stored or the new one is not earlier than the front |
| `FourHeapAsWritten.FrontAfterPushesIff` | src/base/four_heap.cc:59-109 | after any run of pushes into an empty heap front() is a minimum iff no timer after the fifth is earlier than all of the first five |
| `FourHeapAsWritten.PushLosesTheFront` | src/base/four_heap.cc:59-77 | six timers for which it does not |
| `FourHeapAsWritten.PopIsOrderedIff` | src/base/four_heap.cc:136-141 | as written a pop keeps order iff the last timer is not later than the root's remaining children |
| `FourHeapAsWritten.SiftsAgreeIff` | src/base/four_heap.cc:27-57 | the literal sift gives the intended heap iff both pick the same slot at every step |
| `FourHeapAsWritten.SiftsAgreeBelowIff` | src/base/four_heap.cc:27-57 | from slot 2 on that is iff neither its children nor the four slots looked at are earlier |
| `FourHeapAsWritten.SiftIsOrderedIff` | src/base/four_heap.cc:27-57 | of a heap ordered off one slot the literal sift makes an ordered one iff along its path each taken timer fits between the parent and the other true children |
| `FourHeapAsWritten.RetimedIsOrderedAsWrittenIff` | src/base/four_heap.cc:158-208 | hence exactly when reset and extend as written keep order |
| `FourHeapAsWritten.RefitIsOrderedIff` | src/base/four_heap.cc:110-117 | and exactly when sifting down and else up does, for any timer written into any slot |
| `FourHeapAsWritten.RemovedIsOrderedIff` | src/base/four_heap.cc:79-94 | as written a removal keeps order iff the last timer fits into the freed slot |
| `FourHeapAsWritten.LaterDeadlineIsNotSifted` | src/base/four_heap.cc:158-163 | six timers on which a lengthened deadline breaks order |
| `FourHeapSearch.GetKIsRightIff` | src/base/four_heap.cc:170-198 | as written get_k always ends with the expired timers, each once, iff nothing below the root has expired, whatever the order of the heap |
| `FourHeapSearch.WrongRun` | src/base/four_heap.cc:181-196 | with an expired timer below the root there is a wrong answer or a run longer than any right one |
| `FourHeapSearch.RightRunsAreShort` | src/base/four_heap.cc:181-196 | on any heap a run that stops with the right answer takes at most two states more than there are timers |
| `FourHeapSearch.SearchStaysInSixSlots` | src/base/four_heap.cc:191-195 | as written no search ever looks beyond slot 5 |
| `TimerQueues.RoundOutcome` | src/base/timerqueue.cc:130-159 | for any callbacks: expired one-shot timers and cancelled repeating ones are gone, the other repeating ones are at reset time plus interval, all others are where the callbacks left them, and untouched ones keep their deadlines |
| `TimerQueues.CancelledHowOften` | src/base/timerqueue.cc:107-119 | during a round a timer is stored iff never cancelled, and in the cancel set iff cancelled at least twice |
| `TimerQueues.ExtensionsAddUp` | src/base/four_heap.cc:200-208 | callbacks that do not cancel a timer move its deadline by the sum of their extensions, each its own time or the interval, and the last one sets whether it repeats |
| `TimerQueues.AddedTimerIsStored` | src/base/timerqueue.cc:70-79 | a timer added by a callback has the next id, its delay from the callback's clock, whole seconds of it as interval and its flag, and stays unless a later action concerns it |
| `TimerQueues.AddedTimerOutlivesRound` | src/base/timerqueue.cc:130-155 | and is the same after the whole round |
| `TimerQueues.ExtendedTimerOutlivesRound` | src/base/timerqueue.cc:121-155 | so is a timer outside the batch, later by exactly its extensions |
| `TimerQueues.RoundAsWrittenIff` | src/base/timerqueue.cc:107-155 | as written a round resets only present ids iff no repeating timer of the batch is cancelled exactly once |
| `TimerQueues.LookupKeepsIndexIff` | src/base/four_heap.cc:158-163 | looking an id up with [] keeps the index a bijection iff the id is stored |
| `TimerQueues.ResetAllAt` | src/base/timerqueue.cc:145-160 | what the reset loop does to each timer of the batch |
| `TimerQueues.ResetAllElsewhere` | src/base/timerqueue.cc:145-160 | the reset loop leaves every timer outside the batch alone |
| `TimerQueues.BatchOfHeap` | src/base/timerqueue.cc:168-181 | the batch has distinct ids and holds exactly the stored timers that are due |
| `TimerQueues.RoundLengthens` | src/base/timerqueue.cc:145-155 | unless a callback extends a timer of the batch, no reset moves a deadline back |
| `TimerQueues.ShortenedTimerStaysBehind` | src/base/timerqueue.cc:147-154 | two timers on which one that does leaves an earlier deadline behind a later one |
| `TimerQueues.TimerQueue.Get` | src/base/timerqueue.cc:183-198 | every id is issued once, counting up |
| `TimerQueues.TimerQueue.ResetTimerfd` | src/base/timerqueue.cc:39-51 | the armed instant is the due instant of the timer |
| `TimerQueues.TimerQueue.AddTimerInLoop` | src/base/timerqueue.cc:97-105 | stores exactly the new timer and strands none |
| `TimerQueues.TimerQueue.AddTimer` | src/base/timerqueue.cc:70-79 | stores under the next id exactly a timer due at now plus the given time, with that flag and whole seconds of that time as interval; none stranded |
| `TimerQueues.TimerQueue.CancelTimerInLoop` | src/base/timerqueue.cc:107-119 | removes the timer or, during a round, records the id; none stranded |
| `TimerQueues.TimerQueue.ExtendTimerInLoop` | src/base/timerqueue.cc:121-128 | extends a stored timer, ignores others; none stranded |
| `TimerQueues.TimerQueue.RunCallbacks` | src/base/timerqueue.cc:136-139 | every callback of the batch acts once, in batch order |
| `TimerQueues.TimerQueue.Reset` | src/base/timerqueue.cc:145-166 | the reset loop; the descriptor is set to the new front's due instant if a timer is left, and else left alone |
| `TimerQueues.TimerQueue.HandleRead` | src/base/timerqueue.cc:130-143 | the batch is exactly the due timers in order, each callback runs once, the outcome is that of RoundOutcome, the descriptor is not late for the front, which is the earliest timer when no reset moved a deadline back, and a readable descriptor stays readable iff no timer is left (callbacks adding none) |
| `TimerQueues.RoundEmptiesIff` | src/base/timerqueue.cc:130-166 | callbacks that add nothing leave no timer iff every stored one was cancelled or is a one-shot timer of the batch |
| `TimerQueues.LastTimerIsNotRearmed` | src/base/timerqueue.cc:161-165 | one expired one-shot timer leaves none |
| `EventLoops.NoWakeupIsLost` | src/event/eventloop.cc:52-59 | in every interleaving a poll with pending functors or a quit has the eventfd readable or a thread about to write it, and the functors executed, in the batch and pending are those of all calls of queue_in_loop, each once in lock order |
| `EventLoops.Preserved` | src/event/eventloop.cc:87-196 | every atomic step keeps the invariant behind that |
| `EventLoops.EarlyOnlyWhileUnwoken` | src/event/eventloop.cc:152-196 | the proviso holds unless the loop thread queues a functor outside loop() or while it destroys the functors it ran |
| `EventLoops.OwnPushIsSafeIff` | src/event/eventloop.cc:87-196 | in every run a functor queued by the loop thread is slept on by the loop's next poll iff the thread was outside loop() or destroying functors, and no other wakeup was on its way |
| `EventLoops.QuitSurvivesIff` | src/event/eventloop.cc:52-97 | in every run the loop's next test finds a quit iff it was not written while the loop thread was outside loop() |
| `EventLoops.FunctorQueuedBeforeLoopWaits` | src/event/eventloop.cc:152-162 | a functor the loop thread queues before loop() sleeps through the first poll |
| `EventLoops.FunctorQueuedOnReleaseWaits` | src/event/eventloop.cc:182-196 | so does one that the destructor of an executed functor queues, through the next |
| `EventLoops.QuitBeforeLoopIsOverwritten` | src/event/eventloop.cc:87-93 | a quit before loop() is lost |
| `EventLoops.WokenLoopDrains` | src/event/eventloop.cc:93-106 | a poll with work is readable, and the loop's own steps then execute exactly the pending functors in order |
| `Buffers.Buffer.constructor` | src/base/buffer.h:20-25 | an empty queue behind the reserve |
| `Buffers.Buffer.Retrieve` | src/base/buffer.h:45-56 | drops a prefix of the queue, and restores the reserve when it empties it |
| `Buffers.Buffer.RetrieveUntil` | src/base/buffer.h:62-69 | keeps exactly the bytes from the given position on |
| `Buffers.Buffer.RetrieveString` | src/base/buffer.h:71-77 | what is returned, then what is left, is what was there |
| `Buffers.Buffer.Compact` | src/base/buffer.cc:12-22 | the overlapping copy in place keeps the queue |
| `Buffers.Buffer.MakeSpace` | src/base/buffer.cc:3-24 | makes room, keeps the queue, compacts iff both sides offer enough beyond the reserve; its assertion holds |
| `Buffers.Buffer.Append` | src/base/buffer.h:85-90 | appends to the queue |
| `Buffers.Buffer.Prepend` | src/base/buffer.h:92-98 | puts bytes before the queue |
| `Buffers.Buffer.Swap` | src/base/buffer.h:30-36 | exchanges two queues |
| `Buffers.Buffer.Shrink` | src/base/buffer.h:99-103 | keeps the queue in a new block |
| `Buffers.Buffer.ReadFd` | src/base/buffer.cc:26-50 | appends exactly the received bytes, spilled or not |
| `Buffers.Buffer.WriteFd` | src/base/buffer.cc:52-64 | drops exactly the written prefix |
| `TcpConnections.StreamIsConserved` | src/server/tcpconnection.cc:187-326 | for every pattern of partial writes and errors, of the messages sent while live and not to a peer found gone the kernel has exactly the bytes it said it took, and the buffer exactly the others in order; writing interest is on iff something waits, and nothing does after SHUT_WR |
| `TcpConnections.StatusIs` | src/server/tcpconnection.cc:142-326 | the status of any run from its steps alone: built, then shut down, then closed |
| `TcpConnections.Preserved` | src/server/tcpconnection.cc:187-326 | every step keeps the invariant behind that |
| `TcpConnections.HalfCloseIsFinal` | src/server/tcpconnection.cc:315-326 | after SHUT_WR nothing is sent, kept or buffered, whatever follows |
| `TcpConnections.ShutdownTakesEffectIff` | src/server/tcpconnection.cc:211-326 | as written a shutdown half-closes, now or ever, iff nothing was waiting when it was made |
| `TcpConnections.DrainedStreamIsHalfClosed` | src/server/tcpconnection.cc:211-216 | as intended a shut-down stream is half-closed iff it has drained |
| `TcpConnections.TcpConnection.BuildConnect` | src/server/tcpconnection.cc:142-151 | connects, ties the channel, starts reading, and calls back once, connected |
| `TcpConnections.TcpConnection.TrySend` | src/server/tcpconnection.cc:257-291 | what the direct attempt sent, and whether it failed for good |
| `TcpConnections.TcpConnection.Enqueue` | src/server/tcpconnection.cc:293-312 | buffers what was not taken, turns writing on iff something was not, posts the high-water task iff the mark is crossed |
| `TcpConnections.TcpConnection.SendInLoop` | src/server/tcpconnection.cc:245-313 | is the Send step, with exactly the tasks it posts |
| `TcpConnections.SendPostsIff` | src/server/tcpconnection.cc:266-312 | a send posts the high-water task iff it carries the backlog to the mark, with the new backlog, and the completion iff the kernel took all of it at once |
| `TcpConnections.TcpConnection.HandleWrite` | src/server/tcpconnection.cc:187-224 | is the WriteReady step, with exactly the tasks it posts; drops from the buffer what the kernel took and nothing else |
| `TcpConnections.TcpConnection.ShutdownInLoop` | src/server/tcpconnection.cc:315-326 | is the Shutdown step |
| `TcpConnections.TcpConnection.HandleClose` | src/server/tcpconnection.cc:226-238 | is the Close step, drops both interests, and calls the connection callback, disconnected, and then the close callback |
| `Lifecycles.ConnectionsLiveOnce` | src/server/tcpserver.cc:51-90 | in every run of loops and connections, as long as no assertion has failed on it: callback once up and once down, one erase that removes the one entry, at most one destruction, and a released connection is unknown to the poller |
| `Lifecycles.ConnectionFailsIff` | src/server/tcpconnection.cc:142-355 | in every run, in either form, an assertion has failed on a connection iff some step closed it again, destroyed it while it asked for input, released it while its channel was registered, or, as written, changed its interests while the poller had it marked DEL |
| `Lifecycles.EventFailsIff` | src/server/tcpconnection.cc:142-355 | the same for one event on a connection in any of its stages; otherwise it stays in one of them |
| `Lifecycles.DestroyFailsOnReadersIff` | src/server/tcpconnection.cc:153-164 | in every run destroy_connect meets a closed connection that writes nothing, and fails iff reading was started again |
| `Lifecycles.ReleaseFailsOnRegisteredIff` | src/event/channel.cc:12-18 | in every run the destructor of a connection meets status DISCONNECTED, and that of its channel fails iff the channel was registered again |
| `Lifecycles.EventPreserved` | src/server/tcpserver.cc:81-90 | and keeps the server's map in step with them |
| `Lifecycles.ConnectionIsAsAsked` | src/server/tcpserver.cc:51-90 | in every run, as long as nothing has failed on a connection, its status, interests, entry, destruction and release are exactly what its own events asked for |
| `Lifecycles.StatusNeverMovesBack` | src/server/tcpconnection.cc:142-355 | from any reachable state on, status only advances, whatever follows |
| `Lifecycles.NamesDiffer` | src/server/tcpserver.cc:56-57 | different connections have different keys |
| `Lifecycles.UpdateFailsIff` | src/event/epoller.cc:62-102 | as written updating a known channel fails iff it is marked DEL; as intended never |
| `Lifecycles.StartReadAfterCloseFails` | src/server/tcpconnection.cc:337-345 | starting to read between close and destruction fails an assertion in either form |
| `Lifecycles.StopReadAfterCloseFails` | src/server/tcpconnection.cc:347-355 | so does stopping to read after the close, at the next hang-up or, as written, at once |
| `Lifecycles.StopReadAfterDestroyFails` | src/server/tcpconnection.cc:347-355 | stopping to read after the destruction fails the channel's destructor in either form |
| `Lifecycles.HangupAfterStopReadFails` | src/event/epoller.cc:80-86 | as written a hang-up reported before another handler stopped reading fails |
| `Lifecycles.StoppedReadingCannotRestart` | src/event/epoller.cc:80-86 | as written reading that was stopped cannot start again |
| `Lifecycles.PollResultFailsIff` | src/event/channel.cc:37-75 | which poll results make an assertion fail: a second close, a hang-up without input but with urgent data or a half-closed peer whose read finds the end, or, as written, a close while marked DEL |
| `Logs.NothingLostIff` | src/base/log.cc:57-141 | for any interleaving file, taken, full and current buffers are all lines handed to append, in order, iff the part of them that has left the buffers holds no NUL |
| `Logs.NothingLost` | src/base/log.cc:57-141 | hence always for NUL-free lines |
| `Logs.RoundWritesAllClaimed` | src/base/log.cc:78-121 | whatever happens meanwhile, every line appended before a hand-over is in the file when the writer is back at its loop head |
| `Logs.WriterReturns` | src/base/log.cc:96-120 | from anywhere in its round the writer's own steps bring it back there |
| `Logs.OwnershipHolds` | src/base/log.cc:75-141 | no assertion fails, no empty slot is used, one owner a buffer, a current buffer always, empty buffers in reserve, both spares at the loop head |
| `Logs.RecyclePreserves` | src/base/log.cc:101-119 | recycling refills both spares with empty buffers |
| `Logs.TakePreserves` | src/base/log.cc:80-95 | the hand-over keeps text and ownership |
| `Logs.WritePreserves` | src/base/log.cc:96-100 | writing one buffer keeps text and ownership |
| `Logs.AppendPreserves` | src/base/log.cc:57-68 | appending keeps text and ownership |
| `Logs.RefreshPreserves` | src/base/log.cc:125-141 | so does a full buffer's replacement |
| `FormDecoding.DecodePrinted` | src/http/httprequest.cc:170-216 | what the decoder makes of any printed list of pairs, whatever was escaped |
| `FormDecoding.DecodeInvertsPrintIff` | src/http/httprequest.cc:170-216 | any list of pairs comes back iff no key and no surviving value holds an escaped character, and the last pair is new and not empty or repeats what its key came back with |
| `FormDecoding.DistinctPairsComeBackIff` | src/http/httprequest.cc:170-216 | with distinct keys and a non-empty last value: iff nothing was escaped |
| `FormDecoding.EscapeIsNotDecoded` | src/http/httprequest.cc:194-199 | a form with an escape that does not come back |
| `HttpRequests.RequestLineMatches` | src/http/httprequest.cc:98-112 | the request line matches exactly what the regular expression matches, with the same groups |
| `HttpRequests.HeaderMatches` | src/http/httprequest.cc:114-126 | so does a header line |
| `HttpRequests.ConsumesWholeLines` | src/http/httprequest.cc:36-77 | on any input parsing ends, has consumed whole lines only, and leaves the rest as it was |
| `HttpRequests.RejectedAtOnceIff` | src/http/httprequest.cc:49-55 | a parser, in whatever state, rejects iff it expects a request line and the first line is none, and then nothing changes |
| `HttpRequests.ParseInvertsPrint` | src/http/httprequest.cc:36-168 | parsing a printed request recovers its meaning, for every method and every body, of which the first line is read |
| `HttpRequests.NothingIsLeftIff` | src/http/httprequest.cc:69-73 | an accepted request leaves the buffer empty iff it has no body or a single terminated line |
| `HttpRequests.RoundTripWithoutForm` | src/http/httprequest.cc:36-134 | method, version, last-wins headers and body come back, the path through ParsePath_ |
| `HttpRequests.RoundTripOfOtherPost` | src/http/httprequest.cc:145-147 | a POST that is not a form comes back too, except that looking its content type up may add an empty one |
| `HttpRequests.RoundTripOfForm` | src/http/httprequest.cc:36-216 | through parser and decoder a posted form comes back as its pairs iff nothing was escaped, and the two login pages lead where the verifier says |
| `HttpRequests.LeftoverJoinsNextRequest` | src/http/httprequest.cc:69-73 | what stays without a line end makes the next request rejected if it holds a space, and else begins its method |
| `HttpRequests.LeftoverIsHarmlessIff` | src/http/httprequest.cc:69-73 | the next request comes out as it would alone, or even with its own outcome and method, iff nothing was left |
| `HttpRequests.LeftoverLineComesFirst` | src/http/httprequest.cc:43-55 | what stays with a line end in it decides by its own first line whether the next parse is rejected |
| `HttpRequests.HttpRequest.Init` | src/http/httprequest.cc:19-25 | a fresh request |
| `HttpRequests.HttpRequest.ParsePath` | src/http/httprequest.cc:79-96 | the path image |
| `HttpRequests.SevenPathsChange` | src/http/httprequest.cc:5-12 | exactly the root and the six page names are changed, to the page of the index and to their own, and pages stay as they are |
| `HttpRequests.LineWithoutColonEndsHeaders` | src/http/httprequest.cc:56-62 | a line without a colon ends the headers, and a body follows unless it is blank and the last |
| `HttpRequests.HttpRequest.ParseRequestLine` | src/http/httprequest.cc:98-112 | fills in the three groups, or changes nothing |
| `HttpRequests.HttpRequest.ParseHeader` | src/http/httprequest.cc:114-126 | adds the header, or goes on to the body |
| `HttpRequests.HttpRequest.ParseFromUrlencoded` | src/http/httprequest.cc:170-216 | the pass in place computes the decoder of the specification |
| `HttpRequests.HttpRequest.ParsePost` | src/http/httprequest.cc:145-168 | what a posted form changes |
| `HttpRequests.HttpRequest.Parse` | src/http/httprequest.cc:36-77 | refuses an empty buffer; otherwise the loop computes the parser of the specification, the rest of the buffer included: takes whole lines, rejects iff the first line is no request line when one is due, and reads back any printed request |
| `ThreadPools.TasksStartInOrder` | src/threadpool.h:46-66 | the tasks handed over before the stop are started in order, each once, or queued; each started one is finished or run by one worker; and a worker leaves only a stopped pool with an empty queue |
| `ThreadPools.TurnStartsNext` | src/threadpool.h:58-64 | a worker that takes the lock while tasks wait runs the next of them |
| `ThreadPools.NothingAcceptedAfterStop` | src/threadpool.h:86-98 | after stop nothing is accepted |
| `ThreadPools.NoTaskIsForgotten` | src/threadpool.h:58-64 | no task waits while all workers sleep, except between a push and its notification |
| `ThreadPools.EveryStepBringsTheEnd` | src/threadpool.h:102-111 | once stop is notified every worker step decreases the work, and until all have left a worker has a step |
| `ThreadPools.WorkersTerminate` | src/threadpool.h:102-111 | hence the workers' steps are bounded and the joins return |
| `ThreadPools.DestructorLeavesNothingIff` | src/threadpool.h:102-111 | when all have left, everything handed over before the stop has been run to its end, once, iff there was a worker or nothing came |
| `IdleWheels.AliveIff` | src/httpserver.h:46 | an entry is alive iff fewer than three ticks have passed since its last activity |
| `IdleWheels.TurnEvictsIff` | src/httpserver.h:46 | a tick evicts exactly the entries whose third idle tick it is |
| `IdleWheels.InsertRefreshes` | src/httpserver.cc:9-12 | inserting at the back records activity now |
| `IdleWheels.IdleWheel.Connected` | src/httpserver.cc:31-47 | a new entry, active now |
| `IdleWheels.IdleWheel.Message` | src/httpserver.cc:4-16 | refreshes a live entry and never revives a dead one |
| `IdleWheels.IdleWheel.OnTime` | src/server/entry.h:20-27 | shuts down exactly the entries on their third idle tick, each once ever |

## Left out

- System calls, sockets, epoll, clocks and threads themselves: each result is an argument or an open choice.
- MySQL: the verdict of UserVerify is an argument of the parser.
- HttpResponse, HttpContext, Acceptor, InetAddress, SocketServer, EventLoopThread, EventLoopThreadPool: plumbing
  around the modelled parts.
- TcpServer's destructor and force_close: `src/server/tcpconnection.cc:331` can never hold, and destruction leaves a
  connection DISCONNECTING.
- Machine integers are unbounded except in `ParentOfArgument`; float intervals are whole microseconds.
- TimerQueue's del_ is never called and is not modelled.
- `TimerQueues.TimerQueue.AddTimer`: is the call on the loop's own thread; from another thread the id comes at once and
  the timer with a task of the loop, and the id pool, which the source does not lock, is not modelled as shared.
- `TimerQueues.TimerQueue.HandleRead`: states heap order afterwards when no reset moves a deadline back
  (`RoundLengthens`); for a single reset `RetimedIsOrderedIff` is exact. Contents, index and armed descriptor are
  stated without the proviso. It contains the repair of line 150.
- `TimerQueues.TimerQueue.Reset`: contains the same repair; `RoundAsWrittenIff` says when the text does the same.
- `FourHeaps.FourHeap.GetK`: is the intended search; the literal one need not end, and is the relation of
  `FourHeapSearch`.
- The four protocols between threads (event loop, log, connection lifecycle, thread pool) are values changed by steps,
  not objects: update in place is not captured there, interleaving is. Tasks handed between loops may be taken in
  any order there, which includes the order of the source.
- Log: init after the first messages discards what is buffered, stop leaves the last buffer unwritten, and time
  stamps are text like any other; none of the three is modelled.
- Buffers of the parser and of the log are strings here, not `Buffers.Buffer` objects; the output buffer of a
  connection is one.
- `TcpConnections.HalfCloseIsFinal`: takes it that after SHUT_WR the kernel answers EPIPE to every non-empty write; a
  pending error such as ETIMEDOUT may come first, and lines 286-311 would then buffer the message.
- A start_read or stop_read requested from another loop carries a bare pointer; one that runs after the connection is
  released is not part of the model.
- Raw pointers: send() from another thread passes a pointer to memory it does not own; the model passes the bytes.
- `HttpRequests.HttpRequest.ParseFromUrlencoded`: claims nothing for an escape that reaches past the end of the body,
  which C++ leaves undefined; the outcome is then `Undefined`.
- Requests split over several reads or pipelined: the parser starts afresh on every read.
- Idle wheel: its buckets are used by one thread, as the source must but does not ensure.
