# A verified model of the libcortex core

libcortex is an event loop library written in C. This project models its core in Dafny and proves what the
code keeps over whole runs, over all inputs and over all interleavings. `dafny verify dfyconfig.toml` checks
everything.

Code that changes state step by step is modelled in two ways. Where one call is the unit, a class has the
fields of the C structure, and its methods are proved against functions of the old state. Where calls nest
or run concurrently, a state machine has one action per critical section or per piece of code between two
callbacks; a run is any sequence of enabled actions (`Runs`), and event handlers, clocks, `epoll_wait()`,
other threads and the kernel are the environment that chooses them. Nested activations are kept on an
explicit stack.

| file | part of libcortex |
|---|---|
| `EpollLoop.dfy` | the re-entrant loop of `src/epoll.c` |
| `EpollTimeout.dfy` | deadlines: setting, firing, and the argument of `epoll_wait()` |
| `EpollInterest.dfy` | the interest set in the kernel and the calls that enable, disable and remove callbacks |
| `EventRefs.dfy` | the two reference counts of an event |
| `GraphQueue.dfy` | queueing, claiming and retiring the events of a graph |
| `ListenerShutdown.dfy` | the delayed destruction of a listener |
| `TaskGraph.dfy` | the list of the tasks of a graph and its traversal |
| `Cache.dfy` | the cache in front of the other tasks of a graph |
| `ThreadPool.dfy` | the hand-off of jobs to pool threads |
| `DictRefs.dfy` | reference counts of nested dictionaries |
| `DictCompare.dfy` | the comparison of dictionary items |
| `DictWire.dfy` | writing dictionaries to a stream and reading them back |
| `Signals.dfy` | the table of signal subscriptions |
| `SchedMachine.dfy` | state machines whose transitions the loop runs |
| `Checksum.dfy` | the Internet checksum (RFC 1071, sections 1 and 2) and the ping packets |
| `LinkedList.dfy` | the singly and the doubly linked lists |
| `Sequences.dfy`, `Runs.dfy` | sequences without duplicates; runs of a state machine |

## Where the code falls short of the expected property

Each of these is stated as a lemma with the exact condition, or with an input that shows it.

- The drain loop reads the slot of an event once per callback. If a handler runs the loop and the nested wait
  writes the slot, the next callback on the same descriptor is shown the other event (`CallbackSeesItsEventIff`).
- A configured timeout of the loop is milliseconds for `epoll_wait()` but nanoseconds for the scan of the
  deadlines, and deadlines above the cap of the scan are slept for too long or never looked at. Whether the
  earliest deadline of any number of callbacks is overslept is decided exactly
  (`OversleepsWithConfiguredTimeoutIff`, `OversleepsAboveCapIff`).
- A disabled deadline is not slept for, but it is delivered if and only if a turn of its callback comes after
  it, the callback is active and asks for timeouts (`DisabledDeadlineFiresIff`). An enabled deadline is slept for
  in any case, but it is cleared without ever being delivered if and only if the callback is inactive or does not
  ask for timeouts (`EnabledDeadlineIsLostIff`): setting a deadline does not add the flag.
- Deadlines of callbacks that ask for nothing that epoll can watch are ignored (`ScannedIffRegistrable`).
- The `unsigned char` count of an event is the number of holders all the time if and only if there are never
  more than 255 (`CountIsExactIffAtMost255`); with 256 the event can be freed while it is held
  (`FreedWhileHeldWith256`).
- An invalidated event that is still queued is never claimed. A delayed shutdown can still be completed if and
  only if no queued event was invalidated (`DelayedShutdownCanCompleteIff`). The branch of
  `crtx_shutdown_listener()` for a repeated request is dead code (`RepeatedRequestIsIgnored`).
- A task that becomes the new head of a list leaves the old head without a `prev` pointer (`AddTask`).
- A task that is skipped because it does not match the event is cleaned up all the same
  (`CleanedUpUnhandledIff`), and its cleanup is given session data that nobody set: what the cleanups are given
  is determined if and only if every visited task with a cleanup was handled (`SessionsAreSetIff`).
- Appending the last node of a doubly linked list again makes its `prev` pointer point to itself
  (`DoublyLinked.Append`).
- The end of a started job can be missed if and only if its client took no reference on the end signal
  (`EndCanBeMissedIffUnreferenced`); such a client can wait for ever (`UnreferencedClientCanMiss`).
- A leave callback of a state machine gets the new state as its argument, and if it runs the loop the
  callbacks are no longer bracketed (`LoopInLeaveBreaksTheTraceUnless`).
- A string whose size is below its length is truncated by writing and reading; everything else is restored
  (`RestoredIffSizesSuffice`).
- A stream that is cut inside the nested dictionary of its last item is accepted, with that dictionary null or
  incomplete; every other cut is refused (`CutStreamIsAcceptedIff`).
- Items without a known type, and missing strings, are not equal to themselves (`EqualToItselfIff`).
- A traversal nested in another one with the same key gives the cache two entries for it
  (`NestedTraversalsDuplicateKeys`). Over all overlapping traversals, keys stay unique if and only if none that
  missed and was answered ends after its key was added (`KeysUniqueIffNoLateEnd`).
- The ping receiver refuses a stored checksum of 65535 where the computed one is 0, which RFC 1071 takes as
  the same sum (`ReceiverIsStricterOnlyFor65535`), and it does not recognise the answer to its last packet
  when the 16-bit count has just wrapped (`PingAndAnswer`).

## Model

| member | source | states |
|---|---|---|
| `EpollLoop.EachEventIsDispatchedOnceInOrder` | src/epoll.c:201-311 | In every run, for any nesting of handlers that enter the loop, ready events are taken for dispatch in the order in which the waits returned them, none twice, and all of them once no frame is left unless the loop was stopped or closed after a fork |
| `EpollLoop.WaitOverwritesNothing` | src/epoll.c:351-360 | Whenever a frame may call epoll_wait() nothing that an earlier wait returned is still undispatched, and a one-shot frame has not waited before |
| `EpollLoop.OneShotFramesWaitAtMostOnce` | src/epoll.c:351-356 | No frame on the stack that was entered with onetime set has waited more than once |
| `EpollLoop.FrameReturnsIff` | src/epoll.c:201-476 | In every run an activation of the loop returns if and only if it has a reason: a fork or a stop, a failed wait, a wait without events while phased out, or, for a one-shot frame, work done in its pass or its wait done |
| `EpollLoop.LoopEndsOnlyForAReason` | src/epoll.c:201-476 | Once crtx_loop() was called it does not return in any run without a stop, a fork, a phase-out or a failed wait, whatever handlers do and however many waits return nothing |
| `EpollLoop.OneShotReturnsAfterWork` | src/epoll.c:339-356 | Undisturbed and with nothing outstanding, a one-shot frame returns at the end of its pass if it ran a handler or a timeout callback or has waited, and waits otherwise; other frames wait in any case |
| `EpollLoop.FramesGoOn` | src/epoll.c:201-476 | The innermost activation is never held up, and goes on to the next phase of the pass unless it has a reason to return |
| `EpollLoop.EnteringPushesUnless` | src/epoll.c:201-262 | Wherever user code runs it can enter the loop, and does unless the loop is stopped, closed or phased out |
| `EpollLoop.FlagsStay` | src/epoll.c:201-476 | Stopping, closing and phasing out are never undone and change nothing else |
| `EpollLoop.CallbackSeesItsEventIff` | src/epoll.c:228-311 | A callback is shown the event that it is called for if and only if no wait under it has written the slot again |
| `EpollLoop.SecondCallbackSeesForeignEvent` | src/epoll.c:283-305 | A concrete run in which the second callback of a descriptor gets the event of a nested wait |
| `EpollTimeout.NextWait` | src/epoll.c:362-433 | The nested scan loops with their early exits compute the fold over all callbacks of all descriptors, and the millisecond argument derived from it |
| `EpollTimeout.ScanIsEarliestDeadline` | src/epoll.c:362-420 | With the default timeout and deadlines within the cap, the scan yields the time to the earliest enabled deadline, zero if it has passed, and decides nothing if none is enabled |
| `EpollTimeout.BlocksForEverIff` | src/epoll.c:414-433 | While phased out a wait does not block; otherwise, with the default timeout, it blocks without limit if and only if no deadline is enabled |
| `EpollTimeout.CallbacksTakeMinimum` | src/epoll.c:376-412 | For the callbacks of one descriptor the result is the minimum of what was there and all enabled delays, and is one of them |
| `EpollTimeout.LaterIsSum` | src/epoll.c:390-397 | Comparing a deadline with the later timestamp agrees with comparing nanosecond counts although exactly one second of nanoseconds is not carried |
| `EpollTimeout.WaitIsBounded` | src/epoll.c:416-433 | A decided wait is at least 1 ms, fits in int32_t, and is the delay rounded down to milliseconds otherwise |
| `EpollTimeout.OversleepsAboveCapIff` | src/epoll.c:362-433 | Default timeout, any descriptors and callbacks with normalised deadlines: the loop oversleeps the earliest enabled deadline if and only if that is above the cap and nearer than the longest wait, or beyond the range of the scan |
| `EpollTimeout.OversleepsWithConfiguredTimeoutIff` | src/epoll.c:362-433 | Any configured timeout, any descriptors and callbacks: the earliest enabled deadline is overslept if and only if it lies between that many nanoseconds and milliseconds, or is above the cap and nearer than the nanoseconds |
| `EpollTimeout.EarliestSettles` | src/epoll.c:373-412 | What the scan carries at the end, whatever else is scanned, is determined by the earliest enabled deadline |
| `EpollTimeout.RelDeadlineIsNormalisedSum` | src/evloop.c:76-100 | A relative deadline is normalised and equals now plus the given time, its seconds saturating at the range of time_t |
| `EpollTimeout.RelDeadlineIsSleptExactly` | src/evloop.c:76-100 | A relative deadline within the cap, scanned at once, is slept for exactly as long as was asked |
| `EpollTimeout.EvloopCallback.SetTimeoutRel` | src/evloop.c:76-100 | The branches of the setter store the saturating sum |
| `EpollTimeout.EvloopCallback.SetTimeoutAbs` | src/evloop.c:41-74 | An absolute deadline is stored as it is for the default clock and turned into a relative one for another clock |
| `EpollTimeout.AbsDeadlineIsNormalised` | src/evloop.c:60-66 | An absolute deadline is normalised and equals the given microseconds, its seconds saturating at the range of time_t |
| `EpollTimeout.FireTimeouts` | src/epoll.c:316-347 | The nested loops take the callbacks of all descriptors in order up to one whose handler closes the loop. In nanoseconds: exactly the handlers of active callbacks that ask for timeouts and whose deadline is set and earlier than now run; every such deadline is cleared or is what its handler set, and all others stay as they were |
| `EpollTimeout.PassedIsPast` | src/epoll.c:322-326 | The comparison of the timestamps says that a deadline has passed if and only if it is set and its nanoseconds are fewer than those of now |
| `EpollTimeout.HandlerRunsIff` | src/evloop.c:153-157 | In a pass a handler runs if and only if its turn is reached, its timestamp has passed, its callback is active and asks for timeouts; enabled or not plays no part |
| `EpollTimeout.DeliveredIff` | src/epoll.c:320-347 | Over any number of passes a deadline is delivered if and only if a turn comes after it and its callback is active and asks for timeouts, and is cleared if only the last two fail |
| `EpollTimeout.DisabledDeadlineFiresIff` | src/epoll.c:322-337 | A disabled deadline makes no difference to the scan, and is delivered if and only if a turn comes after it and its callback is active and asks for timeouts |
| `EpollTimeout.DisabledDeadlineStillFires` | src/evloop.c:102-104 | Setting, disabling and passing a deadline runs the handler if and only if the callback is active and asks for timeouts |
| `EpollTimeout.EnabledDeadlineIsLostIff` | src/evloop.c:153-157 | The earliest enabled deadline is slept for exactly; once a turn came after it, it has been cleared undelivered if and only if its callback is inactive or does not ask for timeouts |
| `EpollInterest.EventLoop.ManageFd` | src/epoll.c:130-191 | Brings kernel mask, fd_added, el_data and membership in evloop->fds back in step with the union of the masks of the active callbacks for one descriptor, leaving all others in step |
| `EpollInterest.EventLoop.CreateCallback` | src/evloop.c:249-282 | A new callback joins the list of its descriptor and leaves everything in step |
| `EpollInterest.EventLoop.EnableCb` | src/evloop.c:318-350 | Keeps everything in step after a callback became active |
| `EpollInterest.EventLoop.DisableCb` | src/evloop.c:352-363 | Keeps everything in step after a callback became inactive |
| `EpollInterest.EventLoop.RemoveCb` | src/evloop.c:365-385 | Keeps everything in step and takes the callback off the list of its descriptor |
| `EpollInterest.WantedFlags` | src/epoll.c:130-150 | A flag is in the union if and only if some active callback asks for it |
| `EpollInterest.RegisteredFlagsComeBack` | src/epoll.c:71-110 | Translating flags to those of epoll and back gives exactly the ones that can be registered |
| `EpollInterest.ToEpollMember` | src/epoll.c:71-86 | Which flag of epoll stands for which flag of the loop; nothing else is registered |
| `EpollInterest.FromEpollMember` | src/epoll.c:88-110 | Which flags a ready event reports, errors and hang-ups included although they are never registered |
| `EpollInterest.KernelWatchesWhatIsAskedFor` | src/epoll.c:71-86 | The kernel watches a descriptor for a flag if and only if an active callback asks for it, unless the kernel refused the last attempt to add it |
| `EpollInterest.ScannedIffRegistrable` | src/epoll.c:130-191 | A descriptor is in the list whose deadlines the loop looks at if and only if an active callback asks for a flag with an epoll counterpart |
| `EventRefs.CountIsNumberOfHolders` | src/core.c:910-934 | Over all interleavings with at most 255 holders the count is the number of holders, the event is freed at most once, never while held, and nothing happens to it afterwards |
| `EventRefs.LastReferenceFrees` | src/core.c:981-1005 | Once the last reference is gone exactly one agent frees the event, or has freed it, in at most four steps none of which can be refused |
| `EventRefs.FreedAtMostOnce` | src/core.c:981-1005 | In every run with any number of holders, even where a count has wrapped, at most one agent is past the compare-and-swap and the event is freed at most once |
| `EventRefs.WaitReturnsWhenTraversed` | src/core.c:936-979 | crtx_wait_on_event() returns only when no traversal holds a response reference or the event was invalidated |
| `EventRefs.WaitReturnsIff` | src/core.c:936-979 | The wait of a holder returns if and only if no traversal holds a response reference or the event was invalidated |
| `EventRefs.AgentsAreNotHeldUp` | src/core.c:910-979 | What an agent can do depends on its own references only, except that a new reference needs another holder or to be the first |
| `EventRefs.StepsChangeOnlyOneReference` | src/core.c:910-979 | Each call takes or gives back the one reference of its agent; an invalidation releases every waiter |
| `EventRefs.ManyPosters` | src/core.c:910-917 | After n references the count is n modulo 256 |
| `EventRefs.FreedWhileHeldWith256` | src/core.c:919-934 | A run with 256 holders that frees the event while 255 hold it |
| `EventRefs.CountIsExactIffAtMost255` | src/core.c:910-934 | In every run the count is the number of holders after every step if and only if there were never more than 255 holders |
| `GraphQueue.Graph.ClaimNext` | src/core.c:595-607 | Nothing is claimed if and only if every queued event is invalidated; a claimed event is valid and overtakes only invalidated ones; conservation and order are kept |
| `GraphQueue.Graph.AddEvent` | src/core.c:786-812 | Queueing or dropping is a step of the runs below, so that every accepted event stays in one place and the new one is younger than all others |
| `GraphQueue.Graph.Retire` | src/core.c:634-639 | The graph is reported as drained if and only if every event that was ever accepted has been retired; conservation and order are kept |
| `GraphQueue.EventsAreConserved` | src/core.c:595-659 | In every reachable state each accepted event is in exactly one of equeue, claimed and retired, once |
| `GraphQueue.ClaimsAreFifo` | src/core.c:595-607 | Claims are in the order of acceptance, an event that was overtaken is invalidated, and the queue keeps its order |
| `GraphQueue.WaitReturnsWhenAllRetired` | src/core.c:776-783 | crtx_wait_on_graph_empty() returns only when both lists are empty and every accepted event was retired |
| `GraphQueue.WaitReturnsIffAllRetired` | src/core.c:776-783 | The wait for an empty graph returns if and only if every accepted event was retired |
| `GraphQueue.InvalidatedEventIsNotClaimed` | src/core.c:595-607 | A queued event that is invalidated in a run is claimed by no later step and stays queued |
| `ListenerShutdown.DestroyedAtMostOnceAndEmpty` | src/core.c:458-562 | In every run, with shutdowns requested anywhere including from handlers, the listener is destroyed at most once and only with both lists empty |
| `ListenerShutdown.RequestIsCarriedOut` | src/core.c:470-562 | In every reachable state without an earlier request, a request that is not refused ends, after the shutdown callback, in destruction if and only if no event is pending, and in a delayed shutdown otherwise |
| `ListenerShutdown.RefusedRequestOnlyStops` | src/core.c:470-505 | A refused request leaves the listener stopping and everything else as it was |
| `ListenerShutdown.EventsAreProcessed` | src/core.c:595-659 | In every reachable state events are accepted until the destruction, one is processed if and only if a valid one is queued, and what was begun can be finished |
| `ListenerShutdown.EventsPassThrough` | src/core.c:595-659 | An added event is pending behind the others, a claimed one was queued and valid, and a finished one leaves the lists |
| `ListenerShutdown.InvalidatedEventIsNotClaimed` | src/core.c:595-607 | A queued event that is invalidated stays queued in every run, and the listener is not destroyed |
| `ListenerShutdown.DelayedShutdownCompletes` | src/core.c:634-652 | A delayed shutdown has been completed if and only if nothing is pending, so the step that retires the last event completes it |
| `ListenerShutdown.RepeatedRequestIsIgnored` | src/core.c:470-562 | A request after the first one changes nothing |
| `ListenerShutdown.InvalidatedEventBlocksDestruction` | src/core.c:595-607 | A listener with an invalidated event in its queue is never destroyed, whatever follows |
| `ListenerShutdown.DelayedShutdownCanCompleteIff` | src/core.c:595-652 | In every reachable state with a delayed shutdown some further run destroys the listener if and only if no queued event was invalidated |
| `TaskGraph.TaskList.AddTask` | src/core.c:677-712 | The new task stands behind all tasks with the same or a smaller position and in front of the first with a greater one; prev stays the inverse of next unless the task becomes the head of a list that was not empty |
| `TaskGraph.TasksAreSortedStably` | src/core.c:677-712 | The order of the added tasks has each of them once, by position and, for equal positions, by addition |
| `TaskGraph.AddAll` | src/core.c:677-712 | Adding any tasks one by one to an empty graph leaves a list of exactly these tasks in that order |
| `TaskGraph.PlaceIsFirstAbove` | src/core.c:692-706 | The place of a new task is the first one with a greater position |
| `TaskGraph.Traverse` | src/core.c:565-589 | Following the next pointers computes the walk over the sequence of tasks |
| `TaskGraph.WalkVisitsPrefix` | src/core.c:565-589 | A walk makes the handle calls of a prefix in order, then the cleanups of exactly that prefix in reverse order |
| `TaskGraph.VisitedEndsAtFirstStop` | src/core.c:575-582 | The prefix ends at the first task that stops with a response, or with the list |
| `TaskGraph.WalkCarriesOutItsCalls` | src/core.c:565-589 | The world after the walk is what carrying out its calls one after the other makes of it, each cleanup with the session data that the handler of its task left |
| `TaskGraph.HandledIffMatches` | src/core.c:569-573 | A task with a handler is handled if and only if it is visited and its match is missing or equal to the description of the event |
| `TaskGraph.SkippedTaskDoesNotStop` | src/core.c:566-582 | The walk never ends at a task that is skipped |
| `TaskGraph.CleanedUpUnhandledIff` | src/core.c:569-588 | A task is cleaned up without having been handled if and only if it is visited, has a cleanup and does not match |
| `TaskGraph.UnsetSessionDoesNotMatter` | src/core.c:566-588 | If every visited task with a cleanup was handled, the walk does not depend on what session data hold before they are set |
| `TaskGraph.SessionsAreSetIff` | src/core.c:566-588 | What the cleanups are given is the same for any former content of the session data if and only if every visited task with a cleanup was handled |
| `Cache.CacheTask.Match` | src/cache.c:23-43 | The loop finds the first entry with the key |
| `Cache.CacheTask.TaskHandler` | src/cache.c:140-234 | On a hit the response is the entry with the key of the entry and the walk stops; on a miss, or without a key, it goes on |
| `Cache.CacheTask.TaskCleanup` | src/cache.c:400-427 | An entry is added after a miss with a response, and only then |
| `Cache.CachedTraversal` | src/cache.c:140-304 | Whole traversal: on a hit the other tasks are not reached and the response is that of the entry, on a miss it is that of the other tasks and becomes a new entry |
| `Cache.OthersLeaveCacheAlone` | src/core.c:565-589 | Behind the cache the other tasks do with an event what they do without a cache |
| `Cache.KeysStayUnique` | src/cache.c:236-304 | After any events no two entries have the same key |
| `Cache.EntriesAreAnswers` | src/cache.c:236-304 | Every entry holds the answer that the other tasks gave to an event with its key |
| `Cache.HitGivesBackWhatWasStored` | src/cache.c:108-133 | The response to a hit has the value of an earlier answer to the key, its size if it is a string and 0 otherwise, and the key of the entry |
| `Cache.ReachesOthersIff` | src/cache.c:140-234 | An event reaches the other tasks if and only if it has no key or no earlier event with its key was answered |
| `Cache.TransparentIffKeyDetermines` | src/cache.c:108-427 | For all sequences of events every response has the type and value that the graph without the cache gives, if and only if those depend on the key only |
| `Cache.NestedTraversalsDuplicateKeys` | src/cache.c:140-427 | A reachable run in which a traversal nested in another one with the same key leaves two entries |
| `Cache.KeysUniqueIffNoLateEnd` | src/cache.c:140-427 | For all runs of traversals that overlap in any way, keys stay unique if and only if no traversal that missed and was answered ends after its key was added |
| `ThreadPool.NoThreadHoldsTwoJobs` | src/threads.c:290-338 | In every interleaving, clients with unfinished jobs have different threads, and a client finds the thread that it took without job, pending signal or reference |
| `ThreadPool.JobsRunAtMostOnce` | src/threads.c:218-258 | A job is called at most once, only after it was started |
| `ThreadPool.NoStaleStart` | src/threads.c:218-258 | A waiting thread that sees the start signal has a job that was started and not called |
| `ThreadPool.ReferencedClientCannotMiss` | src/threads.c:65-76 | While a client holds its reference its thread stays with it, and the end signal stays set once it was sent |
| `ThreadPool.ReferencedClientsWaitReturns` | src/threads.c:78-124 | Once the job of a client with a reference has returned, its wait returns at once or after the next step of its thread, which nothing holds up |
| `ThreadPool.StartedJobCompletes` | src/threads.c:218-258 | From every reachable state the thread alone brings a started job of a client with a reference to its end, and the wait returns |
| `ThreadPool.ClientsAreNotHeldUp` | src/threads.c:65-124 | In every reachable pool what a client can do depends on how far it is, and its wait on the end signal only |
| `ThreadPool.SpawnsIffAllInUse` | src/threads.c:290-325 | A client takes the first thread that is not in use, and a thread is spawned if and only if all are |
| `ThreadPool.WaitReturnsAfterOwnJob` | src/threads.c:78-124 | A wait for the end returns only after the client's own job returned |
| `ThreadPool.ThreadIsHeldUpOnlyByItsClient` | src/threads.c:65-76 | A thread cannot go on if and only if it lacks the start signal or its own client holds a reference at the end |
| `ThreadPool.EndCanBeMissedIffUnreferenced` | src/threads.c:65-76 | For every reachable pool and every client that started its job: some run without the client leads to its job being over, its end signal gone and its wait blocked, if and only if it holds no reference |
| `ThreadPool.UnreferencedClientCanMiss` | src/threads.c:218-258 | A run of a client that uses assign, start and wait without a reference, after which no step is possible |
| `DictRefs.Heap.Release` | src/dict.c:1469-1480 | Giving up a handle frees exactly the dictionaries that no remaining handle reaches, each once, leaves the items of the others alone and makes every count exact again |
| `DictRefs.Heap.Unref` | src/dict.c:1469-1480 | The recursive call terminates on heaps without cycles, touches nothing that was freed and keeps the counts exact while enclosing calls are half way through |
| `DictRefs.Heap.FreeDict` | src/dict.c:468-490 | All items up to the last flag are released before the memory is freed |
| `DictRefs.Heap.FreeItemData` | src/dict.c:441-466 | The reference of one item is given up and the item cleared |
| `DictRefs.Heap.AddRef` | src/dict.c:1463-1467 | A new handle is counted |
| `DictRefs.Heap.InitDict` | src/dict.c:295-324 | A new dictionary has one handle and empty items, the last of them flagged |
| `DictRefs.Heap.StoreInItem` | src/dict.c:199-223 | A handle becomes an item slot and the counts stay exact |
| `DictRefs.SurvivorsAreTheReachable` | src/dict.c:468-490 | In a consistent heap a dictionary is still in memory if and only if a path of slots led to it from a remaining handle |
| `DictRefs.CountedIsReachable` | src/dict.c:1469-1480 | With exact counts and no cycles everything counted is reachable from a handle |
| `DictCompare.CmpItem` | src/dict.c:1217-1261 | The loop over two item iterators computes the lexicographic comparison |
| `DictCompare.NumbersByValue` | src/dict.c:1232-1239 | Numbers of one type are in the order of their values |
| `DictCompare.DifferentTypesByLetter` | src/dict.c:1217-1225 | Items of different types are in the order of their type letters |
| `DictCompare.StringsInDictionaryOrder` | src/dict.c:1226-1231 | A string is less if and only if it is a proper prefix or has the smaller byte at the first difference |
| `DictCompare.TextsInDictionaryOrder` | src/dict.c:1226-1231 | The same for items; a missing string is less than any item of its type, and nothing is less than it but another missing one |
| `DictCompare.DictsByFirstDifference` | src/dict.c:1240-1257 | A dictionary is less if and only if, after equal items, it ends first or its item is the less one |
| `DictCompare.NextItem` | src/dict.c:677-682 | Iteration stops at the last flag or at the length, whichever is first |
| `DictCompare.EqualToItselfIff` | src/dict.c:1217-1261 | An item compares equal to itself if and only if everything that the comparison can see has a known type and no string is missing |
| `DictCompare.Antisymmetric` | src/dict.c:1217-1261 | Swapping the items negates the sign, and the result is 0 if and only if both have the same content at every depth |
| `DictCompare.Transitive` | src/dict.c:1217-1261 | The order is transitive, strictly if one step is strict |
| `DictCompare.StrCmpOrder` | src/dict.c:1226-1231 | Strings are totally ordered by their bytes |
| `DictWire.WriteDict` | src/dict_inout.c:42-129 | The writer's recursive loops produce the encoding, for any uninitialised padding bytes |
| `DictWire.ReadDict` | src/dict_inout.c:148-238 | The reader computes the decoding of any bytes, its error paths included |
| `DictWire.Stream.Read` | src/dict_inout.c:132-146 | A read gives exactly the bytes asked for, or fails |
| `DictWire.ReadWhatWasWritten` | src/dict_inout.c:42-238 | Reading an encoded dictionary followed by any bytes gives the dictionary with the allocated-key flag and without sizes, and leaves exactly what followed |
| `DictWire.RestoredIffSizesSuffice` | src/dict_inout.c:63-66 | Signatures, types, keys and values, strings as C strings, are restored at every depth if and only if no string has a size below its length |
| `DictWire.CutStreamIsAcceptedIff` | src/dict_inout.c:132-238 | A stream that is cut short is refused and nothing of it is left, unless the last item is a nested dictionary and only bytes of that are missing |
| `DictWire.LongSignatureIsRefused` | src/dict_inout.c:148-175 | A dictionary is refused for its signature if and only if that has 128 or more letters |
| `DictWire.BadItemsAreRefused` | src/dict_inout.c:184-232 | Numbers whose payload is not four bytes and letters that are not known refuse the whole dictionary |
| `DictWire.LettersBehindZeroAreIgnored` | src/dict_inout.c:178-186 | Reading stops at a zero byte in the signature |
| `DictWire.FlagsAreKept` | src/dict_inout.c:199-212 | The flags of an item are those written, with the flag for an allocated key |
| `DictWire.KnownNumberBytes` | src/dict_inout.c:21-75 | The very bytes of an item with a number |
| `DictWire.KnownStringBytes` | src/dict_inout.c:21-75 | The very bytes of an item with a string |
| `DictWire.KnownDictBytes` | src/dict_inout.c:42-62 | The very bytes in front of the items of a dictionary |
| `DictWire.PrefixIsSameStringIff` | src/dict_inout.c:216-223 | The bytes written for a string are read as the same C string if and only if they are at least its length |
| `DictWire.HeaderRoundTrip` | src/dict_inout.c:21-31 | Key length, payload size, type and flags are read back from an item header |
| `Signals.SignalTable.StartSub` | src/signals.c:354-420 | Every list of the table is extended by the listener as often as it asks for the signal; handlers are installed; ignored signals stay ignored |
| `Signals.SignalTable.StopSub` | src/signals.c:422-454 | One occurrence of the listener leaves the list for each time it asked for the signal; handlers follow |
| `Signals.SignalTable.UpdateSignals` | src/signals.c:260-286 | After the loop the handler of every entry is installed unless the signal is ignored, and other signals keep theirs |
| `Signals.HandlerFollowsListeners` | src/signals.c:354-454 | For a signal that is not ignored the handler of the library is installed if and only if the signal has listeners; without listeners it is the default action |
| `Signals.ListIsLiveSubscriptions` | src/signals.c:354-454 | For any starts and stops the list of a signal is the multiset of the live subscriptions |
| `Signals.PlayAll` | src/signals.c:354-454 | Carrying out any starts and stops on a table leaves these lists in it, and the handler of the library is installed exactly for signals with listeners, ignored ones aside |
| `SchedMachine.Machine.ChangeState` | src/sm.c:40-47 | A request is a step of the runs below, after which the counter is the number of queued transitions and not 0 |
| `SchedMachine.Machine.ReleaseSm` | src/sm.c:49-59 | Whatever was requested before, a transition is queued afterwards, so that the release cannot get lost |
| `SchedMachine.Machine.ChangeSms` | src/sm.c:9-38 | A delivered transition calls the release callback if and only if a release is requested and nothing is left, and calls nothing if and only if one is requested with more to come |
| `SchedMachine.Machine.AfterLeave` | src/sm.c:29-35 | The state changes and is entered before anything else is called |
| `SchedMachine.CounterIsPipeLength` | src/sm.c:14-45 | In every run the counter is the number of queued transitions |
| `SchedMachine.TransitionsKeepRequestOrder` | src/sm.c:22-45 | The targets of the callbacks are the first of the requested ones in order, and only queued ones are missing unless a release is requested |
| `SchedMachine.ReleasedOnceWithNothingQueued` | src/sm.c:16-20 | The release callback has been called exactly once if a release is requested and nothing is queued, and not at all otherwise |
| `SchedMachine.TransitionIsCarriedOut` | src/sm.c:22-37 | In every reachable state the next transition triggers its state if that is current, and otherwise leaves the current state, makes the new one current and enters it |
| `SchedMachine.RequestIsQueued` | src/sm.c:40-47 | A request joins the end of the pipe; without a target it asks for the current state |
| `SchedMachine.ReleaseIsCarriedOut` | src/sm.c:9-59 | A requested release is carried out by the last queued transition, one being queued for it if there is none |
| `SchedMachine.TraceIsBracketed` | src/sm.c:22-37 | If no leave callback runs the loop, states are entered after the one before was left, triggered only while current, and nothing follows the release |
| `SchedMachine.LoopInLeaveBreaksTheTraceUnless` | src/sm.c:29-35 | A transition delivered inside a leave callback keeps the trace bracketed if and only if it is dropped because of a release with more to come |
| `SchedMachine.LoopInLeaveIsPossible` | src/sm.c:29-35 | A run in which a state is left twice in a row |
| `Checksum.InChecksum` | layer2/ping.c:91-127 | The accumulating loop computes the complement of the folded word sum for every length, odd ones included |
| `Checksum.FoldCarry` | layer2/ping.c:83-90 | Folding one carry keeps the sum below 65536 and changes nothing in the result |
| `Checksum.FoldedUnique` | layer2/ping.c:83-127 | The folded sum is the only number below 65536 that is congruent to the total modulo 65535 and zero with it |
| `Checksum.OddPacketIsPadded` | layer2/ping.c:111-117 | An odd packet has the checksum of the packet with a zero byte behind it |
| `Checksum.ExampleOfRfc1071` | layer2/ping.c:91-127 | The example of RFC 1071, section 3 |
| `Checksum.OrderDoesNotMatter` | layer2/ping.c:99-110 | The sum is the same for any order of the words |
| `Checksum.ByteOrderDoesNotMatter` | layer2/ping.c:91-127 | Machines of both byte orders store the same bytes |
| `Checksum.StampedSumsToZero` | layer2/ping.c:175-180 | The checksum over a packet stamped with its own checksum is 0 |
| `Checksum.ChangedWordIsDetectedUnless` | layer2/ping.c:263-267 | A change of one word changes the checksum unless it turns 0 into 65535 or back next to another word that is not 0 |
| `Checksum.ReceiverIsStricterOnlyFor65535` | layer2/ping.c:263-275 | Comparing checksums accepts the packets whose sum is zero, except where 65535 is stored and 0 computed |
| `Checksum.AnswerIsAccepted` | layer2/ping.c:263-330 | The stamped answer to a request passes the receiver's test and carries the same id and sequence number |
| `Checksum.PingListener.SendPing` | layer2/ping.c:154-201 | The packet sent is the stamped echo request with the next sequence number, and it sums to zero |
| `Checksum.PingListener.Receive` | layer2/ping.c:219-333 | Which packets are refused, which are successes or unreachable messages for this listener, and when the round trip is timed |
| `Checksum.PingAndAnswer` | layer2/ping.c:154-333 | Sending a ping and receiving the stamped answer always ends in success; the answer is recognised as the one to the last packet, and timed, if and only if the 16-bit count did not just wrap to 0 |
| `SinglyLinked.Append` | src/llist.c:13-39 | A new item becomes the last one; an item of the list stays where it is |
| `SinglyLinked.UnlinkIntern` | src/llist.c:41-76 | The item leaves the list, with or without a known predecessor; an item that is not in the list changes nothing |
| `SinglyLinked.UnlinkData` | src/llist.c:82-94 | The first node with the data leaves the list and is returned |
| `DoublyLinked.Append` | src/llist.c:13-39 | A new item becomes the last one; for an item of the list prev stays right if and only if it is not the last node |
| `DoublyLinked.Unlink` | src/llist.c:41-94 | The item leaves the list and prev stays the inverse of next |
| `DoublyLinked.Insert` | src/llist.c:129-147 | The new item stands in front of the given node and prev stays the inverse of next |

## Left out

- Plugins, plugin loading, initialisation, fork and exec, logging, JSON, `dict_printf`, the regular expression
  layout of the cache: input and output over foreign libraries, or without a clean specification.
- EventRefs.CountIsNumberOfHolders: assumes that an owner does not call crtx_free_event() without holding a
  reference, and that every agent gives back the response reference before the other one, as
  crtx_process_one_event() does.
- DictRefs.Heap.Unref: the wrap-around of the unsigned int count at 2^32 references is not modelled; items
  behind an early last flag must hold no dictionary, since the loop does not reach them.
- DictWire.ReadWhatWasWritten: writes are complete, a read returns what is there, lengths fit the int result of
  the read function, and numbers are little-endian; the item array, which crtx_read_dict() reserves room for but
  does not point to, is taken as present. Reference count and id of a dictionary read are not modelled.
- DictCompare.CmpItem: an item array that is not null is taken to hold at least one item, because
  crtx_get_first_item() looks at the first one without asking for the length.
- Cache.TransparentIffKeyDetermines: responses are strings or dictionary references, the graph has no
  keep-going flag, the cache has no miss or add callbacks, events are traversed one after the other, and the
  key and the size of a response may differ from what the uncached graph gives.
- ThreadPool.NoThreadHoldsTwoJobs: threads that were told to stop, cancellation, and liveness of the pool
  after crtx_threads_stop() are not modelled; neither is a job description that is handed over twice.
- ListenerShutdown.DelayedShutdownCompletes: one thread only, and no restart of a listener after a shutdown
  was requested; dependencies between listeners appear as the choice whether a stop is refused.
- GraphQueue.EventsAreConserved: flushing the queue and releasing the graph are not modelled.
- EpollLoop.EachEventIsDispatchedOnceInOrder: descriptors and callback lists appear as an event identity and its
  flags; which handlers an event has is a choice of the environment.
- EpollTimeout.FireTimeouts: every callback has a handler, a handler changes the deadline of its own callback
  only, and clocks and time_t are unbounded integers except for the saturation and wrap-around that the code
  itself performs.
- EpollInterest.EventLoop.ManageFd: failures other than a refused addition, the stop of the loop and its closing
  after a fork are not modelled. Flag words are sets of flags.
- SchedMachine.TraceIsBracketed: a callback that is not set counts as one that does nothing, the control pipe never
  refuses a write, and nothing is requested after the release callback started.
- Signals.SignalTable.UpdateSignals: the signalfd mode is not modelled, and nobody else changes dispositions.
  A listener without a list of signals is one whose list starts with the terminating zero.
- Checksum.PingListener.Receive: time stamps appear only as present or absent; the IP header is not modelled.
- TaskGraph.Traverse: handlers are functions on a world of any type; the list must not change during the walk.
- DoublyLinked.Insert: the item must not be in the list already, as for Append in its main case.
