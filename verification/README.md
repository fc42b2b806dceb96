# LTest, modelled and verified in Dafny

LTest tests concurrent data structures for linearizability. It runs tasks under its own scheduler, records
histories, and decides whether a history can be explained by a sequential specification. This project models the
parts of LTest that decide or guarantee something, and proves what they decide or guarantee.

**Linearizability checkers.** `Linearization` defines linearizability in the sense of Herlihy and Wing: an order of
the operations that respects real time and replays legally. `RecursiveSearch` is the backtracking search with its
shared bit vector and failure cache, `WglChecker` the iterative checker with its explicit stacks, cursor and state
cache, `Pairing` the passes that match responses to invokes. `PlainChecker` and `DualChecker` are the checkers built
from them. Their contracts say what an accepted history is over the history and the methods alone: an order of the
calls and a sequence of states that explain it. Both checkers decide the definition, so they agree; the caches never change a verdict, for every user
equality that is a congruence, including one that is never true. `Completions` shows that dropping pending
operations adds nothing for total methods, and that linearizability is closed under prefixes.

**Weak-memory execution graph.** `MemoryGraph` says what each operation adds to the graph as a value.
`Coherence`, `Clocks` and `GraphInvariant` state what holds in every reachable graph: the four coherence rules of
section 6.9.2.1 [intro.races] of ISO C++20 for all pairs of events, an acyclic modification order, clocks that include
happens-before, acquire reads that happen after the release writes they read, and seq_cst reads that read the latest
seq_cst write. `GraphOperations`, `GraphSteps` and `GraphRuns` prove it for whole runs. `CycleCheck` is the depth-first
check, and `LiveGraph` the object that the runtime changes in place, with its snapshot and rollback; it carries the run
that led to its state. `OperationMeaning` and `OperationLaws` state the laws of a run over its operations, with the
memory orders written out, and `EdgeReasons` that the modification order has no pair without a reason. `CycleBypass` and
`GraphLimits` say what the check rejects beyond cycles and in which runs clocks are more than happens-before. `CycleWalk`,
`CycleFirst`, `CycleGrowth` and `ReadProgress` show that it never rejects too much: every read finds a source.

**Protocols.** `MpmcQueue`, `FutexMutex` and `SharedMutex` are step machines for any number of threads and any
interleaving; `BlockManager` is the table of wait queues, and the mutexes use its operations on their queues.

**Containers and dual histories.** `StableVector` is the bucket vector with its bit arithmetic (`Bits`).
`BoundedQueue` and `DualStack` are request/follow-up specifications and a heap-node stack that simulates one of
them; `DualStackRuns` matches pushes with requests from the calls alone. `DualRound` is the pipeline from the wrapper of a task to the recorded history, and `DualHistory` shows that the
histories it produces are the ones the checkers want: `DualChecker.RoundPaired` carries this to the dual checker.

Objects that the source changes in place are classes whose methods are proved against functions or invariants on
values. Protocols are relations between states. I/O, logging, hashing and random choices are not modelled; a random
choice is any choice.

## Notes on the source

- docs/dual-verification.md:161-169 says that a request whose follow-up is ready but missing from the history is
  rejected. The code accepts it. `DualChecker.CompletionTestRedundant` proves that the final test never decides.
- The cycle check marks an event as being on the stack when it is pushed, so it rejects some acyclic graphs.
  `CycleCheck.IsConsistent` proves that a rejected graph has a cycle or an edge that a later edge of the same event
  bypasses. Every read-modify-write whose source already has a successor makes such an edge (`GraphLimits.RmwShortcut`);
  it is rejected whenever the search enters the source before it has finished the successor and the new event
  (`GraphLimits.RmwRejected`). `GraphLimits.OverRejects` is a run in which this happens to an acyclic graph, and
  `GraphLimits.BypassAccepted` one in which a bypassed edge is accepted. Still some write of the location always passes
  (`ReadProgress.SomeWritePasses`), so the code's assertion that a read has found its source holds in every run.
- A rejected reads-from attempt can leave the clock joined with that of the last seq_cst write. This makes no difference
  to an operation that ends seq_cst (`GraphSteps.JoinedAnyway`), so clocks are exact in every run whose compare-exchanges
  have two seq_cst orders or none (`GraphRuns.RunExact`). For every other pair of orders `GraphLimits.MixedInexact` is a
  run in which a clock includes a store from which no happens-before path leads to the event.
- A pop of the generation-ticket queue returns 0 although a push completed before it began, when an earlier ticket is
  claimed and not yet published: `MpmcQueue.PopMisses`. `MpmcQueue.GivesUpRightly` proves that a returned 0 means an
  empty queue exactly when no push holds the ticket, and dually for a push that fails.
- Removing an element from a `StableVector` of 2^30 elements looks past the last bucket pointer.
  `StableVector.PopInBounds` proves that this is the only such size.
- Every direct hand-off in the bounded-queue specification uses up one of its two slots for good.
  `BoundedQueue.Starved` drives a queue to where it is empty and takes nothing.

## Model

| member | source | states |
|---|---|---|
| Linearization.StepExact | runtime/include/linearization_search.h:118-149 | some completion exists exactly when an available invoke can be applied, or dropped, with a completion after it |
| Linearization.AllDone | runtime/include/linearization_search.h:115 | with every event linearized, completing is passing the final test |
| Linearization.EqualCompletable | runtime/include/linearization_search.h:52-59 | states that a congruence calls equal have the same completions |
| RecursiveSearch.FailureCache.Insert | runtime/include/linearization_search.h:64-89 | the cache keeps its keys, and holds the new one or one equal to it; a disabled cache stays empty |
| RecursiveSearch.FailureCache.HitFails | runtime/include/linearization_search.h:74-78 | a state found in a sound cache has no completion |
| RecursiveSearch.Exhausted | runtime/include/linearization_search.h:118-122 | a scan that meets an open response, or the end, without a viable candidate has ruled out every completion |
| RecursiveSearch.Search.Step | runtime/include/linearization_search.h:113-153 | finds exactly the completable states; a failed call restores the shared vector, and every cached key stays uncompletable |
| RecursiveSearch.Search.Try | runtime/include/linearization_search.h:125-148 | one candidate succeeds exactly when dropping or applying it can be completed |
| RecursiveSearch.Search.Drop | runtime/include/linearization_search.h:129-133 | leaving a pending invoke out, undone on failure |
| RecursiveSearch.Search.Apply | runtime/include/linearization_search.h:135-148 | linearizing an invoke with its response, undone on failure |
| RecursiveSearch.RunSearch | runtime/include/linearization_search.h:99-156 | accepts exactly the linearizable histories, with the cache on or off and for every congruence; the empty history without the final test |
| WglChecker.HitFails | runtime/include/lincheck.h:180-193 | a visited state found again is not one of the open levels, so it was explored in vain |
| WglChecker.OnlyPendingLeft | runtime/include/lincheck.h:144-151 | with only pending operations left, applying them one by one completes the run |
| WglChecker.CursorInside | runtime/include/lincheck.h:144-153 | the cursor cannot reach the end of the history while events are left, even when cache hits skip every pending invoke |
| WglChecker.TryInvoke | runtime/include/lincheck.h:153-212 | an invoke opens a section or is passed over, and the configuration stays one of the search |
| WglChecker.CloseLast | runtime/include/lincheck.h:213-238 | at an open response the innermost choice is ruled out and undone exactly |
| WglChecker.RemainingDrops | runtime/include/lincheck.h:144-239 | stack and cursor grow lexicographically, so the loop terminates |
| WglChecker.Move | runtime/include/lincheck.h:144-239 | one turn of the loop keeps the configuration one of the search and comes nearer to the end, or shows that no linearization exists |
| WglChecker.Check | runtime/include/lincheck.h:121-242 | accepts exactly the linearizable histories |
| Pairing.PairingValid | runtime/include/lincheck_dual.h:201-307 | pairing is one to one and each response comes after its invoke, for every history |
| Pairing.BuildEventInfo | runtime/include/lincheck_recursive.h:24-64 | each invoke gets the last response that answers it: by task, and by id when the response's task has no invoke before it |
| Pairing.InvokeResponseMapping | runtime/lin_check.cpp:10-29 | the map of the iterative checker is the same pairing, on the histories its assertion allows |
| Pairing.ReturnsExact | runtime/include/lincheck_recursive.h:24-64 | the response of an invoke is the last event that answers it, and an event answers the last earlier invoke of its task, or of its id if its task has none |
| Pairing.CutPairing | runtime/include/lincheck_recursive.h:24-64 | cutting a fully paired history cuts its pairing |
| Completions.DroppingUnneeded | runtime/include/lincheck_recursive.h:142-150 | for total methods, linearizability with and without leaving out pending operations is the same |
| Completions.CutLinearizable | runtime/include/linearization_search.h:129-149 | a linearization of a history gives one of its prefix, with cut responses pending |
| PlainChecker.CheckRecursive | runtime/include/lincheck_recursive.h:107-156 | reports an unknown method exactly when there is one, and else accepts exactly if some order of all calls and some states explain the history: each state comes from the one before by the method of the call, each returned call returns what its response recorded, no call comes before one that had returned when it was invoked, and every response belongs to a call |
| PlainChecker.CheckIterative | runtime/include/lincheck.h:121-242 | accepts exactly if the history is explained in this sense with the values stored in the tasks, on histories that meet its assertions |
| PlainChecker.LinearizableExplained | runtime/include/lincheck_recursive.h:142-150 | the linearizations of a checker's problem are the explanations of the history, in both directions |
| PlainChecker.ApplyRuns | runtime/include/lincheck_recursive.h:142-150 | applying a call with the expected result is running its method and comparing with what the history recorded, if it recorded anything |
| PlainChecker.CheckersAreTheSame | test/runtime/lin_check_test.cpp:297-319 | the two checkers agree on every recorded history, whatever their caches and congruences |
| PlainChecker.CheckersDecideHerlihyWing | runtime/include/lincheck_recursive.h:142-150 | a history is explained by all its calls exactly if it is explained by some that include all returned ones |
| PlainChecker.PrefixClosed | runtime/include/linearization_search.h:129-149 | every prefix of an explained history is explained |
| DualChecker.CheckDual | runtime/include/lincheck_dual.h:348-493 | reports an unknown method exactly when there is one, and else accepts exactly if the history is explained: ordinary calls step by their method or are accepted by their predicate, requests step by `request`, follow-ups are ready and step by `followUp`, results are the recorded ones, real time is kept, and only events that never returned are left out |
| DualChecker.ApplyRuns | runtime/include/lincheck_dual.h:407-470 | applying an event is one of these steps, for each kind of event and method |
| DualChecker.LinearizableExplained | runtime/include/lincheck_dual.h:348-493 | the linearizations of the checker's problem are the explanations of the history, in both directions |
| DualChecker.ValidateFollowUps | runtime/include/lincheck_dual.h:364-389 | the collected sets give the completion test: an answered request without a finished follow-up has a blocking method |
| DualChecker.CompletionTestRedundant | runtime/include/lincheck_dual.h:473-487 | the verdict is the same without the completion test |
| DualChecker.PrefixClosed | runtime/include/lincheck_dual.h:407-470 | every prefix of an explained dual history is explained, if predicate methods accept a pending call whenever they accept a result |
| VectorClock.IsSubsetOf | runtime/include/wmm/vector_clock.h:29-39 | the loop decides the pointwise order |
| VectorClock.UniteWith | runtime/include/wmm/vector_clock.h:41-47 | the loop computes the least clock above both |
| MemoryGraph.MostRecentLater | runtime/include/wmm/graph.h:549-564 | every match in a thread is at or before the one that is used |
| Clocks.AppendClocked | runtime/include/wmm/graph.h:294-311 | a new event's clock covers a prefix of each thread and everything those events know |
| Clocks.JoinClocked | runtime/include/wmm/graph.h:315-329 | so does the clock after a join with an earlier event's |
| Clocks.HbEarlier | runtime/include/wmm/graph.h:294-329 | happens-before respects the order of creation |
| Coherence.Recent | runtime/include/wmm/graph.h:549-564 | a match has an edge, or happens before a later match of its thread that has one |
| Coherence.WriteWriteStep | runtime/include/wmm/graph.h:457-471 | after the write-write rule the rule holds for all pairs |
| Coherence.WriteReadStep | runtime/include/wmm/graph.h:377-397 | after the write-read rule the rule holds for all pairs |
| Coherence.ReadWriteStep | runtime/include/wmm/graph.h:481-498 | after the read-write rule the rule holds for all pairs |
| Coherence.ReadReadStep | runtime/include/wmm/graph.h:408-433 | after the read-read rule the rule holds for all pairs |
| GraphInvariant.ScChainStep | runtime/include/wmm/graph.h:439-452 | every seq_cst write of a location leads to the recorded last one in modification order |
| GraphInvariant.ScLatestStep | runtime/include/wmm/graph.h:341-367 | an older seq_cst source would close a cycle, so a seq_cst read from a seq_cst write reads the latest |
| GraphInvariant.ClocksExact | runtime/include/wmm/graph.h:195-206 | if every compare-exchange with a seq_cst order ended with it, clock inclusion is a path of program-order, sc and synchronizing reads-from edges |
| GraphInvariant.PathsIncluded | runtime/include/wmm/graph.h:315-329 | in every graph, a path implies clock inclusion |
| GraphOperations.StoreAcyclic | runtime/include/wmm/graph.h:55-79 | a store, which runs no check, keeps the modification order acyclic |
| GraphOperations.StoreKeeps | runtime/include/wmm/graph.h:55-79 | a store keeps the whole invariant |
| GraphOperations.ReadKeeps | runtime/include/wmm/graph.h:171-289 | a load or read-modify-write that leaves the modification order acyclic keeps the whole invariant |
| GraphSteps.JoinedAnyway | runtime/include/wmm/graph.h:276-286 | for an operation that ends seq_cst the accepted graph is the one without rejected attempts |
| GraphSteps.MarkedMayMark | runtime/include/wmm/graph.h:276-286 | only an operation with a seq_cst outcome leaves the join behind |
| GraphSteps.AttemptPasses | runtime/include/wmm/graph.h:265-270 | an accepted attempt is a step; only a compare-exchange that an earlier attempt marked differs from one whose first attempt was accepted |
| GraphSteps.RejectedStarted | runtime/include/wmm/graph.h:276-286 | after a rejected attempt the operation is as it was started, or with the clock joined with the last seq_cst write's |
| GraphSteps.InitialInvariant | runtime/include/wmm/graph.h:695-709 | the graph of dummy events satisfies the invariant |
| GraphRuns.RunKeeps | runtime/include/wmm/graph.h:29-136 | every graph of every run satisfies the invariant |
| GraphRuns.RunCoherent | runtime/include/wmm/graph.h:377-498 | in every run, all four coherence rules hold for every pair of events, and the modification order is acyclic |
| GraphRuns.RunReadsLatest | runtime/include/wmm/graph.h:315-367 | in every run, a seq_cst read from a seq_cst write read the latest one before it |
| GraphRuns.RunSynchronizes | runtime/include/wmm/graph.h:193-206 | in every graph of a run, a read event that acquires from a write event that releases happens after it, between two seq_cst events through the sc edge |
| GraphRuns.RunRmw | runtime/include/wmm/graph.h:503-539 | in every run, a modifying read-modify-write is ordered after its source and before the direct successors the source had |
| GraphRuns.RunClocks | runtime/include/wmm/vector_clock.h:29-52 | in every run, a happens-before path implies clock inclusion; the converse holds while every compare-exchange with a seq_cst order ended with it |
| GraphRuns.RunExact | runtime/include/wmm/graph.h:195-206 | clocks are exactly happens-before in every run whose compare-exchanges have two seq_cst orders or none |
| OperationMeaning.RunMeans | runtime/include/wmm/event.h:225-340 | in every graph of a run each event is what its operation did: what it read is what its source left, it wrote unless it is a load or a failed compare-exchange, and a failed compare-exchange ended with its failure order |
| OperationLaws.RunDirect | runtime/include/wmm/graph.h:293-328 | the happens-before edges of a graph are, told from the operations, the previous operation of the thread, the last seq_cst write before a seq_cst access, and the source of an acquire, acq_rel or seq_cst read stored with release, acq_rel or seq_cst |
| OperationLaws.ClocksAreHappensBefore | runtime/include/wmm/graph.h:195-206 | clock inclusion follows from happens-before over the operations in every run, and is the same in every run whose compare-exchanges have two seq_cst orders or none |
| OperationLaws.AcquiresFromRelease | runtime/include/wmm/event.h:79-85 | in every run and every later graph, a read that ended acquire, acq_rel or seq_cst happens after a source stored with release, acq_rel or seq_cst |
| OperationLaws.RelaxedBringsNothing | runtime/include/wmm/graph.h:193-206 | a read that ended relaxed or release, or whose source was stored relaxed or acquire, and that did not end seq_cst, happens after exactly what its predecessor in the thread does, and that predecessor |
| OperationLaws.OperationsCoherent | runtime/include/wmm/graph.h:377-498 | one acyclic order of the writes agrees with happens-before over the operations in all four ways |
| OperationLaws.SeqCstReadsLatest | runtime/include/wmm/graph.h:333-367 | an operation that ended seq_cst and read a seq_cst write read the latest one of its location before it |
| OperationLaws.RmwFollows | runtime/include/wmm/graph.h:503-539 | an operation that read and wrote is ordered after its source and before what directly followed the source |
| EdgeReasons.OrderedForReason | runtime/include/wmm/graph.h:333-539 | each pair of the modification order in each graph of each run relates writes of one location and has a reason: one of the four coherence rules, one of the two of read-modify-writes, or the order of seq_cst accesses |
| GraphLimits.MixedInexact | runtime/include/wmm/graph.h:276-286 | for every other pair of orders, a run ends in a compare-exchange whose clock includes that of a store from which no path leads to it |
| CycleCheck.ReachesBelow | runtime/include/wmm/graph.h:634-644 | meeting an event lower in the stack means a cycle or a bypassed edge |
| CycleCheck.LeaveTop | runtime/include/wmm/graph.h:626-629 | an event is finished only after all its successors |
| CycleCheck.FinishedAcyclic | runtime/include/wmm/graph.h:606-649 | if every event is finished after its successors, the modification order is acyclic |
| CycleCheck.Enter | runtime/include/wmm/graph.h:634-644 | following an event's edges pushes its new successors or ends the search, as the function does |
| CycleCheck.ExploreOutcome | runtime/include/wmm/graph.h:619-645 | a search that ends well has finished everything its stack leads to; one that fails has found a cycle or a bypassed edge |
| CycleCheck.Search | runtime/include/wmm/graph.h:619-645 | the loop over the stack computes the search function |
| CycleCheck.ConsistentAcyclic | runtime/include/wmm/graph.h:606-649 | only acyclic graphs pass, and a rejected graph has a cycle or a bypassed edge |
| CycleCheck.IsConsistent | runtime/include/wmm/graph.h:606-649 | decides what the search function decides, so it is true only of acyclic graphs, and a rejected graph has a cycle or a bypassed edge |
| CycleBypass.TrappedRejects | runtime/include/wmm/graph.h:634-644 | a search fails once an entry leads to an event that is marked and will not be entered before it |
| CycleBypass.DetourRejects | runtime/include/wmm/graph.h:634-644 | entering an event whose later edge bypasses an earlier one, while neither target is finished, ends in a rejection |
| CycleBypass.DetourInconsistent | runtime/include/wmm/graph.h:606-649 | if no smaller event leads to the event or the targets, the graph is rejected, acyclic or not |
| GraphLimits.RmwDetour | runtime/include/wmm/graph.h:524-539 | a modifying attempt on a write leads through the new event to everything the write was ordered before |
| GraphLimits.RmwShortcut | runtime/include/wmm/graph.h:524-539 | so every read-modify-write whose source has a successor makes a bypassed edge |
| GraphLimits.RmwRejected | runtime/include/wmm/graph.h:634-644 | it is rejected when the search enters the source before it has finished the successor and the new event |
| GraphLimits.RmwInconsistent | runtime/include/wmm/graph.h:606-649 | in particular when no smaller event leads to the source, the successor or the new event |
| GraphLimits.OverRejects | runtime/include/wmm/graph.h:637-642 | after three stores, reading the first in a relaxed read-modify-write closes no cycle and is rejected |
| GraphLimits.BypassAccepted | runtime/include/wmm/graph.h:634-644 | in the same run, reading the second is accepted although it bypasses an edge |
| CycleWalk.PassesAccepted | runtime/include/wmm/graph.h:606-649 | the verdict of the check depends only on the list of successors of each event, in the order of their edges |
| CycleWalk.FreshAccepted | runtime/include/wmm/graph.h:606-649 | an accepted graph stays accepted with a new event without successors that comes last in any of the lists |
| CycleFirst.SafeTarget | runtime/include/wmm/graph.h:606-649 | every group of events closed under successors in an accepted graph has one that may be made the last successor of any others of the group: the graph stays accepted |
| ReadProgress.RunConsistent | runtime/include/wmm/graph.h:54-79 | every graph of every run passes the check, also after a store, which does not run it, and its modification order relates writes of one location |
| ReadProgress.SomeWritePasses | runtime/include/wmm/graph.h:36-50 | at the end of every run, for every load and read-modify-write of a registered location, some write of the location passes the check, whatever attempts were rejected before |
| ReadProgress.ReadsSomething | runtime/include/wmm/graph.h:48-51 | so an operation that tries all writes of its location does not reject them all |
| LiveGraph.LiveGraph.ExistsEdge | runtime/include/wmm/graph.h:594-602 | looking through the outgoing edges of one event finds an edge exactly if the graph has it |
| LiveGraph.LiveGraph.AddEdge | runtime/include/wmm/graph.h:573-592 | adds the edge, once in modification order, to the edge vector and to its origin, and to a running snapshot |
| LiveGraph.LiveGraph.DiscardSnapshot | runtime/include/wmm/graph.h:662-683 | removes exactly the edges added since the snapshot, from the vector and from every event |
| LiveGraph.LiveGraph.CreatePoEdgeToEvent | runtime/include/wmm/graph.h:294-311 | appends the event with its program-order edge and incremented clock |
| LiveGraph.LiveGraph.CreateScEdgeToEvent | runtime/include/wmm/graph.h:315-329 | adds the sc edge and joins the clock |
| LiveGraph.LiveGraph.CreateSeqCstMoEdge | runtime/include/wmm/graph.h:341-367 | orders the last seq_cst write before an event of its location |
| LiveGraph.LiveGraph.CreateRmwAtomicityEdges | runtime/include/wmm/graph.h:524-539 | orders the event before the present successors of its source |
| LiveGraph.LiveGraph.FindMostRecent | runtime/include/wmm/graph.h:552-563 | the backward loop finds the most recent match of a thread |
| LiveGraph.LiveGraph.ApplyRule | runtime/include/wmm/graph.h:549-564 | adds the rule's edge for the most recent match of each thread, and no other |
| LiveGraph.LiveGraph.Attempt | runtime/include/wmm/graph.h:177-263 | an attempt builds the graph in which the event reads from the candidate |
| LiveGraph.LiveGraph.Undo | runtime/include/wmm/graph.h:276-286 | edges, edge lists, source and last seq_cst writes are those before the attempt; so is the clock, unless only the last seq_cst write was joined |
| LiveGraph.LiveGraph.TryCreateRfEdge | runtime/include/wmm/graph.h:171-289 | accepts exactly if the attempt's graph passes the check, and is then that graph, with an acyclic modification order; a rejected attempt leaves what Undo says |
| LiveGraph.LiveGraph.AddWriteEvent | runtime/include/wmm/graph.h:54-79 | a store extends the run by the store on values |
| LiveGraph.LiveGraph.TryWrites | runtime/include/wmm/graph.h:94-101 | an accepted candidate extends the run; if none is accepted, the check rejects an attempt on each of them, as the first one or after one that left its mark |
| LiveGraph.LiveGraph.StartReading | runtime/include/wmm/graph.h:154-169 | collects exactly the events that write the location, and appends the reading event |
| LiveGraph.LiveGraph.AddReading | runtime/include/wmm/graph.h:81-111 | whatever order the candidates are tried in, the read always finds a source among the writes of its location, the only one if there is one, extends the run by a read from it, and holds the value written there |
| LiveGraph.LiveGraph.AddReadEvent | runtime/include/wmm/graph.h:29-52 | a load always succeeds, extends the run and returns the value its source, a write of the location, wrote |
| LiveGraph.LiveGraph.AddRMWEvent | runtime/include/wmm/graph.h:81-111 | a compare-exchange always finds a source, succeeds exactly if it read the expected value, writes the desired one then, and returns what it read |
| LiveGraph.LiveGraph.AddUnconditionalRMWEvent | runtime/include/wmm/graph.h:113-136 | always finds a source, returns the value it replaces and writes the update of it |
| LiveGraph.LiveGraph.RegisterLocation | runtime/include/wmm/wmm.h:38-48 | a registered location has a last seq_cst write, the newest event |
| LiveGraph.LiveGraph.constructor | runtime/include/wmm/graph.h:695-709 | starts with one dummy event a thread and the empty run |
| Bits.AndMask | verifying/targets/fast_queue.cpp:46 | masking with a power of two less one is the remainder |
| MpmcQueue.StepInv | verifying/targets/fast_queue.cpp:43-81 | every atomic step of every thread keeps the invariant |
| MpmcQueue.PushClaims | verifying/targets/fast_queue.cpp:48-55 | winning the head counter gives a slot nobody owns |
| MpmcQueue.PopClaims | verifying/targets/fast_queue.cpp:67-70 | winning the tail counter gives a slot nobody owns, which holds that ticket's value |
| MpmcQueue.RunSafe | verifying/targets/fast_queue.cpp:43-81 | in every run the counters stay within one turn, slots have one owner, and the pop of a ticket returns what was pushed under it |
| MpmcQueue.PopsOnce | verifying/targets/fast_queue.cpp:68-73 | no ticket is returned twice |
| MpmcQueue.GivesUpRightly | verifying/targets/fast_queue.cpp:56-58 | a push gives up only at the head counter while the pop one turn earlier is incomplete, and the queue is full exactly when no pop holds that ticket; a pop gives up only at the tail counter while its push is incomplete, and the queue is empty exactly when no push holds that ticket |
| MpmcQueue.PopMisses | verifying/targets/fast_queue.cpp:62-79 | a run in which a pop returns 0 after a push of a later ticket has completed, with that value in the queue |
| MpmcQueue.ChainPop | verifying/targets/fast_queue.cpp:62-74 | an undisturbed pop takes the value stored under the ticket at the tail, from every state of the invariant, and hands its slot to the next turn |
| FutexMutex.StepInv | verifying/blocking/simple_mutex.cpp:32-58 | every atomic step keeps the invariant |
| FutexMutex.AttendedStep | syscall_intercept/hook.cpp:26-49 | while somebody sleeps, a holder that will find 2, an unlocker before its wake, or a thread awake in the slow path remains |
| FutexMutex.RunSafe | verifying/blocking/simple_mutex.cpp:32-58 | in every run at most one thread holds the mutex, the word is 0 exactly when none does, and no wake-up is lost |
| FutexMutex.NoLostWakeup | runtime/include/block_manager.h:20-46 | a sleeper implies another thread that can move and concerns the mutex |
| FutexMutex.FreeIsTaken | verifying/blocking/simple_mutex.cpp:32-47 | a locking thread that is not asleep takes a mutex nobody holds, in at most three steps of its own, from wherever it stands; the word is then 2 if it came through the slow path |
| FutexMutex.LockUnlock | verifying/blocking/simple_mutex.cpp:32-58 | an undisturbed lock and unlock of a free mutex restores the state |
| SharedMutex.StepInv | runtime/include/blocking_primitives.h:144-190 | every segment between yields keeps the invariant |
| SharedMutex.RunSafe | runtime/include/blocking_primitives.h:144-190 | in every run a writer excludes readers and writers, the count is that of the readers, waiters imply what they wait for, and the inner mutex is free at every yield |
| SharedMutex.NoDeadlock | runtime/include/blocking_primitives.h:51-83 | a blocked thread implies another one that holds the lock or can go on |
| SharedMutex.GetsIn | runtime/include/blocking_primitives.h:145-182 | a reader gets in exactly if no thread writes or is next to write; a writer is next exactly then, and writes at once exactly if no thread reads either; anybody else waits |
| SharedMutex.Leaves | runtime/include/blocking_primitives.h:156-168 | a leaving writer lets everybody run again, and the last reader the waiting writer |
| BlockManager.FirstBlockedFirstWoken | runtime/include/block_manager.h:20-46 | after any steps those still waiting are the last to have arrived, in the order in which they did, and all others have been woken |
| BlockManager.BlockManager.BlockOn | runtime/include/block_manager.h:20-26 | appends to one queue and leaves the others |
| BlockManager.BlockManager.IsBlocked | runtime/include/block_manager.h:28-33 | decides membership, never for address 0, and changes no queue although it may create one |
| BlockManager.BlockManager.UnblockOn | runtime/include/block_manager.h:35-46 | wakes the longest waiting ones, at most as many as asked, and counts them |
| BlockManager.BlockManager.UnblockAllOn | runtime/include/block_manager.h:48-55 | empties one queue |
| StableVector.Bijection | runtime/include/stable_vector.h:77-82 | elements and places correspond one to one |
| StableVector.Grow | runtime/include/stable_vector.h:54-58 | the bit test holds exactly when the next element starts a bucket |
| StableVector.PopInBounds | runtime/include/stable_vector.h:67-71 | removal looks past the last bucket exactly at size 2^(count - 1) |
| StableVector.StableVector.EmplaceBack | runtime/include/stable_vector.h:53-64 | appends, moves no element, and keeps at most one spare bucket |
| StableVector.StableVector.PopBack | runtime/include/stable_vector.h:66-75 | removes the last element, moves none, and frees no bucket in use; at exactly one size it looks past the last bucket instead, which is an explicit result |
| StableVector.StableVector.Get | runtime/include/stable_vector.h:77-82 | reads the element of the sequence |
| StableVector.StableVector.Resize | runtime/include/stable_vector.h:91-98 | grows with default values or cuts, and moves no remaining element; cutting across that size stops there |
| StableVector.StableVector.Destroy | runtime/include/stable_vector.h:34-47 | visits every element once, in order, and frees every bucket |
| BoundedQueue.ShownKeeps | verifying/specs/folly/coro_bounded_queue.h:172-180 | a value that is made visible keeps the order of all values, the balance of slots, each request's account, and the turn of the dequeues: those that wait are the latest, and of the others an earlier request got an earlier delivery |
| BoundedQueue.PromotedKeeps | verifying/specs/folly/coro_bounded_queue.h:182-190 | promotion keeps them, leaves an enqueue waiting only at capacity zero, and touches no dequeue unless one waits |
| BoundedQueue.BoundedQueue.MakeValueVisible | verifying/specs/folly/coro_bounded_queue.h:172-180 | a value goes to the longest waiting dequeue or to the buffer |
| BoundedQueue.BoundedQueue.PromoteWaitingEnqueues | verifying/specs/folly/coro_bounded_queue.h:182-190 | the loop promotes as the function does; afterwards an enqueue waits only at capacity zero, and each request still waits, is complete or was followed up |
| BoundedQueue.BoundedQueue.TryEnqueue | verifying/specs/folly/coro_bounded_queue.h:67-79 | accepts exactly with capacity left, and keeps order and balance |
| BoundedQueue.BoundedQueue.TryDequeue | verifying/specs/folly/coro_bounded_queue.h:81-91 | delivers the oldest buffered value, or 0 without effect |
| BoundedQueue.BoundedQueue.RequestEnqueue | verifying/specs/folly/coro_bounded_queue.h:93-103 | the value is accepted and completed, or waits behind the earlier ones; with a repeated operation id order and balance still hold |
| BoundedQueue.BoundedQueue.FollowUpEnqueue | verifying/specs/folly/coro_bounded_queue.h:105-113 | succeeds once, and with distinct operation ids fails for a request only while it waits or after it was followed up |
| BoundedQueue.BoundedQueue.RequestDequeue | verifying/specs/folly/coro_bounded_queue.h:115-125 | takes the oldest buffered value or waits behind earlier requests, with a repeated operation id too |
| BoundedQueue.BoundedQueue.FollowUpDequeue | verifying/specs/folly/coro_bounded_queue.h:127-136 | returns the ready value once; with distinct operation ids it is the delivery that the request got |
| BoundedQueue.Starved | verifying/specs/folly/coro_bounded_queue.h:75-78 | two hand-offs leave an empty queue that accepts nothing |
| DualStack.Conserves | verifying/specs/dual_stack_split.h:46-94 | every call takes in what is pushed and lets out what it returns, and neither copies nor loses a value |
| DualStack.DualStackSplit.Push | verifying/specs/dual_stack_split.h:46-57 | fills the latest pending slot, which is empty, or pushes on top; `DualStackRuns.SideBySide` says what comes back |
| DualStack.DualStackSplit.PopRequest | verifying/specs/dual_stack_split.h:59-72 | issues the next ticket with the top value or pending |
| DualStack.DualStackSplit.TryPopFollowUp | verifying/specs/dual_stack_split.h:74-94 | returns a waiting value once, and 0 for ticket 0, an unknown ticket or a pending one |
| DualStack.DualTreiberStack.Push | verifying/dual/dual_treiber_stack.cpp:111-123 | simulates the specification's push; `DualStackRuns.SideBySide` says what comes back |
| DualStack.DualTreiberStack.PopRequest | verifying/dual/dual_treiber_stack.cpp:126-144 | simulates the specification's request, with a fresh node for the ticket |
| DualStack.DualTreiberStack.TryPopFollowUp | verifying/dual/dual_treiber_stack.cpp:147-162 | simulates the specification's follow-up and returns the same value |
| DualStackRuns.SideBySide | verifying/dual/dual_treiber_stack.cpp:111-162 | every call sequence gives the same results on the nodes and on the specification: a request its number, and a follow-up the value of the push that answers its request, if that push has come and no follow-up took it, and else 0 |
| DualStackRuns.CallExplained | verifying/specs/dual_stack_split.h:46-94 | after every call, stack, pending requests and slots are told from the calls alone, by which push answers which request |
| DualStackRuns.SuppliesOnce | verifying/specs/dual_stack_split.h:46-72 | no request is answered twice and no push answers two |
| DualStackRuns.LastInFirstOut | verifying/specs/dual_stack_split.h:62-65 | with nothing pending, the requests after some pushes get their values from the last to the first |
| DualStackRuns.LatestRequestFirst | verifying/specs/dual_stack_split.h:47-53 | with an empty stack, the pushes after some requests answer them from the latest to the earliest |
| DualHistory.PairingExact | runtime/include/lincheck_dual.h:201-307 | on well-formed dual histories each response is paired with its own earlier invoke, and that one with it, whatever the ids |
| DualHistory.AllResponsesPaired | runtime/include/lincheck_dual.h:201-307 | no response of a well-formed history is left over |
| DualChecker.RoundPaired | runtime/include/lincheck_dual.h:201-307 | in a history of a round the dual checker pairs each response with the invoke of the same task and phase |
| DualChecker.RoundAllPaired | runtime/include/lincheck_dual.h:201-307 | and leaves no response of it over |
| DualRound.WrapperEmits | runtime/include/verifying_macro.h:448-580 | whatever the awaiter answers, the wrapper emits a prefix of request response, follow-up invoke and follow-up response, and all of it exactly when it is done |
| DualRound.SortBySeqno | runtime/include/scheduler.h:814-818 | sorting orders a batch by number and leaves each task's records in their order |
| DualRound.Round.EmitDualEvent | runtime/lib.cpp:82-87 | events get increasing global numbers in the task's buffer |
| DualRound.Round.CollectDrainedDualEvents | runtime/include/scheduler.h:789-805 | takes the records of every task and empties all buffers |
| DualRound.Round.AppendDrainedDualEvents | runtime/include/scheduler.h:807-847 | appends everything emitted; what the history shows of the tasks' events is the log of the whole round, in emission order |
| DualRound.Round.Turn | runtime/include/scheduler.h:1542-1562 | one turn keeps every task's history and buffer in step with its wrapper, and moves its task and no other |
| DualRound.Round.RunRound | runtime/include/scheduler.h:1502-1563 | on every schedule each task stands where its turns take it, and its history is what it went through; every response is paired, and the emitted events stand in the order of the global sequence number |
| DualRound.RanExactly | runtime/include/scheduler.h:1542-1562 | a task has started exactly if it had a turn; an ordinary one has returned exactly if a turn finished it; a dual one stands where all its answers together take its wrapper, however they are spread over turns |

## Left out

- LLVM and Clang passes, fibers, signal and pthread interposition, static-variable reset: they act on code or library types outside the repository's logic.
- Workload policies, strategies, rollback, replay and minimization: which schedule is chosen is nondeterministic here, and minimization depends on running foreign code.
- TLA-style exhaustive exploration: what it enumerates after a resumed frame is not clear enough to state.
- Global atomicity of read-modify-writes: the code only orders the successors that exist when the event is added.
- CycleCheck.IsConsistent: acceptance of an acyclic graph is proved only when no later edge of an event bypasses an earlier one, because with a bypassed edge the verdict depends on the order of the visits, as `GraphLimits.OverRejects` and `GraphLimits.BypassAccepted` show.
- Pairing.InvokeResponseMapping: requires that every response has an earlier invoke of its task, because the code asserts it.
- PlainChecker.CheckIterative: requires that every method is known and every response answered, because the code asserts both.
- LiveGraph.LiveGraph.AddReading: requires a registered location, because the code reads an entry of the last-write map that registration creates.
- StableVector.StableVector.EmplaceBack: requires less than 2^31 - 1 elements, because the next one has no bucket pointer.
- MpmcQueue.RunSafe: counters are unbounded, so the wrap-around of 64-bit counters is not covered.
- VectorClock.UniteWith: returns the joined clock instead of changing one in place, because events are values.
- LiveGraph.LiveGraph.AddEdge: events are values in a sequence with their edge lists beside them, so the aliasing of event pointers is not modelled.
- GraphInvariant.ClocksExact: requires that every compare-exchange with a seq_cst order ended with it, because the statement is false without that; `GraphLimits.MixedInexact` shows it.
- Values of atomics are integers and an unconditional read-modify-write is any function on them; `ApplyAtomicRmwOp` for single operations is not spelled out.
- Moved-from `StableVector`s, `front` and `back`, and `shared_mutex_r`, which would only add easy members.
- Ticket generation and the packed head word of the dual stack, which its operations do not use.
- The six maps of the dual pairing pass are two maps keyed by phase as well; a pointer to a task is its address.
