# Verified model of the clique and k-plex enumerators

This project models, in Dafny, the enumeration library in the repository around it: the forests of
solutions for maximal k-plexes and maximal cliques, the runners that walk them (sequentially, with
work-stealing threads, over MPI), and the data structures below them. It proves what the library is
for: each maximal structure is reported, once, and nothing else.

## What is modelled

* **Graphs** (`Graphs`, `Degeneracy`, `GraphPermute`, `FastGraphs`): adjacency lists, the bucket-based
  degeneracy ordering, relabelling, the hash-set graph. Both enumerations work on the graph relabelled in
  degeneracy order and report vertices under their new numbers; nothing maps them back.
* **k-plexes** (`KplexTheory`, `KplexSight`, `KplexState`, `KplexBranch`, `KplexNode`, `KplexSearch`, `KplexRoots`,
  `KplexPromise`): the root blocks with their pruning, the node (members, candidates, excluded vertices,
  8-bit counters, lists of non-neighbours, status), branching with and without pivot, the universal-vertex
  fast-forward, the final maximality test, and the whole recursive run. A target of a root is a k-plex of diameter two, for `k >= 3`
  of at least two vertices, that no vertex of the root's block or below the root is seen to extend.
* **Cliques** (`CliqueTheory`, `CliqueSearch`): reverse search. The theory defines completion, parent index and
  parent; the search is the code, which computes neither and decides parenthood by its own tests.
* **Runners** (`Forest`, `WorkStealing`, `WorkStealingProof`, `WorkStealingTheorems`, `WorkStealingRuns`,
  `WorkStealingSteals`): the two sequential walks,
  and the work-stealing runner as a step relation over threads, local stacks, queues, the waiting counter, the
  terminate flag, the steal flag and the reusable spin barrier, in shared-memory and distributed mode.
* **Lock-free queue kernels** (`TicketQueue`, `TicketWrap`, `FreeList`, `FreeListProgress`): the overcommit dequeue, on unbounded and on wrapping counters, and the reference-counted free
  list, one atomic operation per step.
* **MPI protocol** (`DistributedMpi`, `DistributedMpiProof`, `DistributedMpiTheorems`, `DistributedMpiVictim`,
  `DistributedMpiRuns`, `DistributedMpiSteals`, `DistributedMpiOutcome`, `DistributedMpiMisled`): master and workers over FIFO channels, with or without assertions, with the victims that
  `GetStealVictim` picks or any others.
* **Hash set and re-sorting** (`CuckooSet`, `Resort`).
* **Whole runs** (`WholeRuns`, `Family`, `CliqueForest`): relabelling followed by an enumeration, stated about the graph
  as given; and the clique forest walked by threads and by distributed workers.

Results in which the code and its documentation differ:

* README.md:62 promises the maximal k-plexes of diameter two, of any size. For every `k` and `q`, whatever a run reports is one
  (`KplexSight.FoundIsMaximal`), and of those with at least `2k - 2` vertices, or for `k <= 2`, it misses none; the maximal k-plexes
  of size at least `2k - 1` are always reported exactly (`KplexSight.ReportedBySize`). Smaller ones may be missing: a set is
  reported exactly if no vertex that is seen from it extends it (`KplexSight.Reported`), whether or not the result has
  diameter two. So a run keeps the promise on every graph if and only if `k <= 2` or `q + 2 >= 2k` (`KplexPromise.PromiseIffExact`);
  otherwise every run on the graph `Hubs(k)`, relabelling included, misses a promised set (`KplexPromise.SmallSizesFail`,
  `RunOnHubs`). `k` is at most 255, because the counters have eight bits.
* `HasDiameterTwo` (enumerable/diam2kplex.hpp:315-335) compares each member with itself too. On the k-plexes of the search it is
  right except on single vertices for `k >= 3`, which it rejects (`KplexBranch.DiamTestIff`).
* `Worker::Run` asserts that its first answer is a range of roots (enumerator/distributed_mpi.hpp:384-386). For every forest this
  holds in every run if and only if there are a single worker and at least one root
  (`DistributedMpiOutcome.FirstAnswersAreRangesIff`). With more workers, worker 0 may take all ranges before worker 1 asks, and
  the first answer to worker 1 is then the end of the run (`DistributedMpiRuns.UnfairRun`). With assertions worker 1 aborts.
  Without them it enumerates all roots again (enumerator/parallel_pthreads_steal.hpp:114-116): `DistributedMpiRuns.TwiceRun`
  reports every node twice, and `CliqueForest.CliquesTwice` every maximal clique. No node is reported too often in any run, and
  every finished run is complete, if and only if the program has assertions, there is one worker, or the forest is empty
  (`DistributedMpiOutcome.ReliableIff`).
* With fewer roots than workers, the clamped `roots_per_node` is zero: the master then sends no range and never finishes. Nothing
  is reported before a worker is misled in this way, and with assertions nothing at all
  (`DistributedMpiOutcome.CompleteIfEnoughRoots`).
* `GetStealVictim` may pick a worker that has nothing (`DistributedMpiVictim.PickedIsWaitingIff`), even the stealer, against the
  assertion at enumerator/distributed_mpi.hpp:165 (`PickedIsStealerIff`). For given sizes no run on any forest comes to such a
  pick if and only if there is one worker or fewer roots than workers (`DistributedMpiOutcome.SelfPickIff`).

## How the source's types are modelled

Vertices, indices and unbounded counters are `nat`; the 8-bit counters wrap explicitly (`KplexState.Wrap`). A C++ vector
that a method changes is a `seq` field or variable that is reassigned. `k & mask` and `~k & mask`, with `mask + 1` a power of two,
are the remainder and its complement; the reserved value `missing` is not a key of the hash set. `std::sort`, `std::upper_bound` and `std::priority_queue` are modelled by methods with
the standard's contract; `std::sort` may leave ties in any order. Atomics are sequentially consistent. In the runner both
concurrent queues are atomic, and a failed dequeue means that the queue was empty. The comparison of `size_approx` with
the number of waiting threads may go either way.

## Model

| member | source | states |
|---|---|---|
| WholeRuns.EnumerateKplexes | enumerable/diam2kplex.hpp:492-592 | for every graph, `1 <= k <= 255`, any `q`, pivoting on or off: every item is, under the old names, a maximal k-plex of diameter two with at least `q` vertices, and no set is reported twice; of the sets with at least `q` vertices, all maximal k-plexes of at least `2k - 1` vertices are reported, and all maximal diameter-two k-plexes of at least `2k - 2` vertices, or of any size if `k <= 2` |
| WholeRuns.EnumerateCliques | enumerable/clique.hpp:24-111 | for every graph each reported set is, under the old names, a maximal clique, and each maximal clique is reported once |
| KplexRoots.Diam2KplexEnumeration.Run | enumerator/sequential.hpp:30-40 | on the relabelled graph, for all `k` and `q`: the run terminates and reports exactly the sets of at least `q` vertices that are found from their least vertex, each once |
| KplexSight.FoundIsMaximal | README.md:62-62 | every set so found is a maximal k-plex of diameter two, for every `k` and any size |
| KplexSight.ReportedBySize | README.md:62-62 | what is reported among the sets of a given size: from `2k - 2` vertices on, or for `k <= 2`, all maximal diameter-two k-plexes, and from `2k - 1` on all maximal k-plexes |
| KplexRoots.BlockIsSight | enumerable/diam2kplex.hpp:533-583 | what blocks a set in the block of its least vertex, filtered with `q`, is what is in sight of that vertex |
| KplexPromise.PromiseIffExact | README.md:62-62 | for `1 <= k <= 255`: every run on every graph outputs all that the documentation promises if `k <= 2` or `q + 2 >= 2k`; otherwise there is a graph on which no run does |
| KplexPromise.SmallSizesFail | README.md:62-62 | for each `k >= 3` and `q` below the bound, every run on the hub graph misses a promised set, whatever the degeneracy order it chose |
| KplexPromise.RunOnHubs | enumerable/diam2kplex.hpp:492-592 | the enumeration called on that graph: its output lacks a maximal diameter-two k-plex of at least `q` vertices |
| KplexPromise.TargetIsReported | README.md:62-62 | in the exact range every run outputs every promised set |
| KplexTheory.LargeIsDiamTwo | enumerable/diam2kplex.hpp:318-318 | a k-plex of more than `2k - 2` vertices has diameter at most two |
| KplexTheory.ExtensionSeesMembers | enumerable/diam2kplex.hpp:344-351 | a vertex that extends a k-plex is a neighbour of one of any `k` members |
| KplexTheory.Crossing | enumerable/diam2kplex.hpp:144-155 | a larger k-plex of diameter two is entered by a vertex next to the smaller one |
| KplexTheory.ExtensionIsDiamTwo | enumerable/diam2kplex.hpp:315-353 | in the exact range, adding a vertex that extends the set keeps diameter two |
| KplexTheory.TargetIffMaximal | enumerable/diam2kplex.hpp:315-353 | in the exact range the locally decided sets are the maximal diameter-two k-plexes |
| KplexTheory.LargeTargetIffMaximalKplex | README.md:62-62 | from `2k - 1` vertices on they are the maximal k-plexes |
| KplexTheory.MaximalIff | enumerable/diam2kplex.hpp:144-155 | no larger k-plex exists exactly when no single vertex extends the set |
| KplexState.State.CounterIs | enumerable/diam2kplex.hpp:260-265 | each counter is the number of members its vertex misses, modulo 256 |
| KplexState.State.MemberCount | enumerable/diam2kplex.hpp:385-385 | for members and vertices that extend the k-plex the counter has not wrapped and is at most `k` |
| KplexState.State.OpenShrinks | enumerable/diam2kplex.hpp:274-310 | a vertex that extends a larger k-plex extends the smaller one |
| KplexState.State.AddKeepsPending | enumerable/diam2kplex.hpp:247-272 | adding a candidate keeps everything but the split into candidates and excluded |
| KplexNode.Node.Init | enumerable/diam2kplex.hpp:115-142 | the root node satisfies the node invariant, with the first block vertex as the only member |
| KplexNode.Node.AddToKplex | enumerable/diam2kplex.hpp:247-272 | adds one member and updates counters, lists and status to match |
| KplexNode.Node.UpdateCandAndExcl | enumerable/diam2kplex.hpp:274-313 | restores the node invariant: the candidates are the old ones that still extend the k-plex less the finished branches, the rest is excluded |
| KplexNode.Node.CanAdd | enumerable/diam2kplex.hpp:364-399 | true exactly for the vertices that extend the k-plex, of the block or outside it |
| KplexNode.Node.IsMaximal | enumerable/diam2kplex.hpp:144-155 | true exactly when no vertex extends the k-plex that the search would follow |
| KplexNode.Node.HasUniversalInExcl | enumerable/diam2kplex.hpp:159-173 | some excluded vertex is adjacent to all members and all candidates |
| KplexNode.Node.GetCands | enumerable/diam2kplex.hpp:175-245 | exactly the universal candidates; if none, branches that every remaining target meets, those that miss most first: with pivoting, from `k` members on, the candidates that a best pivot does not cut, otherwise the candidates next to the k-plex |
| KplexNode.Node.NotCuts | enumerable/diam2kplex.hpp:196-217 | the candidates the pivot does not cut |
| KplexNode.Node.BestPivot | enumerable/diam2kplex.hpp:218-233 | a pivot that leaves the fewest candidates uncut |
| KplexNode.Node.HasDiameterTwo | enumerable/diam2kplex.hpp:315-335 | true exactly if the k-plex has diameter at most two and, for `k >= 3`, more than one vertex |
| KplexBranch.DiamTestIff | enumerable/diam2kplex.hpp:315-335 | for any k-plex: when the test as coded, with its two short cuts, tells diameter two, and the exceptions |
| KplexNode.Node.IsReallyMaximal | enumerable/diam2kplex.hpp:337-353 | accepts exactly the sets of at least `q` vertices that pass the diameter test and that neither a block vertex in reach nor a smaller vertex next to one of the first `k` members extends |
| KplexBranch.StuckHasNoGoal | enumerable/diam2kplex.hpp:39-39 | below a node that `IsMaximal` accepts there is no further target |
| KplexBranch.UniversalIsInGoal | enumerable/diam2kplex.hpp:58-67 | every target below the node contains every universal vertex |
| KplexBranch.PivotKeepsGoal | enumerable/diam2kplex.hpp:196-217 | no target below the node consists of cut candidates only |
| KplexBranch.PivotBranches | enumerable/diam2kplex.hpp:218-241 | hence every target below the node meets the pivot's branches |
| KplexBranch.ConnectedBranches | enumerable/diam2kplex.hpp:234-241 | without pivot, the candidates next to the k-plex are branches enough |
| KplexSearch.PrunedHasNoGoal | enumerable/diam2kplex.hpp:42-42 | pruning by size loses no target |
| KplexSearch.ExcludedUniversalHasNoGoal | enumerable/diam2kplex.hpp:45-45 | a universal excluded vertex leaves no target |
| KplexSearch.FastForwardEnd | enumerable/diam2kplex.hpp:58-67 | the single fast-forward child has all targets below the node, and what it reports is theirs |
| KplexSearch.BranchStep | enumerable/diam2kplex.hpp:70-80 | after each branch exactly the targets of at least `q` vertices that meet the branches so far are reported, each once |
| KplexSearch.AcceptedIsSound | enumerable/diam2kplex.hpp:337-353 | the final test accepts a node exactly if it is a target of at least `q` vertices |
| KplexSearch.KplexSearch.SolutionCb | enumerable/diam2kplex.hpp:588-592 | below any node, for all `k` and `q`: exactly the targets of at least `q` vertices, each once |
| KplexSearch.KplexSearch.ListChildren | enumerable/diam2kplex.hpp:24-81 | the same for the targets strictly below |
| KplexRoots.CommonNear | enumerable/diam2kplex.hpp:544-554 | members of a large k-plex share enough neighbours to pass the filter |
| KplexRoots.DegreeBound | enumerable/diam2kplex.hpp:533-533 | a vertex with too few later neighbours is least in no k-plex of size `q` |
| KplexRoots.Diam2KplexEnumeration.FilterLoop | enumerable/diam2kplex.hpp:555-559 | terminates and removes no vertex of any k-plex wanted from this root |
| KplexRoots.Diam2KplexEnumeration.CountTwoHop | enumerable/diam2kplex.hpp:566-573 | the counts are the numbers of common neighbours in the block |
| KplexRoots.Diam2KplexEnumeration.BuildBlock | enumerable/diam2kplex.hpp:533-583 | the block contains every k-plex of at least `q` vertices and diameter two with this least vertex, and nothing out of sight; if `q + 3 <= 2k` it contains all in sight; the scratch vectors are clean again |
| KplexRoots.Diam2KplexEnumeration.GetRoot | enumerable/diam2kplex.hpp:531-586 | the walk below the root of `v` reports exactly the sets of at least `q` vertices found from `v`, each once |
| KplexRoots.RootsStep | enumerable/diam2kplex.hpp:531-586 | roots share no set, so one after the other stays free of repetitions |
| CliqueSearch.CliqueEnumeration.Run | enumerator/sequential.hpp:14-29 | the stack-driven walk terminates and reports exactly the maximal cliques, each once |
| CliqueSearch.CliqueEnumeration.ListChildren | enumerable/clique.hpp:54-111 | emits exactly the nodes whose parent this is, each once, up to the first on which the callback stops; the scratch vectors are clean afterwards in every case |
| CliqueSearch.CliqueEnumeration.GetRoot | enumerable/clique.hpp:43-52 | emits the forest's root with this index, if there is one |
| CliqueSearch.CliqueEnumeration.CompleteFwd | enumerable/clique.hpp:119-130 | the greedy completion, as long as nothing below the front fits |
| CliqueSearch.CliqueEnumeration.CollectCandidates | enumerable/clique.hpp:132-157 | each later neighbour above the stored index, once |
| CliqueSearch.CliqueEnumeration.MarkBad | enumerable/clique.hpp:59-76 | marks exactly the bad vertices |
| CliqueSearch.CliqueEnumeration.HasSpoiler | enumerable/clique.hpp:81-100 | the scan of one member's neighbours finds a spoiler if any vertex is one |
| CliqueTheory.CompleteIsGreedy | enumerable/clique.hpp:119-130 | the scan yields the set that contains what fits below it and nothing else |
| CliqueTheory.GreedyIsUnique | enumerable/clique.hpp:119-130 | that property determines the completion |
| CliqueTheory.ParentIndexIsLeast | enumerable/clique.hpp:54-57 | the parent index is the least index whose initial part completes to the clique |
| CliqueTheory.ParentIsMaximal | enumerable/clique.hpp:54-111 | the parent of a maximal clique is one |
| CliqueTheory.ParentIsSmaller | enumerable/clique.hpp:139-139 | its parent index is smaller, so the walk terminates and skipping candidates up to `parind` loses no child |
| CliqueTheory.ChildPasses | enumerable/clique.hpp:81-100 | every child passes the test |
| CliqueTheory.PassingIsChild | enumerable/clique.hpp:81-107 | whatever passes is a child, with the candidate as its parent index |
| CliqueForest.CliquesInParallel | enumerator/parallel_pthreads_steal.hpp:195-317 | every finished shared-memory run of the clique system, with any number of threads and any interleaving, reports each maximal clique exactly once |
| CliqueForest.CliquesDistributed | enumerator/distributed_mpi.hpp:223-289 | with no more workers than vertices, and assertions or a single worker, a finished distributed run of the clique system reports each maximal clique once and returns their number |
| CliqueForest.CliquesTwice | enumerator/distributed_mpi.hpp:384-390 | with two or more workers and no assertions, every graph has a run that reports each maximal clique twice |
| CliqueForest.ForestIsSearch | enumerable/clique.hpp:43-111 | the trees given to the runners have below each node the children that `ListChildren` emits, and for each root index the root that `GetRoot` emits |
| CliqueForest.FamilyIsSearch | enumerable/clique.hpp:43-111 | parent pointers are the search's parents, and the nodes without one are the search's roots |
| Family.Family.OneEach | enumerator/sequential.hpp:22-28 | following children from all roots meets every node exactly once |
| Forest.WalkWithStack | enumerator/sequential.hpp:14-29 | reports every node of any finite forest as often as it occurs |
| Forest.WalkRecursively | enumerator/sequential.hpp:30-40 | the same for the recursive walk |
| WorkStealingTheorems.ReachableInv | enumerator/parallel_pthreads_steal.hpp:120-323 | the invariant holds in every interleaving of any number of threads |
| WorkStealingTheorems.EveryNodeOnce | enumerator/parallel_pthreads_steal.hpp:195-317 | shared memory: when all threads have exited, each node has been expanded and reported exactly once and no work is left |
| WorkStealingRuns.SomeRunEnds | enumerator/parallel_pthreads_steal.hpp:120-323 | for every forest and any number of threads some run comes to that point |
| WorkStealingTheorems.SameAsSequential | enumerator/parallel_pthreads_steal.hpp:195-317 | a parallel run reports what the sequential walks report |
| WorkStealingTheorems.ExitLeavesNothing | enumerator/parallel_pthreads_steal.hpp:227-316 | no local stack, frame, node queue or root queue holds work when all have exited |
| WorkStealingTheorems.AsksOnlyWhenIdle | enumerator/parallel_pthreads_steal.hpp:266-312 | more work is requested only when no thread holds or has queued any; by then the initial roots and all earlier answers have been expanded and reported, or sent away |
| WorkStealingTheorems.AsksIff | enumerator/parallel_pthreads_steal.hpp:266-274 | the thread that holds the flag then asks exactly when both queues are empty and the end has not been announced |
| WorkStealingTheorems.GotIsAnswered | enumerator/parallel_pthreads_steal.hpp:274-305 | what came in on a run is what its requests were answered with |
| WorkStealingTheorems.EverythingHandled | enumerator/parallel_pthreads_steal.hpp:195-317 | distributed or not: when all threads have exited, the initial roots and all answers have been expanded and reported, or sent away, each exactly once |
| WorkStealingRuns.SomeDistributedRunEnds | enumerator/parallel_pthreads_steal.hpp:120-323 | for every forest, any number of threads and any answers some run takes them all in and ends with the first answer that there is nothing more |
| WorkStealingSteals.SendsRoots | enumerator/parallel_pthreads_steal.hpp:134-193 | from every reachable state in which a thread may serve a steal it can send away the first queued roots, any number of them, and nothing else changes |
| WorkStealingSteals.SendsNode | enumerator/parallel_pthreads_steal.hpp:178-184 | or the node it was given, which it reports but does not expand |
| WorkStealingSteals.SendsNothing | enumerator/parallel_pthreads_steal.hpp:137-191 | or nothing, and then the flag is clear again and nothing has changed |
| WorkStealingSteals.Offers | enumerator/parallel_pthreads_steal.hpp:195-219 | from every reachable state with a node that is not sent it can be handed to the other threads and reported |
| WorkStealingSteals.Keeps | enumerator/parallel_pthreads_steal.hpp:195-219 | or, without recursion, put on the thread's own list and reported |
| WorkStealingSteals.Recurses | enumerator/parallel_pthreads_steal.hpp:195-219 | or, with recursion, expanded at once |
| WorkStealingTheorems.ThreadMoves | enumerator/parallel_pthreads_steal.hpp:120-316 | in every reachable state each thread that is not done, spinning on the queue or waiting in the barrier has a step of its own |
| WorkStealingTheorems.StopsLookingIff | enumerator/parallel_pthreads_steal.hpp:249-256 | a thread that finds no queued node stops looking exactly when the end has been announced or all threads are counted as waiting |
| WorkStealingTheorems.NeverStuck | enumerator/parallel_pthreads_steal.hpp:22-316 | threads never all wait for each other: in every reachable state some thread has a step other than another round of the queue loop, until all are done |
| WorkStealingTheorems.StepsChange | enumerator/parallel_pthreads_steal.hpp:120-316 | and no step leaves everything as it was |
| WorkStealingTheorems.BarrierSeparates | enumerator/parallel_pthreads_steal.hpp:22-37 | no thread returns from its r-th wait before all have entered theirs |
| WorkStealingProof.GenerationTurns | enumerator/parallel_pthreads_steal.hpp:28-35 | when the generation turns, all have arrived and none has arrived for the next |
| WorkStealingProof.ConservedStep | enumerator/parallel_pthreads_steal.hpp:134-316 | each step keeps the balance of expanded, reported, held, queued, received and sent work |
| TicketQueue.DequeuesAreDistinct | util/concurrentqueue.hpp:1888-1984 | on every run with unbounded counters indices are handed out once, the head never passes the tail, and head plus overcommit plus tickets in flight is the optimistic count |
| TicketQueue.NoElementLost | util/concurrentqueue.hpp:1888-1984 | on every run the tail counts the elements enqueued, and each index below the head has been moved out or is held by a consumer |
| TicketQueue.DequeueAlone | util/concurrentqueue.hpp:1888-1984 | with all consumers idle, one that runs alone takes the element at the head, if there is one |
| TicketQueue.DequeueNoneAlone | util/concurrentqueue.hpp:1890-1892 | and finds none if there is none |
| TicketQueue.GivesUpIff | util/concurrentqueue.hpp:1892-1924 | a dequeue gives up exactly if the tickets issued before and not known to be given back are as many as the elements it saw |
| TicketWrap.WrappedRun | util/concurrentqueue.hpp:1888-1984 | every run on wrapping counters is what remains of an unbounded one, as long as the numbers compared are less than half the range apart |
| TicketWrap.WrappedDequeues | util/concurrentqueue.hpp:1888-1984 | hence on wrapping counters too no two consumers read the same index and no element is lost |
| TicketWrap.WrappedDequeueAlone | util/concurrentqueue.hpp:1888-1984 | and a consumer that runs alone takes the element at the head |
| TicketQueue.ClaimFindsElement | util/concurrentqueue.hpp:1923-1935 | a consumer that passed the second test finds an element at the head |
| TicketQueue.OvercommitBelowTicket | util/concurrentqueue.hpp:1912-1918 | the assertion in the dequeue: the overcommit it loaded does not exceed its ticket |
| TicketQueue.ClaimsFit | util/concurrentqueue.hpp:1888-1984 | consumers past the second test never outnumber the elements |
| TicketQueue.QuietTestIsExact | util/concurrentqueue.hpp:1890-1892 | with no consumer under way the first test says exactly whether the queue has an element |
| TicketQueue.CircularLessIsExact | util/concurrentqueue.hpp:403-415 | on indices less than half the range apart the wrapping comparison is the true one |
| FreeList.KeepInv | util/concurrentqueue.hpp:1368-1468 | refcount and flag match readers and membership in every interleaving |
| FreeList.TakeIsNotStale | util/concurrentqueue.hpp:1391-1428 | a head swap installs the true successor, and the flag is clear |
| FreeList.LinksOnce | util/concurrentqueue.hpp:1434-1456 | a node is linked only while it is not in the list |
| FreeList.OneReturnPerAdd | util/concurrentqueue.hpp:1377-1457 | on every run each add is answered by at most one return of the node |
| FreeList.NoNodeLost | util/concurrentqueue.hpp:1377-1457 | with no operation under way every node is with a caller or in the list |
| FreeList.GetEnds | util/concurrentqueue.hpp:1391-1428 | on every run a `try_get` ends by returning a node, or it returns null and the list was empty at some moment during the call |
| FreeList.GetAlone | util/concurrentqueue.hpp:1391-1428 | with no operation under way, a `try_get` that runs alone returns the head of a nonempty list |
| FreeList.AddAlone | util/concurrentqueue.hpp:1377-1456 | and an `add` that runs alone puts its node in front of the list |
| FreeListProgress.FinishesAlone | util/concurrentqueue.hpp:1377-1457 | on every run, whatever the other threads have left half done, a thread that runs alone from there finishes its call |
| FreeList.MaskedCount | util/concurrentqueue.hpp:1399-1400 | the masked refcount is zero exactly for nodes neither listed nor read |
| DistributedMpiTheorems.StopsOnlyWhenIdle | enumerator/distributed_mpi.hpp:120-221 | with a root for each worker, or none at all: the master decides to stop only when no root is unassigned, no worker holds work and none is in transit; then its count is the number of solutions, and every node has been reported, up to what misled workers dropped and did again; if none was misled, exactly |
| DistributedMpiOutcome.StopsIdleIff | enumerator/distributed_mpi.hpp:120-221 | in every run the master decides to stop only when no work is left, if and only if the clamped number of roots per range is positive or there are no roots |
| DistributedMpiOutcome.CompleteIfEnoughRoots | enumerator/distributed_mpi.hpp:223-290 | with at least one root per worker, and assertions, one worker or an empty forest, a finished run is complete; with fewer roots than workers no range is sent and no run finishes, and nothing is reported with assertions, or before a worker is misled |
| DistributedMpiOutcome.ReliableIff | enumerator/distributed_mpi.hpp:384-390 | that condition is exact, both for completeness of finished runs and for reporting no node too often |
| DistributedMpiRuns.FairEnd | enumerator/distributed_mpi.hpp:223-290 | with a root for each worker, or none at all, for every forest some run finishes, and completely |
| DistributedMpiTheorems.RangesPartition | enumerator/distributed_mpi.hpp:241-262 | in every run, at every moment, the ranges handed out and the rest split all roots |
| DistributedMpiTheorems.NothingUnexpected | enumerator/distributed_mpi.hpp:130-221 | with a root for each worker, or none at all, no process receives a message it has no case for in any run; a worker at work only receives steal requests |
| DistributedMpiTheorems.NeverStuck | enumerator/distributed_mpi.hpp:130-391 | with a root for each worker, or none at all, in every run in which no assertion has failed: no deadlock before the master has finished; then every worker stops, except that one whose first answer was the end of the run waits forever |
| DistributedMpiTheorems.ConservedStep | enumerator/distributed_mpi.hpp:130-391 | each step keeps the balance of reported, held, travelling, unassigned and dropped work against the forest and what is done again |
| DistributedMpiTheorems.CountedStep | enumerator/distributed_mpi.hpp:321-365 | counts with the master and the workers add up to the solutions found, although requests are sent again |
| DistributedMpiTheorems.Clamped | enumerator/distributed_mpi.hpp:230-235 | the clamped number of roots per range is the largest allowed one |
| DistributedMpiProof.ProtocolStep | enumerator/distributed_mpi.hpp:130-391 | with a root for each worker, or none at all, each step keeps what the two channels of every worker may hold, also the step that misleads a worker |
| DistributedMpiVictim.Master.GetStealVictim | enumerator/distributed_mpi.hpp:105-118 | the worker with work that asked least recently, the last victim excepted, or worker 0 |
| DistributedMpiVictim.Master.Terminated | enumerator/distributed_mpi.hpp:120-127 | all workers are waiting |
| DistributedMpiVictim.PickedIsWaitingIff | enumerator/distributed_mpi.hpp:105-118 | exactly when the worker picked has no work |
| DistributedMpiVictim.SecondPickHasWork | enumerator/distributed_mpi.hpp:105-118 | a useless pick is followed by a useful one |
| DistributedMpiVictim.PickedIsStealerIff | enumerator/distributed_mpi.hpp:160-166 | exactly when the stealer is picked as its own victim |
| DistributedMpiOutcome.FirstAnswersAreRangesIff | enumerator/distributed_mpi.hpp:384-386 | whatever the forest, every run sends each worker a range first if and only if there are one worker and at least one root |
| DistributedMpiRuns.UnfairRun | enumerator/distributed_mpi.hpp:384-390 | in all other cases, whatever the forest, a run in which some worker's first answer is the end of the run, with victims as `GetStealVictim` picks them |
| DistributedMpiRuns.TwiceRun | enumerator/distributed_mpi.hpp:384-390 | with two or more workers and no assertions, a run that reports every node twice as often as it occurs |
| DistributedMpiRuns.SelfPickRun | enumerator/distributed_mpi.hpp:105-166 | with two or more workers and a root for each, a run to a state in which the stealer is the victim picked, if root 0 is not empty |
| DistributedMpiOutcome.SelfPickIff | enumerator/distributed_mpi.hpp:160-166 | for given sizes, in every run on every forest the victim picked is not the stealer, if and only if there is one worker or fewer roots than workers |
| DistributedMpiOutcome.AbortedIff | enumerator/distributed_mpi.hpp:165-165 | in every run the program has stopped exactly if it has assertions and a first answer was no range or the stealer was picked as its own victim; then no process takes another step |
| DistributedMpiOutcome.VictimAskedLongestAgo | enumerator/distributed_mpi.hpp:105-118 | on every run, of the workers with work other than the last victim, the one asked is the one whose last request was taken first |
| DistributedMpiMisled.MisledRun | enumerator/distributed_mpi.hpp:384-391 | in every run each worker is misled at most once; no node is reported more than once for the run and once for each misled worker; when the master decides to stop, with a root for each worker or none at all, exactly that often, less what the misleading answers held |
| DistributedMpiSteals.RootsAreStolen | enumerator/distributed_mpi.hpp:150-221 | from every reachable state with a steal request at a worker with roots it can give any number of them away, and the stealer goes on with exactly these |
| DistributedMpiSteals.NodeIsStolen | enumerator/distributed_mpi.hpp:150-221 | or the node just handed to its callback: it reports it, the stealer expands it |
| CuckooSet.CuckooHashSet.Insert | util/cuckoo.hpp:217-230 | adds exactly `k`, keeps every other key, counts it once; terminates; the table grows exactly if `k` is new, both its buckets are full and no chain of evictions of the length allowed comes to a free slot |
| CuckooSet.CuckooHashSet.InsertInto | util/cuckoo.hpp:52-98 | the private insert through evictions and nested rehashes: every key stays in one of its two buckets and none is lost |
| CuckooSet.CuckooHashSet.Rehash | util/cuckoo.hpp:100-116 | a larger table with the same keys |
| CuckooSet.CuckooHashSet.Count | util/cuckoo.hpp:231-257 | membership |
| CuckooSet.CuckooHashSet.Erase | util/cuckoo.hpp:273-288 | removes exactly `k` |
| CuckooSet.CuckooHashSet.SizeIsCardinality | util/cuckoo.hpp:270-270 | `sz` is the number of different keys |
| CuckooSet.FullWidthHasRoom | util/cuckoo.hpp:48-59 | with as many buckets as keys the first bucket of a new key has a free slot |
| CuckooSet.EvictKeeps | util/cuckoo.hpp:80-94 | an eviction exchanges one key for another and keeps the placement of all |
| CuckooSet.SettlesNext | util/cuckoo.hpp:65-95 | one eviction is enough if the first key of the bucket has a free slot in its other one |
| Degeneracy.DegeneracyOrder | permute/permute.hpp:5-39 | a permutation in which each vertex has the fewest neighbours left; no ordering has a smaller worst vertex; the scan advances at most `2n` times |
| Degeneracy.MinFirstIsBest | permute/permute.hpp:5-39 | choosing the fewest neighbours left minimises the largest number of later neighbours |
| Degeneracy.Lower | permute/permute.hpp:26-34 | swap, pop and push keep every vertex filed at its position |
| FastGraphs.Permute | util/graph.hpp:222-236 | the relabelled graph is sorted, symmetric and isomorphic |
| FastGraphs.Relabel | enumerable/diam2kplex.hpp:492-503 | after relabelling in degeneracy order no vertex has more forward neighbours than the least possible bound |
| FastGraphs.FastGraph.AreNeighs | util/graph.hpp:220-220 | for any two vertices the hash sets agree with the adjacency lists |
| FastGraphs.FastGraph.FwdNeighsOf | util/graph.hpp:214-218 | exactly the neighbours with a larger number, in order |
| FastGraphs.FastGraph.constructor | util/graph.hpp:207-212 | fills the hash sets and offsets accordingly; no vertex is the reserved value of a set |
| GraphPermute.MaximalKplexRenamed | util/graph.hpp:222-236 | relabelling maps maximal k-plexes to maximal k-plexes, both ways |
| GraphPermute.MaximalDiamTwoRenamed | util/graph.hpp:222-236 | the same for those of diameter two |
| GraphPermute.MaximalCliqueRenamed | util/graph.hpp:222-236 | the same for maximal cliques |
| GraphPermute.ForwardIsLater | util/graph.hpp:214-218 | forward neighbours are the neighbours later in the ordering |
| Resort.Resort | enumerable/connected_hereditary.hpp:38-76 | exactly the part of `s` reachable from the seed, each vertex once, ordered by distance and number, each with its only distance |
| Resort.DistanceIsShortest | enumerable/connected_hereditary.hpp:38-76 | these distances are lengths of shortest paths inside `s` |

## Left out

- TicketQueue.DequeuesAreDistinct: the counters do not wrap; `TicketWrap` carries the result over to wrapping ones.
- DistributedMpiTheorems.StopsOnlyWhenIdle: with fewer roots than workers the master stops with every root unassigned (`StopsIdleIff`), so such runs are excluded.
- DistributedMpiTheorems.NothingUnexpected: runs with fewer roots than workers, in which the master broadcasts more than once, are excluded.
- DistributedMpiTheorems.NeverStuck: the same; there the master never finishes (`CompleteIfEnoughRoots`).
- DistributedMpiProof.ProtocolStep: the same.
- DistributedMpiRuns.FairEnd: the same; no such run finishes.
- DistributedMpiOutcome.CompleteIfEnoughRoots: that every run finishes is not proved, only that none is stuck and that some run finishes.
- A worker of the MPI model may give away any of its roots at any time, more than the code does; that a process of stealing threads refines it is not proved. What the protocol relies on, `WorkStealingTheorems.AsksOnlyWhenIdle` states of the runner.
- WorkStealingTheorems.EveryNodeOnce: that every run ends is not proved, since the spinning loops depend on the scheduler; `SomeRunEnds` shows that some run does.
- CuckooSet.CuckooHashSet.Insert: keys are unsigned; the int-sized bucket indices and the 32-bit loop counter do not overflow.
- Sharing of the block and its complement lists between nodes through `shared_ptr`; nodes are values. The thread-local root node clears these shared vectors for the next root (enumerable/diam2kplex.hpp:406-411, 447-451, 534-535), also for nodes that other threads still hold, so no claim is made about k-plexes under the parallel runner.
- A length header and the data that follows it are one MPI message; serialisation is not modelled.
- `uint32_t` counters in `GetRoot`, `CanAdd` and `GetCands` do not wrap.
- `binary_search_t::count` (util/binary_search.hpp:43-53), which misses elements, is not used by the enumerations.
- `reserve`, `clear`, copying and iteration of the hash set, the SIMD form of `count`, and memory management.
- Vertex labels, file formats, flags, printing, statistics, thread pinning, timing.
- The abstract framework in enumerable/commutable.hpp, the TBB runner and the runner without stealing.
- The rest of util/concurrentqueue.hpp: block allocation, bulk operations, producers, tokens; weak memory orders.
- The static partition of roots that `roots_per_node = 0` selects.
