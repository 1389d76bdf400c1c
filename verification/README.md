# libMeridian in Dafny

libMeridian is a peer-to-peer overlay that answers latency questions. Each node keeps ten concentric rings of peers by
latency, re-selects their members by a diversity criterion, routes "which node is closest to these targets" from node to
node, and runs small programs (MQL) whose values travel between nodes. This project models that logic and proves what
it relies on.

The modules follow the components of the repository. For each there is a model on values (functions and the lemmas about
them) and, where the C++ works by updating fields, arrays or maps, a class or methods in the same form whose contracts
tie the new state to the model.

| files | component |
|---|---|
| Base, Averages | node identities, sets in iteration order, rounding; averages and the forwarding threshold |
| RingModel, RingRuns, RingEffects, RingSet, RingQuery | the ring set, its invariant over whole runs, what each operation leaves behind, and the queries over its primary lists |
| ReduceSet, RingManageModel, RingReplacement, RingChoice, RingManage | ring replacement: freeze, probe, prune, reduce a flat matrix in place, commit; which members are chosen, from the reports |
| ClosestModel, ClosestSearch, ClosestDecisions, ClosestQuery | one node's part in a closest-node search |
| ClosestNetwork, ClosestProtocol | the search as a protocol between nodes over a pool of messages |
| TimerIndex, QueryTableModel, QuerySweep, QueryEffects, QueryTable | deadlines, and the query table under re-entrant handlers |
| LatencyCache | the cache of measurements |
| Wire, AstWire, AstCodec, Packets | bytes, the format of query-language values, the reply packet |
| Rendezvous | the tunnel to nodes behind firewalls |
| Checksum | the ICMP checksum |
| Layouts | the formats byte by byte |
| MqlState, MqlUpdate, MqlValues, MqlCopy, MqlAssign, MqlCosts | nodes and tables of the interpreter, assignment, equality, and what the allocation limit allows |
| MqlArrays, MqlUnion | union and intersection of arrays on the nodes |
| MqlEval, MqlScope, MqlCalls | the evaluator, its scopes and calls |
| MqlTrees, MqlTidy, MqlRuns | whole runs: types and values of all variables, and what calls return |
| MqlDefaults, MqlBinding, MqlRules, MqlLists | the meaning of each construct: declarations, parameters, statements, arrays |
| ParserState, ParserArrays, ParserEval | the interpreter in place |

## Assumptions

- A double is a real number; logarithms and rounding errors do not occur. `getRingNumber` is the least k whose bound
  1000 base^k reaches the latency, at most 9, with base at least 2. Primary and secondary ring sizes are at least 1.
- No node is (0, 0), which the code uses for "nobody" and "myself". The denominator of a ratio is positive.
- Arguments of type `NodeIdent` are values, although the code passes references, once into the list it then changes.
- `calculateHV` is any function of the leading block of the matrix to the non-negative reals.
- Latencies handed to `sendReqProbes` are below 2^31, so that the bounds of `fillVector` do not overflow `u_int`; the
  cast is undefined otherwise. A ring has fewer than 2^32 members.
- In the network a query has fixed targets and fixed latencies; clients are not overlay nodes. The pool of messages only
  grows: loss is a message never delivered, duplication one delivered twice. A node may drop a query at any time.
- The magic number is a parameter, since it is a hash of the application's name.
- Ids of queries are fresh when a search starts them.
- MQL arithmetic on basic values is a parameter. Struct names are global, as the grammar has it, wherever a theorem is
  about structs; in the theorems about whole runs (`MqlRuns`) a program neither defines structs nor declares one of
  their names, or that of the return variable, again.
- Fuel stands for the depth of the machine's stack: the theorems about union and intersection ask for as much as there
  are nodes, those about assignment for the nesting of the source.

Where the code does something else than one would expect, the model follows the code and a lemma says so: a rendezvous
host recorded for a node that changes rings is lost again (`InsertKeepsRendezvous`); `setRingMembers` accepts lists with
duplicates (`CommitKeepsInv`); rows that mention their own node defeat the pruning (`SelfEntryDefeatsPruning`);
`normalizeTime` leaves exactly one million microseconds (`OrderIsChronological`); a payload of 1378 to 1381 bytes is
lost at the rendezvous host (`LostAtTheHost`); a complete frame waits for the next read exactly after a read that
completed two (`NeverWaiting`, `SecondFrameWaits`); a handler that finishes a query whose handler is still running, or
whose turn in a sweep is still to come, leaves a pointer to a deleted query (`NotificationGoesThroughIff`,
`SweepGoesThroughIff`); an array assigned to itself is emptied (`SelfAssignmentEmpties`); with a clock that stands still
a full latency cache can evict a measurement before as many others as it holds have been taken (`EvictedEarly`,
`HeldExactly`).

## Model

| member | source | states |
|---|---|---|
| RingModel.RingBounds | RingSet.cpp:29-39 | ring k holds exactly the latencies in (1000 base^(k-1), 1000 base^k] microseconds, the outermost ring the rest |
| RingModel.RingNumberMonotone | RingSet.cpp:29-39 | a larger latency never belongs to an inner ring |
| RingModel.OneListEach | RingSet.cpp:41-160 | under the invariant a node sits in at most one of the twenty lists, and in one exactly if it has a latency |
| RingModel.EraseEffect | RingSet.cpp:41-94 | after eraseNode the node is gone from list, latency and rendezvous maps unless its ring is frozen; nobody else is touched; a secondary member moves up |
| RingModel.PushEffect | RingSet.cpp:133-158 | a newcomer enters its ring; from a full ring exactly the oldest secondary member leaves |
| RingModel.InsertEffect | RingSet.cpp:107-160 | insertNode keeps the invariant; the node gets its latency and ring unless the new or the old ring is frozen |
| RingModel.InsertKeepsRendezvous | RingSet.cpp:107-135 | a rendezvous host recorded by an insertion survives it exactly when the node does not change rings (or the ring is frozen) |
| RingEffects.EraseExactly | RingSet.cpp:41-94 | eraseNode list by list: the place of a primary member goes to the secondary member that waits longest, a secondary member just goes, and latency and rendezvous host are forgotten; a frozen ring keeps everything |
| RingEffects.InsertExactly | RingSet.cpp:107-160 | insertNode list by list: barred by a frozen ring it changes no list and no latency; a node that stays in its ring gets its new latency; a newcomer goes to the end of the primary list while there is room, then to the end of the secondary one, whose first member leaves when it is full |
| RingEffects.MoveExactly | RingSet.cpp:107-160 | a node whose new latency belongs to another ring leaves its ring and joins that one, and no third ring changes |
| RingEffects.RendvExactly | RingSet.cpp:107-135 | a rendezvous host with an address and a port is recorded and any other records nothing; it is lost if the node changes rings; nobody else's changes unless he is evicted |
| RingRuns.SwapFrees | RingSet.h:120-150 | the single forward two-pointer pass leaves every primary member free exactly when enough secondary members are free |
| RingRuns.EligibleEffect | RingSet.h:109-163 | the eligibility swap keeps the members of the ring and the invariant; when as many members as primarySize are free, all primary members end free |
| RingRuns.EligibleExactly | RingSet.h:109-163 | a replacement is started exactly in an unfrozen ring with a full primary list, a secondary member and more than primarySize members without a rendezvous host |
| RingRuns.CommitKeepsInv | RingSet.h:282-327 | setRingMembers keeps the invariant exactly when the lists it accepts are distinct and do not leave primary room beside secondary members |
| RingEffects.CommitExactly | RingSet.h:282-327 | setRingMembers accepts lists without repetition exactly when they fit and together name exactly the members of the ring, and then replaces these two lists and nothing else |
| RingRuns.ApplyKeepsInv | RingSet.cpp:41-160 | every operation of the ring set keeps the invariant |
| RingRuns.FrozenRingStandsStill | RingSet.h:41-55 | over any run of operations that neither thaw nor commit to a frozen ring, its lists and its members' latencies stay as they are |
| RingSets.RingSet.FreezeRing | RingSet.h:41-47 | freezing by ring number; -1 and no change for a number outside 0..9 |
| RingSets.RingSet.EraseNode | RingSet.cpp:41-53 | in place, takes the state to what Erase says |
| RingSets.RingSet.EraseNodeIn | RingSet.cpp:55-94 | the search loops over both lists take the state to what EraseIn says |
| RingSets.RingSet.InsertNode | RingSet.cpp:107-160 | in place, takes the state to what Insert says |
| RingSets.RingSet.SwapIneligible | RingSet.h:120-150 | the two-pointer loop computes Swap on the two arrays of lists |
| RingSets.RingSet.EligibleForReplacement | RingSet.h:109-163 | takes the state to what Eligible says and returns its verdict |
| RingSets.RingSet.MembersDump | RingSet.h:190-201 | returns exactly the members of the ring |
| RingSets.RingSet.SetRingMembers | RingSet.h:282-327 | takes the state to what SetRingMembers says; every listed node must already be a member |
| RingQuery.AboveBoundary | Query.cpp:2314-2384 | with floor(1000 d) in ring k, every latency in a ring above k passes the comparison and none below does |
| RingQuery.BelowBoundary | Query.cpp:2396-2466 | with ceil(1000 d) in ring k, every latency in a ring below k passes the comparison and none above does |
| RingQuery.HandleRingGTE | Query.cpp:2314-2384 | ring_gt and ring_ge report exactly the primary members that satisfy the comparison, each once with its rendezvous host |
| RingQuery.HandleRingLTE | Query.cpp:2396-2466 | ring_lt and ring_le report exactly the primary members that satisfy the comparison, each once with its rendezvous host |
| RingQuery.FillVector | RingSet.h:239-279 | fillVector finds exactly the primary members with a latency inside the two bounds, although only some rings are looked at |
| RingQuery.WindowExactly | RingSet.h:239-279 | the window holds exactly the primary members less than a microsecond away from the interval [(1 - beta) min, (1 + beta) max], each with its own rendezvous host |
| ReduceSet.TrialUndone | Query.cpp:544-581 | swapping two columns and two rows back restores every entry of the matrix |
| ReduceSet.RemovalRepresents | Query.cpp:588-606 | after a removal entry (i, j) of the leading block is the original latency between nodes i and j of the shortened vector |
| ReduceSet.GreedyConserves | Query.cpp:520-609 | kept and deleted nodes together are the nodes at the start, with multiplicity |
| ReduceSet.GreedyDeletesBest | Query.cpp:520-609 | the r-th node deleted is one whose removal, at its time, leaves the largest hypervolume |
| ReduceSet.TryWithout | Query.cpp:544-581 | a trial measures the block without one node and leaves the matrix unchanged |
| ReduceSet.FindMaxHVNode | Query.cpp:532-582 | the scan finds the last node whose removal leaves the largest hypervolume |
| ReduceSet.ReduceSetByN | Query.cpp:520-609 | the in-place reduction returns the greedy choice, with exactly numReduction nodes moved to the deleted ones |
| RingManageModel.PruneReportsRemoved | Query.cpp:655-690 | each turn of the pruning loop takes exactly one candidate away and reports it |
| RingManageModel.PruneWithin | Query.cpp:376-392 | rows stay inside the candidates throughout |
| RingManageModel.PruneLongRows | Query.cpp:655-690 | the loop ends with enough candidates only when every row covers all but at most one of them |
| RingManageModel.PrunedMatrix | Query.cpp:611-690 | after pruning the latency matrix can be built exactly when every row that mentions its own node mentions all others |
| RingManageModel.SelfEntryDefeatsPruning | Query.cpp:611-690 | a concrete pair of rows with self-entries that pass the pruning and leave the matrix incomplete |
| RingReplacement.CommitAccepted | Query.cpp:690-718 | the lists the attempt hands to setRingMembers are accepted |
| RingReplacement.ReplaceCommits | Query.cpp:655-718 | with rows that omit their own node, a commit is made whenever more than primarySize candidates survive the pruning |
| RingReplacement.TimeoutSettles | Query.cpp:394-412 | at a timeout exactly the members that never reported are erased, the rest settle as primary and secondary members |
| RingReplacement.ReplacementEndToEnd | Query.cpp:296-412 | from init to completion or timeout, whatever the rest of the node does to other rings: the frozen ring stands still, the commit is never refused, and afterwards the ring holds its members minus the silent ones |
| RingChoice.RowOfIsRow | Query.cpp:333-374 | the row of a report holds its last word on every candidate it mentions, and nothing else |
| RingChoice.PruneByReports | Query.cpp:655-690 | the nodes pruned go one by one, each with the shortest reported row of its time, until no row among those left misses more than one candidate or too few are left |
| RingChoice.GreedyRounds | Query.cpp:520-653 | the reduction goes by rounds on the reported latencies in milliseconds, zero on the diagonal: in each the node goes whose removal leaves the most hypervolume among those left |
| RingChoice.ReplaceChooses | Query.cpp:655-718 | a commit puts in the primary list what those rounds leave of the nodes the pruning leaves, and in the secondary list the pruned nodes and those reduced away; without one no list changes |
| RingChoice.ReplacementChoosesByReports | Query.cpp:296-412 | over the whole life of a replacement that commits: the two lists are that choice on exactly the first report of each member, at the end of the probing or at the timeout |
| RingManageQueries.RingManageQuery.Init | Query.cpp:296-331 | freezes the ring and takes its members as candidates |
| RingManageQueries.RingManageQuery.HandleEvent | Query.cpp:333-374 | takes the rings and the query to what ReportStep says |
| RingManageQueries.RingManageQuery.HandleTimeout | Query.cpp:394-412 | takes the rings and the query to what TimeoutStep says |
| RingManageQueries.RingManageQuery.RemoveCandidateNode | Query.cpp:376-392 | removes a node from candidates, reporters and every row |
| RingManageQueries.RingManageQuery.FindWorstNode | Query.cpp:655-680 | the scan finds the most deficient row, the first such |
| RingManageQueries.RingManageQuery.CreateLatencyMatrix | Query.cpp:611-653 | fills the flat matrix in iteration order, entry (i, j) with the latency node i reported to node j divided by 1000, the diagonal with zeros, or fails exactly when an entry is missing |
| RingManageQueries.RingManageQuery.PerformReplacement | Query.cpp:655-718 | takes the rings and the query to what Replace says |
| Averages.AverageIsRoundedMean | Query.cpp:1149-1179 | the average is always the mean rounded to the nearest integer; neither the special case of one entry nor the clamp ever shows |
| Averages.MeanOfRaised | Query.cpp:1112-1179 | raising one latency by d raises the mean by d over the number of entries, whichever latency it is |
| Averages.MeanOfEqual | Query.cpp:1112-1179 | the mean of equal latencies is that latency |
| Averages.BetaIsTheRatio | Query.cpp:1201-1220 | beta is the ratio of the two numbers a request carries if that is a proper fraction, and one half otherwise |
| Averages.ThresholdBounds | Query.cpp:1201-1220 | the threshold is within one half of beta times the average, on either side, and never above the average |
| Averages.ThresholdStrict | Query.cpp:1201-1220 | the threshold is below the average exactly when (1 - beta) times the average exceeds one half |
| Averages.SentinelCannotPass | Query.cpp:1181-1230 | with a ratio of two 16-bit numbers the sentinel UINT_MAX never passes the threshold |
| Averages.HopBoundClosedForm | Query.cpp:1181-1230 | h hops leave at most beta^h a + (1 - beta^h) / (2 (1 - beta)) of an average a |
| ClosestSearch.ForwardAtOk | Query.cpp:1181-1280 | the forwarding decision either answers the source once or hands the query to a real responder and waits |
| ClosestSearch.StepMeetsContract | Query.cpp:1036-1485 | after init every event keeps the invariant, never moves a search back, sends no final reply early and finishes with exactly one final reply to the source (1 to 137 targets) |
| ClosestSearch.StartOk | Query.cpp:1002-1034 | init sends an information packet first and establishes the invariant, or finishes under the same conditions |
| ClosestSearch.OneVerdict | Query.cpp:1002-1485 | over its whole life a search about 1 to 137 targets gives exactly one verdict, to its source, in the step that finishes |
| ClosestSearch.SilentForward | Query.cpp:1181-1280 | a decision ends in silence exactly with more than 137 targets to answer about, or more than 228 to hand over |
| ClosestSearch.SilentProbes | Query.cpp:1282-1332 | finishing right after the direct measurements is silent exactly without targets or with more than 137 |
| ClosestDecisions.TimeoutDecides | Query.cpp:1181-1280 | on a timeout, with the reports that have come in: the query goes to the closest responder, unchanged and by way of its rendezvous host, if that one's average is positive and within the threshold; otherwise the source is answered with a node whose average is at most this node's and every responder's, and with exactly that node's row |
| ClosestDecisions.ReportDecides | Query.cpp:1357-1446 | a report from a ring member that has not reported, about exactly the targets, is recorded as that member's row and any other changes nothing; the search decides, in the same way, exactly when it was the last one missing |
| ClosestDecisions.RowOfMeans | Query.cpp:1412-1430 | a report is used exactly when all its entries are about targets, and the last word on a target counts |
| ClosestDecisions.MeasurementMovesOn | Query.cpp:1282-1410 | the first measurement of a target is recorded; when none is missing the ring members found are asked, unless there are none or the targets are right here, when the source is answered with this node's own measurements |
| ClosestDecisions.StartTakesStock | Query.cpp:1002-1034 | init uses exactly the cached latencies of targets, and moves on at once exactly when these are all of them |
| ClosestDecisions.VerdictPassedOn | Query.cpp:1060-1078 | the verdict of the selected member goes to the source as it is, (0, 0) replaced by its name, and ends the search |
| ClosestDecisions.NoticePassedOn | Query.cpp:1036-1110 | so do its failure, which ends the search, and its progress reports, which do not |
| ClosestDecisions.OthersIgnored | Query.cpp:1036-1110 | nobody but the selected member is heard, and nobody before the query is handed over |
| ClosestDecisions.LoopAnswered | Query.cpp:1047-1059 | a query that comes round is answered with this node's own measurements, and the search goes on |
| ClosestDecisions.TimeoutFails | Query.cpp:1448-1485 | without direct measurements, or without word from the selected member, the source is told of a failure |
| ClosestNetwork.World.LevelIsRoundedMean | Query.cpp:1112-1147 | the level of a node, by which searches compare, is its mean latency to the targets rounded to the nearest integer |
| ClosestNetwork.ForwardSound | Query.cpp:1181-1280 | a node with true measurements forwards only to a node whose level passes its threshold, and otherwise answers with a node no worse than itself |
| ClosestNetwork.RelaySound | Query.cpp:1060-1078 | a relayed reply names a node no worse than the relaying node |
| ClosestNetwork.StepSound | Query.cpp:1036-1485 | whatever happens at a truthful node, it stays truthful and sends only sound packets |
| ClosestProtocol.NextOk | MeridianProcess.h:171-199 | every step of the network keeps its invariant: delivery in any order, duplication, loss, timeouts and forgotten queries included |
| ClosestProtocol.RepliesAreTruthful | Query.cpp:1036-1280 | in every run every reply goes to a node that asked its sender, names a node whose level is no worse than the sender's, and carries that node's true latencies |
| ClosestProtocol.ChainDecays | Query.cpp:1181-1280 | in every run, after h forwards the level is at most beta^h times the first plus (1 - beta^h) / (2 (1 - beta)), and levels never grow along the chain |
| ClosestProtocol.LoopsOnlyNearTheTargets | Query.cpp:1047-1059 | a query that comes round to a node has visited one level only, so low that its threshold is the level itself |
| ClosestQuery.GetMaxAndMinAndAverage | Query.cpp:1112-1147 | the loop returns the greatest and least latency and the rounded mean; -1 for an empty map |
| ClosestQuery.HandleClosest.ClosestResponder | Query.cpp:1183-1200 | the scan finds the first responder with the least average |
| ClosestQuery.HandleClosest.HandleForward | Query.cpp:1181-1280 | takes the search to what Forward says and queues exactly its packets |
| ClosestQuery.HandleClosest.SendReqProbes | Query.cpp:1282-1354 | takes the search to what SendProbes says, the ring members to ask being those fillVector finds between the scaled extremes; each of them is asked once about all targets, in order, exactly when the search goes on |
| ClosestQuery.HandleClosest.HandleLatency | Query.cpp:1357-1446 | takes the search to what Latency says and queues exactly its packets |
| ClosestQuery.HandleClosest.HandleEvent | Query.cpp:1036-1110 | takes the search to what Event says and queues exactly its packets |
| ClosestQuery.HandleClosest.HandleTimeout | Query.cpp:1448-1485 | takes the search to what Expire says and queues exactly its packets |
| ClosestQuery.HandleClosest.Start | Query.cpp:1002-1034 | takes the search to what Start says, queues exactly its packets and measures the targets the cache does not know |
| ClosestQuery.EachUnknownProbedOnce | Query.cpp:1004-1019 | exactly the targets without a cached latency are measured, each of them once |
| ClosestQuery.EachMemberAskedOnce | Query.cpp:1334-1354 | each ring member found is asked about all targets, by way of its rendezvous host, and asked once |
| ClosestQuery.CandidatesAreNear | Query.cpp:1282-1332 | a primary ring member is asked exactly when its latency is, within a microsecond, at least (1 - beta) times that of some target and at most (1 + beta) times that of some target |
| ClosestQuery.BuildRow | Query.cpp:1412-1430 | the loop builds the row of a report, or gives up at the first entry that is about no target |
| TimerIndex.NormalizeKeepsInstant | QueryTable.cpp:80-86 | normalising keeps the moment and leaves less than a second of microseconds, unless there was exactly one second |
| TimerIndex.OrderIsChronological | QueryTable.h:23-32 | the map order is the order of moments except that (s, 1000000) sorts before (s + 1, 0) |
| TimerIndex.DueIsChronological | QueryTable.cpp:143-146 | against a clock reading the comparison is exact |
| TimerIndex.AddKeepsTwin | QueryTable.cpp:25-40 | adding a key keeps both maps exact inverses |
| TimerIndex.RemoveKeepsTwin | QueryTable.cpp:42-69 | swap-with-last removal and dropping empty buckets keeps both maps exact inverses |
| QueryTableModel.NotificationsKeepTable | QueryTable.cpp:105-131 | whatever a notification sets off, with handlers that notify only older queries, no assertion fails and the table stays in order |
| QueryTableModel.ExecOk | QueryTable.cpp:88-131 | a re-entrant handler leaves every query whose handler is running listed as it was |
| QueryTableModel.NotificationGoesThroughIff | QueryTable.cpp:88-131 | a notification, whatever it sets off, goes through exactly when no query is left finished by a nested notification while its own handler is still running; it then keeps the table in order, with exactly the queries that remain by that account |
| QueryTableModel.NextTimeoutIsLeast | QueryTable.h:78-86 | the next event is due at the least deadline of all unfinished queries |
| QueryEffects.NotificationEffect | QueryTable.cpp:88-131 | a query whose handler notifies nobody is gone afterwards if the handler finishes it, and otherwise listed under the deadline set last or the one it had; every other query stays as it was, listed as it was |
| QueryEffects.InsertEffect | QueryTable.cpp:98-103 | a query inserted under a free id is listed under its own deadline; under a taken id nothing changes |
| QuerySweep.SweepTimesOutEachDueQueryOnce | QueryTable.cpp:133-167 | a sweep times out, by its own handler and from its own state, each query due at its start exactly once and no other, and leaves the table in order |
| QuerySweep.SweepGoesThroughIff | QueryTable.cpp:133-167 | a sweep whose handlers notify goes through exactly when none of them finishes a query whose turn is still to come or whose handler is running; it then leaves the table in order, with exactly the queries that remain by that account |
| QuerySweep.NotifyingSweep | QueryTable.cpp:133-167 | two queries due at one instant, the handler of the first inserted finishing the other: inserted in one order the sweep reaches a deleted query, in the other it goes through |
| QueryTables.QueryTable.AddTimeoutOf | QueryTable.cpp:25-40 | in place, takes the two maps to what AddTimeout says |
| QueryTables.QueryTable.RemoveOldTimeout | QueryTable.cpp:42-69 | the search loop and swap removal take the two maps to what Remove says |
| QueryTables.QueryTable.Update | QueryTable.cpp:88-96 | takes the table to what UpdateTimeout says; finished queries are deleted |
| QueryTables.QueryTable.InsertQuery | QueryTable.cpp:98-103 | inserts unless the id is taken, which returns -1 |
| QueryTables.QueryTable.Notified | QueryTable.cpp:105-131 | runs the handler, which may re-enter the table, and relists or deletes the query |
| QueryTables.QueryTable.CollectDue | QueryTable.cpp:138-153 | the first loop lists every due query once, earlier deadlines first and queries of one deadline in the order of their bucket |
| QueryTables.QueryTable.HandleTimeout | QueryTable.cpp:133-167 | the whole sweep over the list of due queries, whenever it goes through at all |
| QueryTables.QueryTable.NextTimeout | QueryTable.h:78-86 | five seconds from now without any query; otherwise no query is due earlier than the instant returned and one is due exactly then |
| LatencyCaches.VictimExpiresFirst | LatencyCache.cpp:77-82 | the entry a full cache evicts is cached, and no cached entry expires before it |
| LatencyCaches.InsertionEvicts | LatencyCache.cpp:67-104 | an insertion stores the node's latency until its period has passed; of the others it removes none unless as many as maxSize are cached, and then exactly one, which expires first |
| LatencyCaches.StillHeld | LatencyCache.cpp:67-104 | over any run: a measurement left alone is held as long as fewer than maxSize rivals have come up, the nodes inserted later or earlier by a clock that did not show less |
| LatencyCaches.HeldExactly | LatencyCache.cpp:67-104 | with an advancing clock and nothing erased a measurement left alone is held for exactly as long as fewer than maxSize other nodes have been measured since |
| LatencyCaches.RivalsAreLater | LatencyCache.cpp:67-104 | by a clock that showed less at every earlier insertion the rivals are exactly the other nodes inserted since |
| LatencyCaches.EvictedEarly | LatencyCache.cpp:77-82 | five measurements at one moment in a cache for three: a node is evicted although only two others have been measured since |
| LatencyCaches.ApplyEffect | LatencyCache.cpp:67-140 | one operation on the plain map: what it stores is there, everything else stays unless erased, overwritten or evicted |
| LatencyCaches.RunKeepsInv | LatencyCache.cpp:67-140 | over every run the two indexes stay exact inverses and the size within maxSize |
| LatencyCaches.LookupAnswersHistory | LatencyCache.cpp:45-65 | a lookup hits exactly when some measurement of the node was stored, nothing since displaced it and its period has not passed, and returns that measurement |
| LatencyCaches.VictimIsOldest | LatencyCache.cpp:77-82 | a full cache evicts the measurement taken longest ago |
| LatencyCaches.LatencyCache.Lookup | LatencyCache.cpp:45-65 | returns what GetLatency says |
| LatencyCaches.LatencyCache.Insert | LatencyCache.cpp:67-104 | in place, takes the cache to what InsertMeasurement says |
| LatencyCaches.LatencyCache.RemoveEntry | LatencyCache.cpp:106-140 | in place, takes the cache to what EraseEntry says |
| Wire.AppendTwice | Marshal.h:201-321 | appending in pieces writes everything exactly when everything fits |
| Wire.BufferWrapper.RetrieveBuf | Marshal.h:79-88 | a read returns the next bytes, or sets the error for good when there are too few or the size is negative as an int |
| Wire.BufferWrapper.RetrieveUInt | Marshal.h:101-110 | reads four bytes, most significant first; 0 and the error flag past the end |
| Wire.RealPacket.AppendStr | Marshal.h:304-310 | appends when everything fits; otherwise the packet stays incomplete for good |
| AstWire.DoubleRoundTrip | MeridianDSL.cpp:923-933 | the eight bytes of section 4.7 of RFC 4506 determine sign, exponent and fraction |
| Layouts.DoubleIsSpelled | MeridianDSL.cpp:1059-1071 | the eight bytes spell sign 2^63 + exponent 2^52 + fraction |
| Layouts.FourBytes | Marshal.h:101-110 | four bytes spell 2^24 b0 + 2^16 b1 + 2^8 b2 + b3 |
| Layouts.ArrayIsSpelled | MeridianDSL.cpp:1048-1148 | an array is code 27, the element type, the length of the struct name (0 for other arrays), the name, the number of items, the items |
| Layouts.StructIsSpelled | MeridianDSL.cpp:1048-1148 | a struct is code 24, the length of its name, the name, the number of fields, the fields |
| Layouts.ItemsFollow | MeridianDSL.cpp:1048-1148 | items follow one another without anything in between |
| AstWire.UnmarshalBack | MeridianDSL.cpp:909-1148 | parsing the bytes of any printable tree, whatever follows: a tree without empty values inside comes back but for names that do not travel and leaves exactly what followed; any other fails |
| AstWire.RoundTripIff | MeridianDSL.cpp:909-1148 | the round trip is exact for exactly the trees without empty values inside and with names only where they travel |
| AstWire.NodesPaidFor | MeridianDSL.cpp:909-1046 | on arbitrary bytes the parsed tree has at most one node for every four bytes read |
| AstCodec.MarshalAst | MeridianDSL.cpp:1048-1148 | the recursive printer writes exactly the encoding, or returns -1 when it does not fit |
| AstCodec.UnmarshalAst | MeridianDSL.cpp:909-1046 | the recursive parser with its loops returns what Unmarshal says and stops where it says |
| AstCodec.SendAndReceive | MeridianDSL.cpp:909-1148 | a tree sent through a packet that holds it arrives as itself exactly when it is one that survives |
| Packets.ResponseRoundTrip | Marshal.h:1004-1092 | a reply of n latencies is 23 + 10 n bytes and parses back, (0, 0) standing for its sender |
| Layouts.ResponseIsSpelled | Marshal.h:1071-1089 | a reply is type 9, the two words of the id, the magic number, the node at offset 13, the number of latencies at offset 19 and ten bytes for each from offset 23 on: address, port, microseconds |
| Packets.ParsedFits | Marshal.h:1031-1089 | a reply that came in a datagram fits one when it is passed on |
| Packets.CreateResponse | Marshal.h:1071-1089 | writes exactly the encoding in map order, or returns -1 when it does not fit |
| Packets.ParseResponsePacket | Marshal.h:1031-1069 | returns what ParseResponse says |
| Rendezvous.TunnelDelivers | Marshal.h:1227-1325 | a payload of at most 1377 bytes wrapped by PUSH emerges from PULL unchanged with its sender's address, whatever follows in the stream |
| Rendezvous.LostAtTheHost | MeridianProcess.cpp:489-508 | payloads of 1378 to 1381 bytes, and no others, are sent off but cannot be relayed |
| Layouts.FrameIsSpelled | Marshal.h:1214-1225 | a PULL frame is type 12, a zero id, the magic number, the sender at offset 13, the payload's length at offset 19, the payload from offset 23 on |
| Layouts.PushIsSpelled | MeridianProcess.cpp:489-511 | a PUSH packet is type 11, a zero id, the magic number, the destination at offset 13, the payload from offset 19 on |
| Rendezvous.PullFromStream | Marshal.h:1227-1270 | a frame is cut off the buffer exactly when all of its bytes have arrived |
| Rendezvous.StreamReassembles | MeridianProcess.cpp:1268-1305 | for every way the stream may be cut into reads: messages are delivered complete and in order, their frames followed by the buffer are the bytes received, and the buffer has room for the next read |
| Rendezvous.FrameLeftWaiting | MeridianProcess.cpp:1268-1305 | at every moment of every run a complete frame is left in the buffer exactly when the bytes read so far reach the end of the next undelivered one |
| Rendezvous.NeverWaiting | MeridianProcess.cpp:1290-1303 | over a whole run no complete frame is ever left waiting exactly when no single read completes two frames |
| Rendezvous.SecondFrameWaits | MeridianProcess.cpp:1290-1303 | two frames that fit one read and come in together leave the second complete in the buffer |
| Rendezvous.WrapPacket | MeridianProcess.cpp:489-511 | builds the PUSH packet, or returns -1 when it does not fit |
| Rendezvous.ParsePush | Marshal.h:1292-1325 | builds the PULL frame to relay, or fails |
| Rendezvous.Receiver.HandleRead | MeridianProcess.cpp:1272-1303 | one read and one parse on the fixed buffer |
| Rendezvous.Receiver.ParsePull | Marshal.h:1227-1270 | cuts one frame and moves the rest of the buffer to the front |
| Checksum.FoldStands | MeridianProcess.cpp:1480-1484 | two folds are enough for every sum the accumulator can hold |
| Checksum.InCksum | MeridianProcess.cpp:1464-1486 | the loop computes the one's complement checksum of section 1 of RFC 1071, odd lengths included |
| Checksum.StoredChecksumVerifies | MeridianProcess.cpp:1464-1486 | with the checksum stored in its zeroed 16-bit field, computing it again gives zero |
| Layouts.ChecksumIsNegative | MeridianProcess.cpp:1464-1486 | the checksum is the negative of the message: their sum, the message read as one big-endian number padded to whole words, is a multiple of 65535 |
| Checksum.ByteOrderIndependent | MeridianProcess.cpp:1464-1486 | a machine of the other byte order computes the same checksum bytes |
| MqlState.CreateOk | MQLState.cpp:181-278 | ASTCreate changes no existing node; every new node belongs to the table and variable it is made for |
| MqlState.LookupInChain | MQLState.cpp:87-95 | a lookup finds a name only in a table the current scope can see |
| MqlRules.LookupFindsNearest | MQLState.cpp:87-95 | a lookup finds the innermost declaration of the name the current scope can see, and fails exactly when there is none |
| MqlRules.ChainContinues | MQLState.cpp:87-95 | what a table can see is itself and what the table it continues at can see |
| MqlUpdate.UpdateOk | MQLState.cpp:280-432 | assignment touches only the variable its target is part of, and allocates in that variable's table |
| MqlAssign.UpdateCopies | MQLState.cpp:280-432 | assignment to a disjoint well-formed target changes only the target's own nodes and on success makes it stand for the source's value, as a tree |
| MqlAssign.AssignmentCopies | MQLState.cpp:280-432 | on success the target is ADTEqual to the source and shares no node with it; the source is unchanged in any case |
| MqlAssign.SelfAssignmentEmpties | MQLState.cpp:366-367 | an array assigned to itself is emptied, so it survives exactly when it was empty |
| MqlCosts.CreateDecided | MQLState.cpp:181-278 | ASTCreate succeeds exactly when the type has a default value and the allocation limit allows its nodes, and takes exactly that many |
| MqlDefaults.CreateMakesDefault | MQLState.cpp:157-278 | what ASTCreate makes stands for a value of the type in which every basic value is 0, 0.0 or empty; an array has the number of items asked for |
| MqlCosts.AssignmentDecided | MQLState.cpp:280-432 | assignment between separate values of one type succeeds exactly when the allocation limit allows the nodes its copy takes, and takes exactly that many |
| MqlCopy.Framed | MQLState.h:94-137 | a value depends on its own nodes only |
| MqlValues.ADTEqualIsValueEquality | MeridianDSL.cpp:270-331 | the pointer walk of ADTEqual decides equality of the values the nodes stand for, so it is an equivalence on well-formed values |
| MqlValues.FieldsEqualIsInclusion | MeridianDSL.cpp:298-312 | without the test of the map sizes the comparison of two structs would hold exactly when the fields of the first are among those of the second |
| MqlUnion.EqualIsEquality | MeridianDSL.cpp:270-331 | on any two nodes of a sound state ADTEqual decides equality of what they stand for |
| MqlUnion.UnionReturns | MeridianDSL.cpp:1822-1857 | array_union on the nodes: succeeds exactly when both are arrays of agreeing, declared element type, no value is itself an array and the allocation limit allows the new array and its copies; no existing node changes, and the result is made of new nodes, no two of its items ADTEqual, and stands for Joined of the two value lists |
| MqlUnion.JoinedIsUnion | MeridianDSL.cpp:1249-1257 | Joined holds exactly the values of either list, each once |
| MqlUnion.IntersectReturns | MeridianDSL.cpp:1643-1684 | array_intersect on the nodes: the same for Common of the two value lists |
| MqlUnion.CommonIsIntersection | MeridianDSL.cpp:1666-1677 | Common holds exactly the values of both lists, each once |
| MqlScope.VariableCreateOk | MeridianDSL.cpp:334-350 | declaring a variable changes nothing outside the current table |
| MqlCalls.EvalKeepsScopes | MeridianDSL.cpp:2103-2698 | evaluation of any program at any depth keeps the scope stack, touches no node outside the tables the current scope sees, and returns only nodes of those tables |
| MqlCalls.CallsAreByValue | MeridianDSL.cpp:2590-2671 | once its arguments are evaluated a call returns with the same scope stack, leaves every variable of every non-global scope unchanged, and yields the caller's own result node or nothing, never break, continue or return |
| MqlBinding.BodySeesArguments | MeridianDSL.cpp:392-424 | the body of a function runs in a state in which each formal parameter names a variable of the function's own table that stands for the value its own argument stood for and shares no node with anything of the caller's; if the parameters cannot be bound the body does not run |
| MqlBinding.ParamsDecided | MeridianDSL.cpp:392-424 | parameters with new names and fitting arguments are bound exactly when the allocation limit allows the variables and the copies |
| MqlRules.ReturnValueReady | MeridianDSL.cpp:2625-2655 | where the body begins the return value is a default of the function's type in the function's own table |
| MqlRules.CallRule | MeridianDSL.cpp:2577-2589 | a name calls the innermost function declared under it |
| MqlRules.ListRule | MeridianDSL.cpp:2600-2612 | arguments are evaluated one after the other, each in the state the one before left |
| MqlRules.DeclareRule | MeridianDSL.cpp:2561-2576 | a function is declared under a name not in use in the current table, or not at all |
| MqlRules.ReturnRule | MeridianDSL.cpp:2672-2679 | return gives the return variable a copy of the value, which succeeds for a value of the function's type within the limit, and ends the function in any case |
| MqlRules.NameRule | MeridianDSL.cpp:2219-2230 | a name stands for the innermost variable of that name |
| MqlRules.ElemRule | MeridianDSL.cpp:2231-2246 | a[i] is the node of item i, or nothing; the index is evaluated first |
| MqlRules.FieldRule | MeridianDSL.cpp:2247-2264 | r.f is the node of that field, or nothing |
| MqlRules.BinRule | MeridianDSL.cpp:2393-2411 | an operator applies to the values of its operands once both are evaluated, the right one first |
| MqlRules.AssignRule | MeridianDSL.cpp:2412-2429 | an assignment between sides that share no node changes nothing but its target, which then stands for what the right side stood for, or yields nothing |
| MqlRules.AssignSucceeds | MeridianDSL.cpp:2412-2429 | of values of one type it succeeds exactly when the allocation limit allows the copy |
| MqlRules.NewVarRule | MeridianDSL.cpp:2142-2166 | a declaration adds a variable with the default value of its type, made of new nodes, and changes nothing else; it yields nothing exactly when the name is in use, the type has no default or the limit forbids it |
| MqlRules.NewArrayRule | MeridianDSL.cpp:2142-2166 | the same for an array, whose size is evaluated first and is its number of items |
| MqlRules.NewVarInitRule | MeridianDSL.cpp:2167-2218 | a declaration with an initial value evaluates it first; the new variable stands for it and shares no node with anything that was there |
| MqlRules.NewVarInitSucceeds | MeridianDSL.cpp:2167-2218 | with a fitting value and a name not in use it succeeds exactly within the limit |
| MqlLists.ArrayInitRule | MeridianDSL.cpp:2167-2218 | an array declared with a list of values has these values, in their order |
| MqlLists.StructInitRule | MeridianDSL.cpp:2167-2218 | a struct declared with a list of values gives each declared field its own, and the list must have one for each |
| MqlRules.BlockRule | MeridianDSL.cpp:2290-2307 | a block runs with a new table that sees the current one; afterwards that table and the nodes it allocated are gone and every other value is what the body made it |
| MqlRules.SeqRule | MeridianDSL.cpp:2275-2289 | of two statements the second, as the parser nests them, runs unless the first breaks off |
| MqlRules.IfRule | MeridianDSL.cpp:2491-2510 | the branch is chosen by the integer the condition stands for; break, continue and return pass through, no value does |
| MqlRules.LoopRule | MeridianDSL.cpp:2511-2528 | a while loop takes turns, each begun with a condition that holds, until the condition fails or the body breaks off or returns; conversely such turns are what it does |
| MqlRules.ForRule | MeridianDSL.cpp:2529-2552 | the same for a for loop, which runs its start once and its step once at the end of every turn, continued ones included |
| MqlLists.PushRule | MeridianDSL.cpp:1567-1598 | push_back appends a copy of a fitting value exactly when the limit allows and changes nothing but the array; the array is evaluated first |
| MqlLists.PopRule | MeridianDSL.cpp:1599-1611 | pop_back drops the last item of an array that has one and changes nothing else |
| MqlCalls.PopTableOk | MQLState.h:450-458 | removing a table removes its nodes and nothing that is still referred to |
| MqlCalls.VariablesShareNothing | MQLState.h:340-458 | no node can be reached from two different variables |
| MqlTrees.ValuesAreTrees | MQLState.h:94-137 | in a sound state no node occurs twice in what a node stands for |
| MqlTidy.UpdateKeeps | MQLState.cpp:280-432 | an assignment, even one that fails half-way, leaves every node with a value of the type it had |
| MqlRuns.EvalStaysTidy | MeridianDSL.cpp:2103-2698 | over any run of any program that leaves the struct names alone, every variable of every scope stands for a well-typed value, and so does every node returned |
| MqlRuns.VariablesReady | MeridianDSL.cpp:2103-2698 | in every state a run leads to, any two different variables are ready to be assigned to each other, so that AssignmentCopies and AssignmentDecided apply |
| MqlRuns.CallReturnsItsResult | MeridianDSL.cpp:2640-2671 | when the copy-out of a call succeeds, the caller's result node stands for exactly the value the return variable had when the body ended |
| ParserStates.ParserState.NewVarTable | MQLState.h:413-429 | pushes a table that continues at the global one |
| ParserStates.ParserState.NewContext | MQLState.h:431-444 | pushes a table that continues at the current one |
| ParserStates.ParserState.RemoveVarTable | MQLState.h:450-458 | the loop frees exactly the nodes the last table allocated |
| ParserStates.ParserState.LookupFrom | MQLState.cpp:87-95 | the walk along the previous tables returns what Lookup says |
| ParserStates.ParserState.InsertName | MQLState.cpp:97-103 | declares a name in the current table, or returns -1 |
| ParserStates.ParserState.NewNode | MQLState.h:340-348 | allocates and counts a node, or refuses beyond the limit; a refused allocation stays counted for good |
| ParserStates.ParserState.CreateBasicType | MQLState.cpp:157-179 | a node with the default value, or nothing for void, whose node stays allocated |
| ParserStates.ParserState.ASTCreate | MQLState.cpp:181-278 | in place, does what Create says |
| ParserStates.ParserState.UpdateADT | MQLState.cpp:280-432 | in place, does what Update says |
| ParserArrays.EqualNodes | MeridianDSL.cpp:270-331 | the recursive walk with its loops returns what Equal says |
| ParserArrays.CreateAndCopy | MeridianDSL.cpp:232-267 | in place, does what CopyNode says; fails for an array |
| ParserArrays.UniqueAdd | MeridianDSL.cpp:1234-1247 | in place, does what AddUnique says |
| ParserArrays.UniqueAddEach | MeridianDSL.cpp:1249-1257 | the loop does what AddEach says |
| ParserArrays.ArrayUnionOf | MeridianDSL.cpp:1822-1857 | in place, does what UnionNodes says |
| ParserArrays.ArrayIntersectOf | MeridianDSL.cpp:1643-1684 | in place, does what IntersectNodes says |
| ParserEvals.EvalNode | MeridianDSL.cpp:2103-2698 | evaluation in place does what Eval says |
| ParserEvals.RunLoop | MeridianDSL.cpp:2511-2552 | the while and for loops do what EvalLoop says |
| ParserEvals.RunInvoke | MeridianDSL.cpp:2590-2671 | the call case does what EvalInvoke says |
| ParserEvals.BindParams | MeridianDSL.cpp:392-424 | the loop over the formal parameters does what AssignParams says |

## Left out

- Sockets, the select loop, DNS, HTTP, compression, MD5, qhull and linear algebra: foreign calls.
- Packets that ring replacement and the probe queries of a closest search send: their answers are the events of the model, so a firewalled candidate that is never asked is simply silent.
- Deadlines of individual queries: when a timeout comes is left to the environment; the table that keeps deadlines is modelled on its own.
- Log output and return codes that no caller looks at.
- `HandleMCGeneric`, the TCP, DNS, ping and ICMP variants, and the remaining flat packet formats: they repeat what is modelled.
- MqlCalls.EvalKeepsScopes: programs with unary minus and `!` are not covered, since the code overwrites their operand, even a literal of the program; nor are print, RPC, native functions other than push, pop, union and intersection, scheduling by ucontext and the evaluation count.
- ParserEvals.EvalNode: covers the same constructs as EvalKeepsScopes. Assignment to a literal or a printed expression overwrites the program's own node in the code and fails in the model; a call through a name that is a variable or struct writes into the wrong union member in the code and yields nothing in the model.
- MqlRules.CallRule: says nothing about the code for names of variables and structs, for that reason.
- LatencyCaches.StillHeld: one direction for any clock; whether a node with maxSize rivals is evicted depends on which of them were erased or displaced meanwhile. `HeldExactly` is both directions for an advancing clock, and `InsertionEvicts` says for any clock what one insertion evicts.
- ParserStates.ParserState.UpdateADT: the nesting of values is bounded by a parameter, beyond which assignment fails; the code recurses without a bound.
- ParserEvals.RunLoop: the number of turns is bounded by a parameter; a loop that needs more has no outcome in the model.
- ParserStates.ParserState.ASTCreate: only nodes created by declarations and assignments count against the allocation limit, not constants and lists.
- Wire.BufferWrapper.RetrieveBuf: the sum of position and size is a mathematical integer; the code's int could overflow for buffers near 2^31 bytes.
- AstCodec.UnmarshalAst: the allocation limit of the parser state is not modelled, since a packet is too small to reach it.
