# Verified model of the evaluation and tooling algorithms of an ns-3 OLSR repository

The repository evaluates attacks on, and defenses of, the OLSR routing protocol (RFC 3626) on top of the
ns-3 simulator. This project models its self-contained algorithms in Dafny and proves what they are for.
Code that updates state in place is a class or a method with loops, proved against a specification
function or predicate; the results are then proved about that specification, over all inputs, all runs or
all interleavings.

| module | models | main results |
|---|---|---|
| `Space` | straight-line distances | zero only to itself, along an axis the difference, and ranges add up |
| `Graphs`, `DiskGraph` | node placement and hop counts on a disk graph | breadth-first hop counts are the shortest-path lengths, the sentinel marks exactly the unreachable nodes; a placement is accepted exactly when its graph is connected, the least such attempt wins |
| `TopologyProbe` | the one-hop and two-hop neighbourhoods of the topology probe | the counted sets are exactly the nodes at hop distance 1 and 2 |
| `Sampling` | rejection sampling and the in-place shuffle | every residue has equally many accepted words; index choices and permutations correspond one to one, so every permutation comes from equally many raw words |
| `FlowPairs` | selection of endpoint-disjoint data flows | exactly the requested number of flows, all endpoints distinct, deterministic in the shuffled list, fallback only without a pair apart |
| `RouteWalk` | the loop-detecting walk along next hops | a path is returned exactly when following next hops arrives, and it repeats no address |
| `EventOrder`, `SlotTimeline`, `Harness` | the event schedule, the slot state machine and the harness that runs it | gates run neutral, no defense state is carried from slot to slot, each row holds its own slot's samples, rejected runs promote nothing and accepted ones one row per scenario; every slot order is drawn by equally many words |
| `AcceptanceGates` | the gates' tests of the routing tables | each gate rejects exactly at the first node or flow that fails; with tables that list other nodes only, the second never rejects what the first let through |
| `OlsrEvaluation` | a run whose gates and detection samples read the nodes' OLSR state | rejected exactly by the routing tables the gates see; oracle rows hold the accuracy of the blacklists at the close of their windows, without any accusation where the defense is off |
| `DetectionAccuracy` | the detection-accuracy sample | the counters are the numbers of defenders and of their accusations; what attackers say counts for nothing; the detection percentage is at most 100, the in-range one exactly under a stated condition |
| `AppendLog` | many processes appending to shared files under locks | every file is one header and whole bodies in lock order; only a failing call of its own loses an append; no deadlock |
| `OlsrMessages` | the message codec and the bounded message loops | every field at its place on the wire; round trip; what the decoder accepts; a written packet is read as exactly its messages whatever padding follows; when the two loops agree |
| `WindowFeatures` | the streaming feature collector and the oracle's packet counters | all fields and columns equal their definitions over the whole trace; collector and oracle agree |
| `Statistics` | mean, deviation and the online accumulation | the online update computes the two-pass mean and variance |
| `WorkerPool` | the test runner's threads and queues | no job lost or duplicated, no deadlock, termination; exit code 0 exactly when every job reports its success; an interrupt starts nothing and breaks off whatever was not running; which limits leave no worker |
| `TypeGraph` | attribute-path enumeration | exactly the simple walks of a cyclic multigraph, once each, in preorder |
| `RecordedPaths` | which paths are recorded, without the walk | a record for the end and the labels of every route over the offered steps that repeats no type, and no other; pointers to plain objects add nothing |
| `RepeatedPaths` | repeated records among the enumerated paths | a path determines its labels; records repeat exactly when some simple walk ends at a type that is linked twice to an unvisited type |
| `StyleFixer` | the guard-respecting style fixer | each fix changes exactly what it is for; fixing then checking reports compliance, for each check and for the checks in sequence |
| `Finite` | counting in finite sets | pigeonhole facts used above |

## Where the code is not what one may expect

* `StyleFixer.FixMayCreateGuard`: expanding a tab can create a format-off guard line. Fixing is still
  idempotent, because a region that is checked in the second run was checked in the first.
* `FlowPairs.SelectedFlowsAreDisjoint`: the selection keeps attackers out of the selected flows but not out
  of flow 0, whose ends are nodes 1 and 0. That no attacker is an endpoint (`FlowPairs.NoAttackerIsAnEndpoint`)
  rests on the attacker list, which drops these two ids.
* `OlsrMessages.LoopsAgree`: the collector's message loop runs while any byte is left and the oracle's while
  a message header fits. They read the same messages from all packets except those that end in a short
  unreadable rest that starts with a known message type, where the first one aborts.
  `WindowFeatures.CollectorAbortsOracleDoesNot` exhibits such a packet.
* `DetectionAccuracy.InRangePercentBound`: the in-range detection percentage counts the accusations of all
  defenders over the defenders in range, and so can exceed 100. A flag is cleared only by the next clean
  HELLO of its sender, so a node keeps accusing an attacker it has moved away from
  (`DetectionAccuracy.InRangePercentExceeds`).
* `WorkerPool.WaitsForEverByNegativeLimit`: the runner can wait for ever exactly when it has jobs but no
  worker, which a negative job limit brings about.
* `WorkerPool.InterruptedRunSucceeds`: an interrupted run can still exit with 0: exactly when every job had
  reported its success before, or was running at that moment and returned 0. Any other job, a skipped one
  too, is broken off and fails the run (`WorkerPool.ExitCode`).
* `RepeatedPaths.AggregationTwiceRepeats`: the gathered paths can hold one record twice: registering an
  aggregation twice is enough, and the program does so (utils/print-introspected-doxygen.cc:606-608). The clean-up that
  runs afterwards takes its container by value and removes nothing, against its documentation
  (utils/print-introspected-doxygen.cc:450-471). `RepeatedPaths.RepeatsExactlyAtDoubleLinks` says exactly
  when records repeat.

## Model

| member | source | states |
|---|---|---|
| `DiskGraph.HopCountsFrom` | scratch/olsr-watchdog-eval.cc:239-266 | for any positions, source and range the result holds the shortest-path length of every reachable node and the sentinel exactly for the others |
| `DiskGraph.WalkIsNoShorter` | scratch/olsr-watchdog-eval.cc:248-264 | no walk of the disk graph is shorter than the count the search assigns |
| `DiskGraph.SearchFinished` | scratch/olsr-watchdog-eval.cc:248-265 | when the queue is empty the counts are exact: the layered invariant of the search gives shortest paths |
| `DiskGraph.Dequeue` | scratch/olsr-watchdog-eval.cc:250-251 | taking the front node keeps the two-layer order of the queue |
| `DiskGraph.Discover` | scratch/olsr-watchdog-eval.cc:258-262 | numbering a new neighbour keeps the two-layer order of the queue |
| `Graphs.AdjacencyLists` | scratch/olsr-watchdog-eval.cc:183-196 | the pair loop enters every neighbour exactly once, for any relation |
| `Graphs.HopDistanceBound` | scratch/olsr-watchdog-eval.cc:239-266 | a finite hop count is at most the number of nodes less one |
| `DiskGraph.NearIsWithin` | scratch/olsr-watchdog-eval.cc:188-190 | in the plane, being near is being within range |
| `DiskGraph.HopCountsSymmetric` | scratch/olsr-watchdog-eval.cc:239-266 | the count from one node to another is the count back |
| `DiskGraph.BuildAdjacency` | scratch/olsr-watchdog-eval.cc:181-196 | the lists hold exactly the pairs within range |
| `DiskGraph.CountReached` | scratch/olsr-watchdog-eval.cc:198-217 | the search counts exactly the nodes reachable from node 0, and all nodes are counted exactly when every pair is connected |
| `DiskGraph.PlaceNodesConnected` | scratch/olsr-watchdog-eval.cc:158-234 | the placement and seed of the least connected attempt, with 32-bit wrap of the seed; failure exactly when all attempts are disconnected |
| `DiskGraph.AcceptedPlacementsAreReachable` | scratch/olsr-watchdog-eval.cc:219-225 | on an accepted placement hop counts never yield the sentinel |
| `Space.AlongAnAxis` | scratch/olsr-dcfm-eval-mitigation.cc:1364-1367 | along any axis two nodes are within range exactly when they are at most that far apart |
| `Space.RangesAddUp` | scratch/olsr-dcfm-eval-mitigation.cc:1364-1367 | what is within r of something within s is within r + s |
| `Space.OnlyToItself` | scratch/olsr-dcfm-eval-mitigation.cc:552-560 | a distance is zero only between equal positions |
| `TopologyProbe.BuildAdjacency` | scratch/olsr-dcfm-eval-mitigation.cc:1359-1372 | each neighbour of the three-dimensional disk graph is listed exactly once |
| `TopologyProbe.DistanceTwo` | scratch/olsr-dcfm-eval-mitigation.cc:1383-1391 | hop distance two is being a neighbour's neighbour, but neither the node nor its neighbour |
| `TopologyProbe.TwoHopSet` | scratch/olsr-dcfm-eval-mitigation.cc:1383-1392 | the two collected sets are exactly the nodes at hop distance 1 and 2, and the list length counts the first |
| `TopologyProbe.RecordTopologyProbe` | scratch/olsr-dcfm-eval-mitigation.cc:1348-1409 | per-node counts of nodes one and two hops away, their extremes, means and spreads, the number of full routing tables and the spread of their sizes, and whether the flow's ends are neighbours |
| `TopologyProbe.VarianceAbout` | scratch/olsr-dcfm-eval-mitigation.cc:905-916 | the deviation around the mean, with its shortcut for fewer than two values, is the variance |
| `Sampling.Draw` | scratch/olsr-dcfm-eval-mitigation.cc:489-499 | the residue of the first accepted word; termination whenever an accepted word is still to come |
| `Sampling.ResidueCount` | scratch/olsr-dcfm-eval-mitigation.cc:475-479 | among the words below a multiple of the bound each residue occurs equally often |
| `Sampling.EveryResidueEquallyOften` | scratch/olsr-dcfm-eval-mitigation.cc:493-498 | for every bound each residue has exactly limit/bound accepted words |
| `Sampling.MoreThanHalfAccepted` | scratch/olsr-dcfm-eval-mitigation.cc:493-497 | strictly more than half of all words are accepted, whatever the bound |
| `Sampling.ShuffledIsPermutation` | scratch/olsr-dcfm-eval-mitigation.cc:472-481 | the shuffle rearranges its input |
| `Sampling.ShuffledInjective` | scratch/olsr-dcfm-eval-mitigation.cc:472-481 | different index choices give different permutations of distinct items |
| `Sampling.ShuffledSurjective` | scratch/olsr-dcfm-eval-mitigation.cc:472-481 | every permutation is reached by some index choices |
| `Sampling.ShuffleIsUniform` | scratch/olsr-dcfm-eval-mitigation.cc:457-482 | every permutation comes from the same number of vectors of accepted raw words |
| `Sampling.DeterministicShuffle` | scratch/olsr-dcfm-eval-mitigation.cc:468-482 | the in-place loop computes the shuffle of the words it accepted, and stops |
| `Sampling.ShuffledByIsPermutation` | scratch/olsr-dcfm-eval-mitigation.cc:468-482 | whatever the generator delivers, the slot order is a permutation |
| `Sampling.ShuffleIsReproducible` | scratch/olsr-dcfm-eval-mitigation.cc:457-482 | the words of the generator alone determine the arrangement, and how many of them are read |
| `Sampling.ZerosRotate` | scratch/olsr-dcfm-eval-mitigation.cc:472-481 | a generator that delivers zeros only moves the first item behind all others |
| `FlowPairs.CollectCandidates` | scratch/olsr-dcfm-eval-mitigation.cc:565-573 | exactly the nodes that are neither attackers nor ends of flow 0, each once |
| `FlowPairs.ShuffleCandidates` | scratch/olsr-dcfm-eval-mitigation.cc:578-585 | the candidate list is shuffled by the same function as the slot order |
| `FlowPairs.FindApart` | scratch/olsr-dcfm-eval-mitigation.cc:589-607 | the first pair in scan order that is apart, or proof that there is none |
| `FlowPairs.FindFarthest` | scratch/olsr-dcfm-eval-mitigation.cc:613-621 | a pair of greatest distance; the first two candidates when all are co-located |
| `FlowPairs.SelectDataFlowPairs` | scratch/olsr-dcfm-eval-mitigation.cc:540-635 | aborts exactly when candidates are too few, else returns exactly the requested number of flows, selected pair by pair from the shuffled candidates |
| `FlowPairs.SelectingStep` | scratch/olsr-dcfm-eval-mitigation.cc:591-607 | one turn of the loop extends the selection by exactly the picked pair and leaves all other candidates |
| `FlowPairs.EraseLargerFirst` | scratch/olsr-dcfm-eval-mitigation.cc:600-604 | erasing the larger index first, both positions are valid and exactly the pair is gone |
| `FlowPairs.SelectionConserves` | scratch/olsr-dcfm-eval-mitigation.cc:587-633 | endpoints and remaining candidates together are the original candidates |
| `FlowPairs.SelectedFlowsAreDisjoint` | scratch/olsr-dcfm-eval-mitigation.cc:540-635 | all endpoints of all flows are distinct, selected flows avoid attackers, and all flows do exactly when nodes 0 and 1 are no attackers |
| `FlowPairs.ParseAttackers` | scratch/olsr-dcfm-eval-mitigation.cc:2516-2538 | exactly the listed ids that are nodes other than the ends of flow 0 |
| `FlowPairs.NoAttackerIsAnEndpoint` | scratch/olsr-dcfm-eval-mitigation.cc:2516-2538 | with attackers read from the list, no attacker is an endpoint of any flow |
| `FlowPairs.SelectionIsDeterministic` | scratch/olsr-dcfm-eval-mitigation.cc:587-634 | the flows are determined by the shuffled candidates and the positions |
| `FlowPairs.FallbackOnlyWhenCoLocated` | scratch/olsr-dcfm-eval-mitigation.cc:587-633 | in a whole selection a flow joins two co-located nodes exactly when all nodes still unused stand in one place, and then so do all later flows |
| `RouteWalk.FirstMatch` | scratch/olsr-dcfm-eval-mitigation.cc:957-966 | the next hop of the first entry for the destination, none exactly when there is no entry |
| `RouteWalk.WalkOlsrPath` | scratch/olsr-dcfm-eval-mitigation.cc:937-971 | nonempty exactly when iterating next hops arrives at the destination, and then the arriving chain, without repetition: the step bound never ends the walk |
| `RouteWalk.ChainsAgree` | scratch/olsr-dcfm-eval-mitigation.cc:944-969 | following next hops is deterministic |
| `RouteWalk.LoopNeverArrives` | scratch/olsr-dcfm-eval-mitigation.cc:946-947 | a repeated address means that the destination is never reached |
| `RouteWalk.StuckNeverArrives` | scratch/olsr-dcfm-eval-mitigation.cc:948-967 | so does an unmapped address or a missing route |
| `RouteWalk.KeysBound` | scratch/olsr-dcfm-eval-mitigation.cc:943-943 | at most as many addresses are visited as there are nodes |
| `EventOrder.ScheduleRun` | scratch/olsr-dcfm-eval-mitigation.cc:2725-2822 | schedules every event of the run once, at its time and in its insertion place |
| `EventOrder.TimelineIsAsPromised` | scratch/olsr-dcfm-eval-mitigation.cc:346-390 | slots of 100 s with 60 s to settle and 40 s to measure, gates at 60 s, samples inside the window, 400 s or 460 s for four scenarios |
| `EventOrder.FiresAtPosition` | scratch/olsr-dcfm-eval-mitigation.cc:2745-2788 | every event has its place in the explicit firing order |
| `EventOrder.FiringIsEvent` | scratch/olsr-dcfm-eval-mitigation.cc:2745-2788 | the firing order holds nothing else and nothing twice |
| `EventOrder.FiringIsOrdered` | scratch/olsr-dcfm-eval-mitigation.cc:2745-2788 | it is the order of times with ties broken by insertion, for both timelines |
| `EventOrder.BeforeIsPosition` | scratch/olsr-dcfm-eval-mitigation.cc:2745-2788 | one event fires before another exactly when its position is smaller |
| `EventOrder.RemoveNext` | scratch/olsr-dcfm-eval-mitigation.cc:2745-2747 | the next event is the earliest and, at one instant, the first inserted |
| `EventOrder.NextFires` | scratch/olsr-dcfm-eval-mitigation.cc:2745-2788 | taking the next pending event follows the firing order |
| `Harness.OlsrDefenseGcop.SetEnabled` | src/olsr/model/olsr-defense-gcop.cc:201-215 | a real change wipes the flagged senders, a value-preserving call does nothing |
| `SlotTimeline.ColdStartIsFresh` | scratch/olsr-dcfm-eval-mitigation.cc:1790-1809 | the double toggle empties the detection state and keeps the switch |
| `Harness.Harness.ForceDefenseColdStart` | scratch/olsr-dcfm-eval-mitigation.cc:1790-1809 | every node's defense object is cold-started, unless the run is rejected |
| `Harness.Harness.SetAttackState` | scratch/olsr-dcfm-eval-mitigation.cc:1655-1671 | exactly the attackers that exist are switched, with their spoofed-link count |
| `Harness.Harness.SetDefenseState` | scratch/olsr-dcfm-eval-mitigation.cc:1673-1690 | every defense object is switched |
| `Harness.Harness.ApplyScenarioState` | scratch/olsr-dcfm-eval-mitigation.cc:1705-1737 | toggles only what the scenario changes, then cold-starts unconditionally |
| `SlotTimeline.TransitionIsFresh` | scratch/olsr-dcfm-eval-mitigation.cc:1705-1737 | after a transition every attacker and defense is in the scenario's state and nothing is flagged, whatever the state before |
| `SlotTimeline.InvAt` | scratch/olsr-dcfm-eval-mitigation.cc:785-788 | in every state of every run the two switches say what all nodes are in |
| `SlotTimeline.NoCarryOver` | scratch/olsr-dcfm-eval-mitigation.cc:1726-1733 | throughout a slot the nodes are in its scenario's state and each defense state is what the steps since the slot's own transition made of an empty one |
| `SlotTimeline.HistoryIsForgotten` | scratch/olsr-dcfm-eval-mitigation.cc:1746-1771 | two runs in any orders and histories have the same defense states in a slot if the steps since its transition act alike |
| `SlotTimeline.GatesRunNeutral` | scratch/olsr-dcfm-eval-mitigation.cc:2745-2771 | in both timelines and any order the gates run at 60 s with all attackers and defenses off |
| `SlotTimeline.RejectedExactlyByGates` | scratch/olsr-dcfm-eval-mitigation.cc:1173-1265 | a run is rejected exactly when one of the two gates fails on what it sees |
| `SlotTimeline.RejectedRunStagesNothing` | scratch/olsr-dcfm-eval-mitigation.cc:2061-2066 | a rejected run stages and promotes nothing |
| `SlotTimeline.HandleKeepsRest` | scratch/olsr-dcfm-eval-mitigation.cc:1924-1925 | the handlers' own guards already keep a rejected run from staging or switching anything |
| `SlotTimeline.SamplesFireInsideTheSlot` | scratch/olsr-dcfm-eval-mitigation.cc:2725-2733 | the samples of a slot fire between its transition and the next, which fires at the instant of, and before, the slot's end |
| `SlotTimeline.InsideWindow` | scratch/olsr-dcfm-eval-mitigation.cc:1848-1870 | inside a window the collector holds exactly the frames since its start, and the sampled values are the slot's own |
| `SlotTimeline.ActiveExactlyInWindows` | scratch/olsr-dcfm-eval-mitigation.cc:1848-1925 | the collector takes frames exactly between a window's start and its end |
| `SlotTimeline.NetworkMovesOn` | scratch/olsr-dcfm-eval-mitigation.cc:2745-2788 | the handlers leave the network to the simulation |
| `SlotTimeline.LabelsAreTheScenarios` | scratch/olsr-dcfm-eval-mitigation.cc:1878-1887 | looking a scenario up by name gives the switches that were applied |
| `Harness.LabelsForScenario` | scratch/olsr-dcfm-eval-mitigation.cc:1878-1887 | the lookup loop computes that function, with both labels off for an unknown name |
| `Harness.Harness.StartMeasurementWindow` | scratch/olsr-dcfm-eval-mitigation.cc:1848-1870 | clears the counters and the collector and activates it |
| `Harness.Harness.EndMeasurementWindow` | scratch/olsr-dcfm-eval-mitigation.cc:1919-2012 | deactivates the collector and stages one feature, label and oracle row |
| `Harness.Harness.Gate` | scratch/olsr-dcfm-eval-mitigation.cc:1193-1203 | a failed gate rejects the run and stops the simulator |
| `SlotTimeline.SlotStagesItsRows` | scratch/olsr-dcfm-eval-mitigation.cc:2033-2038 | one slot adds exactly its three expected rows |
| `SlotTimeline.SamplesAreOfTheirScenario` | scratch/olsr-dcfm-eval-mitigation.cc:2725-2733 | path, trust and detection of a slot's rows were sampled with all nodes in the slot's scenario |
| `SlotTimeline.AcceptedRunStagesEverySlot` | scratch/olsr-dcfm-eval-mitigation.cc:2099-2160 | an accepted run promotes one row per slot in each windowed table, with the labels, samples and frames of that slot |
| `SlotTimeline.OneRowPerScenario` | scratch/olsr-dcfm-eval-mitigation.cc:2459-2462 | each scenario is named by exactly one row of each table |
| `Harness.Harness.Run` | scratch/olsr-dcfm-eval-mitigation.cc:2822-2823 | the event loop over the schedule ends in the final state of the slot state machine |
| `Harness.SlotOrder` | scratch/olsr-dcfm-eval-mitigation.cc:2459-2462 | the slot order is a permutation: the identity unless randomised, and then what the generator's words make of the identity |
| `Harness.SlotOrderIsUniform` | scratch/olsr-dcfm-eval-mitigation.cc:457-482 | each of the n! slot orders is drawn by equally many of the word vectors the generator may accept |
| `Harness.SlotOrderIsReproducible` | scratch/olsr-dcfm-eval-mitigation.cc:2452-2462 | equal generators give equal slot orders; a generator of zeros moves slot 0 behind all others |
| `Harness.Evaluate` | scratch/olsr-dcfm-eval-mitigation.cc:2459-2470 | a whole run in the slot order drawn: rejected exactly by the gates, nothing promoted if so, all expected rows otherwise |
| `OlsrEvaluation.EvaluateOlsr` | scratch/olsr-dcfm-eval-mitigation.cc:2745-2788 | a whole run over OLSR nodes: rejected exactly when, in the routing tables the gates see, a node knows too few destinations or a flow has no route; otherwise each oracle row holds the detection accuracy of the blacklists at the close of its window, which is without any accusation where the scenario has the defense off |
| `OlsrEvaluation.Gates` | scratch/olsr-dcfm-eval-mitigation.cc:1173-1265 | the two gate loops decide exactly these two conditions |
| `OlsrEvaluation.FirstGateDecides` | scratch/olsr-dcfm-eval-mitigation.cc:1173-1265 | on the same tables, listing other nodes only, the second gate never decides |
| `OlsrEvaluation.GatesReadTables` | scratch/olsr-dcfm-eval-mitigation.cc:1173-1265 | the gates decide by every node's own table and the flows' own ends |
| `OlsrEvaluation.SampleReadsDefenses` | scratch/olsr-dcfm-eval-mitigation.cc:1591-1611 | the sample counts exactly the flagged senders of the enabled defenses of the nodes that are no attackers |
| `OlsrEvaluation.DefenseOffDetectsNothing` | src/olsr/model/olsr-defense-gcop.cc:116-123 | with every defense off no accusation is counted, however much was flagged before |
| `AcceptanceGates.AssertConnectivity` | scratch/olsr-dcfm-eval-mitigation.cc:1173-1207 | passes exactly when every node runs OLSR and knows as many distinct destinations as there are other nodes; otherwise names the first node that does not |
| `AcceptanceGates.AssertRouteExists` | scratch/olsr-dcfm-eval-mitigation.cc:1209-1265 | passes exactly when every flow's source has a route to its destination, or there are fewer than two nodes; otherwise names the first flow without one |
| `AcceptanceGates.CheckAndReportConnectivity` | scratch/olsr-dcfm-eval-mitigation.cc:1267-1287 | the number of nodes that meet the first gate's condition, and so all of them exactly when the gate passes |
| `AcceptanceGates.ConnectivityImpliesRoutes` | scratch/olsr-dcfm-eval-mitigation.cc:1187-1203 | by pigeonhole, tables that list other nodes only and pass the first gate pass the second one |
| `AcceptanceGates.KnowingEnoughIsKnowingAll` | scratch/olsr-dcfm-eval-mitigation.cc:1187-1203 | with such tables a node meets the first gate's condition exactly when its table lists every other node |
| `DetectionAccuracy.SampleDetectionAccuracy` | scratch/olsr-dcfm-eval-mitigation.cc:1562-1640 | the percentages follow from the counts, and the counts are those of `CountersCount`; all zero for a rejected run or without attackers |
| `DetectionAccuracy.CountersCount` | scratch/olsr-dcfm-eval-mitigation.cc:1589-1613 | the counts are the numbers of defending nodes, of those with an attacker for a neighbour, and of pairs of a defender and an address on its blacklist that is an attacker's, or is not |
| `DetectionAccuracy.AttackersDoNotCount` | scratch/olsr-dcfm-eval-mitigation.cc:1591-1591 | whatever is on an attacker's own blacklist, and whoever its neighbours are, the sample is the same |
| `DetectionAccuracy.AccusationsAreSplit` | scratch/olsr-dcfm-eval-mitigation.cc:1607-1611 | every accusation is counted once, as true or as false |
| `DetectionAccuracy.DetectionIsAPercentage` | scratch/olsr-dcfm-eval-mitigation.cc:1619-1640 | detection percentage and false-alarm rate lie within 0 and 100, and are 0 without a defender or an accusation; detection is 100 exactly when every defender accuses every attacker |
| `DetectionAccuracy.InRangePercentBound` | scratch/olsr-dcfm-eval-mitigation.cc:1626-1631 | the in-range percentage is at most 100 exactly when accusations from out of range do not outnumber those missed in range |
| `DetectionAccuracy.InRangePercentExceeds` | scratch/olsr-dcfm-eval-mitigation.cc:1626-1631 | three nodes that all run the defense, with the attackers that the attacker list `2` gives, for which it is 200 |
| `DetectionAccuracy.LastHelloDecides` | src/olsr/model/olsr-defense-gcop.cc:291-331 | after any series of HELLOs a sender is flagged exactly when its own last one broke a rule |
| `AppendLog.StepKeepsInv` | scratch/olsr-dcfm-eval-mitigation.cc:2066-2097 | every step of every process keeps: file contents, lock ownership and completed appends agree |
| `AppendLog.ReachableInv` | scratch/olsr-dcfm-eval-mitigation.cc:2066-2097 | the same in every state of every interleaving |
| `AppendLog.SizedFile` | scratch/olsr-dcfm-eval-mitigation.cc:2085-2091 | the size read under the lock decides exactly whether the header is missing |
| `AppendLog.WaitersHoldNothing` | scratch/olsr-dcfm-eval-mitigation.cc:2148-2154 | a process holds at most one lock and none while it waits: no cycle of waiting |
| `AppendLog.NeverStuck` | scratch/olsr-dcfm-eval-mitigation.cc:2066-2097 | while a process is not done some process can move |
| `AppendLog.RunsAreBounded` | scratch/olsr-dcfm-eval-mitigation.cc:2066-2097 | every interleaving ends |
| `AppendLog.FinalFiles` | scratch/olsr-dcfm-eval-mitigation.cc:2057-2065 | at the end each file is its old content, or header if it was empty, followed by whole bodies in lock order, one per process with something to append whose calls succeeded |
| `AppendLog.GivenUpExactlyByFailure` | scratch/olsr-dcfm-eval-mitigation.cc:2072-2084 | an append is given up exactly when one of its own open or lock calls fails |
| `AppendLog.NothingIsLost` | scratch/olsr-dcfm-eval-mitigation.cc:2057-2097 | when no call fails, every body to be appended is in its file |
| `OlsrMessages.LinksRoundTrip` | src/olsr/model/olsr-header.cc:412-477 | link blocks are read back as written |
| `OlsrMessages.BodyRoundTrip` | src/olsr/model/olsr-header.cc:311-603 | the body of every message type is read back as written |
| `OlsrMessages.RoundTrip` | src/olsr/model/olsr-header.cc:246-309 | decoding an encoded message, whatever follows it, gives the message and its size |
| `OlsrMessages.MessageLayout` | src/olsr/model/olsr-header.cc:246-603 | every field of every message type is at the place and in the byte order that RFC 3626 gives it |
| `OlsrMessages.DecodesExactly` | src/olsr/model/olsr-header.cc:265-603 | the decoder accepts exactly the byte strings that start with the fields of a message whose size is the one in its header, and reads that message |
| `OlsrMessages.ParsesExactly` | scratch/olsr_window_features.h:252-277 | a packet written from any list of messages is read as exactly that list, whatever padding follows, by either loop |
| `OlsrMessages.LoopsAgree` | scratch/olsr-dcfm-eval-mitigation.cc:1122-1143 | on any bytes the two loops read the same messages exactly when there is no bad tail |
| `WindowFeatures.FeatureCollector.Reset` | scratch/olsr_window_features.h:156-186 | all fields describe the empty trace |
| `WindowFeatures.FeatureCollector.CountFrame` | scratch/olsr_window_features.h:202-250 | totals and per-source maps describe the trace extended by the frame |
| `WindowFeatures.FeatureCollector.HandleMessage` | scratch/olsr_window_features.h:279-330 | the message counters, sets and maps describe the messages extended by this one |
| `WindowFeatures.FeatureCollector.ObserveSniffedFrame` | scratch/olsr_window_features.h:198-332 | every field keeps its meaning over the whole trace; aborts exactly when decoding does |
| `WindowFeatures.FeatureCollector.EmitFeatures` | scratch/olsr_window_features.h:348-450 | the emitted columns equal their definitions over the trace |
| `WindowFeatures.KeyIsInjective` | scratch/olsr_window_features.h:306-308 | the 48-bit key determines originator and sequence number |
| `WindowFeatures.KeysCount` | scratch/olsr_window_features.h:309-313 | so the number of keys is the number of distinct messages |
| `WindowFeatures.CopiesAreNotCounted` | scratch/olsr_window_features.h:309-313 | a further copy of a message changes no de-duplicated count |
| `WindowFeatures.SourcesPartition` | scratch/olsr_window_features.h:436-437 | the per-source counts sum up to the IPv4 totals |
| `WindowFeatures.TotalsNest` | scratch/olsr_window_features.h:394-398 | OLSR traffic is part of IPv4 traffic, which is part of all traffic |
| `WindowFeatures.RoutingLoadIsAShare` | scratch/olsr_window_features.h:394-403 | the routing load is undefined exactly when no IPv4 frame was heard and lies within 0 and 1 otherwise |
| `WindowFeatures.PerFlowColumnsAreMeans` | scratch/olsr_window_features.h:436-447 | totals over the number of sources are the means of the per-source values |
| `WindowFeatures.ThroughputIsMeanRate` | scratch/olsr_window_features.h:414-447 | the flow throughput is the mean of the bit rates of the sources |
| `WindowFeatures.RatesGiveCounts` | scratch/olsr_window_features.h:376-410 | over a window longer than a microsecond the rates times its length are the frames, the bits, the distinct TC messages and the MID and HNA messages heard |
| `WindowFeatures.CountOracle` | scratch/olsr-dcfm-eval-mitigation.cc:1122-1163 | the oracle's counters describe the messages of its own loop |
| `WindowFeatures.OracleAndCollectorAgree` | scratch/olsr-dcfm-eval-mitigation.cc:1122-1163 | on the same packet, outside bad tails, both count the same messages of each kind and the same advertised links |
| `WindowFeatures.WrittenPacketIsRead` | scratch/olsr_window_features.h:252-277 | the length field of a written packet bounds both loops to exactly its messages, whatever padding follows |
| `WindowFeatures.ObserveWritten` | scratch/olsr_window_features.h:198-332 | observing a written packet adds exactly its messages to the collector, and the oracle counts exactly these |
| `WindowFeatures.CollectorAbortsOracleDoesNot` | scratch/olsr_window_features.h:261-273 | a packet of one type byte on which the collector aborts and the oracle goes on |
| `Statistics.ComputeMean` | scratch/olsr_window_features.h:122-128 | the population mean, 0 for no samples |
| `Statistics.ComputeVariance` | scratch/olsr_window_features.h:130-137 | the population variance, 0 for no samples |
| `Statistics.MoveReference` | utils/bench-scheduler.cc:345-349 | how a sum of squared deviations changes with its reference point |
| `Statistics.AccumulateDescribes` | utils/bench-scheduler.cc:345-349 | one online step keeps: average times count is the sum, second moment is the sum of squared deviations |
| `Statistics.MomentsAreMeanAndVariance` | utils/bench-scheduler.cc:361-368 | the accumulated moments are the two-pass mean and variance |
| `Statistics.Summarise` | utils/bench-scheduler.cc:318-368 | all six logged columns are means and variances of their samples; nothing for fewer than two runs |
| `WorkerPool.StepKeepsInv` | test.py:1101-1185 | every step of every thread keeps: each dispatched job is in exactly one place and jobs are queued ahead of sentinels |
| `WorkerPool.ReachableInv` | test.py:1659-1703 | the same in every state of every interleaving, with an interrupt at any moment |
| `WorkerPool.NoWorkerLeavesJobsBehind` | test.py:1108-1109 | when a worker has exited no real job is queued any more |
| `WorkerPool.NeverStuck` | test.py:1954-1978 | with a worker, or without jobs, no reachable state is stuck |
| `WorkerPool.StuckExactlyWithoutWorkers` | test.py:1954-1978 | a stuck state is reachable exactly with jobs and no workers |
| `WorkerPool.StartWorkers` | test.py:1626-1640 | the limited number of idle workers is started, none for a negative number |
| `WorkerPool.WaitsForEverByNegativeLimit` | test.py:1609-1640 | on a machine with processors the runner can wait for ever exactly with jobs and a negative limit; other limits leave between one worker and all processors |
| `WorkerPool.StepWorks` | test.py:1101-1185 | every step of any thread uses up work |
| `WorkerPool.RunsAreBounded` | test.py:1101-1185 | every run ends |
| `WorkerPool.EveryJobOnce` | test.py:1977-1978 | when all threads are joined each job has been collected exactly once, with an outcome that fits it |
| `WorkerPool.PoolCompletes` | test.py:2142-2143 | a run that cannot go on has joined all threads and delivered every job exactly once |
| `WorkerPool.UninterruptedOutcomes` | test.py:1115-1185 | a run without an interrupt that cannot go on has one result for each job: skipped exactly for the marked jobs, run for all others |
| `WorkerPool.NothingStartsAfterInterrupt` | test.py:1110-1118 | once the flag is up no job starts: what is reported from then on is broken off, marked or not, unless it was running |
| `WorkerPool.InterruptBreaksOff` | test.py:1110-1118 | in a complete run every job that the interrupt found neither running nor reported is reported as broken off |
| `WorkerPool.InterruptedRunSucceeds` | test.py:1110-1185 | an interrupted run succeeds exactly when each job had reported its success, or was running and returned 0 |
| `WorkerPool.Collect` | test.py:1969-2013 | the tallies count each status, and the exit code is 0 exactly when every result is a pass or a skip |
| `WorkerPool.TalliesByReturnCode` | test.py:1987-2013 | return code 0 is tallied as a pass, 1 as a failure, 2 as a complaint of valgrind and any other as a crash; a job broken off counts nowhere |
| `WorkerPool.AllGoodMeansAllSucceed` | test.py:1977-2013 | all results are passes or skips exactly when every job reports its success |
| `WorkerPool.ExitCode` | test.py:2252-2255 | in any interleaving and with an interrupt at any moment the exit code is 0 exactly when every marked job was skipped and every other job returned 0; it is 1 when an interrupt found a job neither running nor reported |
| `TypeGraph.ValidIsClosed` | utils/print-introspected-doxygen.cc:498-571 | all three kinds of edges lead to registered types |
| `TypeGraph.StaticInformation.GetCurrentPath` | utils/print-introspected-doxygen.cc:402-412 | each label on the stack after a slash |
| `TypeGraph.StaticInformation.HasAlreadyBeenProcessed` | utils/print-introspected-doxygen.cc:421-433 | whether the type is on the ancestor stack |
| `TypeGraph.StaticInformation.Follow` | utils/print-introspected-doxygen.cc:517-521 | a recursive visit records everything below the target and restores both stacks |
| `TypeGraph.StaticInformation.DoGather` | utils/print-introspected-doxygen.cc:489-572 | terminates on cyclic graphs, restores both stacks and appends the records of the walks that avoid the ancestors |
| `TypeGraph.StaticInformation.Gather` | utils/print-introspected-doxygen.cc:481-487 | the same from empty stacks |
| `TypeGraph.WalksAreTheSimpleOnes` | utils/print-introspected-doxygen.cc:489-572 | the enumerated walks are exactly the simple ones |
| `TypeGraph.WalksAreOrdered` | utils/print-introspected-doxygen.cc:489-572 | they come in depth-first preorder, hence once each |
| `TypeGraph.GatheredIsExact` | utils/print-introspected-doxygen.cc:489-572 | the output from a root are the records of every simple edge sequence, once per sequence, in preorder |
| `RecordedPaths.EdgesAreOffers` | utils/print-introspected-doxygen.cc:498-571 | the edges followed at a type are exactly its pointers but those to plain objects, its containers, its child types and its partners in aggregations, in this order |
| `RecordedPaths.RecordedExactly` | utils/print-introspected-doxygen.cc:489-572 | a record is in the output exactly when some route over such steps, passing no type twice, ends at its type with its labels |
| `RecordedPaths.AttributesAreRecorded` | utils/print-introspected-doxygen.cc:498-537 | a pointer to anything but a plain object, and a container of anything, give their records |
| `RecordedPaths.ObjectPointersAddNothing` | utils/print-introspected-doxygen.cc:504-515 | the output is that of the registry in which every pointer to a plain object points nowhere |
| `RepeatedPaths.PathIsInjective` | utils/print-introspected-doxygen.cc:402-412 | the path text determines its labels, plain or with the container suffix |
| `RepeatedPaths.FirstDifference` | utils/print-introspected-doxygen.cc:489-572 | two different simple walks with the same labels part at two equal edges |
| `RepeatedPaths.RepeatsExactlyAtForks` | utils/print-introspected-doxygen.cc:489-572 | records repeat exactly when a simple walk ends at a type with two equal edges to an unvisited type |
| `RepeatedPaths.RepeatsExactlyAtDoubleLinks` | utils/print-introspected-doxygen.cc:538-571 | in a properly named registry that is exactly a double link, by aggregations or by an aggregation and the child relation |
| `RepeatedPaths.AggregationTwiceRepeats` | utils/print-introspected-doxygen.cc:551-571 | registering one aggregation of two types twice repeats a record |
| `RepeatedPaths.IcmpIsRepeated` | utils/print-introspected-doxygen.cc:606-608 | the two types and the aggregation that the program registers twice |
| `StyleFixer.CheckManuallyFile` | utils/check-style-clang-format.py:619-680 | compliant exactly when every line outside format-off regions is; in fix mode exactly the others are replaced |
| `StyleFixer.ReadJoined` | utils/check-style-clang-format.py:643-678 | writing lines and reading the file again gives the same lines |
| `StyleFixer.EnabledShrinks` | utils/check-style-clang-format.py:647-659 | what is enabled in the second run was enabled in the first, even where a fix created a guard line |
| `StyleFixer.FixThenCheck` | utils/check-style-clang-format.py:619-680 | fixing and then checking reports compliance, a second fix changes nothing, and lines inside format-off regions are unchanged |
| `StyleFixer.WhitespaceIsSound` | utils/check-style-clang-format.py:928-958 | the whitespace fix is a compliant line and keeps guards |
| `StyleFixer.WhitespaceIsCut` | utils/check-style-clang-format.py:945-948 | the fix cuts off exactly the whitespace at the end of the line |
| `StyleFixer.TabsIsSound` | utils/check-style-clang-format.py:961-993 | the tab fix is a compliant line and keeps guards |
| `StyleFixer.TabReachesNextStop` | utils/check-style-clang-format.py:981-985 | the first tab becomes the spaces up to the next multiple of four, and the rest is expanded as a line of its own |
| `StyleFixer.ReturnStartsOver` | utils/check-style-clang-format.py:985-985 | a newline or carriage return starts the columns over |
| `StyleFixer.QuotesIsSound` | utils/check-style-clang-format.py:734-769 | the include fix is a compliant line, and no include is a guard |
| `StyleFixer.QuotesReplaceBrackets` | utils/check-style-clang-format.py:757-759 | the include fix has a quote for each angle bracket, opening or closing, and every other character as it was |
| `StyleFixer.IncludeIsQuoted` | utils/check-style-clang-format.py:755-759 | an include of an ns3 header in angle brackets becomes the same include in quotes |
| `StyleFixer.ExpandConcat` | utils/check-style-clang-format.py:985-985 | tab expansion splits at any point, given the column |
| `StyleFixer.ExpandedHasNoTab` | utils/check-style-clang-format.py:981-985 | no tab is left, and text without tabs is unchanged |
| `StyleFixer.TabsMakeNoInclude` | utils/check-style-clang-format.py:755-759 | expanding tabs never makes a line an ns-3 include in angle brackets |
| `StyleFixer.TabsKeepTrimmed` | utils/check-style-clang-format.py:945-949 | expanding tabs leaves no trailing whitespace |
| `StyleFixer.AllFixedIsCompliant` | utils/check-style-clang-format.py:412-424 | after one fixing run over the three checks in their order a checking run over all three finds nothing |
| `StyleFixer.FixMayCreateGuard` | utils/check-style-clang-format.py:985-985 | expanding a tab can create a format-off guard |

## Left out

- Floating point: doubles are reals, so rounding is not modelled, and deviations are stated before their square root.
- FlowPairs.FindFarthest: compares squared distances, which order pairs as distances do.
- TopologyProbe.VarianceAbout: returns the value before its square root.
- Statistics.ComputeVariance: returns the value before its square root.
- Statistics.Summarise: the deviations are given before their square root.
- WindowFeatures.FeatureCollector.EmitFeatures: standard deviations are stated as variances, and the text of the row is not modelled.
- WindowFeatures.FeatureCollector.ObserveSniffedFrame: the 802.11, LLC, IPv4 and UDP header parsers are given by what they deliver; counters do not wrap around.
- Sampling.Draw: the generator is an arbitrary stream of words; termination assumes that an accepted word is still to come, which holds when words below half the range keep coming.
- DiskGraph.PlaceNodesConnected: at least one node (the program reads node 0 unconditionally), and positions drawn by an arbitrary function of seed and draw number.
- DiskGraph.HopCountsFrom: fewer nodes than the 32-bit sentinel, and a source that exists.
- RouteWalk.WalkOlsrPath: at most one mapped address per node, as the address map is filled (scratch/olsr-dcfm-eval-mitigation.cc:2630-2636).
- SlotTimeline.NoCarryOver: how the network, the routing tables and the flagged senders evolve between events is arbitrary; only the defense object's own state is claimed to be reset, as in the program.
- OlsrEvaluation.EvaluateOlsr: what the path sample reads off the nodes stays an arbitrary function; the walk it uses is `RouteWalk.WalkOlsrPath`.
- DetectionAccuracy.LastHelloDecides: whether a HELLO breaks a rule is given; the contradiction rules themselves are not modelled.
- OlsrMessages.MessageLayout: the validity and HTime bytes are taken as they are on the wire; their exponent form is not modelled.
- RepeatedPaths.RepeatsExactlyAtDoubleLinks: names are taken to be free of slashes and to differ, and attributes not to be called `[i]` or to start with a dollar sign.
- EventOrder.RemoveNext: the ns-3 scheduler is modelled by its rule (time, then insertion); other simulator events are the arbitrary steps between the harness's events.
- Harness.Harness.EndMeasurementWindow: throughput, delivery and MAC counters of the oracle row are not modelled beyond the frames sent in the window.
- AppendLog.FinalFiles: short writes, whose return values the program ignores, are not modelled.
- OlsrMessages.RoundTrip: `Decode` answers `None` where the program would fail an assertion or read past its buffer; builds without assertions are not modelled.
- OlsrMessages.LoopsAgree: both loops get the same bytes behind the packet header; what a different radio receives is not part of the statement.
- WorkerPool.StartWorkers: how the number of processors is detected is not modelled.
- WorkerPool.PoolCompletes: exceptions inside workers, the list of failed jobs, and console and XML output are not modelled.
- TypeGraph.StaticInformation.DoGather: registered types, their attributes and the child relation are given; the sorting of copied containers has no effect and is left out.
- StyleFixer.CheckManuallyFile: texts are modelled after decoding and newline translation, and the verbose reports are left out.
- StyleFixer.AllFixedIsCompliant: for a file on the lists of all three checks; the prefix, Doxygen-tag, license and emacs line checks, the encoding check and clang-format itself are not part of this model.
- TopologyProbe.RecordTopologyProbe: the mean least distance, a mean of square roots, is left out, and deviations are stated before their square root.
- Repeated code: the other evaluation programs hold near-identical copies of the modelled functions and add no new behaviour.
- Simple drivers: the fixed-schedule scenario programs, the multi-seed scripts and the benchmark's event rescheduling would only add easy members.
