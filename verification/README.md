# A verified model of the ndnd router and forwarder

ndnd is a Named Data Networking stack. This project models the parts of it whose correctness is
hardest to see, and proves what they promise for all inputs, all runs and all reachable states.
`dafny verify dfyconfig.toml` checks everything.

| files | what they model |
|---|---|
| NdnName, Wrappers | names, and the Option type that all share |
| DvRib, DvNetwork | the distance-vector RIB of one router, and networks of such routers: synchronous convergence, self-stabilisation, and safety of every asynchronous run |
| DvFair, DvQuiet | asynchronous convergence when every link keeps delivering, and what holds when no router has anything new to say |
| DvFib | compilation of RIB and prefix table into forwarder commands |
| DvPrefixTable | the replicated prefix table: operation log, snapshots, remote replay |
| TlvSpec, DvMessages, WireViews, DvEncode, DvCodec | the TLV codec of the routing messages over segmented buffers |
| FibSpec, FibHash, FibTree, FibAgree | the hashed and the tree FIB, both refining one table with longest-prefix lookup |
| NameTree, RibFlatten | the forwarder's RIB tree and its incremental flattening into the FIB |
| CsLru, PitCs | the Pending Interest Table and Content Store in one name tree, tokens and LRU replacement |
| LpLink | NDNLPv2 fragmentation, reassembly in a ring of 16 slots, and the frame length arithmetic |
| SmoothWrr, RoundRobin, DtQueues, DtBudget, PathDiscovery | the MARS multipath strategy: face choice, queues and counters, budgets, path discovery |

Main results, by the lemma or method that states them:

- Convergence: `ConvergesFromBoot`, `SelfStabilises`, `ConvergedDistances`. Fifteen rounds make any
  network exact from any tables, and no stored cost changes any more exactly when it has converged
  (`ConvergedIsSilent`, `SilentIsConverged`). The convergence bound holds from stale tables too,
  which goes beyond convergence from scratch.
- Fifteen epochs of any fair asynchronous run do the same: `FairRunConverges`, `RecoversFairly`.
- Routers stop publishing exactly when all their best pairs are those of a converged network
  (`FlagIsBest`, `QuietExactly`, `QuietDistances`); other costs may then still be wrong
  (`WrongCostStaysQuiet`).
- Safety of every asynchronous run: `AsyncSafe`, `NeverUndercuts`, and recovery: `Recovers`.
- Forwarder commands mirror the table: `Fib.UpdateFib`. Replication and snapshots: `Replication`,
  `SnapshotReplacesHistory`, and from one table to another `Replicate`, `CatchUp`.
- Fragmentation: `ReassemblyUndoesFragmentation`, `FramesFitExactly`, and from link to link
  `Transfer`.
- Refinement: `FibAgree.SameAnswers`, with `LastUpdateDecides` and `LookupIsLongest`. Incremental equals full recomputation: `RibTable.AddRoute`,
  `RibTable.RemoveRoute`, `RibTable.CleanUpFace`, with `FlattenedMeans`.
- PIT and Content Store invariants: `PitCsTree.InsertInterest`, `PitCsTree.FindByData`,
  `PitCsTree.HoldsMostRecent`.
- Fairness: `SmoothWrr.Fairness`, with a harmonic bound. Budgets: `FaceControl.Allocate`. Queue
  accounting: `Scheduler.Drain`. Order of every run: `DtQueues.Operate`. Path discovery:
  `PathDiscovery.Serve`, and step by step `SameIndex`, `LargerIndex`, `InterestTurn`,
  `FirstInterest`.
- Codec: `AdvertisementRoundTrip`, `PrefixOpListRoundTrip`, `DecodeAdvertisement`,
  `DecodePrefixOpList`.

Where a promised property fails for some inputs, the exact condition is proved and a failing input
given:

- announcing at the infinity value: `AnnouncedConsistent`, `InfinityIsNotPublished`;
- component values over 252 bytes: `NameRoundTrip`, the message round trips, `DecodeAdvertisement`;
- clearing a nil name: `ClearNil`, `RootEntry`, `RootKeepsObsoleteHop`;
- a face that survives its own clean-up, by a second route at one node or by the root entry:
  `RibTable.CleanUpFace`, `SecondRouteStays`, `DefaultRouteStays`;
- dead branches of the RIB tree: `PruneIsTidyExactly`, `AncestorStays`;
- frames longer than the MTU: `FramesFitExactly`, `NackExceedsMtu`, `ManyFragmentsExceedMtu`;
- base sequence 0: `NextPiece`, `ReassemblyUndoesFragmentation`, `ZeroBaseIsLost`;
- the sixteenth slot: `SixteenthSlotEvicts`;
- the wrap of the PIT token counter: `SlotsApart`, `KeptForLifetime`, `WrapChangesLifetime`;
- convergence before the first Interest: `PathDiscoveryInfo.HandleInterest`, `Serve`, `DataFirst`.

Where code and its comments disagree the model follows the code: the virtual depth of the hashed FIB
is meant to shrink on removal but never does (fw/table/fib-strategy-hashtable.go:213-221); pruning
the FIB tree is meant to climb but removes only the first node (fw/table/fib-strategy-tree.go:93-106),
and so does pruning the RIB tree (fw/table/rib.go:94-104);
a capture route stops inheritance only within its own node (fw/table/rib.go:118-126); component
lengths are written as natural numbers and not as TLV lengths (std/encoding/component.go:112-117).

Conventions: hashes of names and components are injective, so names or plain identifiers stand for
them. A handler that runs under one mutex is one step. Floating-point rates, credits and shares are
reals. Machine integers that can wrap are wrapped explicitly. Trees are maps from names to node
contents. Map iteration is in arbitrary order. The fields of a PathDiscoveryInfo are kept in one
record, which its methods update field by field.

## Model

| member | source | states |
|---|---|---|
| `DvRib.Refresh` | dv/table/rib.go:203-234 | for every visiting order of the costs the entry ends with its two least (cost, hop) pairs below infinity, and the result says whether they changed |
| `DvRib.BestTwoUnique` | dv/table/rib.go:203-220 | the two best hops are a function of the costs alone |
| `DvRib.BestTwoExtends` | dv/table/rib.go:210-220 | one turn of the scan keeps the two best of the hops seen so far, ties broken by the smaller hop |
| `DvRib.AccurateReach` | dv/table/rib.go:107-117 | an entry's best cost is below infinity exactly when some hop reaches the destination |
| `DvRib.Rib.constructor` | dv/table/rib.go:43-49 | a new RIB, once the router has set its own route, holds just that route at cost 0 |
| `DvRib.Rib.Set` | dv/table/rib.go:74-95 | stores one cost and nothing else, leaves the entry clean unless it was dirty and the cost already there, and reports exactly a change of its best two |
| `DvRib.Rib.DirtyResetNextHop` | dv/table/rib.go:138-144 | puts the column of one neighbour to infinity and marks every entry, leaving the best pairs stale |
| `DvRib.Rib.Prune` | dv/table/rib.go:149-164 | drops exactly the unreachable destinations, leaves every entry clean, and reports exactly a difference in what would be advertised |
| `DvRib.Rib.RemoveNextHop` | dv/table/rib.go:121-133 | removes one column, refreshes exactly the entries that had it, and reports exactly a difference in what would be advertised |
| `DvRib.Rib.Advert` | dv/table/rib.go:167-184 | lists every destination once with its best hop, best cost and second-best cost |
| `DvRib.Rib.Has` | dv/table/rib.go:98-104 | true exactly when some hop reaches the destination |
| `DvRib.UpdatedCosts` | dv/dv/table_algo.go:21-67 | an advertisement replaces exactly the column of the neighbour it came from, by what that neighbour offers after poison reverse |
| `DvRib.Rib.ApplyAdvert` | dv/dv/table_algo.go:38-58 | the loop over advertised entries: the costs it stores, and when its flag means that an entry was really touched |
| `DvRib.Rib.SetOffer` | dv/dv/table_algo.go:56-57 | one usable offer stores one cost, and what its flag says about the entries before the update |
| `DvRib.Rib.UpdateRib` | dv/dv/table_algo.go:21-67 | the column of the sender becomes what its last usable offer per destination costs, all others stay, every entry ends clean and reachable, a difference in the advertisement always raises the flag, and for distinct destinations only a difference does |
| `DvRib.Rib.CheckDeadNeighbors` | dv/dv/table_algo.go:70-92 | every cost through a dead neighbour becomes infinite and no other cost changes, a destination stays exactly while another hop reaches it, and the flag is raised exactly when the advertisement differs from before: the changes of one neighbour never cancel those of another |
| `DvRib.RemovedAllCosts` | dv/dv/table_algo.go:70-92 | removing neighbours one after the other empties exactly their columns |
| `DvRib.LastOfferMeans` | dv/dv/table_algo.go:38-58 | of several entries for one destination the last usable one counts; without any the cost is 16 |
| `DvRib.DropOne` | dv/dv/table_algo.go:70-92 | why: taking columns away in turn never restores an earlier pair of best hops |
| `DvRib.BestBetween` | dv/table/rib.go:203-220 | if taking columns away leaves the two best as they were, so does taking only some of them |
| `DvRib.MidStep` | dv/dv/table_algo.go:56-57 | one Set between the reset and the pruning keeps the entries halfway consistent, and what its flag says about the state before the update |
| `DvRib.FlagAfterPrune` | dv/dv/table_algo.go:60-66 | the flags of the loop and of the pruning together say exactly whether the advertisement differs from before the update |
| `DvNetwork.OfferIsLeastExcept` | dv/dv/table_algo.go:40-54 | poison reverse with the second-best cost offers one more than the sender's least cost over routes that do not lead back to the receiver, for every table and advertisement of it |
| `DvNetwork.WalkStep` | dv/dv/table_algo.go:38-57 | a walk without U-turns is a link followed by such a walk of the neighbour that does not come back |
| `DvNetwork.RoundExists` | dv/dv/table_algo.go:21-67 | a synchronous round can be taken from every state |
| `DvNetwork.RoundCost` | dv/dv/table_algo.go:21-67 | after a round, the cost through a neighbour is one more than its least cost avoiding us, or infinity; other columns stay |
| `DvNetwork.RoundKeepsNetOk` | dv/dv/table_algo.go:21-67 | a round keeps the tables well-formed |
| `DvNetwork.RoundExtendsExactness` | dv/dv/table_algo.go:21-67 | one round extends exactness of all costs by one hop, from any tables |
| `DvNetwork.RunIsExact` | dv/dv/table_algo.go:21-67 | after k rounds from arbitrary tables every cost up to k is the length of a shortest walk without U-turns, and conversely |
| `DvNetwork.SelfStabilises` | dv/dv/table_algo.go:21-67 | fifteen rounds from arbitrary tables, stale routes included, make the network exact |
| `DvNetwork.CutUTurn` | dv/dv/table_algo.go:38-57 | a path with a U-turn can be cut by two |
| `DvNetwork.DistanceIsWalk` | dv/dv/table_algo.go:38-57 | a shortest path never turns straight back |
| `DvNetwork.BestIsDistance` | dv/dv/table_algo.go:21-67 | where costs are exact the best cost of an entry is the hop distance |
| `DvNetwork.ConvergedDistances` | dv/dv/table_algo.go:21-67 | a converged router lists exactly the destinations at distance at most 15, with their true distance |
| `DvNetwork.ConvergesFromBoot` | dv/dv/table_algo.go:21-67 | after k rounds from scratch a router knows exactly the destinations within min(k, 15) hops, at their true distance |
| `DvNetwork.SameCostsSameAdvert` | dv/dv/table_algo.go:61-66 | equal costs leave nothing new to advertise |
| `DvNetwork.ConvergedIsSilent` | dv/dv/table_algo.go:61-66 | in a converged network no current advertisement changes a stored cost, so none is triggered |
| `DvNetwork.SilentIsConverged` | dv/dv/table_algo.go:61-66 | a network in which no current advertisement changes a stored cost has converged |
| `DvNetwork.OfferSafe` | dv/dv/table_algo.go:38-57 | an accepted offer is the length of a walk without U-turns through the sender, and the 64-bit sum does not wrap |
| `DvNetwork.PublishSafe` | dv/table/rib.go:167-184 | advertised costs are lengths of such walks |
| `DvNetwork.DeliverSafe` | dv/dv/table_algo.go:21-67 | handling an advertisement, however old, keeps all stored costs lengths of such walks |
| `DvNetwork.DieSafe` | dv/dv/table_algo.go:70-92 | losing a neighbour keeps them so |
| `DvNetwork.DeadAreDeaths` | dv/dv/table_algo.go:70-92 | the check for dead neighbours gets where a series of single losses gets, so the runs of the network cover it |
| `DvNetwork.StepSafe` | dv/dv/table_algo.go:21-92 | every step of the asynchronous network keeps every table and every message in flight safe |
| `DvNetwork.AsyncSafe` | dv/dv/table_algo.go:21-92 | safety of every asynchronous run: each finite stored cost is the length of a walk through that hop that never turns straight back |
| `DvNetwork.NeverUndercuts` | dv/dv/table_algo.go:21-92 | in every asynchronous run no stored cost is below the true distance and the own route stays at 0 |
| `DvNetwork.Recovers` | dv/dv/table_algo.go:21-92 | after any asynchronous run, fifteen rounds on the links that are left restore exact routes |
| `DvQuiet.FlagIsBest` | dv/dv/table_algo.go:61-66 | the dirty flag, which alone triggers a new advertisement, is raised exactly when the two best of some entry changed |
| `DvQuiet.MixAll` | dv/table/rib.go:203-220 | if replacing any one cost leaves the two best as they are, so does replacing all of them |
| `DvQuiet.QuietRound` | dv/dv/table_algo.go:21-67 | when no current advertisement would raise a flag, a whole round leaves every pair of best hops as it is |
| `DvQuiet.QuietThenSilent` | dv/dv/table_algo.go:21-67 | and after that round not even a stored cost changes any more |
| `DvQuiet.QuietIsExact` | dv/dv/table_algo.go:61-66 | a network in which no flag can be raised advertises what some converged network does |
| `DvQuiet.ExactIsQuiet` | dv/dv/table_algo.go:61-66 | and a network that does can raise no flag |
| `DvQuiet.QuietExactly` | dv/dv/table_algo.go:61-66 | so the flags stay down exactly when every router's best pairs are those of a converged network |
| `DvQuiet.QuietDistances` | dv/dv/table_algo.go:61-66 | when no flag can be raised, every router lists exactly the destinations at distance at most 15, with their true distance |
| `DvQuiet.WrongCostStaysQuiet` | dv/dv/table_algo.go:61-66 | the flags do not guard the other costs: any cost behind the two best can be wrong and stay unnoticed |
| `DvFair.OfferExact` | dv/dv/table_algo.go:38-57 | what an advertisement of a network exact below k offers is exact below k + 1 |
| `DvFair.DeliveryExact` | dv/dv/table_algo.go:21-67 | after a delivery the sender's column is exact one hop further, and every other column is as before |
| `DvFair.EpochMidway` | dv/dv/table_algo.go:21-67 | within an epoch nothing gets worse, whatever the interleaving, and what has arrived is exact one hop further |
| `DvFair.EpochExtendsExactness` | dv/dv/table_algo.go:21-67 | an epoch, in which every link delivers at least one advertisement published in it, extends exactness by one hop |
| `DvFair.EpochsAreExact` | dv/dv/table_algo.go:21-67 | after k epochs from arbitrary tables every cost up to k is exact |
| `DvFair.FairRunConverges` | dv/dv/table_algo.go:21-67 | fifteen epochs of any fair asynchronous run from arbitrary tables make the network exact |
| `DvFair.StaysConverged` | dv/dv/table_algo.go:21-67 | and it stays exact while fresh advertisements keep arriving, fairly or not |
| `DvFair.RecoversFairly` | dv/dv/table_algo.go:21-92 | after any asynchronous run, with links lost and routers restarted, fifteen epochs on the links that are left restore exact routes |
| `DvFib.GetFibEntries` | dv/table/fib.go:22-40 | at most two entries: exactly the best two hops that have a face and a cost below infinity |
| `DvFib.LeastCostIsLeast` | dv/table/fib.go:84-111 | the cost kept for a face is the least offered below the prefix infinity |
| `DvFib.Merge` | dv/table/fib.go:77-111 | after merging, every known or new face carries its least wanted cost and its previous one, each face once |
| `DvFib.EmitUnregister` | dv/table/fib.go:113-130 | exactly the unreachable faces are unregistered, and what replaying the commands then gives |
| `DvFib.EmitRegister` | dv/table/fib.go:132-150 | exactly the faces with a changed cost are registered, and what replaying the commands then gives |
| `DvFib.EmittedCost` | dv/table/fib.go:113-150 | what the two loops leave in the forwarder for one face is the least wanted cost |
| `DvFib.NothingEmitted` | dv/table/fib.go:113-150 | no command is emitted exactly when no face's least cost changed |
| `DvFib.Fib.constructor` | dv/table/fib.go:51-59 | a new table is the replay of no commands |
| `DvFib.Fib.UpdateH` | dv/table/fib.go:72-161 | the routes of one name become the least wanted costs, all other names stay, the forwarder stays the replay of all commands, and nothing is sent exactly when nothing changed |
| `DvFib.Fib.RemoveUnmarked` | dv/table/fib.go:176-184 | unmarked names lose all routes, marked ones keep theirs, and nothing is sent exactly when all were marked |
| `DvFib.RegisterAll` | dv/dv/table_algo.go:106-115 | the registering helper adds exactly the given entries at the added cost |
| `DvFib.CollectRouter` | dv/dv/table_algo.go:118-138 | one reachable router contributes its sync prefix and its announced prefixes |
| `DvFib.Collect` | dv/dv/table_algo.go:117-138 | the wanted entries are exactly those of all reachable exit routers other than this one |
| `DvFib.LeastOfWanted` | dv/dv/table_algo.go:117-146 | the least wanted cost is the least of RIB cost plus prefix cost over reachable exit routers and both hop slots |
| `DvFib.SameTableBy` | dv/dv/table_algo.go:140-147 | when updating and removing change nothing |
| `DvFib.Fib.UpdateAll` | dv/dv/table_algo.go:141-146 | the updating loop: all wanted names get their routes and marks, others are untouched |
| `DvFib.Fib.UpdateFib` | dv/dv/table_algo.go:95-148 | per name and face the table ends at the least RIB cost plus prefix cost below 0xFFFFFFFF, the forwarder mirrors it, and an unchanged table emits nothing, and conversely |
| `DvPrefixTable.MinCostIsLeast` | dv/table/prefix_table.go:229-241 | the computed cost is the least next-hop cost |
| `DvPrefixTable.SetHop` | dv/table/prefix_table.go:100-110 | the storing loop replaces the face's hop in place or appends it |
| `DvPrefixTable.WithHopHops` | dv/table/prefix_table.go:100-110 | announcing replaces the cost of that face and of no other, and keeps faces distinct |
| `DvPrefixTable.DeleteHop` | dv/table/prefix_table.go:130-135 | the deleting loop removes the first hop of the face |
| `DvPrefixTable.WithoutHopHops` | dv/table/prefix_table.go:130-135 | withdrawing removes that face and no other |
| `DvPrefixTable.ReplayConcat` | dv/table/prefix_table.go:172-208 | replaying two parts of a log is replaying the whole |
| `DvPrefixTable.ReplayAfterReset` | dv/table/prefix_table.go:186-190 | after a reset nothing known before matters |
| `DvPrefixTable.RecostedConsistent` | dv/table/prefix_table.go:144-169 | recomputing keeps log and table in step exactly unless an unknown name gets exactly the infinity value |
| `DvPrefixTable.AnnouncedConsistent` | dv/table/prefix_table.go:79-116 | announcing keeps log and table in step exactly unless it announces an unknown prefix at 0xFFFFFFFF |
| `DvPrefixTable.WithdrawnConsistent` | dv/table/prefix_table.go:119-141 | withdrawing keeps them in step |
| `DvPrefixTable.ResetConsistent` | dv/table/prefix_table.go:67-76 | a reset puts them in step |
| `DvPrefixTable.RunConsistent` | dv/table/prefix_table.go:67-169 | every run of usable requests keeps them in step |
| `DvPrefixTable.InfinityIsNotPublished` | dv/table/prefix_table.go:79-169 | the excluded announcement: stored, and so part of a snapshot, but never published |
| `DvPrefixTable.RunTracks` | dv/table/prefix_table.go:67-169 | the local table is what the requests so far amount to, face by face |
| `DvPrefixTable.ReplicatedMeaning` | dv/table/prefix_table.go:67-208 | a remote router knows a prefix exactly if some face currently announces it below infinity, at the least such cost |
| `DvPrefixTable.RunLogGrows` | dv/table/prefix_table.go:144-169 | the published log only grows |
| `DvPrefixTable.Replication` | dv/table/prefix_table.go:67-208 | replaying the log from a reset on gives exactly the local costs, from any remote state |
| `DvPrefixTable.SnapshotReplacesHistory` | dv/table/prefix_table.go:211-226 | replacing any initial part of the log by the snapshot taken there gives the same result from any remote state |
| `DvPrefixTable.ApplyOps` | dv/table/prefix_table.go:186-207 | what one operation list does to a router's prefixes, and when it counts as a change |
| `DvPrefixTable.WithAddsMeans` | dv/table/prefix_table.go:192-199 | of several additions of a name the last one counts, and other names stay |
| `DvPrefixTable.WithoutNamesMeans` | dv/table/prefix_table.go:201-205 | exactly the removed names go |
| `DvPrefixTable.AppliedMeans` | dv/table/prefix_table.go:186-207 | what a router knows after an operation list: no removed name, of the added ones the last cost, and of the others what it knew, unless there was a reset |
| `DvPrefixTable.RunNamesRouter` | dv/table/prefix_table.go:67-169 | everything a router publishes names it as the exit |
| `DvPrefixTable.SnapshotNames` | dv/table/prefix_table.go:211-226 | so does a snapshot |
| `DvPrefixTable.PrefixTable.constructor` | dv/table/prefix_table.go:37-46 | a new table is empty and has published nothing |
| `DvPrefixTable.PrefixTable.Reset` | dv/table/prefix_table.go:67-76 | the table is cleared and a reset published |
| `DvPrefixTable.PrefixTable.Recost` | dv/table/prefix_table.go:144-169 | nothing is published if the least cost is the stored one; otherwise one operation that names this router as the exit, an addition below 0xFFFFFFFF and a removal with deletion from there on |
| `DvPrefixTable.PrefixTable.Announce` | dv/table/prefix_table.go:79-116 | the next state of table and log is that of the announcement: no other name changes, and at most one operation is published, which names this router and resets nothing |
| `DvPrefixTable.PrefixTable.Withdraw` | dv/table/prefix_table.go:119-141 | the same for a withdrawal |
| `DvPrefixTable.PrefixTable.Snap` | dv/table/prefix_table.go:211-226 | a reset with every local prefix once |
| `DvPrefixTable.PrefixTable.Apply` | dv/table/prefix_table.go:172-208 | an operation list changes only its exit router's prefixes, is ignored without an exit router, and the result says whether it did anything |
| `DvPrefixTable.PrefixTable.Do` | dv/table/prefix_table.go:67-141 | one request of a run, by the method for it |
| `DvPrefixTable.Serve` | dv/table/prefix_table.go:67-141 | a router that serves requests is in the state of the run |
| `DvPrefixTable.Receive` | dv/table/prefix_table.go:172-208 | a router that applies what another has published knows of it exactly the replay of the log, and of the others what it knew |
| `DvPrefixTable.Replicate` | dv/table/prefix_table.go:67-208 | from one table to another through Apply: the receiver ends with exactly the sender's costs, the least current announcement of each name, if it knew nothing or a reset was published |
| `DvPrefixTable.CatchUp` | dv/table/prefix_table.go:172-226 | a snapshot and the operations published since bring any receiver to the sender's costs, whatever it knew |
| `LpLink.ChopJoins` | fw/face/ndnlp-link-service.go:206-240 | cutting a packet loses nothing and gives no empty and no oversized piece |
| `LpLink.ChopCount` | fw/face/ndnlp-link-service.go:216-217 | the fragment count computed beforehand is the number of pieces |
| `LpLink.Cut` | fw/face/ndnlp-link-service.go:219-231 | the cutting loop yields those pieces |
| `LpLink.DressedFits` | fw/face/ndnlp-link-service.go:195-286 | a frame with all its headers fits in the MTU plus its NACK header |
| `LpLink.FramesFit` | fw/face/ndnlp-link-service.go:195-286 | no frame exceeds the MTU by more than its NACK header, none without a NACK exceeds it, for all options, tokens, marks and wire lengths of at most 65535 fragments |
| `LpLink.FramesFitExactly` | fw/face/ndnlp-link-service.go:172-286 | for any limit, all frames fit exactly when a bound on the packet length, the MTU and the options holds: on the whole packet, or on the last full fragment and the last one |
| `LpLink.SomeStillFit` | fw/face/ndnlp-link-service.go:195-286 | a NACK frame and a packet of 70000 fragments that fit |
| `LpLink.HeadersAreTight` | fw/face/ndnlp-link-service.go:110-122 | the overhead set aside is exact: with every header at its full length the longest frame fills the MTU to the last byte |
| `LpLink.PacketsFit` | fw/face/ndnlp-link-service.go:195-286 | every packet of at most 8800 bytes meets that condition |
| `LpLink.NackExceedsMtu` | fw/face/ndnlp-link-service.go:265-269 | an input that fails the bound: a NACK frame longer than the MTU |
| `LpLink.ManyFragmentsExceedMtu` | fw/face/ndnlp-link-service.go:110-122 | another: more than 65535 fragments |
| `LpLink.FrameKey` | fw/face/ndnlp-link-service.go:323-343 | the receiver recovers the base sequence from every frame of a packet |
| `LpLink.FindSlot` | fw/face/ndnlp-link-service.go:395-420 | the first slot with the base sequence |
| `LpLink.FirstPiece` | fw/face/ndnlp-link-service.go:395-451 | the first piece to arrive opens a slot and delivers nothing |
| `LpLink.HiddenOnlyByZero` | fw/face/ndnlp-link-service.go:395-420 | the search misses a slot that is being filled exactly when a slot before it carries the same base sequence, which only 0 does |
| `LpLink.NextPiece` | fw/face/ndnlp-link-service.go:395-451 | a further piece joins the others exactly when their slot is found; then the last one delivers all pieces in order and frees the slot; otherwise the packet is lost |
| `LpLink.StaysLost` | fw/face/ndnlp-link-service.go:395-451 | a lost packet stays lost, since a missing piece does not come again |
| `LpLink.OtherFrame` | fw/face/ndnlp-link-service.go:395-451 | frames of other packets leave the pieces alone until the ring comes round |
| `LpLink.TrackedAlong` | fw/face/ndnlp-link-service.go:395-451 | along any arrival order the ring holds exactly the pieces that have arrived, until one misses the slot |
| `LpLink.NonZeroFound` | fw/face/ndnlp-link-service.go:395-420 | with a base sequence other than 0 every piece finds the slot |
| `LpLink.GotFrames` | fw/face/ndnlp-link-service.go:323-343 | all pieces are there exactly when all frames have arrived |
| `LpLink.ReassemblyUndoesFragmentation` | fw/face/ndnlp-link-service.go:323-451 | frames of a packet in any order, each at most once, among arbitrary others that open at most 15 slots, deliver nothing until the packet is complete; then exactly its bytes are delivered if every piece found the slot of the first, as it does for every base sequence but 0, and nothing otherwise |
| `LpLink.SixteenthSlotEvicts` | fw/face/ndnlp-link-service.go:395-451 | the bound of 15 is tight |
| `LpLink.ZeroBaseIsLost` | fw/face/ndnlp-link-service.go:395-451 | on a new ring a packet of two pieces with base sequence 0 is lost: the free first slot hides the second |
| `LpLink.ZeroBaseIsDelivered` | fw/face/ndnlp-link-service.go:395-451 | when the ring has come round to its first slot, the same packet is delivered |
| `LpLink.DressAll` | fw/face/ndnlp-link-service.go:247-269 | the dressing loop adds the same headers to every frame |
| `LpLink.FramesHeaders` | fw/face/ndnlp-link-service.go:247-269 | every frame of a packet carries its token, its NACK reason, its mark and, if enabled, its incoming face |
| `LpLink.UnfragmentedArrives` | fw/face/ndnlp-link-service.go:289-367 | a packet that fits in one frame arrives as it was sent, whatever the options and the ring of the receiver, and leaves the ring alone |
| `LpLink.InOrder` | fw/face/ndnlp-link-service.go:323-451 | the frames of a packet received in order: each joins the earlier ones, and the last delivers the packet |
| `LpLink.Transfer` | fw/face/ndnlp-link-service.go:172-451 | from SendPacket to HandleIncomingFrame: a packet arrives whole and with its headers, in one frame or in many, and is dropped exactly when it is too long for one and the sender does not fragment |
| `LpLink.LinkService.constructor` | fw/face/ndnlp-link-service.go:81-107 | a new link service has sequence 0 and a free ring |
| `LpLink.LinkService.NumberAll` | fw/face/ndnlp-link-service.go:232-240 | pieces get consecutive sequence numbers modulo 2^64, indices and the count |
| `LpLink.LinkService.SendPacket` | fw/face/ndnlp-link-service.go:172-286 | the frames handed to the transport with the headers on each, and the next sequence number |
| `LpLink.LinkService.Reassemble` | fw/face/ndnlp-link-service.go:395-451 | the ring and the result after one fragment, on the 16 buffers in place |
| `LpLink.LinkService.HandleIncomingFrame` | fw/face/ndnlp-link-service.go:289-367 | what a frame delivers, with its headers, and does to the ring: nothing if malformed, itself if it is a bare packet or a whole one in a link packet, and otherwise what reassembly gives |
| `LpLink.LinkService.HandleLpPacket` | fw/face/ndnlp-link-service.go:307-343 | branch by branch: an empty fragment and fragments without reassembly or sequence are dropped, whole packets are delivered and leave the ring alone, and the rest is reassembled |
| `SmoothWrr.RaiseAll` | fw/fw/multipath.go:2301-2311 | the loop raises every candidate by its weight and selects the most credit, ties to the smaller face |
| `SmoothWrr.PickedBy` | fw/fw/multipath.go:2291-2335 | one call is a pick: the selected face pays the total, vanished faces lose their credit |
| `SmoothWrr.OthersGain` | fw/fw/multipath.go:2277-2335 | each candidate that is not selected gains its rate if that is positive and 1 otherwise, and exactly the candidates keep a credit |
| `SmoothWrr.SelectedCounts` | fw/fw/multipath.go:2313-2324 | only the selected face is counted, and vanished faces lose their count |
| `SmoothWrr.AssignState.constructor` | fw/fw/multipath.go:2277-2290 | no credits at first |
| `SmoothWrr.AssignState.Select` | fw/fw/multipath.go:2291-2335 | the chosen face and the new credits and counts; no candidates give face 0 and change nothing |
| `SmoothWrr.PayingSet` | fw/fw/multipath.go:2301-2322 | a set of faces that contains the pick gains nothing by it |
| `SmoothWrr.WaitingSet` | fw/fw/multipath.go:2301-2322 | a set that does not pay stays below its harmonic bound |
| `SmoothWrr.PickKeepsFair` | fw/fw/multipath.go:2301-2322 | every pick keeps all sets of faces below their harmonic bounds and the credits summing to 0 |
| `SmoothWrr.RunIsFair` | fw/fw/multipath.go:2291-2335 | so does every run |
| `SmoothWrr.CreditIsDebt` | fw/fw/multipath.go:2301-2322 | a credit is the face's share of the picks minus the picks it got |
| `SmoothWrr.Fairness` | fw/fw/multipath.go:2291-2335 | after k picks a face of weight w in a total W has at most k*w/W + 1 - 1/n and at least k*w/W - (1/2 + ... + 1/n) of them |
| `SmoothWrr.HarmonicSmall` | fw/fw/multipath.go:2291-2335 | that lag is at most (n-1)/2, better than the n-1 that the sum of credits alone gives |
| `SmoothWrr.NoStarvation` | fw/fw/multipath.go:2291-2335 | a face whose share exceeds the bound has been chosen |
| `SmoothWrr.CallsAreRun` | fw/fw/multipath.go:2291-2335 | successive calls with fixed candidates and rates are such a run |
| `DtBudget.TotalWeight` | fw/fw/multipath.go:2586-2600 | the rotated loop sums every thread's weight once |
| `DtBudget.SharesAreProportional` | fw/fw/multipath.go:2586-2612 | threads with demand share the packets in proportion to their demands plus one each, and a thread without demand has no share |
| `DtBudget.AssignShares` | fw/fw/multipath.go:2602-2626 | whole shares are issued up to the cap and fractions carried: what each thread gets, and at most the grant plus the carries in all |
| `DtBudget.FindBest` | fw/fw/multipath.go:2629-2646 | the active thread below its cap with the largest carry, first in rotation |
| `DtBudget.AssignRemainder` | fw/fw/multipath.go:2628-2651 | what rounding left is given out one by one to such threads until used up or all are capped |
| `DtBudget.Assign` | fw/fw/multipath.go:2581-2654 | at least the grant is issued unless all active threads are capped, and at most the grant plus the carries held before |
| `DtBudget.CarriesNonNegative` | fw/fw/multipath.go:2610-2626 | carries of active threads sum to less than their number, so the over-issue is below the number of active threads |
| `DtBudget.Minted` | fw/fw/multipath.go:2536-2552 | tokens grow by exactly the rate times the time that has passed, until there are 64 |
| `DtBudget.MintedTwice` | fw/fw/multipath.go:2536-2552 | two refills mint what one over the whole time does, and a longer wait never leaves fewer tokens |
| `DtBudget.WaitNeverGrantsLess` | fw/fw/multipath.go:2536-2579 | nor does it grant less; every whole token is a packet, unused budget leaves at most one, and a forced packet comes only in place of none |
| `DtBudget.TotalDemand` | fw/fw/multipath.go:2691-2745 | demand is positive exactly when a thread is active |
| `DtBudget.FaceControl.constructor` | fw/fw/multipath.go:2492-2512 | no demand, budget or carry at first |
| `DtBudget.FaceControl.NoteDemand` | fw/fw/multipath.go:2492-2512 | demand changes by the delta, not below 0; a thread without demand loses budget and carry |
| `DtBudget.FaceControl.TakeBudget` | fw/fw/multipath.go:2514-2534 | takes at most what was asked and what is there, conserving the total, and only from threads with demand |
| `DtBudget.FaceControl.Reclaim` | fw/fw/multipath.go:2568-2579 | all budgets return to the tokens |
| `DtBudget.FaceControl.Refill` | fw/fw/multipath.go:2536-2566 | tokens grow by rate times elapsed time within their cap |
| `DtBudget.FaceControl.AllocateLegacy` | fw/fw/multipath.go:2691-2744 | budgets amount to at least the grant and less than the grant plus the active threads; the fraction of a token that was not granted is kept, the turn moves on, a forced packet is used up only in place of none, carries stay in [0,1), tokens in [0,1], and idle threads hold nothing |
| `DtBudget.FaceControl.ClearBlocked` | fw/fw/multipath.go:821-834 | a failed face loses tokens, budgets and carries |
| `DtBudget.FaceControl.Allocate` | fw/fw/multipath.go:2746-2774 | the same for a whole allocation; nothing changes for an inactive face, a blocked or idle one holds no budget, and at most one token and 512 packets per thread are held |
| `DtQueues.EligibleKeeps` | fw/fw/multipath.go:2353-2371 | indexing a prefix under a face loses no other index entry |
| `DtQueues.EnqueuedAgrees` | fw/fw/multipath.go:2337-2351 | enqueueing keeps queues, index and demand in agreement |
| `DtQueues.FindFirst` | fw/fw/multipath.go:2386-2425 | the first item of the face in a queue, none exactly when none is queued |
| `DtQueues.TakeFirst` | fw/fw/multipath.go:2386-2425 | taking it takes the head of that face's items and keeps the order of the others |
| `DtQueues.Dequeue` | fw/fw/multipath.go:2386-2425 | round robin over the indexed prefixes finds an item exactly when one is pending |
| `DtQueues.TakenAgrees` | fw/fw/multipath.go:2386-2425 | taking it keeps agreement, with the demand one lower |
| `DtQueues.Surviving` | fw/fw/multipath.go:643-655 | exactly the faces other than the failed one |
| `DtQueues.ReplacedAgrees` | fw/fw/multipath.go:767-805 | moving one item to another face keeps agreement |
| `DtQueues.ReassignQueue` | fw/fw/multipath.go:767-805 | in one queue exactly the items of the failed face move, whenever there is somewhere to go, in place and in order |
| `DtQueues.ReassignAll` | fw/fw/multipath.go:767-805 | the same for all queues of a thread |
| `DtQueues.TotalLengthUpdate` | fw/fw/multipath.go:2234-2254 | how the length over all threads follows one thread's queue |
| `DtQueues.FifoStep` | fw/fw/multipath.go:2827-2885 | sending keeps the order per prefix and face |
| `DtQueues.FifoFace` | fw/fw/multipath.go:2827-2885 | a drain sends items of its face only |
| `DtQueues.InTurnStep` | fw/fw/multipath.go:2386-2425 | one dequeue keeps the prefixes taking turns |
| `DtQueues.PutInOrder` | fw/fw/multipath.go:2337-2351 | an arrival keeps what arrived equal to what was sent followed by what is queued |
| `DtQueues.SendInOrder` | fw/fw/multipath.go:2827-2885 | so does a drain |
| `DtQueues.Scheduler.constructor` | fw/fw/multipath.go:2337-2351 | empty queues agree |
| `DtQueues.Scheduler.NoteGlobal` | fw/fw/multipath.go:2234-2254 | the shared length of a prefix changes by the delta, not below 0 |
| `DtQueues.Scheduler.Enqueue` | fw/fw/multipath.go:2337-2351 | the item goes to the end of its queue and no other queue changes, and demand, index and global length still agree in every thread |
| `DtQueues.Scheduler.PendingFor` | fw/fw/multipath.go:2373-2384 | the demand counter is the number of items queued for the face |
| `DtQueues.Scheduler.SendOne` | fw/fw/multipath.go:2386-2425 | one item leaves, and all counters still agree |
| `DtQueues.Scheduler.Drain` | fw/fw/multipath.go:2827-2885 | exactly min(budget, pending) items leave, first in first out per prefix and face; between two items of one prefix every other prefix that still has some was served; and all counters still agree |
| `DtQueues.Scheduler.Reassign` | fw/fw/multipath.go:767-805 | after a face failure all counters still agree and other threads are untouched |
| `DtQueues.RunOne` | fw/fw/multipath.go:2337-2885 | one arrival or drain |
| `DtQueues.Operate` | fw/fw/multipath.go:2337-2885 | any mix of arrivals and drains in any number of threads: per thread, prefix and face, what was sent is an initial part of what arrived, in order of arrival, and the rest is still queued |
| `RoundRobin.TurnsAfter` | fw/fw/multipath.go:2386-2425 | moving the start past a turn brings everyone further on nearer, and the others round |
| `RoundRobin.AheadStep` | fw/fw/multipath.go:2386-2425 | who has waited since another was served comes before it |
| `RoundRobin.Serve` | fw/fw/multipath.go:2386-2425 | serving the first client with work and starting right after it keeps them taking turns: between two services of one, every other that still has work was served |
| `FibSpec.LookupIsLongest` | fw/table/fib-strategy-hashtable.go:229-276 | the lookup is the value of the longest prefix that has one, and fails exactly when none has |
| `FibSpec.ApplyHops` | fw/table/fib-strategy-hashtable.go:279-339 | what one update does to a next hop: an insertion sets its cost, a removal or a clearing takes it away, all others leave it |
| `FibSpec.LastUpdateDecides` | fw/table/fib-strategy-hashtable.go:279-339 | after any updates the last one that touches a next hop decides whether it is there and at which cost |
| `FibSpec.UntouchedStays` | fw/table/fib-strategy-hashtable.go:279-339 | without any it stays as it was |
| `FibSpec.ApplyStrategy` | fw/table/fib-strategy-hashtable.go:366-385 | what one update does to a strategy |
| `FibSpec.LastChoiceDecides` | fw/table/fib-strategy-hashtable.go:366-385 | the last update of a name's strategy decides over it |
| `FibSpec.UnchosenStays` | fw/table/fib-strategy-hashtable.go:366-385 | without any it stays as it was |
| `FibSpec.NoEmptyHops` | fw/table/fib-strategy-hashtable.go:302-339 | a name without next hops is absent, so that the longest prefix found has some |
| `FibSpec.SetHop` | fw/table/fib-strategy-hashtable.go:279-299 | the shared insertion loop updates the face's cost or adds the face |
| `FibSpec.ViewIgnoresEmpty` | fw/table/fib-strategy-hashtable.go:167-224 | entries that hold nothing do not show |
| `FibHash.DepthCovers` | fw/table/fib-strategy-hashtable.go:88-96 | the depth of a virtual name covers every real name below it |
| `FibHash.FiledOk` | fw/table/fib-strategy-hashtable.go:128-159 | an insertion keeps the virtual tables covering the real one |
| `FibHash.UnfiledOk` | fw/table/fib-strategy-hashtable.go:186-206 | a removal keeps exactly the remaining names filed |
| `FibHash.Deepest` | fw/table/fib-strategy-hashtable.go:216-220 | the depth loop, which never lowers the depth |
| `FibHash.HashFib.constructor` | fw/table/fib-strategy-hashtable.go:55-68 | a new table has the default strategy at the root |
| `FibHash.HashFib.FindLongest` | fw/table/fib-strategy-hashtable.go:72-110 | the two-stage search finds the longest prefix in the real table, for every virtual depth, and nothing only if there is none |
| `FibHash.HashFib.InsertEntry` | fw/table/fib-strategy-hashtable.go:115-162 | the entry exists, others are unchanged, and the virtual tables cover it |
| `FibHash.HashFib.PruneTables` | fw/table/fib-strategy-hashtable.go:167-224 | an entry is removed exactly if it holds nothing, and the virtual tables still cover the rest |
| `FibHash.HashFib.FindNextHops` | fw/table/fib-strategy-hashtable.go:229-250 | the next hops of the longest prefix that has any |
| `FibHash.HashFib.FindStrategy` | fw/table/fib-strategy-hashtable.go:255-276 | the strategy of the longest prefix that has one |
| `FibHash.HashFib.InsertNextHop` | fw/table/fib-strategy-hashtable.go:279-299 | the abstract table gets that next hop and changes nowhere else |
| `FibHash.HashFib.Store` | fw/table/fib-strategy-hashtable.go:167-224 | storing and pruning an entry means storing it |
| `FibHash.HashFib.ClearNextHops` | fw/table/fib-strategy-hashtable.go:302-311 | the abstract table loses the next hops of the name |
| `FibHash.HashFib.RemoveNextHop` | fw/table/fib-strategy-hashtable.go:316-338 | the abstract table loses that next hop |
| `FibHash.HashFib.SetStrategy` | fw/table/fib-strategy-hashtable.go:366-372 | the abstract table gets that strategy |
| `FibHash.HashFib.UnsetStrategy` | fw/table/fib-strategy-hashtable.go:375-384 | the abstract table loses the strategy of the name |
| `FibHash.RemovedSwap` | fw/table/fib-strategy-hashtable.go:328-337 | moving the last hop into the gap removes exactly that face |
| `FibTree.FindLongest` | fw/table/fib-strategy-tree.go:59-68 | the walk down the tree ends at the longest prefix that has a node |
| `FibTree.FindExact` | fw/table/fib-strategy-tree.go:49-55 | finds a node exactly when there is one |
| `FibTree.Fill` | fw/table/fib-strategy-tree.go:72-89 | the name gets a node, the tree stays a tree, and no entry changes |
| `FibTree.PruneIfEmpty` | fw/table/fib-strategy-tree.go:93-106 | only the node itself goes, and only if bare: empty ancestors stay although the loop climbs |
| `FibTree.FindNextHops` | fw/table/fib-strategy-tree.go:109-125 | the next hops of the longest prefix that has any, despite lingering empty nodes |
| `FibTree.FindStrategy` | fw/table/fib-strategy-tree.go:128-146 | the strategy of the longest prefix that has one |
| `FibTree.RemovedShift` | fw/table/fib-strategy-tree.go:192-200 | shifting the rest down removes exactly that face |
| `FibTree.DropHop` | fw/table/fib-strategy-tree.go:191-200 | the removal loop |
| `FibTree.TreeFib.constructor` | fw/table/fib-strategy-tree.go:36-45 | a new tree has the default strategy at the root |
| `FibTree.TreeFib.FindHops` | fw/table/fib-strategy-tree.go:109-125 | the table's lookup of next hops |
| `FibTree.TreeFib.FindStrategyOf` | fw/table/fib-strategy-tree.go:128-146 | the table's lookup of strategies |
| `FibTree.TreeFib.Store` | fw/table/fib-strategy-tree.go:72-89 | filling the path and replacing the entry means storing it |
| `FibTree.TreeFib.InsertNextHop` | fw/table/fib-strategy-tree.go:149-168 | the abstract table gets that next hop and changes nowhere else |
| `FibTree.TreeFib.ClearNextHops` | fw/table/fib-strategy-tree.go:171-183 | the abstract table loses the next hops of the name, but a nil name is ignored |
| `FibTree.TreeFib.Release` | fw/table/fib-strategy-tree.go:93-106 | replacing and pruning a node means replacing its entry |
| `FibTree.TreeFib.RemoveNextHop` | fw/table/fib-strategy-tree.go:186-203 | the abstract table loses that next hop |
| `FibTree.TreeFib.SetStrategy` | fw/table/fib-strategy-tree.go:232-238 | the abstract table gets that strategy |
| `FibTree.TreeFib.UnsetStrategy` | fw/table/fib-strategy-tree.go:241-250 | the abstract table loses the strategy of the name |
| `FibAgree.RunBoth` | fw/table/fib-strategy-hashtable.go:72-384 | after any sequence of updates the hashed table of any virtual depth and the tree mean the same |
| `FibAgree.SameAnswers` | fw/table/fib-strategy-hashtable.go:229-276 | new tables answer every query alike after any updates: the longest prefix's next hops and strategy |
| `FibAgree.ClearNil` | fw/table/fib-strategy-tree.go:175-177 | clearing a nil name keeps them alike exactly when the root has no next hops |
| `RibFlatten.InheritedMeans` | fw/table/rib.go:118-126 | a node passes on the flagged routes before its first capture, that one included |
| `RibFlatten.AncestralMeans` | fw/table/rib.go:117-127 | a node inherits from each of its prefixes, a capture stopping only its own node |
| `RibFlatten.MinIsLeast` | fw/table/rib.go:130-137 | the minimum-cost map holds each face's least cost |
| `RibFlatten.FlattenedMeans` | fw/table/rib.go:107-143 | an entry is empty without own routes, and otherwise the least offer per face over own and inherited routes |
| `RibFlatten.FlattenedLocal` | fw/table/rib.go:107-143 | an entry depends on the routes of its prefixes only |
| `RibFlatten.Scan` | fw/table/rib.go:118-125 | the inner loop with its break |
| `RibFlatten.Collect` | fw/table/rib.go:110-128 | the collecting loops give own and inherited routes |
| `RibFlatten.InsertAll` | fw/table/rib.go:130-142 | the entry gains exactly the minimum-cost next hops, whatever the order |
| `RibFlatten.RenewOne` | fw/table/rib.go:107-143 | one entry is recomputed |
| `RibFlatten.UpdateNexthops` | fw/table/rib.go:107-148 | the whole subtree is recomputed and nothing else changes |
| `RibFlatten.Resynced` | fw/table/rib.go:107-148 | updating the subtree of a changed node makes every entry of the table the recomputed one again |
| `RibFlatten.RootEntry` | fw/table/rib.go:108-110 | where the FIB ignores nil names, the root entry comes out right exactly when no old next hop is obsolete |
| `RibFlatten.RootKeepsObsoleteHop` | fw/table/fib-strategy-tree.go:175-177 | an obsolete next hop of the root that stays |
| `RibFlatten.SetRoute` | fw/table/rib.go:160-169 | the route of that face and origin is replaced in place or appended |
| `RibFlatten.DropRoute` | fw/table/rib.go:207-216 | exactly the route of that face and origin is removed |
| `RibFlatten.DropFirstAt` | fw/table/rib.go:243-256 | the clean-up loop removes the first route of the face |
| `RibFlatten.DropFirstCount` | fw/table/rib.go:243-256 | one route of the face goes, if there is one |
| `RibFlatten.SecondRouteStays` | fw/table/rib.go:243-256 | a face with routes of two origins at one node survives its clean-up |
| `RibFlatten.FaceVanishes` | fw/table/rib.go:107-148 | a face is in some entry exactly when some node has a route of it |
| `RibFlatten.RootFaces` | fw/table/rib.go:107-143 | the root entry names exactly the faces of the root's own routes |
| `RibFlatten.RootAfter` | fw/table/rib.go:108-110 | where the FIB ignores nil names, updating the root only adds faces to its entry |
| `RibFlatten.PruneIfEmpty` | fw/table/rib.go:94-104 | exactly the node itself goes, if it is empty, has no children and is not the root: the link is cut before the loop follows it |
| `RibFlatten.PruneIsTidyExactly` | fw/table/rib.go:94-104 | no dead branch is left exactly when the node stays or its parent has a use of its own |
| `RibFlatten.AncestorStays` | fw/table/rib.go:94-104 | a branch of two nodes loses its leaf and keeps a dead one |
| `RibFlatten.RemoveAt` | fw/table/rib.go:198-220 | the end of a removal: the node's routes, which node goes, every entry the recomputed one, and the faces of a root entry that is never cleared |
| `RibFlatten.WithersStep` | fw/table/rib.go:238-257 | a subtree is emptied by the clean-up exactly when its node and all its children's subtrees are |
| `RibFlatten.CleanUp` | fw/table/rib.go:238-257 | in the subtree every node loses its first route of the face, children first; a node goes exactly when its whole subtree is emptied by that; every entry is the recomputed one |
| `RibFlatten.CleanUpChildren` | fw/table/rib.go:239-241 | the loop over the children |
| `RibFlatten.RibTable.constructor` | fw/table/rib.go:48-53 | an empty RIB and FIB are in step |
| `RibFlatten.RibTable.AddRoute` | fw/table/rib.go:151-170 | the route is set, the missing prefixes get nodes, and incremental flattening equals full recomputation |
| `RibFlatten.RibTable.RemoveRoute` | fw/table/rib.go:198-220 | the route is removed, the node goes if it is an empty leaf, and incremental flattening equals full recomputation |
| `RibFlatten.RibTable.CleanUpFace` | fw/table/rib.go:223-229 | every node loses its first route of the face, and exactly the emptied subtrees go; the face is in no entry exactly when no node had two routes of it and, with a FIB that ignores nil names, the root entry did not name it |
| `RibFlatten.DefaultRouteStays` | fw/table/fib-strategy-tree.go:175-177 | with the tree FIB the face of a default route is still a next hop after its clean-up |
| `NameTree.PrefixClosed` | fw/table/rib.go:56-72 | every prefix of a node is a node |
| `NameTree.FindLongest` | fw/table/rib.go:84-91 | the walk down ends at the longest prefix that has a node |
| `NameTree.Fill` | fw/table/rib.go:56-72 | exactly the missing prefixes of the name become nodes, empty ones, and no node's contents change |
| `NameTree.PruneIfEmpty` | fw/table/pit-cs-tree.go:322-328 | pruning of the PIT: exactly the prefixes longer than some living one go, and no contents change |
| `CsLru.TouchHeld` | fw/table/cs-lru.go:38-43 | touching what is held moves it to the back, as recency says |
| `CsLru.TouchNew` | fw/table/cs-lru.go:33-35 | touching what is not held appends it, the oldest leaving if there are too many, as recency says |
| `CsLru.OrderSplit` | fw/table/cs-lru.go:33-69 | behind an element stand exactly those touched after its last touch |
| `CsLru.Recency` | fw/table/cs-lru.go:33-69 | being among the capacity most recent means having been touched with fewer than capacity others since |
| `CsLru.UnlinkOk` | fw/table/cs-lru.go:38-59 | the location of an index removes its own element or, if stale, nothing |
| `CsLru.Lru.constructor` | fw/table/cs-lru.go:24-30 | an empty queue |
| `CsLru.Lru.PushBack` | fw/table/cs-lru.go:33-35 | a new element at the back, located |
| `CsLru.Lru.AfterInsert` | fw/table/cs-lru.go:33-35 | the new index is last |
| `CsLru.Lru.Touch` | fw/table/cs-lru.go:38-43 | the index is last and nothing else moves, even with a stale location |
| `CsLru.Lru.BeforeErase` | fw/table/cs-lru.go:46-51 | the index leaves |
| `CsLru.Lru.PopFront` | fw/table/cs-lru.go:63-69 | the oldest leaves, its location staying behind |
| `PitCs.FiledAdd` | fw/table/pit-cs-tree.go:131-142 | a new entry is listed once, at the node of its name |
| `PitCs.FiledRemove` | fw/table/pit-cs-tree.go:167-173 | removing with the last one moved into its place removes exactly that entry |
| `PitCs.SlotsApart` | fw/table/pit-cs-tree.go:331-339 | tokens less than a table apart share a slot exactly when the 32-bit counter wraps between them and they are 92296 apart |
| `PitCs.Collides` | fw/table/pit-cs-tree.go:331-339 | which later tokens share the slot of a token: multiples of the table size before the wrap, 92296 more after it |
| `PitCs.KeptForLifetime` | fw/table/pit-cs-tree.go:331-339 | an entry keeps its slot exactly until 125000, 92296 or 217296 later tokens have been issued, depending on where the wrap lies |
| `PitCs.WrapChangesLifetime` | fw/table/pit-cs-tree.go:331-339 | a token of each kind |
| `PitCs.TokensAdd` | fw/table/pit-cs-tree.go:143-148 | issuing a token keeps every filled slot holding a live entry under its own token, and says who lost a slot |
| `PitCs.TokensRemove` | fw/table/pit-cs-tree.go:176-180 | so does removing an entry |
| `PitCs.Matching` | fw/table/pit-cs-tree.go:234-238 | the inner loop over one node's entries |
| `PitCs.FindByName` | fw/table/pit-cs-tree.go:230-241 | exactly the entries whose name is a prefix of the Data name and that can be a prefix or are of equal length, each once |
| `PitCs.FindBelow` | fw/table/pit-cs-tree.go:415-434 | Data below a node is found exactly when there is any acceptable |
| `PitCs.Unfile` | fw/table/pit-cs-tree.go:167-174 | the entry leaves its node's list, the node is pruned, and nothing else changes |
| `PitCs.FindKey` | fw/table/pit-cs-tree.go:122-129 | the entry with the same flags and hint, if there is one |
| `PitCs.PitCsTree.constructor` | fw/table/pit-cs-tree.go:63-83 | an empty table |
| `PitCs.PitCsTree.InsertInterest` | fw/table/pit-cs-tree.go:117-161 | the entry for name, flags and hint is found or created: one each, listed at its node, counted, and under its token |
| `PitCs.PitCsTree.AddEntry` | fw/table/pit-cs-tree.go:131-148 | the creation branch |
| `PitCs.PitCsTree.RemoveInterest` | fw/table/pit-cs-tree.go:165-193 | exactly that entry goes from tree, count and token table |
| `PitCs.PitCsTree.FindByData` | fw/table/pit-cs-tree.go:219-227 | a token names at most one live entry and finds every entry within its lifetime; otherwise exactly the matching entries are found |
| `PitCs.PitCsTree.FindData` | fw/table/pit-cs-tree.go:344-360 | an exact match is found exactly when held and either freshness is not asked for or its time has not passed, and counts as a use; a prefix match is found exactly when there is such a one, and does not |
| `PitCs.PitCsTree.Use` | fw/table/cs-lru.go:54-59 | a use keeps tree, index and queue in agreement |
| `PitCs.PitCsTree.EvictOldest` | fw/table/pit-cs-tree.go:402-408 | the front of the queue leaves tree, index and queue |
| `PitCs.PitCsTree.EvictEntries` | fw/table/cs-lru.go:63-69 | the queue keeps the last ones up to the capacity |
| `PitCs.PitCsTree.Refresh` | fw/table/pit-cs-tree.go:373-378 | a held name gets the new Data and becomes the most recent |
| `PitCs.PitCsTree.StoreNew` | fw/table/pit-cs-tree.go:379-393 | a new name is in tree, index and queue |
| `PitCs.PitCsTree.InsertData` | fw/table/pit-cs-tree.go:363-398 | tree, index, count and queue agree, and hold the most recently touched names with their latest Data, which is fresh for its freshness period from now and never without one |
| `PitCs.PitCsTree.HoldsMostRecent` | fw/table/pit-cs-tree.go:344-408 | a name is held exactly when it was inserted, refreshed or matched exactly with fewer than capacity other names since |
| `PathDiscovery.CollectCosts` | fw/fw/multipath.go:1538-1546 | hops by cost, in order, and the distinct costs |
| `PathDiscovery.SortCosts` | fw/fw/multipath.go:1548 | the costs in increasing order |
| `PathDiscovery.GroupByCost` | fw/fw/multipath.go:1537-1560 | one tier per cost, cheapest first, with exactly its hops |
| `PathDiscovery.GroupedTimes` | fw/fw/multipath.go:1537-1560 | grouping loses no hop and adds none |
| `PathDiscovery.Narrow` | fw/fw/multipath.go:1600-1606 | exactly the hops of wanted faces stay, in order |
| `PathDiscovery.WithinFaces` | fw/fw/multipath.go:1600-1606 | which faces those are |
| `PathDiscovery.DropFace` | fw/fw/multipath.go:4075-4085 | the face leaves every tier, and all other hops stay in order |
| `PathDiscovery.LessFaces` | fw/fw/multipath.go:4075-4085 | which faces are left in a tier |
| `PathDiscovery.LessOnce` | fw/fw/multipath.go:4075-4085 | a wait list of the valid faces stays one when a face leaves both |
| `PathDiscovery.AddNew` | fw/fw/multipath.go:1719-1731 | the faces not listed yet are appended in order |
| `PathDiscovery.AppendedMeans` | fw/fw/multipath.go:1719-1731 | what is listed then, each face once |
| `PathDiscovery.Flatten` | fw/fw/multipath.go:4039-4052 | every face of the tiers once, in order |
| `PathDiscovery.GatheredMeans` | fw/fw/multipath.go:4039-4052 | exactly the faces of the tiers, each once |
| `PathDiscovery.SettledOrder` | fw/fw/multipath.go:4039-4072 | the faces of earlier tiers come before those of later ones |
| `PathDiscovery.Compact` | fw/fw/multipath.go:4055-4072 | the tiers that are not empty, in order |
| `PathDiscovery.NonEmptyTiers` | fw/fw/multipath.go:4055-4072 | which tiers those are |
| `PathDiscovery.NonEmptyMeans` | fw/fw/multipath.go:4055-4072 | no face is lost with the empty ones |
| `PathDiscovery.Unlist` | fw/fw/multipath.go:4088-4095 | the face leaves the list, and the others stay in order |
| `PathDiscovery.UnlistAll` | fw/fw/multipath.go:1584-1595 | the faces that have vanished leave the list |
| `PathDiscovery.Relist` | fw/fw/multipath.go:1613-1622 | the probed faces that stay, in order and each once |
| `PathDiscovery.ListedMeans` | fw/fw/multipath.go:1613-1622 | exactly the wanted faces stay, each once |
| `PathDiscovery.ClearTier` | fw/fw/multipath.go:1687-1697 | a cleared tier's faces are no longer valid, and the wait list still matches |
| `PathDiscovery.ClearedOnce` | fw/fw/multipath.go:1687-1697 | the same for the wait list as a value |
| `PathDiscovery.ClearFrom` | fw/fw/multipath.go:3969-3981 | exactly the faces that wait from a tier on are given up |
| `PathDiscovery.TierOf` | fw/fw/multipath.go:1411-1423 | the first tier of a face in the wait list, if any |
| `PathDiscovery.AboveEmpty` | fw/fw/multipath.go:3940-3947 | whether no tier after the current one holds a hop |
| `PathDiscovery.Start` | fw/fw/multipath.go:1638-1705 | the wait list starts with exactly the faces of the cheapest tier and those below twice its cost, doubled in 64 bits |
| `PathDiscovery.StartMeans` | fw/fw/multipath.go:1675-1699 | which faces those are, by the snapshot |
| `PathDiscovery.Retier` | fw/fw/multipath.go:1597-1612 | the latest tiers hold each valid face once |
| `PathDiscovery.RetieredMeans` | fw/fw/multipath.go:1597-1612 | by cost, exactly the latest hops whose faces are still valid |
| `PathDiscovery.ExcludedMeans` | fw/fw/multipath.go:1440-1453 | an excluded face leaves every tier and the probing list, and no other does |
| `PathDiscovery.CheckedMeans` | fw/fw/multipath.go:3950-3992 | the tiers from the current one on are given up exactly when that one has no valid face; then their faces stop being valid and the node converges |
| `PathDiscovery.OldIndexStops` | fw/fw/multipath.go:1397-1399 | an Interest with an old index changes nothing and stops |
| `PathDiscovery.SameIndex` | fw/fw/multipath.go:1393-1466 | one with the current index stops exactly when its ingress face is being probed but waits in no tier; otherwise it goes on, or is refused exactly when no valid face is left |
| `PathDiscovery.IngressEffect` | fw/fw/multipath.go:1401-1458 | an unprobed ingress face leaves the valid faces; a probed one freezes exactly the faces of its tier; then the tiers are given up exactly when the current one has no valid face |
| `PathDiscovery.LargerIndex` | fw/fw/multipath.go:1381-1391 | one with a larger index brings the tiers up to date and stops exactly when no tier is left; otherwise it sets the index and exactly the faces of the next tier join those being probed |
| `PathDiscovery.LargerIndexGoes` | fw/fw/multipath.go:1381-1466 | and then goes on like one whose index is the current one |
| `PathDiscovery.ForwardedTurn` | fw/fw/multipath.go:1469-1519 | forwarding goes to the face whose turn it is, the next turn is the next position, and a freeze ends exactly when its last face has been served, with the removal of all recorded faces |
| `PathDiscovery.InterestTurn` | fw/fw/multipath.go:1349-1519 | an Interest that is forwarded without a move to another tier goes to the face whose turn it was, and the round robin moves on by one; after convergence every Interest is forwarded while any face is probed |
| `PathDiscovery.FirstInterest` | fw/fw/multipath.go:1369-1488 | the first Interest goes to the first of the cheapest hops, whichever face it came from |
| `PathDiscovery.NackedMeans` | fw/fw/multipath.go:1829-1871 | unless tiers are frozen the face of a NoRoute Nack leaves; the tiers are given up exactly when the current one has no valid face, and the node refuses exactly when none is left at all |
| `PathDiscovery.DataMeans` | fw/fw/multipath.go:1967-2006 | the face of a Data leaves the sets that convergence waits for, and the node converges exactly when it was the last of its tier and no face waits in a later one |
| `PathDiscovery.PathDiscoveryInfo.constructor` | fw/fw/multipath.go:460-505 | the invariant holds at first, with nothing known |
| `PathDiscovery.PathDiscoveryInfo.LocalNodeConverged` | fw/fw/multipath.go:3995-4036 | convergence happens once and makes the data-transmission faces exactly the valid ones, each once |
| `PathDiscovery.PathDiscoveryInfo.ProbeTier` | fw/fw/multipath.go:1708-1747 | the tier's faces join the probed ones and those that convergence waits for; a designated node converges; the invariant stays |
| `PathDiscovery.PathDiscoveryInfo.ProbeNextTier` | fw/fw/multipath.go:1749-1753 | the same for the next tier |
| `PathDiscovery.PathDiscoveryInfo.Exclude` | fw/fw/multipath.go:1440-1453 | a face leaves every set and list and nothing else changes, and the invariant stays |
| `PathDiscovery.PathDiscoveryInfo.SkipTier` | fw/fw/multipath.go:3966-3989 | exactly the faces that wait from the current tier on stop being valid, the probing list is left as it is, the node converges, and the invariant stays |
| `PathDiscovery.PathDiscoveryInfo.CheckTier` | fw/fw/multipath.go:1455-1458 | the giving up of the tiers and its condition |
| `PathDiscovery.PathDiscoveryInfo.Clamp` | fw/fw/multipath.go:1624-1635 | round robin and current tier are brought back into range |
| `PathDiscovery.PathDiscoveryInfo.Refresh` | fw/fw/multipath.go:1572-1636 | vanished faces leave, no face comes back, the tiers are exactly those of the latest costs, and the invariant stays |
| `PathDiscovery.PathDiscoveryInfo.Initialize` | fw/fw/multipath.go:1369-1378 | the state after the first snapshot; the invariant holds from the first Interest on exactly unless the node had converged before and there is a next hop |
| `PathDiscovery.PathDiscoveryInfo.MindIngress` | fw/fw/multipath.go:1401-1454 | an ingress face freezes its tier or is excluded, or the Interest stops |
| `PathDiscovery.PathDiscoveryInfo.AdvanceTo` | fw/fw/multipath.go:1381-1400 | the steps that follow from the index |
| `PathDiscovery.PathDiscoveryInfo.Probe` | fw/fw/multipath.go:1380-1467 | the whole state after a probing step, and when it goes on, stops and refuses: by the index, by whether the ingress face is probed and waits, and by whether a valid face is left |
| `PathDiscovery.PathDiscoveryInfo.Recover` | fw/fw/multipath.go:1504-1516 | the delayed removals remove exactly the recorded faces |
| `PathDiscovery.PathDiscoveryInfo.Forward` | fw/fw/multipath.go:1469-1519 | the whole state after round-robin forwarding and the end of a freeze; before convergence the chosen face is valid |
| `PathDiscovery.PathDiscoveryInfo.Accept` | fw/fw/multipath.go:1369-1519 | the state and the answer for an Interest that is not refused at once |
| `PathDiscovery.PathDiscoveryInfo.HandleInterest` | fw/fw/multipath.go:1349-1519 | the state and the answer for every Interest: refused, in turn, or first of all to the cheapest hop; it keeps the invariant, except exactly the first accepted one with a next hop after an early convergence, which breaks it; valid faces only leave, convergence is final, and before it Interests go to valid faces only |
| `PathDiscovery.PathDiscoveryInfo.HandleNack` | fw/fw/multipath.go:1817-1883 | the state after every Nack, which reason is passed on, and when the node refuses from then on; the invariant stays |
| `PathDiscovery.PathDiscoveryInfo.HandleData` | fw/fw/multipath.go:1967-2006 | the state after every Data, when the two flags are passed on, and when the node converges; the invariant stays |
| `PathDiscovery.PathDiscoveryInfo.Handle` | fw/fw/multipath.go:1349-2006 | one event of any kind, from one phase to the next |
| `PathDiscovery.Serve` | fw/fw/multipath.go:1349-2006 | every run of the three handlers: the invariant holds after every event up to the one, if any, by which a node that converged too early starts |
| `PathDiscovery.DataFirst` | fw/fw/multipath.go:1967-2006 | such a run: a Data with the tier flag, then the first Interest |
| `PathDiscovery.BreaksOnlyAfterData` | fw/fw/multipath.go:1817-2006 | only such a Data can lead there, and no Nack, since that makes the node refuse Interests |
| `TlvSpec.BigEndianValue` | std/encoding/primitives.go:87-97 | bytes written big-endian are read back |
| `TlvSpec.NumBytesAt` | std/encoding/primitives.go:15-47 | the bytes of a number of each size, one by one: itself up to 252, and above a marker 253, 254 or 255 and the digits, most significant first |
| `TlvSpec.ReadLengths` | std/encoding/primitives.go:70-98 | no number is read from fewer bytes than it is written in |
| `TlvSpec.NumRoundTrip` | std/encoding/primitives.go:29-98 | every type or length number is read back, and the rest is left |
| `TlvSpec.NatRoundTrip` | std/encoding/primitives.go:101-130 | every natural number is read back |
| `TlvSpec.NameLengthOk` | std/encoding/name_pattern.go:61-67 | the computed length is the number of bytes written |
| `TlvSpec.CompRoundTrip` | std/encoding/component.go:106-117 | a component of at most 252 bytes is read back |
| `TlvSpec.ShortNamesReturn` | std/encoding/name_pattern.go:52-58 | a name of such components is read back |
| `TlvSpec.ReadNameNeeds` | std/encoding/name_pattern.go:118-131 | the least number of bytes from which a name can be read |
| `TlvSpec.WrittenTooShort` | std/encoding/component.go:106-117 | a name with a longer component is written in fewer bytes than that |
| `TlvSpec.NameRoundTrip` | std/encoding/name_pattern.go:118-131 | a name is read back exactly when no component value is longer than 252 bytes, lengths being written as natural numbers |
| `TlvSpec.TlvRoundTrip` | std/encoding/primitives.go:29-98 | an element is read back, and the rest is left |
| `TlvSpec.FoldStep` | dv/tlv/zz_generated.go:295-342 | the parsing loop takes in an element as it was written |
| `TlvSpec.FoldFramed` | dv/tlv/zz_generated.go:295-342 | whatever a parsing loop accepts is whole elements |
| `DvMessages.EntryRead` | dv/tlv/zz_generated.go:391-586 | reading back an entry gives it with its names read back: itself exactly when all component values have at most 252 bytes |
| `DvMessages.EntriesRead` | dv/tlv/zz_generated.go:189-361 | the same for all entries of an advertisement, in order |
| `DvMessages.AdvertisementRoundTrip` | dv/tlv/zz_generated.go:189-361 | an advertisement is read back exactly when no component value is longer than 252 bytes |
| `DvMessages.AdvertisementAt` | dv/tlv/zz_generated.go:189-283 | the bytes of an advertisement with one entry, one by one |
| `DvMessages.AddRead` | dv/tlv/zz_generated.go:1107-1246 | reading back an addition |
| `DvMessages.RemovesRead` | dv/tlv/zz_generated.go:760-1080 | reading back the removals, in order |
| `DvMessages.AddsRead` | dv/tlv/zz_generated.go:760-1080 | reading back the additions, in order |
| `DvMessages.ListHeadRead` | dv/tlv/zz_generated.go:760-1080 | reading back exit router and reset |
| `DvMessages.PrefixOpListRoundTrip` | dv/tlv/zz_generated.go:760-1080 | a list of prefix operations is read back exactly when no component value is longer than 252 bytes |
| `DvMessages.PrefixOpListAt` | dv/tlv/zz_generated.go:760-957 | the bytes of a list that resets, adds one prefix and removes another, one by one |
| `DvMessages.AdvReadsFramed` | dv/tlv/zz_generated.go:285-361 | an advertisement that reads well as flat bytes is whole elements at every level |
| `DvMessages.ListReadsFramed` | dv/tlv/zz_generated.go:959-1080 | so is a list of prefix operations |
| `DvMessages.EntriesFramed` | dv/tlv/zz_generated.go:189-283 | what is written for an advertisement is whole elements at every level, however long its components |
| `DvMessages.ListFramed` | dv/tlv/zz_generated.go:760-957 | so is what is written for a list |
| `WireViews.Ahead` | std/encoding/wire_view.go:48-60 | inside a segment the bytes ahead are the segment's, and the position stays right across its end |
| `WireViews.TotalLength` | std/encoding/wire_view.go:19-25 | the length of all segments |
| `WireViews.WireView.constructor` | std/encoding/wire_view.go:19-25 | a view spells the joined segments |
| `WireViews.WireView.Part` | std/encoding/wire_view.go:148-157 | a part of a view |
| `WireViews.WireView.ReadByte` | std/encoding/wire_view.go:48-60 | the next byte, or end of file exactly at the end |
| `WireViews.WireView.ReadSeg` | std/encoding/wire_view.go:131-145 | a non-empty part of the next bytes |
| `WireViews.WireView.Step` | std/encoding/wire_view.go:53-58 | moving within a segment or to the next |
| `WireViews.WireView.Skip` | std/encoding/wire_view.go:89-110 | exact within the view; past its end it fails or leaves nothing |
| `WireViews.ReadValue` | std/encoding/primitives.go:87-97 | the value of the next bytes, or unexpected end of file exactly if there are too few |
| `WireViews.ReadNumber` | std/encoding/primitives.go:70-98 | the number at the front as flat bytes read, with the same failures |
| `WireViews.ReadBuf` | std/encoding/wire_view.go:180-211 | exactly the next bytes, whatever the segmentation, or overflow |
| `WireViews.Delegate` | std/encoding/wire_view.go:148-157 | a view of exactly the next bytes, which are skipped; too many give an empty view and skip nothing |
| `WireViews.ReadComponent` | std/encoding/component.go:239-259 | the component as flat bytes read, and end of file exactly at the end |
| `WireViews.ReadNameFrom` | std/encoding/name_pattern.go:118-131 | the name as flat bytes read |
| `DvCodec.ReadHeader` | dv/tlv/zz_generated.go:300-309 | type and length at the head of an element as flat bytes read, failing exactly when one of the two numbers does not read |
| `DvCodec.TakeValue` | dv/tlv/zz_generated.go:315-327 | the value as a view of its own |
| `DvCodec.SkipUnknown` | dv/tlv/zz_generated.go:332-337 | unknown elements are skipped, critical ones refused unless lenient |
| `DvCodec.ParseNameMessage` | dv/tlv/zz_generated.go:659-722 | whatever the segmentation, a destination or removal of whole elements gives exactly what flat bytes do, failure included |
| `DvCodec.ParseDestination` | dv/tlv/zz_generated.go:659-722 | the same, as a destination |
| `DvCodec.ParseAdvEntry` | dv/tlv/zz_generated.go:468-586 | the same for an entry |
| `DvCodec.ParseAdvertisementView` | dv/tlv/zz_generated.go:285-361 | whatever the segmentation, an advertisement of whole elements gives exactly what flat bytes do, failure included |
| `DvCodec.ParseRemoveView` | dv/tlv/zz_generated.go:1319-1382 | the same, as a removal |
| `DvCodec.ParseAddView` | dv/tlv/zz_generated.go:1160-1246 | the same for an addition |
| `DvCodec.ParseListElement` | dv/tlv/zz_generated.go:989-1043 | one known element of a list |
| `DvCodec.ParseListView` | dv/tlv/zz_generated.go:959-1080 | whatever the segmentation, a list of whole elements gives exactly what flat bytes do, failure included |
| `DvCodec.DecodeAdvertisement` | dv/tlv/zz_generated.go:189-361 | an encoded advertisement cut into any non-empty segments parses to itself exactly when no component value is longer than 252 bytes |
| `DvCodec.DecodePrefixOpList` | dv/tlv/zz_generated.go:760-1080 | an encoded list of prefix operations cut into any non-empty segments parses to itself exactly when no component value is longer than 252 bytes |
| `DvEncode.PutBigEndian` | std/encoding/primitives.go:34-46 | the bytes of a number in place, and nothing else |
| `DvEncode.PutNum` | std/encoding/primitives.go:29-47 | a type or length number in place |
| `DvEncode.PutNat` | std/encoding/primitives.go:115-130 | a natural number in place |
| `DvEncode.PutComp` | std/encoding/component.go:112-117 | a component in place, in exactly its computed length |
| `DvEncode.PutName` | std/encoding/name_pattern.go:52-58 | a name in place, in exactly its computed length |
| `DvEncode.NameSize` | std/encoding/name_pattern.go:61-67 | the computed length of a name |
| `DvEncode.PutNameField` | dv/tlv/zz_generated.go:635-647 | a name field in place |
| `DvEncode.PutNatField` | dv/tlv/zz_generated.go:446-450 | a natural-number field in place |
| `DvEncode.PutDestField` | dv/tlv/zz_generated.go:428-436 | a destination field in place |
| `DvEncode.EntrySize` | dv/tlv/zz_generated.go:391-416 | the computed length of an entry is what is written |
| `DvEncode.PutEntry` | dv/tlv/zz_generated.go:424-456 | an entry in place, in exactly its computed length |
| `DvEncode.EntriesSize` | dv/tlv/zz_generated.go:189-238 | the computed length of an advertisement is what is written |
| `DvEncode.PutEntries` | dv/tlv/zz_generated.go:244-273 | an advertisement in place, in exactly its computed length |
| `DvEncode.AddSize` | dv/tlv/zz_generated.go:1107-1125 | the computed length of an addition |
| `DvEncode.PutAdd` | dv/tlv/zz_generated.go:1131-1148 | an addition in place |
| `DvEncode.AddsSize` | dv/tlv/zz_generated.go:822-841 | the computed length of the additions |
| `DvEncode.PutAdds` | dv/tlv/zz_generated.go:895-920 | the additions in place |
| `DvEncode.RemovesSize` | dv/tlv/zz_generated.go:842-861 | the computed length of the removals |
| `DvEncode.PutRemoves` | dv/tlv/zz_generated.go:921-946 | the removals in place |
| `DvEncode.ListSize` | dv/tlv/zz_generated.go:760-866 | the computed length of a list is what is written |
| `DvEncode.PutReset` | dv/tlv/zz_generated.go:888-894 | the reset flag in place |
| `DvEncode.PutList` | dv/tlv/zz_generated.go:875-947 | a list of prefix operations in place, in exactly its computed length |
| `DvEncode.EncodeAdvertisement` | dv/tlv/zz_generated.go:275-283 | a buffer of the precomputed length, filled exactly with the advertisement |
| `DvEncode.EncodePrefixOpList` | dv/tlv/zz_generated.go:949-957 | a buffer of the precomputed length, filled exactly with the list |

## Left out

- Sockets, transports, listeners, management, command line, logging and configuration: no hard properties.
- Goroutines, channels, timers and clocks: times are parameters, handlers are atomic steps.
- Pointer identity of tree nodes and object pools: trees are maps keyed by name, so aliasing and reuse of freed nodes are not modelled.
- Hash collisions: hashes are taken to be injective.
- The neighbour table, the sync protocol, signatures and trust: liveness of a neighbour and delivery of messages are events of the network model.
- Readvertising of routes and expiry of RIB routes (fw/table/rib_readvertise.go): no effect on the tables modelled.
- In- and out-records, nonce duplicates and the expiry queue of the PIT: one-branch bookkeeping beside the entries modelled.
- FindInterestExactMatchEnc and the listing operations of the tables: easy readers.
- Congestion checks, queue sampling and link statistics: the congestion verdict is a parameter of SendPacket.
- The field by which a consumer chooses the next hop itself (NextHopFaceId) of the link service: it passes through with the packet like the token.
- Rate control and round-trip regression of the MARS strategy: rates are parameters.
- The bootstrap and failure detection of data transmission: the failed face is a parameter.
- Other TLV packet types, `Packet` and `Status` among them: the same shape as the messages modelled.
- Nil elements in message sequences: sequences hold values, and a nil sequence is an empty one.
- The returning of unassigned packets to the tokens in allocateDtFaceBudgetsLegacy: it cannot be reached, since a grant never exceeds what one thread's cap leaves room for.
- WireViews.ReadBuf: lengths of 2^63 and more count as too long, where the code converts them to negative integers; the same holds for skipped lengths.
- WireViews.Delegate: the same for delegated lengths.
- WireViews.WireView.constructor: segments are not empty; the code indexes the current segment without a check, so a read at an empty one is out of range.
- DvCodec.ParseAdvertisementView: says nothing about bytes that are not whole elements, because skipping may then leave a delegated view.
- DvCodec.ParseNameMessage: the same; also DvCodec.ParseDestination and DvCodec.ParseRemoveView, which call it.
- DvCodec.ParseDestination: see DvCodec.ParseNameMessage.
- DvCodec.ParseRemoveView: see DvCodec.ParseNameMessage.
- DvCodec.ParseAdvEntry: the same for an entry.
- DvCodec.ParseAddView: the same for an addition.
- DvCodec.ParseListElement: the same for one element of a list.
- DvCodec.ParseListView: the same for a list.
- PathDiscovery.PathDiscoveryInfo.HandleInterest: next hops are required to have distinct faces, which both FIB tables keep.
- DvFair.FairRunConverges: epochs hold no death or restart of a router; those end a run, after which RecoversFairly applies.
- SmoothWrr.AssignState.Select: candidates are distinct and not 0: data-transmission faces are listed once each (PathDiscovery.Flatten) and face identifiers start at 1 (fw/face/table.go:27).
- SmoothWrr.RaiseAll: see SmoothWrr.AssignState.Select.
- DtQueues.ReassignQueue: the weighted choice among the surviving faces is left open, so what is stated holds for every choice.
- DtQueues.ReassignAll: see DtQueues.ReassignQueue.
- DtQueues.Operate: runs hold arrivals and drains; what a face failure does between them is stated by DtQueues.Scheduler.Reassign.
- DtQueues.Scheduler.Reassign: see DtQueues.ReassignQueue.
- PitCs.PitCsTree.InsertInterest: in-records, the duplicate-nonce result and the cancelled expiry are not modelled.
- PitCs.PitCsTree.RemoveInterest: the entry is live; the code dereferences the node of the entry, which is nil once it has been removed.
- LpLink.LinkService.SendPacket: an MTU that leaves no room for a fragment is excluded where the code would divide by that room.
