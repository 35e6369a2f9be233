# Topograph: a verified model

Topograph turns what is known about a cluster's network - records that say which block, spine and datacenter an
instance hangs under, or a dump of the links of an InfiniBand fabric - into the topology files of the SLURM workload
manager. This project models that pipeline, and the queue in front of it, in Dafny, and proves what each stage promises
and what the stages promise together.

| part of the program | files |
|---|---|
| merging redundant switches | `MergerSpec`, `Merger`, `MergerTheorems`, `MergerOrder` (with `Topology`, `FirstSeen`, `Ordering`) |
| layering an InfiniBand fabric, and merging it | `IbSpec`, `Ib`, `IbPipeline` |
| printing and reading host lists | `Numerals`, `Text`, `ClusetSpec`, `ClusetRuns`, `ClusetEntries`, `ClusetTheorems`, `ClusetOrder`, `ClusetLoop`, `WrittenEntries`, `ListPieces`, `Cluset`, `Printing` |
| the request queue | `QueueSpec`, `QueueTheorems`, `QueueRuns`, `QueueEvents`, `Queue` (with `Options`) |
| from instance records to a tree and blocks | `ThreeTierSpec`, `ThreeTierTree`, `ThreeTierCycles`, `ThreeTierObjects`, `LastFiled`, `ThreeTier`, `Normalization`, `NormalOrder`, `Domains` |
| loading a graph for translation, also one whose vertices share children or IDs | `Trees`, `Arrivals`, `TranslateSpec`, `Loading`, `Walks`, `SharedIds`, `BlocksSpec`, `SearchOrder`, `Translate`, `Sharing` |
| printing the whole tree, and what is read back from it | `WalkOrder`, `TreeOutput`, `ThreeTierNodes`, `ThreeTierSwitches`, `SwitchNames`, `Pipeline` |
| the sub-tree and blocks of a partition | `PartitionSpec`, `PartitionUnit`, `BlockUnit` |
| block sizes and fake nodes | `BlockSizes`, `FakeNodes` |
| network models read from files | `ModelSpec`, `Models`, `ModelGraph`, `ModelBuild`, `ModelWalks` |

Code that changes things step by step is modelled by classes and loops (`Merger`, `Switch`, `TrailingDelayQueue`,
`Cell`, `ClusterTopology`, `DomainMap`, `NetVertex`, `NetworkTopology`, `FakeNodeConfig`), each method proved against a
function or predicate of its inputs; the theorems are lemmas about those. `dafny verify dfyconfig.toml` checks everything.

How the code is represented:

- A vertex is a value (`Topology.Vertex`) in every pass that only reads the graph it is given. Where a graph is built
  by linking objects that others already refer to, a vertex is an object: `ThreeTierObjects.Cell` in `ToThreeTierGraph`, where
  the finished objects are shown to stand for a value (`ThreeTier.Represents`), and `ModelBuild.NetVertex`, with children that
  may be nil, in `ToGraph`, where they are shown to be linked as the model says (`ModelBuild.Wired`).
- Ranging over a Go map takes the keys in an arbitrary order. Loops here pick any remaining key, and the results are
  stated without reference to the order; the node names of a block and the set-valued fields are listed by sorted key.
- `sort.Strings` and `sort.Slice` are functions returning a sorted permutation (`Ordering`). Where elements that compare
  equal are equal, every sort gives the same result (`Ordering.SortUnique`).
- Strings are sequences of characters; the two regular expressions of `cluset.go` are replaced by what they match.
- Maps from keys to `true` are sets.

Preconditions the theorems need, all of them things a caller can look up beforehand:

- Merging (`MergerSpec.Tiered`, `Topology.Layered`, `Topology.Closed`): every child is one rank below its parent and is
  filed under its own ID, and IDs identify vertices. Otherwise `traverse` may recurse for ever or `nodes[id]` may be missing.
  What `buildTree` returns always qualifies if node names are not switch IDs (`IbPipeline.FabricIsLayered`).
- Records are built into objects whatever their IDs (`ThreeTierObjects.Assembled`). IDs find these objects if instance IDs are
  not empty, no switch has the ID of a requested instance and, if some instance has no record, `no-topology` is not the ID of
  anything else (`ThreeTierSpec.IdsFree`). The theorems about the tree ask in addition that IDs of different tiers differ
  (`ThreeTierSpec.Buildable`): the graph is then a tree if and only if every switch has one set of switches above it
  (`ThreeTierTree.GraphIsTree`; `TwoSpinesNoTree` is an input that fails). The theorems about the printed tree ask for this
  and for different names of the requested instances (`ThreeTierSpec.WellFormed`); what is built then qualifies for
  translation (`ThreeTier.ReadyToTranslate`).
- Translation: loading and ordering the blocks work on every graph, printing and partitions on every graph in which IDs
  identify vertices (`Trees.WellFiled`). What the theorems about whole outputs need in addition is a tree with different node names
  (`Trees.IsTree`, `Trees.NamesDiffer`).
- Host lists (`ClusetTheorems.Tame`): names without opening brackets, with numerals below the largest int, and no value
  written in two ways under one prefix. On such lists the round trip holds exactly if two further conditions hold
  (`ClusetTheorems.RoundTrip`); `MixedWidths` and `PrefixCollision` are inputs that fail one each.

Where the program does something a reader may not expect, the model does what the code does:

- The repository's README (lines 213-217) promises 202 while a request is in progress and 404 for unknown requests only. The
  queue clears the pending uid before it calls the handler, so a uid being handled answers 404: `QueueRuns.InProgressNotFound`
  is such a run, and `QueueRuns.AcceptedUntilHandled` says exactly when the promise holds. An evicted uid answers 404 too.
  The queue alone would answer 202 to the empty uid while nothing waits (`QueueRuns.EmptyUid`), but the HTTP handler
  (pkg/server/http_server.go:216-220) answers 400 to it and does not ask the queue.
- The breadth-first loops of `initTree` and `toTreeTopology` do not look back: a vertex is visited once for every path that
  leads to it, and what is listed twice when loading is followed twice when printing. Every vertex is printed once if and only
  if no vertex has two parents (`Arrivals.WrittenOnce`), and every switch of a partition is emitted once if and only if no
  switch of it has two (`PartitionUnit.SwitchesEmittedOnce`). Merging does not see to that: the spines of `Sharing.SpinesStay`,
  which a fabric leads to (`Sharing.SpinesFromFabric`), share a leaf switch, are merged with nothing, and have it printed and
  emitted more than once (`Sharing.SharedLeafRepeated`, `Sharing.SharedLeafEmittedTwice`). Such tiers are handed to the
  translation by pkg/providers/infiniband/common.go:58-78, below a root and after a second merger that sorts them into tiers
  without merging; `Sharing.FabricPrintedOnce` says exactly when they are fit.
- Not looking back, these loops end if and only if no way down from the root comes to an ID twice (`Walks.WalksEnd`). Records
  can be such that one does: a record that names one switch as block and as spine puts it below itself
  (`ThreeTierCycles.BelowItself`), and the objects built from records stand for a finite graph if and only if nothing lies
  below itself. Different IDs in different tiers are enough for that (`ThreeTierCycles.TiersNoCycle`) but not necessary
  (`ThreeTierCycles.TwoTiersNoCycle`).
- Of several vertices with one ID, `initTree` files only the one it comes to first, so no vertex is lost if and only if IDs
  identify vertices (`Loading.AllFiledIff`). A compute node with the ID of its switch is lost (`SharedIds.NodeWithSwitchId`),
  the switch is listed below itself, and printing that graph never ends (`SharedIds.PrintingNeverEnds`). A record that names
  its instance as its block leads to it (`ThreeTier.SwitchLikeInstance`).
- `ToGraph` files a nil vertex for a sub-switch that is not declared. The graph has one if and only if a switch lists an
  undeclared sub-switch and no node of the same name is filed in its place later (`ModelBuild.NilExactly`); if no node is named
  like a sub-switch, this is so if and only if some listed sub-switch is not declared (`ModelBuild.NilIfUndeclared`).
  `ModelBuild.UndeclaredIsNil` is a model that is loaded without an error and has a nil vertex.
- A record whose block, spine and datacenter are all empty puts its node directly under the nameless root, which is not
  printed, so the node is lost without an error: `ThreeTierNodes.EveryNodePrinted` says exactly when, and
  `ThreeTierNodes.NodeWithoutSwitchLost` is such a record, as pkg/providers/lambdai/instance_topology.go:51-62 makes one of
  an empty network path. The partition output loses such a node too (`PartitionUnit.NodeUnderOneSwitch`).
- A node in two blocks is told one of them, the last in the order in which a Go map is iterated, and one order decides for all
  nodes (`BlocksSpec.ByOrder`). A block is then emitted in every order if and only if the tree has a node that is in it and
  in no other block (`BlocksSpec.EmittedAlways`);
  `BlocksSpec.SharedNodeLosesBlock` has two blocks over one node, of which either may be missing.
- When a name is also the prefix of numbered names, `Compact` keeps either the name or the numbered names after it, not both.
- `Expand` counts with an int that wraps around, up to and including the upper bound. The loop ends if and only if the bound
  is below the largest int (`ClusetLoop.PassesExactly`, and `ClusetLoop.RangeEntryEnds` for the entry as written);
  `ClusetLoop.LargestNeverEnds` is an entry that never does. `Cluset.Expand` requires exactly that (`ClusetSpec.EntryEnds`).
- Without blocks the block sizes are the single size -1, or the requested base if there is a fake-node pool
  (`BlockSizes.GetBlockSize`).

## Model

| member | source | states |
|---|---|---|
| `Merger.Merger.constructor` | pkg/topology/merger.go:23-40 | the tiers of a layered graph are its vertices by rank, compute nodes first, each ID once; the top is sorted by ID, and a lower tier holds the children of the one above, ordered by the vertex they are first found from and then by ID |
| `Merger.Merger.Traverse` | pkg/topology/merger.go:42-72 | one call appends exactly the tiers below and including its layer, each lower one in the order in which it is found from the one above, and records the compute nodes |
| `MergerSpec.TiersAreTiered` | pkg/topology/merger.go:42-72 | tier i holds vertices of rank i only, with all their children in tier i - 1 |
| `MergerOrder.NextTierIs` | pkg/topology/merger.go:54-69 | a list is the next tier if and only if it holds exactly the children and, of two of them, the one first found from an earlier vertex stands earlier, and of two first found from one vertex the one with the smaller ID |
| `MergerOrder.TiersAreInOrder` | pkg/topology/merger.go:33-72 | all tiers are in this order, and the top tier is sorted by ID |
| `Merger.Merger.MergeLayer` | pkg/topology/merger.go:88-136 | leaves the merged tier, maps every vertex of the tier to its representative, and keeps the merged form of each |
| `Merger.Merger.Merge` | pkg/topology/merger.go:82-86 | replaces every tier by its merged tier, bottom-up |
| `MergerSpec.SignatureDecidesShape` | pkg/topology/merger.go:97-119 | two switches of a tier have the same merged child set exactly if they unfold to the same shape |
| `MergerTheorems.SameRepresentative` | pkg/topology/merger.go:88-136 | two vertices of a tier end with the same representative exactly if their unfoldings are equal, and it is the first such vertex |
| `MergerOrder.StaysExactly` | pkg/topology/merger.go:88-136 | below the top, a switch survives if and only if it is found before every other one of its shape |
| `MergerOrder.TopStaysExactly` | pkg/topology/merger.go:88-136 | in the top tier, a switch survives if and only if its ID is the smallest of its shape |
| `MergerOrder.SmallerIdStays` | pkg/topology/merger.go:54-136 | of two switches of one shape first found from the same parent, the one with the larger ID does not survive |
| `MergerOrder.MergedTopInOrder` | pkg/topology/merger.go:33-136 | the merged top is sorted by ID and has exactly the switches with the smallest ID of their shape |
| `MergerSpec.QuotientChildren` | pkg/topology/merger.go:122-131 | the children of a merged switch are exactly the merged representatives of its original children |
| `MergerSpec.QuotientPreservesShape` | pkg/topology/merger.go:82-136 | merging does not change what a switch unfolds to |
| `MergerTheorems.MergedTierShapes` | pkg/topology/merger.go:88-136 | a merged tier has every shape of the original tier, each once: the coarsest quotient |
| `MergerTheorems.MergingKeepsLeaves` | pkg/topology/merger.go:82-136 | the compute nodes below each switch and below a whole tier are those from before |
| `MergerTheorems.MergedGraphDiscerning` | pkg/topology/merger.go:82-136 | in the merged graph, vertices of one rank and shape are the same vertex |
| `MergerTheorems.MergingIsIdempotent` | pkg/topology/merger.go:23-136 | merging the merged graph gives the same top tier again |
| `Ib.SplitPorts` | pkg/ib/ib.go:127-136 | the connections keep exactly the ports that lead to no adapter; remembered are those to an adapter whose node has a name and is in the cluster, with this name |
| `Ib.PlaceLeaf` | pkg/ib/ib.go:126-151 | a switch becomes a leaf vertex if and only if one of its ports leads to an adapter of a named cluster node; its children are exactly the vertices of these nodes, and it loses its connections |
| `Ib.HostsOfSwitch` | pkg/ib/ib.go:125-136 | read off the ports: the hosts of a switch are the named cluster nodes its adapters belong to, its links the other ports |
| `Ib.FindLeaves` | pkg/ib/ib.go:125-151 | the first pass returns level 0, whatever the order of the switches |
| `Ib.NextLevel` | pkg/ib/ib.go:156-175 | a later pass returns exactly the unplaced switches with a link into the level, over their neighbours in it |
| `Ib.BuildTree` | pkg/ib/ib.go:119-185 | returns the last non-empty level, and ends |
| `IbSpec.UnplacedShrinks` | pkg/ib/ib.go:155-182 | every pass that places a switch leaves fewer unplaced |
| `IbSpec.LevelIsShortestDistance` | pkg/ib/ib.go:119-185 | a switch is in level k exactly if k is the least number of links that reaches it from a leaf switch |
| `IbSpec.EmptyLevelIsLast` | pkg/ib/ib.go:176-178 | after an empty level nothing is left to reach, so the returned roots are the farthest switches |
| `Ib.RootsAreFarthest` | pkg/ib/ib.go:119-185 | what buildTree returns are exactly the switches at the greatest finite distance from the leaf switches; nothing if and only if no switch is at a finite distance |
| `IbSpec.LeavesAreNearest` | pkg/ib/ib.go:119-185 | the compute nodes below a switch of level k are the hosts of the leaf switches from which k links lead to it |
| `IbPipeline.LeavesOfRoots` | pkg/ib/ib.go:119-185 | the same for all roots together |
| `IbPipeline.OnlyClusterNodes` | pkg/ib/ib.go:129-134 | no node outside the cluster is below a root |
| `IbPipeline.LevelRanked` | pkg/ib/ib.go:119-185 | a switch of level k has rank k + 1 |
| `IbPipeline.FabricIsLayered` | pkg/ib/ib.go:55-62 | what buildTree returns meets the precondition of the merger, for every fabric whose node names are not switch IDs |
| `IbPipeline.RootOrderIrrelevant` | pkg/ib/ib.go:57-64 | the merged result does not depend on the order in which the map yields the roots |
| `IbPipeline.GenerateTopology` | pkg/ib/ib.go:49-65 | the composition returns the merged top of the farthest level, sorted by ID, with the same compute nodes below it, all of them nodes of the cluster if the switches came without nodes |
| `Cluset.GroupNodes` | internal/cluset/cluset.go:36-47 | the group map after all names |
| `Cluset.CompressRange` | internal/cluset/cluset.go:103-133 | the runs of consecutive numerals, in brackets if there is more than one numeral |
| `Cluset.Compact` | internal/cluset/cluset.go:35-68 | one entry per prefix in sorted order, with its sorted numerals compressed |
| `Cluset.Expand` | internal/cluset/cluset.go:71-95 | all entries counted out in order |
| `Cluset.SplitList` | internal/cluset/cluset.go:142-183 | the parts between commas outside brackets, trimmed, without empty ones |
| `Cluset.PrintAndRead` | internal/cluset/cluset.go:98-100 | ExpandList of the joined Compact output is a permutation of the names |
| `ClusetRuns.ReadBackExactly` | internal/cluset/cluset.go:81-85 | a sorted list of numerals comes back from its ranges exactly if consecutive ones are evenly padded, also across a digit boundary |
| `ClusetEntries.ExpandOfEntry` | internal/cluset/cluset.go:74-92 | expanding one printed group gives the names of the group |
| `WrittenEntries.ExpandOfParts` | internal/cluset/cluset.go:72-90 | an entry written by hand: every part in the brackets stands for its text, or for the numbers from its lower to its upper end padded like the lower one, behind the prefix |
| `WrittenEntries.ExpandOfPlain` | internal/cluset/cluset.go:90-93 | an entry without an opening bracket, or not ending with a closing one, stands for itself |
| `ClusetTheorems.RoundTrip` | internal/cluset/cluset.go:35-95 | Expand of Compact is a permutation of the input if and only if plain names are unique and no prefixes, and numerals one above another are padded alike |
| `ClusetTheorems.MixedWidths` | internal/cluset/cluset.go:81-85 | a1 and a02 do not come back |
| `ClusetTheorems.PrefixCollision` | internal/cluset/cluset.go:44-46 | a and a1 do not both come back |
| `ClusetTheorems.CompactCanonical` | internal/cluset/cluset.go:35-68 | permuting the input does not change the output |
| `ClusetTheorems.CompactStable` | internal/cluset/cluset.go:35-95 | Compact of Expand of Compact is Compact |
| `ClusetTheorems.OneRangePerRun` | internal/cluset/cluset.go:110-123 | a sorted list of different numerals is printed with one range per maximal run of consecutive values |
| `ClusetTheorems.CompactMinimal` | internal/cluset/cluset.go:35-68 | in what Compact prints for different names, the entry of a prefix has one part per maximal run of consecutive values, and no more |
| `ClusetOrder.CompactAscends` | internal/cluset/cluset.go:49-65 | the entries begin with the prefixes of the names, every prefix once, and these ascend |
| `ClusetOrder.CompactSpelled` | internal/cluset/cluset.go:56-65 | after its prefix an entry has nothing, its one numeral, or in brackets its numerals by increasing value, cut into runs of consecutive ones that cannot be longer, each written as its only or its first and last numeral |
| `ClusetOrder.ReadBackAscends` | internal/cluset/cluset.go:35-95 | the names that come back are ordered by prefix, and under one prefix by number |
| `ClusetTheorems.SplitListOfJoin` | internal/cluset/cluset.go:142-183 | splitList undoes joining with commas when commas occur inside balanced brackets only |
| `ListPieces.SplitEveryList` | internal/cluset/cluset.go:142-183 | for every list: it is the join of pieces without commas outside brackets, and what is returned are these pieces trimmed, without the empty ones |
| `Text.TrimmedParts` | internal/cluset/cluset.go:160-180 | what is trimmed from a string is spaces at its ends, and what is left has none there |
| `ClusetTheorems.ListRoundTrip` | internal/cluset/cluset.go:98-100 | the names come back from the one-line form |
| `ClusetTheorems.CompactEnds` | internal/cluset/cluset.go:83-85 | what Compact prints can be expanded without counting past the largest int |
| `ClusetLoop.PassesExactly` | internal/cluset/cluset.go:83-85 | the wrapping counter passes its bound after some number of rounds if and only if the bound is below the largest int |
| `ClusetLoop.LoopWrites` | internal/cluset/cluset.go:83-85 | when it does, there is one name for every value of the counter on the way |
| `ClusetLoop.PartEndsExactly` | internal/cluset/cluset.go:79-85 | what Expand requires of a part is exactly that its counter passes its bound |
| `ClusetLoop.RangeEntryEnds` | internal/cluset/cluset.go:75-85 | an entry with one range can be expanded if and only if the upper bound, as written, is below the largest int |
| `ClusetLoop.LargestNeverEnds` | internal/cluset/cluset.go:83-85 | an entry with one name that is never expanded |
| `Queue.TrailingDelayQueue.constructor` | pkg/server/trailing_delay_queue.go:54-66 | the queue starts empty |
| `Queue.TrailingDelayQueue.Submit` | pkg/server/trailing_delay_queue.go:107-119 | replaces the item and its time, keeps the pending uid if there is one, and changes nothing else |
| `Queue.TrailingDelayQueue.Tick` | pkg/server/trailing_delay_queue.go:75-87 | takes the item out, with its uid, exactly if there is one and strictly more than the delay has passed, and clears the uid |
| `Queue.TrailingDelayQueue.Finish` | pkg/server/trailing_delay_queue.go:88-101 | stores the data with status 200 and no message, or the code and message of the error without data, under the uid that was taken |
| `Queue.TrailingDelayQueue.Get` | pkg/server/trailing_delay_queue.go:121-139 | the stored result, or 202 with its message for the pending uid, or 404 with its message; only the order of use changes |
| `QueueRuns.StepKeeps` | pkg/server/trailing_delay_queue.go:68-139 | every step keeps the invariant |
| `QueueRuns.RunKeeps` | pkg/server/trailing_delay_queue.go:68-119 | over every interleaving: submissions sharing a uid are consecutive, a uid is started and completed at most once, the store is the most recently used results |
| `QueueRuns.QueueSafety` | pkg/server/trailing_delay_queue.go:68-119 | in the history of any run, no uid is handled twice, and what is handled is the last item submitted, under its uid, more than the delay before |
| `QueueRuns.PhasesMoveForward` | pkg/server/trailing_delay_queue.go:79-102 | a uid only moves from pending to handled, stored and evicted |
| `QueueRuns.PhasesMoveForwardInRuns` | pkg/server/trailing_delay_queue.go:79-102 | a uid that has left 202 never returns to it |
| `QueueRuns.AnswerByPhase` | pkg/server/trailing_delay_queue.go:121-139 | Get answers the stored result, 202 while pending and 404 otherwise, phase by phase; what the stored result is follows in AnswerOfFinished |
| `QueueEvents.AnswerOfFinished` | pkg/server/trailing_delay_queue.go:88-139 | in every run, after the handler has returned data for a request, Get answers these data with 200, and after an error its code and message without data, until 100 other results have been written or read; then 404 |
| `QueueEvents.AnswerOfUnfinished` | pkg/server/trailing_delay_queue.go:79-139 | before that, Get answers 202 with its message from the submission until the handler takes the request, and 404 with its message at all other times |
| `QueueEvents.StartsExactly` | pkg/server/trailing_delay_queue.go:75-87 | a tick hands a request to the idle handler if and only if it is the last one submitted, holds an item, was not handed over since and has rested strictly more than the delay; what is handed over is the item submitted last |
| `QueueEvents.HistoryOfEvents` | pkg/server/trailing_delay_queue.go:68-119 | the history of a run says a uid was submitted, started or completed exactly if an event of the run did so |
| `QueueRuns.AcceptedUntilHandled` | pkg/server/trailing_delay_queue.go:79-84 | a request submitted and not yet completed answers 202 exactly while no handler runs for it |
| `QueueRuns.InProgressNotFound` | pkg/server/trailing_delay_queue.go:79-84 | a run in which a request in progress answers 404 |
| `QueueRuns.OneResult` | pkg/server/trailing_delay_queue.go:99-101 | a uid has at most one result |
| `QueueRuns.EmptyUid` | pkg/server/trailing_delay_queue.go:121-139 | in every reachable state the empty uid is not stored, and answers 202 exactly while no submitted request waits for its rest |
| `QueueRuns.EvictedByHundred` | pkg/server/trailing_delay_queue.go:32 | a result is in the store exactly if fewer than 100 other uids were used since its last use, and the store holds at most 100 |
| `Domains.DomainMap.AddHost` | pkg/topology/block.go:70-77 | files the host with its instance under the domain, and changes nothing else |
| `Domains.DomainMap.ToBlocks` | pkg/topology/block.go:32-68 | one block per domain over its hosts, each with its instance; its name is the domain, its ID block and the number of domains up to it, with at least three digits |
| `Domains.FirstBlock` | pkg/topology/block.go:45-50 | the block of the first domain has the ID block001 |
| `Domains.DomainsAre` | pkg/topology/graph.go:121-123 | a host is filed under a domain with an instance exactly if the used record of the instance says so |
| `Domains.BlocksFit` | pkg/topology/block.go:32-68 | the blocks have different, non-empty IDs and no common nodes |
| `Normalization.SameNameSameSwitch` | pkg/topology/graph.go:198-227 | two normalized records carry the same name for two switches exactly if the switches have the same ID, for all inputs |
| `Normalization.BandNumbers` | pkg/topology/graph.go:198-227 | if no ID occurs in two bands, the IDs of a band are named 1 to m in order of first appearance in the sorted records |
| `NormalOrder.NormalizedInOrder` | pkg/topology/graph.go:182-196 | the records come out ordered by datacenter, then spine, block and instance, and apart from the names they are those that went in |
| `NormalOrder.NamesCountUp` | pkg/topology/graph.go:198-227 | for all inputs: where an ID occurs first, record by record from block to datacenter, its name is switch.b.n with b = 1, 2, 3 for block, spine, datacenter and n the number of IDs that occurred first in that place so far |
| `Normalization.OrderIrrelevant` | pkg/topology/graph.go:180-196 | with one record per instance the result does not depend on the order of the input |
| `ThreeTier.ClusterTopology.Normalize` | pkg/topology/graph.go:180-227 | the records are sorted by hierarchy and carry the names of their switches |
| `ThreeTierSpec.UsedAreFirst` | pkg/topology/graph.go:107-114 | a record is used exactly if its instance is requested and no earlier record is about it |
| `ThreeTierSpec.NameIsFirst` | pkg/topology/graph.go:126-142 | a switch has the name it is given where its ID occurs for the first time in the used records, from block to datacenter |
| `ThreeTierObjects.Attach` | pkg/topology/graph.go:131-140 | the object is filed below the switch, in place of what was under its ID; a known switch is reused, a new one created, and nothing else changes |
| `ThreeTierObjects.Climb` | pkg/topology/graph.go:126-143 | one tier of one record: an empty ID is skipped, a known switch is reused, a new one created and named, and the object reached so far filed below it |
| `ThreeTierObjects.PlaceRecord` | pkg/topology/graph.go:116-144 | a record adds a new object for its instance, its switches and what is filed below them; no object is lost |
| `ThreeTierObjects.PlaceRecords` | pkg/topology/graph.go:107-144 | for all records: one object for each used instance and each switch they mention, the highest objects, the instances left over and the domains |
| `LastFiled.LastFiledStays` | pkg/topology/graph.go:125-143 | for all records: below a switch is, under each ID, what was filed there last, record by record from the block up |
| `LastFiled.LastTopStays` | pkg/topology/graph.go:144-144 | below the root is the highest object of a record, unless a later record has one with the same ID |
| `ThreeTierObjects.AddMissing` | pkg/topology/graph.go:149-159 | the instances without a record become new objects below no-topology |
| `ThreeTierObjects.AddRoot` | pkg/topology/graph.go:146-166 | the root has the highest objects below it and, in place of one with its ID, no-topology if an instance is missing |
| `ThreeTier.CompleteRepresents` | pkg/topology/graph.go:93-178 | objects linked as the records say stand for the tree of the records |
| `ThreeTier.RepresentsOne` | pkg/topology/graph.go:93-178 | objects stand for one tree only, so the tree built is determined by the records |
| `ThreeTier.ClusterTopology.ToThreeTierGraph` | pkg/topology/graph.go:93-178 | for all records: the objects, and below each what was last filed under each key; if no switch has the ID of an instance, they are linked exactly as the used records say, stand for a finite graph if and only if nothing lies below itself, and for the tree of the records if tiers have different IDs; the blocks are those of the accelerator domains |
| `ThreeTier.AssembledComplete` | pkg/topology/graph.go:93-178 | if no switch has the ID of an instance, every object is found by its ID and has below it exactly what the records link |
| `ThreeTier.ValueUnlessCycle` | pkg/topology/graph.go:125-166 | the objects stand for a finite graph if and only if nothing lies below itself |
| `ThreeTier.SwitchLikeInstance` | pkg/topology/graph.go:116-143 | a record that names its instance as its block is accepted, and gives a switch with a node of the same ID below it |
| `ThreeTierTree.RecordLinks` | pkg/topology/graph.go:125-144 | two IDs are linked exactly if they are consecutive known levels of a used record |
| `ThreeTierTree.OneParentId` | pkg/topology/graph.go:125-161 | if every switch has one set of switches above it, nothing has two parents |
| `ThreeTierTree.GraphIsTree` | pkg/topology/graph.go:93-178 | the result is a tree with IDs identifying vertices if and only if every switch has one set of switches above it |
| `ThreeTierTree.TwoSpinesNoTree` | pkg/topology/graph.go:125-144 | two records that put one block below two spines are accepted, and the result is no tree |
| `ThreeTierTree.GraphNames` | pkg/topology/graph.go:93-178 | its leaves are requested instances with their node names, all different |
| `ThreeTierCycles.GraphWalksEnd` | pkg/translate/topology.go:124-141 | the breadth-first loops over what the records link end, in every order of the children, if and only if nothing lies below itself; otherwise the queue is never empty |
| `ThreeTierCycles.CycleComesBack` | pkg/topology/graph.go:125-166 | whatever lies below itself is reached from the root |
| `ThreeTierCycles.BelowItself` | pkg/topology/graph.go:125-142 | a record with one ID as block and as spine is accepted, and puts the switch below itself |
| `ThreeTierCycles.TiersNoCycle` | pkg/topology/graph.go:125-142 | if no ID occurs in two tiers, nothing lies below itself |
| `ThreeTierCycles.TwoTiersNoCycle` | pkg/topology/graph.go:125-142 | two records in which an ID occurs in two tiers and still nothing lies below itself |
| `ThreeTier.ReadyToTranslate` | pkg/topology/graph.go:93-178 | what is built always meets the preconditions of the translation, for the tree and for the blocks |
| `ThreeTierNodes.NodePrintedOnce` | pkg/topology/graph.go:93-178 | in the printed tree a requested node is listed once, or never if it is directly below the root |
| `ThreeTierNodes.PrintedAtHome` | pkg/translate/tree.go:37-78 | a list with a node in it is headed by the switch the node's first record puts it below, or by no-topology |
| `ThreeTierNodes.HomeByFirstRecord` | pkg/topology/graph.go:107-161 | that switch is the lowest one of the first record; an instance without records goes below no-topology |
| `ThreeTierNodes.EveryNodePrinted` | pkg/topology/graph.go:93-178 | every requested node is printed in exactly one list, unless its first record knows no switch |
| `ThreeTierNodes.NodeWithoutSwitchLost` | pkg/topology/graph.go:116-144 | a record that knows no switch is accepted, and its node is requested but never printed |
| `ThreeTierNodes.OnlyRequestedPrinted` | pkg/topology/graph.go:107-111 | no other node is printed |
| `ThreeTierNodes.AncestorsOfNode` | pkg/topology/graph.go:125-144 | in the tree before printing, the switches above a node are exactly the block, spine and datacenter of its record |
| `ThreeTierSwitches.LevelPrinted` | pkg/translate/tree.go:37-78 | read back, a node or switch below a switch is in exactly one list, and a highest switch in none |
| `ThreeTierSwitches.LevelHeaded` | pkg/translate/tree.go:37-78 | that list is headed by the next known level of the record |
| `ThreeTierSwitches.PrintedAncestors` | pkg/translate/tree.go:20-78 | going up in the printed lines from a node, from list to heading, gives exactly the labels of the block, spine and datacenter of its first record, without the unknown ones |
| `ThreeTierSwitches.LabelIsFirst` | pkg/translate/tree.go:56-62 | such a label is the name the switch is given where its ID occurs first, or the ID if that is empty |
| `ThreeTierSwitches.MissingAncestors` | pkg/topology/graph.go:149-161 | above a requested instance without a record there is no-topology and nothing else |
| `SwitchNames.GivenPrintable` | pkg/topology/graph.go:213-227 | names of the form switch.b.n, with or without no-topology, survive printing and reading |
| `SwitchNames.NormalizedLabels` | pkg/topology/graph.go:180-227 | after normalizing, the labels of all switches differ and survive printing |
| `SwitchNames.NormalizedAncestors` | pkg/topology/graph.go:93-227 | with normalize, the headings above a requested node are exactly the names given to the block, spine and datacenter of its first record, or no-topology if it has none |
| `Arrivals.LoadedOnce` | pkg/translate/topology.go:124-141 | loading visits every vertex once if and only if no vertex has two parents |
| `Arrivals.WrittenOnce` | pkg/translate/tree.go:20-35 | every vertex is written once if and only if no vertex has two parents |
| `Arrivals.SharedIsRepeated` | pkg/translate/tree.go:20-35 | a vertex with two parents is loaded and written at least twice |
| `Loading.AccountStep` | pkg/translate/topology.go:124-141 | a round of the loop, made on any graph, keeps the sum of the visits made and those still to come, and leaves fewer to come |
| `Translate.NetworkTopology.InitTree` | pkg/translate/topology.go:118-146 | on any graph: the visits are breadth-first, each vertex as often as paths lead to it; under each ID the first visited vertex is filed and the keys found by all visits are listed, sorted; every compute node that is the first with its ID is known by its name. If IDs identify vertices, all of them are filed |
| `Loading.AllFiledIff` | pkg/translate/topology.go:128-137 | no vertex is lost if and only if IDs identify vertices |
| `Loading.AccountKids` | pkg/translate/topology.go:124-141 | also if vertices share IDs, a round of the loop keeps the sum of the visits made and those still to come, and leaves fewer to come |
| `Walks.WalksEnd` | pkg/translate/tree.go:20-35 | a loop that appends what is listed for the first of its queue ends, in every order, if and only if no way down from the root comes to an ID twice; otherwise its queue is never empty |
| `SharedIds.LoadedEnds` | pkg/translate/tree.go:20-35 | the lists loaded from a graph whose IDs identify vertices come to no ID twice on any way down |
| `SharedIds.NodeWithSwitchId` | pkg/translate/topology.go:124-141 | a compute node with the ID of its switch is visited but neither filed nor known, and the switch is listed below itself |
| `SharedIds.PrintingNeverEnds` | pkg/translate/tree.go:20-35 | in no run of the loop that prints this graph is the queue ever empty |
| `Loading.LoadedTree` | pkg/translate/topology.go:118-146 | in a tree every child key is listed once |
| `Sharing.IbTree` | pkg/providers/infiniband/common.go:58-71 | the roots of one fabric, sorted into tiers by a second merger that does not merge, come out below the nameless root as they went in |
| `Sharing.FabricTree` | pkg/providers/infiniband/common.go:28-71 | from the switches of one fabric: the merged roots of its last level below a root, in a graph whose IDs identify vertices |
| `Sharing.FabricPrintedOnce` | pkg/providers/infiniband/common.go:58-78 | what the InfiniBand pipeline returns, below that root, is loaded and written with every vertex once if and only if no two merged switches share a child |
| `Sharing.SpinesStay` | pkg/topology/merger.go:82-136 | two spines over L1, L2 and over L2, L3 are a layered graph that merging leaves as it is |
| `Sharing.SpinesFromFabric` | pkg/ib/ib.go:119-185 | a fabric of five switches and three nodes has these spines as its last level, and merging returns them |
| `Sharing.SharedLeafRepeated` | pkg/translate/tree.go:20-35 | below their root the shared leaf switch is loaded and written more than once |
| `Sharing.SharedLeafEmittedTwice` | pkg/translate/yaml.go:176-214 | a partition with the node below the shared leaf switch emits that switch more than once |
| `Translate.NetworkTopology.AssignBlocks` | pkg/translate/topology.go:193-201 | there is one order of the blocks such that every node is told the last block in it that has the node, and of blocks with one ID the last is kept |
| `Translate.NetworkTopology.OrderBlocks` | pkg/translate/topology.go:202-229 | the explicit stack emits the blocks in the order of the recursive depth-first search: for each there is a node of the tree that was told it, and these nodes are met in the order of the blocks, those below a child with a larger key first |
| `Translate.NetworkTopology.InitBlocks` | pkg/translate/topology.go:148-231 | with tree data, there is one order of the blocks such that a node met in depth-first order that no emitted block has emits the block it was told by it; for blocks without common nodes, exactly those with a node in the tree are listed, each before another one if it has a node met before all nodes of the other, and every node is told ID and position of its block; without tree data, blocks come in key order and a node gets the last block it is in; blocks may share IDs, and so may vertices |
| `Translate.NetworkTopology.MarkBlockNodes` | pkg/translate/topology.go:234-249 | exactly the nodes of the block get its index |
| `BlocksSpec.StackExpand` | pkg/translate/topology.go:218-228 | replacing a vertex on the stack by its children does not change the order of the leaves to come |
| `BlocksSpec.DfsLeavesAre` | pkg/translate/topology.go:203-228 | the depth-first order visits exactly the compute nodes of the tree |
| `SearchOrder.SearchFollowsKeys` | pkg/translate/topology.go:218-228 | in a tree one compute node is met before another if and only if it is below a child with a larger key where their ways part |
| `BlocksSpec.EmittedOnce` | pkg/translate/topology.go:202-229 | whatever the order, every block is emitted at most once, because a node was told it, and every node met that is in a block ends in an emitted one |
| `BlocksSpec.BlockOrderIs` | pkg/translate/topology.go:208-217 | if no node is in two blocks, exactly the blocks with a node in the tree are emitted |
| `BlocksSpec.EmittedAlways` | pkg/translate/topology.go:193-229 | a block is emitted for every order in which the blocks can be iterated if and only if the tree has a node that is in this block and in no other |
| `BlocksSpec.SharedNodeLosesBlock` | pkg/translate/topology.go:193-229 | of two blocks over one node, each of the two orders emits one and loses the other |
| `BlocksSpec.OrderOfFirstNodes` | pkg/translate/topology.go:202-229 | if no node is in two blocks, of two emitted ones the one whose first node is met earlier comes first |
| `SearchOrder.EmittedAsSearched` | pkg/translate/topology.go:202-229 | for all blocks, also ones with common nodes: the listed blocks were emitted by nodes met in this order, with ID, name and node names as filed |
| `SearchOrder.BlocksHaveNodes` | pkg/translate/topology.go:202-229 | without common nodes, exactly the blocks with a node in the tree are listed, once, with their ID, name and nodes, and with their position as index |
| `SearchOrder.BlocksComeAsSearched` | pkg/translate/topology.go:202-229 | of two listed ones, the earlier has a node that is met before every node of the later |
| `SearchOrder.NodesKnowBlocks` | pkg/translate/topology.go:202-249 | every known node has the ID and position of the listed block it is in, or neither |
| `SearchOrder.KeyOrderMeans` | pkg/translate/topology.go:163-191 | without a tree the blocks come by ascending key, and a node is told the last one it is in |
| `BlocksSpec.IndexOfEveryNode` | pkg/translate/topology.go:208-217 | a tree node in a block ends with the position of an emitted block it is in, and every other tree node with none |
| `Translate.WriteVertex` | pkg/translate/tree.go:37-78 | a vertex with an ID prints its sub-switches, then its nodes, each under its name or else its ID, after a comment with name and ID if it has a name; one without ID prints nothing |
| `Translate.NetworkTopology.ToTreeTopology` | pkg/translate/tree.go:20-35 | on any loaded graph: prints every vertex as often as the lists are followed to it, the root first, what is found from an earlier vertex earlier and what is found from one vertex by ascending ID, or reports the missing root |
| `WalkOrder.TurnStep` | pkg/translate/tree.go:20-35 | serving the first of the queue and appending its children by ID keeps this order |
| `TreeOutput.TreeIsPrinted` | pkg/translate/tree.go:20-35 | a tree is printed vertex by vertex, each once, breadth first and children by ascending ID |
| `TreeOutput.OnceNeedsTree` | pkg/translate/tree.go:20-35 | the order in which vertices are written holds each once if and only if no vertex has two parents |
| `TreeOutput.HeadingIdentifies` | pkg/translate/tree.go:56-62 | comment and name of a line identify the vertex |
| `TreeOutput.EachEntryListedOnce` | pkg/translate/tree.go:20-78 | read back, the lists of nodes and the lists of switches hold an entry once if it is below a vertex with an ID, and never otherwise |
| `TreeOutput.ListedUnderItsParent` | pkg/translate/tree.go:37-78 | a list with a node or switch in it is headed by its parent |
| `Pipeline.PrintTree` | pkg/translate/topology.go:99-116 | loading the graph of the records and printing it prints its tree, so that every requested node is listed as stated above, and no other |
| `Pipeline.PrintPartition` | pkg/translate/yaml.go:155-217 | loading the graph of the records, recording its blocks and asking for nodes lists every requested node once, unless its first record knows no switch, and no other; or names one of the requested nodes that is unknown |
| `Translate.NetworkTopology.FindRequired` | pkg/translate/yaml.go:228-249 | the search finds exactly the vertices with a requested leaf at or below them |
| `Translate.NetworkTopology.BuildSubTree` | pkg/translate/yaml.go:252-264 | keeps exactly the required children of required vertices, and no empty lists |
| `PartitionSpec.KeptEdges` | pkg/translate/yaml.go:227-264 | an edge has a requested leaf below it exactly if it lies on a path from the root to a requested leaf |
| `PartitionSpec.SubTreeIsUnionOfPaths` | pkg/translate/yaml.go:219-264 | the partition tree is exactly the union of the root-to-leaf paths |
| `PartitionSpec.PruneIsTree` | pkg/translate/yaml.go:252-264 | the pruned tree is a tree |
| `Translate.NetworkTopology.GetTreeTopologyUnit` | pkg/translate/yaml.go:155-217 | on any loaded graph: emits a named switch above requested nodes as often as the kept lists are followed to it, breadth first and children by ascending ID, and nothing else, or reports the first unknown node |
| `PartitionUnit.EmittedTimes` | pkg/translate/yaml.go:176-214 | the number of entries of a kept switch is the number of visits along the kept lists |
| `PartitionUnit.SwitchesEmittedOnce` | pkg/translate/yaml.go:176-214 | every kept switch is emitted exactly once if and only if no kept switch has two parents |
| `PartitionUnit.TreeIsEmitted` | pkg/translate/yaml.go:176-214 | in a tree, exactly the named switches above requested nodes are emitted, each once and after the switch it is below |
| `Translate.WriteSwitch` | pkg/translate/yaml.go:186-212 | the entry of a kept switch holds its requested nodes and its kept sub-switches, in the order in which its children are visited |
| `PartitionUnit.NodeUnderOneSwitch` | pkg/translate/yaml.go:186-211 | a requested node below a vertex with an ID is listed once, by that switch and no other; one below the nameless root is listed by none |
| `PartitionUnit.OnlyRequestedNodes` | pkg/translate/yaml.go:193-196 | no unrequested node is listed |
| `PartitionUnit.NeverListed` | pkg/translate/yaml.go:193-196 | read back over all entries, a node that was not requested is listed nowhere |
| `PartitionUnit.ChildrenReadBack` | pkg/translate/yaml.go:197-206 | the children listed for a switch are exactly its kept sub-switches |
| `PartitionUnit.KnownAfterBlocks` | pkg/translate/topology.go:193-249 | recording the blocks, also ones with shared nodes or IDs, leaves the instance IDs that partitions are resolved with |
| `Translate.NetworkTopology.GetBlockTopologyUnit` | pkg/translate/yaml.go:99-141 | emits the blocks of the requested nodes by increasing index, named block0, block1 and so on, with their sizes; none if no requested node has an index |
| `BlockUnit.NodesConserved` | pkg/translate/yaml.go:103-123 | a requested node with an index is in the blocks as often as it was requested, any other node never |
| `BlockUnit.SameBlockSameIndex` | pkg/translate/yaml.go:113-132 | two nodes share a block exactly if they share an index, and blocks keep the order of the indices |
| `BlockUnit.BlockReadsBack` | pkg/translate/yaml.go:134-141 | reading an emitted block gives exactly the requested nodes with its index |
| `BlockSizes.FindMinDomainSize` | pkg/translate/block.go:22-31 | the least number of nodes of a block, or -1 |
| `BlockSizes.GetBlockSize` | pkg/translate/block.go:35-88 | the requested sizes exactly if there is a block, the first is positive and, without fake nodes, fits into every block, and each is the first times a power of two that is at most the number of blocks; otherwise the base and its doublings, as many that the last power of two is at most the number of blocks and the next is more, without blocks the base alone |
| `BlockSizes.SizesExactly` | pkg/translate/block.go:35-88 | the same of the sizes that the other outputs are given |
| `BlockSizes.SizesFit` | pkg/translate/block.go:35-88 | without fake nodes every returned size is at most the total number of nodes; without blocks it is -1 |
| `FakeNodes.FakeNodeConfig.GetFreeFakeNodes` | pkg/translate/fake.go:31-39 | hands out the next nodes of the pool, or nothing and leaves the pool as it is |
| `FakeNodes.FakesAreConsecutive` | pkg/translate/fake.go:31-39 | what all blocks receive, put together, is the front of the pool |
| `FakeNodes.PaddedSize` | pkg/translate/block.go:108-114 | a padded block has as many nodes as the base size, any other keeps its own |
| `FakeNodes.PaddedReadsBack` | pkg/translate/block.go:107-114 | reading a padded line gives the block's own nodes and its fake ones |
| `Translate.NetworkTopology.WritePadded` | pkg/translate/block.go:101-119 | padding succeeds exactly if the summed deficit is at most the size of the pool, and otherwise stops at the first block it cannot serve |
| `Translate.NetworkTopology.ToBlockTopology` | pkg/translate/block.go:90-131 | the printed blocks, each under its ID after a comment with ID and name if it has a name, its own nodes first, padded to the first block size if there is a pool, and the block sizes |
| `Models.MapParents` | pkg/models/model.go:93-112 | succeeds exactly if no switch and no capacity block is listed twice, and maps each to its parent |
| `Models.GetNetworkLayers` | pkg/models/model.go:172-194 | ends on every parent map, fails exactly if the chain of parents is cyclic, and otherwise returns it without repetition up to a switch without a parent |
| `ModelSpec.ChainNotCyclic` | pkg/models/model.go:177-193 | a chain that ends without a repetition never repeats |
| `ModelSpec.ChainUnique` | pkg/models/model.go:172-194 | the chain is determined by the parent map |
| `ModelSpec.HighestDecides` | pkg/models/model.go:184-192 | under each key, the metadata of a node have the value of the highest switch of its chain that has one |
| `ModelSpec.MetadataFrom` | pkg/models/model.go:184-192 | and no other keys |
| `Models.SetNodeMap` | pkg/models/model.go:91-169 | succeeds exactly if parents are unique, no chain is cyclic and no node name repeats, and gives every node its name, the type, NVLink and name of its block and its layers, and every region its instances |
| `ModelSpec.InstancesPartitioned` | pkg/models/model.go:140-167 | the regions come in order, none twice, and every node n is in the list of the region its metadata name under region, or else of none, with the instance n-n, and in no other list |
| `ModelBuild.ToGraph` | pkg/models/model.go:196-267 | the objects are linked exactly as the model says: under each key of a switch, the node or sub-switch filed last, nil for one that is not declared; switches without a parent below the tree root, blocks over their nodes below the block root, which is there exactly if a block has an accelerator domain |
| `ModelBuild.FirstBlockCounts` | pkg/models/model.go:233-242 | of several blocks with one name, a switch gets the nodes of the first |
| `ModelBuild.LastBlockCounts` | pkg/models/model.go:217-226 | and the vertex of the block has the nodes of the last |
| `ModelBuild.LastEntryDecides` | pkg/models/model.go:226-242 | of several entries for one switch, the last that has a key decides what is filed under it: a node of its blocks, or else the sub-switch if it is declared, or else nil |
| `ModelBuild.NilExactly` | pkg/models/model.go:228-242 | the graph has a nil vertex if and only if a switch lists a sub-switch that is not declared and no node is filed in its place later |
| `ModelBuild.NilIfUndeclared` | pkg/models/model.go:228-242 | if no node is named like a sub-switch, it has one if and only if some listed sub-switch is not declared |
| `ModelBuild.UndeclaredIsNil` | pkg/models/model.go:228-232 | a model with one switch and one undeclared sub-switch has a nil vertex |
| `ModelBuild.TargetsFollowModel` | pkg/models/model.go:228-242 | if sub-switches are declared and names are unique, the children filed for a switch are exactly those of the relation the paths are made of |
| `ModelGraph.PathIsReverseOfLayers` | pkg/models/model.go:172-242 | in the relation the model describes, the path down to a node is the reverse of its layers, and there is no other path |
| `ModelWalks.StepOnObjects` | pkg/models/model.go:196-242 | the keys filed on a switch object are exactly its sub-switches and the nodes of its blocks, and lead to their objects |
| `ModelWalks.WalkToNode` | pkg/models/model.go:172-267 | on the objects: following children from the tree root reaches the object of a node if and only if the keys are the reverse of its layers and then the node |
| `ModelWalks.LoadModel` | pkg/providers/test/test.go:60-64 | expanding, checking and building a model succeeds exactly if parents are unique, no chain is cyclic and no node name repeats; the objects then are linked as the model says, and if sub-switches are declared every walk to a node follows its recorded layers |

## Left out

- `Cluset.Compact`: the order of numerals with equal values under one prefix, which `sort.Slice` does not fix, is that of a stable sort.
- `Cluset.Expand`: entries on which the loop never ends have no result; field widths above the limit of the `fmt` package are not modelled.
- `BlockSizes.GetBlockSize`: sizes do not wrap around at 64 bits, the floating-point logarithm and power are exact, and the logarithm of zero becomes -1 where the code converts minus infinity to some other negative int.
- `Translate.NetworkTopology.ToBlockTopology`: one pool expression only; the lines are structured, their rendering with `fmt` is not modelled.
- `Merger.Merger.constructor`: the in-place sort of the caller's slice and the sharing of vertex objects are not captured.
- `Ib.BuildTree`: the port keys under which a leaf's nodes were found are forgotten, as in the code.
- `Queue.TrailingDelayQueue.Tick`: critical sections are atomic steps; a tick while the handler runs, and shutdown, are not modelled.
- `QueueRuns.EvictedByHundred`: the LRU library is modelled by its documented behaviour.
- `ThreeTier.ClusterTopology.ToThreeTierGraph`: the counter of instances without topology and the logging are not modelled; tree and blocks are returned side by side instead of under one root.
- `ThreeTier.CompleteRepresents`: the tree of the records is stated for IDs that find the objects and tiers with different IDs; for other records only the objects and what is filed below them are.
- `Normalization.OrderIrrelevant`: records that differ but have the same instance ID may be ordered either way by the code.
- `ModelWalks.WalkToNode`: requires that sub-switches are declared, that names of switches and of different blocks are unique and that no node is named like a switch; of other models only the links are stated.
- `SwitchNames.NormalizedAncestors`: requires that three times the number of records is below the largest int, so that every switch number is one.
- `Translate.NetworkTopology.ToTreeTopology`: requires that IDs identify vertices; for other graphs, what is loaded and when the loop ends is stated, but not what is printed.
- `Translate.NetworkTopology.GetTreeTopologyUnit`: requires that IDs identify vertices, as above.
- `Sharing.FabricTree`: one fabric; the union of the roots of several is not modelled.
- Parsing ibnetdiscover output, and all reading and writing of JSON and YAML: the model starts from parsed maps and ends with structured output.
- The layering of `parseNetq` and the external commands of `getIbTree`, which repeat ideas modelled here with fewer guarantees.
- Cloud, Kubernetes and HTTP clients, configuration, credentials, metrics, retries and simulators.
- The clock and the uid generator: time is an input that does not run backwards, and a generated uid is new.
- Metadata of vertices and the generated-at header.
