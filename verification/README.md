# A Dafny model of the vector store

This project models the algorithms of a vector store for agent memory and proves what they promise:
graph search in memory and on disk, the pinned 2Q buffer pool, product quantisation, graph
construction and pruning, the log-structured write path, 4 KB records and the SIMD kernels.

Code that works step by step is modelled as methods and classes with loops, each proved against a
function of its inputs or its old state; what the store promises is then proved about those
functions. What a loop or a step computes is also stated without its function: as a trace of states with
what each step changes (`SearchTraces`, `NswTraces`, `VamanaTraces`, `KMeans.LloydIsTraining`), or as the
exact effect of one operation (members named `...Exactly`). Numbers are exact reals, the disk is a map from page ids to bytes, and a locked method is
one atomic step. Clocks, shuffles, hash-map order and sort order of ties are inputs or left open.

| files | what they model |
|---|---|
| `Ranking`, `BestFirst`, `Bits`, `VisitedBitmap`, `FlatGraph`, `GraphSearch`, `SearchTrace` | best-first search over the flat graph, turn by turn, and brute force |
| `Batches`, `PqRanking`, `DiskSearch` | the search with PQ-ranked neighbours, visited in batches through the reader |
| `Greedy`, `Selection`, `NswBuilder`, `NswTrace`, `NswRepeats`, `Vamana`, `VamanaTrace` | diversity-aware pruning and the two graph builders |
| `EvictionPolicy`, `BufferPool`, `PoolSteps`, `BufferPoolManager`, `PinProtocol`, `UnpinnedReads`, `UnpinnedRuns`, `PoolSketch`, `HubThreshold` | 2Q, frames and pins, and many threads sharing them |
| `Bytes`, `DiskRecord`, `DiskReader` | the 4 KB record and reads through the pool |
| `Vectors`, `SimdDistance`, `ProductQuantizer`, `PqEncoder`, `KMeans` | distances, kernels, quantisation, Lloyd's iteration |
| `MemTable`, `BloomFilter`, `SSTable`, `Wal`, `LsmWriter`, `Merge`, `MergeOrder` | the write path, its files and its compaction |
| `Guards`, `Options`, `Rows`, `Sequences` | small helpers |

`dafny verify dfyconfig.toml` checks the project.

Where the code does less than its documentation says, the model follows the code:

- `search_for_construction` compares ids before distances, so it returns the visited nodes with the
  largest ids (`Vamana.TourFindsExactly`, `Vamana.FarthestFoundCounterexample`). It returns the nearest
  exactly where it has room for every node that can be reached (`Vamana.NearestExactly`).
- A page picked for eviction while pinned leaves the queues and can never be evicted again
  (`PinProtocol.RefusedStayResident`); enough of them stop the pool from loading anything, for good
  (`BufferPool.LoadsExactly`, `PinProtocol.JammedForever`, `PinProtocol.JamCounterexample`).
- A read of a whole vector, also the fallback when a pinned load is refused, parses a frame that is not
  pinned and may read two pages (`UnpinnedReads.PeekedExactly`, `UnpinnedReads.TornReadCounterexample`).
  It cannot in pools that never evict, which for the reader's share of 0.3 are those of up to three pages
  and those with a frame for every page; in all others it can, unless all vectors are equal
  (`UnpinnedRuns.ReadsStayRightExactly`).
- With a hot capacity of 0 there is never a victim while all pages are warm
  (`EvictionPolicy.NoVictimExactly`).
- A tombstone in the memory table does not hide a flushed value (`LsmWriters.DeleteEffectiveExactly`,
  `LsmWriters.DeletedVectorReturns`), and a flush can bring an older value back
  (`LsmWriters.FlushKeepsReadsExactly`, `LsmWriters.OlderValueCounterexample`).
- Flushing an empty memory table stops all later rotations (`LsmWriters.JamIsForever`,
  `LsmWriters.FirstFlushJams`).
- A merge ranks writes by when it reads them, clock plus position. Tables are listed in order of creation,
  so the table with the greatest id wins while the clock advances from table to table
  (`MergeOrder.GreatestIdKept`); while it does not tick, a deleted vector can come back
  (`MergeOrder.DeletedVectorReturnsCounterexample`). That table holds the newest write only if no listed
  table is itself a merge: a compaction takes the first tables of a level, and its output gets a greater
  id than newer tables it leaves out (`MergeOrder.RemergeCounterexample`).
- A vector of more than 1021 coordinates is lost from the log unless it is zero
  (`Wal.RecordRoundTrip`).
- The beam width is meant not to matter, but a repeated neighbour enters the results of the batched
  search twice; it matters exactly for graphs that repeat neighbours (`Batches.BatchingExactly`). Of the
  builders `NSWBuilder`, those of every maximum degree above 1 build such graphs
  (`NswRepeats.RepeatFreeExactly`, `NswRepeats.BeamWidthNeverMattersExactly`): an answer can list one node
  twice and miss another (`NswRepeats.BuiltSearchCounterexample`).

## Model

| member | source | states |
|---|---|---|
| `BestFirst.LocalOptimum` | src/benchmark.cpp:666-701 | For every graph, entry and ef >= 1: the result heap of a finished search is min(ef, visited) visited nodes, no other visited node is closer than its worst, everything visited is reachable, and every in-range out-neighbour of a kept node was visited, so it is kept or no closer than the worst |
| `BestFirst.ExactWhenBeamIsWide` | src/benchmark.cpp:653-714 | When at most ef nodes are reachable from the entry, the search returns exactly the first min(k, R) reachable nodes in (distance, id) order; reachable means by a path of edges |
| `BestFirst.RunSound` | src/benchmark.cpp:676-699 | Heap invariants survive the whole loop from any sound state |
| `BestFirst.RunExplores` | src/benchmark.cpp:676-699 | When the loop ends, early break or not, the neighbours of every kept node have all been visited |
| `BestFirst.ExpandWork` | src/benchmark.cpp:676-699 | Termination: unvisited nodes plus queued nodes decrease with every expansion, as no node is queued twice |
| `BestFirst.RunStaysInside` | src/benchmark.cpp:676-699 | Nothing outside a set closed under edges is ever visited from inside it |
| `BestFirst.ReachableIsLeast` | src/benchmark.cpp:676-699 | The path-defined reachable set is the least set closed under edges |
| `BestFirst.PushSound` | src/benchmark.cpp:371-382 | Pushing a node without comparing it first, as the optimisation pass does, keeps the heap invariants |
| `SearchTraces.SearchIsTrace` | src/benchmark.cpp:653-714 | Every search is a sequence of states from its entry alone: each turn takes the closest queued node off the queue and goes through its list in order; an unvisited node is queued and kept exactly when the results have room or one of them is farther, which then drops the last; it stops when nothing is queued or the closest queued node is farther than all of a full result, and no earlier; the answer is the first k results |
| `SearchTraces.VisitVisits` | src/benchmark.cpp:684-698 | One visit: whether a node is wanted, and what queue and results become, as multisets in order |
| `GraphSearch.SearchMemoryFast` | src/benchmark.cpp:653-714 | The in-place loop over two heaps and the bitmap computes the search the theorems are about; an empty graph gives an empty list |
| `GraphSearch.SearchLoop` | src/benchmark.cpp:676-699 | The outer loop, with its early break, ends in the state of the specified run |
| `GraphSearch.ScanNeighbours` | src/benchmark.cpp:684-698 | The inner loop visits a node's list in order, each unvisited node once |
| `GraphSearch.BruteForceSearch` | src/benchmark.cpp:998-1014 | Brute force returns the first k of all nodes in (distance, id) order |
| `GraphSearch.SearchMatchesBruteForce` | src/benchmark.cpp:998-1014 | When the whole graph is reachable and fits the beam, graph search and brute force return the same list, ties included |
| `Ranking.TopKUnique` | src/benchmark.cpp:1006-1013 | Two lists that are both the top k are equal, so any two procedures that produce one agree |
| `VisitedBitmaps.VisitedBitmap.Test` | src/core/visited_bitmap.h:35-38 | The bit test is membership in the set the bitmap stands for; out-of-range ids count as visited |
| `VisitedBitmaps.VisitedBitmap.Set` | src/core/visited_bitmap.h:44-47 | Setting a bit adds exactly that id to the set and no other, out-of-range ids nothing |
| `VisitedBitmaps.VisitedBitmap.Clear` | src/core/visited_bitmap.h:52-54 | Afterwards the set is empty |
| `VisitedBitmaps.VisitedBitmap.Resize` | src/core/visited_bitmap.h:60-63 | Afterwards the set is empty over the new range |
| `DiskSearch.DiskannSearchEnhanced` | src/benchmark.cpp:735-992 | For every graph, built lists with repeats included, and without I/O engine, the in-place search returns the batched best-first search over PQ-ranked neighbours with exact distances, which SearchTraces.BatchSearchIsTrace gives turn by turn; what the cache holds and evicts plays no part |
| `DiskSearch.ProcessInBatches` | src/benchmark.cpp:898-975 | The batch loop does to heaps and bitmap what taking the list a beam width at a time does: each batch is filtered by the bitmap when it is collected and then visited whole |
| `Batches.BatchesExactly` | src/benchmark.cpp:898-975 | Taking a list in batches leaves, in every state with given visited nodes and for every ef, what visiting its nodes one at a time leaves exactly when no batch holds a node twice that is new to it |
| `Batches.BatchingExactly` | src/benchmark.cpp:898-975 | For a whole graph: batched and sequential search give the same answer for every entry, estimates, distances, ef and k exactly when the beam width is 1 or no list names a node, other than its owner, twice |
| `Batches.AnswerListsTwice` | src/benchmark.cpp:913-960 | Any other repeated neighbour makes some search with a beam width above 1 list it twice |
| `Batches.RunsAgree` | src/benchmark.cpp:808-977 | Without such repeats, or with beam width 1, the batched run ends in the very state of the sequential one |
| `Batches.BatchExpandWork` | src/benchmark.cpp:808-977 | The batched loop ends although a node may be queued more often than once: an expansion either visits some node for the first time or only shortens the queue |
| `Batches.BatchVisitIsScan` | src/benchmark.cpp:913-930 | One batch without new repeats does what testing each node at its turn does |
| `Batches.BatchRunFinds` | src/benchmark.cpp:735-992 | What is left without any condition on the graph: at most ef results, in order, each a reachable node at its true distance |
| `SearchTraces.BatchSearchIsTrace` | src/benchmark.cpp:735-992 | The batched search is such a sequence too, in which a node is visited when it was unvisited before its batch; the nodes gone through are those PqRankings.CandidatesExactly names |
| `SearchTraces.ScanGoesThrough` | src/benchmark.cpp:898-975 | Going through one list in batches: node i is tested against what was visited before batch i / width, and visited at its turn |
| `PqRankings.CandidatesExactly` | src/benchmark.cpp:815-846 | Which neighbours survive the cut: the unvisited ones in order of estimate and id, each as often as the list names it; those beyond four times the worst result are missing exactly when at least k results exist and at least k of the others are there |
| `Batches.ScanFreshOnes` | src/benchmark.cpp:913-930 | Dropping the already visited nodes of a list first changes nothing |
| `Batches.RepeatedNeighbourCounterexample` | src/benchmark.cpp:898-992 | Two nodes, the entry naming the other twice, a query closer to the other: for every beam width above 1 and ef of at least 2 the two nearest are answered as that node twice, and the entry is missing; sequentially as both nodes |
| `DiskSearch.RankNeighbours` | src/benchmark.cpp:815-895 | Estimating, sorting and cutting a node's neighbours gives the candidate list of PqRankings.CandidatesExactly, repeats included |
| `DiskSearch.DiskLoop` | src/benchmark.cpp:808-977 | The whole on-disk loop ends in the state of the specified batched run, whatever its own reads load into the pool and evict from it |
| `DiskSearch.DiskMatchesMemory` | src/benchmark.cpp:930-960 | When the disk holds the data set, a search through the reader returns the list of the search in memory, for every graph, entry, beam width, ef and k |
| `DiskSearch.BeamWidthDoesNotMatter` | src/benchmark.cpp:735-992 | On a graph none of whose lists names a node other than its owner twice, the specified disk search is the sequential one for every beam width |
| `FlatGraphs.FlatGraphIndex.AddNeighbor` | src/benchmark.cpp:142-147 | Appends to exactly one list of the flat array, unless that row is full; every other list is as before |
| `FlatGraphs.FlatGraphIndex.SetNeighbors` | src/benchmark.cpp:149-155 | Replaces exactly one list, cut at the storage degree |
| `FlatGraphs.FlatGraphIndex.Compact` | src/benchmark.cpp:176-191 | Re-laying the rows out at half the width cuts every list at the maximum degree and changes nothing else |
| `FlatGraphs.OnlyRowChanges` | src/benchmark.cpp:134-155 | Writes inside one row of the flat array leave the lists of all other nodes alone |
| `NswBuilders.InsertsReachRoot` | src/benchmark.cpp:253-260 | After Phase 1 every node has a directed path of strictly decreasing ids to node 0 |
| `NswBuilders.InsertsAreRooted` | src/benchmark.cpp:458-555 | After any number of insertions: lists hold inserted nodes only, without repeats, and the first neighbour of every node but 0 is older |
| `NswBuilders.FoundAreOlder` | src/benchmark.cpp:466-503 | The search for a new node's neighbours finds at least one node and only older ones |
| `NswBuilders.LinkedStaysClean` | src/benchmark.cpp:353-451 | Linking a node, with its reverse edges, keeps all lists in range and free of self-loops |
| `NswBuilders.PassStaysClean` | src/benchmark.cpp:281-293 | So does the whole optimisation pass, in any order of nodes |
| `NswBuilders.PrunedCounts` | src/benchmark.cpp:572-632 | A pruned list has no repeats, only neighbours other than the node itself, and exactly min(maximum degree, distinct non-self neighbours) of them |
| `NswBuilders.PruningFits` | src/benchmark.cpp:295-306 | After Phase 3 every list is in range, self-loop-free and within the maximum degree, and compaction changes none of them |
| `NswBuilders.BuiltFits` | src/benchmark.cpp:247-307 | The same for the whole construction, for every data set, order and parameters |
| `NswTraces.BuiltIsBuild` | src/benchmark.cpp:247-307 | Every build is three phases of graphs: nodes 1 to n - 1 linked in order by searches from node 0; all nodes linked again in the order given, by searches from the medoid and their own neighbours, with the width that shrinks beyond 100000 vectors; lists over the maximum degree replaced by a selection from their nodes by distance |
| `NswTraces.LinkedIsLink` | src/benchmark.cpp:353-451 | One link: a search from the entry and the seeds finds nodes other than its own; its list becomes the selection from those; each selected node gets it as last neighbour if it has fewer than twice the maximum degree; no other list changes |
| `NswTraces.FoundIsFound` | src/benchmark.cpp:360-411 | That search: the seeds are queued uncompared, then turn by turn as in memory, and the node itself is dropped from the results |
| `NswRepeats.LinkedRepeatsExactly` | src/benchmark.cpp:353-451 | When linking a node leaves a list with a repeat: exactly when it had one or its owner is chosen, has room and names the node already; the node's own list comes out without |
| `NswRepeats.PruningRepeatsExactly` | src/benchmark.cpp:295-306 | Phase 3 removes the repeats of lists over the maximum degree and of no others |
| `NswRepeats.BuiltRepeats` | src/benchmark.cpp:247-307 | Built graphs do repeat neighbours: for every two vectors, medoid, order of the pass, ef and maximum degree of at least 2, the first node of the pass names the other twice |
| `NswRepeats.BuiltSearchCounterexample` | src/benchmark.cpp:247-307 | On that built graph a batched search for the two nearest returns one node twice and misses the other |
| `NswRepeats.RepeatFreeExactly` | src/benchmark.cpp:247-307 | For which builders no built graph names a neighbour twice, over all data sets with their medoid, all orders of the pass and all ef: exactly those of maximum degree 1 |
| `NswRepeats.BeamWidthNeverMattersExactly` | src/benchmark.cpp:247-307 | For which builders the beam width of a search of a built graph never matters: exactly the same |
| `NswRepeats.BuiltRepeatsWithBeamOfOne` | src/benchmark.cpp:247-307 | Even with a beam of one: a build of four vectors repeats a neighbour for every maximum degree of at least 2 |
| `NswBuilders.NSWBuilder.Build` | src/benchmark.cpp:247-307 | The in-place construction computes that graph, compacted, with a medoid as entry point; pruning inside the first two phases is never reached |
| `NswBuilders.NSWBuilder.InsertNode` | src/benchmark.cpp:458-555 | One insertion, in place, changes the lists as specified |
| `NswBuilders.NSWBuilder.OptimizeNeighbors` | src/benchmark.cpp:353-451 | One optimisation step, in place, changes the lists as specified |
| `NswBuilders.NSWBuilder.AddBackEdges` | src/benchmark.cpp:444-450 | Reverse edges go to the end of each chosen neighbour's list while there is room; a list never exceeds twice the maximum degree, so it is never pruned here |
| `NswBuilders.NSWBuilder.PruneNode` | src/benchmark.cpp:572-632 | Only the pruned node's list changes |
| `NswBuilders.NSWBuilder.SeedFrom` | src/benchmark.cpp:371-382 | The current neighbours enter both heaps uncompared, each unvisited one once |
| `NswBuilders.FindMedoid` | src/benchmark.cpp:317-340 | The medoid is the first of the vectors nearest to the mean of the data |
| `Selections.SelectCounts` | src/benchmark.cpp:413-441 | The chosen neighbours are candidates, none twice, exactly min(cap, distinct candidates) of them |
| `Selections.KeptAreApart` | src/benchmark.cpp:416-428 | No node kept by the diversity test was dominated, at alpha 1.2, by one kept before it |
| `Selections.RejectedAreDominated` | src/benchmark.cpp:416-428 | Every candidate examined and not kept is dominated by a kept one |
| `Selections.ClosestFirst` | src/benchmark.cpp:520-548 | The closest candidate is always chosen, and first |
| `Selections.SelectExactly` | src/benchmark.cpp:413-441 | The selection is two walks through the sorted candidates: the first passes over exactly those an earlier pick dominates, 1.2 times as far as it is from them at most, or that come when the picks are full; the second fills the room left with the nearest of the others, no node twice |
| `Greedy.GreedyUnique` | src/benchmark.cpp:413-441 | There is only one such walk, so that the candidates determine the picks |
| `Selections.SelectNeighbors` | src/benchmark.cpp:413-441 | The two loops, with their early exits, choose exactly that list |
| `Vamana.VamanaBuilder.Build` | src/core/graph_index.cpp:136-210 | After construction every list is in range, without repeats, without the node itself, and within the larger of the two maximum degrees, although the random start may exceed it; the graph comes from the random start by reconnecting the nodes in order, and each step replaces the list of its node by a prune of what the search then finds and adds the node to the lists of those neighbours that have room and do not name it; the entry point is the first nearest to the mean; an empty data set is refused |
| `Vamana.VamanaBuilder.AddNodeIncremental` | src/core/graph_index.cpp:212-288 | Keeps all lists proper and, if they were, within the maximum degree; the new list is a robust prune of exactly what the search of the graph so far returns; the lists it points to take the reverse edge, pruned again if too long; all others are as before; an id out of range is an error that changes nothing; an empty graph only gets its entry point |
| `Vamana.VamanaBuilder.Reconnect` | src/core/graph_index.cpp:181-206 | One step of construction, list by list: the new list is a robust prune of exactly what the search of the graph so far returns; each of its nodes gets the node as last neighbour, unless it names it already or is full; every other list stays |
| `Vamana.VamanaBuilder.AddReverseEdge` | src/core/graph_index.cpp:256-279 | One reverse edge of a new node, with the second prune when the list grows too long |
| `Vamana.VamanaBuilder.InitRandomGraph` | src/core/graph_index.cpp:409-431 | The random start gives each node the first min(initial degree, n - 1) nodes of its shuffle, in order, without itself; in range and without repeats |
| `Vamana.VamanaBuilder.RobustPrune` | src/core/graph_index.cpp:299-351 | Sorts by distance, ties in any order, and picks in one walk: never the node, never a candidate closer to an earlier pick than alpha times its distance, and passing over no other until the maximum degree is reached |
| `Vamana.KeptSeparated` | src/core/graph_index.cpp:325-348 | Each kept neighbour passed the alpha test against every one kept before it |
| `Vamana.RejectedAreCovered` | src/core/graph_index.cpp:320-348 | Every candidate reached before the cap and not kept is shadowed by a kept one that is no farther away |
| `Vamana.KeptNoRepeats` | src/core/graph_index.cpp:320-348 | A prune of distinct candidates has no repeats and leaves the node itself out |
| `Vamana.KeptIsPick` | src/core/graph_index.cpp:299-351 | What pruning keeps is exactly what such a walk picks |
| `Vamana.SearchForConstruction` | src/core/graph_index.cpp:353-407 | The in-place loop over two queues and the visited set returns the specified search: of the nodes it visited, all reachable from the entry, those with the largest ids, each once, in range and at least one |
| `Vamana.TourFinds` | src/core/graph_index.cpp:353-407 | What the search returns, for every graph, entry, distances and list size: the visited nodes with the largest ids; visited are the entry and only reachable nodes, and all of them unless the early break was taken |
| `Vamana.TourFindsExactly` | src/core/graph_index.cpp:353-407 | For every search, cut short or not: a node is returned exactly when it was visited and fewer visited nodes than there is room for have a larger id; without the early break the visited are all reachable nodes |
| `Vamana.SmallGraphsAreFound` | src/core/graph_index.cpp:370-376 | With no more reachable nodes than there is room for, all of them are returned |
| `Vamana.TourCount` | src/core/graph_index.cpp:353-407 | As many nodes are returned as there is room for, or as are reachable if those are fewer |
| `VamanaTraces.TourIsTrace` | src/core/graph_index.cpp:353-407 | Every search is a sequence of states from its entry alone: each step takes the queued node with the largest id and visits and queues its unvisited neighbours; it stops when nothing is queued, or with k results when that node is farther than the result with the smallest id, and no earlier |
| `Vamana.NearestExactly` | src/core/graph_index.cpp:353-407 | For which graphs the search returns the nearest reachable nodes whatever the distances: exactly for those with room for all nodes reachable from the entry |
| `Vamana.FarthestFoundCounterexample` | src/core/graph_index.cpp:353-407 | A search for one neighbour that visits three nodes and returns the farthest, not the one at distance 0 |
| `Vamana.FoundExactly` | src/core/graph_index.cpp:359-394 | A visited node is returned exactly when fewer visited nodes than there is room for have a larger id; its distance plays no part |
| `Vamana.LargestIdsCount` | src/core/graph_index.cpp:386-404 | As many nodes are returned as were visited, up to the list size asked for, and never fewer than one |
| `Vamana.LargestIdsGrow` | src/core/graph_index.cpp:386-394 | Pushing a node and popping the top of the result queue drops the smallest id |
| `Vamana.ReversesStayProper` | src/core/graph_index.cpp:202-206 | Reverse edges keep every list proper and raise none past its own length or the cap |
| `Vamana.ReversesExactly` | src/core/graph_index.cpp:202-206 | What the reverse edges make of every list, whatever the neighbours and in whatever order |
| `Vamana.GraphNavData.AddNeighbor` | src/core/graph_index.cpp:60-80 | Refused exactly for ids out of range, neighbours already listed and full lists; otherwise appends to one list only |
| `Vamana.GraphNavData.AddNode` | src/core/graph_index.cpp:30-36 | Appends an empty list; the new id is the old size |
| `BufferPool.LoadKeeps` | src/buffer/buffer_pool.cpp:299-356 | Loading a missing page, pinned or not, keeps the pool consistent: free and mapped frames partition the frames, the table is injective and agrees with the frames, free frames have no pins, resident pages are the disjoint union of both queues and refused pages; frames keep holding disk bytes and pinned pages stay put |
| `BufferPool.EvictKeeps` | src/buffer/buffer_pool.cpp:718-757 | Eviction keeps all of that, never touches a pinned page, and on failure changes only the queues |
| `BufferPool.RefusedWerePinned` | src/buffer/buffer_pool.cpp:721-737 | A page drops out of both queues while resident only because it was pinned when picked |
| `BufferPool.EvictsExactly` | src/buffer/buffer_pool.cpp:718-757 | With nothing pinned, eviction succeeds exactly when the hot capacity is at least 1 and some resident page was never refused |
| `BufferPool.LoadsExactly` | src/buffer/buffer_pool.cpp:320-345 | With nothing pinned, an absent page can be loaded, pinned or not, exactly when a frame is free or eviction succeeds by that condition |
| `PoolSteps.LookupExactly` | src/buffer/buffer_pool.cpp:277-297 | A lookup, pinned or not, finds exactly the resident pages in their frames, and tells the policy of each hit; a pin counts one more on that frame only; nothing else changes |
| `PoolSteps.PinAndUnpinExactly` | src/buffer/buffer_pool.cpp:419-449 | Pins go up and down by one, not below zero, on one frame only |
| `PoolSteps.EvictExactly` | src/buffer/buffer_pool.cpp:718-757 | In every consistent pool: eviction succeeds exactly when the page the policy gives up is not pinned; only that page goes and its frame is the next free one; else every page stays |
| `PoolSteps.LoadExactly` | src/buffer/buffer_pool.cpp:299-356 | In every consistent pool, pinned pages or not: which frame a missing page gets - the last free one, else the evicted one, else none - what that frame then holds, its pins and its left-over in-degree, and its place at the back of the warm queue; nothing else changes |
| `PoolSteps.LoadedPins` | src/buffer/buffer_pool.cpp:550-575 | A loaded page has one pin if it was asked for with one, and none otherwise, whatever its frame held before |
| `PoolSteps.SetInDegreeExactly` | src/buffer/buffer_pool.cpp:650-662 | A new in-degree goes to the frame and to the policy of a resident page, and nowhere else |
| `BufferPool.TouchKeeps` | src/buffer/buffer_pool.cpp:277-297 | A lookup keeps pool consistency and pins |
| `BufferPool.SetPinsKeeps` | src/buffer/buffer_pool.cpp:419-449 | Pinning and unpinning one page keep consistency and change no other page's pin count |
| `BufferPool.TakeFrameUndone` | src/buffer/buffer_pool.cpp:326-345 | Taking a frame, from the free list or by eviction, is undone by putting it back |
| `BufferPoolManagers.BufferPoolManager.LoadAbsentPage` | src/buffer/buffer_pool.cpp:299-356 | The method in place does to table, frames, free list and queues what the specification says |
| `BufferPoolManagers.BufferPoolManager.GetOrLoadAndPinPage` | src/buffer/buffer_pool.cpp:505-581 | Load and pin in one atomic step, as specified |
| `BufferPoolManagers.BufferPoolManager.GetAndPinPage` | src/buffer/buffer_pool.cpp:470-503 | Look up and pin in one atomic step, as specified |
| `BufferPoolManagers.BufferPoolManager.GetPage` | src/buffer/buffer_pool.cpp:277-297 | A hit tells the policy, a miss changes nothing, as specified |
| `BufferPoolManagers.BufferPoolManager.PinPage` | src/buffer/buffer_pool.cpp:419-431 | As specified, and false exactly for pages not resident |
| `BufferPoolManagers.BufferPoolManager.UnpinPage` | src/buffer/buffer_pool.cpp:433-449 | As specified; the count never goes below zero and the pinned flag follows it |
| `BufferPoolManagers.BufferPoolManager.EvictPage` | src/buffer/buffer_pool.cpp:718-757 | As specified, including the victim that is dropped from the queues and stays |
| `BufferPoolManagers.BufferPoolManager.UpdateInDegree` | src/buffer/buffer_pool.cpp:650-662 | In place, as PoolSteps.SetInDegreeExactly says |
| `BufferPoolManagers.BufferPoolManager.FindFreeFrame` | src/buffer/buffer_pool.cpp:709-716 | Takes the back of the free list, if any |
| `BufferPoolManagers.BufferPoolManager.Clear` | src/buffer/buffer_pool.cpp:672-692 | Afterwards nothing is resident, refused or pinned and all frames are free |
| `PinProtocol.StepSafe` | src/buffer/buffer_pool.cpp:419-581 | Every step of every thread keeps: consistency, disk bytes in every frame, pin count equal to the number of threads that hold the page, and each reader's coordinates so far those on disk |
| `PinProtocol.RunSafe` | src/buffer/buffer_pool.cpp:419-581 | The same over every interleaving of any number of threads |
| `PinProtocol.PinsProtectReads` | src/io/disk_layout.cpp:540-583 | In every reachable state: pin counts are outstanding holds, a held page is in its frame with its disk bytes, and a finished read gives the distance to the disk vector |
| `PinProtocol.PinsExactly` | src/buffer/buffer_pool.cpp:470-581 | When a thread is given a pin: exactly when the page is resident, or when loading it finds a free frame or an unpinned page to evict; it has read nothing then and no other thread is concerned |
| `PinProtocol.ReadsNextCoordinate` | src/io/disk_layout.cpp:555-560 | A pinned read takes exactly the next coordinate of the page on disk |
| `PinProtocol.UnpinsExactly` | src/buffer/buffer_pool.cpp:431-449 | An unpin gives back exactly the thread's own pin |
| `PinProtocol.HeldPageStays` | src/buffer/buffer_pool.cpp:470-581 | From pin to unpin a held page stays in the same frame |
| `PinProtocol.RefusedStayResident` | src/buffer/buffer_pool.cpp:721-737 | A page whose eviction was once refused is never evicted again, even after its last unpin |
| `PinProtocol.RefusedPagesFillThePool` | src/buffer/buffer_pool.cpp:721-737 | Once all frames hold such pages, no load of another page succeeds |
| `PinProtocol.JammedForever` | src/buffer/buffer_pool.cpp:721-737 | From then on, in every run, the pool holds the same pages |
| `PinProtocol.JamCounterexample` | src/buffer/buffer_pool.cpp:721-737 | A run for every pool size of at least one page and hot capacity of at least 1: all frames are pinned, as many loads are refused, all threads unpin; no page is pinned and no other page can ever be loaded |
| `UnpinnedReads.PeekedExactly` | src/io/disk_layout.cpp:311-338 | The fallback read without a pin, in every interleaving: what the thread has read is its page's vector exactly when at each of its reads the page whose bytes are then in the frame agrees in that coordinate |
| `UnpinnedReads.PeekBeginsInFrame` | src/buffer/buffer_pool.cpp:299-356 | A thread that reads without a pin is given the frame its page is in at that moment, or none |
| `UnpinnedReads.PeeksExactly` | src/buffer/buffer_pool.cpp:299-356 | Whether it is given one: exactly when the page is resident or can be loaded |
| `UnpinnedReads.UndisturbedPeek` | src/io/disk_layout.cpp:311-338 | In particular when the frame keeps the bytes of the page at each of the reads |
| `UnpinnedReads.PeekedDistance` | src/io/disk_layout.cpp:578-583 | A whole vector read right gives the distance of the disk record |
| `UnpinnedReads.TornReadCounterexample` | src/io/disk_layout.cpp:311-338 | In a pool of four pages, as the reader sets it up: a pinned load is refused, the fallback reads the first coordinate of its page and, three loads later, the second of another page |
| `UnpinnedReads.PeekStaysRight` | src/io/disk_layout.cpp:311-338 | What can be known before such a read: if eviction of the page was refused before, or the hot capacity is 0, or the pool has a frame for every page on disk, it reads its page in every continuation |
| `UnpinnedRuns.ReadsStayRightExactly` | src/io/disk_layout.cpp:311-338 | For which pools reads without a pin are right in all runs from an empty pool, whatever their threads do: exactly for those without frames, with a hot capacity of 0 or a frame for every page on disk, or if all vectors on disk are equal |
| `UnpinnedRuns.PeekBegan` | src/buffer/buffer_pool.cpp:299-356 | Every read without a pin in a run began in the frame its page was in |
| `EvictionPolicy.OnAddKeeps` | src/buffer/buffer_pool.cpp:92-99 | A new page joins exactly one queue; queues stay duplicate-free, disjoint and within capacity |
| `EvictionPolicy.OnAccessKeeps` | src/buffer/buffer_pool.cpp:75-90 | An access, promotion and demotion included, keeps the same pages queued and the hot queue within capacity |
| `EvictionPolicy.PromoteKeeps` | src/buffer/buffer_pool.cpp:183-201 | Promotion moves pages between the queues and loses none |
| `EvictionPolicy.OnRemoveKeeps` | src/buffer/buffer_pool.cpp:101-113 | Removal takes exactly that page out |
| `EvictionPolicy.RemoveExactly` | src/buffer/buffer_pool.cpp:101-113 | The page alone leaves the queue it is in; the others keep their order |
| `EvictionPolicy.PickVictimKeeps` | src/buffer/buffer_pool.cpp:115-140 | A victim was queued and is taken out; without one nothing changes |
| `EvictionPolicy.NoVictimExactly` | src/buffer/buffer_pool.cpp:115-140 | There is no victim exactly when the hot queue is empty and either the warm queue is too or the hot capacity is 0 |
| `EvictionPolicy.VictimExactly` | src/buffer/buffer_pool.cpp:115-140 | Which queue gives up a page, and which: the oldest warm page exactly when there is one and the hot queue is below capacity; else, with a hot page, a non-hub of least in-degree of the last ten, the last of equals, or the last page if all of them are hubs; all others keep their places |
| `EvictionPolicy.AccessExactly` | src/buffer/buffer_pool.cpp:75-90 | What an access moves: a warm page to the front of the hot queue, whose last page goes to the back of the warm queue when it was full; a hot page to the front; with capacity 0 a warm page to the back; and nothing else |
| `EvictionPolicy.WarmVictimWaitedLongest` | src/buffer/buffer_pool.cpp:115-140 | With the times at which pages joined the warm queue: a warm victim joined before all others |
| `EvictionPolicy.AddKeepsArrival` | src/buffer/buffer_pool.cpp:92-99 | A new page joins behind all warm pages |
| `EvictionPolicy.AccessKeepsArrival` | src/buffer/buffer_pool.cpp:183-201 | An access keeps the warm queue in order of joining, a demoted page joining last |
| `EvictionPolicy.HotVictimIsLeast` | src/buffer/buffer_pool.cpp:203-244 | A hot victim is the non-hub of least in-degree among the last min(10, hot) entries, the most recently scanned of equals; a hub is taken only if all of those are hubs |
| `EvictionPolicy.BestOfTailIsLeast` | src/buffer/buffer_pool.cpp:203-244 | The backward scan over the last entries finds a non-hub of least in-degree, the last of equals, or that all are hubs |
| `EvictionPolicy.WarmVictimIsFront` | src/buffer/buffer_pool.cpp:115-140 | A warm victim is the oldest warm page, and the hot queue was below capacity |
| `EvictionPolicy.AccessKeepsRecency` | src/buffer/buffer_pool.cpp:75-90 | The hot queue stays sorted by time of last access |
| `EvictionPolicy.EvictionKeepsRecency` | src/buffer/buffer_pool.cpp:203-244 | Eviction from the middle keeps that order |
| `EvictionPolicy.TwoQueueEvictionPolicy.AccessPage` | src/buffer/buffer_pool.cpp:75-90 | The method in place changes queues and in-degrees as specified |
| `EvictionPolicy.TwoQueueEvictionPolicy.RemovePage` | src/buffer/buffer_pool.cpp:101-113 | In place, as EvictionPolicy.RemoveExactly says |
| `EvictionPolicy.TwoQueueEvictionPolicy.GetEvictionCandidate` | src/buffer/buffer_pool.cpp:115-140 | The method in place picks and removes the victim of EvictionPolicy.VictimExactly |
| `EvictionPolicy.TwoQueueEvictionPolicy.EvictFromHotQueue` | src/buffer/buffer_pool.cpp:203-244 | The backward scan over the tail removes the specified hot victim |
| `HubThreshold.ComputeHubThreshold` | src/buffer/eviction_policy.cpp:37-59 | At most a (1 - p) share of the non-zero in-degrees exceeds the threshold; it is one of them, and the named share reaches it; 1 when there is none |
| `HubThreshold.ClassifyHubNodes` | src/buffer/eviction_policy.cpp:24-35 | The hubs are exactly the nodes that reach the threshold, in order of id |
| `DiskReaders.DiskIndexReader.ComputeDistanceDirect` | src/io/disk_layout.cpp:540-583 | As one thread's call, in every valid pool state - hit, miss, eviction, refused load with direct read - the result is the squared distance from the query to the vector of the node's disk record, no pin is left behind, and the pool is what a pinned lookup or load and an unpin leave, or the unpinned attempt after a refusal; other threads' steps in between are PinProtocol's and UnpinnedReads' |
| `DiskReaders.MeasuredExactly` | src/io/disk_layout.cpp:540-583 | Whether the page is in the pool after measuring: exactly when it was before, or a frame was free, or the page the policy gave up could go, or the next one it gave up could |
| `DiskReaders.DiskIndexReader.ReadVector` | src/io/disk_layout.cpp:311-338 | As one thread's call the vector read is the one on disk, through the cache or around it; UnpinnedReads says when it is with other threads in between |
| `DiskReaders.DiskIndexReader.GetOrLoadPage` | src/io/disk_layout.cpp:311-338 | A frame obtained holds the page's disk bytes; frame and pool are those of a lookup, or of a load if that misses |
| `DiskRecords.ParseAfterPack` | src/io/disk_layout.cpp:275-309 | Parsing a packed record gives the record back, for any degree limit it respects, exactly when its vector has 128 coordinates |
| `DiskRecords.LayoutFields` | src/io/disk_layout.cpp:44-88 | Where each field of a packed record lies, in bytes |
| `DiskRecords.WriteThenRead` | src/io/disk_layout.cpp:44-88 | Packing then parsing returns id, vector, the first min(n, maximum degree) neighbours and their codes, zeros for neighbours without one |
| `DiskRecords.PackRecord` | src/io/disk_layout.cpp:44-88 | Writing fields at a moving offset produces the specified 4096-byte layout, for every record whose fields fit it |
| `DiskRecords.ParseRecord` | src/io/disk_layout.cpp:275-309 | Reading at a moving offset parses the specified layout |
| `Bytes.WordsRoundTrip` | src/io/disk_layout.cpp:60-66 | An array of 32-bit words survives being written as little-endian bytes |
| `Bytes.LowByteFirst` | src/io/disk_layout.cpp:60-66 | Words are written low byte first |
| `ProductQuantizer.TableSumIsDistance` | src/core/pq_encoder.cpp:259-294 | The sum of table entries along a code vector is exactly the squared distance from the query to the decoded vector |
| `ProductQuantizer.EncodeIsOptimal` | src/core/pq_encoder.cpp:86-96 | Of all code vectors the encoding has the least reconstruction error |
| `ProductQuantizer.DecodeIsStable` | src/core/pq_encoder.cpp:108-121 | Decoding, encoding and decoding again gives the same vector, for every code vector |
| `ProductQuantizer.DecodedAt` | src/core/pq_encoder.cpp:108-121 | Coordinate i of subspace j of a decoded vector is that of the centroid its j-th code names |
| `ProductQuantizer.NearestIsLeast` | src/core/pq_encoder.cpp:146-158 | The chosen centroid is nearest, and the first of the nearest |
| `PqEncoders.PQEncoder.Encode` | src/core/pq_encoder.cpp:86-96 | The loop over subspaces computes the optimal encoding |
| `PqEncoders.PQEncoder.Decode` | src/core/pq_encoder.cpp:108-121 | The loop over subspaces concatenates the centroids |
| `PqEncoders.PQEncoder.FindNearestCentroid` | src/core/pq_encoder.cpp:146-158 | The scan finds the first nearest centroid, its index cut to a byte |
| `PqEncoders.PQDistanceTable.Build` | src/core/pq_encoder.cpp:259-283 | Every entry of the table is the distance from the query's subvector to that centroid |
| `PqEncoders.PQDistanceTable.ComputeDistance` | src/core/pq_encoder.cpp:285-294 | Adding table entries gives the squared distance to the decoded vector |
| `KMeans.StepsDescend` | src/core/pq_encoder.cpp:199-238 | Neither the assignment step nor the mean step, empty clusters included, increases the total squared distance |
| `KMeans.LloydDescends` | src/core/pq_encoder.cpp:199-238 | A run of any number of iterations ends no worse than it began |
| `KMeans.LloydIsTraining` | src/core/pq_encoder.cpp:195-241 | Every run is a trace of centroids and assignments: each assignment is to the nearest centroid, the lowest of equals; each next list holds the means, empty clusters kept; it has exactly as many iterations as asked for, unless an assignment repeats the one before it, which ends it without moving the centroids |
| `KMeans.ConvergedIsFixed` | src/core/pq_encoder.cpp:199-215 | On the early exit every non-empty cluster's centroid is the mean of its members and every member is at its nearest centroid, the first of equals |
| `KMeans.MeanIsBest` | src/core/pq_encoder.cpp:226-238 | The mean minimises the spread of a cluster over all points |
| `KMeans.Kmeans` | src/core/pq_encoder.cpp:175-244 | The loops return the last centroids of such a trace, from the points picked first |
| `KMeans.AssignPoints` | src/core/pq_encoder.cpp:199-215 | One assignment pass, and whether it changed anything |
| `KMeans.MoveCentroids` | src/core/pq_encoder.cpp:217-238 | One mean pass; a cluster without members keeps its centroid |
| `LsmWriters.LsmIsMap` | src/compaction/memtable.cpp:678-788 | The store is a map: in every run whose flushes are not empty and in which each id is written in one memory-table generation, a read can return exactly what the last accepted write left, across any number of rotations |
| `LsmWriters.ReadsLatest` | src/compaction/memtable.cpp:716-740 | In such a state the range check and the Bloom filter never hide the table that holds the id, whatever order the tables are visited in |
| `LsmWriters.RotateRefines` | src/compaction/memtable.cpp:762-788 | A rotation changes no answer |
| `LsmWriters.DeleteEffectiveExactly` | src/compaction/memtable.cpp:707-740 | In every reachable state, failed rotations included: after a delete reads find nothing exactly when no waiting table answers and no flushed table holds the id alive; a tombstone hides only its own table |
| `LsmWriters.DeletedVectorReturns` | src/compaction/memtable.cpp:716-740 | A concrete run - insert, flush, delete - in which every read still finds the vector |
| `LsmWriters.FlushKeepsReadsExactly` | src/compaction/memtable.cpp:762-788 | In every reachable state: a flush keeps what reads of an id may return exactly when no different value comes to be read first - one flushed earlier, or, when the rotation fails, one in a table that waits |
| `LsmWriters.OlderValueCounterexample` | src/compaction/memtable.cpp:716-788 | A concrete run - insert, flush, insert again - after which reads find the newer vector only, and after one more flush may find the older one |
| `LsmWriters.RunKeeps` | src/compaction/memtable.cpp:678-788 | What every state of every run satisfies, whatever failed in it: the active table takes writes, no table names an id twice, no flushed table is empty, and if a table waits the store is jammed |
| `LsmWriters.RotationSucceedsExactly` | src/compaction/memtable.cpp:762-788 | A rotation fails exactly when the table at the front of the queue is empty |
| `LsmWriters.RotateExactly` | src/compaction/memtable.cpp:762-788 | In every state: a rotation starts an empty table of 10 MiB and 100000 entries, whatever the first configuration, and flushes the table that waited longest as the newest one, clearing the log, unless it is empty |
| `LsmWriters.InsertWithIdExactly` | src/compaction/memtable.cpp:683-705 | From a sound state: an insert is logged whether or not the table takes it; if it brings the entries or the size to their maximum, the filled table is the newest flushed one and the log is empty; otherwise nothing is flushed |
| `LsmWriters.FilledTableRotates` | src/compaction/memtable.cpp:683-705 | In every state, jammed or not: a rotation follows exactly the inserts that the table takes and that fill it |
| `LsmWriters.DeleteEntryExactly` | src/compaction/memtable.cpp:707-714 | A delete is logged even if refused, and never rotates |
| `LsmWriters.JamIsForever` | src/compaction/memtable.cpp:762-788 | After such a failure no later command flushes a table or clears the log |
| `LsmWriters.FirstFlushJams` | src/compaction/memtable.cpp:762-788 | Flushing a new store is such a failure: in every run that starts with it nothing is ever flushed |
| `LsmWriters.ReplayRebuildsActive` | src/compaction/wal.cpp:195-283 | After every command of a run whose rotations succeed, replaying the recovered log into an empty table of the generation's configuration gives the active table: order, ids, vectors, tombstones and size; operations the table refused are replayed and refused again |
| `LsmWriters.SameApply` | src/compaction/memtable.cpp:31-90 | Whether a table takes an operation, and what it then holds, does not depend on the clock |
| `LsmWriters.LsmWriteManager.InsertVector` | src/compaction/memtable.cpp:683-705 | In place: logs, inserts and rotates a full table, which LsmWriters.InsertWithIdExactly describes |
| `LsmWriters.LsmWriteManager.DeleteVector` | src/compaction/memtable.cpp:707-714 | Logs and leaves a tombstone, in place, as specified |
| `LsmWriters.LsmWriteManager.GetVector` | src/compaction/memtable.cpp:716-740 | Active table, then waiting tables, then flushed tables in any order: the answer is one the specification allows |
| `LsmWriters.LsmWriteManager.RotateMemtable` | src/compaction/memtable.cpp:762-788 | Retires the active table, flushes the oldest and clears the log, or stops at the failure, as specified |
| `MemTables.InsertThenGet` | src/compaction/memtable.cpp:31-70 | An accepted insert changes the answer for exactly one id |
| `MemTables.InsertExactly` | src/compaction/memtable.cpp:31-70 | An insert answers Ok exactly when the table is mutable, holds fewer entries than it may and the wrapped size stays within its maximum, even for an id it holds; else InvalidArgument if immutable and MemoryLimitExceeded if not, and nothing changes; the entry goes to the place of the old one or the end, and the size from its bytes to the new one's |
| `MemTables.DeleteExactly` | src/compaction/memtable.cpp:72-90 | A delete is accepted exactly by mutable tables, full or not; it marks the entry there is or appends a tombstone without a vector, and the size stays |
| `MemTables.DeleteThenGet` | src/compaction/memtable.cpp:72-90 | A delete changes the answer for exactly one id, and always succeeds on a mutable table |
| `MemTables.MemTable.InsertVector` | src/compaction/memtable.cpp:31-70 | In place, with the index kept in step, what MemTables.InsertExactly says |
| `MemTables.MemTable.DeleteEntry` | src/compaction/memtable.cpp:72-90 | Marks or appends a tombstone; index and entries stay in step |
| `MemTables.MemTable.GetVector` | src/compaction/memtable.cpp:93-107 | Answers through the index what the entries say |
| `SSTables.FileRoundTrip` | src/compaction/memtable.cpp:507-562 | Reading a written file gives every entry back unchanged, vectors of any lengths, except that each timestamp is the clock at reading plus its position |
| `SSTables.ScanFinds` | src/compaction/memtable.cpp:268-300 | Scanning a written file for an id finds what the first entry of the id says, which in a list without repeated ids is its only one |
| `SSTables.FirstLookupExactly` | src/compaction/memtable.cpp:268-300 | Of several entries of an id the first decides, a tombstone for nothing |
| `SSTables.FiltersHideNothing` | src/compaction/memtable.cpp:434-453 | A table that holds an id passes both its range check and its Bloom filter |
| `SSTables.LetsThroughExactly` | src/compaction/memtable.cpp:434-453 | Which ids a table is asked for: those between two it holds whose three bits its ids set |
| `SSTables.EntryFields` | src/compaction/memtable.cpp:480-495 | Where each field of an entry lies in a file, in bytes |
| `SSTables.WriteFile` | src/compaction/memtable.cpp:470-501 | Writing entry after entry produces the specified bytes |
| `SSTables.ReadFile` | src/compaction/memtable.cpp:523-562 | The read loop parses them; a wrong header or a short file gives nothing |
| `SSTables.SSTableManager.CreateFromMemtable` | src/compaction/memtable.cpp:187-237 | An empty table is refused; otherwise a new table, under the count of tables as its id, holds exactly the entries |
| `SSTables.SSTableManager.CreateFromEntries` | src/compaction/memtable.cpp:564-613 | The same for any list; an empty one gets id 0 and no table |
| `SSTables.SSTableManager.GetSstablesContaining` | src/compaction/memtable.cpp:434-453 | Exactly the tables that pass both filters, in any order |
| `SSTables.SSTableManager.ReadVector` | src/compaction/memtable.cpp:239-301 | What the first of the table's entries for the id says, and nothing for an unknown table |
| `SSTables.SSTableManager.ReadEntries` | src/compaction/memtable.cpp:507-562 | All entries of a known table, restamped |
| `BloomFilters.PassesExactly` | src/compaction/memtable.h:248-257 | An id passes a filter exactly when each of its three bits was set by some listed id |
| `BloomFilters.NoFalseNegatives` | src/compaction/memtable.h:228-257 | A filter never denies an id it was built from |
| `BloomFilters.BitsAreMarks` | src/compaction/memtable.h:228-240 | Of the 1024 bits exactly those that some id hashes to are set |
| `BloomFilters.BuildBloomFilter` | src/compaction/memtable.h:228-240 | The loop over the bytes builds that filter |
| `Wal.RecordRoundTrip` | src/compaction/wal.cpp:80-181 | A logged operation is read back exactly when its vector has at most 1021 coordinates or is all zeros |
| `Wal.InsertRecordFields` | src/compaction/wal.cpp:80-139 | Where each field of an insert record lies, in bytes, and that zeros fill the rest |
| `Wal.DeleteRecordFields` | src/compaction/wal.cpp:141-181 | The same for a delete record |
| `Wal.OversizeRecordFields` | src/compaction/wal.cpp:90-128 | A vector that does not fit is cut at the end of the record, and the timestamp lies over its first eight bytes |
| `Wal.PrefixRecovers` | src/compaction/wal.cpp:195-283 | Any byte prefix of a log, cut anywhere, gives back exactly its first floor(length / 4096) operations |
| `Wal.LogGrows` | src/compaction/wal.cpp:125-181 | Logging one more operation appends one record |
| `Wal.WalManager.LogInsert` | src/compaction/wal.cpp:80-139 | Appends the insert record |
| `Wal.WalManager.BuildInsert` | src/compaction/wal.cpp:90-128 | Filling the buffer at a moving offset gives the specified record, the timestamp dropped when there is no room and written over the vector when that is too long |
| `Wal.WalManager.LogDelete` | src/compaction/wal.cpp:141-181 | Appends the delete record |
| `Wal.WalManager.Recover` | src/compaction/wal.cpp:195-283 | The read loop returns the entries of all whole records |
| `Merge.MergeKeepsLatest` | src/compaction/compaction_manager.cpp:209-260 | A merge lists, strictly ascending by id, exactly the inputs that are the latest of their id, the first of equally late ones, and not tombstones |
| `Merge.OrderIndependentExactly` | src/compaction/compaction_manager.cpp:219-240 | The order of the inputs never matters exactly when entries tied for the latest of an id are equal or all tombstones; in particular when each id's timestamps are distinct |
| `Merge.MergeIgnoresOrder` | src/compaction/compaction_manager.cpp:219-240 | Under that condition every permutation of the inputs merges to the same list |
| `Merge.MergeSstables` | src/compaction/compaction_manager.cpp:209-260 | Reading, deduplicating, sorting and filtering in place stores exactly that merge as a new table; unreadable tables are skipped, no tables is an error, an empty merge stores nothing |
| `MergeOrder.MergeAnswers` | src/compaction/compaction_manager.cpp:209-260 | A read of the merged table finds what the table whose entry was read last says of the id, tombstones included: ranks are reading times plus positions, the first of equals |
| `MergeOrder.NewestKeptExactly` | src/compaction/compaction_manager.cpp:209-260 | A read of the merged table finds what any given listed table says, the one with the newest write for instance, exactly when the table read last says the same |
| `MergeOrder.ListOrderDecides` | src/compaction/compaction_manager.cpp:209-240 | With a clock that advances from table to table, the table read last is the last listed one that holds the id, however old its write |
| `MergeOrder.GreatestIdReadLast` | src/compaction/compaction_manager.cpp:160-195 | Listed in order of creation, as compactions do: the table with the greatest id is read last exactly when its entry gets a greater stamp than every other |
| `MergeOrder.GreatestIdKept` | src/compaction/compaction_manager.cpp:160-195 | Listed so, and with a clock that advances from table to table, a read of the merge finds what the table with the greatest id says |
| `MergeOrder.DeletedVectorReturnsCounterexample` | src/compaction/compaction_manager.cpp:209-260 | Listed in order of creation but with a clock that does not tick between two reads, a merge brings a deleted vector back |
| `MergeOrder.RemergeCounterexample` | src/compaction/compaction_manager.cpp:160-260 | A merge of the two oldest of three tables gets the greatest id: merged later with the third in order of creation, under a clock that advances, it loses the newest value |
| `SimdDistance.L2DistanceSqAvx2` | src/core/simd_distance.cpp:88-136 | Eight lanes, the horizontal reduction and the tail loop give the scalar sum of squared differences, for every dimension |
| `SimdDistance.L2DistanceSqSse` | src/core/simd_distance.cpp:152-195 | Four lanes, the same |
| `SimdDistance.L2DistanceSqScalar` | src/core/simd_distance.cpp:73-80 | The scalar loop computes the sum of squared differences |
| `SimdDistance.L2DistanceSqSimd` | src/core/simd_distance.cpp:208-217 | The dispatch does not change the result |
| `SimdDistance.ReduceFour` | src/core/simd_distance.cpp:181-186 | The shuffles add up all four lanes |
| `SimdDistance.Accumulate` | src/core/simd_distance.cpp:92-122 | Lane sums together are the distance over the whole steps |
| `SimdDistance.BatchL2DistanceSqSimd` | src/core/simd_distance.cpp:227-252 | The 4-way unrolled batch writes each vector's distance, for every count, and nothing past it |

## Left out

- io_uring, O_DIRECT, file descriptors, prefetching and the asynchronous batch of the disk search: foreign calls and kernel timing; the search is modelled without an I/O engine.
- Floating-point rounding, NaN, infinities and overflow, including `FLT_MAX` as the starting minimum of nearest scans; alignment branches and processor detection: exact reals and one form of load.
- Clocks, random shuffles and random starting points: inputs of the methods.
- Access statistics, dirty flags on write-back and `put_page_data` with partial pages: nothing in the modelled paths writes to a page.
- Failed reads and writes of files: writes succeed, so a rotation fails only on an empty table; a file cut short reads as nothing where the original goes on with unset values.
- Deletion of flushed tables and the reuse of ids that follows, and the choice of which level to compact.
- Runs in which one id is written in several generations: what reads may then return is given by `LsmWriters.MayReturn` and two exact conditions, but no map is refined.
- Hash maps of list iterators in the eviction policy: represented by membership in the lists.
- Data sets whose vectors differ in length, and node ids at or past the number of vectors on disk.
- `PQEncoder::train` itself, which runs k-means on each subspace: it would only add a loop around `KMeans.Kmeans`.
- FlatGraphs.FlatGraphIndex.constructor: takes maximum degrees up to 127, as with more the byte that counts the neighbours of a doubled row wraps; so does NswBuilders.NSWBuilder.constructor.
- DiskRecords.PackRecord: takes records whose fields fit 4096 bytes, past which the original writes outside its buffer; DiskRecords.ParseRecord takes maximum degrees up to 32, the size of the arrays it fills.
- DiskReaders.DiskIndexReader.ComputeDistanceDirect: is one thread's call without interruption; what other threads do between the lock and the read is in the step machine of `PinProtocol` and `UnpinnedReads`.
- DiskReaders.DiskIndexReader.ReadVector: is one thread's call in the same way; for other threads in between see `UnpinnedReads` and `UnpinnedRuns`.
- SSTables.ReadFile: a file cut short gives nothing, where the original goes on with variables that were never set.
- PqEncoders.PQEncoder.FindNearestCentroid: with more than 256 centroids the returned byte no longer names the centroid, so the optimality results take k up to 256.
- Vamana.VamanaBuilder.Build: leaves open which of equally distant candidates a sort puts first.
- GraphIndex save and load, page checksums, memory formulas, recall and hit-rate figures, the command line, bindings and loaders: drivers, or not decided by the code.
