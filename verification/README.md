# Verified models of the extension algorithms

This project models, in Dafny 4.11, the parts of the database extensions whose correctness is a real
argument: the graph algorithms (`algo/`), full-text index maintenance (`fts/`), the remote file layers
(`httpfs/`), and the GQL path translation and catalog (`gql/`). Every statement is for all inputs, all
schedules or all runs of the model. `dafny verify dfyconfig.toml` checks the whole project.

## What is modelled

* **Graphs.** A graph has forward and backward neighbour lists; the backward lists are the transpose, slot
  by slot (`Graph.dfy`). Reachability is the existence of a path (`Reach.dfy`).
* **Strong components, explicit stack** (`Kosaraju.dfy`). The stack may hold a node several times. The
  forward search is described by its tree path, by where each path node sits on the stack, and by one
  invariant: a finished node that reaches an unfinished one has a strongly connected twin on the path.
* **Min-label propagation** (`MinLabel.dfy`). The frontier engine works in iterations: slots of the
  frontier to scan and values read but not yet written, any of which may go next; lowered nodes form the next
  frontier, and a limit may stop the run early. Weak components and the
  rounds of the colouring algorithm (`ColoringSCC.dfy`) are built on it. `Offsets.dfy` is about the ids.
* **Spanning forests** (`Forest.dfy`, `Kruskal.dfy`). Forests, connectivity and optimality are defined
  without the algorithm; union-find is described by roots and ranks.
* **K-core** (`KCore.dfy`). Coreness is the largest k for which the node lies in a set whose members all
  have k incident slots inside the set.
* **Louvain** (`Modularity.dfy`, `LouvainGraph.dfy`, `Louvain.dfy`). Modularity is defined on the weight
  matrix. Iterations process the nodes in any order; counters of changes are 64-bit words that wrap.
* **Multipart upload** (`S3Upload.dfy`). A state machine of one writer and its upload threads, one shared
  access per step, failed requests included, 16-bit counters included.
* **Glob** (`Glob.dfy`). A pattern denotes the strings that can be cut into pieces its tokens allow.
* **Layered reads** (`RemoteRead.dfy`). Recent blocks, prefetch zone with its workers, disk cache, network.
* **Full-text index** (`FTSIndex.dfy`, `FTSStats.dfy`, `FTSRecovery.dfy`). The tables against a rebuild from
  the live rows; the statistics against the documents, transaction by transaction; CREATE and DROP as
  scripts that may be cut off after any statement.
* **GQL** (`GqlPath.dfy`, `GqlFlatten.dfy`, `GqlPattern.dfy`, `GqlChain.dfy`, `GqlMeaning.dfy`, `GqlTranslate.dfy`,
  `GqlBranches.dfy`, `GqlRegistry.dfy`, `GqlNames.dfy`). A path term matches parts of a walk by juxtaposition; the translation is
  compared with that meaning, and with the unrolled pattern read off the term. The catalog's text slot is read
  back line by line.

## Where the code does not do what one would expect

* Ids of nodes, for tables of fewer than 2^32 nodes each, are distinct across tables exactly if every table with
  a node starts below 2^32: the running offset is a 32-bit variable (`NodeOffsets.DistinctIffStartsFit`, `NodeOffsets.WrapExample`).
* With zero Louvain phases, which the options allow, every node ends in community 0, which scores 0. The result
  scores no less than singletons exactly if there is a phase or self-loop weight times total weight is at most
  the sum of the squared degrees (`Louvain.Louvain`, `Louvain.SingletonsAgainstOne`, `Louvain.NoPhaseFallsShort`).
* A failed part upload never returns its buffer slot. A writer that waits for a slot can go on exactly as
  long as fewer uploads failed than there are slots (`S3Upload.BlockedIffLeaked`,
  `S3Upload.StuckIffAllLeaked`, `S3Upload.FailureDeadlocks`).
* The total document length of one insert batch is a 32-bit sum: the statistics stay right exactly if the
  batch is shorter than 2^32 terms (`FullText.FTSIndex.Insert`, `FullText.LongBatchExample`).
* DROP removes a table by name, and a user's table is found before the index's own. It leaves the user tables
  alone exactly if none has a name of the index, and it gets to its end exactly unless a user table hides the
  relationship table and leaves one of the tables it connects in sight (`FTSRecovery.WholeDropSparesIff`,
  `FTSRecovery.DropEndsIff`, `FTSRecovery.DropTakesUserTable`). CREATE refuses instead.
* Merging a run of juxtaposed node patterns keeps one of them, the first with labels or properties or else the
  first, and with it just its inline condition. The chain has exactly the placements of the pattern if and only
  if every condition is that of the pattern kept for its run, or for a run at the same node
  (`GqlMeaning.TranslationExact`, `GqlMeaning.KeepsRunByRun`, `GqlMeaning.LostCondition`). A query returns a row
  per placement. Whether a walk matches at all is a coarser question: between edges of free length a loss can go
  unnoticed there (`GqlMeaning.AgreesDespiteLoss`), but not where a start determines the placement or no other
  node has a condition in the same words (`GqlMeaning.TranslationAgreesIff`).
* Two juxtaposed interior variables right before a variable of the user are refused, although each alone gives way to
  it: merging two generated names forgets that the result is generated (`GqlTranslate.FoldIff`,
  `GqlTranslate.PairRefused`).
* A chain whose last event is an edge is emitted without a final node (`GqlChain.ChainShape`,
  `GqlMeaning.EndsWithNode`, `GqlMeaning.OpenEnd`).
* Two paths without "__" in their segments share a mangled name exactly if an underscore can be moved from one
  segment to the next (`GqlNames.SharedIffAmbiguous`). Registering the second of them breaks the two maps of the
  catalog; any registration keeps them inverse exactly if the name is not another member's
  (`GqlNames.AddInverseIff`, `GqlNames.CollisionBreaksCatalog`).
* A read past the end of the file is not always cut short: the block of the first byte outside decides. If it
  starts past the end the call ends short without an error, otherwise the loop fetches that block for ever
  (`RemoteRead.HTTPFile.ReadFromFile`, `RemoteRead.AtTheEnd`, `RemoteRead.PastEndExamples`). The second early exit
  of the loop, for an empty block, is never taken (`RemoteRead.FetchedBlockCovers`). `ReadFile` and the download
  never ask for that.

## Model

| member | source | states |
|---|---|---|
| `KosarajuSCC.VisitKeepsSearch` | algo/src/function/strongly_connected_components_kosaraju.cpp:149-158 | visiting a node extends the tree path and keeps the search invariant |
| `KosarajuSCC.FinishKeepsSearch` | algo/src/function/strongly_connected_components_kosaraju.cpp:141-147 | finishing a node keeps it: finished nodes that reach unfinished ones keep a twin on the path |
| `KosarajuSCC.GreyTwinSurvives` | algo/src/function/strongly_connected_components_kosaraju.cpp:141-147 | the twin moves up the path when its node finishes |
| `KosarajuSCC.PopStep` | algo/src/function/strongly_connected_components_kosaraju.cpp:140-148 | popping a visited node, first or repeated copy, keeps the stack in step with the path |
| `KosarajuSCC.VisitStep` | algo/src/function/strongly_connected_components_kosaraju.cpp:149-158 | pushing the unvisited neighbours keeps the stack in step with the path |
| `KosarajuSCC.OnlyTwinsReachRoot` | algo/src/function/strongly_connected_components_kosaraju.cpp:122-135 | in finish order, an unassigned node that reaches the next root is in its strong component |
| `KosarajuSCC.WholeComponentFound` | algo/src/function/strongly_connected_components_kosaraju.cpp:162-180 | the backward search finds the whole strong component of its root |
| `KosarajuSCC.BackwardDone` | algo/src/function/strongly_connected_components_kosaraju.cpp:162-180 | after it, assigned nodes still form whole components with one id each |
| `KosarajuSCC.Kosaraju.constructor` | algo/src/function/strongly_connected_components_kosaraju.cpp:33-67 | all nodes unvisited, an order array of one slot per node |
| `KosarajuSCC.Kosaraju.Push` | algo/src/function/strongly_connected_components_kosaraju.cpp:69-72 | the order array never overflows |
| `KosarajuSCC.Kosaraju.ForwardDFS` | algo/src/function/strongly_connected_components_kosaraju.cpp:138-160 | from a root: terminates, every node finished once, order stays a finish order |
| `KosarajuSCC.Kosaraju.BackwardsDFS` | algo/src/function/strongly_connected_components_kosaraju.cpp:162-180 | assigns the root's id to exactly its strong component |
| `KosarajuSCC.Kosaraju.Compute` | algo/src/function/strongly_connected_components_kosaraju.cpp:102-136 | two nodes carry the same id if and only if each reaches the other |
| `Forests.ConnAdd` | algo/src/function/spanning_forest.cpp:215-219 | an edge connects exactly what it joins |
| `Forests.AcyclicAdd` | algo/src/function/spanning_forest.cpp:215-219 | an edge between two trees closes no cycle |
| `Forests.ForestComponents` | algo/src/function/spanning_forest.cpp:209-221 | a forest of k edges on n nodes has n - k trees |
| `Forests.FullForestConnects` | algo/src/function/spanning_forest.cpp:211-211 | a forest with n - 1 edges connects everything, so stopping there loses nothing |
| `Forests.SpanningForestsSameSize` | algo/src/function/spanning_forest.cpp:209-221 | all spanning forests of a graph have the same size |
| `Forests.GreedyOptimal` | algo/src/function/spanning_forest.cpp:198-221 | a forest that spans every prefix of the sorted edges has least (or greatest) total weight among all spanning forests |
| `Kruskal.HalvingKeepsRoots` | algo/src/function/spanning_forest.cpp:229-234 | path halving changes no root |
| `Kruskal.LinkRoots` | algo/src/function/spanning_forest.cpp:236-250 | linking moves exactly one class under the other root |
| `Kruskal.LinkKeepsRankPaid` | algo/src/function/spanning_forest.cpp:240-249 | 2^rank of a root stays at most its class size |
| `Kruskal.RankIsLogarithmic` | algo/src/function/spanning_forest.cpp:240-249 | 2^rank is at most the number of nodes |
| `Kruskal.AgreesAfterJoin` | algo/src/function/spanning_forest.cpp:209-221 | same root means connected in the forest, also after a join |
| `Kruskal.ScanTakes` | algo/src/function/spanning_forest.cpp:211-220 | taking an edge keeps every scanned prefix spanned |
| `Kruskal.ScanSkips` | algo/src/function/spanning_forest.cpp:211-220 | skipping an edge inside a tree keeps every scanned prefix spanned |
| `Kruskal.ScanStopsEarly` | algo/src/function/spanning_forest.cpp:211-211 | at n - 1 edges all longer prefixes are spanned too |
| `Kruskal.KruskalCompute.constructor` | algo/src/function/spanning_forest.cpp:168-174 | every node its own class of rank 0 |
| `Kruskal.KruskalCompute.SortEdges` | algo/src/function/spanning_forest.cpp:198-207 | a permutation in ascending or descending order |
| `Kruskal.KruskalCompute.FindComponent` | algo/src/function/spanning_forest.cpp:229-234 | terminates, returns the root, keeps all roots |
| `Kruskal.KruskalCompute.MergeComponents` | algo/src/function/spanning_forest.cpp:236-250 | joins exactly the two classes, by rank and then by id |
| `Kruskal.KruskalCompute.Run` | algo/src/function/spanning_forest.cpp:209-221 | the forest spans every prefix of the sorted edges |
| `Kruskal.KruskalCompute.AssignForestIds` | algo/src/function/spanning_forest.cpp:223-227 | same id exactly for edges of one tree |
| `Kruskal.Compute` | algo/src/function/spanning_forest.cpp:198-234 | acyclic, connects exactly what the graph connects, optimal weight, ids name the trees |
| `MinLabel.ReadKeepsWork` | algo/src/function/component_ids.cpp:48-50 | a slot whose value has been read is still accounted for |
| `MinLabel.ApplyKeepsWork` | algo/src/function/component_ids.cpp:51-57 | lowering a label reactivates its node; a value that comes too late changes nothing |
| `MinLabel.Iterate` | algo/src/function/component_ids.cpp:48-57 | one iteration, its threads in any order: every activated node passes its label on, and the next frontier is exactly the nodes whose labels fell |
| `MinLabel.FinalSettled` | algo/src/function/component_ids.cpp:48-57 | the least id that can travel to a node is never above that of an activated neighbour |
| `MinLabel.IterationGains` | algo/src/function/component_ids.cpp:48-57 | an iteration gives at least one more node its final label, as long as one has not |
| `MinLabel.Propagate` | algo/src/function/component_ids.cpp:48-57 | after every step no label has risen and each names a node that reaches here; an empty frontier means a fixed point; as many iterations as nodes always empty it |
| `MinLabel.ReachBounds` | algo/src/function/weakly_connected_components.cpp:42-52 | at a fixed point a label is at most every start node that reaches it |
| `MinLabel.WeaklyConnected` | algo/src/function/weakly_connected_components.cpp:62-90 | if drained, every label is the least node of its weak component; a limit of at least the number of nodes drains |
| `NodeOffsets.StartOffsets` | algo/src/function/component_ids.cpp:8-19 | start offsets are prefix sums modulo 2^32 |
| `NodeOffsets.DistinctIffStartsFit` | algo/src/function/component_ids.cpp:8-33 | for tables of fewer than 2^32 nodes each, for which the id loop ends: ids are distinct across tables if and only if every table with a node starts below 2^32 |
| `NodeOffsets.LateTableCollides` | algo/src/function/component_ids.cpp:8-33 | a table that starts later shares its first id with an earlier node |
| `NodeOffsets.WrapExample` | algo/src/function/component_ids.cpp:14-17 | two tables of 2^31 nodes before a third: the first and the third share id 0 |
| `Graphs.CounterNeverEnds` | algo/src/function/component_ids.cpp:28-33 | a 32-bit counter never reaches a limit of 2^32 or more |
| `ColoringSCC.RoundAssignsWhole` | algo/src/function/strongly_connected_components.cpp:43-59 | a round assigns ids to whole strong components only |
| `ColoringSCC.RoundLeast` | algo/src/function/strongly_connected_components.cpp:43-59 | an assigned id is the least node of the component |
| `ColoringSCC.RoundProgress` | algo/src/function/strongly_connected_components.cpp:120-135 | the smallest unassigned node is always assigned |
| `ColoringSCC.RoundCounts` | algo/src/function/strongly_connected_components.cpp:240-277 | every round assigns at least one more component |
| `ColoringSCC.RunRound` | algo/src/function/strongly_connected_components.cpp:241-276 | forward and backward colouring by any schedule, then the update of the ids |
| `ColoringSCC.StronglyConnected` | algo/src/function/strongly_connected_components.cpp:240-277 | with drained propagations and as many rounds as components every id is the least of its component; a limit of at least the number of nodes gives both |
| `ColoringSCC.SamePartition` | algo/src/function/strongly_connected_components.cpp:240-277 | the same partition as the explicit-stack algorithm |
| `KCore.BatchKeepsPeeling` | algo/src/function/k_core_decomposition.cpp:139-154 | removing any batch of nodes of low degree keeps counters exact and coreness values right |
| `KCore.StageEnds` | algo/src/function/k_core_decomposition.cpp:195-214 | when no node is left at this value, the rest is dense for the next |
| `KCore.FindBatch` | algo/src/function/k_core_decomposition.cpp:139-154 | finds exactly the remaining nodes with degree at most the value |
| `KCore.RemoveVertices` | algo/src/function/k_core_decomposition.cpp:76-82 | one decrement per slot, none below zero |
| `KCore.KCoreDecomposition` | algo/src/function/k_core_decomposition.cpp:190-218 | terminates; every node gets its coreness |
| `KCore.CorenessUnique` | algo/src/function/k_core_decomposition.cpp:190-218 | so the result does not depend on the batches |
| `Modularities.AggregateSymmetric` | algo/src/function/louvain.cpp:543-572 | the merged graph is undirected |
| `Modularities.AggregateTotal` | algo/src/function/louvain.cpp:543-572 | merging keeps the total weight |
| `Modularities.AggregatePreservesModularity` | algo/src/function/louvain.cpp:543-572 | every labelling of the merged graph scores what it scores on the original nodes |
| `Modularities.ModGainExact` | algo/src/function/louvain.cpp:359-383 | the gain formula is 2m times the exact change of modularity |
| `Modularities.SamePartitionSameScore` | algo/src/function/louvain.cpp:525-541 | names of communities do not matter, nor do labels of isolated nodes |
| `Modularities.SumSqBound` | algo/src/function/louvain.cpp:415-427 | the sum of squared degrees is at most the squared total |
| `LouvainGraph.InitInMemoryGraph` | algo/src/function/louvain.cpp:494-522 | forward slots plus backward slots without self-loops: a symmetric weight matrix |
| `Louvain.DeltasStep` | algo/src/function/louvain.cpp:303-312 | the four atomic updates of a moving node are the exact change of its two communities, modulo 2^64 |
| `Louvain.BooksMove` | algo/src/function/louvain.cpp:444-454 | adding the wrapped changes gives exact degrees and sizes again |
| `Louvain.IntraCommWeights` | algo/src/function/louvain.cpp:317-343 | weights per neighbouring community and the self-loop weight |
| `Louvain.GainIsExact` | algo/src/function/louvain.cpp:359-383 | the gain of one node's move is 2m times the change of modularity |
| `Louvain.ComputedGain` | algo/src/function/louvain.cpp:350-383 | what the iteration computes from its counters is that gain |
| `Louvain.FindPotentialNewComm` | algo/src/function/louvain.cpp:346-398 | the outcome of looking at the communities around the node in some order, with threshold, tie-break and swap protection; a node stays only if no move raises the modularity or by swap protection |
| `Louvain.ChosenNearBest` | algo/src/function/louvain.cpp:346-398 | swap protection aside, a node goes where the modularity would be highest if it alone moved, up to the threshold per community around it |
| `Louvain.PhaseState.constructor` | algo/src/function/louvain.cpp:140-157 | every node in its own community with its own degree |
| `Louvain.PhaseState.RunIteration` | algo/src/function/louvain.cpp:280-314 | in any node order: every node's next label is such a choice from the current labels; exact changes and own-community weights |
| `Louvain.PhaseState.ComputeModularity` | algo/src/function/louvain.cpp:415-427 | the computed value is the modularity of the current labels |
| `Louvain.PhaseState.AcceptIteration` | algo/src/function/louvain.cpp:632-641 | applies the changes and rotates the label arrays, keeping the books |
| `Louvain.SingletonsAboveHalf` | algo/src/function/louvain.cpp:599-628 | singletons score at least -1/2, so the first iteration of a phase is always accepted |
| `Louvain.PhaseState.RunPhase` | algo/src/function/louvain.cpp:598-644 | the labellings of a phase: each a round of choices from the one before, each accepted one better than its predecessor by the threshold; it stops only at the iteration limit or when the next labelling is not better by the threshold; never below singletons |
| `Louvain.PhaseState.RenumberCommunities` | algo/src/function/louvain.cpp:525-541 | the same communities under consecutive names, all in use, in order of first appearance |
| `Louvain.CommWeights` | algo/src/function/louvain.cpp:543-563 | weights between communities, each collected once and mirrored |
| `Louvain.AggregateCommunities` | algo/src/function/louvain.cpp:543-572 | the merged graph has the aggregated weight matrix |
| `Louvain.MergedStep` | algo/src/function/louvain.cpp:244-263 | labels composed over one more phase still score what the merged labels score |
| `Louvain.Compute` | algo/src/function/louvain.cpp:590-661 | phases on the merged graphs of the phases before, until the limit or until one merges nothing; every node follows the names of all phases; the result scores no less than the initial singletons |
| `Louvain.SingletonsAgainstOne` | algo/src/function/louvain.cpp:574-668 | one community scores no less than singletons if and only if the self-loops are light |
| `Louvain.LoopsOfGraph` | algo/src/function/louvain.cpp:494-522 | the self-loop weight of the merged graph counts the self-loops of the stored one |
| `Louvain.Louvain` | algo/src/function/louvain.cpp:574-668 | the result scores no less than singletons if and only if there is a phase or the self-loops are light |
| `Louvain.NoPhaseFallsShort` | algo/src/function/louvain.cpp:574-668 | two nodes with a self-loop each: without a phase the result falls short |
| `S3Upload.FillInBounds` | httpfs/src/s3fs.cpp:424-445 | the copy into a part buffer starts at its end and stays inside |
| `S3Upload.WriterInv` | httpfs/src/s3fs.cpp:417-475 | every step of the writer keeps the invariant |
| `S3Upload.ThreadInv` | httpfs/src/s3fs.cpp:664-714 | every step of an upload thread keeps the invariant |
| `S3Upload.RunInv` | httpfs/src/s3fs.cpp:417-475 | so every state of every interleaving satisfies it |
| `S3Upload.FinalizeBody` | httpfs/src/s3fs.cpp:476-490 | the completion request lists parts 1 to n with their tags, or reports an unknown part |
| `S3Upload.WriterAccounts` | httpfs/src/s3fs.cpp:417-447 | a writer step that reports no failure loses no byte of a call and invents none |
| `S3Upload.CallWritesAll` | httpfs/src/s3fs.cpp:417-447 | from the start of a call to the next idle state all its bytes are written; at another offset than the current one, none |
| `S3Upload.WrittenIsAccepted` | httpfs/src/s3fs.cpp:417-447 | between calls, and at the end, the bytes written are those of all accepted calls in order |
| `S3Upload.UploadComplete` | httpfs/src/s3fs.cpp:457-490 | after the flush, under any interleaving: tags for exactly the parts, each uploaded once, and the assembled object is the bytes of all accepted calls |
| `S3Upload.BlockedIffLeaked` | httpfs/src/s3fs.cpp:447-455 | a blocked writer has an upload to release it if and only if fewer uploads failed than there are slots |
| `S3Upload.Releases` | httpfs/src/s3fs.cpp:698-714 | at most four steps of such an upload free a slot |
| `S3Upload.StuckIffAllLeaked` | httpfs/src/s3fs.cpp:683-697 | a state inside a call has no next step exactly if failed uploads hold all slots |
| `S3Upload.FailureDeadlocks` | httpfs/src/s3fs.cpp:683-697 | a run with one slot and one failed upload that blocks the writer for good |
| `Pieces.CoversFirst` | httpfs/src/s3fs.cpp:109-168 | a cut is a first piece and a cut of the rest |
| `Glob.StarsCollapse` | httpfs/src/s3fs.cpp:119-124 | a row of stars is one star |
| `Glob.NonEmptySuffixes` | httpfs/src/s3fs.cpp:129-135 | after a star only non-empty suffixes need to be tried |
| `Glob.MatchBracket` | httpfs/src/s3fs.cpp:170-239 | the bracket loop finds the closing bracket and decides membership, inverted or not |
| `Glob.Likes` | httpfs/src/s3fs.cpp:109-239 | true if and only if the pattern parses and its tokens' pieces make up the string |
| `Glob.QuotedMatchesItself` | httpfs/src/s3fs.cpp:143-154 | a string with every character escaped matches itself and nothing else |
| `Glob.RestNeedsSegment` | httpfs/src/s3fs.cpp:242-267 | a non-empty rest of a pattern path needs a segment |
| `Glob.Match` | httpfs/src/s3fs.cpp:242-267 | true if and only if the segments can be cut: inner "**" any number, last "**" at least one |
| `RemoteRead.Link.GetRange` | httpfs/src/httpfs.cpp:702-703 | a request of the reader: the bytes of the span, or nothing if it is one the network does not answer |
| `RemoteRead.PrefetchZone.Complete` | httpfs/src/httpfs.cpp:520-571 | a good answer is stored exactly if there is room or a used span to drop; spans hold the remote bytes, the window stays bounded, unused spans are never dropped |
| `RemoteRead.PrefetchZone.SubmitPrefetch` | httpfs/src/httpfs.cpp:486-582 | queues exactly the next blocks inside the file that are not ready and that the pool takes |
| `RemoteRead.BlockCache.Get` | httpfs/src/block_cache.cpp:68-96 | a hit exactly for a stored, readable file; it is the remote slice the key names, and becomes the most recent |
| `RemoteRead.BlockCache.Put` | httpfs/src/block_cache.cpp:98-118 | stores the span unless it is there or cannot be written, and prunes once enough bytes were stored |
| `RemoteRead.BlockCache.ListByAge` | httpfs/src/block_cache.cpp:120-150 | every stored file once, the least recently modified first |
| `RemoteRead.BlockCache.Prune` | httpfs/src/block_cache.cpp:120-171 | of the stored files, the longest run of most recently modified ones that fits the budget stays |
| `RemoteRead.HTTPFile.LookupCachedBlock` | httpfs/src/httpfs.cpp:398-409 | finds a covering block if there is one and moves it to the front, losing nothing |
| `RemoteRead.HTTPFile.CacheBlock` | httpfs/src/httpfs.cpp:411-418 | new block in front, oldest dropped, bound kept |
| `RemoteRead.HTTPFile.ServeFromFront` | httpfs/src/httpfs.cpp:474-483 | copies exactly the covered part, at least one byte |
| `RemoteRead.HTTPFile.FetchSpan` | httpfs/src/httpfs.cpp:624-723 | the block comes to the front, from zone or disk without a request, or else by one request for exactly this span; fails if and only if that request is not answered |
| `RemoteRead.HTTPFile.Turn` | httpfs/src/httpfs.cpp:598-722 | one turn serves bytes exactly, fetches a block that covers the position exactly if it lies in the file, gives up exactly past the last block, or fails |
| `RemoteRead.HTTPFile.ReadFromFile` | httpfs/src/httpfs.cpp:586-724 | any request: the part inside the file is served exactly, whatever the layers hold; it fails if and only if a range request of this call is not answered, and otherwise the buffer is filled, the call ends short, or the loop never ends, each if and only if the request is of that kind; a failure leaves a correct prefix |
| `RemoteRead.FillsIff` | httpfs/src/httpfs.cpp:586-724 | the buffer is filled if and only if the request lies in the file |
| `RemoteRead.AtTheEnd` | httpfs/src/httpfs.cpp:627-639 | up to or past the end: ends short if and only if the length is a whole number of blocks, and otherwise never ends |
| `RemoteRead.PastEndExamples` | httpfs/src/httpfs.cpp:627-639 | a request of each kind |
| `RemoteRead.HTTPFile.ReadFile` | httpfs/src/httpfs.cpp:726-738 | reads up to the end of the file from the current offset; succeeds if and only if every request is answered |
| `RemoteRead.HTTPFile.DownloadFile` | httpfs/src/cached_file_manager.cpp:57-68 | the local copy is byte-identical and the offset is back at 0, if and only if every request is answered |
| `RemoteRead.FetchedBlockCovers` | httpfs/src/httpfs.cpp:627-639 | the fetched block is not empty, and covers the position exactly if that lies in the file |
| `FTSStats.StatsState.UpdateStats` | fts/src/index/fts_index.cpp:242-261 | what the transaction is told grows by exactly the reported change, and nobody else is told anything new |
| `FTSStats.StatsState.Commit` | fts/src/index/fts_index.cpp:262-275 | committed count, average and prefix are then those of what the transaction saw, and all others stay in step |
| `FTSStats.StatsState.Rollback` | fts/src/index/fts_index.cpp:276-279 | the transaction is told the committed values again, everyone else the same as before, in step with the documents without its changes |
| `FTSStats.StatsState.GetStats` | fts/src/index/fts_index.cpp:219-230 | number and average length of exactly the documents the transaction sees |
| `FTSStats.StatsState.GetNumIndexedNodes` | fts/src/index/fts_index.cpp:232-240 | the largest prefix that a committed insert or one of its own reported |
| `FTSStats.SeenIsView` | fts/src/index/fts_index.cpp:219-230 | what a transaction is told is the number and total length of the documents it sees |
| `FTSStats.CommitTracks` | fts/src/index/fts_index.cpp:262-275 | after a commit count and total length are those of the committed documents |
| `FTSStats.RollbackTracks` | fts/src/index/fts_index.cpp:276-279 | a rollback keeps them |
| `FTSStats.HistoryTracks` | fts/src/index/fts_index.cpp:242-280 | the same over any interleaving of transactions, prefixes included |
| `FTSStats.UncommittedLeavesNoTrace` | fts/src/index/fts_index.cpp:276-279 | in any history, the statistics without the events of a transaction that never commits are the same: count, average, prefix and every other transaction's pending change |
| `FullText.CountTerms` | fts/src/index/fts_index.cpp:115-122 | occurrences per term |
| `FullText.InsertToTermsTable` | fts/src/index/fts_index.cpp:339-366 | each term counted once more, new ones inserted with df 1 |
| `FullText.InsertToAppearsInTable` | fts/src/index/fts_index.cpp:368-379 | one row per distinct term with its frequency |
| `FullText.DeleteFromTermsTable` | fts/src/index/fts_index.cpp:411-441 | each term counted once less, last holders removed; an error exactly if a term is missing |
| `FullText.InsertRow` | fts/src/index/fts_index.cpp:136-145 | the tables of one more document |
| `FullText.DeleteRow` | fts/src/index/fts_index.cpp:200-212 | the tables of one document less; the only possible error is a missing document |
| `FullText.RelsAdd` | fts/src/index/fts_index.cpp:368-379 | the appears-in rows stay exactly one per document and term |
| `FullText.RelsRemove` | fts/src/index/fts_index.cpp:443-452 | also after a document's rows are detached |
| `FullText.FTSIndex.Insert` | fts/src/index/fts_index.cpp:124-148 | tables equal a rebuild with the new rows; statistics right exactly if the batch has fewer than 2^32 terms, and otherwise too small for good; prefix covers the batch |
| `FullText.LongBatchExample` | fts/src/index/fts_index.cpp:131-146 | two documents of 2^31 terms each are recorded with total length 0 |
| `FullText.FTSIndex.Delete` | fts/src/index/fts_index.cpp:183-217 | tables equal a rebuild without the rows; fails exactly on an unindexed row with terms below the prefix; a missing term never occurs |
| `FullText.FTSIndex.Update` | fts/src/index/fts_index.cpp:160-175 | tables equal a rebuild with the new text |
| `FullText.FTSIndex.Finalize` | fts/src/index/fts_index.cpp:282-307 | indexes exactly the live rows above the prefix; statistics stay right if and only if each of them has fewer than 2^32 terms; with none left it changes nothing |
| `FullText.FinalizeComplete` | fts/src/index/fts_index.cpp:282-307 | all live rows are then indexed if and only if those below the prefix were |
| `FullText.Replay` | fts/src/index/fts_index.cpp:124-217 | any sequence of inserts, updates and deletes succeeds and keeps the tables equal to a rebuild |
| `FullText.Rebuild` | fts/src/index/fts_index.cpp:131-146 | tables built from scratch fit the rows |
| `FullText.SameContents` | fts/src/index/fts_index.cpp:328-452 | tables that fit the same rows agree on lengths, df (at least 1) and tf, up to internal ids |
| `FTSRecovery.Recognised` | fts/src/function/create_fts_index.cpp:97-129 | whatever an interrupted script left is recognised as residue |
| `FTSRecovery.RecognisedIff` | fts/src/function/create_fts_index.cpp:97-129 | in any catalog: a table is taken for residue exactly if it has the schema CREATE gives it and, for a relationship table whose ends exist, connects those |
| `FTSRecovery.ResidueGood` | fts/src/function/create_fts_index.cpp:131-188 | dropping the residue succeeds statement by statement, relationship table first |
| `FTSRecovery.CreateOk` | fts/src/function/create_fts_index.cpp:240-363 | from every reachable catalog without the index and without a user table of its names, CREATE runs to the end |
| `FTSRecovery.CreateRefuses` | fts/src/function/create_fts_index.cpp:131-188 | from reachable catalogs CREATE is refused if and only if the index exists or a user table has one of its names |
| `FTSRecovery.CreateRunsIff` | fts/src/function/create_fts_index.cpp:131-188 | from any catalog it goes ahead if and only if the index does not exist, no user table has such a name, and every internal table that has one is residue |
| `FTSRecovery.RunTakes` | fts/src/function/drop_fts_index.cpp:34-71 | a script removes exactly the user tables whose names it drops |
| `FTSRecovery.DropSparesIff` | fts/src/function/drop_fts_index.cpp:34-71 | DROP cut off anywhere keeps the user tables if and only if none has a name it got to |
| `FTSRecovery.WholeDropSparesIff` | fts/src/function/drop_fts_index.cpp:34-71 | a whole DROP keeps them if and only if none has a name of the index |
| `FTSRecovery.DropEndsIff` | fts/src/function/drop_fts_index.cpp:34-71 | for every catalog with the index: DROP gets to its end if and only if no user table hides the relationship table while a table it connects is in sight |
| `FTSRecovery.DropLeavesNothing` | fts/src/function/drop_fts_index.cpp:34-71 | without a user table of such a name a whole DROP leaves no table, macro, index entry or index object, and everything else as it was |
| `FTSRecovery.DropTakesUserTable` | fts/src/function/drop_fts_index.cpp:34-71 | a reachable catalog whose user table is lost while the index's own stays |
| `FTSRecovery.AttemptsKeep` | fts/src/function/create_fts_index.cpp:240-363 | after any cut-off attempts, whatever tables users have: the relationship table has both its ends and nothing outside the names of the index has changed |
| `FTSRecovery.AttemptsSpare` | fts/src/function/create_fts_index.cpp:240-363 | without a user table of such a name no attempt drops a user table |
| `FTSRecovery.Recovers` | fts/src/function/create_fts_index.cpp:131-363 | a CREATE that completes leaves the catalog a first CREATE would, up to table ids |
| `FTSRecovery.CreateSparesUserTables` | fts/src/function/create_fts_index.cpp:145-158 | CREATE never drops a user table, even one with a generated name |
| `GqlPath.Repeats` | gql/src/gql_transformer.cpp:957-1003 | the repetition count is the only one the quantifier, or the branch, allows |
| `GqlPath.CopiesMatch` | gql/src/gql_transformer.cpp:2451-2470 | k renamed copies of an interior match what k repetitions match |
| `GqlPath.CollapseMatches` | gql/src/gql_transformer.cpp:2381-2410 | a bare one-edge interior is a variable-length edge |
| `GqlPath.FlatTermMatches` | gql/src/gql_transformer.cpp:2237-2490 | the flattened events match exactly the walks of the term |
| `GqlPattern.FlatBones` | gql/src/gql_transformer.cpp:2237-2490 | without their names the events are the unrolled pattern, which is read off the term |
| `GqlPattern.FlatLists` | gql/src/gql_transformer.cpp:2440-2489 | the lists hold, per interior variable, the names of its element in every repetition, in order |
| `GqlPattern.PlacesPoint` | gql/src/gql_transformer.cpp:2440-2489 | the places listed for a variable carry that variable, from left to right |
| `GqlPattern.FlatNames` | gql/src/gql_transformer.cpp:2270-2300 | an element outside quantified interiors goes by its own variable, a quantified or interior one by a generated name if it declares a variable |
| `GqlFlatten.Flattener.Flatten` | gql/src/gql_transformer.cpp:2237-2490 | the in-place flattening computes the events and lists whose meaning is proved, or refuses |
| `GqlFlatten.Flattener.FlattenParen` | gql/src/gql_transformer.cpp:2321-2488 | takes the interior's events back, collapses or repeats them |
| `GqlFlatten.Flattener.Repeat` | gql/src/gql_transformer.cpp:2427-2488 | the repetition loops: fresh names per repetition and the lists of names |
| `GqlFlatten.CountInterior` | gql/src/gql_transformer.cpp:2364-2374 | edges and node fillers of the interior |
| `GqlChain.Emit` | gql/src/gql_transformer.cpp:2576-2628 | the emission loop computes the fold of merging and flushing |
| `GqlChain.ChainShape` | gql/src/gql_transformer.cpp:2576-2628 | the chain alternates nodes and edges; it ends with a node exactly if the last event is one |
| `GqlMeaning.ChainKeepsLeads` | gql/src/gql_transformer.cpp:2552-2628 | the chain has the edges of the pattern, and of every run of node patterns its lead, whose labels and properties are those of the whole run |
| `GqlMeaning.MatchIsPlacement` | gql/src/gql_transformer.cpp:2224-2628 | events match a part of a walk if and only if they have a placement on it |
| `GqlMeaning.LostConditionShows` | gql/src/gql_transformer.cpp:2552-2569 | a pattern that does not keep its conditions: a walk that violates one condition at one node has a placement of the chain that is none of the pattern |
| `GqlMeaning.SamePlacements` | gql/src/gql_transformer.cpp:2552-2628 | same placements on all walks if and only if the pattern's conditions survive |
| `GqlMeaning.LostCondition` | gql/src/gql_transformer.cpp:2552-2569 | a pattern that loses its condition, and a walk that shows it |
| `GqlMeaning.TranslationExact` | gql/src/gql_transformer.cpp:2224-2628 | the emitted chain has exactly the placements of the pattern, on all walks, if and only if every inline condition of the pattern is that of a lead at the same node |
| `GqlMeaning.KeepsRunByRun` | gql/src/gql_transformer.cpp:2552-2569 | where every edge allows a positive length, that means: each condition of a run is empty or that of its first node pattern with labels or properties, or else of its first |
| `GqlMeaning.TranslationAgreesIff` | gql/src/gql_transformer.cpp:2224-2628 | chain and term agree on which walks match if and only if the conditions survive, for edges of one length each and for conditions not repeated at other nodes |
| `GqlMeaning.AgreesDespiteLoss` | gql/src/gql_transformer.cpp:2552-2569 | with edges of free length and a repeated condition, chain and term can agree on all walks although a condition is lost |
| `GqlMeaning.TranslationMatches` | gql/src/gql_transformer.cpp:2224-2628 | the emitted chain matches every walk of the path term, and no other if the pattern's conditions survive |
| `GqlMeaning.EndsWithNode` | gql/src/gql_transformer.cpp:2576-2628 | the chain ends with a node if and only if the pattern does |
| `GqlMeaning.OpenEnd` | gql/src/gql_transformer.cpp:2603-2628 | a pattern that is emitted without its end node |
| `GqlChain.ResolveName` | gql/src/gql_transformer.cpp:2500-2509 | alias chasing terminates |
| `GqlChain.NamesHold` | gql/src/gql_transformer.cpp:2523-2551 | every named node event resolves to the name its place in the chain carries |
| `GqlChain.ChainShowsName` | gql/src/gql_transformer.cpp:2581-2590 | the name a place is said to carry is the one the emitted node shows |
| `GqlChain.NodeShown` | gql/src/gql_transformer.cpp:2629-2642 | a named node event, resolved, is the name the chain shows at its place |
| `GqlChain.EdgeShown` | gql/src/gql_transformer.cpp:2603-2625 | a named edge event is shown by the chain at its place |
| `GqlChain.EdgesInOrder` | gql/src/gql_transformer.cpp:2603-2625 | edges keep their place and their name |
| `GqlTranslate.FlatIff` | gql/src/gql_transformer.cpp:957-1003 | a term is flattened if and only if every factor is supported where it stands |
| `GqlTranslate.FoldIff` | gql/src/gql_transformer.cpp:2517-2569 | the chain is emitted if and only if every run agrees: one user variable at most, at most one generated name before it, one specification of labels and properties; the node then carries the user's name or the first |
| `GqlTranslate.Refusals` | gql/src/gql_transformer.cpp:2224-2628 | translated if and only if every factor is supported and every run of the unrolled pattern can be merged, both read off the term |
| `GqlTranslate.ShowsNames` | gql/src/gql_transformer.cpp:2576-2628 | the chain shows a user's variable exactly where a node pattern outside quantified interiors declares it, no name exactly where none declares one, and edges under their own variables unless renamed |
| `GqlTranslate.NamesAreFresh` | gql/src/gql_transformer.cpp:2427-2470 | no two elements of the chain share a generated name |
| `GqlTranslate.PairRefused` | gql/src/gql_transformer.cpp:2543-2551 | two juxtaposed interior variables before a user's variable are refused |
| `GqlTranslate.TranslatePathTerm` | gql/src/gql_transformer.cpp:2224-2645 | all of this on the translation, with one list per interior variable: one entry per repetition, and entry r is the name the chain shows at the element of repetition r, nodes and edges alike |
| `GqlBranches.Expand` | gql/src/gql_transformer.cpp:1481-1495 | every count combination exactly once |
| `GqlBranches.Branches` | gql/src/gql_transformer.cpp:1471-1496 | refused exactly if there would be more than 8 |
| `GqlBranches.BranchesCover` | gql/src/gql_transformer.cpp:1479-1497 | a walk matches the term if and only if some branch matches it |
| `GqlRegistry.DeserializeGraphTypes` | gql/src/gql_transformer.cpp:474-522 | from a slot written for these graph types and any schemas, reads back exactly the graph types |
| `GqlRegistry.DeserializeSchemaCatalog` | gql/src/gql_transformer.cpp:156-187 | from a slot written for any graph types and this catalog, reads back exactly the catalog |
| `GqlRegistry.RegistryRead` | gql/src/gql_transformer.cpp:437-522 | reading the lines of the graph types gives them back |
| `GqlRegistry.MembersRead` | gql/src/gql_transformer.cpp:133-187 | reading the lines of the members gives back both maps |
| `GqlRegistry.SlotRoundTrip` | gql/src/function/gql_function.cpp:361-371 | both parsers get their own originals back from the shared slot |
| `GqlNames.ManglePhysical` | gql/src/gql_transformer.cpp:104-125 | prefix and the non-empty segments joined by "__" |
| `GqlNames.SharedIffAmbiguous` | gql/src/gql_transformer.cpp:104-125 | for paths without "__" in their segments: another such path has the same name if and only if an underscore can be moved from one segment to the next |
| `GqlNames.MangleInjective` | gql/src/gql_transformer.cpp:104-125 | a path in which none can be moved shares its name with no other |
| `GqlNames.AmbiguousCollides` | gql/src/gql_transformer.cpp:104-125 | a path in which one can be moved shares its name with another path |
| `GqlNames.TrailingUnderscoreIsGood` | gql/src/gql_transformer.cpp:104-125 | a last segment may end in an underscore without harm |
| `GqlNames.MangleCollides` | gql/src/gql_transformer.cpp:104-125 | two paths with one name |
| `GqlNames.AddInverseIff` | gql/src/gql_transformer.cpp:86-95 | registering keeps the two maps inverse if and only if the name is free or this member's already |
| `GqlNames.SchemaCatalog.AddMember` | gql/src/gql_transformer.cpp:86-95 | the maps stay inverse exactly if no other member has the name; members named for paths whose names are unique never clash |
| `GqlNames.CollisionBreaksCatalog` | gql/src/gql_transformer.cpp:86-95 | registering two paths with one name leaves maps that are not inverse |
| `GqlNames.SchemaCatalog.RemoveMemberByLogical` | gql/src/gql_transformer.cpp:97-102 | keeps the two maps inverse to each other |
| `GqlNames.SchemaCatalog.ResolvePhysical` | gql/src/gql_transformer.cpp:309-324 | a known member's name, or the mangled path, registered on request; the maps stay inverse exactly if that name is not taken |

## Left out

- Floating point: weights, modularity and average lengths are real numbers.
- Node masks, deleted rows, progress bars, interrupts and the inside of the frontier engine, which is not part of this repository: an iteration is taken to scan the nodes activated in the one before, and the limit to count iterations.
- Loops that count nodes with a 32-bit variable: the algorithms are stated for fewer than 2^32 nodes (or edges), beyond which those loops do not end (`Graphs.CounterNeverEnds`).
- The compare-and-swap loop that lowers a label is one atomic step; memory ordering is not modelled.
- Kruskal.Compute: takes the list of weighted edges; reading it from the graph without self-loops is not modelled, and `std::sort` is an insertion sort.
- Louvain.FindPotentialNewComm: does not claim that an accepted move raises the modularity, because the tie-break within the threshold can accept a slightly negative gain; `Louvain.ChosenNearBest` bounds it.
- Louvain.Louvain: assumes positive total weight whose square fits 64 bits; the flat CSR arrays are lists of lists.
- S3Upload.UploadComplete: one open file, and part numbers that fit 16 bits; calls after an exception, retries inside a request and the completion request itself are not modelled.
- Glob.Likes: characters are compared by code; the sign of `char` for bytes above 127 is not modelled. Listing the bucket is left out.
- RemoteRead.HTTPFile.ReadFromFile: the loop is observed for a given number of turns, since it may not end; one reader per file object and requests shorter than 2^31 bytes; a range request returns the requested bytes or fails, and which requests, file accesses and pool submissions succeed is given from outside; URL hashing in the disk cache is taken to be free of collisions.
- The choice of the cache file name in `getCachedFileInfo`.
- FullText.FTSIndex.Delete: the text looked up is the text that was indexed; the versions of the tables that other transactions see are the storage engine's.
- FTSStats.HistoryTracks: the storage engine lets no two open transactions touch the same document.
- FTSRecovery.Recovers: all attempts use the same options; table contents are not modelled; a statement that names a table takes a user table before an internal one.
- Tokenizing, stop words, stemming, BM25 scoring and queries.
- GqlPath.FlatTermMatches: an inline condition is taken as a predicate on its node; interior variables are declared once in the statement, as the prescan demands; bounds are numbers, so the refusal of bounds longer than five digits is not modelled.
- Path modes and search prefixes, edge conditions, subpath variables, alternations, parse trees and texts of expressions.
- GqlNames.SharedIffAmbiguous: for segments without "__" inside; a segment with one can also be read as two.
- GqlNames.SchemaCatalog.ResolvePhysical: delimited identifiers are not stripped, and the check for the reserved prefix is a property of names under the root.
- PageRank, graph bridges to other libraries, connectors, installers, HTTP clients, signing.
