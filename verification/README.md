# A verified model of article_db

article_db is a sharded store for news articles with semantic search. Each shard node keeps its articles in
SQLite and their vectors in an index, by default an HNSW graph; a primary repeats every write on a replica; a
coordinator splits articles over shards by a hash of their ids and merges per-shard answers.

This project models those parts in Dafny and proves what they promise. The modules follow the program:

- `vectors.dfy`, `index_spec.dfy`: norms, cosine similarity, and the contract of a vector index
  (`internal/index/index.go`).
- `heaps.dfy`, `layers.dfy`, `beams.dfy`, `selection.dfy`, `graph.dfy`, `answers.dfy`, `hnsw.dfy`, `chains.dfy`,
  `circle.dfy`, `beam_width.dfy`: the HNSW graph (`internal/index/hnsw.go`). `hnsw.dfy` holds the class with the program's fields; the others hold the
  theory its methods are proved against: one layer of links and its paths, the exact account of a beam
  search, the neighbour-selection heuristic, the graph as a stack of layers, the answer to a query, a family of
  graphs the program builds from points on a circle, and how wide a beam a full or an exact answer needs.
- `bruteforce.dfy`, `refinement.dfy`: the linear scan (`internal/index/bruteforce.go`) and the theorem that
  relates whole runs of the two indexes.
- `storage.dfy`, `node_spec.dfy`, `node.dfy`: the store as a map with a primary key, and the shard node that
  keeps store and index in step (`internal/storage/sqlite.go`, `internal/shard/node.go`).
- `write_protocol.dfy`, `server.dfy`, `replication.dfy`, `recovery.dfy`: replicated writes
  (`internal/shardpb/server.go`), first as functions on two node states, then as handlers over two nodes, then as
  interleaved runs of single steps, and what can still be written after failures.
- `sharding.dfy`, `docids.dfy`, `route.dfy`, `merge.dfy`, `partition.dfy`, `dimensions.dfy`, `coordinator.dfy`:
  hashing, generated ids, failover reads, the top-k merge, when many shards act as one map and one index, and the
  coordinator over in-process shards (`internal/models/shard.go`, `internal/coordinator/`).
- `results.dfy`, `sorting.dfy`, `permutations.dfy`, `topk.dfy`: outcome types, sorting, and what an exact top-k is.

## Modelling choices

- Scores are exact reals. The square root is a parameter of which only `IsSqrt` is known; levels drawn by the
  random generator are an arbitrary stream of naturals.
- Go's `sort` and `container/heap` appear as an insertion sort and a binary heap, but every caller relies only
  on their contracts (a sorted permutation, stable where the program sorts stably and it can be seen; some extremal
  element), so no result depends on how other ties fall.
- Strings are sequences of code points, over which the hash runs; their order is that of the bytes the program
  compares, since UTF-8 keeps it.
- A node's links, the index's node list and its id map are sequences and maps held in fields that the methods
  reassign, as the program reassigns slices and maps.
- The body of a long loop is a method of its own where the program has it inline: `Expand`, `Visit` and `Settle`
  belong to `searchLayer`; `ChooseLinks`, `LinkBack`, `ConnectLayer`, `LinkDown`, `LinkIn`, `AddNode` and `Descend` to
  the graph's `Insert` (and `Descend` to `Search`); `Complete` and `SendInsert` to the coordinator's `Insert`;
  `Gather`, `Ask` and `MergeSent` to its `Query`; `OpenShards` and `StartCoordinator` to `NewCoordinator`.
- The network decides the fate of every replica call: it may fail to connect, lose the request, lose the reply
  after the replica acted, or deliver.
- `overflowed` is a ghost field of the graph: the layers on which some list of links has been pruned. `hide`
  statements keep definitions out of proofs that do not need them.

## What the code does that its callers might not expect

- **A lost reply parts the nodes.** A write that is not acknowledged changes which articles the two nodes hold if
  and only if the replica applied it and the reply was lost (`WriteProtocol.InsertMovesStanding`,
  `WriteProtocol.DeleteMovesStanding`); at an idle id they differ exactly while such a change is outstanding
  (`Replication.NodesAgree`, `Replication.OutstandingIsUnheard`). After a lost insert the id is stuck: every insert
  of it is refused by the replica and every delete by the primary (`Replication.StrandedForever`); every other id
  can still be written (`Recovery.WritableUnlessStranded`).
- **A refused insert can leave a dimension behind.** It leaves both nodes as they were if and only if the primary
  refused it, or had settled a dimension before and the replica took nothing in a lost call
  (`WriteProtocol.FailedInsertLeavesPair`). So two empty nodes can end up on different dimensions without a single
  lost reply (`Recovery.DimensionsPart`), and then no insert of a new id is acknowledged
  (`WriteProtocol.InsertableIfDimensionsMeet`) until one of them is empty and restarts.
- **Reads that fail over can be wrong both ways.** Served by the replica, a get of an idle id agrees with the
  acknowledged history if and only if no change of the id is outstanding (`Route.GetSeesAcknowledgedWrites`): after
  a lost insert it shows an article that was never acknowledged, after a lost delete it misses one that was
  (`Route.LostReplyShowsOnFailover`, `Route.LostReplyHidesOnFailover`).
- **Tombstones use up the beam.** On graphs whose layer 0 was never pruned, an answer is sure to hold min(k, live)
  hits if and only if that is none, or the beam is at least min(k, live) + tombstones wide (`BeamWidths.ExactWidth`),
  and sure to be an exact top-k if and only if it is also no more than one short of the whole graph
  (`BeamWidths.ExactWidthOfExactness`). The program gets to the graphs on which narrower beams fail
  (`BeamWidths.ShortSearch`, `BeamWidths.InexactSearch`).
- **Shards need not agree on a dimension.** Each settles its own. Two shards can take articles of different
  dimensions, after which no query at all succeeds (`Dimensions.TwoDimensionsStopQueries`); some query succeeds if
  and only if all shards that settled on a dimension settled on the same (`Dimensions.AnsweredIffOneDimension`).
- **The two indexes differ on one error.** Once every record is deleted the graph still refuses a query of the
  wrong dimension, the linear scan answers with nothing (`Refinement.SameAnswers`, `Refinement.ErrorsDiffer`).
- **Reusing a live id breaks the id map.** Neither index checks for it; the one-to-one correspondence survives an
  insert exactly if the id was not live (`Hnsw.BijectionAfterAppend`).
- **A restart can change the dimension.** It goes unnoticed exactly if some article is stored or no dimension was
  settled (`NodeSpec.RestartUnnoticed`).
- **A supplied id can collide with a generated one.** It does, once the counter gets there, if and only if it is
  printed like a generated id from a number the counter has yet to reach (`DocIds.SuppliedIdCollides`).
- **Another number of shards hides articles.** A data directory reopened with another number of shards yields an
  article under its id if and only if the id hashes to the same shard under both (`Partition.FoundAfterReopening`).

## Model

| member | source | states |
|---|---|---|
| Vectors.VectorNorm | internal/index/index.go:35-50 | The norm is the positive root of the sum of squares; the two errors are exactly the empty and the all-zero vector. |
| Vectors.CosineSimilarity | internal/index/index.go:27-33 | The scoring loop computes the dot product over the product of the norms, for a second vector at least as long as the first: the score times that product is the dot product. |
| Vectors.DotAppend | internal/index/index.go:27-33 | The dot product adds up the products of the coordinates at equal positions; what the second vector has past the end of the first does not matter. |
| Vectors.CosineSymmetric | internal/index/index.go:27-33 | Similarity does not depend on which vector is the query. |
| Vectors.CosineSelf | internal/index/index.go:27-50 | A vector with its own norm has similarity 1 to itself. |
| IndexSpec.InsertFaultExactly | internal/index/hnsw.go:91-107 | Which id or vector is refused with which error: empty id, empty vector, all zeros, another dimension, in that order. |
| Sorting.SortSlice | internal/index/hnsw.go:373-375 | The result is a permutation in which nothing precedes a smaller element. |
| Heaps.CandidateHeap.Push | internal/index/hnsw.go:402-426 | Keeps the heap order under either comparison and adds one element. |
| Heaps.CandidateHeap.Pop | internal/index/hnsw.go:402-426 | Removes some element that no other precedes and keeps the heap order. |
| Heaps.CandidateHeap.RootIsExtremal | internal/index/hnsw.go:400-417 | In heap order nothing precedes the first element, which the search reads directly. |
| Hnsw.HnswIndex.constructor | internal/index/hnsw.go:54-81 | An empty valid index; non-positive settings take the defaults 16, 200 and 50. |
| Hnsw.HnswIndex.SetEfSearch | internal/index/hnsw.go:83-89 | Only a positive width replaces the old one. |
| Hnsw.HnswIndex.GreedyClosest | internal/index/hnsw.go:265-283 | Terminates on any graph, cycles included: from the start it moves along a trail, each time to the best link, the earliest of equally good ones, and ends at a node none of whose links is better. |
| Graph.AscendsExactly | internal/index/hnsw.go:270-277 | A move goes to a link that beats the node, that no other link beats and no earlier link equals. |
| Graph.ClimbUnique | internal/index/hnsw.go:265-283 | A climb from a node has one end. |
| Graph.ClimbFacts | internal/index/hnsw.go:265-283 | A climb leads along the layer to a node no worse than its start and than any of its links. |
| Hnsw.HnswIndex.SearchLayer | internal/index/hnsw.go:285-327 | For any graph and width: distinct answers, best first, exactly the best min(ef, visited) of the visited nodes; all reached from the entry, each found from an earlier node that was among the best ef when it was visited; every link of an answer followed; so the answers are a closed local optimum, the best of them no worse than the entry; stopping early takes more than ef visited nodes. |
| Beams.BeamIsLocalOptimum | internal/index/hnsw.go:298-326 | A link from an answer leads to another answer, or the beam is full and the link leads to a node no better than the worst answer. |
| Beams.BeamLeadsAhead | internal/index/hnsw.go:298-326 | A beam is never empty and its best answer is no worse than the entry point. |
| Beams.BeamIsComplete | internal/index/hnsw.go:298-326 | If at most ef nodes can be reached, or the beam did not fill up, the answers are exactly the nodes that can be reached. |
| Beams.VisitReplaces | internal/index/hnsw.go:312-318 | Pushing a better neighbour and dropping a worst result keeps the results the best of all nodes seen. |
| Beams.VisitSkips | internal/index/hnsw.go:312-318 | Leaving out a neighbour no better than the worst of full results keeps them the best of all nodes seen. |
| Hnsw.HnswIndex.SelectNeighbors | internal/index/hnsw.go:340-360 | The result stands at rising positions of the candidates that make a diverse set: the loop with its two breaks keeps every candidate that such a set keeps, in order, and no other. |
| Selection.KeptIsDiverse | internal/index/hnsw.go:329-360 | At most m are kept; no kept candidate is more similar to an earlier kept one than to the query; a candidate is dropped only for that reason or because m were kept before it. |
| Selection.DiverseUnique | internal/index/hnsw.go:329-360 | Those conditions determine the selection. |
| Selection.DiverseMeans | internal/index/hnsw.go:329-360 | A diverse set in terms of similarities alone: at most m; between two kept ones the later is no more similar to the earlier than to the query; one left out is more similar to an earlier kept one, or m were kept before it. |
| Selection.SelectedExactly | internal/index/hnsw.go:340-360 | A list is the selection if and only if it is what stands at rising positions that make a diverse set. |
| Selection.SelectedFacts | internal/index/hnsw.go:340-360 | The selection is a duplicate-free part of the candidates and leads with the first of them. |
| Hnsw.HnswIndex.PruneConnections | internal/index/hnsw.go:362-382 | The result is the diverse choice, of at most the cap, from the node's own links ranked by similarity to it. |
| Selection.PrunedExactly | internal/index/hnsw.go:362-382 | A list is a pruning of the links if and only if it is a diverse choice from some ranking of them by similarity to their node. |
| Selection.PrunedFacts | internal/index/hnsw.go:362-382 | Pruning keeps a duplicate-free, non-empty part of the links within the cap, among them a nearest one. |
| Hnsw.HnswIndex.LinkBack | internal/index/hnsw.go:148-163 | The new node gets the chosen links, each chosen node its old links and the new one, pruned if over the cap; every other list of every layer stays. |
| Hnsw.HnswIndex.ChooseLinks | internal/index/hnsw.go:141-151 | The links chosen on a layer are the selection from a beam search there; the new node is never among them. |
| Hnsw.HnswIndex.ConnectLayer | internal/index/hnsw.go:141-168 | One round keeps the invariant of all layers while the insert is half done, changes only its layer, never meets the new node, and hands on a node no worse than it was given. |
| Hnsw.HnswIndex.Descend | internal/index/hnsw.go:132-134 | One climb on each layer from the top one to the lowest, in that order, each from where the one above it stopped; the end has no better link on the lowest; every node handed down exists on the next layer and is no worse than the first, and the node being inserted is never met. |
| Graph.DescentExactly | internal/index/hnsw.go:211-214 | A descent between two nodes is a list of stops, one more than layers, with a climb on the right layer from each to the next. |
| Graph.DescentUnique | internal/index/hnsw.go:211-214 | A descent has one end. |
| Graph.DescentPeak | internal/index/hnsw.go:211-214 | It ends at a node none of whose links on the last layer is better. |
| Graph.LayerLinkedExactly | internal/index/hnsw.go:144-167 | A linking round in terms of the lists: the new node's is a diverse choice among the answers of a beam of width efConstruction; each node on it gets the new one as its last link and, beyond the cap, is pruned to a diverse choice of its own; all others stay. |
| Graph.LinkedDownExactly | internal/index/hnsw.go:141-168 | The layer loop is one round per layer from the top one down, each entered at the best answer of the round before it. |
| Graph.PlacedExactly | internal/index/hnsw.go:130-168 | A whole insertion is such climbs above the node's level, then such rounds from there down to layer 0, with cap 2m on layer 0 and m above, the first entered where the climbs stopped; layers above stay. |
| Layers.LinkedKeepsInv | internal/index/hnsw.go:146-163 | Linking a new node keeps a layer's lists well formed and without dead ends; unless a list overflows it also keeps the links symmetric and the layer in one piece, and an overflow takes more than cap + 1 members. |
| Layers.LinkedHasNoDeadEnds | internal/index/hnsw.go:146-163 | In a layer of two or more nodes every node keeps a link to follow. |
| Layers.LinkedConnects | internal/index/hnsw.go:146-163 | While no list overflows, any two nodes of the layer stay joined by a path. |
| Graph.LinkingKeepsInv | internal/index/hnsw.go:141-168 | A linking round on one layer keeps the invariant of every layer, the new node counting as a member only of the layers already linked. |
| Hnsw.HnswIndex.Insert | internal/index/hnsw.go:91-176 | Refuses exactly an empty id, a bad vector or a wrong dimension, changing nothing; otherwise appends one node with its norm and drawn level, links it as the descent, search, selection and pruning prescribe on every layer, makes it the entry point exactly if its level is the greatest so far, keeps the whole invariant, and records exactly the layers that overflow. |
| Hnsw.HnswIndex.AddNode | internal/index/hnsw.go:120-175 | The entry point moves to the new node exactly if its level is the greatest so far. |
| Hnsw.BijectionAfterAppend | internal/index/hnsw.go:120-122 | After an insert ids and live nodes still correspond one to one if and only if the id was not live. |
| Hnsw.LinksAreWellFormed | internal/index/hnsw.go:46-52 | Every list of every node: one per level, no repetition or self-link, targets in range and present on the layer, within m or 2m, not empty unless the node is alone there. |
| Hnsw.UnprunedLayerIsWhole | internal/index/hnsw.go:144-163 | Until a list of a layer overflows, and always while it has at most cap + 1 nodes, its links are symmetric and join all its nodes. |
| Hnsw.HnswIndex.Delete | internal/index/hnsw.go:178-189 | Marks the node of a live id and forgets the id; links stay; under the one-to-one correspondence it removes exactly that record from the live list. |
| Hnsw.HnswIndex.Search | internal/index/hnsw.go:191-237 | Errors in order; otherwise the first k live hits of a beam entered through the descent: on any graph at most k hits of different live records with their true scores, best first; an exact top-k while layer 0 has not overflowed and efSearch or k is at least the number of nodes; min(k, live) hits if efSearch or k is at least that plus the tombstones. |
| Hnsw.HnswIndex.BeamWidth | internal/index/hnsw.go:216-219 | The width of a search is no less than efSearch or k, and is one of them. |
| Answers.AnswerMeans | internal/index/hnsw.go:211-236 | An answer in terms of the graph: stops of a descent to layer 1, a beam search of layer 0 from the last, and what stands at rising positions of the beam, leaving out only tombstones and what comes after k hits. |
| Answers.AnswerIsPart | internal/index/hnsw.go:211-236 | On any graph and for any width an answer is part of the hits that a full scan would make. |
| Hnsw.HnswIndex.TakeLive | internal/index/hnsw.go:222-236 | The result loop keeps the first k candidates that are not tombstones, in order. |
| Hnsw.HnswIndex.List | internal/index/hnsw.go:239-255 | Lists the live records in insertion order. |
| Answers.AnswerIsExact | internal/index/hnsw.go:211-236 | The answer is an exact top-k of the live records while layer 0 has not overflowed and the beam is as wide as the graph. |
| Answers.AnswerIsFull | internal/index/hnsw.go:216-236 | A beam of min(k, live) + tombstones returns min(k, live) hits on such a layer. |
| BeamWidths.ExactWidth | internal/index/hnsw.go:216-236 | For all numbers of live records and tombstones, all k, m and widths: every answer on every such unpruned graph holds min(k, live) hits if and only if that is zero or the width is at least that plus the tombstones. |
| BeamWidths.ExactWidthOfExactness | internal/index/hnsw.go:216-236 | Likewise every answer is an exact top-k if and only if there is nothing to find, or the width is at least min(k, live) plus the tombstones and at least the number of nodes less one. |
| BeamWidths.NearlyAllIsExact | internal/index/hnsw.go:285-327 | A beam one node short of an unpruned graph has still visited all of it, and leaves out only a worst node. |
| BeamWidths.ReachChain | internal/index/hnsw.go:91-189 | For any settings and any numbers of live records and tombstones a run of inserts, all on level 0, and deletes ends in the chain on which narrow beams fail. |
| BeamWidths.ShortSearch | internal/index/hnsw.go:91-236 | On that run a search is full if and only if efSearch or k, efSearch being the configured one or 50, has room for the hits and all the tombstones. |
| BeamWidths.InexactSearch | internal/index/hnsw.go:91-236 | On a like run a search whose efSearch and k are both short of the graph by two or more misses the best record. |
| Chains.BuildChain | internal/index/hnsw.go:130-176 | Points that fall away from each other, inserted in order on level 0, are linked in a chain: each new node's search ends at the last one, which crowds out all others. |
| Chains.ChainGrows | internal/index/hnsw.go:141-168 | What one insertion is proved to do to such a chain makes it exactly the next longer one. |
| Chains.DeleteFront | internal/index/hnsw.go:178-189 | Deleting the first ids leaves the chain with tombstones in front. |
| Circle.CircleFallsAway | internal/index/hnsw.go:346-356 | There are such points for every number: on a circle, at rational distances, the last possibly lifted out of the plane. |
| BeamWidths.ChainAnswer | internal/index/hnsw.go:220-226 | On a chain with the tombstones in front, every answer of a narrower beam holds only min(k, width - tombstones) hits. |
| Graph.LiveAfterTombstone | internal/index/hnsw.go:186-187 | Marking the only live node with an id removes its record from the live list and keeps the order of the rest. |
| BruteForce.BruteForceIndex.Insert | internal/index/bruteforce.go:27-57 | Same refusals as the graph; otherwise the record is appended, numbered by the current length. |
| BruteForce.BruteForceIndex.Delete | internal/index/bruteforce.go:59-70 | Removes the first record with the id, keeping the others and their numbers, or reports it missing. |
| BruteForce.BruteForceIndex.Search | internal/index/bruteforce.go:72-93 | Errors in order, an empty index answering before the dimension check; otherwise an exact top-k of the stored records. |
| BruteForce.BruteForceIndex.SearchBruteForceLocked | internal/index/bruteforce.go:153-188 | The first k of the stable ranking of all records by score and, on ties, by order number. |
| BruteForce.ScanIsDeterministic | internal/index/bruteforce.go:173-187 | A scan has only one answer, ties in score and order number included. |
| BruteForce.ScanPositions | internal/index/bruteforce.go:153-188 | A scan in terms of the entries: the first k of all positions, taken by falling similarity, then rising order number, then rising position. |
| Sorting.StableUnique | internal/index/bruteforce.go:173-178 | A stable sort has only one result. |
| BruteForce.ScanIsExact | internal/index/bruteforce.go:153-188 | Such a ranking cut after k is an exact top-k. |
| BruteForce.BruteForceIndex.List | internal/index/bruteforce.go:95-108 | Lists the records in their order. |
| TopK.TopKScoresUnique | internal/index/bruteforce.go:173-187 | Two exact top-k answers of the same hits have the same scores, position by position. |
| TopK.TopKUnique | internal/index/bruteforce.go:173-187 | Without ties there is only one exact top-k answer. |
| Refinement.RunGraph | internal/index/hnsw.go:91-189 | Over any run that never inserts a live id, the graph's outcomes and records are those of the index contract, and each accepted insert makes one node. |
| Refinement.RunScan | internal/index/bruteforce.go:27-70 | Over any run the scan's outcomes and records are those of the index contract. |
| Refinement.RunKeepsIdsDistinct | internal/index/index.go:20-25 | Runs that never insert a live id keep the ids of the records distinct. |
| Refinement.SmallGraphNeverPruned | internal/index/hnsw.go:155-161 | A graph of at most 2m + 1 nodes, tombstones included, has pruned no list of layer 0. |
| Refinement.SameAnswers | internal/index/hnsw.go:91-255 | After the same run from empty both indexes have accepted and refused the same calls and list the same records; queries fail alike but for one case stated exactly; on at most 2m + 1 accepted inserts, with efSearch or k no smaller than their number, the scores are equal, and without ties the answers are. |
| Refinement.ErrorsDiffer | internal/index/hnsw.go:200-209 | A run after which only the graph refuses a query. |
| Storage.Store.Insert | internal/storage/sqlite.go:55-76 | Fails exactly on a taken primary key. |
| Storage.Store.GetAll | internal/storage/sqlite.go:116-153 | Every row once, in some order. |
| ShardNode.Node.InsertArticle | internal/shard/node.go:76-91 | Store first, then index; a refusal by either leaves the node's state unchanged; store and index stay in step. |
| ShardNode.Node.DeleteArticle | internal/shard/node.go:97-112 | Removes a stored article from both or reports it missing; the index never disagrees. |
| ShardNode.Node.SearchSimilar | internal/shard/node.go:119-141 | Refused exactly for a bad vector or a wrong dimension; otherwise one article per index hit, none dropped for a missing row, at most k different articles with their true scores, best first; an exact index answer gives an exact answer over the stored articles. |
| ShardNode.Node.HydrateIndex | internal/shard/node.go:143-155 | Rebuilding the index fails exactly if the store holds an article with an empty id or bad vector or two of different dimensions; otherwise store and index end up in step. |
| ShardNode.OpenNode | internal/shard/node.go:29-58 | A node opened over a store serves exactly the stored articles. |
| ShardNode.RestartSucceeds | internal/shard/node.go:143-155 | What a valid node has stored can always be rebuilt. |
| NodeSpec.RunStaysOk | internal/shard/node.go:76-112 | Over all runs, restarts included, stored vectors share one dimension and none is zero. |
| NodeSpec.InsertRefusalExactly | internal/shard/node.go:76-91 | Which article is refused with which error: a taken id, then what the index refuses. |
| NodeSpec.QueryRefusalExactly | internal/shard/node.go:119-127 | Which query is refused with which error: empty, all zeros, another dimension than the one settled on. |
| NodeSpec.RestartUnnoticed | internal/shard/node.go:143-155 | A restart changes which articles are refused if and only if nothing is stored and a dimension was settled. |
| NodeSpec.DeleteUndoesInsert | internal/shard/node.go:84-88 | An accepted insert can be taken back, leaving the articles as they were. |
| NodeSpec.InsertUndoesDelete | internal/shardpb/server.go:107-111 | An article just deleted is one the node accepts again, restoring its state exactly. |
| NodeSpec.LoadedTopK | internal/shard/node.go:128-140 | Loading articles for an exact top-k of records gives an exact top-k of articles. |
| ShardServer.Server.Insert | internal/shardpb/server.go:31-58 | The handler's effect on both nodes and its reply, for every fate of the replica call; the rollback always succeeds. |
| ShardServer.Server.Delete | internal/shardpb/server.go:74-116 | Likewise for deletes: a replica that lacks the article counts as success, any other error puts the primary's article back, which always succeeds. |
| ShardServer.Server.Get | internal/shardpb/server.go:60-72 | The stored article, or not found, or an invalid empty id. |
| WriteProtocol.InsertCaseByCase | internal/shardpb/server.go:31-58 | Every outcome of an insert with its reply code and both nodes' articles and dimensions: a refusal by either node is an internal error, a failed call is reported with its own code (unavailable if it never connected) and makes the primary give the article up. |
| WriteProtocol.DeleteCaseByCase | internal/shardpb/server.go:74-116 | Every outcome of a delete likewise: invalid for an empty id, not found if the primary lacks it, the call's own code if it fails, and then the primary has the article back. |
| WriteProtocol.InsertMovesStanding | internal/shardpb/server.go:31-58 | An insert is acknowledged exactly if both nodes accept it and the call is delivered, and then goes from neither node to both; unacknowledged it changes which copies the nodes hold if and only if both would accept it and the reply is lost, and leaves no trace at all if and only if the primary refused it, or had settled a dimension and the replica took nothing unheard. Other ids stay. |
| WriteProtocol.FailedInsertLeavesPair | internal/shardpb/server.go:48-55 | When an unacknowledged insert leaves both nodes as they were, and that short of a lost reply nothing but the dimension the primary settled can remain. |
| WriteProtocol.InsertableIfDimensionsMeet | internal/shardpb/server.go:31-58 | Some article with an id held by neither node can be inserted if and only if the nodes' dimensions are equal or one of them is not settled. |
| WriteProtocol.DeleteMovesStanding | internal/shardpb/server.go:74-116 | A delete is acknowledged exactly if the primary has the id and the call is delivered, and then leaves it on neither node; unacknowledged it changes the standing, or anything else, if and only if both nodes have the id and the reply is lost. Other ids stay. |
| Replication.RunKeepsInv | internal/shardpb/server.go:31-116 | The invariant of every reachable state of interleaved writes and restarts, for every network. |
| Replication.PrimaryIsAcknowledgedHistory | internal/shardpb/server.go:31-116 | At rest the primary holds exactly what the acknowledged writes amount to, whatever the network did. |
| Replication.FoldIsLastWrite | internal/shardpb/server.go:31-116 | What acknowledged writes amount to under an id is decided by the last of them on it. |
| Replication.RollbackSucceeds | internal/shardpb/server.go:48-55 | Every rollback is accepted and returns the id to what the acknowledged history says. |
| Replication.AcknowledgedOnBoth | internal/shardpb/server.go:57-57 | An acknowledged insert leaves the same article on both nodes, an acknowledged delete leaves it on neither. |
| Replication.NodesAgree | internal/shardpb/server.go:48-55 | The nodes differ at an idle id if and only if it is in the ledger of changes the primary did not hear of, and then one of them lacks it. |
| Replication.OutstandingIsUnheard | internal/shardpb/server.go:48-55 | The ledger read off the run: a call changed the replica's copy of the id, its reply was lost, and no write on the id was acknowledged since. |
| Replication.ReplicasEqualAtRest | internal/shardpb/server.go:31-116 | If failed replica calls had no effect, both nodes hold the acknowledged history at rest. |
| Replication.DeleteRepairs | internal/shardpb/server.go:105-113 | An acknowledged delete of an article only the primary holds removes the difference. |
| Replication.StrandedForever | internal/shardpb/server.go:48-55 | An id held by the replica alone is never written again: no later write on it is acknowledged and the replica keeps it. |
| Recovery.WritableUnlessStranded | internal/shardpb/server.go:31-116 | From any state at rest some continuation acknowledges a write on a non-empty id if and only if the id is not held by the replica alone. |
| Recovery.DimensionsPart | internal/shardpb/server.go:48-55 | A run without a lost reply that leaves two empty nodes on different dimensions, where no insert is acknowledged. |
| Replication.LostReplyStrands | internal/shardpb/server.go:48-55 | One insert accepted by both nodes whose reply is lost leads there. |
| Replication.InsertIsItsSteps | internal/shardpb/server.go:31-58 | The three steps run without interruption are the handler's insert. |
| Replication.DeleteIsItsSteps | internal/shardpb/server.go:74-116 | The three steps run without interruption are the handler's delete. |
| Route.ReplicaOnlyOnOutage | internal/coordinator/route.go:87-119 | A routed get case by case over the error codes: with the primary up its answer is final, not found included; the replica is asked exactly if the primary is down with Unavailable or DeadlineExceeded; InvalidArgument, Internal and other codes are final. |
| Route.FailsOverExactly | internal/coordinator/route.go:87-119 | For any read: the second endpoint's answer is given exactly after one of those two errors of the first. |
| Route.GetSeesAcknowledgedWrites | internal/coordinator/route.go:43-47 | A get of an id that is not being written succeeds exactly if the primary is up, or it is down with Unavailable or DeadlineExceeded and the replica is up; what it returns is the acknowledged history if and only if the primary served it or no change of the id is outstanding. |
| Route.ListSeesAcknowledgedWrites | internal/coordinator/route.go:59-63 | The same for lists at rest: from the replica a listing of the acknowledged history if and only if nothing is outstanding on any id. |
| Route.ReadsSeeThroughFailover | internal/coordinator/route.go:87-119 | When failed replica calls have no effect nothing is outstanding and failover is transparent. |
| Route.LostReplyShowsOnFailover | internal/coordinator/route.go:87-108 | After a lost reply on an insert a read that fails over returns an article that was never acknowledged. |
| Route.LostReplyHidesOnFailover | internal/coordinator/route.go:87-108 | After a lost reply on a delete a read that fails over finds nothing although the acknowledged history holds the article. |
| Sharding.HashString | internal/models/shard.go:41-50 | The wrapping loop computes the 64-bit value of the base-31 polynomial and then its magnitude, which stays negative only at the least integer. |
| Sharding.HashExactly | internal/models/shard.go:41-50 | A number is the hash if and only if it is the magnitude of the 64-bit residue of the polynomial, or that residue itself where it is the least integer. |
| Sharding.PolyOfCons | internal/models/shard.go:43-45 | The first character of a string counts with the highest power of 31. |
| Sharding.ShardExactly | internal/models/shard.go:33-38 | The shard is the number in range that differs from the hash, negative or not, by whole multiples of the number of shards. |
| Sharding.ShardMap.constructor | internal/models/shard.go:15-27 | One healthy entry for every shard number. |
| Sharding.ShardMap.GetShardForID | internal/models/shard.go:29-39 | The shard is the true residue of the hash and lies in range for every string. |
| Sharding.HashCanBeNegative | internal/models/shard.go:34-37 | An id whose hash is the least integer, so that the adjustment for a negative remainder is needed. |
| DocIds.SuffixOfDocId | internal/coordinator/coordinator.go:109-113 | Parsing the end of a generated id gives back its number. |
| DocIds.DecimalDenotes | internal/coordinator/coordinator.go:113-133 | Decimal printing yields digits that denote the number. |
| DocIds.DecimalDigits | internal/coordinator/coordinator.go:131-134 | Printing digit by digit: the i-th from the right is that of the i-th power of ten, and no number but 0 begins with a zero. |
| DocIds.ValueDigits | internal/coordinator/coordinator.go:113-117 | Parsing likewise: each digit of a string is that of its power of ten in the number denoted. |
| DocIds.GeneratedIsFresh | internal/coordinator/coordinator.go:131-134 | While the ids ahead of the counter are free the next one is new, and they stay free. |
| DocIds.AllNewExactly | internal/coordinator/coordinator.go:131-134 | However many ids are generated in a row, their articles stored or not: all are new when their turn comes if and only if none of them was taken at the outset. |
| DocIds.SuppliedKeepsClear | internal/coordinator/coordinator.go:131-135 | A supplied id leaves the ids still to be generated free if and only if it is not one of them. |
| DocIds.AheadIsGeneratedLater | internal/coordinator/coordinator.go:109-134 | Whether an id is still to be generated can be told by parsing it. |
| DocIds.BoundIsClear | internal/coordinator/coordinator.go:101-124 | A counter that bounds the stored numbers leaves the ids ahead free; the converse fails for "doc-07". |
| DocIds.SuppliedIdCollides | internal/coordinator/coordinator.go:131-135 | After a supplied id some generated one collides if and only if the supplied one is printed from a number ahead of the counter and the counter gets there. |
| DocIds.MaxSuffixIsLeastBound | internal/coordinator/coordinator.go:101-124 | The start-up scan yields a bound for all stored ids, attained unless zero. |
| DocIds.RunGeneratesFreshIds | internal/coordinator/coordinator.go:101-135 | Over whole runs with deletions and restarts every generated id differs from every stored one. |
| Merge.MergeSearchResults | internal/coordinator/coordinator.go:264-288 | At most k hits with different ids, by falling score and, on ties, ids in dictionary order; each the earliest, by shard and position, of the best hits of its id; and every hit sent is matched by one of its id at least as good, or k others rank ahead of it. |
| Merge.StringLessExactly | internal/coordinator/coordinator.go:278-283 | Ids are compared as in a dictionary: at the first place where they part, the smaller one ends or has the smaller character. |
| Merge.MergePositions | internal/coordinator/coordinator.go:264-288 | What a map of best hits, ranked and cut, means in terms of the shards' lists, position by position. |
| Merge.MergeIsDeterministic | internal/coordinator/coordinator.go:274-287 | The merged list is determined by the shards' answers alone; the order in which the map is walked does not show. |
| Merge.MergeIsExact | internal/coordinator/coordinator.go:198-224 | If every shard answers with an exact top-k and ids are distinct, the merge is an exact top-k of everything. |
| Merge.MergeOfSent | internal/coordinator/coordinator.go:264-288 | Whatever the shards leave out, the merge is an exact top-k of what they sent. |
| Merge.TopKOfPart | internal/coordinator/coordinator.go:264-288 | A top-k of what the shards sent is a top-k of what they hold, because whatever was not sent is matched by k hits that were. |
| Partition.PutInUnion | internal/coordinator/coordinator.go:137-147 | Writing an article on the shard of its id writes it in the one map and changes nothing else. |
| Partition.FindInUnion | internal/coordinator/coordinator.go:157-161 | An id is stored somewhere exactly if it is on its own shard. |
| Partition.HitsOfUnion | internal/coordinator/coordinator.go:198-218 | The shards' hits add up to the hits of the one map. |
| Partition.GatherIsExact | internal/coordinator/coordinator.go:182-225 | Merging exact shard answers gives an exact top-k of the one map. |
| Partition.GatherIsPart | internal/coordinator/coordinator.go:182-225 | Merging hits of the shards' own articles gives hits of the one map, none twice, and the best k of what was sent. |
| Partition.FoundAfterReopening | internal/coordinator/coordinator.go:45-66 | Reopened with another number of shards, an article is found under its id if and only if the id hashes to the same shard under both. |
| Dimensions.AcceptsLikeOneMap | internal/shard/node.go:76-91 | While the shards agree on a dimension, a well-formed article of that dimension is accepted exactly if its id is not taken. |
| Dimensions.AgreementAfterPut | internal/index/hnsw.go:102-107 | After an accepted insert the shards still agree if and only if its vector has the common dimension. |
| Dimensions.AllAnswerExactly | internal/coordinator/coordinator.go:198-222 | Every shard answers a query exactly if it is not all zeros and no shard has settled on another dimension. |
| Dimensions.AnsweredIffOneDimension | internal/coordinator/coordinator.go:198-222 | Some query is answered by all shards if and only if they agree on a dimension. |
| Dimensions.AnswersLikeOneIndex | internal/coordinator/coordinator.go:198-222 | Shards that agree answer exactly the well-formed queries of their dimension. |
| Dimensions.TwoDimensionsStopQueries | internal/coordinator/coordinator.go:126-151 | Two inserts on two shards, accepted although one index would refuse the second, after which no query is answered by both. |
| Coordination.Coordinator.InitDocIDCounter | internal/coordinator/coordinator.go:101-124 | The counter becomes the largest number at the end of a stored generated-looking id. |
| Coordination.Coordinator.Insert | internal/coordinator/coordinator.go:126-151 | One insert into one map that refuses a taken id; while the shards agree on a dimension, a well-formed article of it is accepted exactly if its id is not taken, and they go on agreeing exactly if what they accept has it; a refusal changes nothing but the counter; a generated id is new while the ids ahead are free, and these stay free exactly if a supplied id is not among them. |
| Coordination.CompletedKeeps | internal/coordinator/coordinator.go:131-141 | What the caller supplied is kept: an id that is not empty, a creation time that is set, every other field; a missing id becomes "doc-" and the counter's next value in decimal, wrapping at 64 bits. |
| Coordination.Coordinator.Get | internal/coordinator/coordinator.go:153-169 | A lookup in the one map. |
| Coordination.Coordinator.Delete | internal/coordinator/coordinator.go:171-180 | Removes the id from the one map or reports it missing. |
| Coordination.Coordinator.Query | internal/coordinator/coordinator.go:182-225 | Succeeds exactly if every shard answers, else carries the error of one that does not; the result is the merge of one answer of each shard's index: the best k of all they sent, different stored articles with their true scores, by falling score and on ties ids in dictionary order; an exact top-k of the one map if every shard's layer 0 was never pruned and efSearch or k reaches the size of its graph. |
| Coordination.OpenCoordinator | internal/coordinator/coordinator.go:40-99 | Opening a node per store and setting the counter succeeds exactly if every store can be rebuilt, and the coordinator then serves what the stores hold. |
| Coordination.Coordinator.ListArticles | internal/coordinator/coordinator.go:227-252 | Every stored article once, by shard number and on a shard by id in dictionary order. |

## Left out

- Floating-point rounding, NaN and infinities, and the distribution of levels: scores are reals and levels are arbitrary.
- SQLite faults, JSON encoding of vectors, timestamps and file paths: the store is a map that does not fail.
- gRPC connections, generated protobuf code and the narrowing to 32-bit integers: only the outcome of a call is modelled.
- Mutexes and goroutines: a node call is one step, and the fan-out of a query visits the shards in turn.
- Overlapping writes on one id: the program has no lock per id, and the agreement of the two nodes needs them in order.
- Crashes in the middle of a replicated write: a primary restarts only between writes.
- Coordination.Coordinator: only in-process shards; the pair of a primary and a replica behind a route is the subject of `replication.dfy` and `route.dfy`.
- Hnsw.HnswIndex.Search: says nothing about recall once layer 0 has overflowed beyond the account of the beam; recall is measured, not proved.
- ShardNode.Node: runs over the graph index, the default; a node over the linear scan is not modelled.
- Coordination.OpenCoordinator: expects the stores of a directory written with the same number of shards; `Partition.FoundAfterReopening` says what becomes of another number.
- The text an article is indexed under is a function of the article that is not looked into.
- `SearchRecordsBruteForce`, `closeAll`, `Close`, configuration, embedding, article fetching and the command line.
