# HNSW index, modelled and verified in Dafny

This project models the Hierarchical Navigable Small World (HNSW) index of
`main.cpp`, class `HNSW`. HNSW is the layered proximity graph of Malkov and
Yashunin. The model covers:

- the counted L2 distance;
- the greedy best-first layer search;
- the simple and the heuristic neighbour selections;
- insertion, with bidirectional connection and degree shrinking;
- the graph build with its per-layer membership lists;
- the k-nearest-neighbour query;
- the exact brute-force search.

Every `Node*` of the program becomes an index into one node arena, a
`seq<Node>`. Each `Node` holds its vector, its level and one neighbour list
per layer `0..level`. The index itself is the class `HnswIndex.Hnsw`:

- `const` fields hold the configuration (`m`, `m_max`, `m_max_0`,
  `ef_construction` and the selection mode);
- `var` fields hold the state the program updates in place: the arena, the
  entry point, the layer lists `graph`, the last build input `data` and the
  distance counter.

A `std::priority_queue<std::pair<float, Node*>>` becomes a sequence kept in
descending lexicographic order of (key, node index). Its head is the heap's
top, `push` inserts in order and `pop` drops the head (module `PQueue`). The
pure modules hold the specifications the methods are proved against:

- `Arena`: store well-formedness, reachability and layer membership;
- `LayerSearch`: the layer search's loop invariant and result;
- `Selection`: top-k filters, the heuristic's scan and the shrink step;
- `Insertion`: what one insertion leaves in every layer.

Two invariants hold throughout:

- `Arena.WellFormed`: every node has exactly `level + 1` neighbour lists, and
  every reference at layer `l` names a node of level at least `l`. This is
  what makes `c->neighbors[lc]` and `e->neighbors[lc]` safe to index.
- `HnswIndex.Hnsw.Valid`: the entry point is a node of maximum level, and
  `graph[l]` is exactly the nodes of level `>= l`, in insertion order.

Where the program's behaviour is surprising, the model reproduces it:

- **Layer search results come nearest first.** `search_layer` returns a
  queue keyed by negated distance, so its top is the nearest node. `insert`
  and `knn_search` consume it in that order.
- **The layer search stops early.** It stops as soon as the nearest
  unexplored candidate is farther than the farthest kept result, whether or
  not the result list is full.
- **The heuristic's diversity test never rejects.** The key it compares
  against is a negated distance, so it is never positive. The heuristic
  therefore returns the pool's first `min(m, |pool|)` entries, nearest first
  (`Selection.ScanAcceptsAll`).
- **A heuristic shrink can make a node its own neighbour.** The pool is
  extended only from the list's members and seeded only with them, so `e`
  can enter its own pool through `q`'s list (`Selection.SelfPooled`). Its
  entry has key zero, the largest a negated distance can have, so the
  pool's head is at distance zero from `e` and is taken first
  (`Selection.SelfHeadsPool`).
- **The simple selection over a list comes farthest first.** So does the
  brute-force search, because both drain a bounded max-heap on distance.

Compared with the published algorithm of Malkov and Yashunin, the code
differs in two ways, and the model follows the code:

- **Heuristic test.** The published heuristic accepts a candidate only when
  it is nearer to the query than to every neighbour accepted so far, so it
  can reject. The code compares against a negated distance, so it cannot.
- **Result order.** The published algorithms return the nearest elements
  without fixing an order. The code fixes one: `knn_search` returns its
  results nearest first, while the simple selection over a list and the
  brute-force search return theirs farthest first.

The layer search's stop test is the published one: it does not check that
the result list is full.

## Model

| member | source | states |
|---|---|---|
| Base.SqDistNonNegative | main.cpp:97-101 | a distance is never negative |
| Base.SqDistSelf | main.cpp:92-102 | a vector is at distance zero from itself |
| HnswIndex.Hnsw.constructor | main.cpp:126-137 | the configuration is stored; the index starts empty with no entry point, a zero counter, and is `Valid` |
| HnswIndex.Hnsw.GetDistanceCount | main.cpp:143-145 | returns the counter |
| HnswIndex.Hnsw.SetDistanceCount | main.cpp:151-153 | the counter becomes the given value; nothing else changes |
| HnswIndex.Hnsw.DistL2 | main.cpp:92-102 | a length mismatch fails with the counter unchanged; otherwise the counter rises by exactly one and the result is the (squared) L2 distance, never negative |
| PQueue.InsertPos | main.cpp:298-299 | the insertion point of `push`: everything before it is above the new element, everything after it (in a sorted queue) is not |
| PQueue.Push | main.cpp:319-320 | `push` adds exactly one occurrence of the new element to the queue's multiset of elements and keeps heap order |
| PQueue.IdsPush | main.cpp:319-320 | pushing adds exactly one occurrence of the new element's node index to the queue's indices |
| PQueue.Cut | main.cpp:321-323 | the bounding pop (also main.cpp:349-351 and 485-487) only removes elements, brings a queue at most one over the bound back within it, and keeps heap order and distinct indices |
| PQueue.IdsCut | main.cpp:349-351 | the bounding pop removes at most one occurrence of a node index |
| PQueue.PushDistinct | main.cpp:311-320 | pushing a node not yet queued keeps node indices distinct |
| PQueue.BoundedPush | main.cpp:347-351 | after push-then-pop-past-bound, an element seen is still kept or lies above everything kept |
| PQueue.IdSetPush | main.cpp:374-386 | pushing adds exactly the new node to the queue's set of nodes, as `w_set.emplace` does |
| PQueue.NegateStep | main.cpp:328-333 | moving the top of `w`, negated, into `min_w` keeps both queues ordered and splits `w`'s elements between them |
| PQueue.TailFacts | main.cpp:329-332 | after a pop the queue stays ordered with distinct nodes, none of them the popped one |
| Arena.ReachableSelf | main.cpp:295 | the entry node is reachable from itself |
| Arena.ReachableStep | main.cpp:310-312 | reachability extends along one more layer-lc edge |
| Arena.UnreferencedUnreachable | main.cpp:244-247 | a node no layer-lc list names is reached from another node by no walk, so a search cannot return the node being inserted |
| Arena.Members | main.cpp:205-210 | the layer-l list of the first n nodes has at most n entries, each one of those nodes of level >= l |
| Arena.MembersExact | main.cpp:205-210 | a layer list holds exactly the nodes whose level reaches it, in increasing index order |
| Arena.LayerZeroIsAll | main.cpp:194-210 | layer 0 holds every node, in insertion order |
| Arena.MembersFollowLevels | main.cpp:202-210 | layer lists depend only on node levels, which insertion does not change |
| Arena.MembersAboveTop | main.cpp:205-207 | a layer above every node's level is empty, so a freshly grown layer starts empty |
| Arena.SetListWellFormed | main.cpp:283 | overwriting one list with references to nodes of level >= l keeps the store well formed |
| Arena.SetList | main.cpp:283 | overwriting one list sets exactly that list and changes no other list, vector, level or list count |
| Arena.AppendWellFormed | main.cpp:263-264 | appending a reference to a node of level >= l keeps the store well formed |
| Arena.Linked | main.cpp:263-264 | one connection appends `q` to `e`'s layer-l list and `e` to `q`'s (both to the one list when q = e), changing no other list, vector, level or list count |
| Arena.LinkedFacts | main.cpp:262-265 | one connection appends `q` to `e`'s layer-l list and `e` to `q`'s, keeps the store well formed and changes nothing else |
| Arena.ConnectedStart | main.cpp:262 | before the connection loop nothing is connected |
| Arena.ConnectedStep | main.cpp:262-265 | each further connection extends the connected state by one selected neighbour |
| Insertion.ConnectedOnce | main.cpp:261-265 | connecting `q` in an untouched layer to a selection without repeats appends `q` exactly once to each selected node's old list and changes no other old list |
| LayerSearch.VisitNew | main.cpp:310-314 | a neighbour of a visited node is a node of the query's dimension reachable from the entry node |
| LayerSearch.VisitSkip | main.cpp:311-318 | marking a node visited without keeping it keeps the search invariant |
| LayerSearch.VisitKeep | main.cpp:318-323 | keeping a newly visited node in both queues, with the farthest result dropped past `ef`, keeps the search invariant (at most max(1, ef) distinct results) |
| LayerSearch.CandidatesPush | main.cpp:319 | the kept node joins the candidates with its negated distance and the candidate invariant holds |
| LayerSearch.ResultsPush | main.cpp:320-323 | the kept node joins the results, cut back to `ef`, and the result list keeps 1..max(1, ef) distinct visited nodes keyed by distance |
| LayerSearch.VisitStep | main.cpp:311-324 | visiting a new node, kept or not as the rule decides, keeps the search invariant and grows the candidates by at most one |
| LayerSearch.LayerStart | main.cpp:294-299 | the search starts from the entry node alone in both queues and the visited set |
| LayerSearch.LayerPop | main.cpp:301-306 | the popped candidate is a visited node and the result list is non-empty |
| LayerSearch.LayerFinish | main.cpp:328-333 | once every kept result is expanded, the negated-key copy of the final results is a layer result: nearest first, its nearest at least as near as the entry node, and no neighbour it leaves out nearer than its farthest |
| LayerSearch.FinishNear | main.cpp:298-299 | the nearest final result is at least as near to the query as the entry node |
| LayerSearch.FinishClosed | main.cpp:310-324 | with every kept result expanded and every dropped node far, no layer-lc neighbour of a result that the result leaves out is strictly nearer than the farthest result |
| LayerSearch.GreedyLocalMinimum | main.cpp:293-334 | with ef = 1 the search is greedy hill-climbing: it returns one node, at least as near as the entry node, none of whose layer-lc neighbours is strictly nearer |
| LayerSearch.NoNearerAlike | main.cpp:310 | whether a result leaves out a nearer neighbour depends only on the vectors and layer-lc lists of the store |
| LayerSearch.ExploredStart | main.cpp:294-299 | at the start the only kept result is the entry node, nothing is expanded and nothing is dropped |
| LayerSearch.ExploredPop | main.cpp:302-304 | popping a candidate settles it: every kept result is still a candidate, expanded, or the popped node |
| LayerSearch.ExploredExpand | main.cpp:310-326 | once all its neighbours are visited, the popped candidate counts as expanded |
| LayerSearch.ExploredBreak | main.cpp:305-308 | when the nearest candidate is farther than the farthest kept result, no kept result is still a candidate, so every kept result is expanded |
| LayerSearch.ExploredVisit | main.cpp:311-324 | visiting a new node, kept or not, keeps the kept results at least as near as the entry node, every visited node outside the results far, and the kept results covered |
| LayerSearch.ExploredKeepRoom | main.cpp:318-320 | keeping a node while fewer than `ef` results are kept drops nothing: every visited node is kept |
| LayerSearch.ExploredKeepFull | main.cpp:318-323 | keeping a nearer node in a full result list drops the farthest result, and the new farthest is no farther, so dropped nodes stay far |
| LayerSearch.DroppedRoom | main.cpp:318-320 | with room in the result list, every visited node is still kept after a push |
| LayerSearch.DroppedFull | main.cpp:321-323 | dropping the farthest result for a nearer one keeps every node outside the results no nearer than the farthest kept |
| PQueue.PushBelowHead | main.cpp:320 | pushing an element below the head keeps the head in front, with the rest of the queue and the new element behind it |
| PQueue.LastAfterPush | main.cpp:320 | a push never raises the key of the queue's last (lowest) element |
| HnswIndex.Hnsw.Visit | main.cpp:311-324 | the queues afterwards are exactly `LayerSearch.AfterVisit`: the node is pushed to both, with the farthest result dropped past `ef`, exactly when it is strictly nearer than the farthest result or fewer than `ef` results are kept, and otherwise both are unchanged; the search invariant and what the search has explored hold with the node visited |
| HnswIndex.Hnsw.KeepOrSkip | main.cpp:318-323 | on the two measured distances the branch yields exactly `LayerSearch.AfterVisit` |
| HnswIndex.Hnsw.ExpandNode | main.cpp:310-326 | scanning a candidate's layer-lc list visits every node on it, keeps the search invariant and what the search has explored, and does not raise the termination measure |
| HnswIndex.Hnsw.VisitNeighbor | main.cpp:311-325 | one neighbour of the scan ends up visited; the search invariant and what the search has explored are kept |
| HnswIndex.Hnsw.ToMinQueue | main.cpp:328-333 | draining `w` into `min_w` keeps every element, negated, in heap order with distinct nodes |
| HnswIndex.Hnsw.SearchLayer | main.cpp:293-334 | fails exactly on a dimension mismatch with the entry node; otherwise returns 1..max(1, ef) distinct nodes of level >= lc, each reachable from `ep` over layer-lc edges, keyed by negated distance, nearest first; the nearest is at least as near to `q` as `ep`, and no layer-lc neighbour of a returned node that the result leaves out is strictly nearer than the farthest returned node |
| HnswIndex.Hnsw.SelectNeighborsSimpleQueue | main.cpp:336-343 | returns the first min(m, \|c\|) nodes of the queue in pop order |
| Selection.TopKStep | main.cpp:347-351 | one push with bounding pop keeps the top-k property: every candidate seen is kept, or the queue is full and it is no nearer than anything kept |
| Selection.SimpleStep | main.cpp:347-351 | one push with bounding pop keeps the loop invariant: the queue is ordered, min(m, k) long, a top-m filter of the keyed prefix, and its node indices are a sub-multiset of the prefix |
| Selection.TopKIds | main.cpp:345-354 | a finished bounded queue over `c` whose node indices are a sub-multiset of `c` drains into a nearest selection of `c` |
| HnswIndex.Hnsw.SelectNeighborsSimple | main.cpp:345-354 | fails exactly on a dimension mismatch; otherwise costs \|c\| evaluations and returns exactly min(m, \|c\|) members of `c`, none more often than in `c`, farthest first, with no omitted member strictly nearer than a returned one |
| HnswIndex.Hnsw.SeedPool | main.cpp:374-377 | the pool's seed holds every member of `c` exactly as often as `c` does, keyed by negated distance, and its node set is the members of `c`; fails exactly on a dimension mismatch |
| Selection.SeedStep | main.cpp:374-377 | pushing the next member keeps the seed invariant: the seed's indices are exactly the prefix as a multiset, each keyed by negated distance |
| Selection.SeedIsPool | main.cpp:374-388 | a complete seed is exactly the unextended pool, and the start of the extended one |
| HnswIndex.Hnsw.AddNeighbors | main.cpp:381-386 | every layer-lc neighbour of `c[k]` is pooled afterwards; the pool still holds each member of `c` as often as `c` does and every other pooled node exactly once |
| HnswIndex.Hnsw.PoolNeighbor | main.cpp:382-385 | a neighbour already in `w_set` is skipped; otherwise it is pushed once at its negated distance; `w_set` grows by exactly it |
| Selection.PartialPoolPush | main.cpp:382-385 | pushing a pooled node not yet in `w_set` adds exactly one occurrence of it and keeps the partial pool exact |
| HnswIndex.Hnsw.ExtendPool | main.cpp:379-388 | afterwards every layer-lc neighbour of every member of `c` is pooled, nothing else is, each member of `c` occurs as often as in `c` and every other pooled node exactly once |
| Selection.PartialIsPool | main.cpp:379-388 | a partial pool that holds every layer-lc neighbour of the members is exactly the extended pool |
| HnswIndex.Hnsw.CandidatePool | main.cpp:374-388 | the pool holds each member of `c` exactly as often as `c` does and, when extending, each other layer-lc neighbour of a member exactly once, keyed by negated distance, in heap order; fails exactly on a dimension mismatch |
| HnswIndex.Hnsw.PassesDiversity | main.cpp:400-406 | the test passes exactly when no accepted neighbour is at distance less than the popped key from the candidate |
| Selection.Backfill | main.cpp:412-417 | defines the backfill loop (discarded nodes move to the result, farthest first); its own contract states only that every reference stays valid |
| Selection.Scan | main.cpp:391-418 | the scan's result references only store nodes |
| Selection.ScanAcceptStep | main.cpp:400-411 | a candidate that passes the test is appended and the scan continues with the rest |
| Selection.ScanAcceptsAll | main.cpp:391-418 | with non-positive keys the test never rejects: the scan returns the first min(m, \|pool\|) candidates in pop order, with or without backfill |
| Selection.NonPositivePasses | main.cpp:400-406 | a candidate popped with a key that is not positive passes the diversity test against any accepted list |
| HnswIndex.Hnsw.Refill | main.cpp:412-417 | the backfill loop computes `Backfill`: discarded nodes move to the result farthest first |
| HnswIndex.Hnsw.ScanStep | main.cpp:392-417 | one round of the scan loop takes one candidate and leaves the scan's eventual result unchanged |
| HnswIndex.Hnsw.SelectNeighborsHeuristic | main.cpp:367-422 | fails exactly on a dimension mismatch; otherwise returns the first min(m, \|pool\|) nodes of the exact candidate pool |
| Selection.PoolPrefix | main.cpp:391-421 | that prefix has at most m nodes, at least min(m, \|c\|), all from `c` or their layer-lc neighbours, none more often than the pool holds it, in ascending distance to the query |
| Selection.SelfPooled | main.cpp:279 | right after `q` and `e` were connected, `e` belongs to the extended pool of its own list |
| Selection.SelfHeadsPool | main.cpp:276-279 | when `e` is in the pool of a selection for `e` itself, the pool's head is at distance zero from `e`, so the heuristic shrink takes `e`, or a node with its vector, first |
| HnswIndex.Hnsw.SelectNeighborsHeuristicQueue | main.cpp:356-365 | the queue's pop order becomes the candidate list; the result is as for the list form |
| HnswIndex.Hnsw.Link | main.cpp:263-264 | `q` is appended to `e`'s layer-lc list, then `e` to `q`'s |
| HnswIndex.Hnsw.Connect | main.cpp:261-265 | `q`'s list gains the selected nodes in order; every other layer-lc list keeps its old entries in order and gains one `q` per occurrence of its node in the selection; lists at other layers are unchanged and the store stays well formed |
| HnswIndex.Hnsw.ShrinkOne | main.cpp:268-284 | a list within the cap is kept; a longer one becomes exactly `cap` nodes: in simple mode the `cap` nearest members of the list (a nearest selection, farthest first), in heuristic mode the first `cap` entries of the list's extended candidate pool, nearest first; every kept reference names a node of level >= lc |
| Selection.ShrunkStart | main.cpp:268 | before the shrink loop nothing is shrunk |
| Selection.ShrunkStep | main.cpp:268-285 | shrinking one more selected node's list extends the shrunk state |
| Selection.StoreAtUnique | main.cpp:268-284 | the store a heuristic shrink sees is determined by the start, the end and the selected nodes already shrunk |
| Selection.StoreAtNow | main.cpp:268-284 | just before a node's first shrink, the store is the start with the lists of the nodes shrunk so far replaced by their final lists |
| Selection.StoreAtStep | main.cpp:268-284 | a later shrink leaves the store of an earlier turn what it was, since it leaves the lists already shrunk alone |
| Base.FirstOccurrence | main.cpp:267-268 | a selection without repeats has no element before its own position, so each selected node has a single turn in the shrink loop |
| HnswIndex.Hnsw.Shrink | main.cpp:267-285 | every selected node's layer-lc list is within the cap; every list is as before or, when it was over the cap, exactly the mode's pick of `cap` nodes from its old contents, taken in the store the loop holds at that turn: the lists of the selected nodes before it already shrunk, every other list as before; in simple mode no list gains an entry; lists at other layers are unchanged |
| HnswIndex.Hnsw.SelectForLayer | main.cpp:252-259 | simple mode takes the first min(m, \|w\|) search results in pop order; heuristic mode takes the first min(m, \|pool\|) nodes of the exact extended candidate pool of the results; any other mode fails with no distance evaluated |
| Insertion.InsertStart | main.cpp:238-242 | appending the fresh node keeps the store well formed and starts the layer loop with every layer intact |
| Insertion.IntactUnreferenced | main.cpp:244-247 | in an untouched layer no list names the new node |
| HnswIndex.Hnsw.Descend | main.cpp:244-247 | the descent's entry node is an old node of level >= min(top, l_new) |
| Insertion.SelectedNotNew | main.cpp:250-256 | a node selected from a search started at an old node is an old node of level >= lc |
| HnswIndex.Hnsw.InsertLayer | main.cpp:249-286 | one layer: fails exactly on an unknown mode with the store unchanged; otherwise the neighbours are the mode's choice from a layer search `w` started at the entry node, they are connected both ways, then shrunk one after the other, each pick taken in the store of its turn; the next entry node is the head of `w`, the nearest node found |
| HnswIndex.Hnsw.InsertRound | main.cpp:248-286 | one round of the layer loop: the loop invariant and the record of searches move one layer down, and the next entry node is the nearest node the search found, an old node of level >= lc |
| Insertion.FrameIntact | main.cpp:249-287 | work on another layer leaves an untouched layer untouched |
| Insertion.FrameDone | main.cpp:249-287 | work on another layer leaves a finished layer finished, with the same selection |
| Insertion.OtherLayersKept | main.cpp:261-285 | connecting and shrinking at layer lc leave every list at every other layer unchanged |
| Insertion.LayerNowDone | main.cpp:261-285 | connecting and shrinking an untouched layer leaves it done: `q`'s list is the selection, at most m nodes, none twice; each selected node's old list has `q` appended or, when that took it over the cap, was replaced by the mode's pick of `cap` nodes from the old list plus `q`; no other old list changed |
| Insertion.SelectedRelinked | main.cpp:262-284 | a selected node's old list had `q` appended and was left so within the cap, or replaced by the mode's pick of `cap` nodes when over it, taken in the store of its turn: the lists of the selected nodes before it final, every other old list as connected |
| Insertion.OnlySelectedChange | main.cpp:261-285 | after connecting and shrinking, an old layer-lc list that differs from its start belongs to a selected node |
| Insertion.InsertStep | main.cpp:249-287 | one iteration of the layer loop keeps its invariant, one layer lower |
| Insertion.SearchedStep | main.cpp:248-286 | recording layer lc's search, entered at the nearest node found on the layer above, and its choice extends the record of searches one layer down |
| Insertion.LayerLoopStep | main.cpp:248-286 | one iteration of the layer loop keeps the loop invariant and extends the record of searches, one layer lower |
| Insertion.InsertEnd | main.cpp:249-287 | after layer 0 every layer up to l_new is done and every layer above is untouched |
| Insertion.InsertedLinks | main.cpp:248-286 | after an insertion the new node has between min(m, 1) and m neighbours on every layer up to min(top, l_new), each an old node whose list names the new node or holds exactly the layer's cap |
| Insertion.ChosenFacts | main.cpp:249-259 | a layer's choice names between min(m, 1) and m nodes, none twice: the search finds at least one node and the pool holds each node once |
| Insertion.ChosenAlike | main.cpp:249-259 | a layer's search and choice depend only on the vectors, levels and layer-l lists of the store |
| HnswIndex.Hnsw.InsertLayers | main.cpp:248-287 | fails exactly on an unknown mode, before any list changes; otherwise the insertion is complete: every layer up to min(top, l_new) was searched from the nearest node found on the layer above (the given entry node on the highest), `q`'s list there is the mode's choice from that search, and each chosen node's old list gained `q` or was shrunk to the cap by the mode's pick in the store of its turn (the chosen nodes before it already shrunk, the others as connected); higher layers of `q` stay empty and no other list changed |
| Insertion.EntryAfterInsert | main.cpp:288-290 | the new node is a maximum-level entry point exactly when its level exceeds the old entry point's |
| HnswIndex.Hnsw.Insert | main.cpp:232-291 | fails with a dimension mismatch exactly when the vector's length differs from the index's, and with an unknown mode exactly when the length matches but the mode is unknown; a failure changes no node and no entry point; the index stays valid; on success the insertion is complete in the sense of InsertLayers, and the new node becomes the entry point exactly when l_new exceeds the old top level |
| HnswIndex.Hnsw.AddToLayers | main.cpp:204-210 | the layer lists grow to the node's level and the node joins every layer up to it, so each list is again exactly its members |
| HnswIndex.Hnsw.AddNode | main.cpp:189-210 | the first node becomes the entry point at level 0, alone in layer 0; a later one is inserted and registered; the index stays `Valid` |
| HnswIndex.AppendedStep | main.cpp:189-213 | adding one more node extends the build's record of appended vectors and levels |
| HnswIndex.Hnsw.BuildGraph | main.cpp:185-213 | stores the input; succeeds exactly when every vector has the index's dimension and the mode is known (or no insertion is needed); on success one node per input vector is appended, in order, with its level, and the index is `Valid` |
| HnswIndex.GraphLayers | main.cpp:185-213 | in a valid index layer 0 is every node in input order, layer l exactly the nodes of level >= l, and the entry point is on the top layer, which no node's level exceeds |
| HnswIndex.Hnsw.DescendQuery | main.cpp:427-441 | the query descent fails only on a dimension mismatch and otherwise yields a node of the store |
| HnswIndex.Hnsw.TakeFirst | main.cpp:454-466 | extraction takes the vectors of the first min(k, \|w\|) queue entries in pop order |
| HnswIndex.Hnsw.KnnSearch | main.cpp:425-468 | fails exactly on a dimension mismatch; otherwise returns min(k, \|W\|) vectors of a layer-0 search result W (at least one when k > 0), nearest first; W is a layer result, so its nearest is at least as near as the node it started from and it leaves out no nearer neighbour of its nodes |
| HnswIndex.Hnsw.KnnSearchBruteForceNodes | main.cpp:470-477 | the brute-force search over the listed nodes' vectors |
| Selection.FilterStep | main.cpp:482-488 | one push with bounding pop keeps the filter's invariant |
| HnswIndex.Hnsw.FilterPush | main.cpp:482-488 | one scan step: a length mismatch fails, otherwise one evaluation and the filter step |
| Selection.TopKPicks | main.cpp:480-495 | the finished heap holds nearest picks: min(k, \|base\|) distinct positions, farthest first, no left-out vector strictly nearer than a picked one |
| HnswIndex.Hnsw.DrainVectors | main.cpp:489-494 | draining the heap yields the picked vectors in pop order |
| HnswIndex.Hnsw.KnnSearchBruteForce | main.cpp:479-495 | fails exactly when some base vector's length differs from the query's; otherwise costs \|base\| evaluations and returns exactly min(k, \|base\|) base vectors, farthest first, with none left out strictly nearer than one returned |

## Left out

- The random level draw `floor(-log(rand()/...) * ml)` and `srand(42)`: floating-point logarithm and a libc generator. `Insert` and `BuildGraph` take the drawn levels as arguments, so `ml` is not modelled.
- BuildGraph takes one level per input vector. The very first node of an empty index takes level 0 and its entry is ignored, as in the program.
- Floating point: vectors are sequences of reals. The L2 distance is the squared sum without the final `sqrt`, which is monotone, so every comparison comes out the same. Rounding is not modelled.
- The 64-bit wrap-around of the distance counter is not modelled: the counter is unbounded.
- Negative `k`, `m` and `ef`: the program's `int` parameters are modelled as `nat`. For a negative `k`, the `size_t` comparisons would treat it as huge and return everything.
- Ties between equal distances: the program breaks them by `Node*` address, or by vector value in the brute-force heap. The model breaks them by arena index, or by position in `base`. The brute-force search's independence from the order of `base` holds only up to such ties and is not stated.
- `edge_map`, the `parent` field writes, `level_one_hit_count` and `report_neighbor_connection`: instrumentation that does not affect results.
- `umap`: used only by commented-out code. The commented-out blocks are not modelled either.
- The division by zero in `log_progress`: main.cpp:162 computes `curr % (total / 100)`, and `total / 100` is 0 for an input of 2 to 99 vectors. `build_graph` calls it at main.cpp:212 after every node but the first, so on such inputs the program fails at the second node. `BuildGraph` models the build without progress reporting, so it succeeds on them.
- Insert and KnnSearch require a non-empty index. The program would dereference a null `enter_point` there (main.cpp:235, 429). `build_graph` calls `insert` only once the entry point is set, so the requirement holds at the program's own call site; a query on an empty index is undefined behaviour that the model does not reproduce.
- `log_progress`, the console output of `build_graph`, `print_graph_parameters` and `get_graph_parameters`: I/O or trivial getters.
- The dataset loaders, `calculate_recall`, `build_graph_and_query` and `main`: file I/O, timing and reporting around the index.
- Raw-pointer ownership: the arena replaces the heap objects. A failed insertion drops its fresh node from the arena again, before any list names it. In the program that node is leaked.
- Insert: the dimension check is made once, up front, against the entry node. The program finds the mismatch in its first distance evaluation, in the first layer search. Both fail before any list changes and before the counter moves, because all stored vectors share one dimension.
- HnswIndex.Hnsw.SearchLayer: the distance count is stated only as non-decreasing, not as the exact number of evaluations. The same holds for the other methods that run a search or a heuristic selection.
- HnswIndex.Hnsw.KnnSearch: the node the layer-0 search starts from is stated only to be a store node. Its relation to the upper-layer descent is not stated.
- HnswIndex.Hnsw.Descend: the next entry node is stated to be an old node of sufficient level, not to be the nearest one that its single-result search found.
- HnswIndex.Hnsw.DescendQuery: states only that the yielded node is a store node and that a failure is a dimension mismatch.
- Selection.Scan: its own contract states only that references stay valid. Its meaning for the program's keys is `Selection.ScanAcceptsAll`.
