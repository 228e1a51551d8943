# Havel-Hakimi graph realizer

This project models the core of `havel_hakimi.py`. The program builds a simple
undirected graph whose node degrees match a requested degree sequence, and then
writes the graph out as an edge list.

`havel_hakimi(degSeq, seqOrder)` works like this:

- It pairs node i with its requested degree.
- It keeps two lists of (id, remaining degree) entries. `degSeq` is re-sorted
  by descending remaining degree every iteration. `nodeOrder` chooses the node
  to process next:
  - order 0 sorts it ascending every iteration;
  - order 1 sorts it descending every iteration;
  - any other order shuffles it once.
- Each iteration pops the next node and removes it from `degSeq`. It then
  connects the node to the entries at the head of `degSeq`, one for each degree
  it still needs, lowering each partner's entry in both lists.
- It stops in one of four ways:
  - it succeeds when every remaining degree is zero;
  - it fails when too few nodes are left to connect to;
  - it fails when a remaining degree goes negative;
  - it fails on the empty-list lookup at the top of the loop.

`addEdge` records one direction of an edge in the adjacency dict. `writeGraph`
emits each (key, neighbour) pair whose neighbour id is the larger of the two.

The model has two layers:

- **Functions.** `Realization.Realize` is a reference definition built from
  the functions of `Realizer`. One `Reduce` call is one iteration of the main
  loop. One `ConnectFrom` call is one iteration of the inner loop. `Soundness`
  proves what an iteration guarantees, and `Realize`'s contract states what a
  whole run guarantees.
- **Methods.** `HavelHakimi` holds methods with the source's own loops:
  - `MakeEntries`: the entry-building loop;
  - `Connect`: the inner loop;
  - `TakeNext` and `Iteration`: one pass of the main loop;
  - `HavelHakimi`: the `while True` loop.

  Each method is proved equal to the reference function, so every soundness
  lemma applies to the methods. `EdgeList` models the pairs `writeGraph` emits.

Modules, one per file:

- `Graph` (graph.dfy) — the adjacency map and `addEdge`.
- `Entries` (entries.dfy) — the entries and `list.index` / `list.remove`.
- `Sorting` (sorting.dfy) — Python's stable `sorted`.
- `Realizer` (realizer.dfy) — the iterations of the reference definition.
- `Soundness` (soundness.dfy) — the correctness proofs.
- `Realization` (realization.dfy) — the whole run and its guarantees.
- `HavelHakimi` (havel_hakimi.dfy) — the methods.
- `EdgeList` (edge_list.dfy) — `writeGraph`'s pairs.
- `Scenarios` (scenarios.dfy) — proofs about concrete inputs, one for each way a run ends.

Modelling choices:

- **Terminations.**
  - Both `exit(1)` calls become `Err(NotEnoughNodes)` and `Err(NegativeDegree)`.
  - The `IndexError` raised by `degSeq[0]` on an empty list becomes
    `Err(EmptyDegSeq)`. It happens on an empty input. On a non-empty input it
    happens only when some requested degree is negative, because node removal
    then outruns the degrees.
  - An empty input fails with the lookup error on `degSeq[0]`, as the code
    does. The model neither returns an empty graph for it nor rejects it before
    the loop.
- **Degrees.** Requested degrees are arbitrary integers, since the source does
  not validate them. A successful run gives node v exactly max(degrees[v], 0)
  neighbours.
- **Sorting.** Python's `sorted` is stable, and the model's insertion sort is
  proved stable: entries with equal remaining degree keep their relative order
  (`Sorting.SortIsStable`).
- **Shuffle.** `random.shuffle` is replaced by a caller-supplied permutation
  `perm` of 0..n-1. Entry k of the shuffled list is entry `perm[k]` of the
  original.

## Model

| member | source | states |
|---|---|---|
| Graph.AddEdge | havel_hakimi.py:53-61 | b becomes a neighbour of a. A new key a gets exactly {b}. The key set grows by a only. All other keys keep their sets, and only a's neighbour set changes. |
| Entries.IndexOf | havel_hakimi.py:122 | The returned position holds x, and no earlier position does. |
| Entries.Remove | havel_hakimi.py:107 | The list loses exactly one copy of x: one entry fewer, and the multiset minus {x}. Sorting.RemoveKeepsRest states that the other entries keep their relative order. |
| Sorting.RemoveKeepsRest | havel_hakimi.py:107 | Removing x drops the entry at list.index's position: entries before it stay in place and entries after it move up by one. |
| Entries.UniqueIdsSub | havel_hakimi.py:105-107 | A sub-multiset of a list with distinct ids has distinct ids, which covers pop and remove. |
| Sorting.Sort | havel_hakimi.py:88 | The result is ordered by remaining degree, descending or ascending, and is a permutation of the input. |
| Sorting.InsertKeepsTies | havel_hakimi.py:88 | Inserting x leaves the subsequence of each remaining degree unchanged, except that x joins the front of its own degree's group. |
| Sorting.SortOrdered | havel_hakimi.py:88 | Sorting a list already in the requested order leaves it unchanged. |
| Sorting.RemoveKeepsOrdered | havel_hakimi.py:107 | Removing an entry from a sorted list leaves it sorted, in either direction. |
| Sorting.SortIsStable | havel_hakimi.py:88-93 | For every degree d, the entries with remaining degree d appear in the sorted list in their original order. |
| Realizer.InitialEntries | havel_hakimi.py:73-76 | One entry per requested degree: entry k carries id k and remaining degree degrees[k], so the ids are distinct and exactly 0..n-1. |
| Realizer.ModeOf | havel_hakimi.py:81-93 | Order 0 means smallest first, order 1 means largest first, and every other order means shuffled, each an if-and-only-if. |
| Realizer.Shuffle | havel_hakimi.py:81-82 | Position k of the result holds input entry perm[k], and the result is a permutation of the input. |
| Realizer.Arrange | havel_hakimi.py:89-93 | nodeOrder is reordered as the mode says: ascending, with the minimum at its head; descending, with the maximum at its head; or left as it is when shuffled. Either way it is a permutation of the input. |
| Realizer.Exhausted | havel_hakimi.py:100-101 | On a list sorted by descending degree, checking the first and last entries decides exactly whether every remaining degree is zero. |
| Realizer.LowerBoth | havel_hakimi.py:118-122 | Lowering entry i of degSeq, and its first copy in nodeOrder, keeps the two lists the same multiset. |
| Realizer.PopFacts | havel_hakimi.py:105-107 | The head of nodeOrder is in degSeq, so remove succeeds. After pop and remove, the two lists are still the same multiset. |
| Realizer.ConnectFrom | havel_hakimi.py:117-129 | The inner loop keeps degSeq's length and keeps degSeq and nodeOrder the same multiset. Its only failure is NegativeDegree. |
| Realizer.ConnectFromGrows | havel_hakimi.py:119-120 | The inner loop only adds edges: every key keeps at least its neighbours. |
| Realizer.Step | havel_hakimi.py:100-129 | An iteration that continues leaves exactly one entry fewer, with the two lists still the same multiset, and only adds edges. An iteration that succeeds returns the map unchanged. |
| Realizer.PartnersAreLargest | havel_hakimi.py:105-118 | On the degSeq an iteration has just sorted, removing the current node leaves it sorted, so every partner (a position below cur.rem) has a remaining degree at least that of every entry at a later position. |
| Realizer.Reduce | havel_hakimi.py:86-129 | The main loop fails with the lookup error on an empty degSeq, and a map it returns contains the starting map: edges are never removed. |
| Soundness.InvPermuted | havel_hakimi.py:88-93 | Re-sorting either list keeps the loop invariant. |
| Soundness.ConnectFromLowers | havel_hakimi.py:117-122 | On success, the inner loop lowers positions i..d-1 of degSeq by exactly one. It keeps every id and leaves the other positions alone. In nodeOrder, every position keeps its length and its id. |
| Soundness.ConnectFromKeepsOrder | havel_hakimi.py:117-122 | On success, nodeOrder is changed in place: same length, the same id at every position, and the remaining degree lowered by one exactly at the positions whose id is a partner's. |
| Soundness.ConnectFromLinks | havel_hakimi.py:117-120 | On success, the current node gains exactly the ids at positions i..d-1 as neighbours. Each of those gains the current node, and no other neighbour set changes. |
| Soundness.ConnectFromOutcome | havel_hakimi.py:121-129 | The inner loop succeeds if and only if every partner entry it lowers had a positive remaining degree. |
| Soundness.TopIdsFacts | havel_hakimi.py:117-118 | The partners are the entries at positions below d: max(d, 0) distinct nodes, all still in degSeq. |
| Soundness.RemoveFacts | havel_hakimi.py:107 | Removing the popped node leaves distinct ids, all still present except the popped one. |
| Soundness.LinkedWellFormed | havel_hakimi.py:117-120 | Linking a node to distinct nodes in range, not including itself, keeps the map symmetric, loop-free, within range and free of empty sets. |
| Soundness.StepInv | havel_hakimi.py:105-129 | A full iteration preserves the invariant. Live nodes have edges plus remaining degree equal to the request, and are linked only to processed nodes. Processed nodes are complete, and the map stays simple. |
| Soundness.ExhaustedRealizes | havel_hakimi.py:100-101 | When every remaining degree is zero, the map is a realization of the requested degrees. |
| Soundness.StepSound | havel_hakimi.py:100-129 | From the invariant, an iteration either returns a realization or continues with the invariant. |
| Soundness.ReduceSound | havel_hakimi.py:86-129 | From the invariant, whatever the main loop returns is a realization. |
| Soundness.StepKeepsEntries | havel_hakimi.py:100 | With non-negative requests, an iteration never reaches the empty-list lookup and never leaves an empty list. |
| Soundness.ReduceNeverEmpties | havel_hakimi.py:86-129 | With non-negative requests and a non-empty start, the main loop never fails on the empty-list lookup. |
| Soundness.InitialInv | havel_hakimi.py:68-79 | The fresh entries and the empty dict satisfy the loop invariant. |
| Soundness.RealizationKeys | havel_hakimi.py:53-61 | In a realization, the dict's keys are exactly the nodes with a positive request, since addEdge only creates a key when it adds an edge. |
| Realization.Realize | havel_hakimi.py:63-129 | A returned map is a simple undirected graph on 0..n-1 in which node v has max(degrees[v], 0) neighbours, and its keys are exactly the nodes with a positive request. The empty-list lookup fails on an empty input, and otherwise only when some request is negative. |
| HavelHakimi.MakeEntries | havel_hakimi.py:73-76 | Entry i is (i, degrees[i]) for every i. |
| HavelHakimi.Connect | havel_hakimi.py:117-129 | The inner loop computes ConnectFrom, so its properties are those of the Soundness lemmas above. |
| HavelHakimi.TakeNext | havel_hakimi.py:100-129 | An iteration on the sorted lists computes Step. |
| HavelHakimi.Iteration | havel_hakimi.py:86-129 | One pass of the main loop sorts degSeq descending, arranges nodeOrder by mode, and then does Step. |
| HavelHakimi.HavelHakimi | havel_hakimi.py:63-129 | The method computes Realize. A returned map is a realization whose keys are the positive-degree nodes, and the empty-list failure happens on an empty input and otherwise only when some request is negative. |
| EdgeList.EmittedPairs | havel_hakimi.py:134-138 | Every emitted pair has its smaller id first. |
| EdgeList.EachEdgeOnce | havel_hakimi.py:134-138 | On a symmetric, loop-free map, each edge is emitted in exactly one orientation, and non-edges in neither. |
| EdgeList.EdgeCount | havel_hakimi.py:134-138 | On a simple graph on 0..n-1, twice the number of emitted pairs is the sum of the neighbour-set sizes. |
| EdgeList.RealizedEdgeCount | havel_hakimi.py:132-139 | After a successful run, twice the number of lines written is the sum of max(degrees[v], 0). |
| Scenarios.SingleEdge | havel_hakimi.py:63-129 | [1, 1] yields the single edge between nodes 0 and 1. |
| Scenarios.SingleEdgeLine | havel_hakimi.py:134-138 | That graph is written as exactly one pair, (0, 1). |
| Scenarios.TooFewNodes | havel_hakimi.py:111-113 | [5, 1, 1, 1, 1] with order 1 fails with NotEnoughNodes. |
| Scenarios.DegreeGoesNegative | havel_hakimi.py:127-129 | [1, 0] fails with NegativeDegree. |
| Scenarios.EmptySequence | havel_hakimi.py:100 | The empty sequence fails on the lookup of its first entry. |

## Left out

- Argument parsing, `main`, timing and the call sequence (havel_hakimi.py:45-51, 143-160): host-environment glue outside the core.
- The `print` calls of the main loop and of the failure paths: diagnostics only, with no effect on the result.
- Opening, writing and closing the output file, and the `"u v\n"` text of each line: `EdgeList` models the set of pairs emitted, not the bytes written.
- The order in which pairs come out: it follows dict and set iteration order, which the source does not fix, so the pairs are a set.
- The random source behind `random.shuffle`: it is replaced by the `perm` parameter, and any permutation may be supplied.
- The caller's list being overwritten in place by the entry loop (havel_hakimi.py:73-76): the model builds a new sequence of entries instead, because the type of the elements changes.
- Graph.AddEdge: the dict and its sets are modified in place in the source, and the model returns a new map. No set is shared between keys, so no aliasing is lost.
- The process exit status: `exit(1)` and the uncaught lookup error are results (`Err`) handed back to the caller.
- Completeness: the model does not prove that every graphical sequence (one meeting the Erdős–Gallai conditions) succeeds. For failures it proves only which error is returned, not that the sequence is non-graphical.
- HavelHakimi.HavelHakimi: negative requested degrees are not rejected, because the source does not reject them. Success then means max(d, 0) neighbours, not d.
