# Graph store — a Dafny model

This project models the `Graph` class of a small C++ weighted-graph library
(graph.h, graph.cpp). A graph holds:

- a map from vertex label to that vertex's adjacency list, where each entry is
  a neighbour label and a weight, kept in insertion order;
- a list of edge records `(from, to, weight)`;
- a directed/undirected flag that only the constructor sets;
- the `visited` marks that `dfs` and `bfs` leave behind.

The model is a Dafny class `Graphs.Graph` with those four fields. Its methods
change them the way the C++ methods do: `add`, `connect` and `disconnect`,
the latter two recursing once for the mirrored direction of an undirected
graph; the loops of `containsEdge` and `getEdgesAsString`; and `dfs` and `bfs`,
which change only `visited`. Raw `Vertex*` pointers in adjacency lists are
replaced by labels, which are unique.

The header's invariants (graph.h:3-5, 69-72) are the predicate `Valid()`:

- no self-loops;
- at most one edge record per ordered pair;
- each adjacency list equals the edges leaving that vertex, in edge-list order,
  and every endpoint is a known vertex;
- in an undirected graph, every edge has a mirror of the same weight.

`Add`, `Connect` and `Disconnect` keep `Valid()`. The one-direction steps
`AppendEdge` and `EraseEdge` keep only the first three invariants: in an
undirected graph each leaves one edge without its mirror until the recursive
call. The modules are:

- `Adjacency` — the store's values, the invariants, and what each operation
  does to the edge list and the vertex map.
- `Ordering` — the key order of `std::map<string, _>`.
- `Format` — `std::to_string` and the comma joining of `getEdgesAsString`.
- `Listing` — the text `getEdgesAsString` produces, as a function of an
  adjacency list.
- `Reach` — reachability through unmarked vertices, and the invariants of the
  two traversals.
- `Graphs` — the class and its loops.
- `Scenarios` — the basic test of graphtest.cpp replayed on a `Graph`, the
  listings it checks, and the input that shows the `bfs` discrepancy below.

The traversals are modelled as the code behaves:

- `visited` is a member (graph.h:37), so its marks persist across calls and are
  shared by `dfs` and `bfs`.
- graph.h:101 says `bfs` calls `visit` on each vertex label, but neither
  traversal calls its `visit` callback (graph.cpp:159-183).
- An unknown start label is marked (graph.cpp:160, 172) and then fails the
  `vertices.at` lookup; it does not fail silently.
- graph.h:100 calls `bfs` a breadth-first traversal, but graph.cpp:176 scans
  the start vertex's adjacency on every dequeue. It is modelled as written
  (`Graph.Bfs`) and as intended (`Graph.BfsCorrected`); see Findings.

## Model

| member | source | states |
|---|---|---|
| Graphs.Graph.Valid | graph.h:3-5 | the header's invariants; a valid graph has no self-loop and every edge record joins two known vertices |
| Graphs.Graph.Contains | graph.cpp:59-66 | in a well-formed store every label that an edge record names, at either end, is a vertex |
| Graphs.Graph.constructor | graph.cpp:20 | an empty, valid graph, directed unless `directionalEdges` is false; `isDirectional` is a constant, so no later operation changes it |
| Graphs.Graph.VerticesSize | graph.cpp:33 | the count is non-negative and is 0 exactly when there are no vertices |
| Graphs.Graph.EdgesSize | graph.cpp:36 | the number of edge records, which in a valid graph equals the sum of all vertex out-degrees |
| Graphs.Graph.VertexDegree | graph.cpp:39-45 | -1 exactly for an unknown label; otherwise the length of its adjacency, which is also the number of edge records leaving it |
| Graphs.Graph.Add | graph.cpp:48-57 | true exactly when the label was new; then the label gets an empty adjacency and the vertex count grows by one; otherwise nothing changes; the label is known afterwards; the invariants are kept |
| Graphs.Graph.ContainsEdge | graph.cpp:69-81 | true exactly when some record runs from `from` to `to`, whatever its weight; the `weight` argument is ignored |
| Graphs.Graph.AppendEdge | graph.cpp:111-125 | creates missing endpoints, appends exactly one record `(from, to, w)` and exactly one entry `(to, w)` at the end of `from`'s adjacency, and keeps the first three invariants (in an undirected graph the mirror is still pending) |
| Graphs.Graph.Connect | graph.cpp:107-131 | refused, with no change, exactly for a self-loop or an existing `from -> to` edge of any weight; otherwise appends that edge and, in an undirected graph, its mirror (the recursive call stops at the duplicate check); validity is kept, and an undirected graph stays mirrored |
| Graphs.IndexOfEdge | graph.cpp:137-142 | -1 exactly when no record runs from `from` to `to`; otherwise the index of the first such record |
| Graphs.IndexOfNeighbour | graph.cpp:143-150 | -1 exactly when no adjacency entry names `name`; otherwise the index of the first entry that does |
| Graphs.Graph.EraseEdge | graph.cpp:137-150 | removes the first `from -> to` record and `from`'s first adjacency entry for `to`, keeping the first three invariants (in an undirected graph the reverse edge is still pending) |
| Graphs.Graph.Disconnect | graph.cpp:133-156 | refused, with no change, exactly when `from == to` or there is no `from -> to` edge; otherwise removes that edge from the edge list and the adjacency, and validity is kept; in a directed graph exactly one record goes and no `from -> to` edge is left; in a valid undirected graph the reverse edge was present, exactly two records go, and neither direction is left |
| Graphs.EntryTable | graph.cpp:91-97 | the label-to-text table: one `label(weight),` text per label of the adjacency, a later entry for a label replacing an earlier one |
| Graphs.LeastOf | graph.cpp:98 | the key an in-order walk of the table visits next: the least of those left |
| Graphs.SortedKeys | graph.cpp:98-100 | the table's keys in `std::map` order: all of them, once each, ascending |
| Graphs.TableInOrder | graph.cpp:89-101 | walking the label-to-text table in key order gives, for each label, its entry and a comma, and joining those entries gives the listing of the adjacency |
| Graphs.JoinTexts | graph.cpp:98-101 | concatenating the texts in key order and dropping the last character gives the entries joined by single commas |
| Graphs.Graph.EdgesAsString | graph.cpp:85-104 | "" for an unknown label; otherwise the listing of its adjacency: `label(weight)` per neighbour, ascending by label, comma-separated |
| Graphs.Graph.TargetsKnown | graph.cpp:122-125 | in a valid graph every label in an adjacency list names a vertex |
| Graphs.Graph.Dfs | graph.cpp:159-166 | reports whether `start` is known; `start` is marked and nothing is unmarked; for a known start, exactly the vertices reachable from it through vertices unmarked at the call are added, and each of them, and `start`, has all its neighbours marked; for an unknown start only `start` is added |
| Graphs.Graph.VisitNeighbour | graph.cpp:162-164 | one pass of the `dfs` loop: afterwards the neighbour is marked, no mark is removed, and every newly marked vertex is reachable and, except `start`, has all its neighbours marked |
| Graphs.Graph.VisitNeighbours | graph.cpp:161-165 | after the loop every neighbour of `start` is marked, nothing is unmarked, and every newly marked vertex is reachable and, except `start`, has all its neighbours marked |
| Graphs.Graph.Expand | graph.cpp:176-181 | marks every neighbour of `u`, and returns exactly the neighbours that were not marked before |
| Graphs.Graph.Bfs | graph.cpp:169-183 | as written: reports whether `start` is known; the new marks are exactly `start` and, for a known start, its direct neighbours |
| Graphs.Graph.BfsCorrected | graph.cpp:169-183 | as intended: the new marks are exactly `start` and the vertices reachable from it through vertices unmarked at the call |
| Adjacency.AddVertex | graph.cpp:48-57 | `add` on the vertex map: the labels are the old ones plus `name`, every old adjacency is kept, and a new label's adjacency is empty |
| Adjacency.Linked | graph.cpp:111-125 | one direction of `connect` on the vertex map: the labels are the old ones plus both endpoints, and `from`'s adjacency grows by one entry, `(to, w)`, at the end |
| Adjacency.RemoveEdge | graph.cpp:137-142 | the edge-list edit of `disconnect`: one record shorter when some record runs from `from` to `to`, the same length otherwise |
| Adjacency.Unlinked | graph.cpp:143-150 | one direction of `disconnect` on the vertex map: the labels are unchanged, and so is every adjacency except `from`'s |
| Adjacency.OutOfAppend | graph.cpp:121-125 | appending a record extends only its source's out-list, at the end |
| Adjacency.OutOfRemove | graph.cpp:137-150 | removing the first `from -> to` record removes the first `to` entry from `from`'s out-list and changes no other out-list |
| Adjacency.OutOfLabels | graph.cpp:122-125 | an adjacency entry `(t, w)` of `v` exists exactly when the record `(v, t, w)` does |
| Adjacency.OutOfDistinct | graph.h:5 | with one edge per ordered pair, no label appears twice in an adjacency list |
| Adjacency.RemoveEdgeAt | graph.cpp:137-142 | removing the first match at index `i` drops exactly that record |
| Adjacency.RemoveEdgeAbsent | graph.cpp:137-142 | removing an absent pair changes nothing |
| Adjacency.RemoveNeighbour | graph.cpp:143-150 | the adjacency edit of `disconnect`: either exactly one entry goes or nothing changes, and nothing changes only when no entry names `name`; `RemoveNeighbourAt` says which entry goes |
| Adjacency.NeighbourPresent | graph.cpp:143-150 | in a well-formed store the source of an edge is a vertex whose adjacency names the target, so the entry loop of `disconnect` finds it |
| Adjacency.EraseAt | graph.cpp:137-150 | dropping the first matching record and the first matching adjacency entry, at the indices the two loops find, is `RemoveEdge` and `Unlinked` |
| Adjacency.RemoveNeighbourAt | graph.cpp:143-150 | removing the first entry naming `name`, at index `i`, drops exactly that entry |
| Adjacency.RemoveEdgeExactly | graph.cpp:137-142 | with unique pairs, removal shortens the list by one, leaves no `from -> to` record, and keeps every other pair's presence |
| Adjacency.UnlinkedShape | graph.cpp:143-150 | a successful one-direction disconnect removes exactly the first entry naming `to` from `from`'s adjacency, keeps the others in order, lowers its degree by one, and changes no other vertex |
| Adjacency.LinkedShape | graph.cpp:111-125 | a successful one-direction connect creates missing endpoints with empty adjacency, appends `(to, w)` to `from`, and changes no other vertex |
| Adjacency.EdgeInAdjacency | graph.cpp:69-81 | an edge record `from -> to` exists exactly when `from` is known and its adjacency names `to` |
| Adjacency.AddKeepsWellformed | graph.cpp:48-57 | adding a vertex keeps the invariants |
| Adjacency.ConnectKeepsWellformed | graph.cpp:111-125 | one accepted connect direction keeps the invariants |
| Adjacency.DisconnectKeepsWellformed | graph.cpp:137-150 | one disconnect direction keeps the invariants |
| Adjacency.MirrorAbsent | graph.h:71 | in a mirrored store an edge and its reverse are both present or both absent |
| Adjacency.MirrorPresent | graph.h:71 | in a mirrored store the reverse of a present edge is present too |
| Adjacency.RemoveBoth | graph.cpp:133-156 | with one record per pair and both directions present, the two removals of an undirected `disconnect` take out exactly two records and leave neither direction |
| Adjacency.MirrorStep | graph.cpp:121-127 | after the first direction of an undirected connect, the new edge is the only one without a mirror |
| Adjacency.MirrorClosed | graph.cpp:126-128 | once the pending edge's reverse exists, every edge has its mirror again |
| Adjacency.UnmirrorStep | graph.cpp:151-153 | after the first direction of an undirected disconnect, only the reverse edge lacks a mirror, and the store is mirrored once that is gone |
| Adjacency.EdgeCountIsDegreeSum | graph.cpp:36-45 | when adjacency lists agree with the edge list, the number of records is the sum of all out-degrees |
| Format.Digits | graph.cpp:94 | the decimal text of a natural number is non-empty and all digits, with no leading zero for a positive number |
| Format.IntToString | graph.cpp:94 | `std::to_string(int)`: non-empty, with a leading minus exactly for negative values |
| Format.DigitsRoundTrip | graph.cpp:94 | reading the digits back gives the number |
| Format.IntToStringRoundTrip | graph.cpp:94 | reading the weight text back gives the weight, so distinct weights render differently |
| Format.DropLast | graph.cpp:101 | `substr(0, size() - 1)`: the text without its last character, and "" for an empty text |
| Format.Terminated | graph.cpp:98-100 | the text the in-order loop accumulates is "" exactly when there are no entries, and otherwise ends with a comma; `TerminatedSnoc`, `TerminatedJoin` and `DropLastTerminated` relate it to the loop and the comma-joined entries |
| Format.TerminatedSnoc | graph.cpp:98-100 | each loop step appends one entry and a comma |
| Format.TerminatedJoin | graph.cpp:98-100 | the entries each followed by a comma are the comma-joined entries plus one trailing comma |
| Format.DropLastTerminated | graph.cpp:98-101 | trimming the accumulated text gives the comma-joined entries, without a trailing comma |
| Format.JoinCommaEmpty | graph.cpp:98-102 | joining non-empty entries gives "" exactly when there are none |
| Listing.Entry | graph.cpp:92-95 | an entry `label(weight)` is never empty |
| Listing.EntryTexts | graph.cpp:91-97 | the label-to-text table has exactly the labels of the weight table |
| Listing.Weights | graph.cpp:91-97 | the label-to-weight table the first loop fills in: a later entry replaces an earlier one for the same label, so the last entry's label maps to its weight; `WeightsOf` gives its labels and, without repeated labels, every weight |
| Listing.WeightsOf | graph.cpp:91-97 | the table holds exactly the adjacency's labels; without repeated labels each maps to its edge's weight |
| Listing.ListingOf | graph.cpp:85-104 | the reference text of `getEdgesAsString` for a known vertex: the weight table rendered in ascending label order; it is "" exactly when the vertex has no out-edges |
| Listing.ListingIgnoresOrder | graph.cpp:89-100 | two adjacency lists without repeated labels (true of every valid graph, by `Adjacency.OutOfDistinct`) and with the same entries, in any order, give the same listing |
| Listing.ListingIs | graph.cpp:85-104 | for any strictly ascending sequence of exactly the neighbour labels, the listing is their entries in that order joined by commas |
| Ordering.Less | graph.cpp:89 | the `std::string` key order of the table: a proper prefix sorts before the longer label; `LessIrreflexive`, `LessAsymmetric`, `LessTransitive` and `LessTotal` make it a strict total order |
| Ordering.LessIrreflexive | graph.cpp:89 | no label sorts before itself |
| Ordering.LessAsymmetric | graph.cpp:89 | two labels never sort before each other |
| Ordering.LessTransitive | graph.cpp:89 | the label order is transitive |
| Ordering.LessTotal | graph.cpp:89 | any two distinct labels are ordered one way or the other |
| Ordering.LeastExists | graph.cpp:98 | every non-empty key set has a least key |
| Ordering.Least | graph.cpp:98 | the key an in-order walk visits first is the least one |
| Ordering.Ascending | graph.cpp:98-100 | the keys in the order the in-order walk visits them, least first: as many as there are keys; `AscendingSpec` and `AscendingUnique` characterise it |
| Ordering.AscendingSpec | graph.cpp:98-100 | the in-order walk visits every key exactly once, in strictly increasing order |
| Ordering.AscendingUnique | graph.cpp:98-100 | any strictly increasing sequence of exactly the keys is the in-order walk |
| Reach.ReachExtend | graph.cpp:161-164 | what the nested `dfs` from an unmarked neighbour reaches is reachable from the outer start |
| Reach.ReachComplete | graph.cpp:159-166 | if the start and every newly marked vertex have all neighbours marked, every vertex reachable through unmarked vertices was marked |
| Reach.OneStep | graph.cpp:176-181 | an unmarked direct neighbour of the start is reachable |
| Reach.ExploredAfterVisit | graph.cpp:161-165 | a nested `dfs` call keeps the outer loop's invariant |
| Reach.FrontierStep | graph.cpp:173-181 | dequeuing a vertex and marking and queuing its unmarked neighbours keeps the breadth-first invariant |
| Reach.FrontierComplete | graph.cpp:173-183 | with the queue empty, every vertex reachable from the start through unmarked vertices is marked |
| Scenarios.BasicScenario | graphtest.cpp:32-61 | `testGraphBasic` replayed on a new directed `Graph`: five `add`s succeed and the repeated `add("b")` fails; `connect("a", "b", 10)` succeeds and the duplicate and the self-loop are refused; after the `d` and `c` connects there are 5 vertices and 3 edges, degrees 3, 0 and -1 for `a`, `c` and `xxx`, `xxx` is unknown and `a` known; the listing of `a` is `b(10),c(20),d(40)`; `disconnect("a", "e")` is refused with 3 edges left and `disconnect("a", "c")` succeeds, leaving 2 edges, degree 2 for `a` and the listing `b(10),d(40)` |
| Scenarios.ListingBCD | graphtest.cpp:54 | the adjacency `[b(10), d(40), c(20)]`, in the order the test's connects build it, lists as `b(10),c(20),d(40)` |
| Scenarios.ListingBD | graphtest.cpp:61 | the adjacency `[b(10), d(40)]` left once the entry for `c` is removed lists as `b(10),d(40)` |
| Scenarios.BfsStopsShort | graph.cpp:176 | on the chain `a -> b -> c`, `c` is reachable from `a` but is neither `a` nor a neighbour of `a`, so `bfs` as written does not mark it |
| Scenarios.ChainReach | graph.cpp:169-183 | on the same chain exactly `a`, `b` and `c` are reachable from `a`, which is what `BfsCorrected` marks |

## Left out

- `readFile` (graph.cpp:255-272): file I/O. Its only logic is a loop of `connect` calls.
- The destructor and all memory management: vertices and edges are values here, and adjacency entries hold labels instead of `Vertex*` pointers.
- `dijkstra`, `mstPrim` and `mstKruskal` (graph.cpp:187-252): outside the modelled store. `dijkstra` is an unfinished attempt with no coherent contract. `mstPrim` returns -1 whenever it returns; for an unknown start, `vertices.at` at graph.cpp:235 throws first. `mstKruskal` is a stub that returns -1.
- The `visit` callbacks of `dfs` and `bfs`: neither traversal calls them, so only the effect on `visited` is modelled, not a visiting order.
- Graphs.Graph.Disconnect: the C++ loops erase from a vector while iterating it with a range-`for`, which is undefined behaviour. The model removes the single matching record and the single matching adjacency entry; with one edge per ordered pair there is only one of each.
- Graphs.Graph.Dfs: for an unknown start the C++ code throws `std::out_of_range` from `vertices.at` after marking the start. The model returns `known == false` with the start marked, and says nothing about exception propagation. `Bfs` and `BfsCorrected` do the same.
- Graphs.Graph.EdgesAsString: returns "" both for an unknown label and for a vertex without out-edges, as the code does; the contract of `Listing.ListingOf` says when the second case occurs.
- Weights are unbounded integers rather than 32-bit `int`. No operation does arithmetic on weights, so only their text matters, and `Format.IntToString` writes any integer as `std::to_string` does.
- Graphs.Graph.VerticesSize and Graphs.Graph.EdgesSize: the conversion of `size()` to `int` is not modelled to overflow.
- Ordering.Less: labels are sequences of Unicode characters compared by code point. `std::string` compares bytes as `unsigned char`; on UTF-8 text both orders agree, but byte-level encodings are not modelled.
- Concurrency is not modelled: the class is single-threaded.

## Findings

| source | as written | input that shows it | evidently intended | confidence | as-written member | corrected member |
|---|---|---|---|---|---|---|
| graph.cpp:176 | every dequeue scans the adjacency of `startLabel`, not of the dequeued `u`, so `bfs` marks only the start and its direct neighbours | chain `a -> b -> c`, nothing marked, `bfs("a")`: `c` is reachable but is never marked | scan the adjacency of the dequeued vertex, marking everything reachable through unmarked vertices, as `dfs` does | not executed | `Graphs.Graph.Bfs`, with `Scenarios.BfsStopsShort` | `Graphs.Graph.BfsCorrected`, with `Scenarios.ChainReach` |
