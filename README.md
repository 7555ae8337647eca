# Dijkstra's algorithm, three ways — a verified model

This project models the shortest-path engine `Indexer` and the line parsers
that build its adjacency list. The engine computes single-source shortest
distances over a directed graph with non-negative integer weights in three ways:

- `dijkstra1`: an O(V²) array scan, which picks the nearest unvisited vertex
  with `findMinVertex` in each round;
- `firstDijkstra2`: a lazy priority queue, seeded with the start vertex only;
- `secondDijkstra2`: an eager priority queue, seeded with every vertex.

Each variant owns a distance array, a visited array and two counters. Vertices
are rows of the adjacency list, numbered from 0 by line order. The destination
stored in an `Edge` is 1-based. Queue entries reuse `Edge` as a pair of a
0-based vertex and a key. `Integer.MAX_VALUE` stands for "unreached".

Modules, one per file:

- `JavaText` (`java_text.dfy`): Java `int` wrap-around, `Integer.parseInt`,
  `Integer.toString`, `String.split` on one character, and `String.trim` blankness.
- `Edges` (`edge.dfy`): the immutable `Edge` value with its getters and `toString`.
- `PriorityQueues` (`priority_queue.dfy`): the queue as a multiset of entries.
  `poll` removes *some* entry of least key, because `java.util.PriorityQueue`
  leaves tie order unspecified.
- `Graphs` (`graphs.dfy`): walks, reachability, and what "shortest distance" means.
  It also defines the invariant every relaxation keeps: each finite distance is
  the length of a real walk (`Justified`).
- `EngineInvariants` (`indexer_proofs.dfy`): the loop invariants of the three
  variants and the lemmas that carry them from one step to the next.
- `ShortestPath` (`indexer.dfy`): the `Indexer` class. It keeps the source's arrays
  and counters as fields and updates them in place with the source's loops.
- `Parsing` (`parsing.dfy`): the parsing shared by both readers. This covers the
  "first exception wins" loop over lines or blocks, the blank-line stopping rule,
  the `d,w` block, and the textual line format.
- `DataReader` (`data_reader.dfy`) and `GraphReader` (`graph_reader.dfy`): the two
  line readers. Each has its imperative loops, a pure specification of one line,
  and round-trip and comparison lemmas.

The three variants are proved to compute the shortest distances. The proof needs
these preconditions:

- weights are non-negative;
- destinations lie in `[1, numVer]`;
- `numVer * maxWeight < Integer.MAX_VALUE`, so that no path sum overflows.

Under those preconditions:

- `firstDijkstra2` needs nothing more.
- `dijkstra1` hits an exception exactly when some vertex is unreachable.
  `findMinVertex` then returns -1 and `visited1[-1]` throws; the model returns
  `None` in that case.
- `secondDijkstra2` needs every vertex the start cannot reach to have only
  edges of weight 0, if any. Every reachable graph qualifies, and so does
  `[[], []]` with start vertex 2. An unreachable vertex keeps its seeded entry,
  keyed `Integer.MAX_VALUE`, and is eventually polled. If it has an edge of
  positive weight, the `int` sum at line 242 then wraps negative, passes the
  `<` test and is written. `EngineInvariants.EagerUnreachableWraps` exhibits this.

The model departs from the source in two places:

- `GraphReader.readLine` builds its edges with a three-argument `Edge`
  constructor, which `src/Edge.java` does not declare. The model gives that
  triple its own type, `GraphReader.SourcedEdge`.
- `buildList` tests `eachBlock != blocks[0]` by reference. The model treats this
  as "the block at index 0". The two readings can differ only when a later block
  is the very same string object as the first. That cannot happen for distinct
  `split` results, except that Java may intern an empty string. An empty first
  field makes the start-vertex parse fail on every later block anyway.

## Model

| member | source | states |
|---|---|---|
| ShortestPath.Indexer.constructor | src/Indexer.java:74-103 | every distance is `Integer.MAX_VALUE` except 0 at `startVertex-1`, every visited flag is false, all six counters are 0, and the six arrays are fresh and distinct |
| ShortestPath.Indexer.ResetArrays | src/Indexer.java:82-95 | the initialisation loop and the three start-vertex writes leave exactly the initial distances and all-false visited arrays |
| ShortestPath.Indexer.FindMinVertex | src/Indexer.java:152-171 | returns -1 exactly when no unvisited vertex has a distance below `MAX_VALUE`; otherwise an unvisited vertex with finite and least distance, strictly nearer than every unvisited vertex before it (the first minimum wins) |
| ShortestPath.Indexer.Dijkstra1 | src/Indexer.java:112-143 | succeeds exactly when every vertex is reachable, and then returns `dist1` holding the shortest distances, with `countVer1` raised by `numVer` and every vertex visited; otherwise fails at the `visited1[-1]` write (line 124) after fewer than `numVer` visits; `countEdge1` grows by at most the total decrease of `dist1`, the start stays 0 and no entry grows |
| ShortestPath.Indexer.VisitVertex | src/Indexer.java:118-139 | one round: marks exactly the chosen vertex visited, so one more vertex is visited. `dist1` becomes `RelaxRow` of the old array over the vertex's whole row: each edge in order, its target overwritten with the `int` sum when that is strictly smaller. `countEdge1` rises by the number of overwrites (`RowPushes`). The scan invariant is kept: visited vertices are settled and no farther than unvisited ones |
| ShortestPath.Indexer.RelaxScanRow | src/Indexer.java:131-139 | after the inner loop, `dist1` is `RelaxRow` of the old array over the chosen vertex's whole row, and `countEdge1` grew by one per overwrite (`RowPushes`). Every finite entry is still a walk length, and each edge's target is at most the chosen distance plus its weight |
| ShortestPath.Indexer.RelaxScanEdge | src/Indexer.java:133-137 | `dist1` becomes `RelaxStep` of the old array: the target is overwritten with the `int` sum exactly when that sum is strictly smaller, and nothing else changes. `countEdge1` rises by the size of `StepPush`, i.e. by one exactly on an overwrite |
| ShortestPath.Indexer.FirstDijkstra2 | src/Indexer.java:179-206 | returns `firstDist2` holding the shortest distances, with no reachability requirement; `countVer2 == countEdge2 + 1` (one seed plus one push per improvement); the start stays 0 and no entry grows |
| ShortestPath.Indexer.LazyRound | src/Indexer.java:187-202 | one pass of the `while` loop: polls and returns an entry `cur` of least key and raises `countVer2` by one. `firstDist2` becomes `RelaxRow` of the old array over the row of `cur`'s vertex, and the queue becomes the old one less `cur` plus exactly the `RowPushes` entries. The queue invariants hold again and no distance rises. `countEdge2` grows by the queue's growth plus one, bounded by the fall in the sum of distances. Either that sum falls, or it stays and the queue shrinks, which ends the loop |
| ShortestPath.Indexer.RelaxLazyRow | src/Indexer.java:193-202 | `firstDist2` is `RelaxRow` of the old array over the polled vertex's whole row, computed with the live distance. The queue is the old one plus exactly the `RowPushes` entries, one `Edge(dest-1, newDistance)` per overwrite. `countEdge2` grows by the number of entries pushed. The row invariant holds after the last edge: walk witnesses, valid entries and pending promises |
| ShortestPath.Indexer.RelaxLazyEdge | src/Indexer.java:195-200 | `firstDist2` becomes `RelaxStep` of the old array. The queue becomes the old one plus `StepPush`: exactly `Edge(dest-1, newDistance)` on an improvement, nothing otherwise. `countEdge2` rises by the size of the push |
| ShortestPath.Indexer.SecondDijkstra2 | src/Indexer.java:214-255 | when every vertex the start cannot reach has only edges of weight 0, returns `secondDist2` holding the shortest distances, with every vertex marked in `secondVisited2`. `countVer3 == numVer + countEdge3`. `countEdge3` grows by at most the total decrease, the start stays 0 and no entry grows |
| ShortestPath.Indexer.EagerRound | src/Indexer.java:232-251 | polls and returns an entry `cur` of least key and marks exactly its vertex in `secondVisited2`. `secondDist2` becomes `RelaxRow` of the old array over that vertex's row, and the queue becomes the old one less `cur` plus exactly the `RowPushes` entries. The queue invariants hold again and no distance rises. `countEdge3` grows by the queue's growth plus one, bounded by the fall in the sum of distances. Either that sum falls, or it stays and the queue shrinks |
| ShortestPath.Indexer.SeedAll | src/Indexer.java:222-225 | the seeded queue holds exactly one entry `Edge(i, secondDist2[i])` for each vertex `i` |
| ShortestPath.Indexer.RelaxEagerRow | src/Indexer.java:239-251 | `secondDist2` is `RelaxRow` of the old array over the polled vertex's whole row. The queue is the old one plus exactly the `RowPushes` entries, and `countEdge3` grows by their number. The row invariant holds after the last edge |
| ShortestPath.Indexer.RelaxEagerEdge | src/Indexer.java:242-249 | `secondDist2` becomes `RelaxStep` of the old array. The queue becomes the old one plus `StepPush`: exactly `Edge(dest-1, newDistance)` on an improvement, nothing otherwise. `countEdge3` rises by the size of the push |
| ShortestPath.Indexer.RunAll | src/Indexer.java:21-23 | run one after another on a fresh engine over a graph whose vertices are all reachable, the three variants return equal arrays, the shortest distances |
| Graphs.ShortestDistancesUnique | src/Indexer.java:21-23 | at most one array holds the shortest distances, so any two variants that compute them agree |
| Graphs.ReachableIffFinite | src/Indexer.java:87-89 | in a shortest-distance array, `MAX_VALUE` marks exactly the unreachable vertices |
| Graphs.ClosedIsShortest | src/Indexer.java:131-138 | once every vertex is relaxed (no edge can improve any entry), an array whose finite entries are lengths of real walks holds exactly the shortest distances |
| Graphs.RelaxKeepsJustified | src/Indexer.java:133-136 | writing `dist[u] + w` into the destination of an edge out of `u` keeps every finite entry the length of a walk from the start |
| Graphs.FiniteIsReachable | src/Indexer.java:133-136 | every finite entry of a justified distance array names a vertex the start reaches, since only walk sums are written, so an unreachable vertex keeps `MAX_VALUE` |
| Graphs.FiniteDistanceBound | src/Indexer.java:133 | every finite distance is at most `(numVer-1) * maxWeight`, so the `int` sums in the relaxations never overflow |
| Graphs.InitialDistances | src/Indexer.java:87-95 | one entry per vertex: 0 at the start vertex and `MAX_VALUE` elsewhere |
| EngineInvariants.EagerPollFinite | src/Indexer.java:233-242 | when every vertex is reachable, the least entry the eager queue polls names a vertex with a finite distance, so line 242 cannot overflow |
| EngineInvariants.EagerPollCloses | src/Indexer.java:228-236 | when the least key in the eager queue is `MAX_VALUE`, every vertex is settled: no edge can improve any entry |
| EngineInvariants.EagerPollStartsRow | src/Indexer.java:233-239 | when unreachable vertices have only edges of weight 0, the polled vertex starts its row with the invariant: a finite distance, or else only edges of weight 0 |
| EngineInvariants.EagerPollUnreached | src/Indexer.java:233-251 | polling a vertex at `MAX_VALUE` means the distances are already the shortest and that vertex is unreachable. When its edges weigh nothing, its row changes no distance and pushes nothing |
| EngineInvariants.EagerRoundDone | src/Indexer.java:228-251 | when unreachable vertices have only edges of weight 0, a round of `secondDijkstra2` keeps the queue invariants and raises no distance. It lowers the sum of distances by at least the number of entries it queued; a round that changes no distance shrinks the queue |
| EngineInvariants.RoundDone | src/Indexer.java:187-202 | a round of either queue variant from a vertex with a finite distance keeps the queue invariants and raises no distance. The sum of distances falls by at least the number of entries queued, or else nothing changed and the queue shrank |
| EngineInvariants.SeededQueue | src/Indexer.java:222-225 | the queue seeded with one entry per vertex, keyed by its distance, satisfies the queue invariants and names every vertex |
| EngineInvariants.NamedAfterPoll | src/Indexer.java:233-236 | marking the polled vertex visited keeps every unvisited vertex named by some queue entry, so the loop ends with every vertex visited |
| EngineInvariants.RelaxStepExact | src/Indexer.java:133-136 | when `d[x] + w` fits in an `int`, the `int` test is the plain comparison, the overwrite writes `d[x] + w`, and the push is exactly `Edge(dest-1, d[x] + w)` |
| EngineInvariants.RelaxRowIsMin | src/Indexer.java:131-139 | with non-negative weights and sums that fit, relaxing a row keeps `d[x]` and raises no distance. It leaves each edge's target at most `d[x]` plus the weight, and sets each changed distance to `d[x]` plus the weight of some edge of the row into it |
| EngineInvariants.RelaxRowQueued | src/Indexer.java:193-202 | every entry pushed while relaxing a row names a vertex with a key strictly below its old distance and no lower than its final one. Every changed distance is pushed with its final value |
| EngineInvariants.RowSum | src/Indexer.java:193-202 | relaxing a row lowers the sum of distances by at least the number of entries pushed, and a row that pushes nothing changes nothing |
| EngineInvariants.RelaxRowUnreached | src/Indexer.java:239-251 | the row of a vertex at `MAX_VALUE` whose edges weigh 0 changes no distance and pushes nothing: the `int` sum is `MAX_VALUE` again and improves nothing |
| EngineInvariants.EagerUnreachableWraps | src/Indexer.java:242-244 | for any distances, polling a vertex at `MAX_VALUE` with an edge of positive weight to a target at a non-negative distance makes the `int` sum fall between `MIN_VALUE` and -2. The sum passes the `<` test, and `RelaxStep` writes that negative value |
| EngineInvariants.UnreachedQueuedAtMax | src/Indexer.java:224-233 | while the eager loop runs, an unpolled vertex the start cannot reach is still in the queue, and every entry naming it has key `MAX_VALUE`; the loop, which runs until the queue is empty, therefore polls it with that key |
| EngineInvariants.PollKeepsPending | src/Indexer.java:189 | polling one entry keeps, for every other vertex, either its exact-key entry or its relaxed edges |
| EngineInvariants.ScanDone | src/Indexer.java:115-140 | once all `numVer` rounds have visited every vertex, every vertex is reachable and the array holds the shortest distances |
| EngineInvariants.ScanStuck | src/Indexer.java:121-124 | when no unvisited vertex has a finite distance but fewer than `numVer` are visited, some vertex is unreachable |
| EngineInvariants.SumDecrease | src/Indexer.java:136 | lowering one entry lowers the sum of distances, the measure that bounds every edge counter and ends both queue loops |
| EngineInvariants.TrueCountMark | src/Indexer.java:124 | marking an unvisited vertex raises the number of visited vertices by exactly one |
| PriorityQueues.Poll | src/Indexer.java:189 | removes exactly one entry of least key and returns it |
| PriorityQueues.ComparatorSound | src/Indexer.java:182 | `a.getWeight() - b.getWeight()` orders keys correctly while both lie in `[0, MAX_VALUE]` |
| PriorityQueues.ComparatorWrapsOnNegativeKey | src/Indexer.java:217 | outside that range the comparator inverts the order: every key from `MIN_VALUE` to -2, though smaller, compares above `MAX_VALUE`. Each wrapped sum line 242 can write lies in that range (`EagerUnreachableWraps`) |
| Edges.GettersReturnArguments | src/Edge.java:26-46 | `getDestination` and `getWeight` return the constructor's arguments |
| Edges.ToStringInjective | src/Edge.java:53-56 | `toString` prints the destination line then the weight line; distinct edges print differently |
| JavaText.ParseIntToString | src/DataReader.java:142 | `Integer.parseInt` reads back exactly the `int` written in decimal and refuses every integer outside `int` |
| JavaText.IntToStringInjective | src/Edge.java:55 | two integers with the same decimal text are equal |
| JavaText.Split | src/DataReader.java:128 | no piece contains the separator. The empty input gives `[""]`; otherwise the last piece is non-empty, or there are none. Joining the pieces, with the dropped trailing empty pieces restored, gives the input back |
| JavaText.SplitJoin | src/DataReader.java:128 | fields that do not contain the separator, the last one non-empty, come back exactly when joined and split again |
| JavaText.SplitJoinTrailing | src/DataReader.java:128 | trailing empty fields are dropped: the fields before them come back |
| JavaText.JoinPieces | src/DataReader.java:128 | cutting a string at every separator and joining the pieces again gives the string back |
| JavaText.BlankIffAllSpace | src/DataReader.java:94-95 | `trim().equals("")` holds exactly when every character is at most U+0020 |
| JavaText.Wrap32 | src/Indexer.java:242 | the result is always an `int`, and equal to the exact value when that fits. Otherwise it differs from the exact value by a multiple of `2^32`: a value just above `MAX_VALUE` loses exactly `2^32`, and one just below `MIN_VALUE` gains it |
| Parsing.LinesRead | src/DataReader.java:94-95 | reading stops at the first blank line or at the end of input; every line before that is non-blank |
| Parsing.ReadAllRows | src/DataReader.java:94-103 | `readData` succeeds exactly when every line read parses, and then holds one row per line read, row `k` parsed from line `k` |
| Parsing.ReadAllIgnoresRest | src/DataReader.java:94-95 | lines after the first blank line are never read: appending to the input changes nothing |
| Parsing.MapAllFailure | src/DataReader.java:106 | a failing loop reports the exception of its first failing element, after all earlier elements succeeded |
| Parsing.BlockFieldsValues | src/DataReader.java:141-142 | a block parses exactly when its first two comma-separated fields are `int`s, to those two values |
| Parsing.MissingWeight | src/DataReader.java:142 | a block without a comma fails out of bounds at `commas[1]` |
| Parsing.BlockFieldsRoundTrip | src/DataReader.java:141-142 | a block written from two `int`s parses back to them |
| DataReader.AddEdge | src/DataReader.java:158-165 | appends exactly one edge, built from the destination and weight as given, keeping the row before it; the start vertex is not stored |
| DataReader.BuildList | src/DataReader.java:122-148 | the loop over blocks computes exactly the row `RowOf` describes, or its first exception |
| DataReader.ReadData | src/DataReader.java:86-113 | the loop over lines computes exactly one row per line before the first blank line, or the first exception |
| DataReader.RowShape | src/DataReader.java:128-145 | `buildList` succeeds exactly when every block after the first parses; it then holds one edge per such block, in order, with destination and weight as parsed (still 1-based) |
| DataReader.RowFailure | src/DataReader.java:141-142 | a failing line fails at its first bad block, and every earlier block parses |
| DataReader.LoneVertexField | src/DataReader.java:139-142 | a line with only a vertex field gives an empty row, without parsing that field |
| DataReader.BadVertexField | src/DataReader.java:136-142 | a non-`int` vertex field throws `NumberFormatException` as soon as one edge block exists |
| DataReader.StartNotStored | src/DataReader.java:136-165 | the vertex field never reaches the row: two lines that differ only in their `int` vertex field, written in decimal, give the same row |
| DataReader.BuildListRoundTrip | src/DataReader.java:122-148 | the row of `int` edges written as a line reads back unchanged |
| GraphReader.ReadLine | GraphReader.java:91-112 | the indexed loop computes exactly the edges `LineEdges` describes, or its first exception |
| GraphReader.ReadData | GraphReader.java:59-83 | the loop over lines computes exactly one edge list per line before the first blank line, or the first exception |
| GraphReader.LineShape | GraphReader.java:101-109 | `readLine` succeeds exactly when the first field and every later block parse; it then holds `blocks.length - 1` edges, each with source `first - 1`, destination `d - 1` and weight `w`, in block order |
| GraphReader.OneSourcePerLine | GraphReader.java:101-107 | every edge from one line carries the same source |
| GraphReader.SourceAlwaysParsed | GraphReader.java:101 | a non-`int` first field throws even on a line with no edges |
| GraphReader.ReadLineRoundTrip | GraphReader.java:91-112 | 0-based edges written as a 1-based line read back unchanged |
| GraphReader.ReadersAgree | GraphReader.java:101-109 | when `readLine` succeeds `buildList` succeeds too, with as many edges, each with the same weight and a destination one less |
| GraphReader.ReadersAgreeConverse | GraphReader.java:101-109 | when `buildList` gives a non-empty row, `readLine` succeeds on the same line |

## Left out

- Console prompts (the file name and the start vertex) and file opening: the graph and the start vertex are constructor parameters, and `readData` reads a given sequence of lines.
- `IOException` and its `return null` path: the model has no I/O, so reading a line cannot fail.
- All printing: `Debug.println`, the `printResults*` methods, and the driver `src/App.java` except for the order in which it runs the variants (`RunAll`).
- `java.util.PriorityQueue` internals: the queue is a multiset with "remove some entry of least key". Tie order, and the comparator's behaviour on keys outside `[0, MAX_VALUE]`, are not modelled beyond the two comparator lemmas.
- `Integer.parseInt` is an optional sign followed by decimal digits with the `int` range check. Other radixes and Unicode digits are not modelled.
- `String.split` is modelled for a single separator character, with trailing empty pieces removed. General regular expressions are not modelled.
- ShortestPath.Indexer.Dijkstra1: requires the initial state the constructor sets up, so a second call on the same engine is not covered.
- ShortestPath.Indexer.FirstDijkstra2: likewise requires the initial distances.
- ShortestPath.Indexer.SecondDijkstra2: requires every vertex the start cannot reach to have only edges of weight 0. Such a vertex is polled with key `Integer.MAX_VALUE`, and an edge of positive weight out of it makes the `int` sum at line 242 wrap negative and be written. The run after that point is not modelled. `UnreachedQueuedAtMax` shows that such a vertex is polled with that key, and `EagerUnreachableWraps` shows the wrap itself.
- ShortestPath.Indexer.Dijkstra1, FirstDijkstra2 and SecondDijkstra2: require non-negative weights, destinations in `[1, numVer]` and `numVer * maxWeight < Integer.MAX_VALUE`. Non-negative weights are what makes the greedy choice of Dijkstra's algorithm correct. The other two keep every index and every sum in range. In the source, a negative weight throws nothing, and a path sum that overflows wraps silently in Java `int` addition. Of the three conditions, only a destination outside `[1, numVer]` makes the source throw: `ArrayIndexOutOfBoundsException` at line 134, 195 or 242. The overflow bound is sufficient, not the point where wrapping starts: `[[Edge(2, 0x4000_0000)], []]` from vertex 1 fails it, yet its only sum, `0x4000_0000`, fits. Runs on such inputs are not modelled.
- ShortestPath.Indexer.constructor: requires `1 <= startVertex <= |graph|`. The source accepts any `startVertex` from the console in `[1, Integer.MAX_VALUE]`, and a value above `numVer` throws `ArrayIndexOutOfBoundsException` at line 93. That failure is not modelled.
- GraphReader.ReadLine: builds `SourcedEdge` values, because `src/Edge.java` has no three-argument constructor and the source as written does not compile against it.
- DataReader.BuildList: models the reference test `eachBlock != blocks[0]` as "index is not 0". The two readings can differ only when the first field is empty (an empty later block may then be the same object), and both readings then throw `NumberFormatException` from parsing that empty field.
