/**
 * `Indexer`: the single-source shortest-path engine. It owns one adjacency list,
 * a 1-based start vertex, and for each of three variants of Dijkstra's algorithm
 * a distance array, a visited array and two counters (vertices polled or scanned,
 * and distance entries improved). Distances are Java `int`s with
 * `Integer.MAX_VALUE` standing for "unreached".
 */
module ShortestPath {
  import opened Wrappers
  import opened JavaText
  import opened Edges
  import opened Graphs
  import opened PriorityQueues
  import opened EngineInvariants

  class Indexer {
    const graph: Graph
    const numVer: int
    const startVertex: int
    const dist1: array<int>
    const firstDist2: array<int>
    const secondDist2: array<int>
    const visited1: array<bool>
    const firstVisited2: array<bool>
    const secondVisited2: array<bool>

    /** Vertices scanned by `dijkstra1`, entries polled by `firstDijkstra2` and by `secondDijkstra2`. */
    var countVer1: int
    var countVer2: int
    var countVer3: int
    /** Distance entries improved by each of the three variants. */
    var countEdge1: int
    var countEdge2: int
    var countEdge3: int

    /** One entry per vertex in each of six separate arrays, and a start vertex that names a vertex. */
    ghost predicate Valid() {
      numVer == |graph| && 1 <= startVertex <= numVer &&
      dist1.Length == numVer && firstDist2.Length == numVer && secondDist2.Length == numVer &&
      visited1.Length == numVer && firstVisited2.Length == numVer && secondVisited2.Length == numVer &&
      dist1 != firstDist2 && dist1 != secondDist2 && firstDist2 != secondDist2 &&
      visited1 != firstVisited2 && visited1 != secondVisited2 && firstVisited2 != secondVisited2
    }

    /**
     * The engine for `graph` and `startVertex`, which in the program come from the
     * file reader and a prompt: every vertex unvisited and unreached except the start
     * vertex at distance 0, and every counter at 0.
     */
    constructor (graph: Graph, startVertex: int)
      requires 1 <= startVertex <= |graph|
      ensures Valid() && this.graph == graph && this.startVertex == startVertex
      ensures fresh(dist1) && fresh(firstDist2) && fresh(secondDist2)
      ensures fresh(visited1) && fresh(firstVisited2) && fresh(secondVisited2)
      ensures dist1[..] == InitialDistances(numVer, startVertex - 1)
      ensures firstDist2[..] == InitialDistances(numVer, startVertex - 1)
      ensures secondDist2[..] == InitialDistances(numVer, startVertex - 1)
      ensures forall i :: 0 <= i < numVer ==> !visited1[i] && !firstVisited2[i] && !secondVisited2[i]
      ensures countVer1 == 0 && countVer2 == 0 && countVer3 == 0
      ensures countEdge1 == 0 && countEdge2 == 0 && countEdge3 == 0
    {
      this.graph := graph;
      this.startVertex := startVertex;
      numVer := |graph|;
      visited1 := new bool[|graph|];
      firstVisited2 := new bool[|graph|];
      secondVisited2 := new bool[|graph|];
      dist1 := new int[|graph|];
      firstDist2 := new int[|graph|];
      secondDist2 := new int[|graph|];
      countEdge1, countEdge2, countEdge3 := 0, 0, 0;
      countVer1, countVer2, countVer3 := 0, 0, 0;
      new;
      ResetArrays();
    }

    /**
     * The constructor's loop over the vertices: every vertex unvisited and at
     * distance `Integer.MAX_VALUE`, then the start vertex at distance 0.
     */
    method ResetArrays()
      requires Valid()
      modifies dist1, firstDist2, secondDist2, visited1, firstVisited2, secondVisited2
      ensures dist1[..] == InitialDistances(numVer, startVertex - 1)
      ensures firstDist2[..] == InitialDistances(numVer, startVertex - 1)
      ensures secondDist2[..] == InitialDistances(numVer, startVertex - 1)
      ensures forall i :: 0 <= i < numVer ==> !visited1[i] && !firstVisited2[i] && !secondVisited2[i]
    {
      for i := 0 to numVer
        invariant forall k :: 0 <= k < i ==> !visited1[k] && !firstVisited2[k] && !secondVisited2[k]
        invariant forall k :: 0 <= k < i ==> dist1[k] == MAX_VALUE && firstDist2[k] == MAX_VALUE && secondDist2[k] == MAX_VALUE
      {
        visited1[i] := false;
        firstVisited2[i] := false;
        secondVisited2[i] := false;
        dist1[i] := MAX_VALUE;
        firstDist2[i] := MAX_VALUE;
        secondDist2[i] := MAX_VALUE;
      }
      ghost var init := InitialDistances(numVer, startVertex - 1);
      dist1[startVertex - 1] := 0;
      assert dist1[..] == init;
      firstDist2[startVertex - 1] := 0;
      assert firstDist2[..] == init;
      secondDist2[startVertex - 1] := 0;
      assert secondDist2[..] == init;
    }

    /**
     * `findMinVertex`: the unvisited vertex of least finite distance, the first one
     * in index order among equals, or -1 when every unvisited vertex is at infinity.
     */
    method FindMinVertex(dist: array<int>, visited: array<bool>) returns (minVertex: int)
      requires dist.Length == numVer && visited.Length == numVer
      ensures -1 <= minVertex < numVer
      ensures minVertex == -1 <==> NoneLeft(dist[..], visited[..])
      ensures minVertex >= 0 ==> Nearest(dist[..], visited[..], minVertex)
    {
      var minDist := MAX_VALUE;
      minVertex := -1;
      for i := 0 to numVer
        invariant -1 <= minVertex < i || (minVertex == -1 && i == 0)
        invariant minVertex == -1 ==> minDist == MAX_VALUE
        invariant minVertex == -1 ==> forall k :: 0 <= k < i ==> visited[k] || dist[k] >= MAX_VALUE
        invariant minVertex >= 0 ==> !visited[minVertex] && minDist == dist[minVertex] < MAX_VALUE
        invariant forall k :: 0 <= k < i && !visited[k] ==> minDist <= dist[k]
        invariant minVertex >= 0 ==> forall k :: 0 <= k < minVertex && !visited[k] ==> minDist < dist[k]
      {
        if !visited[i] && dist[i] < minDist {
          minDist := dist[i];
          minVertex := i;
        }
      }
    }

    /**
     * `dijkstra1`, the array scan: `numVer` rounds, each marking the nearest unvisited
     * vertex and relaxing its edges. When some vertex cannot be reached the scan runs
     * out of finite vertices and `visited1[-1]` raises `ArrayIndexOutOfBoundsException`,
     * which is `None` here; otherwise the array holds the shortest distances.
     */
    method Dijkstra1() returns (r: Option<array<int>>)
      requires Valid() && WellFormed(graph) && NoOverflow(graph)
      requires dist1[..] == InitialDistances(numVer, startVertex - 1)
      requires forall i :: 0 <= i < numVer ==> !visited1[i]
      modifies this`countVer1, this`countEdge1, dist1, visited1
      ensures r.Some? <==> AllReachable(graph, startVertex - 1)
      ensures r.Some? ==> r.value == dist1 && ShortestDistances(graph, startVertex - 1, dist1[..])
      ensures r.Some? ==> countVer1 == old(countVer1) + numVer && forall v :: 0 <= v < numVer ==> visited1[v]
      ensures r.None? ==> TrueCount(visited1[..]) < numVer && countVer1 == old(countVer1) + TrueCount(visited1[..]) + 1
      ensures countEdge1 - old(countEdge1) <= Sum(old(dist1[..])) - Sum(dist1[..])
      ensures dist1[startVertex - 1] == 0 && forall v :: 0 <= v < numVer ==> dist1[v] <= old(dist1[v])
    {
      ghost var s := startVertex - 1;
      ghost var d0, edges0 := dist1[..], countEdge1;
      ghost var wit := ScanStart(graph, s, visited1[..]);
      ghost var bound := 0;
      var i := 0;
      while i < numVer
        invariant 0 <= i <= numVer
        invariant countVer1 == old(countVer1) + i && TrueCount(visited1[..]) == i
        invariant countEdge1 - edges0 <= Sum(d0) - Sum(dist1[..])
        invariant ScanState(graph, s, dist1[..], wit, visited1[..], bound)
        invariant forall v :: 0 <= v < numVer ==> dist1[v] <= old(dist1[v])
      {
        countVer1 := countVer1 + 1;
        var minVertex := FindMinVertex(dist1, visited1);
        if minVertex == -1 {
          // `visited1[minVertex]` with `minVertex == -1` raises the exception
          ScanStuck(graph, s, dist1[..], wit, visited1[..], bound);
          return None;
        }
        wit := VisitVertex(minVertex, s, wit, bound, d0, edges0);
        bound := dist1[minVertex];
        i := i + 1;
      }
      ScanDone(graph, s, dist1[..], wit, visited1[..], bound);
      r := Some(dist1);
    }

    /**
     * One round of `dijkstra1` once `findMinVertex` has picked `m`, the nearest
     * unvisited vertex: mark it visited and relax its edges.
     */
    method VisitVertex(m: int, ghost s: int, ghost wit0: seq<seq<Hop>>, ghost b: int, ghost d0: seq<int>, ghost edges0: int)
        returns (ghost wit: seq<seq<Hop>>)
      requires Valid() && WellFormed(graph) && NoOverflow(graph)
      requires ScanState(graph, s, dist1[..], wit0, visited1[..], b)
      requires Nearest(dist1[..], visited1[..], m)
      requires countEdge1 - edges0 <= Sum(d0) - Sum(dist1[..])
      modifies this`countEdge1, dist1, visited1
      ensures visited1[..] == old(visited1[..])[m := true]
      ensures TrueCount(visited1[..]) == old(TrueCount(visited1[..])) + 1
      ensures ScanState(graph, s, dist1[..], wit, visited1[..], dist1[m])
      ensures dist1[..] == RelaxRow(old(dist1[..]), m, graph[m], |graph[m]|)
      ensures countEdge1 == old(countEdge1) + |RowPushes(old(dist1[..]), m, graph[m], |graph[m]|)|
      ensures forall v :: 0 <= v < numVer ==> dist1[v] <= old(dist1[v])
      ensures countEdge1 - edges0 <= Sum(d0) - Sum(dist1[..])
    {
      ghost var d, vis := dist1[..], visited1[..];
      ScanPick(graph, s, d, wit0, vis, b, m);
      visited1[m] := true;
      assert visited1[..] == vis[m := true] && dist1[..] == d;
      wit := RelaxScanRow(m, s, wit0, vis[m := true], d0, edges0);
      assert visited1[..] == vis[m := true];
      ScanRowDone(graph, s, dist1[..], wit, visited1[..], m);
    }

    /**
     * The inner `for` loop of `dijkstra1` over the edges of the scanned vertex `m`:
     * each edge that shortens its target's distance overwrites it and counts one
     * improvement.
     */
    method RelaxScanRow(m: int, ghost s: int, ghost wit0: seq<seq<Hop>>, ghost vis: seq<bool>, ghost d0: seq<int>, ghost edges0: int)
        returns (ghost wit: seq<seq<Hop>>)
      requires Valid() && WellFormed(graph) && NoOverflow(graph)
      requires ScanRowState(graph, s, dist1[..], wit0, vis, m, 0)
      requires countEdge1 - edges0 <= Sum(d0) - Sum(dist1[..])
      modifies this`countEdge1, dist1
      ensures ScanRowState(graph, s, dist1[..], wit, vis, m, |graph[m]|)
      ensures dist1[..] == RelaxRow(old(dist1[..]), m, graph[m], |graph[m]|)
      ensures countEdge1 == old(countEdge1) + |RowPushes(old(dist1[..]), m, graph[m], |graph[m]|)|
      ensures forall v :: 0 <= v < numVer ==> dist1[v] <= old(dist1[v])
      ensures countEdge1 - edges0 <= Sum(d0) - Sum(dist1[..])
    {
      ghost var d := dist1[..];
      RowFits(graph, s, d, wit0, m);
      wit := wit0;
      var numVerInList := |graph[m]|;
      ghost var improved: multiset<Edge> := multiset{};
      for j := 0 to numVerInList
        invariant ScanRowState(graph, s, dist1[..], wit, vis, m, j)
        invariant dist1[..] == RelaxRow(d, m, graph[m], j)
        invariant improved == RowPushes(d, m, graph[m], j)
        invariant countEdge1 - old(countEdge1) == |improved|
      {
        improved := improved + StepPush(dist1[..], m, graph[m][j]);
        wit := RelaxScanEdge(m, j, s, wit, vis);
      }
      RowOutcome(d, m, graph[m], dist1[..], improved);
    }

    /** One pass of the inner loop of `dijkstra1`: relax the `j`-th edge out of `m`. */
    method RelaxScanEdge(m: int, j: int, ghost s: int, ghost wit0: seq<seq<Hop>>, ghost vis: seq<bool>)
        returns (ghost wit: seq<seq<Hop>>)
      requires Valid() && WellFormed(graph) && NoOverflow(graph)
      requires ScanRowState(graph, s, dist1[..], wit0, vis, m, j) && j < |graph[m]|
      modifies this`countEdge1, dist1
      ensures ScanRowState(graph, s, dist1[..], wit, vis, m, j + 1)
      ensures dist1[..] == RelaxStep(old(dist1[..]), m, graph[m][j])
      ensures countEdge1 == old(countEdge1) + |StepPush(old(dist1[..]), m, graph[m][j])|
    {
      var e := graph[m][j];
      ghost var d := dist1[..];
      wit := ScanRowStep(graph, s, d, wit0, vis, m, j);
      var length := Add32(dist1[m], e.GetWeight());
      assert Improves(d, m, e) <==> length < dist1[e.GetDestination() - 1];
      if length < dist1[e.GetDestination() - 1] {
        dist1[e.GetDestination() - 1] := length;
        countEdge1 := countEdge1 + 1;
        assert dist1[..] == d[e.destination - 1 := length];
      }
    }

    /**
     * `firstDijkstra2`, the lazy queue: only the start vertex is queued at first, and
     * every improved distance is queued again as a new entry; stale entries are polled
     * and relax nothing new. Every polled entry is counted in `countVer2`.
     */
    method FirstDijkstra2() returns (r: array<int>)
      requires Valid() && WellFormed(graph) && NoOverflow(graph)
      requires firstDist2[..] == InitialDistances(numVer, startVertex - 1)
      modifies this`countVer2, this`countEdge2, firstDist2
      ensures r == firstDist2
      ensures ShortestDistances(graph, startVertex - 1, firstDist2[..])
      ensures countVer2 - old(countVer2) == countEdge2 - old(countEdge2) + 1
      ensures countEdge2 - old(countEdge2) <= Sum(old(firstDist2[..])) - Sum(firstDist2[..])
      ensures firstDist2[startVertex - 1] == 0 && forall v :: 0 <= v < numVer ==> firstDist2[v] <= old(firstDist2[v])
    {
      ghost var s := startVertex - 1;
      ghost var d0 := firstDist2[..];
      ghost var wit := InitialJustified(graph, s);
      var myQueue: Queue := multiset{Edge(startVertex - 1, firstDist2[startVertex - 1])};
      while |myQueue| != 0
        invariant Justified(graph, s, firstDist2[..], wit)
        invariant forall v :: 0 <= v < numVer ==> firstDist2[v] <= old(firstDist2[v])
        invariant EntriesValid(firstDist2[..], myQueue, MAX_VALUE - 1)
        invariant Pending(graph, firstDist2[..], myQueue, -1)
        invariant countVer2 - old(countVer2) + |myQueue| == countEdge2 - old(countEdge2) + 1
        invariant countEdge2 - old(countEdge2) <= Sum(d0) - Sum(firstDist2[..])
        decreases Sum(firstDist2[..]), |myQueue|
      {
        var cur;
        myQueue, cur, wit := LazyRound(myQueue, s, wit);
        SumNonNegative(firstDist2[..]);
      }
      EmptyQueueClosed(graph, firstDist2[..]);
      ClosedIsShortest(graph, s, firstDist2[..], wit);
      r := firstDist2;
    }

    /**
     * One pass of the `while` loop of `firstDijkstra2`: poll the least entry, count
     * it in `countVer2`, and relax the row of its vertex. The pass keeps the loop's
     * invariants, raises no distance, and lowers the sum of the distances by at least
     * the number of entries it queues; a pass that queues nothing shrinks the queue.
     */
    method LazyRound(q: Queue, ghost s: int, ghost wit0: seq<seq<Hop>>)
        returns (myQueue: Queue, cur: Edge, ghost wit: seq<seq<Hop>>)
      requires Valid() && WellFormed(graph) && NoOverflow(graph) && |q| != 0
      requires Justified(graph, s, firstDist2[..], wit0) && EntriesValid(firstDist2[..], q, MAX_VALUE - 1)
      requires Pending(graph, firstDist2[..], q, -1)
      modifies this`countVer2, this`countEdge2, firstDist2
      ensures cur in q && (forall f :: f in q ==> cur.weight <= f.weight) && 0 <= cur.destination < numVer
      ensures firstDist2[..] == RelaxRow(old(firstDist2[..]), cur.destination, graph[cur.destination], |graph[cur.destination]|)
      ensures myQueue == q - multiset{cur} + RowPushes(old(firstDist2[..]), cur.destination, graph[cur.destination], |graph[cur.destination]|)
      ensures Justified(graph, s, firstDist2[..], wit) && EntriesValid(firstDist2[..], myQueue, MAX_VALUE - 1)
      ensures Pending(graph, firstDist2[..], myQueue, -1)
      ensures forall v :: 0 <= v < numVer ==> firstDist2[v] <= old(firstDist2[v])
      ensures countVer2 == old(countVer2) + 1 && countEdge2 - old(countEdge2) == |myQueue| - |q| + 1
      ensures countEdge2 - old(countEdge2) <= old(Sum(firstDist2[..])) - Sum(firstDist2[..])
      ensures Sum(firstDist2[..]) < old(Sum(firstDist2[..])) || (Sum(firstDist2[..]) == old(Sum(firstDist2[..])) && |myQueue| < |q|)
    {
      ghost var d := firstDist2[..];
      cur, myQueue := Poll(q);
      countVer2 := countVer2 + 1;
      PollStartsRow(graph, s, d, wit0, q, cur, MAX_VALUE - 1);
      var x := cur.GetDestination();
      myQueue, wit := RelaxLazyRow(x, myQueue, s, wit0);
      RoundDone(graph, s, d, wit0, q, cur, firstDist2[..], wit, myQueue, MAX_VALUE - 1);
    }

    /**
     * The `for` loop of `firstDijkstra2` over the edges of the polled vertex `x`:
     * each edge that shortens its target's distance overwrites that distance, queues
     * the new distance as a fresh entry, and counts one improvement.
     */
    method RelaxLazyRow(x: int, q: Queue, ghost s: int, ghost wit0: seq<seq<Hop>>)
        returns (myQueue: Queue, ghost wit: seq<seq<Hop>>)
      requires Valid() && WellFormed(graph) && NoOverflow(graph)
      requires RowInvariant(graph, s, firstDist2[..], wit0, q, x, 0, MAX_VALUE - 1)
      modifies this`countEdge2, firstDist2
      ensures RowInvariant(graph, s, firstDist2[..], wit, myQueue, x, |graph[x]|, MAX_VALUE - 1)
      ensures firstDist2[..] == RelaxRow(old(firstDist2[..]), x, graph[x], |graph[x]|)
      ensures myQueue == q + RowPushes(old(firstDist2[..]), x, graph[x], |graph[x]|)
      ensures q <= myQueue && countEdge2 - old(countEdge2) == |myQueue| - |q|
    {
      ghost var d := firstDist2[..];
      myQueue, wit := q, wit0;
      var row := graph[x];
      for j := 0 to |row|
        invariant RowInvariant(graph, s, firstDist2[..], wit, myQueue, x, j, MAX_VALUE - 1)
        invariant firstDist2[..] == RelaxRow(d, x, row, j)
        invariant myQueue == q + RowPushes(d, x, row, j)
        invariant countEdge2 - old(countEdge2) == |myQueue| - |q|
      {
        myQueue, wit := RelaxLazyEdge(x, j, myQueue, s, wit);
      }
    }

    /** One pass of the inner loop of `firstDijkstra2`: relax the `j`-th edge out of `x`. */
    method RelaxLazyEdge(x: int, j: int, q: Queue, ghost s: int, ghost wit0: seq<seq<Hop>>)
        returns (myQueue: Queue, ghost wit: seq<seq<Hop>>)
      requires Valid() && WellFormed(graph) && NoOverflow(graph)
      requires RowInvariant(graph, s, firstDist2[..], wit0, q, x, j, MAX_VALUE - 1) && j < |graph[x]|
      modifies this`countEdge2, firstDist2
      ensures RowInvariant(graph, s, firstDist2[..], wit, myQueue, x, j + 1, MAX_VALUE - 1)
      ensures firstDist2[..] == RelaxStep(old(firstDist2[..]), x, graph[x][j])
      ensures myQueue == q + StepPush(old(firstDist2[..]), x, graph[x][j])
      ensures countEdge2 == old(countEdge2) + |StepPush(old(firstDist2[..]), x, graph[x][j])|
    {
      var edge := graph[x][j];
      ghost var d := firstDist2[..];
      wit := RowInvariantStep(graph, s, d, wit0, q, x, j, MAX_VALUE - 1);
      myQueue := q;
      var length := Add32(firstDist2[x], edge.GetWeight());
      assert Improves(d, x, edge) <==> length < firstDist2[edge.GetDestination() - 1];
      if length < firstDist2[edge.GetDestination() - 1] {
        firstDist2[edge.GetDestination() - 1] := length;
        myQueue := myQueue + multiset{Edge(edge.GetDestination() - 1, firstDist2[edge.GetDestination() - 1])};
        countEdge2 := countEdge2 + 1;
        assert firstDist2[..] == d[edge.destination - 1 := length];
      }
    }

    /**
     * `secondDijkstra2`, the eager queue: every vertex is queued at first with its
     * current distance, every improved distance is queued again as a new entry, and
     * every polled entry is counted in `countVer3` and marks its vertex in
     * `secondVisited2`, which nothing reads. Every vertex is queued, so the entries
     * of unreachable vertices, keyed `Integer.MAX_VALUE`, are polled too; their rows
     * are then relaxed from `Integer.MAX_VALUE`, and an edge of positive weight
     * wraps the `int` sum at line 242 to a negative distance (see
     * `EagerUnreachableWraps`). The method therefore needs every edge out of an
     * unreachable vertex to weigh nothing; such a row relaxes nothing.
     */
    method SecondDijkstra2() returns (r: array<int>)
      requires Valid() && WellFormed(graph) && NoOverflow(graph)
      requires UnreachedWeightless(graph, startVertex - 1)
      requires secondDist2[..] == InitialDistances(numVer, startVertex - 1)
      modifies this`countVer3, this`countEdge3, secondDist2, secondVisited2
      ensures r == secondDist2
      ensures ShortestDistances(graph, startVertex - 1, secondDist2[..])
      ensures secondDist2[startVertex - 1] == 0 && forall v :: 0 <= v < numVer ==> secondDist2[v] <= old(secondDist2[v])
      ensures forall v :: 0 <= v < numVer ==> secondVisited2[v]
      ensures countVer3 - old(countVer3) == numVer + countEdge3 - old(countEdge3)
      ensures countEdge3 - old(countEdge3) <= Sum(old(secondDist2[..])) - Sum(secondDist2[..])
    {
      ghost var s := startVertex - 1;
      ghost var d0 := secondDist2[..];
      ghost var wit := InitialJustified(graph, s);
      var myQueue := SeedAll();
      SeededQueue(graph, s, secondDist2[..], wit, myQueue);
      while |myQueue| != 0
        invariant Justified(graph, s, secondDist2[..], wit)
        invariant forall v :: 0 <= v < numVer ==> secondDist2[v] <= old(secondDist2[v])
        invariant EntriesValid(secondDist2[..], myQueue, MAX_VALUE)
        invariant Pending(graph, secondDist2[..], myQueue, -1)
        invariant AllNamed(secondVisited2[..], myQueue)
        invariant countVer3 - old(countVer3) + |myQueue| == numVer + countEdge3 - old(countEdge3)
        invariant countEdge3 - old(countEdge3) <= Sum(d0) - Sum(secondDist2[..])
        decreases Sum(secondDist2[..]), |myQueue|
      {
        countVer3 := countVer3 + 1;
        ghost var q0, vis := myQueue, secondVisited2[..];
        var cur;
        myQueue, cur, wit := EagerRound(myQueue, s, wit);
        NamedAfterPoll(vis, q0, cur, myQueue);
        SumNonNegative(secondDist2[..]);
      }
      EmptyQueueClosed(graph, secondDist2[..]);
      ClosedIsShortest(graph, s, secondDist2[..], wit);
      r := secondDist2;
    }

    /**
     * One pass of the `while` loop of `secondDijkstra2` after its count: poll the
     * least entry, mark its vertex in `secondVisited2`, and relax that vertex's row.
     * The pass keeps the loop's invariants, raises no distance, and lowers the sum of
     * the distances by at least the number of entries it queues; a pass that queues
     * nothing shrinks the queue by one.
     */
    method EagerRound(q: Queue, ghost s: int, ghost wit0: seq<seq<Hop>>)
        returns (myQueue: Queue, cur: Edge, ghost wit: seq<seq<Hop>>)
      requires Valid() && WellFormed(graph) && NoOverflow(graph) && UnreachedWeightless(graph, s) && |q| != 0
      requires Justified(graph, s, secondDist2[..], wit0) && EntriesValid(secondDist2[..], q, MAX_VALUE)
      requires Pending(graph, secondDist2[..], q, -1)
      modifies this`countEdge3, secondDist2, secondVisited2
      ensures cur in q && (forall f :: f in q ==> cur.weight <= f.weight) && q - multiset{cur} <= myQueue
      ensures 0 <= cur.destination < numVer && secondVisited2[..] == old(secondVisited2[..])[cur.destination := true]
      ensures secondDist2[..] == RelaxRow(old(secondDist2[..]), cur.destination, graph[cur.destination], |graph[cur.destination]|)
      ensures myQueue == q - multiset{cur} + RowPushes(old(secondDist2[..]), cur.destination, graph[cur.destination], |graph[cur.destination]|)
      ensures Justified(graph, s, secondDist2[..], wit) && EntriesValid(secondDist2[..], myQueue, MAX_VALUE)
      ensures Pending(graph, secondDist2[..], myQueue, -1)
      ensures forall v :: 0 <= v < numVer ==> secondDist2[v] <= old(secondDist2[v])
      ensures countEdge3 - old(countEdge3) == |myQueue| - |q| + 1
      ensures countEdge3 - old(countEdge3) <= old(Sum(secondDist2[..])) - Sum(secondDist2[..])
      ensures Sum(secondDist2[..]) < old(Sum(secondDist2[..])) || (Sum(secondDist2[..]) == old(Sum(secondDist2[..])) && |myQueue| < |q|)
    {
      cur, myQueue := Poll(q);
      secondVisited2[cur.GetDestination()] := true;
      var x := cur.GetDestination();
      ghost var d := secondDist2[..];
      EagerPollStartsRow(graph, s, d, wit0, q, cur);
      ghost var witRow;
      myQueue, witRow := RelaxEagerRow(x, myQueue, s, wit0);
      wit := EagerRoundDone(graph, s, d, wit0, q, cur, secondDist2[..], witRow, myQueue);
    }

    /**
     * The three variants in the order the driver runs them, on a fresh engine:
     * when every vertex is reachable they give the same answer, the shortest
     * distances from the start vertex.
     */
    method RunAll() returns (r1: array<int>, r2: array<int>, r3: array<int>)
      requires Valid() && WellFormed(graph) && NoOverflow(graph)
      requires AllReachable(graph, startVertex - 1)
      requires dist1[..] == InitialDistances(numVer, startVertex - 1)
      requires firstDist2[..] == InitialDistances(numVer, startVertex - 1)
      requires secondDist2[..] == InitialDistances(numVer, startVertex - 1)
      requires forall i :: 0 <= i < numVer ==> !visited1[i]
      modifies this`countVer1, this`countEdge1, this`countVer2, this`countEdge2, this`countVer3, this`countEdge3
      modifies dist1, visited1, firstDist2, secondDist2, secondVisited2
      ensures r1[..] == r2[..] == r3[..]
      ensures ShortestDistances(graph, startVertex - 1, r1[..])
    {
      AllReachableWeightless(graph, startVertex - 1);
      var o := Dijkstra1();
      r1 := o.value;
      r2 := FirstDijkstra2();
      r3 := SecondDijkstra2();
      ShortestDistancesUnique(graph, startVertex - 1, r1[..], r2[..]);
      ShortestDistancesUnique(graph, startVertex - 1, r2[..], r3[..]);
    }

    /**
     * The seeding loop of `secondDijkstra2`: one entry per vertex, keyed by that
     * vertex's current distance, and nothing else.
     */
    method SeedAll() returns (myQueue: Queue)
      requires Valid()
      ensures |myQueue| == numVer
      ensures forall e :: e in myQueue ==> 0 <= e.destination < numVer && e.weight == secondDist2[e.destination]
      ensures forall k :: 0 <= k < numVer ==> Edge(k, secondDist2[k]) in myQueue
    {
      myQueue := multiset{};
      for i := 0 to numVer
        invariant |myQueue| == i
        invariant forall e :: e in myQueue ==> 0 <= e.destination < i && e.weight == secondDist2[e.destination]
        invariant forall k :: 0 <= k < i ==> Edge(k, secondDist2[k]) in myQueue
      {
        myQueue := myQueue + multiset{Edge(i, secondDist2[i])};
      }
    }

    /**
     * The `for` loop of `secondDijkstra2` over the edges of the polled vertex `x`:
     * each edge that shortens its target's distance overwrites that distance, queues
     * the new distance as a fresh entry, and counts one improvement.
     */
    method RelaxEagerRow(x: int, q: Queue, ghost s: int, ghost wit0: seq<seq<Hop>>)
        returns (myQueue: Queue, ghost wit: seq<seq<Hop>>)
      requires Valid() && WellFormed(graph) && NoOverflow(graph)
      requires RowInvariant(graph, s, secondDist2[..], wit0, q, x, 0, MAX_VALUE)
      modifies this`countEdge3, secondDist2
      ensures secondDist2[..] == RelaxRow(old(secondDist2[..]), x, graph[x], |graph[x]|)
      ensures myQueue == q + RowPushes(old(secondDist2[..]), x, graph[x], |graph[x]|)
      ensures q <= myQueue && countEdge3 - old(countEdge3) == |myQueue| - |q|
      ensures RowInvariant(graph, s, secondDist2[..], wit, myQueue, x, |graph[x]|, MAX_VALUE)
    {
      ghost var d := secondDist2[..];
      myQueue, wit := q, wit0;
      var row := graph[x];
      for j := 0 to |row|
        invariant RowInvariant(graph, s, secondDist2[..], wit, myQueue, x, j, MAX_VALUE)
        invariant secondDist2[..] == RelaxRow(d, x, row, j)
        invariant myQueue == q + RowPushes(d, x, row, j)
        invariant countEdge3 - old(countEdge3) == |myQueue| - |q|
      {
        myQueue, wit := RelaxEagerEdge(x, j, myQueue, s, wit);
      }
    }

    /** One pass of the inner loop of `secondDijkstra2`: relax the `j`-th edge out of `x`. */
    method RelaxEagerEdge(x: int, j: int, q: Queue, ghost s: int, ghost wit0: seq<seq<Hop>>)
        returns (myQueue: Queue, ghost wit: seq<seq<Hop>>)
      requires Valid() && WellFormed(graph) && NoOverflow(graph)
      requires RowInvariant(graph, s, secondDist2[..], wit0, q, x, j, MAX_VALUE) && j < |graph[x]|
      modifies this`countEdge3, secondDist2
      ensures RowInvariant(graph, s, secondDist2[..], wit, myQueue, x, j + 1, MAX_VALUE)
      ensures secondDist2[..] == RelaxStep(old(secondDist2[..]), x, graph[x][j])
      ensures myQueue == q + StepPush(old(secondDist2[..]), x, graph[x][j])
      ensures countEdge3 == old(countEdge3) + |StepPush(old(secondDist2[..]), x, graph[x][j])|
    {
      var edge := graph[x][j];
      ghost var d := secondDist2[..];
      wit := RowInvariantStep(graph, s, d, wit0, q, x, j, MAX_VALUE);
      myQueue := q;
      var length := Add32(secondDist2[x], edge.GetWeight());
      assert Improves(d, x, edge) <==> length < secondDist2[edge.GetDestination() - 1];
      if length < secondDist2[edge.GetDestination() - 1] {
        secondDist2[edge.GetDestination() - 1] := length;
        myQueue := myQueue + multiset{Edge(edge.GetDestination() - 1, secondDist2[edge.GetDestination() - 1])};
        countEdge3 := countEdge3 + 1;
        assert secondDist2[..] == d[edge.destination - 1 := length];
      }
    }
  }
}
