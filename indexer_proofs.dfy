/**
 * The bookkeeping behind the engine's loops: the count of visited vertices, the
 * measure that makes the queue loops terminate, and the loop
 * invariants of the array scan and of the two queue variants, each proved once
 * here as a lemma per step.
 */
module EngineInvariants {
  import opened JavaText
  import opened Edges
  import opened Graphs
  import opened PriorityQueues

  // ---------------------------------------------------------------------------
  // Counting and summing
  // ---------------------------------------------------------------------------

  /** The number of `true` entries, i.e. of visited vertices. */
  function TrueCount(s: seq<bool>): (n: nat)
    ensures n <= |s|
    ensures n == |s| <==> forall i :: 0 <= i < |s| ==> s[i]
  {
    if s == [] then 0
    else
      var n := TrueCount(s[..|s| - 1]);
      assert forall i :: 0 <= i < |s| - 1 ==> s[..|s| - 1][i] == s[i];
      n + if s[|s| - 1] then 1 else 0
  }

  lemma {:induction false} TrueCountMark(s: seq<bool>, m: int)
    requires 0 <= m < |s| && !s[m]
    ensures TrueCount(s[m := true]) == TrueCount(s) + 1
  {
    var t := s[m := true];
    if m < |s| - 1 {
      assert t[..|t| - 1] == s[..|s| - 1][m := true];
      TrueCountMark(s[..|s| - 1], m);
    } else {
      assert t[..|t| - 1] == s[..|s| - 1];
    }
  }

  lemma {:induction false} TrueCountNone(s: seq<bool>)
    requires forall i :: 0 <= i < |s| ==> !s[i]
    ensures TrueCount(s) == 0
  {
    if s != [] {
      TrueCountNone(s[..|s| - 1]);
    }
  }

  /** The sum of the entries; every relaxation lowers it. */
  function Sum(d: seq<int>): int {
    if d == [] then 0 else Sum(d[..|d| - 1]) + d[|d| - 1]
  }

  lemma {:induction false} SumUpdate(d: seq<int>, i: int, x: int)
    requires 0 <= i < |d|
    ensures Sum(d[i := x]) == Sum(d) - d[i] + x
  {
    var t := d[i := x];
    if i < |d| - 1 {
      assert t[..|t| - 1] == d[..|d| - 1][i := x];
      SumUpdate(d[..|d| - 1], i, x);
    } else {
      assert t[..|t| - 1] == d[..|d| - 1];
    }
  }

  /** Lowering one entry lowers the sum. */
  lemma SumDecrease(d: seq<int>, i: int, x: int)
    requires 0 <= i < |d| && x < d[i]
    ensures Sum(d[i := x]) < Sum(d)
  {
    SumUpdate(d, i, x);
  }

  lemma {:induction false} SumNonNegative(d: seq<int>)
    requires forall v :: 0 <= v < |d| ==> 0 <= d[v]
    ensures 0 <= Sum(d)
  {
    if d != [] {
      SumNonNegative(d[..|d| - 1]);
    }
  }

  // ---------------------------------------------------------------------------
  // The array scan (dijkstra1)
  // ---------------------------------------------------------------------------

  /** No unvisited vertex has a finite distance. */
  ghost predicate NoneLeft(d: seq<int>, vis: seq<bool>) {
    forall i :: 0 <= i < |d| && i < |vis| ==> vis[i] || d[i] >= MAX_VALUE
  }

  /**
   * `m` is an unvisited vertex with a finite distance, no farther than any other
   * unvisited vertex and strictly nearer than every unvisited vertex before it.
   */
  ghost predicate Nearest(d: seq<int>, vis: seq<bool>, m: int) {
    0 <= m < |d| && m < |vis| && !vis[m] && d[m] < MAX_VALUE &&
    (forall i :: 0 <= i < |d| && i < |vis| && !vis[i] ==> d[m] <= d[i]) &&
    (forall i :: 0 <= i < m && !vis[i] ==> d[m] < d[i])
  }

  /**
   * Between rounds of the scan: every visited vertex has a finite distance and is
   * settled, and the distance `b` of the last vertex scanned separates the visited
   * vertices from the unvisited ones, so no visited vertex is farther than an
   * unvisited one.
   */
  ghost predicate ScanInvariant(g: Graph, d: seq<int>, vis: seq<bool>, b: int)
    requires WellFormed(g) && |d| == |g|
  {
    |vis| == |g| &&
    (forall u :: 0 <= u < |g| && vis[u] ==> d[u] < MAX_VALUE) &&
    (forall u {:trigger Settled(g, d, u)} :: 0 <= u < |g| && vis[u] ==> Settled(g, d, u)) &&
    (forall u :: 0 <= u < |g| && vis[u] ==> d[u] <= b) &&
    (forall v :: 0 <= v < |g| && !vis[v] ==> b <= d[v])
  }

  /** Inside round `m`, after its first `j` edges: the invariant above with `m` settled only up to `j`. */
  ghost predicate ScanRound(g: Graph, d: seq<int>, vis: seq<bool>, m: int, j: int)
    requires WellFormed(g) && |d| == |g|
  {
    |vis| == |g| && 0 <= m < |g| && vis[m] && d[m] < MAX_VALUE && 0 <= j <= |g[m]| &&
    (forall u :: 0 <= u < |g| && vis[u] ==> d[u] < MAX_VALUE) &&
    (forall u {:trigger Settled(g, d, u)} :: 0 <= u < |g| && vis[u] && u != m ==> Settled(g, d, u)) &&
    (forall u :: 0 <= u < |g| && vis[u] ==> d[u] <= d[m]) &&
    (forall v :: 0 <= v < |g| && !vis[v] ==> d[m] <= d[v]) &&
    (forall k :: 0 <= k < j ==> d[g[m][k].destination - 1] <= d[m] + g[m][k].weight)
  }

  lemma ScanRoundStart(g: Graph, d: seq<int>, vis: seq<bool>, b: int, m: int)
    requires WellFormed(g) && |d| == |g| && ScanInvariant(g, d, vis, b)
    requires 0 <= m < |g| && !vis[m] && d[m] < MAX_VALUE
    requires forall i :: 0 <= i < |g| && !vis[i] ==> d[m] <= d[i]
    ensures ScanRound(g, d, vis[m := true], m, 0)
  {
  }

  /** Lowering other entries never unsettles a vertex whose own entry stays put. */
  lemma SettledAfterDecrease(g: Graph, d: seq<int>, d': seq<int>, u: int)
    requires WellFormed(g) && |d| == |g| && |d'| == |g| && 0 <= u < |g|
    requires Settled(g, d, u) && d'[u] == d[u]
    requires forall x :: 0 <= x < |g| ==> d'[x] <= d[x]
    ensures Settled(g, d', u)
  {
    if d'[u] < MAX_VALUE {
      forall j | 0 <= j < |g[u]|
        ensures d'[g[u][j].destination - 1] <= d'[u] + g[u][j].weight
      {
        assert d[g[u][j].destination - 1] <= d[u] + g[u][j].weight;
      }
    }
  }

  /** One edge of round `m` that improves its target: writing the shorter distance keeps the round's invariant. */
  lemma ScanRelax(g: Graph, d: seq<int>, vis: seq<bool>, m: int, j: int, d': seq<int>)
    requires WellFormed(g) && |d| == |g| && ScanRound(g, d, vis, m, j) && j < |g[m]|
    requires d[m] + g[m][j].weight < d[g[m][j].destination - 1]
    requires d' == d[g[m][j].destination - 1 := d[m] + g[m][j].weight]
    ensures g[m][j].destination - 1 != m && !vis[g[m][j].destination - 1]
    ensures ScanRound(g, d', vis, m, j + 1)
  {
    var v := g[m][j].destination - 1;
    assert 0 <= g[m][j].weight;
    forall u | 0 <= u < |g| && vis[u] && u != m
      ensures Settled(g, d', u)
    {
      SettledAfterDecrease(g, d, d', u);
    }
  }

  /** One edge of round `m` that does not improve its target: nothing is written, and one more edge is relaxed. */
  lemma ScanSkip(g: Graph, d: seq<int>, vis: seq<bool>, m: int, j: int)
    requires WellFormed(g) && |d| == |g| && ScanRound(g, d, vis, m, j) && j < |g[m]|
    requires d[m] + g[m][j].weight >= d[g[m][j].destination - 1]
    ensures ScanRound(g, d, vis, m, j + 1)
  {
  }

  lemma ScanRoundEnd(g: Graph, d: seq<int>, vis: seq<bool>, m: int)
    requires WellFormed(g) && |d| == |g| && 0 <= m < |g| && ScanRound(g, d, vis, m, |g[m]|)
    ensures ScanInvariant(g, d, vis, d[m])
  {
    assert Settled(g, d, m);
  }

  /**
   * The scan finds no unvisited vertex with a finite distance before it has visited
   * them all: some vertex is unreachable.
   */
  lemma ScanStuck(g: Graph, s: int, d: seq<int>, wit: seq<seq<Hop>>, vis: seq<bool>, b: int)
    requires WellFormed(g) && NoOverflow(g) && ScanState(g, s, d, wit, vis, b)
    requires NoneLeft(d, vis) && TrueCount(vis) < |g|
    ensures !AllReachable(g, s)
  {
    ScanClosed(g, d, vis, b);
    ClosedIsShortest(g, s, d, wit);
    ReachableIffFinite(g, s, d);
    var v :| 0 <= v < |g| && !vis[v];
    assert d[v] >= MAX_VALUE;
  }

  /** The scan has visited every vertex: the array holds the shortest distances and all of them are finite. */
  lemma ScanDone(g: Graph, s: int, d: seq<int>, wit: seq<seq<Hop>>, vis: seq<bool>, b: int)
    requires WellFormed(g) && NoOverflow(g) && ScanState(g, s, d, wit, vis, b)
    requires TrueCount(vis) == |g|
    ensures forall v :: 0 <= v < |g| ==> vis[v]
    ensures ShortestDistances(g, s, d) && AllReachable(g, s)
  {
    ScanClosed(g, d, vis, b);
    ClosedIsShortest(g, s, d, wit);
    ReachableIffFinite(g, s, d);
  }

  /** The state of `dijkstra1` while it relaxes the `j`-th edge out of the scanned vertex `m`. */
  ghost predicate ScanRowState(g: Graph, s: int, d: seq<int>, wit: seq<seq<Hop>>, vis: seq<bool>, m: int, j: int)
    requires WellFormed(g)
  {
    |d| == |g| && Justified(g, s, d, wit) && ScanRound(g, d, vis, m, j)
  }

  /** The state of `dijkstra1` between rounds: justified distances and the scan invariant. */
  ghost predicate ScanState(g: Graph, s: int, d: seq<int>, wit: seq<seq<Hop>>, vis: seq<bool>, b: int)
    requires WellFormed(g)
  {
    |d| == |g| && Justified(g, s, d, wit) && ScanInvariant(g, d, vis, b)
  }

  /** Before the first round nothing is visited: the initial array, with empty witnesses, is a scan state. */
  lemma ScanStart(g: Graph, s: int, vis: seq<bool>) returns (wit: seq<seq<Hop>>)
    requires WellFormed(g) && 0 <= s < |g| && |vis| == |g|
    requires forall i :: 0 <= i < |vis| ==> !vis[i]
    ensures ScanState(g, s, InitialDistances(|g|, s), wit, vis, 0)
    ensures TrueCount(vis) == 0
  {
    wit := InitialJustified(g, s);
    TrueCountNone(vis);
  }

  /** Marking the nearest unvisited vertex `m` visited starts its round, and counts one more visited vertex. */
  lemma ScanPick(g: Graph, s: int, d: seq<int>, wit: seq<seq<Hop>>, vis: seq<bool>, b: int, m: int)
    requires WellFormed(g) && ScanState(g, s, d, wit, vis, b) && Nearest(d, vis, m)
    ensures ScanRowState(g, s, d, wit, vis[m := true], m, 0)
    ensures TrueCount(vis[m := true]) == TrueCount(vis) + 1
  {
    ScanRoundStart(g, d, vis, b, m);
    TrueCountMark(vis, m);
  }

  /** All edges of `m` relaxed: the round is over, and `m`'s distance separates visited from unvisited. */
  lemma ScanRowDone(g: Graph, s: int, d: seq<int>, wit: seq<seq<Hop>>, vis: seq<bool>, m: int)
    requires WellFormed(g) && 0 <= m < |g| && ScanRowState(g, s, d, wit, vis, m, |g[m]|)
    ensures ScanState(g, s, d, wit, vis, d[m])
  {
    ScanRoundEnd(g, d, vis, m);
  }

  /**
   * The `j`-th edge out of `m`: its sum does not wrap, its target is a vertex, and
   * when it does not improve the target nothing needs to change.
   */
  lemma ScanStep(g: Graph, s: int, d: seq<int>, wit: seq<seq<Hop>>, vis: seq<bool>, m: int, j: int)
    requires WellFormed(g) && NoOverflow(g)
    requires ScanRowState(g, s, d, wit, vis, m, j) && j < |g[m]|
    ensures Add32(d[m], g[m][j].weight) == d[m] + g[m][j].weight
    ensures 0 <= g[m][j].destination - 1 < |d|
    ensures d[m] + g[m][j].weight >= d[g[m][j].destination - 1] ==> ScanRowState(g, s, d, wit, vis, m, j + 1)
  {
    var e := g[m][j];
    assert e in g[m];
    RelaxNoOverflow(g, s, d, wit, m, e);
    if d[m] + e.weight >= d[e.destination - 1] {
      ScanSkip(g, d, vis, m, j);
    }
  }

  /** The `j`-th edge out of `m` improves its target: the new distance and its witness keep the state. */
  lemma ScanRelaxed(g: Graph, s: int, d: seq<int>, wit: seq<seq<Hop>>, vis: seq<bool>, m: int, j: int,
                    d': seq<int>, wit': seq<seq<Hop>>)
    requires WellFormed(g) && NoOverflow(g)
    requires ScanRowState(g, s, d, wit, vis, m, j) && j < |g[m]|
    requires d[m] + g[m][j].weight < d[g[m][j].destination - 1]
    requires d' == d[g[m][j].destination - 1 := d[m] + g[m][j].weight]
    requires wit' == wit[g[m][j].destination - 1 := wit[m] + [Hop(m, g[m][j].destination - 1, g[m][j].weight)]]
    ensures ScanRowState(g, s, d', wit', vis, m, j + 1)
  {
    var e := g[m][j];
    assert e in g[m];
    RelaxNoOverflow(g, s, d, wit, m, e);
    ScanRelax(g, d, vis, m, j, d');
    RelaxKeepsJustified(g, s, d, wit, m, e);
  }

  /**
   * The `j`-th edge out of `m` as `dijkstra1` tests it: whether it improves its target
   * or not, the state holds one edge further on for the distances `RelaxStep`
   * computes, with the witness walks `w`.
   */
  lemma ScanRowStep(g: Graph, s: int, d: seq<int>, wit: seq<seq<Hop>>, vis: seq<bool>, m: int, j: int)
      returns (w: seq<seq<Hop>>)
    requires WellFormed(g) && NoOverflow(g)
    requires ScanRowState(g, s, d, wit, vis, m, j) && j < |g[m]|
    ensures 1 <= g[m][j].destination <= |d|
    ensures ScanRowState(g, s, RelaxStep(d, m, g[m][j]), w, vis, m, j + 1)
  {
    var e := g[m][j];
    var v := e.destination - 1;
    ScanStep(g, s, d, wit, vis, m, j);
    if d[m] + e.weight < d[v] {
      w := wit[v := wit[m] + [Hop(m, v, e.weight)]];
      ScanRelaxed(g, s, d, wit, vis, m, j, d[v := d[m] + e.weight], w);
    } else {
      w := wit;
    }
  }

  /** When every unvisited vertex is at infinity, the scan's array is already closed. */
  lemma ScanClosed(g: Graph, d: seq<int>, vis: seq<bool>, b: int)
    requires WellFormed(g) && |d| == |g| && ScanInvariant(g, d, vis, b)
    requires forall i :: 0 <= i < |g| ==> vis[i] || d[i] >= MAX_VALUE
    ensures Closed(g, d)
  {
  }

  // ---------------------------------------------------------------------------
  // Relaxing the edges of one vertex, as all three variants do
  // ---------------------------------------------------------------------------

  /** Every edge of `row` names one of `n` vertices (1-based). */
  predicate RowInRange(row: seq<Edge>, n: int) {
    forall k :: 0 <= k < |row| ==> 1 <= row[k].destination <= n
  }

  /** The test of lines 133-134, 195 and 242: the `int` sum through `x` beats the target's distance. */
  predicate Improves(d: seq<int>, x: int, e: Edge)
    requires 0 <= x < |d| && 1 <= e.destination <= |d|
  {
    Add32(d[x], e.weight) < d[e.destination - 1]
  }

  /** The distances after edge `e` out of `x` is tested, and written when it improves its target. */
  function RelaxStep(d: seq<int>, x: int, e: Edge): seq<int>
    requires 0 <= x < |d| && 1 <= e.destination <= |d|
  {
    if Improves(d, x, e) then d[e.destination - 1 := Add32(d[x], e.weight)] else d
  }

  /** What testing edge `e` out of `x` queues and counts: the improved target with its new distance, or nothing. */
  function StepPush(d: seq<int>, x: int, e: Edge): multiset<Edge>
    requires 0 <= x < |d| && 1 <= e.destination <= |d|
  {
    if Improves(d, x, e) then multiset{Edge(e.destination - 1, Add32(d[x], e.weight))} else multiset{}
  }

  /** The distances after the first `j` edges of `row`, the row of `x`, are tested in order. */
  function RelaxRow(d: seq<int>, x: int, row: seq<Edge>, j: int): (r: seq<int>)
    requires 0 <= x < |d| && 0 <= j <= |row| && RowInRange(row, |d|)
    ensures |r| == |d|
    decreases j
  {
    if j == 0 then d else RelaxStep(RelaxRow(d, x, row, j - 1), x, row[j - 1])
  }

  /** The improvements found along the first `j` edges of `row`: one entry per overwritten distance. */
  function RowPushes(d: seq<int>, x: int, row: seq<Edge>, j: int): multiset<Edge>
    requires 0 <= x < |d| && 0 <= j <= |row| && RowInRange(row, |d|)
    decreases j
  {
    if j == 0 then multiset{} else RowPushes(d, x, row, j - 1) + StepPush(RelaxRow(d, x, row, j - 1), x, row[j - 1])
  }

  /** One edge out of a vertex whose sum fits in an `int`: the test is a plain comparison of `d[x] + w`. */
  lemma RelaxStepExact(d: seq<int>, x: int, e: Edge)
    requires 0 <= x < |d| && 1 <= e.destination <= |d| && 0 <= d[x] && 0 <= e.weight && d[x] + e.weight <= MAX_VALUE
    ensures Improves(d, x, e) <==> d[x] + e.weight < d[e.destination - 1]
    ensures RelaxStep(d, x, e) == if d[x] + e.weight < d[e.destination - 1] then d[e.destination - 1 := d[x] + e.weight] else d
    ensures StepPush(d, x, e) == if d[x] + e.weight < d[e.destination - 1] then multiset{Edge(e.destination - 1, d[x] + e.weight)} else multiset{}
  {
    assert Add32(d[x], e.weight) == d[x] + e.weight;
  }

  /** `r` is `d` with no distance raised and `d[x]` kept. */
  predicate NoRise(d: seq<int>, x: int, r: seq<int>)
    requires 0 <= x < |d|
  {
    |r| == |d| && r[x] == d[x] && forall v :: 0 <= v < |d| ==> r[v] <= d[v]
  }

  /** In `r`, the target of each of the first `j` edges of `row` is at most `d[x]` plus the edge's weight. */
  predicate Reaches(d: seq<int>, x: int, row: seq<Edge>, j: int, r: seq<int>)
    requires 0 <= x < |d| && 0 <= j <= |row| && RowInRange(row, |r|)
  {
    forall k :: 0 <= k < j ==> r[row[k].destination - 1] <= d[x] + row[k].weight
  }

  /** Every distance `r` changes from `d` is `d[x]` plus the weight of one of the first `j` edges into it. */
  predicate ChangedBy(d: seq<int>, x: int, row: seq<Edge>, j: int, r: seq<int>)
    requires 0 <= x < |d| && 0 <= j <= |row| && |r| == |d|
  {
    forall v :: 0 <= v < |d| && r[v] != d[v] ==>
      exists k :: 0 <= k < j && row[k].destination - 1 == v && r[v] == d[x] + row[k].weight
  }

  /** The first fact of RelaxRowIsMin on its own: relaxing a row raises no distance and keeps `d[x]`. */
  lemma {:induction false} RelaxRowNoRise(d: seq<int>, x: int, row: seq<Edge>, j: int)
    requires 0 <= x < |d| && 0 <= j <= |row| && RowInRange(row, |d|) && 0 <= d[x]
    requires forall k :: 0 <= k < |row| ==> 0 <= row[k].weight && d[x] + row[k].weight <= MAX_VALUE
    ensures NoRise(d, x, RelaxRow(d, x, row, j))
  {
    if j > 0 {
      RelaxRowNoRise(d, x, row, j - 1);
      RelaxStepExact(RelaxRow(d, x, row, j - 1), x, row[j - 1]);
    }
  }

  /** The inductive step of RelaxRowIsMin for Reaches: testing edge `j - 1` lowers no target and bounds its own. */
  lemma RelaxStepKeepsReaches(d: seq<int>, x: int, row: seq<Edge>, j: int, r0: seq<int>)
    requires 0 <= x < |d| && 0 < j <= |row| && RowInRange(row, |d|) && |r0| == |d| && r0[x] == d[x] && 0 <= d[x]
    requires 0 <= row[j - 1].weight && d[x] + row[j - 1].weight <= MAX_VALUE
    requires Reaches(d, x, row, j - 1, r0)
    ensures Reaches(d, x, row, j, RelaxStep(r0, x, row[j - 1]))
  {
    RelaxStepExact(r0, x, row[j - 1]);
  }

  /** The inductive step of RelaxRowIsMin for ChangedBy: the one distance edge `j - 1` may write is its target's. */
  lemma RelaxStepKeepsChangedBy(d: seq<int>, x: int, row: seq<Edge>, j: int, r0: seq<int>)
    requires 0 <= x < |d| && 0 < j <= |row| && RowInRange(row, |d|) && |r0| == |d| && r0[x] == d[x] && 0 <= d[x]
    requires 0 <= row[j - 1].weight && d[x] + row[j - 1].weight <= MAX_VALUE
    requires ChangedBy(d, x, row, j - 1, r0)
    ensures ChangedBy(d, x, row, j, RelaxStep(r0, x, row[j - 1]))
  {
    var e := row[j - 1];
    RelaxStepExact(r0, x, e);
    var r1 := RelaxStep(r0, x, e);
    forall v | 0 <= v < |d| && r1[v] != d[v]
      ensures exists k :: 0 <= k < j && row[k].destination - 1 == v && r1[v] == d[x] + row[k].weight
    {
      if r1[v] == r0[v] {
        var k :| 0 <= k < j - 1 && row[k].destination - 1 == v && r0[v] == d[x] + row[k].weight;
      } else {
        assert e.destination - 1 == v;
      }
    }
  }

  /**
   * With non-negative weights and sums that fit in an `int`, relaxing a row never
   * raises a distance and keeps `d[x]`, leaves the target of each edge no higher
   * than `d[x]` plus its weight, and sets each changed distance to `d[x]` plus the
   * weight of some edge of the row into that vertex: the minimum the source means
   * to compute.
   */
  lemma {:induction false} RelaxRowIsMin(d: seq<int>, x: int, row: seq<Edge>, j: int)
    requires 0 <= x < |d| && 0 <= j <= |row| && RowInRange(row, |d|) && 0 <= d[x]
    requires forall k :: 0 <= k < |row| ==> 0 <= row[k].weight && d[x] + row[k].weight <= MAX_VALUE
    ensures NoRise(d, x, RelaxRow(d, x, row, j))
    ensures Reaches(d, x, row, j, RelaxRow(d, x, row, j))
    ensures ChangedBy(d, x, row, j, RelaxRow(d, x, row, j))
  {
    RelaxRowNoRise(d, x, row, j);
    if j > 0 {
      RelaxRowIsMin(d, x, row, j - 1);
      RelaxRowNoRise(d, x, row, j - 1);
      var r0 := RelaxRow(d, x, row, j - 1);
      RelaxStepKeepsReaches(d, x, row, j, r0);
      RelaxStepKeepsChangedBy(d, x, row, j, r0);
    }
  }

  /** Every entry of `p` names a vertex, with a key below its distance in `d` and no lower than in `r`. */
  predicate PushesBetween(d: seq<int>, r: seq<int>, p: multiset<Edge>)
    requires |r| == |d|
  {
    forall e :: e in p ==> 0 <= e.destination < |d| && r[e.destination] <= e.weight < d[e.destination]
  }

  /** Each distance `r` changes from `d` is queued in `p` with its new value. */
  predicate ChangesQueued(d: seq<int>, r: seq<int>, p: multiset<Edge>)
    requires |r| == |d|
  {
    forall v :: 0 <= v < |d| && r[v] != d[v] ==> Edge(v, r[v]) in p
  }

  /** The inductive step of RelaxRowQueued. */
  lemma RelaxStepKeepsQueued(d: seq<int>, x: int, e: Edge, r0: seq<int>, p0: multiset<Edge>)
    requires 0 <= x < |d|
    requires 1 <= e.destination <= |d|
    requires 0 <= d[x]
    requires 0 <= e.weight
    requires d[x] + e.weight <= MAX_VALUE
    requires NoRise(d, x, r0)
    requires PushesBetween(d, r0, p0)
    requires ChangesQueued(d, r0, p0)
    ensures PushesBetween(d, RelaxStep(r0, x, e), p0 + StepPush(r0, x, e))
    ensures ChangesQueued(d, RelaxStep(r0, x, e), p0 + StepPush(r0, x, e))
  {
    RelaxStepExact(r0, x, e);
  }

  /**
   * Under the same bounds, every overwrite of a row is queued: each entry names a
   * vertex, with a key strictly below that vertex's old distance and no lower than
   * its final one, and each changed vertex's final distance is among the entries.
   */
  lemma {:induction false} RelaxRowQueued(d: seq<int>, x: int, row: seq<Edge>, j: int)
    requires 0 <= x < |d| && 0 <= j <= |row| && RowInRange(row, |d|) && 0 <= d[x]
    requires forall k :: 0 <= k < |row| ==> 0 <= row[k].weight && d[x] + row[k].weight <= MAX_VALUE
    ensures PushesBetween(d, RelaxRow(d, x, row, j), RowPushes(d, x, row, j))
    ensures ChangesQueued(d, RelaxRow(d, x, row, j), RowPushes(d, x, row, j))
  {
    if j > 0 {
      RelaxRowQueued(d, x, row, j - 1);
      RowQueuedStep(d, x, row, j);
    }
  }

  /** The inductive step of RelaxRowQueued: testing edge `j - 1` keeps both properties. */
  lemma RowQueuedStep(d: seq<int>, x: int, row: seq<Edge>, j: int)
    requires 0 <= x < |d| && 0 < j <= |row| && RowInRange(row, |d|) && 0 <= d[x]
    requires forall k :: 0 <= k < |row| ==> 0 <= row[k].weight && d[x] + row[k].weight <= MAX_VALUE
    requires PushesBetween(d, RelaxRow(d, x, row, j - 1), RowPushes(d, x, row, j - 1))
    requires ChangesQueued(d, RelaxRow(d, x, row, j - 1), RowPushes(d, x, row, j - 1))
    ensures PushesBetween(d, RelaxRow(d, x, row, j), RowPushes(d, x, row, j))
    ensures ChangesQueued(d, RelaxRow(d, x, row, j), RowPushes(d, x, row, j))
  {
    var r0, p0 := RelaxRow(d, x, row, j - 1), RowPushes(d, x, row, j - 1);
    RelaxRowNoRise(d, x, row, j - 1);
    var e := row[j - 1];
    assert 1 <= e.destination <= |d| && 0 <= e.weight && d[x] + e.weight <= MAX_VALUE;
    RelaxStepKeepsQueued(d, x, e, r0, p0);
    assert RelaxRow(d, x, row, j) == RelaxStep(r0, x, e);
    assert RowPushes(d, x, row, j) == p0 + StepPush(r0, x, e);
  }

  /**
   * The row of a vertex with a justified finite distance satisfies the bounds of the
   * lemmas above: its targets are vertices and no `int` sum along it wraps.
   */
  lemma RowFits(g: Graph, s: int, d: seq<int>, wit: seq<seq<Hop>>, x: int)
    requires WellFormed(g) && NoOverflow(g) && Justified(g, s, d, wit) && 0 <= x < |g| && d[x] < MAX_VALUE
    ensures RowInRange(g[x], |d|) && 0 <= d[x]
    ensures forall k :: 0 <= k < |g[x]| ==> 0 <= g[x][k].weight && d[x] + g[x][k].weight <= MAX_VALUE
  {
    forall k | 0 <= k < |g[x]|
      ensures 0 <= g[x][k].weight && d[x] + g[x][k].weight <= MAX_VALUE
    {
      assert g[x][k] in g[x];
      RelaxNoOverflow(g, s, d, wit, x, g[x][k]);
    }
  }

  /**
   * Each queued improvement lowers the sum of the distances by at least one, and a
   * row that queues nothing changes nothing: the measure both queue loops decrease.
   */
  lemma {:induction false} RowSum(d: seq<int>, x: int, row: seq<Edge>, j: int)
    requires 0 <= x < |d| && 0 <= j <= |row| && RowInRange(row, |d|) && 0 <= d[x]
    requires forall k :: 0 <= k < |row| ==> 0 <= row[k].weight && d[x] + row[k].weight <= MAX_VALUE
    ensures Sum(RelaxRow(d, x, row, j)) + |RowPushes(d, x, row, j)| <= Sum(d)
    ensures RowPushes(d, x, row, j) == multiset{} ==> RelaxRow(d, x, row, j) == d
  {
    if j > 0 {
      RowSum(d, x, row, j - 1);
      RelaxRowNoRise(d, x, row, j - 1);
      var r0, p0 := RelaxRow(d, x, row, j - 1), RowPushes(d, x, row, j - 1);
      var e := row[j - 1];
      assert 0 <= e.weight && r0[x] + e.weight <= MAX_VALUE;
      StepSum(r0, x, e);
      assert RelaxRow(d, x, row, j) == RelaxStep(r0, x, e);
      assert RowPushes(d, x, row, j) == p0 + StepPush(r0, x, e);
    }
  }

  /** The inductive step of RowSum: one improvement lowers the sum by at least one, and no improvement changes nothing. */
  lemma StepSum(r: seq<int>, x: int, e: Edge)
    requires 0 <= x < |r| && 1 <= e.destination <= |r| && 0 <= r[x] && 0 <= e.weight && r[x] + e.weight <= MAX_VALUE
    ensures Sum(RelaxStep(r, x, e)) + |StepPush(r, x, e)| <= Sum(r)
    ensures StepPush(r, x, e) == multiset{} ==> RelaxStep(r, x, e) == r
  {
    RelaxStepExact(r, x, e);
    if r[x] + e.weight < r[e.destination - 1] {
      SumDecrease(r, e.destination - 1, r[x] + e.weight);
    }
  }

  /** What a relaxed row tells its caller: no distance rises, and the sum falls by at least the number queued. */
  lemma RowOutcome(d: seq<int>, x: int, row: seq<Edge>, r: seq<int>, p: multiset<Edge>)
    requires 0 <= x < |d| && RowInRange(row, |d|) && 0 <= d[x]
    requires forall k :: 0 <= k < |row| ==> 0 <= row[k].weight && d[x] + row[k].weight <= MAX_VALUE
    requires r == RelaxRow(d, x, row, |row|) && p == RowPushes(d, x, row, |row|)
    ensures |r| == |d| && forall v :: 0 <= v < |d| ==> r[v] <= d[v]
    ensures Sum(r) + |p| <= Sum(d)
    ensures p == multiset{} ==> r == d
  {
    RelaxRowNoRise(d, x, row, |row|);
    RowSum(d, x, row, |row|);
  }

  /**
   * The row of a vertex at `Integer.MAX_VALUE` whose edges all weigh 0: the `int` sum
   * is `Integer.MAX_VALUE` again and improves nothing, so nothing changes and nothing
   * is queued.
   */
  lemma {:induction false} RelaxRowUnreached(d: seq<int>, x: int, row: seq<Edge>, j: int)
    requires 0 <= x < |d| && 0 <= j <= |row| && RowInRange(row, |d|) && d[x] == MAX_VALUE
    requires forall v :: 0 <= v < |d| ==> d[v] <= MAX_VALUE
    requires forall k :: 0 <= k < |row| ==> row[k].weight == 0
    ensures RelaxRow(d, x, row, j) == d && RowPushes(d, x, row, j) == multiset{}
  {
    if j > 0 {
      RelaxRowUnreached(d, x, row, j - 1);
      assert Add32(d[x], row[j - 1].weight) == MAX_VALUE;
    }
  }

  // ---------------------------------------------------------------------------
  // The queue variants (firstDijkstra2 and secondDijkstra2)
  // ---------------------------------------------------------------------------

  /** Every entry names a vertex and carries a key no smaller than its live distance and at most `limit`. */
  ghost predicate EntriesValid(d: seq<int>, q: Queue, limit: int) {
    forall e :: e in q ==> 0 <= e.destination < |d| && d[e.destination] <= e.weight <= limit
  }

  /**
   * Every vertex with a finite distance, other than `except`, is either still
   * queued with that exact distance as key or has had all its edges relaxed.
   */
  ghost predicate Pending(g: Graph, d: seq<int>, q: Queue, except: int)
    requires WellFormed(g) && |d| == |g|
  {
    forall u {:trigger Settled(g, d, u)} :: 0 <= u < |g| && u != except && d[u] < MAX_VALUE ==>
      Edge(u, d[u]) in q || Settled(g, d, u)
  }

  /** The first `j` edges out of `x` are relaxed. */
  ghost predicate Partial(g: Graph, d: seq<int>, x: int, j: int)
    requires WellFormed(g) && |d| == |g| && 0 <= x < |g| && 0 <= j <= |g[x]|
  {
    forall k :: 0 <= k < j ==> d[g[x][k].destination - 1] <= d[x] + g[x][k].weight
  }

  /** Polling `cur` leaves every other vertex's promise intact. */
  lemma PollKeepsPending(g: Graph, d: seq<int>, q: Queue, cur: Edge, limit: int)
    requires WellFormed(g) && |d| == |g|
    requires Pending(g, d, q, -1) && EntriesValid(d, q, limit) && cur in q
    ensures Pending(g, d, q - multiset{cur}, cur.destination)
    ensures EntriesValid(d, q - multiset{cur}, limit)
  {
    forall u | 0 <= u < |g| && u != cur.destination && d[u] < MAX_VALUE && Edge(u, d[u]) in q
      ensures Edge(u, d[u]) in q - multiset{cur}
    {
    }
  }

  /**
   * Polling the least entry `cur` of the lazy queue starts the relaxation of the
   * row of `cur.destination`, whose distance is finite because every key is.
   */
  lemma PollStartsRow(g: Graph, s: int, d: seq<int>, wit: seq<seq<Hop>>, q: Queue, cur: Edge, limit: int)
    requires WellFormed(g) && |d| == |g| && limit < MAX_VALUE
    requires Justified(g, s, d, wit)
    requires Pending(g, d, q, -1) && EntriesValid(d, q, limit) && cur in q
    ensures d[cur.destination] < MAX_VALUE
    ensures RowInvariant(g, s, d, wit, q - multiset{cur}, cur.destination, 0, limit)
  {
    PollKeepsPending(g, d, q, cur, limit);
  }

  /**
   * One edge out of the polled vertex `x` that improves its target: writing the
   * shorter distance and queueing it as a key keeps the queue's invariants.
   */
  lemma QueueRelax(g: Graph, d: seq<int>, q: Queue, x: int, j: int, limit: int, d': seq<int>)
    requires WellFormed(g) && |d| == |g| && MAX_VALUE - 1 <= limit
    requires 0 <= x < |g| && 0 <= j < |g[x]|
    requires EntriesValid(d, q, limit) && Pending(g, d, q, x) && Partial(g, d, x, j)
    requires d[x] + g[x][j].weight < d[g[x][j].destination - 1] <= MAX_VALUE
    requires d' == d[g[x][j].destination - 1 := d[x] + g[x][j].weight]
    ensures g[x][j].destination - 1 != x
    ensures EntriesValid(d', q + multiset{Edge(g[x][j].destination - 1, d'[g[x][j].destination - 1])}, limit)
    ensures Pending(g, d', q + multiset{Edge(g[x][j].destination - 1, d'[g[x][j].destination - 1])}, x)
    ensures Partial(g, d', x, j + 1)
  {
    var v := g[x][j].destination - 1;
    var e := Edge(v, d'[v]);
    assert 0 <= g[x][j].weight && 0 <= v < |g|;
    assert forall y :: 0 <= y < |g| ==> d'[y] <= d[y];
    EntriesAfterDecrease(d, d', q, e, limit);
    PendingAfterDecrease(g, d, d', q, x, v);
    PartialAfterRelax(g, d, d', x, j);
  }

  lemma EntriesAfterDecrease(d: seq<int>, d': seq<int>, q: Queue, e: Edge, limit: int)
    requires |d'| == |d| && EntriesValid(d, q, limit)
    requires forall y :: 0 <= y < |d| ==> d'[y] <= d[y]
    requires 0 <= e.destination < |d| && d'[e.destination] == e.weight <= limit
    ensures EntriesValid(d', q + multiset{e}, limit)
  {
    forall f | f in q + multiset{e}
      ensures 0 <= f.destination < |d'| && d'[f.destination] <= f.weight <= limit
    {
      if f != e {
        assert f in q;
      }
    }
  }

  lemma PendingAfterDecrease(g: Graph, d: seq<int>, d': seq<int>, q: Queue, x: int, v: int)
    requires WellFormed(g) && |d| == |g| && |d'| == |g| && 0 <= v < |g|
    requires Pending(g, d, q, x)
    requires forall y :: 0 <= y < |g| && y != v ==> d'[y] == d[y]
    requires d'[v] <= d[v]
    ensures Pending(g, d', q + multiset{Edge(v, d'[v])}, x)
  {
    var q' := q + multiset{Edge(v, d'[v])};
    forall u | 0 <= u < |g| && u != x && d'[u] < MAX_VALUE
      ensures Edge(u, d'[u]) in q' || Settled(g, d', u)
    {
      if u != v && Edge(u, d[u]) !in q {
        SettledAfterDecrease(g, d, d', u);
      }
    }
  }

  lemma PartialAfterRelax(g: Graph, d: seq<int>, d': seq<int>, x: int, j: int)
    requires WellFormed(g) && |d| == |g| && 0 <= x < |g| && 0 <= j < |g[x]|
    requires Partial(g, d, x, j)
    requires d' == d[g[x][j].destination - 1 := d[x] + g[x][j].weight]
    requires g[x][j].destination - 1 != x
    requires d[x] + g[x][j].weight < d[g[x][j].destination - 1]
    ensures Partial(g, d', x, j + 1)
  {
    forall k | 0 <= k < j + 1
      ensures d'[g[x][k].destination - 1] <= d'[x] + g[x][k].weight
    {
      if k < j {
        assert d[g[x][k].destination - 1] <= d[x] + g[x][k].weight;
      }
    }
  }

  /**
   * Inside the row of the polled vertex `x`, after its first `j` edges. The polled
   * vertex has a finite distance, or else its edges all weigh nothing.
   */
  ghost predicate RowInvariant(g: Graph, s: int, d: seq<int>, wit: seq<seq<Hop>>, q: Queue, x: int, j: int, limit: int)
    requires WellFormed(g)
  {
    Justified(g, s, d, wit) && 0 <= x < |g| && 0 <= j <= |g[x]| && (d[x] < MAX_VALUE || WeightlessRow(g, x)) &&
    EntriesValid(d, q, limit) && Pending(g, d, q, x) && Partial(g, d, x, j)
  }

  /**
   * One edge of the polled vertex's row, as both queue variants handle it: the
   * `int` sum does not wrap, and an edge that does not improve its target leaves
   * the row's invariant one edge further on.
   */
  lemma RowStep(g: Graph, s: int, d: seq<int>, wit: seq<seq<Hop>>, q: Queue, x: int, j: int, limit: int)
    requires WellFormed(g) && NoOverflow(g)
    requires RowInvariant(g, s, d, wit, q, x, j, limit) && j < |g[x]|
    ensures Add32(d[x], g[x][j].weight) == d[x] + g[x][j].weight
    ensures 0 <= g[x][j].destination - 1 < |d| && d[g[x][j].destination - 1] <= MAX_VALUE
    ensures d[x] + g[x][j].weight >= d[g[x][j].destination - 1] ==> RowInvariant(g, s, d, wit, q, x, j + 1, limit)
  {
    var e := g[x][j];
    if d[x] < MAX_VALUE {
      assert e in g[x];
      RelaxNoOverflow(g, s, d, wit, x, e);
    }
    if d[x] + e.weight >= d[e.destination - 1] {
      QueueSkip(g, d, x, j);
    }
  }

  /**
   * An edge of the row that improves its target: after writing the shorter distance,
   * extending the target's witness walk and queueing the new key, the row's invariant
   * holds one edge further on.
   */
  lemma RowRelaxed(g: Graph, s: int, d: seq<int>, wit: seq<seq<Hop>>, q: Queue, x: int, j: int, limit: int,
                   d': seq<int>, wit': seq<seq<Hop>>, q': Queue)
    requires WellFormed(g) && NoOverflow(g) && MAX_VALUE - 1 <= limit
    requires RowInvariant(g, s, d, wit, q, x, j, limit) && j < |g[x]|
    requires d[x] + g[x][j].weight < d[g[x][j].destination - 1]
    requires d' == d[g[x][j].destination - 1 := d[x] + g[x][j].weight]
    requires wit' == wit[g[x][j].destination - 1 := wit[x] + [Hop(x, g[x][j].destination - 1, g[x][j].weight)]]
    requires q' == q + multiset{Edge(g[x][j].destination - 1, d'[g[x][j].destination - 1])}
    ensures RowInvariant(g, s, d', wit', q', x, j + 1, limit)
  {
    var e := g[x][j];
    if d[x] == MAX_VALUE {
      assert false;
    }
    assert e in g[x];
    RelaxNoOverflow(g, s, d, wit, x, e);
    QueueRelax(g, d, q, x, j, limit, d');
    RelaxKeepsJustified(g, s, d, wit, x, e);
  }

  /**
   * One edge of the row as the queue variants test it: whether it improves its target
   * or not, the row's invariant holds one edge further on for the distances `RelaxStep`
   * computes and the entries `StepPush` queues, with the witness walks `w`.
   */
  lemma RowInvariantStep(g: Graph, s: int, d: seq<int>, wit: seq<seq<Hop>>, q: Queue, x: int, j: int, limit: int)
      returns (w: seq<seq<Hop>>)
    requires WellFormed(g) && NoOverflow(g) && MAX_VALUE - 1 <= limit
    requires RowInvariant(g, s, d, wit, q, x, j, limit) && j < |g[x]|
    ensures 1 <= g[x][j].destination <= |d|
    ensures RowInvariant(g, s, RelaxStep(d, x, g[x][j]), w, q + StepPush(d, x, g[x][j]), x, j + 1, limit)
  {
    var e := g[x][j];
    var v := e.destination - 1;
    RowStep(g, s, d, wit, q, x, j, limit);
    if d[x] + e.weight < d[v] {
      w := wit[v := wit[x] + [Hop(x, v, e.weight)]];
      RowRelaxed(g, s, d, wit, q, x, j, limit, d[v := d[x] + e.weight], w, q + multiset{Edge(v, d[x] + e.weight)});
    } else {
      w := wit;
      assert q + StepPush(d, x, e) == q;
    }
  }

  /** One edge out of `x` that does not improve its target: nothing changes, and one more edge is relaxed. */
  lemma QueueSkip(g: Graph, d: seq<int>, x: int, j: int)
    requires WellFormed(g) && |d| == |g| && 0 <= x < |g| && 0 <= j < |g[x]|
    requires Partial(g, d, x, j)
    requires d[x] + g[x][j].weight >= d[g[x][j].destination - 1]
    ensures Partial(g, d, x, j + 1)
  {
  }

  lemma PendingAfterRow(g: Graph, d: seq<int>, q: Queue, x: int)
    requires WellFormed(g) && |d| == |g| && 0 <= x < |g|
    requires Pending(g, d, q, x) && Partial(g, d, x, |g[x]|)
    ensures Pending(g, d, q, -1)
  {
    assert Settled(g, d, x);
  }

  /** An empty queue with every promise kept means nothing is left to relax. */
  lemma EmptyQueueClosed(g: Graph, d: seq<int>)
    requires WellFormed(g) && |d| == |g| && Pending(g, d, multiset{}, -1)
    ensures Closed(g, d)
  {
  }

  /**
   * When the least entry of the eager queue names a vertex at `Integer.MAX_VALUE`,
   * every key is `Integer.MAX_VALUE`, so no vertex with a finite distance is still
   * queued, and every vertex is settled.
   */
  lemma EagerPollCloses(g: Graph, d: seq<int>, q: Queue, cur: Edge)
    requires WellFormed(g) && |d| == |g|
    requires EntriesValid(d, q, MAX_VALUE) && Pending(g, d, q, -1)
    requires cur in q && forall f :: f in q ==> cur.weight <= f.weight
    requires d[cur.destination] == MAX_VALUE
    ensures Closed(g, d)
  {
    forall u | 0 <= u < |g|
      ensures Settled(g, d, u)
    {
      if d[u] < MAX_VALUE {
        assert Edge(u, d[u]) !in q;
      }
    }
  }

  /**
   * When every vertex is reachable, the least entry of the eager queue names a vertex
   * with a finite distance: were it infinite, every vertex would be settled, and so
   * every vertex finite.
   */
  lemma EagerPollFinite(g: Graph, s: int, d: seq<int>, wit: seq<seq<Hop>>, q: Queue, cur: Edge)
    requires WellFormed(g) && NoOverflow(g) && Justified(g, s, d, wit)
    requires AllReachable(g, s)
    requires EntriesValid(d, q, MAX_VALUE) && Pending(g, d, q, -1)
    requires cur in q && forall f :: f in q ==> cur.weight <= f.weight
    ensures d[cur.destination] < MAX_VALUE
  {
    if d[cur.destination] >= MAX_VALUE {
      EagerPollCloses(g, d, q, cur);
      ClosedIsShortest(g, s, d, wit);
      ReachableIffFinite(g, s, d);
      assert false;
    }
  }

  /**
   * Polling the least entry `cur` of the eager queue starts the relaxation of the row
   * of its vertex. When that vertex is at `Integer.MAX_VALUE` it is unreachable, so
   * its edges weigh nothing when unreachable vertices have only edges of weight 0.
   */
  lemma EagerPollStartsRow(g: Graph, s: int, d: seq<int>, wit: seq<seq<Hop>>, q: Queue, cur: Edge)
    requires WellFormed(g) && NoOverflow(g) && Justified(g, s, d, wit) && UnreachedWeightless(g, s)
    requires EntriesValid(d, q, MAX_VALUE) && Pending(g, d, q, -1)
    requires cur in q && forall f :: f in q ==> cur.weight <= f.weight
    ensures RowInvariant(g, s, d, wit, q - multiset{cur}, cur.destination, 0, MAX_VALUE)
  {
    var x := cur.destination;
    PollKeepsPending(g, d, q, cur, MAX_VALUE);
    if d[x] == MAX_VALUE {
      EagerPollCloses(g, d, q, cur);
      ClosedIsShortest(g, s, d, wit);
      assert IsShortestDistance(g, s, x, d[x]);
      assert WeightlessRow(g, x);
    }
  }

  /**
   * Polling the least entry `cur` of the eager queue when it names a vertex at
   * `Integer.MAX_VALUE`: the distances are already the shortest ones and that vertex
   * is unreachable. When unreachable vertices have only edges of weight 0, relaxing
   * its row (from `d` to `d'`, queueing `p`) changes nothing and queues nothing, and
   * the rest of the queue keeps the invariants.
   */
  lemma EagerPollUnreached(g: Graph, s: int, d: seq<int>, wit: seq<seq<Hop>>, q: Queue, cur: Edge,
                           d': seq<int>, p: multiset<Edge>)
    requires WellFormed(g) && NoOverflow(g) && Justified(g, s, d, wit) && UnreachedWeightless(g, s)
    requires EntriesValid(d, q, MAX_VALUE) && Pending(g, d, q, -1)
    requires cur in q && forall f :: f in q ==> cur.weight <= f.weight
    requires d[cur.destination] == MAX_VALUE
    requires d' == RelaxRow(d, cur.destination, g[cur.destination], |g[cur.destination]|)
    requires p == RowPushes(d, cur.destination, g[cur.destination], |g[cur.destination]|)
    ensures ShortestDistances(g, s, d) && !Reachable(g, s, cur.destination)
    ensures d' == d && p == multiset{}
    ensures EntriesValid(d, q - multiset{cur}, MAX_VALUE) && Pending(g, d, q - multiset{cur}, -1)
  {
    var x := cur.destination;
    EagerPollCloses(g, d, q, cur);
    ClosedIsShortest(g, s, d, wit);
    assert IsShortestDistance(g, s, x, d[x]);
    assert WeightlessRow(g, x);
    PollKeepsPending(g, d, q, cur, MAX_VALUE);
    RelaxRowUnreached(d, x, g[x], |g[x]|);
  }

  /**
   * The end of one round of either queue variant, after polling `cur` and relaxing
   * the row of its vertex, which has a finite distance, from `d` to `d'` and leaving
   * the queue `q'`: the loop's invariants hold again, no distance has risen, and the
   * sum of the distances has fallen by at least the number of entries queued; a round
   * that changes no distance shrinks the queue.
   */
  lemma RoundDone(g: Graph, s: int, d: seq<int>, wit: seq<seq<Hop>>, q: Queue, cur: Edge,
                  d': seq<int>, wit': seq<seq<Hop>>, q': Queue, limit: int)
    requires WellFormed(g) && NoOverflow(g) && Justified(g, s, d, wit) && cur in q
    requires 0 <= cur.destination < |g| && d[cur.destination] < MAX_VALUE
    requires d' == RelaxRow(d, cur.destination, g[cur.destination], |g[cur.destination]|)
    requires q' == q - multiset{cur} + RowPushes(d, cur.destination, g[cur.destination], |g[cur.destination]|)
    requires RowInvariant(g, s, d', wit', q', cur.destination, |g[cur.destination]|, limit)
    ensures Justified(g, s, d', wit') && EntriesValid(d', q', limit) && Pending(g, d', q', -1)
    ensures forall v :: 0 <= v < |d| ==> d'[v] <= d[v]
    ensures Sum(d') + |q'| - |q - multiset{cur}| <= Sum(d)
    ensures Sum(d') < Sum(d) || (d' == d && |q'| < |q|)
  {
    var x := cur.destination;
    PendingAfterRow(g, d', q', x);
    RowFits(g, s, d, wit, x);
    RowOutcome(d, x, g[x], d', RowPushes(d, x, g[x], |g[x]|));
  }

  /**
   * One round of `secondDijkstra2`: poll the least entry `cur`, then relax the row of
   * its vertex from `d` to `d'`, leaving the queue `q'`. When unreachable vertices
   * have only edges of weight 0, the round keeps the loop's invariants (with the
   * witnesses `w`), raises no distance, and lowers the sum of the distances by at
   * least the number of entries it queued; a round that changes no distance shrinks
   * the queue.
   */
  lemma EagerRoundDone(g: Graph, s: int, d: seq<int>, wit: seq<seq<Hop>>, q: Queue, cur: Edge,
                       d': seq<int>, wit': seq<seq<Hop>>, q': Queue) returns (w: seq<seq<Hop>>)
    requires WellFormed(g) && NoOverflow(g) && Justified(g, s, d, wit) && UnreachedWeightless(g, s)
    requires EntriesValid(d, q, MAX_VALUE) && Pending(g, d, q, -1)
    requires cur in q && forall f :: f in q ==> cur.weight <= f.weight
    requires d' == RelaxRow(d, cur.destination, g[cur.destination], |g[cur.destination]|)
    requires q' == q - multiset{cur} + RowPushes(d, cur.destination, g[cur.destination], |g[cur.destination]|)
    requires RowInvariant(g, s, d', wit', q', cur.destination, |g[cur.destination]|, MAX_VALUE)
    ensures Justified(g, s, d', w) && EntriesValid(d', q', MAX_VALUE) && Pending(g, d', q', -1)
    ensures forall v :: 0 <= v < |d| ==> d'[v] <= d[v]
    ensures Sum(d') + |q'| - |q - multiset{cur}| <= Sum(d)
    ensures Sum(d') < Sum(d) || (d' == d && |q'| < |q|)
  {
    var x := cur.destination;
    var p := RowPushes(d, x, g[x], |g[x]|);
    if d[x] < MAX_VALUE {
      w := wit';
      RoundDone(g, s, d, wit, q, cur, d', wit', q', MAX_VALUE);
    } else {
      w := wit;
      EagerPollUnreached(g, s, d, wit, q, cur, d', p);
    }
  }

  /** Some entry of `q` names vertex `v`. */
  ghost predicate Queued(q: Queue, v: int) {
    exists e :: e in q && e.destination == v
  }

  /**
   * The eager queue as `secondDijkstra2` seeds it, one entry per vertex keyed by its
   * distance, satisfies the queue invariants and names every vertex.
   */
  lemma SeededQueue(g: Graph, s: int, d: seq<int>, wit: seq<seq<Hop>>, q: Queue)
    requires WellFormed(g) && Justified(g, s, d, wit)
    requires forall e :: e in q ==> 0 <= e.destination < |g| && e.weight == d[e.destination]
    requires forall k :: 0 <= k < |g| ==> Edge(k, d[k]) in q
    ensures EntriesValid(d, q, MAX_VALUE) && Pending(g, d, q, -1)
    ensures forall v :: 0 <= v < |g| ==> Queued(q, v)
  {
    forall v | 0 <= v < |g|
      ensures Queued(q, v)
    {
      assert Edge(v, d[v]) in q;
    }
  }

  /** Polling `cur` and then queueing more leaves every other named vertex named. */
  lemma QueuedAfterPoll(q: Queue, cur: Edge, q': Queue, v: int)
    requires Queued(q, v) && cur in q && v != cur.destination && q - multiset{cur} <= q'
    ensures Queued(q', v)
  {
    var e :| e in q && e.destination == v;
    assert e in q - multiset{cur};
  }

  /** Every vertex not yet marked in `vis` is named by some entry of `q`. */
  ghost predicate AllNamed(vis: seq<bool>, q: Queue) {
    forall v :: 0 <= v < |vis| ==> vis[v] || Queued(q, v)
  }

  /** Marking the polled vertex and queueing more keeps every unmarked vertex named. */
  lemma NamedAfterPoll(vis: seq<bool>, q: Queue, cur: Edge, q': Queue)
    requires AllNamed(vis, q) && cur in q && 0 <= cur.destination < |vis| && q - multiset{cur} <= q'
    ensures AllNamed(vis[cur.destination := true], q')
  {
    var vis' := vis[cur.destination := true];
    forall v | 0 <= v < |vis| && !vis'[v]
      ensures Queued(q', v)
    {
      QueuedAfterPoll(q, cur, q', v);
    }
  }

  /**
   * While the eager loop runs, a vertex the start cannot reach that has not been
   * polled yet is still in the queue, and only under key `Integer.MAX_VALUE`: the
   * loop, which runs until the queue is empty, polls it with that key.
   */
  lemma UnreachedQueuedAtMax(g: Graph, s: int, d: seq<int>, wit: seq<seq<Hop>>, vis: seq<bool>, q: Queue, u: int)
    requires Justified(g, s, d, wit) && EntriesValid(d, q, MAX_VALUE) && AllNamed(vis, q)
    requires |vis| == |g| && 0 <= u < |g| && !vis[u] && !Reachable(g, s, u)
    ensures Edge(u, MAX_VALUE) in q
    ensures forall e :: e in q && e.destination == u ==> e.weight == MAX_VALUE
  {
    if d[u] < MAX_VALUE {
      FiniteIsReachable(g, s, d, wit, u);
    }
    var e :| e in q && e.destination == u;
    assert e == Edge(u, MAX_VALUE);
  }

  /**
   * The failure `secondDijkstra2` runs into when an unreachable vertex has an edge of
   * positive weight: the vertex's seeded entry still carries key `MAX_VALUE`, and
   * adding the weight to it in `int` wraps to a negative number, which passes the `<`
   * test and is written into the array as the target's distance.
   */
  lemma EagerUnreachableWraps(d: seq<int>, x: int, e: Edge)
    requires 0 <= x < |d| && d[x] == MAX_VALUE
    requires 1 <= e.weight <= MAX_VALUE
    requires 0 <= e.destination - 1 < |d| && 0 <= d[e.destination - 1]
    ensures MIN_VALUE <= Add32(d[x], e.weight) <= -2
    ensures Improves(d, x, e) && RelaxStep(d, x, e)[e.destination - 1] < 0
  {
  }
}
