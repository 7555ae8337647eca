/**
 * The adjacency list the engine reads and what its results mean: walks from the
 * start vertex, their lengths, reachability, single-source shortest distances,
 * and the facts about relaxing an edge that all three variants of the engine use.
 *
 * Row `u` of a graph lists the edges leaving 0-based vertex `u`; the destinations
 * stored in those edges are 1-based, as the data files write them.
 */
module Graphs {
  import opened JavaText
  import opened Edges

  type Graph = seq<seq<Edge>>

  /** Every destination names a vertex of `g` (1-based) and every weight is non-negative. */
  predicate WellFormed(g: Graph) {
    forall u, j :: 0 <= u < |g| && 0 <= j < |g[u]| ==>
      1 <= g[u][j].destination <= |g| && 0 <= g[u][j].weight
  }

  /** The largest weight in a row, or 0 for an empty row. */
  function RowMaxWeight(row: seq<Edge>): (m: nat)
    ensures forall j :: 0 <= j < |row| ==> row[j].weight <= m
    ensures m == 0 || exists j :: 0 <= j < |row| && row[j].weight == m
  {
    if row == [] then 0
    else
      var m := RowMaxWeight(row[..|row| - 1]);
      if row[|row| - 1].weight > m then row[|row| - 1].weight else m
  }

  /** The largest weight in the graph, or 0 for a graph without edges. */
  function MaxWeight(g: Graph): (m: nat)
    ensures forall u, j :: 0 <= u < |g| && 0 <= j < |g[u]| ==> g[u][j].weight <= m
  {
    if g == [] then 0
    else
      var m := MaxWeight(g[..|g| - 1]);
      var r := RowMaxWeight(g[|g| - 1]);
      assert forall u :: 0 <= u < |g| - 1 ==> g[..|g| - 1][u] == g[u];
      if r > m then r else m
  }

  /**
   * Java's `int` never overflows in the engine: a path through every vertex, plus
   * one more edge, stays below `Integer.MAX_VALUE`.
   */
  predicate NoOverflow(g: Graph) {
    |g| * MaxWeight(g) < MAX_VALUE
  }

  /** One step along an edge, from 0-based vertex `from` to 0-based vertex `to`. */
  datatype Hop = Hop(from: int, to: int, weight: int)

  predicate IsEdge(g: Graph, h: Hop) {
    0 <= h.from < |g| && Edge(h.to + 1, h.weight) in g[h.from]
  }

  /** Where a walk from `s` ends. */
  function End(s: int, p: seq<Hop>): int {
    if p == [] then s else p[|p| - 1].to
  }

  /** `p` is a walk in `g` that starts at `s`. */
  predicate IsWalk(g: Graph, s: int, p: seq<Hop>) {
    p == [] ||
    (IsWalk(g, s, p[..|p| - 1]) && IsEdge(g, p[|p| - 1]) && p[|p| - 1].from == End(s, p[..|p| - 1]))
  }

  /** The total weight of a walk. */
  function Len(p: seq<Hop>): int {
    if p == [] then 0 else Len(p[..|p| - 1]) + p[|p| - 1].weight
  }

  ghost predicate Reachable(g: Graph, s: int, v: int) {
    exists p :: IsWalk(g, s, p) && End(s, p) == v
  }

  /** Every vertex of `g` can be reached from `s`. */
  ghost predicate AllReachable(g: Graph, s: int) {
    forall v :: 0 <= v < |g| ==> Reachable(g, s, v)
  }

  /**
   * Every vertex `s` cannot reach has only edges of weight 0, if any: a weaker
   * demand than `AllReachable`.
   */
  ghost predicate UnreachedWeightless(g: Graph, s: int) {
    forall u {:trigger WeightlessRow(g, u)} :: 0 <= u < |g| && !Reachable(g, s, u) ==> WeightlessRow(g, u)
  }

  /** Every edge out of `u` weighs 0. */
  predicate WeightlessRow(g: Graph, u: int)
    requires 0 <= u < |g|
  {
    forall k :: 0 <= k < |g[u]| ==> g[u][k].weight == 0
  }

  lemma AllReachableWeightless(g: Graph, s: int)
    requires AllReachable(g, s)
    ensures UnreachedWeightless(g, s)
  {
  }

  /**
   * `x` is the shortest distance from `s` to `v`: `Integer.MAX_VALUE` exactly when no
   * walk reaches `v`, and otherwise the length of a walk that no walk undercuts.
   */
  ghost predicate IsShortestDistance(g: Graph, s: int, v: int, x: int) {
    x <= MAX_VALUE &&
    (Reachable(g, s, v) <==> x < MAX_VALUE) &&
    (x < MAX_VALUE ==> exists p :: IsWalk(g, s, p) && End(s, p) == v && Len(p) == x) &&
    (forall p :: IsWalk(g, s, p) && End(s, p) == v ==> x <= Len(p))
  }

  /** `d` holds the single-source shortest distances from `s`, one per vertex. */
  ghost predicate ShortestDistances(g: Graph, s: int, d: seq<int>) {
    |d| == |g| && forall v {:trigger IsShortestDistance(g, s, v, d[v])} :: 0 <= v < |d| ==> IsShortestDistance(g, s, v, d[v])
  }

  /** Shortest distances that are all finite say that every vertex is reachable, and one that is not says the opposite. */
  lemma ReachableIffFinite(g: Graph, s: int, d: seq<int>)
    requires ShortestDistances(g, s, d)
    ensures AllReachable(g, s) <==> forall v :: 0 <= v < |d| ==> d[v] < MAX_VALUE
  {
    if forall v :: 0 <= v < |d| ==> d[v] < MAX_VALUE {
      forall v | 0 <= v < |g|
        ensures Reachable(g, s, v)
      {
        assert IsShortestDistance(g, s, v, d[v]);
      }
    }
    if AllReachable(g, s) {
      forall v | 0 <= v < |d|
        ensures d[v] < MAX_VALUE
      {
        assert Reachable(g, s, v) && IsShortestDistance(g, s, v, d[v]);
      }
    }
  }

  /** At most one array holds the shortest distances, so every variant that computes them agrees with every other. */
  lemma ShortestDistancesUnique(g: Graph, s: int, d1: seq<int>, d2: seq<int>)
    requires ShortestDistances(g, s, d1) && ShortestDistances(g, s, d2)
    ensures d1 == d2
  {
    forall v | 0 <= v < |d1|
      ensures d1[v] == d2[v]
    {
      assert IsShortestDistance(g, s, v, d1[v]) && IsShortestDistance(g, s, v, d2[v]);
      if d1[v] < MAX_VALUE {
        var p1 :| IsWalk(g, s, p1) && End(s, p1) == v && Len(p1) == d1[v];
        var p2 :| IsWalk(g, s, p2) && End(s, p2) == v && Len(p2) == d2[v];
        assert d1[v] <= Len(p2) && d2[v] <= Len(p1);
      }
    }
  }

  // ---------------------------------------------------------------------------
  // Walks in a well-formed graph
  // ---------------------------------------------------------------------------

  lemma {:induction false} WalkHops(g: Graph, s: int, p: seq<Hop>, k: int)
    requires WellFormed(g) && IsWalk(g, s, p) && 0 <= k < |p|
    ensures 0 <= p[k].weight <= MaxWeight(g) && 0 <= p[k].to < |g|
  {
    if k < |p| - 1 {
      WalkHops(g, s, p[..|p| - 1], k);
    } else {
      var h := p[k];
      var j :| 0 <= j < |g[h.from]| && g[h.from][j] == Edge(h.to + 1, h.weight);
    }
  }

  /** A walk weighs at least as much as each of its prefixes. */
  lemma {:induction false} LenPrefix(g: Graph, s: int, p: seq<Hop>, k: int)
    requires WellFormed(g) && IsWalk(g, s, p) && 0 <= k <= |p|
    ensures 0 <= Len(p[..k]) <= Len(p)
  {
    if k < |p| {
      var q := p[..|p| - 1];
      WalkHops(g, s, p, |p| - 1);
      assert q[..k] == p[..k];
      LenPrefix(g, s, q, k);
    } else {
      assert p[..k] == p;
      if p != [] {
        LenPrefix(g, s, p[..|p| - 1], |p| - 1);
        WalkHops(g, s, p, |p| - 1);
        assert p[..|p| - 1][..|p| - 1] == p[..|p| - 1];
      }
    }
  }

  /** A walk of `k` hops weighs at most `k` times the largest weight. */
  lemma {:induction false} LenAtMost(g: Graph, s: int, p: seq<Hop>)
    requires WellFormed(g) && IsWalk(g, s, p)
    ensures Len(p) <= |p| * MaxWeight(g)
  {
    if p != [] {
      LenAtMost(g, s, p[..|p| - 1]);
      WalkHops(g, s, p, |p| - 1);
      assert (|p| - 1) * MaxWeight(g) + MaxWeight(g) == |p| * MaxWeight(g);
    }
  }

  // ---------------------------------------------------------------------------
  // Counting distinct vertices
  // ---------------------------------------------------------------------------

  /** The vertices of an `n`-vertex graph. */
  function Below(n: nat): (r: set<int>)
    ensures forall v :: v in r <==> 0 <= v < n
    ensures |r| == n
  {
    if n == 0 then {} else Below(n - 1) + {n - 1}
  }

  lemma SubsetSize(a: set<int>, b: set<int>)
    requires a <= b
    ensures |a| <= |b|
  {
    assert b == a + (b - a);
  }

  /** The ends of the prefixes of `p` (the vertices it visits). */
  function Ends(s: int, p: seq<Hop>): set<int> {
    set k | 0 <= k <= |p| :: End(s, p[..k])
  }

  /** The prefixes of `p` without its last hop, and `p` itself. */
  lemma EndsSnoc(s: int, p: seq<Hop>)
    requires p != []
    ensures Ends(s, p) == Ends(s, p[..|p| - 1]) + {End(s, p)}
  {
    var q := p[..|p| - 1];
    forall k | 0 <= k <= |q|
      ensures q[..k] == p[..k]
    {
    }
    assert p[..|p|] == p;
  }

  lemma {:induction false} EndsSize(s: int, p: seq<Hop>)
    requires forall i, j :: 0 <= i < j <= |p| ==> End(s, p[..i]) != End(s, p[..j])
    ensures |Ends(s, p)| == |p| + 1
  {
    if p == [] {
      assert Ends(s, p) == {s};
    } else {
      var q := p[..|p| - 1];
      forall i, j | 0 <= i < j <= |q|
        ensures End(s, q[..i]) != End(s, q[..j])
      {
        assert q[..i] == p[..i] && q[..j] == p[..j];
      }
      EndsSize(s, q);
      EndsSnoc(s, p);
      assert End(s, p[..|p|]) !in Ends(s, q) by {
        forall k | 0 <= k <= |q|
          ensures End(s, q[..k]) != End(s, p[..|p|])
        {
          assert q[..k] == p[..k];
        }
      }
      assert p[..|p|] == p;
    }
  }

  // ---------------------------------------------------------------------------
  // The relaxation invariant
  // ---------------------------------------------------------------------------

  /**
   * `p` justifies the distance `d[v]`: it is a walk from `s` to `v` of length `d[v]`
   * that never visits a vertex twice, and no prefix of it is shorter than the
   * distance recorded for the vertex where that prefix ends.
   */
  ghost predicate Witness(g: Graph, s: int, d: seq<int>, p: seq<Hop>, v: int) {
    0 <= v < |d| &&
    IsWalk(g, s, p) && End(s, p) == v && Len(p) == d[v] &&
    (forall k :: 0 <= k <= |p| ==> 0 <= End(s, p[..k]) < |d| && d[End(s, p[..k])] <= Len(p[..k])) &&
    (forall i, j :: 0 <= i < j <= |p| ==> End(s, p[..i]) != End(s, p[..j]))
  }

  /**
   * The invariant every variant keeps for its distance array `d`: entries lie in
   * `[0, MAX_VALUE]`, the start vertex is at 0, and every finite entry is justified
   * by the walk `wit[v]`.
   */
  ghost predicate Justified(g: Graph, s: int, d: seq<int>, wit: seq<seq<Hop>>) {
    |d| == |g| && |wit| == |g| && 0 <= s < |g| && d[s] == 0 &&
    (forall v :: 0 <= v < |d| ==> 0 <= d[v] <= MAX_VALUE) &&
    (forall v {:trigger Witness(g, s, d, wit[v], v)} :: 0 <= v < |d| && d[v] < MAX_VALUE ==> Witness(g, s, d, wit[v], v))
  }

  /** A finite justified distance names a vertex the start reaches. */
  lemma FiniteIsReachable(g: Graph, s: int, d: seq<int>, wit: seq<seq<Hop>>, v: int)
    requires Justified(g, s, d, wit) && 0 <= v < |d| && d[v] < MAX_VALUE
    ensures Reachable(g, s, v)
  {
    assert Witness(g, s, d, wit[v], v);
    assert IsWalk(g, s, wit[v]) && End(s, wit[v]) == v;
  }

  /** The distances the engine starts from: 0 at the start vertex, `Integer.MAX_VALUE` everywhere else. */
  function InitialDistances(n: nat, s: int): (d: seq<int>)
    ensures |d| == n
    ensures forall v :: 0 <= v < n ==> d[v] == if v == s then 0 else MAX_VALUE
  {
    seq(n, v => if v == s then 0 else MAX_VALUE)
  }

  /** The starting distances are justified: the start vertex by the empty walk, the rest are infinite. */
  lemma InitialJustified(g: Graph, s: int) returns (wit: seq<seq<Hop>>)
    requires 0 <= s < |g|
    ensures Justified(g, s, InitialDistances(|g|, s), wit)
  {
    var d := InitialDistances(|g|, s);
    wit := seq(|g|, v => []);
    assert Witness(g, s, d, [], s) by {
      var p: seq<Hop> := [];
      assert p[..0] == p;
    }
  }

  lemma MulMonotone(a: int, b: int, c: nat)
    requires a <= b
    ensures a * c <= b * c
  {
  }

  lemma MulSucc(a: int, c: int)
    ensures a * c + c == (a + 1) * c
  {
  }

  lemma EdgeInRange(g: Graph, u: int, e: Edge)
    requires WellFormed(g) && 0 <= u < |g| && e in g[u]
    ensures 1 <= e.destination <= |g| && 0 <= e.weight <= MaxWeight(g)
  {
  }

  /** A walk whose prefixes end at distinct vertices of `g` has fewer hops than `g` has vertices. */
  lemma DistinctEndsShort(g: Graph, s: int, p: seq<Hop>)
    requires forall k :: 0 <= k <= |p| ==> 0 <= End(s, p[..k]) < |g|
    requires forall i, j :: 0 <= i < j <= |p| ==> End(s, p[..i]) != End(s, p[..j])
    ensures |p| <= |g| - 1
  {
    EndsSize(s, p);
    assert Ends(s, p) <= Below(|g|);
    SubsetSize(Ends(s, p), Below(|g|));
  }

  /** A finite justified distance is at most `|g| - 1` hops of the largest weight. */
  lemma FiniteDistanceBound(g: Graph, s: int, d: seq<int>, wit: seq<seq<Hop>>, v: int)
    requires WellFormed(g) && Justified(g, s, d, wit)
    requires 0 <= v < |d| && d[v] < MAX_VALUE
    ensures d[v] <= (|g| - 1) * MaxWeight(g)
  {
    var p := wit[v];
    assert Witness(g, s, d, p, v);
    DistinctEndsShort(g, s, p);
    LenAtMost(g, s, p);
    MulMonotone(|p|, |g| - 1, MaxWeight(g));
  }


  /** Relaxing an edge out of a vertex with a finite distance never overflows and never reaches infinity. */
  lemma RelaxNoOverflow(g: Graph, s: int, d: seq<int>, wit: seq<seq<Hop>>, u: int, e: Edge)
    requires WellFormed(g) && NoOverflow(g) && Justified(g, s, d, wit)
    requires 0 <= u < |g| && e in g[u] && d[u] < MAX_VALUE
    ensures 0 <= d[u] + e.weight < MAX_VALUE
    ensures Add32(d[u], e.weight) == d[u] + e.weight
  {
    FiniteDistanceBound(g, s, d, wit, u);
    EdgeInRange(g, u, e);
    MulSucc(|g| - 1, MaxWeight(g));
  }

  lemma WitnessAfterDecrease(g: Graph, s: int, d: seq<int>, d': seq<int>, p: seq<Hop>, v: int)
    requires Witness(g, s, d, p, v)
    requires |d'| == |d| && d'[v] == d[v]
    requires forall x :: 0 <= x < |d| ==> d'[x] <= d[x]
    ensures Witness(g, s, d', p, v)
  {
  }

  lemma WitnessExtend(g: Graph, s: int, d: seq<int>, d': seq<int>, p: seq<Hop>, u: int, e: Edge)
    requires WellFormed(g) && Witness(g, s, d, p, u)
    requires 0 <= u < |g| && e in g[u] && |d| == |g| && 1 <= e.destination <= |g| && 0 <= e.weight
    requires |d'| == |d| && d'[e.destination - 1] == d[u] + e.weight < d[e.destination - 1]
    requires forall x :: 0 <= x < |d| ==> d'[x] <= d[x]
    ensures Witness(g, s, d', p + [Hop(u, e.destination - 1, e.weight)], e.destination - 1)
  {
    var v := e.destination - 1;
    var h := Hop(u, v, e.weight);
    var q := p + [h];
    assert q[..|q| - 1] == p;
    assert IsEdge(g, h);
    assert IsWalk(g, s, q);
    forall k | 0 <= k <= |q|
      ensures 0 <= End(s, q[..k]) < |d'| && d'[End(s, q[..k])] <= Len(q[..k])
    {
      if k <= |p| {
        assert q[..k] == p[..k];
      } else {
        assert q[..k] == q;
      }
    }
    forall i, j | 0 <= i < j <= |q|
      ensures End(s, q[..i]) != End(s, q[..j])
    {
      assert q[..i] == p[..i];
      if j <= |p| {
        assert q[..j] == p[..j];
      } else {
        assert q[..j] == q;
        if End(s, p[..i]) == v {
          LenPrefix(g, s, p, i);
          assert false;
        }
      }
    }
  }

  /**
   * Relaxing edge `e` out of `u` when it improves on `d` keeps the invariant: the new
   * distance is justified by `u`'s walk extended by `e`, every other entry by its old walk.
   */
  lemma RelaxKeepsJustified(g: Graph, s: int, d: seq<int>, wit: seq<seq<Hop>>, u: int, e: Edge)
    requires WellFormed(g) && NoOverflow(g) && Justified(g, s, d, wit)
    requires 0 <= u < |g| && e in g[u] && d[u] < MAX_VALUE
    requires d[u] + e.weight < d[e.destination - 1]
    ensures Justified(g, s, d[e.destination - 1 := d[u] + e.weight],
                      wit[e.destination - 1 := wit[u] + [Hop(u, e.destination - 1, e.weight)]])
  {
    var v := e.destination - 1;
    var d' := d[v := d[u] + e.weight];
    var wit' := wit[v := wit[u] + [Hop(u, v, e.weight)]];
    RelaxNoOverflow(g, s, d, wit, u, e);
    EdgeInRange(g, u, e);
    assert Witness(g, s, d, wit[u], u);
    WitnessExtend(g, s, d, d', wit[u], u, e);
    OthersStillWitnessed(g, s, d, d', wit, v);
  }

  /** Lowering only the entry of `v` leaves every other finite entry justified by its old walk. */
  lemma OthersStillWitnessed(g: Graph, s: int, d: seq<int>, d': seq<int>, wit: seq<seq<Hop>>, v: int)
    requires Justified(g, s, d, wit) && |d'| == |d| && 0 <= v < |d| && d'[v] <= d[v]
    requires forall x :: 0 <= x < |d| && x != v ==> d'[x] == d[x]
    ensures forall x {:trigger Witness(g, s, d', wit[x], x)} :: 0 <= x < |d'| && x != v && d'[x] < MAX_VALUE ==> Witness(g, s, d', wit[x], x)
  {
    forall x | 0 <= x < |d'| && x != v && d'[x] < MAX_VALUE
      ensures Witness(g, s, d', wit[x], x)
    {
      WitnessAfterDecrease(g, s, d, d', wit[x], x);
    }
  }

  // ---------------------------------------------------------------------------
  // When nothing is left to relax
  // ---------------------------------------------------------------------------

  /** Following any edge out of `u` cannot improve on the distance recorded for its end. */
  ghost predicate Settled(g: Graph, d: seq<int>, u: int)
    requires WellFormed(g) && |d| == |g| && 0 <= u < |g|
  {
    d[u] < MAX_VALUE ==>
      forall j :: 0 <= j < |g[u]| ==> d[g[u][j].destination - 1] <= d[u] + g[u][j].weight
  }

  ghost predicate Closed(g: Graph, d: seq<int>)
    requires WellFormed(g) && |d| == |g|
  {
    forall u :: 0 <= u < |g| ==> Settled(g, d, u)
  }

  /** In a closed, justified array every walk ends at a finite distance no longer than the walk. */
  lemma {:induction false} ClosedBoundsWalks(g: Graph, s: int, d: seq<int>, wit: seq<seq<Hop>>, p: seq<Hop>)
    requires WellFormed(g) && NoOverflow(g) && Justified(g, s, d, wit) && Closed(g, d)
    requires IsWalk(g, s, p)
    ensures 0 <= End(s, p) < |d| && d[End(s, p)] < MAX_VALUE && d[End(s, p)] <= Len(p)
  {
    if p != [] {
      var q := p[..|p| - 1];
      var h := p[|p| - 1];
      ClosedBoundsWalks(g, s, d, wit, q);
      var u := End(s, q);
      var j :| 0 <= j < |g[u]| && g[u][j] == Edge(h.to + 1, h.weight);
      assert Settled(g, d, u);
      RelaxNoOverflow(g, s, d, wit, u, g[u][j]);
    }
  }

  /** Once every vertex is settled, a justified array holds exactly the shortest distances. */
  lemma ClosedIsShortest(g: Graph, s: int, d: seq<int>, wit: seq<seq<Hop>>)
    requires WellFormed(g) && NoOverflow(g) && Justified(g, s, d, wit) && Closed(g, d)
    ensures ShortestDistances(g, s, d)
  {
    forall v | 0 <= v < |d|
      ensures IsShortestDistance(g, s, v, d[v])
    {
      forall p | IsWalk(g, s, p) && End(s, p) == v
        ensures d[v] <= Len(p) && d[v] < MAX_VALUE
      {
        ClosedBoundsWalks(g, s, d, wit, p);
      }
      if d[v] < MAX_VALUE {
        assert Witness(g, s, d, wit[v], v);
      }
    }
  }
}
