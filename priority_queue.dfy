/**
 * `java.util.PriorityQueue<Edge>` as the engine uses it: entries are `Edge` pairs
 * read as (0-based vertex, key), the comparator is `a.getWeight() - b.getWeight()`,
 * and `poll` removes an entry of least key. Which of several least entries comes
 * out is left open, as the Java library leaves it unspecified.
 */
module PriorityQueues {
  import opened JavaText
  import opened Edges

  type Queue = multiset<Edge>

  /** `e` is in `q` and no entry of `q` has a smaller key. */
  predicate IsLeast(q: Queue, e: Edge) {
    e in q && forall f :: f in q ==> e.weight <= f.weight
  }

  /** Every non-empty queue has an entry of least key. */
  lemma {:induction false} LeastExists(q: Queue) returns (m: Edge)
    requires |q| > 0
    ensures IsLeast(q, m)
    decreases |q|
  {
    var x :| x in q;
    var rest := q - multiset{x};
    if |rest| == 0 {
      m := x;
      assert forall f :: f in q ==> f == x || f in rest;
    } else {
      var r := LeastExists(rest);
      m := if x.weight <= r.weight then x else r;
      forall f | f in q
        ensures m.weight <= f.weight
      {
        if f != x {
          assert f in rest;
        }
      }
    }
  }

  /** `poll` on a non-empty queue: some entry of least key, and the queue without that one entry. */
  method Poll(q: Queue) returns (head: Edge, rest: Queue)
    requires |q| > 0
    ensures head in q && rest == q - multiset{head}
    ensures forall f :: f in q ==> head.weight <= f.weight
    ensures |rest| == |q| - 1
  {
    ghost var m := LeastExists(q);
    head :| head in q && forall f :: f in q ==> head.weight <= f.weight;
    rest := q - multiset{head};
  }

  /**
   * The comparator `a.getWeight() - b.getWeight()` orders keys correctly while both
   * lie in `[0, MAX_VALUE]`: its `int` difference does not wrap there.
   */
  lemma ComparatorSound(a: Edge, b: Edge)
    requires 0 <= a.weight <= MAX_VALUE && 0 <= b.weight <= MAX_VALUE
    ensures Sub32(a.weight, b.weight) < 0 <==> a.weight < b.weight
    ensures Sub32(a.weight, b.weight) == 0 <==> a.weight == b.weight
  {
  }

  /**
   * Outside that range it can invert the order: an entry keyed anywhere from
   * `MIN_VALUE` to -2 compares above an entry keyed `MAX_VALUE`, though its key is
   * smaller. (Key -1 still compares below: `-1 - MAX_VALUE` is `MIN_VALUE`.)
   */
  lemma ComparatorWrapsOnNegativeKey(a: Edge, b: Edge)
    requires MIN_VALUE <= a.weight <= -2 && b.weight == MAX_VALUE
    ensures a.weight < b.weight && Sub32(a.weight, b.weight) > 0
  {
  }
}
