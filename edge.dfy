/**
 * `Edge`: an immutable pair of a destination and a weight. In an adjacency row the
 * destination is a 1-based vertex number; the priority queues of the engine reuse
 * the same pair as (0-based vertex, key).
 */
module Edges {
  import opened JavaText

  datatype Edge = Edge(destination: int, weight: int) {

    function GetDestination(): int {
      destination
    }

    function GetWeight(): int {
      weight
    }

    /** `toString`: the destination line followed by the weight line. */
    function ToString(): string {
      "destination: " + IntToString(destination) + "\n" + "weight: " + IntToString(weight) + "\n"
    }
  }

  /** The getters give back exactly what the edge was built from; nothing can change it afterwards. */
  lemma GettersReturnArguments(destination: int, weight: int)
    ensures Edge(destination, weight).GetDestination() == destination
    ensures Edge(destination, weight).GetWeight() == weight
  {
  }

  lemma NewlineAfter(a: string, r: string)
    ensures (a + "\n" + r)[|a|] == '\n'
  {
  }

  /** Two strings that agree up to their first newline, and neither has one before it, agree on what follows. */
  lemma {:induction false} CutAtNewline(a1: string, r1: string, a2: string, r2: string)
    requires '\n' !in a1 && '\n' !in a2
    requires a1 + "\n" + r1 == a2 + "\n" + r2
    ensures a1 == a2 && r1 == r2
  {
    var s := a1 + "\n" + r1;
    if |a1| < |a2| {
      NewlineAfter(a1, r1);
      assert false;
    } else if |a2| < |a1| {
      NewlineAfter(a2, r2);
      assert false;
    }
    assert a1 == s[..|a1|] == a2;
    assert r1 == s[|a1| + 1..] == r2;
  }

  lemma NoNewlineInNumber(x: int)
    ensures '\n' !in IntToString(x)
  {
  }

  lemma CancelPrefix(p: string, x: string, y: string)
    requires p + x == p + y
    ensures x == y
  {
    assert x == (p + x)[|p|..];
  }

  lemma CancelSuffix(x: string, y: string, q: string)
    requires x + q == y + q
    ensures x == y
  {
    assert x == (x + q)[..|x|];
  }

  lemma Reassociate(d: string, w: string)
    ensures "destination: " + d + "\n" + "weight: " + w + "\n" == "destination: " + (d + "\n" + ("weight: " + w + "\n"))
  {
  }

  /** `toString` loses nothing: distinct edges print differently, so destination and weight can be read back. */
  lemma ToStringInjective(a: Edge, b: Edge)
    requires a.ToString() == b.ToString()
    ensures a == b
  {
    var da, db := IntToString(a.destination), IntToString(b.destination);
    var wa, wb := IntToString(a.weight), IntToString(b.weight);
    NoNewlineInNumber(a.destination);
    NoNewlineInNumber(b.destination);
    var ra, rb := "weight: " + wa + "\n", "weight: " + wb + "\n";
    Reassociate(da, wa);
    Reassociate(db, wb);
    CancelPrefix("destination: ", da + "\n" + ra, db + "\n" + rb);
    CutAtNewline(da, ra, db, rb);
    assert ra == "weight: " + (wa + "\n") && rb == "weight: " + (wb + "\n");
    CancelPrefix("weight: ", wa + "\n", wb + "\n");
    CancelSuffix(wa, wb, "\n");
    IntToStringInjective(a.destination, b.destination);
    IntToStringInjective(a.weight, b.weight);
  }
}
