/**
 * `DataReader`: turns the lines of a data file into the engine's adjacency list.
 * A line is `start<TAB>d,w<TAB>d,w...`; each `d,w` block becomes `Edge(d, w)`
 * with `d` left 1-based, and the start field is parsed but never stored, so a
 * row's vertex is its position in the list. The file itself is a sequence of
 * lines here; `BufferedReader` and the `IOException` path are not modelled.
 */
module DataReader {
  import opened Wrappers
  import opened JavaText
  import opened Edges
  import opened Parsing

  type Row = seq<Edge>

  /** `addEdge`: the list with `Edge(destination, weight)` appended; `start` is only printed, never stored. */
  function AddEdge(a: Row, start: int, destination: int, weight: int): (r: Row)
    ensures |r| == |a| + 1 && r[..|a|] == a
    ensures r[|a|].GetDestination() == destination && r[|a|].GetWeight() == weight
  {
    a + [Edge(destination, weight)]
  }

  /**
   * The three arguments of the `addEdge` call for one `d,w` block of a line whose
   * first block is `start`, in Java's order of evaluation: `start` is parsed before
   * the block's two fields.
   */
  function BlockArgs(start: string, block: string): Parsed<(int, int, int)> {
    match ParseInt(start)
    case None => Failure(NumberFormat)
    case Some(s) =>
      match BlockFields(block)
      case Failure(e) => Failure(e)
      case Success(dw) => Success((s, dw.0, dw.1))
  }

  /** The edge one block of a line whose first block is `start` yields. */
  function BlockEdge(start: string): string -> Parsed<Edge> {
    block =>
      match BlockArgs(start, block)
      case Failure(e) => Failure(e)
      case Success(args) => Success(Edge(args.1, args.2))
  }

  /** What `buildList` returns for a line: one edge per block after the first, in order. */
  function RowOf(line: string): Parsed<Row> {
    var blocks := Split(line, '\t');
    if blocks == [] then Success([]) else MapAll(blocks[1..], BlockEdge(blocks[0]))
  }

  /**
   * `buildList`: the loop over the tab-separated blocks of `firstLine`, skipping the
   * first, which adds one edge per block through `addEdge` and stops at the first
   * exception.
   */
  method BuildList(firstLine: string) returns (r: Parsed<Row>)
    ensures r == RowOf(firstLine)
  {
    var mylist: Row := [];
    var blocks := Split(firstLine, '\t');
    ghost var xs := if blocks == [] then [] else blocks[1..];
    ghost var f := BlockEdge(if blocks == [] then "" else blocks[0]);
    ghost var spec := RowOf(firstLine);
    assert blocks != [] ==> spec == MapAll(xs, f);
    for i := 0 to |blocks|
      invariant i == 0 ==> mylist == []
      invariant 1 <= i ==> spec == Prepend(mylist, MapAll(xs[i - 1..], f))
    {
      var start := blocks[0];
      if i != 0 {
        var args := BlockArgs(start, blocks[i]);
        assert xs[i - 1] == blocks[i];
        if args.Failure? {
          MapAllStop(xs, f, i - 1, mylist);
          return Failure(args.error);
        }
        MapAllStep(xs, f, i - 1, mylist);
        mylist := AddEdge(mylist, args.value.0, args.value.1, args.value.2);
      } else {
        assert xs[0..] == xs;
        PrependNothing(MapAll(xs, f));
      }
    }
    if blocks != [] {
      MapAllEnd(xs, f, mylist);
    }
    return Success(mylist);
  }

  /**
   * `readData`: one row per line, in order, until the input ends or a line is blank
   * once trimmed; an exception from `buildList` escapes, as only `IOException` is caught.
   */
  method ReadData(lines: seq<string>) returns (r: Parsed<seq<Row>>)
    ensures r == ReadAll(lines, RowOf)
  {
    ghost var n := LinesRead(lines);
    ghost var read := lines[..n];
    var myArray: seq<Row> := [];
    var i := 0;
    assert read[0..] == read;
    PrependNothing(MapAll(read, RowOf));
    while i < |lines| && !IsBlank(lines[i])
      invariant 0 <= i <= n
      invariant ReadAll(lines, RowOf) == Prepend(myArray, MapAll(read[i..], RowOf))
    {
      assert read[i] == lines[i];
      var linkedlist := BuildList(lines[i]);
      if linkedlist.Failure? {
        MapAllStop(read, RowOf, i, myArray);
        return Failure(linkedlist.error);
      }
      MapAllStep(read, RowOf, i, myArray);
      myArray := myArray + [linkedlist.value];
      i := i + 1;
    }
    MapAllEnd(read, RowOf, myArray);
    return Success(myArray);
  }

  // ---------------------------------------------------------------------------
  // What buildList promises
  // ---------------------------------------------------------------------------

  /** A block that produces arguments had a destination and a weight field, both parsed as `int`s, and so did `start`. */
  lemma BlockArgsFields(start: string, block: string)
    requires BlockArgs(start, block).Success?
    ensures ParseInt(start).Some? && |Split(block, ',')| >= 2
    ensures BlockArgs(start, block).value ==
      (ParseInt(start).value, ParseInt(Split(block, ',')[0]).value, ParseInt(Split(block, ',')[1]).value)
  {
    BlockFieldsValues(block);
  }

  /**
   * `buildList` succeeds exactly when every block after the first is `d,w` with two
   * `int` fields (and then the first block is an `int` too, or there is no such
   * block); the row then has one edge per such block, in block order, holding the
   * parsed destination, still 1-based, and the parsed weight.
   */
  lemma RowShape(line: string)
    ensures RowOf(line).Success? <==>
      forall k :: 1 <= k < |Split(line, '\t')| ==> BlockArgs(Split(line, '\t')[0], Split(line, '\t')[k]).Success?
    ensures RowOf(line).Success? ==>
      |RowOf(line).value| == (if Split(line, '\t') == [] then 0 else |Split(line, '\t')| - 1)
    ensures RowOf(line).Success? ==>
      forall k :: 0 <= k < |RowOf(line).value| ==>
        |Split(Split(line, '\t')[k + 1], ',')| >= 2 &&
        RowOf(line).value[k] == Edge(ParseInt(Split(Split(line, '\t')[k + 1], ',')[0]).value,
                                     ParseInt(Split(Split(line, '\t')[k + 1], ',')[1]).value)
  {
    var blocks := Split(line, '\t');
    if blocks != [] {
      var xs := blocks[1..];
      BlocksShape(blocks[0], xs);
      forall k | 1 <= k < |blocks|
        ensures xs[k - 1] == blocks[k]
      {
      }
    }
  }

  /** `RowShape` for the blocks after the first, indexed from 0. */
  lemma BlocksShape(start: string, xs: seq<string>)
    ensures MapAll(xs, BlockEdge(start)).Success? <==> forall k :: 0 <= k < |xs| ==> BlockArgs(start, xs[k]).Success?
    ensures MapAll(xs, BlockEdge(start)).Success? ==>
      |MapAll(xs, BlockEdge(start)).value| == |xs| &&
      forall k :: 0 <= k < |xs| ==>
        |Split(xs[k], ',')| >= 2 &&
        MapAll(xs, BlockEdge(start)).value[k] == Edge(ParseInt(Split(xs[k], ',')[0]).value, ParseInt(Split(xs[k], ',')[1]).value)
  {
    var f := BlockEdge(start);
    MapAllSuccess(xs, f);
    if MapAll(xs, f).Success? {
      forall k | 0 <= k < |xs|
        ensures |Split(xs[k], ',')| >= 2
        ensures MapAll(xs, f).value[k] == Edge(ParseInt(Split(xs[k], ',')[0]).value, ParseInt(Split(xs[k], ',')[1]).value)
      {
        BlockArgsFields(start, xs[k]);
      }
    }
  }

  /** When `buildList` throws, the exception is that of the first block that does not parse. */
  lemma RowFailure(line: string) returns (k: nat)
    requires RowOf(line).Failure?
    ensures 1 <= k < |Split(line, '\t')|
    ensures BlockArgs(Split(line, '\t')[0], Split(line, '\t')[k]) == Failure(RowOf(line).error)
    ensures forall i :: 1 <= i < k ==> BlockArgs(Split(line, '\t')[0], Split(line, '\t')[i]).Success?
  {
    var blocks := Split(line, '\t');
    var xs, f := blocks[1..], BlockEdge(blocks[0]);
    var j := MapAllFailure(xs, f);
    k := j + 1;
    assert xs[j] == blocks[k];
    forall i | 1 <= i < k
      ensures BlockArgs(blocks[0], blocks[i]).Success?
    {
      assert xs[i - 1] == blocks[i] && f(xs[i - 1]).Success?;
    }
  }

  /** A line holding only the vertex field gives an empty row without parsing that field, whatever it holds. */
  lemma LoneVertexField(line: string)
    requires '\t' !in line
    ensures RowOf(line) == Success([])
  {
    if line != [] {
      PiecesWithoutSep(line, '\t');
      assert Split(line, '\t') == [line];
    }
  }

  /** A line with at least one block after a vertex field that is not an `int` throws `NumberFormatException`. */
  lemma BadVertexField(line: string)
    requires |Split(line, '\t')| >= 2 && ParseInt(Split(line, '\t')[0]).None?
    ensures RowOf(line) == Failure(NumberFormat)
  {
  }

  /** The (destination, weight) pairs of a row, as a data file writes them. */
  function RowPairs(row: Row): (pairs: seq<(int, int)>)
    ensures |pairs| == |row|
    ensures forall k :: 0 <= k < |row| ==> pairs[k] == (row[k].destination, row[k].weight)
  {
    if row == [] then [] else [(row[0].destination, row[0].weight)] + RowPairs(row[1..])
  }

  /** Of the vertex field, a block's edge depends only on whether it is an `int`. */
  lemma StartOnlyChecked(sa: string, sb: string, block: string)
    requires ParseInt(sa).Some? && ParseInt(sb).Some?
    ensures BlockEdge(sa)(block) == BlockEdge(sb)(block)
  {
  }

  /** Lines that differ only in an `int` vertex field give every block the same edge. */
  lemma SameBlockEdges(sa: string, sb: string, xs: seq<string>)
    requires ParseInt(sa).Some? && ParseInt(sb).Some?
    ensures forall k :: 0 <= k < |xs| ==> BlockEdge(sa)(xs[k]) == BlockEdge(sb)(xs[k])
  {
    forall k | 0 <= k < |xs|
      ensures BlockEdge(sa)(xs[k]) == BlockEdge(sb)(xs[k])
    {
      StartOnlyChecked(sa, sb, xs[k]);
    }
  }

  /**
   * The vertex field plays no part in the row: lines that differ only in their
   * `int` vertex field, written in decimal, give the same row.
   */
  lemma StartNotStored(a: int, b: int, pairs: seq<(int, int)>)
    requires IsInt32(a) && IsInt32(b)
    ensures RowOf(LineText(a, pairs)) == RowOf(LineText(b, pairs))
  {
    SplitLineText(a, pairs);
    SplitLineText(b, pairs);
    ParseIntToString(a);
    ParseIntToString(b);
    var xs := PairTexts(pairs);
    SameBlockEdges(IntToString(a), IntToString(b), xs);
    MapAllCongruent(xs, BlockEdge(IntToString(a)), BlockEdge(IntToString(b)));
  }

  /** A block written from two `int`s parses back to them. */
  lemma PairBlockParses(start: int, d: int, w: int)
    requires IsInt32(start) && IsInt32(d) && IsInt32(w)
    ensures BlockEdge(IntToString(start))(PairText(d, w)) == Success(Edge(d, w))
  {
    BlockFieldsRoundTrip(d, w);
    ParseIntToString(start);
  }

  /** Every block written from a row of `int`s parses back to its edge. */
  lemma RowBlocksParse(start: int, row: Row)
    requires IsInt32(start)
    requires forall k :: 0 <= k < |row| ==> IsInt32(row[k].destination) && IsInt32(row[k].weight)
    ensures |PairTexts(RowPairs(row))| == |row|
    ensures forall k :: 0 <= k < |row| ==> BlockEdge(IntToString(start))(PairTexts(RowPairs(row))[k]) == Success(row[k])
  {
    var xs := PairTexts(RowPairs(row));
    forall k | 0 <= k < |row|
      ensures BlockEdge(IntToString(start))(xs[k]) == Success(row[k])
    {
      PairBlockParses(start, row[k].destination, row[k].weight);
    }
  }

  /** `buildList` reads back every row of `int`s from the line that writes it, whatever the vertex field. */
  lemma BuildListRoundTrip(start: int, row: Row)
    requires IsInt32(start)
    requires forall k :: 0 <= k < |row| ==> IsInt32(row[k].destination) && IsInt32(row[k].weight)
    ensures RowOf(LineText(start, RowPairs(row))) == Success(row)
  {
    SplitLineText(start, RowPairs(row));
    RowBlocksParse(start, row);
    MapAllOf(PairTexts(RowPairs(row)), BlockEdge(IntToString(start)), row);
  }
}
