/**
 * `GraphReader`: the second reader of the same line format. Unlike `DataReader` it
 * always parses the source field, shifts the source and every destination down by
 * one to 0-based, and stores the source in every edge. It builds those edges with
 * a three-argument `Edge` constructor that `Edge.java` does not declare; the
 * (source, destination, weight) triple it means is `SourcedEdge` here.
 */
module GraphReader {
  import opened Wrappers
  import opened JavaText
  import opened Parsing
  import DataReader

  /** What `new Edge(srcVertex, destVertex, edgeWt)` is meant to build. */
  datatype SourcedEdge = SourcedEdge(source: int, destination: int, weight: int)

  /** The edge one `d,w` block yields on a line whose (already shifted) source is `src`. */
  function PairEdge(src: int): string -> Parsed<SourcedEdge> {
    block => BlockEdge(src, block)
  }

  function BlockEdge(src: int, block: string): Parsed<SourcedEdge> {
    match BlockFields(block)
    case Failure(e) => Failure(e)
    case Success(dw) => Success(SourcedEdge(src, Sub32(dw.0, 1), dw.1))
  }

  /**
   * What `readLine` returns: `blocks[0]` is read and parsed first (out of bounds when
   * the line splits into no block at all), then one edge per later block, in order.
   * The `- 1` is Java `int` arithmetic and wraps at `Integer.MIN_VALUE`.
   */
  function LineEdges(line: string): Parsed<seq<SourcedEdge>> {
    var blocks := Split(line, '\t');
    if blocks == [] then Failure(IndexOutOfBounds)
    else
      match ParseInt(blocks[0])
      case None => Failure(NumberFormat)
      case Some(v) => MapAll(blocks[1..], PairEdge(Sub32(v, 1)))
  }

  /** `readLine`: the indexed loop over the blocks after the first, appending one edge per block. */
  method ReadLine(firstLine: string) returns (r: Parsed<seq<SourcedEdge>>)
    ensures r == LineEdges(firstLine)
  {
    var edges: seq<SourcedEdge> := [];
    var blocks := Split(firstLine, '\t');
    if |blocks| == 0 {
      return Failure(IndexOutOfBounds);
    }
    var first := ParseInt(blocks[0]);
    if first.None? {
      return Failure(NumberFormat);
    }
    var srcVertex := Sub32(first.value, 1);
    ghost var xs, f := blocks[1..], PairEdge(srcVertex);
    assert xs[0..] == xs;
    PrependNothing(MapAll(xs, f));
    for j := 1 to |blocks|
      invariant LineEdges(firstLine) == Prepend(edges, MapAll(xs[j - 1..], f))
    {
      assert xs[j - 1] == blocks[j];
      var ints := Split(blocks[j], ',');
      if |ints| == 0 {
        MapAllStop(xs, f, j - 1, edges);
        return Failure(IndexOutOfBounds);
      }
      var dest := ParseInt(ints[0]);
      if dest.None? {
        MapAllStop(xs, f, j - 1, edges);
        return Failure(NumberFormat);
      }
      var destVertex := Sub32(dest.value, 1);
      if |ints| == 1 {
        MapAllStop(xs, f, j - 1, edges);
        return Failure(IndexOutOfBounds);
      }
      var edgeWt := ParseInt(ints[1]);
      if edgeWt.None? {
        MapAllStop(xs, f, j - 1, edges);
        return Failure(NumberFormat);
      }
      var e := SourcedEdge(srcVertex, destVertex, edgeWt.value);
      MapAllStep(xs, f, j - 1, edges);
      edges := edges + [e];
    }
    MapAllEnd(xs, f, edges);
    return Success(edges);
  }

  /** `readData`: one list of edges per line, in order, until the input ends or a line is blank once trimmed. */
  method ReadData(lines: seq<string>) returns (r: Parsed<seq<seq<SourcedEdge>>>)
    ensures r == ReadAll(lines, LineEdges)
  {
    ghost var n := LinesRead(lines);
    ghost var read := lines[..n];
    var adjList: seq<seq<SourcedEdge>> := [];
    var i := 0;
    assert read[0..] == read;
    PrependNothing(MapAll(read, LineEdges));
    while i < |lines| && !IsBlank(lines[i])
      invariant 0 <= i <= n
      invariant ReadAll(lines, LineEdges) == Prepend(adjList, MapAll(read[i..], LineEdges))
    {
      assert read[i] == lines[i];
      var edges := ReadLine(lines[i]);
      if edges.Failure? {
        MapAllStop(read, LineEdges, i, adjList);
        return Failure(edges.error);
      }
      MapAllStep(read, LineEdges, i, adjList);
      adjList := adjList + [edges.value];
      i := i + 1;
    }
    MapAllEnd(read, LineEdges, adjList);
    return Success(adjList);
  }

  // ---------------------------------------------------------------------------
  // What readLine promises
  // ---------------------------------------------------------------------------

  /**
   * `readLine` succeeds exactly when the first block and both fields of every later
   * block are `int`s; it then returns one edge per later block, in order, all with
   * the first block less one as source, the block's destination less one, and its
   * weight unchanged.
   */
  lemma LineShape(line: string)
    ensures LineEdges(line).Success? <==>
      Split(line, '\t') != [] && ParseInt(Split(line, '\t')[0]).Some? &&
      forall k :: 1 <= k < |Split(line, '\t')| ==> BlockFields(Split(line, '\t')[k]).Success?
    ensures LineEdges(line).Success? ==>
      |LineEdges(line).value| == |Split(line, '\t')| - 1 &&
      forall k :: 0 <= k < |LineEdges(line).value| ==>
        LineEdges(line).value[k] ==
          SourcedEdge(Sub32(ParseInt(Split(line, '\t')[0]).value, 1),
                      Sub32(BlockFields(Split(line, '\t')[k + 1]).value.0, 1),
                      BlockFields(Split(line, '\t')[k + 1]).value.1)
  {
    var blocks := Split(line, '\t');
    if blocks != [] && ParseInt(blocks[0]).Some? {
      var xs, f := blocks[1..], PairEdge(Sub32(ParseInt(blocks[0]).value, 1));
      MapAllSuccess(xs, f);
      assert forall k :: 0 <= k < |xs| ==> xs[k] == blocks[k + 1];
      forall k | 1 <= k < |blocks|
        ensures f(xs[k - 1]).Success? <==> BlockFields(blocks[k]).Success?
      {
        assert xs[k - 1] == blocks[k];
      }
    }
  }

  /** All edges of one line carry the same source. */
  lemma OneSourcePerLine(line: string, i: int, j: int)
    requires LineEdges(line).Success?
    requires 0 <= i < |LineEdges(line).value| && 0 <= j < |LineEdges(line).value|
    ensures LineEdges(line).value[i].source == LineEdges(line).value[j].source
  {
    LineShape(line);
  }

  /** The source field is always parsed: a line whose first field is not an `int` throws even when it has no edges. */
  lemma SourceAlwaysParsed(line: string)
    requires Split(line, '\t') != [] && ParseInt(Split(line, '\t')[0]).None?
    ensures LineEdges(line) == Failure(NumberFormat)
  {
  }

  /** The 1-based (destination, weight) pairs a data file writes for a list of 0-based edges. */
  function FilePairs(edges: seq<SourcedEdge>): (pairs: seq<(int, int)>)
    ensures |pairs| == |edges|
    ensures forall k :: 0 <= k < |edges| ==> pairs[k] == (edges[k].destination + 1, edges[k].weight)
  {
    if edges == [] then [] else [(edges[0].destination + 1, edges[0].weight)] + FilePairs(edges[1..])
  }

  /** A 0-based vertex whose 1-based number is an `int`. */
  predicate VertexInt(v: int) {
    MIN_VALUE <= v && v + 1 <= MAX_VALUE
  }

  /** Every block written for an edge out of `src` parses back to that edge. */
  lemma LineBlocksParse(src: int, edges: seq<SourcedEdge>)
    requires forall k :: 0 <= k < |edges| ==>
      edges[k].source == src && VertexInt(edges[k].destination) && IsInt32(edges[k].weight)
    ensures |PairTexts(FilePairs(edges))| == |edges|
    ensures forall k :: 0 <= k < |edges| ==> PairEdge(src)(PairTexts(FilePairs(edges))[k]) == Success(edges[k])
  {
    var xs := PairTexts(FilePairs(edges));
    forall k | 0 <= k < |edges|
      ensures PairEdge(src)(xs[k]) == Success(edges[k])
    {
      assert xs[k] == PairText(edges[k].destination + 1, edges[k].weight);
      PairBlockParses(src, edges[k]);
    }
  }

  /** The block written for one edge parses back to it. */
  lemma PairBlockParses(src: int, e: SourcedEdge)
    requires e.source == src && VertexInt(e.destination) && IsInt32(e.weight)
    ensures PairEdge(src)(PairText(e.destination + 1, e.weight)) == Success(e)
  {
    BlockFieldsRoundTrip(e.destination + 1, e.weight);
    assert Sub32(e.destination + 1, 1) == e.destination;
  }

  /** `readLine` reads back, 0-based, every list of edges out of one vertex from the 1-based line that writes it. */
  lemma ReadLineRoundTrip(src: int, edges: seq<SourcedEdge>)
    requires VertexInt(src)
    requires forall k :: 0 <= k < |edges| ==>
      edges[k].source == src && VertexInt(edges[k].destination) && IsInt32(edges[k].weight)
    ensures LineEdges(LineText(src + 1, FilePairs(edges))) == Success(edges)
  {
    SplitLineText(src + 1, FilePairs(edges));
    ParseIntToString(src + 1);
    LineBlocksParse(src, edges);
    MapAllOf(PairTexts(FilePairs(edges)), PairEdge(src), edges);
  }

  // ---------------------------------------------------------------------------
  // The two readers side by side
  // ---------------------------------------------------------------------------

  /** On a line with an `int` first field the two readers accept the same blocks. */
  lemma SameBlocksAccepted(start: string, src: int, xs: seq<string>)
    requires ParseInt(start).Some?
    ensures forall k :: 0 <= k < |xs| ==>
      (DataReader.BlockEdge(start)(xs[k]).Success? <==> PairEdge(src)(xs[k]).Success?)
    ensures forall k :: 0 <= k < |xs| && PairEdge(src)(xs[k]).Success? ==>
      PairEdge(src)(xs[k]).value ==
        SourcedEdge(src, Sub32(DataReader.BlockEdge(start)(xs[k]).value.destination, 1),
                    DataReader.BlockEdge(start)(xs[k]).value.weight)
  {
  }

  /**
   * Whenever `readLine` succeeds, `buildList` succeeds on the same line, and the two
   * rows match edge for edge: `readLine`'s destination is `buildList`'s less one and
   * the weights agree.
   */
  lemma ReadersAgree(line: string)
    requires LineEdges(line).Success?
    ensures DataReader.RowOf(line).Success?
    ensures |DataReader.RowOf(line).value| == |LineEdges(line).value|
    ensures forall k :: 0 <= k < |LineEdges(line).value| ==>
      LineEdges(line).value[k].destination == Sub32(DataReader.RowOf(line).value[k].destination, 1) &&
      LineEdges(line).value[k].weight == DataReader.RowOf(line).value[k].weight
  {
    var blocks := Split(line, '\t');
    var xs := blocks[1..];
    var src := Sub32(ParseInt(blocks[0]).value, 1);
    SameBlocksAccepted(blocks[0], src, xs);
    MapAllSuccess(xs, DataReader.BlockEdge(blocks[0]));
    MapAllSuccess(xs, PairEdge(src));
  }

  /**
   * Conversely, `readLine` accepts every line with at least one edge that `buildList`
   * accepts; a line holding only a non-`int` vertex field is accepted by `buildList` alone.
   */
  lemma ReadersAgreeConverse(line: string)
    requires DataReader.RowOf(line).Success? && |DataReader.RowOf(line).value| > 0
    ensures LineEdges(line).Success?
  {
    var blocks := Split(line, '\t');
    DataReader.RowShape(line);
    DataReader.BlockArgsFields(blocks[0], blocks[1]);
    var xs := blocks[1..];
    var src := Sub32(ParseInt(blocks[0]).value, 1);
    SameBlocksAccepted(blocks[0], src, xs);
    MapAllSuccess(xs, DataReader.BlockEdge(blocks[0]));
    MapAllSuccess(xs, PairEdge(src));
  }
}
