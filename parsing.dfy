/**
 * What the two readers have in common: applying a parser that may throw to a
 * sequence of fields or lines from left to right, where the first exception
 * ends the whole call, and the rule that reading stops at the end of input or
 * at the first line that is blank once trimmed.
 */
module Parsing {
  import opened Wrappers
  import opened JavaText

  type Parsed<R> = Result<R, Exception>

  /** The results of a loop that has already produced `done`, followed by what the rest of the loop produces. */
  function Prepend<R>(done: seq<R>, rest: Parsed<seq<R>>): Parsed<seq<R>> {
    match rest
    case Success(more) => Success(done + more)
    case Failure(e) => Failure(e)
  }

  /** `f` applied to every element of `xs` in order; the first exception is the result. */
  function MapAll<A, R>(xs: seq<A>, f: A -> Parsed<R>): Parsed<seq<R>> {
    if xs == [] then Success([])
    else
      match f(xs[0])
      case Failure(e) => Failure(e)
      case Success(r) => Prepend([r], MapAll(xs[1..], f))
  }

  /** Every element parses exactly when the whole sequence does, and then the results line up one for one. */
  lemma {:induction false} MapAllSuccess<A, R>(xs: seq<A>, f: A -> Parsed<R>)
    ensures MapAll(xs, f).Success? <==> forall k :: 0 <= k < |xs| ==> f(xs[k]).Success?
    ensures MapAll(xs, f).Success? ==>
      |MapAll(xs, f).value| == |xs| &&
      forall k :: 0 <= k < |xs| ==> MapAll(xs, f).value[k] == f(xs[k]).value
  {
    if xs != [] {
      MapAllSuccess(xs[1..], f);
      assert forall k :: 1 <= k < |xs| ==> xs[1..][k - 1] == xs[k];
      if f(xs[0]).Success? && MapAll(xs[1..], f).Success? {
        var rest := MapAll(xs[1..], f).value;
        assert MapAll(xs, f).value == [f(xs[0]).value] + rest;
      }
    }
  }

  /** When parsing fails, the exception is the one of the first element that does not parse. */
  lemma {:induction false} MapAllFailure<A, R>(xs: seq<A>, f: A -> Parsed<R>) returns (k: nat)
    requires MapAll(xs, f).Failure?
    ensures k < |xs| && f(xs[k]) == Failure(MapAll(xs, f).error)
    ensures forall i :: 0 <= i < k ==> f(xs[i]).Success?
  {
    if f(xs[0]).Failure? {
      k := 0;
    } else {
      var j := MapAllFailure(xs[1..], f);
      k := j + 1;
      assert forall i :: 1 <= i < k ==> xs[i] == xs[1..][i - 1];
    }
  }

  /** Results that every element yields are the result of the whole sequence. */
  lemma MapAllOf<A, R>(xs: seq<A>, f: A -> Parsed<R>, rs: seq<R>)
    requires |rs| == |xs| && forall k :: 0 <= k < |xs| ==> f(xs[k]) == Success(rs[k])
    ensures MapAll(xs, f) == Success(rs)
  {
    MapAllSuccess(xs, f);
    assert MapAll(xs, f).value == rs;
  }

  /** Two parsers that agree on every element give the same result. */
  lemma {:induction false} MapAllCongruent<A, R>(xs: seq<A>, f: A -> Parsed<R>, g: A -> Parsed<R>)
    requires forall k :: 0 <= k < |xs| ==> f(xs[k]) == g(xs[k])
    ensures MapAll(xs, f) == MapAll(xs, g)
  {
    if xs != [] {
      assert forall k :: 0 <= k < |xs| - 1 ==> xs[1..][k] == xs[k + 1];
      MapAllCongruent(xs[1..], f, g);
    }
  }

  /** Nothing produced yet: the result is what the loop produces. */
  lemma PrependNothing<R>(rest: Parsed<seq<R>>)
    ensures Prepend([], rest) == rest
  {
    if rest.Success? {
      assert [] + rest.value == rest.value;
    }
  }

  /**
   * One more element parsed by a loop that keeps `MapAll(xs, f)` equal to what it
   * has produced followed by the rest: the loop can move on to the next element.
   */
  lemma MapAllStep<A, R>(xs: seq<A>, f: A -> Parsed<R>, i: int, done: seq<R>)
    requires 0 <= i < |xs| && f(xs[i]).Success?
    requires MapAll(xs, f) == Prepend(done, MapAll(xs[i..], f))
    ensures MapAll(xs, f) == Prepend(done + [f(xs[i]).value], MapAll(xs[i + 1..], f))
  {
    assert xs[i..][1..] == xs[i + 1..];
    match MapAll(xs[i + 1..], f)
    case Success(more) =>
      assert done + ([f(xs[i]).value] + more) == (done + [f(xs[i]).value]) + more;
    case Failure(_) =>
  }

  /** An element that throws ends the loop with its exception. */
  lemma MapAllStop<A, R>(xs: seq<A>, f: A -> Parsed<R>, i: int, done: seq<R>)
    requires 0 <= i < |xs| && f(xs[i]).Failure?
    requires MapAll(xs, f) == Prepend(done, MapAll(xs[i..], f))
    ensures MapAll(xs, f) == Failure(f(xs[i]).error)
  {
  }

  /** The loop has reached the end: what it produced is the result. */
  lemma MapAllEnd<A, R>(xs: seq<A>, f: A -> Parsed<R>, done: seq<R>)
    requires MapAll(xs, f) == Prepend(done, MapAll(xs[|xs|..], f))
    ensures MapAll(xs, f) == Success(done)
  {
    assert done + [] == done;
  }

  // ---------------------------------------------------------------------------
  // Reading lines
  // ---------------------------------------------------------------------------

  /** How many lines `readData` reads: those before the first blank line, or all of them. */
  function LinesRead(lines: seq<string>): (n: nat)
    ensures n <= |lines|
    ensures forall k :: 0 <= k < n ==> !IsBlank(lines[k])
    ensures n == |lines| || IsBlank(lines[n])
  {
    if lines == [] || IsBlank(lines[0]) then 0
    else
      var n := LinesRead(lines[1..]);
      assert forall k :: 1 <= k <= n ==> lines[k] == lines[1..][k - 1];
      n + 1
  }

  /** `readData`: one parsed row per line read, in order; the first exception ends reading. */
  function ReadAll<R>(lines: seq<string>, parse: string -> Parsed<R>): Parsed<seq<R>> {
    MapAll(lines[..LinesRead(lines)], parse)
  }

  /** `LinesRead` stops at the first blank line, whatever follows it. */
  lemma {:induction false} LinesReadPrefix(lines: seq<string>, more: seq<string>)
    requires LinesRead(lines) < |lines|
    ensures LinesRead(lines + more) == LinesRead(lines)
  {
    if !IsBlank(lines[0]) {
      assert (lines + more)[1..] == lines[1..] + more;
      LinesReadPrefix(lines[1..], more);
    }
  }

  /** Lines after a blank line are never read: appending to the input changes nothing. */
  lemma ReadAllIgnoresRest<R>(lines: seq<string>, more: seq<string>, parse: string -> Parsed<R>)
    requires exists k :: 0 <= k < |lines| && IsBlank(lines[k])
    ensures ReadAll(lines + more, parse) == ReadAll(lines, parse)
  {
    var k :| 0 <= k < |lines| && IsBlank(lines[k]);
    assert LinesRead(lines) <= k;
    LinesReadPrefix(lines, more);
    assert (lines + more)[..LinesRead(lines)] == lines[..LinesRead(lines)];
  }

  /**
   * What `readData` returns: when no line throws, one row per line before the first
   * blank line, row `k` parsed from line `k`; otherwise the exception of the first
   * line read that throws.
   */
  lemma ReadAllRows<R>(lines: seq<string>, parse: string -> Parsed<R>)
    ensures ReadAll(lines, parse).Success? <==> forall k :: 0 <= k < LinesRead(lines) ==> parse(lines[k]).Success?
    ensures ReadAll(lines, parse).Success? ==>
      |ReadAll(lines, parse).value| == LinesRead(lines) &&
      forall k :: 0 <= k < LinesRead(lines) ==> ReadAll(lines, parse).value[k] == parse(lines[k]).value
  {
    var n := LinesRead(lines);
    MapAllSuccess(lines[..n], parse);
    assert forall k :: 0 <= k < n ==> lines[..n][k] == lines[k];
  }

  // ---------------------------------------------------------------------------
  // The line format
  // ---------------------------------------------------------------------------

  /** The block `d,w` for a destination `d` and a weight `w`. */
  function PairText(d: int, w: int): string {
    IntToString(d) + "," + IntToString(w)
  }

  function PairTexts(pairs: seq<(int, int)>): (r: seq<string>)
    ensures |r| == |pairs|
    ensures forall k :: 0 <= k < |pairs| ==> r[k] == PairText(pairs[k].0, pairs[k].1)
  {
    if pairs == [] then [] else [PairText(pairs[0].0, pairs[0].1)] + PairTexts(pairs[1..])
  }

  /**
   * The two `int`s of a `d,w` block, read as both readers do: the block is split on
   * commas, then the first field is read and parsed, then the second. A field that
   * is not an `int` raises `NumberFormatException`, a missing one
   * `ArrayIndexOutOfBoundsException`; fields after the second are ignored.
   */
  function BlockFields(block: string): Parsed<(int, int)> {
    var commas := Split(block, ',');
    if |commas| == 0 then Failure(IndexOutOfBounds)
    else
      match ParseInt(commas[0])
      case None => Failure(NumberFormat)
      case Some(d) =>
        if |commas| == 1 then Failure(IndexOutOfBounds)
        else
          match ParseInt(commas[1])
          case None => Failure(NumberFormat)
          case Some(w) => Success((d, w))
  }

  /** A block that is one `int` and no comma: its destination parses, then the weight field is out of bounds. */
  lemma MissingWeight(block: string)
    requires ParseInt(block).Some? && ',' !in block
    ensures BlockFields(block) == Failure(IndexOutOfBounds)
  {
    PiecesWithoutSep(block, ',');
    assert Split(block, ',') == [block];
  }

  /** A block parses to `(d, w)` exactly when its first two comma-separated fields are the `int`s `d` and `w`. */
  lemma BlockFieldsValues(block: string)
    ensures BlockFields(block).Success? <==>
      |Split(block, ',')| >= 2 && ParseInt(Split(block, ',')[0]).Some? && ParseInt(Split(block, ',')[1]).Some?
    ensures BlockFields(block).Success? ==>
      BlockFields(block).value == (ParseInt(Split(block, ',')[0]).value, ParseInt(Split(block, ',')[1]).value)
  {
  }

  /** A block written from two `int`s parses back to them. */
  lemma BlockFieldsRoundTrip(d: int, w: int)
    requires IsInt32(d) && IsInt32(w)
    ensures BlockFields(PairText(d, w)) == Success((d, w))
  {
    SplitPairText(d, w);
    ParseIntToString(d);
    ParseIntToString(w);
  }

  /** The line `start<TAB>d,w<TAB>d,w...` a data file holds for a vertex and its edges. */
  function LineText(start: int, pairs: seq<(int, int)>): string {
    Join([IntToString(start)] + PairTexts(pairs), '\t')
  }

  lemma NumberText(x: int)
    ensures |IntToString(x)| > 0 && '\t' !in IntToString(x) && ',' !in IntToString(x)
  {
    assert ParseDecimal(IntToString(x)).Some?;
  }

  /** A block splits on its comma into the destination text and the weight text. */
  lemma SplitPairText(d: int, w: int)
    ensures Split(PairText(d, w), ',') == [IntToString(d), IntToString(w)]
    ensures '\t' !in PairText(d, w)
  {
    NumberText(d);
    NumberText(w);
    var parts := [IntToString(d), IntToString(w)];
    assert Join(parts[1..], ',') == IntToString(w);
    assert Join(parts, ',') == PairText(d, w);
    SplitJoin(parts, ',');
  }

  /** A line splits on its tabs into the start field and one block per pair. */
  lemma SplitLineText(start: int, pairs: seq<(int, int)>)
    ensures Split(LineText(start, pairs), '\t') == [IntToString(start)] + PairTexts(pairs)
  {
    var parts := [IntToString(start)] + PairTexts(pairs);
    NumberText(start);
    forall k | 0 <= k < |parts|
      ensures '\t' !in parts[k] && |parts[k]| > 0
    {
      if k > 0 {
        var p := pairs[k - 1];
        SplitPairText(p.0, p.1);
        NumberText(p.0);
      }
    }
    SplitJoin(parts, '\t');
  }
}
