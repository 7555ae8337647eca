/**
 * The pieces of Java's `int`, `Integer` and `String` that the readers and the
 * shortest-path engine depend on: 32-bit wrap-around of `int` arithmetic,
 * `Integer.parseInt`, `Integer.toString`, `String.split` on a one-character
 * separator, and `String.trim`.
 */
module JavaText {
  import opened Wrappers

  /** `Integer.MAX_VALUE`, which the engine also uses as "infinity". */
  const MAX_VALUE: int := 0x7fff_ffff
  /** `Integer.MIN_VALUE`. */
  const MIN_VALUE: int := -0x8000_0000

  /** The unchecked exceptions the readers can raise. */
  datatype Exception = NumberFormat | IndexOutOfBounds

  predicate IsInt32(x: int) {
    MIN_VALUE <= x <= MAX_VALUE
  }

  /** The value a Java `int` holds after an arithmetic operation whose exact result is `x`. */
  function Wrap32(x: int): (r: int)
    ensures IsInt32(r)
    ensures IsInt32(x) ==> r == x
    ensures x > MAX_VALUE && x - 0x1_0000_0000 <= MAX_VALUE ==> r == x - 0x1_0000_0000
    ensures x < MIN_VALUE && MIN_VALUE <= x + 0x1_0000_0000 ==> r == x + 0x1_0000_0000
    ensures (r - x) % 0x1_0000_0000 == 0
  {
    (x - MIN_VALUE) % 0x1_0000_0000 + MIN_VALUE
  }

  /** Java's `a + b` on two `int` values. */
  function Add32(a: int, b: int): int {
    Wrap32(a + b)
  }

  /** Java's `a - b` on two `int` values. */
  function Sub32(a: int, b: int): int {
    Wrap32(a - b)
  }

  // ---------------------------------------------------------------------------
  // Integer.parseInt and Integer.toString
  // ---------------------------------------------------------------------------

  predicate IsDigit(c: char) {
    '0' <= c <= '9'
  }

  predicate AllDigits(s: string) {
    forall i :: 0 <= i < |s| ==> IsDigit(s[i])
  }

  /** The value of a string of decimal digits, most significant digit first. */
  function DigitsValue(s: string): nat
    requires AllDigits(s)
  {
    if s == [] then 0 else DigitsValue(s[..|s| - 1]) * 10 + (s[|s| - 1] as int - '0' as int)
  }

  /** What `Integer.parseInt(s)` reads before its range check: an optional sign and at least one digit. */
  function ParseDecimal(s: string): Option<int> {
    if |s| > 0 && (s[0] == '-' || s[0] == '+') then
      if |s| > 1 && AllDigits(s[1..]) then
        Some(if s[0] == '-' then -(DigitsValue(s[1..]) as int) else DigitsValue(s[1..]))
      else None
    else if |s| > 0 && AllDigits(s) then Some(DigitsValue(s))
    else None
  }

  /** `Integer.parseInt(s)`; `None` stands for the `NumberFormatException` it throws. */
  function ParseInt(s: string): (r: Option<int>)
    ensures r.Some? ==> IsInt32(r.value)
    ensures r.Some? ==> ParseDecimal(s) == r
    ensures r.None? ==> ParseDecimal(s).None? || !IsInt32(ParseDecimal(s).value)
  {
    var v := ParseDecimal(s);
    if v.Some? && IsInt32(v.value) then v else None
  }

  function DigitChar(d: nat): (c: char)
    requires d < 10
    ensures IsDigit(c) && c as int - '0' as int == d
  {
    ('0' as int + d) as char
  }

  /** The decimal digits of `n`, most significant first, without leading zeros. */
  function NatToDigits(n: nat): (r: string)
    ensures |r| > 0 && AllDigits(r)
    ensures DigitsValue(r) == n
  {
    if n < 10 then [DigitChar(n)]
    else
      var prefix := NatToDigits(n / 10);
      var r := prefix + [DigitChar(n % 10)];
      assert r[..|r| - 1] == prefix;
      r
  }

  /** `Integer.toString(x)`, which is also what string concatenation writes for an `int`. */
  function IntToString(x: int): (r: string)
    ensures ParseDecimal(r) == Some(x)
    ensures forall i :: 0 <= i < |r| ==> IsDigit(r[i]) || r[i] == '-'
  {
    if x < 0 then
      var r := "-" + NatToDigits(-x);
      assert r[1..] == NatToDigits(-x);
      r
    else NatToDigits(x)
  }

  /** `Integer.parseInt` reads back exactly the `int` that `Integer.toString` wrote, and refuses every other integer. */
  lemma ParseIntToString(x: int)
    ensures ParseInt(IntToString(x)) == if IsInt32(x) then Some(x) else None
  {
  }

  /** Two integers with the same decimal text are equal. */
  lemma IntToStringInjective(x: int, y: int)
    requires IntToString(x) == IntToString(y)
    ensures x == y
  {
    assert ParseDecimal(IntToString(x)) == Some(x);
  }

  // ---------------------------------------------------------------------------
  // String.split and String.trim
  // ---------------------------------------------------------------------------

  /** The pieces of `s` between occurrences of `sep`, in order, empty pieces included. */
  function Pieces(s: string, sep: char): (r: seq<string>)
    ensures |r| >= 1
    ensures forall k :: 0 <= k < |r| ==> sep !in r[k]
  {
    if s == [] then [""]
    else
      var rest := Pieces(s[1..], sep);
      if s[0] == sep then [""] + rest else [[s[0]] + rest[0]] + rest[1..]
  }

  /** `r` without its trailing empty strings. */
  function DropTrailingEmpty(r: seq<string>): (t: seq<string>)
    ensures t <= r
    ensures t == [] || t[|t| - 1] != ""
    ensures forall k :: |t| <= k < |r| ==> r[k] == ""
  {
    if r == [] || r[|r| - 1] != "" then r else DropTrailingEmpty(r[..|r| - 1])
  }

  /**
   * `s.split(sep)` for a one-character separator that is not a regular-expression
   * metacharacter (tab and comma here): a string without the separator comes back
   * whole, otherwise the pieces between separators without the trailing empty ones.
   */
  function Split(s: string, sep: char): (r: seq<string>)
    ensures forall k :: 0 <= k < |r| ==> sep !in r[k]
    ensures r == [] || r[|r| - 1] != "" || s == ""
    ensures s == "" ==> r == [""]
    ensures |r| <= |Pieces(s, sep)| && Join(r + Empties(|Pieces(s, sep)| - |r|), sep) == s
  {
    JoinPieces(s, sep);
    if s == [] then
      assert [""] + Empties(0) == Pieces(s, sep);
      [""]
    else
      var r := DropTrailingEmpty(Pieces(s, sep));
      assert r + Empties(|Pieces(s, sep)| - |r|) == Pieces(s, sep);
      r
  }

  /** `n` empty strings. */
  function Empties(n: nat): (r: seq<string>)
    ensures |r| == n && forall k :: 0 <= k < n ==> r[k] == ""
  {
    seq(n, _ => "")
  }

  /** The pieces joined with `sep` between them; `Split` undoes it. */
  function Join(parts: seq<string>, sep: char): string
    requires |parts| >= 1
  {
    if |parts| == 1 then parts[0] else parts[0] + [sep] + Join(parts[1..], sep)
  }

  lemma {:induction false} PiecesWithoutSep(s: string, sep: char)
    requires sep !in s
    ensures Pieces(s, sep) == [s]
  {
    if s != [] {
      PiecesWithoutSep(s[1..], sep);
      assert [s[0]] + s[1..] == s;
    }
  }

  lemma {:induction false} PiecesAfterSep(a: string, sep: char, t: string)
    requires sep !in a
    ensures Pieces(a + [sep] + t, sep) == [a] + Pieces(t, sep)
  {
    if a == [] {
      assert a + [sep] + t == [sep] + t;
      assert ([sep] + t)[1..] == t;
    } else {
      assert (a + [sep] + t)[1..] == a[1..] + [sep] + t;
      PiecesAfterSep(a[1..], sep, t);
      assert [a[0]] + a[1..] == a;
    }
  }

  lemma {:induction false} PiecesJoin(parts: seq<string>, sep: char)
    requires |parts| >= 1
    requires forall k :: 0 <= k < |parts| ==> sep !in parts[k]
    ensures Pieces(Join(parts, sep), sep) == parts
  {
    if |parts| == 1 {
      PiecesWithoutSep(parts[0], sep);
    } else {
      PiecesJoin(parts[1..], sep);
      PiecesAfterSep(parts[0], sep, Join(parts[1..], sep));
      assert [parts[0]] + parts[1..] == parts;
    }
  }

  /** Joining the pieces of `s` with the separator gives back `s`. */
  lemma {:induction false} JoinPieces(s: string, sep: char)
    ensures Join(Pieces(s, sep), sep) == s
  {
    if s != [] {
      var rest := Pieces(s[1..], sep);
      JoinPieces(s[1..], sep);
      if s[0] == sep {
        assert ([""] + rest)[1..] == rest;
        assert [sep] + s[1..] == s;
      } else {
        JoinCons(s[0], rest, sep);
        assert [s[0]] + s[1..] == s;
      }
    }
  }

  /** Putting a character in front of the first piece puts it in front of the joined string. */
  lemma JoinCons(c: char, p: seq<string>, sep: char)
    requires |p| >= 1
    ensures Join([[c] + p[0]] + p[1..], sep) == [c] + Join(p, sep)
  {
    var q := [[c] + p[0]] + p[1..];
    assert q[1..] == p[1..];
  }

  /** `split` gives back the pieces `Join` put together, as long as the last piece is not empty. */
  lemma SplitJoin(parts: seq<string>, sep: char)
    requires |parts| >= 1 && parts[|parts| - 1] != ""
    requires forall k :: 0 <= k < |parts| ==> sep !in parts[k]
    ensures Split(Join(parts, sep), sep) == parts
  {
    PiecesJoin(parts, sep);
    if Join(parts, sep) == [] {
      assert Pieces([], sep) == [""];
    }
  }

  /**
   * A string that ends in separators: `split` drops the empty pieces after the last
   * non-empty one and gives back the pieces before them.
   */
  lemma SplitJoinTrailing(parts: seq<string>, n: nat, sep: char)
    requires |parts| >= 1 && parts[|parts| - 1] != ""
    requires forall k :: 0 <= k < |parts| ==> sep !in parts[k]
    ensures Split(Join(parts + Empties(n), sep), sep) == parts
  {
    var all := parts + Empties(n);
    PiecesJoin(all, sep);
    DropEmpties(parts, n);
  }

  lemma {:induction false} DropEmpties(parts: seq<string>, n: nat)
    requires |parts| >= 1 && parts[|parts| - 1] != ""
    ensures DropTrailingEmpty(parts + Empties(n)) == parts
  {
    if n > 0 {
      assert (parts + Empties(n))[..|parts| + n - 1] == parts + Empties(n - 1);
      DropEmpties(parts, n - 1);
    } else {
      assert parts + Empties(0) == parts;
    }
  }

  /** `String.trim` removes every character up to U+0020 from both ends. */
  function TrimStart(s: string): string {
    if s != [] && s[0] <= ' ' then TrimStart(s[1..]) else s
  }

  function TrimEnd(s: string): string {
    if s != [] && s[|s| - 1] <= ' ' then TrimEnd(s[..|s| - 1]) else s
  }

  function Trim(s: string): string {
    TrimEnd(TrimStart(s))
  }

  /** The readers' test `line.trim().equals("")`. */
  predicate IsBlank(line: string) {
    Trim(line) == ""
  }

  lemma {:induction false} TrimStartEmpty(s: string)
    ensures TrimStart(s) == "" <==> forall i :: 0 <= i < |s| ==> s[i] <= ' '
  {
    if s != [] && s[0] <= ' ' {
      TrimStartEmpty(s[1..]);
      assert forall i :: 1 <= i < |s| ==> s[i] == s[1..][i - 1];
    }
  }

  lemma {:induction false} TrimStartKeepsFirst(s: string)
    requires TrimStart(s) != ""
    ensures TrimStart(s)[0] > ' '
  {
    if s != [] && s[0] <= ' ' {
      TrimStartKeepsFirst(s[1..]);
    }
  }

  lemma {:induction false} TrimEndEmpty(s: string)
    requires s == [] || s[0] > ' '
    ensures TrimEnd(s) == "" <==> s == ""
  {
    if s != [] && s[|s| - 1] <= ' ' {
      assert |s| > 1;
      TrimEndEmpty(s[..|s| - 1]);
    }
  }

  /** A line is blank exactly when all its characters are spaces or control characters. */
  lemma BlankIffAllSpace(line: string)
    ensures IsBlank(line) <==> forall i :: 0 <= i < |line| ==> line[i] <= ' '
  {
    TrimStartEmpty(line);
    if TrimStart(line) != "" {
      TrimStartKeepsFirst(line);
    }
    TrimEndEmpty(TrimStart(line));
  }
}
