/**
 * The diagnostic parser of the checking service (server/main.py): the text
 * that `lean` writes to its error stream is cut into lines, and each line of
 * the form `<path>:<line>:<column>:<message>` becomes one LeanError record.
 * Every other line is dropped without an error.
 */
module Server {
  import opened Wrappers
  import opened PyStr
  import opened PyInt
  import opened Seqs

  /** One diagnostic reported by the checker. */
  datatype LeanError = LeanError(message: string, line: int, column: int)

  /** The service's response: the diagnostics in the order they were emitted. */
  datatype CheckResponse = CheckResponse(errors: seq<LeanError>)

  /**
   * The diagnostic one stderr line yields, if any: the line is split on every
   * colon; it needs at least four pieces, pieces 1 and 2 must be integers for
   * `int`, and the message is the rest rejoined with colons and stripped.
   */
  function ParseLine(line: string): (r: Option<LeanError>)
    ensures r.Some? <==> Qualifies(line)
    ensures r.Some? ==> Count(line, ':') >= 3
    ensures r.Some? ==> NoSurroundingSpace(StrSpaces, r.value.message)
  {
    ParseParts(Split(line, ':'))
  }

  /**
   * The test `check_code` puts to a line: split on every colon, it has at
   * least four pieces, and `int` accepts pieces 1 and 2.
   */
  predicate Qualifies(line: string)
  {
    var parts := Split(line, ':');
    |parts| >= 4 && ParseInt(parts[1]).Some? && ParseInt(parts[2]).Some?
  }

  /** ParseLine once the line has been split on its colons. */
  function ParseParts(parts: seq<string>): (r: Option<LeanError>)
    ensures r.Some? <==> |parts| >= 4 && ParseInt(parts[1]).Some? && ParseInt(parts[2]).Some?
    ensures r.Some? ==> r.value.line == ParseInt(parts[1]).value && r.value.column == ParseInt(parts[2]).value
    ensures r.Some? ==> r.value.message == Strip(StrSpaces, Join(parts[3..], ':'))
    ensures r.Some? ==> NoSurroundingSpace(StrSpaces, r.value.message)
  {
    if |parts| >= 4 then
      match (ParseInt(parts[1]), ParseInt(parts[2]))
      case (Some(lineNum), Some(colNum)) =>
        Some(LeanError(Strip(StrSpaces, Join(parts[3..], ':')), lineNum, colNum))
      case _ => None
    else None
  }

  /** The diagnostics of a sequence of stderr lines, in line order. */
  function ParseAll(lines: seq<string>): (r: seq<LeanError>)
    ensures |r| <= |lines|
  {
    FilterMap(ParseLine, lines)
  }

  /**
   * `check_code` after the checker has run: `stderr` is the text the `lean`
   * process wrote to its error stream. The loop appends one record per
   * qualifying line to a local list; ParseLine is what the body of the
   * `try` in `check_code` computes for one line.
   */
  method CheckCode(stderr: string) returns (response: CheckResponse)
    ensures response.errors == ParseAll(SplitLines(stderr))
    ensures |response.errors| <= |SplitLines(stderr)|
  {
    var lines := SplitLines(stderr);
    var errors: seq<LeanError> := [];
    var i := 0;
    while i < |lines|
      invariant 0 <= i <= |lines|
      invariant errors == ParseAll(lines[..i])
    {
      var line := lines[i];
      // The body of `check_code`'s `try`: a line that does not qualify, or
      // whose numbers are not integers, is skipped.
      match ParseLine(line) {
        case Some(e) => errors := errors + [e];
        case None =>
      }
      TakeSnoc(lines, i);
      ParseAllAppend(lines[..i], [line]);
      FilterMapSingle(ParseLine, line);
      i := i + 1;
    }
    assert lines[..i] == lines;
    response := CheckResponse(errors);
  }

  /** Parsing goes line by line: the diagnostics of two blocks of lines are those of each block, in order. */
  lemma ParseAllAppend(a: seq<string>, b: seq<string>)
    ensures ParseAll(a + b) == ParseAll(a) + ParseAll(b)
  {
    FilterMapAppend(ParseLine, a, b);
  }

  /** The indices, in increasing order, of the lines that yield a diagnostic. */
  ghost function Origins(lines: seq<string>): seq<nat>
  {
    Kept(ParseLine, lines)
  }

  /**
   * Each diagnostic comes from exactly one line: the k-th diagnostic is the one
   * parsed from line Origins(lines)[k]; those indices strictly increase, so the
   * order of the lines is kept and no line is used twice; and every line that
   * yields a diagnostic is among them.
   */
  lemma ParseAllOrigins(lines: seq<string>)
    ensures |Origins(lines)| == |ParseAll(lines)|
    ensures forall k :: 0 <= k < |Origins(lines)| ==>
      Origins(lines)[k] < |lines| && ParseLine(lines[Origins(lines)[k]]) == Some(ParseAll(lines)[k])
    ensures forall k, m :: 0 <= k < m < |Origins(lines)| ==> Origins(lines)[k] < Origins(lines)[m]
    ensures forall i :: 0 <= i < |lines| && ParseLine(lines[i]).Some? ==> i in Origins(lines)
  {
    FilterMapKept(ParseLine, lines);
  }

  /**
   * A qualifying line is kept: its record holds `int` of pieces 1 and 2 and
   * the stripped join of pieces 3 onward.
   */
  lemma QualifyingLineKept(line: string)
    requires Qualifies(line)
    ensures var parts := Split(line, ':');
      ParseLine(line)
      == Some(LeanError(Strip(StrSpaces, Join(parts[3..], ':')), ParseInt(parts[1]).value, ParseInt(parts[2]).value))
  {
  }

  /** The number of qualifying lines among `lines`. */
  function CountQualifying(lines: seq<string>): nat
  {
    if lines == [] then 0 else (if Qualifies(lines[0]) then 1 else 0) + CountQualifying(lines[1..])
  }

  /** There are exactly as many diagnostics as qualifying lines. */
  lemma {:induction false} ParseAllCount(lines: seq<string>)
    ensures |ParseAll(lines)| == CountQualifying(lines)
  {
    if lines != [] {
      ParseAllCount(lines[1..]);
      assert [lines[0]] + lines[1..] == lines;
      ParseAllAppend([lines[0]], lines[1..]);
      FilterMapSingle(ParseLine, lines[0]);
    }
  }

  /** A line is the origin of a diagnostic exactly when it qualifies. */
  lemma OriginsQualify(lines: seq<string>)
    ensures forall i :: 0 <= i < |lines| ==> (i in Origins(lines) <==> Qualifies(lines[i]))
  {
    ParseAllOrigins(lines);
  }

  /** A line with fewer than three colons (fewer than four pieces) yields nothing. */
  lemma ShortLineDropped(line: string)
    requires Count(line, ':') < 3
    ensures ParseLine(line) == None
  {
  }

  /** In particular, a line without any colon contributes nothing. */
  lemma NoColonLine(line: string)
    requires ':' !in line
    ensures ParseLine(line) == None
  {
    SplitNoSep(line, ':');
  }

  /** A line whose second or third piece is not an integer yields nothing, and parsing still succeeds. */
  lemma NonIntegerDropped(line: string)
    requires |Split(line, ':')| >= 4
    requires ParseInt(Split(line, ':')[1]).None? || ParseInt(Split(line, ':')[2]).None?
    ensures ParseLine(line) == None
  {
  }

  /** Whatever follows, a line number that is not an integer makes the line yield nothing. */
  lemma NonIntegerLineNumber(path: string, n: string, rest: string)
    requires ':' !in path && ':' !in n
    requires ParseInt(n).None?
    ensures ParseLine(path + ":" + n + ":" + rest) == None
  {
    assert path + ":" + n + ":" + rest == path + [':'] + (n + [':'] + rest);
    SplitAt(path, ':', n + [':'] + rest);
    SplitAt(n, ':', rest);
  }

  /**
   * A parsed line is rebuilt from its pieces: the path, the two numbers, and
   * the message text (which may hold further colons) before stripping; the
   * record's fields are what `int` and `strip` make of those pieces.
   */
  lemma ParsedLineReconstruction(line: string)
    requires ParseLine(line).Some?
    ensures var parts := Split(line, ':');
      var e := ParseLine(line).value;
      |parts| >= 4
      && parts[0] + ":" + parts[1] + ":" + parts[2] + ":" + Join(parts[3..], ':') == line
      && ParseInt(parts[1]) == Some(e.line) && ParseInt(parts[2]) == Some(e.column)
      && e.message == Strip(StrSpaces, Join(parts[3..], ':'))
  {
    var parts := Split(line, ':');
    JoinSplit(line, ':');
    JoinFirstThree(parts, ':');
  }

  /** The echoed path (piece 0, when it has no colon) has no influence on the result. */
  lemma PathIrrelevant(p: string, q: string, rest: string)
    requires ':' !in p && ':' !in q
    ensures ParseLine(p + ":" + rest) == ParseLine(q + ":" + rest)
  {
    SplitAt(p, ':', rest);
    SplitAt(q, ':', rest);
    var a, b := Split(p + ":" + rest, ':'), Split(q + ":" + rest, ':');
    assert a[1..] == b[1..];
    if |a| >= 4 {
      assert a[1] == b[1] && a[2] == b[2] && a[3..] == b[3..];
    }
  }

  /** How the checker writes a diagnostic: `<path>:<line>:<column>: <message>`. */
  function FormatError(path: string, e: LeanError): string
  {
    path + ":" + ShowInt(e.line) + ":" + ShowInt(e.column) + ": " + e.message
  }

  /**
   * Parsing undoes the checker's format, for any line and column numbers
   * (zero and negative ones included: there is no range check) and any
   * message that has no surrounding whitespace, colons included.
   */
  lemma ParseFormat(path: string, e: LeanError)
    requires ':' !in path
    requires NoSurroundingSpace(StrSpaces, e.message)
    ensures ParseLine(FormatError(path, e)) == Some(e)
  {
    var l, c, m := ShowInt(e.line), ShowInt(e.column), " " + e.message;
    var parts := Split(FormatError(path, e), ':');
    FormatErrorParts(path, e);
    assert parts[1] == l && parts[2] == c && parts[3..] == Split(m, ':');
    FormattedMessage(e.message);
    ParseShow(e.line);
    ParseShow(e.column);
  }

  /** The colon-separated pieces of a formatted diagnostic. */
  lemma FormatErrorParts(path: string, e: LeanError)
    requires ':' !in path
    ensures Split(FormatError(path, e), ':')
      == [path, ShowInt(e.line), ShowInt(e.column)] + Split(" " + e.message, ':')
  {
    ShowIntPlain(e.line);
    ShowIntPlain(e.column);
    FormatErrorShape(path, e);
    SplitThree(path, ShowInt(e.line), ShowInt(e.column), ':', " " + e.message);
  }

  lemma FormatErrorShape(path: string, e: LeanError)
    ensures FormatError(path, e)
      == path + [':'] + (ShowInt(e.line) + [':'] + (ShowInt(e.column) + [':'] + (" " + e.message)))
  {
  }

  /** The message text after the third colon, once rejoined and stripped, is the message. */
  lemma FormattedMessage(message: string)
    requires NoSurroundingSpace(StrSpaces, message)
    ensures Strip(StrSpaces, Join(Split(" " + message, ':'), ':')) == message
  {
    JoinSplit(" " + message, ':');
    StripPadded(StrSpaces, " ", message, "");
    assert " " + message + "" == " " + message;
    StripOfUnpadded(StrSpaces, message);
  }

  /** The stderr text of a checker that reports `errors` on `path`, one per line. */
  function Render(path: string, errors: seq<LeanError>): string
  {
    JoinLines(FormatAll(path, errors))
  }

  function FormatAll(path: string, errors: seq<LeanError>): (r: seq<string>)
    ensures |r| == |errors|
    ensures forall k :: 0 <= k < |r| ==> r[k] == FormatError(path, errors[k])
  {
    seq(|errors|, k requires 0 <= k < |errors| => FormatError(path, errors[k]))
  }

  /** Every one of `errors`, rendered on its own line, is parsed back out of the stream. */
  lemma ParseAllFormatAll(path: string, errors: seq<LeanError>)
    requires ':' !in path
    requires forall k :: 0 <= k < |errors| ==> NoSurroundingSpace(StrSpaces, errors[k].message)
    ensures ParseAll(FormatAll(path, errors)) == errors
  {
    var lines := FormatAll(path, errors);
    forall k | 0 <= k < |lines| ensures ParseLine(lines[k]) == Some(errors[k]) {
      ParseFormat(path, errors[k]);
    }
    FilterMapAllSome(ParseLine, lines, errors);
  }

  /**
   * End to end: for a path without colons or line boundaries and messages
   * on one line without surrounding whitespace, the service returns
   * exactly the diagnostics the checker reported, in order.
   */
  lemma RenderParse(path: string, errors: seq<LeanError>)
    requires ':' !in path && NoLineBreak(path)
    requires forall k :: 0 <= k < |errors| ==>
      NoSurroundingSpace(StrSpaces, errors[k].message) && NoLineBreak(errors[k].message)
    ensures ParseAll(SplitLines(Render(path, errors))) == errors
  {
    var lines := FormatAll(path, errors);
    forall k | 0 <= k < |lines| ensures NoLineBreak(lines[k]) {
      FormatErrorOneLine(path, errors[k]);
    }
    SplitLinesJoinLines(lines);
    ParseAllFormatAll(path, errors);
  }

  /** A formatted diagnostic is one line when its path and message are. */
  lemma FormatErrorOneLine(path: string, e: LeanError)
    requires NoLineBreak(path) && NoLineBreak(e.message)
    ensures NoLineBreak(FormatError(path, e))
  {
    ShowIntPlain(e.line);
    ShowIntPlain(e.column);
    var l, c := ShowInt(e.line), ShowInt(e.column);
    NoLineBreakConcat(path, ":");
    NoLineBreakConcat(path + ":", l);
    NoLineBreakConcat(path + ":" + l, ":");
    NoLineBreakConcat(path + ":" + l + ":", c);
    NoLineBreakConcat(path + ":" + l + ":" + c, ": ");
    NoLineBreakConcat(path + ":" + l + ":" + c + ": ", e.message);
  }

  /** "x.lean:4:10: error: something" gives line 4, column 10 and a message that keeps its colon. */
  lemma ExampleError()
    ensures ParseLine("x.lean:4:10: error: something") == Some(LeanError("error: something", 4, 10))
  {
    var e := LeanError("error: something", 4, 10);
    assert ShowInt(4) == "4" && ShowInt(10) == "10";
    assert FormatError("x.lean", e) == "x.lean:4:10: error: something";
    ParseFormat("x.lean", e);
  }

  /** Zero and negative numbers pass through as parsed: there is no range check. */
  lemma ExampleNoRangeCheck()
    ensures ParseLine("x.lean:0:-3: error: m") == Some(LeanError("error: m", 0, -3))
  {
    var e := LeanError("error: m", 0, -3);
    assert ShowInt(0) == "0" && ShowInt(-3) == "-3";
    assert FormatError("x.lean", e) == "x.lean:0:-3: error: m";
    ParseFormat("x.lean", e);
  }

  /** "no colons" gives nothing. */
  lemma ExampleNoColons()
    ensures ParseLine("no colons") == None
  {
    NoColonLine("no colons");
  }

  /** "/tmp/x.lean:abc:10: error: bad" gives nothing: "abc" is not an integer. */
  lemma ExampleBadLineNumber()
    ensures ParseLine("/tmp/x.lean:abc:10: error: bad") == None
  {
    assert "/tmp/x.lean:abc:10: error: bad" == "/tmp/x.lean" + ":" + "abc" + ":" + "10: error: bad";
    LettersNotInt();
    NonIntegerLineNumber("/tmp/x.lean", "abc", "10: error: bad");
  }

  /** `int("abc")` raises. */
  lemma LettersNotInt()
    ensures ParseInt("abc") == None
  {
    StripOfUnpadded(IntSpaces, "abc");
  }

  /**
   * "x.lean:\x1f4:10: m" gives nothing: `int` does not skip the unit
   * separator U+001F, though `str.strip()` would.
   */
  lemma ExampleSeparatorBeforeNumber()
    ensures ParseLine("x.lean:\U{1f}4:10: m") == None
  {
    assert "x.lean:\U{1f}4:10: m" == "x.lean" + ":" + "\U{1f}4" + ":" + "10: m";
    SeparatorStopsInt("\U{1f}4");
    NonIntegerLineNumber("x.lean", "\U{1f}4", "10: m");
  }

  /** Empty stderr gives an empty list. */
  lemma ExampleEmpty()
    ensures ParseAll(SplitLines("")) == []
  {
  }
}
