/**
 * The Python string built-ins the diagnostic parser relies on, over Dafny's
 * `string` (a sequence of Unicode scalar values):
 *   str.isspace on one character, str.strip() with no argument,
 *   str.split(sep) with a one-character separator, sep.join(parts),
 *   and str.splitlines() with no argument.
 */
module PyStr {

  /** Python's whitespace characters (those for which str.isspace() holds). */
  predicate IsSpace(c: char)
  {
    ('\t' <= c <= '\r') || ('\U{1c}' <= c <= ' ') || c == '\U{85}' || c == '\U{a0}'
    || c == '\U{1680}' || ('\U{2000}' <= c <= '\U{200a}') || c == '\U{2028}' || c == '\U{2029}'
    || c == '\U{202f}' || c == '\U{205f}' || c == '\U{3000}'
  }

  /**
   * The two whitespace sets the parser meets. `str.strip()` removes every
   * character for which str.isspace() holds. `int()` skips less: it takes
   * ASCII characters as they are and treats only space, tab, `\n`, `\v`,
   * `\f` and `\r` among them as whitespace, so the information separators
   * U+001C to U+001F, which str.isspace() counts, stop it; non-ASCII
   * whitespace it turns into spaces, so those it skips.
   */
  datatype Spaces = StrSpaces | IntSpaces

  /** `c` is whitespace for the given set. */
  predicate IsBlank(w: Spaces, c: char)
  {
    IsSpace(c) && (w.IntSpaces? ==> !('\U{1c}' <= c <= '\U{1f}'))
  }

  /** Every character of `s` from index `lo` up to (not including) `hi` is whitespace. */
  predicate SpaceBetween(w: Spaces, s: string, lo: int, hi: int)
  {
    forall k :: lo <= k < hi && 0 <= k < |s| ==> IsBlank(w, s[k])
  }

  /** Neither the first nor the last character of `t` is whitespace. */
  predicate NoSurroundingSpace(w: Spaces, t: string)
  {
    t == [] || (!IsBlank(w, t[0]) && !IsBlank(w, t[|t| - 1]))
  }

  /**
   * What stripping means, independently of how it is computed: `r` is the
   * piece `s[i..j]` of `s`, everything cut off on either side is whitespace,
   * and `r` itself neither starts nor ends with whitespace.
   */
  ghost predicate IsStripOf(w: Spaces, r: string, s: string)
  {
    exists i, j :: 0 <= i <= j <= |s| && r == s[i..j] && SpaceBetween(w, s, 0, i) && SpaceBetween(w, s, j, |s|)
      && NoSurroundingSpace(w, r)
  }

  /** The number of leading whitespace characters of `s`. */
  function Lead(w: Spaces, s: string): (n: nat)
    ensures n <= |s|
    ensures SpaceBetween(w, s, 0, n)
    ensures n < |s| ==> !IsBlank(w, s[n])
  {
    if |s| > 0 && IsBlank(w, s[0]) then 1 + Lead(w, s[1..]) else 0
  }

  /** The index just past the last non-whitespace character of `s` (0 if none). */
  function Trail(w: Spaces, s: string): (n: nat)
    ensures n <= |s|
    ensures SpaceBetween(w, s, n, |s|)
    ensures n > 0 ==> !IsBlank(w, s[n - 1])
  {
    if |s| > 0 && IsBlank(w, s[|s| - 1]) then Trail(w, s[..|s| - 1]) else |s|
  }

  /** Python's `s.strip()` for `StrSpaces`; the whitespace `int()` skips for `IntSpaces`. */
  function Strip(w: Spaces, s: string): (r: string)
    ensures NoSurroundingSpace(w, r)
    ensures |r| <= |s|
  {
    var i := Lead(w, s);
    if i == |s| then [] else s[i..Trail(w, s)]
  }

  /** `Strip` meets the meaning of stripping. */
  lemma StripMeaning(w: Spaces, s: string)
    ensures IsStripOf(w, Strip(w, s), s)
  {
    var i := Lead(w, s);
    if i == |s| {
      assert [] == s[|s|..|s|];
    } else {
      var j := Trail(w, s);
      assert !IsBlank(w, s[i]);
      assert Strip(w, s) == s[i..j];
    }
  }

  /** The leading whitespace is exactly what stands before the first non-whitespace character. */
  lemma LeadAt(w: Spaces, s: string, i: nat)
    requires i <= |s| && SpaceBetween(w, s, 0, i) && (i < |s| ==> !IsBlank(w, s[i]))
    ensures Lead(w, s) == i
  {
    var n := Lead(w, s);
    if n < |s| { assert !IsBlank(w, s[n]); }
  }

  /** The trailing whitespace is exactly what stands after the last non-whitespace character. */
  lemma TrailAt(w: Spaces, s: string, j: nat)
    requires j <= |s| && SpaceBetween(w, s, j, |s|) && (j > 0 ==> !IsBlank(w, s[j - 1]))
    ensures Trail(w, s) == j
  {
    var n := Trail(w, s);
    if n > 0 { assert !IsBlank(w, s[n - 1]); }
  }

  /** The trailing whitespace starts after any non-whitespace character. */
  lemma TrailPast(w: Spaces, s: string, i: nat)
    requires i < |s| && !IsBlank(w, s[i])
    ensures i < Trail(w, s)
  {
  }

  /** Stripping is determined by its meaning: the only strip of `s` is `Strip(w, s)`. */
  lemma StripIsUnique(w: Spaces, r: string, s: string)
    requires IsStripOf(w, r, s)
    ensures r == Strip(w, s)
  {
    var i, j :| 0 <= i <= j <= |s| && r == s[i..j] && SpaceBetween(w, s, 0, i) && SpaceBetween(w, s, j, |s|)
      && NoSurroundingSpace(w, r);
    if r == [] {
      assert SpaceBetween(w, s, 0, |s|);
      LeadAt(w, s, |s|);
    } else {
      assert s[i] == r[0] && s[j - 1] == r[|r| - 1];
      LeadAt(w, s, i);
      TrailAt(w, s, j);
    }
  }

  /** A string with no surrounding whitespace is its own strip. */
  lemma StripOfUnpadded(w: Spaces, t: string)
    requires NoSurroundingSpace(w, t)
    ensures Strip(w, t) == t
  {
    assert t == t[0..|t|];
    assert IsStripOf(w, t, t);
    StripIsUnique(w, t, t);
  }

  /** Stripping twice is the same as stripping once. */
  lemma StripIdempotent(w: Spaces, s: string)
    ensures Strip(w, Strip(w, s)) == Strip(w, s)
  {
    StripOfUnpadded(w, Strip(w, s));
  }

  /** Whitespace added around a string does not change its strip. */
  lemma StripPadded(w: Spaces, w1: string, s: string, w2: string)
    requires SpaceBetween(w, w1, 0, |w1|) && SpaceBetween(w, w2, 0, |w2|)
    ensures Strip(w, w1 + s + w2) == Strip(w, s)
  {
    var r := Strip(w, s);
    StripMeaning(w, s);
    var i, j :| 0 <= i <= j <= |s| && r == s[i..j] && SpaceBetween(w, s, 0, i) && SpaceBetween(w, s, j, |s|)
      && NoSurroundingSpace(w, r);
    var t := w1 + s + w2;
    var i', j' := |w1| + i, |w1| + j;
    InnerSlice(w1, s, w2, i, j);
    PaddedSpaceBefore(w, w1, s, w2, i);
    PaddedSpaceAfter(w, w1, s, w2, j);
    assert IsStripOf(w, r, t);
    StripIsUnique(w, r, t);
  }

  /** The number of occurrences of `c` in `s` (Python's `s.count(c)`). */
  function Count(s: string, c: char): nat
  {
    if |s| == 0 then 0 else (if s[0] == c then 1 else 0) + Count(s[1..], c)
  }

  lemma InnerSlice(w1: string, s: string, w2: string, i: nat, j: nat)
    requires i <= j <= |s|
    ensures (w1 + s + w2)[|w1| + i..|w1| + j] == s[i..j]
  {
    var t := w1 + s + w2;
    forall k | 0 <= k < j - i ensures t[|w1| + i..|w1| + j][k] == s[i..j][k] {
      assert t[|w1| + i + k] == s[i + k];
    }
  }

  lemma PaddedSpaceBefore(w: Spaces, w1: string, s: string, w2: string, i: nat)
    requires SpaceBetween(w, w1, 0, |w1|) && i <= |s| && SpaceBetween(w, s, 0, i)
    ensures SpaceBetween(w, w1 + s + w2, 0, |w1| + i)
  {
    var t := w1 + s + w2;
    forall k | 0 <= k < |w1| + i ensures IsBlank(w, t[k]) {
      if k < |w1| { assert t[k] == w1[k]; } else { assert t[k] == s[k - |w1|]; }
    }
  }

  lemma PaddedSpaceAfter(w: Spaces, w1: string, s: string, w2: string, j: nat)
    requires SpaceBetween(w, w2, 0, |w2|) && j <= |s| && SpaceBetween(w, s, j, |s|)
    ensures SpaceBetween(w, w1 + s + w2, |w1| + j, |w1 + s + w2|)
  {
    var t := w1 + s + w2;
    forall k | |w1| + j <= k < |t| ensures IsBlank(w, t[k]) {
      if k < |w1| + |s| { assert t[k] == s[k - |w1|]; } else { assert t[k] == w2[k - |w1| - |s|]; }
    }
  }

  /** Python's `s.split(sep)` for a one-character separator `sep`. */
  function Split(s: string, sep: char): (parts: seq<string>)
    ensures |parts| == Count(s, sep) + 1
    ensures forall k :: 0 <= k < |parts| ==> sep !in parts[k]
  {
    if |s| == 0 then [""]
    else
      var rest := Split(s[1..], sep);
      if s[0] == sep then [""] + rest
      else [[s[0]] + rest[0]] + rest[1..]
  }

  /** Python's `sep.join(parts)`. */
  function Join(parts: seq<string>, sep: char): string
  {
    if |parts| == 0 then ""
    else if |parts| == 1 then parts[0]
    else parts[0] + [sep] + Join(parts[1..], sep)
  }

  /** Joining the pieces of a split with the same separator gives the string back. */
  lemma {:induction false} JoinSplit(s: string, sep: char)
    ensures Join(Split(s, sep), sep) == s
  {
    if |s| > 0 {
      var rest := Split(s[1..], sep);
      JoinSplit(s[1..], sep);
      if s[0] == sep {
        assert Split(s, sep) == [""] + rest;
        assert ([""] + rest)[1..] == rest;
      } else {
        var parts := Split(s, sep);
        assert parts == [[s[0]] + rest[0]] + rest[1..];
        if |rest| > 1 {
          assert parts[1..] == rest[1..];
          assert Join(rest, sep) == rest[0] + [sep] + Join(rest[1..], sep);
        }
      }
    }
  }

  /** A string without the separator splits into itself alone. */
  lemma {:induction false} SplitNoSep(s: string, sep: char)
    requires sep !in s
    ensures Split(s, sep) == [s]
  {
    if |s| > 0 {
      SplitNoSep(s[1..], sep);
      assert [s[0]] + s[1..] == s;
    }
  }

  /** Splitting at the first separator: the piece before it comes first, then the split of the rest. */
  lemma {:induction false} SplitAt(a: string, sep: char, t: string)
    requires sep !in a
    ensures Split(a + [sep] + t, sep) == [a] + Split(t, sep)
  {
    var s := a + [sep] + t;
    if |a| == 0 {
      assert s[1..] == t;
    } else {
      assert s[1..] == a[1..] + [sep] + t;
      SplitAt(a[1..], sep, t);
      assert [a[0]] + a[1..] == a;
    }
  }

  /** Splitting after three separator-free pieces, each followed by a separator. */
  lemma SplitThree(a: string, b: string, c: string, sep: char, t: string)
    requires sep !in a && sep !in b && sep !in c
    ensures Split(a + [sep] + (b + [sep] + (c + [sep] + t)), sep) == [a, b, c] + Split(t, sep)
  {
    SplitAt(a, sep, b + [sep] + (c + [sep] + t));
    SplitAt(b, sep, c + [sep] + t);
    SplitAt(c, sep, t);
  }

  /** Splitting a join of separator-free pieces gives the pieces back. */
  lemma {:induction false} SplitJoin(parts: seq<string>, sep: char)
    requires |parts| > 0
    requires forall k :: 0 <= k < |parts| ==> sep !in parts[k]
    ensures Split(Join(parts, sep), sep) == parts
  {
    if |parts| == 1 {
      SplitNoSep(parts[0], sep);
    } else {
      SplitJoin(parts[1..], sep);
      SplitAt(parts[0], sep, Join(parts[1..], sep));
      assert [parts[0]] + parts[1..] == parts;
    }
  }

  /** Joining one more piece in front adds that piece and one separator. */
  lemma JoinCons(parts: seq<string>, sep: char)
    requires |parts| >= 2
    ensures Join(parts, sep) == parts[0] + [sep] + Join(parts[1..], sep)
  {
  }

  /** A join of four or more pieces, with its first three pieces written out. */
  lemma JoinFirstThree(parts: seq<string>, sep: char)
    requires |parts| >= 4
    ensures Join(parts, sep) == parts[0] + [sep] + parts[1] + [sep] + parts[2] + [sep] + Join(parts[3..], sep)
  {
    JoinCons(parts, sep);
    JoinCons(parts[1..], sep);
    JoinCons(parts[2..], sep);
    assert parts[1..][1..] == parts[2..];
    assert parts[2..][1..] == parts[3..];
  }

  /** The line boundaries recognised by Python's str.splitlines() ("\r\n" counts as one). */
  predicate IsLineBreak(c: char)
  {
    c == '\n' || c == '\r' || c == '\U{0b}' || c == '\U{0c}' || c == '\U{1c}' || c == '\U{1d}'
    || c == '\U{1e}' || c == '\U{85}' || c == '\U{2028}' || c == '\U{2029}'
  }

  predicate NoLineBreak(t: string)
  {
    forall k :: 0 <= k < |t| ==> !IsLineBreak(t[k])
  }

  lemma NoLineBreakConcat(a: string, b: string)
    requires NoLineBreak(a) && NoLineBreak(b)
    ensures NoLineBreak(a + b)
  {
    forall k | 0 <= k < |a + b| ensures !IsLineBreak((a + b)[k]) {
      if k < |a| { assert (a + b)[k] == a[k]; } else { assert (a + b)[k] == b[k - |a|]; }
    }
  }

  /** The index of the first line boundary in `s`, or |s| if there is none. */
  function LineEnd(s: string): (i: nat)
    ensures i <= |s|
    ensures forall k :: 0 <= k < i ==> !IsLineBreak(s[k])
    ensures i < |s| ==> IsLineBreak(s[i])
  {
    if |s| == 0 || IsLineBreak(s[0]) then 0 else 1 + LineEnd(s[1..])
  }

  /**
   * Python's `s.splitlines()`: the lines of `s` without their terminators;
   * a final terminator does not start an extra empty line, and "" has no lines.
   */
  function SplitLines(s: string): (lines: seq<string>)
    ensures forall k :: 0 <= k < |lines| ==> NoLineBreak(lines[k])
    ensures |lines| <= |s|
    ensures lines == [] <==> s == []
    decreases |s|
  {
    if s == [] then []
    else
      var i := LineEnd(s);
      if i == |s| then
        assert NoLineBreak(s) by { assert forall k :: 0 <= k < |s| ==> !IsLineBreak(s[k]); }
        [s]
      else
        var next := if s[i] == '\r' && i + 1 < |s| && s[i + 1] == '\n' then i + 2 else i + 1;
        var rest := SplitLines(s[next..]);
        assert NoLineBreak(s[..i]) by {
          forall k | 0 <= k < i ensures !IsLineBreak(s[..i][k]) { assert s[..i][k] == s[k]; }
        }
        [s[..i]] + rest
  }

  /** A last line without a terminator is a line of its own. */
  lemma SplitLinesLast(l: string)
    requires l != [] && NoLineBreak(l)
    ensures SplitLines(l) == [l]
  {
    assert LineEnd(l) == |l|;
  }

  /** "\r\n" ends a line as one terminator. */
  lemma SplitLinesCrLf(l: string, rest: string)
    requires NoLineBreak(l)
    ensures SplitLines(l + "\r\n" + rest) == [l] + SplitLines(rest)
  {
    var s := l + "\r\n" + rest;
    assert forall k :: 0 <= k < |l| ==> s[k] == l[k];
    assert s[|l|] == '\r' && s[|l| + 1] == '\n';
    assert LineEnd(s) == |l|;
    assert s[..|l|] == l && s[|l| + 2..] == rest;
  }

  /**
   * Any other line boundary ends a line by itself (a "\r" only when no "\n"
   * follows it), so an empty line between two boundaries is kept.
   */
  lemma SplitLinesBreak(l: string, b: char, rest: string)
    requires NoLineBreak(l) && IsLineBreak(b)
    requires b == '\r' ==> rest == [] || rest[0] != '\n'
    ensures SplitLines(l + [b] + rest) == [l] + SplitLines(rest)
  {
    var s := l + [b] + rest;
    assert forall k :: 0 <= k < |l| ==> s[k] == l[k];
    assert s[|l|] == b;
    assert LineEnd(s) == |l|;
    assert s[..|l|] == l && s[|l| + 1..] == rest;
  }

  /** The text made of `lines`, each ended by "\n". */
  function JoinLines(lines: seq<string>): string
  {
    if lines == [] then "" else lines[0] + "\n" + JoinLines(lines[1..])
  }

  /** Splitting lines undoes writing them out one per "\n"-terminated line. */
  lemma {:induction false} SplitLinesJoinLines(lines: seq<string>)
    requires forall k :: 0 <= k < |lines| ==> NoLineBreak(lines[k])
    ensures SplitLines(JoinLines(lines)) == lines
  {
    if lines != [] {
      var l := lines[0];
      var s := JoinLines(lines);
      assert s == l + "\n" + JoinLines(lines[1..]);
      assert s[|l|] == '\n';
      assert NoLineBreak(l);
      var i := LineEnd(s);
      assert forall k :: 0 <= k < |l| ==> s[k] == l[k];
      assert i == |l|;
      assert s[..i] == l;
      assert s[i + 1..] == JoinLines(lines[1..]);
      SplitLinesJoinLines(lines[1..]);
      assert [l] + lines[1..] == lines;
    }
  }
}
