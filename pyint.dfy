/**
 * Python's `int(s)` on a string, in base 10, and the decimal rendering it
 * inverts. `int` ignores surrounding whitespace, takes an optional `+` or `-`
 * sign, and reads a run of decimal digits in which single underscores may
 * stand between two digits; leading zeros are allowed. Anything else makes it
 * raise ValueError, modelled here as `None`.
 */
module PyInt {
  import opened Wrappers
  import opened PyStr

  predicate IsDigit(c: char)
  {
    '0' <= c <= '9'
  }

  /** A non-empty run of digits where each underscore sits between two digits. */
  predicate IsDigitRun(d: string)
    decreases |d|
  {
    |d| > 0 && IsDigit(d[0])
    && (|d| == 1 || if d[1] == '_' then IsDigitRun(d[2..]) else IsDigitRun(d[1..]))
  }

  /** A non-empty string of plain digits is a digit run. */
  lemma {:induction false} DigitsAreRun(d: string)
    requires |d| > 0 && forall k :: 0 <= k < |d| ==> IsDigit(d[k])
    ensures IsDigitRun(d)
  {
    if |d| > 1 {
      DigitsAreRun(d[1..]);
    }
  }

  /** The text `int` accepts once surrounding whitespace is removed. */
  predicate IsIntLiteral(t: string)
  {
    IsDigitRun(t) || (|t| > 0 && (t[0] == '+' || t[0] == '-') && IsDigitRun(t[1..]))
  }

  /** The number a digit run denotes, underscores skipped. */
  function DigitsValue(d: string): nat
  {
    if |d| == 0 then 0
    else if IsDigit(d[|d| - 1]) then 10 * DigitsValue(d[..|d| - 1]) + (d[|d| - 1] as int - '0' as int)
    else DigitsValue(d[..|d| - 1])
  }

  /** Python's `int(s)`; `None` where Python raises ValueError. */
  function ParseInt(s: string): (r: Option<int>)
    ensures r.Some? <==> IsIntLiteral(Strip(IntSpaces, s))
  {
    ParseLiteral(Strip(IntSpaces, s))
  }

  /** The number of digits in `d`; underscores do not count. */
  function DigitCount(d: string): nat
  {
    if |d| == 0 then 0 else DigitCount(d[..|d| - 1]) + (if IsDigit(d[|d| - 1]) then 1 else 0)
  }

  function Pow10(n: nat): nat
  {
    if n == 0 then 1 else 10 * Pow10(n - 1)
  }

  /** The digits of `y` are the low-order places of `x + y`. */
  lemma {:induction false} DigitsValueAppend(x: string, y: string)
    ensures DigitsValue(x + y) == DigitsValue(x) * Pow10(DigitCount(y)) + DigitsValue(y)
  {
    if |y| == 0 {
      assert x + y == x;
    } else {
      var init := y[..|y| - 1];
      var c := y[|y| - 1];
      assert (x + y)[..|x + y| - 1] == x + init;
      assert (x + y)[|x + y| - 1] == c;
      DigitsValueAppend(x, init);
      var p := Pow10(DigitCount(init));
      if IsDigit(c) {
        calc {
          DigitsValue(x + y);
          10 * DigitsValue(x + init) + (c as int - '0' as int);
          10 * (DigitsValue(x) * p + DigitsValue(init)) + (c as int - '0' as int);
          DigitsValue(x) * (10 * p) + (10 * DigitsValue(init) + (c as int - '0' as int));
        }
      }
    }
  }

  /** An underscore between digits adds nothing to the value: `int("1_000") == int("1000")`. */
  lemma UnderscoreValue(a: string, b: string)
    ensures DigitsValue(a + "_" + b) == DigitsValue(a + b)
  {
    DigitsValueAppend(a + "_", b);
    DigitsValueAppend(a, b);
    assert (a + "_")[..|a + "_"| - 1] == a;
  }

  /** A digit run starts and ends with a digit. */
  lemma {:induction false} RunEnds(d: string)
    requires IsDigitRun(d)
    ensures IsDigit(d[0]) && IsDigit(d[|d| - 1])
  {
    if |d| > 1 {
      if d[1] == '_' {
        RunEnds(d[2..]);
        assert d[|d| - 1] == d[2..][|d[2..]| - 1];
      } else {
        RunEnds(d[1..]);
        assert d[|d| - 1] == d[1..][|d[1..]| - 1];
      }
    }
  }

  /** Two digit runs joined directly, or by one underscore, form a digit run. */
  lemma {:induction false} RunJoin(a: string, b: string)
    requires IsDigitRun(a) && IsDigitRun(b)
    ensures IsDigitRun(a + "_" + b) && IsDigitRun(a + b)
  {
    RunEnds(b);
    if |a| == 1 {
      assert (a + "_" + b)[2..] == b;
      assert (a + b)[1..] == b;
    } else if a[1] == '_' {
      RunJoin(a[2..], b);
      assert (a + "_" + b)[2..] == a[2..] + "_" + b;
      assert (a + b)[2..] == a[2..] + b;
    } else {
      RunJoin(a[1..], b);
      assert (a + "_" + b)[1..] == a[1..] + "_" + b;
      assert (a + b)[1..] == a[1..] + b;
    }
  }

  /** `int` reads a digit run, with or without one more underscore between two of its parts, alike. */
  lemma ParseUnderscore(a: string, b: string)
    requires IsDigitRun(a) && IsDigitRun(b)
    ensures ParseInt(a + "_" + b) == ParseInt(a + b) == Some(DigitsValue(a + b))
  {
    RunJoin(a, b);
    UnderscoreValue(a, b);
    ParseRun(a + "_" + b);
    ParseRun(a + b);
  }

  /** An unpadded digit run reads as its value. */
  lemma ParseRun(d: string)
    requires IsDigitRun(d)
    ensures ParseInt(d) == Some(DigitsValue(d))
  {
    RunEnds(d);
    StripOfUnpadded(IntSpaces, d);
  }

  /** `int` on text that has no surrounding whitespace. */
  function ParseLiteral(t: string): (r: Option<int>)
    ensures r.Some? <==> IsIntLiteral(t)
    ensures r.Some? && t[0] == '-' ==> r.value <= 0
    ensures r.Some? && t[0] != '-' ==> r.value >= 0
  {
    if |t| > 0 && t[0] == '-' then
      match ParseDigitRun(t[1..])
      case Some(v) => Some(-(v as int))
      case None => None
    else if |t| > 0 && t[0] == '+' then
      match ParseDigitRun(t[1..])
      case Some(v) => Some(v as int)
      case None => None
    else
      match ParseDigitRun(t)
      case Some(v) => Some(v as int)
      case None => None
  }

  /** The value of an unsigned digit run. */
  function ParseDigitRun(d: string): (r: Option<nat>)
    ensures r.Some? <==> IsDigitRun(d)
  {
    if IsDigitRun(d) then Some(DigitsValue(d)) else None
  }

  function DigitChar(d: nat): char
    requires d < 10
  {
    ('0' as int + d) as char
  }

  /** The decimal digits of `n`, most significant first, with no leading zero. */
  function ShowNat(n: nat): (r: string)
    ensures |r| > 0 && forall k :: 0 <= k < |r| ==> IsDigit(r[k])
    ensures |r| > 1 ==> r[0] != '0'
  {
    if n < 10 then [DigitChar(n)] else ShowNat(n / 10) + [DigitChar(n % 10)]
  }

  /** `str(n)` for an integer `n`. */
  function ShowInt(n: int): (r: string)
    ensures |r| > 0
    ensures forall k :: 0 <= k < |r| ==> IsDigit(r[k]) || (k == 0 && r[k] == '-')
  {
    if n < 0 then "-" + ShowNat(-n) else ShowNat(n)
  }

  /** The digits of `n` read back give `n`. */
  lemma {:induction false} ShowNatValue(n: nat)
    ensures DigitsValue(ShowNat(n)) == n
  {
    if n >= 10 {
      var p := ShowNat(n / 10);
      var d := p + [DigitChar(n % 10)];
      assert d[..|d| - 1] == p;
      ShowNatValue(n / 10);
    }
  }

  /** A plain string of digits is read as its decimal value. */
  lemma ParseDigits(d: string)
    requires |d| > 0 && forall k :: 0 <= k < |d| ==> IsDigit(d[k])
    ensures ParseInt(d) == Some(DigitsValue(d))
  {
    DigitsUnpadded(d);
    DigitsAreRun(d);
    assert d[0] != '-' && d[0] != '+' by {
      assert IsDigit(d[0]);
    }
  }

  /** A string of digits has no surrounding whitespace. */
  lemma DigitsUnpadded(d: string)
    requires |d| > 0 && forall k :: 0 <= k < |d| ==> IsDigit(d[k])
    ensures Strip(IntSpaces, d) == d
  {
    assert IsDigit(d[0]) && IsDigit(d[|d| - 1]);
    StripOfUnpadded(IntSpaces, d);
  }

  /** A minus sign followed by digits has no surrounding whitespace. */
  lemma NegatedUnpadded(t: string)
    requires |t| > 1 && t[0] == '-' && forall k :: 1 <= k < |t| ==> IsDigit(t[k])
    ensures Strip(IntSpaces, t) == t
  {
    assert IsDigit(t[|t| - 1]);
    StripOfUnpadded(IntSpaces, t);
  }

  /** The digits after the minus sign form a run worth their decimal value. */
  lemma RunAfterSign(t: string)
    requires |t| > 1 && t[0] == '-' && forall k :: 1 <= k < |t| ==> IsDigit(t[k])
    ensures ParseDigitRun(t[1..]) == Some(DigitsValue(t[1..]))
  {
    var d := t[1..];
    assert forall k :: 0 <= k < |d| ==> IsDigit(d[k]) by {
      forall k | 0 <= k < |d| ensures IsDigit(d[k]) {
        assert d[k] == t[k + 1];
      }
    }
    DigitsAreRun(d);
  }

  /** A minus sign followed by plain digits is read as the negated decimal value of the digits. */
  lemma ParseNegatedDigits(t: string)
    requires |t| > 1 && t[0] == '-' && forall k :: 1 <= k < |t| ==> IsDigit(t[k])
    ensures ParseInt(t) == Some(-(DigitsValue(t[1..]) as int))
  {
    NegatedUnpadded(t);
    RunAfterSign(t);
    ParseNegative(t, DigitsValue(t[1..]));
  }

  /** Unpadded text made of a minus sign and a digit run reads as the negated value of the run. */
  lemma ParseNegative(t: string, v: nat)
    requires Strip(IntSpaces, t) == t
    requires |t| > 0 && t[0] == '-' && ParseDigitRun(t[1..]) == Some(v)
    ensures ParseInt(t) == Some(-(v as int))
  {
  }

  /** `int(str(n)) == n` for every integer, negative and zero included. */
  lemma ParseShow(n: int)
    ensures ParseInt(ShowInt(n)) == Some(n)
  {
    if n < 0 {
      ParseShowNegative(n);
    } else {
      ParseShowNonNegative(n);
    }
  }

  lemma ParseShowNegative(n: int)
    requires n < 0
    ensures ParseInt(ShowInt(n)) == Some(n)
  {
    var t := ShowInt(n);
    NegativeShape(n);
    ParseNegatedDigits(t);
    ShowNatValue(-n);
    assert DigitsValue(t[1..]) == -n;
  }

  /** The rendering of a negative number is a minus sign followed by the digits of its magnitude. */
  lemma NegativeShape(n: int)
    requires n < 0
    ensures |ShowInt(n)| > 1 && ShowInt(n)[0] == '-' && ShowInt(n)[1..] == ShowNat(-n)
    ensures forall k :: 1 <= k < |ShowInt(n)| ==> IsDigit(ShowInt(n)[k])
  {
    var d := ShowNat(-n);
    assert ShowInt(n) == "-" + d;
    assert ("-" + d)[1..] == d;
  }

  lemma ParseShowNonNegative(n: int)
    requires n >= 0
    ensures ParseInt(ShowInt(n)) == Some(n)
  {
    ParseDigits(ShowNat(n));
    ShowNatValue(n);
  }

  /** `int` ignores whitespace around its argument. */
  lemma ParseIntPadded(w1: string, s: string, w2: string)
    requires SpaceBetween(IntSpaces, w1, 0, |w1|) && SpaceBetween(IntSpaces, w2, 0, |w2|)
    ensures ParseInt(w1 + s + w2) == ParseInt(s)
  {
    StripPadded(IntSpaces, w1, s, w2);
  }

  /**
   * `int` does not skip the information separators U+001C to U+001F, which
   * `str.strip()` removes: text that starts with one is never a number.
   */
  lemma SeparatorStopsInt(s: string)
    requires |s| > 0 && '\U{1c}' <= s[0] <= '\U{1f}'
    ensures ParseInt(s) == None
  {
    assert !IsBlank(IntSpaces, s[0]);
    LeadAt(IntSpaces, s, 0);
    TrailPast(IntSpaces, s, 0);
    assert Strip(IntSpaces, s)[0] == s[0];
  }

  /** `str.strip()` does remove such a separator: "\x1f4".strip() is "4". */
  lemma SeparatorStripped()
    ensures Strip(StrSpaces, "\U{1f}4") == "4"
  {
    var s := "\U{1f}4";
    LeadAt(StrSpaces, s, 1);
    TrailAt(StrSpaces, s, 2);
  }

  /** A rendered integer contains neither colons nor line boundaries. */
  lemma ShowIntPlain(n: int)
    ensures ':' !in ShowInt(n)
    ensures NoLineBreak(ShowInt(n))
  {
  }
}
