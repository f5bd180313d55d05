# TinyProof checking service: the diagnostic parser, in Dafny

The TinyProof server exposes one endpoint, `POST /check`. It writes the
submitted Lean source to a temporary `.lean` file, runs `lean` on it, and turns
what `lean` wrote to its error stream into a list of `LeanError(message, line,
column)` records returned as a `CheckResponse`. The only logic of its own is that
last step, and it is what this project models and proves things about:

- the error stream is cut into lines as Python's `str.splitlines()` does;
- each line is split on every `:`; a line counts only if it has at least four
  pieces and pieces 1 and 2 are integers for Python's `int()`;
- the record's line and column are those integers, its message is pieces 3
  onward rejoined with `:` and stripped of surrounding whitespace;
- every other line is skipped silently and in order, with no error.

Files and modules:

- `option.dfy` (`Wrappers`): the `Option` datatype that stands for "raises
  ValueError" (`None`) versus a value.
- `pystr.dfy` (`PyStr`): the Python string built-ins the parser calls:
  `str.isspace`, `str.strip()` (and the narrower whitespace `int()` skips),
  `str.split(sep)`, `sep.join(parts)`, `str.splitlines()`. Each has a partner: an independent definition of what it
  means (`IsStripOf`), or its inverse (`Join`, `JoinLines`), tied to it by a lemma.
- `pyint.dfy` (`PyInt`): Python's `int(s)` in base 10, with decimal rendering
  `ShowInt` as its partner (`int(str(n)) == n`).
- `seqs.dfy` (`Seqs`): keeping the results of a partial map over a sequence,
  in order (`FilterMap`), with its element-by-element and origin lemmas.
- `server.dfy` (`Server`): the records `LeanError` and `CheckResponse`
  (server/main.py:24-30), the per-line parser `ParseLine`, the whole-stream
  parser `ParseAll`, the imperative `CheckCode` loop that builds the list
  (server/main.py:55-68), and the properties of the parser. `FormatError`,
  `FormatAll` and `Render` describe the line format the checker writes,
  `<path>:<line>:<column>: <message>`, so that the parser can be proved to undo it.

The code splits each line on every colon and rejoins pieces 3 onward with
colons, so a message keeps the colons it contains. It puts no range check on
the line or column, so zero and negative numbers are kept as parsed. `int()`
and `str.strip()` do not skip the same whitespace: `int()` stops at the
information separators U+001C to U+001F, which `str.strip()` removes, so the
model strips with two whitespace sets (`PyStr.Spaces`).

## Model

| member | source | states |
|---|---|---|
| `Server.CheckCode` | server/main.py:55-68 | the loop over the stderr lines returns exactly `ParseAll` of those lines, so never more diagnostics than lines |
| `Server.ParseLine` | server/main.py:57-66 | a line yields a diagnostic exactly when it qualifies (at least four colon pieces, pieces 1 and 2 accepted by `int`); such a line has at least three colons, and the message it yields has no leading or trailing whitespace |
| `Server.ParseParts` | server/main.py:59-66 | the pieces yield a diagnostic exactly when there are at least four and `int` accepts pieces 1 and 2; the record's line and column are those integers and its message is the stripped join of pieces 3 onward |
| `Server.QualifyingLineKept` | server/main.py:59-64 | every qualifying line is kept, with line `int(parts[1])`, column `int(parts[2])` and message `":".join(parts[3:]).strip()` |
| `Server.ParseAllCount` | server/main.py:55-66 | the number of diagnostics equals the number of qualifying lines |
| `Server.OriginsQualify` | server/main.py:55-66 | a line is the origin of a diagnostic exactly when it qualifies |
| `Server.ParseAll` | server/main.py:56-64 | the diagnostics of a sequence of lines number at most the lines |
| `Server.ParseAllAppend` | server/main.py:56-64 | parsing is per line: the result for two blocks of lines is the result for the first followed by the result for the second |
| `Server.ParseAllOrigins` | server/main.py:56-64 | the k-th diagnostic is the one parsed from line `Origins[k]`; those line indices strictly increase (order kept, no line used twice, nothing sorted or deduplicated); every line that yields a diagnostic is among them, so the count equals the number of qualifying lines |
| `Server.NoColonLine` | server/main.py:58-59 | a line without any colon contributes nothing |
| `Server.ShortLineDropped` | server/main.py:58-59 | a line with fewer than three colons contributes nothing |
| `Server.NonIntegerDropped` | server/main.py:60-66 | a line of four or more pieces whose piece 1 or piece 2 is not an integer contributes nothing, and parsing is still defined (no error escapes) |
| `Server.NonIntegerLineNumber` | server/main.py:60-66 | for any path without colons and any tail, a non-integer line number makes the line contribute nothing |
| `Server.ParsedLineReconstruction` | server/main.py:57-63 | a parsed line equals `parts[0] + ":" + parts[1] + ":" + parts[2] + ":" + ":".join(parts[3:])`; its line and column are `int(parts[1])` and `int(parts[2])`, its message is the stripped join of pieces 3 onward |
| `Server.PathIrrelevant` | server/main.py:57-63 | the echoed path (piece 0, when it has no colon) does not affect the result |
| `Server.ParseFormat` | server/main.py:57-63 | a line written as `<path>:<line>:<column>: <message>` parses back to exactly that record, for every integer line and column (zero and negative ones included) and every message without surrounding whitespace, colons included |
| `Server.FormatErrorParts` | server/main.py:58 | the colon pieces of a formatted diagnostic are the path, the two numbers, and the pieces of the message part |
| `Server.FormatErrorOneLine` | server/main.py:56-57 | a formatted diagnostic holds no line boundary when its path and message hold none, so it stays one line of the stream |
| `Server.FormattedMessage` | server/main.py:63 | rejoining and stripping the message part gives the message back |
| `Server.ParseAllFormatAll` | server/main.py:56-64 | a sequence of formatted diagnostics parses back to the same diagnostics in the same order |
| `Server.RenderParse` | server/main.py:55-64 | end to end: when the checker writes each diagnostic on its own line, the parsed stream is exactly the list of diagnostics it wrote |
| `Server.ExampleError` | server/main.py:57-63 | `x.lean:4:10: error: something` gives line 4, column 10 and message `error: something` |
| `Server.ExampleNoRangeCheck` | server/main.py:61-62 | `x.lean:0:-3: error: m` gives line 0 and column -3 unchanged |
| `Server.ExampleNoColons` | server/main.py:58-59 | `no colons` gives nothing |
| `Server.ExampleBadLineNumber` | server/main.py:60-66 | `/tmp/x.lean:abc:10: error: bad` gives nothing |
| `Server.ExampleSeparatorBeforeNumber` | server/main.py:60-66 | `x.lean:\x1f4:10: m` gives nothing, because `int` does not skip U+001F |
| `Server.LettersNotInt` | server/main.py:61 | `int("abc")` fails |
| `Server.ExampleEmpty` | server/main.py:55-68 | empty stderr gives an empty list |
| `Seqs.FilterMap` | server/main.py:55-64 | keeping the values of a partial map never yields more results than inputs |
| `Seqs.FilterMapAppend` | server/main.py:55-64 | keeping values works element by element over a concatenation |
| `Seqs.FilterMapAllSome` | server/main.py:55-64 | when every element has a value, the result is exactly those values, in order |
| `Seqs.KeptLength` | server/main.py:55-64 | there are as many kept indices as results, each an index of the input |
| `Seqs.KeptValues` | server/main.py:55-64 | the k-th result is the value of the element at the k-th kept index |
| `Seqs.KeptIncreasing` | server/main.py:55-64 | kept indices strictly increase |
| `Seqs.KeptComplete` | server/main.py:55-64 | every element with a value is kept |
| `Seqs.FilterMapKept` | server/main.py:55-64 | each kept value comes from one element, in increasing element order, and every element with a value is kept |
| `PyStr.Split` | server/main.py:58 | `line.split(":")` has one more piece than the line has colons, and no piece contains a colon |
| `PyStr.JoinSplit` | server/main.py:58-63 | joining the split pieces with the separator gives the string back |
| `PyStr.SplitJoin` | server/main.py:58-63 | splitting a join of separator-free pieces gives the pieces back |
| `PyStr.SplitAt` | server/main.py:58 | the text before the first separator is the first piece, followed by the pieces of the rest |
| `PyStr.SplitThree` | server/main.py:58 | after three separator-free pieces, each followed by a separator, the remaining pieces are those of the rest |
| `PyStr.SplitNoSep` | server/main.py:58 | a text without the separator is one piece |
| `PyStr.JoinFirstThree` | server/main.py:63 | a join of four or more pieces is the first three pieces, each followed by the separator, then the join of the rest |
| `PyStr.Strip` | server/main.py:63 | the result has no whitespace of the chosen set at either end, and it is no longer than its argument |
| `PyStr.StripMeaning` | server/main.py:63 | `Strip`'s result is a slice of its argument with only whitespace before and after it, and no whitespace at its ends |
| `PyStr.TrailPast` | server/main.py:63 | the trailing whitespace begins after every non-whitespace character |
| `PyStr.StripIsUnique` | server/main.py:63 | any string meeting that description is `Strip`'s result: the description fixes the result |
| `PyStr.StripOfUnpadded` | server/main.py:63 | a string with no surrounding whitespace is unchanged by stripping |
| `PyStr.StripIdempotent` | server/main.py:63 | stripping twice is stripping once |
| `PyStr.StripPadded` | server/main.py:63 | whitespace added on either side does not change the strip |
| `PyStr.SplitLines` | server/main.py:56 | `splitlines()` yields lines without line boundaries, none for empty text, and no more lines than characters |
| `PyStr.SplitLinesJoinLines` | server/main.py:56 | lines without boundaries, each written with a `\n`, split back into the same lines |
| `PyStr.SplitLinesLast` | server/main.py:56 | a final line without terminator is a line of its own |
| `PyStr.SplitLinesCrLf` | server/main.py:56 | `\r\n` ends a line as one terminator |
| `PyStr.SplitLinesBreak` | server/main.py:56 | every other boundary character ends a line by itself, so empty lines between boundaries are kept |
| `PyInt.ParseInt` | server/main.py:61-62 | `int(s)` succeeds exactly when the text, stripped of the whitespace `int` skips (not U+001C to U+001F), is an optionally signed run of digits with single underscores between digits |
| `PyInt.ParseLiteral` | server/main.py:61-62 | on text without surrounding whitespace, `int` succeeds exactly on an optionally signed digit run; a `-` gives a value at most zero, otherwise at least zero |
| `PyInt.DigitsAreRun` | server/main.py:61-62 | a non-empty string of plain digits is a digit run |
| `PyInt.ShowInt` | server/main.py:61-62 | `str(n)` is non-empty and made of digits, with a minus sign allowed only in front |
| `PyInt.ParseShow` | server/main.py:61-62 | `int(str(n)) == n` for every integer |
| `PyInt.ParseShowNegative` | server/main.py:61-62 | `int(str(n)) == n` for negative `n` |
| `PyInt.ParseShowNonNegative` | server/main.py:61-62 | `int(str(n)) == n` for `n >= 0` |
| `PyInt.ParseDigits` | server/main.py:61-62 | a plain run of digits, leading zeros allowed, reads as its decimal value |
| `PyInt.ParseNegatedDigits` | server/main.py:61-62 | a minus sign followed by digits reads as the negated decimal value of the digits |
| `PyInt.ParseNegative` | server/main.py:61-62 | text without surrounding whitespace, made of a minus sign and a digit run, reads as the negated value of the run |
| `PyInt.NegativeShape` | server/main.py:61-62 | `str(n)` for negative `n` is a minus sign followed by the digits of its magnitude |
| `PyInt.ShowNatValue` | server/main.py:61-62 | the decimal digits of `n` read back as `n` |
| `PyInt.ShowIntPlain` | server/main.py:58 | `str(n)` holds no colon and no line boundary, so it never adds a piece or a line |
| `PyInt.ParseIntPadded` | server/main.py:61-62 | whitespace that `int` skips around the number, such as the space in `x.lean: 4:...`, is ignored |
| `PyInt.SeparatorStopsInt` | server/main.py:61-62 | text starting with one of U+001C to U+001F is not a number |
| `PyInt.SeparatorStripped` | server/main.py:63 | `str.strip()` does remove U+001F: `"\x1f4".strip() == "4"` |
| `PyInt.DigitsValueAppend` | server/main.py:61-62 | the digits of a suffix are the low-order decimal places of the value |
| `PyInt.UnderscoreValue` | server/main.py:61-62 | an underscore between digits does not change the value |
| `PyInt.RunEnds` | server/main.py:61-62 | a digit run starts and ends with a digit |
| `PyInt.RunJoin` | server/main.py:61-62 | two digit runs joined directly or by one underscore form a digit run |
| `PyInt.ParseUnderscore` | server/main.py:61-62 | `int("1_000") == int("1000")`: with or without one underscore between two runs, `int` accepts the text with the same value |
| `PyInt.ParseRun` | server/main.py:61-62 | a digit run, underscores included, reads as its value |

## Left out

- Writing the code to a temporary `.lean` file, its UTF-8 encoding, `flush`, and the file never being deleted (server/main.py:42-44): filesystem I/O.
- Running `lean` with `subprocess.Popen` and `communicate` (server/main.py:46-52): an external process. `CheckCode` takes the text of its error stream as a parameter; its standard output is read and ignored by `check_code`, and is not modelled.
- Decoding the error stream to text (`text=True`, server/main.py:50), including the translation of `\r\n` and `\r` to `\n`: the model starts from the decoded text. `SplitLines` treats `\r\n`, `\r` and `\n` as line ends, so the translation does not change the lines.
- The FastAPI application, its CORS middleware and pydantic validation of request and response (server/main.py:10-32): framework plumbing. `CodeRequest` is not modelled because its only field goes to the temporary file.
- PyInt.ParseInt: does not accept non-ASCII decimal digits (Python's `int` also reads digits of other scripts), because that needs the Unicode digit tables; such a line is treated as skipped where Python would parse it.
- PyInt.ParseInt: does not model the limit on the number of digits `int` converts (4300 by default in recent Python versions, where it raises ValueError), because it depends on the interpreter version and settings.
- The fine-tuning and inference scripts (pretraining_proof_gpt/train.py, pretraining_proof_gpt/inference.py): calls into machine-learning libraries, with floating point and randomness, and no logic of their own.
- The web editor (web/src/App.tsx): browser UI state, a debounced `fetch` and a tokenizer given as data to the Monaco library.
