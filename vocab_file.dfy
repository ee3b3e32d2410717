/** The vocabulary file: `_write_vocab` writes one `"{index}\t{token}\n"`
    line per token and `_read_vocab` takes the token column back, line by
    line. The file is modelled as the text it holds. */
module VocabFile {
  import opened Common

  predicate IsDigit(c: char)
  {
    '0' <= c <= '9'
  }

  function DigitChar(d: nat): char
    requires d < 10
  {
    (d + '0' as int) as char
  }

  /** `'{}'.format(n)` for a non-negative integer. */
  function NatToString(n: nat): (s: string)
    ensures |s| > 0
    ensures forall i :: 0 <= i < |s| ==> IsDigit(s[i])
    decreases n
  {
    if n < 10 then [DigitChar(n)] else NatToString(n / 10) + [DigitChar(n % 10)]
  }

  /** The value of a string of decimal digits. */
  function DigitsValue(s: string): nat
    requires forall i :: 0 <= i < |s| ==> IsDigit(s[i])
  {
    if s == [] then 0
    else
      assert IsDigit(s[|s| - 1]);
      10 * DigitsValue(s[..|s| - 1]) + (s[|s| - 1] as int - '0' as int)
  }

  /** The index written for position `n` reads back as `n`. */
  lemma {:induction false} IndexColumnRoundTrip(n: nat)
    ensures DigitsValue(NatToString(n)) == n
    decreases n
  {
    if n >= 10 {
      var s := NatToString(n);
      assert s[..|s| - 1] == NatToString(n / 10);
      IndexColumnRoundTrip(n / 10);
    }
  }

  /** The whitespace `int()` ignores around a numeral (ASCII range). */
  predicate IsSpace(c: char)
  {
    c == ' ' || 9 <= c as int <= 13 || 28 <= c as int <= 31
  }

  function TrimLeft(s: string): string
  {
    if s != [] && IsSpace(s[0]) then TrimLeft(s[1..]) else s
  }

  function TrimRight(s: string): string
  {
    if s != [] && IsSpace(s[|s| - 1]) then TrimRight(s[..|s| - 1]) else s
  }

  /** Decimal digits, with single underscores allowed between two digits. */
  predicate IsDigitGroups(s: string)
  {
    && |s| > 0
    && IsDigit(s[0])
    && forall i :: 0 <= i < |s| ==> IsDigit(s[i]) || (s[i] == '_' && i + 1 < |s| && IsDigit(s[i + 1]))
  }

  /** Does `int(field)` succeed? */
  predicate IsIntLiteral(field: string)
  {
    var b := TrimRight(TrimLeft(field));
    |b| > 0 && if b[0] == '+' || b[0] == '-' then IsDigitGroups(b[1..]) else IsDigitGroups(b)
  }

  lemma WrittenIndexParses(n: nat)
    ensures IsIntLiteral(NatToString(n))
  {
    var s := NatToString(n);
    assert TrimLeft(s) == s;
    assert TrimRight(s) == s;
  }

  /** `s.split(sep)`: each character either ends a field (the separator)
      or joins the first field of the rest. */
  function Split(s: string, sep: char): (parts: seq<string>)
    ensures |parts| >= 1
  {
    if s == [] then [""]
    else
      var rest := Split(s[1..], sep);
      if s[0] == sep then [""] + rest else [[s[0]] + rest[0]] + rest[1..]
  }

  /** The lines iterating over a text file yields, each with its `'\n'`:
      a newline ends a line, any other character joins the first line of
      the rest. */
  function Lines(s: string): seq<string>
  {
    if s == [] then []
    else
      var rest := Lines(s[1..]);
      if s[0] == '\n' || rest == [] then [[s[0]]] + rest else [[s[0]] + rest[0]] + rest[1..]
  }

  /** `s.replace(c, '')`. */
  function Delete(s: string, c: char): string
  {
    if s == [] then "" else (if s[0] == c then "" else [s[0]]) + Delete(s[1..], c)
  }

  function FormatLine(index: nat, token: string): string
  {
    NatToString(index) + "\t" + token + "\n"
  }

  /** The whole text `_write_vocab` leaves in the file. */
  function FormatVocab(v: seq<string>): string
  {
    if v == [] then "" else FormatVocab(v[..|v| - 1]) + FormatLine(|v| - 1, v[|v| - 1])
  }

  /** One iteration of `_read_vocab`: split on tabs, `int()` the first field,
      and keep the second without its newline. The source stores the integer
      back into the split list and never uses it, so only whether `int()`
      succeeds matters here; `IndexColumnRoundTrip` states the value it would
      have for a written line. */
  function ParseLine(line: string): Result<string>
  {
    var fields := Split(line, '\t');
    if !IsIntLiteral(fields[0]) then Failure(BadIndexColumn(fields[0]))
    else if |fields| < 2 then Failure(MissingTokenColumn(line))
    else Success(Delete(fields[1], '\n'))
  }

  /** The tokens gathered from a run of lines, and the error that stopped it, if any. */
  datatype Read = Read(tokens: seq<string>, failure: Option<Error>)

  function ReadLines(lines: seq<string>): Read
  {
    if lines == [] then Read([], None)
    else
      var before := ReadLines(lines[..|lines| - 1]);
      if before.failure.Some? then before
      else match ParseLine(lines[|lines| - 1])
        case Success(t) => Read(before.tokens + [t], None)
        case Failure(e) => Read(before.tokens, Some(e))
  }

  /** What `_read_vocab` makes of a whole file. */
  function ParseVocab(content: string): Result<seq<string>>
  {
    var r := ReadLines(Lines(content));
    if r.failure.Some? then Failure(r.failure.value) else Success(r.tokens)
  }

  /** Once a line fails, later lines are not read. */
  lemma {:induction false} ReadLinesStops(lines: seq<string>, k: nat)
    requires k <= |lines|
    requires ReadLines(lines[..k]).failure.Some?
    ensures ReadLines(lines) == ReadLines(lines[..k])
    decreases |lines|
  {
    if k < |lines| {
      var shorter := lines[..|lines| - 1];
      assert shorter[..k] == lines[..k];
      ReadLinesStops(shorter, k);
    } else {
      assert lines[..k] == lines;
    }
  }

  /** A token the file can carry: no tab (it would split the columns) and no
      line break (text-mode reading ends a line at `'\n'` and at `'\r'`). */
  predicate Clean(token: string)
  {
    '\t' !in token && '\n' !in token && '\r' !in token
  }

  lemma {:induction false} DeleteAbsent(s: string, c: char)
    requires c !in s
    ensures Delete(s, c) == s
  {
    if s != [] {
      DeleteAbsent(s[1..], c);
    }
  }

  lemma DeleteNewline(token: string)
    requires '\n' !in token
    ensures Delete(token + "\n", '\n') == token
  {
    DeleteAppend(token, "\n", '\n');
    DeleteAbsent(token, '\n');
  }

  lemma {:induction false} DeleteAppend(a: string, b: string, c: char)
    ensures Delete(a + b, c) == Delete(a, c) + Delete(b, c)
  {
    if a == [] {
      assert a + b == b;
    } else {
      assert (a + b)[1..] == a[1..] + b;
      DeleteAppend(a[1..], b, c);
    }
  }

  /** Without a separator the text is one field. */
  lemma {:induction false} SplitNone(s: string, sep: char)
    requires sep !in s
    ensures Split(s, sep) == [s]
  {
    if s != [] {
      SplitNone(s[1..], sep);
      assert [s[0]] + s[1..] == s;
    }
  }

  /** A separator after a separator-free prefix ends the first field there. */
  lemma {:induction false} SplitAt(a: string, sep: char, b: string)
    requires sep !in a
    ensures Split(a + [sep] + b, sep) == [a] + Split(b, sep)
  {
    if a == [] {
      assert a + [sep] + b == [sep] + b;
      assert ([sep] + b)[1..] == b;
    } else {
      assert (a + [sep] + b)[1..] == a[1..] + [sep] + b;
      SplitAt(a[1..], sep, b);
      assert [a[0]] + a[1..] == a;
    }
  }

  /** A newline-free text followed by a newline is one line. */
  lemma {:induction false} LinesOne(body: string)
    requires '\n' !in body
    ensures Lines(body + "\n") == [body + "\n"]
  {
    if body == [] {
      assert body + "\n" == "\n" && "\n"[1..] == [];
    } else {
      assert (body + "\n")[1..] == body[1..] + "\n";
      LinesOne(body[1..]);
      assert [body[0]] + (body[1..] + "\n") == body + "\n";
    }
  }

  lemma AppendHead(a: string, b: string)
    requires a != []
    ensures (a + b)[0] == a[0] && (a + b)[1..] == a[1..] + b
  {
  }

  lemma JoinFirst(x: string, l: seq<string>, m: seq<string>)
    requires l != []
    ensures [x + (l + m)[0]] + (l + m)[1..] == ([x + l[0]] + l[1..]) + m
  {
    assert (l + m)[1..] == l[1..] + m;
  }

  /** A text of whole lines keeps its lines apart from whatever follows. */
  lemma {:induction false} LinesAppend(a: string, b: string)
    requires a == [] || a[|a| - 1] == '\n'
    ensures Lines(a + b) == Lines(a) + Lines(b)
  {
    if a == [] {
      assert a + b == b;
    } else {
      var c, rest := a[0], a[1..];
      AppendHead(a, b);
      if rest == [] {
        assert rest + b == b;
      } else {
        assert rest[|rest| - 1] == a[|a| - 1];
        LinesAppend(rest, b);
        if c != '\n' {
          JoinFirst([c], Lines(rest), Lines(b));
        }
      }
    }
  }

  /** A written line is a single line of the file. */
  lemma FormatLineIsOneLine(index: nat, token: string)
    requires Clean(token)
    ensures Lines(FormatLine(index, token)) == [FormatLine(index, token)]
  {
    var body := NatToString(index) + "\t" + token;
    assert FormatLine(index, token) == body + "\n";
    assert '\n' !in body;
    LinesOne(body);
  }

  /** The fields of a written line: the index, then the token with its newline. */
  lemma FormatLineFields(index: nat, token: string)
    requires Clean(token)
    ensures Split(FormatLine(index, token), '\t') == [NatToString(index), token + "\n"]
  {
    var digits := NatToString(index);
    assert FormatLine(index, token) == digits + ['\t'] + (token + "\n");
    assert '\t' !in digits;
    SplitAt(digits, '\t', token + "\n");
    SplitNone(token + "\n", '\t');
  }

  /** A written line reads back as its token. */
  lemma FormatLineReads(index: nat, token: string)
    requires Clean(token)
    ensures ParseLine(FormatLine(index, token)) == Success(token)
  {
    FormatLineFields(index, token);
    WrittenIndexParses(index);
    DeleteNewline(token);
  }

  lemma FormatVocabEndsLine(v: seq<string>)
    ensures FormatVocab(v) == [] || FormatVocab(v)[|FormatVocab(v)| - 1] == '\n'
  {
  }

  /** Appending a token to the vocabulary appends its line to the file's lines. */
  lemma FormatVocabSnoc(v: seq<string>)
    requires v != [] && Clean(v[|v| - 1])
    ensures Lines(FormatVocab(v)) == Lines(FormatVocab(v[..|v| - 1])) + [FormatLine(|v| - 1, v[|v| - 1])]
  {
    var init := v[..|v| - 1];
    FormatVocabEndsLine(init);
    LinesAppend(FormatVocab(init), FormatLine(|v| - 1, v[|v| - 1]));
    FormatLineIsOneLine(|v| - 1, v[|v| - 1]);
  }

  /** The file holds one line per token, in vocabulary order, each line
      carrying the token's position. */
  lemma {:induction false} FormatVocabLines(v: seq<string>)
    requires forall t :: t in v ==> Clean(t)
    ensures |Lines(FormatVocab(v))| == |v|
    ensures forall i :: 0 <= i < |v| ==> Lines(FormatVocab(v))[i] == FormatLine(i, v[i])
  {
    if v != [] {
      var init := v[..|v| - 1];
      assert forall t :: t in init ==> t in v;
      FormatVocabLines(init);
      FormatVocabSnoc(v);
    }
  }

  /** Reading one more good line appends its token. */
  lemma ReadLinesSnoc(lines: seq<string>, line: string)
    requires ReadLines(lines).failure.None? && ParseLine(line).Success?
    ensures ReadLines(lines + [line]) == Read(ReadLines(lines).tokens + [ParseLine(line).value], None)
  {
    assert (lines + [line])[..|lines|] == lines;
  }

  /** A file whose lines are those of a readable prefix and one more good
      line reads as the prefix's tokens and that line's token. */
  lemma ParseVocabSnoc(content: string, prefix: string, line: string, init: seq<string>, last: string)
    requires Lines(content) == Lines(prefix) + [line]
    requires ParseVocab(prefix) == Success(init)
    requires ParseLine(line) == Success(last)
    ensures ParseVocab(content) == Success(init + [last])
  {
    ReadLinesSnoc(Lines(prefix), line);
  }

  lemma LastSplit<T>(v: seq<T>)
    requires v != []
    ensures v == v[..|v| - 1] + [v[|v| - 1]]
  {
  }

  /** Reading back what was written gives the same vocabulary, as long as
      no token holds a tab or a newline. */
  lemma {:induction false} VocabRoundTrip(v: seq<string>)
    requires forall t :: t in v ==> Clean(t)
    ensures ParseVocab(FormatVocab(v)) == Success(v)
  {
    if v != [] {
      var init, last := v[..|v| - 1], v[|v| - 1];
      assert forall t :: t in init ==> t in v;
      VocabRoundTrip(init);
      FormatVocabSnoc(v);
      FormatLineReads(|v| - 1, last);
      ParseVocabSnoc(FormatVocab(v), FormatVocab(init), FormatLine(|v| - 1, last), init, last);
      LastSplit(v);
    }
  }
}
