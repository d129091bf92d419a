/** The pieces one capture file contributes to the transcript
    (assemble_transcript.py, loop body at lines 56-78): the role header, the
    content as a Markdown blockquote, the `---` separator and the emacs
    `find-file` hint. Each piece comes with the function that reads it back. */
module Entries {
  import opened Strings
  import opened Sequences

  // ---------------------------------------------------------------------------
  // Capture files

  /** What reading a capture file produced: the string `read_text` returns
      (already decoded, with `"\r\n"` and `"\r"` turned into `"\n"` by
      text-mode reading), or the message of the exception that reading
      raised, kept as an opaque string. */
  datatype ReadResult = Text(text: string) | ReadError(message: string)

  /** A capture file: its file name and the outcome of reading it. */
  datatype CaptureFile = CaptureFile(name: string, read: ReadResult)

  const ErrorPrefix: string := "[[ERROR READING FILE "

  /** The text that stands in for the content of a file that could not be read. */
  function ErrorPlaceholder(name: string, message: string): (p: string)
    ensures |p| == |ErrorPrefix| + |name| + 2 + |message| + 2
    ensures p[..|ErrorPrefix|] == ErrorPrefix && p[|p| - 2..] == "]]"
    ensures p[|ErrorPrefix|..|ErrorPrefix| + |name|] == name
    ensures p[|ErrorPrefix| + |name|..|p| - 2] == ": " + message
  {
    ErrorPrefix + name + ": " + message + "]]"
  }

  /** The content that goes into the blockquote: the stripped text, or the
      placeholder when the read failed. Either way it has no whitespace at
      either end, and a readable file that is all whitespace gives "". */
  function EntryContent(f: CaptureFile): (c: string)
    ensures IsTrimmed(c)
    ensures f.read.Text? ==> (c == [] <==> AllWhitespace(f.read.text))
    ensures f.read.ReadError? ==> c == ErrorPlaceholder(f.name, f.read.message)
  {
    match f.read
    case Text(t) => Strip(t)
    case ReadError(e) => ErrorPlaceholder(f.name, e)
  }

  // ---------------------------------------------------------------------------
  // Headers

  datatype Role = Prompt | Response

  function HeaderPrefix(role: Role): string {
    match role
    case Prompt => "# PROMPT "
    case Response => "# RESPONSE "
  }

  /** `# PROMPT n` or `# RESPONSE n`. */
  function Header(role: Role, index: nat): string {
    HeaderPrefix(role) + NatToDecimal(index)
  }

  predicate HasPrefix(s: string, p: string) {
    |p| <= |s| && s[..|p|] == p
  }

  /** Reads a header line back into its role and its number; `None` for any
      other line. */
  function ParseHeader(s: string): Option<(Role, nat)> {
    if HasPrefix(s, HeaderPrefix(Prompt)) && IsCanonicalDecimal(s[|HeaderPrefix(Prompt)|..]) then
      Some((Prompt, DecimalValue(s[|HeaderPrefix(Prompt)|..])))
    else if HasPrefix(s, HeaderPrefix(Response)) && IsCanonicalDecimal(s[|HeaderPrefix(Response)|..]) then
      Some((Response, DecimalValue(s[|HeaderPrefix(Response)|..])))
    else
      None
  }

  /** A header reads back as the role and number it was made from. */
  lemma ParseHeaderOfHeader(role: Role, index: nat)
    ensures ParseHeader(Header(role, index)) == Some((role, index))
  {
    var h := Header(role, index);
    var p := HeaderPrefix(role);
    assert h[..|p|] == p;
    assert h[|p|..] == NatToDecimal(index);
    DecimalValueOfNat(index);
    if role == Response {
      assert h[2] != HeaderPrefix(Prompt)[2];
    }
  }

  /** The only lines that read as headers are the headers themselves. */
  lemma HeaderOfParseHeader(s: string, role: Role, index: nat)
    requires ParseHeader(s) == Some((role, index))
    ensures s == Header(role, index)
  {
    var p := HeaderPrefix(role);
    var digits := s[|p|..];
    NatToDecimalOfValue(digits);
    assert s == s[..|p|] + digits;
  }

  /** A line that does not start with `#` is not a header. */
  lemma ParseHeaderNeedsHash(s: string)
    requires s == [] || s[0] != '#'
    ensures ParseHeader(s) == None
  {
  }

  // ---------------------------------------------------------------------------
  // Blockquote

  const QuoteMark: string := "> "

  /** The content with `"> "` after every newline (`replace(chr(10), chr(10) + '> ')`). */
  function QuoteNewlines(c: string): string {
    ReplaceChar(c, '\n', "\n" + QuoteMark)
  }

  /** The content as a Markdown blockquote: `"> "` before the first line and
      after every newline. */
  function Quote(c: string): string {
    QuoteMark + QuoteNewlines(c)
  }

  /** Takes out `"> "` after every newline. */
  function UnquoteNewlines(q: string): string {
    if q == [] then []
    else if HasPrefix(q, "\n" + QuoteMark) then "\n" + UnquoteNewlines(q[3..])
    else [q[0]] + UnquoteNewlines(q[1..])
  }

  /** Reads a blockquote back into the content; `None` if it does not start
      with `"> "`. */
  function Unquote(q: string): Option<string> {
    if HasPrefix(q, QuoteMark) then Some(UnquoteNewlines(q[2..])) else None
  }

  lemma {:induction false} UnquoteNewlinesOfQuote(c: string)
    ensures UnquoteNewlines(QuoteNewlines(c)) == c
  {
    if c != [] {
      var q := QuoteNewlines(c);
      UnquoteNewlinesOfQuote(c[1..]);
      if c[0] == '\n' {
        assert q == "\n> " + QuoteNewlines(c[1..]);
        assert q[..3] == "\n> " && q[3..] == QuoteNewlines(c[1..]);
        assert c == "\n" + c[1..];
      } else {
        assert q == [c[0]] + QuoteNewlines(c[1..]);
        assert q[1..] == QuoteNewlines(c[1..]);
        assert !HasPrefix(q, "\n" + QuoteMark) by {
          if |q| >= 3 { assert q[..3][0] == c[0]; }
        }
        assert c == [c[0]] + c[1..];
      }
    }
  }

  /** Removing the inserted `"> "` marks gives the content back. */
  lemma UnquoteOfQuote(c: string)
    ensures Unquote(Quote(c)) == Some(c)
  {
    var q := Quote(c);
    assert q[..2] == QuoteMark && q[2..] == QuoteNewlines(c);
    UnquoteNewlinesOfQuote(c);
  }

  lemma {:induction false} QuoteNewlinesKeepsCount(c: string)
    ensures CountChar(QuoteNewlines(c), '\n') == CountChar(c, '\n')
  {
    if c != [] {
      var head := if c[0] == '\n' then "\n" + QuoteMark else [c[0]];
      assert QuoteNewlines(c) == head + QuoteNewlines(c[1..]);
      CountCharAppend(head, QuoteNewlines(c[1..]), '\n');
      QuoteNewlinesKeepsCount(c[1..]);
      if c[0] == '\n' {
        assert head == ['\n'] + ['>'] + [' '];
        assert CountChar(head, '\n') == 1 by {
          assert head[1..] == "> " && head[1..][1..] == " " && head[1..][1..][1..] == [];
        }
      }
    }
  }

  /** The blockquote has exactly as many newlines as the content. */
  lemma QuoteKeepsNewlineCount(c: string)
    ensures CountChar(Quote(c), '\n') == CountChar(c, '\n')
  {
    CountCharAppend(QuoteMark, QuoteNewlines(c), '\n');
    QuoteNewlinesKeepsCount(c);
    assert QuoteMark[1..][1..] == [];
  }

  /** In the quoted content every newline is immediately followed by `"> "`. */
  lemma {:induction false} QuoteNewlinesMarksEveryNewline(c: string)
    ensures var q := QuoteNewlines(c);
      forall k :: 0 <= k < |q| && q[k] == '\n' ==> k + 2 < |q| && q[k + 1] == '>' && q[k + 2] == ' '
  {
    if c != [] {
      var head := if c[0] == '\n' then "\n" + QuoteMark else [c[0]];
      var rest := QuoteNewlines(c[1..]);
      var q := QuoteNewlines(c);
      assert q == head + rest;
      QuoteNewlinesMarksEveryNewline(c[1..]);
      forall k | 0 <= k < |q| && q[k] == '\n'
        ensures k + 2 < |q| && q[k + 1] == '>' && q[k + 2] == ' '
      {
        if k >= |head| {
          assert q[k] == rest[k - |head|];
          assert q[k + 1] == rest[k + 1 - |head|];
          assert q[k + 2] == rest[k + 2 - |head|];
        }
      }
    }
  }

  /** The blockquote starts with `"> "` and every newline in it is followed by
      `"> "`. */
  lemma QuoteMarksEveryLine(c: string)
    ensures var q := Quote(c);
      |q| >= 2 && q[0] == '>' && q[1] == ' ' &&
      forall k :: 0 <= k < |q| && q[k] == '\n' ==> k + 2 < |q| && q[k + 1] == '>' && q[k + 2] == ' '
  {
    var q := Quote(c);
    var r := QuoteNewlines(c);
    QuoteNewlinesMarksEveryNewline(c);
    forall k | 0 <= k < |q| && q[k] == '\n'
      ensures k + 2 < |q| && q[k + 1] == '>' && q[k + 2] == ' '
    {
      assert q[k] == r[k - 2];
      assert q[k + 1] == r[k - 1];
      assert q[k + 2] == r[k];
    }
  }

  lemma {:induction false} LinesOfLine(a: string)
    requires '\n' !in a
    ensures Lines(a) == [a]
  {
    if a != [] {
      LinesOfLine(a[1..]);
      assert a == [a[0]] + a[1..];
    }
  }

  /** A newline-free prefix joins onto the first line. */
  lemma {:induction false} LinesPrepend(a: string, b: string)
    requires '\n' !in a
    ensures Lines(a + b) == [a + Lines(b)[0]] + Lines(b)[1..]
  {
    if a == [] {
      assert a + b == b;
      assert a + Lines(b)[0] == Lines(b)[0];
      assert Lines(b) == [Lines(b)[0]] + Lines(b)[1..];
    } else {
      assert (a + b)[1..] == a[1..] + b;
      assert (a + b)[0] == a[0];
      LinesPrepend(a[1..], b);
      assert [a[0]] + (a[1..] + Lines(b)[0]) == a + Lines(b)[0];
    }
  }

  /** The lines of `p + QuoteNewlines(c)` for a newline-free prefix `p`: the
      first is `p` followed by the content's first line; every later one is
      `"> "` followed by the matching line of the content. */
  predicate QuotedLinesMatch(p: string, c: string) {
    var ls := Lines(p + QuoteNewlines(c));
    |ls| == |Lines(c)| && ls[0] == p + Lines(c)[0] &&
    forall k :: 1 <= k < |ls| ==> ls[k] == QuoteMark + Lines(c)[k]
  }

  /** A newline in the content ends the current line and starts a new one
      with `"> "`. */
  lemma LinesAfterNewline(p: string, c: string)
    requires '\n' !in p && c != [] && c[0] == '\n'
    requires QuotedLinesMatch(QuoteMark, c[1..])
    ensures QuotedLinesMatch(p, c)
  {
    var ls := Lines(p + QuoteNewlines(c));
    var tail := QuoteMark + QuoteNewlines(c[1..]);
    assert QuoteNewlines(c) == "\n" + QuoteMark + QuoteNewlines(c[1..]);
    AppendAssociates("\n", QuoteMark, QuoteNewlines(c[1..]));
    LinesPrepend(p, "\n" + tail);
    assert ("\n" + tail)[1..] == tail;
    assert Lines("\n" + tail) == [[]] + Lines(tail);
    assert Lines("\n" + tail)[0] == [] && Lines("\n" + tail)[1..] == Lines(tail);
    assert p + [] == p;
    assert ls == [p] + Lines(tail);
    assert c == "\n" + c[1..];
    assert Lines(c) == [[]] + Lines(c[1..]);
    assert p + Lines(c)[0] == p;
    forall k | 1 <= k < |ls| ensures ls[k] == QuoteMark + Lines(c)[k] {
      assert ls[k] == Lines(tail)[k - 1];
      assert Lines(c)[k] == Lines(c[1..])[k - 1];
    }
  }

  lemma {:induction false} LinesOfQuoteNewlines(p: string, c: string)
    requires '\n' !in p
    ensures QuotedLinesMatch(p, c)
    decreases |c|
  {
    if c == [] {
      assert p + QuoteNewlines(c) == p;
      LinesOfLine(p);
      assert p + [] == p;
    } else if c[0] == '\n' {
      LinesOfQuoteNewlines(QuoteMark, c[1..]);
      LinesAfterNewline(p, c);
    } else {
      var p' := p + [c[0]];
      assert p + QuoteNewlines(c) == p' + QuoteNewlines(c[1..]);
      LinesOfQuoteNewlines(p', c[1..]);
      var lc := Lines(c[1..]);
      assert Lines(c) == [[c[0]] + lc[0]] + lc[1..];
      AppendAssociates(p, [c[0]], lc[0]);
    }
  }

  /** Every line of the blockquote is `"> "` followed by the matching line of
      the content: `"line1\nline2"` becomes the lines `> line1` and `> line2`. */
  lemma QuoteLines(c: string)
    ensures |Lines(Quote(c))| == |Lines(c)|
    ensures forall k :: 0 <= k < |Lines(c)| ==> Lines(Quote(c))[k] == QuoteMark + Lines(c)[k]
  {
    LinesOfQuoteNewlines(QuoteMark, c);
  }

  /** A blockquote starts with `>`, so it never reads as a header. */
  lemma QuoteIsNotHeader(c: string)
    ensures ParseHeader(Quote(c)) == None
  {
    assert Quote(c)[0] == '>';
    ParseHeaderNeedsHash(Quote(c));
  }

  // ---------------------------------------------------------------------------
  // Separator and editor hint

  const Separator: string := "\n---\n"

  /** The hint's text, then the opening of the emacs `find-file` call on the
      file's path under `./captures/`. */
  const HintText: string := "Edit this prompt/response in emacs: "
  const FindFileOpen: string := "(find-file \"./captures/"
  const HintPrefix: string := HintText + FindFileOpen
  const HintSuffix: string := "\")\n\n"

  /** The line that lets a reader reopen the capture file in emacs. */
  function HintLine(name: string): string {
    HintPrefix + name + HintSuffix
  }

  /** Neither the separator nor a hint line reads as a header. */
  lemma SeparatorAndHintAreNotHeaders(name: string)
    ensures ParseHeader(Separator) == None
    ensures ParseHeader(HintLine(name)) == None
  {
    assert Separator[0] == '\n';
    ParseHeaderNeedsHash(Separator);
    assert HintLine(name)[0] == 'E';
    ParseHeaderNeedsHash(HintLine(name));
  }

  /** Reads the file name back out of a hint line. */
  function HintFileName(s: string): Option<string> {
    if |s| >= |HintPrefix| + |HintSuffix| && s[..|HintPrefix|] == HintPrefix && s[|s| - |HintSuffix|..] == HintSuffix then
      Some(s[|HintPrefix|..|s| - |HintSuffix|])
    else
      None
  }

  /** The hint line names exactly the file it was made for. */
  lemma HintFileNameOfHint(name: string)
    ensures HintFileName(HintLine(name)) == Some(name)
  {
    var h := HintLine(name);
    assert h[..|HintPrefix|] == HintPrefix;
    assert h[|h| - |HintSuffix|..] == HintSuffix;
    assert h[|HintPrefix|..|h| - |HintSuffix|] == name;
  }
}
