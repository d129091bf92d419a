# Transcript assembler, modelled in Dafny

`assemble_transcript()` collects the markdown capture files of a chat session.
It writes them out as one Markdown transcript. Each file becomes one entry of
four segments:

1. a header, `# PROMPT n` for files at even positions and `# RESPONSE n` for
   files at odd positions;
2. the file's stripped text as a Markdown blockquote, with `"> "` before every
   line. A file that cannot be read gets the placeholder
   `[[ERROR READING FILE <name>: <error>]]` instead;
3. the separator `"\n---\n"`;
4. a hint line naming the file, so that it can be reopened in emacs with
   `(find-file "./captures/<name>")`.

The number `n` starts at `START_INDEX = 1` and goes up by one after each
response, so a prompt and the response after it share a number. The segments
are joined with newlines. The count that is reported is the final number minus
one, which is the number of complete prompt/response pairs.

The project has four modules:

- `Sequences`: generic facts about flattening a list of blocks and about
  building a list position by position.
- `Strings`: the Python string built-ins the function uses. These are
  `str.strip()`, a one-character `str.replace`, `"sep".join`, `str.split("\n")`
  (the yardstick for "every line is quoted") and `str(n)` for `n >= 0`.
- `Entries`: the four segments of one file, each with the function that reads
  it back. `ParseHeader` reads a header, `Unquote` reads a blockquote and
  `HintFileName` reads a hint line.
- `Assembler`: `AssembleTranscript`, the loop itself, written as a method.
  - It is proved against the function `Document`, which is the segments of
    every file joined by newlines.
  - The lemmas next to it state, position by position, what the transcript
    holds.

The filesystem is taken out. The input is the list of capture files in the
order the source iterates over them (the sorted file names). Each file is its
name plus the outcome of reading it: its text, or the read error as an opaque
message. The result is `None` for an empty list. Otherwise it is the document
that would be written together with the count that would be printed.

`START_INDEX = 1` is a module constant (assemble_transcript.py:27);
`Assembler.StartIndex` is fixed at 1.

## Model

| member | source | states |
|---|---|---|
| Assembler.AssembleTranscript | assemble_transcript.py:46-88 | An empty list yields `None`. Otherwise the result is the transcript `Document(files)`, which is the 4·N segments joined with `"\n"`, and the reported count is `current_index - 1 = N / 2`. The loop invariants are `current_index == START_INDEX + i / 2` and `output_lines == Segments(files[..i])`. |
| Assembler.LoopStep | assemble_transcript.py:59-78 | One iteration: appending the header, the quoted content, the separator and the hint to the segments of the first i files gives exactly the segments of the first i + 1 files. |
| Assembler.EntrySegments | assemble_transcript.py:64-78 | Each file contributes exactly four segments. |
| Assembler.Segments | assemble_transcript.py:54-78 | After N files the segment list has length 4·N. |
| Assembler.SegmentsAppend | assemble_transcript.py:54-78 | One more file at the end of the input adds its four segments at the end of the list. Everything before them is unchanged. |
| Assembler.SegmentsAt | assemble_transcript.py:64-78 | Segments 4i .. 4i+3 are, in order, the header, quoted content, separator and hint of file i. |
| Assembler.SegmentOf | assemble_transcript.py:64-78 | Segment 4i + k is segment k of file i. |
| Assembler.HeaderAt | assemble_transcript.py:54-62 | The header of file i reads back as `PROMPT` when i is even and `RESPONSE` when i is odd, with the number `START_INDEX + i / 2`. |
| Assembler.PairSharesIndex | assemble_transcript.py:80-82 | A prompt at an even position and the response right after it carry the same number. |
| Assembler.TrailingPrompt | assemble_transcript.py:81-88 | With an odd N the last entry is a `PROMPT` whose number is `N / 2 + 1`, one more than the reported count. |
| Assembler.ContentAt | assemble_transcript.py:67-73 | Reading back the blockquote of file i gives that file's content: its stripped text, or the error placeholder. |
| Assembler.SeparatorAt | assemble_transcript.py:74 | Segment 4i+2 is `"\n---\n"`. |
| Assembler.HintAt | assemble_transcript.py:78 | Segment 4i+3 is a hint line, and the file name read back from it is file i's name. |
| Assembler.DocumentAppend | assemble_transcript.py:86 | The document for the files plus one more is the earlier document, then `"\n"`, then the new file's entry. Entries therefore appear in input order. |
| Assembler.CountEntryHeaders | assemble_transcript.py:56-78 | Of one file's four segments exactly one is a header, and it is a header for the role of the file's position. |
| Assembler.HeaderCounts | assemble_transcript.py:54-82 | The segment list for N files has (N + 1) / 2 `PROMPT` headers and N / 2 `RESPONSE` headers. This counts the appended segments, not the lines of the joined document: a file name holding `"\n"` could add further header-looking lines through its hint. |
| Assembler.RoleAt | assemble_transcript.py:56 | No contract; the role of position i, characterised by `Assembler.HeaderAt` and `Assembler.PairSharesIndex`. |
| Assembler.IndexAt | assemble_transcript.py:50-62 | No contract; the running number `START_INDEX + i / 2` at position i, characterised by the loop invariant of `Assembler.AssembleTranscript`, `Assembler.HeaderAt` and `Assembler.TrailingPrompt`. |
| Assembler.Document | assemble_transcript.py:86 | No contract; the segments joined with `"\n"`, characterised by `Assembler.DocumentAppend` and `Strings.Lines`. |
| Entries.EntryContent | assemble_transcript.py:67-70 | The content has no whitespace at either end. For a readable file it is empty exactly when the text is all whitespace. For a file that could not be read it is the error placeholder. |
| Entries.ErrorPlaceholder | assemble_transcript.py:70 | The placeholder is `[[ERROR READING FILE `, then the file name, then `": "` and the error message, then `]]`, each at its own position, so the message is kept in full. |
| Entries.Header | assemble_transcript.py:59-62 | No contract; `# PROMPT n` or `# RESPONSE n`, characterised by `Entries.ParseHeaderOfHeader` and `Entries.HeaderOfParseHeader`. |
| Entries.ParseHeaderOfHeader | assemble_transcript.py:59-62 | A header reads back as the role and number it was made from. |
| Entries.HeaderOfParseHeader | assemble_transcript.py:59-62 | Any line that reads as a header is exactly the header for that role and number. So headers and their (role, number) pairs correspond one to one. |
| Entries.UnquoteOfQuote | assemble_transcript.py:73 | Removing the inserted `"> "` marks gives the content back. |
| Entries.QuoteKeepsNewlineCount | assemble_transcript.py:73 | The blockquote has as many newlines as the content. |
| Entries.QuoteMarksEveryLine | assemble_transcript.py:73 | The blockquote starts with `"> "`, and every newline in it is immediately followed by `"> "`. |
| Entries.QuoteLines | assemble_transcript.py:73 | Line k of the blockquote, as `split("\n")` gives it, is `"> "` followed by line k of the content, for every k. |
| Entries.Quote | assemble_transcript.py:73 | No contract; `"> "` before the content, characterised by `Entries.UnquoteOfQuote`, `Entries.QuoteMarksEveryLine` and `Entries.QuoteLines`. |
| Entries.QuoteNewlines | assemble_transcript.py:73 | No contract; the `replace("\n", "\n> ")` of the content, characterised by `Entries.UnquoteNewlinesOfQuote` and `Entries.QuoteNewlinesMarksEveryNewline`. |
| Entries.QuoteIsNotHeader | assemble_transcript.py:73 | A blockquote never reads as a header. |
| Entries.SeparatorAndHintAreNotHeaders | assemble_transcript.py:74-78 | Neither the separator nor a hint line reads as a header. |
| Entries.Separator | assemble_transcript.py:74 | A constant, `"\n---\n"`, characterised by `Assembler.SeparatorAt`. |
| Entries.HintLine | assemble_transcript.py:78 | No contract; the emacs `find-file` hint for a name, characterised by `Entries.HintFileNameOfHint`. |
| Entries.HintFileNameOfHint | assemble_transcript.py:78 | The hint line names exactly the file it was made for. |
| Strings.Strip | assemble_transcript.py:68 | `strip()` leaves no whitespace at either end, and its result is empty exactly when the input is all whitespace. |
| Strings.StripDecomposes | assemble_transcript.py:68 | The input is some whitespace, then the stripped text, then some more whitespace. `strip()` removes nothing else. |
| Strings.StripTrimmed | assemble_transcript.py:68 | A string with no whitespace at either end is left unchanged. |
| Strings.StripIdempotent | assemble_transcript.py:68 | Stripping twice is the same as stripping once. |
| Strings.ReplaceChar | assemble_transcript.py:73 | A string without the replaced character is unchanged. |
| Strings.Lines | assemble_transcript.py:73 | `split("\n")` gives one more piece than there are newlines. No piece contains a newline, and joining the pieces with `"\n"` gives the string back. |
| Strings.Join | assemble_transcript.py:86 | No contract; `sep.join(parts)`, characterised by `Strings.JoinAppend` and by `Strings.Lines`, whose pieces it joins back into the string. |
| Strings.JoinAppend | assemble_transcript.py:86 | Joining two non-empty lists gives the join of the first, one separator, then the join of the second. |
| Strings.NatToDecimal | assemble_transcript.py:60-62 | `str(n)` is a canonical decimal numeral: digits only, no leading zero, a single digit exactly when n < 10. |
| Strings.DecimalValueOfNat | assemble_transcript.py:60-62 | Reading `str(n)` back gives n. |
| Strings.NatToDecimalOfValue | assemble_transcript.py:60-62 | Every canonical numeral is `str` of its own value. So numbers and canonical numerals correspond one to one. |

## Left out

- Path resolution from the working directory, and the directory checks that print an error and exit or return (assemble_transcript.py lines 11-24 and 32-34). These are environment plumbing with no logic on the transcript.
- `SOURCE_DIR.glob("*.md")`, the `sorted` call and the error branch around them (lines 40-44). The model takes the file list in the order it is given, which is the sorted order the loop sees.
- UTF-8 decoding in `read_text` and the exception's message text (lines 67-70). A read is either the file's text or an error whose message is an opaque string.
- Text-mode newline translation in `read_text` (line 68). `Text(t)` holds the string `read_text` returns, after `"\r\n"` and `"\r"` have become `"\n"`; the model takes that string as given rather than the raw bytes of the file.
- `OUTPUT_FILE.write_text`, the success and count `print`s, and the branch for a failed write (lines 85-90). The model returns the document and the count instead; it does not model a write that fails.
- The "no markdown files" message printed for an empty list (line 47). The model returns `None`.
- Strings.Strip: whitespace is the ASCII subset of Python's `str.isspace`: space, U+0009..U+000D and U+001C..U+001F. Non-ASCII whitespace such as U+00A0 or U+2028, which Python's `strip()` also removes, is not modelled.
- Assembler.AssembleTranscript: the `try`/`except` around the read is taken from `Entries.EntryContent`, the function that models lines 67-70, rather than written out inside the loop. Its two outcomes are the two cases of `ReadResult`.
