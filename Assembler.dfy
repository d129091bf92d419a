/** `assemble_transcript()` (assemble_transcript.py lines 46-88): turns the
    capture files, in the order given, into one Markdown transcript whose
    entries alternate PROMPT and RESPONSE and share a number per pair. */
module Assembler {
  import opened Strings
  import opened Entries
  import opened Sequences

  /** The number of the first prompt/response pair. */
  const StartIndex: nat := 1

  /** The whole transcript document and the count that is reported with it. */
  datatype Transcript = Transcript(document: string, entriesProcessed: int)

  // ---------------------------------------------------------------------------
  // The transcript, position by position

  /** An even position holds a prompt, an odd one a response. */
  function RoleAt(i: nat): Role {
    if i % 2 == 0 then Prompt else Response
  }

  /** The number shown in the header at position i. */
  function IndexAt(i: nat): nat {
    StartIndex + i / 2
  }

  /** The four segments the file at position i contributes, in order. */
  function EntrySegments(i: nat, f: CaptureFile): (b: seq<string>)
    ensures |b| == 4
  {
    [Header(RoleAt(i), IndexAt(i)), Quote(EntryContent(f)), Separator, HintLine(f.name)]
  }

  /** The segments of every file, file by file. */
  function Blocks(files: seq<CaptureFile>): (bs: seq<seq<string>>)
    ensures |bs| == |files|
    ensures forall k :: 0 <= k < |bs| ==> |bs[k]| == 4
  {
    var bs := MapIndexed(files, EntrySegments);
    assert forall k :: 0 <= k < |bs| ==> |bs[k]| == 4 by {
      forall k | 0 <= k < |bs| ensures |bs[k]| == 4 {
        MapIndexedAt(files, EntrySegments, k);
      }
    }
    bs
  }

  /** All segments of the transcript, file after file; four per file. */
  function Segments(files: seq<CaptureFile>): (segs: seq<string>)
    ensures |segs| == 4 * |files|
  {
    FlattenAt(Blocks(files), 0);
    Flatten(Blocks(files))
  }

  /** The transcript document: the segments joined by newlines. */
  function Document(files: seq<CaptureFile>): string {
    Join(Segments(files), "\n")
  }

  /** One more file adds its four segments at the end. */
  lemma SegmentsAppend(files: seq<CaptureFile>, f: CaptureFile)
    ensures Segments(files + [f]) == Segments(files) + EntrySegments(|files|, f)
  {
    MapIndexedAppend(files, f, EntrySegments);
    FlattenAppend(Blocks(files), EntrySegments(|files|, f));
  }

  /** One more file adds its four segments after those of the files before it. */
  lemma SegmentsStep(files: seq<CaptureFile>, i: nat)
    requires i < |files|
    ensures Segments(files[..i + 1]) == Segments(files[..i]) + EntrySegments(i, files[i])
  {
    assert files[..i + 1] == files[..i] + [files[i]];
    SegmentsAppend(files[..i], files[i]);
  }

  /** Iteration i of the loop: appending the header, the quoted content, the
      separator and the hint to the segments of the first i files gives the
      segments of the first i + 1. */
  lemma LoopStep(files: seq<CaptureFile>, i: nat)
    requires i < |files|
    ensures Segments(files[..i]) + [Header(RoleAt(i), IndexAt(i))] + [Quote(EntryContent(files[i]))]
              + [Separator] + [HintLine(files[i].name)] == Segments(files[..i + 1])
  {
    var header, content := Header(RoleAt(i), IndexAt(i)), EntryContent(files[i]);
    AppendFour(Segments(files[..i]), header, Quote(content), Separator, HintLine(files[i].name));
    assert [header, Quote(content), Separator, HintLine(files[i].name)] == EntrySegments(i, files[i]);
    SegmentsStep(files, i);
  }

  /** Segments 4i .. 4i+3 are those of file i, and there are 4N in all. */
  lemma SegmentsAt(files: seq<CaptureFile>, i: nat)
    requires i < |files|
    ensures Segments(files)[4 * i..4 * i + 4] == EntrySegments(i, files[i])
  {
    FlattenAt(Blocks(files), i);
    MapIndexedAt(files, EntrySegments, i);
  }

  /** Segment p = 4i + k is segment k of file i. */
  lemma SegmentOf(files: seq<CaptureFile>, i: nat, k: nat, p: nat)
    requires i < |files| && k < 4 && p == 4 * i + k
    ensures Segments(files)[p] == EntrySegments(i, files[i])[k]
  {
    FlattenIndex(Blocks(files), i, k, p);
    MapIndexedAt(files, EntrySegments, i);
  }

  // ---------------------------------------------------------------------------
  // The assembly loop

  /** Builds the transcript the way the source does: an empty list yields
      nothing; otherwise each file appends its header, its quoted content, the
      separator and its hint, and the running number goes up after each
      response. What is reported is the final number minus one, which is the
      number of complete prompt/response pairs. */
  method AssembleTranscript(files: seq<CaptureFile>) returns (result: Option<Transcript>)
    ensures files == [] <==> result == None
    ensures files != [] ==> result == Some(Transcript(Document(files), |files| / 2))
  {
    if files == [] {
      return None;
    }
    var currentIndex: nat := StartIndex;
    var outputLines: seq<string> := [];
    for i := 0 to |files|
      invariant currentIndex == StartIndex + i / 2
      invariant outputLines == Segments(files[..i])
    {
      var isPrompt := i % 2 == 0;
      var header: string;
      if isPrompt {
        header := Header(Prompt, currentIndex);
      } else {
        header := Header(Response, currentIndex);
      }
      outputLines := outputLines + [header];

      var content := EntryContent(files[i]);
      outputLines := outputLines + [Quote(content)];
      outputLines := outputLines + [Separator];
      outputLines := outputLines + [HintLine(files[i].name)];

      assert header == Header(RoleAt(i), IndexAt(i));
      LoopStep(files, i);
      if !isPrompt {
        currentIndex := currentIndex + 1;
      }
    }
    assert files[..|files|] == files;
    result := Some(Transcript(Join(outputLines, "\n"), currentIndex - 1));
  }

  // ---------------------------------------------------------------------------
  // Properties of the transcript

  /** The header of file i is `# PROMPT` for even i and `# RESPONSE` for odd i,
      followed by `StartIndex + i / 2`. */
  lemma HeaderAt(files: seq<CaptureFile>, i: nat)
    requires i < |files|
    ensures ParseHeader(Segments(files)[4 * i]) ==
      Some((if i % 2 == 0 then Prompt else Response, StartIndex + i / 2))
  {
    SegmentOf(files, i, 0, 4 * i);
    ParseHeaderOfHeader(RoleAt(i), IndexAt(i));
  }

  /** A prompt and the response right after it carry the same number. */
  lemma PairSharesIndex(files: seq<CaptureFile>, i: nat)
    requires i % 2 == 0 && i + 1 < |files|
    ensures exists n: nat ::
      ParseHeader(Segments(files)[4 * i]) == Some((Prompt, n)) &&
      ParseHeader(Segments(files)[4 * (i + 1)]) == Some((Response, n))
  {
    HeaderAt(files, i);
    HeaderAt(files, i + 1);
    assert (i + 1) / 2 == i / 2;
  }

  /** With an odd number of files the last is a prompt with no response; its
      number is one more than the count that is reported. */
  lemma TrailingPrompt(files: seq<CaptureFile>)
    requires |files| % 2 == 1
    ensures ParseHeader(Segments(files)[4 * (|files| - 1)]) == Some((Prompt, |files| / 2 + 1))
  {
    var last := |files| - 1;
    assert last % 2 == 0 && last / 2 == |files| / 2;
    HeaderAt(files, last);
  }

  /** File i's content, blockquoted, follows its header; reading the
      blockquote back gives the content (the stripped text, or the placeholder
      for a file that could not be read). */
  lemma ContentAt(files: seq<CaptureFile>, i: nat)
    requires i < |files|
    ensures Unquote(Segments(files)[4 * i + 1]) == Some(EntryContent(files[i]))
  {
    SegmentOf(files, i, 1, 4 * i + 1);
    UnquoteOfQuote(EntryContent(files[i]));
  }

  /** Segment 4i+2 is the `---` separator. */
  lemma SeparatorAt(files: seq<CaptureFile>, i: nat)
    requires i < |files|
    ensures Segments(files)[4 * i + 2] == Separator
  {
    SegmentOf(files, i, 2, 4 * i + 2);
  }

  /** Segment 4i+3 is the hint line, and it names file i. */
  lemma HintAt(files: seq<CaptureFile>, i: nat)
    requires i < |files|
    ensures HintFileName(Segments(files)[4 * i + 3]) == Some(files[i].name)
  {
    SegmentOf(files, i, 3, 4 * i + 3);
    HintFileNameOfHint(files[i].name);
  }

  /** Adding a file at the end adds its entry at the end of the document and
      leaves everything before it unchanged, so entries appear in the order of
      the input list. */
  lemma DocumentAppend(files: seq<CaptureFile>, f: CaptureFile)
    ensures Document(files + [f]) ==
      if files == [] then Join(EntrySegments(0, f), "\n")
      else Document(files) + "\n" + Join(EntrySegments(|files|, f), "\n")
  {
    SegmentsAppend(files, f);
    if files == [] {
      assert Segments(files) == [];
      assert Segments(files) + EntrySegments(0, f) == EntrySegments(0, f);
    } else {
      JoinAppend(Segments(files), EntrySegments(|files|, f), "\n");
    }
  }

  // ---------------------------------------------------------------------------
  // Counting headers

  /** 1 if the segment is a header for the given role, otherwise 0. */
  function HeaderCountOf(s: string, role: Role): nat {
    match ParseHeader(s)
    case Some((r, _)) => if r == role then 1 else 0
    case None => 0
  }

  /** How many of the segments are headers for the given role. */
  function CountHeaders(segs: seq<string>, role: Role): nat {
    if segs == [] then 0
    else CountHeaders(segs[..|segs| - 1], role) + HeaderCountOf(segs[|segs| - 1], role)
  }

  lemma CountHeadersFour(a: string, b: string, c: string, d: string, role: Role)
    ensures CountHeaders([a, b, c, d], role) ==
      HeaderCountOf(a, role) + HeaderCountOf(b, role) + HeaderCountOf(c, role) + HeaderCountOf(d, role)
  {
    var s4, s3, s2, s1 := [a, b, c, d], [a, b, c], [a, b], [a];
    assert s4[..3] == s3 && s3[..2] == s2 && s2[..1] == s1 && s1[..0] == [];
    assert CountHeaders(s1, role) == HeaderCountOf(a, role);
    assert CountHeaders(s2, role) == CountHeaders(s1, role) + HeaderCountOf(b, role);
    assert CountHeaders(s3, role) == CountHeaders(s2, role) + HeaderCountOf(c, role);
  }

  lemma {:induction false} CountHeadersAppend(a: seq<string>, b: seq<string>, role: Role)
    ensures CountHeaders(a + b, role) == CountHeaders(a, role) + CountHeaders(b, role)
  {
    if b == [] {
      assert a + b == a;
    } else {
      var ab := a + b;
      assert ab[..|ab| - 1] == a + b[..|b| - 1];
      assert ab[|ab| - 1] == b[|b| - 1];
      CountHeadersAppend(a, b[..|b| - 1], role);
    }
  }

  /** Of a file's four segments only the first is a header, and it is one for
      the role of its position. */
  lemma CountEntryHeaders(i: nat, f: CaptureFile, role: Role)
    ensures CountHeaders(EntrySegments(i, f), role) == if RoleAt(i) == role then 1 else 0
  {
    var e := EntrySegments(i, f);
    CountHeadersFour(e[0], e[1], e[2], e[3], role);
    assert [e[0], e[1], e[2], e[3]] == e;
    ParseHeaderOfHeader(RoleAt(i), IndexAt(i));
    QuoteIsNotHeader(EntryContent(f));
    SeparatorAndHintAreNotHeaders(f.name);
  }

  /** A transcript of N files has (N + 1) / 2 PROMPT headers and N / 2
      RESPONSE headers. */
  lemma {:induction false} HeaderCounts(files: seq<CaptureFile>, role: Role)
    ensures CountHeaders(Segments(files), role) == if role == Prompt then (|files| + 1) / 2 else |files| / 2
  {
    if files != [] {
      var n := |files| - 1;
      HeaderCounts(files[..n], role);
      SegmentsStep(files, n);
      assert files[..n + 1] == files;
      CountHeadersAppend(Segments(files[..n]), EntrySegments(n, files[n]), role);
      CountEntryHeaders(n, files[n], role);
      if n % 2 == 0 {
        assert RoleAt(n) == Prompt && (n + 2) / 2 == (n + 1) / 2 + 1 && (n + 1) / 2 == n / 2;
      } else {
        assert RoleAt(n) == Response && (n + 2) / 2 == (n + 1) / 2 && (n + 1) / 2 == n / 2 + 1;
      }
    }
  }
}
