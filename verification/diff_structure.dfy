/** The pass that turns unified-diff lines into hunk records. It is the same
    state machine in `DiffService.generate_diff` (over the lines difflib
    yields, backend/app/services/diff_service.py lines 34-74) and in
    `DiffService.parse_diff_from_text` (over the `splitlines()` of user text,
    lines 136-188); the parser additionally collects an error for every `@@`
    line that is not a valid header.

    In the source the "current hunk" is a reference that is set whenever a
    hunk is appended and never cleared, so it is present exactly when some hunk
    has been appended, and it is always the last one. The functional scan below
    therefore keeps only the hunks and the rejected header lines, and attaches
    body lines to the last hunk; the method `ParseDiffFromText` keeps the
    reference explicitly. */
module DiffStructure {
  import opened Wrappers
  import opened DiffModel
  import HunkHeader
  import Lines
  import Seqs

  const InvalidHeaderPrefix := "Invalid hunk header: "
  const NoOperations := "No valid diff operations found"

  /** What one line means to the scan, decided in the order the source tests:
      file headers first, then `@@`, then the body prefixes. A rejected `@@`
      line keeps its text, which goes into the error message. */
  datatype LineClass =
    | FileHeader
    | ValidHeader(range: HunkHeader.Range)
    | InvalidHeader(line: string)
    | Body(body: DiffLine)
    | Unrecognised

  /** `line.startswith('---') or line.startswith('+++')`. */
  predicate IsFileHeader(line: string) {
    |line| >= 3 && ((line[0] == '-' && line[1] == '-' && line[2] == '-') || (line[0] == '+' && line[1] == '+' && line[2] == '+'))
  }

  /** `line.startswith('@@')`. */
  predicate IsHeaderMarker(line: string) {
    |line| >= 2 && line[0] == '@' && line[1] == '@'
  }

  /** `line.startswith(c)` for a one-character `c`. */
  predicate StartsWithChar(line: string, c: char) {
    |line| >= 1 && line[0] == c
  }

  function Classify(line: string): LineClass {
    if IsFileHeader(line) then FileHeader
    else if IsHeaderMarker(line) then
      match HunkHeader.Parse(line)
      case Some(r) => ValidHeader(r)
      case None => InvalidHeader(line)
    else if StartsWithChar(line, '-') then Body(DiffLine(Delete, line[1..]))
    else if StartsWithChar(line, '+') then Body(DiffLine(Add, line[1..]))
    else if StartsWithChar(line, ' ') then Body(DiffLine(Context, line[1..]))
    else Unrecognised
  }

  /** The class of every line, in order. */
  function Classes(input: seq<string>): (cs: seq<LineClass>)
    ensures |cs| == |input|
  {
    Seqs.Map(Classify, input)
  }

  /** Each line's class is the classification of that line alone. */
  lemma ClassesAt(input: seq<string>, i: int)
    requires 0 <= i < |input|
    ensures Classes(input)[i] == Classify(input[i])
  {
    Seqs.MapAt(Classify, input, i);
  }

  /** The hunks built so far and the `@@` lines that were not valid headers. */
  datatype Scan = Scan(hunks: seq<Hunk>, invalid: seq<string>)

  const Start := Scan([], [])

  /** The record a valid header creates: its four numbers and no lines yet. */
  function NewHunk(r: HunkHeader.Range): Hunk {
    Hunk(r.origStart, r.origCount, r.modStart, r.modCount, [])
  }

  /** Appends `d` to the lines of the last hunk. */
  function Attach(hunks: seq<Hunk>, d: DiffLine): seq<Hunk>
    requires |hunks| > 0
  {
    var last := hunks[|hunks| - 1];
    hunks[..|hunks| - 1] + [last.(lines := last.lines + [d])]
  }

  /** Attaching to the last hunk is updating it in place. */
  lemma AttachUpdates(hunks: seq<Hunk>, d: DiffLine)
    requires |hunks| > 0
    ensures var k := |hunks| - 1;
      Attach(hunks, d) == hunks[k := hunks[k].(lines := hunks[k].lines + [d])]
  {
  }

  /** What the loop body does with one line of class `c`. */
  function Step(s: Scan, c: LineClass): Scan {
    match c
    case ValidHeader(r) => s.(hunks := s.hunks + [NewHunk(r)])
    case InvalidHeader(line) => s.(invalid := s.invalid + [line])
    case Body(d) => if |s.hunks| == 0 then s else s.(hunks := Attach(s.hunks, d))
    case _ => s
  }

  /** The scan after reading lines of the classes `cs` in order, starting
      from `s`. */
  function Feed(s: Scan, cs: seq<LineClass>): Scan
    decreases |cs|
  {
    if |cs| == 0 then s
    else Step(Feed(s, cs[..|cs| - 1]), cs[|cs| - 1])
  }

  function Run(input: seq<string>): Scan {
    Feed(Start, Classes(input))
  }

  // ---------------------------------------------------------------------
  // The three operations.

  /** The structuring pass of `generate_diff` over the lines of a unified
      diff. */
  function Structure(stream: seq<string>): seq<Hunk> {
    Run(stream).hunks
  }

  /** difflib's `unified_diff(a, b, n=context_lines, lineterm='')`, which
      this model does not compute. */
  type UnifiedDiff = (seq<string>, seq<string>, int) -> seq<string>

  /** `generate_diff(original, modified, context_lines)`. With a context
      length of zero or more, difflib yields no lines at all for two equal
      line lists; under that assumption, texts with the same lines give no
      hunks. (A negative context length makes difflib emit a hunk even for
      equal lists, so it is not covered.) */
  function GenerateDiff(original: string, modified: string, contextLines: int, unifiedDiff: UnifiedDiff): (r: seq<Hunk>)
    requires contextLines >= 0
    requires forall a: seq<string> :: unifiedDiff(a, a, contextLines) == []
    ensures Lines.SplitLines(original) == Lines.SplitLines(modified) ==> r == []
  {
    Structure(unifiedDiff(Lines.SplitLines(original), Lines.SplitLines(modified), contextLines))
  }

  datatype ParseOutcome = ParseOutcome(operations: seq<Hunk>, errors: seq<string>)

  /** One message per rejected header line, in order. */
  function InvalidMessages(lines: seq<string>): (r: seq<string>)
    ensures |r| == |lines|
    ensures forall i :: 0 <= i < |lines| ==> r[i] == InvalidHeaderPrefix + lines[i]
    decreases |lines|
  {
    if |lines| == 0 then []
    else InvalidMessages(lines[..|lines| - 1]) + [InvalidHeaderPrefix + lines[|lines| - 1]]
  }

  /** The result shaping at the end of `parse_diff_from_text`: one message per
      rejected header, or the single fallback message when nothing at all was
      found. */
  function Outcome(s: Scan): (r: ParseOutcome)
    ensures r.operations == s.hunks
    ensures |r.operations| > 0 || |r.errors| > 0
    ensures r.errors == [NoOperations] <==> |s.hunks| == 0 && |s.invalid| == 0
  {
    var errors := InvalidMessages(s.invalid);
    if |s.hunks| == 0 && |errors| == 0 then
      ParseOutcome(s.hunks, [NoOperations])
    else
      var r := ParseOutcome(s.hunks, errors);
      assert |errors| == 1 ==> errors[0] != NoOperations by {
        if |errors| == 1 {
          assert errors[0][0] == 'I';
          assert NoOperations[0] == 'N';
        }
      }
      r
  }

  /** `parse_diff_from_text(diff_text)`. It never raises: every text yields
      a result. */
  function Parse(diffText: string): ParseOutcome {
    Outcome(Run(Lines.SplitLines(diffText)))
  }

  /** How the loop's variables stand for a scan: the operations are its
      hunks, the errors its messages, and the current hunk is the last one. */
  ghost predicate Mirrors(s: Scan, operations: seq<Hunk>, errors: seq<string>, current: Option<nat>) {
    && operations == s.hunks
    && errors == InvalidMessages(s.invalid)
    && current == if |operations| == 0 then None else Some(|operations| - 1)
  }

  /** The body of the source's loop for one line, on the current hunk kept
      as an optional index into the operations. */
  method ParseLine(operations: seq<Hunk>, errors: seq<string>, current: Option<nat>, line: string, ghost s: Scan)
    returns (operations': seq<Hunk>, errors': seq<string>, current': Option<nat>)
    requires Mirrors(s, operations, errors, current)
    ensures Mirrors(Step(s, Classify(line)), operations', errors', current')
  {
    operations', errors', current' := operations, errors, current;
    if IsFileHeader(line) {
      assert Classify(line) == FileHeader;
    } else if IsHeaderMarker(line) {
      match HunkHeader.Parse(line)
      case Some(r) =>
        assert Classify(line) == ValidHeader(r);
        operations' := operations + [NewHunk(r)];
        current' := Some(|operations'| - 1);
      case None =>
        assert Classify(line) == InvalidHeader(line);
        assert (s.invalid + [line])[..|s.invalid|] == s.invalid;
        errors' := errors + [InvalidHeaderPrefix + line];
    } else if current.Some? {
      var k := current.value;
      var h := operations[k];
      var d: DiffLine;
      if StartsWithChar(line, '-') {
        d := DiffLine(Delete, line[1..]);
      } else if StartsWithChar(line, '+') {
        d := DiffLine(Add, line[1..]);
      } else if StartsWithChar(line, ' ') {
        d := DiffLine(Context, line[1..]);
      } else {
        assert Classify(line) == Unrecognised;
        return;
      }
      assert Classify(line) == Body(d);
      AttachUpdates(operations, d);
      operations' := operations[k := h.(lines := h.lines + [d])];
    } else {
      assert Classify(line).Body? || Classify(line) == Unrecognised;
    }
  }

  /** The source's loop over the lines, then the result shaping. */
  method ParseDiffFromText(diffText: string) returns (operations: seq<Hunk>, errors: seq<string>)
    ensures ParseOutcome(operations, errors) == Parse(diffText)
  {
    var input := Lines.SplitLines(diffText);
    ghost var cs := Classes(input);
    operations := [];
    errors := [];
    var current: Option<nat> := None;
    var i := 0;
    while i < |input|
      invariant 0 <= i <= |input|
      invariant Mirrors(Feed(Start, cs[..i]), operations, errors, current)
    {
      assert cs[..i + 1][..i] == cs[..i];
      ClassesAt(input, i);
      operations, errors, current := ParseLine(operations, errors, current, input[i], Feed(Start, cs[..i]));
      i := i + 1;
    }
    assert cs[..i] == cs;
    if |operations| == 0 && |errors| == 0 {
      errors := [NoOperations];
    }
  }

  // ---------------------------------------------------------------------
  // Reference descriptions of what the scan collects.

  /** The ranges of the valid headers, in input order. */
  function ValidRanges(cs: seq<LineClass>): seq<HunkHeader.Range>
    decreases |cs|
  {
    if |cs| == 0 then []
    else
      ValidRanges(cs[..|cs| - 1])
        + match cs[|cs| - 1] case ValidHeader(r) => [r] case _ => []
  }

  /** The rejected `@@` lines, in input order. */
  function InvalidLines(cs: seq<LineClass>): seq<string>
    decreases |cs|
  {
    if |cs| == 0 then []
    else
      InvalidLines(cs[..|cs| - 1])
        + match cs[|cs| - 1] case InvalidHeader(line) => [line] case _ => []
  }

  /** The body lines, in input order. */
  function Bodies(cs: seq<LineClass>): seq<DiffLine>
    decreases |cs|
  {
    if |cs| == 0 then []
    else
      Bodies(cs[..|cs| - 1])
        + match cs[|cs| - 1] case Body(d) => [d] case _ => []
  }

  predicate HasValidHeader(cs: seq<LineClass>) {
    exists i :: 0 <= i < |cs| && cs[i].ValidHeader?
  }

  // ---------------------------------------------------------------------
  // Properties of the scan.

  lemma {:induction false} FeedAppend(s: Scan, a: seq<LineClass>, b: seq<LineClass>)
    ensures Feed(s, a + b) == Feed(Feed(s, a), b)
    decreases |b|
  {
    if |b| == 0 {
      assert a + b == a;
    } else {
      assert (a + b)[..|a + b| - 1] == a + b[..|b| - 1];
      assert (a + b)[|a + b| - 1] == b[|b| - 1];
      FeedAppend(s, a, b[..|b| - 1]);
    }
  }

  lemma ClassesAppend(a: seq<string>, b: seq<string>)
    ensures Classes(a + b) == Classes(a) + Classes(b)
  {
    Seqs.MapAppend(Classify, a, b);
  }

  /** One hunk is created per valid header, in header order, carrying that
      header's four numbers. */
  lemma {:induction false} HunksFollowHeaders(cs: seq<LineClass>)
    ensures |Feed(Start, cs).hunks| == |ValidRanges(cs)|
    ensures forall i :: 0 <= i < |Feed(Start, cs).hunks| ==>
      Feed(Start, cs).hunks[i].(lines := []) == NewHunk(ValidRanges(cs)[i])
    decreases |cs|
  {
    if |cs| > 0 {
      var init := cs[..|cs| - 1];
      HunksFollowHeaders(init);
      var before := Feed(Start, init).hunks;
      var after := Feed(Start, cs).hunks;
      match cs[|cs| - 1]
      case ValidHeader(r) =>
        assert ValidRanges(cs) == ValidRanges(init) + [r];
      case Body(d) =>
        assert ValidRanges(cs) == ValidRanges(init) + [];
        if |before| > 0 {
          assert forall i :: 0 <= i < |after| ==> after[i].(lines := []) == before[i].(lines := []);
        }
      case FileHeader =>
        assert ValidRanges(cs) == ValidRanges(init) + [];
      case InvalidHeader(_) =>
        assert ValidRanges(cs) == ValidRanges(init) + [];
      case Unrecognised =>
        assert ValidRanges(cs) == ValidRanges(init) + [];
    }
  }

  /** Every `@@` line that is not a valid header is collected, once, in input
      order; nothing else is. */
  lemma {:induction false} FeedCollectsInvalid(cs: seq<LineClass>)
    ensures Feed(Start, cs).invalid == InvalidLines(cs)
    decreases |cs|
  {
    if |cs| > 0 {
      FeedCollectsInvalid(cs[..|cs| - 1]);
    }
  }

  /** Before the first valid header nothing is recorded: body lines there are
      dropped. */
  lemma {:induction false} NoHunkBeforeHeader(cs: seq<LineClass>)
    requires !HasValidHeader(cs)
    ensures Feed(Start, cs).hunks == []
    decreases |cs|
  {
    if |cs| > 0 {
      HeaderFreeParts(cs);
      NoHunkBeforeHeader(cs[..|cs| - 1]);
    }
  }

  /** The scan state after a valid header with range `r` read from state `s`
      and then lines of the classes `segment`, none of them a valid header. */
  function AfterHeader(s: Scan, r: HunkHeader.Range, segment: seq<LineClass>): Scan {
    Scan(s.hunks + [NewHunk(r).(lines := Bodies(segment))], s.invalid + InvalidLines(segment))
  }

  lemma AfterHeaderStep(s: Scan, r: HunkHeader.Range, segment: seq<LineClass>, c: LineClass)
    requires !c.ValidHeader?
    ensures Step(AfterHeader(s, r, segment), c) == AfterHeader(s, r, segment + [c])
  {
    var longer := segment + [c];
    assert longer[..|longer| - 1] == segment;
    assert longer[|longer| - 1] == c;
    var hunks := s.hunks + [NewHunk(r).(lines := Bodies(segment))];
    match c
    case Body(d) =>
      assert Bodies(longer) == Bodies(segment) + [d];
      assert InvalidLines(longer) == InvalidLines(segment) + [];
      assert Attach(hunks, d) == s.hunks + [NewHunk(r).(lines := Bodies(segment) + [d])];
    case InvalidHeader(line) =>
      assert Bodies(longer) == Bodies(segment) + [] == Bodies(segment);
      assert InvalidLines(longer) == InvalidLines(segment) + [line];
      assert s.invalid + InvalidLines(longer) == (s.invalid + InvalidLines(segment)) + [line];
    case FileHeader =>
      assert Bodies(longer) == Bodies(segment) + [] == Bodies(segment);
      assert InvalidLines(longer) == InvalidLines(segment) + [] == InvalidLines(segment);
    case Unrecognised =>
      assert Bodies(longer) == Bodies(segment) + [] == Bodies(segment);
      assert InvalidLines(longer) == InvalidLines(segment) + [] == InvalidLines(segment);
  }

  lemma FeedLast(s: Scan, cs: seq<LineClass>, c: LineClass)
    ensures Feed(s, cs + [c]) == Step(Feed(s, cs), c)
  {
    assert (cs + [c])[..|cs|] == cs;
  }

  lemma HeaderFreeParts(segment: seq<LineClass>)
    requires |segment| > 0
    requires !HasValidHeader(segment)
    ensures !HasValidHeader(segment[..|segment| - 1])
    ensures !segment[|segment| - 1].ValidHeader?
  {
    var init := segment[..|segment| - 1];
    forall i | 0 <= i < |init|
      ensures !init[i].ValidHeader?
    {
      assert init[i] == segment[i];
    }
  }

  lemma {:induction false} SegmentFromHeader(s: Scan, r: HunkHeader.Range, segment: seq<LineClass>)
    requires !HasValidHeader(segment)
    ensures Feed(s, [ValidHeader(r)] + segment) == AfterHeader(s, r, segment)
    decreases |segment|
  {
    if |segment| == 0 {
      assert [ValidHeader(r)] + segment == [] + [ValidHeader(r)];
      FeedLast(s, [], ValidHeader(r));
    } else {
      var init := segment[..|segment| - 1];
      var c := segment[|segment| - 1];
      HeaderFreeParts(segment);
      SegmentFromHeader(s, r, init);
      assert [ValidHeader(r)] + segment == ([ValidHeader(r)] + init) + [c];
      FeedLast(s, [ValidHeader(r)] + init, c);
      AfterHeaderStep(s, r, init, c);
      assert init + [c] == segment;
    }
  }

  /** A valid header followed by lines that contain no other valid header
      yields exactly one more hunk: the header's numbers, and as lines the
      body lines of that stretch in order. Rejected `@@` lines inside the
      stretch do not end it, so the body lines after them still land in this
      hunk. */
  lemma HunkOwnsItsBody(prefix: seq<string>, header: string, segment: seq<string>)
    requires Classify(header).ValidHeader?
    requires !HasValidHeader(Classes(segment))
    ensures Run(prefix + [header] + segment).hunks
      == Run(prefix).hunks + [NewHunk(Classify(header).range).(lines := Bodies(Classes(segment)))]
  {
    var r := Classify(header).range;
    var before := Classes(prefix);
    var after := Classes(segment);
    assert Classes(prefix + [header] + segment) == before + ([ValidHeader(r)] + after) by {
      ClassesAround(prefix, header, segment);
    }
    FeedAppend(Start, before, [ValidHeader(r)] + after);
    SegmentFromHeader(Feed(Start, before), r, after);
  }

  /** The classes of a text with one line singled out. */
  lemma ClassesAround(prefix: seq<string>, line: string, suffix: seq<string>)
    ensures Classes(prefix + [line] + suffix) == Classes(prefix) + ([Classify(line)] + Classes(suffix))
  {
    ClassesAppend(prefix + [line], suffix);
    ClassesAppend(prefix, [line]);
    assert Classes([line]) == [Classify(line)];
  }

  /** A line that the scan does not act on (a `---`/`+++` file header or a
      line with no recognised prefix) can be removed without changing
      anything, wherever it stands. */
  lemma IgnoredLineHasNoEffect(prefix: seq<string>, line: string, suffix: seq<string>)
    requires Classify(line).FileHeader? || Classify(line).Unrecognised?
    ensures Run(prefix + [line] + suffix) == Run(prefix + suffix)
  {
    var c := Classify(line);
    var before := Classes(prefix);
    var after := Classes(suffix);
    assert Classes(prefix + [line] + suffix) == before + ([c] + after) by {
      ClassesAround(prefix, line, suffix);
    }
    ClassesAppend(prefix, suffix);
    assert before + ([c] + after) == (before + [c]) + after;
    FeedAppend(Start, before + [c], after);
    FeedAppend(Start, before, after);
    FeedLast(Start, before, c);
  }

  /** The file-header test comes first, so a delete line whose content starts
      with `--`, or an add line whose content starts with `++`, is taken for a
      file header and lost, even inside a hunk. */
  lemma DoubledPrefixLineIsLost(content: string)
    ensures |content| >= 2 && content[0] == '-' && content[1] == '-' ==> Classify("-" + content) == FileHeader
    ensures |content| >= 2 && content[0] == '+' && content[1] == '+' ==> Classify("+" + content) == FileHeader
  {
  }

  /** A line that is neither a file header nor starts with `@@` becomes a
      delete, add or context line when it starts with `-`, `+` or a space,
      checked in that order, with the first character removed; every other
      line, the empty line included, is ignored. */
  lemma BodyLineClassification(line: string)
    requires !IsFileHeader(line) && !IsHeaderMarker(line)
    ensures |line| > 0 && line[0] == '-' ==> Classify(line) == Body(DiffLine(Delete, line[1..]))
    ensures |line| > 0 && line[0] == '+' ==> Classify(line) == Body(DiffLine(Add, line[1..]))
    ensures |line| > 0 && line[0] == ' ' ==> Classify(line) == Body(DiffLine(Context, line[1..]))
    ensures |line| == 0 || (line[0] != '-' && line[0] != '+' && line[0] != ' ') ==> Classify(line) == Unrecognised
  {
  }

  /** The parser's errors: one `Invalid hunk header: <line>` per rejected
      `@@` line, in input order, or else the fallback message alone when
      neither a valid nor a rejected header was found. */
  lemma ParseErrors(diffText: string)
    ensures var cs := Classes(Lines.SplitLines(diffText));
      Parse(diffText).errors
        == if |ValidRanges(cs)| == 0 && |InvalidLines(cs)| == 0 then [NoOperations]
           else InvalidMessages(InvalidLines(cs))
  {
    var cs := Classes(Lines.SplitLines(diffText));
    HunksFollowHeaders(cs);
    FeedCollectsInvalid(cs);
  }

  // ---------------------------------------------------------------------
  // Writing hunks out as text, and reading them back.

  function Prefix(k: LineKind): string {
    match k
    case Context => " "
    case Add => "+"
    case Delete => "-"
  }

  function RenderLine(d: DiffLine): string {
    Prefix(d.kind) + d.content
  }

  function RenderBody(lines: seq<DiffLine>): (r: seq<string>)
    ensures |r| == |lines|
    ensures forall i :: 0 <= i < |lines| ==> r[i] == RenderLine(lines[i])
  {
    seq(|lines|, i requires 0 <= i < |lines| => RenderLine(lines[i]))
  }

  /** A body line that the scan reads back as itself: no line break in it,
      and not shaped like a `---`/`+++` file header once its prefix is put in
      front. */
  predicate Writable(d: DiffLine) {
    && '\n' !in d.content
    && !(d.kind == Delete && |d.content| >= 2 && d.content[0] == '-' && d.content[1] == '-')
    && !(d.kind == Add && |d.content| >= 2 && d.content[0] == '+' && d.content[1] == '+')
  }

  predicate WritableHunk(h: Hunk) {
    && h.origStart >= 0 && h.origCount >= 0 && h.modStart >= 0 && h.modCount >= 0
    && forall i :: 0 <= i < |h.lines| ==> Writable(h.lines[i])
  }

  function HeaderOf(h: Hunk): HunkHeader.Range
    requires WritableHunk(h)
  {
    HunkHeader.Range(h.origStart, h.origCount, h.modStart, h.modCount)
  }

  function RenderHunk(h: Hunk): seq<string>
    requires WritableHunk(h)
  {
    [HunkHeader.Format(HeaderOf(h))] + RenderBody(h.lines)
  }

  /** Hunks as unified-diff lines, without the `---`/`+++` file headers. */
  function Render(hunks: seq<Hunk>): seq<string>
    requires forall i :: 0 <= i < |hunks| ==> WritableHunk(hunks[i])
    decreases |hunks|
  {
    if |hunks| == 0 then []
    else Render(hunks[..|hunks| - 1]) + RenderHunk(hunks[|hunks| - 1])
  }

  lemma ClassifyFormat(r: HunkHeader.Range)
    ensures Classify(HunkHeader.Format(r)) == ValidHeader(r)
  {
    HunkHeader.FormatMarked(r);
  }

  lemma ClassifyRendered(d: DiffLine)
    requires Writable(d)
    ensures Classify(RenderLine(d)) == Body(d)
  {
    var line := RenderLine(d);
    assert line[1..] == d.content;
    assert |line| >= 3 ==> line[1] == d.content[0] && line[2] == d.content[1];
  }

  /** The classes of body lines read back. */
  function BodyClasses(lines: seq<DiffLine>): (cs: seq<LineClass>)
    ensures |cs| == |lines|
    ensures forall i :: 0 <= i < |lines| ==> cs[i] == Body(lines[i])
  {
    seq(|lines|, i requires 0 <= i < |lines| => Body(lines[i]))
  }

  lemma RenderedClasses(lines: seq<DiffLine>)
    requires forall i :: 0 <= i < |lines| ==> Writable(lines[i])
    ensures Classes(RenderBody(lines)) == BodyClasses(lines)
  {
    forall i | 0 <= i < |lines|
      ensures Classes(RenderBody(lines))[i] == BodyClasses(lines)[i]
    {
      ClassesAt(RenderBody(lines), i);
      ClassifyRendered(lines[i]);
    }
  }

  lemma {:induction false} BodyClassesRead(lines: seq<DiffLine>)
    ensures Bodies(BodyClasses(lines)) == lines
    ensures !HasValidHeader(BodyClasses(lines))
    decreases |lines|
  {
    if |lines| > 0 {
      var init := lines[..|lines| - 1];
      var cs := BodyClasses(lines);
      BodyClassesRead(init);
      assert cs[..|cs| - 1] == BodyClasses(init);
      assert lines == init + [lines[|lines| - 1]];
    }
  }

  lemma {:induction false} BodyClassesNotInvalid(lines: seq<DiffLine>)
    ensures InvalidLines(BodyClasses(lines)) == []
    decreases |lines|
  {
    if |lines| > 0 {
      var cs := BodyClasses(lines);
      BodyClassesNotInvalid(lines[..|lines| - 1]);
      assert cs[..|cs| - 1] == BodyClasses(lines[..|lines| - 1]);
    }
  }

  /** The classes the written form of `hunks` should read as: per hunk, its
      header's range followed by its body lines. */
  function HunkClasses(hunks: seq<Hunk>): seq<LineClass>
    requires forall i :: 0 <= i < |hunks| ==> WritableHunk(hunks[i])
    decreases |hunks|
  {
    if |hunks| == 0 then []
    else
      var h := hunks[|hunks| - 1];
      HunkClasses(hunks[..|hunks| - 1]) + ([ValidHeader(HeaderOf(h))] + BodyClasses(h.lines))
  }

  /** Written hunks are classified as `HunkClasses` says. */
  lemma {:induction false} RenderClasses(hunks: seq<Hunk>)
    requires forall i :: 0 <= i < |hunks| ==> WritableHunk(hunks[i])
    ensures Classes(Render(hunks)) == HunkClasses(hunks)
    decreases |hunks|
  {
    if |hunks| > 0 {
      var init := hunks[..|hunks| - 1];
      var h := hunks[|hunks| - 1];
      RenderClasses(init);
      assert Render(hunks) == Render(init) + RenderHunk(h);
      OneHunkClasses(h);
      ClassesAppend(Render(init), RenderHunk(h));
    }
  }

  /** The classes of one written hunk: its header's range, then its body. */
  lemma OneHunkClasses(h: Hunk)
    requires WritableHunk(h)
    ensures Classes(RenderHunk(h)) == [ValidHeader(HeaderOf(h))] + BodyClasses(h.lines)
  {
    var header := HunkHeader.Format(HeaderOf(h));
    var body := RenderBody(h.lines);
    ClassesAppend([header], body);
    assert Classes([header]) == [ValidHeader(HeaderOf(h))] by {
      ClassifyFormat(HeaderOf(h));
    }
    RenderedClasses(h.lines);
  }

  /** Scanning those classes builds exactly the hunks. */
  lemma {:induction false} HunkClassesRead(hunks: seq<Hunk>)
    requires forall i :: 0 <= i < |hunks| ==> WritableHunk(hunks[i])
    ensures Feed(Start, HunkClasses(hunks)) == Scan(hunks, [])
    decreases |hunks|
  {
    if |hunks| > 0 {
      var init := hunks[..|hunks| - 1];
      var h := hunks[|hunks| - 1];
      HunkClassesRead(init);
      HunkReadBack(init, h);
      assert init + [h] == hunks;
      FeedAppend(Start, HunkClasses(init), [ValidHeader(HeaderOf(h))] + BodyClasses(h.lines));
    }
  }

  lemma {:induction false} RenderReadBack(hunks: seq<Hunk>)
    requires forall i :: 0 <= i < |hunks| ==> WritableHunk(hunks[i])
    ensures Run(Render(hunks)) == Scan(hunks, [])
  {
    RenderClasses(hunks);
    HunkClassesRead(hunks);
  }

  /** After the hunks `done`, the classes of one more written hunk add
      exactly that hunk. */
  lemma HunkReadBack(done: seq<Hunk>, h: Hunk)
    requires WritableHunk(h)
    ensures Feed(Scan(done, []), [ValidHeader(HeaderOf(h))] + BodyClasses(h.lines)) == Scan(done + [h], [])
  {
    var r := HeaderOf(h);
    var segment := BodyClasses(h.lines);
    BodyClassesRead(h.lines);
    BodyClassesNotInvalid(h.lines);
    SegmentFromHeader(Scan(done, []), r, segment);
    assert NewHunk(r).(lines := h.lines) == h;
  }

  /** Structuring the written form of well-formed hunks gives those hunks
      back. */
  lemma {:induction false} StructureRender(hunks: seq<Hunk>)
    requires forall i :: 0 <= i < |hunks| ==> WritableHunk(hunks[i])
    ensures Structure(Render(hunks)) == hunks
  {
    RenderReadBack(hunks);
  }

  /** Parsing the joined lines of a unified diff agrees with structuring those
      lines, operations and errors alike. A final empty line is lost by
      `splitlines()` but is ignored by the scan anyway. */
  lemma {:induction false} ParseAgreesWithStructure(stream: seq<string>)
    requires Lines.AllNoBreak(stream)
    ensures Parse(Lines.Join(stream)) == Outcome(Run(stream))
    ensures Parse(Lines.Join(stream)).operations == Structure(stream)
  {
    Lines.SplitLinesJoin(stream);
    if |stream| > 0 && stream[|stream| - 1] == "" {
      FinalEmptyLineIgnored(stream);
    }
  }

  lemma FinalEmptyLineIgnored(stream: seq<string>)
    requires |stream| > 0 && stream[|stream| - 1] == ""
    ensures Run(stream[..|stream| - 1]) == Run(stream)
  {
    var init := stream[..|stream| - 1];
    assert init + [""] == stream;
    ClassesAppend(init, [""]);
    assert Classes([""]) == [Unrecognised];
    FeedLast(Start, Classes(init), Unrecognised);
  }

  lemma {:induction false} RenderNoBreak(hunks: seq<Hunk>)
    requires forall i :: 0 <= i < |hunks| ==> WritableHunk(hunks[i])
    ensures Lines.AllNoBreak(Render(hunks))
    ensures |hunks| > 0 ==> Render(hunks)[|Render(hunks)| - 1] != ""
    decreases |hunks|
  {
    if |hunks| > 0 {
      var init := hunks[..|hunks| - 1];
      var h := hunks[|hunks| - 1];
      RenderNoBreak(init);
      RenderHunkNoBreak(h);
      AppendNoBreak(Render(init), RenderHunk(h));
    }
  }

  /** One hunk's lines have no line feed, and the last one is not empty. */
  lemma RenderHunkNoBreak(h: Hunk)
    requires WritableHunk(h)
    ensures Lines.AllNoBreak(RenderHunk(h))
    ensures RenderHunk(h)[|RenderHunk(h)| - 1] != ""
  {
    var body := RenderBody(h.lines);
    FormatNoBreak(HeaderOf(h));
    RenderBodyNoBreak(h.lines);
    assert |HunkHeader.Format(HeaderOf(h))| > 0 by {
      HunkHeader.FormatStart(HeaderOf(h));
    }
  }

  lemma AppendNoBreak(a: seq<string>, b: seq<string>)
    requires Lines.AllNoBreak(a) && Lines.AllNoBreak(b)
    requires |b| > 0 && b[|b| - 1] != ""
    ensures Lines.AllNoBreak(a + b)
    ensures (a + b)[|a + b| - 1] != ""
  {
    assert forall i :: |a| <= i < |a + b| ==> (a + b)[i] == b[i - |a|];
  }

  lemma FormatNoBreak(r: HunkHeader.Range)
    ensures '\n' !in HunkHeader.Format(r)
  {
    var d1, d2, d3, d4 := HunkHeader.Decimal(r.origStart), HunkHeader.Decimal(r.origCount),
      HunkHeader.Decimal(r.modStart), HunkHeader.Decimal(r.modCount);
    assert '\n' !in d1 && '\n' !in d2 && '\n' !in d3 && '\n' !in d4;
  }

  lemma RenderBodyNoBreak(lines: seq<DiffLine>)
    requires forall i :: 0 <= i < |lines| ==> Writable(lines[i])
    ensures Lines.AllNoBreak(RenderBody(lines))
  {
    var body := RenderBody(lines);
    forall i | 0 <= i < |body|
      ensures '\n' !in body[i]
    {
      assert Writable(lines[i]);
    }
  }

  /** Parser and generator agree: the text of well-formed hunks parses back to
      exactly those hunks with no errors. */
  lemma {:induction false} ParseRendered(hunks: seq<Hunk>)
    requires |hunks| > 0
    requires forall i :: 0 <= i < |hunks| ==> WritableHunk(hunks[i])
    ensures Parse(Lines.Join(Render(hunks))) == ParseOutcome(hunks, [])
  {
    RenderNoBreak(hunks);
    ParseAgreesWithStructure(Render(hunks));
    RenderReadBack(hunks);
  }

  /** The malformed-header example: the rejected header is reported, and the
      add line after it is dropped because no hunk exists yet. */
  lemma MalformedHeaderExample()
    ensures Parse("@@ not-a-header @@\n+added line")
      == ParseOutcome([], [InvalidHeaderPrefix + "@@ not-a-header @@"])
  {
    var bad := "@@ not-a-header @@";
    var add := "+added line";
    MalformedExampleLines(bad, add);
    MalformedExampleClasses(bad, add);
    var cs := Classes([bad, add]);
    assert cs[..1] == [InvalidHeader(bad)];
    assert cs[..1][..0] == [];
    assert Feed(Start, cs[..1]) == Scan([], [bad]);
    assert Feed(Start, cs) == Scan([], [bad]);
  }

  lemma {:induction false} MalformedExampleLines(bad: string, add: string)
    requires bad == "@@ not-a-header @@" && add == "+added line"
    ensures Lines.SplitLines("@@ not-a-header @@\n+added line") == [bad, add]
  {
    assert bad + "\n" + add == "@@ not-a-header @@\n+added line";
    Lines.SplitLinesJoin([bad, add]);
    assert Lines.Join([bad, add]) == Lines.Join([bad]) + "\n" + add;
  }

  lemma MalformedExampleClasses(bad: string, add: string)
    requires bad == "@@ not-a-header @@" && add == "+added line"
    ensures Classes([bad, add]) == [InvalidHeader(bad), Body(DiffLine(Add, "added line"))]
  {
    MalformedHeaderClass(bad);
    AddedLineClass(add);
    ClassesAt([bad, add], 0);
    ClassesAt([bad, add], 1);
  }

  lemma {:induction false} MalformedHeaderClass(bad: string)
    requires bad == "@@ not-a-header @@"
    ensures Classify(bad) == InvalidHeader(bad)
  {
    assert HunkHeader.Parse(bad).None? by {
      HunkHeader.NotPrefix("@@ -", bad, 3);
    }
    assert bad[0] == '@' && bad[1] == '@';
  }

  lemma AddedLineClass(add: string)
    requires add == "+added line"
    ensures Classify(add) == Body(DiffLine(Add, "added line"))
  {
    assert add[0] == '+' && add[1] == 'a';
  }
}
