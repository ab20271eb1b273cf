/** `apply_diff` as its own comment describes it ("context lines are ignored
    as they're already in the original"): a hunk's context lines are kept,
    so its deletions start after its leading context. Each hunk replaces the
    lines it expects (context and delete lines) at its anchor with the lines
    it leaves (context and add lines), and a hunk whose expected lines do not
    fit inside the working copy is reported instead of being clamped. Start
    lines are read as difflib writes them, so an empty old range (`-k,0`)
    means "after line `k`". */
module AnchoredApply {
  import opened Wrappers
  import opened DiffModel
  import Lines
  import DiffApply

  type Working = DiffApply.Working

  datatype ApplyError = HunkOutOfRange(origStart: int)

  /** Where a range of a unified diff starts, as `difflib` numbers it: a
      range that holds lines is named by its first line, counted from 1; an
      empty range is named by the line before it, so that `-k,0` means
      "after line `k`". `at` is the 0-based position of the range. */
  function RangeStart(at: nat, length: nat): (start: nat)
    ensures length > 0 ==> start - 1 == at
    ensures length == 0 ==> start == at
  {
    if length == 0 then at else at + 1
  }

  /** The 0-based position in the working copy where a hunk's old side
      starts, read back from its start line with the numbering above and
      moved by the running offset. */
  function Anchor(w: Working, h: Hunk): int {
    (if |OldSide(h.lines)| == 0 then h.origStart else h.origStart - 1) + w.offset
  }

  /** One hunk: `OldSide` replaced by `NewSide` at the anchor. */
  function ApplyHunk(w: Working, h: Hunk): (r: Result<Working, ApplyError>)
    ensures r.Failure? <==> Anchor(w, h) < 0 || Anchor(w, h) + |OldSide(h.lines)| > |w.lines|
    ensures r.Success? ==>
      && |r.value.lines| == |w.lines| - |OldSide(h.lines)| + |NewSide(h.lines)|
      && r.value.lines[..Anchor(w, h)] == w.lines[..Anchor(w, h)]
      && r.value.lines[Anchor(w, h)..Anchor(w, h) + |NewSide(h.lines)|] == NewSide(h.lines)
      && r.value.lines[Anchor(w, h) + |NewSide(h.lines)|..] == w.lines[Anchor(w, h) + |OldSide(h.lines)|..]
      && r.value.offset == w.offset + |NewSide(h.lines)| - |OldSide(h.lines)|
  {
    var at := Anchor(w, h);
    var oldSide := OldSide(h.lines);
    var newSide := NewSide(h.lines);
    if at < 0 || at + |oldSide| > |w.lines| then Failure(HunkOutOfRange(h.origStart))
    else Success(DiffApply.Working(w.lines[..at] + newSide + w.lines[at + |oldSide|..], w.offset + |newSide| - |oldSide|))
  }

  function ApplyEntry(w: Working, e: Entry): Result<Working, ApplyError> {
    match e
    case HunkEntry(h) => ApplyHunk(w, h)
    case OtherEntry(_) => Success(w)
  }

  /** The entries in list order; the first hunk that does not fit stops the
      application. */
  function ApplyAll(w: Working, ops: seq<Entry>): Result<Working, ApplyError>
    decreases |ops|
  {
    if |ops| == 0 then Success(w)
    else
      match ApplyAll(w, ops[..|ops| - 1])
      case Failure(e) => Failure(e)
      case Success(v) => ApplyEntry(v, ops[|ops| - 1])
  }

  function ApplyDiff(original: string, ops: seq<Entry>): Result<string, ApplyError> {
    match ApplyAll(DiffApply.Working(Lines.SplitLines(original), 0), ops)
    case Failure(e) => Failure(e)
    case Success(w) => Success(Lines.Join(w.lines))
  }

  // ---------------------------------------------------------------------
  // Applying a diff to the text it was made from.

  /** A stretch of unchanged lines followed by one hunk's lines. */
  datatype Piece = Piece(gap: seq<string>, lines: seq<DiffLine>)

  /** The text a sequence of pieces was made from. */
  function OldText(ps: seq<Piece>): seq<string>
    decreases |ps|
  {
    if |ps| == 0 then []
    else OldText(ps[..|ps| - 1]) + ps[|ps| - 1].gap + OldSide(ps[|ps| - 1].lines)
  }

  /** The text a sequence of pieces turns it into. */
  function NewText(ps: seq<Piece>): seq<string>
    decreases |ps|
  {
    if |ps| == 0 then []
    else NewText(ps[..|ps| - 1]) + ps[|ps| - 1].gap + NewSide(ps[|ps| - 1].lines)
  }

  /** The hunk of one piece placed after the pieces `before`: the start
      line in the old and in the new text, numbered as `RangeStart` does,
      and the lengths of its two sides. */
  function PieceHunk(before: seq<Piece>, p: Piece): Hunk {
    var oldSide := OldSide(p.lines);
    var newSide := NewSide(p.lines);
    Hunk(RangeStart(|OldText(before)| + |p.gap|, |oldSide|), |oldSide|,
         RangeStart(|NewText(before)| + |p.gap|, |newSide|), |newSide|,
         p.lines)
  }

  /** The hunks of the pieces, in order. */
  function HunksOf(ps: seq<Piece>): (ops: seq<Entry>)
    ensures |ops| == |ps|
    decreases |ps|
  {
    if |ps| == 0 then []
    else HunksOf(ps[..|ps| - 1]) + [HunkEntry(PieceHunk(ps[..|ps| - 1], ps[|ps| - 1]))]
  }

  /** Applying the hunks of a diff to the text the diff was made from, with
      any unchanged lines after the last hunk, gives the new text followed
      by those same lines. */
  lemma {:induction false} RoundTrip(ps: seq<Piece>, tail: seq<string>)
    ensures ApplyAll(DiffApply.Working(OldText(ps) + tail, 0), HunksOf(ps))
      == Success(DiffApply.Working(NewText(ps) + tail, |NewText(ps)| - |OldText(ps)|))
    decreases |ps|
  {
    if |ps| > 0 {
      var init := ps[..|ps| - 1];
      var p := ps[|ps| - 1];
      RoundTrip(init, p.gap + OldSide(p.lines) + tail);
      RoundTripStep(ps, tail);
    }
  }

  /** The induction step: the last piece after the others. */
  lemma RoundTripStep(ps: seq<Piece>, tail: seq<string>)
    requires |ps| > 0
    requires var init := ps[..|ps| - 1]; var p := ps[|ps| - 1];
      var tail' := p.gap + OldSide(p.lines) + tail;
      ApplyAll(DiffApply.Working(OldText(init) + tail', 0), HunksOf(init))
        == Success(DiffApply.Working(NewText(init) + tail', |NewText(init)| - |OldText(init)|))
    ensures ApplyAll(DiffApply.Working(OldText(ps) + tail, 0), HunksOf(ps))
      == Success(DiffApply.Working(NewText(ps) + tail, |NewText(ps)| - |OldText(ps)|))
  {
    LastPieceReached(ps, tail);
    PieceApplied(ps, tail);
  }

  /** Once the earlier hunks are applied as the induction hypothesis says,
      what is left is the last piece's hunk on their result. */
  lemma LastPieceReached(ps: seq<Piece>, tail: seq<string>)
    requires |ps| > 0
    requires var init := ps[..|ps| - 1]; var p := ps[|ps| - 1];
      var tail' := p.gap + OldSide(p.lines) + tail;
      ApplyAll(DiffApply.Working(OldText(init) + tail', 0), HunksOf(init))
        == Success(DiffApply.Working(NewText(init) + tail', |NewText(init)| - |OldText(init)|))
    ensures var init := ps[..|ps| - 1]; var p := ps[|ps| - 1];
      var tail' := p.gap + OldSide(p.lines) + tail;
      ApplyAll(DiffApply.Working(OldText(ps) + tail, 0), HunksOf(ps))
        == ApplyHunk(DiffApply.Working(NewText(init) + tail', |NewText(init)| - |OldText(init)|), PieceHunk(init, p))
  {
    var init := ps[..|ps| - 1];
    var p := ps[|ps| - 1];
    var tail' := p.gap + OldSide(p.lines) + tail;
    var e := HunkEntry(PieceHunk(init, p));
    HunksOfLast(ps);
    OldTextLast(ps, tail);
    ApplyAllSnoc(DiffApply.Working(OldText(init) + tail', 0), HunksOf(init), e);
  }

  lemma HunksOfLast(ps: seq<Piece>)
    requires |ps| > 0
    ensures HunksOf(ps) == HunksOf(ps[..|ps| - 1]) + [HunkEntry(PieceHunk(ps[..|ps| - 1], ps[|ps| - 1]))]
  {
  }

  lemma OldTextLast(ps: seq<Piece>, tail: seq<string>)
    requires |ps| > 0
    ensures var p := ps[|ps| - 1];
      OldText(ps) + tail == OldText(ps[..|ps| - 1]) + (p.gap + OldSide(p.lines) + tail)
  {
  }

  /** One more entry applies to the working copy the earlier ones leave. */
  lemma ApplyAllSnoc(w: Working, ops: seq<Entry>, e: Entry)
    ensures ApplyAll(w, ops + [e])
      == match ApplyAll(w, ops) case Failure(x) => Failure(x) case Success(v) => ApplyEntry(v, e)
  {
    assert (ops + [e])[..|ops|] == ops;
  }

  /** The hunk of the last piece, applied where its text stands after the
      earlier pieces were applied, turns its old side into its new side. */
  lemma PieceApplied(ps: seq<Piece>, tail: seq<string>)
    requires |ps| > 0
    ensures var init := ps[..|ps| - 1]; var p := ps[|ps| - 1];
      var tail' := p.gap + OldSide(p.lines) + tail;
      ApplyHunk(DiffApply.Working(NewText(init) + tail', |NewText(init)| - |OldText(init)|), PieceHunk(init, p))
        == Success(DiffApply.Working(NewText(ps) + tail, |NewText(ps)| - |OldText(ps)|))
  {
    var init := ps[..|ps| - 1];
    var p := ps[|ps| - 1];
    var done := NewText(init);
    var oldSide := OldSide(p.lines);
    var newSide := NewSide(p.lines);
    var v := DiffApply.Working(done + (p.gap + oldSide + tail), |done| - |OldText(init)|);
    var h := PieceHunk(init, p);
    var at := |done| + |p.gap|;
    assert Anchor(v, h) == at;
    assert v.lines[..at] == done + p.gap;
    assert v.lines[at + |oldSide|..] == tail;
    assert (done + p.gap) + newSide + tail == NewText(ps) + tail;
  }

  /** The same for whole texts: applying the diff of `original` to `original`
      gives the new text. */
  lemma ApplyToOrigin(ps: seq<Piece>, tail: seq<string>, original: string)
    requires Lines.SplitLines(original) == OldText(ps) + tail
    ensures ApplyDiff(original, HunksOf(ps)) == Success(Lines.Join(NewText(ps) + tail))
  {
    RoundTrip(ps, tail);
  }

  // ---------------------------------------------------------------------
  // Against the code as written.

  /** For a hunk without context lines that fits, the two agree when the
      hunk deletes something; a hunk that only adds lines goes in one line
      later here, where the code as written would put it for a start line
      one higher. */
  lemma AgreesWithoutContext(w: Working, h: Hunk)
    requires NoContext(h.lines)
    requires ApplyHunk(w, h).Success?
    ensures Deletions(h.lines) > 0 ==> ApplyHunk(w, h).value == DiffApply.ApplyHunk(w, h)
    ensures Deletions(h.lines) == 0 ==>
      ApplyHunk(w, h).value == DiffApply.ApplyHunk(w, h.(origStart := h.origStart + 1))
  {
    SidesWithoutContext(h.lines);
    if Deletions(h.lines) > 0 {
      SameStep(w, h, h);
    } else {
      var h' := h.(origStart := h.origStart + 1);
      SameStep(w, h, h');
    }
  }

  /** The corrected step on `h` and the step as written on `h'` do the same
      when they splice at the same place and the sides of `h` are the
      deletions and additions of `h'`. */
  lemma SameStep(w: Working, h: Hunk, h': Hunk)
    requires ApplyHunk(w, h).Success?
    requires Anchor(w, h) == DiffApply.Anchor(w, h')
    requires |OldSide(h.lines)| == Deletions(h'.lines) && NewSide(h.lines) == Additions(h'.lines)
    ensures ApplyHunk(w, h).value == DiffApply.ApplyHunk(w, h')
  {
    DiffApply.ApplyInRange(w, h');
  }

  /** A diff made from an empty text, `@@ -0,0 +1,2 @@`, applied to the
      empty text gives the new text. */
  lemma EmptyOriginalApplied()
    ensures ApplyDiff("", [HunkEntry(Hunk(0, 0, 1, 2, [DiffLine(Add, "x"), DiffLine(Add, "y")]))]) == Success("x\ny")
  {
    var h := Hunk(0, 0, 1, 2, [DiffLine(Add, "x"), DiffLine(Add, "y")]);
    var ops := [HunkEntry(h)];
    var w := DiffApply.Working([], 0);
    assert Lines.SplitLines("") == [];
    EmptyOriginalFits(w, h);
    assert Lines.Join(["x", "y"]) == "x\ny" by {
      assert "x" + "\n" + "y" == "x\ny";
      DiffApply.TwoLines("x", "y");
    }
    assert ApplyAll(w, ops) == ApplyEntry(w, HunkEntry(h)) by {
      assert ops[..0] == [];
    }
  }

  lemma EmptyOriginalFits(w: Working, h: Hunk)
    requires w == DiffApply.Working([], 0)
    requires h == Hunk(0, 0, 1, 2, [DiffLine(Add, "x"), DiffLine(Add, "y")])
    ensures ApplyHunk(w, h) == Success(DiffApply.Working(["x", "y"], 2))
  {
    PureInsertionSides(h.lines);
    assert Anchor(w, h) == 0;
    assert w.lines[..0] + ["x", "y"] + w.lines[0..] == ["x", "y"];
  }

  /** The pure insertion that the code as written puts before the first line
      goes in after it here, where its start line `-1,0` says. */
  lemma PureInsertionApplied()
    ensures ApplyDiff("a\nb", [HunkEntry(DiffApply.InsertionHunk())]) == Success("a\nx\ny\nb")
  {
    var h := DiffApply.InsertionHunk();
    var ops := [HunkEntry(h)];
    var w := DiffApply.Working(["a", "b"], 0);
    assert Lines.SplitLines("a\nb") == ["a", "b"] by {
      assert "a" + "\n" + "b" == "a\nb";
      DiffApply.TwoLines("a", "b");
    }
    PureInsertionSides(h.lines);
    assert Anchor(w, h) == 1;
    assert w.lines[..1] + ["x", "y"] + w.lines[1..] == ["a", "x", "y", "b"];
    assert ApplyHunk(w, h) == Success(DiffApply.Working(["a", "x", "y", "b"], 2));
    assert Lines.Join(["a", "x", "y", "b"]) == "a\nx\ny\nb" by {
      DiffApply.FourLines("a", "x", "y", "b");
      assert "a" + "\n" + "x" + "\n" + "y" + "\n" + "b" == "a\nx\ny\nb";
    }
    assert ApplyAll(w, ops) == ApplyEntry(w, HunkEntry(h)) by {
      assert ops[..0] == [];
    }
  }

  lemma PureInsertionSides(lines: seq<DiffLine>)
    requires lines == [DiffLine(Add, "x"), DiffLine(Add, "y")]
    ensures OldSide(lines) == [] && NewSide(lines) == ["x", "y"]
  {
    var rest := lines[1..];
    assert rest == [DiffLine(Add, "y")] && rest[1..] == [];
    assert OldSide(rest[1..]) == [] && NewSide(rest[1..]) == [];
    assert OldSide(rest) == [] && NewSide(rest) == ["y"];
  }

  /** The middle-line change that the code as written applies to the wrong
      line is applied as intended here. */
  lemma MiddleLineApplied()
    ensures ApplyDiff("a\nb\nc", [HunkEntry(DiffApply.MiddleLineHunk())]) == Success("a\nx\nc")
  {
    var h := DiffApply.MiddleLineHunk();
    var ops := [HunkEntry(h)];
    var w := DiffApply.Working(["a", "b", "c"], 0);
    assert Lines.SplitLines("a\nb\nc") == ["a", "b", "c"] by {
      assert "a" + "\n" + "b" + "\n" + "c" == "a\nb\nc";
      DiffApply.ThreeLines("a", "b", "c");
    }
    assert Lines.Join(["a", "x", "c"]) == "a\nx\nc" by {
      assert "a" + "\n" + "x" + "\n" + "c" == "a\nx\nc";
      DiffApply.ThreeLines("a", "x", "c");
    }
    MiddleLineHunkFits(w);
    assert ApplyAll(w, ops) == ApplyEntry(w, HunkEntry(h)) by {
      assert ops[..0] == [];
    }
  }

  lemma MiddleLineHunkFits(w: Working)
    requires w == DiffApply.Working(["a", "b", "c"], 0)
    ensures ApplyHunk(w, DiffApply.MiddleLineHunk()) == Success(DiffApply.Working(["a", "x", "c"], 0))
  {
    var h := DiffApply.MiddleLineHunk();
    MiddleLineHunkSides();
    assert Anchor(w, h) == 0;
    assert w.lines[..0] + ["a", "x", "c"] + w.lines[3..] == ["a", "x", "c"];
  }

  lemma MiddleLineHunkSides()
    ensures OldSide(DiffApply.MiddleLineHunk().lines) == ["a", "b", "c"]
    ensures NewSide(DiffApply.MiddleLineHunk().lines) == ["a", "x", "c"]
  {
    var lines := DiffApply.MiddleLineHunk().lines;
    assert lines[1..][1..][1..][1..] == [];
  }
}
