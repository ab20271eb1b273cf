/** `DiffService.apply_diff` as written (backend/app/services/diff_service.py
    lines 87-124): for each hunk entry, in list order, delete as many lines
    as the hunk has delete lines at `orig_start - 1 + offset`, insert the add
    lines there, and move the running offset by their difference. Context
    lines are not looked at, no position is checked, and Python's slice
    rules decide what out-of-range positions do. */
module DiffApply {
  import opened DiffModel
  import Lines
  import Slices

  /** The working copy of the lines and the running line offset. */
  datatype Working = Working(lines: seq<string>, offset: int)

  /** The 0-based position in the working copy where a hunk's changes go. */
  function Anchor(w: Working, h: Hunk): int {
    h.origStart - 1 + w.offset
  }

  /** The loop body for one hunk. */
  function ApplyHunk(w: Working, h: Hunk): Working {
    var at := Anchor(w, h);
    var dels := Deletions(h.lines);
    var adds := Additions(h.lines);
    Working(Slices.Splice(w.lines, at, dels, adds), w.offset + |adds| - dels)
  }

  /** Entries whose type is not `hunk` are skipped. */
  function ApplyEntry(w: Working, e: Entry): Working {
    match e
    case HunkEntry(h) => ApplyHunk(w, h)
    case OtherEntry(_) => w
  }

  /** The working copy after the entries `ops`, in list order. */
  function ApplyAll(w: Working, ops: seq<Entry>): Working
    decreases |ops|
  {
    if |ops| == 0 then w
    else ApplyEntry(ApplyAll(w, ops[..|ops| - 1]), ops[|ops| - 1])
  }

  /** `apply_diff(original, operations)`. */
  function ApplyDiff(original: string, ops: seq<Entry>): string {
    Lines.Join(ApplyAll(Working(Lines.SplitLines(original), 0), ops).lines)
  }

  /** The source's loop, counting the delete lines and collecting the add
      lines of each hunk one line at a time. */
  method ApplyDiffLoop(original: string, ops: seq<Entry>) returns (result: string)
    ensures result == ApplyDiff(original, ops)
  {
    var resultLines := Lines.SplitLines(original);
    var lineOffset := 0;
    var i := 0;
    while i < |ops|
      invariant 0 <= i <= |ops|
      invariant Working(resultLines, lineOffset) == ApplyAll(Working(Lines.SplitLines(original), 0), ops[..i])
    {
      assert ops[..i + 1][..i] == ops[..i];
      match ops[i] {
        case OtherEntry(_) =>
        case HunkEntry(h) =>
          resultLines, lineOffset := ApplyHunkLoop(resultLines, lineOffset, h);
      }
      i := i + 1;
    }
    assert ops[..i] == ops;
    result := Lines.Join(resultLines);
  }

  /** The loop body for one hunk, with Python's slice deletion and slice
      insertion. */
  method ApplyHunkLoop(resultLines: seq<string>, lineOffset: int, h: Hunk) returns (lines: seq<string>, offset: int)
    ensures Working(lines, offset) == ApplyHunk(Working(resultLines, lineOffset), h)
  {
    var origStart := h.origStart - 1;
    var deletions, additions := CountChanges(h.lines);
    var adjustedStart := origStart + lineOffset;
    assert adjustedStart == Anchor(Working(resultLines, lineOffset), h);
    lines := resultLines;
    if deletions > 0 {
      lines := Slices.DelSlice(lines, adjustedStart, adjustedStart + deletions);
    }
    ghost var afterDelete := lines;
    if |additions| > 0 {
      lines := Slices.InsertAt(lines, adjustedStart, additions);
    }
    assert lines == Slices.Splice(resultLines, adjustedStart, deletions, additions);
    offset := lineOffset + |additions| - deletions;
  }

  /** Counts the delete lines and collects the add lines of a hunk, one line
      at a time. */
  method CountChanges(hunkLines: seq<DiffLine>) returns (deletions: nat, additions: seq<string>)
    ensures deletions == Deletions(hunkLines)
    ensures additions == Additions(hunkLines)
  {
    deletions := 0;
    additions := [];
    var j := 0;
    while j < |hunkLines|
      invariant 0 <= j <= |hunkLines|
      invariant deletions == Deletions(hunkLines[..j])
      invariant additions == Additions(hunkLines[..j])
    {
      CountStep(hunkLines, j);
      if hunkLines[j].kind == Delete {
        deletions := deletions + 1;
      } else if hunkLines[j].kind == Add {
        additions := additions + [hunkLines[j].content];
      }
      j := j + 1;
    }
    assert hunkLines[..j] == hunkLines;
  }

  lemma {:induction false} DeletionsAppend(a: seq<DiffLine>, b: seq<DiffLine>)
    ensures Deletions(a + b) == Deletions(a) + Deletions(b)
    decreases |a|
  {
    if |a| == 0 {
      assert a + b == b;
    } else {
      assert (a + b)[1..] == a[1..] + b;
      DeletionsAppend(a[1..], b);
    }
  }

  lemma {:induction false} AdditionsAppend(a: seq<DiffLine>, b: seq<DiffLine>)
    ensures Additions(a + b) == Additions(a) + Additions(b)
    decreases |a|
  {
    if |a| == 0 {
      assert a + b == b;
    } else {
      var head := if a[0].kind == Add then [a[0].content] else [];
      var rest := Additions(a[1..]);
      assert Additions(a + b) == head + Additions(a[1..] + b) by {
        assert (a + b)[0] == a[0];
        assert (a + b)[1..] == a[1..] + b;
      }
      AdditionsAppend(a[1..], b);
      assert head + (rest + Additions(b)) == (head + rest) + Additions(b);
    }
  }

  lemma CountStep(lines: seq<DiffLine>, j: int)
    requires 0 <= j < |lines|
    ensures Deletions(lines[..j + 1]) == Deletions(lines[..j]) + (if lines[j].kind == Delete then 1 else 0)
    ensures Additions(lines[..j + 1]) == Additions(lines[..j]) + (if lines[j].kind == Add then [lines[j].content] else [])
  {
    assert lines[..j + 1] == lines[..j] + [lines[j]];
    DeletionsAppend(lines[..j], [lines[j]]);
    AdditionsAppend(lines[..j], [lines[j]]);
  }

  // ---------------------------------------------------------------------
  // What one hunk does.

  /** When the deleted stretch lies inside the working copy, a hunk replaces
      that many lines at its anchor by its add lines. */
  lemma ApplyInRange(w: Working, h: Hunk)
    requires 0 <= Anchor(w, h) && Anchor(w, h) + Deletions(h.lines) <= |w.lines|
    ensures var at := Anchor(w, h);
      ApplyHunk(w, h).lines
        == w.lines[..at] + Additions(h.lines) + w.lines[at + Deletions(h.lines)..]
  {
    Slices.ReplaceInRange(w.lines, Anchor(w, h), Deletions(h.lines), Additions(h.lines));
  }

  /** A hunk anchored at or past the end deletes nothing and appends its add
      lines. */
  lemma ApplyPastEnd(w: Working, h: Hunk)
    requires Anchor(w, h) >= |w.lines|
    ensures ApplyHunk(w, h).lines == w.lines + Additions(h.lines)
  {
    var at := Anchor(w, h);
    Slices.BoundCases(at, |w.lines|);
    Slices.BoundCases(at + Deletions(h.lines), |w.lines|);
    assert w.lines[..|w.lines|] == w.lines;
  }

  /** A stale hunk whose deleted stretch runs past the end: the slice's
      upper bound is clamped to the length, so every line from the anchor on
      is deleted and the add lines go in at the anchor. */
  lemma ApplyOverrunEnd(w: Working, h: Hunk)
    requires 0 <= Anchor(w, h) < |w.lines| < Anchor(w, h) + Deletions(h.lines)
    ensures ApplyHunk(w, h).lines == w.lines[..Anchor(w, h)] + Additions(h.lines)
  {
    var at := Anchor(w, h);
    var dels := Deletions(h.lines);
    ReplaceOverrunEnd(w.lines, at, dels, Additions(h.lines));
    assert ApplyHunk(w, h).lines == Slices.Splice(w.lines, at, dels, Additions(h.lines));
  }

  lemma ReplaceOverrunEnd(xs: seq<string>, at: int, dels: nat, adds: seq<string>)
    requires 0 <= at < |xs| < at + dels
    ensures Slices.Splice(xs, at, dels, adds) == xs[..at] + adds
  {
    Slices.BoundCases(at, |xs|);
    Slices.BoundCases(at + dels, |xs|);
    assert Slices.DelSlice(xs, at, at + dels) == xs[..at];
    Slices.InsertGuarded(xs[..at], at, adds);
    Slices.BoundCases(at, at);
  }

  /** A negative anchor counts back from the end, as Python does. When the
      end of the deleted stretch is at or after the first line but not past
      that counted-back anchor, the slice is empty: nothing is deleted and
      the add lines still go in before the counted-back position. */
  lemma ApplyNegativeAnchor(w: Working, h: Hunk)
    requires var at := Anchor(w, h);
      at < 0 && at + |w.lines| >= 0 && 0 <= at + Deletions(h.lines) <= at + |w.lines|
    ensures var k := Anchor(w, h) + |w.lines|;
      ApplyHunk(w, h).lines == w.lines[..k] + Additions(h.lines) + w.lines[k..]
  {
    var at := Anchor(w, h);
    Slices.BoundCases(at, |w.lines|);
    Slices.BoundCases(at + Deletions(h.lines), |w.lines|);
  }

  /** A negative anchor whose deleted stretch ends before the first line:
      the stretch is counted back from the end, as `k`, so the lines from
      `k` on are deleted, and the add lines then go in as many lines earlier
      as were deleted, counted back from the end of the shorter copy (at the
      start when that is below the first line). */
  lemma ApplyNegativeStretch(w: Working, h: Hunk)
    requires var at := Anchor(w, h);
      at + |w.lines| >= 0 && at + Deletions(h.lines) < 0
    ensures var k := Anchor(w, h) + |w.lines|;
      var dels := Deletions(h.lines);
      var rest := w.lines[..k] + w.lines[k + dels..];
      var p := if k >= dels then k - dels else 0;
      ApplyHunk(w, h).lines == rest[..p] + Additions(h.lines) + rest[p..]
  {
    var at := Anchor(w, h);
    var dels := Deletions(h.lines);
    ReplaceNegativeStretch(w.lines, at, dels, Additions(h.lines));
    assert ApplyHunk(w, h).lines == Slices.Splice(w.lines, at, dels, Additions(h.lines));
  }

  lemma ReplaceNegativeStretch(xs: seq<string>, at: int, dels: nat, adds: seq<string>)
    requires at + |xs| >= 0 && at + dels < 0
    ensures var k := at + |xs|;
      var rest := xs[..k] + xs[k + dels..];
      var p := if k >= dels then k - dels else 0;
      Slices.Splice(xs, at, dels, adds) == rest[..p] + adds + rest[p..]
  {
    var k := at + |xs|;
    var rest := xs[..k] + xs[k + dels..];
    DeleteNegativeStretch(xs, at, dels);
    assert |rest| == |xs| - dels;
    Slices.InsertGuarded(rest, at, adds);
    Slices.BoundCases(at, |rest|);
  }

  lemma DeleteNegativeStretch(xs: seq<string>, at: int, dels: nat)
    requires at + |xs| >= 0 && at + dels < 0
    ensures var k := at + |xs|;
      (if dels > 0 then Slices.DelSlice(xs, at, at + dels) else xs) == xs[..k] + xs[k + dels..]
  {
    var k := at + |xs|;
    Slices.BoundCases(at, |xs|);
    Slices.BoundCases(at + dels, |xs|);
    if dels == 0 {
      assert xs == xs[..k] + xs[k..];
    }
  }

  /** A negative anchor counted back from the end, with more delete lines
      than the working copy has: everything from the counted-back anchor
      `k` up to the end of the stretch (at most the end) is deleted, and the
      add lines go in as many lines before `k` as were deleted (at the start
      when that is below the first line). */
  lemma ApplyNegativeOverrun(w: Working, h: Hunk)
    requires var at := Anchor(w, h);
      at < 0 && at + |w.lines| >= 0 && Deletions(h.lines) > |w.lines|
    ensures var at := Anchor(w, h);
      var k := at + |w.lines|;
      var e := if at + Deletions(h.lines) <= |w.lines| then at + Deletions(h.lines) else |w.lines|;
      var rest := w.lines[..k] + w.lines[e..];
      var p := if k >= e - k then k - (e - k) else 0;
      k < e && ApplyHunk(w, h).lines == rest[..p] + Additions(h.lines) + rest[p..]
  {
    var at := Anchor(w, h);
    var dels := Deletions(h.lines);
    ReplaceNegativeOverrun(w.lines, at, dels, Additions(h.lines));
    assert ApplyHunk(w, h).lines == Slices.Splice(w.lines, at, dels, Additions(h.lines));
  }

  lemma ReplaceNegativeOverrun(xs: seq<string>, at: int, dels: nat, adds: seq<string>)
    requires at < 0 && at + |xs| >= 0 && dels > |xs|
    ensures var k := at + |xs|;
      var e := if at + dels <= |xs| then at + dels else |xs|;
      var rest := xs[..k] + xs[e..];
      var p := if k >= e - k then k - (e - k) else 0;
      k < e && Slices.Splice(xs, at, dels, adds) == rest[..p] + adds + rest[p..]
  {
    var k := at + |xs|;
    var e := if at + dels <= |xs| then at + dels else |xs|;
    var rest := xs[..k] + xs[e..];
    DeleteNegativeOverrun(xs, at, dels);
    assert |rest| == |xs| - (e - k);
    Slices.InsertGuarded(rest, at, adds);
    Slices.BoundCases(at, |rest|);
  }

  lemma DeleteNegativeOverrun(xs: seq<string>, at: int, dels: nat)
    requires at < 0 && at + |xs| >= 0 && dels > |xs|
    ensures var k := at + |xs|;
      var e := if at + dels <= |xs| then at + dels else |xs|;
      k < e && Slices.DelSlice(xs, at, at + dels) == xs[..k] + xs[e..]
  {
    Slices.BoundCases(at, |xs|);
    Slices.BoundCases(at + dels, |xs|);
  }

  /** An anchor further back than the working copy is long counts as the
      first line: the lines up to the end of the deleted stretch, normalised
      as Python does, are deleted and the add lines go in at the start. */
  lemma ApplyBeforeStart(w: Working, h: Hunk)
    requires Anchor(w, h) + |w.lines| < 0
    ensures ApplyHunk(w, h).lines
      == Additions(h.lines) + w.lines[Slices.Bound(Anchor(w, h) + Deletions(h.lines), |w.lines|)..]
  {
    ReplaceBeforeStart(w.lines, Anchor(w, h), Deletions(h.lines), Additions(h.lines));
  }

  /** The guarded delete-then-insert of one hunk at a position before the
      start. */
  lemma ReplaceBeforeStart(xs: seq<string>, at: int, dels: nat, adds: seq<string>)
    requires at + |xs| < 0
    ensures Slices.Splice(xs, at, dels, adds) == adds + xs[Slices.Bound(at + dels, |xs|)..]
  {
    DeleteBeforeStart(xs, at, dels);
    Slices.InsertAtBeforeStart(xs[Slices.Bound(at + dels, |xs|)..], at, adds);
  }

  lemma DeleteBeforeStart(xs: seq<string>, at: int, dels: nat)
    requires at + |xs| < 0
    ensures (if dels > 0 then Slices.DelSlice(xs, at, at + dels) else xs) == xs[Slices.Bound(at + dels, |xs|)..]
  {
    var b := Slices.Bound(at + dels, |xs|);
    Slices.BoundCases(at, |xs|);
    if dels == 0 || b == 0 {
      assert xs[0..] == xs;
    } else {
      assert xs[..0] + xs[b..] == xs[b..];
    }
  }

  /** Context lines play no part: dropping them changes nothing. */
  lemma ContextIgnored(w: Working, h: Hunk)
    ensures ApplyHunk(w, h) == ApplyHunk(w, h.(lines := DropContext(h.lines)))
  {
    var h' := h.(lines := DropContext(h.lines));
    DropContextKeepsChanges(h.lines);
    assert Anchor(w, h') == Anchor(w, h);
    assert Deletions(h'.lines) == Deletions(h.lines) && Additions(h'.lines) == Additions(h.lines);
  }

  // ---------------------------------------------------------------------
  // What the whole list does.

  /** The hunk entries of a list, in order. */
  function HunksOnly(ops: seq<Entry>): (r: seq<Entry>)
    ensures forall i :: 0 <= i < |r| ==> r[i].HunkEntry?
    decreases |ops|
  {
    if |ops| == 0 then []
    else HunksOnly(ops[..|ops| - 1]) + if ops[|ops| - 1].HunkEntry? then [ops[|ops| - 1]] else []
  }

  /** Entries of other types can be dropped from the list without changing
      the result. */
  lemma {:induction false} OthersSkipped(w: Working, ops: seq<Entry>)
    ensures ApplyAll(w, ops) == ApplyAll(w, HunksOnly(ops))
    decreases |ops|
  {
    if |ops| > 0 {
      var init := ops[..|ops| - 1];
      var last := ops[|ops| - 1];
      OthersSkipped(w, init);
      if last.HunkEntry? {
        var r := HunksOnly(init) + [last];
        assert r[..|r| - 1] == HunksOnly(init);
      } else {
        assert HunksOnly(ops) == HunksOnly(init);
      }
    }
  }

  /** Add lines minus delete lines over all hunk entries. */
  function NetChange(ops: seq<Entry>): int
    decreases |ops|
  {
    if |ops| == 0 then 0
    else
      NetChange(ops[..|ops| - 1])
        + match ops[|ops| - 1]
          case HunkEntry(h) => |Additions(h.lines)| - Deletions(h.lines)
          case OtherEntry(_) => 0
  }

  /** The final offset is the starting one plus the net change of all hunks. */
  lemma {:induction false} OffsetIsNetChange(w: Working, ops: seq<Entry>)
    ensures ApplyAll(w, ops).offset == w.offset + NetChange(ops)
    decreases |ops|
  {
    if |ops| > 0 {
      OffsetIsNetChange(w, ops[..|ops| - 1]);
    }
  }

  /** Every hunk's deleted stretch lies inside the working copy at the time
      the hunk is applied. */
  predicate AllInRange(w: Working, ops: seq<Entry>)
    decreases |ops|
  {
    |ops| == 0 ||
      (&& AllInRange(w, ops[..|ops| - 1])
       && match ops[|ops| - 1]
          case HunkEntry(h) =>
            var v := ApplyAll(w, ops[..|ops| - 1]);
            0 <= Anchor(v, h) && Anchor(v, h) + Deletions(h.lines) <= |v.lines|
          case OtherEntry(_) => true)
  }

  /** When every hunk lands inside the working copy, the result has the
      original number of lines plus the net change. */
  lemma {:induction false} LengthFollowsOffset(w: Working, ops: seq<Entry>)
    requires AllInRange(w, ops)
    ensures |ApplyAll(w, ops).lines| == |w.lines| + NetChange(ops)
    decreases |ops|
  {
    if |ops| > 0 {
      var init := ops[..|ops| - 1];
      LengthFollowsOffset(w, init);
      match ops[|ops| - 1]
      case HunkEntry(h) =>
        ApplyInRange(ApplyAll(w, init), h);
      case OtherEntry(_) =>
    }
  }

  /** With no operations the original comes back with its lines rejoined:
      only a final line feed is lost. */
  lemma NoOperations(original: string)
    ensures ApplyDiff(original, []) == Lines.DropFinalBreak(original)
  {
    Lines.JoinSplitLines(original);
  }

  // ---------------------------------------------------------------------
  // The leading-context discrepancy.

  /** The hunk a unified diff with one line of context gives for changing
      the middle line of `a`, `b`, `c` into `x`. */
  function MiddleLineHunk(): Hunk {
    Hunk(1, 3, 1, 3, [DiffLine(Context, "a"), DiffLine(Delete, "b"), DiffLine(Add, "x"), DiffLine(Context, "c")])
  }

  /** Because the delete is applied at the hunk's first line instead of after
      its leading context, the context line `a` is deleted and `b` is kept:
      the result is `x`, `b`, `c` rather than `a`, `x`, `c`. */
  lemma LeadingContextMisplaces()
    ensures ApplyDiff("a\nb\nc", [HunkEntry(MiddleLineHunk())]) == "x\nb\nc"
  {
    var ops := [HunkEntry(MiddleLineHunk())];
    var w := Working(["a", "b", "c"], 0);
    assert Lines.SplitLines("a\nb\nc") == ["a", "b", "c"] by {
      assert "a" + "\n" + "b" + "\n" + "c" == "a\nb\nc";
      ThreeLines("a", "b", "c");
    }
    assert Lines.Join(["x", "b", "c"]) == "x\nb\nc" by {
      assert "x" + "\n" + "b" + "\n" + "c" == "x\nb\nc";
      ThreeLines("x", "b", "c");
    }
    assert ApplyAll(w, ops).lines == ["x", "b", "c"] by {
      assert ops[..0] == [];
      MiddleLineHunkApplied(w);
    }
  }

  lemma MiddleLineHunkApplied(w: Working)
    requires w == Working(["a", "b", "c"], 0)
    ensures ApplyHunk(w, MiddleLineHunk()).lines == ["x", "b", "c"]
  {
    var h := MiddleLineHunk();
    MiddleLineHunkChanges();
    assert Anchor(w, h) == 0;
    assert Slices.DelSlice(w.lines, 0, 1) == ["b", "c"] by {
      assert w.lines[..0] + w.lines[1..] == ["b", "c"];
    }
    assert Slices.InsertAt(["b", "c"], 0, ["x"]) == ["x", "b", "c"];
  }

  lemma MiddleLineHunkChanges()
    ensures Deletions(MiddleLineHunk().lines) == 1
    ensures Additions(MiddleLineHunk().lines) == ["x"]
  {
    var lines := MiddleLineHunk().lines;
    assert lines[1..][1..][1..][1..] == [];
  }

  // ---------------------------------------------------------------------
  // The numbering of empty ranges.

  /** The hunk a unified diff without context gives for inserting `x`, `y`
      after the first of the lines `a`, `b`: `@@ -1,0 +2,2 @@`, an empty
      old range named by the line before it. */
  function InsertionHunk(): Hunk {
    Hunk(1, 0, 2, 2, [DiffLine(Add, "x"), DiffLine(Add, "y")])
  }

  /** Because the start line is always taken as the first line of the range,
      the insertion meant to follow line 1 goes in before it: the result is
      `x`, `y`, `a`, `b` rather than `a`, `x`, `y`, `b`. */
  lemma PureInsertionMisplaced()
    ensures ApplyDiff("a\nb", [HunkEntry(InsertionHunk())]) == "x\ny\na\nb"
  {
    var h := InsertionHunk();
    var ops := [HunkEntry(h)];
    var w := Working(["a", "b"], 0);
    assert Lines.SplitLines("a\nb") == ["a", "b"] by {
      assert "a" + "\n" + "b" == "a\nb";
      TwoLines("a", "b");
    }
    assert Deletions(h.lines) == 0 && Additions(h.lines) == ["x", "y"] by {
      assert h.lines[1..][1..] == [];
    }
    assert Anchor(w, h) == 0;
    assert Slices.InsertAt(w.lines, 0, ["x", "y"]) == ["x", "y", "a", "b"];
    assert Lines.Join(["x", "y", "a", "b"]) == "x\ny\na\nb" by {
      FourLines("x", "y", "a", "b");
      assert "x" + "\n" + "y" + "\n" + "a" + "\n" + "b" == "x\ny\na\nb";
    }
    assert ApplyAll(w, ops) == ApplyHunk(w, h) by {
      assert ops[..0] == [];
    }
  }

  lemma TwoLines(a: string, b: string)
    requires |a| == 1 && |b| == 1 && a[0] != '\n' && b[0] != '\n'
    ensures Lines.Join([a, b]) == a + "\n" + b
    ensures Lines.SplitLines(a + "\n" + b) == [a, b]
  {
    var lines := [a, b];
    assert lines[..1] == [a];
    assert Lines.Join([a]) == a;
    assert Lines.AllNoBreak(lines) by {
      assert '\n' !in a && '\n' !in b;
    }
    Lines.SplitLinesJoin(lines);
  }

  lemma FourLines(a: string, b: string, c: string, d: string)
    requires |a| == 1 && |b| == 1 && |c| == 1 && |d| == 1
    ensures Lines.Join([a, b, c, d]) == a + "\n" + b + "\n" + c + "\n" + d
  {
    var lines := [a, b, c, d];
    assert lines[..3] == [a, b, c] && [a, b, c][..2] == [a, b] && [a, b][..1] == [a];
    assert Lines.Join([a]) == a;
    assert Lines.Join([a, b]) == a + "\n" + b;
    assert Lines.Join([a, b, c]) == a + "\n" + b + "\n" + c;
  }

  lemma ThreeLines(a: string, b: string, c: string)
    requires |a| == 1 && |b| == 1 && |c| == 1
    requires a[0] != '\n' && b[0] != '\n' && c[0] != '\n'
    ensures Lines.Join([a, b, c]) == a + "\n" + b + "\n" + c
    ensures Lines.SplitLines(a + "\n" + b + "\n" + c) == [a, b, c]
  {
    var lines := [a, b, c];
    assert lines[..2] == [a, b] && [a, b][..1] == [a];
    assert Lines.Join([a]) == a;
    assert Lines.Join([a, b]) == a + "\n" + b;
    assert Lines.Join(lines) == Lines.Join([a, b]) + "\n" + c;
    assert Lines.AllNoBreak(lines) by {
      assert '\n' !in a && '\n' !in b && '\n' !in c;
    }
    Lines.SplitLinesJoin(lines);
  }
}
