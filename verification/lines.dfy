/** Lines of text: Python's `s.split('\n')`, `s.splitlines()` and
    `'\n'.join(lines)`, restricted to the line feed as the only line break. */
module Lines {

  predicate NoBreak(line: string) {
    '\n' !in line
  }

  predicate AllNoBreak(lines: seq<string>) {
    forall i :: 0 <= i < |lines| ==> NoBreak(lines[i])
  }

  /** `s.split('\n')`: the pieces between line feeds, always at least one. */
  function Split(s: string): (r: seq<string>)
    ensures |r| >= 1
    ensures AllNoBreak(r)
    decreases |s|
  {
    if |s| == 0 then [""]
    else
      var init := Split(s[..|s| - 1]);
      var c := s[|s| - 1];
      if c == '\n' then init + [""]
      else init[..|init| - 1] + [init[|init| - 1] + [c]]
  }

  /** `'\n'.join(lines)`: a single line feed between consecutive lines and none
      after the last. */
  function Join(lines: seq<string>): string
    decreases |lines|
  {
    if |lines| == 0 then ""
    else if |lines| == 1 then lines[0]
    else Join(lines[..|lines| - 1]) + "\n" + lines[|lines| - 1]
  }

  /** `s.splitlines()` for text whose only line break is the line feed: like
      `Split`, except that a final line feed does not start one more, empty,
      line, and the empty text has no lines at all. */
  function SplitLines(s: string): (r: seq<string>)
    ensures AllNoBreak(r)
  {
    if |s| == 0 then []
    else
      var pieces := Split(s);
      if s[|s| - 1] == '\n' then pieces[..|pieces| - 1] else pieces
  }

  /** `s` without its last character when that character is a line feed. */
  function DropFinalBreak(s: string): string {
    if |s| > 0 && s[|s| - 1] == '\n' then s[..|s| - 1] else s
  }

  lemma {:induction false} JoinSplit(s: string)
    ensures Join(Split(s)) == s
    decreases |s|
  {
    if |s| > 0 {
      var t := s[..|s| - 1];
      var c := s[|s| - 1];
      JoinSplit(t);
      assert s == t + [c];
      if c == '\n' {
        JoinNewLine(Split(t));
      } else {
        JoinExtendLast(Split(t), c);
      }
    }
  }

  /** An empty line added at the end adds a line feed. */
  lemma JoinNewLine(lines: seq<string>)
    requires |lines| >= 1
    ensures Join(lines + [""]) == Join(lines) + "\n"
  {
    var r := lines + [""];
    assert r[..|r| - 1] == lines;
  }

  /** A character added to the last line is added at the end of the text. */
  lemma JoinExtendLast(lines: seq<string>, c: char)
    requires |lines| >= 1
    ensures Join(lines[..|lines| - 1] + [lines[|lines| - 1] + [c]]) == Join(lines) + [c]
  {
    var init := lines[..|lines| - 1];
    var r := init + [lines[|lines| - 1] + [c]];
    assert r[..|r| - 1] == init;
    if |lines| > 1 {
      assert Join(r) == Join(init) + "\n" + (lines[|lines| - 1] + [c]);
      assert Join(lines) == Join(init) + "\n" + lines[|lines| - 1];
    }
  }

  /** Joining the lines of a text and splitting them again gives the text back,
      except that one final line feed, when present, is lost. */
  lemma JoinSplitLines(s: string)
    ensures Join(SplitLines(s)) == DropFinalBreak(s)
  {
    if |s| > 0 {
      JoinSplit(s);
      var t := s[..|s| - 1];
      if s[|s| - 1] == '\n' {
        JoinSplit(t);
        assert s[..|s| - 1] == t;
        var pieces := Split(s);
        assert pieces == Split(t) + [""];
        assert pieces[..|pieces| - 1] == Split(t);
      }
    }
  }

  lemma {:induction false} SplitBreakThenLine(t: string, line: string)
    requires NoBreak(line)
    ensures Split(t + "\n" + line) == Split(t) + [line]
    decreases |line|
  {
    if |line| == 0 {
      assert t + "\n" + line == t + "\n";
      assert (t + "\n")[..|t + "\n"| - 1] == t;
    } else {
      var s := t + "\n" + line;
      var init := line[..|line| - 1];
      var c := line[|line| - 1];
      assert s[..|s| - 1] == t + "\n" + init;
      assert s[|s| - 1] == c;
      assert '\n' !in init by {
        assert forall i :: 0 <= i < |init| ==> init[i] == line[i];
      }
      SplitBreakThenLine(t, init);
      assert line == init + [c];
    }
  }

  lemma {:induction false} SplitOneLine(line: string)
    requires NoBreak(line)
    ensures Split(line) == [line]
    decreases |line|
  {
    if |line| > 0 {
      var init := line[..|line| - 1];
      assert '\n' !in init by {
        assert forall i :: 0 <= i < |init| ==> init[i] == line[i];
      }
      SplitOneLine(init);
      assert line == init + [line[|line| - 1]];
    }
  }

  lemma {:induction false} SplitJoin(lines: seq<string>)
    requires |lines| >= 1
    requires AllNoBreak(lines)
    ensures Split(Join(lines)) == lines
    decreases |lines|
  {
    if |lines| == 1 {
      SplitOneLine(lines[0]);
    } else {
      var init := lines[..|lines| - 1];
      SplitJoin(init);
      SplitBreakThenLine(Join(init), lines[|lines| - 1]);
      assert lines == init + [lines[|lines| - 1]];
    }
  }

  lemma {:induction false} JoinEndsWithLast(lines: seq<string>)
    requires |lines| >= 1
    ensures var j := Join(lines); var last := lines[|lines| - 1];
      |last| <= |j| && j[|j| - |last|..] == last
    decreases |lines|
  {
    if |lines| > 1 {
      var last := lines[|lines| - 1];
      var j := Join(lines);
      assert j == Join(lines[..|lines| - 1]) + "\n" + last;
      assert j[|j| - |last|..] == last;
    }
  }

  /** Lines without line feeds survive a join followed by `splitlines()`,
      unless the last of them is empty: `'\n'.join` then ends the text with a
      line feed, which `splitlines()` swallows together with that empty line. */
  lemma {:induction false} SplitLinesJoin(lines: seq<string>)
    requires AllNoBreak(lines)
    ensures |lines| == 0 || lines[|lines| - 1] != "" ==> SplitLines(Join(lines)) == lines
    ensures |lines| > 0 && lines[|lines| - 1] == "" ==> SplitLines(Join(lines)) == lines[..|lines| - 1]
  {
    if |lines| > 0 {
      var j := Join(lines);
      var last := lines[|lines| - 1];
      SplitJoin(lines);
      JoinEndsWithLast(lines);
      if last != "" {
        assert j[|j| - 1] == last[|last| - 1];
        assert last[|last| - 1] in last;
      } else if |lines| == 1 {
        assert j == "";
      } else {
        assert j == Join(lines[..|lines| - 1]) + "\n" + last;
        assert j[|j| - 1] == '\n';
      }
    }
  }
}
