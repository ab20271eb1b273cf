/** The hunk header `@@ -a,b +c,d @@` and the one pattern the diff service
    accepts for it, `^@@ -(\d+),(\d+) \+(\d+),(\d+) @@`
    (backend/app/services/diff_service.py lines 42 and 149). The pattern is
    anchored only at the start: anything may follow the closing `@@`. */
module HunkHeader {
  import opened Wrappers

  /** The four numbers of a header, in the order they appear. */
  datatype Range = Range(origStart: nat, origCount: nat, modStart: nat, modCount: nat)

  predicate IsDigit(c: char) {
    '0' <= c <= '9'
  }

  predicate AllDigits(s: string) {
    forall i :: 0 <= i < |s| ==> IsDigit(s[i])
  }

  /** A non-empty run of decimal digits: what `(\d+)` captures. */
  predicate IsNumeral(s: string) {
    |s| > 0 && AllDigits(s)
  }

  /** The value of a decimal digit; other characters never reach it. */
  function DigitValue(c: char): nat {
    if IsDigit(c) then c as int - '0' as int else 0
  }

  /** `int(d)` for a string of decimal digits (leading zeros allowed). */
  function Value(d: string): nat
    decreases |d|
  {
    if |d| == 0 then 0
    else Value(d[..|d| - 1]) * 10 + DigitValue(d[|d| - 1])
  }

  /** The canonical decimal numeral of `n`: no sign, no leading zeros. */
  function Decimal(n: nat): (d: string)
    ensures IsNumeral(d)
    ensures Value(d) == n
    decreases n
  {
    var last := ('0' as int + n % 10) as char;
    if n < 10 then [last]
    else
      var init := Decimal(n / 10);
      assert (init + [last])[..|init|] == init;
      init + [last]
  }

  /** Length of the run of digits that starts `s`; `\d+` is greedy. */
  function DigitRun(s: string): (n: nat)
    ensures n <= |s|
    decreases |s|
  {
    if |s| > 0 && IsDigit(s[0]) then 1 + DigitRun(s[1..]) else 0
  }

  /** The run is all digits and is not followed by one. */
  lemma {:induction false} DigitRunDigits(s: string)
    ensures AllDigits(s[..DigitRun(s)])
    ensures DigitRun(s) < |s| ==> !IsDigit(s[DigitRun(s)])
    decreases |s|
  {
    if |s| > 0 && IsDigit(s[0]) {
      var n := DigitRun(s);
      DigitRunDigits(s[1..]);
      assert s[..n] == [s[0]] + s[1..][..n - 1];
    }
  }

  /** Matches `(\d+)` followed by the literal `sep` at the start of `s`, giving
      the number and what follows `sep`. A shorter run of digits never helps:
      the character after it is a digit, and every `sep` used here starts with
      a non-digit. */
  function Number(s: string, sep: string): Option<(nat, string)>
  {
    var n := DigitRun(s);
    if n > 0 && sep <= s[n..] then Some((Value(s[..n]), s[n + |sep|..])) else None
  }

  /** `re.match(r'^@@ -(\d+),(\d+) \+(\d+),(\d+) @@', line)`, giving the four
      captured integers on a match: each `(\d+)` is followed by the literal
      text that comes after it in the pattern. */
  function Parse(line: string): Option<Range>
  {
    if !("@@ -" <= line) then None
    else
      match Number(line[4..], ",")
      case None => None
      case Some((a, t1)) =>
        match Number(t1, " +")
        case None => None
        case Some((b, t2)) =>
          match Number(t2, ",")
          case None => None
          case Some((c, t3)) =>
            match Number(t3, " @@")
            case None => None
            case Some((d, _)) => Some(Range(a, b, c, d))
  }

  /** `line` is `@@ -d1,d2 +d3,d4 @@` followed by `rest`, each `di` a numeral. */
  ghost predicate Shape(line: string, d1: string, d2: string, d3: string, d4: string, rest: string) {
    && IsNumeral(d1) && IsNumeral(d2) && IsNumeral(d3) && IsNumeral(d4)
    && line == "@@ -" + d1 + "," + d2 + " +" + d3 + "," + d4 + " @@" + rest
  }

  /** The header text difflib writes when neither range is a single line. */
  function Format(r: Range): string {
    "@@ -" + Decimal(r.origStart) + "," + Decimal(r.origCount)
      + " +" + Decimal(r.modStart) + "," + Decimal(r.modCount) + " @@"
  }

  lemma {:induction false} DigitRunOfNumeral(d: string, t: string)
    requires AllDigits(d)
    requires |t| > 0 && !IsDigit(t[0])
    ensures DigitRun(d + t) == |d|
    decreases |d|
  {
    if |d| > 0 {
      assert (d + t)[1..] == d[1..] + t;
      DigitRunOfNumeral(d[1..], t);
    } else {
      assert d + t == t;
    }
  }

  lemma NumberOfNumeral(d: string, sep: string, rest: string)
    requires IsNumeral(d)
    requires |sep| > 0 && !IsDigit(sep[0])
    ensures Number(d + sep + rest, sep) == Some((Value(d), rest))
  {
    var s := d + sep + rest;
    assert s == d + (sep + rest);
    DigitRunOfNumeral(d, sep + rest);
    assert s[..|d|] == d;
    assert s[|d|..] == sep + rest;
    assert s[|d| + |sep|..] == rest;
  }

  /** Every line of the accepted shape matches, with the numerals' values. */
  lemma {:induction false} ParseComplete(line: string, d1: string, d2: string, d3: string, d4: string, rest: string)
    requires Shape(line, d1, d2, d3, d4, rest)
    ensures Parse(line) == Some(Range(Value(d1), Value(d2), Value(d3), Value(d4)))
  {
    var t3 := d4 + " @@" + rest;
    var t2 := d3 + "," + t3;
    var t1 := d2 + " +" + t2;
    assert line == "@@ -" + (d1 + "," + t1) by {
      AssociateHeaderBack(d1, d2, d3, d4, rest);
    }
    assert "@@ -" <= line && line[4..] == d1 + "," + t1;
    NumberOfNumeral(d1, ",", t1);
    NumberOfNumeral(d2, " +", t2);
    NumberOfNumeral(d3, ",", t3);
    NumberOfNumeral(d4, " @@", rest);
  }

  lemma AssociateHeaderBack(d1: string, d2: string, d3: string, d4: string, rest: string)
    ensures "@@ -" + d1 + "," + d2 + " +" + d3 + "," + d4 + " @@" + rest
      == "@@ -" + (d1 + "," + (d2 + " +" + (d3 + "," + (d4 + " @@" + rest))))
  {
    AssociateHeader("@@ -" + (d1 + "," + (d2 + " +" + (d3 + "," + (d4 + " @@" + rest)))), d1, d2, d3, d4, rest);
  }

  lemma NumberSound(s: string, sep: string)
    requires Number(s, sep).Some?
    ensures var n := |s| - |sep| - |Number(s, sep).value.1|;
      && 0 < n <= |s|
      && IsNumeral(s[..n])
      && s == s[..n] + sep + Number(s, sep).value.1
      && Number(s, sep).value.0 == Value(s[..n])
  {
    var n := DigitRun(s);
    DigitRunDigits(s);
    assert s == s[..n] + s[n..];
    assert s[n..] == sep + s[n + |sep|..];
  }

  /** Every match has the accepted shape, and the integers are the values of
      the four numerals. */
  lemma ParseSound(line: string)
    requires Parse(line).Some?
    ensures exists d1, d2, d3, d4, rest ::
      (&& Shape(line, d1, d2, d3, d4, rest)
       && Parse(line).value == Range(Value(d1), Value(d2), Value(d3), Value(d4)))
  {
    var d1, d2, d3, d4, rest := ShapeOf(line);
  }

  /** The numerals and the trailing text of a line that matches. */
  lemma {:induction false} ShapeOf(line: string) returns (d1: string, d2: string, d3: string, d4: string, rest: string)
    requires Parse(line).Some?
    ensures Shape(line, d1, d2, d3, d4, rest)
    ensures Parse(line).value == Range(Value(d1), Value(d2), Value(d3), Value(d4))
  {
    var t0 := ParseFirst(line);
    var t1, t2, t3 := ParseRest(line, t0);
    ParseValues(line, t0, t1, t2, t3);
    d1 := NumeralBefore(t0, ",");
    d2 := NumeralBefore(t1, " +");
    d3 := NumeralBefore(t2, ",");
    d4 := NumeralBefore(t3, " @@");
    rest := Number(t3, " @@").value.1;
    GlueHeader(line, d1, d2, d3, d4, rest, t0, t1, t2, t3);
  }

  /** The text after the `@@ -` of a line that matches starts with a number. */
  lemma ParseFirst(line: string) returns (t0: string)
    requires Parse(line).Some?
    ensures line == "@@ -" + t0
    ensures Number(t0, ",").Some?
  {
    t0 := line[4..];
    PrefixSplit("@@ -", line);
  }

  /** A string that differs from `p` at some position `p` covers does not
      start with `p`. */
  lemma NotPrefix(p: string, s: string, i: int)
    requires 0 <= i < |p| && i < |s| && s[i] != p[i]
    ensures !(p <= s)
  {
  }

  lemma PrefixSplit(p: string, s: string)
    requires p <= s
    ensures s == p + s[|p|..]
  {
  }

  /** The text after each of the other three numbers of a line that matches. */
  lemma ParseRest(line: string, t0: string) returns (t1: string, t2: string, t3: string)
    requires Parse(line).Some?
    requires line == "@@ -" + t0
    requires Number(t0, ",").Some?
    ensures t1 == Number(t0, ",").value.1
    ensures Number(t1, " +").Some? && t2 == Number(t1, " +").value.1
    ensures Number(t2, ",").Some? && t3 == Number(t2, ",").value.1
    ensures Number(t3, " @@").Some?
  {
    assert line[4..] == t0;
    t1 := Number(t0, ",").value.1;
    t2 := Number(t1, " +").value.1;
    t3 := Number(t2, ",").value.1;
  }

  /** The four integers of a line that matches are the numbers read at
      those steps. */
  lemma ParseValues(line: string, t0: string, t1: string, t2: string, t3: string)
    requires Parse(line).Some?
    requires line == "@@ -" + t0
    requires Number(t0, ",").Some? && t1 == Number(t0, ",").value.1
    requires Number(t1, " +").Some? && t2 == Number(t1, " +").value.1
    requires Number(t2, ",").Some? && t3 == Number(t2, ",").value.1
    requires Number(t3, " @@").Some?
    ensures Parse(line).value
      == Range(Number(t0, ",").value.0, Number(t1, " +").value.0, Number(t2, ",").value.0, Number(t3, " @@").value.0)
  {
    assert line[4..] == t0;
  }

  /** Four numerals each followed by its separator, put together. */
  lemma GlueHeader(line: string, d1: string, d2: string, d3: string, d4: string, rest: string,
                   t0: string, t1: string, t2: string, t3: string)
    requires IsNumeral(d1) && IsNumeral(d2) && IsNumeral(d3) && IsNumeral(d4)
    requires line == "@@ -" + t0
    requires t0 == d1 + "," + t1 && t1 == d2 + " +" + t2 && t2 == d3 + "," + t3 && t3 == d4 + " @@" + rest
    ensures Shape(line, d1, d2, d3, d4, rest)
  {
    AssociateHeader(line, d1, d2, d3, d4, rest);
  }

  /** The numeral that `Number` read, given back explicitly. */
  lemma NumeralBefore(s: string, sep: string) returns (d: string)
    requires Number(s, sep).Some?
    ensures IsNumeral(d)
    ensures s == d + sep + Number(s, sep).value.1
    ensures Number(s, sep).value.0 == Value(d)
  {
    NumberSound(s, sep);
    d := s[..|s| - |sep| - |Number(s, sep).value.1|];
  }

  lemma AssociateHeader(line: string, d1: string, d2: string, d3: string, d4: string, rest: string)
    requires line == "@@ -" + (d1 + "," + (d2 + " +" + (d3 + "," + (d4 + " @@" + rest))))
    ensures line == "@@ -" + d1 + "," + d2 + " +" + d3 + "," + d4 + " @@" + rest
  {
    var u := d4 + " @@" + rest;
    assert d3 + "," + u == d3 + "," + d4 + " @@" + rest;
    var v := d3 + "," + u;
    assert d2 + " +" + v == d2 + " +" + d3 + "," + d4 + " @@" + rest;
    var w := d2 + " +" + v;
    assert d1 + "," + w == d1 + "," + d2 + " +" + d3 + "," + d4 + " @@" + rest;
  }

  /** A header written with explicit counts is read back exactly, whatever
      follows it on the line. */
  lemma ParseFormat(r: Range, rest: string)
    ensures Parse(Format(r) + rest) == Some(r)
  {
    ParseComplete(Format(r) + rest, Decimal(r.origStart), Decimal(r.origCount),
      Decimal(r.modStart), Decimal(r.modCount), rest);
  }

  /** A written header starts with the `@@` marker and reads back alone. */
  lemma FormatMarked(r: Range)
    ensures |Format(r)| >= 2 && Format(r)[0] == '@' && Format(r)[1] == '@'
    ensures Parse(Format(r)) == Some(r)
  {
    FormatStart(r);
    PrefixSplit("@@ -", Format(r));
    FormatAlone(r);
  }

  lemma FormatStart(r: Range)
    ensures "@@ -" <= Format(r)
  {
    var tail := Decimal(r.origStart) + "," + Decimal(r.origCount)
      + " +" + Decimal(r.modStart) + "," + Decimal(r.modCount) + " @@";
    assert Format(r) == "@@ -" + tail;
  }

  lemma FormatAlone(r: Range)
    ensures Parse(Format(r)) == Some(r)
  {
    ParseFormat(r, "");
    assert Format(r) + "" == Format(r);
  }

  /** difflib leaves out the count of a one-line range (`@@ -1 +1 @@`); such a
      header does not match. */
  lemma SingleLineRangeRejected()
    ensures Parse("@@ -1 +1 @@").None?
  {
    var line := "@@ -1 +1 @@";
    assert "@@ -" <= line;
    var s0 := line[4..];
    assert s0 == "1 +1 @@";
    assert DigitRun(s0[1..]) == 0;
    assert DigitRun(s0) == 1;
    assert !("," <= s0[1..]);
    assert Number(s0, ",").None?;
  }
}
