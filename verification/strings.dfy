/** Character-level helpers that stand in for the Python `str` methods the
    service relies on: `isspace`, `split()` with no argument, and `lower`. */
module Strings {

  /** The characters Python's `str.isspace` (and so `str.split()`) treats as
      whitespace. */
  predicate IsSpace(c: char) {
    || c == ' ' || c == '\t' || c == '\n' || c == '\r'
    || c == '\U{000B}' || c == '\U{000C}'
    || ('\U{001C}' <= c <= '\U{001F}')
    || c == '\U{0085}' || c == '\U{00A0}' || c == '\U{1680}'
    || ('\U{2000}' <= c <= '\U{200A}')
    || c == '\U{2028}' || c == '\U{2029}' || c == '\U{202F}' || c == '\U{205F}' || c == '\U{3000}'
  }

  /** A run of whitespace, possibly empty. */
  predicate Blank(s: string) {
    forall i :: 0 <= i < |s| ==> IsSpace(s[i])
  }

  /** A non-empty run of non-whitespace characters: what `split()` yields. */
  predicate IsWord(s: string) {
    |s| > 0 && forall i :: 0 <= i < |s| ==> !IsSpace(s[i])
  }

  /** Length of the run of non-whitespace characters that starts `s`. */
  function WordLength(s: string): (n: nat)
    ensures n <= |s|
    ensures forall i :: 0 <= i < n ==> !IsSpace(s[i])
    ensures n < |s| ==> IsSpace(s[n])
    decreases |s|
  {
    if |s| == 0 || IsSpace(s[0]) then 0 else 1 + WordLength(s[1..])
  }

  /** Python's `s.split()`: the maximal runs of non-whitespace, in order;
      leading, trailing and repeated whitespace produce no empty pieces. */
  function Words(s: string): (r: seq<string>)
    ensures forall i :: 0 <= i < |r| ==> IsWord(r[i])
    decreases |s|
  {
    if |s| == 0 then []
    else if IsSpace(s[0]) then Words(s[1..])
    else
      var n := WordLength(s);
      [s[..n]] + Words(s[n..])
  }

  /** The characters of `s` that are not whitespace, in order. */
  function NonSpace(s: string): string
    decreases |s|
  {
    if |s| == 0 then ""
    else (if IsSpace(s[0]) then "" else [s[0]]) + NonSpace(s[1..])
  }

  function Concat(ws: seq<string>): string
    decreases |ws|
  {
    if |ws| == 0 then "" else ws[0] + Concat(ws[1..])
  }

  lemma {:induction false} NonSpaceAppend(a: string, b: string)
    ensures NonSpace(a + b) == NonSpace(a) + NonSpace(b)
    decreases |a|
  {
    if |a| == 0 {
      assert a + b == b;
    } else {
      assert (a + b)[1..] == a[1..] + b;
      NonSpaceAppend(a[1..], b);
    }
  }

  lemma {:induction false} NonSpaceOfWord(w: string)
    requires forall i :: 0 <= i < |w| ==> !IsSpace(w[i])
    ensures NonSpace(w) == w
    decreases |w|
  {
    if |w| > 0 {
      NonSpaceOfWord(w[1..]);
      assert w == [w[0]] + w[1..];
    }
  }

  /** Splitting loses exactly the whitespace: gluing the words back together
      gives the non-whitespace characters of the input. */
  lemma {:induction false} WordsKeepNonSpace(s: string)
    ensures Concat(Words(s)) == NonSpace(s)
    decreases |s|
  {
    if |s| == 0 {
    } else if IsSpace(s[0]) {
      WordsKeepNonSpace(s[1..]);
    } else {
      var n := WordLength(s);
      assert s == s[..n] + s[n..];
      NonSpaceAppend(s[..n], s[n..]);
      NonSpaceOfWord(s[..n]);
      WordsKeepNonSpace(s[n..]);
    }
  }

  lemma {:induction false} WordsSkipBlank(w: string, t: string)
    requires Blank(w)
    ensures Words(w + t) == Words(t)
    decreases |w|
  {
    if |w| > 0 {
      assert (w + t)[0] == w[0];
      assert (w + t)[1..] == w[1..] + t;
      WordsSkipBlank(w[1..], t);
    } else {
      assert w + t == t;
    }
  }

  lemma {:induction false} WordLengthOfWord(a: string, t: string)
    requires forall i :: 0 <= i < |a| ==> !IsSpace(a[i])
    requires |t| == 0 || IsSpace(t[0])
    ensures WordLength(a + t) == |a|
    decreases |a|
  {
    if |a| > 0 {
      assert (a + t)[1..] == a[1..] + t;
      WordLengthOfWord(a[1..], t);
    } else {
      assert a + t == t;
    }
  }

  lemma {:induction false} WordsTakeWord(a: string, t: string)
    requires IsWord(a)
    requires |t| == 0 || IsSpace(t[0])
    ensures Words(a + t) == [a] + Words(t)
  {
    WordLengthOfWord(a, t);
    assert (a + t)[..|a|] == a;
    assert (a + t)[|a|..] == t;
  }

  lemma WordsOfBlank(w: string)
    requires Blank(w)
    ensures Words(w) == []
  {
    assert w + "" == w;
    WordsSkipBlank(w, "");
  }

  /** A header of the shape `<blank> a <blank> b <blank>`, with a non-empty gap,
      splits into exactly the two words `a` and `b`. */
  lemma {:induction false} WordsOfTwo(w0: string, a: string, w1: string, b: string, w2: string)
    requires Blank(w0) && Blank(w1) && Blank(w2) && |w1| > 0
    requires IsWord(a) && IsWord(b)
    ensures Words(w0 + a + w1 + b + w2) == [a, b]
  {
    var afterBlank := a + (w1 + (b + w2));
    Associate(w0, a, w1, b, w2);
    WordsSkipBlank(w0, afterBlank);
    WordGapWord(a, w1, b, w2);
  }

  lemma Associate(s0: string, s1: string, s2: string, s3: string, s4: string)
    ensures s0 + s1 + s2 + s3 + s4 == s0 + (s1 + (s2 + (s3 + s4)))
  {
  }

  lemma {:induction false} WordGapWord(a: string, w1: string, b: string, w2: string)
    requires Blank(w1) && Blank(w2) && |w1| > 0
    requires IsWord(a) && IsWord(b)
    ensures Words(a + (w1 + (b + w2))) == [a, b]
  {
    var gapTail := w1 + (b + w2);
    assert Words(gapTail) == [b] by {
      WordsSkipBlank(w1, b + w2);
      WordThenBlank(b, w2);
    }
    assert gapTail[0] == w1[0];
    WordsTakeWord(a, gapTail);
  }

  lemma WordThenBlank(b: string, w: string)
    requires IsWord(b) && Blank(w)
    ensures Words(b + w) == [b]
  {
    WordsTakeWord(b, w);
    WordsOfBlank(w);
  }

  function LowerChar(c: char): char {
    if 'A' <= c <= 'Z' then (c as int + 32) as char else c
  }

  /** Both cases of a letter lower-case to the small letter. */
  lemma LowerLetter(c: char, small: char, capital: char)
    requires 'a' <= small <= 'z' && capital as int == small as int - 32
    requires c == small || c == capital
    ensures LowerChar(c) == small
  {
  }

  /** Python's `str.lower` restricted to ASCII letters; every other character is
      kept as it is. */
  function AsciiLower(s: string): (r: string)
    ensures |r| == |s|
    decreases |s|
  {
    if |s| == 0 then [] else [LowerChar(s[0])] + AsciiLower(s[1..])
  }

  /** Lower-casing works character by character. */
  lemma {:induction false} AsciiLowerAt(s: string, i: int)
    requires 0 <= i < |s|
    ensures AsciiLower(s)[i] == LowerChar(s[i])
    decreases |s|
  {
    if i > 0 {
      AsciiLowerAt(s[1..], i - 1);
    }
  }

  lemma AsciiLowerChars(s: string)
    ensures forall i :: 0 <= i < |s| ==> AsciiLower(s)[i] == LowerChar(s[i])
  {
    forall i | 0 <= i < |s|
      ensures AsciiLower(s)[i] == LowerChar(s[i])
    {
      AsciiLowerAt(s, i);
    }
  }

  /** Lower-casing twice is lower-casing once. */
  lemma LowerIdempotent(s: string)
    ensures AsciiLower(AsciiLower(s)) == AsciiLower(s)
  {
    AsciiLowerChars(s);
    AsciiLowerChars(AsciiLower(s));
  }
}
