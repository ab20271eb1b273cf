/** `IDEService._detect_language` (backend/app/services/ide_service.py lines
    268-308): count the lower-cased extensions of the project's files, then
    pick the language of the mapped extension with the greatest count, the
    first one counted winning a tie. */
module Language {
  import opened Wrappers
  import Strings
  import Seqs

  /** A directory listing entry: its path and its `type` (`"file"` or
      `"directory"`). */
  datatype ProjectFile = ProjectFile(path: string, kind: string)

  /** `s.rfind(c)`: the last position of `c`, or -1. */
  function RFind(s: string, c: char): (r: int)
    ensures -1 <= r < |s|
    decreases |s|
  {
    if |s| == 0 then -1
    else if s[|s| - 1] == c then |s| - 1
    else RFind(s[..|s| - 1], c)
  }

  /** The position found holds `c`, and no later position does. */
  lemma {:induction false} RFindLast(s: string, c: char)
    ensures RFind(s, c) >= 0 ==> s[RFind(s, c)] == c
    ensures forall j :: RFind(s, c) < j < |s| ==> s[j] != c
    decreases |s|
  {
    if |s| > 0 && s[|s| - 1] != c {
      var init := s[..|s| - 1];
      RFindLast(init, c);
      assert forall j :: 0 <= j < |init| ==> init[j] == s[j];
    }
  }

  /** Only dots between two positions. */
  predicate AllDots(p: string, from: int, to: int)
    requires 0 <= from && to <= |p|
  {
    forall k :: from <= k < to ==> p[k] == '.'
  }

  /** `posixpath.splitext(p)`: the extension is everything from the last dot
      on, provided that dot is in the last path component and is not one of
      the component's leading dots; otherwise it is empty. */
  function SplitExt(p: string): (string, string) {
    var sepIndex := RFind(p, '/');
    var dotIndex := RFind(p, '.');
    if dotIndex > sepIndex && !AllDots(p, sepIndex + 1, dotIndex) then (p[..dotIndex], p[dotIndex..])
    else (p, "")
  }

  /** `os.path.splitext(path)[1].lower()`. */
  function Extension(path: string): string {
    Strings.AsciiLower(SplitExt(path).1)
  }

  /** The root and the extension put back together give the path. A
      non-empty extension starts with its only dot and follows, within the
      last path component, a character that is not a dot. Conversely, when
      the last component has a dot after some character that is not a dot,
      the extension is not empty. */
  lemma SplitExtParts(p: string)
    ensures SplitExt(p).0 + SplitExt(p).1 == p
    ensures var ext := SplitExt(p).1;
      ext != "" ==>
        && ext[0] == '.'
        && (forall k :: 1 <= k < |ext| ==> ext[k] != '.' && ext[k] != '/')
        && exists k :: 0 <= k < |p| - |ext| && p[k] != '.' && forall m :: k <= m < |p| ==> p[m] != '/'
    ensures (exists i, j :: 0 <= i < j < |p| && p[i] != '.' && p[j] == '.' && forall m :: i <= m < |p| ==> p[m] != '/')
      ==> SplitExt(p).1 != ""
  {
    var sepIndex := RFind(p, '/');
    var dotIndex := RFind(p, '.');
    RFindLast(p, '/');
    RFindLast(p, '.');
    if dotIndex > sepIndex && !AllDots(p, sepIndex + 1, dotIndex) {
      var ext := p[dotIndex..];
      assert p[..dotIndex] + ext == p;
      forall k | 1 <= k < |ext|
        ensures ext[k] != '.' && ext[k] != '/'
      {
        assert ext[k] == p[dotIndex + k];
      }
      var k :| sepIndex + 1 <= k < dotIndex && p[k] != '.';
      assert forall m :: k <= m < |p| ==> p[m] != '/';
    }
    if exists i, j :: 0 <= i < j < |p| && p[i] != '.' && p[j] == '.' && forall m :: i <= m < |p| ==> p[m] != '/' {
      var i, j :| 0 <= i < j < |p| && p[i] != '.' && p[j] == '.' && forall m :: i <= m < |p| ==> p[m] != '/';
      assert sepIndex < i;
      assert j <= dotIndex;
      assert !AllDots(p, sepIndex + 1, dotIndex);
    }
  }

  /** What one entry adds to the count: its lower-cased extension when it is
      of type `file` and has one, and nothing otherwise. */
  function Counted(f: ProjectFile): (r: seq<string>)
    ensures |r| <= 1
  {
    var ext := Extension(f.path);
    if f.kind == "file" && ext != "" then [ext] else []
  }

  /** The extensions counted, in file order. */
  function Extensions(files: seq<ProjectFile>): (exts: seq<string>)
    ensures |exts| <= |files|
  {
    ExtensionsAtMostOne(files);
    Seqs.FlatMap(Counted, files)
  }

  lemma {:induction false} ExtensionsAtMostOne(files: seq<ProjectFile>)
    ensures |Seqs.FlatMap(Counted, files)| <= |files|
    decreases |files|
  {
    if |files| > 0 {
      ExtensionsAtMostOne(files[..|files| - 1]);
    }
  }

  /** One more entry adds its extension, if it is counted at all. */
  lemma ExtensionsSnoc(files: seq<ProjectFile>, f: ProjectFile)
    ensures Extensions(files + [f]) == Extensions(files) + Counted(f)
  {
    Seqs.FlatMapSnoc(Counted, files, f);
  }

  /** Entry `i` of the listing is a file with extension `e`. */
  predicate FileWith(files: seq<ProjectFile>, i: int, e: string) {
    0 <= i < |files| && files[i].kind == "file" && Extension(files[i].path) == e
  }

  /** An extension is counted exactly when some entry of type `file` has it,
      lower-cased, as a non-empty extension. */
  lemma {:induction false} ExtensionsCounted(files: seq<ProjectFile>, e: string)
    ensures e in Extensions(files) <==> e != "" && exists i :: FileWith(files, i, e)
    decreases |files|
  {
    if |files| > 0 {
      var n := |files| - 1;
      var init := files[..n];
      var f := files[n];
      ExtensionsCounted(init, e);
      assert files == init + [f];
      ExtensionsSnoc(init, f);
      if e in Extensions(files) {
        ExtensionsCountedWitness(files, e);
      }
      if e != "" && exists i :: FileWith(files, i, e) {
        var i :| FileWith(files, i, e);
        if i < n {
          assert FileWith(init, i, e) by {
            assert init[i] == files[i];
          }
        }
      }
    }
  }

  /** The induction step's witness for a counted extension: a file of the
      shorter listing, or the last entry. */
  lemma ExtensionsCountedWitness(files: seq<ProjectFile>, e: string)
    requires |files| > 0
    requires var init := files[..|files| - 1];
      e in Extensions(init) ==> exists i :: FileWith(init, i, e)
    requires e in Extensions(files)
    ensures exists i :: FileWith(files, i, e)
  {
    var n := |files| - 1;
    var init := files[..n];
    assert files == init + [files[n]];
    ExtensionsSnoc(init, files[n]);
    if e in Extensions(init) {
      var i :| FileWith(init, i, e);
      assert init[i] == files[i];
      assert FileWith(files, i, e);
    } else {
      assert FileWith(files, n, e);
    }
  }

  /** What is counted is already in lower case. */
  lemma ExtensionsLower(files: seq<ProjectFile>, e: string)
    requires e in Extensions(files)
    ensures Strings.AsciiLower(e) == e
  {
    ExtensionsCounted(files, e);
    var i :| FileWith(files, i, e);
    Strings.LowerIdempotent(SplitExt(files[i].path).1);
  }

  /** How often `e` was counted. */
  function Count(exts: seq<string>, e: string): nat {
    multiset(exts)[e]
  }

  /** The distinct extensions in order of first appearance: the order in
      which the counting dictionary holds its keys. */
  function Dedup(exts: seq<string>): (keys: seq<string>)
    ensures forall i, j :: 0 <= i < j < |keys| ==> keys[i] != keys[j]
    ensures forall e :: e in keys <==> e in exts
    decreases |exts|
  {
    if |exts| == 0 then []
    else
      var init := Dedup(exts[..|exts| - 1]);
      var e := exts[|exts| - 1];
      assert forall x :: x in exts <==> x in exts[..|exts| - 1] || x == e by {
        assert exts == exts[..|exts| - 1] + [e];
      }
      if e in init then init else init + [e]
  }

  /** The position where `x` first occurs in `xs`. */
  function FirstIndex(xs: seq<string>, x: string): (i: nat)
    requires x in xs
    ensures i < |xs| && xs[i] == x
    ensures forall j :: 0 <= j < i ==> xs[j] != x
    decreases |xs|
  {
    if xs[0] == x then 0
    else
      assert x in xs[1..] by {
        assert xs == [xs[0]] + xs[1..];
      }
      1 + FirstIndex(xs[1..], x)
  }

  /** A position holding `x` with no `x` before it is the first index. */
  lemma FirstIndexAt(xs: seq<string>, x: string, k: int)
    requires 0 <= k < |xs| && xs[k] == x
    requires forall j :: 0 <= j < k ==> xs[j] != x
    ensures FirstIndex(xs, x) == k
  {
  }

  lemma FirstIndexSnoc(xs: seq<string>, e: string, x: string)
    requires x in xs + [e]
    ensures FirstIndex(xs + [e], x) == if x in xs then FirstIndex(xs, x) else |xs|
  {
    var ys := xs + [e];
    if x in xs {
      var k := FirstIndex(xs, x);
      assert ys[k] == x;
      assert forall j :: 0 <= j < k ==> ys[j] == xs[j];
      FirstIndexAt(ys, x, k);
    } else {
      assert forall j :: 0 <= j < |xs| ==> ys[j] == xs[j];
      FirstIndexAt(ys, x, |xs|);
    }
  }

  lemma DedupOrdered(exts: seq<string>, i: int, j: int)
    requires 0 <= i < j < |Dedup(exts)|
    ensures FirstIndex(exts, Dedup(exts)[i]) < FirstIndex(exts, Dedup(exts)[j])
  {
    DedupFirstAppearance(exts);
  }

  /** The counting dictionary's keys come in the order in which their first
      occurrences come in the extensions counted. */
  lemma {:induction false} DedupFirstAppearance(exts: seq<string>)
    ensures var keys := Dedup(exts);
      forall i, j :: 0 <= i < j < |keys| ==> FirstIndex(exts, keys[i]) < FirstIndex(exts, keys[j])
    decreases |exts|
  {
    if |exts| > 0 {
      var n := |exts| - 1;
      var init := exts[..n];
      DedupFirstAppearance(init);
      assert exts == init + [exts[n]];
      var keys := Dedup(exts);
      forall i, j | 0 <= i < j < |keys|
        ensures FirstIndex(exts, keys[i]) < FirstIndex(exts, keys[j])
      {
        DedupOrderStep(init, exts[n], i, j);
      }
    }
  }

  /** The induction step: one more extension keeps the keys in order. */
  lemma DedupOrderStep(init: seq<string>, e: string, i: int, j: int)
    requires var keys := Dedup(init);
      forall i, j :: 0 <= i < j < |keys| ==> FirstIndex(init, keys[i]) < FirstIndex(init, keys[j])
    requires 0 <= i < j < |Dedup(init + [e])|
    ensures var keys := Dedup(init + [e]);
      FirstIndex(init + [e], keys[i]) < FirstIndex(init + [e], keys[j])
  {
    DedupStep(init, e);
    var before := Dedup(init);
    var keys := Dedup(init + [e]);
    FirstIndexSnoc(init, e, keys[i]);
    FirstIndexSnoc(init, e, keys[j]);
    assert keys[i] == before[i] && keys[i] in init;
    if j < |before| {
      assert keys[j] == before[j];
    }
  }

  /** `lang_map`: the extensions that name a language, and the language. */
  const LangTable: seq<(string, string)> := [
    (".py", "Python"),
    (".js", "JavaScript"),
    (".ts", "TypeScript"),
    (".jsx", "JavaScript (React)"),
    (".tsx", "TypeScript (React)"),
    (".java", "Java"),
    (".cpp", "C++"),
    (".c", "C"),
    (".go", "Go"),
    (".rs", "Rust"),
    (".rb", "Ruby"),
    (".php", "PHP"),
    (".cs", "C#")
  ]

  /** The language `table` gives `e`, if any. */
  function Lookup(table: seq<(string, string)>, e: string): (r: Option<string>)
    decreases |table|
  {
    if |table| == 0 then None
    else if table[0].0 == e then Some(table[0].1)
    else Lookup(table[1..], e)
  }

  /** The table has an entry for `e` exactly when the lookup succeeds, and
      the first such entry gives the language. */
  lemma {:induction false} LookupFinds(table: seq<(string, string)>, e: string)
    ensures Lookup(table, e).Some? <==> exists i :: 0 <= i < |table| && table[i].0 == e
    ensures Lookup(table, e).Some? ==>
      exists i :: 0 <= i < |table| && table[i] == (e, Lookup(table, e).value)
        && forall j :: 0 <= j < i ==> table[j].0 != e
    decreases |table|
  {
    if |table| > 0 && table[0].0 != e {
      var rest := table[1..];
      LookupFinds(rest, e);
      if Lookup(table, e).Some? {
        var i :| 0 <= i < |rest| && rest[i] == (e, Lookup(rest, e).value) && forall j :: 0 <= j < i ==> rest[j].0 != e;
        assert table[i + 1] == rest[i];
        assert forall j :: 1 <= j < i + 1 ==> table[j] == rest[j - 1];
      } else {
        forall i | 0 <= i < |table|
          ensures table[i].0 != e
        {
          if i > 0 {
            assert table[i] == rest[i - 1];
          }
        }
      }
    }
  }

  /** `ext in lang_map`, for the table `table`. */
  predicate Mapped(table: seq<(string, string)>, e: string) {
    Lookup(table, e).Some?
  }

  /** `lang_map[ext]`. */
  function LanguageOf(table: seq<(string, string)>, e: string): string
    requires Mapped(table, e)
  {
    Lookup(table, e).value
  }

  /** No entry of `table` names the fallback or the empty string. */
  predicate NoUnknown(table: seq<(string, string)>) {
    forall i :: 0 <= i < |table| ==> table[i].1 != Unknown && table[i].1 != ""
  }

  const Unknown := "Unknown"

  /** `language or "Unknown"`: the empty string counts as false. */
  function OrUnknown(language: string): (r: string)
    ensures r != ""
    ensures language != "" ==> r == language
  {
    if language != "" then language else Unknown
  }

  /** The running choice of the selection loop: the position in `keys` of
      the extension whose language is the current `most_common`, and
      `max_count`. */
  datatype Choice = Choice(winner: Option<nat>, maxCount: nat)

  /** The selection loop over `keys`: a mapped extension replaces the current
      choice only when its count is strictly greater. The result is the first
      mapped extension of greatest count, and that count. */
  function Pick(keys: seq<string>, exts: seq<string>, table: seq<(string, string)>): (c: Choice)
    ensures c.winner.None? <==> c.maxCount == 0
    ensures c.winner.Some? ==>
      var i := c.winner.value;
      i < |keys| && Mapped(table, keys[i]) && Count(exts, keys[i]) == c.maxCount
    decreases |keys|
  {
    if |keys| == 0 then Choice(None, 0)
    else
      var n := |keys| - 1;
      var before := Pick(keys[..n], exts, table);
      var count := Count(exts, keys[n]);
      if count > before.maxCount && Mapped(table, keys[n]) then Choice(Some(n), count)
      else before
  }

  /** The choice is maximal: no mapped key is counted more often than the
      winner, every mapped key before it is counted less often, and with no
      winner no mapped key is counted at all. */
  lemma {:induction false} PickMax(keys: seq<string>, exts: seq<string>, table: seq<(string, string)>)
    ensures var c := Pick(keys, exts, table);
      forall j :: 0 <= j < |keys| && Mapped(table, keys[j]) ==> Count(exts, keys[j]) <= c.maxCount
    ensures var c := Pick(keys, exts, table);
      c.winner.Some? ==>
        forall j :: 0 <= j < c.winner.value && Mapped(table, keys[j]) ==> Count(exts, keys[j]) < c.maxCount
    decreases |keys|
  {
    if |keys| > 0 {
      var n := |keys| - 1;
      var init := keys[..n];
      PickMax(init, exts, table);
      var c := Pick(keys, exts, table);
      forall j | 0 <= j < |keys| && Mapped(table, keys[j])
        ensures Count(exts, keys[j]) <= c.maxCount
      {
        if j < n {
          assert init[j] == keys[j];
        }
      }
      if c.winner.Some? {
        forall j | 0 <= j < c.winner.value && Mapped(table, keys[j])
          ensures Count(exts, keys[j]) < c.maxCount
        {
          assert init[j] == keys[j];
        }
      }
    }
  }

  /** One more key takes over the choice exactly when it is mapped and
      counted more often than the current winner. */
  lemma PickSnoc(keys: seq<string>, e: string, exts: seq<string>, table: seq<(string, string)>)
    ensures var before := Pick(keys, exts, table);
      Pick(keys + [e], exts, table)
        == if Count(exts, e) > before.maxCount && Mapped(table, e) then Choice(Some(|keys|), Count(exts, e)) else before
  {
    assert (keys + [e])[..|keys|] == keys;
  }

  /** The selection over the counted extensions `exts`. */
  function Choose(exts: seq<string>, table: seq<(string, string)>): string {
    var keys := Dedup(exts);
    match Pick(keys, exts, table).winner
    case None => Unknown
    case Some(i) => OrUnknown(LanguageOf(table, keys[i]))
  }

  /** `_detect_language` with `table` as `lang_map`. */
  function Detect(files: seq<ProjectFile>, table: seq<(string, string)>): string {
    Choose(Extensions(files), table)
  }

  /** `_detect_language(project_id, files)`. */
  function DetectLanguage(files: seq<ProjectFile>): string {
    Detect(files, LangTable)
  }

  lemma LangTableNoUnknown()
    ensures NoUnknown(LangTable)
  {
    assert forall k :: 0 <= k < |LangTable| ==> |LangTable[k].1| > 0 && LangTable[k].1[0] != 'U';
  }

  /** What the result means: `Unknown` exactly when no counted extension is
      mapped; otherwise the language of a mapped extension that was counted
      at least as often as every other mapped extension, and strictly more
      often than every mapped extension first seen before it. */
  lemma {:induction false} ChooseSpec(exts: seq<string>, table: seq<(string, string)>)
    requires NoUnknown(table)
    ensures Choose(exts, table) == Unknown <==> forall e :: e in exts ==> !Mapped(table, e)
    ensures var keys := Dedup(exts); var c := Pick(keys, exts, table);
      Choose(exts, table) != Unknown ==>
        && c.winner.Some? && Winner(exts, keys, table, c.winner.value)
        && Choose(exts, table) == LanguageOf(table, keys[c.winner.value])
  {
    var keys := Dedup(exts);
    var c := Pick(keys, exts, table);
    PickSpec(keys, exts, table);
    PickMax(keys, exts, table);
    if c.winner.None? {
      assert Choose(exts, table) == Unknown;
    } else {
      var i := c.winner.value;
      LanguageNotUnknown(table, keys[i]);
      assert Winner(exts, keys, table, i) && Choose(exts, table) == LanguageOf(table, keys[i]);
    }
  }

  /** `keys[i]` is mapped, counted at least as often as every mapped
      extension and more often than every mapped one before it. */
  predicate Winner(exts: seq<string>, keys: seq<string>, table: seq<(string, string)>, i: int) {
    && 0 <= i < |keys| && Mapped(table, keys[i])
    && (forall e :: e in exts && Mapped(table, e) ==> Count(exts, e) <= Count(exts, keys[i]))
    && (forall j :: 0 <= j < i && Mapped(table, keys[j]) ==> Count(exts, keys[j]) < Count(exts, keys[i]))
  }

  /** The same for a listing: `Unknown` exactly when no file has a mapped,
      non-empty extension. */
  lemma DetectUnknown(files: seq<ProjectFile>, table: seq<(string, string)>)
    requires NoUnknown(table)
    ensures Detect(files, table) == Unknown <==>
      forall i, e :: FileWith(files, i, e) && e != "" ==> !Mapped(table, e)
  {
    var exts := Extensions(files);
    ChooseSpec(exts, table);
    if Detect(files, table) == Unknown {
      forall i, e | FileWith(files, i, e) && e != ""
        ensures !Mapped(table, e)
      {
        ExtensionsCounted(files, e);
      }
    } else {
      var e :| e in exts && Mapped(table, e);
      ExtensionsCounted(files, e);
    }
  }

  lemma LanguageNotUnknown(table: seq<(string, string)>, e: string)
    requires NoUnknown(table) && Mapped(table, e)
    ensures LanguageOf(table, e) != Unknown && LanguageOf(table, e) != ""
  {
    LookupFinds(table, e);
  }

  /** The choice over the distinct extensions, stated over the extensions. */
  lemma PickSpec(keys: seq<string>, exts: seq<string>, table: seq<(string, string)>)
    requires forall e :: e in keys <==> e in exts
    ensures Pick(keys, exts, table).winner.None? <==> forall e :: e in exts ==> !Mapped(table, e)
    ensures Pick(keys, exts, table).winner.Some? ==>
      var i := Pick(keys, exts, table).winner.value;
      i < |keys| && forall e :: e in exts && Mapped(table, e) ==> Count(exts, e) <= Count(exts, keys[i])
  {
    var c := Pick(keys, exts, table);
    PickMax(keys, exts, table);
    if c.winner.None? {
      forall e | e in exts
        ensures !Mapped(table, e)
      {
        var j :| 0 <= j < |keys| && keys[j] == e;
        assert Count(exts, e) > 0;
      }
    } else {
      var i := c.winner.value;
      assert keys[i] in exts;
      forall e | e in exts && Mapped(table, e)
        ensures Count(exts, e) <= Count(exts, keys[i])
      {
        var j :| 0 <= j < |keys| && keys[j] == e;
      }
    }
  }

  /** Entries that are not files do not count. */
  lemma NonFilesIgnored(files: seq<ProjectFile>, f: ProjectFile, rest: seq<ProjectFile>, table: seq<(string, string)>)
    requires f.kind != "file"
    ensures Detect(files + [f] + rest, table) == Detect(files + rest, table)
  {
    ExtensionsSkipNonFile(files, f, rest);
  }

  lemma ExtensionsSkipNonFile(files: seq<ProjectFile>, f: ProjectFile, rest: seq<ProjectFile>)
    requires f.kind != "file"
    ensures Extensions(files + [f] + rest) == Extensions(files + rest)
  {
    ExtensionsAppend(files + [f], rest);
    ExtensionsAppend(files, rest);
    ExtensionsSnoc(files, f);
    assert Counted(f) == [];
    assert Extensions(files) + [] == Extensions(files);
  }

  /** The extensions of two listings one after the other. */
  lemma ExtensionsAppend(a: seq<ProjectFile>, b: seq<ProjectFile>)
    ensures Extensions(a + b) == Extensions(a) + Extensions(b)
  {
    Seqs.FlatMapAppend(Counted, a, b);
  }

  /** The choice depends on the counts of the mapped extensions only. */
  lemma {:induction false} PickSameMappedCounts(keys: seq<string>, a: seq<string>, b: seq<string>, table: seq<(string, string)>)
    requires forall j :: 0 <= j < |keys| && Mapped(table, keys[j]) ==> Count(a, keys[j]) == Count(b, keys[j])
    ensures Pick(keys, a, table) == Pick(keys, b, table)
    decreases |keys|
  {
    if |keys| > 0 {
      var n := |keys| - 1;
      assert forall j :: 0 <= j < n ==> keys[..n][j] == keys[j];
      PickSameMappedCounts(keys[..n], a, b, table);
    }
  }

  /** A file whose extension is not in the table never changes the result,
      wherever it stands in the listing and however often that extension is
      seen elsewhere. */
  lemma UnmappedIgnored(files: seq<ProjectFile>, f: ProjectFile, rest: seq<ProjectFile>, table: seq<(string, string)>)
    requires !Mapped(table, Extension(f.path))
    ensures Detect(files + [f] + rest, table) == Detect(files + rest, table)
  {
    ExtensionsAppend(files + [f], rest);
    ExtensionsAppend(files, rest);
    ExtensionsSnoc(files, f);
    var a := Extensions(files);
    var b := Extensions(rest);
    if Counted(f) != [] {
      assert Counted(f) == [Extension(f.path)];
      ChooseIgnoresUnmapped(a, Extension(f.path), b, table);
    } else {
      assert a + Counted(f) + b == a + b;
    }
  }

  /** The same for the counted extensions: one more occurrence of an
      unmapped extension, anywhere, leaves the choice as it was. */
  lemma ChooseIgnoresUnmapped(a: seq<string>, u: string, b: seq<string>, table: seq<(string, string)>)
    requires !Mapped(table, u)
    ensures Choose(a + [u] + b, table) == Choose(a + b, table)
  {
    var more := a + [u] + b;
    var exts := a + b;
    ChooseIsMostCommon(more, table);
    ChooseIsMostCommon(exts, table);
    SameMapped(a, u, b, table);
    if exists e :: e in exts && Mapped(table, e) {
      var e :| MostCommon(exts, table, e);
      MostCommonSkip(a, u, b, table, e);
    }
  }

  /** Apart from `u`, the two sequences hold the same elements, each as often. */
  lemma SameMapped(a: seq<string>, u: string, b: seq<string>, table: seq<(string, string)>)
    ensures forall x :: x != u ==> (x in a + [u] + b <==> x in a + b)
    ensures forall x :: x != u ==> Count(a + [u] + b, x) == Count(a + b, x)
  {
    assert multiset(a + [u] + b) == multiset(a + b) + multiset{u};
    assert forall x :: x in a + [u] + b <==> x in a || x == u || x in b;
  }

  /** The most common extension stays the most common when an unmapped one
      is put in anywhere. */
  lemma MostCommonSkip(a: seq<string>, u: string, b: seq<string>, table: seq<(string, string)>, e: string)
    requires !Mapped(table, u) && MostCommon(a + b, table, e)
    ensures MostCommon(a + [u] + b, table, e)
  {
    var more := a + [u] + b;
    SameMapped(a, u, b, table);
    FirstIndexSkip(a, u, b, e);
    forall x | x in more && Mapped(table, x) && Count(more, x) == Count(more, e)
      ensures FirstIndex(more, e) <= FirstIndex(more, x)
    {
      FirstIndexSkip(a, u, b, x);
    }
  }

  /** Taking out one element that is not `x` moves the first `x` one place
      back exactly when it stood after the element taken out. */
  lemma FirstIndexSkip(a: seq<string>, u: string, b: seq<string>, x: string)
    requires x in a + b && x != u
    ensures x in a + [u] + b
    ensures var i := FirstIndex(a + b, x);
      FirstIndex(a + [u] + b, x) == if i < |a| then i else i + 1
  {
    var ys := a + b;
    var xs := a + [u] + b;
    var i := FirstIndex(ys, x);
    if i < |a| {
      assert xs[i] == ys[i];
      assert forall j :: 0 <= j < i ==> xs[j] == ys[j];
      FirstIndexAt(xs, x, i);
    } else {
      assert xs[i + 1] == ys[i];
      forall j | 0 <= j < i + 1
        ensures xs[j] != x
      {
        if j < |a| {
          assert xs[j] == ys[j];
        } else if j > |a| {
          assert xs[j] == ys[j - 1];
        }
      }
      FirstIndexAt(xs, x, i + 1);
    }
  }

  /** `e` is the extension whose language `_detect_language` settles on: it
      is mapped, counted at least as often as every mapped extension, and of
      the mapped extensions counted as often it was seen first. */
  predicate MostCommon(exts: seq<string>, table: seq<(string, string)>, e: string) {
    && e in exts && Mapped(table, e)
    && (forall x :: x in exts && Mapped(table, x) ==> Count(exts, x) <= Count(exts, e))
    && (forall x :: x in exts && Mapped(table, x) && Count(exts, x) == Count(exts, e) ==>
          FirstIndex(exts, e) <= FirstIndex(exts, x))
  }

  /** There is at most one such extension. */
  lemma MostCommonUnique(exts: seq<string>, table: seq<(string, string)>, e: string, e': string)
    requires MostCommon(exts, table, e) && MostCommon(exts, table, e')
    ensures e == e'
  {
    assert Count(exts, e) == Count(exts, e');
    assert FirstIndex(exts, e) == FirstIndex(exts, e');
  }

  /** The selection against its reference: with no mapped extension counted
      the result is `Unknown`; otherwise the most common extension exists and
      the result is its language (`or "Unknown"`). */
  lemma ChooseIsMostCommon(exts: seq<string>, table: seq<(string, string)>)
    ensures (forall e :: e in exts ==> !Mapped(table, e)) ==> Choose(exts, table) == Unknown
    ensures (exists e :: e in exts && Mapped(table, e)) ==> exists e :: MostCommon(exts, table, e)
    ensures forall e :: MostCommon(exts, table, e) ==> Choose(exts, table) == OrUnknown(LanguageOf(table, e))
  {
    var keys := Dedup(exts);
    var c := Pick(keys, exts, table);
    PickSpec(keys, exts, table);
    PickMax(keys, exts, table);
    if c.winner.Some? {
      var i := c.winner.value;
      var w := keys[i];
      DedupFirstAppearance(exts);
      forall x | x in exts && Mapped(table, x) && Count(exts, x) == Count(exts, w)
        ensures FirstIndex(exts, w) <= FirstIndex(exts, x)
      {
        var j :| 0 <= j < |keys| && keys[j] == x;
        assert !(j < i);
        if j > i {
          DedupOrdered(exts, i, j);
        }
      }
      assert MostCommon(exts, table, w);
      forall e | MostCommon(exts, table, e)
        ensures Choose(exts, table) == OrUnknown(LanguageOf(table, e))
      {
        MostCommonUnique(exts, table, e, w);
      }
    }
  }

  // ---------------------------------------------------------------------
  // The source's two loops.

  lemma ExtensionsStep(files: seq<ProjectFile>, i: int)
    requires 0 <= i < |files|
    ensures Extensions(files[..i + 1]) == Extensions(files[..i]) + Counted(files[i])
  {
    assert files[..i + 1][..i] == files[..i];
  }

  lemma DedupStep(exts: seq<string>, e: string)
    ensures Dedup(exts + [e]) == if e in exts then Dedup(exts) else Dedup(exts) + [e]
  {
    assert (exts + [e])[..|exts|] == exts;
  }

  lemma CountStep(exts: seq<string>, e: string)
    ensures forall x :: Count(exts + [e], x) == Count(exts, x) + if x == e then 1 else 0
  {
    assert multiset(exts + [e]) == multiset(exts) + multiset{e};
  }

  /** `counts` is the dictionary counting `seen`: its keys are the
      extensions seen and each value is how often its key was seen. */
  ghost predicate Tally(seen: seq<string>, counts: map<string, nat>) {
    && (forall e :: e in counts <==> e in seen)
    && (forall e :: e in counts ==> counts[e] == Count(seen, e))
  }

  /** `counts[ext] = counts.get(ext, 0) + 1` records one more `ext`. */
  lemma TallyStep(seen: seq<string>, counts: map<string, nat>, ext: string)
    requires Tally(seen, counts)
    ensures Tally(seen + [ext], counts[ext := if ext in counts then counts[ext] + 1 else 1])
  {
    var counts' := counts[ext := if ext in counts then counts[ext] + 1 else 1];
    CountStep(seen, ext);
    assert forall e :: e in counts' <==> e in seen + [ext];
    if ext !in counts {
      assert Count(seen, ext) == 0;
    }
  }

  /** The counting loop: a dictionary from extension to count whose keys
      keep insertion order, here the map `counts` and the sequence `order`. */
  method CountExtensions(files: seq<ProjectFile>) returns (counts: map<string, nat>, order: seq<string>)
    ensures order == Dedup(Extensions(files))
    ensures forall e :: e in counts <==> e in order
    ensures forall e :: e in counts ==> counts[e] == Count(Extensions(files), e)
  {
    counts := map[];
    order := [];
    ghost var seen: seq<string> := [];
    var i := 0;
    while i < |files|
      invariant 0 <= i <= |files|
      invariant seen == Extensions(files[..i])
      invariant order == Dedup(seen)
      invariant Tally(seen, counts)
    {
      ExtensionsStep(files, i);
      counts, order := CountFile(counts, order, files[i], seen);
      seen := Extensions(files[..i + 1]);
      i := i + 1;
    }
    assert files[..i] == files;
  }

  /** The counting loop's body for one entry. */
  method CountFile(counts: map<string, nat>, order: seq<string>, f: ProjectFile, ghost seen: seq<string>)
    returns (counts': map<string, nat>, order': seq<string>)
    requires order == Dedup(seen) && Tally(seen, counts)
    ensures var seen' := seen + Counted(f);
      order' == Dedup(seen') && Tally(seen', counts')
  {
    var ext := Extension(f.path);
    counts', order' := counts, order;
    if f.kind == "file" && ext != "" {
      assert Counted(f) == [ext];
      DedupStep(seen, ext);
      TallyStep(seen, counts, ext);
      if ext !in counts {
        order' := order + [ext];
      }
      counts' := counts[ext := if ext in counts then counts[ext] + 1 else 1];
    } else {
      assert seen + Counted(f) == seen;
    }
  }

  /** The selection loop over the dictionary's keys, in order. */
  method SelectLanguage(order: seq<string>, counts: map<string, nat>, ghost exts: seq<string>, table: seq<(string, string)>)
    returns (mostCommon: Option<string>)
    requires forall e :: e in order ==> e in counts && counts[e] == Count(exts, e)
    ensures mostCommon.None? <==> Pick(order, exts, table).winner.None?
    ensures mostCommon.Some? ==> mostCommon.value == LanguageOf(table, order[Pick(order, exts, table).winner.value])
  {
    mostCommon := None;
    var maxCount := 0;
    ghost var choice := Choice(None, 0);
    var k := 0;
    while k < |order|
      invariant 0 <= k <= |order|
      invariant choice == Pick(order[..k], exts, table)
      invariant maxCount == choice.maxCount
      invariant choice.winner.Some? ==> choice.winner.value < k
      invariant mostCommon == if choice.winner.None? then None else Some(LanguageOf(table, order[choice.winner.value]))
    {
      assert order[..k + 1] == order[..k] + [order[k]];
      PickSnoc(order[..k], order[k], exts, table);
      mostCommon, maxCount, choice := Consider(mostCommon, maxCount, order, k, counts[order[k]], choice, exts, table);
      k := k + 1;
    }
    assert order[..k] == order;
  }

  /** The selection loop's body for the key at position `k`, counted
      `count` times. */
  method Consider(mostCommon: Option<string>, maxCount: nat, order: seq<string>, k: nat, count: nat,
                  ghost choice: Choice, ghost exts: seq<string>, table: seq<(string, string)>)
    returns (mostCommon': Option<string>, maxCount': nat, ghost choice': Choice)
    requires k < |order| && count == Count(exts, order[k])
    requires maxCount == choice.maxCount
    requires choice.winner.Some? ==> choice.winner.value < k && Mapped(table, order[choice.winner.value])
    requires mostCommon == if choice.winner.None? then None else Some(LanguageOf(table, order[choice.winner.value]))
    ensures choice' == if count > choice.maxCount && Mapped(table, order[k]) then Choice(Some(k), count) else choice
    ensures maxCount' == choice'.maxCount
    ensures choice'.winner.Some? ==> choice'.winner.value <= k && Mapped(table, order[choice'.winner.value])
    ensures mostCommon' == if choice'.winner.None? then None else Some(LanguageOf(table, order[choice'.winner.value]))
  {
    mostCommon', maxCount', choice' := mostCommon, maxCount, choice;
    if count > maxCount && Mapped(table, order[k]) {
      mostCommon' := Some(LanguageOf(table, order[k]));
      maxCount' := count;
      choice' := Choice(Some(k), count);
    }
  }

  /** `_detect_language` as the source computes it: count, then select. */
  method DetectLanguageLoop(files: seq<ProjectFile>, table: seq<(string, string)>) returns (language: string)
    ensures language == Detect(files, table)
  {
    var counts, order := CountExtensions(files);
    var mostCommon := SelectLanguage(order, counts, Extensions(files), table);
    language := if mostCommon.Some? && mostCommon.value != "" then mostCommon.value else Unknown;
  }
}
