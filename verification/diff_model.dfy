/** The records the diff service passes around: a hunk is the dictionary
    `{'type': 'hunk', 'orig_start', 'orig_count', 'mod_start', 'mod_count',
    'lines'}` built in backend/app/services/diff_service.py, and each of its
    lines is `{'type': 'context' | 'add' | 'delete', 'content'}`. */
module DiffModel {

  datatype LineKind = Context | Add | Delete

  /** One body line of a hunk, without its one-character prefix. */
  datatype DiffLine = DiffLine(kind: LineKind, content: string)

  /** Start lines are 1-based. The generator and the parser only ever store
      non-negative numbers here; `apply_diff` accepts whatever integers its
      caller sends, so the fields are plain integers. */
  datatype Hunk = Hunk(origStart: int, origCount: int, modStart: int, modCount: int, lines: seq<DiffLine>)

  /** An entry of the operation list handed to `apply_diff`: a hunk, or an
      entry of some other `type`, which is skipped. */
  datatype Entry = HunkEntry(hunk: Hunk) | OtherEntry(tag: string)

  /** Number of delete lines. */
  function Deletions(lines: seq<DiffLine>): (n: nat)
    ensures n <= |lines|
    decreases |lines|
  {
    if |lines| == 0 then 0
    else (if lines[0].kind == Delete then 1 else 0) + Deletions(lines[1..])
  }

  /** Contents of the add lines, in order. */
  function Additions(lines: seq<DiffLine>): (adds: seq<string>)
    ensures |adds| <= |lines|
    decreases |lines|
  {
    if |lines| == 0 then []
    else (if lines[0].kind == Add then [lines[0].content] else []) + Additions(lines[1..])
  }

  /** Contents of the lines a hunk expects in the original: context and
      delete lines, in order. */
  function OldSide(lines: seq<DiffLine>): seq<string>
    decreases |lines|
  {
    if |lines| == 0 then []
    else (if lines[0].kind != Add then [lines[0].content] else []) + OldSide(lines[1..])
  }

  /** Contents of the lines a hunk leaves in the result: context and add
      lines, in order. */
  function NewSide(lines: seq<DiffLine>): seq<string>
    decreases |lines|
  {
    if |lines| == 0 then []
    else (if lines[0].kind != Delete then [lines[0].content] else []) + NewSide(lines[1..])
  }

  predicate NoContext(lines: seq<DiffLine>) {
    forall i :: 0 <= i < |lines| ==> lines[i].kind != Context
  }

  /** The same lines with every context line removed. */
  function DropContext(lines: seq<DiffLine>): (r: seq<DiffLine>)
    ensures NoContext(r)
    decreases |lines|
  {
    if |lines| == 0 then []
    else (if lines[0].kind == Context then [] else [lines[0]]) + DropContext(lines[1..])
  }

  /** Without context lines, a hunk's two sides are exactly its deletions and
      its additions. */
  lemma {:induction false} SidesWithoutContext(lines: seq<DiffLine>)
    requires NoContext(lines)
    ensures |OldSide(lines)| == Deletions(lines)
    ensures NewSide(lines) == Additions(lines)
    decreases |lines|
  {
    if |lines| > 0 {
      SidesWithoutContext(lines[1..]);
    }
  }

  /** Dropping context lines changes neither the deletions nor the additions. */
  lemma {:induction false} DropContextKeepsChanges(lines: seq<DiffLine>)
    ensures Deletions(DropContext(lines)) == Deletions(lines)
    ensures Additions(DropContext(lines)) == Additions(lines)
    decreases |lines|
  {
    if |lines| > 0 {
      DropContextKeepsChanges(lines[1..]);
      var head := if lines[0].kind == Context then [] else [lines[0]];
      var rest := DropContext(lines[1..]);
      assert DropContext(lines) == head + rest;
      if head == [] {
        assert head + rest == rest;
      } else {
        assert (head + rest)[0] == lines[0];
        assert (head + rest)[1..] == rest;
      }
    }
  }
}
