/** Python list slicing with step one, as `apply_diff` uses it: the bounds of
    `xs[lo:hi]`, `del xs[lo:hi]` and `xs[at:at] = ys`. None of these raise,
    whatever integers they are given. */
module Slices {

  /** A slice bound as Python normalises it: a negative bound counts from the
      end, and the result is clamped to `0..len`. */
  function Bound(i: int, len: nat): (k: nat)
    ensures k <= len
  {
    if i < 0 then (if i + len < 0 then 0 else i + len)
    else if i > len then len
    else i
  }

  /** `del xs[lo:hi]`. When the normalised upper bound is not above the
      normalised lower one, the slice is empty and nothing is deleted. */
  function DelSlice<T>(xs: seq<T>, lo: int, hi: int): (r: seq<T>)
    ensures |r| <= |xs|
  {
    var a := Bound(lo, |xs|);
    var b := Bound(hi, |xs|);
    if b <= a then xs else xs[..a] + xs[b..]
  }

  /** `xs[at:at] = ys`: inserts `ys` before the element at the normalised
      position. */
  function InsertAt<T>(xs: seq<T>, at: int, ys: seq<T>): (r: seq<T>)
    ensures |r| == |xs| + |ys|
  {
    var a := Bound(at, |xs|);
    xs[..a] + ys + xs[a..]
  }

  /** `del xs[at:at + n]` when `n` is positive, then `xs[at:at] = ys` when
      `ys` is not empty: the two guarded steps `apply_diff` takes for one
      hunk. */
  function Splice<T>(xs: seq<T>, at: int, n: nat, ys: seq<T>): seq<T> {
    var kept := if n > 0 then DelSlice(xs, at, at + n) else xs;
    if |ys| > 0 then InsertAt(kept, at, ys) else kept
  }

  /** Python's bounds, stated case by case: in range they are kept, past the
      end they become the length, from `-len` up to `-1` they count back from
      the end, and below that they become zero. */
  lemma BoundCases(i: int, len: nat)
    ensures 0 <= i <= len ==> Bound(i, len) == i
    ensures i > len ==> Bound(i, len) == len
    ensures i < 0 && i + len >= 0 ==> Bound(i, len) == i + len
    ensures i + len < 0 ==> Bound(i, len) == 0
  {
  }

  /** Deleting a slice removes exactly the elements whose index lies between
      the normalised bounds, and keeps the rest in order. */
  lemma DelSliceKeeps<T>(xs: seq<T>, lo: int, hi: int)
    ensures var a := Bound(lo, |xs|); var b := Bound(hi, |xs|);
      && |DelSlice(xs, lo, hi)| == |xs| - (if b <= a then 0 else b - a)
      && (forall i :: 0 <= i < a ==> DelSlice(xs, lo, hi)[i] == xs[i])
      && (forall i :: a <= i < |DelSlice(xs, lo, hi)| ==>
            DelSlice(xs, lo, hi)[i] == xs[i + (if b <= a then 0 else b - a)])
  {
  }

  /** Inserting keeps the elements before the position, then the inserted
      ones, then the rest. */
  lemma InsertAtKeeps<T>(xs: seq<T>, at: int, ys: seq<T>)
    ensures var a := Bound(at, |xs|);
      && (forall i :: 0 <= i < a ==> InsertAt(xs, at, ys)[i] == xs[i])
      && (forall i :: 0 <= i < |ys| ==> InsertAt(xs, at, ys)[a + i] == ys[i])
      && (forall i :: a <= i < |xs| ==> InsertAt(xs, at, ys)[i + |ys|] == xs[i])
  {
  }

  /** A position further back than the sequence is long inserts at the
      start; inserting nothing changes nothing. */
  lemma InsertAtBeforeStart<T>(xs: seq<T>, at: int, ys: seq<T>)
    requires at + |xs| < 0
    ensures (if |ys| > 0 then InsertAt(xs, at, ys) else xs) == ys + xs
  {
    assert xs[..0] == [] && xs[0..] == xs;
  }

  /** Inserting, skipped when there is nothing to insert, puts `ys` at the
      normalised position either way. */
  lemma InsertGuarded<T>(xs: seq<T>, at: int, ys: seq<T>)
    ensures var a := Bound(at, |xs|);
      (if |ys| > 0 then InsertAt(xs, at, ys) else xs) == xs[..a] + ys + xs[a..]
  {
    var a := Bound(at, |xs|);
    assert xs == xs[..a] + xs[a..];
  }

  lemma DelSliceInRange<T>(xs: seq<T>, lo: int, hi: int)
    requires 0 <= lo <= hi <= |xs|
    ensures DelSlice(xs, lo, hi) == xs[..lo] + xs[hi..]
  {
    if hi == lo {
      assert xs == xs[..lo] + xs[lo..];
    }
  }

  lemma InsertAtInRange<T>(xs: seq<T>, at: int, ys: seq<T>)
    requires 0 <= at <= |xs|
    ensures InsertAt(xs, at, ys) == xs[..at] + ys + xs[at..]
  {
  }

  /** Deleting `n` elements at `at` and inserting `ys` there, each step
      skipped when it has nothing to do, as `apply_diff` does: inside the
      sequence this replaces the stretch by `ys`. */
  lemma ReplaceInRange<T>(xs: seq<T>, at: int, n: nat, ys: seq<T>)
    requires 0 <= at && at + n <= |xs|
    ensures Splice(xs, at, n, ys) == xs[..at] + ys + xs[at + n..]
  {
    var kept := if n > 0 then DelSlice(xs, at, at + n) else xs;
    DelSliceInRange(xs, at, at + n);
    assert kept == xs[..at] + xs[at + n..] by {
      if n == 0 {
        assert xs == xs[..at] + xs[at..];
      }
    }
    InsertAtInRange(kept, at, ys);
    assert kept[..at] == xs[..at];
    assert kept[at..] == xs[at + n..];
    if |ys| == 0 {
      assert kept == xs[..at] + ys + xs[at + n..];
    }
  }
}
