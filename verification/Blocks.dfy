/** Address ranges over two equally long byte blocks: the dirty ranges kept by
    source and target buffers, and the loops that shrink them. */
module Blocks {
  import opened Bytes

  /** A range of possibly changed addresses; `Clean` is range_set == false. */
  datatype Range = Clean | Dirty(first: int, last: int)

  predicate InBlock(r: Range, n: nat) {
    r.Dirty? ==> 0 <= r.first <= r.last < n
  }

  predicate InRange(r: Range, i: int) {
    r.Dirty? && r.first <= i <= r.last
  }

  /** Every address where the blocks differ lies in the range. */
  ghost predicate Covers(r: Range, a: seq<byte>, b: seq<byte>)
    requires |a| == |b|
  {
    forall i :: 0 <= i < |a| && a[i] != b[i] ==> InRange(r, i)
  }

  /** ioc_sbuf_invalidate and ioc_tbuf_invalidate: extend a range. */
  function Widen(r: Range, first: int, last: int): (w: Range)
    ensures w.Dirty? && forall i :: InRange(w, i) <== InRange(r, i) || first <= i <= last
  {
    if r.Clean? then Dirty(first, last)
    else Dirty(Min(r.first, first), if last > r.last then last else r.last)
  }

  /** The first differing address in `i..last`, or `last + 1`. */
  function FirstDiff(a: seq<byte>, b: seq<byte>, i: int, last: int): (f: int)
    requires |a| == |b| && 0 <= i <= last + 1 <= |a|
    ensures i <= f <= last + 1
    ensures forall j :: i <= j < f ==> a[j] == b[j]
    ensures f <= last ==> a[f] != b[f]
    decreases last + 1 - i
  {
    if i <= last && a[i] == b[i] then FirstDiff(a, b, i + 1, last) else i
  }

  /** The last differing address in `first..i`, or `first - 1`. */
  function LastDiff(a: seq<byte>, b: seq<byte>, first: int, i: int): (l: int)
    requires |a| == |b| && 0 <= first <= i + 1 <= |a|
    ensures first - 1 <= l <= i
    ensures forall j :: l < j <= i ==> a[j] == b[j]
    ensures first <= l ==> a[l] != b[l]
    decreases i + 1 - first
  {
    if i >= first && a[i] == b[i] then LastDiff(a, b, first, i - 1) else i
  }

  /** The part of `first..last` which really differs. */
  function Shrink(a: seq<byte>, b: seq<byte>, first: int, last: int): (r: Range)
    requires |a| == |b| && 0 <= first <= last + 1 <= |a|
    ensures r.Dirty? ==> first <= r.first <= r.last <= last
    ensures forall i :: first <= i <= last && a[i] != b[i] ==> InRange(r, i)
    ensures r.Dirty? ==> a[r.first] != b[r.first] && a[r.last] != b[r.last]
    ensures r.Clean? <==> forall i :: first <= i <= last ==> a[i] == b[i]
  {
    var f := FirstDiff(a, b, first, last);
    var l := LastDiff(a, b, f, last);
    if l < f then Clean else Dirty(f, l)
  }

  /** Range `r` covers what range `was` covered and nothing it need not: either end is an
      end of `was`, or one of the addresses `first..last`, where the blocks differ if
      `shrunk`. */
  ghost predicate Tight(was: Range, r: Range, a: seq<byte>, b: seq<byte>, first: int, last: int, shrunk: bool)
    requires |a| == |b|
  {
    && (was.Dirty? ==> r.Dirty? && r.first <= was.first && was.last <= r.last)
    && (r.Dirty? ==>
          && ((was.Dirty? && r.first == was.first) || EndsAt(a, b, r.first, first, last, shrunk))
          && ((was.Dirty? && r.last == was.last) || EndsAt(a, b, r.last, first, last, shrunk)))
  }

  ghost predicate EndsAt(a: seq<byte>, b: seq<byte>, i: int, first: int, last: int, shrunk: bool)
    requires |a| == |b|
  {
    if shrunk then first <= i <= last && 0 <= i < |a| && a[i] != b[i] else i == first || i == last
  }

  /** The two shrink loops of ioc_sbuf_synchronize and ioc_tbuf_synchronize. */
  method ShrinkRange(a: array<byte>, b: array<byte>, first: int, last: int) returns (start: int, end: int)
    requires a.Length == b.Length && 0 <= first <= last + 1 <= a.Length
    ensures first <= start <= last + 1 && start - 1 <= end <= last
    ensures Shrink(a[..], b[..], first, last) == if end < start then Clean else Dirty(start, end)
  {
    start, end := first, last;
    while start <= last && b[start] == a[start]
      invariant first <= start <= last + 1
      invariant FirstDiff(a[..], b[..], first, last) == FirstDiff(a[..], b[..], start, last)
    {
      start := start + 1;
    }
    while end >= start && b[end] == a[end]
      invariant start - 1 <= end <= last
      invariant LastDiff(a[..], b[..], start, last) == LastDiff(a[..], b[..], start, end)
    {
      end := end - 1;
    }
  }

  /** `a` with the addresses `first..last` taken from `b` (os_memcpy between
      equally placed buffers). */
  function CopyRange(a: seq<byte>, b: seq<byte>, first: int, last: int): (r: seq<byte>)
    requires |a| == |b| && 0 <= first <= last + 1 <= |a|
    ensures |r| == |a|
  {
    seq(|a|, i requires 0 <= i < |a| => if first <= i <= last then b[i] else a[i])
  }

  /** Copying a range which covers all differences makes the blocks equal. */
  lemma CopyCovered(a: seq<byte>, b: seq<byte>, first: int, last: int)
    requires |a| == |b| && 0 <= first <= last + 1 <= |a|
    requires forall i :: 0 <= i < |a| && a[i] != b[i] ==> first <= i <= last
    ensures CopyRange(a, b, first, last) == b
  {
  }

  lemma CopyAll(a: seq<byte>, b: seq<byte>)
    requires |a| == |b|
    ensures CopyRange(a, b, 0, |a| - 1) == b
  {
  }

  method CopyArrayRange(dst: array<byte>, src: array<byte>, first: int, last: int)
    requires dst != src && dst.Length == src.Length && 0 <= first <= last + 1 <= dst.Length
    modifies dst
    ensures dst[..] == CopyRange(old(dst[..]), src[..], first, last)
  {
    for i := first to last + 1
      invariant dst[..] == CopyRange(old(dst[..]), src[..], first, i - 1)
    {
      dst[i] := src[i];
    }
  }
}
