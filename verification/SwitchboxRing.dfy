/** Ring buffers of the switchbox and the move from one to another
    (ioc_switchbox_ringbuf_move in code/ioc_switchbox_util.c). */
module SwitchboxRing {
  import opened Bytes
  import opened Ring

  lemma WindowConcat(buf: seq<byte>, at: int, a: int, b: int)
    requires 0 <= at < |buf| && 0 <= a && 0 <= b && a + b <= |buf|
    ensures Window(buf, at, a) + Window(buf, Wrap(at, a, |buf|), b) == Window(buf, at, a + b)
  {
  }

  lemma WindowStraight(buf: seq<byte>, at: int, k: int)
    requires 0 <= at < |buf| && 0 <= k && at + k <= |buf|
    ensures Window(buf, at, k) == buf[at..at + k]
  {
  }

  /** What stays in a queue after `k` bytes are taken. */
  lemma WindowRest(buf: seq<byte>, head: int, tail: int, k: int)
    requires 0 <= head < |buf| && 0 <= tail < |buf| && 0 <= k <= Gap(tail, head, |buf|)
    ensures var tail' := Wrap(tail, k, |buf|);
      && Gap(tail', head, |buf|) == Gap(tail, head, |buf|) - k
      && Window(buf, tail', Gap(tail', head, |buf|)) == Window(buf, tail, Gap(tail, head, |buf|))[k..]
  {
  }

  /** Storing behind the head appends to the queue. */
  lemma StoredAppends(buf: seq<byte>, head: int, tail: int, data: seq<byte>)
    requires 0 <= head < |buf| && 0 <= tail < |buf| && |data| <= Free(head, tail, |buf|)
    ensures var head' := Wrap(head, |data|, |buf|);
      && Gap(tail, head', |buf|) == Gap(tail, head, |buf|) + |data|
      && Window(Stored(buf, head, data), tail, Gap(tail, head', |buf|)) ==
         Window(buf, tail, Gap(tail, head, |buf|)) + data
  {
  }

  /** osalRingBuf: bytes are put at the head and taken at the tail. */
  class RingBuf {
    const buf: array<byte>
    var head: nat
    var tail: nat

    ghost predicate Valid()
      reads this
    {
      head < buf.Length && tail < buf.Length
    }

    /** The queued bytes, oldest first. */
    ghost function Queue(): (q: seq<byte>)
      requires Valid()
      reads this, buf
      ensures |q| == Gap(tail, head, buf.Length)
    {
      Window(buf[..], tail, Gap(tail, head, buf.Length))
    }

    constructor (size: nat)
      requires size > 0
      ensures Valid() && Queue() == [] && buf.Length == size && fresh(buf)
    {
      buf := new byte[size];
      head, tail := 0, 0;
    }
  }

  /** The copying loop: `n` bytes from ring `src` at `tail` into ring `dst` at `head`,
      in straight pieces that end where either ring does. */
  method CopyAround(dst: array<byte>, head: nat, src: array<byte>, tail: nat, n: nat) returns (head': nat, tail': nat)
    requires dst != src && head < dst.Length && tail < src.Length
    requires 0 < n < dst.Length && n < src.Length
    modifies dst
    ensures head' == Wrap(head, n, dst.Length) && tail' == Wrap(tail, n, src.Length)
    ensures dst[..] == Stored(old(dst[..]), head, Window(src[..], tail, n))
  {
    hide Stored, Window;
    ghost var was, from := dst[..], src[..];
    head', tail' := head, tail;
    var left := n;
    assert dst[..] == Stored(was, head, Window(from, tail, 0)) by { NothingStored(was, head, from, tail); }
    while left > 0
      invariant 0 <= left <= n && src[..] == from
      invariant head' == Wrap(head, n - left, dst.Length) && tail' == Wrap(tail, n - left, src.Length)
      invariant dst[..] == Stored(was, head, Window(from, tail, n - left))
    {
      var smaller := left;
      if dst.Length - head' < smaller { smaller := dst.Length - head'; }
      if src.Length - tail' < smaller { smaller := src.Length - tail'; }
      ghost var done := n - left;
      MoveIn(dst, head', src[tail'..tail' + smaller]);
      PieceStored(was, head, from, tail, done, smaller);
      head' := head' + smaller;
      if head' >= dst.Length { head' := 0; }
      tail' := tail' + smaller;
      if tail' >= src.Length { tail' := 0; }
      left := left - smaller;
    }
  }

  lemma NothingStored(was: seq<byte>, head: int, from: seq<byte>, tail: int)
    requires 0 <= head < |was| && 0 <= tail < |from|
    ensures was == Stored(was, head, Window(from, tail, 0))
  {
  }

  lemma PieceStored(was: seq<byte>, head: int, from: seq<byte>, tail: int, done: int, k: int)
    requires 0 <= head < |was| && 0 <= tail < |from|
    requires 0 <= done && 0 <= k && done + k <= |was| && done + k <= |from|
    requires Wrap(tail, done, |from|) + k <= |from|
    ensures var piece := from[Wrap(tail, done, |from|)..Wrap(tail, done, |from|) + k];
      Stored(Stored(was, head, Window(from, tail, done)), Wrap(head, done, |was|), piece) ==
      Stored(was, head, Window(from, tail, done + k))
  {
    hide Stored, Window;
    var at := Wrap(tail, done, |from|);
    WindowStraight(from, at, k);
    WindowConcat(from, tail, done, k);
    StoredTwice(was, head, Window(from, tail, done), from[at..at + k]);
  }

  /** ioc_switchbox_ringbuf_move: a prefix of the source queue, as long as asked for,
      held by the source and free in the destination, moves to the end of the
      destination queue. */
  method RingMove(dst: RingBuf, src: RingBuf, n: nat) returns (moved: nat)
    requires dst != src && dst.buf != src.buf && dst.Valid() && src.Valid()
    modifies dst`head, src`tail, dst.buf
    ensures dst.Valid() && src.Valid()
    ensures moved == Min(n, Min(|old(src.Queue())|, dst.buf.Length - 1 - |old(dst.Queue())|))
    ensures src.Queue() == old(src.Queue())[moved..]
    ensures dst.Queue() == old(dst.Queue()) + old(src.Queue())[..moved]
  {
    hide Stored;
    moved := n;
    var k := Gap(src.tail, src.head, src.buf.Length);
    if k < moved { moved := k; }
    k := Free(dst.head, dst.tail, dst.buf.Length);
    if k < moved { moved := k; }
    if moved > 0 {
      ghost var d, s := dst.buf[..], src.buf[..];
      WindowRest(s, src.head, src.tail, moved);
      ghost var data := Window(s, src.tail, moved);
      StoredAppends(d, dst.head, dst.tail, data);
      assert src.Queue()[..moved] == data;
      var head, tail := CopyAround(dst.buf, dst.head, src.buf, src.tail, moved);
      dst.head := head;
      src.tail := tail;
    }
  }
}
