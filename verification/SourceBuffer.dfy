/** code/ioc_source_buffer.c and the write side of code/ioc_memory_block.c: one
    memory block at the sending end and its source buffer (one-directional,
    not static). */
module SourceBuffers {
  import opened Bytes
  import opened Blocks

  /** Ranges of at most this many bytes are compared before they are marked. */
  const CHECKED_SPAN := 256

  /** The block, the snapshot `sync` last made for sending, and the part
      `start..end` of `delta` which is not sent yet (while `used`). */
  datatype Source = Source(block: seq<byte>, sync: seq<byte>, delta: seq<byte>, changed: Range,
                           used: bool, makeKey: bool, isKey: bool, start: int, end: int)

  ghost predicate Shaped(s: Source) {
    && |s.sync| == |s.block| && |s.delta| == |s.block|
    && InBlock(s.changed, |s.block|)
    && (s.used ==> 0 <= s.start <= s.end + 1 <= |s.block| && (|s.block| > 0 ==> s.start <= s.end))
  }

  /** What the sender relies on: any byte which differs from the last snapshot
      is in the dirty range, except before the first key frame. */
  ghost predicate Valid(s: Source) {
    Shaped(s) && (!s.makeKey ==> Covers(s.changed, s.block, s.sync))
  }

  /** ioc_initialize_source_buffer. */
  function NewSource(block: seq<byte>): (s: Source)
    ensures Valid(s)
  {
    Source(block, Zeros(|block|), Zeros(|block|), Clean, false, true, false, 0, 0)
  }

  /** ioc_sbuf_invalidate. */
  function Invalidate(s: Source, first: int, last: int): (r: Source)
    requires Shaped(s) && 0 <= first <= last < |s.block|
    ensures Shaped(r) && r == s.(changed := r.changed)
  {
    if last - first < CHECKED_SPAN then
      var diff := Shrink(s.block, s.sync, first, last);
      if diff.Clean? then s else s.(changed := Widen(s.changed, diff.first, diff.last))
    else s.(changed := Widen(s.changed, first, last))
  }

  /** ioc_write with the address range clipped to the block. */
  function Write(s: Source, addr: nat, data: seq<byte>): (r: Source)
    requires Shaped(s)
    ensures Shaped(r) && |r.block| == |s.block|
  {
    var n := Min(|data|, |s.block| - addr);
    if n <= 0 then s
    else Invalidate(s.(block := Overwrite(s.block, addr, data[..n])), addr, addr + n - 1)
  }

  /** An invalidation makes no more dirty than it must: changes of fewer than 256 bytes
      are checked against the last snapshot. */
  lemma InvalidateTight(s: Source, first: int, last: int)
    requires Shaped(s) && 0 <= first <= last < |s.block|
    ensures Tight(s.changed, Invalidate(s, first, last).changed, s.block, s.sync, first, last, last - first < 256)
    ensures var r := Invalidate(s, first, last).changed;
      forall i :: first <= i <= last && (s.block[i] != s.sync[i] || last - first >= 256) ==> InRange(r, i)
  {
  }

  /** `after` is `before` with the data from address `addr` on, as far as the block
      reaches, and nothing else changed. */
  ghost predicate Stores(before: seq<byte>, after: seq<byte>, addr: nat, data: seq<byte>) {
    |after| == |before| &&
    forall i :: 0 <= i < |before| ==> after[i] == if addr <= i < addr + |data| then data[i - addr] else before[i]
  }

  lemma WriteStores(s: Source, addr: nat, data: seq<byte>)
    requires Shaped(s)
    ensures Stores(s.block, Write(s, addr, data).block, addr, data)
  {
  }

  lemma WriteUnfold(s: Source, addr: nat, data: seq<byte>, n: int)
    requires Shaped(s) && n == Min(|data|, |s.block| - addr)
    ensures n <= 0 ==> Write(s, addr, data) == s
    ensures n > 0 ==>
      Write(s, addr, data) == Invalidate(s.(block := Overwrite(s.block, addr, data[..n])), addr, addr + n - 1)
  {
    hide Invalidate, Overwrite;
  }

  /** A string in a field of `n` bytes: cut, or followed by zeros. */
  function Padded(text: seq<byte>, n: nat): (r: seq<byte>)
    ensures |r| == n && forall i :: 0 <= i < n ==> r[i] == if i < |text| then text[i] else 0
  {
    seq(n, i requires 0 <= i < n => if i < |text| then text[i] else 0)
  }

  /** Storing a string and then zeros behind it stores the padded string. */
  lemma StoredPadded(block: seq<byte>, addr: nat, text: seq<byte>, n: nat, m: nat, count: nat)
    requires addr + m <= |block| && m <= n && count == Min(|text|, m)
    ensures Overwrite(Overwrite(block, addr, text[..count]), addr + count, Zeros(m - count))
         == Overwrite(block, addr, Padded(text, n)[..m])
  {
  }

  /** ioc_sbuf_synchronize: snapshot and delta. */
  function Synchronize(s: Source): (r: Source)
    requires Shaped(s)
    ensures Shaped(r) && r.block == s.block
  {
    if s.used || (s.changed.Clean? && !s.makeKey) then s
    else if s.makeKey then
      s.(changed := Clean, sync := s.block, delta := s.block, used := true, makeKey := false, isKey := true,
         start := 0, end := |s.block| - 1)
    else
      var diff := Shrink(s.block, s.sync, s.changed.first, s.changed.last);
      if diff.Clean? then s.(changed := Clean)
      else
        s.(changed := Clean,
           sync := CopyRange(s.sync, s.block, diff.first, diff.last),
           delta := DeltaRange(s.delta, s.block, s.sync, diff.first, diff.last),
           used := true, isKey := false, start := diff.first, end := diff.last)
  }

  /** What a synchronize sends: a key frame the whole block; otherwise only the dirty
      range, cut to its first and last byte that differ from the previous snapshot, and
      nothing when there is none. */
  lemma SendsOnlyChanges(s: Source)
    requires Shaped(s) && !s.used
    ensures var r := Synchronize(s);
      && (s.makeKey ==> r.used && r.isKey && r.start == 0 && r.end == |s.block| - 1)
      && (!s.makeKey && r.used ==>
            && !r.isKey && InRange(s.changed, r.start) && InRange(s.changed, r.end)
            && s.block[r.start] != s.sync[r.start] && s.block[r.end] != s.sync[r.end])
      && (!s.makeKey ==> (r.used <==> exists i :: 0 <= i < |s.block| && InRange(s.changed, i) && s.block[i] != s.sync[i]))
  {
    hide DeltaRange, CopyRange;
    var r := Synchronize(s);
    if !s.makeKey && r.used {
      assert 0 <= r.start < |s.block| && InRange(s.changed, r.start) && s.block[r.start] != s.sync[r.start];
    }
  }

  /** `delta` with the differences block - sync stored at `first..last`. */
  function DeltaRange(delta: seq<byte>, block: seq<byte>, sync: seq<byte>, first: int, last: int): (d: seq<byte>)
    requires |delta| == |block| == |sync| && 0 <= first <= last + 1 <= |delta|
    ensures |d| == |delta|
  {
    seq(|delta|, i requires 0 <= i < |delta| => if first <= i <= last then SubByte(block[i], sync[i]) else delta[i])
  }

  /** The unsent part of a synchronization, as it will act on the receiver. */
  function Unsent(s: Source): (d: seq<byte>)
    requires Shaped(s) && s.used
  {
    s.delta[s.start..s.end + 1]
  }

  lemma WriteKeepsValid(s: Source, addr: nat, data: seq<byte>)
    requires Valid(s)
    ensures Valid(Write(s, addr, data))
    ensures Write(s, addr, data) == s.(block := Write(s, addr, data).block, changed := Write(s, addr, data).changed)
  {
  }

  /** A synchronize without effect: the snapshot is current, or the previous
      one is still being sent. */
  lemma IdleSynchronize(s: Source)
    requires Valid(s) && (s.used || !Synchronize(s).used)
    ensures var r := Synchronize(s);
            && Valid(r) && r == s.(changed := r.changed)
            && (!s.used ==> r.changed.Clean? && r.sync == r.block)
  {
    if !s.used {
      assert s.block == s.sync;
    }
  }

  /** Adding a difference back gives the new value, modulo 256. */
  lemma AddDifference(a: byte, b: byte)
    ensures AddByte(a, SubByte(b, a)) == b
  {
  }

  /** Delta encoding a range and adding it copies that range. */
  lemma DeltaApplied(delta: seq<byte>, block: seq<byte>, sync: seq<byte>, first: int, last: int)
    requires |delta| == |block| == |sync| && 0 <= first <= last + 1 <= |delta|
    ensures Apply(sync, first, DeltaRange(delta, block, sync, first, last)[first..last + 1], true)
         == CopyRange(sync, block, first, last)
  {
    var d := DeltaRange(delta, block, sync, first, last);
    forall i | 0 <= i < |block|
      ensures Apply(sync, first, d[first..last + 1], true)[i] == CopyRange(sync, block, first, last)[i]
    {
      AddDifference(sync[i], block[i]);
      if first <= i <= last {
        assert d[first..last + 1][i - first] == d[i] == SubByte(block[i], sync[i]);
      }
    }
  }

  /** A key frame overwrites the whole receiver. */
  lemma KeyApplied(receiver: seq<byte>, block: seq<byte>)
    requires |receiver| == |block|
    ensures Apply(receiver, 0, block[0..|block|], false) == block
  {
    assert block[0..|block|] == block;
  }

  /** An effective synchronize makes `sync` the sender's whole block, and the
      bytes to send turn any receiver that holds the previous snapshot (or,
      for a key frame, any receiver at all) into that block. */
  lemma SnapshotTaken(s: Source, receiver: seq<byte>)
    requires Valid(s) && !s.used && Synchronize(s).used
    requires |receiver| == |s.block| && (s.makeKey || receiver == s.sync)
    ensures var r := Synchronize(s);
            && Valid(r) && !r.makeKey && r.sync == s.block && r.changed.Clean?
            && Apply(receiver, r.start, Unsent(r), !r.isKey) == s.block
  {
    hide Apply, DeltaRange, CopyRange;
    var r := Synchronize(s);
    if s.makeKey {
      KeyApplied(receiver, s.block);
    } else {
      DeltaApplied(s.delta, s.block, s.sync, r.start, r.end);
      CopyCovered(s.sync, s.block, r.start, r.end);
    }
  }
}
