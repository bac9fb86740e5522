/** The source buffer as code/ioc_source_buffer.c and ioc_write update it in place.
    Each method is proved against the function of the same name on values. */
module SourceObjects {
  import opened Bytes
  import opened Blocks
  import S = SourceBuffers

  class SourceBuffer {
    const block: array<byte>
    const sync: array<byte>
    const delta: array<byte>
    var rangeSet: bool
    var changedStart: int
    var changedEnd: int
    var used: bool
    var makeKeyframe: bool
    var isKeyframe: bool
    var startAddr: int
    var endAddr: int

    ghost predicate Separate() {
      block != sync && block != delta && sync != delta
    }

    ghost function Value(): S.Source
      reads this, block, sync, delta
    {
      S.Source(block[..], sync[..], delta[..], if rangeSet then Dirty(changedStart, changedEnd) else Clean,
             used, makeKeyframe, isKeyframe, startAddr, endAddr)
    }

    ghost predicate Valid()
      reads this, block, sync, delta
    {
      Separate() && S.Shaped(Value())
    }

    constructor (mblk: array<byte>)
      ensures Valid() && block == mblk && fresh(sync) && fresh(delta)
      ensures Value() == S.NewSource(mblk[..])
    {
      block := mblk;
      sync := new byte[mblk.Length](i => 0);
      delta := new byte[mblk.Length](i => 0);
      rangeSet, changedStart, changedEnd := false, 0, 0;
      used, makeKeyframe, isKeyframe := false, true, false;
      startAddr, endAddr := 0, 0;
      new;
      assert sync[..] == Zeros(mblk.Length);
      assert delta[..] == Zeros(mblk.Length);
    }

    /** The range really changed in `first..last`: none, or `start..end`. */
    method ReallyChanged(first: int, last: int) returns (some: bool, start: int, end: int)
      requires Valid() && 0 <= first <= last < block.Length
      ensures Shrink(block[..], sync[..], first, last) == if some then Dirty(start, end) else Clean
    {
      some, start, end := true, first, last;
      while start <= end
        invariant first <= start <= last
        invariant FirstDiff(block[..], sync[..], first, last) == FirstDiff(block[..], sync[..], start, last)
      {
        if block[start] != sync[start] { break; }
        if start == end { some := false; return; }
        start := start + 1;
      }
      while end > start
        invariant start <= end <= last
        invariant LastDiff(block[..], sync[..], start, last) == LastDiff(block[..], sync[..], start, end)
      {
        if block[end] != sync[end] { break; }
        end := end - 1;
      }
    }

    method Invalidate(first: int, last: int)
      requires Valid() && 0 <= first <= last < block.Length
      modifies this`rangeSet, this`changedStart, this`changedEnd
      ensures Valid() && Value() == S.Invalidate(old(Value()), first, last)
    {
      hide Shrink;
      var some, start, end := true, first, last;
      if end - start < S.CHECKED_SPAN {
        some, start, end := ReallyChanged(first, last);
        if !some { return; }
      }
      if !rangeSet {
        changedStart, changedEnd, rangeSet := start, end, true;
      } else {
        if start < changedStart { changedStart := start; }
        if end > changedEnd { changedEnd := end; }
      }
    }

    method Store(addr: nat, data: seq<byte>)
      requires addr + |data| <= block.Length
      modifies block
      ensures block[..] == Overwrite(old(block[..]), addr, data)
    {
      for i := 0 to |data|
        invariant block[..] == Overwrite(old(block[..]), addr, data[..i])
      {
        block[addr + i] := data[i];
      }
      assert data[..|data|] == data;
    }

    method Write(addr: nat, data: seq<byte>)
      requires Valid()
      modifies this`rangeSet, this`changedStart, this`changedEnd, block
      ensures Valid() && Value() == S.Write(old(Value()), addr, data)
      ensures S.Stores(old(block[..]), block[..], addr, data)
    {
      hide S.Invalidate, S.Write, S.Stores, Overwrite;
      S.WriteStores(Value(), addr, data);
      var n := |data|;
      if n > block.Length - addr { n := block.Length - addr; }
      S.WriteUnfold(Value(), addr, data, n);
      if n <= 0 { return; }
      Store(addr, data[..n]);
      assert Value() == old(Value()).(block := Overwrite(old(block[..]), addr, data[..n]));
      Invalidate(addr, addr + n - 1);
    }

    /** ioc_write of a string into `n` bytes, the rest of which is cleared; without a
        string, ioc_clear. */
    method WriteText(addr: nat, text: seq<byte>, n: nat)
      requires Valid()
      modifies this`rangeSet, this`changedStart, this`changedEnd, block
      ensures Valid() && Value() == S.Write(old(Value()), addr, S.Padded(text, n))
      ensures S.Stores(old(block[..]), block[..], addr, S.Padded(text, n))
    {
      hide S.Invalidate, S.Write, S.Stores, S.Padded, Overwrite;
      S.WriteStores(Value(), addr, S.Padded(text, n));
      var m := n;
      if m > block.Length - addr { m := block.Length - addr; }
      S.WriteUnfold(Value(), addr, S.Padded(text, n), m);
      if m <= 0 { return; }
      var count := |text|;
      if count > m { count := m; }
      Store(addr, text[..count]);
      Store(addr + count, Zeros(m - count));
      S.StoredPadded(old(block[..]), addr, text, n, m, count);
      assert Value() == old(Value()).(block := Overwrite(old(block[..]), addr, S.Padded(text, n)[..m]));
      Invalidate(addr, addr + m - 1);
    }

    /** The key frame branch of ioc_sbuf_synchronize. */
    method TakeKey()
      requires Valid() && !used && makeKeyframe
      modifies this, sync, delta
      ensures Valid() && Value() == S.Synchronize(old(Value()))
    {
      hide CopyRange;
      rangeSet := false;
      CopyArrayRange(delta, block, 0, block.Length - 1);
      CopyArrayRange(sync, block, 0, block.Length - 1);
      CopyAll(old(delta[..]), block[..]);
      CopyAll(old(sync[..]), block[..]);
      makeKeyframe, isKeyframe, used := false, true, true;
      startAddr, endAddr := 0, block.Length - 1;
    }

    /** The delta branch. */
    method TakeDelta()
      requires Valid() && !used && rangeSet && !makeKeyframe
      modifies this, sync, delta
      ensures Valid() && Value() == S.Synchronize(old(Value()))
    {
      hide CopyRange, S.DeltaRange, Shrink;
      rangeSet := false;
      var start, end := ShrinkRange(block, sync, changedStart, changedEnd);
      if end < start { return; }
      EncodeDelta(start, end);
      CopyArrayRange(sync, block, start, end);
      isKeyframe, used := false, true;
      startAddr, endAddr := start, end;
    }

    method Synchronize()
      requires Valid()
      modifies this, sync, delta
      ensures Valid() && Value() == S.Synchronize(old(Value()))
    {
      if used || (!rangeSet && !makeKeyframe) { return; }
      hide S.Synchronize;
      if makeKeyframe {
        TakeKey();
      } else {
        TakeDelta();
      }
    }

    /** Moves the position in `delta` behind a frame which has been made. */
    method Advance(next: int, complete: bool)
      requires Valid() && used && startAddr <= next <= endAddr + 1 && complete == (next > endAddr)
      modifies this`startAddr, this`used
      ensures Valid() && Value() == old(Value()).(start := next, used := !complete)
    {
      startAddr := next;
      if complete { used := false; }
    }

    method EncodeDelta(start: int, end: int)
      requires Separate() && block.Length == sync.Length == delta.Length && 0 <= start <= end + 1 <= block.Length
      modifies delta
      ensures delta[..] == S.DeltaRange(old(delta[..]), block[..], sync[..], start, end)
    {
      for i := start to end + 1
        invariant delta[..] == S.DeltaRange(old(delta[..]), block[..], sync[..], start, i - 1)
      {
        delta[i] := SubByte(block[i], sync[i]);
      }
    }
  }
}
