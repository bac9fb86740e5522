/** code/ioc_target_buffer.c, ioc_store_data_frame and ioc_receive_nolock: one
    memory block at the receiving end and its target buffer (one-directional). */
module TargetBuffers {
  import opened Bytes
  import opened Blocks
  import opened Compression
  import opened DataFrames

  /** `newdata` collects frames; `buf` is the last completed snapshot; `block`
      is what the application sees. `arrived` and `ready` are the ranges which
      may differ from the next stage. */
  datatype Target = Target(block: seq<byte>, buf: seq<byte>, newdata: seq<byte>, arrived: Range, ready: Range)

  ghost predicate Valid(t: Target) {
    && |t.buf| == |t.block| && |t.newdata| == |t.block|
    && InBlock(t.arrived, |t.block|) && InBlock(t.ready, |t.block|)
    && Covers(t.arrived, t.newdata, t.buf)
    && Covers(t.ready, t.buf, t.block)
  }

  /** ioc_initialize_target_buffer: copies the block backwards. */
  function NewTarget(block: seq<byte>): (t: Target)
    ensures Valid(t)
  {
    Target(block, block, block, Clean, Clean)
  }

  /** ioc_tbuf_synchronize. */
  function Synchronize(t: Target): (r: Target)
    requires Valid(t)
    ensures |r.buf| == |t.buf| && r.block == t.block && r.newdata == t.newdata
  {
    if t.arrived.Clean? then t
    else
      var diff := Shrink(t.newdata, t.buf, t.arrived.first, t.arrived.last);
      if diff.Clean? then t.(arrived := Clean)
      else
        t.(arrived := Clean,
           buf := CopyRange(t.buf, t.newdata, diff.first, diff.last),
           ready := Widen(t.ready, diff.first, diff.last))
  }

  datatype Stored = Stored(ok: bool, target: Target)

  /** ioc_store_data_frame. */
  function Store(t: Target, f: DataFrame): (r: Stored)
    requires Valid(t)
  {
    if f.addr > |t.block| then Stored(false, t)
    else
      var u := Content(f, |t.block|);
      var t1 := t.(newdata := Apply(t.newdata, f.addr, u.out, f.isDelta));
      if !u.ok then Stored(false, t1)
      else if u.out == [] then Stored(true, t1)
      else
        var t2 := t1.(arrived := Widen(t.arrived, f.addr, f.addr + |u.out| - 1));
        StoreKeepsValid(t, f.addr, u.out, f.isDelta);
        Stored(true, if f.complete then Synchronize(t2) else t2)
  }

  /** ioc_receive_nolock. */
  function Receive(t: Target): (r: Target)
    requires Valid(t)
  {
    if t.ready.Clean? then t
    else t.(block := CopyRange(t.block, t.buf, t.ready.first, t.ready.last), ready := Clean)
  }

  lemma StoreKeepsValid(t: Target, addr: nat, data: seq<byte>, isDelta: bool)
    requires Valid(t) && addr + |data| <= |t.block| && data != []
    ensures Valid(t.(newdata := Apply(t.newdata, addr, data, isDelta),
                     arrived := Widen(t.arrived, addr, addr + |data| - 1)))
  {
    hide Apply;
    forall i | 0 <= i < |t.block|
      ensures !(addr <= i < addr + |data|) ==> Apply(t.newdata, addr, data, isDelta)[i] == t.newdata[i]
    {
      ApplyAt(t.newdata, addr, data, isDelta, i);
    }
  }

  /** A completed synchronization makes `buf` equal to what has arrived. */
  lemma SynchronizeShows(t: Target)
    requires Valid(t)
    ensures var r := Synchronize(t);
            Valid(r) && r == t.(buf := t.newdata, arrived := Clean, ready := r.ready)
  {
    if t.arrived.Dirty? {
      var diff := Shrink(t.newdata, t.buf, t.arrived.first, t.arrived.last);
      if diff.Dirty? {
        CopyCovered(t.buf, t.newdata, diff.first, diff.last);
      } else {
        assert t.buf == t.newdata;
      }
    } else {
      assert t.buf == t.newdata;
    }
  }

  /** The range reported to the application grows by no more than what has changed. */
  lemma ReadyTight(t: Target)
    requires Valid(t)
    ensures var r := Synchronize(t);
      && (t.arrived.Clean? ==> r == t)
      && (t.arrived.Dirty? ==>
            Tight(t.ready, r.ready, t.newdata, t.buf, t.arrived.first, t.arrived.last, true))
  {
    hide CopyRange;
  }

  /** A receive makes the block equal to the last completed snapshot. */
  lemma ReceiveShows(t: Target)
    requires Valid(t)
    ensures var r := Receive(t);
            Valid(r) && r == t.(block := t.buf, ready := Clean)
  {
    if t.ready.Dirty? {
      CopyCovered(t.block, t.buf, t.ready.first, t.ready.last);
    } else {
      assert t.block == t.buf;
    }
  }

  /** A frame is refused exactly when it starts behind the block or its data is corrupted,
      and then neither the block nor the snapshot changes. */
  lemma StoreRefuses(t: Target, f: DataFrame)
    requires Valid(t)
    ensures var r := Store(t, f);
      && (r.ok <==> f.addr <= |t.block| && Content(f, |t.block|).ok)
      && (!r.ok ==> r.target.block == t.block && r.target.buf == t.buf && r.target.ready == t.ready)
  {
    hide Carried, Apply;
  }

  /** A well-formed frame is taken, and the receiver's snapshot only changes
      with the frame that completes a synchronization. */
  lemma StoreShows(t: Target, f: DataFrame)
    requires Valid(t) && f.addr <= |t.block| && Content(f, |t.block|).ok
    ensures var u := Content(f, |t.block|);
            var r := Store(t, f);
            && r.ok && Valid(r.target)
            && r.target.block == t.block
            && r.target.newdata == Apply(t.newdata, f.addr, u.out, f.isDelta)
            && r.target.buf == if f.complete && u.out != [] then r.target.newdata else t.buf
  {
    hide Carried, Apply, Synchronize;
    var u := Content(f, |t.block|);
    if u.out == [] {
      ApplyEmpty(t.newdata, f.addr, f.isDelta);
    } else {
      StoreKeepsValid(t, f.addr, u.out, f.isDelta);
      var t2 := t.(newdata := Apply(t.newdata, f.addr, u.out, f.isDelta),
                   arrived := Widen(t.arrived, f.addr, f.addr + |u.out| - 1));
      SynchronizeShows(t2);
    }
  }
}
