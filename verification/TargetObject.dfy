/** The target buffer as code/ioc_target_buffer.c, ioc_store_data_frame and
    ioc_receive_nolock update it in place. Each method is proved against the
    function of the same name on values. */
module TargetObjects {
  import opened Bytes
  import opened Blocks
  import opened Compression
  import opened DataFrames
  import T = TargetBuffers

  class TargetBuffer {
    const block: array<byte>
    const buf: array<byte>
    const newdata: array<byte>
    var hasNewData: bool
    var newdataStart: int
    var newdataEnd: int
    var bufUsed: bool
    var bufStart: int
    var bufEnd: int

    ghost predicate Separate() {
      block != buf && block != newdata && buf != newdata
    }

    ghost function Value(): T.Target
      reads this, block, buf, newdata
    {
      T.Target(block[..], buf[..], newdata[..], if hasNewData then Dirty(newdataStart, newdataEnd) else Clean,
             if bufUsed then Dirty(bufStart, bufEnd) else Clean)
    }

    ghost predicate Valid()
      reads this, block, buf, newdata
    {
      Separate() && T.Valid(Value())
    }

    constructor (mblk: array<byte>)
      ensures Valid() && block == mblk && fresh(buf) && fresh(newdata)
      ensures Value() == T.NewTarget(mblk[..])
    {
      block := mblk;
      buf := new byte[mblk.Length](i requires 0 <= i < mblk.Length reads mblk => mblk[i]);
      newdata := new byte[mblk.Length](i requires 0 <= i < mblk.Length reads mblk => mblk[i]);
      hasNewData, newdataStart, newdataEnd := false, 0, 0;
      bufUsed, bufStart, bufEnd := false, 0, 0;
      new;
      assert buf[..] == mblk[..] && newdata[..] == mblk[..];
    }

    /** ioc_tbuf_invalidate. */
    method Invalidate(first: int, last: int)
      modifies this`hasNewData, this`newdataStart, this`newdataEnd
      ensures Value() == old(Value()).(arrived := Widen(old(Value()).arrived, first, last))
    {
      if !hasNewData {
        newdataStart, newdataEnd, hasNewData := first, last, true;
      } else {
        if first < newdataStart { newdataStart := first; }
        if last > newdataEnd { newdataEnd := last; }
      }
    }

    method Synchronize()
      requires Valid()
      modifies this, buf
      ensures Valid() && Value() == T.Synchronize(old(Value()))
    {
      hide Shrink, CopyRange, Widen;
      T.SynchronizeShows(Value());
      if !hasNewData { return; }
      var start, end := ShrinkRange(newdata, buf, newdataStart, newdataEnd);
      hasNewData := false;
      if end < start { return; }
      CopyArrayRange(buf, newdata, start, end);
      MarkReady(start, end);
    }

    method MarkReady(first: int, last: int)
      modifies this`bufUsed, this`bufStart, this`bufEnd
      ensures Value() == old(Value()).(ready := Widen(old(Value()).ready, first, last))
    {
      if bufUsed {
        if first < bufStart { bufStart := first; }
        if last > bufEnd { bufEnd := last; }
      } else {
        bufStart, bufEnd, bufUsed := first, last, true;
      }
    }

    /** ioc_store_data_frame; false is a corrupted frame, which ends the connection. */
    method Store(addr: nat, payload: seq<byte>, compressed: bool, isDelta: bool, complete: bool) returns (ok: bool)
      requires Valid()
      modifies this, newdata, buf
      ensures Separate()
      ensures var r := T.Store(old(Value()), DataFrame(addr, payload, compressed, isDelta, complete));
              ok == r.ok && Value() == r.target
      ensures ok ==> Valid()
    {
      hide Carried, Apply, T.Synchronize, Covers;
      ghost var f := DataFrame(addr, payload, compressed, isDelta, complete);
      ghost var was := Value();
      if addr > block.Length { return false; }
      ghost var u := Content(f, block.Length);
      if u.ok {
        T.StoreShows(was, f);
      }
      var n := Uncompress(payload, newdata, addr, block.Length - addr, compressed, isDelta);
      assert Value() == was.(newdata := Apply(was.newdata, addr, u.out, isDelta));
      if n < 0 { return false; }
      if n == 0 { return true; }
      T.StoreKeepsValid(was, addr, u.out, isDelta);
      Invalidate(addr, addr + n - 1);
      if complete {
        Synchronize();
      }
      ok := true;
    }

    /** ioc_receive_nolock. */
    method Receive()
      requires Valid()
      modifies this`bufUsed, block
      ensures Valid() && Value() == T.Receive(old(Value()))
    {
      T.ReceiveShows(Value());
      if bufUsed {
        CopyArrayRange(block, buf, bufStart, bufEnd);
        bufUsed := false;
      }
    }
  }
}
