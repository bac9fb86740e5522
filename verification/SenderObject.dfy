/** The sending side of a connection as code/ioc_connection_send.c updates it in place:
    frame buffer, frame number, flow control counters, and the source buffer. */
module SenderObjects {
  import opened Bytes
  import opened Blocks
  import opened Compression
  import opened Framing
  import F = FlowControl
  import D = DataFrames
  import R = FrameReader
  import S = SourceBuffers
  import opened SourceObjects

  class Sender {
    const serial: bool
    const limits: F.Limits
    const frame: array<byte>
    var used: nat
    var pos: nat
    var frameNr: byte
    var counters: F.Counters

    ghost predicate Valid()
      reads this
    {
      && F.Sound(limits) && limits.ackSz == AckSize(serial) && limits.modulus == Modulus(serial)
      && MAX_HEADER < frame.Length <= (if serial then 0x100 else 0x4000)
      && pos <= used <= frame.Length && frameNr as int <= MAX_FRAME_NR
    }

    /** ioc_reset_connection_state for the fields modelled here. */
    constructor (serial: bool, limits: F.Limits, frameSz: nat)
      requires F.Sound(limits) && limits.ackSz == AckSize(serial) && limits.modulus == Modulus(serial)
      requires MAX_HEADER < frameSz <= (if serial then 0x100 else 0x4000)
      ensures Valid() && fresh(frame) && used == 0 && frameNr == 0
      ensures this.serial == serial && this.limits == limits && frame.Length == frameSz
      ensures counters == F.Counters(0, 0, 0, F.FIRST_ACK_MARK)
    {
      this.serial, this.limits := serial, limits;
      frame := new byte[frameSz](i => 0);
      used, pos, frameNr := 0, 0, 0;
      counters := F.Counters(0, 0, 0, F.FIRST_ACK_MARK);
    }

    /** Stores bytes into the frame buffer. */
    method Put(at: nat, data: seq<byte>)
      requires at + |data| <= frame.Length
      modifies frame
      ensures frame[..at] == old(frame[..at]) && frame[at..at + |data|] == data
      ensures forall i :: at + |data| <= i < frame.Length ==> frame[i] == old(frame[i])
    {
      for i := 0 to |data|
        invariant forall j :: 0 <= j < frame.Length ==>
          frame[j] == if at <= j < at + i then data[j - at] else old(frame[j])
      {
        frame[at + i] := data[i];
      }
    }

    /** ioc_msg_set_uint: the bytes, how many there are, and the flag bits that say so. */
    method PutUint(at: nat, x: nat, flags: byte, two: nat, extra: byte, four: nat)
      returns (width: nat, flags': byte, extra': byte)
      requires x < UINT_SPAN && at + 4 <= frame.Length && two > 0 && four > 0
      modifies frame
      ensures width == UintWidth(x)
      ensures frame[..at + width] == old(frame[..at]) + UintBytes(x)
      ensures flags' == OrIf(flags, TwoBytes(x), two) && extra' == OrIf(extra, FourBytes(x), four)
    {
      hide SetBit;
      ghost var lead := frame[..at];
      var i := x;
      flags', extra' := flags, extra;
      frame[at] := (i % 0x100) as byte;
      i := i / 0x100;
      width := 1;
      if i != 0 {
        frame[at + 1] := (i % 0x100) as byte;
        i := i / 0x100;
        width := 2;
        if i != 0 {
          frame[at + 2] := (i % 0x100) as byte;
          i := i / 0x100;
          frame[at + 3] := (i % 0x100) as byte;
          width := 4;
          extra' := SetBit(extra, four);
          assert x / 0x1_0000 == x / 0x100 / 0x100 && x / 0x100_0000 == x / 0x100 / 0x100 / 0x100;
        } else {
          flags' := SetBit(flags, two);
        }
      }
      assert frame[at..at + width] == UintBytes(x);
      hide UintBytes;
      assert frame[..at + width] == frame[..at] + frame[at..at + width];
      assert frame[..at] == lead;
    }

    /** The fixed part of a header, data size and checksum still zero. */
    ghost predicate Begun(nr: byte, flags: byte)
      requires FixedSize(serial) <= frame.Length
      reads frame
    {
      frame[..FixedSize(serial)] == FixedBytes(serial, nr, flags, 0, 0)
    }

    /** Block identifier and address, with the flag bits for their widths. */
    method PutFields(p: nat, mblkId: nat, addr: nat, flags: byte, extra: byte)
      returns (end: nat, flags': byte, extra': byte)
      requires mblkId < UINT_SPAN && addr < UINT_SPAN && p + 8 <= frame.Length
      modifies frame
      ensures end == p + UintWidth(mblkId) + UintWidth(addr)
      ensures frame[p..end] == UintBytes(mblkId) + UintBytes(addr)
      ensures flags' == OrIf(OrIf(flags, TwoBytes(mblkId), MBLK_HAS_TWO_BYTES), TwoBytes(addr), ADDR_HAS_TWO_BYTES)
      ensures extra' == OrIf(OrIf(extra, FourBytes(mblkId), EXTRA_MBLK_HAS_FOUR_BYTES), FourBytes(addr), EXTRA_ADDR_HAS_FOUR_BYTES)
    {
      hide UintBytes, OrIf;
      ghost var lead := frame[..p];
      var w;
      w, flags', extra' := PutUint(p, mblkId, flags, MBLK_HAS_TWO_BYTES, extra, EXTRA_MBLK_HAS_FOUR_BYTES);
      end := p + w;
      w, flags', extra' := PutUint(end, addr, flags', ADDR_HAS_TWO_BYTES, extra', EXTRA_ADDR_HAS_FOUR_BYTES);
      end := end + w;
      Behind(frame[..end], lead, UintBytes(mblkId), UintBytes(addr), p);
      assert frame[p..end] == frame[..end][p..];
    }

    /** The part of ioc_generate_header behind the fixed bytes: extra flags, block
        identifier and address. */
    method PutAddress(ghost h: Header, mblkId: nat, addr: nat) returns (headerSz: nat, flags: byte)
      requires Valid() && mblkId < UINT_SPAN && addr < UINT_SPAN
      requires h == Header(frameNr, false, false, false, false, mblkId, addr)
      modifies frame
      ensures headerSz == HeaderSize(serial, h) && flags == FlagsByte(h)
      ensures frame[FixedSize(serial)..headerSz] == AddressBytes(h)
    {
      hide UintBytes, SetBit, FlagsByte, ExtraByte, F.Sound;
      HeaderFlags(h);
      var fixed := FixedSize(serial);
      var p := fixed;
      var extra: byte := 0;
      flags := 0;
      if mblkId / 0x1_0000 != 0 || addr / 0x1_0000 != 0 {
        flags, extra := SetBit(flags, EXTRA_FLAGS), EXTRA_NO_ZERO as byte;
        p := p + 1;
      }
      headerSz, flags, extra := PutFields(p, mblkId, addr, flags, extra);
      if p > fixed {
        ghost var address := frame[p..headerSz];
        frame[fixed] := extra;
        assert frame[p..headerSz] == address;
        assert frame[fixed..headerSz] == [extra] + frame[p..headerSz];
      }
    }

    /** ioc_generate_header: data size and checksum are set when the frame is finished. */
    method GenerateHeader(mblkId: nat, addr: nat) returns (headerSz: nat)
      requires Valid() && mblkId < UINT_SPAN && addr < UINT_SPAN
      modifies frame
      ensures var h := Header(frameNr, false, false, false, false, mblkId, addr);
              && headerSz == HeaderSize(serial, h)
              && Begun(frameNr, FlagsByte(h)) && frame[FixedSize(serial)..headerSz] == AddressBytes(h)
    {
      hide AddressBytes, FlagsByte, F.Sound;
      ghost var h := Header(frameNr, false, false, false, false, mblkId, addr);
      var flags;
      headerSz, flags := PutAddress(h, mblkId, addr);
      ghost var address := frame[FixedSize(serial)..headerSz];
      if serial {
        frame[0], frame[1], frame[2], frame[3], frame[4] := frameNr, 0, 0, flags, 0;
      } else {
        frame[0], frame[1], frame[2], frame[3] := frameNr, flags, 0, 0;
      }
      assert frame[FixedSize(serial)..headerSz] == address;
    }

    /** Sets a bit of the flags byte in the frame buffer. */
    method OrFlag(mask: nat, ghost nr: byte, ghost flags: byte, ghost headerSz: nat, ghost n: nat)
      requires mask > 0 && FixedSize(serial) <= headerSz <= n <= frame.Length && Begun(nr, flags)
      modifies frame
      ensures Begun(nr, SetBit(flags, mask))
      ensures frame[FixedSize(serial)..headerSz] == old(frame[FixedSize(serial)..headerSz])
      ensures frame[headerSz..n] == old(frame[headerSz..n])
    {
      hide SetBit;
      var at := if serial then 3 else 1;
      assert frame[at] == frame[..FixedSize(serial)][at];
      frame[at] := SetBit(frame[at], mask);
    }

    /** Fills in data size and checksum around the data in the buffer. */
    method FinishFrame(headerSz: nat, dataSz: nat, ghost h: Header, sum: R.Checksum)
      requires ValidHeader(h) && headerSz == HeaderSize(serial, h)
      requires headerSz + dataSz <= frame.Length <= (if serial then 0x100 else 0x4000)
      requires Begun(h.nr, FlagsByte(h)) && frame[FixedSize(serial)..headerSz] == AddressBytes(h)
      modifies frame
      ensures var data := old(frame[headerSz..headerSz + dataSz]);
              && |data| < (if serial then 0x100 else 0x1_0000)
              && frame[..headerSz + dataSz] ==
                 FrameBytes(serial, h, data, if serial then R.Crc(sum, FrameBytes(serial, h, data, 0)) else 0)
    {
      hide AddressBytes, FlagsByte;
      var n := headerSz + dataSz;
      ghost var data := frame[headerSz..n];
      ghost var rest := frame[FixedSize(serial)..n];
      assert rest == AddressBytes(h) + data by { Split(frame, FixedSize(serial), headerSz, n); }
      ghost var fixed := frame[..FixedSize(serial)];
      if serial {
        frame[4] := dataSz as byte;
        WholeFrame(frame, n, h, data, 0, fixed);
        var crc := R.Crc(sum, frame[..n]);
        frame[1], frame[2] := (crc % 0x100) as byte, (crc / 0x100) as byte;
        WholeFrame(frame, n, h, data, crc, fixed);
      } else {
        frame[2], frame[3] := (dataSz % 0x100) as byte, (dataSz / 0x100) as byte;
        WholeFrame(frame, n, h, data, 0, fixed);
      }
    }

    /** The buffer holds the whole frame when its fixed part and its rest do. */
    lemma WholeFrame(a: array<byte>, n: nat, h: Header, data: seq<byte>, crc: nat, begun: seq<byte>)
      requires ValidHeader(h) && crc < 0x1_0000 && |data| < (if serial then 0x100 else 0x1_0000)
      requires n == HeaderSize(serial, h) + |data| <= a.Length
      requires begun == FixedBytes(serial, h.nr, FlagsByte(h), 0, 0)
      requires if serial then
                 && a[0] == begun[0] && a[1] as int == crc % 0x100 && a[2] as int == crc / 0x100
                 && a[3] == begun[3] && a[4] as int == |data|
               else
                 && a[0] == begun[0] && a[1] == begun[1]
                 && a[2] as int == |data| % 0x100 && a[3] as int == |data| / 0x100
      requires a[FixedSize(serial)..n] == AddressBytes(h) + data
      ensures a[..n] == FrameBytes(serial, h, data, crc)
    {
      hide AddressBytes, FlagsByte;
      Split(a, 0, FixedSize(serial), n);
      assert a[0..FixedSize(serial)] == FixedBytes(serial, h.nr, FlagsByte(h), |data|, crc);
      assert a[0..n] == a[..n];
    }

    /** The header a data frame from `s` would carry. */
    ghost function HeaderOf(nr: byte, mblkId: nat, f: D.DataFrame): Header {
      Header(nr, f.isDelta, f.compressed, f.complete, false, mblkId, f.addr)
    }

    /** Room for payload and on air for the next frame of `s`. */
    ghost function Emission(s: S.Source, mblkId: nat): D.Emission
      requires Valid() && S.Shaped(s) && s.used && mblkId < UINT_SPAN && |s.block| < UINT_SPAN
      reads this
    {
      var headerSz := HeaderSize(serial, Header(0, false, false, false, false, mblkId, s.start));
      D.MakeFrame(s, headerSz, frame.Length - headerSz, limits.maxInAir - F.InAir(limits, counters))
    }

    /** Header and data of a frame are in the buffer; data size and checksum are not. */
    ghost predicate Staged(h: Header, headerSz: nat, data: seq<byte>)
      reads this, frame
    {
      && ValidHeader(h) && headerSz == HeaderSize(serial, h) && headerSz + |data| <= frame.Length
      && Begun(h.nr, FlagsByte(h)) && frame[FixedSize(serial)..headerSz] == AddressBytes(h)
      && frame[headerSz..headerSz + |data|] == data
    }

    /** Compresses the bytes from `start` to `end` into the frame buffer, or copies them. */
    method Fill(delta: array<byte>, start: nat, end: int, headerSz: nat)
      returns (dataSz: nat, isCompressed: bool, next: nat)
      requires start <= end + 1 <= delta.Length && frame != delta && headerSz < frame.Length
      modifies frame
      ensures frame[..headerSz] == old(frame[..headerSz]) && headerSz + dataSz <= frame.Length
      ensures var f := D.MakeFragment(delta[start..end + 1], frame.Length - headerSz);
              && dataSz == |f.payload| && isCompressed == f.compressed && next == start + f.carried
              && frame[headerSz..headerSz + dataSz] == f.payload
    {
      hide Pack, D.MakeFragment;
      ghost var unsent := delta[start..end + 1];
      assert unsent == delta[..][start..end + 1];
      var compressed: int;
      compressed, next := Compress(delta[..], start, end, frame, headerSz, frame.Length - headerSz);
      isCompressed := compressed >= 0;
      FragmentIs(unsent, frame.Length - headerSz);
      if isCompressed {
        dataSz := compressed;
      } else {
        dataSz := Min(end - start + 1, frame.Length - headerSz);
        var data := delta[start..start + dataSz];
        Prefix(delta, start, dataSz, end + 1);
        Put(headerSz, data);
        next := start + dataSz;
      }
    }

    /** Header and data of the next frame, and whether flow control has room. */
    method StageFrame(sbuf: SourceBuffer, mblkId: nat, ghost h: Header)
      returns (fits: bool, headerSz: nat, dataSz: nat, isCompressed: bool, next: nat)
      requires Valid() && sbuf.Valid() && sbuf.used && mblkId < UINT_SPAN && sbuf.block.Length < UINT_SPAN
      requires frame != sbuf.block && frame != sbuf.sync && frame != sbuf.delta
      requires h == Header(frameNr, !sbuf.isKeyframe, false, false, false, mblkId, sbuf.startAddr)
      modifies frame
      ensures headerSz == HeaderSize(serial, h) < frame.Length
      ensures var f := D.MakeFragment(S.Unsent(sbuf.Value()), frame.Length - headerSz);
              && dataSz == |f.payload| && isCompressed == f.compressed && next == sbuf.startAddr + f.carried
              && Staged(h, headerSz, f.payload)
      ensures fits <==> dataSz + headerSz <= limits.maxInAir - F.InAir(limits, counters)
    {
      hide D.MakeFragment, AddressBytes, F.Masked, F.Sound, FlagsByte, FixedBytes, SetBit;
      headerSz := GenerateHeader(mblkId, sbuf.startAddr);
      ghost var h0 := h.(isDelta := false);
      SameAddress(h, h0);
      if !sbuf.isKeyframe {
        OrFlag(DELTA_ENCODED, frameNr, FlagsByte(h0), headerSz, headerSz);
        OrDelta(h0);
      }
      ghost var head := frame[..headerSz];
      assert head[..FixedSize(serial)] == frame[..FixedSize(serial)];
      assert head[FixedSize(serial)..] == AddressBytes(h);
      assert S.Unsent(sbuf.Value()) == sbuf.delta[sbuf.startAddr..sbuf.endAddr + 1];
      dataSz, isCompressed, next := Fill(sbuf.delta, sbuf.startAddr, sbuf.endAddr, headerSz);
      fits := dataSz + headerSz <= limits.maxInAir - F.InAir(limits, counters);
      assert frame[..FixedSize(serial)] == frame[..headerSz][..FixedSize(serial)];
      assert frame[FixedSize(serial)..headerSz] == frame[..headerSz][FixedSize(serial)..];
    }

    /** Sets the flags that are only known when the payload is. */
    method SetFlags(headerSz: nat, isCompressed: bool, complete: bool, ghost h: Header, ghost data: seq<byte>)
      requires !h.compressed && !h.complete && Staged(h, headerSz, data)
      modifies frame
      ensures Staged(h.(compressed := isCompressed, complete := complete), headerSz, data)
    {
      hide AddressBytes, FlagsByte, SetBit, FixedBytes;
      ghost var h1 := h.(compressed := isCompressed);
      SameAddress(h, h1);
      SameAddress(h, h1.(complete := complete));
      if isCompressed {
        OrFlag(COMPRESSED, h.nr, FlagsByte(h), headerSz, headerSz + |data|);
        OrCompressed(h);
      }
      if complete {
        OrFlag(SYNC_COMPLETE, h.nr, FlagsByte(h1), headerSz, headerSz + |data|);
        OrComplete(h1);
      }
    }

    /** Completes a staged frame. */
    method CommitFrame(headerSz: nat, dataSz: nat, ghost h: Header, sum: R.Checksum, ghost data: seq<byte>)
      requires Valid() && h.nr == frameNr && dataSz == |data| && Staged(h, headerSz, data)
      modifies this`used, this`frameNr, this`pos, frame
      ensures Valid() && used == headerSz + dataSz && frameNr == R.NextNr(old(frameNr))
      ensures var m := R.DataMessage(h, data);
              && R.Sendable(serial, frame.Length, m)
              && frame[..used] == R.Encode(serial, frame.Length, sum, h.nr, m)
    {
      hide AddressBytes, FlagsByte, FrameBytes, HeaderSize, FixedBytes, R.Encode, R.Sendable, F.Sound;
      pos := 0;
      FinishFrame(headerSz, dataSz, h, sum);
      Encoded(sum, h, data);
      frameNr := if frameNr as int >= MAX_FRAME_NR then 1 else frameNr + 1;
      used := headerSz + dataSz;
    }

    /** ioc_make_data_frame: the next frame of the source buffer is in the frame
        buffer as its bytes, or flow control has cancelled it and nothing of the
        connection or the source buffer has changed. */
    method MakeDataFrame(sbuf: SourceBuffer, mblkId: nat, sum: R.Checksum) returns (ghost e: D.Emission)
      requires Valid() && used == 0 && sbuf.Valid() && sbuf.used && mblkId < UINT_SPAN && sbuf.block.Length < UINT_SPAN
      requires frame != sbuf.block && frame != sbuf.sync && frame != sbuf.delta
      modifies this`used, this`pos, this`frameNr, frame, sbuf`startAddr, sbuf`used
      ensures Valid() && e == old(Emission(sbuf.Value(), mblkId))
      ensures e.Cancelled? ==> used == 0 && frameNr == old(frameNr) && sbuf.Value() == old(sbuf.Value())
      ensures e.Emitted? ==> F.DataFits(limits, counters, used)
      ensures e.Emitted? ==>
                var m := R.DataMessage(HeaderOf(old(frameNr), mblkId, e.frame), e.frame.payload);
                && sbuf.Value() == e.rest && frameNr == R.NextNr(old(frameNr))
                && R.Sendable(serial, frame.Length, m)
                && used <= frame.Length && frame[..used] == R.Encode(serial, frame.Length, sum, old(frameNr), m)
    {
      hide D.MakeFrame, D.MakeFragment, Staged, F.Masked, HeaderSize, R.Encode, R.Sendable, F.Sound;
      e := Emission(sbuf.Value(), mblkId);
      ghost var h0 := Header(frameNr, !sbuf.isKeyframe, false, false, false, mblkId, sbuf.startAddr);
      var fits, headerSz, dataSz, isCompressed, next := StageFrame(sbuf, mblkId, h0);
      EmissionIs(sbuf.Value(), mblkId, e, h0, headerSz);
      if !fits {
        pos := 0;
        return;
      }
      var complete := next > sbuf.endAddr;
      SetFlags(headerSz, isCompressed, complete, h0, e.frame.payload);
      CommitFrame(headerSz, dataSz, HeaderOf(frameNr, mblkId, e.frame), sum, e.frame.payload);
      sbuf.Advance(next, complete);
    }

    /** ioc_send_acknowledge: the count of received bytes goes into the frame
        buffer and is remembered as acknowledged. */
    method SendAcknowledge()
      requires Valid() && used == 0
      modifies this`used, this`pos, this`counters, frame
      ensures Valid() && used == AckSize(serial) && pos == 0
      ensures frame[..used] == R.AckBytes(serial, old(counters.received))
      ensures counters == old(counters).(acknowledged := old(counters.received))
    {
      var rbytes := counters.received;
      frame[0], frame[1], frame[2] := ACKNOWLEDGE, (rbytes % 0x100) as byte, (rbytes / 0x100 % 0x100) as byte;
      if !serial {
        frame[3] := (rbytes / 0x1_0000 % 0x100) as byte;
      }
      used, pos := AckSize(serial), 0;
      counters := counters.(acknowledged := rbytes);
    }

    /** ioc_acknowledge_as_needed: refused without room on air, otherwise sent
        exactly when it is due. */
    method AcknowledgeAsNeeded() returns (refused: bool)
      requires Valid() && used == 0
      modifies this`used, this`pos, this`counters, frame
      ensures Valid() && refused == !F.AckFits(limits, old(counters))
      ensures if !refused && F.AckDue(limits, old(counters)) then
                && used == AckSize(serial) && frame[..used] == R.AckBytes(serial, old(counters.received))
                && counters == old(counters).(acknowledged := old(counters.received))
              else used == 0 && counters == old(counters)
    {
      refused := false;
      if limits.maxAckInAir - F.InAir(limits, counters) < limits.ackSz { return true; }
      if F.Masked(limits, counters.received, counters.acknowledged) < limits.unackLimit { return; }
      SendAcknowledge();
    }

    /** ioc_write_to_stream, when the stream takes `n` bytes. */
    method WriteToStream(n: nat) returns (written: seq<byte>)
      requires Valid() && n <= used - pos
      modifies this`used, this`pos, this`counters
      ensures Valid() && written == old(frame[pos..pos + n])
      ensures counters == old(counters).(sent := (old(counters.sent) + n) % F.WORD)
      ensures used - pos == old(used) - old(pos) - n && (used == pos ==> used == 0)
      ensures used > 0 ==> used == old(used)
    {
      written := frame[pos..pos + n];
      counters := counters.(sent := (counters.sent + n) % F.WORD);
      pos := pos + n;
      if pos >= used {
        used, pos := 0, 0;
      }
    }

    /** ioc_connection_receive counts bytes and takes acknowledges. */
    method Received(n: nat)
      requires Valid()
      modifies this`counters
      ensures Valid() && counters == old(counters).(received := (old(counters.received) + n) % F.WORD)
    {
      counters := counters.(received := (counters.received + n) % F.WORD);
    }

    /** ioc_connection_receive takes the peer's count of received bytes out of an
        acknowledge: printing the count again gives the acknowledge, and when the peer
        had received `count` of the `sent` bytes, exactly the rest is now on air. */
    method TakeAcknowledge(ack: seq<byte>)
      requires Valid() && |ack| == AckSize(serial) && ack[0] == ACKNOWLEDGE
      modifies this`counters
      ensures Valid() && counters == old(counters).(processed := counters.processed)
      ensures R.AckBytes(serial, counters.processed) == ack && counters.processed < limits.modulus
      ensures forall sent: nat, count: nat ::
        Acknowledges(serial, ack, count, sent, old(counters.sent)) ==> F.InAir(limits, counters) == sent - count
    {
      hide F.Masked;
      var processed := ack[1] as nat + 0x100 * ack[2] as nat;
      if !serial {
        processed := processed + 0x1_0000 * ack[3] as nat;
      }
      AckIs(serial, ack, processed);
      counters := counters.(processed := processed);
      forall sent: nat, count: nat | Acknowledges(serial, ack, count, sent, old(counters.sent))
        ensures F.InAir(limits, counters) == sent - count
      {
        R.AckRoundTrip(serial, count);
        F.MaskedIsExact(limits, sent, count);
      }
    }

    lemma Encoded(sum: R.Checksum, h: Header, data: seq<byte>)
      requires ValidHeader(h) && |data| < (if serial then 0x100 else 0x1_0000)
      requires HeaderSize(serial, h) + |data| <= frame.Length
      ensures R.Sendable(serial, frame.Length, R.DataMessage(h, data))
      ensures R.Encode(serial, frame.Length, sum, h.nr, R.DataMessage(h, data))
           == FrameBytes(serial, h, data, if serial then R.Crc(sum, FrameBytes(serial, h, data, 0)) else 0)
    {
      hide FrameBytes;
    }

    lemma EmissionIs(s: S.Source, mblkId: nat, e: D.Emission, h: Header, headerSz: nat)
      requires Valid() && S.Shaped(s) && s.used && mblkId < UINT_SPAN && |s.block| < UINT_SPAN
      requires e == Emission(s, mblkId) && h.mblkId == mblkId && h.addr == s.start
      requires headerSz == HeaderSize(serial, h) && headerSz < frame.Length
      ensures var f := D.MakeFragment(S.Unsent(s), frame.Length - headerSz);
              var next := s.start + f.carried;
              if |f.payload| + headerSz <= limits.maxInAir - F.InAir(limits, counters) then
                && next <= s.end + 1
                && e == D.Emitted(D.DataFrame(s.start, f.payload, f.compressed, !s.isKey, next > s.end),
                                  s.(start := next, used := !(next > s.end)))
              else e.Cancelled?
    {
      hide D.MakeFragment, F.Masked;
    }
  }

  /** Counters are compared in 16 bits on a serial line and in 24 bits on a socket. */
  function Modulus(serial: bool): nat {
    if serial then F.SERIAL_MODULUS else F.SOCKET_MODULUS
  }

  /** `ack` acknowledges `count` of `sent` bytes, of which the wrapping counter knows
      `counter`. */
  ghost predicate Acknowledges(serial: bool, ack: seq<byte>, count: nat, sent: nat, counter: nat) {
    counter == sent % F.WORD && count <= sent < count + Modulus(serial) && ack == R.AckBytes(serial, count)
  }

  /** An acknowledge is printed from its count and from no other below the modulus. */
  lemma AckIs(serial: bool, ack: seq<byte>, count: nat)
    requires |ack| == AckSize(serial) && ack[0] == ACKNOWLEDGE
    requires count == ack[1] as nat + 0x100 * ack[2] as nat + if serial then 0 else 0x1_0000 * ack[3] as nat
    ensures count < Modulus(serial) && R.AckBytes(serial, count) == ack && R.AckCount(serial, ack) == count
  {
    Digits(ack[1] as nat, ack[2] as nat, if serial then 0 else ack[3] as nat);
  }

  lemma Digits(a: nat, b: nat, c: nat)
    requires a < 0x100 && b < 0x100 && c < 0x100
    ensures var x := a + 0x100 * b + 0x1_0000 * c;
      x % 0x100 == a && x / 0x100 % 0x100 == b && x / 0x1_0000 % 0x100 == c
  {
    var x := a + 0x100 * b + 0x1_0000 * c;
    assert x / 0x100 == b + 0x100 * c;
  }

  /** Bitwise or with one bit. */
  function SetBit(b: byte, mask: nat): byte
    requires mask > 0
  {
    if Bit(b, mask) then b else ((b as int + mask) % BYTE_SPAN) as byte
  }

  function OrIf(b: byte, on: bool, mask: nat): byte
    requires mask > 0
  {
    if on then SetBit(b, mask) else b
  }

  /** The bits ioc_generate_header sets, in its order, are those of the address widths. */
  lemma HeaderFlags(h: Header)
    requires ValidHeader(h) && !h.isDelta && !h.compressed && !h.complete && !h.system
    ensures OrIf(OrIf(OrIf(0, NeedsExtra(h), EXTRA_FLAGS), TwoBytes(h.mblkId), MBLK_HAS_TWO_BYTES),
                 TwoBytes(h.addr), ADDR_HAS_TWO_BYTES) == FlagsByte(h)
    ensures OrIf(OrIf(EXTRA_NO_ZERO as byte, FourBytes(h.mblkId), EXTRA_MBLK_HAS_FOUR_BYTES),
                 FourBytes(h.addr), EXTRA_ADDR_HAS_FOUR_BYTES) == ExtraByte(h)
  {
  }

  lemma OrDelta(h: Header)
    requires !h.isDelta
    ensures SetBit(FlagsByte(h), DELTA_ENCODED) == FlagsByte(h.(isDelta := true))
  {
    hide Bit;
    FlagsDecode(h);
  }

  lemma OrCompressed(h: Header)
    requires !h.compressed
    ensures SetBit(FlagsByte(h), COMPRESSED) == FlagsByte(h.(compressed := true))
  {
    hide Bit;
    FlagsDecode(h);
  }

  lemma OrComplete(h: Header)
    requires !h.complete
    ensures SetBit(FlagsByte(h), SYNC_COMPLETE) == FlagsByte(h.(complete := true))
  {
    hide Bit;
    FlagsDecode(h);
  }

  lemma FragmentIs(data: seq<byte>, maxDst: nat)
    ensures var p := Pack(data, maxDst);
      var f := D.MakeFragment(data, maxDst);
      if |data| - 1 < 3 || |p.out| >= p.taken then
        f == D.Fragment(data[..Min(|data|, maxDst)], false, Min(|data|, maxDst))
      else f == D.Fragment(p.out, true, p.taken)
  {
    hide Pack;
  }

  lemma SameAddress(h: Header, h': Header)
    requires ValidHeader(h) && h.mblkId == h'.mblkId && h.addr == h'.addr
    ensures AddressBytes(h) == AddressBytes(h') && forall serial :: HeaderSize(serial, h) == HeaderSize(serial, h')
  {
  }

  lemma Split(a: array<byte>, i: nat, j: nat, k: nat)
    requires i <= j <= k <= a.Length
    ensures a[i..k] == a[i..j] + a[j..k]
  {
  }

  lemma Prefix(a: array<byte>, i: nat, k: nat, j: nat)
    requires i + k <= j <= a.Length
    ensures a[i..j][..k] == a[i..i + k]
  {
  }

  lemma Behind(s: seq<byte>, lead: seq<byte>, a: seq<byte>, b: seq<byte>, k: nat)
    requires s == lead + a + b && k <= |lead|
    ensures s[k..] == lead[k..] + a + b
  {
  }

  /** The longest header. */
  const MAX_HEADER := 14
}
