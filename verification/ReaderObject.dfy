/** ioc_read_frame as it fills a connection's frame buffer in place. */
module ReaderObjects {
  import opened Bytes
  import opened Framing
  import R = FrameReader

  /** A byte stream which delivers at most the next scheduled number of bytes at
      a time; all schedules are all the ways a stream may split its data. */
  class Stream {
    var input: seq<byte>
    var chunks: seq<nat>

    constructor (input: seq<byte>, chunks: seq<nat>)
      ensures this.input == input && this.chunks == chunks
    {
      this.input, this.chunks := input, chunks;
    }

    method Read(want: nat) returns (data: seq<byte>)
      modifies this
      ensures var k := R.Delivered(old(input), old(chunks), want);
              data == old(input)[..k] && input == old(input)[k..] && chunks == R.Later(old(chunks))
    {
      var k := R.Delivered(input, chunks, want);
      data, input, chunks := input[..k], input[k..], R.Later(chunks);
    }
  }

  /** Data size of a frame whose header has not come yet. */
  const UNKNOWN := 0xFFFF

  datatype Status = Failed | Pending | Complete

  class FrameBuffer {
    const serial: bool
    const frameSz: nat
    const buf: array<byte>
    var pos: nat
    var frameNr: byte

    ghost predicate Valid()
      reads this, buf
    {
      MinSize(serial) <= frameSz == buf.Length && pos <= frameSz && R.InFrame(serial, frameSz, buf[..pos])
    }

    constructor (serial: bool, frameSz: nat)
      requires MinSize(serial) <= frameSz
      ensures Valid() && fresh(buf) && pos == 0 && frameNr == 0 && this.serial == serial && this.frameSz == frameSz
    {
      this.serial, this.frameSz := serial, frameSz;
      buf := new byte[frameSz](i => 0);
      pos, frameNr := 0, 0;
      new;
      R.EmptyInFrame(serial, frameSz);
      assert buf[..0] == [];
    }

    /** Appends stream data to the frame in the buffer. */
    method Append(data: seq<byte>)
      requires pos + |data| <= buf.Length
      modifies this`pos, buf
      ensures pos == old(pos) + |data| && buf[..pos] == old(buf[..pos]) + data
    {
      for i := 0 to |data|
        invariant pos == old(pos)
        invariant buf[..pos + i] == old(buf[..pos]) + data[..i]
      {
        buf[pos + i] := data[i];
      }
      pos := pos + |data|;
      assert data[..|data|] == data;
    }

    /** How many bytes the frame in the buffer needs, and its data size, UNKNOWN before
        the header has come; not `ok` when the frame cannot fit the buffer. */
    method Measure() returns (ok: bool, needed: nat, dataSz: nat)
      requires pos <= buf.Length
      ensures var sz := Size(serial, frameSz, buf[..pos]);
              && (ok <==> !sz.TooBig?)
              && (ok ==> needed == R.Wanted(serial, sz))
              && (sz.Unknown? ==> dataSz == UNKNOWN) && (sz.Ack? ==> dataSz == 0)
    {
      hide Bit;
      ok, dataSz := true, UNKNOWN;
      if pos >= 1 && buf[0] == ACKNOWLEDGE {
        dataSz, needed := 0, if serial then SERIAL_ACK_SIZE else SOCKET_ACK_SIZE;
      } else if pos >= (if serial then 6 else 5) {
        var flags: byte;
        var extraAt: nat;
        if serial {
          dataSz, flags, extraAt := buf[4] as nat, buf[3], 5;
          needed := dataSz + 7;
        } else {
          dataSz, flags, extraAt := buf[2] as nat + 0x100 * buf[3] as nat, buf[1], 4;
          needed := dataSz + 6;
        }
        var extra: byte := 0;
        if Bit(flags, EXTRA_FLAGS) {
          extra := buf[extraAt];
          needed := needed + 1;
        }
        assert Bit(0, EXTRA_MBLK_HAS_FOUR_BYTES) == Bit(0, EXTRA_ADDR_HAS_FOUR_BYTES) == false by { ZeroBits(); }
        if Bit(extra, EXTRA_MBLK_HAS_FOUR_BYTES) {
          needed := needed + 3;
        } else if Bit(flags, MBLK_HAS_TWO_BYTES) {
          needed := needed + 1;
        }
        if Bit(extra, EXTRA_ADDR_HAS_FOUR_BYTES) {
          needed := needed + 3;
        } else if Bit(flags, ADDR_HAS_TWO_BYTES) {
          needed := needed + 1;
        }
        ok := needed <= frameSz;
      } else if pos >= 1 {
        needed := if serial then 7 else 6;
      } else {
        needed := if serial then SERIAL_ACK_SIZE else SOCKET_ACK_SIZE;
      }
    }

    /** ioc_read_frame. */
    method ReadFrame(stream: Stream) returns (status: Status)
      requires Valid()
      modifies this`pos, buf, stream
      ensures var p := R.ReadFrame(serial, frameSz, frameNr, old(buf[..pos]), old(stream.input), old(stream.chunks));
              && (status.Failed? <==> p.Failed?) && (status.Complete? <==> p.Got?)
              && (!p.Failed? ==> pos <= buf.Length && buf[..pos] == p.buf
                                 && stream.input == p.input && stream.chunks == p.chunks)
      ensures status.Pending? ==> Valid()
    {
      hide R.ReadFrame, Size;
      ghost var p := R.ReadFrame(serial, frameSz, frameNr, buf[..pos], stream.input, stream.chunks);
      R.ReadKeepsInFrame(serial, frameSz, frameNr, buf[..pos], stream.input, stream.chunks);
      while true
        invariant Valid()
        invariant p == R.ReadFrame(serial, frameSz, frameNr, buf[..pos], stream.input, stream.chunks)
        decreases |stream.input|
      {
        ghost var b, input, chunks := buf[..pos], stream.input, stream.chunks;
        ghost var sz := Size(serial, frameSz, buf[..pos]);
        var ok, needed, dataSz := Measure();
        R.ReadTop(serial, frameSz, frameNr, b, input, chunks);
        if !ok { return Failed; }
        if needed == pos { return Complete; }
        R.WantedFits(serial, frameSz, b);
        var data := stream.Read(needed - pos);
        Append(data);
        if |data| > 0 && buf[0] != ACKNOWLEDGE && buf[0] != frameNr {
          return Failed;
        }
        R.ReadRound(serial, frameSz, frameNr, b, input, chunks, sz, |data|, buf[..pos]);
        if pos < needed { return Pending; }
        if dataSz != UNKNOWN { return Complete; }
        if !sz.Unknown? {
          R.StillKnown(serial, frameSz, frameNr, b, buf[..pos], stream.input, stream.chunks);
        }
      }
    }
  }
}
