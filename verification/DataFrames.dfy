/** ioc_make_data_frame (code/ioc_connection_send.c): fragments a synchronization
    into frames, each compressed when that makes it smaller. */
module DataFrames {
  import opened Bytes
  import opened Blocks
  import opened Compression
  import opened SourceBuffers

  /** The header fields which matter to the receiver's data, and the payload. */
  datatype DataFrame = DataFrame(addr: nat, payload: seq<byte>, compressed: bool, isDelta: bool, complete: bool)

  datatype Emission = Cancelled | Emitted(frame: DataFrame, rest: Source)

  /** The payload chosen for `data` (not empty, or the empty key frame of an
      empty block) when `maxDst` bytes fit, and how many bytes it carries. */
  datatype Fragment = Fragment(payload: seq<byte>, compressed: bool, carried: nat)

  function MakeFragment(data: seq<byte>, maxDst: nat): (f: Fragment)
    ensures f.carried <= |data|
    ensures data != [] && maxDst > 0 ==> f.carried > 0
    ensures |f.payload| <= maxDst
  {
    var p := Pack(data, maxDst);
    if |data| - 1 < 3 || |p.out| >= p.taken then
      Fragment(data[..Min(|data|, maxDst)], false, Min(|data|, maxDst))
    else Fragment(p.out, true, p.taken)
  }

  /** ioc_make_data_frame. `room` is what flow control still allows on air; a
      frame which does not fit is cancelled. */
  function MakeFrame(s: Source, headerSz: nat, maxDst: nat, room: int): (e: Emission)
    requires Shaped(s) && s.used && maxDst > 0
    ensures e.Emitted? ==> Shaped(e.rest)
  {
    var f := MakeFragment(Unsent(s), maxDst);
    if |f.payload| + headerSz > room then Cancelled
    else
      var complete := s.start + f.carried > s.end;
      Emitted(DataFrame(s.start, f.payload, f.compressed, !s.isKey, complete),
              s.(start := s.start + f.carried, used := !complete))
  }

  /** What a frame stores or adds at the receiver. */
  function Content(f: DataFrame, n: nat): (u: Unpacked)
    requires f.addr <= n
    ensures |u.out| <= n - f.addr
  {
    Carried(f.payload, n - f.addr, f.compressed)
  }

  lemma FragmentCarries(data: seq<byte>, maxDst: nat, room: nat)
    requires |data| <= room
    ensures var f := MakeFragment(data, maxDst);
            Carried(f.payload, room, f.compressed) == Unpacked(data[..f.carried], true)
  {
    hide Pack, Unpack;
    PackUnpack(data, maxDst, room);
  }

  /** Compression is used exactly where it makes the payload shorter, and never makes a
      frame carry less than a copy of the same length would. */
  lemma FragmentNeverGrows(data: seq<byte>, maxDst: nat)
    ensures var f := MakeFragment(data, maxDst);
      && |f.payload| <= f.carried
      && (f.compressed <==> |f.payload| < f.carried)
      && (!f.compressed ==> f.carried == Min(|data|, maxDst))
  {
    hide Pack;
  }

  /** A range of zeros is always compressed, to two bytes for each 255 of them. */
  lemma ZerosFragment(n: nat, maxDst: nat)
    requires n >= 4 && 2 * ((n + 254) / 255) <= maxDst
    ensures var f := MakeFragment(Zeros(n), maxDst);
      f.compressed && f.carried == n && |f.payload| == 2 * ((n + 254) / 255)
  {
    hide Pack;
    ZerosShrink(n, maxDst);
  }

  /** A frame is cancelled exactly when header and payload do not fit the room on air. */
  lemma CancelledIff(s: Source, headerSz: nat, maxDst: nat, room: int)
    requires Shaped(s) && s.used && maxDst > 0
    ensures var e := MakeFrame(s, headerSz, maxDst, room);
      && (e.Emitted? ==> headerSz + |e.frame.payload| <= room && |e.frame.payload| <= maxDst)
      && (e.Cancelled? ==> headerSz + |MakeFragment(Unsent(s), maxDst).payload| > room)
  {
    hide Pack, MakeFragment;
  }

  /** Each emitted frame carries exactly the next `k` unsent bytes, at the
      address where they start; what is left starts right behind them, and
      the frame is marked complete exactly when nothing is left. */
  lemma FrameCarries(s: Source, headerSz: nat, maxDst: nat, room: int, e: Emission) returns (k: nat)
    requires Shaped(s) && s.used && maxDst > 0
    requires e == MakeFrame(s, headerSz, maxDst, room) && e.Emitted?
    ensures k <= |Unsent(s)| && (Unsent(s) != [] ==> 0 < k)
    ensures e.rest == s.(start := s.start + k, used := k < |Unsent(s)|)
    ensures e.frame.addr == s.start && e.frame.isDelta == !s.isKey && e.frame.complete == (k == |Unsent(s)|)
    ensures Content(e.frame, |s.block|) == Unpacked(Unsent(s)[..k], true)
  {
    hide Pack, Unpack, Carried, MakeFragment;
    FragmentCarries(Unsent(s), maxDst, |s.block| - s.start);
    k := MakeFragment(Unsent(s), maxDst).carried;
  }

  lemma UnsentRest(s: Source, k: nat)
    requires Shaped(s) && s.used && k < |Unsent(s)|
    ensures Shaped(s.(start := s.start + k)) && Unsent(s.(start := s.start + k)) == Unsent(s)[k..]
  {
  }

  // ---- Fragmentation of one synchronization ----

  /** One attempt to make a frame: header size, payload room and air space. */
  datatype Attempt = Attempt(headerSz: nat, maxDst: nat, room: int)

  datatype Outcome = Outcome(frames: seq<DataFrame>, rest: Source)

  /** The frames accepted in a series of attempts, and what is left. Attempts
      after the last frame do nothing. */
  function EmitSeries(s: Source, tries: seq<Attempt>): (o: Outcome)
    requires Shaped(s)
    requires forall i :: 0 <= i < |tries| ==> tries[i].maxDst > 0
    decreases |tries|
  {
    if tries == [] || !s.used then Outcome([], s)
    else
      match MakeFrame(s, tries[0].headerSz, tries[0].maxDst, tries[0].room)
      case Cancelled => EmitSeries(s, tries[1..])
      case Emitted(f, rest) =>
        var o := EmitSeries(rest, tries[1..]);
        Outcome([f] + o.frames, o.rest)
  }

  /** The frames carry `data` from address `addr` on, contiguously and once
      each; only a frame that carries the last byte is marked complete, and no
      frame follows it. `left` is what the frames do not carry. */
  ghost predicate Tiles(frames: seq<DataFrame>, n: nat, addr: nat, data: seq<byte>, isDelta: bool, left: seq<byte>)
    decreases |frames|
  {
    if frames == [] then data == left
    else
      var f := frames[0];
      && f.addr == addr <= n && f.isDelta == isDelta
      && exists k: nat {:trigger data[..k]} ::
           && k <= |data| && (data != [] ==> 0 < k)
           && Content(f, n) == Unpacked(data[..k], true)
           && f.complete == (k == |data|)
           && (f.complete ==> |frames| == 1)
           && Tiles(frames[1..], n, addr + k, data[k..], isDelta, left)
  }

  /** Fragmentation: whatever attempts are made, and however many of them flow
      control cancels, the accepted frames tile the synchronized range. */
  lemma {:induction false} Fragmentation(s: Source, tries: seq<Attempt>)
    requires Shaped(s) && s.used
    requires forall i :: 0 <= i < |tries| ==> tries[i].maxDst > 0
    ensures var o := EmitSeries(s, tries);
            && Shaped(o.rest)
            && o.rest == s.(start := o.rest.start, used := o.rest.used)
            && Tiles(o.frames, |s.block|, s.start, Unsent(s), !s.isKey, if o.rest.used then Unsent(o.rest) else [])
    decreases |tries|
  {
    hide MakeFrame, Content;
    if tries != [] {
      var e := MakeFrame(s, tries[0].headerSz, tries[0].maxDst, tries[0].room);
      if e.Cancelled? {
        Fragmentation(s, tries[1..]);
      } else {
        var k := FrameCarries(s, tries[0].headerSz, tries[0].maxDst, tries[0].room, e);
        var o := EmitSeries(e.rest, tries[1..]);
        assert ([e.frame] + o.frames)[1..] == o.frames;
        var d := Unsent(s);
        assert d[..k] == d[..k];
        if e.rest.used {
          UnsentRest(s, k);
          Fragmentation(e.rest, tries[1..]);
        } else {
          assert d[k..] == [];
        }
      }
    }
  }
}
