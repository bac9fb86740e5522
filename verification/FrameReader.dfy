/** ioc_read_frame and the frame handling of ioc_connection_receive
    (code/ioc_connection_receive.c): an incremental reader which learns the size of a
    frame only after its first bytes, on a stream which delivers in any pieces. */
module FrameReader {
  import opened Bytes
  import opened Framing

  /** How many bytes the reader wants in its buffer. */
  function Wanted(serial: bool, sz: Sizing): nat {
    match sz
    case Ack => AckSize(serial)
    case Unknown(needed) => needed
    case Known(needed) => needed
    case TooBig => 0
  }

  /** The outcome of one ioc_read_frame call: the buffer, the rest of the
      stream and of its delivery schedule. */
  datatype Poll =
    | Failed
    | Waiting(buf: seq<byte>, input: seq<byte>, chunks: seq<nat>)
    | Got(buf: seq<byte>, input: seq<byte>, chunks: seq<nat>)

  /** How much a read of at most `want` bytes gives: at most the next entry of
      the schedule, nothing when the schedule has ended. */
  function Delivered(input: seq<byte>, chunks: seq<nat>, want: nat): (k: nat)
    ensures k <= want && k <= |input|
  {
    if chunks == [] then 0 else Min(chunks[0], Min(want, |input|))
  }

  function Later(chunks: seq<nat>): seq<nat> {
    if chunks == [] then [] else chunks[1..]
  }

  /** The buffer never holds more than what the reader wants. */
  predicate InFrame(serial: bool, frameSz: nat, buf: seq<byte>) {
    var sz := Size(serial, frameSz, buf);
    sz.TooBig? || |buf| <= Wanted(serial, sz)
  }

  /** ioc_read_frame. */
  function ReadFrame(serial: bool, frameSz: nat, nr: byte, buf: seq<byte>, input: seq<byte>, chunks: seq<nat>): (p: Poll)
    requires InFrame(serial, frameSz, buf)
    decreases |input|
  {
    var sz := Size(serial, frameSz, buf);
    if sz.TooBig? then Failed
    else if |buf| == Wanted(serial, sz) then Got(buf, input, chunks)
    else
      var k := Delivered(input, chunks, Wanted(serial, sz) - |buf|);
      var buf' := buf + input[..k];
      if k > 0 && buf'[0] != ACKNOWLEDGE && buf'[0] != nr then Failed
      else if |buf'| < Wanted(serial, sz) then Waiting(buf', input[k..], Later(chunks))
      else if sz.Unknown? then
        FullBufferInFrame(serial, frameSz, buf');
        ReadFrame(serial, frameSz, nr, buf', input[k..], Later(chunks))
      else Got(buf', input[k..], Later(chunks))
  }

  /** A buffer which was filled before the size was known holds no more than
      any frame has. */
  lemma FullBufferInFrame(serial: bool, frameSz: nat, buf: seq<byte>)
    requires |buf| == AckSize(serial) || |buf| == MinSize(serial)
    requires |buf| == MinSize(serial) ==> buf[0] != ACKNOWLEDGE
    ensures InFrame(serial, frameSz, buf)
  {
  }

  // ---- One frame ----

  /** A well-formed acknowledge or data frame with the expected number. */
  predicate FrameOk(serial: bool, frameSz: nat, nr: byte, f: seq<byte>) {
    if |f| > 0 && f[0] == ACKNOWLEDGE then |f| == AckSize(serial)
    else MinSize(serial) <= |f| <= frameSz && RxNeeded(serial, f) == |f| && f[0] == nr
  }

  /** What the size rule says about the beginning of a well-formed frame: never
      more bytes are wanted than the frame has. */
  lemma PrefixSizing(serial: bool, frameSz: nat, nr: byte, f: seq<byte>, n: nat)
    requires FrameOk(serial, frameSz, nr, f) && n < |f|
    ensures var sz := Size(serial, frameSz, f[..n]);
            && n < Wanted(serial, sz) <= |f|
            && (sz.Ack? || sz.Known? ==> Wanted(serial, sz) == |f|)
            && !sz.TooBig?
  {
    hide Bit;
    if n > FixedSize(serial) && f[0] != ACKNOWLEDGE {
      NeededOfPrefix(serial, f, n);
    }
  }

  lemma NeededOfPrefix(serial: bool, f: seq<byte>, n: nat)
    requires FixedSize(serial) < n <= |f|
    ensures RxNeeded(serial, f[..n]) == RxNeeded(serial, f)
  {
    hide Bit;
  }

  /** One round of the reading loop. */
  lemma ReadRound(serial: bool, frameSz: nat, nr: byte, buf: seq<byte>, input: seq<byte>, chunks: seq<nat>,
                  sz: Sizing, k: nat, buf': seq<byte>)
    requires InFrame(serial, frameSz, buf) && sz == Size(serial, frameSz, buf) && !sz.TooBig?
    requires |buf| < Wanted(serial, sz) && k == Delivered(input, chunks, Wanted(serial, sz) - |buf|)
    requires buf' == buf + input[..k] && (k > 0 ==> buf'[0] == ACKNOWLEDGE || buf'[0] == nr)
    ensures |buf'| < Wanted(serial, sz) ==>
              ReadFrame(serial, frameSz, nr, buf, input, chunks) == Waiting(buf', input[k..], Later(chunks))
    ensures |buf'| == Wanted(serial, sz) && sz.Unknown? ==>
              && InFrame(serial, frameSz, buf')
              && ReadFrame(serial, frameSz, nr, buf, input, chunks)
                 == ReadFrame(serial, frameSz, nr, buf', input[k..], Later(chunks))
    ensures |buf'| == Wanted(serial, sz) && !sz.Unknown? ==>
              ReadFrame(serial, frameSz, nr, buf, input, chunks) == Got(buf', input[k..], Later(chunks))
  {
    hide Size, Later, Delivered, InFrame;
    if |buf'| == Wanted(serial, sz) && sz.Unknown? {
      FilledInFrame(serial, frameSz, buf, buf');
    }
  }

  lemma FilledInFrame(serial: bool, frameSz: nat, buf: seq<byte>, buf': seq<byte>)
    requires Size(serial, frameSz, buf).Unknown? && buf <= buf' && |buf'| == Size(serial, frameSz, buf).needed
    ensures InFrame(serial, frameSz, buf')
  {
    hide RxNeeded;
    FullBufferInFrame(serial, frameSz, buf');
  }

  /** The stream has something to give at once. */
  predicate Eager(chunks: seq<nat>) {
    chunks != [] && chunks[0] > 0
  }

  lemma ReadTop(serial: bool, frameSz: nat, nr: byte, buf: seq<byte>, input: seq<byte>, chunks: seq<nat>)
    requires InFrame(serial, frameSz, buf)
    ensures var sz := Size(serial, frameSz, buf);
            var p := ReadFrame(serial, frameSz, nr, buf, input, chunks);
            && (sz.TooBig? ==> p.Failed?)
            && (!sz.TooBig? && |buf| == Wanted(serial, sz) ==> p == Got(buf, input, chunks))
            && (!sz.TooBig? && |buf| < Wanted(serial, sz) ==>
                  var k := Delivered(input, chunks, Wanted(serial, sz) - |buf|);
                  var buf' := buf + input[..k];
                  k > 0 && buf'[0] != ACKNOWLEDGE && buf'[0] != nr ==> p.Failed?)
  {
    hide Size;
  }

  /** A frame that is complete is got at once when looked at again. */
  lemma StillKnown(serial: bool, frameSz: nat, nr: byte, buf: seq<byte>, buf': seq<byte>, input: seq<byte>, chunks: seq<nat>)
    requires Size(serial, frameSz, buf).Known? && buf <= buf' && |buf'| == Size(serial, frameSz, buf).needed
    ensures InFrame(serial, frameSz, buf') && ReadFrame(serial, frameSz, nr, buf', input, chunks) == Got(buf', input, chunks)
  {
    hide RxNeeded, ReadFrame;
    assert buf'[..|buf|] == buf;
    NeededOfPrefix(serial, buf', |buf|);
    ReadTop(serial, frameSz, nr, buf', input, chunks);
  }

  /** Anything but an acknowledge or a frame with the expected number is an error as soon
      as its first byte comes. */
  lemma WrongNumberFails(serial: bool, frameSz: nat, nr: byte, input: seq<byte>, chunks: seq<nat>)
    requires input != [] && Eager(chunks) && input[0] != ACKNOWLEDGE && input[0] != nr
    ensures InFrame(serial, frameSz, []) && ReadFrame(serial, frameSz, nr, [], input, chunks) == Failed
  {
  }

  /** A frame that says it is longer than the frame buffer is an error as soon as its
      size can be computed. */
  lemma TooBigFails(serial: bool, frameSz: nat, nr: byte, buf: seq<byte>, input: seq<byte>, chunks: seq<nat>)
    requires |buf| > (if serial then 5 else 4) && buf[0] != ACKNOWLEDGE && RxNeeded(serial, buf) > frameSz
    ensures InFrame(serial, frameSz, buf) && ReadFrame(serial, frameSz, nr, buf, input, chunks) == Failed
  {
    hide RxNeeded;
  }

  /** The reader never wants more than the frame buffer holds. */
  lemma WantedFits(serial: bool, frameSz: nat, buf: seq<byte>)
    requires MinSize(serial) <= frameSz && !Size(serial, frameSz, buf).TooBig?
    ensures Wanted(serial, Size(serial, frameSz, buf)) <= frameSz
  {
    hide RxNeeded;
  }

  /** What a call leaves of a well-formed frame: all of it taken and nothing
      more, or a shorter beginning in the buffer, which has grown if the stream
      had something to give. */
  ghost predicate Reads(serial: bool, frameSz: nat, f: seq<byte>, n: nat, after: seq<byte>, eager: bool, p: Poll) {
    match p
    case Failed => false
    case Got(buf, input, _) => buf == f && input == after
    case Waiting(buf, input, _) =>
      && n <= |buf| < |f| && buf == f[..|buf|] && input == f[|buf|..] + after && InFrame(serial, frameSz, buf)
      && (eager ==> n < |buf|)
  }

  /** The reader on a well-formed frame, for any delivery: it ends with the
      whole frame and nothing more, or waits inside it. It never fails. */
  lemma {:induction false} ReadsOneFrame(serial: bool, frameSz: nat, nr: byte, f: seq<byte>, n: nat,
                                         input: seq<byte>, after: seq<byte>, chunks: seq<nat>)
    requires FrameOk(serial, frameSz, nr, f) && n < |f| && input == f[n..] + after
    requires InFrame(serial, frameSz, f[..n])
    ensures Reads(serial, frameSz, f, n, after, Eager(chunks), ReadFrame(serial, frameSz, nr, f[..n], input, chunks))
    decreases |f| - n
  {
    hide ReadFrame, Size, RxNeeded, Later, InFrame, AckSize, MinSize;
    var buf := f[..n];
    var sz := Size(serial, frameSz, buf);
    PrefixSizing(serial, frameSz, nr, f, n);
    var k := Delivered(input, chunks, Wanted(serial, sz) - n);
    Advance(f, n, k, input, after);
    var buf' := f[..n + k];
    ReadRound(serial, frameSz, nr, buf, input, chunks, sz, k, buf');
    if n + k < Wanted(serial, sz) {
      WaitsInFrame(serial, frameSz, nr, f, n + k);
    } else if n + k == |f| {
      assert buf' == f && f[n + k..] + after == after;
      WholeFrame(serial, frameSz, nr, f, input[k..], Later(chunks));
    } else {
      ReadsOneFrame(serial, frameSz, nr, f, n + k, input[k..], after, Later(chunks));
    }
  }

  lemma WaitsInFrame(serial: bool, frameSz: nat, nr: byte, f: seq<byte>, n: nat)
    requires FrameOk(serial, frameSz, nr, f) && n < |f|
    ensures InFrame(serial, frameSz, f[..n])
  {
    hide Size;
    PrefixSizing(serial, frameSz, nr, f, n);
  }

  lemma Advance(f: seq<byte>, n: nat, k: nat, input: seq<byte>, after: seq<byte>)
    requires n + k <= |f| && k <= |input| && input == f[n..] + after
    ensures f[..n] + input[..k] == f[..n + k]
    ensures input[k..] == f[n + k..] + after
  {
  }

  lemma WholeFrame(serial: bool, frameSz: nat, nr: byte, f: seq<byte>, input: seq<byte>, chunks: seq<nat>)
    requires FrameOk(serial, frameSz, nr, f)
    ensures InFrame(serial, frameSz, f) && ReadFrame(serial, frameSz, nr, f, input, chunks) == Got(f, input, chunks)
  {
  }

  // ---- A stream of frames ----

  /** Sender and receiver step frame numbers alike: 0, 1..200, 1.. */
  function NextNr(nr: byte): byte {
    if nr as int >= MAX_FRAME_NR then 1 else nr + 1
  }

  function NrAfter(nr: byte, f: seq<byte>): byte
    requires f != []
  {
    if f[0] == ACKNOWLEDGE then nr else NextNr(f[0])
  }

  datatype Session = Session(ok: bool, got: seq<seq<byte>>, nr: byte, buf: seq<byte>, input: seq<byte>)

  /** Repeated calls, each with its own delivery schedule. */
  function PollAll(serial: bool, frameSz: nat, nr: byte, buf: seq<byte>, input: seq<byte>, polls: seq<seq<nat>>): Session
    requires InFrame(serial, frameSz, buf)
    decreases |polls|
  {
    if polls == [] then Session(true, [], nr, buf, input)
    else
      var p := ReadFrame(serial, frameSz, nr, buf, input, polls[0]);
      ReadKeepsInFrame(serial, frameSz, nr, buf, input, polls[0]);
      match p
      case Failed => Session(false, [], nr, buf, input)
      case Waiting(b, rest, _) => PollAll(serial, frameSz, nr, b, rest, polls[1..])
      case Got(f, rest, _) =>
        var s := PollAll(serial, frameSz, NrAfter(nr, f), [], rest, polls[1..]);
        s.(got := [f] + s.got)
  }

  /** On any stream, the buffer of an unfinished frame stays within it. */
  lemma {:induction false} ReadKeepsInFrame(serial: bool, frameSz: nat, nr: byte, buf: seq<byte>, input: seq<byte>, chunks: seq<nat>)
    requires InFrame(serial, frameSz, buf)
    ensures var p := ReadFrame(serial, frameSz, nr, buf, input, chunks);
            && (p.Waiting? ==> InFrame(serial, frameSz, p.buf))
            && (p.Got? ==> p.buf != [])
            && InFrame(serial, frameSz, [])
    decreases |input|
  {
    var sz := Size(serial, frameSz, buf);
    if !sz.TooBig? && |buf| < Wanted(serial, sz) {
      var k := Delivered(input, chunks, Wanted(serial, sz) - |buf|);
      var buf' := buf + input[..k];
      if k > 0 && buf'[0] != ACKNOWLEDGE && buf'[0] != nr {
      } else {
        ReadRound(serial, frameSz, nr, buf, input, chunks, sz, k, buf');
        if |buf'| < Wanted(serial, sz) {
          ShorterInFrame(serial, frameSz, buf, buf');
        } else if sz.Unknown? {
          ReadKeepsInFrame(serial, frameSz, nr, buf', input[k..], Later(chunks));
        }
      }
    }
  }

  lemma ShorterInFrame(serial: bool, frameSz: nat, buf: seq<byte>, buf': seq<byte>)
    requires buf <= buf' && !Size(serial, frameSz, buf).TooBig? && |buf'| < Wanted(serial, Size(serial, frameSz, buf))
    ensures InFrame(serial, frameSz, buf')
  {
    hide Bit;
    if |buf| > FixedSize(serial) && buf[0] != ACKNOWLEDGE {
      assert buf'[..|buf|] == buf;
      NeededOfPrefix(serial, buf', |buf|);
    }
  }

  function Concat(frames: seq<seq<byte>>): seq<byte> {
    if frames == [] then [] else frames[0] + Concat(frames[1..])
  }

  /** Well-formed frames with numbers in sequence. */
  ghost predicate InSequence(serial: bool, frameSz: nat, nr: byte, frames: seq<seq<byte>>)
    decreases |frames|
  {
    frames != [] ==>
      && FrameOk(serial, frameSz, nr, frames[0]) && frames[0] != []
      && InSequence(serial, frameSz, NrAfter(nr, frames[0]), frames[1..])
  }

  /** The reader has taken the first `|got|` frames, and a part of the next one
      that is shorter than that frame. */
  ghost predicate TookPrefix(frames: seq<seq<byte>>, s: Session) {
    && s.ok && |s.got| <= |frames| && s.got == frames[..|s.got|]
    && s.buf + s.input == Concat(frames[|s.got|..])
    && (if |s.got| == |frames| then s.buf == []
        else |s.buf| < |frames[|s.got|]| && s.buf == frames[|s.got|][..|s.buf|])
  }

  /** Incremental reader: for any sequence of well-formed frames and
      acknowledges with numbers in sequence, and any way the stream splits the
      reads, repeated calls yield that sequence from its beginning, never fail
      and never take a byte beyond the current frame. */
  lemma {:induction false} ReaderYieldsFrames(serial: bool, frameSz: nat, nr: byte, frames: seq<seq<byte>>,
                                              n: nat, input: seq<byte>, polls: seq<seq<nat>>)
    requires InSequence(serial, frameSz, nr, frames)
    requires if frames == [] then n == 0 && input == []
             else n < |frames[0]| && input == frames[0][n..] + Concat(frames[1..])
    requires frames != [] ==> InFrame(serial, frameSz, frames[0][..n])
    ensures var buf := if frames == [] then [] else frames[0][..n];
            InFrame(serial, frameSz, buf) && TookPrefix(frames, PollAll(serial, frameSz, nr, buf, input, polls))
    decreases |polls|
  {
    hide ReadFrame, FrameOk, InFrame;
    EmptyInFrame(serial, frameSz);
    var buf := if frames == [] then [] else frames[0][..n];
    if frames == [] {
      NothingComes(serial, frameSz, nr, polls);
    } else if polls == [] {
      SessionStart(frames, nr, n, input);
    } else {
      var f, after := frames[0], Concat(frames[1..]);
      ReadsOneFrame(serial, frameSz, nr, f, n, input, after, polls[0]);
      match ReadFrame(serial, frameSz, nr, buf, input, polls[0])
      case Waiting(b, rest, _) =>
        ReaderYieldsFrames(serial, frameSz, nr, frames, |b|, rest, polls[1..]);
      case Got(_, rest, _) =>
        NextFrame(serial, frameSz, NrAfter(nr, f), frames[1..]);
        ReaderYieldsFrames(serial, frameSz, NrAfter(nr, f), frames[1..], 0, rest, polls[1..]);
        OneMore(frames, PollAll(serial, frameSz, NrAfter(nr, f), [], rest, polls[1..]));
    }
  }

  /** How many of the calls find something on the stream. */
  function Deliveries(polls: seq<seq<nat>>): (k: nat)
    ensures k <= |polls|
    decreases |polls|
  {
    if polls == [] then 0 else (if Eager(polls[0]) then 1 else 0) + Deliveries(polls[1..])
  }

  /** With as many fruitful calls as there are bytes, the reader yields exactly the
      whole sequence and has used up the stream. */
  lemma {:induction false} ReaderYieldsAll(serial: bool, frameSz: nat, nr: byte, frames: seq<seq<byte>>,
                                           n: nat, input: seq<byte>, polls: seq<seq<nat>>)
    requires InSequence(serial, frameSz, nr, frames)
    requires if frames == [] then n == 0 && input == []
             else n < |frames[0]| && input == frames[0][n..] + Concat(frames[1..])
    requires frames != [] ==> InFrame(serial, frameSz, frames[0][..n])
    requires Deliveries(polls) >= |input|
    ensures var buf := if frames == [] then [] else frames[0][..n];
            && InFrame(serial, frameSz, buf)
            && var s := PollAll(serial, frameSz, nr, buf, input, polls);
               s.ok && s.got == frames && s.buf == [] && s.input == []
    decreases |polls|
  {
    hide ReadFrame, FrameOk, InFrame, Eager;
    EmptyInFrame(serial, frameSz);
    var buf := if frames == [] then [] else frames[0][..n];
    if frames == [] {
      NothingComes(serial, frameSz, nr, polls);
    } else {
      var f, after := frames[0], Concat(frames[1..]);
      ReadsOneFrame(serial, frameSz, nr, f, n, input, after, polls[0]);
      match ReadFrame(serial, frameSz, nr, buf, input, polls[0])
      case Waiting(b, rest, _) =>
        ReaderYieldsAll(serial, frameSz, nr, frames, |b|, rest, polls[1..]);
      case Got(_, rest, _) =>
        NextFrame(serial, frameSz, NrAfter(nr, f), frames[1..]);
        ReaderYieldsAll(serial, frameSz, NrAfter(nr, f), frames[1..], 0, rest, polls[1..]);
    }
  }

  lemma EmptyInFrame(serial: bool, frameSz: nat)
    ensures InFrame(serial, frameSz, [])
  {
  }

  lemma SessionStart(frames: seq<seq<byte>>, nr: byte, n: nat, input: seq<byte>)
    requires frames != [] && n < |frames[0]| && input == frames[0][n..] + Concat(frames[1..])
    ensures TookPrefix(frames, Session(true, [], nr, frames[0][..n], input))
  {
    assert frames[0..] == frames;
    assert frames[0][..n] + (frames[0][n..] + Concat(frames[1..])) == frames[0] + Concat(frames[1..]);
  }

  lemma NextFrame(serial: bool, frameSz: nat, nr: byte, frames: seq<seq<byte>>)
    requires InSequence(serial, frameSz, nr, frames)
    ensures frames != [] ==>
              && frames[0][..0] == []
              && Concat(frames) == frames[0][0..] + Concat(frames[1..])
              && frames[0] != []
    ensures frames == [] ==> Concat(frames) == []
  {
    hide FrameOk;
    if frames != [] {
      assert frames[0][0..] == frames[0];
    }
  }

  lemma OneMore(frames: seq<seq<byte>>, s: Session)
    requires frames != [] && TookPrefix(frames[1..], s)
    ensures TookPrefix(frames, s.(got := [frames[0]] + s.got))
  {
    var got := [frames[0]] + s.got;
    assert got == frames[..|got|];
    assert frames[1..][|s.got|..] == frames[|got|..];
  }

  lemma {:induction false} NothingComes(serial: bool, frameSz: nat, nr: byte, polls: seq<seq<nat>>)
    requires InFrame(serial, frameSz, [])
    ensures PollAll(serial, frameSz, nr, [], [], polls) == Session(true, [], nr, [], [])
    decreases |polls|
  {
    hide RxNeeded;
    if polls != [] {
      assert ReadFrame(serial, frameSz, nr, [], [], polls[0]) == Waiting([], [], Later(polls[0]));
      hide ReadFrame;
      NothingComes(serial, frameSz, nr, polls[1..]);
    }
  }

  // ---- Frames as the sender makes them ----

  /** os_checksum is foreign code; any function may stand for it. */
  type Checksum = seq<byte> -> nat

  function Crc(sum: Checksum, s: seq<byte>): nat {
    sum(s) % 0x1_0000
  }

  datatype Message = DataMessage(header: Header, data: seq<byte>) | AckMessage(count: nat)

  predicate Sendable(serial: bool, frameSz: nat, m: Message) {
    m.DataMessage? ==>
      && ValidHeader(m.header) && HeaderSize(serial, m.header) + |m.data| <= frameSz
      && |m.data| < (if serial then 0x100 else 0x1_0000)
  }

  /** An acknowledge: the byte count, low byte first, two or three bytes. */
  function AckBytes(serial: bool, count: nat): (s: seq<byte>)
    ensures |s| == AckSize(serial) && s[0] == ACKNOWLEDGE
  {
    [ACKNOWLEDGE, (count % 0x100) as byte, (count / 0x100 % 0x100) as byte]
    + if serial then [] else [(count / 0x1_0000 % 0x100) as byte]
  }

  /** processed_bytes as taken from a received acknowledge. */
  function AckCount(serial: bool, s: seq<byte>): nat
    requires |s| == AckSize(serial)
  {
    s[1] as int + 0x100 * s[2] as int + if serial then 0 else 0x1_0000 * s[3] as int
  }

  /** An acknowledge carries the count modulo 2^16 (serial) or 2^24 (socket). */
  lemma AckRoundTrip(serial: bool, count: nat)
    ensures AckCount(serial, AckBytes(serial, count)) == count % (if serial then 0x1_0000 else 0x100_0000)
  {
    LowDigit(count, 0x100);
    LowDigit(count, 0x1_0000);
    LowDigit(count / 0x100, 0x100);
    assert count / 0x100 / 0x100 == count / 0x1_0000;
  }

  /** The sender puts its frame number in the header and, on a serial line, the
      checksum of the frame with zeros in the checksum's place. */
  function Encode(serial: bool, frameSz: nat, sum: Checksum, nr: byte, m: Message): (s: seq<byte>)
    requires Sendable(serial, frameSz, m)
    ensures s != []
  {
    match m
    case AckMessage(count) => AckBytes(serial, count)
    case DataMessage(h, data) =>
      var h' := h.(nr := nr);
      FrameBytes(serial, h', data, if serial then Crc(sum, FrameBytes(serial, h', data, 0)) else 0)
  }

  /** The receiver's check: clear the checksum and compute it again. */
  predicate ChecksumOk(sum: Checksum, s: seq<byte>)
    requires |s| > 2
  {
    Crc(sum, s[1 := 0][2 := 0]) == s[1] as int + 0x100 * s[2] as int
  }

  /** The receiver accepts the checksum of a frame if and only if it is that of the frame
      with zeros in the checksum's place. */
  lemma ChecksumIff(sum: Checksum, h: Header, data: seq<byte>, crc: nat)
    requires ValidHeader(h) && crc < 0x1_0000 && |data| < 0x100
    ensures ChecksumOk(sum, FrameBytes(true, h, data, crc)) <==> crc == sum(FrameBytes(true, h, data, 0)) % 65536
  {
    ClearedChecksum(h, data, crc);
    hide FrameBytes;
  }

  /** An acknowledge on the wire: 255 and the count, low byte first, in 16 or 24 bits. */
  lemma AckLayout(serial: bool, count: nat)
    ensures var s := AckBytes(serial, count);
      && |s| == (if serial then 3 else 4) && s[0] == 255
      && s[1] as int == count % 256 && s[2] as int == count / 256 % 256
      && (!serial ==> s[3] as int == count / 65536 % 256)
  {
  }

  /** Number of the frame after `k` frames of a connection. */
  function NumberAfter(k: nat): (nr: byte)
    ensures nr as int <= MAX_FRAME_NR
  {
    if k == 0 then 0 else NextNr(NumberAfter(k - 1))
  }

  /** Frame numbers are 0 and then 1 to 200 over and over. */
  lemma {:induction false} NumbersCycle(k: nat)
    ensures NumberAfter(k) as int == if k == 0 then 0 else (k - 1) % 200 + 1
  {
    if k > 0 {
      NumbersCycle(k - 1);
    }
  }

  function SenderNrAfter(nr: byte, m: Message): byte {
    if m.DataMessage? then NextNr(nr) else nr
  }

  function EncodeAll(serial: bool, frameSz: nat, sum: Checksum, nr: byte, ms: seq<Message>): (frames: seq<seq<byte>>)
    requires forall i :: 0 <= i < |ms| ==> Sendable(serial, frameSz, ms[i])
    ensures |frames| == |ms|
    decreases |ms|
  {
    if ms == [] then []
    else [Encode(serial, frameSz, sum, nr, ms[0])]
         + EncodeAll(serial, frameSz, sum, SenderNrAfter(nr, ms[0]), ms[1..])
  }

  /** A data frame is accepted and decoded to what was sent. */
  lemma EncodedDataDecodes(serial: bool, frameSz: nat, sum: Checksum, nr: byte, h: Header, data: seq<byte>)
    requires Sendable(serial, frameSz, DataMessage(h, data)) && nr as int <= MAX_FRAME_NR
    ensures var s := Encode(serial, frameSz, sum, nr, DataMessage(h, data));
            && FrameOk(serial, frameSz, nr, s)
            && |s| > FixedSize(serial) && |s| == RxNeeded(serial, s)
            && (serial ==> ChecksumOk(sum, s))
            && Decode(serial, s) == Decoded(h.(nr := nr), data)
  {
    var h' := h.(nr := nr);
    var crc := if serial then Crc(sum, FrameBytes(serial, h', data, 0)) else 0;
    FrameRoundTrip(serial, h', data, crc);
    FixedFields(serial, h', data, crc);
    if serial {
      ClearedChecksum(h', data, crc);
    }
    hide FrameBytes, RxNeeded, Decode, RxFlags, RxDataSize;
  }

  lemma ClearedChecksum(h: Header, data: seq<byte>, crc: nat)
    requires ValidHeader(h) && crc < 0x1_0000 && |data| < 0x100
    ensures var s := FrameBytes(true, h, data, crc);
            && s[1 := 0][2 := 0] == FrameBytes(true, h, data, 0)
            && s[1] as int + 0x100 * s[2] as int == crc
  {
    hide AddressBytes, FlagsByte;
  }

  /** Sender and receiver stay in step: whatever is sent is, for the receiver,
      a sequence of well-formed frames numbered as it expects. */
  lemma {:induction false} EncodedInSequence(serial: bool, frameSz: nat, sum: Checksum, nr: byte, ms: seq<Message>)
    requires forall i :: 0 <= i < |ms| ==> Sendable(serial, frameSz, ms[i])
    requires nr as int <= MAX_FRAME_NR
    ensures InSequence(serial, frameSz, nr, EncodeAll(serial, frameSz, sum, nr, ms))
    decreases |ms|
  {
    hide Encode, FrameOk, ChecksumOk, Decode;
    if ms != [] {
      var frames := EncodeAll(serial, frameSz, sum, nr, ms);
      EncodedOk(serial, frameSz, sum, nr, ms[0]);
      EncodedInSequence(serial, frameSz, sum, SenderNrAfter(nr, ms[0]), ms[1..]);
      assert frames[1..] == EncodeAll(serial, frameSz, sum, SenderNrAfter(nr, ms[0]), ms[1..]);
    }
  }

  lemma EncodedOk(serial: bool, frameSz: nat, sum: Checksum, nr: byte, m: Message)
    requires Sendable(serial, frameSz, m) && nr as int <= MAX_FRAME_NR
    ensures var s := Encode(serial, frameSz, sum, nr, m);
            FrameOk(serial, frameSz, nr, s) && NrAfter(nr, s) == SenderNrAfter(nr, m)
  {
    if m.DataMessage? {
      EncodedDataDecodes(serial, frameSz, sum, nr, m.header, m.data);
      var h' := m.header.(nr := nr);
      FixedFields(serial, h', m.data, if serial then Crc(sum, FrameBytes(serial, h', m.data, 0)) else 0);
      hide FrameBytes, RxNeeded, Decode, RxFlags, RxDataSize, ChecksumOk;
    } else {
      hide FrameBytes, RxNeeded;
    }
  }

  /** The whole path: messages printed by the sender, put on a stream which
      delivers them in any pieces, are read back frame by frame, and all of them
      when enough calls find something on the stream. */
  lemma MessagesArrive(serial: bool, frameSz: nat, sum: Checksum, nr: byte, ms: seq<Message>, polls: seq<seq<nat>>)
    requires forall i :: 0 <= i < |ms| ==> Sendable(serial, frameSz, ms[i])
    requires nr as int <= MAX_FRAME_NR
    ensures InFrame(serial, frameSz, [])
    ensures var frames := EncodeAll(serial, frameSz, sum, nr, ms);
            var s := PollAll(serial, frameSz, nr, [], Concat(frames), polls);
            && TookPrefix(frames, s)
            && (Deliveries(polls) >= |Concat(frames)| ==> s.got == frames && s.input == [])
  {
    hide PollAll, InFrame, FrameOk, TookPrefix;
    var frames := EncodeAll(serial, frameSz, sum, nr, ms);
    EmptyInFrame(serial, frameSz);
    EncodedInSequence(serial, frameSz, sum, nr, ms);
    NextFrame(serial, frameSz, nr, frames);
    ReaderYieldsFrames(serial, frameSz, nr, frames, 0, Concat(frames), polls);
    if Deliveries(polls) >= |Concat(frames)| {
      ReaderYieldsAll(serial, frameSz, nr, frames, 0, Concat(frames), polls);
    }
  }
}
