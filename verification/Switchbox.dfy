/** Multiplexing of client connections over one shared stream
    (ioc_switchbox_run_shared_socket in code/ioc_switchbox_socket.c): one end prefixes
    pieces of the clients' bytes with a header, the other end sorts them out again. */
module Switchbox {
  import opened Bytes
  import opened Ring
  import opened SwitchboxRing
  import Framing

  const HEADER: nat := 6

  /** Client identifiers have 16 bits. */
  const CLIENTS: nat := 0x1_0000

  /** Lengths from here on are negative 32-bit numbers: control codes. */
  const CONTROL: nat := 0x8000_0000
  const LENGTHS: nat := 0x1_0000_0000

  /** ioc_switchbox_store_msg_header_to_ringbuf: low bytes first. */
  function HeaderBytes(client: nat, len: nat): (h: seq<byte>)
    requires client < CLIENTS && len < LENGTHS
    ensures |h| == HEADER
  {
    [(client % 0x100) as byte, (client / 0x100) as byte,
     (len % 0x100) as byte, (len / 0x100 % 0x100) as byte,
     (len / 0x1_0000 % 0x100) as byte, (len / 0x100_0000) as byte]
  }

  /** ioc_switchbox_get_msg_header_from_ringbuf. */
  function ClientOf(h: seq<byte>): (c: nat)
    requires |h| >= HEADER
    ensures c < CLIENTS
  {
    h[0] as int + 0x100 * h[1] as int
  }

  function LengthOf(h: seq<byte>): (n: nat)
    requires |h| >= HEADER
    ensures n < LENGTHS
  {
    h[2] as int + 0x100 * h[3] as int + 0x1_0000 * h[4] as int + 0x100_0000 * h[5] as int
  }

  lemma HeaderRoundTrip(client: nat, len: nat, rest: seq<byte>)
    requires client < CLIENTS && len < LENGTHS
    ensures var s := HeaderBytes(client, len) + rest;
      ClientOf(s) == client && LengthOf(s) == len && s[HEADER..] == rest
  {
    Framing.FourDigits(len);
  }

  /** The header on the stream: client and length, low byte first. Lengths up to
      2^31 - 1 announce data, zero and the negative control codes do not. */
  lemma HeaderLayout(client: nat, len: nat)
    requires client < CLIENTS && len < LENGTHS
    ensures var h := HeaderBytes(client, len);
      && |h| == 6 && Framing.Stands(h, 0, client, 2) && Framing.Stands(h, 2, len, 4)
      && (IsData(len) <==> 1 <= len <= 0x7FFF_FFFF)
  {
    Framing.FourDigits(len);
  }

  predicate IsData(len: nat) {
    0 < len < CONTROL
  }

  // ---- What a stream of messages means ----

  /** The bytes of client `c` in `s`, when `left` bytes for client `cur` come first. */
  function Of(c: nat, cur: nat, left: nat, s: seq<byte>): seq<byte>
    decreases |s|
  {
    if s == [] then []
    else if left > 0 then (if c == cur then [s[0]] else []) + Of(c, cur, left - 1, s[1..])
    else if |s| < HEADER then []
    else if IsData(LengthOf(s)) then Of(c, ClientOf(s), LengthOf(s), s[HEADER..])
    else Of(c, cur, 0, s[HEADER..])
  }

  /** `s` ends where a message ends. */
  predicate Whole(left: nat, s: seq<byte>)
    decreases |s|
  {
    if s == [] then left == 0
    else if left > 0 then Whole(left - 1, s[1..])
    else |s| >= HEADER && Whole(if IsData(LengthOf(s)) then LengthOf(s) else 0, s[HEADER..])
  }

  /** Between messages the last client does not matter. */
  lemma {:induction false} IdleClient(c: nat, cur: nat, cur': nat, s: seq<byte>)
    ensures Of(c, cur, 0, s) == Of(c, cur', 0, s)
    decreases |s|
  {
    if |s| >= HEADER {
      IdleClient(c, cur, cur', s[HEADER..]);
    }
  }

  lemma HeaderOfPrefix(s: seq<byte>, t: seq<byte>)
    requires |s| >= HEADER
    ensures LengthOf(s + t) == LengthOf(s) && ClientOf(s + t) == ClientOf(s)
  {
  }

  /** What follows whole messages is read from its start. */
  lemma AfterWhole(c: nat, cur: nat, left: nat, s: seq<byte>, t: seq<byte>)
    requires Whole(left, s)
    ensures Of(c, cur, left, s + t) == Of(c, cur, left, s) + Of(c, 0, 0, t)
    ensures Whole(left, s + t) == Whole(0, t)
  {
    hide Of, Whole;
    BytesAfterWhole(c, cur, left, s, t);
    WholeAfterWhole(left, s, t);
  }

  lemma {:induction false} WholeAfterWhole(left: nat, s: seq<byte>, t: seq<byte>)
    requires Whole(left, s)
    ensures Whole(left, s + t) == Whole(0, t)
    decreases |s|
  {
    hide LengthOf, ClientOf, IsData;
    if s == [] {
      assert s + t == t;
    } else if left > 0 {
      assert (s + t)[1..] == s[1..] + t;
      WholeAfterWhole(left - 1, s[1..], t);
    } else {
      assert (s + t)[HEADER..] == s[HEADER..] + t;
      HeaderOfPrefix(s, t);
      WholeAfterWhole(if IsData(LengthOf(s)) then LengthOf(s) else 0, s[HEADER..], t);
    }
  }

  lemma {:induction false} BytesAfterWhole(c: nat, cur: nat, left: nat, s: seq<byte>, t: seq<byte>)
    requires Whole(left, s)
    ensures Of(c, cur, left, s + t) == Of(c, cur, left, s) + Of(c, 0, 0, t)
    decreases |s|
  {
    hide LengthOf, ClientOf, IsData, Of;
    if s == [] {
      assert s + t == t;
      IdleClient(c, cur, 0, t);
      NoBytes(c, cur, left);
    } else if left > 0 {
      assert (s + t)[1..] == s[1..] + t;
      BytesAfterWhole(c, cur, left - 1, s[1..], t);
      OneByte(c, cur, left, s);
      OneByte(c, cur, left, s + t);
    } else {
      assert (s + t)[HEADER..] == s[HEADER..] + t;
      HeaderOfPrefix(s, t);
      OneHeader(c, cur, s);
      OneHeader(c, cur, s + t);
      var len := LengthOf(s);
      BytesAfterWhole(c, if IsData(len) then ClientOf(s) else cur, if IsData(len) then len else 0, s[HEADER..], t);
    }
  }

  lemma NoBytes(c: nat, cur: nat, left: nat)
    ensures Of(c, cur, left, []) == []
  {
  }

  lemma OneByte(c: nat, cur: nat, left: nat, s: seq<byte>)
    requires left > 0 && s != []
    ensures Of(c, cur, left, s) == (if c == cur then [s[0]] else []) + Of(c, cur, left - 1, s[1..])
  {
  }

  lemma OneHeader(c: nat, cur: nat, s: seq<byte>)
    requires |s| >= HEADER
    ensures Of(c, cur, 0, s) ==
      if IsData(LengthOf(s)) then Of(c, ClientOf(s), LengthOf(s), s[HEADER..]) else Of(c, cur, 0, s[HEADER..])
  {
    hide LengthOf, ClientOf, IsData;
  }

  /** The first bytes of an announced payload belong to its client. */
  lemma FirstBytes(c: nat, cur: nat, left: nat, s: seq<byte>, k: nat)
    requires k <= left && k <= |s|
    ensures Of(c, cur, left, s) == (if c == cur then s[..k] else []) + Of(c, cur, left - k, s[k..])
    ensures Whole(left, s) == Whole(left - k, s[k..])
  {
    hide Of, Whole;
    FirstBytesOf(c, cur, left, s, k);
    FirstBytesWhole(left, s, k);
  }

  lemma {:induction false} FirstBytesOf(c: nat, cur: nat, left: nat, s: seq<byte>, k: nat)
    requires k <= left && k <= |s|
    ensures Of(c, cur, left, s) == (if c == cur then s[..k] else []) + Of(c, cur, left - k, s[k..])
    decreases k
  {
    hide Of;
    if k == 0 {
      assert s[0..] == s;
    } else {
      OneByte(c, cur, left, s);
      FirstBytesOf(c, cur, left - 1, s[1..], k - 1);
      assert s[1..][k - 1..] == s[k..];
      assert [s[0]] + s[1..][..k - 1] == s[..k];
    }
  }

  lemma {:induction false} FirstBytesWhole(left: nat, s: seq<byte>, k: nat)
    requires k <= left && k <= |s|
    ensures Whole(left, s) == Whole(left - k, s[k..])
    decreases k
  {
    hide LengthOf, IsData;
    if k == 0 {
      assert s[0..] == s;
    } else {
      FirstBytesWhole(left - 1, s[1..], k - 1);
      assert s[1..][k - 1..] == s[k..];
    }
  }

  /** A message carries its payload to its client and to nobody else. */
  lemma MessageMeans(c: nat, client: nat, data: seq<byte>)
    requires client < CLIENTS && IsData(|data|)
    ensures Of(c, 0, 0, HeaderBytes(client, |data|) + data) == if c == client then data else []
    ensures Whole(0, HeaderBytes(client, |data|) + data)
  {
    HeaderRoundTrip(client, |data|, data);
    FirstBytes(c, client, |data|, data, |data|);
    assert data[|data|..] == [] && data[..|data|] == data;
  }

  lemma ControlMeans(c: nat, client: nat, code: nat)
    requires client < CLIENTS && code < LENGTHS && !IsData(code)
    ensures Of(c, 0, 0, HeaderBytes(client, code)) == []
    ensures Whole(0, HeaderBytes(client, code))
  {
    HeaderRoundTrip(client, code, []);
    assert HeaderBytes(client, code) + [] == HeaderBytes(client, code);
    assert HeaderBytes(client, code)[HEADER..] == [];
  }

  // ---- The two ends and the stream between them ----

  /** `pending` holds what clients have written and the sending end has not yet
      multiplexed; `outgoing`, `wire` and `incoming` are the shared bytes on their way;
      `left` bytes for client `cur` are still expected. `accepted` and `delivered`
      record all bytes of each client that went in and came out. */
  datatype State = State(
    pending: map<nat, seq<byte>>,
    outgoing: seq<byte>, wire: seq<byte>, incoming: seq<byte>,
    cur: nat, left: nat,
    accepted: map<nat, seq<byte>>, delivered: map<nat, seq<byte>>)

  function At(m: map<nat, seq<byte>>, c: nat): seq<byte> {
    if c in m then m[c] else []
  }

  function Append(m: map<nat, seq<byte>>, c: nat, data: seq<byte>): map<nat, seq<byte>> {
    m[c := At(m, c) + data]
  }

  function Start(): State {
    State(map[], [], [], [], 0, 0, map[], map[])
  }

  /** `room` is the free space of the ring buffer written to. */
  datatype Action =
    | Put(c: nat, data: seq<byte>)
    | Mux(c: nat, room: nat)
    | Control(c: nat, code: nat)
    | Transmit(k: nat)
    | Arrive(k: nat)
    | TakeHeader
    | Demux(room: nat)

  predicate Enabled(s: State, a: Action) {
    match a
    case Put(c, data) => c < CLIENTS
    case Mux(c, room) => c < CLIENTS && At(s.pending, c) != [] && HEADER + 1 <= room < CONTROL
    case Control(c, code) => c < CLIENTS && code < LENGTHS && !IsData(code)
    case Transmit(k) => k <= |s.outgoing|
    case Arrive(k) => k <= |s.wire|
    case TakeHeader => s.left == 0 && |s.incoming| >= HEADER
    case Demux(room) => s.left > 0
  }

  function MuxBytes(pending: seq<byte>, room: nat): (n: nat)
    requires HEADER + 1 <= room < CONTROL
    ensures n <= |pending| && n + HEADER <= room && (pending != [] ==> IsData(n))
    ensures n == |pending| || n + HEADER == room
  {
    if |pending| > room - HEADER then room - HEADER else |pending|
  }

  /** The message made of a client's pending bytes, and what stays pending. */
  function Message(client: nat, pending: seq<byte>, room: nat): (m: seq<byte>)
    requires client < CLIENTS && HEADER + 1 <= room < CONTROL
    ensures |m| == HEADER + MuxBytes(pending, room)
  {
    var n := MuxBytes(pending, room);
    HeaderBytes(client, n) + pending[..n]
  }

  function Rest(pending: seq<byte>, room: nat): seq<byte>
    requires HEADER + 1 <= room < CONTROL
  {
    pending[MuxBytes(pending, room)..]
  }

  /** How many announced bytes are handed over. */
  function DemuxBytes(incoming: seq<byte>, left: nat, room: nat): (k: nat)
    ensures k <= |incoming| && k <= left && k <= room
    ensures k == |incoming| || k == left || k == room
  {
    Min(Min(|incoming|, left), room)
  }

  function Next(s: State, a: Action): State
    requires Enabled(s, a)
  {
    match a
    case Put(c, data) => s.(pending := Append(s.pending, c, data), accepted := Append(s.accepted, c, data))
    case Mux(c, room) =>
      var p := At(s.pending, c);
      s.(pending := s.pending[c := Rest(p, room)], outgoing := s.outgoing + Message(c, p, room))
    case Control(c, code) => s.(outgoing := s.outgoing + HeaderBytes(c, code))
    case Transmit(k) => s.(outgoing := s.outgoing[k..], wire := s.wire + s.outgoing[..k])
    case Arrive(k) => s.(wire := s.wire[k..], incoming := s.incoming + s.wire[..k])
    case TakeHeader =>
      var len := LengthOf(s.incoming);
      if IsData(len) then s.(incoming := s.incoming[HEADER..], cur := ClientOf(s.incoming), left := len)
      else s.(incoming := s.incoming[HEADER..])
    case Demux(room) =>
      var k := DemuxBytes(s.incoming, s.left, room);
      s.(incoming := s.incoming[k..], left := s.left - k, delivered := Append(s.delivered, s.cur, s.incoming[..k]))
  }

  ghost predicate Reaches(run: seq<Action>, s: State)
    decreases |run|
  {
    if run == [] then s == Start()
    else
      var last := |run| - 1;
      exists before :: Reaches(run[..last], before) && Enabled(before, run[last]) && Next(before, run[last]) == s
  }

  /** All shared bytes on their way, oldest first. */
  function Pipe(s: State): seq<byte> {
    s.incoming + s.wire + s.outgoing
  }

  ghost predicate Keeps(s: State, c: nat) {
    At(s.accepted, c) == At(s.delivered, c) + Of(c, s.cur, s.left, Pipe(s)) + At(s.pending, c)
  }

  ghost predicate Inv(s: State) {
    Whole(s.left, Pipe(s)) && forall c :: Keeps(s, c)
  }

  // ---- Every action keeps the invariant ----

  lemma Regroup(a: seq<byte>, b: seq<byte>, c: seq<byte>, d: seq<byte>)
    ensures a + (b + c) + d == a + b + c + d
    ensures a + (b + c) + d == a + b + (c + d)
    ensures a + [] == a && [] + a == a
  {
  }

  lemma MuxKeeps(s: State, c: nat, room: nat)
    requires Inv(s) && Enabled(s, Mux(c, room))
    ensures Inv(Next(s, Mux(c, room)))
  {
    hide Of, Whole;
    var s' := Next(s, Mux(c, room));
    var p := At(s.pending, c);
    var n := MuxBytes(p, room);
    var message := HeaderBytes(c, n) + p[..n];
    assert Pipe(s') == Pipe(s) + message;
    forall d: nat ensures Keeps(s', d) {
      AfterWhole(d, s.cur, s.left, Pipe(s), message);
      MessageMeans(d, c, p[..n]);
      assert Keeps(s, d);
      assert p[..n] + p[n..] == p;
      var o := Of(d, s.cur, s.left, Pipe(s));
      Regroup(At(s.delivered, d), o, p[..n], p[n..]);
      Regroup(o, [], [], []);
    }
    AfterWhole(c, s.cur, s.left, Pipe(s), message);
    MessageMeans(c, c, p[..n]);
  }

  lemma ControlKeeps(s: State, c: nat, code: nat)
    requires Inv(s) && Enabled(s, Control(c, code))
    ensures Inv(Next(s, Control(c, code)))
  {
    hide Of, Whole;
    var s' := Next(s, Control(c, code));
    assert Pipe(s') == Pipe(s) + HeaderBytes(c, code);
    forall d: nat ensures Keeps(s', d) {
      AfterWhole(d, s.cur, s.left, Pipe(s), HeaderBytes(c, code));
      ControlMeans(d, c, code);
      assert Keeps(s, d);
      Regroup(Of(d, s.cur, s.left, Pipe(s)), [], [], []);
    }
    AfterWhole(c, s.cur, s.left, Pipe(s), HeaderBytes(c, code));
    ControlMeans(c, c, code);
  }

  lemma TakeHeaderKeeps(s: State)
    requires Inv(s) && Enabled(s, TakeHeader)
    ensures Inv(Next(s, TakeHeader))
  {
    var s' := Next(s, TakeHeader);
    var len := LengthOf(s.incoming);
    assert Pipe(s') == Pipe(s)[HEADER..];
    assert LengthOf(Pipe(s)) == len && ClientOf(Pipe(s)) == ClientOf(s.incoming);
    forall d: nat ensures Keeps(s', d) {
      assert Keeps(s, d);
    }
  }

  lemma DemuxKeeps(s: State, room: nat)
    requires Inv(s) && Enabled(s, Demux(room))
    ensures Inv(Next(s, Demux(room)))
  {
    hide Of, Whole;
    var s' := Next(s, Demux(room));
    var k := DemuxBytes(s.incoming, s.left, room);
    assert Pipe(s') == Pipe(s)[k..];
    assert Pipe(s)[..k] == s.incoming[..k];
    forall d: nat ensures Keeps(s', d) {
      FirstBytes(d, s.cur, s.left, Pipe(s), k);
      assert Keeps(s, d);
      var o := Of(d, s.cur, s.left - k, Pipe(s)[k..]);
      Regroup(At(s.delivered, d), s.incoming[..k], o, At(s.pending, d));
      Regroup(o, [], [], []);
    }
    FirstBytes(s.cur, s.cur, s.left, Pipe(s), k);
  }

  lemma Associates(a: seq<byte>, b: seq<byte>, c: seq<byte>)
    ensures a + b + c == a + (b + c)
  {
  }

  lemma PutKeeps(s: State, c: nat, data: seq<byte>)
    requires Inv(s) && Enabled(s, Put(c, data))
    ensures Inv(Next(s, Put(c, data)))
  {
    hide Of, Whole;
    var s' := Next(s, Put(c, data));
    assert Pipe(s') == Pipe(s);
    forall d: nat ensures Keeps(s', d) {
      assert Keeps(s, d);
      Associates(At(s.delivered, d) + Of(d, s.cur, s.left, Pipe(s)), At(s.pending, d), data);
    }
  }

  /** Bytes that only move along keep their meaning. */
  lemma MovingKeeps(s: State, a: Action)
    requires Inv(s) && Enabled(s, a) && (a.Transmit? || a.Arrive?)
    ensures Inv(Next(s, a))
  {
    hide Of, Whole;
    var s' := Next(s, a);
    assert Pipe(s') == Pipe(s);
    forall d: nat ensures Keeps(s', d) {
      assert Keeps(s, d);
    }
  }

  lemma NextKeepsInv(s: State, a: Action)
    requires Inv(s) && Enabled(s, a)
    ensures Inv(Next(s, a))
  {
    hide Inv, Next;
    match a
    case Put(c, data) => PutKeeps(s, c, data);
    case Mux(c, room) => MuxKeeps(s, c, room);
    case Control(c, code) => ControlKeeps(s, c, code);
    case Transmit(_) => MovingKeeps(s, a);
    case Arrive(_) => MovingKeeps(s, a);
    case TakeHeader => TakeHeaderKeeps(s);
    case Demux(room) => DemuxKeeps(s, room);
  }

  lemma {:induction false} RunInv(run: seq<Action>, s: State)
    requires Reaches(run, s)
    ensures Inv(s)
    decreases |run|
  {
    if run != [] {
      var last := |run| - 1;
      var before :| Reaches(run[..last], before) && Enabled(before, run[last]) && Next(before, run[last]) == s;
      RunInv(run[..last], before);
      NextKeepsInv(before, run[last]);
    }
  }

  /** In every run, the shared bytes parse as whole messages, and what a client has
      received is a prefix of what its peer has written; when nothing is on its way,
      it is all of it. */
  lemma ClientsKeepOrder(run: seq<Action>, s: State, c: nat)
    requires Reaches(run, s)
    ensures Whole(s.left, Pipe(s))
    ensures At(s.delivered, c) <= At(s.accepted, c)
    ensures Pipe(s) == [] && At(s.pending, c) == [] ==> At(s.delivered, c) == At(s.accepted, c)
  {
    hide Reaches;
    RunInv(run, s);
    assert Keeps(s, c);
  }

  // ---- Bytes get through ----

  lemma Extend(run: seq<Action>, s: State, a: Action)
    requires Reaches(run, s) && Enabled(s, a)
    ensures Reaches(run + [a], Next(s, a))
  {
    assert (run + [a])[..|run|] == run;
  }

  /** Turns of one client until all its bytes are multiplexed. */
  lemma {:induction false} MuxAll(run: seq<Action>, s: State, c: nat, room: nat) returns (run': seq<Action>, t: State)
    requires Reaches(run, s) && c < CLIENTS && HEADER + 1 <= room < CONTROL
    ensures Reaches(run', t) && run <= run' && t.accepted == s.accepted && At(t.pending, c) == []
    decreases |At(s.pending, c)|
  {
    hide Reaches, Message;
    run', t := run, s;
    if At(s.pending, c) != [] {
      Extend(run, s, Mux(c, room));
      run', t := MuxAll(run + [Mux(c, room)], Next(s, Mux(c, room)), c, room);
    }
  }

  /** Everything on its way arrives. */
  lemma ArriveAll(run: seq<Action>, s: State) returns (run': seq<Action>, t: State)
    requires Reaches(run, s)
    ensures Reaches(run', t) && run <= run' && t.accepted == s.accepted && t.pending == s.pending
    ensures t.outgoing == [] && t.wire == []
  {
    hide Reaches;
    var a := Transmit(|s.outgoing|);
    Extend(run, s, a);
    var mid := Next(s, a);
    var b := Arrive(|mid.wire|);
    Extend(run + [a], mid, b);
    run', t := run + [a] + [b], Next(mid, b);
  }

  /** What has arrived is handed over, however little room a client has at a time. */
  lemma {:induction false} DemuxAll(run: seq<Action>, s: State, room: nat) returns (run': seq<Action>, t: State)
    requires Reaches(run, s) && s.outgoing == [] && s.wire == [] && room > 0
    ensures Reaches(run', t) && run <= run' && t.accepted == s.accepted && t.pending == s.pending
    ensures Pipe(t) == [] && t.left == 0
    decreases |s.incoming|
  {
    hide Reaches, Keeps;
    RunInv(run, s);
    assert Pipe(s) == s.incoming;
    run', t := run, s;
    if s.incoming != [] {
      var a := if s.left == 0 then TakeHeader else Demux(room);
      Extend(run, s, a);
      run', t := DemuxAll(run + [a], Next(s, a), room);
    }
  }

  /** From every reachable state, without another byte being put in, everything a client
      has written can reach its peer, through ring buffers of any size that hold a
      header and a byte. */
  lemma CanDeliver(run: seq<Action>, s: State, c: nat, muxRoom: nat, demuxRoom: nat) returns (run': seq<Action>, t: State)
    requires Reaches(run, s) && c < CLIENTS && HEADER + 1 <= muxRoom < CONTROL && demuxRoom > 0
    ensures Reaches(run', t) && run <= run' && t.accepted == s.accepted
    ensures Pipe(t) == [] && At(t.delivered, c) == At(s.accepted, c)
  {
    hide Reaches;
    run', t := MuxAll(run, s, c, muxRoom);
    run', t := ArriveAll(run', t);
    run', t := DemuxAll(run', t, demuxRoom);
    ClientsKeepOrder(run', t, c);
  }

  // ---- The code on ring buffers ----

  /** Put one piece of a client's bytes into the shared outgoing ring buffer, if there
      is room for a header and a byte. */
  method MuxClient(outgoing: RingBuf, client: nat, incoming: RingBuf) returns (served: bool)
    requires outgoing != incoming && outgoing.buf != incoming.buf && outgoing.Valid() && incoming.Valid()
    requires client < CLIENTS && outgoing.buf.Length <= CONTROL
    modifies outgoing`head, incoming`tail, outgoing.buf
    ensures outgoing.Valid() && incoming.Valid()
    ensures served == (old(incoming.Queue()) != [] && outgoing.buf.Length - 1 - |old(outgoing.Queue())| >= HEADER + 1)
    ensures !served ==> incoming.Queue() == old(incoming.Queue()) && outgoing.Queue() == old(outgoing.Queue())
    ensures served ==>
      var p := old(incoming.Queue());
      var room := outgoing.buf.Length - 1 - |old(outgoing.Queue())|;
      && incoming.Queue() == Rest(p, room) && outgoing.Queue() == old(outgoing.Queue()) + Message(client, p, room)
      && forall s: State :: s.outgoing == old(outgoing.Queue()) && At(s.pending, client) == p ==>
           Next(s, Mux(client, room)) ==
           s.(outgoing := outgoing.Queue(), pending := s.pending[client := incoming.Queue()])
  {
    hide Stored, Window, HeaderBytes;
    var space := Free(outgoing.head, outgoing.tail, outgoing.buf.Length);
    if space < HEADER + 1 || incoming.head == incoming.tail {
      return false;
    }
    var bytes := Gap(incoming.tail, incoming.head, incoming.buf.Length);
    if bytes > space - HEADER {
      bytes := space - HEADER;
    }
    var header := HeaderBytes(client, bytes);
    StoredAppends(outgoing.buf[..], outgoing.head, outgoing.tail, header);
    assert header[..HEADER] == header;
    var k, head := WriteInternal(outgoing.buf, header, outgoing.head, outgoing.tail);
    outgoing.head := head;
    var moved := RingMove(outgoing, incoming, bytes);
    served := true;
  }

  /** Hand announced bytes from the shared incoming ring buffer to their client: action
      `Demux` of every state with these queues. */
  method DemuxClient(incoming: RingBuf, left: nat, outgoing: RingBuf) returns (left': nat)
    requires outgoing != incoming && outgoing.buf != incoming.buf && outgoing.Valid() && incoming.Valid()
    modifies outgoing`head, incoming`tail, outgoing.buf
    ensures outgoing.Valid() && incoming.Valid()
    ensures
      var k := DemuxBytes(old(incoming.Queue()), left, outgoing.buf.Length - 1 - |old(outgoing.Queue())|);
      && left' == left - k
      && incoming.Queue() == old(incoming.Queue())[k..]
      && outgoing.Queue() == old(outgoing.Queue()) + old(incoming.Queue())[..k]
    ensures
      var room := outgoing.buf.Length - 1 - |old(outgoing.Queue())|;
      var handed := outgoing.Queue()[|old(outgoing.Queue())|..];
      forall s: State :: s.incoming == old(incoming.Queue()) && s.left == left && left > 0 ==>
        Next(s, Demux(room)) ==
        s.(incoming := incoming.Queue(), left := left', delivered := Append(s.delivered, s.cur, handed))
  {
    hide Window, Next, Append;
    ghost var was, room := incoming.Queue(), Free(outgoing.head, outgoing.tail, outgoing.buf.Length);
    left' := left;
    var bytes := Gap(incoming.tail, incoming.head, incoming.buf.Length);
    if left < bytes { bytes := left; }
    var space := Free(outgoing.head, outgoing.tail, outgoing.buf.Length);
    if space < bytes { bytes := space; }
    if bytes > 0 {
      var moved := RingMove(outgoing, incoming, bytes);
      left' := left - bytes;
    }
    assert outgoing.Queue()[|old(outgoing.Queue())|..] == was[..bytes];
    forall s: State | s.incoming == was && s.left == left && left > 0
      ensures Next(s, Demux(room)) ==
        s.(incoming := incoming.Queue(), left := left', delivered := Append(s.delivered, s.cur, was[..bytes]))
    {
      DemuxIsAction(s, room);
    }
  }

  lemma DemuxIsAction(s: State, room: nat)
    requires s.left > 0
    ensures var k := DemuxBytes(s.incoming, s.left, room);
      Next(s, Demux(room)) ==
      s.(incoming := s.incoming[k..], left := s.left - k, delivered := Append(s.delivered, s.cur, s.incoming[..k]))
  {
  }
}
