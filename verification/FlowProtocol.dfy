/** Two ends of a connection under flow control, as a state machine over frames,
    acknowledges, keep-alives and partial writes and reads of the byte streams. */
module FlowProtocol {
  import opened FlowControl

  /** A message on the stream. An acknowledge carries the receiver's byte count
      masked to 16 or 24 bits; `upto` is the unbounded count behind it. */
  datatype Msg = Data(size: nat) | Ack(upto: nat)

  function Size(l: Limits, m: Msg): nat {
    if m.Data? then m.size else l.ackSz
  }

  function Total(l: Limits, q: seq<Msg>): nat {
    if q == [] then 0 else Size(l, q[0]) + Total(l, q[1..])
  }

  /** One end: its real counters `c`, the messages it has made which the peer
      has not fully read (the last one may still be `unwritten` in part, the
      peer has read `headRead` bytes of the first), and the unbounded counters
      (`acked` is -1 before the first acknowledge). `alive` counts the
      bytes of keep-alives since its last checked send. */
  datatype End = End(c: Counters, queue: seq<Msg>, unwritten: nat, headRead: nat,
                     sent: nat, received: nat, known: nat, acked: int, alive: nat)

  datatype System = System(x: End, y: End, keptAlive: bool)

  datatype Action = MakeData(size: nat) | MakeAck | KeepAlive | Write(n: nat) | Read(n: nat)

  /** ioc_reset_connection_state. */
  function NewEnd(): End {
    End(Counters(0, 0, 0, FIRST_ACK_MARK), [], 0, 0, 0, 0, 0, -1, 0)
  }

  function Start(): System {
    System(NewEnd(), NewEnd(), false)
  }

  function Flip(s: System): System {
    System(s.y, s.x, s.keptAlive)
  }

  /** What the first end `x` can do. The frame buffer is free when nothing of
      the last message is unwritten; ioc_connection_send checks acknowledges
      before it makes a data frame. */
  predicate Enabled(l: Limits, s: System, a: Action)
    requires Sound(l)
  {
    match a
    case MakeData(size) =>
      s.x.unwritten == 0 && size > 0 && AckFits(l, s.x.c) && !AckDue(l, s.x.c) && DataFits(l, s.x.c, size)
    case MakeAck => s.x.unwritten == 0 && AckFits(l, s.x.c) && AckDue(l, s.x.c)
    case KeepAlive => s.x.unwritten == 0 && s.x.alive + l.ackSz <= l.keepAlive
    case Write(n) => 0 < n <= s.x.unwritten
    case Read(n) =>
      && 0 < n && s.y.queue != []
      && n + s.y.headRead <= Size(l, s.y.queue[0])
      && n + s.x.received <= s.y.sent
  }

  /** ioc_send_acknowledge puts the masked count of received bytes in the frame
      buffer and remembers it as acknowledged. */
  function PutAck(l: Limits, e: End): End {
    e.(c := e.c.(acknowledged := e.c.received), queue := e.queue + [Ack(e.received)], unwritten := l.ackSz,
       acked := e.received)
  }

  function Next(l: Limits, s: System, a: Action): System
    requires Sound(l) && Enabled(l, s, a)
  {
    match a
    case MakeData(size) =>
      s.(x := s.x.(queue := s.x.queue + [Data(size)], unwritten := size, alive := 0))
    case MakeAck => s.(x := PutAck(l, s.x).(alive := 0))
    case KeepAlive => s.(x := PutAck(l, s.x).(alive := s.x.alive + l.ackSz), keptAlive := true)
    case Write(n) =>
      s.(x := s.x.(c := s.x.c.(sent := (s.x.c.sent + n) % WORD), unwritten := s.x.unwritten - n, sent := s.x.sent + n))
    case Read(n) =>
      var me := s.x.(c := s.x.c.(received := (s.x.c.received + n) % WORD), received := s.x.received + n);
      if n + s.y.headRead < Size(l, s.y.queue[0]) then s.(x := me, y := s.y.(headRead := s.y.headRead + n))
      else
        var y' := s.y.(headRead := 0, queue := s.y.queue[1..]);
        match s.y.queue[0]
        case Data(_) => s.(x := me, y := y')
        case Ack(upto) => s.(x := me.(c := me.c.(processed := upto % l.modulus), known := upto), y := y')
  }

  // ---- Invariant ----

  function AckedOf(e: End): nat {
    if e.acked < 0 then 0 else e.acked
  }

  /** The acknowledges in `q` rise from `lo` to `hi`. */
  ghost predicate AckChain(q: seq<Msg>, lo: nat, hi: nat) {
    if q == [] then lo == hi
    else match q[0]
      case Data(_) => AckChain(q[1..], lo, hi)
      case Ack(upto) => lo <= upto && AckChain(q[1..], upto, hi)
  }

  ghost predicate Counted(l: Limits, e: End)
    requires Sound(l)
  {
    && e.c.sent == e.sent % WORD
    && e.c.received == e.received % WORD
    && e.c.processed == e.known % l.modulus
    && e.c.acknowledged == if e.acked < 0 then FIRST_ACK_MARK else e.acked % WORD
  }

  /** What holds of the stream from `e` to `peer`. */
  ghost predicate Stream(l: Limits, e: End, peer: End)
    requires Sound(l)
  {
    && Counted(l, e)
    && e.acked <= e.received
    && peer.received <= e.sent
    && e.sent + e.unwritten + e.headRead == peer.received + Total(l, e.queue)
    && (e.queue != [] ==> e.headRead < Size(l, e.queue[0]) && e.unwritten <= Size(l, e.queue[|e.queue| - 1]))
    && (e.queue == [] ==> e.headRead == 0 && e.unwritten == 0)
    && (forall i :: 0 <= i < |e.queue| ==> Size(l, e.queue[i]) > 0)
    && AckChain(e.queue, peer.known, AckedOf(e))
    && e.alive <= l.keepAlive
    && e.sent + e.unwritten <= e.known + l.maxAckInAir + e.alive
  }

  /** Bytes of `e` which `peer` has not acknowledged. */
  function Outstanding(e: End, peer: End): int {
    e.sent + e.unwritten - AckedOf(peer)
  }

  /** The first acknowledge is the one which may acknowledge too little. */
  function FirstAckSz(l: Limits, e: End): nat {
    if e.acked < 0 then 0 else l.ackSz
  }

  ghost predicate Inv(l: Limits, s: System)
    requires Sound(l)
  {
    && Stream(l, s.x, s.y) && Stream(l, s.y, s.x)
    && (!s.keptAlive ==>
          && s.x.alive == 0 && s.y.alive == 0
          && Outstanding(s.x, s.y) + Outstanding(s.y, s.x) <=
             l.maxInAir + l.maxAckInAir + FirstAckSz(l, s.x) + FirstAckSz(l, s.y))
  }

  lemma ZeroCounted(l: Limits)
    requires Sound(l)
    ensures Counted(l, NewEnd())
  {
    assert l.modulus == SERIAL_MODULUS || l.modulus == SOCKET_MODULUS;
  }

  lemma StartInv(l: Limits)
    requires Sound(l)
    ensures Inv(l, Start())
  {
    ZeroCounted(l);
    hide Counted;
  }

  lemma FlipInv(l: Limits, s: System)
    requires Sound(l) && Inv(l, s)
    ensures Inv(l, Flip(s))
  {
  }

  lemma {:induction false} ChainRises(q: seq<Msg>, lo: nat, hi: nat)
    requires AckChain(q, lo, hi)
    ensures lo <= hi
  {
    if q != [] {
      match q[0]
      case Data(_) => ChainRises(q[1..], lo, hi);
      case Ack(upto) => ChainRises(q[1..], upto, hi);
    }
  }

  lemma {:induction false} ChainAppend(q: seq<Msg>, lo: nat, hi: nat, m: Msg)
    requires AckChain(q, lo, hi) && (m.Ack? ==> hi <= m.upto)
    ensures AckChain(q + [m], lo, if m.Ack? then m.upto else hi)
  {
    if q == [] {
      assert q + [m] == [m];
      assert [m][1..] == [];
    } else {
      assert (q + [m])[1..] == q[1..] + [m];
      match q[0]
      case Data(_) => ChainAppend(q[1..], lo, hi, m);
      case Ack(upto) => ChainAppend(q[1..], upto, hi, m);
    }
  }

  lemma {:induction false} TotalAppend(l: Limits, q: seq<Msg>, m: Msg)
    ensures Total(l, q + [m]) == Total(l, q) + Size(l, m)
  {
    if q == [] {
      assert q + [m] == [m];
      assert [m][1..] == [];
    } else {
      assert (q + [m])[1..] == q[1..] + [m];
      TotalAppend(l, q[1..], m);
    }
  }

  /** The in-air bound: the unacknowledged bytes, with the pending frame, stay
      below the acknowledge limit plus one acknowledge per keep-alive since the
      last checked send, and the masked difference used in the checks is exactly
      the number of unacknowledged bytes. */
  lemma InAirBound(l: Limits, s: System)
    requires Sound(l) && Inv(l, s)
    ensures s.x.known <= s.x.sent
    ensures s.x.sent + s.x.unwritten - s.x.known <= l.maxAckInAir + s.x.alive < l.modulus
    ensures InAir(l, s.x.c) == s.x.sent - s.x.known
  {
    hide Total, AckChain;
    ChainRises(s.y.queue, s.x.known, AckedOf(s.y));
    MaskedIsExact(l, s.x.sent, s.x.known);
  }

  /** The checks before a send, on the true numbers of bytes: data may go up to the data
      limit, an acknowledge up to the acknowledge limit. */
  lemma ChecksAreExact(l: Limits, s: System, size: nat)
    requires Sound(l) && Inv(l, s)
    ensures DataFits(l, s.x.c, size) <==> s.x.sent - s.x.known + size <= l.maxInAir
    ensures AckFits(l, s.x.c) <==> s.x.sent - s.x.known + l.ackSz <= l.maxAckInAir
  {
    hide Total, AckChain, Masked;
    InAirBound(l, s);
  }

  /** An acknowledge is due exactly before the first one, or when enough bytes
      have come since the last one. */
  lemma AckDueExactly(l: Limits, s: System)
    requires Sound(l) && Inv(l, s)
    ensures AckDue(l, s.x.c) <==> s.x.acked < 0 || s.x.received - s.x.acked >= l.unackLimit
  {
    hide Total, AckChain;
    FlipInv(l, s);
    InAirBound(l, Flip(s));
    ChainRises(s.x.queue, s.y.known, AckedOf(s.x));
    if s.x.acked >= 0 {
      MaskedIsExact(l, s.x.received, s.x.acked);
    } else {
      FirstAckIsDue(l, s.x.received);
    }
  }

  lemma FirstAckIsDue(l: Limits, received: nat)
    requires Sound(l) && received < FIRST_ACK_MARK % l.modulus
    ensures Masked(l, received % WORD, FIRST_ACK_MARK) >= l.unackLimit
  {
    assert received % WORD == received;
    assert (received - FIRST_ACK_MARK) % WORD == received - FIRST_ACK_MARK + WORD;
  }

  // ---- Every step keeps the invariant ----

  lemma DataKeepsInv(l: Limits, s: System, size: nat)
    requires Sound(l) && Inv(l, s) && Enabled(l, s, MakeData(size))
    ensures Inv(l, Next(l, s, MakeData(size)))
  {
    hide Total, AckChain, Masked;
    InAirBound(l, s);
    FlipInv(l, s);
    InAirBound(l, Flip(s));
    TotalAppend(l, s.x.queue, Data(size));
    ChainAppend(s.x.queue, s.y.known, AckedOf(s.x), Data(size));
    ChainRises(s.x.queue, s.y.known, AckedOf(s.x));
    ChainRises(s.y.queue, s.x.known, AckedOf(s.y));
  }

  lemma PutAckKeepsStreams(l: Limits, s: System, alive: nat)
    requires Sound(l) && Inv(l, s) && s.x.unwritten == 0 && alive <= l.keepAlive
    requires s.x.sent + l.ackSz <= s.x.known + l.maxAckInAir + alive
    ensures var x := PutAck(l, s.x).(alive := alive);
            Stream(l, x, s.y) && Stream(l, s.y, x)
  {
    hide Total, AckChain, Masked;
    TotalAppend(l, s.x.queue, Ack(s.x.received));
    ChainAppend(s.x.queue, s.y.known, AckedOf(s.x), Ack(s.x.received));
  }

  lemma AckKeepsInv(l: Limits, s: System)
    requires Sound(l) && Inv(l, s) && Enabled(l, s, MakeAck)
    ensures Inv(l, Next(l, s, MakeAck))
  {
    hide Stream, Masked;
    InAirBound(l, s);
    AckDueExactly(l, s);
    PutAckKeepsStreams(l, s, 0);
  }

  lemma KeepAliveKeepsInv(l: Limits, s: System)
    requires Sound(l) && Inv(l, s) && Enabled(l, s, KeepAlive)
    ensures Inv(l, Next(l, s, KeepAlive))
  {
    hide Masked, Total, AckChain;
    PutAckKeepsStreams(l, s, s.x.alive + l.ackSz);
  }

  lemma WriteKeepsInv(l: Limits, s: System, n: nat)
    requires Sound(l) && Inv(l, s) && Enabled(l, s, Write(n))
    ensures Inv(l, Next(l, s, Write(n)))
  {
    hide Masked, Total, AckChain;
    WrapAdd(s.x.sent, n);
  }

  lemma WrapAdd(a: nat, n: nat)
    ensures (a % WORD + n) % WORD == (a + n) % WORD
  {
  }

  lemma PartialReadKeepsInv(l: Limits, s: System, n: nat)
    requires Sound(l) && Inv(l, s) && Enabled(l, s, Read(n))
    requires n + s.y.headRead < Size(l, s.y.queue[0])
    ensures Inv(l, Next(l, s, Read(n)))
  {
    hide Masked, Total, AckChain;
    WrapAdd(s.x.received, n);
  }

  /** The peer's stream when its first message has been read to the end. */
  lemma HeadTaken(l: Limits, s: System, n: nat)
    requires Sound(l) && Inv(l, s) && Enabled(l, s, Read(n))
    requires n + s.y.headRead == Size(l, s.y.queue[0])
    ensures var q := s.y.queue;
            && Total(l, q) == Size(l, q[0]) + Total(l, q[1..])
            && (q[1..] == [] ==> s.y.unwritten == 0)
            && (q[1..] != [] ==> q[1..][|q| - 2] == q[|q| - 1])
            && (q[0].Data? ==> AckChain(q[1..], s.x.known, AckedOf(s.y)))
            && (q[0].Ack? ==> s.x.known <= q[0].upto && AckChain(q[1..], q[0].upto, AckedOf(s.y)))
  {
  }

  lemma FullReadPeer(l: Limits, s: System, n: nat)
    requires Sound(l) && Inv(l, s) && Enabled(l, s, Read(n))
    requires n + s.y.headRead == Size(l, s.y.queue[0])
    ensures var s' := Next(l, s, Read(n)); Stream(l, s'.y, s'.x)
  {
    HeadTaken(l, s, n);
    hide Masked, Total, AckChain, AckFits, AckDue, DataFits;
  }

  lemma FullReadOwn(l: Limits, s: System, n: nat)
    requires Sound(l) && Inv(l, s) && Enabled(l, s, Read(n))
    requires n + s.y.headRead == Size(l, s.y.queue[0])
    ensures var s' := Next(l, s, Read(n)); Stream(l, s'.x, s'.y)
  {
    HeadTaken(l, s, n);
    hide Masked, Total, AckChain, AckFits, AckDue, DataFits;
    WrapAdd(s.x.received, n);
  }

  lemma FullReadKeepsInv(l: Limits, s: System, n: nat)
    requires Sound(l) && Inv(l, s) && Enabled(l, s, Read(n))
    requires n + s.y.headRead == Size(l, s.y.queue[0])
    ensures Inv(l, Next(l, s, Read(n)))
  {
    hide Stream;
    FullReadPeer(l, s, n);
    FullReadOwn(l, s, n);
  }

  lemma ReadKeepsInv(l: Limits, s: System, n: nat)
    requires Sound(l) && Inv(l, s) && Enabled(l, s, Read(n))
    ensures Inv(l, Next(l, s, Read(n)))
  {
    if n + s.y.headRead < Size(l, s.y.queue[0]) {
      PartialReadKeepsInv(l, s, n);
    } else {
      FullReadKeepsInv(l, s, n);
    }
  }

  lemma NextKeepsInv(l: Limits, s: System, a: Action)
    requires Sound(l) && Inv(l, s) && Enabled(l, s, a)
    ensures Inv(l, Next(l, s, a))
  {
    hide Inv, Next;
    match a
    case MakeData(size) => DataKeepsInv(l, s, size);
    case MakeAck => AckKeepsInv(l, s);
    case KeepAlive => KeepAliveKeepsInv(l, s);
    case Write(n) => WriteKeepsInv(l, s, n);
    case Read(n) => ReadKeepsInv(l, s, n);
  }

  // ---- Whole runs ----

  datatype Move = Move(first: bool, action: Action)

  predicate CanMove(l: Limits, s: System, m: Move)
    requires Sound(l)
  {
    Enabled(l, if m.first then s else Flip(s), m.action)
  }

  function Moved(l: Limits, s: System, m: Move): System
    requires Sound(l) && CanMove(l, s, m)
  {
    if m.first then Next(l, s, m.action) else Flip(Next(l, Flip(s), m.action))
  }

  lemma MoveKeepsInv(l: Limits, s: System, m: Move)
    requires Sound(l) && Inv(l, s) && CanMove(l, s, m)
    ensures Inv(l, Moved(l, s, m))
  {
    hide Inv, Next;
    if m.first {
      NextKeepsInv(l, s, m.action);
    } else {
      FlipInv(l, s);
      NextKeepsInv(l, Flip(s), m.action);
      FlipInv(l, Next(l, Flip(s), m.action));
    }
  }

  /** The state after `moves` from `s`; `Stuck` if one of them is not possible. */
  datatype Reached = Stuck | At(s: System)

  function Run(l: Limits, s: System, moves: seq<Move>): Reached
    requires Sound(l)
    decreases |moves|
  {
    if moves == [] then At(s)
    else if CanMove(l, s, moves[0]) then Run(l, Moved(l, s, moves[0]), moves[1..])
    else Stuck
  }

  lemma {:induction false} RunKeepsInv(l: Limits, s: System, moves: seq<Move>)
    requires Sound(l) && Inv(l, s) && Run(l, s, moves).At?
    ensures Inv(l, Run(l, s, moves).s)
    decreases |moves|
  {
    hide Inv, Moved, CanMove;
    if moves != [] {
      MoveKeepsInv(l, s, moves[0]);
      RunKeepsInv(l, Moved(l, s, moves[0]), moves[1..]);
    }
  }

  ghost predicate Reachable(l: Limits, s: System)
    requires Sound(l)
  {
    exists moves :: Run(l, Start(), moves) == At(s)
  }

  lemma ReachableInv(l: Limits, s: System)
    requires Sound(l) && Reachable(l, s)
    ensures Inv(l, s)
  {
    hide Inv, Start;
    var moves :| Run(l, Start(), moves) == At(s);
    StartInv(l);
    RunKeepsInv(l, Start(), moves);
  }

  /** In every reachable state, at both ends, the masked difference in the
      checks is exact and the bytes on air stay within the limit. */
  lemma ReachableInAir(l: Limits, s: System)
    requires Sound(l) && Reachable(l, s)
    ensures InAir(l, s.x.c) == s.x.sent - s.x.known && InAir(l, s.y.c) == s.y.sent - s.y.known
    ensures s.x.sent + s.x.unwritten - s.x.known <= l.maxAckInAir + s.x.alive
    ensures s.y.sent + s.y.unwritten - s.y.known <= l.maxAckInAir + s.y.alive
    ensures !s.keptAlive ==> s.x.alive == s.y.alive == 0
  {
    ReachableInv(l, s);
    hide Stream, Masked;
    InAirBound(l, s);
    FlipInv(l, s);
    InAirBound(l, Flip(s));
  }

  /** The configured limits: on a serial line 200 bytes of data and 255 with acknowledges,
      of which one is due every 40 bytes; on a socket 44 frames, 520 bytes more, and 500. */
  lemma LimitValues(frameSz: nat)
    requires 96 <= frameSz <= 16384
    ensures var l := SerialLimits();
      l.modulus == 65536 && l.ackSz == 3 && l.maxInAir == 200 && l.maxAckInAir == 255 && l.unackLimit == 40
    ensures var l := SocketLimits(frameSz);
      && l.modulus == 16777216 && l.ackSz == 4 && l.unackLimit == 500
      && l.maxInAir == 44 * frameSz && l.maxAckInAir == 44 * frameSz + 520
  {
  }

  /** A fresh connection starts with an acknowledge at either end: the counter of
      acknowledged bytes is set so that one is due, and there is room for it. */
  lemma FirstAckForced(l: Limits)
    requires Sound(l)
    ensures var s := Start();
      && s.x.c.acknowledged == s.y.c.acknowledged == 0xA0A000
      && Enabled(l, s, MakeAck) && Enabled(l, Flip(s), MakeAck)
      && forall size :: !Enabled(l, s, MakeData(size))
  {
    hide Masked, Inv, AckDue, AckFits, DataFits;
    NewEndOwes(l);
    assert Flip(Start()) == Start();
  }

  lemma NewEndOwes(l: Limits)
    requires Sound(l)
    ensures AckDue(l, NewEnd().c) && AckFits(l, NewEnd().c)
  {
    hide AckDue, AckFits;
    StartInv(l);
    AckDueExactly(l, Start());
    ChecksAreExact(l, Start(), 0);
  }

  /** No data is made while an acknowledge is due or there is no room for one. */
  lemma AcksGoFirst(l: Limits, s: System, size: nat)
    requires Sound(l) && Inv(l, s) && Enabled(l, s, MakeData(size))
    ensures s.x.acked >= 0 && s.x.received - s.x.acked < l.unackLimit
    ensures s.x.sent - s.x.known + l.ackSz <= l.maxAckInAir && s.x.sent - s.x.known + size <= l.maxInAir
  {
    hide Total, AckChain, Masked;
    AckDueExactly(l, s);
    ChecksAreExact(l, s, size);
  }

  /** A socket peer has at most 44 frames, 500 bytes and five acknowledges outstanding. */
  lemma SocketOutstanding(frameSz: nat, s: System)
    requires 96 <= frameSz <= 16384 && Reachable(SocketLimits(frameSz), s) && !s.keptAlive
    ensures s.x.sent + s.x.unwritten - s.x.known <= 44 * frameSz + 520
    ensures s.y.sent + s.y.unwritten - s.y.known <= 44 * frameSz + 520
  {
    hide Reachable;
    ReachableInAir(SocketLimits(frameSz), s);
  }

  /** A serial peer never has more than 255 bytes outstanding. */
  lemma SerialOutstanding(s: System)
    requires Reachable(SerialLimits(), s) && !s.keptAlive
    ensures s.x.sent + s.x.unwritten - s.x.known <= 255
    ensures s.y.sent + s.y.unwritten - s.y.known <= 255
  {
    hide Reachable;
    ReachableInAir(SerialLimits(), s);
  }

  // ---- No lock-up ----

  /** Nothing in transit and both frame buffers empty. */
  predicate Quiet(s: System) {
    s.x.queue == [] && s.y.queue == []
  }

  /** In a quiet state everything sent has been received, and what an end has
      on air is what its peer has not acknowledged. */
  lemma QuietCounts(l: Limits, s: System)
    requires Sound(l) && Inv(l, s) && Quiet(s)
    ensures s.y.received == s.x.sent && s.x.unwritten == 0
    ensures InAir(l, s.x.c) == s.y.received - AckedOf(s.y) == Outstanding(s.x, s.y)
  {
    InAirBound(l, s);
    hide Masked;
  }

  /** Both ends are never refused room for an acknowledge at the same time. */
  lemma NeverBothRefused(l: Limits, s: System)
    requires Sound(l) && Inv(l, s) && Quiet(s) && !s.keptAlive
    ensures AckFits(l, s.x.c) || AckFits(l, s.y.c)
  {
    QuietCounts(l, s);
    FlipInv(l, s);
    QuietCounts(l, Flip(s));
    hide Stream, InAir;
  }

  /** No mutual lock-up: in every reachable quiet state without keep-alives, if
      a data frame is refused at an end then one of the ends both owes an
      acknowledge and has room to send it. */
  lemma NoLockUp(l: Limits, s: System, size: nat)
    requires Sound(l) && Reachable(l, s) && Quiet(s) && !s.keptAlive
    requires size <= l.maxFrame && !DataFits(l, s.x.c, size)
    ensures Enabled(l, s, MakeAck) || Enabled(l, Flip(s), MakeAck)
  {
    ReachableInv(l, s);
    QuietCounts(l, s);
    AckDueExactly(l, s);
    FlipInv(l, s);
    QuietCounts(l, Flip(s));
    AckDueExactly(l, Flip(s));
    NeverBothRefused(l, s);
    hide Inv, AckDue, InAir;
  }

  // ---- Room can always be made ----

  /** Moves which only acknowledge, write and read. */
  predicate Passive(moves: seq<Move>) {
    forall i :: 0 <= i < |moves| ==> moves[i].action.MakeAck? || moves[i].action.Write? || moves[i].action.Read?
  }

  ghost predicate Leads(l: Limits, s: System, moves: seq<Move>, s': System)
    requires Sound(l)
  {
    Passive(moves) && Run(l, s, moves) == At(s')
  }

  lemma {:induction false} LeadsThen(l: Limits, a: System, p: seq<Move>, b: System, q: seq<Move>, c: System)
    requires Sound(l) && Leads(l, a, p, b) && Leads(l, b, q, c)
    ensures Leads(l, a, p + q, c)
    decreases |p|
  {
    hide CanMove, Moved;
    if p == [] {
      assert p + q == q;
    } else {
      assert (p + q)[1..] == p[1..] + q;
      LeadsThen(l, Moved(l, a, p[0]), p[1..], b, q, c);
    }
  }

  lemma LeadsOne(l: Limits, s: System, m: Move)
    requires Sound(l) && Inv(l, s) && CanMove(l, s, m) && (m.action.MakeAck? || m.action.Write? || m.action.Read?)
    ensures Leads(l, s, [m], Moved(l, s, m)) && Inv(l, Moved(l, s, m))
  {
    hide Inv, Moved, CanMove;
    MoveKeepsInv(l, s, m);
    assert [m][1..] == [];
    assert Run(l, Moved(l, s, m), []) == At(Moved(l, s, m));
  }

  /** Bytes and messages which are still to be moved. */
  function Backlog(s: System): nat {
    2 * (|s.x.queue| + |s.y.queue|) + (if s.x.unwritten > 0 then 1 else 0) + (if s.y.unwritten > 0 then 1 else 0)
  }

  lemma DrainMove(l: Limits, s: System) returns (m: Move)
    requires Sound(l) && Inv(l, s) && !Quiet(s)
    ensures (m.action.Write? || m.action.Read?) && CanMove(l, s, m)
    ensures var s' := Moved(l, s, m);
            Backlog(s') < Backlog(s) && Carries(s', s) && s'.keptAlive == s.keptAlive
  {
    hide Total, AckChain, Masked;
    if s.x.unwritten > 0 {
      m := Move(true, Write(s.x.unwritten));
    } else if s.y.unwritten > 0 {
      m := Move(false, Write(s.y.unwritten));
    } else if s.y.queue != [] {
      ReadPossible(l, s);
      m := Move(true, Read(Size(l, s.y.queue[0]) - s.y.headRead));
    } else {
      FlipInv(l, s);
      ReadPossible(l, Flip(s));
      m := Move(false, Read(Size(l, s.x.queue[0]) - s.x.headRead));
    }
  }

  /** Flushing the streams: write what is pending and read what has come. */
  lemma {:induction false} Drain(l: Limits, s: System) returns (moves: seq<Move>, s': System)
    requires Sound(l) && Inv(l, s)
    ensures Leads(l, s, moves, s') && Inv(l, s') && Quiet(s') && s'.keptAlive == s.keptAlive
    ensures Carries(s', s)
    decreases Backlog(s)
  {
    hide Inv, Run, Moved, CanMove, Backlog;
    if Quiet(s) {
      RunNothing(l, s);
      moves, s' := [], s;
    } else {
      var m := DrainMove(l, s);
      LeadsOne(l, s, m);
      var mid := Moved(l, s, m);
      moves, s' := Drain(l, mid);
      LeadsThen(l, s, [m], mid, moves, s');
      moves := [m] + moves;
    }
  }

  /** Draining changes neither what was made nor what was acknowledged. */
  predicate Carries(s': System, s: System) {
    && s'.x.sent + s'.x.unwritten == s.x.sent + s.x.unwritten
    && s'.y.sent + s'.y.unwritten == s.y.sent + s.y.unwritten
    && s'.x.acked == s.x.acked && s'.y.acked == s.y.acked
  }

  lemma RunNothing(l: Limits, s: System)
    requires Sound(l)
    ensures Leads(l, s, [], s)
  {
  }

  lemma ReadPossible(l: Limits, s: System)
    requires Sound(l) && Inv(l, s) && s.y.unwritten == 0 && s.y.queue != []
    ensures CanMove(l, s, Move(true, Read(Size(l, s.y.queue[0]) - s.y.headRead)))
  {
    hide AckChain;
  }

  /** An end which owes an acknowledge and has room for it makes its peer's air
      empty. */
  lemma AckAndDrain(l: Limits, s: System, first: bool) returns (moves: seq<Move>, s': System)
    requires Sound(l) && Inv(l, s) && Quiet(s) && !s.keptAlive && CanMove(l, s, Move(first, MakeAck))
    ensures Leads(l, s, moves, s') && Inv(l, s') && Quiet(s') && !s'.keptAlive
    ensures first ==> InAir(l, s'.y.c) == 0 && InAir(l, s'.x.c) == InAir(l, s.x.c) + l.ackSz && !AckDue(l, s'.x.c)
    ensures !first ==> InAir(l, s'.x.c) == 0 && InAir(l, s'.y.c) == InAir(l, s.y.c) + l.ackSz
    ensures !first && s.x.acked >= 0 ==> s'.x.acked == s.x.acked && s'.x.received == s.x.received + l.ackSz
  {
    hide Run, Total, AckChain, Masked;
    QuietCounts(l, s);
    FlipInv(l, s);
    QuietCounts(l, Flip(s));
    var m := Move(first, MakeAck);
    LeadsOne(l, s, m);
    var mid := Moved(l, s, m);
    var rest: seq<Move>;
    rest, s' := Drain(l, mid);
    LeadsThen(l, s, [m], mid, rest, s');
    moves := [m] + rest;
    QuietCounts(l, s');
    FlipInv(l, s');
    QuietCounts(l, Flip(s'));
    AckDueExactly(l, s');
  }

  /** A quiet state from which the second end can acknowledge. */
  lemma FreePeer(l: Limits, s: System) returns (moves: seq<Move>, s': System)
    requires Sound(l) && Inv(l, s) && Quiet(s) && !s.keptAlive
    ensures Leads(l, s, moves, s') && Inv(l, s') && Quiet(s') && !s'.keptAlive && AckFits(l, s'.y.c)
  {
    hide Run, Stream;
    if AckFits(l, s.y.c) {
      RunNothing(l, s);
      moves, s' := [], s;
    } else {
      NeverBothRefused(l, s);
      QuietCounts(l, s);
      AckDueExactly(l, s);
      FlipInv(l, s);
      QuietCounts(l, Flip(s));
      hide Inv, Masked;
      moves, s' := AckAndDrain(l, s, true);
    }
  }

  /** A quiet state in which the first end has little on air. */
  lemma FreeAir(l: Limits, s: System) returns (moves: seq<Move>, s': System)
    requires Sound(l) && Inv(l, s) && Quiet(s) && !s.keptAlive && AckFits(l, s.y.c)
    ensures Leads(l, s, moves, s') && Inv(l, s') && Quiet(s') && !s'.keptAlive
    ensures InAir(l, s'.x.c) < l.unackLimit
  {
    hide Run, Stream;
    FlipInv(l, s);
    QuietCounts(l, s);
    if AckDue(l, s.y.c) {
      QuietCounts(l, Flip(s));
      hide Inv, Masked;
      moves, s' := AckAndDrain(l, s, false);
    } else {
      AckDueExactly(l, Flip(s));
      RunNothing(l, s);
      moves, s' := [], s;
    }
  }

  /** From every reachable state without keep-alives the ends can, by writing,
      reading and acknowledging alone, reach a state in which a data frame of
      any permitted size may be made. */
  lemma CanMakeRoom(l: Limits, s: System, size: nat) returns (moves: seq<Move>, s': System)
    requires Sound(l) && Inv(l, s) && !s.keptAlive && 0 < size <= l.maxFrame
    ensures Leads(l, s, moves, s') && Inv(l, s') && Enabled(l, s', MakeData(size))
  {
    hide Run, Inv, Masked;
    var p1, s1 := Drain(l, s);
    var p2, s2 := FreePeer(l, s1);
    LeadsThen(l, s, p1, s1, p2, s2);
    var p3, s3 := FreeAir(l, s2);
    LeadsThen(l, s, p1 + p2, s2, p3, s3);
    moves, s' := p1 + p2 + p3, s3;
    QuietCounts(l, s3);
    if AckDue(l, s3.x.c) {
      var p4, s4 := AckAndDrain(l, s3, true);
      LeadsThen(l, s, moves, s3, p4, s4);
      moves, s' := moves + p4, s4;
      QuietCounts(l, s4);
    }
  }
}
