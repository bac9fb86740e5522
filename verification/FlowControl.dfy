/** Flow control of a connection (code/ioc_connection_send.c, _receive.c, .h): each
    end counts bytes in wrapping counters, limits what it has on air, and
    acknowledges what it has received. Two ends and the byte streams between
    them form a state machine with unbounded ghost counters beside the real ones. */
module FlowControl {
  import opened Modulo

  const WORD := 0x1_0000_0000
  const SERIAL_MODULUS := 0x1_0000
  const SOCKET_MODULUS := 0x100_0000

  /** bytes_acknowledged after a connection reset; forces the first acknowledge. */
  const FIRST_ACK_MARK := 0xA0A000

  // ---- Limits ----

  /** What a connection is configured with. `keepAlive` bounds the bytes
      of timed keep-alives between two checked sends. */
  datatype Limits = Limits(modulus: nat, ackSz: nat, maxInAir: nat, maxAckInAir: nat, unackLimit: nat,
                           maxFrame: nat, keepAlive: nat)

  const SERIAL_UNACKNOWLEDGED := 40
  const SERIAL_ACKS_TO_RESERVE := 5
  const SERIAL_RX_BUF := 256
  const SERIAL_ACK_SZ := 3
  const SERIAL_FRAME_SZ := 96
  const SOCKET_UNACKNOWLEDGED := 500
  const SOCKET_ACKS_TO_RESERVE := 5
  const SOCKET_ACK_SZ := 4
  const MIN_FRAME_SZ := 96
  const MAX_FRAME_SZ := 0x4000

  /** What the theorems need of the limits. */
  predicate Sound(l: Limits) {
    && (l.modulus == SERIAL_MODULUS || l.modulus == SOCKET_MODULUS)
    && 0 < l.ackSz <= l.unackLimit
    && l.maxInAir + l.ackSz <= l.maxAckInAir
    && l.maxInAir + 4 * l.ackSz < l.maxAckInAir + 2
    && l.maxFrame + l.unackLimit + l.ackSz <= l.maxInAir
    && l.unackLimit + l.ackSz <= l.maxAckInAir
    && l.maxAckInAir + l.keepAlive < FIRST_ACK_MARK % l.modulus <= l.modulus - l.unackLimit
  }

  function SerialLimits(): (l: Limits)
    ensures Sound(l)
  {
    Limits(SERIAL_MODULUS, SERIAL_ACK_SZ,
           SERIAL_RX_BUF - 1 - SERIAL_UNACKNOWLEDGED - SERIAL_ACKS_TO_RESERVE * SERIAL_ACK_SZ,
           SERIAL_RX_BUF - 1, SERIAL_UNACKNOWLEDGED, SERIAL_FRAME_SZ, 13000 * SERIAL_ACK_SZ)
  }

  /** The frame size is agreed in authentication and fixed after it. */
  function SocketLimits(frameSz: nat): (l: Limits)
    requires MIN_FRAME_SZ <= frameSz <= MAX_FRAME_SZ
    ensures Sound(l)
  {
    Limits(SOCKET_MODULUS, SOCKET_ACK_SZ, 44 * frameSz,
           44 * frameSz + SOCKET_UNACKNOWLEDGED + SOCKET_ACKS_TO_RESERVE * SOCKET_ACK_SZ,
           SOCKET_UNACKNOWLEDGED, frameSz, 2000000 * SOCKET_ACK_SZ)
  }

  // ---- The real counters of one end ----

  /** os_uint counters. */
  datatype Counters = Counters(sent: nat, processed: nat, received: nat, acknowledged: nat)

  /** Unsigned subtraction and the 16 or 24 bit mask. */
  function Masked(l: Limits, a: nat, b: nat): nat
    requires l.modulus > 0
  {
    (a - b) % WORD % l.modulus
  }

  function InAir(l: Limits, c: Counters): nat
    requires l.modulus > 0
  {
    Masked(l, c.sent, c.processed)
  }

  /** The checks of ioc_make_data_frame and ioc_finish_frame. */
  predicate DataFits(l: Limits, c: Counters, size: nat)
    requires l.modulus > 0
  {
    size <= l.maxInAir - InAir(l, c)
  }

  /** The two checks of ioc_acknowledge_as_needed. */
  predicate AckFits(l: Limits, c: Counters)
    requires l.modulus > 0
  {
    l.maxAckInAir - InAir(l, c) >= l.ackSz
  }

  predicate AckDue(l: Limits, c: Counters)
    requires l.modulus > 0
  {
    Masked(l, c.received, c.acknowledged) >= l.unackLimit
  }

  /** The masked difference of wrapped counters is the true difference. The
      second form is the counter which came in an acknowledge, of which only
      the masked part is known. */
  lemma MaskedIsExact(l: Limits, a: nat, b: nat)
    requires Sound(l) && b <= a && a - b < l.modulus
    ensures Masked(l, a % WORD, b % WORD) == a - b
    ensures Masked(l, a % WORD, b % l.modulus) == a - b
  {
    var m, q := l.modulus, WORD / l.modulus;
    assert WORD == q * m;
    MaskedWith(a, b, m, q, WORD);
    MaskedWith(a, b, m, q, m);
  }

  lemma MaskedWith(a: nat, b: nat, m: nat, q: nat, n: nat)
    requires m > 0 && WORD == q * m && b <= a && a - b < m && (n == WORD || n == m)
    ensures (a % WORD - b % n) % WORD % m == a - b
  {
    var d := a % WORD - b % n;
    var p := if n == WORD then q else 1;
    var x, y, z := a / WORD, b / n, d / WORD;
    assert a == a % WORD + WORD * x && b == b % n + n * y && d == d % WORD + WORD * z;
    Regroup(q, m, x);
    Regroup(p, m, y);
    Regroup(q, m, z);
    Collect(p * y, q * x, q * z, m);
    RemainderIs(d % WORD, a - b, m, p * y - q * x - q * z);
  }

  lemma Regroup(q: int, m: int, x: int)
    ensures q * m * x == q * x * m
  {
  }

  lemma Collect(u: int, v: int, w: int, m: int)
    ensures (u - v - w) * m == u * m - v * m - w * m
  {
  }
}
