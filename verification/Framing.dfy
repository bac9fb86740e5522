/** The bytes of a frame: ioc_generate_header, ioc_msg_set_uint and the frame size and
    flags filled in by ioc_make_data_frame (code/ioc_connection_send.c), against the
    decoding in ioc_connection_receive and ioc_msg_get_uint (code/ioc_connection_receive.c). */
module Framing {
  import opened Bytes
  import opened Modulo

  const ACKNOWLEDGE: byte := 255
  const MAX_FRAME_NR := 200
  const SERIAL_ACK_SIZE := 3
  const SOCKET_ACK_SIZE := 4
  const UINT_SPAN := 0x1_0000_0000

  // Flag bits of the header.
  const DELTA_ENCODED := 1
  const COMPRESSED := 2
  const ADDR_HAS_TWO_BYTES := 4
  const MBLK_HAS_TWO_BYTES := 8
  const SYNC_COMPLETE := 16
  const SYSTEM_FRAME := 32
  const EXTRA_FLAGS := 128

  // Bits of the extra flags byte, which is never zero.
  const EXTRA_ADDR_HAS_FOUR_BYTES := 1
  const EXTRA_MBLK_HAS_FOUR_BYTES := 2
  const EXTRA_NO_ZERO := 128

  predicate Bit(b: byte, mask: nat)
    requires mask > 0
  {
    (b as int / mask) % 2 == 1
  }

  function Flag(on: bool, mask: nat): nat {
    if on then mask else 0
  }

  // ---- Variable-width integers ----

  /** ioc_msg_set_uint: one, two or four bytes, low byte first. */
  function UintBytes(x: nat): (s: seq<byte>)
    requires x < UINT_SPAN
    ensures |s| == UintWidth(x)
  {
    if x < 0x100 then [x as byte]
    else if x < 0x1_0000 then [(x % 0x100) as byte, (x / 0x100) as byte]
    else [(x % 0x100) as byte, (x / 0x100 % 0x100) as byte, (x / 0x1_0000 % 0x100) as byte, (x / 0x100_0000) as byte]
  }

  function UintWidth(x: nat): nat {
    if x < 0x100 then 1 else if x < 0x1_0000 then 2 else 4
  }

  predicate TwoBytes(x: nat) {
    0x100 <= x < 0x1_0000
  }

  predicate FourBytes(x: nat) {
    0x1_0000 <= x
  }

  /** ioc_msg_get_uint: how many bytes it takes and their value. */
  function GotWidth(two: bool, four: bool): nat {
    if four then 4 else if two then 2 else 1
  }

  function GotUint(s: seq<byte>, two: bool, four: bool): nat
    requires |s| >= GotWidth(two, four)
  {
    s[0] as int
    + (if two || four then 0x100 * s[1] as int else 0)
    + (if four then 0x1_0000 * s[2] as int + 0x100_0000 * s[3] as int else 0)
  }

  /** Splitting off the lowest of several base-256 digits. */
  lemma LowDigit(x: nat, span: nat)
    requires span > 0
    ensures x % (0x100 * span) == x % 0x100 + 0x100 * (x / 0x100 % span)
  {
    var q := x / 0x100;
    var r := x % 0x100 + 0x100 * (q % span);
    assert q == span * (q / span) + q % span;
    assert x == 0x100 * q + x % 0x100;
    assert x == r + (q / span) * (0x100 * span);
    RemainderIs(x, r, 0x100 * span, q / span);
  }

  lemma UintRoundTrip(x: nat, rest: seq<byte>)
    requires x < UINT_SPAN
    ensures var s := UintBytes(x) + rest;
            && GotWidth(TwoBytes(x), FourBytes(x)) == UintWidth(x)
            && GotUint(s, TwoBytes(x), FourBytes(x)) == x
            && s[UintWidth(x)..] == rest
  {
    var s := UintBytes(x) + rest;
    FourDigits(x);
  }

  lemma FourDigits(x: nat)
    requires x < UINT_SPAN
    ensures x == x % 0x100 + 0x100 * (x / 0x100 % 0x100) + 0x1_0000 * (x / 0x1_0000 % 0x100) + 0x100_0000 * (x / 0x100_0000)
  {
  }

  // ---- Headers ----

  /** What a frame says besides its data. */
  datatype Header = Header(nr: byte, isDelta: bool, compressed: bool, complete: bool, system: bool,
                           mblkId: nat, addr: nat)

  predicate ValidHeader(h: Header) {
    h.mblkId < UINT_SPAN && h.addr < UINT_SPAN
  }

  predicate NeedsExtra(h: Header) {
    FourBytes(h.mblkId) || FourBytes(h.addr)
  }

  function FlagsByte(h: Header): byte {
    (Flag(h.isDelta, DELTA_ENCODED) + Flag(h.compressed, COMPRESSED)
     + Flag(TwoBytes(h.addr), ADDR_HAS_TWO_BYTES) + Flag(TwoBytes(h.mblkId), MBLK_HAS_TWO_BYTES)
     + Flag(h.complete, SYNC_COMPLETE) + Flag(h.system, SYSTEM_FRAME) + Flag(NeedsExtra(h), EXTRA_FLAGS)) as byte
  }

  function ExtraByte(h: Header): byte {
    (EXTRA_NO_ZERO + Flag(FourBytes(h.addr), EXTRA_ADDR_HAS_FOUR_BYTES)
     + Flag(FourBytes(h.mblkId), EXTRA_MBLK_HAS_FOUR_BYTES)) as byte
  }

  lemma FlagsDecode(h: Header)
    ensures var f := FlagsByte(h);
            && Bit(f, DELTA_ENCODED) == h.isDelta && Bit(f, COMPRESSED) == h.compressed
            && Bit(f, ADDR_HAS_TWO_BYTES) == TwoBytes(h.addr) && Bit(f, MBLK_HAS_TWO_BYTES) == TwoBytes(h.mblkId)
            && Bit(f, SYNC_COMPLETE) == h.complete && Bit(f, SYSTEM_FRAME) == h.system
            && Bit(f, EXTRA_FLAGS) == NeedsExtra(h)
  {
    hide TwoBytes, FourBytes, Bit;
    var f := FlagsByte(h);
    var high := Flag(h.complete, SYNC_COMPLETE) + Flag(h.system, SYSTEM_FRAME) + Flag(NeedsExtra(h), EXTRA_FLAGS);
    LowFlags(f, h.isDelta, h.compressed, TwoBytes(h.addr), TwoBytes(h.mblkId), high / 16);
    HighFlags(f, f as int - high, h.complete, h.system, NeedsExtra(h));
  }

  lemma LowFlags(f: byte, a: bool, b: bool, c: bool, d: bool, high: nat)
    requires f as int == Flag(a, 1) + Flag(b, 2) + Flag(c, 4) + Flag(d, 8) + 16 * high
    ensures Bit(f, 1) == a && Bit(f, 2) == b && Bit(f, 4) == c && Bit(f, 8) == d
  {
    assert f as int / 2 == Flag(b, 1) + Flag(c, 2) + Flag(d, 4) + 8 * high;
    assert f as int / 4 == Flag(c, 1) + Flag(d, 2) + 4 * high;
    assert f as int / 8 == Flag(d, 1) + 2 * high;
  }

  lemma HighFlags(f: byte, low: nat, a: bool, b: bool, c: bool)
    requires low < 16 && f as int == low + Flag(a, 16) + Flag(b, 32) + Flag(c, 128)
    ensures Bit(f, 16) == a && Bit(f, 32) == b && Bit(f, 128) == c
  {
    assert f as int / 16 == Flag(a, 1) + Flag(b, 2) + Flag(c, 8);
    assert f as int / 32 == Flag(b, 1) + Flag(c, 4);
  }

  lemma ExtraDecode(h: Header)
    ensures var e := ExtraByte(h);
            && e != 0 && Bit(e, EXTRA_ADDR_HAS_FOUR_BYTES) == FourBytes(h.addr)
            && Bit(e, EXTRA_MBLK_HAS_FOUR_BYTES) == FourBytes(h.mblkId)
  {
  }

  /** The bytes in front of the memory block identifier. */
  function FixedSize(serial: bool): nat {
    if serial then 5 else 4
  }

  function HeaderSize(serial: bool, h: Header): (n: nat)
    ensures n > FixedSize(serial)
  {
    FixedSize(serial) + (if NeedsExtra(h) then 1 else 0) + UintWidth(h.mblkId) + UintWidth(h.addr)
  }

  /** Memory block identifier and address, with the extra flags before them. */
  function AddressBytes(h: Header): (s: seq<byte>)
    requires ValidHeader(h)
    ensures |s| == (if NeedsExtra(h) then 1 else 0) + UintWidth(h.mblkId) + UintWidth(h.addr)
  {
    (if NeedsExtra(h) then [ExtraByte(h)] else []) + UintBytes(h.mblkId) + UintBytes(h.addr)
  }

  /** Frame number, checksum (serial only), flags and data size. */
  function FixedBytes(serial: bool, nr: byte, flags: byte, sz: nat, crc: nat): (s: seq<byte>)
    requires crc < 0x1_0000 && sz < (if serial then 0x100 else 0x1_0000)
    ensures |s| == FixedSize(serial)
  {
    if serial then [nr, (crc % 0x100) as byte, (crc / 0x100) as byte, flags, sz as byte]
    else [nr, flags, (sz % 0x100) as byte, (sz / 0x100) as byte]
  }

  /** A whole frame; `crc` is the checksum in its two bytes (serial only). */
  function FrameBytes(serial: bool, h: Header, data: seq<byte>, crc: nat): (s: seq<byte>)
    requires ValidHeader(h) && crc < 0x1_0000 && |data| < (if serial then 0x100 else 0x1_0000)
    ensures |s| == HeaderSize(serial, h) + |data|
  {
    FixedBytes(serial, h.nr, FlagsByte(h), |data|, crc) + (AddressBytes(h) + data)
  }

  // ---- The receiver's view ----

  /** What the reader knows about the frame in its buffer. */
  datatype Sizing = Ack | Unknown(needed: nat) | Known(needed: nat) | TooBig

  function AckSize(serial: bool): nat {
    if serial then SERIAL_ACK_SIZE else SOCKET_ACK_SIZE
  }

  /** The smallest data frame. */
  function MinSize(serial: bool): nat {
    FixedSize(serial) + 2
  }

  function RxFlags(serial: bool, buf: seq<byte>): byte
    requires |buf| > FixedSize(serial)
  {
    if serial then buf[3] else buf[1]
  }

  function RxDataSize(serial: bool, buf: seq<byte>): nat
    requires |buf| > FixedSize(serial)
  {
    if serial then buf[4] as int else buf[2] as int + 0x100 * buf[3] as int
  }

  function RxExtra(serial: bool, buf: seq<byte>): byte
    requires |buf| > FixedSize(serial)
  {
    if Bit(RxFlags(serial, buf), EXTRA_FLAGS) then buf[FixedSize(serial)] else 0
  }

  function Widening(two: bool, four: bool): nat {
    if four then 3 else if two then 1 else 0
  }

  /** The frame size computed in ioc_read_frame. */
  function RxNeeded(serial: bool, buf: seq<byte>): nat
    requires |buf| > FixedSize(serial)
  {
    var flags, extra := RxFlags(serial, buf), RxExtra(serial, buf);
    RxDataSize(serial, buf) + MinSize(serial)
    + (if Bit(flags, EXTRA_FLAGS) then 1 else 0)
    + Widening(Bit(flags, MBLK_HAS_TWO_BYTES), Bit(extra, EXTRA_MBLK_HAS_FOUR_BYTES))
    + Widening(Bit(flags, ADDR_HAS_TWO_BYTES), Bit(extra, EXTRA_ADDR_HAS_FOUR_BYTES))
  }

  function Size(serial: bool, frameSz: nat, buf: seq<byte>): Sizing {
    if |buf| >= 1 && buf[0] == ACKNOWLEDGE then Ack
    else if |buf| > FixedSize(serial) then
      (if RxNeeded(serial, buf) > frameSz then TooBig else Known(RxNeeded(serial, buf)))
    else if |buf| >= 1 then Unknown(MinSize(serial))
    else Unknown(AckSize(serial))
  }

  /** ioc_connection_receive: header fields and data of a complete frame. */
  datatype Decoded = Decoded(header: Header, data: seq<byte>)

  function Decode(serial: bool, buf: seq<byte>): Decoded
    requires |buf| > FixedSize(serial) && |buf| == RxNeeded(serial, buf)
  {
    var flags, extra := RxFlags(serial, buf), RxExtra(serial, buf);
    var p := buf[FixedSize(serial) + (if extra != 0 then 1 else 0)..];
    var two, four := Bit(flags, MBLK_HAS_TWO_BYTES), Bit(extra, EXTRA_MBLK_HAS_FOUR_BYTES);
    var two', four' := Bit(flags, ADDR_HAS_TWO_BYTES), Bit(extra, EXTRA_ADDR_HAS_FOUR_BYTES);
    DecodeRoom(serial, buf);
    var q := p[GotWidth(two, four)..];
    Decoded(Header(buf[0], Bit(flags, DELTA_ENCODED), Bit(flags, COMPRESSED), Bit(flags, SYNC_COMPLETE),
                   Bit(flags, SYSTEM_FRAME), GotUint(p, two, four), GotUint(q, two', four')),
            q[GotWidth(two', four')..])
  }

  lemma DecodeRoom(serial: bool, buf: seq<byte>)
    requires |buf| > FixedSize(serial) && |buf| == RxNeeded(serial, buf)
    ensures var flags, extra := RxFlags(serial, buf), RxExtra(serial, buf);
            |buf| - FixedSize(serial) - (if extra != 0 then 1 else 0) >=
            GotWidth(Bit(flags, MBLK_HAS_TWO_BYTES), Bit(extra, EXTRA_MBLK_HAS_FOUR_BYTES))
            + GotWidth(Bit(flags, ADDR_HAS_TWO_BYTES), Bit(extra, EXTRA_ADDR_HAS_FOUR_BYTES))
  {
    hide Bit;
  }

  // ---- Round trip ----

  /** The fields the receiver finds at fixed places. */
  lemma FixedFields(serial: bool, h: Header, data: seq<byte>, crc: nat)
    requires ValidHeader(h) && crc < 0x1_0000 && |data| < (if serial then 0x100 else 0x1_0000)
    ensures var s := FrameBytes(serial, h, data, crc);
            && |s| >= MinSize(serial) && s[0] == h.nr
            && RxFlags(serial, s) == FlagsByte(h) && RxDataSize(serial, s) == |data|
            && s[FixedSize(serial)..] == AddressBytes(h) + data
  {
    hide FlagsByte, AddressBytes;
  }

  lemma ExtraField(serial: bool, h: Header, data: seq<byte>, crc: nat)
    requires ValidHeader(h) && crc < 0x1_0000 && |data| < (if serial then 0x100 else 0x1_0000)
    ensures var s := FrameBytes(serial, h, data, crc);
            && RxExtra(serial, s) == (if NeedsExtra(h) then ExtraByte(h) else 0)
            && (RxExtra(serial, s) != 0 <==> NeedsExtra(h))
            && Bit(RxExtra(serial, s), EXTRA_MBLK_HAS_FOUR_BYTES) == FourBytes(h.mblkId)
            && Bit(RxExtra(serial, s), EXTRA_ADDR_HAS_FOUR_BYTES) == FourBytes(h.addr)
  {
    var s := FrameBytes(serial, h, data, crc);
    FixedFields(serial, h, data, crc);
    FlagsDecode(h);
    ExtraDecode(h);
    hide FrameBytes, FlagsByte, ExtraByte, UintBytes, Bit;
    assert s[FixedSize(serial)] == (AddressBytes(h) + data)[0];
    ZeroBits();
  }

  lemma ZeroBits()
    ensures !Bit(0, EXTRA_MBLK_HAS_FOUR_BYTES) && !Bit(0, EXTRA_ADDR_HAS_FOUR_BYTES)
  {
  }

  /** The receiver computes the size of the frame which was printed. */
  lemma NeededIsSize(serial: bool, h: Header, data: seq<byte>, crc: nat)
    requires ValidHeader(h) && crc < 0x1_0000 && |data| < (if serial then 0x100 else 0x1_0000)
    ensures var s := FrameBytes(serial, h, data, crc);
            |s| > FixedSize(serial) && RxNeeded(serial, s) == |s|
  {
    FixedFields(serial, h, data, crc);
    ExtraField(serial, h, data, crc);
    FlagsDecode(h);
    hide FrameBytes, FlagsByte, RxFlags, RxDataSize, RxExtra, Bit;
  }

  lemma AddressDecodes(h: Header, data: seq<byte>)
    requires ValidHeader(h)
    ensures var p := (AddressBytes(h) + data)[if NeedsExtra(h) then 1 else 0..];
            && p == UintBytes(h.mblkId) + (UintBytes(h.addr) + data)
  {
    hide UintBytes, ExtraByte;
  }

  /** The identifier and address fields as the receiver finds them. */
  lemma FieldsDecode(serial: bool, h: Header, data: seq<byte>, crc: nat)
    requires ValidHeader(h) && crc < 0x1_0000 && |data| < (if serial then 0x100 else 0x1_0000)
    ensures var s := FrameBytes(serial, h, data, crc);
            var p := s[FixedSize(serial) + (if NeedsExtra(h) then 1 else 0)..];
            && p == UintBytes(h.mblkId) + (UintBytes(h.addr) + data)
            && GotWidth(TwoBytes(h.mblkId), FourBytes(h.mblkId)) == UintWidth(h.mblkId)
            && GotUint(p, TwoBytes(h.mblkId), FourBytes(h.mblkId)) == h.mblkId
            && var q := p[UintWidth(h.mblkId)..];
               && q == UintBytes(h.addr) + data
               && GotWidth(TwoBytes(h.addr), FourBytes(h.addr)) == UintWidth(h.addr)
               && GotUint(q, TwoBytes(h.addr), FourBytes(h.addr)) == h.addr
               && q[UintWidth(h.addr)..] == data
  {
    var s := FrameBytes(serial, h, data, crc);
    FixedFields(serial, h, data, crc);
    AddressDecodes(h, data);
    UintRoundTrip(h.mblkId, UintBytes(h.addr) + data);
    UintRoundTrip(h.addr, data);
    hide FrameBytes, RxFlags, RxDataSize, AddressBytes, UintBytes, GotUint;
    hide TwoBytes, FourBytes, GotWidth, UintWidth;
    var x := if NeedsExtra(h) then 1 else 0;
    assert s[FixedSize(serial) + x..] == s[FixedSize(serial)..][x..];
  }

  /** Codec round trip: for every block identifier and address of 32 bits, both
      header layouts and all data that fit the size field, the receiver decodes
      the header and data which were printed. */
  lemma FrameRoundTrip(serial: bool, h: Header, data: seq<byte>, crc: nat)
    requires ValidHeader(h) && crc < 0x1_0000 && |data| < (if serial then 0x100 else 0x1_0000)
    ensures var s := FrameBytes(serial, h, data, crc);
            && |s| > FixedSize(serial) && |s| == RxNeeded(serial, s)
            && Decode(serial, s) == Decoded(h, data)
  {
    hide FrameBytes, FlagsByte, ExtraByte, RxFlags, RxDataSize, RxExtra, RxNeeded, Bit, AddressBytes, UintBytes;
    hide GotUint, NeedsExtra, TwoBytes, FourBytes, GotWidth, UintWidth;
    NeededIsSize(serial, h, data, crc);
    FixedFields(serial, h, data, crc);
    ExtraField(serial, h, data, crc);
    FlagsDecode(h);
    FieldsDecode(serial, h, data, crc);
  }

  // ---- The bytes on the wire ----

  /** `w` bytes from `at` on are the number `x`, low byte first. */
  predicate Stands(s: seq<byte>, at: nat, x: nat, w: nat) {
    at + w <= |s| &&
    if w == 1 then s[at] as int == x
    else if w == 2 then s[at] as int + 256 * s[at + 1] as int == x
    else w == 4 && s[at] as int + 256 * s[at + 1] as int + 65536 * s[at + 2] as int + 16777216 * s[at + 3] as int == x
  }

  lemma UintStands(x: nat)
    requires x < UINT_SPAN
    ensures Stands(UintBytes(x), 0, x, if x < 256 then 1 else if x < 65536 then 2 else 4)
  {
    FourDigits(x);
  }

  lemma StandsInside(s: seq<byte>, lead: seq<byte>, part: seq<byte>, rest: seq<byte>, x: nat, w: nat)
    requires s == lead + (part + rest) && Stands(part, 0, x, w)
    ensures Stands(s, |lead|, x, w)
  {
    assert forall k :: 0 <= k < |part| ==> s[|lead| + k] == part[k];
  }

  /** The fixed part of a frame, byte by byte: frame number, checksum on a serial line,
      flags, data size in one or two bytes. */
  lemma FixedLayout(serial: bool, h: Header, data: seq<byte>, crc: nat)
    requires ValidHeader(h) && crc < 0x1_0000 && |data| < (if serial then 0x100 else 0x1_0000)
    ensures var s := FrameBytes(serial, h, data, crc);
      var flags := (if h.isDelta then 1 else 0) + (if h.compressed then 2 else 0)
        + (if 256 <= h.addr < 65536 then 4 else 0) + (if 256 <= h.mblkId < 65536 then 8 else 0)
        + (if h.complete then 16 else 0) + (if h.system then 32 else 0)
        + (if h.addr >= 65536 || h.mblkId >= 65536 then 128 else 0);
      && |s| >= 6 && s[0] == h.nr
      && (if serial then Stands(s, 1, crc, 2) && s[3] as int == flags && Stands(s, 4, |data|, 1)
          else s[1] as int == flags && Stands(s, 2, |data|, 2))
  {
    hide AddressBytes;
  }

  /** The rest: extra flags where a number needs four bytes, block identifier, address,
      data. */
  lemma AddressLayout(serial: bool, h: Header, data: seq<byte>, crc: nat)
    requires ValidHeader(h) && crc < 0x1_0000 && |data| < (if serial then 0x100 else 0x1_0000)
    ensures var s := FrameBytes(serial, h, data, crc);
      var wide := h.addr >= 65536 || h.mblkId >= 65536;
      var extra := 128 + (if h.addr >= 65536 then 1 else 0) + (if h.mblkId >= 65536 then 2 else 0);
      var fixed := if serial then 5 else 4;
      var at := if wide then fixed + 1 else fixed;
      var m := if h.mblkId < 256 then 1 else if h.mblkId < 65536 then 2 else 4;
      var a := if h.addr < 256 then 1 else if h.addr < 65536 then 2 else 4;
      && |s| == at + m + a + |data|
      && (wide ==> s[fixed] as int == extra)
      && Stands(s, at, h.mblkId, m) && Stands(s, at + m, h.addr, a) && s[at + m + a..] == data
  {
    hide FrameBytes, AddressBytes, FixedBytes, FlagsByte, ExtraByte, UintBytes, Stands;
    var front := FrameParts(serial, h, data, crc);
    var s := FrameBytes(serial, h, data, crc);
    UintStands(h.mblkId);
    UintStands(h.addr);
    StandsInside(s, front, UintBytes(h.mblkId), UintBytes(h.addr) + data, h.mblkId, UintWidth(h.mblkId));
    assert s == front + UintBytes(h.mblkId) + (UintBytes(h.addr) + data);
    StandsInside(s, front + UintBytes(h.mblkId), UintBytes(h.addr), data, h.addr, UintWidth(h.addr));
    assert s == front + UintBytes(h.mblkId) + UintBytes(h.addr) + data;
  }

  /** The bytes in front of the block identifier. */
  lemma FrameParts(serial: bool, h: Header, data: seq<byte>, crc: nat) returns (front: seq<byte>)
    requires ValidHeader(h) && crc < 0x1_0000 && |data| < (if serial then 0x100 else 0x1_0000)
    ensures FrameBytes(serial, h, data, crc) == front + (UintBytes(h.mblkId) + (UintBytes(h.addr) + data))
    ensures |front| == FixedSize(serial) + if NeedsExtra(h) then 1 else 0
    ensures NeedsExtra(h) ==>
      var extra := 128 + (if h.addr >= 65536 then 1 else 0) + (if h.mblkId >= 65536 then 2 else 0);
      front[FixedSize(serial)] as int == extra
  {
    hide FlagsByte, UintBytes;
    front := FixedBytes(serial, h.nr, FlagsByte(h), |data|, crc) + if NeedsExtra(h) then [ExtraByte(h)] else [];
    hide FixedBytes, ExtraByte;
    assert AddressBytes(h) + data == (if NeedsExtra(h) then [ExtraByte(h)] else []) + (UintBytes(h.mblkId) + (UintBytes(h.addr) + data));
  }
}
