/** The memory block information frame: ioc_make_mblk_info_frame and ioc_msg_setstr
    (code/ioc_connection_send.c) against ioc_process_received_mbinfo_frame
    (code/ioc_memory_block_info.c) and ioc_msg_getstr. */
module InfoCodec {
  import opened Bytes
  import opened Framing

  const SYSFRAME_MBLK_INFO: byte := 1
  const NAME_SZ := 16
  const NETWORK_NAME_SZ := 24

  const INFO_D_2BYTES := 2
  const INFO_D_4BYTES := 4
  const INFO_N_2BYTES := 8
  const INFO_N_4BYTES := 16
  const INFO_F_2BYTES := 32
  const INFO_HAS_DEVICE_NAME := 64
  const INFO_HAS_MBLK_NAME := 128

  /** The fields which are sent; the block identifier travels in the header. */
  datatype Info = Info(deviceNr: nat, nbytes: nat, flags: nat, deviceName: seq<byte>, networkName: seq<byte>,
                       mblkName: seq<byte>)

  predicate ValidInfo(i: Info) {
    && i.deviceNr < UINT_SPAN && i.nbytes < UINT_SPAN && i.flags < 0x1_0000
    && |i.deviceName| < NAME_SZ && |i.networkName| < NETWORK_NAME_SZ && |i.mblkName| < NAME_SZ
  }

  /** ioc_msg_setstr: length byte and characters. */
  function StrBytes(s: seq<byte>): seq<byte>
    requires |s| < 0x100
  {
    [|s| as byte] + s
  }

  /** ioc_msg_set_ushort. */
  function UshortBytes(x: nat): seq<byte>
    requires x < 0x1_0000
  {
    if x < 0x100 then [x as byte] else [(x % 0x100) as byte, (x / 0x100) as byte]
  }

  function InfoFlags(i: Info): byte {
    (Flag(TwoBytes(i.deviceNr), INFO_D_2BYTES) + Flag(FourBytes(i.deviceNr), INFO_D_4BYTES)
     + Flag(TwoBytes(i.nbytes), INFO_N_2BYTES) + Flag(FourBytes(i.nbytes), INFO_N_4BYTES)
     + Flag(i.flags >= 0x100, INFO_F_2BYTES) + Flag(i.deviceName != [], INFO_HAS_DEVICE_NAME)
     + Flag(i.mblkName != [], INFO_HAS_MBLK_NAME)) as byte
  }

  function NameBytes(i: Info): seq<byte>
    requires ValidInfo(i)
  {
    (if i.deviceName != [] then StrBytes(i.deviceName) + StrBytes(i.networkName) else [])
    + (if i.mblkName != [] then StrBytes(i.mblkName) else [])
  }

  function InfoBytes(i: Info): seq<byte>
    requires ValidInfo(i)
  {
    [SYSFRAME_MBLK_INFO, InfoFlags(i)]
    + (UintBytes(i.deviceNr) + (UintBytes(i.nbytes) + (UshortBytes(i.flags) + NameBytes(i))))
  }

  // ---- Decoding ----

  datatype Parsed<T> = Bad | Parsed(value: T, rest: seq<byte>)

  function GetUint(s: seq<byte>, two: bool, four: bool): Parsed<nat> {
    if |s| < GotWidth(two, four) then Bad else Parsed(GotUint(s, two, four), s[GotWidth(two, four)..])
  }

  /** ioc_msg_getstr fails when the string does not fit its field. */
  function GetStr(s: seq<byte>, size: nat): Parsed<seq<byte>> {
    if s == [] || s[0] as int >= size || 1 + s[0] as int > |s| then Bad
    else Parsed(s[1..1 + s[0] as int], s[1 + s[0] as int..])
  }

  function GetStrIf(present: bool, s: seq<byte>, size: nat): Parsed<seq<byte>> {
    if present then GetStr(s, size) else Parsed([], s)
  }

  function DecodeNames(s: seq<byte>, hasDevice: bool, hasMblk: bool, deviceNr: nat, nbytes: nat, flags: nat): Parsed<Info> {
    var device := GetStrIf(hasDevice, s, NAME_SZ);
    if device.Bad? then Bad
    else
      var network := GetStrIf(hasDevice, device.rest, NETWORK_NAME_SZ);
      if network.Bad? then Bad
      else
        var mblk := GetStrIf(hasMblk, network.rest, NAME_SZ);
        if mblk.Bad? then Bad
        else Parsed(Info(deviceNr, nbytes, flags, device.value, network.value, mblk.value), mblk.rest)
  }

  /** ioc_process_received_mbinfo_frame, up to the decoded structure. */
  function DecodeInfo(s: seq<byte>): Parsed<Info> {
    if |s| < 2 then Bad
    else
      var f := s[1];
      var d := GetUint(s[2..], Bit(f, INFO_D_2BYTES), Bit(f, INFO_D_4BYTES));
      if d.Bad? then Bad
      else
        var n := GetUint(d.rest, Bit(f, INFO_N_2BYTES), Bit(f, INFO_N_4BYTES));
        if n.Bad? then Bad
        else
          var g := GetUint(n.rest, Bit(f, INFO_F_2BYTES), false);
          if g.Bad? then Bad
          else DecodeNames(g.rest, Bit(f, INFO_HAS_DEVICE_NAME), Bit(f, INFO_HAS_MBLK_NAME), d.value, n.value, g.value)
  }

  // ---- Round trip ----

  lemma InfoFlagsDecode(i: Info)
    ensures var f := InfoFlags(i);
            && Bit(f, INFO_D_2BYTES) == TwoBytes(i.deviceNr) && Bit(f, INFO_D_4BYTES) == FourBytes(i.deviceNr)
            && Bit(f, INFO_N_2BYTES) == TwoBytes(i.nbytes) && Bit(f, INFO_N_4BYTES) == FourBytes(i.nbytes)
            && Bit(f, INFO_F_2BYTES) == (i.flags >= 0x100)
            && Bit(f, INFO_HAS_DEVICE_NAME) == (i.deviceName != []) && Bit(f, INFO_HAS_MBLK_NAME) == (i.mblkName != [])
  {
    hide TwoBytes, FourBytes, Bit;
    var f := InfoFlags(i);
    var high := Flag(FourBytes(i.nbytes), 1) + Flag(i.flags >= 0x100, 2) + Flag(i.deviceName != [], 4) + Flag(i.mblkName != [], 8);
    LowFlags(f, false, TwoBytes(i.deviceNr), FourBytes(i.deviceNr), TwoBytes(i.nbytes), high);
    TopFlags(f, f as int - 16 * high, FourBytes(i.nbytes), i.flags >= 0x100, i.deviceName != [], i.mblkName != []);
  }

  lemma TopFlags(f: byte, low: nat, a: bool, b: bool, c: bool, d: bool)
    requires low < 16 && f as int == low + Flag(a, 16) + Flag(b, 32) + Flag(c, 64) + Flag(d, 128)
    ensures Bit(f, 16) == a && Bit(f, 32) == b && Bit(f, 64) == c && Bit(f, 128) == d
  {
    assert f as int / 16 == Flag(a, 1) + Flag(b, 2) + Flag(c, 4) + Flag(d, 8);
    assert f as int / 32 == Flag(b, 1) + Flag(c, 2) + Flag(d, 4);
    assert f as int / 64 == Flag(c, 1) + Flag(d, 2);
  }

  lemma UintParses(x: nat, rest: seq<byte>)
    requires x < UINT_SPAN
    ensures GetUint(UintBytes(x) + rest, TwoBytes(x), FourBytes(x)) == Parsed(x, rest)
  {
    UintRoundTrip(x, rest);
    hide UintBytes, GotUint, GotWidth, TwoBytes, FourBytes;
  }

  lemma UshortParses(x: nat, rest: seq<byte>)
    requires x < 0x1_0000
    ensures GetUint(UshortBytes(x) + rest, x >= 0x100, false) == Parsed(x, rest)
  {
    assert UshortBytes(x) == UintBytes(x);
    assert (x >= 0x100) == TwoBytes(x) && !FourBytes(x);
    hide UshortBytes, UintBytes, GetUint, TwoBytes, FourBytes;
    UintParses(x, rest);
  }

  lemma StrParses(s: seq<byte>, size: nat, rest: seq<byte>)
    requires |s| < size <= 0x100
    ensures GetStr(StrBytes(s) + rest, size) == Parsed(s, rest)
  {
  }

  lemma NamesDecode(i: Info)
    requires ValidInfo(i)
    ensures DecodeNames(NameBytes(i), i.deviceName != [], i.mblkName != [], i.deviceNr, i.nbytes, i.flags)
         == Parsed(i.(networkName := if i.deviceName != [] then i.networkName else []), [])
  {
    hide GetStr, StrBytes;
    var tail: seq<byte> := if i.mblkName != [] then StrBytes(i.mblkName) else [];
    if i.mblkName != [] {
      StrParses(i.mblkName, NAME_SZ, []);
      assert StrBytes(i.mblkName) + [] == StrBytes(i.mblkName);
    }
    if i.deviceName != [] {
      assert NameBytes(i) == StrBytes(i.deviceName) + (StrBytes(i.networkName) + tail);
      StrParses(i.deviceName, NAME_SZ, StrBytes(i.networkName) + tail);
      StrParses(i.networkName, NETWORK_NAME_SZ, tail);
    } else {
      assert NameBytes(i) == tail;
    }
  }

  /** Block information comes back with the same fields, except that a network
      name is not sent when the device name is empty. */
  lemma InfoDecodes(i: Info)
    requires ValidInfo(i)
    ensures DecodeInfo(InfoBytes(i)) == Parsed(i.(networkName := if i.deviceName != [] then i.networkName else []), [])
  {
    var s := InfoBytes(i);
    InfoFlagsDecode(i);
    hide InfoFlags, Bit, GetUint, UintBytes, UshortBytes, NameBytes, DecodeNames, TwoBytes, FourBytes;
    var r3 := UshortBytes(i.flags) + NameBytes(i);
    var r2 := UintBytes(i.nbytes) + r3;
    assert s[2..] == UintBytes(i.deviceNr) + r2;
    UintParses(i.deviceNr, r2);
    UintParses(i.nbytes, r3);
    UshortParses(i.flags, NameBytes(i));
    NamesDecode(i);
  }

  /** Round trip exactly when the device has a name or the network has none. */
  lemma InfoRoundTrip(i: Info)
    requires ValidInfo(i)
    ensures DecodeInfo(InfoBytes(i)) == Parsed(i, []) <==> (i.deviceName != [] || i.networkName == [])
  {
    hide InfoBytes, DecodeInfo;
    InfoDecodes(i);
  }

  /** A network name which is lost. */
  lemma NetworkNameLost()
    ensures var i := Info(1, 24, 2, [], [110], [101]);
            ValidInfo(i) && DecodeInfo(InfoBytes(i)) == Parsed(i.(networkName := []), []) && i.networkName != []
  {
    hide InfoBytes, DecodeInfo;
    InfoDecodes(Info(1, 24, 2, [], [110], [101]));
  }

  /** The bytes of one block's information on the wire: device number 300, 70000 bytes,
      flags 3, device "ab", network "n", block "exp". */
  lemma InfoOnWire()
    ensures InfoBytes(Info(300, 70000, 3, [97, 98], [110], [101, 120, 112])) ==
      [1, 2 + 16 + 64 + 128, 44, 1, 112, 17, 1, 0, 3, 2, 97, 98, 1, 110, 3, 101, 120, 112]
  {
    var i := Info(300, 70000, 3, [97, 98], [110], [101, 120, 112]);
    assert UintBytes(300) == [44, 1] && UintBytes(70000) == [112, 17, 1, 0];
    assert NameBytes(i) == [2, 97, 98, 1, 110, 3, 101, 120, 112];
  }

  /** A name that does not fit its field, or is longer than what has come, is refused. */
  lemma LongNameRefused(s: seq<byte>, size: nat)
    requires s != []
    ensures GetStr(s, size).Bad? <==> s[0] as int >= size || s[0] as int > |s| - 1
  {
  }

  /** Names of at most 15 characters, network names of at most 23, and 32-bit numbers can
      be sent. */
  lemma ValidIff(i: Info)
    ensures ValidInfo(i) <==>
      && |i.deviceName| <= 15 && |i.mblkName| <= 15 && |i.networkName| <= 23
      && i.deviceNr <= 0xFFFF_FFFF && i.nbytes <= 0xFFFF_FFFF && i.flags <= 0xFFFF
  {
  }
}
