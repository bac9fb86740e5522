/** Bytes, block ranges and the two ways a frame writes into a block.
    os_char arithmetic is 8-bit and wraps, so it is written out modulo 256. */
module Bytes {

  const BYTE_SPAN := 256

  newtype byte = x: int | 0 <= x < 256

  function Min(a: int, b: int): int {
    if a < b then a else b
  }

  function AddByte(a: byte, b: byte): (r: byte)
    ensures r as int == if a as int + b as int < 256 then a as int + b as int else a as int + b as int - 256
  {
    ((a as int + b as int) % BYTE_SPAN) as byte
  }

  function SubByte(a: byte, b: byte): (r: byte)
    ensures r as int == if a >= b then a as int - b as int else a as int - b as int + 256
  {
    ((a as int - b as int) % BYTE_SPAN) as byte
  }

  function Zeros(n: nat): (z: seq<byte>)
    ensures |z| == n && forall i :: 0 <= i < n ==> z[i] == 0
  {
    seq(n, i => 0)
  }

  /** `dst` with `data` stored from index `at` on. */
  function Overwrite(dst: seq<byte>, at: nat, data: seq<byte>): (r: seq<byte>)
    requires at + |data| <= |dst|
    ensures |r| == |dst|
  {
    seq(|dst|, i requires 0 <= i < |dst| => if at <= i < at + |data| then data[i - at] else dst[i])
  }

  /** `dst` with `data` added bytewise from index `at` on. */
  function Accumulate(dst: seq<byte>, at: nat, data: seq<byte>): (r: seq<byte>)
    requires at + |data| <= |dst|
    ensures |r| == |dst|
  {
    seq(|dst|, i requires 0 <= i < |dst| => if at <= i < at + |data| then AddByte(dst[i], data[i - at]) else dst[i])
  }

  /** What an uncompressed frame does to the receiver's data: delta encoded
      frames are added, the others stored. */
  function Apply(dst: seq<byte>, at: nat, data: seq<byte>, isDelta: bool): (r: seq<byte>)
    requires at + |data| <= |dst|
    ensures |r| == |dst|
  {
    if isDelta then Accumulate(dst, at, data) else Overwrite(dst, at, data)
  }

  lemma ApplyAt(dst: seq<byte>, at: nat, data: seq<byte>, isDelta: bool, i: nat)
    requires at + |data| <= |dst| && i < |dst|
    ensures Apply(dst, at, data, isDelta)[i] ==
            if at <= i < at + |data| then (if isDelta then AddByte(dst[i], data[i - at]) else data[i - at]) else dst[i]
  {
    hide AddByte;
    if isDelta {
      assert Apply(dst, at, data, true) == Accumulate(dst, at, data);
    }
  }

  /** Applying a piece and then the adjacent piece is applying both at once. */
  lemma ApplyConcat(dst: seq<byte>, at: nat, a: seq<byte>, b: seq<byte>, isDelta: bool)
    requires at + |a| + |b| <= |dst|
    ensures Apply(Apply(dst, at, a, isDelta), at + |a|, b, isDelta) == Apply(dst, at, a + b, isDelta)
  {
  }

  lemma ApplyEmpty(dst: seq<byte>, at: nat, isDelta: bool)
    requires at <= |dst|
    ensures Apply(dst, at, [], isDelta) == dst
  {
  }

  lemma SeqSlice<T>(s: seq<T>, lo: nat, i: nat, j: nat)
    requires lo <= |s| && i <= j <= |s| - lo
    ensures s[lo..][i..j] == s[lo + i..lo + j]
  {
    forall k | 0 <= k < j - i
      ensures s[lo..][i..j][k] == s[lo + i..lo + j][k]
    {
      assert s[lo..][i + k] == s[lo + i + k];
    }
  }
}
