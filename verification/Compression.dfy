/** code/ioc_compress.c: zero-run compression of a byte range.
    The compressed form alternates a count of literal bytes followed by those
    bytes with a count of zero bytes. */
module Compression {
  import opened Bytes

  const MAX_RUN := 255

  function RunCap(s: seq<byte>): (cap: nat)
    ensures cap <= |s| && cap <= MAX_RUN
  {
    if |s| > MAX_RUN then MAX_RUN else |s|
  }

  /** The literal run stops before two zeros, or before one zero which ends
      the window of at most 255 bytes. */
  predicate ContinuesLiteral(s: seq<byte>, c: nat) {
    c < RunCap(s) && (s[c] != 0 || (c + 1 < RunCap(s) && s[c + 1] != 0))
  }

  function LiteralRun(s: seq<byte>, c: nat): (r: nat)
    requires c <= RunCap(s)
    ensures c <= r <= RunCap(s)
    ensures !ContinuesLiteral(s, r)
    decreases RunCap(s) - c
  {
    if ContinuesLiteral(s, c) then LiteralRun(s, c + 1) else c
  }

  function ZeroRun(s: seq<byte>, c: nat): (r: nat)
    requires c <= RunCap(s)
    ensures c <= r <= RunCap(s)
    ensures r == RunCap(s) || s[r] != 0
    ensures forall i :: c <= i < r ==> s[i] == 0
    decreases RunCap(s) - c
  {
    if c < RunCap(s) && s[c] == 0 then ZeroRun(s, c + 1) else c
  }

  /** The window of bytes one run can cover. */
  function Window(s: seq<byte>): nat {
    if |s| > 255 then 255 else |s|
  }

  /** A literal run of `r` bytes from `c` on: each byte is nonzero or comes right before a
      nonzero byte of the window, and the run ends at the window's end, before two zeros,
      or before one zero that ends the window. */
  ghost predicate LiteralSpan(s: seq<byte>, c: nat, r: nat) {
    && c <= r <= Window(s)
    && (forall i :: c <= i < r ==> s[i] != 0 || (i + 1 < Window(s) && s[i + 1] != 0))
    && (r < Window(s) ==> s[r] == 0 && (r + 1 == Window(s) || s[r + 1] == 0))
  }

  lemma {:induction false} LiteralRunIs(s: seq<byte>, c: nat)
    requires c <= RunCap(s)
    ensures LiteralSpan(s, c, LiteralRun(s, c))
    decreases RunCap(s) - c
  {
    if ContinuesLiteral(s, c) {
      LiteralRunIs(s, c + 1);
      var r := LiteralRun(s, c);
      assert r == LiteralRun(s, c + 1);
      forall i | c <= i < r ensures s[i] != 0 || (i + 1 < Window(s) && s[i + 1] != 0) {
        if i > c {
          assert c + 1 <= i;
        }
      }
    }
  }

  /** A zero run takes every zero up to the next nonzero byte or the window's end. */
  lemma ZeroRunIs(s: seq<byte>)
    ensures var r := ZeroRun(s, 0);
      && r <= Window(s) && (r < Window(s) ==> s[r] != 0)
      && forall i :: 0 <= i < r ==> s[i] == 0
  {
  }

  datatype Packed = Packed(out: seq<byte>, taken: nat)

  /** A literal run of `c` bytes, a zero run of `z` bytes, then `more`. */
  function JoinRuns(s: seq<byte>, c: nat, z: nat, more: Packed): (p: Packed)
    requires c <= |s| && c <= MAX_RUN && z <= MAX_RUN
    ensures |p.out| == 2 + c + |more.out|
  {
    Packed([c as byte] + s[..c] + [z as byte] + more.out, c + z + more.taken)
  }

  /** The compressed bytes that fit in `room`, and how much of `s` they carry. */
  function Pack(s: seq<byte>, room: int): (p: Packed)
    ensures p.taken <= |s|
    ensures |p.out| <= if room < 0 then 0 else room
    ensures p.taken > 0 ==> |p.out| > 0
    decreases |s|
  {
    if s == [] then Packed([], 0)
    else
      var c := LiteralRun(s, 0);
      if c >= room then Packed([], 0)
      else if c == |s| || c + 1 >= room then Packed([c as byte] + s[..c], c)
      else
        var z := ZeroRun(s[c..], 0);
        JoinRuns(s, c, z, Pack(s[c + z..], room - 2 - c))
  }

  datatype Unpacked = Unpacked(out: seq<byte>, ok: bool)

  function JoinOut(lit: seq<byte>, z: nat, more: Unpacked): (u: Unpacked)
    ensures |u.out| == |lit| + z + |more.out| && u.ok == more.ok
  {
    Unpacked(lit + Zeros(z) + more.out, more.ok)
  }

  /** What the decompressor writes into `room` bytes; `ok` is false when a
      literal count runs past the end of the data. */
  function Unpack(src: seq<byte>, room: nat): (u: Unpacked)
    ensures |u.out| <= room
    decreases |src|
  {
    if src == [] || room == 0 then Unpacked([], true)
    else
      var n := src[0] as int;
      if 1 + n > |src| then Unpacked([], false)
      else
        var k := Min(n, room);
        var rest := src[1 + k..];
        if rest == [] || k == room then Unpacked(src[1..1 + k], true)
        else
          var z := Min(rest[0] as int, room - k);
          JoinOut(src[1..1 + k], z, Unpack(rest[1..], room - k - z))
  }

  /** `src` is one literal run `lit`, a zero count `z` and then `more`. */
  ghost predicate StartsWithRuns(src: seq<byte>, lit: seq<byte>, z: nat, more: seq<byte>) {
    && |src| == 2 + |lit| + |more|
    && src[0] as int == |lit|
    && src[1..1 + |lit|] == lit
    && src[1 + |lit|] as int == z
    && src[2 + |lit|..] == more
  }

  lemma RunsShape(lit: seq<byte>, z: nat, more: seq<byte>)
    requires |lit| <= MAX_RUN && z <= MAX_RUN
    ensures StartsWithRuns([|lit| as byte] + lit + [z as byte] + more, lit, z, more)
  {
  }

  /** Decompressing one literal run and one zero run in front of `more`. */
  lemma UnpackRuns(src: seq<byte>, lit: seq<byte>, z: nat, more: seq<byte>, room: nat)
    requires StartsWithRuns(src, lit, z, more) && room > |lit|
    ensures var y := Min(z, room - |lit|);
            var u := Unpack(more, room - |lit| - y);
            Unpack(src, room) == Unpacked(lit + Zeros(y) + u.out, u.ok)
  {
    hide Unpack;
    UnpackUnfold(src, room, |lit|, Min(z, room - |lit|));
  }

  /** A packed stream cut inside its first literal run. */
  lemma UnpackCut(src: seq<byte>, lit: seq<byte>, room: nat)
    requires 1 + |lit| <= |src| && src[0] as int == |lit| && src[1..1 + |lit|] == lit
    requires room <= |lit| || |src| == 1 + |lit|
    ensures Unpack(src, room) == Unpacked(lit[..Min(|lit|, room)], true)
  {
    var k := Min(|lit|, room);
    if room > 0 {
      SeqSlice(src[..1 + |lit|], 1, 0, k);
    }
  }

  /** A literal count that runs past the end of the data is reported, wherever runs before
      it end (see UnpackRuns), unless the receiver's room is full. */
  lemma UnpackTruncated(src: seq<byte>, room: nat)
    requires src != [] && room > 0 && src[0] as int >= |src|
    ensures Unpack(src, room) == Unpacked([], false)
  {
  }

  lemma UnpackEmpty(room: nat)
    ensures Unpack([], room) == Unpacked([], true)
  {
  }

  lemma PackUnfold(s: seq<byte>, room: int, c: nat, z: nat)
    requires c == LiteralRun(s, 0) < |s| && c + 1 < room && z == ZeroRun(s[c..], 0)
    ensures Pack(s, room) == JoinRuns(s, c, z, Pack(s[c + z..], room - 2 - c))
  {
    hide LiteralRun, ZeroRun, JoinRuns, RunCap, ContinuesLiteral;
  }

  /** Every round of the loop makes progress. */
  lemma RunsAdvance(s: seq<byte>, c: nat, z: nat)
    requires s != [] && c == LiteralRun(s, 0) && z == ZeroRun(s[c..], 0)
    ensures 0 < c + z <= |s|
  {
    hide LiteralRun, ZeroRun;
  }

  lemma PackRuns(s: seq<byte>, room: int) returns (c: nat, z: nat, more: Packed)
    requires |s| > LiteralRun(s, 0) && LiteralRun(s, 0) + 1 < room
    ensures 0 < c + z <= |s| && more == Pack(s[c + z..], room - 2 - c)
    ensures forall i :: 0 <= i < z ==> s[c..][i] == 0
    ensures StartsWithRuns(Pack(s, room).out, s[..c], z, more.out)
    ensures Pack(s, room).taken == c + z + more.taken
  {
    c := LiteralRun(s, 0);
    z := ZeroRun(s[c..], 0);
    more := Pack(s[c + z..], room - 2 - c);
    PackUnfold(s, room, c, z);
    RunsAdvance(s, c, z);
    hide Pack, ZeroRun, LiteralRun;
    RunsShape(s[..c], z, more.out);
  }

  lemma PackShort(s: seq<byte>, room: int)
    requires s == [] || LiteralRun(s, 0) >= room || LiteralRun(s, 0) == |s| || LiteralRun(s, 0) + 1 >= room
    ensures var p := Pack(s, room);
            || p == Packed([], 0)
            || (p.taken <= MAX_RUN && p.out == [p.taken as byte] + s[..p.taken])
  {
  }

  predicate EndsEarly(s: seq<byte>, room: int) {
    s == [] || LiteralRun(s, 0) >= room || LiteralRun(s, 0) == |s| || LiteralRun(s, 0) + 1 >= room
  }

  lemma PackUnpackShort(s: seq<byte>, room: int, dstRoom: nat)
    requires EndsEarly(s, room)
    ensures Unpack(Pack(s, room).out, dstRoom) == Unpacked(s[..Min(Pack(s, room).taken, dstRoom)], true)
  {
    hide Pack, LiteralRun, Unpack;
    var p := Pack(s, room);
    PackShort(s, room);
    if p.out == [] {
      UnpackEmpty(dstRoom);
    } else {
      UnpackCut(p.out, s[..p.taken], dstRoom);
      assert s[..p.taken][..Min(p.taken, dstRoom)] == s[..Min(p.taken, dstRoom)];
    }
  }

  /** Round trip: decompressing what was packed gives back exactly the bytes
      that were taken, cut to the room at the receiving end. */
  lemma {:induction false} PackUnpack(s: seq<byte>, room: int, dstRoom: nat)
    ensures Unpack(Pack(s, room).out, dstRoom) == Unpacked(s[..Min(Pack(s, room).taken, dstRoom)], true)
    decreases |s|
  {
    hide Pack, LiteralRun, Unpack;
    var p := Pack(s, room);
    if EndsEarly(s, room) {
      PackUnpackShort(s, room, dstRoom);
    } else {
      var c, z, more := PackRuns(s, room);
      if dstRoom > c {
        UnpackRuns(p.out, s[..c], z, more.out, dstRoom);
        var y := Min(z, dstRoom - c);
        PackUnpack(s[c + z..], room - 2 - c, dstRoom - c - y);
        SpliceRuns(s, c, z, y, Min(more.taken, dstRoom - c - y));
      } else {
        UnpackCut(p.out, s[..c], dstRoom);
        assert s[..c][..dstRoom] == s[..dstRoom];
      }
    }
  }

  lemma SpliceRuns(s: seq<byte>, c: nat, z: nat, y: nat, m: nat)
    requires c + z + m <= |s| && y <= z && (y < z ==> m == 0)
    requires forall i :: 0 <= i < z ==> s[c..][i] == 0
    ensures s[..c] + Zeros(y) + s[c + z..][..m] == s[..c + y + m]
  {
    assert forall i :: c <= i < c + z ==> s[i] == s[c..][i - c];
  }

  /** Packing goes on as long as the next literal run and its count fit. */
  lemma {:induction false} PackFills(s: seq<byte>, room: int)
    ensures var p := Pack(s, room);
      p.taken < |s| ==> |p.out| + LiteralRun(s[p.taken..], 0) >= room
    decreases |s|
  {
    hide Pack, LiteralRun;
    if EndsEarly(s, room) {
      PackStops(s, room);
    } else {
      var c, z, more := PackRuns(s, room);
      PackFills(s[c + z..], room - 2 - c);
      var p := Pack(s, room);
      if p.taken < |s| {
        assert s[c + z..][more.taken..] == s[p.taken..];
      }
    }
  }

  lemma PackStops(s: seq<byte>, room: int)
    requires EndsEarly(s, room)
    ensures var p := Pack(s, room);
      p.taken < |s| ==> |p.out| + LiteralRun(s[p.taken..], 0) >= room
  {
    hide LiteralRun;
    assert s[0..] == s;
  }

  /** Zeros take two bytes for each 255 of them. */
  lemma {:induction false} ZerosShrink(n: nat, room: nat)
    requires 2 * ((n + 254) / 255) <= room
    ensures |Pack(Zeros(n), room).out| == 2 * ((n + 254) / 255) && Pack(Zeros(n), room).taken == n
    decreases n
  {
    hide Pack;
    var s := Zeros(n);
    if n == 0 {
      PackNothing(room);
    } else {
      LiteralRunIs(s, 0);
      assert LiteralRun(s, 0) == 0 && s[0..] == s;
      ZeroRunIs(s);
      var z := ZeroRun(s, 0);
      assert z == if n > 255 then 255 else n;
      PackUnfold(s, room, 0, z);
      assert s[z..] == Zeros(n - z);
      assert (n + 254) / 255 == 1 + (n - z + 254) / 255;
      ZerosShrink(n - z, room - 2);
    }
  }

  /** The compressed form of six bytes: one literal, four zeros, one literal. */
  lemma PackExample()
    ensures Pack([5, 0, 0, 0, 0, 7], 20) == Packed([1, 5, 4, 1, 7], 6)
  {
    hide Pack;
    var s: seq<byte> := [5, 0, 0, 0, 0, 7];
    LiteralRunIs(s, 0);
    assert LiteralRun(s, 0) == 1;
    var t := s[1..];
    assert t == [0, 0, 0, 0, 7];
    ZeroRunIs(t);
    assert t[0] == t[1] == t[2] == t[3] == 0 && t[4] == 7;
    assert ZeroRun(t, 0) == 4;
    PackUnfold(s, 20, 1, 4);
    var u: seq<byte> := [7];
    assert s[5..] == u && s[..1] == [5];
    LiteralRunIs(u, 0);
    assert LiteralRun(u, 0) == 1;
    PackLast(u, 17);
  }

  lemma PackLast(s: seq<byte>, room: int)
    requires s != [] && LiteralRun(s, 0) == |s| < room
    ensures Pack(s, room) == Packed([|s| as byte] + s, |s|)
  {
    hide LiteralRun;
    assert s[..|s|] == s;
  }

  lemma RangeOfZeros(s: seq<byte>, room: int)
    ensures (forall i :: 0 <= i < |s| ==> s[i] == 0) && 2 * ((|s| + 254) / 255) <= room ==>
      |Pack(s, room).out| == 2 * ((|s| + 254) / 255) && Pack(s, room).taken == |s|
  {
    hide Pack;
    if (forall i :: 0 <= i < |s| ==> s[i] == 0) && 2 * ((|s| + 254) / 255) <= room {
      assert s == Zeros(|s|);
      ZerosShrink(|s|, room);
    }
  }

  lemma PackNothing(room: int)
    ensures Pack([], room) == Packed([], 0)
  {
  }

  /** What a frame's payload writes into `room` bytes of the receiver's data. */
  function Carried(payload: seq<byte>, room: nat, compressed: bool): (u: Unpacked)
    ensures |u.out| <= room
  {
    if compressed then Unpack(payload, room) else Unpacked(payload[..Min(|payload|, room)], true)
  }

  // ---- ioc_compress ----

  method ScanLiteral(s: seq<byte>, p: nat) returns (count: nat)
    requires p <= |s|
    ensures count == LiteralRun(s[p..], 0) && LiteralSpan(s[p..], 0, count)
  {
    LiteralRunIs(s[p..], 0);
    var maxCount := |s| - p;
    if maxCount > MAX_RUN { maxCount := MAX_RUN; }
    count := 0;
    while count < maxCount && (s[p + count] != 0 || s[p + count + (if count < maxCount - 1 then 1 else 0)] != 0)
      invariant count <= maxCount == RunCap(s[p..])
      invariant LiteralRun(s[p..], 0) == LiteralRun(s[p..], count)
    {
      assert ContinuesLiteral(s[p..], count);
      count := count + 1;
    }
  }

  method ScanZeros(s: seq<byte>, p: nat) returns (count: nat)
    requires p <= |s|
    ensures count == ZeroRun(s[p..], 0)
    ensures p + count <= |s| && forall i :: p <= i < p + count ==> s[i] == 0
    ensures count < 255 && p + count < |s| ==> s[p + count] != 0
  {
    var maxCount := |s| - p;
    if maxCount > MAX_RUN { maxCount := MAX_RUN; }
    count := 0;
    while count < maxCount && s[p + count] == 0
      invariant count <= maxCount == RunCap(s[p..])
      invariant ZeroRun(s[p..], 0) == ZeroRun(s[p..], count)
    {
      count := count + 1;
    }
  }

  /** How far a compression has come: `out` is written and `taken` bytes of
      `s` are consumed, the rest is still to be packed into `room - |out|`. */
  ghost predicate PackProgress(s: seq<byte>, room: int, out: seq<byte>, taken: nat) {
    && taken <= |s|
    && var rest := Pack(s[taken..], room - |out|);
       Pack(s, room) == Packed(out + rest.out, taken + rest.taken)
  }

  lemma PackProgressStart(s: seq<byte>, room: int)
    ensures PackProgress(s, room, [], 0)
  {
    assert s[0..] == s;
  }

  lemma PackProgressFull(s: seq<byte>, room: int, out: seq<byte>, taken: nat)
    requires PackProgress(s, room, out, taken)
    requires taken < |s| ==> LiteralRun(s[taken..], 0) >= room - |out|
    ensures Pack(s, room) == Packed(out, taken)
  {
    assert Pack(s[taken..], room - |out|) == Packed([], 0);
  }

  lemma PackProgressShort(s: seq<byte>, room: int, out: seq<byte>, taken: nat, c: nat, lit: seq<byte>)
    requires PackProgress(s, room, out, taken) && taken < |s|
    requires c == LiteralRun(s[taken..], 0) < room - |out|
    requires taken + c == |s| || c + 1 >= room - |out|
    requires lit == [c as byte] + s[taken..taken + c]
    ensures Pack(s, room) == Packed(out + lit, taken + c)
  {
    var rest := s[taken..];
    assert rest[..c] == s[taken..taken + c];
    assert Pack(rest, room - |out|) == Packed([c as byte] + rest[..c], c);
  }

  lemma PackProgressRuns(s: seq<byte>, room: int, out: seq<byte>, taken: nat, c: nat, z: nat, lit: seq<byte>)
    requires PackProgress(s, room, out, taken) && taken < |s|
    requires c == LiteralRun(s[taken..], 0) && taken + c < |s| && c + 1 < room - |out|
    requires z == ZeroRun(s[taken + c..], 0)
    requires lit == [c as byte] + s[taken..taken + c]
    ensures 0 < c + z
    ensures PackProgress(s, room, out + lit + [z as byte], taken + c + z)
  {
    hide Pack, LiteralRun, ZeroRun;
    var rest := s[taken..];
    assert rest[c..] == s[taken + c..];
    assert rest[..c] == s[taken..taken + c];
    assert rest[c + z..] == s[taken + c + z..];
    PackUnfold(rest, room - |out|, c, z);
    RunsAdvance(rest, c, z);
    var more := Pack(rest[c + z..], room - |out| - 2 - c);
    assert out + (lit + [z as byte] + more.out) == out + lit + [z as byte] + more.out;
  }

  /** Stores `data` behind what is already written. */
  method Emit(data: seq<byte>, dst: array<byte>, q: nat, ghost at: nat, ghost was: seq<byte>, ghost out: seq<byte>)
    requires |was| == dst.Length && q == at + |out| && q + |data| <= dst.Length
    requires dst[..] == Overwrite(was, at, out)
    modifies dst
    ensures dst[..] == Overwrite(was, at, out + data)
  {
    for i := 0 to |data|
      invariant dst[..] == Overwrite(was, at, out + data[..i])
    {
      dst[q + i] := data[i];
    }
    assert data[..|data|] == data;
  }

  /** One round of the compression loop: a literal run and the zero run after
      it. `full` tells that nothing more fits or nothing is left. */
  method CompressRun(s: seq<byte>, p: nat, dst: array<byte>, q: nat, limit: int,
                     ghost at: nat, ghost was: seq<byte>, ghost out: seq<byte>)
    returns (p': nat, q': nat, full: bool, ghost out': seq<byte>)
    requires p < |s|
    requires |was| == dst.Length && limit <= dst.Length && q == at + |out| <= dst.Length
    requires dst[..] == Overwrite(was, at, out)
    requires PackProgress(s, limit - at, out, p)
    modifies dst
    ensures p <= p' <= |s| && (!full ==> p < p')
    ensures q' == at + |out'| <= dst.Length && (out' == out || q' <= limit)
    ensures dst[..] == Overwrite(was, at, out')
    ensures if full then Pack(s, limit - at) == Packed(out', p') else PackProgress(s, limit - at, out', p')
  {
    hide Pack, PackProgress, LiteralRun, ZeroRun, Overwrite;
    p', q', full, out' := p, q, true, out;
    var count := ScanLiteral(s, p);
    if q + count >= limit {
      PackProgressFull(s, limit - at, out, p);
      return;
    }
    var lit := [count as byte] + s[p..p + count];
    Emit(lit, dst, q, at, was, out);
    p', q', out' := p + count, q + 1 + count, out + lit;
    if p' == |s| || q' >= limit {
      PackProgressShort(s, limit - at, out, p, count, lit);
      return;
    }
    var zeros := ScanZeros(s, p');
    PackProgressRuns(s, limit - at, out, p, count, zeros, lit);
    Emit([zeros as byte], dst, q', at, was, out');
    p', q', full, out' := p' + zeros, q' + 1, false, out' + [zeros as byte];
  }

  /** ioc_compress: -1 when the range is too short or does not get smaller,
      otherwise the number of compressed bytes and the first byte left out. */
  method Compress(src: seq<byte>, start: nat, end: int, dst: array<byte>, at: nat, dstSz: int)
    returns (r: int, next: nat)
    requires start <= end + 1 <= |src|
    requires at <= dst.Length && at + dstSz <= dst.Length
    modifies dst
    ensures var p := Pack(src[start..end + 1], dstSz);
            if end - start < 3 || |p.out| >= p.taken then r == -1 && next == start
            else r == |p.out| && next == start + p.taken && dst[at..at + r] == p.out
    ensures var n := end + 1 - start;
            n >= 4 && (forall i :: start <= i <= end ==> src[i] == 0) && 2 * ((n + 254) / 255) <= dstSz ==>
              r == 2 * ((n + 254) / 255) && next == end + 1
    ensures forall j :: 0 <= j < dst.Length && !(at <= j < at + dstSz) ==> dst[j] == old(dst[j])
  {
    hide Pack, PackProgress;
    next := start;
    r := -1;
    if end - start < 3 { return; }
    var s := src[start..end + 1];
    RangeOfZeros(s, dstSz);
    ghost var was, out := dst[..], [];
    var p, q, full := 0, at, false;
    PackProgressStart(s, dstSz);
    while p < |s| && !full
      invariant p <= |s|
      invariant q == at + |out| <= dst.Length && (out == [] || q <= at + dstSz)
      invariant dst[..] == Overwrite(was, at, out)
      invariant if full then Pack(s, dstSz) == Packed(out, p) else PackProgress(s, dstSz, out, p)
      decreases |s| - p, !full
    {
      p, q, full, out := CompressRun(s, p, dst, q, at + dstSz, at, was, out);
    }
    if !full {
      PackProgressFull(s, dstSz, out, p);
    }
    if q - at < p {
      r, next := q - at, start + p;
      assert dst[at..at + r] == out;
    }
  }

  // ---- ioc_uncompress ----

  /** Stores `n` bytes, or adds them in delta encoding. */
  method StoreBytes(data: seq<byte>, dst: array<byte>, q: nat, isDelta: bool,
                    ghost at: nat, ghost was: seq<byte>, ghost out: seq<byte>)
    requires |was| == dst.Length && q == at + |out| && q + |data| <= dst.Length
    requires dst[..] == Apply(was, at, out, isDelta)
    modifies dst
    ensures dst[..] == Apply(was, at, out + data, isDelta)
  {
    ghost var mid := dst[..];
    for i := 0 to |data|
      invariant forall j :: 0 <= j < dst.Length ==>
        dst[j] == if q <= j < q + i then (if isDelta then AddByte(mid[j], data[j - q]) else data[j - q]) else mid[j]
    {
      dst[q + i] := if isDelta then AddByte(dst[q + i], data[i]) else data[i];
    }
    assert dst[..] == Apply(mid, q, data, isDelta);
    ApplyConcat(was, at, out, data, isDelta);
  }

  /** Stores `n` zeros, or skips `n` bytes in delta encoding. */
  method StoreZeros(dst: array<byte>, q: nat, n: nat, isDelta: bool, ghost at: nat, ghost was: seq<byte>, ghost out: seq<byte>)
    requires |was| == dst.Length && q == at + |out| && q + n <= dst.Length
    requires dst[..] == Apply(was, at, out, isDelta)
    modifies dst
    ensures dst[..] == Apply(was, at, out + Zeros(n), isDelta)
  {
    ghost var mid := dst[..];
    if !isDelta {
      for i := 0 to n
        invariant forall j :: 0 <= j < dst.Length ==> dst[j] == if q <= j < q + i then 0 else mid[j]
      {
        dst[q + i] := 0;
      }
    }
    assert dst[..] == Apply(mid, q, Zeros(n), isDelta);
    ApplyConcat(was, at, out, Zeros(n), isDelta);
  }

  ghost predicate UnpackProgress(s: seq<byte>, room: nat, i: nat, out: seq<byte>) {
    && i <= |s| && |out| <= room
    && var rest := Unpack(s[i..], room - |out|);
       Unpack(s, room) == Unpacked(out + rest.out, rest.ok)
  }

  lemma UnpackProgressStart(s: seq<byte>, room: nat)
    ensures UnpackProgress(s, room, 0, [])
  {
    assert s[0..] == s;
  }

  lemma UnpackProgressEnd(s: seq<byte>, room: nat, i: nat, out: seq<byte>)
    requires UnpackProgress(s, room, i, out) && (i == |s| || |out| == room)
    ensures Unpack(s, room) == Unpacked(out, true)
  {
    assert Unpack(s[i..], room - |out|) == Unpacked([], true);
  }

  lemma UnpackProgressBad(s: seq<byte>, room: nat, i: nat, out: seq<byte>)
    requires UnpackProgress(s, room, i, out) && i < |s| && |out| < room && i + 1 + s[i] as int > |s|
    ensures Unpack(s, room) == Unpacked(out, false)
  {
    assert s[i..][0] == s[i];
    assert Unpack(s[i..], room - |out|) == Unpacked([], false);
  }

  /** The loop stops behind a literal run. */
  lemma UnpackProgressLiteral(s: seq<byte>, room: nat, i: nat, out: seq<byte>, k: nat)
    requires UnpackProgress(s, room, i, out) && i < |s| && |out| < room && i + 1 + s[i] as int <= |s|
    requires k == Min(s[i] as int, room - |out|) && (i + 1 + k == |s| || |out| + k == room)
    ensures Unpack(s, room) == Unpacked(out + s[i + 1..i + 1 + k], true)
  {
    var rest := s[i..];
    assert rest[0] == s[i] && rest[1..1 + k] == s[i + 1..i + 1 + k];
    UnpackLiteralStop(rest, room - |out|, k);
  }

  lemma UnpackLiteralStop(s: seq<byte>, room: nat, k: nat)
    requires s != [] && 0 < room && 1 + s[0] as int <= |s|
    requires k == Min(s[0] as int, room) && (1 + k == |s| || k == room)
    ensures Unpack(s, room) == Unpacked(s[1..1 + k], true)
  {
    hide JoinOut;
  }

  lemma UnpackUnfold(s: seq<byte>, room: nat, k: nat, z: nat)
    requires s != [] && k == s[0] as int && 1 + k < |s| && k < room
    requires z == Min(s[1 + k] as int, room - k)
    ensures Unpack(s, room) == JoinOut(s[1..1 + k], z, Unpack(s[2 + k..], room - k - z))
  {
    hide JoinOut;
    assert s[1 + k..][1..] == s[2 + k..];
  }

  lemma UnpackProgressRuns(s: seq<byte>, room: nat, i: nat, out: seq<byte>, k: nat, z: nat)
    requires UnpackProgress(s, room, i, out) && i < |s| && k == s[i] as int
    requires i + 1 + k < |s| && |out| + k < room && z == Min(s[i + 1 + k] as int, room - |out| - k)
    ensures UnpackProgress(s, room, i + 2 + k, out + s[i + 1..i + 1 + k] + Zeros(z))
  {
    hide Unpack;
    var rest := s[i..];
    assert rest[0] == s[i] && rest[1 + k] == s[i + 1 + k];
    assert rest[1..1 + k] == s[i + 1..i + 1 + k];
    assert rest[2 + k..] == s[i + 2 + k..];
    UnpackUnfold(rest, room - |out|, k, z);
    var more := Unpack(s[i + 2 + k..], room - |out| - k - z);
    var lit := s[i + 1..i + 1 + k];
    assert out + (lit + Zeros(z) + more.out) == out + lit + Zeros(z) + more.out;
  }

  datatype Progress = More | Done | Corrupted

  /** One round of the decompression loop. */
  method UncompressRun(s: seq<byte>, i: nat, dst: array<byte>, q: nat, limit: nat, isDelta: bool,
                       ghost at: nat, ghost was: seq<byte>, ghost out: seq<byte>)
    returns (i': nat, q': nat, progress: Progress, ghost out': seq<byte>)
    requires i < |s|
    requires |was| == dst.Length && q == at + |out| < limit <= dst.Length
    requires dst[..] == Apply(was, at, out, isDelta)
    requires UnpackProgress(s, limit - at, i, out)
    modifies dst
    ensures i < i' <= |s| && q' == at + |out'| <= limit
    ensures dst[..] == Apply(was, at, out', isDelta)
    ensures progress.More? ==> UnpackProgress(s, limit - at, i', out')
    ensures progress.Done? ==> Unpack(s, limit - at) == Unpacked(out', true)
    ensures progress.Corrupted? ==> Unpack(s, limit - at) == Unpacked(out', false)
  {
    hide Unpack, UnpackProgress, Apply, Zeros;
    var n := s[i] as int;
    i', q', out' := i + 1, q, out;
    if i' + n > |s| {
      UnpackProgressBad(s, limit - at, i, out);
      progress := Corrupted;
      return;
    }
    if q + n > limit { n := limit - q; }
    StoreBytes(s[i'..i' + n], dst, q, isDelta, at, was, out);
    i', q', out' := i' + n, q + n, out + s[i'..i' + n];
    if i' >= |s| || q' >= limit {
      UnpackProgressLiteral(s, limit - at, i, out, n);
      progress := Done;
      return;
    }
    var z := s[i'] as int;
    if q' + z > limit { z := limit - q'; }
    UnpackProgressRuns(s, limit - at, i, out, n, z);
    StoreZeros(dst, q', z, isDelta, at, was, out');
    i', q', progress, out' := i' + 1, q' + z, More, out' + Zeros(z);
  }

  /** ioc_uncompress: what the payload carries is stored into, or added to, the
      destination. A corrupted payload gives -1 after its valid part is written. */
  method Uncompress(s: seq<byte>, dst: array<byte>, at: nat, dstSz: nat, compressed: bool, isDelta: bool)
    returns (r: int)
    requires at + dstSz <= dst.Length
    modifies dst
    ensures var u := Carried(s, dstSz, compressed);
            && dst[..] == Apply(old(dst[..]), at, u.out, isDelta)
            && r == if u.ok then |u.out| else -1
  {
    hide Unpack, UnpackProgress, Apply;
    ghost var was, out := dst[..], [];
    ApplyEmpty(was, at, isDelta);
    if !compressed {
      var n := if |s| > dstSz then dstSz else |s|;
      StoreBytes(s[..n], dst, at, isDelta, at, was, []);
      assert [] + s[..n] == s[..n];
      r := n;
      return;
    }
    var i, q, progress := 0, at, More;
    UnpackProgressStart(s, dstSz);
    while i < |s| && q < at + dstSz && progress == More
      invariant i <= |s| && q == at + |out| <= at + dstSz
      invariant dst[..] == Apply(was, at, out, isDelta)
      invariant progress.More? ==> UnpackProgress(s, dstSz, i, out)
      invariant progress.Done? ==> Unpack(s, dstSz) == Unpacked(out, true)
      invariant progress.Corrupted? ==> Unpack(s, dstSz) == Unpacked(out, false)
      decreases |s| - i
    {
      i, q, progress, out := UncompressRun(s, i, dst, q, at + dstSz, isDelta, at, was, out);
    }
    if progress == More {
      UnpackProgressEnd(s, dstSz, i, out);
    }
    r := if progress == Corrupted then -1 else q - at;
  }
}
