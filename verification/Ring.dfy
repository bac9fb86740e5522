/** The ring buffer of a streamer: ioc_streamer_write_internal and
    ioc_streamer_read_internal (code/ioc_streamer.c). */
module Ring {
  import opened Bytes

  /** Index `i` places behind `a` in a ring of `n` slots. */
  function Wrap(a: int, i: int, n: int): (r: int)
    requires 0 <= a < n && 0 <= i <= n
    ensures 0 <= r < n
  {
    if a + i >= n then a + i - n else a + i
  }

  /** How far `b` is ahead of `a`. */
  function Gap(a: int, b: int, n: int): (r: int)
    requires 0 <= a < n && 0 <= b < n
    ensures 0 <= r < n
  {
    if b >= a then b - a else b - a + n
  }

  /** Free slots: one slot stays unused. */
  function Free(head: int, tail: int, n: int): (r: int)
    requires 0 <= head < n && 0 <= tail < n
    ensures 0 <= r < n
  {
    n - 1 - Gap(tail, head, n)
  }

  /** `k` bytes of `buf` from slot `at` on, around the ring. */
  function Window(buf: seq<byte>, at: int, k: int): (w: seq<byte>)
    requires 0 <= at < |buf| && 0 <= k <= |buf|
    ensures |w| == k
  {
    seq(k, i requires 0 <= i < k => buf[Wrap(at, i, |buf|)])
  }

  /** `buf` with `data` stored from slot `at` on, around the ring. */
  function Stored(buf: seq<byte>, at: int, data: seq<byte>): (r: seq<byte>)
    requires 0 <= at < |buf| && |data| <= |buf|
    ensures |r| == |buf|
  {
    seq(|buf|, j requires 0 <= j < |buf| => if Gap(at, j, |buf|) < |data| then data[Gap(at, j, |buf|)] else buf[j])
  }

  // ---- The code, which works in two straight pieces ----

  /** ioc_move_array with IOC_SIGNAL_WRITE: a piece that does not wrap. */
  method MoveIn(buf: array<byte>, at: nat, data: seq<byte>)
    requires at + |data| <= buf.Length && at < buf.Length
    modifies buf
    ensures buf[..] == Stored(old(buf[..]), at, data)
  {
    for i := 0 to |data|
      invariant buf[..] == Stored(old(buf[..]), at, data[..i])
    {
      buf[at + i] := data[i];
    }
    assert data[..|data|] == data;
  }

  /** ioc_streamer_write_internal: takes as many bytes as fit, stores them
      behind the head and moves the head. */
  method WriteInternal(buf: array<byte>, data: seq<byte>, head: nat, tail: nat) returns (nbytes: nat, head': nat)
    requires head < buf.Length && tail < buf.Length
    modifies buf
    ensures nbytes == Min(|data|, Free(head, tail, buf.Length))
    ensures head' == Wrap(head, nbytes, buf.Length)
    ensures buf[..] == Stored(old(buf[..]), head, data[..nbytes])
  {
    hide Stored;
    nbytes, head' := 0, head;
    ghost var was := buf[..];
    StoredNothing(was, head);
    assert data[..0] == [];
    if head' >= tail {
      var wrnow := buf.Length - head';
      if tail == 0 { wrnow := wrnow - 1; }
      if wrnow > |data| { wrnow := |data|; }
      if wrnow > 0 {
        MoveIn(buf, head', data[..wrnow]);
        head' := head' + wrnow;
        if head' >= buf.Length { head' := 0; }
        nbytes := wrnow;
      }
    }
    assert buf[..] == Stored(was, head, data[..nbytes]);
    if head' < tail {
      var wrnow := tail - head' - 1;
      if wrnow > |data| - nbytes { wrnow := |data| - nbytes; }
      if wrnow > 0 {
        MoveIn(buf, head', data[nbytes..nbytes + wrnow]);
        StoredTwice(was, head, data[..nbytes], data[nbytes..nbytes + wrnow]);
        assert data[..nbytes] + data[nbytes..nbytes + wrnow] == data[..nbytes + wrnow];
        head' := head' + wrnow;
        nbytes := nbytes + wrnow;
      }
    }
  }

  lemma StoredNothing(buf: seq<byte>, at: int)
    requires 0 <= at < |buf|
    ensures Stored(buf, at, []) == buf
  {
  }

  /** Storing two adjacent pieces is storing both at once. */
  lemma StoredTwice(buf: seq<byte>, at: int, a: seq<byte>, b: seq<byte>)
    requires 0 <= at < |buf| && |a| + |b| <= |buf|
    ensures Stored(Stored(buf, at, a), Wrap(at, |a|, |buf|), b) == Stored(buf, at, a + b)
  {
  }

  /** Which of its two moves a read of `n` bytes makes: up to the end of the ring, and
      from there, or from the tail, up to the head. */
  predicate MovesToEnd(head: int, tail: int, n: int) {
    tail > head && n > 0
  }

  predicate MovesToHead(size: int, head: int, tail: int, n: int) {
    if tail > head then 0 < head && n > size - tail else tail < head && n > 0
  }

  /** ioc_streamer_read_internal: takes at most `n` of the bytes between tail
      and head; with the peek flag the tail stays. `first` and `second` say whether
      the block is connected at either move; if not, the result is -1 (not `ok`) and
      the tail stays. */
  method ReadInternal(buf: array<byte>, n: nat, head: nat, tail: nat, peek: bool, first: bool, second: bool)
    returns (ok: bool, data: seq<byte>, tail': nat)
    requires head < buf.Length && tail < buf.Length
    ensures ok <==> (MovesToEnd(head, tail, n) ==> first) && (MovesToHead(buf.Length, head, tail, n) ==> second)
    ensures ok ==> data == Window(buf[..], tail, Min(n, Gap(tail, head, buf.Length)))
    ensures tail' == if ok && !peek then Wrap(tail, |data|, buf.Length) else tail
  {
    var ltail := tail;
    data := [];
    if ltail > head {
      var rdnow := buf.Length - ltail;
      if rdnow > n { rdnow := n; }
      if rdnow > 0 {
        if !first { return false, [], tail; }
        data := buf[ltail..ltail + rdnow];
        ltail := ltail + rdnow;
        if ltail >= buf.Length { ltail := 0; }
      }
    }
    if ltail < head {
      var rdnow := head - ltail;
      if rdnow > n - |data| { rdnow := n - |data|; }
      if rdnow > 0 {
        if !second { return false, [], tail; }
        data := data + buf[ltail..ltail + rdnow];
        ltail := ltail + rdnow;
      }
    }
    ok, tail' := true, if |data| > 0 && !peek then ltail else tail;
  }
}
