/** The replication protocol as a whole: a block at the sending end, frames on a
    lossless FIFO, and the block at the receiving end, under every interleaving
    of writes, sends, frame emissions, deliveries, receives and reconnections. */
module Replication {
  import opened Bytes
  import opened Blocks
  import opened Compression
  import opened SourceBuffers
  import opened DataFrames
  import T = TargetBuffers

  // ---- Frames in flight ----

  /** What is still to come behind the frames in flight. */
  datatype Tail = Fresh | Idle(sync: seq<byte>) | Pending(addr: nat, data: seq<byte>, isDelta: bool)

  function TailOf(s: Source): Tail
    requires Shaped(s)
  {
    if s.makeKey then Fresh
    else if s.used then Pending(s.start, Unsent(s), !s.isKey)
    else Idle(s.sync)
  }

  /** The frame decodes at a receiver of `n` bytes and is not empty. */
  predicate Fits(f: DataFrame, n: nat) {
    f.addr <= n && Content(f, n).ok && (n > 0 ==> Content(f, n).out != [])
  }

  function Arrive(data: seq<byte>, f: DataFrame): (r: seq<byte>)
    requires f.addr <= |data|
    ensures |r| == |data|
  {
    Apply(data, f.addr, Content(f, |data|).out, f.isDelta)
  }

  /** Applying the frames in flight, and then what is not sent yet, to the
      receiver's data produces the snapshots `hist` one after another: one at
      each frame marked complete, and nothing is left over. */
  ghost predicate Chain(data: seq<byte>, wire: seq<DataFrame>, hist: seq<seq<byte>>, tail: Tail)
    decreases |wire|
  {
    if wire == [] then ChainEnd(data, hist, tail)
    else
      && Fits(wire[0], |data|)
      && var data' := Arrive(data, wire[0]);
         if wire[0].complete then hist != [] && data' == hist[0] && Chain(data', wire[1..], hist[1..], tail)
         else Chain(data', wire[1..], hist, tail)
  }

  ghost predicate ChainEnd(data: seq<byte>, hist: seq<seq<byte>>, tail: Tail) {
    match tail
    case Fresh => hist == []
    case Idle(sync) => hist == [] && data == sync
    case Pending(addr, rest, isDelta) =>
      |hist| == 1 && addr + |rest| <= |data| && Apply(data, addr, rest, isDelta) == hist[0]
  }

  lemma PendingHasSnapshot(data: seq<byte>, wire: seq<DataFrame>, hist: seq<seq<byte>>, tail: Tail)
    requires Chain(data, wire, hist, tail) && tail.Pending?
    ensures hist != []
    decreases |wire|
  {
    if wire != [] && !wire[0].complete {
      PendingHasSnapshot(Arrive(data, wire[0]), wire[1..], hist, tail);
    }
  }

  /** `f` carries the first `k` bytes of a pending tail. */
  ghost predicate Takes(f: DataFrame, tail: Tail, k: nat, n: nat)
    requires tail.Pending?
  {
    && f.addr == tail.addr && f.isDelta == tail.isDelta && tail.addr + |tail.data| <= n
    && k <= |tail.data| && f.complete == (k == |tail.data|)
    && (n > 0 ==> k > 0)
    && Content(f, n) == Unpacked(tail.data[..k], true)
  }

  function Remaining(tail: Tail, k: nat, sync: seq<byte>): Tail
    requires tail.Pending? && k <= |tail.data|
  {
    if k == |tail.data| then Idle(sync) else Pending(tail.addr + k, tail.data[k..], tail.isDelta)
  }

  lemma ChainOfOne(data: seq<byte>, f: DataFrame, snap: seq<byte>, tail: Tail)
    requires Fits(f, |data|)
    requires if f.complete then Arrive(data, f) == snap && ChainEnd(snap, [], tail)
             else ChainEnd(Arrive(data, f), [snap], tail)
    ensures Chain(data, [f], [snap], tail)
  {
    hide Content, Arrive, ChainEnd;
    assert [f][1..] == [];
    assert [snap][1..] == [];
  }

  lemma EmitAtEnd(data: seq<byte>, snap: seq<byte>, tail: Tail, f: DataFrame, k: nat)
    requires tail.Pending? && ChainEnd(data, [snap], tail) && Takes(f, tail, k, |data|)
    ensures Chain(data, [f], [snap], Remaining(tail, k, snap))
  {
    hide Content, Apply, Chain, Arrive, Fits;
    ArriveTakes(data, tail, f, k);
    if k == |tail.data| {
      assert tail.data[..k] == tail.data;
      assert ChainEnd(snap, [], Remaining(tail, k, snap));
    } else {
      assert tail.data[..k] + tail.data[k..] == tail.data;
      ApplyConcat(data, tail.addr, tail.data[..k], tail.data[k..], tail.isDelta);
      assert ChainEnd(Arrive(data, f), [snap], Remaining(tail, k, snap));
    }
    hide Takes, ChainEnd, Remaining;
    ChainOfOne(data, f, snap, Remaining(tail, k, snap));
  }

  /** A frame that takes bytes of the tail arrives as those bytes. */
  lemma ArriveTakes(data: seq<byte>, tail: Tail, f: DataFrame, k: nat)
    requires tail.Pending? && Takes(f, tail, k, |data|)
    ensures Fits(f, |data|) && f.complete == (k == |tail.data|)
    ensures Arrive(data, f) == Apply(data, tail.addr, tail.data[..k], tail.isDelta)
  {
    hide Content, Apply;
  }

  /** Emitting a frame keeps the chain: the frame takes over what was pending. */
  lemma {:induction false} ChainEmit(data: seq<byte>, wire: seq<DataFrame>, hist: seq<seq<byte>>, tail: Tail,
                                     f: DataFrame, k: nat, sync: seq<byte>)
    requires Chain(data, wire, hist, tail) && tail.Pending? && Takes(f, tail, k, |data|)
    requires hist != [] && hist[|hist| - 1] == sync
    ensures Chain(data, wire + [f], hist, Remaining(tail, k, sync))
    decreases |wire|
  {
    hide Content, Carried, Apply, Takes, Remaining;
    if wire == [] {
      assert wire + [f] == [f];
      assert hist == [sync];
      EmitAtEnd(data, sync, tail, f, k);
    } else {
      var data' := Arrive(data, wire[0]);
      assert (wire + [f])[1..] == wire[1..] + [f];
      if wire[0].complete {
        PendingHasSnapshot(data', wire[1..], hist[1..], tail);
        ChainEmit(data', wire[1..], hist[1..], tail, f, k, sync);
      } else {
        ChainEmit(data', wire[1..], hist, tail, f, k, sync);
      }
    }
  }

  /** A new snapshot joins the chain behind everything in flight. */
  lemma {:induction false} ChainSynchronize(data: seq<byte>, wire: seq<DataFrame>, hist: seq<seq<byte>>,
                                            sync: seq<byte>, tail: Tail, snap: seq<byte>)
    requires Chain(data, wire, hist, Idle(sync)) && |data| == |sync|
    requires tail.Pending? && ChainEnd(sync, [snap], tail)
    ensures Chain(data, wire, hist + [snap], tail)
    decreases |wire|
  {
    hide Content, Carried, Apply;
    if wire == [] {
      assert hist + [snap] == [snap];
    } else {
      var data' := Arrive(data, wire[0]);
      if wire[0].complete {
        assert (hist + [snap])[1..] == hist[1..] + [snap];
        ChainSynchronize(data', wire[1..], hist[1..], sync, tail, snap);
      } else {
        ChainSynchronize(data', wire[1..], hist, sync, tail, snap);
      }
    }
  }

  // ---- The two ends as a state machine ----

  /** `up` and `down` say whether the sender's and the receiver's end of the
      connection still stand: each end notices a broken connection by itself, frees
      its buffer, and a new connection starts when both have.
      The last four fields are history variables: every snapshot the sender has made, the number of the snapshot now arriving, the number of the last one
      completed at the receiver and of the one its application sees (counted
      from 1; 0 is the receiver's initial contents). */
  datatype System = System(src: Source, wire: seq<DataFrame>, tgt: T.Target, initial: seq<byte>,
                           up: bool, down: bool,
                           log: seq<seq<byte>>, arriving: nat, completed: nat, shown: nat)

  datatype Action =
    | Write(addr: nat, data: seq<byte>)
    | Send
    | Emit(headerSz: nat, maxDst: nat, room: int)
    | Deliver
    | Receive
    | LoseSource
    | LoseTarget
    | Reconnect

  function Start(block: seq<byte>, remote: seq<byte>): System {
    System(NewSource(block), [], T.NewTarget(remote), remote, true, true, [], 0, 0, 0)
  }

  ghost predicate Enabled(st: System, a: Action) {
    match a
    case Write(_, _) => true
    case Send => st.up
    case Emit(_, maxDst, _) => st.up && st.src.used && maxDst > 0
    case Deliver => st.down && st.wire != []
    case Receive => st.down
    case LoseSource => st.up
    case LoseTarget => st.down
    case Reconnect => !st.up && !st.down
  }

  /** A send which makes a new snapshot, as opposed to one without effect. */
  predicate TakesSnapshot(st: System, a: Action)
    requires Shaped(st.src)
  {
    a.Send? && !st.src.used && Synchronize(st.src).used
  }

  function Next(st: System, a: Action): System
    requires Shaped(st.src) && T.Valid(st.tgt) && Enabled(st, a)
  {
    match a
    case Write(addr, data) => st.(src := SourceBuffers.Write(st.src, addr, data))
    case Send =>
      st.(src := Synchronize(st.src), log := if TakesSnapshot(st, a) then st.log + [st.src.block] else st.log)
    case Emit(headerSz, maxDst, room) =>
      (match MakeFrame(st.src, headerSz, maxDst, room)
       case Cancelled => st
       case Emitted(f, rest) => st.(src := rest, wire := st.wire + [f]))
    case Deliver =>
      var st' := st.(tgt := T.Store(st.tgt, st.wire[0]).target, wire := st.wire[1..]);
      if st.wire[0].complete then st'.(arriving := st.arriving + 1, completed := st.arriving + 1) else st'
    case Receive => st.(tgt := T.Receive(st.tgt), shown := st.completed)
    case LoseSource => st.(up := false)
    case LoseTarget => st.(down := false)
    case Reconnect =>
      st.(src := NewSource(st.src.block), wire := [], tgt := T.NewTarget(st.tgt.block), up := true, down := true,
          arriving := |st.log|, completed := st.shown)
  }

  /** Snapshot number `k`. */
  function Snapshot(initial: seq<byte>, log: seq<seq<byte>>, k: nat): seq<byte>
    requires k <= |log|
  {
    if k == 0 then initial else log[k - 1]
  }

  /** When all is sent, the last frame in flight completes the last snapshot,
      or that one is complete at the receiver. */
  ghost predicate EndsComplete(st: System) {
    if st.wire == [] then st.completed == |st.log| else st.wire[|st.wire| - 1].complete
  }

  ghost predicate Inv(st: System) {
    && Valid(st.src) && T.Valid(st.tgt)
    && |st.src.block| == |st.tgt.block| == |st.initial|
    && st.shown <= st.completed <= st.arriving <= |st.log|
    && st.tgt.block == Snapshot(st.initial, st.log, st.shown)
    && st.tgt.buf == Snapshot(st.initial, st.log, st.completed)
    && (!st.src.makeKey ==> st.log != [] && st.src.sync == st.log[|st.log| - 1])
    && (st.src.makeKey ==> st.wire == [] && !st.src.used)
    && (!st.src.makeKey && !st.src.used ==> EndsComplete(st))
    && Chain(st.tgt.newdata, st.wire, st.log[st.arriving..], TailOf(st.src))
  }

  lemma StartInv(block: seq<byte>, remote: seq<byte>)
    requires |block| == |remote|
    ensures Inv(Start(block, remote))
  {
  }

  lemma WriteKeepsInv(st: System, addr: nat, data: seq<byte>)
    requires Inv(st)
    ensures Inv(Next(st, Action.Write(addr, data)))
  {
    hide Chain, SourceBuffers.Write;
    WriteKeepsValid(st.src, addr, data);
  }

  lemma SendKeepsInv(st: System)
    requires Inv(st) && st.up
    ensures Inv(Next(st, Send))
  {
    hide Chain, Synchronize, T.Valid, Covers;
    if TakesSnapshot(st, Send) {
      SnapshotJoinsChain(st);
    } else {
      IdleSynchronize(st.src);
    }
  }

  lemma SnapshotJoinsChain(st: System)
    requires Inv(st) && st.up && TakesSnapshot(st, Send)
    ensures var s' := Synchronize(st.src);
            && Valid(s') && !s'.makeKey && s'.sync == st.src.block
            && Chain(st.tgt.newdata, st.wire, (st.log + [st.src.block])[st.arriving..], TailOf(s'))
  {
    hide Chain, Synchronize, Apply, Covers;
    var s, s' := st.src, Synchronize(st.src);
    var hist, snap := st.log[st.arriving..], s.block;
    assert (st.log + [snap])[st.arriving..] == hist + [snap];
    if s.makeKey {
      SnapshotTaken(s, st.tgt.newdata);
      ChainWhenFresh(st.tgt.newdata, hist, TailOf(s'), snap);
    } else {
      SnapshotTaken(s, s.sync);
      ChainSynchronize(st.tgt.newdata, st.wire, hist, s.sync, TailOf(s'), snap);
    }
  }

  lemma ChainWhenFresh(data: seq<byte>, hist: seq<seq<byte>>, tail: Tail, snap: seq<byte>)
    requires Chain(data, [], hist, Fresh) && ChainEnd(data, [snap], tail)
    ensures Chain(data, [], hist + [snap], tail)
  {
    assert hist + [snap] == [snap];
  }

  lemma EmitKeepsInv(st: System, headerSz: nat, maxDst: nat, room: int)
    requires Inv(st) && Enabled(st, Emit(headerSz, maxDst, room))
    ensures Inv(Next(st, Emit(headerSz, maxDst, room)))
  {
    hide Chain, MakeFrame, Content, T.Valid, Covers, Unsent;
    var e := MakeFrame(st.src, headerSz, maxDst, room);
    if e.Emitted? {
      var k := FrameCarries(st.src, headerSz, maxDst, room, e);
      EmitKeepsChain(st, e, k);
      assert (st.wire + [e.frame])[|st.wire|] == e.frame;
    }
  }

  lemma EmitKeepsChain(st: System, e: Emission, k: nat)
    requires Inv(st) && st.src.used && e.Emitted?
    requires k <= |Unsent(st.src)| && (Unsent(st.src) != [] ==> 0 < k)
    requires e.rest == st.src.(start := st.src.start + k, used := k < |Unsent(st.src)|)
    requires e.frame.addr == st.src.start && e.frame.isDelta == !st.src.isKey && e.frame.complete == (k == |Unsent(st.src)|)
    requires Content(e.frame, |st.src.block|) == Unpacked(Unsent(st.src)[..k], true)
    ensures Valid(e.rest) && Chain(st.tgt.newdata, st.wire + [e.frame], st.log[st.arriving..], TailOf(e.rest))
  {
    hide Chain, Content;
    var hist, tail := st.log[st.arriving..], TailOf(st.src);
    PendingHasSnapshot(st.tgt.newdata, st.wire, hist, tail);
    ChainEmit(st.tgt.newdata, st.wire, hist, tail, e.frame, k, st.src.sync);
    if k < |tail.data| {
      UnsentRest(st.src, k);
    }
  }

  /** Delivering never fails, and completes a snapshot exactly with a frame
      marked complete. */
  lemma DeliverKeepsInv(st: System)
    requires Inv(st) && st.down && st.wire != []
    ensures T.Store(st.tgt, st.wire[0]).ok
    ensures Inv(Next(st, Deliver))
  {
    hide Content, T.Store, Chain, Covers, Arrive, Fits;
    var f, st' := st.wire[0], Next(st, Deliver);
    ChainHead(st.tgt.newdata, st.wire, st.log[st.arriving..], TailOf(st.src));
    StoreArrives(st.tgt, f);
    if f.complete {
      assert st.log[st.arriving..][1..] == st.log[st.arriving + 1..];
      assert st'.tgt.buf == st'.tgt.newdata == st.log[st.arriving];
    }
    if !st.src.makeKey && !st.src.used {
      DeliverEndsComplete(st, st');
    }
  }

  /** What a frame that fits does to the receiver. */
  lemma StoreArrives(t: T.Target, f: DataFrame)
    requires T.Valid(t) && Fits(f, |t.newdata|)
    ensures var r := T.Store(t, f);
      && r.ok && T.Valid(r.target) && r.target.block == t.block
      && r.target.newdata == Arrive(t.newdata, f)
      && r.target.buf == if f.complete then r.target.newdata else t.buf
  {
    hide Content, T.Store, Apply, Covers;
    T.StoreShows(t, f);
    if Content(f, |t.newdata|).out == [] {
      assert t.newdata == [] && t.buf == [];
    }
  }

  lemma ChainHead(data: seq<byte>, wire: seq<DataFrame>, hist: seq<seq<byte>>, tail: Tail)
    requires Chain(data, wire, hist, tail) && wire != []
    ensures Fits(wire[0], |data|)
    ensures wire[0].complete ==>
              hist != [] && Arrive(data, wire[0]) == hist[0] && Chain(hist[0], wire[1..], hist[1..], tail)
    ensures !wire[0].complete ==> Chain(Arrive(data, wire[0]), wire[1..], hist, tail)
  {
  }

  lemma DeliverEndsComplete(st: System, st': System)
    requires st.wire != [] && st'.wire == st.wire[1..] && EndsComplete(st)
    requires st'.log == st.log && st'.arriving <= |st.log| && (st.wire[0].complete ==> st'.completed == st'.arriving)
    requires Shaped(st'.src) && TailOf(st'.src).Idle? && Chain(st'.tgt.newdata, st'.wire, st'.log[st'.arriving..], TailOf(st'.src))
    ensures EndsComplete(st')
  {
    hide Content, Apply;
    if |st.wire| > 1 {
      assert st'.wire[|st'.wire| - 1] == st.wire[|st.wire| - 1];
    } else {
      assert st'.log[st'.arriving..] == [];
    }
  }

  lemma ReceiveKeepsInv(st: System)
    requires Inv(st) && st.down
    ensures Inv(Next(st, Receive))
  {
    hide Chain, T.Receive;
    T.ReceiveShows(st.tgt);
  }

  /** Losing either end changes nothing yet; until the other end has noticed, it goes
      on sending into the void or receiving what is on the way. */
  lemma LoseKeepsInv(st: System, a: Action)
    requires Inv(st) && Enabled(st, a) && (a.LoseSource? || a.LoseTarget?)
    ensures Inv(Next(st, a))
  {
    hide Chain;
  }

  lemma ReconnectKeepsInv(st: System)
    requires Inv(st) && Enabled(st, Reconnect)
    ensures Inv(Next(st, Reconnect))
  {
  }

  lemma NextKeepsInv(st: System, a: Action)
    requires Inv(st) && Enabled(st, a)
    ensures Inv(Next(st, a))
  {
    hide Next, Inv;
    match a
    case Write(addr, data) => WriteKeepsInv(st, addr, data);
    case Send => SendKeepsInv(st);
    case Emit(headerSz, maxDst, room) => EmitKeepsInv(st, headerSz, maxDst, room);
    case Deliver => DeliverKeepsInv(st);
    case Receive => ReceiveKeepsInv(st);
    case LoseSource => LoseKeepsInv(st, a);
    case LoseTarget => LoseKeepsInv(st, a);
    case Reconnect => ReconnectKeepsInv(st);
  }

  // ---- Whole runs ----

  ghost predicate Steps(st: System, a: Action, st': System) {
    Shaped(st.src) && T.Valid(st.tgt) && Enabled(st, a) && st' == Next(st, a)
  }

  /** `states` is a run from the start through `acts`. */
  ghost predicate IsRun(states: seq<System>, acts: seq<Action>) {
    && |states| == |acts| + 1
    && |states[0].src.block| == |states[0].tgt.block|
    && states[0] == Start(states[0].src.block, states[0].tgt.block)
    && forall i :: 0 <= i < |acts| ==> Steps(states[i], acts[i], states[i + 1])
  }

  lemma {:induction false} RunInv(states: seq<System>, acts: seq<Action>, i: nat)
    requires IsRun(states, acts) && i < |states|
    ensures Inv(states[i]) && states[i].initial == states[0].tgt.block
  {
    hide Next, Inv;
    if i == 0 {
      StartInv(states[0].src.block, states[0].tgt.block);
    } else {
      RunInv(states, acts, i - 1);
      assert Steps(states[i - 1], acts[i - 1], states[i]);
      NextKeepsInv(states[i - 1], acts[i - 1]);
      NextKeepsInitial(states[i - 1], acts[i - 1]);
    }
  }

  lemma NextKeepsInitial(st: System, a: Action)
    requires Shaped(st.src) && T.Valid(st.tgt) && Enabled(st, a)
    ensures Next(st, a).initial == st.initial
    ensures Next(st, a).log == if TakesSnapshot(st, a) then st.log + [st.src.block] else st.log
    ensures Next(st, a).shown == if a.Receive? then st.completed else st.shown
  {
    hide Synchronize, T.Store, T.Receive, SourceBuffers.Write, MakeFrame;
  }

  /** The moments before step `i` at which the sender made a snapshot. */
  ghost function SnapshotTimes(states: seq<System>, acts: seq<Action>, i: nat): (times: seq<nat>)
    requires IsRun(states, acts) && i <= |acts|
    ensures forall k :: 0 <= k < |times| ==> times[k] < i
    ensures forall k, l :: 0 <= k < l < |times| ==> times[k] < times[l]
  {
    if i == 0 then []
    else
      assert Steps(states[i - 1], acts[i - 1], states[i]);
      var before := SnapshotTimes(states, acts, i - 1);
      if TakesSnapshot(states[i - 1], acts[i - 1]) then before + [i - 1] else before
  }

  lemma {:induction false} LogHoldsBlocks(states: seq<System>, acts: seq<Action>, i: nat)
    requires IsRun(states, acts) && i <= |acts|
    ensures var times := SnapshotTimes(states, acts, i);
            && |times| == |states[i].log|
            && forall k :: 0 <= k < |times| ==> states[i].log[k] == states[times[k]].src.block
  {
    hide Next, Inv, TakesSnapshot;
    if i > 0 {
      assert Steps(states[i - 1], acts[i - 1], states[i]);
      LogHoldsBlocks(states, acts, i - 1);
      NextKeepsInitial(states[i - 1], acts[i - 1]);
    }
  }

  /** The moment of the snapshot which the receiver's application sees before
      step `i`, or -1 while it sees the initial contents. */
  ghost function SeenAt(states: seq<System>, acts: seq<Action>, i: nat): int
    requires IsRun(states, acts) && i <= |acts|
  {
    var times := SnapshotTimes(states, acts, i);
    if 0 < states[i].shown <= |times| then times[states[i].shown - 1] else -1
  }

  /** Snapshot consistency: in every run, at every moment, the receiver's block
      is its initial contents or exactly the sender's whole block at an earlier
      synchronize. */
  lemma SnapshotConsistency(states: seq<System>, acts: seq<Action>, i: nat)
    requires IsRun(states, acts) && i <= |acts|
    ensures var j := SeenAt(states, acts, i);
            && j < i
            && (j < 0 ==> states[i].tgt.block == states[0].tgt.block)
            && (j >= 0 ==> states[i].tgt.block == states[j].src.block)
            && (j >= 0 ==> Steps(states[j], acts[j], states[j + 1]) && TakesSnapshot(states[j], acts[j]))
  {
    hide Next;
    RunInv(states, acts, i);
    LogHoldsBlocks(states, acts, i);
    var j := SeenAt(states, acts, i);
    if j >= 0 {
      TimesAreSnapshots(states, acts, i, states[i].shown - 1);
    }
  }

  lemma {:induction false} TimesAreSnapshots(states: seq<System>, acts: seq<Action>, i: nat, k: nat)
    requires IsRun(states, acts) && i <= |acts| && k < |SnapshotTimes(states, acts, i)|
    ensures var j := SnapshotTimes(states, acts, i)[k];
            Steps(states[j], acts[j], states[j + 1]) && TakesSnapshot(states[j], acts[j])
  {
    hide Next;
    if i > 0 {
      assert Steps(states[i - 1], acts[i - 1], states[i]);
      if k < |SnapshotTimes(states, acts, i - 1)| {
        TimesAreSnapshots(states, acts, i - 1, k);
      }
    }
  }

  /** The snapshots seen never go backwards. */
  lemma {:induction false} SnapshotsAdvance(states: seq<System>, acts: seq<Action>, i: nat, j: nat)
    requires IsRun(states, acts) && i <= j <= |acts|
    ensures SeenAt(states, acts, i) <= SeenAt(states, acts, j)
    decreases j - i
  {
    hide IsRun, SeenAt;
    if i < j {
      SnapshotsAdvance(states, acts, i, j - 1);
      SeenAdvances(states, acts, j);
    }
  }

  lemma SeenAdvances(states: seq<System>, acts: seq<Action>, j: nat)
    requires IsRun(states, acts) && 0 < j <= |acts|
    ensures SeenAt(states, acts, j - 1) <= SeenAt(states, acts, j)
  {
    hide Next, TakesSnapshot;
    assert Steps(states[j - 1], acts[j - 1], states[j]);
    assert states[j - 1].shown <= states[j - 1].completed <= |states[j - 1].log| by {
      RunInv(states, acts, j - 1);
    }
    assert |SnapshotTimes(states, acts, j - 1)| == |states[j - 1].log| by {
      LogHoldsBlocks(states, acts, j - 1);
    }
    NextKeepsInitial(states[j - 1], acts[j - 1]);
  }

  // ---- Convergence ----

  /** Nothing is left to synchronize, send, deliver or receive. */
  ghost predicate Quiescent(st: System) {
    && !st.src.makeKey && !st.src.used && st.src.changed.Clean?
    && st.wire == [] && st.tgt.ready.Clean?
  }

  /** In a quiescent state both blocks are equal. */
  lemma QuiescentMeansEqual(st: System)
    requires Inv(st) && Quiescent(st)
    ensures st.src.block == st.tgt.block
  {
    assert st.src.block == st.src.sync;
    assert st.tgt.buf == st.tgt.block;
  }

  /** No write, loss or reconnection. */
  ghost predicate Calm(acts: seq<Action>) {
    forall a :: a in acts ==> a.Send? || a.Emit? || a.Deliver? || a.Receive?
  }

  /** `acts` lead from `st` to `st'` without any write. */
  ghost predicate Settles(st: System, acts: seq<Action>, st': System)
    decreases |acts|
  {
    if acts == [] then st' == st
    else
      && !acts[0].Write?
      && Shaped(st.src) && T.Valid(st.tgt) && Enabled(st, acts[0])
      && Settles(Next(st, acts[0]), acts[1..], st')
  }

  lemma {:induction false} SettlesThen(a: System, x: seq<Action>, b: System, y: seq<Action>, c: System)
    requires Settles(a, x, b) && Settles(b, y, c)
    ensures Settles(a, x + y, c)
    decreases |x|
  {
    hide Next;
    if x == [] {
      assert x + y == y;
    } else {
      assert (x + y)[1..] == x[1..] + y;
      SettlesThen(Next(a, x[0]), x[1..], b, y, c);
    }
  }

  lemma SettlesOne(st: System, a: Action)
    requires Inv(st) && Enabled(st, a) && !a.Write?
    ensures Settles(st, [a], Next(st, a)) && Inv(Next(st, a))
  {
    hide Next, Chain, Covers;
    NextKeepsInv(st, a);
    assert [a][1..] == [];
  }

  /** One emission with enough room sends at least one byte. */
  lemma EmitShrinks(st: System, headerSz: nat, maxDst: nat)
    requires Inv(st) && st.up && st.src.used && maxDst > 0
    ensures var st' := Next(st, Emit(headerSz, maxDst, headerSz + maxDst));
            && st'.up && st'.down == st.down
            && st'.src == st.src.(start := st'.src.start, used := st'.src.used)
            && (st'.src.used ==> st'.src.start > st.src.start)
  {
    hide Chain, Covers, Pack, Unpack;
    var e := MakeFrame(st.src, headerSz, maxDst, headerSz + maxDst);
    var k := FrameCarries(st.src, headerSz, maxDst, headerSz + maxDst, e);
  }

  lemma {:induction false} EmitAll(st: System, headerSz: nat, maxDst: nat) returns (acts: seq<Action>, st': System)
    requires Inv(st) && st.up && maxDst > 0
    ensures Settles(st, acts, st') && Calm(acts) && Inv(st') && !st'.src.used && st'.up && st'.down == st.down
    ensures st'.src == st.src.(start := st'.src.start, used := false)
    decreases if st.src.used then st.src.end + 1 - st.src.start else -1
  {
    hide Next, Chain, Covers;
    acts, st' := [], st;
    if st.src.used {
      var a := Emit(headerSz, maxDst, headerSz + maxDst);
      EmitShrinks(st, headerSz, maxDst);
      SettlesOne(st, a);
      var mid := Next(st, a);
      acts, st' := EmitAll(mid, headerSz, maxDst);
      SettlesThen(st, [a], mid, acts, st');
      acts := [a] + acts;
    }
  }

  lemma {:induction false} DeliverAll(st: System) returns (acts: seq<Action>, st': System)
    requires Inv(st) && st.down
    ensures Settles(st, acts, st') && Calm(acts) && Inv(st') && st'.wire == [] && st'.src == st.src && st'.down
    decreases |st.wire|
  {
    acts, st' := [], st;
    if st.wire != [] {
      SettlesOne(st, Deliver);
      var mid := Next(st, Deliver);
      assert mid.src == st.src && mid.wire == st.wire[1..] && mid.down;
      hide Next, Chain, Covers, Inv;
      acts, st' := DeliverAll(mid);
      SettlesThen(st, [Deliver], mid, acts, st');
      acts := [Deliver] + acts;
    }
  }

  lemma SendReadies(st: System)
    requires Inv(st) && st.up && !st.src.used
    ensures var s := Next(st, Send).src;
            !s.makeKey && s.changed.Clean? && s.block == st.src.block
  {
    hide Chain, T.Valid;
    if Synchronize(st.src).used {
      SnapshotTaken(st.src, if st.src.makeKey then st.src.block else st.src.sync);
    } else {
      IdleSynchronize(st.src);
    }
  }

  /** Convergence: while the connection stands, from every reachable state the protocol
      can settle by itself, for any header size and any frame size, and then the
      receiver holds the sender's present block. */
  lemma CanSettle(st: System, headerSz: nat, maxDst: nat) returns (acts: seq<Action>, st': System)
    requires Inv(st) && st.up && st.down && maxDst > 0
    ensures Settles(st, acts, st') && Calm(acts) && Inv(st') && Quiescent(st')
    ensures st'.src.block == st.src.block && st'.tgt.block == st.src.block
  {
    hide Chain, Covers, Synchronize, Settles, Snapshot, EndsComplete;
    var a1, s1 := EmitAll(st, headerSz, maxDst);
    SendReadies(s1);
    SettlesOne(s1, Send);
    var s2 := Next(s1, Send);
    SettlesThen(st, a1, s1, [Send], s2);
    var a2, s3 := EmitAll(s2, headerSz, maxDst);
    SettlesThen(st, a1 + [Send], s2, a2, s3);
    var a3, s4 := DeliverAll(s3);
    SettlesThen(st, a1 + [Send] + a2, s3, a3, s4);
    SettlesOne(s4, Receive);
    st' := Next(s4, Receive);
    SettlesThen(st, a1 + [Send] + a2 + a3, s4, [Receive], st');
    acts := a1 + [Send] + a2 + a3 + [Receive];
    QuiescentMeansEqual(st');
  }

  /** A broken connection can be made anew: the end that still stands notices the loss,
      and both blocks are as before. */
  lemma CanReconnect(st: System) returns (acts: seq<Action>, st': System)
    requires Inv(st)
    ensures Settles(st, acts, st') && Inv(st') && st'.up && st'.down
    ensures st'.src.block == st.src.block && st'.tgt.block == st.tgt.block
  {
    hide Chain, Covers, Settles;
    acts, st' := [], st;
    NothingSettles(st);
    if st'.up {
      SettlesOne(st', LoseSource);
      SettlesThen(st, acts, st', [LoseSource], Next(st', LoseSource));
      acts, st' := acts + [LoseSource], Next(st', LoseSource);
    }
    if st'.down {
      SettlesOne(st', LoseTarget);
      SettlesThen(st, acts, st', [LoseTarget], Next(st', LoseTarget));
      acts, st' := acts + [LoseTarget], Next(st', LoseTarget);
    }
    SettlesOne(st', Reconnect);
    SettlesThen(st, acts, st', [Reconnect], Next(st', Reconnect));
    acts, st' := acts + [Reconnect], Next(st', Reconnect);
  }

  lemma NothingSettles(st: System)
    ensures Settles(st, [], st)
  {
  }

  /** Whatever has happened, broken connections included, the receiver can come to hold
      the sender's present block without another write. */
  lemma CanConverge(st: System, headerSz: nat, maxDst: nat) returns (acts: seq<Action>, st': System)
    requires Inv(st) && maxDst > 0
    ensures Settles(st, acts, st') && Inv(st') && Quiescent(st') && st'.tgt.block == st'.src.block == st.src.block
  {
    hide Inv, Settles, Quiescent;
    var pre, mid := CanReconnect(st);
    acts, st' := CanSettle(mid, headerSz, maxDst);
    SettlesThen(st, pre, mid, acts, st');
    acts := pre + acts;
  }
}
