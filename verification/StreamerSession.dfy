/** The four step machines of a streamer (code/ioc_streamer.c) on the replicated ring,
    in one session which starts afresh. A call sees one snapshot of the other side. */
module StreamerSession {
  import opened Bytes
  import opened Ring
  import R = StreamerRing

  datatype Step =
    | Initialized | Initialized2 | TransferData | TransferDone | TransferDone2 | AllCompleted
    | Failed | Failed2 | FailedIdle

  /** Both ends of a transfer. The device writes and the controller reads, or the
      other way around when `toDevice`. `full` is history: the reader asked for
      everything there was in the call which saw the transfer completed. */
  datatype Session = Session(ring: R.State, toDevice: bool, ws: Step, rs: Step, full: bool)

  /** What a call is given and finds: whether the other side is connected,
      whether the timeout has elapsed, and the interrupt flag. */
  datatype Call = Call(connected: bool, elapsed: bool, interrupt: bool)

  /** n > 0 or n == 0 bytes to write, or n == -1 to complete. */
  datatype Request = Bytes(data: seq<byte>) | Finish

  datatype Event =
    | WriterCall(call: Call, request: Request)
    | ReaderCall(call: Call, max: nat, moved: bool)
    | Publish | Adopt | PublishBack | AdoptBack

  function Start(n: nat, toDevice: bool): Session
    requires n > 0
  {
    Session(R.Start(n), toDevice, Initialized, Initialized, false)
  }

  /** A step of the ring; every step below is shown to be possible where the
      code takes it. */
  ghost function Do(st: R.State, a: R.Action): R.State {
    if R.Indexed(st) && R.Enabled(st, a) then R.Next(st, a) else st
  }

  predicate Open(sig: R.Sig) {
    sig.Running? || sig.Completed?
  }

  // ---- Writers ----

  /** ioc_streamer_write_internal: store, then set the head if bytes were taken. */
  ghost function WriteBytes(st: R.State, data: seq<byte>): R.State {
    var st' := Do(st, R.Store(data));
    if |st'.accepted| > |st.accepted| then Do(st', R.SetHead) else st'
  }

  ghost function DeviceTransfer(s: Session, c: Call, q: Request): Session {
    if !Open(s.ring.view.sig) || c.interrupt then s.(ws := Failed)
    else match q
      case Finish => s.(ring := Do(s.ring, R.SetOut(R.Completed)), ws := TransferDone)
      case Bytes(data) =>
        if data == [] then s
        else
          var ring := WriteBytes(s.ring, data);
          if ring.accepted == s.ring.accepted && c.elapsed then s.(ring := ring, ws := Failed) else s.(ring := ring)
  }

  /** ioc_streamer_device_write. */
  ghost function DeviceWrite(s: Session, c: Call, q: Request): Session {
    if !c.connected then
      if s.ws.FailedIdle? then s else s.(ring := Do(s.ring, R.SetOut(R.Idle)), ws := FailedIdle)
    else match s.ws
      case Initialized =>
        if !Open(s.ring.view.sig) then s.(ws := Failed)
        else DeviceTransfer(s.(ring := Do(s.ring, R.SetOut(R.Running)), ws := TransferData), c, q)
      case TransferData => DeviceTransfer(s, c, q)
      case TransferDone =>
        if s.ring.view.sig.Running? && !c.elapsed then s
        else s.(ring := Do(Do(s.ring, R.SetOut(R.Idle)), R.ResetHead), ws := AllCompleted)
      case Failed => s.(ring := Do(s.ring, R.SetOut(R.Interrupt)), ws := Failed2)
      case Failed2 =>
        if s.ring.view.sig.Running? && !c.elapsed then s
        else s.(ring := Do(Do(s.ring, R.SetOut(R.Idle)), R.ResetHead), ws := FailedIdle)
      case _ => s
  }

  ghost function ControllerTransfer(s: Session, c: Call, q: Request): Session {
    if !s.ring.view.sig.Running? || c.interrupt then s.(ws := Failed)
    else match q
      case Finish => s.(ring := Do(s.ring, R.SetOut(R.Completed)), ws := TransferDone)
      case Bytes(data) =>
        if data != [] then s.(ring := WriteBytes(s.ring, data))
        else if c.elapsed then s.(ws := Failed) else s
  }

  /** ioc_streamer_controller_write. */
  ghost function ControllerWrite(s: Session, c: Call, q: Request): Session {
    if !c.connected then
      if s.ws.FailedIdle? then s else s.(ring := Do(s.ring, R.SetOut(R.Idle)), ws := FailedIdle)
    else match s.ws
      case Initialized => s.(ring := Do(s.ring, R.SetOut(R.Running)), ws := Initialized2)
      case Initialized2 =>
        if c.interrupt then s.(ws := Failed)
        else if !s.ring.view.sig.Running? then (if c.elapsed then s.(ws := Failed) else s)
        else ControllerTransfer(s.(ws := TransferData), c, q)
      case TransferData => ControllerTransfer(s, c, q)
      case TransferDone =>
        if s.ring.view.sig.Running? && !c.elapsed then s
        else s.(ring := Do(s.ring, R.SetOut(R.Idle)), ws := AllCompleted)
      case Failed => s.(ring := Do(s.ring, R.SetOut(R.Interrupt)), ws := Failed2)
      case Failed2 =>
        if s.ring.view.sig.Running? && !c.elapsed then s
        else s.(ring := Do(s.ring, R.SetOut(R.Idle)), ws := FailedIdle)
      case _ => s
  }

  // ---- Readers ----

  /** ioc_streamer_read_internal: look at the head, take, then set the tail if
      bytes were taken. */
  ghost function ReadBytes(st: R.State, max: nat): R.State {
    var st' := Do(Do(st, R.Look), R.Take(max));
    if |st'.got| > |st.got| then Do(st', R.SetTail) else st'
  }

  /** The bytes which the reader's snapshot offers. */
  function Offered(s: Session): int {
    s.ring.copy.published - |s.ring.got|
  }

  /** The data part common to both readers: `Done` when completion was seen. */
  ghost function ReadTransfer(s: Session, c: Call, max: nat, moved: bool, done: Step): Session {
    if !Open(s.ring.copy.sig) || c.interrupt || !moved then s.(rs := Failed)
    else
      var ring := ReadBytes(s.ring, max);
      if s.ring.copy.sig.Running? then
        s.(ring := ring, rs := if ring.got == s.ring.got && c.elapsed then Failed else TransferData)
      else s.(ring := ring, rs := done, full := max >= Offered(s))
  }

  /** ioc_streamer_controller_read. */
  ghost function ControllerRead(s: Session, c: Call, max: nat, moved: bool): Session {
    if !c.connected then
      if s.rs.FailedIdle? then s else s.(ring := Do(s.ring, R.SetIn(R.Idle)), rs := FailedIdle)
    else match s.rs
      case Initialized => s.(ring := Do(s.ring, R.SetIn(R.Running)), rs := Initialized2)
      case Initialized2 =>
        if !Open(s.ring.copy.sig) then (if c.elapsed then s.(rs := Failed) else s)
        else s.(rs := TransferData)
      case TransferData =>
        var s' := ReadTransfer(s, c, max, moved, TransferDone2);
        if s'.rs.TransferDone2? then s'.(ring := Do(s'.ring, R.SetIn(R.Idle))) else s'
      case TransferDone => s.(ring := Do(s.ring, R.SetIn(R.Idle)), rs := TransferDone2)
      case TransferDone2 =>
        if Open(s.ring.copy.sig) && !c.elapsed then s
        else s.(ring := Do(s.ring, R.ResetTail), rs := AllCompleted)
      case Failed => s.(ring := Do(s.ring, R.SetIn(R.Idle)), rs := Failed2)
      case Failed2 => if s.ring.copy.sig.Running? && !c.elapsed then s else s.(rs := FailedIdle)
      case _ => s
  }

  /** ioc_streamer_device_read. */
  ghost function DeviceRead(s: Session, c: Call, max: nat, moved: bool): Session {
    if !c.connected then
      if s.rs.FailedIdle? then s else s.(ring := Do(s.ring, R.SetIn(R.Idle)), rs := FailedIdle)
    else match s.rs
      case Initialized =>
        if !Open(s.ring.copy.sig) then s.(rs := Failed)
        else
          var s' := s.(ring := Do(s.ring, R.SetIn(R.Running)), rs := TransferData);
          ReadTransfer(s', c, max, moved, TransferDone)
      case TransferData => ReadTransfer(s, c, max, moved, TransferDone)
      case TransferDone => s.(ring := Do(s.ring, R.SetIn(R.Idle)), rs := AllCompleted)
      case Failed => s.(ring := Do(s.ring, R.SetIn(R.Interrupt)), rs := Failed2)
      case Failed2 =>
        if Open(s.ring.copy.sig) && !c.elapsed then s
        else s.(ring := Do(s.ring, R.SetIn(R.Idle)), rs := FailedIdle)
      case _ => s
  }

  ghost function Next(s: Session, e: Event): Session {
    match e
    case WriterCall(c, q) => if s.toDevice then ControllerWrite(s, c, q) else DeviceWrite(s, c, q)
    case ReaderCall(c, max, moved) => if s.toDevice then DeviceRead(s, c, max, moved) else ControllerRead(s, c, max, moved)
    case Publish => s.(ring := Do(s.ring, R.Publish))
    case Adopt => s.(ring := Do(s.ring, R.Adopt))
    case PublishBack => s.(ring := Do(s.ring, R.PublishBack))
    case AdoptBack => s.(ring := Do(s.ring, R.AdoptBack))
  }

  // ---- Invariant ----

  /** The writer may still accept bytes. */
  predicate Writing(ws: Step) {
    ws.Initialized? || ws.Initialized2? || ws.TransferData?
  }

  predicate ReaderDone(rs: Step) {
    rs.TransferDone? || rs.TransferDone2? || rs.AllCompleted?
  }

  /** A snapshot which says it is completed holds everything the writer accepted,
      and the writer accepts no more; one which is open still has its head. */
  ghost predicate Honest(s: Session, o: R.Out) {
    && (Open(o.sig) ==> o.live)
    && (o.sig.Completed? ==> o.published == |s.ring.accepted| && !Writing(s.ws))
    && (!o.live ==> !Writing(s.ws))
  }

  ghost predicate Inv(s: Session) {
    var st := s.ring;
    && R.Inv(st)
    && Honest(s, st.out) && Honest(s, st.copy)
    && (forall i :: 0 <= i < |st.fwd| ==> Honest(s, st.fwd[i]))
    && (!st.rin.live || !st.view.live || (exists i :: 0 <= i < |st.back| && !st.back[i].live) ==> !Writing(s.ws))
    && st.out.published == |st.accepted|
    && (!st.rin.live ==> s.rs.AllCompleted? || s.rs.FailedIdle?)
    && (ReaderDone(s.rs) ==> !Writing(s.ws) && (s.full <==> |st.got| == |st.accepted|))
  }

  lemma StartInv(n: nat, toDevice: bool)
    requires n > 0
    ensures Inv(Start(n, toDevice))
  {
    R.StartInv(n);
  }

  lemma DoKeeps(st: R.State, a: R.Action)
    requires R.Inv(st) && R.Enabled(st, a)
    ensures R.Inv(Do(st, a)) && R.Indexed(st) && Do(st, a) == R.Next(st, a)
  {
    hide R.Inv, R.Next;
    R.NextKeepsInv(st, a);
  }

  /** What a call of the writer may change, apart from its own block. */
  ghost predicate WriterOnly(a: R.State, b: R.State) {
    && b == a.(out := b.out, head := b.head, accepted := b.accepted)
    && a.accepted <= b.accepted
  }

  /** A writer's step keeps the invariant when its own block stays honest. */
  lemma WriterKeepsInv(s: Session, s': Session)
    requires Inv(s) && R.Inv(s'.ring) && WriterOnly(s.ring, s'.ring)
    requires s' == s.(ring := s'.ring, ws := s'.ws)
    requires |s'.ring.accepted| > |s.ring.accepted| ==> Writing(s.ws) && Writing(s'.ws)
    requires Writing(s'.ws) ==> Writing(s.ws)
    requires Honest(s', s'.ring.out) && s'.ring.out.published == |s'.ring.accepted|
    ensures Inv(s')
  {
    hide R.Inv;
    if |s'.ring.accepted| == |s.ring.accepted| {
      assert s'.ring.accepted == s.ring.accepted;
    }
  }

  /** Storing and publishing what was stored. */
  lemma WriteBytesKeeps(st: R.State, data: seq<byte>)
    requires R.Inv(st) && st.out.live && st.view.live && st.out.published == |st.accepted|
    ensures var st' := WriteBytes(st, data);
            && R.Inv(st') && WriterOnly(st, st') && st'.out.published == |st'.accepted|
            && st'.out.live && st'.out.sig == st.out.sig
  {
    hide R.Inv, Stored, Do;
    DoKeeps(st, R.Store(data));
    var st1 := Do(st, R.Store(data));
    DoKeeps(st1, R.SetHead);
    AllStored(st);
    AllStored(st1);
  }

  lemma AllStored(st: R.State)
    requires R.Inv(st)
    ensures st.out.stored == |st.accepted|
  {
    hide R.Slot;
  }

  lemma SetOutKeeps(st: R.State, sig: R.Sig)
    requires R.Inv(st)
    ensures var st' := Do(st, R.SetOut(sig));
            && R.Inv(st') && st' == st.(out := st.out.(sig := sig))
            && R.Inv(Do(st', R.ResetHead)) && Do(st', R.ResetHead) == st.(out := st.out.(sig := sig, live := false, head := 0))
  {
    DoKeeps(st, R.SetOut(sig));
    DoKeeps(Do(st, R.SetOut(sig)), R.ResetHead);
    hide R.Inv;
  }

  lemma DeviceTransferKeepsInv(s: Session, c: Call, q: Request)
    requires Inv(s) && s.ws.TransferData?
    ensures Inv(DeviceTransfer(s, c, q))
  {
    hide R.Inv, WriteBytes, Do;
    SetOutKeeps(s.ring, R.Completed);
    if q.Bytes? {
      WriteBytesKeeps(s.ring, q.data);
    }
    WriterKeepsInv(s, DeviceTransfer(s, c, q));
  }

  lemma ControllerTransferKeepsInv(s: Session, c: Call, q: Request)
    requires Inv(s) && s.ws.TransferData?
    ensures Inv(ControllerTransfer(s, c, q))
  {
    hide R.Inv, WriteBytes, Do;
    SetOutKeeps(s.ring, R.Completed);
    if q.Bytes? {
      WriteBytesKeeps(s.ring, q.data);
    }
    WriterKeepsInv(s, ControllerTransfer(s, c, q));
  }

  /** The writer's signalling steps outside the data transfer. */
  lemma SignalKeepsInv(s: Session, sig: R.Sig, ws: Step, reset: bool)
    requires Inv(s) && (Writing(ws) ==> Writing(s.ws)) && !sig.Completed?
    requires sig.Running? ==> s.ring.out.live && !reset
    requires reset ==> !Writing(ws)
    ensures Inv(s.(ring := Do(s.ring, R.SetOut(sig)), ws := ws)) || reset
    ensures reset ==> Inv(s.(ring := Do(Do(s.ring, R.SetOut(sig)), R.ResetHead), ws := ws))
  {
    SetOutKeeps(s.ring, sig);
    hide R.Inv, Do;
    if reset {
      WriterKeepsInv(s, s.(ring := Do(Do(s.ring, R.SetOut(sig)), R.ResetHead), ws := ws));
    } else {
      WriterKeepsInv(s, s.(ring := Do(s.ring, R.SetOut(sig)), ws := ws));
    }
  }

  lemma StepKeepsInv(s: Session, ws: Step)
    requires Inv(s) && (Writing(ws) ==> Writing(s.ws))
    ensures Inv(s.(ws := ws))
  {
    hide R.Inv;
    WriterKeepsInv(s, s.(ws := ws));
  }

  lemma DeviceWriteKeepsInv(s: Session, c: Call, q: Request)
    requires Inv(s)
    ensures Inv(DeviceWrite(s, c, q))
  {
    hide R.Inv, Do, DeviceTransfer;
    assert Writing(s.ws) ==> s.ring.out.live;
    SignalKeepsInv(s, R.Idle, FailedIdle, false);
    StepKeepsInv(s, Failed);
    SignalKeepsInv(s, R.Interrupt, Failed2, false);
    SignalKeepsInv(s, R.Idle, AllCompleted, true);
    SignalKeepsInv(s, R.Idle, FailedIdle, true);
    if s.ws.Initialized? {
      SignalKeepsInv(s, R.Running, TransferData, false);
      hide Inv;
      DeviceTransferKeepsInv(s.(ring := Do(s.ring, R.SetOut(R.Running)), ws := TransferData), c, q);
    } else if s.ws.TransferData? {
      hide Inv;
      DeviceTransferKeepsInv(s, c, q);
    }
    hide Inv;
  }

  lemma ControllerWriteKeepsInv(s: Session, c: Call, q: Request)
    requires Inv(s)
    ensures Inv(ControllerWrite(s, c, q))
  {
    hide R.Inv, Do, ControllerTransfer;
    assert Writing(s.ws) ==> s.ring.out.live;
    SignalKeepsInv(s, R.Idle, FailedIdle, false);
    SignalKeepsInv(s, R.Idle, AllCompleted, false);
    StepKeepsInv(s, Failed);
    SignalKeepsInv(s, R.Interrupt, Failed2, false);
    if s.ws.Initialized? {
      SignalKeepsInv(s, R.Running, Initialized2, false);
    } else if s.ws.Initialized2? || s.ws.TransferData? {
      StepKeepsInv(s, TransferData);
      hide Inv;
      ControllerTransferKeepsInv(s.(ws := TransferData), c, q);
      assert s.ws.TransferData? ==> s.(ws := TransferData) == s;
    }
    hide Inv;
  }

  // ---- Readers ----

  /** What a call of the reader may change. */
  ghost predicate ReaderOnly(a: R.State, b: R.State) {
    b == a.(rin := b.rin, tail := b.tail, look := b.look, looked := b.looked, got := b.got)
  }

  lemma ReaderKeepsInv(s: Session, s': Session)
    requires Inv(s) && R.Inv(s'.ring) && ReaderOnly(s.ring, s'.ring)
    requires s' == s.(ring := s'.ring, rs := s'.rs, full := s'.full)
    requires !s'.ring.rin.live ==> !Writing(s.ws) && (s'.rs.AllCompleted? || s'.rs.FailedIdle?)
    requires ReaderDone(s'.rs) ==> !Writing(s.ws) && (s'.full <==> |s'.ring.got| == |s.ring.accepted|)
    ensures Inv(s')
  {
    hide R.Inv;
    forall o: R.Out | Honest(s, o)
      ensures Honest(s', o)
    {
    }
  }

  /** Reading takes all that is offered, or as much as was asked for. */
  lemma ReadBytesKeeps(st: R.State, max: nat)
    requires R.Inv(st) && st.copy.live && st.rin.live
    ensures var st' := ReadBytes(st, max);
            && R.Inv(st') && ReaderOnly(st, st') && st'.rin.live
            && |st'.got| == |st.got| + Min(max, st.copy.published - |st.got|)
  {
    hide R.Inv;
    DoKeeps(st, R.Look);
    var st1 := Do(st, R.Look);
    DoKeeps(st1, R.Take(max));
    R.AvailableIs(st1);
    var st2 := Do(st1, R.Take(max));
    DoKeeps(st2, R.SetTail);
  }

  lemma SetInKeeps(st: R.State, sig: R.Sig)
    requires R.Inv(st)
    ensures var st' := Do(st, R.SetIn(sig));
            R.Inv(st') && st' == st.(rin := st.rin.(sig := sig))
    ensures var st' := Do(st, R.ResetTail);
            R.Inv(st') && st' == st.(rin := st.rin.(tail := 0, live := false))
  {
    DoKeeps(st, R.SetIn(sig));
    DoKeeps(st, R.ResetTail);
    hide R.Inv;
  }

  lemma ReadTransferKeepsInv(s: Session, c: Call, max: nat, moved: bool, done: Step)
    requires Inv(s) && s.rs.TransferData? && (done.TransferDone? || done.TransferDone2?)
    ensures Inv(ReadTransfer(s, c, max, moved, done))
    ensures ReadTransfer(s, c, max, moved, done).ring.rin.live
  {
    hide R.Inv, ReadBytes;
    var s' := ReadTransfer(s, c, max, moved, done);
    if Open(s.ring.copy.sig) {
      ReadBytesKeeps(s.ring, max);
    }
    ReaderKeepsInv(s, s');
  }

  lemma ReaderSignalKeepsInv(s: Session, sig: R.Sig, rs: Step)
    requires Inv(s) && !rs.AllCompleted? && s.ring.rin.live
    requires ReaderDone(rs) ==> ReaderDone(s.rs)
    ensures Inv(s.(ring := Do(s.ring, R.SetIn(sig)), rs := rs))
  {
    hide R.Inv, Do;
    SetInKeeps(s.ring, sig);
    ReaderKeepsInv(s, s.(ring := Do(s.ring, R.SetIn(sig)), rs := rs));
  }

  /** Losing the connection. */
  lemma ReaderLostKeepsInv(s: Session)
    requires Inv(s)
    ensures Inv(s.(ring := Do(s.ring, R.SetIn(R.Idle)), rs := FailedIdle))
  {
    hide R.Inv, Do;
    SetInKeeps(s.ring, R.Idle);
    ReaderKeepsInv(s, s.(ring := Do(s.ring, R.SetIn(R.Idle)), rs := FailedIdle));
  }

  lemma ReaderStepKeepsInv(s: Session, rs: Step)
    requires Inv(s) && s.ring.rin.live && !ReaderDone(rs)
    ensures Inv(s.(rs := rs))
  {
    hide R.Inv;
    ReaderKeepsInv(s, s.(rs := rs));
  }

  lemma ReaderFinishKeepsInv(s: Session)
    requires Inv(s) && ReaderDone(s.rs) && s.ring.rin.live
    ensures Inv(s.(ring := Do(s.ring, R.ResetTail), rs := AllCompleted))
    ensures Inv(s.(ring := Do(s.ring, R.SetIn(R.Idle)), rs := AllCompleted))
  {
    hide R.Inv, Do;
    SetInKeeps(s.ring, R.Idle);
    ReaderKeepsInv(s, s.(ring := Do(s.ring, R.ResetTail), rs := AllCompleted));
    ReaderKeepsInv(s, s.(ring := Do(s.ring, R.SetIn(R.Idle)), rs := AllCompleted));
  }

  lemma ControllerReadKeepsInv(s: Session, c: Call, max: nat, moved: bool)
    requires Inv(s)
    ensures Inv(ControllerRead(s, c, max, moved))
  {
    hide R.Inv, Do, ReadTransfer;
    ReaderLostKeepsInv(s);
    if !s.rs.AllCompleted? && !s.rs.FailedIdle? {
      ReaderStepKeepsInv(s, Failed);
      ReaderStepKeepsInv(s, FailedIdle);
      ReaderStepKeepsInv(s, TransferData);
      ReaderSignalKeepsInv(s, R.Running, Initialized2);
      ReaderSignalKeepsInv(s, R.Idle, Failed2);
      if s.rs.TransferData? {
        ReadTransferKeepsInv(s, c, max, moved, TransferDone2);
        var s' := ReadTransfer(s, c, max, moved, TransferDone2);
        if s'.rs.TransferDone2? {
          ReaderSignalKeepsInv(s', R.Idle, TransferDone2);
          assert s'.(ring := Do(s'.ring, R.SetIn(R.Idle)), rs := TransferDone2) == s'.(ring := Do(s'.ring, R.SetIn(R.Idle)));
        }
      } else if ReaderDone(s.rs) {
        ReaderSignalKeepsInv(s, R.Idle, TransferDone2);
        ReaderFinishKeepsInv(s);
      }
    }
    hide Inv;
  }

  lemma DeviceReadKeepsInv(s: Session, c: Call, max: nat, moved: bool)
    requires Inv(s)
    ensures Inv(DeviceRead(s, c, max, moved))
  {
    hide R.Inv, Do, ReadTransfer;
    ReaderLostKeepsInv(s);
    if !s.rs.AllCompleted? && !s.rs.FailedIdle? {
      ReaderStepKeepsInv(s, Failed);
      ReaderSignalKeepsInv(s, R.Interrupt, Failed2);
      ReaderSignalKeepsInv(s, R.Idle, FailedIdle);
      if s.rs.TransferData? {
        ReadTransferKeepsInv(s, c, max, moved, TransferDone);
      } else if s.rs.Initialized? {
        ReaderSignalKeepsInv(s, R.Running, TransferData);
        ReadTransferKeepsInv(s.(ring := Do(s.ring, R.SetIn(R.Running)), rs := TransferData), c, max, moved, TransferDone);
      } else if ReaderDone(s.rs) {
        ReaderFinishKeepsInv(s);
      }
    }
    hide Inv;
  }

  lemma NetworkKeepsInv(s: Session, a: R.Action)
    requires Inv(s) && (a.Publish? || a.Adopt? || a.PublishBack? || a.AdoptBack?)
    ensures Inv(s.(ring := Do(s.ring, a)))
  {
    hide R.Inv;
    if R.Enabled(s.ring, a) {
      DoKeeps(s.ring, a);
      var st, st' := s.ring, Do(s.ring, a);
      forall i | 0 <= i < |st'.fwd|
        ensures Honest(s, st'.fwd[i])
      {
        assert a.Adopt? ==> st'.fwd[i] == st.fwd[i + 1];
      }
      forall i | 0 <= i < |st'.back| && !st'.back[i].live
        ensures !Writing(s.ws)
      {
        assert a.AdoptBack? ==> st'.back[i] == st.back[i + 1];
      }
    }
  }

  lemma NextKeepsInv(s: Session, e: Event)
    requires Inv(s)
    ensures Inv(Next(s, e))
  {
    hide Inv, DeviceWrite, ControllerWrite, DeviceRead, ControllerRead;
    match e
    case WriterCall(c, q) =>
      DeviceWriteKeepsInv(s, c, q);
      ControllerWriteKeepsInv(s, c, q);
    case ReaderCall(c, max, moved) =>
      DeviceReadKeepsInv(s, c, max, moved);
      ControllerReadKeepsInv(s, c, max, moved);
    case Publish => NetworkKeepsInv(s, R.Publish);
    case Adopt => NetworkKeepsInv(s, R.Adopt);
    case PublishBack => NetworkKeepsInv(s, R.PublishBack);
    case AdoptBack => NetworkKeepsInv(s, R.AdoptBack);
  }

  // ---- Completion ----

  ghost function Run(s: Session, events: seq<Event>): Session
    decreases |events|
  {
    if events == [] then s else Run(Next(s, events[0]), events[1..])
  }

  lemma {:induction false} RunKeepsInv(s: Session, events: seq<Event>)
    requires Inv(s)
    ensures Inv(Run(s, events))
    decreases |events|
  {
    hide Inv, Next;
    if events != [] {
      NextKeepsInv(s, events[0]);
      RunKeepsInv(Next(s, events[0]), events[1..]);
    }
  }

  /** Completion: in every run, with timeouts and lost connections at any moment,
      a reader which has completed has got a beginning of what the writer
      accepted, the writer accepts no more, and the reader has got all of it
      exactly when the call that saw the completion asked for all that was
      offered. */
  lemma CompletionIsExact(n: nat, toDevice: bool, events: seq<Event>)
    requires n > 0
    ensures var s := Run(Start(n, toDevice), events);
            && s.ring.got <= s.ring.accepted
            && (ReaderDone(s.rs) ==> !Writing(s.ws) && (s.ring.got == s.ring.accepted <==> s.full))
  {
    StartInv(n, toDevice);
    RunKeepsInv(Start(n, toDevice), events);
    hide Run, Start;
  }

  /** Every reader's call asks for at least what the ring can hold. */
  predicate Generous(n: nat, events: seq<Event>) {
    forall i :: 0 <= i < |events| && events[i].ReaderCall? ==> events[i].max + 1 >= n
  }

  lemma OfferedFits(s: Session)
    requires Inv(s)
    ensures Offered(s) < R.Size(s.ring)
  {
    hide R.Slot;
    assert s.ring.copy.freed <= |s.ring.got|;
  }

  lemma DeviceReadGenerous(s: Session, c: Call, max: nat, moved: bool)
    requires Inv(s) && (ReaderDone(s.rs) ==> s.full) && max >= Offered(s)
    ensures ReaderDone(DeviceRead(s, c, max, moved).rs) ==> DeviceRead(s, c, max, moved).full
  {
    hide Do, ReadTransfer, R.Inv, Honest, Open;
    var s' := s.(ring := Do(s.ring, R.SetIn(R.Running)), rs := TransferData);
    SetInKeeps(s.ring, R.Running);
    hide Inv;
    ReadTransferGenerous(s, c, max, moved);
    ReadTransferGenerous(s', c, max, moved);
  }

  lemma ControllerReadGenerous(s: Session, c: Call, max: nat, moved: bool)
    requires (ReaderDone(s.rs) ==> s.full) && max >= Offered(s)
    ensures ReaderDone(ControllerRead(s, c, max, moved).rs) ==> ControllerRead(s, c, max, moved).full
  {
    hide Do, ReadTransfer, Open;
    ReadTransferGenerous(s, c, max, moved);
  }

  /** The writers leave the reader's step alone. */
  lemma WritersKeepReader(s: Session, c: Call, q: Request)
    ensures ControllerWrite(s, c, q).rs == s.rs && ControllerWrite(s, c, q).full == s.full
    ensures DeviceWrite(s, c, q).rs == s.rs && DeviceWrite(s, c, q).full == s.full
  {
    hide Do, WriteBytes, Open;
  }

  lemma GenerousStep(s: Session, e: Event)
    requires Inv(s) && (ReaderDone(s.rs) ==> s.full)
    requires e.ReaderCall? ==> e.max + 1 >= R.Size(s.ring)
    ensures ReaderDone(Next(s, e).rs) ==> Next(s, e).full
  {
    hide Do, Inv, DeviceRead, ControllerRead, DeviceWrite, ControllerWrite;
    match e
    case ReaderCall(c, max, moved) =>
      OfferedFits(s);
      DeviceReadGenerous(s, c, max, moved);
      ControllerReadGenerous(s, c, max, moved);
    case WriterCall(c, q) => WritersKeepReader(s, c, q);
    case _ =>
  }

  lemma ReadTransferGenerous(s: Session, c: Call, max: nat, moved: bool)
    requires max >= Offered(s)
    ensures forall done :: var s' := ReadTransfer(s, c, max, moved, done);
                           s'.full || s'.rs.Failed? || s'.rs.TransferData?
  {
    hide ReadBytes;
  }

  lemma DoKeepsSize()
    ensures forall st, a :: R.Size(Do(st, a)) == R.Size(st)
  {
    hide Stored;
  }

  lemma NextKeepsSize(s: Session, e: Event)
    ensures R.Size(Next(s, e).ring) == R.Size(s.ring)
  {
    DoKeepsSize();
    hide Do;
  }

  lemma {:induction false} GenerousRun(s: Session, events: seq<Event>)
    requires Inv(s) && (ReaderDone(s.rs) ==> s.full) && Generous(R.Size(s.ring), events)
    ensures ReaderDone(Run(s, events).rs) ==> Run(s, events).full
    decreases |events|
  {
    hide Inv, Next;
    if events != [] {
      NextKeepsInv(s, events[0]);
      GenerousStep(s, events[0]);
      NextKeepsSize(s, events[0]);
      GenerousRun(Next(s, events[0]), events[1..]);
    }
  }

  /** A reader which always asks for at least the ring's capacity has, when it
      completes, received every byte the writer accepted. */
  lemma GenerousReaderGetsAll(n: nat, toDevice: bool, events: seq<Event>)
    requires n > 0 && Generous(n, events)
    ensures var s := Run(Start(n, toDevice), events);
            ReaderDone(s.rs) ==> s.ring.got == s.ring.accepted
  {
    StartInv(n, toDevice);
    GenerousRun(Start(n, toDevice), events);
    CompletionIsExact(n, toDevice, events);
    hide Run;
  }

  /** A reader which asks for less can complete without the last bytes: in the
      call that finds the transfer completed it reads what it asked for and is
      done, whatever is left in the ring. */
  lemma ShortReadLoses(s: Session, c: Call, max: nat)
    requires Inv(s) && s.rs.TransferData? && s.ring.copy.sig.Completed?
    requires c.connected && !c.interrupt && max < Offered(s)
    ensures var s' := Next(s, ReaderCall(c, max, true));
            ReaderDone(s'.rs) && |s'.ring.got| < |s'.ring.accepted|
  {
    hide R.Inv;
    ReadBytesKeeps(s.ring, max);
    var ring := ReadBytes(s.ring, max);
    SetInKeeps(ring, R.Idle);
    hide ReadBytes, Do;
  }

  /** A run which loses a byte: a ring of four, two bytes written, and a reader
      which asks for one byte when it finds the transfer completed. */
  function LossyRun(): seq<Event> {
    [ReaderCall(OK, 1, true), PublishBack, AdoptBack, WriterCall(OK, Bytes([7, 8])), WriterCall(OK, Finish),
     Publish, Adopt, ReaderCall(OK, 1, true), ReaderCall(OK, 1, true)]
  }

  const OK := Call(true, false, false)

  lemma ReaderOpens(s: Session)
    requires Inv(s) && !s.toDevice && s.rs.Initialized?
    ensures var s' := Next(s, ReaderCall(OK, 1, true));
            Inv(s') && s' == s.(ring := s.ring.(rin := s.ring.rin.(sig := R.Running)), rs := Initialized2)
  {
    NextKeepsInv(s, ReaderCall(OK, 1, true));
    SetInKeeps(s.ring, R.Running);
    hide Inv, Do;
  }

  lemma TailCrosses(s: Session)
    requires Inv(s) && s.ring.back == []
    ensures var s' := Next(Next(s, PublishBack), AdoptBack);
            Inv(s') && s' == s.(ring := s.ring.(view := s.ring.rin, out := s.ring.out.(freed := s.ring.rin.taken)))
  {
    hide R.Inv;
    var s1 := Next(s, PublishBack);
    NextKeepsInv(s, PublishBack);
    DoKeeps(s.ring, R.PublishBack);
    assert s1.ring == s.ring.(back := [s.ring.rin]);
    NextKeepsInv(s1, AdoptBack);
    DoKeeps(s1.ring, R.AdoptBack);
    assert [s.ring.rin][1..] == [];
  }

  lemma BlockCrosses(s: Session)
    requires Inv(s) && s.ring.fwd == []
    ensures var s' := Next(Next(s, Publish), Adopt);
            Inv(s') && s' == s.(ring := s.ring.(copy := s.ring.out))
  {
    hide R.Inv;
    var s1 := Next(s, Publish);
    NextKeepsInv(s, Publish);
    DoKeeps(s.ring, R.Publish);
    assert s1.ring == s.ring.(fwd := [s.ring.out]);
    NextKeepsInv(s1, Adopt);
    DoKeeps(s1.ring, R.Adopt);
    assert [s.ring.out][1..] == [];
  }

  lemma WriterStores(s: Session, data: seq<byte>)
    requires Inv(s) && !s.toDevice && s.ws.Initialized? && s.ring.view.sig.Running? && data != []
    requires R.Indexed(s.ring) && |data| <= Free(s.ring.head, s.ring.view.tail, R.Size(s.ring))
    ensures var s' := Next(s, WriterCall(OK, Bytes(data)));
            && Inv(s') && s'.ws.TransferData? && s'.ring.accepted == s.ring.accepted + data
            && s' == s.(ring := s'.ring, ws := s'.ws) && WriterOnly(s.ring, s'.ring)
  {
    NextKeepsInv(s, WriterCall(OK, Bytes(data)));
    hide R.Inv, WriteBytes, Do;
    SetOutKeeps(s.ring, R.Running);
    var st := Do(s.ring, R.SetOut(R.Running));
    WriteBytesKeeps(st, data);
    StoresAll(st, data);
    hide Inv;
  }

  lemma StoresAll(st: R.State, data: seq<byte>)
    requires R.Inv(st) && st.out.live && st.view.live && R.Indexed(st)
    requires |data| <= Free(st.head, st.view.tail, R.Size(st))
    ensures WriteBytes(st, data).accepted == st.accepted + data
  {
    hide R.Inv, Stored;
    DoKeeps(st, R.Store(data));
    assert data[..|data|] == data;
  }

  lemma WriterFinishes(s: Session)
    requires Inv(s) && !s.toDevice && s.ws.TransferData? && s.ring.view.sig.Running?
    ensures var s' := Next(s, WriterCall(OK, Finish));
            Inv(s') && s' == s.(ring := s.ring.(out := s.ring.out.(sig := R.Completed)), ws := TransferDone)
  {
    NextKeepsInv(s, WriterCall(OK, Finish));
    SetOutKeeps(s.ring, R.Completed);
    hide Inv, Do;
  }

  lemma ReaderProceeds(s: Session)
    requires Inv(s) && !s.toDevice && s.rs.Initialized2? && Open(s.ring.copy.sig)
    ensures var s' := Next(s, ReaderCall(OK, 1, true));
            Inv(s') && s' == s.(rs := TransferData)
  {
    NextKeepsInv(s, ReaderCall(OK, 1, true));
    hide Inv;
  }

  lemma LossyOpening()
    ensures var s := Next(Next(Next(Start(4, false), ReaderCall(OK, 1, true)), PublishBack), AdoptBack);
            && Inv(s) && !s.toDevice && s.ws.Initialized? && s.rs.Initialized2? && s.ring.view.sig.Running?
            && R.Indexed(s.ring) && Free(s.ring.head, s.ring.view.tail, R.Size(s.ring)) == 3
            && s.ring.accepted == [] && s.ring.got == [] && s.ring.fwd == []
  {
    var s0 := Start(4, false);
    StartInv(4, false);
    hide Inv, Next;
    ReaderOpens(s0);
    TailCrosses(Next(s0, ReaderCall(OK, 1, true)));
  }

  /** Loss is possible: this run completes at the reader with the first byte of
      the two which were written. */
  lemma LossIsPossible()
    ensures var s := Run(Start(4, false), LossyRun());
            ReaderDone(s.rs) && s.ring.accepted == [7, 8] && |s.ring.got| < 2
  {
    hide Inv, Next, Start, Run, LossyRun, R.Indexed;
    LossyOpening();
    var s0 := Start(4, false);
    var s3 := Next(Next(Next(s0, ReaderCall(OK, 1, true)), PublishBack), AdoptBack);
    WriterStores(s3, [7, 8]);
    var s4 := Next(s3, WriterCall(OK, Bytes([7, 8])));
    WriterFinishes(s4);
    var s5 := Next(s4, WriterCall(OK, Finish));
    BlockCrosses(s5);
    var s7 := Next(Next(s5, Publish), Adopt);
    ReaderProceeds(s7);
    var s8 := Next(s7, ReaderCall(OK, 1, true));
    CompletedOffers(s8);
    ShortReadLoses(s8, OK, 1);
    ReaderKeepsAccepted(s8, 1);
    RunIs(s0, Next(s8, ReaderCall(OK, 1, true)));
  }

  lemma CompletedOffers(s: Session)
    requires Inv(s) && s.ring.copy.sig.Completed?
    ensures Offered(s) == |s.ring.accepted| - |s.ring.got|
  {
    hide R.Inv;
  }

  lemma ReaderKeepsAccepted(s: Session, max: nat)
    requires Inv(s) && s.rs.TransferData? && s.ring.copy.sig.Completed? && !s.toDevice
    ensures Next(s, ReaderCall(OK, max, true)).ring.accepted == s.ring.accepted
  {
    hide R.Inv;
    ReadBytesKeeps(s.ring, max);
    SetInKeeps(ReadBytes(s.ring, max), R.Idle);
    hide ReadBytes, Do;
  }

  lemma RunIs(s: Session, t: Session)
    requires var read := ReaderCall(OK, 1, true);
             var a := Next(Next(Next(s, read), PublishBack), AdoptBack);
             var b := Next(Next(a, WriterCall(OK, Bytes([7, 8]))), WriterCall(OK, Finish));
             t == Next(Next(Next(Next(b, Publish), Adopt), read), read)
    ensures Run(s, LossyRun()) == t
  {
    hide Next;
    var e := LossyRun();
    assert e[1..][1..] == e[2..] && e[2..][1..] == e[3..] && e[3..][1..] == e[4..] && e[4..][1..] == e[5..];
    assert e[5..][1..] == e[6..] && e[6..][1..] == e[7..] && e[7..][1..] == e[8..] && e[8..][1..] == [];
    var s2 := Next(Next(s, e[0]), e[1]);
    assert Run(s, e) == Run(s2, e[2..]);
    var s4 := Next(Next(s2, e[2]), e[3]);
    assert Run(s2, e[2..]) == Run(s4, e[4..]);
    var s6 := Next(Next(s4, e[4]), e[5]);
    assert Run(s4, e[4..]) == Run(s6, e[6..]);
    var s8 := Next(Next(s6, e[6]), e[7]);
    assert Run(s6, e[6..]) == Run(s8, e[8..]);
  }
}
