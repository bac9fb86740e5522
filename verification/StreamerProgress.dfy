/** Transfers complete: for both directions and any data there is a run of calls without
    a timeout or interrupt after which both ends are done and every byte has crossed. */
module StreamerProgress {
  import opened Bytes
  import opened Ring
  import R = StreamerRing
  import opened StreamerSession

  // ---- Runs ----

  /** Calls that find the other side connected, no timeout elapsed and no interrupt. */
  predicate Smooth(events: seq<Event>) {
    forall i :: 0 <= i < |events| ==>
      (events[i].WriterCall? ==> events[i].call == OK) &&
      (events[i].ReaderCall? ==> events[i].call == OK && events[i].moved)
  }

  ghost predicate Leads(s: Session, events: seq<Event>, t: Session) {
    Smooth(events) && Run(s, events) == t
  }

  lemma {:induction false} LeadsThen(s: Session, a: seq<Event>, t: Session, b: seq<Event>, u: Session)
    requires Leads(s, a, t) && Leads(t, b, u)
    ensures Leads(s, a + b, u)
    decreases |a|
  {
    hide Next;
    if a == [] {
      assert a + b == b;
    } else {
      assert (a + b)[1..] == a[1..] + b;
      assert Leads(Next(s, a[0]), a[1..], t);
      LeadsThen(Next(s, a[0]), a[1..], t, b, u);
    }
  }

  lemma LeadsOne(s: Session, e: Event)
    requires Smooth([e])
    ensures Leads(s, [e], Next(s, e))
  {
    hide Next;
    assert [e][1..] == [];
    assert Run(Next(s, e), []) == Next(s, e);
  }

  /** One more event. */
  lemma LeadsOn(s: Session, a: seq<Event>, t: Session, e: Event)
    requires Leads(s, a, t) && Smooth([e])
    ensures Leads(s, a + [e], Next(t, e))
  {
    hide Leads;
    LeadsOne(t, e);
    LeadsThen(s, a, t, [e], Next(t, e));
  }

  // ---- Blocks cross ----

  /** The reader's and then the writer's block cross. */
  ghost function Crossed(s: Session): Session {
    Next(Next(Next(Next(s, PublishBack), AdoptBack), Publish), Adopt)
  }

  lemma Cross(s: Session, a: seq<Event>, t: Session) returns (b: seq<Event>)
    requires Leads(s, a, t) && Inv(t) && t.ring.fwd == [] && t.ring.back == []
    ensures Leads(s, b, Crossed(t)) && Inv(Crossed(t))
    ensures var out := t.ring.out.(freed := t.ring.rin.taken);
      Crossed(t) == t.(ring := t.ring.(view := t.ring.rin, out := out, copy := out))
  {
    hide Leads, Inv;
    LeadsOn(s, a, t, PublishBack);
    LeadsOn(s, a + [PublishBack], Next(t, PublishBack), AdoptBack);
    TailCrosses(t);
    var u := Next(Next(t, PublishBack), AdoptBack);
    b := a + [PublishBack] + [AdoptBack];
    LeadsOn(s, b, u, Publish);
    LeadsOn(s, b + [Publish], Next(u, Publish), Adopt);
    BlockCrosses(u);
    b := b + [Publish] + [Adopt];
  }

  // ---- The middle of a transfer ----

  /** Both ends transfer, everything accepted has been taken, and both know it. */
  ghost predicate Flowing(s: Session, n: nat) {
    && Inv(s) && n >= 2 && R.Size(s.ring) == n
    && s.ring.fwd == [] && s.ring.back == [] && s.ring.copy == s.ring.out && s.ring.view == s.ring.rin
    && s.ws.TransferData? && s.rs.TransferData?
    && s.ring.out.sig.Running? && s.ring.rin.sig.Running? && s.ring.out.live && s.ring.rin.live
    && s.ring.got == s.ring.accepted && s.ring.rin.taken == |s.ring.got|
  }

  /** With everything taken the whole ring but one slot is free. */
  lemma AllFree(s: Session, n: nat)
    requires Flowing(s, n)
    ensures R.Indexed(s.ring) && Free(s.ring.head, s.ring.view.tail, n) == n - 1
  {
    hide R.Slot, R.Order, Honest;
    R.SlotGap(s.ring.view.taken, s.ring.out.stored, n);
  }

  lemma StoresSome(st: R.State, data: seq<byte>)
    requires R.Inv(st) && st.out.live && st.view.live && R.Indexed(st)
    ensures WriteBytes(st, data).accepted == st.accepted + data[..R.Taking(st, data)]
  {
    hide R.Inv, Stored, R.Taking;
    DoKeeps(st, R.Store(data));
  }

  /** The writer's call stores at least one byte. */
  lemma WriterMoves(s: Session, n: nat, data: seq<byte>) returns (k: nat)
    requires Flowing(s, n) && data != []
    ensures var s' := Next(s, WriterCall(OK, Request.Bytes(data)));
      && 0 < k <= |data| && Inv(s') && s' == s.(ring := s'.ring) && WriterOnly(s.ring, s'.ring)
      && s'.ring.accepted == s.ring.accepted + data[..k] && R.Size(s'.ring) == n
      && s'.ring.out.live && s'.ring.out.sig.Running? && s'.ring.out.published == |s'.ring.accepted|
  {
    hide R.Inv, Honest, WriteBytes, Stored;
    AllFree(s, n);
    k := R.Taking(s.ring, data);
    StoresSome(s.ring, data);
    WriteBytesKeeps(s.ring, data);
    NextKeepsInv(s, WriterCall(OK, Request.Bytes(data)));
    NextKeepsSize(s, WriterCall(OK, Request.Bytes(data)));
    hide Inv, Do, R.Taking;
  }

  /** The reader's call takes all there is. */
  lemma ReaderTakesAll(s: Session, n: nat)
    requires Inv(s) && R.Size(s.ring) == n && s.rs.TransferData? && s.ring.copy == s.ring.out
    requires s.ring.out.live && s.ring.rin.live && s.ring.out.sig.Running?
    requires s.ring.out.published == |s.ring.accepted| > |s.ring.got|
    ensures var s' := Next(s, ReaderCall(OK, n, true));
      && Inv(s') && s' == s.(ring := s'.ring) && ReaderOnly(s.ring, s'.ring) && R.Size(s'.ring) == n
      && s'.ring.got == s.ring.accepted && s'.ring.rin == s.ring.rin.(tail := s'.ring.rin.tail, taken := |s.ring.accepted|)
  {
    hide Inv, R.Inv, Do, ReadBytes;
    RingInv(s);
    OfferedFits(s);
    ReadBytesKeeps(s.ring, n);
    ReadsIn(s.ring, n);
    GotIsPrefix(ReadBytes(s.ring, n));
    NextKeepsInv(s, ReaderCall(OK, n, true));
    NextKeepsSize(s, ReaderCall(OK, n, true));
  }

  lemma GotIsPrefix(st: R.State)
    requires R.Inv(st)
    ensures st.got <= st.accepted
  {
    hide R.Slot;
  }

  /** Reading changes the reader's block in the tail and the count only. */
  lemma ReadsIn(st: R.State, max: nat)
    requires R.Inv(st) && st.copy.live && st.rin.live
    ensures var st' := ReadBytes(st, max);
      && |st'.got| >= |st.got|
      && (|st'.got| > |st.got| ==> st'.rin == st.rin.(tail := st'.rin.tail, taken := |st'.got|))
      && (|st'.got| == |st.got| ==> st'.rin == st.rin)
  {
    hide R.Inv;
    DoKeeps(st, R.Look);
    var st1 := Do(st, R.Look);
    DoKeeps(st1, R.Take(max));
    var st2 := Do(st1, R.Take(max));
    DoKeeps(st2, R.SetTail);
    hide Do;
  }

  /** One round: some bytes are stored, cross, and are taken. */
  lemma Round(s0: Session, a: seq<Event>, s: Session, n: nat, data: seq<byte>)
    returns (b: seq<Event>, t: Session, k: nat)
    requires Leads(s0, a, s) && Flowing(s, n) && data != []
    ensures Leads(s0, b, t) && Flowing(t, n) && t.toDevice == s.toDevice
    ensures 0 < k <= |data| && t.ring.accepted == s.ring.accepted + data[..k]
  {
    hide Leads, R.Inv;
    k := WriterMoves(s, n, data);
    var e := WriterCall(OK, Request.Bytes(data));
    var s1 := Next(s, e);
    LeadsOn(s0, a, s, e);
    hide Inv;
    b := Cross(s0, a + [e], s1);
    var s2 := Crossed(s1);
    hide Next, Crossed;
    ReaderTakesAll(s2, n);
    var s3 := Next(s2, ReaderCall(OK, n, true));
    LeadsOn(s0, b, s2, ReaderCall(OK, n, true));
    b := Cross(s0, b + [ReaderCall(OK, n, true)], s3);
    t := Crossed(s3);
  }

  lemma {:induction false} Rounds(s0: Session, a: seq<Event>, s: Session, n: nat, data: seq<byte>)
    returns (b: seq<Event>, t: Session)
    requires Leads(s0, a, s) && Flowing(s, n)
    ensures Leads(s0, b, t) && Flowing(t, n) && t.toDevice == s.toDevice && t.ring.accepted == s.ring.accepted + data
    decreases |data|
  {
    hide Leads, Flowing;
    b, t := a, s;
    if data != [] {
      var k;
      b, t, k := Round(s0, a, s, n, data);
      assert s.ring.accepted + data[..k] + data[k..] == s.ring.accepted + data;
      b, t := Rounds(s0, b, t, n, data[k..]);
    }
  }

  // ---- The beginning ----

  /** A call of the writer before it has stored anything. */
  const Nothing := WriterCall(OK, Request.Bytes([]))

  /** A fresh session: the blocks agree and nothing has been stored. */
  ghost predicate Fresh(s: Session, n: nat) {
    && Inv(s) && n >= 2 && R.Size(s.ring) == n
    && s.ring.fwd == [] && s.ring.back == [] && s.ring.copy == s.ring.out && s.ring.view == s.ring.rin
    && s.ring.out.live && s.ring.rin.live && s.ring.got == s.ring.accepted == [] && s.ring.rin.taken == 0
  }

  /** The device opens the transfer as a writer, the controller as a reader. */
  lemma FromDeviceOpens(s0: Session, a: seq<Event>, s: Session, n: nat) returns (b: seq<Event>, t: Session)
    requires Leads(s0, a, s) && Fresh(s, n) && !s.toDevice && s.ws.Initialized? && s.rs.Initialized?
    ensures Leads(s0, b, t) && Flowing(t, n) && t.toDevice == s.toDevice && t.ring.accepted == []
  {
    hide Leads, R.Inv;
    var read := ReaderCall(OK, n, true);
    LeadsOn(s0, a, s, read);
    SetInKeeps(s.ring, R.Running);
    NextKeepsInv(s, read);
    var s1 := Next(s, read);
    assert s1 == s.(ring := s.ring.(rin := s.ring.rin.(sig := R.Running)), rs := Initialized2);
    hide Inv;
    b := Cross(s0, a + [read], s1);
    var s2 := Crossed(s1);
    LeadsOn(s0, b, s2, Nothing);
    DeviceStarts(s2);
    var s3 := Next(s2, Nothing);
    b := Cross(s0, b + [Nothing], s3);
    var s4 := Crossed(s3);
    LeadsOn(s0, b, s4, read);
    ControllerProceeds(s4, n);
    b, t := b + [read], Next(s4, read);
  }

  lemma DeviceStarts(s: Session)
    requires Inv(s) && !s.toDevice && s.ws.Initialized? && Open(s.ring.view.sig)
    ensures var s' := Next(s, Nothing);
      Inv(s') && s' == s.(ring := s.ring.(out := s.ring.out.(sig := R.Running)), ws := TransferData)
  {
    SetOutKeeps(s.ring, R.Running);
    NextKeepsInv(s, Nothing);
    hide Inv, Do;
  }

  lemma ControllerProceeds(s: Session, n: nat)
    requires Inv(s) && !s.toDevice && s.rs.Initialized2? && Open(s.ring.copy.sig)
    ensures var s' := Next(s, ReaderCall(OK, n, true));
      Inv(s') && s' == s.(rs := TransferData)
  {
    NextKeepsInv(s, ReaderCall(OK, n, true));
    hide Inv;
  }

  /** The controller opens the transfer as a writer, the device as a reader. */
  lemma ToDeviceOpens(s0: Session, a: seq<Event>, s: Session, n: nat) returns (b: seq<Event>, t: Session)
    requires Leads(s0, a, s) && Fresh(s, n) && s.toDevice && s.ws.Initialized? && s.rs.Initialized?
    ensures Leads(s0, b, t) && Flowing(t, n) && t.toDevice == s.toDevice && t.ring.accepted == []
  {
    hide Leads, R.Inv;
    var read := ReaderCall(OK, n, true);
    LeadsOn(s0, a, s, Nothing);
    SetOutKeeps(s.ring, R.Running);
    NextKeepsInv(s, Nothing);
    var s1 := Next(s, Nothing);
    assert s1 == s.(ring := s.ring.(out := s.ring.out.(sig := R.Running)), ws := Initialized2);
    hide Inv;
    b := Cross(s0, a + [Nothing], s1);
    var s2 := Crossed(s1);
    LeadsOn(s0, b, s2, read);
    DeviceReaderStarts(s2, n);
    var s3 := Next(s2, read);
    b := Cross(s0, b + [read], s3);
    var s4 := Crossed(s3);
    LeadsOn(s0, b, s4, Nothing);
    ControllerWriterProceeds(s4);
    b, t := b + [Nothing], Next(s4, Nothing);
  }

  lemma DeviceReaderStarts(s: Session, n: nat)
    requires Inv(s) && s.toDevice && s.rs.Initialized? && s.ring.copy.sig.Running? && s.ring.rin.live
    requires s.ring.copy.live && s.ring.copy.published == |s.ring.got|
    ensures var s' := Next(s, ReaderCall(OK, n, true));
      && Inv(s') && s'.rs.TransferData? && s' == s.(ring := s'.ring, rs := s'.rs)
      && ReaderOnly(s.ring, s'.ring) && s'.ring.got == s.ring.got && s'.ring.rin == s.ring.rin.(sig := R.Running)
  {
    SetInKeeps(s.ring, R.Running);
    var ring := Do(s.ring, R.SetIn(R.Running));
    ReadBytesKeeps(ring, n);
    ReadsIn(ring, n);
    NextKeepsInv(s, ReaderCall(OK, n, true));
    hide Inv, Do, ReadBytes, R.Inv;
    var read := ReadBytes(ring, n);
    SameLength(read, ring);
  }

  /** Without more bytes the reader has what it had. */
  lemma SameLength(a: R.State, b: R.State)
    requires R.Inv(a) && R.Inv(b) && a.accepted == b.accepted && |a.got| == |b.got|
    ensures a.got == b.got
  {
    GotIsPrefix(a);
    GotIsPrefix(b);
    hide R.Inv;
    assert a.got == a.accepted[..|a.got|];
  }

  lemma ControllerWriterProceeds(s: Session)
    requires Inv(s) && s.toDevice && s.ws.Initialized2? && s.ring.view.sig.Running?
    ensures var s' := Next(s, Nothing);
      Inv(s') && s' == s.(ws := TransferData)
  {
    NextKeepsInv(s, Nothing);
    hide Inv;
  }

  // ---- The end ----

  /** Both ends have completed and signal idle; after a transfer from the device head and
      tail are zero again. */
  ghost predicate AtRest(s: Session) {
    && s.ws.AllCompleted? && s.rs.AllCompleted? && s.ring.out.sig.Idle? && s.ring.rin.sig.Idle?
    && (!s.toDevice ==> s.ring.out.head == 0 && s.ring.rin.tail == 0)
  }

  const End := WriterCall(OK, Finish)

  /** The writer says that the transfer is complete. */
  lemma Finishes(s: Session, n: nat)
    requires Flowing(s, n)
    ensures var s' := Next(s, End);
      Inv(s') && s' == s.(ring := s.ring.(out := s.ring.out.(sig := R.Completed)), ws := TransferDone)
  {
    SetOutKeeps(s.ring, R.Completed);
    NextKeepsInv(s, End);
    hide Inv, Do;
  }

  /** The reader has seen it. */
  lemma ReaderSees(s: Session, n: nat)
    requires Inv(s) && s.rs.TransferData? && s.ring.copy == s.ring.out && s.ring.out.sig.Completed?
    requires s.ring.out.live && s.ring.rin.live && s.ring.got == s.ring.accepted
    ensures var s' := Next(s, ReaderCall(OK, n, true));
      && Inv(s') && s' == s.(ring := s'.ring, rs := s'.rs, full := s'.full) && ReaderOnly(s.ring, s'.ring)
      && s'.ring.got == s.ring.got
      && (if s.toDevice then s'.rs.TransferDone? && s'.ring.rin == s.ring.rin
          else s'.rs.TransferDone2? && s'.ring.rin == s.ring.rin.(sig := R.Idle))
  {
    hide Inv, Do, ReadBytes, R.Inv;
    RingInv(s);
    CompletedOffers(s);
    ReadBytesKeeps(s.ring, n);
    ReadsIn(s.ring, n);
    var ring := ReadBytes(s.ring, n);
    SameLength(ring, s.ring);
    SetInKeeps(ring, R.Idle);
    NextKeepsInv(s, ReaderCall(OK, n, true));
  }

  lemma RingInv(s: Session)
    requires Inv(s)
    ensures R.Inv(s.ring)
  {
    hide R.Inv;
  }

  /** From the device: the controller's reader has said it is done, the device's writer
      closes, and then the reader. */
  lemma FromDeviceCloses(s0: Session, a: seq<Event>, s: Session, n: nat) returns (b: seq<Event>, t: Session)
    requires Leads(s0, a, s) && Inv(s) && !s.toDevice && s.ws.TransferDone? && s.rs.TransferDone2?
    requires s.ring.fwd == [] && s.ring.back == [] && s.ring.view.sig.Idle? && s.ring.rin.sig.Idle?
    requires s.ring.out.live && s.ring.rin.live
    ensures Leads(s0, b, t) && AtRest(t)
    ensures t.ring.got == s.ring.got && t.ring.accepted == s.ring.accepted
  {
    hide Leads, R.Inv;
    LeadsOn(s0, a, s, End);
    NextKeepsInv(s, End);
    SetOutKeeps(s.ring, R.Idle);
    var mid := Do(s.ring, R.SetOut(R.Idle));
    DoKeeps(mid, R.ResetHead);
    var s1 := Next(s, End);
    assert s1 == s.(ring := mid.(out := mid.out.(head := 0, live := false)), ws := AllCompleted);
    hide Inv, Do;
    b := Cross(s0, a + [End], s1);
    var s2 := Crossed(s1);
    var read := ReaderCall(OK, n, true);
    LeadsOn(s0, b, s2, read);
    ReaderCloses(s2, n);
    b, t := b + [read], Next(s2, read);
  }

  lemma ReaderCloses(s: Session, n: nat)
    requires Inv(s) && !s.toDevice && s.rs.TransferDone2? && !Open(s.ring.copy.sig)
    ensures var s' := Next(s, ReaderCall(OK, n, true));
      s' == s.(ring := s.ring.(rin := s.ring.rin.(tail := 0, live := false)), rs := AllCompleted)
  {
    SetInKeeps(s.ring, R.Idle);
    hide Inv, Do;
  }

  /** To the device: its reader closes, and then the controller's writer. */
  lemma ToDeviceCloses(s0: Session, a: seq<Event>, s: Session, n: nat) returns (b: seq<Event>, t: Session)
    requires Leads(s0, a, s) && Inv(s) && s.toDevice && s.ws.TransferDone? && s.rs.TransferDone?
    requires s.ring.fwd == [] && s.ring.back == []
    ensures Leads(s0, b, t) && AtRest(t)
    ensures t.ring.got == s.ring.got && t.ring.accepted == s.ring.accepted
  {
    hide Leads, R.Inv;
    var read := ReaderCall(OK, n, true);
    LeadsOn(s0, a, s, read);
    NextKeepsInv(s, read);
    SetInKeeps(s.ring, R.Idle);
    var s1 := Next(s, read);
    assert s1 == s.(ring := s.ring.(rin := s.ring.rin.(sig := R.Idle)), rs := AllCompleted);
    hide Inv, Do;
    b := Cross(s0, a + [read], s1);
    var s2 := Crossed(s1);
    LeadsOn(s0, b, s2, End);
    WriterCloses(s2);
    b, t := b + [End], Next(s2, End);
  }

  lemma WriterCloses(s: Session)
    requires Inv(s) && s.toDevice && s.ws.TransferDone? && !s.ring.view.sig.Running?
    ensures var s' := Next(s, End);
      s' == s.(ring := s.ring.(out := s.ring.out.(sig := R.Idle)), ws := AllCompleted)
  {
    SetOutKeeps(s.ring, R.Idle);
    hide Inv, Do;
  }

  /** Everything is stored and taken: the transfer can be closed at both ends. */
  lemma Closes(s0: Session, a: seq<Event>, s: Session, n: nat) returns (b: seq<Event>, t: Session)
    requires Leads(s0, a, s) && Flowing(s, n)
    ensures Leads(s0, b, t) && AtRest(t)
    ensures t.ring.got == t.ring.accepted == s.ring.accepted
  {
    hide Leads, R.Inv;
    LeadsOn(s0, a, s, End);
    Finishes(s, n);
    var s1 := Next(s, End);
    hide Inv;
    b := Cross(s0, a + [End], s1);
    var s2 := Crossed(s1);
    var read := ReaderCall(OK, n, true);
    LeadsOn(s0, b, s2, read);
    ReaderSees(s2, n);
    var s3 := Next(s2, read);
    b := Cross(s0, b + [read], s3);
    var s4 := Crossed(s3);
    if s.toDevice {
      b, t := ToDeviceCloses(s0, b, s4, n);
    } else {
      b, t := FromDeviceCloses(s0, b, s4, n);
    }
  }

  /** For both directions, every ring that holds a byte and any data: there is a run from
      a fresh session, without a timeout or interrupt, at whose end both sides are
      completed and the reader has exactly the data. */
  lemma TransferCompletes(n: nat, toDevice: bool, data: seq<byte>) returns (events: seq<Event>)
    requires n >= 2
    ensures Smooth(events)
    ensures var s := Run(Start(n, toDevice), events);
      AtRest(s) && s.ring.got == s.ring.accepted == data
  {
    var s0 := Start(n, toDevice);
    StartInv(n, toDevice);
    assert Fresh(s0, n);
    assert Leads(s0, [], s0);
    hide Fresh, Flowing, Inv;
    var t;
    if toDevice {
      events, t := ToDeviceOpens(s0, [], s0, n);
    } else {
      events, t := FromDeviceOpens(s0, [], s0, n);
    }
    events, t := Rounds(s0, events, t, n, data);
    assert [] + data == data;
    events, t := Closes(s0, events, t, n);
  }

  // ---- Failures ----

  /** A call that is told to interrupt the transfer. */
  const Break := Call(true, false, true)

  /** An interrupted writer, or reader, when everything has crossed. */
  ghost function Broken(s: Session, n: nat, byWriter: bool): Session {
    Next(s, if byWriter then WriterCall(Break, Request.Bytes([])) else ReaderCall(Break, n, true))
  }

  lemma BrokenIs(s: Session, n: nat, byWriter: bool)
    requires Flowing(s, n)
    ensures Inv(Broken(s, n, byWriter))
    ensures Broken(s, n, byWriter) == if byWriter then s.(ws := Failed) else s.(rs := Failed)
  {
    NextKeepsInv(s, if byWriter then WriterCall(Break, Request.Bytes([])) else ReaderCall(Break, n, true));
    hide Inv;
  }

  /** One more call of the writer: a closed or interrupted reader makes it fail; then it
      signals the interrupt, and rests when the reader has stopped. */
  lemma WriterGoesOn(s: Session)
    requires Inv(s)
    ensures var s' := Next(s, Nothing);
      && Inv(s') && s' == s.(ring := s'.ring, ws := s'.ws) && WriterOnly(s.ring, s'.ring)
      && (s.ws.TransferData? && !Open(s.ring.view.sig) ==> s'.ws.Failed?)
      && (s.ws.Failed? ==> s'.ws.Failed2? && s'.ring.out.sig.Interrupt?)
      && (s.ws.Failed2? && !s.ring.view.sig.Running? ==> s'.ws.FailedIdle? && s'.ring.out.sig.Idle?)
  {
    hide Inv, Do, WriteBytes, R.Inv;
    RingInv(s);
    NextKeepsInv(s, Nothing);
    WriterKeepsOther(s);
    SetOutKeeps(s.ring, R.Interrupt);
    SetOutKeeps(s.ring, R.Idle);
    var idle := Do(s.ring, R.SetOut(R.Idle));
    DoKeeps(idle, R.ResetHead);
  }

  /** A writer changes its own block and position only. */
  lemma WriterKeepsOther(s: Session)
    requires Inv(s)
    ensures var s' := Next(s, Nothing);
      s' == s.(ring := s'.ring, ws := s'.ws) && WriterOnly(s.ring, s'.ring)
  {
    hide Inv, Do, WriteBytes, R.Inv;
    RingInv(s);
    SetOutKeeps(s.ring, R.Running);
    SetOutKeeps(s.ring, R.Interrupt);
    SetOutKeeps(s.ring, R.Idle);
    var idle := Do(s.ring, R.SetOut(R.Idle));
    DoKeeps(idle, R.ResetHead);
  }

  /** One more call of the reader, likewise. */
  lemma ReaderGoesOn(s: Session, n: nat)
    requires Inv(s)
    ensures var s' := Next(s, ReaderCall(OK, n, true));
      && (s.rs.TransferData? && !Open(s.ring.copy.sig) ==> Inv(s') && s' == s.(rs := Failed))
      && (s.rs.Failed? ==>
            Inv(s') && s' == s.(ring := s.ring.(rin := s.ring.rin.(sig := if s.toDevice then R.Interrupt else R.Idle)), rs := Failed2))
      && (s.rs.Failed2? && !Open(s.ring.copy.sig) ==>
            Inv(s') && s' == s.(ring := s.ring.(rin := s.ring.rin.(sig := if s.toDevice then R.Idle else s.ring.rin.sig)), rs := FailedIdle))
  {
    NextKeepsInv(s, ReaderCall(OK, n, true));
    SetInKeeps(s.ring, R.Idle);
    SetInKeeps(s.ring, R.Interrupt);
    hide Inv, Do, ReadBytes, R.Inv;
  }

  /** The writer is interrupted: both ends come to rest. */
  lemma WriterAborts(s0: Session, a: seq<Event>, s: Session, n: nat) returns (b: seq<Event>, t: Session)
    requires Leads(s0, a, s) && Inv(s) && s.ring.fwd == [] && s.ring.back == [] && s.ws.Failed? && s.rs.TransferData?
    ensures Leads(s0, b, t) && t.ws.FailedIdle? && t.rs.FailedIdle?
  {
    hide Leads, Inv;
    var read := ReaderCall(OK, n, true);
    WriterGoesOn(s);
    LeadsOn(s0, a, s, Nothing);
    var s1 := Next(s, Nothing);
    b := Cross(s0, a + [Nothing], s1);
    var s2 := Crossed(s1);
    hide Next, Crossed;
    ReaderGoesOn(s2, n);
    LeadsOn(s0, b, s2, read);
    var s3 := Next(s2, read);
    ReaderGoesOn(s3, n);
    LeadsOn(s0, b + [read], s3, read);
    var s4 := Next(s3, read);
    ReaderGoesOn(s4, n);
    LeadsOn(s0, b + [read] + [read], s4, read);
    var s5 := Next(s4, read);
    b := Cross(s0, b + [read] + [read] + [read], s5);
    var s6 := Crossed(s5);
    WriterGoesOn(s6);
    LeadsOn(s0, b, s6, Nothing);
    b, t := b + [Nothing], Next(s6, Nothing);
  }

  /** The reader is interrupted: both ends come to rest. */
  lemma ReaderAborts(s0: Session, a: seq<Event>, s: Session, n: nat) returns (b: seq<Event>, t: Session)
    requires Leads(s0, a, s) && Inv(s) && s.ring.fwd == [] && s.ring.back == [] && s.ws.TransferData? && s.rs.Failed?
    ensures Leads(s0, b, t) && t.ws.FailedIdle? && t.rs.FailedIdle?
  {
    hide Leads, Inv;
    var read := ReaderCall(OK, n, true);
    ReaderGoesOn(s, n);
    LeadsOn(s0, a, s, read);
    var s1 := Next(s, read);
    b := Cross(s0, a + [read], s1);
    var s2 := Crossed(s1);
    hide Next, Crossed;
    WriterGoesOn(s2);
    LeadsOn(s0, b, s2, Nothing);
    var s3 := Next(s2, Nothing);
    WriterGoesOn(s3);
    LeadsOn(s0, b + [Nothing], s3, Nothing);
    var s4 := Next(s3, Nothing);
    WriterGoesOn(s4);
    LeadsOn(s0, b + [Nothing] + [Nothing], s4, Nothing);
    var s5 := Next(s4, Nothing);
    b := Cross(s0, b + [Nothing] + [Nothing] + [Nothing], s5);
    var s6 := Crossed(s5);
    ReaderGoesOn(s6, n);
    LeadsOn(s0, b, s6, read);
    b, t := b + [read], Next(s6, read);
  }

  /** An interrupt at either end of a running transfer, in either direction, can stop both
      without a timeout. */
  lemma AbortReachesBoth(s: Session, n: nat, byWriter: bool) returns (events: seq<Event>, t: Session)
    requires Flowing(s, n)
    ensures Leads(Broken(s, n, byWriter), events, t) && t.ws.FailedIdle? && t.rs.FailedIdle?
  {
    BrokenIs(s, n, byWriter);
    var s0 := Broken(s, n, byWriter);
    assert Leads(s0, [], s0);
    hide Inv;
    if byWriter {
      events, t := WriterAborts(s0, [], s0, n);
    } else {
      events, t := ReaderAborts(s0, [], s0, n);
    }
  }

  // ---- Timeouts and lost connections ----

  /** No end waits for the other longer than its timeout: a writer's call that finds it
      elapsed leaves every waiting step, and fails a transfer that does not move. */
  lemma WriterTimesOut(s: Session)
    requires s.ws.Initialized2? || s.ws.TransferDone? || s.ws.Failed2? || (s.ws.TransferData? && s.toDevice)
    ensures var s' := Next(s, WriterCall(Call(true, true, false), Request.Bytes([])));
      && (s.ws.TransferDone? ==> s'.ws.AllCompleted?)
      && (s.ws.Failed2? ==> s'.ws.FailedIdle?)
      && (s.toDevice && (s.ws.Initialized2? || s.ws.TransferData?) ==> s'.ws.Failed?)
  {
    hide Do, WriteBytes;
  }

  lemma ReaderTimesOut(s: Session, n: nat)
    requires s.rs.TransferDone2? || s.rs.Failed2? || (s.rs.Initialized2? && !Open(s.ring.copy.sig))
    ensures var s' := Next(s, ReaderCall(Call(true, true, false), n, true));
      && (!s.toDevice && s.rs.TransferDone2? ==> s'.rs.AllCompleted?)
      && (s.rs.Failed2? ==> s'.rs.FailedIdle?)
      && (!s.toDevice && s.rs.Initialized2? ==> s'.rs.Failed?)
  {
    hide Do, ReadBytes;
  }

  /** A device's writer that finds the ring full, and a reader that finds it empty, fail
      when their timeout has elapsed, and only wait before; one that can move bytes goes on
      in any case. */
  lemma StalledFails(s: Session, n: nat, data: seq<byte>, elapsed: bool)
    requires Inv(s) && data != [] && n > 0
    requires s.ring.view.live && s.ring.out.live && s.ring.copy.live && s.ring.rin.live
    ensures R.Indexed(s.ring)
    ensures !s.toDevice && s.ws.TransferData? && Open(s.ring.view.sig) ==>
      var full := Free(s.ring.head, s.ring.view.tail, R.Size(s.ring)) == 0;
      Next(s, WriterCall(Call(true, elapsed, false), Request.Bytes(data))).ws == if full && elapsed then Failed else TransferData
    ensures s.rs.TransferData? && s.ring.copy.sig.Running? ==>
      Next(s, ReaderCall(Call(true, elapsed, false), n, true)).rs == if Offered(s) == 0 && elapsed then Failed else TransferData
  {
    hide R.Inv, Do, WriteBytes, ReadBytes, Inv;
    RingInv(s);
    R.FreeIs(s.ring);
    StoresSome(s.ring, data);
    ReadBytesKeeps(s.ring, n);
    if Offered(s) == 0 {
      SameLength(ReadBytes(s.ring, n), s.ring);
    }
  }

  /** An interrupt, or a block move that fails, fails a transfer that is being opened or
      under way, whatever else the call finds. */
  lemma InterruptFails(s: Session, elapsed: bool, q: Request, n: nat, moved: bool)
    ensures var ws := Next(s, WriterCall(Call(true, elapsed, true), q)).ws;
      && (s.ws.TransferData? ==> ws.Failed?)
      && (s.toDevice && s.ws.Initialized2? ==> ws.Failed?)
      && (!s.toDevice && s.ws.Initialized? ==> ws.Failed?)
    ensures var rs := Next(s, ReaderCall(Call(true, elapsed, true), n, moved)).rs;
      && (s.rs.TransferData? ==> rs.Failed?) && (s.toDevice && s.rs.Initialized? ==> rs.Failed?)
    ensures s.rs.TransferData? ==> Next(s, ReaderCall(Call(true, elapsed, false), n, false)).rs.Failed?
  {
    hide Do, WriteBytes, ReadBytes;
  }

  /** Without a timeout each end waits: for the other to open, to close, or to stop after a
      failure; then nothing changes. */
  lemma Waits(s: Session, q: Request, n: nat)
    ensures var running, open := s.ring.view.sig.Running?, Open(s.ring.copy.sig);
      && (running && (s.ws.TransferDone? || s.ws.Failed2?) ==> Next(s, WriterCall(OK, q)) == s)
      && (s.toDevice && !running && s.ws.Initialized2? ==> Next(s, WriterCall(OK, q)) == s)
      && (s.toDevice && open && s.rs.Failed2? ==> Next(s, ReaderCall(OK, n, true)) == s)
      && (!s.toDevice && s.ring.copy.sig.Running? && s.rs.Failed2? ==> Next(s, ReaderCall(OK, n, true)) == s)
      && (!s.toDevice && !open && s.rs.Initialized2? ==> Next(s, ReaderCall(OK, n, true)) == s)
      && (!s.toDevice && open && s.rs.TransferDone2? ==> Next(s, ReaderCall(OK, n, true)) == s)
  {
    hide Do, WriteBytes, ReadBytes;
  }

  /** A device's reader opens on a transfer that is under way or already complete, and a
      device does not open on anything else. */
  lemma DeviceOpensIff(s: Session, q: Request, n: nat)
    ensures s.toDevice && s.rs.Initialized? ==>
      (Next(s, ReaderCall(OK, n, true)).rs.Failed? <==> !s.ring.copy.sig.Running? && !s.ring.copy.sig.Completed?)
    ensures !s.toDevice && s.ws.Initialized? ==>
      (Next(s, WriterCall(OK, q)).ws.Failed? <==> !s.ring.view.sig.Running? && !s.ring.view.sig.Completed?)
  {
    hide ReadBytes, WriteBytes, Stored;
    assert Do(s.ring, R.SetIn(R.Running)).copy == s.ring.copy;
    assert Do(s.ring, R.SetOut(R.Running)).view == s.ring.view;
  }

  /** A lost connection ends a session at once, and the block says so. */
  lemma Disconnects(s: Session, c: Call, q: Request, n: nat, moved: bool)
    requires Inv(s) && !c.connected
    ensures Next(s, WriterCall(c, q)).ws.FailedIdle? && Next(s, ReaderCall(c, n, moved)).rs.FailedIdle?
    ensures !s.ws.FailedIdle? ==> Next(s, WriterCall(c, q)).ring.out == s.ring.out.(sig := R.Idle)
    ensures !s.rs.FailedIdle? ==> Next(s, ReaderCall(c, n, moved)).ring.rin == s.ring.rin.(sig := R.Idle)
  {
    SetOutKeeps(s.ring, R.Idle);
    SetInKeeps(s.ring, R.Idle);
    hide Inv, Do;
  }
}
