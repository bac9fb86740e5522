/** A streamer's ring over replicated memory blocks. The writer owns the block with the
    buffer and the head, the reader the block with the tail; each side sees the
    other's block only as delayed snapshots, in order (see Replication). Writes to a
    block and the snapshots of it may interleave in any way. */
module StreamerRing {
  import opened Bytes
  import opened Modulo
  import opened Ring

  /** States of a transfer, as signalled in the blocks. */
  datatype Sig = Idle | Running | Completed | Interrupt

  /** The writer's block: ring buffer, head and state signals; `live` until the
      head is reset after the transfer. The rest is history: how many bytes were
      stored and published so far, and taken as far as the writer knew. */
  datatype Out = Out(buf: seq<byte>, head: nat, sig: Sig, live: bool, stored: nat, published: nat, freed: nat)

  /** The reader's block: tail and state signals, and the bytes taken so far. */
  datatype In = In(tail: nat, sig: Sig, live: bool, taken: nat)

  datatype State = State(out: Out, head: nat, view: In, fwd: seq<Out>, back: seq<In>,
                         copy: Out, rin: In, tail: nat, look: nat, looked: nat,
                         accepted: seq<byte>, got: seq<byte>)

  datatype Action =
    | Store(data: seq<byte>)     // writer: ioc_move_array into the ring
    | SetHead                    // writer: ioc_set of the head
    | SetOut(out: Sig)           // writer: ioc_set of its state
    | ResetHead                  // writer: head signal to zero, transfer over
    | Publish                    // a snapshot of the writer's block is sent
    | Adopt                      // ... and received
    | Look                       // reader: ioc_get of the head
    | Take(max: nat)             // reader: ioc_move_array from the ring
    | SetTail                    // reader: ioc_set of the tail
    | SetIn(rin: Sig)            // reader: ioc_set of its state
    | ResetTail                  // reader: tail signal to zero, transfer over
    | PublishBack                // a snapshot of the reader's block is sent
    | AdoptBack                  // ... and received

  function Start(n: nat): State
    requires n > 0
  {
    var out := Out(Zeros(n), 0, Idle, true, 0, 0, 0);
    var rin := In(0, Idle, true, 0);
    State(out, 0, rin, [], [], out, rin, 0, 0, 0, [], [])
  }

  function Size(st: State): nat {
    |st.out.buf|
  }

  ghost predicate Indexed(st: State) {
    && 0 < Size(st) == |st.copy.buf|
    && st.head < Size(st) && st.view.tail < Size(st) && st.tail < Size(st) && st.look < Size(st)
  }

  ghost predicate Enabled(st: State, a: Action) {
    match a
    case Store(_) => st.out.live && st.view.live
    case SetHead => st.out.live
    case Adopt => st.fwd != []
    case Look => st.copy.live
    case SetTail => st.rin.live
    case AdoptBack => st.back != []
    case _ => true
  }

  /** How many bytes a store takes. */
  function Taking(st: State, data: seq<byte>): (k: nat)
    requires Indexed(st)
    ensures k <= |data|
  {
    Min(|data|, Free(st.head, st.view.tail, Size(st)))
  }

  function Next(st: State, a: Action): State
    requires Indexed(st) && Enabled(st, a)
  {
    match a
    case Store(data) =>
      var k := Taking(st, data);
      st.(out := st.out.(buf := Stored(st.out.buf, st.head, data[..k]), stored := st.out.stored + k),
          head := Wrap(st.head, k, Size(st)), accepted := st.accepted + data[..k])
    case SetHead => st.(out := st.out.(head := st.head, published := st.out.stored))
    case SetOut(sig) => st.(out := st.out.(sig := sig))
    case ResetHead => st.(out := st.out.(head := 0, live := false))
    case Publish => st.(fwd := st.fwd + [st.out])
    case Adopt => st.(copy := st.fwd[0], fwd := st.fwd[1..])
    case Look => st.(look := st.copy.head, looked := st.copy.published)
    case Take(max) =>
      var k := Min(max, Gap(st.tail, st.look, Size(st)));
      st.(got := st.got + Window(st.copy.buf, st.tail, k), tail := Wrap(st.tail, k, Size(st)))
    case SetTail => st.(rin := st.rin.(tail := st.tail, taken := |st.got|))
    case SetIn(sig) => st.(rin := st.rin.(sig := sig))
    case ResetTail => st.(rin := st.rin.(tail := 0, live := false))
    case PublishBack => st.(back := st.back + [st.rin])
    case AdoptBack => st.(view := st.back[0], out := st.out.(freed := st.back[0].taken), back := st.back[1..])
  }

  // ---- Slots ----

  /** The slot of the byte with number `p`. */
  function Slot(p: nat, n: nat): (s: nat)
    requires n > 0
    ensures s < n
  {
    p % n
  }

  lemma SlotAhead(p: nat, i: nat, n: nat)
    requires n > 0 && i <= n
    ensures Wrap(Slot(p, n), i, n) == Slot(p + i, n)
  {
    var r := p % n + i;
    assert p == p % n + (p / n) * n;
    if r < n {
      RemainderIs(p + i, r, n, p / n);
    } else if r < 2 * n {
      assert p + i == (r - n) + (p / n + 1) * n;
      RemainderIs(p + i, r - n, n, p / n + 1);
    }
  }

  lemma SlotGap(p: nat, q: nat, n: nat)
    requires n > 0 && p <= q < p + n
    ensures Gap(Slot(p, n), Slot(q, n), n) == q - p
  {
    hide Slot;
    SlotAhead(p, q - p, n);
  }

  // ---- Invariant ----

  /** A snapshot of the writer's block holds the bytes between what was free
      and what was stored when it was made. */
  ghost predicate Holds(accepted: seq<byte>, n: nat, s: Out) {
    && n > 0 && |s.buf| == n && s.head < n
    && (s.live ==> s.head == Slot(s.published, n))
    && s.published <= s.stored <= |accepted| && s.stored < s.freed + n
    && forall p :: s.freed <= p < s.stored ==> s.buf[Slot(p, n)] == accepted[p]
  }

  ghost predicate Tails(n: nat, t: In) {
    n > 0 && t.tail < n && (t.live ==> t.tail == Slot(t.taken, n))
  }

  ghost predicate Before(s: Out, t: Out) {
    s.published <= t.published && s.freed <= t.freed
  }

  ghost predicate Inv(st: State) {
    var n := Size(st);
    && n > 0
    && Holds(st.accepted, n, st.out) && Holds(st.accepted, n, st.copy)
    && (forall i :: 0 <= i < |st.fwd| ==> Holds(st.accepted, n, st.fwd[i]))
    && st.out.stored == |st.accepted| && st.head == Slot(st.out.stored, n)
    && Tails(n, st.view) && Tails(n, st.rin) && (forall i :: 0 <= i < |st.back| ==> Tails(n, st.back[i]))
    && st.out.freed == st.view.taken
    && Order(st)
    && st.tail == Slot(|st.got|, n) && st.look == Slot(st.looked, n)
    && |st.got| <= st.looked <= st.copy.published
    && st.got == st.accepted[..|st.got|]
  }

  /** Snapshots come in the order in which they were made. */
  ghost predicate Order(st: State) {
    && Before(st.copy, st.out)
    && (forall i :: 0 <= i < |st.fwd| ==> Before(st.copy, st.fwd[i]) && Before(st.fwd[i], st.out))
    && (forall i, j :: 0 <= i < j < |st.fwd| ==> Before(st.fwd[i], st.fwd[j]))
    && st.view.taken <= st.rin.taken <= |st.got|
    && (forall i :: 0 <= i < |st.back| ==> st.view.taken <= st.back[i].taken <= st.rin.taken)
    && (forall i, j :: 0 <= i < j < |st.back| ==> st.back[i].taken <= st.back[j].taken)
  }

  lemma StartInv(n: nat)
    requires n > 0
    ensures Inv(Start(n))
  {
    assert Slot(0, n) == 0;
  }

  lemma InvIndexed(st: State)
    requires Inv(st)
    ensures Indexed(st)
  {
  }

  /** What the reader computes as available is what it has not yet taken of the
      published bytes it looked at. */
  lemma AvailableIs(st: State)
    requires Inv(st)
    ensures Indexed(st) && |st.got| <= st.looked && Gap(st.tail, st.look, Size(st)) == st.looked - |st.got|
  {
    hide Slot;
    SlotGap(|st.got|, st.looked, Size(st));
  }

  /** What the writer computes as free is all but one slot, less what it has stored and
      does not know to be taken. */
  lemma FreeIs(st: State)
    requires Inv(st) && st.view.live
    ensures Indexed(st) && Free(st.head, st.view.tail, Size(st)) == Size(st) - 1 - (|st.accepted| - st.view.taken)
  {
    hide Slot;
    SlotGap(st.view.taken, |st.accepted|, Size(st));
  }

  // ---- Every step keeps the invariant ----

  lemma HoldsGrows(accepted: seq<byte>, more: seq<byte>, n: nat, s: Out)
    requires Holds(accepted, n, s)
    ensures Holds(accepted + more, n, s)
  {
    hide Slot;
  }

  /** Storing behind the head leaves the bytes which are not free in place. */
  lemma StoredContent(buf: seq<byte>, accepted: seq<byte>, freed: nat, data: seq<byte>, p: nat)
    requires var n := |buf|;
             && 0 < n && freed <= |accepted| && |accepted| + |data| < freed + n
             && (forall q :: freed <= q < |accepted| ==> buf[Slot(q, n)] == accepted[q])
    requires freed <= p < |accepted| + |data|
    ensures Stored(buf, Slot(|accepted|, |buf|), data)[Slot(p, |buf|)] == (accepted + data)[p]
  {
    hide Slot;
    var n, w := |buf|, |accepted|;
    if p >= w {
      SlotGap(w, p, n);
    } else {
      SlotGap(w, p + n, n);
      SlotPeriod(p, n);
    }
  }

  lemma SlotPeriod(p: nat, n: nat)
    requires n > 0
    ensures Slot(p + n, n) == Slot(p, n)
  {
    SlotAhead(p, n, n);
  }

  lemma StoreKeepsOut(st: State, data: seq<byte>)
    requires Inv(st) && Enabled(st, Store(data))
    ensures Indexed(st)
    ensures var st' := Next(st, Store(data));
            && Holds(st'.accepted, Size(st), st'.out)
            && st'.out.stored == |st'.accepted| && st'.head == Slot(st'.out.stored, Size(st))
  {
    var n, w := Size(st), st.out.stored;
    assert st.view.taken <= w;
    hide Slot, Stored, Order;
    SlotGap(st.view.taken, w, n);
    var k := Taking(st, data);
    SlotAhead(w, k, n);
    var st' := Next(st, Store(data));
    forall p | st.out.freed <= p < w + k
      ensures st'.out.buf[Slot(p, n)] == st'.accepted[p]
    {
      StoredContent(st.out.buf, st.accepted, st.out.freed, data[..k], p);
    }
  }

  lemma StoreKeepsInv(st: State, data: seq<byte>)
    requires Inv(st) && Enabled(st, Store(data))
    ensures Indexed(st) && Inv(Next(st, Store(data)))
  {
    hide Slot, Stored, Taking;
    StoreKeepsOut(st, data);
    var n, more := Size(st), data[..Taking(st, data)];
    HoldsGrows(st.accepted, more, n, st.copy);
    forall i | 0 <= i < |st.fwd|
      ensures Holds(st.accepted + more, n, st.fwd[i])
    {
      HoldsGrows(st.accepted, more, n, st.fwd[i]);
    }
  }

  lemma TakeKeepsInv(st: State, max: nat)
    requires Inv(st)
    ensures Indexed(st) && Inv(Next(st, Take(max)))
  {
    hide Slot;
    var n, r := Size(st), |st.got|;
    SlotGap(r, st.looked, n);
    var k := Min(max, Gap(st.tail, st.look, n));
    SlotAhead(r, k, n);
    var w := Window(st.copy.buf, st.tail, k);
    assert st.copy.freed <= r;
    forall i | 0 <= i < k
      ensures w[i] == st.accepted[r + i]
    {
      SlotAhead(r, i, n);
    }
    assert st.got + w == st.accepted[..r + k];
  }

  lemma AdoptKeepsInv(st: State)
    requires Inv(st) && st.fwd != []
    ensures Indexed(st) && Inv(Next(st, Adopt))
  {
    InvIndexed(st);
    hide Slot;
    assert Holds(st.accepted, Size(st), st.fwd[0]);
    hide Holds;
    var fwd := st.fwd[1..];
    forall i | 0 <= i < |fwd|
      ensures Holds(st.accepted, Size(st), fwd[i]) && Before(st.fwd[0], fwd[i])
    {
      assert fwd[i] == st.fwd[i + 1];
    }
  }

  lemma PublishKeepsInv(st: State)
    requires Inv(st)
    ensures Indexed(st) && Inv(Next(st, Publish))
  {
    hide Slot;
  }

  lemma BackKeepsInv(st: State, a: Action)
    requires Inv(st) && Enabled(st, a) && (a.PublishBack? || a.AdoptBack?)
    ensures Indexed(st) && Inv(Next(st, a))
  {
    hide Slot;
  }

  lemma SignalKeepsInv(st: State, a: Action)
    requires Inv(st) && Enabled(st, a)
    requires a.SetHead? || a.SetOut? || a.ResetHead? || a.Look? || a.SetTail? || a.SetIn? || a.ResetTail?
    ensures Indexed(st) && Inv(Next(st, a))
  {
    hide Slot;
  }

  lemma NextKeepsInv(st: State, a: Action)
    requires Inv(st) && Enabled(st, a)
    ensures Indexed(st) && Inv(Next(st, a))
  {
    InvIndexed(st);
    hide Inv, Next, Indexed;
    match a
    case Store(data) => StoreKeepsInv(st, data);
    case Take(max) => TakeKeepsInv(st, max);
    case Adopt => AdoptKeepsInv(st);
    case Publish => PublishKeepsInv(st);
    case PublishBack => BackKeepsInv(st, a);
    case AdoptBack => BackKeepsInv(st, a);
    case _ => SignalKeepsInv(st, a);
  }

  // ---- Whole runs ----

  datatype Reached = Stuck | At(st: State)

  ghost function Run(st: State, acts: seq<Action>): Reached
    decreases |acts|
  {
    if acts == [] then At(st)
    else if Indexed(st) && Enabled(st, acts[0]) then Run(Next(st, acts[0]), acts[1..])
    else Stuck
  }

  lemma {:induction false} RunKeepsInv(st: State, acts: seq<Action>)
    requires Inv(st) && Run(st, acts).At?
    ensures Inv(Run(st, acts).st)
    decreases |acts|
  {
    hide Inv, Next, Indexed;
    if acts != [] {
      NextKeepsInv(st, acts[0]);
      RunKeepsInv(Next(st, acts[0]), acts[1..]);
    }
  }

  /** For every interleaving, with head, tail and buffer snapshots delayed in any
      way: the bytes the reader has taken are a beginning of the bytes the writer
      accepted, and every accepted byte which the reader has not taken is still
      in its slot of the writer's ring. */
  lemma StreamIsPrefix(n: nat, acts: seq<Action>)
    requires n > 0 && Run(Start(n), acts).At?
    ensures var st := Run(Start(n), acts).st;
            && st.got <= st.accepted
            && Size(st) > 0
            && |st.accepted| - |st.got| < Size(st)
            && forall p :: |st.got| <= p < |st.accepted| ==> st.out.buf[Slot(p, Size(st))] == st.accepted[p]
  {
    StartInv(n);
    hide Start;
    RunKeepsInv(Start(n), acts);
    hide Slot, Run;
  }
}
