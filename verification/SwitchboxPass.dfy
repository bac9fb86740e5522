/** The pass over all clients in ioc_switchbox_run_shared_socket
    (code/ioc_switchbox_socket.c): as the loop is written, and as it is meant. */
module SwitchboxPass {
  import opened Bytes
  import Ring
  import opened Switchbox
  import opened SwitchboxRing

  /** A client waiting for its turn. */
  datatype Turn = Turn(client: nat, queue: seq<byte>)

  ghost predicate Proper(clients: seq<Turn>, cap: nat) {
    cap < CONTROL && forall j :: 0 <= j < |clients| ==> clients[j].client < CLIENTS
  }

  predicate HasRoom(out: seq<byte>, cap: nat) {
    cap - |out| >= HEADER + 1
  }

  /** The shared outgoing bytes after a client's turn. */
  function OutAfter(t: Turn, out: seq<byte>, cap: nat): (r: seq<byte>)
    requires t.client < CLIENTS && cap < CONTROL && HasRoom(out, cap)
    ensures |r| <= cap
  {
    if t.queue == [] then out else out + Message(t.client, t.queue, cap - |out|)
  }

  /** The client after its turn. */
  function TurnAfter(t: Turn, out: seq<byte>, cap: nat): Turn
    requires cap < CONTROL && HasRoom(out, cap)
  {
    if t.queue == [] then t else Turn(t.client, Rest(t.queue, cap - |out|))
  }

  // ---- The loop as written ----

  /** Before the body of the loop for client `i`, counted from the one served first,
      or behind the loop. */
  datatype Pass = Before(i: nat, out: seq<byte>, clients: seq<Turn>) | Done(out: seq<byte>, clients: seq<Turn>)

  ghost predicate Running(p: Pass, cap: nat) {
    Proper(p.clients, cap) && (p.Before? ==> p.i < |p.clients|)
  }

  /** Without clients the loop is not entered. */
  function Enter(out: seq<byte>, clients: seq<Turn>): Pass {
    if clients == [] then Done(out, clients) else Before(0, out, clients)
  }

  /** The body once, and the test at the end. Without room, `continue` goes to the
      test with the client unchanged. */
  ghost function Body(p: Pass, cap: nat): (r: Pass)
    requires Running(p, cap)
    ensures Running(r, cap)
  {
    match p
    case Done(_, _) => p
    case Before(i, out, clients) =>
      if !HasRoom(out, cap) then (if i == 0 then Done(out, clients) else p)
      else
        var out' := OutAfter(clients[i], out, cap);
        var clients' := clients[i := TurnAfter(clients[i], out, cap)];
        if i + 1 == |clients| then Done(out', clients') else Before(i + 1, out', clients')
  }

  /** After `k` times. */
  ghost function After(p: Pass, cap: nat, k: nat): (r: Pass)
    requires Running(p, cap)
    ensures Running(r, cap)
    decreases k
  {
    if k == 0 then p else After(Body(p, cap), cap, k - 1)
  }

  ghost predicate Ends(p: Pass, cap: nat)
    requires Running(p, cap)
  {
    exists k: nat :: After(p, cap, k).Done?
  }

  /** The bytes it takes to serve clients completely. */
  function Need(clients: seq<Turn>): nat {
    if clients == [] then 0
    else (if clients[0].queue == [] then 0 else HEADER + |clients[0].queue|) + Need(clients[1..])
  }

  lemma EndsNext(p: Pass, cap: nat)
    requires Running(p, cap) && p.Before?
    ensures Ends(p, cap) <==> Ends(Body(p, cap), cap)
  {
    hide Body, Running;
    if Ends(p, cap) {
      var k: nat :| After(p, cap, k).Done?;
      assert k > 0;
      assert After(Body(p, cap), cap, k - 1).Done?;
    }
    if Ends(Body(p, cap), cap) {
      var k: nat :| After(Body(p, cap), cap, k).Done?;
      assert After(p, cap, k + 1).Done?;
    }
  }

  /** A state that the body does not change is never left. */
  lemma {:induction false} Stays(p: Pass, cap: nat, k: nat)
    requires Running(p, cap) && Body(p, cap) == p
    ensures After(p, cap, k) == p
  {
    hide Body, Running;
    if k > 0 {
      Stays(p, cap, k - 1);
    }
  }

  /** From the second client on, the loop ends exactly when all clients but the last
      can be served completely and a header and a byte still fit. */
  lemma {:induction false} EndsFrom(i: nat, out: seq<byte>, clients: seq<Turn>, cap: nat)
    requires Proper(clients, cap) && 0 < i < |clients|
    ensures Ends(Before(i, out, clients), cap) <==> Need(clients[i..|clients| - 1]) + HEADER + 1 <= cap - |out|
    decreases |clients| - i
  {
    var p := Before(i, out, clients);
    var last := |clients| - 1;
    if !HasRoom(out, cap) {
      forall k: nat ensures !After(p, cap, k).Done? {
        Stays(p, cap, k);
      }
    } else {
      EndsNext(p, cap);
      if i == last {
        assert clients[i..last] == [];
        assert After(Body(p, cap), cap, 0).Done?;
      } else {
        NeedNext(i, out, clients, cap);
        EndsFrom(i + 1, OutAfter(clients[i], out, cap), clients[i := TurnAfter(clients[i], out, cap)], cap);
      }
    }
  }

  /** One client's turn settles its part of the need. */
  lemma NeedNext(i: nat, out: seq<byte>, clients: seq<Turn>, cap: nat)
    requires Proper(clients, cap) && i < |clients| - 1 && HasRoom(out, cap)
    ensures var clients' := clients[i := TurnAfter(clients[i], out, cap)];
      Need(clients[i..|clients| - 1]) + HEADER + 1 <= cap - |out| <==>
      Need(clients'[i + 1..|clients| - 1]) + HEADER + 1 <= cap - |OutAfter(clients[i], out, cap)|
  {
    var last := |clients| - 1;
    var clients' := clients[i := TurnAfter(clients[i], out, cap)];
    assert clients[i..last][1..] == clients[i + 1..last] == clients'[i + 1..last];
  }

  /** The loop as written ends if and only if there is at most one client, or no room
      to begin with, or room for all but the last client and a header and a byte. */
  lemma PassEndsIff(out: seq<byte>, clients: seq<Turn>, cap: nat)
    requires Proper(clients, cap)
    ensures Ends(Enter(out, clients), cap) <==>
      |clients| <= 1 || cap - |out| < HEADER + 1 || Need(clients[..|clients| - 1]) + HEADER + 1 <= cap - |out|
  {
    var p := Enter(out, clients);
    if clients == [] {
      assert After(p, cap, 0).Done?;
    } else {
      EndsNext(p, cap);
      if |clients| == 1 || !HasRoom(out, cap) {
        assert After(Body(p, cap), cap, 0).Done?;
      } else {
        NeedNext(0, out, clients, cap);
        assert clients[0..|clients| - 1] == clients[..|clients| - 1];
        EndsFrom(1, OutAfter(clients[0], out, cap), clients[0 := TurnAfter(clients[0], out, cap)], cap);
      }
    }
  }

  /** Two clients with one byte each and room for one message: the loop never ends. */
  lemma PassCanHang()
    ensures !Ends(Enter([], [Turn(1, [65]), Turn(2, [66])]), HEADER + 1)
  {
    var clients := [Turn(1, [65]), Turn(2, [66])];
    assert clients[..1] == [Turn(1, [65])];
    assert Need(clients[..1]) == HEADER + 1;
    PassEndsIff([], clients, HEADER + 1);
  }

  // ---- The pass as it is meant ----

  /** `turns` clients had their turn. */
  datatype Outcome = Outcome(out: seq<byte>, clients: seq<Turn>, turns: nat)

  /** Stop when no header and byte fit any more. */
  ghost function Serve(i: nat, out: seq<byte>, clients: seq<Turn>, cap: nat): (r: Outcome)
    requires Proper(clients, cap) && i <= |clients|
    ensures |r.clients| == |clients| && i <= r.turns <= |clients|
    decreases |clients| - i
  {
    if i == |clients| || !HasRoom(out, cap) then Outcome(out, clients, i)
    else Serve(i + 1, OutAfter(clients[i], out, cap), clients[i := TurnAfter(clients[i], out, cap)], cap)
  }

  /** The intended pass serves a beginning of the clients: all of them, or as many as
      there is room for; those before the last one served are served completely, and
      the others are untouched. */
  lemma {:induction false} ServesBeginning(i: nat, out: seq<byte>, clients: seq<Turn>, cap: nat)
    requires Proper(clients, cap) && i <= |clients|
    ensures var r := Serve(i, out, clients, cap);
      && out <= r.out
      && (r.turns == |clients| || !HasRoom(r.out, cap))
      && (forall j :: 0 <= j < i || r.turns <= j < |clients| ==> r.clients[j] == clients[j])
      && (forall j :: i <= j < r.turns - 1 ==> r.clients[j].queue == [])
      && (forall j :: i <= j < r.turns ==> r.clients[j].client == clients[j].client)
    decreases |clients| - i
  {
    if i < |clients| && HasRoom(out, cap) {
      var out' := OutAfter(clients[i], out, cap);
      var clients' := clients[i := TurnAfter(clients[i], out, cap)];
      ServesBeginning(i + 1, out', clients', cap);
      if clients'[i].queue != [] {
        assert !HasRoom(out', cap);
      }
    }
  }

  /** When the loop as written ends, it has done what is meant. */
  lemma {:induction false} EndsAsMeant(p: Pass, cap: nat, k: nat)
    requires Running(p, cap) && p.Before? && After(p, cap, k).Done?
    ensures var r := Serve(p.i, p.out, p.clients, cap);
      After(p, cap, k) == Done(r.out, r.clients)
    decreases k
  {
    hide OutAfter, TurnAfter, HasRoom;
    var next := Body(p, cap);
    assert After(p, cap, k) == After(next, cap, k - 1);
    if next.Done? {
      DoneStays(next, cap, k - 1);
    } else {
      EndsAsMeant(next, cap, k - 1);
    }
  }

  lemma DoneStays(p: Pass, cap: nat, k: nat)
    requires Running(p, cap) && p.Done?
    ensures After(p, cap, k) == p
  {
    Stays(p, cap, k);
  }

  // ---- The pass as steps of the whole system ----

  ghost predicate Waiting(s: State, clients: seq<Turn>, i: nat) {
    forall j :: i <= j < |clients| ==> At(s.pending, clients[j].client) == clients[j].queue
  }

  ghost predicate DistinctClients(clients: seq<Turn>) {
    forall a, b :: 0 <= a < b < |clients| ==> clients[a].client != clients[b].client
  }

  /** The intended pass is a run of `Mux` actions: the shared bytes and every client's
      pending bytes become what `Serve` says. */
  lemma {:induction false} ServeIsRun(run: seq<Action>, s: State, i: nat, clients: seq<Turn>, cap: nat)
    returns (run': seq<Action>, t: State)
    requires Reaches(run, s) && Proper(clients, cap) && DistinctClients(clients) && i <= |clients|
    requires Waiting(s, clients, 0)
    ensures var r := Serve(i, s.outgoing, clients, cap);
      && Reaches(run', t) && run <= run'
      && t == s.(outgoing := r.out, pending := t.pending)
      && Waiting(t, r.clients, 0)
    decreases |clients| - i
  {
    hide Reaches, Message, Rest;
    if i == |clients| || !HasRoom(s.outgoing, cap) {
      run', t := run, s;
    } else {
      var c := clients[i];
      var clients' := clients[i := TurnAfter(c, s.outgoing, cap)];
      if c.queue == [] {
        assert clients' == clients;
        run', t := ServeIsRun(run, s, i + 1, clients', cap);
      } else {
        var a := Mux(c.client, cap - |s.outgoing|);
        assert Enabled(s, a);
        Extend(run, s, a);
        run', t := ServeIsRun(run + [a], Next(s, a), i + 1, clients', cap);
      }
    }
  }

  // ---- The code on ring buffers ----

  /** The ring buffers of the shared connection and its clients do not overlap. */
  ghost predicate Apart(outgoing: RingBuf, rings: seq<RingBuf>)
    reads outgoing, set j | 0 <= j < |rings| :: rings[j]
  {
    && outgoing.Valid() && outgoing.buf.Length <= CONTROL
    && (forall j :: 0 <= j < |rings| ==> rings[j].Valid() && rings[j] != outgoing && rings[j].buf != outgoing.buf)
    && (forall a, b :: 0 <= a < b < |rings| ==> rings[a] != rings[b])
  }

  /** The clients' queues. */
  ghost function Turns(ids: seq<nat>, rings: seq<RingBuf>): (t: seq<Turn>)
    requires |ids| == |rings| && forall j :: 0 <= j < |rings| ==> rings[j].Valid()
    reads set j | 0 <= j < |rings| :: rings[j]
    reads set j | 0 <= j < |rings| :: rings[j].buf
    ensures |t| == |rings| && forall j :: 0 <= j < |t| ==> t[j].client == ids[j]
  {
    seq(|rings|, j requires 0 <= j < |rings|
      reads set k | 0 <= k < |rings| :: rings[k]
      reads set k | 0 <= k < |rings| :: rings[k].buf
      requires rings[j].Valid()
      => Turn(ids[j], rings[j].Queue()))
  }

  /** One client's turn, with room for a header and a byte. */
  method TakeTurn(outgoing: RingBuf, ids: seq<nat>, rings: seq<RingBuf>, i: nat)
    requires Apart(outgoing, rings) && |ids| == |rings| && i < |rings| && ids[i] < CLIENTS
    requires HasRoom(outgoing.Queue(), outgoing.buf.Length - 1)
    modifies outgoing`head, outgoing.buf, rings[i]
    ensures Apart(outgoing, rings)
    ensures outgoing.Queue() == OutAfter(old(Turns(ids, rings))[i], old(outgoing.Queue()), outgoing.buf.Length - 1)
    ensures Turns(ids, rings) ==
      old(Turns(ids, rings))[i := TurnAfter(old(Turns(ids, rings))[i], old(outgoing.Queue()), outgoing.buf.Length - 1)]
  {
    hide Message, Rest, Ring.Window, Ring.Stored;
    var served := MuxClient(outgoing, ids[i], rings[i]);
    assert forall j :: 0 <= j < |rings| && j != i ==> rings[j].Queue() == old(rings[j].Queue());
  }

  /** The pass, leaving the loop when nothing more fits. */
  method MuxPass(outgoing: RingBuf, ids: seq<nat>, rings: seq<RingBuf>)
    requires Apart(outgoing, rings) && |ids| == |rings| && forall j :: 0 <= j < |ids| ==> ids[j] < CLIENTS
    modifies outgoing`head, outgoing.buf, set j | 0 <= j < |rings| :: rings[j]
    ensures Apart(outgoing, rings)
    ensures var r := Serve(0, old(outgoing.Queue()), old(Turns(ids, rings)), outgoing.buf.Length - 1);
      outgoing.Queue() == r.out && Turns(ids, rings) == r.clients
  {
    hide OutAfter, TurnAfter, Ring.Window, Turns;
    ghost var out, clients, cap := outgoing.Queue(), Turns(ids, rings), outgoing.buf.Length - 1;
    ghost var all := Serve(0, out, clients, cap);
    for i := 0 to |rings|
      invariant Apart(outgoing, rings)
      invariant out == outgoing.Queue() && clients == Turns(ids, rings) && Proper(clients, cap)
      invariant all == Serve(i, out, clients, cap)
    {
      if Ring.Free(outgoing.head, outgoing.tail, outgoing.buf.Length) < HEADER + 1 {
        return;
      }
      TakeTurn(outgoing, ids, rings, i);
      out, clients := OutAfter(clients[i], out, cap), clients[i := TurnAfter(clients[i], out, cap)];
    }
  }
}
