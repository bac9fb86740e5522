/** Block information exchange on one connection (code/ioc_memory_block_info.c and the
    order of sending in ioc_connection_send): the upper end is the device, which
    connected upwards; the lower end answers. Source and target buffers come into
    being when information about a matching block arrives. */
module BlockInfo {
  import opened Options

  /** A memory block: `key` stands for block name, device name, device number and
      network name; `id` is its identifier at this end. */
  datatype Block = Block(key: nat, id: nat, up: bool, down: bool)

  /** A source or target buffer: the block and its identifier at the other end. */
  datatype Link = Link(block: Block, remote: nat)

  /** `next`, `nextS` and `nextT` are the positions behind the last block, source
      buffer and target buffer whose information has been sent (current_mblk and
      the two mbinfo_down pointers; a null pointer is the end of the list). */
  datatype End = End(blocks: seq<Block>, sbufs: seq<Link>, tbufs: seq<Link>, next: nat, nextS: nat, nextT: nat)

  /** A data frame carries the block identifier at the receiving end; `key` records
      which block it was made from and is not sent. */
  datatype Frame = Info(block: Block) | Data(id: nat, key: nat)

  /** The device, the controller, and the frames on their way. */
  datatype System = System(device: End, control: End, toControl: seq<Frame>, toDevice: seq<Frame>)

  // ---- One end ----

  /** The first block with a matching key. */
  function Find(blocks: seq<Block>, key: nat): (r: Option<Block>)
    ensures r.Some? ==> r.value in blocks && r.value.key == key
    ensures r.None? ==> forall b :: b in blocks ==> b.key != key
  {
    if blocks == [] then None
    else if blocks[0].key == key then Some(blocks[0])
    else Find(blocks[1..], key)
  }

  predicate HasLink(links: seq<Link>, b: Block) {
    exists i :: 0 <= i < |links| && links[i].block == b
  }

  /** ioc_mbinfo_new_sbuf and ioc_mbinfo_new_tbuf: at most one per block. */
  function AddLink(links: seq<Link>, b: Block, remote: nat): seq<Link> {
    if HasLink(links, b) then links else links + [Link(b, remote)]
  }

  predicate SourceAt(isDevice: bool, b: Block) {
    if isDevice then b.up else b.down
  }

  predicate TargetAt(isDevice: bool, b: Block) {
    if isDevice then b.down else b.up
  }

  /** ioc_mbinfo_received with the matching block found. */
  function Bind(e: End, isDevice: bool, b: Block, info: Block): End {
    var e1 := if SourceAt(isDevice, b) && SourceAt(isDevice, info) then e.(sbufs := AddLink(e.sbufs, b, info.id)) else e;
    if TargetAt(isDevice, b) && TargetAt(isDevice, info) then e1.(tbufs := AddLink(e1.tbufs, b, info.id)) else e1
  }

  /** ioc_mbinfo_received: an unknown block is created when blocks are dynamic,
      otherwise the information is dropped. */
  function Receive(e: End, isDevice: bool, info: Block, dynamicId: Option<nat>): End {
    match Find(e.blocks, info.key)
    case Some(b) => Bind(e, isDevice, b, info)
    case None =>
      match dynamicId
      case None => e
      case Some(id) =>
        var b := Block(info.key, id, info.up, info.down);
        Bind(e.(blocks := e.blocks + [b]), isDevice, b, info)
  }

  /** ioc_get_mbinfo_to_send (no floor or cloud-only blocks). */
  function ToSend(e: End, isDevice: bool): Option<Block> {
    if isDevice then (if e.next < |e.blocks| then Some(e.blocks[e.next]) else None)
    else if e.nextS < |e.sbufs| then Some(e.sbufs[e.nextS].block)
    else if e.nextT < |e.tbufs| then Some(e.tbufs[e.nextT].block)
    else None
  }

  /** ioc_mbinfo_sent. */
  function Sent(e: End, isDevice: bool, b: Block): End {
    if isDevice then e.(next := e.next + 1)
    else
      e.(nextS := if e.nextS < |e.sbufs| && e.sbufs[e.nextS].block == b then e.nextS + 1 else e.nextS,
         nextT := if e.nextT < |e.tbufs| && e.tbufs[e.nextT].block == b then e.nextT + 1 else e.nextT)
  }

  /** ioc_process_received_data_frame: the first target buffer whose block has the
      identifier; without one the frame is dropped as unlinked. */
  function TargetOf(tbufs: seq<Link>, id: nat): (r: Option<Link>)
    ensures r.Some? ==> r.value in tbufs && r.value.block.id == id
    ensures r.None? ==> forall l :: l in tbufs ==> l.block.id != id
  {
    if tbufs == [] then None
    else if tbufs[0].block.id == id then Some(tbufs[0])
    else TargetOf(tbufs[1..], id)
  }

  // ---- The connection ----

  datatype Action =
    | AddBlock(atDevice: bool, block: Block)
    | SendInfo(atDevice: bool)
    | SendData(atDevice: bool, i: nat)
    | Deliver(atDevice: bool, dynamicId: Option<nat>)

  predicate FreshBlock(e: End, b: Block) {
    forall i :: 0 <= i < |e.blocks| ==> e.blocks[i].key != b.key && e.blocks[i].id != b.id
  }

  predicate FreshId(e: End, id: nat) {
    forall i :: 0 <= i < |e.blocks| ==> e.blocks[i].id != id
  }

  /** Information goes before data; a source buffer without a remote block
      identifier is not sent. */
  predicate Enabled(s: System, a: Action) {
    match a
    case AddBlock(atDevice, b) => FreshBlock(if atDevice then s.device else s.control, b)
    case SendInfo(atDevice) => ToSend(if atDevice then s.device else s.control, atDevice).Some?
    case SendData(atDevice, i) =>
      var e := if atDevice then s.device else s.control;
      ToSend(e, atDevice).None? && i < |e.sbufs| && e.sbufs[i].remote != 0
    case Deliver(atDevice, dynamicId) =>
      (if atDevice then s.toDevice else s.toControl) != [] &&
      (dynamicId.Some? ==> FreshId(if atDevice then s.device else s.control, dynamicId.value))
  }

  function Process(e: End, isDevice: bool, f: Frame, dynamicId: Option<nat>): End {
    match f
    case Info(b) => Receive(e, isDevice, b, dynamicId)
    case Data(_, _) => e
  }

  function Next(s: System, a: Action): System
    requires Enabled(s, a)
  {
    match a
    case AddBlock(true, b) => s.(device := s.device.(blocks := s.device.blocks + [b]))
    case AddBlock(false, b) => s.(control := s.control.(blocks := s.control.blocks + [b]))
    case SendInfo(true) =>
      var b := ToSend(s.device, true).value;
      s.(device := Sent(s.device, true, b), toControl := s.toControl + [Info(b)])
    case SendInfo(false) =>
      var b := ToSend(s.control, false).value;
      s.(control := Sent(s.control, false, b), toDevice := s.toDevice + [Info(b)])
    case SendData(true, i) => s.(toControl := s.toControl + [Data(s.device.sbufs[i].remote, s.device.sbufs[i].block.key)])
    case SendData(false, i) => s.(toDevice := s.toDevice + [Data(s.control.sbufs[i].remote, s.control.sbufs[i].block.key)])
    case Deliver(true, dyn) =>
      s.(device := Process(s.device, true, s.toDevice[0], dyn), toDevice := s.toDevice[1..])
    case Deliver(false, dyn) =>
      s.(control := Process(s.control, false, s.toControl[0], dyn), toControl := s.toControl[1..])
  }

  function Start(): System {
    System(End([], [], [], 0, 0, 0), End([], [], [], 0, 0, 0), [], [])
  }

  /** States reached from nothing by any sequence of enabled actions. */
  ghost predicate Reaches(run: seq<Action>, s: System)
    decreases |run|
  {
    if run == [] then s == Start()
    else
      var last := |run| - 1;
      exists before :: Reaches(run[..last], before) && Enabled(before, run[last]) && Next(before, run[last]) == s
  }

  // ---- Invariant ----

  ghost predicate Distinct(blocks: seq<Block>) {
    forall a, b :: a in blocks && b in blocks && a != b ==> a.key != b.key && a.id != b.id
  }

  /** A link of a block with this key, identifier and remote identifier. */
  ghost predicate Has(links: seq<Link>, key: nat, id: nat, remote: nat) {
    exists l :: l in links && l.block.key == key && l.block.id == id && l.remote == remote
  }

  /** Links at one end that are mirrored at the other. */
  ghost predicate Mirrored(links: seq<Link>, others: seq<Link>) {
    forall l :: l in links ==> Has(others, l.block.key, l.remote, l.block.id)
  }

  ghost predicate LinksIn(links: seq<Link>, blocks: seq<Block>) {
    forall l :: l in links ==> l.block in blocks
  }

  /** The controller's links come from information about a device block. */
  ghost predicate Grounded(links: seq<Link>, blocks: seq<Block>) {
    forall l :: l in links ==> exists d :: d in blocks && d.key == l.block.key && d.id == l.remote
  }

  ghost predicate Flags(sbufs: seq<Link>, tbufs: seq<Link>, device: seq<Block>) {
    && (forall l, d :: l in sbufs && d in device && d.key == l.block.key ==> l.block.down && d.down)
    && (forall l, d :: l in tbufs && d in device && d.key == l.block.key ==> l.block.up && d.up)
  }

  /** The controller has bound its block `c` to the device's block `d` wherever both
      agree on a direction. */
  ghost predicate BoundTo(control: End, c: Block, d: Block) {
    && d.key == c.key
    && (c.down && d.down ==> Has(control.sbufs, c.key, c.id, d.id))
    && (c.up && d.up ==> Has(control.tbufs, c.key, c.id, d.id))
  }

  ghost predicate Bound(control: End, device: seq<Block>, c: Block) {
    c in control.blocks && exists d :: d in device && BoundTo(control, c, d)
  }

  /** The device has the counterpart of the controller's link, or the controller's
      information about the block is among the first `n` frames on the way. */
  ghost predicate Promised(links: seq<Link>, wire: seq<Frame>, n: nat, l: Link) {
    Has(links, l.block.key, l.remote, l.block.id) || Info(l.block) in wire[..if n <= |wire| then n else |wire|]
  }

  ghost predicate AllPromised(links: seq<Link>, wire: seq<Frame>, own: seq<Link>, n: nat) {
    n <= |own| && forall i :: 0 <= i < n ==> Promised(links, wire, |wire|, own[i])
  }

  ghost predicate DataPromised(tbufs: seq<Link>, wire: seq<Frame>, sbufs: seq<Link>, n: nat)
    requires n < |wire|
  {
    wire[n].Data? ==>
      exists l :: l in sbufs && l.block.key == wire[n].key && l.remote == wire[n].id && Promised(tbufs, wire, n, l)
  }

  ghost predicate ToControlOk(s: System) {
    forall f :: f in s.toControl ==>
      match f
      case Info(b) => b in s.device.blocks
      case Data(id, key) => exists l :: l in s.control.tbufs && l.block.id == id && l.block.key == key
  }

  ghost predicate ToDeviceOk(s: System) {
    && (forall c :: Info(c) in s.toDevice ==> Bound(s.control, s.device.blocks, c))
    && (forall n :: 0 <= n < |s.toDevice| ==> DataPromised(s.device.tbufs, s.toDevice, s.control.sbufs, n))
  }

  ghost predicate ControlOk(s: System) {
    && LinksIn(s.control.sbufs, s.control.blocks) && LinksIn(s.control.tbufs, s.control.blocks)
    && Grounded(s.control.sbufs, s.device.blocks) && Grounded(s.control.tbufs, s.device.blocks)
    && Flags(s.control.sbufs, s.control.tbufs, s.device.blocks)
    && (forall l :: l in s.control.sbufs ==> Bound(s.control, s.device.blocks, l.block))
    && (forall l :: l in s.control.tbufs ==> Bound(s.control, s.device.blocks, l.block))
  }

  ghost predicate DeviceOk(s: System) {
    && LinksIn(s.device.sbufs, s.device.blocks) && LinksIn(s.device.tbufs, s.device.blocks)
    && Mirrored(s.device.sbufs, s.control.tbufs) && Mirrored(s.device.tbufs, s.control.sbufs)
  }

  ghost predicate Inv(s: System) {
    && Distinct(s.device.blocks) && Distinct(s.control.blocks)
    && s.device.next <= |s.device.blocks|
    && ControlOk(s) && DeviceOk(s) && ToControlOk(s) && ToDeviceOk(s)
    && AllPromised(s.device.tbufs, s.toDevice, s.control.sbufs, s.control.nextS)
    && AllPromised(s.device.sbufs, s.toDevice, s.control.tbufs, s.control.nextT)
  }

  // ---- Every action keeps the invariant ----

  ghost predicate Extends(links: seq<Link>, more: seq<Link>) {
    |links| <= |more| && more[..|links|] == links
  }

  lemma ExtendsHas(links: seq<Link>, more: seq<Link>)
    requires Extends(links, more)
    ensures forall l :: l in links ==> l in more
    ensures forall i :: 0 <= i < |links| ==> links[i] == more[i]
  {
    forall i | 0 <= i < |links| ensures links[i] == more[i] {
      assert links[i] == more[..|links|][i];
    }
  }

  lemma AddLinkAdds(links: seq<Link>, b: Block, remote: nat)
    requires forall l :: l in links && l.block == b ==> l.remote == remote
    ensures var more := AddLink(links, b, remote);
      && Extends(links, more)
      && Link(b, remote) in more
      && Has(more, b.key, b.id, remote)
      && forall l :: l in more ==> l in links || l == Link(b, remote)
  {
    if HasLink(links, b) {
      var i :| 0 <= i < |links| && links[i].block == b;
      assert links[i] in links && links[i] == Link(b, remote);
    } else {
      assert Link(b, remote) in AddLink(links, b, remote);
    }
  }

  lemma AddBlockKeeps(s: System, atDevice: bool, b: Block)
    requires Inv(s) && Enabled(s, AddBlock(atDevice, b))
    ensures Inv(Next(s, AddBlock(atDevice, b)))
  {
    hide Has, Promised;
    var s' := Next(s, AddBlock(atDevice, b));
    if atDevice {
      assert forall d :: d in s'.device.blocks <==> d in s.device.blocks || d == b;
      assert forall c :: Bound(s.control, s.device.blocks, c) ==> Bound(s'.control, s'.device.blocks, c);
    } else {
      assert forall c :: c in s'.control.blocks <==> c in s.control.blocks || c == b;
      assert forall c, d :: BoundTo(s.control, c, d) == BoundTo(s'.control, c, d);
      assert forall c :: Bound(s.control, s.device.blocks, c) ==> Bound(s'.control, s'.device.blocks, c);
    }
  }

  lemma PromisedGrows(links: seq<Link>, wire: seq<Frame>, n: nat, l: Link, f: Frame)
    requires Promised(links, wire, n, l)
    ensures Promised(links, wire + [f], n, l)
  {
    var k := if n <= |wire| then n else |wire|;
    var k' := if n <= |wire| + 1 then n else |wire| + 1;
    assert wire[..k] == (wire + [f])[..k];
    if Info(l.block) in wire[..k] {
      var i :| 0 <= i < k && wire[i] == Info(l.block);
      assert (wire + [f])[..k'][i] == Info(l.block);
    }
  }

  /** Sending a frame to the device keeps what was promised. */
  lemma WireGrows(s: System, f: Frame)
    requires Inv(s)
    ensures var s' := s.(toDevice := s.toDevice + [f]);
      && (forall n :: 0 <= n < |s.toDevice| ==> DataPromised(s'.device.tbufs, s'.toDevice, s'.control.sbufs, n))
      && AllPromised(s'.device.tbufs, s'.toDevice, s'.control.sbufs, s'.control.nextS)
      && AllPromised(s'.device.sbufs, s'.toDevice, s'.control.tbufs, s'.control.nextT)
  {
    hide Has;
    var s' := s.(toDevice := s.toDevice + [f]);
    forall links, n, l | Promised(links, s.toDevice, n, l) ensures Promised(links, s'.toDevice, n, l) {
      PromisedGrows(links, s.toDevice, n, l, f);
    }
    forall links, l | Promised(links, s.toDevice, |s.toDevice|, l) ensures Promised(links, s'.toDevice, |s'.toDevice|, l) {
      PromisedGrows(links, s.toDevice, |s'.toDevice|, l, f);
    }
    forall n | 0 <= n < |s.toDevice| ensures DataPromised(s'.device.tbufs, s'.toDevice, s'.control.sbufs, n) {
      assert DataPromised(s.device.tbufs, s.toDevice, s.control.sbufs, n);
      assert s'.toDevice[n] == s.toDevice[n];
    }
  }

  lemma SendInfoDeviceKeeps(s: System)
    requires Inv(s) && Enabled(s, SendInfo(true))
    ensures Inv(Next(s, SendInfo(true)))
  {
    hide Has, Promised;
  }

  lemma SendInfoControlKeeps(s: System)
    requires Inv(s) && Enabled(s, SendInfo(false))
    ensures Inv(Next(s, SendInfo(false)))
  {
    hide Has;
    var b := ToSend(s.control, false).value;
    var s' := Next(s, SendInfo(false));
    WireGrows(s, Info(b));
    assert s'.control.blocks == s.control.blocks && s'.control.sbufs == s.control.sbufs && s'.control.tbufs == s.control.tbufs;
    assert forall c, d :: BoundTo(s.control, c, d) == BoundTo(s'.control, c, d);
    assert forall c :: Bound(s.control, s.device.blocks, c) ==> Bound(s'.control, s'.device.blocks, c);
    assert s'.toDevice[|s.toDevice|] == Info(b);
    assert Info(b) in s'.toDevice[..|s'.toDevice|];
    assert forall links, l: Link :: l.block == b ==> Promised(links, s'.toDevice, |s'.toDevice|, l);
    forall c | Info(c) in s'.toDevice ensures Bound(s'.control, s'.device.blocks, c) {
      if c == b {
        assert Bound(s.control, s.device.blocks, b);
      }
    }
  }

  lemma SendDataKeeps(s: System, atDevice: bool, i: nat)
    requires Inv(s) && Enabled(s, SendData(atDevice, i))
    ensures Inv(Next(s, SendData(atDevice, i)))
  {
    hide Has;
    var s' := Next(s, SendData(atDevice, i));
    if atDevice {
      var l := s.device.sbufs[i];
      assert l in s.device.sbufs;
      assert Has(s.control.tbufs, l.block.key, l.remote, l.block.id);
      HasGives(s.control.tbufs, l.block.key, l.remote, l.block.id);
    } else {
      var l := s.control.sbufs[i];
      WireGrows(s, Data(l.remote, l.block.key));
      assert s.control.nextS == |s.control.sbufs|;
      assert l in s.control.sbufs;
      PromisedGrows(s.device.tbufs, s.toDevice, |s.toDevice|, l, Data(l.remote, l.block.key));
      assert DataPromised(s'.device.tbufs, s'.toDevice, s'.control.sbufs, |s.toDevice|);
    }
  }

  lemma HasGives(links: seq<Link>, key: nat, id: nat, remote: nat)
    requires Has(links, key, id, remote)
    ensures exists l :: l in links && l.block.id == id && l.block.key == key
  {
  }

  // ---- Delivery to the controller ----

  /** What the controller's end keeps when it binds block `c` to device block `b`. */
  lemma ControlBinds(s: System, c: Block, b: Block)
    requires Inv(s) && c in s.control.blocks && b in s.device.blocks && b.key == c.key
    ensures var e := Bind(s.control, false, c, b);
      && e.blocks == s.control.blocks && e.nextS == s.control.nextS && e.nextT == s.control.nextT
      && Extends(s.control.sbufs, e.sbufs) && Extends(s.control.tbufs, e.tbufs)
      && BoundTo(e, c, b)
      && (forall l :: l in e.sbufs ==> l in s.control.sbufs || (l == Link(c, b.id) && c.down && b.down))
      && (forall l :: l in e.tbufs ==> l in s.control.tbufs || (l == Link(c, b.id) && c.up && b.up))
  {
    hide Has;
    AddLinkAdds(s.control.sbufs, c, b.id);
    AddLinkAdds(s.control.tbufs, c, b.id);
  }

  lemma HasMonotone(links: seq<Link>, more: seq<Link>)
    requires Extends(links, more)
    ensures forall key, id, remote :: Has(links, key, id, remote) ==> Has(more, key, id, remote)
  {
    ExtendsHas(links, more);
  }

  lemma ControlReceives(s: System, s': System, c: Block, b: Block)
    requires Inv(s) && c in s.control.blocks && b in s.device.blocks && b.key == c.key
    requires s' == s.(control := Bind(s.control, false, c, b))
    ensures Inv(s')
  {
    hide Has, Bind, Promised;
    ControlBinds(s, c, b);
    ExtendsHas(s.control.sbufs, s'.control.sbufs);
    ExtendsHas(s.control.tbufs, s'.control.tbufs);
    HasMonotone(s.control.sbufs, s'.control.sbufs);
    HasMonotone(s.control.tbufs, s'.control.tbufs);
    assert forall c, d :: BoundTo(s.control, c, d) ==> BoundTo(s'.control, c, d);
    assert forall c :: Bound(s.control, s.device.blocks, c) ==> Bound(s'.control, s'.device.blocks, c);
    assert Bound(s'.control, s'.device.blocks, c);
    assert ControlOk(s');
    assert DeviceOk(s');
    assert ToControlOk(s');
    forall n | 0 <= n < |s.toDevice| ensures DataPromised(s'.device.tbufs, s'.toDevice, s'.control.sbufs, n) {
      assert DataPromised(s.device.tbufs, s.toDevice, s.control.sbufs, n);
    }
  }

  lemma DeliverControlKeeps(s: System, dyn: Option<nat>)
    requires Inv(s) && Enabled(s, Deliver(false, dyn))
    ensures Inv(Next(s, Deliver(false, dyn)))
  {
    hide Has, Bind, Promised, DeviceOk, ControlOk, ToDeviceOk, AllPromised;
    var f := s.toControl[0];
    var rest := s.(toControl := s.toControl[1..]);
    assert f in s.toControl;
    assert Inv(rest) by {
      assert forall g :: g in rest.toControl ==> g in s.toControl;
      SameSystem(s, rest);
    }
    if f.Info? {
      var b := f.block;
      match Find(s.control.blocks, b.key)
      case Some(c) => ControlReceives(rest, Next(s, Deliver(false, dyn)), c, b);
      case None =>
        if dyn.Some? {
          var c := Block(b.key, dyn.value, b.up, b.down);
          assert Enabled(rest, AddBlock(false, c));
          AddBlockKeeps(rest, false, c);
          ControlReceives(Next(rest, AddBlock(false, c)), Next(s, Deliver(false, dyn)), c, b);
        }
    }
  }

  lemma SameSystem(s: System, t: System)
    requires t == s.(toControl := t.toControl)
    ensures ControlOk(s) == ControlOk(t) && DeviceOk(s) == DeviceOk(t) && ToDeviceOk(s) == ToDeviceOk(t)
  {
    hide Has, Promised;
  }

  // ---- Delivery to the device ----

  /** The device's block for information from the controller, and what binding it
      to `c` adds. */
  lemma DeviceBinds(s: System, d: Block, c: Block)
    requires Inv(s) && d in s.device.blocks && BoundTo(s.control, c, d) && c in s.control.blocks
    ensures var e := Bind(s.device, true, d, c);
      && e.blocks == s.device.blocks && e.next == s.device.next
      && Extends(s.device.sbufs, e.sbufs) && Extends(s.device.tbufs, e.tbufs)
      && (c.down && d.down ==> Has(e.tbufs, d.key, d.id, c.id))
      && (c.up && d.up ==> Has(e.sbufs, d.key, d.id, c.id))
      && (forall l :: l in e.sbufs ==> l in s.device.sbufs || (l == Link(d, c.id) && c.up && d.up))
      && (forall l :: l in e.tbufs ==> l in s.device.tbufs || (l == Link(d, c.id) && c.down && d.down))
  {
    AddLinkAdds(s.device.sbufs, d, c.id);
    AddLinkAdds(s.device.tbufs, d, c.id);
  }

  /** A promise survives the delivery of the first frame, because information about
      the link's block creates the counterpart. */
  lemma PromiseKept(before: seq<Link>, after: seq<Link>, wire: seq<Frame>, n: nat, l: Link)
    requires Promised(before, wire, n, l) && wire != [] && Extends(before, after)
    requires wire[0] == Info(l.block) ==> Has(after, l.block.key, l.remote, l.block.id)
    ensures Promised(after, wire[1..], if n == 0 then 0 else n - 1, l)
  {
    hide Has;
    HasMonotone(before, after);
    if !Has(after, l.block.key, l.remote, l.block.id) {
      var k := if n <= |wire| then n else |wire|;
      var i :| 0 <= i < k && wire[..k][i] == Info(l.block);
      assert wire[1..][i - 1] == Info(l.block);
    }
  }

  /** The delivered information is about block `c`; `d` is the device's block. */
  lemma DeviceReceives(s: System, s': System, d: Block, c: Block)
    requires Inv(s) && s.toDevice != [] && s.toDevice[0] == Info(c)
    requires d in s.device.blocks && BoundTo(s.control, c, d) && c in s.control.blocks
    requires s' == s.(device := Bind(s.device, true, d, c), toDevice := s.toDevice[1..])
    ensures Inv(s')
  {
    hide Has, Bind, Promised;
    DeviceBinds(s, d, c);
    ExtendsHas(s.device.sbufs, s'.device.sbufs);
    ExtendsHas(s.device.tbufs, s'.device.tbufs);
    forall l, n: nat | l in s.control.sbufs && Promised(s.device.tbufs, s.toDevice, n, l)
      ensures Promised(s'.device.tbufs, s'.toDevice, if n == 0 then 0 else n - 1, l)
    {
      PromiseKept(s.device.tbufs, s'.device.tbufs, s.toDevice, n, l);
    }
    forall l, n: nat | l in s.control.tbufs && Promised(s.device.sbufs, s.toDevice, n, l)
      ensures Promised(s'.device.sbufs, s'.toDevice, if n == 0 then 0 else n - 1, l)
    {
      PromiseKept(s.device.sbufs, s'.device.sbufs, s.toDevice, n, l);
    }
    assert DeviceOk(s');
    forall n | 0 <= n < |s'.toDevice| ensures DataPromised(s'.device.tbufs, s'.toDevice, s'.control.sbufs, n) {
      assert DataPromised(s.device.tbufs, s.toDevice, s.control.sbufs, n + 1);
    }
    assert forall f :: f in s'.toDevice ==> f in s.toDevice;
  }

  /** Delivering a data frame to the device changes nothing but the wire. */
  lemma DeviceSkips(s: System)
    requires Inv(s) && s.toDevice != [] && s.toDevice[0].Data?
    ensures Inv(s.(toDevice := s.toDevice[1..]))
  {
    hide Has, Promised;
    var s' := s.(toDevice := s.toDevice[1..]);
    forall links, l, n: nat | Promised(links, s.toDevice, n, l)
      ensures Promised(links, s'.toDevice, if n == 0 then 0 else n - 1, l)
    {
      PromiseKept(links, links, s.toDevice, n, l);
    }
    forall n | 0 <= n < |s'.toDevice| ensures DataPromised(s'.device.tbufs, s'.toDevice, s'.control.sbufs, n) {
      assert DataPromised(s.device.tbufs, s.toDevice, s.control.sbufs, n + 1);
    }
    assert forall f :: f in s'.toDevice ==> f in s.toDevice;
  }

  lemma DeliverDeviceKeeps(s: System, dyn: Option<nat>)
    requires Inv(s) && Enabled(s, Deliver(true, dyn))
    ensures Inv(Next(s, Deliver(true, dyn)))
  {
    hide Has, Bind, Promised, DeviceOk, ControlOk, AllPromised, DataPromised;
    var f := s.toDevice[0];
    assert f in s.toDevice;
    match f
    case Data(_, _) => DeviceSkips(s);
    case Info(c) =>
      assert Bound(s.control, s.device.blocks, c);
      var d :| d in s.device.blocks && BoundTo(s.control, c, d);
      assert Find(s.device.blocks, c.key) == Some(d);
      DeviceReceives(s, Next(s, Deliver(true, dyn)), d, c);
  }

  lemma NextKeepsInv(s: System, a: Action)
    requires Inv(s) && Enabled(s, a)
    ensures Inv(Next(s, a))
  {
    hide Inv;
    match a
    case AddBlock(atDevice, b) => AddBlockKeeps(s, atDevice, b);
    case SendInfo(true) => SendInfoDeviceKeeps(s);
    case SendInfo(false) => SendInfoControlKeeps(s);
    case SendData(atDevice, i) => SendDataKeeps(s, atDevice, i);
    case Deliver(true, dyn) => DeliverDeviceKeeps(s, dyn);
    case Deliver(false, dyn) => DeliverControlKeeps(s, dyn);
  }

  lemma {:induction false} RunInv(run: seq<Action>, s: System)
    requires Reaches(run, s)
    ensures Inv(s)
    decreases |run|
  {
    if run != [] {
      var last := |run| - 1;
      var before :| Reaches(run[..last], before) && Enabled(before, run[last]) && Next(before, run[last]) == s;
      RunInv(run[..last], before);
      NextKeepsInv(before, run[last]);
    }
  }

  // ---- Main results ----

  /** Info before data: in every run, a data frame that arrives finds its target
      buffer, and it is that of the block with the same name. */
  lemma InfoBeforeData(run: seq<Action>, s: System)
    requires Reaches(run, s)
    ensures s.toControl != [] && s.toControl[0].Data? ==>
      var t := TargetOf(s.control.tbufs, s.toControl[0].id);
      t.Some? && t.value.block.key == s.toControl[0].key
    ensures s.toDevice != [] && s.toDevice[0].Data? ==>
      var t := TargetOf(s.device.tbufs, s.toDevice[0].id);
      t.Some? && t.value.block.key == s.toDevice[0].key
  {
    hide Reaches;
    RunInv(run, s);
    if s.toControl != [] && s.toControl[0].Data? {
      assert s.toControl[0] in s.toControl;
    }
    if s.toDevice != [] && s.toDevice[0].Data? {
      assert DataPromised(s.device.tbufs, s.toDevice, s.control.sbufs, 0);
    }
  }

  ghost predicate Settled(s: System) {
    && s.toControl == [] && s.toDevice == []
    && ToSend(s.device, true).None? && ToSend(s.control, false).None?
  }

  /** When nothing is left to send, the two ends agree on every link: one end's
      sources are the other end's targets, with the identifiers crossed over. */
  lemma LinksAgree(run: seq<Action>, s: System)
    requires Reaches(run, s) && Settled(s)
    ensures forall key, id, remote ::
      Has(s.control.sbufs, key, id, remote) <==> Has(s.device.tbufs, key, remote, id)
    ensures forall key, id, remote ::
      Has(s.device.sbufs, key, id, remote) <==> Has(s.control.tbufs, key, remote, id)
  {
    hide Reaches;
    RunInv(run, s);
    assert forall l :: l in s.control.sbufs ==> Promised(s.device.tbufs, [], 0, l);
    assert forall l :: l in s.control.tbufs ==> Promised(s.device.sbufs, [], 0, l);
  }

  /** A block known to both ends before its information arrives is linked in every
      direction both allow. */
  lemma MatchingBlocksLink(run: seq<Action>, s: System, dyn: Option<nat>, c: Block)
    requires Reaches(run, s) && Enabled(s, Deliver(false, dyn)) && s.toControl[0].Info?
    requires c in s.control.blocks && c.key == s.toControl[0].block.key
    ensures BoundTo(Next(s, Deliver(false, dyn)).control, c, s.toControl[0].block)
  {
    hide Reaches;
    RunInv(run, s);
    var b := s.toControl[0].block;
    assert s.toControl[0] in s.toControl;
    assert Find(s.control.blocks, b.key) == Some(c);
    ControlBinds(s, c, b);
  }

  // ---- The exchange comes to an end ----

  lemma Extend(run: seq<Action>, s: System, a: Action)
    requires Reaches(run, s) && Enabled(s, a)
    ensures Reaches(run + [a], Next(s, a))
  {
    assert (run + [a])[..|run|] == run;
  }

  /** Source and target buffers the controller has not announced yet. */
  function Unannounced(e: End): nat {
    (if e.nextS < |e.sbufs| then |e.sbufs| - e.nextS else 0) + (if e.nextT < |e.tbufs| then |e.tbufs| - e.nextT else 0)
  }

  ghost predicate SameBlocks(s: System, t: System) {
    s.device.blocks == t.device.blocks && s.control.blocks == t.control.blocks
  }

  /** Device blocks from position `n` on are announced among the frames. */
  ghost predicate Told(wire: seq<Frame>, blocks: seq<Block>, n: nat, m: nat) {
    forall i :: n <= i < m && i < |blocks| ==> Info(blocks[i]) in wire
  }

  /** The device announces, one after another, every block it has not announced yet. */
  lemma {:induction false} DeviceTells(run: seq<Action>, s: System) returns (run': seq<Action>, t: System)
    requires Reaches(run, s) && s.device.next <= |s.device.blocks|
    ensures Reaches(run', t) && run <= run' && SameBlocks(s, t) && t.control == s.control
    ensures ToSend(t.device, true).None? && t.device.next == |t.device.blocks|
    ensures s.toControl <= t.toControl && Told(t.toControl, s.device.blocks, s.device.next, |s.device.blocks|)
    decreases |s.device.blocks| - s.device.next
  {
    hide Reaches;
    if ToSend(s.device, true).None? {
      run', t := run, s;
    } else {
      var mid := Next(s, SendInfo(true));
      Extend(run, s, SendInfo(true));
      run', t := DeviceTells(run + [SendInfo(true)], mid);
      assert mid.toControl[|s.toControl|] == Info(s.device.blocks[s.device.next]);
      assert Info(s.device.blocks[s.device.next]) in mid.toControl;
      assert forall f :: f in mid.toControl ==> f in t.toControl;
    }
  }

  /** The controller has bound every block of its own that a frame tells about. */
  ghost predicate Heard(control: End, wire: seq<Frame>) {
    forall b, c :: Info(b) in wire && c in control.blocks && c.key == b.key ==> BoundTo(control, c, b)
  }

  ghost predicate ControlGrows(a: End, b: End) {
    && a.blocks == b.blocks
    && (forall c, d :: BoundTo(a, c, d) ==> BoundTo(b, c, d))
  }

  /** Hearing one frame binds what it tells and undoes no binding. */
  lemma ControlHearsOne(s: System)
    requires Inv(s) && s.toControl != []
    ensures var e := Process(s.control, false, s.toControl[0], None);
      && e.blocks == s.control.blocks && ControlGrows(s.control, e)
      && (s.toControl[0].Info? ==> forall c :: c in s.control.blocks && c.key == s.toControl[0].block.key ==>
           BoundTo(e, c, s.toControl[0].block))
  {
    var f := s.toControl[0];
    assert f in s.toControl;
    if f.Info? {
      var found := Find(s.control.blocks, f.block.key);
      if found.Some? {
        hide Bind, Has;
        ControlBinds(s, found.value, f.block);
        var e := Bind(s.control, false, found.value, f.block);
        HasMonotone(s.control.sbufs, e.sbufs);
        HasMonotone(s.control.tbufs, e.tbufs);
      }
    }
  }

  lemma {:induction false} ControlHears(run: seq<Action>, s: System) returns (run': seq<Action>, t: System)
    requires Reaches(run, s)
    ensures Reaches(run', t) && run <= run' && SameBlocks(s, t)
    ensures t.device == s.device && t.toControl == []
    ensures ControlGrows(s.control, t.control) && Heard(t.control, s.toControl)
    decreases |s.toControl|
  {
    hide Reaches, Bind, BoundTo, Inv;
    if s.toControl == [] {
      run', t := run, s;
    } else {
      RunInv(run, s);
      ControlHearsOne(s);
      var mid := Next(s, Deliver(false, None));
      Extend(run, s, Deliver(false, None));
      BindKeepsBlocks(s.control, false);
      run', t := ControlHears(run + [Deliver(false, None)], mid);
      assert forall f :: f in s.toControl ==> f == s.toControl[0] || f in mid.toControl;
    }
  }

  lemma {:induction false} ControlTells(run: seq<Action>, s: System) returns (run': seq<Action>, t: System)
    requires Reaches(run, s)
    ensures Reaches(run', t) && run <= run' && SameBlocks(s, t)
    ensures t.device == s.device && t.toControl == s.toControl && ToSend(t.control, false).None?
    ensures t.control.sbufs == s.control.sbufs && t.control.tbufs == s.control.tbufs
    decreases Unannounced(s.control)
  {
    hide Reaches;
    if ToSend(s.control, false).None? {
      run', t := run, s;
    } else {
      Extend(run, s, SendInfo(false));
      run', t := ControlTells(run + [SendInfo(false)], Next(s, SendInfo(false)));
    }
  }

  lemma {:induction false} DeviceHears(run: seq<Action>, s: System) returns (run': seq<Action>, t: System)
    requires Reaches(run, s)
    ensures Reaches(run', t) && run <= run' && SameBlocks(s, t)
    ensures t.control == s.control && t.toControl == s.toControl && t.toDevice == []
    ensures t.device.next == s.device.next
    decreases |s.toDevice|
  {
    hide Reaches, Bind;
    if s.toDevice == [] {
      run', t := run, s;
    } else {
      Extend(run, s, Deliver(true, None));
      BindKeepsBlocks(s.device, true);
      run', t := DeviceHears(run + [Deliver(true, None)], Next(s, Deliver(true, None)));
    }
  }

  lemma BindKeepsBlocks(e: End, isDevice: bool)
    ensures forall b, info :: Bind(e, isDevice, b, info).blocks == e.blocks && Bind(e, isDevice, b, info).next == e.next
  {
  }

  /** From every reachable state the exchange can come to an end without new blocks:
      the ends agree on every link, and every pair of matching blocks that the device
      had not announced before is linked in each direction both allow. */
  lemma CanSettle(run: seq<Action>, s: System) returns (run': seq<Action>, t: System)
    requires Reaches(run, s)
    ensures Reaches(run', t) && run <= run' && SameBlocks(s, t) && Settled(t)
    ensures forall key, id, remote :: Has(t.control.sbufs, key, id, remote) <==> Has(t.device.tbufs, key, remote, id)
    ensures forall key, id, remote :: Has(t.device.sbufs, key, id, remote) <==> Has(t.control.tbufs, key, remote, id)
    ensures forall i, c ::
      (s.device.next <= i < |s.device.blocks| && c in s.control.blocks && c.key == s.device.blocks[i].key) ==>
      Linked(t, s.device.blocks[i], c)
  {
    hide Reaches, Has, Inv, BoundTo, ToSend, Linked;
    assert s.device.next <= |s.device.blocks| by { RunNext(run, s); }
    var r1, s1 := DeviceTells(run, s);
    var r2, s2 := ControlHears(r1, s1);
    var r3, s3 := ControlTells(r2, s2);
    run', t := DeviceHears(r3, s3);
    SettledIs(t);
    LinksAgree(run', t);
    forall i, c | s.device.next <= i < |s.device.blocks| && c in s.control.blocks && c.key == s.device.blocks[i].key
      ensures Linked(t, s.device.blocks[i], c)
    {
      assert BoundTo(s2.control, c, s.device.blocks[i]);
      SameBinding(s2.control, t.control, c, s.device.blocks[i]);
      BoundIsLinked(t, s.device.blocks[i], c);
    }
  }

  /** Device block `d` and controller block `c` have source and target buffers for each
      other in each direction both allow. */
  ghost predicate Linked(s: System, d: Block, c: Block) {
    && (d.up && c.up ==> Has(s.device.sbufs, d.key, d.id, c.id) && Has(s.control.tbufs, c.key, c.id, d.id))
    && (d.down && c.down ==> Has(s.control.sbufs, c.key, c.id, d.id) && Has(s.device.tbufs, d.key, d.id, c.id))
  }

  lemma BoundIsLinked(s: System, d: Block, c: Block)
    requires BoundTo(s.control, c, d)
    requires forall key, id, remote :: Has(s.control.sbufs, key, id, remote) <==> Has(s.device.tbufs, key, remote, id)
    requires forall key, id, remote :: Has(s.device.sbufs, key, id, remote) <==> Has(s.control.tbufs, key, remote, id)
    ensures Linked(s, d, c)
  {
    hide Has;
  }

  lemma SameBinding(a: End, b: End, c: Block, d: Block)
    requires BoundTo(a, c, d) && a.sbufs == b.sbufs && a.tbufs == b.tbufs
    ensures BoundTo(b, c, d)
  {
  }

  lemma RunNext(run: seq<Action>, s: System)
    requires Reaches(run, s)
    ensures s.device.next <= |s.device.blocks|
  {
    hide Reaches;
    RunInv(run, s);
  }

  lemma SettledIs(s: System)
    requires s.toControl == [] && s.toDevice == [] && s.device.next == |s.device.blocks| && ToSend(s.control, false).None?
    ensures Settled(s)
  {
  }

  /** Information about a block the controller does not have creates one with the same
      flags, where blocks are dynamic, and links it in both its directions. */
  lemma DynamicBlockLinks(run: seq<Action>, s: System, id: nat)
    requires Reaches(run, s) && Enabled(s, Deliver(false, Some(id))) && s.toControl[0].Info?
    requires forall c :: c in s.control.blocks ==> c.key != s.toControl[0].block.key
    ensures var b := s.toControl[0].block;
      var e := Next(s, Deliver(false, Some(id))).control;
      && e.blocks == s.control.blocks + [Block(b.key, id, b.up, b.down)]
      && (b.up ==> Has(e.tbufs, b.key, id, b.id)) && (b.down ==> Has(e.sbufs, b.key, id, b.id))
  {
    hide Reaches, Has;
    RunInv(run, s);
    var b := s.toControl[0].block;
    var c := Block(b.key, id, b.up, b.down);
    assert s.toControl[0] in s.toControl;
    assert Find(s.control.blocks, b.key).None?;
    AddBlockKeeps(s, false, c);
    var mid := Next(s, AddBlock(false, c));
    assert mid.control.blocks[|s.control.blocks|] == c;
    ControlBinds(mid, c, b);
  }

  // ---- One buffer per block, and data through it ----

  ghost predicate Once(links: seq<Link>) {
    forall i, j :: 0 <= i < j < |links| ==> links[i].block != links[j].block
  }

  lemma AddLinkOnce(links: seq<Link>, b: Block, remote: nat)
    requires Once(links)
    ensures Once(AddLink(links, b, remote))
  {
  }

  lemma ReceiveOnce(e: End, isDevice: bool, info: Block, dynamicId: Option<nat>)
    requires Once(e.sbufs) && Once(e.tbufs)
    ensures var r := Receive(e, isDevice, info, dynamicId); Once(r.sbufs) && Once(r.tbufs)
  {
    hide Once, AddLink;
    var b := match Find(e.blocks, info.key)
      case Some(b) => b
      case None => Block(info.key, if dynamicId.Some? then dynamicId.value else 0, info.up, info.down);
    AddLinkOnce(e.sbufs, b, info.id);
    AddLinkOnce(e.tbufs, b, info.id);
  }

  /** In every run, each end has at most one source and one target buffer for a block,
      however often information about it comes. */
  lemma {:induction false} OneLinkPerBlock(run: seq<Action>, s: System)
    requires Reaches(run, s)
    ensures Once(s.device.sbufs) && Once(s.device.tbufs) && Once(s.control.sbufs) && Once(s.control.tbufs)
    decreases |run|
  {
    hide Receive;
    if run != [] {
      var last := |run| - 1;
      var before :| Reaches(run[..last], before) && Enabled(before, run[last]) && Next(before, run[last]) == s;
      OneLinkPerBlock(run[..last], before);
      match run[last]
      case Deliver(atDevice, dyn) =>
        hide Reaches, Once;
        var f := if atDevice then before.toDevice[0] else before.toControl[0];
        if f.Info? {
          ReceiveOnce(if atDevice then before.device else before.control, atDevice, f.block, dyn);
        }
      case _ =>
    }
  }

  /** Once everything is announced, a source buffer whose counterpart has an identifier
      other than zero can send, and its data arrives at the counterpart. */
  lemma DataGetsThrough(run: seq<Action>, s: System, i: nat, atDevice: bool)
    requires Reaches(run, s) && Settled(s)
    requires var e := if atDevice then s.device else s.control; i < |e.sbufs| && e.sbufs[i].remote != 0
    ensures Enabled(s, SendData(atDevice, i))
    ensures var l := (if atDevice then s.device else s.control).sbufs[i];
      var t := Next(s, SendData(atDevice, i));
      var wire := if atDevice then t.toControl else t.toDevice;
      var target := TargetOf((if atDevice then t.control else t.device).tbufs, l.remote);
      wire == [Data(l.remote, l.block.key)] && target.Some? && target.value.block.key == l.block.key
  {
    hide Reaches;
    Extend(run, s, SendData(atDevice, i));
    InfoBeforeData(run + [SendData(atDevice, i)], Next(s, SendData(atDevice, i)));
  }
}
