/** Static memory pool (ioc_malloc and ioc_free in code/ioc_memory.c). Released blocks
    are kept in chains of equal size: the first block of each chain is on a list of
    different sizes, and the list records live inside the released blocks. */
module Pool {
  import opened Options

  /** The record at the start of a released block (iocFreeBlk). */
  datatype Node = Node(size: nat, nextDiff: Option<nat>, nextSame: Option<nat>)

  /** A chain of released blocks, head first. */
  datatype Chain = Chain(size: nat, blocks: seq<nat>)

  /** A piece of the pool. */
  datatype Cut = Cut(start: nat, size: nat)

  // ---- The linked structure ----

  ghost function After(blocks: seq<nat>, j: nat): Option<nat> {
    if j < |blocks| then Some(blocks[j]) else None
  }

  ghost function HeadOf(chains: seq<Chain>, i: nat): Option<nat> {
    if i < |chains| then After(chains[i].blocks, 0) else None
  }

  ghost predicate Distinct(blocks: seq<nat>) {
    forall i, j :: 0 <= i < j < |blocks| ==> blocks[i] != blocks[j]
  }

  ghost predicate ChainLinked(nodes: map<nat, Node>, c: Chain, next: Option<nat>) {
    && c.blocks != [] && Distinct(c.blocks)
    && (forall j :: 0 <= j < |c.blocks| ==>
          c.blocks[j] in nodes && nodes[c.blocks[j]].size == c.size &&
          nodes[c.blocks[j]].nextSame == After(c.blocks, j + 1))
    && nodes[c.blocks[0]].nextDiff == next
  }

  /** The records form exactly these chains, and no two chains have the same size. */
  ghost predicate Linked(nodes: map<nat, Node>, first: Option<nat>, chains: seq<Chain>) {
    && first == HeadOf(chains, 0)
    && (forall i :: 0 <= i < |chains| ==> ChainLinked(nodes, chains[i], HeadOf(chains, i + 1)))
    && (forall i, j :: 0 <= i < j < |chains| ==> chains[i].size != chains[j].size)
    && (forall x :: x in nodes ==> Member(chains, x))
  }

  ghost predicate Member(chains: seq<Chain>, x: nat) {
    exists i :: 0 <= i < |chains| && x in chains[i].blocks
  }

  lemma ChainAt(nodes: map<nat, Node>, first: Option<nat>, chains: seq<Chain>, i: nat)
    requires Linked(nodes, first, chains) && i < |chains|
    ensures ChainLinked(nodes, chains[i], HeadOf(chains, i + 1))
    ensures HeadOf(chains, i) == Some(chains[i].blocks[0])
    ensures chains[i].blocks[0] in nodes
    ensures |chains[i].blocks| >= 2 ==> chains[i].blocks[1] in nodes && chains[i].blocks[0] != chains[i].blocks[1]
  {
  }

  lemma ChainBlocks(nodes: map<nat, Node>, c: Chain, next: Option<nat>)
    requires ChainLinked(nodes, c, next)
    ensures c.blocks != [] && nodes[c.blocks[0]].nextDiff == next
    ensures forall x :: x in c.blocks ==> x in nodes && nodes[x].size == c.size
  {
  }

  lemma ChainFrame(nodes: map<nat, Node>, nodes': map<nat, Node>, c: Chain, next: Option<nat>)
    requires ChainLinked(nodes, c, next)
    requires forall x :: x in nodes && nodes[x].size == c.size ==> x in nodes' && nodes'[x] == nodes[x]
    ensures ChainLinked(nodes', c, next)
  {
  }

  /** Replacing one chain by another of the same size and head. */
  lemma ChainReplaced(nodes: map<nat, Node>, nodes': map<nat, Node>, first: Option<nat>, chains: seq<Chain>, i: nat, c: Chain)
    requires Linked(nodes, first, chains) && i < |chains|
    requires c.size == chains[i].size && After(c.blocks, 0) == After(chains[i].blocks, 0)
    requires ChainLinked(nodes', c, HeadOf(chains, i + 1))
    requires forall x :: x in nodes && nodes[x].size != c.size ==> x in nodes' && nodes'[x] == nodes[x]
    requires forall x :: x in nodes' && x !in c.blocks ==> x in nodes && nodes[x].size != c.size
    ensures Linked(nodes', first, chains[i := c])
  {
    hide ChainLinked, Member, After;
    var chains' := chains[i := c];
    assert forall k :: 0 <= k ==> HeadOf(chains', k) == HeadOf(chains, k);
    forall k | 0 <= k < |chains'| ensures ChainLinked(nodes', chains'[k], HeadOf(chains', k + 1)) {
      if k != i {
        ChainFrame(nodes, nodes', chains[k], HeadOf(chains, k + 1));
      }
    }
    forall x | x in nodes' ensures Member(chains', x) {
      if x in c.blocks {
        IsMember(chains', i, x);
      } else {
        var k := MemberOf(nodes, first, chains, x);
        IsMember(chains', k, x);
      }
    }
  }

  lemma IsMember(chains: seq<Chain>, k: nat, x: nat)
    requires k < |chains| && x in chains[k].blocks
    ensures Member(chains, x)
  {
  }

  lemma MemberOf(nodes: map<nat, Node>, first: Option<nat>, chains: seq<Chain>, x: nat) returns (k: nat)
    requires Linked(nodes, first, chains) && x in nodes
    ensures k < |chains| && x in chains[k].blocks && chains[k].size == nodes[x].size
  {
    hide ChainLinked;
    assert Member(chains, x);
    k :| k < |chains| && x in chains[k].blocks;
    ChainBlocks(nodes, chains[k], HeadOf(chains, k + 1));
  }

  /** Two blocks of one size are in the same chain. */
  lemma SameChain(nodes: map<nat, Node>, first: Option<nat>, chains: seq<Chain>, i: nat, x: nat)
    requires Linked(nodes, first, chains) && i < |chains| && x in nodes && nodes[x].size == chains[i].size
    ensures x in chains[i].blocks
  {
    hide ChainLinked;
    var k := MemberOf(nodes, first, chains, x);
  }

  /** Unlink the second block of a chain. */
  ghost function SecondGone(c: Chain): Chain
    requires |c.blocks| >= 2
  {
    Chain(c.size, [c.blocks[0]] + c.blocks[2..])
  }

  lemma SecondGoneKeeps(c: Chain, x: nat)
    requires |c.blocks| >= 2 && x in c.blocks && x != c.blocks[1]
    ensures x in SecondGone(c).blocks
  {
    var j :| 0 <= j < |c.blocks| && c.blocks[j] == x;
    assert SecondGone(c).blocks[if j == 0 then 0 else j - 1] == x;
  }

  lemma TakeSecond(nodes: map<nat, Node>, first: Option<nat>, chains: seq<Chain>, i: nat)
    requires Linked(nodes, first, chains) && i < |chains| && |chains[i].blocks| >= 2
    ensures var b := chains[i].blocks[0];
      var r := chains[i].blocks[1];
      b in nodes && r in nodes && b != r &&
      Linked(nodes[b := nodes[b].(nextSame := nodes[r].nextSame)] - {r}, first, chains[i := SecondGone(chains[i])])
  {
    hide Linked, ChainLinked, HeadOf;
    ChainAt(nodes, first, chains, i);
    var c := chains[i];
    var b, r := c.blocks[0], c.blocks[1];
    var nodes' := nodes[b := nodes[b].(nextSame := nodes[r].nextSame)] - {r};
    SecondUnlinked(nodes, c, HeadOf(chains, i + 1));
    forall x | x in nodes' && nodes[x].size == c.size ensures x in SecondGone(c).blocks {
      SameChain(nodes, first, chains, i, x);
      SecondGoneKeeps(c, x);
    }
    ChainReplaced(nodes, nodes', first, chains, i, SecondGone(c));
  }

  lemma SecondUnlinked(nodes: map<nat, Node>, c: Chain, next: Option<nat>)
    requires ChainLinked(nodes, c, next) && |c.blocks| >= 2
    ensures var b := c.blocks[0];
      var r := c.blocks[1];
      ChainLinked(nodes[b := nodes[b].(nextSame := nodes[r].nextSame)] - {r}, SecondGone(c), next)
  {
    var b, r := c.blocks[0], c.blocks[1];
    var nodes' := nodes[b := nodes[b].(nextSame := nodes[r].nextSame)] - {r};
    var blocks' := SecondGone(c).blocks;
    assert forall j :: 0 <= j < |blocks'| ==> blocks'[j] == c.blocks[if j == 0 then 0 else j + 1];
    forall j | 0 <= j < |blocks'|
      ensures blocks'[j] in nodes' && nodes'[blocks'[j]].size == c.size &&
        nodes'[blocks'[j]].nextSame == After(blocks', j + 1)
    {
      assert c.blocks[if j == 0 then 0 else j + 1] != r;
    }
  }

  /** Put a block behind the head of a chain. */
  ghost function SecondPut(c: Chain, r: nat): Chain
    requires c.blocks != []
  {
    Chain(c.size, [c.blocks[0], r] + c.blocks[1..])
  }

  lemma SecondPutKeeps(c: Chain, r: nat, x: nat)
    requires c.blocks != [] && (x == r || x in c.blocks)
    ensures x in SecondPut(c, r).blocks
  {
    if x == r {
      assert SecondPut(c, r).blocks[1] == x;
    } else {
      var j :| 0 <= j < |c.blocks| && c.blocks[j] == x;
      assert SecondPut(c, r).blocks[if j == 0 then 0 else j + 1] == x;
    }
  }

  lemma PutSecond(nodes: map<nat, Node>, first: Option<nat>, chains: seq<Chain>, i: nat, r: nat)
    requires Linked(nodes, first, chains) && i < |chains| && chains[i].blocks != [] && r !in nodes
    ensures var b := chains[i].blocks[0];
      b in nodes &&
      Linked(nodes[r := Node(chains[i].size, None, nodes[b].nextSame)][b := nodes[b].(nextSame := Some(r))],
        first, chains[i := SecondPut(chains[i], r)])
  {
    hide Linked, ChainLinked, HeadOf;
    ChainAt(nodes, first, chains, i);
    var c := chains[i];
    var b := c.blocks[0];
    var nodes' := nodes[r := Node(c.size, None, nodes[b].nextSame)][b := nodes[b].(nextSame := Some(r))];
    SecondLinked(nodes, c, HeadOf(chains, i + 1), r);
    forall x | x in nodes' && (x == r || nodes[x].size == c.size) ensures x in SecondPut(c, r).blocks {
      if x != r {
        SameChain(nodes, first, chains, i, x);
      }
      SecondPutKeeps(c, r, x);
    }
    ChainReplaced(nodes, nodes', first, chains, i, SecondPut(c, r));
  }

  lemma DistinctPut(c: Chain, r: nat)
    requires c.blocks != [] && Distinct(c.blocks) && r !in c.blocks
    ensures Distinct(SecondPut(c, r).blocks)
    ensures forall j :: 1 <= j < |c.blocks| ==> c.blocks[j] != c.blocks[0]
  {
    var blocks' := SecondPut(c, r).blocks;
    assert forall j :: 2 <= j < |blocks'| ==> blocks'[j] == c.blocks[j - 1];
  }

  lemma SecondLinked(nodes: map<nat, Node>, c: Chain, next: Option<nat>, r: nat)
    requires ChainLinked(nodes, c, next) && r !in nodes
    ensures var b := c.blocks[0];
      ChainLinked(nodes[r := Node(c.size, None, nodes[b].nextSame)][b := nodes[b].(nextSame := Some(r))],
        SecondPut(c, r), next)
  {
    DistinctPut(c, r);
    hide Distinct;
    var b := c.blocks[0];
    var nodes' := nodes[r := Node(c.size, None, nodes[b].nextSame)][b := nodes[b].(nextSame := Some(r))];
    var blocks' := SecondPut(c, r).blocks;
    assert forall j :: 2 <= j < |blocks'| ==> blocks'[j] == c.blocks[j - 1];
    forall j | 0 <= j < |blocks'|
      ensures blocks'[j] in nodes' && nodes'[blocks'[j]].size == c.size &&
        nodes'[blocks'[j]].nextSame == After(blocks', j + 1)
    {
      if j >= 2 {
        assert c.blocks[j - 1] != b && c.blocks[j - 1] != r;
      }
    }
  }

  lemma SingleLinked(nodes: map<nat, Node>, c: Chain, next: Option<nat>)
    requires |c.blocks| == 1 && c.blocks[0] in nodes && nodes[c.blocks[0]] == Node(c.size, next, None)
    ensures ChainLinked(nodes, c, next)
  {
  }

  /** Put a chain of one block, of a new size, in front. */
  lemma PutFirst(nodes: map<nat, Node>, first: Option<nat>, chains: seq<Chain>, r: nat, size: nat)
    requires Linked(nodes, first, chains) && r !in nodes
    requires forall i :: 0 <= i < |chains| ==> chains[i].size != size
    ensures Linked(nodes[r := Node(size, first, None)], Some(r), [Chain(size, [r])] + chains)
  {
    hide ChainLinked, Member;
    var nodes' := nodes[r := Node(size, first, None)];
    var chains' := [Chain(size, [r])] + chains;
    SingleLinked(nodes', chains'[0], HeadOf(chains', 1));
    assert forall k :: 0 < k < |chains'| ==> chains'[k] == chains[k - 1];
    forall k | 0 < k < |chains'| ensures ChainLinked(nodes', chains'[k], HeadOf(chains', k + 1)) {
      ChainFrame(nodes, nodes', chains[k - 1], HeadOf(chains, k));
    }
    forall x | x in nodes' ensures Member(chains', x) {
      if x == r {
        assert chains'[0].blocks[0] == x;
        IsMember(chains', 0, x);
      } else {
        var k := MemberOf(nodes, first, chains, x);
        IsMember(chains', k + 1, x);
      }
    }
  }

  /** Unlink the only block of the first chain. */
  lemma TakeOnlyFirst(nodes: map<nat, Node>, first: Option<nat>, chains: seq<Chain>)
    requires Linked(nodes, first, chains) && 0 < |chains| && |chains[0].blocks| == 1
    ensures var b := chains[0].blocks[0];
      b in nodes && Linked(nodes - {b}, nodes[b].nextDiff, chains[1..])
  {
    hide ChainLinked, Member, After, HeadOf;
    ChainAt(nodes, first, chains, 0);
    var b := chains[0].blocks[0];
    ChainBlocks(nodes, chains[0], HeadOf(chains, 1));
    assert b in chains[0].blocks;
    var chains' := chains[1..];
    var nodes' := nodes - {b};
    HeadOfRest(chains, 0);
    forall k | 0 <= k < |chains'| ensures ChainLinked(nodes', chains'[k], HeadOf(chains', k + 1)) {
      HeadOfRest(chains, k + 1);
      ChainFrame(nodes, nodes', chains[k + 1], HeadOf(chains, k + 2));
    }
    forall x | x in nodes' ensures Member(chains', x) {
      RestMember(nodes, first, chains, x);
    }
  }

  lemma HeadOfRest(chains: seq<Chain>, k: nat)
    requires k < |chains|
    ensures HeadOf(chains[1..], k) == HeadOf(chains, k + 1)
  {
  }

  lemma RestMember(nodes: map<nat, Node>, first: Option<nat>, chains: seq<Chain>, x: nat)
    requires Linked(nodes, first, chains) && 0 < |chains| && |chains[0].blocks| == 1
    requires x in nodes && x != chains[0].blocks[0]
    ensures Member(chains[1..], x)
  {
    hide Linked;
    var k := MemberOf(nodes, first, chains, x);
    OnlyOne(chains[0].blocks, x);
    IsMember(chains[1..], k - 1, x);
  }

  ghost function Removed(chains: seq<Chain>, i: nat): seq<Chain>
    requires i < |chains|
  {
    chains[..i] + chains[i + 1..]
  }

  lemma RemovedAt(chains: seq<Chain>, i: nat, k: nat)
    requires 0 < i < |chains| && k < |chains| - 1
    ensures |Removed(chains, i)| == |chains| - 1
    ensures Removed(chains, i)[k] == chains[if k < i then k else k + 1]
    ensures HeadOf(Removed(chains, i), k + 1) == HeadOf(chains, if k < i - 1 then k + 1 else k + 2)
    ensures HeadOf(Removed(chains, i), 0) == HeadOf(chains, 0)
  {
  }

  /** Unlink the only block of a later chain: the head before it skips it. */
  lemma TakeOnlyInside(nodes: map<nat, Node>, first: Option<nat>, chains: seq<Chain>, i: nat)
    requires Linked(nodes, first, chains) && 0 < i < |chains| && |chains[i].blocks| == 1
    ensures var b := chains[i].blocks[0];
      var prev := chains[i - 1].blocks;
      b in nodes && prev != [] && prev[0] in nodes && prev[0] != b &&
      Linked(nodes[prev[0] := nodes[prev[0]].(nextDiff := nodes[b].nextDiff)] - {b}, first, Removed(chains, i))
  {
    hide ChainLinked, Member, After, HeadOf, Removed;
    var b := chains[i].blocks[0];
    assert b in chains[i].blocks;
    ChainBlocks(nodes, chains[i], HeadOf(chains, i + 1));
    ChainBlocks(nodes, chains[i - 1], HeadOf(chains, i));
    var p := chains[i - 1].blocks[0];
    assert p in chains[i - 1].blocks;
    var chains' := Removed(chains, i);
    var nodes' := nodes[p := nodes[p].(nextDiff := nodes[b].nextDiff)] - {b};
    RemovedAt(chains, i, 0);
    forall k | 0 <= k < |chains'|
      ensures ChainLinked(nodes', chains'[k], HeadOf(chains', k + 1))
      ensures chains'[k] == chains[if k < i then k else k + 1]
    {
      RemovedAt(chains, i, k);
      var k0 := if k < i then k else k + 1;
      if k != i - 1 {
        ChainFrame(nodes, nodes', chains[k0], HeadOf(chains, k0 + 1));
      } else {
        HeadSkips(nodes, chains[k], HeadOf(chains, i), HeadOf(chains, i + 1), b);
      }
    }
    forall x | x in nodes' ensures Member(chains', x) {
      StillMember(nodes, first, chains, i, x);
    }
  }

  lemma StillMember(nodes: map<nat, Node>, first: Option<nat>, chains: seq<Chain>, i: nat, x: nat)
    requires Linked(nodes, first, chains) && 0 < i < |chains| && |chains[i].blocks| == 1
    requires x in nodes && x != chains[i].blocks[0]
    ensures Member(Removed(chains, i), x)
  {
    hide Linked;
    var k := MemberOf(nodes, first, chains, x);
    OnlyOne(chains[i].blocks, x);
    IsMember(Removed(chains, i), if k < i then k else k - 1, x);
  }

  lemma OnlyOne(blocks: seq<nat>, x: nat)
    requires |blocks| == 1
    ensures x in blocks ==> x == blocks[0]
  {
  }

  lemma HeadSkips(nodes: map<nat, Node>, c: Chain, next: Option<nat>, next': Option<nat>, b: nat)
    requires ChainLinked(nodes, c, next) && b in nodes && nodes[b].size != c.size
    ensures var p := c.blocks[0];
      ChainLinked(nodes[p := nodes[p].(nextDiff := next')] - {b}, c, next')
  {
  }

  // ---- The pool ----

  /** The pieces lie one after another from the start of the pool. */
  ghost predicate Tiled(cuts: seq<Cut>, pos: nat) {
    && (forall i :: 0 <= i < |cuts| ==> cuts[i].size > 0)
    && (forall i, j :: 0 <= i < j < |cuts| ==> cuts[i].start + cuts[i].size <= cuts[j].start)
    && (forall i :: 0 <= i < |cuts| - 1 ==> cuts[i].start + cuts[i].size == cuts[i + 1].start)
    && (if cuts == [] then pos == 0
        else cuts[0].start == 0 && cuts[|cuts| - 1].start + cuts[|cuts| - 1].size == pos)
  }

  /** Every piece is either in use or released, and nothing else is. */
  ghost predicate Shared(cuts: seq<Cut>, live: map<nat, nat>, nodes: map<nat, Node>) {
    && (forall i :: 0 <= i < |cuts| ==>
          if cuts[i].start in live then live[cuts[i].start] == cuts[i].size && cuts[i].start !in nodes
          else cuts[i].start in nodes && nodes[cuts[i].start].size == cuts[i].size)
    && (forall x :: x in live ==> Cut(x, live[x]) in cuts)
    && (forall x :: x in nodes ==> Cut(x, nodes[x].size) in cuts)
  }

  /** Address `a` belongs to the block at `x`. */
  ghost predicate Within(a: nat, x: nat, size: nat) {
    x <= a < x + size
  }

  /** Address `a` belongs to the block at `x`, in use or released. */
  ghost predicate Owns(live: map<nat, nat>, nodes: map<nat, Node>, x: nat, a: nat) {
    (x in live && Within(a, x, live[x])) || (x in nodes && Within(a, x, nodes[x].size))
  }

  /** Blocks in use and released blocks partition the used part of the pool: each
      address below `pos`, and no other, is in exactly one of them. */
  lemma Partition(cuts: seq<Cut>, live: map<nat, nat>, nodes: map<nat, Node>, pos: nat, a: nat)
    requires Tiled(cuts, pos) && Shared(cuts, live, nodes)
    ensures a < pos <==> exists x :: Owns(live, nodes, x, a)
    ensures forall x, y :: Owns(live, nodes, x, a) && Owns(live, nodes, y, a) ==> x == y
    ensures forall x :: x in live ==> x !in nodes
  {
    hide Owns, Tiled, Shared;
    if a < pos {
      var i := PieceOf(cuts, pos, a);
      PieceOwns(cuts, live, nodes, i, a);
    }
    forall x | Owns(live, nodes, x, a) ensures a < pos {
      var i := OwnerPiece(cuts, live, nodes, pos, x, a);
    }
    forall x, y | Owns(live, nodes, x, a) && Owns(live, nodes, y, a) ensures x == y {
      var i := OwnerPiece(cuts, live, nodes, pos, x, a);
      var j := OwnerPiece(cuts, live, nodes, pos, y, a);
      PiecesApart(cuts, pos, i, j, a);
    }
    forall x | x in live ensures x !in nodes {
      LiveIsNotFree(cuts, live, nodes, x);
    }
  }

  lemma PieceOwns(cuts: seq<Cut>, live: map<nat, nat>, nodes: map<nat, Node>, i: nat, a: nat)
    requires Shared(cuts, live, nodes) && i < |cuts| && Within(a, cuts[i].start, cuts[i].size)
    ensures Owns(live, nodes, cuts[i].start, a)
  {
  }

  lemma OwnerPiece(cuts: seq<Cut>, live: map<nat, nat>, nodes: map<nat, Node>, pos: nat, x: nat, a: nat) returns (i: nat)
    requires Tiled(cuts, pos) && Shared(cuts, live, nodes) && Owns(live, nodes, x, a)
    ensures i < |cuts| && cuts[i].start == x && Within(a, x, cuts[i].size) && a < pos
  {
    if x in live && Within(a, x, live[x]) {
      i :| i < |cuts| && cuts[i] == Cut(x, live[x]);
    } else {
      i :| i < |cuts| && cuts[i] == Cut(x, nodes[x].size);
    }
  }

  lemma PiecesApart(cuts: seq<Cut>, pos: nat, i: nat, j: nat, a: nat)
    requires Tiled(cuts, pos) && i < |cuts| && j < |cuts|
    requires Within(a, cuts[i].start, cuts[i].size) && Within(a, cuts[j].start, cuts[j].size)
    ensures i == j
  {
  }

  lemma PieceOf(cuts: seq<Cut>, pos: nat, a: nat) returns (i: nat)
    requires Tiled(cuts, pos) && a < pos
    ensures i < |cuts| && Within(a, cuts[i].start, cuts[i].size)
  {
    i := 0;
    while cuts[i].start + cuts[i].size <= a
      invariant i < |cuts| && cuts[i].start <= a
      decreases |cuts| - i
    {
      i := i + 1;
    }
  }

  class MemoryPool {
    const size: nat
    var pos: nat
    var first: Option<nat>
    var nodes: map<nat, Node>
    ghost var chains: seq<Chain>
    ghost var cuts: seq<Cut>
    ghost var live: map<nat, nat>

    ghost predicate Valid()
      reads this
    {
      pos <= size && Linked(nodes, first, chains) && Tiled(cuts, pos) && Shared(cuts, live, nodes)
    }

    /** The block at `x` is released and has exactly this size. */
    ghost predicate Fits(x: nat, bytes: nat)
      reads this
    {
      x in nodes && nodes[x].size == bytes
    }

    constructor (size: nat)
      ensures Valid() && this.size == size && pos == 0 && live == map[] && nodes == map[]
    {
      this.size := size;
      pos, first, nodes := 0, None, map[];
      chains, cuts, live := [], [], map[];
    }

    /** The head of the chain of blocks of this size, and the head before it. */
    method FindChain(bytes: nat) returns (b: Option<nat>, prev: Option<nat>, ghost i: nat)
      requires Valid()
      ensures i <= |chains| && b == HeadOf(chains, i)
      ensures b.Some? <==> i < |chains|
      ensures i < |chains| ==> chains[i].size == bytes
      ensures prev == if i == 0 then None else HeadOf(chains, i - 1)
      ensures prev.Some? <==> i > 0
      ensures b.None? ==> forall k :: 0 <= k < |chains| ==> chains[k].size != bytes
    {
      hide Tiled, Shared, Member, ChainLinked, HeadOf;
      prev, b, i := None, first, 0;
      HeadIffMore(nodes, first, chains, 0);
      while b.Some?
        invariant i <= |chains| && b == HeadOf(chains, i) && (b.Some? <==> i < |chains|)
        invariant prev.Some? <==> i > 0
        invariant prev == if i == 0 then None else HeadOf(chains, i - 1)
        invariant forall k :: 0 <= k < i ==> chains[k].size != bytes
        decreases |chains| - i
      {
        HeadNode(nodes, first, chains, i);
        if nodes[b.value].size == bytes {
          return;
        }
        prev, b, i := b, nodes[b.value].nextDiff, i + 1;
        HeadIffMore(nodes, first, chains, i);
      }
    }

    /** ioc_malloc. The request is served by a released block of exactly this size,
        otherwise from the unused rest, and fails only when both are impossible. */
    method Malloc(bytes: nat) returns (r: Option<nat>)
      requires Valid() && bytes > 0
      modifies this
      ensures Valid()
      ensures r.None? <==> (forall x :: !old(Fits(x, bytes))) && size - old(pos) < bytes
      ensures r.None? ==> live == old(live) && nodes == old(nodes) && pos == old(pos)
      ensures r.Some? ==> r.value !in old(live) && live == old(live)[r.value := bytes]
      ensures r.Some? && (exists x :: old(Fits(x, bytes))) ==>
        old(Fits(r.value, bytes)) && nodes.Keys == old(nodes).Keys - {r.value} && pos == old(pos)
      ensures r.Some? && (forall x :: !old(Fits(x, bytes))) ==>
        r.value == old(pos) && pos == old(pos) + bytes && nodes == old(nodes)
    {
      hide Linked, Tiled, Shared, ChainLinked, Member, HeadOf;
      var b, prev;
      ghost var i;
      b, prev, i := FindChain(bytes);
      ghost var nodes0 := nodes;
      if b.Some? {
        r := Unlink(b.value, prev, i);
        assert old(Fits(r.value, bytes));
        Taken(cuts, live, nodes0, nodes, r.value);
        live := live[r.value := bytes];
      } else {
        NoneFits(nodes, first, chains, bytes);
        if size - pos >= bytes {
          r := Some(pos);
          Carved(cuts, live, nodes, pos, bytes);
          pos := pos + bytes;
          cuts, live := cuts + [Cut(r.value, bytes)], live[r.value := bytes];
        } else {
          r := None;
        }
      }
    }

    /** Take a block from the chain with head `b`: the second one, or the head itself
        when it is the only one. */
    method Unlink(b: nat, prev: Option<nat>, ghost i: nat) returns (r: Option<nat>)
      requires Linked(nodes, first, chains) && i < |chains| && HeadOf(chains, i) == Some(b)
      requires prev == (if i == 0 then None else HeadOf(chains, i - 1)) && (prev.Some? <==> i > 0)
      modifies this`nodes, this`first, this`chains
      ensures Linked(nodes, first, chains)
      ensures r.Some? && r.value in old(nodes) && old(nodes)[r.value].size == old(chains)[i].size
      ensures nodes.Keys == old(nodes).Keys - {r.value} && SameSizes(old(nodes), nodes)
    {
      hide Linked, Member;
      ChainAt(nodes, first, chains, i);
      HeadNode(nodes, first, chains, i);
      var node := nodes[b];
      if node.nextSame.Some? {
        r := node.nextSame;
        TakeSecond(nodes, first, chains, i);
        nodes := nodes[b := node.(nextSame := nodes[r.value].nextSame)] - {r.value};
        chains := chains[i := SecondGone(chains[i])];
      } else {
        r := Some(b);
        if prev.Some? {
          TakeOnlyInside(nodes, first, chains, i);
          nodes := nodes[prev.value := nodes[prev.value].(nextDiff := node.nextDiff)] - {b};
          chains := Removed(chains, i);
        } else {
          TakeOnlyFirst(nodes, first, chains);
          first, nodes := node.nextDiff, nodes - {b};
          chains := chains[1..];
        }
      }
    }

    /** ioc_free of a block in use, given its size; a null pointer does nothing. */
    method Free(block: Option<nat>, bytes: nat)
      requires Valid()
      requires block.Some? ==> block.value in live && live[block.value] == bytes
      modifies this
      ensures Valid() && pos == old(pos)
      ensures block.None? ==> live == old(live) && nodes == old(nodes)
      ensures block.Some? ==>
        live == old(live) - {block.value} &&
        nodes.Keys == old(nodes).Keys + {block.value} && Fits(block.value, bytes)
    {
      hide Linked, Tiled, Shared;
      if block.None? {
        return;
      }
      var r := block.value;
      LiveIsNotFree(cuts, live, nodes, r);
      ghost var nodes0 := nodes;
      Link(r, bytes);
      Released(cuts, live, nodes0, nodes, r, bytes);
      live := live - {r};
    }

    /** Join a block to the chain of its size, behind the head, or in front of all
        chains when there is none. */
    method Link(r: nat, bytes: nat)
      requires Valid() && r !in nodes
      modifies this`nodes, this`first, this`chains
      ensures Linked(nodes, first, chains)
      ensures nodes.Keys == old(nodes).Keys + {r} && nodes[r].size == bytes && SameSizes(nodes, old(nodes))
    {
      hide Linked, Tiled, Shared, ChainLinked, Member, HeadOf;
      var b, prev;
      ghost var i;
      b, prev, i := FindChain(bytes);
      if b.Some? {
        ChainAt(nodes, first, chains, i);
        HeadNode(nodes, first, chains, i);
        PutSecond(nodes, first, chains, i, r);
        nodes := nodes[r := Node(bytes, None, nodes[b.value].nextSame)];
        nodes := nodes[b.value := nodes[b.value].(nextSame := Some(r))];
        chains := chains[i := SecondPut(chains[i], r)];
      } else {
        PutFirst(nodes, first, chains, r, bytes);
        nodes := nodes[r := Node(bytes, first, None)];
        first := Some(r);
        chains := [Chain(bytes, [r])] + chains;
      }
    }
  }

  lemma HeadIffMore(nodes: map<nat, Node>, first: Option<nat>, chains: seq<Chain>, i: nat)
    requires Linked(nodes, first, chains) && i <= |chains|
    ensures HeadOf(chains, i).Some? <==> i < |chains|
    ensures first == HeadOf(chains, 0)
  {
    if i < |chains| {
      ChainAt(nodes, first, chains, i);
    }
  }

  /** What the record of a chain's head says. */
  lemma HeadNode(nodes: map<nat, Node>, first: Option<nat>, chains: seq<Chain>, i: nat)
    requires Linked(nodes, first, chains) && i < |chains|
    ensures HeadOf(chains, i).Some?
    ensures var b := HeadOf(chains, i).value;
      b in nodes && nodes[b].size == chains[i].size && nodes[b].nextDiff == HeadOf(chains, i + 1) &&
      nodes[b].nextSame == After(chains[i].blocks, 1)
  {
    hide Linked;
    ChainAt(nodes, first, chains, i);
  }

  lemma NoneFits(nodes: map<nat, Node>, first: Option<nat>, chains: seq<Chain>, bytes: nat)
    requires Linked(nodes, first, chains) && forall k :: 0 <= k < |chains| ==> chains[k].size != bytes
    ensures forall x :: x in nodes ==> nodes[x].size != bytes
  {
    forall x | x in nodes ensures nodes[x].size != bytes {
      var k := MemberOf(nodes, first, chains, x);
    }
  }

  /** The records may be relinked freely as long as sizes stay. */
  ghost predicate SameSizes(nodes: map<nat, Node>, nodes': map<nat, Node>) {
    forall x :: x in nodes' ==> x in nodes && nodes'[x].size == nodes[x].size
  }

  lemma Taken(cuts: seq<Cut>, live: map<nat, nat>, nodes: map<nat, Node>, nodes': map<nat, Node>, r: nat)
    requires Shared(cuts, live, nodes) && r in nodes
    requires nodes'.Keys == nodes.Keys - {r} && SameSizes(nodes, nodes')
    ensures r !in live && Shared(cuts, live[r := nodes[r].size], nodes')
  {
  }

  lemma Released(cuts: seq<Cut>, live: map<nat, nat>, nodes: map<nat, Node>, nodes': map<nat, Node>, r: nat, bytes: nat)
    requires Shared(cuts, live, nodes) && r in live && live[r] == bytes
    requires nodes'.Keys == nodes.Keys + {r} && nodes'[r].size == bytes && SameSizes(nodes', nodes)
    ensures Shared(cuts, live - {r}, nodes')
  {
  }

  lemma LiveIsNotFree(cuts: seq<Cut>, live: map<nat, nat>, nodes: map<nat, Node>, r: nat)
    requires Shared(cuts, live, nodes) && r in live
    ensures r !in nodes
  {
  }

  /** Taking a new piece from the unused rest. */
  lemma Carved(cuts: seq<Cut>, live: map<nat, nat>, nodes: map<nat, Node>, pos: nat, bytes: nat)
    requires Tiled(cuts, pos) && Shared(cuts, live, nodes) && bytes > 0
    ensures pos !in live
    ensures Tiled(cuts + [Cut(pos, bytes)], pos + bytes)
    ensures Shared(cuts + [Cut(pos, bytes)], live[pos := bytes], nodes)
  {
    hide Tiled;
    AllBelow(cuts, pos);
    CarvedTiled(cuts, pos, bytes);
    assert forall c :: c in cuts ==> c in cuts + [Cut(pos, bytes)];
    assert (cuts + [Cut(pos, bytes)])[|cuts|] == Cut(pos, bytes);
  }

  lemma AllBelow(cuts: seq<Cut>, pos: nat)
    requires Tiled(cuts, pos)
    ensures forall c :: c in cuts ==> c.start < pos
  {
  }

  lemma CarvedTiled(cuts: seq<Cut>, pos: nat, bytes: nat)
    requires Tiled(cuts, pos) && bytes > 0
    ensures Tiled(cuts + [Cut(pos, bytes)], pos + bytes)
  {
    var cuts' := cuts + [Cut(pos, bytes)];
    forall i, j | 0 <= i < j < |cuts'| ensures cuts'[i].start + cuts'[i].size <= cuts'[j].start {
      if j == |cuts| && i < |cuts| - 1 {
        assert cuts[i].start + cuts[i].size <= cuts[|cuts| - 1].start;
      }
    }
  }
}
