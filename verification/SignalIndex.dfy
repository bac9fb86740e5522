/** Dynamic signals of a device network, kept in hash buckets
    (extensions/dynamicio/ioc_dyn_network.c). The specification is the plain list of
    signals in the order in which they were added. */
module SignalIndex {
  import opened Options

  datatype Key = Key(signal: string, mblk: string, device: string, nr: nat)

  /** `info` stands for address, element counts and flags. */
  datatype Signal = Signal(key: Key, info: nat)

  const TABLE: nat := 64

  const UINT_SPAN: nat := 0x1_0000_0000

  const PRIMES: seq<nat> := [47, 2, 43, 3, 41, 5, 37, 7, 31, 11, 29, 13, 23, 17, 19]

  /** One step of the hash sum: 32-bit arithmetic on the character as a byte. */
  function Step(sum: nat, c: char, prime: nat): (h: nat)
    requires prime < |PRIMES|
    ensures h < UINT_SPAN
  {
    (sum + (c as int % 0x100) * PRIMES[prime]) % UINT_SPAN
  }

  /** Hash sum of a name: the primes are used in turn. */
  function HashSum(name: string): (h: nat)
    ensures h < UINT_SPAN
  {
    if name == [] then 0
    else
      var last := |name| - 1;
      Step(HashSum(name[..last]), name[last], last % 15)
  }

  lemma NextPrime(i: nat)
    ensures (i + 1) % 15 == if i % 15 + 1 >= 15 then 0 else i % 15 + 1
  {
  }

  /** ioc_hash. */
  method Hash(name: string) returns (sum: nat)
    ensures sum == HashSum(name)
  {
    hide Step;
    sum := 0;
    var prime := 0;
    for i := 0 to |name|
      invariant sum == HashSum(name[..i]) && prime == i % 15
    {
      assert name[..i + 1][..i] == name[..i];
      NextPrime(i);
      sum := Step(sum, name[i], prime);
      prime := prime + 1;
      if prime >= 15 { prime := 0; }
    }
    assert name[..|name|] == name;
  }

  /** The unbounded sum of the characters times the primes 47, 2, 43, ... in turn. */
  function PlainSum(name: string): nat {
    if name == [] then 0
    else
      var last := |name| - 1;
      PlainSum(name[..last]) +
      (name[last] as int % 0x100) * [47, 2, 43, 3, 41, 5, 37, 7, 31, 11, 29, 13, 23, 17, 19][last % 15]
  }

  /** Overflow on the way does not matter. */
  lemma {:induction false} HashIsSum(name: string)
    ensures HashSum(name) == PlainSum(name) % UINT_SPAN
  {
    if name != [] {
      var last := |name| - 1;
      HashIsSum(name[..last]);
      ModularStep(PlainSum(name[..last]), (name[last] as int % 0x100) * PRIMES[last % 15]);
    }
  }

  lemma ModularStep(a: nat, b: nat)
    ensures (a % UINT_SPAN + b) % UINT_SPAN == (a + b) % UINT_SPAN
  {
  }

  function Slot(signal: string): (i: nat)
    ensures i < TABLE
  {
    HashSum(signal) % TABLE
  }

  // ---- Specification on the list of signals ----

  /** What a field of `size` bytes keeps of a name. */
  function Cut(name: string, size: nat): (r: string)
    requires size > 0
    ensures r <= name && |r| == if |name| < size then |name| else size - 1
  {
    if |name| < size then name else name[..size - 1]
  }

  /** Block and device names have fields of fixed size, signal names do not. */
  function Kept(key: Key, size: nat): Key
    requires size > 0
  {
    key.(mblk := Cut(key.mblk, size), device := Cut(key.device, size))
  }

  predicate Fits(key: Key, size: nat) {
    |key.mblk| < size && |key.device| < size
  }

  predicate HasKey(log: seq<Signal>, key: Key) {
    exists i :: 0 <= i < |log| && log[i].key == key
  }

  /** An empty block or device name and number 0 match anything. */
  predicate Matches(wanted: Key, s: Signal) {
    && wanted.signal == s.key.signal
    && (wanted.mblk == "" || wanted.mblk == s.key.mblk)
    && (wanted.device == "" || wanted.device == s.key.device)
    && (wanted.nr == 0 || wanted.nr == s.key.nr)
  }

  /** First match in order of insertion. */
  function FirstMatch(log: seq<Signal>, wanted: Key): (r: Option<Signal>)
    ensures r.None? <==> forall i :: 0 <= i < |log| ==> !Matches(wanted, log[i])
    ensures r.Some? ==>
      (exists i :: 0 <= i < |log| && log[i] == r.value && Matches(wanted, log[i]) &&
        (forall j :: 0 <= j < i ==> !Matches(wanted, log[j])))
  {
    if log == [] then None
    else
      var last := |log| - 1;
      var r := FirstMatch(log[..last], wanted);
      assert log[..last] + [log[last]] == log;
      assert forall i :: 0 <= i < last ==> log[..last][i] == log[i];
      if r.Some? then r
      else if Matches(wanted, log[last]) then Some(log[last])
      else None
  }

  /** First match, field by field: the first signal with the wanted name, of the wanted
      block, device and number wherever those are given. */
  lemma FirstMatchIs(log: seq<Signal>, wanted: Key)
    ensures var r := FirstMatch(log, wanted);
      && (r.Some? ==>
            && r.value.key.signal == wanted.signal
            && (wanted.mblk != "" ==> r.value.key.mblk == wanted.mblk)
            && (wanted.device != "" ==> r.value.key.device == wanted.device)
            && (wanted.nr != 0 ==> r.value.key.nr == wanted.nr)
            && exists i :: 0 <= i < |log| && log[i] == r.value && NoneBefore(log, i, wanted))
      && (r.None? ==> NoneBefore(log, |log|, wanted))
  {
    var r := FirstMatch(log, wanted);
    if r.Some? {
      var i :| 0 <= i < |log| && log[i] == r.value && Matches(wanted, log[i]) &&
        (forall j :: 0 <= j < i ==> !Matches(wanted, log[j]));
      assert NoneBefore(log, i, wanted);
    }
  }

  /** Each of the first `n` signals differs in its name, or in a block name, device name
      or number that is given. */
  ghost predicate NoneBefore(log: seq<Signal>, n: nat, wanted: Key) {
    n <= |log| && forall j :: 0 <= j < n ==>
      || log[j].key.signal != wanted.signal
      || (wanted.mblk != "" && log[j].key.mblk != wanted.mblk)
      || (wanted.device != "" && log[j].key.device != wanted.device)
      || (wanted.nr != 0 && log[j].key.nr != wanted.nr)
  }

  /** The signals of one bucket. */
  function Bucket(log: seq<Signal>, slot: nat): seq<Signal> {
    if log == [] then []
    else
      var last := |log| - 1;
      var rest := Bucket(log[..last], slot);
      if Slot(log[last].key.signal) == slot then rest + [log[last]] else rest
  }

  predicate InBlock(s: Signal, mblk: string, device: string, nr: nat) {
    s.key.mblk == mblk && s.key.device == device && s.key.nr == nr
  }

  /** The list without the signals of a block. */
  function Without(log: seq<Signal>, mblk: string, device: string, nr: nat): seq<Signal> {
    if log == [] then []
    else
      var last := |log| - 1;
      var rest := Without(log[..last], mblk, device, nr);
      if InBlock(log[last], mblk, device, nr) then rest else rest + [log[last]]
  }

  predicate Distinct(log: seq<Signal>) {
    forall i, j :: 0 <= i < j < |log| ==> log[i].key != log[j].key
  }

  // ---- Properties of the specification ----

  lemma BucketAppend(log: seq<Signal>, s: Signal, slot: nat)
    ensures Bucket(log + [s], slot) ==
      if Slot(s.key.signal) == slot then Bucket(log, slot) + [s] else Bucket(log, slot)
  {
    assert (log + [s])[..|log|] == log;
  }

  /** Looking into the bucket of the wanted name is as good as looking at everything. */
  lemma {:induction false} BucketFirstMatch(log: seq<Signal>, wanted: Key)
    ensures FirstMatch(Bucket(log, Slot(wanted.signal)), wanted) == FirstMatch(log, wanted)
  {
    if log != [] {
      var last := |log| - 1;
      var slot := Slot(wanted.signal);
      BucketFirstMatch(log[..last], wanted);
      if Slot(log[last].key.signal) == slot {
        var b := Bucket(log, slot);
        assert b[..|b| - 1] == Bucket(log[..last], slot);
      }
    }
  }

  /** The same for exact keys. */
  lemma {:induction false} BucketHasKey(log: seq<Signal>, key: Key)
    ensures HasKey(Bucket(log, Slot(key.signal)), key) <==> HasKey(log, key)
  {
    if log != [] {
      var last := |log| - 1;
      var slot := Slot(key.signal);
      BucketHasKey(log[..last], key);
      HasKeyLast(log, key);
      if Slot(log[last].key.signal) == slot {
        var b := Bucket(log, slot);
        assert b[..|b| - 1] == Bucket(log[..last], slot);
        HasKeyLast(b, key);
      }
    }
  }

  lemma HasKeyLast(log: seq<Signal>, key: Key)
    requires log != []
    ensures HasKey(log, key) <==> HasKey(log[..|log| - 1], key) || log[|log| - 1].key == key
  {
    if HasKey(log[..|log| - 1], key) {
      var i :| 0 <= i < |log| - 1 && log[..|log| - 1][i].key == key;
      assert log[i].key == key;
    }
    if HasKey(log, key) && log[|log| - 1].key != key {
      var i :| 0 <= i < |log| && log[i].key == key;
      assert log[..|log| - 1][i].key == key;
    }
  }

  /** Deleting a block bucket by bucket deletes it from the list. */
  lemma {:induction false} BucketWithout(log: seq<Signal>, slot: nat, mblk: string, device: string, nr: nat)
    ensures Bucket(Without(log, mblk, device, nr), slot) == Without(Bucket(log, slot), mblk, device, nr)
  {
    hide Slot, InBlock;
    if log != [] {
      var last := |log| - 1;
      BucketWithout(log[..last], slot, mblk, device, nr);
      var rest := Without(log[..last], mblk, device, nr);
      BucketAppend(rest, log[last], slot);
      WithoutAppend(Bucket(log[..last], slot), log[last], mblk, device, nr);
    }
  }

  lemma WithoutAppend(log: seq<Signal>, s: Signal, mblk: string, device: string, nr: nat)
    ensures Without(log + [s], mblk, device, nr) ==
      if InBlock(s, mblk, device, nr) then Without(log, mblk, device, nr) else Without(log, mblk, device, nr) + [s]
  {
    assert (log + [s])[..|log|] == log;
  }

  /** Deletion removes the block's signals and keeps the others, once each and in order. */
  lemma {:induction false} WithoutIs(log: seq<Signal>, mblk: string, device: string, nr: nat)
    ensures forall s :: s in Without(log, mblk, device, nr) <==>
      s in log && (s.key.mblk != mblk || s.key.device != device || s.key.nr != nr)
    ensures forall key: Key :: HasKey(Without(log, mblk, device, nr), key) ==> HasKey(log, key)
    ensures Distinct(log) ==> Distinct(Without(log, mblk, device, nr))
  {
    if log != [] {
      var last := |log| - 1;
      var rest := Without(log[..last], mblk, device, nr);
      var all := Without(log, mblk, device, nr);
      WithoutIs(log[..last], mblk, device, nr);
      assert log == log[..last] + [log[last]];
      if InBlock(log[last], mblk, device, nr) {
        assert all == rest;
      } else {
        assert all == rest + [log[last]];
      }
      forall key: Key | HasKey(all, key) ensures HasKey(log, key) {
        HasKeyLast(log, key);
        if !InBlock(log[last], mblk, device, nr) {
          HasKeyLast(all, key);
          assert all[..|all| - 1] == rest;
        }
      }
      if Distinct(log) && !InBlock(log[last], mblk, device, nr) {
        forall i | 0 <= i < |rest| ensures rest[i].key != log[last].key {
          assert rest[i] in rest;
          var j :| 0 <= j < last && log[..last][j] == rest[i];
          assert log[j].key != log[last].key;
        }
      }
    }
  }

  /** ioc_add_dynamic_signal on the list: a known key adds nothing. */
  function Added(log: seq<Signal>, s: Signal, size: nat): seq<Signal>
    requires size > 0
  {
    if HasKey(log, s.key) then log else log + [s.(key := Kept(s.key, size))]
  }

  predicate AllFit(log: seq<Signal>, size: nat) {
    forall i :: 0 <= i < |log| ==> Fits(log[i].key, size)
  }

  /** Names are cut when stored but compared in full, so a key stays unique exactly
      when its names fit or nothing with the cut names is there yet. */
  lemma AddedDistinct(log: seq<Signal>, s: Signal, size: nat)
    requires size > 0 && Distinct(log) && AllFit(log, size)
    ensures AllFit(Added(log, s, size), size)
    ensures Distinct(Added(log, s, size)) <==> Fits(s.key, size) || !HasKey(log, Kept(s.key, size))
  {
    var kept := Kept(s.key, size);
    var more := log + [s.(key := kept)];
    if HasKey(log, s.key) {
      assert Fits(s.key, size);
    } else if HasKey(log, kept) {
      var i :| 0 <= i < |log| && log[i].key == kept;
      assert more[i].key == more[|log|].key;
    } else if Fits(s.key, size) {
      assert kept == s.key;
    }
  }

  /** Every entry of a bucket is one of the list, so a bucket holds a key at most once
      when the list does. */
  lemma {:induction false} BucketDistinct(log: seq<Signal>, slot: nat)
    requires Distinct(log)
    ensures Distinct(Bucket(log, slot))
    ensures forall s :: s in Bucket(log, slot) ==> s in log
  {
    hide Slot;
    if log != [] {
      var last := |log| - 1;
      var rest := Bucket(log[..last], slot);
      BucketDistinct(log[..last], slot);
      forall i | 0 <= i < |rest| ensures rest[i].key != log[last].key {
        assert rest[i] in rest;
        var j :| 0 <= j < last && log[..last][j] == rest[i];
      }
    }
  }

  // ---- Whole histories ----

  datatype Operation = Adding(s: Signal) | Deleting(mblk: string, device: string, nr: nat)

  function Operated(log: seq<Signal>, op: Operation, size: nat): seq<Signal>
    requires size > 0
  {
    match op
    case Adding(s) => Added(log, s, size)
    case Deleting(mblk, device, nr) => Without(log, mblk, device, nr)
  }

  /** The list after a sequence of operations on an empty network. */
  function After(ops: seq<Operation>, size: nat): seq<Signal>
    requires size > 0
    decreases |ops|
  {
    if ops == [] then [] else Operated(After(ops[..|ops| - 1], size), ops[|ops| - 1], size)
  }

  lemma AfterOne(ops: seq<Operation>, op: Operation, size: nat)
    requires size > 0
    ensures After(ops + [op], size) == Operated(After(ops, size), op, size)
  {
    assert (ops + [op])[..|ops|] == ops;
  }

  /** Every name that is added fits its field. */
  predicate AllNamesFit(ops: seq<Operation>, size: nat) {
    forall i :: 0 <= i < |ops| && ops[i].Adding? ==> Fits(ops[i].s.key, size)
  }

  lemma {:induction false} AfterFits(ops: seq<Operation>, size: nat)
    requires size > 0
    ensures AllFit(After(ops, size), size)
    ensures AllNamesFit(ops, size) ==> Distinct(After(ops, size))
    decreases |ops|
  {
    hide Fits, Kept, Without, InBlock;
    if ops != [] {
      var before := ops[..|ops| - 1];
      var log := After(before, size);
      AfterFits(before, size);
      match ops[|ops| - 1]
      case Adding(s) =>
        StoredFits(log, s, size);
        if AllNamesFit(ops, size) {
          AddedDistinct(log, s, size);
        }
      case Deleting(mblk, device, nr) =>
        WithoutFits(log, mblk, device, nr, size);
        WithoutIs(log, mblk, device, nr);
    }
  }

  /** Over every sequence of additions and deletions with names that fit, the buckets
      together hold each key at most once: within a bucket, and in no two buckets. */
  lemma KeysStayUnique(ops: seq<Operation>, size: nat, i: nat, j: nat, a: Signal, b: Signal)
    requires size > 0 && AllNamesFit(ops, size)
    ensures Distinct(Bucket(After(ops, size), i))
    ensures i != j && a in Bucket(After(ops, size), i) && b in Bucket(After(ops, size), j) ==> a.key != b.key
  {
    hide After, Slot, Distinct;
    AfterFits(ops, size);
    BucketDistinct(After(ops, size), i);
    if a in Bucket(After(ops, size), i) && b in Bucket(After(ops, size), j) {
      InOwnBucket(After(ops, size), i, a);
      InOwnBucket(After(ops, size), j, b);
    }
  }

  lemma {:induction false} InOwnBucket(log: seq<Signal>, slot: nat, s: Signal)
    requires s in Bucket(log, slot)
    ensures Slot(s.key.signal) == slot
  {
    hide Slot;
    if s in Bucket(log[..|log| - 1], slot) {
      InOwnBucket(log[..|log| - 1], slot, s);
    }
  }

  /** A deleted block has no entries until one is added again, whatever else happens. */
  lemma {:induction false} DeletedStaysAway(ops: seq<Operation>, size: nat, mblk: string, device: string, nr: nat, more: seq<Operation>)
    requires size > 0
    requires forall i :: 0 <= i < |more| && more[i].Adding? ==>
      var key := Kept(more[i].s.key, size);
      key.mblk != mblk || key.device != device || key.nr != nr
    ensures forall s :: s in After(ops + [Deleting(mblk, device, nr)] + more, size) ==>
      s.key.mblk != mblk || s.key.device != device || s.key.nr != nr
    decreases |more|
  {
    hide Kept, Without;
    var all := ops + [Deleting(mblk, device, nr)] + more;
    if more == [] {
      assert all[..|all| - 1] == ops;
      WithoutIs(After(ops, size), mblk, device, nr);
    } else {
      var before := more[..|more| - 1];
      DeletedStaysAway(ops, size, mblk, device, nr, before);
      assert all[..|all| - 1] == ops + [Deleting(mblk, device, nr)] + before;
      match more[|more| - 1]
      case Adding(s) =>
      case Deleting(m, d, n) =>
        WithoutIs(After(all[..|all| - 1], size), m, d, n);
    }
  }

  /** Adding a signal with long names twice stores the same key twice. */
  lemma LongNamesRepeat(s: Signal, size: nat)
    requires size > 0 && !Fits(s.key, size)
    ensures !Distinct(Added(Added([], s, size), s, size))
  {
    var once := Added([], s, size);
    AddedDistinct([], s, size);
    assert once[0].key == Kept(s.key, size);
    AddedDistinct(once, s, size);
  }

  // ---- The code ----

  /** Unlink the signals of a block from one chain. */
  method Purge(chain: seq<Signal>, mblk: string, device: string, nr: nat) returns (kept: seq<Signal>)
    ensures kept == Without(chain, mblk, device, nr)
  {
    kept := [];
    for j := 0 to |chain|
      invariant kept == Without(chain[..j], mblk, device, nr)
    {
      assert chain[..j + 1] == chain[..j] + [chain[j]];
      WithoutAppend(chain[..j], chain[j], mblk, device, nr);
      if !(chain[j].key.mblk == mblk && chain[j].key.device == device && chain[j].key.nr == nr) {
        kept := kept + [chain[j]];
      }
    }
    assert chain[..|chain|] == chain;
  }

  class Network {
    const nameSize: nat
    const hash: array<seq<Signal>>
    ghost var log: seq<Signal>
    ghost var ops: seq<Operation>

    /** Every bucket holds its signals in order of insertion; `ops` are the operations
        so far. */
    ghost predicate Valid()
      reads this, hash
    {
      && nameSize > 0 && hash.Length == TABLE
      && log == After(ops, nameSize) && AllFit(log, nameSize)
      && forall i :: 0 <= i < TABLE ==> hash[i] == Bucket(log, i)
    }

    constructor (nameSize: nat)
      requires nameSize > 0
      ensures Valid() && ops == [] && this.nameSize == nameSize && fresh(hash)
    {
      this.nameSize := nameSize;
      hash := new seq<Signal>[TABLE](_ => []);
      log, ops := [], [];
    }

    /** ioc_add_dynamic_signal: the stored signal with this key, or the new one. */
    method Add(s: Signal) returns (r: Signal)
      requires Valid()
      modifies this`log, this`ops, hash
      ensures Valid() && ops == old(ops) + [Adding(s)] && log == Added(old(log), s, nameSize)
      ensures Distinct(old(log)) && Fits(s.key, nameSize) ==> Distinct(log)
      ensures r in log && r.key == if HasKey(old(log), s.key) then s.key else Kept(s.key, nameSize)
    {
      hide Slot, Kept, Fits, Distinct, After;
      AfterOne(ops, Adding(s), nameSize);
      if Distinct(log) {
        AddedDistinct(log, s, nameSize);
      }
      var sum := Hash(s.key.signal);
      var slot := sum % TABLE;
      assert slot == Slot(s.key.signal) by { SlotIs(s.key.signal); }
      var chain := hash[slot];
      BucketHasKey(log, s.key);
      for i := 0 to |chain|
        invariant forall j :: 0 <= j < i ==> chain[j].key != s.key
      {
        if chain[i].key == s.key {
          BucketIn(log, slot, chain[i]);
          ops := ops + [Adding(s)];
          return chain[i];
        }
      }
      r := s.(key := Kept(s.key, nameSize));
      StoredFits(log, s, nameSize);
      forall i | 0 <= i < TABLE
        ensures Bucket(log + [r], i) == if i == slot then hash[i] + [r] else hash[i]
      {
        BucketAppend(log, r, i);
        KeptSignal(s.key, nameSize);
      }
      hash[slot] := chain + [r];
      log, ops := log + [r], ops + [Adding(s)];
    }

    /** ioc_find_dynamic_signal: the first match in order of insertion. */
    method Find(wanted: Key) returns (r: Option<Signal>)
      requires Valid()
      ensures r == FirstMatch(log, wanted)
      ensures r.Some? ==>
        && r.value in log && r.value.key.signal == wanted.signal
        && (wanted.mblk != "" ==> r.value.key.mblk == wanted.mblk)
        && (wanted.device != "" ==> r.value.key.device == wanted.device)
        && (wanted.nr != 0 ==> r.value.key.nr == wanted.nr)
      ensures r.None? ==> NoneBefore(log, |log|, wanted)
    {
      hide Slot;
      FirstMatchIs(log, wanted);
      var sum := Hash(wanted.signal);
      var slot := sum % TABLE;
      assert slot == Slot(wanted.signal) by { SlotIs(wanted.signal); }
      BucketFirstMatch(log, wanted);
      var chain := hash[slot];
      for i := 0 to |chain|
        invariant forall j :: 0 <= j < i ==> !Matches(wanted, chain[j])
      {
        var key := chain[i].key;
        if wanted.signal == key.signal {
          if wanted.mblk != "" {
            if wanted.mblk != key.mblk { continue; }
          }
          if wanted.device != "" {
            if wanted.device != key.device { continue; }
          }
          if wanted.nr != 0 {
            if wanted.nr != key.nr { continue; }
          }
          return Some(chain[i]);
        }
      }
      return None;
    }

    /** ioc_network_mblk_is_deleted: exactly the block's signals go. */
    method BlockDeleted(mblk: string, device: string, nr: nat)
      requires Valid()
      modifies this`log, this`ops, hash
      ensures Valid() && ops == old(ops) + [Deleting(mblk, device, nr)]
      ensures log == Without(old(log), mblk, device, nr)
      ensures Distinct(old(log)) ==> Distinct(log)
    {
      hide Bucket, InBlock, Fits, Distinct, After;
      AfterOne(ops, Deleting(mblk, device, nr), nameSize);
      WithoutIs(log, mblk, device, nr);
      for i := 0 to TABLE
        invariant log == old(log) && ops == old(ops)
        invariant forall k :: 0 <= k < i ==> hash[k] == Without(Bucket(log, k), mblk, device, nr)
        invariant forall k :: i <= k < TABLE ==> hash[k] == Bucket(log, k)
      {
        var chain := hash[i];
        var kept := Purge(chain, mblk, device, nr);
        hash[i] := kept;
      }
      forall k | 0 <= k < TABLE ensures hash[k] == Bucket(Without(log, mblk, device, nr), k) {
        BucketWithout(log, k, mblk, device, nr);
      }
      WithoutFits(log, mblk, device, nr, nameSize);
      log, ops := Without(log, mblk, device, nr), ops + [Deleting(mblk, device, nr)];
    }
  }

  lemma SlotIs(signal: string)
    ensures Slot(signal) == HashSum(signal) % TABLE
  {
  }

  lemma KeptSignal(key: Key, size: nat)
    requires size > 0
    ensures Kept(key, size).signal == key.signal
  {
  }

  lemma StoredFits(log: seq<Signal>, s: Signal, size: nat)
    requires size > 0 && AllFit(log, size)
    ensures AllFit(log + [s.(key := Kept(s.key, size))], size)
  {
  }

  lemma WithoutFits(log: seq<Signal>, mblk: string, device: string, nr: nat, size: nat)
    requires AllFit(log, size)
    ensures AllFit(Without(log, mblk, device, nr), size)
  {
    hide Fits;
    var rest := Without(log, mblk, device, nr);
    WithoutIs(log, mblk, device, nr);
    forall i | 0 <= i < |rest| ensures Fits(rest[i].key, size) {
      assert rest[i] in rest;
    }
  }

  lemma {:induction false} BucketIn(log: seq<Signal>, slot: nat, s: Signal)
    requires s in Bucket(log, slot)
    ensures s in log
  {
    if s != log[|log| - 1] {
      BucketIn(log[..|log| - 1], slot, s);
    }
  }
}
