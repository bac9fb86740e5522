/** Reserved device numbers (ioc_get_automatic_device_nr and ioc_get_reserved_autonr in
    code/ioc_auto_device_nr.c): a small table of device identifiers and the numbers
    given to them. */
module DeviceNumbers {
  import opened Bytes
  import opened Options

  /** A binary unique identifier. */
  type Id = seq<byte>

  /** The identifier of an unused row. */
  predicate IsZero(id: Id) {
    forall i :: 0 <= i < |id| ==> id[i] == 0
  }

  /** How many numbers are given before they start over. */
  const CYCLE: nat := 30999

  /** Number given by the `m`th registration, with IOC_AUTO_DEVICE_NR at `base`. */
  function Number(base: nat, m: nat): (r: nat)
    ensures base + 1 <= r <= base + CYCLE
  {
    base + 1 + m % CYCLE
  }

  /** IOC_AUTO_DEVICE_NR_START. */
  function Top(base: nat): nat {
    base + 31001
  }

  /** The order in which rows are replaced when the next number is `next`. */
  function Key(base: nat, next: nat, nr: nat): nat {
    if nr >= next then nr else nr + Top(base)
  }

  /** Numbers of registrations less than a cycle apart differ. */
  lemma NumbersDiffer(base: nat, a: nat, b: nat)
    requires a < b < a + CYCLE
    ensures Number(base, a) != Number(base, b)
  {
  }

  /** Wrap-around does not disturb the order: among the last `CYCLE` registrations
      a later one has the greater key. */
  lemma KeyFollowsAge(base: nat, k: nat, a: nat, b: nat)
    requires a < b < k <= a + CYCLE
    ensures Key(base, Number(base, k), Number(base, a)) < Key(base, Number(base, k), Number(base, b))
  {
    var lap := k / CYCLE * CYCLE;
    assert k % CYCLE == k - lap;
    InLap(k, a);
    InLap(k, b);
  }

  lemma InLap(k: nat, a: nat)
    requires a < k <= a + CYCLE
    ensures var lap := k / CYCLE * CYCLE;
      a % CYCLE == (if a >= lap then a - lap else a - lap + CYCLE)
  {
    var lap := k / CYCLE * CYCLE;
    if a >= lap {
      assert a == k / CYCLE * CYCLE + (a - lap);
    } else {
      assert a == (k / CYCLE - 1) * CYCLE + (a - lap + CYCLE);
    }
  }

  /** An unused row goes before every used one while the numbers have not started over. */
  lemma EmptyFirst(base: nat, k: nat, a: nat)
    requires a < k < CYCLE
    ensures Key(base, Number(base, k), 0) < Key(base, Number(base, k), Number(base, a))
  {
  }

  /** What row `j` holds after the registrations `log`: which of them, or -1. */
  ghost predicate Window(log: seq<Id>, held: seq<int>) {
    && 1 <= |held| <= CYCLE
    && (|log| <= |held| ==> forall j :: 0 <= j < |held| ==> held[j] == if j < |log| then j else -1)
    && (|log| >= |held| ==>
        && (forall j :: 0 <= j < |held| ==> |log| - |held| <= held[j] < |log|)
        && (forall m :: |log| - |held| <= m < |log| ==> m in held))
    && (forall i, j :: 0 <= i < j < |held| && held[i] >= 0 ==> held[i] != held[j])
  }

  /** Registration `m` is one of the last `rows` and registered `id`. */
  ghost predicate Remembers(log: seq<Id>, rows: nat, m: nat, id: Id) {
    |log| - rows <= m < |log| && log[m] == id
  }

  ghost predicate Known(log: seq<Id>, rows: nat, id: Id) {
    exists m :: Remembers(log, rows, m, id)
  }

  /** Every remembered registration has its row. */
  lemma RowOf(log: seq<Id>, held: seq<int>, m: nat)
    requires Window(log, held) && |log| - |held| <= m < |log|
    ensures exists j :: 0 <= j < |held| && held[j] == m
  {
    if |log| < |held| {
      assert held[m] == m;
    } else {
      assert m in held;
    }
  }

  /** Only unknown identifiers are registered, and never one of zero bytes. */
  ghost predicate Registrations(log: seq<Id>, rows: nat) {
    && (forall a, b :: 0 <= a < b < |log| && b < a + rows ==> log[a] != log[b])
    && (forall m :: 0 <= m < |log| ==> !IsZero(log[m]))
  }

  /** The first row with the smallest key is the first unused row, or that of the
      oldest registration. */
  lemma SmallestIsOldest(base: nat, log: seq<Id>, held: seq<int>, nrs: seq<nat>, row: nat)
    requires Window(log, held) && |nrs| == |held| && row < |held|
    requires forall j :: 0 <= j < |held| ==> nrs[j] == if held[j] < 0 then 0 else Number(base, held[j])
    requires forall j :: 0 <= j < |held| ==>
      Key(base, Number(base, |log|), nrs[row]) <= Key(base, Number(base, |log|), nrs[j])
    requires forall j :: 0 <= j < row ==>
      Key(base, Number(base, |log|), nrs[row]) < Key(base, Number(base, |log|), nrs[j])
    ensures if |log| < |held| then row == |log| else held[row] == |log| - |held|
  {
    hide Number, Key;
    if |log| < |held| {
      assert held[|log|] < 0 && nrs[|log|] == 0;
      assert row < |log| ==> held[row] == row;
      if row < |log| {
        EmptyFirst(base, |log|, row);
      }
    } else {
      var oldest := |log| - |held|;
      assert oldest in held;
      var j :| 0 <= j < |held| && held[j] == oldest;
      if held[row] > oldest {
        KeyFollowsAge(base, |log|, oldest, held[row]);
      }
    }
  }

  /** Replacing that row by the new registration moves the window on. */
  lemma WindowMoves(log: seq<Id>, held: seq<int>, row: nat, id: Id)
    requires Window(log, held) && row < |held|
    requires if |log| < |held| then row == |log| else held[row] == |log| - |held|
    ensures Window(log + [id], held[row := |log|])
  {
    var held' := held[row := |log|];
    assert forall j :: 0 <= j < |held| ==> held'[j] == if j == row then |log| else held[j];
    forall m: int | |log| + 1 >= |held| && |log| + 1 - |held| <= m < |log| + 1 ensures m in held' {
      if m < |log| {
        RowOf(log, held, m);
        var j :| 0 <= j < |held| && held[j] == m;
        assert held'[j] == m;
      } else {
        assert held'[row] == m;
      }
    }
  }

  lemma RegistrationsGrow(log: seq<Id>, rows: nat, id: Id)
    requires Registrations(log, rows) && !Known(log, rows, id) && !IsZero(id)
    ensures Registrations(log + [id], rows)
  {
    forall a | 0 <= a < |log| < a + rows ensures log[a] != id {
      assert !Remembers(log, rows, a, id);
    }
  }

  /** The table after the registrations `log`. */
  ghost predicate Table(base: nat, rows: nat, log: seq<Id>, held: seq<int>, nrs: seq<nat>, ids: seq<Id>, next: nat) {
    && |nrs| == |ids| == rows == |held|
    && Window(log, held) && Registrations(log, rows)
    && (forall j :: 0 <= j < rows && held[j] < 0 ==> nrs[j] == 0 && IsZero(ids[j]))
    && (forall j :: 0 <= j < rows && held[j] >= 0 ==>
          held[j] < |log| && nrs[j] == Number(base, held[j]) && ids[j] == log[held[j]])
    && next == (if log == [] then 0 else Number(base, |log| - 1) + 1)
  }

  lemma KnownBy(log: seq<Id>, rows: nat, m: nat, id: Id)
    requires Remembers(log, rows, m, id)
    ensures Known(log, rows, id)
  {
  }

  lemma KnownIffRemembers(log: seq<Id>, rows: nat, id: Id)
    requires !Known(log, rows, id)
    ensures forall m :: !Remembers(log, rows, m, id)
  {
  }

  /** The stored next number, brought back into range, is the next of the cycle. */
  lemma NextNumber(base: nat, rows: nat, log: seq<Id>, held: seq<int>, nrs: seq<nat>, ids: seq<Id>, next: nat)
    requires Table(base, rows, log, held, nrs, ids, next)
    ensures Number(base, |log|) == if next < base + 1 || next > Top(base) - 2 then base + 1 else next
  {
    hide Window, Registrations;
  }

  /** An identifier found in the table is known under the number beside it. */
  lemma FoundIsKnown(base: nat, rows: nat, log: seq<Id>, held: seq<int>, nrs: seq<nat>, ids: seq<Id>, next: nat, i: nat)
    requires Table(base, rows, log, held, nrs, ids, next) && i < rows && !IsZero(ids[i])
    ensures held[i] >= 0 && Remembers(log, rows, held[i], ids[i])
    ensures forall m :: Remembers(log, rows, m, ids[i]) ==> nrs[i] == Number(base, m)
    ensures base + 1 <= nrs[i] <= base + CYCLE
  {
    hide Number, IsZero;
  }

  lemma AbsentIsUnknown(base: nat, rows: nat, log: seq<Id>, held: seq<int>, nrs: seq<nat>, ids: seq<Id>, next: nat, id: Id)
    requires Table(base, rows, log, held, nrs, ids, next)
    requires forall j :: 0 <= j < rows ==> ids[j] != id
    ensures !Known(log, rows, id)
  {
    hide Number, IsZero;
    forall m | Remembers(log, rows, m, id) ensures false {
      RowOf(log, held, m);
    }
  }

  /** Putting the new registration into row `row` gives the table of the longer log. */
  lemma TableGrows(base: nat, rows: nat, log: seq<Id>, held: seq<int>, nrs: seq<nat>, ids: seq<Id>, next: nat, row: nat, id: Id)
    requires Table(base, rows, log, held, nrs, ids, next) && row < rows
    requires !Known(log, rows, id) && !IsZero(id)
    requires if |log| < |held| then row == |log| else held[row] == |log| - |held|
    ensures Table(base, rows, log + [id], held[row := |log|], nrs[row := Number(base, |log|)], ids[row := id],
      Number(base, |log|) + 1)
  {
    hide Number, Window, Registrations, IsZero;
    WindowMoves(log, held, row, id);
    RegistrationsGrow(log, rows, id);
    assert (log + [id])[|log|] == id;
  }

  /** The table holds exactly the last registrations, each with its own number. */
  lemma TableHoldsLatest(base: nat, rows: nat, log: seq<Id>, held: seq<int>, nrs: seq<nat>, ids: seq<Id>, next: nat)
    requires Table(base, rows, log, held, nrs, ids, next)
    ensures forall m: nat :: |log| - rows <= m < |log| ==>
      exists j :: 0 <= j < rows && ids[j] == log[m] && nrs[j] == Number(base, m)
    ensures forall j :: 0 <= j < rows && nrs[j] != 0 ==>
      exists m: nat :: Remembers(log, rows, m, ids[j]) && nrs[j] == Number(base, m)
  {
    hide Number, Registrations, Window;
    forall m: nat | |log| - rows <= m < |log|
      ensures exists j :: 0 <= j < rows && ids[j] == log[m] && nrs[j] == Number(base, m)
    {
      RowOf(log, held, m);
      var j :| 0 <= j < |held| && held[j] == m;
      assert ids[j] == log[m];
    }
    forall j | 0 <= j < rows && nrs[j] != 0
      ensures exists m: nat :: Remembers(log, rows, m, ids[j]) && nrs[j] == Number(base, m)
    {
      RowRemembered(log, held, j);
      assert Remembers(log, rows, held[j], ids[j]);
    }
  }

  lemma RowRemembered(log: seq<Id>, held: seq<int>, j: nat)
    requires Window(log, held) && j < |held| && held[j] >= 0
    ensures |log| - |held| <= held[j] < |log|
  {
  }

  /** The numbers in the table are in range and pairwise distinct. */
  lemma NumbersDistinct(base: nat, rows: nat, log: seq<Id>, held: seq<int>, nrs: seq<nat>, ids: seq<Id>, next: nat, i: nat, j: nat)
    requires Table(base, rows, log, held, nrs, ids, next)
    requires i < rows && j < rows && i != j && nrs[i] != 0
    ensures base + 1 <= nrs[i] <= base + CYCLE && nrs[i] != nrs[j]
  {
    hide Number, Registrations;
    if held[j] >= 0 {
      if held[i] < held[j] {
        NumbersDiffer(base, held[i], held[j]);
      } else {
        NumbersDiffer(base, held[j], held[i]);
      }
    }
  }

  class Reservations {
    const base: nat
    const rows: nat
    /** OSAL_UNIQUE_ID_BIN_SZ. */
    const idSize: nat
    var deviceNr: array<nat>
    var uniqueId: array<Id>
    var reserveNext: nat
    ghost var log: seq<Id>
    ghost var held: seq<int>

    ghost predicate Valid()
      reads this, deviceNr, uniqueId
    {
      1 <= rows && deviceNr.Length == rows && uniqueId.Length == rows &&
      Table(base, rows, log, held, deviceNr[..], uniqueId[..], reserveNext)
    }

    /** An empty table. */
    constructor (base: nat, rows: nat, idSize: nat)
      requires 1 <= rows <= CYCLE
      ensures Valid() && log == [] && this.base == base && this.rows == rows && this.idSize == idSize
      ensures fresh(deviceNr) && fresh(uniqueId)
    {
      this.base := base;
      this.rows := rows;
      this.idSize := idSize;
      deviceNr := new nat[rows](_ => 0);
      uniqueId := new Id[rows](_ => Zeros(idSize));
      reserveNext := 0;
      log := [];
      held := seq(rows, _ => -1);
    }

    /** The row to replace: the first with the smallest key. */
    method SelectRow(next: nat) returns (smallest: nat)
      requires deviceNr.Length == rows >= 1
      ensures smallest < rows
      ensures forall j :: 0 <= j < rows ==>
        Key(base, next, deviceNr[smallest]) <= Key(base, next, deviceNr[j])
      ensures forall j :: 0 <= j < smallest ==>
        Key(base, next, deviceNr[smallest]) < Key(base, next, deviceNr[j])
    {
      var id := deviceNr[0];
      if id < next {
        id := id + Top(base);
      }
      smallest := 0;
      for i := 0 to rows
        invariant smallest < rows && id == Key(base, next, deviceNr[smallest])
        invariant forall j :: 0 <= j < i ==> id <= Key(base, next, deviceNr[j])
        invariant forall j :: 0 <= j < smallest ==> id < Key(base, next, deviceNr[j])
        invariant smallest == 0 || smallest < i
      {
        if deviceNr[i] >= next {
          if deviceNr[i] < id {
            smallest := i;
            id := deviceNr[i];
          }
        }
        if deviceNr[i] + Top(base) < id {
          smallest := i;
          id := deviceNr[i] + Top(base);
        }
      }
    }

    /** ioc_get_reserved_autonr, which is only called with an identifier that is not
        all zeros: a known identifier keeps its number, otherwise the next number of
        the cycle is given and the oldest registration is forgotten. */
    method Reserve(id: Id) returns (nr: nat)
      requires Valid() && !IsZero(id)
      modifies this`reserveNext, this`log, this`held, deviceNr, uniqueId
      ensures Valid()
      ensures base + 1 <= nr <= base + CYCLE
      ensures forall m :: Remembers(old(log), rows, m, id) ==> nr == Number(base, m)
      ensures Known(old(log), rows, id) ==> log == old(log)
      ensures !Known(old(log), rows, id) ==> log == old(log) + [id] && nr == Number(base, |old(log)|)
    {
      hide Number, Key, Window, Registrations, Known, Remembers, IsZero;
      ghost var nrs, ids, next := deviceNr[..], uniqueId[..], reserveNext;
      assert Table(base, rows, log, held, nrs, ids, next);
      for i := 0 to rows
        invariant forall j :: 0 <= j < i ==> ids[j] != id
        invariant nrs == deviceNr[..] && ids == uniqueId[..]
      {
        if id == uniqueId[i] {
          FoundIsKnown(base, rows, log, held, nrs, ids, next, i);
          KnownBy(log, rows, held[i], id);
          return deviceNr[i];
        }
      }
      AbsentIsUnknown(base, rows, log, held, nrs, ids, next, id);
      KnownIffRemembers(log, rows, id);
      nr := Register(id);
    }

    /** Brings the next number into range and finds the row it goes to. */
    method PrepareRow() returns (row: nat)
      requires Valid()
      modifies this`reserveNext
      ensures reserveNext == Number(base, |log|) && row < rows
      ensures if |log| < rows then row == |log| else held[row] == |log| - rows
    {
      hide Number, Key, Window, Registrations, IsZero;
      NextNumber(base, rows, log, held, deviceNr[..], uniqueId[..], reserveNext);
      if reserveNext < base + 1 || reserveNext > Top(base) - 2 {
        reserveNext := base + 1;
      }
      row := SelectRow(reserveNext);
      SmallestIsOldest(base, log, held, deviceNr[..], row);
    }

    /** Gives the next number of the cycle to an unknown identifier, in the row of the
        oldest registration. */
    method Register(id: Id) returns (nr: nat)
      requires Valid() && !IsZero(id) && !Known(log, rows, id)
      modifies this`reserveNext, this`log, this`held, deviceNr, uniqueId
      ensures Valid() && log == old(log) + [id] && nr == Number(base, |old(log)|)
    {
      hide Number, Window, Registrations, Known, IsZero;
      ghost var nrs, ids, next := deviceNr[..], uniqueId[..], reserveNext;
      var row := PrepareRow();
      TableGrows(base, rows, log, held, nrs, ids, next, row, id);
      hide Table;
      nr := reserveNext;
      deviceNr[row] := reserveNext;
      reserveNext := reserveNext + 1;
      uniqueId[row] := id;
      assert deviceNr[..] == nrs[row := nr] && uniqueId[..] == ids[row := id];
      log, held := log + [id], held[row := |log|];
    }

    /** ioc_get_automatic_device_nr up to its random part: an identifier with a nonzero
        byte gets its reserved number, which the table remembers; without one the
        table is left alone. */
    method GetAutomatic(id: Option<Id>) returns (nr: Option<nat>)
      requires Valid() && (id.Some? ==> |id.value| == idSize)
      modifies this`reserveNext, this`log, this`held, deviceNr, uniqueId
      ensures Valid()
      ensures nr.Some? <==> id.Some? && exists i :: 0 <= i < |id.value| && id.value[i] != 0
      ensures nr.Some? ==>
        && base + 1 <= nr.value <= base + CYCLE
        && (forall m :: Remembers(old(log), rows, m, id.value) ==> nr.value == Number(base, m))
        && log == (if Known(old(log), rows, id.value) then old(log) else old(log) + [id.value])
        && Known(log, rows, id.value)
      ensures nr.None? ==> log == old(log)
    {
      hide Number, Table;
      if id.Some? {
        for count := 0 to idSize
          invariant forall i :: 0 <= i < count ==> id.value[i] == 0
        {
          if id.value[count] != 0 {
            ghost var before := log;
            var reserved := Reserve(id.value);
            NowKnown(before, rows, id.value);
            return Some(reserved);
          }
        }
      }
      return None;
    }
  }

  lemma NowKnown(log: seq<Id>, rows: nat, id: Id)
    ensures rows >= 1 ==> Known(log + [id], rows, id)
  {
    if rows >= 1 {
      assert Remembers(log + [id], rows, |log|, id);
    }
  }
}
