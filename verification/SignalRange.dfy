/** Which signals of a memory block a changed address range touches
    (code/ioc_signal_addr.c). */
module SignalRange {

  /** Type of a signal; `Sized` carries the bytes of one element. */
  datatype Type = Text | Boolean | Sized(size: nat)

  datatype Signal = Signal(addr: int, n: int, kind: Type)

  /** Bits of one element. */
  function ElementBits(kind: Type): nat {
    match kind
    case Text => 8
    case Boolean => 1
    case Sized(size) => 8 * size
  }

  function Elements(s: Signal): (n: nat)
    ensures n >= 1
  {
    if s.n < 1 then 1 else s.n
  }

  /** ioc_nro_signal_bytes. */
  function Bytes(s: Signal): (r: nat)
    ensures r >= 1
  {
    var n := if s.n < 1 then 1 else s.n;
    match s.kind
    case Text => n + 1
    case Boolean => if n > 1 then (n + 7) / 8 + 1 else n
    case Sized(size) => n * size + 1
  }

  /** A status byte and the fewest bytes that hold all elements, except that a single
      boolean lives in the status byte. */
  lemma BytesAreFewest(s: Signal)
    ensures if s.kind.Boolean? && Elements(s) == 1 then Bytes(s) == 1
            else 8 * (Bytes(s) - 2) < Elements(s) * ElementBits(s.kind) <= 8 * (Bytes(s) - 1)
  {
    if s.kind.Sized? {
      assert Elements(s) * (8 * s.kind.size) == 8 * (Elements(s) * s.kind.size);
    }
  }

  /** Last address of the signal. */
  function End(s: Signal): int {
    s.addr + Bytes(s) - 1
  }

  /** ioc_is_my_address. */
  predicate Touches(s: Signal, first: int, last: int) {
    if last < s.addr then false else first < s.addr + Bytes(s)
  }

  predicate Holds(s: Signal, a: int) {
    s.addr <= a <= End(s)
  }

  /** Some address of the range is an address of the signal. */
  lemma TouchesIsOverlap(s: Signal, first: int, last: int)
    requires first <= last
    ensures Touches(s, first, last) <==> exists a :: first <= a <= last && Holds(s, a)
  {
    if Touches(s, first, last) {
      var a := if first < s.addr then s.addr else first;
      assert Holds(s, a);
    }
  }

  ghost predicate Sorted(signals: seq<Signal>) {
    forall i, j :: 0 <= i < j < |signals| ==> End(signals[i]) < signals[j].addr
  }

  /** The signals follow each other without unused addresses. */
  ghost predicate NoHoles(signals: seq<Signal>) {
    forall i :: 0 <= i < |signals| - 1 ==> signals[i + 1].addr == End(signals[i]) + 1
  }

  /** Everything from `from` up to `k` ends before the address, everything behind
      `k` starts after it; the second signal is only chosen when it does not. */
  ghost predicate Located(signals: seq<Signal>, from: nat, addr: int, k: nat) {
    && from <= k < |signals|
    && (forall i :: from <= i < k ==> End(signals[i]) < addr)
    && (forall i :: k < i < |signals| ==> addr < signals[i].addr)
    && (k == from + 1 ==> signals[k].addr <= addr)
  }

  /** Either binary search of ioc_get_signal_range_by_hdr, over the signals from
      `from`. */
  method Search(signals: seq<Signal>, from: nat, addr: int) returns (k: nat)
    requires from < |signals| && Sorted(signals)
    ensures Located(signals, from, addr, k)
  {
    hide Bytes;
    var first, last := from, |signals| - 1;
    while last > first + 1
      invariant from <= first <= last < |signals|
      invariant first != from + 1 || signals[first].addr <= addr
      invariant forall i :: from <= i < first ==> End(signals[i]) < addr
      invariant forall i :: last < i < |signals| ==> addr < signals[i].addr
      decreases last - first
    {
      var mid := from + (first - from + last - from) / 2;
      if addr < signals[mid].addr {
        last := mid - 1;
      } else if addr > End(signals[mid]) {
        first := mid + 1;
      } else {
        first, last := mid, mid;
        break;
      }
    }
    if addr >= signals[last].addr {
      first := last;
    }
    k := first;
  }

  /** What the range search promises: the signals `a..b` hold every touched signal
      and at least one; only the outermost can be untouched, and only when an end of
      the range falls into the hole next to them. */
  ghost predicate Affected(signals: seq<Signal>, start: int, end: int, a: nat, b: nat) {
    && a <= b < |signals|
    && (forall i :: 0 <= i < |signals| && Touches(signals[i], start, end) ==> a <= i <= b)
    && (forall i :: a < i < b ==> Touches(signals[i], start, end))
    && (exists i :: a <= i <= b && Touches(signals[i], start, end))
    && (!Touches(signals[a], start, end) ==> a < b && End(signals[a]) < start < signals[a + 1].addr)
    && (!Touches(signals[b], start, end) ==> a < b && End(signals[b - 1]) < end < signals[b].addr)
  }

  /** ioc_get_signal_range_by_hdr: `n == 0` stands for the null result, otherwise
      signals `first .. first + n - 1` are affected. */
  method GetSignalRange(signals: seq<Signal>, start: int, end: int) returns (first: nat, n: nat)
    requires signals != [] && Sorted(signals)
    ensures n == 0 <==> forall i :: 0 <= i < |signals| ==> !Touches(signals[i], start, end)
    ensures n > 0 ==> Affected(signals, start, end, first, first + n - 1)
    ensures n > 0 && NoHoles(signals) ==>
      forall i :: first <= i < first + n ==> Touches(signals[i], start, end)
  {
    hide Located, Affected, NoHoles, Bytes;
    if end < signals[0].addr || start > End(signals[|signals| - 1]) {
      return 0, 0;
    }
    first := Search(signals, 0, start);
    assert first < |signals| by { LocatedRange(signals, 0, start, first); }
    var last := Search(signals, first, end);
    LocatedRange(signals, first, end, last);
    if last == first && (end < signals[first].addr || start > End(signals[first])) {
      n := 0;
      NoneTouched(signals, start, end, first);
    } else {
      n := last - first + 1;
      RangeAffected(signals, start, end, first, last);
      if NoHoles(signals) {
        NoHolesExact(signals, start, end, first, last);
      }
    }
  }

  lemma LocatedRange(signals: seq<Signal>, from: nat, addr: int, k: nat)
    requires Located(signals, from, addr, k)
    ensures from <= k < |signals|
  {
  }

  lemma NoneTouched(signals: seq<Signal>, start: int, end: int, first: nat)
    requires Located(signals, 0, start, first) && Located(signals, first, end, first)
    requires end < signals[first].addr || start > End(signals[first])
    ensures forall i :: 0 <= i < |signals| ==> !Touches(signals[i], start, end)
  {
    hide Bytes;
  }

  /** Two searches that do not end in one untouched signal bound the affected ones. */
  lemma RangeAffected(signals: seq<Signal>, start: int, end: int, first: nat, last: nat)
    requires Sorted(signals) && Located(signals, 0, start, first) && Located(signals, first, end, last)
    requires signals[0].addr <= end && start <= End(signals[|signals| - 1])
    requires last == first ==> signals[first].addr <= end && start <= End(signals[first])
    ensures Affected(signals, start, end, first, last)
    ensures exists i :: 0 <= i < |signals| && Touches(signals[i], start, end)
  {
    hide Bytes, Sorted;
    var hit := if last == first then first else first + 1;
    assert Touches(signals[hit], start, end);
  }

  lemma NoHolesExact(signals: seq<Signal>, start: int, end: int, first: nat, last: nat)
    requires NoHoles(signals) && Affected(signals, start, end, first, last)
    ensures forall i :: first <= i <= last ==> Touches(signals[i], start, end)
  {
    hide Bytes;
    if first < last {
      assert signals[last - 1 + 1].addr == End(signals[last - 1]) + 1;
    }
  }
}
