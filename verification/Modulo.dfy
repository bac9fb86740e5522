/** Remainders of sums, used for wrapping counters, ring slots and byte digits. */
module Modulo {

  lemma RemainderIs(x: int, r: int, m: int, k: int)
    requires m > 0 && 0 <= r < m && x == r + k * m
    ensures x % m == r
  {
    var e := k - x / m;
    assert m * e == x % m - r;
  }
}
