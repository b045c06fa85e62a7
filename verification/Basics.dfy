// Notions that several parts of the model share.

module Basics {

  type Byte = x: int | 0 <= x < 256

  ghost predicate NoRepeats<T>(s: seq<T>)
  {
    forall i, j :: 0 <= i < j < |s| ==> s[i] != s[j]
  }

  function Pow2(n: nat): (r: nat)
    ensures r > 0
  {
    if n == 0 then 1 else 2 * Pow2(n - 1)
  }

  /** The next multiple of 4. */
  function Round4(n: nat): (r: nat)
    ensures n <= r < n + 4 && r % 4 == 0
  {
    n + (4 - n % 4) % 4
  }

  lemma AlignedEnd(start: nat, len: nat)
    requires start % 4 == 0
    ensures Round4(start + len) == start + Round4(len) && (start + Round4(len)) % 4 == 0
  {
  }

  lemma MultipleBelow(d: int, m: int)
    requires m > 0 && -m < d * m < m
    ensures d == 0
  {
    assert d >= 1 ==> d * m >= m;
    assert d <= -1 ==> d * m <= -m;
  }
}
