// The merge schedule of list_sort (lib/list_sort.c): which sizes the pending sublists have after
// count elements, and why every merge is balanced.

module MergeSchedule {
  import opened Basics

  function Doubled(s: seq<nat>): (r: seq<nat>)
    ensures |r| == |s| && forall i :: 0 <= i < |s| ==> r[i] == 2 * s[i]
  {
    seq(|s|, i requires 0 <= i < |s| => 2 * s[i])
  }

  /** The sizes of the pending sublists after count elements, newest and smallest first, read off the
      bits of count from the lowest up. */
  function Sizes(count: nat): (s: seq<nat>)
    ensures count > 0 ==> |s| > 0 && s[0] == 1
    ensures count > 1 ==> |s| > 1
  {
    if count == 0 then []
    else if count % 2 == 1 then [1] + Doubled(Sizes(count / 2))
    else [1, 1] + Doubled(Sizes(count / 2)[1..])
  }

  /** The position of the lowest clear bit. */
  function LowestClear(count: nat): nat
  {
    if count % 2 == 0 then 0 else 1 + LowestClear(count / 2)
  }

  /** The bits above (and including) the lowest clear one; zero means there is nothing to merge. */
  function HighBits(count: nat): nat
  {
    if count % 2 == 0 then count else HighBits(count / 2)
  }

  /** Join the sublists number k and k + 1. */
  function Joined(s: seq<nat>, k: nat): (r: seq<nat>)
    requires k + 1 < |s|
    ensures |r| == |s| - 1
  {
    s[..k] + [s[k] + s[k + 1]] + s[k + 2..]
  }

  lemma JoinedDoubled(s: seq<nat>, k: nat)
    requires k + 1 < |s|
    ensures Joined(Doubled(s), k) == Doubled(Joined(s, k))
  {
  }

  lemma {:induction false} SizesOdd(m: nat)
    ensures Sizes(2 * m + 1) == [1] + Doubled(Sizes(m))
  {
    var count := 2 * m + 1;
    assert count / 2 == m && count % 2 == 1;
    UnfoldSizes(count);
    hide Sizes, Doubled;
  }

  lemma {:induction false} SizesEven(m: nat)
    requires m > 0
    ensures Sizes(2 * m) == [1, 1] + Doubled(Sizes(m)[1..])
  {
    var count := 2 * m;
    assert count / 2 == m && count % 2 == 0;
    UnfoldSizes(count);
    hide Sizes, Doubled;
  }

  lemma {:induction false} UnfoldSizes(count: nat)
    requires count > 0
    ensures Sizes(count) ==
      if count % 2 == 1 then [1] + Doubled(Sizes(count / 2)) else [1, 1] + Doubled(Sizes(count / 2)[1..])
  {
  }

  /** What one round of list_sort does at this count. */
  ghost predicate RoundWorks(count: nat)
  {
    var k := LowestClear(count);
    && k <= |Sizes(count)|
    && (HighBits(count) == 0 ==> Sizes(count + 1) == [1] + Sizes(count))
    && (HighBits(count) != 0 ==>
      && k + 1 < |Sizes(count)|
      && Sizes(count)[k] == Sizes(count)[k + 1] == Pow2(k)
      && Sizes(count + 1) == [1] + Joined(Sizes(count), k))
  }

  lemma {:induction false} RoundEven(m: nat)
    ensures RoundWorks(2 * m)
  {
    hide Sizes, LowestClear, HighBits, Pow2, Doubled, Joined;
    EvenBits(m);
    SizesOdd(m);
    if m == 0 {
      NoneYet();
    } else {
      SizesEven(m);
      FirstTwo(Sizes(m));
    }
  }

  lemma {:induction false} FirstTwo(s: seq<nat>)
    requires |s| > 0 && s[0] == 1
    ensures Joined([1, 1] + Doubled(s[1..]), 0) == Doubled(s)
  {
    hide Doubled;
    var d := Doubled(s[1..]);
    var j := Joined([1, 1] + d, 0);
    assert ([1, 1] + d)[2..] == d;
    assert j == [2] + d;
    forall i | 0 <= i < |s| ensures j[i] == Doubled(s)[i] {
      assert i > 0 ==> d[i - 1] == 2 * s[1..][i - 1];
    }
  }

  lemma {:induction false} EvenBits(m: nat)
    ensures LowestClear(2 * m) == 0 && HighBits(2 * m) == 2 * m && Pow2(0) == 1
  {
    assert (2 * m) % 2 == 0;
  }

  lemma NoneYet()
    ensures Sizes(0) == [] && Doubled(Sizes(0)) == []
  {
    assert Doubled([]) == [];
  }

  lemma {:induction false} RoundOdd(m: nat)
    requires RoundWorks(m)
    ensures RoundWorks(2 * m + 1)
  {
    hide Sizes, LowestClear, HighBits, Pow2, Doubled, Joined;
    var count := 2 * m + 1;
    OddBits(m);
    SizesOdd(m);
    SizesEven(m + 1);
    var s, k := Sizes(m), LowestClear(m);
    assert count + 1 == 2 * (m + 1);
    var next := Sizes(m + 1)[1..];
    assert [1, 1] + Doubled(next) == [1] + ([1] + Doubled(next));
    if HighBits(m) == 0 {
      assert next == s;
    } else {
      assert next == Joined(s, k);
      JoinedDoubled(s, k);
      JoinedShift(Doubled(s), k);
    }
  }

  lemma {:induction false} OddBits(m: nat)
    ensures LowestClear(2 * m + 1) == 1 + LowestClear(m) && HighBits(2 * m + 1) == HighBits(m)
    ensures Pow2(1 + LowestClear(m)) == 2 * Pow2(LowestClear(m))
  {
    assert (2 * m + 1) / 2 == m;
  }

  lemma JoinedShift(s: seq<nat>, k: nat)
    requires k + 1 < |s|
    ensures Joined([1] + s, k + 1) == [1] + Joined(s, k)
  {
  }

  /** When there is something to merge, the two sublists at the lowest clear bit both have the size
      of that bit; merging them and adding one element gives the next sizes. */
  lemma {:induction false} Round(count: nat)
    ensures RoundWorks(count)
  {
    hide RoundWorks;
    if count % 2 == 0 {
      RoundEven(count / 2);
    } else {
      Round(count / 2);
      RoundOdd(count / 2);
    }
  }

  function Sum(s: seq<nat>): nat
  {
    if |s| == 0 then 0 else s[0] + Sum(s[1..])
  }

  lemma {:induction false} SumDoubled(s: seq<nat>)
    ensures Sum(Doubled(s)) == 2 * Sum(s)
  {
    if |s| > 0 {
      SumDoubled(s[1..]);
      assert Doubled(s)[1..] == Doubled(s[1..]);
    }
  }

  lemma SumCons(x: nat, s: seq<nat>)
    ensures Sum([x] + s) == x + Sum(s)
  {
    assert ([x] + s)[1..] == s;
  }

  lemma NoSizes()
    ensures Sum(Sizes(0)) == 0
  {
  }

  /** The pending sublists together hold count elements. */
  lemma {:induction false} SizesSum(count: nat)
    ensures Sum(Sizes(count)) == count
  {
    hide Sizes, Sum, Doubled;
    if count == 0 {
      NoSizes();
    } else {
      UnfoldSizes(count);
      var m := count / 2;
      SizesSum(m);
      var s := Sizes(m);
      if count % 2 == 1 {
        SumDoubled(s);
        SumCons(1, Doubled(s));
      } else {
        var t := s[1..];
        SumDoubled(t);
        assert s == [1] + t;
        SumCons(1, t);
        assert [1, 1] + Doubled(t) == [1] + ([1] + Doubled(t));
        SumCons(1, [1] + Doubled(t));
        SumCons(1, Doubled(t));
      }
    }
  }

  ghost predicate IsPow2(n: nat)
  {
    exists k: nat :: n == Pow2(k)
  }

  lemma {:induction false} SizesArePowers(count: nat, i: nat)
    requires i < |Sizes(count)|
    ensures IsPow2(Sizes(count)[i])
  {
    var s := Sizes(count / 2);
    if Sizes(count)[i] == 1 {
      assert Pow2(0) == 1;
    } else if count % 2 == 1 {
      SizesArePowers(count / 2, i - 1);
      var k: nat :| s[i - 1] == Pow2(k);
      assert Pow2(k + 1) == 2 * Pow2(k);
    } else {
      SizesArePowers(count / 2, i - 1);
      var k: nat :| s[i - 1] == Pow2(k);
      assert Pow2(k + 1) == 2 * Pow2(k);
    }
  }

  /** The final merges, from the smallest sublist up, are at worst 2 : 1. */
  lemma {:induction false} FinalMergesBalanced(count: nat, i: nat)
    requires 0 < i < |Sizes(count)|
    ensures Sizes(count)[i] <= 2 * Sum(Sizes(count)[..i])
    ensures Sum(Sizes(count)[..i]) < 2 * Sizes(count)[i]
    decreases count
  {
    var m := count / 2;
    var t := Sizes(m);
    if count % 2 == 1 {
      SizesOdd(m);
      if i > 1 {
        FinalMergesBalanced(m, i - 1);
      }
      PrefixOdd(t, i);
    } else {
      SizesEven(m);
      if i > 1 {
        FinalMergesBalanced(m, i - 1);
      }
      PrefixEven(t, i);
    }
  }

  lemma PrefixOdd(t: seq<nat>, i: nat)
    requires 0 < i <= |t|
    ensures Sum(([1] + Doubled(t))[..i]) == 1 + 2 * Sum(t[..i - 1])
  {
    hide Sum, Doubled;
    assert ([1] + Doubled(t))[..i] == [1] + Doubled(t[..i - 1]);
    SumCons(1, Doubled(t[..i - 1]));
    SumDoubled(t[..i - 1]);
    NoSum(t);
  }

  lemma PrefixEven(t: seq<nat>, i: nat)
    requires |t| > 0 && t[0] == 1 && 0 < i <= |t|
    ensures i == 1 ==> Sum(([1, 1] + Doubled(t[1..]))[..i]) == 1
    ensures i > 1 ==> Sum(([1, 1] + Doubled(t[1..]))[..i]) == 2 * Sum(t[..i - 1])
  {
    hide Sum, Doubled;
    NoSum(t);
    if i == 1 {
      assert ([1, 1] + Doubled(t[1..]))[..1] == [1] + [];
      SumCons(1, []);
    } else {
      var rest := t[1..i - 1];
      assert ([1, 1] + Doubled(t[1..]))[..i] == [1] + ([1] + Doubled(rest));
      SumCons(1, [1] + Doubled(rest));
      SumCons(1, Doubled(rest));
      SumDoubled(rest);
      assert t[..i - 1] == [1] + rest;
      SumCons(1, rest);
    }
  }

  lemma NoSum(t: seq<nat>)
    ensures Sum([]) == 0 && Sum(t[..0]) == 0
  {
  }

  /* ---------------------------------------------------------------- how many of each size */

  function Occurrences(s: seq<nat>, n: nat): nat
  {
    if |s| == 0 then 0 else (if s[0] == n then 1 else 0) + Occurrences(s[1..], n)
  }

  function Bit(count: nat, k: nat): bool
  {
    if k == 0 then count % 2 == 1 else Bit(count / 2, k - 1)
  }

  function Above(count: nat, k: nat): nat
  {
    if k == 0 then count / 2 else Above(count / 2, k - 1)
  }

  /** The six states in the comment on list_sort: bit k, the bit below it (set when k is 0) and
      whether any bit above is set. */
  function PendingOfSize(count: nat, k: nat): nat
  {
    var below := k == 0 || Bit(count, k - 1);
    if Bit(count, k) then (if below then 1 else 0)
    else if Above(count, k) != 0 then (if below then 2 else 1)
    else 0
  }

  lemma {:induction false} OccurrencesDoubled(s: seq<nat>, n: nat)
    ensures Occurrences(Doubled(s), 2 * n) == Occurrences(s, n)
    ensures Occurrences(Doubled(s), 2 * n + 1) == 0
  {
    if |s| > 0 {
      OccurrencesDoubled(s[1..], n);
      assert Doubled(s)[1..] == Doubled(s[1..]);
    }
  }

  lemma {:induction false} SizesByBits(count: nat, k: nat)
    ensures Occurrences(Sizes(count), Pow2(k)) == PendingOfSize(count, k)
    decreases count
  {
    if count == 0 {
      ZeroBits(k);
    } else {
      hide Sizes, Pow2, Doubled, Occurrences, PendingOfSize;
      var m := count / 2;
      var t := if count % 2 == 1 then Sizes(m) else Sizes(m)[1..];
      UnfoldSizes(count);
      PowerStep(k);
      PendingHalf(count, k);
      if k == 0 {
        OnesIn(t, count % 2 == 1);
      } else {
        SizesByBits(m, k - 1);
        OccurrencesDoubled(t, Pow2(k - 1));
        Evens(t, count % 2 == 1, Pow2(k - 1));
        if count % 2 == 0 {
          HeadIsOne(Sizes(m), Pow2(k - 1), k - 1);
        }
      }
    }
  }

  lemma PowerStep(k: nat)
    ensures Pow2(k) == if k == 0 then 1 else 2 * Pow2(k - 1)
  {
  }

  /** Dropping the lowest bit: only the bit just above it can tell the difference. */
  lemma {:induction false} PendingHalf(count: nat, k: nat)
    requires count > 0
    ensures k == 0 ==> PendingOfSize(count, k) == if count % 2 == 1 then 1 else 2
    ensures k > 0 ==>
      PendingOfSize(count, k) + (if count % 2 == 0 && k == 1 then 1 else 0) == PendingOfSize(count / 2, k - 1)
  {
  }

  /** One or two ones come before the doubled sizes. */
  lemma {:induction false} OnesIn(t: seq<nat>, odd: bool)
    ensures Occurrences((if odd then [1] else [1, 1]) + Doubled(t), 1) == if odd then 1 else 2
  {
    OccurrencesDoubled(t, 0);
    var d := Doubled(t);
    assert ([1] + d)[1..] == d && ([1, 1] + d)[1..] == [1] + d;
    hide Doubled;
  }

  lemma {:induction false} Evens(t: seq<nat>, odd: bool, n: nat)
    ensures Occurrences((if odd then [1] else [1, 1]) + Doubled(t), 2 * n) == Occurrences(Doubled(t), 2 * n)
  {
    var d := Doubled(t);
    assert ([1] + d)[1..] == d && ([1, 1] + d)[1..] == [1] + d;
    hide Doubled;
  }

  lemma {:induction false} HeadIsOne(s: seq<nat>, n: nat, k: nat)
    requires n == Pow2(k) && |s| > 0 && s[0] == 1
    ensures Occurrences(s, n) == (if k == 0 then 1 else 0) + Occurrences(s[1..], n)
  {
  }

  lemma {:induction false} ZeroBits(k: nat)
    ensures !Bit(0, k) && Above(0, k) == 0
  {
    if k > 0 {
      ZeroBits(k - 1);
    }
  }
}
