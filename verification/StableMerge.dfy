// Stable merging, as list_sort (lib/list_sort.c) does it: on a tie the element that came first in
// the input goes first.

module StableMerge {

  type Cmp<!N> = (N, N) -> int

  /** cmp(a, b) <= 0 is a total preorder on the elements. */
  ghost predicate TotalPreorder<N>(cmp: Cmp<N>, all: set<N>)
  {
    && (forall x, y :: x in all && y in all ==> cmp(x, y) <= 0 || cmp(y, x) <= 0)
    && (forall x, y, z :: x in all && y in all && z in all && cmp(x, y) <= 0 && cmp(y, z) <= 0 ==> cmp(x, z) <= 0)
  }

  /** x belongs before y: it is smaller, or equal and earlier in the input. */
  ghost predicate Before<N>(cmp: Cmp<N>, pos: map<N, int>, x: N, y: N)
  {
    x in pos && y in pos && cmp(x, y) <= 0 && (cmp(y, x) <= 0 ==> pos[x] < pos[y])
  }

  /** Sorted, and stably so. */
  ghost predicate Ordered<N>(cmp: Cmp<N>, pos: map<N, int>, s: seq<N>)
  {
    forall i, j :: 0 <= i < j < |s| ==> Before(cmp, pos, s[i], s[j])
  }

  ghost predicate Earlier<N>(pos: map<N, int>, x: N, y: N)
  {
    x in pos && y in pos && pos[x] < pos[y]
  }

  /** Everything in a came before everything in b. */
  ghost predicate Older<N>(pos: map<N, int>, a: seq<N>, b: seq<N>)
  {
    forall i, j :: 0 <= i < |a| && 0 <= j < |b| ==> Earlier(pos, a[i], b[j])
  }

  ghost function Elems<N>(s: seq<N>): set<N>
  {
    set x | x in s
  }

  ghost predicate Among<N>(s: seq<N>, all: set<N>)
  {
    forall i :: 0 <= i < |s| ==> s[i] in all
  }

  ghost function Merge<N>(cmp: Cmp<N>, a: seq<N>, b: seq<N>): (m: seq<N>)
    ensures |m| == |a| + |b|
    decreases |a| + |b|
  {
    if |a| == 0 then b
    else if |b| == 0 then a
    else if cmp(a[0], b[0]) <= 0 then [a[0]] + Merge(cmp, a[1..], b)
    else [b[0]] + Merge(cmp, a, b[1..])
  }

  lemma {:induction false} MergeMultiset<N>(cmp: Cmp<N>, a: seq<N>, b: seq<N>)
    ensures multiset(Merge(cmp, a, b)) == multiset(a) + multiset(b)
    decreases |a| + |b|
  {
    if |a| > 0 && |b| > 0 {
      if cmp(a[0], b[0]) <= 0 {
        MergeMultiset(cmp, a[1..], b);
        assert a == [a[0]] + a[1..];
        assert Merge(cmp, a, b) == [a[0]] + Merge(cmp, a[1..], b);
        hide Merge;
      } else {
        MergeMultiset(cmp, a, b[1..]);
        assert b == [b[0]] + b[1..];
        assert Merge(cmp, a, b) == [b[0]] + Merge(cmp, a, b[1..]);
        hide Merge;
      }
    }
  }

  lemma MergeMember<N>(cmp: Cmp<N>, a: seq<N>, b: seq<N>, i: nat)
    requires i < |Merge(cmp, a, b)|
    ensures Merge(cmp, a, b)[i] in a || Merge(cmp, a, b)[i] in b
  {
    hide Merge;
    MergeMultiset(cmp, a, b);
    var x := Merge(cmp, a, b)[i];
    assert x in multiset(Merge(cmp, a, b));
  }

  /** The element taken first belongs before all others. */
  lemma HeadFromOlder<N>(cmp: Cmp<N>, pos: map<N, int>, all: set<N>, a: seq<N>, b: seq<N>, x: N)
    requires TotalPreorder(cmp, all) && Among(a, all) && Among(b, all) && |a| > 0 && |b| > 0
    requires Ordered(cmp, pos, a) && Ordered(cmp, pos, b) && Older(pos, a, b) && cmp(a[0], b[0]) <= 0
    requires x in a[1..] || x in b
    ensures Before(cmp, pos, a[0], x)
  {
    if x in a[1..] {
      var i :| 0 <= i < |a[1..]| && a[1..][i] == x;
      assert a[i + 1] == x;
    } else {
      var j :| 0 <= j < |b| && b[j] == x;
      assert j > 0 ==> Before(cmp, pos, b[0], b[j]);
    }
  }

  lemma HeadFromNewer<N>(cmp: Cmp<N>, pos: map<N, int>, all: set<N>, a: seq<N>, b: seq<N>, x: N)
    requires TotalPreorder(cmp, all) && Among(a, all) && Among(b, all) && |a| > 0 && |b| > 0
    requires Ordered(cmp, pos, a) && Ordered(cmp, pos, b) && Older(pos, a, b) && cmp(a[0], b[0]) > 0
    requires x in a || x in b[1..]
    ensures Before(cmp, pos, b[0], x)
  {
    if x in b[1..] {
      var i :| 0 <= i < |b[1..]| && b[1..][i] == x;
      assert b[i + 1] == x;
    } else {
      var j :| 0 <= j < |a| && a[j] == x;
      assert a[0] in all && b[0] in all && x in all;
      assert j > 0 ==> Before(cmp, pos, a[0], a[j]);
      assert cmp(a[0], x) <= 0 || j == 0;
      assert cmp(b[0], a[0]) <= 0;
      assert cmp(b[0], x) <= 0;
      assert cmp(x, b[0]) > 0;
      assert x in pos && b[0] in pos;
    }
  }

  lemma {:induction false} MergeOrdered<N>(cmp: Cmp<N>, pos: map<N, int>, all: set<N>, a: seq<N>, b: seq<N>)
    requires TotalPreorder(cmp, all) && Among(a, all) && Among(b, all)
    requires Ordered(cmp, pos, a) && Ordered(cmp, pos, b) && Older(pos, a, b)
    ensures Ordered(cmp, pos, Merge(cmp, a, b)) && Among(Merge(cmp, a, b), all)
    decreases |a| + |b|
  {
    hide TotalPreorder, Before;
    if |a| > 0 && |b| > 0 {
      if cmp(a[0], b[0]) <= 0 {
        MergeOrdered(cmp, pos, all, a[1..], b);
        var m := Merge(cmp, a[1..], b);
        forall i | 0 <= i < |m| ensures Before(cmp, pos, a[0], m[i]) {
          MergeMember(cmp, a[1..], b, i);
          HeadFromOlder(cmp, pos, all, a, b, m[i]);
        }
      } else {
        MergeOrdered(cmp, pos, all, a, b[1..]);
        var m := Merge(cmp, a, b[1..]);
        forall i | 0 <= i < |m| ensures Before(cmp, pos, b[0], m[i]) {
          MergeMember(cmp, a, b[1..], i);
          HeadFromNewer(cmp, pos, all, a, b, m[i]);
        }
      }
    }
  }

  /** Being older only depends on which elements there are. */
  lemma OlderMerge<N>(cmp: Cmp<N>, pos: map<N, int>, a: seq<N>, b: seq<N>, c: seq<N>)
    requires Older(pos, a, c) && Older(pos, b, c)
    ensures Older(pos, Merge(cmp, a, b), c)
  {
    hide Merge;
    var m := Merge(cmp, a, b);
    forall i, j | 0 <= i < |m| && 0 <= j < |c| ensures Earlier(pos, m[i], c[j]) {
      MergeMember(cmp, a, b, i);
    }
  }

  lemma {:induction false} NewerMerge<N>(cmp: Cmp<N>, pos: map<N, int>, a: seq<N>, b: seq<N>, c: seq<N>)
    requires Older(pos, c, a) && Older(pos, c, b)
    ensures Older(pos, c, Merge(cmp, a, b))
  {
    hide Merge;
    var m := Merge(cmp, a, b);
    forall i, j | 0 <= i < |c| && 0 <= j < |m| ensures Earlier(pos, c[i], m[j]) {
      MergeMember(cmp, a, b, j);
    }
  }
}
