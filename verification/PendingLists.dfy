// The pending sublists of list_sort (lib/list_sort.c) as values: joining neighbours keeps them
// sorted, ordered by age, and keeps their contents.

module PendingLists {
  import opened StableMerge
  import opened MergeSchedule

  /** Each sublist is stably sorted, and the sublists get older from the front to the back. */
  ghost predicate Sorted<N>(cmp: Cmp<N>, pos: map<N, int>, all: set<N>, lists: seq<seq<N>>)
  {
    && (forall i :: 0 <= i < |lists| ==> Ordered(cmp, pos, lists[i]) && Among(lists[i], all))
    && (forall i, j :: 0 <= i < j < |lists| ==> Older(pos, lists[j], lists[i]))
  }

  /** Merge sublist k into the older sublist k + 1. */
  ghost function JoinAt<N>(cmp: Cmp<N>, lists: seq<seq<N>>, k: nat): (r: seq<seq<N>>)
    requires k + 1 < |lists|
    ensures |r| == |lists| - 1
    ensures forall i :: 0 <= i < |r| ==>
      r[i] == if i < k then lists[i] else if i == k then Merge(cmp, lists[k + 1], lists[k]) else lists[i + 1]
  {
    lists[..k] + [Merge(cmp, lists[k + 1], lists[k])] + lists[k + 2..]
  }

  lemma JoinSorted<N>(cmp: Cmp<N>, pos: map<N, int>, all: set<N>, lists: seq<seq<N>>, k: nat)
    requires TotalPreorder(cmp, all) && Sorted(cmp, pos, all, lists) && k + 1 < |lists|
    ensures Sorted(cmp, pos, all, JoinAt(cmp, lists, k))
  {
    hide TotalPreorder, Ordered, Older, Among, Merge;
    var r := JoinAt(cmp, lists, k);
    MergeOrdered(cmp, pos, all, lists[k + 1], lists[k]);
    forall i, j | 0 <= i < j < |r| ensures Older(pos, r[j], r[i]) {
      if i == k {
        assert r[j] == lists[j + 1];
        NewerMerge(cmp, pos, lists[k + 1], lists[k], lists[j + 1]);
      } else if j == k {
        assert r[i] == lists[i];
        OlderMerge(cmp, pos, lists[k + 1], lists[k], lists[i]);
      } else {
        assert r[i] == lists[if i < k then i else i + 1];
        assert r[j] == lists[if j < k then j else j + 1];
      }
    }
  }

  lemma PushSorted<N>(cmp: Cmp<N>, pos: map<N, int>, all: set<N>, lists: seq<seq<N>>, x: N)
    requires Sorted(cmp, pos, all, lists) && x in all
    requires forall i :: 0 <= i < |lists| ==> Older(pos, lists[i], [x])
    ensures Sorted(cmp, pos, all, [[x]] + lists)
  {
    hide Older;
    var r := [[x]] + lists;
    assert forall i :: 0 < i < |r| ==> r[i] == lists[i - 1];
  }

  ghost function Contents<N>(lists: seq<seq<N>>): multiset<N>
  {
    if |lists| == 0 then multiset{} else multiset(lists[0]) + Contents(lists[1..])
  }

  lemma {:induction false} ContentsJoin<N>(cmp: Cmp<N>, lists: seq<seq<N>>, k: nat)
    requires k + 1 < |lists|
    ensures Contents(JoinAt(cmp, lists, k)) == Contents(lists)
  {
    var r := JoinAt(cmp, lists, k);
    if k == 0 {
      MergeMultiset(cmp, lists[1], lists[0]);
      assert r[1..] == lists[1..][1..];
    } else {
      ContentsJoin(cmp, lists[1..], k - 1);
      assert r[1..] == JoinAt(cmp, lists[1..], k - 1);
    }
  }

  lemma {:induction false} ContentsMember<N>(lists: seq<seq<N>>, i: nat, x: N)
    requires i < |lists| && x in lists[i]
    ensures x in Contents(lists)
  {
    if i > 0 {
      ContentsMember(lists[1..], i - 1, x);
    }
  }

  lemma ContentsPush<N>(lists: seq<seq<N>>, x: N)
    ensures Contents([[x]] + lists) == Contents(lists) + multiset{x}
  {
    assert ([[x]] + lists)[1..] == lists;
  }

  ghost predicate HasSizes<N>(lists: seq<seq<N>>, sizes: seq<nat>)
  {
    |lists| == |sizes| && forall i :: 0 <= i < |sizes| ==> |lists[i]| == sizes[i]
  }

  lemma JoinSizes<N>(cmp: Cmp<N>, lists: seq<seq<N>>, sizes: seq<nat>, k: nat)
    requires HasSizes(lists, sizes) && k + 1 < |lists|
    ensures HasSizes(JoinAt(cmp, lists, k), Joined(sizes, k))
  {
    var r, t := JoinAt(cmp, lists, k), Joined(sizes, k);
    forall i | 0 <= i < |t| ensures |r[i]| == t[i] {
      assert t[i] == if i < k then sizes[i] else if i == k then sizes[k] + sizes[k + 1] else sizes[i + 1];
    }
  }

  lemma PushSizes<N>(lists: seq<seq<N>>, sizes: seq<nat>, x: N)
    requires HasSizes(lists, sizes)
    ensures HasSizes([[x]] + lists, [1] + sizes)
  {
    var r, t := [[x]] + lists, [1] + sizes;
    assert forall i :: 0 < i < |r| ==> r[i] == lists[i - 1] && t[i] == sizes[i - 1];
  }

  /** What the pending sublists look like once the first count elements of the input are in them. */
  ghost predicate Pending<N>(cmp: Cmp<N>, pos: map<N, int>, input: seq<N>, count: nat, lists: seq<seq<N>>)
    requires count <= |input|
  {
    && Sorted(cmp, pos, Elems(input), lists)
    && HasSizes(lists, Sizes(count))
    && Contents(lists) == multiset(input[..count])
  }

  /** pos gives each element its place in the input. */
  ghost predicate Positions<N>(pos: map<N, int>, input: seq<N>)
  {
    forall i :: 0 <= i < |input| ==> input[i] in pos && pos[input[i]] == i
  }

  /** The sublists after the merge, if any, at this count. */
  ghost function AfterMerge<N>(cmp: Cmp<N>, count: nat, lists: seq<seq<N>>): seq<seq<N>>
    requires HasSizes(lists, Sizes(count))
  {
    Round(count);
    if HighBits(count) == 0 then lists else JoinAt(cmp, lists, LowestClear(count))
  }

  lemma AllOlder<N>(pos: map<N, int>, input: seq<N>, count: nat, lists: seq<seq<N>>, i: nat)
    requires Positions(pos, input) && count < |input| && Contents(lists) == multiset(input[..count]) && i < |lists|
    ensures Older(pos, lists[i], [input[count]])
  {
    forall j | 0 <= j < |lists[i]| ensures Earlier(pos, lists[i][j], input[count]) {
      ContentsMember(lists, i, lists[i][j]);
      assert lists[i][j] in input[..count];
    }
  }

  /** One round keeps the invariant: merge at the lowest clear bit, then push the next element. */
  lemma RoundKeeps<N>(cmp: Cmp<N>, pos: map<N, int>, input: seq<N>, count: nat, lists: seq<seq<N>>)
    requires TotalPreorder(cmp, Elems(input)) && Positions(pos, input) && count < |input|
    requires Pending(cmp, pos, input, count, lists)
    ensures Pending(cmp, pos, input, count + 1, [[input[count]]] + AfterMerge(cmp, count, lists))
  {
    hide TotalPreorder, Positions, Sorted, HasSizes, Contents, Sizes, LowestClear, HighBits, JoinAt, Joined;
    var all := Elems(input);
    var x, r := input[count], AfterMerge(cmp, count, lists);
    Round(count);
    if HighBits(count) != 0 {
      var k := LowestClear(count);
      SameLength(lists, Sizes(count));
      JoinSorted(cmp, pos, all, lists, k);
      ContentsJoin(cmp, lists, k);
      JoinSizes(cmp, lists, Sizes(count), k);
    }
    forall i | 0 <= i < |r| ensures Older(pos, r[i], [x]) {
      AllOlder(pos, input, count, r, i);
    }
    PushSorted(cmp, pos, all, r, x);
    ContentsPush(r, x);
    assert input[..count + 1] == input[..count] + [x];
    PushSizes(r, if HighBits(count) == 0 then Sizes(count) else Joined(Sizes(count), LowestClear(count)), x);
  }

  lemma SameLength<N>(lists: seq<seq<N>>, sizes: seq<nat>)
    requires HasSizes(lists, sizes)
    ensures |lists| == |sizes|
  {
  }
}
