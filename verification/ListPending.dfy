// lib/list_sort.c: the pending sublists on the heap. Each sublist is null-terminated along next; the
// heads of the sublists are chained along prev, newest first.

module ListPending {
  import opened Basics
  import opened StableMerge
  import opened MergeSchedule
  import opened PendingLists
  import opened ListMerge

  type Sublists = seq<Nodes>

  /** Sublists of distinct nodes, all of them taken from all. */
  ghost predicate Separate(lists: Sublists, all: set<ListNode>)
  {
    && (forall i :: 0 <= i < |lists| ==> |lists[i]| > 0 && NoRepeats(lists[i]) && Among(lists[i], all))
    && (forall i, j, a, b :: 0 <= i < j < |lists| && 0 <= a < |lists[i]| && 0 <= b < |lists[j]| ==>
      lists[i][a] != lists[j][b])
  }

  ghost predicate Chains(lists: Sublists, all: set<ListNode>)
    requires Separate(lists, all)
    reads all`next
  {
    forall i :: 0 <= i < |lists| ==> IsChain(lists[i])
  }

  ghost function HeadAt(lists: Sublists, i: nat): ListNode?
  {
    if i < |lists| && |lists[i]| > 0 then lists[i][0] else null
  }

  ghost predicate HeadsLinked(lists: Sublists, all: set<ListNode>)
    requires Separate(lists, all)
    reads all`prev
  {
    forall i :: 0 <= i < |lists| ==> lists[i][0].prev == HeadAt(lists, i + 1)
  }

  lemma OrderedNoRepeats(cmp: Cmp<ListNode>, pos: map<ListNode, int>, s: Nodes)
    requires Ordered(cmp, pos, s)
    ensures NoRepeats(s)
  {
    forall i, j | 0 <= i < j < |s| ensures s[i] != s[j] {
      assert Before(cmp, pos, s[i], s[j]);
    }
  }

  lemma SortedSeparate(cmp: Cmp<ListNode>, pos: map<ListNode, int>, all: set<ListNode>, lists: Sublists)
    requires Sorted(cmp, pos, all, lists) && forall i :: 0 <= i < |lists| ==> |lists[i]| > 0
    ensures Separate(lists, all)
  {
    forall i | 0 <= i < |lists| ensures NoRepeats(lists[i]) {
      OrderedNoRepeats(cmp, pos, lists[i]);
    }
    forall i, j, a, b | 0 <= i < j < |lists| && 0 <= a < |lists[i]| && 0 <= b < |lists[j]|
      ensures lists[i][a] != lists[j][b]
    {
      assert Older(pos, lists[j], lists[i]);
      assert Earlier(pos, lists[j][b], lists[i][a]);
    }
  }

  /** Follow prev once for every set bit below the lowest clear bit of count. */
  method FindSlot(pending: ListNode?, count: nat, ghost lists: Sublists, ghost all: set<ListNode>)
    returns (slot: ListNode?, at: ListNode?, bits: nat)
    requires HasSizes(lists, Sizes(count)) && Separate(lists, all) && HeadsLinked(lists, all)
    requires pending == HeadAt(lists, 0)
    ensures bits == HighBits(count) && at == HeadAt(lists, LowestClear(count))
    ensures slot == if LowestClear(count) == 0 then null else HeadAt(lists, LowestClear(count) - 1)
  {
    hide Sizes, Joined;
    Round(count);
    slot, at, bits := null, pending, count;
    ghost var i := 0;
    while bits % 2 == 1
      invariant i + LowestClear(bits) == LowestClear(count) && HighBits(bits) == HighBits(count)
      invariant at == HeadAt(lists, i) && slot == if i == 0 then null else HeadAt(lists, i - 1)
      decreases bits
    {
      assert i < |lists|;
      slot := at;
      at := at.prev;
      bits := bits / 2;
      i := i + 1;
    }
  }

  lemma NeighboursApart(lists: Sublists, all: set<ListNode>, k: nat)
    requires Separate(lists, all) && k + 1 < |lists|
    ensures NoRepeats(lists[k + 1] + lists[k])
  {
  }

  /** The merged sublist has no node in common with the others. */
  lemma OthersApart(cmp: Cmp<ListNode>, lists: Sublists, all: set<ListNode>, k: nat, i: nat, x: ListNode)
    requires Separate(lists, all) && k + 1 < |lists| && i < |lists| && i != k && i != k + 1 && x in lists[i]
    ensures x !in Elems(lists[k + 1] + lists[k]) && x != Merge(cmp, lists[k + 1], lists[k])[0]
  {
    hide Merge;
    var m := Merge(cmp, lists[k + 1], lists[k]);
    MergeMember(cmp, lists[k + 1], lists[k], 0);
    var a :| 0 <= a < |lists[i]| && lists[i][a] == x;
  }

  /** At worst 2:1. */
  ghost predicate Balanced(a: nat, b: nat)
  {
    a <= 2 * b && b <= 2 * a
  }

  /** merge() two neighbouring sublists, which is only ever done when their sizes are balanced; the
      others keep their links. */
  method MergeNeighbours(cmp: Cmp<ListNode>, older: ListNode, newer: ListNode,
    ghost k: nat, ghost lists: Sublists, ghost all: set<ListNode>)
    returns (m: ListNode)
    requires Separate(lists, all) && Chains(lists, all) && k + 1 < |lists|
    requires Separate(JoinAt(cmp, lists, k), all)
    requires older == lists[k + 1][0] && newer == lists[k][0] && Balanced(|lists[k + 1]|, |lists[k]|)
    modifies all`next
    ensures Chains(JoinAt(cmp, lists, k), all) && m == JoinAt(cmp, lists, k)[k][0]
  {
    hide Merge;
    NeighboursApart(lists, all, k);
    ghost var r: Sublists := JoinAt(cmp, lists, k);
    m := MergeLists(cmp, older, newer, lists[k + 1], lists[k]);
    forall i | 0 <= i < |r| ensures IsChain(r[i]) {
      if i != k {
        var j := if i < k then i else i + 1;
        assert r[i] == lists[j] && old(IsChain(lists[j]));
        forall a | 0 <= a < |lists[j]| ensures lists[j][a].next == old(lists[j][a].next) {
          OthersApart(cmp, lists, all, k, j, lists[j][a]);
          assert lists[j][a] in all;
        }

      }
    }
  }

  /** The heads after a join, in terms of those before. */
  lemma HeadsOfJoin(cmp: Cmp<ListNode>, lists: Sublists, all: set<ListNode>, k: nat, m: ListNode, i: nat)
    requires Separate(lists, all) && k + 1 < |lists| && m == JoinAt(cmp, lists, k)[k][0]
    ensures HeadAt(JoinAt(cmp, lists, k), i) ==
      if i < k then HeadAt(lists, i) else if i == k then m else HeadAt(lists, i + 1)
    ensures i < |lists| && i != k && i != k + 1 ==> HeadAt(lists, i) != m
    ensures k > 0 && i != k - 1 ==> HeadAt(lists, i) != HeadAt(lists, k - 1)
    ensures k > 0 ==> HeadAt(lists, k - 1) != null
  {
    hide Merge;
    if i < |lists| && i != k && i != k + 1 {
      OthersApart(cmp, lists, all, k, i, lists[i][0]);
    }
  }

  lemma HeadLink(lists: Sublists, all: set<ListNode>, i: nat)
    requires Separate(lists, all) && HeadsLinked(lists, all) && i < |lists|
    ensures HeadAt(lists, i) != null && HeadAt(lists, i) in all
    ensures HeadAt(lists, i).prev == HeadAt(lists, i + 1)
  {
  }

  lemma HeadInside(lists: Sublists, all: set<ListNode>, i: nat)
    requires Separate(lists, all) && i < |lists|
    ensures lists[i][0] in all && HeadAt(lists, i) == lists[i][0]
  {
  }

  lemma LinkHeads(lists: Sublists, all: set<ListNode>)
    requires Separate(lists, all)
    requires forall i: nat :: i < |lists| ==>
      HeadAt(lists, i) != null && HeadAt(lists, i).prev == HeadAt(lists, i + 1)
    ensures HeadsLinked(lists, all)
  {
    forall i | 0 <= i < |lists| ensures lists[i][0].prev == HeadAt(lists, i + 1) {
      assert HeadAt(lists, i) == lists[i][0];
    }
  }

  /** Where sublists other than those two keep their links, the heads of the joined sublists are linked. */
  lemma Relinked(cmp: Cmp<ListNode>, lists: Sublists, all: set<ListNode>, k: nat, m: ListNode)
    requires Separate(lists, all) && k + 1 < |lists| && Separate(JoinAt(cmp, lists, k), all)
    requires m == JoinAt(cmp, lists, k)[k][0] && m.prev == HeadAt(lists, k + 2)
    requires k > 0 ==> HeadAt(lists, k - 1) != null && HeadAt(lists, k - 1).prev == m
    requires forall j: nat :: j < |lists| && j + 1 != k && j != k && j != k + 1 ==>
      HeadAt(lists, j) != null && HeadAt(lists, j).prev == HeadAt(lists, j + 1)
    ensures HeadsLinked(JoinAt(cmp, lists, k), all)
  {
    var r: Sublists := JoinAt(cmp, lists, k);
    assert |r| == |lists| - 1;
    hide Merge, NoRepeats, Among, JoinAt, Separate, HeadAt, HeadsLinked;
    forall i: nat | i < |r| ensures HeadAt(r, i) != null && HeadAt(r, i).prev == HeadAt(r, i + 1) {
      HeadsOfJoin(cmp, lists, all, k, m, i);
      HeadsOfJoin(cmp, lists, all, k, m, i + 1);
    }
    LinkHeads(r, all);
  }

  /** Put the merged sublist m in the place of the two it was made from. */
  method Install(cmp: Cmp<ListNode>, pending: ListNode, slot: ListNode?, m: ListNode, beyond: ListNode?,
    ghost k: nat, ghost lists: Sublists, ghost all: set<ListNode>)
    returns (first: ListNode)
    requires Separate(lists, all) && HeadsLinked(lists, all) && k + 1 < |lists|
    requires Separate(JoinAt(cmp, lists, k), all)
    requires pending == HeadAt(lists, 0) && m == JoinAt(cmp, lists, k)[k][0] && beyond == HeadAt(lists, k + 2)
    requires slot == if k == 0 then null else HeadAt(lists, k - 1)
    modifies all`prev
    ensures HeadsLinked(JoinAt(cmp, lists, k), all) && first == HeadAt(JoinAt(cmp, lists, k), 0)
  {
    hide Merge, NoRepeats, Among, JoinAt, Separate, HeadAt, HeadsLinked;
    HeadsOfJoin(cmp, lists, all, k, m, 0);
    HeadInside(JoinAt(cmp, lists, k), all, k);
    forall j: nat | j < |lists|
      ensures HeadAt(lists, j) != null && HeadAt(lists, j) in all && HeadAt(lists, j).prev == HeadAt(lists, j + 1)
      ensures j != k && j != k + 1 ==> HeadAt(lists, j) != m
      ensures j + 1 != k ==> k == 0 || HeadAt(lists, j) != HeadAt(lists, k - 1)
    {
      HeadLink(lists, all, j);
      HeadsOfJoin(cmp, lists, all, k, m, j);
    }
    first := pending;
    m.prev := beyond;
    if slot == null {
      first := m;
    } else {
      slot.prev := m;
    }
    Relinked(cmp, lists, all, k, m);
  }

  /** merge() two neighbouring sublists and install the result in their place. */
  method JoinSublists(cmp: Cmp<ListNode>, pending: ListNode, slot: ListNode?, at: ListNode,
    ghost k: nat, ghost lists: Sublists, ghost all: set<ListNode>)
    returns (first: ListNode)
    requires Separate(lists, all) && Chains(lists, all) && HeadsLinked(lists, all) && k + 1 < |lists|
    requires Separate(JoinAt(cmp, lists, k), all)
    requires pending == HeadAt(lists, 0) && at == HeadAt(lists, k)
    requires slot == if k == 0 then null else HeadAt(lists, k - 1)
    requires |lists[k + 1]| == |lists[k]|
    modifies all
    ensures Chains(JoinAt(cmp, lists, k), all) && HeadsLinked(JoinAt(cmp, lists, k), all)
    ensures first == HeadAt(JoinAt(cmp, lists, k), 0)
  {
    hide Merge, IsChain, JoinAt;
    HeadLink(lists, all, k);
    HeadLink(lists, all, k + 1);
    var b := at.prev;
    var m := MergeNeighbours(cmp, b, at, k, lists, all);
    first := Install(cmp, pending, slot, m, b.prev, k, lists, all);
  }
}
