// lib/list_sort.c: list_sort() as a whole, from a circular doubly linked list to a sorted one.

module ListSort {
  import opened Basics
  import opened StableMerge
  import opened MergeSchedule
  import opened PendingLists
  import opened ListMerge
  import opened ListPending

  /* -------------------------------------------------- the loop over the input */

  ghost predicate OnHeap(lists: Sublists, all: set<ListNode>, pending: ListNode?)
    reads all
  {
    Separate(lists, all) && Chains(lists, all) && HeadsLinked(lists, all) && pending == HeadAt(lists, 0)
  }

  /** Sublists with the first count elements as their contents share no nodes. */
  lemma Settled(cmp: Cmp<ListNode>, pos: map<ListNode, int>, input: Nodes, count: nat, lists: Sublists)
    requires count <= |input| && Sorted(cmp, pos, Elems(input), lists)
    requires Contents(lists) == multiset(input[..count])
    requires forall i :: 0 <= i < |lists| ==> |lists[i]| > 0
    ensures Separate(lists, Elems(input[..count]))
  {
    hide Contents, Sorted;
    SortedSeparate(cmp, pos, Elems(input), lists);
    forall i, a | 0 <= i < |lists| && 0 <= a < |lists[i]| ensures lists[i][a] in Elems(input[..count]) {
      ContentsMember(lists, i, lists[i][a]);
      assert lists[i][a] in input[..count];
    }
  }

  lemma SizesPositive(lists: Sublists, count: nat)
    requires HasSizes(lists, Sizes(count))
    ensures forall i :: 0 <= i < |lists| ==> |lists[i]| > 0
  {
    hide Sizes;
    forall i | 0 <= i < |lists| ensures |lists[i]| > 0 {
      SizesArePowers(count, i);
    }
  }

  lemma PendingSeparate(cmp: Cmp<ListNode>, pos: map<ListNode, int>, input: Nodes, count: nat, lists: Sublists)
    requires TotalPreorder(cmp, Elems(input)) && count <= |input| && Pending(cmp, pos, input, count, lists)
    ensures Separate(lists, Elems(input[..count]))
    ensures Separate(AfterMerge(cmp, count, lists), Elems(input[..count]))
  {
    hide Sorted, Sizes, Contents, Elems, TotalPreorder, Separate;
    SizesPositive(lists, count);
    Settled(cmp, pos, input, count, lists);
    Round(count);
    if HighBits(count) != 0 {
      var k := LowestClear(count);
      JoinSorted(cmp, pos, Elems(input), lists, k);
      ContentsJoin(cmp, lists, k);
      Settled(cmp, pos, input, count, JoinAt(cmp, lists, k));
    }
  }

  /** The first half of a round: the merge that the bits of count call for. */
  method MergePending(cmp: Cmp<ListNode>, pending: ListNode?, count: nat, ghost lists: Sublists,
    ghost all: set<ListNode>)
    returns (first: ListNode?)
    requires HasSizes(lists, Sizes(count)) && OnHeap(lists, all, pending)
    requires Separate(AfterMerge(cmp, count, lists), all)
    modifies all
    ensures OnHeap(AfterMerge(cmp, count, lists), all, first)
  {
    hide Sizes, Separate, Chains, HeadsLinked;
    Round(count);
    var slot, at, bits := FindSlot(pending, count, lists, all);
    first := pending;
    if bits != 0 {
      HeadInside(lists, all, 0);
      HeadInside(lists, all, LowestClear(count));
      first := JoinSublists(cmp, pending, slot, at, LowestClear(count), lists, all);
    }
  }

  lemma PushSeparate(lists: Sublists, all: set<ListNode>, x: ListNode)
    requires Separate(lists, all) && x !in all
    ensures Separate([[x]] + lists, all + {x})
  {
    var r: Sublists := [[x]] + lists;
    forall i | 0 <= i < |r| ensures |r[i]| > 0 && NoRepeats(r[i]) && Among(r[i], all + {x}) {
      assert i > 0 ==> r[i] == lists[i - 1];
    }
    forall i, j, a, b | 0 <= i < j < |r| && 0 <= a < |r[i]| && 0 <= b < |r[j]| ensures r[i][a] != r[j][b] {
      assert r[j] == lists[j - 1] && r[j][b] in all;
      assert i > 0 ==> r[i] == lists[i - 1];
    }
  }

  lemma PushHeads(lists: Sublists, all: set<ListNode>, x: ListNode)
    requires Separate(lists, all) && HeadsLinked(lists, all) && x.prev == HeadAt(lists, 0)
    requires Separate([[x]] + lists, all + {x})
    ensures HeadsLinked([[x]] + lists, all + {x})
  {
    hide Separate;
    var r: Sublists := [[x]] + lists;
    forall i: nat | i < |r| ensures HeadAt(r, i) != null && HeadAt(r, i).prev == HeadAt(r, i + 1) {
      if i > 0 {
        assert r[i] == lists[i - 1];
        HeadLink(lists, all, i - 1);
      }
      assert i + 1 < |r| ==> r[i + 1] == lists[i];
    }
    LinkHeads(r, all + {x});
  }

  lemma PushChains(lists: Sublists, all: set<ListNode>, x: ListNode)
    requires Separate(lists, all) && Chains(lists, all) && x.next == null
    requires Separate([[x]] + lists, all + {x})
    ensures Chains([[x]] + lists, all + {x})
  {
    hide Separate;
    var r: Sublists := [[x]] + lists;
    forall i | 0 <= i < |r| ensures IsChain(r[i]) {
      assert i > 0 ==> r[i] == lists[i - 1];
    }
  }

  /** The second half of a round: move the next element to the front of the pending sublists. */
  method PushElement(pending: ListNode?, x: ListNode, ghost lists: Sublists, ghost all: set<ListNode>,
    ghost rest: Nodes)
    returns (first: ListNode, list: ListNode?)
    requires OnHeap(lists, all, pending) && |rest| > 0 && x == rest[0] && x !in all
    requires IsChain(rest) && NoRepeats(rest)
    modifies x
    ensures OnHeap([[x]] + lists, all + {x}, first)
    ensures IsChain(rest[1..]) && list == if |rest| > 1 then rest[1] else null
  {
    hide IsChain, Separate, Chains, HeadsLinked;
    ChainTail(rest);
    x.prev := pending;
    first := x;
    list := x.next;
    x.next := null;
    assert x !in Elems(rest[1..]);
    assert IsChain(rest[1..]);
    PushSeparate(lists, all, x);
    PushChains(lists, all, x);
    PushHeads(lists, all, x);
  }

  lemma DropNext(input: Nodes, count: nat)
    requires count < |input| && NoRepeats(input)
    ensures input[count..][1..] == input[count + 1..] && NoRepeats(input[count..])
    ensures Elems(input[..count + 1]) == Elems(input[..count]) + {input[count]}
    ensures input[count] !in Elems(input[..count])
    ensures Elems(input[..count]) !! Elems(input[count..]) && Elems(input[count..]) <= Elems(input)
    ensures Elems(input[..count]) <= Elems(input) && input[count] in Elems(input)
  {
    assert input[..count + 1] == input[..count] + [input[count]];
  }

  /** Turn a null-terminated list into sorted pending sublists, one element at a time. */
  method MakePending(cmp: Cmp<ListNode>, start: ListNode, ghost pos: map<ListNode, int>, ghost input: Nodes)
    returns (pending: ListNode, ghost lists: Sublists)
    requires TotalPreorder(cmp, Elems(input)) && Positions(pos, input) && NoRepeats(input)
    requires |input| > 0 && start == input[0] && IsChain(input)
    modifies Elems(input)
    ensures Pending(cmp, pos, input, |input|, lists) && OnHeap(lists, Elems(input), pending)
  {
    hide TotalPreorder, Positions, NoRepeats, IsChain, Pending, OnHeap, AfterMerge, Sizes;
    var list: ListNode?, first: ListNode?, count := start, null, 0;
    ghost var held: set<ListNode> := {};
    lists := [];
    NothingPending(cmp, pos, input);
    assert input[0..] == input;
    while list != null
      invariant 0 <= count <= |input|
      invariant Pending(cmp, pos, input, count, lists)
      invariant held == Elems(input[..count]) && OnHeap(lists, held, first)
      invariant IsChain(input[count..]) && list == if count < |input| then input[count] else null
      invariant count > 0 ==> first != null
      decreases |input| - count
    {
      DropNext(input, count);
      PendingSeparate(cmp, pos, input, count, lists);
      RoundKeeps(cmp, pos, input, count, lists);
      PendingSizes(cmp, pos, input, count, lists);
      first := MergePending(cmp, first, count, lists, held);
      lists := AfterMerge(cmp, count, lists);
      first, list := PushElement(first, list, lists, held, input[count..]);
      lists := [[input[count]]] + lists;
      held := held + {input[count]};
      count := count + 1;
    }
    assert input[..count] == input;
    pending := first;
  }

  lemma PendingSizes(cmp: Cmp<ListNode>, pos: map<ListNode, int>, input: Nodes, count: nat, lists: Sublists)
    requires count <= |input| && Pending(cmp, pos, input, count, lists)
    ensures HasSizes(lists, Sizes(count))
  {
  }

  lemma NothingPending(cmp: Cmp<ListNode>, pos: map<ListNode, int>, input: Nodes)
    ensures Pending(cmp, pos, input, 0, []) && OnHeap([], {}, null) && Elems(input[..0]) == {}
  {
    assert Sizes(0) == [];
  }

  /* -------------------------------------------------- the final merges */

  /** The sizes once the newest j + 1 sublists are one. */
  function FinalSizes(sizes: seq<nat>, j: nat): seq<nat>
    requires j < |sizes|
  {
    [Sum(sizes[..j + 1])] + sizes[j + 1..]
  }

  lemma {:induction false} SumLast(s: seq<nat>)
    requires |s| > 0
    ensures Sum(s) == Sum(s[..|s| - 1]) + s[|s| - 1]
  {
    if |s| > 1 {
      SumLast(s[1..]);
      assert s[1..][..|s| - 2] == s[..|s| - 1][1..];
    }
  }

  lemma FinalSizesStep(sizes: seq<nat>, j: nat)
    requires j + 1 < |sizes|
    ensures Joined(FinalSizes(sizes, j), 0) == FinalSizes(sizes, j + 1)
  {
    var t := sizes[..j + 2];
    SumLast(t);
    assert t[..|t| - 1] == sizes[..j + 1];
    hide Sum;
    var a, b := Joined(FinalSizes(sizes, j), 0), FinalSizes(sizes, j + 1);
    forall i | 0 <= i < |a| ensures a[i] == b[i] {
    }
  }

  lemma FinalBalance(lists: Sublists, count: nat, j: nat)
    requires j + 1 < |Sizes(count)| && HasSizes(lists, FinalSizes(Sizes(count), j))
    ensures |lists| > 1 && Balanced(|lists[1]|, |lists[0]|)
  {
    hide Sizes, Sum;
    FinalMergesBalanced(count, j + 1);
    assert FinalSizes(Sizes(count), j)[1] == Sizes(count)[j + 1];
  }

  lemma FinalStart(lists: Sublists, sizes: seq<nat>)
    requires HasSizes(lists, sizes) && |sizes| > 0
    ensures HasSizes(lists, FinalSizes(sizes, 0))
  {
    assert sizes[..1] == [sizes[0]];
    assert Sum([sizes[0]]) == sizes[0];
    assert FinalSizes(sizes, 0) == sizes;
  }

  lemma TailHeads(lists: Sublists, i: nat)
    requires |lists| > 0
    ensures HeadAt(lists[1..], i) == HeadAt(lists, i + 1)
  {
  }

  lemma SeparateTail(lists: Sublists, all: set<ListNode>)
    requires Separate(lists, all) && |lists| > 0
    ensures Separate(lists[1..], all)
  {
    var t := lists[1..];
    assert forall i :: 0 <= i < |t| ==> t[i] == lists[i + 1];
  }

  lemma TailLinked(lists: Sublists, all: set<ListNode>)
    requires Separate(lists, all) && HeadsLinked(lists, all) && |lists| > 0
    ensures Separate(lists[1..], all) && HeadsLinked(lists[1..], all)
  {
    var t := lists[1..];
    SeparateTail(lists, all);
    forall i: nat | i < |t| ensures HeadAt(t, i) != null && HeadAt(t, i).prev == HeadAt(t, i + 1) {
      HeadLink(lists, all, i + 1);
      TailHeads(lists, i);
      TailHeads(lists, i + 1);
    }
    LinkHeads(t, all);
  }

  /** What holds of the sublists before and after each of the final merges. */
  ghost predicate Closing(cmp: Cmp<ListNode>, pos: map<ListNode, int>, input: Nodes, j: nat, lists: Sublists)
  {
    && j + 1 < |Sizes(|input|)| && HasSizes(lists, FinalSizes(Sizes(|input|), j))
    && Sorted(cmp, pos, Elems(input), lists) && Contents(lists) == multiset(input)
    && Separate(lists, Elems(input))
  }

  lemma ClosingStart(cmp: Cmp<ListNode>, pos: map<ListNode, int>, input: Nodes, lists: Sublists)
    requires TotalPreorder(cmp, Elems(input)) && |input| > 1 && Pending(cmp, pos, input, |input|, lists)
    ensures Closing(cmp, pos, input, 0, lists)
  {
    hide TotalPreorder, Sorted, Contents, Separate, Sizes;
    assert input[..|input|] == input;
    PendingSeparate(cmp, pos, input, |input|, lists);
    FinalStart(lists, Sizes(|input|));
  }

  lemma ClosingStep(cmp: Cmp<ListNode>, pos: map<ListNode, int>, input: Nodes, j: nat, lists: Sublists)
    requires TotalPreorder(cmp, Elems(input)) && Closing(cmp, pos, input, j, lists)
    ensures |lists| == |Sizes(|input|)| - j && Balanced(|lists[1]|, |lists[0]|)
    ensures |lists| > 2 ==> Closing(cmp, pos, input, j + 1, JoinAt(cmp, lists, 0))
  {
    hide TotalPreorder, Sorted, Contents, Separate, Sizes, Balanced, Sum, JoinAt, Joined;
    FinalBalance(lists, |input|, j);
    if |lists| > 2 {
      var r := JoinAt(cmp, lists, 0);
      JoinSorted(cmp, pos, Elems(input), lists, 0);
      ContentsJoin(cmp, lists, 0);
      JoinSizes(cmp, lists, FinalSizes(Sizes(|input|), j), 0);
      FinalSizesStep(Sizes(|input|), j);
      assert input[..|input|] == input;
      JoinedSizes(cmp, lists, Elems(input));
      Settled(cmp, pos, input, |input|, r);
    }
  }

  lemma JoinedSizes(cmp: Cmp<ListNode>, lists: Sublists, all: set<ListNode>)
    requires Separate(lists, all) && |lists| > 1
    ensures forall i :: 0 <= i < |lists| - 1 ==> |JoinAt(cmp, lists, 0)[i]| > 0
    ensures JoinAt(cmp, lists, 0)[1..] == lists[1..][1..]
  {
  }

  /** Merge the pending sublists from the newest to the oldest until only two are left. */
  method MergeAll(cmp: Cmp<ListNode>, start: ListNode, ghost pos: map<ListNode, int>, ghost input: Nodes,
    ghost lists0: Sublists)
    returns (pending: ListNode, list: ListNode, ghost j: nat, ghost lists: Sublists)
    requires TotalPreorder(cmp, Elems(input)) && |input| > 1
    requires Pending(cmp, pos, input, |input|, lists0) && OnHeap(lists0, Elems(input), start)
    modifies Elems(input)`next
    ensures Closing(cmp, pos, input, j, lists) && |lists| == 2 && Chains(lists, Elems(input))
    ensures pending == HeadAt(lists, 1) && list == HeadAt(lists, 0)
  {
    hide TotalPreorder, Pending, Sizes, Sorted, Contents, HasSizes, FinalSizes, Separate, Chains, HeadsLinked, JoinAt;
    lists, j := lists0, 0;
    ghost var all := Elems(input);
    list := start;
    ClosingStart(cmp, pos, input, lists);
    ClosingStep(cmp, pos, input, 0, lists);
    HeadLink(lists, all, 0);
    HeadInside(lists, all, 1);
    TailLinked(lists, all);
    pending := start.prev;
    while true
      invariant Closing(cmp, pos, input, j, lists) && Chains(lists, all)
      invariant |lists| > 1 && Separate(lists[1..], all) && HeadsLinked(lists[1..], all)
      invariant list == HeadAt(lists, 0) && pending == HeadAt(lists, 1)
      decreases |lists|
    {
      ClosingStep(cmp, pos, input, j, lists);
      HeadInside(lists, all, 0);
      HeadInside(lists, all, 1);
      TailHeads(lists, 0);
      TailHeads(lists, 1);
      HeadLink(lists[1..], all, 0);
      var next := pending.prev;
      if next == null {
        NoThird(lists, all);
        return;
      }
      TailLinked(lists[1..], all);
      JoinedSizes(cmp, lists, all);
      list := MergeNeighbours(cmp, pending, list, 0, lists, all);
      pending := next;
      lists, j := JoinAt(cmp, lists, 0), j + 1;
      HeadInside(lists, all, 0);
      HeadInside(lists, all, 1);
    }
  }

  lemma NoThird(lists: Sublists, all: set<ListNode>)
    requires Separate(lists, all) && HeadAt(lists, 2) == null
    ensures |lists| <= 2
  {
  }

  /* -------------------------------------------------- list_sort */

  /** Where each node stands in the list. */
  ghost function Places(input: Nodes): (pos: map<ListNode, int>)
    ensures forall x :: x in pos ==> x in input
    ensures NoRepeats(input) ==> Positions(pos, input)
  {
    if |input| == 0 then map[] else
      var last := |input| - 1;
      var before := Places(input[..last]);
      assert forall i :: 0 <= i < last ==> input[..last][i] == input[i];
      before[input[last] := last]
  }

  /** The same nodes, in ascending order, nodes that compare equal in their old order. */
  ghost predicate StablySorted(cmp: Cmp<ListNode>, input: Nodes, s: Nodes)
  {
    multiset(s) == multiset(input) && Ordered(cmp, Places(input), s)
  }

  lemma LastMerge(cmp: Cmp<ListNode>, pos: map<ListNode, int>, input: Nodes, j: nat, lists: Sublists)
    requires TotalPreorder(cmp, Elems(input)) && Closing(cmp, pos, input, j, lists) && |lists| == 2
    ensures Ordered(cmp, pos, Merge(cmp, lists[1], lists[0]))
    ensures multiset(Merge(cmp, lists[1], lists[0])) == multiset(input)
  {
    hide TotalPreorder, Ordered;
    MergeOrdered(cmp, pos, Elems(input), lists[1], lists[0]);
    MergeMultiset(cmp, lists[1], lists[0]);
    assert Contents(lists[1..]) == multiset(lists[1]) + Contents(lists[1..][1..]);
    assert lists[1..][1..] == [];
  }

  lemma ApartFromHead(lists: Sublists, all: set<ListNode>, head: ListNode)
    requires Separate(lists, all) && |lists| == 2 && head !in all
    ensures Apart([head], lists[1], lists[0])
  {
  }

  /** Cut the ring open: its nodes become a null-terminated list. */
  method CutRing(head: ListNode, tail: ListNode, ghost input: Nodes)
    requires IsRing(head, input) && |input| > 0 && tail == head.prev
    modifies tail`next
    ensures IsChain(input) && NoRepeats(input) && head !in input
  {
    ghost var c := [head] + input;
    assert c[0] == head && forall i :: 0 <= i < |input| ==> input[i] == c[i + 1];
    tail.next := null;
  }

  lemma RingEnds(head: ListNode, input: Nodes)
    requires IsRing(head, input)
    ensures head.next == (if |input| == 0 then head else input[0])
    ensures head.prev == (if |input| == 0 then head else input[|input| - 1])
    ensures head.next == head.prev <==> |input| <= 1
  {
    var c := [head] + input;
    assert |input| > 0 ==> c[1] == input[0] && c[0].next == c[0 + 1];
    assert |input| > 1 ==> c[1] != c[|input|];
  }

  /** list_sort(): the ring through head is sorted in place. */
  method Sort(cmp: Cmp<ListNode>, head: ListNode, ghost input: Nodes) returns (ghost sorted: Nodes)
    requires IsRing(head, input) && TotalPreorder(cmp, Elems(input))
    modifies head, Elems(input)
    ensures IsRing(head, sorted) && StablySorted(cmp, input, sorted)
  {
    hide TotalPreorder, NoRepeats, DoublyLinked, IsRing, Positions, IsChain, OnHeap, Pending, Sizes, Closing;
    var list := head.next;
    RingEnds(head, input);
    if list == head.prev {
      return input;
    }
    CutRing(head, head.prev, input);
    ghost var pos := Places(input);
    var pending, lists := MakePending(cmp, list, pos, input);
    var older, newer, j, two := MergeAll(cmp, pending, pos, input, lists);
    LastMerge(cmp, pos, input, j, two);
    assert Separate(two, Elems(input)) by {
      ClosingSeparate(cmp, pos, input, j, two);
    }
    ApartFromHead(two, Elems(input), head);
    MergeFinal(cmp, head, older, newer, two[1], two[0]);
    sorted := Merge(cmp, two[1], two[0]);
  }

  lemma ClosingSeparate(cmp: Cmp<ListNode>, pos: map<ListNode, int>, input: Nodes, j: nat, lists: Sublists)
    requires Closing(cmp, pos, input, j, lists)
    ensures Separate(lists, Elems(input))
  {
  }
}
