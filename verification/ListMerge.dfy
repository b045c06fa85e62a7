// lib/list_sort.c: merge() on null-terminated lists that are linked in place.

module ListMerge {
  import opened Basics
  import opened StableMerge

  class ListNode {
    var next: ListNode?
    var prev: ListNode?

    constructor ()
    {
      next, prev := null, null;
    }
  }

  type Nodes = seq<ListNode>

  /** Consecutive nodes are linked by next. */
  ghost predicate Linked(s: Nodes)
    reads Elems(s)`next
  {
    forall i :: 0 <= i < |s| - 1 ==> s[i].next == s[i + 1]
  }

  /** A null-terminated list of exactly these nodes. */
  ghost predicate IsChain(s: Nodes)
    reads Elems(s)`next
  {
    Linked(s) && (|s| > 0 ==> s[|s| - 1].next == null)
  }

  /* ---------------------------------------------------------------- merge */

  lemma ChainTail(s: Nodes)
    requires IsChain(s) && |s| > 0
    ensures IsChain(s[1..]) && s[0].next == if |s| > 1 then s[1] else null
  {
    var t := s[1..];
    assert forall i :: 0 <= i < |t| ==> t[i] == s[i + 1];
  }

  /** Three lists without a node in common. */
  ghost predicate Apart(done: Nodes, a: Nodes, b: Nodes)
  {
    && NoRepeats(done) && NoRepeats(a) && NoRepeats(b)
    && (forall i, j :: 0 <= i < |done| && 0 <= j < |a| ==> done[i] != a[j])
    && (forall i, j :: 0 <= i < |done| && 0 <= j < |b| ==> done[i] != b[j])
    && (forall i, j :: 0 <= i < |a| && 0 <= j < |b| ==> a[i] != b[j])
  }

  lemma ApartStart(a: Nodes, b: Nodes)
    requires NoRepeats(a + b)
    ensures Apart([], a, b)
  {
    var s := a + b;
    assert forall i :: 0 <= i < |a| ==> s[i] == a[i];
    assert forall i :: 0 <= i < |b| ==> s[|a| + i] == b[i];
  }

  lemma ApartTake(done: Nodes, a: Nodes, b: Nodes)
    requires Apart(done, a, b) && |a| > 0
    ensures Apart(done + [a[0]], a[1..], b) && Apart(done + [a[0]], b, a[1..]) && Apart(done, b, a)
  {
  }

  /** Append the front node of a to the nodes linked so far. */
  method Append(head0: ListNode, last: ListNode?, x: ListNode, ghost done: Nodes, ghost a: Nodes, ghost b: Nodes)
    returns (head: ListNode)
    requires Apart(done, a, b) && |a| > 0 && x == a[0] && Linked(done) && IsChain(a) && IsChain(b)
    requires if |done| == 0 then last == null else last == done[|done| - 1] && head0 == done[0]
    modifies (if last == null then {} else {last})`next
    ensures Linked(done + [x]) && IsChain(a) && IsChain(b) && head == (done + [x])[0]
  {
    head := head0;
    if last == null {
      head := x;
    } else {
      last.next := x;
    }
    ghost var s := done + [x];
    assert forall i :: 0 <= i < |done| ==> s[i] == done[i];
  }

  lemma LinkRest(done: Nodes, rest: Nodes)
    requires |done| > 0 && |rest| > 0 && Linked(done) && IsChain(rest) && done[|done| - 1].next == rest[0]
    ensures IsChain(done + rest)
  {
    var s := done + rest;
    assert forall i :: 0 <= i < |done| ==> s[i] == done[i];
    assert forall i :: 0 <= i < |rest| ==> s[|done| + i] == rest[i];
    forall i | 0 <= i < |s| - 1 ensures s[i].next == s[i + 1] {
      if i >= |done| {
        assert s[i] == rest[i - |done|];
      }
    }
  }

  /** Link the last node to what remains of one list. */
  method Finish(last: ListNode, rest: ListNode, ghost done: Nodes, ghost b: Nodes)
    requires Apart(done, [], b) && |done| > 0 && last == done[|done| - 1] && |b| > 0 && rest == b[0]
    requires Linked(done) && IsChain(b)
    modifies last`next
    ensures IsChain(done + b)
  {
    last.next := rest;
    assert Linked(done) && IsChain(b);
    LinkRest(done, b);
  }

  /** merge(): link two sorted lists into one; on a tie take from a. */
  method MergeLists(cmp: Cmp<ListNode>, first: ListNode, second: ListNode,
    ghost sa: Nodes, ghost sb: Nodes)
    returns (head: ListNode)
    requires |sa| > 0 && |sb| > 0 && first == sa[0] && second == sb[0]
    requires IsChain(sa) && IsChain(sb) && NoRepeats(sa + sb)
    modifies Elems(sa + sb)`next
    ensures IsChain(Merge(cmp, sa, sb)) && head == Merge(cmp, sa, sb)[0]
  {
    hide Merge, Apart, IsChain, Linked;
    var a, b := first, second;
    ghost var done: Nodes, ra, rb := [], sa, sb;
    var last: ListNode? := null;
    head := first;
    ApartStart(sa, sb);
    NothingLinked();
    while true
      invariant |ra| > 0 && |rb| > 0 && a == ra[0] && b == rb[0]
      invariant IsChain(ra) && IsChain(rb) && Linked(done) && Apart(done, ra, rb)
      invariant done + Merge(cmp, ra, rb) == Merge(cmp, sa, sb)
      invariant if |done| == 0 then last == null else last == done[|done| - 1] && head == done[0]
      invariant last != null ==> last in sa + sb
      invariant (forall i :: 0 <= i < |ra| ==> ra[i] in sa + sb) && (forall i :: 0 <= i < |rb| ==> rb[i] in sa + sb)
      decreases |ra| + |rb|
    {
      MergeStep(cmp, ra, rb, done);
      ApartTake(done, ra, rb);
      ApartTake(done, rb, ra);
      if cmp(a, b) <= 0 {
        head := Append(head, last, a, done, ra, rb);
        last := a;
        ChainTail(ra);
        a := a.next;
        done, ra := done + [last], ra[1..];
        if a == null {
          Finish(last, b, done, rb);
          return;
        }
      } else {
        head := Append(head, last, b, done, rb, ra);
        last := b;
        ChainTail(rb);
        b := b.next;
        done, rb := done + [last], rb[1..];
        if b == null {
          Finish(last, a, done, ra);
          return;
        }
      }
    }
  }

  lemma NothingLinked()
    ensures Linked([])
  {
  }

  lemma MergeStep(cmp: Cmp<ListNode>, a: Nodes, b: Nodes, done: Nodes)
    requires |a| > 0 && |b| > 0
    ensures cmp(a[0], b[0]) <= 0 ==> done + Merge(cmp, a, b) == done + [a[0]] + Merge(cmp, a[1..], b)
    ensures cmp(a[0], b[0]) > 0 ==> done + Merge(cmp, a, b) == done + [b[0]] + Merge(cmp, a, b[1..])
    ensures |a| == 1 ==> a[1..] == [] && Merge(cmp, a[1..], b) == b
    ensures |b| == 1 ==> b[1..] == [] && Merge(cmp, a, b[1..]) == a
  {
  }

  /* ---------------------------------------------------------- merge_final */

  /** Consecutive nodes are linked both ways. */
  ghost predicate DoublyLinked(s: Nodes)
    reads Elems(s)
  {
    Linked(s) && forall i :: 0 < i < |s| ==> s[i].prev == s[i - 1]
  }

  /** A circular doubly linked list: s is reached from head, and leads back to it. */
  ghost predicate IsRing(head: ListNode, s: Nodes)
    reads head, Elems(s)
  {
    && NoRepeats([head] + s) && DoublyLinked([head] + s)
    && ([head] + s)[|s|].next == head && head.prev == ([head] + s)[|s|]
  }

  /** Append the front node x of a, linking it both ways. */
  method AppendBoth(tail: ListNode, x: ListNode, ghost done: Nodes, ghost a: Nodes, ghost b: Nodes)
    requires Apart(done, a, b) && |a| > 0 && x == a[0] && DoublyLinked(done) && IsChain(a) && IsChain(b)
    requires |done| > 0 && tail == done[|done| - 1]
    modifies tail`next, x`prev
    ensures DoublyLinked(done + [x]) && IsChain(a) && IsChain(b)
  {
    tail.next := x;
    x.prev := tail;
    ghost var s := done + [x];
    assert forall i :: 0 <= i < |done| ==> s[i] == done[i];
  }

  /** Link x back to the tail that already points to it. */
  method LinkOneBack(tail: ListNode, x: ListNode, ghost done: Nodes, ghost r: Nodes)
    requires Apart(done, r, []) && |r| > 0 && x == r[0] && IsChain(r)
    requires DoublyLinked(done) && |done| > 0 && tail == done[|done| - 1] && tail.next == x
    modifies x`prev
    ensures DoublyLinked(done + [x])
  {
    x.prev := tail;
  }

  /** Set the prev links of what is left. */
  method LinkBack(tail0: ListNode, rest: ListNode, ghost done0: Nodes, ghost r0: Nodes) returns (tail: ListNode)
    requires Apart(done0, [], r0) && |done0| > 0 && tail0 == done0[|done0| - 1] && |r0| > 0 && rest == r0[0]
    requires DoublyLinked(done0) && IsChain(r0)
    modifies tail0`next, Elems(r0)`prev
    ensures DoublyLinked(done0 + r0) && tail == (done0 + r0)[|done0 + r0| - 1]
  {
    ApartSwap(done0, r0);
    tail := tail0;
    var b: ListNode? := rest;
    ghost var done, r := done0, r0;
    tail.next := rest;
    assert DoublyLinked(done0) && IsChain(r0);
    hide Apart, IsChain, DoublyLinked;
    while true
      invariant |r| > 0 && b == r[0] && IsChain(r) && Apart(done, r, [])
      invariant DoublyLinked(done) && |done| > 0 && tail == done[|done| - 1] && tail.next == b
      invariant done + r == done0 + r0 && forall x :: x in r ==> x in r0
      decreases |r|
    {
      ApartTake(done, r, []);
      LinkOneBack(tail, b, done, r);
      ChainTail(r);
      tail := b;
      b := b.next;
      done, r := done + [r[0]], r[1..];
      if b == null {
        assert done == done0 + r0;
        return;
      }
    }
  }

  lemma ApartSwap(done: Nodes, b: Nodes)
    requires Apart(done, [], b)
    ensures Apart(done, b, [])
  {
  }

  lemma ApartNoRepeats(done: Nodes, r: Nodes)
    requires Apart(done, [], r)
    ensures NoRepeats(done + r)
  {
  }

  lemma LoneHead(head: ListNode)
    ensures DoublyLinked([head])
  {
  }

  /** The loop of merge_final(): merge, linking both ways, until one list runs out. */
  method MergeBoth(cmp: Cmp<ListNode>, head: ListNode, first: ListNode, second: ListNode,
    ghost sa: Nodes, ghost sb: Nodes)
    returns (tail: ListNode, left: ListNode, ghost done: Nodes, ghost rest: Nodes)
    requires |sa| > 0 && |sb| > 0 && first == sa[0] && second == sb[0]
    requires IsChain(sa) && IsChain(sb) && Apart([head], sa, sb)
    modifies head`next, Elems(sa + sb)
    ensures done + rest == [head] + Merge(cmp, sa, sb) && Apart(done, [], rest)
    ensures DoublyLinked(done) && |done| > 0 && tail == done[|done| - 1] && (tail == head || tail in sa + sb)
    ensures IsChain(rest) && |rest| > 0 && left == rest[0] && forall i :: 0 <= i < |rest| ==> rest[i] in sa + sb
  {
    hide Merge, Apart, IsChain, Linked, DoublyLinked;
    var a, b := first, second;
    ghost var ra, rb := sa, sb;
    tail, done := head, [head];
    LoneHead(head);
    while true
      invariant |ra| > 0 && |rb| > 0 && a == ra[0] && b == rb[0]
      invariant IsChain(ra) && IsChain(rb) && DoublyLinked(done) && Apart(done, ra, rb)
      invariant done + Merge(cmp, ra, rb) == [head] + Merge(cmp, sa, sb)
      invariant |done| > 0 && tail == done[|done| - 1] && (tail == head || tail in sa + sb)
      invariant (forall i :: 0 <= i < |ra| ==> ra[i] in sa + sb) && (forall i :: 0 <= i < |rb| ==> rb[i] in sa + sb)
      decreases |ra| + |rb|
    {
      MergeStep(cmp, ra, rb, done);
      ApartTake(done, ra, rb);
      ApartTake(done, rb, ra);
      if cmp(a, b) <= 0 {
        AppendBoth(tail, a, done, ra, rb);
        tail := a;
        ChainTail(ra);
        done, ra := done + [a], ra[1..];
        if a.next == null {
          left, rest := b, rb;
          return;
        }
        a := a.next;
      } else {
        AppendBoth(tail, b, done, rb, ra);
        tail := b;
        ChainTail(rb);
        done, rb := done + [b], rb[1..];
        if b.next == null {
          left, rest := a, ra;
          return;
        }
        b := b.next;
      }
    }
  }

  /** The links that make the list circular. */
  method CloseRing(head: ListNode, tail: ListNode, ghost s: Nodes)
    requires NoRepeats([head] + s) && DoublyLinked([head] + s) && |s| > 0 && tail == s[|s| - 1]
    modifies head`prev, tail`next
    ensures IsRing(head, s)
  {
    ghost var c := [head] + s;
    assert c[0] == head && c[|s|] == tail;
    tail.next := head;
    head.prev := tail;
  }

  /** merge_final(): merge and restore the ring through head. */
  method MergeFinal(cmp: Cmp<ListNode>, head: ListNode, first: ListNode, second: ListNode, ghost sa: Nodes,
    ghost sb: Nodes)
    requires |sa| > 0 && |sb| > 0 && first == sa[0] && second == sb[0]
    requires IsChain(sa) && IsChain(sb) && Apart([head], sa, sb)
    modifies head, Elems(sa + sb)
    ensures IsRing(head, Merge(cmp, sa, sb))
  {
    hide Merge, Apart, IsChain, Linked, DoublyLinked;
    var tail, left, done, rest := MergeBoth(cmp, head, first, second, sa, sb);
    ApartNoRepeats(done, rest);
    tail := LinkBack(tail, left, done, rest);
    ghost var s: Nodes := Merge(cmp, sa, sb);
    assert ([head] + s)[|s|] == s[|s| - 1];
    assert s[|s| - 1] in sa + sb by {
      MergeMember(cmp, sa, sb, |s| - 1);
    }
    CloseRing(head, tail, s);
  }
}
