// jffsX-utils/jffs2reader.c: the linked list of directory entries that putdir() keeps up to date.

module DirList {

  type Name = seq<nat>

  /** What a directory entry node in the log says; ino 0 unlinks the name. */
  datatype Entry = Entry(version: nat, ino: nat, kind: nat, name: Name)

  /** One line of a directory listing. */
  datatype Dir = Dir(name: Name, kind: nat, ino: nat)

  function Line(e: Entry): Dir
  {
    Dir(e.name, e.kind, e.ino)
  }

  /** The first line with this name, or |d|. */
  function Position(d: seq<Dir>, name: Name): (i: nat)
    ensures i <= |d|
    ensures i < |d| ==> d[i].name == name
    ensures forall j :: 0 <= j < i ==> d[j].name != name
  {
    if |d| == 0 then 0
    else if d[0].name == name then 0
    else 1 + Position(d[1..], name)
  }

  /** What putdir() does to a listing. */
  function Put(d: seq<Dir>, e: Entry): seq<Dir>
  {
    var i := Position(d, e.name);
    if e.ino != 0 then
      if i < |d| then d[i := Line(e)] else d + [Line(e)]
    else
      if i < |d| then d[..i] + d[i + 1..] else d
  }

  lemma PositionIs(d: seq<Dir>, name: Name, i: nat)
    requires i <= |d| && (forall j :: 0 <= j < i ==> d[j].name != name) && (i < |d| ==> d[i].name == name)
    ensures Position(d, name) == i
  {
    hide Position;
    var p := Position(d, name);
  }

  /* ------------------------------------------------------------ looking up a name */

  datatype Found = Nothing | Found(kind: nat, ino: nat)

  function Lookup(d: seq<Dir>, name: Name): Found
  {
    var i := Position(d, name);
    if i < |d| then Found(d[i].kind, d[i].ino) else Nothing
  }

  /** No name twice, and no line that an unlink entry would leave. */
  ghost predicate Listing(d: seq<Dir>)
  {
    && (forall i, j :: 0 <= i < j < |d| ==> d[i].name != d[j].name)
    && (forall i :: 0 <= i < |d| ==> d[i].ino != 0)
  }

  lemma PutListing(d: seq<Dir>, e: Entry)
    requires Listing(d)
    ensures Listing(Put(d, e))
  {
    hide Position;
    var i := Position(d, e.name);
  }

  /** Putting an entry changes what its own name stands for, and nothing else. */
  lemma PutLookup(d: seq<Dir>, e: Entry, name: Name)
    requires Listing(d)
    ensures Lookup(Put(d, e), name) ==
      if name != e.name then Lookup(d, name) else if e.ino == 0 then Nothing else Found(e.kind, e.ino)
  {
    hide Position;
    var i, t, k := Position(d, e.name), Put(d, e), Position(d, name);
    if name == e.name {
      if e.ino == 0 {
        assert forall j :: 0 <= j < |t| ==> t[j].name != name;
        PositionIs(t, name, |t|);
      } else {
        PositionIs(t, name, i);
      }
    } else if e.ino != 0 {
      if i < |d| || k < |d| {
        PositionIs(t, name, k);
      } else {
        PositionIs(t, name, |t|);
      }
    } else if i < |d| {
      assert k < |d| ==> k != i;
      PositionIs(t, name, if k <= i then k else k - 1);
    }
  }

  /** Name a is listed before name b. */
  ghost predicate Before(d: seq<Dir>, a: Name, b: Name)
  {
    Position(d, a) < Position(d, b) < |d|
  }

  ghost predicate Lists(d: seq<Dir>, name: Name)
  {
    Lookup(d, name).Found?
  }

  /** A name that is listed, by an entry or before it, keeps its place among the others; a new one is last. */
  lemma PutOrder(d: seq<Dir>, e: Entry, a: Name, b: Name)
    requires Listing(d) && Lists(Put(d, e), a) && Lists(Put(d, e), b)
    ensures Before(Put(d, e), a, b) <==> if Lists(d, a) && Lists(d, b) then Before(d, a, b) else a != b && !Lists(d, b)
  {
    PutPosition(d, e, a);
    PutPosition(d, e, b);
    hide Position, Put;
  }

  lemma PutPosition(d: seq<Dir>, e: Entry, name: Name)
    requires Listing(d)
    ensures var t, k, i := Put(d, e), Position(d, name), Position(d, e.name);
      Position(t, name) ==
        if e.ino != 0 then (if k < |d| || name == e.name then k else |t|)
        else if i == |d| || k < i then k
        else if k == i then |t| else k - 1
  {
    hide Position;
    var t, k, i := Put(d, e), Position(d, name), Position(d, e.name);
    if e.ino != 0 {
      if k < |d| || name == e.name {
        PositionIs(t, name, k);
      } else {
        PositionIs(t, name, |t|);
      }
    } else if i < |d| {
      if k == i {
        assert forall j :: 0 <= j < |t| ==> t[j].name != name;
        PositionIs(t, name, |t|);
      } else {
        PositionIs(t, name, if k < i then k else k - 1);
      }
    }
  }

  /* ------------------------------------------------------------ the list on the heap */

  class DirNode {
    var next: DirNode?
    var name: Name
    var kind: nat
    var ino: nat

    constructor (e: Entry)
      ensures next == null && name == e.name && kind == e.kind && ino == e.ino
    {
      next, name, kind, ino := null, e.name, e.kind, e.ino;
    }
  }

  ghost predicate LinkedAt(s: seq<DirNode>, i: nat)
    requires i < |s|
    reads s
  {
    s[i].next == if i + 1 < |s| then s[i + 1] else null
  }

  ghost predicate IsList(s: seq<DirNode>, first: DirNode?)
    reads s
  {
    && (forall i, j :: 0 <= i < j < |s| ==> s[i] != s[j])
    && first == (if |s| > 0 then s[0] else null)
    && (forall i :: 0 <= i < |s| ==> LinkedAt(s, i))
  }

  ghost function Lines(s: seq<DirNode>): (d: seq<Dir>)
    reads s
    ensures |d| == |s| && forall i :: 0 <= i < |s| ==> d[i] == Dir(s[i].name, s[i].kind, s[i].ino)
  {
    seq(|s|, i requires 0 <= i < |s| reads s => Dir(s[i].name, s[i].kind, s[i].ino))
  }

  /** The walk of putdir() for an entry to add: stop at its name, or at the last line. */
  method FindOrLast(dd: DirNode, name: Name, ghost s: seq<DirNode>) returns (at: DirNode, found: bool, ghost i: nat)
    requires IsList(s, dd)
    ensures i < |s| && at == s[i] && (found <==> at.name == name) && (!found ==> i == |s| - 1)
    ensures Position(Lines(s), name) == if found then i else |s|
  {
    hide Position;
    at, i := dd, 0;
    ghost var d := Lines(s);
    while true
      invariant 0 <= i < |s| && at == s[i]
      invariant forall j :: 0 <= j < i ==> d[j].name != name
      decreases |s| - i
    {
      assert LinkedAt(s, i) && d[i].name == at.name;
      if at.name == name {
        PositionIs(d, name, i);
        return at, true, i;
      }
      if at.next == null {
        PositionIs(d, name, |d|);
        return at, false, i;
      }
      at, i := at.next, i + 1;
    }
  }

  /** The walk of putdir() for an unlink entry: stop before its name, or at the last line. */
  method FindBefore(dd: DirNode, name: Name, ghost s: seq<DirNode>) returns (p: DirNode, ghost i: nat)
    requires IsList(s, dd) && dd.name != name
    ensures i < |s| && p == s[i] && Position(Lines(s), name) == i + 1
  {
    hide Position;
    p, i := dd, 0;
    ghost var d := Lines(s);
    while true
      invariant 0 <= i < |s| && p == s[i]
      invariant forall j :: 0 <= j <= i ==> d[j].name != name
      decreases |s| - i
    {
      assert LinkedAt(s, i);
      if p.next == null || p.next.name == name {
        assert i + 1 < |s| ==> d[i + 1].name == name;
        PositionIs(d, name, i + 1);
        return;
      }
      assert d[i + 1].name == p.next.name;
      p, i := p.next, i + 1;
    }
  }

  method Overwrite(at: DirNode, e: Entry, first: DirNode, ghost s: seq<DirNode>, ghost i: nat)
    requires IsList(s, first) && i < |s| && at == s[i] && at.name == e.name
    modifies at
    ensures IsList(s, first) && Lines(s) == old(Lines(s))[i := Line(e)]
  {
    ghost var d := Lines(s);
    at.kind, at.ino := e.kind, e.ino;
    forall j | 0 <= j < |s| ensures LinkedAt(s, j) {
      assert old(LinkedAt(s, j));
    }
    hide LinkedAt;
    assert Lines(s) == d[i := Line(e)];
  }

  method AppendLine(at: DirNode, e: Entry, first: DirNode, ghost s: seq<DirNode>) returns (ghost t: seq<DirNode>)
    requires IsList(s, first) && |s| > 0 && at == s[|s| - 1]
    modifies at
    ensures IsList(t, first) && Lines(t) == old(Lines(s)) + [Line(e)]
    ensures forall i :: 0 <= i < |t| ==> t[i] in s || fresh(t[i])
  {
    ghost var d := Lines(s);
    var last := new DirNode(e);
    at.next := last;
    t := s + [last];
    forall j | 0 <= j < |t| ensures LinkedAt(t, j) {
      if j < |s| - 1 {
        assert old(LinkedAt(s, j));
      }
    }
    hide LinkedAt;
    assert Lines(t) == d + [Line(e)];
  }

  method RemoveAfter(p: DirNode, first: DirNode, ghost s: seq<DirNode>, ghost i: nat) returns (ghost t: seq<DirNode>)
    requires IsList(s, first) && i + 1 < |s| && p == s[i]
    modifies p
    ensures IsList(t, first) && Lines(t) == old(Lines(s)[..i + 1] + Lines(s)[i + 2..])
    ensures forall i :: 0 <= i < |t| ==> t[i] in s
  {
    ghost var d := Lines(s);
    assert LinkedAt(s, i) && LinkedAt(s, i + 1);
    p.next := p.next.next;
    t := s[..i + 1] + s[i + 2..];
    forall j | 0 <= j < |t| ensures LinkedAt(t, j) {
      assert old(LinkedAt(s, if j <= i then j else j + 1));
    }
    hide LinkedAt;
    assert Lines(t) == d[..i + 1] + d[i + 2..];
  }

  lemma ListTail(s: seq<DirNode>, first: DirNode?)
    requires IsList(s, first) && |s| > 0
    ensures IsList(s[1..], s[0].next) && Lines(s[1..]) == Lines(s)[1..]
  {
    var t := s[1..];
    assert LinkedAt(s, 0);
    forall j | 0 <= j < |t| ensures LinkedAt(t, j) {
      assert LinkedAt(s, j + 1);
    }
  }

  /** putdir() for an entry that names an inode: overwrite the line with that name, or append one. */
  method Link(dd: DirNode?, e: Entry, ghost s: seq<DirNode>) returns (o: DirNode, ghost t: seq<DirNode>)
    requires IsList(s, dd) && e.ino != 0
    modifies s
    ensures IsList(t, o) && Lines(t) == Put(old(Lines(s)), e)
    ensures forall i :: 0 <= i < |t| ==> t[i] in s || fresh(t[i])
  {
    hide Position;
    ghost var d := Lines(s);
    if dd == null {
      PositionIs(d, e.name, 0);
      o := new DirNode(e);
      t := [o];
      return;
    }
    hide IsList;
    o := dd;
    var at, found, i := FindOrLast(dd, e.name, s);
    if found {
      Overwrite(at, e, dd, s, i);
      t := s;
    } else {
      t := AppendLine(at, e, dd, s);
    }
  }

  /** putdir() for an unlink entry: remove the line with that name, if there is one. */
  method Unlink(dd: DirNode?, e: Entry, ghost s: seq<DirNode>) returns (o: DirNode?, ghost t: seq<DirNode>)
    requires IsList(s, dd) && e.ino == 0
    modifies s
    ensures IsList(t, o) && Lines(t) == Put(old(Lines(s)), e)
    ensures forall i :: 0 <= i < |t| ==> t[i] in s
  {
    hide Position;
    ghost var d := Lines(s);
    if dd == null {
      PositionIs(d, e.name, 0);
      return null, [];
    }
    if dd.name == e.name {
      PositionIs(d, e.name, 0);
      ListTail(s, dd);
      o, t := dd.next, s[1..];
      return;
    }
    o := dd;
    var p, i := FindBefore(dd, e.name, s);
    assert LinkedAt(s, i);
    hide IsList;
    if p.next == null {
      t := s;
      return;
    }
    t := RemoveAfter(p, dd, s, i);
  }

  /** putdir(). */
  method PutDir(dd: DirNode?, e: Entry, ghost s: seq<DirNode>) returns (o: DirNode?, ghost t: seq<DirNode>)
    requires IsList(s, dd)
    modifies s
    ensures IsList(t, o) && Lines(t) == Put(old(Lines(s)), e)
    ensures forall i :: 0 <= i < |t| ==> t[i] in s || fresh(t[i])
  {
    if e.ino != 0 {
      o, t := Link(dd, e, s);
    } else {
      o, t := Unlink(dd, e, s);
    }
  }
}
