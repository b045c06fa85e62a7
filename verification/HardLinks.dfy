// find_hardlink of jffsX-utils/mkfs.jffs2.c: the index of files by host device and inode, kept in a
// red-black tree of nodes embedded in the entries.

module HardLinks {
  import opened RedBlack
  import opened RbTree
  import opened RbInsert

  /** The part of struct filesystem_entry the index looks at. */
  datatype Entry = Entry(dev: int, hostIno: int, ino: int)

  type Key = (int, int)

  function KeyOf(e: Entry): Key
  {
    (e.dev, e.hostIno)
  }

  /** Device first, then inode. */
  predicate Less(a: Key, b: Key)
  {
    a.0 < b.0 || (a.0 == b.0 && a.1 < b.1)
  }

  type Entries = map<RbNode, Entry>

  /** Keys fall strictly from left to right (smaller keys are looked up on the right). */
  ghost predicate Falling(s: seq<RbNode>, entries: Entries)
  {
    && (forall i :: 0 <= i < |s| ==> s[i] in entries)
    && forall i, j :: 0 <= i < j < |s| ==> Less(KeyOf(entries[s[j]]), KeyOf(entries[s[i]]))
  }

  ghost predicate AllAbove(s: seq<RbNode>, entries: Entries, k: Key)
  {
    forall i :: 0 <= i < |s| ==> s[i] in entries && Less(k, KeyOf(entries[s[i]]))
  }

  ghost predicate AllBelow(s: seq<RbNode>, entries: Entries, k: Key)
  {
    forall i :: 0 <= i < |s| ==> s[i] in entries && Less(KeyOf(entries[s[i]]), k)
  }

  lemma FallingParts(a: seq<RbNode>, x: RbNode, b: seq<RbNode>, entries: Entries)
    requires Falling(a + [x] + b, entries)
    ensures x in entries && AllAbove(a, entries, KeyOf(entries[x])) && AllBelow(b, entries, KeyOf(entries[x]))
    ensures Falling(a, entries) && Falling(b, entries)
  {
    var s := a + [x] + b;
    assert forall i :: 0 <= i < |a| ==> s[i] == a[i];
    assert s[|a|] == x;
    assert forall i :: 0 <= i < |b| ==> s[|a| + 1 + i] == b[i];
  }

  lemma FallingJoin(a: seq<RbNode>, x: RbNode, b: seq<RbNode>, entries: Entries)
    requires Falling(a, entries) && Falling(b, entries) && x in entries
    requires AllAbove(a, entries, KeyOf(entries[x])) && AllBelow(b, entries, KeyOf(entries[x]))
    ensures Falling(a + [x] + b, entries)
  {
    var s, k := a + [x] + b, KeyOf(entries[x]);
    forall i, j | 0 <= i < j < |s| ensures Less(KeyOf(entries[s[j]]), KeyOf(entries[s[i]])) {
      if i < |a| {
        assert s[i] == a[i];
      } else if i > |a| {
        assert s[i] == b[i - |a| - 1];
      }
      if j < |a| {
        assert s[j] == a[j];
      } else if j > |a| {
        assert s[j] == b[j - |a| - 1];
      }
    }
  }

  /* ---------------------------------------------------------------- searching */

  /** The key, if it is anywhere, is below the place path. */
  ghost predicate Narrowed(path: NodePath, entries: Entries, k: Key)
  {
    AllAbove(Before(path), entries, k) && AllBelow(After(path), entries, k)
  }

  lemma NarrowLeft(path: NodePath, t: NodeTree, entries: Entries, k: Key)
    requires Narrowed(path, entries, k) && t.Node? && Falling(InOrder(t), entries)
    ensures t.elem in entries && Falling(InOrder(t.left), entries) && Falling(InOrder(t.right), entries)
    ensures Less(KeyOf(entries[t.elem]), k) ==> Narrowed(LeftOf(path, t.elem, t.red, t.right), entries, k)
    ensures Less(k, KeyOf(entries[t.elem])) ==> Narrowed(RightOf(path, t.left, t.elem, t.red), entries, k)
  {
    FallingParts(InOrder(t.left), t.elem, InOrder(t.right), entries);
  }

  lemma NotFound(path: NodePath, entries: Entries, k: Key, n: RbNode)
    requires Narrowed(path, entries, k) && n in Nodes(Plug(path, Leaf))
    ensures n in entries && KeyOf(entries[n]) != k
  {
    hide Plug, InOrder, Before, After, Nodes;
    InOrderPlug(path, Leaf);
    LeafOrder();
    NodeIsInOrder(Plug(path, Leaf), n);
    assert n in Before(path) || n in After(path);
  }

  lemma LeafOrder()
    ensures InOrder<RbNode>(Leaf) == []
  {
  }

  /** Linking a red leaf at the place where the search ended. */
  lemma LinkedLeaf(path: NodePath, entries: Entries, node: RbNode, e: Entry)
    requires Narrowed(path, entries, KeyOf(e)) && Falling(InOrder(Plug(path, Leaf)), entries)
    requires IsRedBlack(Plug(path, Leaf)) && node !in Nodes(Plug(path, Leaf))
    ensures Falling(InOrder(Plug(path, Node(Leaf, node, true, Leaf))), entries[node := e])
    ensures Inserting(path, Node(Leaf, node, true, Leaf))
  {
    PlugRedBlack(path, Leaf);
    var leaf := Node(Leaf, node, true, Leaf);
    InOrderPlug(path, Leaf);
    InOrderPlug(path, leaf);
    var a, b, entries' := Before(path), After(path), entries[node := e];
    assert InOrder(Plug(path, leaf)) == a + [node] + b;
    assert InOrder(Plug(path, Leaf)) == a + b;
    forall i | 0 <= i < |a + b| ensures (a + b)[i] != node {
      NodeIsInOrder(Plug(path, Leaf), (a + b)[i]);
    }
    SplitFalling(a, b, entries, entries', node);
    FallingJoin(a, node, b, entries');
  }

  lemma SplitFalling(a: seq<RbNode>, b: seq<RbNode>, entries: Entries, entries': Entries, node: RbNode)
    requires Falling(a + b, entries) && (forall i :: 0 <= i < |a + b| ==> (a + b)[i] != node)
    requires node in entries' && entries' == entries[node := entries'[node]]
    requires AllAbove(a, entries, KeyOf(entries'[node])) && AllBelow(b, entries, KeyOf(entries'[node]))
    ensures Falling(a, entries') && Falling(b, entries')
    ensures AllAbove(a, entries', KeyOf(entries'[node])) && AllBelow(b, entries', KeyOf(entries'[node]))
  {
    var s := a + b;
    assert forall i :: 0 <= i < |a| ==> s[i] == a[i];
    assert forall i :: 0 <= i < |b| ==> s[|a| + i] == b[i];
  }

  /** Make an empty place lead to a node. */
  method FillPlace(parent: RbNode?, left: bool, child: RbNode, root: RbRoot, ghost path: NodePath)
    requires IsPath(path, null, root) && SeparatePath(path) && parent == Above(path) && PathNodes(path) <= root.nodes
    requires (path.LeftOf? ==> left) && (path.RightOf? ==> !left)
    modifies parent, root
    ensures IsPath(path, child, root) && root.nodes == old(root.nodes)
  {
    if parent == null {
      root.node := child;
    } else {
      ghost var sibling := if path.LeftOf? then path.right else path.left;
      assert IsTree(sibling, parent) && IsPath(path.up, parent, root);
      if left {
        parent.left := child;
      } else {
        parent.right := child;
      }
      assert IsTree(sibling, parent) && IsPath(path.up, parent, root);
    }
  }

  /** rb_link_node at an empty place. */
  method LinkNode(node: RbNode, parent: RbNode?, left: bool, root: RbRoot, ghost path: NodePath)
    requires Located(path, Leaf, root) && parent == Above(path) && node !in root.nodes
    requires (path.LeftOf? ==> left) && (path.RightOf? ==> !left)
    modifies root, root.nodes, node
    ensures Located(path, Node(Leaf, node, true, Leaf), root) && root.nodes == old(root.nodes) + {node}
  {
    AboveInPath(path);
    SingleNode(node);
    DistinctParts(path, Leaf);
    hide PathNodes, SeparatePath, IsPath, Nodes, Separate, Distinct;
    LeafMemory(Leaf, null);
    node.parent, node.red := parent, true;
    node.left, node.right := null, null;
    FillPlace(parent, left, node, root, path);
    root.nodes := root.nodes + {node};
    DistinctLeaf(path, node);
    LeafMemory(Leaf, node);
    UnfoldMemory(Leaf, node, true, Leaf, parent);
  }

  lemma SingleNode(node: RbNode)
    ensures Nodes(Node(Leaf, node, true, Leaf)) == {node} && Separate(Node(Leaf, node, true, Leaf))
  {
  }

  lemma DistinctLeaf(path: NodePath, node: RbNode)
    requires SeparatePath(path) && node !in PathNodes(path)
    ensures Distinct(path, Node(Leaf, node, true, Leaf))
  {
  }

  class HardLinkIndex {
    const root: RbRoot
    var entries: Entries          // rb_entry: from an embedded node to its entry
    ghost var tree: NodeTree

    ghost predicate Valid()
      reads this, root, root.nodes
    {
      Nodes(tree) == root.nodes && Holds(tree, root) && IsRedBlack(tree) && Falling(InOrder(tree), entries)
    }

    constructor ()
      ensures Valid() && fresh(root) && root.nodes == {}
    {
      root := new RbRoot();
      entries := map[];
      tree := Leaf;
    }

    /** The node of an indexed file with the given key. */
    ghost predicate Indexed(n: RbNode, k: Key)
      reads this, root
    {
      n in root.nodes && n in entries && KeyOf(entries[n]) == k
    }

    /** Keys are unique. */
    lemma OneNodePerKey(n: RbNode, m: RbNode, k: Key)
      requires Valid() && Indexed(n, k) && Indexed(m, k)
      ensures n == m
    {
      NodeIsInOrder(tree, n);
      NodeIsInOrder(tree, m);
      var s := InOrder(tree);
      var i :| 0 <= i < |s| && s[i] == n;
      var j :| 0 <= j < |s| && s[j] == m;
    }

    /** Walk down from the root, to the left for larger keys and to the right for smaller ones. */
    method Lookup(k: Key) returns (found: RbNode?, parent: RbNode?, left: bool, ghost path: NodePath)
      requires Valid()
      ensures found != null ==> Indexed(found, k)
      ensures found == null ==>
        && Located(path, Leaf, root) && Plug(path, Leaf) == tree && Narrowed(path, entries, k)
        && parent == Above(path) && (path.LeftOf? ==> left) && (path.RightOf? ==> !left)
    {
      hide Located, Plug, InOrder, IsRedBlack, Narrowed, Falling;
      ghost var t := tree;
      path := Top;
      parent, left := null, false;
      found := root.node;
      PlugAtTop(tree);
      Refocus(path, t, root);
      EverythingPossible(entries, k);
      while found != null
        invariant Located(path, t, root) && Plug(path, t) == tree && found == RootOf(t) && parent == Above(path)
        invariant (path.LeftOf? ==> left) && (path.RightOf? ==> !left)
        invariant Narrowed(path, entries, k) && Falling(InOrder(t), entries)
        decreases t
      {
        ReadFields(path, t, root);
        NarrowLeft(path, t, entries, k);
        parent := found;
        var f := KeyOf(entries[parent]);
        ghost var l, r := LeftOf(path, t.elem, t.red, t.right), RightOf(path, t.left, t.elem, t.red);
        if Less(f, k) {
          GoUp(l, t.left, root);
          found, left := parent.left, true;
          SamePlug(path, t);
          path, t := l, t.left;
        } else if Less(k, f) {
          GoUp(r, t.right, root);
          found, left := parent.right, false;
          SamePlug(path, t);
          path, t := r, t.right;
        } else {
          return;
        }
      }
    }

    /** e->ino of an indexed file, which is assigned after the file was added. */
    method SetIno(node: RbNode, ino: int)
      requires Valid() && node in root.nodes && node in entries
      modifies this`entries
      ensures Valid() && entries == old(entries)[node := old(entries)[node].(ino := ino)]
    {
      hide InOrder, IsRedBlack, Holds, Nodes;
      entries := entries[node := entries[node].(ino := ino)];
    }

    /** The inode of the file with this key, or 0 after adding the file under the new node. */
    method FindHardlink(node: RbNode, e: Entry) returns (ino: int, ghost found: RbNode?)
      requires Valid() && node !in root.nodes
      modifies this, root, root.nodes, node
      ensures Valid()
      ensures found != null ==>
        found in old(root.nodes) && old(Indexed(found, KeyOf(e))) && ino == old(entries)[found].ino
      ensures found != null ==> root.nodes == old(root.nodes) && entries == old(entries)
      ensures found == null ==> ino == 0 && forall n :: n in old(root.nodes) ==> !old(Indexed(n, KeyOf(e)))
      ensures found == null ==> root.nodes == old(root.nodes) + {node} && entries == old(entries)[node := e]
    {
      hide Located, Plug, InOrder, IsRedBlack, Narrowed, Falling;
      ghost var path;
      var n, parent, left;
      n, parent, left, path := Lookup(KeyOf(e));
      found := n;
      if n != null {
        return entries[n].ino, n;
      }
      forall m | m in root.nodes ensures !Indexed(m, KeyOf(e)) {
        NotFound(path, entries, KeyOf(e), m);
      }
      LinkedLeaf(path, entries, node, e);
      LinkNode(node, parent, left, root, path);
      tree := InsertColor(node, root, path, Node(Leaf, node, true, Leaf));
      entries := entries[node := e];
      ino := 0;
    }
  }

  /* ---------------------------------------------------------------- numbering files */

  /** Every file in the index has an inode number of its own, up to last. */
  ghost predicate Numbered(index: HardLinkIndex, last: int)
    reads index, index.root
  {
    && (forall n :: n in index.root.nodes ==> n in index.entries && 0 < index.entries[n].ino <= last)
    && forall n, m :: n in index.root.nodes && m in index.root.nodes && n != m ==>
      n in index.entries && m in index.entries && index.entries[n].ino != index.entries[m].ino
  }

  /** A file with this device and inode is in the index under the inode number. */
  ghost predicate Holder(index: HardLinkIndex, dev: int, hostIno: int, ino: int)
    reads index, index.root
  {
    exists n :: n in index.root.nodes && index.Indexed(n, (dev, hostIno)) && index.entries[n].ino == ino
  }

  /** Look a file up, and give it a new inode number if it is the first with its key, as
      recursive_populate_directory() does. */
  method NumberOne(index: HardLinkIndex, e: Entry, last: int) returns (ino: int, next: int)
    requires index.Valid() && Numbered(index, last) && last > 0
    modifies index, index.root, index.root.nodes
    ensures index.Valid() && Numbered(index, next) && next >= last
    ensures fresh(index.root.nodes - old(index.root.nodes))
    ensures Holder(index, e.dev, e.hostIno, ino)
    ensures forall d, h, i :: old(Holder(index, d, h, i)) ==> Holder(index, d, h, i)
  {
    hide HardLinkIndex.Valid;
    var node := new RbNode();
    ghost var found;
    ino, found := index.FindHardlink(node, e);
    next := last;
    if ino == 0 {
      next, ino := last + 1, last + 1;
      index.SetIno(node, ino);
      assert index.Indexed(node, KeyOf(e));
    } else {
      assert index.Indexed(found, KeyOf(e));
    }
    forall d, h, i | old(Holder(index, d, h, i)) ensures Holder(index, d, h, i) {
      var n :| n in old(index.root.nodes) && old(index.Indexed(n, (d, h))) && old(index.entries)[n].ino == i;
      assert index.Indexed(n, (d, h));
    }
  }

  /** Number the files of a file system: two of them get the same inode number exactly if they have the
      same device and inode on the host. */
  method NumberFiles(files: seq<Entry>) returns (inos: seq<int>)
    ensures |inos| == |files|
    ensures forall i, j :: 0 <= i < |files| && 0 <= j < |files| ==>
      (inos[i] == inos[j] <==> files[i].dev == files[j].dev && files[i].hostIno == files[j].hostIno)
  {
    hide HardLinkIndex.Valid, Numbered, Holder;
    var index := new HardLinkIndex();
    var last := 1;
    inos := [];
    NoFiles(index, last);
    for i := 0 to |files|
      invariant fresh(index) && fresh(index.root) && fresh(index.root.nodes)
      invariant index.Valid() && Numbered(index, last) && last > 0
      invariant |inos| == i && forall j :: 0 <= j < i ==> Holder(index, files[j].dev, files[j].hostIno, inos[j])
    {
      var ino;
      ino, last := NumberOne(index, files[i], last);
      inos := inos + [ino];
    }
    forall i, j | 0 <= i < |files| && 0 <= j < |files|
      ensures inos[i] == inos[j] <==> files[i].dev == files[j].dev && files[i].hostIno == files[j].hostIno
    {
      SameHolder(index, last, files[i], files[j], inos[i], inos[j]);
    }
  }

  lemma NoFiles(index: HardLinkIndex, last: int)
    requires index.root.nodes == {}
    ensures Numbered(index, last)
  {
  }

  /** Keys and inode numbers go together. */
  lemma SameHolder(index: HardLinkIndex, last: int, e: Entry, f: Entry, i: int, j: int)
    requires index.Valid() && Numbered(index, last)
    requires Holder(index, e.dev, e.hostIno, i) && Holder(index, f.dev, f.hostIno, j)
    ensures i == j <==> e.dev == f.dev && e.hostIno == f.hostIno
  {
    hide HardLinkIndex.Valid;
    var n :| n in index.root.nodes && index.Indexed(n, KeyOf(e)) && index.entries[n].ino == i;
    var m :| m in index.root.nodes && index.Indexed(m, KeyOf(f)) && index.entries[m].ino == j;
    if KeyOf(e) == KeyOf(f) {
      index.OneNodePerKey(n, m, KeyOf(e));
    }
  }

  lemma EverythingPossible(entries: Entries, k: Key)
    ensures Narrowed(Top, entries, k)
  {
  }

  lemma SamePlug(path: NodePath, t: NodeTree)
    requires t.Node?
    ensures Plug(LeftOf(path, t.elem, t.red, t.right), t.left) == Plug(path, t)
    ensures Plug(RightOf(path, t.left, t.elem, t.red), t.right) == Plug(path, t)
  {
  }
}
