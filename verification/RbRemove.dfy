// rb_replace_node and rb_erase of lib/rbtree.c.

module RbRemove {
  import opened RedBlack
  import opened RbTree
  import opened RbInsert
  import opened RbErase

  /** __rb_erase_color: restore the invariants after a black node has been taken out above node. */
  method EraseColor(child: RbNode?, above: RbNode?, root: RbRoot, ghost path0: NodePath, ghost t0: NodeTree)
    returns (ghost whole: NodeTree)
    requires Located(path0, t0, root) && Erasing(path0, t0) && child == RootOf(t0) && above == Above(path0)
    modifies root, root.nodes
    ensures Holds(whole, root) && root.nodes == old(root.nodes) && IsRedBlack(whole)
    ensures InOrder(whole) == InOrder(Plug(path0, t0))
  {
    hide Located, Erasing, Plug, InOrder, Holds;
    ghost var path, t := path0, t0;
    var node, parent := child, above;
    ReadFields(path, t, root);
    while (node == null || !node.red) && node != root.node
      invariant Located(path, t, root) && Erasing(path, t) && node == RootOf(t) && parent == Above(path)
      invariant InOrder(Plug(path, t)) == InOrder(Plug(path0, t0)) && root.nodes == old(root.nodes)
      invariant node != null ==> node.red == t.red
      invariant path == Top <==> node == root.node
      decreases if IsRed(t) then 0 else 1 + Depth(path)
    {
      ReadFields(path, t, root);
      assert parent.left == node <==> path.LeftOf? by { WhichChild(path, t, root); }
      var done;
      ghost var round;
      if parent.left == node {
        done, round := EraseStepLeft(parent, root, path, t);
      } else {
        done, round := EraseStepRight(parent, root, path, t);
      }
      if done {
        whole := round.whole;
        KeepRootBlack(root, whole);
        return;
      }
      path, t := round.path, round.t;
      ReadFields(path, t, root);
      node := parent;
      parent := node.parent;
    }
    whole := PaintLast(node, root, path, t);
  }

  lemma WhichChild(path: NodePath, t: NodeTree, root: RbRoot)
    requires Located(path, t, root) && Erasing(path, t) && path != Top
    ensures path.parent.left == RootOf(t) <==> path.LeftOf?
  {
    SiblingExists(path, t);
    ReadFields(path, t, root);
    RootInNodes(Sibling(path));
    RootInNodes(t);
  }

  /** Painting the root black changes nothing once the tree is in order. */
  method KeepRootBlack(root: RbRoot, ghost whole: NodeTree)
    requires Holds(whole, root) && IsRedBlack(whole)
    modifies root.nodes
    ensures Holds(whole, root)
  {
    hide Holds, Located;
    PlugAtTop(whole);
    Refocus(Top, whole, root);
    ReadFields(Top, whole, root);
    if root.node != null {
      Paint(root.node, false, root, Top, whole);
      Refocus(Top, whole, root);
    }
  }

  /** After the climb: the subtree at hand is red, or it is the whole tree. */
  method PaintLast(node: RbNode?, root: RbRoot, ghost path: NodePath, ghost t: NodeTree) returns (ghost whole: NodeTree)
    requires Located(path, t, root) && Erasing(path, t) && node == RootOf(t) && (IsRed(t) || path == Top)
    modifies root.nodes
    ensures Holds(whole, root) && IsRedBlack(whole) && InOrder(whole) == InOrder(Plug(path, t))
  {
    hide Located, Plug, InOrder, Holds;
    ReadFields(path, t, root);
    if node != null {
      Paint(node, false, root, path, t);
      Repainted(Top, t, false);
      whole := Plug(path, t.(red := false));
      Refocus(path, t.(red := false), root);
      PlugRedBlack(path, t.(red := false));
      SameOrder(path, t, t.(red := false));
      LastIsRedBlack(path, t);
    } else {
      whole := Plug(path, t);
      Refocus(path, t, root);
      PlugAtTop(t);
    }
  }

  lemma LastIsRedBlack(path: NodePath, t: NodeTree)
    requires Erasing(path, t) && t.Node? && (IsRed(t) || path == Top)
    ensures IsRedBlack(Plug(path, t.(red := false)))
  {
    PlugRedBlack(path, t.(red := false));
  }

  /* ---------------------------------------------------------------- taking a node out */

  /** s' is s without one occurrence of x. */
  ghost predicate Removed<N>(s: seq<N>, x: N, s': seq<N>)
  {
    exists i :: 0 <= i < |s| && s[i] == x && s' == s[..i] + s[i + 1..]
  }

  lemma RemovedMiddle<N>(a: seq<N>, x: N, b: seq<N>)
    ensures Removed(a + [x] + b, x, a + b)
  {
    var s := a + [x] + b;
    assert s[|a|] == x && s[..|a|] == a && s[|a| + 1..] == b;
  }

  /** The only child of a node that has at most one. */
  ghost function OnlyChild(t: NodeTree): NodeTree
    requires t.Node?
  {
    if t.left.Leaf? then t.right else t.left
  }

  /** Link the parent of a node directly to the node's only child. */
  method Splice(node: RbNode, child: RbNode?, parent: RbNode?, root: RbRoot, ghost path: NodePath, ghost t: NodeTree)
    requires Located(path, t, root) && t.Node? && t.elem == node && (t.left.Leaf? || t.right.Leaf?)
    requires child == RootOf(OnlyChild(t)) && parent == Above(path)
    modifies root, root.nodes
    ensures Located(path, OnlyChild(t), root) && root.nodes == old(root.nodes) - {node}
    ensures unchanged(node)
  {
    hide Nodes, PathNodes, Separate, SeparatePath, Distinct, IsPath, IsTree;
    ghost var c := OnlyChild(t);
    DistinctParts(path, t);
    Unfold(t.left, t.elem, t.red, t.right);
    LeafMemory(t.left, null);
    LeafMemory(t.right, null);
    UnfoldMemory(t.left, node, t.red, t.right, Above(path));
    RootInNodes(c);
    AboveInPath(path);
    SetParent(child, parent, c, node);
    ReplaceChild(parent, node, child, root, path);
    root.nodes := root.nodes - {node};
    DistinctFrom(path, c);
  }

  lemma DistinctFrom(path: NodePath, t: NodeTree)
    requires SeparatePath(path) && Separate(t) && PathNodes(path) !! Nodes(t)
    ensures Distinct(path, t)
  {
  }

  /** Copy the links and the colour of victim, and make its children point to the copy. */
  method TakeOver(victim: RbNode, replacement: RbNode, root: RbRoot, ghost t: NodeTree, ghost parent: RbNode?)
    requires t.Node? && t.elem == victim && Separate(t) && IsTree(t, parent) && Nodes(t) <= root.nodes
    requires replacement !in Nodes(t)
    modifies replacement, RootOf(t.left), RootOf(t.right)
    ensures IsTree(t.(elem := replacement), parent)
  {
    hide Nodes, Separate, IsTree;
    ghost var l, r := t.left, t.right;
    Unfold(l, victim, t.red, r);
    UnfoldMemory(l, victim, t.red, r, parent);
    RootInNodes(l);
    RootInNodes(r);
    SetParent(victim.left, replacement, l, victim);
    SetParent(victim.right, replacement, r, victim);
    replacement.left := victim.left;
    replacement.right := victim.right;
    replacement.parent := victim.parent;
    replacement.red := victim.red;
    UnfoldMemory(l, replacement, t.red, r, parent);
  }

  /** rb_replace_node: put another node in the place of victim. */
  method ReplaceNode(victim: RbNode, replacement: RbNode, root: RbRoot, ghost path: NodePath, ghost t: NodeTree)
    requires Located(path, t, root) && t.Node? && t.elem == victim && replacement !in root.nodes
    modifies root, root.nodes, replacement
    ensures Located(path, t.(elem := replacement), root)
    ensures root.nodes == old(root.nodes) - {victim} + {replacement}
  {
    hide Nodes, PathNodes, Separate, SeparatePath, Distinct, IsPath, IsTree;
    DistinctParts(path, t);
    Unfold(t.left, victim, t.red, t.right);
    Unfold(t.left, replacement, t.red, t.right);
    UnfoldMemory(t.left, victim, t.red, t.right, Above(path));
    AboveInPath(path);
    RootInNodes(t.left);
    RootInNodes(t.right);
    ReplaceChild(victim.parent, victim, replacement, root, path);
    TakeOver(victim, replacement, root, t, Above(path));
    root.nodes := root.nodes - {victim} + {replacement};
    DistinctFrom(path, t.(elem := replacement));
  }

  /* ---------------------------------------------------------------- the way to a node */

  lemma {:induction false} FindNode(path: NodePath, t: NodeTree, n: RbNode) returns (path': NodePath, t': NodeTree)
    requires n in Nodes(t)
    ensures Plug(path', t') == Plug(path, t) && t'.Node? && t'.elem == n
    decreases t
  {
    if n == t.elem {
      return path, t;
    } else if n in Nodes(t.left) {
      path', t' := FindNode(LeftOf(path, t.elem, t.red, t.right), t.left, n);
    } else {
      path', t' := FindNode(RightOf(path, t.left, t.elem, t.red), t.right, n);
    }
  }

  /** A way that goes only to left children. */
  ghost predicate IsSpine(q: NodePath)
  {
    q == Top || (q.LeftOf? && IsSpine(q.up))
  }

  ghost function Append(q: NodePath, base: NodePath): NodePath
    requires IsSpine(q)
    decreases q
  {
    if q == Top then base else LeftOf(Append(q.up, base), q.parent, q.red, q.right)
  }

  lemma {:induction false} PlugAppend(q: NodePath, base: NodePath, t: NodeTree)
    requires IsSpine(q)
    ensures Plug(Append(q, base), t) == Plug(base, Plug(q, t))
    decreases q
  {
    if q != Top {
      PlugAppend(q.up, base, Outer(q, t));
    }
  }

  lemma {:induction false} BeforeSpine(q: NodePath)
    requires IsSpine(q)
    ensures Before(q) == []
    decreases q
  {
    if q != Top {
      BeforeSpine(q.up);
    }
  }

  /** Balance does not depend on which node sits above a spine. */
  lemma {:induction false} SpineBase(q: NodePath, up: NodePath, l: NodeTree, n: RbNode, n': RbNode, red: bool, h: nat)
    requires IsSpine(q)
    ensures BalancedAround(Append(q, RightOf(up, l, n, red)), h) ==>
      BalancedAround(Append(q, RightOf(up, l, n', red)), h)
    ensures UnderRed(Append(q, RightOf(up, l, n, red))) == UnderRed(Append(q, RightOf(up, l, n', red)))
    decreases q
  {
    if q != Top {
      SpineBase(q.up, up, l, n, n', red, if q.red then h else h + 1);
    }
  }

  /** The leftmost node below the right child of old, which follows old in order. */
  method Successor(old': RbNode, root: RbRoot, ghost path: NodePath, ghost t: NodeTree)
    returns (node: RbNode, ghost q: NodePath, ghost s: NodeTree)
    requires Located(path, t, root) && t.Node? && t.elem == old' && t.right.Node?
    ensures IsSpine(q) && s.Node? && s.elem == node && s.left.Leaf? && Plug(q, s) == t.right
    ensures Located(Append(q, RightOf(path, t.left, old', t.red)), s, root)
  {
    hide Located, Plug;
    ReadFields(path, t, root);
    ghost var base := RightOf(path, t.left, old', t.red);
    GoUp(base, t.right, root);
    node := old'.right;
    q, s := Top, t.right;
    PlugAtTop(s);
    ReadFields(base, s, root);
    while node.left != null
      invariant IsSpine(q) && s.Node? && s.elem == node && Plug(q, s) == t.right
      invariant node.left == RootOf(s.left)
      invariant Located(Append(q, base), s, root)
      decreases s
    {
      ghost var q' := LeftOf(q, s.elem, s.red, s.right);
      PlugStep(q', s.left);
      GoUp(Append(q', base), s.left, root);
      node := node.left;
      q, s := q', s.left;
      ReadFields(Append(q, base), s, root);
    }
  }

  lemma PlugStep(path: NodePath, t: NodeTree)
    requires path != Top
    ensures Plug(path, t) == Plug(path.up, Outer(path, t))
  {
  }

  /* ---------------------------------------------------------------- rb_erase */

  /** Taking out a red node with at most one child leaves the tree in order; taking out a black one
      leaves a subtree that is one black node short. */
  lemma SpliceBalance(path: NodePath, t: NodeTree)
    requires IsRedBlack(Plug(path, t)) && t.Node? && (t.left.Leaf? || t.right.Leaf?)
    ensures t.red ==> IsRedBlack(Plug(path, OnlyChild(t)))
    ensures t.red ==> OnlyChild(t).Leaf? && BalancedAround(path, 0)
    ensures !t.red ==> Erasing(path, OnlyChild(t))
  {
    PlugRedBlack(path, t);
    PlugRedBlack(path, OnlyChild(t));
  }

  lemma SpliceOrder(path: NodePath, t: NodeTree)
    requires t.Node? && (t.left.Leaf? || t.right.Leaf?)
    ensures Removed(InOrder(Plug(path, t)), t.elem, InOrder(Plug(path, OnlyChild(t))))
  {
    hide InOrder, Plug, Before, After, Removed;
    InOrderPlug(path, t);
    InOrderPlug(path, OnlyChild(t));
    Unfold(t.left, t.elem, t.red, t.right);
    if t.left.Leaf? {
      NothingIn(t.left);
    } else {
      NothingIn(t.right);
    }
    var a, b := Before(path) + InOrder(t.left), InOrder(t.right) + After(path);
    assert InOrder(Plug(path, t)) == a + [t.elem] + b;
    assert InOrder(Plug(path, OnlyChild(t))) == a + b;
    RemovedMiddle(a, t.elem, b);
  }

  /** Remove a node with at most one child. */
  method EraseOuter(node: RbNode, child: RbNode?, root: RbRoot, ghost path: NodePath, ghost t: NodeTree)
    returns (ghost whole': NodeTree)
    requires Located(path, t, root) && IsRedBlack(Plug(path, t)) && t.Node? && t.elem == node
    requires (t.left.Leaf? || t.right.Leaf?) && child == RootOf(OnlyChild(t))
    modifies root, root.nodes
    ensures Holds(whole', root) && IsRedBlack(whole') && root.nodes == old(root.nodes) - {node}
    ensures Removed(InOrder(Plug(path, t)), node, InOrder(whole'))
  {
    hide Located, Erasing, Plug, InOrder, Holds, Removed;
    ReadFields(path, t, root);
    SpliceBalance(path, t);
    SpliceOrder(path, t);
    var parent, red := node.parent, node.red;
    Splice(node, child, parent, root, path, t);
    if !red {
      whole' := EraseColor(child, parent, root, path, OnlyChild(t));
    } else {
      Refocus(path, OnlyChild(t), root);
      whole' := Plug(path, OnlyChild(t));
    }
  }

  /** The tree with old gone and its successor in its place. */
  lemma SuccessorOrder(path: NodePath, t: NodeTree, q: NodePath, s: NodeTree)
    requires t.Node? && IsSpine(q) && s.Node? && s.left.Leaf? && Plug(q, s) == t.right
    ensures var base := RightOf(path, t.left, s.elem, t.red);
      Removed(InOrder(Plug(path, t)), t.elem, InOrder(Plug(Append(q, base), s.right)))
  {
    var base := RightOf(path, t.left, s.elem, t.red);
    var r' := Plug(q, s.right);
    SuccessorFirst(q, s);
    PlugAppend(q, base, s.right);
    PlugStep(base, r');
    InOrderPlug(path, t);
    InOrderPlug(path, Outer(base, r'));
    Unfold(t.left, t.elem, t.red, t.right);
    Unfold(t.left, s.elem, t.red, r');
    hide InOrder, Plug, Before, After, Removed, Append;
    Exchange(Before(path), InOrder(t.left), t.elem, s.elem, InOrder(r'), After(path));
  }

  lemma SuccessorFirst(q: NodePath, s: NodeTree)
    requires IsSpine(q) && s.Node? && s.left.Leaf?
    ensures InOrder(Plug(q, s)) == [s.elem] + InOrder(Plug(q, s.right))
  {
    hide InOrder, Plug, Before, After, IsSpine;
    BeforeSpine(q);
    InOrderPlug(q, s);
    InOrderPlug(q, s.right);
    Unfold(s.left, s.elem, s.red, s.right);
    NothingIn(s.left);
    assert [] + ([] + [s.elem] + InOrder(s.right)) + After(q) == [s.elem] + ([] + InOrder(s.right) + After(q));
  }

  lemma NothingIn(t: NodeTree)
    requires t.Leaf?
    ensures InOrder(t) == []
  {
  }

  lemma Exchange<N>(a: seq<N>, l: seq<N>, x: N, y: N, r: seq<N>, b: seq<N>)
    ensures Removed(a + (l + [x] + ([y] + r)) + b, x, a + (l + [y] + r) + b)
  {
    assert a + (l + [x] + ([y] + r)) + b == (a + l) + [x] + ([y] + r + b);
    assert a + (l + [y] + r) + b == (a + l) + ([y] + r + b);
    RemovedMiddle(a + l, x, [y] + r + b);
  }

  lemma SuccessorBalance(path: NodePath, t: NodeTree, q: NodePath, s: NodeTree)
    requires t.Node? && IsRedBlack(Plug(path, t))
    requires IsSpine(q) && s.Node? && s.left.Leaf? && Plug(q, s) == t.right
    ensures var path' := Append(q, RightOf(path, t.left, s.elem, t.red));
      && (s.red ==> IsRedBlack(Plug(path', s.right)))
      && (!s.red ==> Erasing(path', s.right))
  {
    var base, base' := RightOf(path, t.left, t.elem, t.red), RightOf(path, t.left, s.elem, t.red);
    PlugAppend(q, base, s);
    SpliceBalance(Append(q, base), s);
    SpineBase(q, path, t.left, t.elem, s.elem, t.red, BlackHeight(s.right));
    SpineBase(q, path, t.left, t.elem, s.elem, t.red, BlackHeight(s.right) + 1);
    PlugRedBlack(Append(q, base'), s.right);
  }

  /** Remove a node with two children: its successor takes its place. */
  method EraseInner(old': RbNode, root: RbRoot, ghost path: NodePath, ghost t: NodeTree)
    returns (ghost whole': NodeTree)
    requires Located(path, t, root) && IsRedBlack(Plug(path, t)) && t.Node? && t.elem == old'
    requires t.left.Node? && t.right.Node?
    modifies root, root.nodes
    ensures Holds(whole', root) && IsRedBlack(whole') && root.nodes == old(root.nodes) - {old'}
    ensures Removed(InOrder(Plug(path, t)), old', InOrder(whole'))
  {
    hide Located, Erasing, Plug, InOrder, Holds, Removed, BalancedAround;
    ghost var q, s;
    var node;
    node, q, s := Successor(old', root, path, t);
    SuccessorOrder(path, t, q, s);
    SuccessorBalance(path, t, q, s);
    ghost var base, base' := RightOf(path, t.left, old', t.red), RightOf(path, t.left, node, t.red);
    ReadFields(Append(q, base), s, root);
    NotTheBase(q, base, s, root);
    var child, parent, red := node.right, node.parent, node.red;
    Splice(node, child, parent, root, Append(q, base), s);
    if parent == old' {
      parent := node;
    }
    SpineParent(q, base, base', s.right, root);
    // the spliced tree, seen from old
    PlugAppend(q, base, s.right);
    Refocus(Append(q, base), s.right, root);
    ghost var r' := Plug(q, s.right);
    PlugStep(base, r');
    Refocus(path, Outer(base, r'), root);
    ReplaceNode(old', node, root, path, Outer(base, r'));
    // and again from the place of the successor
    PlugAppend(q, base', s.right);
    PlugStep(base', r');
    Refocus(path, Outer(base', r'), root);
    Refocus(Append(q, base'), s.right, root);
    if !red {
      whole' := EraseColor(child, parent, root, Append(q, base'), s.right);
    } else {
      whole' := Plug(Append(q, base'), s.right);
    }
  }

  lemma SpineParent(q: NodePath, base: NodePath, base': NodePath, t: NodeTree, root: RbRoot)
    requires IsSpine(q) && base.RightOf? && base'.RightOf? && Located(Append(q, base), t, root)
    ensures Above(Append(q, base')) ==
      if Above(Append(q, base)) == base.parent then base'.parent else Above(Append(q, base))
  {
    if q != Top {
      BaseInSpine(q.up, base);
    }
  }

  lemma NotTheBase(q: NodePath, base: NodePath, s: NodeTree, root: RbRoot)
    requires IsSpine(q) && base != Top && s.Node? && Located(Append(q, base), s, root)
    ensures s.elem != base.parent && base.parent in root.nodes
  {
    BaseInSpine(q, base);
  }

  lemma {:induction false} BaseInSpine(q: NodePath, base: NodePath)
    requires IsSpine(q) && base != Top
    ensures base.parent in PathNodes(Append(q, base))
    decreases q
  {
    if q != Top {
      BaseInSpine(q.up, base);
    }
  }

  /** Remove node from the tree: exactly this node leaves the in-order sequence, and the tree is a
      red-black tree again. */
  method Erase(node: RbNode, root: RbRoot, ghost whole: NodeTree) returns (ghost whole': NodeTree)
    requires Holds(whole, root) && IsRedBlack(whole) && node in root.nodes
    modifies root, root.nodes
    ensures Holds(whole', root) && IsRedBlack(whole') && root.nodes == old(root.nodes) - {node}
    ensures Removed(InOrder(whole), node, InOrder(whole'))
  {
    hide Located, Plug, InOrder, Removed;
    ghost var path, t := FindNode(Top, whole, node);
    PlugAtTop(whole);
    Refocus(path, t, root);
    ReadFields(path, t, root);
    if node.left == null {
      whole' := EraseOuter(node, node.right, root, path, t);
    } else if node.right == null {
      whole' := EraseOuter(node, node.left, root, path, t);
    } else {
      whole' := EraseInner(node, root, path, t);
    }
  }
}
