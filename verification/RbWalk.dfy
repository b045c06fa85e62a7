// rb_first, rb_last, rb_next, rb_prev and the post-order walk of lib/rbtree.c.

module RbWalk {
  import opened Basics
  import opened RedBlack
  import opened RbTree
  import opened RbInsert
  import RbRemove

  /* ---------------------------------------------------------------- in-order neighbours */

  ghost function At(s: seq<RbNode>, i: int): RbNode?
  {
    if 0 <= i < |s| then s[i] else null
  }

  /** y is the element after x in s; null stands for none. */
  ghost predicate Follows(s: seq<RbNode>, x: RbNode, y: RbNode?)
  {
    exists i :: 0 <= i < |s| && s[i] == x && y == At(s, i + 1)
  }

  ghost predicate Precedes(s: seq<RbNode>, x: RbNode, y: RbNode?)
  {
    exists i :: 0 <= i < |s| && s[i] == x && y == At(s, i - 1)
  }

  lemma Neighbours(a: seq<RbNode>, x: RbNode, b: seq<RbNode>)
    ensures Follows(a + [x] + b, x, At(b, 0))
    ensures Precedes(a + [x] + b, x, At(a, |a| - 1))
  {
    var s, i := a + [x] + b, |a|;
    assert s[i] == x && At(s, i + 1) == At(b, 0) && At(s, i - 1) == At(a, i - 1);
  }

  lemma Associate(a: seq<RbNode>, b: seq<RbNode>, c: seq<RbNode>)
    ensures a + b + c == a + (b + c)
  {
  }

  lemma ClimbOrder(path: NodePath, t: NodeTree)
    ensures path.RightOf? ==> Before(path.up) + InOrder(Outer(path, t)) == Before(path) + InOrder(t)
    ensures path.LeftOf? ==> InOrder(Outer(path, t)) + After(path.up) == InOrder(t) + After(path)
    ensures path.LeftOf? ==> At(After(path), 0) == path.parent
    ensures path.RightOf? ==> At(Before(path), |Before(path)| - 1) == path.parent
    ensures path.Top? ==> Before(path) == [] && After(path) == []
  {
  }

  /** A node of a tree is not its own parent, the mark of a node outside any tree. */
  lemma ParentDiffers(path: NodePath, t: NodeTree, root: RbRoot)
    requires Located(path, t, root) && t.Node?
    ensures t.elem.parent != t.elem
  {
    AboveInPath(path);
  }

  lemma SomeIn(t: NodeTree)
    ensures t.Node? ==> InOrder(t) != []
  {
  }

  lemma NeighboursBelow(path: NodePath, t: NodeTree)
    requires t.Node?
    ensures t.right.Node? ==> InOrder(t.right) != [] && Follows(InOrder(Plug(path, t)), t.elem, InOrder(t.right)[0])
    ensures t.left.Node? ==>
      InOrder(t.left) != [] && Precedes(InOrder(Plug(path, t)), t.elem, InOrder(t.left)[|InOrder(t.left)| - 1])
  {
    hide InOrder, Plug, Follows, Precedes, Before, After;
    InOrderPlug(path, t);
    Unfold(t.left, t.elem, t.red, t.right);
    SomeIn(t.left);
    SomeIn(t.right);
    var a, b := Before(path) + InOrder(t.left), InOrder(t.right) + After(path);
    assert InOrder(Plug(path, t)) == a + [t.elem] + b;
    assert t.right.Node? ==> At(b, 0) == InOrder(t.right)[0];
    assert t.left.Node? ==> At(a, |a| - 1) == InOrder(t.left)[|InOrder(t.left)| - 1];
    Neighbours(a, t.elem, b);
  }

  method Leftmost(n: RbNode, root: RbRoot, ghost path0: NodePath, ghost t0: NodeTree) returns (node: RbNode)
    requires Located(path0, t0, root) && t0.Node? && t0.elem == n
    ensures InOrder(t0) != [] && node == InOrder(t0)[0]
  {
    hide Located;
    ghost var path, t := path0, t0;
    node := n;
    ReadFields(path, t, root);
    while node.left != null
      invariant Located(path, t, root) && t.Node? && t.elem == node && node.left == RootOf(t.left)
      invariant InOrder(t0) != [] && InOrder(t0)[0] == InOrder(t)[0]
      decreases t
    {
      ghost var path' := LeftOf(path, t.elem, t.red, t.right);
      GoUp(path', t.left, root);
      node := node.left;
      assert InOrder(t.left) != [];
      path, t := path', t.left;
      ReadFields(path, t, root);
    }
  }

  method Rightmost(n: RbNode, root: RbRoot, ghost path0: NodePath, ghost t0: NodeTree) returns (node: RbNode)
    requires Located(path0, t0, root) && t0.Node? && t0.elem == n
    ensures InOrder(t0) != [] && node == InOrder(t0)[|InOrder(t0)| - 1]
  {
    hide Located;
    ghost var path, t := path0, t0;
    node := n;
    ReadFields(path, t, root);
    while node.right != null
      invariant Located(path, t, root) && t.Node? && t.elem == node && node.right == RootOf(t.right)
      invariant InOrder(t0) != [] && InOrder(t0)[|InOrder(t0)| - 1] == InOrder(t)[|InOrder(t)| - 1]
      decreases t
    {
      ghost var path' := RightOf(path, t.left, t.elem, t.red);
      GoUp(path', t.right, root);
      node := node.right;
      assert InOrder(t.right) != [];
      path, t := path', t.right;
      ReadFields(path, t, root);
    }
  }

  lemma RightEnd(path: NodePath, t: NodeTree)
    requires t.Node? && t.right.Leaf?
    ensures Before(path) + InOrder(t) == (Before(path) + InOrder(t.left)) + [t.elem]
  {
    assert InOrder(t.right) == [];
  }

  lemma LeftEnd(path: NodePath, t: NodeTree)
    requires t.Node? && t.left.Leaf?
    ensures InOrder(t) + After(path) == [t.elem] + (InOrder(t.right) + After(path))
  {
    assert InOrder(t.left) == [];
  }

  method First(root: RbRoot, ghost whole: NodeTree) returns (n: RbNode?)
    requires Holds(whole, root)
    ensures n == if InOrder(whole) == [] then null else InOrder(whole)[0]
  {
    if root.node == null {
      return null;
    }
    Refocus(Top, whole, root);
    n := Leftmost(root.node, root, Top, whole);
  }

  method Last(root: RbRoot, ghost whole: NodeTree) returns (n: RbNode?)
    requires Holds(whole, root)
    ensures n == if InOrder(whole) == [] then null else InOrder(whole)[|InOrder(whole)| - 1]
  {
    if root.node == null {
      return null;
    }
    Refocus(Top, whole, root);
    n := Rightmost(root.node, root, Top, whole);
  }

  /** rb_next: the node after this one in order, or none. */
  method Next(node0: RbNode, root: RbRoot, ghost whole: NodeTree) returns (next: RbNode?)
    requires Holds(whole, root) && node0 in root.nodes
    ensures Follows(InOrder(whole), node0, next)
  {
    hide Located, Follows, Plug;
    ghost var path0, t0 := RbRemove.FindNode(Top, whole, node0);
    PlugAtTop(whole);
    Refocus(path0, t0, root);
    ReadFields(path0, t0, root);
    ParentDiffers(path0, t0, root);
    if node0.parent == node0 {
      assert false;
    }
    if node0.right != null {
      ghost var right := RightOf(path0, t0.left, t0.elem, t0.red);
      GoUp(right, t0.right, root);
      var n := Leftmost(node0.right, root, right, t0.right);
      NeighboursBelow(path0, t0);
      return n;
    }
    ghost var path, t := path0, t0;
    ghost var done := Before(path0) + InOrder(t0.left);
    RightEnd(path0, t0);
    hide InOrder, Before, After;
    var node := node0;
    var parent := node.parent;
    if path0 != Top {
      LeftIsNotRight(path0, t0, root);
    }
    while parent != null && node == parent.right
      invariant Located(path, t, root) && t.Node? && t.elem == node && parent == Above(path)
      invariant Plug(path, t) == whole && Before(path) + InOrder(t) == done + [node0]
      invariant parent != null ==> (parent.right == node <==> path.RightOf?)
      decreases Depth(path)
    {
      ClimbOrder(path, t);
      GoUp(path, t, root);
      RbRemove.PlugStep(path, t);
      path, t := path.up, Outer(path, t);
      node := parent;
      ReadFields(path, t, root);
      if path != Top {
        LeftIsNotRight(path, t, root);
      }
      parent := node.parent;
    }
    InOrderPlug(path, t);
    ClimbOrder(path, t);
    Neighbours(done, node0, After(path));
    next := parent;
  }

  /** rb_prev: the node before this one in order, or none. */
  method Prev(node0: RbNode, root: RbRoot, ghost whole: NodeTree) returns (prev: RbNode?)
    requires Holds(whole, root) && node0 in root.nodes
    ensures Precedes(InOrder(whole), node0, prev)
  {
    hide Located, Precedes, Plug;
    ghost var path0, t0 := RbRemove.FindNode(Top, whole, node0);
    PlugAtTop(whole);
    Refocus(path0, t0, root);
    ReadFields(path0, t0, root);
    ParentDiffers(path0, t0, root);
    if node0.parent == node0 {
      assert false;
    }
    if node0.left != null {
      ghost var left := LeftOf(path0, t0.elem, t0.red, t0.right);
      GoUp(left, t0.left, root);
      var n := Rightmost(node0.left, root, left, t0.left);
      NeighboursBelow(path0, t0);
      return n;
    }
    ghost var path, t := path0, t0;
    ghost var rest := InOrder(t0.right) + After(path0);
    LeftEnd(path0, t0);
    hide InOrder, Before, After;
    var node := node0;
    var parent := node.parent;
    if path0 != Top {
      LeftIsNotRight(path0, t0, root);
    }
    while parent != null && node == parent.left
      invariant Located(path, t, root) && t.Node? && t.elem == node && parent == Above(path)
      invariant Plug(path, t) == whole && InOrder(t) + After(path) == [node0] + rest
      invariant parent != null ==> (parent.left == node <==> path.LeftOf?)
      decreases Depth(path)
    {
      ClimbOrder(path, t);
      GoUp(path, t, root);
      RbRemove.PlugStep(path, t);
      path, t := path.up, Outer(path, t);
      node := parent;
      ReadFields(path, t, root);
      if path != Top {
        LeftIsNotRight(path, t, root);
      }
      parent := node.parent;
    }
    InOrderPlug(path, t);
    ClimbOrder(path, t);
    Associate(Before(path), InOrder(t), After(path));
    Associate(Before(path), [node0], rest);
    Neighbours(Before(path), node0, rest);
    prev := parent;
  }

  /* ---------------------------------------------------------------- whole walks */

  lemma NextIndex(s: seq<RbNode>, i: nat, y: RbNode?)
    requires NoRepeats(s) && i < |s| && Follows(s, s[i], y)
    ensures y == At(s, i + 1)
  {
  }

  lemma PrevIndex(s: seq<RbNode>, i: nat, y: RbNode?)
    requires NoRepeats(s) && i < |s| && Precedes(s, s[i], y)
    ensures y == At(s, i - 1)
  {
  }

  lemma MemberOfTree(whole: NodeTree, root: RbRoot, i: nat)
    requires Holds(whole, root) && i < |InOrder(whole)|
    ensures InOrder(whole)[i] in root.nodes
  {
    NodeIsInOrder(whole, InOrder(whole)[i]);
  }

  /** rb_first and then rb_next until it finds nothing: every node once, in order. */
  method ForwardWalk(root: RbRoot, ghost whole: NodeTree) returns (visited: seq<RbNode>)
    requires Holds(whole, root)
    ensures visited == InOrder(whole)
  {
    hide InOrder, Follows;
    ghost var s := InOrder(whole);
    SeparateInOrder(whole);
    var n := First(root, whole);
    visited := [];
    while n != null
      invariant |visited| <= |s| && visited == s[..|visited|] && n == At(s, |visited|)
      decreases |s| - |visited|
    {
      ghost var i := |visited|;
      MemberOfTree(whole, root, i);
      visited := visited + [n];
      var next := Next(n, root, whole);
      NextIndex(s, i, next);
      n := next;
    }
  }

  /** rb_last and then rb_prev: the same nodes backwards. */
  method BackwardWalk(root: RbRoot, ghost whole: NodeTree) returns (visited: seq<RbNode>)
    requires Holds(whole, root)
    ensures |visited| == |InOrder(whole)|
    ensures forall i :: 0 <= i < |visited| ==> visited[i] == InOrder(whole)[|visited| - 1 - i]
  {
    hide InOrder, Precedes;
    ghost var s := InOrder(whole);
    SeparateInOrder(whole);
    var n := Last(root, whole);
    visited := [];
    while n != null
      invariant |visited| <= |s| && n == At(s, |s| - 1 - |visited|)
      invariant forall i :: 0 <= i < |visited| ==> visited[i] == s[|s| - 1 - i]
      decreases |s| - |visited|
    {
      ghost var i := |s| - 1 - |visited|;
      MemberOfTree(whole, root, i);
      visited := visited + [n];
      var prev := Prev(n, root, whole);
      PrevIndex(s, i, prev);
      n := prev;
    }
  }

  /** Going forward and back again returns to the same node. */
  lemma NextThenPrev(s: seq<RbNode>, x: RbNode, y: RbNode, z: RbNode?)
    requires NoRepeats(s) && Follows(s, x, y) && Precedes(s, y, z)
    ensures z == x
  {
    var i :| 0 <= i < |s| && s[i] == x && y == At(s, i + 1);
    PrevIndex(s, i + 1, z);
  }

  /* ---------------------------------------------------------------- post-order */

  ghost function PostOrder(t: NodeTree): seq<RbNode>
  {
    match t
    case Leaf => []
    case Node(l, n, _, r) => PostOrder(l) + PostOrder(r) + [n]
  }

  ghost function PostBefore(path: NodePath): seq<RbNode>
  {
    match path
    case Top => []
    case LeftOf(up, _, _, _) => PostBefore(up)
    case RightOf(up, l, _, _) => PostBefore(up) + PostOrder(l)
  }

  ghost function PostAfter(path: NodePath): seq<RbNode>
  {
    match path
    case Top => []
    case LeftOf(up, p, _, r) => PostOrder(r) + [p] + PostAfter(up)
    case RightOf(up, _, p, _) => [p] + PostAfter(up)
  }

  lemma {:induction false} PostPlug(path: NodePath, t: NodeTree)
    ensures PostOrder(Plug(path, t)) == PostBefore(path) + PostOrder(t) + PostAfter(path)
    decreases path
  {
    match path
    case Top =>
    case LeftOf(up, p, red, r) =>
      PostPlug(up, Node(t, p, red, r));
      RedBlack.Regroup(PostBefore(up), PostOrder(t), PostOrder(r), [p], PostAfter(up));
    case RightOf(up, l, p, red) =>
      PostPlug(up, Node(l, p, red, t));
      RegroupRight(PostBefore(up), PostOrder(l), PostOrder(t), [p], PostAfter(up));
  }

  lemma RegroupRight(a: seq<RbNode>, b: seq<RbNode>, c: seq<RbNode>, d: seq<RbNode>, e: seq<RbNode>)
    ensures a + (b + c + d) + e == (a + b) + c + (d + e)
  {
  }

  /** Post-order visits the same nodes as in-order, each as often. */
  lemma {:induction false} PostOrderNodes(t: NodeTree)
    ensures multiset(PostOrder(t)) == multiset(InOrder(t))
  {
    match t
    case Leaf =>
    case Node(l, n, _, r) =>
      PostOrderNodes(l);
      PostOrderNodes(r);
  }

  /** In post-order a node comes after everything below it. */
  lemma {:induction false} ChildrenFirst(whole: NodeTree, path: NodePath, t: NodeTree)
    requires Plug(path, t) == whole && t.Node?
    ensures var i := |PostBefore(path)| + |PostOrder(t)| - 1;
      && i < |PostOrder(whole)| && PostOrder(whole)[i] == t.elem
      && PostOrder(whole)[|PostBefore(path)|..i] == PostOrder(t.left) + PostOrder(t.right)
  {
    PostPlug(path, t);
    assert PostOrder(t) == PostOrder(t.left) + PostOrder(t.right) + [t.elem];
    hide PostOrder, PostBefore, PostAfter, Plug;
    MiddleOf(PostBefore(path), PostOrder(t.left) + PostOrder(t.right), t.elem, PostAfter(path));
  }

  lemma MiddleOf(a: seq<RbNode>, c: seq<RbNode>, x: RbNode, b: seq<RbNode>)
    ensures var s := a + (c + [x]) + b;
      s[|a| + |c|] == x && s[|a|..|a| + |c|] == c
  {
  }

  method LeftDeepest(n: RbNode, root: RbRoot, ghost path0: NodePath, ghost t0: NodeTree) returns (node: RbNode)
    requires Located(path0, t0, root) && t0.Node? && t0.elem == n
    ensures PostOrder(t0) != [] && node == PostOrder(t0)[0]
  {
    hide Located;
    ghost var path, t := path0, t0;
    node := n;
    while true
      invariant Located(path, t, root) && t.Node? && t.elem == node
      invariant PostOrder(t0) != [] && PostOrder(t0)[0] == PostOrder(t)[0]
      decreases t
    {
      ReadFields(path, t, root);
      if node.left != null {
        ghost var path' := LeftOf(path, t.elem, t.red, t.right);
        GoUp(path', t.left, root);
        node := node.left;
        assert PostOrder(t.left) != [];
        path, t := path', t.left;
      } else if node.right != null {
        ghost var path' := RightOf(path, t.left, t.elem, t.red);
        GoUp(path', t.right, root);
        node := node.right;
        assert PostOrder(t.left) == [] && PostOrder(t.right) != [];
        path, t := path', t.right;
      } else {
        assert PostOrder(t) == [node];
        return;
      }
    }
  }

  method FirstPostorder(root: RbRoot, ghost whole: NodeTree) returns (n: RbNode?)
    requires Holds(whole, root)
    ensures n == At(PostOrder(whole), 0)
  {
    if root.node == null {
      return null;
    }
    Refocus(Top, whole, root);
    n := LeftDeepest(root.node, root, Top, whole);
  }

  method NextPostorder(node: RbNode, root: RbRoot, ghost whole: NodeTree) returns (next: RbNode?)
    requires Holds(whole, root) && node in root.nodes
    ensures Follows(PostOrder(whole), node, next)
  {
    hide Located, Follows, Plug, PostOrder, PostBefore, PostAfter;
    ghost var path, t := RbRemove.FindNode(Top, whole, node);
    PlugAtTop(whole);
    Refocus(path, t, root);
    ReadFields(path, t, root);
    PostNext(path, t);
    var parent := node.parent;
    if path != Top {
      LeftIsNotRight(path, t, root);
    }
    if parent != null && node == parent.left && parent.right != null {
      ghost var across := RightOf(path.up, t, path.parent, path.red);
      GoUp(path, t, root);
      GoUp(across, path.right, root);
      ReadFields(across, path.right, root);
      next := LeftDeepest(parent.right, root, across, path.right);
    } else {
      next := parent;
    }
  }

  lemma PostNext(path: NodePath, t: NodeTree)
    requires t.Node?
    ensures path.LeftOf? && path.right.Node? ==>
      PostOrder(path.right) != [] && Follows(PostOrder(Plug(path, t)), t.elem, PostOrder(path.right)[0])
    ensures !(path.LeftOf? && path.right.Node?) ==> Follows(PostOrder(Plug(path, t)), t.elem, Above(path))
  {
    PostPlug(path, t);
    var a, b := PostBefore(path) + (PostOrder(t.left) + PostOrder(t.right)), PostAfter(path);
    assert PostBefore(path) + PostOrder(t) + b == a + [t.elem] + b;
    Neighbours(a, t.elem, b);
  }

  /** rb_first_postorder and then rb_next_postorder: every node once, children before parents. */
  method PostorderWalk(root: RbRoot, ghost whole: NodeTree) returns (visited: seq<RbNode>)
    requires Holds(whole, root)
    ensures visited == PostOrder(whole) && multiset(visited) == multiset(InOrder(whole)) && NoRepeats(visited)
  {
    hide InOrder, PostOrder, Follows;
    ghost var s := PostOrder(whole);
    SeparateInOrder(whole);
    PostOrderNodes(whole);
    NoRepeatsMultiset(InOrder(whole), s);
    var n := FirstPostorder(root, whole);
    visited := [];
    while n != null
      invariant |visited| <= |s| && visited == s[..|visited|] && n == At(s, |visited|)
      decreases |s| - |visited|
    {
      ghost var i := |visited|;
      assert s[i] in multiset(s);
      NodeIsInOrder(whole, n);
      visited := visited + [n];
      var next := NextPostorder(n, root, whole);
      NextIndex(s, i, next);
      n := next;
    }
  }

  lemma NoRepeatsMultiset(a: seq<RbNode>, b: seq<RbNode>)
    requires multiset(a) == multiset(b) && NoRepeats(a)
    ensures NoRepeats(b)
  {
    forall i, j | 0 <= i < j < |b| ensures b[i] != b[j] {
      if b[i] == b[j] {
        var x := b[i];
        var p, q := b[..j], b[j..];
        assert b == p + q && p[i] == x && q[0] == x;
        assert x in multiset(p) && x in multiset(q);
        OnceEach(a, x);
        assert false;
      }
    }
  }

  lemma {:induction false} OnceEach(a: seq<RbNode>, x: RbNode)
    requires NoRepeats(a)
    ensures multiset(a)[x] <= 1
  {
    if |a| > 0 {
      var init, last := a[..|a| - 1], a[|a| - 1];
      assert a == init + [last];
      OnceEach(init, x);
      assert last == x ==> forall i :: 0 <= i < |init| ==> init[i] == a[i] != x;
      assert last == x ==> multiset(init)[x] == 0;
    }
  }
}
