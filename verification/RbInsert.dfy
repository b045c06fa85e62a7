// rb_insert_color of lib/rbtree.c.

module RbInsert {
  import opened RedBlack
  import opened RbTree

  /** Two children black, their parent red: the recolouring step of insertion. */
  method PaintFamily(g: RbNode, left: RbNode, right: RbNode, root: RbRoot, ghost path: NodePath, ghost t: NodeTree)
    requires Located(path, t, root) && t.Node? && t.elem == g
    requires t.left.Node? && t.left.elem == left && t.right.Node? && t.right.elem == right
    modifies root.nodes
    ensures Located(path, FamilyPainted(t), root)
  {
    hide Located;
    NodesOf(path, t, root);
    var b := t.right.(red := false);
    GoUp(RightOf(path, t.left, g, t.red), t.right, root);
    Paint(right, false, root, RightOf(path, t.left, g, t.red), t.right);
    GoUp(RightOf(path, t.left, g, t.red), b, root);
    GoUp(LeftOf(path, g, t.red, b), t.left, root);
    Paint(left, false, root, LeftOf(path, g, t.red, b), t.left);
    GoUp(LeftOf(path, g, t.red, b), t.left.(red := false), root);
    Paint(g, true, root, path, Node(t.left.(red := false), g, t.red, b));
  }

  ghost function FamilyPainted(t: NodeTree): NodeTree
    requires t.Node? && t.left.Node? && t.right.Node?
  {
    Node(t.left.(red := false), t.elem, true, t.right.(red := false))
  }

  lemma NodesOf(path: NodePath, t: NodeTree, root: RbRoot)
    requires Located(path, t, root) && t.Node?
    ensures t.elem in root.nodes
    ensures t.left.Node? ==> t.left.elem in root.nodes
    ensures t.right.Node? ==> t.right.elem in root.nodes
  {
  }

  /* ---------------------------------------------------------------- the two kinds of steps */

  /** During insertion: everything is balanced, except that the red node at hand may hang below a red
      node. */
  ghost predicate Inserting(path: NodePath, t: NodeTree)
  {
    IsRed(t) && Balanced(t) && BalancedAround(path, BlackHeight(t))
  }

  lemma RedParent(path: NodePath, t: NodeTree)
    requires Inserting(path, t) && UnderRed(path)
    ensures path.up != Top && !path.up.red
  {
  }

  ghost function Grandparent(path: NodePath, t: NodeTree): NodeTree
    requires path != Top && path.up != Top
  {
    Outer(path.up, Outer(path, t))
  }

  /** The uncle of the node at hand. */
  ghost function Uncle(path: NodePath): NodeTree
    requires path != Top && path.up != Top
  {
    if path.up.LeftOf? then path.up.right else path.up.left
  }

  /** A red uncle: recolour, and the trouble moves two levels up. */
  lemma RecolourKeeps(path: NodePath, t: NodeTree)
    requires Inserting(path, t) && UnderRed(path) && path.up != Top && IsRed(Uncle(path))
    ensures var g := Grandparent(path, t);
      && g.left.Node? && g.right.Node? && Inserting(path.up.up, FamilyPainted(g))
      && InOrder(FamilyPainted(g)) == InOrder(g)
  {
    var h, p, u := BlackHeight(t), Outer(path, t), Uncle(path);
    assert BalancedAround(path.up, h) && BalancedAround(path.up.up, h + 1);
    assert Balanced(p.(red := false)) && BlackHeight(p.(red := false)) == h + 1;
    assert Balanced(u.(red := false)) && BlackHeight(u.(red := false)) == h + 1;
    Repainted(Top, p, false);
    Repainted(Top, u, false);
  }

  /** The parent's subtree after the first rotation, which makes the red pair lean outwards. */
  ghost function LeaningLeft(path: NodePath, t: NodeTree): NodeTree
    requires path != Top && t.Node?
  {
    if path.RightOf? then RotatedLeft(Outer(path, t)) else Outer(path, t)
  }

  ghost function LeaningRight(path: NodePath, t: NodeTree): NodeTree
    requires path != Top && t.Node?
  {
    if path.LeftOf? then RotatedRight(Outer(path, t)) else Outer(path, t)
  }

  /** A black uncle on the right: after both rotations the node at hand hangs below a black node. */
  lemma RotateKeepsLeft(path: NodePath, t: NodeTree)
    requires Inserting(path, t) && UnderRed(path) && path.up.LeftOf? && !IsRed(path.up.right)
    ensures var p := LeaningLeft(path, t);
      && p.Node? && p.left.Node? && !path.up.red
      && Inserting(LeftOf(path.up.up, p.elem, false, Node(p.right, path.up.parent, true, path.up.right)), p.left)
      && InOrder(p) == InOrder(Outer(path, t))
  {
    var h := BlackHeight(t);
    assert BalancedAround(path.up, h) && BalancedAround(path.up.up, h + 1);
    if path.RightOf? {
      PartsOfRight(Top, path.left, path.parent, path.red, t.left, t.elem, t.red, t.right);
      PartsOfLeft(Top, path.left, path.parent, path.red, t.left, t.elem, t.red, t.right);
    }
    var p, g := LeaningLeft(path, t), Node(LeaningLeft(path, t).right, path.up.parent, true, path.up.right);
    assert Balanced(p.left) && IsRed(p.left) && BlackHeight(p.left) == h;
    assert Balanced(g) && BlackHeight(g) == h;
  }

  lemma RotateKeepsRight(path: NodePath, t: NodeTree)
    requires Inserting(path, t) && UnderRed(path) && path.up.RightOf? && !IsRed(path.up.left)
    ensures var p := LeaningRight(path, t);
      && p.Node? && p.right.Node? && !path.up.red
      && Inserting(RightOf(path.up.up, Node(path.up.left, path.up.parent, true, p.left), p.elem, false), p.right)
      && InOrder(p) == InOrder(Outer(path, t))
  {
    var h := BlackHeight(t);
    assert BalancedAround(path.up, h) && BalancedAround(path.up.up, h + 1);
    if path.LeftOf? {
      PartsOfRight(Top, t.left, t.elem, t.red, t.right, path.parent, path.red, path.right);
      PartsOfLeft(Top, t.left, t.elem, t.red, t.right, path.parent, path.red, path.right);
    }
    var p, g := LeaningRight(path, t), Node(path.up.left, path.up.parent, true, LeaningRight(path, t).left);
    assert Balanced(p.right) && IsRed(p.right) && BlackHeight(p.right) == h;
    assert Balanced(g) && BlackHeight(g) == h;
  }

  /* ---------------------------------------------------------------- the code */

  lemma SameOrder(path: NodePath, t: NodeTree, t': NodeTree)
    requires InOrder(t) == InOrder(t')
    ensures InOrder(Plug(path, t)) == InOrder(Plug(path, t'))
  {
    hide Plug, InOrder;
    InOrderPlug(path, t);
    InOrderPlug(path, t');
  }

  /** The parent is a left child and the uncle is black. */
  method FixLeft(node: RbNode, parent: RbNode, gparent: RbNode, root: RbRoot, ghost path: NodePath, ghost t: NodeTree)
    returns (next: RbNode, ghost path': NodePath, ghost t': NodeTree)
    requires Located(path, t, root) && Inserting(path, t) && UnderRed(path) && path.up.LeftOf? && !IsRed(path.up.right)
    requires t.Node? && node == t.elem && parent == path.parent && gparent == path.up.parent
    modifies root, root.nodes
    ensures Located(path', t', root) && root.nodes == old(root.nodes) && t'.Node? && next == t'.elem
    ensures Inserting(path', t') && path' != Top && !path'.red
    ensures InOrder(Plug(path', t')) == InOrder(Plug(path, t))
  {
    hide Located, Inserting, Plug, InOrder;
    ghost var up := path.up;
    ghost var p, g := LeaningLeft(path, t), up.parent;
    ReadFields(path, t, root);
    RotateKeepsLeft(path, t);
    GoUp(path, t, root);
    var parent' := parent;
    next := node;
    assert parent.right == node <==> path.RightOf? by { LeftIsNotRight(path, t, root); }
    if parent.right == node {
      LocatedNodes(up, Outer(path, t), root);
      RotateLeft(parent, root, up, Outer(path, t));
      parent', next := node, parent;
    }
    LocatedNodes(up, p, root);
    Paint(parent', false, root, up, p);
    GoUp(up, p.(red := false), root);
    ghost var whole := Outer(up, p.(red := false));
    LocatedNodes(up.up, whole, root);
    Paint(gparent, true, root, up.up, whole);
    LocatedNodes(up.up, whole.(red := true), root);
    RotateRight(gparent, root, up.up, whole.(red := true));
    path' := LeftOf(up.up, p.elem, false, Node(p.right, g, true, up.right));
    t' := p.left;
    GoUp(path', t', root);
    FixLeftOrder(path, t, p);
  }

  lemma LocatedNodes(path: NodePath, t: NodeTree, root: RbRoot)
    requires Located(path, t, root)
    ensures Nodes(t) <= root.nodes && PathNodes(path) <= root.nodes
  {
  }

  lemma LeftIsNotRight(path: NodePath, t: NodeTree, root: RbRoot)
    requires Located(path, t, root) && path != Top && t.Node?
    ensures path.parent.right == t.elem <==> path.RightOf?
    ensures path.parent.left == t.elem <==> path.LeftOf?
  {
    if path.LeftOf? {
      RootInNodes(path.right);
    } else {
      RootInNodes(path.left);
    }
  }

  lemma FixLeftOrder(path: NodePath, t: NodeTree, p: NodeTree)
    requires path != Top && path.up.LeftOf? && p.Node? && InOrder(p) == InOrder(Outer(path, t))
    ensures var path' := LeftOf(path.up.up, p.elem, false, Node(p.right, path.up.parent, true, path.up.right));
      InOrder(Plug(path', p.left)) == InOrder(Plug(path, t))
  {
    hide InOrder;
    var up := path.up;
    var g, g' := Outer(up, p), Node(p.left, p.elem, false, Node(p.right, up.parent, true, up.right));
    PartsOfLeft(Top, p.left, p.elem, p.red, p.right, up.parent, up.red, up.right);
    PartsOfRight(Top, p.left, p.elem, false, p.right, up.parent, true, up.right);
    SameOrder(up, p, Outer(path, t));
    SameOrder(up.up, g, g');
  }

  /** The parent is a right child and the uncle is black. */
  method FixRight(node: RbNode, parent: RbNode, gparent: RbNode, root: RbRoot, ghost path: NodePath, ghost t: NodeTree)
    returns (next: RbNode, ghost path': NodePath, ghost t': NodeTree)
    requires Located(path, t, root) && Inserting(path, t) && UnderRed(path) && path.up.RightOf? && !IsRed(path.up.left)
    requires t.Node? && node == t.elem && parent == path.parent && gparent == path.up.parent
    modifies root, root.nodes
    ensures Located(path', t', root) && root.nodes == old(root.nodes) && t'.Node? && next == t'.elem
    ensures Inserting(path', t') && path' != Top && !path'.red
    ensures InOrder(Plug(path', t')) == InOrder(Plug(path, t))
  {
    hide Located, Inserting, Plug, InOrder;
    ghost var up := path.up;
    ghost var p, g := LeaningRight(path, t), up.parent;
    ReadFields(path, t, root);
    RotateKeepsRight(path, t);
    GoUp(path, t, root);
    var parent' := parent;
    next := node;
    assert parent.left == node <==> path.LeftOf? by { LeftIsNotRight(path, t, root); }
    if parent.left == node {
      LocatedNodes(up, Outer(path, t), root);
      RotateRight(parent, root, up, Outer(path, t));
      parent', next := node, parent;
    }
    LocatedNodes(up, p, root);
    Paint(parent', false, root, up, p);
    GoUp(up, p.(red := false), root);
    ghost var whole := Outer(up, p.(red := false));
    LocatedNodes(up.up, whole, root);
    Paint(gparent, true, root, up.up, whole);
    LocatedNodes(up.up, whole.(red := true), root);
    RotateLeft(gparent, root, up.up, whole.(red := true));
    path' := RightOf(up.up, Node(up.left, g, true, p.left), p.elem, false);
    t' := p.right;
    GoUp(path', t', root);
    FixRightOrder(path, t, p);
  }

  lemma FixRightOrder(path: NodePath, t: NodeTree, p: NodeTree)
    requires path != Top && path.up.RightOf? && p.Node? && InOrder(p) == InOrder(Outer(path, t))
    ensures var path' := RightOf(path.up.up, Node(path.up.left, path.up.parent, true, p.left), p.elem, false);
      InOrder(Plug(path', p.right)) == InOrder(Plug(path, t))
  {
    hide InOrder;
    var up := path.up;
    var g, g' := Outer(up, p), Node(Node(up.left, up.parent, true, p.left), p.elem, false, p.right);
    PartsOfRight(Top, up.left, up.parent, up.red, p.left, p.elem, p.red, p.right);
    PartsOfLeft(Top, up.left, up.parent, true, p.left, p.elem, false, p.right);
    SameOrder(up, p, Outer(path, t));
    SameOrder(up.up, g, g');
  }

  /** The uncle is red. */
  method Recolour(parent: RbNode, gparent: RbNode, uncle: RbNode, root: RbRoot, ghost path: NodePath, ghost t: NodeTree)
    returns (ghost t': NodeTree)
    requires Located(path, t, root) && Inserting(path, t) && UnderRed(path) && path.up != Top && IsRed(Uncle(path))
    requires parent == path.parent && gparent == path.up.parent && uncle == Uncle(path).elem
    modifies root.nodes
    ensures Located(path.up.up, t', root) && t'.Node? && t'.elem == gparent && Inserting(path.up.up, t')
    ensures InOrder(Plug(path.up.up, t')) == InOrder(Plug(path, t))
  {
    hide Located, Inserting, InOrder;
    ghost var g := Grandparent(path, t);
    RecolourKeeps(path, t);
    GoUp(path, t, root);
    GoUp(path.up, Outer(path, t), root);
    LeftIsNotRight(path.up, Outer(path, t), root);
    if parent == gparent.left {
      PaintFamily(gparent, parent, uncle, root, path.up.up, g);
    } else {
      PaintFamily(gparent, uncle, parent, root, path.up.up, g);
    }
    t' := FamilyPainted(g);
    SameOrder(path.up.up, g, t');
  }

  /** Restore the red-black invariants after linking a red leaf. */
  method InsertColor(inserted: RbNode, root: RbRoot, ghost path0: NodePath,
    ghost t0: NodeTree) returns (ghost whole: NodeTree)
    requires Located(path0, t0, root) && t0.Node? && t0.elem == inserted && Inserting(path0, t0)
    modifies root, root.nodes
    ensures Holds(whole, root) && IsRedBlack(whole)
    ensures InOrder(whole) == InOrder(Plug(path0, t0)) && root.nodes == old(root.nodes)
  {
    hide Located, Inserting, Plug, InOrder, Holds;
    ghost var path, t := path0, t0;
    var node := inserted;
    while true
      invariant Located(path, t, root) && t.Node? && t.elem == node && Inserting(path, t)
      invariant InOrder(Plug(path, t)) == InOrder(Plug(path0, t0)) && root.nodes == old(root.nodes)
      decreases if UnderRed(path) then 1 + Depth(path) else 0
    {
      ReadFields(path, t, root);
      var parent := node.parent;
      if parent == null || !parent.red {
        break;
      }
      RedParent(path, t);
      GoUp(path, t, root);
      ReadFields(path.up, Outer(path, t), root);
      LeftIsNotRight(path.up, Outer(path, t), root);
      var gparent := parent.parent;
      var uncle := if parent == gparent.left then gparent.right else gparent.left;
      UncleColour(path, t, root);
      if uncle != null && uncle.red {
        ghost var up := path.up.up;
        assert Depth(path) == 2 + Depth(up);
        t := Recolour(parent, gparent, uncle, root, path, t);
        path, node := up, gparent;
      } else if parent == gparent.left {
        node, path, t := FixLeft(node, parent, gparent, root, path, t);
      } else {
        node, path, t := FixRight(node, parent, gparent, root, path, t);
      }
    }
    whole := BlackenRoot(root, path, t);
  }

  lemma UncleColour(path: NodePath, t: NodeTree, root: RbRoot)
    requires Located(path, t, root) && path != Top && path.up != Top
    ensures var u := Uncle(path);
      (path.up.LeftOf? ==> path.up.parent.right == RootOf(u)) && (path.up.RightOf? ==> path.up.parent.left == RootOf(u))
      && (u.Node? ==> u.elem.red == u.red)
  {
    assert IsPath(path.up, path.parent, root);
  }

  method BlackenRoot(root: RbRoot, ghost path: NodePath, ghost t: NodeTree) returns (ghost whole: NodeTree)
    requires Located(path, t, root) && t.Node? && Inserting(path, t) && !UnderRed(path)
    modifies root.nodes
    ensures Holds(whole, root) && IsRedBlack(whole) && InOrder(whole) == InOrder(Plug(path, t))
  {
    hide Located, Plug, InOrder, Holds;
    whole := Plug(path, t);
    PlugRedBlack(path, t);
    PlugTop(path, t);
    Refocus(path, t, root);
    Refocus(Top, whole, root);
    ReadFields(Top, whole, root);
    LocatedNodes(Top, whole, root);
    Paint(root.node, false, root, Top, whole);
    Repainted(Top, whole, false);
    whole := whole.(red := false);
    Refocus(Top, whole, root);
    PlugAtTop(whole);
  }

  lemma PlugAtTop(t: NodeTree)
    ensures Plug(Top, t) == t
  {
  }

  lemma PlugTop(path: NodePath, t: NodeTree)
    requires t.Node? && Balanced(t) && BalancedAround(path, BlackHeight(t)) && !UnderRed(path)
    ensures Plug(path, t).Node? && Plug(Top, Plug(path, t)) == Plug(path, t)
    ensures IsRedBlack(Plug(path, t).(red := false))
  {
    PlugRedBlack(path, t);
    PlugIsNode(path, t);
  }

  lemma {:induction false} PlugIsNode(path: NodePath, t: NodeTree)
    requires t.Node?
    ensures Plug(path, t).Node?
    decreases path
  {
    if path != Top {
      PlugIsNode(path.up, Outer(path, t));
    }
  }
}
