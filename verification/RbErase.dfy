// The cases of __rb_erase_color of lib/rbtree.c: what each of them does to the tree, and how the
// pointers are changed to do it.

module RbErase {
  import opened RedBlack
  import opened RbTree
  import opened RbInsert

  /** During removal: the subtree at hand has one black node too few on every way down, and its root
      may be red below or above a red node (it is about to be painted black). */
  ghost predicate Erasing(path: NodePath, t: NodeTree)
  {
    BalancedAsBlack(t) && BalancedAround(path, BlackHeight(t) + 1)
  }

  ghost predicate BalancedAsBlack(t: NodeTree)
  {
    t.Leaf? || Balanced(t.(red := false))
  }

  /* ---------------------------------------------------------------- sibling on the right */

  /** A red sibling moves up, which gives the subtree a black sibling. */
  lemma RedSiblingLeft(path: NodePath, t: NodeTree)
    requires Erasing(path, t) && !IsRed(t) && path.LeftOf? && IsRed(path.right)
    ensures var w := path.right;
      var path' := LeftOf(LeftOf(path.up, w.elem, false, w.right), path.parent, true, w.left);
      Erasing(path', t) && !IsRed(path'.right) && InOrder(Plug(path', t)) == InOrder(Plug(path, t))
  {
    var w := path.right;
    assert BlackHeight(w.left) == BlackHeight(t) + 1 && BlackHeight(w.right) == BlackHeight(t) + 1;
    assert BalancedAround(LeftOf(path.up, w.elem, false, w.right), BlackHeight(t) + 1);
    PartsOfRight(Top, t, path.parent, path.red, w.left, w.elem, w.red, w.right);
    PartsOfLeft(Top, t, path.parent, true, w.left, w.elem, false, w.right);
    SameOrder(path.up, Outer(path, t), Node(Node(t, path.parent, true, w.left), w.elem, false, w.right));
  }

  /** Both children of the sibling black: take one black node from it too and move up. */
  lemma BlackNephewsLeft(path: NodePath, t: NodeTree)
    requires Erasing(path, t) && !IsRed(t) && path.LeftOf? && path.right.Node? && !path.right.red
    requires !IsRed(path.right.left) && !IsRed(path.right.right)
    ensures var t' := Node(t, path.parent, path.red, path.right.(red := true));
      Erasing(path.up, t') && InOrder(Plug(path.up, t')) == InOrder(Plug(path, t))
  {
    var w := path.right;
    assert Balanced(w.(red := true)) && BlackHeight(w.(red := true)) == BlackHeight(t);
    Repainted(Top, w, true);
    SameOrder(path.up, Outer(path, t), Node(t, path.parent, path.red, w.(red := true)));
  }

  /** Only the inner child of the sibling red: rotate it outwards. */
  lemma InnerNephewLeft(path: NodePath, t: NodeTree)
    requires Erasing(path, t) && !IsRed(t) && path.LeftOf? && path.right.Node? && !path.right.red
    requires IsRed(path.right.left) && !IsRed(path.right.right)
    ensures var w := path.right;
      var w' := Node(w.left.left, w.left.elem, false, Node(w.left.right, w.elem, true, w.right));
      Erasing(path.(right := w'), t) && InOrder(Plug(path.(right := w'), t)) == InOrder(Plug(path, t))
  {
    var w := path.right;
    assert Balanced(w.left) && Balanced(w.right) && BlackHeight(w.left) == BlackHeight(w.right) == BlackHeight(t);
    var x := w.left;
    assert BlackHeight(x.left) == BlackHeight(x.right) == BlackHeight(t);
    var w' := Node(x.left, x.elem, false, Node(x.right, w.elem, true, w.right));
    assert Balanced(w'.right) && BlackHeight(w'.right) == BlackHeight(t);
    assert Balanced(w') && BlackHeight(w') == BlackHeight(w);
    PartsOfLeft(Top, x.left, x.elem, x.red, x.right, w.elem, w.red, w.right);
    PartsOfRight(Top, x.left, x.elem, false, x.right, w.elem, true, w.right);
    SameOrder(path.up, Outer(path, t), Outer(path.(right := w'), t));
  }

  /** The outer child of the sibling red: one rotation supplies the missing black node. */
  lemma OuterNephewLeft(path: NodePath, t: NodeTree)
    requires Erasing(path, t) && !IsRed(t) && path.LeftOf? && path.right.Node? && !path.right.red
    requires IsRed(path.right.right)
    ensures var w := path.right;
      var t' := Node(Node(t, path.parent, false, w.left), w.elem, path.red, w.right.(red := false));
      IsRedBlack(Plug(path.up, t')) && InOrder(Plug(path.up, t')) == InOrder(Plug(path, t))
  {
    var w := path.right;
    assert Balanced(w.left) && Balanced(w.right) && BlackHeight(w.left) == BlackHeight(w.right) == BlackHeight(t);
    var l, r := Node(t, path.parent, false, w.left), w.right.(red := false);
    var t' := Node(l, w.elem, path.red, r);
    assert Balanced(l) && Balanced(r) && BlackHeight(l) == BlackHeight(r) == BlackHeight(t) + 1;
    PlugRedBlack(path.up, t');
    Repainted(Top, w.right, false);
    PartsOfRight(Top, t, path.parent, path.red, w.left, w.elem, w.red, w.right);
    PartsOfLeft(Top, t, path.parent, false, w.left, w.elem, path.red, r);
    SameOrder(path.up, Outer(path, t), t');
  }

  /* ---------------------------------------------------------------- sibling on the left */

  lemma RedSiblingRight(path: NodePath, t: NodeTree)
    requires Erasing(path, t) && !IsRed(t) && path.RightOf? && IsRed(path.left)
    ensures var w := path.left;
      var path' := RightOf(RightOf(path.up, w.left, w.elem, false), w.right, path.parent, true);
      Erasing(path', t) && !IsRed(path'.left) && InOrder(Plug(path', t)) == InOrder(Plug(path, t))
  {
    var w := path.left;
    assert BlackHeight(w.left) == BlackHeight(t) + 1 && BlackHeight(w.right) == BlackHeight(t) + 1;
    assert BalancedAround(RightOf(path.up, w.left, w.elem, false), BlackHeight(t) + 1);
    PartsOfLeft(Top, w.left, w.elem, w.red, w.right, path.parent, path.red, t);
    PartsOfRight(Top, w.left, w.elem, false, w.right, path.parent, true, t);
    SameOrder(path.up, Outer(path, t), Node(w.left, w.elem, false, Node(w.right, path.parent, true, t)));
  }

  lemma BlackNephewsRight(path: NodePath, t: NodeTree)
    requires Erasing(path, t) && !IsRed(t) && path.RightOf? && path.left.Node? && !path.left.red
    requires !IsRed(path.left.left) && !IsRed(path.left.right)
    ensures var t' := Node(path.left.(red := true), path.parent, path.red, t);
      Erasing(path.up, t') && InOrder(Plug(path.up, t')) == InOrder(Plug(path, t))
  {
    var w := path.left;
    assert Balanced(w.(red := true)) && BlackHeight(w.(red := true)) == BlackHeight(t);
    Repainted(Top, w, true);
    SameOrder(path.up, Outer(path, t), Node(w.(red := true), path.parent, path.red, t));
  }

  lemma InnerNephewRight(path: NodePath, t: NodeTree)
    requires Erasing(path, t) && !IsRed(t) && path.RightOf? && path.left.Node? && !path.left.red
    requires IsRed(path.left.right) && !IsRed(path.left.left)
    ensures var w := path.left;
      var w' := Node(Node(w.left, w.elem, true, w.right.left), w.right.elem, false, w.right.right);
      Erasing(path.(left := w'), t) && InOrder(Plug(path.(left := w'), t)) == InOrder(Plug(path, t))
  {
    var w := path.left;
    assert Balanced(w.left) && Balanced(w.right) && BlackHeight(w.left) == BlackHeight(w.right) == BlackHeight(t);
    var x := w.right;
    assert BlackHeight(x.left) == BlackHeight(x.right) == BlackHeight(t);
    var w' := Node(Node(w.left, w.elem, true, x.left), x.elem, false, x.right);
    assert Balanced(w'.left) && BlackHeight(w'.left) == BlackHeight(t);
    assert Balanced(w') && BlackHeight(w') == BlackHeight(w);
    PartsOfRight(Top, w.left, w.elem, w.red, x.left, x.elem, x.red, x.right);
    PartsOfLeft(Top, w.left, w.elem, true, x.left, x.elem, false, x.right);
    SameOrder(path.up, Outer(path, t), Outer(path.(left := w'), t));
  }

  lemma OuterNephewRight(path: NodePath, t: NodeTree)
    requires Erasing(path, t) && !IsRed(t) && path.RightOf? && path.left.Node? && !path.left.red
    requires IsRed(path.left.left)
    ensures var w := path.left;
      var t' := Node(w.left.(red := false), w.elem, path.red, Node(w.right, path.parent, false, t));
      IsRedBlack(Plug(path.up, t')) && InOrder(Plug(path.up, t')) == InOrder(Plug(path, t))
  {
    var w := path.left;
    assert Balanced(w.left) && Balanced(w.right) && BlackHeight(w.left) == BlackHeight(w.right) == BlackHeight(t);
    var l, r := w.left.(red := false), Node(w.right, path.parent, false, t);
    var t' := Node(l, w.elem, path.red, r);
    assert Balanced(l) && Balanced(r) && BlackHeight(l) == BlackHeight(r) == BlackHeight(t) + 1;
    PlugRedBlack(path.up, t');
    Repainted(Top, w.left, false);
    PartsOfLeft(Top, w.left, w.elem, w.red, w.right, path.parent, path.red, t);
    PartsOfRight(Top, l, w.elem, path.red, w.right, path.parent, false, t);
    SameOrder(path.up, Outer(path, t), t');
  }

  /* ---------------------------------------------------------------- painting relatives */

  ghost function Sibling(path: NodePath): NodeTree
    requires path != Top
  {
    if path.LeftOf? then path.right else path.left
  }

  ghost function WithSibling(path: NodePath, w: NodeTree): NodePath
    requires path != Top
  {
    if path.LeftOf? then path.(right := w) else path.(left := w)
  }

  ghost function WithRed(path: NodePath, red: bool): NodePath
    requires path != Top
  {
    match path
    case LeftOf(up, p, _, r) => LeftOf(up, p, red, r)
    case RightOf(up, l, p, _) => RightOf(up, l, p, red)
  }

  /** The place of the sibling. */
  ghost function Across(path: NodePath, t: NodeTree): NodePath
    requires path != Top
  {
    if path.LeftOf? then RightOf(path.up, t, path.parent, path.red) else LeftOf(path.up, path.parent, path.red, t)
  }

  lemma GoAcross(path: NodePath, t: NodeTree, root: RbRoot)
    requires path != Top
    ensures Located(path, t, root) <==> Located(Across(path, t), Sibling(path), root)
  {
    hide Located;
    GoUp(path, t, root);
    GoUp(Across(path, t), Sibling(path), root);
  }

  method PaintParent(parent: RbNode, red: bool, root: RbRoot, ghost path: NodePath, ghost t: NodeTree)
    requires Located(path, t, root) && path != Top && path.parent == parent
    modifies parent
    ensures Located(WithRed(path, red), t, root)
  {
    hide Located;
    GoUp(path, t, root);
    Paint(parent, red, root, path.up, Outer(path, t));
    GoUp(WithRed(path, red), t, root);
  }

  method PaintSibling(other: RbNode, red: bool, root: RbRoot, ghost path: NodePath, ghost t: NodeTree)
    requires Located(path, t, root) && path != Top && Sibling(path).Node? && Sibling(path).elem == other
    modifies other
    ensures Located(WithSibling(path, Sibling(path).(red := red)), t, root)
  {
    hide Located;
    GoAcross(path, t, root);
    Paint(other, red, root, Across(path, t), Sibling(path));
    GoAcross(WithSibling(path, Sibling(path).(red := red)), t, root);
  }

  /** Paint the left child of the sibling. */
  method PaintLeftNephew(n: RbNode, red: bool, root: RbRoot, ghost path: NodePath, ghost t: NodeTree)
    requires Located(path, t, root) && path != Top && Sibling(path).Node?
    requires Sibling(path).left.Node? && Sibling(path).left.elem == n
    modifies n
    ensures var w := Sibling(path);
      Located(WithSibling(path, w.(left := w.left.(red := red))), t, root)
  {
    hide Located;
    ghost var w := Sibling(path);
    ghost var at := LeftOf(Across(path, t), w.elem, w.red, w.right);
    GoAcross(path, t, root);
    GoUp(at, w.left, root);
    Paint(n, red, root, at, w.left);
    GoUp(at, w.left.(red := red), root);
    GoAcross(WithSibling(path, w.(left := w.left.(red := red))), t, root);
  }

  method PaintRightNephew(n: RbNode, red: bool, root: RbRoot, ghost path: NodePath, ghost t: NodeTree)
    requires Located(path, t, root) && path != Top && Sibling(path).Node?
    requires Sibling(path).right.Node? && Sibling(path).right.elem == n
    modifies n
    ensures var w := Sibling(path);
      Located(WithSibling(path, w.(right := w.right.(red := red))), t, root)
  {
    hide Located;
    ghost var w := Sibling(path);
    ghost var at := RightOf(Across(path, t), w.left, w.elem, w.red);
    GoAcross(path, t, root);
    GoUp(at, w.right, root);
    Paint(n, red, root, at, w.right);
    GoUp(at, w.right.(red := red), root);
    GoAcross(WithSibling(path, w.(right := w.right.(red := red))), t, root);
  }

  /** The fields of the sibling, and where its nodes are. */
  lemma ReadSibling(path: NodePath, t: NodeTree, root: RbRoot)
    requires Located(path, t, root) && path != Top
    ensures var w := Sibling(path);
      && (path.LeftOf? ==> path.parent.right == RootOf(w)) && (path.RightOf? ==> path.parent.left == RootOf(w))
      && path.parent in root.nodes && path.parent.red == path.red
      && (w.Node? ==>
        && w.elem in root.nodes && w.elem.red == w.red
        && w.elem.left == RootOf(w.left) && w.elem.right == RootOf(w.right)
        && (w.left.Node? ==> w.left.elem in root.nodes && w.left.elem.red == w.left.red)
        && (w.right.Node? ==> w.right.elem in root.nodes && w.right.elem.red == w.right.red))
  {
    hide Located;
    var w := Sibling(path);
    ReadFields(path, t, root);
    GoAcross(path, t, root);
    ReadFields(Across(path, t), w, root);
    if w.Node? {
      GoUp(LeftOf(Across(path, t), w.elem, w.red, w.right), w.left, root);
      ReadFields(LeftOf(Across(path, t), w.elem, w.red, w.right), w.left, root);
      GoUp(RightOf(Across(path, t), w.left, w.elem, w.red), w.right, root);
      ReadFields(RightOf(Across(path, t), w.left, w.elem, w.red), w.right, root);
    }
  }

  /* ---------------------------------------------------------------- the steps on the left */

  lemma SiblingExists(path: NodePath, t: NodeTree)
    requires Erasing(path, t) && path != Top
    ensures Sibling(path).Node? && (IsRed(Sibling(path)) ==> Sibling(path).left.Node? && Sibling(path).right.Node?)
  {
  }

  method RaiseRight(parent: RbNode, other: RbNode, root: RbRoot, ghost path: NodePath, ghost t: NodeTree)
    returns (ghost path': NodePath)
    requires Located(path, t, root) && Erasing(path, t) && !IsRed(t) && path.LeftOf? && IsRed(path.right)
    requires parent == path.parent && other == path.right.elem
    modifies root, root.nodes
    ensures Located(path', t, root) && root.nodes == old(root.nodes) && Erasing(path', t)
    ensures path'.LeftOf? && !IsRed(path'.right) && path'.parent == parent && path'.red
    ensures InOrder(Plug(path', t)) == InOrder(Plug(path, t))
  {
    hide Located, Erasing, Plug, InOrder;
    ghost var w := path.right;
    RedSiblingLeft(path, t);
    ReadSibling(path, t, root);
    PaintSibling(other, false, root, path, t);
    ghost var path1 := path.(right := w.(red := false));
    PaintParent(parent, true, root, path1, t);
    ghost var path2 := WithRed(path1, true);
    GoUp(path2, t, root);
    LocatedNodes(path.up, Outer(path2, t), root);
    RotateLeft(parent, root, path.up, Outer(path2, t));
    path' := LeftOf(LeftOf(path.up, w.elem, false, w.right), parent, true, w.left);
    GoUp(path', t, root);
    GoUp(path'.up, Outer(path', t), root);
  }

  method LeanRight(parent: RbNode, other: RbNode, root: RbRoot, ghost path: NodePath, ghost t: NodeTree)
    returns (ghost path': NodePath)
    requires Located(path, t, root) && Erasing(path, t) && !IsRed(t)
    requires path.LeftOf? && path.right.Node? && !path.right.red
    requires IsRed(path.right.left) && !IsRed(path.right.right) && parent == path.parent && other == path.right.elem
    modifies root, root.nodes
    ensures Located(path', t, root) && root.nodes == old(root.nodes) && Erasing(path', t)
    ensures path'.LeftOf? && path'.right.Node? && !path'.right.red && IsRed(path'.right.right)
    ensures path'.parent == parent && path'.red == path.red && path'.up == path.up
    ensures InOrder(Plug(path', t)) == InOrder(Plug(path, t))
  {
    hide Located, Erasing, Plug, InOrder;
    ghost var w := path.right;
    InnerNephewLeft(path, t);
    ReadSibling(path, t, root);
    if other.left != null {
      PaintLeftNephew(other.left, false, root, path, t);
    }
    ghost var w1 := w.(left := w.left.(red := false));
    PaintSibling(other, true, root, path.(right := w1), t);
    ghost var w2 := w1.(red := true);
    ghost var path2 := path.(right := w2);
    GoAcross(path2, t, root);
    LocatedNodes(Across(path2, t), w2, root);
    RotateRight(other, root, Across(path2, t), w2);
    path' := path.(right := RotatedRight(w2));
    GoAcross(path', t, root);
  }

  method FinishRight(parent: RbNode, other: RbNode, root: RbRoot, ghost path: NodePath, ghost t: NodeTree)
    returns (ghost whole: NodeTree)
    requires Located(path, t, root) && Erasing(path, t) && !IsRed(t)
    requires path.LeftOf? && path.right.Node? && !path.right.red
    requires IsRed(path.right.right) && parent == path.parent && other == path.right.elem
    modifies root, root.nodes
    ensures Holds(whole, root) && root.nodes == old(root.nodes) && IsRedBlack(whole)
    ensures InOrder(whole) == InOrder(Plug(path, t))
  {
    hide Located, Erasing, Plug, InOrder, Holds;
    ghost var w := path.right;
    OuterNephewLeft(path, t);
    ReadSibling(path, t, root);
    PaintSibling(other, parent.red, root, path, t);
    ghost var w1 := w.(red := path.red);
    PaintParent(parent, false, root, path.(right := w1), t);
    ghost var path2 := WithRed(path.(right := w1), false);
    ReadSibling(path2, t, root);
    if other.right != null {
      PaintRightNephew(other.right, false, root, path2, t);
    }
    ghost var w3 := w1.(right := w.right.(red := false));
    ghost var path3 := path2.(right := w3);
    GoUp(path3, t, root);
    LocatedNodes(path.up, Outer(path3, t), root);
    RotateLeft(parent, root, path.up, Outer(path3, t));
    ghost var t' := RotatedLeft(Outer(path3, t));
    Refocus(path.up, t', root);
    whole := Plug(path.up, t');
  }

  /* ---------------------------------------------------------------- the steps on the right */

  method RaiseLeft(parent: RbNode, other: RbNode, root: RbRoot, ghost path: NodePath, ghost t: NodeTree)
    returns (ghost path': NodePath)
    requires Located(path, t, root) && Erasing(path, t) && !IsRed(t) && path.RightOf? && IsRed(path.left)
    requires parent == path.parent && other == path.left.elem
    modifies root, root.nodes
    ensures Located(path', t, root) && root.nodes == old(root.nodes) && Erasing(path', t)
    ensures path'.RightOf? && !IsRed(path'.left) && path'.parent == parent && path'.red
    ensures InOrder(Plug(path', t)) == InOrder(Plug(path, t))
  {
    hide Located, Erasing, Plug, InOrder;
    ghost var w := path.left;
    RedSiblingRight(path, t);
    ReadSibling(path, t, root);
    PaintSibling(other, false, root, path, t);
    ghost var path1 := path.(left := w.(red := false));
    PaintParent(parent, true, root, path1, t);
    ghost var path2 := WithRed(path1, true);
    GoUp(path2, t, root);
    LocatedNodes(path.up, Outer(path2, t), root);
    RotateRight(parent, root, path.up, Outer(path2, t));
    path' := RightOf(RightOf(path.up, w.left, w.elem, false), w.right, parent, true);
    GoUp(path', t, root);
    GoUp(path'.up, Outer(path', t), root);
  }

  method LeanLeft(parent: RbNode, other: RbNode, root: RbRoot, ghost path: NodePath, ghost t: NodeTree)
    returns (ghost path': NodePath)
    requires Located(path, t, root) && Erasing(path, t) && !IsRed(t)
    requires path.RightOf? && path.left.Node? && !path.left.red
    requires IsRed(path.left.right) && !IsRed(path.left.left) && parent == path.parent && other == path.left.elem
    modifies root, root.nodes
    ensures Located(path', t, root) && root.nodes == old(root.nodes) && Erasing(path', t)
    ensures path'.RightOf? && path'.left.Node? && !path'.left.red && IsRed(path'.left.left)
    ensures path'.parent == parent && path'.red == path.red && path'.up == path.up
    ensures InOrder(Plug(path', t)) == InOrder(Plug(path, t))
  {
    hide Located, Erasing, Plug, InOrder;
    ghost var w := path.left;
    InnerNephewRight(path, t);
    ReadSibling(path, t, root);
    if other.right != null {
      PaintRightNephew(other.right, false, root, path, t);
    }
    ghost var w1 := w.(right := w.right.(red := false));
    PaintSibling(other, true, root, path.(left := w1), t);
    ghost var w2 := w1.(red := true);
    ghost var path2 := path.(left := w2);
    GoAcross(path2, t, root);
    LocatedNodes(Across(path2, t), w2, root);
    RotateLeft(other, root, Across(path2, t), w2);
    path' := path.(left := RotatedLeft(w2));
    GoAcross(path', t, root);
  }

  method FinishLeft(parent: RbNode, other: RbNode, root: RbRoot, ghost path: NodePath, ghost t: NodeTree)
    returns (ghost whole: NodeTree)
    requires Located(path, t, root) && Erasing(path, t) && !IsRed(t)
    requires path.RightOf? && path.left.Node? && !path.left.red
    requires IsRed(path.left.left) && parent == path.parent && other == path.left.elem
    modifies root, root.nodes
    ensures Holds(whole, root) && root.nodes == old(root.nodes) && IsRedBlack(whole)
    ensures InOrder(whole) == InOrder(Plug(path, t))
  {
    hide Located, Erasing, Plug, InOrder, Holds;
    ghost var w := path.left;
    OuterNephewRight(path, t);
    ReadSibling(path, t, root);
    PaintSibling(other, parent.red, root, path, t);
    ghost var w1 := w.(red := path.red);
    PaintParent(parent, false, root, path.(left := w1), t);
    ghost var path2 := WithRed(path.(left := w1), false);
    ReadSibling(path2, t, root);
    if other.left != null {
      PaintLeftNephew(other.left, false, root, path2, t);
    }
    ghost var w3 := w1.(left := w.left.(red := false));
    ghost var path3 := path2.(left := w3);
    GoUp(path3, t, root);
    LocatedNodes(path.up, Outer(path3, t), root);
    RotateRight(parent, root, path.up, Outer(path3, t));
    ghost var t' := RotatedRight(Outer(path3, t));
    Refocus(path.up, t', root);
    whole := Plug(path.up, t');
  }

  /* ---------------------------------------------------------------- __rb_erase_color */

  /** What one round of the loop leaves: a finished tree, or a subtree further up. */
  datatype Round = Done(whole: NodeTree) | Climbed(path: NodePath, t: NodeTree)

  /** One round with the subtree at hand as a left child. */
  method EraseStepLeft(parent: RbNode, root: RbRoot, ghost path0: NodePath, ghost t: NodeTree)
    returns (done: bool, ghost round: Round)
    requires Located(path0, t, root) && Erasing(path0, t) && !IsRed(t) && path0.LeftOf? && parent == path0.parent
    modifies root, root.nodes
    ensures root.nodes == old(root.nodes) && done == round.Done?
    ensures done ==> Holds(round.whole, root) && IsRedBlack(round.whole)
    ensures done ==> InOrder(round.whole) == InOrder(Plug(path0, t))
    ensures !done ==>
      && Located(round.path, round.t, root) && Erasing(round.path, round.t)
      && RootOf(round.t) == parent && InOrder(Plug(round.path, round.t)) == InOrder(Plug(path0, t))
      && (if IsRed(round.t) then 0 else 1 + Depth(round.path)) < 1 + Depth(path0)
  {
    hide Located, Erasing, Plug, InOrder, Holds;
    ghost var path := path0;
    SiblingExists(path, t);
    ReadSibling(path, t, root);
    var other := parent.right;
    if other.red {
      path := RaiseRight(parent, other, root, path, t);
      SiblingExists(path, t);
      ReadSibling(path, t, root);
      other := parent.right;
    }
    if (other.left == null || !other.left.red) && (other.right == null || !other.right.red) {
      BlackNephewsLeft(path, t);
      PaintSibling(other, true, root, path, t);
      ghost var path' := path.(right := path.right.(red := true));
      GoUp(path', t, root);
      done, round := false, Climbed(path.up, Outer(path', t));
    } else {
      if other.right == null || !other.right.red {
        path := LeanRight(parent, other, root, path, t);
        ReadSibling(path, t, root);
        other := parent.right;
      }
      ghost var whole := FinishRight(parent, other, root, path, t);
      done, round := true, Done(whole);
    }
  }

  /** One round with the subtree at hand as a right child. */
  method EraseStepRight(parent: RbNode, root: RbRoot, ghost path0: NodePath, ghost t: NodeTree)
    returns (done: bool, ghost round: Round)
    requires Located(path0, t, root) && Erasing(path0, t) && !IsRed(t) && path0.RightOf? && parent == path0.parent
    modifies root, root.nodes
    ensures root.nodes == old(root.nodes) && done == round.Done?
    ensures done ==> Holds(round.whole, root) && IsRedBlack(round.whole)
    ensures done ==> InOrder(round.whole) == InOrder(Plug(path0, t))
    ensures !done ==>
      && Located(round.path, round.t, root) && Erasing(round.path, round.t)
      && RootOf(round.t) == parent && InOrder(Plug(round.path, round.t)) == InOrder(Plug(path0, t))
      && (if IsRed(round.t) then 0 else 1 + Depth(round.path)) < 1 + Depth(path0)
  {
    hide Located, Erasing, Plug, InOrder, Holds;
    ghost var path := path0;
    SiblingExists(path, t);
    ReadSibling(path, t, root);
    var other := parent.left;
    if other.red {
      path := RaiseLeft(parent, other, root, path, t);
      SiblingExists(path, t);
      ReadSibling(path, t, root);
      other := parent.left;
    }
    if (other.left == null || !other.left.red) && (other.right == null || !other.right.red) {
      BlackNephewsRight(path, t);
      PaintSibling(other, true, root, path, t);
      ghost var path' := path.(left := path.left.(red := true));
      GoUp(path', t, root);
      done, round := false, Climbed(path.up, Outer(path', t));
    } else {
      if other.left == null || !other.left.red {
        path := LeanLeft(parent, other, root, path, t);
        ReadSibling(path, t, root);
        other := parent.left;
      }
      ghost var whole := FinishLeft(parent, other, root, path, t);
      done, round := true, Done(whole);
    }
  }
}
