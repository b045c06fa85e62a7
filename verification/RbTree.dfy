// lib/rbtree.c: red-black trees with parent pointers, rearranged in place.  The pointers and colours
// in memory always spell out a tree value of RedBlack; each step is proved by the tree it leaves.

module RbTree {
  import opened RedBlack

  class RbNode {
    var left: RbNode?
    var right: RbNode?
    var parent: RbNode?
    var red: bool

    constructor ()
    {
      left, right, parent, red := null, null, null, false;
    }
  }

  class RbRoot {
    var node: RbNode?
    ghost var nodes: set<RbNode>   // every node of the tree

    constructor ()
      ensures node == null && nodes == {}
    {
      node, nodes := null, {};
    }
  }

  type NodeTree = Tree<RbNode>
  type NodePath = Path<RbNode>

  /* ---------------------------------------------------------------- trees in memory */

  ghost function RootOf(t: NodeTree): RbNode?
  {
    if t.Leaf? then null else t.elem
  }

  /** The node above the hole. */
  ghost function Above(path: NodePath): RbNode?
  {
    if path.Top? then null else path.parent
  }

  /** Memory holds the tree t below the given parent. */
  ghost predicate IsTree(t: NodeTree, parent: RbNode?)
    reads Nodes(t)
  {
    match t
    case Leaf => true
    case Node(l, n, red, r) =>
      && n.left == RootOf(l) && n.right == RootOf(r) && n.parent == parent && n.red == red
      && IsTree(l, n) && IsTree(r, n)
  }

  /** Memory holds the surroundings path of a subtree with the given root node. */
  ghost predicate IsPath(path: NodePath, child: RbNode?, root: RbRoot)
    reads PathNodes(path), root`node
    decreases path
  {
    match path
    case Top => root.node == child
    case LeftOf(up, p, red, r) =>
      && p.left == child && p.right == RootOf(r) && p.parent == Above(up) && p.red == red
      && IsTree(r, p) && IsPath(up, p, root)
    case RightOf(up, l, p, red) =>
      && p.left == RootOf(l) && p.right == child && p.parent == Above(up) && p.red == red
      && IsTree(l, p) && IsPath(up, p, root)
  }

  ghost predicate Distinct(path: NodePath, t: NodeTree)
  {
    SeparatePath(path) && Separate(t) && PathNodes(path) !! Nodes(t)
  }

  /** The whole tree is Plug(path, t). */
  ghost predicate Located(path: NodePath, t: NodeTree, root: RbRoot)
    reads PathNodes(path), Nodes(t), root
  {
    && Distinct(path, t) && root.nodes == PathNodes(path) + Nodes(t)
    && IsTree(t, Above(path)) && IsPath(path, RootOf(t), root)
  }

  /** The tree t hangs at root. */
  ghost predicate Holds(t: NodeTree, root: RbRoot)
    reads Nodes(t), root
  {
    Separate(t) && root.nodes == Nodes(t) && IsTree(t, null) && root.node == RootOf(t)
  }

  /** Looking at a subtree and looking at the whole tree are the same thing. */
  lemma {:induction false} Refocus(path: NodePath, t: NodeTree, root: RbRoot)
    ensures Located(path, t, root) <==> Holds(Plug(path, t), root)
    decreases path
  {
    PlugNodes(path, t);
    match path
    case Top =>
    case LeftOf(up, p, red, r) => Refocus(up, Node(t, p, red, r), root);
    case RightOf(up, l, p, red) => Refocus(up, Node(l, p, red, t), root);
  }

  /* ---------------------------------------------------------------- rotations */

  ghost function RotatedLeft(t: NodeTree): NodeTree
    requires t.Node? && t.right.Node?
  {
    var r := t.right;
    Node(Node(t.left, t.elem, t.red, r.left), r.elem, r.red, r.right)
  }

  ghost function RotatedRight(t: NodeTree): NodeTree
    requires t.Node? && t.left.Node?
  {
    var l := t.left;
    Node(l.left, l.elem, l.red, Node(l.right, t.elem, t.red, t.right))
  }

  /** The five parts of a tree a n (b m c): pairwise different nodes. */
  ghost predicate FiveParts(path: NodePath, a: NodeTree, n: RbNode, b: NodeTree, m: RbNode, c: NodeTree)
  {
    && SeparatePath(path) && Separate(a) && Separate(b) && Separate(c)
    && n != m && n !in Nodes(a) && n !in Nodes(b) && n !in Nodes(c) && n !in PathNodes(path)
    && m !in Nodes(a) && m !in Nodes(b) && m !in Nodes(c) && m !in PathNodes(path)
    && Nodes(a) !! Nodes(b) && Nodes(a) !! Nodes(c) && Nodes(b) !! Nodes(c)
    && PathNodes(path) !! Nodes(a) && PathNodes(path) !! Nodes(b) && PathNodes(path) !! Nodes(c)
  }

  lemma Unfold(l: NodeTree, n: RbNode, red: bool, r: NodeTree)
    ensures Nodes(Node(l, n, red, r)) == Nodes(l) + {n} + Nodes(r)
    ensures InOrder(Node(l, n, red, r)) == InOrder(l) + [n] + InOrder(r)
    ensures Separate(Node(l, n, red, r)) <==>
      Separate(l) && Separate(r) && n !in Nodes(l) && n !in Nodes(r) && Nodes(l) !! Nodes(r)
  {
  }

  lemma UnfoldMemory(l: NodeTree, n: RbNode, red: bool, r: NodeTree, parent: RbNode?)
    ensures IsTree(Node(l, n, red, r), parent) <==>
      && n.left == RootOf(l) && n.right == RootOf(r) && n.parent == parent && n.red == red
      && IsTree(l, n) && IsTree(r, n)
  {
  }

  lemma PartsOfRight(path: NodePath, a: NodeTree, n: RbNode, red: bool, b: NodeTree, m: RbNode, red': bool, c: NodeTree)
    ensures Distinct(path, Node(a, n, red, Node(b, m, red', c))) <==> FiveParts(path, a, n, b, m, c)
    ensures Nodes(Node(a, n, red, Node(b, m, red', c))) == Nodes(a) + {n} + Nodes(b) + {m} + Nodes(c)
    ensures InOrder(Node(a, n, red, Node(b, m, red', c))) == InOrder(a) + [n] + InOrder(b) + [m] + InOrder(c)
  {
    hide Nodes, PathNodes, Separate, SeparatePath, InOrder;
    var s := Node(b, m, red', c);
    Unfold(b, m, red', c);
    Unfold(a, n, red, s);
    DisjointUnion(Nodes(a), Nodes(b), m, Nodes(c));
    DisjointUnion(PathNodes(path), Nodes(a), n, Nodes(s));
    DisjointUnion(PathNodes(path), Nodes(b), m, Nodes(c));
    assert InOrder(a) + [n] + (InOrder(b) + [m] + InOrder(c)) == InOrder(a) + [n] + InOrder(b) + [m] + InOrder(c);
  }

  lemma PartsOfLeft(path: NodePath, a: NodeTree, n: RbNode, red: bool, b: NodeTree, m: RbNode, red': bool, c: NodeTree)
    ensures Distinct(path, Node(Node(a, n, red, b), m, red', c)) <==> FiveParts(path, a, n, b, m, c)
    ensures Nodes(Node(Node(a, n, red, b), m, red', c)) == Nodes(a) + {n} + Nodes(b) + {m} + Nodes(c)
    ensures InOrder(Node(Node(a, n, red, b), m, red', c)) == InOrder(a) + [n] + InOrder(b) + [m] + InOrder(c)
  {
    hide Nodes, PathNodes, Separate, SeparatePath, InOrder;
    var s := Node(a, n, red, b);
    Unfold(a, n, red, b);
    Unfold(s, m, red', c);
    DisjointUnion(Nodes(c), Nodes(a), n, Nodes(b));
    DisjointUnion(PathNodes(path), Nodes(s), m, Nodes(c));
    DisjointUnion(PathNodes(path), Nodes(a), n, Nodes(b));
  }

  lemma DisjointUnion<T>(x: set<T>, a: set<T>, n: T, b: set<T>)
    ensures x !! a + {n} + b <==> x !! a && n !in x && x !! b
  {
    var u := a + {n} + b;
    assert n in u;
    if x !! u {
      forall e | e in x ensures e !in a && e !in b {
        assert e !in u;
      }
    }
  }

  lemma RootInNodes(t: NodeTree)
    ensures t.Node? ==> RootOf(t) in Nodes(t)
  {
  }

  /** rb_set_parent on a child that may be missing */
  method SetParent(child: RbNode?, parent: RbNode?, ghost t: NodeTree, ghost from: RbNode?)
    requires RootOf(t) == child && Separate(t) && IsTree(t, from)
    modifies child
    ensures IsTree(t, parent)
    ensures child != null ==>
      child.left == old(child.left) && child.right == old(child.right) && child.red == old(child.red)
  {
    if child != null {
      assert IsTree(t.left, child) && IsTree(t.right, child);
      child.parent := parent;
      assert IsTree(t.left, child) && IsTree(t.right, child);
    }
  }

  /** Make the place of a subtree lead to another root node. */
  method ReplaceChild(parent: RbNode?, was: RbNode, child: RbNode?, root: RbRoot, ghost path: NodePath)
    requires IsPath(path, was, root) && SeparatePath(path) && parent == Above(path) && was !in PathNodes(path)
    requires PathNodes(path) <= root.nodes
    modifies parent, root
    ensures IsPath(path, child, root) && root.nodes == old(root.nodes)
    ensures parent != null ==> parent.parent == old(parent.parent) && parent.red == old(parent.red)
  {
    if parent != null {
      ghost var sibling := if path.LeftOf? then path.right else path.left;
      RootInNodes(sibling);
      assert IsTree(sibling, parent) && IsPath(path.up, parent, root);
      if was == parent.left {
        parent.left := child;
      } else {
        parent.right := child;
      }
      assert IsTree(sibling, parent) && IsPath(path.up, parent, root);
    } else {
      root.node := child;
    }
  }

  /** The pointers between the two nodes of a left rotation and the subtree that changes sides. */
  method RelinkLeft(node: RbNode, right: RbNode, ghost t: NodeTree, ghost parent: RbNode?)
    requires t.Node? && t.elem == node && t.right.Node? && t.right.elem == right
    requires Separate(t) && IsTree(t, parent)
    modifies node, right, RootOf(t.right.left)
    ensures IsTree(RotatedLeft(t), parent)
  {
    hide Nodes, Separate, IsTree;
    ghost var a, r := t.left, t.right;
    ghost var b, c := r.left, r.right;
    PartsOfRight(Top, a, node, t.red, b, right, r.red, c);
    UnfoldMemory(a, node, t.red, r, parent);
    UnfoldMemory(b, right, r.red, c, node);
    RootInNodes(b);
    LeafMemory(b, node);
    node.right := right.left;
    if node.right != null {
      ReparentRoot(b, right);
      right.left.parent := node;
      ReparentRoot(b, node);
    }
    right.left := node;
    right.parent := node.parent;
    node.parent := right;
    UnfoldMemory(a, node, t.red, b, right);
    UnfoldMemory(Node(a, node, t.red, b), right, r.red, c, parent);
  }

  lemma LeafMemory(t: NodeTree, parent: RbNode?)
    ensures t.Leaf? ==> IsTree(t, parent) && Nodes(t) == {}
  {
  }

  lemma ReparentRoot(t: NodeTree, parent: RbNode?)
    requires t.Node? && Separate(t)
    ensures IsTree(t, parent) <==>
      && t.elem.left == RootOf(t.left) && t.elem.right == RootOf(t.right) && t.elem.parent == parent
      && t.elem.red == t.red && IsTree(t.left, t.elem) && IsTree(t.right, t.elem)
    ensures t.elem !in Nodes(t.left) && t.elem !in Nodes(t.right)
    ensures Nodes(t) == Nodes(t.left) + {t.elem} + Nodes(t.right)
  {
  }

  method RotateLeft(node: RbNode, root: RbRoot, ghost path: NodePath, ghost t: NodeTree)
    requires Located(path, t, root) && t.Node? && t.elem == node && t.right.Node?
    modifies Nodes(t), PathNodes(path), root
    ensures Located(path, RotatedLeft(t), root) && root.nodes == old(root.nodes)
  {
    hide Nodes, PathNodes, Separate, SeparatePath, Distinct, IsPath, IsTree, FiveParts;
    PartsOfRight(path, t.left, node, t.red, t.right.left, t.right.elem, t.right.red, t.right.right);
    PartsOfLeft(path, t.left, node, t.red, t.right.left, t.right.elem, t.right.red, t.right.right);
    DistinctParts(path, t);
    AboveInPath(path);
    RotatedNodes(t);
    UnfoldMemory(t.left, node, t.red, t.right, Above(path));
    var right := node.right;
    var parent := node.parent;
    RelinkLeft(node, right, t, parent);
    ReplaceChild(parent, node, right, root, path);
  }

  lemma RotatedNodes(t: NodeTree)
    requires t.Node?
    ensures t.elem in Nodes(t)
    ensures t.right.Node? ==> t.right.elem in Nodes(t) && (t.right.left.Node? ==> t.right.left.elem in Nodes(t))
    ensures t.left.Node? ==> t.left.elem in Nodes(t) && (t.left.right.Node? ==> t.left.right.elem in Nodes(t))
  {
  }

  lemma DistinctParts(path: NodePath, t: NodeTree)
    requires Distinct(path, t)
    ensures SeparatePath(path) && Separate(t) && PathNodes(path) !! Nodes(t)
  {
  }

  lemma AboveInPath(path: NodePath)
    ensures path != Top ==> Above(path) in PathNodes(path)
  {
  }

  method RelinkRight(node: RbNode, left: RbNode, ghost t: NodeTree, ghost parent: RbNode?)
    requires t.Node? && t.elem == node && t.left.Node? && t.left.elem == left
    requires Separate(t) && IsTree(t, parent)
    modifies node, left, RootOf(t.left.right)
    ensures IsTree(RotatedRight(t), parent)
  {
    hide Nodes, Separate, IsTree;
    ghost var l, c := t.left, t.right;
    ghost var a, b := l.left, l.right;
    PartsOfLeft(Top, a, left, l.red, b, node, t.red, c);
    UnfoldMemory(l, node, t.red, c, parent);
    UnfoldMemory(a, left, l.red, b, node);
    RootInNodes(b);
    LeafMemory(b, node);
    node.left := left.right;
    if node.left != null {
      ReparentRoot(b, left);
      left.right.parent := node;
      ReparentRoot(b, node);
    }
    left.right := node;
    left.parent := node.parent;
    node.parent := left;
    UnfoldMemory(b, node, t.red, c, left);
    UnfoldMemory(a, left, l.red, Node(b, node, t.red, c), parent);
  }

  method RotateRight(node: RbNode, root: RbRoot, ghost path: NodePath, ghost t: NodeTree)
    requires Located(path, t, root) && t.Node? && t.elem == node && t.left.Node?
    modifies Nodes(t), PathNodes(path), root
    ensures Located(path, RotatedRight(t), root) && root.nodes == old(root.nodes)
  {
    hide Nodes, PathNodes, Separate, SeparatePath, Distinct, IsPath, IsTree, FiveParts;
    PartsOfLeft(path, t.left.left, t.left.elem, t.left.red, t.left.right, node, t.red, t.right);
    PartsOfRight(path, t.left.left, t.left.elem, t.left.red, t.left.right, node, t.red, t.right);
    DistinctParts(path, t);
    AboveInPath(path);
    RotatedNodes(t);
    UnfoldMemory(t.left, node, t.red, t.right, Above(path));
    var left := node.left;
    var parent := node.parent;
    RelinkRight(node, left, t, parent);
    ReplaceChild(parent, node, left, root, path);
  }

  /* ---------------------------------------------------------------- colours and moving around */

  /** rb_set_black, rb_set_red, rb_set_color */
  method Paint(n: RbNode, red: bool, root: RbRoot, ghost path: NodePath, ghost t: NodeTree)
    requires Located(path, t, root) && t.Node? && t.elem == n
    modifies n
    ensures Located(path, t.(red := red), root)
  {
    hide Nodes, PathNodes, Separate, SeparatePath, Distinct, IsPath, IsTree;
    DistinctParts(path, t);
    ReparentRoot(t, Above(path));
    Repainted(path, t, red);
    n.red := red;
    UnfoldMemory(t.left, n, red, t.right, Above(path));
  }

  lemma Repainted(path: NodePath, t: NodeTree, red: bool)
    requires t.Node?
    ensures Nodes(t.(red := red)) == Nodes(t) && InOrder(t.(red := red)) == InOrder(t)
    ensures Distinct(path, t) ==> Distinct(path, t.(red := red))
  {
  }

  /** The tree one level up. */
  ghost function Outer(path: NodePath, t: NodeTree): NodeTree
    requires path != Top
  {
    match path
    case LeftOf(up, p, red, r) => Node(t, p, red, r)
    case RightOf(up, l, p, red) => Node(l, p, red, t)
  }

  lemma GoUp(path: NodePath, t: NodeTree, root: RbRoot)
    requires path != Top
    ensures Located(path, t, root) <==> Located(path.up, Outer(path, t), root)
  {
    hide Located;
    Refocus(path, t, root);
    Refocus(path.up, Outer(path, t), root);
  }

  /** What the fields of the node at hand say about the tree. */
  lemma ReadFields(path: NodePath, t: NodeTree, root: RbRoot)
    requires Located(path, t, root)
    ensures t.Node? ==>
      && t.elem in root.nodes
      && t.elem.left == RootOf(t.left) && t.elem.right == RootOf(t.right) && t.elem.red == t.red
      && t.elem.parent == Above(path)
    ensures path != Top ==>
      && Above(path) in root.nodes && Above(path).red == path.red && Above(path).parent == Above(path.up)
      && (path.LeftOf? ==> Above(path).left == RootOf(t) && Above(path).right == RootOf(path.right))
      && (path.RightOf? ==> Above(path).right == RootOf(t) && Above(path).left == RootOf(path.left))
    ensures path == Top ==> root.node == RootOf(t)
    ensures path != Top ==> root.node != null && root.node != RootOf(t)
  {
    AboveInPath(path);
    if path != Top {
      TopNode(path, t);
      Refocus(path, t, root);
    }
  }

  lemma {:induction false} TopNode(path: NodePath, t: NodeTree)
    requires path != Top
    ensures RootOf(Plug(path, t)) in PathNodes(path)
    decreases path
  {
    if path.up != Top {
      TopNode(path.up, Outer(path, t));
    }
  }
}
