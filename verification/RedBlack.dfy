// Red-black trees as values: shape, colours, the place of a subtree inside a tree, and what the
// rearrangements of lib/rbtree.c do to them.

module RedBlack {
  import opened Basics

  datatype Tree<N> = Leaf | Node(left: Tree<N>, elem: N, red: bool, right: Tree<N>)

  /** Everything around a subtree, from its parent upwards. */
  datatype Path<N> =
    | Top
    | LeftOf(up: Path<N>, parent: N, red: bool, right: Tree<N>)   // the subtree is a left child
    | RightOf(up: Path<N>, left: Tree<N>, parent: N, red: bool)   // the subtree is a right child

  /** Put a subtree in its place. */
  ghost function Plug<N>(path: Path<N>, t: Tree<N>): Tree<N>
    decreases path
  {
    match path
    case Top => t
    case LeftOf(up, p, red, right) => Plug(up, Node(t, p, red, right))
    case RightOf(up, left, p, red) => Plug(up, Node(left, p, red, t))
  }

  ghost function Depth<N>(path: Path<N>): nat
  {
    match path
    case Top => 0
    case LeftOf(up, _, _, _) => 1 + Depth(up)
    case RightOf(up, _, _, _) => 1 + Depth(up)
  }

  /* ---------------------------------------------------------------- in-order sequence */

  ghost function InOrder<N>(t: Tree<N>): seq<N>
  {
    match t
    case Leaf => []
    case Node(l, n, _, r) => InOrder(l) + [n] + InOrder(r)
  }

  ghost function Before<N>(path: Path<N>): seq<N>
  {
    match path
    case Top => []
    case LeftOf(up, _, _, _) => Before(up)
    case RightOf(up, l, p, _) => Before(up) + InOrder(l) + [p]
  }

  ghost function After<N>(path: Path<N>): seq<N>
  {
    match path
    case Top => []
    case LeftOf(up, p, _, r) => [p] + InOrder(r) + After(up)
    case RightOf(up, _, _, _) => After(up)
  }

  lemma {:induction false} InOrderPlug<N>(path: Path<N>, t: Tree<N>)
    ensures InOrder(Plug(path, t)) == Before(path) + InOrder(t) + After(path)
    decreases path
  {
    match path
    case Top =>
    case LeftOf(up, p, red, r) =>
      InOrderPlug(up, Node(t, p, red, r));
      Regroup(Before(up), InOrder(t), [p], InOrder(r), After(up));
    case RightOf(up, l, p, red) =>
      InOrderPlug(up, Node(l, p, red, t));
      Regroup(Before(up), InOrder(l), [p], InOrder(t), After(up));
  }

  lemma Regroup<N>(a: seq<N>, b: seq<N>, c: seq<N>, d: seq<N>, e: seq<N>)
    ensures a + (b + c + d) + e == a + b + (c + d + e)
    ensures a + (b + c + d) + e == (a + b + c) + d + e
  {
  }

  /* ---------------------------------------------------------------- nodes */

  ghost function Nodes<N>(t: Tree<N>): set<N>
  {
    match t
    case Leaf => {}
    case Node(l, n, _, r) => Nodes(l) + {n} + Nodes(r)
  }

  ghost function PathNodes<N>(path: Path<N>): set<N>
  {
    match path
    case Top => {}
    case LeftOf(up, p, _, r) => PathNodes(up) + {p} + Nodes(r)
    case RightOf(up, l, p, _) => PathNodes(up) + {p} + Nodes(l)
  }

  /** No node occurs twice. */
  ghost predicate Separate<N>(t: Tree<N>)
  {
    match t
    case Leaf => true
    case Node(l, n, _, r) => Separate(l) && Separate(r) && n !in Nodes(l) && n !in Nodes(r) && Nodes(l) !! Nodes(r)
  }

  ghost predicate SeparatePath<N>(path: Path<N>)
  {
    match path
    case Top => true
    case LeftOf(up, p, _, r) =>
      && SeparatePath(up) && Separate(r) && p !in Nodes(r) && p !in PathNodes(up) && Nodes(r) !! PathNodes(up)
    case RightOf(up, l, p, _) =>
      && SeparatePath(up) && Separate(l) && p !in Nodes(l) && p !in PathNodes(up) && Nodes(l) !! PathNodes(up)
  }

  lemma {:induction false} PlugNodes<N>(path: Path<N>, t: Tree<N>)
    ensures Nodes(Plug(path, t)) == PathNodes(path) + Nodes(t)
    ensures Separate(Plug(path, t)) <==> SeparatePath(path) && Separate(t) && PathNodes(path) !! Nodes(t)
    decreases path
  {
    match path
    case Top =>
    case LeftOf(up, p, red, r) => PlugNodes(up, Node(t, p, red, r));
    case RightOf(up, l, p, red) => PlugNodes(up, Node(l, p, red, t));
  }

  lemma {:induction false} NodeIsInOrder<N>(t: Tree<N>, n: N)
    ensures n in Nodes(t) <==> n in InOrder(t)
  {
    match t
    case Leaf =>
    case Node(l, _, _, r) =>
      NodeIsInOrder(l, n);
      NodeIsInOrder(r, n);
  }

  lemma {:induction false} SeparateInOrder<N>(t: Tree<N>)
    requires Separate(t)
    ensures NoRepeats(InOrder(t))
  {
    match t
    case Leaf =>
    case Node(l, n, _, r) =>
      SeparateInOrder(l);
      SeparateInOrder(r);
      NodeIsInOrder(l, n);
      NodeIsInOrder(r, n);
      var a, b := InOrder(l) + [n], InOrder(r);
      forall i, j | 0 <= i < |a| && 0 <= j < |b| ensures a[i] != b[j] {
        NodeIsInOrder(l, a[i]);
        NodeIsInOrder(r, b[j]);
      }
      AppendNoRepeats(InOrder(l), [n]);
      AppendNoRepeats(a, b);
  }

  lemma AppendNoRepeats<N>(a: seq<N>, b: seq<N>)
    requires NoRepeats(a) && NoRepeats(b) && forall i, j :: 0 <= i < |a| && 0 <= j < |b| ==> a[i] != b[j]
    ensures NoRepeats(a + b)
  {
  }

  /* ---------------------------------------------------------------- colours */

  ghost predicate IsRed<N>(t: Tree<N>)
  {
    t.Node? && t.red
  }

  ghost function BlackHeight<N>(t: Tree<N>): nat
  {
    match t
    case Leaf => 0
    case Node(l, _, red, _) => BlackHeight(l) + if red then 0 else 1
  }

  /** No red node has a red child, and every way down meets the same number of black nodes. */
  ghost predicate Balanced<N>(t: Tree<N>)
  {
    match t
    case Leaf => true
    case Node(l, _, red, r) =>
      && Balanced(l) && Balanced(r) && BlackHeight(l) == BlackHeight(r)
      && (red ==> !IsRed(l) && !IsRed(r))
  }

  /** A red-black tree: balanced, with a black root. */
  ghost predicate IsRedBlack<N>(t: Tree<N>)
  {
    Balanced(t) && !IsRed(t)
  }

  /** The node above the hole is red. */
  ghost predicate UnderRed<N>(path: Path<N>)
  {
    path != Top && path.red
  }

  /** The surroundings are balanced around a subtree of black height h, whatever colour its root has;
      the root of the whole tree is black. */
  ghost predicate BalancedAround<N>(path: Path<N>, h: nat)
    decreases path
  {
    match path
    case Top => true
    case LeftOf(up, _, red, r) =>
      && Balanced(r) && BlackHeight(r) == h
      && (red ==> !IsRed(r) && up != Top && !UnderRed(up))
      && BalancedAround(up, if red then h else h + 1)
    case RightOf(up, l, _, red) =>
      && Balanced(l) && BlackHeight(l) == h
      && (red ==> !IsRed(l) && up != Top && !UnderRed(up))
      && BalancedAround(up, if red then h else h + 1)
  }

  /** A red subtree may not be the root or hang below a red node. */
  ghost predicate Fits<N>(path: Path<N>, t: Tree<N>)
  {
    IsRed(t) ==> path != Top && !UnderRed(path)
  }

  lemma {:induction false} PlugRedBlack<N>(path: Path<N>, t: Tree<N>)
    ensures IsRedBlack(Plug(path, t)) <==> Balanced(t) && Fits(path, t) && BalancedAround(path, BlackHeight(t))
    decreases path
  {
    match path
    case Top =>
    case LeftOf(up, p, red, r) => PlugRedBlack(up, Node(t, p, red, r));
    case RightOf(up, l, p, red) => PlugRedBlack(up, Node(l, p, red, t));
  }

  /* ---------------------------------------------------------------- height */

  ghost function Height<N>(t: Tree<N>): nat
  {
    match t
    case Leaf => 0
    case Node(l, _, _, r) => 1 + if Height(l) > Height(r) then Height(l) else Height(r)
  }

  lemma {:induction false} HeightByBlackHeight<N>(t: Tree<N>)
    requires Balanced(t)
    ensures Height(t) <= 2 * BlackHeight(t) + if IsRed(t) then 1 else 0
  {
    match t
    case Leaf =>
    case Node(l, _, _, r) =>
      HeightByBlackHeight(l);
      HeightByBlackHeight(r);
  }

  lemma {:induction false} SizeByBlackHeight<N>(t: Tree<N>)
    requires Balanced(t)
    ensures Pow2(BlackHeight(t)) <= |InOrder(t)| + 1
  {
    match t
    case Leaf =>
    case Node(l, _, _, r) =>
      SizeByBlackHeight(l);
      SizeByBlackHeight(r);
  }

  lemma {:induction false} Pow2Sum(a: nat, b: nat)
    ensures Pow2(a + b) == Pow2(a) * Pow2(b)
  {
    if a > 0 {
      Pow2Sum(a - 1, b);
    }
  }

  lemma {:induction false} Pow2Monotonic(a: nat, b: nat)
    requires a <= b
    ensures Pow2(a) <= Pow2(b)
    decreases b
  {
    if a < b {
      Pow2Monotonic(a, b - 1);
    }
  }

  /** The height of a tree with n nodes is at most 2 * log2(n + 1). */
  lemma HeightBound<N>(t: Tree<N>)
    requires IsRedBlack(t)
    ensures Pow2(Height(t)) <= (|InOrder(t)| + 1) * (|InOrder(t)| + 1)
  {
    var h, n := BlackHeight(t), |InOrder(t)| + 1;
    hide Pow2, Height, InOrder;
    HeightByBlackHeight(t);
    SizeByBlackHeight(t);
    Pow2Monotonic(Height(t), h + h);
    Pow2Sum(h, h);
    SquareMonotonic(Pow2(h), n);
  }

  lemma SquareMonotonic(x: nat, y: nat)
    requires x <= y
    ensures x * x <= y * y
  {
    assert x * x <= x * y;
    assert x * y <= y * y;
  }
}
