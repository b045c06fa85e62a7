// A JFFS2 image as jffsX-utils/jffs2reader.c walks it: one cell per aligned 32-bit word. A word with
// the magic number starts a node; the scan steps over anything else word by word, and over a node by
// its rounded length.

module FlashLog {
  import opened DirList

  datatype Node =
    | Dirent(words: nat, pino: nat, entry: Entry)
    | Inode(words: nat, ino: nat, version: nat)
    | Other(words: nat)

  datatype Cell = Filler | Begin(node: Node)

  type Image = seq<Cell>

  predicate IsNode(img: Image, p: nat)
  {
    p < |img| && img[p].Begin?
  }

  /** Every node advances the scan. */
  ghost predicate Advances(img: Image)
  {
    forall p :: 0 <= p < |img| && img[p].Begin? ==> img[p].node.words > 0
  }

  /** Where the scan stops stepping over filler. */
  function Skip(img: Image, n: nat): (p: nat)
    ensures n <= p && (p < |img| ==> img[p].Begin?)
    ensures n < |img| ==> p <= |img|
    decreases |img| - n
  {
    if n < |img| && img[n].Filler? then Skip(img, n + 1) else n
  }

  /** The place after the node at p. */
  function After(img: Image, p: nat): nat
  {
    if IsNode(img, p) then p + img[p].node.words else p
  }

  method SkipFiller(img: Image, n0: nat) returns (n: nat)
    ensures n == Skip(img, n0)
  {
    n := n0;
    while n < |img| && img[n].Filler?
      invariant Skip(img, n) == Skip(img, n0)
    {
      n := n + 1;
    }
  }

  /** The nodes that a scan from n visits before it reaches the end. */
  ghost function Chain(img: Image, n: nat): (ps: seq<nat>)
    requires Advances(img)
    ensures forall i :: 0 <= i < |ps| ==> IsNode(img, ps[i])
    decreases |img| - n
  {
    var p := Skip(img, n);
    if p < |img| then [p] + Chain(img, After(img, p)) else []
  }

  ghost function Place(img: Image, n: nat, i: nat): nat
    requires Advances(img) && i <= |Chain(img, n)|
  {
    if i == 0 then n else After(img, Chain(img, n)[i - 1])
  }

  /** From the place before node i the scan gets to node i, and from the last place to the end. */
  lemma {:induction false} ChainStep(img: Image, n: nat, i: nat)
    requires Advances(img) && i <= |Chain(img, n)|
    ensures i < |Chain(img, n)| ==> Skip(img, Place(img, n, i)) == Chain(img, n)[i]
    ensures i == |Chain(img, n)| ==> Skip(img, Place(img, n, i)) >= |img|
    decreases i
  {
    if i > 0 {
      var next := After(img, Skip(img, n));
      ChainStep(img, next, i - 1);
      assert Chain(img, n)[1..] == Chain(img, next);
      assert Place(img, n, i) == Place(img, next, i - 1);
    }
  }

  lemma {:induction false} PlacesAscend(img: Image, n: nat, i: nat, j: nat)
    requires Advances(img) && i < j <= |Chain(img, n)|
    ensures Place(img, n, i) <= Chain(img, n)[i] < Place(img, n, j)
    decreases j
  {
    ChainStep(img, n, i);
    if j > i + 1 {
      PlacesAscend(img, n, i, j - 1);
      ChainStep(img, n, j - 1);
    }
  }
}
