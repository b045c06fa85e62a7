// jffsX-utils/jffs2reader.c: collectdir() on the image itself.

module CollectDir {
  import opened DirList
  import opened FlashLog
  import opened VersionScan

  /** The version of the node at p if it is an entry of directory pino, else 0. */
  function VersionAt(img: Image, pino: nat, p: nat): nat
  {
    if IsNode(img, p) && img[p].node.Dirent? && img[p].node.pino == pino then img[p].node.entry.version else 0
  }

  /* ------------------------------------------------------------ the loop on image positions */

  /** The variables of the loop; n and lr are positions in the image, and so are those in taken. */
  datatype Cursor = Cursor(n: nat, lr: nat, mp: nat, vmint: nat, vmaxt: nat, vmax: nat, vcur: nat, taken: seq<nat>)

  function Begins(): Cursor
  {
    Cursor(0, 0, 0, MAX, 0, MAX, 0, [])
  }

  predicate Ends(c: Cursor)
  {
    c.vcur >= c.vmax
  }

  function Advance(img: Image, pino: nat, c: Cursor): Cursor
  {
    var p := Skip(img, c.n);
    if p >= |img| then c.(n := 0)
    else
      var v, n := VersionAt(img, pino, p), After(img, p);
      if v <= c.vcur then c.(n := n)
      else
        var vmaxt := if c.vmaxt < v then v else c.vmaxt;
        var mp := if c.vmint > v then p else c.mp;
        if v == c.vcur + 1 then
          c.(n := n, vmaxt := vmaxt, vmint := MAX, mp := mp, vcur := v, taken := c.taken + [p], lr := p)
        else
          c.(n := n, vmaxt := vmaxt, vmint := if c.vmint > v then v else c.vmint, mp := mp)
  }

  function PassOver(img: Image, c: Cursor): Cursor
  {
    var t := c.(vmax := c.vmaxt, vmint := MAX);
    if c.vcur < c.vmaxt && c.vcur < c.vmint then
      t.(taken := c.taken + [c.mp], n := After(img, c.mp), lr := After(img, c.mp), vcur := c.vmint)
    else t
  }

  /** One iteration of the do-while loop. */
  function Iterate(img: Image, pino: nat, c: Cursor): Cursor
  {
    var t := Advance(img, pino, c);
    if t.lr == t.n then PassOver(img, t) else t
  }

  ghost predicate StopsAfter(img: Image, pino: nat, c: Cursor, k: nat)
    decreases k
  {
    if Ends(c) then k == 0 else k > 0 && StopsAfter(img, pino, Iterate(img, pino, c), k - 1)
  }

  /** collectdir() returns. */
  ghost predicate Returns(img: Image, pino: nat)
  {
    exists k: nat :: StopsAfter(img, pino, Begins(), k)
  }

  /* ------------------------------------------------------------ the log as the scan sees it */

  ghost function Nodes(img: Image): seq<nat>
    requires Advances(img)
  {
    Chain(img, 0)
  }

  ghost function VersionsOf(img: Image, pino: nat): (vs: seq<nat>)
    requires Advances(img)
    ensures |vs| == |Nodes(img)|
  {
    seq(|Nodes(img)|, i requires 0 <= i < |Nodes(img)| => VersionAt(img, pino, Nodes(img)[i]))
  }

  /** Which nodes directly follow the node before them. */
  ghost function Adjacent(img: Image): (at: seq<bool>)
    requires Advances(img)
    ensures |at| == |Nodes(img)|
  {
    seq(|Nodes(img)|, i requires 0 <= i < |Nodes(img)| => Nodes(img)[i] == Place(img, 0, i))
  }

  ghost function At(ps: seq<nat>, t: seq<nat>): (r: seq<nat>)
    ensures |r| == |t|
  {
    seq(|t|, i requires 0 <= i < |t| => if t[i] < |ps| then ps[t[i]] else 0)
  }

  lemma AtAppend(ps: seq<nat>, t: seq<nat>, j: nat)
    requires j < |ps|
    ensures At(ps, t + [j]) == At(ps, t) + [ps[j]]
  {
  }

  /** The loop on positions does what the loop on node numbers does. */
  ghost predicate Matches(img: Image, c: Cursor, s: Scan)
    requires Advances(img)
  {
    && s.i <= |Nodes(img)| && c.n == Place(img, 0, s.i)
    && c.vmint == s.vmint && c.vmaxt == s.vmaxt && c.vmax == s.vmax && c.vcur == s.vcur
    && c.taken == At(Nodes(img), s.taken)
    && (s.vmint != MAX ==> s.mp < |Nodes(img)| && c.mp == Nodes(img)[s.mp])
    && MarkMatches(img, c.lr, s.mark)
  }

  ghost predicate MarkMatches(img: Image, lr: nat, mark: int)
    requires Advances(img)
  {
    && mark <= |Nodes(img)|
    && forall i :: 0 <= i <= |Nodes(img)| ==> (lr == Place(img, 0, i) <==> mark == i)
  }

  lemma PlaceMarks(img: Image, i: nat)
    requires Advances(img) && i <= |Nodes(img)|
    ensures MarkMatches(img, Place(img, 0, i), i)
  {
    hide Chain, Place;
    forall j | 0 <= j <= |Nodes(img)| && j != i ensures Place(img, 0, j) != Place(img, 0, i) {
      PlacesAscend(img, 0, if i < j then i else j, if i < j then j else i);
    }
  }

  /** A directly taken node marks a place only if it directly follows another node. */
  lemma NodeMarks(img: Image, i: nat)
    requires Advances(img) && i < |Nodes(img)|
    ensures MarkMatches(img, Nodes(img)[i], if Adjacent(img)[i] then i else -1)
  {
    hide Chain, Place;
    if Adjacent(img)[i] {
      PlaceMarks(img, i);
    } else {
      forall j | 0 <= j <= |Nodes(img)| ensures Place(img, 0, j) != Nodes(img)[i] {
        if j > i {
          PlacesAscend(img, 0, i, j);
        } else if j < i {
          PlacesAscend(img, 0, j, i);
          PlacesAscend(img, 0, i, i + 1);
        }
      }
    }
  }

  lemma {:induction false} AdvanceMatches(img: Image, pino: nat, c: Cursor, s: Scan)
    requires Advances(img) && Matches(img, c, s) && Versions(VersionsOf(img, pino))
    ensures s.i <= |Nodes(img)|
    ensures Matches(img, Advance(img, pino, c), Move(VersionsOf(img, pino), Adjacent(img), s))
  {
    hide Chain, MarkMatches, Versions, At;
    ChainStep(img, 0, s.i);
    var ps, vs, at := Nodes(img), VersionsOf(img, pino), Adjacent(img);
    if s.i < |ps| {
      var p := ps[s.i];
      assert vs[s.i] == VersionAt(img, pino, p);
      assert After(img, p) == Place(img, 0, s.i + 1);
      NodeMarks(img, s.i);
      AtAppend(ps, s.taken, s.i);
    }
  }

  lemma {:induction false} IterateMatches(img: Image, pino: nat, c: Cursor, s: Scan)
    requires Advances(img) && Matches(img, c, s) && !Done(s)
    requires Inv(VersionsOf(img, pino), Adjacent(img), s)
    ensures s.i <= |Nodes(img)|
    ensures Matches(img, Iterate(img, pino, c), Step(VersionsOf(img, pino), Adjacent(img), s))
  {
    hide Chain, MarkMatches, Versions, At, Inv;
    var vs, at := VersionsOf(img, pino), Adjacent(img);
    InvVersions(vs, at, s);
    AdvanceMatches(img, pino, c, s);
    JumpIsReal(vs, at, s);
    var t, m := Advance(img, pino, c), Move(vs, at, s);
    MarkMeets(img, t, m);
    if m.mark == m.i && m.vcur < m.vmaxt && m.vcur < m.vmint {
      assert After(img, t.mp) == Place(img, 0, m.mp + 1);
      PlaceMarks(img, m.mp + 1);
      AtAppend(Nodes(img), m.taken, m.mp);
    }
  }

  lemma MarkMeets(img: Image, c: Cursor, s: Scan)
    requires Advances(img) && Matches(img, c, s)
    ensures c.lr == c.n <==> s.mark == s.i
  {
  }

  lemma InvVersions(vs: seq<nat>, at: seq<bool>, s: Scan)
    requires Inv(vs, at, s)
    ensures Versions(vs)
  {
  }

  /* ------------------------------------------------------------ when collectdir() returns */

  /** The versions of the directory's entries are distinct and lie in 1..2^32-2. */
  ghost predicate WellVersioned(img: Image, pino: nat)
  {
    Advances(img) && Versions(VersionsOf(img, pino))
  }

  /** No entry that must be found again by a whole pass is preceded by filler. */
  ghost predicate CanCollect(img: Image, pino: nat)
    requires Advances(img)
  {
    Collectable(VersionsOf(img, pino), Adjacent(img))
  }

  lemma BeginsMatch(img: Image, pino: nat)
    requires WellVersioned(img, pino)
    ensures Matches(img, Begins(), VersionScan.Start())
    ensures Inv(VersionsOf(img, pino), Adjacent(img), VersionScan.Start())
  {
    PlaceMarks(img, 0);
    StartInv(VersionsOf(img, pino), Adjacent(img));
    hide Inv, Chain;
  }

  lemma {:induction false} SameEnd(img: Image, pino: nat, c: Cursor, s: Scan, k: nat)
    requires Advances(img) && Matches(img, c, s) && (Inv(VersionsOf(img, pino), Adjacent(img), s) || Done(s))
    ensures StopsAfter(img, pino, c, k) <==> Halts(VersionsOf(img, pino), Adjacent(img), s, k)
    decreases k
  {
    if !Done(s) && k > 0 {
      hide Inv;
      IterateMatches(img, pino, c, s);
      Progress(VersionsOf(img, pino), Adjacent(img), s);
      SameEnd(img, pino, Iterate(img, pino, c), Step(VersionsOf(img, pino), Adjacent(img), s), k - 1);
    }
  }

  /** collectdir() returns if and only if the image can be collected. */
  lemma {:induction false} ReturnsIff(img: Image, pino: nat)
    requires WellVersioned(img, pino)
    ensures Returns(img, pino) <==> CanCollect(img, pino)
  {
    var vs, at := VersionsOf(img, pino), Adjacent(img);
    hide Inv, StopsAfter, Halts;
    BeginsMatch(img, pino);
    forall k: nat ensures StopsAfter(img, pino, Begins(), k) <==> Halts(vs, at, VersionScan.Start(), k) {
      SameEnd(img, pino, Begins(), VersionScan.Start(), k);
    }
    StopsIffCollectable(vs, at);
  }

  /** A word of filler, and then an entry of w words. */
  function Shifted(w: nat, pino: nat, e: Entry): (img: Image)
    requires w > 0
    ensures |img| == 1 + w
  {
    [Filler, Begin(Dirent(w, pino, e))] + seq(w - 1, i => Filler)
  }

  /** A word of filler before the only entry of a directory is enough to hang collectdir(). The header of
      an entry takes ten words. */
  lemma HangExample(w: nat, pino: nat, e: Entry)
    requires w >= 10 && e.version == 1
    ensures WellVersioned(Shifted(w, pino, e), pino)
    ensures !Returns(Shifted(w, pino, e), pino)
  {
    var img := Shifted(w, pino, e);
    assert Chain(img, 1 + w) == [];
    assert Skip(img, 0) == 1;
    assert Chain(img, 0) == [1];
    var vs := VersionsOf(img, pino);
    assert vs == [1] && Adjacent(img) == [false];
    assert Top(vs) == 1;
    assert NeedsPass(vs, false, 0, 0);
    ReturnsIff(img, pino);
  }

  /* ------------------------------------------------------------ what it returns */

  function EntryAt(img: Image, p: nat): Entry
  {
    if IsNode(img, p) && img[p].node.Dirent? then img[p].node.entry else Entry(0, 0, 0, [])
  }

  ghost function PutAll(img: Image, d: seq<Dir>, taken: seq<nat>): seq<Dir>
  {
    if |taken| == 0 then d
    else Put(PutAll(img, d, taken[..|taken| - 1]), EntryAt(img, taken[|taken| - 1]))
  }

  lemma PutOne(img: Image, d: seq<Dir>, taken: seq<nat>, p: nat)
    ensures PutAll(img, d, taken + [p]) == Put(PutAll(img, d, taken), EntryAt(img, p))
  {
    var t := taken + [p];
    assert t[..|t| - 1] == taken;
  }

  /** The directory after its entries with versions 1, 2, ..., v, in that order. */
  ghost function Replayed(img: Image, pino: nat, d: seq<Dir>, v: nat): seq<Dir>
    requires Advances(img)
  {
    if v == 0 then d
    else
      var before, vs := Replayed(img, pino, d, v - 1), VersionsOf(img, pino);
      if v in vs then Put(before, EntryAt(img, Nodes(img)[Index(vs, v)])) else before
  }

  lemma {:induction false} TakenIsReplayed(img: Image, pino: nat, d: seq<Dir>, v: nat)
    requires Advances(img)
    ensures PutAll(img, d, At(Nodes(img), Upto(VersionsOf(img, pino), v))) == Replayed(img, pino, d, v)
  {
    hide Chain, At, PutAll;
    var ps, vs := Nodes(img), VersionsOf(img, pino);
    if v == 0 {
      NothingTaken(img, d, ps);
    } else {
      TakenIsReplayed(img, pino, d, v - 1);
      if v in vs {
        AtAppend(ps, Upto(vs, v - 1), Index(vs, v));
        PutOne(img, d, At(ps, Upto(vs, v - 1)), ps[Index(vs, v)]);
      }
    }
  }

  lemma NothingTaken(img: Image, d: seq<Dir>, ps: seq<nat>)
    ensures PutAll(img, d, At(ps, [])) == d
  {
  }
}
