// What jffsX-utils/jffs2reader.c makes of the images that jffsX-utils/mkfs.jffs2.c writes.

module WrittenImage {
  import opened Basics
  import opened DirList
  import opened FlashLog
  import opened VersionScan
  import opened CollectDir
  import opened DirReader
  import Mkfs = MkfsJffs2
  import Bytes = NodeBytes
  import Compressors
  import FileNodes

  type Output = seq<Bytes.Placed>

  function Words(p: Bytes.Placed): nat
  {
    Round4(p.len) / 4
  }

  /** A node as the reader sees it. */
  function NodeOf(p: Bytes.Placed): Node
  {
    match p.node
    case Cleanmarker => Other(Words(p))
    case Dirent(pino, ino, version, kind, name) => Dirent(Words(p), pino, Entry(version, ino, kind, name))
    case Inode(ino, version, _, _, _, _, _) => Inode(Words(p), ino, version)
  }

  /** The node that begins at a word, or |ps|. */
  function StartAt(ps: Output, w: nat): (i: nat)
    ensures i <= |ps| && (i < |ps| ==> ps[i].ofs == 4 * w)
    ensures i == |ps| ==> forall j :: 0 <= j < |ps| ==> ps[j].ofs != 4 * w
  {
    if |ps| == 0 then 0
    else if ps[|ps| - 1].ofs == 4 * w then |ps| - 1
    else
      var i := StartAt(ps[..|ps| - 1], w);
      if i < |ps| - 1 then i else |ps|
  }

  /** The image of so many words that the nodes are in; all other words are passed over as filler. */
  function ImageOf(ps: Output, words: nat): (img: Image)
    ensures |img| == words
  {
    seq(words, w requires 0 <= w < words =>
      var i := StartAt(ps, w);
      if i < |ps| then Begin(NodeOf(ps[i])) else Filler)
  }

  /** The nodes are packed and end within the image. */
  ghost predicate Fits(ps: Output, words: nat, eraseBlock: nat, cleanmarkers: bool)
  {
    eraseBlock > 0 && Mkfs.Packed(ps, Mkfs.EndOf(ps), eraseBlock, cleanmarkers) && Mkfs.EndOf(ps) <= 4 * words
  }

  lemma FitsAt(ps: Output, words: nat, eraseBlock: nat, cleanmarkers: bool, i: nat)
    requires Fits(ps, words, eraseBlock, cleanmarkers) && i < |ps|
    ensures Mkfs.EndOf(ps[..i]) <= ps[i].ofs && ps[i].ofs % 4 == 0 && ps[i].len > 0
    ensures Mkfs.EndOf(ps[..i + 1]) == ps[i].ofs + 4 * Words(ps[i]) && Words(ps[i]) > 0
    ensures Mkfs.EndOf(ps[..i + 1]) % 4 == 0
    ensures ps[i].ofs + 4 * Words(ps[i]) <= if i + 1 < |ps| then ps[i + 1].ofs else 4 * words
  {
    hide Mkfs.Packed, Round4, Mkfs.EndOf, Words, Mkfs.In;
    Mkfs.PackedAt(ps, Mkfs.EndOf(ps), eraseBlock, cleanmarkers, i);
    WordsExact(ps[i]);
    Multiples(ps[i].ofs, Words(ps[i]));
  }

  lemma WordsExact(p: Bytes.Placed)
    ensures Round4(p.len) == 4 * Words(p) && (p.len > 0 ==> Words(p) > 0)
  {
    hide Round4;
  }

  lemma Multiples(a: nat, n: nat)
    requires a % 4 == 0
    ensures (a + 4 * n) % 4 == 0
  {
  }

  lemma {:induction false} Ascending(ps: Output, words: nat, eraseBlock: nat, cleanmarkers: bool, i: nat, j: nat)
    requires Fits(ps, words, eraseBlock, cleanmarkers) && i < j < |ps|
    ensures ps[i].ofs + 4 * Words(ps[i]) <= ps[j].ofs && Words(ps[i]) > 0
    decreases j
  {
    hide Fits, Words;
    FitsAt(ps, words, eraseBlock, cleanmarkers, j - 1);
    if i < j - 1 {
      Ascending(ps, words, eraseBlock, cleanmarkers, i, j - 1);
    }
  }

  /** Every node is found in the image at its offset. */
  lemma NodeAt(ps: Output, words: nat, eraseBlock: nat, cleanmarkers: bool, i: nat)
    requires Fits(ps, words, eraseBlock, cleanmarkers) && i < |ps|
    ensures ps[i].ofs / 4 < words && ImageOf(ps, words)[ps[i].ofs / 4] == Begin(NodeOf(ps[i]))
  {
    hide Fits, Words, StartAt;
    FitsAt(ps, words, eraseBlock, cleanmarkers, i);
    if i + 1 < |ps| {
      Ascending(ps, words, eraseBlock, cleanmarkers, i, |ps| - 1);
      FitsAt(ps, words, eraseBlock, cleanmarkers, |ps| - 1);
    }
    var j := StartAt(ps, ps[i].ofs / 4);
    if j < i {
      Ascending(ps, words, eraseBlock, cleanmarkers, j, i);
    } else if i < j < |ps| {
      Ascending(ps, words, eraseBlock, cleanmarkers, i, j);
    }
  }

  /** Before node k there is nothing but filler since the end of the node before it. */
  lemma FillerBefore(ps: Output, words: nat, eraseBlock: nat, cleanmarkers: bool, k: nat, w: nat)
    requires Fits(ps, words, eraseBlock, cleanmarkers) && k <= |ps| && w < words
    requires Mkfs.EndOf(ps[..k]) <= 4 * w && (k < |ps| ==> 4 * w < ps[k].ofs)
    ensures ImageOf(ps, words)[w].Filler?
  {
    hide Fits, Words, StartAt;
    var j := StartAt(ps, w);
    if j < k {
      FitsAt(ps, words, eraseBlock, cleanmarkers, k - 1);
      if j < k - 1 {
        Ascending(ps, words, eraseBlock, cleanmarkers, j, k - 1);
      }
    } else if k < j < |ps| {
      Ascending(ps, words, eraseBlock, cleanmarkers, k, j);
    }
  }

  lemma {:induction false} SkipTo(img: Image, n: nat, m: nat)
    requires n <= m <= |img| && forall w :: n <= w < m ==> img[w].Filler?
    requires m < |img| ==> img[m].Begin?
    ensures Skip(img, n) == m
    decreases m - n
  {
    if n < m {
      SkipTo(img, n + 1, m);
    }
  }

  lemma ImageAdvances(ps: Output, words: nat, eraseBlock: nat, cleanmarkers: bool)
    requires Fits(ps, words, eraseBlock, cleanmarkers)
    ensures Advances(ImageOf(ps, words))
  {
    hide Fits, Words, StartAt;
    var img := ImageOf(ps, words);
    forall w | 0 <= w < |img| && img[w].Begin? ensures img[w].node.words > 0 {
      FitsAt(ps, words, eraseBlock, cleanmarkers, StartAt(ps, w));
    }
  }

  ghost function Starts(ps: Output): (ws: seq<nat>)
    ensures |ws| == |ps|
  {
    seq(|ps|, i requires 0 <= i < |ps| => ps[i].ofs / 4)
  }

  /** From the end of one node the scan finds the rest of them. */
  lemma {:induction false} ChainFrom(ps: Output, words: nat, eraseBlock: nat, cleanmarkers: bool, k: nat)
    requires Fits(ps, words, eraseBlock, cleanmarkers) && k <= |ps|
    ensures Advances(ImageOf(ps, words)) && Mkfs.EndOf(ps[..k]) % 4 == 0
    ensures Chain(ImageOf(ps, words), Mkfs.EndOf(ps[..k]) / 4) == Starts(ps)[k..]
    decreases |ps| - k
  {
    hide Fits, Words, ImageOf, Chain, Advances, Mkfs.EndOf;
    var img := ImageOf(ps, words);
    ImageAdvances(ps, words, eraseBlock, cleanmarkers);
    EndAligned(ps, words, eraseBlock, cleanmarkers, k);
    if k == |ps| {
      InImage(ps, words, eraseBlock, cleanmarkers);
      FillerTo(ps, words, eraseBlock, cleanmarkers, k, words);
      ChainEnds(img, Mkfs.EndOf(ps[..k]) / 4);
    } else {
      FitsAt(ps, words, eraseBlock, cleanmarkers, k);
      NodeAt(ps, words, eraseBlock, cleanmarkers, k);
      var w := ps[k].ofs / 4;
      FillerTo(ps, words, eraseBlock, cleanmarkers, k, w);
      ChainFrom(ps, words, eraseBlock, cleanmarkers, k + 1);
      ChainNext(img, Mkfs.EndOf(ps[..k]) / 4, w);
      assert Starts(ps)[k..] == [w] + Starts(ps)[k + 1..];
    }
  }

  lemma EndAligned(ps: Output, words: nat, eraseBlock: nat, cleanmarkers: bool, k: nat)
    requires Fits(ps, words, eraseBlock, cleanmarkers) && k <= |ps|
    ensures Mkfs.EndOf(ps[..k]) % 4 == 0
  {
    hide Fits, Words, Mkfs.EndOf, Round4;
    if k == 0 {
      NoNodes(ps);
    } else {
      FitsAt(ps, words, eraseBlock, cleanmarkers, k - 1);
    }
  }

  lemma NoNodes(ps: Output)
    ensures Mkfs.EndOf(ps[..0]) == 0
  {
  }

  lemma ChainEnds(img: Image, n: nat)
    requires Advances(img) && Skip(img, n) >= |img|
    ensures Chain(img, n) == []
  {
  }

  lemma ChainNext(img: Image, n: nat, p: nat)
    requires Advances(img) && Skip(img, n) == p < |img|
    ensures img[p].Begin? && Chain(img, n) == [p] + Chain(img, p + img[p].node.words)
  {
  }

  lemma InImage(ps: Output, words: nat, eraseBlock: nat, cleanmarkers: bool)
    requires Fits(ps, words, eraseBlock, cleanmarkers)
    ensures ps[..|ps|] == ps && Mkfs.EndOf(ps) <= 4 * words
  {
  }

  lemma FillerTo(ps: Output, words: nat, eraseBlock: nat, cleanmarkers: bool, k: nat, m: nat)
    requires Fits(ps, words, eraseBlock, cleanmarkers) && k <= |ps| && Mkfs.EndOf(ps[..k]) % 4 == 0
    requires Mkfs.EndOf(ps[..k]) <= 4 * m && m <= words
    requires if k < |ps| then 4 * m == ps[k].ofs && m < words && ImageOf(ps, words)[m].Begin? else m == words
    ensures Skip(ImageOf(ps, words), Mkfs.EndOf(ps[..k]) / 4) == m
  {
    hide Fits, StartAt;
    var img, n := ImageOf(ps, words), Mkfs.EndOf(ps[..k]) / 4;
    forall w | n <= w < m ensures img[w].Filler? {
      FillerBefore(ps, words, eraseBlock, cleanmarkers, k, w);
    }
    SkipTo(img, n, m);
  }

  /** The version of node i if it is an entry of the directory, else 0. */
  function VersionIn(ps: Output, pino: nat, i: nat): nat
    requires i < |ps|
  {
    if ps[i].node.Dirent? && ps[i].node.pino == pino then ps[i].node.dversion else 0
  }

  /** The reader visits exactly the nodes that were written. */
  lemma Visited(ps: Output, words: nat, eraseBlock: nat, cleanmarkers: bool)
    requires Fits(ps, words, eraseBlock, cleanmarkers)
    ensures Advances(ImageOf(ps, words)) && Nodes(ImageOf(ps, words)) == Starts(ps)
  {
    hide Fits, ImageOf, Chain, Advances;
    ChainFrom(ps, words, eraseBlock, cleanmarkers, 0);
    assert Starts(ps)[0..] == Starts(ps);
  }

  /** It sees the versions of a directory's entries, and which nodes directly follow one another. */
  lemma VisitedAt(ps: Output, words: nat, eraseBlock: nat, cleanmarkers: bool, pino: nat, i: nat)
    requires Fits(ps, words, eraseBlock, cleanmarkers) && i < |ps|
    ensures Advances(ImageOf(ps, words)) && |Nodes(ImageOf(ps, words))| == |ps|
    ensures Nodes(ImageOf(ps, words))[i] == ps[i].ofs / 4
    ensures VersionsOf(ImageOf(ps, words), pino)[i] == VersionIn(ps, pino, i)
    ensures Adjacent(ImageOf(ps, words))[i] <==> ps[i].ofs == Mkfs.EndOf(ps[..i])
  {
    hide Fits, ImageOf, Chain, Advances, Words;
    Visited(ps, words, eraseBlock, cleanmarkers);
    FitsAt(ps, words, eraseBlock, cleanmarkers, i);
    NodeAt(ps, words, eraseBlock, cleanmarkers, i);
    if i > 0 {
      FitsAt(ps, words, eraseBlock, cleanmarkers, i - 1);
      NodeAt(ps, words, eraseBlock, cleanmarkers, i - 1);
    }
  }

  /* ------------------------------------------------------------ the entries, in the order of writing */

  lemma {:induction false} EntriesGrow(ps: Output, i: nat, j: nat)
    requires i <= j <= |ps|
    ensures Mkfs.Entries(ps[..i]) <= Mkfs.Entries(ps[..j])
    ensures i < j && ps[i].node.Dirent? ==> Mkfs.Entries(ps[..i]) < Mkfs.Entries(ps[..j])
    decreases j
  {
    if i < j {
      assert ps[..j][..j - 1] == ps[..j - 1];
      EntriesGrow(ps, i, j - 1);
    }
  }

  /** The node of the entry before which v entries were written. */
  function EntryNo(ps: Output, v: nat): (i: nat)
    requires v < Mkfs.Entries(ps)
    ensures i < |ps| && ps[i].node.Dirent? && Mkfs.Entries(ps[..i]) == v
  {
    var last := |ps| - 1;
    if ps[last].node.Dirent? && Mkfs.Entries(ps[..last]) == v then last
    else
      var i := EntryNo(ps[..last], v);
      assert ps[..last][..i] == ps[..i];
      i
  }

  /** Entry v, counted from 0, is in the directory. */
  predicate InDir(ps: Output, pino: nat, v: nat)
  {
    v < Mkfs.Entries(ps) && ps[EntryNo(ps, v)].node.pino == pino
  }

  lemma EntryNoIs(ps: Output, i: nat)
    requires i < |ps| && ps[i].node.Dirent?
    ensures Mkfs.Entries(ps[..i]) < Mkfs.Entries(ps) && EntryNo(ps, Mkfs.Entries(ps[..i])) == i
  {
    hide EntryNo, Mkfs.Entries;
    EntriesGrow(ps, i, |ps|);
    assert ps[..|ps|] == ps;
    var j := EntryNo(ps, Mkfs.Entries(ps[..i]));
    EntriesGrow(ps, if i < j then i else j, if i < j then j else i);
  }

  /** A directory has an entry with version v exactly if entry v was written to it. */
  lemma VersionPresent(ps: Output, words: nat, eraseBlock: nat, cleanmarkers: bool, pino: nat, v: nat)
    requires Fits(ps, words, eraseBlock, cleanmarkers) && Mkfs.Numbered(ps) && v > 0
    ensures Advances(ImageOf(ps, words))
    ensures v in VersionsOf(ImageOf(ps, words), pino) <==> InDir(ps, pino, v)
    ensures InDir(ps, pino, v) ==> var i := EntryNo(ps, v);
      |VersionsOf(ImageOf(ps, words), pino)| == |ps| && VersionsOf(ImageOf(ps, words), pino)[i] == v
  {
    hide Fits, ImageOf, Chain, Advances, EntryNo, Mkfs.Entries, VersionsOf, Adjacent;
    var img := ImageOf(ps, words);
    Visited(ps, words, eraseBlock, cleanmarkers);
    var vs := VersionsOf(img, pino);
    if InDir(ps, pino, v) {
      var i := EntryNo(ps, v);
      VisitedAt(ps, words, eraseBlock, cleanmarkers, pino, i);
    }
    if v in vs {
      var i :| 0 <= i < |vs| && vs[i] == v;
      VisitedAt(ps, words, eraseBlock, cleanmarkers, pino, i);
      EntryNoIs(ps, i);
    }
  }

  /** The versions of a directory's entries are different, and the reader can tell them from its limits. */
  lemma Versioned(ps: Output, words: nat, eraseBlock: nat, cleanmarkers: bool, pino: nat)
    requires Fits(ps, words, eraseBlock, cleanmarkers) && Mkfs.Numbered(ps) && Mkfs.Entries(ps) <= MAX
    ensures WellVersioned(ImageOf(ps, words), pino)
  {
    hide Fits, ImageOf, Chain, Advances, EntryNo, Mkfs.Entries, VersionsOf, Adjacent;
    Visited(ps, words, eraseBlock, cleanmarkers);
    var vs := VersionsOf(ImageOf(ps, words), pino);
    forall i | 0 <= i < |vs| ensures vs[i] < MAX {
      VisitedAt(ps, words, eraseBlock, cleanmarkers, pino, i);
      if ps[i].node.Dirent? {
        EntryNoIs(ps, i);
      }
    }
    forall i, j | 0 <= i < j < |vs| && vs[i] > 0 ensures vs[i] != vs[j] {
      VisitedAt(ps, words, eraseBlock, cleanmarkers, pino, i);
      VisitedAt(ps, words, eraseBlock, cleanmarkers, pino, j);
      EntriesGrow(ps, i, j);
    }
  }

  /* ------------------------------------------------------------ when collectdir() returns */

  /** There is padding before the node. */
  predicate Padded(ps: Output, i: nat)
    requires i < |ps|
  {
    ps[i].ofs != Mkfs.EndOf(ps[..i])
  }

  /** After entry v collectdir() has to notice that it has gone once round the image: it takes the entry as
      the next one, the one after it is in another directory or missing, and either there are later ones or
      all from 1 on were taken in this way. */
  ghost predicate Awaited(ps: Output, pino: nat, v: nat)
  {
    && v >= 1 && InDir(ps, pino, v) && (v == 1 || InDir(ps, pino, v - 1)) && !InDir(ps, pino, v + 1)
    && ((exists u :: u > v && InDir(ps, pino, u)) || (forall u :: 1 <= u <= v ==> InDir(ps, pino, u)))
  }

  lemma AwaitedIff(ps: Output, words: nat, eraseBlock: nat, cleanmarkers: bool, pino: nat, v: nat)
    requires Fits(ps, words, eraseBlock, cleanmarkers) && Mkfs.Numbered(ps) && InDir(ps, pino, v) && v > 0
    ensures Advances(ImageOf(ps, words))
    ensures NeedsPass(VersionsOf(ImageOf(ps, words), pino), false, 0, EntryNo(ps, v)) <==> Awaited(ps, pino, v)
  {
    hide Fits, ImageOf, Chain, Advances, EntryNo, Mkfs.Entries, VersionsOf, Adjacent, Top, InDir, Mkfs.Numbered;
    Visited(ps, words, eraseBlock, cleanmarkers);
    var vs := VersionsOf(ImageOf(ps, words), pino);
    forall u: nat | u > 0 ensures u in vs <==> InDir(ps, pino, u) {
      VersionPresent(ps, words, eraseBlock, cleanmarkers, pino, u);
    }
    VersionPresent(ps, words, eraseBlock, cleanmarkers, pino, v);
    assert v <= Top(vs);
    assert v < Top(vs) <==> exists u :: u > v && InDir(ps, pino, u);
  }

  /** collectdir() returns for what was written exactly if no entry after which it must notice a whole
      round has padding before it. */
  lemma CollectsIff(ps: Output, words: nat, eraseBlock: nat, cleanmarkers: bool, pino: nat)
    requires Fits(ps, words, eraseBlock, cleanmarkers) && Mkfs.Numbered(ps) && Mkfs.Entries(ps) <= MAX
    ensures WellVersioned(ImageOf(ps, words), pino)
    ensures Returns(ImageOf(ps, words), pino) <==> CanCollect(ImageOf(ps, words), pino)
    ensures CanCollect(ImageOf(ps, words), pino) <==>
      forall v :: Awaited(ps, pino, v) ==> !Padded(ps, EntryNo(ps, v))
  {
    hide Fits, ImageOf, Chain, Advances, EntryNo, Mkfs.Entries, VersionsOf, Adjacent, NeedsPass, Awaited, Mkfs.EndOf;
    hide Returns;
    var img := ImageOf(ps, words);
    Visited(ps, words, eraseBlock, cleanmarkers);
    Versioned(ps, words, eraseBlock, cleanmarkers, pino);
    ReturnsIff(img, pino);
    var vs, at := VersionsOf(img, pino), Adjacent(img);
    forall v | Awaited(ps, pino, v) ensures InDir(ps, pino, v) && v > 0 {
      AwaitedIsIn(ps, pino, v);
    }
    forall v: nat | InDir(ps, pino, v) && v > 0
      ensures NeedsPass(vs, false, 0, EntryNo(ps, v)) <==> Awaited(ps, pino, v)
      ensures at[EntryNo(ps, v)] <==> !Padded(ps, EntryNo(ps, v))
    {
      AwaitedIff(ps, words, eraseBlock, cleanmarkers, pino, v);
      VisitedAt(ps, words, eraseBlock, cleanmarkers, pino, EntryNo(ps, v));
    }
    forall i | 0 <= i < |vs| && NeedsPass(vs, false, 0, i)
      ensures ps[i].node.Dirent? && var v := ps[i].node.dversion; InDir(ps, pino, v) && v > 0 && EntryNo(ps, v) == i
    {
      NeedsEntry(vs, i);
      VisitedAt(ps, words, eraseBlock, cleanmarkers, pino, i);
      EntryNoIs(ps, i);
    }
    if CanCollect(img, pino) {
      forall v | Awaited(ps, pino, v) ensures !Padded(ps, EntryNo(ps, v)) {
        assert NeedsPass(vs, false, 0, EntryNo(ps, v));
      }
    }
  }

  lemma AwaitedIsIn(ps: Output, pino: nat, v: nat)
    requires Awaited(ps, pino, v)
    ensures InDir(ps, pino, v) && v > 0
  {
  }

  lemma NeedsEntry(vs: seq<nat>, i: nat)
    requires NeedsPass(vs, false, 0, i)
    ensures i < |vs| && vs[i] > 0
  {
  }

  /** With cleanmarkers, collectdir() always returns for what was written. */
  lemma CleanmarkersCollect(ps: Output, words: nat, eraseBlock: nat, pino: nat)
    requires Fits(ps, words, eraseBlock, true) && Mkfs.Numbered(ps) && Mkfs.Entries(ps) <= MAX
    ensures WellVersioned(ImageOf(ps, words), pino) && CanCollect(ImageOf(ps, words), pino)
  {
    hide ImageOf, CanCollect, EntryNo, Mkfs.Packed;
    CollectsIff(ps, words, eraseBlock, true, pino);
    forall v | Awaited(ps, pino, v) ensures !Padded(ps, EntryNo(ps, v)) {
      AwaitedIsIn(ps, pino, v);
      Mkfs.FollowsDirectly(ps, Mkfs.EndOf(ps), eraseBlock, EntryNo(ps, v));
    }
  }

  /* ------------------------------------------------------------ what is listed */

  ghost function EntryOf(ps: Output, v: nat): Entry
    requires v < Mkfs.Entries(ps)
  {
    var d := ps[EntryNo(ps, v)].node;
    Entry(d.dversion, d.dino, d.kind, d.name)
  }

  /** What the last of the first n entries with this name says, where entry 0 does not count. */
  ghost function LastWritten(ps: Output, pino: nat, name: Name, n: nat): Found
    requires n <= Mkfs.Entries(ps)
  {
    if n <= 1 then Nothing
    else if InDir(ps, pino, n - 1) && EntryOf(ps, n - 1).name == name then Meaning(EntryOf(ps, n - 1))
    else LastWritten(ps, pino, name, n - 1)
  }

  /** The last word of the image about a name is that of the entries written. */
  lemma {:induction false} LastWordIs(ps: Output, words: nat, eraseBlock: nat, cleanmarkers: bool, pino: nat,
    name: Name, v: nat)
    requires Fits(ps, words, eraseBlock, cleanmarkers) && Mkfs.Numbered(ps) && v < Mkfs.Entries(ps) <= MAX
    ensures Advances(ImageOf(ps, words))
    ensures LastWord(ImageOf(ps, words), pino, name, v) == LastWritten(ps, pino, name, v + 1)
  {
    hide Fits, ImageOf, Chain, Advances, EntryNo, Mkfs.Entries, VersionsOf, Versions, Index, Mkfs.Numbered;
    var img := ImageOf(ps, words);
    Visited(ps, words, eraseBlock, cleanmarkers);
    if v > 0 {
      LastWordIs(ps, words, eraseBlock, cleanmarkers, pino, name, v - 1);
      VersionPresent(ps, words, eraseBlock, cleanmarkers, pino, v);
      if InDir(ps, pino, v) {
        var i := EntryNo(ps, v);
        Versioned(ps, words, eraseBlock, cleanmarkers, pino);
        UniqueIndex(VersionsOf(img, pino), i);
        VisitedAt(ps, words, eraseBlock, cleanmarkers, pino, i);
        NodeAt(ps, words, eraseBlock, cleanmarkers, i);
      }
    }
  }

  lemma {:induction false} NothingAbove(img: Image, pino: nat, name: Name, v: nat)
    requires Advances(img) && Top(VersionsOf(img, pino)) <= v
    ensures LastWord(img, pino, name, v) == LastWord(img, pino, name, Top(VersionsOf(img, pino)))
    decreases v
  {
    hide Top, VersionsOf;
    if Top(VersionsOf(img, pino)) < v {
      NothingAbove(img, pino, name, v - 1);
    }
  }

  /** A name is listed as the last entry for it says; the very first entry that was written is not seen. */
  lemma ListedIs(ps: Output, words: nat, eraseBlock: nat, cleanmarkers: bool, pino: nat, name: Name)
    requires Fits(ps, words, eraseBlock, cleanmarkers) && Mkfs.Numbered(ps) && Mkfs.Entries(ps) <= MAX
    ensures WellVersioned(ImageOf(ps, words), pino)
    ensures Lookup(Replayed(ImageOf(ps, words), pino, [], Top(VersionsOf(ImageOf(ps, words), pino))), name) ==
      LastWritten(ps, pino, name, Mkfs.Entries(ps))
  {
    hide Fits, ImageOf, Chain, EntryNo, Mkfs.Entries, VersionsOf, Top, Lookup, Replayed, Versions, Mkfs.Numbered;
    hide LastWord, LastWritten;
    var img, n := ImageOf(ps, words), Mkfs.Entries(ps);
    Versioned(ps, words, eraseBlock, cleanmarkers, pino);
    var top := Top(VersionsOf(img, pino));
    ReplayedLookup(img, pino, name, top);
    if top > 0 {
      VersionPresent(ps, words, eraseBlock, cleanmarkers, pino, top);
    }
    if n > 0 {
      LastWordIs(ps, words, eraseBlock, cleanmarkers, pino, name, n - 1);
      NothingAbove(img, pino, name, n - 1);
    } else {
      NoWords(ps, img, pino, name);
    }
  }

  lemma NoWords(ps: Output, img: Image, pino: nat, name: Name)
    requires Advances(img)
    ensures LastWord(img, pino, name, 0) == Nothing && LastWritten(ps, pino, name, 0) == Nothing
  {
  }

  /* ------------------------------------------------------------ writing and reading back */

  /** The words of an output: a node begins where there is the first byte of a header. */
  function ImageFrom(out: seq<Bytes.Octet>): (img: Image)
    ensures |img| == |out| / 4
  {
    seq(|out| / 4, w requires 0 <= w < |out| / 4 => CellOf(out[4 * w]))
  }

  function CellOf(o: Bytes.Octet): Cell
  {
    if o.Head? && o.at == 0 then Begin(NodeOf(Bytes.Placed(0, o.len, o.node))) else Filler
  }

  lemma CellIs(out: seq<Bytes.Octet>, ps: Output, w: nat)
    requires Bytes.Printed(out, ps) && w < |out| / 4
    ensures CellOf(out[4 * w]) == ImageOf(ps, |out| / 4)[w]
  {
    hide Bytes.Printed, StartAt;
    var i := StartAt(ps, w);
    if i < |ps| {
      Bytes.NodeAt(out, ps, i);
    } else if out[4 * w].Head? && out[4 * w].at == 0 {
      Bytes.HeadIsNode(out, ps, 4 * w);
    }
  }

  /** The output of a writer, as an image. */
  lemma OutputFits(w: Mkfs.FsWriter)
    requires w.Valid()
    ensures Fits(w.nodes, w.outOfs / 4, w.eraseBlock, w.addCleanmarkers)
    ensures Mkfs.Numbered(w.nodes) && w.direntVersion == Mkfs.Entries(w.nodes)
    ensures ImageFrom(w.out) == ImageOf(w.nodes, w.outOfs / 4)
  {
    hide Bytes.Printed, CellOf, ImageOf;
    var n := |w.out| / 4;
    forall k | 0 <= k < n ensures ImageFrom(w.out)[k] == ImageOf(w.nodes, n)[k] {
      CellIs(w.out, w.nodes, k);
    }
  }

  /** With cleanmarkers, a name in what has been written so far is listed, and found by lookup, as the last
      entry for it says. */
  method ReadBack(w: Mkfs.FsWriter, pino: nat, name: Name) returns (listed: Found, dd: int)
    requires w.Valid() && w.addCleanmarkers && w.direntVersion <= MAX && pino != 0
    ensures listed == LastWritten(w.nodes, pino, name, w.direntVersion)
    ensures dd >= 0 ==>
      exists v :: 0 <= v < w.direntVersion && EntryAt(ImageFrom(w.out), dd) == EntryOf(w.nodes, v)
    ensures listed == if dd < 0 then Nothing else Meaning(EntryAt(ImageFrom(w.out), dd))
  {
    hide Fits, ImageOf, ImageFrom, WellVersioned, CanCollect, IsNewest, LastWritten, Lookup, Replayed;
    OutputFits(w);
    CleanmarkersCollect(w.nodes, w.outOfs / 4, w.eraseBlock, pino);
    listed, dd := ReadImage(ImageFrom(w.out), pino, name);
    ListedIs(w.nodes, w.outOfs / 4, w.eraseBlock, w.addCleanmarkers, pino, name);
    if dd >= 0 {
      ImageAdvances(w.nodes, w.outOfs / 4, w.eraseBlock, w.addCleanmarkers);
      ghost var v := NewestIsEntry(w.nodes, w.outOfs / 4, w.eraseBlock, w.addCleanmarkers, pino, name, dd);
    }
  }

  /** What lookup finds is one of the entries written. */
  lemma NewestIsEntry(ps: Output, words: nat, eraseBlock: nat, cleanmarkers: bool, pino: nat, name: Name, dd: nat)
    returns (v: nat)
    requires Fits(ps, words, eraseBlock, cleanmarkers) && Advances(ImageOf(ps, words))
    requires IsNewest(ImageOf(ps, words), 0, pino, name, Nodes(ImageOf(ps, words)), dd)
    ensures v < Mkfs.Entries(ps) && EntryAt(ImageOf(ps, words), dd) == EntryOf(ps, v)
  {
    hide Fits, ImageOf, EntryNo, Mkfs.Entries, Chain, Advances;
    Visited(ps, words, eraseBlock, cleanmarkers);
    var i :| 0 <= i < |ps| && Nodes(ImageOf(ps, words))[i] == dd;
    NodeAt(ps, words, eraseBlock, cleanmarkers, i);
    EntryNoIs(ps, i);
    v := Mkfs.Entries(ps[..i]);
  }

  method ReadImage(img: Image, pino: nat, name: Name) returns (listed: Found, dd: int)
    requires WellVersioned(img, pino) && CanCollect(img, pino) && pino != 0
    ensures IsNewest(img, 0, pino, name, Nodes(img), dd)
    ensures listed == Lookup(Replayed(img, pino, [], Top(VersionsOf(img, pino))), name)
    ensures listed == if dd < 0 then Nothing else Meaning(EntryAt(img, dd))
  {
    hide IsNewest, Lookup, Replayed, Top, CanCollect, WellVersioned;
    listed, dd := ListAndResolve(img, pino, name);
    ListingAgrees(img, pino, name, dd);
  }

  /** As long as only one entry has been written, nothing can be seen of it. */
  lemma OneEntryUnseen(ps: Output, words: nat, eraseBlock: nat, cleanmarkers: bool, pino: nat, name: Name)
    requires Fits(ps, words, eraseBlock, cleanmarkers) && Mkfs.Numbered(ps) && Mkfs.Entries(ps) <= 1
    ensures WellVersioned(ImageOf(ps, words), pino) && CanCollect(ImageOf(ps, words), pino)
    ensures Lookup(Replayed(ImageOf(ps, words), pino, [], Top(VersionsOf(ImageOf(ps, words), pino))), name) == Nothing
    ensures forall dd :: IsNewest(ImageOf(ps, words), 0, pino, name, Nodes(ImageOf(ps, words)), dd) ==> dd == -1
  {
    hide Fits, ImageOf, CanCollect, Lookup, Replayed, Top, EntryNo, Mkfs.Entries, Chain;
    var img := ImageOf(ps, words);
    CollectsIff(ps, words, eraseBlock, cleanmarkers, pino);
    ListedIs(ps, words, eraseBlock, cleanmarkers, pino, name);
    Visited(ps, words, eraseBlock, cleanmarkers);
    forall dd | IsNewest(img, 0, pino, name, Nodes(img), dd) ensures dd == -1 {
      if dd >= 0 {
        var i :| 0 <= i < |ps| && Nodes(img)[i] == dd;
        NodeAt(ps, words, eraseBlock, cleanmarkers, i);
        EntryNoIs(ps, i);
      }
    }
  }

  /** The first file that mkfs.jffs2 writes is not in the listing of its directory, and lookup does not
      find it. */
  method FirstFileUnseen(registry: Compressors.Registry, eraseBlock: nat, cleanmarkers: bool, size: nat, page: nat,
    pino: nat, name: seq<Byte>, file: seq<Byte>)
    returns (w: Mkfs.FsWriter, listed: Found, dd: int)
    requires eraseBlock >= 0x2000 && eraseBlock % 4 == 0 && 12 <= size && page > 0 && |name| <= 255
    requires Round4(size) + 295 <= eraseBlock && |file| < Mkfs.MAX_FILE_SIZE && pino != 0
    requires FileNodes.DistinctIds(registry.list)
    requires forall i :: 0 <= i < |registry.list| ==> Compressors.Sound(registry.list[i], page)
    ensures fresh(w) && exists k :: 0 <= k < |w.nodes| && w.nodes[k].node == Bytes.Dirent(pino, 2, 0, Mkfs.DT_REG, name)
    ensures listed == Nothing && dd == -1
  {
    hide Fits, ImageOf, ImageFrom, WellVersioned, CanCollect, IsNewest, Lookup, Replayed, Mkfs.Packed, Mkfs.In;
    hide Compressors.Sound, Mkfs.Numbered, Bytes.Printed, FileNodes.Inodes, FileNodes.Tiles;
    w := new Mkfs.FsWriter(registry, eraseBlock, cleanmarkers, size, page);
    var ok; ghost var ns;
    ok, ns := w.WriteRegularFile(pino, name, file);
    OutputFits(w);
    OneEntryUnseen(w.nodes, w.outOfs / 4, eraseBlock, cleanmarkers, pino, name);
    listed, dd := ReadImage(ImageFrom(w.out), pino, name);
  }

  /** Without cleanmarkers, an entry that does not fit in the block can leave an image that collectdir()
      never finishes: it does so whenever all entries but the first are in its directory. */
  method PaddedEntryHangs(w: Mkfs.FsWriter, pino: nat, dino: nat, kind: nat, name: seq<Byte>)
    requires w.Valid() && !w.addCleanmarkers && 1 <= w.direntVersion < MAX
    requires forall v :: 1 <= v < w.direntVersion ==> InDir(w.nodes, pino, v)
    requires Bytes.DIRENT_LEN + |name| <= w.eraseBlock < Mkfs.In(w.outOfs, w.eraseBlock) + Bytes.DIRENT_LEN + |name|
    modifies w
    ensures w.Valid() && !Returns(ImageFrom(w.out), pino)
  {
    hide Fits, ImageOf, Mkfs.Packed, Mkfs.In, Returns, CanCollect, Mkfs.Numbered, EntryNo, Mkfs.Entries, InDir, Awaited;
    hide Padded, Mkfs.EndOf;
    ghost var ps, n := w.nodes, w.direntVersion;
    OutputFits(w);
    OutputEnd(w);
    w.WriteDirent(pino, dino, kind, name);
    OutputFits(w);
    CollectsIff(w.nodes, w.outOfs / 4, w.eraseBlock, w.addCleanmarkers, pino);
    ghost var p := w.nodes[|w.nodes| - 1];
    assert w.nodes == ps + [p];
    PaddedAwaited(ps, p, pino);
  }

  /** An entry behind padding that ends an unbroken series is awaited. */
  lemma PaddedAwaited(ps: Output, p: Bytes.Placed, pino: nat)
    requires p.node.Dirent? && p.node.pino == pino && p.ofs > Mkfs.EndOf(ps) && Mkfs.Entries(ps) >= 1
    requires forall v :: 1 <= v < Mkfs.Entries(ps) ==> InDir(ps, pino, v)
    ensures var n := Mkfs.Entries(ps); Awaited(ps + [p], pino, n) && Padded(ps + [p], EntryNo(ps + [p], n))
  {
    hide EntryNo, Mkfs.Entries, Mkfs.EndOf;
    NewEntry(ps, p, pino);
  }

  lemma OutputEnd(w: Mkfs.FsWriter)
    requires w.Valid()
    ensures Mkfs.EndOf(w.nodes) <= w.outOfs
  {
  }

  /** A further entry is the last one. */
  lemma NewEntry(ps: Output, p: Bytes.Placed, pino: nat)
    requires p.node.Dirent?
    ensures var n := Mkfs.Entries(ps);
      && Mkfs.Entries(ps + [p]) == n + 1 && EntryNo(ps + [p], n) == |ps| && (ps + [p])[..|ps|] == ps
      && forall v :: 0 <= v < n ==> (InDir(ps + [p], pino, v) <==> InDir(ps, pino, v))
  {
    assert (ps + [p])[..|ps|] == ps;
  }

  /* ------------------------------------------------------------ from files to listings */

  /** A regular file to be put in an image. */
  datatype File = File(pino: nat, name: seq<Byte>, contents: seq<Byte>)

  ghost predicate Writable(f: File, w: Mkfs.FsWriter)
  {
    |f.contents| < Mkfs.MAX_FILE_SIZE && w.Marker() + Bytes.DIRENT_LEN + |f.name| <= w.eraseBlock
  }

  /** Entry v is that of file v; inode numbers begin at 2. */
  ghost predicate Recorded(ps: Output, files: seq<File>, v: nat)
    requires v < |files|
  {
    && v < Mkfs.Entries(ps) && InDir(ps, files[v].pino, v)
    && EntryOf(ps, v) == Entry(v, v + 2, Mkfs.DT_REG, files[v].name)
  }

  /** What was recorded stays recorded. */
  lemma StillRecorded(ps: Output, more: Output, files: seq<File>, v: nat)
    requires ps <= more && v < |files| && Recorded(ps, files, v)
    ensures Recorded(more, files, v)
  {
    hide EntryNo;
    var i := EntryNo(ps, v);
    assert more[..i] == ps[..i];
    EntryNoIs(more, i);
  }

  /** Write files one after the other. */
  method WriteFiles(w: Mkfs.FsWriter, files: seq<File>)
    requires w.Valid() && w.nodes == [] && w.ino == 1 && w.CanCompress() && w.pageSize > 0 && w.registry as object != w
    requires forall i :: 0 <= i < |files| ==> Writable(files[i], w)
    modifies w
    ensures w.Valid() && w.direntVersion == |files| && forall v :: 0 <= v < |files| ==> Recorded(w.nodes, files, v)
    ensures forall v :: 0 <= v < |files| ==> w.FileRead(v + 2) == files[v].contents
  {
    hide FileNodes.Tiles, FileNodes.Inodes, Bytes.Printed, Mkfs.In, Mkfs.Packed, Mkfs.Numbered, EntryNo, Recorded,
      Mkfs.FsWriter.CanCompress;
    hide Mkfs.FsWriter.FileRead;
    var i := 0;
    while i < |files|
      invariant i <= |files| && w.Valid() && w.CanCompress() && w.direntVersion == i && w.ino == i + 1
      invariant forall v :: 0 <= v < i ==> Recorded(w.nodes, files, v)
      invariant forall v :: 0 <= v < i ==> w.FileRead(v + 2) == files[v].contents
    {
      ghost var before := w.nodes;
      var ok; ghost var ns;
      assert Writable(files[i], w);
      ok, ns := w.WriteRegularFile(files[i].pino, files[i].name, files[i].contents);
      forall v | 0 <= v < i ensures Recorded(w.nodes, files, v) {
        StillRecorded(before, w.nodes, files, v);
      }
      JustRecorded(w, files, i);
      i := i + 1;
    }
  }

  lemma JustRecorded(w: Mkfs.FsWriter, files: seq<File>, v: nat)
    requires w.Valid() && v < |files|
    requires var d := Bytes.Dirent(files[v].pino, v + 2, v, Mkfs.DT_REG, files[v].name);
      exists k :: 0 <= k < |w.nodes| && w.nodes[k].node == d
    ensures Recorded(w.nodes, files, v)
  {
    hide EntryNo;
    var d := Bytes.Dirent(files[v].pino, v + 2, v, Mkfs.DT_REG, files[v].name);
    var k :| 0 <= k < |w.nodes| && w.nodes[k].node == d;
    EntryNoIs(w.nodes, k);
  }

  /** The last of the first n files with this name, where file 0 does not count. */
  ghost function LastFile(files: seq<File>, pino: nat, name: Name, n: nat): Found
    requires n <= |files|
  {
    if n <= 1 then Nothing
    else if files[n - 1].pino == pino && files[n - 1].name == name then Found(Mkfs.DT_REG, n + 1)
    else LastFile(files, pino, name, n - 1)
  }

  lemma {:induction false} LastFileIs(files: seq<File>, pino: nat, name: Name, n: nat)
    requires n <= |files|
    ensures var f := LastFile(files, pino, name, n);
      f.Found? ==>
        && f.kind == Mkfs.DT_REG && 3 <= f.ino < n + 2
        && files[f.ino - 2].pino == pino && files[f.ino - 2].name == name
    ensures forall v :: 1 <= v < n && files[v].pino == pino && files[v].name == name ==>
      var f := LastFile(files, pino, name, n); f.Found? && f.ino >= v + 2
  {
    if n > 1 {
      LastFileIs(files, pino, name, n - 1);
    }
  }

  lemma {:induction false} LastWrittenIs(ps: Output, files: seq<File>, pino: nat, name: Name, n: nat)
    requires n <= |files| && n <= Mkfs.Entries(ps) && forall v :: 0 <= v < n ==> Recorded(ps, files, v)
    ensures LastWritten(ps, pino, name, n) == LastFile(files, pino, name, n)
  {
    hide EntryNo;
    if n > 1 {
      assert Recorded(ps, files, n - 1);
      LastWrittenIs(ps, files, pino, name, n - 1);
    }
  }

  /** Make an image of files and list it: every name has the inode of the last file with that name in the
      directory, but the first file of all is missing. The contents of the file are read from that inode. */
  method MakeAndList(w: Mkfs.FsWriter, files: seq<File>, pino: nat, name: Name) returns (listed: Found, dd: int)
    requires w.Valid() && w.nodes == [] && w.ino == 1 && w.CanCompress() && w.pageSize > 0 && w.registry as object != w
    requires w.addCleanmarkers && pino != 0 && |files| <= MAX
    requires forall i :: 0 <= i < |files| ==> Writable(files[i], w)
    modifies w
    ensures dd < 0 <==> listed == Nothing
    ensures forall v :: 1 <= v < |files| && files[v].pino == pino && files[v].name == name ==>
      listed.Found? && listed.ino >= v + 2
    ensures listed.Found? ==>
      && 3 <= listed.ino < |files| + 2 && listed.kind == Mkfs.DT_REG
      && files[listed.ino - 2].pino == pino && files[listed.ino - 2].name == name
      && w.FileRead(listed.ino) == files[listed.ino - 2].contents
  {
    hide Mkfs.Packed, Mkfs.In, Mkfs.Numbered, LastWritten, LastFile, EntryNo, Recorded, ImageOf;
    WriteFiles(w, files);
    listed, dd := ReadBack(w, pino, name);
    LastWrittenIs(w.nodes, files, pino, name, |files|);
    LastFileIs(files, pino, name, |files|);
    if dd >= 0 {
      ghost var v :| 0 <= v < |files| && EntryAt(ImageFrom(w.out), dd) == EntryOf(w.nodes, v);
      NotUnlinked(w.nodes, files, v);
    }
  }

  lemma NotUnlinked(ps: Output, files: seq<File>, v: nat)
    requires v < |files| && Recorded(ps, files, v)
    ensures Meaning(EntryOf(ps, v)).Found?
  {
  }
}
