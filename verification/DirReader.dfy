// jffsX-utils/jffs2reader.c: the listing that collectdir() builds, the lookup of resolvename(), and
// why the two agree.

module DirReader {
  import opened DirList
  import opened FlashLog
  import opened VersionScan
  import opened CollectDir

  /** The first half of the loop body of collectdir(): find a node and look at it. */
  method LookAhead(img: Image, pino: nat, c: Cursor, d0: DirNode?, ghost s: seq<DirNode>, ghost start: seq<Dir>)
    returns (r: Cursor, d: DirNode?, ghost t: seq<DirNode>)
    requires IsList(s, d0) && Lines(s) == PutAll(img, start, c.taken)
    modifies s
    ensures r == Advance(img, pino, c)
    ensures IsList(t, d) && Lines(t) == PutAll(img, start, r.taken)
    ensures forall i :: 0 <= i < |t| ==> t[i] in s || fresh(t[i])
  {
    hide IsList, Put, PutAll, Lines, Skip, EntryAt, VersionAt, After;
    d, t := d0, s;
    var n := SkipFiller(img, c.n);
    if n >= |img| {
      return c.(n := 0), d, t;
    }
    var v := VersionAt(img, pino, n);
    r := c;
    if v > c.vcur {
      if r.vmaxt < v {
        r := r.(vmaxt := v);
      }
      if r.vmint > v {
        r := r.(vmint := v, mp := n);
      }
      if v == r.vcur + 1 {
        d, t := PutDir(d, EntryAt(img, n), t);
        PutOne(img, start, c.taken, n);
        r := r.(taken := r.taken + [n], lr := n, vcur := r.vcur + 1, vmint := MAX);
      }
    }
    r := r.(n := After(img, n));
  }

  /** The second half: when a whole pass is over, take the lowest version that is left. */
  method NoticePass(img: Image, c: Cursor, d0: DirNode?, ghost s: seq<DirNode>, ghost start: seq<Dir>)
    returns (r: Cursor, d: DirNode?, ghost t: seq<DirNode>)
    requires IsList(s, d0) && Lines(s) == PutAll(img, start, c.taken)
    modifies s
    ensures r == if c.lr == c.n then PassOver(img, c) else c
    ensures IsList(t, d) && Lines(t) == PutAll(img, start, r.taken)
    ensures forall i :: 0 <= i < |t| ==> t[i] in s || fresh(t[i])
  {
    hide IsList, Put, PutAll, Lines, EntryAt, After;
    d, t, r := d0, s, c;
    if r.lr == r.n {
      var vmin := r.vmint;
      r := r.(vmax := r.vmaxt, vmint := MAX);
      if r.vcur < r.vmax && r.vcur < vmin {
        d, t := PutDir(d, EntryAt(img, r.mp), t);
        PutOne(img, start, c.taken, c.mp);
        var n := After(img, r.mp);
        r := r.(taken := r.taken + [r.mp], n := n, lr := n, vcur := vmin);
      }
    }
  }

  /** The body of the do-while loop of collectdir(). */
  method ScanOnce(img: Image, pino: nat, c: Cursor, d0: DirNode?, ghost s: seq<DirNode>, ghost start: seq<Dir>)
    returns (r: Cursor, d: DirNode?, ghost t: seq<DirNode>)
    requires IsList(s, d0) && Lines(s) == PutAll(img, start, c.taken)
    modifies s
    ensures r == Iterate(img, pino, c)
    ensures IsList(t, d) && Lines(t) == PutAll(img, start, r.taken)
    ensures forall i :: 0 <= i < |t| ==> t[i] in s || fresh(t[i])
  {
    hide IsList, PutAll, Lines, Advance, PassOver;
    r, d, t := LookAhead(img, pino, c, d0, s, start);
    r, d, t := NoticePass(img, r, d, t, start);
  }

  /** The scan is going to end, and where it is stands for a. */
  ghost predicate OnTrack(img: Image, pino: nat, c: Cursor, a: Scan)
  {
    && WellVersioned(img, pino) && Matches(img, c, a)
    && (Inv(VersionsOf(img, pino), Adjacent(img), a) || Finished(VersionsOf(img, pino), a))
    && Good(VersionsOf(img, pino), Adjacent(img), a)
  }

  ghost function Next(img: Image, pino: nat, a: Scan): Scan
    requires Advances(img)
  {
    if a.i <= |Nodes(img)| then Step(VersionsOf(img, pino), Adjacent(img), a) else a
  }

  /** The versions still to come, and the iterations left in this pass. */
  ghost function Ahead(img: Image, pino: nat, a: Scan): (int, int)
    requires Advances(img)
  {
    (if Done(a) then -1 else Top(VersionsOf(img, pino)) - a.vcur, Dist(|Nodes(img)|, a))
  }

  lemma OnTrackStart(img: Image, pino: nat)
    requires WellVersioned(img, pino) && CanCollect(img, pino)
    ensures OnTrack(img, pino, Begins(), VersionScan.Start())
  {
    hide Chain, Inv, Matches;
    BeginsMatch(img, pino);
  }

  lemma OnTrackStep(img: Image, pino: nat, c: Cursor, a: Scan)
    requires OnTrack(img, pino, c, a) && !Ends(c)
    ensures OnTrack(img, pino, Iterate(img, pino, c), Next(img, pino, a))
    ensures var u, v := Ahead(img, pino, Next(img, pino, a)), Ahead(img, pino, a);
      v.0 >= 0 && (u.0 < v.0 || (u.0 == v.0 && 0 <= u.1 < v.1))
  {
    hide Chain, Inv, Matches, Iterate, Step, Dist, Top, Upto, Versions;
    var vs, at := VersionsOf(img, pino), Adjacent(img);
    SameEnds(img, c, a);
    NotFinished(vs, at, a);
    Progress(vs, at, a);
    IterateMatches(img, pino, c, a);
    VersionBound(vs, at, a);
    if Inv(vs, at, Step(vs, at, a)) {
      VersionBound(vs, at, Step(vs, at, a));
    }
  }

  lemma SameEnds(img: Image, c: Cursor, a: Scan)
    requires Advances(img) && Matches(img, c, a)
    ensures Ends(c) <==> Done(a)
  {
  }

  lemma NotFinished(vs: seq<nat>, at: seq<bool>, a: Scan)
    requires |at| == |vs| && !Done(a) && Good(vs, at, a) && (Inv(vs, at, a) || Finished(vs, a))
    ensures Inv(vs, at, a) && !Trap(vs, a)
  {
  }

  lemma VersionBound(vs: seq<nat>, at: seq<bool>, a: Scan)
    requires Inv(vs, at, a)
    ensures a.vcur <= Top(vs)
  {
  }

  lemma OnTrackEnd(img: Image, pino: nat, c: Cursor, a: Scan, start: seq<Dir>)
    requires OnTrack(img, pino, c, a) && Ends(c)
    ensures PutAll(img, start, c.taken) == Replayed(img, pino, start, Top(VersionsOf(img, pino)))
  {
    var vs, at := VersionsOf(img, pino), Adjacent(img);
    if Inv(vs, at, a) {
      DoneIsAll(vs, at, a);
    }
    hide Inv, Chain, PutAll, Replayed, Top, Upto;
    TakenIsReplayed(img, pino, start, Top(vs));
  }

  /** collectdir(): the entries of the directory, replayed in version order. */
  method Collect(img: Image, pino: nat, d0: DirNode?, ghost s: seq<DirNode>)
    returns (d: DirNode?, ghost t: seq<DirNode>)
    requires WellVersioned(img, pino) && CanCollect(img, pino) && IsList(s, d0)
    modifies s
    ensures IsList(t, d)
    ensures forall i :: 0 <= i < |t| ==> t[i] in s || fresh(t[i])
    ensures Lines(t) == Replayed(img, pino, old(Lines(s)), Top(VersionsOf(img, pino)))
  {
    ghost var start, a := Lines(s), VersionScan.Start();
    var c := Begins();
    d, t := d0, s;
    assert Lines(t) == PutAll(img, start, c.taken);
    OnTrackStart(img, pino);
    hide OnTrack, IsList, PutAll, Lines, Chain, Iterate, Next, Ahead, Replayed, Top, VersionsOf, WellVersioned;
    AdvancesIf(img, pino);
    while c.vcur < c.vmax
      invariant OnTrack(img, pino, c, a)
      invariant IsList(t, d) && Lines(t) == PutAll(img, start, c.taken)
      invariant forall i :: 0 <= i < |t| ==> t[i] in s || fresh(t[i])
      decreases Ahead(img, pino, a).0, Ahead(img, pino, a).1
    {
      OnTrackStep(img, pino, c, a);
      c, d, t := ScanOnce(img, pino, c, d, t, start);
      a := Next(img, pino, a);
    }
    OnTrackEnd(img, pino, c, a, start);
  }

  lemma AdvancesIf(img: Image, pino: nat)
    requires WellVersioned(img, pino)
    ensures Advances(img)
  {
  }

  /* ------------------------------------------------------------ lookup */

  /** What resolvedirent() looks for; a zero ino or pino is no criterion. */
  predicate Wanted(img: Image, ino: nat, pino: nat, name: Name, p: nat)
  {
    && IsNode(img, p) && img[p].node.Dirent?
    && (ino == 0 || img[p].node.entry.ino == ino)
    && (pino == 0 || (img[p].node.pino == pino && img[p].node.entry.name == name))
  }

  /** dd is the wanted node with the highest version among those in ps, or -1 if there is none. */
  ghost predicate IsNewest(img: Image, ino: nat, pino: nat, name: Name, ps: seq<nat>, dd: int)
  {
    && (dd >= 0 ==> dd in ps && Wanted(img, ino, pino, name, dd) && EntryAt(img, dd).version > 0)
    && (dd < 0 ==> dd == -1)
    && forall k :: 0 <= k < |ps| && Wanted(img, ino, pino, name, ps[k]) ==>
      EntryAt(img, ps[k]).version <= if dd >= 0 then EntryAt(img, dd).version else 0
  }

  /** resolvedirent(). */
  method ResolveDirent(img: Image, ino: nat, pino: nat, name: Name) returns (dd: int)
    requires Advances(img)
    ensures pino == 0 && ino <= 1 ==> dd == -1
    ensures pino != 0 || ino > 1 ==> IsNewest(img, ino, pino, name, Nodes(img), dd)
  {
    hide Chain;
    dd := -1;
    if pino == 0 && ino <= 1 {
      return;
    }
    var vmax, n := 0, 0;
    ghost var ps, i := Nodes(img), 0;
    assert ps[..0] == [];
    while true
      invariant 0 <= i <= |ps| && n == Place(img, 0, i)
      invariant IsNewest(img, ino, pino, name, ps[..i], dd)
      invariant vmax == if dd >= 0 then EntryAt(img, dd).version else 0
      decreases |ps| - i
    {
      ChainStep(img, 0, i);
      n := SkipFiller(img, n);
      if n >= |img| {
        assert ps[..i] == ps;
        return;
      }
      assert ps[..i + 1] == ps[..i] + [n];
      if Wanted(img, ino, pino, name, n) && EntryAt(img, n).version > vmax {
        vmax := EntryAt(img, n).version;
        dd := n;
      }
      n := After(img, n);
      i := i + 1;
    }
  }

  /** resolvename(). */
  method ResolveName(img: Image, pino: nat, name: Name) returns (dd: int)
    requires Advances(img)
    ensures pino == 0 ==> dd == -1
    ensures pino != 0 ==> IsNewest(img, 0, pino, name, Nodes(img), dd)
  {
    dd := ResolveDirent(img, 0, pino, name);
  }

  /** What an entry says about its name: nothing if it unlinks it. */
  function Meaning(e: Entry): Found
  {
    if e.ino == 0 then Nothing else Found(e.kind, e.ino)
  }

  /** What the entries with versions up to v say about a name: the last word counts. */
  ghost function LastWord(img: Image, pino: nat, name: Name, v: nat): Found
    requires Advances(img)
  {
    var vs := VersionsOf(img, pino);
    if v == 0 then Nothing
    else if v in vs && EntryAt(img, Nodes(img)[Index(vs, v)]).name == name then
      Meaning(EntryAt(img, Nodes(img)[Index(vs, v)]))
    else LastWord(img, pino, name, v - 1)
  }

  lemma {:induction false} ReplayedLookup(img: Image, pino: nat, name: Name, v: nat)
    requires Advances(img)
    ensures Listing(Replayed(img, pino, [], v))
    ensures Lookup(Replayed(img, pino, [], v), name) == LastWord(img, pino, name, v)
  {
    if v > 0 {
      ReplayedLookup(img, pino, name, v - 1);
      hide Chain, Lookup, Listing, Put;
      var vs, before := VersionsOf(img, pino), Replayed(img, pino, [], v - 1);
      if v in vs {
        var e := EntryAt(img, Nodes(img)[Index(vs, v)]);
        PutListing(before, e);
        PutLookup(before, e, name);
      }
    }
  }

  lemma {:induction false} NothingNewer(img: Image, pino: nat, name: Name, low: nat, v: nat)
    requires Advances(img) && pino != 0 && low <= v
    requires forall k :: 0 <= k < |Nodes(img)| && Wanted(img, 0, pino, name, Nodes(img)[k]) ==>
      EntryAt(img, Nodes(img)[k]).version <= low
    ensures LastWord(img, pino, name, v) == LastWord(img, pino, name, low)
    decreases v
  {
    if low < v {
      NothingNewer(img, pino, name, low, v - 1);
      hide Chain;
      var vs := VersionsOf(img, pino);
      if v in vs {
        var k := Index(vs, v);
        assert vs[k] == VersionAt(img, pino, Nodes(img)[k]) == v;
        assert !Wanted(img, 0, pino, name, Nodes(img)[k]);
      }
    }
  }

  lemma {:induction false} NewestIsLastWord(img: Image, pino: nat, name: Name, dd: int)
    requires WellVersioned(img, pino) && pino != 0 && IsNewest(img, 0, pino, name, Nodes(img), dd)
    ensures LastWord(img, pino, name, Top(VersionsOf(img, pino))) ==
      if dd < 0 then Nothing else Meaning(EntryAt(img, dd))
  {
    hide Chain, Upto, Top;
    var vs := VersionsOf(img, pino);
    var low := if dd < 0 then 0 else EntryAt(img, dd).version;
    if dd >= 0 {
      var k :| 0 <= k < |Nodes(img)| && Nodes(img)[k] == dd;
      assert vs[k] == low;
      UniqueIndex(vs, k);
    }
    NothingNewer(img, pino, name, low, Top(vs));
  }

  /** A name is listed with an inode exactly when resolvename() finds an entry for it that names that
      inode; it is not listed exactly when lookup finds nothing or an unlink entry. */
  lemma ListingAgrees(img: Image, pino: nat, name: Name, dd: int)
    requires WellVersioned(img, pino) && pino != 0 && IsNewest(img, 0, pino, name, Nodes(img), dd)
    ensures Lookup(Replayed(img, pino, [], Top(VersionsOf(img, pino))), name) ==
      if dd < 0 then Nothing else Meaning(EntryAt(img, dd))
  {
    hide Replayed, LastWord, Lookup, Top, IsNewest;
    ReplayedLookup(img, pino, name, Top(VersionsOf(img, pino)));
    NewestIsLastWord(img, pino, name, dd);
  }

  /** Lookup finds an entry exactly if there is a wanted one with a version above 0, and a name is listed
      only then. If none of its entries unlinks it, it is listed exactly then. */
  lemma SeenIff(img: Image, pino: nat, name: Name, dd: int)
    requires WellVersioned(img, pino) && pino != 0 && IsNewest(img, 0, pino, name, Nodes(img), dd)
    ensures var listed, ps := Lookup(Replayed(img, pino, [], Top(VersionsOf(img, pino))), name), Nodes(img);
      var seen := exists k :: 0 <= k < |ps| && Wanted(img, 0, pino, name, ps[k]) && EntryAt(img, ps[k]).version > 0;
      && (dd >= 0 <==> seen)
      && (listed.Found? ==> seen)
      && (UnlinkFree(img, pino, name) ==> (listed.Found? <==> seen))
  {
    hide Chain, Replayed, Lookup, Top;
    ListingAgrees(img, pino, name, dd);
    if dd >= 0 {
      var k :| 0 <= k < |Nodes(img)| && Nodes(img)[k] == dd;
      assert Wanted(img, 0, pino, name, Nodes(img)[k]);
    }
  }

  /** No entry for the name unlinks it. */
  ghost predicate UnlinkFree(img: Image, pino: nat, name: Name)
    requires Advances(img)
  {
    forall k :: 0 <= k < |Nodes(img)| && Wanted(img, 0, pino, name, Nodes(img)[k]) ==>
      EntryAt(img, Nodes(img)[k]).ino != 0
  }

  /** An image that is one entry of w words. */
  function Single(w: nat, pino: nat, e: Entry): (img: Image)
    requires w > 0
    ensures |img| == w
  {
    [Begin(Dirent(w, pino, e))] + seq(w - 1, i => Filler)
  }

  /** An entry with version 0, the first that mkfs.jffs2 writes, is not listed and cannot be looked up. */
  lemma VersionZeroUnseen(w: nat, pino: nat, e: Entry, dd: int)
    requires w >= 10 && pino != 0 && e.version == 0 && e.ino != 0
    ensures var img := Single(w, pino, e);
      && WellVersioned(img, pino) && CanCollect(img, pino) && Nodes(img) == [0] && Wanted(img, 0, pino, e.name, 0)
      && (IsNewest(img, 0, pino, e.name, Nodes(img), dd) ==> dd == -1)
      && Lookup(Replayed(img, pino, [], Top(VersionsOf(img, pino))), e.name) == Nothing
  {
    var img := Single(w, pino, e);
    assert Skip(img, 0) == 0;
    assert Chain(img, w) == [];
    assert Chain(img, 0) == [0];
    assert VersionsOf(img, pino) == [0];
  }

  /** The two readers side by side. */
  method ListAndResolve(img: Image, pino: nat, name: Name) returns (listed: Found, dd: int)
    requires WellVersioned(img, pino) && CanCollect(img, pino) && pino != 0
    ensures IsNewest(img, 0, pino, name, Nodes(img), dd)
    ensures listed == if dd < 0 then Nothing else Meaning(EntryAt(img, dd))
  {
    hide Listing, Replayed, IsNewest, Top, IsList;
    NoLines();
    var d, t := Collect(img, pino, null, []);
    listed := Nothing;
    if d != null {
      listed := LookupOnHeap(d, name, t);
    } else {
      NoLine(t);
    }
    dd := ResolveName(img, pino, name);
    ListingAgrees(img, pino, name, dd);
  }

  lemma NoLines()
    ensures IsList([], null) && Lines([]) == []
  {
  }

  lemma NoLine(t: seq<DirNode>)
    requires IsList(t, null)
    ensures t == []
  {
  }

  /** Look for a name in the list. */
  method LookupOnHeap(d: DirNode, name: Name, ghost t: seq<DirNode>) returns (found: Found)
    requires IsList(t, d)
    ensures found == Lookup(Lines(t), name)
  {
    hide IsList, Position;
    var at, there, i := FindOrLast(d, name, t);
    found := if there then Found(at.kind, at.ino) else Nothing;
  }

  /* ------------------------------------------------------------ find_raw_inode */

  function InodeVersion(img: Image, ino: nat, p: nat): nat
  {
    if IsNode(img, p) && img[p].node.Inode? && img[p].node.ino == ino then img[p].node.version else 0
  }

  /** Versions that find_raw_inode() can notice: the highest one, 2^32 - 1, is also its starting minimum. */
  predicate Noticed(v: nat)
  {
    0 < v < MAX
  }

  /** r is a node of inode ino with the lowest version among those in ps, or -1 if there is none. */
  ghost predicate IsOldest(img: Image, ino: nat, ps: seq<nat>, r: int)
  {
    && (r >= 0 ==> r in ps && Noticed(InodeVersion(img, ino, r)))
    && (r < 0 ==> r == -1)
    && forall k :: 0 <= k < |ps| && Noticed(InodeVersion(img, ino, ps[k])) ==>
      r >= 0 && InodeVersion(img, ino, r) <= InodeVersion(img, ino, ps[k])
  }

  /** find_raw_inode(): the first version of an inode. */
  method FindRawInode(img: Image, ino: nat) returns (r: int)
    requires Advances(img)
    requires forall k :: 0 <= k < |Nodes(img)| ==> InodeVersion(img, ino, Nodes(img)[k]) <= MAX
    ensures IsOldest(img, ino, Nodes(img), r)
  {
    hide Chain;
    var n, mp, vmint, vmaxt := 0, -1, MAX, 0;
    ghost var ps, i := Nodes(img), 0;
    while true
      invariant 0 <= i <= |ps| && n == Place(img, 0, i)
      invariant IsOldest(img, ino, ps[..i], mp)
      invariant if mp < 0 then vmint == MAX else vmint == InodeVersion(img, ino, mp) <= vmaxt
      decreases |ps| - i
    {
      ChainStep(img, 0, i);
      n := SkipFiller(img, n);
      if n >= |img| {
        assert ps[..i] == ps;
        return if 0 < vmaxt && 0 < vmint then mp else -1;
      }
      assert ps[..i + 1] == ps[..i] + [n];
      var v := InodeVersion(img, ino, n);
      if v > 0 {
        if vmaxt < v {
          vmaxt := v;
        }
        if vmint > v {
          vmint, mp := v, n;
        }
        if v == 1 {
          assert ps[i] == n;
          return n;
        }
      }
      n := After(img, n);
      i := i + 1;
    }
  }
}
