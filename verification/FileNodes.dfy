// The inode nodes of a file in the output of jffsX-utils/mkfs.jffs2.c, and the file that is read from them.

module FileNodes {
  import opened Basics
  import opened Compressors
  import opened NodeBytes

  /* ------------------------------------------------------------ what a file's nodes must be */

  /** The compressor with this number. */
  function ById(list: seq<Compressor>, id: nat): (i: nat)
    ensures i <= |list| && (i < |list| ==> list[i].id == id)
  {
    if |list| == 0 then 0 else if list[0].id == id then 0 else 1 + ById(list[1..], id)
  }

  ghost predicate DistinctIds(list: seq<Compressor>)
  {
    forall i, j :: 0 <= i < j < |list| ==> list[i].id != list[j].id
  }

  lemma {:induction false} ByIdIs(list: seq<Compressor>, i: nat)
    requires DistinctIds(list) && i < |list|
    ensures ById(list, list[i].id) == i
  {
    if i > 0 {
      assert list[1..][i - 1] == list[i];
      ByIdIs(list[1..], i - 1);
    }
  }

  /** The bytes that an inode node stands for. */
  ghost function Plain(list: seq<Compressor>, n: Node): seq<Byte>
    requires n.Inode?
  {
    var i := ById(list, n.compr);
    if n.compr == NONE || i == |list| then n.payload else list[i].decompress(n.payload, n.dsize)
  }

  /** The nodes carry the first pos bytes of the file, piece by piece, with versions 1, 2, 3, ... */
  ghost predicate Tiles(list: seq<Compressor>, ns: seq<Node>, file: seq<Byte>, ino: nat, pos: nat)
    requires pos <= |file|
  {
    if |ns| == 0 then pos == 0
    else
      var n := ns[|ns| - 1];
      && n.Inode? && n.ino == ino && n.version == |ns| && n.isize == |file|
      && n.offset + n.dsize == pos && (n.dsize > 0 || |ns| == 1)
      && Plain(list, n) == file[n.offset..pos]
      && Tiles(list, ns[..|ns| - 1], file, ino, n.offset)
  }

  ghost function Contents(list: seq<Compressor>, ns: seq<Node>): seq<Byte>
    requires forall i :: 0 <= i < |ns| ==> ns[i].Inode?
  {
    if |ns| == 0 then [] else Contents(list, ns[..|ns| - 1]) + Plain(list, ns[|ns| - 1])
  }

  lemma {:induction false} TilesAt(list: seq<Compressor>, ns: seq<Node>, file: seq<Byte>, ino: nat, pos: nat, i: nat)
    requires pos <= |file| && Tiles(list, ns, file, ino, pos) && i < |ns|
    ensures var n := ns[i];
      && n.Inode? && n.ino == ino && n.version == i + 1 && n.isize == |file| && n.offset + n.dsize <= pos
      && Plain(list, n) == file[n.offset..n.offset + n.dsize]
      && n.offset == if i == 0 then 0 else if ns[i - 1].Inode? then ns[i - 1].offset + ns[i - 1].dsize else 0
    decreases |ns|
  {
    hide Plain;
    var last := |ns| - 1;
    if i < last {
      TilesAt(list, ns[..last], file, ino, ns[last].offset, i);
    } else if last > 0 {
      TilesAt(list, ns[..last], file, ino, ns[last].offset, last - 1);
    }
  }

  /** Put together, the pieces are the file. */
  lemma {:induction false} TilesContents(list: seq<Compressor>, ns: seq<Node>, file: seq<Byte>, ino: nat, pos: nat)
    requires pos <= |file| && Tiles(list, ns, file, ino, pos)
    ensures forall i :: 0 <= i < |ns| ==> ns[i].Inode?
    ensures Contents(list, ns) == file[..pos]
    decreases |ns|
  {
    if |ns| > 0 {
      var last := |ns| - 1;
      TilesContents(list, ns[..last], file, ino, ns[last].offset);
      assert forall i :: 0 <= i < last ==> ns[i] == ns[..last][i];
      assert file[..pos] == file[..ns[last].offset] + file[ns[last].offset..pos];
    }
  }

  /** The inode nodes among those written. */
  ghost function Inodes(ps: seq<Placed>): seq<Node>
  {
    if |ps| == 0 then []
    else Inodes(ps[..|ps| - 1]) + if ps[|ps| - 1].node.Inode? then [ps[|ps| - 1].node] else []
  }

  lemma InodesAppend(ps: seq<Placed>, p: Placed)
    ensures Inodes(ps + [p]) == Inodes(ps) + if p.node.Inode? then [p.node] else []
  {
    assert (ps + [p])[..|ps|] == ps;
  }

  lemma NoTiles(list: seq<Compressor>, file: seq<Byte>, ino: nat)
    ensures Tiles(list, [], file, ino, 0)
  {
  }

  lemma TilesNext(list: seq<Compressor>, ns: seq<Node>, n: Node, file: seq<Byte>, ino: nat, pos: nat)
    requires n.Inode? && pos + n.dsize <= |file| && Tiles(list, ns, file, ino, pos)
    requires n.ino == ino && n.version == |ns| + 1 && n.isize == |file| && n.offset == pos && (n.dsize > 0 || |ns| == 0)
    requires Plain(list, n) == file[pos..pos + n.dsize]
    ensures Tiles(list, ns + [n], file, ino, pos + n.dsize)
  {
    assert (ns + [n])[..|ns|] == ns;
  }

  /* ------------------------------------------------------------ reading a file from the output */

  /** The bytes that the data behind a header stands for. */
  ghost function PlainFrom(list: seq<Compressor>, out: seq<Octet>, x: nat): seq<Byte>
    requires x < |out| && out[x].Head? && out[x].node.Inode?
  {
    var n, len := out[x].node, out[x].len;
    if len < 68 || x + len > |out| then []
    else
      var data, i := DataFrom(out, x + 68, len - 68), ById(list, n.compr);
      if n.compr == NONE || i == |list| then data else list[i].decompress(data, n.dsize)
  }

  /** A node of the inode begins here. */
  ghost predicate Begins(out: seq<Octet>, ino: nat, x: nat)
    requires x < |out|
  {
    out[x].Head? && out[x].at == 0 && out[x].node.Inode? && out[x].node.ino == ino
  }

  /** What the nodes of an inode that begin in the first x bytes of the output hold, in order. */
  ghost function FileIn(list: seq<Compressor>, out: seq<Octet>, ino: nat, x: nat): seq<Byte>
    requires x <= |out|
  {
    if x == 0 then []
    else FileIn(list, out, ino, x - 1) + if Begins(out, ino, x - 1) then PlainFrom(list, out, x - 1) else []
  }

  /** What the nodes of an inode hold. */
  ghost function FileOf(list: seq<Compressor>, ns: seq<Node>, ino: nat): seq<Byte>
  {
    if |ns| == 0 then []
    else
      var n := ns[|ns| - 1];
      FileOf(list, ns[..|ns| - 1], ino) + if n.Inode? && n.ino == ino then Plain(list, n) else []
  }

  lemma PlainIs(list: seq<Compressor>, out: seq<Octet>, ps: seq<Placed>, i: nat)
    requires Printed(out, ps) && i < |ps| && ps[i].node.Inode?
    ensures ps[i].ofs < |out| && out[ps[i].ofs] == Head(ps[i].node, ps[i].len, 0)
    ensures PlainFrom(list, out, ps[i].ofs) == Plain(list, ps[i].node)
  {
    hide Printed;
    NodeAt(out, ps, i);
  }

  /** Nodes come one after the other. */
  lemma {:induction false} InOrder(out: seq<Octet>, ps: seq<Placed>, i: nat, j: nat)
    requires Printed(out, ps) && i < j < |ps|
    ensures ps[i].ofs < ps[j].ofs
    decreases |ps|
  {
    var last := |ps| - 1;
    var shorter := out[..ps[last].ofs];
    if j < last {
      InOrder(shorter, ps[..last], i, j);
    } else {
      NodeAt(shorter, ps[..last], i);
    }
  }

  /** At byte x of the output, k nodes have begun. */
  ghost predicate Begun(ps: seq<Placed>, k: nat, x: nat)
  {
    && k <= |ps| && (forall i :: 0 <= i < k ==> ps[i].ofs < x) && (forall i :: k <= i < |ps| ==> ps[i].ofs >= x)
  }

  lemma HasBegun(ps: seq<Placed>, k: nat, x: nat, i: nat)
    requires Begun(ps, k, x) && i < k
    ensures i < |ps| && ps[i].ofs < x
  {
  }

  lemma NoneBegun(ps: seq<Placed>, k: nat)
    requires Begun(ps, k, 0)
    ensures k == 0
  {
    hide Begun;
    if k > 0 {
      HasBegun(ps, k, 0, 0);
    }
  }

  lemma {:induction false} FileUpTo(list: seq<Compressor>, out: seq<Octet>, ps: seq<Placed>, ino: nat, k: nat, x: nat)
    requires Printed(out, ps) && x <= |out| && Begun(ps, k, x)
    ensures FileIn(list, out, ino, x) == FileOf(list, Inodes(ps[..k]), ino)
    decreases x
  {
    hide Printed, PlainFrom, Plain;
    if x == 0 {
      NoneBegun(ps, k);
    } else if k > 0 && ps[k - 1].ofs == x - 1 {
      forall i | 0 <= i < k - 1 ensures ps[i].ofs < x - 1 {
        InOrder(out, ps, i, k - 1);
      }
      FileUpTo(list, out, ps, ino, k - 1, x - 1);
      assert ps[..k] == ps[..k - 1] + [ps[k - 1]];
      InodesAppend(ps[..k - 1], ps[k - 1]);
      FileOneMore(list, Inodes(ps[..k - 1]), ps[k - 1].node, ino);
      NodeAt(out, ps, k - 1);
      if ps[k - 1].node.Inode? {
        PlainIs(list, out, ps, k - 1);
      }
    } else {
      forall i | 0 <= i < k ensures ps[i].ofs < x - 1 {
        if i < k - 1 {
          InOrder(out, ps, i, k - 1);
        }
      }
      FileUpTo(list, out, ps, ino, k, x - 1);
      if Begins(out, ino, x - 1) {
        HeadIsNode(out, ps, x - 1);
      }
    }
  }

  lemma FileOneMore(list: seq<Compressor>, ns: seq<Node>, n: Node, ino: nat)
    ensures FileOf(list, ns + if n.Inode? then [n] else [], ino) ==
      FileOf(list, ns, ino) + if n.Inode? && n.ino == ino then Plain(list, n) else []
  {
    if n.Inode? {
      assert (ns + [n])[..|ns|] == ns;
    } else {
      assert ns + [] == ns;
    }
  }

  /** Reading a file from the bytes of the output gives what its nodes hold. */
  lemma FileInIs(list: seq<Compressor>, out: seq<Octet>, ps: seq<Placed>, ino: nat)
    requires Printed(out, ps)
    ensures FileIn(list, out, ino, |out|) == FileOf(list, Inodes(ps), ino)
  {
    hide Printed;
    forall i | 0 <= i < |ps| ensures ps[i].ofs < |out| {
      NodeAt(out, ps, i);
    }
    FileUpTo(list, out, ps, ino, |ps|, |out|);
    assert ps[..|ps|] == ps;
  }

  /** Inode numbers have been given up to ino. */
  ghost predicate InosUpTo(ns: seq<Node>, ino: nat)
  {
    forall i :: 0 <= i < |ns| && ns[i].Inode? ==> ns[i].ino <= ino
  }

  /** The nodes of a new file leave what others hold, and hold the file. */
  lemma {:induction false} FileAdded(list: seq<Compressor>, base: seq<Node>, ns: seq<Node>, file: seq<Byte>, ino: nat,
    pos: nat, j: nat)
    requires pos <= |file| && Tiles(list, ns, file, ino, pos) && ino > 0 && InosUpTo(base, ino - 1)
    ensures FileOf(list, base + ns, j) == if j == ino then file[..pos] else FileOf(list, base, j)
    decreases |ns|
  {
    hide Plain, FileOf, Tiles, InosUpTo;
    if |ns| == 0 {
      TilesNone(list, file, ino, pos);
      assert base + ns == base && file[..pos] == [];
      if j == ino {
        NoNodesOf(list, base, ino);
      }
    } else {
      TilesLast(list, ns, file, ino, pos);
      var init, n := ns[..|ns| - 1], ns[|ns| - 1];
      FileAdded(list, base, init, file, ino, n.offset, j);
      FileOneMore(list, base + init, n, j);
      assert base + ns == base + init + [n];
      assert file[..pos] == file[..n.offset] + file[n.offset..pos];
    }
  }

  lemma TilesNone(list: seq<Compressor>, file: seq<Byte>, ino: nat, pos: nat)
    requires pos <= |file| && Tiles(list, [], file, ino, pos)
    ensures pos == 0
  {
  }

  lemma TilesLast(list: seq<Compressor>, ns: seq<Node>, file: seq<Byte>, ino: nat, pos: nat)
    requires pos <= |file| && Tiles(list, ns, file, ino, pos) && |ns| > 0
    ensures var n := ns[|ns| - 1];
      && n.Inode? && n.ino == ino && n.offset <= pos && Plain(list, n) == file[n.offset..pos]
      && Tiles(list, ns[..|ns| - 1], file, ino, n.offset)
  {
  }

  lemma {:induction false} NoNodesOf(list: seq<Compressor>, ns: seq<Node>, ino: nat)
    requires ino > 0 && InosUpTo(ns, ino - 1)
    ensures FileOf(list, ns, ino) == []
  {
    if |ns| > 0 {
      NoNodesOf(list, ns[..|ns| - 1], ino);
    }
  }
}
