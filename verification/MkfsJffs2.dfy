// jffsX-utils/mkfs.jffs2.c: packing directory entries and file contents into erase blocks.

module MkfsJffs2 {
  import opened Basics
  import opened Compressors
  import opened FileNodes
  import opened NodeBytes

  const MIN_DATA_LEN: nat := 128
  const MAX_FILE_SIZE: nat := 0xFFFF_FFFF
  /** sizeof(ffbuf). */
  const FFBUF: nat := 16
  /** The type of a regular file in a directory entry. */
  const DT_REG: nat := 8

  /* ------------------------------------------------------------ addresses and erase blocks */

  /** How far into its erase block an address is. */
  function In(x: nat, e: nat): (r: nat)
    requires e > 0
    ensures r < e
  {
    x % e
  }

  lemma ModStep(x: nat, n: nat, e: nat)
    requires e > 0 && In(x, e) + n <= e
    ensures In(x + n, e) == if In(x, e) + n == e then 0 else In(x, e) + n
  {
    var q, r := x / e, x % e;
    assert x == q * e + r;
    if r + n == e {
      assert x + n == (q + 1) * e;
      Remainder(x + n, e, q + 1, 0);
    } else {
      Remainder(x + n, e, q, r + n);
    }
  }

  lemma Remainder(x: nat, e: nat, q: nat, r: nat)
    requires r < e && x == q * e + r
    ensures x % e == r
  {
    var d, s := x / e - q, x % e;
    assert x == (x / e) * e + s;
    assert d * e == r - s;
    assert d >= 1 ==> d * e >= e;
    assert d <= -1 ==> d * e + e <= 0;
  }

  /** What is left of a block is a multiple of four bytes. */
  lemma BlockMultiple(x: nat, e: nat)
    requires e > 0 && e % 4 == 0 && x % 4 == 0
    ensures (e - In(x, e)) % 4 == 0
  {
    var q, f := x / e, e / 4;
    var k := q * f;
    assert q * e == 4 * k by {
      assert e == 4 * f;
    }
    assert e - In(x, e) == 4 * f - x + 4 * k;
    hide In;
  }

  /** Where the output was after the last node. */
  function EndOf(ps: seq<Placed>): nat
  {
    if |ps| == 0 then 0 else ps[|ps| - 1].ofs + Round4(ps[|ps| - 1].len)
  }

  /** Nodes follow each other without overlap, are aligned, and lie within one erase block each; only where a
      block begins can there be a gap before them; when there are cleanmarkers, they are what the blocks
      begin with. */
  ghost predicate Packed(ps: seq<Placed>, end: nat, eraseBlock: nat, cleanmarkers: bool)
  {
    && eraseBlock > 0 && EndOf(ps) <= end && (end == EndOf(ps) || In(end, eraseBlock) == 0)
    && if |ps| == 0 then true
    else
      var p := ps[|ps| - 1];
      && p.len > 0 && p.ofs % 4 == 0 && In(p.ofs, eraseBlock) + p.len <= eraseBlock
      && (cleanmarkers && In(p.ofs, eraseBlock) == 0 ==> p.node.Cleanmarker?)
      && Packed(ps[..|ps| - 1], p.ofs, eraseBlock, cleanmarkers)
  }

  lemma PackedLater(ps: seq<Placed>, end: nat, later: nat, eraseBlock: nat, cleanmarkers: bool)
    requires Packed(ps, end, eraseBlock, cleanmarkers) && end <= later && In(later, eraseBlock) == 0
    ensures Packed(ps, later, eraseBlock, cleanmarkers)
  {
  }

  lemma PackedAppend(ps: seq<Placed>, p: Placed, eraseBlock: nat, cleanmarkers: bool)
    requires eraseBlock > 0 && Packed(ps, p.ofs, eraseBlock, cleanmarkers) && p.len > 0
    requires p.ofs % 4 == 0 && In(p.ofs, eraseBlock) + p.len <= eraseBlock
    requires cleanmarkers && In(p.ofs, eraseBlock) == 0 ==> p.node.Cleanmarker?
    ensures Packed(ps + [p], p.ofs + Round4(p.len), eraseBlock, cleanmarkers)
  {
    assert (ps + [p])[..|ps|] == ps;
  }

  /** No node straddles an erase block, the nodes are in order, and where there is a gap before one, it
      begins a block. */
  lemma {:induction false} PackedAt(ps: seq<Placed>, end: nat, eraseBlock: nat, cleanmarkers: bool, i: nat)
    requires eraseBlock > 0 && Packed(ps, end, eraseBlock, cleanmarkers) && i < |ps|
    ensures In(ps[i].ofs, eraseBlock) + ps[i].len <= eraseBlock && ps[i].ofs % 4 == 0 && ps[i].len > 0
    ensures EndOf(ps[..i + 1]) == ps[i].ofs + Round4(ps[i].len) <= if i + 1 < |ps| then ps[i + 1].ofs else end
    ensures EndOf(ps[..i]) <= ps[i].ofs && (EndOf(ps[..i]) == ps[i].ofs || In(ps[i].ofs, eraseBlock) == 0)
    ensures cleanmarkers && In(ps[i].ofs, eraseBlock) == 0 ==> ps[i].node.Cleanmarker?
    decreases |ps|
  {
    var last := |ps| - 1;
    if i < last {
      PackedAt(ps[..last], ps[last].ofs, eraseBlock, cleanmarkers, i);
      assert ps[..last][..i] == ps[..i] && ps[..last][..i + 1] == ps[..i + 1];
    } else {
      assert ps[..i + 1] == ps;
    }
  }

  /** With cleanmarkers, every other node directly follows the node before it. */
  lemma FollowsDirectly(ps: seq<Placed>, end: nat, eraseBlock: nat, i: nat)
    requires eraseBlock > 0 && Packed(ps, end, eraseBlock, true) && i < |ps| && !ps[i].node.Cleanmarker?
    ensures i > 0 && ps[i].ofs == ps[i - 1].ofs + Round4(ps[i - 1].len)
  {
    hide Packed, In;
    PackedAt(ps, end, eraseBlock, true, i);
    if i == 0 {
      BlockStart(eraseBlock);
    }
  }

  lemma BlockStart(eraseBlock: nat)
    requires eraseBlock > 0
    ensures In(0, eraseBlock) == 0
  {
  }

  /* ------------------------------------------------------------ the versions of directory entries */

  /** The number of directory entries among the nodes. */
  function Entries(ps: seq<Placed>): nat
  {
    if |ps| == 0 then 0 else Entries(ps[..|ps| - 1]) + if ps[|ps| - 1].node.Dirent? then 1 else 0
  }

  /** The version of every entry is the number of entries before it, in whatever directory they are. */
  ghost predicate Numbered(ps: seq<Placed>)
  {
    forall i :: 0 <= i < |ps| && ps[i].node.Dirent? ==> ps[i].node.dversion == Entries(ps[..i])
  }

  lemma NumberedAppend(ps: seq<Placed>, p: Placed)
    requires Numbered(ps) && (p.node.Dirent? ==> p.node.dversion == Entries(ps))
    ensures Numbered(ps + [p]) && Entries(ps + [p]) == Entries(ps) + if p.node.Dirent? then 1 else 0
  {
    var t := ps + [p];
    assert t[..|ps|] == ps;
    forall i | 0 <= i < |ps| ensures t[..i] == ps[..i] {
    }
  }

  class FsWriter {
    const registry: Registry
    const eraseBlock: nat
    const addCleanmarkers: bool
    const cleanmarkerSize: nat
    const pageSize: nat
    /** What has been written, out_ofs bytes. */
    var out: seq<Octet>
    var outOfs: nat
    /** The nodes in it. */
    ghost var nodes: seq<Placed>
    var ino: nat
    var direntVersion: nat

    constructor (registry: Registry, eraseBlock: nat, addCleanmarkers: bool, cleanmarkerSize: nat, pageSize: nat)
      requires eraseBlock > 0 && eraseBlock % 4 == 0 && CLEANMARKER_LEN <= cleanmarkerSize
      requires (if addCleanmarkers then Round4(cleanmarkerSize) else 0) + INODE_LEN + MIN_DATA_LEN <= eraseBlock
      ensures this.registry == registry && this.eraseBlock == eraseBlock && this.addCleanmarkers == addCleanmarkers
      ensures this.cleanmarkerSize == cleanmarkerSize && this.pageSize == pageSize
      ensures Valid() && out == [] && nodes == [] && outOfs == 0 && ino == 1 && direntVersion == 0
    {
      this.registry, this.eraseBlock, this.addCleanmarkers := registry, eraseBlock, addCleanmarkers;
      this.cleanmarkerSize, this.pageSize := cleanmarkerSize, pageSize;
      out, outOfs, nodes, ino, direntVersion := [], 0, [], 1, 0;
    }

    /** Space taken by the cleanmarker at the start of a block. */
    function Marker(): nat
    {
      if addCleanmarkers then Round4(cleanmarkerSize) else 0
    }

    /** The layout of the output. */
    ghost predicate Laid()
      reads this
    {
      && eraseBlock > 0 && eraseBlock % 4 == 0 && CLEANMARKER_LEN <= cleanmarkerSize
      && Marker() + INODE_LEN + MIN_DATA_LEN <= eraseBlock
      && outOfs % 4 == 0 && Packed(nodes, outOfs, eraseBlock, addCleanmarkers)
      && |out| == outOfs && Printed(out, nodes)
    }

    ghost predicate Valid()
      reads this
    {
      Laid() && Numbered(nodes) && direntVersion == Entries(nodes) && InosUpTo(Inodes(nodes), ino)
    }

    /** The contents of an inode, read from the output. */
    ghost function FileRead(j: nat): seq<Byte>
      reads this, registry
    {
      FileIn(registry.list, out, j, |out|)
    }

    /** len bytes from there on are within one erase block and before the next node. */
    ghost predicate Apart(i: nat, len: nat)
      requires i < |nodes| && eraseBlock > 0
      reads this
    {
      && nodes[i].ofs % eraseBlock + len <= eraseBlock
      && nodes[i].ofs + len <= if i + 1 < |nodes| then nodes[i + 1].ofs else |out|
    }

    /** The header and the name of every entry, and the header and the payload of every inode node, are in the
        output, within one erase block and before the next node. */
    lemma WholeNode(i: nat)
      requires Valid() && i < |nodes|
      ensures nodes[i].ofs + nodes[i].len <= |out|
      ensures nodes[i].node.Cleanmarker? ==> Apart(i, 12)
      ensures nodes[i].node.Dirent? ==>
        var name := nodes[i].node.name;
        Apart(i, 40 + |name|) && nodes[i].ofs + 40 + |name| <= |out| &&
        DataFrom(out, nodes[i].ofs + 40, |name|) == name
      ensures nodes[i].node.Inode? ==>
        var payload := nodes[i].node.payload;
        Apart(i, 68 + |payload|) && nodes[i].ofs + 68 + |payload| <= |out| &&
        DataFrom(out, nodes[i].ofs + 68, |payload|) == payload
    {
      hide Packed, Printed, Numbered, Inodes, DataFrom;
      PackedAt(nodes, outOfs, eraseBlock, addCleanmarkers, i);
      NodeAt(out, nodes, i);
    }

    /** full_write(). */
    method FullWrite(bytes: seq<Octet>)
      modifies this`out, this`outOfs
      ensures out == old(out) + bytes && outOfs == old(outOfs) + |bytes|
    {
      out := out + bytes;
      outOfs := outOfs + |bytes|;
    }

    /** How much is missing to the end of the block. */
    function Missing(ofs: nat): nat
      requires eraseBlock > 0
    {
      if In(ofs, eraseBlock) == 0 then 0 else eraseBlock - In(ofs, eraseBlock)
    }

    /** padblock(): fill up the erase block. */
    method PadBlock()
      requires Laid()
      modifies this`out, this`outOfs
      ensures Laid() && In(outOfs, eraseBlock) == 0
      ensures outOfs == old(outOfs) + Missing(old(outOfs))
    {
      hide Packed, In, Printed;
      var start := outOfs;
      ghost var before := out;
      while In(outOfs, eraseBlock) != 0
        invariant outOfs >= start && outOfs % 4 == 0 && outOfs + Missing(outOfs) == start + Missing(start)
        invariant out == before + Fill(outOfs - start) && |before| == start
        decreases Missing(outOfs)
      {
        var left := eraseBlock - In(outOfs, eraseBlock);
        var n := if FFBUF < left then FFBUF else left;
        ModStep(outOfs, n, eraseBlock);
        BlockMultiple(outOfs, eraseBlock);
        FullWrite(Fill(n));
      }
      PackedLater(nodes, start, outOfs, eraseBlock, addCleanmarkers);
      PrintedFill(before, nodes, outOfs - start);
    }

    /** padword(). */
    method PadWord()
      modifies this`out, this`outOfs
      ensures outOfs == Round4(old(outOfs)) && out == old(out) + Fill(Round4(old(outOfs)) - old(outOfs))
    {
      if outOfs % 4 != 0 {
        FullWrite(Fill(4 - outOfs % 4));
      }
    }

    /** A node has been written to the end of the output: padword(), and take note of it. */
    method EndNode(ghost before: seq<Octet>, ghost p: Placed)
      requires eraseBlock > 0 && eraseBlock % 4 == 0 && CLEANMARKER_LEN <= cleanmarkerSize
      requires Marker() + INODE_LEN + MIN_DATA_LEN <= eraseBlock
      requires p.ofs == |before| && p.ofs % 4 == 0 && Packed(nodes, p.ofs, eraseBlock, addCleanmarkers)
      requires Printed(before, nodes) && out == before + Bytes(p) && outOfs == |out|
      requires |Bytes(p)| == p.len && p.len > 0 && In(p.ofs, eraseBlock) + p.len <= eraseBlock
      requires addCleanmarkers && In(p.ofs, eraseBlock) == 0 ==> p.node.Cleanmarker?
      modifies this`out, this`outOfs, this`nodes
      ensures Laid() && nodes == old(nodes) + [p] && outOfs == p.ofs + Round4(p.len)
    {
      hide Packed, In, Printed, Bytes;
      PrintedNext(before, nodes, p);
      PrintedFill(out, nodes + [p], Round4(outOfs) - outOfs);
      PadWord();
      AlignedEnd(p.ofs, p.len);
      hide Round4;
      PackedAppend(nodes, p, eraseBlock, addCleanmarkers);
      nodes := nodes + [p];
    }

    /** Write a node with its name or payload where the output is, and padword(). */
    method WriteNode(node: Node, body: seq<Byte>)
      requires Laid() && !node.Cleanmarker? && body == if node.Dirent? then node.name else node.payload
      requires In(outOfs, eraseBlock) + HeadLen(node) + |body| <= eraseBlock
      requires addCleanmarkers ==> In(outOfs, eraseBlock) != 0
      modifies this`out, this`outOfs, this`nodes
      ensures Laid() && nodes == old(nodes) + [Placed(old(outOfs), HeadLen(node) + |body|, node)]
      ensures outOfs == old(outOfs) + Round4(HeadLen(node) + |body|)
    {
      hide Packed, In, Printed, Bytes, HeadBytes, DataBytes, HeadLen;
      ghost var before, p := out, Placed(outOfs, HeadLen(node) + |body|, node);
      BytesOf(p, body);
      FullWrite(HeadBytes(node, HeadLen(node) + |body|));
      FullWrite(DataBytes(body));
      EndNode(before, p);
    }

    lemma BytesOf(p: Placed, body: seq<Byte>)
      requires !p.node.Cleanmarker? && body == if p.node.Dirent? then p.node.name else p.node.payload
      ensures HeadLen(p.node) > 0 && |Bytes(p)| == HeadLen(p.node) + |body|
      ensures forall before :: before + HeadBytes(p.node, p.len) + DataBytes(body) == before + Bytes(p)
    {
      forall before ensures before + HeadBytes(p.node, p.len) + DataBytes(body) == before + Bytes(p) {
        assert Bytes(p) == HeadBytes(p.node, p.len) + DataBytes(body);
      }
    }

    /** pad(): req bytes of filler, at most sizeof(ffbuf) at a time. */
    method Pad(req0: nat)
      modifies this`out, this`outOfs
      ensures out == old(out) + Fill(req0) && outOfs == old(outOfs) + req0
    {
      var req: nat := req0;
      while req != 0
        invariant req <= req0 && out == old(out) + Fill(req0 - req) && outOfs == old(outOfs) + (req0 - req)
      {
        var n := if req > FFBUF then FFBUF else req;
        FullWrite(Fill(n));
        req := req - n;
      }
    }

    /** The cleanmarker that a block begins with. */
    method MarkClean()
      requires Laid()
      modifies this`out, this`outOfs, this`nodes
      ensures Laid() && OnlyMarkers(old(nodes), nodes)
      ensures addCleanmarkers ==> In(outOfs, eraseBlock) != 0
      ensures if addCleanmarkers && In(old(outOfs), eraseBlock) == 0
        then outOfs == old(outOfs) + Marker() && In(outOfs, eraseBlock) == Marker()
        else outOfs == old(outOfs) && nodes == old(nodes)
    {
      hide Packed, In, Printed;
      if addCleanmarkers && In(outOfs, eraseBlock) == 0 {
        ghost var before, p := out, Placed(outOfs, cleanmarkerSize, Cleanmarker);
        ModStep(outOfs, Round4(cleanmarkerSize), eraseBlock);
        FullWrite(HeadBytes(Cleanmarker, cleanmarkerSize));
        Pad(cleanmarkerSize - CLEANMARKER_LEN);
        EndNode(before, p);
      }
    }

    /** pad_block_if_less_than(): have room for req bytes in the current block, or else in the next one, which
        begins with a cleanmarker. */
    method PadBlockIfLessThan(req: nat)
      requires Laid() && Marker() + req <= eraseBlock
      modifies this`out, this`outOfs, this`nodes
      ensures Laid() && OnlyMarkers(old(nodes), nodes)
      ensures In(outOfs, eraseBlock) + req <= eraseBlock && (addCleanmarkers ==> In(outOfs, eraseBlock) != 0)
      ensures outOfs == old(outOfs) +
        if In(old(outOfs), eraseBlock) == 0 || In(old(outOfs), eraseBlock) + req > eraseBlock
        then Missing(old(outOfs)) + Marker() else 0
      ensures !addCleanmarkers || outOfs == old(outOfs) ==> nodes == old(nodes)
    {
      hide Packed, In, Printed;
      MarkClean();
      if In(outOfs, eraseBlock) + req > eraseBlock {
        PadBlock();
      }
      MarkClean();
    }

    /** write_dirent(): the entry comes behind what was there and perhaps a cleanmarker, and behind padding
        if it does not fit in the block. */
    method WriteDirent(pino: nat, dino: nat, kind: nat, name: seq<Byte>)
      requires Valid() && Marker() + DIRENT_LEN + |name| <= eraseBlock
      modifies this`out, this`outOfs, this`nodes, this`direntVersion
      ensures Valid() && direntVersion == old(direntVersion) + 1
      ensures |nodes| > 0 && nodes[|nodes| - 1].node == Dirent(pino, dino, old(direntVersion), kind, name)
      ensures OnlyMarkers(old(nodes), nodes[..|nodes| - 1])
      ensures nodes[|nodes| - 1].ofs == old(outOfs) +
        if In(old(outOfs), eraseBlock) == 0 || In(old(outOfs), eraseBlock) + DIRENT_LEN + |name| > eraseBlock
        then Missing(old(outOfs)) + Marker() else 0
      ensures !addCleanmarkers ==> nodes[..|nodes| - 1] == old(nodes)
    {
      hide Packed, In, Numbered, Printed, Missing, Entries, Inodes, Round4, HeadBytes, DataBytes;
      var d := Dirent(pino, dino, direntVersion, kind, name);
      direntVersion := direntVersion + 1;
      ghost var before := nodes;
      PadBlockIfLessThan(DIRENT_LEN + |name|);
      MarkersOnly(before, nodes);
      ghost var p := Placed(outOfs, DIRENT_LEN + |name|, d);
      NumberedAppend(nodes, p);
      InodesAppend(nodes, p);
      assert (nodes + [p])[..|nodes|] == nodes;
      WriteNode(d, name);
    }

    ghost predicate CanCompress()
      reads registry
    {
      && DistinctIds(registry.list)
      && forall i :: 0 <= i < |registry.list| ==> Sound(registry.list[i], pageSize)
    }

    /** What has been written of a file: base are the inode nodes of earlier files. */
    ghost predicate Progress(base: seq<Node>, ns: seq<Node>, file: seq<Byte>, pos: nat)
      reads this, registry
    {
      && Valid() && CanCompress() && pos <= |file|
      && Inodes(nodes) == base + ns && Tiles(registry.list, ns, file, ino, pos)
    }

    /** The node for as much of the next len bytes as fits in space, compressed if that helps. */
    method MakeNode(file: seq<Byte>, pos: nat, len: nat, ver: nat, space: nat) returns (n: Node)
      requires CanCompress() && 0 < space <= len <= pageSize && pos + len <= |file|
      ensures n.Inode? && n.ino == ino && n.version == ver + 1 && n.offset == pos && n.isize == |file|
      ensures 0 < n.dsize <= len && |n.payload| <= space && Plain(registry.list, n) == file[pos..pos + n.dsize]
    {
      hide Sound, Plain, Made, FirstWorking, Shrinks;
      var data := file[pos..pos + len];
      StillSound(len);
      var ret, code, datalen, cdatalen := registry.Compress(data, space);
      ghost var who := |registry.list|;
      if ret == NONE {
        n := Inode(ino, ver + 1, pos, cdatalen, |file|, ret, data[..cdatalen]);
      } else {
        who :| 0 <= who < |registry.list| && Recovers(registry.list[who], data, space, ret, code, datalen, cdatalen);
        MadeFacts(registry.list[who], data, space, ret, code, datalen, cdatalen);
        n := Inode(ino, ver + 1, pos, datalen, |file|, ret, code);
      }
      PlainPiece(file, pos, len, n, who);
    }

    lemma MadeFacts(c: Compressor, data: seq<Byte>, room: nat, ret: nat, code: seq<Byte>, datalen: nat, cdatalen: nat)
      requires Recovers(c, data, room, ret, code, datalen, cdatalen)
      ensures ret == c.id && c.decompress(code, datalen) == data[..datalen]
    {
    }

    /** One node of a file: as much of the next len bytes as fits in the current block. */
    method WritePiece(file: seq<Byte>, pos: nat, len: nat, ver: nat, ghost base: seq<Node>, ghost ns: seq<Node>)
      returns (dsize: nat, ghost more: seq<Node>)
      requires Progress(base, ns, file, pos) && |ns| == ver && 0 < len <= pageSize && pos + len <= |file|
      modifies this`out, this`outOfs, this`nodes
      ensures 0 < dsize <= len && |more| == ver + 1 && Progress(base, more, file, pos + dsize) && old(nodes) <= nodes
    {
      hide Packed, In, Printed, Inodes, Tiles, Sound, Plain, Numbered, Entries;
      ghost var before := nodes;
      PadBlockIfLessThan(INODE_LEN + MIN_DATA_LEN);
      MarkersOnly(before, nodes);
      var space := eraseBlock - In(outOfs, eraseBlock) - INODE_LEN;
      if space > len {
        space := len;
      }
      var n := MakeNode(file, pos, len, ver, space);
      dsize := n.dsize;
      more := ns + [n];
      TilesNext(registry.list, ns, n, file, ino, pos);
      InodesAppend(nodes, Placed(outOfs, INODE_LEN + |n.payload|, n));
      NumberedAppend(nodes, Placed(outOfs, INODE_LEN + |n.payload|, n));
      assert base + ns + [n] == base + more;
      WriteNode(n, n.payload);
    }

    lemma StillSound(len: nat)
      requires CanCompress() && len <= pageSize
      ensures forall i :: 0 <= i < |registry.list| ==> Sound(registry.list[i], len)
    {
    }

    /** The payload stands for the piece of the file that it replaces. */
    lemma PlainPiece(file: seq<Byte>, pos: nat, len: nat, n: Node, who: nat)
      requires CanCompress() && pos + len <= |file| && n.Inode? && n.dsize <= len && who <= |registry.list|
      requires who == |registry.list| ==> n.compr == NONE && n.payload == file[pos..pos + len][..n.dsize]
      requires who < |registry.list| ==> n.compr == registry.list[who].id && n.compr != NONE
      requires who < |registry.list| ==>
        registry.list[who].decompress(n.payload, n.dsize) == file[pos..pos + len][..n.dsize]
      ensures Plain(registry.list, n) == file[pos..pos + n.dsize]
    {
      assert file[pos..pos + len][..n.dsize] == file[pos..pos + n.dsize];
      if who < |registry.list| {
        ByIdIs(registry.list, who);
      }
    }

    /** The inner loop: the nodes for one page of the file. */
    method WriteChunk(file: seq<Byte>, pos0: nat, len0: nat, ver0: nat, ghost base: seq<Node>, ghost ns: seq<Node>)
      returns (ver: nat, ghost more: seq<Node>)
      requires Progress(base, ns, file, pos0) && |ns| == ver0 && len0 <= pageSize && pos0 + len0 <= |file|
      modifies this`out, this`outOfs, this`nodes
      ensures |more| == ver >= ver0 && (len0 > 0 ==> ver > ver0) && Progress(base, more, file, pos0 + len0)
      ensures old(nodes) <= nodes
    {
      hide Progress;
      var pos: nat, len: nat := pos0, len0;
      ver, more := ver0, ns;
      while len > 0
        invariant Progress(base, more, file, pos) && |more| == ver && pos + len == pos0 + len0
        invariant ver >= ver0 && (len < len0 ==> ver > ver0) && old(nodes) <= nodes
      {
        var dsize;
        dsize, more := WritePiece(file, pos, len, ver, base, more);
        pos, len, ver := pos + dsize, len - dsize, ver + 1;
      }
    }

    /** write_regular_file(): a directory entry, then the contents, or one empty node for an empty file. */
    method WriteRegularFile(pino: nat, name: seq<Byte>, file: seq<Byte>) returns (ok: bool, ghost ns: seq<Node>)
      requires Valid() && CanCompress() && pageSize > 0 && Marker() + DIRENT_LEN + |name| <= eraseBlock
      modifies this
      ensures Valid() && old(nodes) <= nodes && (ok <==> |file| < MAX_FILE_SIZE)
      ensures ok ==> direntVersion == old(direntVersion) + 1
      ensures ok ==> FileRead(ino) == file && forall j :: 0 <= j <= old(ino) ==> FileRead(j) == old(FileRead(j))
      ensures ok ==> ino == old(ino) + 1 && Inodes(nodes) == Inodes(old(nodes)) + ns && |ns| > 0
      ensures ok ==> Tiles(registry.list, ns, file, ino, |file|)
      ensures ok ==>
        var d := Dirent(pino, ino, old(direntVersion), DT_REG, name);
        exists k :: |old(nodes)| <= k < |nodes| && IsEntry(k, d, Inodes(old(nodes)))
      ensures !ok ==> nodes == old(nodes)
    {
      hide Packed, In, Printed, Inodes, Tiles, Numbered, Entries;
      ns := [];
      if |file| >= MAX_FILE_SIZE {
        return false, ns;
      }
      ino := ino + 1;
      WriteDirent(pino, ino, DT_REG, name);
      EntryAdded(old(nodes), nodes);
      ghost var base, k := Inodes(nodes), |nodes| - 1;
      ghost var head := nodes;
      assert Tiles(registry.list, ns, file, ino, 0) by {
        NoTiles(registry.list, file, ino);
      }
      var ver, pos := 0, 0;
      while pos < |file|
        invariant pos <= |file| && Progress(base, ns, file, pos) && |ns| == ver && (pos > 0 ==> ver > 0)
        invariant old(nodes) <= nodes && ino == old(ino) + 1 && direntVersion == old(direntVersion) + 1
        invariant head <= nodes
      {
        var len: nat :| 0 < len <= pageSize && len <= |file| - pos by {
          assert 0 < 1 <= pageSize && 1 <= |file| - pos;
        }
        ver, ns := WriteChunk(file, pos, len, ver, base, ns);
        pos := pos + len;
      }
      if ver == 0 {
        ns := WriteEmpty(file, base);
      }
      FileIsThere(old(out), old(nodes), ns, file);
      assert nodes[..k + 1] == head;
      assert IsEntry(k, Dirent(pino, ino, old(direntVersion), DT_REG, name), base);
      ok := true;
    }

    /** Reading the output gives the new file, and the others as before. */
    lemma FileIsThere(was: seq<Octet>, before: seq<Placed>, ns: seq<Node>, file: seq<Byte>)
      requires Laid() && Printed(was, before) && Inodes(nodes) == Inodes(before) + ns
      requires Tiles(registry.list, ns, file, ino, |file|) && ino > 0 && InosUpTo(Inodes(before), ino - 1)
      ensures FileRead(ino) == file
      ensures forall j :: 0 <= j < ino ==> FileRead(j) == FileIn(registry.list, was, j, |was|)
    {
      hide Packed, Printed, Tiles, Inodes, FileIn, InosUpTo;
      var list := registry.list;
      FileInIs(list, out, nodes, ino);
      FileAdded(list, Inodes(before), ns, file, ino, |file|, ino);
      assert file[..|file|] == file;
      forall j | 0 <= j < ino ensures FileRead(j) == FileIn(list, was, j, |was|) {
        FileInIs(list, out, nodes, j);
        FileInIs(list, was, before, j);
        FileAdded(list, Inodes(before), ns, file, ino, |file|, j);
      }
    }

    /** The entry d comes before any new contents. */
    ghost predicate IsEntry(k: nat, d: Node, before: seq<Node>)
      requires k < |nodes|
      reads this
    {
      nodes[k].node == d && Inodes(nodes[..k + 1]) == before
    }

    method WriteEmpty(file: seq<Byte>, ghost base: seq<Node>) returns (ghost ns: seq<Node>)
      requires Progress(base, [], file, 0) && file == []
      modifies this`out, this`outOfs, this`nodes
      ensures Progress(base, ns, file, 0) && |ns| == 1 && old(nodes) <= nodes
    {
      hide Packed, In, Printed, Inodes, Tiles, Numbered, Entries;
      ghost var before := nodes;
      PadBlockIfLessThan(INODE_LEN);
      MarkersOnly(before, nodes);
      var n := Inode(ino, 1, 0, 0, 0, NONE, []);
      InodesAppend(nodes, Placed(outOfs, INODE_LEN, n));
      NumberedAppend(nodes, Placed(outOfs, INODE_LEN, n));
      TilesNext(registry.list, [], n, file, ino, 0);
      ns := [n];
      assert base + [] + [n] == base + ns && [] + [n] == ns;
      WriteNode(n, []);
    }
  }

  /** Nothing but cleanmarkers has been added. */
  ghost predicate OnlyMarkers(before: seq<Placed>, after: seq<Placed>)
  {
    before <= after && forall i :: |before| <= i < |after| ==> after[i].node.Cleanmarker?
  }

  lemma {:induction false} MarkersOnly(before: seq<Placed>, after: seq<Placed>)
    requires OnlyMarkers(before, after)
    ensures Inodes(after) == Inodes(before) && Entries(after) == Entries(before)
    ensures Numbered(before) ==> Numbered(after)
    decreases |after|
  {
    if |after| > |before| {
      var last := |after| - 1;
      MarkersOnly(before, after[..last]);
      if Numbered(before) {
        NumberedAppend(after[..last], after[last]);
        assert after == after[..last] + [after[last]];
      }
    } else {
      assert after == before;
    }
  }

  /** An entry behind markers leaves the inode nodes as they are. */
  lemma EntryAdded(before: seq<Placed>, after: seq<Placed>)
    requires |after| > 0 && OnlyMarkers(before, after[..|after| - 1]) && after[|after| - 1].node.Dirent?
    ensures before <= after && Inodes(after) == Inodes(before)
  {
    MarkersOnly(before, after[..|after| - 1]);
  }
}
