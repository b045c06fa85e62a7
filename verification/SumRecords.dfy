// include/linux/jffs2.h, jffsX-utils/summary.h and jffsX-utils/jffs2dump.c: the nodes of a block and the
// records of its summary as bytes, and how both are read.

module SumRecords {
  import opened Basics
  import DirList

  const MAGIC: nat := 0x1985
  const DIRENT: nat := 0xe001
  const INODE: nat := 0xe002
  const XATTR: nat := 0xe008
  const XREF: nat := 0xe009

  /* ------------------------------------------------------------ numbers in either byte order */

  function Get16(s: seq<Byte>, at: nat, big: bool): (x: nat)
    requires at + 2 <= |s|
    ensures x < 0x1_0000
  {
    var a: int, b: int := s[at], s[at + 1];
    if big then 256 * a + b else a + 256 * b
  }

  function Get32(s: seq<Byte>, at: nat, big: bool): (x: nat)
    requires at + 4 <= |s|
    ensures x < 0x1_0000_0000
  {
    var a, b := Get16(s, at, big), Get16(s, at + 2, big);
    if big then 0x1_0000 * a + b else a + 0x1_0000 * b
  }

  function Put16(x: nat, big: bool): (s: seq<Byte>)
    requires x < 0x1_0000
    ensures |s| == 2
  {
    if big then [x / 256, x % 256] else [x % 256, x / 256]
  }

  function Put32(x: nat, big: bool): (s: seq<Byte>)
    requires x < 0x1_0000_0000
    ensures |s| == 4
  {
    var a, b := x / 0x1_0000, x % 0x1_0000;
    if big then Put16(a, big) + Put16(b, big) else Put16(b, big) + Put16(a, big)
  }

  /** s holds t from there on. */
  ghost predicate Stands(s: seq<Byte>, at: nat, t: seq<Byte>)
  {
    at + |t| <= |s| && s[at..at + |t|] == t
  }

  lemma StandsParts(s: seq<Byte>, at: nat, a: seq<Byte>, b: seq<Byte>)
    requires Stands(s, at, a + b)
    ensures Stands(s, at, a) && Stands(s, at + |a|, b)
  {
    assert s[at..at + |a|] == (a + b)[..|a|];
    assert s[at + |a|..at + |a| + |b|] == (a + b)[|a|..];
  }

  lemma GetPut16(s: seq<Byte>, at: nat, x: nat, big: bool)
    requires x < 0x1_0000 && at + 2 <= |s| && s[at..at + 2] == Put16(x, big)
    ensures Get16(s, at, big) == x
  {
    assert s[at] == s[at..at + 2][0] && s[at + 1] == s[at..at + 2][1];
  }

  lemma GetPut32(s: seq<Byte>, at: nat, x: nat, big: bool)
    requires x < 0x1_0000_0000 && at + 4 <= |s| && s[at..at + 4] == Put32(x, big)
    ensures Get32(s, at, big) == x
  {
    hide Put16, Get16;
    var a, b := x / 0x1_0000, x % 0x1_0000;
    var first, second := if big then a else b, if big then b else a;
    StandsParts(s, at, Put16(first, big), Put16(second, big));
    GetPut16(s, at, first, big);
    GetPut16(s, at + 2, second, big);
  }

  lemma SameGets(s: seq<Byte>, i: nat, t: seq<Byte>, j: nat, big: bool)
    requires i + 4 <= |s| && j + 4 <= |t| && s[i..i + 4] == t[j..j + 4]
    ensures Get32(s, i, big) == Get32(t, j, big)
    ensures Get16(s, i, big) == Get16(t, j, big) && Get16(s, i + 2, big) == Get16(t, j + 2, big)
  {
    assert s[i..i + 4][0] == s[i] && s[i..i + 4][1] == s[i + 1];
    assert s[i..i + 4][2] == s[i + 2] && s[i..i + 4][3] == s[i + 3];
  }

  /* ------------------------------------------------------------ nodes */

  /** The totlen bytes of a node. */
  type Node = seq<Byte>

  /** A node and its offset in the block. */
  datatype Placed = Placed(ofs: nat, node: Node)

  /** What every node begins with. */
  predicate Header(data: seq<Byte>, at: nat, big: bool)
  {
    at + 12 <= |data| && Get16(data, at, big) == MAGIC && Get32(data, at + 4, big) >= 12
  }

  predicate Kept(nodetype: nat)
  {
    nodetype == DIRENT || nodetype == INODE || nodetype == XATTR || nodetype == XREF
  }

  /** A node of one of the four kinds, not shorter than its header and its name. */
  predicate WellFormed(n: Node, big: bool)
  {
    && Header(n, 0, big) && Get32(n, 4, big) == |n|
    && var t := Get16(n, 2, big);
      || (t == INODE && |n| >= 68)
      || (t == DIRENT && |n| >= 40 && |n| - 40 >= n[28])
      || (t == XATTR && |n| >= 32)
      || (t == XREF && |n| >= 28)
  }

  function NextAt(data: seq<Byte>, at: nat, big: bool): (next: nat)
    requires Header(data, at, big)
    ensures at < next
  {
    at + Round4(Get32(data, at + 4, big))
  }

  /** The node at this header, if it is of a kind to keep. */
  function NodeAt(data: seq<Byte>, at: nat, big: bool): (ps: seq<Placed>)
    requires Header(data, at, big)
    ensures |ps| <= 1
    ensures |ps| == 1 ==> ps[0].ofs == at && at + |ps[0].node| <= NextAt(data, at, big)
    ensures |ps| == 1 ==> at + |ps[0].node| <= |data| && data[at..at + |ps[0].node|] == ps[0].node
  {
    var totlen := Get32(data, at + 4, big);
    if Kept(Get16(data, at + 2, big)) && at + totlen <= |data| then [Placed(at, data[at..at + totlen])] else []
  }

  /** A walk over a block that does not use its summary: from node to node, word by word where there is none. */
  function Scan(data: seq<Byte>, at: nat, big: bool): seq<Placed>
    decreases |data| - at
  {
    if at >= |data| then []
    else if !Header(data, at, big) then Scan(data, at + 4, big)
    else NodeAt(data, at, big) + Scan(data, NextAt(data, at, big), big)
  }

  /** From here the walk goes from node to node and ends where the data ends. */
  ghost predicate Lands(data: seq<Byte>, at: nat, big: bool)
    decreases |data| - at
  {
    at == |data| ||
    (Header(data, at, big) && NextAt(data, at, big) <= |data| && Lands(data, NextAt(data, at, big), big))
  }

  lemma HeaderKept(data: seq<Byte>, more: seq<Byte>, at: nat, big: bool)
    requires Header(data, at, big) && NextAt(data, at, big) <= |data|
    ensures Header(data + more, at, big) && NextAt(data + more, at, big) == NextAt(data, at, big)
    ensures NodeAt(data + more, at, big) == NodeAt(data, at, big)
  {
    hide Get16, Get32, Kept;
    var t, totlen := data + more, Get32(data, at + 4, big);
    assert t[at..at + 4] == data[at..at + 4] && t[at + 4..at + 8] == data[at + 4..at + 8];
    SameGets(t, at, data, at, big);
    SameGets(t, at + 4, data, at + 4, big);
    hide Round4;
    assert t[at..at + totlen] == data[at..at + totlen];
  }

  /** Data behind a finished walk does not change what the walk finds. */
  lemma {:induction false} ScanMore(data: seq<Byte>, more: seq<Byte>, at: nat, big: bool)
    requires Lands(data, at, big)
    ensures Scan(data + more, at, big) == Scan(data, at, big) + Scan(data + more, |data|, big)
    ensures Lands(data + more, |data|, big) ==> Lands(data + more, at, big)
    decreases |data| - at
  {
    hide Header, NodeAt, NextAt;
    if at < |data| {
      HeaderKept(data, more, at, big);
      ScanMore(data, more, NextAt(data, at, big), big);
    }
  }

  lemma {:induction false} ScanFiller(data: seq<Byte>, at: nat, big: bool)
    requires forall k :: at <= k < |data| ==> data[k] == 0xff
    ensures Scan(data, at, big) == []
    decreases |data| - at
  {
    if at < |data| {
      assert !Header(data, at, big);
      ScanFiller(data, at + 4, big);
    }
  }

  /** A node, padded to a word, behind a finished walk. */
  lemma ScanNext(data: seq<Byte>, n: Node, pad: seq<Byte>, big: bool)
    requires Lands(data, 0, big) && WellFormed(n, big) && |n| + |pad| == Round4(|n|)
    ensures var t := data + (n + pad);
      Lands(t, 0, big) && Scan(t, 0, big) == Scan(data, 0, big) + [Placed(|data|, n)]
  {
    hide *;
    var t, at := data + (n + pad), |data|;
    NodeStands(data, n, pad, big);
    AloneScan(t, at, big);
    ScanMore(data, n + pad, 0, big);
  }

  lemma AloneScan(t: seq<Byte>, at: nat, big: bool)
    requires Header(t, at, big) && NextAt(t, at, big) == |t|
    ensures Lands(t, at, big) && Scan(t, at, big) == NodeAt(t, at, big)
  {
    hide Header, NodeAt, NextAt;
    assert Lands(t, |t|, big) && Scan(t, |t|, big) == [];
  }

  lemma NodeStands(data: seq<Byte>, n: Node, pad: seq<Byte>, big: bool)
    requires WellFormed(n, big) && |n| + |pad| == Round4(|n|)
    ensures var t, at := data + (n + pad), |data|;
      Header(t, at, big) && NextAt(t, at, big) == |t| && NodeAt(t, at, big) == [Placed(at, n)]
  {
    hide Get16, Get32;
    var t, at := data + (n + pad), |data|;
    assert t[at..at + |n|] == n;
    PartStands(t, at, n, 0, 4);
    PartStands(t, at, n, 4, 8);
    SameGets(t, at, n, 0, big);
    SameGets(t, at + 4, n, 4, big);
    hide Round4;
  }

  lemma PartStands(s: seq<Byte>, at: nat, t: seq<Byte>, i: nat, j: nat)
    requires Stands(s, at, t) && i <= j <= |t|
    ensures s[at + i..at + j] == t[i..j]
  {
    var u, v := s[at + i..at + j], t[i..j];
    forall k | 0 <= k < j - i ensures u[k] == v[k] {
      assert s[at..at + |t|][i + k] == s[at + i + k];
    }
  }

  /** Every node found stands at its offset, and the nodes do not overlap. */
  lemma {:induction false} ScanAt(data: seq<Byte>, at: nat, big: bool, i: nat)
    requires i < |Scan(data, at, big)|
    ensures var ps := Scan(data, at, big); var p := ps[i];
      && at <= p.ofs && p.ofs + |p.node| <= |data| && data[p.ofs..p.ofs + |p.node|] == p.node
      && (i + 1 < |ps| ==> p.ofs + |p.node| <= ps[i + 1].ofs)
    decreases |data| - at
  {
    hide NodeAt, NextAt, Header;
    if at < |data| {
      if !Header(data, at, big) {
        ScanAt(data, at + 4, big, i);
      } else {
        var here, next := NodeAt(data, at, big), NextAt(data, at, big);
        var rest := Scan(data, next, big);
        if i >= |here| {
          ScanAt(data, next, big, i - |here|);
        } else if |rest| > 0 {
          ScanAt(data, next, big, 0);
        }
      }
    }
  }

  /* ------------------------------------------------------------ records */

  /** What a summary says about a node. */
  datatype Record =
    | SumInode(ino: nat, version: nat, offset: nat, totlen: nat)
    | SumDirent(totlen: nat, offset: nat, pino: nat, version: nat, ino: nat, kind: nat, name: seq<Byte>)
    | SumXattr(xid: nat, version: nat, offset: nat, totlen: nat)
    | SumXref(offset: nat)

  predicate Word(x: nat)
  {
    x < 0x1_0000_0000
  }

  /** The fields have the width that they have in the summary. */
  predicate Ranged(r: Record)
  {
    match r
    case SumInode(ino, version, offset, totlen) => Word(ino) && Word(version) && Word(offset) && Word(totlen)
    case SumDirent(totlen, offset, pino, version, ino, kind, name) =>
      && Word(totlen) && Word(offset) && Word(pino) && Word(version) && Word(ino) && kind < 256 && |name| < 256
    case SumXattr(xid, version, offset, totlen) => Word(xid) && Word(version) && Word(offset) && Word(totlen)
    case SumXref(offset) => Word(offset)
  }

  function RecordSize(r: Record): nat
  {
    match r
    case SumInode(_, _, _, _) => 18
    case SumDirent(_, _, _, _, _, _, name) => 24 + |name|
    case SumXattr(_, _, _, _) => 18
    case SumXref(_) => 6
  }

  function Four(a: nat, b: nat, c: nat, d: nat, big: bool): (s: seq<Byte>)
    requires Word(a) && Word(b) && Word(c) && Word(d)
    ensures |s| == 16
  {
    Put32(a, big) + Put32(b, big) + Put32(c, big) + Put32(d, big)
  }

  /** The bytes of a record. */
  function Encode(r: Record, big: bool): (s: seq<Byte>)
    requires Ranged(r)
    ensures |s| == RecordSize(r)
  {
    match r
    case SumInode(ino, version, offset, totlen) => Put16(INODE, big) + Four(ino, version, offset, totlen, big)
    case SumDirent(totlen, offset, pino, version, ino, kind, name) =>
      Put16(DIRENT, big) + (Four(totlen, offset, pino, version, big) + (Put32(ino, big) + ([|name|, kind] + name)))
    case SumXattr(xid, version, offset, totlen) => Put16(XATTR, big) + Four(xid, version, offset, totlen, big)
    case SumXref(offset) => Put16(XREF, big) + Put32(offset, big)
  }

  datatype Reading = Unknown | Known(record: Record)

  /** A record as a reader of the summary takes it. */
  function ReadRecord(s: seq<Byte>, at: nat, big: bool): Reading
  {
    if at + 6 > |s| then Unknown
    else
      var t := Get16(s, at, big);
      if t == INODE && at + 18 <= |s| then
        Known(SumInode(Get32(s, at + 2, big), Get32(s, at + 6, big), Get32(s, at + 10, big), Get32(s, at + 14, big)))
      else if t == DIRENT && at + 24 <= |s| && at + 24 + s[at + 22] <= |s| then
        Known(SumDirent(Get32(s, at + 2, big), Get32(s, at + 6, big), Get32(s, at + 10, big), Get32(s, at + 14, big),
          Get32(s, at + 18, big), s[at + 23], s[at + 24..at + 24 + s[at + 22]]))
      else if t == XATTR && at + 18 <= |s| then
        Known(SumXattr(Get32(s, at + 2, big), Get32(s, at + 6, big), Get32(s, at + 10, big), Get32(s, at + 14, big)))
      else if t == XREF then Known(SumXref(Get32(s, at + 2, big)))
      else Unknown
  }

  datatype List = Unreadable | List(records: seq<Record>)

  /** num records, one behind the other. */
  function ReadRecords(s: seq<Byte>, at: nat, num: nat, big: bool): List
    decreases num
  {
    if num == 0 then List([])
    else
      match ReadRecord(s, at, big)
      case Unknown => Unreadable
      case Known(r) =>
        match ReadRecords(s, at + RecordSize(r), num - 1, big)
        case Unreadable => Unreadable
        case List(rs) => List([r] + rs)
  }

  ghost predicate AllRanged(rs: seq<Record>)
  {
    forall i :: 0 <= i < |rs| ==> Ranged(rs[i])
  }

  /** The records one behind the other. */
  ghost function EncodeAll(rs: seq<Record>, big: bool): seq<Byte>
    requires AllRanged(rs)
  {
    if |rs| == 0 then [] else Encode(rs[0], big) + EncodeAll(rs[1..], big)
  }

  lemma {:induction false} EncodeMore(rs: seq<Record>, r: Record, big: bool)
    requires AllRanged(rs) && Ranged(r)
    ensures EncodeAll(rs + [r], big) == EncodeAll(rs, big) + Encode(r, big)
  {
    hide Encode, Ranged;
    if |rs| == 0 {
      assert rs + [r] == [r] && [r][1..] == [];
    } else {
      EncodeMore(rs[1..], r, big);
      assert (rs + [r])[1..] == rs[1..] + [r];
    }
  }

  lemma FourStands(s: seq<Byte>, at: nat, a: nat, b: nat, c: nat, d: nat, big: bool)
    requires Word(a) && Word(b) && Word(c) && Word(d) && Stands(s, at, Four(a, b, c, d, big))
    ensures at + 16 <= |s|
    ensures Get32(s, at, big) == a && Get32(s, at + 4, big) == b
    ensures Get32(s, at + 8, big) == c && Get32(s, at + 12, big) == d
  {
    hide Put32, Get32;
    StandsParts(s, at, Put32(a, big) + Put32(b, big) + Put32(c, big), Put32(d, big));
    StandsParts(s, at, Put32(a, big) + Put32(b, big), Put32(c, big));
    StandsParts(s, at, Put32(a, big), Put32(b, big));
    GetPut32(s, at, a, big);
    GetPut32(s, at + 4, b, big);
    GetPut32(s, at + 8, c, big);
    GetPut32(s, at + 12, d, big);
  }

  lemma TypeStands(s: seq<Byte>, at: nat, t: nat, rest: seq<Byte>, big: bool)
    requires t < 0x1_0000 && Stands(s, at, Put16(t, big) + rest)
    ensures at + 2 <= |s| && Get16(s, at, big) == t && Stands(s, at + 2, rest)
  {
    StandsParts(s, at, Put16(t, big), rest);
    GetPut16(s, at, t, big);
  }

  /** A record is read back as it was written. */
  lemma ReadBack(s: seq<Byte>, at: nat, r: Record, big: bool)
    requires Ranged(r) && Stands(s, at, Encode(r, big))
    ensures ReadRecord(s, at, big) == Known(r)
  {
    hide Put32, Get32, Four, Put16, Get16;
    match r {
      case SumInode(ino, version, offset, totlen) =>
        TypeStands(s, at, INODE, Four(ino, version, offset, totlen, big), big);
        FourStands(s, at + 2, ino, version, offset, totlen, big);
      case SumDirent(_, _, _, _, _, _, _) => DirentReadBack(s, at, r, big);
      case SumXattr(xid, version, offset, totlen) =>
        TypeStands(s, at, XATTR, Four(xid, version, offset, totlen, big), big);
        FourStands(s, at + 2, xid, version, offset, totlen, big);
      case SumXref(offset) =>
        TypeStands(s, at, XREF, Put32(offset, big), big);
        GetPut32(s, at + 2, offset, big);
    }
  }

  lemma DirentReadBack(s: seq<Byte>, at: nat, r: Record, big: bool)
    requires r.SumDirent? && Ranged(r) && Stands(s, at, Encode(r, big))
    ensures ReadRecord(s, at, big) == Known(r)
  {
    hide ReadRecord, Get16, Get32, Put16, Put32, Four, Stands;
    var four, ino := Four(r.totlen, r.offset, r.pino, r.version, big), Put32(r.ino, big);
    var two: seq<Byte> := [|r.name|, r.kind];
    DirentParts(s, at, Put16(DIRENT, big), four, ino + (two + r.name));
    hide *;
    GetPut16(s, at, DIRENT, big);
    FourStands(s, at + 2, r.totlen, r.offset, r.pino, r.version, big);
    RestStands(s, at + 18, r, big);
    DirentIs(s, at, r, big);
  }

  lemma DirentParts(s: seq<Byte>, at: nat, a: seq<Byte>, b: seq<Byte>, c: seq<Byte>)
    requires Stands(s, at, a + (b + c)) && |a| == 2 && |b| == 16
    ensures at + 2 <= |s| && s[at..at + 2] == a && Stands(s, at + 2, b) && Stands(s, at + 18, c)
  {
    StandsParts(s, at, a, b + c);
    StandsParts(s, at + 2, b, c);
  }

  lemma DirentIs(s: seq<Byte>, at: nat, r: Record, big: bool)
    requires r.SumDirent? && at + 24 + |r.name| <= |s| && Get16(s, at, big) == DIRENT
    requires Get32(s, at + 2, big) == r.totlen && Get32(s, at + 6, big) == r.offset
    requires Get32(s, at + 10, big) == r.pino && Get32(s, at + 14, big) == r.version && Get32(s, at + 18, big) == r.ino
    requires s[at + 22] == |r.name| && s[at + 23] == r.kind && s[at + 24..at + 24 + |r.name|] == r.name
    ensures ReadRecord(s, at, big) == Known(r)
  {
    hide Get16, Get32;
  }

  lemma RestStands(s: seq<Byte>, at: nat, r: Record, big: bool)
    requires r.SumDirent? && Ranged(r) && Stands(s, at, Put32(r.ino, big) + ([|r.name|, r.kind] + r.name))
    ensures at + 6 + |r.name| <= |s| && s[at + 6..at + 6 + |r.name|] == r.name
    ensures Get32(s, at, big) == r.ino && s[at + 4] == |r.name| && s[at + 5] == r.kind
  {
    hide Get32, Put32, Stands;
    var two: seq<Byte> := [|r.name|, r.kind];
    StandsParts(s, at, Put32(r.ino, big), two + r.name);
    InoStands(s, at, r.ino, big);
    StandsParts(s, at + 4, two, r.name);
    NameStands(s, at + 4, r);
  }

  lemma InoStands(s: seq<Byte>, at: nat, ino: nat, big: bool)
    requires Word(ino) && Stands(s, at, Put32(ino, big))
    ensures at + 4 <= |s| && Get32(s, at, big) == ino
  {
    GetPut32(s, at, ino, big);
  }

  lemma NameStands(s: seq<Byte>, at: nat, r: Record)
    requires r.SumDirent? && Ranged(r) && Stands(s, at, [|r.name|, r.kind]) && Stands(s, at + 2, r.name)
    ensures at + 2 + |r.name| <= |s| && s[at + 2..at + 2 + |r.name|] == r.name
    ensures s[at] == |r.name| && s[at + 1] == r.kind
  {
    assert s[at] == s[at..at + 2][0] && s[at + 1] == s[at..at + 2][1];
  }

  /** A list of records is read back as it was written. */
  lemma {:induction false} ReadAllBack(s: seq<Byte>, at: nat, rs: seq<Record>, big: bool)
    requires AllRanged(rs) && Stands(s, at, EncodeAll(rs, big))
    ensures ReadRecords(s, at, |rs|, big) == List(rs)
    decreases |rs|
  {
    hide ReadRecord, Encode, Ranged, RecordSize;
    if |rs| > 0 {
      StandsParts(s, at, Encode(rs[0], big), EncodeAll(rs[1..], big));
      ReadBack(s, at, rs[0], big);
      ReadAllBack(s, at + RecordSize(rs[0]), rs[1..], big);
    }
  }

  /* ------------------------------------------------------------ summary and nodes agree */

  /** What a reader learns about a node, from its header or from the summary. */
  datatype Found =
    | FoundInode(ino: nat, version: nat, totlen: nat)
    | FoundEntry(pino: nat, entry: DirList.Entry, totlen: nat)
    | FoundXattr(xid: nat, version: nat, totlen: nat)
    | FoundXref

  /** The fields of struct jffs2_raw_inode, jffs2_raw_dirent and jffs2_raw_xattr. */
  function FromHeader(n: Node, big: bool): Found
    requires WellFormed(n, big)
  {
    var t := Get16(n, 2, big);
    if t == INODE then FoundInode(Get32(n, 12, big), Get32(n, 16, big), |n|)
    else if t == DIRENT then
      var entry := DirList.Entry(Get32(n, 16, big), Get32(n, 20, big), n[29], n[40..40 + n[28]]);
      FoundEntry(Get32(n, 12, big), entry, |n|)
    else if t == XATTR then FoundXattr(Get32(n, 12, big), Get32(n, 16, big), |n|)
    else FoundXref
  }

  function FromRecord(r: Record): Found
  {
    match r
    case SumInode(ino, version, _, totlen) => FoundInode(ino, version, totlen)
    case SumDirent(totlen, _, pino, version, ino, kind, name) =>
      FoundEntry(pino, DirList.Entry(version, ino, kind, name), totlen)
    case SumXattr(xid, version, _, totlen) => FoundXattr(xid, version, totlen)
    case SumXref(_) => FoundXref
  }

  ghost predicate AllWellFormed(ns: seq<Node>, big: bool)
  {
    forall i :: 0 <= i < |ns| ==> WellFormed(ns[i], big)
  }

  ghost function FromHeaders(ns: seq<Node>, big: bool): (fs: seq<Found>)
    requires AllWellFormed(ns, big)
    ensures |fs| == |ns|
  {
    seq(|ns|, i requires 0 <= i < |ns| => FromHeader(ns[i], big))
  }

  ghost function FromRecords(rs: seq<Record>): (fs: seq<Found>)
    ensures |fs| == |rs|
  {
    seq(|rs|, i requires 0 <= i < |rs| => FromRecord(rs[i]))
  }

  /** The entries of a directory, in the order of the log. */
  ghost function EntriesOf(fs: seq<Found>, pino: nat): seq<DirList.Entry>
  {
    if |fs| == 0 then []
    else
      var last := fs[|fs| - 1];
      EntriesOf(fs[..|fs| - 1], pino) + if last.FoundEntry? && last.pino == pino then [last.entry] else []
  }

  ghost function Nodes(ps: seq<Placed>): (ns: seq<Node>)
    ensures |ns| == |ps|
  {
    seq(|ps|, i requires 0 <= i < |ps| => ps[i].node)
  }

  /** A record for each node, with its offset, that says what the node's own header says. */
  ghost predicate Describes(rs: seq<Record>, ps: seq<Placed>, big: bool)
  {
    && |rs| == |ps| && AllWellFormed(Nodes(ps), big)
    && (forall i :: 0 <= i < |rs| ==> rs[i].offset == ps[i].ofs)
    && FromRecords(rs) == FromHeaders(Nodes(ps), big)
  }

  /** add_sum_inode_mem() and its siblings: the record of a node at this offset. */
  function RecordOf(n: Node, ofs: nat, big: bool): (r: Record)
    requires WellFormed(n, big)
  {
    var t := Get16(n, 2, big);
    if t == INODE then SumInode(Get32(n, 12, big), Get32(n, 16, big), ofs, Get32(n, 4, big))
    else if t == DIRENT then
      SumDirent(Get32(n, 4, big), ofs, Get32(n, 12, big), Get32(n, 16, big), Get32(n, 20, big), n[29],
        n[40..40 + n[28]])
    else if t == XATTR then SumXattr(Get32(n, 12, big), Get32(n, 16, big), ofs, Get32(n, 4, big))
    else SumXref(ofs)
  }

  /** The size of a node's record, as the callers of pad_block_if_less_than() give it. */
  function Plus(n: Node, big: bool): nat
  {
    if |n| >= 40 && Get16(n, 2, big) == DIRENT then
      var nsize: nat := n[28];
      24 + nsize
    else if |n| >= 4 && Get16(n, 2, big) == XREF then 6
    else 18
  }

  lemma RecordFacts(n: Node, ofs: nat, big: bool)
    requires WellFormed(n, big)
    ensures var r := RecordOf(n, ofs, big);
      && RecordSize(r) == Plus(n, big) && 6 <= Plus(n, big) <= |n| && 28 <= |n|
      && (Word(ofs) ==> Ranged(r)) && r.offset == ofs && FromRecord(r) == FromHeader(n, big)
  {
  }

  lemma DescribesNext(rs: seq<Record>, ps: seq<Placed>, n: Node, ofs: nat, big: bool)
    requires Describes(rs, ps, big) && WellFormed(n, big)
    ensures Describes(rs + [RecordOf(n, ofs, big)], ps + [Placed(ofs, n)], big)
  {
    hide WellFormed, FromHeader, FromRecord, RecordOf;
    RecordFacts(n, ofs, big);
    var ns, ms := Nodes(ps), Nodes(ps + [Placed(ofs, n)]);
    assert ms == ns + [n];
    var was, now := FromHeaders(ns, big), FromHeaders(ms, big);
    forall i | 0 <= i < |rs| ensures FromRecord(rs[i]) == now[i] {
      assert FromRecords(rs)[i] == was[i];
    }
    assert FromRecords(rs + [RecordOf(n, ofs, big)]) == now;
  }
}
