// The output of jffsX-utils/mkfs.jffs2.c byte by byte: nodes, with filler before and after them. What the
// bytes of a header are is left open; they are numbered.

module NodeBytes {
  import opened Basics

  /** sizeof the raw node headers. */
  const INODE_LEN: nat := 68
  const DIRENT_LEN: nat := 40
  const CLEANMARKER_LEN: nat := 12

  datatype Node =
    | Cleanmarker
    | Dirent(pino: nat, dino: nat, dversion: nat, kind: nat, name: seq<Byte>)
    | Inode(ino: nat, version: nat, offset: nat, dsize: nat, isize: nat, compr: nat, payload: seq<Byte>)

  /** A node, where it was written and its totlen. */
  datatype Placed = Placed(ofs: nat, len: nat, node: Node)

  /** A byte of the output: byte number at of the header of a node with this totlen, or a byte of data. */
  datatype Octet = Head(node: Node, len: nat, at: nat) | Data(value: Byte)

  function HeadLen(n: Node): nat
  {
    match n
    case Cleanmarker => CLEANMARKER_LEN
    case Dirent(_, _, _, _, _) => DIRENT_LEN
    case Inode(_, _, _, _, _, _, _) => INODE_LEN
  }

  function HeadBytes(n: Node, len: nat): (h: seq<Octet>)
    ensures |h| == HeadLen(n) && forall i :: 0 <= i < |h| ==> h[i] == Head(n, len, i)
  {
    seq(HeadLen(n), i requires 0 <= i < HeadLen(n) => Head(n, len, i))
  }

  function DataBytes(bs: seq<Byte>): (d: seq<Octet>)
    ensures |d| == |bs| && forall i :: 0 <= i < |d| ==> d[i] == Data(bs[i])
  {
    seq(|bs|, i requires 0 <= i < |bs| => Data(bs[i]))
  }

  function Fill(n: nat): (f: seq<Octet>)
    ensures |f| == n && forall i :: 0 <= i < n ==> f[i] == Data(0xff)
  {
    seq(n, i => Data(0xff))
  }

  /** What is written for a node. */
  ghost function Bytes(p: Placed): seq<Octet>
  {
    HeadBytes(p.node, p.len) + match p.node
      case Cleanmarker => Fill(if p.len >= CLEANMARKER_LEN then p.len - CLEANMARKER_LEN else 0)
      case Dirent(_, _, _, _, name) => DataBytes(name)
      case Inode(_, _, _, _, _, _, payload) => DataBytes(payload)
  }

  ghost predicate Filler(out: seq<Octet>)
  {
    forall i :: 0 <= i < |out| ==> out[i] == Data(0xff)
  }

  /** The output is the nodes at their places, and filler between them and after them. */
  ghost predicate Printed(out: seq<Octet>, ps: seq<Placed>)
    decreases |ps|
  {
    if |ps| == 0 then Filler(out)
    else
      var p := ps[|ps| - 1];
      && p.ofs + p.len <= |out| && out[p.ofs..p.ofs + p.len] == Bytes(p) && Filler(out[p.ofs + p.len..])
      && Printed(out[..p.ofs], ps[..|ps| - 1])
  }

  lemma PrintedFill(out: seq<Octet>, ps: seq<Placed>, n: nat)
    requires Printed(out, ps)
    ensures Printed(out + Fill(n), ps)
  {
    hide Bytes;
    if |ps| > 0 {
      var p, more := ps[|ps| - 1], out + Fill(n);
      assert more[p.ofs..p.ofs + p.len] == out[p.ofs..p.ofs + p.len];
      assert more[..p.ofs] == out[..p.ofs];
      assert more[p.ofs + p.len..] == out[p.ofs + p.len..] + Fill(n);
    }
  }

  lemma PrintedNext(out: seq<Octet>, ps: seq<Placed>, p: Placed)
    requires Printed(out, ps) && p.ofs == |out| && |Bytes(p)| == p.len
    ensures Printed(out + Bytes(p), ps + [p])
  {
    hide Bytes;
    var t, more := ps + [p], out + Bytes(p);
    assert t[..|ps|] == ps && more[..p.ofs] == out && more[p.ofs..p.ofs + p.len] == Bytes(p);
    assert more[p.ofs + p.len..] == [];
  }

  lemma {:induction false} PrintedIs(out: seq<Octet>, ps: seq<Placed>, i: nat)
    requires Printed(out, ps) && i < |ps|
    ensures ps[i].ofs + ps[i].len <= |out| && out[ps[i].ofs..ps[i].ofs + ps[i].len] == Bytes(ps[i])
    decreases |ps|
  {
    hide Bytes;
    var last := |ps| - 1;
    if i < last {
      var shorter, p := out[..ps[last].ofs], ps[i];
      PrintedIs(shorter, ps[..last], i);
      assert shorter[p.ofs..p.ofs + p.len] == out[p.ofs..p.ofs + p.len];
    }
  }

  /** The bytes from a place on, as data. */
  ghost function DataFrom(out: seq<Octet>, ofs: nat, n: nat): (d: seq<Byte>)
    requires ofs + n <= |out|
    ensures |d| == n
  {
    seq(n, i requires 0 <= i < n => if out[ofs + i].Data? then out[ofs + i].value else 0)
  }

  /** The name of a directory entry stands behind its 40 bytes of header, the payload of an inode node behind
      its 68, and the totlen in the header counts both. */
  lemma NodeAt(out: seq<Octet>, ps: seq<Placed>, i: nat)
    requires Printed(out, ps) && i < |ps|
    ensures ps[i].ofs + ps[i].len <= |out|
    ensures ps[i].len > 0 ==> out[ps[i].ofs] == Head(ps[i].node, ps[i].len, 0)
    ensures ps[i].node.Cleanmarker? ==> ps[i].len >= 12 && Filler(out[ps[i].ofs + 12..ps[i].ofs + ps[i].len])
    ensures ps[i].node.Dirent? ==>
      var name := ps[i].node.name;
      ps[i].len == 40 + |name| && DataFrom(out, ps[i].ofs + 40, |name|) == name
    ensures ps[i].node.Inode? ==>
      var payload := ps[i].node.payload;
      ps[i].len == 68 + |payload| && DataFrom(out, ps[i].ofs + 68, |payload|) == payload
  {
    hide Printed, HeadBytes, DataBytes, DataFrom;
    PrintedIs(out, ps, i);
    var p := ps[i];
    match p.node {
      case Cleanmarker => MarkerAt(out, p.ofs, p.len);
      case Dirent(_, _, _, _, name) => BodyAt(out, p.ofs, p.len, p.node, name);
      case Inode(_, _, _, _, _, _, payload) => BodyAt(out, p.ofs, p.len, p.node, payload);
    }
  }

  lemma BodyAt(out: seq<Octet>, ofs: nat, len: nat, n: Node, body: seq<Byte>)
    requires ofs + len <= |out| && out[ofs..ofs + len] == HeadBytes(n, len) + DataBytes(body) && HeadLen(n) > 0
    ensures len == HeadLen(n) + |body| && out[ofs] == Head(n, len, 0)
    ensures DataFrom(out, ofs + HeadLen(n), |body|) == body
  {
    hide HeadLen;
    var there, h := out[ofs..ofs + len], HeadLen(n);
    assert there[0] == out[ofs];
    forall j | 0 <= j < |body| ensures out[ofs + h + j] == Data(body[j]) {
      assert there[h + j] == out[ofs + h + j];
    }
  }

  lemma MarkerAt(out: seq<Octet>, ofs: nat, len: nat)
    requires ofs + len <= |out| && out[ofs..ofs + len] == Bytes(Placed(ofs, len, Cleanmarker))
    ensures len >= 12 && out[ofs] == Head(Cleanmarker, len, 0) && Filler(out[ofs + 12..ofs + len])
  {
    var there := out[ofs..ofs + len];
    assert there[0] == out[ofs];
    assert out[ofs + 12..ofs + len] == there[12..];
  }

  /** Headers begin nowhere else. */
  lemma {:induction false} HeadIsNode(out: seq<Octet>, ps: seq<Placed>, x: nat)
    requires Printed(out, ps) && x < |out| && out[x].Head? && out[x].at == 0
    ensures exists i :: 0 <= i < |ps| && ps[i].ofs == x
    decreases |ps|
  {
    hide Filler, Bytes;
    assert out[0..] == out;
    if |ps| > 0 {
      var last := |ps| - 1;
      var p := ps[last];
      if x < p.ofs {
        HeadIsNode(out[..p.ofs], ps[..last], x);
        var i :| 0 <= i < last && ps[..last][i].ofs == x;
        assert ps[i].ofs == x;
      } else if x < p.ofs + p.len {
        assert out[p.ofs..p.ofs + p.len][x - p.ofs] == out[x];
        HeadFirst(p, x - p.ofs);
        assert ps[last].ofs == x;
      } else {
        FillerAt(out, p.ofs + p.len, x);
      }
    } else {
      FillerAt(out, 0, x);
    }
  }

  lemma HeadFirst(p: Placed, k: nat)
    requires k < |Bytes(p)| && Bytes(p)[k].Head? && Bytes(p)[k].at == 0
    ensures k == 0
  {
  }

  lemma FillerAt(out: seq<Octet>, k: nat, x: nat)
    requires k <= x < |out| && Filler(out[k..])
    ensures out[x] == Data(0xff)
  {
    assert out[k..][x - k] == out[x];
  }
}
