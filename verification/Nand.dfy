// A NAND flash device as nandwrite and nanddump see it through libmtd: eraseblocks of pages, some of
// them bad. Writes, erasures and queries may fail at any time.

module Nand {
  import opened Basics

  type Page = seq<Byte>

  function Ffs(n: nat): (p: Page)
    ensures |p| == n
  {
    seq(n, i => 0xff)
  }

  /** A file cut into pages, the last one filled up with 0xff. */
  ghost function Paged(file: seq<Byte>, size: nat): (ps: seq<Page>)
    requires size > 0
    ensures forall i :: 0 <= i < |ps| ==> |ps[i]| == size
    decreases |file|
  {
    if |file| == 0 then []
    else if |file| <= size then [file + Ffs(size - |file|)]
    else [file[..size]] + Paged(file[size..], size)
  }

  ghost function Flat(ps: seq<Page>): seq<Byte>
  {
    if |ps| == 0 then [] else ps[0] + Flat(ps[1..])
  }

  /** The pages hold the file, and less than a page of 0xff behind it. */
  lemma {:induction false} FlatPaged(file: seq<Byte>, size: nat)
    requires size > 0
    ensures |file| <= |Flat(Paged(file, size))| && Flat(Paged(file, size))[..|file|] == file
    ensures |Flat(Paged(file, size))| == size * |Paged(file, size)| < |file| + size
    ensures forall k :: |file| <= k < |Flat(Paged(file, size))| ==> Flat(Paged(file, size))[k] == 0xff
    decreases |file|
  {
    var ps := Paged(file, size);
    if |file| > size {
      FlatPaged(file[size..], size);
      assert ps[1..] == Paged(file[size..], size);
      assert file == file[..size] + file[size..];
    } else if |file| > 0 {
      assert Flat(ps[1..]) == [];
    }
  }

  lemma {:induction false} FlatAppend(a: seq<Page>, b: seq<Page>)
    ensures Flat(a + b) == Flat(a) + Flat(b)
  {
    if |a| == 0 {
      assert a + b == b;
    } else {
      FlatAppend(a[1..], b);
      assert (a + b)[1..] == a[1..] + b && (a + b)[0] == a[0];
      assert a[0] + (Flat(a[1..]) + Flat(b)) == a[0] + Flat(a[1..]) + Flat(b);
    }
  }

  /* ------------------------------------------------------------ addresses */

  /** A page address splits into the eraseblock and the page in it. */
  lemma Split(addr: nat, eb: nat, b: nat, r: nat)
    requires r < eb && addr == b * eb + r
    ensures addr / eb == b && addr % eb == r
  {
    var q, s := addr / eb, addr % eb;
    assert addr == q * eb + s;
    assert (q - b) * eb == r - s;
    MultipleBelow(q - b, eb);
  }

  lemma PageInBlock(page: nat, per: nat, q: nat)
    requires page > 0 && q < per
    ensures q * page + page <= per * page && (q * page) / page == q
  {
    assert (q + 1) * page <= per * page by {
      assert (per - q - 1) * page >= 0;
    }
    Split(q * page, page, q, 0);
  }

  lemma Distribute(x: int, m: int)
    ensures (x + 1) * m == x * m + m
  {
  }

  lemma Below(b: nat, n: nat, m: nat)
    requires b < n
    ensures b * m + m <= n * m
  {
    assert (n - b - 1) * m >= 0;
    assert (n - b - 1) * m == n * m - b * m - m;
  }

  /* ------------------------------------------------------------ the device */

  datatype Outcome = Ok | Eio | Error

  /** The pages of the good blocks from number b up to e, in order. */
  ghost function Good(data: seq<seq<Page>>, bad: seq<bool>, b: nat, e: nat): seq<Page>
    requires b <= e <= |data| == |bad|
    decreases e - b
  {
    if b == e then [] else Good(data, bad, b, e - 1) + if bad[e - 1] then [] else data[e - 1]
  }

  lemma {:induction false} GoodPrefix(data: seq<seq<Page>>, bad: seq<bool>, b: nat, e: nat, f: nat)
    requires b <= e <= f <= |data| == |bad|
    ensures Good(data, bad, b, e) <= Good(data, bad, b, f)
    decreases f
  {
    if e < f {
      GoodPrefix(data, bad, b, e, f - 1);
    }
  }

  lemma {:induction false} GoodSplit(data: seq<seq<Page>>, bad: seq<bool>, b: nat, m: nat, e: nat)
    requires b <= m <= e <= |data| == |bad|
    ensures Good(data, bad, b, e) == Good(data, bad, b, m) + Good(data, bad, m, e)
    decreases e
  {
    if m < e {
      GoodSplit(data, bad, b, m, e - 1);
    }
  }

  /** How much room there is depends only on which blocks are bad. */
  lemma {:induction false} GoodRoom(data: seq<seq<Page>>, data': seq<seq<Page>>, bad: seq<bool>, b: nat, e: nat,
    per: nat)
    requires b <= e <= |data| == |bad| == |data'|
    requires forall i :: 0 <= i < |data| ==> |data[i]| == |data'[i]| == per
    ensures |Good(data, bad, b, e)| == |Good(data', bad, b, e)|
    decreases e
  {
    if b < e {
      GoodRoom(data, data', bad, b, e - 1, per);
    }
  }

  /** Only the blocks in the range matter. */
  lemma {:induction false} GoodSame(data: seq<seq<Page>>, bad: seq<bool>, data': seq<seq<Page>>,
    bad': seq<bool>, b: nat, e: nat)
    requires b <= e <= |data| == |bad| == |data'| == |bad'|
    requires forall i :: b <= i < e ==> data[i] == data'[i] && bad[i] == bad'[i]
    ensures Good(data, bad, b, e) == Good(data', bad', b, e)
    decreases e
  {
    if b < e {
      GoodSame(data, bad, data', bad', b, e - 1);
    }
  }

  class Device {
    const page: nat
    const perBlock: nat
    var data: seq<seq<Page>>
    var bad: seq<bool>
    /** Some call has failed for another reason than a failing write. */
    ghost var trouble: bool
    /** The blocks in which writes have failed, one after the other. */
    ghost var eios: seq<nat>

    ghost predicate Shaped(data: seq<seq<Page>>, bad: seq<bool>)
    {
      && page > 0 && perBlock > 0 && |data| == |bad|
      && (forall b :: 0 <= b < |data| ==> |data[b]| == perBlock)
      && (forall b, q :: 0 <= b < |data| && 0 <= q < perBlock ==> |data[b][q]| == page)
    }

    ghost predicate Valid()
      reads this`data, this`bad
    {
      Shaped(data, bad)
    }

    function EbSize(): nat
    {
      perBlock * page
    }

    /** The block of an address, the offset in it, and the page of an offset. */
    function BlockOf(ofs: int): int
      requires page > 0 && perBlock > 0
    {
      PageInBlock(page, perBlock, 0);
      ofs / EbSize()
    }

    function Within(ofs: int): int
      requires page > 0 && perBlock > 0
    {
      PageInBlock(page, perBlock, 0);
      ofs % EbSize()
    }

    function PageOf(offs: int): int
      requires page > 0
    {
      offs / page
    }

    function Size(): nat
      reads this`data, this`bad
    {
      |data| * EbSize()
    }

    /** mtd_is_bad(). */
    method IsBad(eb: int) returns (ret: int)
      requires Valid()
      modifies this`trouble
      ensures ret == -1 || ret == 0 || ret == 1
      ensures ret >= 0 ==> 0 <= eb < |bad| && bad[eb] == (ret == 1)
      ensures ret < 0 ==> trouble || !(0 <= eb < |bad|)
      ensures old(trouble) ==> trouble
    {
      var fails: bool := *;
      trouble := trouble || fails;
      if eb < 0 || eb >= |bad| || fails {
        return -1;
      }
      ret := if bad[eb] then 1 else 0;
    }

    /** mtd_write() of one page: only an erased page takes the new contents, and a failed write leaves
        anything behind. */
    method Write(eb: nat, offs: int, p: Page) returns (out: Outcome)
      requires Valid() && eb < |data| && 0 <= PageOf(offs) < perBlock && |p| == page
      modifies this`data, this`trouble, this`eios
      ensures Valid() && |data| == |old(data)| && (out == Error || old(trouble) ==> trouble)
      ensures eios == old(eios) + if out == Eio then [eb] else []
      ensures forall b :: 0 <= b < |data| && b != eb ==> data[b] == old(data[b])
      ensures forall q :: 0 <= q < perBlock && q != PageOf(offs) ==> data[eb][q] == old(data[eb][q])
      ensures out == Ok && old(data[eb][PageOf(offs)]) == Ffs(page) ==> data[eb][PageOf(offs)] == p
    {
      out := *;
      var now: Page :| |now| == page by {
        assert |Ffs(page)| == page;
      }
      if out == Ok && data[eb][PageOf(offs)] == Ffs(page) {
        now := p;
      }
      data := data[eb := data[eb][PageOf(offs) := now]];
      trouble := trouble || out == Error;
      eios := eios + if out == Eio then [eb] else [];
    }

    /** mtd_erase_multi() of one block. */
    method Erase(eb: nat) returns (out: Outcome)
      requires Valid() && eb < |data|
      modifies this`data, this`trouble
      ensures Valid() && |data| == |old(data)| && (out == Error || old(trouble) ==> trouble)
      ensures forall b :: 0 <= b < |data| && b != eb ==> data[b] == old(data[b])
    {
      out := *;
      var now: Page :| |now| == page by {
        assert |Ffs(page)| == page;
      }
      data := data[eb := seq(perBlock, i => if out == Ok then Ffs(page) else now)];
      trouble := trouble || out == Error;
    }

    /** mtd_mark_bad(). */
    method MarkBad(eb: nat) returns (ok: bool)
      requires Valid() && eb < |bad|
      modifies this`bad, this`trouble
      ensures Valid() && bad == if ok then old(bad)[eb := true] else old(bad)
      ensures !ok || old(trouble) ==> trouble
    {
      ok := *;
      if ok {
        bad := bad[eb := true];
      }
      trouble := trouble || !ok;
    }

    /** mtd_read() of one page. */
    method Read(eb: nat, offs: int) returns (ok: bool, p: Page)
      requires Valid() && eb < |data| && 0 <= PageOf(offs) < perBlock
      modifies this`trouble
      ensures ok ==> p == data[eb][PageOf(offs)]
      ensures !ok || old(trouble) ==> trouble
    {
      ok := *;
      p := data[eb][PageOf(offs)];
      trouble := trouble || !ok;
    }
  }
}
