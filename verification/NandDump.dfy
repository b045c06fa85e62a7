// nand-utils/nanddump.c: the loop that dumps a device page by page, without OOB data, leaving out bad
// blocks (skipbad, not continuous).

module NandDump {
  import opened Basics
  import opened Nand

  /** What there is to read from block first on: the good blocks, in order. */
  ghost function Contents(nand: Device, first: nat): seq<Page>
    requires nand.Valid() && first <= |nand.data|
    reads nand`data, nand`bad
  {
    Good(nand.data, nand.bad, first, |nand.data|)
  }

  ghost function Min(a: int, b: int): int
  {
    if a < b then a else b
  }

  /** How far the dump has got: page q of block b comes next, and out holds all the pages before it. */
  ghost predicate Upto(nand: Device, first: nat, b: nat, q: nat, out: seq<Byte>)
    requires nand.Valid()
    reads nand`data, nand`bad
  {
    && first <= b <= |nand.data| && q < nand.perBlock
    && (q > 0 ==> b < |nand.data| && !nand.bad[b])
    && out == Flat(Good(nand.data, nand.bad, first, b) + (if q > 0 then nand.data[b][..q] else []))
  }

  lemma Skipped(nand: Device, first: nat, b: nat, out: seq<Byte>)
    requires nand.Valid() && Upto(nand, first, b, 0, out) && b < |nand.data| && nand.bad[b]
    ensures Upto(nand, first, b + 1, 0, out)
  {
    hide Flat;
    var g := Good(nand.data, nand.bad, first, b);
    assert g + [] == g;
    assert Good(nand.data, nand.bad, first, b + 1) + [] == g;
  }

  lemma ReadOne(nand: Device, first: nat, b: nat, q: nat, out: seq<Byte>)
    requires nand.Valid() && Upto(nand, first, b, q, out) && b < |nand.data| && !nand.bad[b]
    ensures q + 1 < nand.perBlock ==> Upto(nand, first, b, q + 1, out + nand.data[b][q])
    ensures q + 1 == nand.perBlock ==> Upto(nand, first, b + 1, 0, out + nand.data[b][q])
  {
    var g, block := Good(nand.data, nand.bad, first, b), nand.data[b];
    FlatAppend(g + block[..q], [block[q]]);
    assert Flat([block[q]]) == block[q];
    hide Flat;
    assert g + block[..q] + [block[q]] == g + block[..q + 1];
    assert q == 0 ==> g + block[..0] == g + [];
    if q + 1 == nand.perBlock {
      assert block[..q + 1] == block;
      assert Good(nand.data, nand.bad, first, b + 1) + [] == g + block;
    }
  }

  /** What has been read is the beginning of what there is to read. */
  lemma IsPrefix(nand: Device, first: nat, b: nat, q: nat, out: seq<Byte>)
    requires nand.Valid() && Upto(nand, first, b, q, out)
    ensures out <= Flat(Contents(nand, first))
    ensures b == |nand.data| ==> out == Flat(Contents(nand, first))
  {
    hide Flat;
    var g, n := Good(nand.data, nand.bad, first, b), |nand.data|;
    var all := Contents(nand, first);
    GoodPrefix(nand.data, nand.bad, first, b, n);
    var read := g + (if q > 0 then nand.data[b][..q] else []);
    if q > 0 {
      GoodPrefix(nand.data, nand.bad, first, b + 1, n);
    }
    assert read <= all;
    FlatAppend(read, all[|read|..]);
    assert all == read + all[|read|..];
    if b == n {
      assert read == all;
    }
  }

  /** Where the block of an address begins. */
  function BlockStart(nand: Device, ofs: nat): nat
    requires nand.page > 0 && nand.perBlock > 0
  {
    PageInBlock(nand.page, nand.perBlock, 0);
    ofs - ofs % nand.EbSize()
  }

  /** The address of page q in block b. */
  ghost function PageAddr(nand: Device, b: nat, q: nat): nat
  {
    b * nand.EbSize() + q * nand.page
  }

  /** mtd_is_bad() and mtd_read() for the block and page of an address. */
  method IsBadAt(nand: Device, ofs: nat, ghost b: nat, ghost q: nat) returns (ret: int)
    requires nand.Valid() && b < |nand.data| && q < nand.perBlock && ofs == PageAddr(nand, b, q)
    modifies nand`trouble
    ensures ret == -1 || ret == 0 || ret == 1
    ensures (ret >= 0 ==> nand.bad[b] == (ret == 1)) && (ret < 0 ==> nand.trouble)
  {
    Address(nand, b, q, ofs);
    ret := nand.IsBad(nand.BlockOf(ofs));
  }

  method ReadAt(nand: Device, ofs: nat, ghost b: nat, ghost q: nat) returns (ok: bool, p: Page)
    requires nand.Valid() && b < |nand.data| && q < nand.perBlock && ofs == PageAddr(nand, b, q)
    modifies nand`trouble
    ensures (ok ==> p == nand.data[b][q]) && (!ok ==> nand.trouble)
  {
    Address(nand, b, q, ofs);
    ok, p := nand.Read(nand.BlockOf(ofs), nand.Within(ofs));
  }

  /** The arithmetic of page addresses. */
  lemma Address(nand: Device, b: nat, q: nat, ofs: nat)
    requires nand.Valid() && b <= |nand.data| && q < nand.perBlock && (b == |nand.data| ==> q == 0)
    requires ofs == b * nand.EbSize() + q * nand.page
    ensures nand.EbSize() > 0 && ofs / nand.EbSize() == b && ofs % nand.EbSize() == q * nand.page
    ensures (ofs % nand.EbSize()) / nand.page == q && ofs - ofs % nand.EbSize() == b * nand.EbSize()
    ensures ofs + nand.page == b * nand.EbSize() + (q + 1) * nand.page
    ensures q + 1 == nand.perBlock ==> ofs + nand.page == (b + 1) * nand.EbSize()
    ensures b < |nand.data| ==> ofs + nand.page <= nand.Size()
    ensures b == |nand.data| ==> ofs == nand.Size()
    ensures nand.page <= nand.EbSize() && b * nand.EbSize() + nand.EbSize() == (b + 1) * nand.EbSize()
  {
    var eb, per, page, n := nand.EbSize(), nand.perBlock, nand.page, |nand.data|;
    PageInBlock(page, per, q);
    PageInBlock(page, per, 0);
    hide Device.EbSize;
    Split(ofs, eb, b, q * page);
    Distribute(b, eb);
    Distribute(q, page);
    if b < n {
      Below(b, n, eb);
    }
  }

  /** The state of the loop at its head, before the last, cut page. */
  ghost predicate Reading(nand: Device, first: nat, length: nat, b: nat, q: nat, ofs: nat, endAddr: nat, want: nat,
    out: seq<Byte>)
    requires nand.Valid()
    reads nand`data, nand`bad
  {
    && Upto(nand, first, b, q, out)
    && ofs == b * nand.EbSize() + q * nand.page
    && endAddr == Min(nand.Size(), ofs + want - |out|)
    && |out| <= want && (if length == 0 then endAddr == nand.Size() else want == length)
  }

  /** The result of the dump. */
  ghost predicate Dumped(nand: Device, first: nat, length: nat, out: seq<Byte>)
    requires nand.Valid() && first <= |nand.data|
    reads nand`data, nand`bad
  {
    var all := Flat(Contents(nand, first));
    out <= all && |out| == if length == 0 then |all| else Min(length, |all|)
  }

  lemma Stopped(nand: Device, first: nat, length: nat, b: nat, q: nat, ofs: nat, endAddr: nat, want: nat,
    out: seq<Byte>)
    requires nand.Valid() && first <= |nand.data|
    requires Reading(nand, first, length, b, q, ofs, endAddr, want, out) && ofs >= endAddr
    ensures Dumped(nand, first, length, out)
  {
    hide Flat, Good, Device.EbSize, Device.Size;
    Address(nand, b, q, ofs);
    IsPrefix(nand, first, b, q, out);
  }

  lemma CutPage(nand: Device, first: nat, length: nat, b: nat, q: nat, ofs: nat, endAddr: nat, want: nat,
    out: seq<Byte>)
    requires nand.Valid() && first <= |nand.data|
    requires Reading(nand, first, length, b, q, ofs, endAddr, want, out) && b < |nand.data| && !nand.bad[b]
    requires ofs < endAddr < ofs + nand.page
    ensures Dumped(nand, first, length, out + nand.data[b][q][..endAddr - ofs])
  {
    hide Flat, Good, Device.EbSize, Device.Size;
    Address(nand, b, q, ofs);
    ReadOne(nand, first, b, q, out);
    var more := out + nand.data[b][q];
    if q + 1 < nand.perBlock {
      IsPrefix(nand, first, b, q + 1, more);
    } else {
      IsPrefix(nand, first, b + 1, 0, more);
    }
    assert out + nand.data[b][q][..endAddr - ofs] <= more;
  }

  lemma SkipStep(nand: Device, first: nat, length: nat, b: nat, ofs: nat, endAddr: nat, want: nat, out: seq<Byte>)
    requires nand.Valid() && Reading(nand, first, length, b, 0, ofs, endAddr, want, out)
    requires b < |nand.data| && nand.bad[b]
    ensures var end := Min(nand.Size(), endAddr + nand.EbSize());
      Reading(nand, first, length, b + 1, 0, ofs + nand.EbSize(), end, want, out)
  {
    hide Device.EbSize, Device.Size;
    Skipped(nand, first, b, out);
    Address(nand, b, 0, ofs);
    hide Upto;
  }

  lemma ReadStep(nand: Device, first: nat, length: nat, b: nat, q: nat, ofs: nat, endAddr: nat, want: nat,
    out: seq<Byte>)
    requires nand.Valid() && Reading(nand, first, length, b, q, ofs, endAddr, want, out)
    requires b < |nand.data| && !nand.bad[b]
    requires ofs + nand.page <= endAddr
    ensures var full, more := q + 1 == nand.perBlock, out + nand.data[b][q];
      var b', q' := if full then b + 1 else b, if full then 0 else q + 1;
      Reading(nand, first, length, b', q', ofs + nand.page, endAddr, want, more)
  {
    hide Device.EbSize, Device.Size;
    ReadOne(nand, first, b, q, out);
    Address(nand, b, q, ofs);
    hide Upto;
  }

  lemma Bounds(nand: Device, first: nat, length: nat, b: nat, q: nat, ofs: nat, endAddr: nat, want: nat, out: seq<Byte>)
    requires nand.Valid() && Reading(nand, first, length, b, q, ofs, endAddr, want, out)
    ensures b <= |nand.data| && q < nand.perBlock && (q > 0 ==> !nand.bad[b]) && (ofs < endAddr ==> b < |nand.data|)
    ensures ofs == PageAddr(nand, b, q) && endAddr <= nand.Size() && BlockStart(nand, ofs) == PageAddr(nand, b, 0)
    ensures PageAddr(nand, b, 0) < PageAddr(nand, b + 1, 0) && nand.page <= nand.EbSize()
  {
    hide Good, Flat, Device.EbSize, Device.Size;
    Address(nand, b, q, ofs);
  }

  lemma Begin(nand: Device, first: nat, length: nat, start: nat)
    requires nand.Valid() && first <= |nand.data| && start == first * nand.EbSize()
    ensures start <= nand.Size()
    ensures Reading(nand, first, length, first, 0, start,
      if length != 0 && start + length <= nand.Size() then start + length else nand.Size(),
      if length == 0 then nand.Size() - start else length, [])
  {
    Address(nand, first, 0, start);
  }

  /** The dump gives the first length bytes of what there is to read, or all of it if there is less. */
  method Dump(nand: Device, start: nat, length: nat, ghost first: nat) returns (ok: bool, out: seq<Byte>)
    requires nand.Valid() && first <= |nand.data| && start == first * nand.EbSize()
    modifies nand`trouble
    ensures ok || nand.trouble
    ensures ok ==> Dumped(nand, first, length, out)
  {
    hide Good, Flat, Reading, Dumped, PageAddr, BlockStart, Device.EbSize, Device.Size;
    out, ok := [], false;
    var size := nand.Size();
    Begin(nand, first, length, start);
    var endAddr: nat := if length != 0 && start + length <= size then start + length else size;
    var ofs: nat, blockstart, firstblock, badblock := start, 1, true, 0;
    ghost var b: nat, q: nat, want: nat := first, 0, if length == 0 then size - start else length;
    while ofs < endAddr
      invariant Reading(nand, first, length, b, q, ofs, endAddr, want, out)
      invariant q > 0 ==> blockstart == PageAddr(nand, b, 0) && !firstblock && badblock == 0
      invariant q == 0 ==> firstblock || blockstart < PageAddr(nand, b, 0)
      decreases size - ofs
    {
      Bounds(nand, first, length, b, q, ofs, endAddr, want, out);
      var sizeLeft := endAddr - ofs;
      if blockstart != BlockStart(nand, ofs) || firstblock {
        blockstart, firstblock := BlockStart(nand, ofs), false;
        badblock := IsBadAt(nand, ofs, b, q);
        if badblock < 0 {
          return;
        }
      }
      var bs := nand.page;
      if badblock != 0 {
        SkipStep(nand, first, length, b, ofs, endAddr, want, out);
        endAddr := endAddr + nand.EbSize();
        ofs := ofs + nand.EbSize() - nand.page;
        if endAddr > size {
          endAddr := size;
        }
        b := b + 1;
      } else {
        var good, p := ReadAt(nand, ofs, b, q);
        if !good {
          return;
        }
        if sizeLeft < bs {
          CutPage(nand, first, length, b, q, ofs, endAddr, want, out);
          return true, out + p[..sizeLeft];
        }
        ReadStep(nand, first, length, b, q, ofs, endAddr, want, out);
        out := out + p;
        if q + 1 == nand.perBlock {
          b := b + 1;
          q := 0;
        } else {
          q := q + 1;
        }
      }
      ofs := ofs + bs;
    }
    Stopped(nand, first, length, b, q, ofs, endAddr, want, out);
    ok := true;
  }
}
