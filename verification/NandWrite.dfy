// nand-utils/nandwrite.c: the main loop for a file, without OOB data and with blockalign 1. Pages go
// to the good blocks in order; when a write fails, the block is erased and marked bad, and what it was
// to hold is replayed from the buffer into the next good block.

module NandWrite {
  import opened Basics
  import opened Nand

  /** How a round of the main loop ends. */
  datatype Next = Again | End | Fail

  class Writer {
    const nand: Device
    const pad: bool
    const skipAllFfs: bool
    var mtdoffset: nat
    var blockstart: int
    /** filebuf: the pages of the file that belong to the current block. */
    var filebuf: seq<Page>
    /** writebuf as a number of pages into filebuf; -1 is NULL. */
    var writebuf: int
    /** What is left to read of the input, imglen bytes. */
    var rest: seq<Byte>
    var imglen: int

    ghost const first: nat
    ghost const file: seq<Byte>
    /** The device before the run. */
    ghost const data0: seq<seq<Page>>
    ghost const bad0: seq<bool>
    ghost const eios0: seq<nat>
    /** The block that mtdoffset is in. */
    ghost var cur: nat
    /** Reading the input has failed. */
    ghost var inputTrouble: bool

    constructor (nand: Device, file: seq<Byte>, start: nat, pad: bool, skipAllFfs: bool, ghost first: nat)
      requires nand.Valid() && first <= |nand.data| && start == first * nand.EbSize()
      requires Blank(nand.data, nand.bad, nand.page, first)
      ensures this.nand == nand && this.pad == pad && this.skipAllFfs == skipAllFfs
      ensures this.file == file && this.first == first
      ensures data0 == nand.data && bad0 == nand.bad && eios0 == nand.eios
      ensures mtdoffset == start && imglen == |file| && Boundary() && cur == first && !inputTrouble
    {
      this.nand, this.pad, this.skipAllFfs := nand, pad, skipAllFfs;
      mtdoffset, blockstart, filebuf, writebuf := start, -1, [], -1;
      rest, imglen := file, |file|;
      this.first, this.file, cur := first, file, first;
      data0, bad0, eios0, inputTrouble := nand.data, nand.bad, nand.eios, false;
      assert nand.eios[|nand.eios|..] == [];
    }

    /** The blocks in which writes have failed in this run. */
    ghost function Failed(): seq<nat>
      reads nand`eios
    {
      if eios0 <= nand.eios then nand.eios[|eios0|..] else []
    }

    /** Bad are the blocks that were, and those in which writes have failed. */
    ghost predicate Marked()
      reads nand`bad, nand`eios
    {
      eios0 <= nand.eios && SameBad(bad0, nand.bad, Failed())
    }

    /** A write in block cur has just failed, and the blocks were as marked before. */
    ghost predicate JustFailed(bad: seq<bool>)
      reads this`cur, nand`eios
    {
      && eios0 <= nand.eios && |Failed()| > 0 && Failed()[|Failed()| - 1] == cur
      && SameBad(bad0, bad, Failed()[..|Failed()| - 1])
    }

    lemma MarkedAfter(bad: seq<bool>)
      requires JustFailed(bad) && cur < |bad| && nand.bad == bad[cur := true]
      ensures Marked()
    {
      var f := Failed();
      assert f == f[..|f| - 1] + [cur];
    }

    lemma MarkedIs()
      requires Marked()
      ensures eios0 <= nand.eios && SameBad(bad0, nand.bad, nand.eios[|eios0|..])
    {
    }

    lemma FailedNext(before: seq<nat>, bad: seq<bool>)
      requires eios0 <= before && SameBad(bad0, bad, before[|eios0|..]) && nand.bad == bad
      ensures nand.eios == before ==> Marked()
      ensures nand.eios == before + [cur] ==> JustFailed(bad)
    {
      if nand.eios == before + [cur] {
        assert Failed() == before[|eios0|..] + [cur];
        assert Failed()[..|Failed()| - 1] == before[|eios0|..];
      }
    }

    /** What is known at any time, with these contents of the device, this buffer and writebuf, and this block. */
    ghost predicate SaneIn(data: seq<seq<Page>>, bad: seq<bool>, buf: seq<Page>, w: int, c: nat)
      reads this`rest, this`imglen
    {
      && nand.Shaped(data, bad) && first <= c <= |data| && |buf| <= nand.perBlock && imglen == |rest|
      && (forall i :: 0 <= i < |buf| ==> |buf[i]| == nand.page)
      && Spared(data0, bad0, data, bad, first)
      && w >= -1 && (w == -1 ==> rest == file && |buf| == 0)
      && (WholePages(|file|, nand.page) ==> WholePages(|rest|, nand.page))
    }

    ghost predicate AtStartIn(data: seq<seq<Page>>, bad: seq<bool>, buf: seq<Page>, w: int, ofs: nat, c: nat)
      reads this`rest, this`imglen
    {
      && SaneIn(data, bad, buf, w, c)
      && ofs == c * nand.EbSize() && Blank(data, bad, nand.page, c)
      && Paged(file, nand.page) == Good(data, bad, first, c)
        + (if w == 0 then buf else []) + Paged(rest, nand.page)
      && (w > 0 ==> w >= |buf|)
    }

    ghost predicate HereIn(data: seq<seq<Page>>, bad: seq<bool>, w: int, ofs: nat, c: nat)
      reads this`filebuf, this`rest, this`imglen, this`blockstart
    {
      && SaneIn(data, bad, filebuf, w, c) && c < |data| && !bad[c]
      && blockstart == c * nand.EbSize()
      && 0 <= w < nand.perBlock && w <= |filebuf|
      && ofs == blockstart + w * nand.page
      && Blank(data, bad, nand.page, c + 1)
      && Paged(file, nand.page) == Good(data, bad, first, c) + filebuf + Paged(rest, nand.page)
    }

    /** At the start of block cur: either the buffer is to be replayed there, or it is used up. */
    ghost predicate AtStart()
      reads this, nand`data, nand`bad, nand`eios
    {
      Marked() && AtStartIn(nand.data, nand.bad, filebuf, writebuf, mtdoffset, cur)
    }

    /** About to enter block cur. */
    ghost predicate Boundary()
      reads this, nand`data, nand`bad, nand`eios
    {
      AtStart() && blockstart != mtdoffset
    }

    /** In the block cur, at the page for writebuf. */
    ghost predicate Here()
      reads this, nand`data, nand`bad
    {
      HereIn(nand.data, nand.bad, writebuf, mtdoffset, cur)
    }

    /** Inside the good block cur: the first writebuf pages of the buffer are written. */
    ghost predicate Inside()
      reads this, nand`data, nand`bad, nand`eios
    {
      && Here() && Marked()
      && nand.data[cur][..writebuf] == filebuf[..writebuf]
      && (forall q :: writebuf <= q < nand.perBlock ==> nand.data[cur][q] == Ffs(nand.page))
    }

    lemma HereAddress()
      requires Here()
      ensures nand.Valid() && nand.BlockOf(mtdoffset) == cur && nand.Within(mtdoffset) == writebuf * nand.page
      ensures nand.PageOf(nand.Within(mtdoffset)) == writebuf
    {
      hide Paged, Good, Blank, Spared, WholePages;
      PageInBlock(nand.page, nand.perBlock, writebuf);
      Split(mtdoffset, nand.EbSize(), cur, writebuf * nand.page);
    }

    lemma StartAddress()
      requires AtStart()
      ensures nand.Valid() && nand.EbSize() > 0 && nand.BlockOf(mtdoffset) == cur && nand.Within(mtdoffset) == 0
      ensures cur <= |nand.data| == |nand.bad|
      ensures mtdoffset < nand.Size() <==> cur < |nand.data|
      ensures mtdoffset + nand.EbSize() == (cur + 1) * nand.EbSize() != mtdoffset
    {
      hide Paged, Good, Blank, Spared, WholePages;
      PageInBlock(nand.page, nand.perBlock, 0);
      var eb, n := nand.EbSize(), |nand.data|;
      hide Device.EbSize;
      Split(mtdoffset, eb, cur, 0);
      Distribute(cur, eb);
      if cur < n {
        Below(cur, n, eb);
      }
    }

    lemma Arrive()
      requires AtStart() && cur < |nand.data| && !nand.bad[cur] && writebuf == 0 && blockstart == mtdoffset
      ensures Inside()
    {
      hide Paged, Good, Marked;
    }

    /** A buffer that is not to be replayed is used up. */
    lemma BufferDropped(buf: seq<Page>, w: int)
      requires AtStartIn(nand.data, nand.bad, buf, w, mtdoffset, cur) && w != 0
      ensures AtStartIn(nand.data, nand.bad, [], 0, mtdoffset, cur)
    {
      hide Paged, Good, Blank, Spared, WholePages;
    }

    /** A bad block adds nothing to what can be read back. */
    lemma PassBad()
      requires AtStart() && cur < |nand.data| && nand.bad[cur]
      ensures AtStartIn(nand.data, nand.bad, filebuf, writebuf, mtdoffset + nand.EbSize(), cur + 1)
      ensures mtdoffset + nand.EbSize() <= nand.Size()
    {
      Distribute(cur, nand.EbSize());
      Below(cur, |nand.data|, nand.EbSize());
      hide Paged, Spared, WholePages;
    }

    /** The start of a round of the inner loop: a new buffer, unless there is something to replay. */
    method StartBlock()
      requires Boundary()
      modifies this`blockstart, this`filebuf, this`writebuf
      ensures AtStart() && blockstart == mtdoffset
      ensures writebuf == 0 && filebuf == if old(writebuf) == 0 then old(filebuf) else []
    {
      StartAddress();
      hide AtStartIn, Marked, Device.Within;
      blockstart := mtdoffset - nand.Within(mtdoffset);
      if writebuf != 0 {
        BufferDropped(filebuf, writebuf);
        filebuf, writebuf := [], 0;
      }
    }

    /** The end of a round for a bad block: on to the next one. */
    method SkipBlock() returns (ok: bool)
      requires AtStart() && blockstart == mtdoffset && cur < |nand.data| && nand.bad[cur]
      modifies this`mtdoffset, this`cur
      ensures ok && Boundary() && cur == old(cur) + 1 && mtdoffset > old(mtdoffset)
    {
      StartAddress();
      PassBad();
      hide AtStartIn, Marked, Device.EbSize, Device.Size;
      mtdoffset := blockstart + nand.EbSize();
      cur := cur + 1;
      ok := !(mtdoffset > nand.Size());
    }

    /** One round of the inner loop: look at the block that mtdoffset is in. */
    method TryBlock() returns (ok: bool)
      requires Boundary()
      modifies this`blockstart, this`filebuf, this`writebuf, this`mtdoffset, this`cur, nand`trouble
      ensures mtdoffset >= old(mtdoffset)
      ensures ok ==> (Inside() && cur == old(cur)) || (Boundary() && cur == old(cur) + 1)
      ensures !ok ==> nand.trouble || (AtStart() && cur == |nand.data|)
      ensures writebuf == 0 && filebuf == if old(writebuf) == 0 then old(filebuf) else []
    {
      StartBlock();
      StartAddress();
      hide AtStart, Inside, Boundary, Device.BlockOf;
      var ret := nand.IsBad(nand.BlockOf(blockstart));
      if ret < 0 {
        return false;
      }
      if ret == 1 {
        ok := SkipBlock();
      } else {
        Arrive();
        ok := true;
      }
    }

    /** The inner loop: go to the next block that is not bad, with a fresh buffer unless there is
        something to replay. */
    method EnterBlock() returns (ok: bool)
      requires Boundary() || Inside()
      modifies this`blockstart, this`filebuf, this`writebuf, this`mtdoffset, this`cur, nand`trouble
      ensures ok ==> Inside() && mtdoffset >= old(mtdoffset)
      ensures !ok ==> nand.trouble || (AtStart() && cur == |nand.data| && writebuf == 0)
      ensures !ok && !nand.trouble ==> Marked() && nand.Valid()
      ensures !ok && !nand.trouble && old(writebuf) == 0 ==> filebuf == old(filebuf)
      ensures old(Inside()) ==> ok
    {
      hide Boundary, Inside, AtStart, Device.EbSize, Device.Within, Marked;
      WhichPhase();
      while blockstart != mtdoffset - nand.Within(mtdoffset)
        invariant Boundary() || Inside()
        invariant cur <= |nand.data| && nand.page > 0 && nand.perBlock > 0
        invariant old(Inside()) ==> Inside()
        invariant mtdoffset >= old(mtdoffset) && (old(writebuf) == 0 ==> writebuf == 0 && filebuf == old(filebuf))
        decreases |nand.data| - cur, if Inside() then 0 else 1
      {
        WhichPhase();
        ok := TryBlock();
        if !ok {
          if !nand.trouble {
            AtStartMarked();
          }
          return;
        }
        WhichPhase();
      }
      WhichPhase();
      ok := true;
    }

    lemma AtStartMarked()
      requires AtStart()
      ensures Marked() && nand.Valid()
    {
    }

    lemma WhichPhase()
      requires Boundary() || Inside()
      ensures cur <= |nand.data| && nand.page > 0 && nand.perBlock > 0
      ensures Inside() <==> blockstart == mtdoffset - nand.Within(mtdoffset)
    {
      if Inside() {
        HereAddress();
      } else {
        StartAddress();
      }
    }

    /** Read up to n bytes of the input, in as many pieces as read() likes. */
    method ReadInput(n: nat) returns (ok: bool, got: seq<Byte>)
      modifies this`rest, this`inputTrouble
      ensures got + rest == old(rest) && |got| <= n
      ensures ok ==> |got| == n || rest == []
      ensures !ok ==> inputTrouble
    {
      got, ok := [], true;
      while |got| < n
        invariant got + rest == old(rest) && |got| <= n
        decreases n - |got|
      {
        var fails: bool := *;
        if fails {
          inputTrouble := true;
          return false, got;
        }
        if |rest| == 0 {
          break;
        }
        var cnt: nat :| 0 < cnt <= |rest| && cnt <= n - |got| by {
          assert 0 < 1 <= |rest| && 1 <= n - |got|;
        }
        got, rest := got + rest[..cnt], rest[cnt..];
      }
    }

    /** Have a page to write in the buffer; end says that there is none. */
    method FillBuffer() returns (ok: bool, end: bool)
      requires Inside()
      modifies this`filebuf, this`rest, this`imglen, this`inputTrouble
      ensures !ok ==> inputTrouble || (!pad && !WholePages(|file|, nand.page))
      ensures ok ==> Inside() && (if end then |rest| == 0 && writebuf == |filebuf| else writebuf < |filebuf|)
    {
      hide Paged, Good, Spared, Blank, Device.EbSize, WholePages, Marked;
      ok, end := true, false;
      if writebuf + 1 > |filebuf| {
        ghost var before := rest;
        var got: seq<Byte>;
        ok, got := ReadInput(nand.page);
        if !ok {
          return;
        }
        if |got| == 0 {
          end := true;
          assert rest == before;
          return;
        }
        ShorterRest(|before|, |got|, nand.page);
        if |got| < nand.page && !pad {
          return false, end;
        }
        NextPage(before, got, rest, nand.page);
        var p := got + Ffs(nand.page - |got|);
        Regroup(Good(nand.data, nand.bad, first, cur), filebuf, p, Paged(rest, nand.page));
        filebuf := filebuf + [p];
        imglen := imglen - |got|;
      }
    }

    lemma Regroup(g: seq<Page>, buf: seq<Page>, p: Page, more: seq<Page>)
      ensures g + buf + ([p] + more) == g + (buf + [p]) + more
    {
    }

    lemma NextAddress()
      requires Here()
      ensures nand.EbSize() > 0 && blockstart + nand.EbSize() == (cur + 1) * nand.EbSize()
      ensures mtdoffset + nand.page == blockstart + (writebuf + 1) * nand.page <= blockstart + nand.EbSize()
      ensures writebuf + 1 == nand.perBlock ==> mtdoffset + nand.page == (cur + 1) * nand.EbSize()
    {
      hide Paged, Good, Blank, Spared, WholePages;
      PageInBlock(nand.page, nand.perBlock, writebuf);
    }

    /** The block is given up: its contents do not matter any more, and the buffer is to be replayed. */
    lemma GivenUp(data: seq<seq<Page>>, bad: seq<bool>, data': seq<seq<Page>>, w: nat, ofs: nat, c: nat)
      requires HereIn(data, bad, w, ofs, c) && nand.Shaped(data', bad) && |data'| == |data|
      requires forall i :: 0 <= i < |data| && i != c ==> data[i] == data'[i]
      ensures blockstart + nand.EbSize() >= 0
      ensures AtStartIn(data', bad[c := true], filebuf, 0, blockstart + nand.EbSize(), c + 1)
    {
      hide Paged, Good, Device.EbSize, Spared, Blank, WholePages;
      var bad' := bad[c := true];
      Distribute(c, nand.EbSize());
      Abandoned(data, bad, data', bad', first, c);
      StillSpared(data0, bad0, data, bad, data', bad', first, c);
      StillBlank(data, bad, data', bad', nand.page, c);
    }

    /** Erase the block and mark it bad. */
    method DiscardBlock() returns (ok: bool)
      requires Here()
      modifies nand`data, nand`bad, nand`trouble
      ensures !ok ==> nand.trouble
      ensures ok ==> nand.Shaped(nand.data, old(nand.bad)) && cur < |old(nand.bad)| == |old(nand.data)| == |nand.data|
      ensures ok ==> nand.bad == old(nand.bad)[cur := true]
      ensures ok ==> forall i :: 0 <= i < |nand.data| && i != cur ==> nand.data[i] == old(nand.data)[i]
    {
      BlockAddress();
      HereShape();
      hide Here, Device.BlockOf;
      var out := nand.Erase(nand.BlockOf(blockstart));
      if out == Error {
        return false;
      }
      ok := nand.MarkBad(nand.BlockOf(mtdoffset));
    }

    /** Give up on the block: erase it, mark it bad, and replay the buffer in the next one. */
    method Rewind() returns (ok: bool)
      requires Here() && JustFailed(nand.bad)
      modifies this`writebuf, this`mtdoffset, this`cur, nand`data, nand`bad, nand`trouble
      ensures ok ==> Boundary() && mtdoffset > old(mtdoffset)
      ensures !ok ==> nand.trouble
    {
      BlockAddress();
      hide HereIn, AtStartIn, Marked, JustFailed, Device.EbSize, Device.Shaped;
      ghost var data, bad := nand.data, nand.bad;
      ok := DiscardBlock();
      if !ok {
        return;
      }
      MarkedAfter(bad);
      GivenUp(data, bad, nand.data, writebuf, mtdoffset, cur);
      writebuf := 0;
      mtdoffset := blockstart + nand.EbSize();
      cur := cur + 1;
    }

    lemma BlockAddress()
      requires Here()
      ensures nand.Valid() && nand.EbSize() > 0 && blockstart >= 0 && mtdoffset < blockstart + nand.EbSize()
      ensures nand.BlockOf(blockstart) == cur && nand.BlockOf(mtdoffset) == cur
    {
      HereAddress();
      NextAddress();
      hide Here;
      Split(blockstart, nand.EbSize(), cur, 0);
    }

    lemma HereShape()
      requires Here()
      ensures nand.Valid() && |nand.bad| == |nand.data| && cur < |nand.data|
      ensures 0 <= writebuf < nand.perBlock && writebuf <= |filebuf|
      ensures forall i :: 0 <= i < |filebuf| ==> |filebuf[i]| == nand.page
    {
    }

    /** Only the current block has changed. */
    lemma StillHere(data: seq<seq<Page>>, bad: seq<bool>, data': seq<seq<Page>>, w: nat, ofs: nat, c: nat)
      requires HereIn(data, bad, w, ofs, c) && nand.Shaped(data', bad) && |data'| == |data|
      requires forall i :: 0 <= i < |data| && i != c ==> data[i] == data'[i]
      ensures HereIn(data', bad, w, ofs, c)
    {
      hide Paged, Good, Device.EbSize, Spared, Blank, WholePages;
      GoodSame(data, bad, data', bad, first, c);
      StillSpared(data0, bad0, data, bad, data', bad, first, c);
      StillBlank(data, bad, data', bad, nand.page, c);
    }

    /** Write one page. */
    method WritePage() returns (out: Outcome)
      requires Inside() && writebuf < |filebuf|
      modifies nand`data, nand`trouble, nand`eios
      ensures |nand.data| == |old(nand.data)| && Here()
      ensures out == Ok ==> PageDone() && Marked()
      ensures out == Eio ==> JustFailed(nand.bad)
      ensures out == Error ==> nand.trouble
    {
      HereAddress();
      HereShape();
      MarkedIs();
      hide HereIn, Device.EbSize, Marked, JustFailed, Failed, SameBad, Device.BlockOf, Device.Within, Device.PageOf;
      ghost var data, bad, eios := nand.data, nand.bad, nand.eios;
      out := Ok;
      var allffs := filebuf[writebuf] == Ffs(nand.page);
      if !allffs || !skipAllFfs {
        out := nand.Write(nand.BlockOf(mtdoffset), nand.Within(mtdoffset), filebuf[writebuf]);
      }
      StillHere(data, bad, nand.data, writebuf, mtdoffset, cur);
      FailedNext(eios, bad);
      if out == Ok {
        OnePageMore(data[cur], nand.data[cur], filebuf, writebuf);
      }
    }

    lemma OnePageMore(was: seq<Page>, now: seq<Page>, buf: seq<Page>, w: nat)
      requires w < |was| == |now| && w < |buf| && was[..w] == buf[..w] && now[w] == buf[w]
      requires forall q :: 0 <= q < |now| && q != w ==> now[q] == was[q]
      ensures now[..w + 1] == buf[..w + 1]
    {
      forall q | 0 <= q < w + 1 ensures now[q] == buf[q] {
        assert q < w ==> was[..w][q] == buf[..w][q];
      }
    }

    /** The current page holds what it should; the pages after it are still erased. */
    ghost predicate PageDone()
      requires Here() && writebuf < |filebuf|
      reads this, nand`data, nand`bad
    {
      && nand.data[cur][..writebuf + 1] == filebuf[..writebuf + 1]
      && forall q :: writebuf < q < nand.perBlock ==> nand.data[cur][q] == Ffs(nand.page)
    }

    /** The block is full: all of the buffer can be read back from it. */
    lemma FullBlock()
      requires Here() && writebuf < |filebuf| && PageDone() && writebuf + 1 == nand.perBlock
      ensures Good(nand.data, nand.bad, first, cur + 1) == Good(nand.data, nand.bad, first, cur) + filebuf
    {
      hide Paged;
      assert nand.data[cur] == filebuf;
    }

    lemma NextIs()
      requires Here() && writebuf < |filebuf| && PageDone()
      ensures if writebuf + 1 == nand.perBlock
        then AtStartIn(nand.data, nand.bad, filebuf, writebuf + 1, mtdoffset + nand.page, cur + 1)
        else HereIn(nand.data, nand.bad, writebuf + 1, mtdoffset + nand.page, cur)
    {
      NextAddress();
      if writebuf + 1 == nand.perBlock {
        FullBlock();
      }
      hide Paged, Good, Device.EbSize, Blank, WholePages, Spared, Device.Shaped;
    }

    /** On to the next page, or to the next block if this one is full. */
    method NextPlace()
      requires Here() && writebuf < |filebuf| && PageDone() && Marked()
      modifies this`mtdoffset, this`writebuf, this`cur
      ensures (Inside() || Boundary()) && mtdoffset > old(mtdoffset)
    {
      NextAddress();
      HereShape();
      NextIs();
      hide HereIn, AtStartIn, Marked, Device.EbSize, Device.Shaped;
      ghost var full := writebuf + 1 == nand.perBlock;
      mtdoffset := mtdoffset + nand.page;
      writebuf := writebuf + 1;
      cur := if full then cur + 1 else cur;
    }

    /** All of the file is in the good blocks, in order, and what comes after it is still erased. */
    ghost predicate Written()
      requires nand.Valid() && first <= |nand.data|
      reads this, nand`data, nand`bad
    {
      ThenErased(Paged(file, nand.page), Good(nand.data, nand.bad, first, |nand.data|), nand.page)
    }

    lemma AllWritten()
      requires Inside() || Boundary()
      requires imglen <= 0 && writebuf >= |filebuf|
      ensures nand.Valid() && first <= |nand.data| && Written()
    {
      assert Paged(rest, nand.page) == [];
      hide Paged, Spared, Marked, WholePages, Good, Blank;
      if Inside() {
        assert filebuf == nand.data[cur][..writebuf];
        WrittenInside(nand.data, nand.bad, nand.page, first, cur, writebuf);
      } else {
        WrittenBefore(nand.data, nand.bad, nand.page, first, cur);
      }
    }

    /** The good blocks that are left do not hold all pages of the file. */
    ghost predicate NoSpace()
      reads this, nand`data, nand`bad
    {
      && nand.Valid() && first <= |nand.data|
      && |Paged(file, nand.page)| > |Good(nand.data, nand.bad, first, |nand.data|)|
    }

    lemma EndOfDevice()
      requires AtStart() && cur == |nand.data|
      requires (writebuf == 0 && |filebuf| > 0) || |rest| > 0
      ensures NoSpace()
    {
    }

    /** The length of the whole pages in so many bytes. */
    function WholeLength(n: int): int
      requires nand.page > 0
    {
      n / nand.page * nand.page
    }

    /** The pages that the rest of the device can hold. */
    lemma Capacity() returns (cap: nat)
      requires Boundary() && cur == first
      ensures nand.Size() - mtdoffset == cap * nand.page
      ensures |Good(nand.data, nand.bad, first, |nand.data|)| <= cap
    {
      cap := (|nand.data| - first) * nand.perBlock;
      GoodBound(nand.data, nand.bad, first, |nand.data|, nand.perBlock);
      hide Paged, Good, Blank, Spared, WholePages, Marked;
      Rest(|nand.data|, first, nand.perBlock, nand.page);
    }

    /** A file that is longer than the rest of the device does not fit. */
    lemma TooLong()
      requires Boundary() && cur == first && imglen == |file|
      requires WholeLength(imglen) > nand.Size() - mtdoffset
      ensures NoSpace()
    {
      Facts();
      hide Boundary, Paged, Good, Device.Size, Marked, WholeLength;
      var cap := Capacity();
      PagedCount(file, nand.page);
      LongerThan(|file|, cap);
    }

    lemma LongerThan(n: nat, cap: nat)
      requires nand.page > 0 && WholeLength(n) > cap * nand.page
      ensures n / nand.page > cap
    {
      More(n / nand.page, cap, nand.page);
    }

    /** Why the run may fail. */
    ghost predicate Excused()
      reads this, nand`data, nand`bad, nand`trouble
    {
      nand.trouble || inputTrouble || |file| == 0 || NoSpace() || (!pad && !WholePages(|file|, nand.page))
    }

    /** Only a failing write makes a block bad, unless another call has failed as well. */
    ghost predicate Accounted()
      reads this, nand`data, nand`bad, nand`trouble, nand`eios
    {
      nand.trouble || (nand.Valid() && Marked())
    }

    /** The body of the main loop. */
    method WriteNext() returns (next: Next)
      requires Inside() || Boundary()
      requires imglen > 0 || writebuf < |filebuf|
      modifies this, nand
      ensures next == Again ==> (Inside() || Boundary()) && mtdoffset > old(mtdoffset)
      ensures next == End ==> Inside() && |rest| == 0 && writebuf == |filebuf|
      ensures next == Fail ==> Excused() && Accounted()
    {
      Leftover();
      Facts();
      hide Inside, Boundary, AtStart, Marked, NoSpace, WholePages;
      var ok := EnterBlock();
      if !ok {
        if !nand.trouble && |file| > 0 {
          EndOfDevice();
        }
        return Fail;
      }
      Facts();
      var end: bool;
      ok, end := FillBuffer();
      if !ok {
        return Fail;
      }
      if end {
        return End;
      }
      var out := WritePage();
      if out == Error {
        return Fail;
      }
      if out == Eio {
        ok := Rewind();
        return if ok then Again else Fail;
      }
      NextPlace();
      next := Again;
    }

    /** The main loop. It reports success only when all is written, and failure only when some call
        failed, the last page of the input is cut, or there are too few good blocks. The blocks that are
        bad afterwards are those that were and those in which a write has failed. */
    method Run() returns (success: bool)
      requires Boundary() && cur == first && imglen == |file|
      modifies this, nand
      ensures success ==> nand.Valid() && first <= |nand.data| && Written() && Marked()
      ensures success ==> Spared(data0, bad0, nand.data, nand.bad, first)
      ensures !success ==> Excused() && Accounted()
    {
      hide Paged, Good, Inside, Boundary, AtStart, Device.EbSize, Device.Size, WholePages, Spared, Marked, WholeLength;
      success := false;
      Facts();
      if !pad && !WholePages(imglen, nand.page) {
        return;
      }
      if WholeLength(imglen) > nand.Size() - mtdoffset {
        TooLong();
        return;
      }
      var size := nand.Size();
      while (imglen > 0 || writebuf < |filebuf|) && mtdoffset < size
        invariant Inside() || Boundary()
        invariant size == nand.Size()
        decreases size - mtdoffset
      {
        Facts();
        var next := WriteNext();
        if next == Fail {
          return;
        }
        Facts();
        if next == End {
          break;
        }
      }
      success := !(imglen > 0 || writebuf < |filebuf|);
      Facts();
      if success {
        AllWritten();
      } else {
        Leftover();
        OffDevice();
        if |file| > 0 {
          EndOfDevice();
        }
      }
    }

    lemma Leftover()
      requires Inside() || Boundary()
      ensures imglen == |rest| && writebuf >= -1 && nand.page > 0
      ensures writebuf == -1 ==> rest == file
      ensures (Boundary() || AtStart()) && writebuf > 0 ==> writebuf >= |filebuf|
    {
    }

    lemma OffDevice()
      requires Inside() || Boundary()
      ensures mtdoffset >= nand.Size() ==> AtStart() && cur == |nand.data|
    {
      hide Paged, Good, Blank, Spared, WholePages;
      if Inside() {
        NextAddress();
        Below(cur, |nand.data|, nand.EbSize());
        Distribute(cur, nand.EbSize());
      } else {
        StartAddress();
      }
    }

    lemma Facts()
      requires Inside() || Boundary()
      ensures nand.Valid() && first <= |nand.data| && Spared(data0, bad0, nand.data, nand.bad, first)
      ensures nand.Size() == |data0| * nand.EbSize() && Marked()
    {
    }
  }

  /** What a block held does not matter once it is marked bad. */
  lemma Abandoned(data: seq<seq<Page>>, bad: seq<bool>, data': seq<seq<Page>>, bad': seq<bool>, first: nat, b: nat)
    requires first <= b < |data| == |bad| == |data'| == |bad'| && bad'[b]
    requires forall i :: 0 <= i < |data| && i != b ==> data[i] == data'[i] && bad[i] == bad'[i]
    ensures Good(data', bad', first, b + 1) == Good(data, bad, first, b)
  {
    GoodSame(data, bad, data', bad', first, b);
  }

  /** There is no last page to be filled up. */
  predicate WholePages(n: nat, page: nat)
  {
    page > 0 && n % page == 0
  }

  lemma ShorterRest(before: nat, got: nat, page: nat)
    requires page > 0 && got <= page && got <= before && (got == page || got == before)
    ensures WholePages(before, page) ==> WholePages(before - got, page) && (got == 0 || got == page)
  {
    if before % page == 0 && got < page {
      Split(before, page, 0, got);
    } else if before % page == 0 {
      var k := before / page;
      assert before == k * page;
      Distribute(k - 1, page);
      Split(before - page, page, k - 1, 0);
    }
  }

  lemma {:induction false} GoodBound(data: seq<seq<Page>>, bad: seq<bool>, b: nat, e: nat, per: nat)
    requires b <= e <= |data| == |bad| && forall i :: 0 <= i < |data| ==> |data[i]| == per
    ensures |Good(data, bad, b, e)| <= (e - b) * per
    decreases e
  {
    if b < e {
      GoodBound(data, bad, b, e - 1, per);
      Distribute(e - 1 - b, per);
    }
  }

  lemma {:induction false} PagedCount(file: seq<Byte>, size: nat)
    requires size > 0
    ensures |Paged(file, size)| >= |file| / size
    decreases |file|
  {
    if |file| > size {
      PagedCount(file[size..], size);
      Quotient(|file|, size);
    }
  }

  lemma Quotient(n: nat, size: nat)
    requires size > 0 && n > size
    ensures n / size == (n - size) / size + 1
  {
    var q, r := (n - size) / size, (n - size) % size;
    assert n - size == q * size + r;
    Distribute(q, size);
    Split(n, size, q + 1, r);
  }

  lemma More(a: nat, b: nat, m: nat)
    requires m > 0 && a * m > b * m
    ensures a > b
  {
    assert (a - b) * m == a * m - b * m;
    assert a - b <= 0 ==> (a - b) * m <= 0;
  }

  lemma Rest(n: nat, first: nat, per: nat, page: nat)
    requires first <= n
    ensures n * (per * page) - first * (per * page) == ((n - first) * per) * page
  {
    assert n * (per * page) - first * (per * page) == (n - first) * (per * page);
    assert (n - first) * (per * page) == ((n - first) * per) * page;
  }

  lemma NextPage(before: seq<Byte>, got: seq<Byte>, rest: seq<Byte>, size: nat)
    requires size > 0 && before == got + rest && 0 < |got| <= size && (|got| == size || rest == [])
    ensures Paged(before, size) == [got + Ffs(size - |got|)] + Paged(rest, size)
  {
    if |before| > size {
      assert before[..size] == got && before[size..] == rest;
      assert got + Ffs(0) == got;
    } else {
      assert rest == [] && before == got;
    }
  }

  /** The bad blocks are those that were bad and those that failed. */
  ghost predicate SameBad(bad0: seq<bool>, bad: seq<bool>, failed: seq<nat>)
  {
    |bad| == |bad0| && forall b :: 0 <= b < |bad| ==> (bad[b] <==> bad0[b] || b in failed)
  }

  /** Nothing below the start address changes, no bad block is written to, and bad blocks stay bad. */
  ghost predicate Spared(data0: seq<seq<Page>>, bad0: seq<bool>, data: seq<seq<Page>>, bad: seq<bool>, first: nat)
  {
    && |data0| == |bad0| == |data| == |bad|
    && (forall b :: 0 <= b < |data| && (b < first || bad0[b]) ==> data[b] == data0[b])
    && (forall b :: 0 <= b < |bad| && b < first ==> bad[b] == bad0[b])
    && (forall b :: 0 <= b < |bad| && bad0[b] ==> bad[b])
  }

  /** Changing a good block at or after the start, and marking it bad, is allowed. */
  lemma StillSpared(data0: seq<seq<Page>>, bad0: seq<bool>, data: seq<seq<Page>>, bad: seq<bool>,
    data': seq<seq<Page>>, bad': seq<bool>, first: nat, b: nat)
    requires Spared(data0, bad0, data, bad, first) && |data'| == |data| && |bad'| == |bad|
    requires first <= b < |data| && !bad[b]
    requires forall i :: 0 <= i < |data| && i != b ==> data[i] == data'[i] && bad[i] == bad'[i]
    ensures Spared(data0, bad0, data', bad', first)
  {
  }

  /** The good blocks from number b on are erased. */
  ghost predicate Blank(data: seq<seq<Page>>, bad: seq<bool>, page: nat, b: nat)
    requires |data| == |bad|
  {
    forall i, q :: b <= i < |data| && !bad[i] && 0 <= q < |data[i]| ==> data[i][q] == Ffs(page)
  }

  lemma {:induction false} BlankGood(data: seq<seq<Page>>, bad: seq<bool>, page: nat, b: nat, e: nat)
    requires b <= e <= |data| == |bad| && Blank(data, bad, page, b)
    ensures forall i :: 0 <= i < |Good(data, bad, b, e)| ==> Good(data, bad, b, e)[i] == Ffs(page)
    decreases e
  {
    if b < e {
      BlankGood(data, bad, page, b, e - 1);
    }
  }

  /** The pages, and behind them nothing but erased ones. */
  ghost predicate ThenErased(pages: seq<Page>, good: seq<Page>, page: nat)
  {
    pages <= good && forall i :: |pages| <= i < |good| ==> good[i] == Ffs(page)
  }

  lemma WrittenBefore(data: seq<seq<Page>>, bad: seq<bool>, page: nat, first: nat, c: nat)
    requires first <= c <= |data| == |bad| && Blank(data, bad, page, c)
    ensures ThenErased(Good(data, bad, first, c), Good(data, bad, first, |data|), page)
  {
    GoodSplit(data, bad, first, c, |data|);
    BlankGood(data, bad, page, c, |data|);
    hide Good, Blank;
  }

  lemma WrittenInside(data: seq<seq<Page>>, bad: seq<bool>, page: nat, first: nat, c: nat, w: nat)
    requires first <= c < |data| == |bad| && !bad[c] && Blank(data, bad, page, c + 1) && w <= |data[c]|
    requires forall q :: w <= q < |data[c]| ==> data[c][q] == Ffs(page)
    ensures ThenErased(Good(data, bad, first, c) + data[c][..w], Good(data, bad, first, |data|), page)
  {
    var g := Good(data, bad, first, c);
    assert Good(data, bad, first, c + 1) == g + data[c];
    hide Good, Blank;
    WrittenBefore(data, bad, page, first, c + 1);
    var all := Good(data, bad, first, |data|);
    assert g + data[c][..w] <= g + data[c];
    forall i | |g| + w <= i < |all| ensures all[i] == Ffs(page) {
      if i < |g| + |data[c]| {
        assert all[i] == (g + data[c])[i] == data[c][i - |g|];
      }
    }
  }

  lemma StillBlank(data: seq<seq<Page>>, bad: seq<bool>, data': seq<seq<Page>>, bad': seq<bool>, page: nat, b: nat)
    requires |data| == |bad| == |data'| == |bad'| && Blank(data, bad, page, b + 1)
    requires forall i :: 0 <= i < |data| && i != b ==> data[i] == data'[i] && bad[i] == bad'[i]
    ensures Blank(data', bad', page, b + 1)
  {
  }
}
