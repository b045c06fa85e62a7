// nandwrite and nanddump together: what was written without an error report is what a dump with the
// same start and length returns, whatever blocks were bad or failed on the way.

module NandRoundTrip {
  import opened Basics
  import opened Nand
  import opened NandWrite
  import opened NandDump

  lemma {:induction false} FileFirst(file: seq<Byte>, size: nat, all: seq<Page>)
    requires size > 0 && Paged(file, size) <= all
    ensures |file| <= |Flat(all)| && Flat(all)[..|file|] == file
  {
    hide Flat, Paged;
    var ps := Paged(file, size);
    FlatPaged(file, size);
    FlatAppend(ps, all[|ps|..]);
    assert all == ps + all[|ps|..];
  }

  /** A dump of as many bytes as the file has gives the file. An empty file is the exception: nanddump
      takes a length of zero to mean the rest of the device. */
  lemma {:induction false} DumpGivesFile(nand: Device, first: nat, file: seq<Byte>, out: seq<Byte>)
    requires nand.Valid() && first <= |nand.data|
    requires Paged(file, nand.page) <= Contents(nand, first) && Dumped(nand, first, |file|, out)
    ensures out == file <==> |file| > 0 || |Flat(Contents(nand, first))| == 0
  {
    hide Flat, Paged, Good, Contents;
    var all := Contents(nand, first);
    FileFirst(file, nand.page, all);
    if |file| > 0 {
      assert out == Flat(all)[..|file|];
    }
  }

  /** Over every pattern of bad blocks and failing writes. Without other errors, on an input that can be read
      and is not cut, writing succeeds exactly if the blocks that are good in the end have room for the
      file; and only a failing write makes a block bad. */
  method WriteThenDump(nand: Device, file: seq<Byte>, start: nat, pad: bool, skipAllFfs: bool, ghost first: nat)
    returns (written: bool, dumped: bool, out: seq<Byte>, ghost unreadable: bool)
    requires nand.Valid() && first <= |nand.data| && start == first * nand.EbSize()
    requires Blank(nand.data, nand.bad, nand.page, first)
    modifies nand
    ensures written && dumped && |file| > 0 ==> out == file
    ensures written ==> nand.Valid() && Spared(old(nand.data), old(nand.bad), nand.data, nand.bad, first)
    ensures written && !dumped ==> nand.trouble
    ensures written || !nand.trouble ==> nand.Valid() && |nand.data| == |old(nand.data)|
    ensures written || !nand.trouble ==>
      && old(nand.eios) <= nand.eios && |nand.bad| == |old(nand.bad)|
      && forall b :: 0 <= b < |nand.bad| ==> (nand.bad[b] <==> old(nand.bad)[b] || b in nand.eios[|old(nand.eios)|..])
    ensures !nand.trouble && !unreadable && |file| > 0 && (pad || WholePages(|file|, nand.page)) ==>
      (written <==> |Paged(file, nand.page)| <= |Good(nand.data, nand.bad, first, |nand.data|)|)
    ensures nand.eios == old(nand.eios) ==>
      !nand.trouble && !unreadable && |file| > 0 && (pad || WholePages(|file|, nand.page)) ==>
      (written <==> |Paged(file, nand.page)| <= |Good(old(nand.data), old(nand.bad), first, |old(nand.data)|)|)
  {
    hide Paged, Good, Flat, Device.EbSize;
    var w := new Writer(nand, file, start, pad, skipAllFfs, first);
    written := w.Run();
    unreadable := w.inputTrouble;
    if nand.eios == old(nand.eios) && nand.Valid() && w.Marked() {
      NoneFailed(nand, w.data0, w.bad0, w.eios0, first);
    }
    dumped, out := false, [];
    if written {
      dumped, out := Dump(nand, start, |file|, first);
      if dumped {
        DumpGivesFile(nand, first, file, out);
      }
    }
  }

  /** If no write failed there is as much room as before. */
  lemma NoneFailed(nand: Device, data0: seq<seq<Page>>, bad0: seq<bool>, eios0: seq<nat>, first: nat)
    requires nand.Valid() && nand.Shaped(data0, bad0) && |data0| == |nand.data| && first <= |data0|
    requires nand.eios == eios0 && SameBad(bad0, nand.bad, nand.eios[|eios0|..])
    ensures |Good(nand.data, nand.bad, first, |nand.data|)| == |Good(data0, bad0, first, |data0|)|
  {
    assert nand.bad == bad0;
    GoodRoom(nand.data, data0, bad0, first, |data0|, nand.perBlock);
  }
}
