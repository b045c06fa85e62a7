// jffsX-utils/sumtool.c: nodes are repacked into erase blocks, and each full block ends with a summary
// that lists its nodes.

module SumTool {
  import opened Basics
  import opened SumRecords

  /** sizeof struct jffs2_raw_summary and struct jffs2_sum_marker. */
  const SUMMARY_LEN: nat := 32
  const MARKER_LEN: nat := 8
  const FRAME: nat := 40
  const CLEANMARKER_LEN: nat := 12

  const MARKER_MAGIC: nat := 0x0285_1885
  const CLEANMARKER: nat := 0x2003

  /* ------------------------------------------------------------ blocks */

  /** The summary node: some fields of its header, and the bytes behind the header. */
  datatype Summary = NoSummary | Summary(totlen: nat, clnMkr: nat, sumNum: nat, body: seq<Byte>)

  /** What write_buff_to_file() puts out: the data, and the summary behind it. */
  datatype Block = Block(data: seq<Byte>, summary: Summary)

  /** A block that ends with a summary: it fills the erase block, its last eight bytes point to the summary,
      and the summary, read record by record, describes the nodes that a walk over the block finds. */
  ghost predicate Summarised(b: Block, eraseBlock: nat, big: bool)
    requires b.summary.Summary?
  {
    var body := b.summary.body;
    && |body| >= 8 && b.summary.totlen == 32 + |body| && |b.data| + b.summary.totlen == eraseBlock
    && Get32(body, |body| - 8, big) == |b.data| && Get32(body, |body| - 4, big) == MARKER_MAGIC
    && var list := ReadRecords(body[..|body| - 8], 0, b.summary.sumNum, big);
      list.List? && Describes(list.records, Scan(b.data, 0, big), big)
  }

  ghost predicate GoodBlock(b: Block, eraseBlock: nat, big: bool)
  {
    && AllWellFormed(Nodes(Scan(b.data, 0, big)), big)
    && (b.summary.Summary? ==> Summarised(b, eraseBlock, big))
  }

  ghost predicate GoodBlocks(bs: seq<Block>, eraseBlock: nat, big: bool)
  {
    forall i :: 0 <= i < |bs| ==> GoodBlock(bs[i], eraseBlock, big)
  }

  /** The nodes that a walk over all blocks finds. */
  ghost function Scanned(bs: seq<Block>, big: bool): seq<Node>
  {
    if |bs| == 0 then [] else Scanned(bs[..|bs| - 1], big) + Nodes(Scan(bs[|bs| - 1].data, 0, big))
  }

  /** What a reader learns about the nodes of a block: from the summary if there is one, else from the nodes. */
  ghost function BlockFound(b: Block, eraseBlock: nat, big: bool): seq<Found>
    requires GoodBlock(b, eraseBlock, big)
  {
    if b.summary.Summary? then
      FromRecords(ReadRecords(b.summary.body[..|b.summary.body| - 8], 0, b.summary.sumNum, big).records)
    else FromHeaders(Nodes(Scan(b.data, 0, big)), big)
  }

  ghost function Mounted(bs: seq<Block>, eraseBlock: nat, big: bool): seq<Found>
    requires GoodBlocks(bs, eraseBlock, big)
  {
    if |bs| == 0 then [] else Mounted(bs[..|bs| - 1], eraseBlock, big) + BlockFound(bs[|bs| - 1], eraseBlock, big)
  }

  /** A reader of the summaries learns what the nodes themselves say. */
  lemma {:induction false} MountedIsScanned(bs: seq<Block>, eraseBlock: nat, big: bool)
    requires GoodBlocks(bs, eraseBlock, big)
    ensures AllWellFormed(Scanned(bs, big), big)
    ensures Mounted(bs, eraseBlock, big) == FromHeaders(Scanned(bs, big), big)
  {
    hide Scan, ReadRecords, Get32, WellFormed, FromHeader, FromRecords;
    if |bs| > 0 {
      var last := bs[|bs| - 1];
      MountedIsScanned(bs[..|bs| - 1], eraseBlock, big);
      assert GoodBlock(last, eraseBlock, big);
      assert BlockFound(last, eraseBlock, big) == FromHeaders(Nodes(Scan(last.data, 0, big)), big);
    }
  }

  /* ------------------------------------------------------------ when a node fits */

  /** An int compared with an unsigned int. */
  function Unsigned(x: int): int
  {
    if x < 0 then x + 0x1_0000_0000 else x
  }

  /** The test of pad_block_if_less_than(): flush before this node. */
  predicate Flushes(eraseBlock: nat, dataOfs: nat, sumSize: nat, req: nat, plus: nat)
  {
    dataOfs + req > Unsigned(eraseBlock - Round4(req + plus + sumSize + FRAME))
  }

  /** There is room for the summary. */
  predicate Room(eraseBlock: nat, dataOfs: nat, sumSize: nat)
  {
    dataOfs + sumSize + FRAME <= eraseBlock
  }

  /** The subtraction in the test stays non-negative, and a node that is going to be the first in its
      block fits behind the cleanmarker. */
  predicate Fits(eraseBlock: nat, marker: nat, dataOfs: nat, sumSize: nat, req: nat, plus: nat)
  {
    && req + plus + sumSize + FRAME <= eraseBlock
    && ((dataOfs > 0 && !Flushes(eraseBlock, dataOfs, sumSize, req, plus))
      || marker + Round4(req) + plus + FRAME <= eraseBlock)
  }

  /** Sizes as they are once a node has been written. */
  function OfsAfter(eraseBlock: nat, marker: nat, dataOfs: nat, sumSize: nat, req: nat, plus: nat): nat
  {
    Round4(req) + if dataOfs == 0 || Flushes(eraseBlock, dataOfs, sumSize, req, plus) then marker else dataOfs
  }

  function SizeAfter(eraseBlock: nat, dataOfs: nat, sumSize: nat, req: nat, plus: nat): nat
  {
    plus + if Flushes(eraseBlock, dataOfs, sumSize, req, plus) then 0 else sumSize
  }

  /** There is still room for the summary after a node exactly when the node fits. */
  lemma RoomIffFits(eraseBlock: nat, marker: nat, dataOfs: nat, sumSize: nat, req: nat, plus: nat)
    requires Room(eraseBlock, dataOfs, sumSize) && (dataOfs == 0 ==> sumSize == 0)
    requires eraseBlock % 4 == 0 && eraseBlock < 0x8000_0000 && 4 <= req
    requires req + plus + sumSize + FRAME <= 0x7fff_fffc
    ensures Room(eraseBlock, OfsAfter(eraseBlock, marker, dataOfs, sumSize, req, plus),
        SizeAfter(eraseBlock, dataOfs, sumSize, req, plus))
      <==> Fits(eraseBlock, marker, dataOfs, sumSize, req, plus)
  {
  }

  /** A node that fits keeps the sums of the test within an int. */
  lemma SizesBounded(eraseBlock: nat, marker: nat, dataOfs: nat, sumSize: nat, req: nat, plus: nat)
    requires Fits(eraseBlock, marker, dataOfs, sumSize, req, plus) && eraseBlock % 4 == 0 && eraseBlock < 0x8000_0000
    ensures req + plus + sumSize + FRAME <= 0x7fff_fffc
  {
  }

  /** It is not enough that the subtraction stays non-negative: a node that fits in an empty block on its
      own need not fit behind a cleanmarker. */
  lemma NonNegativeIsNotEnough()
    ensures var e, marker, req, plus := 8192, 12, 8132, 18;
      e - Round4(req + plus + 0 + FRAME) >= 0 && Room(e, 0, 0) &&
      !Room(e, OfsAfter(e, marker, 0, 0, req, plus), SizeAfter(e, 0, 0, req, plus))
  {
  }

  /* ------------------------------------------------------------ the tool */

  function Fill(n: nat): (f: seq<Byte>)
    ensures |f| == n && forall i :: 0 <= i < n ==> f[i] == 0xff
  {
    seq(n, i => 0xff)
  }

  /** The data of a block that holds nothing but a cleanmarker of this size. */
  ghost predicate BeginsClean(data: seq<Byte>, size: nat, big: bool)
  {
    && |data| == Round4(size) && size >= 12
    && Get16(data, 0, big) == 0x1985 && Get16(data, 2, big) == 0x2003 && Get32(data, 4, big) == size
    && forall k :: 12 <= k < |data| ==> data[k] == 0xff
  }

  lemma CleanScan(data: seq<Byte>, size: nat, big: bool)
    requires BeginsClean(data, size, big)
    ensures Lands(data, 0, big) && Scan(data, 0, big) == []
  {
    AloneScan(data, 0, big);
  }

  /** setup_cleanmarker(). */
  function MarkerHeader(size: nat, crc: nat, big: bool): (s: seq<Byte>)
    requires Word(size) && Word(crc)
    ensures |s| == 12
  {
    Put16(MAGIC, big) + Put16(CLEANMARKER, big) + Put32(size, big) + Put32(crc, big)
  }

  lemma MarkerBegins(size: nat, crc: nat, big: bool)
    requires 12 <= size && Word(size) && Word(crc)
    ensures BeginsClean(MarkerHeader(size, crc, big) + Fill(Round4(size) - 12), size, big)
  {
    hide Put16, Get16, Put32, Get32, Round4;
    var s := MarkerHeader(size, crc, big) + Fill(Round4(size) - 12);
    assert s[0..2] == Put16(MAGIC, big) && s[2..4] == Put16(CLEANMARKER, big) && s[4..8] == Put32(size, big);
    GetPut16(s, 0, MAGIC, big);
    GetPut16(s, 2, CLEANMARKER, big);
    GetPut32(s, 4, size, big);
  }

  /** The bytes behind the header of the summary are read as they were meant. */
  lemma BodyReads(data: seq<Byte>, rs: seq<Record>, pad: seq<Byte>, b: Block, eraseBlock: nat, big: bool)
    requires AllRanged(rs) && Describes(rs, Scan(data, 0, big), big)
    requires Word(|data|) && b.data == data && b.summary.Summary? && b.summary.sumNum == |rs|
    requires b.summary.body == EncodeAll(rs, big) + pad + Put32(|data|, big) + Put32(MARKER_MAGIC, big)
    requires b.summary.totlen == 32 + |b.summary.body| && |data| + b.summary.totlen == eraseBlock
    ensures Summarised(b, eraseBlock, big)
  {
    hide EncodeAll, Put32, Get32, Scan, Describes, AllRanged, ReadRecords;
    var body, n := b.summary.body, |b.summary.body|;
    assert body[n - 8..n - 4] == Put32(|data|, big) && body[n - 4..n] == Put32(MARKER_MAGIC, big);
    GetPut32(body, n - 8, |data|, big);
    GetPut32(body, n - 4, MARKER_MAGIC, big);
    assert body[..n - 8] == EncodeAll(rs, big) + pad;
    assert Stands(body[..n - 8], 0, EncodeAll(rs, big));
    ReadAllBack(body[..n - 8], 0, rs, big);
  }

  /** The records describe the nodes in the data. */
  ghost predicate Matches(rs: seq<Record>, data: seq<Byte>, big: bool)
  {
    && |data| % 4 == 0 && Lands(data, 0, big) && Describes(rs, Scan(data, 0, big), big) && AllRanged(rs)
  }

  /** One more node, padded to a word, and its record. */
  lemma MatchesNext(rs: seq<Record>, data: seq<Byte>, n: Node, pad: seq<Byte>, big: bool)
    requires Matches(rs, data, big) && WellFormed(n, big) && Word(|data|) && |n| + |pad| == Round4(|n|)
    ensures var ts, t := rs + [RecordOf(n, |data|, big)], data + n + pad;
      && Matches(ts, t, big) && |EncodeAll(ts, big)| == |EncodeAll(rs, big)| + Plus(n, big)
      && Nodes(Scan(t, 0, big)) == Nodes(Scan(data, 0, big)) + [n] && |t| == |data| + Round4(|n|)
  {
    hide Scan, Lands, EncodeAll, Describes, WellFormed, Plus, RecordOf, Ranged, RecordSize, FromRecord, FromHeader;
    AlignedEnd(|data|, |n|);
    hide Round4;
    RecordFacts(n, |data|, big);
    EncodeMore(rs, RecordOf(n, |data|, big), big);
    ScanNext(data, n, pad, big);
    assert data + n + pad == data + (n + pad);
    DescribesNext(rs, Scan(data, 0, big), n, |data|, big);
  }

  class Summer {
    const eraseBlock: nat
    /** The byte order of the target. */
    const big: bool
    const addCleanmarkers: bool
    const useInputSize: bool
    const padto: bool
    var foundCleanmarkers: bool
    var cleanmarkerSize: nat
    /** The bytes of the cleanmarker node. */
    var cleanmarker: seq<Byte>
    /** data_buffer up to data_ofs. */
    var data: seq<Byte>
    /** sum_collected. */
    var records: seq<Record>
    var sumNum: nat
    var sumSize: nat
    var out: seq<Block>

    /** All nodes that were accepted. */
    ghost var accepted: seq<Node>

    /** given: the size of the cleanmarker is an option, and no cleanmarker has to be found first. */
    constructor (eraseBlock: nat, big: bool, addCleanmarkers: bool, padto: bool, given: bool, size: nat, crc: nat)
      requires eraseBlock % 4 == 0 && FRAME <= eraseBlock < 0x8000_0000
      requires CLEANMARKER_LEN <= size && Word(size) && Word(crc)
      ensures this.eraseBlock == eraseBlock && this.big == big && this.addCleanmarkers == addCleanmarkers
      ensures this.padto == padto && useInputSize == !given
      ensures foundCleanmarkers == given && cleanmarkerSize == size
      ensures Valid() && accepted == [] && out == [] && data == [] && sumSize == 0
    {
      this.eraseBlock, this.big, this.addCleanmarkers := eraseBlock, big, addCleanmarkers;
      useInputSize, this.padto := !given, padto;
      foundCleanmarkers, cleanmarkerSize, cleanmarker := given, size, MarkerHeader(size, crc, big);
      data, records, sumNum, sumSize, out, accepted := [], [], 0, 0, [], [];
      MarkerBegins(size, crc, big);
    }

    /** The space that the cleanmarker takes at the start of a block. */
    function Marker(): nat
      reads this
    {
      if addCleanmarkers && foundCleanmarkers then Round4(cleanmarkerSize) else 0
    }

    /** The cleanmarker is set up if blocks are to begin with it. */
    ghost predicate MarkerReady(found: bool, size: nat, marker: seq<Byte>)
    {
      && CLEANMARKER_LEN <= size && |marker| == CLEANMARKER_LEN && (found || useInputSize)
      && (addCleanmarkers && found ==> BeginsClean(marker + Fill(Round4(size) - CLEANMARKER_LEN), size, big))
    }

    /** The nodes in the buffer. */
    ghost function Items(): seq<Placed>
      reads this
    {
      Scan(data, 0, big)
    }

    /** The buffer and the records about it. */
    ghost predicate Buffered()
      reads this
    {
      && eraseBlock % 4 == 0 && eraseBlock < 0x8000_0000
      && MarkerReady(foundCleanmarkers, cleanmarkerSize, cleanmarker)
      && Matches(records, data, big) && sumNum == |records| && sumSize == |EncodeAll(records, big)| <= |data|
    }

    /** The blocks put out so far, and no accepted node lost or moved. */
    ghost predicate Output()
      reads this
    {
      GoodBlocks(out, eraseBlock, big) && accepted == Scanned(out, big) + Nodes(Items())
    }

    ghost predicate Valid()
      reads this
    {
      Buffered() && Output() && Room(eraseBlock, |data|, sumSize)
    }

    /** dump_sum_records(): the summary for what is in the buffer. */
    method DumpSumRecords() returns (sum: Summary)
      requires Valid()
      modifies this`records, this`sumNum, this`sumSize
      ensures sum.NoSummary? <==> |Items()| == 0
      ensures sum.Summary? ==> Summarised(Block(data, sum), eraseBlock, big)
      ensures sum.Summary? ==> sum.clnMkr == if addCleanmarkers && foundCleanmarkers then cleanmarkerSize else 0
      ensures records == [] && sumNum == 0 && sumSize == 0
    {
      hide Scan, Lands, EncodeAll, Scanned, GoodBlocks, AllRanged, Summarised, FromRecords, FromHeaders, MarkerReady;
      if sumNum == 0 {
        NoRecords(records);
        return NoSummary;
      }
      var datasize := sumSize + MARKER_LEN;
      var infosize := SUMMARY_LEN + datasize;
      var padsize := eraseBlock - |data| - infosize;
      infosize, datasize := infosize + padsize, datasize + padsize;
      ghost var rs := records;
      var num := sumNum;
      var tpage := TakeRecords();
      sumSize := 0;
      tpage := tpage + Fill(padsize) + Put32(|data|, big) + Put32(MARKER_MAGIC, big);
      var clnMkr := if addCleanmarkers && foundCleanmarkers then cleanmarkerSize else 0;
      sum := Summary(infosize, clnMkr, num, tpage);
      BodyReads(data, rs, Fill(padsize), Block(data, sum), eraseBlock, big);
    }

    lemma NoRecords(rs: seq<Record>)
      requires AllRanged(rs) && |rs| == 0
      ensures |EncodeAll(rs, big)| == 0
    {
    }

    /** The loop of dump_sum_records() that empties the list of records into the summary. */
    method TakeRecords() returns (tpage: seq<Byte>)
      requires sumNum == |records| && AllRanged(records)
      modifies this`records, this`sumNum
      ensures tpage == EncodeAll(old(records), big)
      ensures records == [] && sumNum == 0
    {
      hide Encode, Ranged;
      tpage := [];
      while sumNum > 0
        invariant sumNum == |records| && AllRanged(records)
        invariant tpage + EncodeAll(records, big) == EncodeAll(old(records), big)
        decreases sumNum
      {
        tpage := tpage + Encode(records[0], big);
        records := records[1..];
        sumNum := sumNum - 1;
      }
    }

    /** write_buff_to_file(): nothing is written when the buffer is empty. */
    method WriteBuffToFile(sum: Summary)
      requires Output() && GoodBlock(Block(data, sum), eraseBlock, big)
      modifies this`data, this`out
      ensures Output() && data == []
      ensures out == old(out) + if |old(data)| > 0 then [Block(old(data), sum)] else []
    {
      hide GoodBlock, Nodes;
      assert Scan([], 0, big) == [] && Nodes([]) == [] by {
        NothingScanned(big);
      }
      hide Scan;
      if |data| > 0 {
        out := out + [Block(data, sum)];
        assert out[..|out| - 1] == old(out);
      }
      data := [];
    }

    /** The summary and the block it belongs to. */
    method FlushBlock()
      requires Valid()
      modifies this`data, this`out, this`records, this`sumNum, this`sumSize
      ensures Valid() && data == [] && sumSize == 0
      ensures |old(data)| == 0 ==> out == old(out)
      ensures |old(data)| > 0 ==>
        && |out| == |old(out)| + 1 && out[..|old(out)|] == old(out) && out[|old(out)|].data == old(data)
        && (out[|old(out)|].summary.Summary? <==> |old(Items())| > 0)
    {
      hide Summarised, Scan, EncodeAll, Scanned, GoodBlocks;
      var sum := DumpSumRecords();
      WriteBuffToFile(sum);
      NothingScanned(big);
      NoRecords(records);
    }

    /** pad_block_if_less_than(): the block is flushed if the node counted twice, its record, the records so
        far and 40 bytes might not fit, and a new block begins with a cleanmarker. */
    method PadBlockIfLessThan(req: nat, plus: nat)
      requires Valid()
      modifies this`data, this`out, this`records, this`sumNum, this`sumSize
      ensures Buffered() && Output()
      ensures |data| + Round4(req) == OfsAfter(eraseBlock, Marker(), |old(data)|, old(sumSize), req, plus)
      ensures sumSize + plus == SizeAfter(eraseBlock, |old(data)|, old(sumSize), req, plus)
      ensures req + plus + old(sumSize) + 40 <= eraseBlock ==>
        (|out| > |old(out)| <==>
          |old(data)| > 0 && |old(data)| + req + Round4(req + plus + old(sumSize) + 40) > eraseBlock)
      ensures out == old(out) ==> data == old(data) || |old(data)| == 0
      ensures addCleanmarkers && foundCleanmarkers && (|out| > |old(out)| || |old(data)| == 0) ==>
        BeginsClean(data, cleanmarkerSize, big)
      ensures !(addCleanmarkers && foundCleanmarkers) && |out| > |old(out)| ==> data == []
    {
      hide Scan, Scanned, GoodBlocks, EncodeAll, Nodes, BeginsClean, Matches, MarkerReady;
      var datasize := Round4(req + plus + sumSize + FRAME);
      if |data| + req > Unsigned(eraseBlock - datasize) {
        FlushBlock();
      }
      BeginBlock();
    }

    /** A new block begins with a cleanmarker if one is wanted. */
    method BeginBlock()
      requires Buffered() && Output()
      modifies this`data
      ensures Buffered() && Output()
      ensures addCleanmarkers && foundCleanmarkers && |old(data)| == 0 ==>
        |data| == Round4(cleanmarkerSize) && BeginsClean(data, cleanmarkerSize, big)
      ensures !(addCleanmarkers && foundCleanmarkers) || |old(data)| > 0 ==> data == old(data)
    {
      hide Scan, Lands, Scanned, GoodBlocks, EncodeAll, Nodes, Describes, AllRanged;
      if addCleanmarkers && foundCleanmarkers && |data| == 0 {
        NothingScanned(big);
        data := cleanmarker + Fill(Round4(cleanmarkerSize) - CLEANMARKER_LEN);
        CleanScan(data, cleanmarkerSize, big);
      }
    }

    /** write_inode_to_buff() and its siblings: the node goes to the buffer, and a record of it to the list. */
    method WriteToBuff(node: Node)
      requires Valid() && WellFormed(node, big)
      requires Fits(eraseBlock, Marker(), |data|, sumSize, |node|, Plus(node, big))
      modifies this`data, this`out, this`records, this`sumNum, this`sumSize, this`accepted
      ensures Valid() && accepted == old(accepted) + [node] && |Items()| > 0
      ensures |data| == OfsAfter(eraseBlock, Marker(), |old(data)|, old(sumSize), |node|, Plus(node, big))
      ensures sumSize == SizeAfter(eraseBlock, |old(data)|, old(sumSize), |node|, Plus(node, big))
    {
      hide Scan, Lands, Scanned, GoodBlocks, EncodeAll, Nodes, BeginsClean, WellFormed, Plus, OfsAfter, SizeAfter, Fits;
      RecordFacts(node, 0, big);
      SizesBounded(eraseBlock, Marker(), |data|, sumSize, |node|, Plus(node, big));
      RoomIffFits(eraseBlock, Marker(), |data|, sumSize, |node|, Plus(node, big));
      PadBlockIfLessThan(|node|, Plus(node, big));
      Append(node);
    }

    /** add_sum_mem(), full_write() and padword(). */
    method Append(node: Node)
      requires Buffered() && Output() && WellFormed(node, big)
      requires Room(eraseBlock, |data| + Round4(|node|), sumSize + Plus(node, big))
      modifies this`data, this`records, this`sumNum, this`sumSize, this`accepted
      ensures Valid() && accepted == old(accepted) + [node] && |Items()| > 0
      ensures |data| == |old(data)| + Round4(|node|) && sumSize == old(sumSize) + Plus(node, big)
    {
      hide Scan, Scanned, GoodBlocks, EncodeAll, Nodes, WellFormed, Plus, Round4, RecordOf, RecordSize, MarkerReady,
        Matches, Fill;
      var r := RecordOf(node, |data|, big);
      RecordFacts(node, |data|, big);
      MatchesNext(records, data, node, Fill(Round4(|node|) - |node|), big);
      MatchesWords(records, data, node, big);
      assert Scanned(out, big) + (Nodes(Items()) + [node]) == accepted + [node];
      records, sumNum, sumSize := records + [r], sumNum + 1, sumSize + RecordSize(r);
      data := data + node;
      PadWord();
      accepted := accepted + [node];
    }

    /** padword(). */
    method PadWord()
      modifies this`data
      ensures data == old(data) + Fill(Round4(|old(data)|) - |old(data)|)
    {
      if |data| % 4 != 0 {
        data := data + Fill(4 - |data| % 4);
      } else {
        assert Fill(0) == [];
      }
    }

    /** A cleanmarker in the input: from now on blocks begin with one. */
    method NoteCleanmarker(totlen: nat, crc: nat)
      requires Valid() && totlen >= CLEANMARKER_LEN && Word(totlen) && Word(crc)
      modifies this`foundCleanmarkers, this`cleanmarkerSize, this`cleanmarker
      ensures Valid() && foundCleanmarkers
      ensures cleanmarkerSize ==
        if !old(foundCleanmarkers) && addCleanmarkers && useInputSize then totlen else old(cleanmarkerSize)
    {
      hide Scan, Lands, Scanned, GoodBlocks, EncodeAll, Nodes, BeginsClean, Describes, MarkerHeader;
      if !foundCleanmarkers {
        foundCleanmarkers := true;
        if addCleanmarkers && useInputSize {
          cleanmarkerSize, cleanmarker := totlen, MarkerHeader(totlen, crc, big);
          MarkerBegins(totlen, crc, big);
        }
      }
    }

    /** The test of flush_buffers() takes the buffer for one that holds nothing but a cleanmarker. */
    predicate LooksEmpty()
      reads this
    {
      if addCleanmarkers && foundCleanmarkers then |data| == cleanmarkerSize else |data| == 0
    }

    /** The block is nearly full. */
    predicate NearlyFull()
      reads this
    {
      |data| + 68 + 2 * 128 > eraseBlock - Round4(sumSize + FRAME)
    }

    /** What the last block will hold. */
    ghost function LastData(): seq<Byte>
      requires |data| <= eraseBlock
      reads this
    {
      if !NearlyFull() && padto then data + Fill(eraseBlock - |data|) else data
    }

    /** flush_buffers(): what is left goes out, with a summary if the block is nearly full. All accepted
        nodes are then in the output, unless the buffer held nodes and looked empty all the same. */
    method FlushBuffers()
      requires Valid()
      modifies this`data, this`out, this`records, this`sumNum, this`sumSize
      ensures Output()
      ensures Scanned(out, big) == accepted <==> !(old(LooksEmpty()) && |old(Items())| > 0)
      ensures old(LooksEmpty()) || |old(LastData())| == 0 ==> out == old(out)
      ensures !old(LooksEmpty()) && |old(LastData())| > 0 ==>
        && |out| == |old(out)| + 1 && out[..|old(out)|] == old(out) && out[|old(out)|].data == old(LastData())
        && (out[|old(out)|].summary.Summary? <==> old(NearlyFull()) && |old(Items())| > 0)
    {
      hide Scan, Lands, Scanned, GoodBlocks, EncodeAll, BeginsClean, Round4;
      if LooksEmpty() {
        return;
      }
      NothingScanned(big);
      var datasize := Round4(sumSize + FRAME);
      if |data| + 68 + 2 * 128 > eraseBlock - datasize {
        FlushBlock();
      } else {
        if padto {
          FilledScan(data, eraseBlock - |data|, big);
          data := data + Fill(eraseBlock - |data|);
        }
        WriteBuffToFile(NoSummary);
      }
    }
  }

  lemma NothingScanned(big: bool)
    ensures Scan([], 0, big) == [] && Lands([], 0, big)
  {
  }

  lemma MatchesWords(rs: seq<Record>, data: seq<Byte>, n: Node, big: bool)
    requires Matches(rs, data, big)
    ensures Round4(|data| + |n|) == |data| + Round4(|n|)
  {
    AlignedEnd(|data|, |n|);
  }

  /** Filler behind the nodes adds none. */
  lemma FilledScan(data: seq<Byte>, n: nat, big: bool)
    requires Lands(data, 0, big)
    ensures Scan(data + Fill(n), 0, big) == Scan(data, 0, big)
  {
    hide Scan, Lands;
    ScanMore(data, Fill(n), 0, big);
    ScanFiller(data + Fill(n), |data|, big);
  }

  /** What create_summed_image() finds in the input, in order: nodes that pass their checks, and cleanmarkers
      with the checksum that their size gives. */
  datatype Event = Accept(node: Node) | Clean(totlen: nat, crc: nat)

  ghost function NodesOf(events: seq<Event>): seq<Node>
  {
    if |events| == 0 then []
    else
      var before := NodesOf(events[..|events| - 1]);
      match events[|events| - 1] case Accept(n) => before + [n] case Clean(_, _) => before
  }

  /* ------------------------------------------------------------ whole runs */

  datatype Options = Options(eraseBlock: nat, big: bool, addCleanmarkers: bool, useInputSize: bool)

  /** What the fate of the input depends on: whether a cleanmarker was found and how long it is, the
      offset in the buffer, and the size of its records. */
  datatype Sizes = Sizes(found: bool, size: nat, ofs: nat, sum: nat)

  function MarkerOf(o: Options, t: Sizes): nat
  {
    if o.addCleanmarkers && t.found then Round4(t.size) else 0
  }

  function After(o: Options, t: Sizes, e: Event): Sizes
  {
    match e
    case Accept(n) =>
      t.(ofs := OfsAfter(o.eraseBlock, MarkerOf(o, t), t.ofs, t.sum, |n|, Plus(n, o.big)),
         sum := SizeAfter(o.eraseBlock, t.ofs, t.sum, |n|, Plus(n, o.big)))
    case Clean(totlen, _) =>
      t.(found := true, size := if !t.found && o.addCleanmarkers && o.useInputSize then totlen else t.size)
  }

  /** The sizes when the whole input has been handled. */
  function Final(o: Options, t: Sizes, events: seq<Event>): Sizes
  {
    if |events| == 0 then t else After(o, Final(o, t, events[..|events| - 1]), events[|events| - 1])
  }

  ghost predicate Formed(e: Event, big: bool)
  {
    match e
    case Accept(n) => WellFormed(n, big)
    case Clean(totlen, crc) => CLEANMARKER_LEN <= totlen && Word(totlen) && Word(crc)
  }

  /** The next event fits: a cleanmarker always does. */
  predicate FitsNext(o: Options, t: Sizes, e: Event)
  {
    e.Accept? ==> Fits(o.eraseBlock, MarkerOf(o, t), t.ofs, t.sum, |e.node|, Plus(e.node, o.big))
  }

  /** Every node fits where it comes. */
  ghost predicate AllFit(o: Options, t: Sizes, events: seq<Event>)
  {
    forall i :: 0 <= i < |events| ==> FitsNext(o, Final(o, t, events[..i]), events[i])
  }

  predicate HasRoom(o: Options, t: Sizes)
  {
    Room(o.eraseBlock, t.ofs, t.sum)
  }

  /** There is room for the summary before and after every event. */
  ghost predicate AllRoom(o: Options, t: Sizes, events: seq<Event>)
  {
    forall i :: 0 <= i <= |events| ==> HasRoom(o, Final(o, t, events[..i]))
  }

  /** The sums of pad_block_if_less_than() are within an int. */
  predicate IntSums(o: Options, e: Event)
  {
    e.Accept? ==> |e.node| + Plus(e.node, o.big) + o.eraseBlock <= 0x7fff_fffc
  }

  lemma {:induction false} FinalNext(o: Options, t: Sizes, events: seq<Event>, i: nat)
    requires i < |events|
    ensures Final(o, t, events[..i + 1]) == After(o, Final(o, t, events[..i]), events[i])
  {
    assert events[..i + 1][..i] == events[..i];
  }

  /** Over a whole run there is always room for the summary exactly when every node fits. */
  lemma {:induction false} RunRoomIffFits(o: Options, t: Sizes, events: seq<Event>)
    requires o.eraseBlock % 4 == 0 && o.eraseBlock < 0x8000_0000 && HasRoom(o, t) && (t.ofs == 0 ==> t.sum == 0)
    requires forall i :: 0 <= i < |events| ==> Formed(events[i], o.big) && IntSums(o, events[i])
    ensures AllRoom(o, t, events) <==> AllFit(o, t, events)
  {
    hide HasRoom, After, Final, FitsNext, Formed, IntSums;
    var i := 0;
    NoEvents(o, t, events);
    while i < |events|
      invariant i <= |events|
      invariant forall k :: 0 <= k <= i ==> HasRoom(o, Final(o, t, events[..k]))
      invariant forall k :: 0 <= k < i ==> FitsNext(o, Final(o, t, events[..k]), events[k])
      invariant var u := Final(o, t, events[..i]); u.ofs == 0 ==> u.sum == 0
    {
      FinalNext(o, t, events, i);
      NextRoomIffFits(o, Final(o, t, events[..i]), events[i]);
      if !FitsNext(o, Final(o, t, events[..i]), events[i]) {
        return;
      }
      i := i + 1;
    }
  }

  lemma NoEvents(o: Options, t: Sizes, events: seq<Event>)
    ensures Final(o, t, events[..0]) == t
  {
  }

  lemma NextRoomIffFits(o: Options, u: Sizes, e: Event)
    requires o.eraseBlock % 4 == 0 && o.eraseBlock < 0x8000_0000 && Formed(e, o.big) && IntSums(o, e)
    requires HasRoom(o, u) && (u.ofs == 0 ==> u.sum == 0)
    ensures var v := After(o, u, e); (HasRoom(o, v) <==> FitsNext(o, u, e)) && (v.ofs == 0 ==> v.sum == 0)
  {
    hide Fits;
    if e.Accept? {
      RecordFacts(e.node, 0, o.big);
      hide WellFormed, Plus;
      RoomIffFits(o.eraseBlock, MarkerOf(o, u), u.ofs, u.sum, |e.node|, Plus(e.node, o.big));
    }
  }

  /** flush_buffers() takes a buffer with nodes in it for a cleanmarker. */
  predicate LosesNodes(o: Options, t: Sizes)
  {
    t.sum > 0 && o.addCleanmarkers && t.found && t.ofs == t.size
  }

  /** The options and sizes of a tool that is about to read its input. */
  ghost function OptionsOf(s: Summer): Options
  {
    Options(s.eraseBlock, s.big, s.addCleanmarkers, s.useInputSize)
  }

  ghost function SizesOf(s: Summer): Sizes
    reads s
  {
    Sizes(s.foundCleanmarkers, s.cleanmarkerSize, |s.data|, s.sumSize)
  }

  /** A whole run: a walk over the blocks put out finds the nodes accepted from the input, in the same order,
      except for those left in the buffer when it ends with the length of a cleanmarker; and a reader of the
      summaries learns what the nodes themselves say. */
  method Run(s: Summer, events: seq<Event>)
    requires s.Valid() && s.accepted == []
    requires forall i :: 0 <= i < |events| ==> Formed(events[i], s.big)
    requires AllFit(OptionsOf(s), SizesOf(s), events)
    modifies s
    ensures s.accepted == NodesOf(events) && GoodBlocks(s.out, s.eraseBlock, s.big)
    ensures Scanned(s.out, s.big) == NodesOf(events) <==>
      !LosesNodes(OptionsOf(s), Final(OptionsOf(s), old(SizesOf(s)), events))
    ensures AllWellFormed(Scanned(s.out, s.big), s.big)
    ensures Mounted(s.out, s.eraseBlock, s.big) == FromHeaders(Scanned(s.out, s.big), s.big)
  {
    hide Formed, Scanned, Summer.Valid, Summer.LooksEmpty, FitsNext, Final, LosesNodes, GoodBlocks, Mounted,
      FromHeaders, AllWellFormed;
    ghost var o, t := OptionsOf(s), SizesOf(s);
    NoEvents(o, t, events);
    var i := 0;
    while i < |events|
      invariant i <= |events| && s.Valid() && s.accepted == NodesOf(events[..i])
      invariant SizesOf(s) == Final(o, t, events[..i])
    {
      assert events[..i + 1][..i] == events[..i];
      FinalNext(o, t, events, i);
      Handle(s, events[i]);
      i := i + 1;
    }
    assert events[..i] == events;
    LooksEmptyIff(s);
    s.FlushBuffers();
    MountedIsScanned(s.out, s.eraseBlock, s.big);
  }

  /** A directory read through the summaries has the entries of the input in their order, if nothing was lost. */
  lemma DirectoryKept(s: Summer, events: seq<Event>, pino: nat)
    requires GoodBlocks(s.out, s.eraseBlock, s.big) && Scanned(s.out, s.big) == NodesOf(events)
    ensures AllWellFormed(NodesOf(events), s.big)
    ensures EntriesOf(Mounted(s.out, s.eraseBlock, s.big), pino) == EntriesOf(FromHeaders(NodesOf(events), s.big), pino)
  {
    MountedIsScanned(s.out, s.eraseBlock, s.big);
  }

  /** The test of flush_buffers() misleads it exactly when nodes are to be lost. */
  lemma LooksEmptyIff(s: Summer)
    requires s.Valid()
    ensures s.LooksEmpty() && |s.Items()| > 0 <==> LosesNodes(OptionsOf(s), SizesOf(s))
  {
    NothingScanned(s.big);
    SomeBytes(s.records, s.big);
  }

  lemma SomeBytes(rs: seq<Record>, big: bool)
    requires AllRanged(rs)
    ensures |EncodeAll(rs, big)| > 0 <==> |rs| > 0
  {
  }

  /** What create_summed_image() does with what it has found. */
  method Handle(s: Summer, e: Event)
    requires s.Valid() && Formed(e, s.big) && FitsNext(OptionsOf(s), SizesOf(s), e)
    modifies s
    ensures s.Valid() && SizesOf(s) == After(OptionsOf(s), old(SizesOf(s)), e)
    ensures s.accepted == old(s.accepted) + match e case Accept(n) => [n] case Clean(_, _) => []
  {
    hide Fits, WellFormed, Summer.Valid, OfsAfter, SizeAfter;
    match e {
      case Accept(node) => s.WriteToBuff(node);
      case Clean(totlen, crc) => s.NoteCleanmarker(totlen, crc);
    }
  }

  /** No node is lost when it is known before the first node whether blocks begin with a cleanmarker. */
  lemma {:induction false} KnownEarlyLosesNothing(o: Options, t: Sizes, events: seq<Event>)
    requires t.ofs == 0 && t.sum == 0
    requires forall i :: 0 <= i < |events| ==> Formed(events[i], o.big)
    requires !o.addCleanmarkers || t.found || (|events| > 0 && events[0].Clean?)
    ensures !LosesNodes(o, Final(o, t, events))
  {
    hide OfsAfter, SizeAfter;
    var i := 0;
    NoEvents(o, t, events);
    while i < |events|
      invariant i <= |events| && Behind(o, Final(o, t, events[..i]))
      invariant i > 0 && o.addCleanmarkers ==> Final(o, t, events[..i]).found
      invariant i == 0 ==> Final(o, t, events[..i]) == t
    {
      FinalNext(o, t, events, i);
      BehindNext(o, Final(o, t, events[..i]), events[i]);
      i := i + 1;
    }
    assert events[..i] == events;
  }

  /** Nodes in the buffer stand behind the cleanmarker. */
  predicate Behind(o: Options, t: Sizes)
  {
    && (t.ofs == 0 ==> t.sum == 0)
    && (o.addCleanmarkers && t.found && t.ofs > 0 ==> t.ofs >= t.size && (t.sum > 0 ==> t.ofs > t.size))
  }

  lemma BehindNext(o: Options, t: Sizes, e: Event)
    requires Behind(o, t) && Formed(e, o.big) && (e.Accept? || !o.addCleanmarkers || t.found || t.ofs == 0)
    ensures Behind(o, After(o, t, e))
  {
    if e.Accept? {
      RecordFacts(e.node, 0, o.big);
    }
  }

  lemma FirstFits(plus: nat)
    requires plus <= 68
    ensures Fits(65536, 0, 0, 0, 68, plus) && OfsAfter(65536, 0, 0, 0, 68, plus) == 68
  {
  }

  /** A node is lost when the first cleanmarker comes after it and happens to be as long as the buffer. */
  method LostNode(node: Node, big: bool, crc: nat) returns (s: Summer)
    requires WellFormed(node, big) && |node| == 68 && Word(crc)
    ensures s.accepted == [node] && Scanned(s.out, big) == []
  {
    hide Scan, GoodBlocks, Summer.Buffered, WellFormed, Plus, Scanned, Fits, OfsAfter;
    s := new Summer(65536, big, true, false, false, CLEANMARKER_LEN, crc);
    RecordFacts(node, 0, big);
    FirstFits(Plus(node, big));
    s.WriteToBuff(node);
    s.NoteCleanmarker(68, crc);
    assert s.LooksEmpty() && |s.Items()| > 0;
    s.FlushBuffers();
  }
}
