// The packet receiver of misc-utils/recv_image.c.  Packets for one eraseblock are collected through
// a 4096-byte write buffer into flash; a failed flash write moves the block elsewhere and starts it
// again.  The network and the flash driver are parameters: which packets arrive, in which order, how
// often, which writes fail and which flash blocks are bad.

module Receiver {
  import opened Basics
  import opened GaloisField
  import opened LinearAlgebra
  import opened FecCode

  const PKT_SIZE: int := 2820
  const WBUF_SIZE: int := 4096

  /** struct eraseblock. The packet numbers are those stored; once they are complete, nr_pkts goes on counting
      the packets that are not needed any more. */
  datatype Eraseblock = Eraseblock(flashOffset: int, wbuf: seq<Gf>, wbufOfs: int, pktIndices: seq<nat>, nrPkts: nat)

  /** A datagram of the right length.  crcOk is the outcome of the check on its data. */
  datatype Packet = Packet(blockNr: nat, pktNr: nat, data: seq<Gf>, crcOk: bool)

  /** What the flash does while a packet is handled: whether a write succeeds, what a failed write
      leaves in its place, whether an erase succeeds, and how many bad blocks precede the next usable
      one. */
  datatype FlashEvent = FlashEvent(writeOk: bool, junk: Vec, eraseOk: bool, badBlocks: nat)

  datatype Outcome = Dropped | Stored | Complete | Exit

  /* ---------------------------------------------------------------- what a block should hold */

  /** The image being sent: for every block, its k source packets. */
  ghost predicate IsImage(image: seq<Mat>, k: nat)
  {
    k <= 256 && forall b :: 0 <= b < |image| ==> IsMat(image[b], k, PKT_SIZE)
  }

  /** Packet number i of block b, as the sender encodes it. */
  ghost function Content(image: seq<Mat>, k: nat, b: nat, i: nat): (data: Vec)
    requires IsImage(image, k) && b < |image|
    ensures |data| == PKT_SIZE
  {
    Encoded(k, image[b], i, PKT_SIZE)
  }

  /** The packets of block b with the given numbers, one after the other. */
  ghost function Stream(image: seq<Mat>, k: nat, b: nat, indices: seq<nat>): (s: Vec)
    requires IsImage(image, k) && b < |image|
    ensures |s| == PKT_SIZE * |indices|
  {
    if |indices| == 0 then []
    else
      var n := |indices| - 1;
      Stream(image, k, b, indices[..n]) + Content(image, k, b, indices[n])
  }

  lemma StreamAppend(image: seq<Mat>, k: nat, b: nat, indices: seq<nat>, i: nat)
    requires IsImage(image, k) && b < |image|
    ensures Stream(image, k, b, indices + [i]) == Stream(image, k, b, indices) + Content(image, k, b, i)
  {
    hide Content;
    assert (indices + [i])[..|indices|] == indices;
  }

  /** The bytes of n packets that have been flushed: whole write buffers only. */
  function Flushed(n: nat): (f: int)
    ensures 0 <= f <= PKT_SIZE * n < f + WBUF_SIZE && f % WBUF_SIZE == 0
  {
    var q := PKT_SIZE * n / WBUF_SIZE;
    WholeBuffers(q);
    q * WBUF_SIZE
  }

  lemma WholeBuffers(q: int)
    ensures q * WBUF_SIZE % WBUF_SIZE == 0
  {
  }

  /** Where the flash block of e begins. */
  function Base(e: Eraseblock): int
  {
    e.flashOffset - Flushed(|e.pktIndices|)
  }

  ghost predicate FlashHolds(flash: map<int, Gf>, base: int, s: Vec, n: int)
  {
    0 <= n <= |s| && forall a :: base <= a < base + n ==> a in flash && flash[a] == s[a - base]
  }

  ghost predicate BufferHolds(wbuf: Vec, ofs: int, s: Vec)
  {
    0 <= ofs <= |s| && ofs <= |wbuf| && wbuf[..ofs] == s[|s| - ofs..]
  }

  /** Flash and write buffer together hold the packets received so far, in order of arrival. */
  ghost predicate BlockHolds(s: Vec, e: Eraseblock, flash: map<int, Gf>)
  {
    var f := Flushed(|e.pktIndices|);
    && |s| == PKT_SIZE * |e.pktIndices|
    && |e.wbuf| == WBUF_SIZE
    && e.wbufOfs == |s| - f
    && FlashHolds(flash, Base(e), s, f)
    && BufferHolds(e.wbuf, e.wbufOfs, s)
  }

  /* ---------------------------------------------------------------- storing one packet */

  /** pwrite */
  function WriteAt(flash: map<int, Gf>, ofs: int, data: Vec): (r: map<int, Gf>)
    ensures forall i :: i in r <==> i in flash || ofs <= i < ofs + |data|
    ensures forall i :: ofs <= i < ofs + |data| ==> r[i] == data[i - ofs]
    ensures forall i :: i in flash && !(ofs <= i < ofs + |data|) ==> r[i] == flash[i]
  {
    if |data| == 0 then flash
    else
      var n := |data| - 1;
      WriteAt(flash, ofs, data[..n])[ofs + n := data[n]]
  }

  /** memcpy into a buffer */
  function CopyTo(buf: Vec, ofs: nat, data: Vec): (r: Vec)
    requires ofs + |data| <= |buf|
    ensures |r| == |buf|
    ensures forall i :: 0 <= i < |buf| ==> r[i] == if ofs <= i < ofs + |data| then data[i - ofs] else buf[i]
  {
    buf[..ofs] + data + buf[ofs + |data|..]
  }

  /** The packet fits into the write buffer with room to spare. */
  function Buffered(e: Eraseblock, data: Vec, i: nat): (r: Eraseblock)
    requires |e.wbuf| == WBUF_SIZE && |data| == PKT_SIZE && 0 <= e.wbufOfs && e.wbufOfs + PKT_SIZE < WBUF_SIZE
  {
    e.(wbuf := CopyTo(e.wbuf, e.wbufOfs, data), wbufOfs := e.wbufOfs + PKT_SIZE, pktIndices := e.pktIndices + [i],
       nrPkts := e.nrPkts + 1)
  }

  /** The write buffer with the part of the packet that completes it. */
  function FullBuffer(e: Eraseblock, data: Vec): (r: Vec)
    requires |e.wbuf| == WBUF_SIZE && |data| == PKT_SIZE && 0 <= e.wbufOfs < WBUF_SIZE <= e.wbufOfs + PKT_SIZE
    ensures |r| == WBUF_SIZE
  {
    CopyTo(e.wbuf, e.wbufOfs, data[..WBUF_SIZE - e.wbufOfs])
  }

  /** After a successful flush the rest of the packet starts the next buffer. */
  function AfterFlush(e: Eraseblock, data: Vec, i: nat): (r: Eraseblock)
    requires |e.wbuf| == WBUF_SIZE && |data| == PKT_SIZE && 0 <= e.wbufOfs < WBUF_SIZE <= e.wbufOfs + PKT_SIZE
  {
    var fits := WBUF_SIZE - e.wbufOfs;
    Eraseblock(e.flashOffset + WBUF_SIZE, CopyTo(FullBuffer(e, data), 0, data[fits..]), PKT_SIZE - fits,
               e.pktIndices + [i], e.nrPkts + 1)
  }

  lemma FlushedGrows(n: nat, ofs: int)
    requires ofs == PKT_SIZE * n - Flushed(n)
    ensures Flushed(n + 1) == if ofs + PKT_SIZE < WBUF_SIZE then Flushed(n) else Flushed(n) + WBUF_SIZE
  {
    var q := PKT_SIZE * n / WBUF_SIZE;
    assert PKT_SIZE * (n + 1) == q * WBUF_SIZE + (ofs + PKT_SIZE);
    assert PKT_SIZE * (n + 1) / WBUF_SIZE == if ofs + PKT_SIZE < WBUF_SIZE then q else q + 1;
  }

  lemma HoldsBuffered(s: Vec, e: Eraseblock, flash: map<int, Gf>, data: Vec, i: nat)
    requires BlockHolds(s, e, flash) && |data| == PKT_SIZE && e.wbufOfs + PKT_SIZE < WBUF_SIZE
    ensures BlockHolds(s + data, Buffered(e, data, i), flash)
    ensures Base(Buffered(e, data, i)) == Base(e)
  {
    hide CopyTo, FlashHolds, BufferHolds;
    FlushedGrows(|e.pktIndices|, e.wbufOfs);
    hide Flushed;
    assert |Buffered(e, data, i).pktIndices| == |e.pktIndices| + 1;
    FlashLonger(flash, Base(e), s, Flushed(|e.pktIndices|), data);
    BufferLonger(e.wbuf, e.wbufOfs, s, data);
  }

  lemma FlashLonger(flash: map<int, Gf>, base: int, s: Vec, n: int, data: Vec)
    requires FlashHolds(flash, base, s, n)
    ensures FlashHolds(flash, base, s + data, n)
  {
  }

  lemma BufferLonger(wbuf: Vec, ofs: int, s: Vec, data: Vec)
    requires BufferHolds(wbuf, ofs, s) && ofs + |data| <= |wbuf|
    ensures BufferHolds(CopyTo(wbuf, ofs, data), ofs + |data|, s + data)
  {
    var r := CopyTo(wbuf, ofs, data);
    hide CopyTo;
    assert r[..ofs + |data|] == wbuf[..ofs] + data;
    assert (s + data)[|s| - ofs..] == s[|s| - ofs..] + data;
  }

  lemma HoldsFlushed(s: Vec, e: Eraseblock, flash: map<int, Gf>, data: Vec, i: nat)
    requires BlockHolds(s, e, flash) && |data| == PKT_SIZE && e.wbufOfs + PKT_SIZE >= WBUF_SIZE
    ensures BlockHolds(s + data, AfterFlush(e, data, i), WriteAt(flash, e.flashOffset, FullBuffer(e, data)))
    ensures Base(AfterFlush(e, data, i)) == Base(e)
  {
    hide WriteAt, FullBuffer, FlashHolds, BufferHolds;
    FlushedGrows(|e.pktIndices|, e.wbufOfs);
    hide Flushed;
    assert |AfterFlush(e, data, i).pktIndices| == |e.pktIndices| + 1;
    FlashAfterFlush(s, e, flash, data);
    BufferAfterFlush(s, e, data, i);
  }

  /** A full buffer is the part of the stream that comes next on flash. */
  lemma FullBufferIs(s: Vec, e: Eraseblock, flash: map<int, Gf>, data: Vec)
    requires BlockHolds(s, e, flash) && |data| == PKT_SIZE && e.wbufOfs + PKT_SIZE >= WBUF_SIZE
    ensures |FullBuffer(e, data)| == WBUF_SIZE && |s + data| >= Flushed(|e.pktIndices|) + WBUF_SIZE
    ensures (s + data)[Flushed(|e.pktIndices|)..Flushed(|e.pktIndices|) + WBUF_SIZE] == FullBuffer(e, data)
  {
    hide Flushed, FlashHolds;
    assert FullBuffer(e, data) == e.wbuf[..e.wbufOfs] + data[..WBUF_SIZE - e.wbufOfs];
  }

  lemma PartAt(s: Vec, f: nat, part: Vec, i: nat)
    requires f + |part| <= |s| && s[f..f + |part|] == part && i < |part|
    ensures s[f + i] == part[i]
  {
    assert s[f..f + |part|][i] == s[f + i];
  }

  lemma FlashExtended(flash: map<int, Gf>, base: int, f: nat, more: Vec, full: Vec)
    requires FlashHolds(flash, base, more, f) && f + |full| <= |more|
    requires forall i :: 0 <= i < |full| ==> full[i] == more[f + i]
    ensures FlashHolds(WriteAt(flash, base + f, full), base, more, f + |full|)
  {
    hide WriteAt;
  }

  lemma FlashAfterFlush(s: Vec, e: Eraseblock, flash: map<int, Gf>, data: Vec)
    requires BlockHolds(s, e, flash) && |data| == PKT_SIZE && e.wbufOfs + PKT_SIZE >= WBUF_SIZE
    ensures FlashHolds(WriteAt(flash, e.flashOffset, FullBuffer(e, data)), Base(e), s + data,
                       Flushed(|e.pktIndices|) + WBUF_SIZE)
  {
    hide WriteAt, Flushed, FullBuffer, FlashHolds, BufferHolds;
    FullBufferIs(s, e, flash, data);
    var f, full := Flushed(|e.pktIndices|), FullBuffer(e, data);
    forall i | 0 <= i < |full| ensures full[i] == (s + data)[f + i] {
      PartAt(s + data, f, full, i);
    }
    FlashLonger(flash, Base(e), s, f, data);
    FlashExtended(flash, Base(e), f, s + data, full);
  }

  lemma BufferAfterFlush(s: Vec, e: Eraseblock, data: Vec, i: nat)
    requires |e.wbuf| == WBUF_SIZE && |data| == PKT_SIZE && 0 <= e.wbufOfs < WBUF_SIZE <= e.wbufOfs + PKT_SIZE
    ensures BufferHolds(AfterFlush(e, data, i).wbuf, AfterFlush(e, data, i).wbufOfs, s + data)
  {
    hide FullBuffer;
  }

  /** Only the block's own flash matters. */
  lemma HoldsFramed(s: Vec, e: Eraseblock, flash: map<int, Gf>, flash': map<int, Gf>, erasesize: int)
    requires BlockHolds(s, e, flash) && Flushed(|e.pktIndices|) <= erasesize
    requires forall i :: Base(e) <= i < Base(e) + erasesize && i in flash ==> i in flash' && flash'[i] == flash[i]
    ensures BlockHolds(s, e, flash')
  {
  }

  function PktsPerBlock(erasesize: nat): nat
  {
    (erasesize + PKT_SIZE - 1) / PKT_SIZE
  }

  /** A block with all its packets has filled exactly one flash block. */
  lemma FlushedBound(erasesize: nat, n: nat)
    requires erasesize % WBUF_SIZE == 0 && n <= PktsPerBlock(erasesize)
    ensures Flushed(n) <= erasesize
    ensures n < PktsPerBlock(erasesize) ==> Flushed(n) + WBUF_SIZE <= erasesize || erasesize == 0
    ensures n == PktsPerBlock(erasesize) ==> Flushed(n) == erasesize
  {
    var b, all, q := erasesize / WBUF_SIZE, PktsPerBlock(erasesize), PKT_SIZE * n / WBUF_SIZE;
    assert erasesize == b * WBUF_SIZE && erasesize <= PKT_SIZE * all < erasesize + PKT_SIZE;
    assert q * WBUF_SIZE <= PKT_SIZE * n < q * WBUF_SIZE + WBUF_SIZE;
    assert q <= b;
    assert n < all && erasesize > 0 ==> PKT_SIZE * n < erasesize && q < b;
  }

  /* ---------------------------------------------------------------- the receiver */

  /** The number of packets stored in all blocks. */
  function Total(blocks: seq<Eraseblock>): nat
  {
    if |blocks| == 0 then 0 else Total(blocks[..|blocks| - 1]) + |blocks[|blocks| - 1].pktIndices|
  }

  lemma {:induction false} TotalUpdate(blocks: seq<Eraseblock>, b: nat, e: Eraseblock)
    requires b < |blocks|
    ensures Total(blocks[b := e]) == Total(blocks) - |blocks[b].pktIndices| + |e.pktIndices|
  {
    var n := |blocks| - 1;
    if b == n {
      assert blocks[b := e][..n] == blocks[..n];
    } else {
      TotalUpdate(blocks[..n], b, e);
      assert blocks[b := e][..n] == blocks[..n][b := e];
    }
  }

  lemma {:induction false} TotalFull(blocks: seq<Eraseblock>, k: nat)
    requires forall b :: 0 <= b < |blocks| ==> |blocks[b].pktIndices| <= k
    ensures Total(blocks) <= |blocks| * k
    ensures Total(blocks) == |blocks| * k ==> forall b :: 0 <= b < |blocks| ==> |blocks[b].pktIndices| == k
  {
    if |blocks| > 0 {
      var n := |blocks| - 1;
      TotalFull(blocks[..n], k);
      assert (n + 1) * k == n * k + k;
      assert blocks == blocks[..n] + [blocks[n]];
    }
  }

  /** nr_pkts is the number of packets stored as long as some are missing. */
  ghost predicate Counted(e: Eraseblock, k: nat)
  {
    if |e.pktIndices| < k then e.nrPkts == |e.pktIndices| else e.nrPkts >= |e.pktIndices|
  }

  /** What is known about block b at any time. */
  ghost predicate BlockValid(image: seq<Mat>, k: nat, n: nat, b: nat, e: Eraseblock, flash: map<int, Gf>,
                             erasesize: nat, mtdoffset: int)
    requires erasesize > 0
  {
    && IsImage(image, k) && b < |image|
    && |e.pktIndices| <= k && Counted(e, k) && NoRepeats(e.pktIndices)
    && (forall i :: 0 <= i < |e.pktIndices| ==> e.pktIndices[i] < n)
    && BlockHolds(Stream(image, k, b, e.pktIndices), e, flash)
    && 0 <= Base(e) && Base(e) % erasesize == 0 && Base(e) + erasesize <= mtdoffset
  }

  ghost predicate Apart(blocks: seq<Eraseblock>, erasesize: nat)
  {
    forall b, c :: 0 <= b < |blocks| && 0 <= c < |blocks| && b != c ==>
      Base(blocks[b]) + erasesize <= Base(blocks[c]) || Base(blocks[c]) + erasesize <= Base(blocks[b])
  }

  /** A change outside a block's own flash does not affect it. */
  lemma BlockFramed(image: seq<Mat>, k: nat, n: nat, b: nat, e: Eraseblock, flash: map<int, Gf>, flash': map<int, Gf>,
                    erasesize: nat, mtdoffset: int, mtdoffset': int)
    requires erasesize > 0 && erasesize % WBUF_SIZE == 0 && k == PktsPerBlock(erasesize)
    requires BlockValid(image, k, n, b, e, flash, erasesize, mtdoffset) && mtdoffset <= mtdoffset'
    requires forall i :: Base(e) <= i < Base(e) + erasesize && i in flash ==> i in flash' && flash'[i] == flash[i]
    ensures BlockValid(image, k, n, b, e, flash', erasesize, mtdoffset')
  {
    hide Stream, BlockHolds;
    FlushedBound(erasesize, |e.pktIndices|);
    HoldsFramed(Stream(image, k, b, e.pktIndices), e, flash, flash', erasesize);
  }

  /** The next packet of a block, when the write buffer has room. */
  lemma BlockBuffered(image: seq<Mat>, k: nat, n: nat, b: nat, e: Eraseblock, flash: map<int, Gf>,
                      erasesize: nat, mtdoffset: int, i: nat)
    requires erasesize > 0 && BlockValid(image, k, n, b, e, flash, erasesize, mtdoffset)
    requires i < n && i !in e.pktIndices && |e.pktIndices| < k && e.wbufOfs + PKT_SIZE < WBUF_SIZE
    ensures 0 <= e.wbufOfs && |e.wbuf| == WBUF_SIZE
    ensures var e' := Buffered(e, Content(image, k, b, i), i);
      BlockValid(image, k, n, b, e', flash, erasesize, mtdoffset) && Base(e') == Base(e)
  {
    hide Stream, BlockHolds, Content;
    BlockShape(Stream(image, k, b, e.pktIndices), e, flash);
    StreamAppend(image, k, b, e.pktIndices, i);
    HoldsBuffered(Stream(image, k, b, e.pktIndices), e, flash, Content(image, k, b, i), i);
  }

  /** The next packet of a block, when it completes a write buffer and the flash write succeeds. */
  lemma BlockFlushed(image: seq<Mat>, k: nat, n: nat, b: nat, e: Eraseblock, flash: map<int, Gf>,
                     erasesize: nat, mtdoffset: int, i: nat)
    requires erasesize > 0 && BlockValid(image, k, n, b, e, flash, erasesize, mtdoffset)
    requires i < n && i !in e.pktIndices && |e.pktIndices| < k && e.wbufOfs + PKT_SIZE >= WBUF_SIZE
    ensures 0 <= e.wbufOfs < WBUF_SIZE && |e.wbuf| == WBUF_SIZE
    ensures var data := Content(image, k, b, i);
      var e' := AfterFlush(e, data, i);
      && BlockValid(image, k, n, b, e', WriteAt(flash, e.flashOffset, FullBuffer(e, data)), erasesize, mtdoffset)
      && Base(e') == Base(e)
  {
    hide Stream, BlockHolds, Content, WriteAt, FullBuffer;
    BlockShape(Stream(image, k, b, e.pktIndices), e, flash);
    StreamAppend(image, k, b, e.pktIndices, i);
    HoldsFlushed(Stream(image, k, b, e.pktIndices), e, flash, Content(image, k, b, i), i);
  }

  lemma BlockShape(s: Vec, e: Eraseblock, flash: map<int, Gf>)
    requires BlockHolds(s, e, flash)
    ensures 0 <= e.wbufOfs < WBUF_SIZE && |e.wbuf| == WBUF_SIZE
  {
  }

  /** A block without packets. */
  lemma BlockEmpty(image: seq<Mat>, k: nat, n: nat, b: nat, e: Eraseblock, flash: map<int, Gf>,
                   erasesize: nat, mtdoffset: int)
    requires IsImage(image, k) && b < |image| && erasesize > 0
    requires e.pktIndices == [] && e.nrPkts == 0 && e.wbufOfs == 0 && |e.wbuf| == WBUF_SIZE
    requires 0 <= e.flashOffset && e.flashOffset % erasesize == 0 && e.flashOffset + erasesize <= mtdoffset
    ensures BlockValid(image, k, n, b, e, flash, erasesize, mtdoffset) && Base(e) == e.flashOffset
  {
  }

  /** Masking the flash offset of an unfinished block finds where its flash block begins. */
  lemma EraseStart(e: Eraseblock, erasesize: nat)
    requires erasesize > 0 && erasesize % WBUF_SIZE == 0 && |e.pktIndices| < PktsPerBlock(erasesize)
    requires 0 <= Base(e) && Base(e) % erasesize == 0
    ensures e.flashOffset - e.flashOffset % erasesize == Base(e)
    ensures e.flashOffset + WBUF_SIZE <= Base(e) + erasesize
  {
    FlushedBound(erasesize, |e.pktIndices|);
    var f := Flushed(|e.pktIndices|);
    ModuloAdd(Base(e), f, erasesize);
  }

  lemma ModuloAdd(a: int, f: int, m: int)
    requires 0 <= f < m && a % m == 0
    ensures (a + f) % m == f
  {
    var q, q' := a / m, (a + f) / m;
    var d, r := q' - q, (a + f) % m;
    assert a == q * m;
    assert a + f == q' * m + r;
    assert d * m == f - r;
    MultipleBelow(d, m);
  }

  /** Every block is valid, and the blocks use different parts of the flash. */
  ghost predicate AllValid(image: seq<Mat>, k: nat, n: nat, blocks: seq<Eraseblock>, flash: map<int, Gf>,
                           erasesize: nat, mtdoffset: int)
  {
    && erasesize > 0 && |blocks| == |image| && Apart(blocks, erasesize)
    && forall b :: 0 <= b < |blocks| ==> BlockValid(image, k, n, b, blocks[b], flash, erasesize, mtdoffset)
  }

  /** Replacing one block by a valid one that uses the same or fresh flash keeps all blocks valid. */
  lemma ReplaceBlock(image: seq<Mat>, k: nat, n: nat, blocks: seq<Eraseblock>, flash: map<int, Gf>,
    flash': map<int, Gf>,
                     erasesize: nat, mtdoffset: int, mtdoffset': int, b: nat, e: Eraseblock)
    requires erasesize % WBUF_SIZE == 0 && k == PktsPerBlock(erasesize) && mtdoffset <= mtdoffset'
    requires AllValid(image, k, n, blocks, flash, erasesize, mtdoffset) && b < |blocks|
    requires BlockValid(image, k, n, b, e, flash', erasesize, mtdoffset')
    requires Base(e) == Base(blocks[b]) || Base(e) >= mtdoffset
    requires forall i :: i in flash && !(Base(blocks[b]) <= i < Base(blocks[b]) + erasesize) ==>
      i in flash' && flash'[i] == flash[i]
    ensures AllValid(image, k, n, blocks[b := e], flash', erasesize, mtdoffset')
  {
    hide BlockHolds, Stream, Base;
    var blocks' := blocks[b := e];
    forall c | 0 <= c < |blocks'| ensures BlockValid(image, k, n, c, blocks'[c], flash', erasesize, mtdoffset') {
      if c != b {
        BlockFramed(image, k, n, c, blocks[c], flash, flash', erasesize, mtdoffset, mtdoffset');
      }
    }
  }

  /** Packets that are not stored: duplicates, packets for a complete block, damaged packets. */
  predicate Rejected(e: Eraseblock, p: Packet, k: nat)
  {
    p.pktNr in e.pktIndices || |e.pktIndices| >= k || !p.crcOk
  }

  /** Nothing but the count of packets that are not needed changes. */
  ghost predicate Ignored(e: Eraseblock, after: Eraseblock, p: Packet, k: nat)
  {
    && after == e.(nrPkts := after.nrPkts)
    && (after.nrPkts == e.nrPkts
      || (p.pktNr !in e.pktIndices && |e.pktIndices| >= k && after.nrPkts == e.nrPkts + 1))
  }

  /** The packet numbers of a block after it takes a packet: a failed write forgets the others. */
  function IndicesAfter(e: Eraseblock, p: Packet, writeOk: bool): seq<nat>
  {
    (if e.wbufOfs + PKT_SIZE < WBUF_SIZE || writeOk then e.pktIndices else []) + [p.pktNr]
  }

  ghost predicate AllFull(blocks: seq<Eraseblock>, k: nat)
  {
    forall b :: 0 <= b < |blocks| ==> |blocks[b].pktIndices| == k
  }

  class ImageReceiver {
    const erasesize: nat
    const size: int            // of the flash device
    const fileMode: bool
    const nrBlocks: nat
    const pktsPerBlock: nat
    const eraseblocks: array<Eraseblock>
    var flash: map<int, Gf>
    var totalPkts: int
    var mtdoffset: int

    ghost predicate Valid(image: seq<Mat>, n: nat)
      reads this, eraseblocks
    {
      && erasesize % WBUF_SIZE == 0
      && pktsPerBlock == PktsPerBlock(erasesize) && nrBlocks == eraseblocks.Length
      && AllValid(image, pktsPerBlock, n, eraseblocks[..], flash, erasesize, mtdoffset)
      && 0 <= mtdoffset && mtdoffset % erasesize == 0
      && totalPkts == Total(eraseblocks[..])
    }

    constructor (erasesize: nat, size: int, fileMode: bool, offsets: seq<int>, mtdoffset: int)
      ensures this.erasesize == erasesize && this.size == size && this.fileMode == fileMode
      ensures nrBlocks == |offsets| && pktsPerBlock == PktsPerBlock(erasesize) && this.mtdoffset == mtdoffset
      ensures fresh(eraseblocks) && eraseblocks.Length == nrBlocks && totalPkts == 0
      ensures forall b :: 0 <= b < nrBlocks ==>
        eraseblocks[b] == Eraseblock(offsets[b], seq(WBUF_SIZE, _ => 0), 0, [], 0)
    {
      this.erasesize, this.size, this.fileMode := erasesize, size, fileMode;
      nrBlocks, pktsPerBlock := |offsets|, PktsPerBlock(erasesize);
      flash, totalPkts, this.mtdoffset := map[], 0, mtdoffset;
      eraseblocks := new Eraseblock[|offsets|](i requires 0 <= i < |offsets| =>
        Eraseblock(offsets[i], seq(WBUF_SIZE, _ => 0), 0, [], 0));
    }

    /** A packet that passes its checksum is the one the sender made. */
    ghost predicate Genuine(p: Packet, image: seq<Mat>, n: nat)
      reads this
    {
      IsImage(image, pktsPerBlock) && (p.crcOk && p.blockNr < |image| ==>
        p.pktNr < n && p.data == Content(image, pktsPerBlock, p.blockNr, p.pktNr))
    }

    /** The search for the packet number. For a complete block it may go on behind the numbers stored, where
        anything can stand. */
    method IsDuplicate(e: Eraseblock, pktNr: nat) returns (found: bool)
      requires Counted(e, pktsPerBlock)
      ensures pktNr in e.pktIndices ==> found
      ensures found ==> pktNr in e.pktIndices || |e.pktIndices| >= pktsPerBlock
    {
      for i := 0 to e.nrPkts
        invariant forall j :: 0 <= j < i && j < |e.pktIndices| ==> e.pktIndices[j] != pktNr
      {
        var number: nat := *;
        if i < |e.pktIndices| {
          number := e.pktIndices[i];
        }
        if number == pktNr {
          return true;
        }
      }
      found := false;
    }

    /** Put e in place of block b and account for its packets. */
    method Store(b: nat, e: Eraseblock, flash': map<int, Gf>, mtdoffset': int, ghost image: seq<Mat>, ghost n: nat)
      requires Valid(image, n) && b < nrBlocks && mtdoffset <= mtdoffset' && mtdoffset' % erasesize == 0
      requires BlockValid(image, pktsPerBlock, n, b, e, flash', erasesize, mtdoffset')
      requires Base(e) == Base(eraseblocks[b]) || Base(e) >= mtdoffset
      requires var base := Base(eraseblocks[b]);
        forall i :: i in flash && !(base <= i < base + erasesize) ==> i in flash' && flash'[i] == flash[i]
      modifies this, eraseblocks
      ensures Valid(image, n)
      ensures eraseblocks[..] == old(eraseblocks[..])[b := e]
      ensures flash == flash' && mtdoffset == mtdoffset'
    {
      hide AllValid, BlockValid, Base;
      ghost var blocks := eraseblocks[..];
      ReplaceBlock(image, pktsPerBlock, n, blocks, flash, flash', erasesize, mtdoffset, mtdoffset', b, e);
      TotalUpdate(blocks, b, e);
      totalPkts := totalPkts + |e.pktIndices| - |eraseblocks[b].pktIndices|;
      eraseblocks[b] := e;
      flash, mtdoffset := flash', mtdoffset';
      assert eraseblocks[..] == blocks[b := e];
    }

    /** The place behind so many bad blocks is still on the device. */
    ghost predicate OnDevice(badBlocks: nat)
      reads this`mtdoffset
    {
      badBlocks == 0 || mtdoffset + badBlocks * erasesize < size
    }

    method SkipBadBlocks(badBlocks: nat) returns (found: bool, next: int)
      requires erasesize > 0 && mtdoffset % erasesize == 0
      ensures found <==> OnDevice(badBlocks)
      ensures found ==> next == mtdoffset + badBlocks * erasesize && mtdoffset <= next && next % erasesize == 0
    {
      next := mtdoffset;
      for i := 0 to badBlocks
        invariant mtdoffset <= next && next % erasesize == 0
        invariant next == mtdoffset + i * erasesize && (i > 0 ==> next < size)
      {
        StepKeepsAlignment(next, erasesize);
        FewerBlocks(i, badBlocks, erasesize);
        next := next + erasesize;
        if next >= size {
          return false, next;
        }
      }
      found := true;
    }

    /** After a failed write, there is somewhere to start again. */
    ghost predicate CanRelocate(ev: FlashEvent)
      reads this`mtdoffset
    {
      !fileMode && ev.eraseOk && mtdoffset < size && OnDevice(ev.badBlocks)
    }

    /** A failed write: erase the block, find the next usable one and start again there with the
        packet at hand, which now fits into the empty buffer. */
    method Relocate(b: nat, data: Vec, pktNr: nat, ev: FlashEvent, ghost image: seq<Mat>, ghost n: nat)
      returns (ok: bool)
      requires Valid(image, n) && b < nrBlocks && |eraseblocks[b].pktIndices| < pktsPerBlock
      requires pktNr < n && data == Content(image, pktsPerBlock, b, pktNr) && |ev.junk| <= WBUF_SIZE
      modifies this, eraseblocks
      ensures ok <==> old(CanRelocate(ev))
      ensures ok ==> Valid(image, n)
      ensures ok ==> eraseblocks[b].pktIndices == [pktNr] && eraseblocks[b].nrPkts == 1
      ensures ok ==> Base(eraseblocks[b]) == old(mtdoffset) + ev.badBlocks * erasesize
      ensures ok ==> mtdoffset == Base(eraseblocks[b]) + erasesize
      ensures ok ==> forall c :: 0 <= c < nrBlocks && c != b ==> eraseblocks[c] == old(eraseblocks[c])
    {
      hide AllValid, Content, Stream, BlockHolds, WriteAt;
      var e := eraseblocks[b];
      BlockOf(image, n, b);
      EraseStart(e, erasesize);
      var failed := WriteAt(flash, e.flashOffset, ev.junk);
      if fileMode || !ev.eraseOk {
        return false;
      }
      var start := e.flashOffset - e.flashOffset % erasesize;
      var erased := WriteAt(failed, start, seq(erasesize, _ => 255));
      if mtdoffset >= size {
        return false;
      }
      var found, next := SkipBadBlocks(ev.badBlocks);
      if !found {
        return false;
      }
      var empty := Eraseblock(next, e.wbuf, 0, [], 0);
      BlockEmpty(image, pktsPerBlock, n, b, empty, erased, erasesize, next + erasesize);
      BlockBuffered(image, pktsPerBlock, n, b, empty, erased, erasesize, next + erasesize, pktNr);
      StepKeepsAlignment(next, erasesize);
      Store(b, Buffered(empty, data, pktNr), erased, next + erasesize, image, n);
      ok := true;
    }

    lemma BlockOf(image: seq<Mat>, n: nat, b: nat)
      requires Valid(image, n) && b < nrBlocks
      ensures erasesize > 0 && IsImage(image, pktsPerBlock) && nrBlocks == |image|
      ensures BlockValid(image, pktsPerBlock, n, b, eraseblocks[b], flash, erasesize, mtdoffset)
      ensures 0 <= eraseblocks[b].wbufOfs < WBUF_SIZE && |eraseblocks[b].wbuf| == WBUF_SIZE
    {
    }

    /** The block has moved to the first place behind the bad blocks, and the next free one comes after it. */
    ghost predicate Moved(e: Eraseblock, before: int, after: int, badBlocks: nat)
    {
      Base(e) == before + badBlocks * erasesize && after == Base(e) + erasesize
    }

    /** Handle one packet. */
    method Receive(p: Packet, ev: FlashEvent, ghost image: seq<Mat>, ghost n: nat) returns (outcome: Outcome)
      requires Valid(image, n) && Genuine(p, image, n) && |ev.junk| <= WBUF_SIZE
      modifies this, eraseblocks
      ensures outcome != Exit ==> Valid(image, n)
      ensures outcome == Exit <==>
        || p.blockNr >= eraseblocks.Length
        || (var e := old(eraseblocks[..])[p.blockNr];
          && !Rejected(e, p, pktsPerBlock) && e.wbufOfs + PKT_SIZE >= WBUF_SIZE
          && !ev.writeOk && !old(CanRelocate(ev)))
      ensures outcome == Dropped <==>
        p.blockNr < eraseblocks.Length && Rejected(old(eraseblocks[..])[p.blockNr], p, pktsPerBlock)
      ensures outcome == Dropped ==>
        && Ignored(old(eraseblocks[..])[p.blockNr], eraseblocks[p.blockNr], p, pktsPerBlock) && flash == old(flash)
        && forall c :: 0 <= c < eraseblocks.Length && c != p.blockNr ==> eraseblocks[c] == old(eraseblocks[..])[c]
      ensures outcome == Stored || outcome == Complete ==>
        && p.blockNr < eraseblocks.Length
        && eraseblocks[p.blockNr].pktIndices == IndicesAfter(old(eraseblocks[..])[p.blockNr], p, ev.writeOk)
        && forall c :: 0 <= c < eraseblocks.Length && c != p.blockNr ==> eraseblocks[c] == old(eraseblocks[..])[c]
      ensures outcome == Stored || outcome == Complete ==>
        var e := old(eraseblocks[..])[p.blockNr];
        if e.wbufOfs + PKT_SIZE < WBUF_SIZE || ev.writeOk
        then Base(eraseblocks[p.blockNr]) == Base(e) && mtdoffset == old(mtdoffset)
        else Moved(eraseblocks[p.blockNr], old(mtdoffset), mtdoffset, ev.badBlocks)
      ensures outcome == Complete ==> AllFull(eraseblocks[..], pktsPerBlock)
      ensures outcome == Stored ==> !AllFull(eraseblocks[..], pktsPerBlock)
    {
      hide AllValid, Content, Stream, BlockHolds, WriteAt;
      var b := p.blockNr;
      if b >= nrBlocks {
        return Exit;
      }
      var e := eraseblocks[b];
      BlockOf(image, n, b);
      var duplicate := IsDuplicate(e, p.pktNr);
      if duplicate {
        return Dropped;
      }
      if e.nrPkts >= pktsPerBlock {
        Superfluous(image, n, b);
        Store(b, e.(nrPkts := e.nrPkts + 1), flash, mtdoffset, image, n);
        return Dropped;
      }
      if !p.crcOk {
        return Dropped;
      }
      if e.wbufOfs + PKT_SIZE < WBUF_SIZE {
        BlockBuffered(image, pktsPerBlock, n, b, e, flash, erasesize, mtdoffset, p.pktNr);
        Store(b, Buffered(e, p.data, p.pktNr), flash, mtdoffset, image, n);
      } else if ev.writeOk {
        BlockFlushed(image, pktsPerBlock, n, b, e, flash, erasesize, mtdoffset, p.pktNr);
        EraseStart(e, erasesize);
        var flash' := WriteAt(flash, e.flashOffset, FullBuffer(e, p.data));
        Store(b, AfterFlush(e, p.data, p.pktNr), flash', mtdoffset, image, n);
      } else {
        var ok := Relocate(b, p.data, p.pktNr, ev, image, n);
        if !ok {
          return Exit;
        }
      }
      outcome := Finished(b, image, n);
    }

    /** Counting a packet that is not needed keeps a block as it is. */
    lemma Superfluous(image: seq<Mat>, n: nat, b: nat)
      requires Valid(image, n) && b < nrBlocks && eraseblocks[b].nrPkts >= pktsPerBlock
      ensures var e := eraseblocks[b].(nrPkts := eraseblocks[b].nrPkts + 1);
        && BlockValid(image, pktsPerBlock, n, b, e, flash, erasesize, mtdoffset)
        && Base(e) == Base(eraseblocks[b])
    {
      BlockOf(image, n, b);
      hide Stream, AllValid;
    }

    /** Reception ends when the last block has all its packets. */
    method Finished(b: nat, ghost image: seq<Mat>, ghost n: nat) returns (outcome: Outcome)
      requires Valid(image, n) && b < nrBlocks && eraseblocks[b].nrPkts == |eraseblocks[b].pktIndices|
      ensures outcome == Stored || outcome == Complete
      ensures outcome == Complete <==> AllFull(eraseblocks[..], pktsPerBlock)
    {
      BlockOf(image, n, b);
      ghost var blocks := eraseblocks[..];
      TotalFull(blocks, pktsPerBlock);
      if AllFull(blocks, pktsPerBlock) {
        TotalOfFull(blocks, pktsPerBlock);
      }
      assert blocks[b] == eraseblocks[b];
      if eraseblocks[b].nrPkts == pktsPerBlock && totalPkts == nrBlocks * pktsPerBlock {
        return Complete;
      }
      return Stored;
    }
  }

  lemma {:induction false} TotalOfFull(blocks: seq<Eraseblock>, k: nat)
    requires AllFull(blocks, k)
    ensures Total(blocks) == |blocks| * k
  {
    if |blocks| > 0 {
      var n := |blocks| - 1;
      TotalOfFull(blocks[..n], k);
      assert (n + 1) * k == n * k + k;
    }
  }

  lemma FewerBlocks(i: nat, n: nat, m: nat)
    requires i < n
    ensures (i + 1) * m == i * m + m <= n * m
  {
    assert n * m - (i + 1) * m == (n - i - 1) * m;
    assert (n - i - 1) * m >= 0;
  }

  lemma StepKeepsAlignment(x: int, m: int)
    requires m > 0 && x % m == 0
    ensures (x + m) % m == 0
  {
    var q, q', r := x / m, (x + m) / m, (x + m) % m;
    assert x == q * m;
    assert x + m == q' * m + r;
    assert (q + 1 - q') * m == r;
    MultipleBelow(q + 1 - q', m);
  }
}
