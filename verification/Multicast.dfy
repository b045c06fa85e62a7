// The whole of misc-utils/recv_image.c up to the decoded image: place the blocks, receive packets
// until every block has enough of them, read each block back and decode it.

module Multicast {
  import opened Basics
  import opened GaloisField
  import opened LinearAlgebra
  import opened Receiver
  import FecCode
  import Fec
  import FecDecode

  /* ---------------------------------------------------------------- placing the blocks */

  /** What MEMGETBADBLOCK says about a flash block; behind the end of the device it says nothing. */
  predicate BadAt(bad: seq<bool>, q: nat)
  {
    q < |bad| && bad[q]
  }

  /** How many of the first n flash blocks are not bad. */
  function Goods(bad: seq<bool>, n: nat): nat
  {
    if n == 0 then 0 else Goods(bad, n - 1) + if BadAt(bad, n - 1) then 0 else 1
  }

  lemma {:induction false} GoodsGrow(bad: seq<bool>, m: nat, n: nat)
    requires m <= n
    ensures Goods(bad, m) <= Goods(bad, n) <= Goods(bad, m) + (n - m)
    decreases n
  {
    if m < n {
      GoodsGrow(bad, m, n - 1);
    }
  }

  /** The first end flash blocks without those that are bad, in order. */
  ghost predicate FirstGood(at: seq<nat>, end: nat, bad: seq<bool>)
  {
    && (forall b :: 0 <= b < |at| ==> at[b] < end && !BadAt(bad, at[b]))
    && (forall b, c :: 0 <= b < c < |at| ==> at[b] < at[c])
    && (forall q :: 0 <= q < end ==> q in at || BadAt(bad, q))
  }

  lemma WithoutBad(at: seq<nat>, end: nat, bad: seq<bool>)
    requires FirstGood(at, end, bad) && end > 0 && BadAt(bad, end - 1)
    ensures FirstGood(at, end - 1, bad)
  {
  }

  lemma WithoutLast(at: seq<nat>, end: nat, bad: seq<bool>)
    requires FirstGood(at, end, bad) && end > 0 && !BadAt(bad, end - 1)
    ensures |at| > 0 && at[|at| - 1] == end - 1 && FirstGood(at[..|at| - 1], end - 1, bad)
  {
    var b :| 0 <= b < |at| && at[b] == end - 1;
    var last := |at| - 1;
    assert at[b] <= at[last] < end;
    var rest := at[..last];
    forall q | 0 <= q < end - 1 ensures q in rest || BadAt(bad, q) {
      if q in at {
        var c :| 0 <= c < |at| && at[c] == q;
        assert rest[c] == q;
      }
    }
  }

  lemma NoneBefore(at: seq<nat>, bad: seq<bool>)
    requires FirstGood(at, 0, bad)
    ensures at == []
  {
    hide FirstGood;
    if |at| > 0 {
      PlacedBelow(at, 0, bad, 0);
    }
  }

  lemma {:induction false} FirstGoodCount(at: seq<nat>, end: nat, bad: seq<bool>)
    requires FirstGood(at, end, bad)
    ensures |at| == Goods(bad, end)
    ensures Goods(bad, end) == end ==> forall b :: 0 <= b < |at| ==> at[b] == b
  {
    hide FirstGood;
    if end == 0 {
      NoneBefore(at, bad);
    } else if BadAt(bad, end - 1) {
      WithoutBad(at, end, bad);
      FirstGoodCount(at, end - 1, bad);
      GoodsGrow(bad, 0, end - 1);
    } else {
      WithoutLast(at, end, bad);
      FirstGoodCount(at[..|at| - 1], end - 1, bad);
    }
  }

  lemma FirstGoodBad(at: seq<nat>, end: nat, bad: seq<bool>)
    requires FirstGood(at, end, bad) && BadAt(bad, end)
    ensures FirstGood(at, end + 1, bad)
  {
  }

  lemma FirstGoodNext(at: seq<nat>, end: nat, bad: seq<bool>)
    requires FirstGood(at, end, bad) && !BadAt(bad, end)
    ensures FirstGood(at + [end], end + 1, bad)
  {
    var next := at + [end];
    forall q | 0 <= q < end + 1 ensures q in next || BadAt(bad, q) {
      if q == end {
        assert next[|at|] == q;
      } else if q in at {
        var b :| 0 <= b < |at| && at[b] == q;
        assert next[b] == q;
      }
    }
  }

  /** The placing can succeed: the search for the last block begins on the device. */
  predicate CanPlace(nrBlocks: nat, bad: seq<bool>)
  {
    nrBlocks == 0 || (|bad| > 0 && Goods(bad, |bad| - 1) >= nrBlocks - 1)
  }

  lemma BlockNumber(q: nat, erasesize: nat)
    requires erasesize > 0
    ensures q * erasesize / erasesize == q && q * erasesize % erasesize == 0
    ensures (q + 1) * erasesize == q * erasesize + erasesize
  {
    var d, r := q * erasesize / erasesize - q, q * erasesize % erasesize;
    assert d * erasesize == -r;
    MultipleBelow(d, erasesize);
  }

  lemma Scaled(p: nat, q: nat, erasesize: nat)
    requires erasesize > 0
    ensures p < q <==> p * erasesize < q * erasesize
    ensures p < q ==> p * erasesize + erasesize <= q * erasesize
  {
    assert (q - p) * erasesize == q * erasesize - p * erasesize;
    assert q - p >= 1 ==> (q - p) * erasesize >= erasesize;
    assert q - p <= 0 ==> (q - p) * erasesize <= 0;
  }

  /** Go to the next flash block that is not bad. */
  method NextGood(erasesize: nat, bad: seq<bool>, start: nat, ghost q0: nat, ghost at: seq<nat>)
    returns (mtdoffset: nat, ghost q: nat)
    requires erasesize > 0 && start == q0 * erasesize && FirstGood(at, q0, bad)
    ensures q0 <= q && mtdoffset == q * erasesize && FirstGood(at, q, bad) && !BadAt(bad, q)
  {
    hide FirstGood;
    mtdoffset, q := start, q0;
    BlockNumber(q, erasesize);
    while BadAt(bad, mtdoffset / erasesize)
      invariant q0 <= q && mtdoffset == q * erasesize && mtdoffset / erasesize == q && FirstGood(at, q, bad)
      decreases |bad| - q
    {
      FirstGoodBad(at, q, bad);
      BlockNumber(q, erasesize);
      BlockNumber(q + 1, erasesize);
      mtdoffset := mtdoffset + erasesize;
      q := q + 1;
    }
  }

  /** Give every block of the image a flash block that is not bad: the first ones there are, and in a file just
      the first ones. The placing fails exactly if the search for the last of them begins off the device. */
  method PlaceBlocks(erasesize: nat, fileMode: bool, nrBlocks: nat, bad: seq<bool>)
    returns (ok: bool, offsets: seq<int>, mtdoffset: nat, ghost at: seq<nat>, ghost end: nat)
    requires erasesize > 0
    ensures ok <==> fileMode || CanPlace(nrBlocks, bad)
    ensures !ok ==> Goods(bad, |bad|) < nrBlocks
    ensures ok ==> |offsets| == |at| == nrBlocks && mtdoffset == end * erasesize
    ensures ok ==> FirstGood(at, end, if fileMode then [] else bad)
    ensures ok ==> forall b :: 0 <= b < |offsets| ==> offsets[b] == at[b] * erasesize
    ensures ok && !fileMode && nrBlocks > 0 ==> (at[nrBlocks - 1] < |bad| <==> Goods(bad, |bad|) >= nrBlocks)
    ensures ok && (fileMode || true !in bad) ==> forall b :: 0 <= b < |offsets| ==> offsets[b] == b * erasesize
  {
    hide FirstGood, CanPlace, Goods;
    ghost var flags := if fileMode then [] else bad;
    offsets, mtdoffset, at, end := [], 0, [], 0;
    NothingPlaced(flags);
    ghost var before := 0;
    for i := 0 to nrBlocks
      invariant |offsets| == |at| == i && mtdoffset == end * erasesize && FirstGood(at, end, flags)
      invariant forall b :: 0 <= b < i ==> offsets[b] == at[b] * erasesize
      invariant if i == 0 then end == 0 else end > 0 && at[i - 1] == end - 1 && Goods(flags, end - 1) == i - 1
      invariant i > 0 && !fileMode ==> before < |bad| && Goods(bad, before) == i - 1
    {
      FirstGoodCount(at, end, flags);
      if !fileMode {
        Scaled(end, |bad|, erasesize);
        if mtdoffset >= |bad| * erasesize {
          CannotPlace(nrBlocks, bad, end, i);
          return false, offsets, mtdoffset, at, end;
        }
        before := end;
        mtdoffset, end := NextGood(erasesize, bad, mtdoffset, end, at);
      }
      FirstGoodCount(at, end, flags);
      FirstGoodNext(at, end, flags);
      BlockNumber(end, erasesize);
      offsets, at := offsets + [mtdoffset], at + [end];
      mtdoffset := mtdoffset + erasesize;
      end := end + 1;
    }
    ok := true;
    FirstGoodCount(at, end, flags);
    if !fileMode {
      Placed(nrBlocks, bad, before, end);
    }
    if fileMode || true !in bad {
      NoneBad(flags, end);
    }
  }

  lemma CannotPlace(nrBlocks: nat, bad: seq<bool>, end: nat, i: nat)
    requires i < nrBlocks && end >= |bad|
    requires if i == 0 then end == 0 else end > 0 && Goods(bad, end - 1) == i - 1
    ensures !CanPlace(nrBlocks, bad) && Goods(bad, |bad|) < nrBlocks
  {
    if |bad| > 0 {
      GoodsGrow(bad, |bad| - 1, end - 1);
    }
  }

  lemma Placed(nrBlocks: nat, bad: seq<bool>, before: nat, end: nat)
    requires nrBlocks > 0 ==> before < |bad| && Goods(bad, before) == nrBlocks - 1
    requires nrBlocks > 0 ==> end > 0 && Goods(bad, end - 1) == nrBlocks - 1 && Goods(bad, end) == nrBlocks
    ensures CanPlace(nrBlocks, bad)
    ensures nrBlocks > 0 ==> (end - 1 < |bad| <==> Goods(bad, |bad|) >= nrBlocks)
  {
    if nrBlocks > 0 {
      GoodsGrow(bad, before, |bad| - 1);
      if end - 1 < |bad| {
        GoodsGrow(bad, end, |bad|);
      } else {
        GoodsGrow(bad, |bad|, end - 1);
      }
    }
  }

  lemma NothingPlaced(bad: seq<bool>)
    ensures FirstGood([], 0, bad) && Goods(bad, 0) == 0
  {
  }

  lemma {:induction false} NoneBad(bad: seq<bool>, n: nat)
    requires true !in bad
    ensures Goods(bad, n) == n
  {
    if n > 0 {
      NoneBad(bad, n - 1);
      assert n - 1 < |bad| ==> bad[n - 1] in bad;
    }
  }

  /** On a device of one block, which is bad, an image of one block is placed, but off the device. */
  method PlacedOffDevice(erasesize: nat) returns (offsets: seq<int>)
    requires erasesize > 0
    ensures |offsets| == 1 && offsets[0] >= erasesize
  {
    var ok, mtdoffset; ghost var at, end;
    assert Goods([true], 0) == 0 && Goods([true], 1) == 0;
    ok, offsets, mtdoffset, at, end := PlaceBlocks(erasesize, false, 1, [true]);
    Scaled(at[0], 1, erasesize);
  }

  /** The receiver after the first packet has announced the image. */
  method StartReceiver(erasesize: nat, fileMode: bool, bad: seq<bool>, nrBlocks: nat,
    ghost image: seq<Mat>, ghost n: nat) returns (r: ImageReceiver?, ghost at: seq<nat>, ghost end: nat)
    requires erasesize > 0 && erasesize % WBUF_SIZE == 0
    requires IsImage(image, PktsPerBlock(erasesize)) && nrBlocks == |image|
    ensures r == null <==> !fileMode && !CanPlace(nrBlocks, bad)
    ensures r != null ==> fresh(r) && fresh(r.eraseblocks) && r.erasesize == erasesize && r.Valid(image, n)
    ensures r != null ==> r.eraseblocks.Length == |at| == nrBlocks && r.mtdoffset == end * erasesize
    ensures r != null ==> FirstGood(at, end, if fileMode then [] else bad)
    ensures r != null ==> forall b :: 0 <= b < r.eraseblocks.Length ==>
      r.eraseblocks[b].pktIndices == [] && r.eraseblocks[b].flashOffset == at[b] * erasesize
  {
    hide FirstGood, CanPlace;
    var ok, offsets, mtdoffset;
    ok, offsets, mtdoffset, at, end := PlaceBlocks(erasesize, fileMode, nrBlocks, bad);
    if !ok {
      r := null;
      return;
    }
    BlockNumber(end, erasesize);
    var receiver := new ImageReceiver(erasesize, |bad| * erasesize, fileMode, offsets, mtdoffset);
    ghost var blocks := receiver.eraseblocks[..];
    forall b | 0 <= b < |blocks|
      ensures BlockValid(image, receiver.pktsPerBlock, n, b, blocks[b], receiver.flash, erasesize, mtdoffset)
      ensures Base(blocks[b]) == at[b] * erasesize
    {
      BlockNumber(at[b], erasesize);
      PlacedBelow(at, end, if fileMode then [] else bad, b);
      Scaled(at[b], end, erasesize);
      BlockEmpty(image, receiver.pktsPerBlock, n, b, blocks[b], receiver.flash, erasesize, mtdoffset);
    }
    forall b, c | 0 <= b < |blocks| && 0 <= c < |blocks| && b != c
      ensures Base(blocks[b]) + erasesize <= Base(blocks[c]) || Base(blocks[c]) + erasesize <= Base(blocks[b])
    {
      PlacedApart(at, end, if fileMode then [] else bad, b, c);
      Scaled(at[b], at[c], erasesize);
      Scaled(at[c], at[b], erasesize);
    }
    NothingReceived(blocks);
    r := receiver;
  }

  lemma PlacedBelow(at: seq<nat>, end: nat, bad: seq<bool>, b: nat)
    requires FirstGood(at, end, bad) && b < |at|
    ensures at[b] < end
  {
  }

  lemma PlacedApart(at: seq<nat>, end: nat, bad: seq<bool>, b: nat, c: nat)
    requires FirstGood(at, end, bad) && b < |at| && c < |at| && b != c
    ensures at[b] < at[c] || at[c] < at[b]
  {
  }

  lemma {:induction false} NothingReceived(blocks: seq<Eraseblock>)
    requires forall b :: 0 <= b < |blocks| ==> blocks[b].pktIndices == []
    ensures Total(blocks) == 0
  {
    if |blocks| > 0 {
      NothingReceived(blocks[..|blocks| - 1]);
    }
  }

  /** The packet numbers that a block keeps while no write fails: each one once, until there are k. */
  function Collected(packets: seq<Packet>, b: nat, k: nat): seq<nat>
  {
    if |packets| == 0 then []
    else
      var before, p := Collected(packets[..|packets| - 1], b, k), packets[|packets| - 1];
      if p.blockNr == b && p.crcOk && p.pktNr !in before && |before| < k then before + [p.pktNr] else before
  }

  lemma {:induction false} CollectedStays(packets: seq<Packet>, i: nat, b: nat, k: nat)
    requires i <= |packets| && |Collected(packets[..i], b, k)| == k
    ensures |Collected(packets, b, k)| == k
    decreases |packets|
  {
    if i == |packets| {
      assert packets[..i] == packets;
    } else {
      assert packets[..|packets| - 1][..i] == packets[..i];
      CollectedStays(packets[..|packets| - 1], i, b, k);
    }
  }

  /** No write fails, and every packet is for a block of the image. */
  ghost predicate Smooth(r: ImageReceiver, packets: seq<Packet>, events: seq<FlashEvent>)
    requires |packets| == |events|
  {
    forall i :: 0 <= i < |packets| ==> events[i].writeOk && packets[i].blockNr < r.eraseblocks.Length
  }

  ghost predicate Keeps(blocks: seq<Eraseblock>, packets: seq<Packet>, k: nat)
  {
    forall b :: 0 <= b < |blocks| ==> blocks[b].pktIndices == Collected(packets, b, k)
  }

  ghost predicate Enough(packets: seq<Packet>, blocks: nat, k: nat)
  {
    forall b :: 0 <= b < blocks ==> |Collected(packets, b, k)| == k
  }

  lemma NotFullYet(r: ImageReceiver, image: seq<Mat>, n: nat)
    requires r.Valid(image, n) && r.eraseblocks.Length > 0 && Keeps(r.eraseblocks[..], [], r.pktsPerBlock)
    ensures !AllFull(r.eraseblocks[..], r.pktsPerBlock)
  {
    assert r.eraseblocks[..][0].pktIndices == [] && r.pktsPerBlock > 0;
  }

  lemma KeepsStep(before: seq<Eraseblock>, after: seq<Eraseblock>, packets: seq<Packet>, i: nat, k: nat)
    requires i < |packets| && packets[i].blockNr < |before| == |after| && Keeps(before, packets[..i], k)
    requires forall c :: 0 <= c < |before| && c != packets[i].blockNr ==> after[c] == before[c]
    requires var b, p := packets[i].blockNr, packets[i];
      after[b].pktIndices == before[b].pktIndices + if Rejected(before[b], p, k) then [] else [p.pktNr]
    ensures Keeps(after, packets[..i + 1], k)
  {
    assert packets[..i + 1][..i] == packets[..i];
  }

  lemma FullAtLast(blocks: seq<Eraseblock>, packets: seq<Packet>, i: nat, k: nat)
    requires i <= |packets| && Keeps(blocks, packets[..i], k)
    ensures AllFull(blocks, k) ==> Enough(packets, |blocks|, k)
    ensures i == |packets| && Enough(packets, |blocks|, k) ==> AllFull(blocks, k)
  {
    if AllFull(blocks, k) {
      forall b | 0 <= b < |blocks| ensures |Collected(packets, b, k)| == k {
        CollectedStays(packets, i, b, k);
      }
    } else if i == |packets| {
      assert packets[..i] == packets;
    }
  }

  lemma IgnoredIsNotFull(before: seq<Eraseblock>, after: seq<Eraseblock>, p: Packet, k: nat)
    requires p.blockNr < |before| == |after| && Ignored(before[p.blockNr], after[p.blockNr], p, k)
    requires forall c :: 0 <= c < |before| && c != p.blockNr ==> after[c] == before[c]
    ensures AllFull(after, k) <==> AllFull(before, k)
  {
    forall b | 0 <= b < |before| ensures after[b].pktIndices == before[b].pktIndices {
    }
  }

  /** The receive loop, over any packets and any behaviour of the flash. While no write fails, it ends
      exactly when enough different packets of every block have come. */
  method ReceiveImage(r: ImageReceiver, packets: seq<Packet>, events: seq<FlashEvent>,
                      ghost image: seq<Mat>, ghost n: nat) returns (outcome: Outcome)
    requires r.Valid(image, n) && |packets| == |events|
    requires forall i :: 0 <= i < |packets| ==> r.Genuine(packets[i], image, n) && |events[i].junk| <= WBUF_SIZE
    modifies r, r.eraseblocks
    ensures outcome == Complete ==> r.Valid(image, n) && AllFull(r.eraseblocks[..], r.pktsPerBlock)
    ensures old(Keeps(r.eraseblocks[..], [], r.pktsPerBlock)) && Smooth(r, packets, events) ==>
      (outcome == Complete <==> r.eraseblocks.Length > 0 && Enough(packets, r.eraseblocks.Length, r.pktsPerBlock))
  {
    hide ImageReceiver.Valid, AllFull, Keeps, Enough, Rejected;
    var k := r.pktsPerBlock;
    ghost var smooth := Keeps(r.eraseblocks[..], [], k) && Smooth(r, packets, events);
    assert packets[..0] == [];
    if r.eraseblocks.Length > 0 && smooth {
      NotFullYet(r, image, n);
    }
    for i := 0 to |packets|
      invariant r.Valid(image, n)
      invariant smooth ==> Keeps(r.eraseblocks[..], packets[..i], k)
      invariant smooth && r.eraseblocks.Length > 0 ==> !AllFull(r.eraseblocks[..], k)
    {
      ghost var before := r.eraseblocks[..];
      outcome := r.Receive(packets[i], events[i], image, n);
      if outcome == Dropped {
        IgnoredIsNotFull(before, r.eraseblocks[..], packets[i], k);
      }
      if smooth {
        KeepsStep(before, r.eraseblocks[..], packets, i, k);
        FullAtLast(r.eraseblocks[..], packets, i + 1, k);
      }
      if outcome == Complete || outcome == Exit {
        return;
      }
    }
    outcome := Stored;
    if smooth {
      FullAtLast(r.eraseblocks[..], packets, |packets|, k);
    }
  }

  /* ---------------------------------------------------------------- reading back and decoding */

  lemma {:induction false} StreamAt(image: seq<Mat>, k: nat, b: nat, indices: seq<nat>, i: nat)
    requires IsImage(image, k) && b < |image| && i < |indices|
    ensures |Stream(image, k, b, indices)| == PKT_SIZE * |indices|
    ensures Stream(image, k, b, indices)[PKT_SIZE * i..PKT_SIZE * i + PKT_SIZE] == Content(image, k, b, indices[i])
  {
    hide Content;
    var n := |indices| - 1;
    var init := Stream(image, k, b, indices[..n]);
    if i < n {
      StreamAt(image, k, b, indices[..n], i);
      assert Stream(image, k, b, indices)[PKT_SIZE * i..PKT_SIZE * i + PKT_SIZE]
          == init[PKT_SIZE * i..PKT_SIZE * i + PKT_SIZE];
    }
  }

  /** The flash block of a complete block ends where its flash offset stands. */
  lemma CompleteBlock(r: ImageReceiver, b: nat, image: seq<Mat>, n: nat)
    requires r.Valid(image, n) && b < r.eraseblocks.Length && AllFull(r.eraseblocks[..], r.pktsPerBlock)
    ensures IsImage(image, r.pktsPerBlock) && b < |image|
    ensures var e := r.eraseblocks[b];
      var s := Stream(image, r.pktsPerBlock, b, e.pktIndices);
      && e.flashOffset == Base(e) + r.erasesize
      && |e.pktIndices| == r.pktsPerBlock && NoRepeats(e.pktIndices)
      && (forall i :: 0 <= i < |e.pktIndices| ==> e.pktIndices[i] < n)
      && FlashHolds(r.flash, Base(e), s, r.erasesize)
      && BufferHolds(e.wbuf, e.wbufOfs, s) && |s| == r.erasesize + e.wbufOfs
  {
    var e := r.eraseblocks[b];
    r.BlockOf(image, n, b);
    assert r.eraseblocks[..][b] == e;
    FlushedBound(r.erasesize, |e.pktIndices|);
  }

  /** Read a complete block back: one flash block and the rest of the write buffer. */
  method ReadBlock(r: ImageReceiver, b: nat, ghost image: seq<Mat>, ghost n: nat) returns (buf: Vec)
    requires r.Valid(image, n) && b < r.eraseblocks.Length && AllFull(r.eraseblocks[..], r.pktsPerBlock)
    ensures IsImage(image, r.pktsPerBlock) && b < |image|
    ensures buf == Stream(image, r.pktsPerBlock, b, r.eraseblocks[b].pktIndices)
  {
    hide ImageReceiver.Valid, AllFull, Stream;
    CompleteBlock(r, b, image, n);
    var e := r.eraseblocks[b];
    var base := e.flashOffset - r.erasesize;
    var flash := r.flash;
    buf := seq(r.erasesize, i requires 0 <= i < r.erasesize && base + i in flash => flash[base + i]);
    buf := buf + e.wbuf[..e.wbufOfs];
  }

  /** Decoding a complete block cannot fail and gives back the source packets of that block. */
  method DecodeBlock(r: ImageReceiver, code: Fec.Code, b: nat, ghost image: seq<Mat>)
    returns (error: int, pkt: array<Vec>)
    requires r.Valid(image, code.n) && b < r.eraseblocks.Length && AllFull(r.eraseblocks[..], r.pktsPerBlock)
    requires code.Valid() && code.k == r.pktsPerBlock
    ensures error == 0 && b < |image| && pkt[..] == image[b]
  {
    hide ImageReceiver.Valid, AllFull, Stream, Content, FecDecode.Encodes;
    FecDecode.CodeShape(code);
    CompleteBlock(r, b, image, code.n);
    var buf := ReadBlock(r, b, image, code.n);
    var k, indices := r.pktsPerBlock, r.eraseblocks[b].pktIndices;
    pkt := new Vec[k](_ => []);
    var index := new int[k](i requires 0 <= i < |indices| => indices[i]);
    assert index[..] == indices;
    for i := 0 to k
      invariant index[..] == indices
      invariant forall j :: 0 <= j < i ==> pkt[j] == Content(image, k, b, indices[j])
    {
      StreamAt(image, k, b, indices, i);
      pkt[i] := buf[PKT_SIZE * i..PKT_SIZE * i + PKT_SIZE];
    }
    ReceivedIsEncoded(image, k, b, indices, index[..], pkt[..]);
    error := FecDecode.FecDecode(code, pkt, index, PKT_SIZE);
  }

  lemma ReceivedIsEncoded(image: seq<Mat>, k: nat, b: nat, indices: seq<nat>, index: seq<int>, pkt: Mat)
    requires IsImage(image, k) && b < |image| && |indices| == |pkt| == k && index == indices
    requires forall i :: 0 <= i < k ==> pkt[i] == Content(image, k, b, indices[i])
    requires NoRepeats(indices)
    ensures FecDecode.Encodes(k, image[b], index, pkt, PKT_SIZE)
    ensures IsMat(pkt, k, PKT_SIZE) && NoRepeats(index)
  {
    hide FecCode.Encoded;
  }
}
