# A verified model of mtd-utils

A Dafny 4.11 model of the algorithms inside mtd-utils, the tools for raw flash devices, with proofs of
what they promise. `dafny verify dfyconfig.toml` checks all of it.

The model follows the code in its own form: arrays, linked structures and buffers that the tools change in
place are changed in place here, by methods that are proved against specification functions. What the
kernel, the network or the user decides (which blocks are bad, which writes fail, which packets arrive, how
much `read` returns) is left open, so every statement holds for all of it.

## What is modelled

* **Erasure code and multicast receiver** (`lib/libfec.c`, `misc-utils/recv_image.c`). `GaloisField`,
  `GaloisTables`, `LinearAlgebra`, `Polynomials`, `GaussJordan`, `InvertMat`, `InvertVdm`, `FecCode`, `Fec`,
  `FecDecode`, `Receiver` and `Multicast` go from the arithmetic of bytes to the statement that a receiver
  which has collected enough packets of each block decodes the original image, whatever was lost, repeated,
  reordered or written in vain on the way.
* **Red-black trees with parent pointers** (`lib/rbtree.c`, `find_hardlink` in `jffsX-utils/mkfs.jffs2.c`).
  `RedBlack` has the trees as values; `RbTree`, `RbInsert`, `RbErase`, `RbRemove` and `RbWalk` have the
  pointers; `HardLinks` is the index that mkfs.jffs2 keeps in such a tree.
* **Bottom-up merge sort** (`lib/list_sort.c`). `MergeSchedule` makes the argument in the comment on
  `list_sort` formal; `StableMerge` and `PendingLists` are the lists as values, `ListMerge`, `ListPending`
  and `ListSort` the links.
* **JFFS2 images**. `Rtime`, `Compressors`, `NodeBytes`, `FileNodes` and `MkfsJffs2` write them, `SumRecords` and
  `SumTool` add summaries, `FlashLog`, `DirList`, `VersionScan`, `CollectDir` and `DirReader` read directories
  back, and `WrittenImage` says what the reader makes of what the writer wrote.
* **NAND images with bad blocks** (`nand-utils/nandwrite.c`, `nand-utils/nanddump.c`). `Nand` is the device,
  `NandWrite` and `NandDump` the two loops, `NandRoundTrip` what they are together.
* **Dictionary** (`lib/dictionary.c`). `Dictionary` shows that the slots refine a map.

`Basics` has the few notions that several of these share.

## Where the code falls short

* `collectdir` (`jffsX-utils/jffs2reader.c:489-556`) does not always return. After it takes an entry whose
  version is the very next one, it waits to meet that node again, but it only compares positions right behind
  a node. If there is filler before the entry, and a gap in the versions after it (or nothing after it and no
  gap before it), it goes round for ever. `CollectDir.HangExample` has images of one word of filler and one entry
  that do it, and `CollectDir.ReturnsIff` gives the exact condition. Whenever it returns, the listing is right.
  For images of `mkfs.jffs2` the condition always holds if there are cleanmarkers
  (`WrittenImage.CleanmarkersCollect`). Without them, `WrittenImage.CollectsIff` says exactly when it holds, and
  `WrittenImage.PaddedEntryHangs` writes entries for which it does not.
* `write_dirent` gives its first entry version 0, while the readers of `jffs2reader.c` only look at versions
  above 0. So the first file that `mkfs.jffs2` writes is neither listed nor found (`DirReader.VersionZeroUnseen`,
  `WrittenImage.FirstFileUnseen`). A name is seen exactly if an entry for it has a version above 0
  (`DirReader.SeenIff`), which in a written image is every entry but the first (`WrittenImage.ListedIs`).
* `sumtool` keeps room for the summary of a block only if a node also fits behind the cleanmarker; that the
  subtraction in `pad_block_if_less_than` stays non-negative is not enough (`SumTool.NonNegativeIsNotEnough`).
  `SumTool.RoomIffFits` is exact for one node and `SumTool.RunRoomIffFits` for a whole run. At the end,
  `flush_buffers` takes a buffer as long as a cleanmarker for an empty one. Nodes are lost (`SumTool.LostNode`)
  exactly if the buffer ends with that length and nodes in it (`SumTool.Run`), and never if it is known before
  the first node whether blocks begin with a cleanmarker (`SumTool.KnownEarlyLosesNothing`).
* `recv_image` checks that the search for the place of a block begins on the device, not that it ends there. If
  the blocks at the end of the device are bad, it places the last block off the device (`Multicast.PlacedOffDevice`).
  The last block is on the device exactly if there are as many good blocks as the image has (`Multicast.PlaceBlocks`).
* `nanddump -l 0` means no limit, so the round trip holds for files that are not empty
  (`NandRoundTrip.DumpGivesFile`).
* `invert_vdm` starts its inner loop one element late, which loses the product of the first two points. Its result
  is the inverse exactly if there are at most two points or one of the first two is 0 (`InvertVdm.Invert`);
  `fec_new` passes 0 as the first.
* `find_raw_inode` uses the highest version, 2^32 - 1, as its starting minimum, and so does not notice nodes with
  that version (`DirReader.FindRawInode`).
* The comment on `dictionary_set` says that a key cannot be without a value. In the code a key set to NULL stays
  in the table, is counted, and is found by `dictionary_get`. It can be told from a deleted key exactly by a default
  that is not NULL (`Dictionary.NullIsAValue`).

## Assumptions

* Nodes of an image all advance the scan, that is, none has a length of 0. The versions of the entries of one
  directory differ and stay below 2^32 - 1.
* Erase block sizes are multiples of 4, and for the receiver multiples of the write buffer, 4096 bytes.
* An address is rounded down to its erase block by division; the tools mask bits, which is the same for the
  powers of two that they are used with.
* `char` is signed where `dictionary_hash` widens it.
* Buffers of callers do not overlap the tables of `libfec.c`.
* Words inside a written node are not looked at by a scan that steps over nodes, and the padding between nodes is
  filler to it.
* The memory behind the packet numbers of a complete block, where `recv_image` looks for duplicates once it has had
  superfluous packets, holds arbitrary numbers.
* `nandwrite` is modelled with `--markbad` and without `--noskipbad`.
* Memory allocation succeeds.

## Model

| member | source | states |
|---|---|---|
| `GaloisField.AlphaIsPrimitive` | lib/libfec.c:112-135 | 2 generates the field: its powers come back to 1 after exactly 255 steps |
| `GaloisField.PowersObey` | lib/libfec.c:112-135 | every power of 2 is the sum of four earlier ones, as the polynomial 1 + x^2 + x^3 + x^4 + x^8 says |
| `GaloisField.ExpSurjective` | lib/libfec.c:244-305 | every non-zero byte is a power of 2, so the logarithm table is total |
| `GaloisField.MulAssoc` | lib/libfec.c:165-196 | multiplication by logarithms is associative |
| `GaloisField.InvMul` | lib/libfec.c:296-305 | the table of inverses holds two-sided inverses |
| `GaloisField.Distribute` | lib/libfec.c:165-196 | multiplication by logarithms distributes over exclusive or, on both sides |
| `GaloisTables.ModNN` | lib/libfec.c:155-163 | shifts and additions compute the remainder modulo 255 |
| `GaloisTables.Tables.GenerateGf` | lib/libfec.c:244-305 | the in-place generation leaves all powers, logarithms and inverses of the field in the tables |
| `GaloisTables.Tables.InitMulTable` | lib/libfec.c:186-196 | the product table agrees with field multiplication on all pairs, zero included |
| `GaloisTables.Tables.Init` | lib/libfec.c:604-616 | after it all tables agree with the field, and the encoder, the decoder and both inversions work from them |
| `GaussJordan.TracksPivot` | lib/libfec.c:477-510 | pivoting on a non-zero entry keeps the relation between the original matrix and the half-inverted one |
| `GaussJordan.NoPivotLeft` | lib/libfec.c:436-462 | when no pivot is found, some non-zero vector is mapped to zero, so the matrix is singular |
| `GaussJordan.InverseSwap` | lib/libfec.c:513-524 | exchanging rows of a matrix exchanges columns of its inverse |
| `InvertMat.FindPivot` | lib/libfec.c:436-462 | the search returns a non-zero entry in a free row and column, and fails only if there is none |
| `InvertMat.IdentityRowShortcut` | lib/libfec.c:494-510 | skipping the elimination for a unit row changes nothing |
| `InvertMat.Unscramble` | lib/libfec.c:513-524 | column exchanges in reverse order turn the inverse of the permuted matrix into that of the original one |
| `InvertMat.Invert` | lib/libfec.c:410-533 | the result is 0 exactly for non-singular matrices, and then the array holds the two-sided inverse of what it held |
| `Polynomials.QuotientRemainder` | lib/libfec.c:583-593 | the synthetic quotient satisfies c(x) - c(r) = (x - r) q(x) |
| `Polynomials.RootsForceZero` | lib/libfec.c:535-547 | a polynomial with as many different roots as coefficients is zero |
| `InvertVdm.MasterVanishes` | lib/libfec.c:565-581 | the master polynomial vanishes at all points used |
| `InvertVdm.MasterCoefficients` | lib/libfec.c:565-581 | the in-place loop that starts one element late computes the product of the factors, except that it loses the constant coefficient with the second one |
| `InvertVdm.ComputedIsMaster` | lib/libfec.c:565-581 | nothing is lost if one of the first two points is 0 |
| `InvertVdm.ComputedIsNot` | lib/libfec.c:565-581 | else, from then on, the coefficient two below the leading one is wrong and the one above it right |
| `InvertVdm.WrittenIsLagrange` | lib/libfec.c:583-597 | every column that is written holds the Lagrange polynomial exactly if there are at most two points or one of the first two is 0 |
| `InvertVdm.Divide` | lib/libfec.c:583-593 | b holds the quotient of the master polynomial by (x - p), and t its value at p |
| `InvertVdm.DenominatorIsProduct` | lib/libfec.c:583-593 | t is the product of the differences between the point and all the others |
| `InvertVdm.Interpolates` | lib/libfec.c:535-547 | the matrix written takes values at the points to the coefficients of the polynomial with these values |
| `InvertVdm.VandermondeInverseIsInverse` | lib/libfec.c:535-601 | that matrix is the two-sided inverse of the Vandermonde matrix |
| `InvertVdm.Invert` | lib/libfec.c:548-601 | for different points, the top square of the array becomes its two-sided inverse exactly if there are at most two of them or one of the first two is 0, and the rows below it stay |
| `FecCode.AnyKPacketsSuffice` | lib/libfec.c:795-824 | any k different rows of the generator matrix are linearly independent, for all k up to 256 |
| `FecCode.SourceIsUnique` | lib/libfec.c:838-878 | packets with k different numbers determine the source |
| `FecCode.InterpolantAtPoint` | lib/libfec.c:675-699 | row i of the generator matrix takes the source data to the value at point i of the polynomial through it |
| `FecCode.InterpolantThrough` | lib/libfec.c:675-699 | for every source there is such a polynomial: of degree below k, with the first source symbol as its value at 0 and the others as its values at 1, 2, 4 and so on, the powers of 2 |
| `FecCode.ThroughIsInterpolant` | lib/libfec.c:675-699 | and there is only one |
| `FecCode.PacketIsPolynomial` | lib/libfec.c:675-699 | packet 0 holds the values of these polynomials at 0, and packet j + 1 those at the power j of 2, for source and other packets alike |
| `Fec.MatMul` | lib/libfec.c:366-380 | row by column products of the lower rows |
| `Fec.FecNew` | lib/libfec.c:650-704 | null exactly for parameters out of range, else a code whose matrix is the systematic generator matrix |
| `Fec.AddMul1` | lib/libfec.c:325-360 | adds a multiple of one packet to another, in place |
| `Fec.FecEncode` | lib/libfec.c:712-730 | the packet with the given number, whose symbols are the values of the polynomials through the source symbols at 0 or at a power of 2; a number out of range leaves the buffer alone |
| `Fec.FecEncodeLinear` | lib/libfec.c:732-750 | the same packets from a source stored in one buffer |
| `FecDecode.FixedPointsGrow` | lib/libfec.c:755-787 | an exchange that puts a packet in place and disturbs none makes the number of packets in place grow |
| `FecDecode.Shuffle` | lib/libfec.c:755-787 | terminates, rearranges packets together with their numbers, reports a conflict exactly when a source packet comes twice, and else leaves every source packet at its own place |
| `FecDecode.InvertibleRowsDiffer` | lib/libfec.c:795-824 | a repeated packet number makes the decode matrix singular |
| `FecDecode.BuildDecodeMatrix` | lib/libfec.c:795-824 | the inverse of the selected rows, or null exactly when a number is out of range or the rows are singular |
| `FecDecode.DecodedPacket` | lib/libfec.c:838-878 | the decoded packets encode to what was received |
| `FecDecode.FecDecode` | lib/libfec.c:838-878 | succeeds exactly when the k packet numbers are different and below n, in any order, and then leaves the one source that encodes to the packets received |
| `Receiver.HoldsBuffered` | misc-utils/recv_image.c:279-283 | a packet that fits in the write buffer keeps flash and buffer together equal to the packets received |
| `Receiver.HoldsFlushed` | misc-utils/recv_image.c:284-343 | so does one that completes the buffer and starts the next |
| `Receiver.FlushedBound` | misc-utils/recv_image.c:223-352 | a block with all its packets has written exactly one erase size, and never more before |
| `Receiver.ImageReceiver.IsDuplicate` | misc-utils/recv_image.c:229-239 | a recorded packet number is found; what is found is recorded, or the block is complete and the search ran past its numbers |
| `Receiver.ImageReceiver.Relocate` | misc-utils/recv_image.c:294-335 | after a failed write the block starts again with only the current packet at the next good place, which is behind all places used so far and the bad blocks found there, exactly if there is such a place and erasing works |
| `Receiver.ImageReceiver.Receive` | misc-utils/recv_image.c:223-352 | every packet, write failure or duplicate keeps the invariant; what is recorded changes for one block only; duplicates, superfluous and damaged packets are dropped, exactly those, and at most the count of superfluous ones goes up; completion is reported exactly when all blocks are full; the program exits exactly for a wrong block number or a failed write with nowhere left to go |
| `Receiver.ImageReceiver.Superfluous` | misc-utils/recv_image.c:241-246 | counting a packet for a complete block keeps what is known about the block |
| `Receiver.ImageReceiver.SkipBadBlocks` | misc-utils/recv_image.c:317-334 | the place behind the bad blocks, exactly if it is on the device |
| `Multicast.PlaceBlocks` | misc-utils/recv_image.c:192-214 | the blocks get the first good blocks of the flash in order, with every block passed over found bad, and just the first places when none is bad or in a file; the last place is on the device exactly if there are enough good blocks; the placing fails exactly if the search for the last one begins off the device, and so only if there are fewer good blocks than the image has |
| `Multicast.FirstGoodCount` | misc-utils/recv_image.c:192-214 | the first good blocks below an address are as many as the good blocks there, and the blocks 0, 1, 2 and so on if none is bad |
| `Multicast.PlacedOffDevice` | misc-utils/recv_image.c:192-214 | on a device whose only block is bad, an image of one block is placed behind the device |
| `Multicast.StartReceiver` | misc-utils/recv_image.c:160-214 | the receiver starts with empty blocks at the first good places and its invariant, exactly if all blocks could be placed |
| `Multicast.ReceiveImage` | misc-utils/recv_image.c:160-352 | over any schedule of loss, duplication, reordering and failed writes, completion means that every block is full and the invariant holds; without failed writes it comes exactly when enough different packets of every block have come |
| `Multicast.CompleteBlock` | misc-utils/recv_image.c:223-352 | a full block has as many different packet numbers as it needs, its packets in order on flash and in the buffer, and its flash offset moved by one erase size |
| `Multicast.ReadBlock` | misc-utils/recv_image.c:358-380 | reading flash and buffer back gives the packets in index order |
| `Multicast.DecodeBlock` | misc-utils/recv_image.c:382-393 | decoding never fails and gives the block of the original image |
| `RedBlack.PlugRedBlack` | lib/rbtree.c:72-221 | a tree is red-black exactly when a subtree and what surrounds it fit together |
| `RedBlack.HeightBound` | lib/rbtree.c:72-135 | 2 to the height is at most the square of the number of nodes plus one |
| `RbTree.RotateLeft` | lib/rbtree.c:26-47 | the pointers hold the rotated tree, in place, parent pointers included |
| `RbTree.RotateRight` | lib/rbtree.c:49-70 | the mirror image |
| `RbInsert.RecolourKeeps` | lib/rbtree.c:82-92 | repainting with a red uncle moves the one possible violation two levels up |
| `RbInsert.RotateKeepsLeft` | lib/rbtree.c:94-105 | the rotations end the violation and keep the order |
| `RbInsert.InsertColor` | lib/rbtree.c:72-135 | terminates with a red-black tree with the same nodes in the same order |
| `RbErase.RedSiblingLeft` | lib/rbtree.c:146-153 | a red sibling is rotated away without changing what is missing |
| `RbErase.BlackNephewsLeft` | lib/rbtree.c:154-160 | two black nephews: the missing black moves up |
| `RbErase.InnerNephewLeft` | lib/rbtree.c:163-171 | a red inner nephew becomes an outer one |
| `RbErase.OuterNephewLeft` | lib/rbtree.c:172-178 | a red outer nephew ends the repair |
| `RbErase.EraseStepLeft` | lib/rbtree.c:144-180 | one round either ends with a red-black tree or gets closer to the root, with the order kept |
| `RbErase.EraseStepRight` | lib/rbtree.c:181-217 | the mirror image |
| `RbRemove.EraseColor` | lib/rbtree.c:137-221 | terminates with a red-black tree with the same nodes in the same order |
| `RbRemove.Erase` | lib/rbtree.c:223-288 | exactly the given node leaves the in-order sequence, and parent links, black root, colours and black heights are those of a red-black tree |
| `RbRemove.ReplaceNode` | lib/rbtree.c:369-390 | the replacement takes the place, colour and neighbours of the victim |
| `RbWalk.First` | lib/rbtree.c:293-303 | the first node in order, null for an empty tree |
| `RbWalk.Last` | lib/rbtree.c:305-315 | the last node in order |
| `RbWalk.Next` | lib/rbtree.c:317-343 | the node that follows in order, null after the last |
| `RbWalk.Prev` | lib/rbtree.c:345-367 | the node before in order |
| `RbWalk.NextThenPrev` | lib/rbtree.c:317-367 | rb_prev undoes rb_next |
| `RbWalk.ForwardWalk` | lib/rbtree.c:293-343 | rb_first and repeated rb_next visit the in-order sequence exactly |
| `RbWalk.BackwardWalk` | lib/rbtree.c:305-367 | rb_last and repeated rb_prev visit it backwards |
| `RbWalk.ChildrenFirst` | lib/rbtree.c:392-428 | in post-order every node comes directly after its two subtrees |
| `RbWalk.NextPostorder` | lib/rbtree.c:404-420 | the node that follows in post-order |
| `RbWalk.PostorderWalk` | lib/rbtree.c:392-428 | the post-order walk visits every node exactly once, in post-order |
| `HardLinks.LinkNode` | include/rbtree.h:194-201 | a new red leaf at the given place |
| `HardLinks.HardLinkIndex.FindHardlink` | jffsX-utils/mkfs.jffs2.c:115-140 | the inode number now recorded for the file with the same device and inode, or 0 if there is no such file, and then the file is added; the tree stays red-black with strictly ordered keys |
| `HardLinks.HardLinkIndex.SetIno` | jffsX-utils/mkfs.jffs2.c:746-750 | the number that a file gets after it was added is what later lookups return, and the index stays as it is |
| `HardLinks.HardLinkIndex.OneNodePerKey` | jffsX-utils/mkfs.jffs2.c:115-140 | no two files in the index have the same device and inode |
| `HardLinks.NumberOne` | jffsX-utils/mkfs.jffs2.c:1228-1231 | a file gets the number of an earlier link to it, or a new one that no other file has, and earlier files keep theirs |
| `HardLinks.NumberFiles` | jffsX-utils/mkfs.jffs2.c:1215-1327 | over any sequence of files, two get the same inode number exactly if they have the same device and inode |
| `MergeSchedule.Round` | lib/list_sort.c:133-176 | at every count, the two sublists that are merged both have the size of the bit that gets set, and merging them and adding one element gives the sizes for the next count |
| `MergeSchedule.SizesSum` | lib/list_sort.c:184-245 | the pending sizes add up to the count |
| `MergeSchedule.SizesArePowers` | lib/list_sort.c:133-176 | all pending sizes are powers of two |
| `MergeSchedule.SizesByBits` | lib/list_sort.c:133-176 | how many sublists of size 2^k are pending, as given by bit k, the bit below it and the bits above |
| `MergeSchedule.FinalMergesBalanced` | lib/list_sort.c:171-176 | each final merge joins sizes that are at worst 2:1 |
| `StableMerge.MergeOrdered` | lib/list_sort.c:10-36 | merging an older and a newer sorted list, the older one first on ties, keeps order and stability |
| `PendingLists.RoundKeeps` | lib/list_sort.c:208-231 | a round keeps the pending sublists sorted, ordered by age, of the right sizes and with the elements read so far as contents |
| `ListMerge.MergeLists` | lib/list_sort.c:10-36 | relinks two lists in place into their stable merge |
| `ListMerge.MergeFinal` | lib/list_sort.c:46-93 | relinks two lists into their stable merge as a well-formed ring through head |
| `ListPending.FindSlot` | lib/list_sort.c:213-215 | following prev once per set bit below the lowest clear bit leads to the two sublists to merge |
| `ListPending.JoinSublists` | lib/list_sort.c:217-224 | merges two neighbours of equal size and installs the result in their place |
| `ListPending.MergeNeighbours` | lib/list_sort.c:10-36 | merges two neighbours of balanced sizes without touching the others |
| `ListSort.MakePending` | lib/list_sort.c:208-231 | the loop over the input leaves all elements in sorted pending sublists |
| `ListSort.MergeAll` | lib/list_sort.c:233-243 | the final merges, all of them balanced, leave two sublists |
| `ListSort.Sort` | lib/list_sort.c:179-246 | for every total preorder and every ring: a well-formed ring through head with the same nodes, sorted, ties in their old order |
| `DirList.PutDir` | jffsX-utils/jffs2reader.c:174-240 | the list on the heap becomes what putting the entry into its contents gives |
| `DirList.PutLookup` | jffsX-utils/jffs2reader.c:174-240 | an entry changes what its own name stands for, and nothing else |
| `DirList.PutListing` | jffsX-utils/jffs2reader.c:174-240 | no name comes twice in a directory |
| `DirList.PutOrder` | jffsX-utils/jffs2reader.c:174-240 | a name that is listed keeps its place among the others, and a new one comes last |
| `VersionScan.Progress` | jffsX-utils/jffs2reader.c:509-554 | an iteration of the scan keeps the invariant, brings the end closer unless the scan is trapped, and does not decide whether it ends |
| `VersionScan.TrapForever` | jffsX-utils/jffs2reader.c:509-554 | a trapped scan never ends |
| `VersionScan.StopsIffCollectable` | jffsX-utils/jffs2reader.c:489-556 | the scan ends exactly when no entry whose pass must be noticed has filler before it |
| `CollectDir.IterateMatches` | jffsX-utils/jffs2reader.c:509-554 | an iteration on image positions is an iteration on node numbers |
| `CollectDir.ReturnsIff` | jffsX-utils/jffs2reader.c:489-556 | collectdir returns if and only if the image can be collected |
| `CollectDir.HangExample` | jffsX-utils/jffs2reader.c:489-556 | one word of filler before the only entry of a directory, of any length, makes collectdir run forever |
| `CollectDir.TakenIsReplayed` | jffsX-utils/jffs2reader.c:489-556 | taking entries in the order of the scan is replaying them by increasing version |
| `DirReader.Collect` | jffsX-utils/jffs2reader.c:489-556 | terminates with the entries of the directory replayed in version order |
| `DirReader.ResolveDirent` | jffsX-utils/jffs2reader.c:577-619 | the wanted entry with the highest version, or nothing exactly when there is none |
| `DirReader.ResolveName` | jffsX-utils/jffs2reader.c:634-638 | the same for a name in a directory |
| `DirReader.ListingAgrees` | jffsX-utils/jffs2reader.c:489-638 | a name is listed with an inode exactly when lookup gives an entry with it, and not listed exactly when lookup gives nothing or an unlink entry |
| `DirReader.ListAndResolve` | jffsX-utils/jffs2reader.c:489-638 | a name looked up in the list that collectdir builds, and by resolvename, gives the same |
| `DirReader.SeenIff` | jffsX-utils/jffs2reader.c:489-638 | lookup finds an entry exactly if there is one with a version above 0; a name is listed only then, and if nothing unlinks it exactly then |
| `DirReader.VersionZeroUnseen` | jffsX-utils/jffs2reader.c:489-638 | an image with one entry of version 0: the entry is neither listed nor found |
| `DirReader.FindRawInode` | jffsX-utils/jffs2reader.c:420-476 | a node of the inode with the lowest version, or nothing exactly when there is none; nodes with version 2^32 - 1 do not count |
| `Rtime.RunLength` | jffsX-utils/compr_rtime.c:46-50 | the longest run, up to 255, that repeats what followed the last occurrence, as in the code for the data |
| `Rtime.CopyApart` | jffsX-utils/compr_rtime.c:86-96 | a run that does not reach the output position is a plain copy |
| `Rtime.DecodedMeans` | jffsX-utils/compr_rtime.c:66-99 | what a code stands for, by positions: pair i begins behind the bytes of the pairs before it, with its own byte, and its run repeats what followed the byte of the last pair with the same byte, or the beginning if there is none |
| `Rtime.EncodingDecodes` | jffsX-utils/compr_rtime.c:26-63 | the code for the rest of the data, behind a code for what came before, decodes to all that is consumed |
| `Rtime.Compress` | jffsX-utils/compr_rtime.c:26-63 | the output is the code for the data, given by a recursive function; it decodes to the bytes consumed; the call succeeds exactly if it is shorter than them |
| `Rtime.Decompress` | jffsX-utils/compr_rtime.c:66-99 | gives the meaning of the code, whether runs overlap themselves or not, and uses exactly the bytes of it |
| `Rtime.RoundTrip` | jffsX-utils/compr_rtime.c:26-99 | what was consumed comes back, from a shorter code that is used up |
| `Compressors.RtimeIsSound` | jffsX-utils/compr_rtime.c:26-63 | the code that Rtime.Compress computes, as a compressor, can be undone, is not empty and keeps to its room, for pages up to 32767 bytes |
| `Compressors.RtimeInPlace` | jffsX-utils/compr_rtime.c:26-63 | the compressor in place succeeds exactly when the compressor as a value does, with the same code for the same bytes |
| `Compressors.RtimeShrinksIff` | jffsX-utils/compr_rtime.c:54-57 | rtime succeeds exactly if its pairs are fewer bytes than they stand for |
| `Compressors.Registry.Register` | jffsX-utils/compr.c:290-315 | the list stays sorted by falling priority, and a newcomer goes behind its equals |
| `Compressors.Registry.SetPriority` | jffsX-utils/compr.c:435-460 | the first compressor of that name moves to the place of its new priority, and the list stays sorted |
| `Compressors.Registry.Compress` | jffsX-utils/compr.c:164-287 | stored as it is, or a code of some enabled compressor from which the data can be had back, within the room given; by priority the first success; by size or favouring LZO a preferred code, and uncompressed only if no code is shorter than what it stands for; what is stored as it is has the length of the room, or by size or favouring LZO the length that the last enabled compressor left |
| `Compressors.StaysPreferred` | jffsX-utils/compr.c:122-145 | the pairwise test keeps the best so far preferred: by size, no code is shorter; favouring LZO, its code is kept against any with at least 80% of its length, and another code wins only if none is shorter and it has at most 80% of that of LZO |
| `FileNodes.TilesAt` | jffsX-utils/mkfs.jffs2.c:771-830 | the nodes of a file have versions 1, 2, ..., meet end to end, and each stands for its part of the file |
| `FileNodes.TilesContents` | jffsX-utils/mkfs.jffs2.c:771-830 | put together, the decompressed nodes are the file |
| `NodeBytes.NodeAt` | jffsX-utils/mkfs.jffs2.c:695-830 | the name of an entry stands in the output behind 40 bytes of header, the payload of an inode node behind 68, and the totlen is the sum |
| `NodeBytes.HeadIsNode` | jffsX-utils/mkfs.jffs2.c:695-830 | headers begin nowhere in the output but at the nodes written |
| `FileNodes.FileInIs` | jffsX-utils/mkfs.jffs2.c:771-830 | an inode read from the bytes of the output is what its nodes stand for, put together in the order of the output |
| `FileNodes.FileAdded` | jffsX-utils/mkfs.jffs2.c:771-830 | nodes that tile a file give that file for their inode and change no other |
| `MkfsJffs2.PackedAt` | jffsX-utils/mkfs.jffs2.c:646-693 | every node lies within one erase block, is aligned, and ends before the next; padding comes only before a node that begins a block; with cleanmarkers, blocks begin with one |
| `MkfsJffs2.FsWriter.WholeNode` | jffsX-utils/mkfs.jffs2.c:646-830 | the header and name of every entry, and the header and payload of every inode node, are in the output within one erase block and before the next node |
| `MkfsJffs2.FollowsDirectly` | jffsX-utils/mkfs.jffs2.c:674-693 | with cleanmarkers, every other node comes directly after the node before it |
| `MkfsJffs2.FsWriter.PadBlock` | jffsX-utils/mkfs.jffs2.c:646-652 | fills up the erase block with 0xff, and no more |
| `MkfsJffs2.FsWriter.PadBlockIfLessThan` | jffsX-utils/mkfs.jffs2.c:674-693 | there is room for the bytes asked for; the block is filled up exactly if there was none, and nothing but a cleanmarker is added |
| `MkfsJffs2.FsWriter.WriteDirent` | jffsX-utils/mkfs.jffs2.c:695-724 | one directory entry whose version is the number of entries before it, after nothing but a cleanmarker, and behind padding exactly if it did not fit |
| `MkfsJffs2.FsWriter.MakeNode` | jffsX-utils/mkfs.jffs2.c:784-815 | a node whose payload, decompressed if need be, is a non-empty piece of the file, and is no longer than the space for it |
| `MkfsJffs2.FsWriter.WritePiece` | jffsX-utils/mkfs.jffs2.c:778-829 | one node carries a non-empty piece of the file, no more than fits in the block |
| `MkfsJffs2.FsWriter.WriteRegularFile` | jffsX-utils/mkfs.jffs2.c:726-849 | terminates; the inode, read from the bytes of the output, is the file, and earlier files read as before; the nodes added come after a directory entry for it, at least one even for an empty file, and all nodes stay packed |
| `WrittenImage.Visited` | jffsX-utils/jffs2reader.c:509-535 | a scan of a written image visits exactly the nodes written, in order |
| `WrittenImage.VisitedAt` | jffsX-utils/jffs2reader.c:509-535 | it sees their versions, and padding exactly where the writer left some |
| `WrittenImage.Versioned` | jffsX-utils/mkfs.jffs2.c:695-724 | the versions of the entries of a directory differ, in every directory |
| `WrittenImage.CollectsIff` | jffsX-utils/mkfs.jffs2.c:674-724 | collectdir returns for a written image if and only if no entry after which it must notice a whole round has padding before it |
| `WrittenImage.CleanmarkersCollect` | jffsX-utils/mkfs.jffs2.c:674-724 | with cleanmarkers, collectdir returns for every written image |
| `WrittenImage.PaddedEntryHangs` | jffsX-utils/mkfs.jffs2.c:674-724 | without them, an entry that does not fit in its block makes collectdir run forever if all entries but the first are in its directory |
| `WrittenImage.ListedIs` | jffsX-utils/mkfs.jffs2.c:695-724 | a name is listed as the last entry written for it says, where the first entry of all does not count |
| `WrittenImage.ReadBack` | jffsX-utils/jffs2reader.c:489-638 | both readers, run on the bytes that have been written, give that answer |
| `WrittenImage.FirstFileUnseen` | jffsX-utils/mkfs.jffs2.c:726-849 | the first file of an image gets an entry, but is neither listed nor found |
| `WrittenImage.WriteFiles` | jffsX-utils/mkfs.jffs2.c:1215-1327 | file number v gets entry number v, with inode v + 2, and that inode reads as the file |
| `WrittenImage.MakeAndList` | jffsX-utils/mkfs.jffs2.c:1215-1327 | an image made of any regular files lists every name with the inode of the last file of that name in the directory, except for the first file of all, and that inode reads as that file |
| `SumTool.RoomIffFits` | jffsX-utils/sumtool.c:458-476 | after a node there is still room for the summary exactly if the subtraction stays non-negative and a node that begins a block fits behind the cleanmarker |
| `SumTool.NonNegativeIsNotEnough` | jffsX-utils/sumtool.c:458-476 | a node in an erase block of 8 KiB for which the subtraction stays non-negative and that leaves no room for the summary all the same |
| `SumTool.RunRoomIffFits` | jffsX-utils/sumtool.c:458-640 | over a whole input there is always room for the summary exactly if every node fits where it comes |
| `SumRecords.ScanAt` | jffsX-utils/sumtool.c:642-839 | a walk over a block from header to header finds nodes that stand at their offsets and do not overlap |
| `SumRecords.ScanNext` | jffsX-utils/sumtool.c:600-640 | a node added behind the others and padded to a word is found by the walk, and the others as before |
| `SumRecords.ReadBack` | jffsX-utils/summary.h:42-89 | a record is read back from its bytes, in either byte order, as it was written, name included |
| `SumRecords.ReadAllBack` | jffsX-utils/jffs2dump.c:355-426 | so is a list of records, one behind the other |
| `SumRecords.RecordFacts` | jffsX-utils/sumtool.c:551-609 | the record of a node has its offset and says what the header of the node says: inode number, version and length, or parent, version, inode, type and name of an entry, or the number and version of an attribute; its size is the one announced |
| `SumTool.MountedIsScanned` | jffsX-utils/jffs2dump.c:325-426 | a reader that takes the summaries where there are some learns the same about the nodes, in the same order, as one that reads every header |
| `SumTool.DirectoryKept` | jffsX-utils/sumtool.c:642-839 | if nothing is lost, a directory read through the summaries has the entries that the input has, in their order |
| `SumTool.Summer.DumpSumRecords` | jffsX-utils/sumtool.c:302-430 | the summary fills the erase block; its bytes, read record by record, give one record per node in the buffer with its offset and with what its header says; its last eight bytes point to it |
| `SumTool.Summer.PadBlockIfLessThan` | jffsX-utils/sumtool.c:458-476 | flushes the block exactly if the node counted twice, its record, the records so far and 40 bytes do not fit, and begins a new one with a cleanmarker of the right size |
| `SumTool.Summer.WriteToBuff` | jffsX-utils/sumtool.c:516-640 | a node that fits is added with its record, and all blocks put out stay good |
| `SumTool.Summer.FlushBuffers` | jffsX-utils/sumtool.c:478-514 | one last block with what is left, with a summary if it is nearly full, else padded on demand; a walk over the output then finds all accepted nodes in order, unless the buffer held nodes and had exactly the length of a cleanmarker |
| `SumTool.Run` | jffsX-utils/sumtool.c:642-839 | over every input whose nodes fit, a walk over the output finds the accepted nodes in order, exactly unless the buffer ends with nodes in it and the length of a cleanmarker; and the summaries say what the nodes say |
| `SumTool.KnownEarlyLosesNothing` | jffsX-utils/sumtool.c:478-514 | that cannot happen when it is known before the first node whether blocks begin with a cleanmarker |
| `SumTool.LostNode` | jffsX-utils/sumtool.c:478-514 | a node is lost when the first cleanmarker comes after it and is as long as the buffer |
| `Nand.FlatPaged` | nand-utils/nandwrite.c:472-521 | the pages of a file are the file and less than a page of 0xff behind it |
| `NandWrite.Writer.EnterBlock` | nand-utils/nandwrite.c:431-470 | goes to the next good block and keeps the buffer exactly when it is to be replayed |
| `NandWrite.Writer.FillBuffer` | nand-utils/nandwrite.c:472-521 | the next page of the file, padded at the end, joins the buffer |
| `NandWrite.Writer.Rewind` | nand-utils/nandwrite.c:575-606 | after a failed write, and only then, the block is erased and marked bad, and the whole buffer is to be written again in the next one |
| `NandWrite.Writer.WriteNext` | nand-utils/nandwrite.c:419-609 | a round of the loop goes forward, ends with all read and written, or fails for a reason that can be named, and marks no block bad in which no write failed |
| `NandWrite.Writer.Run` | nand-utils/nandwrite.c:419-625 | reported success means that the pages of the file can be read from the good blocks in order, with nothing behind them, that nothing before the start changed, that bad blocks were left alone, and that exactly the blocks that were bad or in which a write failed are bad; failure is reported only after an error other than a failing write, for an input that cannot be read or is cut, or for lack of good blocks |
| `NandDump.Dump` | nand-utils/nanddump.c:423-557 | the first length bytes of the good blocks, or all of them if there are fewer, unless a call fails |
| `NandRoundTrip.DumpGivesFile` | nand-utils/nanddump.c:439-528 | a dump of the length of the file is the file, except that length 0 means the rest of the device |
| `NandRoundTrip.WriteThenDump` | nand-utils/nandwrite.c:419-609 | over every pattern of bad blocks and failing writes, a successful write followed by a dump gives back the file; only blocks in which a write failed become bad; without other errors writing succeeds exactly if the good blocks suffice, and if no write fails exactly if the blocks good from the start do |
| `Dictionary.Hash` | lib/dictionary.c:111-130 | the loop computes the hash of the string, 0 for NULL |
| `Dictionary.InsertHolds` | lib/dictionary.c:292-303 | a new key in a free slot adds one pair to the map |
| `Dictionary.RemoveHolds` | lib/dictionary.c:343-351 | clearing a slot removes one pair from the map |
| `Dictionary.Dict.Find` | lib/dictionary.c:268-283 | the slot of the key exactly if it is in the map |
| `Dictionary.Dict.Get` | lib/dictionary.c:209-230 | the value in the map, or the default |
| `Dictionary.Dict.Grow` | lib/dictionary.c:61-94 | twice the slots, the same map |
| `Dictionary.Dict.FindFree` | lib/dictionary.c:292-297 | the search that wraps around ends on a free slot whenever there are fewer keys than slots |
| `Dictionary.Dict.Set` | lib/dictionary.c:258-304 | the map with the pair set; an error exactly for a NULL key |
| `Dictionary.Dict.Unset` | lib/dictionary.c:317-352 | the map without the key |
| `Dictionary.Run` | lib/dictionary.c:61-352 | over every sequence of set, unset and get, the table answers as the map would |
| `Dictionary.NullIsAValue` | lib/dictionary.c:234-304 | after any calls, a key set to NULL is found, and differs from a deleted one exactly for a default that is not NULL |

## Left out

- zlib and LZO: foreign libraries; `Compressors.Sound` is all that is asked of a compressor.
- CRC checks: the model starts from the nodes that passed them, and the checksum in a cleanmarker is any number.
- Byte layout of the headers that `mkfs.jffs2.c` writes: its output is modelled byte by byte, but the bytes of a header are numbered instead of spelled out. In `sumtool.c` the nodes and the summary records are spelled out in both byte orders, and only the header of the summary node is a record.
- Options, messages, statistics and progress output: user interface.
- OOB data, `--continuous`, `blockalign` above 1, standard input and `--inputsize` in the NAND tools.
- A start address in the middle of an eraseblock: the round trip is stated for starts at a block.
- Sockets, rate control and the rewriting of decoded data in the multicast tools.
- `serve_image.c`: its packets are the input of the receiver.
- Extended attributes, symbolic links, devices and directories in `mkfs.jffs2.c`: more node types written through the same packing.
- `lib/libmtd.c`, `lib/libubi.c`, UBI, NFTL, FTL, RFD and OTP tools: mostly device input and output.
- `lib/libiniparser.c`: most of its meaning is in `sscanf` formats.
- SumTool.Run: asks that every node fits where it comes, because the tool writes past its buffer otherwise; `SumTool.RunRoomIffFits` says that this is exact.
- SumTool.Summer.WriteToBuff: asks that the node fits, because the buffer of the tool has no room for one that does not.
- HardLinks.NumberFiles: files that are skipped because they are too large, which keep the number 0, are not modelled.
- WrittenImage.MakeAndList: subdirectories and the padding of the image to a given size are not modelled.
- MkfsJffs2.FsWriter.WriteRegularFile: the compressors' output buffers and use counts are not modelled, and `read` may return any non-empty part of what is left.
- NandWrite.Writer.Run: an empty file on a device without good blocks counts as a failure, as in the tool.
- RbRemove.Erase: the colour bit and the parent pointer are two fields, not one word.
