# Verified model of fio's write verification and the structures under it

fio writes to a device, remembers what it wrote, and reads it back to check that every block holds
what was written last. This project models that part of a fio tree that adds overwrite-aware
verification, together with the index structures, the allocator and the algorithms it rests on.

* **Write history and verification** (`SegmentMap`, `SegmentLayout`, `SegmentHistory`, `Bytes`,
  `VerifyBlocks`, `WriteVerify`). Completed writes of any size go into a map with two bits for each
  block, a hash and a list; overlapping older pieces are cut, split or dropped. The blocks carry their
  own header, offset, version and checksum. The main result is `WriteVerify.Job.Run`: whatever the
  order of writes and verify reads, every piece handed out is due and is accepted against a disk where
  later writes overwrite earlier ones, and none is handed out only when none is due. The specification
  underneath is a map from block to last writer. `LostWrites`, `LossyRuns` and `Uniques` are the
  converse, on a device that loses writes: with versions compared, a verify step returns 0 exactly if
  the last write over each block it checks reached the disk.
* **Red-black trees** (`RbShape`, `RbColour`, `RbSplice`, `RbTree`): rotations, insertion and removal
  on linked nodes with parent pointers. A node's surroundings are a ghost zipper; every pointer write
  is one step on the memory, and each operation is shown to lead from one spelled-out tree to another.
* **Tree history** (`TreeOrder`, `TreeAccounts`, `HistorySpec`, `HistoryMeaning`, `TreeHistory`): the history for fixed
  block sizes, on top of those trees, with list and trim list. It is shown to refine a machine on plain
  sequences (`HistorySpec`), step by step and so over every run; `HistoryMeaning` says which write each
  piece handed out stands for.
* **smalloc** (`BitMaps`, `SmallocLayout`, `SmallocSearch`, `SmallocPool`, `Smalloc`,
  `SmallocHeap`): the bitmap allocator, down to the bytes of headers and redzones, and up to the map
  from pointers to bytes that it is for its users.
* **Random block map and versions** (`RandomMap`, `WriteVersions`) and the **life of an io_u**
  (`IoUnits`), a state machine over its lists.
* **Algorithms** (`NetCommand`, `LatencyBuckets`, `Percentiles`, `IoStats`, `Fifo`,
  `StringDistance`).

`dafny verify dfyconfig.toml` checks the whole project.

## How the source is read

* `unsigned long` has 32 bits. `set_bit` shifts values of type `int`, so a wider word would lose the
  upper half of its cells; with 32 bits the shifts are exact. A word is the sequence of its bits.
  Where 32-bit wrap-around matters (smalloc sizes, ring buffer counters, the length of a received
  command) it is written out; counters of blocks, samples and list entries are unbounded.
* Checksums are arbitrary functions, and so is the hash of a history key. Real arithmetic stands for
  `double`. Random draws are arbitrary numbers in their range. What `mmap` returns is a parameter.
* In `struct io_piece` the fields `len` and `nr_blk` share their storage, and so do `offset` and
  `block`; the assignment to `tail_ipo->len` in `overlap_divide` therefore sets the block count.
  A piece of the tree history is known by its embedded tree node.
* When no bit from the start on is clear, `find_next_zero` gives a bit number beyond the word, and
  `blocks_iter` then shifts by more than the width of its type, which C leaves undefined. The model goes
  on to the next word in that case.
* In six places the code does less than what surrounds it suggests, and the model follows the code.
  `remove_seg` is given half the word count of the map (`RemovesWholePiece`; `StrayWalk` is what comes
  of it). A failed checksum is overwritten by a later success (`FailureIsForgotten`,
  `AcceptanceCoversChecksums`). The search for
  free blocks passes some runs by (`ShortRunMissed`, `LongRunFound`), and next_non_full can move past
  words with free blocks (`FreeWordForgotten`, `OneBlockFound`). `smalloc` sets `last_pool` to 0 to
  start over, but never goes back to the first pool (`FreePoolPassedBy`, `Smalloc.Allocator.Alloc`).
  32-bit sizes wrap around for requests close to 4 GB (`LayoutFits`, `NewPoolHolds`). In each case the
  condition under which the promise holds is part of the lemma or contract.

## Model

| member | source | states |
|---|---|---|
| `Words.MaskValue` | io_u.c:67-70 | the mask built as `((1 << n) - 1) << i` (all ones when n is the word size) is the number (2^n - 1) * 2^i, for every n and i that fit a word |
| `BitMaps.MaskTest` | smalloc.c:135-152 | `map & mask` is zero exactly if all masked bits are clear, and equals the mask exactly if all are set |
| `BitMaps.ClearWith` | smalloc.c:319-325 | setting (clearing) a uniform run of n bits lowers (raises) the number of clear bits by exactly n |
| `BitMaps.BitMap.SetMask` | smalloc.c:147-152 | or-ing a mask into a word sets exactly the n bits from bit i of that word on, in the map of all bits |
| `BitMaps.BitMap.ClearMask` | smalloc.c:140-145 | and-ing with the complement clears exactly those bits |
| `BitMaps.FirstClear` | smalloc.c:172-177 | the first zero bit at or after the start, and none before it |
| `Bytes.EncodeDigit` | server.c:131-138 | numbers are stored little endian: byte i of an encoded number is its digit i to the base 256 |
| `SegmentMap.WithCellReads` | seg_2bitsmap.c:9-27 | a cell written by set_bit reads back as written, and every other cell of the word as before |
| `SegmentMap.FioFile.SetBit` | seg_2bitsmap.c:22-27 | set_bit changes one cell of the packed map and no other |
| `SegmentMap.FioFile.RemoveSeg` | seg_2bitsmap.c:29-45 | remove_seg clears the START cell and the IN cells after it, as far as the word count handed to it allows |
| `SegmentMap.RemovesWholePiece` | verify.c:1004-1007 | with the word count that get_next_verify passes, remove_seg clears the whole piece if and only if the piece is one block long or lies in the first half of the map |
| `SegmentMap.RemoveStopsShort` | verify.c:1007 | a piece across the middle of the map of which remove_seg leaves an IN cell behind |
| `SegmentMap.StrayWalk` | seg_2bitsmap.c:62-71 | a write that starts at an IN cell that remove_seg left behind walks back to the piece before the removed one, or off the map if there is none; that piece ends before the removed one starts, so overlap_divide, which gives it the blocks up to the write, stretches it |
| `SegmentLayout.PiecesDisjoint` | seg_2bitsmap.c:47-95 | pieces of a file whose blocks have one owner each never overlap |
| `SegmentLayout.PieceInCells` | seg_2bitsmap.c:62-70 | a piece shows in the map as START followed by IN up to its last block and no further |
| `SegmentLayout.KeepTailMid` | seg_2bitsmap.c:132-144 | a piece that reaches beyond a claimed range keeps its tail: map, ownership and the versions expected outside the range stay right |
| `SegmentLayout.DropMid` | seg_2bitsmap.c:145-155 | a piece inside the claimed range can go: nothing outside the range changes |
| `SegmentLayout.KeepHeadMid` | seg_2bitsmap.c:177-180 | a piece that starts before the claimed range keeps its head |
| `SegmentLayout.SplitMid` | seg_2bitsmap.c:156-180 | a piece around the claimed range becomes two, and both keep their version |
| `SegmentLayout.ClaimEnds` | iolog.c:211-217 | when the claimed range belongs to nobody, the new piece completes the layout and its version overlays the pending ones |
| `SegmentLayout.TakeOk` | verify.c:999-1014 | taking a piece out removes exactly its blocks from what is pending, and the map goes on showing all other pieces; it shows nothing else if and only if it did not before and remove_seg reached the end of the piece |
| `SegmentHistory.LatestIsLastWriter` | iolog.c:202-221 | the version a trace of logged and handed-out pieces leaves for a block is that of its last logged write, if that write was not handed out since |
| `SegmentHistory.History.HashFind` | iohist_hash.c:29-45 | finds the piece with the given file and first block if there is one, and nothing otherwise |
| `SegmentHistory.History.HashDel` | iohist_hash.c:20-27 | unlinks a hashed piece from its bucket, whatever its key is by now, and leaves the others linked; a piece that is not hashed changes nothing |
| `SegmentHistory.History.HashAdd` | iohist_hash.c:56-75 | links a piece under its key; the key is not taken, so nothing is refused |
| `SegmentHistory.History.KeepTail` | seg_2bitsmap.c:133-144 | the piece moves to the end of the claimed range in map, hash and list view together |
| `SegmentHistory.History.DropPiece` | seg_2bitsmap.c:145-155 | the piece leaves hash, list and count together |
| `SegmentHistory.History.SplitPiece` | seg_2bitsmap.c:156-180 | head and tail of a piece stay, with a new piece for the tail in map, hash, list and count |
| `SegmentHistory.History.DivideBefore` | seg_2bitsmap.c:156-180 | a piece that starts before the range is cut back or split; the rest of the history keeps what it expects |
| `SegmentHistory.History.OverlapDivide` | seg_2bitsmap.c:121-181 | the piece looked up is always found; afterwards no older piece holds the range up to and including the block, and outside the range every pending block expects its version |
| `SegmentHistory.History.FindStart` | seg_2bitsmap.c:62-70 | the backward walk over IN cells ends, at the START of the piece that owns the block |
| `SegmentHistory.History.InsertSeg` | seg_2bitsmap.c:47-95 | the whole range is claimed with START and IN cells, nobody else owns a block of it, and nothing outside it changes |
| `SegmentHistory.History.LogIoPiece` | iolog.c:184-221 | logging a write overlays its version on the pending blocks of its file, from the block that its first byte lies in on as many as its bytes take up, adds its piece at the end of the list, and keeps map, hash, list and count in agreement, on every file of which remove_seg has cleared all pieces handed out |
| `SegmentHistory.History.GetNextVerify` | verify.c:982-1060 | the oldest piece is handed out with its own offset, length and version; its blocks are no longer pending, and all views still show every other piece. The map of a file shows nothing else if and only if remove_seg reached the end of every piece of it handed out so far |
| `SegmentHistory.History.constructor` | iohist_hash.c:92-108 | a history with no pieces, over files with empty maps, is valid |
| `SegmentHistory.History.NothingListed` | verify.c:1058-1059 | when the list has run empty, no block of any file is pending |
| `VerifyBlocks.SwappedTwice` | verify.c:110-119 | swapping the header with the bytes at verify_offset twice gives the block back |
| `VerifyBlocks.SwappedPlaces` | verify.c:110-119 | with verify_offset set the header's bytes lie at that offset, the bytes from there in front, and all others where they were |
| `VerifyBlocks.MemSwp` | verify.c:110-119 | the buffer after memswp is the swapped one, block by block |
| `VerifyBlocks.WithHeaderFields` | verify.c:889-902 | magic, type, absolute offset, length, seed, header checksum and version all stand, little endian, where the reader looks for them, and every byte behind the common header is as it was |
| `VerifyBlocks.PopulatedIsGood` | verify.c:882-968 | whatever was in the block before, populate_hdr makes it a good block for its own offset and version |
| `VerifyBlocks.PopulatedKeepsData` | verify.c:882-968 | and keeps all the data behind the header, wherever verify_offset puts the header |
| `VerifyBlocks.PopulateHdr` | verify.c:882-968 | the method writes exactly that block into the buffer and nothing else |
| `VerifyBlocks.FillPatternHeaders` | verify.c:92-108 | every block of the buffer becomes a good one for its own absolute offset, and the bytes behind its header are those of the fill pattern |
| `VerifyBlocks.HeaderCount` | verify.c:78-90 | a buffer has one header for each smallest block with randomagain, else one for each verify interval if there is one that fits, else one in all |
| `VerifyBlocks.VerifyIoU` | verify.c:675-786 | returns 0 if and only if all headers pass and, with verify_fatal, all checksums do; without it, the last one does. In bytes: any wrong magic, length, header checksum, offset or version in any block gives a nonzero result, and so does, in every block with verify_fatal and else in the last, an unknown type or a stored digest other than that of the data; with headers of the job's own type and length nothing else does. The result is 0, 84 or, only for an unknown type, 22 |
| `VerifyBlocks.AcceptedInBytes` | verify.c:675-786 | a buffer whose headers are of the job's own type and length is accepted if and only if magic, offset, header checksum and version of every block are byte for byte those of a write at its place, and the digests that count are those of the data |
| `VerifyBlocks.BadHeaderIsRejected` | verify.c:655-738 | a wrong magic, length, header checksum, offset or version in any block makes the buffer fail, whatever else the header says |
| `VerifyBlocks.BadDigestIsRejected` | verify.c:740-778 | a block that stores another digest than that of its data makes the buffer fail, any block with verify_fatal, else the last |
| `VerifyBlocks.UnknownIsRejected` | verify.c:774-777 | and so does a block of no known verify type |
| `VerifyBlocks.DamageIsRejected` | verify.c:740-778 | in a buffer of good blocks, data changed so that its digest changes, or a changed digest, is noticed in every block with verify_fatal, else in the last |
| `VerifyBlocks.GoodIsAccepted` | verify.c:675-786 | a buffer of good blocks is accepted, for every checksum function, interval, offset and version |
| `VerifyBlocks.StaleBlockIsRejected` | verify.c:727-738 | an intact block left over from a write with another version makes the buffer fail |
| `VerifyBlocks.FailureIsForgotten` | verify.c:700-778 | without verify_fatal a failed checksum is overwritten by a later success: any number of good blocks, with the checksum of the first one spoiled, is accepted, whatever verify_offset is |
| `VerifyBlocks.AcceptanceCoversChecksums` | verify.c:700-778 | for buffers of n blocks, acceptance means that all checksums are right if and only if verify_fatal is set or n is at most 1 |
| `WriteVerify.WriteHolds` | verify.c:92-108 | after a write the disk holds good blocks for the overlaid versions, and still does for all other pending blocks |
| `WriteVerify.PieceReadsGood` | verify.c:1013-1030 | whatever piece is read back while its blocks are pending is a buffer of good blocks for the piece's offset and version, split pieces included |
| `WriteVerify.Job.Write` | iolog.c:184-221 | a completed write is logged, good for its version in its own range of the disk, holds there the data it was given behind every header, and leaves every other byte alone |
| `WriteVerify.Job.VerifyNext` | verify.c:982-1060 | with an empty list nothing is pending on any file. Otherwise the first piece of the list is handed out; each of its blocks was last written with its version and not handed out since; what is read back for it is accepted, and the result is 0 |
| `WriteVerify.Job.Run` | verify.c:675-786 | in every interleaving of completed writes and verify steps, up to the first write to a file of which a piece was handed out that remove_seg could not clear: the trace grows by exactly one event for each write and for each piece handed out, in order; every write lands in its range only, with the data it was given; every piece handed out is due, reads back as accepted and gets result 0; a step that finds none finds nothing pending. A run that verifies only after its last write, and one whose writes remove_seg can all clear, goes through to the end |
| `WriteVerify.WriteFirstNeverStops` | verify.c:982-1060 | a job that writes first and verifies afterwards never comes to such a write, whatever it writes |
| `LostWrites.ReadBackDetects` | verify.c:727-738 | blocks of a write are read back as accepted with its version if and only if each of them still holds what that write put there: any lost write, and any other write in its place, is noticed, for all writes between two map resets |
| `LossyRuns.LossyJob.Run` | verify.c:675-786 | in every run in which any writes are lost, a verify step returns 0 if and only if the last write over each block of the piece it checks reached the disk; each write that arrives puts its data into its own range, and nothing else changes the disk |
| `LossyRuns.PieceVerdict` | verify.c:727-738 | a piece that is due is accepted if and only if the last write over each of its blocks reached the disk, whatever lies there instead: an earlier write, or what was there before the run |
| `LossyRuns.LossyJob.Write` | io_u.c:1321-1331 | a write gets its version from the version map and the serial number, is logged, and reaches the disk with the data it was given, or leaves the disk as it was |
| `LossyRuns.Start` | init.c:705-720 | a job with new maps, its first version set, and a disk that claims no version from now on can run |
| `LossyRuns.ZeroesForeign` | verify.c:655-738 | a disk of zeroes is such a disk |
| `Uniques.TimeNumber.NewUnlessWrapped` | uniques/time_num.c:10-20 | the next version is new if and only if the serial number has not wrapped around to 0 with the clock still where it was when it started |
| `Uniques.TimeNumber.Set` | uniques/time_num.c:10-20 | versions count up from the time of the first one, modulo 2^32 |
| `RbShape.PlugInOrder` | rbtree.c:25-69 | the order of a tree is what lies before a place, what is in it, and what lies after it |
| `RbShape.RotationOrder` | rbtree.c:25-69 | both shapes of a rotation list the same nodes in the same order, whatever their colours |
| `RbShape.RotateLeftHolds` | rbtree.c:25-46 | the pointer writes of a left rotation turn one shape into the other, parent links included, and leave the rest of the memory spelling the rest of the tree |
| `RbShape.RotateRightHolds` | rbtree.c:48-69 | the same for a right rotation |
| `RbColour.PlugRedBlack` | rbtree.c:71-287 | a subtree that follows the rules in a place that follows them gives a tree that does |
| `RbColour.OpenRedBlack` | rbtree.c:71-287 | and conversely: every subtree of a tree that follows the rules fits its place with one black height |
| `RbColour.RbHeightUnique` | rbtree.c:71-287 | a tree has only one black height |
| `RbColour.Balanced` | rbtree.c:71-287 | a tree that follows the rules is balanced: two to its depth is at most the square of its size plus one |
| `RbColour.UncleRed` | rbtree.c:82-90 | with a red uncle the recolouring moves the only conflict two levels up |
| `RbColour.BlackNephews` | rbtree.c:153-159 | painting the sibling red moves the missing black node one level up |
| `RbColour.RedSibling` | rbtree.c:146-152 | after the first rotation the sibling is black and the parent red |
| `RbColour.RepairedSubtree` | rbtree.c:160-178 | the last rotation makes up for the missing black node |
| `RbTree.RbRoot.RotateLeft` | rbtree.c:25-46 | the heap after the rotation spells the rotated tree |
| `RbTree.RbRoot.RotateRight` | rbtree.c:48-69 | the heap after the rotation spells the rotated tree |
| `RbTree.RbRoot.InsertColor` | rbtree.c:71-134 | ends, restores all red-black rules with a black root, and keeps the order of the nodes |
| `RbTree.RbRoot.LinkNode` | rbtree.h:145-152 | the new node is a red leaf in the open place |
| `RbTree.RbRoot.Insert` | rbtree.c:71-134 | linking and rebalancing add exactly the new node, in its place in the order, to a tree that follows all rules again |
| `RbTree.RbRoot.EraseStepLeft` | rbtree.c:143-179 | one turn for a short left subtree ends the repair, moves it up or leaves a red root to paint |
| `RbTree.RbRoot.EraseStepRight` | rbtree.c:180-216 | the same for a short right subtree |
| `RbTree.RbRoot.EraseColor` | rbtree.c:136-220 | ends, and mends a tree with one black node missing below a place; the order of the nodes stays |
| `RbTree.RbRoot.Successor` | rbtree.c:235-237 | the leftmost node of the right subtree, and the way down to it |
| `RbTree.RbRoot.EraseSingle` | rbtree.c:269-286 | a node with at most one child is taken out |
| `RbTree.RbRoot.EraseDouble` | rbtree.c:231-267 | the successor takes over place, colour and links of the node |
| `RbTree.RbRoot.Erase` | rbtree.c:222-287 | removes exactly one node from the order and leaves a tree that follows all rules, with correct parent links |
| `RbTree.RbRoot.First` | rbtree.c:292-302 | the node that comes first in order, or null for an empty tree |
| `RbSplice.SpliceHolds` | rbtree.c:269-282 | linking the only child to the parent leaves exactly the tree without the node |
| `RbSplice.ReplaceHolds` | rbtree.c:250-265 | copying all links of one node to another puts that node in its place |
| `TreeHistory.History.Descend` | iolog.c:264-287 | finds the piece with the key, or the place where everything before is below the key and everything after above it |
| `TreeHistory.History.SortIn` | iolog.c:258-293 | the piece is sorted in where its key belongs; exactly the piece with the same key, if there is one, is thrown out of tree, trim list and count, and the restart loop ends after one more pass |
| `TreeHistory.History.LogIoPiece` | iolog.c:223-293 | the write is sorted into the tree if and only if the job is random and overwrites, verifies without a random map or with randomagain, has a ddir_seq_nr above 1, or asks for verifysort; else it becomes the last of the list. A sorted write becomes the only piece of its key; all other pieces stay as they are; it joins the trim list exactly if asked for |
| `TreeHistory.History.GetNextVerify` | verify.c:982-1060 | the smallest key of the tree comes first, with the version logged last for it; then the list, oldest first; key, length, version and trim mark handed out are those of the piece; the flag assertions hold |
| `TreeHistory.History.GetNextTrim` | trim.c:14-48 | hands out the oldest entry of the trim list; it leaves the history, from tree or list and nothing else with it, unless zeroes are to be verified |
| `TreeHistory.History.RemoveTrimEntry` | trim.h:14-20 | the entry leaves the trim list and trim_entries stays its length |
| `TreeHistory.History.DrainTree` | verify.c:992-998 | draining the tree yields every remembered key exactly once, file numbers ascending and the offsets within a file strictly so, each with its last version |
| `TreeHistory.Run` | iolog.c:223-293 | every run of logging, verifying and trimming leaves exactly what the same steps make of a sorted sequence, a queue and a list of numbers, and hands out exactly the pieces they say |
| `TreeHistory.RunAll` | verify.c:982-1060 | from an empty history on, the pieces handed out are a function of the steps alone: no trace is left of tree shapes and node addresses. Each has the key, length and version of a logged write: the last one with its key if the job sorts, and the next one in order if it queues and does not trim |
| `HistoryMeaning.RunMeans` | iolog.c:246-293 | over every run the sorted pieces are, key by key in ascending order, the newest ones logged, and the queued ones stand in the order they were logged |
| `HistoryMeaning.HandoutTells` | verify.c:982-1060 | every piece handed out, to verify or to trim, has the key, length and version of one logged write |
| `HistoryMeaning.SortingJob` | iolog.c:246-286 | in a job that can write a key twice, by its options, no key is ever held twice, the offsets within a file ascend, and a verify step hands out the version logged last |
| `HistoryMeaning.QueueingJob` | iolog.c:246-249 | a job with none of these options keeps all its pieces in the order logged |
| `HistoryMeaning.QueueIsFifo` | verify.c:1000-1012 | and without trims gets them back exactly in that order, none left out |
| `TreeHistory.TakeStep` | trim.c:14-48 | one step of log_io_piece, get_next_verify or get_next_trim is one step on those values |
| `HistorySpec.InsertBetween` | iolog.c:270-292 | sorting a value in puts it after all smaller keys and before all larger ones, in the place of the one with its key if there is one |
| `HistorySpec.SeeSorted` | iolog.c:258-293 | a history in which a piece was sorted in is seen as the values with its number sorted in, and the number of the piece thrown out gone from the trim list |
| `HistorySpec.SeeTrimmed` | trim.c:14-48 | a trimmed piece is seen as the entry with the first number of the trim list, marked or gone |
| `TreeAccounts.LoggedAgain` | iolog.c:279-286 | throwing out the old piece first and then logging the key again leaves the same history as logging it once |
| `TreeAccounts.FirstIsSmallest` | verify.c:992-998 | the first piece in order has the smallest key of all that are remembered |
| `TreeAccounts.AccountErased` | iolog.c:279-286 | an erased piece takes its trim entry and its key with it and nothing else |
| `TreeOrder.InsertAscending` | iolog.c:271-278 | a node put between smaller and larger keys keeps the order strictly ascending |
| `SmallocLayout.LayoutFits` | smalloc.c:406-432 | the blocks taken for a request hold header, user bytes and post-redzone word if and only if the size is at most 2^32 - 44 |
| `SmallocLayout.HugeRequestWraps` | smalloc.c:406-432 | sizes for which the 32-bit arithmetic gives no block, or fewer bytes than asked for |
| `SmallocLayout.PartsApart` | smalloc.c:255-263 | header, user bytes and post-redzone word follow each other without overlap, inside the blocks of the allocation |
| `SmallocLayout.LiveApart` | smalloc.c:351-404 | live allocations of a pool occupy disjoint block ranges |
| `SmallocLayout.BusyIffLive` | smalloc.c:351-404 | a bit is set if and only if its block belongs to a live allocation |
| `SmallocLayout.OwnedAfterAlloc` | smalloc.c:392-399 | taking a free run for a new allocation keeps this true |
| `SmallocLayout.OwnedAfterFree` | smalloc.c:319-325 | giving the blocks of an allocation back keeps this true |
| `SmallocLayout.GaveUndoesTook` | smalloc.c:300-326 | freeing what was just allocated gives back bitmap and live allocations exactly |
| `SmallocLayout.StampsKept` | smalloc.c:255-289 | a write to user bytes, or to another allocation, leaves header and redzones as they are |
| `SmallocPool.Pool.BlocksIter` | smalloc.c:99-133 | over any number of words: compare tells exactly whether the range lies in the pool and is free; set and clear change exactly the range |
| `SmallocPool.Pool.FindBlocks` | smalloc.c:351-404 | ends; takes exactly the run that the search from next_non_full on comes to, and fails if and only if it comes to none or the free count is too low; next_non_full ends behind the last full word it came to; nothing else changes and the free count stays exact |
| `SmallocPool.FreeWordForgotten` | smalloc.c:369-376 | a run that ends with a request for one block turned down while a whole word is free, because a larger request went past that word and moved next_non_full behind a later, full one |
| `SmallocSearch.SearchSound` | smalloc.c:369-395 | what the search comes to is a free run of the length asked for |
| `SmallocSearch.LongRunFound` | smalloc.c:378-390 | the search succeeds if a free run of at least n and at least 2n - 2 blocks starts at or after its beginning |
| `SmallocSearch.OneBlockFound` | smalloc.c:369-395 | one block is found if and only if one is free at or after the beginning |
| `SmallocSearch.ShortRunMissed` | smalloc.c:379-390 | a word in which three free blocks are passed by, because after a failure the search goes on behind the blocks it tried |
| `SmallocPool.Pool.Alloc` | smalloc.c:406-432 | succeeds if and only if the search finds room; the new allocation has blocks that were free, zeroed, with header and redzones, and no byte of a live allocation is touched |
| `SmallocPool.Pool.UserWrite` | smalloc.c:255-289 | writing inside the user bytes of a live allocation changes that byte only and keeps every header and redzone of the pool intact |
| `SmallocPool.Pool.CheckRedzone` | smalloc.c:273-289 | for a live allocation both redzone words are found intact |
| `SmallocPool.Pool.Free` | smalloc.c:300-326 | reads the size back from the header and frees exactly the blocks of the allocation |
| `Smalloc.NewPoolHolds` | smalloc.c:179-220 | a pool made for a request maps what it uses and has room for the request if and only if the size is at most 4278254580 |
| `Smalloc.HugePoolWraps` | smalloc.c:192-195 | a size for which the mapped size wraps around and is smaller than what the pool uses |
| `Smalloc.PointersApart` | smalloc.c:434-468 | live allocations of all pools never overlap |
| `Smalloc.Allocator.AddPool` | smalloc.c:179-220 | an empty pool with room for the request, apart from all others |
| `Smalloc.Allocator.Alloc` | smalloc.c:434-468 | ends; succeeds if and only if a pool from last_pool on can serve the request or one can be added; the first such pool does, and a pool is added only if there is none |
| `Smalloc.Allocator.ScanPools` | smalloc.c:442-450 | the first pool from the given one on that can serve the request does; without one nothing changes |
| `Smalloc.FreePoolPassedBy` | smalloc.c:451-454 | a run of three requests and a release after which one byte is refused while the first pool is wholly free, because last_pool is set back but the pool index is not |
| `Smalloc.Allocator.Free` | smalloc.c:328-349 | finds the one pool the pointer lies in and frees exactly that allocation; a null pointer changes nothing |
| `Smalloc.Allocator.UserWrite` | smalloc.c:255-289 | a byte written through a pointer changes that byte of that allocation and nothing else in any pool |
| `SmallocHeap.Heap.Smalloc` | smalloc.c:434-468 | to its users the allocator is a map from pointers to bytes: a new pointer to zeroed bytes, with what all other pointers hold unchanged, or nothing new at all |
| `SmallocHeap.Heap.Sfree` | smalloc.c:328-349 | the pointer leaves that map, and nothing else changes |
| `SmallocHeap.Heap.Write` | smalloc.h:4-9 | a byte written through a pointer is the only change to that map |
| `SmallocHeap.Heap.Read` | smalloc.h:4-9 | a byte read through a pointer is the one that map holds |
| `SmallocHeap.Heap.Strdup` | smalloc.c:470-477 | a new pointer to the string and its terminating zero |
| `SmallocHeap.PointersDistinct` | smalloc.c:434-468 | no two live allocations have the same pointer, in all pools together |
| `RandomMap.FileMap.constructor` | filesetup.c:852-863 | the map has one bit for each block of the file, rounded up to words, all clear, and the search starts at the first block |
| `RandomMap.MapMeansAligned` | init.c:445-470 | after the options are fixed up, a job that has a random map aligns its offsets to the smallest block size of their direction, so never to less than the block size of the map |
| `RandomMap.FixUpMeans` | init.c:445-470 | the fix-up gives each direction its own smallest block size or the common one, and the alignment asked for or that block size; a job keeps its random map if and only if it did not turn it off and, if random, gave no alignment other than the block size |
| `RandomMap.FileMap.InMap` | io_u.c:759-764 | a range that fill_io_u lets pass lies in the map |
| `RandomMap.FileMap.IsFree` | io_u.c:26-34 | the bit of the block is clear |
| `RandomMap.FileMap.MarkPrefix` | io_u.c:99-139 | across word boundaries, marks exactly the longest free run that the range begins with |
| `RandomMap.FileMap.MarkRandomMap` | io_u.c:84-144 | the range starts in the block that its first byte lies in; the io_u keeps exactly the maximal free prefix of its blocks and its length is cut to it; between resets no block belongs to two issued io_us |
| `RandomMap.IssueStep` | io_u.c:84-144 | a run of free blocks meets none of the runs marked before |
| `RandomMap.FileMap.WordsCover` | filesetup.c:852-863 | a word index is in the map if and only if its first block starts inside the file |
| `RandomMap.FileMap.GetNextFreeBlock` | io_u.c:174-203 | all words read exist; a block found is the first free one from the start word on and starts at or before the end of file and I/O size; failure means that every block from the start word on that lies in both is used |
| `RandomMap.FileMap.LastBlockInBytes` | io_u.c:146-170 | a block is below last_block if and only if all of it lies in the file and in the I/O size |
| `RandomMap.FileMap.GetNextRandOffset` | io_u.c:205-280 | for any random draws: the first of the five drawn blocks that is free is taken, unless drawing has failed 200 times; success gives a free block that starts at or before the end of file and I/O size, failure only when every block that lies in both is used |
| `RandomMap.FileMap.Reset` | file.h:174-186 | all blocks are free again, no io_u counts as issued, and the search starts over |
| `WriteVersions.VersionedFile.MarkBitMap` | io_u.c:36-79 | marks the whole range and reports a repetition if and only if any of it was marked before, across words |
| `WriteVersions.VersionedFile.GetWrite` | io_u.c:1321-1331 | any two writes between map resets that share a block carry different versions; a range without repetition keeps the current version, any other takes the next one; the versions seen grow by exactly the one used |
| `WriteVersions.VersionedFile.GetRead` | io_u.c:771-772 | a read marks its range in the same map and leaves all versions apart |
| `IoUnits.OnExactlyOne` | io_u.c:676-719 | a unit is on a list if and only if that is its place, so it is on exactly one |
| `IoUnits.MoveKeeps` | io_u.c:676-719 | moving one unit between lists keeps every unit on exactly one list |
| `IoUnits.Job.GetIoU` | io_u.c:1121-1162 | requeued units first, then free ones; the unit found is always marked free, stale depth flags notwithstanding; the depth grows by one |
| `IoUnits.Job.PutIoU` | io_u.c:676-693 | the unit becomes free from wherever it was; the depth shrinks exactly if it was busy |
| `IoUnits.Job.RequeueIoU` | io_u.c:701-719 | the unit joins the requeues and the depth shrinks by one |
| `IoUnits.Job.VerifyIoUAsync` | verify.c:601-619 | the unit waits for a verify thread, out of the depth and with its deferred-free flag |
| `IoUnits.Job.Complete` | io_u.c:1540-1547 | the completed unit is put back, or left to a verify thread, never both |
| `IoUnits.Job.TakeVerifyList` | verify.c:1080-1094 | a verify thread takes the whole verify list over |
| `IoUnits.Job.FinishVerify` | verify.c:1099-1105 | the verified unit becomes free without changing the depth |
| `IoUnits.Job.constructor` | backend.c:820-856 | all units start out free |
| `IoUnits.Run` | io_u.c:676-719 | every run leaves exactly the lists that its steps lead to, hands out the units they say, has each unit on exactly one list, and cur_depth is the length of the busy list |
| `IoUnits.TakeStep` | io_u.c:676-719 | each call is one step on the lists: which unit moves from where to where, and which one is handed out |
| `IoUnits.AfterConserves` | io_u.c:676-719 | no step loses a unit or makes one up: each is on as many lists after it as before |
| `IoUnits.RunConserves` | verify.c:1080-1105 | so no run does |
| `NetCommand.HdrRoundTrip` | server.h:16-29 | the little-endian header fields read back as written |
| `NetCommand.FragmentParsed` | server.c:120-154 | a fragment is recognised with its header and payload, whatever follows it in the stream |
| `NetCommand.RoundTrip` | server.c:159-284 | for every checksum function, opcode, tag and payload below 4 GB: what is received is the opcode, tag, length and payload sent, MORE cleared, and nothing after it is consumed |
| `NetCommand.SendCmd` | server.c:248-284 | the bytes sent are the fragments of the command |
| `NetCommand.WireInFragments` | server.c:248-284 | which are good fragments of 1024 payload bytes with MORE set, and then one with the rest and no flag, all with opcode and tag of the command; their payloads together are its payload |
| `NetCommand.RecvCmd` | server.c:159-235 | a command is returned if and only if the stream starts with a complete sequence of fragments: in each the checksum of the first 20 bytes is the stored one, the version is 6, the length is at most 1024, the opcode is that of the first, and the checksum of a nonempty payload is the stored one; all before the last have MORE set and payload, and the last does not. The command is what they make up, and what follows them stays unread |
| `NetCommand.ReceivedIff` | server.c:159-235 | the same for the receiving function, in both directions |
| `NetCommand.ReceivedIsComplete` | server.c:172-215 | whatever yields a command, at any point of a reception, is a sequence of such fragments |
| `NetCommand.CompleteIsReceived` | server.c:172-235 | every such sequence is received, whatever follows it |
| `NetCommand.SpoiltIsRefused` | server.c:120-157 | after any number of fragments that say that more follows, none included, a fragment that is cut short or fails any one of the tests, or a later one of another opcode, makes the reception fail |
| `NetCommand.Exchange` | server.c:159-284 | a command sent over a connection arrives, and what was sent after it is still there |
| `LatencyBuckets.IdxForm` | stat.c:41-76 | the index is 64 for each discarded bit plus the leading bits, and the last bucket for everything beyond |
| `LatencyBuckets.MiddleOfBucket` | stat.c:81-101 | the value of an index is the middle of its bucket |
| `LatencyBuckets.InBucket` | stat.c:41-76 | a value below 2^24 lies in the bucket of its index |
| `LatencyBuckets.IndexRoundTrip` | stat.c:81-101 | every index is the index of its own value |
| `LatencyBuckets.IndexMonotone` | stat.c:41-76 | larger values have larger indexes, beyond the tracked range too |
| `LatencyBuckets.WithinOnePart128` | stat.h:25-32 | the value reported for a latency below 2^24 is off by at most 1/128 of it |
| `Percentiles.CumIsBelow` | stat.c:1229-1236 | the running sum of the histogram is the number of samples in the buckets so far |
| `Percentiles.AddClatPercentileSample` | stat.c:1229-1236 | the histogram with one more sample |
| `Percentiles.PercentileExists` | stat.c:117-177 | for every p up to 100 and every nonempty list of samples there is a smallest sample that at least p percent of them do not exceed |
| `Percentiles.ThresholdIsPercent` | stat.c:150 | reaching the number the loop compares with is the same as making up p percent of the samples |
| `Percentiles.PercentileBucket` | stat.c:150-172 | the first bucket whose running sum reaches the percentile is the bucket of that sample |
| `Percentiles.PercentileAccurate` | stat.c:117-177 | so the reported value is within 1/128 of that sample |
| `Percentiles.CalcClatPercentiles` | stat.c:117-177 | every listed percentile is reported, in ascending order, with the value of the first bucket that reaches it; minimum and maximum are those of the report |
| `Percentiles.ReportPercentiles` | stat.c:117-177 | from the samples to the report: each value printed is within 1/128 of the smallest sample that its percentage of the samples do not exceed |
| `IoStats.MomentsMean` | stat.c:1114-1131 | what a record keeps are the mean and the sum of squared deviations from it |
| `IoStats.MomentsAdd` | stat.c:1124-1128 | the update for one sample is exact |
| `IoStats.MomentsMerge` | stat.c:823-831 | the merge of two records is exact |
| `IoStats.IoStat.StandsExactly` | stat.c:1114-1131 | a record holds the exact count, minimum, maximum, mean and sum of squared deviations of its samples |
| `IoStats.IoStat.AddStatSample` | stat.c:1114-1131 | the record of the samples with one more |
| `IoStats.IoStat.SumStat` | stat.c:803-836 | the record of the samples of both; an empty source changes nothing, and the first source of a fold is taken as it is |
| `IoStats.Collect` | stat.c:1114-1131 | a thread's record, built one sample at a time, is the record of its samples |
| `IoStats.MergeAll` | stat.c:968-1027 | folding the records of all threads into a fresh one, in order, gives the record of all their samples |
| `Fifo.CounterMoves` | fifo.c:49-72 | a free-running counter that wraps around at 2^32 still moves its position on by n, because the size divides 2^32 |
| `Fifo.PutRing` | fifo.c:55-60 | bytes copied in two parts follow the contents in the ring and overwrite none of them |
| `Fifo.GetRing` | fifo.c:78-90 | bytes copied out in two parts are the first of the contents, and the rest stays |
| `Fifo.Fifo.Len` | fifo.h:33-36 | the number of bytes in the ring |
| `Fifo.Fifo.Room` | fifo.h:38-41 | the size less that number |
| `Fifo.Fifo.PutBytes` | fifo.c:49-72 | appends as many of the bytes as there is room for, in order |
| `Fifo.Fifo.GetBytes` | fifo.c:74-97 | removes as many bytes as asked for and available from the front, and returns them unless they are to be dropped |
| `StringDistance.NoShorterPath` | parse.c:848-881 | no sequence of single-character edits from one string to the other is shorter than the distance |
| `StringDistance.SomePath` | parse.c:848-881 | and one of that length exists |
| `StringDistance.EditBound` | parse.c:863-869 | one edit changes the distance to any third string by at most one |
| `StringDistance.Compute` | parse.c:848-881 | the two rows compute the Levenshtein distance, for all strings |

## Left out

- I/O engines, sockets, signals, scheduling of jobs, option parsing and output: foreign calls and user interface.
- Locking: a step of the io_u life cycle and of a verify thread is one atomic step; waiting and wake-up are not modelled.
- Opening files, file reference counts and requeued io_us in get_next_verify and get_next_trim: an io_u arrives without a file, and its file can be opened.
- prune_io_piece_log: empties the history at the end of a job.
- clean_map: every fio_file_reset zeroes the two-bit map if the history is empty by then (seg_2bitsmap.c:184-194, file.h:174-186), and so also removes IN cells that remove_seg left behind; the model keeps the map.
- Meta and pattern verify types: their checks depend on the pattern phase; VerifyIoU takes the outcome of such a check as given.
- Checksum and digest internals, and how they are updated.
- The trimmed-block check of verify_io_u and the zone options of the random map.
- WriteVerify.Job.Write: block-aligned writes of whole smallest blocks, with a checksum verify type and a header for each smallest block, as randomagain has them; other jobs that use the two-bit map are left out.
- WriteVerify.Job.Run: stops at a write to a file of which a piece was handed out that remove_seg could not clear, because insert_seg may then walk back from a leftover IN cell (StrayWalk); multi-block pieces that reach into the second half of the map are such pieces.
- LossyRuns.LossyJob.Run: one file, no map reset, and writes that are lost as a whole; it stops where Job.Run does, and at a write whose version would repeat because the serial number wrapped around within a second.
- LossyRuns.LossyJob.Write: asks that the clock has moved on when the serial number starts over, because else the version may be one that was given before.
- SmallocHeap.Heap.Strdup: asks that smalloc succeeds, because the source does not check its result.
- LostWrites.ReadBackDetects: asks for verify_inner, because only then is the version compared, and for versions of 32-bit seconds and numbers, because that is what a header holds.
- VerifyBlocks.MemSwp: asks for a verify_offset of 0 or at least the header length, because memcpy on overlapping bytes is undefined.
- VerifyBlocks.PopulateHdr: checksum verify types only; meta and pattern headers are left out.
- VerifyBlocks.PopulatedIsGood: checksum verify types only, for the same reason.
- VerifyBlocks.FillPatternHeaders: asks for whole header steps, because the last partial one would be written past the end of the buffer.
- VerifyBlocks.VerifyIoU: asks for whole header steps, because the last partial one would be read past the end of the buffer.
- SegmentHistory.History.LogIoPiece: asks that remove_seg has cleared every piece of the file that was handed out, because it starts from the map.
- SegmentMap.StrayWalk: says where the walk ends, and not what the whole history looks like after the piece was stretched.
- SmallocPool.Pool.Alloc: asks for a size that does not wrap around; LayoutFits says for which sizes that is.
- Smalloc.Allocator.AddPool: asks for a size for which the mapped size does not wrap around, for the same reason.
- Smalloc.Allocator.Alloc: asks for a size for which a new pool does not wrap around; NewPoolHolds says for which sizes that is.
- WriteVersions.VersionedFile.GetWrite: io_us that may reuse busy blocks, which do not occur when ddir_seq_nr is 1, are not modelled.
- TreeHistory.History.LogIoPiece: a sorted write has the length of the piece it replaces, as the assertion of the source demands.
- NetCommand.SendCmd: short and interrupted transfers are not modelled; the stream takes and gives bytes in order.
- NetCommand.RecvCmd: the zero byte behind text payloads is not modelled.
- Percentiles.CalcClatPercentiles: the list of percentiles is sorted by a function of its own, in place of qsort.
- Update in place of list links: lists are sequences, and unlinking a piece is removing it from its sequence.
