# Models and proofs for the Phoenix-RTOS file systems

This project models the hardest parts of four file systems (jffs2, ext2, fat and dummyfs) in Dafny and proves what they are for.
`dafny verify dfyconfig.toml` checks all of it.

Code that changes state step by step is modelled as classes and methods that do the same, each tied to a specification; what the
source promises is proved of those specifications and of whole histories of calls.
The device always answers and memory never runs out, unless a result code says otherwise below.
Balanced trees are ordered sequences, searched as a tree of any shape would be.
Machine integers are unbounded except where the width matters; there the wrap is written out: the 16-bit register of the rubin coder,
the 16-bit positions of rtime, the 8-bit histogram of dynrubin, the 32-bit hash of dummyfs and the 32-bit sector arithmetic of fat.

| file | models | main results |
|---|---|---|
| `Rubin.dfy` | jffs2 rubin arithmetic coder and dynrubin | `DynRubinRoundTrip`, `RubinDoCompress`, `RubinDoDecompress` |
| `Rtime.dfy` | jffs2 rtime coder | `RoundTrip` |
| `FragTree.dfy` | jffs2 fragment tree and reads from it | `AddFullDnode`, `TruncateFragtree`, `ReadInodeRange` |
| `ReadInode.dfy` | jffs2 node log to file contents | `ReadLog` |
| `EraseBlocks.dfy` | jffs2 space accounting and block lists | `Run`, `MarkNodeObsolete`, `OnePlace`, `DirtyIsDirty` |
| `WriteBuffer.dfy` | jffs2 write-behind buffer | `FlashWritev`, `FlashRead`, `ReadsLast` |
| `MountPasses.dfy` | jffs2 link counts at mount | `Mount`, `LeastUnique`, `RemovedIffUnreachable` |
| `FatChain.dfy` | fat cluster-chain area cache and reads through it | `ReadHistory`, `ParseNext`, `SoundIsExact` |
| `Ext2Index.dfy` | ext2 block index to path | `IndexOfPath`, `PathOfIndex` |
| `Ext2Tree.dfy` | ext2 indirect blocks and their three cache slots | `History`, `WalkFinds` |
| `Ext2Space.dfy` | the free blocks that ext2 lookups take | `LackingNext`, `CoveredNext`, `ShortThen` |
| `Ext2File.dfy` | ext2 block writes and file reads | `Sync`, `FileRead`, `SyncThenRead` |
| `Ext2Truncate.dfy` | ext2 release of data and indirect blocks | `Truncate`, `HistoryWithCuts` |
| `Ext2Alloc.dfy` | ext2 block bitmaps | `CreateOne`, `Create`, `Destroy`, `GivesUpRightly` |
| `Ext2Dir.dfy` | ext2 directory records | `Scan`, `ReadByReclen` |
| `DummyDir.dfy` | dummyfs hashed directory with a read hint | `Simulate`, `List` |

## What does not hold

Where the code does less than it seems to promise, the model follows the code, shows an input, and states exactly when the promise is kept.

- A read of the write-behind buffer that starts in the block before the buffer's block and reaches into it returns flash contents only
  (`CrossingReadMisses`). `FlashRead` says when the bytes last written come back: if and only if the read starts in the block of the buffer,
  or no byte it wants is still to be programmed.
- A write that starts in the middle of a page of a new block makes the bytes before it in that page read as erased until the page is programmed
  (`CoveredBytesHidden`). `FlashRead` says when a byte that was never written through the buffer reads as flash has it: if and only if the buffer
  does not cover it or flash is erased there.
- The code allocates the buffer of a cache slot before it creates an indirect block. If the device is full then, the slot keeps the buffer with block
  number 0, and the next write-back of the slot puts uninitialised memory into block 0 of the device (`FullDeviceStrands`, `FullDeviceStrays`); a read of a
  hole is enough. `History` says when block 0 is written: if and only if some creation failed for a slot without a buffer, which `Strands` tells from the
  free blocks and the slots before the call.
- `ext2_block_create` reports ENOSPC although there are free blocks, when these lie only before the word of its hint (`GivesUpWrongly`).
  `GivesUpRightly` says exactly when ENOSPC means a full device, and `Create` when it is reported.
  The allocator of single blocks has no hint and reports ENOSPC exactly for a full device.
- A hole of an ext2 file does not always read as zeros: the lookup creates the indirect blocks missing on its way, and on a full device the read fails
  (`ReadHole`). `FileRead` says when a read fails: if and only if more indirect blocks are missing on the ways to the blocks read than blocks are free,
  or a block is beyond the largest file.
- Cutting an ext2 file needs free blocks in the same way, so a full device may refuse to give blocks back. A file of twelve blocks in a row and a hole
  behind them can be neither cut nor, unless errors are ignored, removed (`FullRunStays`).
  A cut may also release a block, take it for an indirect block of a later lookup and then fail, so that the inode names one block as data and as pointers (`LoneReused`). `Truncate` succeeds if and only if `CanCut` holds before: at every
  block of the range, the free blocks and the runs released by then cover the indirect blocks missing up to it. With the indirect blocks in place, or no
  holes, or as many free blocks as indirect ones missing, it does (`ReachedCuts`, `MappedCuts`, `SpaceCuts`). After a failure the runs before the last
  one are released, free or indirect blocks now, and still named by the pointers, which are all as they were.
- Cutting an ext2 file to nothing leaves blocks beyond its size where they are, as a write that failed after allocating has them (`BlocksBeyondStay`).
  A cut that succeeds gives every block back if and only if there are none beyond the end (`Truncate`).
- The fat driver counts clusters from the first sector of the volume, though they begin behind the tables, and refuses numbers from that count on
  (`SmallIsUnsound`, `LastClusterRefused`). Every chain the format allows is read right if and only if the number of clusters in the data region plus 2 is
  no more than that count (`SoundIsExact`), for which two clusters' worth of sectors before the data region are enough (`RoomMakesSound`).
- The 16-bit record length of a directory entry cannot always lead to the next one: a client that goes on by it gets an entry twice if and only if that is
  65535 or more past the position asked for (`ReadByReclen`, `FarEntry`, `ByReclen`, `Twice`).
- The mount passes keep directories that name each other, though no way from the root leads to them (`CycleLeft`). Nothing reachable is ever removed, and
  `RemovedIffUnreachable` says when all that is unreachable is: if and only if no non-empty set of unreachable inodes has each member named from within.
- A data node of version 0 does not become `latest_ref`, since the code looks for versions above 0 (`VersionZero`); one without data does.
  `LatestMissed` says that the newest usable node is the latest in all other cases.

## Model

| member | source | states |
|---|---|---|
| `Rubin.PushPull.constructor` | jffs2/compr_rubin.c:47-55 | a bit buffer over the given bytes starts at the given offset, with its length and reserve |
| `Rubin.PushPull.PushBit` | jffs2/compr_rubin.c:57-70 | a bit is appended exactly when the offset is below the limit, which keeps the reserve back unless it may be used; nothing outside the buffer changes |
| `Rubin.PushPull.PullBit` | jffs2/compr_rubin.c:77-85 | the bit that was pushed at this offset comes back |
| `Rubin.PushPull.Rewind` | jffs2/compr_rubin.c:230-247 | restoring a saved offset forgets exactly the bits pushed since |
| `Rubin.BitsOfSet` | jffs2/compr_rubin.c:57-70 | writing bit n extends the first n bits by it and changes none of them |
| `Rubin.RubinState.constructor` | jffs2/compr_rubin.c:88-99 | coding starts from the whole interval |
| `Rubin.RubinState.Renormalise` | jffs2/compr_rubin.c:108-118 | the decided leading bits are pushed and the interval is doubled until it straddles the middle; it fails exactly when those bits do not fit |
| `Rubin.RubinState.Encode` | jffs2/compr_rubin.c:102-135 | encoding a symbol renormalises, then narrows the interval to the part of that symbol |
| `Rubin.RubinState.EncodeNext` | jffs2/compr_rubin.c:102-135 | the coder state after a symbol is that of the message extended by it; refused exactly when the bits of the extended message do not fit |
| `Rubin.RubinState.EncodeByte` | jffs2/compr_rubin.c:230-247 | the eight symbols of a byte join the message, or a bit of them did not fit |
| `Rubin.RubinState.OutByte` | jffs2/compr_rubin.c:230-247 | a byte that does not fit leaves interval, offset and bit number as they were: the message is the one before it |
| `Rubin.RubinState.EndRubin` | jffs2/compr_rubin.c:138-148 | the final register goes out through the reserved tail, so it always fits |
| `Rubin.RubinState.InitDecode` | jffs2/compr_rubin.c:151-161 | the register is loaded with the head of the stream |
| `Rubin.RubinState.DoDecode` | jffs2/compr_rubin.c:163-198 | counting the shifts first and pulling the bits afterwards renormalises exactly as the encoder did, with the register on the stream that is left |
| `Rubin.RubinState.CountShifts` | jffs2/compr_rubin.c:163-185 | as many shifts as the encoder emitted bits, to the same interval |
| `Rubin.RubinState.PullBits` | jffs2/compr_rubin.c:186-198 | the register moves on by that many bits of the stream |
| `Rubin.RubinState.Decode` | jffs2/compr_rubin.c:200-226 | the symbol is the side of the split point the register is on, and the interval narrows as in the encoder |
| `Rubin.RubinState.DecodeNext` | jffs2/compr_rubin.c:200-226 | on a stream that codes a message the head of the message comes back, and the state is that of the encoder after it |
| `Rubin.RubinState.InByte` | jffs2/compr_rubin.c:249-258 | on a stream that codes a byte and more, the byte comes back and the stream codes the rest |
| `Rubin.RubinDoCompress` | jffs2/compr_rubin.c:262-294 | for every input and weight table the output codes exactly the consumed bytes, as many as fit, stays within dstlen, and success means it is shorter than they are |
| `Rubin.RubinDoDecompress` | jffs2/compr_rubin.c:368-381 | from any buffer that codes destlen bytes exactly those bytes come back, and nothing behind them is written |
| `Rubin.Histogram` | jffs2/compr_rubin.c:320-322 | how often each byte value occurs |
| `Rubin.DynWeights` | jffs2/compr_rubin.c:323-346 | the eight weights are in the range the coder needs, and are those of the data |
| `Rubin.StoreWeights` | jffs2/compr_rubin.c:343-348 | the table read back from the eight stored bytes is the one used for coding |
| `Rubin.DynRubinCompress` | jffs2/compr_rubin.c:304-366 | header and code together fit and are shorter than the bytes consumed, which they code; refused where dstlen is 12 or less |
| `Rubin.DynRubinDecompress` | jffs2/compr_rubin.c:393-406 | the bytes coded under the table in the header come back |
| `Rubin.DynRubinRoundTrip` | jffs2/compr_rubin.c:304-406 | for every non-empty input and every dstlen, whatever dynrubin compresses it gets back |
| `Rubin.NarrowSplits` | jffs2/compr_rubin.c:119-134 | a value lies in the interval of exactly the symbol whose side of the split point it is on |
| `Rubin.EmitInside` | jffs2/compr_rubin.c:108-118 | a register inside the renormalised interval was inside the interval before, pulled back through the emitted bits |
| `Rubin.CodeInside` | jffs2/compr_rubin.c:102-148 | the register of a coded message is always inside the current interval |
| `Rubin.DecodesHead` | jffs2/compr_rubin.c:163-226 | comparing the register with the split point recovers the symbol that was encoded |
| `Rubin.CodeInjective` | jffs2/compr_rubin.c:102-148 | equally long messages have different codes |
| `Rtime.Match` | jffs2/compr_rtime.c:53-57 | the longest repeat from an earlier position, at most 255 bytes, also where it overlaps itself |
| `Rtime.CompressPair` | jffs2/compr_rtime.c:46-58 | a pair stands for the bytes it moves past, given the same position table, whose entries wrap at 16 bits |
| `Rtime.Compress` | jffs2/compr_rtime.c:32-70 | the output expands to exactly the consumed prefix, fits dstlen, and success means it is strictly shorter |
| `Rtime.Repeat` | jffs2/compr_rtime.c:94-104 | the copy gives byte by byte what an overlapping run means, also through the block copy |
| `Rtime.DecompressPair` | jffs2/compr_rtime.c:88-104 | output and position table go on as the compressor did |
| `Rtime.Decompress` | jffs2/compr_rtime.c:73-107 | the bytes the stream stands for, and nothing behind them |
| `Rtime.RoundTrip` | jffs2/compr_rtime.c:32-107 | for every input and every dstlen of at least 2 the consumed prefix comes back byte for byte |
| `Rtime.CopiedApart` | jffs2/compr_rtime.c:95-103 | a run that ends before its own output is a block copy |
| `Rtime.StepMeans` | jffs2/compr_rtime.c:46-58 | a pair of a byte and its longest repeat stands for the next bytes of the data |
| `FragTree.Inode.constructor` | jffs2/nodelist.c:356-399 | a file without fragments, counts or obsolete nodes |
| `FragTree.Inode.Lookup` | jffs2/nodelist.c:517-554 | the fragment that holds an offset, or the last one before it, in a search tree of any shape |
| `FragTree.Inode.ObsoleteFrag` | jffs2/nodelist.c:94-113 | one reference less, and the node is obsolete exactly when that was its last |
| `FragTree.Inode.AddFullDnode` | jffs2/nodelist.c:356-399 | each byte of the node now belongs to it and every other byte to whom it did; the fragments tile the file and the counts match them |
| `FragTree.Inode.AddFrag` | jffs2/nodelist.c:208-350 | whatever the new fragment meets, the tree is the old one overwritten on its range |
| `FragTree.Inode.NoOverlappingNode` | jffs2/nodelist.c:162-205 | behind the end of the file a hole fills the gap |
| `FragTree.Inode.SplitFrag` | jffs2/nodelist.c:262-297 | an old fragment survives on both sides of the new one, and its node has one reference more |
| `FragTree.Inode.ShrinkFrag` | jffs2/nodelist.c:298-303 | an old fragment keeps its head |
| `FragTree.Inode.ReplaceFrag` | jffs2/nodelist.c:304-314 | an old fragment that starts with the new one gives way to it |
| `FragTree.Inode.AdvanceFrag` | jffs2/nodelist.c:315-322 | an old fragment keeps its tail behind the new one |
| `FragTree.Inode.SweepCovered` | jffs2/nodelist.c:324-349 | fragments covered by the new one go, with their references, and the last one met is trimmed |
| `FragTree.Inode.EraseAt` | jffs2/nodelist.c:327-333 | a fragment goes and its reference with it |
| `FragTree.Inode.ResizeAt` | jffs2/nodelist.c:340-342 | a fragment is trimmed, which changes no count |
| `FragTree.Inode.TruncateFragtree` | jffs2/nodelist.c:52-92 | each byte before the size belongs to whom it did, no byte behind it to anyone, and the length returned is what is really there |
| `FragTree.Inode.CutTail` | jffs2/nodelist.c:54-71 | the fragments before the size stay, one across it is trimmed, the others go with their references |
| `FragTree.Inode.EraseTail` | jffs2/nodelist.c:65-71 | the fragments from a place on go, with their references |
| `FragTree.Inode.ReadInodeRange` | jffs2/read.c:151-221 | every byte read is that of the newest node there, zero in holes and past the end |
| `FragTree.OverwrittenMap` | jffs2/nodelist.c:208-350 | the overwritten tree tiles the file again and differs from the old one exactly on the range of the new node |
| `FragTree.CutAt` | jffs2/nodelist.c:52-92 | cutting a tiling inside a fragment gives two tilings |
| `FragTree.CountExchange` | jffs2/nodelist.c:94-113 | exchanging a stretch of the tree changes each count by what the stretches hold |
| `ReadInode.ReadInodeInfo.constructor` | jffs2/readinode.c:219-239 | no node has arrived |
| `ReadInode.ReadInodeInfo.LookupTn` | jffs2/readinode.c:167-188 | the place of an offset among the nodes ordered by offset, in a search tree of any shape |
| `ReadInode.ReadInodeInfo.BackUp` | jffs2/readinode.c:243-259 | the start of the stretch of overlapping nodes |
| `ReadInode.ReadInodeInfo.Erase` | jffs2/readinode.c:191-196 | one node leaves the tree, the order of the others stays |
| `ReadInode.ReadInodeInfo.KillCovered` | jffs2/readinode.c:293-306 | older nodes inside a newer valid one go, and none that is the newest anywhere |
| `ReadInode.ReadInodeInfo.Prune` | jffs2/readinode.c:261-325 | whether the new node is wanted; either way what is left still shows the newest valid node at every byte |
| `ReadInode.ReadInodeInfo.InsertPoint` | jffs2/readinode.c:334-344 | behind every node with a smaller offset, or the same one and no larger size |
| `ReadInode.ReadInodeInfo.OverlapBehind` | jffs2/readinode.c:349-374 | not overlapped means every earlier node ends at or before this one starts |
| `ReadInode.ReadInodeInfo.Insert` | jffs2/readinode.c:327-386 | the node joins the tree, order and meaning of the flags kept |
| `ReadInode.ReadInodeInfo.FlagAhead` | jffs2/readinode.c:376-384 | every node behind that starts before its end is flagged |
| `ReadInode.ReadInodeInfo.AddData` | jffs2/readinode.c:241-386 | order, flags and the newest valid node at every byte are kept |
| `ReadInode.ReadInodeInfo.AddTnToTree` | jffs2/readinode.c:210-386 | one more node has arrived, in any order of versions and offsets, and the tree still holds all that matters |
| `ReadInode.ReadInodeInfo.LookupFrom` | jffs2/readinode.c:241-259 | a place that no earlier node reaches beyond, at the start of the stretch of overlapping nodes around the offset |
| `ReadInode.ReadInodeInfo.VerInsert` | jffs2/readinode.c:416-434 | a group stays in descending order of version |
| `ReadInode.ReadInodeInfo.ReplayOne` | jffs2/readinode.c:492-529 | replaying a node puts it on show where it is the newest; one with a bad checksum leaves no trace |
| `ReadInode.ReadInodeInfo.Replay` | jffs2/readinode.c:485-531 | a group replayed by version shows its newest bytes, and other groups are not touched |
| `ReadInode.ReadInodeInfo.ConsumeTree` | jffs2/readinode.c:464-532 | groups cut at the flags, taken from the last, replay all the nodes of the tree |
| `ReadInode.ReadInodeInfo.BuildInodeFragtree` | jffs2/readinode.c:443-534 | each byte belongs to the valid node of the highest version that covers it; latest_ref is the usable node of the highest version, and missing exactly if all usable nodes have version 0 and data |
| `ReadInode.ReadLog` | jffs2/readinode.c:210-534 | for every log of nodes with distinct versions, in every order: each byte of the file is that of the newest valid node there, zero where there is none, and the latest node is as for the whole log |
| `ReadInode.LatestMissed` | jffs2/readinode.c:449-505 | the newest usable node is the latest one, unless it is a data node of version 0 |
| `ReadInode.VersionZero` | jffs2/readinode.c:498-505 | a log of one good data node of version 0, whose byte is read but which is not the latest |
| `ReadInode.KeptIsEnough` | jffs2/readinode.c:261-325 | what is newest among the kept nodes is newest among all that arrived |
| `ReadInode.HoldsAfter` | jffs2/readinode.c:497-528 | overwriting with a node newer than everything it meets keeps the newest on show |
| `ReadInode.InsertedOrdered` | jffs2/readinode.c:329-385 | inserting in place and flagging what the node reaches keeps the meaning of the flags |
| `ReadInode.NewestYet` | jffs2/readinode.c:485-531 | in a group the next node is newer than all replayed nodes it can meet |
| `EraseBlocks.SuperBlock.constructor` | jffs2/erase.c:470-485 | a flash of erased blocks satisfies all invariants, each block on the free list |
| `EraseBlocks.SuperBlock.LinkNodeRef` | jffs2/nodelist.c:578-652 | references keep tiling the written area of nextblock, and of any block in use for obsolete ones; the length goes from free to the class of the node, in block and superblock alike |
| `EraseBlocks.SuperBlock.WasteNextblock` | jffs2/nodemgmt.c:431-439 | free space is written off: linked as an obsolete reference, counted as wasted |
| `EraseBlocks.SuperBlock.ConvertWasted` | jffs2/gc.c:100-108 | wasted space counts as dirty, in block and superblock alike |
| `EraseBlocks.SuperBlock.PutNextblock` | jffs2/nodemgmt.c:238-271 | nextblock goes to exactly one list of blocks in use |
| `EraseBlocks.SuperBlock.CloseNextblock` | jffs2/nodemgmt.c:238-271 | a full block goes to the list its dirt calls for, and there is no nextblock |
| `EraseBlocks.SuperBlock.StartErase` | jffs2/erase.c:130-146 | the first pending block moves under erasure; all its bytes move from its own sizes to erasing_size |
| `EraseBlocks.SuperBlock.EraseSucceeded` | jffs2/erase.c:165-176 | the block is erased and waits for its check |
| `EraseBlocks.SuperBlock.MoveErasing` | jffs2/erase.c:165-176 | among the lists of blocks under erasure nothing but the list changes |
| `EraseBlocks.SuperBlock.EraseRefile` | jffs2/erase.c:80-103 | an erase to be tried again is pending and all dirty |
| `EraseBlocks.SuperBlock.EraseFailed` | jffs2/erase.c:178-208 | a block given up is on the bad list and in bad_size |
| `EraseBlocks.SuperBlock.TakeComplete` | jffs2/erase.c:117-122 | the first erased block is taken for its check |
| `EraseBlocks.SuperBlock.MarkErasedRefile` | jffs2/erase.c:499-507 | a check that could not be made is made later |
| `EraseBlocks.SuperBlock.FreshBooks` | jffs2/erase.c:470-481 | a fresh block is all free but for an in-band clean marker |
| `EraseBlocks.SuperBlock.MarkErased` | jffs2/erase.c:420-494 | a checked block is free, and its bytes move from erasing_size to free and used |
| `EraseBlocks.SuperBlock.FindNextblock` | jffs2/nodemgmt.c:275-346 | the first free block becomes nextblock; there is no space exactly when nothing is free, erasable, waiting for the buffer or being erased |
| `EraseBlocks.SuperBlock.SetErasable` | jffs2/nodemgmt.c:283-293 | an erasable block is queued for erasure and counted |
| `EraseBlocks.SuperBlock.TakeFree` | jffs2/nodemgmt.c:329-332 | the first free block is nextblock and counted no more |
| `EraseBlocks.SuperBlock.ObsoleteRef` | jffs2/nodemgmt.c:613-668 | the bytes of a live node leave used or unchecked, which cover them, and become dirty or wasted |
| `EraseBlocks.SuperBlock.MoveInUse` | jffs2/nodemgmt.c:719-731 | a block moves between lists; a spent one holds nothing live |
| `EraseBlocks.SuperBlock.PutGcblock` | jffs2/nodemgmt.c:687-714 | a spent block under collection goes to a list of blocks to be erased |
| `EraseBlocks.SuperBlock.MarkNodeObsolete` | jffs2/nodemgmt.c:574-738 | for every node of every block: marking it neither underflows used nor unchecked, keeps all invariants, and queues a block with nothing live left |
| `EraseBlocks.SuperBlock.Refile` | jffs2/nodemgmt.c:684-736 | the list a block goes to as it gets dirtier |
| `EraseBlocks.SuperBlock.RefileSpent` | jffs2/nodemgmt.c:687-714 | a block with nothing live leaves its list or gcblock for a list of blocks to be erased |
| `EraseBlocks.SuperBlock.AddPhysicalNodeRef` | jffs2/nodemgmt.c:495-548 | accepted exactly at the write point of nextblock, or obsolete without a nextblock; linked, and a nextblock filled without dirt is clean |
| `EraseBlocks.SuperBlock.DoReserveSpace` | jffs2/nodemgmt.c:349-481 | a nextblock with room stays; otherwise it is written off and filed, and the room returned is what the new one has |
| `EraseBlocks.SuperBlock.WasteAndClose` | jffs2/nodemgmt.c:402-443 | what is left in nextblock is written off before it is filed |
| `EraseBlocks.SuperBlock.DropCleanmarker` | jffs2/nodemgmt.c:464-475 | the clean marker becomes obsolete with the first node, and takes no room |
| `EraseBlocks.SuperBlock.FindGcBlock` | jffs2/gc.c:37-111 | the block picked has nodes, and all its waste counts as dirt; none is found only if nothing is left to collect even after blocks waiting for the buffer were refiled |
| `EraseBlocks.SuperBlock.TakeGcBlock` | jffs2/gc.c:46-111 | the block is the first of the list the dice choose |
| `EraseBlocks.SuperBlock.EraseGcBlock` | jffs2/gc.c:475-484 | a collected block without used space is queued for erasure |
| `EraseBlocks.SuperBlock.FlushWbufPad` | jffs2/wbuf.c:648-681 | the padding is written off in nextblock, and no block waits for the buffer any more |
| `EraseBlocks.SuperBlock.RefileWbufBlocks` | jffs2/wbuf.c:100-128 | every block that waited for the buffer is to be erased |
| `EraseBlocks.SuperBlock.RefileWbufBlock` | jffs2/wbuf.c:100-128 | one block less waits |
| `EraseBlocks.SuperBlock.CheckNode` | jffs2/readinode.c:106-123 | a node that passed its check moves from unchecked to used |
| `EraseBlocks.SuperBlock.ThreadShouldWake` | jffs2/nodemgmt.c:832-878 | the collector wakes for the reasons given, with dirty_size for the sum of the code |
| `EraseBlocks.SuperBlock.DirtyIsDirty` | jffs2/nodemgmt.c:850-860 | the sum of the code equals dirty_size, so it never underflows |
| `EraseBlocks.SuperBlock.OnePlace` | jffs2/debug.c:153-288 | every block is on exactly one list, once, or is nextblock or gcblock |
| `EraseBlocks.SuperBlock.DirtIsObsolete` | jffs2/debug.c:302-347 | dirty and wasted space of a block is what its obsolete references cover |
| `EraseBlocks.SuperBlock.Balances` | jffs2/debug.c:21-42 | sizes sum up over the blocks and to the flash size, each live block to its sector, used and unchecked to its references, and the counters count their lists |
| `EraseBlocks.SuperBlock.Step` | jffs2/nodemgmt.c:349-878 | every operation, whatever the caller decides and however an erase or its check ends, keeps all invariants |
| `EraseBlocks.SuperBlock.CheckErasedBlock` | jffs2/erase.c:114-128 | every outcome of the check of an erased block keeps all invariants: free, looked at later, erased again or given up |
| `EraseBlocks.SuperBlock.Run` | jffs2/debug.c:21-42 | after every sequence of operations the books balance |
| `EraseBlocks.Life` | jffs2/debug.c:21-42 | from an erased flash on, whatever is done, every byte is in exactly one of the counts |
| `EraseBlocks.WriteOff` | jffs2/nodemgmt.c:613-668 | block and superblock change by the same amounts, and the block keeps its total |
| `EraseBlocks.SumLenWhole` | jffs2/nodelist.c:685-709 | the lengths recovered from the tiling sum up to the written area |
| `EraseBlocks.SumLenMark` | jffs2/nodelist.c:685-709 | marking a node moves exactly its recovered length between the classes |
| `EraseBlocks.LinkRefOk` | jffs2/nodelist.c:578-652 | appending a reference keeps the tiling and the sums by class |
| `EraseBlocks.ObsoletedOk` | jffs2/nodemgmt.c:613-668 | the bytes of a live node are in the sizes of its block, and marking it keeps the block consistent |
| `EraseBlocks.MoveKeeps` | jffs2/debug.c:153-288 | moving a block keeps every block in exactly one place |
| `EraseBlocks.PutKeeps` | jffs2/debug.c:153-288 | so does filing nextblock or gcblock |
| `EraseBlocks.TakeKeeps` | jffs2/debug.c:153-288 | so does taking a block as nextblock or gcblock |
| `WriteBuffer.WriteBehind.constructor` | jffs2/wbuf.c:1190-1200 | an empty buffer at no page, and nothing written |
| `WriteBuffer.WriteBehind.FlushWbuf` | jffs2/wbuf.c:572-688 | the page goes to flash behind all others of its block, padded after the bytes written, and what was written reads as before |
| `WriteBuffer.WriteBehind.ProgramPage` | jffs2/wbuf.c:630-687 | the page is programmed and the buffer is empty at the next one |
| `WriteBuffer.WriteBehind.PadPage` | jffs2/wbuf.c:601-615 | the bytes written stay, the rest is a padding node or zeros |
| `WriteBuffer.WriteBehind.FillWbuf` | jffs2/wbuf.c:773-784 | as much as fits is appended, whole pages are left to the caller when the buffer is empty |
| `WriteBuffer.WriteBehind.FillAndFlush` | jffs2/wbuf.c:855-861 | a full buffer is programmed at once |
| `WriteBuffer.WriteBehind.WriteDirect` | jffs2/wbuf.c:867-878 | pages written past the buffer read as if written through it |
| `WriteBuffer.WriteBehind.WritePages` | jffs2/wbuf.c:867-878 | all the whole pages of what is left |
| `WriteBuffer.WriteBehind.WriteVec` | jffs2/wbuf.c:851-889 | the bytes of a vector are the last written at the write position, which moves behind them |
| `WriteBuffer.WriteBehind.Approach` | jffs2/wbuf.c:801-837 | a buffer left in another block is flushed, and the buffer stands where the write is to start |
| `WriteBuffer.WriteBehind.Move` | jffs2/wbuf.c:824-826 | the empty buffer stands in the page of a fresh position |
| `WriteBuffer.WriteBehind.Align` | jffs2/wbuf.c:839-849 | the buffer skips to the multiple of four the write starts at |
| `WriteBuffer.WriteBehind.FlashWritev` | jffs2/wbuf.c:786-909 | for every list of vectors the bytes last written at `to` are theirs and all others are as before; no page is programmed twice, and within a block in ascending order |
| `WriteBuffer.WriteBehind.FlashRead` | jffs2/wbuf.c:949-1007 | the bytes last written come back if and only if the read starts in the block of the buffer or no byte it wants is still to be programmed; a byte never written reads as flash has it, in that block, if and only if the buffer does not cover it or flash is erased there |
| `WriteBuffer.WriteBehind.CopyBuffered` | jffs2/wbuf.c:986-1002 | buffered bytes replace those read from flash where they overlap |
| `WriteBuffer.WriteBehind.EraseBlock` | jffs2/erase.c:29-103 | an erased block may be programmed anew, other blocks are not touched |
| `WriteBuffer.Do` | jffs2/wbuf.c:572-1007 | each operation does what it says of the bytes last written and of the pages programmed |
| `WriteBuffer.RunBooked` | jffs2/wbuf.c:572-1007 | over every sequence of writes, flushes, erases and reads the byte booked for an address is the last one the operations wrote there since its block was erased |
| `WriteBuffer.ReadsLast` | jffs2/wbuf.c:949-1007 | in every such sequence a read as above gets that byte at every address |
| `WriteBuffer.PagesOnlyAdded` | jffs2/wbuf.c:630-687 | between two erases of a block pages are only added to those programmed in it, in order |
| `WriteBuffer.CrossingReadMisses` | jffs2/wbuf.c:982-984 | a read that starts in the block before that of the buffer and reaches into it gets erased bytes for written ones |
| `WriteBuffer.CoveredBytesHidden` | jffs2/wbuf.c:824-826 | a clean marker on flash reads as erased once a node was written behind it in the same page |
| `WriteBuffer.PagesDirect` | jffs2/wbuf.c:867-878 | one write of whole pages leaves flash and buffer as page by page through the buffer |
| `WriteBuffer.LogGrows` | jffs2/wbuf.c:630-687 | pages programmed behind all others of a block are programmed once, in ascending order |
| `WriteBuffer.SeesLatest` | jffs2/wbuf.c:949-1007 | who sees flash overlaid with the buffer sees the bytes last written |
| `WriteBuffer.RawLatest` | jffs2/wbuf.c:982-984 | flash alone has the bytes last written exactly where nothing is still to be programmed |
| `WriteBuffer.SeesRest` | jffs2/wbuf.c:986-1002 | what the buffer covers without having been given it is erased |
| `WriteBuffer.FlushKeeps` | jffs2/wbuf.c:572-688 | programming the page keeps every written byte readable |
| `WriteBuffer.FillKeeps` | jffs2/wbuf.c:773-784 | bytes in the buffer read as last written |
| `MountPasses.Builder.constructor` | jffs2/scan.c:963-976 | after the scan only the root has a link |
| `MountPasses.Builder.BuildInodePass1` | jffs2/build.c:46-86 | the entries of one directory are counted where the inode they name exists |
| `MountPasses.Builder.Pass1` | jffs2/build.c:117-122 | every count is the number of entries that name the inode, one more for the root |
| `MountPasses.Builder.DropEntry` | jffs2/build.c:254-293 | an entry and its link go together; an inode that lost its last link is queued |
| `MountPasses.Builder.DropEntries` | jffs2/build.c:254-293 | all the entries of a dead inode go, and no count underflows |
| `MountPasses.Builder.RemoveUnlinkedInode` | jffs2/build.c:233-300 | an inode without links is removed, and only then |
| `MountPasses.Builder.Pass2` | jffs2/build.c:133-139 | every inode without links is removed or queued |
| `MountPasses.Builder.Pass2a` | jffs2/build.c:143-152 | the worklist ends, though inodes may be queued again, with nothing left to do |
| `MountPasses.Builder.BuildFilesystem` | jffs2/build.c:93-154 | the removed inodes are the least set closed under being no root and named only from the set, and exactly those have no links left |
| `MountPasses.Mount` | jffs2/build.c:93-154 | for every set of scanned entries: the least such set, within the inodes no way from the root leads to, and every count is the number of entries left that name the inode |
| `MountPasses.LeastUnique` | jffs2/build.c:133-152 | there is only one such set, whatever the order of the scan |
| `MountPasses.CyclesStay` | jffs2/build.c:133-152 | inodes each of which is named from within the set stay, reachable or not |
| `MountPasses.NamedStay` | jffs2/build.c:133-152 | nothing a surviving directory names is removed |
| `MountPasses.RemovedUnreachable` | jffs2/build.c:133-152 | nothing a way from the root leads to is removed |
| `MountPasses.LeftSelfNamed` | jffs2/build.c:133-152 | unreachable inodes that stay are each named by another of them |
| `MountPasses.RemovedIffUnreachable` | jffs2/build.c:133-152 | exactly the unreachable inodes are removed if and only if no non-empty set of them has each member named from within |
| `MountPasses.CycleLeft` | jffs2/build.c:133-152 | two directories that name each other and nothing else names: no way leads to them, and both stay |
| `MountPasses.CycleExists` | jffs2/build.c:133-152 | such a medium, written out |
| `MountPasses.RemovalJustified` | jffs2/build.c:233-300 | an inode whose count is zero is named only by removed inodes |
| `MountPasses.LinksChange` | jffs2/build.c:254-293 | changing one directory changes each count by its share |
| `FatChain.GetOne` | fat/fatchain.c:25-72 | the entry of a cluster, end marks folded; refused exactly for clusters the driver takes for none |
| `FatChain.Fat12Pair` | fat/fatchain.c:41-67 | two neighbouring 12-bit entries share three bytes as the FAT specification lays them out |
| `FatChain.FatchainCache.constructor` | fat/fatchain.h:23-29 | a new cache is right for every well-formed chain from its first cluster |
| `FatChain.FatchainCache.SetNext` | fat/fatchain.c:124-132 | an area starts at the first sector of the cluster |
| `FatChain.FatchainCache.StartArea` | fat/fatchain.c:169-172 | a new area holds the next cluster of the chain |
| `FatChain.FatchainCache.GrowArea` | fat/fatchain.c:179-183 | consecutive clusters extend the area |
| `FatChain.FatchainCache.CloseArea` | fat/fatchain.c:185-200 | a finished area is kept whole, cut at its front or skipped, as the wanted sector asks |
| `FatChain.FatchainCache.EndArea` | fat/fatchain.c:184-217 | the parse stops at the end of the chain or with all eight areas in use, or a new area begins |
| `FatChain.FatchainCache.Collect` | fat/fatchain.c:169-220 | the areas are the runs of the chain, in order, from the wanted sector on; refused only for a cluster the driver takes for none |
| `FatChain.FatchainCache.ParseNext` | fat/fatchain.c:135-221 | terminates on every table, cyclic ones included; on a legal chain the cache holds its sectors from the wanted one on, unless a cluster of it is refused |
| `FatChain.DevRead` | fat/fatdev.c:25-44 | the bytes of the device, and no others of the buffer change |
| `FatChain.ReadChunk` | fat/fatio.c:598-614 | what is read from one area continues the file at the right place |
| `FatChain.ReadAreas` | fat/fatio.c:587-614 | the areas in the cache give the bytes of the file up to their end, or all that are wanted |
| `FatChain.Seek` | fat/fatio.c:562-583 | the cache rewinds, stays or goes on so that it holds the wanted sector, unless the file ends before it or a cluster of the chain is refused |
| `FatChain.GoOn` | fat/fatio.c:569-583 | the next areas of the chain come into the cache |
| `FatChain.ReadOn` | fat/fatio.c:586-624 | one round: the areas are read, and the next ones brought in if there are |
| `FatChain.Read` | fat/fatio.c:555-624 | for every chain of clusters the format has: the clipped bytes of the concatenated clusters, whatever the cache held before, or ENOENT, and that only if the driver takes a cluster of the chain for none; a read up to the end of the file succeeds if and only if it takes none so |
| `FatChain.ReadHistory` | fat/fatio.c:555-624 | for every history of reads through one cache, every answer is the clipped bytes of the concatenated clusters; none is refused if every cluster of the chain is accepted |
| `FatChain.SoundIsExact` | fat/fatio.c:64-66 | every legal chain of every table is accepted if and only if the clusters counted from the data region, and the two reserved numbers, are no more than those counted from the start of the volume |
| `FatChain.RoomMakesSound` | fat/fatio.c:64-66 | two clusters' worth of sectors before the data region are enough |
| `FatChain.LastClusterRefused` | fat/fatchain.c:31-33 | on every other volume a file in its last cluster cannot be read |
| `FatChain.SmallIsUnsound` | fat/fatio.c:64-66 | 512 sectors in clusters of 8 with the data behind 3 sectors: cluster 64 is legal and refused |
| `FatChain.LargeIsSound` | fat/fatio.c:64-66 | a volume just below 4 GiB is read right to its last cluster |
| `FatChain.MarksApart` | fat/fatio.c:48-66 | with sectors of 32 bytes or more, volumes below 4 GiB have no cluster number that is an end mark |
| `FatChain.WholeChain` | fat/fatio.c:586-624 | a read up to the end of the file has followed its whole chain |
| `FatChain.ChainUnique` | fat/fatchain.c:135-221 | a table has at most one chain from a cluster |
| `FatChain.ChainDistinct` | fat/fatchain.c:135-221 | no cluster is in a well-formed chain twice |
| `FatChain.ClusterSectors` | fat/fatchain.c:124-132 | a cluster holds its share of the sectors of the file |
| `FatChain.RunOnDisk` | fat/fatio.c:598-614 | a run of sectors is one stretch of disk and of the file |
| `FatChain.AreaFits` | fat/fatio.c:598-614 | no 32-bit computation on an area of such a volume wraps |
| `Ext2Index.BlockOffs` | ext2/block.c:377-406 | refused exactly past the largest index; otherwise depth and offsets are the path of the index, lowest level first |
| `Ext2Index.IndexOfPath` | ext2/block.c:377-406 | every index comes back from its path |
| `Ext2Index.PathOfIndex` | ext2/block.c:377-406 | every path comes back from its index |
| `Ext2Index.PathInjective` | ext2/block.c:377-406 | different indexes have different paths |
| `Ext2Tree.Ext2Object.constructor` | ext2/obj.c:144-172 | an inode just read has no indirect block in its slots |
| `Ext2Tree.Ext2Object.SetCell` | ext2/block.c:435-445 | a pointer is stored in the inode or in the slot that holds its block |
| `Ext2Tree.Ext2Object.CreateOne` | ext2/block.c:222-274 | some free block is taken, refused exactly when none is left |
| `Ext2Tree.Ext2Object.ReadInd` | ext2/block.c:410-457 | the slot of the level holds the indirect block, read or created; no other pointer of the file changes and no update is lost; fails exactly if it is missing and no block is free, and leaves a buffer without a block exactly if the slot then had none |
| `Ext2Tree.Ext2Object.Allocate` | ext2/block.c:426-429 | a slot without a buffer gets one, of memory as it comes, and no block |
| `Ext2Tree.Ext2Object.Prepare` | ext2/block.c:425-433 | what the slot held is on the device before it is given up; a buffer without a block goes to block 0 |
| `Ext2Tree.Ext2Object.Evict` | ext2/block.c:430-433 | writing a slot back changes no pointer; from a buffer without a block it writes block 0 |
| `Ext2Tree.Ext2Object.Replace` | ext2/block.c:425-452 | the slot gives up a block only after it is written back; where the creation fails, it is left as the code leaves it |
| `Ext2Tree.Ext2Object.CreateInd` | ext2/block.c:435-445 | a new indirect block is empty, its pointer is set and i_blocks counts it; refused exactly if no block is free |
| `Ext2Tree.Ext2Object.Install` | ext2/block.c:439-444 | slot, pointer and count change together |
| `Ext2Tree.Ext2Object.Ind` | ext2/block.c:461-507 | all indirect blocks on the way are in their slots; without allocation nothing is created; with it, refused exactly if fewer blocks are free than are missing on the way |
| `Ext2Tree.Ext2Object.IndStep` | ext2/block.c:461-507 | one level further down, upper levels stay in their slots |
| `Ext2Tree.Ext2Object.Get` | ext2/block.c:510-530 | the place returned holds the pointer of the block; lookups create indirect blocks on the way but change no data pointer; a buffer without a block is left exactly where it could be told before the call |
| `Ext2Tree.Ext2Object.SetPointer` | ext2/block.c:538-547 | storing through that place sets this pointer and no other |
| `Ext2Tree.Ext2Object.TakeFree` | ext2/block.c:322-336 | a free block becomes the block of this index |
| `Ext2Tree.Ext2Object.SyncSlots` | ext2/obj.c:235-257 | after the slots are written back a walk over the device finds every pointer; block 0 is written exactly if a slot has a buffer without a block |
| `Ext2Tree.Apply` | ext2/block.c:538-547 | a lookup gives the current pointer, an update changes it and no other, refused exactly for want of blocks |
| `Ext2Tree.History` | ext2/block.c:409-530 | after every history of lookups and updates, failing ones included, each lookup saw the last update, and once the slots are written back the uncached walk finds the last update of every pointer; only indirect blocks of the file were written, and block 0 if and only if a creation failed for a slot without a buffer |
| `Ext2Tree.WrittenBackHolds` | ext2/obj.c:235-257 | the slots written back, the disk holds every pointer, also those of blocks released whose places were not cleared yet |
| `Ext2Tree.RunStrays` | ext2/block.c:425-437 | over every run block 0 is written, or about to be, exactly if some operation left a buffer without a block |
| `Ext2Tree.StrandsFails` | ext2/block.c:425-437 | only a lookup that fails for want of blocks leaves one |
| `Ext2Tree.FullDeviceStrands` | ext2/block.c:425-437 | on a full device the lookup of the first block behind an indirect one does, and writing it back replaces block 0 |
| `Ext2Tree.FullDeviceStrays` | ext2/obj.c:246-254 | one such lookup and a write-back of the slots are enough for block 0 to be written |
| `Ext2Space.MissingCount` | ext2/block.c:461-530 | the blocks one lookup creates are the indirect blocks missing on its way |
| `Ext2Space.LackingNext` | ext2/block.c:510-530 | a further lookup adds to the cost of a range what it creates then: each indirect block of the range counts once |
| `Ext2Space.OpenedNext` | ext2/block.c:510-530 | after the lookups of a range its indirect blocks are there and exactly those missing before were taken from the free blocks |
| `Ext2Space.OpenedShort` | ext2/block.c:510-530 | a lookup that fails shows that the free blocks at the start did not cover the range |
| `Ext2Space.CoveredNext` | ext2/block.c:510-530 | the same with lookups made ahead and again |
| `Ext2Space.CoveredAll` | ext2/block.c:510-530 | a range looked up in full was affordable, and this is what is left |
| `Ext2Space.AboveNamed` | ext2/block.c:461-505 | above a block that is there, every indirect block is |
| `Ext2Space.MappedCostsNothing` | ext2/block.c:510-530 | looking up mapped blocks costs nothing |
| `Ext2Space.LackingAfter` | ext2/block.c:510-530 | after one range another costs what the first did not create |
| `Ext2Space.ShortThen` | ext2/block.c:510-530 | so whether the second can be looked up is known before the first |
| `Ext2Tree.WalkFinds` | ext2/block.c:409-457 | device and dirty slots together hold the whole tree: no eviction loses an update |
| `Ext2Tree.EvictKeeps` | ext2/block.c:430-433 | writing a slot back keeps the invariants of the tree |
| `Ext2Tree.CreateKeeps` | ext2/block.c:435-445 | so does creating an indirect block |
| `Ext2Tree.StoreKeeps` | ext2/block.c:538-547 | so does storing a pointer |
| `Ext2File.Ext2File.constructor` | ext2/obj.c:144-172 | a file over a consistent tree |
| `Ext2File.Ext2File.Create` | ext2/block.c:278-373 | free blocks in a row become the blocks from an index on; with the indirect blocks in place none is allocated in between; refused without a hint exactly if no block is free |
| `Ext2File.Ext2File.TakeOne` | ext2/block.c:322-336 | the next block of the run is used and named by the file |
| `Ext2File.Ext2File.PutRun` | ext2/block.c:624-628 | blocks go to disk one after the other from where the file has the first |
| `Ext2File.Ext2File.FlushRun` | ext2/block.c:573-577 | a pending run of blocks is written where the file has it, which cannot fail: its lookup has been made |
| `Ext2File.Ext2File.FillStretch` | ext2/block.c:588-602 | missing blocks are created as far as a run goes, and written; fails only if the free blocks do not cover the whole write, or the search began behind a hint |
| `Ext2File.Ext2File.FillHoles` | ext2/block.c:588-602 | all the missing blocks are created and written |
| `Ext2File.Ext2File.Look` | ext2/block.c:560-561 | a lookup leaves what was written, and is counted; it fails only if the free blocks do not cover the whole write |
| `Ext2File.Ext2File.ScanHoles` | ext2/block.c:580-586 | the missing blocks up to the next that is there, with their indirect blocks in place |
| `Ext2File.Ext2File.PassHole` | ext2/block.c:563-604 | pending blocks are written before the hole is filled |
| `Ext2File.Ext2File.Sync` | ext2/block.c:553-644 | for every mix of holes, runs and scattered blocks: the file has the new blocks in the range and the old ones elsewhere; a block of the device was written as data of the range, or as an indirect block that was one or was free, or not at all, and a block that was neither the file's nor free was not. It succeeds over mapped blocks always; otherwise success means that the free blocks covered the missing blocks and indirect blocks, of which exactly these were taken, and failure that they did not or that a hole came after a mapped block |
| `Ext2File.Ext2File.SyncBlocks` | ext2/block.c:553-644 | each block of the buffer is as if written alone, no buffer without a block is left, and the same on success |
| `Ext2File.Ext2File.Find` | ext2/block.c:510-530 | the pointer of a block; fails exactly if the range being read has more indirect blocks missing than blocks are free, or goes beyond the largest file |
| `Ext2File.Ext2File.BlockInit` | ext2/block.c:837-858 | the bytes of a block, zeros for a hole |
| `Ext2File.Ext2File.FindRun` | ext2/file.c:82-113 | a hole alone, or blocks in a row on disk, within the cap; lookups ahead of the run cost nothing twice |
| `Ext2File.Ext2File.CopyRun` | ext2/file.c:115-119 | the blocks of a run are copied in order |
| `Ext2File.Ext2File.CopyFound` | ext2/file.c:88-119 | zeros for a hole, the blocks of a run otherwise |
| `Ext2File.Ext2File.ReadNext` | ext2/file.c:82-120 | a run or a hole continues the bytes read |
| `Ext2File.Ext2File.ReadPart` | ext2/file.c:56-71 | the wanted part of a first or last block |
| `Ext2File.Ext2File.ReadHead` | ext2/file.c:56-71 | the bytes of the first block of a read that does not start with it or is shorter |
| `Ext2File.Ext2File.ReadWhole` | ext2/file.c:81-120 | all the whole blocks of the read |
| `Ext2File.Ext2File.ReadRest` | ext2/file.c:81-140 | the whole blocks and the beginning of the last |
| `Ext2File.Ext2File.FileRead` | ext2/file.c:32-140 | the length clipped at the size, and each byte that of its block, zero in holes; the rest of the buffer is not touched. It fails if and only if more indirect blocks are missing on the ways to the blocks read than blocks are free, or a block is beyond the largest file; exactly the missing ones are created |
| `Ext2File.SyncThenRead` | ext2/block.c:553-644 | what was written is read back, at every offset and length, and all other bytes are as before; a read within what was written never fails, any other exactly if the free blocks before did not cover both |
| `Ext2File.ReadAfterWrite` | ext2/block.c:553-644 | when a read after a write fails, from the state before the write; never within what was written |
| `Ext2File.MappedReads` | ext2/file.c:32-140 | blocks the file has can always be read |
| `Ext2File.MappedWrites` | ext2/block.c:553-644 | and always be written |
| `Ext2File.ReadHole` | ext2/file.c:56-71 | a hole behind a missing indirect block, on a full device: the read fails |
| `Ext2File.HoleTooShort` | ext2/file.c:56-71 | that file is a consistent one and its hole costs more than there is |
| `Ext2File.PaidLook` | ext2/block.c:560-561 | a lookup in a write is possible, or the write as a whole was not |
| `Ext2File.PaidFill` | ext2/block.c:588-602 | the blocks created for holes are what the write costs besides its indirect blocks |
| `Ext2File.PaidOut` | ext2/block.c:588-590 | with no free block left and a hole to fill, the write as a whole was not possible |
| `Ext2File.PaidAll` | ext2/block.c:553-644 | a write that succeeded was possible, and took exactly its holes and missing indirect blocks |
| `Ext2File.WrittenBack` | ext2/block.c:553-644 | a byte of the file is the written one in the range and the old one elsewhere |
| `Ext2File.DoneWritten` | ext2/block.c:553-644 | no block is written both as data and as an indirect block |
| `Ext2File.ForeignKept` | ext2/block.c:553-644 | a block that was neither free nor the file's is not touched, by data writes or by slots written back |
| `Ext2File.DoneWrite` | ext2/block.c:573-577 | writing a run where the file has it is writing each block alone |
| `Ext2File.DoneFill` | ext2/block.c:588-602 | so is writing blocks just taken from the free ones |
| `Ext2File.ReadPiece` | ext2/file.c:56-71 | bytes of one block continue the bytes of the file |
| `Ext2File.ReadRun` | ext2/file.c:82-120 | so do the bytes of a run |
| `Ext2Truncate.Kill` | ext2/file.c:276-313 | the block of an index is released, once; its pointer stays in its place |
| `Ext2Truncate.Destroy` | ext2/block.c:130-217 | the blocks of a run, none of which was free, are free, and no others |
| `Ext2Truncate.LookNext` | ext2/file.c:277-278 | a lookup in the range brings nothing back that was released; it fails exactly if the free blocks and the runs released so far do not cover the indirect blocks missing up to it |
| `Ext2Truncate.TallyLook` | ext2/file.c:277-278 | whether the lookup succeeds is told by the state before the cut |
| `Ext2Truncate.DestroyRun` | ext2/file.c:298-305 | a run is released and its blocks are counted, also towards what later lookups may take |
| `Ext2Truncate.ReleaseFound` | ext2/file.c:280-305 | after a lookup the pending run goes on, or ends and is released |
| `Ext2Truncate.ReleaseData` | ext2/file.c:276-313 | succeeds if and only if every lookup of the range is covered by the free blocks and the runs released before it; then every data block of the range is released exactly once, and no other. Otherwise it stops at the first that is not, with exactly the runs before the last released |
| `Ext2Truncate.IblockFree` | ext2/block.c:708-743 | the block, which was in use, is free, i_blocks counts it no more and no slot names it |
| `Ext2Truncate.RemoveLevel` | ext2/block.c:771-830 | an indirect block in use is released, once, and its own pointer cleared; nothing is lost if it had no pointers left |
| `Ext2Truncate.RemoveNext` | ext2/block.c:771-830 | one level up, what is below being gone |
| `Ext2Truncate.RemoveEmptied` | ext2/block.c:771-830 | exactly the indirect blocks whose first block this is are released, lowest first, and what hung below them is gone |
| `Ext2Truncate.ClearOne` | ext2/block.c:761-831 | walking back, an indirect block goes when its first pointer goes |
| `Ext2Truncate.IblockDestroy` | ext2/block.c:746-834 | all pointers of the range are cleared and all indirect blocks released whose first block is in it |
| `Ext2Truncate.Truncate` | ext2/file.c:263-324 | succeeds if and only if CanCut holds of the state before; then blocks before the new end stay; cut to nothing, for every sparse file of any depth, every block is free again if and only if the file had none beyond its end, and then all 15 pointers are zero, no slot has a block, and i_blocks is down to what it counted besides. Otherwise ENOSPC: the runs before the last one looked up are released, each block of them is free or an indirect block of the file, all pointers are in their places as before, no block is lost and i_blocks counts the released ones still |
| `Ext2Truncate.ReachedCuts` | ext2/file.c:276-313 | with its indirect blocks there, a range can be cut |
| `Ext2Truncate.MappedCuts` | ext2/file.c:276-313 | so can one without holes |
| `Ext2Truncate.SpaceCuts` | ext2/file.c:276-313 | and one with no more indirect blocks missing than blocks are free |
| `Ext2Truncate.RunBlocks` | ext2/file.c:276-313 | on a full device, a file in one run with a hole behind it that needs an indirect block cannot |
| `Ext2Truncate.FullRunStays` | ext2/file.c:263-324 | twelve direct blocks in a row on a full device, and a size of thirteen: ENOSPC, and every pointer as it was |
| `Ext2Truncate.FullRunFacts` | ext2/obj.c:55-75 | that file is a consistent one and cannot be cut to nothing, as a removal does |
| `Ext2Truncate.LoneReused` | ext2/file.c:263-324 | one block at index 10 on a full device, and a size beyond what one indirect block serves, cut there: ENOSPC, and the inode names the block as data and as an indirect block |
| `Ext2Truncate.LoneStops` | ext2/file.c:276-313 | that cut fails beyond the first indirect block, not before |
| `Ext2Truncate.ReleasedShort` | ext2/file.c:276-313 | what a cut that stopped leaves: all places as before, each released block free or an indirect block |
| `Ext2Truncate.HistoryWithCuts` | ext2/file.c:244-324 | for every history of lookups, updates and cuts up to the first cut that fails, each lookup saw the pointer as the history has it, and once the slots are written back so does an uncached walk, of every pointer |
| `Ext2Truncate.Happen` | ext2/file.c:244-324 | each event does to every pointer what it says; a cut that fails does nothing to their places |
| `Ext2Truncate.ClearedPtr` | ext2/block.c:746-834 | which pointers are gone: those of the range, and those below an indirect block with its first block in it |
| `Ext2Truncate.BeyondNamed` | ext2/file.c:276-313 | a block beyond the end keeps the free blocks from being all |
| `Ext2Truncate.BlocksBeyondStay` | ext2/file.c:244-324 | a file with a block beyond its size, as a failed write leaves it, cut to nothing: the pointer is still there |
| `Ext2Truncate.UnfinishedOk` | ext2/file.c:200-225 | that file is a consistent one |
| `Ext2Truncate.FirstOnWay` | ext2/block.c:746-834 | an indirect block is on the way of no block before its first |
| `Ext2Truncate.ChildrenGone` | ext2/block.c:771-830 | an indirect block has no pointer left when its first one goes |
| `Ext2Truncate.RemoveKeeps` | ext2/block.c:708-743 | releasing an indirect block keeps the invariants of the tree, whatever was below it |
| `Ext2Truncate.KillCounts` | ext2/file.c:276-313 | a release takes one pointer and loses no block |
| `Ext2Alloc.FirstZero` | ext2/ext2.h:159-173 | the first zero bit of a word, zero if there is none |
| `Ext2Alloc.FindZeroBit` | ext2/ext2.h:159-173 | the first zero bit from the word of the offset on, below the size; zero exactly if there is none |
| `Ext2Alloc.BlockPlace` | ext2/block.c:49-79 | a block number comes back from its group and offset |
| `Ext2Alloc.PlaceBlock` | ext2/block.c:49-79 | group and offset come back from the block number |
| `Ext2Alloc.Bitmaps.constructor` | ext2/block.c:222-274 | bitmaps and counts that agree |
| `Ext2Alloc.Bitmaps.Commit` | ext2/block.c:248-269 | bitmap, group count and superblock count change together |
| `Ext2Alloc.Bitmaps.CreateOne` | ext2/block.c:222-274 | one free block is taken and no other changes; ENOSPC if and only if every group is full |
| `Ext2Alloc.Bitmaps.Search` | ext2/block.c:288-320 | the group and bit found are free; gives up exactly if the words from the hint on and all other groups are full |
| `Ext2Alloc.Bitmaps.MarkRun` | ext2/block.c:322-336 | the free bits in a row from the one found, as many as wanted or there are |
| `Ext2Alloc.Bitmaps.Create` | ext2/block.c:278-373 | the blocks taken were free, no other changes, the counts follow; ENOSPC if and only if the search gives up |
| `Ext2Alloc.Bitmaps.Destroy` | ext2/block.c:130-217 | across groups every block of the range is free and no other changes; refused exactly for ranges outside the device |
| `Ext2Alloc.GivesUpRightly` | ext2/block.c:288-320 | giving up means no free block if and only if the words before the hint are full as well |
| `Ext2Alloc.GivesUpWrongly` | ext2/block.c:288-320 | a device with a free block before the hint for which it gives up |
| `Ext2Alloc.MarkedTakes` | ext2/block.c:322-336 | setting bits in a row takes exactly those blocks |
| `Ext2Alloc.FreeOne` | ext2/ext2.h:175-190 | toggling the bit of a block in use frees that block only |
| `Ext2Alloc.NoneFree` | ext2/block.c:222-247 | ENOSPC of the single-block allocator means that the set of free blocks is empty, and only that |
| `Ext2Alloc.ShowsChange` | ext2/block.c:130-373 | taking and giving back blocks in the bitmaps is taking and giving back in the set |
| `Ext2Dir.Directory.constructor` | ext2/dir.c:245-247 | a directory without blocks |
| `Ext2Dir.Directory.Find` | ext2/dir.c:85-108 | a record in use with the name, or there is none |
| `Ext2Dir.Directory.Read` | ext2/dir.c:138-225 | the first entry at or after a position, and the position after it; the 16-bit record length leads there if and only if it is no more than 65535 away |
| `Ext2Dir.Directory.Add` | ext2/dir.c:231-316 | one entry more, behind all others, which keep their positions; records keep tiling the blocks |
| `Ext2Dir.Directory.LastRecord` | ext2/dir.c:254-273 | the last record of a block |
| `Ext2Dir.Directory.PrevRecord` | ext2/dir.c:344-347 | the record before another |
| `Ext2Dir.Directory.Remove` | ext2/dir.c:319-395 | one entry less, whether its record is merged, dropped or kept unused; the others keep their positions |
| `Ext2Dir.Scan` | ext2/dir.c:138-395 | for every interleaving of adds, removals and reads that continue where the last ended: positions strictly rise, and when the scan ends every entry live throughout was returned, once |
| `Ext2Dir.ReadByReclen` | ext2/dir.c:207-222 | a client that goes on by the record length gets the same entry again if and only if it is 65535 or more past the position asked for, otherwise what follows |
| `Ext2Dir.FarEntry` | ext2/dir.c:207-222 | such a directory: 64 emptied blocks before its only entry |
| `Ext2Dir.MergedLive` | ext2/dir.c:343-354 | merging a record into the one before takes that entry only |
| `Ext2Dir.MergedTiles` | ext2/dir.c:343-354 | and the block stays tiled |
| `Ext2Dir.ExtendedLive` | ext2/dir.c:254-289 | cutting the last record adds that entry only |
| `Ext2Dir.ExtendedTiles` | ext2/dir.c:254-289 | and the block stays tiled |
| `Ext2Dir.LiveChange` | ext2/dir.c:231-395 | changing one block changes its own entries only |
| `DummyDir.Directory.constructor` | dummyfs/dir.c:268-279 | an empty directory |
| `DummyDir.Directory.Search` | dummyfs/dir.c:60-75 | the chain of the hash leads to the entry of the name if there is one |
| `DummyDir.Directory.Get` | dummyfs/dir.c:60-75 | the entry of the first component of a path, or there is none |
| `DummyDir.Directory.Add` | dummyfs/dir.c:110-194 | refused exactly for long and taken names; otherwise one name more, at the end of the list |
| `DummyDir.Directory.Remove` | dummyfs/dir.c:231-241 | refused exactly for missing names; otherwise one name less |
| `DummyDir.Directory.RemoveEntry` | dummyfs/dir.c:197-228 | the entry leaves chain and list, also as head of its chain or as the hint |
| `DummyDir.Directory.Position` | dummyfs/dir.c:197-228 | the place of an entry in the list |
| `DummyDir.Directory.ReaddirNext` | dummyfs/dummyfs.c:853-894 | the first entry at or after a position wherever the search starts, the position after it, and a record length that leads there if and only if it is no more than 65535 away |
| `DummyDir.Do` | dummyfs/dir.c:60-241 | every operation answers as a plain directory does |
| `DummyDir.Simulate` | dummyfs/dir.c:60-241 | for every history of adds, removals, lookups and reads the answers, and the positions to go on from, are those of a plain map from positions to names |
| `DummyDir.ByReclen` | dummyfs/dummyfs.c:874-888 | a client that goes on by the record length gets the same entry again if and only if it is 65535 or more past the position asked for, otherwise what follows |
| `DummyDir.Twice` | dummyfs/dummyfs.c:874-888 | an entry at position 65535, all before it removed: it comes twice |
| `DummyDir.List` | dummyfs/dummyfs.c:853-894 | for every interleaving of adds, removals and reads that continue where the last ended: positions strictly rise, and when the listing ends every entry there throughout was returned |
| `DummyDir.EntryStays` | dummyfs/dir.c:110-241 | an entry that stays keeps its position and what it names |
| `DummyDir.LinkKeeps` | dummyfs/dir.c:110-194 | a new entry at the end of its chain keeps all chains |
| `DummyDir.UnlinkKeeps` | dummyfs/dir.c:197-228 | so does taking one out, at the head or inside |
| `DummyDir.HintMoves` | dummyfs/dir.c:197-228 | the hint stays right when an entry goes |
| `DummyDir.NextHint` | dummyfs/dummyfs.c:853-894 | after a read the hint is the next entry |
| `DummyDir.FirstIsFirst` | dummyfs/dummyfs.c:853-894 | the scan of the list finds the entry of the least position at or after the one asked for |
| `DummyDir.ComponentWhole` | dummyfs/dir.c:60-75 | a name without a slash is looked up whole |

## Left out

- Device errors, failed allocations and the rollbacks after them, `jffs2_wbuf_recover` and retries of failed writes; failed erases are modelled.
- Rubin.RubinDoCompress: asks for at least 4 bytes of output, because below that the code's unsigned limit (length minus reserve) wraps.
- Rubin.DynRubinCompress: asks for a non-empty input, because the code divides by its length.
- Rtime.Compress: asks for at least 2 bytes of output, because below that the code's unsigned bound wraps.
- The static rubinmips tables as such: every weight table in the coder's range is covered.
- zlib and LZO compression, and the choice among compressors.
- FragTree.Inode.ReadInodeRange: takes each node's data as given, without decompression and checksums, and has no branch for a gap between fragments, which the tiling rules out.
- The pristine and normal marks on nodes that only advise the garbage collector.
- ReadInode.ReadInodeInfo.AddTnToTree: takes nodes of distinct versions only; whether a checksum is good is a property of the node.
- Directory entries, deletion records and the checks of inode metadata in reading an inode.
- EraseBlocks.SuperBlock.LinkNodeRef: unchecked nodes are linked only while no block is being collected, as collection starts when all nodes are checked.
- EraseBlocks.SuperBlock.MarkNodeObsolete: not for a block on the free list, whose only node is the clean marker that the code drops after taking the block; writing the obsolete mark to flash and merging neighbouring references are not modelled.
- EraseBlocks.SuperBlock.DoReserveSpace: one pass without summary nodes; the caller retries after an erase or a flush, and how much space is kept back for deletion is not modelled.
- EraseBlocks.SuperBlock.FindGcBlock: the dice, and the padding of a flush it may need, are parameters.
- EraseBlocks.SuperBlock.AddPhysicalNodeRef: without a nextblock an obsolete node goes to the end of what is written in a block in use, as the write buffer's recovery passes it; the flush of a dirty buffer before a full block is filed is a step of its own. Live nodes, and those without a nextblock, are not empty.
- `jffs2_scan_dirty_space` and the medium scan: the accounting starts from an erased flash or from any state that satisfies the invariants.
- Moving nodes in a garbage-collection pass; its effect on the accounting is that of writing and obsoleting nodes.
- WriteBuffer.WriteBehind.FlashWritev: writes continue where the last one ended, or start in a block not yet written from there on, as the code's own check demands.
- Out-of-band areas, clean markers there, and the timer that flushes the buffer.
- MountPasses.Builder.BuildFilesystem: ends before the pass that frees the scanned entries; hard links to directories are counted like other entries.
- FatChain.FatchainCache.ParseNext: the branch for the fixed root directory of FAT12 and FAT16 is there, but nothing is claimed of its areas.
- FatChain.Read: is for the chains the format allows, on volumes whose byte offsets fit 32 bits; for other tables only `ParseNext` is shown to end, nothing is claimed of a read. After a refused read nothing is claimed of the cache.
- fat names, directories and the volume header.
- Ext2Tree.Ext2Object.CreateOne: takes some free block from a set; which one, and the bitmap, is the matter of `Ext2Alloc`, whose `NoneFree` and `ShowsChange` say that the bitmaps behave as such a set.
- Ext2File.Ext2File.Create: takes a run of free blocks from the same set, as long as the allocator happens to find; with a hint it may give up, and when it does is the matter of `Ext2Alloc.Bitmaps.Create`.
- Ext2Truncate.Destroy: returns blocks to the same set; the bitmaps are in `Ext2Alloc`.
- Ext2File.Ext2File.Sync: whether it fails where a hole comes after a mapped block and the free blocks would do depends on the order of the bitmaps (`GivesUpRightly`); after an error only the invariants of the tree are claimed; blocks written until then stay written. Indirect blocks and data blocks are two maps over the same block numbers, and `DoneWritten` shows that no number is written in both.
- Ext2File.Ext2File.FileRead: without short symbolic links kept in the inode and without the access time; a read may create indirect blocks, as in the code.
- Ext2Truncate.Truncate: takes an end within the largest file; clearing the tail of the last block is not modelled.
- Ext2Truncate.HistoryWithCuts: ends at the first cut that fails.
- Ext2Dir.Directory.Add: takes non-empty names and a non-zero inode, as its callers pass; whether the name is there already is for them to check.
- Ext2Dir.Directory.Read: has no branch for malformed records, which the tiling rules out.
- ext2 inodes, object cache, link counts and path lookup.
- DummyDir.Directory.Add: without memory accounting; the object is a directory.
- DummyDir.Directory.ReaddirNext: the result buffer is large enough; the list is an ordered sequence instead of a ring of pointers.
- dummyfs file contents, devices and mount points.
- Message handlers, mutexes and threads of all four servers.
