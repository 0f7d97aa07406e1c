# Verification of an ext4 implementation in Dafny

This project models the core algorithms of a Rust ext4 file system and proves what they promise. Each
module follows one source file or component. Code that updates state in place is a class or a method on
an array, proved against a specification function; the promises are proved as lemmas about those
functions. Protocols with several threads or several open transactions are state machines over their
atomic steps, and the results about them hold for every run.

`dafny verify dfyconfig.toml` checks everything.

| part | modules |
|---|---|
| space accounting | `Buddy`, `Allocator`, `Bitmap`, `SpaceAccounting`, `Writeback`, `BatchEffect`, `InodeTable`, `OrphanList`, `Format` |
| hashed directories | `ByteRw`, `DirectorySlots`, `DirectoryBlock`, `HTreeSplit`, `HTree`, `HTreeDirectory`, `HTreeExamples` |
| extent trees | `ExtentCodec`, `ExtentShape`, `ExtentTree` |
| paths | `PathComponents`, `PathBuf` |
| protocols | `RwLock`, `TicketLock`, `InodeBitmap` |

## What holds, and where the code falls short

Some promises are false of the code as it stands. For each of them there is a lemma that says exactly when
the code does keep the promise, and a lemma with a concrete input, or a concrete run, for which it does
not.

* A hinted block allocation loses the tail of its last chunk exactly when the chain of free chunks at
  the hint is longer than the request (`Buddy.AllocatedRun`, `Buddy.HintLosesSurplus`), and its event
  leaves its block group exactly when the hinted run passes the end of the group
  (`Allocator.EventCrossesGroupOnlyByHint`, `Allocator.HintCrossesGroup`).
* An allocation fails exactly when nothing is free at that moment. Other threads may be about to put
  blocks back then (`SpaceAccounting.FullWhileHeld`).
* A block is free again only after a bitmap with its bit clear has been written, but the bit need not
  stay clear on the device: another commit may have copied the bitmap block before and write its copy
  afterwards. The bit stays clear exactly when no such copy is waiting
  (`SpaceAccounting.DeviceStaysClearIff`, `SpaceAccounting.OldCopyOverwrites`).
* Compressing a transaction agrees with replaying it, except for `itable_unused` in a group whose deltas
  cancel although one of them allocated an inode that was never in use
  (`Writeback.BatchEqualsReplay`, `Writeback.CancellingDeltasKeepUnused`).
* Pushing onto the orphan list locks the map twice, and other threads may remove orphans before and in
  between. The push is right exactly when no repair of the head is waiting to be committed when it reads
  the head, and that head is not removed before the push is over (`OrphanList.PushIsRightIff`,
  `OrphanList.PushOntoRemovedHead`, `OrphanList.HeadRemovedWhilePushed`).
* Repairs of the orphan list may be committed in another order exactly when the last one recorded for
  each link is also the last one written (`OrphanList.RepairOrderIff`, `OrphanList.RepairsOutOfOrder`).
* Splitting a block of a hashed directory keeps every name exactly when no two entries have the same
  hash, both halves fit with their sizes rounded, and the new block's old content does not make its empty
  slot look like a checksum (`HTree.SplitLosesNothingIff`; `HTreeSplit.CollisionLosesAName` for any two
  names of one hash). With blocks of 2048 and 4096 bytes the halves always fit
  (`HTreeSplit.BothHalvesFit`), with blocks of 1024 bytes they need not
  (`HTreeExamples.SmallBlockLosesAName`). There is a split point exactly when the entries use more than
  half a block (`HTreeSplit.SplitPointIff`), which a full but fragmented block need not do
  (`HTreeExamples.NoSplitPointExists`).
* `insert_at` of an extent node is right exactly at the end of the node, or when the cell behind the end
  holds the last entry already (`ExtentCodec.InsertAtIsRightIff`, `ExtentCodec.InsertInFrontLosesEntry`).
  The root gives back a run exactly when it is shorter than 0x8000 blocks, another node when it is not
  longer than 0x8000 (`ExtentCodec.RootRoundTripIff`, `ExtentCodec.NodeRoundTripIff`,
  `ExtentCodec.LongLeavesComeBackWrong`).
* An upgrade succeeds exactly for the only reader; two readers that upgrade at the same time block each
  other for ever (`RwLock.UpgradeSucceedsIff`, `RwLock.TwoUpgradesDeadlock`, `RwLock.BothUpgrade`).
* A group descriptor's free count is the number of clear bits exactly when the first data block is 0, or
  the group holds a superblock exactly when it is the last group (`Format.FreeCountIsZerosIff`,
  `Format.FirstGroupCountsOneMore`).

Where the code and the comments or names around it disagree, the model follows the code.

## Model

| member | source | states |
|---|---|---|
| Buddy.BlockGroupBuddy.Insert | src/block/allocator.rs:45-50 | adding a free aligned chunk keeps buckets and `backref` in agreement and grows the free set by exactly the chunk |
| Buddy.BlockGroupBuddy.PushChunk | src/block/allocator.rs:52-64 | cutting a run into aligned power-of-two chunks adds exactly the run to the free set and keeps the other chunks; each new chunk is as large as its alignment, the end of the run and the largest order allow |
| Buddy.BlockGroupBuddy.TryAllocateAt | src/block/allocator.rs:66-137 | as one call that no other overlaps: keeps the invariant and hands out what `Allocates` says: the hinted chain when it covers more than half the request, else the least chunk of the best order; None only when nothing is free; the chunks not taken stay, and the rest of a cut one is left in chunks as large as may be |
| Buddy.BlockGroupBuddy.TakeChain | src/block/allocator.rs:83-103 | the hint path takes exactly the chunks of the chain; the branch that would lock `backref` again is dead |
| Buddy.BlockGroupBuddy.TakeBestFit | src/block/allocator.rs:105-137 | the path without a hint takes a least chunk of the smallest order that fits, or else of the largest order, and returns the rest |
| Buddy.AllocatedRun | src/block/allocator.rs:66-137 | every result is a non-empty run of at most the requested size, free before and not after; nothing else but the surplus leaves the free set; None if and only if the free set is empty when the chunks are looked at |
| Buddy.HintLosesSurplus | src/block/allocator.rs:83-99 | a concrete state in which the hint path loses a block |
| Buddy.FitIff | src/block/allocator.rs:105-115 | the order the search starts at is the least one whose chunks hold the request |
| Buddy.WholeRunIsGranted | src/block/allocator.rs:52-118 | an aligned run of 2^k blocks pushed into an empty allocator of that order is one chunk, and a request for 2^k blocks without a hint gets all of it |
| Allocator.AddressingRoundTrip | src/types.rs:92-125 | logical block numbers and pairs of group and index correspond one to one, with block 0 of a volume whose first data block is 1 as the only exception |
| Allocator.Allocator.constructor | src/block/allocator.rs:152-157 | an empty free set; when the block size is a power of two the largest chunk is four times as many blocks |
| Allocator.TrailingOnesAligned | src/block/allocator.rs:152-157 | the trailing ones of a number are the largest power of two that divides the next number |
| Allocator.Allocator.Allocate | src/block/allocator.rs:163-190 | as one call that no other overlaps: returns what the buddy allocator gave and records exactly that run as one event, which leaves its group only when taken at such a hint; an error only when nothing is free; free chunks stay inside their groups |
| Allocator.Allocator.Deallocate | src/block/allocator.rs:192-212 | records events, one per group, that together name exactly the freed run, and does not touch the free set |
| Allocator.Allocator.AddGroup | src/filesystem.rs:87-112 | the first use of a group adds exactly the blocks whose bit is clear, in chunks inside the group that are as large as may be, and keeps the other chunks |
| Allocator.Allocator.ApplyDeallocation | src/block/mod.rs:262-277 | a postlude adds exactly the freed run to the free set, in chunks inside its group that are as large as may be, and keeps the other chunks |
| Allocator.FreesExactly | src/block/allocator.rs:192-212 | the recorded events cover the blocks of the run, each once, and each stays inside its group |
| Allocator.ChunkInGroup | src/block/allocator.rs:45-64 | an aligned chunk never crosses the end of a group |
| Allocator.EventCrossesGroupOnlyByHint | src/block/allocator.rs:74-80 | an allocation event stays inside its group if and only if it was not taken at a hint whose run passes the group's end |
| Allocator.HintCrossesGroup | src/block/allocator.rs:74-80 | a concrete allocation that crosses a group's end |
| SpaceAccounting.StepKeepsInv | src/transaction/collector.rs:63-95 | every step of every open transaction keeps each block with one owner, and the cached bitmaps in agreement with the owners; bitmap blocks are copied and written one at a time |
| SpaceAccounting.OneOwner | src/block/allocator.rs:163-212 | the blocks of the volume are partitioned into free, held to be put back, allocated but not committed, in use, freed but not committed, awaiting a postlude, and dropped by the hint path |
| SpaceAccounting.LifeCycle | src/transaction/collector.rs:79-93 | a block moves along its life only, and a freed block becomes free again only by a postlude of the transaction that freed it |
| SpaceAccounting.CanFinish | src/transaction/collector.rs:63-95 | from any state of the others a transaction can be finished by its own steps, and all blocks that it freed or was putting back are free then |
| SpaceAccounting.AssertsHold | src/transaction/event.rs:324-403 | applying an event always finds the bits in the state that `set_bitmap` and `unset_bitmap` assert |
| SpaceAccounting.RunsAreSafe | src/transaction/event.rs:123-155 | in every interleaving of several transactions no bitmap assertion fires |
| SpaceAccounting.NotHandedOutTwice | src/transaction/collector.rs:79-93 | between two allocations of one block a transaction that freed it wrote a bitmap with its bit clear and then returned it in a postlude; its bit is then clear in memory, and on the device if and only if no older copy was written last |
| SpaceAccounting.DeviceBitIff | src/transaction/collector.rs:79-82 | while a bit is clear in memory, its clear bit on the device becomes set if and only if a copy made before is written and no newer one after it |
| SpaceAccounting.DeviceStaysClearIff | src/transaction/collector.rs:79-82 | it stays clear in every continuation if and only if no copy with the bit set is waiting to be written |
| SpaceAccounting.OldCopyOverwrites | src/transaction/collector.rs:79-82 | a concrete run after which a free block has its bit set on the device |
| SpaceAccounting.FullWhileHeld | src/block/allocator.rs:105-118 | a concrete run after which nothing is free while three of four blocks are about to be put back |
| SpaceAccounting.BuddyAllocationIsStep | src/block/allocator.rs:66-137 | what the buddy allocator does is an allocation step of this system and the putting back of the rest; the step takes the chain or the chunk that fits best and drops exactly the surplus |
| Bitmap.FillBitsFills | src/transaction/event.rs:324-403 | setting or clearing bit by bit changes exactly the bits of the run |
| Bitmap.FillAndUndo | src/transaction/event.rs:324-403 | setting and then clearing a run restores the bitmap if and only if the run was clear before, and the other way round |
| Bitmap.SetBitmap | src/transaction/event.rs:324-363 | the form with head bits, whole bytes and tail bits equals the bit-by-bit form, and its asserts hold on a clear run |
| Bitmap.UnsetBitmap | src/transaction/event.rs:364-403 | the same for clearing a set run |
| Bitmap.LowestBit | src/block/mod.rs:86-114 | `7 - leading_zeros(x & !(x - 1))` is the lowest set bit |
| Bitmap.FindBit | src/block/mod.rs:86-114 | the byte-wise search returns the first position from the start with the wanted value, or None when there is none |
| Bitmap.FindOne | src/block/mod.rs:86-99 | the first set bit from the start |
| Bitmap.FindZero | src/block/mod.rs:101-114 | the first clear bit from the start |
| Bitmap.BuildBuddy | src/block/mod.rs:134-157 | the free set gains exactly the blocks whose bit is clear; a chunk twice as large would be misaligned, too large an order, or hold a block that is not clear |
| OrphanList.WalkIsList | src/transaction/event.rs:489-531 | following the on-disk chain from the last orphan visits exactly the list and ends |
| OrphanList.RemoveFromMemory | src/superblock/mod.rs:214-228 | removing any inode leaves the map the list without it |
| OrphanList.RepairOnDisk | src/transaction/event.rs:489-531 | writing the recorded repair of an inode removes exactly it from the on-disk chain |
| OrphanList.PushInMemory | src/superblock/mod.rs:202-211 | a push with a given head is right if and only if that is the head of the list |
| OrphanList.StepKeepsInv | src/transaction/event.rs:489-531 | every commit, removal, repair and part of a push keeps what the memory map will be after the push a list, to which the pending repairs take the chain on disk, in whatever order transactions commit as far as they write different links |
| OrphanList.RunsKeepLists | src/superblock/mod.rs:202-228 | over every run, with removals between the parts of a push, the memory map is an acyclic list once the push under way is over, and the chain on disk ends and visits exactly it once the pending repairs are written |
| OrphanList.PushIsRightIff | src/transaction/event.rs:489-507 | a push, with any removals before and between its two updates of the map, leaves a list if and only if no repair of the head is pending when it reads the head, and the head is not removed before the inode is entered; the list is then the old one with the inode in front and without what was removed |
| OrphanList.PushStartIff | src/transaction/event.rs:489-507 | what a push writes to the disk will leave the right chain if and only if no repair of the head is pending and no pending repair writes another link behind the pushed inode |
| OrphanList.PushKeepsListsIff | src/transaction/event.rs:489-507 | an allowed push keeps the list in memory and, once the repairs are written, on disk if and only if the head it has read is not removed meanwhile |
| OrphanList.RemoveWhilePushedIff | src/superblock/mod.rs:214-228 | a removal before or between the two updates of a push leaves the map on the way to the list without the removed inode if and only if it does not remove the head that the push has read |
| OrphanList.RemoveStepIff | src/superblock/mod.rs:214-228 | a removal with the repair it records keeps the list, in memory and on disk, if and only if it does not remove the head that a push under way has read |
| OrphanList.PushOntoRemovedHead | src/transaction/event.rs:489-507 | a concrete run from a mount in which a push onto a removed head leaves a map that is no list |
| OrphanList.HeadRemovedWhilePushed | src/transaction/event.rs:493-506 | a concrete run from a mount in which the head is removed between the two updates of a push, with nothing pending before, and the map is then no list |
| OrphanList.RepairStepIff | src/transaction/event.rs:520-531 | writing one of the pending repairs keeps the list if and only if the last one recorded for its link still has the last word |
| OrphanList.RepairOrderIff | src/inode/mod.rs:404-419 | the recorded repairs written in another order give the right chain if and only if the last one for each link of the list is the same |
| OrphanList.TwoRepairsIff | src/inode/mod.rs:404-419 | two repairs written in the other order give the right chain if and only if they write different links |
| OrphanList.RepairsOutOfOrder | src/inode/mod.rs:404-419 | a concrete run from a mount in which two repairs written in the wrong order leave a removed inode on the chain |
| OrphanList.SuperBlock.StartPush | src/transaction/event.rs:493-499 | reading a head begins a push that will put the inode in front of the list if and only if that head is the one in memory |
| OrphanList.SuperBlock.Push | src/transaction/event.rs:489-507 | the two updates of the map with no removal in between: the list grows at its head, and is then in the map if and only if the given head was the head in memory |
| OrphanList.SuperBlock.Remove | src/superblock/mod.rs:214-228 | at any time, with a push under way too: takes exactly the inode out of the list and returns the repair of its predecessor's link, if and only if it is not the head that the push has read |
| Writeback.CompressedIsTotal | src/transaction/event.rs:116-212 | the delta gathered for a group is the sum of what the events say about it |
| Writeback.OrderDoesNotMatter | src/transaction/event.rs:405-425 | flushing the groups in any order of the hash map succeeds or fails alike and gives the same descriptors |
| Writeback.ReplaySums | src/transaction/event.rs:405-571 | writing the events back one at a time adds up to the totals |
| Writeback.BatchEqualsReplay | src/transaction/event.rs:116-571 | compress then flush equals the replay on bitmaps, inode records, superblock and group counters; `itable_unused` differs if and only if the group's deltas cancel and one of them allocated an inode whose index is not below the number in use at the start |
| Writeback.CancellingDeltasKeepUnused | src/transaction/event.rs:427-473 | a concrete volume and two events that both ways succeed on, with six inodes unused after the replay and seven after the batch |
| Writeback.ReplaySucceedsIff | src/transaction/event.rs:116-571 | the replay succeeds if and only if the batch of every prefix of the events does and no count of unused inodes underflows |
| Writeback.WritebackGroup.Record | src/transaction/event.rs:123-212 | one event adds exactly its share to the gathered deltas, operations and postludes; `BatchEffect.CountersAreCounted` and `BatchEffect.GatheredInOrder` say what the shares come to |
| Writeback.WritebackGroup.Compress | src/transaction/event.rs:116-212 | gathers the totals and edits the bitmaps; fails exactly where an edit of a bitmap fails |
| Writeback.WritebackGroup.Flush | src/transaction/event.rs:405-425 | applies group, inode and superblock changes; fails exactly where one of them fails; `BatchEffect` and `InodeTable` say what they come to |
| Writeback.ApplyOnDisk | src/transaction/event.rs:214-222 | succeeds exactly when every part of the batch does, and leaves exactly what the batch leaves, which agrees with the replay where that succeeds |
| BatchEffect.CountersAreCounted | src/transaction/event.rs:123-212 | after a successful batch a group's free blocks, free inodes and directories are those before, changed by what the events free, allocate and make in that group |
| BatchEffect.BlocksFollowBits | src/transaction/event.rs:123-155 | a group's free block count less the clear bits of its block bitmap is the same before and after a successful batch, when the group's block events and no others name that bitmap |
| BatchEffect.InodesFollowBits | src/transaction/event.rs:159-196 | the same for free inodes and the inode bitmap |
| BatchEffect.LastEditDecides | src/transaction/event.rs:324-403 | after a successful batch a bit is set or clear as the last event about it says, and unchanged when there is none |
| BatchEffect.NextEditSucceedsIff | src/transaction/event.rs:324-403 | the bitmap edit of an event succeeds if and only if its bits exist and are all in the other state |
| BatchEffect.UnusedIsLeast | src/transaction/event.rs:443-458 | in a group whose counters change the unused inodes are those behind the last allocated one, unless there were fewer; in another group they stay |
| BatchEffect.SuperblockFollowsGroups | src/transaction/event.rs:547-571 | the superblock's free blocks change by the sum of the groups' changes, its free inodes by one for each event about them |
| BatchEffect.GatheredInOrder | src/transaction/event.rs:116-212 | the gathered inode operations and postludes are those that the events ask for, in their order; inode number and group index correspond |
| BatchEffect.BatchSucceedsIff | src/transaction/event.rs:405-571 | a batch succeeds if and only if the bitmap edits and the inode operations do and all changed counters stay within their literal widths |
| InodeTable.LinksAreCounted | src/transaction/event.rs:475-512 | after any successful list of operations an inode has its links before, or none since its last initialisation, plus the AddLinks and less the RmLinks since then |
| InodeTable.FieldsAreLast | src/transaction/event.rs:512-545 | size and block map are those last set since the last initialisation, and the count of device blocks changes by the recorded sum modulo 2^64 |
| InodeTable.OthersUnchanged | src/transaction/event.rs:475-545 | inodes that no operation writes to keep their records |
| InodeTable.JoinsExactlyAtZero | src/transaction/event.rs:489-531 | an inode becomes the first orphan exactly at the RmLink that takes its counted links to 0; besides that only repairs and initialisations write links of the chain |
| InodeTable.OpSucceedsIff | src/transaction/event.rs:475-545 | an operation fails if and only if its record is missing, or the counted links are 65535 or 0 already |
| Format.FillBlocks | src/format.rs:199-216 | the block bitmap written when formatting |
| Format.VerifyBlocks | src/block_group/mod.rs:181-202 | the block bitmap built at the first use of a group |
| Format.LazyEqualsEager | src/block_group/mod.rs:181-202 | the two are the same bitmap for every group |
| Format.EagerBit | src/format.rs:199-216 | a bit is set if and only if it is the superblock, a descriptor, a bitmap, the inode table, or behind the end |
| Format.PadIsSet | src/format.rs:214-215 | every bit behind the end of the volume is set |
| Format.FreeCountIsZerosIff | src/format.rs:154-166 | a descriptor's free count is the number of clear bits if and only if the first data block is 0, or the group holds a superblock exactly when it is the last group |
| Format.FirstGroupCountsOneMore | src/format.rs:154-166 | a concrete volume of 1024-byte blocks whose first descriptor counts one block too many |
| Format.CountFree | src/format.rs:143-259 | each descriptor counts its own clear bits, and the superblock their sum; when the first data block is 1, one more for each superblock and one less for the last group |
| Format.FreeInodesAreZeros | src/format.rs:174-189 | the free inode counts are the clear bits of the inode bitmaps, and the lazily built ones are the same |
| DirectorySlots.InsertAddsOne | src/directory/block.rs:83-116 | insertion adds exactly one live entry and keeps all others and the length of the block |
| DirectorySlots.HasRoomIff | src/directory/block.rs:96-107 | insertion succeeds if and only if some slot has room for the rounded entry |
| DirectorySlots.DestroyRemovesOne | src/directory/block.rs:221-230 | `destroy` removes exactly one live entry and keeps all others and the length of the block |
| DirectorySlots.StaysWithoutGaps | src/directory/block.rs:83-230 | of a block in which only the first slot may be dead, insertion and removal make such a block again |
| DirectorySlots.FindIff | src/directory/block.rs:154-168 | a search succeeds if and only if a live entry has the name |
| DirectorySlots.LaysUnique | src/directory/block.rs:154-168 | the bytes of a block determine its slots |
| DirectoryBlock.Block.Clear | src/directory/block.rs:76-81 | one dead slot over the whole block, with the name length and file type that were there before |
| DirectoryBlock.Block.SetEntry | src/directory/entry.rs:120-157 | writes inode, type and name and no byte outside the entry |
| DirectoryBlock.Block.Split | src/directory/entry.rs:105-116 | cuts a slot behind its entry, by changing the two lengths only |
| DirectoryBlock.Block.InsertEntry | src/directory/block.rs:83-116 | fills the first slot with room, and says true if and only if there is one; the slots still tile the bytes exactly |
| DirectoryBlock.Block.FindEntry | src/directory/htree/node.rs:356-363 | the first live entry with the name |
| DirectoryBlock.Block.FindCursor | src/directory/htree/node.rs:605-615 | the cursor on the first live entry with the name, with the position before it |
| DirectoryBlock.Block.Destroy | src/directory/block.rs:221-230 | the slot is absorbed by the one before it, or stays as room when it is the first |
| DirectoryBlock.Block.RemoveEntry | src/directory/htree/node.rs:563-618 | removes the named entry and returns its inode number |
| DirectoryBlock.Iterator.Next | src/directory/block.rs:154-168 | yields the next live entry; on a well-formed block never an error |
| DirectoryBlock.IteratorMut.Next | src/directory/block.rs:238-264 | yields every slot with the position before it; on a well-formed block never an error |
| DirectoryBlock.SplitBytes | src/directory/entry.rs:105-116 | changes the two length fields and nothing between them |
| DirectoryBlock.FilledLiveSlot | src/directory/block.rs:102-111 | after a split and the writes the bytes are the shortened entry and the new one |
| DirectoryBlock.DestroyedBytes | src/directory/block.rs:221-230 | the bytes after a removal are the grown previous slot, with its entry untouched |
| HTreeSplit.GatherKeepsAllIff | src/directory/htree/node.rs:421-438 | gathering by hash loses no entry if and only if all hashes are distinct |
| HTreeSplit.CollisionLosesAName | src/directory/htree/node.rs:436-438 | of two names with one hash the earlier one is lost |
| HTreeSplit.SplitPointIff | src/directory/htree/node.rs:449-471 | there is a split point if and only if the entries use more than half a block |
| HTreeSplit.BothHalvesFit | src/directory/htree/node.rs:449-503 | with blocks of 2048 and 4096 bytes both halves fit with their sizes rounded |
| HTreeSplit.SmallBlockOverflows | src/directory/htree/node.rs:449-503 | five lengths of names for which the second half does not fit in a block of 1024 bytes |
| HTreeSplit.RefillKeepsAllIff | src/directory/htree/node.rs:483-502 | refilling a cleared block keeps every entry if and only if their rounded sizes fit and the file type left over in it is not that of a checksum entry |
| HTree.FindIsLookup | src/directory/htree/node.rs:322-366 | searching the block of a name's hash finds exactly what the map from names to entries says |
| HTree.InsertKeepsTree | src/directory/htree/node.rs:529-541 | inserting into the block of the hash keeps the tree and adds exactly the name |
| HTree.RemoveKeepsTree | src/directory/htree/node.rs:563-618 | removing keeps the tree and drops exactly the name |
| HTree.SplitKeepsTree | src/directory/htree/node.rs:411-505 | a split keeps index hashes strictly increasing and every name in the block of its hash |
| HTree.SplitLosesNothingIff | src/directory/htree/node.rs:411-505 | a split keeps every name if and only if the hashes are distinct, both halves fit, and the new block can be filled |
| HTreeDirectory.Directory.constructor | src/directory/htree/node.rs:620-683 | a new directory has one cleared block and no names |
| HTreeDirectory.Directory.FromHash | src/directory/htree/cursor.rs:77-112 | the binary search finds the entry whose interval holds the hash |
| HTreeDirectory.Directory.InsertAt | src/directory/htree/node.rs:386-409 | shifts the entries behind the place and puts the new one in |
| HTreeDirectory.Cursor.Next | src/directory/htree/cursor.rs:175-191 | yields the block of the hash and no other, since `hash + 1` is odd |
| HTreeDirectory.Directory.Find | src/directory/htree/node.rs:322-366 | finds a name if and only if the directory has it, and "." and ".." once they have been entered |
| HTreeDirectory.Directory.Insert | src/directory/htree/node.rs:507-561 | adds exactly the name, or reports a full index or a missing split point, under the stated conditions; with a split exactly when it is safe |
| HTreeDirectory.Directory.SplitData | src/directory/htree/node.rs:411-505 | splits the block in place; the map gains exactly the name if and only if the split is safe |
| HTreeDirectory.Directory.FindSplit | src/directory/htree/node.rs:449-471 | the first entry that takes the sum over half a block, and its own hash |
| HTreeDirectory.Directory.Remove | src/directory/htree/node.rs:563-618 | drops exactly the name and returns its inode number, or None when it is not there |
| HTreeDirectory.SafeIffDistinct | src/directory/htree/node.rs:436-503 | with blocks of 2048 and 4096 bytes a split is safe if and only if the hashes are distinct and the new block can be filled |
| HTreeExamples.SmallBlockLosesAName | src/directory/htree/node.rs:449-503 | a concrete directory of 1024-byte blocks and a name for which the split loses a name although all hashes differ |
| HTreeExamples.NoSplitPointExists | src/directory/htree/node.rs:449-471 | a concrete directory of 1024-byte blocks and a name without room in its block, whose block has no split point |
| ExtentCodec.RootRoundTripIff | src/inode/extent/mod.rs:425-455 | the root gives a leaf back as written if and only if its length is below 0x8000 |
| ExtentCodec.NodeRoundTripIff | src/inode/extent/mod.rs:477-509 | a node gives a leaf back as written if and only if it is initialised and at most 0x8000 long, or uninitialised and between 1 and 0x7fff long |
| ExtentCodec.LongLeavesComeBackWrong | src/inode/extent/mod.rs:425-509 | runs of 0x8000 and 0x8001 blocks that the root and a node give back wrong |
| ExtentCodec.ReadBack | src/inode/extent/mod.rs:425-455 | reading an entry that has been written gives back its key and block, and of a leaf the length as the decoder of its place sees it; inner entries come back as written |
| ExtentCodec.InsertAt | src/inode/extent/mod.rs:136-185 | writes the entry after a shift that leaves the cell behind the end as it was; fails on a full node, with nothing written, or on the wrong level, after the shift |
| ExtentCodec.InsertAtIsRightIff | src/inode/extent/mod.rs:153-161 | the node then shows the old entries with the new one among them if and only if the place is at the end, or the cell behind the end holds the last entry already |
| ExtentCodec.InsertInFrontLosesEntry | src/inode/extent/mod.rs:153-161 | a concrete node whose only entry an insertion before it loses |
| ExtentCodec.ReplaceAt | src/inode/extent/mod.rs:94-134 | writes one entry and no other; fails past the end or on the wrong level |
| ExtentCodec.ReplaceAtIsRight | src/inode/extent/mod.rs:94-134 | the node then shows the new entry at its place and all others as before |
| ExtentShape.FloorDecides | src/inode/extent/cursor.rs:31-49 | in a chained list of runs the last run that starts at or before a block decides its address |
| ExtentShape.AppendedAgrees | src/inode/extent/path.rs:356-408 | growing the last leaf or adding one gives every file block the answer of the plain list with the run appended |
| ExtentShape.AppendedJoins | src/inode/extent/path.rs:367-384 | an append leaves no two neighbouring leaves that continue each other on the device and are at most 0x8000 blocks together, and adds a leaf if and only if the run does not so continue the last one |
| ExtentShape.TwoLevelFloor | src/inode/extent/path.rs:210-242 | the leaf reached through both levels is the one that a flat search would reach |
| ExtentShape.GrowOk | src/inode/extent/path.rs:429-472 | growing by a level keeps the leaves |
| ExtentShape.SplitOk | src/inode/extent/path.rs:492-576 | splitting behind the last leaf adds an empty node with the key of the file's end and keeps the leaves |
| ExtentShape.NodeAppend | src/inode/extent/path.rs:387-399 | a leaf added at the end of the last node keeps the tree |
| ExtentTree.BinarySearch | src/inode/extent/mod.rs:393-408 | the last entry that starts at or before the block; steps below index 0 if and only if the block lies before the first entry |
| ExtentTree.Tree.Load | src/inode/extent/path.rs:210-242 | ends at the last leaf that starts at or before the block |
| ExtentTree.Tree.LoadLast | src/inode/extent/path.rs:317-354 | ends at the last leaf and returns the last file block |
| ExtentTree.Tree.CursorLast | src/inode/extent/mod.rs:213-248 | the path to the end of the tree and the first file block behind it |
| ExtentTree.Tree.Read | src/inode/extent/mod.rs:250-283 | a read through the cache or through the tree gives every file block the answer of the plain list of runs, and leaves the leaf that covers the block in the cache |
| ExtentTree.Tree.InsertLeaf | src/inode/extent/path.rs:356-426 | grows the last leaf, or adds the new one, or changes nothing because the node is full; a run that continues the last leaf and fits in it is always taken and adds no leaf |
| ExtentTree.Tree.GrowExtent | src/inode/extent/path.rs:429-472 | moves the root's entries to a new node below it |
| ExtentTree.Tree.InsertInternal | src/inode/extent/path.rs:474-490 | adds the key of the new node behind the others unless the root is full |
| ExtentTree.Tree.SplitAt | src/inode/extent/path.rs:492-576 | adds an empty node to which the path moves |
| ExtentTree.Tree.DoInsert | src/inode/extent/path.rs:578-623 | inserts, or grows the tree and hands the leaf back; refuses exactly when four nodes stand and the last one is full |
| ExtentTree.Tree.Insert | src/inode/extent/path.rs:625-639 | the leaf finds its place after at most one growth |
| ExtentTree.Tree.Append | src/inode/extent/cursor.rs:123-174 | every file block then has the answer of the plain list with the run at its end; refused exactly when there is no place, and never when the run continues the last leaf within 0x8000 blocks, which adds no leaf; no two leaves stay apart that could be one |
| ExtentTree.RootTakesIff | src/inode/extent/path.rs:367-384 | what an append writes into a flat root comes back as written if and only if the leaf stays below 0x8000 blocks |
| PathComponents.BodyAt | lib/path/src/lib.rs:457-492 | the components of a path cut at a slash are those of the two parts |
| PathComponents.PieceLaw | lib/path/src/lib.rs:457-466 | a piece without slashes names nothing when it is empty or a dot, the parent when it is two dots, and else itself |
| PathComponents.HeadLaw | lib/path/src/lib.rs:444-454 | the root comes first exactly behind a leading slash, the current directory exactly when the first piece is a dot |
| PathComponents.Iterator.ParseNextComponent | lib/path/src/lib.rs:470-477 | one piece from the left, with the component it names |
| PathComponents.Iterator.ParseNextComponentBack | lib/path/src/lib.rs:481-492 | one piece from the right, with the component it names |
| PathComponents.Iterator.Next | lib/path/src/lib.rs:599-631 | the first of the remaining components; None if and only if none remain |
| PathComponents.Iterator.NextBack | lib/path/src/lib.rs:635-666 | the last of the remaining components; None if and only if none remain |
| PathComponents.Iterator.TrimLeft | lib/path/src/lib.rs:495-504 | drops pieces that name nothing and no component |
| PathComponents.Iterator.TrimRight | lib/path/src/lib.rs:507-516 | drops pieces that name nothing and no component |
| PathComponents.Iterator.AsPath | lib/path/src/lib.rs:427-436 | a part of the path whose components are those still to come, without empty pieces or dots at the sides from which the body is walked |
| PathComponents.Interleave | lib/path/src/lib.rs:596-667 | for every order of calls from both ends, the front results, the components still to come and the reversed back results are the components of the path |
| PathBuf.JoinedComponents | lib/path/src/lib.rs:896-913 | pushing a path gives the components of both, or of the pushed one alone when it is absolute |
| PathBuf.JoinedPieces | lib/path/src/lib.rs:896-913 | a join has exactly the pieces between slashes of both paths, so it never doubles a slash |
| PathBuf.PushingComponentsRebuilds | lib/path/src/lib.rs:896-913 | pushing the components of a path one by one onto an empty buffer gives a path with the same components |
| PathBuf.Parent | lib/path/src/lib.rs:1536-1545 | the path without its last component, ending with the one before it; None exactly for the root and for a path without components |
| PathBuf.FileName | lib/path/src/lib.rs:1596-1601 | the last component, if and only if it is a name |
| PathBuf.PathBuf.Push | lib/path/src/lib.rs:896-913 | replaces the buffer by an absolute path or joins with one separator |
| PathBuf.PathBuf.Pop | lib/path/src/lib.rs:935-943 | drops exactly the last component unless there is none or it is the root |
| RwLock.StepKeepsInv | lib/synchronizations/src/rwlock.rs:152-245 | every atomic step keeps the state word equal to the writer bit or the number of readers |
| RwLock.RunsAreSafe | lib/synchronizations/src/rwlock.rs:319-334 | in every interleaving a writer excludes all other holders and no assertion fires |
| RwLock.Exclusion | lib/synchronizations/src/rwlock.rs:400-429 | while one thread writes no other reads or writes |
| RwLock.WriteSucceedsIff | lib/synchronizations/src/rwlock.rs:400-429 | a write attempt gets past its load if and only if nobody holds the lock, and its exchange takes it if and only if nobody holds it then |
| RwLock.ReadSucceedsIff | lib/synchronizations/src/rwlock.rs:267-297 | a read attempt gets past its load if and only if nobody writes, and its exchange takes the lock if and only if the word is still the loaded one |
| RwLock.ReleasesLeave | lib/synchronizations/src/rwlock.rs:524-557 | a dropped guard holds nothing any more and changes nobody else's hold; a downgrade ends in reading |
| RwLock.FreeLockIsTaken | lib/synchronizations/src/rwlock.rs:400-429 | an attempt on a free lock that nothing comes between takes it |
| RwLock.ReadsWritesDowngrades | lib/synchronizations/src/rwlock.rs:187-215 | a concrete run of one thread that reads, lets go, writes and downgrades |
| RwLock.UpgradeSucceedsIff | lib/synchronizations/src/rwlock.rs:152-180 | an upgrade succeeds if and only if the thread is the only reader |
| RwLock.TwoUpgradesDeadlock | lib/synchronizations/src/rwlock.rs:152-180 | two threads that upgrade at once stay so for ever, and nobody ever writes |
| RwLock.BothUpgrade | lib/synchronizations/src/rwlock.rs:152-180 | a concrete run to a state in which two threads upgrade |
| TicketLock.PollSucceedsIff | lib/synchronizations/src/ticket_lock.rs:112-122 | a poll succeeds if and only if the thread is first in the queue, across the wrap-around of the tickets |
| TicketLock.TryLockSucceedsIff | lib/synchronizations/src/ticket_lock.rs:177-204 | `try_lock` succeeds if and only if nobody holds or waits and the owner is still the loaded one |
| TicketLock.FreeLockIsTaken | lib/synchronizations/src/ticket_lock.rs:137-204 | when nothing comes between, `try_lock` and the first poll of `lock` take the lock if and only if it is free, and a failed `try_lock` changes nothing |
| TicketLock.DropPassesOn | lib/synchronizations/src/ticket_lock.rs:256-275 | a drop takes the holder out of the queue, and the next in it takes the lock with its next poll |
| TicketLock.StepKeepsInv | lib/synchronizations/src/ticket_lock.rs:137-204 | every step keeps the two counters in agreement with the queue |
| TicketLock.RunsAreSafe | lib/synchronizations/src/ticket_lock.rs:256-275 | in every interleaving at most one thread holds the lock |
| TicketLock.ServedInOrder | lib/synchronizations/src/ticket_lock.rs:137-166 | a thread keeps its place before all that drew later until it drops the lock, and they do not hold it before |
| InodeBitmap.Pick | src/inode/allocator.rs:78-111 | the bit that is tried is the lowest clear one of the loaded byte |
| InodeBitmap.TakenIff | src/inode/allocator.rs:61-111 | a number is handed out if and only if nobody had it, and its bit goes from 0 to 1 by the caller's own step |
| InodeBitmap.StepKeepsInv | src/inode/allocator.rs:78-111 | a bit is set exactly while its number is held, freed or written |
| InodeBitmap.AssertsHold | src/inode/manager.rs:111-132 | the asserts of both deallocation functions hold |
| InodeBitmap.NotReusedBeforeWritten | src/transaction/collector.rs:82-92 | between two hand-outs of one number lie its free, the write of that, and the postlude, in this order |
| InodeBitmap.RetryMeansTaken | src/inode/allocator.rs:85-107 | a retry happens only because another thread was handed the tried number after the byte was loaded |
| InodeBitmap.FullMeansAllSeen | src/inode/allocator.rs:78-111 | a group is reported full only after every byte was seen full at some moment of the call |
| InodeBitmap.EndsWithNumberOrFull | src/inode/allocator.rs:78-111 | `get_free_ino` ends only with a number that nobody had, or after it has seen every byte full since it was called |
| InodeBitmap.ComesBack | src/inode/manager.rs:111-132 | a number that is freed, written and cleared can be handed out again at once |

## Left out

- Command line, shell, Linux driver, device I/O and error plumbing: no algorithm. The device is a map from block numbers to bytes or to what they hold.
- Crash consistency and journaling: the source does not implement them.
- Legacy block addressing, indirect levels of the hashed directory, symbolic links and the linear directory format: mostly unfinished in the source.
- Directory listing (`fill_dir_from`), `File::truncate`, and truncation of extents: known not to do what their names say, or to loop.
- Half-MD4 and the checksums: the name hash is any function to even 32-bit numbers other than 0xFFFFFFFE, and checksums are left out.
- Memory orderings: every atomic access takes effect at once, in one order for all threads. The two ticket words are one word in `try_lock`, as the source exchanges them.
- Locks inside the block allocator: taking chunks, and putting one chunk back, are one step each, as the source holds its locks over each of them. The methods of `Buddy` and `Allocator` are single calls that no other overlaps; `SpaceAccounting` interleaves the steps of all threads.
- Buddy.AllocatedRun: callers hold only their own inode's lock, so calls do overlap in the source, and one may fail while another is about to put blocks back (`SpaceAccounting.FullWhileHeld`).
- Allocator.Allocator.Allocate: the same.
- The cache of blocks, the weak cache of inodes, and open files.
- Overflow of the 64-bit deltas while compressing, and panics on arithmetic overflow: numbers are unbounded there, and where a field is narrower the model fails or requires that it fits.
- `i_blocks`: the source always records -1 for a deallocation, so nothing is claimed about its conservation.
- SpaceAccounting.StepKeepsInv: runs are taken to stay in one group (see `Allocator.EventCrossesGroupOnlyByHint`) and a transaction to free only committed blocks or its own, each once.
- OrphanList.StepKeepsInv: the steps that `OrphanList.PushStartIff`, `OrphanList.RemoveStepIff` and `OrphanList.RepairStepIff` show to be wrong are left out of the runs, and so is a push of an inode that a pending repair still names. A write-back holds the lock of the superblock throughout, so nothing but a removal comes between the parts of a push; its writes to the inode record, which stays locked, are one step.
- Writeback.BatchEqualsReplay: stated for event lists whose replay succeeds (see `Writeback.ReplaySucceedsIff`); where it stops with a panic in between, `Writeback.ApplyOnDisk` says what the batch does.
- Bitmap.BuildBuddy: the bits past the last block are set, as formatting leaves them (`Format.PadIsSet`).
- DirectoryBlock: entries of version 1, and the error results on corrupted blocks. The iterators keep the error branch, which is proved dead on well-formed blocks.
- HTreeDirectory: its blocks are lists of slots changed by the functions that `DirectoryBlock` is proved against; the bytes of the root block, its checks and the entry arrays beyond the index are not modelled.
- HTreeDirectory.Directory.Remove: the names "." and ".." are left out.
- HTreeDirectory.Directory.Insert: the name is new, as `create_entry` and `rename` see to.
- ExtentTree: its nodes are lists of entries changed as `ExtentCodec` proves for the bytes; node headers are not modelled. `ExtentTree.Tree.SplitAt` copies the entries behind the path as one slice.
- ExtentTree.Tree.Append: the start and length are those that the block allocator returned; the computation of the hint, uninitialised extents and writes in the middle of a file are left out.
- ExtentTree.Tree.DoInsert: where the source would grow a third level and then stop with a panic at the split, the model refuses without growing.
- RwLock: fewer than 2^62 threads. A failed exchange starts over or gives up in one step.
- TicketLock: fewer than 2^32 threads.
- InodeBitmap: one block group; the search over groups and the free counters are left out. An inode is freed by its holder, once.
- InodeBitmap.NotReusedBeforeWritten: the write is said to happen, not that the bit stays clear on the device; for blocks see `SpaceAccounting.DeviceStaysClearIff`.
- Format.CountFree: the descriptors' other fields are left out.
- Format.EagerBit: whether a group holds a superblock is a parameter; the test for it is left out.
- Format.FillBlocks: the bitmap block starts zeroed.
