# QEMU 2.0: memory dispatch, block requests, migration, KVM slots, dumps and the soft TLB

This project models the state machines at the core of QEMU 2.0 and proves what they are for. Where the source changes
fields, lists and arrays step by step, the model is a class or a method with loops; where it only computes, it is a
function. Every operation is proved against a specification that does not mention its own body: a plain map from
addresses to regions, a disk to which writes are applied one by one, a guest memory and the copy of it that a stream
produces, a file that is read back.

`dafny verify dfyconfig.toml` checks everything.

| part | source | files |
|---|---|---|
| Physical memory dispatch: radix tree, compaction, subpages, lookup | `exec.c` | `PhysTree`, `PhysMap`, `Dispatch` |
| RAM block list | `exec.c` | `RamList` |
| Serialising requests and unaligned read-modify-write | `block.c` | `TrackedRequests`, `UnalignedIo` |
| Merging of multiwrite requests | `block.c` | `Multiwrite` |
| RAM migration: dirty bitmap, page scan, XBZRLE, stream | `arch_init.c`, `xbzrle.c`, `page_cache.c`, `util/cutils.c` | `DirtyBitmap`, `Uleb128`, `Xbzrle`, `RamPages`, `RamMigration`, `RamStream` |
| KVM memory slots | `kvm-all.c` | `KvmSlots` |
| Guest dumps: ELF layout, kdump-compressed | `dump.c` | `ElfDump`, `KdumpBitmap`, `KdumpPages`, `Kdump` |
| Software TLB with a merged large-page region | `cputlb.c` | `SoftTlb` |

`Arith`, `Disks`, `Endian`, `Options` and `TargetPage` hold what several parts share.

## Main results

* **Dispatch** (`Dispatch.BuildDispatch`). For any disjoint sections added between begin and commit, with ragged heads
  and tails sharing pages, every 64-bit address resolves to the section that contains it at the same offset in its
  region, and to the unassigned section exactly if none contains it. The tables take one entry for each piece and one
  for each page covered in part (`Dispatch.CostAdds`), so any list that fits the code's limit is admitted. Compaction
  makes the tree answer on pages where it showed nothing; the final range check takes each of these answers back
  (`Dispatch.CompactedLookup`). One `phys_page_set` needs at most 2 * levels - 1 nodes
  (`PhysMap.PhysPageMap.PageSet`). The length that a translation allows stays inside the region exactly if the section
  starts where its region does, or the access was short enough anyway (`Dispatch.AddressSpaceDispatch.Translate`).
  `Dispatch.TranslateIn` is the whole way, from the list of sections to the region and offset of an access.
* **Block requests** (`UnalignedIo.NoLostUpdate`, `UnalignedIo.RunsAreSafe`). In every interleaving of reads, padded
  writes and copies-on-read that the wait protocol allows, the disk is what the callers' plain writes leave one after
  the other, conflicting requests are never both past their wait, a request past its wait never waits again, waiting
  never forms a cycle or a chain, and some request can always run.
* **Multiwrite** (`Multiwrite.MergeExact`). Merging preserves the disk for all contents exactly if no byte is cut off;
  `Multiwrite.ShorterSecondRequest` is an input for which it does not. With fewer buffers than the limit the condition
  is one over sectors alone (`Multiwrite.MergeExactBySectors`). `Multiwrite.Multiwrite` is the whole call, from the
  caller's array over sorting, merging and submission to the last callback.
* **Migration** (`RamMigration.Migrate`, `RamStream.MigrateOverWire`). Over every sequence of guest writes, syncs and
  page sends followed by the last stage, a receiver that loads the bytes has the guest's memory, with one exception:
  if the bulk stage has just sent the very last page of RAM and that page alone becomes dirty again, the scan clears
  its bit without sending it (`RamMigration.LostWrite` is a run that ends so). The theorem is an equivalence whose
  condition `RamMigration.Loses` is a function of the state on entry and of the steps: it plays the bulk stage, which
  is deterministic, until it overlooks the last page, and then asks whether a later step writes that page. It is false
  outside the bulk stage, and if the last block has one page only. Each call of the scan sends the first page in scan
  order that is dirty and not skipped as unchanged (`RamMigration.RamSaver.RamSaveBlock`), and each sync moves exactly
  the blocks' bits (`RamMigration.RamSaver.Sync`). `RamMigration.RamSaver.RamSaveComplete` gives the condition for the
  last stage alone.
* **KVM slots** (`KvmSlots.KvmState.SetPhysMem`). The guest-to-host map changes by exactly the page range, which leads
  to the section's own memory or nowhere, regions never overlap at any registration, and two free slots suffice. The
  page range itself is the section's whole pages exactly if `start` and `size` are equally far past a page boundary, or
  the section holds no whole page (`KvmSlots.PageRangeExact`, `KvmSlots.PageAndAHalf`).
* **Dumps** (`ElfDump.DumpAgrees`, `Kdump.CreateKdump`). The program headers point to where the independent walk
  writes the bytes, for exactly the addresses that are RAM and pass the filter. A reader of the kdump file finds in both
  bitmaps just the RAM pages, and at each page's rank the descriptor whose offset and size select the bytes that the
  page has in its block's memory.
* **Soft TLB** (`SoftTlb.CpuTlb.SetPage`, `SoftTlb.CpuTlb.FlushPage`). A new entry is hit by exactly the accesses to
  its page that are allowed. After flushing an address no entry in any mode translates its page, nor the first page of
  any larger page around it that was set since the last full flush; outside the merged region nothing else is lost.

Where the code and its comments disagree, the model follows the code: `ram_save_block` is described as returning 0 only
when there are no dirty pages, and `kvm_set_phys_mem` as coping with unaligned starts and sub-page sizes. The comment in
`multiwrite_merge` about dropping the last sectors of the first request holds, but what it drops is not always
overwritten by the second one.

## Model

| member | source | states |
|---|---|---|
| PhysTree.DigitOfSlot | exec.c:278-300 | the pages below a slot are those whose index digit at that level selects the slot |
| PhysTree.WalkFrame | exec.c:278-300 | a lookup is not affected by nodes outside the range of the entry it starts from, skipped levels or not |
| PhysTree.WalkLeaf | exec.c:278-300 | a lookup in a well-formed tree ends on a mapped section or on the unassigned one |
| PhysTree.StoreSlot | exec.c:171-204 | storing an entry redirects the lookups of that slot's pages and of no other page of the node |
| PhysMap.BudgetStep | exec.c:171-204 | the slots of one node together stay within the node's allowance of new nodes: only the first and the last can need nodes below them |
| PhysMap.FillingStep | exec.c:191-203 | where the filling of a node has got to, slot by slot, within the allowance |
| PhysMap.PhysPageMap.NodeAlloc | exec.c:156-169 | the new node is blank and fits into the reserved array |
| PhysMap.PhysPageMap.NodeReserve | exec.c:147-154 | room for the extra nodes: the array stays if it has room, and else doubles, to 16 at least |
| PhysMap.PhysPageMap.EnsureNode | exec.c:171-190 | an entry without a node gets one that shows nothing, and no lookup changes |
| PhysMap.PhysPageMap.SetSlot | exec.c:191-203 | one round fills the part of the range below one slot, as a leaf or one level down, and changes no other lookup |
| PhysMap.PhysPageMap.SetLevel | exec.c:171-204 | exactly the part of the range below the entry shows the leaf; index and count advance together; at most the allowance of new nodes is used |
| PhysMap.PhysPageMap.PageSet | exec.c:206-214 | exactly the given pages show the leaf; at most 2 * levels - 1 nodes are allocated, so the reservation suffices and the array does not move |
| PhysMap.CollapsePage | exec.c:219-267 | bypassing a node with one child changes only lookups that found nothing |
| PhysMap.Collapse | exec.c:219-267 | the bypassing entry is well-formed over the node's range |
| PhysMap.PhysPageMap.CompactSlot | exec.c:231-248 | compacting below one slot leaves the node's other slots and all lookups outside it alone |
| PhysMap.PhysPageMap.Compact | exec.c:219-267 | every lookup gives what it gave before, except where it gave nothing; an entry bypasses its node exactly if that has one child, near enough |
| PhysMap.PhysPageMap.CompactAll | exec.c:269-276 | the same for the whole map, root included |
| PhysMap.PhysPageMap.PageFind | exec.c:278-300 | the loop computes the walk, and its level counter does not go below zero |
| Dispatch.CompactedLookup | exec.c:278-300 | with the final range check, lookups before and after compaction are equal |
| Dispatch.MappedDevice | exec.c:928-938 | whole pages: lookups in the section find it, all others are unchanged |
| Dispatch.MappedContainer | exec.c:897-925 | a new subpage changes no lookup |
| Dispatch.FilledSubpage | exec.c:1724-1742 | a piece entered in a subpage is found at its addresses, and no other lookup changes |
| Dispatch.RoomInPage | exec.c:897-925 | a page with room for a piece is unmapped or a subpage, as the code asserts |
| Dispatch.OverlayJoin | exec.c:940-971 | the head, middle and tail of a section add up to the section |
| Dispatch.ViewOfDisjoint | exec.c:940-971 | with disjoint sections the specification map gives each address to the one section covering it |
| Dispatch.AddressSpaceDispatch.constructor | exec.c:1793-1811 | an empty address space with the reserved sections |
| Dispatch.AddressSpaceDispatch.SectionAdd | exec.c:857-874 | the new section's index, which fits in a page offset |
| Dispatch.AddressSpaceDispatch.MapPages | exec.c:857-874 | one more section, shown on exactly the given pages |
| Dispatch.AddressSpaceDispatch.RegisterMultipage | exec.c:928-938 | the address map is overridden by the section |
| Dispatch.AddressSpaceDispatch.EnsureSubpage | exec.c:897-925 | the page's subpage exists, and no lookup has changed |
| Dispatch.AddressSpaceDispatch.SubpageRegister | exec.c:1724-1742 | exactly the offsets from start to end lead to the section |
| Dispatch.AddressSpaceDispatch.RegisterSubpage | exec.c:897-925 | the address map is overridden by the piece, for one table entry, or two if the page had no subpage |
| Dispatch.RestOfHead | exec.c:947-960 | what follows a ragged head has the same whole pages and the same tail |
| Dispatch.AddressSpaceDispatch.RegisterAligned | exec.c:956-970 | one round of the loop: the whole pages, or the tail, override the address map; the table entries they take, exactly |
| Dispatch.AddressSpaceDispatch.MemAdd | exec.c:940-971 | the address map is overridden by the section, whatever its alignment; the table entries it takes, exactly |
| Dispatch.AddressSpaceDispatch.PhysPageFind | exec.c:278-300 | the section found, or the unassigned one if it does not cover the address |
| Dispatch.AddressSpaceDispatch.MemCommit | exec.c:1813-1827 | compaction changes no lookup of any 64-bit address |
| Dispatch.AddressSpaceDispatch.Translate | exec.c:308-341 | region and offset as the address map says, the unassigned section elsewhere; the length is cut to what is left of the region's size past the section's start, and so stays in the region if and only if the section starts with the region or the length fits anyway |
| Dispatch.RaggedOccupied | exec.c:897-925 | a page covered in part is occupied by earlier sections exactly if one of them covers it in part |
| Dispatch.CostAdds | exec.c:857-874 | what the sections take adds up to one entry for each piece and one for each page covered in part |
| Dispatch.BuildDispatch | exec.c:1793-1827 | for every disjoint list of sections that the table has room for, every address resolves to the section containing it, and to the unassigned one exactly if there is none |
| Dispatch.TranslateIn | exec.c:308-341 | for every disjoint list of sections, an access goes to the region of the section that the address is in, at the right offset, and to the unassigned region if there is none |
| RamList.FitsInGap | exec.c:1143-1176 | a block no longer than the gap it starts overlaps nothing |
| RamList.InsertedOk | exec.c:1299-1314 | inserting before the first smaller block keeps the list disjoint and sorted by length |
| RamList.FindIs | exec.c:742-763 | the linear search finds the one block that holds the address |
| RamList.RamBlockList.NextOffset | exec.c:1150-1161 | the start of the nearest block at or after an address, or the end of the address space |
| RamList.RamBlockList.FindRamOffset | exec.c:1143-1176 | the start of the smallest following gap that fits, the first of these in the list; fails exactly if none fits |
| RamList.RamBlockList.Insert | exec.c:1299-1314 | the list with the block inserted; sorted, disjoint, aligned; the cached block is forgotten |
| RamList.RamBlockList.Alloc | exec.c:1250-1337 | the block is at the best fit, or the allocation fails and nothing changes |
| RamList.RamBlockList.Free | exec.c:1362-1391 | exactly the block at that offset goes, and the cached block with it |
| RamList.RamBlockList.GetRamBlock | exec.c:742-763 | the most-recently-used shortcut gives the same answer as the search |
| TrackedRequests.MarkedWindow | block.c:2296-2309 | however often a request is marked, its window is the request widened to the coarsest alignment |
| TrackedRequests.ConflictIs | block.c:2345-2357 | requests conflict exactly if one is serialising and their windows share a byte |
| TrackedRequests.BlockerIs | block.c:2359-2401 | the scan finds a conflicting request that does not wait itself, exactly if there is one |
| TrackedRequests.BlockerShares | block.c:2359-2401 | a request waits only for one that has a byte of its window; if it passes, no request past its wait has one, unless neither is serialising |
| TrackedRequests.NeverWaitsAgain | block.c:3192-3195 | a request past its wait finds no blocker when it scans again |
| TrackedRequests.NoneSerialising | block.c:2366-2368 | the early return when no serialising request is in flight is right |
| TrackedRequests.StartedOk | block.c:2275-2309 | beginning and marking a request keep everything but the request's own standing in order |
| TrackedRequests.WokenOk | block.c:2383-2396 | so does waking one |
| TrackedRequests.WaitedOk | block.c:2359-2401 | going through the wait restores the invariant: right count, conflicting requests not both past, nobody waits for a waiter |
| TrackedRequests.EndedOk | block.c:2262-2270 | ending a request keeps the invariant |
| TrackedRequests.RemarkedSame | block.c:3301-3303 | marking once more with the same alignment changes nothing |
| TrackedRequests.WaitPathShort | block.c:2383-2396 | waiting never forms a cycle, nor a chain of two |
| TrackedRequests.SomeRequestCanRun | block.c:2359-2401 | while a request is tracked, some request can run |
| TrackedRequests.BlockDriverState.constructor | block.c:335-353 | without requests the invariant holds |
| TrackedRequests.BlockDriverState.TrackedRequestBegin | block.c:2275-2294 | the queue with the new request at its head |
| TrackedRequests.BlockDriverState.MarkRequestSerialising | block.c:2296-2309 | the queue with the request's window widened and the count right |
| TrackedRequests.BlockDriverState.FindBlocker | block.c:2371-2398 | the first blocker of the specification |
| TrackedRequests.BlockDriverState.WaitSerialisingRequests | block.c:2359-2401 | the queue after the wait; the invariant is restored |
| TrackedRequests.BlockDriverState.TrackedRequestEnd | block.c:2262-2270 | the queue without the request; the invariant is kept |
| UnalignedIo.PaddedWriteExact | block.c:3262-3334 | a write padded with current blocks changes exactly the caller's bytes |
| UnalignedIo.RangeInWindow | block.c:2296-2309 | what a request reads or writes on the driver lies in its window |
| UnalignedIo.BuffersStay | block.c:3262-3303 | a write elsewhere leaves the padding current |
| UnalignedIo.QueueStays | block.c:3301-3303 | the second marking and wait before the tail is read change nothing |
| UnalignedIo.RangesApart | block.c:2345-2401 | two requests past their wait, one of them serialising, work on disjoint ranges |
| UnalignedIo.SubmitOk | block.c:3229-3261 | a new request keeps the device's invariant |
| UnalignedIo.ResumeOk | block.c:2383-2396 | so does a woken one |
| UnalignedIo.FetchOk | block.c:3262-3315 | so does reading a block for padding |
| UnalignedIo.StoreOk | block.c:3178-3224 | so does the store, for the buffers of every other request |
| UnalignedIo.FinishOk | block.c:3335-3346 | so does the end of a request, early or not |
| UnalignedIo.StepOk | block.c:3229-3346 | every step keeps the invariant |
| UnalignedIo.RunRecords | block.c:3229-3346 | the n-th submission is request n, and the log lists the callers' writes as the steps store them |
| UnalignedIo.NoLostUpdate | block.c:3229-3346 | over every run the disk is what the plain writes of the callers leave, in the order in which the steps store them |
| UnalignedIo.DeliveredExact | block.c:2936-2958 | a read delivers exactly the requested bytes, and so does a copy-on-read, whether it copies or finds everything allocated |
| UnalignedIo.WindowIs | block.c:2296-2309 | exactly copies-on-read and unaligned writes are serialising, and a window is exactly what the request touches on the driver |
| UnalignedIo.RunsAreSafe | block.c:2345-2401 | at every point of every run: right count, no byte shared with a serialising request once both are past their wait, no second wait, no deadlock, and waiting forms neither a cycle nor a chain of two |
| Multiwrite.MergePreserves | block.c:4303-4357 | a byte that is not cut off ends up as if the requests had been carried out one by one |
| Multiwrite.LostDiffers | block.c:4327-4344 | if a byte is cut off there is data for which merging changes the disk |
| Multiwrite.MergeExact | block.c:4303-4357 | merging preserves the disk for all contents if and only if no byte is cut off |
| Multiwrite.MergesTouching | block.c:4314-4325 | with few buffers, requests are merged exactly if they touch |
| Multiwrite.MergeExactBySectors | block.c:4303-4357 | with few buffers: the disk is preserved if and only if no request ends before a sector that the one before it writes and no later one does |
| Multiwrite.EndsInOrder | block.c:4303-4357 | nothing is cut off if the sorted requests also end in order |
| Multiwrite.SecondEndsFirst | block.c:4327-4344 | for every two requests that merge, the second of which ends first: what the first one alone writes is not written |
| Multiwrite.ShorterSecondRequest | block.c:4327-4344 | three sectors at 0 and one at 1: sector 2 is not written |
| Multiwrite.SortBySector | block.c:4282-4297 | a sorted permutation |
| Multiwrite.MergeRound | block.c:4314-4354 | one round leaves the merge of one request more at the front of the array |
| Multiwrite.MultiwriteMerge | block.c:4303-4357 | the front of the array is the merge of the sorted requests |
| Multiwrite.FirstErrorLast | block.c:4265-4280 | a later error does not replace an earlier one |
| Multiwrite.FirstErrorIs | block.c:4265-4280 | the first negative result, and zero exactly if there is none |
| Multiwrite.MultiwriteCb.constructor | block.c:4391-4412 | nothing is called back at first |
| Multiwrite.AioMultiwrite | block.c:4373-4412 | the merged requests at the front of the array and a completion record for exactly as many, or nothing if there are no requests |
| Multiwrite.Multiwrite | block.c:4252-4412 | the whole call: the disk is what the originals leave at every byte that is not cut off, and for all disks and data if and only if none is; the i-th callback is the i-th original's, called once, after the last completion, with the first negative result or 0 |
| Multiwrite.MultiwriteCb.Complete | block.c:4252-4280 | every original callback fires exactly once, with the first error, when the last merged request completes and not before |
| Multiwrite.CompleteAll | block.c:4252-4280 | nothing is called back before the last completion; then every callback once, in order, with the first negative result or 0 |
| Uleb128.UlebRoundTrip | util/cutils.c:483-510 | a length is decoded to itself, from the right number of bytes |
| Uleb128.UlebFormat | util/cutils.c:483-497 | seven bits a byte, the lowest first, and the top bit on the first of two |
| Xbzrle.EncodedEmpty | xbzrle.c:26-124 | the encoding is empty exactly if the page has not changed |
| Xbzrle.RoundTrip | xbzrle.c:26-173 | decoding the encoding over the older copy gives the page |
| Xbzrle.ZeroByteTestExact | xbzrle.c:97-104 | the word test holds exactly if some byte is zero |
| Xbzrle.ScanEqual | xbzrle.c:43-64 | the word-wise scan ends where the run of equal bytes ends |
| Xbzrle.ScanDifferent | xbzrle.c:86-111 | the word-wise scan ends where the run of different bytes ends |
| Xbzrle.PutPiece | xbzrle.c:76-120 | the two lengths and the different bytes are put out, or the encoder gives up exactly if they do not all fit |
| Xbzrle.EncodeBuffer | xbzrle.c:26-124 | the encoding by maximal runs; failure exactly if it does not fit, or less than two bytes are left for a run of equal bytes at the end |
| Xbzrle.DecodeBuffer | xbzrle.c:126-173 | the decoding, or failure exactly on malformed input |
| DirtyBitmap.CountOr | arch_init.c:446-453 | the population count of the new bits is what the union adds |
| DirtyBitmap.MigrationBitmap.constructor | arch_init.c:731-733 | every page set, and the count is right |
| DirtyBitmap.MigrationBitmap.SetDirty | arch_init.c:421-432 | the bit is set and the count stays the number of set bits |
| DirtyBitmap.MigrationBitmap.SyncWord | arch_init.c:446-455 | a word moves from the log to the bitmap, and the count is right |
| DirtyBitmap.MigrationBitmap.SyncRange | arch_init.c:434-467 | by words or by pages, the block's bits move from the log to the bitmap and none is lost |
| RamPages.DeltaReceived | arch_init.c:909-948 | a difference to the destination's copy turns that copy into the page |
| RamPages.SentAs | arch_init.c:330-395 | in which of the four ways a page is sent, and when the cache takes it over |
| RamPages.SentExact | arch_init.c:330-395 | sent as zeroes, whole, as a difference or not at all: the destination ends up with the page |
| RamPages.SentCacheOk | arch_init.c:313-395 | sending keeps cached pages equal to the destination's, in the last stage for the pages still to be sent |
| RamMigration.ScanMoves | arch_init.c:557-564 | leaving a block without a find extends the clean part |
| RamMigration.ScanEnds | arch_init.c:551-556 | when the scan has come around, nothing is dirty, or the page it started at in the bulk stage is the only one |
| RamMigration.BulkInOrder | arch_init.c:397-419 | the bulk stage goes page after page, except for a first page that is dirty again: what the scan finds is what the next page is defined to be |
| RamMigration.BulkIsOver | arch_init.c:557-564 | a scan that leaves the bulk stage had no next page |
| RamMigration.FirstIs | arch_init.c:546-635 | the page that a scan finds is the first in scan order that is dirty and not unchanged |
| RamMigration.CleanSame | arch_init.c:864-892 | when neither log nor bitmap has a page of a block, both sides agree on all of them |
| RamMigration.AfterMore | arch_init.c:472-494 | after one block more, log and bitmap are what the blocks synced so far make of them |
| RamMigration.OnlyLastSynced | arch_init.c:472-494 | whether the last page is all that is left can be told before the sync |
| RamMigration.RamSaver.constructor | arch_init.c:724-775 | a migration in which everything is to be sent |
| RamMigration.RamSaver.FindAndReset | arch_init.c:397-419 | the next dirty page, cleared and counted; in the bulk stage the page after the cursor, unseen |
| RamMigration.RamSaver.SaveXbzrlePage | arch_init.c:330-395 | the cache and the content that the specification of sending gives |
| RamMigration.RamSaver.SavePage | arch_init.c:565-635 | the destination has the page, the cache agrees with it, the stream replays to it |
| RamMigration.RamSaver.FoundPlace | arch_init.c:546-565 | a page found in the bulk stage is the next one; outside of it, nothing before it in scan order is to be sent |
| RamMigration.RamSaver.SaveFound | arch_init.c:565-635 | the page is sent and the scan over, or it is the same on both sides and the scan goes on |
| RamMigration.RamSaver.MoveOn | arch_init.c:557-564 | on to the next block, or back to the first one, which ends the bulk stage |
| RamMigration.RamSaver.ScanOver | arch_init.c:551-556 | a scan that has come around leaves nothing dirty; it clears a bit exactly in the overlooking state |
| RamMigration.RamSaver.ScanBlocks | arch_init.c:538-636 | the scan terminates; outside the overlooking state a bit is cleared only if the destination has the page, and the destination changes only in dirty pages |
| RamMigration.RamSaver.RamSaveBlock | arch_init.c:538-641 | the first page in scan order that is dirty and not unchanged is sent, or there is none left in any block; all invariants are kept; the overlooking state, and no other, loses the last page |
| RamMigration.RamSaver.GuestWrite | exec.c:1534-1560 | a guest write, logged, keeps the invariants |
| RamMigration.WrittenIs | exec.c:1534-1560 | a page of the guest's memory is what the last write to it has left |
| RamMigration.RamSaver.Sync | arch_init.c:472-494 | log and bitmap afterwards, exactly: what the blocks' words held has moved, and nothing else |
| RamMigration.RamSaver.RamSaveComplete | arch_init.c:864-892 | afterwards both sides are equal if and only if it is not the case that the last page is lost, or about to be overlooked, and the two sides differ in it |
| RamMigration.SavesOne | arch_init.c:538-641 | a page just sent is not overlooked by the next call, and a page neither sent nor to be sent does not change |
| RamMigration.LosesStep | arch_init.c:538-641 | in the bulk stage, what a run loses is what the rest of it loses from the state after its first step |
| RamMigration.OnePageSafe | arch_init.c:551-556 | no run loses anything if the last block has one page only |
| RamMigration.DoStep | arch_init.c:538-641 | one step does not change what the rest of the run leads to |
| RamMigration.DoSteps | arch_init.c:538-862 | the steps before the last stage: the guest's memory, and what is doomed at the end, as the entry state and the steps say |
| RamMigration.Migrate | arch_init.c:538-892 | every run: the stream replays to the guest's memory if and only if the entry state and the steps do not lose the last page; never lost outside the bulk stage or with a last block of one page |
| RamMigration.BothSent | arch_init.c:538-641 | two zero pages, sent in the bulk stage |
| RamMigration.LostWrite | arch_init.c:397-419 | a run after which the destination lacks the guest's last write |
| RamStream.FlagsOf | arch_init.c:296-311 | offset, continuation and kind are told apart again |
| RamStream.CStringIs | arch_init.c:968-975 | a name ends at its first zero byte |
| Endian.BeByte | qemu-file.c:797-809 | the most significant byte comes first |
| Endian.LeByte | dump.c:61-70 | the least significant byte comes first |
| RamStream.HostBack | arch_init.c:950-978 | the receiver takes a record for the sender's block, by name or by continuation |
| RamStream.ContentBack | arch_init.c:1052-1082 | and its content for what was sent |
| RamStream.RecordBack | arch_init.c:1004-1090 | a record is loaded to the block and offset it was saved from |
| RamStream.SectionBack | arch_init.c:1004-1090 | for every sequence of records, a section loads as the records replay |
| RamStream.BlocksBack | arch_init.c:1012-1049 | the receiver's remaining length reaches zero at the last block and not before |
| RamStream.SetupBack | arch_init.c:777-783 | the setup section loads and changes nothing |
| RamStream.StreamBack | arch_init.c:1004-1090 | a whole stream, cut into sections anywhere, takes the destination to what its records say |
| RamStream.MigrateOverWire | arch_init.c:538-1090 | from the guest's writes over the bytes to the receiver's memory, for every run and every cut into sections |
| RamStream.RamReceiver.Get | arch_init.c:1004-1008 | the big-endian number at the position |
| RamStream.RamReceiver.FindBlock | arch_init.c:972-975 | the first block of that name |
| RamStream.RamReceiver.HostFromStreamOffset | arch_init.c:950-978 | the block of a header, kept for continuations |
| RamStream.RamReceiver.LoadBlocks | arch_init.c:1012-1049 | accepts the list exactly if names and lengths agree |
| RamStream.RamReceiver.TakeContent | arch_init.c:1052-1082 | the page with the content, or failure |
| RamStream.RamReceiver.RamLoad | arch_init.c:991-1090 | loads a section as the specification does, for every input |
| RamStream.RamReceiver.LoadSections | arch_init.c:991-1090 | loads sections one after the other, with the block kept in between |
| RamStream.Receive | arch_init.c:991-1090 | a receiver that loads the bytes of a stream, cut into sections anywhere, has what the records say |
| KvmSlots.HostIs | kvm-all.c:163-185 | the map leads an address to the one slot that covers it |
| KvmSlots.StoreHost | kvm-all.c:204-224 | a region in a free slot adds what it covers to the map |
| KvmSlots.FreeHost | kvm-all.c:204-224 | freeing a slot takes what it covered out of the map |
| KvmSlots.OnlyOneInside | kvm-all.c:667-750 | a slot that sticks out on both sides is the only one in the way |
| KvmSlots.PageRangeExact | kvm-all.c:627-639 | the range is the section's whole pages if and only if start and size are equally far past a page boundary, or there is no whole page |
| KvmSlots.PageAndAHalf | kvm-all.c:627-639 | an aligned section of a page and a half: its whole page is not mapped |
| KvmSlots.KvmState.constructor | kvm-all.c:1401-1412 | all slots are free and nothing is mapped |
| KvmSlots.KvmState.SetUserMemoryRegion | kvm-all.c:204-224 | the kernel's regions never overlap |
| KvmSlots.KvmState.AllocSlot | kvm-all.c:128-140 | a free slot, exactly if there is one |
| KvmSlots.KvmState.LookupOverlappingSlot | kvm-all.c:163-185 | the overlapping slot with the lowest start, or none overlaps |
| KvmSlots.KvmState.Register | kvm-all.c:759-771 | one region more, without overlap |
| KvmSlots.KvmState.MakeRoom | kvm-all.c:667-750 | one overlap less; the map outside the range is kept; a free slot is spent only when no overlap is left |
| KvmSlots.KvmState.SetRange | kvm-all.c:652-771 | the map changes exactly by the range; two free slots suffice; a slot that already leads the range there is left alone |
| KvmSlots.KvmState.SetPhysMem | kvm-all.c:613-771 | every address of the page range leads to the section's host memory at its distance from the section's start once the section is added, and nowhere once it is removed; a ROM device that traps reads is unmapped, other devices change nothing; no other address changes |
| ElfDump.ImageAt | dump.c:418-440 | a block's bytes stand where those of the blocks before it end |
| ElfDump.DumpedIsAsked | dump.c:472-488 | what is dumped of a block is exactly what lies in it and in the filter |
| ElfDump.ImageFrom | dump.c:669-694 | every byte that is dumped is asked for |
| ElfDump.DumpState.WriteMemory | dump.c:418-440 | the bytes are appended, whole pages and rest |
| ElfDump.DumpState.GetStartBlock | dump.c:1507-1533 | the first block in range, or failure exactly if there is none |
| ElfDump.DumpState.GetNextBlock | dump.c:639-666 | the next block in range and where to start in it |
| ElfDump.DumpState.DumpIterate | dump.c:669-694 | the dumped bytes of every block, in order |
| ElfDump.DumpState.DumpedRange | dump.c:472-485 | start and size of what is dumped of a block |
| ElfDump.DumpState.GetOffsetRange | dump.c:444-503 | -1 exactly if the address is not dumped; else its offset, and the size clamped to what is dumped of the block |
| ElfDump.RangeInImage | dump.c:444-503 | offset and size select the mapping's bytes in the file |
| ElfDump.DumpAgrees | dump.c:444-694 | an address gets an offset exactly if it is in a block and in the filter, and then offset and size select its bytes, up to the end of the block or the filter; the file holds the header and nothing that is not asked for |
| KdumpBitmap.WithBitIs | dump.c:1061-1068 | one bit changes |
| KdumpBitmap.BitValue | dump.c:1061-1068 | bit k of a byte is worth 2^k |
| KdumpBitmap.BufWith | dump.c:1061-1068 | the buffer holds the set with one page more or less |
| KdumpBitmap.FileWith | dump.c:1041-1059 | writing the buffer out completes one chunk of the bitmap |
| KdumpPages.Increasing | dump.c:1078-1125 | the walk visits frames in increasing order |
| KdumpPages.FramesAreRam | dump.c:1078-1125 | a frame is visited exactly if a block contains it |
| KdumpPages.FrameHost | dump.c:1078-1125 | every page of every block is visited, at its own memory |
| KdumpPages.CountFrames | dump.c:1127-1177 | as many frames as the blocks have pages |
| KdumpPages.GetNextPage | dump.c:1078-1125 | the next frame, in a block that contains it, and its memory at the block's host address plus its distance from the block's start; the end exactly after the last one |
| KdumpPages.DataCache.constructor | dump.c:1179-1187 | an empty cache at its place in the file |
| KdumpPages.DataCache.WriteOut | dump.c:1206-1213 | the buffered bytes are in the file after those before them |
| KdumpPages.DataCache.Write | dump.c:1189-1219 | file and buffer together hold all bytes given; the buffer is written out exactly if there is no room, or to sync |
| Kdump.DescFields | dump.c:1399-1405 | offset, size, flags and page flags are read from their bytes as they were written, in either byte order |
| Kdump.DataAt | dump.c:1274-1434 | a frame's descriptor selects the frame's bytes, the shared page for zero pages |
| Kdump.DescMeans | dump.c:1333-1405 | a page of zeroes shares the first one; any other is compressed if that is smaller, and flagged just then |
| Kdump.RankIs | dump.c:1127-1177 | the i-th set bit is the i-th frame's |
| Kdump.PageBack | dump.c:1274-1434 | from a page's bit over the 24 bytes at its rank to its bytes, compressed or not |
| Kdump.KdumpState.constructor | dump.c:1535-1541 | the length of the bitmaps and the offset of the descriptors |
| Kdump.KdumpState.Flush | dump.c:1041-1059 | the buffer reaches both bitmaps and nothing else changes |
| Kdump.KdumpState.SetDumpBitmap | dump.c:1022-1071 | bits set so far are in the chunks before the current one, or in the buffer |
| Kdump.KdumpState.StartBitmap | dump.c:1133-1137 | the buffer and the bitmaps hold no frame |
| Kdump.KdumpState.MarkFrame | dump.c:1143-1153 | one frame more, in the buffer or in both bitmaps |
| Kdump.KdumpState.EndBitmap | dump.c:1155-1168 | clearing a bit behind the last buffer writes that buffer out and changes no frame |
| Kdump.KdumpState.WriteDumpBitmap | dump.c:1127-1177 | both bitmaps, to their last byte, hold exactly the visited frames |
| Kdump.KdumpState.StartPages | dump.c:1290-1327 | the shared zero page comes first |
| Kdump.KdumpState.WriteData | dump.c:1348-1405 | stored compressed if smaller; its descriptor says where |
| Kdump.KdumpState.WritePage | dump.c:1333-1414 | one descriptor and, for a page that is not zero, its data |
| Kdump.Drain | dump.c:1417-1427 | one cache is in the file, and the other one still holds what it held |
| Kdump.KdumpState.Sync | dump.c:1417-1427 | both caches are in the file |
| Kdump.KdumpState.WriteDumpPages | dump.c:1274-1447 | descriptors and data of all frames, and nothing below them changed |
| Kdump.CreateKdump | dump.c:1449-1503 | a reader finds exactly the RAM pages in both bitmaps, and for page p of a block the bytes at the block's host address plus the distance of p from the block's start, over the descriptor at p's rank |
| SoftTlb.Widen | cputlb.c:200-219 | the finest mask, coarser than both, under which region and page agree |
| SoftTlb.InRegion | cputlb.c:80-97 | every address of a covered page is in the region |
| SoftTlb.WidenedRegion | cputlb.c:200-219 | the widened region covers the new page and all earlier ones |
| SoftTlb.FirstRegion | cputlb.c:200-209 | the first large page is its own region |
| SoftTlb.FieldHits | cputlb.c:267-296 | an allowed access hits the page and no other, a forbidden one hits nothing |
| SoftTlb.IndexShared | cputlb.c:267-270 | pages share an entry exactly if their numbers agree in the low eight bits |
| SoftTlb.NewEntryOk | cputlb.c:267-296 | a new entry translates its own page at most |
| SoftTlb.NotInLarge | cputlb.c:80-97 | outside the region only small pages contain an address |
| SoftTlb.CpuTlb.constructor | cputlb.c:49-66 | an empty table translates nothing and has no region |
| SoftTlb.CpuTlb.Flush | cputlb.c:49-66 | no entry is left |
| SoftTlb.CpuTlb.AddLargePage | cputlb.c:200-219 | the region covers every large page since the last full flush, and is no larger than the finest mask makes it |
| SoftTlb.CpuTlb.SetPage | cputlb.c:224-297 | one entry is set: reads, writes and fetches of the page hit it exactly if they are allowed, and nothing else does; the region covers the page if it is large |
| SoftTlb.CpuTlb.FlushEntry | cputlb.c:68-78 | an entry goes exactly if it translates the address |
| SoftTlb.CpuTlb.FlushPageEntries | cputlb.c:99-109 | exactly the entries that translate the page go |
| SoftTlb.CpuTlb.FlushPage | cputlb.c:80-110 | no entry in any mode translates the page; everything goes if the address is in the region, and so if it is in a large page set since the last full flush; otherwise exactly the entries for the page go |

## Left out

- Following IOMMUs from region to region, which `address_space_translate` does around this lookup, and its page limit for direct accesses; regions stand for their identity, and their sizes are a parameter.
- Reference counts of memory regions, RCU and the reuse of freed dispatch tables are not modelled.
- RamList: the search never considers the gap before the first block, as in the code; host memory, `-mem-path` and Xen allocation are not modelled.
- UnalignedIo: which clusters are allocated is not part of the state, so whether a copy-on-read copies is left open; driver errors inside a store, partial writes and stores that are not atomic on the driver are not modelled, a request may only end early.
- `BDRV_REQ_ZERO_WRITE`, write-zeroes and discard requests; nested requests of one coroutine; the wake-up order of waiters.
- Multiwrite.SortBySector: does not model `qsort` itself; equal sectors may come out in the order it picks.
- Multiwrite: the limit on merged iovec counts is kept, the driver's own merge hook is not; a device without a medium, for which every request fails at once, is not modelled.
- RamMigration: one bulk pass over a fixed list of blocks; a change of the block list restarts the bulk stage and is not modelled, nor is RDMA.
- RamPages: a cache insertion always succeeds; sending happens in one step with reading the page, so asynchronous page buffers are not modelled.
- Migration rate limits, throttling and statistics: driven by clocks.
- RamStream.RamReceiver.RamLoad: of a failed load only the failure is stated, not what it has left in memory; a page outside its block, which the code does not check for, fails; no RDMA hook is installed; both sides list the blocks in the same order.
- Xbzrle.EncodeBuffer: every run is short enough for a two-byte length, which the code asserts of the runs that it reaches.
- KvmSlots: flags, dirty logging and the workaround for kernels with a broken region update; a full slot array is a failed call instead of an abort.
- KvmSlots.KvmState.SetUserMemoryRegion: the kernel is a list of regions that must not overlap.
- ElfDump: ELF and note headers are a given prefix; addresses do not wrap.
- Kdump: the main and sub headers are a given prefix, compressors are a parameter, and the flattened records are taken as put in place.
- SoftTlb: addends, I/O addresses, watchpoints and the jump cache; only the address fields decide what is translated.
- Block migration, coroutines, option parsing and the monitor: no property of the modelled parts depends on them.
