# Verification model of the Rhoudveine kernel core

This project models seven parts of the kernel in Dafny and proves what they keep, call by call and over whole runs.
Code that works in place is modelled in place: classes with the driver's own fields, arrays for bitmaps, rings,
buffers and node pools, linked `next` pointers for queues, and loops with invariants. Each such method is tied to a
specification function or state machine on values, about which the lemmas are stated.

| file | what it models |
|---|---|
| `FrameAllocator.dfy` | the two frame bitmaps of `mm.c`, the set of free frames they stand for, and their construction from the boot memory map |
| `PageTables.dfy`, `VirtualMemory.dfy` | the 4-level page tables as a tree in memory (section 4.5 of the Intel SDM, volume 3A), `map_page` and `mmio_remap` |
| `FatChains.dfy`, `FatFiles.dfy` | FAT32 cluster chains as linked lists in the FAT, files as the bytes along a chain, reading and writing |
| `DirSlots.dfy`, `DirEntries.dfy`, `ShortNames.dfy`, `Directories.dfy`, `DirPlacement.dfy`, `DirCreate.dfy` | FAT directories: long-name and 8.3 slots, lookup, listing and creation (Microsoft FAT32 File System Specification 1.03, "FAT Long Directory Entries") |
| `EventRing.dfy`, `TransferRing.dfy` | the xHCI rings as interleaved steps of driver and controller (xHCI specification, sections 4.9.4 and 4.9.2) |
| `NamespaceTree.dfy`, `VfsPaths.dfy`, `Namespace.dfy` | the ramfs node pool with mounts, path resolution, `vfs_mkdir`, `vfs_create` and `vfs_mount` |
| `PathNormalizer.dfy` | `resolve_path` of the init program |
| `TaskScheduler.dfy` | run queues, rotation and tick accounting of `sched.c` |
| `DeadlineQueue.dfy` | the deadline I/O scheduler of `blk.c` |

`dafny verify dfyconfig.toml` checks the whole project.

## Modelling decisions

- **Disk and hardware.** A disk read or write is a nondeterministic success flag; a failed write leaves that one
  cluster with unknown contents. `faults` counts the failures, because the code ignores some of them; file and
  directory contents are stated for runs without new faults, chain shape and the other files for all runs.
- **Integers.** 32-bit and 64-bit truncation is written out where it can matter: cluster count and file size in
  `fat32_write`, the size rounding of `mmio_remap`, the runtime counter of a task, 8-bit checksums and bit masks.
- **Ownership.** The ghost map `chains` says which cluster chain belongs to which open node; one node per file is assumed.
- **Permissions.** A page can be written when the R/W bit is set at every level of its walk (`Writable`). What the boot
  loader's own tables allow is part of the state the mapper starts from.
- **Two calls.** `CreateThenFind` is a creation followed by a lookup of the same name, to state what the two do together;
  the code has no function of its own for it.
- **Controllers.** The xHCI controller posts an event only while the published dequeue pointer leaves room. It follows
  the Link of the transfer ring as a step of its own.

## Where the code departs from its promises

The model follows the code; each of these is a lemma, and where the promise fails the exact condition is proved.

- `fat32_vfs.c` compares `entry->name[0]`, a signed char, with 0xE5. The test never holds, so slots of deleted files
  are listed and not reused (`DeletedFilesAreListed`, `ListingsAgreeIff`).
- A created name is found if and only if it is findable (at most 247 characters if it has a long name, else a proper 8.3
  name: "AB." is not), its slots fit a cluster, and the directory had no end mark or its first one started a long enough
  run of end marks in its own cluster (`Create`, `CreatedLookups`). Otherwise the call reports success and the entry lies
  behind an end mark, is cut off, or answers to another name (`CrampedDirectoryLosesNames`, `CutEntryListed`,
  `NewEntryMatches`). For names that are not findable this holds in a tidy directory without stray long-name slots.
- When 31 keyboard transfers are queued while the controller still waits on the Link, the Link is rewritten for the next
  pass and the ring stops for good (`StuckHappens`, `StuckForGood`); a limit of 30 outstanding transfers is exactly what
  rules it out (`NeverStuckIff`). The driver queues one transfer and then one for each transfer event; if the events
  are the ring's own, one stays outstanding (`PacedStaysWithin`).
- `mm_init` reserves 32 pages for two bitmaps of 64 pages each, so frames that hold bitmaps are given to the pools
  (`BitmapFrameIsFree`, `BitmapsAreGivenAway`), and an entry with fewer than 128 whole pages does not contain them
  (`BitmapsStayInsideIff`). It frees reclaimable memory, so boot page tables that lie there are
  given away too (`TablesAreSafeIff`, `ReclaimableTableIsFreed`). An entry whose sums wrap 64 bits loses its frames or
  gains some that are not its own (`WholeFrames`).
- `mmio_remap` hands out windows from 0xFFFFFFFF80000000 upwards and reaches the kernel image at 0xFFFFFFFF80200000
  after 512 pages (`KernelKeptIff`, `KernelPageLost`).
- `resolve_path` cuts components at 127 characters and writes behind its buffer when a component meets a full one
  (`ResolvePath`, `StoredExactIff`).
- `pfa_free` of an address from 1 to 4095 frees frame 0, which a later `pfa_alloc_low` returns as if the pool were empty
  (`UnalignedFreeBreaksNull`, `NullStaysOutIff`).
- A file size is right if and only if the write ends below 4 GB (`SizeExact`).
- `vfs_mkdir` checks no duplicates, stores 31 characters of a name and 255 of the parent path (`CreateThenResolve`). A second mount on the
  same path lands on the root of the first and is never seen (`MountThenResolve`).
- A task that is not ready and reaches the head of the queue keeps all others from running (`FairIffAllReady`).
- Without an I/O scheduler `blk_init` announces FIFO mode, but requests are dropped (`BlkSubmitRequest`).

## Model

| member | source | states |
|---|---|---|
| `Bitmap.TakeLowest` | src/impl/kernel/core/mm.c:132-178 | the scan that skips 0xFF bytes and then takes the lowest clear bit removes exactly the least free frame of the pool, and fails exactly when the pool is empty |
| `Bitmap.Release` | src/impl/kernel/core/mm.c:96-127 | a release adds exactly its frame to the pool; it is counted exactly when the frame was not free before |
| `Bitmap.SetUsedRemoves` | src/impl/kernel/core/mm.c:75-78 | or-ing in one mask removes one frame from the set the bitmap stands for, and no other |
| `Bitmap.SetFreeAdds` | src/impl/kernel/core/mm.c:80-83 | and-ing out one mask adds one frame to the set, and no other |
| `FramePool.RunConserves` | src/impl/kernel/core/mm.c:96-178 | over every run in which clients free only frames they hold, held and free frames are disjoint and together are the frames registered at the start; frame 0 stays out of the pools |
| `FramePool.AllocationIsFresh` | src/impl/kernel/core/mm.c:132-178 | in such a run every allocation returns the least free frame of its pool, never one that is held; 0 is returned exactly when the pool is empty; low results lie below 4 GB |
| `FramePool.NullMeansEmpty` | src/impl/kernel/core/mm.c:132-154 | a low allocation answers 0 exactly for an empty pool if and only if frame 0 is not in the pool |
| `FramePool.NullStaysOutIff` | src/impl/kernel/core/mm.c:96-154 | over any run whatever, frame 0 stays out of the low pool if and only if nobody frees an address from 1 to 4095 |
| `FramePool.UnalignedFreeBreaksNull` | src/impl/kernel/core/mm.c:96-111 | outside that discipline: freeing address 1 frees frame 0, and the next low allocation returns 0 from a pool that was not empty |
| `FrameAllocator.FindPlacement` | src/impl/kernel/core/mm.c:323-345 | the bitmaps go to the first usable entry whose whole frames do not start at 0 and span 32 pages; 0 is returned exactly when there is none |
| `FrameAllocator.WholeFrames` | src/impl/kernel/core/mm.c:378-381 | rounding the base up and the end down in 64 bits leaves exactly the frames wholly inside the entry if and only if neither sum wraps (or both do and the end wraps into the null frame) |
| `FrameAllocator.NextFrame` | src/impl/kernel/core/mm.c:383-401 | one turn of the descending loop registers one more available frame, or none if it is frame 0, reserved or out of span |
| `FrameAllocator.Allocator.RegisterEntry` | src/impl/kernel/core/mm.c:368-402 | one entry adds exactly its available frames to what the earlier entries gave, overlaps included, each counted once |
| `FrameAllocator.Allocator.MmInit` | src/impl/kernel/core/mm.c:289-402 | for any memory map, wrapped sums included: it succeeds exactly when some entry has room for the reservation; the free set is then exactly the non-null frames the loops see of usable or reclaimable entries, outside the reserved range and inside the tracked span, each counted once |
| `FrameAllocator.FramesOfMap` | src/impl/kernel/core/mm.c:304-402 | for a map without wrapped sums, frame by frame: a frame is in the low or high pool if and only if it is not frame 0, lies wholly in an entry of type 0 or 5, is none of the 32 frames from the placement on, and is on that side of 4 GB and below 12 GB |
| `FrameAllocator.UsableFrames` | src/impl/kernel/core/mm.c:314-402 | the reservation keeps out exactly 32 frames: those before the placement and those behind the 32 stay available |
| `FrameAllocator.BitmapFrameIsFree` | src/impl/kernel/core/mm.c:314-402 | of the 128 frames that hold the bitmaps, one is in a free pool if and only if it is the 33rd or later, tracked, and RAM of some entry |
| `FrameAllocator.BitmapsAreGivenAway` | src/impl/kernel/core/mm.c:314-402 | so an entry with room for more than the 32 reserved pages gives a frame of its own bitmaps to the pools |
| `FrameAllocator.BitmapsStayInsideIff` | src/impl/kernel/core/mm.c:314-356 | the cleared bitmaps lie inside the entry that hosts them if and only if it has 128 whole pages; the search asks for 32 |
| `FrameAllocator.Allocator.PfaFree` | src/impl/kernel/core/mm.c:96-127 | refines the free step of the two-pool specification for every address, ignored ones included; the totals rise by the effective frees |
| `FrameAllocator.Allocator.PfaAllocLow` | src/impl/kernel/core/mm.c:132-154 | refines the low allocation step; the counter stays the number of zero bits |
| `FrameAllocator.Allocator.PfaAlloc` | src/impl/kernel/core/mm.c:157-178 | refines the high allocation step |
| `PageTables.LinkedTables` | src/impl/kernel/core/mm.c:229-268 | hanging a zeroed unused frame into an empty entry makes exactly one more path lead to a table and moves no other table |
| `PageTables.LinkedLarge` | src/impl/kernel/core/mm.c:229-268 | it moves, adds and hides no large page |
| `PageTables.LargeEndsWalk` | src/impl/kernel/core/mm.c:235-272 | an entry with the large-page bit on the way is where the walk of every page below it ends |
| `PageTables.LinkKeepsWalks` | src/impl/kernel/core/mm.c:229-268 | so the tables still form a tree and every walk, to a small or a large page, ends where it did |
| `PageTables.FlagsKeepWalks` | src/impl/kernel/core/mm.c:239-272 | adding caching bits to an entry on the way keeps the tree and every walk |
| `PageTables.LeafWriteWalks` | src/impl/kernel/core/mm.c:274-275 | writing a leaf changes the walk of that page and of no other |
| `PageTables.WritableIff` | src/impl/kernel/core/mm.c:235-275 | a page can be written, that is the R/W bit is set at every level of its walk, if and only if it is mapped and both the entries above the last level and its own let it be |
| `PageTables.BuildingKeepsWays` | src/impl/kernel/core/mm.c:229-272 | building the way to a page, whose new tables are writable, changes for no page whether the levels above let it be written |
| `VirtualMemory.PathIsPageNumber` | src/impl/kernel/core/mm.c:211-214 | two addresses have the same four table indices exactly when they have the same 36-bit page number |
| `VirtualMemory.PageNumberDigits` | src/impl/kernel/core/mm.c:211-214 | the four indices, top level first, are the base-512 digits of the page number |
| `VirtualMemory.Vmm.TableFor` | src/impl/kernel/core/mm.c:210-272 | for a page that lies on no large page, the upper three levels are found or built; it succeeds exactly when the low pool has as many frames as tables are missing, takes exactly those, and no page, small or large, changes its walk or its permission to be written; each existing entry on the way gets the caching bits, each new one is present and writable with the caching bits, and no other entry changes |
| `VirtualMemory.Vmm.MapPage` | src/impl/kernel/core/mm.c:210-283 | on success the walk of the page yields the given frame and flags and every other page, on large pages included, its old translation; the page can then be written if and only if the flags say so and the tables that were already on its way let it be, and no other page becomes or ceases to be writable; out of frames, every walk and permission is unchanged; free frames stay outside all tables |
| `VirtualMemory.CachedAtEveryLevel` | src/impl/kernel/core/mm.c:218-275 | a page that is mapped write-through or uncached has that bit in its entries at all four levels |
| `VirtualMemory.TablesAreSafeIff` | src/impl/kernel/core/mm.c:229-402 | after the start no free low frame holds a boot table if and only if the memory map made none of their frames available: the condition under which the mapper may be started |
| `VirtualMemory.ReclaimableTableIsFreed` | src/impl/kernel/core/mm.c:304-402 | a boot table in a reclaimable entry, where the loader keeps its own, is in the free pool |
| `VirtualMemory.WindowsKept` | src/impl/kernel/core/mm.c:442-449 | mapping a page above the recorded windows leaves all of them mapped |
| `VirtualMemory.AboveWindowKept` | src/impl/kernel/core/mm.c:423-455 | every page at or above the end of a new window keeps its walk |
| `VirtualMemory.KernelKeptIff` | src/impl/kernel/core/mm.c:423-455 | a complete window that starts below 0xFFFFFFFF80200000 leaves every page of the kernel image as it was if and only if it ends at or below that address |
| `VirtualMemory.KernelPageLost` | src/impl/kernel/core/mm.c:423-455 | it does not hold for ever: the window that starts after 512 pages puts a device page where the kernel image starts |
| `VirtualMemory.WindowTranslates` | src/impl/kernel/core/mm.c:442-447 | every byte of a complete window translates to the consecutive physical byte |
| `VirtualMemory.WindowServesDevice` | src/impl/kernel/core/mm.c:423-455 | byte k of the returned pointer translates to physical address + k, up to the cap of 64 pages |
| `VirtualMemory.WindowIsTight` | src/impl/kernel/core/mm.c:433-440 | the last page of a window holds a requested byte, and unless the window was capped at 64 pages no requested byte lies behind it; a request for no bytes gets one page |
| `VirtualMemory.WindowsWritable` | src/impl/kernel/core/mm.c:423-455 | in every reachable state each page of each complete window can be written if and only if the tables that the boot loader left on its way let it be |
| `VirtualMemory.NoTableIsWritable` | src/impl/kernel/core/mm.c:235-268 | so it can where the boot loader left no table on the way |
| `VirtualMemory.Vmm.MmioRemap` | src/impl/kernel/core/mm.c:423-455 | low addresses come back unchanged; a high one gets the next pages of the region, disjoint from and above all earlier windows, which stay mapped; no page outside the new window changes its walk, and for no page the levels above the last change whether it can be written; the window is complete unless the low pool ran dry |
| `FatChains.FreeIsUnowned` | src/impl/kernel/fs/fat32_vfs.c:63-86 | a FAT entry with value 0 lies in no live chain |
| `FatChains.AppendedShape` | src/impl/kernel/fs/fat32_vfs.c:89-101 | marking a free cluster as an end and hanging it behind a chain keeps all chains finite, acyclic, in range and disjoint |
| `FatChains.MarkedShape` | src/impl/kernel/fs/fat32_vfs.c:63-86 | marking a free cluster alone (an allocation whose FAT write failed) leaves every chain as it was |
| `FatChains.EntryWithinChain` | src/impl/kernel/fs/fat32_vfs.c:192-218 | along a chain an end mark is met at its last cluster and nowhere else, so every walk terminates there |
| `FatChains.ChainIsUnique` | src/impl/kernel/fs/fat32_vfs.c:41-48 | the first cluster determines the whole chain |
| `FatChains.FlatOverwrite` | src/impl/kernel/fs/fat32_vfs.c:259-293 | overwriting a piece of the k-th cluster overwrites the same piece of the file and nothing else |
| `FatChains.OtherFilesKept` | src/impl/kernel/fs/fat32_vfs.c:224-304 | a change confined to one chain leaves the bytes of every other chain alone |
| `FatFiles.Volume.AllocCluster` | src/impl/kernel/fs/fat32_vfs.c:63-86 | first fit: the least free cluster from 2 on is marked as an end; it fails only on a full disk or when the FAT cannot be written; the four reserved bits of every entry are kept |
| `FatFiles.Volume.ExtendChain` | src/impl/kernel/fs/fat32_vfs.c:89-101 | exactly one fresh cluster, in no other chain, is appended to exactly one chain; only a full disk or a disk error prevents it, and then nothing happens to the chains |
| `FatFiles.Volume.FirstCluster` | src/impl/kernel/fs/fat32_vfs.c:234-239 | a file without clusters gets one fresh cluster of its own |
| `FatFiles.Volume.SkipClusters` | src/impl/kernel/fs/fat32_vfs.c:241-254 | the walk to the start of the write, lengthening only this chain where it ends |
| `FatFiles.Volume.WriteTurn` | src/impl/kernel/fs/fat32_vfs.c:259-293 | one turn of the write loop extends the patch by its chunk, touches only clusters of this file and positions the next turn |
| `FatFiles.SizeExact` | src/impl/kernel/fs/fat32_vfs.c:297-301 | the 32-bit size field becomes max(old, offset + length) if and only if the write ends below 4 GB |
| `FatFiles.SeekExact` | src/impl/kernel/fs/fat32_vfs.c:242-256 | the walk stops at the requested offset if and only if the cluster count fits its 32-bit variable, as it does below 4 GB |
| `FatFiles.ExactPatch` | src/impl/kernel/fs/fat32_vfs.c:297-301 | below 4 GB the patch of the clusters, cut at the new size, is the patch of the file at the requested offset |
| `FatFiles.Volume.Write` | src/impl/kernel/fs/fat32_vfs.c:224-304 | a fully successful write ending below 4 GB leaves the buffer at the offset, every old byte outside it and size max(old, offset + length); an incomplete one leaves the size; no other file is touched in any case, and every size stays covered by its clusters; without disk errors only a full disk cuts it short |
| `FatFiles.Volume.Read` | src/impl/kernel/fs/fat32_vfs.c:176-222 | the result is exactly the requested slice of the file cut at its size; after a disk error a prefix of it |
| `FatFiles.ReadBack` | src/impl/kernel/fs/fat32_vfs.c:176-304 | what was written is what is read back, and a read that misses the written range sees the old bytes |
| `DirSlots.DeletedFilesAreListed` | src/impl/kernel/fs/fat32_vfs.c:381-386 | the comparison of a signed char with 0xE5 never holds, so the listing exceeds the one the format asks for by exactly the number of deleted files |
| `DirSlots.AttributeBits` | src/impl/kernel/fs/fat32_vfs.c:375-410 | a slot is listed if and only if it is no end mark and attribute bit 0x08 is clear; the long-name test is that all of the bits 0x0F are set |
| `DirSlots.EntryFields` | src/impl/kernel/fs/fat32_vfs.c:443-456 | size and first cluster of an entry are the little-endian numbers in its bytes 28 to 31 and in bytes 26, 27, 20 and 21 |
| `DirSlots.ChecksumRotates` | src/impl/kernel/fs/fat32_vfs.c:609-615 | the checksum takes in a byte by rotating its eight bits to the right by one and adding, modulo 256 |
| `DirSlots.ListingsAgreeIff` | src/impl/kernel/fs/fat32_vfs.c:375-467 | the listing equals the one the format asks for if and only if no deleted file precedes the end mark and no live slot gets a name from continuation slots behind a deleted long-name slot |
| `DirSlots.LookupIsLeast` | src/impl/kernel/fs/fat32_vfs.c:348-475 | a lookup is the entry with the least index in the listing that answers to the name, or nothing if none does |
| `DirSlots.ShortNameRoundTrip` | src/impl/kernel/fs/fat32_vfs.c:116-163 | a name survives the 8.3 field, up to case, if and only if it has no space and no zero byte, a base of at most 8 characters and, with a dot, an extension of 1 to 3 |
| `DirSlots.CaseEqIff` | src/impl/kernel/fs/fat32_vfs.c:336-346 | equality up to case: same length, and each character the same or the same ASCII letter in the other case |
| `DirSlots.ShownInLowerCase` | src/impl/kernel/fs/fat32_vfs.c:116-163 | such a name comes back from the 8.3 field as its lower-case form |
| `ShortNames.StrCaseCmp` | src/impl/kernel/fs/fat32_vfs.c:336-346 | the loop returns 0 exactly when the C string in the buffer equals the name up to ASCII case |
| `ShortNames.ToNormalName` | src/impl/kernel/fs/fat32_vfs.c:116-137 | the loops write the shown form of an 11-byte name; a zero byte in the field ends the C string |
| `ShortNames.ToFatName` | src/impl/kernel/fs/fat32_vfs.c:140-163 | the loops compute the 8.3 field of a name |
| `ShortNames.FatNameBytes` | src/impl/kernel/fs/fat32_vfs.c:140-163 | byte by byte: the 8.3 field holds what stands before the first dot and what follows it, in upper case, each cut and padded with spaces |
| `ShortNames.ToShortName` | src/impl/kernel/fs/fat32_vfs.c:618-659 | the loops compute the made-up short name: six characters, ~1, last extension |
| `ShortNames.MadeNameBytes` | src/impl/kernel/fs/fat32_vfs.c:618-659 | byte by byte: the made-up short name holds the first six characters before the first dot, ~1, and three behind the last dot |
| `DirEntries.LfnCharDecodes` | src/impl/kernel/fs/fat32_vfs.c:396-402 | each of the 13 character places of a long-name slot decodes to the character, terminator or padding encoded there |
| `DirEntries.LfnHeader` | src/impl/kernel/fs/fat32_vfs.c:797-808 | the fixed bytes of long-name slot i: its number, with 0x40 for the slot that comes first, attribute 0x0F, the checksum, and zero in bytes 12, 26 and 27 |
| `DirEntries.LfnUnits` | src/impl/kernel/fs/fat32_vfs.c:810-823 | its 13 characters lie at the 16-bit places 1, 3, 5, 7, 9, 14 to 24 and 28, 30 of the format; one zero follows the name and then 0xFFFF |
| `DirEntries.SfnLayout` | src/impl/kernel/fs/fat32_vfs.c:825-843 | the bytes of the short slot: name, attribute, first cluster in two halves, and zero everywhere else |
| `DirEntries.SlotsTaken` | src/impl/kernel/fs/fat32_vfs.c:667-695 | a name of more than eight characters or with a lower-case letter takes one slot and one more for every 13 characters begun; any other name takes one |
| `DirEntries.LfnRunDecodes` | src/impl/kernel/fs/fat32_vfs.c:797-823 | the slots written in reverse order with the 0x40 mark fill the name buffer with the encoded name, multiples of 13 included |
| `DirEntries.DecodedName` | src/impl/kernel/fs/fat32_vfs.c:389-404 | the buffer then reads as exactly the name, cut at 247 characters |
| `DirEntries.EncodeThenScan` | src/impl/kernel/fs/fat32_vfs.c:389-467 | encoding and then scanning adds one entry with the long name, the short name, attributes, cluster and size; the stored checksum is the recomputed one |
| `DirEntries.NewEntryMatches` | src/impl/kernel/fs/fat32_vfs.c:412-429 | the new entry answers to its name if the name is findable, and otherwise not; it always answers to its short name |
| `DirEntries.FindableNames` | src/impl/kernel/fs/fat32_vfs.c:667-695 | which ASCII names are findable: those of more than eight characters or with a lower-case letter if and only if they have at most 247 characters; the others if and only if they have no space and, behind a first dot, one to three characters |
| `DirPlacement.FirstRunIff` | src/impl/kernel/fs/fat32_vfs.c:706-739 | the first free run in chain order has no end mark before it if and only if the first end mark of the directory, if any, starts a long enough run inside its own cluster |
| `DirPlacement.FullIff` | src/impl/kernel/fs/fat32_vfs.c:741-757 | a directory with no free run grows; the new cluster has no end mark before it if and only if the same holds of the old ones |
| `DirPlacement.CreationListed` | src/impl/kernel/fs/fat32_vfs.c:793-850 | the new slots add one entry to the end of the listing if that condition held before the call, and nothing otherwise; in a tidy directory nothing else comes to light, and it stays tidy |
| `DirPlacement.CutEntryListed` | src/impl/kernel/fs/fat32_vfs.c:741-757 | a name that needs more slots than a cluster has is cut at the end of the new cluster, before its short entry: nothing new is listed |
| `DirPlacement.CreatedLookups` | src/impl/kernel/fs/fat32_vfs.c:348-475 | a created, findable name is found if and only if the condition held, as exactly the new entry; in a tidy directory that does not end in stray long-name slots any created name is found if and only if the condition held and the name is findable; every name the entry does not answer to is looked up as before |
| `DirPlacement.OrdinaryNamesFound` | src/impl/kernel/fs/fat32_vfs.c:348-475 | if there was room, every ASCII name of 9 to 247 characters, and every shorter one with a lower-case letter, is found after its creation under its full long name |
| `DirPlacement.CreatedNode` | src/impl/kernel/fs/fat32_vfs.c:432-459 | the node a lookup makes of a created findable name: a directory for attribute 0x10 and a file for 0x20, the new first cluster, size 0, and the created name cut at 127 characters (in lower case if no long-name slots were stored) |
| `DirPlacement.RunLists` | src/impl/kernel/fs/fat32_vfs.c:852-869 | over any run of creations that each had room, a tidy directory stays tidy and its listing is the old one with the new entries behind it, in the order of their creation |
| `DirPlacement.NamesKept` | src/impl/kernel/fs/fat32_vfs.c:852-869 | a name found at one point of such a run is found from then on, as the same entry |
| `DirPlacement.RunKeepsNames` | src/impl/kernel/fs/fat32_vfs.c:852-869 | so every findable name that was created is found to the end of the run, as the entry made for it |
| `DirPlacement.CrampedDirectoryLosesNames` | src/impl/kernel/fs/fat32_vfs.c:706-757 | a directory that fails: a cluster of 512 bytes with 15 entries and one end mark, and a findable name that needs two slots; the entry is written and never found |
| `Directories.ComputeChecksum` | src/impl/kernel/fs/fat32_vfs.c:609-615 | the rotate-and-add loop computes the checksum used in the slots |
| `Directories.ClassifySlot` | src/impl/kernel/fs/fat32_vfs.c:375-410 | the chain of tests on one slot is one step of the scan |
| `Directories.KindShown` | src/impl/kernel/fs/fat32_vfs.c:443-459 | a node is a directory if and only if attribute bit 0x10 of its entry is set |
| `Directories.FindInCluster` | src/impl/kernel/fs/fat32_vfs.c:371-467 | the inner loop finds the first match of the scan in this cluster |
| `Directories.FindDir` | src/impl/kernel/fs/fat32_vfs.c:348-475 | lookup over the whole cluster chain equals lookup in the listing: same name, size, kind and first cluster |
| `Directories.ReadDir` | src/impl/kernel/fs/fat32_vfs.c:477-606 | readdir(k) is entry k of the same listing, without gaps, and nothing past its end |
| `DirCreate.FindRun` | src/impl/kernel/fs/fat32_vfs.c:714-737 | the search within a cluster returns the least start of a long enough run of free slots |
| `DirCreate.SearchSpace` | src/impl/kernel/fs/fat32_vfs.c:706-759 | the search along the chain finds the first run: none in an earlier cluster, none before it in its own; or reports that no cluster has one |
| `DirCreate.WriteSlots` | src/impl/kernel/fs/fat32_vfs.c:793-843 | the slot-filling code puts exactly the encoded slots into the run and keeps the rest of the cluster |
| `DirCreate.RunTakenAlong` | src/impl/kernel/fs/fat32_vfs.c:793-847 | slots put into one cluster are put at the corresponding place of the directory |
| `DirCreate.GrowDirectory` | src/impl/kernel/fs/fat32_vfs.c:741-757 | a full directory grows by one zeroed cluster, which adds only end marks; all other files keep their bytes |
| `DirCreate.WriteDots` | src/impl/kernel/fs/fat32_vfs.c:774-790 | the cluster of a new directory starts with "." and ".." and only end marks follow |
| `DirCreate.NewDirectoryHasRoom` | src/impl/kernel/fs/fat32_vfs.c:774-790 | a new directory meets the condition for every entry that fits its cluster behind the two dots |
| `DirCreate.NewDirectoryIsTidy` | src/impl/kernel/fs/fat32_vfs.c:774-790 | a new directory is tidy and has no stray long-name slots, so such a run can start in it |
| `DirCreate.NewDirectoryLists` | src/impl/kernel/fs/fat32_vfs.c:774-790 | a new directory lists "." with its own cluster and ".." with its parent's cluster, or with 0 if the parent is the root |
| `DirCreate.StillBacked` | src/impl/kernel/fs/fat32_vfs.c:662-850 | creation keeps every file size covered by its clusters, so reading and writing compose with it |
| `DirCreate.CreateEntry` | src/impl/kernel/fs/fat32_vfs.c:662-850 | without disk errors the directory is the old one (plus a zeroed cluster) with the new slots in the first free run, which has an end mark before it exactly when the directory did not meet the condition; if they are more than a cluster has, they go into the new cluster, cut at its end; a new directory holds its two dots; every other chain and its bytes are kept |
| `DirCreate.Create` | src/impl/kernel/fs/fat32_vfs.c:852-869 | refuses a name that is already found; a created findable name is found afterwards if and only if, before the call, its slots fitted a cluster and the directory had no end mark or its first one started a long enough run in its own cluster; in a tidy directory without stray long-name slots at its end, a name is found if and only if besides it is findable; a new directory gets a cluster that no chain had and holds its two dots, a file gets none; without disk errors only a full disk keeps an absent name from being created |
| `DirCreate.CreateThenFind` | src/impl/kernel/fs/fat32_vfs.c:348-475 | create and then look up: without disk errors the name comes back if and only if there was room, a new directory as a directory with its new cluster and a file as a file with cluster 0, both of size 0 and with the created name cut at 127 characters; an ASCII name of n = 9 to 247 characters, or a shorter one with a lower-case letter, if and only if there was room for 1 + ceil(n/13) slots |
| `EventRing.EventIffPending` | src/impl/kernel/drivers/xhci.c:226-246 | the cycle bit at the dequeue slot matches the cycle state exactly when an unconsumed event exists, and the slot then holds the oldest one |
| `EventRing.StepKeepsInv` | src/impl/kernel/drivers/xhci.c:226-246 | every step of the controller and of the driver keeps the ring invariant, any number of wraps included |
| `EventRing.NothingLost` | src/impl/kernel/drivers/xhci.c:954-994 | in every state of every interleaving, consumed followed by pending is produced: no loss, duplication or reordering |
| `EventRing.Driver.TakeEvent` | src/impl/kernel/drivers/xhci.c:226-240 | takes the oldest unconsumed event, if there is one, and steps dequeue index and cycle state |
| `EventRing.Driver.PollEvent` | src/impl/kernel/drivers/xhci.c:226-246 | one turn of the command wait loop: take one event and publish the dequeue pointer |
| `EventRing.Driver.FlushEvents` | src/impl/kernel/drivers/xhci.c:676-691 | the flush takes up to 16 events, or all there are, and publishes once |
| `EventRing.Driver.PollEvents` | src/impl/kernel/drivers/xhci.c:954-994 | the keyboard poll takes up to four events in order, and fewer only when none is left; if it took any, the dequeue pointer is published and the controller has room to post again; if not, nothing changes |
| `EventRing.PublishedHasRoom` | src/impl/kernel/drivers/xhci.c:954-994 | with everything published the controller can post if and only if fewer than 32 events are pending |
| `TransferRing.ControllerMoves` | src/impl/kernel/drivers/xhci.c:911-947 | the controller can fetch exactly when a transfer is pending in front of it, and can follow the Link exactly when it stands on it and is not stuck |
| `TransferRing.QueueKeepsInv` | src/impl/kernel/drivers/xhci.c:911-947 | queueing with fewer than 31 outstanding overwrites no unfetched slot and keeps the invariant through any number of passes |
| `TransferRing.QueueKeepsInvIff` | src/impl/kernel/drivers/xhci.c:911-947 | with 31 outstanding it breaks it |
| `TransferRing.QueuedRequests` | src/impl/kernel/drivers/xhci.c:911-931 | in every state of every run, transfer j asks for 8 bytes in the j-th buffer that was queued and for an interrupt on completion |
| `TransferRing.RequestControl` | src/impl/kernel/drivers/xhci.c:918-930 | its control word has type 1 in bits 10 to 15, bit 5 and the cycle bit set, and no other |
| `TransferRing.FetchesInOrder` | src/impl/kernel/drivers/xhci.c:911-947 | in every state of every run with at most 31 outstanding the controller has fetched exactly a prefix of what was queued; with at most 30 it stops exactly when nothing is pending; at 31 it may also stop in the stuck state |
| `TransferRing.StuckForGood` | src/impl/kernel/drivers/xhci.c:932-946 | the stuck state (31 queued again while the controller still waits on the Link) is never left |
| `TransferRing.StuckHappens` | src/impl/kernel/drivers/xhci.c:932-946 | a run from the empty ring reaches the stuck state: queue 31, fetch 31, queue 31 |
| `TransferRing.NeverStuckIff` | src/impl/kernel/drivers/xhci.c:911-947 | no run gets stuck if and only if at most 30 transfers may be outstanding |
| `TransferRing.PacedStaysWithin` | src/impl/kernel/drivers/xhci.c:911-990 | a driver that queues m transfers of its own accord and one for each that was fetched never has more than m outstanding, though it does not count them |
| `TransferRing.PacedNeverStuckIff` | src/impl/kernel/drivers/xhci.c:863-990 | so it is never stuck, whatever the interleaving, if and only if m is at most 30; the driver queues one when the endpoint is configured |
| `TransferRing.KbdRing.QueueTransfer` | src/impl/kernel/drivers/xhci.c:911-947 | refines the queue step, however many are outstanding; the ring stays in order exactly when fewer than 31 were; nothing happens before the endpoint is configured |
| `NamespaceTree.PathIsUnique` | src/impl/kernel/fs/vfs.c:232-284 | in the forest of nodes and mounts every node is reached by one path only |
| `NamespaceTree.CreatedIsForest` | src/impl/kernel/fs/ramfs.c:115-151 | a created child keeps the forest: children later in the pool, one parent each, names of at most 31 characters |
| `NamespaceTree.CreatedWalk` | src/impl/kernel/fs/ramfs.c:115-151 | a new entry makes exactly one path resolve, to the new node, or none when its stored name was taken; every other walk is unchanged |
| `NamespaceTree.MountedWalk` | src/impl/kernel/fs/vfs.c:148-174 | a mount on a child node hides what was at and below it: its path resolves to the mounted root, everything below is gone, all else unchanged |
| `NamespaceTree.MountOnRootIsInvisible` | src/impl/kernel/fs/vfs.c:148-174 | a mount on the global root or on the root of another mount changes no walk |
| `VfsPaths.ComponentsSplit` | src/impl/kernel/fs/vfs.c:249-262 | the components of a/b are those of a and then those of b, doubled slashes and over-long names included |
| `VfsPaths.ResolveByParent` | src/impl/kernel/fs/vfs.c:204-284 | resolving a path is resolving its parent and then one mount-crossing step by the base name |
| `VfsPaths.CreateThenResolve` | src/impl/kernel/fs/vfs.c:477-493 | a created path resolves to the new node if and only if its name has 1 to 31 characters, was absent, and the 256-byte dirname buffer did not cut the parent short |
| `VfsPaths.CreateChangesNothingElse` | src/impl/kernel/fs/vfs.c:477-493 | every other path resolves as before |
| `VfsPaths.MountThenResolve` | src/impl/kernel/fs/vfs.c:112-176 | after a mount its path resolves to the mounted root if and only if the path led to a child node |
| `Namespace.VfsBasename` | src/impl/kernel/fs/vfs.c:204-210 | the loop returns what follows the last slash |
| `Namespace.VfsDirname` | src/impl/kernel/fs/vfs.c:212-230 | the loop returns what precedes the last slash, "." without one, the root its slash, cut at 255 characters |
| `Namespace.Vfs.RamfsFindDir` | src/impl/kernel/fs/ramfs.c:72-93 | the slot scan returns the first child of that name; none for a file |
| `Namespace.Vfs.RamfsReadDir` | src/impl/kernel/fs/ramfs.c:95-110 | readdir(k) is the k-th child: children fill a prefix of the slots |
| `Namespace.Vfs.RamfsAllocNode` | src/impl/kernel/fs/ramfs.c:33-70 | takes the next pool node, cleared, or fails when 64 are in use |
| `Namespace.Vfs.RamfsCreate` | src/impl/kernel/fs/ramfs.c:115-151 | succeeds exactly for a directory with a free slot and a free pool node; nothing changes on failure |
| `Namespace.Vfs.VfsResolvePath` | src/impl/kernel/fs/vfs.c:232-284 | the pointer walk with its 255-character component buffer and mount crossing equals the walk of the components |
| `Namespace.Vfs.VfsMkdir` | src/impl/kernel/fs/vfs.c:477-493 | creates an empty directory in the directory of its dirname; the new path then resolves to it exactly under the condition above |
| `Namespace.Vfs.VfsCreate` | src/impl/kernel/fs/vfs.c:439-457 | the same for a file, with the same exact condition for the new path |
| `Namespace.Vfs.VfsMount` | src/impl/kernel/fs/vfs.c:112-176 | mounts a ramfs on the root or on the directory the path resolves to; a mount that fails after allocation leaves its node in the pool |
| `PathNormalizer.ResolvedIsNormal` | init/init.c:126-209 | the output is "/" or proper components each behind one slash, whatever the input |
| `PathNormalizer.NormalHasNoExtraSlash` | init/init.c:126-209 | a normal path is absolute, has no doubled or trailing slash and no "." or ".." component |
| `PathNormalizer.RenderRoundTrip` | init/init.c:147-199 | splitting a rendered component stack gives the stack back |
| `PathNormalizer.ResolveIsIdempotent` | init/init.c:126-209 | normalising a normal path, in particular any output, changes nothing |
| `PathNormalizer.ResolveTwice` | init/init.c:126-209 | resolve(resolve(c, a), b) is resolve(c, a/b) for relative b and non-empty a; the other cases are given too |
| `PathNormalizer.ComponentMoves` | init/init.c:158-186 | from a normal directory a name leads one level down, ".." takes the last name away, and "." and the empty path stay |
| `PathNormalizer.RootIsItsParent` | init/init.c:163-172 | ".." at the root is the root |
| `PathNormalizer.DotsCancel` | init/init.c:158-172 | anywhere in a path a name and the ".." behind it can be left out without changing the result, and so can "." |
| `PathNormalizer.ThereAndBack` | init/init.c:158-172 | a name followed by ".." leads back to every working directory it started from |
| `PathNormalizer.Pop` | init/init.c:165-172 | the backwards scan drops exactly the last component and keeps the slash in front of it |
| `PathNormalizer.TakeSegment` | init/init.c:150-186 | one segment edits the buffer as one step of the stack fold, cut where the 128 bytes end; after "." the buffer holds the same components, after ".." all but the last |
| `PathNormalizer.StoredIff` | init/init.c:173-186 | a step loses nothing if and only if its result fits the buffer |
| `PathNormalizer.FittingIsExact` | init/init.c:145-186 | if every path on the way fits, nothing is cut and nothing is written behind the buffer |
| `PathNormalizer.StoredAllIff` | init/init.c:145-186 | without ".." the buffer holds the folded path if and only if that path fits |
| `PathNormalizer.StoredExactIff` | init/init.c:145-186 | for all inputs the buffer holds the folded path if and only if that path fits and the depth is right |
| `PathNormalizer.NoneDroppedIff` | init/init.c:145-186 | so, ".." included, as long as no component meets a buffer without room for one character, the result is right if and only if it fits |
| `PathNormalizer.ResolvePath` | init/init.c:126-209 | place 128 of the buffer is written if and only if the working directory does not fit or a component meets a full buffer; otherwise the code equals the component-stack fold, with components cut at the end of the buffer, and writes it out as a terminated string that can be the next working directory; the fold itself if every path on the way fits |
| `RoundRobin.KCallsRotate` | src/impl/kernel/core/sched.c:152-177 | with all n tasks ready, k calls leave the queue rotated left by k mod n, and call j runs original task j mod n |
| `RoundRobin.EachRunsItsShare` | src/impl/kernel/core/sched.c:152-177 | each task has then run floor(k/n) times, and once more if its place is below k mod n |
| `RoundRobin.BlockedHeadStops` | src/impl/kernel/core/sched.c:162-164 | a task that is not ready stops the rotation for good when it reaches the head |
| `RoundRobin.FairIffAllReady` | src/impl/kernel/core/sched.c:152-177 | everyone gets a turn within n calls if and only if everyone is ready |
| `Scheduling.TotalWithOneMore` | src/impl/kernel/core/sched.c:103-145 | replacing one queue changes the number of queued tasks by the difference of its lengths |
| `Scheduling.TickAccounts` | src/impl/kernel/core/sched.c:184-193 | a tick keeps slice = 10 - (ticks mod 10) through the reset, and the 64-bit runtime counter |
| `Scheduling.Scheduler.TargetCpu` | src/impl/kernel/core/sched.c:113-135 | the loop finds the first least-loaded eligible CPU, or CPU 0 when none is; if some CPU is online (and no hyperthread in SMT-aware mode) so is the chosen one, and no such CPU has fewer tasks |
| `Scheduling.Scheduler.SchedCreateTask` | src/impl/kernel/core/sched.c:103-145 | a new task goes to the front of that queue, on a CPU that is online (and no hyperthread in SMT-aware mode) if there is one; every created task stays in exactly one queue and the lengths sum to the number created; none beyond 256 |
| `Scheduling.Scheduler.SchedSchedule` | src/impl/kernel/core/sched.c:152-177 | one call is one step of the rotation, loses and duplicates no task, and sets current to the old head, or to the idle task when the queue is empty |
| `Scheduling.Scheduler.SchedTick` | src/impl/kernel/core/sched.c:179-195 | exactly the current task of an online CPU 0 gains one tick; idle tasks never do |
| `DeadlineQueue.InsertSorts` | src/impl/kernel/core/blk.c:39-55 | insertion keeps a queue sorted by deadline |
| `DeadlineQueue.InsertIsStable` | src/impl/kernel/core/blk.c:45-54 | a request goes behind all of its own deadline and disturbs the order of no other class |
| `DeadlineQueue.SortIsUnique` | src/impl/kernel/core/blk.c:39-55 | sortedness and the order within each deadline determine a queue: there is one stable sort |
| `DeadlineQueue.RunKeepsOrder` | src/impl/kernel/core/blk.c:39-70 | over any interleaving of submits and dispatches both queues stay sorted, dispatched plus pending is submitted, and each deadline class is served in submission order |
| `DeadlineQueue.DispatchIsEarliest` | src/impl/kernel/core/blk.c:57-70 | a dispatch returns the earliest pending deadline of its kind, the first submitted of that deadline, and a write only when no read is pending |
| `DeadlineQueue.DrainedIsStableSort` | src/impl/kernel/core/blk.c:39-70 | submitting everything and draining yields all reads and then all writes, each a stable sort of what was submitted |
| `DeadlineQueue.Scheduler.Splice` | src/impl/kernel/core/blk.c:43-54 | the pointer search and splice turn a linked queue into the linked queue of the insertion, without a cycle |
| `DeadlineQueue.Scheduler.MqDeadlineAdd` | src/impl/kernel/core/blk.c:39-55 | refines the submit step and leaves the other queue linked as it was |
| `DeadlineQueue.Scheduler.MqDeadlineGetNext` | src/impl/kernel/core/blk.c:57-70 | refines the dispatch step; NULL exactly when both queues are empty |
| `DeadlineQueue.Scheduler.BlkSubmitRequest` | src/impl/kernel/core/blk.c:150-154 | passes the request on; without a scheduler it is dropped |
| `DeadlineQueue.Scheduler.BlkDispatch` | src/impl/kernel/core/blk.c:156-161 | passes the dispatch on; NULL without a scheduler |

## Left out

- FrameAllocator.Allocator.MmInit: the two bitmaps are arrays apart from the frames, so what clearing them does to memory behind the entry (BitmapsStayInsideIff says when there is any) and what a client of a frame that holds part of a bitmap does to the bitmap is not modelled; that such frames are handed out is stated by BitmapFrameIsFree.
- VirtualMemory.Vmm.MapPage: the large-page bit of entries on the way is not looked at, as in the code, so a page that lies on a large page is excluded; the tables are assumed to lie outside the free frames (TablesAreSafeIff says when they do), and physical addresses below 2^52.
- VirtualMemory.Vmm.MmioRemap: the 2 GB region above 0xFFFFFFFF80000000 must not be exhausted, and the new window must not lie on a large page; TLB effects are not modelled.
- FatFiles.Volume.Write: the bytes between the old end and a write past it are whatever the clusters held, as in the code; a single call with an empty buffer is covered only by what holds for every call.
- FatFiles.Volume.AllocCluster: whether the FAT sector reached the disk is only a success flag; the FAT is the cached page, which is assumed to cover all clusters, and a cluster buffer is assumed to fit its page.
- DirCreate.Create: page allocation failures for the buffers are not modelled; the slots of a name must fit the one-page buffer (names of up to 1651 characters); the on-disk size field of an entry is never updated by the code and so not here.
- DirEntries.NewEntryMatches: the converse for short names assumes that no stray long-name slots precede the entry.
- EventRing.Driver.PollEvent: timeouts, doorbells, port handling, the early exits before the controller is set up and the meaning of the events are left out; reading an event and advancing the index is one atomic step, and so is writing a TRB.
- Namespace.Vfs.VfsMount: only ramfs is mounted; mounting other filesystems, unmounting (which shifts the table under live pointers), open files and the other node fields are left out.
- PathNormalizer.ResolvePath: what the code does after the first write behind its buffer is not modelled; a working directory used by a relative path is one that resolve_path left ("/" at first), as in the init program.
- TransferRing.PacedNeverStuckIff: transfer events of other endpoints, for which the code may also queue a transfer, count towards m.
- Scheduling.Scheduler.SchedCreateTask: task names, the entry function and console output are left out; the pool is a bound of 256 on fresh objects.
- Scheduling.Scheduler.SchedSchedule: only CPU 0 is scheduled, as in the code; context switching is not modelled, and task states other than ready are one value that others may set.
- DeadlineQueue.Scheduler.MqDeadlineAdd: a request must not be submitted while it is still queued; sector, count and buffer play no part.
- The command ring of the xHCI driver refuses at its last slot and never wraps, so only its event consumption is modelled.
- The Kyber and BFQ schedulers delegate to the deadline queues.
- AHCI programming, port I/O, interrupt set-up, xHCI bring-up, the console, ACPI, the ELF loader and system calls: hardware effects or no invariant of their own.
- `fat32.c` is not part of the build and not modelled; devfs, procfs, timers, PCI tables and keyboard decoding would only add easy members.
